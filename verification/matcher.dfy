/** The keyword universe built from the configured seeds, and the
    precedence check that decides whether a certificate domain is reported. */
module Matcher {
  import opened Text
  import DomainFuzz

  predicate AllAscii(ks: seq<String>) {
    forall i :: 0 <= i < |ks| ==> IsAscii(ks[i])
  }

  /** The domain names generated for one seed, `Original*` entry included. */
  function GeneratedNames(k: String): seq<String> {
    if IsAscii(k) then DomainFuzz.Domains(DomainFuzz.Generate(k)) else []
  }

  /** The keyword universe: the seeds themselves, then every domain
      generated for each seed in turn. */
  function FuzzKeywords(ks: seq<String>): (r: seq<String>)
    requires AllAscii(ks)
    ensures |r| >= 2 * |ks|
    ensures r[..|ks|] == ks
  {
    GeneratedLength(ks);
    ks + FlatMap(ks, GeneratedNames)
  }

  /** Each seed contributes at least its own `Original*` entry. */
  lemma {:induction false} GeneratedLength(ks: seq<String>)
    requires AllAscii(ks)
    ensures |FlatMap(ks, GeneratedNames)| >= |ks|
  {
    if ks != [] {
      assert AllAscii(ks[1..]) by {
        forall i | 0 <= i < |ks[1..]| ensures IsAscii(ks[1..][i]) {
          assert ks[1..][i] == ks[i + 1];
        }
      }
      GeneratedLength(ks[1..]);
      assert |GeneratedNames(ks[0])| >= 1;
    }
  }

  /** The names generated for a seed are what the strategies produce from it. */
  lemma GeneratedNamesMembers(k: String, x: String)
    ensures x in GeneratedNames(k) <==> IsAscii(k) && DomainFuzz.Produces(k, x)
  {
    if IsAscii(k) {
      DomainFuzz.GenerateProduces(k, x);
    }
  }

  /** Each seed produces itself, as its `Original*` entry. */
  lemma SeedProduces(ks: seq<String>, i: int)
    requires AllAscii(ks) && 0 <= i < |ks|
    ensures DomainFuzz.Produces(ks[i], ks[i])
  {
    assert ks[i] in DomainFuzz.Candidates(DomainFuzz.Original, ks[i]);
  }

  /** A generated name comes from some seed. */
  lemma GeneratedSound(ks: seq<String>, x: String) returns (i: int)
    requires AllAscii(ks) && x in FlatMap(ks, GeneratedNames)
    ensures 0 <= i < |ks| && DomainFuzz.Produces(ks[i], x)
  {
    FlatMapMember(ks, GeneratedNames, x);
    var k :| k in ks && x in GeneratedNames(k);
    GeneratedNamesMembers(k, x);
    i :| 0 <= i < |ks| && ks[i] == k;
  }

  lemma FuzzKeywordsSound(ks: seq<String>, x: String)
    requires AllAscii(ks) && x in FuzzKeywords(ks)
    ensures exists i :: 0 <= i < |ks| && DomainFuzz.Produces(ks[i], x)
  {
    var i;
    if x in ks {
      i :| 0 <= i < |ks| && ks[i] == x;
      SeedProduces(ks, i);
    } else {
      assert x in ks + FlatMap(ks, GeneratedNames);
      i := GeneratedSound(ks, x);
    }
  }

  lemma FuzzKeywordsComplete(ks: seq<String>, x: String, i: int)
    requires AllAscii(ks) && 0 <= i < |ks| && DomainFuzz.Produces(ks[i], x)
    ensures x in FuzzKeywords(ks)
  {
    GeneratedNamesMembers(ks[i], x);
    assert ks[i] in ks;
    FlatMapMember(ks, GeneratedNames, x);
  }

  /** A string is in the universe exactly when some strategy (the original
      included) produces it from some seed. */
  lemma FuzzKeywordsMembers(ks: seq<String>, x: String)
    requires AllAscii(ks)
    ensures x in FuzzKeywords(ks) <==> exists i :: 0 <= i < |ks| && DomainFuzz.Produces(ks[i], x)
  {
    if x in FuzzKeywords(ks) {
      FuzzKeywordsSound(ks, x);
    }
    if exists i :: 0 <= i < |ks| && DomainFuzz.Produces(ks[i], x) {
      var i :| 0 <= i < |ks| && DomainFuzz.Produces(ks[i], x);
      FuzzKeywordsComplete(ks, x, i);
    }
  }

  /** The index of the first keyword of `ks` contained in `d`, if any. */
  function FirstHit(ks: seq<String>, d: String): (r: Option<nat>)
    ensures r.None? <==> forall j :: 0 <= j < |ks| ==> !Contains(d, ks[j])
    ensures r.Some? ==> r.value < |ks| && Contains(d, ks[r.value])
    ensures r.Some? ==> forall j :: 0 <= j < r.value ==> !Contains(d, ks[j])
  {
    if ks == [] then None
    else if Contains(d, ks[0]) then Some(0)
    else match FirstHit(ks[1..], d)
      case None => None
      case Some(i) => Some(i + 1)
  }

  datatype Verdict = NoMatch | Match(keyword: String)

  /** The reporting decision for one domain: an ignored keyword vetoes
      everything; otherwise the first no-fuzz keyword contained wins, then
      the first keyword of the fuzzed universe. */
  function CheckMatch(ignore: seq<String>, noFuzz: seq<String>, fuzzed: seq<String>, d: String): Verdict {
    if FirstHit(ignore, d).Some? then NoMatch
    else match FirstHit(noFuzz, d)
      case Some(i) => Match(noFuzz[i])
      case None =>
        match FirstHit(fuzzed, d)
        case Some(i) => Match(fuzzed[i])
        case None => NoMatch
  }

  /** An ignore keyword in the domain wins over every other list. */
  lemma IgnoreWins(ignore: seq<String>, noFuzz: seq<String>, fuzzed: seq<String>, d: String, k: String)
    requires k in ignore && Contains(d, k)
    ensures CheckMatch(ignore, noFuzz, fuzzed, d) == NoMatch
  {
    var j :| 0 <= j < |ignore| && ignore[j] == k;
  }

  /** `(True, k)` for the first no-fuzz keyword the domain contains, unless
      an ignore keyword vetoes. */
  lemma NoFuzzFirst(ignore: seq<String>, noFuzz: seq<String>, fuzzed: seq<String>, d: String, i: nat)
    requires forall k :: k in ignore ==> !Contains(d, k)
    requires i < |noFuzz| && Contains(d, noFuzz[i])
    requires forall j :: 0 <= j < i ==> !Contains(d, noFuzz[j])
    ensures CheckMatch(ignore, noFuzz, fuzzed, d) == Match(noFuzz[i])
  {
    var h := FirstHit(noFuzz, d);
    assert h.Some?;
  }

  /** Without a veto and without a no-fuzz hit, the first keyword of the
      fuzzed universe the domain contains is reported. */
  lemma FuzzedFirst(ignore: seq<String>, noFuzz: seq<String>, fuzzed: seq<String>, d: String, i: nat)
    requires forall k :: k in ignore ==> !Contains(d, k)
    requires forall k :: k in noFuzz ==> !Contains(d, k)
    requires i < |fuzzed| && Contains(d, fuzzed[i])
    requires forall j :: 0 <= j < i ==> !Contains(d, fuzzed[j])
    ensures CheckMatch(ignore, noFuzz, fuzzed, d) == Match(fuzzed[i])
  {
    var h := FirstHit(fuzzed, d);
    assert h.Some?;
  }

  /** A match names a keyword of one of the two reporting lists that the
      domain contains; no match means a veto or no keyword contained at all. */
  lemma CheckMatchMeaning(ignore: seq<String>, noFuzz: seq<String>, fuzzed: seq<String>, d: String)
    ensures CheckMatch(ignore, noFuzz, fuzzed, d).Match? ==>
      var k := CheckMatch(ignore, noFuzz, fuzzed, d).keyword;
      (k in noFuzz || k in fuzzed) && Contains(d, k) && forall g :: g in ignore ==> !Contains(d, g)
    ensures CheckMatch(ignore, noFuzz, fuzzed, d) == NoMatch <==>
      (exists g :: g in ignore && Contains(d, g))
      || ((forall k :: k in noFuzz ==> !Contains(d, k)) && (forall k :: k in fuzzed ==> !Contains(d, k)))
  {
    var v := CheckMatch(ignore, noFuzz, fuzzed, d);
    if FirstHit(ignore, d).Some? {
      assert ignore[FirstHit(ignore, d).value] in ignore;
    } else {
      assert forall g :: g in ignore ==> !Contains(d, g) by {
        forall g | g in ignore ensures !Contains(d, g) {
          var j :| 0 <= j < |ignore| && ignore[j] == g;
        }
      }
      if FirstHit(noFuzz, d).Some? {
        assert noFuzz[FirstHit(noFuzz, d).value] in noFuzz;
      } else if FirstHit(fuzzed, d).Some? {
        assert fuzzed[FirstHit(fuzzed, d).value] in fuzzed;
        assert !(forall k :: k in fuzzed ==> !Contains(d, k));
      } else {
        forall k | k in noFuzz ensures !Contains(d, k) {
          var j :| 0 <= j < |noFuzz| && noFuzz[j] == k;
        }
        forall k | k in fuzzed ensures !Contains(d, k) {
          var j :| 0 <= j < |fuzzed| && fuzzed[j] == k;
        }
      }
    }
  }
}
