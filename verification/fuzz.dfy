/** The domain fuzzer's entry point: the seed itself, tagged as the original,
    followed by every strategy's candidates, each block tagged with its
    strategy, in one fixed order. */
module DomainFuzz {
  import opened Text
  import Edits
  import Keyboards
  import Homoglyphs

  datatype Fuzzer =
    | Original
    | Addition
    | Bitsquatting
    | Homoglyph
    | Hyphenation
    | Insertion
    | Omission
    | Repetition
    | Replacement
    | Subdomain
    | Transposition
    | VowelSwap

  /** One generated entry: the strategy's label and the candidate domain. */
  datatype Variant = Variant(fuzzer: Fuzzer, domain: String)

  /** The text of the `fuzzer` field the program attaches to each entry. */
  function Label(f: Fuzzer): String {
    match f
    case Original => "Original*"
    case Addition => "Addition"
    case Bitsquatting => "Bitsquatting"
    case Homoglyph => "Homoglyph"
    case Hyphenation => "Hyphenation"
    case Insertion => "Insertion"
    case Omission => "Omission"
    case Repetition => "Repetition"
    case Replacement => "Replacement"
    case Subdomain => "Subdomain"
    case Transposition => "Transposition"
    case VowelSwap => "Vowel-swap"
  }

  /** The label identifies the strategy: no two strategies share one. */
  lemma LabelsDistinct(f: Fuzzer, g: Fuzzer)
    ensures Label(f) == Label(g) <==> f == g
  {
  }

  /** The order in which the blocks are emitted. */
  const Order: seq<Fuzzer> := [
    Original, Addition, Bitsquatting, Homoglyph, Hyphenation, Insertion,
    Omission, Repetition, Replacement, Subdomain, Transposition, VowelSwap
  ]

  /** A strategy's place in `Order`. */
  function Rank(f: Fuzzer): nat {
    match f
    case Original => 0
    case Addition => 1
    case Bitsquatting => 2
    case Homoglyph => 3
    case Hyphenation => 4
    case Insertion => 5
    case Omission => 6
    case Repetition => 7
    case Replacement => 8
    case Subdomain => 9
    case Transposition => 10
    case VowelSwap => 11
  }

  /** What each strategy produces for the seed; the original is the seed. */
  function Candidates(f: Fuzzer, d: String): seq<String>
    requires IsAscii(d)
  {
    match f
    case Original => [d]
    case Addition => Edits.Addition(d)
    case Bitsquatting => Edits.Bitsquatting(d)
    case Homoglyph => Homoglyphs.Homoglyph(d)
    case Hyphenation => Edits.Hyphenation(d)
    case Insertion => Keyboards.Insertion(d)
    case Omission => Edits.Omission(d)
    case Repetition => Edits.Repetition(d)
    case Replacement => Keyboards.Replacement(d)
    case Subdomain => Edits.Subdomain(d)
    case Transposition => Edits.Transposition(d)
    case VowelSwap => Edits.VowelSwap(d)
  }

  /** Every candidate tagged with the strategy that made it. */
  function Tag(f: Fuzzer, ds: seq<String>): (r: seq<Variant>)
    ensures |r| == |ds|
    ensures forall k :: 0 <= k < |r| ==> r[k] == Variant(f, ds[k])
  {
    seq(|ds|, k requires 0 <= k < |ds| => Variant(f, ds[k]))
  }

  /** The blocks `cands(f)` of the strategies `f` in `fs`, one after the other. */
  function Assemble(fs: seq<Fuzzer>, cands: Fuzzer -> seq<String>): seq<Variant> {
    if fs == [] then [] else Tag(fs[0], cands(fs[0])) + Assemble(fs[1..], cands)
  }

  /** The domains of the entries tagged `f`, in order. */
  function DomainsOf(vs: seq<Variant>, f: Fuzzer): seq<String> {
    if vs == [] then []
    else (if vs[0].fuzzer == f then [vs[0].domain] else []) + DomainsOf(vs[1..], f)
  }

  /** Entries appear grouped by strategy, the groups in `Order`. */
  predicate InOrder(vs: seq<Variant>) {
    forall i, j :: 0 <= i <= j < |vs| ==> Rank(vs[i].fuzzer) <= Rank(vs[j].fuzzer)
  }

  /** The generated list: the seed first, then each strategy's block. */
  function Generate(d: String): (r: seq<Variant>)
    requires IsAscii(d)
    ensures |r| >= 1 && r[0] == Variant(Original, d)
    ensures InOrder(r)
  {
    AssembleInOrder(Order, f => Candidates(f, d));
    Assemble(Order, f => Candidates(f, d))
  }

  /** Filtered by strategy, the generated list is exactly that strategy's
      candidates, in the strategy's own order. */
  lemma GenerateBlocks(d: String, f: Fuzzer)
    requires IsAscii(d)
    ensures DomainsOf(Generate(d), f) == Candidates(f, d)
  {
    AssembleBlocks(Order, g => Candidates(g, d));
  }

  /** `Rank` and `Order` are inverse: every strategy has exactly one place. */
  lemma RankPlaces(f: Fuzzer, k: int)
    ensures Rank(f) < |Order| && Order[Rank(f)] == f
    ensures 0 <= k < |Order| ==> Rank(Order[k]) == k
  {
  }

  lemma {:induction false} DomainsOfAppend(a: seq<Variant>, b: seq<Variant>, f: Fuzzer)
    ensures DomainsOf(a + b, f) == DomainsOf(a, f) + DomainsOf(b, f)
  {
    if a != [] {
      var head := if a[0].fuzzer == f then [a[0].domain] else [];
      assert (a + b)[0] == a[0] && (a + b)[1..] == a[1..] + b;
      DomainsOfAppend(a[1..], b, f);
      assert DomainsOf(a + b, f) == head + (DomainsOf(a[1..], f) + DomainsOf(b, f));
      assert head + (DomainsOf(a[1..], f) + DomainsOf(b, f))
          == (head + DomainsOf(a[1..], f)) + DomainsOf(b, f);
    } else {
      assert a + b == b;
    }
  }

  lemma {:induction false} DomainsOfTag(f: Fuzzer, g: Fuzzer, ds: seq<String>)
    ensures DomainsOf(Tag(g, ds), f) == if f == g then ds else []
  {
    if ds != [] {
      assert Tag(g, ds)[1..] == Tag(g, ds[1..]);
      DomainsOfTag(f, g, ds[1..]);
      assert ds == [ds[0]] + ds[1..];
    }
  }

  /** Filtering the assembled list by one strategy gives back that
      strategy's candidates when it is assembled, and nothing otherwise. */
  lemma {:induction false} AssembleBlock(fs: seq<Fuzzer>, cands: Fuzzer -> seq<String>, f: Fuzzer)
    requires NoDupFuzzers(fs)
    ensures DomainsOf(Assemble(fs, cands), f) == if f in fs then cands(f) else []
  {
    if fs != [] {
      DomainsOfAppend(Tag(fs[0], cands(fs[0])), Assemble(fs[1..], cands), f);
      DomainsOfTag(f, fs[0], cands(fs[0]));
      assert NoDupFuzzers(fs[1..]) by {
        forall i, j | 0 <= i < j < |fs[1..]| ensures fs[1..][i] != fs[1..][j] {
          assert fs[1..][i] == fs[i + 1] && fs[1..][j] == fs[j + 1];
        }
      }
      AssembleBlock(fs[1..], cands, f);
      if f == fs[0] {
        assert f !in fs[1..] by {
          forall k | 0 <= k < |fs[1..]| ensures fs[1..][k] != f {
            assert fs[1..][k] == fs[k + 1];
          }
        }
      }
    }
  }

  predicate NoDupFuzzers(fs: seq<Fuzzer>) {
    forall i, j :: 0 <= i < j < |fs| ==> fs[i] != fs[j]
  }

  lemma AssembleBlocks(fs: seq<Fuzzer>, cands: Fuzzer -> seq<String>)
    requires fs == Order
    ensures forall f :: DomainsOf(Assemble(fs, cands), f) == cands(f)
  {
    assert NoDupFuzzers(fs) by {
      forall i, j | 0 <= i < j < |fs| ensures fs[i] != fs[j] {
        RankPlaces(fs[i], i);
        RankPlaces(fs[j], j);
      }
    }
    forall f ensures DomainsOf(Assemble(fs, cands), f) == cands(f) {
      AssembleBlock(fs, cands, f);
      RankPlaces(f, 0);
    }
  }

  /** A block tagged `f` followed by entries of higher rank stays in order. */
  lemma InOrderAppend(f: Fuzzer, head: seq<Variant>, rest: seq<Variant>)
    requires forall k :: 0 <= k < |head| ==> head[k].fuzzer == f
    requires InOrder(rest)
    requires forall v :: v in rest ==> Rank(f) < Rank(v.fuzzer)
    ensures InOrder(head + rest)
  {
    var r := head + rest;
    forall i, j | 0 <= i <= j < |r| ensures Rank(r[i].fuzzer) <= Rank(r[j].fuzzer) {
      if j < |head| {
        assert r[i] == head[i] && r[j] == head[j];
      } else if i < |head| {
        assert r[i] == head[i] && r[j] in rest;
      } else {
        assert r[i] == rest[i - |head|] && r[j] == rest[j - |head|];
      }
    }
  }

  /** Assembling strategies listed in increasing rank keeps the entries in
      rank order, and every entry is tagged with one of them. */
  lemma {:induction false} AssembleSorted(fs: seq<Fuzzer>, cands: Fuzzer -> seq<String>)
    requires forall i, j :: 0 <= i < j < |fs| ==> Rank(fs[i]) < Rank(fs[j])
    ensures InOrder(Assemble(fs, cands))
    ensures forall v :: v in Assemble(fs, cands) ==> v.fuzzer in fs
  {
    if fs != [] {
      var head := Tag(fs[0], cands(fs[0]));
      var rest := Assemble(fs[1..], cands);
      assert forall i, j :: 0 <= i < j < |fs[1..]| ==> Rank(fs[1..][i]) < Rank(fs[1..][j]) by {
        forall i, j | 0 <= i < j < |fs[1..]| ensures Rank(fs[1..][i]) < Rank(fs[1..][j]) {
          assert fs[1..][i] == fs[i + 1] && fs[1..][j] == fs[j + 1];
        }
      }
      AssembleSorted(fs[1..], cands);
      forall v | v in rest ensures Rank(fs[0]) < Rank(v.fuzzer) {
        var k :| 0 <= k < |fs[1..]| && fs[1..][k] == v.fuzzer;
        assert fs[k + 1] == v.fuzzer;
      }
      InOrderAppend(fs[0], head, rest);
      forall v | v in head + rest ensures v.fuzzer in fs {
        if v in head {
          var k :| 0 <= k < |head| && head[k] == v;
        } else {
          assert v.fuzzer in fs[1..];
        }
      }
    }
  }

  lemma AssembleInOrder(fs: seq<Fuzzer>, cands: Fuzzer -> seq<String>)
    requires fs == Order
    ensures InOrder(Assemble(fs, cands))
    ensures |Assemble(fs, cands)| >= |cands(Original)|
    ensures forall k :: 0 <= k < |cands(Original)| ==> Assemble(fs, cands)[k] == Variant(Original, cands(Original)[k])
  {
    forall i, j | 0 <= i < j < |fs| ensures Rank(fs[i]) < Rank(fs[j]) {
      RankPlaces(fs[i], i);
      RankPlaces(fs[j], j);
    }
    AssembleSorted(fs, cands);
  }

  /** The domain names of a generated list, in order. */
  function Domains(vs: seq<Variant>): (r: seq<String>)
    ensures |r| == |vs|
    ensures forall k :: 0 <= k < |r| ==> r[k] == vs[k].domain
  {
    seq(|vs|, k requires 0 <= k < |vs| => vs[k].domain)
  }

  lemma {:induction false} DomainsOfMember(vs: seq<Variant>, f: Fuzzer, x: String)
    ensures x in DomainsOf(vs, f) <==> Variant(f, x) in vs
  {
    if vs != [] {
      DomainsOfMember(vs[1..], f, x);
      assert vs == [vs[0]] + vs[1..];
    }
  }

  /** An entry tagged `f` with domain `x` is generated exactly when `x` is
      one of strategy `f`'s candidates for the seed. */
  lemma GenerateMembers(d: String, f: Fuzzer, x: String)
    requires IsAscii(d)
    ensures Variant(f, x) in Generate(d) <==> x in Candidates(f, d)
  {
    GenerateBlocks(d, f);
    DomainsOfMember(Generate(d), f, x);
  }

  /** Some strategy, the original included, produces `x` from the seed `d`. */
  predicate Produces(d: String, x: String)
    requires IsAscii(d)
  {
    exists f :: x in Candidates(f, d)
  }

  lemma GenerateProducesSound(d: String, x: String)
    requires IsAscii(d) && x in Domains(Generate(d))
    ensures Produces(d, x)
  {
    var vs := Generate(d);
    var k :| 0 <= k < |vs| && Domains(vs)[k] == x;
    var f := vs[k].fuzzer;
    assert Variant(f, x) in vs by {
      assert vs[k] == Variant(f, x);
    }
    GenerateMembers(d, f, x);
  }

  lemma GenerateProducesComplete(d: String, f: Fuzzer, x: String)
    requires IsAscii(d) && x in Candidates(f, d)
    ensures x in Domains(Generate(d))
  {
    var vs := Generate(d);
    GenerateMembers(d, f, x);
    var k :| 0 <= k < |vs| && vs[k] == Variant(f, x);
    assert Domains(vs)[k] == x;
  }

  /** The generated domain names are exactly what the strategies produce. */
  lemma GenerateProduces(d: String, x: String)
    requires IsAscii(d)
    ensures x in Domains(Generate(d)) <==> Produces(d, x)
  {
    if x in Domains(Generate(d)) {
      GenerateProducesSound(d, x);
    }
    if Produces(d, x) {
      var f :| x in Candidates(f, d);
      GenerateProducesComplete(d, f, x);
    }
  }
}
