/** The mutation strategies of the domain fuzzer that need neither a keyboard
    layout nor the homoglyph table: addition, bitsquatting, hyphenation,
    omission, repetition, subdomain, transposition and vowel swap. Each is a
    function from the seed to its candidate list, followed by the lemmas that
    say exactly which strings it produces. */
module Edits {
  import opened Text

  // ---------------------------------------------------------------- Addition

  /** One candidate per lowercase letter `'a'..'z'` appended to the seed. */
  function Addition(d: String): (r: seq<String>)
    ensures |r| == 26
    ensures forall k :: 0 <= k < |r| ==> |r[k]| == |d| + 1 && r[k][..|d|] == d
    ensures forall k :: 0 <= k < |r| ==> r[k][|d|] as int == 'a' as int + k
  {
    seq(26, k requires 0 <= k < 26 => d + [(97 + k) as char])
  }

  /** The candidates are exactly the seed followed by one lowercase letter,
      each listed once. */
  lemma AdditionMembers(d: String, x: String)
    ensures x in Addition(d) <==> |x| == |d| + 1 && x[..|d|] == d && 'a' <= x[|d|] <= 'z'
    ensures NoDup(Addition(d))
  {
    var r := Addition(d);
    if |x| == |d| + 1 && x[..|d|] == d && 'a' <= x[|d|] <= 'z' {
      var k := x[|d|] as int - 97;
      assert x == x[..|d|] + [x[|d|]];
      assert r[k] == d + [(97 + k) as char];
    }
    forall i, j | 0 <= i < j < |r| ensures r[i] != r[j] {
      assert r[i][|d|] != r[j][|d|];
    }
  }

  // ------------------------------------------------------------ Bitsquatting

  type Mask = m: int | m > 0 witness 1

  /** The eight single-bit masks 1, 2, 4, ..., 128. */
  const Masks: seq<Mask> := [1, 2, 4, 8, 16, 32, 64, 128]

  /** `o ^ m` for a mask `m` with a single bit set: that bit of `o` is
      cleared when it is set and set when it is clear. */
  function Flip(o: int, m: Mask): int {
    if (o / m) % 2 == 1 then o - m else o + m
  }

  /** `ord(c) ^ m` */
  function FlipCode(c: char, m: Mask): int {
    Flip(c as int, m)
  }

  // On a byte, `Flip` agrees with the bitwise exclusive or, mask by mask.
  lemma XorMask1(b: bv8) ensures (b ^ 1) as int == Flip(b as int, 1) {}
  lemma XorMask2(b: bv8) ensures (b ^ 2) as int == Flip(b as int, 2) {}
  lemma XorMask4(b: bv8) ensures (b ^ 4) as int == Flip(b as int, 4) {}
  lemma XorMask8(b: bv8) ensures (b ^ 8) as int == Flip(b as int, 8) {}
  lemma XorMask16(b: bv8) ensures (b ^ 16) as int == Flip(b as int, 16) {}
  lemma XorMask32(b: bv8) ensures (b ^ 32) as int == Flip(b as int, 32) {}
  lemma XorMask64(b: bv8) ensures (b ^ 64) as int == Flip(b as int, 64) {}
  lemma XorMask128(b: bv8) ensures (b ^ 128) as int == Flip(b as int, 128) {}

  /** The code points a bitsquatting candidate may carry: `0-9`, `a-z`, `-`. */
  predicate IsDomainCode(o: int) {
    (48 <= o <= 57) || (97 <= o <= 122) || o == 45
  }

  function BitsquatAt(d: String, i: int, m: Mask): seq<String> {
    if 0 <= i < |d| && IsDomainCode(FlipCode(d[i], m))
    then [ReplaceAt(d, i, FlipCode(d[i], m) as char)]
    else []
  }

  /** Every mask flipped at position `i`. */
  function BitsquatsAt(d: String, i: int): seq<String> {
    FlatMap(Masks, m => BitsquatAt(d, i, m))
  }

  /** For every position and mask, the seed with that position's code point
      flipped by the mask, when the result is a digit, a lowercase letter or a
      hyphen. Duplicates are kept. */
  function Bitsquatting(d: String): seq<String> {
    FlatMap(Range(0, |d|), i => BitsquatsAt(d, i))
  }

  /** `x` is the seed with exactly position `i` changed, to the code point
      `ord(d[i]) ^ m`, which is a digit, a lowercase letter or a hyphen. */
  predicate IsBitsquat(d: String, x: String, i: int, m: Mask) {
    && DiffersAtOnly(d, x, i)
    && x[i] as int == FlipCode(d[i], m)
    && IsDomainCode(x[i] as int)
  }

  lemma {:induction false} BitsquatAtMembers(d: String, i: int, m: Mask, x: String)
    ensures x in BitsquatAt(d, i, m) <==> IsBitsquat(d, x, i, m)
  {
    if 0 <= i < |d| {
      if IsBitsquat(d, x, i, m) {
        var y := ReplaceAt(d, i, FlipCode(d[i], m) as char);
        assert x[i] as int == y[i] as int;
        assert |x| == |y|;
        assert forall j :: 0 <= j < |x| ==> x[j] == y[j];
        assert x == y;
      }
      if x in BitsquatAt(d, i, m) {
        assert IsDomainCode(FlipCode(d[i], m));
        assert x[i] as int == FlipCode(d[i], m);
        assert DiffersAtOnly(d, x, i);
      }
    }
  }

  lemma BitsquatsAtMembers(d: String, i: int, x: String)
    ensures x in BitsquatsAt(d, i) <==> exists m :: m in Masks && IsBitsquat(d, x, i, m)
  {
    FlatMapMember(Masks, m => BitsquatAt(d, i, m), x);
    forall m | m in Masks
      ensures x in BitsquatAt(d, i, m) <==> IsBitsquat(d, x, i, m)
    {
      BitsquatAtMembers(d, i, m, x);
    }
  }

  lemma BitsquattingSound(d: String, x: String)
    requires x in Bitsquatting(d)
    ensures exists i, m :: m in Masks && IsBitsquat(d, x, i, m)
  {
    FlatMapRange(0, |d|, i => BitsquatsAt(d, i), x);
    var i :| 0 <= i < |d| && x in BitsquatsAt(d, i);
    BitsquatsAtMembers(d, i, x);
  }

  lemma BitsquattingComplete(d: String, x: String, i: int, m: Mask)
    requires m in Masks && IsBitsquat(d, x, i, m)
    ensures x in Bitsquatting(d)
  {
    BitsquatsAtMembers(d, i, x);
    FlatMapRangeAt(0, |d|, i => BitsquatsAt(d, i), i, x);
  }

  /** Bitsquatting yields exactly the one-position, one-mask flips whose new
      code point is a digit, a lowercase letter or a hyphen. */
  lemma BitsquattingMembers(d: String, x: String)
    ensures x in Bitsquatting(d) <==> exists i, m :: m in Masks && IsBitsquat(d, x, i, m)
  {
    if x in Bitsquatting(d) {
      BitsquattingSound(d, x);
    }
    if exists i, m :: m in Masks && IsBitsquat(d, x, i, m) {
      var i, m :| m in Masks && IsBitsquat(d, x, i, m);
      BitsquattingComplete(d, x, i, m);
    }
  }

  /** At most eight candidates per position. */
  lemma BitsquattingCount(d: String)
    ensures |Bitsquatting(d)| <= 8 * |d|
  {
    forall i | i in Range(0, |d|) ensures |FlatMap(Masks, m => BitsquatAt(d, i, m))| <= 8 {
      FlatMapBound(Masks, m => BitsquatAt(d, i, m), 1);
    }
    FlatMapBound(Range(0, |d|), i => BitsquatsAt(d, i), 8);
  }

  // ------------------------------------------------------------ Hyphenation

  /** A hyphen inserted at every inner boundary `1..|d|-1`, in order. */
  function Hyphenation(d: String): (r: seq<String>)
    ensures |r| == if |d| == 0 then 0 else |d| - 1
    ensures forall k :: 0 <= k < |r| ==> |r[k]| == |d| + 1 && r[k][k + 1] == '-' && DeleteAt(r[k], k + 1) == d
  {
    if |d| == 0 then []
    else seq(|d| - 1, k requires 0 <= k < |d| - 1 => InsertAt(d, k + 1, '-'))
  }

  // --------------------------------------------------------------- Omission

  /** No two adjacent equal characters, newlines apart. */
  predicate NoRuns(s: String) {
    forall i :: 0 <= i < |s| - 1 ==> s[i] != s[i + 1] || s[i] == '\n'
  }

  /** Python's `re.sub(r'(.)\1+', r'\1', s)`: every run of two or more equal
      characters becomes one. Python's `.` does not match a newline, so runs
      of newlines are left alone. */
  function Collapse(s: String): (r: String)
    ensures |r| <= |s|
    ensures |s| > 0 ==> |r| > 0 && r[0] == s[0]
  {
    if |s| <= 1 then s
    else if s[0] == s[1] && s[0] != '\n' then Collapse(s[1..])
    else [s[0]] + Collapse(s[1..])
  }

  /** The collapsed string has no runs left ... */
  lemma {:induction false} CollapseNoRuns(s: String)
    ensures NoRuns(Collapse(s))
  {
    if |s| > 1 {
      CollapseNoRuns(s[1..]);
      if !(s[0] == s[1] && s[0] != '\n') {
        var r := Collapse(s);
        var t := Collapse(s[1..]);
        assert r == [s[0]] + t;
        assert t[0] == s[1];
        forall i | 0 <= i < |r| - 1 ensures r[i] != r[i + 1] || r[i] == '\n' {
          if i > 0 {
            assert r[i] == t[i - 1] && r[i + 1] == t[i];
          }
        }
      }
    }
  }

  /** ... a string without runs is its own collapse ... */
  lemma {:induction false} CollapseFixed(s: String)
    requires NoRuns(s)
    ensures Collapse(s) == s
  {
    if |s| > 1 {
      assert NoRuns(s[1..]) by {
        forall i | 0 <= i < |s[1..]| - 1 ensures s[1..][i] != s[1..][i + 1] || s[1..][i] == '\n' {
          assert s[1..][i] == s[i + 1] && s[1..][i + 1] == s[i + 2];
        }
      }
      CollapseFixed(s[1..]);
      assert s == [s[0]] + s[1..];
    }
  }

  /** ... so collapsing twice is collapsing once. */
  lemma CollapseIdempotent(s: String)
    ensures Collapse(Collapse(s)) == Collapse(s)
  {
    CollapseNoRuns(s);
    CollapseFixed(Collapse(s));
  }

  /** Collapsing keeps the set of characters that occur. */
  lemma {:induction false} CollapseKeepsChars(s: String, c: char)
    ensures c in Collapse(s) <==> c in s
  {
    if |s| > 1 {
      CollapseKeepsChars(s[1..], c);
      assert s == [s[0]] + s[1..];
      if s[0] == s[1] && s[0] != '\n' {
        assert s[0] in s[1..];
      }
    }
  }

  function Deletions(d: String): seq<String> {
    FlatMap(Range(0, |d|), i => if 0 <= i < |d| then [DeleteAt(d, i)] else [])
  }

  /** Every single-character deletion, plus the collapsed form when it differs
      from the seed and is not already a deletion, without duplicates. */
  function Omission(d: String): (r: seq<String>)
    ensures NoDup(r)
  {
    var dels := Deletions(d);
    var n := Collapse(d);
    Distinct(if n !in dels && n != d then dels + [n] else dels)
  }

  lemma DeletionsMembers(d: String, x: String)
    ensures x in Deletions(d) <==> exists i :: 0 <= i < |d| && x == DeleteAt(d, i)
  {
    FlatMapRange(0, |d|, i => if 0 <= i < |d| then [DeleteAt(d, i)] else [], x);
    if exists i :: 0 <= i < |d| && x == DeleteAt(d, i) {
      var i :| 0 <= i < |d| && x == DeleteAt(d, i);
      FlatMapRangeAt(0, |d|, i => if 0 <= i < |d| then [DeleteAt(d, i)] else [], i, x);
    }
  }

  /** Omission yields exactly the single deletions and, when it differs from
      the seed, the collapsed form. */
  lemma OmissionMembers(d: String, x: String)
    ensures x in Omission(d) <==>
              (exists i :: 0 <= i < |d| && x == DeleteAt(d, i))
              || (x == Collapse(d) && x != d)
  {
    DeletionsMembers(d, x);
    DeletionsMembers(d, Collapse(d));
  }

  // ------------------------------------------------------------- Repetition

  function RepeatAt(d: String, i: int): seq<String> {
    if 0 <= i < |d| && IsAsciiLetter(d[i]) then [InsertAt(d, i, d[i])] else []
  }

  /** Every letter of the seed doubled in place, without duplicates.
      (`str.isalpha` is modelled for ASCII seeds.) */
  function Repetition(d: String): (r: seq<String>)
    requires IsAscii(d)
    ensures NoDup(r)
  {
    Distinct(FlatMap(Range(0, |d|), i => RepeatAt(d, i)))
  }

  /** `x` is the seed with its letter at `i` doubled in place. */
  predicate IsRepetition(d: String, x: String, i: int) {
    0 <= i < |d| && IsAsciiLetter(d[i]) && x == InsertAt(d, i, d[i])
  }

  lemma RepeatAtSound(d: String, i: int, x: String)
    requires x in RepeatAt(d, i)
    ensures IsRepetition(d, x, i)
  {
  }

  lemma RepetitionSound(d: String, x: String)
    requires IsAscii(d)
    ensures x in Repetition(d) ==> exists i :: IsRepetition(d, x, i)
  {
    if x in Repetition(d) {
      FlatMapRange(0, |d|, i => RepeatAt(d, i), x);
      var i :| 0 <= i < |d| && x in RepeatAt(d, i);
      RepeatAtSound(d, i, x);
    }
  }

  lemma RepetitionComplete(d: String, x: String, i: int)
    requires IsAscii(d)
    requires IsRepetition(d, x, i)
    ensures x in Repetition(d)
  {
    FlatMapRangeAt(0, |d|, i => RepeatAt(d, i), i, x);
  }

  /** The candidates are exactly the seed with one letter doubled in place. */
  lemma RepetitionMembers(d: String, x: String)
    requires IsAscii(d)
    ensures x in Repetition(d) <==> exists i :: IsRepetition(d, x, i)
  {
    RepetitionSound(d, x);
    if exists i :: IsRepetition(d, x, i) {
      var i :| IsRepetition(d, x, i);
      RepetitionComplete(d, x, i);
    }
  }

  /** Every candidate holds a doubled letter, and deleting one copy of it
      gives back the seed. */
  lemma RepetitionUndo(d: String, x: String)
    requires IsAscii(d)
    requires x in Repetition(d)
    ensures exists i :: 0 <= i < |x| - 1 && IsAsciiLetter(x[i]) && x[i] == x[i + 1] && DeleteAt(x, i) == d
  {
    RepetitionMembers(d, x);
    var i :| IsRepetition(d, x, i);
    assert x[i] == d[i] && x[i + 1] == d[i];
  }

  // -------------------------------------------------------------- Subdomain

  /** A boundary `i` where a dot may split the seed: neither neighbour is a
      hyphen or a dot. */
  predicate IsSplitPoint(d: String, i: int) {
    1 <= i < |d| && d[i] !in "-." && d[i - 1] !in "-."
  }

  function SubdomainAt(d: String, i: int): seq<String> {
    if IsSplitPoint(d, i) then [InsertAt(d, i, '.')] else []
  }

  /** A dot inserted at every split point, in order. */
  function Subdomain(d: String): seq<String> {
    FlatMap(Range(1, |d|), i => SubdomainAt(d, i))
  }

  lemma SubdomainSound(d: String, x: String)
    ensures x in Subdomain(d) ==> exists i :: IsSplitPoint(d, i) && x == InsertAt(d, i, '.')
  {
    if x in Subdomain(d) {
      FlatMapRange(1, |d|, i => SubdomainAt(d, i), x);
      var i :| 1 <= i < |d| && x in SubdomainAt(d, i);
      assert IsSplitPoint(d, i) && x == InsertAt(d, i, '.');
    }
  }

  lemma SubdomainComplete(d: String, x: String, i: int)
    requires IsSplitPoint(d, i) && x == InsertAt(d, i, '.')
    ensures x in Subdomain(d)
  {
    FlatMapRangeAt(1, |d|, i => SubdomainAt(d, i), i, x);
  }

  /** The candidates are exactly the seed with a dot inserted at a split
      point ... */
  lemma SubdomainMembers(d: String, x: String)
    ensures x in Subdomain(d) <==> exists i :: IsSplitPoint(d, i) && x == InsertAt(d, i, '.')
  {
    SubdomainSound(d, x);
    if exists i :: IsSplitPoint(d, i) && x == InsertAt(d, i, '.') {
      var i :| IsSplitPoint(d, i) && x == InsertAt(d, i, '.');
      SubdomainComplete(d, x, i);
    }
  }

  /** ... and no two are equal, so there is exactly one per split point. */
  lemma SubdomainNoDup(d: String)
    ensures NoDup(Subdomain(d))
  {
    forall i, j | i in Range(1, |d|) && j in Range(1, |d|) && i < j
      ensures forall y :: y in SubdomainAt(d, i) ==> y !in SubdomainAt(d, j)
    {
      if IsSplitPoint(d, i) && IsSplitPoint(d, j) {
        assert InsertAt(d, i, '.')[i] != InsertAt(d, j, '.')[i];
      }
    }
    FlatMapNoDup(Range(1, |d|), i => SubdomainAt(d, i));
  }

  // ---------------------------------------------------------- Transposition

  /** `d[:i] + d[i+1] + d[i] + d[i+2:]` */
  function SwapAt(d: String, i: nat): (r: String)
    requires i + 1 < |d|
    ensures |r| == |d|
  {
    d[..i] + [d[i + 1], d[i]] + d[i + 2..]
  }

  /** Swapping the same pair twice gives back the string. */
  lemma SwapAtInvolution(d: String, i: nat)
    requires i + 1 < |d|
    ensures SwapAt(SwapAt(d, i), i) == d
  {
    var t := SwapAt(SwapAt(d, i), i);
    forall j | 0 <= j < |d| ensures t[j] == d[j] {
    }
  }

  function TranspositionAt(d: String, i: int): seq<String> {
    if 0 <= i && i + 1 < |d| && d[i + 1] != d[i] then [SwapAt(d, i)] else []
  }

  /** Every adjacent pair of distinct characters swapped, in order. */
  function Transposition(d: String): seq<String> {
    FlatMap(Range(0, |d| - 1), i => TranspositionAt(d, i))
  }

  /** `x` is the seed with the distinct characters at `i` and `i + 1` swapped. */
  predicate IsTransposition(d: String, x: String, i: int) {
    0 <= i && i + 1 < |d| && d[i] != d[i + 1] && x == SwapAt(d, i)
  }

  lemma TranspositionSound(d: String, x: String)
    requires x in Transposition(d)
    ensures exists i :: IsTransposition(d, x, i)
  {
    FlatMapRange(0, |d| - 1, i => TranspositionAt(d, i), x);
    var i :| 0 <= i < |d| - 1 && x in TranspositionAt(d, i);
    assert IsTransposition(d, x, i);
  }

  lemma TranspositionComplete(d: String, x: String, i: int)
    requires IsTransposition(d, x, i)
    ensures x in Transposition(d)
  {
    assert x in TranspositionAt(d, i);
    FlatMapRangeAt(0, |d| - 1, i => TranspositionAt(d, i), i, x);
  }

  /** The candidates are exactly the seed with one adjacent pair of distinct
      characters swapped ... */
  lemma TranspositionMembers(d: String, x: String)
    ensures x in Transposition(d) <==> exists i :: IsTransposition(d, x, i)
  {
    if x in Transposition(d) {
      TranspositionSound(d, x);
    }
    if exists i :: IsTransposition(d, x, i) {
      var i :| IsTransposition(d, x, i);
      TranspositionComplete(d, x, i);
    }
  }

  /** ... and no two are equal, so there is exactly one per such pair. */
  lemma TranspositionNoDup(d: String)
    ensures NoDup(Transposition(d))
  {
    forall i, j | i in Range(0, |d| - 1) && j in Range(0, |d| - 1) && i < j
      ensures forall y :: y in TranspositionAt(d, i) ==> y !in TranspositionAt(d, j)
    {
      if TranspositionAt(d, i) != [] && TranspositionAt(d, j) != [] {
        assert SwapAt(d, i)[i] == d[i + 1];
        assert SwapAt(d, j)[i] == d[i];
      }
    }
    FlatMapNoDup(Range(0, |d| - 1), i => TranspositionAt(d, i));
  }

  // ------------------------------------------------------------- Vowel swap

  const Vowels: String := "aeiou"

  function VowelAt(d: String, i: int, v: char): seq<String> {
    if 0 <= i < |d| && d[i] in Vowels then [ReplaceAt(d, i, v)] else []
  }

  /** Every vowel put at position `i`. */
  function VowelSwapsAt(d: String, i: int): seq<String> {
    FlatMap(Vowels, v => VowelAt(d, i, v))
  }

  /** Every vowel of the seed replaced by each of the five vowels (itself
      included), without duplicates. */
  function VowelSwap(d: String): (r: seq<String>)
    ensures NoDup(r)
  {
    Distinct(FlatMap(Range(0, |d|), i => VowelSwapsAt(d, i)))
  }

  /** `x` is the seed with its vowel at `i` replaced by the vowel `v`. */
  predicate IsVowelSwap(d: String, x: String, i: int, v: char) {
    0 <= i < |d| && d[i] in Vowels && v in Vowels && x == ReplaceAt(d, i, v)
  }

  lemma VowelSwapSound(d: String, x: String)
    ensures x in VowelSwap(d) ==> exists i, v :: IsVowelSwap(d, x, i, v)
  {
    if x in VowelSwap(d) {
      var f := i => VowelSwapsAt(d, i);
      FlatMapRange(0, |d|, f, x);
      var i :| 0 <= i < |d| && x in f(i);
      FlatMapMember(Vowels, v => VowelAt(d, i, v), x);
      var v :| v in Vowels && x in VowelAt(d, i, v);
      assert IsVowelSwap(d, x, i, v);
    }
  }

  lemma VowelSwapComplete(d: String, x: String, i: int, v: char)
    requires IsVowelSwap(d, x, i, v)
    ensures x in VowelSwap(d)
  {
    assert x in VowelAt(d, i, v);
    FlatMapMember(Vowels, v => VowelAt(d, i, v), x);
    FlatMapRangeAt(0, |d|, i => VowelSwapsAt(d, i), i, x);
  }

  /** The candidates are exactly the seed with one vowel replaced by a vowel. */
  lemma VowelSwapMembers(d: String, x: String)
    ensures x in VowelSwap(d) <==> exists i, v :: IsVowelSwap(d, x, i, v)
  {
    VowelSwapSound(d, x);
    if exists i, v :: IsVowelSwap(d, x, i, v) {
      var i, v :| IsVowelSwap(d, x, i, v);
      VowelSwapComplete(d, x, i, v);
    }
  }

  /** Because a vowel may be swapped for itself, the seed is among its own
      vowel-swap candidates exactly when it contains a vowel. */
  lemma VowelSwapKeepsSeed(d: String)
    ensures d in VowelSwap(d) <==> exists i :: 0 <= i < |d| && d[i] in Vowels
  {
    VowelSwapSound(d, d);
    if exists i :: 0 <= i < |d| && d[i] in Vowels {
      var i :| 0 <= i < |d| && d[i] in Vowels;
      assert ReplaceAt(d, i, d[i]) == d;
      VowelSwapComplete(d, d, i, d[i]);
    }
  }
}
