/** Strings as the fuzzer and the matcher see them (sequences of code points),
    the slicing edits every mutation strategy is written in, and the list
    helpers that stand for Python's loops and `list(set(...))`. */
module Text {

  type String = seq<char>

  datatype Option<+T> = None | Some(value: T)

  /** Python's `needle in hay` on strings: `needle` occurs as a contiguous
      run of `hay` (the empty string occurs in every string). */
  predicate Contains(hay: String, needle: String) {
    exists i :: 0 <= i <= |hay| && needle <= hay[i..]
  }

  /** `s[:i] + c + s[i:]` */
  function InsertAt(s: String, i: nat, c: char): (r: String)
    requires i <= |s|
    ensures |r| == |s| + 1
    ensures r[i] == c
    ensures r[..i] == s[..i] && r[i + 1..] == s[i..]
    ensures DeleteAt(r, i) == s
  {
    var r := s[..i] + [c] + s[i..];
    assert r[..i] == s[..i] && r[i + 1..] == s[i..];
    r
  }

  /** `s[:i] + s[i+1:]` */
  function DeleteAt(s: String, i: nat): (r: String)
    requires i < |s|
    ensures |r| == |s| - 1
    ensures forall j :: 0 <= j < i ==> r[j] == s[j]
    ensures forall j :: i <= j < |r| ==> r[j] == s[j + 1]
  {
    s[..i] + s[i + 1..]
  }

  /** `s[:i] + c + s[i+1:]` */
  function ReplaceAt(s: String, i: nat, c: char): (r: String)
    requires i < |s|
    ensures |r| == |s|
    ensures r[i] == c
    ensures forall j :: 0 <= j < |s| && j != i ==> r[j] == s[j]
  {
    s[..i] + [c] + s[i + 1..]
  }

  /** Two strings of equal length that differ at exactly one index. */
  predicate DiffersAtOnly(s: String, t: String, i: int) {
    && |s| == |t|
    && 0 <= i < |s|
    && s[i] != t[i]
    && forall j :: 0 <= j < |s| && j != i ==> s[j] == t[j]
  }

  /** Number of occurrences of `c` in `s`. */
  function Count(s: String, c: char): (n: nat)
    ensures n <= |s|
    ensures n == 0 <==> c !in s
  {
    if s == [] then 0 else (if s[0] == c then 1 else 0) + Count(s[1..], c)
  }

  /** Python's `s.replace(c, g)` for a one-character `c`: every occurrence of
      `c` in `s` is replaced by `g`, left to right. */
  function ReplaceAll(s: String, c: char, g: String): String {
    if s == [] then []
    else (if s[0] == c then g else [s[0]]) + ReplaceAll(s[1..], c, g)
  }

  /** Each occurrence of `c` grows or shrinks the string by `|g| - 1`. */
  lemma {:induction false} ReplaceAllLength(s: String, c: char, g: String)
    ensures |ReplaceAll(s, c, g)| == |s| + Count(s, c) * (|g| - 1)
  {
    if s != [] {
      ReplaceAllLength(s[1..], c, g);
      var k := Count(s[1..], c);
      if s[0] == c {
        assert (1 + k) * (|g| - 1) == (|g| - 1) + k * (|g| - 1);
      }
    }
  }

  /** Replacing a character that does not occur, or replacing it by itself,
      changes nothing. */
  lemma {:induction false} ReplaceAllIdentity(s: String, c: char, g: String)
    requires c !in s || g == [c]
    ensures ReplaceAll(s, c, g) == s
  {
    if s != [] {
      assert c !in s ==> c !in s[1..];
      ReplaceAllIdentity(s[1..], c, g);
      assert s == [s[0]] + s[1..];
    }
  }

  /** Every character of the result comes from `s` or from `g`, and `c` is
      gone unless `g` brings it back. */
  lemma {:induction false} ReplaceAllChars(s: String, c: char, g: String, x: char)
    ensures x in ReplaceAll(s, c, g) ==> (x in s && x != c) || x in g
  {
    if s != [] {
      ReplaceAllChars(s[1..], c, g, x);
      var r := ReplaceAll(s, c, g);
      var head := if s[0] == c then g else [s[0]];
      assert r == head + ReplaceAll(s[1..], c, g);
      if x in r && x !in head {
        assert x in ReplaceAll(s[1..], c, g);
      }
    }
  }

  /** A list without repeated elements. */
  predicate NoDup<T(==)>(xs: seq<T>) {
    forall i, j :: 0 <= i < j < |xs| ==> xs[i] != xs[j]
  }

  /** Python's `list(set(xs))`. Python lists a set in hash order; this keeps
      the last occurrence of each element in list order. Only membership and
      the absence of duplicates are promised. */
  function Distinct<T(==,!new)>(xs: seq<T>): (r: seq<T>)
    ensures forall x :: x in r <==> x in xs
    ensures NoDup(r)
    ensures |r| <= |xs|
  {
    if xs == [] then []
    else
      var rest := Distinct(xs[1..]);
      if xs[0] in rest then rest else [xs[0]] + rest
  }

  /** `[lo, lo+1, ..., hi-1]`, Python's `range(lo, hi)`. */
  function Range(lo: int, hi: int): (r: seq<int>)
    ensures |r| == if lo < hi then hi - lo else 0
    ensures forall k :: 0 <= k < |r| ==> r[k] == lo + k
    decreases hi - lo
  {
    if lo >= hi then [] else [lo] + Range(lo + 1, hi)
  }

  lemma {:induction false} InRange(lo: int, hi: int, i: int)
    ensures i in Range(lo, hi) <==> lo <= i < hi
  {
    if lo <= i < hi {
      assert Range(lo, hi)[i - lo] == i;
    }
  }

  /** A nested `for` loop that appends: the concatenation of `f(a)` over
      the elements `a` of `xs`, in order. */
  function FlatMap<A, B>(xs: seq<A>, f: A -> seq<B>): seq<B> {
    if xs == [] then [] else f(xs[0]) + FlatMap(xs[1..], f)
  }

  lemma {:induction false} FlatMapMember<A, B>(xs: seq<A>, f: A -> seq<B>, y: B)
    ensures y in FlatMap(xs, f) <==> exists a :: a in xs && y in f(a)
  {
    if xs != [] {
      FlatMapMember(xs[1..], f, y);
      if y in FlatMap(xs[1..], f) {
        var a :| a in xs[1..] && y in f(a);
        assert a in xs;
      }
      if exists a :: a in xs && y in f(a) {
        var a :| a in xs && y in f(a);
        if a != xs[0] {
          assert a in xs[1..];
        }
      }
    }
  }

  /** Whatever a loop over an index range yields comes from some index of
      the range ... */
  lemma FlatMapRange<B>(lo: int, hi: int, f: int -> seq<B>, y: B)
    ensures y in FlatMap(Range(lo, hi), f) ==> exists i :: lo <= i < hi && y in f(i)
  {
    FlatMapMember(Range(lo, hi), f, y);
    if y in FlatMap(Range(lo, hi), f) {
      var i :| i in Range(lo, hi) && y in f(i);
      InRange(lo, hi, i);
    }
  }

  /** ... and whatever any index of the range yields is in the result. */
  lemma FlatMapRangeAt<B>(lo: int, hi: int, f: int -> seq<B>, i: int, y: B)
    requires lo <= i < hi && y in f(i)
    ensures y in FlatMap(Range(lo, hi), f)
  {
    InRange(lo, hi, i);
    FlatMapMember(Range(lo, hi), f, y);
  }

  /** When every block contributes at most `bound` elements, the loop
      yields at most `bound` per element. */
  lemma {:induction false} FlatMapBound<A, B>(xs: seq<A>, f: A -> seq<B>, bound: nat)
    requires forall a :: a in xs ==> |f(a)| <= bound
    ensures |FlatMap(xs, f)| <= |xs| * bound
  {
    if xs != [] {
      var n := |xs| - 1;
      forall a | a in xs[1..] ensures |f(a)| <= bound {
        assert a in xs;
      }
      FlatMapBound(xs[1..], f, bound);
      assert xs[0] in xs;
      assert |FlatMap(xs, f)| == |f(xs[0])| + |FlatMap(xs[1..], f)|;
      assert (n + 1) * bound == n * bound + bound;
    }
  }

  /** Concatenating blocks that are each free of duplicates and pairwise
      disjoint, for increasing keys, gives a list free of duplicates. */
  lemma {:induction false} FlatMapNoDup<B>(xs: seq<int>, f: int -> seq<B>)
    requires forall k :: 0 <= k < |xs| - 1 ==> xs[k] < xs[k + 1]
    requires forall a :: a in xs ==> NoDup(f(a))
    requires forall a, b :: a in xs && b in xs && a < b ==> forall y :: y in f(a) ==> y !in f(b)
    ensures NoDup(FlatMap(xs, f))
  {
    if xs != [] {
      var tail := xs[1..];
      assert forall k :: 0 <= k < |tail| - 1 ==> tail[k] < tail[k + 1] by {
        forall k | 0 <= k < |tail| - 1 ensures tail[k] < tail[k + 1] {
          assert tail[k] == xs[k + 1] && tail[k + 1] == xs[k + 2];
        }
      }
      assert forall a :: a in tail ==> a in xs;
      FlatMapNoDup(tail, f);
      var head := f(xs[0]);
      var rest := FlatMap(tail, f);
      assert forall y :: y in rest ==> y !in head by {
        forall y | y in rest ensures y !in head {
          FlatMapMember(tail, f, y);
          var b :| b in tail && y in f(b);
          HeadIsLeast(xs, b);
        }
      }
      ConcatNoDup(head, rest);
    }
  }

  /** The head of a strictly increasing list is below every later element. */
  lemma {:induction false} HeadIsLeast(xs: seq<int>, b: int)
    requires forall k :: 0 <= k < |xs| - 1 ==> xs[k] < xs[k + 1]
    requires |xs| > 0 && b in xs[1..]
    ensures xs[0] < b
  {
    if |xs| > 2 && b != xs[1] {
      HeadIsLeast(xs[1..], b);
    }
  }

  /** Two duplicate-free lists with no element in common concatenate to a
      duplicate-free list. */
  lemma ConcatNoDup<T>(a: seq<T>, b: seq<T>)
    requires NoDup(a) && NoDup(b)
    requires forall y :: y in b ==> y !in a
    ensures NoDup(a + b)
  {
    var c := a + b;
    forall i, j | 0 <= i < j < |c| ensures c[i] != c[j] {
      if i < |a| && j >= |a| {
        assert c[j] in b;
      }
    }
  }

  // ------------------------------------------------------------------ ASCII

  /** Strings made only of 7-bit ASCII code points. */
  predicate IsAscii(s: String) {
    forall i :: 0 <= i < |s| ==> s[i] as int < 128
  }

  /** Python's `str.isalpha()` on a 7-bit ASCII character. */
  predicate IsAsciiLetter(c: char) {
    'a' <= c <= 'z' || 'A' <= c <= 'Z'
  }
}
