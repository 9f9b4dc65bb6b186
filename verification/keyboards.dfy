/** The three keyboard layouts the fuzzer knows (QWERTY, QWERTZ, AZERTY),
    each mapping a key to the keys physically around it, and the two
    strategies built on them: insertion and replacement of a neighbouring key. */
module Keyboards {
  import opened Text

  datatype Layout = Qwerty | Qwertz | Azerty

  /** The keys around `c` on layout `kb`, or `None` when `kb` has no key `c`. */
  function Neighbours(kb: Layout, c: char): Option<String> {
    match kb
    case Qwerty => QwertyKeys(c)
    case Qwertz => QwertzKeys(c)
    case Azerty => AzertyKeys(c)
  }

  function QwertyKeys(c: char): Option<String> {
    match c
    case '1' => Some("2q")
    case '2' => Some("3wq1")
    case '3' => Some("4ew2")
    case '4' => Some("5re3")
    case '5' => Some("6tr4")
    case '6' => Some("7yt5")
    case '7' => Some("8uy6")
    case '8' => Some("9iu7")
    case '9' => Some("0oi8")
    case '0' => Some("po9")
    case 'q' => Some("12wa")
    case 'w' => Some("3esaq2")
    case 'e' => Some("4rdsw3")
    case 'r' => Some("5tfde4")
    case 't' => Some("6ygfr5")
    case 'y' => Some("7uhgt6")
    case 'u' => Some("8ijhy7")
    case 'i' => Some("9okju8")
    case 'o' => Some("0plki9")
    case 'p' => Some("lo0")
    case 'a' => Some("qwsz")
    case 's' => Some("edxzaw")
    case 'd' => Some("rfcxse")
    case 'f' => Some("tgvcdr")
    case 'g' => Some("yhbvft")
    case 'h' => Some("ujnbgy")
    case 'j' => Some("ikmnhu")
    case 'k' => Some("olmji")
    case 'l' => Some("kop")
    case 'z' => Some("asx")
    case 'x' => Some("zsdc")
    case 'c' => Some("xdfv")
    case 'v' => Some("cfgb")
    case 'b' => Some("vghn")
    case 'n' => Some("bhjm")
    case 'm' => Some("njk")
    case _ => None
  }

  function QwertzKeys(c: char): Option<String> {
    match c
    case '1' => Some("2q")
    case '2' => Some("3wq1")
    case '3' => Some("4ew2")
    case '4' => Some("5re3")
    case '5' => Some("6tr4")
    case '6' => Some("7zt5")
    case '7' => Some("8uz6")
    case '8' => Some("9iu7")
    case '9' => Some("0oi8")
    case '0' => Some("po9")
    case 'q' => Some("12wa")
    case 'w' => Some("3esaq2")
    case 'e' => Some("4rdsw3")
    case 'r' => Some("5tfde4")
    case 't' => Some("6zgfr5")
    case 'z' => Some("7uhgt6")
    case 'u' => Some("8ijhz7")
    case 'i' => Some("9okju8")
    case 'o' => Some("0plki9")
    case 'p' => Some("lo0")
    case 'a' => Some("qwsy")
    case 's' => Some("edxyaw")
    case 'd' => Some("rfcxse")
    case 'f' => Some("tgvcdr")
    case 'g' => Some("zhbvft")
    case 'h' => Some("ujnbgz")
    case 'j' => Some("ikmnhu")
    case 'k' => Some("olmji")
    case 'l' => Some("kop")
    case 'y' => Some("asx")
    case 'x' => Some("ysdc")
    case 'c' => Some("xdfv")
    case 'v' => Some("cfgb")
    case 'b' => Some("vghn")
    case 'n' => Some("bhjm")
    case 'm' => Some("njk")
    case _ => None
  }

  function AzertyKeys(c: char): Option<String> {
    match c
    case '1' => Some("2a")
    case '2' => Some("3za1")
    case '3' => Some("4ez2")
    case '4' => Some("5re3")
    case '5' => Some("6tr4")
    case '6' => Some("7yt5")
    case '7' => Some("8uy6")
    case '8' => Some("9iu7")
    case '9' => Some("0oi8")
    case '0' => Some("po9")
    case 'a' => Some("2zq1")
    case 'z' => Some("3esqa2")
    case 'e' => Some("4rdsz3")
    case 'r' => Some("5tfde4")
    case 't' => Some("6ygfr5")
    case 'y' => Some("7uhgt6")
    case 'u' => Some("8ijhy7")
    case 'i' => Some("9okju8")
    case 'o' => Some("0plki9")
    case 'p' => Some("lo0m")
    case 'q' => Some("zswa")
    case 's' => Some("edxwqz")
    case 'd' => Some("rfcxse")
    case 'f' => Some("tgvcdr")
    case 'g' => Some("yhbvft")
    case 'h' => Some("ujnbgy")
    case 'j' => Some("iknhu")
    case 'k' => Some("olji")
    case 'l' => Some("kopm")
    case 'm' => Some("lp")
    case 'w' => Some("sxq")
    case 'x' => Some("wsdc")
    case 'c' => Some("xdfv")
    case 'v' => Some("cfgb")
    case 'b' => Some("vghn")
    case 'n' => Some("bhj")
    case _ => None
  }

  /** The layouts, in the order the strategies visit them. */
  const Layouts: seq<Layout> := [Qwerty, Qwertz, Azerty]

  /** `b` is listed next to `a` on some layout. */
  predicate Adjacent(a: char, b: char) {
    exists kb :: kb in Layouts && Neighbours(kb, a).Some? && b in Neighbours(kb, a).value
  }

  /** No layout lists a key as its own neighbour. */
  lemma NoKeyAdjacentToItself(a: char)
    ensures !Adjacent(a, a)
  {
    QwertyNotSelf(a);
    QwertzNotSelf(a);
    AzertyNotSelf(a);
  }

  // The per-layout halves of NoKeyAdjacentToItself. Each table is split into
  // key ranges (below `h`, `h` to `q`, the rest) only to keep every proof
  // small; these lemmas state nothing beyond NoKeyAdjacentToItself.

  lemma QwertyNotSelf(a: char)
    ensures QwertyKeys(a).Some? ==> a !in QwertyKeys(a).value
  {
    if a < 'h' {
      QwertyNotSelfBelow(a);
    } else if a < 'r' {
      QwertyNotSelfMiddle(a);
    }
  }

  lemma QwertyNotSelfMiddle(a: char)
    requires 'h' <= a < 'r'
    ensures QwertyKeys(a).Some? ==> a !in QwertyKeys(a).value
  {
  }

  lemma QwertyNotSelfBelow(a: char)
    requires a < 'h'
    ensures QwertyKeys(a).Some? ==> a !in QwertyKeys(a).value
  {
  }

  lemma QwertzNotSelf(a: char)
    ensures QwertzKeys(a).Some? ==> a !in QwertzKeys(a).value
  {
    if a < 'h' {
      QwertzNotSelfBelow(a);
    } else if a < 'r' {
      QwertzNotSelfMiddle(a);
    }
  }

  lemma QwertzNotSelfMiddle(a: char)
    requires 'h' <= a < 'r'
    ensures QwertzKeys(a).Some? ==> a !in QwertzKeys(a).value
  {
  }

  lemma QwertzNotSelfBelow(a: char)
    requires a < 'h'
    ensures QwertzKeys(a).Some? ==> a !in QwertzKeys(a).value
  {
  }

  lemma AzertyNotSelf(a: char)
    ensures AzertyKeys(a).Some? ==> a !in AzertyKeys(a).value
  {
    if a < 'h' {
      AzertyNotSelfBelow(a);
    } else if a < 'r' {
      AzertyNotSelfMiddle(a);
    }
  }

  lemma AzertyNotSelfMiddle(a: char)
    requires 'h' <= a < 'r'
    ensures AzertyKeys(a).Some? ==> a !in AzertyKeys(a).value
  {
  }

  lemma AzertyNotSelfBelow(a: char)
    requires a < 'h'
    ensures AzertyKeys(a).Some? ==> a !in AzertyKeys(a).value
  {
  }

  // -------------------------------------------------------------- Insertion

  function InsertionAt(d: String, i: int, kb: Layout): seq<String> {
    if 0 <= i < |d| && Neighbours(kb, d[i]).Some?
    then FlatMap(Neighbours(kb, d[i]).value, c => [InsertAt(d, i, c), InsertAt(d, i + 1, c)])
    else []
  }

  /** Every layout's insertions around position `i`. */
  function InsertionsAt(d: String, i: int): seq<String> {
    FlatMap(Layouts, kb => InsertionAt(d, i, kb))
  }

  /** For every inner position `1..|d|-2` and every layout, each neighbouring
      key of that position's character inserted just before and just after
      it, without duplicates. The first and last characters are never visited. */
  function Insertion(d: String): (r: seq<String>)
    ensures NoDup(r)
  {
    Distinct(FlatMap(Range(1, |d| - 1), i => InsertionsAt(d, i)))
  }

  /** `x` is the seed with a neighbour `c` of the inner character `d[i]`
      typed just before or just after it. */
  predicate IsInsertion(d: String, x: String, i: int, c: char) {
    && 1 <= i < |d| - 1
    && Adjacent(d[i], c)
    && (x == InsertAt(d, i, c) || x == InsertAt(d, i + 1, c))
  }

  /** Typing one of the keys `ks` before or after `d[i]` yields only strings
      of that shape. */
  lemma InsertKeysSound(d: String, i: int, ks: String, x: String)
    requires 0 <= i < |d|
    requires x in FlatMap(ks, c => [InsertAt(d, i, c), InsertAt(d, i + 1, c)])
    ensures exists c :: c in ks && (x == InsertAt(d, i, c) || x == InsertAt(d, i + 1, c))
  {
    FlatMapMember(ks, c => [InsertAt(d, i, c), InsertAt(d, i + 1, c)], x);
  }

  lemma InsertionAtSound(d: String, i: int, kb: Layout, x: String)
    requires 1 <= i < |d| - 1 && kb in Layouts
    requires x in InsertionAt(d, i, kb)
    ensures exists c :: IsInsertion(d, x, i, c)
  {
    var ks := Neighbours(kb, d[i]).value;
    InsertKeysSound(d, i, ks, x);
    var c :| c in ks && (x == InsertAt(d, i, c) || x == InsertAt(d, i + 1, c));
    assert Adjacent(d[i], c);
    assert IsInsertion(d, x, i, c);
  }

  lemma InsertionSound(d: String, x: String)
    ensures x in Insertion(d) ==> exists i, c :: IsInsertion(d, x, i, c)
  {
    var f := i => InsertionsAt(d, i);
    FlatMapRange(1, |d| - 1, f, x);
    if x in Insertion(d) {
      var i :| 1 <= i < |d| - 1 && x in f(i);
      FlatMapMember(Layouts, kb => InsertionAt(d, i, kb), x);
      var kb :| kb in Layouts && x in InsertionAt(d, i, kb);
      InsertionAtSound(d, i, kb, x);
    }
  }

  lemma InsertionAtComplete(d: String, x: String, i: int, kb: Layout, c: char)
    requires 0 <= i < |d| && Neighbours(kb, d[i]).Some? && c in Neighbours(kb, d[i]).value
    requires x == InsertAt(d, i, c) || x == InsertAt(d, i + 1, c)
    ensures x in InsertionAt(d, i, kb)
  {
    var ks := Neighbours(kb, d[i]).value;
    FlatMapMember(ks, c => [InsertAt(d, i, c), InsertAt(d, i + 1, c)], x);
  }

  lemma InsertionsAtComplete(d: String, x: String, i: int, kb: Layout)
    requires kb in Layouts && x in InsertionAt(d, i, kb)
    ensures x in InsertionsAt(d, i)
  {
    FlatMapMember(Layouts, kb => InsertionAt(d, i, kb), x);
  }

  lemma InsertionFromAt(d: String, x: String, i: int)
    requires 1 <= i < |d| - 1 && x in InsertionsAt(d, i)
    ensures x in Insertion(d)
  {
    var f := i => InsertionsAt(d, i);
    FlatMapRangeAt(1, |d| - 1, f, i, x);
    assert Insertion(d) == Distinct(FlatMap(Range(1, |d| - 1), f));
  }

  lemma InsertionComplete(d: String, x: String, i: int, c: char)
    requires IsInsertion(d, x, i, c)
    ensures x in Insertion(d)
  {
    var kb :| kb in Layouts && Neighbours(kb, d[i]).Some? && c in Neighbours(kb, d[i]).value;
    InsertionAtComplete(d, x, i, kb, c);
    InsertionsAtComplete(d, x, i, kb);
    InsertionFromAt(d, x, i);
  }

  /** The candidates are exactly the seed with a neighbouring key typed
      next to one of its inner characters. */
  lemma InsertionMembers(d: String, x: String)
    ensures x in Insertion(d) <==> exists i, c :: IsInsertion(d, x, i, c)
  {
    InsertionSound(d, x);
    if exists i, c :: IsInsertion(d, x, i, c) {
      var i, c :| IsInsertion(d, x, i, c);
      InsertionComplete(d, x, i, c);
    }
  }

  // ------------------------------------------------------------ Replacement

  function ReplacementAt(d: String, i: int, kb: Layout): seq<String> {
    if 0 <= i < |d| && Neighbours(kb, d[i]).Some?
    then FlatMap(Neighbours(kb, d[i]).value, c => [ReplaceAt(d, i, c)])
    else []
  }

  /** Every layout's replacements at position `i`. */
  function ReplacementsAt(d: String, i: int): seq<String> {
    FlatMap(Layouts, kb => ReplacementAt(d, i, kb))
  }

  /** For every position and every layout, that position's character
      replaced by each of its neighbouring keys, without duplicates. */
  function Replacement(d: String): (r: seq<String>)
    ensures NoDup(r)
  {
    Distinct(FlatMap(Range(0, |d|), i => ReplacementsAt(d, i)))
  }

  /** `x` is the seed with `d[i]` replaced by its neighbour `c`. */
  predicate IsReplacement(d: String, x: String, i: int, c: char) {
    && 0 <= i < |d|
    && Adjacent(d[i], c)
    && x == ReplaceAt(d, i, c)
  }

  lemma ReplacementAtSound(d: String, i: int, kb: Layout, x: String)
    requires kb in Layouts && x in ReplacementAt(d, i, kb)
    ensures exists c :: IsReplacement(d, x, i, c)
  {
    FlatMapMember(Neighbours(kb, d[i]).value, c => [ReplaceAt(d, i, c)], x);
    var c :| c in Neighbours(kb, d[i]).value && x in [ReplaceAt(d, i, c)];
    assert IsReplacement(d, x, i, c);
  }

  lemma ReplacementSound(d: String, x: String)
    ensures x in Replacement(d) ==> exists i, c :: IsReplacement(d, x, i, c)
  {
    var f := i => ReplacementsAt(d, i);
    FlatMapRange(0, |d|, f, x);
    if x in Replacement(d) {
      var i :| 0 <= i < |d| && x in f(i);
      FlatMapMember(Layouts, kb => ReplacementAt(d, i, kb), x);
      var kb :| kb in Layouts && x in ReplacementAt(d, i, kb);
      ReplacementAtSound(d, i, kb, x);
    }
  }

  lemma ReplacementAtComplete(d: String, x: String, i: int, kb: Layout, c: char)
    requires 0 <= i < |d| && Neighbours(kb, d[i]).Some? && c in Neighbours(kb, d[i]).value
    requires x == ReplaceAt(d, i, c)
    ensures x in ReplacementAt(d, i, kb)
  {
    var ks := Neighbours(kb, d[i]).value;
    FlatMapMember(ks, c => [ReplaceAt(d, i, c)], x);
  }

  lemma ReplacementComplete(d: String, x: String, i: int, c: char)
    requires IsReplacement(d, x, i, c)
    ensures x in Replacement(d)
  {
    var kb :| kb in Layouts && Neighbours(kb, d[i]).Some? && c in Neighbours(kb, d[i]).value;
    ReplacementAtComplete(d, x, i, kb, c);
    FlatMapMember(Layouts, kb => ReplacementAt(d, i, kb), x);
    FlatMapRangeAt(0, |d|, i => ReplacementsAt(d, i), i, x);
  }

  /** The candidates are exactly the seed with one character replaced by a
      neighbouring key; since no key neighbours itself, every candidate
      differs from the seed at exactly that one position. */
  lemma ReplacementMembers(d: String, x: String)
    ensures x in Replacement(d) <==> exists i, c :: IsReplacement(d, x, i, c)
    ensures x in Replacement(d) ==> exists i :: DiffersAtOnly(d, x, i)
  {
    ReplacementSound(d, x);
    if exists i, c :: IsReplacement(d, x, i, c) {
      var i, c :| IsReplacement(d, x, i, c);
      ReplacementComplete(d, x, i, c);
      NoKeyAdjacentToItself(d[i]);
      assert DiffersAtOnly(d, x, i);
    }
  }
}
