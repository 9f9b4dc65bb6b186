/** The homoglyph strategy: look-alike substitutions from a fixed table of
    Latin letters, applied inside every window of the seed and then once more
    to every result. */
module Homoglyphs {
  import opened Text

  /** The look-alikes of a letter, in table order, or `None` for a character
      the table does not list (every character but 25 lowercase letters; `x`
      has no entry). */
  function Glyphs(c: char): Option<seq<String>> {
    match c
    case 'a' => Some(["à", "á", "â", "ã", "ä", "å", "ɑ", "ạ", "ǎ", "ă", "ȧ", "ą"])
    case 'b' => Some(["d", "lb", "ʙ", "ɓ", "ḃ", "ḅ", "ḇ", "ƅ"])
    case 'c' => Some(["e", "ƈ", "ċ", "ć", "ç", "č", "ĉ"])
    case 'd' => Some(["b", "cl", "dl", "ɗ", "đ", "ď", "ɖ", "ḑ", "ḋ", "ḍ", "ḏ", "ḓ"])
    case 'e' => Some(["c", "é", "è", "ê", "ë", "ē", "ĕ", "ě", "ė", "ẹ", "ę", "ȩ", "ɇ", "ḛ"])
    case 'f' => Some(["ƒ", "ḟ"])
    case 'g' => Some(["q", "ɢ", "ɡ", "ġ", "ğ", "ǵ", "ģ", "ĝ", "ǧ", "ǥ"])
    case 'h' => Some(["lh", "ĥ", "ȟ", "ħ", "ɦ", "ḧ", "ḩ", "ⱨ", "ḣ", "ḥ", "ḫ", "ẖ"])
    case 'i' => Some(["1", "l", "í", "ì", "ï", "ı", "ɩ", "ǐ", "ĭ", "ỉ", "ị", "ɨ", "ȋ", "ī"])
    case 'j' => Some(["ʝ", "ɉ"])
    case 'k' => Some(["lk", "ik", "lc", "ḳ", "ḵ", "ⱪ", "ķ"])
    case 'l' => Some(["1", "i", "ɫ", "ł"])
    case 'm' => Some(["n", "nn", "rn", "rr", "ṁ", "ṃ", "ᴍ", "ɱ", "ḿ"])
    case 'n' => Some(["m", "r", "ń", "ṅ", "ṇ", "ṉ", "ñ", "ņ", "ǹ", "ň", "ꞑ"])
    case 'o' => Some(["0", "ȯ", "ọ", "ỏ", "ơ", "ó", "ö"])
    case 'p' => Some(["ƿ", "ƥ", "ṕ", "ṗ"])
    case 'q' => Some(["g", "ʠ"])
    case 'r' => Some(["ʀ", "ɼ", "ɽ", "ŕ", "ŗ", "ř", "ɍ", "ɾ", "ȓ", "ȑ", "ṙ", "ṛ", "ṟ"])
    case 's' => Some(["ʂ", "ś", "ṣ", "ṡ", "ș", "ŝ", "š"])
    case 't' => Some(["ţ", "ŧ", "ṫ", "ṭ", "ț", "ƫ"])
    case 'u' => Some(["ᴜ", "ǔ", "ŭ", "ü", "ʉ", "ù", "ú", "û", "ũ", "ū", "ų", "ư", "ů", "ű", "ȕ", "ȗ", "ụ"])
    case 'v' => Some(["ṿ", "ⱱ", "ᶌ", "ṽ", "ⱴ"])
    case 'w' => Some(["vv", "ŵ", "ẁ", "ẃ", "ẅ", "ⱳ", "ẇ", "ẉ", "ẘ"])
    case 'y' => Some(["ʏ", "ý", "ÿ", "ŷ", "ƴ", "ȳ", "ɏ", "ỿ", "ẏ", "ỵ"])
    case 'z' => Some(["ʐ", "ż", "ź", "ᴢ", "ƶ", "ẓ", "ẕ", "ⱬ"])
    case _ => None
  }

  /** A look-alike table: the glyphs of each character it lists. */
  type Table = char -> Option<seq<String>>

  /** `s[:i] + s[i:i+ws].replace(c, g) + s[i+ws:]`: every `c` inside the
      window of width `ws` at `i` becomes `g`; the rest is untouched. */
  function SwapWindow(s: String, i: nat, ws: nat, c: char, g: String): String
    requires i + ws <= |s|
  {
    s[..i] + ReplaceAll(s[i..i + ws], c, g) + s[i + ws..]
  }

  /** The substitutions for the character at offset `j` of the window of
      width `ws` at `i`, one per glyph of that character. */
  function OffsetSwaps(t: Table, s: String, ws: int, i: int, j: int): seq<String> {
    if 0 <= i && 0 <= j < ws && i + ws <= |s| && t(s[i + j]).Some?
    then FlatMap(t(s[i + j]).value, g => [SwapWindow(s, i, ws, s[i + j], g)])
    else []
  }

  /** Every offset of the window of width `ws` at `i`. */
  function WindowSwaps(t: Table, s: String, ws: int, i: int): seq<String> {
    FlatMap(Range(0, ws), j => OffsetSwaps(t, s, ws, i, j))
  }

  /** Every start of a window of width `ws`. */
  function WidthSwaps(t: Table, s: String, ws: int): seq<String> {
    FlatMap(Range(0, |s| - ws + 1), i => WindowSwaps(t, s, ws, i))
  }

  /** One pass: window widths `1..|s|-1` (never the whole string), every
      start, every offset inside the window. */
  function GlyphPass(t: Table, s: String): seq<String> {
    FlatMap(Range(1, |s|), ws => WidthSwaps(t, s, ws))
  }

  /** The union of the first pass over the seed and a second pass over every
      first-pass result, without duplicates. */
  function HomoglyphWith(t: Table, d: String): (r: seq<String>)
    ensures NoDup(r)
  {
    var first := Distinct(GlyphPass(t, d));
    Distinct(first + FlatMap(first, s => GlyphPass(t, s)))
  }

  /** The homoglyph strategy with the table above. */
  function Homoglyph(d: String): (r: seq<String>)
    ensures NoDup(r)
  {
    HomoglyphWith(Glyphs, d)
  }

  /** `x` is `s` with every `c` in one proper window replaced by a look-alike
      `g` of `c`, where `c` occurs in that window. */
  predicate IsGlyphSwap(t: Table, s: String, x: String, ws: int, i: int, c: char, g: String) {
    && 1 <= ws < |s|
    && 0 <= i && i + ws <= |s|
    && c in s[i..i + ws]
    && t(c).Some?
    && g in t(c).value
    && x == SwapWindow(s, i, ws, c, g)
  }

  /** `x` is one windowed substitution away from `s`. */
  ghost predicate GlyphStep(t: Table, s: String, x: String) {
    exists ws, i, c, g :: IsGlyphSwap(t, s, x, ws, i, c, g)
  }

  lemma OffsetSwapsSound(t: Table, s: String, ws: int, i: int, j: int, x: String)
    requires 1 <= ws < |s|
    requires x in OffsetSwaps(t, s, ws, i, j)
    ensures GlyphStep(t, s, x)
  {
    var c := s[i + j];
    FlatMapMember(t(c).value, g => [SwapWindow(s, i, ws, c, g)], x);
    var g :| g in t(c).value && x in [SwapWindow(s, i, ws, c, g)];
    assert s[i..i + ws][j] == c;
    assert IsGlyphSwap(t, s, x, ws, i, c, g);
  }

  lemma WidthSwapsSound(t: Table, s: String, ws: int, x: String)
    requires 1 <= ws < |s|
    requires x in WidthSwaps(t, s, ws)
    ensures GlyphStep(t, s, x)
  {
    FlatMapRange(0, |s| - ws + 1, i => WindowSwaps(t, s, ws, i), x);
    var i :| 0 <= i < |s| - ws + 1 && x in WindowSwaps(t, s, ws, i);
    FlatMapRange(0, ws, j => OffsetSwaps(t, s, ws, i, j), x);
    var j :| 0 <= j < ws && x in OffsetSwaps(t, s, ws, i, j);
    OffsetSwapsSound(t, s, ws, i, j, x);
  }

  lemma GlyphPassSound(t: Table, s: String, x: String)
    requires x in GlyphPass(t, s)
    ensures GlyphStep(t, s, x)
  {
    FlatMapRange(1, |s|, ws => WidthSwaps(t, s, ws), x);
    var ws :| 1 <= ws < |s| && x in WidthSwaps(t, s, ws);
    WidthSwapsSound(t, s, ws, x);
  }

  lemma WindowSwapsComplete(t: Table, s: String, x: String, ws: int, i: int, c: char, g: String)
    requires IsGlyphSwap(t, s, x, ws, i, c, g)
    ensures x in WindowSwaps(t, s, ws, i)
  {
    var j :| 0 <= j < ws && s[i..i + ws][j] == c;
    assert s[i + j] == c;
    FlatMapMember(t(c).value, g => [SwapWindow(s, i, ws, c, g)], x);
    assert x in OffsetSwaps(t, s, ws, i, j);
    FlatMapRangeAt(0, ws, j => OffsetSwaps(t, s, ws, i, j), j, x);
  }

  lemma WidthSwapsComplete(t: Table, s: String, x: String, ws: int, i: int)
    requires 0 <= i < |s| - ws + 1 && x in WindowSwaps(t, s, ws, i)
    ensures x in WidthSwaps(t, s, ws)
  {
    FlatMapRangeAt(0, |s| - ws + 1, i => WindowSwaps(t, s, ws, i), i, x);
  }

  lemma GlyphPassComplete(t: Table, s: String, x: String, ws: int, i: int, c: char, g: String)
    requires IsGlyphSwap(t, s, x, ws, i, c, g)
    ensures x in GlyphPass(t, s)
  {
    WindowSwapsComplete(t, s, x, ws, i, c, g);
    WidthSwapsComplete(t, s, x, ws, i);
    FlatMapRangeAt(1, |s|, ws => WidthSwaps(t, s, ws), ws, x);
  }

  /** One pass yields exactly the single windowed substitutions. */
  lemma GlyphPassMembers(t: Table, s: String, x: String)
    ensures x in GlyphPass(t, s) <==> GlyphStep(t, s, x)
  {
    if x in GlyphPass(t, s) {
      GlyphPassSound(t, s, x);
    }
    if GlyphStep(t, s, x) {
      var ws, i, c, g :| IsGlyphSwap(t, s, x, ws, i, c, g);
      GlyphPassComplete(t, s, x, ws, i, c, g);
    }
  }

  /** The homoglyph candidates are exactly the strings one or two windowed
      substitutions away from the seed. */
  lemma HomoglyphMembers(t: Table, d: String, x: String)
    ensures x in HomoglyphWith(t, d) <==>
              GlyphStep(t, d, x) || exists y :: GlyphStep(t, d, y) && GlyphStep(t, y, x)
  {
    var first := Distinct(GlyphPass(t, d));
    GlyphPassMembers(t, d, x);
    FlatMapMember(first, s => GlyphPass(t, s), x);
    if exists y :: y in first && x in GlyphPass(t, y) {
      var y :| y in first && x in GlyphPass(t, y);
      GlyphPassMembers(t, d, y);
      GlyphPassMembers(t, y, x);
    }
    if exists y :: GlyphStep(t, d, y) && GlyphStep(t, y, x) {
      var y :| GlyphStep(t, d, y) && GlyphStep(t, y, x);
      GlyphPassMembers(t, d, y);
      GlyphPassMembers(t, y, x);
      assert y in first;
    }
  }

  /** A seed of at most one character has no proper window, so it yields no
      homoglyph candidates at all, whatever the table. */
  lemma HomoglyphShortSeed(t: Table, d: String)
    requires |d| <= 1
    ensures HomoglyphWith(t, d) == []
  {
    assert GlyphPass(t, d) == [];
  }
}
