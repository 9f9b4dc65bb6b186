/** Worked instances of the general properties on small seeds and on the
    default keywords. */
module Examples {
  import opened Text
  import Edits
  import Keyboards
  import Homoglyphs
  import DomainFuzz
  import Matcher
  import Pipeline

  /** Flipping bit 3 of the `i` of `ai` (0x69 ^ 0x08 = 0x61) gives `aa`. */
  lemma BitsquatAi()
    ensures "aa" in Edits.Bitsquatting("ai")
    ensures ((105 as bv8) ^ 8) as int == 'a' as int
  {
    Edits.XorMask8(105 as bv8);
    assert Edits.IsBitsquat("ai", "aa", 1, 8);
    assert 8 in Edits.Masks;
    Edits.BitsquattingMembers("ai", "aa");
  }

  /** A two-letter seed has exactly one hyphenation. */
  lemma HyphenationAb()
    ensures Edits.Hyphenation("ab") == ["a-b"]
  {
    var r := Edits.Hyphenation("ab");
    assert |r| == 1 && |r[0]| == 3 && r[0][1] == '-';
    assert DeleteAt(r[0], 1) == "ab";
    assert r[0][0] == 'a' && r[0][2] == 'b';
    assert r[0] == "a-b";
  }

  /** Omission of `aabb` offers both single deletions and the collapsed form. */
  lemma OmissionAabb()
    ensures "abb" in Edits.Omission("aabb")
    ensures "ab" in Edits.Omission("aabb")
  {
    assert Edits.Collapse("aabb") == "ab";
    Edits.OmissionMembers("aabb", "ab");
    assert DeleteAt("aabb", 0) == "abb";
    Edits.OmissionMembers("aabb", "abb");
  }

  /** A one-letter seed has no homoglyph candidates, since windows never
      span the whole seed. */
  lemma HomoglyphSingleLetter()
    ensures Homoglyphs.Homoglyph("a") == []
  {
    Homoglyphs.HomoglyphShortSeed(Homoglyphs.Glyphs, "a");
  }

  lemma GlyphB()
    ensures Homoglyphs.Glyphs('b').Some? && "d" in Homoglyphs.Glyphs('b').value
  {
    assert Homoglyphs.Glyphs('b').value[0] == "d";
  }

  lemma GlyphD()
    ensures Homoglyphs.Glyphs('d').Some? && "b" in Homoglyphs.Glyphs('d').value
  {
    assert Homoglyphs.Glyphs('d').value[0] == "b";
  }

  lemma StepBToD()
    ensures Homoglyphs.GlyphStep(Homoglyphs.Glyphs, "ab", "ad")
  {
    GlyphB();
    assert "ab"[1..2] == "b";
    assert Homoglyphs.SwapWindow("ab", 1, 1, 'b', "d") == "ad";
    assert Homoglyphs.IsGlyphSwap(Homoglyphs.Glyphs, "ab", "ad", 1, 1, 'b', "d");
  }

  lemma StepDToB()
    ensures Homoglyphs.GlyphStep(Homoglyphs.Glyphs, "ad", "ab")
  {
    GlyphD();
    assert "ad"[1..2] == "d";
    assert Homoglyphs.SwapWindow("ad", 1, 1, 'd', "b") == "ab";
    assert Homoglyphs.IsGlyphSwap(Homoglyphs.Glyphs, "ad", "ab", 1, 1, 'd', "b");
  }

  /** The second pass can undo the first: `b` becomes `d`, and `d` becomes
      `b` again, so the seed `ab` is among its own homoglyphs. */
  lemma HomoglyphReturnsSeed()
    ensures "ab" in Homoglyphs.Homoglyph("ab")
  {
    StepBToD();
    StepDToB();
    Homoglyphs.HomoglyphMembers(Homoglyphs.Glyphs, "ab", "ab");
  }

  lemma AmazonReplacement()
    ensures "amaz0n" in Keyboards.Replacement("amazon")
  {
    assert Keyboards.Neighbours(Keyboards.Qwerty, 'o') == Some("0plki9");
    assert Keyboards.Adjacent('o', '0');
    assert ReplaceAt("amazon", 4, '0') == "amaz0n";
    Keyboards.ReplacementComplete("amazon", "amaz0n", 4, '0');
  }

  /** A replacement candidate is produced by the generator. */
  lemma ReplacementProduces(d: String, x: String)
    requires IsAscii(d) && x in Keyboards.Replacement(d)
    ensures DomainFuzz.Produces(d, x)
  {
    assert x in DomainFuzz.Candidates(DomainFuzz.Replacement, d);
  }

  lemma AmazonAscii()
    ensures IsAscii("amazon")
  {
  }

  lemma AmazonProduces()
    ensures DomainFuzz.Produces("amazon", "amaz0n")
  {
    AmazonAscii();
    AmazonReplacement();
    ReplacementProduces("amazon", "amaz0n");
  }

  /** `amaz0n` is in the universe built from `amazon`: `0` is next to `o`
      on a QWERTY keyboard. */
  lemma AmazonUniverse()
    ensures "amaz0n" in Matcher.FuzzKeywords(["amazon"])
  {
    AmazonProduces();
    assert ["amazon"][0] == "amazon";
    Matcher.FuzzKeywordsMembers(["amazon"], "amaz0n");
  }

  /** An ignore keyword vetoes a domain that a fuzzed keyword would match. */
  lemma IgnoreVetoes()
    ensures Matcher.CheckMatch(["login"], [], ["amaz0n"], "amaz0n-login.com") == Matcher.NoMatch
  {
    assert "login" <= "amaz0n-login.com"[7..];
    Matcher.IgnoreWins(["login"], [], ["amaz0n"], "amaz0n-login.com", "login");
  }

  /** A no-fuzz keyword is reported ahead of a fuzzed one. */
  lemma NoFuzzAhead()
    ensures Matcher.CheckMatch([], ["admin"], ["amazon"], "admin.amazon.com") == Matcher.Match("admin")
  {
    assert "admin" <= "admin.amazon.com"[0..];
    Matcher.NoFuzzFirst([], ["admin"], ["amazon"], "admin.amazon.com", 0);
  }

  const Cfg := Pipeline.Config([], [], ["amaz0n"], false, false, true, false, true)
  /** The look-alike base name, and an update holding its wildcard form. */
  const Base: String := "amaz0n-login.com"
  const Update := Pipeline.CertificateUpdate(["*." + Base])

  lemma LookalikeMatches()
    ensures Matcher.CheckMatch([], [], ["amaz0n"], "amaz0n-login.com") == Matcher.Match("amaz0n")
  {
    assert "amaz0n" <= "amaz0n-login.com"[0..];
    Matcher.FuzzedFirst([], [], ["amaz0n"], "amaz0n-login.com", 0);
  }

  /** A wildcard certificate for a look-alike name, from a fresh state: one
      hit under the base name, the name marked seen, one alert block
      pending. */
  lemma WildcardLookalike(scan: String -> String)
    ensures Pipeline.Callback(Cfg, scan, Pipeline.State({}, ""), Update)
      == Pipeline.Outcome(
           Pipeline.State({"amaz0n-login.com"}, "Keyword: amaz0n\nDomain: amaz0n-login.com\n\n"),
           [Pipeline.Hit("amaz0n", "amaz0n-login.com", "")],
           false)
  {
    var st := Pipeline.State({}, "");
    StepLookalike(scan);
    var first := Pipeline.StepDomain(Cfg, scan, st, "*." + Base);
    assert ["*." + Base][1..] == [];
    assert Pipeline.ProcessDomains(Cfg, scan, first.state, []) == Pipeline.Outcome(first.state, [], false);
    assert Pipeline.Callback(Cfg, scan, st, Update)
      == Pipeline.ProcessDomains(Cfg, scan, st, ["*." + Base]);
  }

  lemma AlertText()
    ensures Pipeline.Alert(Pipeline.Hit("amaz0n", "amaz0n-login.com", ""))
      == "Keyword: amaz0n\nDomain: amaz0n-login.com\n\n"
  {
  }

  lemma StepLookalike(scan: String -> String)
    ensures Pipeline.StepDomain(Cfg, scan, Pipeline.State({}, ""), "*." + Base)
      == Pipeline.Outcome(
           Pipeline.State({"amaz0n-login.com"}, "Keyword: amaz0n\nDomain: amaz0n-login.com\n\n"),
           [Pipeline.Hit("amaz0n", "amaz0n-login.com", "")],
           false)
  {
    var d := Base;
    assert Pipeline.StripWildcard("*." + d) == d by {
      Pipeline.StripWildcardLabel(d);
    }
    LookalikeMatches();
    var h := Pipeline.Hit("amaz0n", d, "");
    assert "" + Pipeline.Alert(h) == "Keyword: amaz0n\nDomain: amaz0n-login.com\n\n" by {
      AlertText();
    }
    assert {} + {d} == {d};
  }

  /** Delivering the same certificate again reports nothing. */
  lemma WildcardReplay(scan: String -> String)
    ensures var st := Pipeline.State({"amaz0n-login.com"}, "Keyword: amaz0n\nDomain: amaz0n-login.com\n\n");
      Pipeline.Callback(Cfg, scan, st, Update) == Pipeline.Outcome(st, [], false)
  {
    WildcardLookalike(scan);
    Pipeline.ReplayQuiet(Cfg, scan, Pipeline.State({}, ""), Update);
  }

  /** A heartbeat between two flushes: the pending block is posted to Slack
      once, and the second timer tick posts nothing. */
  lemma FlushOnce(scan: String -> String)
    ensures var st := Pipeline.State({"amaz0n-login.com"}, "Keyword: amaz0n\nDomain: amaz0n-login.com\n\n");
      var r := Pipeline.Run(Cfg, scan, st, [Pipeline.Timer, Pipeline.Message(Pipeline.Heartbeat), Pipeline.Timer]);
      && r.slack == [st.buffer]
      && r.mattermost == []
      && r.state == Pipeline.State(st.seen, "")
  {
  }
}
