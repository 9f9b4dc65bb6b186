# CertPipe core, modelled in Dafny

CertPipe watches the Certificate Transparency stream and reports newly
certified domain names that contain a watched keyword, or a typosquat of
one. This project models its two algorithmic parts, both from
`certpipe.py`, and proves what each promises.

* **The typosquat generator `DomainFuzz`.** Eleven mutation strategies
  turn a seed keyword into candidate look-alike domains:
  * addition, bitsquatting, homoglyph, hyphenation, insertion, omission,
    repetition, replacement, subdomain, transposition and vowel swap;
  * the keyboard tables (QWERTY, QWERTZ, AZERTY) and the homoglyph table
    are part of the model.

  `generate` emits the seed, tagged `Original*`, followed by one block per
  strategy in a fixed order.
* **The matching pipeline.** It has four pieces:
  * `fuzz_keywords` builds the keyword universe;
  * `check_match` decides by precedence: the ignore list vetoes, then the
    no-fuzz list wins, then the fuzzed universe;
  * `certstream_callback` is a step function over the state (domains
    seen, pending alert text);
  * the flush half of `bulk_post_alerts` sends the pending text to the
    enabled chat sinks and clears it.

  Runs that interleave messages and timer ticks tie the pieces together.

Most strategies are stated twice: as a function that follows the Python
loop (`FlatMap` over `Range` plays the role of nested `for` loops,
`Distinct` the role of `list(set(...))`), and as an independent predicate
saying which strings a candidate is (`IsBitsquat`, `IsInsertion`, ...). A
`...Members` lemma proves the two agree in both directions. Two strategies
are stated differently:
* for addition, the membership condition is written out in the ensures of
  `Edits.AdditionMembers` instead of a named predicate;
* hyphenation has no separate predicate and no `...Members` lemma. The
  ensures of `Edits.Hyphenation` fix its length and say, for each
  position, where the hyphen is and that deleting it gives the seed.

Modules:
* `Text` (text.dfy): strings, sequence helpers, `FlatMap`/`Range`,
  `Distinct`, `ReplaceAll`.
* `Edits` (edits.dfy): the strategies that need no table.
* `Keyboards` (keyboards.dfy): the layouts, insertion and replacement.
* `Homoglyphs` (homoglyphs.dfy): the table and the two-pass windowed
  substitution.
* `DomainFuzz` (fuzz.dfy): `generate`.
* `Matcher` (matcher.dfy): `fuzz_keywords` and `check_match`.
* `Pipeline` (pipeline.dfy): the callback, the flush and runs.
* `Examples` (examples.dfy): worked instances on concrete seeds and
  certificate names.

Three behaviours of `certpipe.py` are modelled exactly as written:
* Homoglyph substitution varies the window width over 1 to len-1 only
  (certpipe.py:147 and 164), so a one-letter seed such as `a` has no
  homoglyph candidates (`Examples.HomoglyphSingleLetter`).
* Vowel swap also substitutes each vowel for itself (certpipe.py:256-258),
  so a seed that contains a vowel is among its own candidates.
* Insertion visits only positions 1 to len-2 (certpipe.py:191), never the
  first or the last character.

## Model

| member | source | states |
|---|---|---|
| Edits.Addition | certpipe.py:262-268 | exactly 26 candidates; the k-th is the seed followed by the k-th lowercase letter |
| Edits.AdditionMembers | certpipe.py:262-268 | a string is a candidate exactly when it is the seed followed by one letter `a`..`z`; no candidate is listed twice |
| Edits.BitsquattingMembers | certpipe.py:103-114 | a string is a candidate exactly when it differs from the seed at one position only, the new code point is the old one XOR a single-bit mask 1..128, and it is a digit, a lowercase letter or `-` |
| Edits.BitsquattingCount | certpipe.py:103-114 | at most eight candidates per position of the seed |
| Edits.XorMask8 | certpipe.py:109 | flipping bit 3 arithmetically agrees with the bitwise XOR of a byte with 8 (one such lemma per mask) |
| Edits.Hyphenation | certpipe.py:180-186 | exactly `len-1` candidates; the k-th has a hyphen at position k+1, and removing it gives back the seed |
| Edits.OmissionMembers | certpipe.py:200-211 | a string is a candidate exactly when it is a single-character deletion, or it is the run-collapsed seed and differs from the seed |
| Edits.Omission | certpipe.py:200-211 | no candidate is listed twice |
| Edits.CollapseNoRuns | certpipe.py:207 | after `re.sub(r'(.)\1+', r'\1', s)` no two adjacent characters are equal, except newlines, which `.` does not match |
| Edits.CollapseIdempotent | certpipe.py:207 | collapsing twice is collapsing once |
| Edits.CollapseKeepsChars | certpipe.py:207 | collapsing keeps exactly the set of characters that occur |
| Edits.RepetitionMembers | certpipe.py:213-220 | a string is a candidate exactly when it is the seed with one letter doubled in place |
| Edits.RepetitionUndo | certpipe.py:213-220 | every candidate contains a doubled letter, and deleting one copy gives back the seed |
| Edits.SubdomainMembers | certpipe.py:233-240 | a string is a candidate exactly when it is the seed with a dot inserted at an inner boundary where neither neighbour is `-` or `.` |
| Edits.SubdomainNoDup | certpipe.py:233-240 | no candidate is listed twice, so there is one per such boundary |
| Edits.SwapAtInvolution | certpipe.py:247 | swapping the same adjacent pair twice gives back the string |
| Edits.TranspositionMembers | certpipe.py:242-249 | a string is a candidate exactly when it is the seed with one adjacent pair of distinct characters swapped |
| Edits.TranspositionNoDup | certpipe.py:242-249 | no candidate is listed twice, so there is one per such pair |
| Edits.VowelSwapMembers | certpipe.py:251-260 | a string is a candidate exactly when it is the seed with one vowel replaced by one of `aeiou` |
| Edits.VowelSwapKeepsSeed | certpipe.py:251-260 | the seed is among its own candidates exactly when it contains a vowel |
| Keyboards.NoKeyAdjacentToItself | certpipe.py:71-89 | no layout lists a key among its own neighbours |
| Keyboards.InsertionMembers | certpipe.py:188-198 | a string is a candidate exactly when a neighbouring key of an inner character (positions 1..len-2) is typed just before or just after it |
| Keyboards.Insertion | certpipe.py:188-198 | no candidate is listed twice |
| Keyboards.ReplacementMembers | certpipe.py:222-231 | a string is a candidate exactly when one character is replaced by a neighbouring key; every candidate differs from the seed at exactly one position |
| Keyboards.Replacement | certpipe.py:222-231 | no candidate is listed twice |
| Text.ReplaceAllLength | certpipe.py:156 | `str.replace(c, g)` changes the length by `len(g)-1` per occurrence of `c` |
| Text.ReplaceAllIdentity | certpipe.py:156 | replacing a character that does not occur, or replacing it by itself, changes nothing |
| Text.ReplaceAllChars | certpipe.py:156 | every character of the result comes from the input, except `c`, or from `g` |
| Homoglyphs.GlyphPassMembers | certpipe.py:147-159 | one pass yields exactly the strings obtained by replacing every occurrence of one listed character `c` inside one window of width 1..len-1 by one glyph of `c` |
| Homoglyphs.HomoglyphMembers | certpipe.py:116-178 | the candidates are exactly the strings one or two such substitutions away from the seed |
| Homoglyphs.Homoglyph | certpipe.py:178 | no candidate is listed twice |
| Homoglyphs.HomoglyphShortSeed | certpipe.py:147 | a seed of at most one character yields no candidates, whatever the table |
| DomainFuzz.LabelsDistinct | certpipe.py:271-294 | the `fuzzer` labels identify the strategies: no two share one |
| DomainFuzz.Generate | certpipe.py:270-294 | the first entry is the seed tagged `Original*`, and entries are grouped by strategy in the fixed order |
| DomainFuzz.GenerateBlocks | certpipe.py:270-294 | the entries tagged with a strategy are exactly that strategy's candidates, in the strategy's own order |
| DomainFuzz.GenerateMembers | certpipe.py:270-294 | an entry tagged `f` with domain `x` is emitted exactly when `x` is one of `f`'s candidates |
| DomainFuzz.GenerateProduces | certpipe.py:270-294 | the emitted domain names are exactly those some strategy, the original included, produces |
| Matcher.FuzzKeywords | certpipe.py:371-379 | the universe starts with the seeds themselves and has at least two entries per seed |
| Matcher.FuzzKeywordsMembers | certpipe.py:371-379 | a string is in the universe exactly when some strategy produces it from some seed |
| Matcher.FirstHit | certpipe.py:385-399 | a `for ... if keyword in domain: return` loop finds the first keyword contained, and nothing means no keyword is contained |
| Matcher.IgnoreWins | certpipe.py:384-387 | any ignore keyword contained in the domain gives no match, whatever the other lists hold |
| Matcher.NoFuzzFirst | certpipe.py:389-393 | without a veto, the first no-fuzz keyword contained is the one reported |
| Matcher.FuzzedFirst | certpipe.py:395-399 | without a veto or a no-fuzz hit, the first universe keyword contained is the one reported |
| Matcher.CheckMatchMeaning | certpipe.py:383-401 | a match names a contained keyword of a reporting list and no ignore keyword is contained; no match exactly when vetoed or nothing is contained |
| Pipeline.StripWildcardLabel | certpipe.py:421-423 | a `*.`-prefixed name is checked and recorded under its base name; a name not starting with `*` is unchanged |
| Pipeline.Callback | certpipe.py:405-451 | heartbeats, other messages and empty updates change nothing; an update stops exactly at an empty name, marks every earlier name seen, reports each first-seen matching name once with the keyword the check picked, reports nothing else, reports the names in the order they first occur in the update, and appends the alert blocks when a chat sink is on |
| Pipeline.OrderCompose | certpipe.py:419-451 | the loop reports the names of an update in order: a hit for the first name precedes every hit for a later name, which keeps the hits in order of first occurrence |
| Pipeline.CallbackMarksAll | certpipe.py:419-432 | after an update that completes, every name in it (wildcard stripped) is seen |
| Pipeline.CallbackStep | certpipe.py:427-451 | one callback only adds to the seen set; its hits are distinct, previously unseen and now seen; the pending text grows by exactly their alert blocks when a chat sink is on |
| Pipeline.ReplayQuiet | certpipe.py:427-434 | delivering the same message again reports nothing and changes nothing |
| Pipeline.Flush | certpipe.py:305-315 | an empty pending text sends nothing; a non-empty one goes once to each enabled chat sink, and to the log when logging is enabled; either way the pending text ends empty |
| Pipeline.FlushTwice | certpipe.py:305-315 | a flush straight after a flush sends nothing |
| Pipeline.RunDelivers | certpipe.py:305-315 | over any run, the texts flushed followed by the text still pending are the text pending at the start followed by every hit's alert block: nothing is lost, duplicated or invented, and each flushed text goes to exactly the enabled sinks |
| Pipeline.RunReportsOnce | certpipe.py:427-451 | over any run, no domain is reported twice, none seen before the run is reported, and every reported one ends up seen |
| Examples.BitsquatAi | certpipe.py:103-114 | `aa` is a bitsquat of `ai` (0x69 XOR 0x08 = 0x61) |
| Examples.HyphenationAb | certpipe.py:180-186 | `ab` has exactly the hyphenation `a-b` |
| Examples.OmissionAabb | certpipe.py:200-211 | `aabb` yields the deletion `abb` and the collapsed `ab` |
| Examples.HomoglyphSingleLetter | certpipe.py:147 | `a` yields no homoglyphs |
| Examples.HomoglyphReturnsSeed | certpipe.py:162-178 | the second pass can undo the first (`b` to `d` and back), so `ab` is among its own homoglyphs |
| Examples.AmazonUniverse | certpipe.py:371-379 | `amaz0n` is in the universe built from `amazon` |
| Examples.IgnoreVetoes | certpipe.py:384-387 | an ignore keyword vetoes a domain a fuzzed keyword would match |
| Examples.NoFuzzAhead | certpipe.py:389-393 | a no-fuzz keyword is reported ahead of a fuzzed one |
| Examples.WildcardLookalike | certpipe.py:419-451 | `*.amaz0n-login.com` from a fresh state gives one hit under the base name and one pending alert block |
| Examples.WildcardReplay | certpipe.py:427-434 | the same certificate delivered again reports nothing |
| Examples.FlushOnce | certpipe.py:305-315 | timer, heartbeat, timer: the pending block reaches Slack once |

## Left out

- `__validate_domain` (certpipe.py:91-101) is not modelled. It relies on Python's IDNA codec and a look-around regular expression, and `generate` never calls it.
- The `threading.Timer` rescheduling (certpipe.py:303) is not modelled. Callback and flush are sequential transitions, and a run is a sequence of message and timer ticks, with no concurrency between them.
- The Slack and Mattermost posts are recorded outputs: a flush lists the text each enabled sink receives. A Mattermost post that the server refuses is only logged (certpipe.py:331-334), and the text is cleared all the same.
- The URLScan.io submission is a parameter `scan` from domain to result link; an empty link stands for a failed submission.
- Pipeline.Callback: `scan` is total, so a submission yields either a link or, for a rejected request, the empty string (certpipe.py:362-368). `submit_to_urlscanio` can also raise, from `requests.post` on a connection error or from `resp.json()['result']` on an unexpected body (certpipe.py:360-365). Such a raise comes after the domain is marked seen (certpipe.py:428-430, 439): that domain's alert would be lost for good, and the rest of the update abandoned. The CSV header write is a second such path. When CSV output is on and the output file does not exist, `write_to_csv_output` creates it and writes the header outside its `try` (certpipe.py:342-345). An error there propagates out of the callback (certpipe.py:441-442), again after the domain is marked seen and before its alert text is appended (certpipe.py:445-451). The model leaves both paths out, so the promise that every flagged, unseen name is reported holds only when neither a submission nor the header write raises.
- Pipeline.RunDelivers: "nothing is lost" holds only when neither a submission nor the CSV header write raises, since an alert lost on those paths never reaches the pending text. "Nothing is duplicated" holds only when the posts do not raise. `post_to_slack` (certpipe.py:321) and `post_to_mattermost` (certpipe.py:331) can raise, for example on a network error, and that skips the reset of the pending text (certpipe.py:315). The timer was already re-armed (certpipe.py:303), so the next tick sends the same text again, also to a sink that had already received it.
- CSV rows, the `print` of each hit and all logging are not modelled, apart from the flush's log line, which is recorded only when `Config.logging` says start-up left the logger enabled (certpipe.py:473). When CSV output is on, each hit is written as at most one CSV row: a failed append is caught and logged, and then no row is written (certpipe.py:347-353).
- The certstream listener, `on_open`/`on_error`, `initial_configuration` and the module-level globals are plumbing and are not modelled. A message is an `Event`. `Run` assumes that the listener drops the exception of a callback that raised and delivers the next message: the run carries on from the state that callback left.
- config.py is not part of this model. Keyword lists and enable flags are parameters (`Config`).
- Python's Unicode-aware `str.isalpha` is modelled for ASCII only. `Repetition`, `Generate` and `FuzzKeywords` require ASCII seeds.
- Python iterates a `set` in hash order. `Distinct` keeps the last occurrence of each element, and the contracts of every set-producing strategy speak only of membership and the absence of duplicates, which hold for any order.
- Matcher.FuzzKeywords: `fuzz_keywords` copies its parameter but fuzzes `cfg.keywords`. Its only call site passes `cfg.keywords`, so the model takes one keyword list for both roles.
- Pipeline.Callback: a name that is the empty string makes `domain[0]` raise. The model stops there and keeps the earlier names' effects; what happens next is the `Run` assumption above.
