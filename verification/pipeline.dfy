/** The certificate-stream side: the per-message callback over the state
    (domains seen so far, pending alert text), the timer's flush of the
    pending text to the chat sinks, and runs that interleave the two. */
module Pipeline {
  import opened Text
  import Matcher

  /** Keyword lists and enable flags, as the configuration supplies them;
      `fuzzed` is the universe built once at start-up, and `logging` says
      whether start-up left the logger enabled. */
  datatype Config = Config(
    ignore: seq<String>,
    noFuzz: seq<String>,
    fuzzed: seq<String>,
    urlscan: bool,
    csv: bool,
    slack: bool,
    mattermost: bool,
    logging: bool)

  predicate ChatEnabled(cfg: Config) {
    cfg.slack || cfg.mattermost
  }

  /** `seen_domains` and `bulk_alert_message`. */
  datatype State = State(seen: set<String>, buffer: String)

  /** The message types the callback distinguishes. */
  datatype Event =
    | Heartbeat
    | CertificateUpdate(allDomains: seq<String>)
    | OtherMessage

  /** One reported domain: the keyword it matched, the domain, and the scan
      link (empty when scanning is off or the submission failed). */
  datatype Hit = Hit(keyword: String, domain: String, scan: String)

  /** The result of one callback: the new state, the domains reported (in
      order; each is printed and, with CSV output on, written as a row), and
      whether the callback stopped with an exception. */
  datatype Outcome = Outcome(state: State, hits: seq<Hit>, crashed: bool)

  /** Drops a leading `*` together with the character after it (the `.` of
      a wildcard label). */
  function StripWildcard(d: String): (r: String)
    requires |d| > 0
    ensures d[0] != '*' ==> r == d
    ensures d[0] == '*' ==> |r| == (if |d| >= 2 then |d| - 2 else 0) && r == d[|d| - |r|..]
  {
    if d[0] == '*' then (if |d| >= 2 then d[2..] else []) else d
  }

  /** A wildcard name is reported under its base domain. */
  lemma StripWildcardLabel(d: String)
    ensures StripWildcard("*." + d) == d
    ensures |d| > 0 && d[0] != '*' ==> StripWildcard(d) == d
  {
    assert ("*." + d)[2..] == d;
  }

  /** The alert block appended for one hit. */
  function Alert(h: Hit): String {
    "Keyword: " + h.keyword + "\nDomain: " + h.domain
      + (if h.scan != [] then "\nScan: " + h.scan else [])
      + "\n\n"
  }

  function Alerts(hs: seq<Hit>): String {
    if hs == [] then [] else Alert(hs[0]) + Alerts(hs[1..])
  }

  lemma {:induction false} AlertsAppend(a: seq<Hit>, b: seq<Hit>)
    ensures Alerts(a + b) == Alerts(a) + Alerts(b)
  {
    if a == [] {
      assert a + b == b;
    } else {
      assert (a + b)[0] == a[0] && (a + b)[1..] == a[1..] + b;
      AlertsAppend(a[1..], b);
    }
  }

  /** The base domains the callback marks as seen: those of `ds` before the
      first empty name, at which indexing `domain[0]` raises. */
  function Marked(ds: seq<String>): set<String> {
    if ds == [] || ds[0] == [] then {} else {StripWildcard(ds[0])} + Marked(ds[1..])
  }

  /** Every domain before the first empty one is marked. */
  lemma {:induction false} MarkedPrefix(ds: seq<String>, i: nat)
    requires i < |ds|
    requires forall j :: 0 <= j <= i ==> ds[j] != []
    ensures StripWildcard(ds[i]) in Marked(ds)
  {
    if i > 0 {
      MarkedPrefix(ds[1..], i - 1);
    }
  }

  /** The index of the first name of `ds` that reduces to `d`, counted
      among the names before the first empty one. */
  function Position(ds: seq<String>, d: String): nat
    decreases |ds|
  {
    if ds == [] || ds[0] == [] || StripWildcard(ds[0]) == d then 0
    else 1 + Position(ds[1..], d)
  }

  /** The hits come in the order of their names in the update. */
  predicate InNameOrder(ds: seq<String>, hs: seq<Hit>) {
    forall k, l :: 0 <= k < l < |hs| ==> Position(ds, hs[k].domain) < Position(ds, hs[l].domain)
  }

  predicate DistinctDomains(hs: seq<Hit>) {
    forall i, j :: 0 <= i < j < |hs| ==> hs[i].domain != hs[j].domain
  }

  /** A hit for a domain of `ds` that `st` had not seen, naming the keyword
      the match check picked, with the scan link when scanning is on. */
  predicate Reported(cfg: Config, scan: String -> String, st: State, ds: seq<String>, h: Hit) {
    && h.domain in Marked(ds)
    && h.domain !in st.seen
    && Matcher.CheckMatch(cfg.ignore, cfg.noFuzz, cfg.fuzzed, h.domain) == Matcher.Match(h.keyword)
    && h.scan == (if cfg.urlscan then scan(h.domain) else [])
  }

  /** What handling the names `ds` of an update from state `st` promises:
      it stops exactly when a name is empty; every name before that is
      marked seen; each first-seen matching name is reported once, and
      nothing else is, in the order of the names; the alert text of the
      hits is appended when a chat sink is on. */
  predicate Handles(cfg: Config, scan: String -> String, st: State, ds: seq<String>, r: Outcome) {
    && (r.crashed <==> [] in ds)
    && r.state.seen == st.seen + Marked(ds)
    && r.state.buffer == st.buffer + (if ChatEnabled(cfg) then Alerts(r.hits) else [])
    && DistinctDomains(r.hits)
    && InNameOrder(ds, r.hits)
    && (forall k :: 0 <= k < |r.hits| ==> Reported(cfg, scan, st, ds, r.hits[k]))
    && (forall d :: (d in Marked(ds) && d !in st.seen && Flagged(cfg, d)) ==>
          exists k :: 0 <= k < |r.hits| && r.hits[k].domain == d)
  }

  /** One non-empty name of an update. */
  function StepDomain(cfg: Config, scan: String -> String, st: State, raw: String): Outcome
    requires |raw| > 0
  {
    var d := StripWildcard(raw);
    var verdict := Matcher.CheckMatch(cfg.ignore, cfg.noFuzz, cfg.fuzzed, d);
    var seen := st.seen + {d};
    if verdict.Match? && d !in st.seen then
      var h := Hit(verdict.keyword, d, if cfg.urlscan then scan(d) else []);
      Outcome(State(seen, if ChatEnabled(cfg) then st.buffer + Alert(h) else st.buffer), [h], false)
    else
      Outcome(State(seen, st.buffer), [], false)
  }

  /** The loop over the names of an update. */
  function ProcessDomains(cfg: Config, scan: String -> String, st: State, ds: seq<String>): Outcome
    decreases |ds|
  {
    if ds == [] then Outcome(st, [], false)
    else if ds[0] == [] then Outcome(st, [], true)
    else
      var first := StepDomain(cfg, scan, st, ds[0]);
      var rest := ProcessDomains(cfg, scan, first.state, ds[1..]);
      Outcome(rest.state, first.hits + rest.hits, rest.crashed)
  }

  /** A single non-empty name is handled as promised. */
  lemma StepHandles(cfg: Config, scan: String -> String, st: State, raw: String)
    requires |raw| > 0
    ensures Handles(cfg, scan, st, [raw], StepDomain(cfg, scan, st, raw))
  {
    assert [raw][1..] == [];
    assert Marked([raw]) == {StripWildcard(raw)};
    var r := StepDomain(cfg, scan, st, raw);
    assert Alerts(r.hits) == if r.hits == [] then [] else Alert(r.hits[0]);
  }

  /** Handling one name and then the rest is handling them all. */
  lemma HandlesCompose(cfg: Config, scan: String -> String, st: State, raw: String, ds: seq<String>, first: Outcome, rest: Outcome)
    requires |raw| > 0
    requires Handles(cfg, scan, st, [raw], first)
    requires Handles(cfg, scan, first.state, ds, rest)
    ensures Handles(cfg, scan, st, [raw] + ds, Outcome(rest.state, first.hits + rest.hits, rest.crashed))
  {
    var all := [raw] + ds;
    var r := Outcome(rest.state, first.hits + rest.hits, rest.crashed);
    assert Marked(all) == Marked([raw]) + Marked(ds) by {
      assert all[0] == raw && all[1..] == ds;
      assert [raw][1..] == [];
    }
    assert r.crashed <==> [] in all by {
      assert all[0] == raw && all[1..] == ds;
    }
    assert r.state.buffer == st.buffer + (if ChatEnabled(cfg) then Alerts(r.hits) else []) by {
      BufferCompose(cfg, st.buffer, first.state.buffer, rest.state.buffer, first.hits, rest.hits);
    }
    assert DistinctDomains(r.hits) by {
      forall k | 0 <= k < |first.hits| ensures first.hits[k].domain in first.state.seen {
        assert Reported(cfg, scan, st, [raw], first.hits[k]);
      }
      forall k | 0 <= k < |rest.hits| ensures rest.hits[k].domain !in first.state.seen {
        assert Reported(cfg, scan, first.state, ds, rest.hits[k]);
      }
      DistinctCompose(first.hits, rest.hits, first.state.seen);
    }
    assert forall k :: 0 <= k < |r.hits| ==> Reported(cfg, scan, st, all, r.hits[k]) by {
      ReportedCompose(cfg, scan, st, raw, ds, first.hits, first.state, rest.hits);
    }
    assert InNameOrder(all, r.hits) by {
      forall k | 0 <= k < |first.hits| ensures first.hits[k].domain == StripWildcard(raw) {
        assert Reported(cfg, scan, st, [raw], first.hits[k]);
        assert [raw][1..] == [];
        assert Marked([raw]) == {StripWildcard(raw)};
      }
      forall k | 0 <= k < |rest.hits| ensures rest.hits[k].domain != StripWildcard(raw) {
        assert Reported(cfg, scan, first.state, ds, rest.hits[k]);
      }
      OrderCompose(raw, ds, first.hits, rest.hits);
    }
    assert forall d :: (d in Marked(all) && d !in st.seen && Flagged(cfg, d)) ==>
          exists k :: 0 <= k < |r.hits| && r.hits[k].domain == d by {
      assert Marked([raw]) == {StripWildcard(raw)} by {
        assert [raw][1..] == [];
      }
      CompleteCompose(cfg, st, raw, ds, first.hits, first.state, rest.hits);
    }
  }

  /** The alert text a chat-enabled configuration appends for two hit
      lists in a row. */
  lemma ChatAlertsAppend(cfg: Config, h1: seq<Hit>, h2: seq<Hit>)
    ensures (if ChatEnabled(cfg) then Alerts(h1 + h2) else [])
      == (if ChatEnabled(cfg) then Alerts(h1) else []) + (if ChatEnabled(cfg) then Alerts(h2) else [])
  {
    if ChatEnabled(cfg) {
      AlertsAppend(h1, h2);
    } else {
      var e: String := [];
      assert e + e == e;
    }
  }

  lemma AppendTwice(b0: String, b1: String, b2: String, a: String, b: String)
    requires b1 == b0 + a && b2 == b1 + b
    ensures b2 == b0 + (a + b)
  {
  }

  /** Alert text appended in two steps is the text of both hit lists. */
  lemma BufferCompose(cfg: Config, b0: String, b1: String, b2: String, h1: seq<Hit>, h2: seq<Hit>)
    requires b1 == b0 + (if ChatEnabled(cfg) then Alerts(h1) else [])
    requires b2 == b1 + (if ChatEnabled(cfg) then Alerts(h2) else [])
    ensures b2 == b0 + (if ChatEnabled(cfg) then Alerts(h1 + h2) else [])
  {
    ChatAlertsAppend(cfg, h1, h2);
    AppendTwice(b0, b1, b2, if ChatEnabled(cfg) then Alerts(h1) else [], if ChatEnabled(cfg) then Alerts(h2) else []);
  }

  lemma ReportedCompose(cfg: Config, scan: String -> String, st: State, raw: String, ds: seq<String>, first: seq<Hit>, mid: State, rest: seq<Hit>)
    requires |raw| > 0
    requires st.seen <= mid.seen
    requires forall k :: 0 <= k < |first| ==> Reported(cfg, scan, st, [raw], first[k])
    requires forall k :: 0 <= k < |rest| ==> Reported(cfg, scan, mid, ds, rest[k])
    ensures forall k :: 0 <= k < |first + rest| ==> Reported(cfg, scan, st, [raw] + ds, (first + rest)[k])
  {
    var all := [raw] + ds;
    assert all[0] == raw && all[1..] == ds;
    assert [raw][1..] == [];
    assert Marked(all) == Marked([raw]) + Marked(ds);
    var hs := first + rest;
    forall k | 0 <= k < |hs| ensures Reported(cfg, scan, st, all, hs[k]) {
      if k < |first| {
        assert hs[k] == first[k];
      } else {
        assert hs[k] == rest[k - |first|];
      }
    }
  }

  /** Two hits with distinct domains differ in their first two domains. */
  lemma FirstTwoDiffer(hs: seq<Hit>)
    ensures DistinctDomains(hs) && |hs| > 1 ==> hs[0].domain != hs[1].domain
  {
  }

  /** The hits for the first name, which all carry that name, come before
      the hits for the later names, which all carry other names. */
  lemma OrderCompose(raw: String, ds: seq<String>, first: seq<Hit>, rest: seq<Hit>)
    requires |raw| > 0 && DistinctDomains(first)
    requires forall k :: 0 <= k < |first| ==> first[k].domain == StripWildcard(raw)
    requires forall k :: 0 <= k < |rest| ==> rest[k].domain != StripWildcard(raw)
    requires InNameOrder(ds, rest)
    ensures InNameOrder([raw] + ds, first + rest)
  {
    var all := [raw] + ds;
    assert all[0] == raw && all[1..] == ds;
    var hs := first + rest;
    var n := |first|;
    if n > 1 {
      FirstTwoDiffer(first);
      assert false;
    }
    forall k, l | 0 <= k < l < |hs| ensures Position(all, hs[k].domain) < Position(all, hs[l].domain) {
      assert hs[l] == rest[l - n];
      assert Position(all, hs[l].domain) == 1 + Position(ds, hs[l].domain);
      if k >= n {
        assert hs[k] == rest[k - n];
        assert Position(all, hs[k].domain) == 1 + Position(ds, hs[k].domain);
      } else {
        assert hs[k] == first[k];
      }
    }
  }

  lemma DistinctCompose(first: seq<Hit>, rest: seq<Hit>, seen: set<String>)
    requires DistinctDomains(first) && DistinctDomains(rest)
    requires forall k :: 0 <= k < |first| ==> first[k].domain in seen
    requires forall k :: 0 <= k < |rest| ==> rest[k].domain !in seen
    ensures DistinctDomains(first + rest)
  {
    var hs := first + rest;
    var n := |first|;
    forall i, j | 0 <= i < j < |hs| ensures hs[i].domain != hs[j].domain {
      if j >= n {
        assert hs[j] == rest[j - n];
        if i >= n {
          assert hs[i] == rest[i - n];
        } else {
          assert hs[i] == first[i];
        }
      } else {
        assert hs[i] == first[i] && hs[j] == first[j];
      }
    }
  }

  predicate Flagged(cfg: Config, d: String) {
    Matcher.CheckMatch(cfg.ignore, cfg.noFuzz, cfg.fuzzed, d).Match?
  }

  lemma CompleteCompose(cfg: Config, st: State, raw: String, ds: seq<String>, first: seq<Hit>, mid: State, rest: seq<Hit>)
    requires |raw| > 0
    requires mid.seen == st.seen + {StripWildcard(raw)}
    requires forall d :: (d in Marked([raw]) && d !in st.seen && Flagged(cfg, d)) ==>
          exists k :: 0 <= k < |first| && first[k].domain == d
    requires forall d :: (d in Marked(ds) && d !in mid.seen && Flagged(cfg, d)) ==>
          exists k :: 0 <= k < |rest| && rest[k].domain == d
    ensures forall d :: (d in Marked([raw] + ds) && d !in st.seen && Flagged(cfg, d)) ==>
          exists k :: 0 <= k < |first + rest| && (first + rest)[k].domain == d
  {
    var all := [raw] + ds;
    assert all[0] == raw && all[1..] == ds;
    assert [raw][1..] == [];
    assert Marked(all) == Marked([raw]) + Marked(ds);
    var hs := first + rest;
    forall d | d in Marked(all) && d !in st.seen && Flagged(cfg, d)
      ensures exists k :: 0 <= k < |hs| && hs[k].domain == d
    {
      if d == StripWildcard(raw) {
        var k :| 0 <= k < |first| && first[k].domain == d;
        assert hs[k] == first[k];
      } else {
        var k :| 0 <= k < |rest| && rest[k].domain == d;
        assert hs[|first| + k] == rest[k];
      }
    }
  }

  lemma {:induction false} ProcessHandles(cfg: Config, scan: String -> String, st: State, ds: seq<String>)
    ensures Handles(cfg, scan, st, ds, ProcessDomains(cfg, scan, st, ds))
    decreases |ds|
  {
    if ds != [] && ds[0] != [] {
      var first := StepDomain(cfg, scan, st, ds[0]);
      StepHandles(cfg, scan, st, ds[0]);
      ProcessHandles(cfg, scan, first.state, ds[1..]);
      HandlesCompose(cfg, scan, st, ds[0], ds[1..], first, ProcessDomains(cfg, scan, first.state, ds[1..]));
      assert [ds[0]] + ds[1..] == ds;
    }
  }

  /** The callback on one message. */
  function Callback(cfg: Config, scan: String -> String, st: State, ev: Event): (r: Outcome)
    ensures ev.Heartbeat? || ev.OtherMessage? || ev == CertificateUpdate([]) ==> r == Outcome(st, [], false)
    ensures ev.CertificateUpdate? ==> Handles(cfg, scan, st, ev.allDomains, r)
  {
    match ev
    case Heartbeat => Outcome(st, [], false)
    case OtherMessage => Outcome(st, [], false)
    case CertificateUpdate(ds) =>
      ProcessHandles(cfg, scan, st, ds);
      if |ds| == 0 then Outcome(st, [], false) else ProcessDomains(cfg, scan, st, ds)
  }

  /** After an update that completes, every one of its names is seen. */
  lemma CallbackMarksAll(cfg: Config, scan: String -> String, st: State, ds: seq<String>)
    ensures var r := Callback(cfg, scan, st, CertificateUpdate(ds));
      !r.crashed ==> forall i :: 0 <= i < |ds| ==> |ds[i]| > 0 && StripWildcard(ds[i]) in r.state.seen
  {
    var r := Callback(cfg, scan, st, CertificateUpdate(ds));
    if !r.crashed {
      forall i | 0 <= i < |ds| ensures |ds[i]| > 0 && StripWildcard(ds[i]) in r.state.seen {
        assert ds[i] in ds;
        MarkedPrefix(ds, i);
      }
    }
  }

  /** Names already seen are handled without effect. */
  lemma {:induction false} ProcessSeen(cfg: Config, scan: String -> String, st: State, ds: seq<String>)
    requires Marked(ds) <= st.seen
    ensures ProcessDomains(cfg, scan, st, ds) == Outcome(st, [], [] in ds)
    decreases |ds|
  {
    if ds != [] && ds[0] != [] {
      assert st.seen + {StripWildcard(ds[0])} == st.seen;
      ProcessSeen(cfg, scan, st, ds[1..]);
      assert ([] in ds) <==> ([] in ds[1..]) by {
        assert ds == [ds[0]] + ds[1..];
      }
    }
  }

  /** Delivering the same message a second time reports nothing and leaves
      the state as the first delivery left it. */
  lemma ReplayQuiet(cfg: Config, scan: String -> String, st: State, ev: Event)
    ensures var r := Callback(cfg, scan, st, ev);
      Callback(cfg, scan, r.state, ev) == Outcome(r.state, [], r.crashed)
  {
    if ev.CertificateUpdate? && |ev.allDomains| > 0 {
      var r := Callback(cfg, scan, st, ev);
      ProcessSeen(cfg, scan, r.state, ev.allDomains);
    }
  }

  /** What one flush hands to each sink. */
  datatype Sent = Sent(slack: seq<String>, mattermost: seq<String>, logged: seq<String>)

  /** The timer's flush: a non-empty pending text goes to every enabled
      chat sink and, when logging is on, to the log; the pending text is
      cleared. */
  function Flush(cfg: Config, st: State): (r: (State, Sent))
    ensures r.0 == State(st.seen, [])
    ensures st.buffer == [] ==> r.1 == Sent([], [], [])
    ensures st.buffer != [] ==>
      && r.1.slack == (if cfg.slack then [st.buffer] else [])
      && r.1.mattermost == (if cfg.mattermost then [st.buffer] else [])
      && r.1.logged == (if cfg.logging then ["The following alert message was sent:\n\n" + st.buffer] else [])
  {
    if st.buffer == [] then (st, Sent([], [], []))
    else
      (State(st.seen, []),
       Sent(if cfg.slack then [st.buffer] else [],
            if cfg.mattermost then [st.buffer] else [],
            if cfg.logging then ["The following alert message was sent:\n\n" + st.buffer] else []))
  }

  /** A second flush right after the first finds nothing to send. */
  lemma FlushTwice(cfg: Config, st: State)
    ensures var first := Flush(cfg, st).0;
      Flush(cfg, first) == (first, Sent([], [], []))
  {
  }

  /** A timer firing or a message arriving. */
  datatype Tick = Message(ev: Event) | Timer

  /** What a run produced: the final state, every hit in order, the texts
      flushed in order, and the posts to each chat sink. */
  datatype Trace = Trace(state: State, hits: seq<Hit>, flushed: seq<String>, slack: seq<String>, mattermost: seq<String>)

  function Concat(ms: seq<String>): String {
    if ms == [] then [] else ms[0] + Concat(ms[1..])
  }

  /** A run over `ticks` from `st`: each message goes through the
      callback, each timer tick through the flush. */
  function Run(cfg: Config, scan: String -> String, st: State, ticks: seq<Tick>): Trace
    decreases |ticks|
  {
    if ticks == [] then Trace(st, [], [], [], [])
    else
      match ticks[0]
      case Message(ev) =>
        var o := Callback(cfg, scan, st, ev);
        var t := Run(cfg, scan, o.state, ticks[1..]);
        Trace(t.state, o.hits + t.hits, t.flushed, t.slack, t.mattermost)
      case Timer =>
        var (next, sent) := Flush(cfg, st);
        var t := Run(cfg, scan, next, ticks[1..]);
        var flushed := if st.buffer != [] then [st.buffer] + t.flushed else t.flushed;
        Trace(t.state, t.hits, flushed, sent.slack + t.slack, sent.mattermost + t.mattermost)
  }

  /** One callback only adds seen domains, reports unseen ones, and appends
      their alerts when a chat sink is on. */
  lemma CallbackStep(cfg: Config, scan: String -> String, st: State, ev: Event)
    ensures var o := Callback(cfg, scan, st, ev);
      && st.seen <= o.state.seen
      && o.state.buffer == st.buffer + (if ChatEnabled(cfg) then Alerts(o.hits) else [])
      && DistinctDomains(o.hits)
      && forall k :: 0 <= k < |o.hits| ==> o.hits[k].domain !in st.seen && o.hits[k].domain in o.state.seen
  {
    var o := Callback(cfg, scan, st, ev);
    if ev.CertificateUpdate? {
      forall k | 0 <= k < |o.hits| ensures o.hits[k].domain !in st.seen && o.hits[k].domain in o.state.seen {
        assert Reported(cfg, scan, st, ev.allDomains, o.hits[k]);
      }
    }
  }

  /** No alert text is lost or invented: the texts flushed, followed by
      what is still pending, are the text pending at the start followed by
      the alerts of every hit. Each flushed text is non-empty and goes to
      exactly the enabled chat sinks. */
  predicate Delivers(cfg: Config, st: State, r: Trace) {
    && Concat(r.flushed) + r.state.buffer == st.buffer + (if ChatEnabled(cfg) then Alerts(r.hits) else [])
    && (forall k :: 0 <= k < |r.flushed| ==> r.flushed[k] != [])
    && r.slack == (if cfg.slack then r.flushed else [])
    && r.mattermost == (if cfg.mattermost then r.flushed else [])
  }

  lemma DeliversAfterMessage(cfg: Config, st: State, mid: State, hits: seq<Hit>, t: Trace)
    requires mid.buffer == st.buffer + (if ChatEnabled(cfg) then Alerts(hits) else [])
    requires Delivers(cfg, mid, t)
    ensures Delivers(cfg, st, Trace(t.state, hits + t.hits, t.flushed, t.slack, t.mattermost))
  {
    BufferCompose(cfg, st.buffer, mid.buffer, Concat(t.flushed) + t.state.buffer, hits, t.hits);
  }

  lemma ConcatCons(m: String, ms: seq<String>)
    ensures Concat([m] + ms) == m + Concat(ms)
  {
    assert ([m] + ms)[0] == m && ([m] + ms)[1..] == ms;
  }

  /** A flush with nothing pending sends nothing and changes nothing. */
  lemma DeliversAfterIdleFlush(cfg: Config, st: State, t: Trace)
    requires st.buffer == [] && Delivers(cfg, st, t)
    ensures Delivers(cfg, st, Trace(t.state, t.hits, t.flushed, [] + t.slack, [] + t.mattermost))
  {
    assert [] + t.slack == t.slack && [] + t.mattermost == t.mattermost;
  }

  /** A flush of a pending text puts it in front of everything flushed later. */
  lemma DeliversAfterFullFlush(cfg: Config, st: State, t: Trace)
    requires st.buffer != [] && Delivers(cfg, State(st.seen, []), t)
    ensures Delivers(cfg, st, Trace(t.state, t.hits, [st.buffer] + t.flushed,
      (if cfg.slack then [st.buffer] else []) + t.slack,
      (if cfg.mattermost then [st.buffer] else []) + t.mattermost))
  {
    var flushed := [st.buffer] + t.flushed;
    var x := if ChatEnabled(cfg) then Alerts(t.hits) else [];
    assert Concat(t.flushed) + t.state.buffer == x by {
      assert [] + x == x;
    }
    ConcatCons(st.buffer, t.flushed);
    AppendTwice(st.buffer, Concat(flushed), Concat(flushed) + t.state.buffer, Concat(t.flushed), t.state.buffer);
    forall k | 0 <= k < |flushed| ensures flushed[k] != [] {
      if k > 0 {
        assert flushed[k] == t.flushed[k - 1];
      }
    }
  }

  lemma DeliversAfterFlush(cfg: Config, st: State, t: Trace)
    requires Delivers(cfg, Flush(cfg, st).0, t)
    ensures var sent := Flush(cfg, st).1;
      Delivers(cfg, st, Trace(t.state, t.hits,
        if st.buffer != [] then [st.buffer] + t.flushed else t.flushed,
        sent.slack + t.slack, sent.mattermost + t.mattermost))
  {
    if st.buffer == [] {
      assert Flush(cfg, st).0 == st;
      DeliversAfterIdleFlush(cfg, st, t);
    } else {
      DeliversAfterFullFlush(cfg, st, t);
    }
  }

  lemma {:induction false} RunDelivers(cfg: Config, scan: String -> String, st: State, ticks: seq<Tick>)
    ensures Delivers(cfg, st, Run(cfg, scan, st, ticks))
    decreases |ticks|
  {
    if ticks != [] {
      match ticks[0]
      case Message(ev) =>
        var o := Callback(cfg, scan, st, ev);
        CallbackStep(cfg, scan, st, ev);
        RunDelivers(cfg, scan, o.state, ticks[1..]);
        DeliversAfterMessage(cfg, st, o.state, o.hits, Run(cfg, scan, o.state, ticks[1..]));
      case Timer =>
        RunDelivers(cfg, scan, Flush(cfg, st).0, ticks[1..]);
        DeliversAfterFlush(cfg, st, Run(cfg, scan, Flush(cfg, st).0, ticks[1..]));
    }
  }

  /** Every domain is reported at most once, never one seen before, and
      every reported domain ends up seen. */
  predicate ReportsOnce(st: State, r: Trace) {
    && st.seen <= r.state.seen
    && DistinctDomains(r.hits)
    && forall k :: 0 <= k < |r.hits| ==> r.hits[k].domain !in st.seen && r.hits[k].domain in r.state.seen
  }

  lemma ReportsOnceAfterMessage(st: State, mid: State, hits: seq<Hit>, t: Trace)
    requires st.seen <= mid.seen && DistinctDomains(hits)
    requires forall k :: 0 <= k < |hits| ==> hits[k].domain !in st.seen && hits[k].domain in mid.seen
    requires ReportsOnce(mid, t)
    ensures ReportsOnce(st, Trace(t.state, hits + t.hits, t.flushed, t.slack, t.mattermost))
  {
    var hs := hits + t.hits;
    var n := |hits|;
    forall k | 0 <= k < |hs| ensures hs[k].domain !in st.seen && hs[k].domain in t.state.seen {
      if k >= n {
        assert hs[k] == t.hits[k - n];
      } else {
        assert hs[k] == hits[k];
      }
    }
    DistinctCompose(hits, t.hits, mid.seen);
  }

  /** Over a run, every domain is reported at most once, never one seen
      before the run, and every reported domain ends up seen. */
  lemma {:induction false} RunReportsOnce(cfg: Config, scan: String -> String, st: State, ticks: seq<Tick>)
    ensures ReportsOnce(st, Run(cfg, scan, st, ticks))
    decreases |ticks|
  {
    if ticks != [] {
      match ticks[0]
      case Message(ev) =>
        var o := Callback(cfg, scan, st, ev);
        CallbackStep(cfg, scan, st, ev);
        RunReportsOnce(cfg, scan, o.state, ticks[1..]);
        ReportsOnceAfterMessage(st, o.state, o.hits, Run(cfg, scan, o.state, ticks[1..]));
      case Timer =>
        RunReportsOnce(cfg, scan, Flush(cfg, st).0, ticks[1..]);
    }
  }
}
