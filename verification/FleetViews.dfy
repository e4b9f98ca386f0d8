/** Two more classifiers of the same fleet: controller/internal/query.go and controller/internal/drift.go,
    and their agreement with the planner. */
module FleetViews {
  import opened Prelude
  import opened Capability
  import opened Planner

  // --- queries --------------------------------------------------------------------------------

  datatype StringMatch = StringMatch(equals: string, among: seq<string>, notAmong: seq<string>)

  datatype Where = Where(
    state: Option<StringMatch>, transport: Option<StringMatch>, reachableVia: Option<StringMatch>,
    runningConfigHash: Option<StringMatch>, otaCapable: Option<bool>, otaReachable: Option<bool>,
    silentLongerThan: Option<int>, silentBeyondExpected: Option<bool>, batteryBelowPercent: Option<int32>,
    negated: Option<Where>)

  function StateName(s: State): (n: string) {
    match s
    case Online => "Online"
    case Sleeping => "Sleeping"
    case Unreachable => "Unreachable"
    case Unknown => "Unknown"
    case Unset => ""
  }

  predicate StrMatch(m: StringMatch, v: string) {
    && (m.equals != "" ==> v == m.equals)
    && (m.among != [] ==> v in m.among)
    && (m.notAmong != [] ==> v !in m.notAmong)
  }

  predicate AnyMatch(m: StringMatch, vals: seq<string>) {
    && (forall i :: 0 <= i < |vals| ==> vals[i] !in m.notAmong)
    && ((m.equals == "" && m.among == []) ||
        exists i :: 0 <= i < |vals| && ((m.equals != "" && vals[i] == m.equals) || vals[i] in m.among))
  }

  function Kinds(ts: seq<Transport>): (r: seq<string>) {
    if ts == [] then [] else Kinds(ts[..|ts| - 1]) + [ts[|ts| - 1].kind]
  }

  /** The fields compared as text. */
  predicate TextMatches(p: Where, l: Liveness) {
    var c := l.capability;
    && (p.state.Some? ==> StrMatch(p.state.value, StateName(l.state)))
    && (p.transport.Some? ==> AnyMatch(p.transport.value, if c.Some? then Kinds(c.value.transports) else []))
    && (p.reachableVia.Some? ==> AnyMatch(p.reachableVia.value, if c.Some? then c.value.reachableVia else []))
    && (p.runningConfigHash.Some? ==>
          StrMatch(p.runningConfigHash.value, if c.Some? then c.value.runningConfigHash else ""))
  }

  /** The fields compared as facts: capability, silence and battery. */
  predicate FactsMatch(p: Where, l: Liveness, now: int) {
    var c := l.capability;
    && (p.otaCapable.Some? ==> (c.Some? && AcceptsOTA(c.value, 0)) == p.otaCapable.value)
    && (p.otaReachable.Some? ==>
          (c.Some? && AcceptsOTA(c.value, 0) && ReachableOverOTA(c.value)) == p.otaReachable.value)
    && (p.silentLongerThan.Some? ==> l.lastSeen.Some? && now - l.lastSeen.value >= p.silentLongerThan.value)
    && (p.silentBeyondExpected.Some? ==> l.state.Unreachable? == p.silentBeyondExpected.value)
    && (p.batteryBelowPercent.Some? ==>
          c.Some? && c.value.batteryPercent != 0 && c.value.batteryPercent < p.batteryBelowPercent.value)
  }

  predicate Matches(p: Where, l: Liveness, now: int)
    decreases p
  {
    && (p.negated.Some? ==> !Matches(p.negated.value, l, now))
    && TextMatches(p, l)
    && FactsMatch(p, l, now)
  }

  method StringMatches(m: StringMatch, v: string) returns (ok: bool)
    ensures ok == StrMatch(m, v)
  {
    if m.equals != "" && v != m.equals {
      return false;
    }
    if |m.among| > 0 && v !in m.among {
      return false;
    }
    if |m.notAmong| > 0 && v in m.notAmong {
      return false;
    }
    return true;
  }

  method AnyMatches(m: StringMatch, vals: seq<string>) returns (ok: bool)
    ensures ok == AnyMatch(m, vals)
  {
    if |m.notAmong| > 0 {
      for i := 0 to |vals|
        invariant forall j :: 0 <= j < i ==> vals[j] !in m.notAmong
      {
        if vals[i] in m.notAmong {
          return false;
        }
      }
    }
    if m.equals == "" && |m.among| == 0 {
      return true;
    }
    for i := 0 to |vals|
      invariant forall j :: 0 <= j < i ==> !((m.equals != "" && vals[j] == m.equals) || vals[j] in m.among)
    {
      if m.equals != "" && vals[i] == m.equals {
        return true;
      }
      if |m.among| > 0 && vals[i] in m.among {
        return true;
      }
    }
    return false;
  }

  /** "" when a firmware write could land now, otherwise what stands in the way. */
  function Obstacle(l: Liveness): (reason: string) {
    if l.state.Unreachable? then "unreachable"
    else if l.state.Unknown? then "never reported"
    else if l.state.Sleeping? then "sleeping"
    else if l.capability.None? then "capability unknown"
    else if !AcceptsOTA(l.capability.value, 0) then "no ota-capable transport"
    else if !ReachableOverOTA(l.capability.value) then "ota transport not up"
    else ""
  }

  predicate Actionable(l: Liveness) {
    Obstacle(l) == ""
  }

  function SummaryKey(l: Liveness): (k: string) {
    if Actionable(l) then "actionable" else Obstacle(l)
  }

  datatype QueryResult = QueryResult(device: string, state: string, transport: string, silentFor: string,
                                     runningConfigHash: string, actionable: bool, reason: string)

  datatype QueryStatus = QueryStatus(evaluated: nat, matched: nat, devices: seq<QueryResult>, truncated: bool,
                                     summary: map<string, nat>)

  function ResultOf(l: Liveness): (r: QueryResult) {
    QueryResult(l.name, StateName(l.state), l.transport, l.silentFor,
                if l.capability.Some? then l.capability.value.runningConfigHash else "",
                Actionable(l), Obstacle(l))
  }

  function Selected(filter: Option<Where>, ls: seq<Liveness>, now: int): (r: seq<Liveness>) {
    if ls == [] then [] else
      var l := ls[|ls| - 1];
      Selected(filter, ls[..|ls| - 1], now) +
      if filter.None? || Matches(filter.value, l, now) then [l] else []
  }

  function Results(ls: seq<Liveness>): (r: seq<QueryResult>)
    ensures |r| == |ls|
  {
    if ls == [] then [] else Results(ls[..|ls| - 1]) + [ResultOf(ls[|ls| - 1])]
  }

  function Count(ls: seq<Liveness>, key: string): (n: nat) {
    if ls == [] then 0 else
      Count(ls[..|ls| - 1], key) + if SummaryKey(ls[|ls| - 1]) == key then 1 else 0
  }

  function CountFor(m: map<string, nat>, key: string): (n: nat) {
    if key in m then m[key] else 0
  }

  function LimitOf(limit: int): (n: int)
    ensures n > 0
  {
    if limit <= 0 then 100 else limit
  }

  ghost predicate Answers(st: QueryStatus, picked: seq<Liveness>, limit: int) {
    && st.matched == |picked|
    && st.truncated == (|picked| > LimitOf(limit))
    && st.devices == Results(picked)[..Min(LimitOf(limit), |picked|)]
    && forall key :: CountFor(st.summary, key) == Count(picked, key)
  }

  method AreActionable(l: Liveness) returns (ok: bool, reason: string)
    ensures ok == Actionable(l) && reason == Obstacle(l)
  {
    match l.state {
      case Unreachable => return false, "unreachable";
      case Unknown => return false, "never reported";
      case Sleeping => return false, "sleeping";
      case _ =>
    }
    if l.capability.None? {
      return false, "capability unknown";
    }
    var accepts, _ := CanAcceptOTA(l.capability.value, 0);
    if !accepts {
      return false, "no ota-capable transport";
    }
    var up := OverOTA(l.capability.value);
    if !up {
      return false, "ota transport not up";
    }
    return true, "";
  }

  method MatchText(p: Where, l: Liveness) returns (ok: bool)
    ensures ok == TextMatches(p, l)
  {
    if p.state.Some? {
      ok := StringMatches(p.state.value, StateName(l.state));
      if !ok { return; }
    }
    var c := l.capability;
    if p.transport.Some? {
      ok := AnyMatches(p.transport.value, if c.Some? then Kinds(c.value.transports) else []);
      if !ok { return; }
    }
    if p.reachableVia.Some? {
      ok := AnyMatches(p.reachableVia.value, if c.Some? then c.value.reachableVia else []);
      if !ok { return; }
    }
    if p.runningConfigHash.Some? {
      ok := StringMatches(p.runningConfigHash.value, if c.Some? then c.value.runningConfigHash else "");
      if !ok { return; }
    }
    return true;
  }

  method MatchFacts(p: Where, l: Liveness, now: int) returns (ok: bool)
    ensures ok == FactsMatch(p, l, now)
  {
    var c := l.capability;
    var accepts, up, reason := false, false, None;
    if c.Some? {
      accepts, reason := CanAcceptOTA(c.value, 0);
      up := OverOTA(c.value);
    }
    if p.otaCapable.Some? && accepts != p.otaCapable.value {
      return false;
    }
    if p.otaReachable.Some? && (accepts && up) != p.otaReachable.value {
      return false;
    }
    if p.silentLongerThan.Some? {
      if l.lastSeen.None? || now - l.lastSeen.value < p.silentLongerThan.value {
        return false;
      }
    }
    if p.silentBeyondExpected.Some? && l.state.Unreachable? != p.silentBeyondExpected.value {
      return false;
    }
    if p.batteryBelowPercent.Some? {
      if c.None? || c.value.batteryPercent == 0 || c.value.batteryPercent >= p.batteryBelowPercent.value {
        return false;
      }
    }
    return true;
  }

  /** The predicate as it is evaluated: the negation first, then each given field in turn. */
  method MatchDevice(p: Where, l: Liveness, now: int) returns (ok: bool)
    ensures ok == Matches(p, l, now)
    decreases p
  {
    if p.negated.Some? {
      var excluded := MatchDevice(p.negated.value, l, now);
      if excluded {
        return false;
      }
    }
    ok := MatchText(p, l);
    if ok {
      ok := MatchFacts(p, l, now);
    }
  }

  /** How one matching device enters the status. */
  function Counted(st: QueryStatus, l: Liveness, limit: int): (r: QueryStatus) {
    st.(matched := st.matched + 1,
        summary := st.summary[SummaryKey(l) := CountFor(st.summary, SummaryKey(l)) + 1],
        devices := if |st.devices| < LimitOf(limit) then st.devices + [ResultOf(l)] else st.devices,
        truncated := st.truncated || |st.devices| >= LimitOf(limit))
  }

  lemma ListedOneMore(st: QueryStatus, picked: seq<Liveness>, l: Liveness, limit: int)
    requires Answers(st, picked, limit)
    ensures var st', more := Counted(st, l, limit), picked + [l];
            && st'.matched == |more| && st'.truncated == (|more| > LimitOf(limit))
            && st'.devices == Results(more)[..Min(LimitOf(limit), |more|)]
  {
    assert (picked + [l])[..|picked|] == picked;
    assert Results(picked + [l]) == Results(picked) + [ResultOf(l)];
  }

  lemma SummedOneMore(st: QueryStatus, picked: seq<Liveness>, l: Liveness, limit: int, key: string)
    requires CountFor(st.summary, key) == Count(picked, key)
    ensures CountFor(Counted(st, l, limit).summary, key) == Count(picked + [l], key)
  {
    assert (picked + [l])[..|picked|] == picked;
  }

  /** One more matching device leaves the status an exact answer. */
  lemma AnswersOneMore(st: QueryStatus, picked: seq<Liveness>, l: Liveness, limit: int)
    requires Answers(st, picked, limit)
    ensures Answers(Counted(st, l, limit), picked + [l], limit)
  {
    ListedOneMore(st, picked, l, limit);
    forall key
      ensures CountFor(Counted(st, l, limit).summary, key) == Count(picked + [l], key)
    {
      SummedOneMore(st, picked, l, limit, key);
    }
  }

  method CountDevice(was: QueryStatus, l: Liveness, limit: int) returns (st: QueryStatus)
    ensures st == Counted(was, l, limit)
  {
    st := was.(matched := was.matched + 1);
    var ok, reason := AreActionable(l);
    var r := QueryResult(l.name, StateName(l.state), l.transport, l.silentFor,
                         if l.capability.Some? then l.capability.value.runningConfigHash else "", ok, reason);
    var key := reason;
    if ok {
      key := "actionable";
    }
    st := st.(summary := st.summary[key := CountFor(st.summary, key) + 1]);
    if |st.devices| < LimitOf(limit) {
      st := st.(devices := st.devices + [r]);
    } else {
      st := st.(truncated := true);
    }
  }

  method EvaluateQuery(filter: Option<Where>, limit: int, ls: seq<Liveness>, now: int) returns (st: QueryStatus)
    ensures st.evaluated == |ls|
    ensures Answers(st, Selected(filter, ls, now), limit)
  {
    st := QueryStatus(|ls|, 0, [], false, map[]);
    for i := 0 to |ls|
      invariant st.evaluated == |ls|
      invariant Answers(st, Selected(filter, ls[..i], now), limit)
    {
      assert ls[..i + 1][..i] == ls[..i];
      ghost var picked := Selected(filter, ls[..i], now);
      if filter.Some? {
        var matches := MatchDevice(filter.value, ls[i], now);
        if !matches {
          assert picked + [] == picked;
          continue;
        }
      }
      AnswersOneMore(st, picked, ls[i], limit);
      st := CountDevice(st, ls[i], limit);
    }
    assert ls[..|ls|] == ls;
  }

  /** The summary is a partition of the matches: its seven possible keys account for all of them. */
  lemma {:induction false} SummaryAddsUp(ls: seq<Liveness>)
    ensures |ls| == Count(ls, "actionable") + Count(ls, "unreachable") + Count(ls, "never reported") +
                    Count(ls, "sleeping") + Count(ls, "capability unknown") +
                    Count(ls, "no ota-capable transport") + Count(ls, "ota transport not up")
  {
    if ls != [] {
      SummaryAddsUp(ls[..|ls| - 1]);
      KeysDiffer(SummaryKey(ls[|ls| - 1]));
    }
  }

  lemma KeysDiffer(k: string)
    requires k in {"actionable", "unreachable", "never reported", "sleeping", "capability unknown",
                   "no ota-capable transport", "ota transport not up"}
    ensures var one := (s: string) => if k == s then 1 else 0;
            one("actionable") + one("unreachable") + one("never reported") + one("sleeping") +
            one("capability unknown") + one("no ota-capable transport") + one("ota transport not up") == 1
  {
    assert |"actionable"| == 10 && |"unreachable"| == 11 && |"never reported"| == 14 && |"sleeping"| == 8 &&
           |"capability unknown"| == 18 && |"no ota-capable transport"| == 24 && |"ota transport not up"| == 20;
  }

  function Nothing(): (w: Where) {
    Where(None, None, None, None, None, None, None, None, None, None)
  }

  /** Each criterion alone, on the device's own fields. An unknown battery is not a low one, and a device
      never heard of is not silent for any time. */
  lemma CriteriaMean(l: Liveness, now: int, yes: bool, d: int, n: int32)
    ensures Matches(Nothing().(otaCapable := Some(yes)), l, now) <==>
            (yes <==> l.capability.Some? && exists t :: t in l.capability.value.transports && t.ota)
    ensures Matches(Nothing().(otaReachable := Some(yes)), l, now) <==>
            (yes <==> && l.capability.Some?
                      && (var c := l.capability.value;
                          && (exists t :: t in c.transports && t.ota)
                          && (c.reachableVia == [] ||
                              exists t :: t in c.transports && t.ota && t.kind in c.reachableVia)))
    ensures Matches(Nothing().(silentLongerThan := Some(d)), l, now) <==>
            l.lastSeen.Some? && l.lastSeen.value + d <= now
    ensures Matches(Nothing().(silentBeyondExpected := Some(yes)), l, now) <==> (yes <==> l.state == Unreachable)
    ensures Matches(Nothing().(batteryBelowPercent := Some(n)), l, now) <==>
            l.capability.Some? && l.capability.value.batteryPercent != 0 && l.capability.value.batteryPercent < n
  {
    if l.capability.Some? {
      AcceptsMeansSomeCarrier(l.capability.value, 0);
      ReachableMeansSomeDoor(l.capability.value);
      assert forall t: Transport :: Carries(t, 0) <==> t.ota;
    }
  }

  /** The textual criteria: one name per device for its state and hash, several for its transports. */
  lemma TextCriteriaMean(l: Liveness, now: int, m: StringMatch)
    ensures Matches(Nothing().(state := Some(m)), l, now) <==> StrMatch(m, StateName(l.state))
    ensures Matches(Nothing().(runningConfigHash := Some(m)), l, now) <==>
            StrMatch(m, if l.capability.Some? then l.capability.value.runningConfigHash else "")
    ensures Matches(Nothing().(reachableVia := Some(m)), l, now) <==>
            AnyMatch(m, if l.capability.Some? then l.capability.value.reachableVia else [])
    ensures Matches(Nothing().(transport := Some(m)), l, now) <==>
            AnyMatch(m, if l.capability.Some? then Kinds(l.capability.value.transports) else [])
    ensures l.capability.Some? ==>
              forall k :: k in Kinds(l.capability.value.transports) <==>
                          exists t :: t in l.capability.value.transports && t.kind == k
  {
    if l.capability.Some? {
      KindsMean(l.capability.value.transports);
    }
  }

  lemma {:induction false} KindsMean(ts: seq<Transport>)
    ensures forall k :: k in Kinds(ts) <==> exists t :: t in ts && t.kind == k
  {
    if ts != [] {
      var init, t := ts[..|ts| - 1], ts[|ts| - 1];
      assert ts == init + [t];
      KindsMean(init);
      assert forall u :: u in ts <==> u in init || u == t;
    }
  }

  function Equals(v: string): (m: StringMatch) {
    StringMatch(v, [], [])
  }

  /** The operators one by one: equal to, one of, none of. On several values, some value must be wanted and
      none excluded, so that "none of" is not met by a device that also has something else. */
  lemma OperatorsMean(v: string, vs: seq<string>, x: string, xs: seq<string>)
    requires x != "" && xs != []
    ensures StrMatch(Equals(x), v) <==> v == x
    ensures StrMatch(StringMatch("", xs, []), v) <==> v in xs
    ensures StrMatch(StringMatch("", [], xs), v) <==> v !in xs
    ensures AnyMatch(Equals(x), vs) <==> x in vs
    ensures AnyMatch(StringMatch("", xs, []), vs) <==> exists w :: w in vs && w in xs
    ensures AnyMatch(StringMatch("", [], xs), vs) <==> forall w :: w in vs ==> w !in xs
    ensures StrMatch(StringMatch(x, xs, xs), v) <==>
            StrMatch(Equals(x), v) && StrMatch(StringMatch("", xs, []), v) && StrMatch(StringMatch("", [], xs), v)
    ensures AnyMatch(StringMatch(x, xs, xs), vs) <==>
            && (AnyMatch(Equals(x), vs) || AnyMatch(StringMatch("", xs, []), vs))
            && AnyMatch(StringMatch("", [], xs), vs)
  {
    if w :| w in vs && w in xs {
      var i :| 0 <= i < |vs| && vs[i] == w;
      assert vs[i] in xs;
    }
    if x in vs {
      var i :| 0 <= i < |vs| && vs[i] == x;
    }
  }

  /** A filter on a state's name finds the devices in that state. */
  lemma StateFilter(l: Liveness, now: int)
    ensures Matches(Nothing().(state := Some(Equals("Online"))), l, now) <==> l.state.Online?
    ensures Matches(Nothing().(state := Some(Equals("Sleeping"))), l, now) <==> l.state.Sleeping?
    ensures Matches(Nothing().(state := Some(Equals("Unreachable"))), l, now) <==> l.state.Unreachable?
    ensures Matches(Nothing().(state := Some(Equals("Unknown"))), l, now) <==> l.state.Unknown?
    ensures StateName(l.state) == "" <==> l.state.Unset?
  {
    assert |"Online"| == 6 && |"Sleeping"| == 8 && |"Unreachable"| == 11 && |"Unknown"| == 7;
  }

  /** What is said to stand in the way, on the device's fields: its state first, then whether anything is
      known of it, then what it has, then what is up. */
  lemma ObstacleMeans(l: Liveness)
    ensures var awake := !l.state.Unreachable? && !l.state.Unknown? && !l.state.Sleeping?;
            var flashable := l.capability.Some? && exists t :: t in l.capability.value.transports && t.ota;
            && (Obstacle(l) == "unreachable" <==> l.state.Unreachable?)
            && (Obstacle(l) == "never reported" <==> l.state.Unknown?)
            && (Obstacle(l) == "sleeping" <==> l.state.Sleeping?)
            && (Obstacle(l) == "capability unknown" <==> awake && l.capability.None?)
            && (Obstacle(l) == "no ota-capable transport" <==> awake && l.capability.Some? && !flashable)
            && (Obstacle(l) == "ota transport not up" <==>
                  && awake && flashable && l.capability.value.reachableVia != []
                  && forall t :: t in l.capability.value.transports && t.ota ==>
                       t.kind !in l.capability.value.reachableVia)
  {
    KeysDiffer(SummaryKey(l));
    assert |"actionable"| == 10 && |"unreachable"| == 11 && |"never reported"| == 14 && |"sleeping"| == 8 &&
           |"capability unknown"| == 18 && |"no ota-capable transport"| == 24 && |"ota transport not up"| == 20;
    if l.capability.Some? {
      RefusedForSize(l.capability.value, 0);
      ReachableMeansSomeDoor(l.capability.value);
    }
  }

  /** The rows of an answer are those of the devices picked, in order, up to the limit: a hundred unless one
      is given. */
  lemma RowsShow(st: QueryStatus, picked: seq<Liveness>, limit: int, i: nat)
    requires Answers(st, picked, limit)
    ensures var most := if limit > 0 then limit else 100;
            st.matched == |picked| && (st.truncated <==> |picked| > most) && |st.devices| == Min(most, |picked|)
    ensures i < |st.devices| ==>
              var r, l := st.devices[i], picked[i];
              && r.device == l.name && r.state == StateName(l.state) && r.transport == l.transport
              && r.silentFor == l.silentFor && (r.actionable <==> r.reason == "") && r.reason == Obstacle(l)
              && (l.capability.Some? ==> r.runningConfigHash == l.capability.value.runningConfigHash)
              && (l.capability.None? ==> r.runningConfigHash == "")
  {
    if i < |st.devices| {
      ResultsAt(picked, i);
    }
  }

  lemma {:induction false} ResultsAt(ls: seq<Liveness>, i: nat)
    requires i < |ls|
    ensures Results(ls)[i] == ResultOf(ls[i])
  {
    if i < |ls| - 1 {
      ResultsAt(ls[..|ls| - 1], i);
    }
  }

  /** A filter matches exactly when each of its criteria alone does. */
  lemma FilterIsConjunction(p: Where, l: Liveness, now: int)
    ensures Matches(p, l, now) <==>
            && Matches(Nothing().(state := p.state), l, now)
            && Matches(Nothing().(transport := p.transport), l, now)
            && Matches(Nothing().(reachableVia := p.reachableVia), l, now)
            && Matches(Nothing().(runningConfigHash := p.runningConfigHash), l, now)
            && Matches(Nothing().(otaCapable := p.otaCapable), l, now)
            && Matches(Nothing().(otaReachable := p.otaReachable), l, now)
            && Matches(Nothing().(silentLongerThan := p.silentLongerThan), l, now)
            && Matches(Nothing().(silentBeyondExpected := p.silentBeyondExpected), l, now)
            && Matches(Nothing().(batteryBelowPercent := p.batteryBelowPercent), l, now)
            && Matches(Nothing().(negated := p.negated), l, now)
  {
  }

  /** A predicate and its negation split the fleet: every device matches exactly one of them. */
  lemma {:induction false} NegationSplits(p: Where, ls: seq<Liveness>, now: int)
    ensures |Selected(Some(p), ls, now)| + |Selected(Some(Nothing().(negated := Some(p))), ls, now)| == |ls|
  {
    if ls != [] {
      NegationSplits(p, ls[..|ls| - 1], now);
    }
  }

  // --- the planner and the query agree ---------------------------------------------------------

  /** A rollout that asks for nothing but an OTA transport. */
  function BareOTA(now: int): (a: Ask) {
    Ask(Some(Requirements(true, 0, None)), 0, now)
  }

  lemma AdmittedIffActionable(l: Liveness, now: int)
    ensures Judge(BareOTA(now), l).Admit? <==> Actionable(l)
  {
  }

  function ActionableNames(ls: seq<Liveness>): (r: seq<string>) {
    if ls == [] then [] else
      ActionableNames(ls[..|ls| - 1]) + if Actionable(ls[|ls| - 1]) then [ls[|ls| - 1].name] else []
  }

  /** What a bare OTA rollout finds eligible is what an unfiltered query calls actionable, device by
      device and in order. */
  lemma {:induction false} EligibleAreActionable(ls: seq<Liveness>, now: int)
    ensures Eligible(BareOTA(now), ls) == ActionableNames(ls)
  {
    if ls != [] {
      EligibleAreActionable(ls[..|ls| - 1], now);
      AdmittedIffActionable(ls[|ls| - 1], now);
    }
  }

  lemma {:induction false} ActionableAreCounted(ls: seq<Liveness>)
    ensures |ActionableNames(ls)| == Count(ls, "actionable")
  {
    if ls != [] {
      ActionableAreCounted(ls[..|ls| - 1]);
      KeysDiffer(SummaryKey(ls[|ls| - 1]));
    }
  }

  lemma OneMoreSelected(ls: seq<Liveness>, now: int)
    requires ls != []
    ensures Selected(None, ls, now) == Selected(None, ls[..|ls| - 1], now) + [ls[|ls| - 1]]
  {
  }

  lemma {:induction false} UnfilteredSelectsAll(ls: seq<Liveness>, now: int)
    ensures Selected(None, ls, now) == ls
  {
    if ls != [] {
      var init, l := ls[..|ls| - 1], ls[|ls| - 1];
      UnfilteredSelectsAll(init, now);
      OneMoreSelected(ls, now);
      assert ls == init + [l];
    }
  }

  lemma CountIsExact(st: QueryStatus, picked: seq<Liveness>, limit: int, key: string)
    requires Answers(st, picked, limit)
    ensures CountFor(st.summary, key) == Count(picked, key)
  {
  }

  /** The headline number of any exact answer counts the actionable devices among those it picked; an
      unfiltered query picks them all. */
  lemma {:induction false} HeadlineCount(st: QueryStatus, picked: seq<Liveness>, limit: int)
    requires Answers(st, picked, limit)
    ensures CountFor(st.summary, "actionable") == |ActionableNames(picked)|
  {
    ActionableAreCounted(picked);
    CountIsExact(st, picked, limit, "actionable");
  }

  /** End to end: an unfiltered answer's headline number is how many devices a bare OTA rollout would find
      eligible. */
  lemma UnfilteredHeadline(st: QueryStatus, ls: seq<Liveness>, limit: int, now: int)
    requires Answers(st, Selected(None, ls, now), limit)
    ensures CountFor(st.summary, "actionable") == |Eligible(BareOTA(now), ls)|
  {
    UnfilteredSelectsAll(ls, now);
    HeadlineCount(st, ls, limit);
    EligibleAreActionable(ls, now);
  }

  // --- drift ------------------------------------------------------------------------------------

  datatype Assessment = DriftStateUnknown | NotRemediable | AwaitingWindow | DriftedSleeping | DriftedAndReachable

  datatype DriftedDevice = DriftedDevice(device: string, expected: string, actual: string, remediable: bool,
                                         assessment: Assessment)

  datatype DriftSpec = DriftSpec(want: string, gracePeriod: Option<int>, ignoreSleeping: bool)

  datatype DriftStatus = DriftStatus(converged: nat, drifted: nat, unknown: nat, devices: seq<DriftedDevice>,
                                     oldest: int)

  predicate InGrace(spec: DriftSpec, expectSetAt: Option<int>, now: int) {
    spec.gracePeriod.Some? && expectSetAt.Some? && now - expectSetAt.value < spec.gracePeriod.value
  }

  predicate KnowsHash(l: Liveness) {
    l.capability.Some? && l.capability.value.runningConfigHash != ""
  }

  predicate Drifted(spec: DriftSpec, grace: bool, l: Liveness) {
    && KnowsHash(l)
    && spec.want != "" && l.capability.value.runningConfigHash != spec.want
    && !grace && !(spec.ignoreSleeping && l.state.Sleeping?)
  }

  function AssessmentOf(l: Liveness): (a: Assessment)
    requires l.capability.Some?
  {
    if !AcceptsOTA(l.capability.value, 0) then NotRemediable
    else if !ReachableOverOTA(l.capability.value) then AwaitingWindow
    else if l.state.Sleeping? || l.state.Unreachable? then DriftedSleeping
    else DriftedAndReachable
  }

  function Age(l: Liveness, now: int): (a: int) {
    if l.lastSeen.Some? then now - l.lastSeen.value else 0
  }

  /** How one device enters the drift report. */
  function Report(spec: DriftSpec, grace: bool, now: int, st: DriftStatus, l: Liveness): (r: DriftStatus) {
    if !KnowsHash(l) then
      st.(unknown := st.unknown + 1,
          devices := st.devices + [DriftedDevice(l.name, "", "", false, DriftStateUnknown)])
    else if !Drifted(spec, grace, l) then st.(converged := st.converged + 1)
    else
      var c := l.capability.value;
      st.(drifted := st.drifted + 1, oldest := Max(st.oldest, Age(l, now)),
          devices := st.devices + [DriftedDevice(l.name, spec.want, c.runningConfigHash,
                                                 AcceptsOTA(c, 0) && ReachableOverOTA(c), AssessmentOf(l))])
  }

  function DriftOf(spec: DriftSpec, grace: bool, now: int, ls: seq<Liveness>): (st: DriftStatus) {
    if ls == [] then DriftStatus(0, 0, 0, [], 0)
    else Report(spec, grace, now, DriftOf(spec, grace, now, ls[..|ls| - 1]), ls[|ls| - 1])
  }

  method AssessDriftSince(spec: DriftSpec, ls: seq<Liveness>, expectSetAt: Option<int>, now: int)
    returns (st: DriftStatus)
    ensures st == DriftOf(spec, InGrace(spec, expectSetAt, now), now, ls)
  {
    st := DriftStatus(0, 0, 0, [], 0);
    var inGrace := false;
    if spec.gracePeriod.Some? && expectSetAt.Some? {
      inGrace := now - expectSetAt.value < spec.gracePeriod.value;
    }
    for i := 0 to |ls|
      invariant st == DriftOf(spec, inGrace, now, ls[..i])
    {
      var l := ls[i];
      assert ls[..i + 1][..i] == ls[..i];
      if l.capability.None? || l.capability.value.runningConfigHash == "" {
        st := st.(unknown := st.unknown + 1,
                  devices := st.devices + [DriftedDevice(l.name, "", "", false, DriftStateUnknown)]);
        continue;
      }
      var c := l.capability.value;
      if spec.want == "" || c.runningConfigHash == spec.want {
        st := st.(converged := st.converged + 1);
        continue;
      }
      var age := 0;
      if l.lastSeen.Some? {
        age := now - l.lastSeen.value;
      }
      if inGrace {
        st := st.(converged := st.converged + 1);
        continue;
      }
      if spec.ignoreSleeping && l.state.Sleeping? {
        st := st.(converged := st.converged + 1);
        continue;
      }
      var ok, _ := CanAcceptOTA(c, 0);
      var up := OverOTA(c);
      var assessment;
      if !ok {
        assessment := NotRemediable;
      } else if !up {
        assessment := AwaitingWindow;
      } else if l.state.Sleeping? || l.state.Unreachable? {
        assessment := DriftedSleeping;
      } else {
        assessment := DriftedAndReachable;
      }
      if age > st.oldest {
        st := st.(oldest := age);
      }
      st := st.(drifted := st.drifted + 1,
                devices := st.devices + [DriftedDevice(l.name, spec.want, c.runningConfigHash, ok && up, assessment)]);
    }
    assert ls[..|ls|] == ls;
  }

  /** Every device is converged, drifted or unknown; only the last two are listed. */
  lemma {:induction false} DriftCounts(spec: DriftSpec, grace: bool, now: int, ls: seq<Liveness>)
    ensures var st := DriftOf(spec, grace, now, ls);
            && st.converged + st.drifted + st.unknown == |ls|
            && |st.devices| == st.drifted + st.unknown
            && (forall i :: 0 <= i < |st.devices| ==>
                  (st.devices[i].assessment.DriftedAndReachable? ==> st.devices[i].remediable))
  {
    if ls != [] {
      DriftCounts(spec, grace, now, ls[..|ls| - 1]);
    }
  }

  /** A device that knowably runs something else than wanted, at least a grace period after the expectation
      was set, and is not a sleeper to be ignored. */
  ghost predicate Strays(spec: DriftSpec, expectSetAt: Option<int>, now: int, l: Liveness) {
    && l.capability.Some? && l.capability.value.runningConfigHash !in {"", spec.want} && spec.want != ""
    && (spec.gracePeriod.Some? && expectSetAt.Some? ==> expectSetAt.value + spec.gracePeriod.value <= now)
    && (spec.ignoreSleeping ==> !l.state.Sleeping?)
  }

  ghost function CountStrays(spec: DriftSpec, expectSetAt: Option<int>, now: int, ls: seq<Liveness>): (n: nat) {
    if ls == [] then 0 else
      CountStrays(spec, expectSetAt, now, ls[..|ls| - 1]) +
      if Strays(spec, expectSetAt, now, ls[|ls| - 1]) then 1 else 0
  }

  /** A device that does not say what it runs. */
  predicate Mute(l: Liveness) {
    l.capability.None? || l.capability.value.runningConfigHash == ""
  }

  function CountMute(ls: seq<Liveness>): (n: nat) {
    if ls == [] then 0 else CountMute(ls[..|ls| - 1]) + if Mute(ls[|ls| - 1]) then 1 else 0
  }

  lemma StraysIsDrifted(spec: DriftSpec, expectSetAt: Option<int>, now: int, l: Liveness)
    ensures Drifted(spec, InGrace(spec, expectSetAt, now), l) <==> Strays(spec, expectSetAt, now, l)
  {
  }

  /** The three counts: devices that stray, that do not say what they run, and the rest. */
  lemma {:induction false} DriftIsCounted(spec: DriftSpec, expectSetAt: Option<int>, now: int, ls: seq<Liveness>)
    ensures var st := DriftOf(spec, InGrace(spec, expectSetAt, now), now, ls);
            st.drifted == CountStrays(spec, expectSetAt, now, ls) && st.unknown == CountMute(ls)
  {
    if ls != [] {
      DriftIsCounted(spec, expectSetAt, now, ls[..|ls| - 1]);
      StraysIsDrifted(spec, expectSetAt, now, ls[|ls| - 1]);
    }
  }

  predicate Runs(l: Liveness, hash: string) {
    l.capability.Some? && l.capability.value.runningConfigHash == hash
  }

  /** A fleet that all runs what is wanted has not drifted. */
  lemma {:induction false} ConvergedFleet(spec: DriftSpec, grace: bool, now: int, ls: seq<Liveness>)
    requires spec.want != "" && forall i :: 0 <= i < |ls| ==> Runs(ls[i], spec.want)
    ensures DriftOf(spec, grace, now, ls) == DriftStatus(|ls|, 0, 0, [], 0)
  {
    if ls != [] {
      var init := ls[..|ls| - 1];
      assert forall i :: 0 <= i < |init| ==> init[i] == ls[i];
      ConvergedFleet(spec, grace, now, init);
    }
  }

  /** The row of a device that strays: both hashes, and what stands between it and a correction. */
  ghost predicate RowOf(spec: DriftSpec, l: Liveness, e: DriftedDevice) {
    && l.capability.Some? && e.device == l.name
    && e.expected == spec.want && e.actual == l.capability.value.runningConfigHash && e.expected != e.actual
    && var c := l.capability.value;
       var flashable := exists t :: t in c.transports && t.ota;
       var doorOpen := c.reachableVia == [] || exists t :: t in c.transports && t.ota && t.kind in c.reachableVia;
    && (e.remediable <==> flashable && doorOpen)
    && (e.assessment.NotRemediable? <==> !flashable)
    && (e.assessment.AwaitingWindow? <==> flashable && !doorOpen)
    && (e.assessment.DriftedSleeping? <==> flashable && doorOpen && (l.state.Sleeping? || l.state.Unreachable?))
    && (e.assessment.DriftedAndReachable? <==>
          flashable && doorOpen && !l.state.Sleeping? && !l.state.Unreachable?)
  }

  function RowFor(spec: DriftSpec, l: Liveness): (e: DriftedDevice)
    requires l.capability.Some?
  {
    var c := l.capability.value;
    DriftedDevice(l.name, spec.want, c.runningConfigHash, AcceptsOTA(c, 0) && ReachableOverOTA(c), AssessmentOf(l))
  }

  lemma RowMeans(spec: DriftSpec, expectSetAt: Option<int>, now: int, l: Liveness)
    requires Strays(spec, expectSetAt, now, l)
    ensures RowOf(spec, l, RowFor(spec, l))
  {
    var c := l.capability.value;
    AcceptsMeansSomeCarrier(c, 0);
    ReachableMeansSomeDoor(c);
    assert forall t: Transport :: Carries(t, 0) <==> t.ota;
  }

  function MuteRow(l: Liveness): (e: DriftedDevice) {
    DriftedDevice(l.name, "", "", false, DriftStateUnknown)
  }

  /** What one device adds to the report. */
  lemma OneMoreRow(spec: DriftSpec, expectSetAt: Option<int>, now: int, st: DriftStatus, l: Liveness)
    ensures var r := Report(spec, InGrace(spec, expectSetAt, now), now, st, l);
            if Strays(spec, expectSetAt, now, l) then
              r.devices == st.devices + [RowFor(spec, l)] && r.oldest == Max(st.oldest, Age(l, now))
            else
              && r.oldest == st.oldest
              && r.devices == if Mute(l) then st.devices + [MuteRow(l)] else st.devices
  {
    StraysIsDrifted(spec, expectSetAt, now, l);
  }

  /** The rows are exactly those of the devices that stray, and blank ones for the mute. */
  lemma {:induction false} DriftIsListed(spec: DriftSpec, expectSetAt: Option<int>, now: int, ls: seq<Liveness>,
                                         e: DriftedDevice)
    ensures e in DriftOf(spec, InGrace(spec, expectSetAt, now), now, ls).devices <==>
            || (exists l :: l in ls && Strays(spec, expectSetAt, now, l) && e == RowFor(spec, l))
            || (exists l :: l in ls && Mute(l) && e == MuteRow(l))
  {
    if ls != [] {
      var init, l := ls[..|ls| - 1], ls[|ls| - 1];
      DriftIsListed(spec, expectSetAt, now, init, e);
      OneMoreRow(spec, expectSetAt, now, DriftOf(spec, InGrace(spec, expectSetAt, now), now, init), l);
      assert ls == init + [l];
      assert forall k :: k in ls <==> k in init || k == l;
    }
  }

  /** The oldest drift is the largest time since a straying device was heard, zero if none is positive. */
  lemma {:induction false} OldestDrift(spec: DriftSpec, expectSetAt: Option<int>, now: int, ls: seq<Liveness>)
    ensures var oldest := DriftOf(spec, InGrace(spec, expectSetAt, now), now, ls).oldest;
            && oldest >= 0
            && (oldest > 0 ==> exists i :: && 0 <= i < |ls| && Strays(spec, expectSetAt, now, ls[i])
                                           && ls[i].lastSeen == Some(now - oldest))
            && (forall i :: 0 <= i < |ls| && Strays(spec, expectSetAt, now, ls[i]) && ls[i].lastSeen.Some? ==>
                  now - ls[i].lastSeen.value <= oldest)
  {
    if ls != [] {
      var init, l := ls[..|ls| - 1], ls[|ls| - 1];
      OldestDrift(spec, expectSetAt, now, init);
      OneMoreRow(spec, expectSetAt, now, DriftOf(spec, InGrace(spec, expectSetAt, now), now, init), l);
      assert forall i :: 0 <= i < |init| ==> init[i] == ls[i];
    }
  }

  /** Among drifted devices "drifted and reachable" means "a write could land now", with one exception:
      a capable device that has never reported is called reachable by the drift report alone. */
  lemma DriftAgreesWithQuery(spec: DriftSpec, grace: bool, l: Liveness)
    requires Drifted(spec, grace, l)
    ensures (AssessmentOf(l).DriftedAndReachable? <==> Actionable(l))
            <==> !(l.state.Unknown? && AcceptsOTA(l.capability.value, 0) && ReachableOverOTA(l.capability.value))
  {
  }
}
