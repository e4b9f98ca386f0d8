/** The per-window device limit over time: the counter in controller/internal/compose.go, spent by
    the dispatch loop of controller/internal/rollout_controller.go. */
module BudgetRuns {
  import opened Prelude
  import opened Planner
  import opened Schedule
  import opened RolloutApi
  import opened Compose
  import opened Rollout
  import opened RolloutRuns

  lemma ProceedSpends(spec: RolloutSpec, s: Status, t: Tick, E: seq<string>, windowBudget: int)
    ensures var r := Proceed(spec, s, t, E, windowBudget);
            && r.status.dispatchedThisWindow == s.dispatchedThisWindow + |r.dispatched|
            && r.status.windowOpenedAt == s.windowOpenedAt
            && (windowBudget >= 0 ==> |r.dispatched| <= windowBudget)
  {
    var updated := UpdatedOf(spec, t, E);
    var allowed := CurrentStep(spec, |E|, |HealthyOf(spec, t, E)|).1;
    PicksAreNear(E, SetOf(updated), BudgetFor(spec, allowed, |updated|, windowBudget));
  }

  /** One reconcile under a limit of M: either nothing is written and the counter and its opening time
      stand, or the writes are counted, on top of a counter that restarts only more than an hour after
      it last did; and the counter stays within M. */
  lemma ReconcileSpends(spec: RolloutSpec, s: Status, t: Tick, plan: Plan, d: Decision, M: int)
    returns (reset: bool)
    requires 0 <= s.dispatchedThisWindow <= M && 0 < M
    requires d.open ==> d.maxDevices == M
    ensures var r := Steer(spec, s, t, plan, d);
            && r.status.dispatchedThisWindow ==
               (if reset then 0 else s.dispatchedThisWindow) + |r.dispatched|
            && r.status.windowOpenedAt == (if reset then Some(t.now) else s.windowOpenedAt)
            && r.status.dispatchedThisWindow <= M
            && (reset && s.windowOpenedAt.Some? ==> t.now - s.windowOpenedAt.value > HOUR)
  {
    var planned := Planned(s, t, plan);
    reset := !Terminal(s) && !spec.paused && d.open && Resets(planned, d, t.now);
    var a := Apply(planned, d, t.now);
    if !Terminal(s) && !spec.paused && a.proceed {
      ProceedSpends(spec, a.status, t, plan.eligible, a.budget);
    }
  }

  /** A reconcile restarts the counter when it records a new opening time; it does so exactly when it gets
      to an open decision and the reset test holds. */
  lemma RestartIsReset(spec: RolloutSpec, s: Status, t: Tick, plan: Plan, d: Decision)
    ensures Steer(spec, s, t, plan, d).status.windowOpenedAt != s.windowOpenedAt <==>
            !Terminal(s) && !spec.paused && d.open && Resets(s, d, t.now)
  {
    var a := Apply(Planned(s, t, plan), d, t.now);
    if !Terminal(s) && !spec.paused && a.proceed {
      ProceedSpends(spec, a.status, t, plan.eligible, a.budget);
    }
  }

  // --- the counter over time ------------------------------------------------------------------------

  /** One reconcile as the counter sees it: when it ran, what it wrote, and the counter and opening time
      it left behind. */
  datatype Beat = Beat(now: int, sent: nat, counter: int, since: Option<int>)

  /** Counting on, or restarting more than an hour after the last restart; never past the limit. */
  ghost predicate Follows(counter: int, since: Option<int>, b: Beat, M: int) {
    && 0 <= b.counter <= M
    && if b.since == since then b.counter == counter + b.sent
       else b.since == Some(b.now) && b.counter == b.sent && (since.Some? ==> b.now - since.value > HOUR)
  }

  function Counter(s: Beat, bs: seq<Beat>): (b: Beat) {
    if bs == [] then s else bs[|bs| - 1]
  }

  /** A run of the counter from `s`, on a clock that does not run backwards. */
  ghost predicate Beats(s: Beat, bs: seq<Beat>, M: int) {
    bs != [] ==>
      var init, b := bs[..|bs| - 1], bs[|bs| - 1];
      && Beats(s, init, M) && Counter(s, init).now <= b.now
      && Follows(Counter(s, init).counter, Counter(s, init).since, b, M)
  }

  /** Devices written at or after instant `a`. */
  function SentIn(bs: seq<Beat>, a: int): (n: nat) {
    if bs == [] then 0 else
      SentIn(bs[..|bs| - 1], a) + if bs[|bs| - 1].now >= a then bs[|bs| - 1].sent else 0
  }

  /** Restarts of the counter at or after instant `a`. */
  function RestartsIn(s: Beat, bs: seq<Beat>, a: int): (k: nat) {
    if bs == [] then 0 else
      var init, b := bs[..|bs| - 1], bs[|bs| - 1];
      RestartsIn(s, init, a) + if b.now >= a && b.since != Counter(s, init).since then 1 else 0
  }

  /** What `k` restarts since `a` allow: `sent` writes, given the counter and when it was opened. */
  ghost predicate Spent(k: nat, sent: nat, b: Beat, a: int, M: int) {
    && (b.since.Some? ==> b.since.value <= b.now)
    && (b.now < a ==> sent == 0 && k == 0)
    && if k == 0 then sent <= b.counter
       else && b.since.Some? && b.since.value >= a + (k - 1) * HOUR
            && (k >= 2 ==> b.since.value > a + (k - 1) * HOUR)
            && sent <= Times(k, M) + b.counter
  }

  lemma {:induction false} CounterSpends(s: Beat, bs: seq<Beat>, a: int, M: int)
    requires 0 <= s.counter <= M && (s.since.Some? ==> s.since.value <= s.now) && Beats(s, bs, M)
    ensures 0 <= Counter(s, bs).counter <= M
    ensures Spent(RestartsIn(s, bs, a), SentIn(bs, a), Counter(s, bs), a, M)
  {
    if bs != [] {
      CounterSpends(s, bs[..|bs| - 1], a, M);
    }
  }

  /** Each restart is worth one more limit: while the counter does not restart, the limit holds. */
  lemma CounterPerRestart(s: Beat, bs: seq<Beat>, a: int, M: int)
    requires 0 <= s.counter <= M && (s.since.Some? ==> s.since.value <= s.now) && Beats(s, bs, M)
    ensures SentIn(bs, a) <= RestartsIn(s, bs, a) * M + M
  {
    CounterSpends(s, bs, a, M);
    TimesIsProduct(RestartsIn(s, bs, a), M);
  }

  lemma CounterHours(s: Beat, bs: seq<Beat>, a: int, M: int, H: nat)
    requires 0 <= s.counter <= M && (s.since.Some? ==> s.since.value <= s.now) && Beats(s, bs, M)
    requires 1 <= H && bs != [] && Counter(s, bs).now <= a + H * HOUR
    ensures SentIn(bs, a) <= (H + 1) * M
  {
    CounterSpends(s, bs, a, M);
    CounterPerRestart(s, bs, a, M);
    RestartsFit(RestartsIn(s, bs, a), SentIn(bs, a), Counter(s, bs), a, M, H);
    Product(RestartsIn(s, bs, a), H, M);
  }

  lemma RestartsFit(k: nat, sent: nat, b: Beat, a: int, M: int, H: nat)
    requires Spent(k, sent, b, a, M) && 1 <= H && b.now <= a + H * HOUR
    ensures k <= H
  {
  }

  lemma Product(k: nat, H: nat, M: int)
    requires k <= H && 0 <= M
    ensures k * M + M <= (H + 1) * M
  {
    assert (H - k) * M >= 0;
  }

  // --- the counter of a rollout -----------------------------------------------------------------------

  function BeatOf(spec: RolloutSpec, v: World, t: Tick): (b: Beat) {
    var r := ReconcileAt(spec, v, t);
    Beat(t.now, |r.dispatched|, r.status.dispatchedThisWindow, r.status.windowOpenedAt)
  }

  function Trace(spec: RolloutSpec, w: World, ts: seq<Tick>): (bs: seq<Beat>)
    ensures |bs| == |ts|
  {
    if ts == [] then [] else
      Trace(spec, w, ts[..|ts| - 1]) + [BeatOf(spec, Run(spec, w, ts[..|ts| - 1]), ts[|ts| - 1])]
  }

  /** Devices a run wrote at or after instant `a`. */
  function SentSince(spec: RolloutSpec, w: World, ts: seq<Tick>, a: int): (n: nat) {
    SentIn(Trace(spec, w, ts), a)
  }

  function RestartsSince(spec: RolloutSpec, w: World, ts: seq<Tick>, from: int, a: int): (k: nat) {
    RestartsIn(Opened(w.status, from), Trace(spec, w, ts), a)
  }

  /** A clock that does not run backwards, statuses that are stored, and one limit throughout. */
  ghost predicate Metered(ts: seq<Tick>, from: int, M: int) {
    && (forall i :: 0 <= i < |ts| ==> from <= ts[i].now && !ts[i].lost)
    && (forall i, j :: 0 <= i <= j < |ts| ==> ts[i].now <= ts[j].now)
    && (forall i :: 0 <= i < |ts| ==> (DecisionFor(ts[i]).open ==> DecisionFor(ts[i]).maxDevices == M))
  }

  ghost predicate Fresh(s: Status, from: int, M: int) {
    0 <= s.dispatchedThisWindow <= M && (s.windowOpenedAt.Some? ==> s.windowOpenedAt.value <= from)
  }

  /** The counter as a status holds it. */
  function Opened(s: Status, now: int): (b: Beat) {
    Beat(now, 0, s.dispatchedThisWindow, s.windowOpenedAt)
  }

  lemma BeatFollows(spec: RolloutSpec, v: World, t: Tick, M: int)
    requires 0 <= v.status.dispatchedThisWindow <= M && 0 < M
    requires DecisionFor(t).open ==> DecisionFor(t).maxDevices == M
    ensures Follows(v.status.dispatchedThisWindow, v.status.windowOpenedAt, BeatOf(spec, v, t), M)
  {
    var reset := ReconcileSpends(spec, v.status, t, PlanFor(spec, t), DecisionFor(t), M);
  }

  lemma MeteredLast(ts: seq<Tick>, from: int, M: int)
    requires ts != [] && Metered(ts, from, M)
    ensures var init, t := ts[..|ts| - 1], ts[|ts| - 1];
            && Metered(init, from, M) && !t.lost && from <= t.now && (init != [] ==> init[|init| - 1].now <= t.now)
            && (DecisionFor(t).open ==> DecisionFor(t).maxDevices == M)
  {
  }

  lemma StoredBeat(spec: RolloutSpec, v: World, t: Tick)
    requires !t.lost
    ensures var s, b := Next(spec, v, t).status, BeatOf(spec, v, t);
            s.dispatchedThisWindow == b.counter && s.windowOpenedAt == b.since
  {
  }

  /** The trace of a run is a run of the counter, and ends with the counter the status holds. */
  lemma {:induction false} TraceBeats(spec: RolloutSpec, w: World, ts: seq<Tick>, from: int, M: int)
    requires 0 < M && Fresh(w.status, from, M) && Metered(ts, from, M)
    ensures Beats(Opened(w.status, from), Trace(spec, w, ts), M)
    ensures var b, s := Counter(Opened(w.status, from), Trace(spec, w, ts)), Run(spec, w, ts).status;
            && b.counter == s.dispatchedThisWindow && b.since == s.windowOpenedAt && 0 <= b.counter <= M
            && b.now == if ts == [] then from else ts[|ts| - 1].now
  {
    if ts != [] {
      var init, t := ts[..|ts| - 1], ts[|ts| - 1];
      MeteredLast(ts, from, M);
      TraceBeats(spec, w, init, from, M);
      BeatFollows(spec, Run(spec, w, init), t, M);
      StoredBeat(spec, Run(spec, w, init), t);
      assert Trace(spec, w, ts)[..|init|] == Trace(spec, w, init);
    }
  }

  /** Each restart is worth one more limit: while the counter does not restart, the limit M holds. */
  lemma SentPerRestart(spec: RolloutSpec, w: World, ts: seq<Tick>, from: int, M: int, a: int)
    requires 0 < M && Fresh(w.status, from, M) && Metered(ts, from, M)
    ensures SentSince(spec, w, ts, a) <= RestartsSince(spec, w, ts, from, a) * M + M
  {
    TraceBeats(spec, w, ts, from, M);
    CounterPerRestart(Opened(w.status, from), Trace(spec, w, ts), a, M);
  }

  /** With stored statuses, a clock that does not run backwards and one limit M, any H consecutive
      hours see at most (H + 1) * M writes, whatever the devices report and whichever windows open. */
  lemma HourlyRadius(spec: RolloutSpec, w: World, ts: seq<Tick>, from: int, M: int, a: int, H: nat)
    requires 0 < M && 1 <= H && Fresh(w.status, from, M) && Metered(ts, from, M)
    requires forall i :: 0 <= i < |ts| ==> ts[i].now <= a + H * HOUR
    ensures SentSince(spec, w, ts, a) <= (H + 1) * M
  {
    if ts != [] {
      TraceBeats(spec, w, ts, from, M);
      CounterHours(Opened(w.status, from), Trace(spec, w, ts), a, M, H);
    }
  }

  // --- what the limit does not do -----------------------------------------------------------------

  /** How many more devices an open decision lets through. */
  function Granted(a: Applied): (n: int) {
    if a.proceed then a.budget else 0
  }

  /** What has been spent is honoured - spent and granted together stay within the limit, or nothing is
      granted - exactly when the counter has been opened, and either no window is named or it was opened
      at most an hour ago. */
  lemma SpentIsHonoured(s: Status, d: Decision, now: int)
    requires d.open && d.maxDevices > 0 && s.dispatchedThisWindow > 0
    ensures var granted := Granted(Apply(s, d, now));
            (granted == 0 || s.dispatchedThisWindow + granted <= d.maxDevices) <==>
            s.windowOpenedAt.Some? && (d.window == "" || now - s.windowOpenedAt.value <= HOUR)
  {
  }

  function WholeFleet(): (spec: RolloutSpec) {
    RolloutSpec(None, 0, "v2", "img", false, 0, [], 0, None, None)
  }

  /** One window, always open, that limits each opening to M devices; nothing reported yet. */
  function LimitTick(now: int, fleet: seq<Liveness>, desired: map<string, string>, M: int, z: Zone): (t: Tick) {
    Tick(now, fleet, [MaintenanceWindow("site", Everything, WindowSpec([], [], z), M)], [], desired,
         map[], map[], map[], {}, false)
  }

  lemma LimitDecision(now: int, fleet: seq<Liveness>, desired: map<string, string>, M: int, z: Zone)
    ensures var d := DecisionFor(LimitTick(now, fleet, desired, M, z));
            d.open && d.window == "site" && d.maxDevices == M
  {
    var ws := LimitTick(now, fleet, desired, M, z).windows;
    var rs := Rulings(ws, [], now);
    assert rs[0] == Rule(ws[0], [], now);
    LimitIsTheLast(rs);
  }

  lemma {:induction false} OnlineIsEligible(a: Ask, fleet: seq<Liveness>)
    requires a.requirements.None? && forall i :: 0 <= i < |fleet| ==> fleet[i].state.Online?
    ensures Eligible(a, fleet) == Names(fleet)
  {
    if fleet != [] {
      OnlineIsEligible(a, fleet[..|fleet| - 1]);
    }
  }

  lemma {:induction false} NothingReported(t: Tick, E: seq<string>)
    requires t.running == map[]
    ensures HealthyOf(WholeFleet(), t, E) == [] && FailedOf(WholeFleet(), t, E) == []
  {
    if E != [] {
      NothingReported(t, E[..|E| - 1]);
    }
  }

  lemma FullPick(E: seq<string>, done: set<string>, M: int)
    requires 0 < M && CountIn(E, done) + M <= |E|
    ensures |NextDevices(E, done, M)| == M
  {
    PicksAreNear(E, done, M);
  }

  /** With M granted and at least M devices left, exactly M are written. */
  lemma FullAdvance(s: Status, t: Tick, E: seq<string>, M: int)
    requires 0 < M && HealthyOf(WholeFleet(), t, E) == [] && t.rejects == {}
    requires |UpdatedOf(WholeFleet(), t, E)| + M <= |E|
    ensures |Advance(WholeFleet(), s, t, E, M).dispatched| == M
  {
    var spec := WholeFleet();
    var done := SetOf(UpdatedOf(spec, t, E));
    StepSizeExact(|E|, 100);
    assert CurrentStep(spec, |E|, 0).1 == |E|;
    UpdatedCounted(spec, t, E);
    FullPick(E, done, M);
    AllAccepted(NextDevices(E, done, M), {});
  }

  lemma FullBatch(s: Status, t: Tick, E: seq<string>, M: int)
    requires 0 < M && t.running == map[] && t.rejects == {} && |UpdatedOf(WholeFleet(), t, E)| + M <= |E|
    ensures var r := Proceed(WholeFleet(), s, t, E, M);
            && |r.dispatched| == M && !Terminal(r.status)
            && r.status.dispatchedThisWindow == s.dispatchedThisWindow + M
            && r.status.windowOpenedAt == s.windowOpenedAt
  {
    NothingReported(t, E);
    ProceedSpends(WholeFleet(), s, t, E, M);
    var s' := ProceedAdvances(WholeFleet(), s, t, E, M);
    FullAdvance(s', t, E, M);
    AdvanceIsLive(WholeFleet(), s', t, E, M);
  }

  lemma FewUpdated(t: Tick, E: seq<string>, written: seq<string>, value: string)
    requires Distinct(E) && value != "" && t.desired == Write(map[], written, value)
    ensures |UpdatedOf(WholeFleet(), t, E)| <= |written|
  {
    forall d | d in E
      ensures d in SetOf(written) <==> Read(t.desired, d) != ""
    {
      WriteMeans(map[], written, value, d);
    }
    CountUpdated(WholeFleet(), t, E, SetOf(written));
    CountIsSmall(E, SetOf(written));
    SetOfIsSmall(written);
  }

  /** The counter was opened over an hour ago, and M devices of the fleet are still to be written. */
  ghost predicate Stale(w: World, now: int, fleet: seq<Liveness>, desired: map<string, string>, M: int, z: Zone) {
    && !Terminal(w.status) && w.status.dispatchedThisWindow >= 0
    && w.status.windowOpenedAt.Some? && w.status.windowOpenedAt.value < now - HOUR
    && (forall i :: 0 <= i < |fleet| ==> fleet[i].state.Online?)
    && |UpdatedOf(WholeFleet(), LimitTick(now, fleet, desired, M, z), Names(fleet))| + M <= |Names(fleet)|
  }

  lemma BatchAt(w: World, now: int, fleet: seq<Liveness>, desired: map<string, string>, M: int, z: Zone)
    requires 0 < M && Stale(w, now, fleet, desired, M, z)
    ensures var t := LimitTick(now, fleet, desired, M, z);
            var r := ReconcileAt(WholeFleet(), w, t);
            && |r.dispatched| == M && !Terminal(r.status) && r.status.dispatchedThisWindow == M
            && (w.status.dispatchedThisWindow == 0 ==> r.status.windowOpenedAt == w.status.windowOpenedAt)
  {
    var spec, t := WholeFleet(), LimitTick(now, fleet, desired, M, z);
    LimitDecision(now, fleet, desired, M, z);
    OnlineIsEligible(AskOf(spec, t), fleet);
    var a := Apply(Planned(w.status, t, PlanFor(spec, t)), DecisionFor(t), now);
    assert a.proceed && a.budget == M && a.status.dispatchedThisWindow == 0;
    FullBatch(a.status, t, Names(fleet), M);
  }

  /** With nothing spent, a batch leaves the old opening time in place. */
  lemma StillStale(w: World, now: int, fleet: seq<Liveness>, M: int, z: Zone)
    requires 0 < M && 2 * M <= |Names(fleet)| && Distinct(Names(fleet)) && w.desired == map[]
    requires Stale(w, now, fleet, map[], M, z) && w.status.dispatchedThisWindow == 0
    ensures var v := Next(WholeFleet(), w, LimitTick(now, fleet, map[], M, z));
            Stale(v, now, fleet, v.desired, M, z)
  {
    var spec, t1 := WholeFleet(), LimitTick(now, fleet, map[], M, z);
    var r := ReconcileAt(spec, w, t1);
    BatchAt(w, now, fleet, map[], M, z);
    var desired := Write(map[], r.dispatched, Payload(spec));
    FewUpdated(LimitTick(now, fleet, desired, M, z), Names(fleet), r.dispatched, Payload(spec));
  }

  /** The limit cannot be M per window: whenever the counter was opened over an hour ago and nothing has
      been spent since, two reconciles at one instant, reading everything the first wrote, write 2M
      devices of any fleet large enough. */
  lemma LimitDoubles(s: Status, fleet: seq<Liveness>, now: int, M: int, z: Zone)
    requires 0 < M && 2 * M <= |fleet| && Distinct(Names(fleet))
    requires forall i :: 0 <= i < |fleet| ==> fleet[i].state.Online?
    requires !Terminal(s) && s.dispatchedThisWindow == 0
    requires s.windowOpenedAt.Some? && s.windowOpenedAt.value < now - HOUR
    ensures var spec, w := WholeFleet(), Start(s, map[]);
            var t1 := LimitTick(now, fleet, map[], M, z);
            var t2 := LimitTick(now, fleet, Next(spec, w, t1).desired, M, z);
            SentSince(spec, w, [t1, t2], now) == 2 * M
  {
    var w := Start(s, map[]);
    NamesLength(fleet);
    FewUpdated(LimitTick(now, fleet, map[], M, z), Names(fleet), [], Payload(WholeFleet()));
    BothBatches(w, now, fleet, M, z);
  }

  lemma BothBatches(w: World, now: int, fleet: seq<Liveness>, M: int, z: Zone)
    requires 0 < M && 2 * M <= |Names(fleet)| && Distinct(Names(fleet)) && w.desired == map[]
    requires Stale(w, now, fleet, map[], M, z) && w.status.dispatchedThisWindow == 0
    ensures var t1 := LimitTick(now, fleet, map[], M, z);
            var t2 := LimitTick(now, fleet, Next(WholeFleet(), w, t1).desired, M, z);
            SentSince(WholeFleet(), w, [t1, t2], now) == 2 * M
  {
    var t1 := LimitTick(now, fleet, map[], M, z);
    BatchAt(w, now, fleet, map[], M, z);
    StillStale(w, now, fleet, M, z);
    SecondBatch(w, Next(WholeFleet(), w, t1), t1, now, fleet, M, z);
  }

  lemma SecondBatch(w: World, v: World, t1: Tick, now: int, fleet: seq<Liveness>, M: int, z: Zone)
    requires v == Next(WholeFleet(), w, t1) && t1.now == now
    requires 0 < M && |ReconcileAt(WholeFleet(), w, t1).dispatched| == M && Stale(v, now, fleet, v.desired, M, z)
    ensures SentSince(WholeFleet(), w, [t1, LimitTick(now, fleet, v.desired, M, z)], now) == 2 * M
  {
    var t2 := LimitTick(now, fleet, v.desired, M, z);
    BatchAt(v, now, fleet, v.desired, M, z);
    TraceTwo(WholeFleet(), w, t1, t2, now);
  }

  lemma TraceTwo(spec: RolloutSpec, w: World, t1: Tick, t2: Tick, a: int)
    requires t1.now >= a && t2.now >= a
    ensures SentSince(spec, w, [t1, t2], a) ==
            |ReconcileAt(spec, w, t1).dispatched| + |ReconcileAt(spec, Next(spec, w, t1), t2).dispatched|
  {
    assert [t1, t2][..1] == [t1] && [t1][..0] == [];
    assert Run(spec, w, [t1]) == Next(spec, w, t1);
    var b1, b2 := BeatOf(spec, w, t1), BeatOf(spec, Next(spec, w, t1), t2);
    assert Trace(spec, w, [t1]) == [b1];
    assert Trace(spec, w, [t1, t2]) == [b1, b2];
    SentInTwo(b1, b2, a);
  }

  lemma SentInTwo(b1: Beat, b2: Beat, a: int)
    requires b1.now >= a && b2.now >= a
    ensures SentIn([b1, b2], a) == b1.sent + b2.sent
  {
    assert [b1, b2][..1] == [b1] && [b1][..0] == [];
    assert SentIn([b1], a) == b1.sent;
  }

  lemma {:induction false} NamesLength(fleet: seq<Liveness>)
    ensures |Names(fleet)| == |fleet|
  {
    if fleet != [] {
      NamesLength(fleet[..|fleet| - 1]);
    }
  }
}
