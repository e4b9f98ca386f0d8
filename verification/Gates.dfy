/** What stops a rollout and what lets it through, read off the fields of one reconcile: the health gate, the
    stop condition, the windows, and how much is written once all of them are passed. */
module Gates {
  import opened Prelude
  import opened Capability
  import opened Planner
  import opened Schedule
  import opened RolloutApi
  import opened Compose
  import opened Rollout
  import opened RolloutRuns

  // --- the health gate ----------------------------------------------------------------------------------

  /** Written, and still not reporting the wanted firmware at an instant past its deadline. */
  ghost predicate Late(spec: RolloutSpec, t: Tick, d: string) {
    && Read(t.desired, d) != "" && Read(t.running, d) != spec.configHash
    && spec.healthGate.Some? && spec.healthGate.value.mustReportWithin.Some? && d in t.dispatchedAt
    && t.dispatchedAt[d] + spec.healthGate.value.mustReportWithin.value < t.now
  }

  /** Written and reporting the wanted firmware, but booted more often than the gate allows. */
  ghost predicate Looping(spec: RolloutSpec, t: Tick, d: string) {
    && Read(t.desired, d) != "" && Read(t.running, d) == spec.configHash
    && spec.healthGate.Some? && spec.rollbackOn.Some? && d in t.boots
    && 0 < spec.rollbackOn.value.bootLoopThreshold < t.boots[d]
  }

  ghost predicate Failing(spec: RolloutSpec, t: Tick, d: string) {
    Late(spec, t, d) || Looping(spec, t, d)
  }

  /** The failed list names exactly the eligible devices that are late or looping, each with its reason. */
  lemma {:induction false} FailedMeans(spec: RolloutSpec, t: Tick, E: seq<string>, o: DeviceOutcome)
    ensures o in FailedOf(spec, t, E) <==>
            o.device in E &&
            ((Late(spec, t, o.device) && o.reason == HealthGateFailed) ||
             (Looping(spec, t, o.device) && o.reason == BootLoopDetected))
  {
    if E != [] {
      assert E == E[..|E| - 1] + [E[|E| - 1]];
      FailedMeans(spec, t, E[..|E| - 1], o);
    }
  }

  /** A device written at `a` that does not report in is not failed up to `a` plus the deadline, whatever
      else is read, and failed at every later instant. */
  lemma DeadlineDecides(spec: RolloutSpec, t: Tick, E: seq<string>, d: string, a: int, deadline: int)
    requires d in E && Read(t.desired, d) != "" && Read(t.running, d) != spec.configHash
    requires spec.healthGate == Some(HealthGate(Some(deadline))) && d in t.dispatchedAt && t.dispatchedAt[d] == a
    ensures t.now <= a + deadline ==> forall o :: o in FailedOf(spec, t, E) ==> o.device != d
    ensures t.now > a + deadline ==> DeviceOutcome(d, HealthGateFailed) in FailedOf(spec, t, E)
  {
    forall o | o in FailedOf(spec, t, E) && o.device == d
      ensures t.now > a + deadline
    {
      FailedMeans(spec, t, E, o);
    }
    FailedMeans(spec, t, E, DeviceOutcome(d, HealthGateFailed));
  }

  /** One that does report in is failed exactly when it booted more often than a positive threshold. */
  lemma BootsDecide(spec: RolloutSpec, t: Tick, E: seq<string>, d: string)
    requires d in E && Read(t.desired, d) != "" && Read(t.running, d) == spec.configHash
    requires spec.healthGate.Some? && spec.rollbackOn.Some?
    ensures var threshold, boots := spec.rollbackOn.value.bootLoopThreshold, if d in t.boots then t.boots[d] else 0;
            if 0 < threshold < boots then DeviceOutcome(d, BootLoopDetected) in FailedOf(spec, t, E)
            else forall o :: o in FailedOf(spec, t, E) ==> o.device != d
  {
    FailedMeans(spec, t, E, DeviceOutcome(d, BootLoopDetected));
    forall o | o in FailedOf(spec, t, E) && o.device == d
      ensures Looping(spec, t, d)
    {
      FailedMeans(spec, t, E, o);
    }
  }

  ghost function CountFailing(spec: RolloutSpec, t: Tick, E: seq<string>): (n: nat) {
    if E == [] then 0 else CountFailing(spec, t, E[..|E| - 1]) + if Failing(spec, t, E[|E| - 1]) then 1 else 0
  }

  lemma {:induction false} FailingIsCounted(spec: RolloutSpec, t: Tick, E: seq<string>, d: string)
    requires d in E && Failing(spec, t, d)
    ensures CountFailing(spec, t, E) >= 1
  {
    if E[|E| - 1] != d {
      assert E == E[..|E| - 1] + [E[|E| - 1]];
      FailingIsCounted(spec, t, E[..|E| - 1], d);
    }
  }

  lemma {:induction false} FailedIsCounted(spec: RolloutSpec, t: Tick, E: seq<string>)
    ensures |FailedOf(spec, t, E)| == CountFailing(spec, t, E)
  {
    if E != [] {
      FailedIsCounted(spec, t, E[..|E| - 1]);
    }
  }

  /** How many failing devices stop a rollout: as many as its author says, but at least one. */
  function StopsAt(spec: RolloutSpec): (n: int) {
    if spec.rollbackOn.Some? then Max(1, spec.rollbackOn.value.healthGateFailures) else 1
  }

  lemma ToleranceIsStated(spec: RolloutSpec)
    ensures FailureTolerance(spec) == StopsAt(spec)
  {
  }

  // --- the phase a reconcile leaves ------------------------------------------------------------------------

  lemma PhaseOfProceed(spec: RolloutSpec, s: Status, t: Tick, E: seq<string>, windowBudget: int)
    ensures var r, failing, healthy := Proceed(spec, s, t, E, windowBudget), CountFailing(spec, t, E),
                                       |HealthyOf(spec, t, E)|;
            && (r.status.phase.Paused? <==> failing >= StopsAt(spec))
            && (r.status.phase.Waiting? <==> failing < StopsAt(spec) && E == [])
            && (r.status.phase.Complete? <==> failing < StopsAt(spec) && E != [] && healthy == |E|)
            && (r.status.phase.Canary? || r.status.phase.Progressing? <==>
                  failing < StopsAt(spec) && healthy < |E|)
            && (!(r.status.phase.Canary? || r.status.phase.Progressing?) ==> r.dispatched == [])
            && (r.status.phase.Canary? ==> spec.canary > 0)
            && (spec.canary > healthy && (r.status.phase.Canary? || r.status.phase.Progressing?) ==>
                  r.status.phase.Canary?)
            && r.status.failed == FailedOf(spec, t, E) && r.status.healthy == healthy
            && r.status.updated == |UpdatedOf(spec, t, E)|
            && (r.status.phase.Complete? ==> r.status.step == Done && r.requeue == 0)
            && (r.status.phase.Paused? || r.status.phase.Waiting? ==> r.requeue == MINUTE)
            && (r.status.phase.Canary? || r.status.phase.Progressing? ==>
                  r.requeue == 15 * SECOND &&
                  r.status.step == At(CurrentStep(spec, |E|, healthy).0 + 1, |StepsOf(spec)|))
  {
    FailedIsCounted(spec, t, E);
    ToleranceIsStated(spec);
  }

  /** Past the gates a rollout is paused, and nothing is written, exactly when as many eligible devices as it
      stops at are late or looping. */
  lemma StopLaw(spec: RolloutSpec, s: Status, t: Tick, plan: Plan, d: Decision)
    requires Observes(spec, s, t, plan, d)
    ensures var r := Steer(spec, s, t, plan, d);
            && (r.status.phase.Paused? <==> CountFailing(spec, t, plan.eligible) >= StopsAt(spec))
            && (r.status.phase.Paused? ==> r.dispatched == [])
  {
    var a := Apply(Planned(s, t, plan), d, t.now);
    PhaseOfProceed(spec, a.status, t, plan.eligible, a.budget);
  }

  /** A rollout that is complete or rolled back is left alone for good. */
  lemma DoneIsDone(spec: RolloutSpec, s: Status, t: Tick, plan: Plan, d: Decision)
    requires s.phase.Complete? || s.phase.RolledBack?
    ensures Steer(spec, s, t, plan, d) == Reconciled(s, [], 0)
  {
  }

  /** A lost status is as if never written, while the devices keep what they were told; a stored one replaces
      the old. */
  lemma LostOrStored(spec: RolloutSpec, v: World, t: Tick)
    ensures var w, r := Next(spec, v, t), ReconcileAt(spec, v, t);
            && (t.lost ==> w.status == v.status) && (!t.lost ==> w.status == r.status)
            && w.log == v.log + r.dispatched
            && (forall d :: Read(w.desired, d) == if d in r.dispatched then Payload(spec) else Read(v.desired, d))
  {
    var r := ReconcileAt(spec, v, t);
    forall d
      ensures Read(Write(v.desired, r.dispatched, Payload(spec)), d) ==
              if d in r.dispatched then Payload(spec) else Read(v.desired, d)
    {
      WriteMeans(v.desired, r.dispatched, Payload(spec), d);
    }
  }

  /** Before a reconcile gets to the devices, its phase says why it did not. */
  lemma PhaseBefore(spec: RolloutSpec, s: Status, t: Tick, plan: Plan, d: Decision)
    requires !Terminal(s)
    ensures var r := Steer(spec, s, t, plan, d);
            && (r.status.phase.Blocked? <==> !spec.paused && !d.open)
            && (spec.paused ==> r.status.phase.Paused?)
            && (!Observes(spec, s, t, plan, d) ==> r.dispatched == [])
            && (!Observes(spec, s, t, plan, d) && !spec.paused && d.open ==> r.status.phase.Waiting?)
  {
    var a := Apply(Planned(s, t, plan), d, t.now);
    if Observes(spec, s, t, plan, d) {
      PhaseOfProceed(spec, a.status, t, plan.eligible, a.budget);
    }
  }

  /** What a status shows of a decision: the blocker, its reason and the release while closed, and no trace of
      them once open. */
  lemma StatusShowsDecision(spec: RolloutSpec, s: Status, t: Tick, plan: Plan, d: Decision)
    requires !Terminal(s) && !spec.paused
    ensures var r := Steer(spec, s, t, plan, d);
            if d.open then r.status.blockedBy == "" && r.status.blockReason == "" && r.status.nextWindow.None?
            else && r.status.blockedBy == d.window && r.status.blockReason == d.reason
                 && (d.nextOpen.Some? ==> r.status.nextWindow == d.nextOpen)
                 && (d.nextOpen.None? ==> r.status.nextWindow == s.nextWindow)
  {
  }

  /** A blocked rollout names the last of the windows that block it, with that window's reason. */
  lemma BlockedNamesWindow(spec: RolloutSpec, s: Status, t: Tick, plan: Plan)
    requires !Terminal(s) && !spec.paused
    ensures var r := Steer(spec, s, t, plan, DecisionFor(t));
            && (r.status.phase.Blocked? <==> exists i :: 0 <= i < |t.windows| && Blocks(t.windows[i], t.labels, t.now))
            && (r.status.phase.Blocked? ==>
                  exists i :: && 0 <= i < |t.windows| && Blocks(t.windows[i], t.labels, t.now)
                              && (forall j :: i < j < |t.windows| ==> !Blocks(t.windows[j], t.labels, t.now))
                              && r.status.blockedBy == t.windows[i].name
                              && r.status.blockReason == EvaluateWindow(t.windows[i].spec, t.now).reason)
  {
    PhaseBefore(spec, s, t, plan, DecisionFor(t));
    StatusShowsDecision(spec, s, t, plan, DecisionFor(t));
    OpenIsMeet(t.windows, t.labels, t.now);
    if !DecisionFor(t).open {
      var i := NamedBlocker(t);
    }
  }

  lemma NamedBlocker(t: Tick) returns (i: nat)
    requires !DecisionFor(t).open
    ensures i < |t.windows| && Blocks(t.windows[i], t.labels, t.now)
    ensures forall j :: i < j < |t.windows| ==> !Blocks(t.windows[j], t.labels, t.now)
    ensures DecisionFor(t).window == t.windows[i].name
    ensures DecisionFor(t).reason == EvaluateWindow(t.windows[i].spec, t.now).reason
  {
    var rs := Rulings(t.windows, t.labels, t.now);
    i := BlockerIsTheLast(rs);
    assert rs[i] == Rule(t.windows[i], t.labels, t.now);
    forall j | i < j < |t.windows|
      ensures !Blocks(t.windows[j], t.labels, t.now)
    {
      assert rs[j] == Rule(t.windows[j], t.labels, t.now);
    }
  }

  /** A live rollout's status shows the plan it was made from, and when the rollout was first seen. */
  lemma StatusShowsPlan(spec: RolloutSpec, s: Status, t: Tick, plan: Plan, d: Decision)
    requires !Terminal(s)
    ensures var q := Steer(spec, s, t, plan, d).status;
            && q.target == |t.livenesses| && q.eligible == |plan.eligible|
            && q.refused == plan.refused && q.pending == plan.pending
            && q.startedAt == (if s.startedAt.Some? then s.startedAt else Some(t.now))
  {
  }

  /** When a rollout is looked at again: never once it is done; soon while it is moving; after a minute when
      it was stopped or has nothing to do. */
  lemma RequeueMeans(spec: RolloutSpec, s: Status, t: Tick, plan: Plan, d: Decision)
    ensures var r := Steer(spec, s, t, plan, d);
            && (r.requeue == 0 <==> Terminal(r.status))
            && (spec.paused && !Terminal(s) ==> r.requeue == 30 * SECOND)
            && (r.status.phase.Canary? || r.status.phase.Progressing? ==> Terminal(s) || r.requeue == 15 * SECOND)
            && (Observes(spec, s, t, plan, d) && (r.status.phase.Paused? || r.status.phase.Waiting?) ==>
                  r.requeue == MINUTE)
  {
    if Observes(spec, s, t, plan, d) {
      var a := Apply(Planned(s, t, plan), d, t.now);
      PhaseOfProceed(spec, a.status, t, plan.eligible, a.budget);
    }
    PhaseBeforeIfLive(spec, s, t, plan, d);
  }

  lemma PhaseBeforeIfLive(spec: RolloutSpec, s: Status, t: Tick, plan: Plan, d: Decision)
    ensures !Terminal(s) ==> (Steer(spec, s, t, plan, d).status.phase.Blocked? <==> !spec.paused && !d.open)
  {
    if !Terminal(s) {
      PhaseBefore(spec, s, t, plan, d);
    }
  }

  // --- how much is written -------------------------------------------------------------------------------

  /** The canary while it is not healthy; then the first step larger than the healthy count; then everyone. */
  ghost predicate StepAllows(spec: RolloutSpec, eligible: nat, healthy: nat, index: int, allowed: int) {
    var steps := if spec.steps == [] then [100] else spec.steps;
    if spec.canary > healthy then index == 0 && allowed == spec.canary
    else
      || (&& 0 <= index < |steps| && healthy < allowed && allowed == StepSize(eligible, steps[index])
          && forall j :: 0 <= j < index ==> StepSize(eligible, steps[j]) <= healthy)
      || (&& index == |steps| - 1 && allowed == eligible
          && forall j :: 0 <= j < |steps| ==> StepSize(eligible, steps[j]) <= healthy)
  }

  lemma {:induction false} OpenStepIsFirst(steps: seq<int>, i: nat, eligible: nat, healthy: nat)
    requires i <= |steps| && steps != [] && forall j :: 0 <= j < i ==> StepSize(eligible, steps[j]) <= healthy
    ensures var (index, allowed) := OpenStep(steps, i, eligible, healthy);
            || (&& 0 <= index < |steps| && healthy < allowed && allowed == StepSize(eligible, steps[index])
                && forall j :: 0 <= j < index ==> StepSize(eligible, steps[j]) <= healthy)
            || (&& index == |steps| - 1 && allowed == eligible
                && forall j :: 0 <= j < |steps| ==> StepSize(eligible, steps[j]) <= healthy)
    decreases |steps| - i
  {
    if i < |steps| && StepSize(eligible, steps[i]) <= healthy {
      OpenStepIsFirst(steps, i + 1, eligible, healthy);
    }
  }

  lemma StepMeans(spec: RolloutSpec, eligible: nat, healthy: nat)
    ensures var (index, allowed) := CurrentStep(spec, eligible, healthy);
            StepAllows(spec, eligible, healthy, index, allowed)
  {
    OpenStepIsFirst(StepsOf(spec), 0, eligible, healthy);
  }

  /** Eligible positions that have been written, as read. */
  function CountWritten(t: Tick, E: seq<string>): (n: nat) {
    if E == [] then 0 else CountWritten(t, E[..|E| - 1]) + if Read(t.desired, E[|E| - 1]) != "" then 1 else 0
  }

  lemma {:induction false} UpdatedIsWritten(spec: RolloutSpec, t: Tick, E: seq<string>)
    ensures |UpdatedOf(spec, t, E)| == CountWritten(t, E)
  {
    if E != [] {
      UpdatedIsWritten(spec, t, E[..|E| - 1]);
    }
  }

  lemma {:induction false} PicksLeaveDone(E: seq<string>, done: set<string>, budget: int)
    ensures |NextDevices(E, done, budget)| + CountIn(E, done) <= |E|
  {
    if E != [] {
      PicksLeaveDone(E[..|E| - 1], done, budget);
    }
  }

  /** As many as the budget has, or as there are. */
  lemma PickSize(E: seq<string>, done: set<string>, budget: int)
    requires budget >= 0
    ensures |NextDevices(E, done, budget)| == Min(budget, |E| - CountIn(E, done))
  {
    PicksAreNear(E, done, budget);
    PicksLeaveDone(E, done, budget);
  }

  /** The least of what is left of an allowance, what the medium takes at once, what the window has left, and
      how many there are to write. A negative limit is none. */
  function Smallest(left: int, medium: int, window: int, unwritten: int): (n: int)
    ensures n <= left && n <= unwritten && (medium > 0 ==> n <= medium) && (window >= 0 ==> n <= window)
    ensures n == left || n == unwritten || (medium > 0 && n == medium) || (window >= 0 && n == window)
  {
    var n := Min(left, unwritten);
    var m := if medium > 0 then Min(n, medium) else n;
    if window >= 0 then Min(m, window) else m
  }

  /** What a reconcile that advances may write. */
  function Most(spec: RolloutSpec, t: Tick, E: seq<string>, allowed: int, remainder: int): (n: int) {
    var written := CountWritten(t, E);
    Max(0, Smallest(allowed - written, spec.maxConcurrent, remainder, |E| - written))
  }

  lemma DispatchSize(spec: RolloutSpec, t: Tick, E: seq<string>, allowed: int, windowBudget: int)
    ensures var n := |Dispatches(spec, t, E, allowed, windowBudget)|;
            var most := Most(spec, t, E, allowed, windowBudget);
            n <= most && (t.rejects == {} ==> n == most)
  {
    var updated := UpdatedOf(spec, t, E);
    UpdatedIsWritten(spec, t, E);
    UpdatedCounted(spec, t, E);
    if |updated| < allowed {
      var budget := BudgetFor(spec, allowed, |updated|, windowBudget);
      PickSize(E, SetOf(updated), budget);
      if t.rejects == {} {
        AllAccepted(NextDevices(E, SetOf(updated), budget), {});
      }
    }
  }

  /** What a decision still lets through: no limit at all, or the limit less what counts against it, which is
      nothing when the counter was never opened, or was for a named window over an hour ago. */
  function WindowRemainder(s: Status, d: Decision, now: int): (n: int) {
    if d.maxDevices <= 0 then -1
    else if s.windowOpenedAt.None? then d.maxDevices
    else if d.window != "" && s.dispatchedThisWindow > 0 && now - s.windowOpenedAt.value > HOUR then d.maxDevices
    else d.maxDevices - s.dispatchedThisWindow
  }

  lemma RemainderIsBudget(s: Status, d: Decision, now: int)
    requires d.open
    ensures var a := Apply(s, d, now);
            && (a.proceed <==> WindowRemainder(s, d, now) != 0 && (d.maxDevices > 0 ==> WindowRemainder(s, d, now) > 0))
            && (a.proceed ==> a.budget == WindowRemainder(s, d, now))
  {
  }

  lemma StepUnique(spec: RolloutSpec, eligible: nat, healthy: nat, index: int, allowed: int)
    requires StepAllows(spec, eligible, healthy, index, allowed)
    ensures CurrentStep(spec, eligible, healthy) == (index, allowed)
  {
    StepMeans(spec, eligible, healthy);
  }

  lemma ProceedDispatches(spec: RolloutSpec, s: Status, t: Tick, E: seq<string>, windowBudget: int, allowed: int)
    requires allowed == CurrentStep(spec, |E|, |HealthyOf(spec, t, E)|).1
    ensures Proceed(spec, s, t, E, windowBudget).dispatched ==
            if CountFailing(spec, t, E) < StopsAt(spec) && |HealthyOf(spec, t, E)| < |E|
            then Dispatches(spec, t, E, allowed, windowBudget) else []
  {
    FailedIsCounted(spec, t, E);
    ToleranceIsStated(spec);
  }

  /** Past every gate: the decision is open and not used up, too few devices fail, and some is not healthy. */
  ghost predicate Advances(spec: RolloutSpec, s: Status, t: Tick, plan: Plan, d: Decision) {
    && Observes(spec, s, t, plan, d) && CountFailing(spec, t, plan.eligible) < StopsAt(spec)
    && |HealthyOf(spec, t, plan.eligible)| < |plan.eligible|
  }

  lemma SteerProceeds(spec: RolloutSpec, s: Status, t: Tick, plan: Plan, d: Decision) returns (s': Status)
    requires Observes(spec, s, t, plan, d)
    ensures Steer(spec, s, t, plan, d) == Proceed(spec, s', t, plan.eligible, WindowRemainder(s, d, t.now))
  {
    RemainderIsBudget(Planned(s, t, plan), d, t.now);
    s' := Apply(Planned(s, t, plan), d, t.now).status;
  }

  lemma SteerDispatches(spec: RolloutSpec, s: Status, t: Tick, plan: Plan, d: Decision, allowed: int)
    requires allowed == CurrentStep(spec, |plan.eligible|, |HealthyOf(spec, t, plan.eligible)|).1
    ensures Steer(spec, s, t, plan, d).dispatched ==
            if Advances(spec, s, t, plan, d)
            then Dispatches(spec, t, plan.eligible, allowed, WindowRemainder(s, d, t.now)) else []
  {
    if Observes(spec, s, t, plan, d) {
      var s' := SteerProceeds(spec, s, t, plan, d);
      ProceedDispatches(spec, s', t, plan.eligible, WindowRemainder(s, d, t.now), allowed);
    }
  }

  /** Exactly how many devices a reconcile writes when no write fails: none if it does not advance; otherwise
      the least of the step's remainder, the medium's limit, the window's remainder and the devices not yet
      written. With failing writes, at most that. */
  lemma BatchSize(spec: RolloutSpec, s: Status, t: Tick, plan: Plan, d: Decision, index: int, allowed: int)
    requires StepAllows(spec, |plan.eligible|, |HealthyOf(spec, t, plan.eligible)|, index, allowed)
    ensures var n := |Steer(spec, s, t, plan, d).dispatched|;
            var most := Most(spec, t, plan.eligible, allowed, WindowRemainder(s, d, t.now));
            if Advances(spec, s, t, plan, d) then n <= most && (t.rejects == {} ==> n == most) else n == 0
  {
    StepUnique(spec, |plan.eligible|, |HealthyOf(spec, t, plan.eligible)|, index, allowed);
    SteerDispatches(spec, s, t, plan, d, allowed);
    DispatchSize(spec, t, plan.eligible, allowed, WindowRemainder(s, d, t.now));
  }

  lemma DispatchLimited(spec: RolloutSpec, t: Tick, E: seq<string>, allowed: int, windowBudget: int)
    requires spec.maxConcurrent > 0
    ensures |Dispatches(spec, t, E, allowed, windowBudget)| <= spec.maxConcurrent
  {
    DispatchSize(spec, t, E, allowed, windowBudget);
  }

  /** One reconcile never starts more transfers than the medium takes at once. */
  lemma MediumLimits(spec: RolloutSpec, s: Status, t: Tick, plan: Plan, d: Decision)
    requires spec.maxConcurrent > 0
    ensures |Steer(spec, s, t, plan, d).dispatched| <= spec.maxConcurrent
  {
    var allowed := CurrentStep(spec, |plan.eligible|, |HealthyOf(spec, t, plan.eligible)|).1;
    SteerDispatches(spec, s, t, plan, d, allowed);
    DispatchLimited(spec, t, plan.eligible, allowed, WindowRemainder(s, d, t.now));
  }

  lemma NextLimited(spec: RolloutSpec, v: World, t: Tick)
    requires spec.maxConcurrent > 0
    ensures |Next(spec, v, t).log| <= |v.log| + spec.maxConcurrent
  {
    MediumLimits(spec, v.status, t, PlanFor(spec, t), DecisionFor(t));
  }

  ghost predicate LimitedSoFar(spec: RolloutSpec, w: World, ts: seq<Tick>, n: nat) {
    n <= |ts| && |Run(spec, w, ts[..n]).log| <= |w.log| + Times(n, spec.maxConcurrent)
  }

  lemma StepLimited(spec: RolloutSpec, w: World, ts: seq<Tick>, i: nat)
    requires spec.maxConcurrent > 0 && i < |ts| && LimitedSoFar(spec, w, ts, i)
    ensures LimitedSoFar(spec, w, ts, i + 1)
  {
    OneStep(spec, w, ts, i);
    NextLimited(spec, Run(spec, w, ts[..i]), ts[i]);
  }

  /** So n reconciles make at most n times that many writes. */
  lemma RunLimited(spec: RolloutSpec, w: World, ts: seq<Tick>)
    requires spec.maxConcurrent > 0
    ensures |Run(spec, w, ts).log| <= |w.log| + |ts| * spec.maxConcurrent
  {
    var ok := (n: nat) => LimitedSoFar(spec, w, ts, n);
    assert ts[..0] == [] && ts[..|ts|] == ts;
    assert ok(0);
    forall i: nat | i < |ts| && ok(i)
      ensures ok(i + 1)
    {
      StepLimited(spec, w, ts, i);
    }
    Chain(ok, |ts|);
    TimesIsProduct(|ts|, spec.maxConcurrent);
  }
}
