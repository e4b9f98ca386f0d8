/** One reconcile of a firmware rollout: controller/internal/rollout_controller.go. */
module Rollout {
  import opened Prelude
  import opened Capability
  import opened Planner
  import opened RolloutApi
  import opened Compose

  /** Everything one reconcile reads from outside the rollout object. The reads may be stale: nothing
      relates `desired`, `running` or the rest to what is stored. `rejects` are the devices whose write
      fails; `lost` says that the closing status update fails. */
  datatype Tick = Tick(
    now: int, livenesses: seq<Liveness>, windows: seq<MaintenanceWindow>, labels: seq<Labels>,
    desired: map<string, string>, running: map<string, string>, boots: map<string, int>,
    dispatchedAt: map<string, int>, rejects: set<string>, lost: bool)

  function Read(m: map<string, string>, device: string): (v: string) {
    if device in m then m[device] else ""
  }

  // --- observe ----------------------------------------------------------------------------------

  datatype Health = NotDispatched | Healthy | InFlight | Failing(reason: Reason)

  predicate BootLoops(spec: RolloutSpec, t: Tick, device: string) {
    spec.healthGate.Some? && spec.rollbackOn.Some? && spec.rollbackOn.value.bootLoopThreshold > 0 &&
    (if device in t.boots then t.boots[device] else 0) > spec.rollbackOn.value.bootLoopThreshold
  }

  predicate Overdue(spec: RolloutSpec, t: Tick, device: string) {
    spec.healthGate.Some? && spec.healthGate.value.mustReportWithin.Some? &&
    device in t.dispatchedAt &&
    t.now - t.dispatchedAt[device] > spec.healthGate.value.mustReportWithin.value
  }

  function HealthOf(spec: RolloutSpec, t: Tick, device: string): (h: Health) {
    if Read(t.desired, device) == "" then NotDispatched
    else if Read(t.running, device) == spec.configHash then
      if BootLoops(spec, t, device) then Failing(BootLoopDetected) else Healthy
    else if Overdue(spec, t, device) then Failing(HealthGateFailed) else InFlight
  }

  function UpdatedOf(spec: RolloutSpec, t: Tick, E: seq<string>): (r: seq<string>) {
    if E == [] then [] else
      var d := E[|E| - 1];
      UpdatedOf(spec, t, E[..|E| - 1]) + if HealthOf(spec, t, d).NotDispatched? then [] else [d]
  }

  function HealthyOf(spec: RolloutSpec, t: Tick, E: seq<string>): (r: seq<string>)
    ensures |r| <= |E|
  {
    if E == [] then [] else
      var d := E[|E| - 1];
      HealthyOf(spec, t, E[..|E| - 1]) + if HealthOf(spec, t, d).Healthy? then [d] else []
  }

  function FailedOf(spec: RolloutSpec, t: Tick, E: seq<string>): (r: seq<DeviceOutcome>) {
    if E == [] then [] else
      var d := E[|E| - 1];
      FailedOf(spec, t, E[..|E| - 1]) +
      if HealthOf(spec, t, d).Failing? then [DeviceOutcome(d, HealthOf(spec, t, d).reason)] else []
  }

  method Observe(spec: RolloutSpec, t: Tick, E: seq<string>)
    returns (updated: seq<string>, healthy: seq<string>, failed: seq<DeviceOutcome>)
    ensures updated == UpdatedOf(spec, t, E)
    ensures healthy == HealthyOf(spec, t, E)
    ensures failed == FailedOf(spec, t, E)
  {
    updated, healthy, failed := [], [], [];
    for i := 0 to |E|
      invariant updated == UpdatedOf(spec, t, E[..i])
      invariant healthy == HealthyOf(spec, t, E[..i])
      invariant failed == FailedOf(spec, t, E[..i])
    {
      var name := E[i];
      assert E[..i + 1][..i] == E[..i];
      if Read(t.desired, name) == "" {
        continue;
      }
      updated := updated + [name];
      if Read(t.running, name) == spec.configHash {
        if spec.healthGate.Some? && spec.rollbackOn.Some? && spec.rollbackOn.value.bootLoopThreshold > 0 {
          var boots := if name in t.boots then t.boots[name] else 0;
          if boots > spec.rollbackOn.value.bootLoopThreshold {
            failed := failed + [DeviceOutcome(name, BootLoopDetected)];
            continue;
          }
        }
        healthy := healthy + [name];
        continue;
      }
      if spec.healthGate.Some? && spec.healthGate.value.mustReportWithin.Some? {
        if name in t.dispatchedAt &&
           t.now - t.dispatchedAt[name] > spec.healthGate.value.mustReportWithin.value {
          failed := failed + [DeviceOutcome(name, HealthGateFailed)];
        }
      }
    }
    assert E[..|E|] == E;
  }

  // --- step allowance -----------------------------------------------------------------------------

  function StepsOf(spec: RolloutSpec): (steps: seq<int>) {
    if spec.steps == [] then [100] else spec.steps
  }

  /** The first step from `i` on whose size exceeds the healthy count. */
  function OpenStep(steps: seq<int>, i: nat, eligible: nat, healthy: nat): (r: (int, int))
    requires i <= |steps|
    ensures r.1 <= eligible
    ensures r.1 > healthy || r.1 == eligible
    decreases |steps| - i
  {
    if i == |steps| then (|steps| - 1, eligible)
    else if healthy < StepSize(eligible, steps[i]) then (i, StepSize(eligible, steps[i]))
    else OpenStep(steps, i + 1, eligible, healthy)
  }

  function CurrentStep(spec: RolloutSpec, eligible: nat, healthy: nat): (r: (int, int)) {
    if spec.canary > 0 && healthy < spec.canary then (0, spec.canary)
    else OpenStep(StepsOf(spec), 0, eligible, healthy)
  }

  method ScanSteps(spec: RolloutSpec, eligible: nat, healthy: nat) returns (index: int, allowed: int)
    ensures (index, allowed) == CurrentStep(spec, eligible, healthy)
  {
    if spec.canary > 0 && healthy < spec.canary {
      return 0, spec.canary;
    }
    var steps := StepsOf(spec);
    for i := 0 to |steps|
      invariant OpenStep(steps, 0, eligible, healthy) == OpenStep(steps, i, eligible, healthy)
    {
      allowed := StepSize(eligible, steps[i]);
      if healthy < allowed {
        return i, allowed;
      }
    }
    return |steps| - 1, eligible;
  }

  function FailureTolerance(spec: RolloutSpec): (n: int)
    ensures n >= 1
  {
    if spec.rollbackOn.Some? && spec.rollbackOn.value.healthGateFailures > 0
    then spec.rollbackOn.value.healthGateFailures else 1
  }

  // --- choosing and writing -------------------------------------------------------------------------

  function NextDevices(E: seq<string>, done: set<string>, budget: int): (r: seq<string>) {
    if E == [] then [] else
      var r, d := NextDevices(E[..|E| - 1], done, budget), E[|E| - 1];
      if |r| >= budget || d in done then r else r + [d]
  }

  function SetOf(s: seq<string>): (r: set<string>) {
    set d | d in s
  }

  lemma NextDevicesFull(E: seq<string>, i: nat, done: set<string>, budget: int)
    requires i <= |E| && |NextDevices(E[..i], done, budget)| >= budget
    ensures NextDevices(E, done, budget) == NextDevices(E[..i], done, budget)
    decreases |E| - i
  {
    if i < |E| {
      assert E[..i + 1][..i] == E[..i];
      NextDevicesFull(E, i + 1, done, budget);
    } else {
      assert E[..i] == E;
    }
  }

  method ChooseNext(E: seq<string>, updated: seq<string>, budget: int) returns (out: seq<string>)
    ensures out == NextDevices(E, SetOf(updated), budget)
  {
    var done: set<string> := {};
    for i := 0 to |updated|
      invariant done == SetOf(updated[..i])
    {
      done := done + {updated[i]};
      assert updated[..i + 1] == updated[..i] + [updated[i]];
    }
    assert updated[..|updated|] == updated;
    out := [];
    for i := 0 to |E|
      invariant out == NextDevices(E[..i], done, budget)
    {
      if |out| >= budget {
        NextDevicesFull(E, i, done, budget);
        return;
      }
      assert E[..i + 1][..i] == E[..i];
      if E[i] !in done {
        out := out + [E[i]];
      }
    }
    assert E[..|E|] == E;
  }

  /** The devices whose write succeeds. */
  function Accepted(devices: seq<string>, rejects: set<string>): (r: seq<string>)
    ensures |r| <= |devices|
  {
    if devices == [] then [] else
      var d := devices[|devices| - 1];
      Accepted(devices[..|devices| - 1], rejects) + if d in rejects then [] else [d]
  }

  lemma {:induction false} AcceptedMeans(devices: seq<string>, rejects: set<string>, d: string)
    ensures d in Accepted(devices, rejects) <==> d in devices && d !in rejects
  {
    if devices != [] {
      assert devices == devices[..|devices| - 1] + [devices[|devices| - 1]];
      AcceptedMeans(devices[..|devices| - 1], rejects, d);
    }
  }

  function Payload(spec: RolloutSpec): (v: string) {
    spec.configHash + "|" + spec.package
  }

  function Write(desired: map<string, string>, devices: seq<string>, value: string): (r: map<string, string>) {
    if devices == [] then desired else
      var d := devices[|devices| - 1];
      Write(desired, devices[..|devices| - 1], value)[d := value]
  }

  lemma {:induction false} WriteMeans(desired: map<string, string>, devices: seq<string>, value: string, d: string)
    ensures Read(Write(desired, devices, value), d) == if d in devices then value else Read(desired, d)
    ensures d in Write(desired, devices, value) <==> d in devices || d in desired
  {
    if devices != [] {
      assert devices == devices[..|devices| - 1] + [devices[|devices| - 1]];
      WriteMeans(desired, devices[..|devices| - 1], value, d);
    }
  }

  // --- the reconcile ----------------------------------------------------------------------------------

  datatype Reconciled = Reconciled(status: Status, dispatched: seq<string>, requeue: int)

  predicate Terminal(s: Status) {
    s.phase.Complete? || s.phase.RolledBack?
  }

  function AskOf(spec: RolloutSpec, t: Tick): (a: Ask) {
    Ask(spec.requirements, spec.sizeBytes, t.now)
  }

  function Planned(s: Status, t: Tick, plan: Plan): (r: Status) {
    s.(target := |t.livenesses|, eligible := |plan.eligible|, refused := plan.refused,
       pending := plan.pending, startedAt := if s.startedAt.None? then Some(t.now) else s.startedAt)
  }

  /** Near the reopening, but between one and thirty minutes. */
  function BlockedRequeue(d: Decision, now: int): (r: int)
    ensures MINUTE <= r <= 30 * MINUTE
    ensures d.nextOpen.Some? ==> now + r <= Max(d.nextOpen.value, now + MINUTE)
    ensures d.nextOpen.Some? && now + MINUTE <= d.nextOpen.value <= now + 30 * MINUTE ==> now + r == d.nextOpen.value
    ensures d.nextOpen.Some? && d.nextOpen.value >= now + 30 * MINUTE ==> r == 30 * MINUTE
    ensures d.nextOpen.None? ==> r == MINUTE
  {
    if d.nextOpen.Some? && d.nextOpen.value - now > MINUTE
    then Min(d.nextOpen.value - now, 30 * MINUTE) else MINUTE
  }

  /** How many devices may be written now, once the step, concurrency and window limits are met. */
  function BudgetFor(spec: RolloutSpec, allowed: int, updated: nat, windowBudget: int): (b: int) {
    var step := allowed - updated;
    var medium := if spec.maxConcurrent > 0 then Min(step, spec.maxConcurrent) else step;
    if windowBudget >= 0 then Min(medium, windowBudget) else medium
  }

  /** The devices written out of an allowance, once every limit and every failing write is taken off. */
  function Dispatches(spec: RolloutSpec, t: Tick, E: seq<string>, allowed: int, windowBudget: int)
    : (devices: seq<string>)
  {
    var updated := UpdatedOf(spec, t, E);
    if |updated| >= allowed then []
    else Accepted(NextDevices(E, SetOf(updated), BudgetFor(spec, allowed, |updated|, windowBudget)), t.rejects)
  }

  /** The part after observation and the stop conditions. */
  function Advance(spec: RolloutSpec, s: Status, t: Tick, E: seq<string>, windowBudget: int): (r: Reconciled) {
    var (index, allowed) := CurrentStep(spec, |E|, |HealthyOf(spec, t, E)|);
    var dispatched := Dispatches(spec, t, E, allowed, windowBudget);
    Reconciled(s.(step := At(index + 1, |StepsOf(spec)|),
                  phase := if index == 0 && spec.canary > 0 then Canary else Progressing,
                  dispatchedThisWindow := s.dispatchedThisWindow + |dispatched|),
               dispatched, 15 * SECOND)
  }

  /** Observation, stop conditions, and only then advancing. */
  function Proceed(spec: RolloutSpec, s: Status, t: Tick, E: seq<string>, windowBudget: int): (r: Reconciled) {
    var failed := FailedOf(spec, t, E);
    var healthy := |HealthyOf(spec, t, E)|;
    var s' := s.(updated := |UpdatedOf(spec, t, E)|, healthy := healthy, failed := failed);
    if |failed| >= FailureTolerance(spec) then Reconciled(s'.(phase := Paused), [], MINUTE)
    else if |E| == 0 then Reconciled(s'.(phase := Waiting), [], MINUTE)
    else if healthy >= |E| then Reconciled(s'.(phase := Complete, step := Done), [], 0)
    else Advance(spec, s', t, E, windowBudget)
  }

  /** The whole reconcile, given what planning and the windows said. */
  function Steer(spec: RolloutSpec, s: Status, t: Tick, plan: Plan, d: Decision): (r: Reconciled) {
    if Terminal(s) then Reconciled(s, [], 0)
    else if spec.paused then Reconciled(Planned(s, t, plan).(phase := Paused), [], 30 * SECOND)
    else
      var a := Apply(Planned(s, t, plan), d, t.now);
      if !a.proceed then Reconciled(a.status, [], BlockedRequeue(d, t.now))
      else Proceed(spec, a.status, t, plan.eligible, a.budget)
  }

  function PlanFor(spec: RolloutSpec, t: Tick): (p: Plan) {
    PlanOf(AskOf(spec, t), t.livenesses)
  }

  function DecisionFor(t: Tick): (d: Decision) {
    Decide(t.windows, t.labels, t.now)
  }

  /** What the API server stores: the rollout's status and every device's desired firmware. */
  class Cluster {
    const spec: RolloutSpec
    var status: Status
    var desired: map<string, string>

    constructor (spec: RolloutSpec, status: Status, desired: map<string, string>)
      ensures this.spec == spec && this.status == status && this.desired == desired
    {
      this.spec := spec;
      this.status := status;
      this.desired := desired;
    }

    method Finish(ro: FirmwareRollout, t: Tick)
      modifies this`status
      ensures status == if t.lost then old(status) else ro.status
    {
      if !t.lost {
        status := ro.status;
      }
    }

    /** Writes the payload to each chosen device, skipping those whose write fails. */
    method DispatchAll(devices: seq<string>, t: Tick) returns (dispatched: seq<string>)
      modifies this`desired
      ensures dispatched == Accepted(devices, t.rejects)
      ensures desired == Write(old(desired), dispatched, Payload(spec))
    {
      dispatched := [];
      for i := 0 to |devices|
        invariant dispatched == Accepted(devices[..i], t.rejects)
        invariant desired == Write(old(desired), dispatched, Payload(spec))
      {
        assert devices[..i + 1][..i] == devices[..i];
        if devices[i] in t.rejects {
          continue;
        }
        desired := desired[devices[i] := Payload(spec)];
        assert (dispatched + [devices[i]])[..|dispatched|] == dispatched;
        dispatched := dispatched + [devices[i]];
      }
      assert devices[..|devices|] == devices;
    }

    /** When a blocked rollout looks again: a minute on, or as late as the release allows, up to half an hour. */
    method WhenBlocked(decision: Decision, now: int) returns (requeue: int)
      ensures requeue == BlockedRequeue(decision, now)
    {
      requeue := MINUTE;
      if decision.nextOpen.Some? {
        var d := decision.nextOpen.value - now;
        if d > MINUTE {
          requeue := d;
          if requeue > 30 * MINUTE {
            requeue := 30 * MINUTE;
          }
        }
      }
    }

    /** Records the plan on the rollout's status. */
    method RecordPlan(ro: FirmwareRollout, t: Tick, plan: Plan)
      modifies ro
      ensures ro.status == Planned(old(ro.status), t, plan)
    {
      ro.status := ro.status.(target := |t.livenesses|, eligible := |plan.eligible|);
      ro.status := ro.status.(refused := plan.refused, pending := plan.pending);
      if ro.status.startedAt.None? {
        ro.status := ro.status.(startedAt := Some(t.now));
      }
    }

    method Reconcile(t: Tick) returns (dispatched: seq<string>, requeue: int)
      modifies this
      ensures var r := Steer(spec, old(status), t, PlanFor(spec, t), DecisionFor(t));
              && dispatched == r.dispatched && requeue == r.requeue
              && status == (if t.lost then old(status) else r.status)
              && desired == Write(old(desired), r.dispatched, Payload(spec))
    {
      dispatched := [];
      var ro := new FirmwareRollout(spec, status);
      if ro.status.phase.Complete? || ro.status.phase.RolledBack? {
        requeue := 0;
        return;
      }
      var plan := PlanRollout(AskOf(spec, t), t.livenesses);
      RecordPlan(ro, t, plan);
      if ro.spec.paused {
        ro.status := ro.status.(phase := Paused);
        Finish(ro, t);
        requeue := 30 * SECOND;
        return;
      }
      var decision := EvaluateWindowsFor(t.windows, t.labels, t.now);
      dispatched, requeue := Pass(ro, t, plan.eligible, decision);
    }

    /** From the windows' decision on. */
    method Pass(ro: FirmwareRollout, t: Tick, eligible: seq<string>, decision: Decision)
      returns (dispatched: seq<string>, requeue: int)
      requires ro.spec == spec
      modifies this, ro
      ensures var a := Apply(old(ro.status), decision, t.now);
              var r := if a.proceed then Proceed(spec, a.status, t, eligible, a.budget)
                       else Reconciled(a.status, [], BlockedRequeue(decision, t.now));
              && dispatched == r.dispatched && requeue == r.requeue
              && status == (if t.lost then old(status) else r.status)
              && desired == Write(old(desired), r.dispatched, Payload(spec))
    {
      dispatched := [];
      var proceed, windowBudget := ApplyWindow(ro, decision, t.now);
      if !proceed {
        requeue := WhenBlocked(decision, t.now);
        Finish(ro, t);
        return;
      }
      dispatched, requeue := Drive(ro, t, eligible, windowBudget);
    }

    /** From observation to dispatch. */
    method Drive(ro: FirmwareRollout, t: Tick, eligible: seq<string>, windowBudget: int)
      returns (dispatched: seq<string>, requeue: int)
      requires ro.spec == spec
      modifies this, ro
      ensures var r := Proceed(spec, old(ro.status), t, eligible, windowBudget);
              && dispatched == r.dispatched && requeue == r.requeue
              && status == (if t.lost then old(status) else r.status)
              && desired == Write(old(desired), r.dispatched, Payload(spec))
    {
      dispatched := [];
      var updated, healthy, failed := Observe(spec, t, eligible);
      ro.status := ro.status.(updated := |updated|, healthy := |healthy|, failed := failed);
      if |failed| >= FailureTolerance(spec) {
        ro.status := ro.status.(phase := Paused);
        Finish(ro, t);
        requeue := MINUTE;
        return;
      }
      if |eligible| == 0 {
        ro.status := ro.status.(phase := Waiting);
        Finish(ro, t);
        requeue := MINUTE;
        return;
      }
      if |healthy| >= |eligible| {
        ro.status := ro.status.(phase := Complete, step := Done);
        Finish(ro, t);
        requeue := 0;
        return;
      }
      dispatched, requeue := Open(ro, t, eligible, updated, |healthy|, windowBudget);
    }

    /** The step's remainder, cut to what the medium and then the window permit. */
    method Clamp(allowed: int, updated: nat, windowBudget: int) returns (budget: int)
      ensures budget == BudgetFor(spec, allowed, updated, windowBudget)
    {
      budget := allowed - updated;
      if spec.maxConcurrent > 0 && budget > spec.maxConcurrent {
        budget := spec.maxConcurrent;
      }
      if windowBudget >= 0 && budget > windowBudget {
        budget := windowBudget;
      }
    }

    /** Opens as much of the current step as every limit permits. */
    method Open(ro: FirmwareRollout, t: Tick, eligible: seq<string>, updated: seq<string>, healthy: nat,
                windowBudget: int)
      returns (dispatched: seq<string>, requeue: int)
      requires ro.spec == spec
      requires updated == UpdatedOf(spec, t, eligible) && healthy == |HealthyOf(spec, t, eligible)|
      modifies this, ro
      ensures var r := Advance(spec, old(ro.status), t, eligible, windowBudget);
              && dispatched == r.dispatched && requeue == r.requeue
              && status == (if t.lost then old(status) else r.status)
              && desired == Write(old(desired), r.dispatched, Payload(spec))
    {
      dispatched := [];
      var stepIdx, allowed := ScanSteps(spec, |eligible|, healthy);
      ro.status := ro.status.(step := At(stepIdx + 1, |StepsOf(spec)|));
      if stepIdx == 0 && spec.canary > 0 {
        ro.status := ro.status.(phase := Canary);
      } else {
        ro.status := ro.status.(phase := Progressing);
      }
      requeue := 15 * SECOND;
      if |updated| >= allowed {
        Finish(ro, t);
        return;
      }
      var budget := Clamp(allowed, |updated|, windowBudget);
      var next := ChooseNext(eligible, updated, budget);
      dispatched := DispatchAll(next, t);
      ro.status := ro.status.(dispatchedThisWindow := ro.status.dispatchedThisWindow + |dispatched|);
      Finish(ro, t);
    }
  }
}
