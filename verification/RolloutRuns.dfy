/** Properties of whole rollout runs: blast radius, licensing, progress and completion. */
module RolloutRuns {
  import opened Prelude
  import opened Planner
  import opened RolloutApi
  import opened Compose
  import opened Rollout

  /** Stored state, every device written so far in order, and the largest healthy count any reconcile
      observed, whether or not its status was stored. */
  datatype World = World(status: Status, desired: map<string, string>, log: seq<string>, peak: nat)

  function Start(s: Status, desired: map<string, string>): (w: World) {
    World(s, desired, [], 0)
  }

  function ReconcileAt(spec: RolloutSpec, w: World, t: Tick): (r: Reconciled) {
    Steer(spec, w.status, t, PlanFor(spec, t), DecisionFor(t))
  }

  /** The reconcile gets past the pause switch and the windows, and looks at the devices. */
  predicate Observes(spec: RolloutSpec, s: Status, t: Tick, plan: Plan, d: Decision) {
    !Terminal(s) && !spec.paused && Apply(Planned(s, t, plan), d, t.now).proceed
  }

  /** The healthy devices this reconcile itself counted; none when it stopped before looking. */
  function Observed(spec: RolloutSpec, s: Status, t: Tick, plan: Plan, d: Decision): (n: nat) {
    if Observes(spec, s, t, plan, d) then |HealthyOf(spec, t, plan.eligible)| else 0
  }

  function Next(spec: RolloutSpec, w: World, t: Tick): (v: World) {
    var r := ReconcileAt(spec, w, t);
    World(if t.lost then w.status else r.status, Write(w.desired, r.dispatched, Payload(spec)),
          w.log + r.dispatched, Max(w.peak, Observed(spec, w.status, t, PlanFor(spec, t), DecisionFor(t))))
  }

  function Run(spec: RolloutSpec, w: World, ts: seq<Tick>): (v: World) {
    if ts == [] then w else Next(spec, Run(spec, w, ts[..|ts| - 1]), ts[|ts| - 1])
  }

  lemma OneStep(spec: RolloutSpec, w: World, ts: seq<Tick>, i: nat)
    requires i < |ts|
    ensures Run(spec, w, ts[..i + 1]) == Next(spec, Run(spec, w, ts[..i]), ts[i])
  {
    assert ts[..i + 1][..i] == ts[..i];
  }

  /** The stored cluster, driven through a list of reconciles, goes through the worlds of the run. */
  method Drive(c: Cluster, ts: seq<Tick>) returns (log: seq<string>)
    modifies c
    ensures var w := Run(c.spec, Start(old(c.status), old(c.desired)), ts);
            c.status == w.status && c.desired == w.desired && log == w.log
  {
    log := [];
    ghost var start := Start(c.status, c.desired);
    for i := 0 to |ts|
      invariant var w := Run(c.spec, start, ts[..i]);
                c.status == w.status && c.desired == w.desired && log == w.log
    {
      assert ts[..i + 1][..i] == ts[..i];
      var dispatched, _ := c.Reconcile(ts[i]);
      log := log + dispatched;
    }
    assert ts[..|ts|] == ts;
  }

  // --- step allowance -------------------------------------------------------------------------------

  /** The next step always allows more than is already healthy. */
  lemma AllowanceExceedsHealthy(spec: RolloutSpec, eligible: nat, healthy: nat)
    requires healthy < eligible
    ensures CurrentStep(spec, eligible, healthy).1 > healthy
  {
  }

  lemma OpenStepMonotone(steps: seq<int>, i: nat, eligible: nat, h: nat, h': nat)
    requires i <= |steps| && h <= h'
    ensures OpenStep(steps, i, eligible, h).1 <= OpenStep(steps, i, eligible, h').1
    decreases |steps| - i
  {
    if i < |steps| {
      OpenStepMonotone(steps, i + 1, eligible, h, h');
    }
  }

  /** How far into the eligible list a healthy count lets the rollout reach. */
  function Reach(spec: RolloutSpec, eligible: nat, healthy: nat): (n: nat)
    ensures n <= eligible
  {
    var allowed := CurrentStep(spec, eligible, healthy).1;
    if allowed > eligible then eligible else Max(allowed, 0)
  }

  /** More health never shrinks the allowance, for any list of steps, sorted or not. */
  lemma ReachMonotone(spec: RolloutSpec, eligible: nat, h: nat, h': nat)
    requires h <= h'
    ensures Reach(spec, eligible, h) <= Reach(spec, eligible, h')
  {
    OpenStepMonotone(StepsOf(spec), 0, eligible, h, h');
  }

  // --- which devices a reconcile picks ----------------------------------------------------------------

  function CountIn(E: seq<string>, done: set<string>): (n: nat)
    ensures n <= |E|
  {
    if E == [] then 0 else CountIn(E[..|E| - 1], done) + if E[|E| - 1] in done then 1 else 0
  }

  /** While the budget lasts nothing eligible is skipped, so a pick's position is bounded by the
      budget plus the devices already done. */
  lemma {:induction false} PicksAreNear(E: seq<string>, done: set<string>, budget: int)
    ensures var r := NextDevices(E, done, budget);
            && (|r| < budget ==> |r| + CountIn(E, done) == |E|)
            && (budget >= 0 ==> |r| <= budget)
            && (forall d :: d in r ==>
                  d !in done && exists i :: 0 <= i < |E| && i < budget + CountIn(E, done) && E[i] == d)
  {
    if E != [] {
      var init := E[..|E| - 1];
      PicksAreNear(init, done, budget);
      var r, r' := NextDevices(E, done, budget), NextDevices(init, done, budget);
      forall d | d in r
        ensures d !in done && exists i :: 0 <= i < |E| && i < budget + CountIn(E, done) && E[i] == d
      {
        if d in r' {
          var i :| 0 <= i < |init| && i < budget + CountIn(init, done) && init[i] == d;
          assert E[i] == d;
        } else {
          assert E[|E| - 1] == d;
        }
      }
    }
  }

  lemma {:induction false} CountWithout(E: seq<string>, done: set<string>, d: string)
    requires d !in E
    ensures CountIn(E, done) == CountIn(E, done - {d})
  {
    if E != [] {
      assert E == E[..|E| - 1] + [E[|E| - 1]];
      CountWithout(E[..|E| - 1], done, d);
    }
  }

  /** No name twice. */
  predicate Distinct(E: seq<string>) {
    E == [] || (E[|E| - 1] !in E[..|E| - 1] && Distinct(E[..|E| - 1]))
  }

  lemma {:induction false} CountIsSmall(E: seq<string>, done: set<string>)
    requires Distinct(E)
    ensures CountIn(E, done) <= |done|
  {
    if E != [] {
      var init, d := E[..|E| - 1], E[|E| - 1];
      if d in done {
        CountWithout(init, done, d);
        CountIsSmall(init, done - {d});
      } else {
        CountIsSmall(init, done);
      }
    }
  }

  lemma {:induction false} UpdatedMeans(spec: RolloutSpec, t: Tick, E: seq<string>, d: string)
    ensures d in UpdatedOf(spec, t, E) <==> d in E && Read(t.desired, d) != ""
  {
    if E != [] {
      assert E == E[..|E| - 1] + [E[|E| - 1]];
      UpdatedMeans(spec, t, E[..|E| - 1], d);
    }
  }

  lemma {:induction false} CountUpdated(spec: RolloutSpec, t: Tick, E: seq<string>, done: set<string>)
    requires forall d :: d in E ==> (d in done <==> Read(t.desired, d) != "")
    ensures CountIn(E, done) == |UpdatedOf(spec, t, E)|
  {
    if E != [] {
      assert E == E[..|E| - 1] + [E[|E| - 1]];
      CountUpdated(spec, t, E[..|E| - 1], done);
    }
  }

  lemma UpdatedCounted(spec: RolloutSpec, t: Tick, E: seq<string>)
    ensures CountIn(E, SetOf(UpdatedOf(spec, t, E))) == |UpdatedOf(spec, t, E)|
  {
    forall d | d in E
      ensures d in SetOf(UpdatedOf(spec, t, E)) <==> Read(t.desired, d) != ""
    {
      UpdatedMeans(spec, t, E, d);
    }
    CountUpdated(spec, t, E, SetOf(UpdatedOf(spec, t, E)));
  }

  /** Whatever the reads showed, a device chosen now lies within the allowance of the healthy count. */
  lemma AdvanceWithinReach(spec: RolloutSpec, s: Status, t: Tick, E: seq<string>, windowBudget: int, d: string)
    requires d in Advance(spec, s, t, E, windowBudget).dispatched
    ensures d in E[..Reach(spec, |E|, |HealthyOf(spec, t, E)|)]
    ensures Read(t.desired, d) == "" && d !in t.rejects
  {
    var updated := UpdatedOf(spec, t, E);
    var allowed := CurrentStep(spec, |E|, |HealthyOf(spec, t, E)|).1;
    var budget := BudgetFor(spec, allowed, |updated|, windowBudget);
    assert budget <= allowed - |updated|;
    AcceptedMeans(NextDevices(E, SetOf(updated), budget), t.rejects, d);
    PicksAreNear(E, SetOf(updated), budget);
    UpdatedCounted(spec, t, E);
    var i :| 0 <= i < |E| && i < budget + |updated| && E[i] == d;
    assert E[..Reach(spec, |E|, |HealthyOf(spec, t, E)|)][i] == d;
    UpdatedMeans(spec, t, E, d);
  }

  /** A dispatching reconcile went all the way through every gate. */
  lemma DispatchMeansAdvance(spec: RolloutSpec, s: Status, t: Tick, plan: Plan, d: Decision, name: string)
    requires name in Steer(spec, s, t, plan, d).dispatched
    ensures !Terminal(s) && !spec.paused && d.open
    ensures |FailedOf(spec, t, plan.eligible)| < FailureTolerance(spec)
    ensures |HealthyOf(spec, t, plan.eligible)| < |plan.eligible|
    ensures Observed(spec, s, t, plan, d) == |HealthyOf(spec, t, plan.eligible)|
    ensures name in plan.eligible[..Reach(spec, |plan.eligible|, |HealthyOf(spec, t, plan.eligible)|)]
    ensures Read(t.desired, name) == "" && name !in t.rejects
  {
    var a := Apply(Planned(s, t, plan), d, t.now);
    var E := plan.eligible;
    var s' := a.status.(updated := |UpdatedOf(spec, t, E)|, healthy := |HealthyOf(spec, t, E)|,
                        failed := FailedOf(spec, t, E));
    assert Steer(spec, s, t, plan, d) == Advance(spec, s', t, E, a.budget);
    AdvanceWithinReach(spec, s', t, E, a.budget, name);
  }

  // --- blast radius -----------------------------------------------------------------------------------

  ghost predicate FixedFleet(spec: RolloutSpec, ts: seq<Tick>, E: seq<string>) {
    forall i :: 0 <= i < |ts| ==> PlanFor(spec, ts[i]).eligible == E
  }

  ghost predicate WithinRadius(spec: RolloutSpec, w: World, E: seq<string>) {
    forall d :: d in w.log ==> d in E[..Reach(spec, |E|, w.peak)]
  }

  lemma NextKeepsRadius(spec: RolloutSpec, v: World, t: Tick, E: seq<string>)
    requires PlanFor(spec, t).eligible == E && WithinRadius(spec, v, E)
    ensures WithinRadius(spec, Next(spec, v, t), E)
  {
    var w, seen := Next(spec, v, t), Observed(spec, v.status, t, PlanFor(spec, t), DecisionFor(t));
    ReachMonotone(spec, |E|, v.peak, w.peak);
    ReachMonotone(spec, |E|, seen, w.peak);
    forall d | d in w.log
      ensures d in E[..Reach(spec, |E|, w.peak)]
    {
      if d in v.log {
        Widen(E, Reach(spec, |E|, v.peak), Reach(spec, |E|, w.peak), d);
      } else {
        DispatchMeansAdvance(spec, v.status, t, PlanFor(spec, t), DecisionFor(t), d);
        Widen(E, Reach(spec, |E|, seen), Reach(spec, |E|, w.peak), d);
      }
    }
  }

  /** Over any run on a fixed eligible list - arbitrarily stale reads, lost status writes, failing
      dispatches, any windows - every device ever written lies within the allowance of the largest
      healthy count observed so far. */
  lemma {:induction false} BlastRadius(spec: RolloutSpec, s: Status, desired: map<string, string>,
                                       ts: seq<Tick>, E: seq<string>)
    requires FixedFleet(spec, ts, E)
    ensures WithinRadius(spec, Run(spec, Start(s, desired), ts), E)
  {
    if ts != [] {
      var init, t := ts[..|ts| - 1], ts[|ts| - 1];
      BlastRadius(spec, s, desired, init, E);
      NextKeepsRadius(spec, Run(spec, Start(s, desired), init), t, E);
    }
  }

  lemma Widen(E: seq<string>, i: nat, j: nat, d: string)
    requires i <= j <= |E| && d in E[..i]
    ensures d in E[..j]
  {
    var k :| 0 <= k < i && E[..i][k] == d;
    assert E[..j][k] == d;
  }

  lemma {:induction false} SetOfIsSmall(s: seq<string>)
    ensures |SetOf(s)| <= |s|
  {
    if s != [] {
      var init, d := s[..|s| - 1], s[|s| - 1];
      SetOfIsSmall(init);
      assert s == init + [d];
      assert SetOf(s) == SetOf(init) + {d};
    }
  }

  lemma SubsetIsSmaller(a: set<string>, b: set<string>)
    requires a <= b
    ensures |a| <= |b|
  {
    if a != {} {
      var x :| x in a;
      SubsetIsSmaller(a - {x}, b - {x});
    }
  }

  /** The number of distinct devices ever touched, and in particular: until as many devices as the
      canary are healthy, no more than the canary are touched. */
  lemma TouchedDevices(spec: RolloutSpec, s: Status, desired: map<string, string>, ts: seq<Tick>, E: seq<string>)
    requires FixedFleet(spec, ts, E)
    ensures var w := Run(spec, Start(s, desired), ts);
            && |SetOf(w.log)| <= Reach(spec, |E|, w.peak)
            && (w.peak < spec.canary ==> |SetOf(w.log)| <= spec.canary)
  {
    var w := Run(spec, Start(s, desired), ts);
    BlastRadius(spec, s, desired, ts, E);
    var reach := E[..Reach(spec, |E|, w.peak)];
    assert forall d :: d in w.log ==> d in reach;
    SubsetIsSmaller(SetOf(w.log), SetOf(reach));
    SetOfIsSmall(reach);
  }

  lemma RunTwo(spec: RolloutSpec, w: World, t1: Tick, t2: Tick)
    ensures Run(spec, w, [t1, t2]) == Next(spec, Next(spec, w, t1), t2)
  {
    assert [t1, t2][..1] == [t1] && [t1][..0] == [];
    assert Run(spec, w, [t1]) == Next(spec, w, t1);
  }

  // --- licensing --------------------------------------------------------------------------------------

  /** Everything that stood behind writing one device: the rollout was live, every selecting window
      open, failures below tolerance, the device not already dispatched, and the planner's licence. */
  ghost predicate LicensedWrite(spec: RolloutSpec, s: Status, t: Tick, d: string) {
    && !Terminal(s) && !spec.paused
    && (forall i :: 0 <= i < |t.windows| ==> !Blocks(t.windows[i], t.labels, t.now))
    && |FailedOf(spec, t, PlanFor(spec, t).eligible)| < FailureTolerance(spec)
    && Read(t.desired, d) == "" && d !in t.rejects
    && exists l :: l in t.livenesses && l.name == d && Licensed(AskOf(spec, t), l)
  }

  lemma DispatchIsLicensed(spec: RolloutSpec, s: Status, t: Tick, d: string)
    requires d in Steer(spec, s, t, PlanFor(spec, t), DecisionFor(t)).dispatched
    ensures LicensedWrite(spec, s, t, d)
  {
    DispatchMeansAdvance(spec, s, t, PlanFor(spec, t), DecisionFor(t), d);
    OpenIsMeet(t.windows, t.labels, t.now);
    EligibleCameFrom(AskOf(spec, t), t.livenesses, d);
    var l :| l in t.livenesses && l.name == d && Judge(AskOf(spec, t), l).Admit?;
    AdmittedIsLicensed(AskOf(spec, t), l);
  }

  /** What a reconcile appends to the log it was licensed to write. */
  lemma AppendedIsLicensed(spec: RolloutSpec, v: World, t: Tick, k: nat)
    requires |v.log| <= k < |Next(spec, v, t).log|
    ensures LicensedWrite(spec, v.status, t, Next(spec, v, t).log[k])
  {
    DispatchIsLicensed(spec, v.status, t, Next(spec, v, t).log[k]);
  }

  lemma NextAppends(spec: RolloutSpec, v: World, t: Tick)
    ensures v.log <= Next(spec, v, t).log
  {
  }

  lemma {:induction false} LogIsKept(spec: RolloutSpec, w: World, ts: seq<Tick>, i: nat)
    requires i <= |ts|
    ensures Run(spec, w, ts[..i]).log <= Run(spec, w, ts).log
    decreases |ts| - i
  {
    if i < |ts| {
      LogIsKept(spec, w, ts, i + 1);
      OneStep(spec, w, ts, i);
      NextAppends(spec, Run(spec, w, ts[..i]), ts[i]);
    } else {
      assert ts[..i] == ts;
    }
  }

  /** Reconcile `i` took the log past position `k`, where it holds `d`. */
  ghost predicate WritesAt(spec: RolloutSpec, w: World, ts: seq<Tick>, i: int, k: nat, d: string) {
    && 0 <= i < |ts|
    && |Run(spec, w, ts[..i]).log| <= k < |Run(spec, w, ts[..i + 1]).log|
    && Run(spec, w, ts[..i + 1]).log[k] == d
  }

  /** After `n` reconciles the log has passed position `k`. */
  ghost predicate Passed(spec: RolloutSpec, w: World, ts: seq<Tick>, k: nat, n: nat) {
    n <= |ts| && k < |Run(spec, w, ts[..n]).log|
  }

  lemma PassedInTheEnd(spec: RolloutSpec, w: World, ts: seq<Tick>, k: nat)
    requires w.log == [] && k < |Run(spec, w, ts).log|
    ensures !Passed(spec, w, ts, k, 0) && Passed(spec, w, ts, k, |ts|)
  {
    assert ts[..0] == [] && ts[..|ts|] == ts;
  }

  /** In every run every single write, repeated ones included, was licensed by the reconcile that made it:
      the one that took the log past its position. */
  lemma EveryWriteLicensed(spec: RolloutSpec, w: World, ts: seq<Tick>, k: nat)
    requires w.log == [] && k < |Run(spec, w, ts).log|
    ensures exists i :: && WritesAt(spec, w, ts, i, k, Run(spec, w, ts).log[k])
                        && LicensedWrite(spec, Run(spec, w, ts[..i]).status, ts[i], Run(spec, w, ts).log[k])
  {
    PassedInTheEnd(spec, w, ts, k);
    var i := Turns((n: nat) => Passed(spec, w, ts, k, n), |ts|);
    LogIsKept(spec, w, ts, i + 1);
    OneStep(spec, w, ts, i);
    AppendedIsLicensed(spec, Run(spec, w, ts[..i]), ts[i], k);
  }

  // --- completion -------------------------------------------------------------------------------------

  /** Health, failure and the rest are counted apart: each eligible position is at most one of them. */
  lemma {:induction false} CountsAreDisjoint(spec: RolloutSpec, t: Tick, E: seq<string>)
    ensures |HealthyOf(spec, t, E)| + |FailedOf(spec, t, E)| <= |UpdatedOf(spec, t, E)| <= |E|
    ensures |HealthyOf(spec, t, E)| == |E| ==> HealthyOf(spec, t, E) == E
    ensures HealthyOf(spec, t, E) == E ==> forall d :: d in E ==> HealthOf(spec, t, d).Healthy?
  {
    if E != [] {
      var init, d := E[..|E| - 1], E[|E| - 1];
      assert E == init + [d];
      CountsAreDisjoint(spec, t, init);
    }
  }

  lemma ProceedCompletes(spec: RolloutSpec, s: Status, t: Tick, E: seq<string>, windowBudget: int)
    ensures Proceed(spec, s, t, E, windowBudget).status.phase.Complete? <==>
            E != [] && |FailedOf(spec, t, E)| < FailureTolerance(spec) && |HealthyOf(spec, t, E)| == |E|
  {
  }

  /** A reconcile that completes a rollout saw every eligible device healthy and none failed: each
      had been dispatched, reports the wanted hash, and is not boot-looping. */
  lemma CompleteIsSound(spec: RolloutSpec, s: Status, t: Tick, plan: Plan, d: Decision)
    requires !Terminal(s) && Steer(spec, s, t, plan, d).status.phase.Complete?
    ensures plan.eligible != [] && !spec.paused && d.open
    ensures HealthyOf(spec, t, plan.eligible) == plan.eligible && FailedOf(spec, t, plan.eligible) == []
    ensures forall e :: e in plan.eligible ==>
              && Read(t.desired, e) != "" && Read(t.running, e) == spec.configHash
              && !BootLoops(spec, t, e)
  {
    var a := Apply(Planned(s, t, plan), d, t.now);
    ProceedCompletes(spec, a.status, t, plan.eligible, a.budget);
    assert plan.eligible != [] && |HealthyOf(spec, t, plan.eligible)| == |plan.eligible|;
    CountsAreDisjoint(spec, t, plan.eligible);
    forall e | e in plan.eligible
      ensures Read(t.desired, e) != "" && Read(t.running, e) == spec.configHash && !BootLoops(spec, t, e)
    {
      assert HealthOf(spec, t, e).Healthy?;
    }
  }

  // --- progress ---------------------------------------------------------------------------------------

  /** A reconcile in a cooperative world: the fleet is E, windows are open without a limit, reads are
      fresh, writes succeed, and every device written before reports the wanted hash without looping. */
  ghost predicate GoodTick(spec: RolloutSpec, w: World, t: Tick, E: seq<string>) {
    && PlanFor(spec, t).eligible == E
    && DecisionFor(t).open && DecisionFor(t).maxDevices <= 0
    && !t.lost
    && forall d :: d in E ==>
         && d !in t.rejects && Read(t.desired, d) == Read(w.desired, d)
         && (Read(w.desired, d) != "" ==> Read(t.running, d) == spec.configHash && !BootLoops(spec, t, d))
  }

  ghost predicate GoodRun(spec: RolloutSpec, w: World, ts: seq<Tick>, E: seq<string>) {
    forall i :: 0 <= i < |ts| ==> GoodTick(spec, Run(spec, w, ts[..i]), ts[i], E)
  }

  function Written(E: seq<string>, desired: map<string, string>): (n: nat)
    ensures n <= |E|
  {
    if E == [] then 0 else
      Written(E[..|E| - 1], desired) + if Read(desired, E[|E| - 1]) != "" then 1 else 0
  }

  lemma {:induction false} GoodCounts(spec: RolloutSpec, t: Tick, E: seq<string>, desired: map<string, string>)
    requires forall d :: d in E ==> Read(t.desired, d) == Read(desired, d)
    requires forall d :: d in E && Read(desired, d) != "" ==>
               Read(t.running, d) == spec.configHash && !BootLoops(spec, t, d)
    ensures |UpdatedOf(spec, t, E)| == |HealthyOf(spec, t, E)| == Written(E, desired)
    ensures FailedOf(spec, t, E) == []
  {
    if E != [] {
      assert E == E[..|E| - 1] + [E[|E| - 1]];
      GoodCounts(spec, t, E[..|E| - 1], desired);
    }
  }

  lemma {:induction false} WrittenGrows(E: seq<string>, desired: map<string, string>, devices: seq<string>,
                                        value: string, d: string)
    requires value != "" && d in devices && Read(desired, d) == ""
    ensures Written(E, Write(desired, devices, value)) >= Written(E, desired) + if d in E then 1 else 0
  {
    if E != [] {
      var init, e := E[..|E| - 1], E[|E| - 1];
      assert E == init + [e];
      WrittenGrows(init, desired, devices, value, d);
      WriteMeans(desired, devices, value, e);
    }
  }

  lemma {:induction false} AllAccepted(devices: seq<string>, rejects: set<string>)
    requires forall d :: d in devices ==> d !in rejects
    ensures Accepted(devices, rejects) == devices
  {
    if devices != [] {
      assert devices == devices[..|devices| - 1] + [devices[|devices| - 1]];
      AllAccepted(devices[..|devices| - 1], rejects);
    }
  }

  /** With a budget and devices left over, some device not yet updated is picked, and it is accepted. */
  lemma SomePick(spec: RolloutSpec, t: Tick, E: seq<string>, budget: int) returns (d: string)
    requires budget >= 1 && |UpdatedOf(spec, t, E)| < |E|
    requires forall d :: d in E ==> d !in t.rejects
    ensures d in E && d in Accepted(NextDevices(E, SetOf(UpdatedOf(spec, t, E)), budget), t.rejects)
    ensures Read(t.desired, d) == ""
  {
    var updated := UpdatedOf(spec, t, E);
    var next := NextDevices(E, SetOf(updated), budget);
    PicksAreNear(E, SetOf(updated), budget);
    UpdatedCounted(spec, t, E);
    AllAccepted(next, t.rejects);
    d := next[0];
    assert d in next;
    UpdatedMeans(spec, t, E, d);
  }

  /** A good reconcile below completion writes at least one more device. */
  lemma GoodAdvance(spec: RolloutSpec, s: Status, t: Tick, E: seq<string>, desired: map<string, string>)
    requires forall d :: d in E ==> d !in t.rejects && Read(t.desired, d) == Read(desired, d)
    requires forall d :: d in E && Read(desired, d) != "" ==>
               Read(t.running, d) == spec.configHash && !BootLoops(spec, t, d)
    requires Written(E, desired) < |E|
    ensures Written(E, Write(desired, Advance(spec, s, t, E, -1).dispatched, Payload(spec))) > Written(E, desired)
  {
    GoodCounts(spec, t, E, desired);
    var n := Written(E, desired);
    AllowanceExceedsHealthy(spec, |E|, n);
    var budget := BudgetFor(spec, CurrentStep(spec, |E|, n).1, n, -1);
    var d := SomePick(spec, t, E, budget);
    var dispatched := Accepted(NextDevices(E, SetOf(UpdatedOf(spec, t, E)), budget), t.rejects);
    assert Advance(spec, s, t, E, -1).dispatched == dispatched;
    WrittenGrows(E, desired, dispatched, Payload(spec), d);
  }

  /** An open, unlimited decision always lets a live rollout through. */
  lemma OpenUnlimited(spec: RolloutSpec, s: Status, t: Tick, plan: Plan, d: Decision) returns (s': Status)
    requires !spec.paused && !Terminal(s) && d.open && d.maxDevices <= 0
    ensures Steer(spec, s, t, plan, d) == Proceed(spec, s', t, plan.eligible, -1)
  {
    s' := Apply(Planned(s, t, plan), d, t.now).status;
  }

  lemma GoodProceed(spec: RolloutSpec, s: Status, t: Tick, E: seq<string>, desired: map<string, string>)
    requires E != []
    requires forall d :: d in E ==> d !in t.rejects && Read(t.desired, d) == Read(desired, d)
    requires forall d :: d in E && Read(desired, d) != "" ==>
               Read(t.running, d) == spec.configHash && !BootLoops(spec, t, d)
    ensures var r := Proceed(spec, s, t, E, -1);
            if Written(E, desired) == |E| then r.status.phase.Complete?
            else !Terminal(r.status) &&
                 Written(E, Write(desired, r.dispatched, Payload(spec))) > Written(E, desired)
  {
    GoodCounts(spec, t, E, desired);
    if Written(E, desired) < |E| {
      var s' := ProceedAdvances(spec, s, t, E, -1);
      GoodAdvance(spec, s', t, E, desired);
      AdvanceIsLive(spec, s', t, E, -1);
    } else {
      ProceedCompletes(spec, s, t, E, -1);
    }
  }

  lemma AdvanceIsLive(spec: RolloutSpec, s: Status, t: Tick, E: seq<string>, windowBudget: int)
    ensures !Terminal(Advance(spec, s, t, E, windowBudget).status)
  {
  }

  lemma ProceedAdvances(spec: RolloutSpec, s: Status, t: Tick, E: seq<string>, windowBudget: int) returns (s': Status)
    requires FailedOf(spec, t, E) == [] && |HealthyOf(spec, t, E)| < |E|
    ensures Proceed(spec, s, t, E, windowBudget) == Advance(spec, s', t, E, windowBudget)
  {
    s' := s.(updated := |UpdatedOf(spec, t, E)|, healthy := |HealthyOf(spec, t, E)|, failed := []);
  }

  lemma GoodStep(spec: RolloutSpec, w: World, t: Tick, E: seq<string>)
    requires E != [] && !spec.paused && !Terminal(w.status) && GoodTick(spec, w, t, E)
    ensures var v := Next(spec, w, t);
            if Written(E, w.desired) == |E| then v.status.phase.Complete?
            else !Terminal(v.status) && Written(E, v.desired) > Written(E, w.desired)
  {
    var s' := OpenUnlimited(spec, w.status, t, PlanFor(spec, t), DecisionFor(t));
    GoodProceed(spec, s', t, E, w.desired);
  }

  /** Complete, or live with at least `n` devices written. */
  ghost predicate Progressed(v: World, E: seq<string>, n: nat) {
    v.status.phase.Complete? || (!Terminal(v.status) && Written(E, v.desired) >= n)
  }

  lemma NextProgresses(spec: RolloutSpec, v: World, t: Tick, E: seq<string>, n: nat)
    requires E != [] && !spec.paused && GoodTick(spec, v, t, E) && Progressed(v, E, n)
    ensures Progressed(Next(spec, v, t), E, n + 1)
  {
    if !Terminal(v.status) {
      GoodStep(spec, v, t, E);
    }
  }

  lemma StepProgresses(spec: RolloutSpec, w: World, ts: seq<Tick>, E: seq<string>, i: nat)
    requires i < |ts| && E != [] && !spec.paused
    requires GoodTick(spec, Run(spec, w, ts[..i]), ts[i], E) && Progressed(Run(spec, w, ts[..i]), E, i)
    ensures Progressed(Run(spec, w, ts[..i + 1]), E, i + 1)
  {
    OneStep(spec, w, ts, i);
    NextProgresses(spec, Run(spec, w, ts[..i]), ts[i], E, i);
  }

  lemma {:induction false} ProgressSoFar(spec: RolloutSpec, w: World, ts: seq<Tick>, E: seq<string>, n: nat)
    requires n <= |ts| && E != [] && !spec.paused && !Terminal(w.status) && GoodRun(spec, w, ts, E)
    ensures Progressed(Run(spec, w, ts[..n]), E, n)
  {
    if n > 0 {
      ProgressSoFar(spec, w, ts, E, n - 1);
      StepProgresses(spec, w, ts, E, n - 1);
    }
  }

  /** In a cooperative world a rollout over a non-empty fleet completes within |E| + 1 reconciles,
      for every step list, canary and concurrency limit. */
  lemma CompletesInTime(spec: RolloutSpec, s: Status, desired: map<string, string>, ts: seq<Tick>, E: seq<string>)
    requires E != [] && !spec.paused && !Terminal(s)
    requires GoodRun(spec, Start(s, desired), ts, E)
    requires |ts| >= |E| + 1
    ensures Run(spec, Start(s, desired), ts).status.phase.Complete?
  {
    ProgressSoFar(spec, Start(s, desired), ts, E, |ts|);
    assert ts[..|ts|] == ts;
  }
}
