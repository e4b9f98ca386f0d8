/** How many devices a rollout touches before its canary is healthy: exactly when the cap holds. */
module CanaryRuns {
  import opened Prelude
  import opened Planner
  import opened RolloutApi
  import opened Compose
  import opened Rollout
  import opened RolloutRuns

  /** The devices that have been told to run something. */
  function Holding(desired: map<string, string>): (W: set<string>) {
    set d | d in desired && desired[d] != ""
  }

  lemma WriteHolds(desired: map<string, string>, devices: seq<string>, value: string)
    requires value != ""
    ensures Holding(Write(desired, devices, value)) == Holding(desired) + SetOf(devices)
  {
    forall d
      ensures d in Holding(Write(desired, devices, value)) <==> d in Holding(desired) + SetOf(devices)
    {
      WriteMeans(desired, devices, value, d);
    }
  }

  // --- counting picks ---------------------------------------------------------------------------------

  lemma {:induction false} CountAtLeast(E: seq<string>, done: set<string>)
    ensures |SetOf(E) * done| <= CountIn(E, done)
  {
    if E != [] {
      var init, d := E[..|E| - 1], E[|E| - 1];
      assert E == init + [d];
      CountAtLeast(init, done);
      if d in done {
        assert SetOf(E) * done == SetOf(init) * done + {d};
      } else {
        assert SetOf(E) * done == SetOf(init) * done;
      }
    }
  }

  lemma {:induction false} PicksAreDistinct(E: seq<string>, done: set<string>, budget: int)
    requires Distinct(E)
    ensures Distinct(NextDevices(E, done, budget))
    ensures forall d :: d in NextDevices(E, done, budget) ==> d in E
  {
    if E != [] {
      var init, d := E[..|E| - 1], E[|E| - 1];
      assert E == init + [d];
      PicksAreDistinct(init, done, budget);
      var r := NextDevices(init, done, budget);
      assert (r + [d])[..|r|] == r;
    }
  }

  lemma {:induction false} DistinctSize(s: seq<string>)
    requires Distinct(s)
    ensures |SetOf(s)| == |s|
  {
    if s != [] {
      var init, d := s[..|s| - 1], s[|s| - 1];
      DistinctSize(init);
      assert s == init + [d];
      assert SetOf(s) == SetOf(init) + {d};
    }
  }

  /** Everything written is still eligible, or the whole list fits under the canary anyway. */
  predicate Fits(W: set<string>, E: seq<string>, canary: int) {
    W <= SetOf(E) || |W + SetOf(E)| <= canary
  }

  lemma FewPicks(E: seq<string>, W: set<string>, picks: seq<string>, counted: nat, canary: int)
    requires Fits(W, E, canary) && |W| <= canary
    requires |SetOf(E) * W| <= counted && |picks| <= Max(0, canary - counted) && SetOf(picks) <= SetOf(E)
    ensures |W + SetOf(picks)| <= canary
  {
    SetOfIsSmall(picks);
    if W <= SetOf(E) {
      assert SetOf(E) * W == W;
    } else {
      SubsetIsSmaller(W + SetOf(picks), W + SetOf(E));
    }
  }

  lemma HeldIsFewer(E: seq<string>, W: set<string>)
    requires !(W <= SetOf(E))
    ensures |SetOf(E) * W| < |W|
  {
    var x :| x in W && x !in SetOf(E);
    SubsetIsSmaller(SetOf(E) * W, W - {x});
  }

  lemma ManyPicks(E: seq<string>, W: set<string>, picks: seq<string>, counted: nat, canary: int)
    requires !Fits(W, E, canary) && counted < |W| && |SetOf(picks)| == |picks| && SetOf(picks) !! W
    requires |picks| == canary - counted || W + SetOf(picks) == W + SetOf(E)
    ensures |W + SetOf(picks)| > canary
  {
  }

  // --- one reconcile -------------------------------------------------------------------------------------

  /** What the reconcile reads about a device it may write is what is stored. */
  ghost predicate ReadsFresh(t: Tick, E: seq<string>, W: set<string>) {
    forall d :: d in E ==> (Read(t.desired, d) != "" <==> d in W)
  }

  lemma UpdatedIsHeld(spec: RolloutSpec, t: Tick, E: seq<string>, W: set<string>)
    requires ReadsFresh(t, E, W)
    ensures SetOf(UpdatedOf(spec, t, E)) == SetOf(E) * W
    ensures |SetOf(E) * W| <= |UpdatedOf(spec, t, E)|
  {
    forall d
      ensures d in SetOf(UpdatedOf(spec, t, E)) <==> d in SetOf(E) * W
    {
      UpdatedMeans(spec, t, E, d);
    }
    UpdatedCounted(spec, t, E);
    CountAtLeast(E, SetOf(E) * W);
    assert SetOf(E) * (SetOf(E) * W) == SetOf(E) * W;
  }

  lemma DistinctlyHeld(spec: RolloutSpec, t: Tick, E: seq<string>, W: set<string>)
    requires ReadsFresh(t, E, W) && Distinct(E)
    ensures SetOf(UpdatedOf(spec, t, E)) == SetOf(E) * W
    ensures |UpdatedOf(spec, t, E)| == |SetOf(UpdatedOf(spec, t, E))|
  {
    UpdatedIsHeld(spec, t, E, W);
    UpdatedCounted(spec, t, E);
    CountIsSmall(E, SetOf(E) * W);
  }

  lemma AcceptedIsShorter(devices: seq<string>, rejects: set<string>)
    ensures SetOf(Accepted(devices, rejects)) <= SetOf(devices)
  {
    forall d | d in Accepted(devices, rejects)
      ensures d in devices
    {
      AcceptedMeans(devices, rejects, d);
    }
  }

  lemma PicksFrom(E: seq<string>, done: set<string>, budget: int)
    ensures SetOf(NextDevices(E, done, budget)) <= SetOf(E) && SetOf(NextDevices(E, done, budget)) !! done
  {
    PicksAreNear(E, done, budget);
  }

  lemma PicksWithin(E: seq<string>, done: set<string>, budget: int, rejects: set<string>)
    requires budget >= 0
    ensures var devices := Accepted(NextDevices(E, done, budget), rejects);
            |devices| <= budget && SetOf(devices) <= SetOf(E)
  {
    PicksFrom(E, done, budget);
    PicksAreNear(E, done, budget);
    AcceptedIsShorter(NextDevices(E, done, budget), rejects);
  }

  lemma WithinAllowance(spec: RolloutSpec, t: Tick, E: seq<string>, allowed: int, windowBudget: int, n: nat)
    requires n == |UpdatedOf(spec, t, E)|
    ensures var dispatched := Dispatches(spec, t, E, allowed, windowBudget);
            |dispatched| <= Max(0, allowed - n) && SetOf(dispatched) <= SetOf(E)
  {
    if n < allowed {
      PicksWithin(E, SetOf(UpdatedOf(spec, t, E)), BudgetFor(spec, allowed, n, windowBudget), t.rejects);
    }
  }

  /** Out of the canary's allowance, whatever else limits the reconcile. */
  lemma DispatchesFit(spec: RolloutSpec, t: Tick, E: seq<string>, windowBudget: int, W: set<string>)
    requires |SetOf(E) * W| <= |UpdatedOf(spec, t, E)| && |W| <= spec.canary && Fits(W, E, spec.canary)
    ensures |W + SetOf(Dispatches(spec, t, E, spec.canary, windowBudget))| <= spec.canary
  {
    WithinAllowance(spec, t, E, spec.canary, windowBudget, |UpdatedOf(spec, t, E)|);
    FewPicks(E, W, Dispatches(spec, t, E, spec.canary, windowBudget), |UpdatedOf(spec, t, E)|, spec.canary);
  }

  /** When nothing else limits the reconcile, the allowance's remainder is written. */
  lemma WholeRemainder(spec: RolloutSpec, t: Tick, E: seq<string>, allowed: int, updated: seq<string>)
    requires updated == UpdatedOf(spec, t, E) && |updated| < allowed
    requires spec.maxConcurrent <= 0 && t.rejects == {}
    ensures Dispatches(spec, t, E, allowed, -1) == NextDevices(E, SetOf(updated), allowed - |updated|)
  {
    AllAccepted(NextDevices(E, SetOf(updated), allowed - |updated|), {});
  }

  lemma PicksExceed(E: seq<string>, W: set<string>, held: set<string>, n: nat, canary: int)
    requires Distinct(E) && |W| <= canary && !Fits(W, E, canary) && held == SetOf(E) * W && n == |held|
    ensures n < canary && |W + SetOf(NextDevices(E, held, canary - n))| > canary
  {
    HeldIsFewer(E, W);
    var picks := NextDevices(E, held, canary - n);
    PicksFrom(E, held, canary - n);
    assert SetOf(picks) !! W;
    PicksAreDistinct(E, held, canary - n);
    DistinctSize(picks);
    AllOrBudget(E, W, canary - n);
    ManyPicks(E, W, picks, n, canary);
  }

  lemma DispatchesExceed(spec: RolloutSpec, t: Tick, E: seq<string>, W: set<string>, updated: seq<string>)
    requires updated == UpdatedOf(spec, t, E) && spec.maxConcurrent <= 0 && t.rejects == {} && |updated| < spec.canary
    requires |W + SetOf(NextDevices(E, SetOf(updated), spec.canary - |updated|))| > spec.canary
    ensures |W + SetOf(Dispatches(spec, t, E, spec.canary, -1))| > spec.canary
  {
    WholeRemainder(spec, t, E, spec.canary, updated);
  }

  /** A budget that is not used up took every device there was. */
  lemma AllOrBudget(E: seq<string>, W: set<string>, budget: int)
    requires budget >= 0 && Distinct(E)
    ensures var picks := NextDevices(E, SetOf(E) * W, budget);
            |picks| == budget || W + SetOf(picks) == W + SetOf(E)
  {
    var done := SetOf(E) * W;
    var picks := NextDevices(E, done, budget);
    PicksAreNear(E, done, budget);
    if |picks| < budget {
      PicksFrom(E, done, budget);
      CountIsSmall(E, done);
      PicksAreDistinct(E, done, budget);
      DistinctSize(picks);
      DistinctSize(E);
      AllTaken(SetOf(E), done, SetOf(picks), W);
    }
  }

  lemma AllTaken(all: set<string>, done: set<string>, taken: set<string>, W: set<string>)
    requires done == all * W && taken <= all && taken !! done && |done| + |taken| >= |all|
    ensures W + taken == W + all
  {
    SameSize(done + taken, all);
    assert W + taken == W + (done + taken);
  }

  lemma SameSize(a: set<string>, b: set<string>)
    requires a <= b && |a| >= |b|
    ensures a == b
  {
    if x :| x in b && x !in a {
      SubsetIsSmaller(a, b - {x});
      assert false;
    }
  }

  lemma FreshFits(spec: RolloutSpec, t: Tick, E: seq<string>, windowBudget: int, W: set<string>)
    requires ReadsFresh(t, E, W) && |W| <= spec.canary && Fits(W, E, spec.canary)
    ensures |W + SetOf(Dispatches(spec, t, E, spec.canary, windowBudget))| <= spec.canary
  {
    UpdatedIsHeld(spec, t, E, W);
    DispatchesFit(spec, t, E, windowBudget, W);
  }

  lemma CountedExceed(E: seq<string>, W: set<string>, updated: seq<string>, canary: int)
    requires Distinct(E) && SetOf(updated) == SetOf(E) * W && |updated| == |SetOf(updated)|
    requires |W| <= canary && !Fits(W, E, canary)
    ensures |updated| < canary && |W + SetOf(NextDevices(E, SetOf(updated), canary - |updated|))| > canary
  {
    PicksExceed(E, W, SetOf(updated), |updated|, canary);
  }

  lemma HeldExceeds(spec: RolloutSpec, t: Tick, E: seq<string>, W: set<string>, updated: seq<string>)
    requires updated == UpdatedOf(spec, t, E) && Distinct(E) && spec.maxConcurrent <= 0 && t.rejects == {}
    requires SetOf(updated) == SetOf(E) * W && |updated| == |SetOf(updated)|
    requires |W| <= spec.canary && !Fits(W, E, spec.canary)
    ensures |W + SetOf(Dispatches(spec, t, E, spec.canary, -1))| > spec.canary
  {
    CountedExceed(E, W, updated, spec.canary);
    DispatchesExceed(spec, t, E, W, updated);
  }

  lemma FreshExceeds(spec: RolloutSpec, t: Tick, E: seq<string>, W: set<string>)
    requires ReadsFresh(t, E, W) && Distinct(E) && spec.maxConcurrent <= 0 && t.rejects == {}
    requires |W| <= spec.canary && !Fits(W, E, spec.canary)
    ensures |W + SetOf(Dispatches(spec, t, E, spec.canary, -1))| > spec.canary
  {
    DistinctlyHeld(spec, t, E, W);
    HeldExceeds(spec, t, E, W, UpdatedOf(spec, t, E));
  }

  // --- the cap ------------------------------------------------------------------------------------------

  /** A reconcile that gets past every gate to the devices, finds too few failures to stop, and fewer
      healthy than the canary. */
  ghost predicate Opens(spec: RolloutSpec, s: Status, t: Tick, plan: Plan, d: Decision) {
    && Observes(spec, s, t, plan, d)
    && |FailedOf(spec, t, plan.eligible)| < FailureTolerance(spec)
    && |HealthyOf(spec, t, plan.eligible)| < spec.canary
  }

  /** Nothing but the canary limits how much is written. */
  ghost predicate Unlimited(spec: RolloutSpec, t: Tick, d: Decision) {
    spec.maxConcurrent <= 0 && d.maxDevices <= 0 && t.rejects == {}
  }

  /** Past the gates, and with the canary not yet healthy, the canary is the allowance. */
  lemma SteerDispatches(spec: RolloutSpec, s: Status, t: Tick, plan: Plan, d: Decision) returns (budget: int)
    requires Observes(spec, s, t, plan, d) && |HealthyOf(spec, t, plan.eligible)| < spec.canary
    ensures d.maxDevices <= 0 ==> budget == -1
    ensures var E := plan.eligible;
            Steer(spec, s, t, plan, d).dispatched ==
            if |FailedOf(spec, t, E)| < FailureTolerance(spec) && |HealthyOf(spec, t, E)| < |E|
            then Dispatches(spec, t, E, spec.canary, budget) else []
  {
    budget := Apply(Planned(s, t, plan), d, t.now).budget;
  }

  /** A fleet that is all healthy has all been written. */
  lemma HealthyFits(spec: RolloutSpec, t: Tick, E: seq<string>, W: set<string>)
    requires ReadsFresh(t, E, W) && |HealthyOf(spec, t, E)| >= |E| && |W| <= spec.canary
    ensures Fits(W, E, spec.canary)
  {
    CountsAreDisjoint(spec, t, E);
    assert W + SetOf(E) == W;
  }

  /** One reconcile keeps the cap whenever everything written so far is still eligible, or the eligible list
      fits under the canary with it, whatever gates, limits and failures it meets. */
  lemma CapIsKept(spec: RolloutSpec, s: Status, t: Tick, plan: Plan, d: Decision, W: set<string>)
    requires ReadsFresh(t, plan.eligible, W) && |W| <= spec.canary && Fits(W, plan.eligible, spec.canary)
    requires Observed(spec, s, t, plan, d) < spec.canary
    ensures |W + SetOf(Steer(spec, s, t, plan, d).dispatched)| <= spec.canary
  {
    if Observes(spec, s, t, plan, d) {
      var budget := SteerDispatches(spec, s, t, plan, d);
      FreshFits(spec, t, plan.eligible, budget, W);
    }
    assert W + SetOf([]) == W;
  }

  /** And a reconcile that nothing else limits keeps it only then. */
  lemma CapIsKeptExactly(spec: RolloutSpec, s: Status, t: Tick, plan: Plan, d: Decision, W: set<string>)
    requires ReadsFresh(t, plan.eligible, W) && |W| <= spec.canary && Distinct(plan.eligible)
    requires Opens(spec, s, t, plan, d) && Unlimited(spec, t, d)
    ensures |W + SetOf(Steer(spec, s, t, plan, d).dispatched)| <= spec.canary <==>
            Fits(W, plan.eligible, spec.canary)
  {
    var E := plan.eligible;
    if Fits(W, E, spec.canary) {
      CapIsKept(spec, s, t, plan, d, W);
    } else if |HealthyOf(spec, t, E)| >= |E| {
      HealthyFits(spec, t, E, W);
    } else {
      var budget := SteerDispatches(spec, s, t, plan, d);
      FreshExceeds(spec, t, E, W);
    }
  }

  /** The cap of one reconcile of a run: after it, at most canary devices have been told to run anything. */
  ghost predicate Capped(spec: RolloutSpec, w: World) {
    |Holding(w.desired)| <= spec.canary
  }

  /** Before reconcile `t` in world `v`: reads are fresh, and what was written fits the eligible list. */
  ghost predicate Fresh(spec: RolloutSpec, v: World, t: Tick) {
    ReadsFresh(t, PlanFor(spec, t).eligible, Holding(v.desired))
  }

  ghost predicate Contained(spec: RolloutSpec, v: World, t: Tick) {
    Fits(Holding(v.desired), PlanFor(spec, t).eligible, spec.canary)
  }

  lemma NextHolds(spec: RolloutSpec, v: World, t: Tick)
    ensures Holding(Next(spec, v, t).desired) == Holding(v.desired) + SetOf(ReconcileAt(spec, v, t).dispatched)
    ensures Next(spec, v, t).peak >= v.peak
    ensures Next(spec, v, t).peak >= Observed(spec, v.status, t, PlanFor(spec, t), DecisionFor(t))
  {
    WriteHolds(v.desired, ReconcileAt(spec, v, t).dispatched, Payload(spec));
  }

  lemma NextIsCapped(spec: RolloutSpec, v: World, t: Tick)
    requires Capped(spec, v) && Fresh(spec, v, t) && Contained(spec, v, t) && Next(spec, v, t).peak < spec.canary
    ensures Capped(spec, Next(spec, v, t))
  {
    NextHolds(spec, v, t);
    CapIsKept(spec, v.status, t, PlanFor(spec, t), DecisionFor(t), Holding(v.desired));
  }

  lemma PeakGrows(spec: RolloutSpec, w: World, ts: seq<Tick>, i: nat)
    requires i <= |ts|
    ensures Run(spec, w, ts[..i]).peak <= Run(spec, w, ts).peak
    decreases |ts| - i
  {
    if i < |ts| {
      PeakGrows(spec, w, ts, i + 1);
      OneStep(spec, w, ts, i);
      NextHolds(spec, Run(spec, w, ts[..i]), ts[i]);
    } else {
      assert ts[..i] == ts;
    }
  }

  lemma StepIsCapped(spec: RolloutSpec, w: World, ts: seq<Tick>, i: nat)
    requires i < |ts| && Capped(spec, Run(spec, w, ts[..i])) && Run(spec, w, ts).peak < spec.canary
    requires Fresh(spec, Run(spec, w, ts[..i]), ts[i]) && Contained(spec, Run(spec, w, ts[..i]), ts[i])
    ensures Capped(spec, Run(spec, w, ts[..i + 1]))
  {
    PeakGrows(spec, w, ts, i + 1);
    OneStep(spec, w, ts, i);
    NextIsCapped(spec, Run(spec, w, ts[..i]), ts[i]);
  }

  lemma {:induction false} CappedUpTo(spec: RolloutSpec, w: World, ts: seq<Tick>, n: nat)
    requires n <= |ts| && Capped(spec, w) && Run(spec, w, ts).peak < spec.canary
    requires forall i :: 0 <= i < n ==> Fresh(spec, Run(spec, w, ts[..i]), ts[i])
    requires forall i :: 0 <= i < n ==> Contained(spec, Run(spec, w, ts[..i]), ts[i])
    ensures Capped(spec, Run(spec, w, ts[..n]))
  {
    if n > 0 {
      CappedUpTo(spec, w, ts, n - 1);
      StepIsCapped(spec, w, ts, n - 1);
    }
  }

  /** Over any run with fresh reads in which every eligible list contains what was written before it, or fits
      under the canary with it: until as many devices as the canary are healthy, no more have been told to
      run anything. Fleets may grow and shrink; windows, limits and failures are arbitrary. */
  lemma CanaryHolds(spec: RolloutSpec, w: World, ts: seq<Tick>)
    requires Capped(spec, w) && Run(spec, w, ts).peak < spec.canary
    requires forall i :: 0 <= i < |ts| ==> Fresh(spec, Run(spec, w, ts[..i]), ts[i])
    requires forall i :: 0 <= i < |ts| ==> Contained(spec, Run(spec, w, ts[..i]), ts[i])
    ensures Capped(spec, Run(spec, w, ts))
  {
    CappedUpTo(spec, w, ts, |ts|);
    assert ts[..|ts|] == ts;
  }

  lemma {:induction false} LogIsHeld(spec: RolloutSpec, w: World, ts: seq<Tick>)
    requires SetOf(w.log) <= Holding(w.desired)
    ensures SetOf(Run(spec, w, ts).log) <= Holding(Run(spec, w, ts).desired)
  {
    if ts != [] {
      var v := Run(spec, w, ts[..|ts| - 1]);
      LogIsHeld(spec, w, ts[..|ts| - 1]);
      NextHolds(spec, v, ts[|ts| - 1]);
    }
  }

  /** In particular the run itself wrote no more devices than the canary. */
  lemma CanaryWrites(spec: RolloutSpec, s: Status, desired: map<string, string>, ts: seq<Tick>)
    requires var w := Start(s, desired);
             && Capped(spec, w) && Run(spec, w, ts).peak < spec.canary
             && (forall i :: 0 <= i < |ts| ==> Fresh(spec, Run(spec, w, ts[..i]), ts[i]))
             && (forall i :: 0 <= i < |ts| ==> Contained(spec, Run(spec, w, ts[..i]), ts[i]))
    ensures |SetOf(Run(spec, Start(s, desired), ts).log)| <= spec.canary
  {
    var w := Start(s, desired);
    CanaryHolds(spec, w, ts);
    LogIsHeld(spec, w, ts);
    SubsetIsSmaller(SetOf(Run(spec, w, ts).log), Holding(Run(spec, w, ts).desired));
  }

  /** A reconcile at which nothing but the canary and the eligible list decides what is written. */
  ghost predicate Decisive(spec: RolloutSpec, v: World, t: Tick) {
    var plan, d := PlanFor(spec, t), DecisionFor(t);
    && Opens(spec, v.status, t, plan, d) && Unlimited(spec, t, d)
    && Distinct(plan.eligible) && ReadsFresh(t, plan.eligible, Holding(v.desired))
  }

  lemma NextCappedExactly(spec: RolloutSpec, v: World, t: Tick)
    requires Capped(spec, v) && Decisive(spec, v, t)
    ensures Capped(spec, Next(spec, v, t)) <==> Contained(spec, v, t)
  {
    NextHolds(spec, v, t);
    CapIsKeptExactly(spec, v.status, t, PlanFor(spec, t), DecisionFor(t), Holding(v.desired));
  }

  lemma StepCappedExactly(spec: RolloutSpec, w: World, ts: seq<Tick>, i: nat)
    requires i < |ts| && Capped(spec, Run(spec, w, ts[..i])) && Decisive(spec, Run(spec, w, ts[..i]), ts[i])
    ensures Capped(spec, Run(spec, w, ts[..i + 1])) <==> Contained(spec, Run(spec, w, ts[..i]), ts[i])
  {
    OneStep(spec, w, ts, i);
    NextCappedExactly(spec, Run(spec, w, ts[..i]), ts[i]);
  }

  lemma {:induction false} ContainedUpTo(spec: RolloutSpec, w: World, ts: seq<Tick>, n: nat)
    requires n <= |ts| && Capped(spec, w)
    requires forall i :: 0 <= i < n ==> Decisive(spec, Run(spec, w, ts[..i]), ts[i])
    requires forall i :: 0 <= i < n ==> Contained(spec, Run(spec, w, ts[..i]), ts[i])
    ensures Capped(spec, Run(spec, w, ts[..n]))
  {
    if n > 0 {
      ContainedUpTo(spec, w, ts, n - 1);
      StepCappedExactly(spec, w, ts, n - 1);
    }
  }

  /** Over a run in which every reconcile is decisive, the canary caps the devices told to run anything at
      every moment exactly when each eligible list contains what was written before it, or fits under the
      canary with it. */
  lemma CanaryHoldsExactly(spec: RolloutSpec, w: World, ts: seq<Tick>)
    requires Capped(spec, w)
    requires forall i :: 0 <= i < |ts| ==> Decisive(spec, Run(spec, w, ts[..i]), ts[i])
    ensures (forall n :: 0 <= n <= |ts| ==> Capped(spec, Run(spec, w, ts[..n]))) <==>
            (forall i :: 0 <= i < |ts| ==> Contained(spec, Run(spec, w, ts[..i]), ts[i]))
  {
    if forall i :: 0 <= i < |ts| ==> Contained(spec, Run(spec, w, ts[..i]), ts[i]) {
      forall n | 0 <= n <= |ts|
        ensures Capped(spec, Run(spec, w, ts[..n]))
      {
        ContainedUpTo(spec, w, ts, n);
      }
    }
    if forall n :: 0 <= n <= |ts| ==> Capped(spec, Run(spec, w, ts[..n])) {
      forall i | 0 <= i < |ts|
        ensures Contained(spec, Run(spec, w, ts[..i]), ts[i])
      {
        assert Capped(spec, Run(spec, w, ts[..i])) && Capped(spec, Run(spec, w, ts[..i + 1]));
        StepCappedExactly(spec, w, ts, i);
      }
    }
  }

  /** With a canary of one and a single, untouched device eligible, that device is written. */
  lemma OneDispatch(spec: RolloutSpec, t: Tick, name: string)
    requires spec.canary == 1 && spec.healthGate.None? && spec.maxConcurrent == 0
    requires t.rejects == {} && Read(t.desired, name) == ""
    ensures Dispatches(spec, t, [name], 1, -1) == [name]
    ensures HealthyOf(spec, t, [name]) == [] && FailedOf(spec, t, [name]) == []
  {
    var E := [name];
    assert E[..0] == [];
    assert UpdatedOf(spec, t, E) == [];
    assert SetOf([]) == {};
    assert NextDevices(E, {}, 1) == [name];
    assert Accepted(E, {}) == [name];
  }

  lemma OneWrite(spec: RolloutSpec, s: Status, t: Tick, plan: Plan, d: Decision, name: string)
    requires spec.canary == 1 && !spec.paused && spec.healthGate.None? && spec.maxConcurrent == 0
    requires t.rejects == {} && !Terminal(s) && d.open && d.maxDevices == 0
    requires Read(t.desired, name) == "" && plan.eligible == [name]
    ensures var r := Steer(spec, s, t, plan, d);
            r.dispatched == [name] && Observed(spec, s, t, plan, d) == 0 && !Terminal(r.status)
  {
    OneDispatch(spec, t, name);
    var s' := OpenUnlimited(spec, s, t, plan, d);
    var s'' := ProceedAdvances(spec, s', t, plan.eligible, -1);
    AdvanceIsLive(spec, s'', t, plan.eligible, -1);
  }

  lemma OneWriteNext(spec: RolloutSpec, w: World, t: Tick, name: string)
    requires spec.canary == 1 && !spec.paused && spec.healthGate.None? && spec.maxConcurrent == 0
    requires t.rejects == {} && !Terminal(w.status) && t.windows == [] && !t.lost
    requires Read(t.desired, name) == "" && PlanFor(spec, t).eligible == [name]
    ensures var v := Next(spec, w, t);
            v.log == w.log + [name] && v.peak == w.peak && !Terminal(v.status)
  {
    OneWrite(spec, w.status, t, PlanFor(spec, t), DecisionFor(t), name);
  }

  function CanaryOfOne(): (spec: RolloutSpec) {
    RolloutSpec(None, 0, "v2", "img", false, 1, [], 0, None, None)
  }

  function Device(name: string, state: State): (l: Liveness) {
    Liveness(name, state, None, None, "", "wifi")
  }

  function PlainTick(now: int, fleet: seq<Liveness>, desired: map<string, string>): (t: Tick) {
    Tick(now, fleet, [], [], desired, map[], map[], map[], {}, false)
  }

  lemma OneEligible(a: Ask, l: Liveness)
    requires a.requirements.None?
    ensures Eligible(a, [l]) == if l.state.Online? || l.state.Unset? then [l.name] else []
  {
    assert [l][..0] == [];
  }

  lemma TwoEligible(a: Ask, k: Liveness, l: Liveness)
    requires a.requirements.None? && k.state.Sleeping? && l.state.Online?
    ensures Eligible(a, [k, l]) == [l.name]
  {
    OneEligible(a, k);
    assert [k, l][..1] == [k];
  }

  /** Two reconciles, each with one untouched device eligible, write both. */
  lemma TwoWrites(spec: RolloutSpec, w: World, t1: Tick, t2: Tick, a: string, b: string)
    requires spec.canary == 1 && !spec.paused && spec.healthGate.None? && spec.maxConcurrent == 0
    requires !Terminal(w.status) && t1.windows == t2.windows == [] && !t1.lost && !t2.lost
    requires t1.rejects == t2.rejects == {} && Read(t1.desired, a) == "" && Read(t2.desired, b) == ""
    requires PlanFor(spec, t1).eligible == [a] && PlanFor(spec, t2).eligible == [b]
    ensures var v := Run(spec, w, [t1, t2]); v.peak == w.peak && v.log == w.log + [a] + [b]
  {
    OneWriteNext(spec, w, t1, a);
    OneWriteNext(spec, Next(spec, w, t1), t2, b);
    RunTwo(spec, w, t1, t2);
  }

  /** The cap is per eligible list, not per fleet. With a canary of one and nothing ever healthy, a device
      that falls asleep between two reconciles is no longer contained, and a second one is written. */
  lemma CanaryNeedsContainment(s: Status, a: string, b: string, now: int)
    requires !Terminal(s) && a != b
    ensures var spec := CanaryOfOne();
            var t1 := PlainTick(now, [Device(a, Online)], map[]);
            var t2 := PlainTick(now + 1, [Device(a, Sleeping), Device(b, Online)], map[a := Payload(spec)]);
            var w := Run(spec, Start(s, map[]), [t1, t2]);
            w.peak < spec.canary && w.log == [a, b]
  {
    var spec := CanaryOfOne();
    var t1 := PlainTick(now, [Device(a, Online)], map[]);
    var t2 := PlainTick(now + 1, [Device(a, Sleeping), Device(b, Online)], map[a := Payload(spec)]);
    assert PlanFor(spec, t1).eligible == [a] by {
      OneEligible(AskOf(spec, t1), Device(a, Online));
    }
    assert PlanFor(spec, t2).eligible == [b] by {
      TwoEligible(AskOf(spec, t2), Device(a, Sleeping), Device(b, Online));
    }
    TwoWrites(spec, Start(s, map[]), t1, t2, a, b);
  }
}
