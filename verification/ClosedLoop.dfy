/** The rollout controller and a vivarium fleet together, over every interleaving of reconciles,
    deliveries and delayed flashes. */
module ClosedLoop {
  import opened Prelude
  import opened RolloutApi
  import opened Rollout
  import opened RolloutRuns
  import opened Vivarium
  import opened Gates
  import opened Capability
  import opened Planner
  import opened Compose

  /** A device and its history: every hash it has run, every hash it has reported, and whether it
      ever reported one without running it. */
  datatype Life = Life(body: Body, ran: set<string>, said: set<string>, lied: bool)

  datatype Loop = Loop(world: World, lives: map<string, Life>)

  datatype Event =
    | Reconciles(tick: Tick)
    | Delivers(device: string, how: Behaviour, draw: real)
    | Settles(device: string, flash: nat, now: int)

  function Settle(l: Life, i: nat, now: int): (r: Life)
    requires i < |l.body.pending|
  {
    var b := TakeEffect(l.body, i, now);
    Life(b, l.ran + {b.runningHash}, l.said + {b.reportedHash},
         l.lied || l.body.pending[i].mode.FailReportsWithoutRunning?)
  }

  /** The mapper delivers whatever firmware the device is currently meant to run. */
  function Step(spec: RolloutSpec, s: Loop, e: Event): (r: Loop) {
    match e
    case Reconciles(t) => s.(world := Next(spec, s.world, t))
    case Delivers(d, how, draw) =>
      if d in s.lives && Read(s.world.desired, d) != "" then
        s.(lives := s.lives[d := s.lives[d].(body := OnCommand(s.lives[d].body, Read(s.world.desired, d), how, draw))])
      else s
    case Settles(d, i, now) =>
      if d in s.lives && i < |s.lives[d].body.pending| then
        s.(lives := s.lives[d := Settle(s.lives[d], i, now)])
      else s
  }

  function Play(spec: RolloutSpec, s: Loop, es: seq<Event>): (r: Loop) {
    if es == [] then s else Step(spec, Play(spec, s, es[..|es| - 1]), es[|es| - 1])
  }

  function Newborn(hash: string): (l: Life) {
    Life(Body(hash, hash, 0, false, None, []), {hash}, {hash}, false)
  }

  /** Nothing dispatched, nothing in flight: each device runs and reports what it was built with. */
  ghost predicate Opening(s: Loop) {
    && s.world.log == [] && s.world.peak == 0
    && forall d :: d in s.lives ==>
         Read(s.world.desired, d) == "" && exists h :: s.lives[d] == Newborn(h)
  }

  // --- honesty ----------------------------------------------------------------------------------

  ghost predicate Honest(l: Life) {
    && l.body.runningHash in l.ran && l.body.reportedHash in l.said
    && (!l.lied ==> l.body.runningHash == l.body.reportedHash && l.said <= l.ran)
  }

  lemma SettleKeepsHonest(l: Life, i: nat, now: int)
    requires Honest(l) && i < |l.body.pending|
    ensures Honest(Settle(l, i, now))
  {
  }

  lemma {:induction false} EveryoneHonest(spec: RolloutSpec, s: Loop, es: seq<Event>)
    requires Opening(s)
    ensures var r := Play(spec, s, es);
            r.lives.Keys == s.lives.Keys && forall d :: d in r.lives ==> Honest(r.lives[d])
  {
    if es != [] {
      var e := es[|es| - 1];
      var q := Play(spec, s, es[..|es| - 1]);
      EveryoneHonest(spec, s, es[..|es| - 1]);
      if e.Settles? && e.device in q.lives && e.flash < |q.lives[e.device].body.pending| {
        SettleKeepsHonest(q.lives[e.device], e.flash, e.now);
      }
    }
  }

  /** A completing reconcile in the loop. Its reads may be old: it is enough that each hash it read
      was reported at some time. Then every eligible device that never lied has run the wanted
      firmware; and where the read is the device's present report, it is running it now. */
  lemma CompleteMeansRunning(spec: RolloutSpec, s: Loop, es: seq<Event>, t: Tick, e: string)
    requires Opening(s)
    requires var w := Play(spec, s, es).world;
             !Terminal(w.status) && ReconcileAt(spec, w, t).status.phase.Complete?
    requires e in PlanFor(spec, t).eligible && e in s.lives
    ensures e in Play(spec, s, es).lives
    ensures var l := Play(spec, s, es).lives[e];
            && (!l.lied && Read(t.running, e) in l.said ==> spec.configHash in l.ran)
            && (!l.lied && Read(t.running, e) == l.body.reportedHash ==> l.body.runningHash == spec.configHash)
  {
    EveryoneHonest(spec, s, es);
    var w := Play(spec, s, es).world;
    CompleteIsSound(spec, w.status, t, PlanFor(spec, t), DecisionFor(t));
  }

  /** The exception is real: a device in that one mode passes the gate while running the old hash. */
  lemma LiarPasses(built: string, want: string)
    requires built != want && '|' !in want
    ensures var l := Newborn(built);
            var liar := Behaviour(FailReportsWithoutRunning, 0.0, None);
            var told := l.(body := OnCommand(l.body, want + "|" + "img", liar, 0.0));
            && |told.body.pending| == 1
            && var after := Settle(told, 0, 0);
               after.body.reportedHash == want && after.body.runningHash == built && after.lied
  {
    HashRoundTrip(want, "img");
  }

  // --- what the gate catches ------------------------------------------------------------------------

  /** A freshly built device after one delivery of the wanted firmware and its flash. */
  function Flashed(spec: RolloutSpec, built: string, how: Behaviour, draw: real, now: int): (l: Life)
    requires '|' !in spec.configHash && built != spec.configHash
  {
    var told := Newborn(built).(body := OnCommand(Newborn(built).body, Payload(spec), how, draw));
    HashRoundTrip(spec.configHash, spec.package);
    Settle(told, 0, now)
  }

  /** The reconcile reads what the device reports. */
  ghost predicate ReadsLife(t: Tick, d: string, l: Life) {
    && Read(t.desired, d) != "" && Read(t.running, d) == l.body.reportedHash
    && (if d in t.boots then t.boots[d] else 0) == l.body.bootCount
  }

  /** A boot loop is caught exactly by a threshold between one and four boots, and an honest flash by none. */
  lemma BootLoopIsCaught(spec: RolloutSpec, built: string, how: Behaviour, draw: real, now: int, t: Tick,
                         E: seq<string>, d: string)
    requires '|' !in spec.configHash && built != spec.configHash && d in E
    requires spec.healthGate.Some? && spec.rollbackOn.Some?
    requires ReadsLife(t, d, Flashed(spec, built, how, draw, now))
    ensures var caught := DeviceOutcome(d, BootLoopDetected) in FailedOf(spec, t, E);
            var mode := ModeFor(how, spec.configHash, draw);
            && (mode.FailBootLoop? ==> (caught <==> 1 <= spec.rollbackOn.value.bootLoopThreshold <= 4))
            && (mode.FailNone? ==> !caught)
  {
    var mode := ModeFor(how, spec.configHash, draw);
    HashRoundTrip(spec.configHash, spec.package);
    if mode.FailBootLoop? || mode.FailNone? {
      BootsDecide(spec, t, E, d);
    }
  }

  /** And then the rollout stops, if one failure is enough. */
  lemma BootLoopStops(spec: RolloutSpec, built: string, how: Behaviour, draw: real, now: int, s: Status, t: Tick,
                      plan: Plan, d: Decision, device: string)
    requires '|' !in spec.configHash && built != spec.configHash && device in plan.eligible
    requires spec.healthGate.Some? && spec.rollbackOn.Some? && spec.rollbackOn.value.healthGateFailures <= 1
    requires 1 <= spec.rollbackOn.value.bootLoopThreshold <= 4 && ModeFor(how, spec.configHash, draw).FailBootLoop?
    requires ReadsLife(t, device, Flashed(spec, built, how, draw, now)) && Observes(spec, s, t, plan, d)
    ensures Steer(spec, s, t, plan, d).status.phase.Paused? && Steer(spec, s, t, plan, d).dispatched == []
  {
    BootLoopIsCaught(spec, built, how, draw, now, t, plan.eligible, device);
    FailedMeans(spec, t, plan.eligible, DeviceOutcome(device, BootLoopDetected));
    FailingIsCounted(spec, t, plan.eligible, device);
    StopLaw(spec, s, t, plan, d);
  }

  /** A brick, or a device that ignores the write, is caught by the deadline alone, at every instant after it. */
  lemma BrickIsCaught(spec: RolloutSpec, built: string, how: Behaviour, draw: real, now: int, t: Tick,
                      E: seq<string>, d: string, deadline: int)
    requires '|' !in spec.configHash && built != spec.configHash && d in E
    requires ModeFor(how, spec.configHash, draw).FailBricks? || ModeFor(how, spec.configHash, draw).FailIgnores?
    requires spec.healthGate == Some(HealthGate(Some(deadline))) && d in t.dispatchedAt
    requires ReadsLife(t, d, Flashed(spec, built, how, draw, now))
    ensures DeviceOutcome(d, HealthGateFailed) in FailedOf(spec, t, E) <==> t.now > t.dispatchedAt[d] + deadline
  {
    HashRoundTrip(spec.configHash, spec.package);
    DeadlineDecides(spec, t, E, d, t.dispatchedAt[d], deadline);
  }

  // --- the physical blast radius ------------------------------------------------------------------

  /** Untouched by the controller: as it was built. */
  ghost predicate Untouched(l: Life) {
    l.body.pending == [] && l.ran == {l.body.runningHash} && !l.lied && l.body.bootCount == 0 && !l.body.bricked
  }

  ghost predicate OnlyWritten(s: Loop) {
    forall d :: d in s.lives && d !in s.world.log ==> Untouched(s.lives[d]) && Read(s.world.desired, d) == ""
  }

  lemma StepKeepsOnlyWritten(spec: RolloutSpec, s: Loop, e: Event)
    requires OnlyWritten(s)
    ensures OnlyWritten(Step(spec, s, e))
  {
    if e.Reconciles? {
      var r := ReconcileAt(spec, s.world, e.tick);
      forall d | d in s.lives && d !in s.world.log + r.dispatched
        ensures Read(Write(s.world.desired, r.dispatched, Payload(spec)), d) == ""
      {
        WriteMeans(s.world.desired, r.dispatched, Payload(spec), d);
      }
    }
  }

  lemma {:induction false} PlayKeepsOnlyWritten(spec: RolloutSpec, s: Loop, es: seq<Event>)
    requires Opening(s)
    ensures OnlyWritten(Play(spec, s, es))
  {
    if es != [] {
      PlayKeepsOnlyWritten(spec, s, es[..|es| - 1]);
      StepKeepsOnlyWritten(spec, Play(spec, s, es[..|es| - 1]), es[|es| - 1]);
    }
  }

  ghost predicate FixedFleetEvents(spec: RolloutSpec, es: seq<Event>, E: seq<string>) {
    forall i :: 0 <= i < |es| && es[i].Reconciles? ==> PlanFor(spec, es[i].tick).eligible == E
  }

  lemma {:induction false} PlayWithinRadius(spec: RolloutSpec, s: Loop, es: seq<Event>, E: seq<string>)
    requires Opening(s) && FixedFleetEvents(spec, es, E)
    ensures WithinRadius(spec, Play(spec, s, es).world, E)
  {
    if es != [] {
      var e := es[|es| - 1];
      PlayWithinRadius(spec, s, es[..|es| - 1], E);
      if e.Reconciles? {
        NextKeepsRadius(spec, Play(spec, s, es[..|es| - 1]).world, e.tick, E);
      }
    }
  }

  /** Over every interleaving: any device that has run anything but what it was built with, boots
      again, bricks or lies is one of the first Reach(peak) eligible devices. */
  lemma PhysicalRadius(spec: RolloutSpec, s: Loop, es: seq<Event>, E: seq<string>, d: string)
    requires Opening(s) && FixedFleetEvents(spec, es, E)
    requires d in Play(spec, s, es).lives && !Untouched(Play(spec, s, es).lives[d])
    ensures var w := Play(spec, s, es).world; d in E[..Reach(spec, |E|, w.peak)]
  {
    PlayKeepsOnlyWritten(spec, s, es);
    PlayWithinRadius(spec, s, es, E);
  }

  // --- progress --------------------------------------------------------------------------------------

  /** Every device of the fleet gets its delivery, and the flash it starts takes effect. */
  function Flashes(E: seq<string>, how: string -> Behaviour, draw: real, now: int): (es: seq<Event>) {
    if E == [] then [] else
      Flashes(E[..|E| - 1], how, draw, now) + [Delivers(E[|E| - 1], how(E[|E| - 1]), draw), Settles(E[|E| - 1], 0, now)]
  }

  /** Reconcile, then flash, once for each tick. */
  function Rounds(ts: seq<Tick>, E: seq<string>, how: string -> Behaviour, draw: real): (es: seq<Event>) {
    if ts == [] then [] else
      var t := ts[|ts| - 1];
      Rounds(ts[..|ts| - 1], E, how, draw) + ([Reconciles(t)] + Flashes(E, how, draw, t.now))
  }

  lemma {:induction false} PlayConcat(spec: RolloutSpec, s: Loop, xs: seq<Event>, ys: seq<Event>)
    ensures Play(spec, s, xs + ys) == Play(spec, Play(spec, s, xs), ys)
  {
    if ys == [] {
      assert xs + ys == xs;
    } else {
      var init := ys[..|ys| - 1];
      assert (xs + ys)[..|xs + ys| - 1] == xs + init;
      PlayConcat(spec, s, xs, init);
    }
  }

  /** A device between rounds: nothing in flight, never rebooted before it was written, and once written
      running and reporting the wanted firmware after at most one boot. */
  ghost predicate Settled(spec: RolloutSpec, l: Life, desired: string) {
    && l.body.pending == [] && !l.body.bricked && l.body.runningHash == l.body.reportedHash
    && if desired == "" then l.body.bootCount == 0
       else desired == Payload(spec) && l.body.bootCount <= 1 && l.body.runningHash == spec.configHash
  }

  /** The same, for a device that may have been written since and not yet flashed. */
  ghost predicate Due(spec: RolloutSpec, l: Life, desired: string) {
    Settled(spec, l, desired) || (desired == Payload(spec) && Settled(spec, l, ""))
  }

  ghost predicate AllSettled(spec: RolloutSpec, s: Loop, E: seq<string>) {
    forall d :: d in E ==> d in s.lives && Settled(spec, s.lives[d], Read(s.world.desired, d))
  }

  ghost predicate AllDue(spec: RolloutSpec, s: Loop, E: seq<string>) {
    forall d :: d in E ==> d in s.lives && Due(spec, s.lives[d], Read(s.world.desired, d))
  }

  /** Every device of the fleet takes the wanted firmware without failing. */
  ghost predicate Works(spec: RolloutSpec, E: seq<string>, how: string -> Behaviour, draw: real) {
    '|' !in spec.configHash && forall d :: d in E ==> ModeFor(how(d), spec.configHash, draw).FailNone?
  }

  lemma LifeFlash(spec: RolloutSpec, l: Life, desired: string, how: Behaviour, draw: real, now: int)
    requires '|' !in spec.configHash && ModeFor(how, spec.configHash, draw).FailNone?
    requires desired != "" && Due(spec, l, desired)
    ensures var told := l.(body := OnCommand(l.body, desired, how, draw));
            Settled(spec, if told.body.pending == [] then told else Settle(told, 0, now), desired)
  {
    HashRoundTrip(spec.configHash, spec.package);
  }

  /** Delivery and flash of one device that works as it should. */
  lemma OneFlash(spec: RolloutSpec, s: Loop, d: string, how: Behaviour, draw: real, now: int)
    requires '|' !in spec.configHash && ModeFor(how, spec.configHash, draw).FailNone?
    requires d in s.lives && Due(spec, s.lives[d], Read(s.world.desired, d))
    ensures var r := Play(spec, s, [Delivers(d, how, draw), Settles(d, 0, now)]);
            && r.world == s.world && r.lives.Keys == s.lives.Keys
            && Settled(spec, r.lives[d], Read(r.world.desired, d))
            && forall e :: e in s.lives && e != d ==> r.lives[e] == s.lives[e]
  {
    var a, b := Delivers(d, how, draw), Settles(d, 0, now);
    assert [a, b][..1] == [a] && [a][..0] == [];
    assert Play(spec, s, [a]) == Step(spec, s, a);
    assert Play(spec, s, [a, b]) == Step(spec, Step(spec, s, a), b);
    if Read(s.world.desired, d) != "" {
      LifeFlash(spec, s.lives[d], Read(s.world.desired, d), how, draw, now);
    }
  }

  lemma {:induction false} FlashAll(spec: RolloutSpec, s: Loop, F: seq<string>, E: seq<string>,
                                    how: string -> Behaviour, draw: real, now: int)
    requires Works(spec, E, how, draw) && AllDue(spec, s, E) && forall d :: d in F ==> d in E
    ensures var r := Play(spec, s, Flashes(F, how, draw, now));
            r.world == s.world && AllDue(spec, r, E) && AllSettled(spec, r, F)
  {
    if F != [] {
      var init, d := F[..|F| - 1], F[|F| - 1];
      assert F == init + [d];
      FlashAll(spec, s, init, E, how, draw, now);
      var q := Play(spec, s, Flashes(init, how, draw, now));
      PlayConcat(spec, s, Flashes(init, how, draw, now), [Delivers(d, how(d), draw), Settles(d, 0, now)]);
      OneFlash(spec, q, d, how(d), draw, now);
    }
  }

  /** A reconcile in a cooperative world: the fleet is E, windows are open without a limit, writes succeed,
      and everything read is what the cluster stores and the devices report. */
  ghost predicate Sees(spec: RolloutSpec, s: Loop, t: Tick, E: seq<string>) {
    && PlanFor(spec, t).eligible == E && DecisionFor(t).open && DecisionFor(t).maxDevices <= 0 && !t.lost
    && forall d :: d in E ==>
         && d in s.lives && d !in t.rejects
         && Read(t.desired, d) == Read(s.world.desired, d)
         && Read(t.running, d) == s.lives[d].body.reportedHash
         && (if d in t.boots then t.boots[d] else 0) == s.lives[d].body.bootCount
  }

  lemma SeesIsGood(spec: RolloutSpec, s: Loop, t: Tick, E: seq<string>)
    requires AllSettled(spec, s, E) && Sees(spec, s, t, E)
    ensures GoodTick(spec, s.world, t, E)
  {
    forall d | d in E
      ensures Read(s.world.desired, d) != "" ==> Read(t.running, d) == spec.configHash && !BootLoops(spec, t, d)
    {
      assert Settled(spec, s.lives[d], Read(s.world.desired, d));
    }
  }

  lemma WriteMakesDue(spec: RolloutSpec, s: Loop, t: Tick, E: seq<string>)
    requires AllSettled(spec, s, E)
    ensures AllDue(spec, Step(spec, s, Reconciles(t)), E)
  {
    var written := ReconcileAt(spec, s.world, t).dispatched;
    forall d | d in E
      ensures d in s.lives && Due(spec, s.lives[d], Read(Write(s.world.desired, written, Payload(spec)), d))
    {
      WriteMeans(s.world.desired, written, Payload(spec), d);
    }
  }

  /** One round: the world takes one reconcile's step, and every device is settled again. */
  lemma OneRound(spec: RolloutSpec, s: Loop, t: Tick, E: seq<string>, how: string -> Behaviour, draw: real)
    requires Works(spec, E, how, draw) && AllSettled(spec, s, E)
    ensures var r := Play(spec, s, [Reconciles(t)] + Flashes(E, how, draw, t.now));
            r.world == Next(spec, s.world, t) && AllSettled(spec, r, E)
  {
    var e := Reconciles(t);
    PlayConcat(spec, s, [e], Flashes(E, how, draw, t.now));
    assert [e][..0] == [];
    assert Play(spec, s, [e]) == Step(spec, s, e);
    WriteMakesDue(spec, s, t, E);
    FlashAll(spec, Step(spec, s, e), E, E, how, draw, t.now);
  }

  ghost predicate SeenThroughout(spec: RolloutSpec, s: Loop, ts: seq<Tick>, E: seq<string>,
                                 how: string -> Behaviour, draw: real)
  {
    forall i :: 0 <= i < |ts| ==> Sees(spec, Play(spec, s, Rounds(ts[..i], E, how, draw)), ts[i], E)
  }

  lemma RoundsSplit(spec: RolloutSpec, s: Loop, ts: seq<Tick>, E: seq<string>, how: string -> Behaviour, draw: real,
                    i: nat)
    requires i < |ts|
    ensures Play(spec, s, Rounds(ts[..i + 1], E, how, draw)) ==
            Play(spec, Play(spec, s, Rounds(ts[..i], E, how, draw)),
                 [Reconciles(ts[i])] + Flashes(E, how, draw, ts[i].now))
  {
    assert ts[..i + 1][..i] == ts[..i];
    PlayConcat(spec, s, Rounds(ts[..i], E, how, draw), [Reconciles(ts[i])] + Flashes(E, how, draw, ts[i].now));
  }

  /** After `n` rounds every device is settled, and at least `n` are written unless all is done. */
  ghost predicate Rounded(spec: RolloutSpec, r: Loop, E: seq<string>, n: nat) {
    AllSettled(spec, r, E) && Progressed(r.world, E, n)
  }

  lemma RoundAdvances(spec: RolloutSpec, q: Loop, t: Tick, E: seq<string>, how: string -> Behaviour, draw: real, n: nat)
    requires Works(spec, E, how, draw) && E != [] && !spec.paused && Rounded(spec, q, E, n) && Sees(spec, q, t, E)
    ensures Rounded(spec, Play(spec, q, [Reconciles(t)] + Flashes(E, how, draw, t.now)), E, n + 1)
  {
    OneRound(spec, q, t, E, how, draw);
    RoundProgress(spec, q, t, E, n);
  }

  lemma StepAdvances(spec: RolloutSpec, s: Loop, ts: seq<Tick>, E: seq<string>, how: string -> Behaviour, draw: real,
                     i: nat)
    requires Works(spec, E, how, draw) && E != [] && !spec.paused && i < |ts|
    requires Rounded(spec, Play(spec, s, Rounds(ts[..i], E, how, draw)), E, i)
    requires Sees(spec, Play(spec, s, Rounds(ts[..i], E, how, draw)), ts[i], E)
    ensures Rounded(spec, Play(spec, s, Rounds(ts[..i + 1], E, how, draw)), E, i + 1)
  {
    RoundsSplit(spec, s, ts, E, how, draw, i);
    RoundAdvances(spec, Play(spec, s, Rounds(ts[..i], E, how, draw)), ts[i], E, how, draw, i);
  }

  lemma LoopProgress(spec: RolloutSpec, s: Loop, ts: seq<Tick>, E: seq<string>, how: string -> Behaviour, draw: real)
    requires Works(spec, E, how, draw)
    requires E != [] && !spec.paused && !Terminal(s.world.status) && AllSettled(spec, s, E)
    requires SeenThroughout(spec, s, ts, E, how, draw)
    ensures Rounded(spec, Play(spec, s, Rounds(ts, E, how, draw)), E, |ts|)
  {
    var ok := (n: nat) => n <= |ts| && Rounded(spec, Play(spec, s, Rounds(ts[..n], E, how, draw)), E, n);
    assert ts[..0] == [] && ts[..|ts|] == ts;
    forall i: nat | i < |ts| && ok(i)
      ensures ok(i + 1)
    {
      StepAdvances(spec, s, ts, E, how, draw, i);
    }
    Chain(ok, |ts|);
  }

  lemma RoundProgress(spec: RolloutSpec, q: Loop, t: Tick, E: seq<string>, n: nat)
    requires E != [] && !spec.paused && AllSettled(spec, q, E) && Sees(spec, q, t, E) && Progressed(q.world, E, n)
    ensures Progressed(Next(spec, q.world, t), E, n + 1)
  {
    SeesIsGood(spec, q, t, E);
    NextProgresses(spec, q.world, t, E, n);
  }

  /** The loop closes: with nothing assumed about reports but that they are the devices' own, a fleet whose
      flashes take hold between reconciles is Complete within |E| + 1 of them, whatever it was built with. */
  lemma LoopCompletes(spec: RolloutSpec, s: Loop, ts: seq<Tick>, E: seq<string>, how: string -> Behaviour,
                      draw: real)
    requires Works(spec, E, how, draw)
    requires Opening(s) && E != [] && !spec.paused && !Terminal(s.world.status)
    requires (forall d :: d in E ==> d in s.lives) && SeenThroughout(spec, s, ts, E, how, draw)
    requires |ts| >= |E| + 1
    ensures Play(spec, s, Rounds(ts, E, how, draw)).world.status.phase.Complete?
  {
    LoopProgress(spec, s, ts, E, how, draw);
  }
}
