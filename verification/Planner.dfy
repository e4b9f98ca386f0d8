/** Which devices of a fleet a rollout may write now, later, or never: controller/internal/planner.go. */
module Planner {
  import opened Prelude
  import opened Capability

  datatype State = Online | Sleeping | Unreachable | Unknown | Unset

  datatype Liveness = Liveness(name: string, state: State, capability: Option<DeviceCapability>,
                               lastSeen: Option<int>, silentFor: string, transport: string)

  datatype Requirements = Requirements(ota: bool, minBatteryPercent: int32, maxSilentFor: Option<int>)

  datatype DeviceOutcome = DeviceOutcome(device: string, reason: Reason)

  datatype Plan = Plan(eligible: seq<string>, refused: seq<DeviceOutcome>, pending: seq<DeviceOutcome>)

  /** What the planner is asked: the rollout's requirements, artifact size, and the current instant. */
  datatype Ask = Ask(requirements: Option<Requirements>, sizeBytes: int, now: int) {
    predicate NeedsOTA() { requirements.Some? && requirements.value.ota }
  }

  predicate ReachableOverOTA(c: DeviceCapability) {
    |c.reachableVia| == 0 ||
    exists i, j :: 0 <= i < |c.reachableVia| && 0 <= j < |c.transports| &&
                   c.transports[j].kind == c.reachableVia[i] && c.transports[j].ota
  }

  datatype Verdict = Admit | Refuse(reason: Reason) | Defer(reason: Reason)

  function Judge(a: Ask, l: Liveness): (v: Verdict) {
    if a.NeedsOTA() && l.capability.None? then Refuse(NoOTACapableTransport)
    else if a.NeedsOTA() && !AcceptsOTA(l.capability.value, a.sizeBytes) then
      Refuse(OTARefusal(l.capability.value, a.sizeBytes))
    else if a.NeedsOTA() && a.requirements.value.minBatteryPercent > 0 &&
            !Affordable(l.capability.value, a.requirements.value.minBatteryPercent) then
      Refuse(OTAExceedsBatteryBudget)
    else if l.state.Unreachable? || l.state.Unknown? then Defer(DeviceUnreachable)
    else if l.state.Sleeping? then Defer(DeviceSleeping)
    else if a.NeedsOTA() && !ReachableOverOTA(l.capability.value) then Defer(AwaitingTransportWindow)
    else if a.requirements.Some? && a.requirements.value.maxSilentFor.Some? && l.lastSeen.Some? &&
            a.now - l.lastSeen.value > a.requirements.value.maxSilentFor.value then
      Defer(DeviceUnreachable)
    else Admit
  }

  function Eligible(a: Ask, ls: seq<Liveness>): (r: seq<string>) {
    if ls == [] then [] else
      var l := ls[|ls| - 1];
      Eligible(a, ls[..|ls| - 1]) + if Judge(a, l).Admit? then [l.name] else []
  }

  function Refused(a: Ask, ls: seq<Liveness>): (r: seq<DeviceOutcome>) {
    if ls == [] then [] else
      var l := ls[|ls| - 1];
      Refused(a, ls[..|ls| - 1]) +
      if Judge(a, l).Refuse? then [DeviceOutcome(l.name, Judge(a, l).reason)] else []
  }

  function Pending(a: Ask, ls: seq<Liveness>): (r: seq<DeviceOutcome>) {
    if ls == [] then [] else
      var l := ls[|ls| - 1];
      Pending(a, ls[..|ls| - 1]) +
      if Judge(a, l).Defer? then [DeviceOutcome(l.name, Judge(a, l).reason)] else []
  }

  function PlanOf(a: Ask, ls: seq<Liveness>): (p: Plan) {
    Plan(Eligible(a, ls), Refused(a, ls), Pending(a, ls))
  }

  method OverOTA(c: DeviceCapability) returns (up: bool)
    ensures up <==> ReachableOverOTA(c)
  {
    if |c.reachableVia| == 0 {
      return true;
    }
    for i := 0 to |c.reachableVia|
      invariant forall k, j :: 0 <= k < i && 0 <= j < |c.transports| ==>
                  !(c.transports[j].kind == c.reachableVia[k] && c.transports[j].ota)
    {
      for j := 0 to |c.transports|
        invariant forall m :: 0 <= m < j ==>
                    !(c.transports[m].kind == c.reachableVia[i] && c.transports[m].ota)
      {
        if c.transports[j].kind == c.reachableVia[i] && c.transports[j].ota {
          return true;
        }
      }
    }
    return false;
  }

  method PlanRollout(a: Ask, ls: seq<Liveness>) returns (p: Plan)
    ensures p == PlanOf(a, ls)
  {
    p := Plan([], [], []);
    for i := 0 to |ls|
      invariant p == PlanOf(a, ls[..i])
    {
      var l := ls[i];
      assert ls[..i + 1][..i] == ls[..i];
      if a.NeedsOTA() {
        if l.capability.None? {
          p := p.(refused := p.refused + [DeviceOutcome(l.name, NoOTACapableTransport)]);
          continue;
        }
        var ok, reason := CanAcceptOTA(l.capability.value, a.sizeBytes);
        if !ok {
          p := p.(refused := p.refused + [DeviceOutcome(l.name, reason.value)]);
          continue;
        }
        if a.requirements.value.minBatteryPercent > 0 {
          var affordable := OTAAffordable(l.capability.value, a.requirements.value.minBatteryPercent);
          if !affordable {
            p := p.(refused := p.refused + [DeviceOutcome(l.name, OTAExceedsBatteryBudget)]);
            continue;
          }
        }
      }
      match l.state {
        case Unreachable =>
          p := p.(pending := p.pending + [DeviceOutcome(l.name, DeviceUnreachable)]);
          continue;
        case Sleeping =>
          p := p.(pending := p.pending + [DeviceOutcome(l.name, DeviceSleeping)]);
          continue;
        case Unknown =>
          p := p.(pending := p.pending + [DeviceOutcome(l.name, DeviceUnreachable)]);
          continue;
        case _ =>
      }
      if a.NeedsOTA() {
        var up := OverOTA(l.capability.value);
        if !up {
          p := p.(pending := p.pending + [DeviceOutcome(l.name, AwaitingTransportWindow)]);
          continue;
        }
      }
      if a.requirements.Some? && a.requirements.value.maxSilentFor.Some? && l.lastSeen.Some? {
        if a.now - l.lastSeen.value > a.requirements.value.maxSilentFor.value {
          p := p.(pending := p.pending + [DeviceOutcome(l.name, DeviceUnreachable)]);
          continue;
        }
      }
      p := p.(eligible := p.eligible + [l.name]);
    }
    assert ls[..|ls|] == ls;
  }

  /** Everything that must be true of a device before the planner admits it. */
  ghost predicate Licensed(a: Ask, l: Liveness) {
    && !l.state.Sleeping? && !l.state.Unreachable? && !l.state.Unknown?
    && (a.requirements.Some? && a.requirements.value.maxSilentFor.Some? && l.lastSeen.Some? ==>
          a.now - l.lastSeen.value <= a.requirements.value.maxSilentFor.value)
    && (a.NeedsOTA() ==>
          && l.capability.Some?
          && var c := l.capability.value;
          && (exists t :: t in c.transports && Carries(t, a.sizeBytes))
          && (c.reachableVia == [] || exists t :: t in c.transports && t.ota && t.kind in c.reachableVia)
          && (var floor := a.requirements.value.minBatteryPercent;
              floor > 0 && c.batteryPercent != 0 ==>
                && c.batteryPercent >= floor
                && (var cost := MaxOTACost(c.transports);
                    cost > 0 && c.batteryMah > 0 && 100 * cost <= MAX_INT32 ==>
                      KeepsFloor(c.batteryPercent, c.batteryMah, cost, floor))))
  }

  lemma ReachableMeansSomeDoor(c: DeviceCapability)
    ensures ReachableOverOTA(c) <==>
            c.reachableVia == [] || exists t :: t in c.transports && t.ota && t.kind in c.reachableVia
  {
    if t :| t in c.transports && t.ota && t.kind in c.reachableVia {
      var j :| 0 <= j < |c.transports| && c.transports[j] == t;
      var i :| 0 <= i < |c.reachableVia| && c.reachableVia[i] == t.kind;
    }
  }

  lemma AcceptsMeansSomeCarrier(c: DeviceCapability, size: int)
    ensures AcceptsOTA(c, size) <==> exists t :: t in c.transports && Carries(t, size)
  {
    if t :| t in c.transports && Carries(t, size) {
      var i :| 0 <= i < |c.transports| && c.transports[i] == t;
    }
  }

  lemma AdmittedIsLicensed(a: Ask, l: Liveness)
    requires Judge(a, l).Admit?
    ensures Licensed(a, l)
  {
    if a.NeedsOTA() {
      var c := l.capability.value;
      ReachableMeansSomeDoor(c);
      AcceptsMeansSomeCarrier(c, a.sizeBytes);
      var floor := a.requirements.value.minBatteryPercent;
      var cost := MaxOTACost(c.transports);
      if floor > 0 && c.batteryPercent != 0 && cost > 0 && c.batteryMah > 0 && 100 * cost <= MAX_INT32 {
        SparesChargeExact(c.batteryPercent, c.batteryMah, cost, floor);
      }
    }
  }

  /** Battery figures for which the 32-bit test says nothing about the margin: a negative capacity, or a
      cost whose hundredfold overflows. */
  ghost predicate Unpriceable(a: Ask, c: DeviceCapability) {
    var cost := MaxOTACost(c.transports);
    && a.NeedsOTA() && a.requirements.value.minBatteryPercent > 0 && c.batteryPercent != 0
    && cost > 0 && (c.batteryMah < 0 || (c.batteryMah > 0 && 100 * cost > MAX_INT32))
  }

  /** Conversely, a licensed device is admitted; with unpriceable battery figures, exactly when the wrapped
      arithmetic happens to spare its charge. */
  lemma LicensedIsAdmitted(a: Ask, l: Liveness)
    requires Licensed(a, l)
    ensures Judge(a, l).Admit? <==>
            (a.NeedsOTA() && Unpriceable(a, l.capability.value) ==>
               var c := l.capability.value;
               SparesCharge(c.batteryPercent, c.batteryMah, MaxOTACost(c.transports),
                            a.requirements.value.minBatteryPercent))
  {
    if a.NeedsOTA() {
      var c := l.capability.value;
      ReachableMeansSomeDoor(c);
      AcceptsMeansSomeCarrier(c, a.sizeBytes);
      var floor := a.requirements.value.minBatteryPercent;
      var cost := MaxOTACost(c.transports);
      if floor > 0 && c.batteryPercent != 0 && cost > 0 && c.batteryMah > 0 && 100 * cost <= MAX_INT32 {
        SparesChargeExact(c.batteryPercent, c.batteryMah, cost, floor);
      }
    }
  }

  lemma {:induction false} EligibleCameFrom(a: Ask, ls: seq<Liveness>, d: string)
    requires d in Eligible(a, ls)
    ensures exists l :: l in ls && l.name == d && Judge(a, l).Admit?
  {
    var l := ls[|ls| - 1];
    if !(Judge(a, l).Admit? && l.name == d) {
      EligibleCameFrom(a, ls[..|ls| - 1], d);
    }
  }

  function Names(ls: seq<Liveness>): (r: seq<string>) {
    if ls == [] then [] else Names(ls[..|ls| - 1]) + [ls[|ls| - 1].name]
  }

  function Devices(os: seq<DeviceOutcome>): (r: seq<string>) {
    if os == [] then [] else Devices(os[..|os| - 1]) + [os[|os| - 1].device]
  }

  lemma DevicesPush(os: seq<DeviceOutcome>, o: DeviceOutcome)
    ensures Devices(os + [o]) == Devices(os) + [o.device]
  {
    assert (os + [o])[..|os|] == os;
  }

  /** How the last device of a fleet extends the three lists: it joins exactly one of them. */
  lemma LastDevice(a: Ask, ls: seq<Liveness>)
    requires ls != []
    ensures var init, l := ls[..|ls| - 1], ls[|ls| - 1];
            && Eligible(a, ls) == Eligible(a, init) + (if Judge(a, l).Admit? then [l.name] else [])
            && Devices(Refused(a, ls)) ==
               Devices(Refused(a, init)) + (if Judge(a, l).Refuse? then [l.name] else [])
            && Devices(Pending(a, ls)) ==
               Devices(Pending(a, init)) + (if Judge(a, l).Defer? then [l.name] else [])
            && Names(ls) == Names(init) + [l.name]
  {
    var init, l := ls[..|ls| - 1], ls[|ls| - 1];
    var v := Judge(a, l);
    if v.Refuse? {
      DevicesPush(Refused(a, init), DeviceOutcome(l.name, v.reason));
    } else {
      assert Refused(a, init) + [] == Refused(a, init);
    }
    if v.Defer? {
      DevicesPush(Pending(a, init), DeviceOutcome(l.name, v.reason));
    } else {
      assert Pending(a, init) + [] == Pending(a, init);
    }
  }

  lemma Tally(e: seq<string>, r: seq<string>, p: seq<string>, n: seq<string>, x: string, v: Verdict)
    requires multiset(e) + multiset(r) + multiset(p) == multiset(n)
    ensures multiset(e + if v.Admit? then [x] else []) + multiset(r + if v.Refuse? then [x] else []) +
            multiset(p + if v.Defer? then [x] else []) == multiset(n + [x])
  {
    match v
    case Admit => assert r + [] == r && p + [] == p;
    case Refuse(_) => assert e + [] == e && p + [] == p;
    case Defer(_) => assert e + [] == e && r + [] == r;
  }

  ghost predicate Partitioned(a: Ask, ls: seq<Liveness>) {
    multiset(Eligible(a, ls)) + multiset(Devices(Refused(a, ls))) + multiset(Devices(Pending(a, ls)))
    == multiset(Names(ls))
  }

  lemma PartitionGrows(a: Ask, ls: seq<Liveness>)
    requires ls != [] && Partitioned(a, ls[..|ls| - 1])
    ensures Partitioned(a, ls)
  {
    var init, l := ls[..|ls| - 1], ls[|ls| - 1];
    LastDevice(a, ls);
    Tally(Eligible(a, init), Devices(Refused(a, init)), Devices(Pending(a, init)), Names(init), l.name, Judge(a, l));
  }

  /** No device is lost, duplicated or listed twice: the three lists together are the fleet. */
  lemma {:induction false} PlanPartitions(a: Ask, ls: seq<Liveness>)
    ensures Partitioned(a, ls)
  {
    if ls != [] {
      PlanPartitions(a, ls[..|ls| - 1]);
      PartitionGrows(a, ls);
    }
  }

  /** An order-preserving selection: `r` picks strictly increasing positions of `s`. */
  ghost predicate Subsequence(r: seq<string>, s: seq<string>) {
    exists at: seq<int> :: Picks(at, r, s)
  }

  ghost predicate Picks(at: seq<int>, r: seq<string>, s: seq<string>) {
    && |at| == |r|
    && (forall i :: 0 <= i < |at| ==> 0 <= at[i] < |s| && s[at[i]] == r[i])
    && (forall i, j :: 0 <= i < j < |at| ==> at[i] < at[j])
  }

  lemma SubsequenceGrows(r: seq<string>, s: seq<string>, x: string, taken: bool)
    requires Subsequence(r, s)
    ensures Subsequence(r + if taken then [x] else [], s + [x])
  {
    var at :| Picks(at, r, s);
    if taken {
      assert Picks(at + [|s|], r + [x], s + [x]);
    } else {
      assert Picks(at, r + [], s + [x]);
    }
  }

  lemma {:induction false} PlanKeepsOrder(a: Ask, ls: seq<Liveness>)
    ensures Subsequence(Eligible(a, ls), Names(ls))
    ensures Subsequence(Devices(Refused(a, ls)), Names(ls))
    ensures Subsequence(Devices(Pending(a, ls)), Names(ls))
  {
    if ls == [] {
      assert Picks([], [], []);
    } else {
      var init, l := ls[..|ls| - 1], ls[|ls| - 1];
      PlanKeepsOrder(a, init);
      SubsequenceGrows(Eligible(a, init), Names(init), l.name, Judge(a, l).Admit?);
      SubsequenceGrows(Devices(Refused(a, init)), Names(init), l.name, Judge(a, l).Refuse?);
      SubsequenceGrows(Devices(Pending(a, init)), Names(init), l.name, Judge(a, l).Defer?);
      LastDevice(a, ls);
    }
  }

  /** Same device as far as permanent facts go: state, contact times and open doors may differ. */
  ghost predicate SameHardware(x: Liveness, y: Liveness) {
    && x.name == y.name
    && x.capability.Some? == y.capability.Some?
    && (x.capability.Some? ==>
          x.capability.value.(reachableVia := []) == y.capability.value.(reachableVia := []))
  }

  lemma RefusalIsPermanent(a: Ask, b: Ask, x: Liveness, y: Liveness)
    requires a.requirements == b.requirements && a.sizeBytes == b.sizeBytes
    requires SameHardware(x, y)
    ensures Judge(a, x).Refuse? == Judge(b, y).Refuse?
    ensures Judge(a, x).Refuse? ==> Judge(a, x) == Judge(b, y)
  {
    if x.capability.Some? {
      var c, d := x.capability.value, y.capability.value;
      assert c.transports == c.(reachableVia := []).transports == d.(reachableVia := []).transports;
      assert c.batteryPercent == c.(reachableVia := []).batteryPercent;
      assert c.batteryMah == c.(reachableVia := []).batteryMah;
    }
  }

  /** Reachability never leaks into the Refused list. */
  lemma {:induction false} RefusedIgnoresReachability(a: Ask, b: Ask, xs: seq<Liveness>, ys: seq<Liveness>)
    requires a.requirements == b.requirements && a.sizeBytes == b.sizeBytes
    requires |xs| == |ys| && forall i :: 0 <= i < |xs| ==> SameHardware(xs[i], ys[i])
    ensures Refused(a, xs) == Refused(b, ys)
  {
    if xs != [] {
      RefusedIgnoresReachability(a, b, xs[..|xs| - 1], ys[..|ys| - 1]);
      RefusalIsPermanent(a, b, xs[|xs| - 1], ys[|ys| - 1]);
    }
  }

  // --- what refusal and deferral mean -----------------------------------------------------------------

  /** The same question, asked at any time. */
  ghost predicate SameAsk(a: Ask, b: Ask) {
    a.requirements == b.requirements && a.sizeBytes == b.sizeBytes
  }

  /** The device at its best: awake, heard of at no particular time, and with no door known to be shut. */
  function AtItsBest(x: Liveness): (y: Liveness) {
    x.(state := Online, lastSeen := None,
       capability := if x.capability.Some? then Some(x.capability.value.(reachableVia := [])) else None)
  }

  lemma BestIsAdmitted(a: Ask, x: Liveness)
    requires !Judge(a, x).Refuse?
    ensures SameHardware(x, AtItsBest(x)) && Judge(a, AtItsBest(x)).Admit?
  {
    RefusalIsPermanent(a, a, x, AtItsBest(x));
  }

  /** Refusal is exactly permanent impossibility: no state, contact, door or later time would have this
      hardware admitted. */
  lemma RefusedIffNever(a: Ask, x: Liveness)
    ensures Judge(a, x).Refuse? <==>
            forall b: Ask, y: Liveness :: SameAsk(a, b) && SameHardware(x, y) ==> !Judge(b, y).Admit?
  {
    if Judge(a, x).Refuse? {
      forall b: Ask, y: Liveness | SameAsk(a, b) && SameHardware(x, y)
        ensures !Judge(b, y).Admit?
      {
        RefusalIsPermanent(a, b, x, y);
      }
    } else {
      BestIsAdmitted(a, x);
      assert SameAsk(a, a);
    }
  }

  /** And deferral is exactly not now: not admitted, though the same hardware could be. */
  lemma DeferredIffNotYet(a: Ask, x: Liveness)
    ensures Judge(a, x).Defer? <==>
            !Judge(a, x).Admit? &&
            exists b: Ask, y: Liveness :: SameAsk(a, b) && SameHardware(x, y) && Judge(b, y).Admit?
  {
    RefusedIffNever(a, x);
  }

  /** Under requires.ota, no declared transport carries the size. */
  ghost predicate NoCarrier(a: Ask, l: Liveness) {
    a.NeedsOTA() &&
    (l.capability.None? || forall t :: t in l.capability.value.transports ==> !Carries(t, a.sizeBytes))
  }

  ghost predicate ShutOut(a: Ask, l: Liveness) {
    && a.NeedsOTA() && l.capability.Some? && l.capability.value.reachableVia != []
    && forall t :: t in l.capability.value.transports && t.ota ==> t.kind !in l.capability.value.reachableVia
  }

  ghost predicate TooSilent(a: Ask, l: Liveness) {
    && a.requirements.Some? && a.requirements.value.maxSilentFor.Some? && l.lastSeen.Some?
    && l.lastSeen.value + a.requirements.value.maxSilentFor.value < a.now
  }

  /** Why a device is refused: for want of a carrier, because every carrier it has is too small, or for its
      battery. */
  lemma RefusalReasons(a: Ask, l: Liveness)
    ensures Judge(a, l) == Refuse(ArtifactExceedsTransportCapacity) <==>
            NoCarrier(a, l) && l.capability.Some? && l.capability.value.transports != [] && a.sizeBytes > 0
    ensures Judge(a, l) == Refuse(NoOTACapableTransport) <==>
            NoCarrier(a, l) &&
            (l.capability.None? || l.capability.value.transports == [] || a.sizeBytes <= 0)
    ensures Judge(a, l).Refuse? && !NoCarrier(a, l) <==> Judge(a, l) == Refuse(OTAExceedsBatteryBudget)
    ensures Judge(a, l) == Refuse(OTAExceedsBatteryBudget) <==>
            a.NeedsOTA() && !NoCarrier(a, l) && a.requirements.value.minBatteryPercent > 0 &&
            !Affordable(l.capability.value, a.requirements.value.minBatteryPercent)
  {
    if l.capability.Some? {
      AcceptsMeansSomeCarrier(l.capability.value, a.sizeBytes);
    }
  }

  /** Why a device that is not refused is deferred: its state first, then its doors, then its silence. */
  lemma DeferralReasons(a: Ask, l: Liveness)
    requires !Judge(a, l).Refuse?
    ensures var awake := !l.state.Sleeping? && !l.state.Unreachable? && !l.state.Unknown?;
            && (Judge(a, l) == Defer(DeviceSleeping) <==> l.state.Sleeping?)
            && (Judge(a, l) == Defer(AwaitingTransportWindow) <==> awake && ShutOut(a, l))
            && (Judge(a, l) == Defer(DeviceUnreachable) <==>
                  l.state.Unreachable? || l.state.Unknown? || (awake && !ShutOut(a, l) && TooSilent(a, l)))
            && (Judge(a, l).Admit? <==> awake && !ShutOut(a, l) && !TooSilent(a, l))
  {
    if l.capability.Some? {
      ReachableMeansSomeDoor(l.capability.value);
    }
  }

  /** The lists hold exactly those verdicts, each with its reason. */
  lemma {:induction false} ListedWithReason(a: Ask, ls: seq<Liveness>, o: DeviceOutcome)
    ensures o in Refused(a, ls) <==> exists l :: l in ls && l.name == o.device && Judge(a, l) == Refuse(o.reason)
    ensures o in Pending(a, ls) <==> exists l :: l in ls && l.name == o.device && Judge(a, l) == Defer(o.reason)
  {
    if ls != [] {
      var init, l := ls[..|ls| - 1], ls[|ls| - 1];
      assert ls == init + [l];
      ListedWithReason(a, init, o);
      assert forall k :: k in ls <==> k in init || k == l;
    }
  }

  // --- the planner always sees one order ------------------------------------------------------------

  /** A strict order on names, as Go's string comparison is. */
  ghost predicate Orders(less: (string, string) -> bool) {
    forall a, b :: less(a, b) ==> !less(b, a)
  }

  ghost predicate SortedByName(less: (string, string) -> bool, ls: seq<Liveness>) {
    forall i, j :: 0 <= i < j < |ls| ==> less(ls[i].name, ls[j].name)
  }

  lemma SameLast(less: (string, string) -> bool, xs: seq<Liveness>, ys: seq<Liveness>)
    requires Orders(less) && SortedByName(less, xs) && SortedByName(less, ys) && xs != [] && ys != []
    requires xs[|xs| - 1] in ys && ys[|ys| - 1] in xs
    ensures xs[|xs| - 1] == ys[|ys| - 1]
  {
    var j :| 0 <= j < |ys| && ys[j] == xs[|xs| - 1];
    var i :| 0 <= i < |xs| && xs[i] == ys[|ys| - 1];
    assert i == |xs| - 1 || j == |ys| - 1;
  }

  lemma WithoutLast(ls: seq<Liveness>)
    requires ls != []
    ensures multiset(ls) == multiset(ls[..|ls| - 1]) + multiset{ls[|ls| - 1]}
  {
    assert ls == ls[..|ls| - 1] + [ls[|ls| - 1]];
  }

  lemma SortedInit(less: (string, string) -> bool, ls: seq<Liveness>)
    requires ls != [] && SortedByName(less, ls)
    ensures SortedByName(less, ls[..|ls| - 1])
  {
  }

  /** However the API server lists a fleet of distinct names, sorting it gives the planner one list, so
      the same devices come first in every reconcile. */
  lemma {:induction false} ListingOrderIrrelevant(less: (string, string) -> bool, xs: seq<Liveness>,
                                                  ys: seq<Liveness>)
    requires Orders(less) && SortedByName(less, xs) && SortedByName(less, ys)
    requires multiset(xs) == multiset(ys)
    ensures xs == ys
  {
    SameLength(xs, ys);
    if xs != [] {
      LastInBoth(xs, ys);
      SameLast(less, xs, ys);
      WithoutLast(xs);
      WithoutLast(ys);
      SortedInit(less, xs);
      SortedInit(less, ys);
      CancelOne(multiset(xs[..|xs| - 1]), multiset(ys[..|ys| - 1]), xs[|xs| - 1]);
      ListingOrderIrrelevant(less, xs[..|xs| - 1], ys[..|ys| - 1]);
      SameFromParts(xs, ys);
    }
  }

  lemma CancelOne(a: multiset<Liveness>, b: multiset<Liveness>, x: Liveness)
    requires a + multiset{x} == b + multiset{x}
    ensures a == b
  {
    assert a == (a + multiset{x}) - multiset{x};
    assert b == (b + multiset{x}) - multiset{x};
  }

  lemma SameLength(xs: seq<Liveness>, ys: seq<Liveness>)
    requires multiset(xs) == multiset(ys)
    ensures |xs| == |ys|
  {
    assert |multiset(xs)| == |multiset(ys)|;
  }

  lemma LastInBoth(xs: seq<Liveness>, ys: seq<Liveness>)
    requires multiset(xs) == multiset(ys) && xs != [] && ys != []
    ensures xs[|xs| - 1] in ys && ys[|ys| - 1] in xs
  {
    assert xs[|xs| - 1] in multiset(xs) && ys[|ys| - 1] in multiset(ys);
  }

  lemma SameFromParts(xs: seq<Liveness>, ys: seq<Liveness>)
    requires xs != [] && ys != [] && xs[..|xs| - 1] == ys[..|ys| - 1] && xs[|xs| - 1] == ys[|ys| - 1]
    ensures xs == ys
  {
    assert xs == xs[..|xs| - 1] + [xs[|xs| - 1]];
    assert ys == ys[..|ys| - 1] + [ys[|ys| - 1]];
  }

  /** Cumulative percentage of the eligible devices as a count. */
  function StepSize(eligible: nat, percent: int): (n: int)
    ensures n <= eligible
    ensures percent > 0 && eligible > 0 ==> n >= 1
  {
    var n := GoDiv(eligible * percent, 100);
    var n' := if n < 1 && percent > 0 then 1 else n;
    if n' > eligible then eligible else n'
  }

  lemma Portion(eligible: nat, percent: int)
    requires eligible > 0 && percent > 0
    ensures eligible * percent > 0
    ensures if percent >= 100 then eligible * percent >= eligible * 100 else eligible * percent < eligible * 100
  {
    if percent >= 100 {
      assert eligible * percent == eligible * 100 + eligible * (percent - 100);
    } else {
      assert eligible * 100 == eligible * percent + eligible * (100 - percent);
    }
  }

  /** The same on the product itself. */
  lemma ClampedShare(eligible: nat, share: int, n: int)
    requires eligible > 0 && share > 0
    requires n == Min(Max(share / 100, 1), eligible)
    ensures share >= eligible * 100 ==> n == eligible
    ensures share < 100 ==> n == 1
    ensures 100 <= share < eligible * 100 ==> 100 * n <= share < 100 * (n + 1)
  {
  }

  /** A step is the largest whole number of devices within its percentage, at least one and at most all. */
  lemma StepSizeExact(eligible: nat, percent: int)
    requires eligible > 0 && percent > 0
    ensures var n := StepSize(eligible, percent);
            && (percent >= 100 ==> n == eligible)
            && (percent < 100 && eligible * percent < 100 ==> n == 1)
            && (percent < 100 && eligible * percent >= 100 ==> 100 * n <= eligible * percent < 100 * (n + 1))
  {
    Portion(eligible, percent);
    ClampedShare(eligible, eligible * percent, StepSize(eligible, percent));
  }
}
