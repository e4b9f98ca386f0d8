/** Maintenance windows over a minimal cron: controller/internal/window.go.

    Instants are nanoseconds. A zone is any assignment of calendar fields to absolute minutes, so
    the general results hold through daylight-saving changes as well; the closed forms at the end
    fix a constant whole-minute offset. */
module Schedule {
  import opened Prelude

  datatype LocalTime = LocalTime(minute: int, hour: int, day: int, month: int, weekday: int)

  type Zone = int -> LocalTime

  // -1 stands for *
  datatype CronSpec = CronSpec(min: int, hour: int, dom: int, month: int, dow: int)

  datatype CronText = NoCron | Unparsable | Cron(spec: CronSpec)

  datatype Period = Period(cron: CronText, duration: Option<int>, from: Option<int>, until: Option<int>,
                           reason: string)

  datatype WindowSpec = WindowSpec(allow: seq<Period>, deny: seq<Period>, zone: Zone)

  datatype WindowState = WindowState(open: bool, reason: string, nextOpen: Option<int>, nextClose: Option<int>)

  const LOOKBACK: nat := 60 * 24 * 2
  const LOOKAHEAD: nat := 60 * 24 * 370

  predicate Matches(c: CronSpec, z: Zone, m: int) {
    var t := z(m);
    && (c.min == -1 || c.min == t.minute)
    && (c.hour == -1 || c.hour == t.hour)
    && (c.dom == -1 || c.dom == t.day)
    && (c.month == -1 || c.month == t.month)
    && (c.dow == -1 || c.dow == t.weekday)
  }

  /** now.Truncate(time.Minute), as a minute index. */
  function MinuteOf(now: int): (m: int)
    ensures m * MINUTE <= now < (m + 1) * MINUTE
  {
    now / MINUTE
  }

  /** The latest matching minute among the `n` minutes ending at `m`. */
  function LastFire(c: CronSpec, z: Zone, m: int, n: nat): (r: Option<int>)
    decreases n, m
  {
    if n == 0 then None else if Matches(c, z, m) then Some(m) else LastFire(c, z, m - 1, n - 1)
  }

  /** The earliest matching minute among the `n` minutes starting at `m`. */
  function NextFire(c: CronSpec, z: Zone, m: int, n: nat): (r: Option<int>)
    decreases n, m
  {
    if n == 0 then None else if Matches(c, z, m) then Some(m) else NextFire(c, z, m + 1, n - 1)
  }

  function LastCronFire(cron: CronText, z: Zone, now: int): (r: Option<int>) {
    if cron.Cron? then LastFire(cron.spec, z, MinuteOf(now), LOOKBACK) else None
  }

  function NextCronFire(cron: CronText, z: Zone, now: int): (r: Option<int>) {
    if cron.Cron? then NextFire(cron.spec, z, MinuteOf(now) + 1, LOOKAHEAD) else None
  }

  method SearchBack(cron: CronText, z: Zone, now: int) returns (r: Option<int>)
    ensures r == LastCronFire(cron, z, now)
  {
    if !cron.Cron? {
      return None;
    }
    var t := MinuteOf(now);
    for i := 0 to LOOKBACK
      invariant t == MinuteOf(now) - i
      invariant LastCronFire(cron, z, now) == LastFire(cron.spec, z, t, LOOKBACK - i)
    {
      if Matches(cron.spec, z, t) {
        return Some(t);
      }
      t := t - 1;
    }
    return None;
  }

  method SearchAhead(cron: CronText, z: Zone, now: int) returns (r: Option<int>)
    ensures r == NextCronFire(cron, z, now)
  {
    if !cron.Cron? {
      return None;
    }
    var t := MinuteOf(now) + 1;
    for i := 0 to LOOKAHEAD
      invariant t == MinuteOf(now) + 1 + i
      invariant NextCronFire(cron, z, now) == NextFire(cron.spec, z, t, LOOKAHEAD - i)
    {
      if Matches(cron.spec, z, t) {
        return Some(t);
      }
      t := t + 1;
    }
    return None;
  }

  function DurationOf(p: Period): (d: int) {
    if p.duration.Some? then p.duration.value else HOUR
  }

  predicate InPeriod(p: Period, z: Zone, now: int) {
    if p.from.Some? && now < p.from.value then false
    else if p.until.Some? && now > p.until.value then false
    else if p.cron.NoCron? then p.from.Some? || p.until.Some?
    else
      var start := LastCronFire(p.cron, z, now);
      start.Some? && now < start.value * MINUTE + DurationOf(p)
  }

  function PeriodEnd(p: Period, z: Zone, now: int): (r: Option<int>) {
    if p.until.Some? then p.until
    else if p.cron.NoCron? then None
    else
      var start := LastCronFire(p.cron, z, now);
      if start.None? then None else Some(start.value * MINUTE + DurationOf(p))
  }

  /** When one period could next open, as the search sees it. */
  function Candidate(p: Period, z: Zone, now: int): (r: Option<int>) {
    if p.from.Some? && now < p.from.value then p.from
    else if p.cron.NoCron? then None
    else
      var next := NextCronFire(p.cron, z, now);
      if next.None? then None else Some(next.value * MINUTE)
  }

  /** The earliest candidate of a list of periods. */
  function NextOpening(ps: seq<Period>, z: Zone, now: int): (r: Option<int>) {
    if ps == [] then None else
      var best := NextOpening(ps[..|ps| - 1], z, now);
      var t := Candidate(ps[|ps| - 1], z, now);
      if t.Some? && (best.None? || t.value < best.value) then t else best
  }

  method EarliestOpening(ps: seq<Period>, z: Zone, now: int) returns (best: Option<int>)
    ensures best == NextOpening(ps, z, now)
  {
    best := None;
    for i := 0 to |ps|
      invariant best == NextOpening(ps[..i], z, now)
    {
      var p := ps[i];
      assert ps[..i + 1][..i] == ps[..i];
      if p.from.Some? && now < p.from.value {
        if best.None? || p.from.value < best.value {
          best := p.from;
        }
        continue;
      }
      if p.cron.NoCron? {
        continue;
      }
      var fire := SearchAhead(p.cron, z, now);
      if fire.Some? {
        var t := fire.value * MINUTE;
        assert Candidate(p, z, now) == Some(t);
        if best.None? || t < best.value {
          best := Some(t);
        }
      }
    }
    assert ps[..|ps|] == ps;
  }

  /** The first period of a list that contains `now`. */
  function FirstIn(ps: seq<Period>, z: Zone, now: int): (r: Option<Period>) {
    if ps == [] then None
    else if InPeriod(ps[0], z, now) then Some(ps[0])
    else FirstIn(ps[1..], z, now)
  }

  function ReasonOr(p: Period, fallback: string): (r: string) {
    if p.reason != "" then p.reason else fallback
  }

  function EvaluateWindow(w: WindowSpec, now: int): (s: WindowState) {
    var denied := FirstIn(w.deny, w.zone, now);
    if denied.Some? then
      WindowState(false, ReasonOr(denied.value, "denied by policy"), PeriodEnd(denied.value, w.zone, now), None)
    else if w.allow == [] then
      WindowState(true, "no schedule configured", None, None)
    else
      var allowed := FirstIn(w.allow, w.zone, now);
      if allowed.Some? then
        WindowState(true, ReasonOr(allowed.value, "within allowed window"), None,
                    PeriodEnd(allowed.value, w.zone, now))
      else
        WindowState(false, "outside all allowed windows", NextOpening(w.allow, w.zone, now), None)
  }

  lemma {:induction false} LastFireIsLatest(c: CronSpec, z: Zone, m: int, n: nat)
    ensures var r := LastFire(c, z, m, n);
            && (r.Some? ==> m - n < r.value <= m && Matches(c, z, r.value))
            && (forall k :: m - n < k <= m && (r.Some? ==> r.value < k) ==> !Matches(c, z, k))
    decreases n
  {
    if n > 0 && !Matches(c, z, m) {
      LastFireIsLatest(c, z, m - 1, n - 1);
    }
  }

  lemma {:induction false} NextFireIsEarliest(c: CronSpec, z: Zone, m: int, n: nat)
    ensures var r := NextFire(c, z, m, n);
            && (r.Some? ==> m <= r.value < m + n && Matches(c, z, r.value))
            && (forall k :: m <= k < m + n && (r.Some? ==> k < r.value) ==> !Matches(c, z, k))
    decreases n
  {
    if n > 0 && !Matches(c, z, m) {
      NextFireIsEarliest(c, z, m + 1, n - 1);
    }
  }

  lemma NextFireAtMost(c: CronSpec, z: Zone, m: int, n: nat, f: int)
    requires m <= f < m + n && Matches(c, z, f)
    ensures NextFire(c, z, m, n).Some? && NextFire(c, z, m, n).value <= f
  {
    NextFireIsEarliest(c, z, m, n);
  }

  lemma {:induction false} FirstInFinds(ps: seq<Period>, z: Zone, now: int)
    ensures FirstIn(ps, z, now).Some? <==> exists i :: 0 <= i < |ps| && InPeriod(ps[i], z, now)
  {
    if ps != [] && !InPeriod(ps[0], z, now) {
      FirstInFinds(ps[1..], z, now);
      if i :| 0 <= i < |ps| && InPeriod(ps[i], z, now) {
        assert ps[1..][i - 1] == ps[i];
      }
      if i :| 0 <= i < |ps[1..]| && InPeriod(ps[1..][i], z, now) {
        assert ps[i + 1] == ps[1..][i];
      }
    }
  }

  /** Deny beats allow: open iff no deny period contains the instant, and some allow period does
      unless there are none. */
  lemma OpenMeans(w: WindowSpec, now: int)
    ensures EvaluateWindow(w, now).open <==>
            && (forall i :: 0 <= i < |w.deny| ==> !InPeriod(w.deny[i], w.zone, now))
            && (w.allow == [] || exists i :: 0 <= i < |w.allow| && InPeriod(w.allow[i], w.zone, now))
  {
    FirstInFinds(w.deny, w.zone, now);
    FirstInFinds(w.allow, w.zone, now);
  }

  lemma {:induction false} NextOpeningIsEarliest(ps: seq<Period>, z: Zone, now: int)
    ensures var r := NextOpening(ps, z, now);
            && (r.Some? ==> exists i :: 0 <= i < |ps| && Candidate(ps[i], z, now) == r)
            && (forall i :: 0 <= i < |ps| && Candidate(ps[i], z, now).Some? ==>
                  r.Some? && r.value <= Candidate(ps[i], z, now).value)
  {
    if ps != [] {
      var init := ps[..|ps| - 1];
      NextOpeningIsEarliest(init, z, now);
      assert forall i :: 0 <= i < |init| ==> init[i] == ps[i];
    }
  }

  /** A field that is set narrows a cron to the minutes that have it, and the five narrow it together: a day
      of the month and a weekday both set must both be met. */
  lemma FieldsNarrow(c: CronSpec, z: Zone, m: int)
    ensures Matches(CronSpec(-1, -1, -1, -1, -1), z, m)
    ensures c.min != -1 ==> (Matches(CronSpec(c.min, -1, -1, -1, -1), z, m) <==> z(m).minute == c.min)
    ensures c.hour != -1 ==> (Matches(CronSpec(-1, c.hour, -1, -1, -1), z, m) <==> z(m).hour == c.hour)
    ensures c.dom != -1 ==> (Matches(CronSpec(-1, -1, c.dom, -1, -1), z, m) <==> z(m).day == c.dom)
    ensures c.month != -1 ==> (Matches(CronSpec(-1, -1, -1, c.month, -1), z, m) <==> z(m).month == c.month)
    ensures c.dow != -1 ==> (Matches(CronSpec(-1, -1, -1, -1, c.dow), z, m) <==> z(m).weekday == c.dow)
    ensures Matches(c, z, m) <==>
            && Matches(CronSpec(c.min, -1, -1, -1, -1), z, m) && Matches(CronSpec(-1, c.hour, -1, -1, -1), z, m)
            && Matches(CronSpec(-1, -1, c.dom, -1, -1), z, m) && Matches(CronSpec(-1, -1, -1, c.month, -1), z, m)
            && Matches(CronSpec(-1, -1, -1, -1, c.dow), z, m)
  {
  }

  // --- The bounded search against the unbounded schedule -------------------------------------

  ghost predicate PureCron(p: Period) {
    p.cron.Cron? && p.from.None? && p.until.None?
  }

  /** The declared schedule: some matching minute of all history opened the period and its
      duration has not run out. */
  ghost predicate Declared(p: Period, z: Zone, now: int)
    requires p.cron.Cron?
  {
    exists f :: Matches(p.cron.spec, z, f) && f * MINUTE <= now < f * MINUTE + DurationOf(p)
  }

  predicate InBounds(p: Period, now: int) {
    (p.from.Some? ==> p.from.value <= now) && (p.until.Some? ==> now <= p.until.value)
  }

  /** How long one firing keeps its period open: the duration, cut at the look-back. */
  function Slot(p: Period): (d: int) {
    Min(DurationOf(p), LOOKBACK * MINUTE)
  }

  /** Minute `f` fires and its slot contains `t`. */
  ghost predicate Live(p: Period, z: Zone, f: int, t: int)
    requires p.cron.Cron?
  {
    Matches(p.cron.spec, z, f) && f * MINUTE <= t < f * MINUTE + Slot(p)
  }

  /** The bounded search for any period and any duration: within its bounds, and some matching minute
      of all history opened a slot that has not run out. */
  lemma InPeriodExact(p: Period, z: Zone, now: int)
    requires p.cron.Cron?
    ensures InPeriod(p, z, now) <==>
            InBounds(p, now) && exists f :: Live(p, z, f, now)
  {
    LastFireIsLatest(p.cron.spec, z, MinuteOf(now), LOOKBACK);
    var r := LastFire(p.cron.spec, z, MinuteOf(now), LOOKBACK);
    if r.Some? && now < r.value * MINUTE + DurationOf(p) {
      assert Live(p, z, r.value, now);
    }
    if f :| Live(p, z, f, now) {
      assert MinuteOf(now) - LOOKBACK < f <= MinuteOf(now);
    }
  }

  lemma InPeriodIsDeclared(p: Period, z: Zone, now: int)
    requires p.cron.Cron? && DurationOf(p) <= LOOKBACK * MINUTE
    ensures InPeriod(p, z, now) <==> InBounds(p, now) && Declared(p, z, now)
  {
    InPeriodExact(p, z, now);
    assert forall f :: Matches(p.cron.spec, z, f) && f * MINUTE <= now < f * MINUTE + DurationOf(p) ==>
             Live(p, z, f, now);
  }

  /** An absolute period holds between its bounds, both included; one with neither never does, and neither
      does one whose cron cannot be read. */
  lemma AbsoluteMeans(p: Period, z: Zone, now: int)
    ensures p.cron.NoCron? ==> (InPeriod(p, z, now) <==> (p.from.Some? || p.until.Some?) && InBounds(p, now))
    ensures p.cron.Unparsable? ==> !InPeriod(p, z, now) && (p.from.None? ==> Candidate(p, z, now).None?)
  {
  }

  ghost predicate SearchIsExact(d: int) {
    forall p: Period, z: Zone, now: int :: PureCron(p) && DurationOf(p) == d ==>
      (InPeriod(p, z, now) <==> Declared(p, z, now))
  }

  /** Two days of look-back are enough exactly for periods of at most two days. */
  lemma LookbackBound(d: int)
    ensures SearchIsExact(d) <==> d <= LOOKBACK * MINUTE
  {
    if d <= LOOKBACK * MINUTE {
      forall p: Period, z: Zone, now: int | PureCron(p) && DurationOf(p) == d
        ensures InPeriod(p, z, now) <==> Declared(p, z, now)
      {
        InPeriodIsDeclared(p, z, now);
      }
    } else {
      var z: Zone := (m: int) => LocalTime(if m == 0 then 0 else 1, 0, 1, 1, 0);
      var p := Period(Cron(CronSpec(0, -1, -1, -1, -1)), Some(d), None, None, "");
      var now := LOOKBACK * MINUTE;
      LastFireIsLatest(p.cron.spec, z, MinuteOf(now), LOOKBACK);
      assert Matches(p.cron.spec, z, 0);
      assert Declared(p, z, now);
      assert !InPeriod(p, z, now);
      assert PureCron(p) && DurationOf(p) == d;
    }
  }

  // --- How long a period lasts -----------------------------------------------------------------

  /** `x` is the first instant after a slot of the period, or after the period itself. */
  ghost predicate Ends(p: Period, z: Zone, x: int) {
    || p.until == Some(x - 1)
    || (p.cron.Cron? && exists f :: Matches(p.cron.spec, z, f) && x == f * MINUTE + Slot(p))
  }

  ghost predicate Within(ps: seq<Period>, z: Zone, t: int) {
    exists i :: 0 <= i < |ps| && InPeriod(ps[i], z, t)
  }

  lemma LeavesAtEnd(p: Period, z: Zone, t: int)
    requires InPeriod(p, z, t - 1) && !InPeriod(p, z, t)
    ensures Ends(p, z, t)
  {
    if p.cron.Cron? {
      InPeriodExact(p, z, t - 1);
      InPeriodExact(p, z, t);
      var f :| Live(p, z, f, t - 1);
      SlotRunsOut(p, z, f, t);
    }
  }

  lemma SlotRunsOut(p: Period, z: Zone, f: int, t: int)
    requires p.cron.Cron? && Live(p, z, f, t - 1) && InBounds(p, t - 1) && !(InBounds(p, t) && Live(p, z, f, t))
    ensures Ends(p, z, t)
  {
  }

  /** Wherever one period of the list ends strictly between the two instants, another one is in force. */
  ghost predicate HandsOver(ps: seq<Period>, z: Zone, now: int, e: int) {
    forall i, x :: 0 <= i < |ps| && now < x < e && Ends(ps[i], z, x) ==> Within(ps, z, x)
  }

  lemma {:induction false} HandsOverUntil(ps: seq<Period>, z: Zone, now: int, e: int, t: int)
    requires Within(ps, z, now) && HandsOver(ps, z, now, e) && now <= t < e
    ensures Within(ps, z, t)
    decreases t - now
  {
    if now < t {
      HandsOverUntil(ps, z, now, e, t - 1);
      var i :| 0 <= i < |ps| && InPeriod(ps[i], z, t - 1);
      if !InPeriod(ps[i], z, t) {
        LeavesAtEnd(ps[i], z, t);
      }
    }
  }

  /** A list of periods stays in force throughout exactly when it does at the instants at which one of
      its periods ends: for recurring ones, finitely many. */
  lemma InForceThroughout(ps: seq<Period>, z: Zone, now: int, e: int)
    requires Within(ps, z, now)
    ensures (forall t :: now <= t < e ==> Within(ps, z, t)) <==> HandsOver(ps, z, now, e)
  {
    if HandsOver(ps, z, now, e) {
      forall t | now <= t < e
        ensures Within(ps, z, t)
      {
        HandsOverUntil(ps, z, now, e, t);
      }
    }
  }

  /** Every slot that runs out strictly between the two instants is followed by one begun by then. */
  ghost predicate Unbroken(p: Period, z: Zone, now: int, e: int)
    requires p.cron.Cron?
  {
    forall f :: Matches(p.cron.spec, z, f) && now < f * MINUTE + Slot(p) < e ==>
      exists g :: Matches(p.cron.spec, z, g) && f < g && g * MINUTE <= f * MINUTE + Slot(p)
  }

  lemma UnbrokenHandsOver(p: Period, z: Zone, now: int, e: int)
    requires p.cron.Cron? && InPeriod(p, z, now) && (p.until.Some? ==> e <= p.until.value)
    ensures HandsOver([p], z, now, e) <==> Unbroken(p, z, now, e)
  {
    if Unbroken(p, z, now, e) {
      forall x | now < x < e && Ends(p, z, x)
        ensures InPeriod(p, z, x)
      {
        var f :| Matches(p.cron.spec, z, f) && x == f * MINUTE + Slot(p);
        var g :| Matches(p.cron.spec, z, g) && f < g && g * MINUTE <= x;
        InPeriodExact(p, z, x);
        assert Live(p, z, g, x);
      }
      forall i, x | 0 <= i < 1 && now < x < e && Ends([p][i], z, x)
        ensures Within([p], z, x)
      {
        assert InPeriod([p][0], z, x);
      }
    }
    if HandsOver([p], z, now, e) {
      forall f | Matches(p.cron.spec, z, f) && now < f * MINUTE + Slot(p) < e
        ensures exists g :: Matches(p.cron.spec, z, g) && f < g && g * MINUTE <= f * MINUTE + Slot(p)
      {
        var x := f * MINUTE + Slot(p);
        assert Ends([p][0], z, x);
        assert Within([p], z, x);
        InPeriodExact(p, z, x);
        var g :| Live(p, z, g, x);
        assert f < g;
      }
    }
  }

  /** A recurring period without an upper bound, of at most two days, announces the end of its slot. */
  lemma SlotIsUnbroken(p: Period, z: Zone, now: int)
    requires InPeriod(p, z, now) && p.cron.Cron? && p.until.None? && DurationOf(p) <= LOOKBACK * MINUTE
    ensures Unbroken(p, z, now, PeriodEnd(p, z, now).value)
  {
    LastFireIsLatest(p.cron.spec, z, MinuteOf(now), LOOKBACK);
    var g := LastCronFire(p.cron, z, now).value;
    forall f | Matches(p.cron.spec, z, f) && now < f * MINUTE + Slot(p) < PeriodEnd(p, z, now).value
      ensures exists g :: Matches(p.cron.spec, z, g) && f < g && g * MINUTE <= f * MINUTE + Slot(p)
    {
      assert Matches(p.cron.spec, z, g) && f < g && g * MINUTE <= f * MINUTE + Slot(p);
    }
  }

  lemma InForceAlone(p: Period, z: Zone, now: int, e: int)
    requires InPeriod(p, z, now)
    ensures (forall t :: now <= t < e ==> InPeriod(p, z, t)) <==> HandsOver([p], z, now, e)
  {
    assert InPeriod([p][0], z, now);
    InForceThroughout([p], z, now, e);
    forall t
      ensures Within([p], z, t) <==> InPeriod(p, z, t)
    {
      assert [p][0] == p;
    }
  }

  /** The end a period announces is right for an absolute period; for a recurring one exactly when its
      slots do not leave a gap before it. Unbounded slots of at most two days never do. */
  lemma StaysOpen(p: Period, z: Zone, now: int)
    requires InPeriod(p, z, now) && PeriodEnd(p, z, now).Some?
    ensures var e := PeriodEnd(p, z, now).value;
            && ((forall t :: now <= t < e ==> InPeriod(p, z, t)) <==> p.cron.NoCron? || Unbroken(p, z, now, e))
            && (p.cron.Cron? && p.until.None? && DurationOf(p) <= LOOKBACK * MINUTE ==> Unbroken(p, z, now, e))
  {
    var e := PeriodEnd(p, z, now).value;
    InForceAlone(p, z, now, e);
    if p.cron.Cron? {
      UnbrokenHandsOver(p, z, now, e);
      if p.until.None? && DurationOf(p) <= LOOKBACK * MINUTE {
        SlotIsUnbroken(p, z, now);
      }
    }
  }

  /** Minute `f` is the latest to fire by `now`, in all of history. */
  ghost predicate LatestFire(c: CronSpec, z: Zone, now: int, f: int) {
    Matches(c, z, f) && f * MINUTE <= now && forall m :: f < m <= MinuteOf(now) ==> !Matches(c, z, m)
  }

  /** The end a recurring period announces lies ahead: it is its upper bound, or else the end of the slot
      latest begun, in force until then if slots last at most two days. */
  lemma EndIsAhead(p: Period, z: Zone, now: int)
    requires InPeriod(p, z, now)
    ensures p.until.Some? ==> PeriodEnd(p, z, now) == p.until && now <= p.until.value
    ensures p.until.None? && p.cron.NoCron? ==> PeriodEnd(p, z, now).None?
    ensures p.until.None? && p.cron.Cron? ==>
              && PeriodEnd(p, z, now).Some? && now < PeriodEnd(p, z, now).value
              && (exists f :: LatestFire(p.cron.spec, z, now, f) &&
                              PeriodEnd(p, z, now).value == f * MINUTE + DurationOf(p))
              && (DurationOf(p) <= LOOKBACK * MINUTE ==>
                    forall t :: now <= t < PeriodEnd(p, z, now).value ==> InPeriod(p, z, t))
  {
    if p.until.None? && p.cron.Cron? {
      LastFireIsLatest(p.cron.spec, z, MinuteOf(now), LOOKBACK);
      var f := LastCronFire(p.cron, z, now).value;
      assert LatestFire(p.cron.spec, z, now, f);
      StaysOpen(p, z, now);
    }
  }

  /** NextClose of an open window, and NextOpen of a denied one, are the end announced by the first period
      in force, and its reason is given unless it has none. */
  lemma VerdictNamesPeriod(w: WindowSpec, now: int)
    ensures var st := EvaluateWindow(w, now);
            && (st.open && w.allow != [] ==>
                  exists i :: && FirstInForce(w.allow, w.zone, now, i)
                              && st.nextClose == PeriodEnd(w.allow[i], w.zone, now)
                              && st.reason == if w.allow[i].reason == "" then "within allowed window"
                                              else w.allow[i].reason)
            && (st.open && w.allow == [] ==> st.nextClose.None? && st.reason == "no schedule configured")
            && (!st.open && !Within(w.deny, w.zone, now) ==> st.reason == "outside all allowed windows")
            && (Within(w.deny, w.zone, now) ==>
                  exists i :: && FirstInForce(w.deny, w.zone, now, i)
                              && st.nextOpen == PeriodEnd(w.deny[i], w.zone, now)
                              && st.reason == if w.deny[i].reason == "" then "denied by policy"
                                              else w.deny[i].reason)
  {
    FirstInFinds(w.deny, w.zone, now);
    if Within(w.deny, w.zone, now) {
      var i := FirstInAt(w.deny, w.zone, now);
    } else if w.allow != [] && EvaluateWindow(w, now).open {
      var i := FirstInAt(w.allow, w.zone, now);
    }
  }

  ghost predicate FirstInForce(ps: seq<Period>, z: Zone, now: int, i: int) {
    0 <= i < |ps| && InPeriod(ps[i], z, now) && forall j :: 0 <= j < i ==> !InPeriod(ps[j], z, now)
  }

  lemma {:induction false} FirstInAt(ps: seq<Period>, z: Zone, now: int) returns (i: nat)
    requires FirstIn(ps, z, now).Some?
    ensures FirstInForce(ps, z, now, i) && FirstIn(ps, z, now) == Some(ps[i])
  {
    if InPeriod(ps[0], z, now) {
      i := 0;
    } else {
      var j := FirstInAt(ps[1..], z, now);
      i := j + 1;
      assert forall k :: 1 <= k < i ==> ps[k] == ps[1..][k - 1];
    }
  }

  lemma {:induction false} FirstInIsIn(ps: seq<Period>, z: Zone, now: int)
    requires FirstIn(ps, z, now).Some?
    ensures exists i :: 0 <= i < |ps| && ps[i] == FirstIn(ps, z, now).value && InPeriod(ps[i], z, now)
  {
    if !InPeriod(ps[0], z, now) {
      FirstInIsIn(ps[1..], z, now);
      var i :| 0 <= i < |ps[1..]| && ps[1..][i] == FirstIn(ps, z, now).value && InPeriod(ps[1..][i], z, now);
      assert ps[i + 1] == ps[1..][i];
    }
  }

  /** `x` is an instant at which a slot of the period, or the period itself, begins. */
  ghost predicate Starts(p: Period, z: Zone, x: int) {
    p.from == Some(x) || (p.cron.Cron? && exists f :: Matches(p.cron.spec, z, f) && x == f * MINUTE)
  }

  lemma EntersAtStart(p: Period, z: Zone, t: int)
    requires !InPeriod(p, z, t - 1) && InPeriod(p, z, t)
    ensures Starts(p, z, t)
  {
    if p.cron.Cron? && p.from != Some(t) {
      InPeriodExact(p, z, t);
      var f :| Live(p, z, f, t);
      if f * MINUTE < t {
        assert Live(p, z, f, t - 1);
        InPeriodExact(p, z, t - 1);
        assert false;
      }
    }
  }

  /** No period of the list is in force where it starts strictly between the two instants. */
  ghost predicate NoneStarts(ps: seq<Period>, z: Zone, now: int, e: int) {
    forall i, x :: 0 <= i < |ps| && now < x < e && Starts(ps[i], z, x) ==> !InPeriod(ps[i], z, x)
  }

  lemma {:induction false} QuietUntil(ps: seq<Period>, z: Zone, now: int, e: int, t: int)
    requires !Within(ps, z, now) && NoneStarts(ps, z, now, e) && now <= t < e
    ensures !Within(ps, z, t)
    decreases t - now
  {
    if now < t {
      QuietUntil(ps, z, now, e, t - 1);
      if i :| 0 <= i < |ps| && InPeriod(ps[i], z, t) {
        EntersAtStart(ps[i], z, t);
        assert false;
      }
    }
  }

  /** A list of periods that is not in force stays so exactly when none is at the instants at which one of
      its periods or slots starts. */
  lemma QuietThroughout(ps: seq<Period>, z: Zone, now: int, e: int)
    requires !Within(ps, z, now)
    ensures (forall t :: now <= t < e ==> !Within(ps, z, t)) <==> NoneStarts(ps, z, now, e)
  {
    if NoneStarts(ps, z, now, e) {
      forall t | now <= t < e
        ensures !Within(ps, z, t)
      {
        QuietUntil(ps, z, now, e, t);
      }
    } else {
      var i, x :| 0 <= i < |ps| && now < x < e && Starts(ps[i], z, x) && InPeriod(ps[i], z, x);
      assert Within(ps, z, x);
    }
  }

  /** NextClose of an open window is the end announced by the first allow period in force. The window is
      open until then exactly when the allow list hands over at each end in between and no deny period
      starts. */
  lemma OpenUntilNextClose(w: WindowSpec, now: int)
    requires EvaluateWindow(w, now).open && EvaluateWindow(w, now).nextClose.Some?
    ensures var e := EvaluateWindow(w, now).nextClose.value;
            (forall t :: now <= t < e ==> EvaluateWindow(w, t).open) <==>
            HandsOver(w.allow, w.zone, now, e) && NoneStarts(w.deny, w.zone, now, e)
  {
    var e := EvaluateWindow(w, now).nextClose.value;
    OpenMeans(w, now);
    InForceThroughout(w.allow, w.zone, now, e);
    QuietThroughout(w.deny, w.zone, now, e);
    forall t
      ensures EvaluateWindow(w, t).open <==> !Within(w.deny, w.zone, t) && Within(w.allow, w.zone, t)
    {
      OpenMeans(w, t);
    }
  }

  /** NextOpen of a denied window is the end announced by the first deny period in force: denial lasts
      until then exactly when the deny list hands over at each end in between. */
  lemma DeniedUntilNextOpen(w: WindowSpec, now: int)
    requires Within(w.deny, w.zone, now) && EvaluateWindow(w, now).nextOpen.Some?
    ensures var e := EvaluateWindow(w, now).nextOpen.value;
            && ((forall t :: now <= t < e ==> Within(w.deny, w.zone, t)) <==> HandsOver(w.deny, w.zone, now, e))
            && (HandsOver(w.deny, w.zone, now, e) ==> forall t :: now <= t < e ==> !EvaluateWindow(w, t).open)
  {
    var e := EvaluateWindow(w, now).nextOpen.value;
    InForceThroughout(w.deny, w.zone, now, e);
    forall t | Within(w.deny, w.zone, t)
      ensures !EvaluateWindow(w, t).open
    {
      OpenMeans(w, t);
    }
  }

  // --- NextOpen -----------------------------------------------------------------------------

  /** The period fires by `s`, but past the 370 days the search looks ahead. */
  ghost predicate FiresUnseen(p: Period, z: Zone, now: int, s: int) {
    p.cron.Cron? && exists m :: Matches(p.cron.spec, z, m) && MinuteOf(now) + LOOKAHEAD < m && m * MINUTE <= s
  }

  /** A recurring period closed now and open later fires in between. */
  lemma FiresBefore(p: Period, z: Zone, now: int, s: int) returns (f: int)
    requires p.cron.Cron? && InBounds(p, now) && !InPeriod(p, z, now) && InPeriod(p, z, s) && now <= s
    ensures Matches(p.cron.spec, z, f) && MinuteOf(now) < f && f * MINUTE <= s
  {
    InPeriodExact(p, z, s);
    f :| Live(p, z, f, s);
    if f <= MinuteOf(now) {
      assert Live(p, z, f, now);
      InPeriodExact(p, z, now);
      assert false;
    }
  }

  /** A period closed now and open later has a candidate no later than that, unless it fires unseen. */
  lemma CandidateIsEarly(p: Period, z: Zone, now: int, s: int)
    requires !InPeriod(p, z, now) && InPeriod(p, z, s) && now <= s && !FiresUnseen(p, z, now, s)
    ensures Candidate(p, z, now).Some? && Candidate(p, z, now).value <= s
  {
    if !(p.from.Some? && now < p.from.value) && p.cron.Cron? {
      var f := FiresBefore(p, z, now, s);
      NextFireAtMost(p.cron.spec, z, MinuteOf(now) + 1, LOOKAHEAD, f);
    }
  }

  /** Some period of the list fires by `s`, past the look-ahead. */
  ghost predicate Overlooks(ps: seq<Period>, z: Zone, now: int, s: int) {
    exists i :: 0 <= i < |ps| && FiresUnseen(ps[i], z, now, s)
  }

  /** A window that no deny rule closes now stays closed until the NextOpen it announces, and for ever when it
      announces none, up to the first firing past the 370-day horizon; within the horizon, then, always. No
      condition on the allow list is needed, and deny rules may come into force meanwhile. */
  lemma ClosedUntilNextOpen(w: WindowSpec, now: int, s: int)
    requires !Within(w.deny, w.zone, now) && !EvaluateWindow(w, now).open
    requires now <= s && !Overlooks(w.allow, w.zone, now, s)
    requires var t := EvaluateWindow(w, now).nextOpen; t.Some? ==> s < t.value
    ensures !EvaluateWindow(w, s).open
  {
    OpenMeans(w, now);
    OpenMeans(w, s);
    FirstInFinds(w.deny, w.zone, now);
    NextOpeningIsEarliest(w.allow, w.zone, now);
    if EvaluateWindow(w, s).open {
      var i :| 0 <= i < |w.allow| && InPeriod(w.allow[i], w.zone, s);
      CandidateIsEarly(w.allow[i], w.zone, now, s);
      assert false;
    }
  }

  /** Nothing is overlooked within 370 days. */
  lemma WithinHorizon(ps: seq<Period>, z: Zone, now: int, s: int)
    requires s <= now + 370 * 24 * HOUR
    ensures !Overlooks(ps, z, now, s)
  {
  }

  /** Periods that mean one thing: a recurring one with positive length and no bounds, or an
      absolute one whose bounds are in order. */
  ghost predicate Simple(p: Period) {
    || (PureCron(p) && DurationOf(p) > 0)
    || (p.cron.NoCron? && (p.from.Some? && p.until.Some? ==> p.from.value <= p.until.value))
  }

  lemma SimpleOpensAtCandidate(p: Period, z: Zone, now: int)
    requires Simple(p) && Candidate(p, z, now).Some?
    ensures InPeriod(p, z, Candidate(p, z, now).value)
  {
    var t := Candidate(p, z, now).value;
    if PureCron(p) {
      NextFireIsEarliest(p.cron.spec, z, MinuteOf(now) + 1, LOOKAHEAD);
      assert MinuteOf(t) * MINUTE == t;
      assert LastCronFire(p.cron, z, t) == Some(MinuteOf(t));
    }
  }

  lemma SimpleOpensAtFire(p: Period, z: Zone, m: int)
    requires Simple(p) && p.cron.Cron? && Matches(p.cron.spec, z, m)
    ensures InPeriod(p, z, m * MINUTE)
  {
    InPeriodExact(p, z, m * MINUTE);
    assert Live(p, z, m, m * MINUTE);
  }

  lemma OverlookedOpens(w: WindowSpec, now: int, t: int) returns (s: int)
    requires w.deny == [] && Overlooks(w.allow, w.zone, now, t - 1)
    requires forall i :: 0 <= i < |w.allow| ==> Simple(w.allow[i])
    ensures now <= s < t && EvaluateWindow(w, s).open
  {
    var i :| 0 <= i < |w.allow| && FiresUnseen(w.allow[i], w.zone, now, t - 1);
    var m :| && Matches(w.allow[i].cron.spec, w.zone, m) && MinuteOf(now) + LOOKAHEAD < m && m * MINUTE <= t - 1;
    s := m * MINUTE;
    SimpleOpensAtFire(w.allow[i], w.zone, m);
    OpenMeans(w, s);
  }

  lemma EarlierOverlooks(ps: seq<Period>, z: Zone, now: int, s: int, t: int)
    requires s <= t && Overlooks(ps, z, now, s)
    ensures Overlooks(ps, z, now, t)
  {
    var i :| 0 <= i < |ps| && FiresUnseen(ps[i], z, now, s);
    assert FiresUnseen(ps[i], z, now, t);
  }

  /** NextOpen of a simple allow list is exact - closed at every instant before it, open at it - exactly
      when no recurring period fires before it beyond the 370-day horizon. */
  lemma NextOpenExact(w: WindowSpec, now: int)
    requires w.deny == [] && !EvaluateWindow(w, now).open && EvaluateWindow(w, now).nextOpen.Some?
    requires forall i :: 0 <= i < |w.allow| ==> Simple(w.allow[i])
    ensures var t := EvaluateWindow(w, now).nextOpen.value;
            EvaluateWindow(w, t).open &&
            ((forall s :: now <= s < t ==> !EvaluateWindow(w, s).open) <==>
             !Overlooks(w.allow, w.zone, now, t - 1))
  {
    var t := EvaluateWindow(w, now).nextOpen.value;
    NextOpeningIsEarliest(w.allow, w.zone, now);
    OpenMeans(w, now);
    OpenMeans(w, t);
    var i :| 0 <= i < |w.allow| && Candidate(w.allow[i], w.zone, now) == Some(t);
    SimpleOpensAtCandidate(w.allow[i], w.zone, now);
    if Overlooks(w.allow, w.zone, now, t - 1) {
      var s := OverlookedOpens(w, now, t);
    } else {
      forall s | now <= s < t
        ensures !EvaluateWindow(w, s).open
      {
        if Overlooks(w.allow, w.zone, now, s) {
          EarlierOverlooks(w.allow, w.zone, now, s, t - 1);
        }
        ClosedUntilNextOpen(w, now, s);
      }
    }
  }

  /** Recurring periods alone never announce an opening beyond the search horizon. */
  lemma PureCronWithinHorizon(w: WindowSpec, now: int)
    requires w.deny == [] && !EvaluateWindow(w, now).open
    requires forall i :: 0 <= i < |w.allow| ==> PureCron(w.allow[i])
    requires EvaluateWindow(w, now).nextOpen.Some?
    ensures EvaluateWindow(w, now).nextOpen.value <= (MinuteOf(now) + LOOKAHEAD) * MINUTE
  {
    var t := EvaluateWindow(w, now).nextOpen;
    NextOpeningIsEarliest(w.allow, w.zone, now);
    OpenMeans(w, now);
    var i :| 0 <= i < |w.allow| && Candidate(w.allow[i], w.zone, now) == t;
    NextFireIsEarliest(w.allow[i].cron.spec, w.zone, MinuteOf(now) + 1, LOOKAHEAD);
    assert t.value == NextCronFire(w.allow[i].cron, w.zone, now).value * MINUTE;
  }

  /** So for recurring periods of positive length NextOpen is always exact. */
  lemma RecurringNextOpenExact(w: WindowSpec, now: int)
    requires w.deny == [] && !EvaluateWindow(w, now).open && EvaluateWindow(w, now).nextOpen.Some?
    requires forall i :: 0 <= i < |w.allow| ==> PureCron(w.allow[i]) && DurationOf(w.allow[i]) > 0
    ensures var t := EvaluateWindow(w, now).nextOpen.value;
            EvaluateWindow(w, t).open && forall s :: now <= s < t ==> !EvaluateWindow(w, s).open
  {
    PureCronWithinHorizon(w, now);
    NextOpenExact(w, now);
  }

  /** A zone in which 29 February falls on one day only. */
  function LeapZone(leap: int): (z: Zone) {
    FixedZone(0, 0, m => if leap * 1440 <= m < (leap + 1) * 1440 then 29 else 1, m => 2)
  }

  lemma LeapFires(c: CronSpec, leap: int, m: int)
    requires c == CronSpec(0, 0, 29, 2, -1)
    ensures Matches(c, LeapZone(leap), m) ==> leap * 1440 <= m
    ensures Matches(c, LeapZone(leap), leap * 1440)
  {
    DivModIs(leap * 1440, 60, leap * 24, 0);
    DivModIs(leap * 24, 24, leap, 0);
  }

  lemma NoFireYet(c: CronSpec, leap: int, now: int)
    requires c == CronSpec(0, 0, 29, 2, -1) && now + 370 * 24 * HOUR < leap * 1440 * MINUTE
    ensures LastCronFire(Cron(c), LeapZone(leap), now).None? && NextCronFire(Cron(c), LeapZone(leap), now).None?
  {
    var z := LeapZone(leap);
    LastFireIsLatest(c, z, MinuteOf(now), LOOKBACK);
    NextFireIsEarliest(c, z, MinuteOf(now) + 1, LOOKAHEAD);
    forall m
      ensures Matches(c, z, m) ==> leap * 1440 <= m
    {
      LeapFires(c, leap, m);
    }
  }

  /** The horizon is real: beside an absolute period that begins later still, a 29 February more than 370
      days off is not announced, and opens the window before the opening that is. */
  lemma LeapDayOverlooked(yearly: Period, late: Period, leap: int, now: int)
    requires yearly == Period(Cron(CronSpec(0, 0, 29, 2, -1)), None, None, None, "")
    requires now + 370 * 24 * HOUR < leap * 1440 * MINUTE
    requires late.cron.NoCron? && late.from.Some? && leap * 1440 * MINUTE < late.from.value
    ensures var w := WindowSpec([yearly, late], [], LeapZone(leap));
            && !EvaluateWindow(w, now).open && EvaluateWindow(w, now).nextOpen == late.from
            && now < leap * 1440 * MINUTE < late.from.value && EvaluateWindow(w, leap * 1440 * MINUTE).open
  {
    var z := LeapZone(leap);
    var w := WindowSpec([yearly, late], [], z);
    NoFireYet(yearly.cron.spec, leap, now);
    TwoPeriods(yearly, late, z, now);
    LeapFires(yearly.cron.spec, leap, 0);
    SimpleOpensAtFire(yearly, z, leap * 1440);
    OpenMeans(w, leap * 1440 * MINUTE);
    assert InPeriod(w.allow[0], z, leap * 1440 * MINUTE);
  }

  /** Of two periods not in force, one without a candidate: the other's is announced. */
  lemma TwoPeriods(p: Period, q: Period, z: Zone, now: int)
    requires !InPeriod(p, z, now) && !InPeriod(q, z, now) && Candidate(p, z, now).None?
    ensures var st := EvaluateWindow(WindowSpec([p, q], [], z), now);
            !st.open && st.nextOpen == Candidate(q, z, now)
  {
    var w := WindowSpec([p, q], [], z);
    OpenMeans(w, now);
    assert forall i :: 0 <= i < |w.allow| ==> !InPeriod(w.allow[i], z, now);
    assert [p, q][..1] == [p] && [p][..0] == [];
    assert NextOpening([p], z, now).None?;
  }

  /** A recurring period with a lower bound announces that bound, and is closed until it. It is open
      there exactly when the bound is not past the upper one and falls into a slot of the schedule; up
      to two days long, into the declared schedule. */
  lemma BoundedCronNextOpen(p: Period, z: Zone, now: int)
    requires p.cron.Cron? && p.from.Some? && now < p.from.value
    ensures var w, from := WindowSpec([p], [], z), p.from.value;
            && EvaluateWindow(w, now).nextOpen == Some(from)
            && (forall s :: s < from ==> !EvaluateWindow(w, s).open)
            && (EvaluateWindow(w, from).open <==>
                  && (p.until.Some? ==> from <= p.until.value)
                  && exists f :: Live(p, z, f, from))
            && (DurationOf(p) <= LOOKBACK * MINUTE ==>
                  (EvaluateWindow(w, from).open <==>
                     (p.until.Some? ==> from <= p.until.value) && Declared(p, z, from)))
  {
    var w := WindowSpec([p], [], z);
    forall s
      ensures EvaluateWindow(w, s).open <==> InPeriod(p, z, s)
    {
      OpenMeans(w, s);
      assert w.allow[0] == p;
    }
    assert EvaluateWindow(w, now).nextOpen == NextOpening([p], z, now);
    assert NextOpening([p], z, now) == Candidate(p, z, now) by { assert [p][..0] == []; }
    InPeriodExact(p, z, p.from.value);
    if DurationOf(p) <= LOOKBACK * MINUTE {
      InPeriodIsDeclared(p, z, p.from.value);
    }
  }

  /** An absolute freeze is inclusive of its last instant: at the NextOpen it announces, the window it
      denied is still closed. One instant later it is open exactly when no other deny period is in force
      and the allow list permits it. */
  lemma FreezeEndsLate(w: WindowSpec, now: int, p: Period)
    requires FirstIn(w.deny, w.zone, now) == Some(p) && p.cron.NoCron? && p.until.Some?
    ensures var e := p.until.value;
            && EvaluateWindow(w, now).nextOpen == Some(e)
            && (forall s :: now <= s <= e ==> !EvaluateWindow(w, s).open)
            && (EvaluateWindow(w, e + 1).open <==>
                  && (forall i :: 0 <= i < |w.deny| && w.deny[i] != p ==> !InPeriod(w.deny[i], w.zone, e + 1))
                  && (w.allow == [] || Within(w.allow, w.zone, e + 1)))
  {
    FirstInIsIn(w.deny, w.zone, now);
    var k :| 0 <= k < |w.deny| && w.deny[k] == p && InPeriod(w.deny[k], w.zone, now);
    forall s | now <= s <= p.until.value
      ensures !EvaluateWindow(w, s).open
    {
      OpenMeans(w, s);
      assert InPeriod(w.deny[k], w.zone, s);
    }
    OpenMeans(w, p.until.value + 1);
  }

  // --- Closed forms in a fixed-offset zone --------------------------------------------------

  /** A zone `off` minutes ahead of the epoch's; days of month and months are left free. */
  function FixedZone(off: int, epochDay: int, dayOf: int -> int, monthOf: int -> int): (z: Zone) {
    m => LocalTime((m + off) % 60, ((m + off) / 60) % 24, dayOf(m), monthOf(m),
                   ((m + off) / 1440 + epochDay) % 7)
  }

  /** A cron that fires exactly every `P` minutes, at `x` among others. */
  ghost predicate Periodic(c: CronSpec, z: Zone, P: nat, x: int) {
    P > 0 && forall m :: Matches(c, z, m) <==> (m - x) % P == 0
  }

  lemma LastPeriodicFire(c: CronSpec, z: Zone, P: nat, x: int, m: int, n: nat)
    requires Periodic(c, z, P, x)
    ensures var r := (m - x) % P;
            LastFire(c, z, m, n) == if r < n then Some(m - r) else None
    decreases n
  {
    if n > 0 && !Matches(c, z, m) {
      LastPeriodicFire(c, z, P, x, m - 1, n - 1);
      var q, r := (m - x) / P, (m - x) % P;
      assert m - x == q * P + r;
      DivModIs(m - 1 - x, P, q, r - 1);
    }
  }

  /** How far `now` is into the cycle that began at the last such minute. */
  lemma CyclePosition(now: int, k: int, P: nat)
    requires P == 1440 || P == 10080
    ensures (now - k * MINUTE) % (P * MINUTE) == now - (MinuteOf(now) - (MinuteOf(now) - k) % P) * MINUTE
  {
    var m := MinuteOf(now);
    var r := (m - k) % P;
    var q := (m - k) / P;
    assert m - k == q * P + r;
    DivModIs(now - k * MINUTE, P * MINUTE, q, now - (m - r) * MINUTE);
  }

  /** The last fire of a periodic cron, and where `now` stands relative to it. */
  lemma PeriodicPosition(cron: CronText, z: Zone, P: nat, x: int, now: int) returns (r: int)
    requires P == 1440 || P == 10080
    requires cron.Cron? && Periodic(cron.spec, z, P, x)
    ensures LastCronFire(cron, z, now) == if r < LOOKBACK then Some(MinuteOf(now) - r) else None
    ensures (now - x * MINUTE) % (P * MINUTE) == now - (MinuteOf(now) - r) * MINUTE
  {
    r := (MinuteOf(now) - x) % P;
    LastPeriodicFire(cron.spec, z, P, x, MinuteOf(now), LOOKBACK);
    CyclePosition(now, x, P);
  }

  /** Within its bounds, a periodic cron's period is open exactly while the position in its cycle is
      below the duration, and below the look-back in any case. */
  lemma PeriodicOpen(p: Period, z: Zone, P: nat, x: int, now: int)
    requires P == 1440 || P == 10080
    requires p.cron.Cron? && Periodic(p.cron.spec, z, P, x)
    ensures InPeriod(p, z, now) <==> InBounds(p, now) && (now - x * MINUTE) % (P * MINUTE) < Slot(p)
  {
    var r := PeriodicPosition(p.cron, z, P, x, now);
    assert r * MINUTE <= now - (MinuteOf(now) - r) * MINUTE < (r + 1) * MINUTE;
  }

  lemma ADayIsShort(y: int)
    ensures 0 <= y % (1440 * MINUTE) < LOOKBACK * MINUTE
    ensures 1440 * MINUTE == 24 * HOUR && 10080 * MINUTE == 168 * HOUR && LOOKBACK * MINUTE == 48 * HOUR
  {
  }

  /** Minute and hour are the digits of the minute of the day. */
  lemma DayFields(x: int)
    ensures x % 60 == (x % 1440) % 60 && (x / 60) % 24 == (x % 1440) / 60
  {
    var d, y := x / 1440, x % 1440;
    var h, m := y / 60, y % 60;
    DivModIs(x, 60, 24 * d + h, m);
    DivModIs(24 * d + h, 24, d, h);
  }

  lemma DailyIsPeriodic(c: CronSpec, off: int, epochDay: int, dayOf: int -> int, monthOf: int -> int, start: int)
    requires 0 <= c.min < 60 && 0 <= c.hour < 24 && c.dom == c.month == c.dow == -1
    requires start == c.hour * 60 + c.min - off
    ensures Periodic(c, FixedZone(off, epochDay, dayOf, monthOf), 1440, start)
  {
    var z := FixedZone(off, epochDay, dayOf, monthOf);
    forall m
      ensures Matches(c, z, m) <==> (m - start) % 1440 == 0
    {
      DayFields(m + off);
      var y := (m + off) % 1440;
      assert Matches(c, z, m) <==> y == c.hour * 60 + c.min by {
        assert y == (y / 60) * 60 + y % 60;
      }
      Congruent(m, c.hour * 60 + c.min, off, 1440);
    }
  }

  /** "m h * * *" with duration d is open iff it is within its bounds, if any, and the time since the
      last h:m, modulo a day, is below d. `start` is that time of day, in minutes. */
  lemma DailyClosedForm(p: Period, off: int, epochDay: int, dayOf: int -> int, monthOf: int -> int,
                        start: int, now: int)
    requires p.cron.Cron?
    requires var c := p.cron.spec;
             && 0 <= c.min < 60 && 0 <= c.hour < 24 && c.dom == c.month == c.dow == -1
             && start == c.hour * 60 + c.min - off
    ensures InPeriod(p, FixedZone(off, epochDay, dayOf, monthOf), now) <==>
            InBounds(p, now) && (now - start * MINUTE) % (24 * HOUR) < DurationOf(p)
  {
    var z := FixedZone(off, epochDay, dayOf, monthOf);
    assert Periodic(p.cron.spec, z, 1440, start) by {
      DailyIsPeriodic(p.cron.spec, off, epochDay, dayOf, monthOf, start);
    }
    PeriodicOpen(p, z, 1440, start, now);
    ADayIsShort(now - start * MINUTE);
  }

  lemma OnePeriod(p: Period, z: Zone, now: int)
    ensures var st := EvaluateWindow(WindowSpec([p], [], z), now);
            st.open <==> InPeriod(p, z, now)
  {
    OpenMeans(WindowSpec([p], [], z), now);
    assert [p][0] == p;
  }

  function Midnight(day: int): (t: int) {
    day * (24 * HOUR)
  }

  /** "0 2 * * *" for an hour, from noon of a day to noon of the sixth day after. */
  function Nightly(day: int): (p: Period) {
    Period(Cron(CronSpec(0, 2, -1, -1, -1)), None,
           Some(Midnight(day) + 12 * HOUR), Some(Midnight(day + 6) + 12 * HOUR), "")
  }

  lemma NightlyIn(dayOf: int -> int, monthOf: int -> int, day: int, k: int, into: int)
    requires 2 * HOUR <= into < 24 * HOUR && 0 <= k <= 6
    ensures InPeriod(Nightly(day), FixedZone(0, 0, dayOf, monthOf), Midnight(day + k) + into) <==>
            (k == 0 ==> into >= 12 * HOUR) && (k == 6 ==> into <= 12 * HOUR) && into < 3 * HOUR
  {
    var now := Midnight(day + k) + into;
    DailyClosedForm(Nightly(day), 0, 0, dayOf, monthOf, 120, now);
    DivModIs(now - 120 * MINUTE, 24 * HOUR, day + k, into - 2 * HOUR);
  }

  lemma ClosedAtBound(p: Period, z: Zone, now: int)
    requires p.cron.Cron? && p.from.Some? && now < p.from.value && !InPeriod(p, z, p.from.value)
    ensures var w := WindowSpec([p], [], z);
            EvaluateWindow(w, now).nextOpen == p.from && !EvaluateWindow(w, p.from.value).open
  {
    BoundedCronNextOpen(p, z, now);
    OnePeriod(p, z, p.from.value);
  }

  /** Before that noon it is announced to open at noon, and is closed there. */
  lemma AnnouncedAndClosed(dayOf: int -> int, monthOf: int -> int, day: int, now: int)
    requires now < Midnight(day) + 12 * HOUR
    ensures var w := WindowSpec([Nightly(day)], [], FixedZone(0, 0, dayOf, monthOf));
            var noon := EvaluateWindow(w, now).nextOpen;
            noon == Some(Midnight(day) + 12 * HOUR) && !EvaluateWindow(w, noon.value).open
  {
    NightlyIn(dayOf, monthOf, day, 0, 12 * HOUR);
    ClosedAtBound(Nightly(day), FixedZone(0, 0, dayOf, monthOf), now);
  }

  /** On each of its nights, at half past two, the end it announces is the sixth day's noon; it is over
      at three. */
  lemma EndsBeforeAnnounced(dayOf: int -> int, monthOf: int -> int, day: int, k: int)
    requires 1 <= k <= 6
    ensures var p, z := Nightly(day), FixedZone(0, 0, dayOf, monthOf);
            var t := Midnight(day + k) + 2 * HOUR + 30 * MINUTE;
            && InPeriod(p, z, t) && PeriodEnd(p, z, t) == Some(Midnight(day + 6) + 12 * HOUR)
            && !InPeriod(p, z, t + 30 * MINUTE)
  {
    NightlyIn(dayOf, monthOf, day, k, 2 * HOUR + 30 * MINUTE);
    NightlyIn(dayOf, monthOf, day, k, 3 * HOUR);
  }

  lemma WeeklyIsPeriodic(c: CronSpec, off: int, epochDay: int, dayOf: int -> int, monthOf: int -> int, start: int)
    requires 0 <= c.min < 60 && 0 <= c.hour < 24 && 0 <= c.dow < 7 && c.dom == c.month == -1
    requires start == c.dow * 1440 + c.hour * 60 + c.min - off - epochDay * 1440
    ensures Periodic(c, FixedZone(off, epochDay, dayOf, monthOf), 10080, start)
  {
    var z := FixedZone(off, epochDay, dayOf, monthOf);
    var shift := off + epochDay * 1440;
    forall m
      ensures Matches(c, z, m) <==> (m - start) % 10080 == 0
    {
      WeekFields(m + off, epochDay);
      var w := (m + shift) % 10080;
      assert Matches(c, z, m) <==> w == start + shift by { Digits(w, c.dow, c.hour, c.min); }
      Congruent(m, start + shift, shift, 10080);
    }
  }

  lemma Digits(w: int, d: int, h: int, m: int)
    requires 0 <= w < 10080 && 0 <= d < 7 && 0 <= h < 24 && 0 <= m < 60
    ensures w == d * 1440 + h * 60 + m <==> w % 60 == m && (w / 60) % 24 == h && w / 1440 == d
  {
  }

  lemma Congruent(m: int, t: int, shift: int, P: nat)
    requires 0 <= t < P
    ensures (m + shift) % P == t <==> (m + shift - t) % P == 0
  {
    var q, w := (m + shift) / P, (m + shift) % P;
    assert m + shift == q * P + w;
    if w >= t {
      DivModIs(m + shift - t, P, q, w - t);
    } else {
      assert (q - 1) * P == q * P - P;
      DivModIs(m + shift - t, P, q - 1, P + w - t);
    }
  }

  /** Minute, hour and weekday are the digits of the minute of the week. */
  lemma WeekFields(x: int, epochDay: int)
    ensures var w := (x + epochDay * 1440) % 10080;
            x % 60 == w % 60 && (x / 60) % 24 == (w / 60) % 24 && (x / 1440 + epochDay) % 7 == w / 1440
  {
    var y := x + epochDay * 1440;
    var D, M := y / 1440, y % 1440;
    var a, b := D / 7, D % 7;
    DivModIs(y, 10080, a, 1440 * b + M);
    DivModIs(x, 1440, D - epochDay, M);
    var H, m := M / 60, M % 60;
    DivModIs(x, 60, 24 * (D - epochDay) + H, m);
    DivModIs(24 * (D - epochDay) + H, 24, D - epochDay, H);
    DivModIs(1440 * b + M, 60, 24 * b + H, m);
    DivModIs(24 * b + H, 24, b, H);
  }

  /** "m h * * w" is open iff it is within its bounds, if any, and the time since the last such weekday
      and hour, modulo a week, is below d and below the two-day look-back. `start` is that weekday and
      hour, in minutes. */
  lemma WeeklyClosedForm(p: Period, off: int, epochDay: int, dayOf: int -> int, monthOf: int -> int,
                         start: int, now: int)
    requires p.cron.Cron?
    requires var c := p.cron.spec;
             && 0 <= c.min < 60 && 0 <= c.hour < 24 && 0 <= c.dow < 7 && c.dom == c.month == -1
             && start == c.dow * 1440 + c.hour * 60 + c.min - off - epochDay * 1440
    ensures InPeriod(p, FixedZone(off, epochDay, dayOf, monthOf), now) <==>
            InBounds(p, now) && (now - start * MINUTE) % (168 * HOUR) < Min(DurationOf(p), 48 * HOUR)
  {
    var z := FixedZone(off, epochDay, dayOf, monthOf);
    assert Periodic(p.cron.spec, z, 10080, start) by {
      WeeklyIsPeriodic(p.cron.spec, off, epochDay, dayOf, monthOf, start);
    }
    PeriodicOpen(p, z, 10080, start, now);
    ADayIsShort(0);
  }

  /** Any valid cron with wildcard day-of-month and month fires within a week. */
  lemma FiresWithinAWeek(c: CronSpec, off: int, epochDay: int, dayOf: int -> int, monthOf: int -> int, now: int)
    requires -1 <= c.min < 60 && -1 <= c.hour < 24 && -1 <= c.dow < 7 && c.dom == c.month == -1
    ensures var r := NextCronFire(Cron(c), FixedZone(off, epochDay, dayOf, monthOf), now);
            r.Some? && r.value <= MinuteOf(now) + 10080
  {
    var z := FixedZone(off, epochDay, dayOf, monthOf);
    var d, h, i := Max(c.dow, 0), Max(c.hour, 0), Max(c.min, 0);
    var w, first := d * 1440 + h * 60 + i, MinuteOf(now) + 1;
    var v := w - off - epochDay * 1440 - first;
    var m := first + v % 10080;
    assert (m + off + epochDay * 1440) % 10080 == w by {
      DivModIs(m + off + epochDay * 1440, 10080, -(v / 10080), w);
    }
    WeekFields(m + off, epochDay);
    Digits(w, d, h, i);
    assert Matches(c, z, m);
    NextFireAtMost(c, z, first, LOOKAHEAD, m);
  }
}
