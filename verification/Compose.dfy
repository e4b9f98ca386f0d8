/** Folding every maintenance window that selects a fleet into one decision, and that decision
    into a rollout: controller/internal/compose.go and the dry run in controller/cmd/plan/main.go. */
module Compose {
  import opened Prelude
  import opened Schedule
  import opened RolloutApi

  type Labels = map<string, string>

  datatype Selector = Everything | Malformed | Matching(accepts: Labels -> bool)

  datatype MaintenanceWindow = MaintenanceWindow(
    name: string, selector: Selector, spec: WindowSpec, maxDevicesPerWindow: int)

  datatype Decision = Decision(open: bool, window: string, reason: string, nextOpen: Option<int>, maxDevices: int)

  predicate SelectsAny(w: MaintenanceWindow, labels: seq<Labels>) {
    match w.selector
    case Everything => true
    case Malformed => false
    case Matching(accepts) => exists i :: 0 <= i < |labels| && accepts(labels[i])
  }

  method WindowSelectsAny(w: MaintenanceWindow, labels: seq<Labels>) returns (hit: bool)
    ensures hit <==> SelectsAny(w, labels)
  {
    if w.selector.Everything? {
      return true;
    }
    if w.selector.Malformed? {
      return false;
    }
    for i := 0 to |labels|
      invariant forall j :: 0 <= j < i ==> !w.selector.accepts(labels[j])
    {
      if w.selector.accepts(labels[i]) {
        return true;
      }
    }
    return false;
  }

  /** One window's say about one fleet at one instant. */
  datatype Ruling = Ruling(name: string, selects: bool, state: WindowState, limit: int) {
    predicate Blocks() { selects && !state.open }
  }

  function Rule(w: MaintenanceWindow, labels: seq<Labels>, now: int): (r: Ruling) {
    Ruling(w.name, SelectsAny(w, labels), EvaluateWindow(w.spec, now), w.maxDevicesPerWindow)
  }

  function Rulings(ws: seq<MaintenanceWindow>, labels: seq<Labels>, now: int): (rs: seq<Ruling>)
    ensures |rs| == |ws| && forall i :: 0 <= i < |ws| ==> rs[i] == Rule(ws[i], labels, now)
  {
    if ws == [] then [] else Rulings(ws[..|ws| - 1], labels, now) + [Rule(ws[|ws| - 1], labels, now)]
  }

  function Later(a: Option<int>, b: Option<int>): (r: Option<int>) {
    if b.Some? && (a.None? || b.value > a.value) then b else a
  }

  /** The latest release among the blocking windows. */
  function LatestRelease(rs: seq<Ruling>): (t: Option<int>)
    ensures t.Some? ==> exists r :: r in rs && r.Blocks() && r.state.nextOpen == t
    ensures forall r :: r in rs && r.Blocks() && r.state.nextOpen.Some? ==>
              t.Some? && r.state.nextOpen.value <= t.value
  {
    if rs == [] then None else
      var init, r := rs[..|rs| - 1], rs[|rs| - 1];
      assert rs == init + [r];
      if r.Blocks() then Later(LatestRelease(init), r.state.nextOpen) else LatestRelease(init)
  }

  function Fold(rs: seq<Ruling>): (d: Decision)
    ensures d.open <==> forall r :: r in rs ==> !r.Blocks()
    ensures d.nextOpen == if d.open then None else LatestRelease(rs)
  {
    if rs == [] then Decision(true, "", "no window selects these devices", None, 0) else
      var init, r := rs[..|rs| - 1], rs[|rs| - 1];
      var d := Fold(init);
      assert rs == init + [r];
      if !r.selects then d
      else if !r.state.open then Decision(false, r.name, r.state.reason, LatestRelease(rs), 0)
      else if d.open then Decision(true, r.name, r.state.reason, None, r.limit)
      else d
  }

  function Decide(ws: seq<MaintenanceWindow>, labels: seq<Labels>, now: int): (d: Decision) {
    if ws == [] then Decision(true, "", "no maintenance window configured", None, 0)
    else Fold(Rulings(ws, labels, now))
  }

  method EvaluateWindowsFor(ws: seq<MaintenanceWindow>, labels: seq<Labels>, now: int) returns (d: Decision)
    ensures d == Decide(ws, labels, now)
  {
    if |ws| == 0 {
      return Decision(true, "", "no maintenance window configured", None, 0);
    }
    ghost var rs := Rulings(ws, labels, now);
    d := Decision(true, "", "no window selects these devices", None, 0);
    var earliestOpen: Option<int> := None;
    for i := 0 to |ws|
      invariant d == Fold(rs[..i])
      invariant earliestOpen == LatestRelease(rs[..i])
    {
      var w := ws[i];
      assert rs[..i + 1][..i] == rs[..i];
      assert rs[i] == Rule(w, labels, now);
      var selects := WindowSelectsAny(w, labels);
      if !selects {
        continue;
      }
      var st := EvaluateWindow(w.spec, now);
      if st.open {
        if d.open {
          d := Decision(true, w.name, st.reason, None, w.maxDevicesPerWindow);
        }
        continue;
      }
      if st.nextOpen.Some? && (earliestOpen.None? || st.nextOpen.value > earliestOpen.value) {
        earliestOpen := st.nextOpen;
      }
      d := Decision(false, w.name, st.reason, earliestOpen, 0);
    }
    assert rs[..|ws|] == rs;
  }

  // --- The composed verdict is a meet ---------------------------------------------------------

  predicate Blocks(w: MaintenanceWindow, labels: seq<Labels>, now: int) {
    Rule(w, labels, now).Blocks()
  }

  /** Open iff every selecting window is open. */
  lemma OpenIsMeet(ws: seq<MaintenanceWindow>, labels: seq<Labels>, now: int)
    ensures Decide(ws, labels, now).open <==> forall i :: 0 <= i < |ws| ==> !Blocks(ws[i], labels, now)
  {
    var rs := Rulings(ws, labels, now);
    if i :| 0 <= i < |ws| && Blocks(ws[i], labels, now) {
      assert rs[i] in rs;
    }
    if r :| r in rs && r.Blocks() {
      var i :| 0 <= i < |rs| && rs[i] == r;
      assert Blocks(ws[i], labels, now);
    }
  }

  /** A window without a selector may block any fleet; one whose selector cannot be read blocks none; any other
      only a fleet with a device it accepts. */
  lemma WhomItBlocks(w: MaintenanceWindow, labels: seq<Labels>, now: int)
    requires !EvaluateWindow(w.spec, now).open
    ensures w.selector.Everything? ==> Blocks(w, labels, now)
    ensures w.selector.Malformed? ==> !Blocks(w, labels, now)
    ensures w.selector.Matching? ==> (Blocks(w, labels, now) <==> exists l :: l in labels && w.selector.accepts(l))
  {
    if w.selector.Matching? {
      if l :| l in labels && w.selector.accepts(l) {
        var i :| 0 <= i < |labels| && labels[i] == l;
        assert w.selector.accepts(labels[i]);
      }
    }
  }

  /** NextOpen is the latest release any blocking window announces, absent if none does. */
  lemma ReleaseIsMaximum(ws: seq<MaintenanceWindow>, labels: seq<Labels>, now: int)
    ensures var t := Decide(ws, labels, now).nextOpen;
            && (t.Some? ==> exists i :: 0 <= i < |ws| && Blocks(ws[i], labels, now) &&
                                        EvaluateWindow(ws[i].spec, now).nextOpen == t)
            && (forall i :: 0 <= i < |ws| && Blocks(ws[i], labels, now) &&
                            EvaluateWindow(ws[i].spec, now).nextOpen.Some? ==>
                  t.Some? && EvaluateWindow(ws[i].spec, now).nextOpen.value <= t.value)
  {
    var rs := Rulings(ws, labels, now);
    var t := Decide(ws, labels, now).nextOpen;
    if t.Some? {
      var r :| r in rs && r.Blocks() && r.state.nextOpen == t;
      var i :| 0 <= i < |rs| && rs[i] == r;
      assert Blocks(ws[i], labels, now);
    }
    forall i | 0 <= i < |ws| && Blocks(ws[i], labels, now) && EvaluateWindow(ws[i].spec, now).nextOpen.Some?
      ensures t.Some? && EvaluateWindow(ws[i].spec, now).nextOpen.value <= t.value
    {
      assert rs[i] in rs && rs[i].Blocks();
    }
  }

  /** Both halves of the verdict depend only on which rulings were made. */
  lemma {:induction false} SameRulings(rs: seq<Ruling>, qs: seq<Ruling>)
    requires forall r :: r in rs <==> r in qs
    ensures Fold(rs).open == Fold(qs).open && Fold(rs).nextOpen == Fold(qs).nextOpen
  {
    var t, u := LatestRelease(rs), LatestRelease(qs);
    assert t.Some? ==> u.Some? && t.value <= u.value;
    assert u.Some? ==> t.Some? && u.value <= t.value;
  }

  lemma RulingsMonotone(ws: seq<MaintenanceWindow>, vs: seq<MaintenanceWindow>, labels: seq<Labels>, now: int)
    requires forall w :: w in ws ==> w in vs
    ensures forall r :: r in Rulings(ws, labels, now) ==> r in Rulings(vs, labels, now)
  {
    var rs, qs := Rulings(ws, labels, now), Rulings(vs, labels, now);
    forall r | r in rs
      ensures r in qs
    {
      var i :| 0 <= i < |rs| && rs[i] == r;
      assert ws[i] in ws;
      var j :| 0 <= j < |vs| && vs[j] == ws[i];
      assert qs[j] == r;
    }
  }

  /** Neither the verdict nor the release time depends on the order of the policies. */
  lemma OrderIrrelevant(ws: seq<MaintenanceWindow>, vs: seq<MaintenanceWindow>, labels: seq<Labels>, now: int)
    requires multiset(ws) == multiset(vs)
    ensures Decide(ws, labels, now).open == Decide(vs, labels, now).open
    ensures Decide(ws, labels, now).nextOpen == Decide(vs, labels, now).nextOpen
  {
    forall w
      ensures w in ws <==> w in vs
    {
      assert w in multiset(ws) <==> w in multiset(vs);
    }
    RulingsMonotone(ws, vs, labels, now);
    RulingsMonotone(vs, ws, labels, now);
    SameRulings(Rulings(ws, labels, now), Rulings(vs, labels, now));
  }

  /** Inserting a window anywhere in the list leaves a closed decision closed, and its known release only
      moves later. */
  lemma AddingNeverReopens(ws: seq<MaintenanceWindow>, vs: seq<MaintenanceWindow>, w: MaintenanceWindow,
                           labels: seq<Labels>, now: int)
    requires !Decide(ws + vs, labels, now).open
    ensures var before, after := Decide(ws + vs, labels, now), Decide(ws + [w] + vs, labels, now);
            !after.open &&
            (before.nextOpen.Some? ==> after.nextOpen.Some? && before.nextOpen.value <= after.nextOpen.value)
  {
    RulingsMonotone(ws + vs, ws + [w] + vs, labels, now);
  }

  /** What keeps a window closed from `now` to `s`, given that it announces `e`: for a freeze, that the deny
      list hands over until then; otherwise, that nothing fires past the search horizon. */
  ghost predicate KeepsClosed(w: WindowSpec, now: int, e: int, s: int) {
    if Within(w.deny, w.zone, now) then HandsOver(w.deny, w.zone, now, e)
    else !Overlooks(w.allow, w.zone, now, s)
  }

  /** Joined with the schedule engine: when one window that announces the composed NextOpen keeps closed, the
      composed decision is closed at every instant until then. */
  lemma BlockedUntilRelease(ws: seq<MaintenanceWindow>, labels: seq<Labels>, now: int, s: int, i: nat)
    requires var d := Decide(ws, labels, now);
             !d.open && d.nextOpen.Some? && now <= s < d.nextOpen.value
    requires i < |ws| && Blocks(ws[i], labels, now)
    requires EvaluateWindow(ws[i].spec, now).nextOpen == Decide(ws, labels, now).nextOpen
    requires KeepsClosed(ws[i].spec, now, Decide(ws, labels, now).nextOpen.value, s)
    ensures !Decide(ws, labels, s).open
  {
    WindowKeepsClosed(ws[i].spec, now, s);
    assert Blocks(ws[i], labels, s);
    OpenIsMeet(ws, labels, s);
  }

  lemma WindowKeepsClosed(w: WindowSpec, now: int, s: int)
    requires !EvaluateWindow(w, now).open && EvaluateWindow(w, now).nextOpen.Some?
    requires now <= s < EvaluateWindow(w, now).nextOpen.value
    requires KeepsClosed(w, now, EvaluateWindow(w, now).nextOpen.value, s)
    ensures !EvaluateWindow(w, s).open
  {
    if Within(w.deny, w.zone, now) {
      DeniedUntilNextOpen(w, now);
    } else {
      ClosedUntilNextOpen(w, now, s);
    }
  }

  // --- What is not a meet ---------------------------------------------------------------------

  /** The per-window limit of an open decision is that of the last selecting window. */
  lemma {:induction false} LimitIsTheLast(rs: seq<Ruling>)
    requires Fold(rs).open
    ensures var d := Fold(rs);
            || (d.window == "" && d.maxDevices == 0 && forall r :: r in rs ==> !r.selects)
            || exists i :: && 0 <= i < |rs| && rs[i].selects
                           && (forall j :: i < j < |rs| ==> !rs[j].selects)
                           && d.window == rs[i].name && d.maxDevices == rs[i].limit
  {
    if rs != [] {
      var init, r := rs[..|rs| - 1], rs[|rs| - 1];
      assert rs == init + [r];
      if r.selects {
        assert rs[|rs| - 1].selects;
      } else {
        LimitIsTheLast(init);
      }
    }
  }

  /** At least as strict as every limit a selecting window sets; zero or less is no limit. */
  predicate MostRestrictive(n: int, rs: seq<Ruling>) {
    forall i :: 0 <= i < |rs| && rs[i].selects && rs[i].limit > 0 ==> 0 < n <= rs[i].limit
  }

  /** The limit enforced is the most restrictive one exactly when the last selecting window sets it. */
  lemma MostRestrictiveIffLast(rs: seq<Ruling>, last: nat)
    requires Fold(rs).open && last < |rs| && rs[last].selects
    requires forall j :: last < j < |rs| ==> !rs[j].selects
    ensures MostRestrictive(Fold(rs).maxDevices, rs) <==>
            forall i :: 0 <= i < last && rs[i].selects && rs[i].limit > 0 ==> 0 < rs[last].limit <= rs[i].limit
  {
    LimitOfLast(rs, last);
    LastDecides(rs, last, Fold(rs).maxDevices);
  }

  lemma LastDecides(rs: seq<Ruling>, last: nat, n: int)
    requires last < |rs| && rs[last].selects && n == rs[last].limit
    requires forall j :: last < j < |rs| ==> !rs[j].selects
    ensures MostRestrictive(n, rs) <==>
            forall i :: 0 <= i < last && rs[i].selects && rs[i].limit > 0 ==> 0 < rs[last].limit <= rs[i].limit
  {
  }

  lemma LimitOfLast(rs: seq<Ruling>, last: nat)
    requires Fold(rs).open && last < |rs| && rs[last].selects
    requires forall j :: last < j < |rs| ==> !rs[j].selects
    ensures Fold(rs).maxDevices == rs[last].limit
  {
    LimitIsTheLast(rs);
    assert rs[last] in rs;
    var i :| 0 <= i < |rs| && rs[i].selects && (forall j :: i < j < |rs| ==> !rs[j].selects)
             && Fold(rs).maxDevices == rs[i].limit;
    assert i == last;
  }

  predicate SameLimit(a: int, b: int) {
    a == b || (a <= 0 && b <= 0)
  }

  lemma MovedLast(rs: seq<Ruling>, k: nat) returns (qs: seq<Ruling>)
    requires k < |rs|
    ensures multiset(qs) == multiset(rs) && |qs| == |rs| && qs[|qs| - 1] == rs[k]
    ensures forall r :: r in rs ==> r in qs
    ensures Fold(qs).open == Fold(rs).open
  {
    qs := rs[..k] + rs[k + 1..] + [rs[k]];
    assert rs == rs[..k] + [rs[k]] + rs[k + 1..];
    forall r
      ensures r in rs <==> r in qs
    {
      assert r in multiset(rs) <==> r in multiset(qs);
    }
  }

  /** Whatever order the policies are listed in, the most restrictive limit is enforced: true exactly when
      all selecting windows set the same limit, or none. */
  lemma LimitSafeInAnyOrder(rs: seq<Ruling>)
    requires Fold(rs).open
    ensures (forall qs: seq<Ruling> :: multiset(qs) == multiset(rs) ==> MostRestrictive(Fold(qs).maxDevices, qs)) <==>
            (forall i, j :: 0 <= i < |rs| && 0 <= j < |rs| && rs[i].selects && rs[j].selects ==>
               SameLimit(rs[i].limit, rs[j].limit))
  {
    if i, j :| 0 <= i < |rs| && 0 <= j < |rs| && rs[i].selects && rs[j].selects &&
               !SameLimit(rs[i].limit, rs[j].limit) {
      var qs := UnsafeOrder(rs, i, j);
    } else {
      forall qs: seq<Ruling> | multiset(qs) == multiset(rs)
        ensures MostRestrictive(Fold(qs).maxDevices, qs)
      {
        EqualLimitsAreSafe(rs, qs);
      }
    }
  }

  /** Of two different limits, list the laxer one last. */
  lemma UnsafeOrder(rs: seq<Ruling>, i: nat, j: nat) returns (qs: seq<Ruling>)
    requires Fold(rs).open && i < |rs| && j < |rs| && rs[i].selects && rs[j].selects
    requires !SameLimit(rs[i].limit, rs[j].limit)
    ensures multiset(qs) == multiset(rs) && !MostRestrictive(Fold(qs).maxDevices, qs)
  {
    if rs[i].limit > 0 && (rs[j].limit <= 0 || rs[i].limit < rs[j].limit) {
      qs := MovedLast(rs, j);
      LaxLastIsLax(qs, rs[i]);
    } else {
      qs := MovedLast(rs, i);
      LaxLastIsLax(qs, rs[j]);
    }
  }

  lemma LaxLastIsLax(qs: seq<Ruling>, strict: Ruling)
    requires Fold(qs).open && strict in qs && strict.selects && strict.limit > 0
    requires var lax := qs[|qs| - 1]; lax.selects && (lax.limit <= 0 || strict.limit < lax.limit)
    ensures !MostRestrictive(Fold(qs).maxDevices, qs)
  {
    LimitIsTheLast(qs);
    var i :| 0 <= i < |qs| && qs[i] == strict;
  }

  lemma EqualLimitsAreSafe(rs: seq<Ruling>, qs: seq<Ruling>)
    requires Fold(rs).open && multiset(qs) == multiset(rs)
    requires forall i, j :: 0 <= i < |rs| && 0 <= j < |rs| && rs[i].selects && rs[j].selects ==>
               SameLimit(rs[i].limit, rs[j].limit)
    ensures MostRestrictive(Fold(qs).maxDevices, qs)
  {
    forall r
      ensures r in rs <==> r in qs
    {
      assert r in multiset(rs) <==> r in multiset(qs);
    }
    LimitIsTheLast(qs);
    forall i | 0 <= i < |qs| && qs[i].selects && qs[i].limit > 0
      ensures 0 < Fold(qs).maxDevices <= qs[i].limit
    {
      assert qs[i] in qs;
      var k :| && 0 <= k < |qs| && qs[k].selects && Fold(qs).maxDevices == qs[k].limit;
      assert qs[k] in rs && qs[i] in rs;
    }
  }

  /** "Most restrictive" does not extend to the blast radius: a later, laxer window lifts the
      limit of an earlier one. */
  lemma LaterWindowLiftsLimit(labels: seq<Labels>, now: int, z: Zone)
    ensures var strict := MaintenanceWindow("site", Everything, WindowSpec([], [], z), 5);
            var lax := MaintenanceWindow("company", Everything, WindowSpec([], [], z), 50);
            Decide([strict, lax], labels, now).maxDevices == 50 &&
            Decide([lax, strict], labels, now).maxDevices == 5
  {
    var strict := MaintenanceWindow("site", Everything, WindowSpec([], [], z), 5);
    var lax := MaintenanceWindow("company", Everything, WindowSpec([], [], z), 50);
    var rs, qs := Rulings([strict, lax], labels, now), Rulings([lax, strict], labels, now);
    assert rs[0] == Rule(strict, labels, now) && rs[1] == Rule(lax, labels, now);
    assert qs[0] == Rule(lax, labels, now) && qs[1] == Rule(strict, labels, now);
    LimitIsTheLast(rs);
    LimitIsTheLast(qs);
  }

  /** The window a closed decision names is the last of the blocking ones. */
  lemma {:induction false} BlockerIsTheLast(rs: seq<Ruling>) returns (i: nat)
    requires !Fold(rs).open
    ensures i < |rs| && rs[i].Blocks() && (forall j :: i < j < |rs| ==> !rs[j].Blocks())
    ensures Fold(rs).window == rs[i].name && Fold(rs).reason == rs[i].state.reason
  {
    var init, r := rs[..|rs| - 1], rs[|rs| - 1];
    assert rs == init + [r];
    if r.Blocks() {
      i := |rs| - 1;
    } else {
      i := BlockerIsTheLast(init);
    }
  }

  // --- The dry run ----------------------------------------------------------------------------

  function DryFold(rs: seq<Ruling>): (d: Decision) {
    if rs == [] then Decision(true, "", "", None, 0) else
      var r := rs[|rs| - 1];
      if r.Blocks() then Decision(false, r.name, r.state.reason, r.state.nextOpen, 0)
      else DryFold(rs[..|rs| - 1])
  }

  method DryRun(ws: seq<MaintenanceWindow>, labels: seq<Labels>, now: int) returns (d: Decision)
    ensures d == DryFold(Rulings(ws, labels, now))
  {
    ghost var rs := Rulings(ws, labels, now);
    d := Decision(true, "", "", None, 0);
    for k := 0 to |ws|
      invariant d == DryFold(rs[..k])
    {
      var w := ws[k];
      assert rs[..k + 1][..k] == rs[..k];
      assert rs[k] == Rule(w, labels, now);
      var hit := w.selector.Everything?;
      for i := 0 to |labels|
        invariant w.selector.Everything? ==> hit
        invariant !w.selector.Everything? ==> !hit
        invariant w.selector.Matching? ==> forall j :: 0 <= j < i ==> !w.selector.accepts(labels[j])
      {
        if w.selector.Matching? && w.selector.accepts(labels[i]) {
          hit := true;
          break;
        }
      }
      if !hit {
        continue;
      }
      var st := EvaluateWindow(w.spec, now);
      if !st.open {
        d := Decision(false, w.name, st.reason, st.nextOpen, 0);
      }
    }
    assert rs[..|ws|] == rs;
  }

  /** The dry run gives the controller's verdict on the same rulings, and names the same window and
      reason when it is no. Its release time is that of the window it names: never later than the
      controller's, which waits for the last one. */
  lemma {:induction false} DryRunAgrees(rs: seq<Ruling>)
    ensures var dry, full := DryFold(rs), Fold(rs);
            && dry.open == full.open
            && (!dry.open ==> dry.window == full.window && dry.reason == full.reason)
            && (dry.nextOpen.Some? ==>
                  full.nextOpen.Some? && dry.nextOpen.value <= full.nextOpen.value)
  {
    if rs != [] {
      var init, r := rs[..|rs| - 1], rs[|rs| - 1];
      assert rs == init + [r];
      DryRunAgrees(init);
    }
  }

  /** It names the last blocking window, and that window's own release. */
  lemma {:induction false} DryRunNames(rs: seq<Ruling>) returns (i: nat)
    requires !DryFold(rs).open
    ensures i < |rs| && rs[i].Blocks() && (forall j :: i < j < |rs| ==> !rs[j].Blocks())
    ensures DryFold(rs) == Decision(false, rs[i].name, rs[i].state.reason, rs[i].state.nextOpen, 0)
  {
    if rs[|rs| - 1].Blocks() {
      i := |rs| - 1;
    } else {
      i := DryRunNames(rs[..|rs| - 1]);
    }
  }

  // --- Folding a decision into the rollout ------------------------------------------------------

  datatype Applied = Applied(status: Status, proceed: bool, budget: int)

  /** The budget counter restarts when none was ever opened, or when something was spent on one
      opened more than an hour ago. `BlockedBy` has just been cleared, so any named window qualifies. */
  predicate Resets(s: Status, d: Decision, now: int) {
    s.windowOpenedAt.None? ||
    (d.window != "" && s.dispatchedThisWindow > 0 && s.windowOpenedAt.value < now - HOUR)
  }

  function Apply(s: Status, d: Decision, now: int): (a: Applied) {
    if !d.open then
      Applied(s.(phase := Blocked, blockedBy := d.window, blockReason := d.reason,
                 nextWindow := if d.nextOpen.Some? then d.nextOpen else s.nextWindow), false, 0)
    else
      var cleared := s.(blockedBy := "", blockReason := "", nextWindow := None);
      var s' := if Resets(s, d, now)
                then cleared.(windowOpenedAt := Some(now), dispatchedThisWindow := 0) else cleared;
      if d.maxDevices > 0 then
        var remaining := d.maxDevices - s'.dispatchedThisWindow;
        if remaining <= 0 then Applied(s'.(phase := Waiting), false, 0) else Applied(s', true, remaining)
      else Applied(s', true, -1)
  }

  method ApplyWindow(ro: FirmwareRollout, d: Decision, now: int) returns (proceed: bool, budget: int)
    modifies ro
    ensures Applied(ro.status, proceed, budget) == Apply(old(ro.status), d, now)
  {
    if !d.open {
      ro.status := ro.status.(phase := Blocked);
      ro.status := ro.status.(blockedBy := d.window);
      ro.status := ro.status.(blockReason := d.reason);
      if d.nextOpen.Some? {
        ro.status := ro.status.(nextWindow := d.nextOpen);
      }
      return false, 0;
    }
    ro.status := ro.status.(blockedBy := "");
    ro.status := ro.status.(blockReason := "");
    ro.status := ro.status.(nextWindow := None);
    if ro.status.windowOpenedAt.None? ||
       (d.window != "" && ro.status.blockedBy != d.window && ro.status.dispatchedThisWindow > 0 &&
        ro.status.windowOpenedAt.value < now - HOUR) {
      ro.status := ro.status.(windowOpenedAt := Some(now));
      ro.status := ro.status.(dispatchedThisWindow := 0);
    }
    if d.maxDevices > 0 {
      var remaining := d.maxDevices - ro.status.dispatchedThisWindow;
      if remaining <= 0 {
        ro.status := ro.status.(phase := Waiting);
        return false, 0;
      }
      return true, remaining;
    }
    return true, -1;
  }
}
