/** Gateways with correlated outages and devices that may lie: controller/internal/vivarium/enclosure.go. */
module Vivarium {
  import opened Prelude
  import opened Text

  // --- gateways -------------------------------------------------------------------------------

  datatype Duty = Duty(outageEvery: int, outageFor: int) {
    /** Duration.Or: zero means the default of ten minutes. */
    function For(): (d: int) {
      if outageFor == 0 then 10 * MINUTE else outageFor
    }
  }

  datatype Gateway = Gateway(down: bool, nextAt: Option<int>, until: int)

  function NewGateway(): (g: Gateway) {
    Gateway(false, None, 0)
  }

  function Ask(duty: Duty, g: Gateway, now: int): (r: Gateway) {
    if duty.outageEvery == 0 then g else
      var recovered := if g.down && now > g.until
                       then g.(down := false, nextAt := Some(now + duty.outageEvery)) else g;
      var failed := if !recovered.down && recovered.nextAt.Some? && now > recovered.nextAt.value
                    then recovered.(down := true, until := now + duty.For()) else recovered;
      if failed.nextAt.None? then failed.(nextAt := Some(now + duty.outageEvery)) else failed
  }

  class GatewayState {
    const duty: Duty
    var down: bool
    var nextAt: Option<int>
    var until: int

    constructor (duty: Duty)
      ensures this.duty == duty && State() == NewGateway()
    {
      this.duty := duty;
      down, nextAt, until := false, None, 0;
    }

    function State(): Gateway
      reads this
    {
      Gateway(down, nextAt, until)
    }

    method IsDown(now: int) returns (answer: bool)
      modifies this
      ensures State() == Ask(duty, old(State()), now)
      ensures answer == (duty.outageEvery != 0 && down)
    {
      if duty.outageEvery == 0 {
        return false;
      }
      if down && now > until {
        down := false;
        nextAt := Some(now + duty.outageEvery);
      }
      if !down && nextAt.Some? && now > nextAt.value {
        down := true;
        until := now + duty.For();
      }
      if nextAt.None? {
        nextAt := Some(now + duty.outageEvery);
      }
      return down;
    }
  }

  /** The gateway after a sequence of queries. */
  function After(duty: Duty, times: seq<int>): (g: Gateway) {
    if times == [] then NewGateway()
    else Ask(duty, After(duty, times[..|times| - 1]), times[|times| - 1])
  }

  /** What query `i` of the sequence was told. */
  function Told(duty: Duty, times: seq<int>, i: nat): (down: bool)
    requires i < |times|
  {
    After(duty, times[..i + 1]).down
  }

  lemma AfterOneMore(duty: Duty, times: seq<int>, i: nat)
    requires i < |times|
    ensures After(duty, times[..i + 1]) == Ask(duty, After(duty, times[..i]), times[i])
  {
    assert times[..i + 1][..i] == times[..i];
  }

  /** Queries on a clock that does not run backwards. */
  ghost predicate Queries(times: seq<int>) {
    forall i, j :: 0 <= i <= j < |times| ==> times[i] <= times[j]
  }

  /** No outages, or a positive period between outages that do not end before they begin. */
  predicate Sensible(duty: Duty) {
    duty.outageEvery == 0 || (duty.outageEvery > 0 && duty.outageFor >= 0)
  }

  lemma SameInstantSameState(duty: Duty, times: seq<int>, i: nat, j: nat)
    requires Sensible(duty) && Queries(times) && i <= j < |times| && times[i] == times[j]
    ensures After(duty, times[..i + 1]) == After(duty, times[..j + 1])
    decreases j - i
  {
    if i < j {
      SameInstantSameState(duty, times, i, j - 1);
      AfterOneMore(duty, times, i);
      AfterOneMore(duty, times, j);
    }
  }

  ghost predicate Agrees(duty: Duty, times: seq<int>, i: nat, j: nat)
    requires i < |times| && j < |times|
  {
    Told(duty, times, i) == Told(duty, times, j)
  }

  /** Every device behind a gateway that asks at one instant gets one answer, whenever and however often
      they ask: true exactly of sensible durations. */
  lemma SameInstantSameAnswer(duty: Duty)
    ensures (forall times: seq<int>, i: nat, j: nat ::
               Queries(times) && i <= j < |times| && times[i] == times[j] ==> Agrees(duty, times, i, j))
            <==> Sensible(duty)
  {
    if Sensible(duty) {
      forall times: seq<int>, i: nat, j: nat | Queries(times) && i <= j < |times| && times[i] == times[j]
        ensures Agrees(duty, times, i, j)
      {
        SameInstantSameState(duty, times, i, j);
      }
    } else {
      var late := if duty.outageEvery < 0 then 0 else duty.outageEvery + 1;
      var times := [0, late, late];
      AfterOneMore(duty, times, 0);
      AfterOneMore(duty, times, 1);
      AfterOneMore(duty, times, 2);
      assert times[..0] == [];
      assert Queries(times);
      if duty.outageEvery < 0 {
        assert !Agrees(duty, times, 0, 1);
      } else {
        assert !Agrees(duty, times, 1, 2);
      }
    }
  }

  lemma OutageHolds(duty: Duty, times: seq<int>, i: nat, j: nat)
    requires Queries(times) && 0 < i <= j < |times|
    requires Told(duty, times, i) && !Told(duty, times, i - 1)
    requires times[j] <= times[i] + duty.For()
    ensures After(duty, times[..j + 1]).down && After(duty, times[..j + 1]).until == times[i] + duty.For()
    decreases j - i
  {
    AfterOneMore(duty, times, j);
    if i < j {
      OutageHolds(duty, times, i, j - 1);
    }
  }

  lemma CalmHolds(duty: Duty, times: seq<int>, i: nat, j: nat)
    requires duty.outageEvery > 0 && Queries(times) && i <= j < |times|
    requires !Told(duty, times, i) && (i == 0 || Told(duty, times, i - 1))
    ensures var g := After(duty, times[..j + 1]);
            times[j] > times[i] + duty.outageEvery ||
            (!g.down && g.nextAt == Some(times[i] + duty.outageEvery))
    decreases j - i
  {
    AfterOneMore(duty, times, j);
    if i < j {
      CalmHolds(duty, times, i, j - 1);
    } else if i == 0 {
      assert times[..0] == [];
    } else {
      AfterOneMore(duty, times, i - 1);
    }
  }

  lemma {:induction false} NeverDown(duty: Duty, times: seq<int>)
    requires duty.outageEvery == 0
    ensures After(duty, times) == NewGateway()
  {
    if times != [] {
      NeverDown(duty, times[..|times| - 1]);
    }
  }

  /** Over any non-decreasing run of queries, for any durations: the first answer is up, an outage first
      reported at one instant is reported to everyone for its full length, and after a first good answer
      the next outage is reported only later than a full period. */
  lemma OutagesAreRegular(duty: Duty, times: seq<int>, i: nat, j: nat)
    requires Queries(times) && i < j < |times|
    ensures !Told(duty, times, 0)
    ensures i > 0 && !Told(duty, times, i - 1) && Told(duty, times, i) ==>
              var length := if duty.outageFor == 0 then 10 * MINUTE else duty.outageFor;
              (times[j] <= times[i] + length ==> Told(duty, times, j))
    ensures !Told(duty, times, i) && (i == 0 || Told(duty, times, i - 1)) ==>
              (Told(duty, times, j) ==> times[j] > times[i] + duty.outageEvery)
  {
    AfterOneMore(duty, times, 0);
    assert times[..0] == [];
    if i > 0 && Told(duty, times, i) && !Told(duty, times, i - 1) && times[j] <= times[i] + duty.For() {
      OutageHolds(duty, times, i, j);
    }
    if duty.outageEvery > 0 && !Told(duty, times, i) && (i == 0 || Told(duty, times, i - 1)) {
      CalmHolds(duty, times, i, j);
    }
    if duty.outageEvery == 0 {
      NeverDown(duty, times[..j + 1]);
    }
  }

  // --- devices --------------------------------------------------------------------------------

  datatype FailureMode =
    | FailNone | FailReportsWithoutRunning | FailBootLoop | FailBricks | FailIgnores
    | FailWrongHash | FailIntermittent

  datatype Cohort = Cohort(firmwareFailsFor: seq<string>, failureMode: FailureMode)

  datatype Behaviour = Behaviour(onFirmware: FailureMode, failChance: real, cohort: Option<Cohort>)

  /** How this write will end, given one draw of the device's random source in [0, 1). */
  function ModeFor(b: Behaviour, want: string, draw: real): (m: FailureMode) {
    var mode := if b.cohort.Some? && want in b.cohort.value.firmwareFailsFor
                then b.cohort.value.failureMode else b.onFirmware;
    if b.failChance > 0.0 && draw > b.failChance then FailNone else mode
  }

  /** A cohort's incompatibility is deterministic exactly when the device has no fractional fail
      chance: the draw is applied after the cohort and can excuse it. */
  lemma CohortIsDeterministic(b: Behaviour, want: string)
    requires b.cohort.Some? && want in b.cohort.value.firmwareFailsFor
    ensures (forall draw: real | 0.0 <= draw < 1.0 :: ModeFor(b, want, draw) == b.cohort.value.failureMode)
            <==> (b.failChance <= 0.0 || b.failChance >= 1.0 || b.cohort.value.failureMode.FailNone?)
  {
    if 0.0 < b.failChance < 1.0 {
      var draw := (1.0 + b.failChance) / 2.0;
      assert 0.0 <= draw < 1.0 && draw > b.failChance;
      assert ModeFor(b, want, draw) == FailNone;
    }
  }

  /** A flash that has been accepted and not yet taken effect. */
  datatype Flash = Flash(want: string, mode: FailureMode)

  datatype Body = Body(runningHash: string, reportedHash: string, bootCount: int, bricked: bool,
                       silentUntil: Option<int>, pending: seq<Flash>)

  /** The hash a firmware payload names: what stands before its first bar. */
  function WantedHash(payload: string): (hash: Option<string>) {
    var bar := IndexOf(payload, '|');
    if bar.None? then None else Some(payload[..bar.value])
  }

  /** "hash|url" gives back the hash exactly when the hash has no bar of its own. */
  lemma HashRoundTrip(hash: string, url: string)
    ensures WantedHash(hash + "|" + url) == Some(hash) <==> '|' !in hash
  {
    CutAtFirst(hash, '|', url);
    assert (hash + "|" + url)[..|hash|] == hash;
  }

  function OnCommand(b: Body, payload: string, how: Behaviour, draw: real): (r: Body) {
    var want := WantedHash(payload);
    if want.None? || b.bricked || want.value == b.runningHash then b
    else b.(pending := b.pending + [Flash(want.value, ModeFor(how, want.value, draw))])
  }

  /** Flash `i` takes effect; the order in which waiting flashes do so is not fixed. */
  function TakeEffect(b: Body, i: nat, now: int): (r: Body)
    requires i < |b.pending|
  {
    var f := b.pending[i];
    var b := b.(pending := b.pending[..i] + b.pending[i + 1..]);
    match f.mode
    case FailIgnores => b
    case FailBricks => b.(bricked := true)
    case FailReportsWithoutRunning => b.(reportedHash := f.want)
    case FailWrongHash => b.(runningHash := "corrupt", reportedHash := "corrupt")
    case FailBootLoop => b.(runningHash := f.want, reportedHash := f.want, bootCount := b.bootCount + 5)
    case FailIntermittent =>
      b.(runningHash := f.want, reportedHash := f.want, silentUntil := Some(now + 30 * MINUTE))
    case FailNone => b.(runningHash := f.want, reportedHash := f.want, bootCount := b.bootCount + 1)
  }

  /** A device that reports when its turn comes: not bricked, and past any silence. */
  predicate Speaks(b: Body, now: int) {
    !b.bricked && (b.silentUntil.Some? ==> b.silentUntil.value <= now)
  }

  /** What a device's flash of `f` leaves to be seen from outside: the firmware it runs, the one it reports,
      its boots, and whether it still speaks. */
  lemma FlashShows(b: Body, i: nat, now: int)
    requires i < |b.pending|
    ensures var f, r := b.pending[i], TakeEffect(b, i, now);
            var takes := f.mode.FailNone? || f.mode.FailBootLoop? || f.mode.FailIntermittent?;
            && (takes ==> r.runningHash == r.reportedHash == f.want)
            && (f.mode.FailWrongHash? ==> r.runningHash == r.reportedHash == "corrupt")
            && (f.mode.FailReportsWithoutRunning? ==> r.reportedHash == f.want && r.runningHash == b.runningHash)
            && (f.mode.FailBricks? || f.mode.FailIgnores? ==>
                  r.runningHash == b.runningHash && r.reportedHash == b.reportedHash)
            && r.bootCount == b.bootCount + (if f.mode.FailBootLoop? then 5 else if f.mode.FailNone? then 1 else 0)
            && (f.mode.FailBricks? ==> forall t :: !Speaks(r, t))
            && (!b.bricked && f.mode.FailIntermittent? ==> forall t :: Speaks(r, t) <==> now + 30 * MINUTE <= t)
            && (!f.mode.FailBricks? && !f.mode.FailIntermittent? ==> forall t :: Speaks(r, t) <==> Speaks(b, t))
            && multiset(r.pending) == multiset(b.pending) - multiset{f}
  {
    assert b.pending == b.pending[..i] + [b.pending[i]] + b.pending[i + 1..];
  }

  /** A command starts a flash exactly when the device lives and does not run the firmware already, whatever
      it reports: one that lied is flashed again. */
  lemma CommandStartsFlash(b: Body, hash: string, url: string, how: Behaviour, draw: real)
    requires '|' !in hash
    ensures var r := OnCommand(b, hash + "|" + url, how, draw);
            if b.bricked || b.runningHash == hash then r == b
            else r == b.(pending := b.pending + [Flash(hash, ModeFor(how, hash, draw))])
  {
    HashRoundTrip(hash, url);
  }

  /** A bricked device takes no command ever again. */
  lemma BrickIsFinal(b: Body, payload: string, how: Behaviour, draw: real)
    requires b.bricked
    ensures OnCommand(b, payload, how, draw) == b
  {
  }

  class Organism {
    const behaviour: Behaviour
    var runningHash: string
    var reportedHash: string
    var bootCount: int
    var bricked: bool
    var silentUntil: Option<int>
    var pending: seq<Flash>

    constructor (behaviour: Behaviour, configHash: string)
      ensures this.behaviour == behaviour
      ensures State() == Body(configHash, configHash, 0, false, None, [])
    {
      this.behaviour := behaviour;
      runningHash, reportedHash := configHash, configHash;
      bootCount, bricked, silentUntil, pending := 0, false, None, [];
    }

    function State(): Body
      reads this
    {
      Body(runningHash, reportedHash, bootCount, bricked, silentUntil, pending)
    }

    /** Echoes every firmware payload, and starts a flash unless there is nothing to do. */
    method Command(payload: string, draw: real) returns (echo: string)
      modifies this
      ensures echo == payload
      ensures State() == OnCommand(old(State()), payload, behaviour, draw)
    {
      echo := payload;
      var want := WantedHash(payload);
      if want.None? {
        return;
      }
      if bricked || want.value == runningHash {
        return;
      }
      var mode := behaviour.onFirmware;
      if behaviour.cohort.Some? {
        for i := 0 to |behaviour.cohort.value.firmwareFailsFor|
          invariant mode == if want.value in behaviour.cohort.value.firmwareFailsFor[..i]
                            then behaviour.cohort.value.failureMode else behaviour.onFirmware
        {
          var hashes := behaviour.cohort.value.firmwareFailsFor;
          assert hashes[..i + 1] == hashes[..i] + [hashes[i]];
          if hashes[i] == want.value {
            mode := behaviour.cohort.value.failureMode;
          }
        }
        assert behaviour.cohort.value.firmwareFailsFor[..|behaviour.cohort.value.firmwareFailsFor|]
            == behaviour.cohort.value.firmwareFailsFor;
      }
      if behaviour.failChance > 0.0 && draw > behaviour.failChance {
        mode := FailNone;
      }
      pending := pending + [Flash(want.value, mode)];
    }

    method Settle(i: nat, now: int)
      requires i < |pending|
      modifies this
      ensures State() == TakeEffect(old(State()), i, now)
    {
      var f := pending[i];
      pending := pending[..i] + pending[i + 1..];
      match f.mode {
        case FailIgnores =>
        case FailBricks => bricked := true;
        case FailReportsWithoutRunning => reportedHash := f.want;
        case FailWrongHash => runningHash, reportedHash := "corrupt", "corrupt";
        case FailBootLoop =>
          runningHash, reportedHash := f.want, f.want;
          bootCount := bootCount + 5;
        case FailIntermittent =>
          runningHash, reportedHash := f.want, f.want;
          silentUntil := Some(now + 30 * MINUTE);
        case FailNone =>
          runningHash, reportedHash := f.want, f.want;
          bootCount := bootCount + 1;
      }
    }
  }
}
