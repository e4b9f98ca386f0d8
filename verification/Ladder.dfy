/** The mapper's transport ladder: mapper/esphome/driver/transport.go. */
module Ladder {
  import opened Prelude

  datatype TransportConfig = TransportConfig(
    kind: string, topicPrefix: string, gateway: string, nodeID: int, ota: bool, config: bool,
    maxWriteBytes: int, staleAfterSeconds: int)

  datatype Device = Device(transports: seq<TransportConfig>, gateway: string, nodeID: int, topicPrefix: string,
                           expectedIntervalSeconds: int)

  /** Declared transports, or one made from the older single-transport fields. */
  function Effective(d: Device): (ts: seq<TransportConfig>)
    ensures ts != []
  {
    if d.transports != [] then d.transports
    else if d.gateway != "" then
      [TransportConfig("lora", "", d.gateway, d.nodeID, false, true, 240, d.expectedIntervalSeconds * 3)]
    else [TransportConfig("wifi", d.topicPrefix, "", 0, true, true, 0, 0)]
  }

  /** Could carry this write in principle. */
  predicate Capable(t: TransportConfig, required: string, size: int) {
    && (required == "" || t.kind == required)
    && (t.config || t.ota)
    && (required == "ota" ==> t.ota)
    && (t.maxWriteBytes <= 0 || size <= t.maxWriteBytes)
  }

  predicate Up(t: TransportConfig, lastSeen: map<string, int>, now: int) {
    || t.staleAfterSeconds <= 0
    || t.kind !in lastSeen
    || now - lastSeen[t.kind] < t.staleAfterSeconds * SECOND
  }

  datatype Choice = Use(transport: TransportConfig) | Unavailable | Deferred

  function CapableOf(ts: seq<TransportConfig>, required: string, size: int): (r: seq<TransportConfig>) {
    if ts == [] then [] else
      var t := ts[|ts| - 1];
      CapableOf(ts[..|ts| - 1], required, size) + if Capable(t, required, size) then [t] else []
  }

  function FirstUp(ts: seq<TransportConfig>, lastSeen: map<string, int>, now: int): (c: Choice)
    ensures !c.Unavailable?
  {
    if ts == [] then Deferred
    else if Up(ts[0], lastSeen, now) then Use(ts[0])
    else FirstUp(ts[1..], lastSeen, now)
  }

  function Choose(d: Device, lastSeen: map<string, int>, required: string, size: int, now: int): (c: Choice) {
    var capable := CapableOf(Effective(d), required, size);
    if capable == [] then Unavailable else FirstUp(capable, lastSeen, now)
  }

  /** Traffic heard on one kind of transport at one instant. */
  datatype Heard = Heard(kind: string, at: int)

  class CustomizedClient {
    const device: Device
    var lastSeenPer: map<string, int>

    constructor (device: Device)
      ensures this.device == device && lastSeenPer == Cache([])
    {
      this.device := device;
      lastSeenPer := map[];
    }

    method MarkSeen(transport: string, now: int)
      modifies this
      ensures lastSeenPer == old(lastSeenPer)[transport := now]
      ensures forall log: seq<Heard> :: old(lastSeenPer) == Cache(log) ==>
                lastSeenPer == Cache(log + [Heard(transport, now)])
    {
      forall log: seq<Heard> | lastSeenPer == Cache(log)
        ensures Cache(log + [Heard(transport, now)]) == lastSeenPer[transport := now]
      {
        assert (log + [Heard(transport, now)])[..|log|] == log;
      }
      lastSeenPer := lastSeenPer[transport := now];
    }

    method SelectTransport(required: string, payloadSize: int, now: int) returns (c: Choice)
      ensures c == Choose(device, lastSeenPer, required, payloadSize, now)
    {
      var transports := Effective(device);
      var capable: seq<TransportConfig> := [];
      for i := 0 to |transports|
        invariant capable == CapableOf(transports[..i], required, payloadSize)
      {
        var t := transports[i];
        assert transports[..i + 1][..i] == transports[..i];
        if required != "" && t.kind != required {
          continue;
        }
        if !t.config && !t.ota {
          continue;
        }
        if required == "ota" && !t.ota {
          continue;
        }
        if t.maxWriteBytes > 0 && payloadSize > t.maxWriteBytes {
          continue;
        }
        capable := capable + [t];
      }
      assert transports[..|transports|] == transports;
      if |capable| == 0 {
        return Unavailable;
      }
      for i := 0 to |capable|
        invariant FirstUp(capable, lastSeenPer, now) == FirstUp(capable[i..], lastSeenPer, now)
      {
        if Up(capable[i], lastSeenPer, now) {
          return Use(capable[i]);
        }
      }
      return Deferred;
    }
  }

  // --- the cache against the full log -----------------------------------------------------------

  /** What the cache holds after a log of traffic. */
  function Cache(log: seq<Heard>): (m: map<string, int>) {
    if log == [] then map[] else Cache(log[..|log| - 1])[log[|log| - 1].kind := log[|log| - 1].at]
  }

  ghost predicate Chronological(log: seq<Heard>, now: int) {
    && (forall i, j :: 0 <= i <= j < |log| ==> log[i].at <= log[j].at)
    && (forall i :: 0 <= i < |log| ==> log[i].at <= now)
  }

  /** Believed up on the whole log: not a decaying transport, never heard, or heard within its bound. */
  ghost predicate UpByLog(t: TransportConfig, log: seq<Heard>, now: int) {
    || t.staleAfterSeconds <= 0
    || (forall i :: 0 <= i < |log| ==> log[i].kind != t.kind)
    || (exists i :: 0 <= i < |log| && log[i].kind == t.kind && now - log[i].at < t.staleAfterSeconds * SECOND)
  }

  lemma {:induction false} CacheIsLatest(log: seq<Heard>, now: int, kind: string)
    requires Chronological(log, now)
    ensures kind in Cache(log) <==> exists i :: 0 <= i < |log| && log[i].kind == kind
    ensures kind in Cache(log) ==>
              && (exists i :: 0 <= i < |log| && log[i].kind == kind && log[i].at == Cache(log)[kind])
              && (forall i :: 0 <= i < |log| && log[i].kind == kind ==> log[i].at <= Cache(log)[kind])
  {
    if log != [] {
      var init, h := log[..|log| - 1], log[|log| - 1];
      CacheIsLatest(init, now, kind);
      assert forall i :: 0 <= i < |init| ==> init[i] == log[i];
      if kind == h.kind {
        assert log[|log| - 1].kind == kind && log[|log| - 1].at == Cache(log)[kind];
      }
    }
  }

  lemma CacheDecidesUp(t: TransportConfig, log: seq<Heard>, now: int)
    requires Chronological(log, now)
    ensures Up(t, Cache(log), now) <==> UpByLog(t, log, now)
  {
    CacheIsLatest(log, now, t.kind);
  }

  ghost predicate FirstGood(ts: seq<TransportConfig>, log: seq<Heard>, required: string, size: int, now: int, i: int) {
    && 0 <= i < |ts|
    && Capable(ts[i], required, size) && UpByLog(ts[i], log, now)
    && forall j :: 0 <= j < i ==> !(Capable(ts[j], required, size) && UpByLog(ts[j], log, now))
  }

  lemma {:induction false} CapableOfKeeps(ts: seq<TransportConfig>, required: string, size: int)
    ensures CapableOf(ts, required, size) == [] <==>
            forall i :: 0 <= i < |ts| ==> !Capable(ts[i], required, size)
  {
    if ts != [] {
      CapableOfKeeps(ts[..|ts| - 1], required, size);
    }
  }

  lemma {:induction false} FirstUpAppend(a: seq<TransportConfig>, t: TransportConfig, lastSeen: map<string, int>,
                                         now: int)
    ensures FirstUp(a + [t], lastSeen, now) ==
            if FirstUp(a, lastSeen, now).Use? then FirstUp(a, lastSeen, now)
            else if Up(t, lastSeen, now) then Use(t) else Deferred
  {
    if a == [] {
      assert a + [t] == [t];
    } else {
      assert (a + [t])[1..] == a[1..] + [t];
      FirstUpAppend(a[1..], t, lastSeen, now);
    }
  }

  lemma OneMoreUp(init: seq<TransportConfig>, t: TransportConfig, log: seq<Heard>, required: string, size: int,
                  now: int)
    requires Chronological(log, now)
    ensures var c := FirstUp(CapableOf(init, required, size), Cache(log), now);
            FirstUp(CapableOf(init + [t], required, size), Cache(log), now) ==
            if !c.Use? && Capable(t, required, size) && UpByLog(t, log, now) then Use(t) else c
  {
    assert (init + [t])[..|init|] == init;
    CacheDecidesUp(t, log, now);
    if Capable(t, required, size) {
      FirstUpAppend(CapableOf(init, required, size), t, Cache(log), now);
    } else {
      assert CapableOf(init, required, size) + [] == CapableOf(init, required, size);
    }
  }

  lemma {:induction false} ScanFindsFirst(ts: seq<TransportConfig>, log: seq<Heard>, required: string, size: int,
                                          now: int)
    requires Chronological(log, now)
    ensures var c := FirstUp(CapableOf(ts, required, size), Cache(log), now);
            && (c.Use? ==> exists i :: FirstGood(ts, log, required, size, now, i) && c.transport == ts[i])
            && (c.Deferred? ==> forall i :: 0 <= i < |ts| ==>
                                  !(Capable(ts[i], required, size) && UpByLog(ts[i], log, now)))
  {
    if ts != [] {
      var init, t := ts[..|ts| - 1], ts[|ts| - 1];
      assert ts == init + [t];
      ScanFindsFirst(init, log, required, size, now);
      OneMoreUp(init, t, log, required, size, now);
      var c := FirstUp(CapableOf(init, required, size), Cache(log), now);
      if c.Use? {
        var i :| FirstGood(init, log, required, size, now, i) && c.transport == init[i];
        assert FirstGood(ts, log, required, size, now, i) && c.transport == ts[i];
      } else if Capable(t, required, size) && UpByLog(t, log, now) {
        assert FirstGood(ts, log, required, size, now, |ts| - 1);
      }
    }
  }

  /** Over every run of traffic with a clock that does not run backwards, the cached choice is the one the
      full log justifies: the first declared transport that can carry the write and is up; a permanent
      refusal exactly when none can carry it, whatever was heard and whenever; deferral otherwise. */
  lemma ChoiceRefinesLog(d: Device, log: seq<Heard>, required: string, size: int, now: int)
    requires Chronological(log, now)
    ensures var c, ts := Choose(d, Cache(log), required, size, now), Effective(d);
            && (c.Unavailable? <==> forall i :: 0 <= i < |ts| ==> !Capable(ts[i], required, size))
            && (c.Deferred? <==>
                  && (exists i :: 0 <= i < |ts| && Capable(ts[i], required, size))
                  && (forall i :: 0 <= i < |ts| ==> !(Capable(ts[i], required, size) && UpByLog(ts[i], log, now))))
            && (c.Use? ==> exists i :: FirstGood(ts, log, required, size, now, i) && c.transport == ts[i])
  {
    CapableOfKeeps(Effective(d), required, size);
    ScanFindsFirst(Effective(d), log, required, size, now);
  }

  /** A transport that is used is one of the device's, of the kind asked for, meant for writes, and large
      enough. */
  lemma ChosenCanCarry(d: Device, lastSeen: map<string, int>, required: string, size: int, now: int)
    ensures var c := Choose(d, lastSeen, required, size, now);
            c.Use? ==> && c.transport in Effective(d) && (c.transport.config || c.transport.ota)
                       && (required == "" || c.transport.kind == required)
                       && !(0 < c.transport.maxWriteBytes < size)
  {
    if Choose(d, lastSeen, required, size, now).Use? {
      FirstUpIsOne(CapableOf(Effective(d), required, size), lastSeen, now);
      CapableIsOne(Effective(d), required, size, Choose(d, lastSeen, required, size, now).transport);
    }
  }

  lemma {:induction false} FirstUpIsOne(ts: seq<TransportConfig>, lastSeen: map<string, int>, now: int)
    requires FirstUp(ts, lastSeen, now).Use?
    ensures FirstUp(ts, lastSeen, now).transport in ts
  {
    if !Up(ts[0], lastSeen, now) {
      FirstUpIsOne(ts[1..], lastSeen, now);
    }
  }

  lemma {:induction false} CapableIsOne(ts: seq<TransportConfig>, required: string, size: int, t: TransportConfig)
    ensures t in CapableOf(ts, required, size) <==> t in ts && Capable(t, required, size)
  {
    if ts != [] {
      assert ts == ts[..|ts| - 1] + [ts[|ts| - 1]];
      CapableIsOne(ts[..|ts| - 1], required, size, t);
    }
  }

  /** And a write is refused for good exactly when each transport is of another kind, not for writes, not for
      firmware where firmware is asked for, or too small. */
  lemma RefusedForGood(d: Device, lastSeen: map<string, int>, required: string, size: int, now: int)
    ensures Choose(d, lastSeen, required, size, now).Unavailable? <==>
            forall t :: t in Effective(d) ==>
              || (required != "" && t.kind != required) || (!t.config && !t.ota)
              || (required == "ota" && !t.ota) || 0 < t.maxWriteBytes < size
  {
    var ts := Effective(d);
    CapableOfKeeps(ts, required, size);
    assert forall i :: 0 <= i < |ts| ==> ts[i] in ts;
    if t :| t in ts && Capable(t, required, size) {
      var i :| 0 <= i < |ts| && ts[i] == t;
    }
  }

  /** Asking for "ota" asks for a transport of that name, not for one that can carry firmware: refused for
      good exactly when no transport so named can flash and take the size, however capable the others. */
  lemma OtaIsAName(d: Device, lastSeen: map<string, int>, size: int, now: int)
    ensures var ts := Effective(d);
            Choose(d, lastSeen, "ota", size, now).Unavailable? <==>
            forall i :: 0 <= i < |ts| && ts[i].kind == "ota" && ts[i].ota ==>
              ts[i].maxWriteBytes > 0 && size > ts[i].maxWriteBytes
  {
    CapableOfKeeps(Effective(d), "ota", size);
    assert |"ota"| == 3;
  }

  /** A device declared the old way, behind a gateway, takes any write of up to 240 bytes, never more, and
      only if nothing but its radio is asked for. */
  lemma LegacyRelayed(d: Device, lastSeen: map<string, int>, required: string, size: int, now: int)
    requires d.transports == [] && d.gateway != ""
    ensures Choose(d, lastSeen, required, size, now).Unavailable? <==>
            !((required == "" || required == "lora") && size <= 240)
  {
    CapableOfKeeps(Effective(d), required, size);
    var t := Effective(d)[0];
    assert Effective(d)[..0] == [];
    assert CapableOf(Effective(d), required, size) == if Capable(t, required, size) then [t] else [];
    assert |"lora"| == 4 && |"ota"| == 3;
  }

  /** When it is not refused, the write goes through its gateway to its node, unless the radio was heard
      before and not for three of its expected intervals, when it waits. */
  lemma LegacyRelay(d: Device, lastSeen: map<string, int>, required: string, size: int, now: int)
    requires d.transports == [] && d.gateway != "" && (required == "" || required == "lora") && size <= 240
    ensures var c := Choose(d, lastSeen, required, size, now);
            var interval := d.expectedIntervalSeconds * SECOND;
            && (c.Deferred? <==> interval > 0 && "lora" in lastSeen && lastSeen["lora"] + 3 * interval <= now)
            && (!c.Deferred? ==> && c.Use? && c.transport.kind == "lora" && !c.transport.ota
                                 && c.transport.gateway == d.gateway && c.transport.nodeID == d.nodeID)
  {
    assert |"lora"| == 4 && |"ota"| == 3;
    OnlyChoice(d, Effective(d)[0], lastSeen, required, size, now);
  }

  /** A device with one transport uses it when it is up, and otherwise waits. */
  lemma OnlyChoice(d: Device, t: TransportConfig, lastSeen: map<string, int>, required: string, size: int, now: int)
    requires Effective(d) == [t] && Capable(t, required, size)
    ensures Choose(d, lastSeen, required, size, now) == if Up(t, lastSeen, now) then Use(t) else Deferred
  {
    assert [t][..0] == [] && [t][1..] == [];
    assert CapableOf([t], required, size) == [t];
    assert FirstUp([t], lastSeen, now) == if Up(t, lastSeen, now) then Use(t) else FirstUp([], lastSeen, now);
  }

  /** One with an address of its own takes a write of any size, at any time. */
  lemma LegacyDirect(d: Device, lastSeen: map<string, int>, required: string, size: int, now: int)
    requires d.transports == [] && d.gateway == ""
    ensures var c := Choose(d, lastSeen, required, size, now);
            if required == "" || required == "wifi"
            then c.Use? && c.transport.topicPrefix == d.topicPrefix && c.transport.ota
            else c.Unavailable?
  {
    CapableOfKeeps(Effective(d), required, size);
    var t := Effective(d)[0];
    assert Effective(d)[..0] == [];
    assert CapableOf(Effective(d), required, size) == if Capable(t, required, size) then [t] else [];
    assert |"wifi"| == 4 && |"ota"| == 3;
  }
}
