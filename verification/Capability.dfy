/** What a device can carry and afford: controller/api/v1alpha1/capability_types.go. */
module Capability {
  import opened Prelude

  datatype Transport = Transport(kind: string, config: bool, ota: bool,
                                 maxPayloadBytes: int, otaCostMah: int32)

  datatype DeviceCapability = DeviceCapability(
    transports: seq<Transport>, reachableVia: seq<string>,
    batteryPercent: int32, batteryMah: int32, runningConfigHash: string)

  datatype Reason =
    | NoOTACapableTransport | OTAExceedsBatteryBudget | ArtifactExceedsTransportCapacity
    | AwaitingTransportWindow | DeviceSleeping | DeviceUnreachable
    | HealthGateFailed | BootLoopDetected

  /** A transport that can carry a firmware image of `size` bytes; zero means unknown on either side. */
  predicate Carries(t: Transport, size: int) {
    t.ota && (size <= 0 || t.maxPayloadBytes <= 0 || size <= t.maxPayloadBytes)
  }

  predicate AcceptsOTA(c: DeviceCapability, size: int) {
    exists i :: 0 <= i < |c.transports| && Carries(c.transports[i], size)
  }

  function OTARefusal(c: DeviceCapability, size: int): (r: Reason) {
    if c.transports != [] && size > 0 then ArtifactExceedsTransportCapacity else NoOTACapableTransport
  }

  method CanAcceptOTA(c: DeviceCapability, size: int) returns (ok: bool, reason: Option<Reason>)
    ensures ok <==> AcceptsOTA(c, size)
    ensures reason == if ok then None else Some(OTARefusal(c, size))
  {
    if |c.transports| == 0 {
      return false, Some(NoOTACapableTransport);
    }
    for i := 0 to |c.transports|
      invariant forall j :: 0 <= j < i ==> !Carries(c.transports[j], size)
    {
      var t := c.transports[i];
      if !t.ota {
        continue;
      }
      if size > 0 && t.maxPayloadBytes > 0 && size > t.maxPayloadBytes {
        continue;
      }
      return true, None;
    }
    if size > 0 {
      return false, Some(ArtifactExceedsTransportCapacity);
    }
    return false, Some(NoOTACapableTransport);
  }

  /** A device cannot take an image exactly when every transport it could come over has a known capacity
      below a known size. Hence an image of unknown size fits any OTA transport, and a smaller one fits
      wherever a larger does. */
  lemma RefusedForSize(c: DeviceCapability, size: int)
    ensures !AcceptsOTA(c, size) <==> forall t :: t in c.transports && t.ota ==> 0 < t.maxPayloadBytes < size
    ensures size <= 0 ==> (AcceptsOTA(c, size) <==> exists t :: t in c.transports && t.ota)
    ensures forall smaller :: smaller <= size && AcceptsOTA(c, size) ==> AcceptsOTA(c, smaller)
  {
    if t :| t in c.transports && t.ota && !(0 < t.maxPayloadBytes < size) {
      var i :| 0 <= i < |c.transports| && c.transports[i] == t;
      assert Carries(c.transports[i], size);
    }
    forall smaller | smaller <= size && AcceptsOTA(c, size)
      ensures AcceptsOTA(c, smaller)
    {
      var i :| 0 <= i < |c.transports| && Carries(c.transports[i], size);
      assert Carries(c.transports[i], smaller);
    }
  }

  /** The dearest OTA transfer any declared transport may cost, zero when none is priced. */
  function MaxOTACost(ts: seq<Transport>): (cost: int32)
    ensures cost >= 0
    ensures forall i :: 0 <= i < |ts| && ts[i].ota ==> ts[i].otaCostMah <= cost
    ensures cost > 0 ==> exists i :: 0 <= i < |ts| && ts[i].ota && ts[i].otaCostMah == cost
  {
    if ts == [] then 0 else
      var rest := MaxOTACost(ts[..|ts| - 1]);
      var t := ts[|ts| - 1];
      if t.ota && t.otaCostMah > rest then t.otaCostMah else rest
  }

  /** The 32-bit arithmetic of the affordability test, once cost and capacity are known. */
  predicate SparesCharge(percent: int32, mah: int32, cost: int32, floor: int32)
    requires mah != 0
  {
    var costPercent := Wrap32(GoDiv(Wrap32(cost * 100), mah));
    Wrap32(percent - costPercent) >= floor
  }

  predicate Affordable(c: DeviceCapability, floor: int32) {
    c.batteryPercent == 0 || floor == 0 ||
    (c.batteryPercent >= floor &&
     var cost := MaxOTACost(c.transports);
     (cost == 0 || c.batteryMah == 0 || SparesCharge(c.batteryPercent, c.batteryMah, cost, floor)))
  }

  method OTAAffordable(c: DeviceCapability, minPercentAfter: int32) returns (ok: bool)
    ensures ok <==> Affordable(c, minPercentAfter)
  {
    if c.batteryPercent == 0 || minPercentAfter == 0 {
      return true;
    }
    if c.batteryPercent < minPercentAfter {
      return false;
    }
    var cost: int32 := 0;
    for i := 0 to |c.transports|
      invariant cost == MaxOTACost(c.transports[..i])
    {
      var t := c.transports[i];
      assert c.transports[..i + 1][..i] == c.transports[..i];
      if t.ota && t.otaCostMah > cost {
        cost := t.otaCostMah;
      }
    }
    assert c.transports[..|c.transports|] == c.transports;
    if cost == 0 || c.batteryMah == 0 {
      return true;
    }
    var costPercent := Wrap32(GoDiv(Wrap32(cost * 100), c.batteryMah));
    return Wrap32(c.batteryPercent - costPercent) >= minPercentAfter;
  }

  /** What is left after the transfer, scaled by capacity so that no division rounds:
      strictly more than floor - 1 percent. */
  predicate KeepsFloor(percent: int32, mah: int32, cost: int32, floor: int32) {
    percent * mah - 100 * cost > (floor - 1) * mah
  }

  lemma Scale(a: int, b: int, m: int)
    requires a <= b && m > 0
    ensures a * m <= b * m
  {
    assert (b - a) * m >= 0;
  }

  lemma QuotientBound(n: int, m: int, k: int)
    requires m > 0
    ensures n / m <= k <==> n < (k + 1) * m
  {
    var q, r := n / m, n % m;
    assert n == q * m + r;
    assert (q + 1) * m == q * m + m;
    if q <= k {
      Scale(q + 1, k + 1, m);
    } else {
      Scale(k + 1, q, m);
    }
  }

  lemma QuotientShrinks(n: int, m: int)
    requires n >= 0 && m > 0
    ensures 0 <= n / m <= n
  {
    Scale(1, m, n + 1);
    QuotientBound(n, m, n);
  }

  /** Below the overflow the wrapped quotient is the quotient, and small. */
  lemma CostPercentFits(mah: int32, cost: int32)
    requires mah > 0 && cost > 0 && 100 * cost <= MAX_INT32
    ensures Wrap32(GoDiv(Wrap32(cost * 100), mah)) == (100 * cost) / mah
    ensures 0 <= (100 * cost) / mah <= MAX_INT32
  {
    QuotientShrinks(100 * cost, mah);
    assert Wrap32(cost * 100) == 100 * cost;
  }

  lemma TestOnQuotient(percent: int32, mah: int32, cost: int32, floor: int32, q: int)
    requires percent > 0 && mah > 0 && floor > 0 && 0 <= q <= MAX_INT32
    requires Wrap32(GoDiv(Wrap32(cost * 100), mah)) == q
    ensures SparesCharge(percent, mah, cost, floor) <==> q <= percent - floor
  {
    assert Wrap32(percent - q) == percent - q;
  }

  lemma MarginOnQuotient(percent: int, mah: int, hundredfold: int, floor: int)
    requires mah > 0
    ensures hundredfold / mah <= percent - floor <==> percent * mah - hundredfold > (floor - 1) * mah
  {
    QuotientBound(hundredfold, mah, percent - floor);
    Distribute(percent, floor, mah);
  }

  lemma Distribute(percent: int, floor: int, mah: int)
    ensures (percent - floor + 1) * mah == percent * mah - (floor - 1) * mah
  {
  }

  /** Below the 32-bit overflow the truncating test is exactly the untruncated margin. */
  lemma SparesChargeExact(percent: int32, mah: int32, cost: int32, floor: int32)
    requires percent > 0 && mah > 0 && cost > 0 && floor > 0
    requires 100 * cost <= MAX_INT32
    ensures SparesCharge(percent, mah, cost, floor) <==> KeepsFloor(percent, mah, cost, floor)
  {
    CostPercentFits(mah, cost);
    TestOnQuotient(percent, mah, cost, floor, (100 * cost) / mah);
    MarginOnQuotient(percent, mah, 100 * cost, floor);
  }

  lemma QuotientByMax(w: int)
    requires -0x8000_0000 <= w < MAX_INT32
    ensures -1 <= GoDiv(w, MAX_INT32) <= 0
  {
  }

  /** What a hundredfold wraps to is a multiple of four, and the largest 32-bit integer is not. */
  lemma WrapsToMultipleOfFour(cost: int)
    ensures Wrap32(cost * 100) != MAX_INT32
  {
    var w := Wrap32(cost * 100);
    var k := (cost * 100 - w) / 0x1_0000_0000;
    assert w == 4 * (25 * cost - 0x4000_0000 * k);
  }

  /** Past the overflow a full-size battery at one percent is waved through and drained. */
  lemma OverflowBreaksFloor(cost: int32)
    requires 100 * cost > MAX_INT32
    ensures SparesCharge(1, MAX_INT32, cost, 1) && !KeepsFloor(1, MAX_INT32, cost, 1)
  {
    WrapsToMultipleOfFour(cost);
    QuotientByMax(Wrap32(cost * 100));
  }

  /** The battery floor is kept for every battery exactly when the priced transfer does not
      overflow `cost * 100` in 32 bits. */
  lemma FloorLaw(cost: int32)
    requires cost > 0
    ensures (forall percent: int32, mah: int32, floor: int32 |
               percent > 0 && mah > 0 && floor > 0 && SparesCharge(percent, mah, cost, floor) ::
               KeepsFloor(percent, mah, cost, floor))
            <==> 100 * cost <= MAX_INT32
  {
    if 100 * cost <= MAX_INT32 {
      forall percent: int32, mah: int32, floor: int32 |
        percent > 0 && mah > 0 && floor > 0 && SparesCharge(percent, mah, cost, floor)
        ensures KeepsFloor(percent, mah, cost, floor)
      {
        SparesChargeExact(percent, mah, cost, floor);
      }
    } else {
      OverflowBreaksFloor(cost);
    }
  }
}
