/** Learning a device's rhythm of contacts: the contact half of controller/internal/window.go,
    with float64 read as exact real arithmetic. */
module Contact {
  import opened Prelude

  datatype Confidence = High | Medium | Low | NoConfidence

  datatype ContactWindow = ContactWindow(
    samplesObserved: nat, typicalInterval: Option<int>, confidence: Confidence, nextExpected: Option<int>)

  // --- sqrt: twenty Newton steps from x ------------------------------------------------------------

  function Newton(x: real, z: real): (r: real)
    requires z > 0.0
  {
    (z + x / z) / 2.0
  }

  lemma NewtonStep(x: real, z: real)
    requires x > 0.0 && z > 0.0
    ensures Newton(x, z) > 0.0 && Newton(x, z) >= z / 2.0 && Newton(x, z) * Newton(x, z) >= x
  {
    var y := x / z;
    assert y * z == x;
    assert y > 0.0;
    MeansInequality(z, y);
  }

  /** The arithmetic mean is at least the geometric one. */
  lemma MeansInequality(z: real, y: real)
    ensures ((z + y) / 2.0) * ((z + y) / 2.0) >= z * y
  {
    var t := (z - y) / 2.0;
    assert t * t >= 0.0;
    assert ((z + y) / 2.0) * ((z + y) / 2.0) == z * y + t * t;
  }

  function Iterate(x: real, n: nat): (z: real)
    requires x > 0.0
    ensures z > 0.0
    decreases n, x
  {
    if n == 0 then x else NewtonStep(x, Iterate(x, n - 1)); Newton(x, Iterate(x, n - 1))
  }

  function Root(x: real): (z: real) {
    if x <= 0.0 then 0.0 else Iterate(x, 20)
  }

  method Sqrt(x: real) returns (z: real)
    ensures z == Root(x)
  {
    if x <= 0.0 {
      return 0.0;
    }
    z := x;
    for i := 0 to 20
      invariant z == Iterate(x, i)
    {
      z := (z + x / z) / 2.0;
    }
  }

  /** The result is never below the true root. */
  lemma RootIsUpperBound(x: real)
    ensures Root(x) >= 0.0 && Root(x) * Root(x) >= x
  {
    if x > 0.0 {
      NewtonStep(x, Iterate(x, 19));
    }
  }

  function Pow2(n: nat): (p: real)
    ensures p > 0.0
  {
    if n == 0 then 1.0 else 2.0 * Pow2(n - 1)
  }

  lemma {:induction false} IterateIsSlow(x: real, n: nat)
    requires x > 0.0
    ensures Iterate(x, n) * Pow2(n) >= x
  {
    if n > 0 {
      IterateIsSlow(x, n - 1);
      var z, p := Iterate(x, n - 1), Pow2(n - 1);
      NewtonStep(x, z);
      assert Newton(x, z) * (2.0 * p) >= (z / 2.0) * (2.0 * p) by {
        Scale(z / 2.0, Newton(x, z), 2.0 * p);
      }
      assert (z / 2.0) * (2.0 * p) == z * p;
    }
  }

  lemma Scale(a: real, b: real, p: real)
    requires a <= b && p > 0.0
    ensures a * p <= b * p
  {
    assert (b - a) * p >= 0.0;
  }

  /** Twenty halvings are all it can do: far from the root the result is still at least x / 2^20. */
  lemma RootIsUnconverged(x: real)
    requires x > 0.0
    ensures Root(x) * 1048576.0 >= x
  {
    IterateIsSlow(x, 20);
    Pow2Twenty();
  }

  /** One step at least halves what is in excess of any bound on the root. */
  lemma ExcessHalves(x: real, z: real, b: real)
    requires x > 0.0 && z > 0.0 && b > 0.0 && z * z >= x && b * b >= x
    ensures Newton(x, z) <= z
    ensures Newton(x, z) <= b || Newton(x, z) - b <= (z - b) / 2.0
  {
    var y := x / z;
    assert y * z == x;
    assert y <= z by {
      if y > z {
        StrictScale(z, y, z);
        assert false;
      }
    }
    if z >= b && y > b {
      StrictScale(b, y, z);
      Scale2(b, b, z);
      assert false;
    }
  }

  /** Iterate `z` is above the root of `x`, and above any bound `b` on it by at most x / p. */
  predicate Near(x: real, z: real, b: real, p: real) {
    z > 0.0 && z * z >= x && (z - b) * p <= x
  }

  lemma NearStep(x: real, z: real, b: real, p: real)
    requires x > 0.0 && b > 0.0 && b * b >= x && p > 0.0 && Near(x, z, b, p)
    ensures Near(x, Newton(x, z), b, 2.0 * p)
  {
    NewtonStep(x, z);
    ExcessHalves(x, z, b);
    var e, d := Newton(x, z) - b, z - b;
    if e <= 0.0 {
      Scale(e, 0.0, 2.0 * p);
    } else {
      Scale(e, d / 2.0, 2.0 * p);
      assert (d / 2.0) * (2.0 * p) == d * p;
    }
  }

  lemma {:induction false} IterateConverges(x: real, n: nat, b: real)
    requires x >= 1.0 && b > 0.0 && b * b >= x
    ensures Near(x, Iterate(x, n), b, Pow2(n))
  {
    if n == 0 {
      Scale(1.0, x, x);
      assert Near(x, x, b, 1.0);
    } else {
      IterateConverges(x, n - 1, b);
      NearStep(x, Iterate(x, n - 1), b, Pow2(n - 1));
    }
  }

  lemma Pow2Twenty()
    ensures Pow2(20) == 1048576.0
  {
    assert Pow2(4) == 16.0;
    assert Pow2(8) == 256.0;
    assert Pow2(12) == 4096.0;
    assert Pow2(16) == 65536.0;
  }

  /** And twenty halvings are what it does: the result exceeds no bound on the true root by more than
      x / 2^20. */
  lemma RootError(x: real, b: real)
    requires x >= 1.0 && b > 0.0 && b * b >= x
    ensures (Root(x) - b) * 1048576.0 <= x
  {
    IterateConverges(x, 20, b);
    Pow2Twenty();
  }

  lemma {:induction false} SmallIterate(x: real, n: nat)
    requires 0.0 < x < 1.0
    ensures Iterate(x, n) < 1.0 && (Iterate(x, n) == x || Iterate(x, n) * Iterate(x, n) >= x)
  {
    if n > 0 {
      SmallIterate(x, n - 1);
      var z := Iterate(x, n - 1);
      NewtonStep(x, z);
      if z == x {
        SelfRatio(x);
      } else {
        SquareAboveOne(x);
        ExcessHalves(x, z, 1.0);
      }
    }
  }

  lemma SelfRatio(x: real)
    requires x > 0.0
    ensures Newton(x, x) == (x + 1.0) / 2.0
  {
    var q := x / x;
    assert q * x == x;
    assert (q - 1.0) * x == 0.0;
  }

  lemma SquareAboveOne(x: real)
    requires x < 1.0
    ensures 1.0 * 1.0 >= x
  {
  }

  // --- the learner ---------------------------------------------------------------------------------

  function Gaps(contacts: seq<int>): (gaps: seq<int>)
    ensures forall i :: 0 <= i < |gaps| ==> gaps[i] > 0
  {
    if |contacts| < 2 then [] else
      var g := contacts[|contacts| - 1] - contacts[|contacts| - 2];
      Gaps(contacts[..|contacts| - 1]) + if g > 0 then [g] else []
  }

  function Sum(gaps: seq<int>): (s: int) {
    if gaps == [] then 0 else Sum(gaps[..|gaps| - 1]) + gaps[|gaps| - 1]
  }

  /** Sum of squared distances from `m`. */
  function SumSq(gaps: seq<int>, m: int): (s: real)
    ensures s >= 0.0
  {
    if gaps == [] then 0.0 else
      var d := (gaps[|gaps| - 1] - m) as real;
      SumSq(gaps[..|gaps| - 1], m) + d * d
  }

  function Mean(gaps: seq<int>): (m: int)
    requires gaps != []
  {
    Sum(gaps) / |gaps|
  }

  /** Mean squared distance from the truncated mean, as the code computes it. */
  function Variance(gaps: seq<int>): (v: real)
    requires gaps != []
    ensures v >= 0.0
  {
    SumSq(gaps, Mean(gaps)) / |gaps| as real
  }

  /** The truncated root of a variance as a fraction of the mean. */
  function Ratio(v: real, mean: int): (cv: real) {
    if mean > 0 then Root(v).Floor as real / mean as real else 1.0
  }

  function Variation(gaps: seq<int>): (cv: real)
    requires gaps != []
  {
    Ratio(Variance(gaps), Mean(gaps))
  }

  function Rate(n: nat, cv: real): (c: Confidence) {
    if n >= 10 && cv < 0.15 then High
    else if n >= 5 && cv < 0.35 then Medium
    else if n >= 3 then Low
    else NoConfidence
  }

  function Learn(contacts: seq<int>, now: int): (w: ContactWindow) {
    var gaps := Gaps(contacts);
    if gaps == [] then ContactWindow(|contacts|, None, NoConfidence, None)
    else
      var confidence := Rate(|gaps|, Variation(gaps));
      var next := contacts[|contacts| - 1] + Mean(gaps);
      ContactWindow(|contacts|, Some(Mean(gaps)), confidence,
                    if !confidence.NoConfidence? && next > now then Some(next) else None)
  }

  method CollectGaps(contacts: seq<int>) returns (gaps: seq<int>)
    ensures gaps == Gaps(contacts)
  {
    gaps := [];
    if |contacts| < 2 {
      return;
    }
    for i := 1 to |contacts|
      invariant gaps == Gaps(contacts[..i])
    {
      assert contacts[..i + 1][..i] == contacts[..i];
      var g := contacts[i] - contacts[i - 1];
      if g > 0 {
        gaps := gaps + [g];
      }
    }
    assert contacts[..|contacts|] == contacts;
  }

  method MeanGap(gaps: seq<int>) returns (mean: int)
    requires gaps != []
    ensures mean == Mean(gaps)
  {
    var total := 0;
    for i := 0 to |gaps|
      invariant total == Sum(gaps[..i])
    {
      assert gaps[..i + 1][..i] == gaps[..i];
      total := total + gaps[i];
    }
    assert gaps[..|gaps|] == gaps;
    mean := total / |gaps|;
  }

  method Deviation(gaps: seq<int>, mean: int) returns (stddev: int)
    requires gaps != [] && mean == Mean(gaps)
    ensures stddev == Root(Variance(gaps)).Floor
  {
    var sumSq := 0.0;
    for i := 0 to |gaps|
      invariant sumSq == SumSq(gaps[..i], mean)
    {
      assert gaps[..i + 1][..i] == gaps[..i];
      var d := (gaps[i] - mean) as real;
      sumSq := sumSq + d * d;
    }
    assert gaps[..|gaps|] == gaps;
    var root := Sqrt(sumSq / |gaps| as real);
    stddev := root.Floor;
  }

  method LearnContactWindow(contacts: seq<int>, now: int) returns (w: ContactWindow)
    ensures w == Learn(contacts, now)
  {
    w := ContactWindow(|contacts|, None, NoConfidence, None);
    var gaps := CollectGaps(contacts);
    if |gaps| == 0 {
      return;
    }
    var mean := MeanGap(gaps);
    w := w.(typicalInterval := Some(mean));
    var stddev := Deviation(gaps, mean);
    var cv := 1.0;
    if mean > 0 {
      cv := stddev as real / mean as real;
    }
    if |gaps| >= 10 && cv < 0.15 {
      w := w.(confidence := High);
    } else if |gaps| >= 5 && cv < 0.35 {
      w := w.(confidence := Medium);
    } else if |gaps| >= 3 {
      w := w.(confidence := Low);
    }
    if w.confidence != NoConfidence {
      var next := contacts[|contacts| - 1] + mean;
      if next > now {
        w := w.(nextExpected := Some(next));
      }
    }
  }

  // --- confidence is never overstated -------------------------------------------------------------

  lemma {:induction false} SumIsPositive(gaps: seq<int>)
    requires forall i :: 0 <= i < |gaps| ==> gaps[i] > 0
    ensures Sum(gaps) >= |gaps|
  {
    if gaps != [] {
      SumIsPositive(gaps[..|gaps| - 1]);
    }
  }

  lemma MeanIsPositive(gaps: seq<int>)
    requires gaps != [] && forall i :: 0 <= i < |gaps| ==> gaps[i] > 0
    ensures Mean(gaps) > 0
  {
    SumIsPositive(gaps);
  }

  lemma BelowLimit(f: real, m: real, limit: real, z: real)
    requires m > 0.0 && f / m < limit && z < f + 1.0
    ensures z < limit * m + 1.0
  {
    var q := f / m;
    assert q * m == f;
    StrictScale(q, limit, m);
  }

  lemma RatioBelow(v: real, mean: int, limit: real)
    requires mean > 0 && Ratio(v, mean) < limit
    ensures Root(v) < limit * mean as real + 1.0
  {
    BelowLimit(Root(v).Floor as real, mean as real, limit, Root(v));
  }

  lemma SmallRoot(v: real, b: real)
    requires Root(v) < b
    ensures v < b * b
  {
    RootIsUpperBound(v);
    SquareBelow(v, Root(v), b);
  }

  lemma SquareBelow(v: real, z: real, b: real)
    requires 0.0 <= z < b && v <= z * z
    ensures v < b * b
  {
    assert (b - z) * b > 0.0;
    assert z * (b - z) >= 0.0;
  }

  lemma StrictScale(a: real, b: real, p: real)
    requires a < b && p > 0.0
    ensures a * p < b * p
  {
    assert (b - a) * p > 0.0;
  }

  lemma Scale2(z: real, a: real, b: real)
    requires 0.0 <= z && a <= b
    ensures z * a <= z * b
  {
    assert z * (b - a) >= 0.0;
  }

  /** A variance whose root is below `limit` of the mean plus one nanosecond; stated on squares, so that
      no root is taken. */
  predicate Below(v: real, mean: int, limit: real) {
    var b := limit * mean as real + 1.0;
    v < b * b
  }

  ghost predicate DeviationBelow(gaps: seq<int>, limit: real)
    requires gaps != []
  {
    Below(Variance(gaps), Mean(gaps), limit)
  }

  lemma RatioBoundsVariance(v: real, mean: int, limit: real)
    requires mean > 0 && Ratio(v, mean) < limit
    ensures Below(v, mean, limit)
  {
    RatioBelow(v, mean, limit);
    SmallRoot(v, limit * mean as real + 1.0);
  }

  lemma VariationBoundsDeviation(gaps: seq<int>, limit: real)
    requires gaps != [] && (forall i :: 0 <= i < |gaps| ==> gaps[i] > 0)
    requires Variation(gaps) < limit
    ensures DeviationBelow(gaps, limit)
  {
    MeanIsPositive(gaps);
    RatioBoundsVariance(Variance(gaps), Mean(gaps), limit);
  }

  /** High (Medium) needs at least 10 (5) positive gaps whose deviation is below 0.15 (0.35) of the
      mean: the rating is never better than the gaps deserve. */
  lemma ConfidenceNotOverstated(contacts: seq<int>, now: int)
    ensures var c, gaps := Learn(contacts, now).confidence, Gaps(contacts);
            && (c.High? ==> |gaps| >= 10 && DeviationBelow(gaps, 0.15))
            && (c.Medium? ==> |gaps| >= 5 && DeviationBelow(gaps, 0.35))
  {
    var c, gaps := Learn(contacts, now).confidence, Gaps(contacts);
    if c.High? {
      VariationBoundsDeviation(gaps, 0.15);
    } else if c.Medium? {
      VariationBoundsDeviation(gaps, 0.35);
    }
  }

  /** Every contact is counted; an interval is learned from the first gap on, and is the mean of the positive
      gaps cut to whole nanoseconds. */
  lemma IntervalMeans(contacts: seq<int>, now: int)
    ensures var w, gaps := Learn(contacts, now), Gaps(contacts);
            && w.samplesObserved == |contacts|
            && (w.typicalInterval.None? <==> gaps == [])
            && (gaps == [] ==> w.confidence.NoConfidence? && w.nextExpected.None?)
            && (gaps != [] ==> w.typicalInterval == Some(Mean(gaps)) && Truncates(Mean(gaps), Sum(gaps), |gaps|))
  {
    if Gaps(contacts) != [] {
      MeanTruncates(Gaps(contacts));
    }
  }

  /** `q` is the whole part of total / n. */
  predicate Truncates(q: int, total: int, n: nat) {
    0 <= total - q * n < n
  }

  lemma QuotientTruncates(total: int, n: nat)
    requires n > 0
    ensures Truncates(total / n, total, n)
  {
    assert total == (total / n) * n + total % n;
  }

  lemma MeanTruncates(gaps: seq<int>)
    requires gaps != []
    ensures Truncates(Mean(gaps), Sum(gaps), |gaps|)
  {
    QuotientTruncates(Sum(gaps), |gaps|);
  }

  /** A prediction is made only with some confidence, is the last contact plus the mean interval, and
      always lies in the future. */
  lemma PredictionIsFuture(contacts: seq<int>, now: int)
    ensures var w := Learn(contacts, now);
            w.nextExpected.Some? ==>
              && !w.confidence.NoConfidence? && |contacts| >= 4 && w.typicalInterval.Some?
              && w.nextExpected.value == contacts[|contacts| - 1] + w.typicalInterval.value
              && w.nextExpected.value > now
  {
    GapsAreFewer(contacts);
  }

  lemma {:induction false} GapsAreFewer(contacts: seq<int>)
    ensures contacts != [] ==> |Gaps(contacts)| < |contacts|
    ensures contacts == [] ==> Gaps(contacts) == []
  {
    if |contacts| >= 2 {
      GapsAreFewer(contacts[..|contacts| - 1]);
    }
  }

  lemma GapsPush(contacts: seq<int>, g: int)
    requires contacts != [] && g > 0
    ensures var gaps := Gaps(contacts + [contacts[|contacts| - 1] + g]);
            gaps == Gaps(contacts) + [g] && Sum(gaps) == Sum(Gaps(contacts)) + g
  {
    assert (contacts + [contacts[|contacts| - 1] + g])[..|contacts|] == contacts;
    assert (Gaps(contacts) + [g])[..|Gaps(contacts)|] == Gaps(contacts);
  }

  ghost predicate Increasing(contacts: seq<int>) {
    forall i, j :: 0 <= i < j < |contacts| ==> contacts[i] < contacts[j]
  }

  lemma TelescopeStep(init: seq<int>, t: int)
    requires init != [] && init[|init| - 1] < t
    ensures |Gaps(init + [t])| == |Gaps(init)| + 1
    ensures Sum(Gaps(init + [t])) == Sum(Gaps(init)) + t - init[|init| - 1]
  {
    GapsPush(init, t - init[|init| - 1]);
  }

  /** For strictly increasing contacts every interval counts and the intervals telescope. */
  lemma {:induction false} GapsTelescope(contacts: seq<int>)
    requires |contacts| >= 1 && Increasing(contacts)
    ensures |Gaps(contacts)| == |contacts| - 1
    ensures Sum(Gaps(contacts)) == contacts[|contacts| - 1] - contacts[0]
  {
    if |contacts| >= 2 {
      var init, t := contacts[..|contacts| - 1], contacts[|contacts| - 1];
      assert contacts == init + [t];
      GapsTelescope(init);
      TelescopeStep(init, t);
    }
  }

  // --- but it is understated -----------------------------------------------------------------------

  lemma FarSquare(x: real, d: real)
    requires d >= 0.0 && (x >= d || x <= -d)
    ensures x * x >= d * d
  {
    var y := if x >= 0.0 then x else -x;
    assert x * x == y * y;
    Scale2(y, d, y);
    Scale2(d, d, y);
  }

  lemma {:induction false} FarFromMean(gaps: seq<int>, m: int, d: int)
    requires d >= 0 && forall i :: 0 <= i < |gaps| ==> gaps[i] - m >= d || m - gaps[i] >= d
    ensures SumSq(gaps, m) >= |gaps| as real * (d as real * d as real)
  {
    if gaps != [] {
      var init, g := gaps[..|gaps| - 1], gaps[|gaps| - 1];
      FarFromMean(init, m, d);
      FarSquare((g - m) as real, d as real);
      OneMore(|init| as real, d as real * d as real);
    }
  }

  lemma OneMore(n: real, a: real)
    ensures (n + 1.0) * a == n * a + a
  {
  }

  lemma DividesBack(t: real, n: real, b: real)
    requires n > 0.0 && t >= n * b
    ensures t / n >= b
  {
    if t / n < b {
      StrictScale(t / n, b, n);
      assert false;
    }
  }

  /** Variance `v` leaves room for both the true deviation and the twenty-step error below `limit` of the
      mean. */
  predicate ClearlyBelow(v: real, mean: int, limit: real) {
    var room := limit * mean as real - v / 1048576.0;
    room > 0.0 && v < room * room
  }

  /** Either the true deviation or the twenty-step error alone reaches `limit` of the mean, plus the
      nanosecond lost to truncation. */
  predicate ClearlyAbove(v: real, mean: int, limit: real) {
    var bound := limit * mean as real + 1.0;
    v >= bound * bound || v >= bound * 1048576.0
  }

  /** A bound on the root of `v` below `room`, when `v` is below its square. */
  lemma BoundBelow(v: real, room: real) returns (b: real)
    requires v > 0.0 && room > 0.0 && v < room * room
    ensures 0.0 < b < room && b * b >= v
  {
    var y := v / room;
    assert y * room == v;
    if y >= room {
      Scale(room, y, room);
      assert false;
    }
    b := Newton(v, room);
    NewtonStep(v, room);
  }

  lemma FloorBelow(z: real, f: int, m: real, limit: real)
    requires m > 0.0 && f as real <= z < limit * m
    ensures f as real / m < limit
  {
    var q := f as real / m;
    assert q * m == f as real;
    if q >= limit {
      Scale(limit, q, m);
      assert false;
    }
  }

  lemma RootClearlyBelow(v: real, mean: int, limit: real)
    requires v >= 1.0 && ClearlyBelow(v, mean, limit)
    ensures Root(v) < limit * mean as real
  {
    var room := limit * mean as real - v / 1048576.0;
    var b := BoundBelow(v, room);
    RootError(v, b);
  }

  lemma SmallVariance(v: real)
    requires 0.0 <= v < 1.0
    ensures Root(v).Floor == 0
  {
    if v > 0.0 {
      SmallIterate(v, 20);
    }
  }

  lemma BelowIsTrusted(v: real, mean: int, limit: real)
    requires v >= 0.0 && mean > 0 && limit > 0.0 && ClearlyBelow(v, mean, limit)
    ensures Ratio(v, mean) < limit
  {
    if v >= 1.0 {
      RootClearlyBelow(v, mean, limit);
      FloorBelow(Root(v), Root(v).Floor, mean as real, limit);
    } else {
      SmallVariance(v);
      StrictScale(0.0, limit, mean as real);
      FloorBelow(0.0, 0, mean as real, limit);
    }
  }

  lemma AboveIsDoubted(v: real, mean: int, limit: real)
    requires v >= 0.0 && mean > 0 && limit > 0.0 && ClearlyAbove(v, mean, limit)
    ensures Ratio(v, mean) >= limit
  {
    if Ratio(v, mean) < limit {
      RatioBelow(v, mean, limit);
      RatioBoundsVariance(v, mean, limit);
      StrictScale(0.0, limit, mean as real);
      if v > 0.0 {
        RootIsUnconverged(v);
      }
      assert false;
    }
  }

  /** What a caller can tell from the number of gaps, their mean and their variance alone: High and Medium
      are given when the deviation and the error of twenty Newton steps fit below the limit together, and
      withheld when either alone does not. */
  lemma RatingDecided(contacts: seq<int>, now: int)
    requires Gaps(contacts) != []
    ensures var c, gaps := Learn(contacts, now).confidence, Gaps(contacts);
            var n, v, mean := |gaps|, Variance(gaps), Mean(gaps);
            && (n >= 10 && ClearlyBelow(v, mean, 0.15) ==> c.High?)
            && (n < 10 || ClearlyAbove(v, mean, 0.15) ==> !c.High?)
            && (n >= 5 && ClearlyBelow(v, mean, 0.35) ==> c.High? || c.Medium?)
            && (n < 5 || ClearlyAbove(v, mean, 0.35) ==> !c.High? && !c.Medium?)
  {
    MeanIsPositive(Gaps(contacts));
    RateDecided(|Gaps(contacts)|, Variance(Gaps(contacts)), Mean(Gaps(contacts)));
  }

  lemma RateDecided(n: nat, v: real, mean: int)
    requires v >= 0.0 && mean > 0
    ensures var c := Rate(n, Ratio(v, mean));
            && (n >= 10 && ClearlyBelow(v, mean, 0.15) ==> c.High?)
            && (n < 10 || ClearlyAbove(v, mean, 0.15) ==> !c.High?)
            && (n >= 5 && ClearlyBelow(v, mean, 0.35) ==> c.High? || c.Medium?)
            && (n < 5 || ClearlyAbove(v, mean, 0.35) ==> !c.High? && !c.Medium?)
  {
    if ClearlyBelow(v, mean, 0.15) { BelowIsTrusted(v, mean, 0.15); }
    if ClearlyAbove(v, mean, 0.15) { AboveIsDoubted(v, mean, 0.15); }
    if ClearlyBelow(v, mean, 0.35) { BelowIsTrusted(v, mean, 0.35); }
    if ClearlyAbove(v, mean, 0.35) { AboveIsDoubted(v, mean, 0.35); }
  }

  lemma JitterVariance(gaps: seq<int>, d: int)
    requires gaps != [] && d >= 0
    requires forall i :: 0 <= i < |gaps| ==> gaps[i] - Mean(gaps) >= d || Mean(gaps) - gaps[i] >= d
    ensures Variance(gaps) >= d as real * d as real
  {
    FarFromMean(gaps, Mean(gaps), d);
    DividesBack(SumSq(gaps, Mean(gaps)), |gaps| as real, d as real * d as real);
  }

  lemma MinuteIsAbove(v: real, mean: int)
    requires v >= MINUTE as real * MINUTE as real && 0 < mean <= 24 * HOUR
    ensures ClearlyAbove(v, mean, 0.35)
  {
    assert v >= 3_600_000_000_000_000_000_000.0;
  }

  /** Twenty steps do not reach the root of a large number of nanoseconds: a device whose every interval,
      of up to a day on average, misses the mean by a minute or more is never rated above Low, however
      regular a minute's deviation is. */
  lemma MinuteJitterIsNeverTrusted(contacts: seq<int>, now: int)
    requires var gaps := Gaps(contacts);
             && gaps != [] && Mean(gaps) <= 24 * HOUR
             && forall i :: 0 <= i < |gaps| ==> gaps[i] - Mean(gaps) >= MINUTE || Mean(gaps) - gaps[i] >= MINUTE
    ensures var c := Learn(contacts, now).confidence; c.Low? || c.NoConfidence?
  {
    MeanIsPositive(Gaps(contacts));
    JitterVariance(Gaps(contacts), MINUTE);
    MinuteIsAbove(Variance(Gaps(contacts)), Mean(Gaps(contacts)));
    RatingDecided(contacts, now);
  }

  /** Two more contacts, a minute more than four hours later and a minute less. */
  function Round(s: seq<int>): (r: seq<int>)
    requires s != []
    ensures r != []
  {
    var late := s + [s[|s| - 1] + (4 * HOUR + MINUTE)];
    late + [late[|late| - 1] + (4 * HOUR - MINUTE)]
  }

  function Steady(k: nat): (contacts: seq<int>)
    ensures contacts != []
  {
    if k == 0 then [0] else Round(Steady(k - 1))
  }

  /** Every gap is `d` more or less than `m`. */
  ghost predicate OffBy(gaps: seq<int>, m: int, d: int) {
    forall i :: 0 <= i < |gaps| ==> gaps[i] == m + d || gaps[i] == m - d
  }

  lemma RoundGaps(s: seq<int>)
    requires s != []
    ensures Gaps(Round(s)) == Gaps(s) + [4 * HOUR + MINUTE] + [4 * HOUR - MINUTE]
    ensures Sum(Gaps(Round(s))) == Sum(Gaps(s)) + 8 * HOUR
  {
    GapsPush(s, 4 * HOUR + MINUTE);
    GapsPush(s + [s[|s| - 1] + (4 * HOUR + MINUTE)], 4 * HOUR - MINUTE);
  }

  /** What is known of the gaps after `k` rounds. */
  ghost predicate Rounds(gaps: seq<int>, k: nat) {
    |gaps| == 2 * k && Sum(gaps) == k * (8 * HOUR) && OffBy(gaps, 4 * HOUR, MINUTE)
  }

  lemma RoundsGrow(gaps: seq<int>, k: nat, more: seq<int>)
    requires Rounds(gaps, k) && more == gaps + [4 * HOUR + MINUTE] + [4 * HOUR - MINUTE]
    requires Sum(more) == Sum(gaps) + 8 * HOUR
    ensures Rounds(more, k + 1)
  {
    assert forall i :: 0 <= i < |gaps| ==> more[i] == gaps[i];
  }

  lemma RoundsStep(s: seq<int>, k: nat)
    requires s != [] && Rounds(Gaps(s), k)
    ensures Rounds(Gaps(Round(s)), k + 1)
  {
    RoundGaps(s);
    RoundsGrow(Gaps(s), k, Gaps(Round(s)));
  }

  lemma {:induction false} SteadyGaps(k: nat)
    ensures Rounds(Gaps(Steady(k)), k)
  {
    if k > 0 {
      SteadyGaps(k - 1);
      RoundsStep(Steady(k - 1), k - 1);
    }
  }

  /** The sum of `n` equal squares. */
  function Copies(n: nat, square: real): (s: real) {
    if n == 0 then 0.0 else Copies(n - 1, square) + square
  }

  lemma {:induction false} CopiesIsProduct(n: nat, square: real)
    ensures Copies(n, square) == n as real * square
  {
    if n > 0 {
      CopiesIsProduct(n - 1, square);
      OneMore((n - 1) as real, square);
    }
  }

  lemma {:induction false} SquareSum(gaps: seq<int>, m: int, d: int)
    requires OffBy(gaps, m, d)
    ensures SumSq(gaps, m) == Copies(|gaps|, d as real * d as real)
  {
    if gaps != [] {
      SquareSum(gaps[..|gaps| - 1], m, d);
      SameSquare((gaps[|gaps| - 1] - m) as real, d as real);
    }
  }

  lemma SameSquare(e: real, d: real)
    requires e == d || e == -d
    ensures e * e == d * d
  {
  }

  lemma MeanOfCopies(n: nat, square: real)
    requires n > 0
    ensures Copies(n, square) / n as real == square
  {
    CopiesIsProduct(n, square);
    DividesOut(n as real, square);
  }

  lemma DividesOut(n: real, a: real)
    requires n > 0.0
    ensures (n * a) / n == a
  {
  }

  lemma SpreadAbout(gaps: seq<int>, m: int, d: int)
    requires gaps != [] && OffBy(gaps, m, d)
    ensures SumSq(gaps, m) / |gaps| as real == d as real * d as real
  {
    SquareSum(gaps, m, d);
    MeanOfCopies(|gaps|, d as real * d as real);
  }

  lemma VarianceIs(gaps: seq<int>, m: int, d: int)
    requires gaps != [] && m == Mean(gaps) && OffBy(gaps, m, d)
    ensures Variance(gaps) == d as real * d as real
  {
    SpreadAbout(gaps, m, d);
  }

  lemma RoundsMean(gaps: seq<int>, k: nat)
    requires k >= 1 && Rounds(gaps, k)
    ensures Mean(gaps) == 4 * HOUR
  {
    DivModIs(Sum(gaps), 2 * k, 4 * HOUR, 0);
  }

  lemma SteadyIsDoubted(contacts: seq<int>, k: nat, now: int)
    requires k >= 5 && Rounds(Gaps(contacts), k)
    ensures Variance(Gaps(contacts)) == MINUTE as real * MINUTE as real
    ensures Mean(Gaps(contacts)) == 4 * HOUR && Learn(contacts, now).confidence.Low?
  {
    RoundsMean(Gaps(contacts), k);
    VarianceIs(Gaps(contacts), 4 * HOUR, MINUTE);
    MinuteJitterIsNeverTrusted(contacts, now);
  }

  /** For as long as it is observed, such a device deviates by exactly a minute, half a percent of its mean:
      a true root would rate it High from ten gaps on. It is rated Low. */
  lemma SteadyDeviceIsDoubted(k: nat, now: int)
    requires k >= 5
    ensures var gaps := Gaps(Steady(k));
            && |gaps| >= 10 && Mean(gaps) == 4 * HOUR
            && Variance(gaps) == MINUTE as real * MINUTE as real
            && MINUTE as real < 0.15 * Mean(gaps) as real
            && Learn(Steady(k), now).confidence.Low?
  {
    SteadyGaps(k);
    SteadyIsDoubted(Steady(k), k, now);
  }
}
