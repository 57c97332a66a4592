/**
 * Step intervals: the recommended one, the smallest allowed one, and the pass over a request's
 * queries that fills in a missing step and raises one that is too small.
 */
module StepInterval {
  import opened Wrappers
  import opened U64
  import opened EpochTime

  const RECOMMENDED_POINTS: nat := 300
  const MAX_POINTS: nat := 1500
  const SECOND: nat := 1_000_000_000
  const HOUR: nat := 3600
  const DAY: nat := 86_400

  /** The length of a request's range in nanoseconds, as an unsigned difference. */
  function Range(start: u64, end: u64): u64 {
    Sub(NanoSeconds(end), NanoSeconds(start))
  }

  /** Whole seconds between two of `points` evenly spaced points. */
  function Spacing(range: u64, points: nat): (s: nat)
    requires points > 0
    ensures s * points * SECOND <= range < (s + 1) * points * SECOND
  {
    var s := range / points / SECOND;
    TwoQuotients(range, points, SECOND);
    s
  }

  lemma TwoQuotients(x: nat, a: nat, b: nat)
    requires a > 0 && b > 0
    ensures x / a / b >= 0
    ensures (x / a / b) * a * b <= x < (x / a / b + 1) * a * b
  {
    QuotientBound(x, a);
    QuotientBound(x / a, b);
    QuotientOfQuotient(x, x / a, x / a / b, a, b);
  }

  lemma QuotientOfQuotient(x: nat, q: nat, s: nat, a: nat, b: nat)
    requires a * q <= x < a * q + a && b * s <= q < b * s + b
    ensures s * a * b <= x < (s + 1) * a * b
  {
    ProductOrder(b * s, q, a);
    ProductOrder(q + 1, b * s + b, a);
    assert s * a * b == (b * s) * a && (s + 1) * a * b == (b * s + b) * a;
  }

  /** The nearest lower multiple of `unit`, but at least one unit. */
  function LowerMultiple(seconds: nat, unit: nat): (r: nat)
    requires unit > 0
    ensures r > 0 && Aligned(r, unit)
    ensures r == unit || r <= seconds
    ensures seconds < r + unit
  {
    if seconds < unit then MultipleIsAligned(1, unit); unit
    else Floor(seconds, unit)
  }

  /** `math.Round(x / unit) * unit` for x >= 0: halves are rounded up. */
  function NearestMultiple(x: nat, unit: nat): (r: nat)
    requires unit > 0
    ensures Aligned(r, unit)
    ensures 2 * r - unit <= 2 * x < 2 * r + unit
  {
    var k := (2 * x + unit) / (2 * unit);
    QuotientBound(2 * x + unit, 2 * unit);
    MultipleIsAligned(k, unit);
    assert 2 * unit * k == 2 * (k * unit);
    k * unit
  }

  /** Seconds. */
  function Recommended(range: u64): nat {
    LowerMultiple(Spacing(range, RECOMMENDED_POINTS), 5)
  }

  function MinAllowed(range: u64): nat {
    LowerMultiple(Spacing(range, MAX_POINTS), 5)
  }

  /** The recommended and the smallest step of a metric query are computed alike. */
  function MetricStep(range: u64): nat {
    var spacing := Spacing(range, RECOMMENDED_POINTS);
    var lower := LowerMultiple(spacing, 60);
    if spacing < 60 then lower
    else if DAY * SECOND <= range < 7 * DAY * SECOND then NearestMultiple(lower, 300)
    else if range >= 7 * DAY * SECOND then NearestMultiple(lower, 1800)
    else lower
  }

  function MinAllowedForMeter(range: u64): nat {
    LowerMultiple(Spacing(range, RECOMMENDED_POINTS), HOUR)
  }

  function RecommendedForMeter(range: u64): nat {
    var spacing := Spacing(range, RECOMMENDED_POINTS);
    var lower := LowerMultiple(spacing, HOUR);
    if spacing < HOUR then lower
    else if range >= 30 * DAY * SECOND then
      if lower < DAY then DAY else NearestMultiple(lower, DAY)
    else lower
  }

  /** A step off the recommendation for `points` points yields between `points` and twice as many. */
  lemma TwiceAsManyPointsAtMost(range: u64, points: nat)
    requires points > 0
    ensures var step := LowerMultiple(Spacing(range, points), 5);
            && range < 2 * points * step * SECOND
            && (step > 5 ==> range >= points * step * SECOND)
  {
    var spacing := Spacing(range, points);
    PointsFor(range, points, spacing, LowerMultiple(spacing, 5));
  }

  lemma PointsFor(range: nat, points: nat, spacing: nat, step: nat)
    requires spacing * points * SECOND <= range < (spacing + 1) * points * SECOND
    requires spacing + 1 <= 2 * step
    ensures range < 2 * points * step * SECOND
    ensures step <= spacing ==> range >= points * step * SECOND
  {
    ProductOrder(spacing + 1, 2 * step, points);
    assert 2 * step * points == 2 * points * step;
    if step <= spacing {
      ProductOrder(step, spacing, points);
      assert step * points == points * step;
    }
  }

  /** The recommendation is never below the smallest allowed step. */
  lemma RecommendedIsAllowed(range: u64)
    ensures Recommended(range) >= MinAllowed(range) >= 5
  {
    var r, m := Spacing(range, RECOMMENDED_POINTS), Spacing(range, MAX_POINTS);
    assert m * 1500 * SECOND < (r + 1) * 300 * SECOND;
    assert m <= r;
    if MinAllowed(range) > 5 {
      assert r >= 5;
      assert MinAllowed(range) == m - m % 5;
      if Recommended(range) < MinAllowed(range) {
        GridGap(Recommended(range), MinAllowed(range), 5);
        assert false;
      }
    }
  }

  /**
   * The smallest allowed step is meant to keep a range within the maximum number of points. It does
   * for short ranges and for whole multiples of 1500 five-second steps, and for no other.
   */
  lemma MaxPointsKeptExactly(range: u64)
    ensures range <= MAX_POINTS * MinAllowed(range) * SECOND
       <==> range < 7500 * SECOND || range % (7500 * SECOND) == 0
  {
    var m := Spacing(range, MAX_POINTS);
    assert m * 1500 * SECOND <= range < (m + 1) * 1500 * SECOND;
    if m >= 5 {
      var step := MinAllowed(range);
      assert step == m - m % 5;
      var k := step / 5;
      assert step == 5 * k;
      assert 1500 * step * SECOND == (7500 * SECOND) * k;
      assert 0 <= range - (7500 * SECOND) * k < 7500 * SECOND;
      RemainderOf(range, 7500 * SECOND, k);
    }
  }

  lemma RemainderOf(x: nat, d: nat, k: nat)
    requires d > 0 && 0 <= x - d * k < d
    ensures x % d == x - d * k
  {
    var gap := x / d - k;
    assert d * gap == d * (x / d) - d * k;
    assert x == d * (x / d) + x % d;
    NoMultipleBetween(gap, d);
  }

  lemma NoMultipleBetween(gap: int, d: int)
    requires -d < d * gap < d
    ensures gap == 0
  {
    if gap >= 1 {
      ProductOrder(1, gap, d);
    } else if gap <= -1 {
      ProductOrder(gap, -1, d);
    }
  }

  /** A metric step is a whole number of minutes, five minutes from a day on and thirty from a week on. */
  lemma MetricStepIsRound(range: u64)
    ensures MetricStep(range) > 0 && MetricStep(range) % 60 == 0
    ensures DAY * SECOND <= range ==> MetricStep(range) % 300 == 0
    ensures 7 * DAY * SECOND <= range ==> MetricStep(range) % 1800 == 0
    ensures range < 2 * RECOMMENDED_POINTS * MetricStep(range) * SECOND
  {
    var spacing := Spacing(range, RECOMMENDED_POINTS);
    assert spacing * 300 * SECOND <= range < (spacing + 1) * 300 * SECOND;
    if spacing >= 60 {
      var lower := LowerMultiple(spacing, 60);
      assert lower == spacing - spacing % 60;
      if DAY * SECOND <= range {
        assert spacing >= 288;
      }
      if 7 * DAY * SECOND <= range {
        assert spacing >= 2016;
        Refined(MetricStep(range), 1800, 300);
      }
      if DAY * SECOND <= range {
        Refined(MetricStep(range), 300, 60);
      }
    }
  }

  lemma Refined(x: nat, coarse: nat, fine: nat)
    requires fine > 0 && coarse > 0 && coarse % fine == 0 && x % coarse == 0
    ensures x % fine == 0
  {
    var k, j := x / coarse, coarse / fine;
    assert x == coarse * k && coarse == fine * j;
    assert x == (k * j) * fine;
    MultipleIsAligned(k * j, fine);
  }

  /**
   * Rounding a meter step to whole days can take it below the smallest allowed meter step: exactly
   * when, in a range of thirty days or more, the smallest step is past a whole number of days by
   * less than half a day.
   */
  lemma MeterRecommendationBelowMinimumExactly(range: u64)
    ensures RecommendedForMeter(range) < MinAllowedForMeter(range)
       <==> && range >= 30 * DAY * SECOND
            && MinAllowedForMeter(range) >= DAY
            && 0 < MinAllowedForMeter(range) % DAY < DAY / 2
  {
    var spacing := Spacing(range, RECOMMENDED_POINTS);
    var lower := MinAllowedForMeter(range);
    if spacing >= HOUR && range >= 30 * DAY * SECOND && lower >= DAY {
      var r := NearestMultiple(lower, DAY);
      var k := r / DAY;
      assert r == DAY * k;
      if r <= lower {
        RemainderOf(lower, DAY, k);
      } else {
        RemainderOf(lower, DAY, k - 1);
      }
    }
  }

  // ---- the pass over the queries ----

  datatype Kind = LogsOrTraces | Metric | Meter | TraceOperator | PromQL | ClickHouse

  /** `step` is a duration in nanoseconds. */
  datatype Spec = Spec(kind: Kind, step: i64)

  /** `time.Second * time.Duration(seconds)` does not overflow for any step computed here. */
  lemma StepsFit(range: u64)
    ensures Recommended(range) * SECOND < 0x8000_0000_0000_0000
    ensures MinAllowed(range) * SECOND < 0x8000_0000_0000_0000
    ensures MetricStep(range) * SECOND < 0x8000_0000_0000_0000
    ensures RecommendedForMeter(range) * SECOND < 0x8000_0000_0000_0000
    ensures MinAllowedForMeter(range) * SECOND < 0x8000_0000_0000_0000
  {
    var r, m := Spacing(range, RECOMMENDED_POINTS), Spacing(range, MAX_POINTS);
    assert r * 300 * SECOND <= range;
    assert m * 1500 * SECOND <= range;
    assert r <= 100_000_000 && m <= 100_000_000;
  }

  /** The step given to a query that has none, in seconds; ClickHouse queries have no step. */
  function Default(kind: Kind, range: u64): Option<nat> {
    match kind
    case LogsOrTraces | TraceOperator => Some(Recommended(range))
    case Metric | PromQL => Some(MetricStep(range))
    case Meter => Some(RecommendedForMeter(range))
    case ClickHouse => None
  }

  /** The smallest step a query may have, in seconds; Prometheus queries have no smallest step. */
  function Smallest(kind: Kind, range: u64): Option<nat> {
    match kind
    case LogsOrTraces | TraceOperator => Some(MinAllowed(range))
    case Metric => Some(MetricStep(range))
    case Meter => Some(MinAllowedForMeter(range))
    case PromQL | ClickHouse => None
  }

  /** Filled in when missing. */
  function Filled(spec: Spec, range: u64): Spec {
    StepsFit(range);
    var default := Default(spec.kind, range);
    if spec.step == 0 && default.Some? then spec.(step := default.value * SECOND) else spec
  }

  /** Filled in when missing, then raised to the smallest step. */
  function Adjusted(spec: Spec, range: u64): Spec {
    StepsFit(range);
    var filled := Filled(spec, range);
    var smallest := Smallest(spec.kind, range);
    if smallest.Some? && filled.step < smallest.value * SECOND then filled.(step := smallest.value * SECOND) else filled
  }

  /** The user is told when a step is raised, except for meter queries. */
  predicate Warned(spec: Spec, range: u64) {
    var smallest := Smallest(spec.kind, range);
    spec.kind != Meter && smallest.Some? && Filled(spec, range).step < smallest.value * SECOND
  }

  method AdjustStep(spec: Spec, range: u64) returns (adjusted: Spec, warned: bool)
    ensures adjusted == Adjusted(spec, range)
    ensures warned == Warned(spec, range)
  {
    StepsFit(range);
    adjusted, warned := spec, false;
    var default, smallest := Default(spec.kind, range), Smallest(spec.kind, range);
    if default.Some? && adjusted.step == 0 {
      adjusted := adjusted.(step := default.value * SECOND);
    }
    if smallest.Some? && adjusted.step < smallest.value * SECOND {
      warned := spec.kind != Meter;
      adjusted := adjusted.(step := smallest.value * SECOND);
    }
  }

  method AdjustSteps(queries: array<Spec>, start: u64, end: u64) returns (warnings: seq<nat>)
    modifies queries
    ensures forall i :: 0 <= i < queries.Length ==> queries[i] == Adjusted(old(queries[i]), Range(start, end))
    ensures forall i :: i in warnings <==> 0 <= i < queries.Length && Warned(old(queries[i]), Range(start, end))
    ensures forall i, j :: 0 <= i < j < |warnings| ==> warnings[i] < warnings[j]
  {
    var startNS := ToNanoSecs(start);
    var endNS := ToNanoSecs(end);
    var range := Sub(endNS, startNS);
    warnings := [];
    for i := 0 to queries.Length
      invariant forall k :: 0 <= k < i ==> queries[k] == Adjusted(old(queries[k]), range)
      invariant forall k :: i <= k < queries.Length ==> queries[k] == old(queries[k])
      invariant forall k :: k in warnings <==> 0 <= k < i && Warned(old(queries[k]), range)
      invariant forall j, k :: 0 <= j < k < |warnings| ==> warnings[j] < warnings[k]
    {
      assert forall k :: 0 <= k < |warnings| ==> warnings[k] in warnings;
      var adjusted, warned := AdjustStep(queries[i], range);
      queries[i] := adjusted;
      if warned {
        warnings := warnings + [i];
      }
    }
  }

  /**
   * After the pass every query with a smallest step is at or above it; a given step that was allowed
   * is kept; a missing step becomes the default, untouched and without a warning, for every kind but
   * meter; a warning means the user gave a step that was too small; and a second pass changes nothing.
   */
  lemma AdjustedStepIsAllowed(spec: Spec, range: u64)
    ensures Smallest(spec.kind, range).Some? ==>
            Adjusted(spec, range).step >= Smallest(spec.kind, range).value * SECOND > 0
    ensures spec.step != 0 && (Smallest(spec.kind, range).Some? ==>
            spec.step >= Smallest(spec.kind, range).value * SECOND)
            ==> Adjusted(spec, range) == spec
    ensures spec.step == 0 && spec.kind != Meter && Default(spec.kind, range).Some?
            ==> Adjusted(spec, range).step == Default(spec.kind, range).value * SECOND && !Warned(spec, range)
    ensures Warned(spec, range) ==> spec.step != 0 && spec.step < Adjusted(spec, range).step
    ensures Adjusted(Adjusted(spec, range), range) == Adjusted(spec, range)
  {
    StepsFit(range);
    RecommendedIsAllowed(range);
    MetricStepIsRound(range);
  }

  lemma SmallDifference(a: u64, b: u64)
    requires b <= a
    ensures Sub(a, b) == a - b
  {
  }

  /** For a start and an end in one unit the unsigned difference is the length of the range. */
  lemma RangeIsTheLength(start: u64, end: u64)
    requires start <= end && Digits(start) == Digits(end) <= 19
    ensures Range(start, end) == (end - start) * Power10(19 - Digits(start))
  {
    OrderKeptInOneUnit(start, end);
    SmallDifference(NanoSeconds(end), NanoSeconds(start));
  }
}
