/** The loop that cuts a window, in 64-bit arithmetic: what it emits, and when it ends. */
module SliceLoop {
  import opened U64
  import opened EpochTime
  import opened WindowSlices

  /** The loop's variables. */
  datatype Loop = Loop(curEnd: u64, bucket: u64)

  /** Where the slice of a round begins: not before the window does. */
  function SliceStart(start: u64, l: Loop): u64 {
    Max(Sub(l.curEnd, l.bucket), start)
  }

  /** The variables after k rounds without a stop. */
  function LoopAt(start: u64, end: u64, k: nat): Loop {
    if k == 0 then Loop(end, HOUR)
    else
      var l := LoopAt(start, end, k - 1);
      Loop(SliceStart(start, l), Mul(l.bucket, 2))
  }

  predicate StopsAt(start: u64, end: u64, k: nat) {
    SliceStart(start, LoopAt(start, end, k)) == start
  }

  ghost predicate LoopEnds(start: u64, end: u64) {
    exists k :: StopsAt(start, end, k)
  }

  function LoopSlice(start: u64, end: u64, k: nat): Slice {
    Slice(SliceStart(start, LoopAt(start, end, k)), LoopAt(start, end, k).curEnd)
  }

  /** The slices of all rounds up to the first that stops. */
  ghost predicate Emits(out: seq<Slice>, start: u64, end: u64) {
    && |out| > 0 && StopsAt(start, end, |out| - 1)
    && (forall i :: 0 <= i < |out| - 1 ==> !StopsAt(start, end, i))
    && (forall i :: 0 <= i < |out| ==> out[i] == LoopSlice(start, end, i))
  }

  /** A window of at most an hour is its own slice. */
  ghost predicate Cuts(out: seq<Slice>, start: u64, end: u64) {
    if Sub(end, start) <= HOUR then out == [Slice(start, end)] else Emits(out, start, end)
  }

  ghost predicate Cuttable(start: u64, end: u64) {
    Sub(end, start) <= HOUR || LoopEnds(start, end)
  }

  /** Ends whenever the loop does. */
  method MakeBuckets(start: u64, end: u64) returns (out: seq<Slice>)
    requires Cuttable(NanoSeconds(start), NanoSeconds(end))
    ensures Cuts(out, NanoSeconds(start), NanoSeconds(end))
  {
    var startNS := ToNanoSecs(start);
    var endNS := ToNanoSecs(end);
    if Sub(endNS, startNS) <= HOUR {
      return [Slice(startNS, endNS)];
    }
    out := GrowingSlices(startNS, endNS);
  }

  /** The loop of `MakeBuckets`. */
  method GrowingSlices(startNS: u64, endNS: u64) returns (out: seq<Slice>)
    requires LoopEnds(startNS, endNS)
    ensures Emits(out, startNS, endNS)
  {
    ghost var last: nat :| StopsAt(startNS, endNS, last);
    out := [];
    var bucket: u64 := HOUR;
    var curEnd: u64 := endNS;
    while true
      invariant Loop(curEnd, bucket) == LoopAt(startNS, endNS, |out|)
      invariant forall i :: 0 <= i < |out| ==> !StopsAt(startNS, endNS, i) && out[i] == LoopSlice(startNS, endNS, i)
      decreases last - |out|
    {
      var curStart := Sub(curEnd, bucket);
      if curStart < startNS {
        curStart := startNS;
      }
      out := out + [Slice(curStart, curEnd)];
      if curStart == startNS {
        break;
      }
      curEnd := curStart;
      bucket := Mul(bucket, 2);
    }
  }

  // ---- Without wrap ----

  /** While the start is not reached the next whole slice still lies above zero. */
  lemma BucketFits(start: u64, end: u64, n: nat)
    requires NoWrap(start, end) && start < end - Span(n)
    ensures SliceLength(n) <= end - Span(n)
    ensures Span(n + 1) == Span(n) + SliceLength(n)
  {
    var last: nat :| ReachesBack(start, end, last);
    SpanOrder(n, last);
    SpanGrows(n + 1, last);
    NextSpan(n);
  }

  /** As long as whole slices do not reach the start, the loop has taken off exactly those. */
  lemma {:induction false} LoopTakesSpans(start: u64, end: u64, k: nat)
    requires start < end - Span(k)
    ensures LoopAt(start, end, k) == Loop(end - Span(k), Of(SliceLength(k)))
  {
    if k == 0 {
      assert Span(0) == 0 && SliceLength(0) == HOUR;
    } else {
      NextSpan(k - 1);
      LoopTakesSpans(start, end, k - 1);
      TakenOff(end - Span(k - 1), SliceLength(k - 1));
      WrappedDouble(SliceLength(k - 1));
    }
  }

  lemma StopsWhenReached(start: u64, end: u64, k: nat)
    requires NoWrap(start, end) && start < end - Span(k)
    ensures LoopSlice(start, end, k) == Slice(Max(end - Span(k + 1), start), end - Span(k))
    ensures StopsAt(start, end, k) <==> end - Span(k + 1) <= start
  {
    LoopTakesSpans(start, end, k);
    BucketFits(start, end, k);
    TakenOff(end - Span(k), SliceLength(k));
  }

  lemma CuttableWithoutWrap(start: u64, end: u64)
    requires start <= end && (end - start <= HOUR || NoWrap(start, end))
    ensures Cuttable(start, end)
  {
    TakenOff(end, start);
    if end - start > HOUR {
      var n := LeastCover(end - start);
      StopsWhenReached(start, end, n - 1);
      assert StopsAt(start, end, n - 1);
    }
  }

  /** Where nothing wraps the loop cuts the window as intended. */
  lemma CutsIntoSlices(out: seq<Slice>, start: u64, end: u64)
    requires Cuts(out, start, end) && start <= end && (end - start <= HOUR || NoWrap(start, end))
    ensures Slices(out, start, end)
  {
    TakenOff(end, start);
    if end - start <= HOUR {
      assert SliceLength(0) == HOUR;
    } else {
      forall i | 0 <= i < |out| ensures Planned(out, start, end, i) {
        EmittedAsPlanned(out, start, end, i);
      }
      PlannedAreSlices(out, start, end);
    }
  }

  /** The i-th slice as it should be, and whether there is a next one. */
  ghost predicate Planned(out: seq<Slice>, start: int, end: int, i: nat)
    requires i < |out|
  {
    && start < out[i].to == end - Span(i)
    && out[i].from == Max(end - Span(i + 1), start)
    && (i < |out| - 1 <==> start < end - Span(i + 1))
  }

  lemma {:induction false} EmittedAsPlanned(out: seq<Slice>, start: u64, end: u64, i: nat)
    requires Emits(out, start, end) && start < end && NoWrap(start, end) && i < |out|
    ensures Planned(out, start, end, i)
  {
    if i == 0 {
      assert Span(0) == 0;
    } else {
      EmittedAsPlanned(out, start, end, i - 1);
    }
    StopsWhenReached(start, end, i);
  }

  lemma PlannedAreSlices(out: seq<Slice>, start: u64, end: u64)
    requires |out| > 0 && forall i :: 0 <= i < |out| ==> Planned(out, start, end, i)
    ensures Slices(out, start, end)
  {
    var n := |out| - 1;
    assert Planned(out, start, end, 0) && Span(0) == 0;
    assert Planned(out, start, end, n);
    NextSpan(n);
    forall i | 0 <= i < n ensures out[i].from == out[i + 1].to && out[i].to - out[i].from == SliceLength(i) {
      assert Planned(out, start, end, i) && Planned(out, start, end, i + 1);
      NextSpan(i);
    }
  }

  // ---- With wrap ----

  /** Before the round that would pass the epoch the loop does not stop, and the slice of that round begins after it
      ends. */
  lemma WrappedSlice(out: seq<Slice>, start: u64, end: u64) returns (n: nat)
    requires start < end < Power10(19) && !NoWrap(start, end) && Emits(out, start, end)
    ensures n < |out| && out[n].from > out[n].to
  {
    n := WrapsExactly(start, end);
    if |out| <= n {
      SpanGrows(|out|, n);
      GoesOn(start, end, |out| - 1);
    }
    LoopTakesSpans(start, end, n);
    assert out[n] == LoopSlice(start, end, n);
  }

  lemma GoesOn(start: u64, end: u64, k: nat)
    requires start < end - Span(k + 1)
    ensures !StopsAt(start, end, k)
  {
    LoopTakesSpans(start, end, k + 1);
  }

  /** For any window that the loop cuts: it is cut as intended exactly when it is at most an hour long or nothing wraps,
      and otherwise some slice begins after it ends. */
  lemma SlicesExactlyWithoutWrap(out: seq<Slice>, start: u64, end: u64)
    requires start < end < Power10(19) && Cuts(out, start, end)
    ensures Slices(out, start, end) <==> end - start <= HOUR || NoWrap(start, end)
    ensures !Slices(out, start, end) ==> exists i :: 0 <= i < |out| && out[i].from > out[i].to
  {
    TakenOff(end, start);
    if end - start <= HOUR || NoWrap(start, end) {
      CutsIntoSlices(out, start, end);
    } else {
      var n := WrappedSlice(out, start, end);
      if Slices(out, start, end) {
        NoSliceIsReversed(out, start, end, n);
      }
    }
  }

  lemma NoSliceIsReversed(out: seq<Slice>, start: int, end: int, i: nat)
    requires Slices(out, start, end) && i < |out|
    ensures start < end ==> out[i].from <= out[i].to
  {
  }

  // ---- When the loop ends ----

  /** The rounds after which the bucket is zero. */
  const ROUNDS: nat := 51

  lemma {:induction false} BucketAt(start: u64, end: u64, k: nat)
    ensures LoopAt(start, end, k).bucket == Of(SliceLength(k))
  {
    if k == 0 {
      assert SliceLength(0) == HOUR;
    } else {
      BucketAt(start, end, k - 1);
      WrappedDouble(SliceLength(k - 1));
    }
  }

  lemma {:induction false} PowersOfTwoMultiply(a: nat, b: nat)
    ensures Power2(a + b) == Power2(a) * Power2(b)
  {
    if a == 0 {
    } else {
      PowersOfTwoMultiply(a - 1, b);
      assert 2 * (Power2(a - 1) * Power2(b)) == (2 * Power2(a - 1)) * Power2(b);
    }
  }

  lemma FiftyFirstPower()
    ensures Power2(ROUNDS) == 2_251_799_813_685_248
  {
    assert Power2(3) == 8 by {
      assert Power2(2) == 2 * Power2(1) && Power2(1) == 2 * Power2(0);
    }
    assert Power2(6) == 64 by { PowersOfTwoMultiply(3, 3); }
    assert Power2(12) == 4_096 by { PowersOfTwoMultiply(6, 6); }
    assert Power2(24) == 16_777_216 by { PowersOfTwoMultiply(12, 12); }
    assert Power2(48) == 281_474_976_710_656 by { PowersOfTwoMultiply(24, 24); }
    PowersOfTwoMultiply(48, 3);
  }

  /** An hour is an odd multiple of 2^13 nanoseconds, so its 51st double is a multiple of 2^64. */
  lemma BucketRunsOut()
    ensures Of(SliceLength(ROUNDS)) == 0
  {
    FiftyFirstPower();
    WrapsTo(SliceLength(ROUNDS), 439_453_125, 0);
  }

  lemma NothingTakenOff(start: u64, l: Loop)
    requires l.bucket == 0 && l.curEnd >= start
    ensures SliceStart(start, l) == l.curEnd && Mul(l.bucket, 2) == 0
  {
  }

  /** From then on the variables stay as they are. */
  lemma {:induction false} LoopIsStuck(start: u64, end: u64, k: nat)
    requires k >= ROUNDS
    ensures LoopAt(start, end, k) == Loop(SliceStart(start, LoopAt(start, end, ROUNDS - 1)), 0)
  {
    if k == ROUNDS {
      BucketAt(start, end, ROUNDS);
      BucketRunsOut();
      assert LoopAt(start, end, k).curEnd == SliceStart(start, LoopAt(start, end, k - 1));
    } else {
      LoopIsStuck(start, end, k - 1);
      NothingTakenOff(start, LoopAt(start, end, k - 1));
    }
  }

  /** Whatever the window, a loop that does not end within 51 rounds never does. */
  lemma EndsWithinRoundsOrNever(start: u64, end: u64)
    ensures LoopEnds(start, end) <==> exists k: nat :: k < ROUNDS && StopsAt(start, end, k)
  {
    if k: nat :| StopsAt(start, end, k) && k >= ROUNDS {
      LoopIsStuck(start, end, k);
      NothingTakenOff(start, LoopAt(start, end, k));
      assert StopsAt(start, end, ROUNDS - 1);
    }
  }

  // ---- A start of zero ----

  /** From zero the start is never clamped: the loop takes off spans modulo 2^64. */
  lemma {:induction false} ZeroStartLoop(end: u64, k: nat)
    ensures LoopAt(0, end, k) == Loop(Of(end - Span(k)), Of(SliceLength(k)))
  {
    if k == 0 {
      assert Span(0) == 0 && SliceLength(0) == HOUR;
    } else {
      ZeroStartLoop(end, k - 1);
      NextSpan(k - 1);
      WrappedDifference(end - Span(k - 1), SliceLength(k - 1));
      WrappedDouble(SliceLength(k - 1));
    }
  }

  lemma ZeroStartStops(end: u64, k: nat)
    ensures StopsAt(0, end, k) <==> Of(Span(k + 1)) == end
  {
    ZeroStartLoop(end, k);
    NextSpan(k);
    WrappedDifference(end - Span(k), SliceLength(k));
    WrappedZero(end, Span(k + 1));
  }

  /** From zero the loop ends exactly when one of the first 51 spans is the end modulo 2^64. */
  lemma ZeroStartEndsExactly(end: u64)
    ensures LoopEnds(0, end) <==> exists k: nat :: 0 < k <= ROUNDS && Of(Span(k)) == end
  {
    EndsWithinRoundsOrNever(0, end);
    if LoopEnds(0, end) {
      var k: nat :| k < ROUNDS && StopsAt(0, end, k);
      ZeroStartStops(end, k);
      assert 0 < k + 1 <= ROUNDS && Of(Span(k + 1)) == end;
    }
    if k: nat :| 0 < k <= ROUNDS && Of(Span(k)) == end {
      ZeroStartStops(end, k - 1);
      assert StopsAt(0, end, k - 1);
    }
  }

  /** Every span is an odd multiple of 2^13. */
  lemma {:induction false} SpansAreOdd(k: nat)
    requires k > 0
    ensures Span(k) % 16_384 == 8_192
  {
    NextSpan(k - 1);
    if k == 1 {
      assert Span(0) == 0;
    } else {
      SpansAreOdd(k - 1);
    }
  }

  lemma ZeroStartMissesEvenEnds(end: u64)
    requires end > HOUR && end % 16_384 == 0
    ensures !Cuttable(0, end)
  {
    ZeroStartEndsExactly(end);
    forall k: nat | k > 0 ensures Of(Span(k)) != end {
      SpansAreOdd(k);
      KeepsRemainder(Span(k));
    }
  }

  /** A window from zero to any time in milliseconds that is a multiple of 256 keeps the loop going forever. */
  lemma ZeroStartNeverEnds(end: u64)
    requires Digits(end) == 13 && end % 256 == 0
    ensures !Cuttable(NanoSeconds(0), NanoSeconds(end))
  {
    WholeMilliseconds(end);
    LargestPowers();
    ScaledToNineteenDigits(0);
    MultipleOfOddSpans(end);
    assert NanoSeconds(end) == end * MILLISECOND;
    ZeroStartMissesEvenEnds(NanoSeconds(end));
  }

  lemma MultipleOfOddSpans(ms: nat)
    requires ms % 256 == 0
    ensures (ms * MILLISECOND) % 16_384 == 0
  {
    var k := ms / 256;
    assert ms == 256 * k;
    assert ms * MILLISECOND == 16_384 * (15_625 * k);
    SameRemainder(0, 15_625 * k);
  }

  lemma SameRemainder(x: int, k: int)
    ensures (x + 16_384 * k) % 16_384 == x % 16_384
  {
  }

  lemma KeepsRemainder(x: nat)
    ensures Of(x) % 16_384 == x % 16_384
  {
    var q := Unwrapped(x);
    assert x == Of(x) + 16_384 * (1_125_899_906_842_624 * q);
    SameRemainder(Of(x), 1_125_899_906_842_624 * q);
  }
}
