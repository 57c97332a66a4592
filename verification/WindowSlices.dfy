/** Windows cut into slices that double in length, latest first. */
module WindowSlices {
  import opened U64
  import opened EpochTime

  const HOUR: nat := 3_600_000_000_000
  const MILLISECOND: nat := 1_000_000

  /** Nanoseconds: `from` included, `to` not. */
  datatype Slice = Slice(from: u64, to: u64)

  function Power2(n: nat): (p: nat)
    ensures p > 0
  {
    if n == 0 then 1 else 2 * Power2(n - 1)
  }

  function SliceLength(i: nat): nat {
    Power2(i) * HOUR
  }

  /** What n slices of 1, 2, 4, ... hours cover. */
  ghost function Span(n: nat): nat {
    (Power2(n) - 1) * HOUR
  }

  /**
   * Slices run back from `end` to `start` without gap or overlap; the i-th is exactly 2^i hours,
   * except the last, which is at most that and not empty unless the window is.
   */
  ghost predicate Slices(out: seq<Slice>, start: int, end: int) {
    && |out| > 0
    && out[0].to == end && out[|out| - 1].from == start
    && (forall i :: 0 <= i < |out| - 1 ==> out[i].from == out[i + 1].to)
    && (forall i :: 0 <= i < |out| - 1 ==> out[i].to - out[i].from == SliceLength(i))
    && out[|out| - 1].to - out[|out| - 1].from <= SliceLength(|out| - 1)
    && (start < end ==> out[|out| - 1].from < out[|out| - 1].to)
  }

  /** Some number of whole slices reaches back to `start` without passing zero. */
  ghost predicate NoWrap(start: int, end: int) {
    exists n :: ReachesBack(start, end, n)
  }

  ghost predicate ReachesBack(start: int, end: int, n: nat) {
    end - start <= Span(n) <= end
  }

  lemma {:induction false} SpanGrows(a: nat, b: nat)
    requires a <= b
    ensures Power2(a) <= Power2(b) && Span(a) <= Span(b)
    decreases b
  {
    if a < b {
      SpanGrows(a, b - 1);
    }
  }

  lemma NextSpan(n: nat)
    ensures Span(n + 1) == Span(n) + SliceLength(n)
    ensures Span(n + 1) == 2 * Span(n) + HOUR
  {
  }

  lemma SpanOrder(a: nat, b: nat)
    requires Span(a) < Span(b)
    ensures a < b
  {
    if b <= a {
      SpanGrows(b, a);
    }
  }

  /** n slices mean that the first n - 1 of them fell short: the window is longer than 2^(n-1) - 1 hours. */
  lemma SlicesAreNeeded(out: seq<Slice>, start: int, end: int)
    requires Slices(out, start, end) && start < end
    ensures Span(|out| - 1) < end - start <= Span(|out|)
    ensures forall i :: 0 <= i < |out| ==> out[i].to == end - Span(i)
  {
    SliceEnds(out, start, end, |out| - 1);
    NextSpan(|out| - 1);
  }

  lemma {:induction false} SliceEnds(out: seq<Slice>, start: int, end: int, n: nat)
    requires Slices(out, start, end) && n < |out|
    ensures forall i :: 0 <= i <= n ==> out[i].to == end - Span(i)
  {
    if n == 0 {
      assert Span(0) == 0;
    } else {
      SliceEnds(out, start, end, n - 1);
      NextSpan(n - 1);
      assert out[n - 1].to - out[n - 1].from == SliceLength(n - 1);
    }
  }

  /** There is only one such list of slices for a window that is not empty. */
  lemma SlicesAreUnique(out: seq<Slice>, other: seq<Slice>, start: int, end: int)
    requires Slices(out, start, end) && Slices(other, start, end) && start < end
    ensures out == other
  {
    SlicesAreNeeded(out, start, end);
    SlicesAreNeeded(other, start, end);
    if |out| < |other| {
      SpanGrows(|out|, |other| - 1);
    } else if |other| < |out| {
      SpanGrows(|other|, |out| - 1);
    }
    forall i | 0 <= i < |out| ensures out[i] == other[i] {
      if i < |out| - 1 {
        assert out[i].from == out[i + 1].to && other[i].from == other[i + 1].to;
      }
    }
  }

  /** Enough for nothing to wrap: the window and one more hour lie in the later half of the time since the epoch. */
  lemma RecentWindowsDoNotWrap(start: int, end: int)
    requires 0 <= start <= end && end + HOUR <= 2 * start
    ensures NoWrap(start, end)
  {
    var n := LeastCover(end - start);
    if n > 0 {
      NextSpan(n - 1);
    }
    assert ReachesBack(start, end, n);
  }

  lemma {:induction false} LeastCoverUpTo(length: nat, k: nat) returns (n: nat)
    requires length <= Span(k)
    ensures length <= Span(n)
    ensures n > 0 ==> Span(n - 1) < length
    decreases k
  {
    if k > 0 && length <= Span(k - 1) {
      n := LeastCoverUpTo(length, k - 1);
    } else {
      n := k;
    }
  }

  lemma {:induction false} SpanExceeds(k: nat)
    ensures Span(k) >= k
  {
    if k > 0 {
      SpanExceeds(k - 1);
      NextSpan(k - 1);
    }
  }

  lemma LeastCover(length: nat) returns (n: nat)
    ensures length <= Span(n)
    ensures n > 0 ==> Span(n - 1) < length
  {
    SpanExceeds(length);
    n := LeastCoverUpTo(length, length);
  }

  /**
   * The condition is exact. The slice that would reach the start begins at `end - Span(n)`, computed
   * without a sign: when no number of whole slices fits above zero, that subtraction wraps round and
   * the slice begins after it ends.
   */
  lemma WrapsExactly(start: u64, end: u64) returns (n: nat)
    requires start < end < Power10(19)
    ensures Span(n) < end - start <= Span(n + 1)
    ensures var curEnd := end - Span(n);
            var curStart := Sub(curEnd, Of(SliceLength(n)));
            && (NoWrap(start, end) <==> Max(curStart, start) == start)
            && (!NoWrap(start, end) ==> curStart > curEnd)
  {
    var least := LeastCover(end - start);
    n := least - 1;
    NextSpan(n);
    LargestPowers();
    NoWrapBySpan(start, end, n);
    WrapsTo(SliceLength(n), 0, SliceLength(n));
    if Span(n + 1) <= end {
      TakenOff(end - Span(n), SliceLength(n));
    } else {
      TakenOffTooMuch(end - Span(n), SliceLength(n));
    }
  }

  lemma NoWrapBySpan(start: int, end: int, n: nat)
    requires Span(n) < end - start <= Span(n + 1)
    ensures NoWrap(start, end) <==> Span(n + 1) <= end
  {
    if Span(n + 1) <= end {
      assert ReachesBack(start, end, n + 1);
    }
    if m: nat :| ReachesBack(start, end, m) {
      SpanOrder(n, m);
      SpanGrows(n + 1, m);
    }
  }

  /** A boundary as the statement of a slice reads it: whole milliseconds, taken for an epoch. */
  function Reread(boundary: u64): u64 {
    NanoSeconds(boundary / MILLISECOND)
  }

  /** Boundaries of nineteen digits are read as the last whole millisecond. */
  lemma RereadIsFloor(boundary: u64)
    requires Power10(18) <= boundary < Power10(19)
    ensures Reread(boundary) == Floor(boundary, MILLISECOND) >= Power10(18)
  {
    LargestPowers();
    var floor := Floor(boundary, MILLISECOND);
    assert Power10(18) % MILLISECOND == 0;
    if floor < Power10(18) {
      GridGap(floor, Power10(18), MILLISECOND);
    }
    MillisecondsRoundTrip(floor);
    assert floor / MILLISECOND == boundary / MILLISECOND;
  }

  /** With the window given in milliseconds or a coarser unit every slice boundary is read as it is. */
  lemma BoundariesAreExact(out: seq<Slice>, start: u64, end: u64)
    requires 0 < start && Digits(start) <= 13 && 0 < end && Digits(end) <= 13
    requires NanoSeconds(start) < NanoSeconds(end)
    requires Slices(out, NanoSeconds(start), NanoSeconds(end))
    ensures forall i :: 0 <= i < |out| ==> Reread(out[i].from) == out[i].from && Reread(out[i].to) == out[i].to
  {
    WholeMilliseconds(start);
    WholeMilliseconds(end);
    forall i | 0 <= i < |out| ensures Reread(out[i].from) == out[i].from && Reread(out[i].to) == out[i].to {
      ExactEnd(out, NanoSeconds(start), NanoSeconds(end), i);
      if i + 1 < |out| {
        ExactEnd(out, NanoSeconds(start), NanoSeconds(end), i + 1);
      } else {
        MillisecondsRoundTrip(NanoSeconds(start));
      }
    }
  }

  lemma ExactEnd(out: seq<Slice>, start: u64, end: u64, i: nat)
    requires Power10(18) <= start < end < Power10(19) && end % MILLISECOND == 0
    requires Slices(out, start, end) && i < |out|
    ensures Reread(out[i].to) == out[i].to
  {
    EndInside(out, start, end, i);
    SpanInMilliseconds(end, i);
    MillisecondsRoundTrip(out[i].to);
  }

  lemma EndInside(out: seq<Slice>, start: int, end: int, i: nat)
    requires Slices(out, start, end) && start < end && i < |out|
    ensures start < out[i].to == end - Span(i) <= end
  {
    SlicesAreNeeded(out, start, end);
    SpanGrows(i, |out| - 1);
    assert Span(0) == 0;
    SpanGrows(0, i);
  }

  /** An epoch in milliseconds or a coarser unit becomes nineteen digits, a whole number of milliseconds. */
  lemma WholeMilliseconds(epoch: u64)
    requires 0 < epoch && Digits(epoch) <= 13
    ensures NanoSeconds(epoch) % MILLISECOND == 0
    ensures Power10(18) <= NanoSeconds(epoch) < Power10(19)
    ensures Digits(epoch) == 13 ==> NanoSeconds(epoch) / MILLISECOND == epoch
  {
    U64HasTwentyDigits(epoch);
    ScaledToNineteenDigits(epoch);
    var d := Digits(epoch);
    PowersMultiply(13 - d, 6);
    assert Power10(6) == MILLISECOND;
    Associative(epoch, Power10(13 - d), MILLISECOND);
    MultipleIsAligned(epoch * Power10(13 - d), MILLISECOND);
    if d == 13 {
      QuotientOfProduct(epoch, MILLISECOND);
    }
  }

  lemma Associative(a: int, b: int, c: int)
    ensures a * (b * c) == (a * b) * c
  {
  }

  lemma SpanInMilliseconds(end: int, n: nat)
    requires end % MILLISECOND == 0
    ensures (end - Span(n)) % MILLISECOND == 0
  {
    assert HOUR == 3_600_000 * MILLISECOND;
    assert end - Span(n) == MILLISECOND * (end / MILLISECOND - (Power2(n) - 1) * 3_600_000);
    MultipleIsAligned(end / MILLISECOND - (Power2(n) - 1) * 3_600_000, MILLISECOND);
  }

  lemma MillisecondsRoundTrip(ns: u64)
    requires Power10(18) <= ns < Power10(19) && ns % MILLISECOND == 0
    ensures NanoSeconds(ns / MILLISECOND) == ns
  {
    LargestPowers();
    assert Power10(6) == MILLISECOND && Power10(12) == 1_000_000_000_000 by {
      PowersMultiply(6, 6);
    }
    assert Power10(13) == 10 * Power10(12);
    var ms := ns / MILLISECOND;
    assert ns == ms * MILLISECOND;
    DigitsBetweenPowers(ms, 13);
    ScaledToNineteenDigits(ms);
  }
}
