/** Which parts of a query window the cached buckets leave uncovered. */
module MissingRanges {
  import opened U64
  import opened Sorting
  import opened TimeSeries
  import opened QueryWindow

  datatype Bucket = Bucket(start: u64, end: u64, data: Data)

  function StartOf(b: Bucket): int {
    b.start
  }

  ghost predicate InWindow(x: int, w: Window) {
    w.start <= x < w.end
  }

  ghost predicate InSome(x: int, ranges: seq<Window>) {
    exists r :: r in ranges && InWindow(x, r)
  }

  ghost predicate InBucket(x: int, buckets: seq<Bucket>) {
    exists b :: b in buckets && b.start <= x < b.end
  }

  ghost predicate OnGrid(b: Bucket, step: int)
    requires step > 0
  {
    b.start < b.end && Aligned(b.start, step) && Aligned(b.end, step)
  }

  ghost predicate AllOnGrid(buckets: seq<Bucket>, step: int)
    requires step > 0
  {
    forall b :: b in buckets ==> OnGrid(b, step)
  }

  ghost predicate NonEmpty(buckets: seq<Bucket>) {
    forall b :: b in buckets ==> b.start < b.end
  }

  /** Non-empty ranges inside the window, one after the other. */
  ghost predicate Consecutive(ranges: seq<Window>, w: Window) {
    && (forall r :: r in ranges ==> w.start <= r.start < r.end <= w.end)
    && (forall i, j :: 0 <= i < j < |ranges| ==> ranges[i].end <= ranges[j].start)
  }

  /** Where the leading partial interval stops; the window start itself when it is aligned. */
  function LeadEnd(w: Window, step: int): int
    requires step > 0
  {
    if w.start % step != 0 then Floor(w.start, step) + step else w.start
  }

  /** Every boundary of a missing range is a grid point, except the ends of the window. */
  ghost predicate OnGridOrEnds(ranges: seq<Window>, w: Window, step: int)
    requires step > 0
  {
    forall r :: r in ranges ==>
      (r.start == w.start || Aligned(r.start, step)) && (r.end == w.end || Aligned(r.end, step))
  }

  /** The leading partial interval, if any, is a range of its own. */
  ghost predicate LeadsWith(missing: seq<Window>, w: Window, step: int)
    requires step > 0
  {
    w.start % step != 0 ==> |missing| > 0 && missing[0].start == w.start && missing[0].end == LeadEnd(w, step)
  }

  /** What the step-aligned search promises: the leading partial interval is always re-queried,
      and after it exactly the instants that no bucket covers. */
  ghost predicate MissesExactly(buckets: seq<Bucket>, w: Window, step: int, missing: seq<Window>)
    requires step > 0
  {
    && Consecutive(missing, w)
    && OnGridOrEnds(missing, w, step)
    && LeadsWith(missing, w, step)
    && (forall x :: InWindow(x, w) ==>
          (InSome(x, missing) <==> x < LeadEnd(w, step) || !InBucket(x, buckets)))
  }

  lemma ExtendRanges(ranges: seq<Window>, w: Window, r: Window)
    requires Consecutive(ranges, w) && w.start <= r.start < r.end <= w.end
    requires forall q :: q in ranges ==> q.end <= r.start
    ensures Consecutive(ranges + [r], w)
    ensures forall x :: InSome(x, ranges + [r]) <==> InSome(x, ranges) || InWindow(x, r)
  {
    var all := ranges + [r];
    assert r in all by { assert all[|ranges|] == r; }
    forall x ensures InSome(x, all) <==> InSome(x, ranges) || InWindow(x, r) {
      if InSome(x, ranges) {
        var q :| q in ranges && InWindow(x, q);
        assert q in all;
      }
    }
  }

  lemma LeadFits(w: Window, step: u64)
    requires step > 0 && w.start + step <= w.end
    ensures w.start <= LeadEnd(w, step) <= w.end
    ensures Aligned(LeadEnd(w, step), step)
    ensures Add(Floor(w.start, step), step) == Floor(w.start, step) + step
  {
    NextIsAligned(Floor(w.start, step), step);
  }

  /** Everything before `current` is decided. */
  ghost predicate DecidedUpTo(buckets: seq<Bucket>, w: Window, step: int, missing: seq<Window>, current: int)
    requires step > 0
  {
    && Consecutive(missing, w)
    && OnGridOrEnds(missing, w, step)
    && LeadsWith(missing, w, step)
    && LeadEnd(w, step) <= current <= w.end
    && (Aligned(current, step) || current == w.end)
    && (forall r :: r in missing ==> r.end <= current)
    && (forall x :: w.start <= x < current ==>
          (InSome(x, missing) <==> x < LeadEnd(w, step) || !InBucket(x, buckets)))
  }

  /** A gap without buckets becomes a missing range. */
  lemma DecideGap(buckets: seq<Bucket>, w: Window, step: u64, missing: seq<Window>, current: u64, to: u64)
    requires step > 0 && DecidedUpTo(buckets, w, step, missing, current)
    requires current < to <= w.end && (Aligned(to, step) || to == w.end)
    requires forall x :: current <= x < to ==> !InBucket(x, buckets)
    ensures DecidedUpTo(buckets, w, step, missing + [Window(current, to)], to)
  {
    ExtendRanges(missing, w, Window(current, to));
  }

  /** A covered stretch is decided without a missing range. */
  lemma DecideCovered(buckets: seq<Bucket>, w: Window, step: u64, missing: seq<Window>, current: u64, to: u64)
    requires step > 0 && DecidedUpTo(buckets, w, step, missing, current)
    requires current <= to <= w.end && (Aligned(to, step) || to == w.end)
    requires forall x :: current <= x < to ==> InBucket(x, buckets)
    ensures DecidedUpTo(buckets, w, step, missing, to)
  {
    forall x | current <= x < to ensures !InSome(x, missing) {
    }
  }

  /** Re-query the leading partial interval, if there is one. */
  method LeadingRange(w: Window, step: u64, ghost buckets: seq<Bucket>)
    returns (missing: seq<Window>, current: u64)
    requires step > 0
    ensures w.start + step <= w.end ==>
              DecidedUpTo(buckets, w, step, missing, current) && current == LeadEnd(w, step)
  {
    if w.start + step <= w.end {
      LeadFits(w, step);
    }
    missing := [];
    current := w.start;
    if w.start % step != 0 {
      var nextAggStart := Add(Floor(w.start, step), step);
      missing := [Window(w.start, Min(nextAggStart, w.end))];
      current := nextAggStart;
      assert forall x :: InWindow(x, missing[0]) ==> InSome(x, missing);
    }
  }

  /** The step-aligned search. `flux` is the flux boundary, which only the fallback looks at. */
  method FindMissingRangesWithStep(buckets: seq<Bucket>, w: Window, step: u64, flux: u64)
    returns (missing: seq<Window>)
    ensures step > 0 && w.start + step <= w.end && AllOnGrid(buckets, step) ==> MissesExactly(buckets, w, step, missing)
    ensures (step == 0 || w.end < w.start + step < MODULUS) && NonEmpty(buckets) ==> ComplementOf(buckets, w, missing)
  {
    if step == 0 || Add(w.start, step) > w.end {
      missing := FindMissingRangesBasic(buckets, w, flux);
      return;
    }
    if |buckets| == 0 {
      var current;
      missing, current := LeadingRange(w, step, buckets);
      if current < w.end {
        if w.start + step <= w.end {
          DecideGap(buckets, w, step, missing, current, w.end);
        }
        missing := missing + [Window(current, w.end)];
      }
      return;
    }
    var sorted := SortIfNeeded(buckets, StartOf);
    SameMembers(sorted, buckets);
    missing := SearchSorted(sorted, w, step);
    assert forall x :: InBucket(x, sorted) <==> InBucket(x, buckets);
  }

  /** The sweep over the sorted buckets. */
  method SearchSorted(buckets: seq<Bucket>, w: Window, step: u64) returns (missing: seq<Window>)
    requires step > 0 && SortedBy(buckets, StartOf)
    ensures w.start + step <= w.end && AllOnGrid(buckets, step) ==> MissesExactly(buckets, w, step, missing)
  {
    var current: u64;
    missing, current := LeadingRange(w, step, buckets);
    ghost var ok := w.start + step <= w.end && AllOnGrid(buckets, step);
    var i := 0;
    while i < |buckets|
      invariant 0 <= i <= |buckets|
      invariant ok ==> Sweeping(buckets, i, w, step, missing, current)
    {
      var bucket := buckets[i];
      if bucket.end <= current {
        i := i + 1;
        continue;
      }
      if bucket.start >= w.end {
        break;
      }
      missing, current := PassBucket(buckets, i, w, step, missing, current);
      i := i + 1;
    }
    if ok {
      NothingAfter(buckets, i, current, w.end);
    }
    if current < w.end {
      if ok {
        DecideGap(buckets, w, step, missing, current, w.end);
      }
      missing := missing + [Window(current, w.end)];
    }
  }

  /** The first i buckets end at or before `current`, unless the whole window is decided. */
  ghost predicate PassedBy(buckets: seq<Bucket>, i: int, current: int, end: int) {
    forall j :: 0 <= j < i && j < |buckets| ==> buckets[j].end <= current || end <= current
  }

  /** No bucket lies between `current` and the next bucket still to come. */
  lemma NothingBefore(buckets: seq<Bucket>, i: int, current: int, end: int)
    requires 0 <= i < |buckets| && SortedBy(buckets, StartOf) && PassedBy(buckets, i, current, end)
    ensures forall x :: current <= x < end && x < buckets[i].start ==> !InBucket(x, buckets)
  {
    forall x | current <= x < end && x < buckets[i].start ensures !InBucket(x, buckets) {
      forall b | b in buckets ensures !(b.start <= x < b.end) {
        var j :| 0 <= j < |buckets| && buckets[j] == b;
        if j > i {
          assert StartOf(buckets[i]) <= StartOf(buckets[j]);
        }
      }
    }
  }

  lemma NothingAfter(buckets: seq<Bucket>, i: int, current: int, end: int)
    requires 0 <= i <= |buckets| && SortedBy(buckets, StartOf) && PassedBy(buckets, i, current, end)
    requires i < |buckets| ==> buckets[i].start >= end
    ensures forall x :: current <= x < end ==> !InBucket(x, buckets)
  {
    if i < |buckets| {
      NothingBefore(buckets, i, current, end);
    } else {
      forall x | current <= x < end ensures !InBucket(x, buckets) {
        forall b | b in buckets ensures !(b.start <= x < b.end) {
          var j :| 0 <= j < |buckets| && buckets[j] == b;
        }
      }
    }
  }

  /** One bucket of the sweep: close the gap before it, then move past it. */
  method PassBucket(buckets: seq<Bucket>, i: nat, w: Window, step: u64, missing: seq<Window>, current: u64)
    returns (missing': seq<Window>, current': u64)
    requires step > 0 && i < |buckets| && SortedBy(buckets, StartOf)
    requires buckets[i].end > current && buckets[i].start < w.end
    ensures Sweeping(buckets, i, w, step, missing, current) ==> Sweeping(buckets, i + 1, w, step, missing', current')
  {
    var bucket := buckets[i];
    missing' := missing;
    var alignedBucketStart := bucket.start;
    if bucket.start % step != 0 {
      alignedBucketStart := Add(Floor(bucket.start, step), step);
    }
    if current < alignedBucketStart && current < w.end {
      missing' := missing' + [Window(current, Min(alignedBucketStart, w.end))];
    }
    var bucketEnd := Min(bucket.end, w.end);
    if bucketEnd % step != 0 && bucketEnd < w.end {
      bucketEnd := Floor(bucketEnd, step);
    }
    current' := Max(current, bucketEnd);
    if Sweeping(buckets, i, w, step, missing, current) {
      assert OnGrid(bucket, step) by { assert bucket in buckets; }
      SweepPast(buckets, i, w, step, missing, current);
    }
  }

  ghost predicate Sweeping(buckets: seq<Bucket>, i: int, w: Window, step: u64, missing: seq<Window>, current: int)
    requires step > 0
  {
    && w.start + step <= w.end && AllOnGrid(buckets, step)
    && DecidedUpTo(buckets, w, step, missing, current) && PassedBy(buckets, i, current, w.end)
  }

  /** On the grid no rounding happens, and passing a bucket decides everything up to its end. */
  lemma SweepPast(buckets: seq<Bucket>, i: nat, w: Window, step: u64, missing: seq<Window>, current: u64)
    requires step > 0 && i < |buckets| && SortedBy(buckets, StartOf)
    requires buckets[i].end > current && buckets[i].start < w.end
    requires Sweeping(buckets, i, w, step, missing, current)
    ensures var gap := if current < buckets[i].start then [Window(current, Min(buckets[i].start, w.end))] else [];
            Sweeping(buckets, i + 1, w, step, missing + gap, Max(current, Min(buckets[i].end, w.end)))
  {
    var bucket := buckets[i];
    assert OnGrid(bucket, step) by { assert bucket in buckets; }
    var reached: u64, missing' := current, missing;
    if current < bucket.start {
      NothingBefore(buckets, i, current, w.end);
      reached := bucket.start;
      DecideGap(buckets, w, step, missing, current, reached);
      missing' := missing + [Window(current, reached)];
    } else {
      assert missing + [] == missing;
    }
    var to: u64 := Max(current, Min(bucket.end, w.end));
    forall x | reached <= x < to ensures InBucket(x, buckets) {
      assert bucket in buckets;
    }
    DecideCovered(buckets, w, step, missing', reached, to);
  }

  // ---- The search without a step ----

  /** Exactly the instants of the window that no bucket covers. */
  ghost predicate ComplementOf(buckets: seq<Bucket>, w: Window, missing: seq<Window>) {
    && Consecutive(missing, w)
    && (forall x :: InWindow(x, w) ==> (InSome(x, missing) <==> !InBucket(x, buckets)))
  }

  ghost predicate ComplementUpTo(buckets: seq<Bucket>, w: Window, missing: seq<Window>, current: int) {
    && Consecutive(missing, w)
    && (forall r :: r in missing ==> r.end <= current)
    && (forall x :: w.start <= x < current && x < w.end ==> (InSome(x, missing) <==> !InBucket(x, buckets)))
  }

  lemma ComplementGap(buckets: seq<Bucket>, w: Window, missing: seq<Window>, current: u64, to: u64)
    requires ComplementUpTo(buckets, w, missing, current)
    requires w.start <= current < to <= w.end
    requires forall x :: current <= x < to ==> !InBucket(x, buckets)
    ensures ComplementUpTo(buckets, w, missing + [Window(current, to)], to)
  {
    ExtendRanges(missing, w, Window(current, to));
  }

  lemma ComplementCovered(buckets: seq<Bucket>, w: Window, missing: seq<Window>, current: u64, to: u64)
    requires ComplementUpTo(buckets, w, missing, current)
    requires w.start <= current <= to
    requires forall x :: current <= x < to && x < w.end ==> InBucket(x, buckets)
    ensures ComplementUpTo(buckets, w, missing, to)
  {
    forall x | current <= x < to ensures !InSome(x, missing) {
    }
  }

  method FindMissingRangesBasic(buckets: seq<Bucket>, w: Window, flux: u64) returns (missing: seq<Window>)
    ensures NonEmpty(buckets) ==> ComplementOf(buckets, w, missing)
  {
    var sorted := SortIfNeeded(buckets, StartOf);
    SameMembers(sorted, buckets);
    assert forall x :: InBucket(x, sorted) <==> InBucket(x, buckets);
    missing := [];
    var current: u64 := w.start;
    var i := 0;
    while i < |sorted|
      invariant 0 <= i <= |sorted|
      invariant w.start <= current && (w.start <= w.end ==> current <= w.end)
      invariant NonEmpty(buckets) ==> ComplementUpTo(sorted, w, missing, current)
      invariant PassedBy(sorted, i, current, w.end)
    {
      var bucket := sorted[i];
      if bucket.end <= w.start {
        i := i + 1;
        continue;
      }
      if bucket.start >= w.end {
        break;
      }
      missing, current := PassBucketBasic(sorted, i, w, missing, current);
      i := i + 1;
    }
    NothingAfter(sorted, i, current, w.end);
    if current < w.end {
      missing := FinalGap(sorted, w, missing, current, flux);
    }
  }

  method PassBucketBasic(buckets: seq<Bucket>, i: nat, w: Window, missing: seq<Window>, current: u64)
    returns (missing': seq<Window>, current': u64)
    requires i < |buckets| && SortedBy(buckets, StartOf)
    requires buckets[i].start < w.end && buckets[i].end > w.start
    requires w.start <= current && (w.start <= w.end ==> current <= w.end)
    requires PassedBy(buckets, i, current, w.end)
    ensures w.start <= current' && (w.start <= w.end ==> current' <= w.end)
    ensures PassedBy(buckets, i + 1, current', w.end)
    ensures NonEmpty(buckets) && ComplementUpTo(buckets, w, missing, current) ==>
              ComplementUpTo(buckets, w, missing', current')
  {
    var bucket := buckets[i];
    missing' := missing;
    ghost var ok := NonEmpty(buckets) && ComplementUpTo(buckets, w, missing, current);
    ghost var reached := current;
    if current < bucket.start {
      if ok {
        NothingBefore(buckets, i, current, w.end);
        ComplementGap(buckets, w, missing, current, Min(bucket.start, w.end));
        reached := Min(bucket.start, w.end);
      }
      missing' := missing' + [Window(current, Min(bucket.start, w.end))];
    }
    current' := Max(current, Min(bucket.end, w.end));
    if ok {
      assert bucket in buckets;
      ComplementCovered(buckets, w, missing', reached, current');
    }
  }

  /** The last gap is split at the flux boundary. */
  method FinalGap(ghost buckets: seq<Bucket>, w: Window, missing: seq<Window>, current: u64, flux: u64)
    returns (missing': seq<Window>)
    requires w.start <= current < w.end
    requires forall x :: current <= x < w.end ==> !InBucket(x, buckets)
    ensures ComplementUpTo(buckets, w, missing, current) ==> ComplementOf(buckets, w, missing')
  {
    ghost var ok := ComplementUpTo(buckets, w, missing, current);
    if current < flux {
      var first := Window(current, Min(w.end, flux));
      if ok {
        ComplementGap(buckets, w, missing, current, first.end);
      }
      missing' := missing + [first];
      if w.end > flux {
        if ok {
          ComplementGap(buckets, w, missing', flux, w.end);
        }
        missing' := missing' + [Window(flux, w.end)];
      }
    } else {
      if ok {
        ComplementGap(buckets, w, missing, current, w.end);
      }
      missing' := missing + [Window(current, w.end)];
    }
  }
}
