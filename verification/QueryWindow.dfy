/** Query windows over an immutable source, and which values of a direct execution are partial. */
module QueryWindow {
  import opened Wrappers
  import opened U64
  import opened TimeSeries

  datatype Window = Window(start: u64, end: u64)

  /** What the telemetry store aggregates for a series over the half-open interval [lo, hi). */
  type Source = (SeriesId, int, int) -> Option<real>

  ghost predicate NoWrap(w: Window, step: int) {
    w.start + step < MODULUS && w.end + step < MODULUS
  }

  function IsPartialValue(timestamp: int, w: Window, step: u64): bool {
    if step == 0 then false
    else
      var ts := Of(timestamp);
      var firstCompleteInterval :=
        if w.start % step != 0 then NextMultiple(w.start, step) else w.start;
      if ts < firstCompleteInterval then true
      else if Add(ts, step) > w.end then w.end % step != 0
      else false
  }

  /** The aligned interval starting at ts meets the window. */
  ghost predicate Meets(ts: int, w: Window, step: int)
    requires step > 0
  {
    ts > 0 && Aligned(ts, step) && ts < w.end && w.start < ts + step
  }

  /** The aligned interval starting at ts lies inside the window. */
  ghost predicate Complete(ts: int, w: Window, step: int)
    requires step > 0
  {
    Meets(ts, w, step) && w.start <= ts && ts + step <= w.end
  }

  /** A direct execution emits, for each aligned interval, the aggregate of its part inside the window. */
  ghost predicate Emits(src: Source, w: Window, step: u64, e: Entry)
    requires step > 0
  {
    && Meets(e.point.ts, w, step)
    && src(e.id, Max(e.point.ts, w.start), Min(e.point.ts + step, w.end)) == Some(e.point.value)
    && e.point.partial == IsPartialValue(e.point.ts, w, step)
  }

  /** d is a result of executing the query directly over w. */
  ghost predicate Executed(src: Source, w: Window, step: u64, d: Data)
    requires step > 0
  {
    forall e :: e in Contents(d) <==> Emits(src, w, step, e)
  }

  /** A point holding the whole value of its aligned interval. */
  ghost predicate Whole(src: Source, step: int, e: Entry)
    requires step > 0
  {
    && e.point.ts > 0 && Aligned(e.point.ts, step)
    && !e.point.partial
    && src(e.id, e.point.ts, e.point.ts + step) == Some(e.point.value)
  }

  // ---- The partial flag ----

  /** The code's first complete interval starts at the window's start rounded up. */
  lemma FirstCompleteIsRounded(w: Window, step: u64)
    requires step > 0 && NoWrap(w, step)
    ensures (if w.start % step != 0 then NextMultiple(w.start, step) else w.start) == Ceil(w.start, step)
  {
    MultipleForms(w.start, step);
    RoundingForms(w.start, step);
  }

  /** Flagged as partial is exactly: the aligned interval is not contained in the window. */
  lemma PartialIffNotComplete(ts: int, w: Window, step: u64)
    requires step > 0 && NoWrap(w, step) && Meets(ts, w, step)
    ensures IsPartialValue(ts, w, step) <==> !Complete(ts, w, step)
  {
    FirstCompleteIsRounded(w, step);
    BeforeRounded(ts, w.start, step);
    assert Of(ts) == ts && Add(ts, step) == ts + step;
    if w.end % step == 0 {
      GridGap(ts, w.end, step);
    }
  }

  /** A grid point before the rounded-up start is before the start. */
  lemma BeforeRounded(ts: int, start: nat, step: nat)
    requires step > 0 && Aligned(ts, step)
    ensures ts < Ceil(start, step) <==> ts < start
  {
    if start <= ts < Ceil(start, step) {
      GridGap(ts, Ceil(start, step), step);
    }
  }

  /** The unflagged timestamps are the grid points between the rounded-up start and the rounded-down end. */
  lemma UnflaggedAreBetweenRoundedEnds(ts: int, w: Window, step: u64)
    requires step > 0 && NoWrap(w, step) && Meets(ts, w, step)
    ensures !IsPartialValue(ts, w, step) <==> Ceil(w.start, step) <= ts < Floor(w.end, step)
  {
    PartialIffNotComplete(ts, w, step);
    var lo, hi := Ceil(w.start, step), Floor(w.end, step);
    if w.start <= ts && ts < lo {
      GridGap(ts, lo, step);
    }
    if ts < hi {
      GridGap(ts, hi, step);
    } else if ts + step <= w.end {
      NextIsAligned(ts, step);
      if hi < ts + step {
        GridGap(hi, ts + step, step);
      }
    }
  }

  lemma EmittedWhenComplete(src: Source, w: Window, step: u64, e: Entry)
    requires step > 0 && NoWrap(w, step) && Complete(e.point.ts, w, step)
    ensures Emits(src, w, step, e) <==> Whole(src, step, e)
  {
    PartialIffNotComplete(e.point.ts, w, step);
  }
}
