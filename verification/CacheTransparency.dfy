/** A cached answer is the direct answer, and storing it keeps the store faithful. */
module CacheTransparency {
  import opened Wrappers
  import opened U64
  import opened TimeSeries
  import opened SeriesMerge
  import opened QueryWindow
  import opened MissingRanges
  import opened BucketCache
  import opened CachedExecution

  ghost predicate FaithfulEntry(src: Source, step: u64, entry: Option<seq<Bucket>>)
    requires step > 0
  {
    entry.Some? ==> FaithfulStore(src, step, entry.value)
  }

  /** Some ranged query emits e. */
  ghost predicate FreshlyEmitted(src: Source, step: u64, missing: seq<Window>, e: Entry)
    requires step > 0
  {
    exists i :: 0 <= i < |missing| && Emits(src, missing[i], step, e)
  }

  /** The ranges lie in the window, on the grid except at its ends, and the leading partial interval is one of its
      own. */
  ghost predicate WellPlaced(missing: seq<Window>, w: Window, step: u64)
    requires step > 0
  {
    Consecutive(missing, w) && OnGridOrEnds(missing, w, step) && LeadsWith(missing, w, step)
  }

  // ---- Ranged queries against the direct one ----

  /** A complete interval of the window that a range meets is complete in that range as well. */
  lemma CompleteInRange(w: Window, step: u64, missing: seq<Window>, i: nat, ts: int)
    requires step > 0 && WellPlaced(missing, w, step) && i < |missing|
    requires Complete(ts, w, step) && Meets(ts, missing[i], step)
    ensures Complete(ts, missing[i], step)
  {
    var r := missing[i];
    if r.start != w.start && ts < r.start {
      GridGap(ts, r.start, step);
    }
    if r.end != w.end {
      GridGap(ts, r.end, step);
    }
    if r.start == w.start {
      assert r.start <= ts;
    }
  }

  /** The leading partial interval is met by its own range only. */
  lemma LeadInFirstRange(w: Window, step: u64, missing: seq<Window>, i: nat, ts: int)
    requires step > 0 && WellPlaced(missing, w, step) && i < |missing|
    requires ts < w.start && Aligned(ts, step) && Meets(ts, missing[i], step)
    ensures w.start % step != 0 && ts == Floor(w.start, step) && i == 0
  {
    var f := Floor(w.start, step);
    assert w.start < ts + step;
    if ts < f {
      GridGap(ts, f, step);
    } else if f < ts {
      GridGap(f, ts, step);
    }
  }

  lemma FreshIsDirect(src: Source, w: Window, step: u64, missing: seq<Window>, i: nat, e: Entry)
    requires step > 0 && w.start + step <= w.end && NoWrap(w, step)
    requires WellPlaced(missing, w, step) && i < |missing|
    requires Emits(src, missing[i], step, e) && !Trailing(e.point.ts, w, step)
    ensures Emits(src, w, step, e)
  {
    var ts, r := e.point.ts, missing[i];
    assert r in missing;
    assert NoWrap(r, step);
    if w.start <= ts {
      assert Complete(ts, w, step);
      CompleteInRange(w, step, missing, i, ts);
      EmittedWhenComplete(src, r, step, e);
      EmittedWhenComplete(src, w, step, e);
    } else {
      LeadInFirstRange(w, step, missing, i, ts);
      PartialIffNotComplete(ts, r, step);
      PartialIffNotComplete(ts, w, step);
    }
  }

  /** What a direct execution emits outside the trailing interval is stored nearby or freshly emitted. */
  lemma DirectIsCovered(src: Source, w: Window, step: u64, buckets: seq<Bucket>, missing: seq<Window>, e: Entry)
    requires step > 0 && w.start + step <= w.end && NoWrap(w, step)
    requires FaithfulStore(src, step, buckets) && MissesExactly(buckets, w, step, missing)
    requires Emits(src, w, step, e) && !Trailing(e.point.ts, w, step)
    ensures FreshlyEmitted(src, step, missing, e) || (w.start <= e.point.ts && StoredNear(buckets, w, e))
  {
    var ts := e.point.ts;
    if ts < w.start {
      LeadIsReExecuted(src, w, step, missing, e);
    } else {
      assert Complete(ts, w, step) && InWindow(ts, w);
      EmittedWhenComplete(src, w, step, e);
      if InSome(ts, missing) {
        var r :| r in missing && InWindow(ts, r);
        var i :| 0 <= i < |missing| && missing[i] == r;
        CompleteInRange(w, step, missing, i, ts);
        EmittedWhenComplete(src, r, step, e);
        assert Emits(src, missing[i], step, e);
      } else {
        var b :| b in buckets && b.start <= ts < b.end;
        GridGap(ts, b.end, step);
        assert Overlaps(b, w) && e in Contents(b.data);
      }
    }
  }

  lemma LeadIsReExecuted(src: Source, w: Window, step: u64, missing: seq<Window>, e: Entry)
    requires step > 0 && w.start + step <= w.end && NoWrap(w, step) && WellPlaced(missing, w, step)
    requires Emits(src, w, step, e) && e.point.ts < w.start
    ensures FreshlyEmitted(src, step, missing, e)
  {
    var ts := e.point.ts;
    var f := Floor(w.start, step);
    if ts < f {
      GridGap(ts, f, step);
    } else if f < ts {
      GridGap(f, ts, step);
    }
    var r := missing[0];
    assert r in missing && NoWrap(r, step) && Meets(ts, r, step);
    PartialIffNotComplete(ts, r, step);
    PartialIffNotComplete(ts, w, step);
    assert Emits(src, missing[0], step, e);
  }

  /** The leading partial interval is executed again and never served: no served point is stamped before the
      window starts. */
  lemma LeadIsExecutedNotServed(src: Source, entry: Option<seq<Bucket>>, w: Window, step: u64, cached: Option<Data>,
                                missing: seq<Window>, e: Entry)
    requires step > 0 && w.start + step <= w.end && NoWrap(w, step)
    requires FaithfulEntry(src, step, entry) && entry.Some? && LooksUp(entry, w, step, cached, missing)
    requires e.point.ts < w.start
    ensures Emits(src, w, step, e) ==> FreshlyEmitted(src, step, missing, e)
    ensures cached.Some? ==> e !in Contents(cached.value)
  {
    assert AllOnGrid(entry.value, step);
    if Emits(src, w, step, e) {
      LeadIsReExecuted(src, w, step, missing, e);
    }
    if cached.Some? {
      ServedIsStored(src, step, entry.value, w, cached.value, e);
    }
  }

  // ---- Merging cached and fresh points ----

  lemma FreshMember(src: Source, step: u64, missing: seq<Window>, exec: Executor, e: Entry)
    requires step > 0 && FaithfulExecutor(src, step, exec) && !SomeRangeFails(exec, missing)
    ensures e in Entries(DataBlocks(FreshResults(exec, missing))) <==> FreshlyEmitted(src, step, missing, e)
  {
    var newer := FreshResults(exec, missing);
    DatasMember(newer, e);
    if i :| 0 <= i < |newer| && e in Contents(newer[i]) {
      assert newer[i] == exec(i, missing[i]).value;
      assert Emits(src, missing[i], step, e);
    }
    if i :| 0 <= i < |missing| && Emits(src, missing[i], step, e) {
      assert newer[i] == exec(i, missing[i]).value;
      assert e in Contents(newer[i]);
    }
  }

  /** A point on offer to the merge. */
  ghost predicate Offered(src: Source, step: u64, cached: Option<Data>, missing: seq<Window>, e: Entry)
    requires step > 0
  {
    (cached.Some? && e in Contents(cached.value)) || FreshlyEmitted(src, step, missing, e)
  }

  /** No other point is on offer for its series and timestamp. */
  ghost predicate Uncontested(src: Source, step: u64, cached: Option<Data>, missing: seq<Window>, e: Entry)
    requires step > 0
  {
    forall f: Entry :: Offered(src, step, cached, missing, f) && f.id == e.id && f.point.ts == e.point.ts ==> f == e
  }

  lemma InputsMember(src: Source, step: u64, cached: Option<Data>, missing: seq<Window>, exec: Executor, e: Entry)
    requires step > 0 && FaithfulExecutor(src, step, exec) && !SomeRangeFails(exec, missing)
    ensures e in Entries(DataBlocks(MergeInputs(cached, FreshResults(exec, missing)))) <==>
            Offered(src, step, cached, missing, e)
  {
    var newer := FreshResults(exec, missing);
    FreshMember(src, step, missing, exec, e);
    if cached.Some? {
      DataBlocksFirst(cached.value, newer);
      EntriesConcat(Blocks(cached.value.aggregations), DataBlocks(newer));
    }
  }

  /** The merge takes only what is offered, and takes every point that no other offer contests. */
  lemma MergedFromOffers(src: Source, step: u64, cached: Option<Data>, missing: seq<Window>, exec: Executor, e: Entry)
    requires step > 0 && FaithfulExecutor(src, step, exec) && !SomeRangeFails(exec, missing)
    ensures var merged := MergedContents(cached, FreshResults(exec, missing));
            && (e in merged ==> Offered(src, step, cached, missing, e))
            && (Offered(src, step, cached, missing, e) && Uncontested(src, step, cached, missing, e) ==> e in merged)
  {
    var newer := FreshResults(exec, missing);
    var blocks := DataBlocks(MergeInputs(cached, newer));
    InputsMember(src, step, cached, missing, exec, e);
    if cached.None? && |newer| == 1 {
      LoneResult(newer);
    } else {
      if e in MergeAll(blocks) {
        MergeSubset(blocks, e);
      }
      if Offered(src, step, cached, missing, e) && Uncontested(src, step, cached, missing, e) {
        forall f | f in Entries(blocks) && f.id == e.id && f.point.ts == e.point.ts ensures f == e {
          InputsMember(src, step, cached, missing, exec, f);
        }
        UncontestedSurvives(blocks, e);
      }
    }
  }

  lemma LoneResult(newer: seq<Data>)
    requires |newer| == 1
    ensures Entries(DataBlocks(newer)) == Contents(newer[0])
  {
    assert newer[..0] == [];
    assert DataBlocks(newer) == [] + Blocks(newer[0].aggregations) == Blocks(newer[0].aggregations);
  }

  // ---- Transparency ----

  /** Outside the trailing interval the offers and the direct emission are the same points. */
  lemma OffersAreDirect(src: Source, entry: Option<seq<Bucket>>, w: Window, step: u64, cached: Option<Data>,
                        missing: seq<Window>, e: Entry)
    requires step > 0 && w.start + step <= w.end && NoWrap(w, step)
    requires FaithfulEntry(src, step, entry) && entry.Some? && LooksUp(entry, w, step, cached, missing)
    requires !Trailing(e.point.ts, w, step)
    ensures Offered(src, step, cached, missing, e) <==> Emits(src, w, step, e)
  {
    var buckets := entry.value;
    assert AllOnGrid(buckets, step);
    if cached.Some? {
      ServedIsStored(src, step, buckets, w, cached.value, e);
      if e in Contents(cached.value) {
        EmittedWhenComplete(src, w, step, e);
      }
    }
    if i :| 0 <= i < |missing| && Emits(src, missing[i], step, e) {
      FreshIsDirect(src, w, step, missing, i, e);
    }
    if Emits(src, w, step, e) {
      DirectIsCovered(src, w, step, buckets, missing, e);
      if b :| b in buckets && Overlaps(b, w) && e in Contents(b.data) {
        RelevantMember(buckets, w, b);
      }
    }
  }

  lemma NothingMissingMeansServed(entry: Option<seq<Bucket>>, w: Window, step: u64, cached: Option<Data>,
                                  missing: seq<Window>)
    requires step > 0 && w.start + step <= w.end && (entry.Some? ==> AllOnGrid(entry.value, step))
    requires LooksUp(entry, w, step, cached, missing) && missing == []
    ensures cached.Some?
  {
    var buckets := entry.value;
    assert InWindow(w.start, w) && !InSome(w.start, missing);
    var b :| b in buckets && b.start <= w.start < b.end;
    RelevantMember(buckets, w, b);
  }

  /** Every answer given through the cache is the direct answer up to the trailing interval, and with an
      aligned end it is the direct answer. */
  lemma AnswerIsTransparent(src: Source, entry: Option<seq<Bucket>>, w: Window, step: u64, cached: Option<Data>,
                            missing: seq<Window>, exec: Executor, outcome: Outcome)
    requires step > 0 && w.start + step <= w.end && NoWrap(w, step)
    requires FaithfulExecutor(src, step, exec) && FaithfulEntry(src, step, entry)
    requires LooksUp(entry, w, step, cached, missing) && Answers(cached, missing, w, exec, outcome)
    ensures outcome != NilDereference
    ensures outcome.Answer? ==> Transparent(src, w, step, outcome.data)
    ensures outcome.Answer? && w.end % step == 0 ==> Executed(src, w, step, outcome.data)
  {
    if missing == [] {
      NothingMissingMeansServed(entry, w, step, cached, missing);
    }
    if outcome.Answer? && !RunsWhole(cached, missing, w, exec) {
      forall e: Entry | !Trailing(e.point.ts, w, step)
        ensures e in Contents(outcome.data) <==> Emits(src, w, step, e)
      {
        AnswerPointIsDirect(src, entry, w, step, cached, missing, exec, outcome, e);
      }
    }
    if outcome.Answer? && w.end % step == 0 {
      forall e ensures e in Contents(outcome.data) <==> Emits(src, w, step, e) {
        NoTrailingWhenAligned(w, step, e.point.ts);
      }
    }
  }

  lemma NoTrailingWhenAligned(w: Window, step: u64, ts: int)
    requires step > 0 && w.end % step == 0
    ensures !Trailing(ts, w, step)
  {
    if Trailing(ts, w, step) {
      GridGap(ts, w.end, step);
    }
  }

  ghost predicate OffersMatch(src: Source, w: Window, step: u64, cached: Option<Data>, missing: seq<Window>)
    requires step > 0
  {
    forall e: Entry :: !Trailing(e.point.ts, w, step) ==>
      (Offered(src, step, cached, missing, e) <==> Emits(src, w, step, e))
  }

  /** Where the offers match the direct emission, no two of them contest a point, so the merge takes them all. */
  lemma MergedPointIsDirect(src: Source, w: Window, step: u64, cached: Option<Data>, missing: seq<Window>,
                            exec: Executor, e: Entry)
    requires step > 0 && FaithfulExecutor(src, step, exec) && !SomeRangeFails(exec, missing)
    requires OffersMatch(src, w, step, cached, missing) && !Trailing(e.point.ts, w, step)
    ensures e in MergedContents(cached, FreshResults(exec, missing)) <==> Emits(src, w, step, e)
  {
    MergedFromOffers(src, step, cached, missing, exec, e);
    assert Offered(src, step, cached, missing, e) <==> Emits(src, w, step, e);
    if Emits(src, w, step, e) {
      DirectIsUncontested(src, w, step, cached, missing, e);
    }
  }

  lemma DirectIsUncontested(src: Source, w: Window, step: u64, cached: Option<Data>, missing: seq<Window>, e: Entry)
    requires step > 0 && OffersMatch(src, w, step, cached, missing) && !Trailing(e.point.ts, w, step)
    requires Emits(src, w, step, e)
    ensures Uncontested(src, step, cached, missing, e)
  {
    forall f: Entry | Offered(src, step, cached, missing, f) && f.id == e.id && f.point.ts == e.point.ts
      ensures f == e
    {
      assert Emits(src, w, step, f);
    }
  }

  lemma AnswerPointIsDirect(src: Source, entry: Option<seq<Bucket>>, w: Window, step: u64, cached: Option<Data>,
                            missing: seq<Window>, exec: Executor, outcome: Outcome, e: Entry)
    requires step > 0 && w.start + step <= w.end && NoWrap(w, step)
    requires FaithfulExecutor(src, step, exec) && FaithfulEntry(src, step, entry) && entry.Some?
    requires LooksUp(entry, w, step, cached, missing) && Answers(cached, missing, w, exec, outcome)
    requires outcome.Answer? && !RunsWhole(cached, missing, w, exec) && !Trailing(e.point.ts, w, step)
    ensures e in Contents(outcome.data) <==> Emits(src, w, step, e)
  {
    forall f: Entry | !Trailing(f.point.ts, w, step)
      ensures Offered(src, step, cached, missing, f) <==> Emits(src, w, step, f)
    {
      OffersAreDirect(src, entry, w, step, cached, missing, f);
    }
    AnswerFromOffers(src, w, step, cached, missing, exec, outcome, e);
  }

  lemma AnswerFromOffers(src: Source, w: Window, step: u64, cached: Option<Data>, missing: seq<Window>, exec: Executor,
                         outcome: Outcome, e: Entry)
    requires step > 0 && FaithfulExecutor(src, step, exec) && Answers(cached, missing, w, exec, outcome)
    requires outcome.Answer? && !RunsWhole(cached, missing, w, exec)
    requires OffersMatch(src, w, step, cached, missing) && !Trailing(e.point.ts, w, step)
    ensures e in Contents(outcome.data) <==> Emits(src, w, step, e)
  {
    if missing == [] {
      assert Offered(src, step, cached, missing, e) <==> Emits(src, w, step, e);
    } else {
      MergedPointIsDirect(src, w, step, cached, missing, exec, e);
    }
  }

  // ---- The trailing interval ----

  /** Every trailing interval of a window is the one that contains its end. */
  lemma TrailingIsFloor(w: Window, step: u64, ts: int)
    requires step > 0 && Trailing(ts, w, step)
    ensures ts == Floor(w.end, step) && ts < w.end
  {
    var f := Floor(w.end, step);
    if ts < f {
      GridGap(ts, f, step);
    } else if f < ts {
      GridGap(f, ts, step);
    }
  }

  /** Whether an answer agrees with the direct one on the trailing interval. */
  ghost predicate TrailingAgrees(src: Source, w: Window, step: u64, d: Data)
    requires step > 0
  {
    forall e: Entry :: Trailing(e.point.ts, w, step) ==> (e in Contents(d) <==> Emits(src, w, step, e))
  }

  ghost predicate StoresTrailing(buckets: seq<Bucket>, w: Window, step: u64)
    requires step > 0
  {
    exists e: Entry :: Trailing(e.point.ts, w, step) && StoredNear(buckets, w, e)
  }

  /** The trailing interval is re-queried, or the source has nothing there. */
  ghost predicate TrailingHandled(src: Source, w: Window, step: u64, missing: seq<Window>)
    requires step > 0
  {
    forall e: Entry :: Trailing(e.point.ts, w, step) && Emits(src, w, step, e) ==> InSome(e.point.ts, missing)
  }

  /** A range emits the trailing value exactly when it contains the trailing interval's start. */
  lemma TrailingFromRange(src: Source, w: Window, step: u64, missing: seq<Window>, i: nat, e: Entry)
    requires step > 0 && w.start + step <= w.end && NoWrap(w, step) && WellPlaced(missing, w, step) && i < |missing|
    requires Trailing(e.point.ts, w, step)
    ensures Emits(src, missing[i], step, e) <==> Emits(src, w, step, e) && InWindow(e.point.ts, missing[i])
  {
    var ts, r := e.point.ts, missing[i];
    assert r in missing && NoWrap(r, step);
    if r.end != w.end && ts < r.end {
      GridGap(ts, r.end, step);
    }
    if r.start != w.start && ts < r.start {
      GridGap(ts, r.start, step);
    }
    if Meets(ts, r, step) {
      PartialIffNotComplete(ts, r, step);
      PartialIffNotComplete(ts, w, step);
    }
  }

  /** On the trailing interval the merged answer is the direct one exactly when no overlapping bucket stores a
      point there and, if the source has one, that interval is re-queried. */
  lemma TrailingAgreement(src: Source, entry: Option<seq<Bucket>>, w: Window, step: u64, cached: Option<Data>,
                          missing: seq<Window>, exec: Executor, outcome: Outcome)
    requires step > 0 && w.start + step <= w.end && NoWrap(w, step)
    requires FaithfulExecutor(src, step, exec) && FaithfulEntry(src, step, entry) && entry.Some?
    requires LooksUp(entry, w, step, cached, missing) && Answers(cached, missing, w, exec, outcome)
    requires outcome.Answer? && !RunsWhole(cached, missing, w, exec)
    ensures TrailingAgrees(src, w, step, outcome.data) <==>
            !StoresTrailing(entry.value, w, step) && TrailingHandled(src, w, step, missing)
  {
    var buckets := entry.value;
    assert AllOnGrid(buckets, step);
    if e: Entry :| Trailing(e.point.ts, w, step) && StoredNear(buckets, w, e) {
      StoredTrailingWins(src, entry, w, step, cached, missing, exec, outcome, e);
    } else {
      forall e: Entry | Trailing(e.point.ts, w, step)
        ensures e in Contents(outcome.data) <==> Emits(src, w, step, e) && InSome(e.point.ts, missing)
      {
        FreshTrailing(src, entry, w, step, cached, missing, exec, outcome, e);
      }
    }
  }

  lemma OverlapIsServed(entry: Option<seq<Bucket>>, w: Window, step: u64, cached: Option<Data>, missing: seq<Window>,
                        e: Entry)
    requires entry.Some? && LooksUp(entry, w, step, cached, missing) && StoredNear(entry.value, w, e)
    ensures cached.Some? && ServesMerged(entry.value, w, cached.value)
  {
    var b :| b in entry.value && Overlaps(b, w) && e in Contents(b.data);
    RelevantMember(entry.value, w, b);
  }

  lemma StoredTrailingIsServed(src: Source, entry: Option<seq<Bucket>>, w: Window, step: u64, cached: Option<Data>,
                               missing: seq<Window>, e: Entry)
    requires step > 0 && FaithfulEntry(src, step, entry) && entry.Some? && LooksUp(entry, w, step, cached, missing)
    requires Trailing(e.point.ts, w, step) && StoredNear(entry.value, w, e)
    ensures cached.Some? && e in Contents(cached.value) && !e.point.partial
    ensures forall f :: f in Contents(cached.value) && f.id == e.id && f.point.ts == e.point.ts ==> f == e
  {
    var buckets := entry.value;
    TrailingIsFloor(w, step, e.point.ts);
    OverlapIsServed(entry, w, step, cached, missing, e);
    ServedIsStored(src, step, buckets, w, cached.value, e);
    StoredPointIsUnique(src, step, buckets, w, cached.value, e);
  }

  lemma StoredPointIsUnique(src: Source, step: u64, buckets: seq<Bucket>, w: Window, d: Data, e: Entry)
    requires step > 0 && FaithfulStore(src, step, buckets) && ServesMerged(buckets, w, d) && e in Contents(d)
    ensures forall f :: f in Contents(d) && f.id == e.id && f.point.ts == e.point.ts ==> f == e
  {
    ServedIsStored(src, step, buckets, w, d, e);
    forall f | f in Contents(d) && f.id == e.id && f.point.ts == e.point.ts ensures f == e {
      ServedIsStored(src, step, buckets, w, d, f);
    }
  }

  /** A stored whole value hides the partial one that a direct execution reports. */
  lemma StoredTrailingWins(src: Source, entry: Option<seq<Bucket>>, w: Window, step: u64, cached: Option<Data>,
                           missing: seq<Window>, exec: Executor, outcome: Outcome, e: Entry)
    requires step > 0 && w.start + step <= w.end && NoWrap(w, step)
    requires FaithfulExecutor(src, step, exec) && FaithfulEntry(src, step, entry) && entry.Some?
    requires LooksUp(entry, w, step, cached, missing) && Answers(cached, missing, w, exec, outcome)
    requires outcome.Answer? && !RunsWhole(cached, missing, w, exec)
    requires Trailing(e.point.ts, w, step) && StoredNear(entry.value, w, e)
    ensures e in Contents(outcome.data) && !Emits(src, w, step, e)
  {
    StoredTrailingIsServed(src, entry, w, step, cached, missing, e);
    PartialIffNotComplete(e.point.ts, w, step);
    if missing != [] {
      CachedPointSurvives(cached.value, FreshResults(exec, missing), e);
    }
  }

  /** Cached points come first in the merge. */
  lemma CachedPointSurvives(cached: Data, newer: seq<Data>, e: Entry)
    requires e in Contents(cached)
    requires forall f :: f in Contents(cached) && f.id == e.id && f.point.ts == e.point.ts ==> f == e
    ensures e in MergeAll(DataBlocks(MergeInputs(Some(cached), newer)))
  {
    var blocks := Blocks(cached.aggregations);
    DataBlocksFirst(cached, newer);
    UncontestedSurvives(blocks, e);
    MergePrefers(blocks, DataBlocks(newer));
  }

  lemma FreshTrailing(src: Source, entry: Option<seq<Bucket>>, w: Window, step: u64, cached: Option<Data>,
                      missing: seq<Window>, exec: Executor, outcome: Outcome, e: Entry)
    requires step > 0 && w.start + step <= w.end && NoWrap(w, step)
    requires FaithfulExecutor(src, step, exec) && FaithfulEntry(src, step, entry) && entry.Some?
    requires LooksUp(entry, w, step, cached, missing) && Answers(cached, missing, w, exec, outcome)
    requires outcome.Answer? && !RunsWhole(cached, missing, w, exec)
    requires Trailing(e.point.ts, w, step) && !StoresTrailing(entry.value, w, step)
    ensures e in Contents(outcome.data) <==> Emits(src, w, step, e) && InSome(e.point.ts, missing)
  {
    var buckets := entry.value;
    assert AllOnGrid(buckets, step);
    forall f: Entry | f.point.ts == e.point.ts
      ensures Offered(src, step, cached, missing, f) <==> Emits(src, w, step, f) && InSome(f.point.ts, missing)
    {
      if cached.Some? {
        ServedIsStored(src, step, buckets, w, cached.value, f);
      }
      OfferedTrailing(src, w, step, missing, f);
    }
    if missing != [] {
      MergedFromOffers(src, step, cached, missing, exec, e);
    }
  }

  lemma OfferedTrailing(src: Source, w: Window, step: u64, missing: seq<Window>, e: Entry)
    requires step > 0 && w.start + step <= w.end && NoWrap(w, step) && WellPlaced(missing, w, step)
    requires Trailing(e.point.ts, w, step)
    ensures FreshlyEmitted(src, step, missing, e) <==> Emits(src, w, step, e) && InSome(e.point.ts, missing)
  {
    if i :| 0 <= i < |missing| && Emits(src, missing[i], step, e) {
      TrailingFromRange(src, w, step, missing, i, e);
      assert missing[i] in missing;
    }
    if InSome(e.point.ts, missing) {
      var r :| r in missing && InWindow(e.point.ts, r);
      var i :| 0 <= i < |missing| && missing[i] == r;
      TrailingFromRange(src, w, step, missing, i, e);
    }
  }

  // ---- There is always something to return ----

  /** Without a step, or with a window shorter than one, the answer is the nil dereference exactly when the
      window is empty and the entry has no bucket overlapping it. */
  lemma NilDereferenceExactly(entry: Option<seq<Bucket>>, w: Window, step: u64, cached: Option<Data>,
                              missing: seq<Window>, exec: Executor, outcome: Outcome)
    requires step == 0 || w.end < w.start + step < MODULUS
    requires entry.Some? ==> NonEmpty(entry.value)
    requires LooksUp(entry, w, step, cached, missing) && Answers(cached, missing, w, exec, outcome)
    ensures outcome == NilDereference <==>
            entry.Some? && w.end <= w.start && (forall b :: b in entry.value ==> !Overlaps(b, w))
  {
    if entry.Some? {
      var relevant := Relevant(entry.value, w);
      forall b ensures b in relevant <==> b in entry.value && Overlaps(b, w) {
        RelevantMember(entry.value, w, b);
      }
      if relevant != [] {
        assert relevant[0] in relevant;
      }
      if w.end <= w.start {
        SomeRangeListed(missing);
      } else if missing == [] {
        assert InWindow(w.start, w) && !InSome(w.start, missing);
        var b :| b in entry.value && b.start <= w.start < b.end;
        assert Overlaps(b, w);
      }
    }
  }

  /** Over a window that is not empty the merge is never left with neither cached nor fresh results, on the
      step-aligned path as on the other. */
  lemma NonEmptyWindowIsAnswered(entry: Option<seq<Bucket>>, w: Window, step: u64, cached: Option<Data>,
                                 missing: seq<Window>, exec: Executor, outcome: Outcome)
    requires w.start < w.end && (step == 0 || w.start + step < MODULUS)
    requires entry.Some? ==> NonEmpty(entry.value) && (step > 0 ==> AllOnGrid(entry.value, step))
    requires LooksUp(entry, w, step, cached, missing) && Answers(cached, missing, w, exec, outcome)
    ensures outcome != NilDereference
  {
    if step == 0 || w.end < w.start + step {
      NilDereferenceExactly(entry, w, step, cached, missing, exec, outcome);
    } else if missing == [] {
      NothingMissingMeansServed(entry, w, step, cached, missing);
    }
  }

  lemma SomeRangeListed(ranges: seq<Window>)
    ensures ranges != [] ==> exists r :: r in ranges
  {
    if ranges != [] {
      assert ranges[0] in ranges;
    }
  }
}
