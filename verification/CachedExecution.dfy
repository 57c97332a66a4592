/** Answering a query from cached buckets and fresh ranged queries, and why the answer is the direct one. */
module CachedExecution {
  import opened Wrappers
  import opened U64
  import opened Sorting
  import opened TimeSeries
  import opened SeriesMerge
  import opened QueryWindow
  import opened MissingRanges
  import opened BucketCache

  /** Running the query over a window, at the given attempt: a result, or None for an error. */
  type Executor = (nat, Window) -> Option<Data>

  datatype Outcome = Answer(data: Data, store: bool) | Failed | NilDereference

  function RunDirectly(exec: Executor, attempt: nat, w: Window): Outcome {
    match exec(attempt, w)
    case None => Failed
    case Some(d) => Answer(d, true)
  }

  ghost function FreshResults(exec: Executor, missing: seq<Window>): seq<Data>
    requires forall i :: 0 <= i < |missing| ==> exec(i, missing[i]).Some?
  {
    seq(|missing|, i requires 0 <= i < |missing| => exec(i, missing[i]).value)
  }

  ghost predicate SomeRangeFails(exec: Executor, missing: seq<Window>) {
    exists i :: 0 <= i < |missing| && exec(i, missing[i]).None?
  }

  /** The whole query is run when nothing is cached and everything is missing, or when a ranged query failed. */
  ghost predicate RunsWhole(cached: Option<Data>, missing: seq<Window>, w: Window, exec: Executor) {
    (cached.None? && missing == [w]) || SomeRangeFails(exec, missing)
  }

  /** What is answered, given what the cache served. */
  ghost predicate Answers(cached: Option<Data>, missing: seq<Window>, w: Window, exec: Executor, outcome: Outcome) {
    if cached.None? && missing == [w] then outcome == RunDirectly(exec, 0, w)
    else if SomeRangeFails(exec, missing) then outcome == RunDirectly(exec, |missing|, w)
    else if missing == [] then outcome == if cached.Some? then Answer(cached.value, false) else NilDereference
    else
      && outcome.Answer? && outcome.store
      && Contents(outcome.data) == MergedContents(cached, FreshResults(exec, missing))
  }

  /** A lone fresh result is passed on as it is; otherwise cached and fresh results are merged. */
  ghost function MergedContents(cached: Option<Data>, newer: seq<Data>): set<Entry> {
    if cached.None? && |newer| == 1 then Contents(newer[0])
    else MergeAll(DataBlocks(MergeInputs(cached, newer)))
  }

  method Combine(cached: Option<Data>, missing: seq<Window>, w: Window, exec: Executor) returns (outcome: Outcome)
    ensures Answers(cached, missing, w, exec, outcome)
  {
    if |missing| == 0 && cached.Some? {
      return Answer(cached.value, false);
    }
    if cached.None? && |missing| == 1 && missing[0] == w {
      return RunDirectly(exec, 0, w);
    }
    var newer: seq<Data> := [];
    var failed := false;
    for i := 0 to |missing|
      invariant failed <==> SomeRangeFails(exec, missing[..i])
      invariant !failed ==> |newer| == i && forall j :: 0 <= j < i ==> exec(j, missing[j]) == Some(newer[j])
    {
      assert missing[..i + 1] == missing[..i] + [missing[i]];
      match exec(i, missing[i])
      case None =>
        assert missing[..i + 1][i] == missing[i];
        failed := true;
      case Some(d) =>
        ghost var was := failed;
        newer := newer + [d];
        if SomeRangeFails(exec, missing[..i + 1]) {
          var j :| 0 <= j < i + 1 && exec(j, missing[..i + 1][j]).None?;
          assert missing[..i][j] == missing[j];
        }
        if failed {
          var j :| 0 <= j < i && exec(j, missing[..i][j]).None?;
          assert missing[..i + 1][j] == missing[j];
        }
    }
    assert missing[..|missing|] == missing;
    if failed {
      return RunDirectly(exec, |missing|, w);
    }
    if cached.None? && |newer| == 0 {
      return NilDereference;
    }
    assert newer == FreshResults(exec, missing);
    if cached.None? && |newer| == 1 {
      return Answer(newer[0], true);
    }
    var merged := MergeTimeSeriesResults(cached, newer);
    return Answer(merged, true);
  }

  // ---- What the store must satisfy ----

  /** Every stored point is a whole value, and no whole value of the bucket's range is absent. */
  ghost predicate Faithful(src: Source, step: u64, b: Bucket)
    requires step > 0
  {
    && OnGrid(b, step)
    && (forall e :: e in Contents(b.data) ==> Whole(src, step, e))
    && (forall e :: Whole(src, step, e) && b.start <= e.point.ts && e.point.ts + step <= b.end ==>
        e in Contents(b.data))
  }

  ghost predicate FaithfulStore(src: Source, step: u64, buckets: seq<Bucket>)
    requires step > 0
  {
    && SortedBy(buckets, StartOf)
    && NoRepeatedRange(buckets)
    && forall b :: b in buckets ==> Faithful(src, step, b)
  }

  /** The interval that starts inside the window but is cut off by its end. */
  ghost predicate Trailing(ts: int, w: Window, step: int)
    requires step > 0
  {
    Meets(ts, w, step) && w.start <= ts && w.end < ts + step
  }

  /** The direct answer, up to the trailing interval. */
  ghost predicate Transparent(src: Source, w: Window, step: u64, d: Data)
    requires step > 0
  {
    forall e: Entry :: !Trailing(e.point.ts, w, step) ==> (e in Contents(d) <==> Emits(src, w, step, e))
  }

  /** A result that may be stored: unflagged points are whole values and all whole values of the window are there. */
  ghost predicate Storable(src: Source, w: Window, step: u64, d: Data)
    requires step > 0
  {
    && (forall e :: e in Contents(d) && !e.point.partial ==> Whole(src, step, e))
    && (forall e: Entry :: Complete(e.point.ts, w, step) && Whole(src, step, e) ==> e in Contents(d))
  }

  ghost predicate FaithfulExecutor(src: Source, step: u64, exec: Executor)
    requires step > 0
  {
    forall n, w :: exec(n, w).Some? ==> Executed(src, w, step, exec(n, w).value)
  }

  // ---- Entries of several results ----

  lemma {:induction false} DatasMember(datas: seq<Data>, e: Entry)
    ensures e in Entries(DataBlocks(datas)) <==> exists i :: 0 <= i < |datas| && e in Contents(datas[i])
  {
    if datas != [] {
      var n := |datas| - 1;
      DatasMember(datas[..n], e);
      EntriesConcat(DataBlocks(datas[..n]), Blocks(datas[n].aggregations));
      if i :| 0 <= i < |datas| && e in Contents(datas[i]) {
        if i < n {
          assert datas[..n][i] == datas[i];
        }
      }
    }
  }

  /** A point that nobody contradicts survives the merge. */
  lemma UncontestedSurvives(blocks: seq<Block>, e: Entry)
    requires e in Entries(blocks)
    requires forall f :: f in Entries(blocks) && f.id == e.id && f.point.ts == e.point.ts ==> f == e
    ensures e in MergeAll(blocks)
  {
    EntriesMember(blocks, e);
    MergeTimestamps(blocks, e.id, e.point.ts);
    assert HasTimestamp(MergeAll(blocks), e.id, e.point.ts);
    var f :| f in MergeAll(blocks) && f.id == e.id && f.point.ts == e.point.ts;
    MergeSubset(blocks, f);
  }

  lemma {:induction false} MergePrefers(xs: seq<Block>, ys: seq<Block>)
    ensures MergeAll(xs) <= MergeAll(xs + ys)
  {
    if ys == [] {
      assert xs + ys == xs;
    } else {
      assert (xs + ys)[..|xs + ys| - 1] == xs + ys[..|ys| - 1];
      MergePrefers(xs, ys[..|ys| - 1]);
    }
  }

  // ---- What a lookup in a faithful store serves ----

  /** e is stored in a bucket that overlaps the window. */
  ghost predicate StoredNear(buckets: seq<Bucket>, w: Window, e: Entry) {
    exists b :: b in buckets && Overlaps(b, w) && e in Contents(b.data)
  }

  lemma OrderedMember(buckets: seq<Bucket>, w: Window, order: seq<Bucket>, e: Entry)
    requires SortOf(Relevant(buckets, w), StartOf, order)
    ensures e in Entries(DataBlocks(DatasOf(order))) <==> StoredNear(buckets, w, e)
  {
    DatasMember(DatasOf(order), e);
    SameMembers(order, Relevant(buckets, w));
    if e in Entries(DataBlocks(DatasOf(order))) {
      var i :| 0 <= i < |order| && e in Contents(DatasOf(order)[i]);
      assert order[i] in order;
      RelevantMember(buckets, w, order[i]);
    }
    if StoredNear(buckets, w, e) {
      var b :| b in buckets && Overlaps(b, w) && e in Contents(b.data);
      RelevantMember(buckets, w, b);
      var i :| 0 <= i < |order| && order[i] == b;
      assert DatasOf(order)[i] == b.data;
    }
  }

  lemma OrderedBucketsAgree(src: Source, step: u64, buckets: seq<Bucket>, w: Window, order: seq<Bucket>)
    requires step > 0 && FaithfulStore(src, step, buckets) && SortOf(Relevant(buckets, w), StartOf, order)
    ensures forall f :: f in Entries(DataBlocks(DatasOf(order))) ==> Whole(src, step, f)
    ensures MergeAll(DataBlocks(DatasOf(order))) == Entries(DataBlocks(DatasOf(order)))
  {
    var blocks := DataBlocks(DatasOf(order));
    forall f | f in Entries(blocks) ensures Whole(src, step, f) {
      OrderedMember(buckets, w, order, f);
    }
    MergeOfAgreeing(blocks);
  }

  /** The buckets of a faithful store cannot disagree, so the lookup serves every stored point of the window. */
  lemma ServedIsStored(src: Source, step: u64, buckets: seq<Bucket>, w: Window, d: Data, e: Entry)
    requires step > 0 && FaithfulStore(src, step, buckets) && ServesMerged(buckets, w, d)
    ensures e in Contents(d) <==> StoredNear(buckets, w, e) && w.start <= e.point.ts < w.end
    ensures e in Contents(d) ==> Whole(src, step, e)
  {
    var order :| SortOf(Relevant(buckets, w), StartOf, order) && ServesInOrder(order, w, d);
    OrderedBucketsAgree(src, step, buckets, w, order);
    OrderedMember(buckets, w, order, e);
    ServedPoint(order, w, d, e);
  }

  lemma ServedPoint(order: seq<Bucket>, w: Window, d: Data, e: Entry)
    requires ServesInOrder(order, w, d)
    ensures e in Contents(d) ==> e in MergeAll(DataBlocks(DatasOf(order)))
    ensures e.point.ts >= 0 ==>
              (e in Contents(d) <==> e in MergeAll(DataBlocks(DatasOf(order))) && w.start <= e.point.ts < w.end)
  {
    if e.point.ts >= 0 {
      assert Of(e.point.ts) == e.point.ts;
      assert WithinWindow(w)(e.point) <==> w.start <= e.point.ts < w.end;
    }
  }
}
