/** The range-bucket cache of one query fingerprint: what a lookup serves and what a store keeps. */
module BucketCache {
  import opened Wrappers
  import opened U64
  import opened Sorting
  import opened TimeSeries
  import opened SeriesMerge
  import opened QueryWindow
  import opened MissingRanges

  datatype RequestType = TimeSeriesKind | RawKind | ScalarKind | TraceKind | OtherKind

  datatype Result = Result(kind: RequestType, data: Option<Data>)

  // ---- Keeping some of the points of a result ----

  ghost function Kept(es: set<Entry>, keep: Point -> bool): set<Entry> {
    set e | e in es && keep(e.point)
  }

  method KeepPoints(values: seq<Point>, keep: Point -> bool) returns (kept: seq<Point>)
    ensures forall p :: p in kept <==> p in values && keep(p)
  {
    kept := [];
    for i := 0 to |values|
      invariant forall p :: p in kept <==> p in values[..i] && keep(p)
    {
      assert values[..i + 1] == values[..i] + [values[i]];
      if keep(values[i]) {
        kept := kept + [values[i]];
      }
    }
    assert values[..|values|] == values;
  }

  /** The same series, each with those of its points to keep. */
  ghost predicate KeepsSeries(before: seq<Series>, after: seq<Series>, keep: Point -> bool) {
    && |after| == |before|
    && forall i :: 0 <= i < |before| ==>
         && after[i].key == before[i].key
         && forall p :: p in after[i].values <==> p in before[i].values && keep(p)
  }

  method KeepInSeries(series: seq<Series>, keep: Point -> bool) returns (kept: seq<Series>)
    ensures KeepsSeries(series, kept, keep)
  {
    kept := [];
    for i := 0 to |series|
      invariant KeepsSeries(series[..i], kept, keep)
    {
      var values := KeepPoints(series[i].values, keep);
      kept := kept + [Series(series[i].key, values)];
    }
    assert series[..|series|] == series;
  }

  ghost predicate KeepsAggregations(before: seq<Aggregation>, after: seq<Aggregation>, keep: Point -> bool) {
    && |after| == |before|
    && forall i :: 0 <= i < |before| ==>
         after[i].index == before[i].index && KeepsSeries(before[i].series, after[i].series, keep)
  }

  lemma KeptEntryIsListed(before: Data, after: Data, keep: Point -> bool, e: Entry)
    requires KeepsAggregations(before.aggregations, after.aggregations, keep)
    requires e in Contents(before) && keep(e.point)
    ensures e in Contents(after)
  {
    ContentsMember(before, e);
    var a, s :| a in before.aggregations && s in a.series && e.id == SeriesId(a.index, s.key) && e.point in s.values;
    var j :| 0 <= j < |before.aggregations| && before.aggregations[j] == a;
    var i :| 0 <= i < |a.series| && a.series[i] == s;
    var b := after.aggregations[j];
    assert b in after.aggregations && b.series[i] in b.series;
    ContentsMember(after, e);
  }

  lemma ListedEntryIsKept(before: Data, after: Data, keep: Point -> bool, e: Entry)
    requires KeepsAggregations(before.aggregations, after.aggregations, keep)
    requires e in Contents(after)
    ensures e in Contents(before) && keep(e.point)
  {
    ContentsMember(after, e);
    var b, s :| b in after.aggregations && s in b.series && e.id == SeriesId(b.index, s.key) && e.point in s.values;
    var j :| 0 <= j < |after.aggregations| && after.aggregations[j] == b;
    var i :| 0 <= i < |b.series| && b.series[i] == s;
    var a := before.aggregations[j];
    assert a in before.aggregations && a.series[i] in a.series;
    ContentsMember(before, e);
  }

  lemma KeepsContents(before: Data, after: Data, keep: Point -> bool)
    requires KeepsAggregations(before.aggregations, after.aggregations, keep)
    ensures Contents(after) == Kept(Contents(before), keep)
  {
    forall e ensures e in Contents(after) <==> e in Kept(Contents(before), keep) {
      if e in Contents(after) {
        ListedEntryIsKept(before, after, keep, e);
      }
      if e in Kept(Contents(before), keep) {
        KeptEntryIsListed(before, after, keep, e);
      }
    }
  }

  ghost function WithoutEmpty(aggs: seq<Aggregation>): seq<Aggregation> {
    if aggs == [] then []
    else
      WithoutEmpty(aggs[..|aggs| - 1]) +
      if aggs[|aggs| - 1].series == [] then [] else [aggs[|aggs| - 1]]
  }

  /** An aggregation without series says nothing. */
  lemma {:induction false} WithoutEmptyContents(aggs: seq<Aggregation>)
    ensures Blocks(WithoutEmpty(aggs)) == Blocks(aggs)
  {
    if aggs != [] {
      var n := |aggs| - 1;
      WithoutEmptyContents(aggs[..n]);
      if aggs[n].series != [] {
        assert (WithoutEmpty(aggs[..n]) + [aggs[n]])[..|WithoutEmpty(aggs[..n])|] == WithoutEmpty(aggs[..n]);
      } else {
        assert WithoutEmpty(aggs) == WithoutEmpty(aggs[..n]);
        assert Blocks(aggs) == Blocks(aggs[..n]) + [];
      }
    }
  }

  /** Keep the points that pass; with `dropEmpty` leave out the aggregations that list no series. */
  method KeepInData(d: Data, keep: Point -> bool, dropEmpty: bool) returns (kept: Data)
    ensures Contents(kept) == Kept(Contents(d), keep)
    ensures !dropEmpty ==> KeepsAggregations(d.aggregations, kept.aggregations, keep)
  {
    var aggs: seq<Aggregation> := [];
    ghost var full: seq<Aggregation> := [];
    for i := 0 to |d.aggregations|
      invariant KeepsAggregations(d.aggregations[..i], full, keep)
      invariant aggs == if dropEmpty then WithoutEmpty(full) else full
    {
      var a := d.aggregations[i];
      var series := KeepInSeries(a.series, keep);
      if !dropEmpty || |series| > 0 {
        aggs := aggs + [Aggregation(a.index, series)];
      }
      ghost var before := full;
      full := full + [Aggregation(a.index, series)];
      assert full[..|full| - 1] == before;
    }
    assert d.aggregations[..|d.aggregations|] == d.aggregations;
    kept := Data(aggs);
    KeepsContents(d, Data(full), keep);
    WithoutEmptyContents(full);
  }

  // ---- Lookup ----

  function Overlaps(b: Bucket, w: Window): bool {
    b.end > w.start && b.start < w.end
  }

  ghost function Relevant(buckets: seq<Bucket>, w: Window): seq<Bucket> {
    if buckets == [] then []
    else
      Relevant(buckets[..|buckets| - 1], w) +
      if Overlaps(buckets[|buckets| - 1], w) then [buckets[|buckets| - 1]] else []
  }

  lemma {:induction false} RelevantMember(buckets: seq<Bucket>, w: Window, b: Bucket)
    ensures b in Relevant(buckets, w) <==> b in buckets && Overlaps(b, w)
  {
    if buckets != [] {
      var n := |buckets| - 1;
      RelevantMember(buckets[..n], w, b);
      assert buckets == buckets[..n] + [buckets[n]];
    }
  }

  method FilterRelevantBuckets(buckets: seq<Bucket>, w: Window) returns (relevant: seq<Bucket>)
    ensures SortOf(Relevant(buckets, w), StartOf, relevant)
  {
    relevant := [];
    for i := 0 to |buckets|
      invariant relevant == Relevant(buckets[..i], w)
    {
      assert buckets[..i + 1][..i] == buckets[..i];
      if Overlaps(buckets[i], w) {
        relevant := relevant + [buckets[i]];
      }
    }
    assert buckets[..|buckets|] == buckets;
    relevant := SortFunc(relevant, StartOf);
  }

  ghost function DatasOf(buckets: seq<Bucket>): seq<Data> {
    seq(|buckets|, i requires 0 <= i < |buckets| => buckets[i].data)
  }

  function WithinWindow(w: Window): Point -> bool {
    (p: Point) => w.start <= Of(p.ts) < w.end
  }

  /** What a lookup in a cache slot returns. */
  ghost predicate LooksUp(entry: Option<seq<Bucket>>, w: Window, step: u64, cached: Option<Data>,
                          missing: seq<Window>) {
    match entry
    case None => cached == None && missing == [w]
    case Some(buckets) =>
      && (step > 0 && w.start + step <= w.end && AllOnGrid(buckets, step) ==> MissesExactly(buckets, w, step, missing))
      && ((step == 0 || w.end < w.start + step < MODULUS) && NonEmpty(buckets) ==> ComplementOf(buckets, w, missing))
      && (cached.None? <==> Relevant(buckets, w) == [])
      && (cached.Some? ==> ServesMerged(buckets, w, cached.value))
  }

  /** The merge of the overlapping buckets in some order of their starts, cut down to the window. */
  ghost predicate ServesMerged(buckets: seq<Bucket>, w: Window, d: Data) {
    exists order :: SortOf(Relevant(buckets, w), StartOf, order) && ServesInOrder(order, w, d)
  }

  ghost predicate ServesInOrder(order: seq<Bucket>, w: Window, d: Data) {
    Contents(d) == Kept(MergeAll(DataBlocks(DatasOf(order))), WithinWindow(w))
  }

  function FluxBoundary(now: u64, fluxInterval: u64): u64 {
    Sub(now, fluxInterval)
  }

  method Lookup(entry: Option<seq<Bucket>>, w: Window, step: u64, flux: u64)
    returns (cached: Option<Data>, missing: seq<Window>)
    ensures LooksUp(entry, w, step, cached, missing)
  {
    if entry.None? {
      return None, [w];
    }
    var buckets := entry.value;
    missing := FindMissingRangesWithStep(buckets, w, step, flux);
    if |buckets| == 0 {
      return None, missing;
    }
    var relevant := FilterRelevantBuckets(buckets, w);
    SameMembers(relevant, Relevant(buckets, w));
    if |relevant| == 0 {
      return None, missing;
    }
    var datas := seq(|relevant|, i requires 0 <= i < |relevant| => relevant[i].data);
    var merged := MergeTimeSeriesValues(datas);
    var filtered := KeepInData(merged, WithinWindow(w), true);
    assert datas == DatasOf(relevant);
    assert ServesInOrder(relevant, w, filtered);
    cached := Some(filtered);
  }

  // ---- Store ----

  function Cacheable(bound: u64): Point -> bool {
    (p: Point) => !p.partial && Of(p.ts) <= bound
  }

  method TrimResultToFluxBoundary(result: Result, bound: u64) returns (trimmed: Option<Result>)
    ensures trimmed.None? <==> result.kind in {RawKind, ScalarKind, TraceKind}
    ensures trimmed.Some? ==> trimmed.value.kind == result.kind
    ensures trimmed.Some? ==> (trimmed.value.data.Some? <==> result.kind == TimeSeriesKind && result.data.Some?)
    ensures trimmed.Some? && trimmed.value.data.Some? ==>
              && Contents(trimmed.value.data.value) == Kept(Contents(result.data.value), Cacheable(bound))
              && |trimmed.value.data.value.aggregations| == |result.data.value.aggregations|
  {
    match result.kind
    case TimeSeriesKind =>
      if result.data.Some? {
        var data := KeepInData(result.data.value, Cacheable(bound), false);
        return Some(Result(result.kind, Some(data)));
      }
      return Some(Result(result.kind, None));
    case RawKind => return None;
    case ScalarKind => return None;
    case TraceKind => return None;
    case OtherKind => return Some(Result(result.kind, None));
  }

  /** Whether a result holds no point, and whether it does so although it lists aggregations. */
  method IsEmptyResult(result: Result) returns (isEmpty: bool, isFiltered: bool)
    ensures isEmpty <==> !(result.kind == TimeSeriesKind && result.data.Some? && Contents(result.data.value) != {})
    ensures isFiltered <==>
              && isEmpty && result.kind == TimeSeriesKind
              && result.data.Some? && |result.data.value.aggregations| > 0
  {
    if result.data.Some? {
      NoPointsExactly(result.data.value);
    }
    if result.data.None? || result.kind != TimeSeriesKind {
      return true, false;
    }
    var aggs := result.data.value.aggregations;
    if |aggs| == 0 {
      return true, false;
    }
    var totalSeries := 0;
    for i := 0 to |aggs|
      invariant totalSeries >= 0
      invariant totalSeries == 0 ==> forall k :: 0 <= k < i ==> aggs[k].series == []
    {
      totalSeries := totalSeries + |aggs[i].series|;
    }
    if totalSeries == 0 {
      return true, true;
    }
    var hasValues := exists a, s :: a in aggs && s in a.series && |s.values| > 0;
    return !hasValues, !hasValues && totalSeries > 0;
  }

  lemma NoPointsExactly(d: Data)
    ensures Contents(d) != {} <==> exists a, s :: a in d.aggregations && s in a.series && |s.values| > 0
  {
    if e :| e in Contents(d) {
      ContentsMember(d, e);
    }
    if a, s :| a in d.aggregations && s in a.series && |s.values| > 0 {
      var e := Entry(SeriesId(a.index, s.key), s.values[0]);
      ContentsMember(d, e);
      assert e in Contents(d);
    }
  }

  method ResultToBuckets(result: Result, start: u64, end: u64) returns (buckets: seq<Bucket>)
    ensures result.kind == TimeSeriesKind && result.data.Some? && |result.data.value.aggregations| > 0 ==>
              buckets == [Bucket(start, end, result.data.value)]
    ensures !(result.kind == TimeSeriesKind && result.data.Some? && |result.data.value.aggregations| > 0) ==>
              buckets == []
  {
    var isEmpty, isFiltered := IsEmptyResult(result);
    if isEmpty && !isFiltered {
      return [];
    }
    return [Bucket(start, end, result.data.value)];
  }

  predicate SameRange(a: Bucket, b: Bucket) {
    a.start == b.start && a.end == b.end
  }

  ghost predicate NoRepeatedRange(buckets: seq<Bucket>) {
    forall i, j :: 0 <= i < j < |buckets| ==> !SameRange(buckets[i], buckets[j])
  }

  /** b is the last bucket of the list with its range. */
  ghost predicate LastOfRange(buckets: seq<Bucket>, b: Bucket) {
    exists i :: LastAt(buckets, b, i)
  }

  /** Sorted, one bucket a range, and for each range the last one listed. */
  ghost predicate Deduplicates(buckets: seq<Bucket>, merged: seq<Bucket>) {
    && SortedBy(merged, StartOf)
    && NoRepeatedRange(merged)
    && forall b :: b in merged <==> LastOfRange(buckets, b)
  }

  ghost predicate LastAt(buckets: seq<Bucket>, b: Bucket, i: int) {
    0 <= i < |buckets| && buckets[i] == b && forall j :: i < j < |buckets| ==> !SameRange(buckets[j], b)
  }

  lemma LastOfRangeGrows(buckets: seq<Bucket>, x: Bucket, b: Bucket)
    ensures LastOfRange(buckets + [x], b) <==> b == x || (LastOfRange(buckets, b) && !SameRange(b, x))
  {
    var all := buckets + [x];
    if i :| LastAt(all, b, i) {
      if b != x {
        assert !SameRange(all[|buckets|], b);
        forall j | i < j < |buckets| ensures !SameRange(buckets[j], b) {
          assert all[j] == buckets[j];
        }
        assert LastAt(buckets, b, i);
      }
    }
    if b == x {
      assert LastAt(all, b, |buckets|);
    }
    if i :| LastAt(buckets, b, i) {
      if !SameRange(b, x) {
        assert LastAt(all, b, i);
      }
    }
  }

  method MergeAndDeduplicateBuckets(existing: seq<Bucket>, newer: seq<Bucket>) returns (merged: seq<Bucket>)
    ensures Deduplicates(existing + newer, merged)
  {
    var bucketMap: map<(u64, u64), Bucket> := map[];
    var all := existing + newer;
    for i := 0 to |all|
      invariant forall k :: k in bucketMap ==> k == (bucketMap[k].start, bucketMap[k].end)
      invariant forall b :: LastOfRange(all[..i], b) <==>
                              (b.start, b.end) in bucketMap && bucketMap[(b.start, b.end)] == b
    {
      ghost var before := bucketMap;
      bucketMap := bucketMap[(all[i].start, all[i].end) := all[i]];
      assert all[..i + 1] == all[..i] + [all[i]];
      forall b ensures LastOfRange(all[..i + 1], b) <==>
                         (b.start, b.end) in bucketMap && bucketMap[(b.start, b.end)] == b
      {
        LastOfRangeGrows(all[..i], all[i], b);
      }
    }
    assert all[..|all|] == all;
    var listed := ListBuckets(bucketMap);
    merged := SortFunc(listed, StartOf);
    SameMembers(merged, listed);
    NoRepeatsAfterSorting(listed, merged);
  }

  method ListBuckets(bucketMap: map<(u64, u64), Bucket>) returns (listed: seq<Bucket>)
    requires forall k :: k in bucketMap ==> k == (bucketMap[k].start, bucketMap[k].end)
    ensures NoRepeatedRange(listed)
    ensures forall b :: b in listed <==> (b.start, b.end) in bucketMap && bucketMap[(b.start, b.end)] == b
  {
    listed := [];
    var pending := bucketMap.Keys;
    while pending != {}
      invariant pending <= bucketMap.Keys
      invariant NoRepeatedRange(listed)
      invariant forall b :: b in listed <==>
                  (b.start, b.end) in bucketMap && (b.start, b.end) !in pending && bucketMap[(b.start, b.end)] == b
      decreases |pending|
    {
      var key := PickFrom(pending);
      listed := listed + [bucketMap[key]];
      pending := pending - {key};
    }
  }

  /** Rearranging a list without repeated ranges repeats none. */
  lemma NoRepeatsAfterSorting(xs: seq<Bucket>, ys: seq<Bucket>)
    requires NoRepeatedRange(xs) && multiset(xs) == multiset(ys)
    ensures NoRepeatedRange(ys)
  {
    SameMembers(xs, ys);
    forall i, j | 0 <= i < j < |ys| ensures !SameRange(ys[i], ys[j]) {
      if SameRange(ys[i], ys[j]) {
        assert ys[i] in xs && ys[j] in xs;
        var k :| 0 <= k < |xs| && xs[k] == ys[i];
        var l :| 0 <= l < |xs| && xs[l] == ys[j];
        assert k == l;
        RepeatedElement(ys, i, j);
        MultiplicityOne(xs, k);
      }
    }
  }

  lemma MultiplicityOne(xs: seq<Bucket>, k: int)
    requires NoRepeatedRange(xs) && 0 <= k < |xs|
    ensures multiset(xs)[xs[k]] == 1
  {
    var x := xs[k];
    assert xs == xs[..k] + [x] + xs[k + 1..];
    assert x !in xs[..k] && x !in xs[k + 1..];
  }

  /** The range a store covers: the complete step intervals before the flux boundary. */
  function CacheableRange(w: Window, step: u64, flux: u64): (u64, u64) {
    var end: u64 := Min(w.end, flux);
    if step == 0 then (w.start, end)
    else
      (if w.start % step != 0 then NextMultiple(w.start, step) else w.start,
       if end % step != 0 then PreviousMultiple(end, step) else end)
  }

  /** A bucket made of the cacheable part of a result. */
  ghost predicate StoredFrom(b: Bucket, w: Window, step: u64, flux: u64, d: Data) {
    && (b.start, b.end) == CacheableRange(w, step, flux)
    && Contents(b.data) == Kept(Contents(d), Cacheable(Min(w.end, flux)))
  }

  /** Nothing of the result may be stored at all. */
  predicate NothingToStore(w: Window, step: u64, flux: u64, result: Result) {
    || w.start >= flux
    || result.kind in {RawKind, ScalarKind, TraceKind}
    || (step > 0 && CacheableRange(w, step, flux).0 >= CacheableRange(w, step, flux).1)
  }

  predicate MakesBucket(result: Result) {
    result.kind == TimeSeriesKind && result.data.Some? && |result.data.value.aggregations| > 0
  }

  /** What a store computes from the entry it read: the list to write, if any, and the bucket it adds, if any. */
  ghost predicate UpdatesWith(existing: seq<Bucket>, w: Window, step: u64, flux: u64, result: Result,
                              updated: Option<seq<Bucket>>, added: Option<Bucket>)
  {
    if NothingToStore(w, step, flux, result) || (!MakesBucket(result) && existing == []) then
      updated == None && added == None
    else
      && updated.Some?
      && if !MakesBucket(result) then added == None && Deduplicates(existing, updated.value)
         else
           && added.Some? && StoredFrom(added.value, w, step, flux, result.data.value)
           && Deduplicates(existing + [added.value], updated.value)
  }

  ghost predicate Updates(existing: seq<Bucket>, w: Window, step: u64, flux: u64, result: Result,
                          updated: Option<seq<Bucket>>)
  {
    exists added :: UpdatesWith(existing, w, step, flux, result, updated, added)
  }

  method Update(existing: seq<Bucket>, w: Window, step: u64, flux: u64, result: Result)
    returns (updated: Option<seq<Bucket>>, ghost added: Option<Bucket>)
    ensures UpdatesWith(existing, w, step, flux, result, updated, added)
  {
    if w.start >= flux {
      return None, None;
    }
    var cachableEndMs := w.end;
    if w.end > flux {
      cachableEndMs := flux;
    }
    var trimmed := TrimResultToFluxBoundary(result, cachableEndMs);
    if trimmed.None? {
      return None, None;
    }
    var cachableStartMs := w.start;
    if step > 0 {
      if w.start % step != 0 {
        cachableStartMs := NextMultiple(w.start, step);
      }
      if cachableEndMs % step != 0 {
        cachableEndMs := PreviousMultiple(cachableEndMs, step);
      }
      if cachableStartMs >= cachableEndMs {
        return None, None;
      }
    }
    updated := StoreTrimmed(existing, trimmed.value, cachableStartMs, cachableEndMs);
    added := None;
    if MakesBucket(result) {
      added := Some(Bucket(cachableStartMs, cachableEndMs, trimmed.value.data.value));
    }
  }

  method StoreTrimmed(existing: seq<Bucket>, trimmed: Result, start: u64, end: u64)
    returns (updated: Option<seq<Bucket>>)
    ensures !MakesBucket(trimmed) && existing == [] ==> updated == None
    ensures !MakesBucket(trimmed) && existing != [] ==> updated.Some? && Deduplicates(existing, updated.value)
    ensures MakesBucket(trimmed) ==>
              updated.Some? && Deduplicates(existing + [Bucket(start, end, trimmed.data.value)], updated.value)
  {
    var freshBuckets := ResultToBuckets(trimmed, start, end);
    if |freshBuckets| == 0 && |existing| == 0 {
      return None;
    }
    var merged := MergeAndDeduplicateBuckets(existing, freshBuckets);
    assert existing + [] == existing;
    updated := Some(merged);
  }

  // ---- The cache slot ----

  /** The slot of one fingerprint. It may lose its entry at any time. */
  class BucketCache {
    var entry: Option<seq<Bucket>>
    const fluxInterval: u64

    constructor (fluxInterval: u64)
      ensures entry == None && this.fluxInterval == fluxInterval
    {
      this.entry := None;
      this.fluxInterval := fluxInterval;
    }

    method GetMissRanges(w: Window, step: u64, now: u64) returns (cached: Option<Data>, missing: seq<Window>)
      ensures LooksUp(entry, w, step, cached, missing)
    {
      cached, missing := Lookup(entry, w, step, FluxBoundary(now, fluxInterval));
    }

    /** `written` tells whether the backing store accepted the write; a refusal is only logged. */
    method Put(w: Window, step: u64, now: u64, result: Result, written: bool)
      modifies this
      ensures exists updated ::
                && Updates(EntryBuckets(old(entry)), w, step, FluxBoundary(now, fluxInterval), result, updated)
                && entry == if updated.Some? && written then updated else old(entry)
    {
      var updated, added := Update(EntryBuckets(entry), w, step, FluxBoundary(now, fluxInterval), result);
      if updated.Some? && written {
        entry := updated;
      }
    }

    /** Expiry or eviction. */
    method Forget()
      modifies this
      ensures entry == None
    {
      entry := None;
    }
  }

  /** A missing or unreadable entry counts as an empty list. */
  function EntryBuckets(entry: Option<seq<Bucket>>): seq<Bucket> {
    if entry.Some? then entry.value else []
  }
}
