/** The cache's merge of bucket contents and the querier's merge of cached and fresh results. */
module SeriesMerge {
  import opened Wrappers
  import opened Sorting
  import opened TimeSeries

  ghost function MapEntries(m: map<SeriesId, seq<Point>>): set<Entry> {
    set id, p | id in m && p in m[id] :: Entry(id, p)
  }

  ghost predicate DistinctMap(m: map<SeriesId, seq<Point>>) {
    forall id :: id in m ==> Distinct(m[id])
  }

  // ---- Appending one listed series to what is already collected under its key ----

  method AppendNewTimestamps(existing: seq<Point>, incoming: seq<Point>) returns (merged: seq<Point>)
    ensures existing <= merged
    ensures forall p :: p in merged <==>
              p in existing || (p in incoming && forall q :: q in existing ==> q.ts != p.ts)
    ensures Distinct(existing) && Distinct(incoming) ==> Distinct(merged)
  {
    var timestamps: set<int> := {};
    for i := 0 to |existing|
      invariant forall t :: t in timestamps <==> exists j :: 0 <= j < i && existing[j].ts == t
    {
      timestamps := timestamps + {existing[i].ts};
    }
    assert forall t :: t in timestamps <==> exists q :: q in existing && q.ts == t;
    merged := existing;
    for i := 0 to |incoming|
      invariant existing <= merged
      invariant forall p :: p in merged <==>
                  p in existing || (p in incoming[..i] && p.ts !in timestamps)
      invariant Distinct(existing) && Distinct(incoming) ==> Distinct(merged)
    {
      var p := incoming[i];
      assert incoming[..i + 1] == incoming[..i] + [p];
      if p.ts !in timestamps {
        if Distinct(incoming) {
          forall k | 0 <= k < |merged| ensures merged[k].ts != p.ts {
            if merged[k] !in existing {
              var j :| 0 <= j < i && incoming[..i][j] == merged[k];
              assert incoming[j] == merged[k];
            } else {
              assert merged[k].ts in timestamps;
            }
          }
        }
        merged := merged + [p];
      }
    }
    assert incoming[..|incoming|] == incoming;
  }

  /** The map after one listed series went in under its key. */
  ghost predicate Collects(m: map<SeriesId, seq<Point>>, m': map<SeriesId, seq<Point>>, b: Block) {
    && m'.Keys == m.Keys + {b.id}
    && m' == m[b.id := m'[b.id]]
    && (b.id !in m ==> m'[b.id] == b.values)
    && (b.id in m ==> forall p :: p in m'[b.id] <==>
          p in m[b.id] || (p in b.values && forall q :: q in m[b.id] ==> q.ts != p.ts))
    && (b.id in m && Distinct(m[b.id]) && Distinct(b.values) ==> Distinct(m'[b.id]))
  }

  /** The map holds the merge of the blocks consumed so far. */
  ghost predicate Holds(m: map<SeriesId, seq<Point>>, blocks: seq<Block>) {
    MapEntries(m) == MergeAll(blocks) && (DistinctBlocks(blocks) ==> DistinctMap(m))
  }

  lemma CollectStep(m: map<SeriesId, seq<Point>>, m': map<SeriesId, seq<Point>>, b: Block)
    requires Collects(m, m', b)
    ensures MapEntries(m') == LeftUnion(MapEntries(m), BlockEntries(b))
  {
    var left, right := MapEntries(m), BlockEntries(b);
    forall ts ensures HasTimestamp(left, b.id, ts) <==> b.id in m && exists q :: q in m[b.id] && q.ts == ts {
      if b.id in m {
        if q :| q in m[b.id] && q.ts == ts {
          assert Entry(b.id, q) in left;
        }
      }
    }
    forall e ensures e in MapEntries(m') <==> e in LeftUnion(left, right) {
      if e.id == b.id {
        assert e in right <==> e.point in b.values;
        assert e in left <==> b.id in m && e.point in m[b.id];
        assert e in MapEntries(m') <==> e.point in m'[b.id];
      } else {
        assert e in MapEntries(m') <==> e in left;
      }
    }
  }

  lemma CollectDistinct(m: map<SeriesId, seq<Point>>, m': map<SeriesId, seq<Point>>, b: Block)
    requires Collects(m, m', b) && DistinctMap(m) && Distinct(b.values)
    ensures DistinctMap(m')
  {
    forall id | id in m' ensures Distinct(m'[id]) {
      if id != b.id {
        assert m'[id] == m[id];
      } else if id in m {
        assert Distinct(m[id]);
      }
    }
  }

  lemma DistinctAppend(base: seq<Block>, b: Block)
    requires DistinctBlocks(base + [b])
    ensures DistinctBlocks(base) && Distinct(b.values)
  {
    var all := base + [b];
    forall i | 0 <= i < |base| ensures Distinct(base[i].values) {
      assert all[i] == base[i];
    }
    assert all[|base|] == b;
  }

  /** Collecting one more block is one more step of the left-biased fold. */
  lemma CollectHolds(m: map<SeriesId, seq<Point>>, m': map<SeriesId, seq<Point>>, base: seq<Block>, b: Block)
    requires Holds(m, base) && Collects(m, m', b)
    ensures Holds(m', base + [b])
  {
    assert MapEntries(m') == MergeAll(base + [b]) by {
      CollectStep(m, m', b);
      var all := base + [b];
      assert all[..|all| - 1] == base;
    }
    if DistinctBlocks(base + [b]) {
      DistinctAppend(base, b);
      CollectDistinct(m, m', b);
    }
  }

  // ---- Turning a collected map back into a result ----

  method SortValues(values: seq<Point>) returns (sorted: seq<Point>)
    ensures forall p :: p in sorted <==> p in values
    ensures Distinct(values) ==> Increasing(sorted)
  {
    sorted := SortIfNeeded(values, (p: Point) => p.ts);
    SameMembers(sorted, values);
    if Distinct(values) {
      DistinctSortedIncreases(values, sorted);
    }
  }

  lemma DistinctSortedIncreases(values: seq<Point>, sorted: seq<Point>)
    requires Distinct(values) && SortOf(values, (p: Point) => p.ts, sorted)
    ensures Increasing(sorted)
  {
    SameMembers(values, sorted);
    forall i, j | 0 <= i < j < |sorted| ensures sorted[i].ts < sorted[j].ts {
      var key := (p: Point) => p.ts;
      assert key(sorted[i]) <= key(sorted[j]);
      if sorted[i].ts == sorted[j].ts {
        assert sorted[i] in values && sorted[j] in values;
        var k :| 0 <= k < |values| && values[k] == sorted[i];
        var l :| 0 <= l < |values| && values[l] == sorted[j];
        assert k == l;
        RepeatedElement(sorted, i, j);
        CountedOnce(values, k);
      }
    }
  }

  lemma CountedOnce(values: seq<Point>, k: int)
    requires Distinct(values) && 0 <= k < |values|
    ensures multiset(values)[values[k]] == 1
  {
    var x := values[k];
    assert values == values[..k] + [x] + values[k + 1..];
    assert x !in values[..k] && x !in values[k + 1..];
  }

  /** What `d` says is what the map collected, series by series. */
  ghost predicate Lists(d: Data, m: map<SeriesId, seq<Point>>) {
    && OneSeriesPerKey(d)
    && (forall a, s :: a in d.aggregations && s in a.series ==>
          SeriesId(a.index, s.key) in m && forall p :: p in s.values <==> p in m[SeriesId(a.index, s.key)])
    && (forall id :: id in m ==> exists a, s :: a in d.aggregations && s in a.series && id == SeriesId(a.index, s.key))
  }

  lemma ListsContents(d: Data, m: map<SeriesId, seq<Point>>)
    requires Lists(d, m)
    ensures Contents(d) == MapEntries(m)
  {
    forall e ensures e in Contents(d) <==> e in MapEntries(m) {
      ContentsMember(d, e);
      if e in MapEntries(m) {
        var a, s :| a in d.aggregations && s in a.series && e.id == SeriesId(a.index, s.key);
        assert e.point in s.values;
      }
    }
  }

  // ---- The flat map of the bucket cache ----

  method MergeTimeSeriesValues(datas: seq<Data>) returns (result: Data)
    ensures Contents(result) == MergeAll(DataBlocks(datas))
    ensures OneSeriesPerKey(result)
    ensures DistinctBlocks(DataBlocks(datas)) ==> Chronological(result)
  {
    var seriesMap: map<SeriesId, seq<Point>> := map[];
    for i := 0 to |datas|
      invariant Holds(seriesMap, DataBlocks(datas[..i]))
    {
      ghost var base := DataBlocks(datas[..i]);
      var aggs := datas[i].aggregations;
      assert base + Blocks(aggs[..0]) == base;
      for j := 0 to |aggs|
        invariant Holds(seriesMap, base + Blocks(aggs[..j]))
      {
        seriesMap := CollectAggregation(seriesMap, aggs[j], base + Blocks(aggs[..j]));
        NextAggregation(base, aggs, j);
      }
      assert aggs[..|aggs|] == aggs;
      NextData(datas, i);
    }
    assert datas[..|datas|] == datas;
    var aggMap := GroupByAggregation(seriesMap);
    result := ListAggregations(aggMap);
    ListsContents(result, seriesMap);
  }

  lemma NextBlock(base: seq<Block>, blocks: seq<Block>, k: int)
    requires 0 <= k < |blocks|
    ensures base + blocks[..k + 1] == base + blocks[..k] + [blocks[k]]
  {
  }

  lemma NextAggregation(base: seq<Block>, aggs: seq<Aggregation>, j: int)
    requires 0 <= j < |aggs|
    ensures base + Blocks(aggs[..j + 1]) == base + Blocks(aggs[..j]) + AggregationBlocks(aggs[j])
  {
    assert aggs[..j + 1][..j] == aggs[..j];
  }

  lemma NextData(datas: seq<Data>, i: int)
    requires 0 <= i < |datas|
    ensures DataBlocks(datas[..i + 1]) == DataBlocks(datas[..i]) + Blocks(datas[i].aggregations)
  {
    assert datas[..i + 1][..i] == datas[..i];
  }

  method CollectAggregation(collected: map<SeriesId, seq<Point>>, agg: Aggregation, ghost base: seq<Block>)
    returns (seriesMap: map<SeriesId, seq<Point>>)
    requires Holds(collected, base)
    ensures Holds(seriesMap, base + AggregationBlocks(agg))
  {
    seriesMap := collected;
    ghost var blocks := AggregationBlocks(agg);
    assert base + blocks[..0] == base;
    for k := 0 to |agg.series|
      invariant Holds(seriesMap, base + blocks[..k])
    {
      ghost var before := seriesMap;
      seriesMap := CollectFlat(seriesMap, SeriesId(agg.index, agg.series[k].key), agg.series[k].values);
      CollectHolds(before, seriesMap, base + blocks[..k], blocks[k]);
      NextBlock(base, blocks, k);
    }
    assert blocks[..|blocks|] == blocks;
  }

  method CollectFlat(collected: map<SeriesId, seq<Point>>, id: SeriesId, values: seq<Point>)
    returns (seriesMap: map<SeriesId, seq<Point>>)
    ensures Collects(collected, seriesMap, Block(id, values))
  {
    if id in collected {
      var merged := AppendNewTimestamps(collected[id], values);
      seriesMap := collected[id := merged];
    } else {
      seriesMap := collected[id := values];
    }
  }

  ghost function Flatten(nested: map<int, map<string, seq<Point>>>): map<SeriesId, seq<Point>> {
    map id | id in NestedIds(nested) :: nested[id.agg][id.key]
  }

  ghost function NestedIds(nested: map<int, map<string, seq<Point>>>): (ids: set<SeriesId>)
    ensures forall id :: id in ids <==> id.agg in nested && id.key in nested[id.agg]
  {
    var ids := set a, k | a in nested && k in nested[a] :: SeriesId(a, k);
    assert forall id: SeriesId :: id == SeriesId(id.agg, id.key);
    ids
  }

  lemma FlattenUpdate(nested: map<int, map<string, seq<Point>>>, index: int, key: string, values: seq<Point>)
    requires index in nested
    ensures Flatten(nested[index := nested[index][key := values]]) == Flatten(nested)[SeriesId(index, key) := values]
  {
    var updated := nested[index := nested[index][key := values]];
    assert NestedIds(updated) == NestedIds(nested) + {SeriesId(index, key)};
  }

  lemma FlattenNewAggregation(nested: map<int, map<string, seq<Point>>>, index: int)
    requires index !in nested
    ensures Flatten(nested[index := map[]]) == Flatten(nested)
  {
    var updated := nested[index := map[]];
    forall id ensures id in NestedIds(updated) <==> id in NestedIds(nested) {
    }
    assert NestedIds(updated) == NestedIds(nested);
    forall id | id in NestedIds(nested) ensures updated[id.agg][id.key] == nested[id.agg][id.key] {
    }
  }

  method AddToAggregation(aggMap: map<int, map<string, seq<Point>>>, id: SeriesId, values: seq<Point>)
    returns (grown: map<int, map<string, seq<Point>>>)
    ensures Flatten(grown) == Flatten(aggMap)[id := values]
  {
    grown := aggMap;
    if id.agg !in grown {
      FlattenNewAggregation(grown, id.agg);
      grown := grown[id.agg := map[]];
    }
    FlattenUpdate(grown, id.agg, id.key, values);
    grown := grown[id.agg := grown[id.agg][id.key := values]];
  }

  method GroupByAggregation(seriesMap: map<SeriesId, seq<Point>>)
    returns (aggMap: map<int, map<string, seq<Point>>>)
    ensures Flatten(aggMap) == seriesMap
  {
    aggMap := map[];
    var pending := seriesMap.Keys;
    while pending != {}
      invariant pending <= seriesMap.Keys
      invariant Flatten(aggMap).Keys == seriesMap.Keys - pending
      invariant forall id :: id in Flatten(aggMap) ==> Flatten(aggMap)[id] == seriesMap[id]
      decreases |pending|
    {
      var id := PickFrom(pending);
      aggMap := AddToAggregation(aggMap, id, seriesMap[id]);
      pending := pending - {id};
    }
  }

  /** Map iteration visits the keys in no particular order. */
  method PickFrom<T(==)>(keys: set<T>) returns (key: T)
    requires keys != {}
    ensures key in keys
  {
    key :| key in keys;
  }

  method ListAggregations(nested: map<int, map<string, seq<Point>>>) returns (result: Data)
    ensures Lists(result, Flatten(nested))
    ensures DistinctMap(Flatten(nested)) ==> Chronological(result)
  {
    var pending := nested.Keys;
    var out: seq<Aggregation> := [];
    while pending != {}
      invariant pending <= nested.Keys
      invariant forall index :: index in nested ==> index in pending || HasIndex(out, index)
      invariant forall a :: a in out ==>
          a.index in nested && a.index !in pending && ListsSeries(a.series, nested[a.index])
      invariant forall i, j :: 0 <= i < j < |out| ==> out[i].index != out[j].index
      decreases |pending|
    {
      var index := PickFrom(pending);
      var series := ListSeries(nested[index]);
      ghost var before := out;
      out := out + [Aggregation(index, series)];
      pending := pending - {index};
      IndexAdded(before, Aggregation(index, series));
    }
    result := Data(out);
    ListedSeries(result, nested);
  }

  predicate HasIndex(aggs: seq<Aggregation>, index: int) {
    exists a :: a in aggs && a.index == index
  }

  predicate HasKey(series: seq<Series>, key: string) {
    exists s :: s in series && s.key == key
  }

  lemma IndexAdded(before: seq<Aggregation>, a: Aggregation)
    ensures forall index :: HasIndex(before + [a], index) <==> index == a.index || HasIndex(before, index)
  {
    assert (before + [a])[|before|] == a;
    forall index | HasIndex(before, index) ensures HasIndex(before + [a], index) {
      var b :| b in before && b.index == index;
      assert b in before + [a];
    }
  }

  lemma KeyAdded(before: seq<Series>, s: Series)
    ensures forall key :: HasKey(before + [s], key) <==> key == s.key || HasKey(before, key)
  {
    assert (before + [s])[|before|] == s;
    forall key | HasKey(before, key) ensures HasKey(before + [s], key) {
      var t :| t in before && t.key == key;
      assert t in before + [s];
    }
  }

  /** One series for each key, with the points collected under it. */
  ghost predicate ListsSeries(series: seq<Series>, byKey: map<string, seq<Point>>) {
    && (forall i, j :: 0 <= i < j < |series| ==> series[i].key != series[j].key)
    && (forall s :: s in series ==> s.key in byKey && forall p :: p in s.values <==> p in byKey[s.key])
    && (forall k :: k in byKey ==> HasKey(series, k))
    && (forall s :: s in series && Distinct(byKey[s.key]) ==> Increasing(s.values))
  }

  lemma ListedSeries(d: Data, nested: map<int, map<string, seq<Point>>>)
    requires forall index :: index in nested ==> HasIndex(d.aggregations, index)
    requires forall a :: a in d.aggregations ==> a.index in nested && ListsSeries(a.series, nested[a.index])
    requires forall i, j :: 0 <= i < j < |d.aggregations| ==> d.aggregations[i].index != d.aggregations[j].index
    ensures Lists(d, Flatten(nested))
    ensures DistinctMap(Flatten(nested)) ==> Chronological(d)
  {
    var flat := Flatten(nested);
    forall a, s | a in d.aggregations && s in a.series
      ensures SeriesId(a.index, s.key) in flat
      ensures forall p :: p in s.values <==> p in flat[SeriesId(a.index, s.key)]
      ensures Distinct(flat[SeriesId(a.index, s.key)]) ==> Increasing(s.values)
    {
      CollectedOnce(a, s, nested);
    }
    forall id | id in flat
      ensures exists a, s :: a in d.aggregations && s in a.series && id == SeriesId(a.index, s.key)
    {
      var a, s := ListedUnder(d, nested, id);
    }
  }

  lemma CollectedOnce(a: Aggregation, s: Series, nested: map<int, map<string, seq<Point>>>)
    requires a.index in nested && ListsSeries(a.series, nested[a.index]) && s in a.series
    ensures SeriesId(a.index, s.key) in Flatten(nested)
    ensures forall p :: p in s.values <==> p in Flatten(nested)[SeriesId(a.index, s.key)]
    ensures Distinct(Flatten(nested)[SeriesId(a.index, s.key)]) ==> Increasing(s.values)
  {
    assert Flatten(nested)[SeriesId(a.index, s.key)] == nested[a.index][s.key];
  }

  lemma ListedUnder(d: Data, nested: map<int, map<string, seq<Point>>>, id: SeriesId)
    returns (a: Aggregation, s: Series)
    requires id in Flatten(nested) && HasIndex(d.aggregations, id.agg)
    requires forall b :: b in d.aggregations ==> b.index in nested && ListsSeries(b.series, nested[b.index])
    ensures a in d.aggregations && s in a.series && id == SeriesId(a.index, s.key)
  {
    a :| a in d.aggregations && a.index == id.agg;
    assert HasKey(a.series, id.key);
    s :| s in a.series && s.key == id.key;
  }

  method ListSeries(byKey: map<string, seq<Point>>) returns (series: seq<Series>)
    ensures ListsSeries(series, byKey)
  {
    var pending := byKey.Keys;
    series := [];
    while pending != {}
      invariant pending <= byKey.Keys
      invariant forall s :: s in series ==> s.key !in pending
      invariant forall i, j :: 0 <= i < j < |series| ==> series[i].key != series[j].key
      invariant forall s :: s in series ==> s.key in byKey && forall p :: p in s.values <==> p in byKey[s.key]
      invariant forall k :: k in byKey ==> k in pending || HasKey(series, k)
      invariant forall s :: s in series && Distinct(byKey[s.key]) ==> Increasing(s.values)
      decreases |pending|
    {
      var key := PickFrom(pending);
      var values := SortValues(byKey[key]);
      ghost var before := series;
      series := series + [Series(key, values)];
      pending := pending - {key};
      KeyAdded(before, Series(key, values));
    }
  }

  // ---- The nested map of the querier ----

  /** `cached` (when there is one) is consumed before the fresh results, in their order. */
  ghost function MergeInputs(cached: Option<Data>, newer: seq<Data>): seq<Data> {
    if cached.Some? then [cached.value] + newer else newer
  }

  method MergeTimeSeriesResults(cached: Option<Data>, newer: seq<Data>) returns (result: Data)
    ensures Contents(result) == MergeAll(DataBlocks(MergeInputs(cached, newer)))
    ensures OneSeriesPerKey(result)
    ensures DistinctBlocks(DataBlocks(MergeInputs(cached, newer))) ==> Chronological(result)
  {
    var seriesMap := CollectCached(cached);
    seriesMap := CollectFresh(seriesMap, newer, CachedBlocks(cached));
    CachedThenFresh(cached, newer);
    result := ListAggregations(seriesMap);
    ListsContents(result, Flatten(seriesMap));
  }

  ghost function CachedBlocks(cached: Option<Data>): seq<Block> {
    if cached.Some? then Blocks(cached.value.aggregations) else []
  }

  lemma CachedThenFresh(cached: Option<Data>, newer: seq<Data>)
    ensures CachedBlocks(cached) + DataBlocks(newer) == DataBlocks(MergeInputs(cached, newer))
  {
    if cached.Some? {
      DataBlocksFirst(cached.value, newer);
    }
  }

  method CollectCached(cached: Option<Data>) returns (seriesMap: map<int, map<string, seq<Point>>>)
    ensures Holds(Flatten(seriesMap), CachedBlocks(cached))
  {
    seriesMap := map[];
    NothingCollected();
    if cached.Some? {
      seriesMap := CollectNested(seriesMap, cached.value, []);
      assert [] + Blocks(cached.value.aggregations) == CachedBlocks(cached);
    }
  }

  lemma NothingCollected()
    ensures Holds(Flatten(map[]), [])
  {
    assert NestedIds(map[]) == {};
    assert MapEntries(Flatten(map[])) == {};
  }

  lemma {:induction false} DataBlocksFirst(d: Data, ds: seq<Data>)
    ensures DataBlocks([d] + ds) == Blocks(d.aggregations) + DataBlocks(ds)
  {
    var all := [d] + ds;
    var n := |ds|;
    assert all[|all| - 1] == if n == 0 then d else ds[n - 1];
    if n == 0 {
      assert all[..|all| - 1] == [];
    } else {
      assert all[..|all| - 1] == [d] + ds[..n - 1];
      DataBlocksFirst(d, ds[..n - 1]);
      var init, last := DataBlocks(ds[..n - 1]), Blocks(ds[n - 1].aggregations);
      assert Blocks(d.aggregations) + init + last == Blocks(d.aggregations) + (init + last);
    }
  }

  method CollectFresh(collected: map<int, map<string, seq<Point>>>, newer: seq<Data>, ghost base: seq<Block>)
    returns (seriesMap: map<int, map<string, seq<Point>>>)
    requires Holds(Flatten(collected), base)
    ensures Holds(Flatten(seriesMap), base + DataBlocks(newer))
  {
    seriesMap := collected;
    assert base + DataBlocks(newer[..0]) == base;
    for i := 0 to |newer|
      invariant Holds(Flatten(seriesMap), base + DataBlocks(newer[..i]))
    {
      seriesMap := CollectNested(seriesMap, newer[i], base + DataBlocks(newer[..i]));
      NextData(newer, i);
      assert base + DataBlocks(newer[..i + 1]) == base + DataBlocks(newer[..i]) + Blocks(newer[i].aggregations);
    }
    assert newer[..|newer|] == newer;
  }

  method CollectNested(collected: map<int, map<string, seq<Point>>>, d: Data, ghost base: seq<Block>)
    returns (seriesMap: map<int, map<string, seq<Point>>>)
    requires Holds(Flatten(collected), base)
    ensures Holds(Flatten(seriesMap), base + Blocks(d.aggregations))
  {
    seriesMap := collected;
    var aggs := d.aggregations;
    assert base + Blocks(aggs[..0]) == base;
    for j := 0 to |aggs|
      invariant Holds(Flatten(seriesMap), base + Blocks(aggs[..j]))
    {
      if aggs[j].index !in seriesMap {
        FlattenNewAggregation(seriesMap, aggs[j].index);
        seriesMap := seriesMap[aggs[j].index := map[]];
      }
      seriesMap := CollectNestedSeries(seriesMap, aggs[j], base + Blocks(aggs[..j]));
      NextAggregation(base, aggs, j);
    }
    assert aggs[..|aggs|] == aggs;
  }

  method CollectNestedSeries(collected: map<int, map<string, seq<Point>>>, agg: Aggregation, ghost base: seq<Block>)
    returns (seriesMap: map<int, map<string, seq<Point>>>)
    requires agg.index in collected
    requires Holds(Flatten(collected), base)
    ensures Holds(Flatten(seriesMap), base + AggregationBlocks(agg))
  {
    seriesMap := collected;
    ghost var blocks := AggregationBlocks(agg);
    assert base + blocks[..0] == base;
    for k := 0 to |agg.series|
      invariant agg.index in seriesMap
      invariant Holds(Flatten(seriesMap), base + blocks[..k])
    {
      ghost var before := Flatten(seriesMap);
      seriesMap := CollectInto(seriesMap, agg.index, agg.series[k]);
      CollectHolds(before, Flatten(seriesMap), base + blocks[..k], blocks[k]);
      NextBlock(base, blocks, k);
    }
    assert blocks[..|blocks|] == blocks;
  }

  method CollectInto(collected: map<int, map<string, seq<Point>>>, index: int, series: Series)
    returns (seriesMap: map<int, map<string, seq<Point>>>)
    requires index in collected
    ensures index in seriesMap
    ensures Collects(Flatten(collected), Flatten(seriesMap), Block(SeriesId(index, series.key), series.values))
  {
    var values := series.values;
    if series.key in collected[index] {
      values := AppendNewTimestamps(collected[index][series.key], values);
    }
    FlattenUpdate(collected, index, series.key, values);
    seriesMap := collected[index := collected[index][series.key := values]];
  }
}
