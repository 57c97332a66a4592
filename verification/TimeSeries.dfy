/** Time series results and what they contain, independently of how series and points are listed. */
module TimeSeries {
  import opened U64

  datatype Point = Point(ts: i64, value: real, partial: bool)

  /** A series under its rendered label key. */
  datatype Series = Series(key: string, values: seq<Point>)

  datatype Aggregation = Aggregation(index: int, series: seq<Series>)

  datatype Data = Data(aggregations: seq<Aggregation>)

  datatype SeriesId = SeriesId(agg: int, key: string)

  datatype Entry = Entry(id: SeriesId, point: Point)

  /** One listed series: the unit in which the merge routines consume their input. */
  datatype Block = Block(id: SeriesId, values: seq<Point>)

  ghost function AggregationBlocks(a: Aggregation): (bs: seq<Block>)
    ensures |bs| == |a.series|
  {
    seq(|a.series|, i requires 0 <= i < |a.series| => Block(SeriesId(a.index, a.series[i].key), a.series[i].values))
  }

  ghost function Blocks(aggs: seq<Aggregation>): seq<Block> {
    if aggs == [] then [] else Blocks(aggs[..|aggs| - 1]) + AggregationBlocks(aggs[|aggs| - 1])
  }

  ghost function DataBlocks(ds: seq<Data>): seq<Block> {
    if ds == [] then [] else DataBlocks(ds[..|ds| - 1]) + Blocks(ds[|ds| - 1].aggregations)
  }

  ghost function BlockEntries(b: Block): set<Entry> {
    set p | p in b.values :: Entry(b.id, p)
  }

  ghost function Entries(blocks: seq<Block>): set<Entry> {
    if blocks == [] then {} else Entries(blocks[..|blocks| - 1]) + BlockEntries(blocks[|blocks| - 1])
  }

  /** Everything a result says: which points it holds for which series. */
  ghost function Contents(d: Data): set<Entry> {
    Entries(Blocks(d.aggregations))
  }

  ghost predicate HasTimestamp(es: set<Entry>, id: SeriesId, ts: int) {
    exists e :: e in es && e.id == id && e.point.ts == ts
  }

  /** All of `left`, and of `right` what falls on a timestamp that `left` lacks for its series. */
  ghost function LeftUnion(left: set<Entry>, right: set<Entry>): set<Entry> {
    left + set e | e in right && !HasTimestamp(left, e.id, e.point.ts)
  }

  /** Listing order decides: for each series and timestamp the first block that has it wins. */
  ghost function MergeAll(blocks: seq<Block>): set<Entry> {
    if blocks == [] then {}
    else LeftUnion(MergeAll(blocks[..|blocks| - 1]), BlockEntries(blocks[|blocks| - 1]))
  }

  /** At most one point for each series and timestamp. */
  ghost predicate SingleValued(es: set<Entry>) {
    forall e, f :: e in es && f in es && e.id == f.id && e.point.ts == f.point.ts ==> e == f
  }

  /** No timestamp repeats. */
  ghost predicate Distinct(ps: seq<Point>) {
    forall i, j :: 0 <= i < j < |ps| ==> ps[i].ts != ps[j].ts
  }

  ghost predicate Increasing(ps: seq<Point>) {
    forall i, j :: 0 <= i < j < |ps| ==> ps[i].ts < ps[j].ts
  }

  ghost predicate DistinctBlocks(blocks: seq<Block>) {
    forall i :: 0 <= i < |blocks| ==> Distinct(blocks[i].values)
  }

  /** Each aggregation listed once, each of its series once. */
  ghost predicate OneSeriesPerKey(d: Data) {
    && (forall i, j :: 0 <= i < j < |d.aggregations| ==> d.aggregations[i].index != d.aggregations[j].index)
    && (forall a, i, j :: a in d.aggregations && 0 <= i < j < |a.series| ==> a.series[i].key != a.series[j].key)
  }

  ghost predicate Chronological(d: Data) {
    forall a, s :: a in d.aggregations && s in a.series ==> Increasing(s.values)
  }

  // ---- Membership ----

  lemma {:induction false} EntriesMember(blocks: seq<Block>, e: Entry)
    ensures e in Entries(blocks) <==>
            exists i :: 0 <= i < |blocks| && blocks[i].id == e.id && e.point in blocks[i].values
  {
    if blocks != [] {
      var n := |blocks| - 1;
      EntriesMember(blocks[..n], e);
      if e in Entries(blocks[..n]) {
        var i :| 0 <= i < n && blocks[..n][i].id == e.id && e.point in blocks[..n][i].values;
        assert blocks[i].id == e.id && e.point in blocks[i].values;
      } else if e in BlockEntries(blocks[n]) {
        assert blocks[n].id == e.id && e.point in blocks[n].values;
      }
      if i :| 0 <= i < |blocks| && blocks[i].id == e.id && e.point in blocks[i].values {
        if i < n {
          assert blocks[..n][i].id == e.id && e.point in blocks[..n][i].values;
        }
      }
    }
  }

  lemma {:induction false} BlocksMember(aggs: seq<Aggregation>, b: Block)
    ensures b in Blocks(aggs) <==>
            exists a, s :: a in aggs && s in a.series && b == Block(SeriesId(a.index, s.key), s.values)
  {
    if aggs != [] {
      var n := |aggs| - 1;
      var last := aggs[n];
      BlocksMember(aggs[..n], b);
      assert aggs == aggs[..n] + [last];
      if b in AggregationBlocks(last) {
        var i :| 0 <= i < |last.series| && AggregationBlocks(last)[i] == b;
        assert last in aggs && last.series[i] in last.series;
      }
      if a, s :| a in aggs && s in a.series && b == Block(SeriesId(a.index, s.key), s.values) {
        if a == last {
          var i :| 0 <= i < |last.series| && last.series[i] == s;
          assert AggregationBlocks(last)[i] == b;
        }
      }
    }
  }

  lemma ContentsMember(d: Data, e: Entry)
    ensures e in Contents(d) <==>
            exists a, s :: a in d.aggregations && s in a.series && e.id == SeriesId(a.index, s.key) &&
                e.point in s.values
  {
    var bs := Blocks(d.aggregations);
    EntriesMember(bs, e);
    if e in Contents(d) {
      var i :| 0 <= i < |bs| && bs[i].id == e.id && e.point in bs[i].values;
      BlocksMember(d.aggregations, bs[i]);
    }
    if a, s :| a in d.aggregations && s in a.series && e.id == SeriesId(a.index, s.key) && e.point in s.values {
      var b := Block(SeriesId(a.index, s.key), s.values);
      BlocksMember(d.aggregations, b);
      var i :| 0 <= i < |bs| && bs[i] == b;
    }
  }

  // ---- The left-biased fold ----

  ghost predicate FirstSeen(blocks: seq<Block>, e: Entry, i: int) {
    && 0 <= i < |blocks| && blocks[i].id == e.id && e.point in blocks[i].values
    && forall j, q :: 0 <= j < i && blocks[j].id == e.id && q in blocks[j].values ==> q.ts != e.point.ts
  }

  /** A merge keeps exactly the points that no earlier block for the same series has a point beside. */
  lemma {:induction false} MergeKeepsFirstSeen(blocks: seq<Block>, e: Entry)
    ensures e in MergeAll(blocks) <==> exists i :: FirstSeen(blocks, e, i)
  {
    if blocks != [] {
      var n := |blocks| - 1;
      var before := blocks[..n];
      MergeKeepsFirstSeen(before, e);
      MergeTimestamps(before, e.id, e.point.ts);
      if i :| FirstSeen(before, e, i) {
        assert FirstSeen(blocks, e, i);
      }
      if e in MergeAll(blocks) && e !in MergeAll(before) {
        forall j, q | 0 <= j < n && blocks[j].id == e.id && q in blocks[j].values ensures q.ts != e.point.ts {
          assert before[j] == blocks[j];
        }
        assert FirstSeen(blocks, e, n);
      }
      if i :| FirstSeen(blocks, e, i) {
        if i < n {
          assert FirstSeen(before, e, i);
        } else {
          assert !HasTimestamp(MergeAll(before), e.id, e.point.ts);
        }
      }
    }
  }

  /** No timestamp is lost or invented by a merge. */
  lemma {:induction false} MergeTimestamps(blocks: seq<Block>, id: SeriesId, ts: int)
    ensures HasTimestamp(MergeAll(blocks), id, ts) <==>
            exists i, p :: 0 <= i < |blocks| && blocks[i].id == id && p in blocks[i].values && p.ts == ts
  {
    if blocks != [] {
      var n := |blocks| - 1;
      var before, last := blocks[..n], blocks[n];
      MergeTimestamps(before, id, ts);
      var merged := MergeAll(blocks);
      if HasTimestamp(merged, id, ts) {
        var e :| e in merged && e.id == id && e.point.ts == ts;
        if e in MergeAll(before) {
          assert HasTimestamp(MergeAll(before), id, ts);
          var i, p :| 0 <= i < n && before[i].id == id && p in before[i].values && p.ts == ts;
          assert blocks[i] == before[i];
        } else {
          assert e in BlockEntries(last);
          assert e.point in blocks[n].values;
        }
      }
      if i, p :| 0 <= i < |blocks| && blocks[i].id == id && p in blocks[i].values && p.ts == ts {
        if i < n {
          assert before[i] == blocks[i];
          var e :| e in MergeAll(before) && e.id == id && e.point.ts == ts;
          assert e in merged;
        } else if !HasTimestamp(MergeAll(before), id, ts) {
          assert Entry(id, p) in BlockEntries(last);
          assert Entry(id, p) in merged;
        } else {
          var e :| e in MergeAll(before) && e.id == id && e.point.ts == ts;
          assert e in merged;
        }
      }
    }
  }

  lemma {:induction false} MergeIsSingleValued(blocks: seq<Block>)
    requires DistinctBlocks(blocks)
    ensures SingleValued(MergeAll(blocks))
  {
    forall e, f | e in MergeAll(blocks) && f in MergeAll(blocks) && e.id == f.id && e.point.ts == f.point.ts
      ensures e == f
    {
      MergeKeepsFirstSeen(blocks, e);
      MergeKeepsFirstSeen(blocks, f);
      var i :| FirstSeen(blocks, e, i);
      var j :| FirstSeen(blocks, f, j);
      assert i == j;
      var k :| 0 <= k < |blocks[i].values| && blocks[i].values[k] == e.point;
      var l :| 0 <= l < |blocks[i].values| && blocks[i].values[l] == f.point;
    }
  }

  lemma MergeSubset(blocks: seq<Block>, e: Entry)
    requires e in MergeAll(blocks)
    ensures e in Entries(blocks)
  {
    MergeKeepsFirstSeen(blocks, e);
    EntriesMember(blocks, e);
  }

  // ---- Concatenation ----

  lemma {:induction false} EntriesConcat(xs: seq<Block>, ys: seq<Block>)
    ensures Entries(xs + ys) == Entries(xs) + Entries(ys)
  {
    if ys == [] {
      assert xs + ys == xs;
    } else {
      var n := |ys| - 1;
      assert (xs + ys)[..|xs + ys| - 1] == xs + ys[..n];
      EntriesConcat(xs, ys[..n]);
    }
  }

  /** Points agreeing on every shared timestamp make the listing order irrelevant. */
  lemma {:induction false} MergeOfAgreeing(blocks: seq<Block>)
    requires SingleValued(Entries(blocks))
    ensures MergeAll(blocks) == Entries(blocks)
  {
    if blocks != [] {
      var n := |blocks| - 1;
      assert Entries(blocks[..n]) <= Entries(blocks);
      MergeOfAgreeing(blocks[..n]);
      assert forall e :: e in Entries(blocks) ==> e in MergeAll(blocks);
    }
  }
}
