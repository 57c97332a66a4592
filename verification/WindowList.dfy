/** Listing rows of a window page by page, slice by slice, instead of sorting the whole window. */
module WindowList {
  import opened U64
  import opened EpochTime
  import opened WindowSlices
  import opened SliceLoop

  const DEFAULT_LIMIT: nat := 10_000

  /** What a statement without a positive limit gets. */
  const FALLBACK_LIMIT: nat := 100

  /** `ts` in nanoseconds. */
  datatype Row = Row(ts: int, id: string)

  /** Rows in the order asked for; rows of one timestamp stand in whatever order the store gives them. */
  ghost predicate Ordered(rows: seq<Row>, ascending: bool) {
    forall i, j :: 0 <= i < j < |rows| ==> if ascending then rows[i].ts <= rows[j].ts else rows[j].ts <= rows[i].ts
  }

  /** The rows with `from` <= ts < `to`. */
  function Between(rows: seq<Row>, from: int, to: int): seq<Row> {
    if rows == [] then []
    else (if from <= rows[0].ts < to then [rows[0]] else []) + Between(rows[1..], from, to)
  }

  /** Rows offset, offset + 1, ..., offset + limit - 1. */
  function Page(rows: seq<Row>, offset: nat, limit: nat): seq<Row> {
    if |rows| <= offset then []
    else if |rows| - offset <= limit then rows[offset..]
    else rows[offset..offset + limit]
  }

  datatype Signal = Logs | Traces

  /** The statement's bounds on a row. For logs a bound of zero is left out; for traces a start of zero wraps in the
      bound on the row's bucket (pkg/telemetrytraces/statement_builder.go:788-791), which then keeps no row. */
  predicate InSlice(ts: int, signal: Signal, from: u64, to: u64) {
    if signal.Logs? then (from == 0 || from <= ts) && (to == 0 || ts < to)
    else from != 0 && from <= ts < to
  }

  function Selected(rows: seq<Row>, signal: Signal, from: u64, to: u64): seq<Row> {
    if rows == [] then []
    else (if InSlice(rows[0].ts, signal, from, to) then [rows[0]] else []) + Selected(rows[1..], signal, from, to)
  }

  /** The statement for one slice: bounds in milliseconds, read as epochs; the first `limit` rows in order. */
  method RunSlice(store: seq<Row>, signal: Signal, fromMS: u64, toMS: u64, limit: int) returns (rows: seq<Row>)
    ensures rows == Page(Selected(store, signal, NanoSeconds(fromMS), NanoSeconds(toMS)), 0,
                         if limit > 0 then limit else FALLBACK_LIMIT)
  {
    var from := ToNanoSecs(fromMS);
    var to := ToNanoSecs(toMS);
    rows := FirstRows(store, signal, from, to, if limit > 0 then limit else FALLBACK_LIMIT);
  }

  method FirstRows(store: seq<Row>, signal: Signal, from: u64, to: u64, allowed: nat) returns (rows: seq<Row>)
    ensures rows == Page(Selected(store, signal, from, to), 0, allowed)
  {
    rows := [];
    var i := 0;
    while i < |store| && |rows| < allowed
      invariant 0 <= i <= |store| && |rows| <= allowed
      invariant rows + Selected(store[i..], signal, from, to) == Selected(store, signal, from, to)
    {
      SelectedStep(store, i, signal, from, to);
      if InSlice(store[i].ts, signal, from, to) {
        rows := rows + [store[i]];
      }
      i := i + 1;
    }
    PageIsPrefix(rows, Selected(store[i..], signal, from, to), allowed);
  }

  lemma SelectedStep(store: seq<Row>, i: nat, signal: Signal, from: u64, to: u64)
    requires i < |store|
    ensures Selected(store[i..], signal, from, to) ==
            (if InSlice(store[i].ts, signal, from, to) then [store[i]] else []) +
            Selected(store[i + 1..], signal, from, to)
  {
    assert store[i..][0] == store[i] && store[i..][1..] == store[i + 1..];
  }

  lemma PageIsPrefix(rows: seq<Row>, more: seq<Row>, limit: nat)
    requires |rows| <= limit && (|rows| < limit ==> more == [])
    ensures Page(rows + more, 0, limit) == rows
  {
  }

  method Reverse(slices: seq<Slice>) returns (reversed: seq<Slice>)
    ensures |reversed| == |slices|
    ensures forall k :: 0 <= k < |slices| ==> reversed[k] == slices[|slices| - 1 - k]
  {
    reversed := slices;
    var i, j := 0, |slices| - 1;
    while i < j
      invariant 0 <= i <= j + 1 && i + j == |slices| - 1 && |reversed| == |slices|
      invariant forall k :: 0 <= k < |slices| && (k < i || j < k) ==> reversed[k] == slices[|slices| - 1 - k]
      invariant forall k :: i <= k <= j ==> reversed[k] == slices[k]
    {
      reversed := reversed[i := reversed[j]][j := reversed[i]];
      i, j := i + 1, j - 1;
    }
  }

  /** Skips what is left of the offset, then appends until the page is full. */
  method TakeRows(raw: seq<Row>, ghost seen: seq<Row>, ghost offset: nat, limit: nat, offsetLeft: nat, rows: seq<Row>)
    returns (left: nat, taken: seq<Row>)
    requires offsetLeft == Max(0, offset - |seen|) && rows == Page(seen, offset, limit) && |rows| < limit
    ensures taken == Page(seen + raw, offset, limit)
    ensures |taken| < limit ==> left == Max(0, offset - |seen + raw|)
  {
    left, taken := offsetLeft, rows;
    for i := 0 to |raw|
      invariant left == Max(0, offset - |seen + raw[..i]|)
      invariant taken == Page(seen + raw[..i], offset, limit) && |taken| < limit
    {
      assert seen + raw[..i + 1] == seen + raw[..i] + [raw[i]];
      PageGrows(seen + raw[..i], raw[i], offset, limit);
      if left > 0 {
        left := left - 1;
        continue;
      }
      taken := taken + [raw[i]];
      if |taken| >= limit {
        FullPageIsFinal(seen + raw[..i + 1], raw[i + 1..], offset, limit);
        assert seen + raw[..i + 1] + raw[i + 1..] == seen + raw;
        break;
      }
    }
    assert raw[..|raw|] == raw;
  }

  lemma PageGrows(rows: seq<Row>, row: Row, offset: nat, limit: nat)
    requires |Page(rows, offset, limit)| < limit
    ensures Page(rows + [row], offset, limit)
         == if |rows| < offset then [] else Page(rows, offset, limit) + [row]
  {
  }

  lemma FullPageIsFinal(rows: seq<Row>, more: seq<Row>, offset: nat, limit: nat)
    requires |Page(rows, offset, limit)| >= limit
    ensures Page(rows + more, offset, limit) == Page(rows, offset, limit)
  {
  }

  /** What the statements of the slices select, one after the other. */
  function Listing(store: seq<Row>, signal: Signal, slices: seq<Slice>): seq<Row> {
    if slices == [] then []
    else Listing(store, signal, slices[..|slices| - 1]) + SliceRows(store, signal, slices[|slices| - 1])
  }

  function SliceRows(store: seq<Row>, signal: Signal, slice: Slice): seq<Row> {
    Selected(store, signal, Reread(slice.from), Reread(slice.to))
  }

  /** Between bounds other than zero both signals select the rows of the range. */
  lemma {:induction false} SelectedIsBetween(rows: seq<Row>, signal: Signal, from: u64, to: u64)
    requires 0 < from && 0 < to
    ensures Selected(rows, signal, from, to) == Between(rows, from, to)
  {
    if rows != [] {
      SelectedIsBetween(rows[1..], signal, from, to);
    }
  }

  predicate IsReverse(slices: seq<Slice>, reversed: seq<Slice>) {
    |reversed| == |slices| && forall k :: 0 <= k < |slices| ==> reversed[k] == slices[|slices| - 1 - k]
  }

  /** The slices of the window, latest first, or the other way round. */
  ghost predicate Visits(visited: seq<Slice>, ascending: bool, start: u64, end: u64) {
    exists slices :: Cuts(slices, start, end) && if ascending then IsReverse(slices, visited) else visited == slices
  }

  /**
   * The rows are the requested page of what the visited slices select, and no statement is issued without a
   * limit. For a window that starts after zero and whose slices do not wrap that is the page of the ordered
   * window, read in whole milliseconds.
   */
  method ExecuteWindowList(store: seq<Row>, signal: Signal, ascending: bool, fromMS: u64, toMS: u64, reqLimit: nat,
                           offset: nat)
    returns (rows: seq<Row>, limits: seq<int>, ghost visited: seq<Slice>)
    requires Cuttable(NanoSeconds(fromMS), NanoSeconds(toMS))
    ensures Visits(visited, ascending, NanoSeconds(fromMS), NanoSeconds(toMS))
    ensures rows == Page(Listing(store, signal, visited), offset, if reqLimit == 0 then DEFAULT_LIMIT else reqLimit)
    ensures forall l :: l in limits ==> l >= 1
    ensures Ordered(store, ascending) && Sliceable(fromMS, toMS) ==>
              rows == Page(WindowRows(store, fromMS, toMS), offset, if reqLimit == 0 then DEFAULT_LIMIT else reqLimit)
  {
    var limit := if reqLimit == 0 then DEFAULT_LIMIT else reqLimit;
    var buckets := MakeBuckets(fromMS, toMS);
    ghost var slices := buckets;
    if ascending {
      buckets := Reverse(buckets);
    }
    visited := buckets;
    rows, limits := PageThrough(store, signal, buckets, limit, offset);
    if Ordered(store, ascending) && Sliceable(fromMS, toMS) {
      ListingIsWindow(store, signal, ascending, fromMS, toMS, slices, visited);
    }
  }

  /** Queries slice by slice for the rows still needed, until the page is full. */
  method PageThrough(store: seq<Row>, signal: Signal, buckets: seq<Slice>, limit: nat, offset: nat)
    returns (rows: seq<Row>, limits: seq<int>)
    requires limit > 0
    ensures rows == Page(Listing(store, signal, buckets), offset, limit)
    ensures forall l :: l in limits ==> l >= 1
  {
    var offsetLeft := offset;
    var need := limit + offsetLeft;
    rows, limits := [], [];
    ghost var seen: seq<Row> := [];
    for k := 0 to |buckets|
      invariant seen == Listing(store, signal, buckets[..k])
      invariant need == limit + offset - |seen| >= 1
      invariant offsetLeft == Max(0, offset - |seen|) && rows == Page(seen, offset, limit)
      invariant forall l :: l in limits ==> l >= 1
    {
      var r := buckets[k];
      limits := limits + [need];
      var raw := RunSlice(store, signal, r.from / MILLISECOND, r.to / MILLISECOND, need);
      ghost var slice := SliceRows(store, signal, r);
      ghost var before := need;
      need := need - |raw|;
      offsetLeft, rows := TakeRows(raw, seen, offset, limit, offsetLeft, rows);
      assert buckets[..k + 1][..k] == buckets[..k];
      if |rows| >= limit {
        FullPageEnds(store, signal, buckets, k, before, offset, limit);
        return;
      }
      NotFull(seen, slice, before, offset, limit);
      seen := seen + slice;
    }
    assert buckets[..|buckets|] == buckets;
  }

  /** If the limited slice fills the page, the whole slice and anything after it fill it the same way. */
  lemma PageOfPrefix(seen: seq<Row>, slice: seq<Row>, need: nat, offset: nat, limit: nat)
    requires need == limit + offset - |seen|
    requires |Page(seen + Page(slice, 0, need), offset, limit)| >= limit
    ensures forall more :: Page(seen + slice + more, offset, limit) == Page(seen + Page(slice, 0, need), offset, limit)
  {
    var raw := Page(slice, 0, need);
    assert slice == raw + slice[|raw|..];
    forall more ensures Page(seen + slice + more, offset, limit) == Page(seen + raw, offset, limit) {
      assert seen + slice + more == seen + raw + (slice[|raw|..] + more);
      FullPageIsFinal(seen + raw, slice[|raw|..] + more, offset, limit);
    }
  }

  /** Then no later slice changes the page. */
  lemma FullPageEnds(store: seq<Row>, signal: Signal, buckets: seq<Slice>, k: nat, need: nat, offset: nat, limit: nat)
    requires k < |buckets|
    requires var seen, slice := Listing(store, signal, buckets[..k]), SliceRows(store, signal, buckets[k]);
             need == limit + offset - |seen| && |Page(seen + Page(slice, 0, need), offset, limit)| >= limit
    ensures var seen, slice := Listing(store, signal, buckets[..k]), SliceRows(store, signal, buckets[k]);
            Page(Listing(store, signal, buckets), offset, limit) == Page(seen + Page(slice, 0, need), offset, limit)
  {
    var seen, slice := Listing(store, signal, buckets[..k]), SliceRows(store, signal, buckets[k]);
    assert buckets[..k + 1][..k] == buckets[..k];
    assert Listing(store, signal, buckets[..k + 1]) == seen + slice;
    ListingIsPrefix(store, signal, buckets, k + 1);
    PageOfPrefix(seen, slice, need, offset, limit);
  }

  /** If it does not, the limit did not cut the slice short. */
  lemma NotFull(seen: seq<Row>, slice: seq<Row>, need: nat, offset: nat, limit: nat)
    requires need == limit + offset - |seen| >= 1
    requires |Page(seen + Page(slice, 0, need), offset, limit)| < limit
    ensures Page(slice, 0, need) == slice && |seen + slice| < limit + offset
  {
  }

  // ---- slices of an ordered listing ----

  /** The window holds each row of the range as often as the store does, and no other row. */
  lemma {:induction false} BetweenCounts(rows: seq<Row>, from: int, to: int, r: Row)
    ensures multiset(Between(rows, from, to))[r] == if from <= r.ts < to then multiset(rows)[r] else 0
  {
    if rows != [] {
      BetweenCounts(rows[1..], from, to, r);
      assert rows == [rows[0]] + rows[1..];
    }
  }

  /** And in the same order. */
  lemma {:induction false} BetweenIsOrdered(rows: seq<Row>, ascending: bool, from: int, to: int)
    requires Ordered(rows, ascending)
    ensures Ordered(Between(rows, from, to), ascending)
  {
    if rows != [] {
      var rest := Between(rows[1..], from, to);
      BetweenIsOrdered(rows[1..], ascending, from, to);
      forall i | 0 <= i < |rest| ensures rest[i] in rows[1..] {
        BetweenCounts(rows[1..], from, to, rest[i]);
        assert rest[i] in multiset(rest);
      }
    }
  }

  /** In an ordered listing the rows of a range are those of its earlier and later part, one after the other. */
  lemma BetweenSplits(rows: seq<Row>, ascending: bool, from: int, mid: int, to: int)
    requires Ordered(rows, ascending) && from <= mid <= to
    ensures Between(rows, from, to)
         == if ascending then Between(rows, from, mid) + Between(rows, mid, to)
            else Between(rows, mid, to) + Between(rows, from, mid)
  {
    if ascending {
      EarlierThenLater(rows, from, mid, to);
    } else {
      LaterThenEarlier(rows, from, mid, to);
    }
  }

  lemma OrderedTail(rows: seq<Row>, ascending: bool)
    requires Ordered(rows, ascending) && rows != []
    ensures Ordered(rows[1..], ascending)
    ensures forall r :: r in rows[1..] ==> if ascending then rows[0].ts <= r.ts else r.ts <= rows[0].ts
  {
  }

  lemma {:induction false} EarlierThenLater(rows: seq<Row>, from: int, mid: int, to: int)
    requires Ordered(rows, true) && from <= mid <= to
    ensures Between(rows, from, to) == Between(rows, from, mid) + Between(rows, mid, to)
  {
    if rows != [] {
      OrderedTail(rows, true);
      EarlierThenLater(rows[1..], from, mid, to);
      if mid <= rows[0].ts {
        NoneBetween(rows[1..], from, mid);
      }
      EarlierStep(rows, from, mid, to);
    }
  }

  lemma EarlierStep(rows: seq<Row>, from: int, mid: int, to: int)
    requires rows != [] && from <= mid <= to
    requires Between(rows[1..], from, to) == Between(rows[1..], from, mid) + Between(rows[1..], mid, to)
    requires mid <= rows[0].ts ==> Between(rows[1..], from, mid) == []
    ensures Between(rows, from, to) == Between(rows, from, mid) + Between(rows, mid, to)
  {
  }

  lemma {:induction false} LaterThenEarlier(rows: seq<Row>, from: int, mid: int, to: int)
    requires Ordered(rows, false) && from <= mid <= to
    ensures Between(rows, from, to) == Between(rows, mid, to) + Between(rows, from, mid)
  {
    if rows != [] {
      OrderedTail(rows, false);
      LaterThenEarlier(rows[1..], from, mid, to);
      if rows[0].ts < mid {
        NoneBetween(rows[1..], mid, to);
      }
      LaterStep(rows, from, mid, to);
    }
  }

  lemma LaterStep(rows: seq<Row>, from: int, mid: int, to: int)
    requires rows != [] && from <= mid <= to
    requires Between(rows[1..], from, to) == Between(rows[1..], mid, to) + Between(rows[1..], from, mid)
    requires rows[0].ts < mid ==> Between(rows[1..], mid, to) == []
    ensures Between(rows, from, to) == Between(rows, mid, to) + Between(rows, from, mid)
  {
  }

  lemma {:induction false} NoneBetween(rows: seq<Row>, from: int, to: int)
    requires forall r :: r in rows ==> !(from <= r.ts < to)
    ensures Between(rows, from, to) == []
  {
    if rows != [] {
      assert rows[0] in rows;
      NoneBetween(rows[1..], from, to);
    }
  }

  /** The rows of the window, in order, with the ends of the window read in whole milliseconds. */
  function WindowRows(store: seq<Row>, fromMS: u64, toMS: u64): seq<Row> {
    Between(store, Floor(NanoSeconds(fromMS), MILLISECOND), Floor(NanoSeconds(toMS), MILLISECOND))
  }

  /** Not empty, starting after zero, and cut without wrap. */
  ghost predicate Sliceable(fromMS: u64, toMS: u64) {
    && 0 < NanoSeconds(fromMS) < NanoSeconds(toMS)
    && (NanoSeconds(toMS) - NanoSeconds(fromMS) <= HOUR || NoWrap(NanoSeconds(fromMS), NanoSeconds(toMS)))
  }

  /** What the slices from the k-th on select. */
  function ListingFrom(store: seq<Row>, signal: Signal, slices: seq<Slice>, k: nat): seq<Row>
    requires k <= |slices|
    decreases |slices|
  {
    if k == |slices| then []
    else ListingFrom(store, signal, slices[..|slices| - 1], k) + SliceRows(store, signal, slices[|slices| - 1])
  }

  lemma {:induction false} ListingIsPrefix(store: seq<Row>, signal: Signal, slices: seq<Slice>, k: nat)
    requires k <= |slices|
    ensures Listing(store, signal, slices) ==
            Listing(store, signal, slices[..k]) + ListingFrom(store, signal, slices, k)
    decreases |slices|
  {
    if k == |slices| {
      assert slices[..k] == slices;
    } else {
      var init := slices[..|slices| - 1];
      var first, rest := Listing(store, signal, slices[..k]), ListingFrom(store, signal, init, k);
      ListingIsPrefix(store, signal, init, k);
      assert init[..k] == slices[..k];
      assert (first + rest) + SliceRows(store, signal, slices[|slices| - 1]) ==
             first + (rest + SliceRows(store, signal, slices[|slices| - 1]));
    }
  }

  /** Ranges that follow one another, each read as a range of its own. */
  ghost predicate Chained(slices: seq<Slice>, ascending: bool) {
    && (forall k :: 0 <= k < |slices| ==> 0 < Reread(slices[k].from) <= Reread(slices[k].to))
    && (forall k :: 0 <= k < |slices| - 1 ==>
          if ascending then slices[k].to == slices[k + 1].from else slices[k].from == slices[k + 1].to)
  }

  /** What they select in turn is what their whole stretch selects. */
  lemma {:induction false} ChainedListing(store: seq<Row>, signal: Signal, slices: seq<Slice>, ascending: bool, k: nat)
    requires Ordered(store, ascending) && Chained(slices, ascending) && 0 < k <= |slices|
    ensures var low, high := if ascending then slices[0].from else slices[k - 1].from,
                             if ascending then slices[k - 1].to else slices[0].to;
            && Reread(low) <= Reread(high)
            && Listing(store, signal, slices[..k]) == Between(store, Reread(low), Reread(high))
  {
    var last := slices[k - 1];
    assert slices[..k][..k - 1] == slices[..k - 1];
    SelectedIsBetween(store, signal, Reread(last.from), Reread(last.to));
    if k == 1 {
      assert slices[..0] == [];
    } else {
      ChainedListing(store, signal, slices, ascending, k - 1);
      if ascending {
        assert slices[k - 2].to == slices[k - 2 + 1].from;
        BetweenSplits(store, true, Reread(slices[0].from), Reread(last.from), Reread(last.to));
      } else {
        assert slices[k - 2].from == slices[k - 2 + 1].to;
        BetweenSplits(store, false, Reread(last.from), Reread(last.to), Reread(slices[0].to));
      }
    }
  }

  lemma SliceIsOrdered(slices: seq<Slice>, start: u64, end: u64, k: nat)
    requires Slices(slices, start, end) && start < end && k < |slices|
    requires Power10(18) <= start && end < Power10(19)
    ensures 0 < Reread(slices[k].from) <= Reread(slices[k].to)
  {
    EndInside(slices, start, end, k);
    if k + 1 < |slices| {
      EndInside(slices, start, end, k + 1);
      assert slices[k].from == slices[k + 1].to;
      SpanGrows(k, k + 1);
    }
    RereadIsFloor(slices[k].from);
    RereadIsFloor(slices[k].to);
    FloorKeepsOrder(slices[k].from, slices[k].to, MILLISECOND);
  }

  lemma FloorKeepsOrder(a: nat, b: nat, step: nat)
    requires a <= b && step > 0
    ensures Floor(a, step) <= Floor(b, step)
  {
    if Floor(b, step) < Floor(a, step) {
      GridGap(Floor(b, step), Floor(a, step), step);
    }
  }

  lemma SliceableEnds(fromMS: u64, toMS: u64)
    requires Sliceable(fromMS, toMS)
    ensures Power10(18) <= NanoSeconds(fromMS) < NanoSeconds(toMS) < Power10(19)
  {
    ScaledToNineteenDigits(fromMS);
    ScaledToNineteenDigits(toMS);
  }

  lemma ListingIsWindow(store: seq<Row>, signal: Signal, ascending: bool, fromMS: u64, toMS: u64, slices: seq<Slice>,
                        visited: seq<Slice>)
    requires Ordered(store, ascending) && Sliceable(fromMS, toMS)
    requires Cuts(slices, NanoSeconds(fromMS), NanoSeconds(toMS))
    requires if ascending then IsReverse(slices, visited) else visited == slices
    ensures Listing(store, signal, visited) == WindowRows(store, fromMS, toMS)
  {
    SliceableEnds(fromMS, toMS);
    CutsIntoSlices(slices, NanoSeconds(fromMS), NanoSeconds(toMS));
    ListingIsRange(store, signal, ascending, NanoSeconds(fromMS), NanoSeconds(toMS), slices, visited);
  }

  lemma ListingIsRange(store: seq<Row>, signal: Signal, ascending: bool, start: u64, end: u64, slices: seq<Slice>,
                       visited: seq<Slice>)
    requires Ordered(store, ascending) && Power10(18) <= start < end < Power10(19) && Slices(slices, start, end)
    requires if ascending then IsReverse(slices, visited) else visited == slices
    ensures Listing(store, signal, visited) == Between(store, Floor(start, MILLISECOND), Floor(end, MILLISECOND))
  {
    VisitedIsChained(slices, start, end, ascending, visited);
    ChainedListing(store, signal, visited, ascending, |visited|);
    assert visited[..|visited|] == visited;
    RereadIsFloor(start);
    RereadIsFloor(end);
  }

  lemma VisitedIsChained(slices: seq<Slice>, start: u64, end: u64, ascending: bool, visited: seq<Slice>)
    requires Slices(slices, start, end) && start < end && Power10(18) <= start && end < Power10(19)
    requires if ascending then IsReverse(slices, visited) else visited == slices
    ensures Chained(visited, ascending) && |visited| > 0
    ensures if ascending then visited[0].from == start && visited[|visited| - 1].to == end
            else visited[|visited| - 1].from == start && visited[0].to == end
  {
    forall k | 0 <= k < |slices| ensures 0 < Reread(slices[k].from) <= Reread(slices[k].to) {
      SliceIsOrdered(slices, start, end, k);
    }
    if ascending {
      forall k | 0 <= k < |visited| - 1 ensures visited[k].to == visited[k + 1].from {
        var i := |slices| - 1 - (k + 1);
        assert slices[i].from == slices[i + 1].to;
      }
    }
  }

  /** With the window given in milliseconds or a coarser unit the whole milliseconds are its own ends. */
  lemma MillisecondWindowIsItself(epoch: u64)
    requires 0 < epoch && Digits(epoch) <= 13
    ensures Floor(NanoSeconds(epoch), MILLISECOND) == NanoSeconds(epoch)
  {
    WholeMilliseconds(epoch);
  }
}
