/** Merging the scalar results of several queries into one table. */
module ScalarJoin {
  import opened Wrappers

  /** A cell by its printed text. */
  type Cell = string

  const NA: Cell := "n/a"

  datatype Column = Group(name: string) | Aggregation(query: string, index: int)

  datatype Scalar = Scalar(columns: seq<Column>, rows: seq<seq<Cell>>)

  /** One row of one query's result. */
  datatype Item = Item(query: string, columns: seq<Column>, row: seq<Cell>)

  /** The last group column of that name. */
  function GroupIndex(columns: seq<Column>, name: string): (r: Option<nat>)
    ensures r.Some? ==> r.value < |columns| && columns[r.value] == Group(name)
    ensures r.None? ==> Group(name) !in columns
  {
    if columns == [] then None
    else if columns[|columns| - 1] == Group(name) then Some(|columns| - 1)
    else GroupIndex(columns[..|columns| - 1], name)
  }

  predicate HasIndex(c: Column, index: int) {
    c.Aggregation? && c.index == index
  }

  /** The first aggregation column of that index. */
  function AggregationIndex(columns: seq<Column>, index: int): (r: Option<nat>)
    ensures r.Some? ==> r.value < |columns| && HasIndex(columns[r.value], index)
                        && forall k :: 0 <= k < r.value ==> !HasIndex(columns[k], index)
    ensures r.None? ==> forall c :: c in columns ==> !HasIndex(c, index)
  {
    if columns == [] then None
    else if HasIndex(columns[0], index) then Some(0)
    else
      var rest := AggregationIndex(columns[1..], index);
      if rest.Some? then Some(rest.value + 1) else None
  }

  function CellAt(row: seq<Cell>, index: Option<nat>): Cell {
    if index.Some? && index.value < |row| then row[index.value] else NA
  }

  function KeyOf(columns: seq<Column>, row: seq<Cell>, groups: seq<string>): (key: seq<Cell>)
    ensures |key| == |groups|
  {
    seq(|groups|, i requires 0 <= i < |groups| => CellAt(row, GroupIndex(columns, groups[i])))
  }

  function ItemKey(item: Item, groups: seq<string>): (key: seq<Cell>)
    ensures |key| == |groups|
  {
    KeyOf(item.columns, item.row, groups)
  }

  /** A list of strings as Go prints it: in brackets, separated by blanks. */
  function Join(parts: seq<Cell>): string {
    if parts == [] then "" else if |parts| == 1 then parts[0] else parts[0] + " " + Join(parts[1..])
  }

  function Render(parts: seq<Cell>): string {
    "[" + Join(parts) + "]"
  }

  function RenderedKey(item: Item, groups: seq<string>): string {
    Render(ItemKey(item, groups))
  }

  // ---- when printing tells keys apart ----

  predicate BlankFree(parts: seq<Cell>) {
    forall p :: p in parts ==> ' ' !in p
  }

  /** Without blanks in the cells, lists of one length are printed differently. */
  lemma {:induction false} BlankFreeKeysDiffer(xs: seq<Cell>, ys: seq<Cell>)
    requires |xs| == |ys| && BlankFree(xs) && BlankFree(ys) && Join(xs) == Join(ys)
    ensures xs == ys
  {
    if |xs| >= 2 {
      FirstBlank(xs[0], Join(xs[1..]), ys[0], Join(ys[1..]));
      BlankFreeKeysDiffer(xs[1..], ys[1..]);
      assert xs == [xs[0]] + xs[1..] && ys == [ys[0]] + ys[1..];
    }
  }

  lemma FirstBlank(a: string, b: string, c: string, d: string)
    requires ' ' !in a && ' ' !in c && a + " " + b == c + " " + d
    ensures a == c && b == d
  {
    var s := a + " " + b;
    assert s[|a|] == ' ' && s[|c|] == ' ';
    assert forall i :: 0 <= i < |a| ==> s[i] == a[i];
    assert forall i :: 0 <= i < |c| ==> s[i] == c[i];
    assert |a| == |c|;
    assert a == s[..|a|] == c;
    assert b == s[|a| + 1..] == d;
  }

  lemma RenderIsJoin(xs: seq<Cell>, ys: seq<Cell>)
    ensures Render(xs) == Render(ys) <==> Join(xs) == Join(ys)
  {
    assert Join(xs) == Render(xs)[1..|Render(xs)| - 1];
    assert Join(ys) == Render(ys)[1..|Render(ys)| - 1];
  }

  /** With blanks, different keys can be printed alike. */
  lemma BlanksCollide()
    ensures Render(["a b", "c"]) == Render(["a", "b c"]) && ["a b", "c"] != ["a", "b c"]
  {
    assert ["a b", "c"][0] != ["a", "b c"][0];
    assert Join(["a b", "c"]) == "a b" + " " + Join(["c"]) == "a b c";
    assert Join(["a", "b c"]) == "a" + " " + Join(["b c"]) == "a b c";
  }

  // ---- columns ----

  ghost predicate Enumerates(names: seq<string>, results: map<string, Scalar>) {
    && (forall q :: q in names <==> q in results)
    && (forall i, j :: 0 <= i < j < |names| ==> names[i] != names[j])
  }

  ghost predicate HasGroup(results: map<string, Scalar>, names: seq<string>, name: string) {
    exists q :: q in names && q in results && Group(name) in results[q].columns
  }

  /** `iteration` is the arbitrary order in which the map is walked. */
  method CollectGroups(results: map<string, Scalar>, iteration: seq<string>) returns (groups: seq<string>)
    requires forall q :: q in iteration ==> q in results
    ensures forall name :: name in groups <==> HasGroup(results, iteration, name)
    ensures forall i, j :: 0 <= i < j < |groups| ==> groups[i] != groups[j]
  {
    groups := [];
    for i := 0 to |iteration|
      invariant forall name :: name in groups <==> HasGroup(results, iteration[..i], name)
      invariant forall i, j :: 0 <= i < j < |groups| ==> groups[i] != groups[j]
    {
      var columns := results[iteration[i]].columns;
      ghost var before := groups;
      for c := 0 to |columns|
        invariant forall name :: name in groups <==> name in before || Group(name) in columns[..c]
        invariant forall i, j :: 0 <= i < j < |groups| ==> groups[i] != groups[j]
      {
        assert columns[..c + 1] == columns[..c] + [columns[c]];
        if columns[c].Group? && columns[c].name !in groups {
          groups := groups + [columns[c].name];
        }
      }
      assert columns[..|columns|] == columns;
      assert iteration[..i + 1] == iteration[..i] + [iteration[i]];
      forall name ensures HasGroup(results, iteration[..i + 1], name)
                     <==> HasGroup(results, iteration[..i], name) || Group(name) in columns {
        if HasGroup(results, iteration[..i], name) {
          var q :| q in iteration[..i] && q in results && Group(name) in results[q].columns;
          assert q in iteration[..i + 1];
        }
        if Group(name) in columns {
          assert iteration[i] in iteration[..i + 1];
        }
      }
    }
    assert iteration[..|iteration|] == iteration;
  }

  function AggregationsOf(columns: seq<Column>): seq<Column> {
    if columns == [] then []
    else AggregationsOf(columns[..|columns| - 1])
         + if columns[|columns| - 1].Aggregation? then [columns[|columns| - 1]] else []
  }

  /** The aggregation columns of all queries, query by query. */
  function AllAggregations(results: map<string, Scalar>, names: seq<string>): seq<Column>
    requires forall q :: q in names ==> q in results
  {
    if names == [] then []
    else AllAggregations(results, names[..|names| - 1]) + AggregationsOf(results[names[|names| - 1]].columns)
  }

  method CollectAggregations(results: map<string, Scalar>, names: seq<string>) returns (aggregations: seq<Column>)
    requires forall q :: q in names ==> q in results
    ensures aggregations == AllAggregations(results, names)
  {
    aggregations := [];
    for i := 0 to |names|
      invariant aggregations == AllAggregations(results, names[..i])
    {
      assert names[..i + 1][..i] == names[..i];
      var columns := results[names[i]].columns;
      ghost var before := aggregations;
      for c := 0 to |columns|
        invariant aggregations == before + AggregationsOf(columns[..c])
      {
        assert columns[..c + 1][..c] == columns[..c];
        if columns[c].Aggregation? {
          aggregations := aggregations + [columns[c]];
        }
      }
      assert columns[..|columns|] == columns;
    }
    assert names[..|names|] == names;
  }

  lemma {:induction false} AggregationsMember(columns: seq<Column>)
    ensures forall c :: c in AggregationsOf(columns) <==> c in columns && c.Aggregation?
  {
    if columns != [] {
      AggregationsMember(columns[..|columns| - 1]);
      assert columns == columns[..|columns| - 1] + [columns[|columns| - 1]];
    }
  }

  lemma {:induction false} AllAggregationsMember(results: map<string, Scalar>, names: seq<string>)
    requires forall q :: q in names ==> q in results
    ensures forall c :: c in AllAggregations(results, names)
                   <==> c.Aggregation? && exists q :: q in names && c in results[q].columns
  {
    if names != [] {
      var n := |names| - 1;
      AllAggregationsMember(results, names[..n]);
      AggregationsMember(results[names[n]].columns);
      assert names == names[..n] + [names[n]];
    }
  }

  // ---- rows ----

  function RowItems(query: string, columns: seq<Column>, rows: seq<seq<Cell>>): (items: seq<Item>)
    ensures |items| == |rows|
  {
    seq(|rows|, i requires 0 <= i < |rows| => Item(query, columns, rows[i]))
  }

  /** All rows of all queries, query by query. */
  function Items(results: map<string, Scalar>, names: seq<string>): seq<Item>
    requires forall q :: q in names ==> q in results
  {
    if names == [] then []
    else
      var q := names[|names| - 1];
      Items(results, names[..|names| - 1]) + RowItems(q, results[q].columns, results[q].rows)
  }

  /** What the row writes into the merged column, if anything. */
  function Written(item: Item, column: Column): Option<Cell> {
    if column.Aggregation? && column.query == item.query then
      var index := AggregationIndex(item.columns, column.index);
      if index.Some? && index.value < |item.row| then Some(item.row[index.value]) else None
    else None
  }

  /** The last value written under the printed key. */
  ghost function LastWritten(items: seq<Item>, groups: seq<string>, key: string, column: Column): Cell {
    if items == [] then NA
    else
      var last := items[|items| - 1];
      if RenderedKey(last, groups) == key && Written(last, column).Some? then Written(last, column).value
      else LastWritten(items[..|items| - 1], groups, key, column)
  }

  /** The group cells that stand in the row of a printed key: those of the first row with that key. */
  ghost predicate FirstWithKey(items: seq<Item>, groups: seq<string>, key: string, cells: seq<Cell>) {
    exists i :: && 0 <= i < |items| && RenderedKey(items[i], groups) == key
                && ItemKey(items[i], groups) == cells
                && forall j :: 0 <= j < i ==> RenderedKey(items[j], groups) != key
  }

  ghost predicate MergedRow(items: seq<Item>, groups: seq<string>, columns: seq<Column>, key: string, row: seq<Cell>) {
    && |groups| <= |columns| == |row|
    && FirstWithKey(items, groups, key, row[..|groups|])
    && forall c :: |groups| <= c < |columns| ==> row[c] == LastWritten(items, groups, key, columns[c])
  }

  /** The printed keys in the order in which they are first met. */
  ghost function KeyOrder(items: seq<Item>, groups: seq<string>): seq<string> {
    if items == [] then []
    else
      var earlier := KeyOrder(items[..|items| - 1], groups);
      var key := RenderedKey(items[|items| - 1], groups);
      if key in earlier then earlier else earlier + [key]
  }

  lemma {:induction false} KeyOrderListsEachOnce(items: seq<Item>, groups: seq<string>)
    ensures forall i, j :: 0 <= i < j < |KeyOrder(items, groups)| ==>
            KeyOrder(items, groups)[i] != KeyOrder(items, groups)[j]
    ensures forall k :: k in KeyOrder(items, groups) <==>
            exists i :: 0 <= i < |items| && RenderedKey(items[i], groups) == k
  {
    if items != [] {
      var n := |items| - 1;
      KeyOrderListsEachOnce(items[..n], groups);
      forall k ensures k in KeyOrder(items, groups) <==>
          exists i :: 0 <= i < |items| && RenderedKey(items[i], groups) == k {
        if k in KeyOrder(items[..n], groups) {
          var i :| 0 <= i < n && RenderedKey(items[..n][i], groups) == k;
          assert RenderedKey(items[i], groups) == k;
        }
        if i :| 0 <= i < |items| && RenderedKey(items[i], groups) == k {
          if i < n {
            assert items[..n][i] == items[i];
          }
        }
      }
    }
  }

  /** One row for each printed key. */
  ghost predicate Merged(items: seq<Item>, groups: seq<string>, columns: seq<Column>, keys: seq<string>,
                         rows: map<string, seq<Cell>>) {
    && keys == KeyOrder(items, groups)
    && (forall k :: k in keys <==> k in rows)
    && (forall k :: k in rows ==> MergedRow(items, groups, columns, k, rows[k]))
  }

  method MergeScalarData(results: map<string, Scalar>, iteration: seq<string>, names: seq<string>)
    returns (groups: seq<string>, columns: seq<Column>, keys: seq<string>, data: seq<seq<Cell>>)
    requires Enumerates(iteration, results) && Enumerates(names, results)
    ensures forall name :: name in groups <==> HasGroup(results, iteration, name)
    ensures forall i, j :: 0 <= i < j < |groups| ==> groups[i] != groups[j]
    ensures columns == GroupColumns(groups) + AllAggregations(results, names)
    ensures IsMerged(Items(results, names), groups, columns, keys, data)
  {
    groups := CollectGroups(results, iteration);
    var aggregations := CollectAggregations(results, names);
    columns := GroupColumns(groups) + aggregations;
    var rowMap: map<string, seq<Cell>>;
    keys, rowMap := MergeAllRows(results, names, groups, columns);
    data := ListRows(keys, rowMap);
    forall i | 0 <= i < |keys| ensures keys[i] in rowMap {
      assert keys[i] in keys;
    }
  }

  method ListRows(keys: seq<string>, rowMap: map<string, seq<Cell>>) returns (data: seq<seq<Cell>>)
    requires forall k :: k in keys ==> k in rowMap
    ensures |data| == |keys| && forall i :: 0 <= i < |keys| ==> data[i] == rowMap[keys[i]]
  {
    data := [];
    for k := 0 to |keys|
      invariant |data| == k && forall j :: 0 <= j < k ==> data[j] == rowMap[keys[j]]
    {
      data := data + [rowMap[keys[k]]];
    }
  }

  method MergeAllRows(results: map<string, Scalar>, names: seq<string>, groups: seq<string>, columns: seq<Column>)
    returns (keys: seq<string>, rowMap: map<string, seq<Cell>>)
    requires |groups| <= |columns| && forall q :: q in names ==> q in results
    ensures Merged(Items(results, names), groups, columns, keys, rowMap)
  {
    keys, rowMap := [], map[];
    ghost var items: seq<Item> := [];
    for i := 0 to |names|
      invariant items == Items(results, names[..i])
      invariant Merged(items, groups, columns, keys, rowMap)
    {
      assert names[..i + 1][..i] == names[..i];
      var sd := results[names[i]];
      keys, rowMap := MergeRows(items, names[i], sd, groups, columns, keys, rowMap);
      items := items + RowItems(names[i], sd.columns, sd.rows);
    }
    assert names[..|names|] == names;
  }

  function GroupColumns(groups: seq<string>): (columns: seq<Column>)
    ensures |columns| == |groups|
  {
    seq(|groups|, i requires 0 <= i < |groups| => Group(groups[i]))
  }

  /** The table: one row for each printed key. */
  ghost predicate IsMerged(items: seq<Item>, groups: seq<string>, columns: seq<Column>, keys: seq<string>,
                           data: seq<seq<Cell>>) {
    && keys == KeyOrder(items, groups) && |data| == |keys|
    && (forall i :: 0 <= i < |data| ==> MergedRow(items, groups, columns, keys[i], data[i]))
  }

  method MergeRows(ghost items: seq<Item>, query: string, sd: Scalar, groups: seq<string>, columns: seq<Column>,
                   keys: seq<string>, rowMap: map<string, seq<Cell>>)
    returns (newKeys: seq<string>, newMap: map<string, seq<Cell>>)
    requires |groups| <= |columns| && Merged(items, groups, columns, keys, rowMap)
    ensures Merged(items + RowItems(query, sd.columns, sd.rows), groups, columns, newKeys, newMap)
  {
    newKeys, newMap := keys, rowMap;
    ghost var added := RowItems(query, sd.columns, sd.rows);
    ghost var seen := items;
    for r := 0 to |sd.rows|
      invariant seen == items + added[..r]
      invariant Merged(seen, groups, columns, newKeys, newMap)
    {
      var item := Item(query, sd.columns, sd.rows[r]);
      newKeys, newMap := MergeRow(seen, item, groups, columns, newKeys, newMap);
      RowsSoFar(items, added, r);
      seen := seen + [item];
    }
    assert added[..|sd.rows|] == added;
  }

  lemma RowsSoFar(items: seq<Item>, added: seq<Item>, r: nat)
    requires r < |added|
    ensures items + added[..r] + [added[r]] == items + added[..r + 1]
  {
  }

  /** Starts a row of "n/a" for a new key, then writes the query's aggregation values over it. */
  method MergeRow(ghost items: seq<Item>, item: Item, groups: seq<string>, columns: seq<Column>, keys: seq<string>,
                  rowMap: map<string, seq<Cell>>)
    returns (newKeys: seq<string>, newMap: map<string, seq<Cell>>)
    requires |groups| <= |columns| && Merged(items, groups, columns, keys, rowMap)
    ensures Merged(items + [item], groups, columns, newKeys, newMap)
  {
    var key := RenderedKey(item, groups);
    newKeys, newMap := keys, rowMap;
    KeyOrderListsEachOnce(items, groups);
    if key !in newMap {
      var newRow := KeyOf(item.columns, item.row, groups) + seq(|columns| - |groups|, _ => NA);
      newMap := newMap[key := newRow];
      newKeys := newKeys + [key];
    }
    ghost var started := newMap[key];
    var mergedRow := WriteAggregations(item, |groups|, columns, newMap[key]);
    newMap := newMap[key := mergedRow];
    ghost var all := items + [item];
    forall k | k in newMap ensures MergedRow(all, groups, columns, k, newMap[k]) {
      if k == key {
        if key !in rowMap {
          FirstRow(items, item, groups, columns, started);
        }
        RowUpdated(items, item, groups, columns, started, mergedRow);
      } else {
        RowKept(items, item, groups, columns, k, rowMap[k]);
      }
    }
    assert all[..|items|] == items;
  }

  method WriteAggregations(item: Item, first: nat, columns: seq<Column>,
                           started: seq<Cell>)
    returns (mergedRow: seq<Cell>)
    requires first <= |columns| == |started|
    ensures |mergedRow| == |columns| && mergedRow[..first] == started[..first]
    ensures forall k :: first <= k < |columns| ==>
              mergedRow[k] == if Written(item, columns[k]).Some? then Written(item, columns[k]).value else started[k]
  {
    mergedRow := started;
    for c := first to |columns|
      invariant |mergedRow| == |columns|
      invariant forall k :: 0 <= k < first || c <= k < |columns| ==> mergedRow[k] == started[k]
      invariant forall k :: first <= k < c ==>
                  mergedRow[k] == if Written(item, columns[k]).Some? then Written(item, columns[k]).value
                                  else started[k]
    {
      var col := columns[c];
      if col.Aggregation? && col.query == item.query {
        var j := 0;
        while j < |item.columns|
          invariant 0 <= j <= |item.columns|
          invariant forall k :: 0 <= k < j ==> !HasIndex(item.columns[k], col.index)
        {
          if HasIndex(item.columns[j], col.index) {
            if j < |item.row| {
              mergedRow := mergedRow[c := item.row[j]];
            }
            break;
          }
          j := j + 1;
        }
      }
    }
  }

  /** A row that starts out: the group cells are the new item's, no aggregation has been written. */
  ghost predicate Started(items: seq<Item>, item: Item, groups: seq<string>, columns: seq<Column>, started: seq<Cell>) {
    && |groups| <= |columns| == |started|
    && FirstWithKey(items + [item], groups, RenderedKey(item, groups), started[..|groups|])
    && forall c :: |groups| <= c < |columns| ==>
        started[c] == LastWritten(items, groups, RenderedKey(item, groups), columns[c])
  }

  lemma FirstRow(items: seq<Item>, item: Item, groups: seq<string>, columns: seq<Column>, started: seq<Cell>)
    requires |groups| <= |columns|
    requires forall i :: 0 <= i < |items| ==> RenderedKey(items[i], groups) != RenderedKey(item, groups)
    requires started == KeyOf(item.columns, item.row, groups) + seq(|columns| - |groups|, _ => NA)
    ensures Started(items, item, groups, columns, started)
  {
    var all, key := items + [item], RenderedKey(item, groups);
    assert started[..|groups|] == ItemKey(item, groups);
    assert all[|items|] == item;
    assert forall j :: 0 <= j < |items| ==> all[j] == items[j];
    forall c | |groups| <= c < |columns| ensures started[c] == LastWritten(items, groups, key, columns[c]) {
      NothingWritten(items, groups, key, columns[c]);
    }
  }

  lemma {:induction false} NothingWritten(items: seq<Item>, groups: seq<string>, key: string, column: Column)
    requires forall i :: 0 <= i < |items| ==> RenderedKey(items[i], groups) != key || Written(items[i], column).None?
    ensures LastWritten(items, groups, key, column) == NA
  {
    if items != [] {
      NothingWritten(items[..|items| - 1], groups, key, column);
    }
  }

  lemma FirstStays(items: seq<Item>, item: Item, groups: seq<string>, key: string, cells: seq<Cell>)
    requires FirstWithKey(items, groups, key, cells)
    ensures FirstWithKey(items + [item], groups, key, cells)
  {
    var all := items + [item];
    var i :| && 0 <= i < |items| && RenderedKey(items[i], groups) == key
             && ItemKey(items[i], groups) == cells
             && forall j :: 0 <= j < i ==> RenderedKey(items[j], groups) != key;
    assert all[i] == items[i];
    assert forall j :: 0 <= j < i ==> all[j] == items[j];
  }

  lemma RowKept(items: seq<Item>, item: Item, groups: seq<string>, columns: seq<Column>, key: string, row: seq<Cell>)
    requires MergedRow(items, groups, columns, key, row) && key != RenderedKey(item, groups)
    ensures MergedRow(items + [item], groups, columns, key, row)
  {
    FirstStays(items, item, groups, key, row[..|groups|]);
    assert (items + [item])[..|items|] == items;
  }

  lemma RowUpdated(items: seq<Item>, item: Item, groups: seq<string>, columns: seq<Column>, started: seq<Cell>,
                   row: seq<Cell>)
    requires var key := RenderedKey(item, groups);
             MergedRow(items, groups, columns, key, started) || Started(items, item, groups, columns, started)
    requires |row| == |columns| && row[..|groups|] == started[..|groups|]
    requires forall k :: |groups| <= k < |columns| ==>
               row[k] == if Written(item, columns[k]).Some? then Written(item, columns[k]).value else started[k]
    ensures MergedRow(items + [item], groups, columns, RenderedKey(item, groups), row)
  {
    var key := RenderedKey(item, groups);
    if MergedRow(items, groups, columns, key, started) {
      FirstStays(items, item, groups, key, started[..|groups|]);
    }
    assert (items + [item])[..|items|] == items;
  }

  // ---- the full outer join ----

  /** Keys that are printed alike are alike. */
  ghost predicate Distinguishable(items: seq<Item>, groups: seq<string>) {
    forall i, j :: 0 <= i < |items| && 0 <= j < |items| &&
        RenderedKey(items[i], groups) == RenderedKey(items[j], groups)
      ==> ItemKey(items[i], groups) == ItemKey(items[j], groups)
  }

  ghost predicate HasKey(item: Item, groups: seq<string>, row: seq<Cell>)
    requires |groups| <= |row|
  {
    ItemKey(item, groups) == row[..|groups|]
  }

  /** Each query has at most one row for a key. */
  ghost predicate OneRowPerKey(items: seq<Item>, groups: seq<string>) {
    forall i, j :: 0 <= i < j < |items| && items[i].query == items[j].query
      ==> ItemKey(items[i], groups) != ItemKey(items[j], groups)
  }

  ghost predicate UniqueIndices(columns: seq<Column>) {
    forall i, j :: 0 <= i < j < |columns| && columns[i].Aggregation? && columns[j].Aggregation?
      ==> columns[i].index != columns[j].index
  }

  lemma RowOfKey(items: seq<Item>, groups: seq<string>, columns: seq<Column>, keys: seq<string>, data: seq<seq<Cell>>,
                 i: nat)
    returns (r: nat)
    requires IsMerged(items, groups, columns, keys, data) && i < |items|
    ensures r < |data| && keys[r] == RenderedKey(items[i], groups)
  {
    KeyOrderListsEachOnce(items, groups);
    assert RenderedKey(items[i], groups) in keys;
    r :| 0 <= r < |keys| && keys[r] == RenderedKey(items[i], groups);
  }

  /** The group cells of a row are printed as its key. */
  lemma GroupCellsPrintAsKey(items: seq<Item>, groups: seq<string>, columns: seq<Column>, key: string, row: seq<Cell>)
    requires MergedRow(items, groups, columns, key, row)
    ensures Render(row[..|groups|]) == key
    ensures exists i :: 0 <= i < |items| && HasKey(items[i], groups, row)
  {
    var i :| && 0 <= i < |items| && RenderedKey(items[i], groups) == key
             && ItemKey(items[i], groups) == row[..|groups|]
             && forall j :: 0 <= j < i ==> RenderedKey(items[j], groups) != key;
    assert HasKey(items[i], groups, row);
  }

  /** No row of the table is invented, and no two have the same group cells, however keys are printed. */
  lemma RowsAreDistinctKeys(items: seq<Item>, groups: seq<string>, columns: seq<Column>, keys: seq<string>,
                            data: seq<seq<Cell>>)
    requires IsMerged(items, groups, columns, keys, data)
    ensures forall r :: 0 <= r < |data| ==>
            |data[r]| == |columns| && exists i :: 0 <= i < |items| && HasKey(items[i], groups, data[r])
    ensures forall r, s :: 0 <= r < s < |data| ==> data[r][..|groups|] != data[s][..|groups|]
  {
    KeyOrderListsEachOnce(items, groups);
    forall r | 0 <= r < |data|
      ensures Render(data[r][..|groups|]) == keys[r]
      ensures exists i :: 0 <= i < |items| && HasKey(items[i], groups, data[r])
    {
      GroupCellsPrintAsKey(items, groups, columns, keys[r], data[r]);
    }
  }

  /** Every key of every query gets its row exactly when printing tells the keys apart. */
  lemma NoKeyIsLostExactly(items: seq<Item>, groups: seq<string>, columns: seq<Column>, keys: seq<string>,
                           data: seq<seq<Cell>>)
    requires IsMerged(items, groups, columns, keys, data)
    ensures Distinguishable(items, groups)
       <==> forall i :: 0 <= i < |items| ==> HasRow(items[i], groups, columns, data)
  {
    if Distinguishable(items, groups) {
      forall i | 0 <= i < |items| ensures HasRow(items[i], groups, columns, data) {
        var r := RowOfKey(items, groups, columns, keys, data, i);
        SameKey(items, groups, columns, keys[r], data[r], i);
      }
    }
    if forall i :: 0 <= i < |items| ==> HasRow(items[i], groups, columns, data) {
      KeyOrderListsEachOnce(items, groups);
      forall i, j | 0 <= i < |items| && 0 <= j < |items| &&
          RenderedKey(items[i], groups) == RenderedKey(items[j], groups)
        ensures ItemKey(items[i], groups) == ItemKey(items[j], groups)
      {
        assert HasRow(items[i], groups, columns, data) && HasRow(items[j], groups, columns, data);
        var r :| 0 <= r < |data| && |groups| <= |data[r]| && HasKey(items[i], groups, data[r]);
        var s :| 0 <= s < |data| && |groups| <= |data[s]| && HasKey(items[j], groups, data[s]);
        GroupCellsPrintAsKey(items, groups, columns, keys[r], data[r]);
        GroupCellsPrintAsKey(items, groups, columns, keys[s], data[s]);
        assert keys[r] == keys[s];
      }
    }
  }

  ghost predicate HasRow(item: Item, groups: seq<string>, columns: seq<Column>, data: seq<seq<Cell>>) {
    exists r :: 0 <= r < |data| && |groups| <= |data[r]| && HasKey(item, groups, data[r])
  }

  lemma SameKey(items: seq<Item>, groups: seq<string>, columns: seq<Column>, key: string, row: seq<Cell>, i: nat)
    requires MergedRow(items, groups, columns, key, row) && Distinguishable(items, groups)
    requires i < |items| && RenderedKey(items[i], groups) == key
    ensures HasKey(items[i], groups, row)
  {
    var f :| && 0 <= f < |items| && RenderedKey(items[f], groups) == key
             && ItemKey(items[f], groups) == row[..|groups|]
             && forall j :: 0 <= j < f ==> RenderedKey(items[j], groups) != key;
    assert RenderedKey(items[f], groups) == RenderedKey(items[i], groups);
  }

  /**
   * The cell of an aggregation column holds its query's value for the row's key when the query has a
   * row for the key (or "n/a" when that row is too short), and "n/a" when it has none.
   */
  lemma CellIsTheQuerysValue(items: seq<Item>, groups: seq<string>, columns: seq<Column>, keys: seq<string>,
                             data: seq<seq<Cell>>, r: nat, c: nat)
    requires IsMerged(items, groups, columns, keys, data)
    requires Distinguishable(items, groups) && OneRowPerKey(items, groups)
    requires r < |data| && |groups| <= c < |columns| && columns[c].Aggregation?
    ensures forall i, p :: 0 <= i < |items| && items[i].query == columns[c].query && HasKey(items[i], groups, data[r])
              && 0 <= p < |items[i].columns| && items[i].columns[p] == columns[c] && UniqueIndices(items[i].columns)
              ==> data[r][c] == if p < |items[i].row| then items[i].row[p] else NA
    ensures (forall i :: 0 <= i < |items| && items[i].query == columns[c].query ==> !HasKey(items[i], groups, data[r]))
              ==> data[r][c] == NA
  {
    var key, row, col := keys[r], data[r], columns[c];
    GroupCellsPrintAsKey(items, groups, columns, key, row);
    forall i | 0 <= i < |items| && RenderedKey(items[i], groups) == key ensures HasKey(items[i], groups, row) {
      SameKey(items, groups, columns, key, row, i);
    }
    forall i, p | 0 <= i < |items| && items[i].query == col.query && HasKey(items[i], groups, row)
              && 0 <= p < |items[i].columns| && items[i].columns[p] == col && UniqueIndices(items[i].columns)
      ensures row[c] == if p < |items[i].row| then items[i].row[p] else NA
    {
      var index := AggregationIndex(items[i].columns, col.index);
      assert HasIndex(items[i].columns[p], col.index);
      assert index == Some(p);
      forall j | 0 <= j < |items| && j != i && RenderedKey(items[j], groups) == key
        ensures Written(items[j], col).None?
      {
        assert HasKey(items[j], groups, row);
        assert ItemKey(items[i], groups) == ItemKey(items[j], groups);
      }
      OnlyWriter(items, groups, key, col, i);
    }
    if forall i :: 0 <= i < |items| && items[i].query == col.query ==> !HasKey(items[i], groups, row) {
      NothingWritten(items, groups, key, col);
    }
  }

  lemma {:induction false} OnlyWriter(items: seq<Item>, groups: seq<string>, key: string, column: Column, i: nat)
    requires i < |items| && RenderedKey(items[i], groups) == key
    requires forall j :: 0 <= j < |items| && j != i && RenderedKey(items[j], groups) == key ==>
            Written(items[j], column).None?
    ensures LastWritten(items, groups, key, column)
         == if Written(items[i], column).Some? then Written(items[i], column).value else NA
  {
    var n := |items| - 1;
    if i == n {
      NothingWritten(items[..n], groups, key, column);
    } else {
      OnlyWriter(items[..n], groups, key, column, i);
    }
  }

  /** Cells without blanks are enough. */
  lemma BlankFreeIsDistinguishable(items: seq<Item>, groups: seq<string>)
    requires forall i :: 0 <= i < |items| ==> BlankFree(ItemKey(items[i], groups))
    ensures Distinguishable(items, groups)
  {
    forall i, j | 0 <= i < |items| && 0 <= j < |items| && RenderedKey(items[i], groups) == RenderedKey(items[j], groups)
      ensures ItemKey(items[i], groups) == ItemKey(items[j], groups)
    {
      RenderIsJoin(ItemKey(items[i], groups), ItemKey(items[j], groups));
      BlankFreeKeysDiffer(ItemKey(items[i], groups), ItemKey(items[j], groups));
    }
  }
}
