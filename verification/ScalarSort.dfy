/** The default order of a scalar table: by its first aggregation column, descending, missing cells last. */
module ScalarSort {
  import opened Wrappers
  import opened ScalarJoin

  /** The number a cell holds, if any. */
  type Parser = Cell -> Option<real>

  type TableRow = seq<Cell>

  /** Whether the comparison of two cells puts x before y: numbers descending, "n/a" after everything else, and no
      order between cells that are not numbers. */
  predicate Before(parse: Parser, x: Cell, y: Cell) {
    && x != NA
    && (y == NA || (parse(x).Some? && parse(y).Some? && parse(x).value > parse(y).value))
  }

  /** Cells that are numbers or missing; only for those the comparison is an order. */
  ghost predicate Comparable(parse: Parser, rows: seq<TableRow>, c: nat) {
    forall row :: row in rows ==> c < |row| && (row[c] == NA || parse(row[c]).Some?)
  }

  ghost predicate Descending(parse: Parser, rows: seq<TableRow>, c: nat) {
    forall i, j :: 0 <= i < j < |rows| ==> InOrder(parse, rows[i], rows[j], c)
  }

  predicate InOrder(parse: Parser, earlier: TableRow, later: TableRow, c: nat) {
    c < |earlier| && c < |later| && !Before(parse, later[c], earlier[c])
  }

  function CellKey(parse: Parser, row: TableRow, c: nat): Option<real> {
    if c >= |row| || row[c] == NA then None else parse(row[c])
  }

  /** The rows with a given key, in order. */
  function Alike(parse: Parser, rows: seq<TableRow>, c: nat, key: Option<real>): seq<TableRow> {
    if rows == [] then []
    else (if CellKey(parse, rows[0], c) == key then [rows[0]] else []) + Alike(parse, rows[1..], c, key)
  }

  lemma {:induction false} AlikeConcat(parse: Parser, xs: seq<TableRow>, ys: seq<TableRow>, c: nat, key: Option<real>)
    ensures Alike(parse, xs + ys, c, key) == Alike(parse, xs, c, key) + Alike(parse, ys, c, key)
    decreases |xs|
  {
    if xs == [] {
      assert xs + ys == ys;
    } else {
      assert (xs + ys)[0] == xs[0] && (xs + ys)[1..] == xs[1..] + ys;
      AlikeConcat(parse, xs[1..], ys, c, key);
    }
  }

  lemma {:induction false} NoneAlike(parse: Parser, rows: seq<TableRow>, c: nat, key: Option<real>)
    requires forall row :: row in rows ==> CellKey(parse, row, c) != key
    ensures Alike(parse, rows, c, key) == []
    decreases |rows|
  {
    if rows != [] {
      assert rows[0] in rows;
      NoneAlike(parse, rows[1..], c, key);
    }
  }

  /** Sorted, the same rows, and rows with equal keys as they stood. */
  ghost predicate StablySorts(parse: Parser, rows: seq<TableRow>, c: nat, sorted: seq<TableRow>) {
    && multiset(sorted) == multiset(rows)
    && (Comparable(parse, rows, c) ==>
          && Descending(parse, sorted, c)
          && forall key :: Alike(parse, sorted, c, key) == Alike(parse, rows, c, key))
  }

  /** Moves a row up past those that it comes before. */
  method InsertRow(parse: Parser, sorted: seq<TableRow>, row: TableRow, c: nat) returns (longer: seq<TableRow>)
    requires c < |row| && forall r :: r in sorted ==> c < |r|
    ensures multiset(longer) == multiset(sorted + [row])
    ensures Comparable(parse, sorted + [row], c) && Descending(parse, sorted, c) ==>
              && Descending(parse, longer, c)
              && forall key :: Alike(parse, longer, c, key) == Alike(parse, sorted + [row], c, key)
  {
    var i := |sorted|;
    while i > 0 && Before(parse, row[c], sorted[i - 1][c])
      invariant 0 <= i <= |sorted|
      invariant forall j :: i <= j < |sorted| ==> Before(parse, row[c], sorted[j][c])
    {
      i := i - 1;
    }
    longer := sorted[..i] + ([row] + sorted[i..]);
    assert sorted == sorted[..i] + sorted[i..];
    InsertedMembers(row, sorted[..i], sorted[i..]);
    if Comparable(parse, sorted + [row], c) && Descending(parse, sorted, c) {
      Inserted(parse, sorted, row, c, i);
    }
  }

  lemma Inserted(parse: Parser, sorted: seq<TableRow>, row: TableRow, c: nat, i: nat)
    requires i <= |sorted| && c < |row| && (forall r :: r in sorted ==> c < |r|)
    requires Comparable(parse, sorted + [row], c) && Descending(parse, sorted, c)
    requires forall j :: i <= j < |sorted| ==> Before(parse, row[c], sorted[j][c])
    requires i > 0 ==> !Before(parse, row[c], sorted[i - 1][c])
    ensures Descending(parse, sorted[..i] + ([row] + sorted[i..]), c)
    ensures forall key ::
              Alike(parse, sorted[..i] + ([row] + sorted[i..]), c, key) == Alike(parse, sorted + [row], c, key)
  {
    var before, after := sorted[..i], sorted[i..];
    assert sorted == before + after;
    AllStayBehind(parse, sorted, row, c, i);
    InsertedInOrder(parse, before, after, row, c);
    forall key ensures Alike(parse, before + ([row] + after), c, key) == Alike(parse, sorted + [row], c, key) {
      InsertedStably(parse, before, after, row, c, key);
    }
  }

  lemma AllStayBehind(parse: Parser, sorted: seq<TableRow>, row: TableRow, c: nat, i: nat)
    requires i <= |sorted| && c < |row| && (forall r :: r in sorted ==> c < |r|)
    requires Comparable(parse, sorted + [row], c) && Descending(parse, sorted, c)
    requires i > 0 ==> !Before(parse, row[c], sorted[i - 1][c])
    ensures forall j :: 0 <= j < i ==> InOrder(parse, sorted[j], row, c)
  {
    forall j | 0 <= j < i ensures InOrder(parse, sorted[j], row, c) {
      StaysBehind(parse, sorted, row, c, i, j);
    }
  }

  lemma InsertedMembers(row: TableRow, before: seq<TableRow>, after: seq<TableRow>)
    ensures multiset(before + ([row] + after)) == multiset(before + after + [row])
  {
  }

  /** What the row does not come before, it does not come before anything ahead of either. */
  lemma StaysBehind(parse: Parser, sorted: seq<TableRow>, row: TableRow, c: nat, i: nat, j: nat)
    requires j < i <= |sorted| && Comparable(parse, sorted + [row], c) && Descending(parse, sorted, c)
    requires c < |row| && c < |sorted[i - 1]| && !Before(parse, row[c], sorted[i - 1][c])
    ensures InOrder(parse, sorted[j], row, c)
  {
    var all := sorted + [row];
    assert all[|sorted|] == row && row in all;
    assert all[j] == sorted[j] && sorted[j] in all;
    assert all[i - 1] == sorted[i - 1] && sorted[i - 1] in all;
  }

  lemma DescendingConcat(parse: Parser, xs: seq<TableRow>, ys: seq<TableRow>, c: nat)
    requires Descending(parse, xs, c) && Descending(parse, ys, c)
    requires forall i, j :: 0 <= i < |xs| && 0 <= j < |ys| ==> InOrder(parse, xs[i], ys[j], c)
    ensures Descending(parse, xs + ys, c)
  {
  }

  lemma InsertedInOrder(parse: Parser, before: seq<TableRow>, after: seq<TableRow>, row: TableRow, c: nat)
    requires Descending(parse, before + after, c) && c < |row|
    requires forall j :: 0 <= j < |before| ==> InOrder(parse, before[j], row, c)
    requires forall j :: 0 <= j < |after| ==> c < |after[j]| && Before(parse, row[c], after[j][c])
    ensures Descending(parse, before + ([row] + after), c)
  {
    var all := before + after;
    assert before == all[..|before|] && after == all[|before|..];
    assert forall j :: 0 <= j < |after| ==> after[j] == all[|before| + j];
    assert forall j :: 0 <= j < |before| ==> before[j] == all[j];
    DescendingConcat(parse, [row], after, c);
    DescendingConcat(parse, before, [row] + after, c);
  }

  lemma InsertedStably(parse: Parser, before: seq<TableRow>, after: seq<TableRow>, row: TableRow, c: nat,
                       key: Option<real>)
    requires c < |row| && (row[c] == NA || parse(row[c]).Some?)
    requires forall j :: 0 <= j < |after| ==> c < |after[j]| && Before(parse, row[c], after[j][c])
    ensures Alike(parse, before + ([row] + after), c, key) == Alike(parse, before + after + [row], c, key)
  {
    AlikeConcat(parse, before, [row] + after, c, key);
    AlikeConcat(parse, [row], after, c, key);
    AlikeConcat(parse, before + after, [row], c, key);
    AlikeConcat(parse, before, after, c, key);
    var mine := Alike(parse, [row], c, key);
    if CellKey(parse, row, c) == key {
      forall r | r in after ensures CellKey(parse, r, c) != key {
        var j :| 0 <= j < |after| && after[j] == r;
      }
      NoneAlike(parse, after, c, key);
    } else {
      assert mine == [];
    }
  }

  method SortRows(parse: Parser, rows: seq<TableRow>, c: nat) returns (sorted: seq<TableRow>)
    requires forall row :: row in rows ==> c < |row|
    ensures StablySorts(parse, rows, c, sorted)
  {
    sorted := [];
    for i := 0 to |rows|
      invariant StablySorts(parse, rows[..i], c, sorted)
    {
      assert rows[..i + 1] == rows[..i] + [rows[i]];
      ghost var before := sorted;
      forall r | r in sorted ensures c < |r| && r in rows {
        assert r in multiset(sorted) && r in rows[..i];
      }
      sorted := InsertRow(parse, sorted, rows[i], c);
      if Comparable(parse, rows[..i + 1], c) {
        NextRow(parse, rows, c, i, before, sorted);
      }
    }
    assert rows[..|rows|] == rows;
  }

  lemma NextRow(parse: Parser, rows: seq<TableRow>, c: nat, i: nat, before: seq<TableRow>, sorted: seq<TableRow>)
    requires i < |rows| && StablySorts(parse, rows[..i], c, before) && Comparable(parse, rows[..i + 1], c)
    requires Comparable(parse, before + [rows[i]], c) && Descending(parse, before, c) ==>
               && Descending(parse, sorted, c)
               && forall key :: Alike(parse, sorted, c, key) == Alike(parse, before + [rows[i]], c, key)
    ensures Descending(parse, sorted, c)
    ensures forall key :: Alike(parse, sorted, c, key) == Alike(parse, rows[..i + 1], c, key)
  {
    assert rows[..i + 1] == rows[..i] + [rows[i]];
    assert rows[i] in rows[..i + 1] && forall r :: r in rows[..i] ==> r in rows[..i + 1];
    forall r | r in before ensures r in rows[..i] {
      assert r in multiset(before);
    }
    forall key ensures Alike(parse, sorted, c, key) == Alike(parse, rows[..i + 1], c, key) {
      AlikeConcat(parse, before, [rows[i]], c, key);
      AlikeConcat(parse, rows[..i], [rows[i]], c, key);
    }
  }

  /** The first aggregation column. */
  function FirstAggregation(columns: seq<Column>): (r: Option<nat>)
    ensures r.Some? ==> r.value < |columns| && columns[r.value].Aggregation?
    ensures r.None? ==> forall c :: c in columns ==> !c.Aggregation?
  {
    if columns == [] then None
    else if columns[0].Aggregation? then Some(0)
    else
      var rest := FirstAggregation(columns[1..]);
      if rest.Some? then Some(rest.value + 1) else None
  }

  /** Without an aggregation column the rows are left as they are. */
  ghost predicate DefaultOrder(parse: Parser, rows: seq<TableRow>, columns: seq<Column>, sorted: seq<TableRow>) {
    var c := FirstAggregation(columns);
    if c.None? then sorted == rows else StablySorts(parse, rows, c.value, sorted)
  }

  /** The merge with its last step: the table is in its default order unless an order was asked for. */
  method MergeAndSort(results: map<string, Scalar>, iteration: seq<string>, names: seq<string>, applyDefaultSort: bool,
                      parse: Parser)
    returns (groups: seq<string>, columns: seq<Column>, data: seq<TableRow>, ghost keys: seq<string>,
        ghost merged: seq<TableRow>)
    requires Enumerates(iteration, results) && Enumerates(names, results)
    ensures columns == GroupColumns(groups) + AllAggregations(results, names)
    ensures IsMerged(Items(results, names), groups, columns, keys, merged)
    ensures if applyDefaultSort then DefaultOrder(parse, merged, columns, data) else data == merged
  {
    var order: seq<string>;
    groups, columns, order, data := MergeScalarData(results, iteration, names);
    keys, merged := order, data;
    if applyDefaultSort {
      var c := FirstAggregation(columns);
      if c.Some? {
        forall row | row in data ensures c.value < |row| {
          var i :| 0 <= i < |data| && data[i] == row;
          assert MergedRow(Items(results, names), groups, columns, keys[i], data[i]);
        }
        data := SortRows(parse, data, c.value);
      }
    }
  }
}
