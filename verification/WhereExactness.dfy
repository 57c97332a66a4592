/** Dropping conditions is harmless exactly when it is done at the right polarity. */
module WhereExactness {
  import opened WhereClause
  import opened WhereMeaning

  // ---- The row conditions of a filter ----

  ghost function LeafIds(leaf: Leaf): set<nat> {
    match leaf
    case Comparison(keys, _, _, _) => set k | k in keys :: k.id
    case FullText(id, _) => {id}
    case FunctionCall(id, _) => {id}
  }

  ghost function Ids(f: Filter): set<nat>
    decreases f, 1
  {
    match f
    case Or(branches) => IdsOfAll(branches)
    case And(parts) => IdsOfAll(parts)
    case Not(inner) => Ids(inner)
    case Group(inner) => Ids(inner)
    case Single(leaf) => LeafIds(leaf)
  }

  ghost function IdsOfAll(fs: seq<Filter>): set<nat>
    decreases fs, 0
  {
    if fs == [] then {} else Ids(fs[0]) + IdsOfAll(fs[1..])
  }

  /** Every row condition occurs once, and no list is empty. */
  ghost predicate ReadOnce(f: Filter)
    decreases f, 1
  {
    match f
    case Or(branches) => branches != [] && ReadOnceAll(branches)
    case And(parts) => parts != [] && ReadOnceAll(parts)
    case Not(inner) => ReadOnce(inner)
    case Group(inner) => ReadOnce(inner)
    case Single(leaf) =>
      leaf.Comparison? ==> leaf.keys != [] && forall a, b :: a in leaf.keys && b in leaf.keys && a.id == b.id ==> a == b
  }

  ghost predicate ReadOnceAll(fs: seq<Filter>)
    decreases fs, 0
  {
    fs == [] || (ReadOnce(fs[0]) && ReadOnceAll(fs[1..]) && Ids(fs[0]) !! IdsOfAll(fs[1..]))
  }

  ghost predicate AgreeOn(r: Row, s: Row, ids: set<nat>) {
    forall i :: i in ids ==> r(i) == s(i)
  }

  ghost function Spliced(r: Row, ids: set<nat>, s: Row): Row {
    (i: nat) => if i in ids then r(i) else s(i)
  }

  lemma {:induction false} IdsInclude(fs: seq<Filter>, f: Filter)
    requires f in fs
    ensures Ids(f) <= IdsOfAll(fs)
    decreases |fs|
  {
    if f != fs[0] {
      IdsInclude(fs[1..], f);
    }
  }

  lemma {:induction false} MeansFrame(f: Filter, r: Row, s: Row)
    requires AgreeOn(r, s, Ids(f))
    ensures Means(f, r) == Means(f, s)
  {
    match f
    case Or(branches) =>
      forall b | b in branches ensures Means(b, r) == Means(b, s) {
        IdsInclude(branches, b);
        MeansFrame(b, r, s);
      }
    case And(parts) =>
      forall p | p in parts ensures Means(p, r) == Means(p, s) {
        IdsInclude(parts, p);
        MeansFrame(p, r, s);
      }
    case Not(inner) => MeansFrame(inner, r, s);
    case Group(inner) => MeansFrame(inner, r, s);
    case Single(leaf) =>
      if leaf.Comparison? {
        forall k | k in leaf.keys ensures r(k.id) == s(k.id) {
          assert k.id in LeafIds(leaf);
        }
      }
  }

  lemma {:induction false} SelectsFrame(f: Filter, opts: Options, r: Row, s: Row)
    requires AgreeOn(r, s, Ids(f))
    ensures Selects(Visit(f, opts).cond, r) == Selects(Visit(f, opts).cond, s)
    decreases f
  {
    if !Skippable(Visit(f, opts).cond) {
      match f
      case Or(branches) =>
        OrSelects(branches, opts, r);
        OrSelects(branches, opts, s);
        forall b | b in branches ensures Selects(Visit(b, opts).cond, r) == Selects(Visit(b, opts).cond, s) {
          IdsInclude(branches, b);
          SelectsFrame(b, opts, r, s);
        }
      case And(parts) =>
        AndSelects(parts, opts, r);
        AndSelects(parts, opts, s);
        forall p | p in parts ensures Selects(Visit(p, opts).cond, r) == Selects(Visit(p, opts).cond, s) {
          IdsInclude(parts, p);
          SelectsFrame(p, opts, r, s);
        }
      case Not(inner) => SelectsFrame(inner, opts, r, s);
      case Group(inner) => SelectsFrame(inner, opts, r, s);
      case Single(leaf) =>
        if leaf.Comparison? {
          ComparisonSelects(leaf, opts, r);
          ComparisonSelects(leaf, opts, s);
          forall k | k in leaf.keys ensures r(k.id) == s(k.id) {
            assert k.id in LeafIds(leaf);
          }
        }
    }
  }

  // ---- Rows with a wanted outcome ----

  /** The filter means b on the row, and so does what it is compiled to, unless it is skipped. */
  ghost predicate Outcome(f: Filter, opts: Options, row: Row, b: bool) {
    Means(f, row) == b && (!Skippable(Visit(f, opts).cond) ==> Selects(Visit(f, opts).cond, row) == b)
  }

  lemma OutcomeFrame(f: Filter, opts: Options, r: Row, s: Row, b: bool)
    requires AgreeOn(r, s, Ids(f)) && Outcome(f, opts, r, b)
    ensures Outcome(f, opts, s, b)
  {
    MeansFrame(f, r, s);
    SelectsFrame(f, opts, r, s);
  }

  /** Either outcome can be had. */
  lemma {:induction false} Realize(f: Filter, opts: Options, b: bool) returns (row: Row)
    requires ReadOnce(f)
    ensures Outcome(f, opts, row, b)
    decreases f, 1
  {
    match f
    case Or(branches) =>
      row := RealizeAll(branches, opts, b);
      assert branches[0] in branches;
      if !Skippable(Visit(f, opts).cond) {
        OrSelects(branches, opts, row);
      }
    case And(parts) =>
      row := RealizeAll(parts, opts, b);
      assert parts[0] in parts;
      AndSelects(parts, opts, row);
      if !Skippable(Visit(f, opts).cond) {
        KeptPart(parts, opts);
      }
    case Not(inner) => row := Realize(inner, opts, !b);
    case Group(inner) => row := Realize(inner, opts, b);
    case Single(leaf) =>
      row := (i: nat) => b;
      if leaf.Comparison? {
        assert leaf.keys[0] in leaf.keys;
        if !Skippable(VisitLeaf(leaf, opts).cond) {
          ComparisonSelects(leaf, opts, row);
        }
      }
  }

  /** An AND that is not skipped keeps some part. */
  lemma KeptPart(parts: seq<Filter>, opts: Options)
    requires !Skippable(Visit(And(parts), opts).cond)
    ensures exists p :: p in parts && !Skippable(Visit(p, opts).cond)
  {
    var conds := VisitParts(parts, opts).0;
    assert conds != [];
    PartsMembers(parts, opts, conds[0]);
  }

  lemma {:induction false} RealizeAll(fs: seq<Filter>, opts: Options, b: bool) returns (row: Row)
    requires ReadOnceAll(fs)
    ensures forall f :: f in fs ==> Outcome(f, opts, row, b)
    decreases fs, 0
  {
    if fs == [] {
      row := (i: nat) => b;
    } else {
      var first := Realize(fs[0], opts, b);
      var rest := RealizeAll(fs[1..], opts, b);
      row := Spliced(first, Ids(fs[0]), rest);
      OutcomeFrame(fs[0], opts, first, row, b);
      forall f | f in fs[1..] ensures Outcome(f, opts, row, b) {
        IdsInclude(fs[1..], f);
        OutcomeFrame(f, opts, rest, row, b);
      }
    }
  }

  /** One filter of the list keeps a given row's view; all others get outcome b. */
  lemma {:induction false} RealizeAround(fs: seq<Filter>, opts: Options, i: nat, special: Row,
                                         b: bool)
    returns (row: Row)
    requires ReadOnceAll(fs) && i < |fs|
    ensures AgreeOn(special, row, Ids(fs[i]))
    ensures forall j :: 0 <= j < |fs| && j != i ==> Outcome(fs[j], opts, row, b)
    decreases |fs|
  {
    if i == 0 {
      var rest := RealizeAll(fs[1..], opts, b);
      row := Spliced(special, Ids(fs[0]), rest);
      forall j | 1 <= j < |fs| ensures Outcome(fs[j], opts, row, b) {
        assert fs[j] == fs[1..][j - 1];
        IdsInclude(fs[1..], fs[j]);
        OutcomeFrame(fs[j], opts, rest, row, b);
      }
    } else {
      var first := Realize(fs[0], opts, b);
      var rest := RealizeAround(fs[1..], opts, i - 1, special, b);
      row := Spliced(first, Ids(fs[0]), rest);
      OutcomeFrame(fs[0], opts, first, row, b);
      IdsInclude(fs[1..], fs[1..][i - 1]);
      forall j | 1 <= j < |fs| && j != i ensures Outcome(fs[j], opts, row, b) {
        assert fs[j] == fs[1..][j - 1];
        IdsInclude(fs[1..], fs[j]);
        OutcomeFrame(fs[j], opts, rest, row, b);
      }
    }
  }

  // ---- A row that tells the difference ----

  /** The filter has the polarity's truth on the row and the compiled condition does not. */
  ghost predicate Betrays(f: Filter, opts: Options, positive: bool, row: Row) {
    Means(f, row) == positive && Selects(Visit(f, opts).cond, row) != positive
  }

  lemma {:induction false} UnsafeIsBetrayed(f: Filter, opts: Options, positive: bool) returns (row: Row)
    requires ReadOnce(f) && !DropsSafely(f, opts, positive)
    ensures Betrays(f, opts, positive, row)
    decreases f, 1
  {
    SkippedExactly(f, opts);
    match f
    case Or(branches) =>
      var b :| b in branches && !DropsSafely(b, opts, positive);
      var i :| 0 <= i < |branches| && branches[i] == b;
      row := BetrayedBranch(branches, opts, positive, i);
    case And(parts) =>
      if !positive && exists p :: p in parts && Skipped(p, opts) {
        var p :| p in parts && Skipped(p, opts);
        SkippedExactly(p, opts);
        var i :| 0 <= i < |parts| && parts[i] == p;
        row := BetrayedMix(parts, opts, i);
      } else {
        var p :| p in parts && !DropsSafely(p, opts, positive);
        var i :| 0 <= i < |parts| && parts[i] == p;
        row := BetrayedPart(parts, opts, positive, i);
      }
    case Not(inner) => row := UnsafeIsBetrayed(inner, opts, !positive);
    case Group(inner) => row := UnsafeIsBetrayed(inner, opts, positive);
    case Single(leaf) => row := BetrayedLeaf(leaf, opts, positive);
  }

  lemma {:induction false} ReadOnceMember(fs: seq<Filter>, i: nat)
    requires ReadOnceAll(fs) && i < |fs|
    ensures ReadOnce(fs[i])
  {
    if i > 0 {
      ReadOnceMember(fs[1..], i - 1);
    }
  }

  lemma {:induction false} BetrayedBranch(branches: seq<Filter>, opts: Options, positive: bool,
                                          i: nat)
    returns (row: Row)
    requires ReadOnceAll(branches) && i < |branches| && !DropsSafely(branches[i], opts, positive)
    requires !Skippable(Visit(Or(branches), opts).cond)
    ensures Betrays(Or(branches), opts, positive, row)
    decreases branches, 0
  {
    ReadOnceMember(branches, i);
    OrSelects(branches, opts, (k: nat) => true);
    assert branches[i] in branches;
    var special := UnsafeIsBetrayed(branches[i], opts, positive);
    row := RealizeAround(branches, opts, i, special, false);
    MeansFrame(branches[i], special, row);
    SelectsFrame(branches[i], opts, special, row);
    OrSelects(branches, opts, row);
    forall b | b in branches && b != branches[i] ensures Outcome(b, opts, row, false) {
      var j :| 0 <= j < |branches| && branches[j] == b;
    }
  }

  lemma {:induction false} BetrayedPart(parts: seq<Filter>, opts: Options, positive: bool, i: nat) returns (row: Row)
    requires ReadOnceAll(parts) && i < |parts| && !DropsSafely(parts[i], opts, positive)
    ensures Betrays(And(parts), opts, positive, row)
    decreases parts, 0
  {
    ReadOnceMember(parts, i);
    var special := UnsafeIsBetrayed(parts[i], opts, positive);
    row := RealizeAround(parts, opts, i, special, true);
    MeansFrame(parts[i], special, row);
    SelectsFrame(parts[i], opts, special, row);
    AndSelects(parts, opts, row);
    assert parts[i] in parts;
    forall p | p in parts && p != parts[i] ensures Outcome(p, opts, row, true) && Selects(Visit(p, opts).cond, row) {
      var j :| 0 <= j < |parts| && parts[j] == p;
    }
  }

  /** At negative polarity, dropping one part of an AND shows when just that part is false. */
  lemma {:induction false} BetrayedMix(parts: seq<Filter>, opts: Options, i: nat) returns (row: Row)
    requires ReadOnceAll(parts) && i < |parts| && Skippable(Visit(parts[i], opts).cond)
    ensures Betrays(And(parts), opts, false, row)
    decreases parts, 0
  {
    ReadOnceMember(parts, i);
    var special := Realize(parts[i], opts, false);
    row := RealizeAround(parts, opts, i, special, true);
    MeansFrame(parts[i], special, row);
    AndSelects(parts, opts, row);
    assert parts[i] in parts;
    forall p | p in parts && p != parts[i] ensures Selects(Visit(p, opts).cond, row) {
      var j :| 0 <= j < |parts| && parts[j] == p;
      assert Outcome(parts[j], opts, row, true);
    }
  }

  /** A comparison that loses some keys shows when exactly those keys decide. */
  lemma BetrayedLeaf(leaf: Leaf, opts: Options, positive: bool) returns (row: Row)
    requires ReadOnce(Single(leaf)) && !Skippable(VisitLeaf(leaf, opts).cond)
    requires leaf.Comparison? && !KeepsAllKeys(leaf, opts) && leaf.negative != positive
    ensures Betrays(Single(leaf), opts, positive, row)
  {
    var reached := set k | k in leaf.keys && Reaches(k, opts) :: k.id;
    row := (i: nat) => if leaf.negative then i in reached else i !in reached;
    forall k | k in leaf.keys ensures k.id in reached <==> Reaches(k, opts) {
      if k.id in reached {
        var k' :| k' in leaf.keys && Reaches(k', opts) && k'.id == k.id;
      }
    }
    ComparisonSelects(leaf, opts, row);
  }

  /** For a filter that names each row condition once: the emitted clause lets every row of the filter through
      exactly when conditions are dropped safely. */
  lemma ClauseKeepsRowsExactly(f: Expression, opts: Options)
    requires ReadOnce(f) && Prepare(f, opts).Clause?
    ensures (forall row: Row :: Means(f, row) ==> Selects(Prepare(f, opts).cond, row)) <==>
            DropsSafely(f, Effective(f, opts), true)
  {
    var eff := Effective(f, opts);
    if DropsSafely(f, eff, true) {
      forall row: Row | Means(f, row) ensures Selects(Prepare(f, opts).cond, row) {
        ClauseKeepsRows(f, opts, row);
      }
    } else {
      var row := UnsafeIsBetrayed(f, eff, true);
      assert Means(f, row) && !Selects(Prepare(f, opts).cond, row);
    }
  }
}
