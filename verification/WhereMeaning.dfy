/** What skipping conditions does to the meaning of a filter. */
module WhereMeaning {
  import opened WhereClause

  /** The truth of each row condition. */
  type Row = nat -> bool

  ghost predicate LeafMeans(leaf: Leaf, row: Row) {
    match leaf
    case Comparison(keys, negative, _, _) =>
      if negative then forall k :: k in keys ==> row(k.id) else exists k :: k in keys && row(k.id)
    case FullText(id, _) => row(id)
    case FunctionCall(id, _) => row(id)
  }

  ghost predicate Means(f: Filter, row: Row) {
    match f
    case Or(branches) => exists b :: b in branches && Means(b, row)
    case And(parts) => forall p :: p in parts ==> Means(p, row)
    case Not(inner) => !Means(inner, row)
    case Group(inner) => Means(inner, row)
    case Single(leaf) => LeafMeans(leaf, row)
  }

  /** A skipped condition restricts nothing. */
  ghost predicate Selects(c: Sql, row: Row) {
    match c
    case SkipLiteral => true
    case ErrorLiteral => true
    case Atom(id) => row(id)
    case SqlOr(conds) => exists d :: d in conds && Selects(d, row)
    case SqlAnd(conds) => forall d :: d in conds ==> Selects(d, row)
    case SqlNot(d) => !Selects(d, row)
    case Paren(d) => Selects(d, row)
  }

  lemma OneOrManySelects(conds: seq<Sql>, row: Row)
    ensures Selects(OneOrMany(conds, true), row) <==> forall c :: c in conds ==> Selects(c, row)
    ensures conds != [] ==> (Selects(OneOrMany(conds, false), row) <==> exists c :: c in conds && Selects(c, row))
  {
    if |conds| == 1 {
      assert forall c :: c in conds <==> c == conds[0];
    }
  }

  // ---- The conditions of a visited list ----

  lemma {:induction false} PartsMembers(parts: seq<Filter>, opts: Options, c: Sql)
    ensures c in VisitParts(parts, opts).0 <==>
            exists p :: p in parts && !Skippable(Visit(p, opts).cond) && c == Visit(p, opts).cond
    decreases |parts|
  {
    if parts != [] {
      PartsMembers(parts[1..], opts, c);
      assert parts == [parts[0]] + parts[1..];
      if p :| p in parts && !Skippable(Visit(p, opts).cond) && c == Visit(p, opts).cond {
        assert p == parts[0] || p in parts[1..];
      }
      if p :| p in parts[1..] && !Skippable(Visit(p, opts).cond) && c == Visit(p, opts).cond {
        assert p in parts;
      }
      assert c == Visit(parts[0], opts).cond && !Skippable(c) ==> parts[0] in parts;
    }
  }

  lemma {:induction false} BranchMembers(branches: seq<Filter>, opts: Options, c: Sql)
    requires VisitBranches(branches, opts).Collected?
    ensures c in VisitBranches(branches, opts).conds <==> exists b :: b in branches && c == Visit(b, opts).cond
    ensures forall b :: b in branches ==> !Skippable(Visit(b, opts).cond)
    ensures |VisitBranches(branches, opts).conds| == |branches|
    decreases |branches|
  {
    if branches != [] {
      BranchMembers(branches[1..], opts, c);
      assert branches == [branches[0]] + branches[1..];
      if b :| b in branches && c == Visit(b, opts).cond {
        assert b == branches[0] || b in branches[1..];
      }
      if b :| b in branches[1..] && c == Visit(b, opts).cond {
        assert b in branches;
      }
      assert c == Visit(branches[0], opts).cond ==> branches[0] in branches;
    }
  }

  lemma {:induction false} StoppedIsSkippable(branches: seq<Filter>, opts: Options)
    ensures VisitBranches(branches, opts).Stopped? ==> Skippable(VisitBranches(branches, opts).cond)
    ensures VisitBranches(branches, opts).Stopped? <==> exists b :: b in branches && Skippable(Visit(b, opts).cond)
    decreases |branches|
  {
    if branches != [] {
      StoppedIsSkippable(branches[1..], opts);
      if b :| b in branches && Skippable(Visit(b, opts).cond) {
        assert b == branches[0] || b in branches[1..];
      }
      if VisitBranches(branches[1..], opts).Stopped? {
        var b :| b in branches[1..] && Skippable(Visit(b, opts).cond);
        assert b in branches;
      }
      assert branches[0] in branches;
    }
  }

  // ---- What is skipped ----

  /** The keys of a comparison that reach its condition. */
  predicate Reaches(k: Key, opts: Options) {
    !(opts.skipResource && k.resource) && !(opts.resourceOnly && !k.resource)
  }

  /** A comparison without a condition of its own: no key reaches it, or one that does cannot be built. */
  ghost predicate LeafSkipped(leaf: Leaf, opts: Options) {
    match leaf
    case Comparison(keys, _, _, allVariable) =>
      || allVariable
      || (forall k :: k in keys ==> !Reaches(k, opts))
      || (exists k :: k in keys && Reaches(k, opts) && k.build.Fails?)
    case FullText(_, build) => opts.skipFullText || build.Fails?
    case FunctionCall(_, build) => opts.skipFunctions || build.Fails?
  }

  /** An OR is skipped with any of its branches, an AND with all of its parts. */
  ghost predicate Skipped(f: Filter, opts: Options) {
    match f
    case Or(branches) => branches == [] || exists b :: b in branches && Skipped(b, opts)
    case And(parts) => forall p :: p in parts ==> Skipped(p, opts)
    case Not(inner) => Skipped(inner, opts)
    case Group(inner) => Skipped(inner, opts)
    case Single(leaf) => LeafSkipped(leaf, opts)
  }

  lemma {:induction false} KeysBuild(keys: seq<Key>, opts: Options)
    ensures KeyConditions(keys, opts).1.None? <==>
              forall k :: k in keys && !(opts.resourceOnly && !k.resource) ==> k.build.Builds?
    ensures KeyConditions(keys, opts).1.None? ==>
              (KeyConditions(keys, opts).0 == [] <==> forall k :: k in keys ==> opts.resourceOnly && !k.resource)
    ensures forall c :: c in KeyConditions(keys, opts).0 ==> c.Atom?
    decreases |keys|
  {
    if keys != [] {
      KeysBuild(keys[1..], opts);
      assert keys == [keys[0]] + keys[1..];
    }
  }

  lemma LeafSkippedExactly(leaf: Leaf, opts: Options)
    ensures LeafSkipped(leaf, opts) <==> Skippable(VisitLeaf(leaf, opts).cond)
  {
    if leaf.Comparison? && leaf.keys != [] {
      var kept := KeptKeys(leaf.keys, opts);
      KeysBuild(kept, opts);
      assert forall k :: k in kept && !(opts.resourceOnly && !k.resource) <==> k in leaf.keys && Reaches(k, opts);
      OneOrManyUnskipped(KeyConditions(kept, opts).0, leaf.negative);
    }
  }

  lemma OneOrManyUnskipped(conds: seq<Sql>, conjunction: bool)
    requires forall c :: c in conds ==> !Skippable(c)
    ensures Skippable(OneOrMany(conds, conjunction)) <==> conds == []
  {
    if |conds| == 1 {
      assert conds[0] in conds;
    }
  }

  /** The condition visited for a node is a sentinel exactly when the node is skipped. */
  lemma {:induction false} SkippedExactly(f: Filter, opts: Options)
    ensures Skipped(f, opts) <==> Skippable(Visit(f, opts).cond)
  {
    match f
    case Or(branches) =>
      forall b | b in branches ensures Skipped(b, opts) <==> Skippable(Visit(b, opts).cond) {
        SkippedExactly(b, opts);
      }
      OrSkippedExactly(branches, opts);
    case And(parts) =>
      forall p | p in parts ensures Skipped(p, opts) <==> Skippable(Visit(p, opts).cond) {
        SkippedExactly(p, opts);
      }
      AndSkippedExactly(parts, opts);
    case Not(inner) => SkippedExactly(inner, opts);
    case Group(inner) => SkippedExactly(inner, opts);
    case Single(leaf) => LeafSkippedExactly(leaf, opts);
  }

  lemma OrSkippedExactly(branches: seq<Filter>, opts: Options)
    ensures Skippable(Visit(Or(branches), opts).cond) <==>
              branches == [] || exists b :: b in branches && Skippable(Visit(b, opts).cond)
  {
    StoppedIsSkippable(branches, opts);
    if VisitBranches(branches, opts).Collected? {
      var conds := VisitBranches(branches, opts).conds;
      forall c ensures c in conds <==> exists b :: b in branches && c == Visit(b, opts).cond {
        BranchMembers(branches, opts, c);
      }
      BranchMembers(branches, opts, SkipLiteral);
      OneOrManyUnskipped(conds, false);
    }
  }

  lemma AndSkippedExactly(parts: seq<Filter>, opts: Options)
    ensures Skippable(Visit(And(parts), opts).cond) <==> forall p :: p in parts ==> Skippable(Visit(p, opts).cond)
  {
    var conds := VisitParts(parts, opts).0;
    forall c ensures c in conds <==>
        exists p :: p in parts && !Skippable(Visit(p, opts).cond) && c == Visit(p, opts).cond {
      PartsMembers(parts, opts, c);
    }
    OneOrManyUnskipped(conds, true);
    if conds != [] {
      assert conds[0] in conds;
    }
    forall p | p in parts && !Skippable(Visit(p, opts).cond) ensures conds != [] {
      assert Visit(p, opts).cond in conds;
    }
  }

  /** Without recorded errors nothing is prepared exactly when the filter is skipped as a whole. */
  lemma NothingExactlyWhenSkipped(f: Expression, opts: Options)
    requires !Prepare(f, opts).Invalid?
    ensures Prepare(f, opts).Nothing? <==> Skipped(f, Effective(f, opts))
  {
    SkippedExactly(f, Effective(f, opts));
    ExpressionDropsErrors(f, Effective(f, opts));
  }

  // ---- What a condition selects ----

  /** What an AND of several parts selects: a skipped part restricts nothing. */
  lemma AndSelects(parts: seq<Filter>, opts: Options, row: Row)
    ensures Selects(Visit(And(parts), opts).cond, row) <==> forall p :: p in parts ==> Selects(Visit(p, opts).cond, row)
  {
    var conds := VisitParts(parts, opts).0;
    OneOrManySelects(conds, row);
    forall c ensures c in conds <==>
        exists p :: p in parts && !Skippable(Visit(p, opts).cond) && c == Visit(p, opts).cond {
      PartsMembers(parts, opts, c);
    }
  }

  lemma OrSelects(branches: seq<Filter>, opts: Options, row: Row)
    requires !Skippable(Visit(Or(branches), opts).cond)
    ensures forall b :: b in branches ==> !Skippable(Visit(b, opts).cond)
    ensures branches != []
    ensures Selects(Visit(Or(branches), opts).cond, row) <==>
            exists b :: b in branches && Selects(Visit(b, opts).cond, row)
  {
    StoppedIsSkippable(branches, opts);
    var conds := VisitBranches(branches, opts).conds;
    BranchMembers(branches, opts, SkipLiteral);
    OneOrManySelects(conds, row);
    forall c ensures c in conds <==> exists b :: b in branches && c == Visit(b, opts).cond {
      BranchMembers(branches, opts, c);
    }
  }

  lemma {:induction false} KeyMembers(keys: seq<Key>, opts: Options, c: Sql)
    requires KeyConditions(keys, opts).1.None?
    ensures c in KeyConditions(keys, opts).0 <==>
            exists k :: k in keys && !(opts.resourceOnly && !k.resource) && c == Atom(k.id)
    decreases |keys|
  {
    if keys != [] {
      KeyMembers(keys[1..], opts, c);
      assert keys == [keys[0]] + keys[1..];
    }
  }

  lemma ComparisonSelects(leaf: Leaf, opts: Options, row: Row)
    requires leaf.Comparison? && !Skippable(VisitLeaf(leaf, opts).cond)
    ensures exists k :: k in leaf.keys && Reaches(k, opts)
    ensures Selects(VisitLeaf(leaf, opts).cond, row) <==>
            if leaf.negative then forall k :: k in leaf.keys && Reaches(k, opts) ==> row(k.id)
            else exists k :: k in leaf.keys && Reaches(k, opts) && row(k.id)
  {
    var kept := KeptKeys(leaf.keys, opts);
    var conds := KeyConditions(kept, opts).0;
    forall c ensures c in conds <==> exists k :: k in leaf.keys && Reaches(k, opts) && c == Atom(k.id) {
      KeyMembers(kept, opts, c);
      assert forall k :: k in kept && !(opts.resourceOnly && !k.resource) <==> k in leaf.keys && Reaches(k, opts);
    }
    assert conds != [];
    var some :| 0 <= some < |conds|;
    assert conds[some] in conds;
    OneOrManySelects(conds, row);
    ConditionsMeanKeys(leaf.keys, opts, conds, row);
  }

  lemma ConditionsMeanKeys(keys: seq<Key>, opts: Options, conds: seq<Sql>, row: Row)
    requires forall c :: c in conds <==> exists k :: k in keys && Reaches(k, opts) && c == Atom(k.id)
    ensures (forall c :: c in conds ==> Selects(c, row)) <==> forall k :: k in keys && Reaches(k, opts) ==> row(k.id)
    ensures (exists c :: c in conds && Selects(c, row)) <==> exists k :: k in keys && Reaches(k, opts) && row(k.id)
  {
    forall k | k in keys && Reaches(k, opts) ensures Atom(k.id) in conds && (Selects(Atom(k.id), row) <==> row(k.id)) {
    }
  }

  // ---- Weakening ----

  ghost predicate KeepsAllKeys(leaf: Leaf, opts: Options) {
    leaf.Comparison? ==> forall k :: k in leaf.keys ==> Reaches(k, opts)
  }

  /** Nothing is lost in the wrong direction: where conditions are dropped, at negative polarity none is dropped
      from an AND, and none from the alternatives of a comparison at positive polarity. */
  ghost predicate DropsSafely(f: Filter, opts: Options, positive: bool) {
    Skipped(f, opts) ||
    match f
    case Or(branches) => forall b :: b in branches ==> DropsSafely(b, opts, positive)
    case And(parts) =>
      && (positive || forall p :: p in parts ==> !Skipped(p, opts))
      && forall p :: p in parts ==> DropsSafely(p, opts, positive)
    case Not(inner) => DropsSafely(inner, opts, !positive)
    case Group(inner) => DropsSafely(inner, opts, positive)
    case Single(leaf) => KeepsAllKeys(leaf, opts) || (leaf.Comparison? && leaf.negative == positive)
  }

  lemma SkippedLists(fs: seq<Filter>, opts: Options)
    ensures forall f :: f in fs ==> (Skipped(f, opts) <==> Skippable(Visit(f, opts).cond))
  {
    forall f | f in fs ensures Skipped(f, opts) <==> Skippable(Visit(f, opts).cond) {
      SkippedExactly(f, opts);
    }
  }

  /** The compiled condition is weaker than the filter at positive polarity, and stronger at negative polarity. */
  lemma {:induction false} CompiledIsWeaker(f: Filter, opts: Options, positive: bool, row: Row)
    requires DropsSafely(f, opts, positive) && !Skipped(f, opts)
    requires Means(f, row) == positive
    ensures Selects(Visit(f, opts).cond, row) == positive
    decreases f
  {
    SkippedExactly(f, opts);
    match f
    case Or(branches) =>
      OrSelects(branches, opts, row);
      forall b | b in branches && Means(b, row) == positive ensures Selects(Visit(b, opts).cond, row) == positive {
        CompiledIsWeaker(b, opts, positive, row);
      }
    case And(parts) =>
      AndSelects(parts, opts, row);
      SkippedLists(parts, opts);
      forall p | p in parts && !Skipped(p, opts) && Means(p, row) == positive
        ensures Selects(Visit(p, opts).cond, row) == positive
      {
        CompiledIsWeaker(p, opts, positive, row);
      }
    case Not(inner) =>
      SkippedExactly(inner, opts);
      CompiledIsWeaker(inner, opts, !positive, row);
    case Group(inner) =>
      SkippedExactly(inner, opts);
      CompiledIsWeaker(inner, opts, positive, row);
    case Single(leaf) =>
      if leaf.Comparison? {
        ComparisonSelects(leaf, opts, row);
      }
  }

  /** Every row satisfying the filter satisfies the emitted clause, if conditions are dropped safely. */
  lemma ClauseKeepsRows(f: Expression, opts: Options, row: Row)
    requires Prepare(f, opts).Clause? && DropsSafely(f, Effective(f, opts), true) && Means(f, row)
    ensures Selects(Prepare(f, opts).cond, row)
  {
    NothingExactlyWhenSkipped(f, opts);
    CompiledIsWeaker(f, Effective(f, opts), true, row);
  }

  // ---- Nothing skipped ----

  /** Every leaf is compiled, with all its keys. */
  ghost predicate NothingSkipped(f: Filter, opts: Options) {
    match f
    case Or(branches) => branches != [] && forall b :: b in branches ==> NothingSkipped(b, opts)
    case And(parts) => parts != [] && forall p :: p in parts ==> NothingSkipped(p, opts)
    case Not(inner) => NothingSkipped(inner, opts)
    case Group(inner) => NothingSkipped(inner, opts)
    case Single(leaf) => !LeafSkipped(leaf, opts) && KeepsAllKeys(leaf, opts)
  }

  lemma {:induction false} NothingSkippedCompiles(f: Filter, opts: Options)
    requires NothingSkipped(f, opts)
    ensures !Skipped(f, opts)
    ensures forall positive :: DropsSafely(f, opts, positive)
  {
    match f
    case Or(branches) =>
      forall b | b in branches ensures !Skipped(b, opts) && forall positive :: DropsSafely(b, opts, positive) {
        NothingSkippedCompiles(b, opts);
      }
    case And(parts) =>
      forall p | p in parts ensures !Skipped(p, opts) && forall positive :: DropsSafely(p, opts, positive) {
        NothingSkippedCompiles(p, opts);
      }
      assert parts[0] in parts;
    case Not(inner) => NothingSkippedCompiles(inner, opts);
    case Group(inner) => NothingSkippedCompiles(inner, opts);
    case Single(_) =>
  }

  /** With nothing skipped, the compiled condition and the filter are equivalent. */
  lemma NothingSkippedIsExact(f: Filter, opts: Options, row: Row)
    requires NothingSkipped(f, opts)
    ensures Selects(Visit(f, opts).cond, row) <==> Means(f, row)
  {
    NothingSkippedCompiles(f, opts);
    assert DropsSafely(f, opts, Means(f, row));
    CompiledIsWeaker(f, opts, Means(f, row), row);
  }

  // ---- Splitting a filter between the main table and the resource table ----

  const MAIN := Options(true, false, false, false)
  const RESOURCE := Options(false, true, true, true)

  /** Wholly about resource keys, or wholly about others. */
  ghost predicate OneSided(leaf: Leaf) {
    leaf.Comparison? ==>
      && leaf.keys != [] && !leaf.allVariable
      && ((forall k :: k in leaf.keys ==> k.resource) || (forall k :: k in leaf.keys ==> !k.resource))
  }

  ghost predicate BuildsEverything(leaf: Leaf) {
    match leaf
    case Comparison(keys, _, _, _) => forall k :: k in keys ==> k.build.Builds?
    case FullText(_, build) => build.Builds?
    case FunctionCall(_, build) => build.Builds?
  }

  predicate ResourceLeaf(leaf: Leaf) {
    leaf.Comparison? && |leaf.keys| > 0 && leaf.keys[0].resource
  }

  /** No list is empty, no OR has two branches, and every leaf is compilable and on the given side. */
  ghost predicate WhollyOn(f: Filter, resource: bool) {
    match f
    case Or(branches) => |branches| == 1 && WhollyOn(branches[0], resource)
    case And(parts) => parts != [] && forall p :: p in parts ==> WhollyOn(p, resource)
    case Not(inner) => WhollyOn(inner, resource)
    case Group(inner) => WhollyOn(inner, resource)
    case Single(leaf) => OneSided(leaf) && BuildsEverything(leaf) && ResourceLeaf(leaf) == resource
  }

  /** No OR of two branches, every leaf one-sided and compilable, NOT only over what is wholly on one side. */
  ghost predicate Splittable(f: Filter) {
    match f
    case Or(branches) => |branches| == 1 && Splittable(branches[0])
    case And(parts) => forall p :: p in parts ==> Splittable(p)
    case Not(inner) => WhollyOn(inner, true) || WhollyOn(inner, false)
    case Group(inner) => Splittable(inner)
    case Single(leaf) => OneSided(leaf) && BuildsEverything(leaf)
  }

  function Side(resource: bool): Options {
    if resource then RESOURCE else MAIN
  }

  /** The clause that a leaf belongs to compiles it whole; the other one skips it. */
  lemma LeafGoesToOneSide(leaf: Leaf)
    requires OneSided(leaf) && BuildsEverything(leaf)
    ensures var resource := ResourceLeaf(leaf);
            && !LeafSkipped(leaf, Side(resource)) && KeepsAllKeys(leaf, Side(resource))
            && LeafSkipped(leaf, Side(!resource))
    ensures VisitLeaf(leaf, MAIN).errors == 0 && VisitLeaf(leaf, RESOURCE).errors == 0
  {
    if leaf.Comparison? {
      assert leaf.keys[0] in leaf.keys;
      KeysBuild(KeptKeys(leaf.keys, MAIN), MAIN);
      KeysBuild(KeptKeys(leaf.keys, RESOURCE), RESOURCE);
    }
  }

  /** What is wholly on one side is compiled whole by that side's clause and skipped by the other. */
  lemma {:induction false} WhollyGoesToOneSide(f: Filter, resource: bool)
    requires WhollyOn(f, resource)
    ensures NothingSkipped(f, Side(resource)) && Skipped(f, Side(!resource))
    ensures !HasOr(f)
  {
    match f
    case Or(branches) =>
      WhollyGoesToOneSide(branches[0], resource);
      assert forall b :: b in branches ==> b == branches[0];
    case And(parts) =>
      forall p | p in parts ensures NothingSkipped(p, Side(resource)) && Skipped(p, Side(!resource)) && !HasOr(p) {
        WhollyGoesToOneSide(p, resource);
      }
    case Not(inner) => WhollyGoesToOneSide(inner, resource);
    case Group(inner) => WhollyGoesToOneSide(inner, resource);
    case Single(leaf) => LeafGoesToOneSide(leaf);
  }

  lemma WhollySplits(f: Filter, resource: bool, row: Row)
    requires WhollyOn(f, resource)
    ensures Selects(Visit(f, Side(resource)).cond, row) <==> Means(f, row)
    ensures Skippable(Visit(f, Side(!resource)).cond)
    ensures !Skippable(Visit(f, Side(resource)).cond)
  {
    WhollyGoesToOneSide(f, resource);
    NothingSkippedIsExact(f, Side(resource), row);
    NothingSkippedCompiles(f, Side(resource));
    SkippedExactly(f, Side(resource));
    SkippedExactly(f, Side(!resource));
  }

  /** The main clause and the resource clause together select exactly the rows of the filter. */
  lemma {:induction false} SplitIsExact(f: Filter, row: Row)
    requires Splittable(f)
    ensures Selects(Visit(f, MAIN).cond, row) && Selects(Visit(f, RESOURCE).cond, row) <==> Means(f, row)
    decreases f
  {
    match f
    case Or(branches) =>
      SplitIsExact(branches[0], row);
      LoneBranch(branches, MAIN, row);
      LoneBranch(branches, RESOURCE, row);
      assert forall b :: b in branches ==> b == branches[0];
    case And(parts) =>
      AndSelects(parts, MAIN, row);
      AndSelects(parts, RESOURCE, row);
      forall p | p in parts
        ensures Selects(Visit(p, MAIN).cond, row) && Selects(Visit(p, RESOURCE).cond, row) <==> Means(p, row)
      {
        SplitIsExact(p, row);
      }
    case Not(inner) =>
      var resource := WhollyOn(inner, true);
      WhollySplits(inner, resource, row);
      assert Side(true) == RESOURCE && Side(false) == MAIN;
    case Group(inner) => SplitIsExact(inner, row);
    case Single(leaf) =>
      WhollySplits(f, ResourceLeaf(leaf), row);
      assert Side(true) == RESOURCE && Side(false) == MAIN;
  }

  /** An OR of one branch is visited like the branch. */
  lemma LoneBranch(branches: seq<Filter>, opts: Options, row: Row)
    requires |branches| == 1
    ensures Selects(Visit(Or(branches), opts).cond, row) <==> Selects(Visit(branches[0], opts).cond, row)
    ensures Visit(Or(branches), opts).errors == Visit(branches[0], opts).errors
  {
    assert VisitBranches(branches[1..], opts) == Collected([], 0);
  }

  ghost predicate PreparedSelects(p: Prepared, row: Row) {
    p.Clause? ==> Selects(p.cond, row)
  }

  lemma {:induction false} SplittableHasNoOr(f: Filter)
    requires Splittable(f)
    ensures !HasOr(f)
  {
    match f
    case Or(branches) =>
      SplittableHasNoOr(branches[0]);
      assert forall b :: b in branches ==> b == branches[0];
    case And(parts) =>
      forall p | p in parts ensures !HasOr(p) {
        SplittableHasNoOr(p);
      }
    case Not(inner) => WhollyGoesToOneSide(inner, WhollyOn(inner, true));
    case Group(inner) => SplittableHasNoOr(inner);
    case Single(_) =>
  }

  /** Every leaf can be compiled wherever it is not skipped. */
  ghost predicate Compilable(f: Filter) {
    match f
    case Or(branches) => forall b :: b in branches ==> Compilable(b)
    case And(parts) => forall p :: p in parts ==> Compilable(p)
    case Not(inner) => Compilable(inner)
    case Group(inner) => Compilable(inner)
    case Single(leaf) => OneSided(leaf) && BuildsEverything(leaf)
  }

  lemma {:induction false} WhollyIsCompilable(f: Filter, resource: bool)
    requires WhollyOn(f, resource)
    ensures Compilable(f)
  {
    match f
    case Or(branches) =>
      WhollyIsCompilable(branches[0], resource);
      assert forall b :: b in branches ==> b == branches[0];
    case And(parts) =>
      forall p | p in parts ensures Compilable(p) {
        WhollyIsCompilable(p, resource);
      }
    case Not(inner) => WhollyIsCompilable(inner, resource);
    case Group(inner) => WhollyIsCompilable(inner, resource);
    case Single(_) =>
  }

  lemma {:induction false} SplittableIsCompilable(f: Filter)
    requires Splittable(f)
    ensures Compilable(f)
  {
    match f
    case Or(branches) =>
      SplittableIsCompilable(branches[0]);
      assert forall b :: b in branches ==> b == branches[0];
    case And(parts) =>
      forall p | p in parts ensures Compilable(p) {
        SplittableIsCompilable(p);
      }
    case Not(inner) => WhollyIsCompilable(inner, WhollyOn(inner, true));
    case Group(inner) => SplittableIsCompilable(inner);
    case Single(_) =>
  }

  lemma {:induction false} CompilableHasNoErrors(f: Filter, opts: Options)
    requires Compilable(f) && opts in {MAIN, RESOURCE}
    ensures Visit(f, opts).errors == 0
    decreases f, 1
  {
    match f
    case Or(branches) => BranchesHaveNoErrors(branches, opts);
    case And(parts) => PartsHaveNoErrors(parts, opts);
    case Not(inner) => CompilableHasNoErrors(inner, opts);
    case Group(inner) => CompilableHasNoErrors(inner, opts);
    case Single(leaf) => LeafGoesToOneSide(leaf);
  }

  lemma {:induction false} BranchesHaveNoErrors(branches: seq<Filter>, opts: Options)
    requires (forall b :: b in branches ==> Compilable(b)) && opts in {MAIN, RESOURCE}
    ensures VisitBranches(branches, opts).errors == 0
    decreases branches, 0
  {
    if branches != [] {
      CompilableHasNoErrors(branches[0], opts);
      BranchesHaveNoErrors(branches[1..], opts);
    }
  }

  lemma {:induction false} PartsHaveNoErrors(parts: seq<Filter>, opts: Options)
    requires (forall p :: p in parts ==> Compilable(p)) && opts in {MAIN, RESOURCE}
    ensures VisitParts(parts, opts).1 == 0
    decreases parts, 0
  {
    if parts != [] {
      CompilableHasNoErrors(parts[0], opts);
      PartsHaveNoErrors(parts[1..], opts);
    }
  }

  /** The prepared main clause and the prepared resource clause, a missing clause selecting everything. */
  lemma PreparedSplitIsExact(f: Expression, row: Row)
    requires Splittable(f)
    ensures !Prepare(f, MAIN).Invalid? && !Prepare(f, RESOURCE).Invalid?
    ensures PreparedSelects(Prepare(f, MAIN), row) && PreparedSelects(Prepare(f, RESOURCE), row) <==> Means(f, row)
  {
    SplittableHasNoOr(f);
    SplittableIsCompilable(f);
    CompilableHasNoErrors(f, MAIN);
    CompilableHasNoErrors(f, RESOURCE);
    SplitIsExact(f, row);
  }

  /** A filter with an OR keeps its resource conditions in the main clause, which is then the whole filter. */
  lemma OrKeepsResourceConditions(f: Expression, row: Row)
    requires HasOr(f) && NothingSkipped(f, MAIN.(skipResource := false))
    requires Visit(f, MAIN.(skipResource := false)).errors == 0
    ensures Prepare(f, MAIN).Clause? && (Selects(Prepare(f, MAIN).cond, row) <==> Means(f, row))
  {
    NothingSkippedCompiles(f, MAIN.(skipResource := false));
    NothingExactlyWhenSkipped(f, MAIN);
    NothingSkippedIsExact(f, MAIN.(skipResource := false), row);
  }
}
