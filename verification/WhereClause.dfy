/** Compiling a filter to a WHERE clause, with the literals that stand for skipped and failed conditions. */
module WhereClause {
  import opened Wrappers

  /** A condition. `SkipLiteral` and `ErrorLiteral` are the two sentinel strings. */
  datatype Sql =
    | SkipLiteral
    | ErrorLiteral
    | Atom(id: nat)
    | SqlOr(conds: seq<Sql>)
    | SqlAnd(conds: seq<Sql>)
    | SqlNot(cond: Sql)
    | Paren(cond: Sql)

  /** What the condition builder does with a key: the condition it builds, or an error (recorded or silent). */
  datatype Build = Builds | Fails(recorded: bool)

  /** One resolved key of a comparison; `id` names the row condition on that key. */
  datatype Key = Key(id: nat, resource: bool, build: Build)

  datatype Leaf =
    | Comparison(keys: seq<Key>, negative: bool, notFoundRecorded: bool, allVariable: bool)
    | FullText(id: nat, build: Build)
    | FunctionCall(id: nat, build: Build)

  /** A node of the parsed filter. */
  datatype Filter =
    | Or(branches: seq<Filter>)
    | And(parts: seq<Filter>)
    | Not(inner: Filter)
    | Group(inner: Filter)
    | Single(leaf: Leaf)

  /** What the grammar parses: an OR of ANDs of unary expressions, NOT over a primary, a group around an OR. */
  type Expression = f: Filter | IsOrExpression(f) witness Or([And([Single(FullText(0, Builds))])])

  predicate IsOrExpression(f: Filter) {
    f.Or? && |f.branches| > 0 && forall b :: b in f.branches ==> IsAndExpression(b)
  }

  predicate IsAndExpression(f: Filter) {
    f.And? && |f.parts| > 0 && forall p :: p in f.parts ==> IsUnaryExpression(p)
  }

  predicate IsUnaryExpression(f: Filter)
    decreases f, 1
  {
    IsPrimary(f) || (f.Not? && IsPrimary(f.inner))
  }

  predicate IsPrimary(f: Filter)
    decreases f, 0
  {
    f.Single? || (f.Group? && IsOrExpression(f.inner))
  }

  /** `resourceOnly` is the builder of the resource sub-query, which skips every other key. */
  datatype Options = Options(skipResource: bool, skipFullText: bool, skipFunctions: bool, resourceOnly: bool)

  datatype Visited = Visited(cond: Sql, errors: nat)

  predicate Skippable(c: Sql) {
    c.SkipLiteral? || c.ErrorLiteral?
  }

  // ---- What the visitor computes ----

  function KeptKeys(keys: seq<Key>, opts: Options): (kept: seq<Key>)
    ensures forall k :: k in kept <==> k in keys && !(opts.skipResource && k.resource)
  {
    if keys == [] then []
    else if opts.skipResource && keys[0].resource then KeptKeys(keys[1..], opts)
    else [keys[0]] + KeptKeys(keys[1..], opts)
  }

  /** The conditions of the keys in order; stops at the first key whose condition cannot be built. */
  function KeyConditions(keys: seq<Key>, opts: Options): (r: (seq<Sql>, Option<Build>))
    ensures r.1.Some? ==> r.1.value.Fails?
  {
    if keys == [] then ([], None)
    else if opts.resourceOnly && !keys[0].resource then KeyConditions(keys[1..], opts)
    else if keys[0].build.Fails? then ([], Some(keys[0].build))
    else
      var rest := KeyConditions(keys[1..], opts);
      ([Atom(keys[0].id)] + rest.0, rest.1)
  }

  function OneOrMany(conds: seq<Sql>, conjunction: bool): Sql {
    if |conds| == 0 then SkipLiteral
    else if |conds| == 1 then conds[0]
    else if conjunction then SqlAnd(conds)
    else SqlOr(conds)
  }

  function Failure(recorded: bool): Visited {
    Visited(ErrorLiteral, if recorded then 1 else 0)
  }

  function VisitLeaf(leaf: Leaf, opts: Options): Visited {
    match leaf
    case Comparison(keys, negative, notFoundRecorded, allVariable) =>
      if |keys| == 0 then Failure(notFoundRecorded)
      else
        var kept := KeptKeys(keys, opts);
        if |kept| == 0 || allVariable then Visited(SkipLiteral, 0)
        else
          var r := KeyConditions(kept, opts);
          if r.1.Some? then Failure(r.1.value.recorded) else Visited(OneOrMany(r.0, negative), 0)
    case FullText(id, build) =>
      if opts.skipFullText then Visited(SkipLiteral, 0)
      else if build.Fails? then Failure(build.recorded)
      else Visited(Atom(id), 0)
    case FunctionCall(id, build) =>
      if opts.skipFunctions then Visited(SkipLiteral, 0)
      else if build.Fails? then Failure(build.recorded)
      else Visited(Atom(id), 0)
  }

  function Visit(f: Filter, opts: Options): Visited
    decreases f, 1
  {
    match f
    case Or(branches) => FinishOr(VisitBranches(branches, opts))
    case And(parts) =>
      var r := VisitParts(parts, opts);
      Visited(OneOrMany(r.0, true), r.1)
    case Not(inner) =>
      var r := Visit(inner, opts);
      if Skippable(r.cond) then r else Visited(SqlNot(r.cond), r.errors)
    case Group(inner) =>
      var r := Visit(inner, opts);
      if Skippable(r.cond) then r else Visited(Paren(r.cond), r.errors)
    case Single(leaf) => VisitLeaf(leaf, opts)
  }

  /** A branch that cannot be evaluated makes the whole OR so, and ends it. */
  datatype Branches = Stopped(cond: Sql, errors: nat) | Collected(conds: seq<Sql>, errors: nat)

  function FinishOr(r: Branches): Visited {
    match r
    case Stopped(cond, errors) => Visited(cond, errors)
    case Collected(conds, errors) => Visited(OneOrMany(conds, false), errors)
  }

  function VisitBranches(branches: seq<Filter>, opts: Options): Branches
    decreases branches, 0
  {
    if branches == [] then Collected([], 0)
    else
      var first := Visit(branches[0], opts);
      if Skippable(first.cond) then Stopped(first.cond, first.errors)
      else match VisitBranches(branches[1..], opts)
        case Stopped(cond, errors) => Stopped(cond, first.errors + errors)
        case Collected(conds, errors) => Collected([first.cond] + conds, first.errors + errors)
  }

  /** Parts that cannot be evaluated are left out of an AND. */
  function VisitParts(parts: seq<Filter>, opts: Options): (seq<Sql>, nat)
    decreases parts, 0
  {
    if parts == [] then ([], 0)
    else
      var first := Visit(parts[0], opts);
      var rest := VisitParts(parts[1..], opts);
      (if Skippable(first.cond) then rest.0 else [first.cond] + rest.0, first.errors + rest.1)
  }

  // ---- The visitor ----

  class FilterExpressionVisitor {
    const opts: Options
    var errors: nat

    constructor (opts: Options)
      ensures this.opts == opts && errors == 0
    {
      this.opts := opts;
      errors := 0;
    }

    method VisitFilter(f: Filter) returns (cond: Sql)
      modifies this
      ensures cond == Visit(f, opts).cond && errors == old(errors) + Visit(f, opts).errors
      decreases f, 1
    {
      match f
      case Or(branches) => cond := VisitOrExpression(branches);
      case And(parts) => cond := VisitAndExpression(parts);
      case Not(inner) =>
        cond := VisitFilter(inner);
        if !Skippable(cond) {
          cond := SqlNot(cond);
        }
      case Group(inner) =>
        cond := VisitFilter(inner);
        if !Skippable(cond) {
          cond := Paren(cond);
        }
      case Single(leaf) =>
        var r := VisitLeaf(leaf, opts);
        cond := r.cond;
        errors := errors + r.errors;
    }

    method VisitOrExpression(branches: seq<Filter>) returns (cond: Sql)
      modifies this
      ensures var r := FinishOr(VisitBranches(branches, opts)); cond == r.cond && errors == old(errors) + r.errors
      decreases branches, 0
    {
      var conds: seq<Sql> := [];
      var i := 0;
      assert branches[0..] == branches;
      while i < |branches|
        invariant 0 <= i <= |branches|
        invariant errors >= old(errors)
        invariant VisitBranches(branches, opts)
               == Prefixed(conds, errors - old(errors), VisitBranches(branches[i..], opts))
      {
        ghost var before := errors;
        var c := VisitFilter(branches[i]);
        NextBranch(branches, i, opts);
        if Skippable(c) {
          return c;
        }
        PrefixedTwice(conds, before - old(errors), c, errors - before, VisitBranches(branches[i + 1..], opts));
        conds := conds + [c];
        i := i + 1;
      }
      cond := OneOrMany(conds, false);
    }

    method VisitAndExpression(parts: seq<Filter>) returns (cond: Sql)
      modifies this
      ensures var r := VisitParts(parts, opts); cond == OneOrMany(r.0, true) && errors == old(errors) + r.1
      decreases parts, 0
    {
      var conds: seq<Sql> := [];
      var i := 0;
      assert parts[0..] == parts;
      while i < |parts|
        invariant 0 <= i <= |parts|
        invariant errors >= old(errors)
        invariant VisitParts(parts, opts).0 == conds + VisitParts(parts[i..], opts).0
        invariant VisitParts(parts, opts).1 == errors - old(errors) + VisitParts(parts[i..], opts).1
      {
        var c := VisitFilter(parts[i]);
        assert parts[i..][1..] == parts[i + 1..];
        if !Skippable(c) {
          conds := conds + [c];
        }
        i := i + 1;
      }
      cond := OneOrMany(conds, true);
    }
  }

  /** What was collected so far, in front of the rest. */
  ghost function Prefixed(conds: seq<Sql>, errors: nat, rest: Branches): Branches {
    match rest
    case Stopped(cond, e) => Stopped(cond, errors + e)
    case Collected(cs, e) => Collected(conds + cs, errors + e)
  }

  /** The branches from the i-th on: it stops them, or stands in front of the others. */
  lemma NextBranch(branches: seq<Filter>, i: nat, opts: Options)
    requires i < |branches|
    ensures var first, rest := Visit(branches[i], opts), VisitBranches(branches[i + 1..], opts);
            VisitBranches(branches[i..], opts) ==
            if Skippable(first.cond) then Stopped(first.cond, first.errors)
            else Prefixed([first.cond], first.errors, rest)
  {
    assert branches[i..][0] == branches[i] && branches[i..][1..] == branches[i + 1..];
  }

  lemma PrefixedTwice(conds: seq<Sql>, e: nat, cond: Sql, e': nat, rest: Branches)
    ensures Prefixed(conds, e, Prefixed([cond], e', rest)) == Prefixed(conds + [cond], e + e', rest)
  {
    if rest.Collected? {
      assert conds + ([cond] + rest.conds) == (conds + [cond]) + rest.conds;
    }
  }

  // ---- Preparing the clause ----

  /** Whether the expression has an OR token. */
  predicate HasOr(f: Filter) {
    match f
    case Or(branches) => |branches| > 1 || exists b :: b in branches && HasOr(b)
    case And(parts) => exists p :: p in parts && HasOr(p)
    case Not(inner) => HasOr(inner)
    case Group(inner) => HasOr(inner)
    case Single(_) => false
  }

  datatype Prepared = Nothing | Invalid(errors: nat) | Clause(cond: Sql)

  /** An OR anywhere turns the skipping of resource conditions off. */
  function Effective(f: Filter, opts: Options): Options {
    if HasOr(f) then opts.(skipResource := false) else opts
  }

  method PrepareWhereClause(f: Expression, opts: Options) returns (p: Prepared)
    ensures p == Prepare(f, opts)
  {
    var visitor := new FilterExpressionVisitor(Effective(f, opts));
    var cond := visitor.VisitFilter(f);
    if visitor.errors > 0 {
      return Invalid(visitor.errors);
    }
    if cond == SkipLiteral {
      return Nothing;
    }
    return Clause(cond);
  }

  function Prepare(f: Expression, opts: Options): Prepared {
    var r := Visit(f, Effective(f, opts));
    if r.errors > 0 then Invalid(r.errors)
    else if r.cond == SkipLiteral then Nothing
    else Clause(r.cond)
  }

  // ---- Sentinels ----

  ghost predicate NoSentinel(c: Sql) {
    match c
    case SkipLiteral => false
    case ErrorLiteral => false
    case Atom(_) => true
    case SqlOr(conds) => forall d :: d in conds ==> NoSentinel(d)
    case SqlAnd(conds) => forall d :: d in conds ==> NoSentinel(d)
    case SqlNot(d) => NoSentinel(d)
    case Paren(d) => NoSentinel(d)
  }

  lemma {:induction false} KeyConditionsClean(keys: seq<Key>, opts: Options)
    ensures forall c :: c in KeyConditions(keys, opts).0 ==> NoSentinel(c)
    decreases |keys|
  {
    if keys != [] {
      KeyConditionsClean(keys[1..], opts);
    }
  }

  lemma {:induction false} VisitIsClean(f: Filter, opts: Options)
    ensures Skippable(Visit(f, opts).cond) || NoSentinel(Visit(f, opts).cond)
    decreases f, 1
  {
    match f
    case Or(branches) => BranchesAreClean(branches, opts);
    case And(parts) => PartsAreClean(parts, opts);
    case Not(inner) => VisitIsClean(inner, opts);
    case Group(inner) => VisitIsClean(inner, opts);
    case Single(leaf) =>
      if leaf.Comparison? {
        KeyConditionsClean(KeptKeys(leaf.keys, opts), opts);
      }
  }

  lemma OneOrManyClean(conds: seq<Sql>, conjunction: bool)
    requires forall c :: c in conds ==> NoSentinel(c)
    ensures OneOrMany(conds, conjunction) == SkipLiteral || NoSentinel(OneOrMany(conds, conjunction))
  {
    if |conds| == 1 {
      assert conds[0] in conds;
    }
  }

  lemma {:induction false} BranchesAreClean(branches: seq<Filter>, opts: Options)
    ensures VisitBranches(branches, opts).Stopped? ==> Skippable(VisitBranches(branches, opts).cond)
    ensures VisitBranches(branches, opts).Collected? ==>
              forall c :: c in VisitBranches(branches, opts).conds ==> NoSentinel(c)
    decreases branches, 0
  {
    if branches != [] {
      VisitIsClean(branches[0], opts);
      BranchesAreClean(branches[1..], opts);
    }
  }

  lemma {:induction false} PartsAreClean(parts: seq<Filter>, opts: Options)
    ensures forall c :: c in VisitParts(parts, opts).0 ==> NoSentinel(c)
    decreases parts, 0
  {
    if parts != [] {
      VisitIsClean(parts[0], opts);
      PartsAreClean(parts[1..], opts);
    }
  }

  /** An AND never passes the error sentinel on, and the grammar puts an AND above every leaf. */
  lemma AndDropsErrors(parts: seq<Filter>, opts: Options)
    ensures Visit(And(parts), opts).cond == SkipLiteral || NoSentinel(Visit(And(parts), opts).cond)
  {
    PartsAreClean(parts, opts);
    OneOrManyClean(VisitParts(parts, opts).0, true);
  }

  lemma {:induction false} AndsDropErrors(branches: seq<Filter>, opts: Options)
    requires forall b :: b in branches ==> b.And?
    ensures VisitBranches(branches, opts).Stopped? ==> VisitBranches(branches, opts).cond == SkipLiteral
    decreases |branches|
  {
    if branches != [] {
      AndDropsErrors(branches[0].parts, opts);
      AndsDropErrors(branches[1..], opts);
    }
  }

  lemma ExpressionDropsErrors(f: Expression, opts: Options)
    ensures Visit(f, opts).cond == SkipLiteral || NoSentinel(Visit(f, opts).cond)
  {
    assert forall b :: b in f.branches ==> IsAndExpression(b);
    AndsDropErrors(f.branches, opts);
    BranchesAreClean(f.branches, opts);
    if VisitBranches(f.branches, opts).Collected? {
      OneOrManyClean(VisitBranches(f.branches, opts).conds, false);
    }
  }

  /** Whatever fails or is skipped, and whether or not the failure is recorded: no prepared clause holds a sentinel. */
  lemma PreparedClauseIsClean(f: Expression, opts: Options)
    requires Prepare(f, opts).Clause?
    ensures NoSentinel(Prepare(f, opts).cond)
  {
    ExpressionDropsErrors(f, Effective(f, opts));
  }
}
