/** Which filters end the detection with a panic: an equality and a lone `%` pattern meet on one field. */
module LikePanics {
  import opened Constraints
  import opened Findings
  import opened Contradictions
  import opened ContradictionSoundness
  import opened ContradictionLimits

  ghost predicate Slices(s: set<Constraint>, t: set<Constraint>, field: string) {
    exists a, b :: a in s && b in t && a.field == field == b.field && SlicedOutOfRange(a, b)
  }

  /** One set has an equality on the field and the other a lone `%`. */
  ghost predicate Meet(s: set<Constraint>, t: set<Constraint>, field: string) {
    Slices(s, t, field) || Slices(t, s, field)
  }

  /** What is still collected once f has been walked: nothing of an OR of several branches. */
  ghost function Left(f: Filter, negated: bool): set<Constraint>
    decreases f, 1
  {
    match f
    case Or(branches) => if |branches| == 1 then Left(branches[0], negated) else {}
    case And(parts) => LeftOfAll(parts, negated)
    case Not(inner) => Left(inner, !negated)
    case Compare(c) => Atoms(c, negated)
    case Other(_) => {}
  }

  ghost function LeftOfAll(parts: seq<Filter>, negated: bool): set<Constraint>
    decreases parts, 0
  {
    if parts == [] then {} else Left(parts[0], negated) + LeftOfAll(parts[1..], negated)
  }

  /** Inside some AND, what one part leaves meets something anywhere in a later part. */
  ghost predicate MeetsLater(f: Filter, negated: bool, field: string)
    decreases f, 1
  {
    match f
    case Or(branches) => exists b :: b in branches && MeetsLater(b, negated, field)
    case And(parts) => MeetsAlong(parts, negated, field)
    case Not(inner) => MeetsLater(inner, !negated, field)
    case Compare(_) => false
    case Other(_) => false
  }

  ghost predicate MeetsAlong(parts: seq<Filter>, negated: bool, field: string)
    decreases parts, 0
  {
    && parts != []
    && (|| MeetsLater(parts[0], negated, field)
        || Meet(Left(parts[0], negated), LiteralsOfAll(parts[1..], negated), field)
        || MeetsAlong(parts[1..], negated, field))
  }

  // ---- The walk ----

  /** All constraints collected. */
  ghost function Pool(m: Collected): set<Constraint> {
    set field, c | field in m && c in m[field] :: c
  }

  ghost predicate OwnFields(m: Collected) {
    forall field, c :: field in m && c in m[field] ==> c.field == field
  }

  lemma PoolGrows(m: Collected, c: Comparison, negated: bool)
    requires OwnFields(m)
    ensures var m' := AddConstraint(m, Extract(c, negated));
            OwnFields(m') && Pool(m') == Pool(m) + Atoms(c, negated)
  {
    var x := Extract(c, negated);
    var m' := AddConstraint(m, x);
    forall k ensures k in Pool(m') <==> k in Pool(m) + Atoms(c, negated) {
      if k in Pool(m) || k in Atoms(c, negated) {
        assert k in m'[k.field];
      }
    }
  }

  lemma {:induction false} WalkLeaves(f: Filter, negated: bool, s: Scan)
    requires OwnFields(s.constraints)
    ensures var m := Visit(f, negated, s).constraints;
            OwnFields(m) && Pool(m) == Pool(s.constraints) + Left(f, negated)
    decreases f, 1
  {
    match f
    case Or(branches) =>
      if |branches| == 1 {
        WalkLeaves(branches[0], negated, s);
      } else {
        BranchesKeepConstraints(branches, negated, s);
      }
    case And(parts) => PartsLeave(parts, negated, s);
    case Not(inner) => WalkLeaves(inner, !negated, s);
    case Compare(c) => PoolGrows(s.constraints, c, negated);
    case Other(_) =>
  }

  lemma {:induction false} PartsLeave(parts: seq<Filter>, negated: bool, s: Scan)
    requires OwnFields(s.constraints)
    ensures var m := VisitParts(parts, negated, s).constraints;
            OwnFields(m) && Pool(m) == Pool(s.constraints) + LeftOfAll(parts, negated)
    decreases parts, 0
  {
    if parts != [] {
      WalkLeaves(parts[0], negated, s);
      PartsLeave(parts[1..], negated, Visit(parts[0], negated, s));
    }
  }

  lemma {:induction false} LeftIsLiteral(f: Filter, negated: bool)
    ensures Left(f, negated) <= Literals(f, negated)
    decreases f, 1
  {
    match f
    case Or(branches) =>
      if |branches| == 1 {
        LeftIsLiteral(branches[0], negated);
      }
    case And(parts) => AllLeftAreLiterals(parts, negated);
    case Not(inner) => LeftIsLiteral(inner, !negated);
    case Compare(_) =>
    case Other(_) =>
  }

  lemma {:induction false} AllLeftAreLiterals(parts: seq<Filter>, negated: bool)
    ensures LeftOfAll(parts, negated) <= LiteralsOfAll(parts, negated)
    decreases parts, 0
  {
    if parts != [] {
      LeftIsLiteral(parts[0], negated);
      AllLeftAreLiterals(parts[1..], negated);
    }
  }

  // ---- When a check panics ----

  lemma CheckPanics(m: Collected, field: string)
    requires OwnFields(m)
    ensures Reported(m, Report(field, PatternOutOfRange)) <==> Slices(Pool(m), Pool(m), field)
  {
    if Slices(Pool(m), Pool(m), field) {
      var a, b :| a in Pool(m) && b in Pool(m) && a.field == field == b.field && SlicedOutOfRange(a, b);
      TwoMembers(m[field], a, b);
      assert Clashes(PatternOutOfRange, a, b);
    }
    if Reported(m, Report(field, PatternOutOfRange)) {
      var a, b :| a in m[field] && b in m[field] && Clashes(PatternOutOfRange, a, b);
      assert a in Pool(m) && b in Pool(m);
    }
  }

  lemma TwoMembers(cs: seq<Constraint>, a: Constraint, b: Constraint)
    requires a in cs && b in cs && a != b
    ensures |cs| >= 2
  {
    var i :| 0 <= i < |cs| && cs[i] == a;
    var j :| 0 <= j < |cs| && cs[j] == b;
  }

  /** Every pair that has come together so far has been checked. */
  ghost predicate Checked(s: Scan, field: string) {
    && OwnFields(s.constraints)
    && (Slices(Pool(s.constraints), Pool(s.constraints), field) ==> Report(field, PatternOutOfRange) in s.reports)
  }

  lemma MeetUnion(s: set<Constraint>, t: set<Constraint>, u: set<Constraint>, field: string)
    ensures Meet(s, t + u, field) <==> Meet(s, t, field) || Meet(s, u, field)
    ensures Meet(t + u, s, field) <==> Meet(t, s, field) || Meet(u, s, field)
    ensures Slices(s + t, s + t, field) <==> Slices(s, s, field) || Slices(t, t, field) || Meet(s, t, field)
  {
  }

  /** A comparison alone brings no pair, and one that is not checked at once is in none. */
  lemma OneIsNoPair(c: Comparison, negated: bool, s: set<Constraint>, field: string)
    ensures !Slices(Atoms(c, negated), Atoms(c, negated), field)
    ensures !ChecksAtOnce(c.op) ==> !Meet(s, Atoms(c, negated), field)
  {
  }

  lemma ComparisonPanics(c: Comparison, negated: bool, s: Scan, field: string)
    requires Checked(s, field)
    ensures var s' := Visit(Compare(c), negated, s);
            && Checked(s', field)
            && (Report(field, PatternOutOfRange) in s'.reports <==>
                  || Report(field, PatternOutOfRange) in s.reports
                  || Meet(Pool(s.constraints), Atoms(c, negated), field))
  {
    var m := AddConstraint(s.constraints, Extract(c, negated));
    PoolGrows(s.constraints, c, negated);
    CheckPanics(m, field);
    MeetUnion(Pool(s.constraints), Atoms(c, negated), {}, field);
    OneIsNoPair(c, negated, Pool(s.constraints), field);
  }

  /** The walk of f panics on a field when something collected before it meets a comparison anywhere in f, or when two
      of its own comparisons meet. */
  lemma {:induction false} WalkPanics(f: Filter, negated: bool, s: Scan, field: string)
    requires Checked(s, field)
    ensures var s' := Visit(f, negated, s);
            && Checked(s', field)
            && (Report(field, PatternOutOfRange) in s'.reports <==>
                  || Report(field, PatternOutOfRange) in s.reports
                  || MeetsLater(f, negated, field)
                  || Meet(Pool(s.constraints), Literals(f, negated), field))
    decreases f, 1
  {
    match f
    case Or(branches) =>
      if |branches| == 1 {
        WalkPanics(branches[0], negated, s, field);
        assert branches == [branches[0]] && LiteralsOfAll(branches[1..], negated) == {};
        assert Literals(f, negated) == Literals(branches[0], negated);
      } else {
        BranchesPanic(branches, negated, s, field);
        BranchesKeepConstraints(branches, negated, s);
      }
    case And(parts) => PartsPanic(parts, negated, s, field);
    case Not(inner) => WalkPanics(inner, !negated, s, field);
    case Compare(c) => ComparisonPanics(c, negated, s, field);
    case Other(_) =>
  }

  lemma {:induction false} BranchesPanic(branches: seq<Filter>, negated: bool, s: Scan, field: string)
    requires Checked(s, field)
    ensures var s' := VisitBranches(branches, negated, s);
            && (Report(field, PatternOutOfRange) in s'.reports <==>
                  || Report(field, PatternOutOfRange) in s.reports
                  || (exists b :: b in branches && MeetsLater(b, negated, field))
                  || Meet(Pool(s.constraints), LiteralsOfAll(branches, negated), field))
            && (Report(field, PatternOutOfRange) in s.reports ==> Report(field, PatternOutOfRange) in s'.reports)
    decreases branches, 0
  {
    if branches != [] {
      var first := Visit(branches[0], negated, s);
      WalkPanics(branches[0], negated, s, field);
      BranchesPanic(branches[1..], negated, s.(reports := first.reports), field);
      MeetUnion(Pool(s.constraints), Literals(branches[0], negated), LiteralsOfAll(branches[1..], negated), field);
      assert forall b :: b in branches <==> b == branches[0] || b in branches[1..];
    }
  }

  lemma {:induction false} PartsPanic(parts: seq<Filter>, negated: bool, s: Scan, field: string)
    requires Checked(s, field)
    ensures var s' := VisitParts(parts, negated, s);
            && Checked(s', field)
            && (Report(field, PatternOutOfRange) in s'.reports <==>
                  || Report(field, PatternOutOfRange) in s.reports
                  || MeetsAlong(parts, negated, field)
                  || Meet(Pool(s.constraints), LiteralsOfAll(parts, negated), field))
    decreases parts, 0
  {
    if parts != [] {
      var pool, rest := Pool(s.constraints), LiteralsOfAll(parts[1..], negated);
      WalkPanics(parts[0], negated, s, field);
      WalkLeaves(parts[0], negated, s);
      PartsPanic(parts[1..], negated, Visit(parts[0], negated, s), field);
      MeetUnion(pool, Literals(parts[0], negated), rest, field);
      MeetUnion(rest, pool, Left(parts[0], negated), field);
    }
  }

  /** For every filter, the detection panics on a field exactly when, inside some AND, an equality on it and a lone `%`
      on it stand in different parts, and the one in the earlier part is not in an OR of several branches there. */
  lemma PanicsExactly(f: Filter, field: string)
    ensures Report(field, PatternOutOfRange) in Detect(f) <==> MeetsLater(f, false, field)
  {
    var start := Scan(map[], iset{});
    assert Pool(start.constraints) == {};
    WalkPanics(f, false, start, field);
    var s := Visit(f, false, start);
    CheckPanics(s.constraints, field);
  }

  // ---- Conjunctions, disjuncts and witnesses ----

  ghost predicate EqualOn(c: Comparison, field: string) {
    c.op == Equal && c.field == field
  }

  ghost predicate LonePercentOn(c: Comparison, field: string) {
    c.op in {Like, ILike} && c.field == field && TextOf(Extract(c, false)) == "%"
  }

  lemma {:induction false} LiteralsOfConjunction(cs: seq<Comparison>)
    ensures forall c :: c in LiteralsOfAll(Conjunction(cs).parts, false) <==>
            exists k :: k in cs && c in Atoms(k, false)
    decreases |cs|
  {
    if cs != [] {
      var parts := Conjunction(cs).parts;
      assert parts[0] == Compare(cs[0]) && parts[1..] == Conjunction(cs[1..]).parts;
      LiteralsOfConjunction(cs[1..]);
      assert forall k :: k in cs <==> k == cs[0] || k in cs[1..];
    }
  }

  lemma {:induction false} ConjunctionMeets(cs: seq<Comparison>, field: string)
    ensures var all := LiteralsOfAll(Conjunction(cs).parts, false);
            MeetsAlong(Conjunction(cs).parts, false, field) <==> Slices(all, all, field)
    decreases |cs|
  {
    if cs != [] {
      var parts := Conjunction(cs).parts;
      assert parts[0] == Compare(cs[0]) && parts[1..] == Conjunction(cs[1..]).parts;
      ConjunctionMeets(cs[1..], field);
      var first := Atoms(cs[0], false);
      OneIsNoPair(cs[0], false, first, field);
      MeetUnion(first, LiteralsOfAll(parts[1..], false), {}, field);
    }
  }

  lemma AtomsInPair(a: Comparison, b: Comparison, x: Constraint, y: Constraint, field: string)
    requires x in Atoms(a, false) && y in Atoms(b, false) && x.field == field == y.field && SlicedOutOfRange(x, y)
    ensures EqualOn(a, field) && LonePercentOn(b, field)
  {
  }

  lemma PairOfAtoms(a: Comparison, b: Comparison, field: string) returns (x: Constraint, y: Constraint)
    requires EqualOn(a, field) && LonePercentOn(b, field)
    ensures x in Atoms(a, false) && y in Atoms(b, false) && x.field == field == y.field && SlicedOutOfRange(x, y)
  {
    x, y := Extract(a, false), Extract(b, false);
  }

  lemma PairAmong(cs: seq<Comparison>, field: string)
    ensures var all := LiteralsOfAll(Conjunction(cs).parts, false);
            Slices(all, all, field) <==>
              exists a, b :: a in cs && b in cs && EqualOn(a, field) && LonePercentOn(b, field)
  {
    LiteralsOfConjunction(cs);
    var all := LiteralsOfAll(Conjunction(cs).parts, false);
    if x, y :| x in all && y in all && x.field == field == y.field && SlicedOutOfRange(x, y) {
      var a :| a in cs && x in Atoms(a, false);
      var b :| b in cs && y in Atoms(b, false);
      AtomsInPair(a, b, x, y, field);
    }
    if a, b :| a in cs && b in cs && EqualOn(a, field) && LonePercentOn(b, field) {
      var x, y := PairOfAtoms(a, b, field);
      assert x in all && y in all;
    }
  }

  /** A conjunction of comparisons ends the detection with a panic exactly when it has an equality and a lone `%` on one
      field. */
  lemma ConjunctionPanicsExactly(cs: seq<Comparison>)
    ensures Panics(Conjunction(cs)) <==>
              exists a, b :: a in cs && b in cs && EqualOn(a, b.field) && LonePercentOn(b, b.field)
  {
    forall field ensures Report(field, PatternOutOfRange) in Detect(Conjunction(cs)) <==>
        exists a, b :: a in cs && b in cs && EqualOn(a, field) && LonePercentOn(b, field)
    {
      PanicsExactly(Conjunction(cs), field);
      ConjunctionMeets(cs, field);
      PairAmong(cs, field);
    }
    if a, b :| a in cs && b in cs && EqualOn(a, b.field) && LonePercentOn(b, b.field) {
      assert Report(b.field, PatternOutOfRange) in Detect(Conjunction(cs));
    }
    if field :| Report(field, PatternOutOfRange) in Detect(Conjunction(cs)) {
      var a, b :| a in cs && b in cs && EqualOn(a, field) && LonePercentOn(b, field);
      assert EqualOn(a, b.field) && LonePercentOn(b, b.field);
    }
  }

  /** In the fragment the two stand in one disjunct of the filter. */
  lemma PanicIsInOneDisjunct(f: Filter, field: string)
    requires InFragment(f, false) && Report(field, PatternOutOfRange) in Detect(f)
    ensures exists D :: Disjunct(f, false, D) && Slices(D, D, field)
  {
    var D := ReportComesFromDisjunct(f, Report(field, PatternOutOfRange));
    var cs :| Drawn(cs, field, D) && Finding(PatternOutOfRange, cs);
    var a, b :| a in cs && b in cs && Clashes(PatternOutOfRange, a, b);
    assert Slices(D, D, field);
  }

  lemma TwoParts(p: Filter, q: Filter, field: string)
    ensures LiteralsOfAll([p, q], false) == Literals(p, false) + Literals(q, false)
    ensures MeetsAlong([p, q], false, field) <==>
              || MeetsLater(p, false, field)
              || Meet(Left(p, false), Literals(q, false), field)
              || MeetsLater(q, false, field)
  {
    var rest := [p, q][1..];
    assert rest == [q] && rest[1..] == [];
    assert LiteralsOfAll(rest, false) == Literals(q, false) + LiteralsOfAll([], false) == Literals(q, false);
    assert MeetsAlong(rest, false, field) <==> MeetsLater(q, false, field) || Meet(Left(q, false), {}, field);
    assert !Meet(Left(q, false), {}, field);
  }

  /** An OR of several branches leaves nothing to what follows: it panics with q only if one of them does alone. */
  lemma OrLeavesNothing(branches: seq<Filter>, q: Filter, field: string)
    requires |branches| != 1
    ensures var rep, either := Report(field, PatternOutOfRange), Or(branches);
            rep in Detect(And([either, q])) <==> rep in Detect(either) || rep in Detect(q)
  {
    var either := Or(branches);
    TwoParts(either, q, field);
    PanicsExactly(And([either, q]), field);
    PanicsExactly(either, field);
    PanicsExactly(q, field);
  }

  function EitherEquals(f: string, g: string, v: Literal): Filter {
    Or([Compare(One(f, Equal, v)), Compare(One(g, Equal, v))])
  }

  lemma EitherMeetsNothing(f: string, g: string, v: Literal, field: string)
    ensures !MeetsLater(EitherEquals(f, g, v), false, field)
  {
    assert forall b :: b in EitherEquals(f, g, v).branches ==> b.Compare?;
  }

  /** So the order matters: `f LIKE '%' AND (f = v OR g = v)` panics, and with the parts the other way round it does
      not. */
  lemma OrderDecides(f: string, g: string, v: Literal, any: Literal)
    requires any.text == "%"
    ensures var like, either := Compare(One(f, Like, any)), EitherEquals(f, g, v);
            Panics(And([like, either])) && !Panics(And([either, like]))
  {
    var like, either := Compare(One(f, Like, any)), EitherEquals(f, g, v);
    LikeMeetsEither(f, g, v, any);
    TwoParts(like, either, f);
    PanicsExactly(And([like, either]), f);
    forall field ensures Report(field, PatternOutOfRange) !in Detect(And([either, like])) {
      OrLeavesNothing(either.branches, like, field);
      EitherMeetsNothing(f, g, v, field);
      PanicsExactly(either, field);
      PanicsExactly(like, field);
    }
  }

  lemma LikeMeetsEither(f: string, g: string, v: Literal, any: Literal)
    requires any.text == "%"
    ensures Meet(Left(Compare(One(f, Like, any)), false), Literals(EitherEquals(f, g, v), false), f)
  {
    var inF, inG := Compare(One(f, Equal, v)), Compare(One(g, Equal, v));
    var x, y := Extract(One(f, Equal, v), false), Extract(One(f, Like, any), false);
    TwoParts(inF, inG, f);
    assert x in Literals(inF, false) && y in Left(Compare(One(f, Like, any)), false) && SlicedOutOfRange(x, y);
  }

  /** `f = v AND f LIKE '%'` ends the detection with a panic, and a record satisfies it wherever `%` accepts v. */
  lemma SatisfiablePanic(field: string, v: Literal, any: Literal, m: Matcher, others: nat -> bool)
    requires v.number.Some? && any.text == "%" && m(Like, [any], v.number.value)
    ensures var f := Both(One(field, Equal, v), One(field, Like, any));
            Panics(f) && Eval(f, map[field := v.number.value], m, others)
  {
    var a, b := One(field, Equal, v), One(field, Like, any);
    var cs := [a, b];
    assert Conjunction(cs) == Both(a, b);
    assert a in cs && b in cs && EqualOn(a, field) && LonePercentOn(b, field);
    ConjunctionPanicsExactly(cs);
    BothHold(a, b, v, any, m);
    EvalBoth(a, b, map[field := v.number.value], m, others);
  }

  lemma BothHold(a: Comparison, b: Comparison, v: Literal, any: Literal, m: Matcher)
    requires a.field == b.field && a.op == Equal && a.values == [v] && b.op == Like && b.values == [any]
    requires v.number.Some? && m(Like, [any], v.number.value)
    ensures var r: Record := map[a.field := v.number.value]; Means(a, r, m) && Means(b, r, m)
  {
  }
}
