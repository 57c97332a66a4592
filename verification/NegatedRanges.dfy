/** NOT over a comparison: a range comparison under NOT is taken to require its field. When a report survives that. */
module NegatedRanges {
  import opened Wrappers
  import opened Constraints
  import opened Findings
  import opened Contradictions
  import opened ContradictionSoundness
  import opened ContradictionLimits

  /** A comparison, under NOT or not. */
  datatype Signed = Signed(cmp: Comparison, negated: bool)

  function Leaf(s: Signed): Filter {
    if s.negated then Not(Compare(s.cmp)) else Compare(s.cmp)
  }

  function Leaves(ss: seq<Signed>): (fs: seq<Filter>)
    ensures |fs| == |ss| && forall i :: 0 <= i < |ss| ==> fs[i] == Leaf(ss[i])
  {
    seq(|ss|, i requires 0 <= i < |ss| => Leaf(ss[i]))
  }

  function AllOf(ss: seq<Signed>): Filter {
    And(Leaves(ss))
  }

  /** IN and NOT IN carry a list. */
  predicate InListForm(s: Signed) {
    s.cmp.op in {In, NotIn} ==> s.cmp.listForm
  }

  /** False of a record that does not have its field. */
  predicate NeedsField(s: Signed) {
    s.negated == IsNegativeOperator(s.cmp.op)
  }

  /** The conjuncts on other fields. */
  function Elsewhere(ss: seq<Signed>, field: string): (rest: seq<Signed>)
    ensures forall s :: s in rest <==> s in ss && s.cmp.field != field
  {
    if ss == [] then []
    else if ss[0].cmp.field == field then Elsewhere(ss[1..], field)
    else [ss[0]] + Elsewhere(ss[1..], field)
  }

  ghost predicate LeafHolds(s: Signed, r: Record, m: Matcher) {
    Means(s.cmp, r, m) != s.negated
  }

  lemma EvalAllOf(ss: seq<Signed>, r: Record, m: Matcher, others: nat -> bool)
    ensures Eval(AllOf(ss), r, m, others) <==> AllLeavesHold(ss, r, m)
  {
    var parts := Leaves(ss);
    forall s ensures Eval(Leaf(s), r, m, others) <==> LeafHolds(s, r, m) {
      if s.negated {
        assert Eval(Leaf(s), r, m, others) <==> !Eval(Compare(s.cmp), r, m, others);
      }
    }
    if Eval(AllOf(ss), r, m, others) {
      forall s | s in ss ensures LeafHolds(s, r, m) {
        var i :| 0 <= i < |ss| && ss[i] == s;
        assert parts[i] in parts;
      }
    }
    if forall s :: s in ss ==> LeafHolds(s, r, m) {
      forall p | p in parts ensures Eval(p, r, m, others) {
        var i :| 0 <= i < |parts| && parts[i] == p;
        assert ss[i] in ss;
      }
    }
  }

  // ---- Filters as conjunctions of signed comparisons ----

  /** The comparisons of a filter, each with whether the NOTs around it negate it. */
  function SignedLeaves(f: Filter, negated: bool): seq<Signed>
    decreases f, 1
  {
    match f
    case Or(branches) => LeavesOfAll(branches, negated)
    case And(parts) => LeavesOfAll(parts, negated)
    case Not(inner) => SignedLeaves(inner, !negated)
    case Compare(c) => [Signed(c, negated)]
    case Other(_) => []
  }

  function LeavesOfAll(fs: seq<Filter>, negated: bool): seq<Signed>
    decreases fs, 0
  {
    if fs == [] then [] else SignedLeaves(fs[0], negated) + LeavesOfAll(fs[1..], negated)
  }

  ghost predicate AllLeavesHold(ss: seq<Signed>, r: Record, m: Matcher) {
    forall s :: s in ss ==> LeafHolds(s, r, m)
  }

  /** Those of a conjunction are its conjuncts. */
  lemma LeavesOfConjunction(ss: seq<Signed>)
    ensures SignedLeaves(AllOf(ss), false) == ss
  {
    LeavesInOrder(ss);
  }

  lemma {:induction false} LeavesInOrder(ss: seq<Signed>)
    ensures LeavesOfAll(Leaves(ss), false) == ss
    decreases |ss|
  {
    if ss != [] {
      assert Leaves(ss)[1..] == Leaves(ss[1..]);
      LeavesInOrder(ss[1..]);
      assert SignedLeaves(Leaf(ss[0]), false) == [ss[0]] by {
        if ss[0].negated {
          assert SignedLeaves(Leaf(ss[0]), false) == SignedLeaves(Compare(ss[0].cmp), true);
        }
      }
    }
  }

  /** A filter without a choice between branches is the conjunction of its signed comparisons. */
  lemma {:induction false} EvalByLeaves(f: Filter, negated: bool, r: Record, m: Matcher, others: nat -> bool)
    requires OrFree(f, negated) && ComparisonsOnly(f)
    ensures Eval(f, r, m, others) != negated <==> AllLeavesHold(SignedLeaves(f, negated), r, m)
    decreases f, 1
  {
    match f
    case Or(branches) =>
      EvalAllByLeaves(branches, negated, r, m, others);
      if |branches| == 1 {
        assert branches[0] in branches && forall b :: b in branches ==> b == branches[0];
      }
    case And(parts) =>
      EvalAllByLeaves(parts, negated, r, m, others);
      if |parts| == 1 {
        assert parts[0] in parts && forall p :: p in parts ==> p == parts[0];
      }
    case Not(inner) => EvalByLeaves(inner, !negated, r, m, others);
    case Compare(c) => assert Signed(c, negated) in SignedLeaves(f, negated);
    case Other(_) =>
  }

  lemma {:induction false} EvalAllByLeaves(fs: seq<Filter>, negated: bool, r: Record, m: Matcher, others: nat -> bool)
    requires forall f :: f in fs ==> OrFree(f, negated) && ComparisonsOnly(f)
    ensures (forall f :: f in fs ==> Eval(f, r, m, others) != negated) <==>
              AllLeavesHold(LeavesOfAll(fs, negated), r, m)
    decreases fs, 0
  {
    if fs != [] {
      EvalByLeaves(fs[0], negated, r, m, others);
      EvalAllByLeaves(fs[1..], negated, r, m, others);
      assert forall f :: f in fs <==> f == fs[0] || f in fs[1..];
    }
  }

  lemma {:induction false} LiteralsOfLeaves(f: Filter, negated: bool, c: Constraint)
    ensures c in Literals(f, negated) <==> exists s :: s in SignedLeaves(f, negated) && c in Atoms(s.cmp, s.negated)
    decreases f, 1
  {
    match f
    case Or(branches) => LiteralsOfAllLeaves(branches, negated, c);
    case And(parts) => LiteralsOfAllLeaves(parts, negated, c);
    case Not(inner) => LiteralsOfLeaves(inner, !negated, c);
    case Compare(cmp) => assert Signed(cmp, negated) in SignedLeaves(f, negated);
    case Other(_) =>
  }

  lemma {:induction false} LiteralsOfAllLeaves(fs: seq<Filter>, negated: bool, c: Constraint)
    ensures c in LiteralsOfAll(fs, negated) <==>
            exists s :: s in LeavesOfAll(fs, negated) && c in Atoms(s.cmp, s.negated)
    decreases fs, 0
  {
    if fs != [] {
      LiteralsOfLeaves(fs[0], negated, c);
      LiteralsOfAllLeaves(fs[1..], negated, c);
    }
  }

  /** Comparisons over clean literals, with their lists in brackets, and no choice between branches. */
  ghost predicate Straight(f: Filter) {
    && InFragment(f, false) && OrFree(f, false) && ComparisonsOnly(f) && Clean(Literals(f, false))
    && forall s :: s in SignedLeaves(f, false) ==> InListForm(s)
  }

  /** Of the atoms that a report is found among, one fails on every record. */
  lemma SomeAtomFails(f: Filter, rep: Report, r: Record, m: Matcher) returns (c: Constraint)
    requires InFragment(f, false) && Clean(Literals(f, false)) && rep in Detect(f)
    ensures c in Literals(f, false) && c.field == rep.field && !Holds(c, r, m)
  {
    var D := ReportComesFromDisjunct(f, rep);
    DisjunctWithinLiterals(f, false, D);
    var cs :| Drawn(cs, rep.field, D) && Finding(rep.kind, cs);
    assert Drawn(cs, rep.field, Literals(f, false));
    FindingIsJustified(rep.kind, cs, rep.field, Literals(f, false), r, m);
    c :| c in cs && !Holds(c, r, m);
  }

  lemma FailingLeaf(f: Filter, s: Signed, c: Constraint, r: Record, m: Matcher)
    requires Straight(f) && s in SignedLeaves(f, false)
    requires c in Atoms(s.cmp, s.negated) && c.field in r && !Holds(c, r, m)
    ensures !LeafHolds(s, r, m)
  {
    var x := Extract(s.cmp, s.negated);
    assert x in Atoms(s.cmp, s.negated);
    LiteralsOfLeaves(f, false, x);
    assert Numeric(x);
    AtomsMean(s.cmp, s.negated, r, m);
  }

  /** Every record that has the reported field falsifies some comparison of the filter. */
  lemma SatisfiedWithoutField(f: Filter, rep: Report, r: Record, m: Matcher)
    requires Straight(f) && rep in Detect(f) && rep.field in r
    ensures !AllLeavesHold(SignedLeaves(f, false), r, m)
  {
    var c := SomeAtomFails(f, rep, r, m);
    LiteralsOfLeaves(f, false, c);
    var s :| s in SignedLeaves(f, false) && c in Atoms(s.cmp, s.negated);
    FailingLeaf(f, s, c, r, m);
  }

  /** A leaf says of a record without a field of its own what it says whatever else the record holds. */
  lemma WithoutField(s: Signed, field: string, r: Record, m: Matcher)
    ensures s.cmp.field != field ==> (LeafHolds(s, r - {field}, m) <==> LeafHolds(s, r, m))
    ensures s.cmp.field == field ==> (LeafHolds(s, r - {field}, m) <==> !NeedsField(s))
  {
  }

  lemma WithoutFieldAll(ss: seq<Signed>, field: string, r: Record, m: Matcher)
    ensures AllLeavesHold(ss, r - {field}, m) <==>
              && AllLeavesHold(Elsewhere(ss, field), r, m)
              && forall s :: s in ss && s.cmp.field == field ==> !NeedsField(s)
  {
    forall s: Signed
      ensures s.cmp.field != field ==> (LeafHolds(s, r - {field}, m) <==> LeafHolds(s, r, m))
      ensures s.cmp.field == field ==> (LeafHolds(s, r - {field}, m) <==> !NeedsField(s))
    {
      WithoutField(s, field, r, m);
    }
  }

  /** A straight filter that is reported on a field is never true exactly when one of its comparisons on that field is
      false of a record without it, or those on other fields are never true together. */
  lemma ReportIsRightExactly(f: Filter, rep: Report, m: Matcher, others: nat -> bool)
    requires Straight(f) && rep in Detect(f)
    ensures var leaves := SignedLeaves(f, false);
            NeverTrue(f, m, others) <==>
              || (exists s :: s in leaves && s.cmp.field == rep.field && NeedsField(s))
              || NeverTrue(AllOf(Elsewhere(leaves, rep.field)), m, others)
  {
    var leaves, rest := SignedLeaves(f, false), Elsewhere(SignedLeaves(f, false), rep.field);
    forall r ensures Eval(f, r, m, others) ==>
        && (forall s :: s in leaves && s.cmp.field == rep.field ==> !NeedsField(s))
        && Eval(AllOf(rest), r, m, others)
    {
      if Eval(f, r, m, others) {
        EvalByLeaves(f, false, r, m, others);
        if rep.field in r {
          SatisfiedWithoutField(f, rep, r, m);
        }
        assert r - {rep.field} == r;
        WithoutFieldAll(leaves, rep.field, r, m);
        EvalAllOf(rest, r, m, others);
      }
    }
    if r: Record :| Eval(AllOf(rest), r, m, others) &&
                    forall s :: s in leaves && s.cmp.field == rep.field ==> !NeedsField(s) {
      EvalAllOf(rest, r, m, others);
      WithoutFieldAll(leaves, rep.field, r, m);
      EvalByLeaves(f, false, r - {rep.field}, m, others);
    }
  }

  /** On one field: the report is right exactly when some comparison is false of a record without the field. */
  lemma OneFieldReportIsRightExactly(f: Filter, rep: Report, m: Matcher, others: nat -> bool)
    requires Straight(f) && rep in Detect(f)
    requires forall s :: s in SignedLeaves(f, false) ==> s.cmp.field == rep.field
    ensures NeverTrue(f, m, others) <==> exists s :: s in SignedLeaves(f, false) && NeedsField(s)
  {
    ReportIsRightExactly(f, rep, m, others);
    var rest := Elsewhere(SignedLeaves(f, false), rep.field);
    EvalAllOf(rest, map[], m, others);
    assert Eval(AllOf(rest), map[], m, others);
  }

  // ---- Wrong reports ----

  lemma LeafAdds(s: Signed, scan: Scan)
    ensures Visit(Leaf(s), false, scan).constraints == AddConstraint(scan.constraints, Extract(s.cmp, s.negated))
  {
    assert Visit(Leaf(s), false, scan) == Visit(Compare(s.cmp), s.negated, scan);
  }

  lemma VisitPair(p: Filter, q: Filter, scan: Scan)
    ensures Visit(And([p, q]), false, scan) == Visit(q, false, Visit(p, false, scan))
  {
    var first := Visit(p, false, scan);
    assert [p, q][1..] == [q] && [q][1..] == [];
    assert VisitParts([q], false, first) == VisitParts([], false, Visit(q, false, first));
    assert VisitParts([p, q], false, scan) == VisitParts([q], false, first);
  }

  lemma WalkTwo(s: Signed, t: Signed, rep: Report)
    requires Reported(AfterBoth(Extract(s.cmp, s.negated), Extract(t.cmp, t.negated)), rep)
    ensures rep in Detect(AllOf([s, t]))
  {
    var start := Scan(map[], iset{});
    LeafAdds(s, start);
    LeafAdds(t, Visit(Leaf(s), false, start));
    VisitPair(Leaf(s), Leaf(t), start);
    assert Leaves([s, t]) == [Leaf(s), Leaf(t)];
  }

  lemma EvalTwo(s: Signed, t: Signed, r: Record, m: Matcher, others: nat -> bool)
    ensures Eval(AllOf([s, t]), r, m, others) <==> LeafHolds(s, r, m) && LeafHolds(t, r, m)
  {
    EvalAllOf([s, t], r, m, others);
    assert [s, t][0] in [s, t] && [s, t][1] in [s, t];
    assert forall u :: u in [s, t] ==> u == s || u == t;
  }

  /** Two ranges that exclude each other, both written with NOT: reported, and satisfied by the records without f. */
  lemma NegatedRangesAreReported(field: string, u: Literal, v: Literal, r: Record, m: Matcher, others: nat -> bool)
    requires u.number.Some? && v.number.Some? && u.number.value > v.number.value
    ensures var f := AllOf([Signed(One(field, LessThan, u), true), Signed(One(field, GreaterThan, v), true)]);
            && Report(field, ContradictoryRanges) in Detect(f)
            && (Eval(f, r, m, others) <==> field !in r)
  {
    var s, t := Signed(One(field, LessThan, u), true), Signed(One(field, GreaterThan, v), true);
    var x, y, e := Extract(s.cmp, true), Extract(t.cmp, true), Constraint(field, Exists, []);
    assert AfterBoth(x, y)[field] == [e, x, e, y];
    ApartRanges(e, x, y);
    WalkTwo(s, t, Report(field, ContradictoryRanges));
    EvalTwo(s, t, r, m, others);
    ApartHold(s, t, u, v, r, m);
  }

  lemma ApartHold(s: Signed, t: Signed, u: Literal, v: Literal, r: Record, m: Matcher)
    requires s.negated && t.negated && s.cmp.field == t.cmp.field && s.cmp.op == LessThan && t.cmp.op == GreaterThan
    requires s.cmp.values == [u] && t.cmp.values == [v]
    requires u.number.Some? && v.number.Some? && u.number.value > v.number.value
    ensures LeafHolds(s, r, m) && LeafHolds(t, r, m) <==> s.cmp.field !in r
  {
  }

  lemma ApartRanges(e: Constraint, x: Constraint, y: Constraint)
    requires x.op == GreaterThanOrEq && y.op == LessThanOrEq && |x.values| > 0 && |y.values| > 0
    requires x.values[0].number.Some? && y.values[0].number.Some?
    requires x.values[0].number.value > y.values[0].number.value
    ensures RangeImpossible([e, x, e, y])
  {
    Members4(e, x, y);
    forall n: real ensures !InAllRanges([e, x, e, y], n) {
      assert !WithinRange(x, n) || !WithinRange(y, n);
    }
  }

  function Missing(field: string): Signed {
    Signed(Comparison(field, NotExists, [], true), false)
  }

  /** `NOT f < v AND f NOT EXISTS` is always reported, and the records that satisfy it are those without f. */
  lemma NegatedRangeAgainstMissing(field: string, v: Literal, r: Record, m: Matcher, others: nat -> bool)
    requires v.number.Some?
    ensures var f := AllOf([Signed(One(field, LessThan, v), true), Missing(field)]);
            && Report(field, ExistsAndNotExists) in Detect(f)
            && (Eval(f, r, m, others) <==> field !in r)
  {
    var s, t := Signed(One(field, LessThan, v), true), Missing(field);
    var x, y, e := Extract(s.cmp, true), Extract(t.cmp, false), Constraint(field, Exists, []);
    assert AfterBoth(x, y)[field] == [e, x, y];
    PresenceClashes(e, x, y);
    WalkTwo(s, t, Report(field, ExistsAndNotExists));
    EvalTwo(s, t, r, m, others);
    MissingHolds(s, t, field, r, m);
  }

  /** A record without the field satisfies NOT over a range comparison on it. */
  lemma MissingHolds(s: Signed, t: Signed, field: string, r: Record, m: Matcher)
    requires s.negated && s.cmp.field == field && IsRangeOperator(s.cmp.op) && t == Missing(field)
    ensures LeafHolds(s, r, m) && LeafHolds(t, r, m) <==> field !in r
  {
  }

  lemma PresenceClashes(e: Constraint, x: Constraint, y: Constraint)
    requires e.op == Exists && y.op == NotExists
    ensures Finding(ExistsAndNotExists, [e, x, y])
  {
    Members3(e, x, y);
    assert Clashes(ExistsAndNotExists, e, y);
  }
}
