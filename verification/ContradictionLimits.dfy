/** Where the detector's reports go wrong, exactly, and a class of filters on which they are exact. */
module ContradictionLimits {
  import opened Wrappers
  import opened Constraints
  import opened Findings
  import opened Contradictions
  import opened ContradictionSoundness

  function Both(a: Comparison, b: Comparison): Filter {
    And([Compare(a), Compare(b)])
  }

  function One(field: string, op: Operator, v: Literal): Comparison {
    Comparison(field, op, [v], true)
  }

  // ---- Walking two comparisons ----

  ghost function AfterFirst(a: Constraint): Collected {
    AddConstraint(map[], a)
  }

  ghost function AfterBoth(a: Constraint, b: Constraint): Collected {
    AddConstraint(AfterFirst(a), b)
  }

  lemma WalkBoth(a: Comparison, b: Comparison, negated: bool, rep: Report)
    ensures var x, y := Extract(a, negated), Extract(b, negated);
            var s := Visit(Both(a, b), negated, Scan(map[], iset{}));
            && s.constraints == AfterBoth(x, y)
            && (rep in Check(s).reports <==>
                  || (ChecksAtOnce(a.op) && Reported(AfterFirst(x), rep))
                  || Reported(AfterBoth(x, y), rep))
  {
    var parts := [Compare(a), Compare(b)];
    var start := Scan(map[], iset{});
    var first := Visit(parts[0], negated, start);
    var second := Visit(parts[1], negated, first);
    assert parts[1..] == [Compare(b)];
    assert parts[1..][1..] == [];
    assert VisitParts(parts[1..], negated, first) == VisitParts(parts[1..][1..], negated, second) == second;
    assert Visit(Both(a, b), negated, start) == VisitParts(parts, negated, start) == second;
  }

  lemma DetectBoth(a: Comparison, b: Comparison, rep: Report)
    ensures rep in Detect(Both(a, b)) <==>
              || (ChecksAtOnce(a.op) && Reported(AfterFirst(Extract(a, false)), rep))
              || Reported(AfterBoth(Extract(a, false), Extract(b, false)), rep)
  {
    WalkBoth(a, b, false, rep);
  }

  lemma EvalBoth(a: Comparison, b: Comparison, r: Record, m: Matcher, others: nat -> bool)
    ensures Eval(Both(a, b), r, m, others) <==> Means(a, r, m) && Means(b, r, m)
  {
    var parts := [Compare(a), Compare(b)];
    assert parts[0] in parts && parts[1] in parts;
    assert Eval(parts[0], r, m, others) <==> Means(a, r, m);
    assert Eval(parts[1], r, m, others) <==> Means(b, r, m);
    assert forall p :: p in parts ==> p == parts[0] || p == parts[1];
  }

  ghost predicate NeverTrue(f: Filter, m: Matcher, others: nat -> bool) {
    forall r: Record :: !Eval(f, r, m, others)
  }

  lemma Members3(e: Constraint, x: Constraint, y: Constraint)
    ensures forall c :: c in [e, x, y] <==> c == e || c == x || c == y
  {
  }

  lemma Members4(e: Constraint, x: Constraint, y: Constraint)
    ensures forall c :: c in [e, x, e, y] <==> c == e || c == x || c == y
  {
  }

  // ---- IN against NOT IN ----

  lemma OverlapAmong(e: Constraint, x: Constraint, y: Constraint)
    requires e.op == Exists && x.op == In && y.op == NotIn
    ensures Finding(InOverlapsNotIn, [e, x, y]) <==> Overlap(x, y)
  {
    Members3(e, x, y);
    assert Clashes(InOverlapsNotIn, x, y) <==> Overlap(x, y);
  }

  lemma InAgainstNotInReport(a: Comparison, b: Comparison)
    requires a.field == b.field && a.op == In && b.op == NotIn
    ensures Report(a.field, InOverlapsNotIn) in Detect(Both(a, b)) <==> Overlap(Extract(a, false), Extract(b, false))
  {
    var x, y := Extract(a, false), Extract(b, false);
    var e := Constraint(a.field, Exists, []);
    DetectBoth(a, b, Report(a.field, InOverlapsNotIn));
    assert AfterBoth(x, y)[a.field] == [e, x, y];
    OverlapAmong(e, x, y);
  }

  /** `f IN A AND f NOT IN B` is reported exactly when A and B overlap, and some record satisfies it exactly when
      A is not inside B. So the report is wrong exactly when the lists overlap and A is not inside B. */
  lemma InAgainstNotIn(a: Comparison, b: Comparison, others: nat -> bool)
    requires a.field == b.field && a.op == In && b.op == NotIn && a.listForm && b.listForm
    requires Numeric(Extract(a, false)) && Canonical({Extract(a, false), Extract(b, false)})
    ensures Report(a.field, InOverlapsNotIn) in Detect(Both(a, b)) <==>
              exists v :: v in a.values && ListsText(Extract(b, false), v.text)
    ensures (exists r: Record, m: Matcher :: Eval(Both(a, b), r, m, others)) <==>
              exists v :: v in a.values && !ListsText(Extract(b, false), v.text)
  {
    var x, y := Extract(a, false), Extract(b, false);
    InAgainstNotInReport(a, b);
    OverlapReportExactly(x, y);
    if r: Record, m: Matcher :| Holds(x, r, m) && Holds(y, r, m) {
      EvalBoth(a, b, r, m, others);
    }
    if r: Record, m: Matcher :| Eval(Both(a, b), r, m, others) {
      EvalBoth(a, b, r, m, others);
    }
  }

  // ---- Equality by text ----

  lemma DifferentAmong(e: Constraint, x: Constraint, y: Constraint)
    requires e.op == Exists && x.op == Equal && y.op == Equal
    ensures Finding(DifferentEquals, [e, x, e, y]) <==> TextOf(x) != TextOf(y)
    ensures !Finding(DifferentEquals, [e, x])
  {
    Members4(e, x, y);
    assert Clashes(DifferentEquals, x, y) <==> TextOf(x) != TextOf(y);
    assert forall c :: c in [e, x] <==> c == e || c == x;
  }

  lemma EqualByTextReport(field: string, u: Literal, v: Literal)
    ensures Report(field, DifferentEquals) in Detect(Both(One(field, Equal, u), One(field, Equal, v))) <==>
            u.text != v.text
  {
    var a, b := One(field, Equal, u), One(field, Equal, v);
    var x, y := Extract(a, false), Extract(b, false);
    var e := Constraint(field, Exists, []);
    DetectBoth(a, b, Report(field, DifferentEquals));
    assert AfterBoth(x, y)[field] == [e, x, e, y];
    assert AfterFirst(x)[field] == [e, x];
    DifferentAmong(e, x, y);
  }

  /** `f = u AND f = v` is reported exactly when the texts differ, and unsatisfiable exactly when the numbers do:
      one number written in two ways is reported although a record satisfies the filter. */
  lemma EqualByText(field: string, u: Literal, v: Literal, m: Matcher, others: nat -> bool)
    requires u.number.Some? && v.number.Some?
    ensures Report(field, DifferentEquals) in Detect(Both(One(field, Equal, u), One(field, Equal, v))) <==>
            u.text != v.text
    ensures (exists r :: Eval(Both(One(field, Equal, u), One(field, Equal, v)), r, m, others)) <==> u.number == v.number
  {
    EqualByTextReport(field, u, v);
    var a, b := One(field, Equal, u), One(field, Equal, v);
    forall r ensures Eval(Both(a, b), r, m, others) <==> field in r && Some(r[field]) == u.number == v.number {
      EvalBoth(a, b, r, m, others);
    }
    var r: Record := map[field := u.number.value];
    assert Eval(Both(a, b), r, m, others) <==> u.number == v.number;
  }

  // ---- IN without brackets ----

  lemma MissingFromEmptyList(e: Constraint, x: Constraint, y: Constraint)
    requires x.op == Equal && y.op == In && y.values == []
    ensures Finding(EqualMissingFromIn, [e, x, e, y])
  {
    Members4(e, x, y);
    assert Clashes(EqualMissingFromIn, x, y);
  }

  /** `f = u AND f IN v`, with one value and no brackets, is always reported, because no list is extracted, although a
      record satisfies it exactly when u and v are one number. */
  lemma InWithoutBrackets(field: string, u: Literal, v: Literal, m: Matcher, others: nat -> bool)
    requires u.number.Some?
    ensures var f := Both(One(field, Equal, u), Comparison(field, In, [v], false));
            && Report(field, EqualMissingFromIn) in Detect(f)
            && ((exists r :: Eval(f, r, m, others)) <==> u.number == v.number)
  {
    var a, b := One(field, Equal, u), Comparison(field, In, [v], false);
    var x, y, e := Extract(a, false), Extract(b, false), Constraint(field, Exists, []);
    assert AfterBoth(x, y)[field] == [e, x, e, y];
    MissingFromEmptyList(e, x, y);
    DetectBoth(a, b, Report(field, EqualMissingFromIn));
    forall r ensures Eval(Both(a, b), r, m, others) <==> field in r && u.number == Some(r[field]) == v.number {
      EqualInOne(a, b, u, v, r, m, others);
    }
    var r: Record := map[field := u.number.value];
    assert Eval(Both(a, b), r, m, others) <==> u.number == v.number;
  }

  lemma EqualInOne(a: Comparison, b: Comparison, u: Literal, v: Literal, r: Record, m: Matcher, others: nat -> bool)
    requires a.field == b.field && a.op == Equal && a.values == [u] && b.op == In && b.values == [v]
    ensures Eval(Both(a, b), r, m, others) <==> a.field in r && u.number == Some(r[a.field]) == v.number
  {
    EvalBoth(a, b, r, m, others);
    assert v in [v];
  }

  // ---- NOT over AND ----

  /** A numeric comparison: no pattern operator, every literal a number, and the operator's number of literals. */
  ghost predicate Plain(c: Comparison) {
    && Numeric(Constraint(c.field, c.op, c.values))
    && c.op !in {Regexp, NotRegexp, Contains, NotContains, NotLike, NotILike}
  }

  /** Excludes nothing: NOT IN an empty list, or NOT BETWEEN bounds that are the wrong way round. */
  predicate ExcludesNothing(c: Comparison) {
    || (c.op == NotIn && |c.values| == 0)
    || (c.op == NotBetween && |c.values| == 2 && c.values[0].number.Some? && c.values[1].number.Some?
        && c.values[0].number.value > c.values[1].number.value)
  }

  /** A record that makes a comparison false, unless the comparison excludes nothing. */
  function Falsifier(c: Comparison): Record {
    if c.op in {NotEqual, NotIn, NotBetween} && |c.values| > 0 && c.values[0].number.Some? then
      map[c.field := c.values[0].number.value]
    else if c.op == NotExists then map[c.field := 0.0]
    else map[]
  }

  lemma FalsifierExactly(c: Comparison, m: Matcher)
    requires Plain(c)
    ensures (exists r :: !Means(c, r, m)) <==> !ExcludesNothing(c)
  {
    var r := Falsifier(c);
    if c.op in {NotEqual, NotIn, NotBetween} && |c.values| > 0 {
      assert c.values[0] in c.values;
    }
    if c.op == NotBetween {
      assert c.values[1] in c.values;
    }
    assert !ExcludesNothing(c) ==> !Means(c, r, m);
  }

  /** For any two comparisons, `NOT (a AND b)` is reported exactly when a check finds something in the constraints
      of `NOT a AND NOT b`, and it is satisfiable exactly when some record falsifies a or some record falsifies b. */
  lemma NegatedAndIsReported(a: Comparison, b: Comparison, rep: Report, m: Matcher, others: nat -> bool)
    ensures rep in Detect(Not(Both(a, b))) <==>
              || (ChecksAtOnce(a.op) && Reported(AfterFirst(Extract(a, true)), rep))
              || Reported(AfterBoth(Extract(a, true), Extract(b, true)), rep)
    ensures NeverTrue(Not(Both(a, b)), m, others) <==>
              !(exists r :: !Means(a, r, m)) && !(exists r :: !Means(b, r, m))
  {
    var f, start := Not(Both(a, b)), Scan(map[], iset{});
    WalkBoth(a, b, true, rep);
    assert Visit(f, false, start) == Visit(Both(a, b), true, start);
    forall r: Record ensures Eval(f, r, m, others) <==> !Means(a, r, m) || !Means(b, r, m) {
      EvalBoth(a, b, r, m, others);
    }
  }

  /** So a report on `NOT (a AND b)` over numeric comparisons is right exactly when both exclude nothing. */
  lemma NegatedAndReportIsRightExactly(a: Comparison, b: Comparison, rep: Report, m: Matcher, others: nat -> bool)
    requires Plain(a) && Plain(b) && rep in Detect(Not(Both(a, b)))
    ensures NeverTrue(Not(Both(a, b)), m, others) <==> ExcludesNothing(a) && ExcludesNothing(b)
  {
    NegatedAndIsReported(a, b, rep, m, others);
    FalsifierExactly(a, m);
    FalsifierExactly(b, m);
  }

  /** A wrong one: `NOT (f != u AND f != v)` with two different numbers is reported, and f = u satisfies it. */
  lemma NegatedInequalitiesAreReported(field: string, u: Literal, v: Literal, m: Matcher, others: nat -> bool)
    requires u.text != v.text && u.number.Some?
    ensures var f := Not(Both(One(field, NotEqual, u), One(field, NotEqual, v)));
            && Report(field, DifferentEquals) in Detect(f)
            && Eval(f, map[field := u.number.value], m, others)
  {
    var a, b := One(field, NotEqual, u), One(field, NotEqual, v);
    var x, y := Extract(a, true), Extract(b, true);
    var e := Constraint(field, Exists, []);
    NegatedAndIsReported(a, b, Report(field, DifferentEquals), m, others);
    assert AfterBoth(x, y)[field] == [e, x, e, y];
    DifferentAmong(e, x, y);
    EvalBoth(a, b, map[field := u.number.value], m, others);
  }

  // ---- Range conjunctions ----

  /** A numeric range comparison. */
  predicate IsRange(c: Comparison) {
    IsRangeOperator(c.op) && |c.values| == 1 && c.values[0].number.Some?
  }

  function Conjunction(cs: seq<Comparison>): Filter {
    And(seq(|cs|, i requires 0 <= i < |cs| => Compare(cs[i])))
  }

  ghost function CollectAll(m: Collected, cs: seq<Comparison>): Collected
    decreases |cs|
  {
    if cs == [] then m else CollectAll(AddConstraint(m, Extract(cs[0], false)), cs[1..])
  }

  lemma {:induction false} WalkConjunction(cs: seq<Comparison>, s: Scan)
    ensures VisitParts(Conjunction(cs).parts, false, s).constraints == CollectAll(s.constraints, cs)
    ensures s.reports <= VisitParts(Conjunction(cs).parts, false, s).reports
    decreases |cs|
  {
    if cs != [] {
      var parts := Conjunction(cs).parts;
      assert parts[0] == Compare(cs[0]) && parts[1..] == Conjunction(cs[1..]).parts;
      WalkConjunction(cs[1..], Visit(parts[0], false, s));
    }
  }

  /** The constraints collected for a field: those of the comparisons on it, with what they imply. */
  lemma {:induction false} CollectedMembers(m: Collected, cs: seq<Comparison>, c: Constraint)
    ensures c in Bucket(CollectAll(m, cs), c.field) <==>
              c in Bucket(m, c.field) || exists k :: k in cs && c in WithImplied(Extract(k, false))
    decreases |cs|
  {
    if cs != [] {
      var x := Extract(cs[0], false);
      CollectedMembers(AddConstraint(m, x), cs[1..], c);
      assert cs == [cs[0]] + cs[1..];
      assert c in Bucket(AddConstraint(m, x), c.field) <==> c in Bucket(m, c.field) || c in WithImplied(x);
    }
  }

  lemma AddedTwice(m: Collected, x: Constraint)
    requires ImpliesExistence(x.op)
    ensures |Bucket(AddConstraint(m, x), x.field)| >= 2
  {
  }

  lemma {:induction false} CollectedFields(m: Collected, cs: seq<Comparison>)
    requires forall k :: k in cs ==> IsRange(k)
    requires forall field :: field in m ==> |m[field]| >= 2
    ensures forall field :: field in CollectAll(m, cs) <==> field in m || exists k :: k in cs && k.field == field
    ensures forall field :: field in CollectAll(m, cs) ==> |CollectAll(m, cs)[field]| >= 2
    decreases |cs|
  {
    if cs != [] {
      var x := Extract(cs[0], false);
      assert IsRange(cs[0]);
      AddedTwice(m, x);
      CollectedFields(AddConstraint(m, x), cs[1..]);
      assert cs == [cs[0]] + cs[1..];
    }
  }

  lemma {:induction false} ReportComesFromPrefix(cs: seq<Comparison>, s: Scan, rep: Report)
    requires rep in VisitParts(Conjunction(cs).parts, false, s).reports && rep !in s.reports
    ensures exists i :: 0 <= i <= |cs| && Reported(CollectAll(s.constraints, cs[..i]), rep)
    decreases |cs|
  {
    var parts := Conjunction(cs).parts;
    assert parts[0] == Compare(cs[0]) && parts[1..] == Conjunction(cs[1..]).parts;
    var s1 := Visit(parts[0], false, s);
    if rep in s1.reports {
      assert cs[..1] == [cs[0]] && cs[..1][1..] == [];
      assert CollectAll(s.constraints, cs[..1]) == CollectAll(s1.constraints, []) == s1.constraints;
      assert Reported(CollectAll(s.constraints, cs[..1]), rep);
    } else {
      ReportComesFromPrefix(cs[1..], s1, rep);
      var i :| 0 <= i <= |cs[1..]| && Reported(CollectAll(s1.constraints, cs[1..][..i]), rep);
      assert cs[..i + 1][0] == cs[0] && cs[..i + 1][1..] == cs[1..][..i];
      assert Reported(CollectAll(s.constraints, cs[..i + 1]), rep);
    }
  }

  lemma SatisfiedMeansUnreported(cs: seq<Comparison>, field: string, r: Record, m: Matcher, others: nat -> bool)
    requires (forall k :: k in cs ==> IsRange(k)) && Eval(Conjunction(cs), r, m, others)
    ensures Report(field, ContradictoryRanges) !in Detect(Conjunction(cs))
  {
    var f, rep, start := Conjunction(cs), Report(field, ContradictoryRanges), Scan(map[], iset{});
    WalkConjunction(cs, start);
    if rep in Detect(f) {
      var i: int;
      if rep in Visit(f, false, start).reports {
        ReportComesFromPrefix(cs, start, rep);
        i :| 0 <= i <= |cs| && Reported(CollectAll(map[], cs[..i]), rep);
      } else {
        i := |cs|;
        assert cs[..i] == cs;
      }
      PrefixHolds(cs, i, field, r, m, others);
    }
  }

  /** A record satisfying the whole conjunction satisfies what was collected at any point of the walk. */
  lemma PrefixHolds(cs: seq<Comparison>, i: nat, field: string, r: Record, m: Matcher, others: nat -> bool)
    requires (forall k :: k in cs ==> IsRange(k)) && Eval(Conjunction(cs), r, m, others) && i <= |cs|
    ensures !Reported(CollectAll(map[], cs[..i]), Report(field, ContradictoryRanges))
  {
    var M := CollectAll(map[], cs[..i]);
    if field in M {
      var x := if field in r then r[field] else 0.0;
      forall c | c in M[field] ensures WithinRange(c, x) {
        CollectedIsOwn(cs[..i], field, c);
        CollectedMembers(map[], cs[..i], c);
        ConjunctHolds(cs, i, c, r, m, others);
      }
      assert InAllRanges(M[field], x);
    }
  }

  /** A constraint that one of the conjuncts contributed holds of a record that satisfies the conjunction. */
  lemma ConjunctHolds(cs: seq<Comparison>, i: nat, c: Constraint, r: Record, m: Matcher, others: nat -> bool)
    requires (forall k :: k in cs ==> IsRange(k)) && Eval(Conjunction(cs), r, m, others) && i <= |cs|
    requires exists k :: k in cs[..i] && c in WithImplied(Extract(k, false))
    ensures WithinRange(c, if c.field in r then r[c.field] else 0.0)
  {
    var k :| k in cs[..i] && c in WithImplied(Extract(k, false));
    var j :| 0 <= j < i && cs[..i][j] == k;
    var parts := Conjunction(cs).parts;
    assert parts[j] == Compare(k) && parts[j] in parts;
    assert Eval(Compare(k), r, m, others);
    ImpliedWithin(k, c, r, m);
  }

  lemma ImpliedWithin(k: Comparison, c: Constraint, r: Record, m: Matcher)
    requires IsRange(k) && Means(k, r, m) && c in WithImplied(Extract(k, false))
    ensures WithinRange(c, if c.field in r then r[c.field] else 0.0)
  {
  }

  lemma {:induction false} CollectedIsOwn(cs: seq<Comparison>, field: string, c: Constraint)
    requires field in CollectAll(map[], cs) && c in CollectAll(map[], cs)[field]
    ensures c.field == field
  {
    OwnBuckets(map[], cs);
  }

  lemma {:induction false} OwnBuckets(m: Collected, cs: seq<Comparison>)
    requires forall field, c :: field in m && c in m[field] ==> c.field == field
    ensures forall field, c :: field in CollectAll(m, cs) && c in CollectAll(m, cs)[field] ==> c.field == field
    decreases |cs|
  {
    if cs != [] {
      OwnBuckets(AddConstraint(m, Extract(cs[0], false)), cs[1..]);
    }
  }

  ghost function Choose(cs: seq<Constraint>): (x: real)
    requires exists x: real :: InAllRanges(cs, x)
    ensures InAllRanges(cs, x)
  {
    var x: real :| InAllRanges(cs, x);
    x
  }

  lemma UnreportedIsChoosable(cs: seq<Comparison>, field: string)
    requires (forall k :: k in cs ==> IsRange(k)) && field in CollectAll(map[], cs)
    requires Report(field, ContradictoryRanges) !in Detect(Conjunction(cs))
    ensures exists x: real :: InAllRanges(CollectAll(map[], cs)[field], x)
  {
    WalkConjunction(cs, Scan(map[], iset{}));
    CollectedFields(map[], cs);
    assert !Reported(CollectAll(map[], cs), Report(field, ContradictoryRanges));
  }

  lemma ChosenSatisfiesOne(cs: seq<Comparison>, k: Comparison, r: Record, m: Matcher)
    requires (forall c :: c in cs ==> IsRange(c)) && k in cs
    requires r.Keys == CollectAll(map[], cs).Keys
    requires forall field :: field in r ==> InAllRanges(CollectAll(map[], cs)[field], r[field])
    ensures Means(k, r, m)
  {
    var x := Extract(k, false);
    CollectedFields(map[], cs);
    CollectedMembers(map[], cs, x);
    assert WithinRange(x, r[x.field]);
  }

  /** The record that takes a possible number for each field. */
  lemma ChosenRecordSatisfies(cs: seq<Comparison>, r: Record, m: Matcher, others: nat -> bool)
    requires forall k :: k in cs ==> IsRange(k)
    requires r.Keys == CollectAll(map[], cs).Keys
    requires forall field :: field in r ==> InAllRanges(CollectAll(map[], cs)[field], r[field])
    ensures Eval(Conjunction(cs), r, m, others)
  {
    var parts := Conjunction(cs).parts;
    forall p | p in parts ensures Eval(p, r, m, others) {
      var j :| 0 <= j < |parts| && parts[j] == p;
      assert cs[j] in cs;
      ChosenSatisfiesOne(cs, cs[j], r, m);
    }
  }

  lemma UnreportedIsSatisfiable(cs: seq<Comparison>, m: Matcher, others: nat -> bool) returns (r: Record)
    requires forall k :: k in cs ==> IsRange(k)
    requires forall field :: Report(field, ContradictoryRanges) !in Detect(Conjunction(cs))
    ensures Eval(Conjunction(cs), r, m, others)
  {
    var M := CollectAll(map[], cs);
    forall field | field in M ensures exists x: real :: InAllRanges(M[field], x) {
      UnreportedIsChoosable(cs, field);
    }
    r := map field | field in M :: Choose(M[field]);
    ChosenRecordSatisfies(cs, r, m, others);
  }

  ghost predicate RangeReported(f: Filter) {
    exists field :: Report(field, ContradictoryRanges) in Detect(f)
  }

  /** A conjunction of numeric range comparisons gets a contradictory-range report exactly when no record
      satisfies it. */
  lemma RangeConjunctionsAreExact(cs: seq<Comparison>, m: Matcher, others: nat -> bool)
    requires forall k :: k in cs ==> IsRange(k)
    ensures RangeReported(Conjunction(cs)) <==> NeverTrue(Conjunction(cs), m, others)
  {
    var f := Conjunction(cs);
    if RangeReported(f) {
      var field :| Report(field, ContradictoryRanges) in Detect(f);
      forall r: Record ensures !Eval(f, r, m, others) {
        if Eval(f, r, m, others) {
          SatisfiedMeansUnreported(cs, field, r, m, others);
        }
      }
    } else {
      var r := UnreportedIsSatisfiable(cs, m, others);
      assert !NeverTrue(f, m, others);
    }
  }
}
