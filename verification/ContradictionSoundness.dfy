/** When the detector's reports are right: what filters mean, their disjunctive normal form, and the reports' scope. */
module ContradictionSoundness {
  import opened Constraints
  import opened Findings
  import opened Contradictions

  // ---- Meaning of a filter ----

  ghost predicate Means(c: Comparison, r: Record, m: Matcher) {
    Holds(Constraint(c.field, c.op, c.values), r, m)
  }

  ghost predicate Eval(f: Filter, r: Record, m: Matcher, others: nat -> bool) {
    match f
    case Or(branches) => exists b :: b in branches && Eval(b, r, m, others)
    case And(parts) => forall p :: p in parts ==> Eval(p, r, m, others)
    case Not(inner) => !Eval(inner, r, m, others)
    case Compare(c) => Means(c, r, m)
    case Other(id) => others(id)
  }

  // ---- Disjunctive normal form ----

  ghost function Atoms(c: Comparison, negated: bool): set<Constraint> {
    set d | d in WithImplied(Extract(c, negated))
  }

  /** D collects the comparisons of one disjunct of f (of its negation when `negated`). */
  ghost predicate Disjunct(f: Filter, negated: bool, D: set<Constraint>)
    decreases f, 1
  {
    match f
    case Or(branches) =>
      if negated then Conjoined(branches, negated, D) else exists b :: b in branches && Disjunct(b, negated, D)
    case And(parts) =>
      if negated then exists p :: p in parts && Disjunct(p, negated, D) else Conjoined(parts, negated, D)
    case Not(inner) => Disjunct(inner, !negated, D)
    case Compare(c) => D == Atoms(c, negated)
    case Other(_) => D == {}
  }

  /** One disjunct of each filter, together. */
  ghost predicate Conjoined(fs: seq<Filter>, negated: bool, D: set<Constraint>)
    decreases fs, 0
  {
    if fs == [] then D == {}
    else exists D0: set<Constraint>, D1: set<Constraint> ::
      Disjunct(fs[0], negated, D0) && Conjoined(fs[1..], negated, D1) && D == D0 + D1
  }

  ghost predicate HoldTogether(D: set<Constraint>, r: Record, m: Matcher) {
    forall c :: c in D ==> Holds(c, r, m)
  }

  /** Constraints that can appear in a disjunct. */
  ghost function Literals(f: Filter, negated: bool): set<Constraint>
    decreases f, 1
  {
    match f
    case Or(branches) => LiteralsOfAll(branches, negated)
    case And(parts) => LiteralsOfAll(parts, negated)
    case Not(inner) => Literals(inner, !negated)
    case Compare(c) => Atoms(c, negated)
    case Other(_) => {}
  }

  ghost function LiteralsOfAll(fs: seq<Filter>, negated: bool): set<Constraint>
    decreases fs, 0
  {
    if fs == [] then {} else Literals(fs[0], negated) + LiteralsOfAll(fs[1..], negated)
  }

  /** A comparison whose extracted constraint says of record r what the comparison, or its negation, says: IN
      carries its list, and a negated range comparison is on a field that r has. */
  ghost predicate ReadableComparison(c: Comparison, negated: bool, r: Record) {
    && (c.op in {In, NotIn} ==> c.listForm)
    && (IsRangeOperator(c.op) ==> |c.values| > 0 && c.values[0].number.Some?)
    && (IsRangeOperator(c.op) && negated ==> c.field in r)
  }

  ghost predicate Readable(f: Filter, negated: bool, r: Record) {
    match f
    case Or(branches) => forall b :: b in branches ==> Readable(b, negated, r)
    case And(parts) => forall p :: p in parts ==> Readable(p, negated, r)
    case Not(inner) => Readable(inner, !negated, r)
    case Compare(c) => ReadableComparison(c, negated, r)
    case Other(_) => true
  }

  lemma AtomsMean(c: Comparison, negated: bool, r: Record, m: Matcher)
    requires ReadableComparison(c, negated, r)
    ensures HoldTogether(Atoms(c, negated), r, m) <==> Means(c, r, m) != negated
  {
    var whole := Constraint(c.field, c.op, c.values);
    assert Extract(c, false) == whole;
    NegateComplements(whole, r, m);
    var x := Extract(c, negated);
    assert x in Atoms(c, negated);
    assert ImpliesExistence(x.op) && Holds(x, r, m) ==> Holds(Constraint(c.field, Exists, []), r, m);
  }

  /** A record satisfies a filter, or its negation, only by satisfying all comparisons of some disjunct. */
  lemma {:induction false} SatisfiesSomeDisjunct(f: Filter, negated: bool, r: Record, m: Matcher, others: nat -> bool)
    requires Readable(f, negated, r) && Eval(f, r, m, others) != negated
    ensures exists D :: Disjunct(f, negated, D) && HoldTogether(D, r, m)
    decreases f, 1
  {
    match f
    case Or(branches) =>
      if negated {
        SatisfiesConjoined(branches, negated, r, m, others);
      } else {
        var b :| b in branches && Eval(b, r, m, others);
        SatisfiesSomeDisjunct(b, negated, r, m, others);
      }
    case And(parts) =>
      if negated {
        var p :| p in parts && !Eval(p, r, m, others);
        SatisfiesSomeDisjunct(p, negated, r, m, others);
      } else {
        SatisfiesConjoined(parts, negated, r, m, others);
      }
    case Not(inner) => SatisfiesSomeDisjunct(inner, !negated, r, m, others);
    case Compare(c) =>
      AtomsMean(c, negated, r, m);
      assert Disjunct(f, negated, Atoms(c, negated));
    case Other(_) =>
      assert Disjunct(f, negated, {});
  }

  lemma {:induction false} SatisfiesConjoined(fs: seq<Filter>, negated: bool, r: Record, m: Matcher,
                                              others: nat -> bool)
    requires forall f :: f in fs ==> Readable(f, negated, r) && Eval(f, r, m, others) != negated
    ensures exists D :: Conjoined(fs, negated, D) && HoldTogether(D, r, m)
    decreases fs, 0
  {
    if fs == [] {
      assert Conjoined(fs, negated, {});
    } else {
      SatisfiesSomeDisjunct(fs[0], negated, r, m, others);
      var D0 :| Disjunct(fs[0], negated, D0) && HoldTogether(D0, r, m);
      SatisfiesConjoined(fs[1..], negated, r, m, others);
      var D1 :| Conjoined(fs[1..], negated, D1) && HoldTogether(D1, r, m);
      assert Conjoined(fs, negated, D0 + D1);
    }
  }

  /** No function call or full-text term. */
  ghost predicate ComparisonsOnly(f: Filter) {
    match f
    case Or(branches) => forall b :: b in branches ==> ComparisonsOnly(b)
    case And(parts) => forall p :: p in parts ==> ComparisonsOnly(p)
    case Not(inner) => ComparisonsOnly(inner)
    case Compare(_) => true
    case Other(_) => false
  }

  /** Conversely, satisfying all comparisons of a disjunct satisfies the filter, or its negation. */
  lemma {:induction false} DisjunctSuffices(f: Filter, negated: bool, D: set<Constraint>, r: Record, m: Matcher,
                                            others: nat -> bool)
    requires Readable(f, negated, r) && ComparisonsOnly(f) && Disjunct(f, negated, D) && HoldTogether(D, r, m)
    ensures Eval(f, r, m, others) != negated
    decreases f, 1
  {
    match f
    case Or(branches) =>
      if negated {
        ConjoinedSuffices(branches, negated, D, r, m, others);
      } else {
        var b :| b in branches && Disjunct(b, negated, D);
        DisjunctSuffices(b, negated, D, r, m, others);
      }
    case And(parts) =>
      if negated {
        var p :| p in parts && Disjunct(p, negated, D);
        DisjunctSuffices(p, negated, D, r, m, others);
      } else {
        ConjoinedSuffices(parts, negated, D, r, m, others);
      }
    case Not(inner) => DisjunctSuffices(inner, !negated, D, r, m, others);
    case Compare(c) => AtomsMean(c, negated, r, m);
    case Other(_) =>
  }

  lemma {:induction false} ConjoinedSuffices(fs: seq<Filter>, negated: bool, D: set<Constraint>, r: Record,
                                             m: Matcher, others: nat -> bool)
    requires forall f :: f in fs ==> Readable(f, negated, r) && ComparisonsOnly(f)
    requires Conjoined(fs, negated, D) && HoldTogether(D, r, m)
    ensures forall f :: f in fs ==> Eval(f, r, m, others) != negated
    decreases fs, 0
  {
    if fs != [] {
      var D0: set<Constraint>, D1: set<Constraint> :|
        Disjunct(fs[0], negated, D0) && Conjoined(fs[1..], negated, D1) && D == D0 + D1;
      DisjunctSuffices(fs[0], negated, D0, r, m, others);
      ConjoinedSuffices(fs[1..], negated, D1, r, m, others);
    }
  }

  // ---- The fragment ----

  /** NOT reaches no AND of several parts, and every OR has a branch. */
  ghost predicate InFragment(f: Filter, negated: bool) {
    match f
    case Or(branches) => |branches| > 0 && forall b :: b in branches ==> InFragment(b, negated)
    case And(parts) => (negated ==> |parts| == 1) && forall p :: p in parts ==> InFragment(p, negated)
    case Not(inner) => InFragment(inner, !negated)
    case Compare(_) => true
    case Other(_) => true
  }

  lemma {:induction false} SomeDisjunct(f: Filter, negated: bool) returns (D: set<Constraint>)
    requires InFragment(f, negated)
    ensures Disjunct(f, negated, D)
    decreases f, 1
  {
    match f
    case Or(branches) =>
      if negated {
        D := SomeConjoined(branches, negated);
      } else {
        D := SomeDisjunct(branches[0], negated);
      }
    case And(parts) =>
      if negated {
        D := SomeDisjunct(parts[0], negated);
      } else {
        D := SomeConjoined(parts, negated);
      }
    case Not(inner) => D := SomeDisjunct(inner, !negated);
    case Compare(c) => D := Atoms(c, negated);
    case Other(_) => D := {};
  }

  lemma {:induction false} SomeConjoined(fs: seq<Filter>, negated: bool) returns (D: set<Constraint>)
    requires forall f :: f in fs ==> InFragment(f, negated)
    ensures Conjoined(fs, negated, D)
    decreases fs, 0
  {
    if fs == [] {
      D := {};
    } else {
      var D0 := SomeDisjunct(fs[0], negated);
      var D1 := SomeConjoined(fs[1..], negated);
      D := D0 + D1;
    }
  }

  /** Any disjunct of one of the filters extends to a disjunct of them all. */
  lemma {:induction false} ExtendConjoined(fs: seq<Filter>, negated: bool, i: nat,
                                           Di: set<Constraint>)
    returns (D: set<Constraint>)
    requires i < |fs| && (forall f :: f in fs ==> InFragment(f, negated)) && Disjunct(fs[i], negated, Di)
    ensures Conjoined(fs, negated, D) && Di <= D
    decreases i
  {
    if i == 0 {
      var D1 := SomeConjoined(fs[1..], negated);
      D := Di + D1;
    } else {
      var D0 := SomeDisjunct(fs[0], negated);
      assert fs[i] == fs[1..][i - 1];
      var D1 := ExtendConjoined(fs[1..], negated, i - 1, Di);
      D := D0 + D1;
    }
  }

  // ---- Where the walk's constraints and reports come from ----

  ghost predicate Within(m: Collected, B: set<Constraint>) {
    forall field, c :: field in m && c in m[field] ==> c.field == field && c in B
  }

  /** The report is found among constraints of its field taken from S. */
  ghost predicate Excused(rep: Report, S: set<Constraint>) {
    exists cs :: Drawn(cs, rep.field, S) && Finding(rep.kind, cs)
  }

  lemma ExcusedGrows(rep: Report, S: set<Constraint>, T: set<Constraint>)
    requires Excused(rep, S) && S <= T
    ensures Excused(rep, T)
  {
    var cs :| Drawn(cs, rep.field, S) && Finding(rep.kind, cs);
    assert Drawn(cs, rep.field, T);
  }

  lemma ReportedIsExcused(m: Collected, B: set<Constraint>, rep: Report)
    requires Within(m, B) && Reported(m, rep)
    ensures Excused(rep, B)
  {
    assert Drawn(m[rep.field], rep.field, B);
  }

  lemma AddedWithin(m: Collected, B: set<Constraint>, c: Comparison, negated: bool)
    requires Within(m, B)
    ensures Within(AddConstraint(m, Extract(c, negated)), B + Atoms(c, negated))
  {
  }

  /** Walking f from constraints within B stays within B and one disjunct of f, and each new report is found
      among B and the comparisons of one disjunct of f. */
  lemma {:induction false} VisitStaysInDisjunct(f: Filter, negated: bool, s: Scan,
                                                B: set<Constraint>)
    returns (D: set<Constraint>)
    requires InFragment(f, negated) && Within(s.constraints, B)
    ensures Disjunct(f, negated, D) && Within(Visit(f, negated, s).constraints, B + D)
    ensures forall rep :: rep in Visit(f, negated, s).reports && rep !in s.reports ==>
              exists D' :: Disjunct(f, negated, D') && Excused(rep, B + D')
    decreases f, 1
  {
    match f
    case Or(branches) => D := VisitOr(f, branches, negated, s, B);
    case And(parts) =>
      if negated {
        assert parts == [parts[0]] && parts[1..] == [];
        assert VisitParts(parts[1..], negated, Visit(parts[0], negated, s)) == Visit(parts[0], negated, s);
        D := VisitStaysInDisjunct(parts[0], negated, s, B);
        assert parts[0] in parts;
      } else {
        D := PartsStayConjoined(parts, negated, s, B);
      }
    case Not(inner) => D := VisitStaysInDisjunct(inner, !negated, s, B);
    case Compare(c) =>
      D := Atoms(c, negated);
      AddedWithin(s.constraints, B, c, negated);
      var m := AddConstraint(s.constraints, Extract(c, negated));
      forall rep | rep in Visit(f, negated, s).reports && rep !in s.reports
        ensures exists D' :: Disjunct(f, negated, D') && Excused(rep, B + D')
      {
        ReportedIsExcused(m, B + D, rep);
      }
    case Other(_) =>
      D := {};
      assert B + D == B;
  }

  lemma {:induction false} VisitOr(f: Filter, branches: seq<Filter>, negated: bool, s: Scan,
                                   B: set<Constraint>)
    returns (D: set<Constraint>)
    requires f == Or(branches) && InFragment(f, negated) && Within(s.constraints, B)
    ensures Disjunct(f, negated, D) && Within(Visit(f, negated, s).constraints, B + D)
    ensures forall rep :: rep in Visit(f, negated, s).reports && rep !in s.reports ==>
              exists D' :: Disjunct(f, negated, D') && Excused(rep, B + D')
    decreases f, 0
  {
    if |branches| == 1 {
      D := VisitStaysInDisjunct(branches[0], negated, s, B);
      OnlyBranch(f, branches, negated);
      assert Disjunct(f, negated, D);
    } else {
      D := SomeDisjunct(f, negated);
      BranchesKeepConstraints(branches, negated, s);
      forall rep | rep in Visit(f, negated, s).reports && rep !in s.reports
        ensures exists D' :: Disjunct(f, negated, D') && Excused(rep, B + D')
      {
        var i, Di := BranchOfReport(branches, negated, s, B, rep);
        if negated {
          var D' := ExtendConjoined(branches, negated, i, Di);
          ExcusedGrows(rep, B + Di, B + D');
        } else {
          assert branches[i] in branches;
        }
      }
    }
  }

  /** An OR of one branch has that branch's disjuncts. */
  lemma OnlyBranch(f: Filter, branches: seq<Filter>, negated: bool)
    requires f == Or(branches) && |branches| == 1
    ensures forall D :: Disjunct(branches[0], negated, D) ==> Disjunct(f, negated, D)
  {
    forall D | Disjunct(branches[0], negated, D) ensures Disjunct(f, negated, D) {
      if negated {
        assert Conjoined(branches[1..], negated, {});
        assert D == D + {};
        assert Conjoined(branches, negated, D);
      } else {
        assert branches[0] in branches;
      }
    }
  }

  lemma {:induction false} BranchesKeepConstraints(branches: seq<Filter>, negated: bool, s: Scan)
    ensures VisitBranches(branches, negated, s).constraints == s.constraints
    decreases |branches|
  {
    if branches != [] {
      BranchesKeepConstraints(branches[1..], negated, s.(reports := Visit(branches[0], negated, s).reports));
    }
  }

  lemma {:induction false} BranchOfReport(branches: seq<Filter>, negated: bool, s: Scan, B: set<Constraint>,
                                          rep: Report)
    returns (i: nat, Di: set<Constraint>)
    requires (forall b :: b in branches ==> InFragment(b, negated)) && Within(s.constraints, B)
    requires rep in VisitBranches(branches, negated, s).reports && rep !in s.reports
    ensures i < |branches| && Disjunct(branches[i], negated, Di) && Excused(rep, B + Di)
    decreases branches, 0
  {
    var first := Visit(branches[0], negated, s);
    if rep in first.reports {
      var D := VisitStaysInDisjunct(branches[0], negated, s, B);
      var D' :| Disjunct(branches[0], negated, D') && Excused(rep, B + D');
      i, Di := 0, D';
    } else {
      var j;
      j, Di := BranchOfReport(branches[1..], negated, s.(reports := first.reports), B, rep);
      i := j + 1;
    }
  }

  lemma {:induction false} PartsStayConjoined(parts: seq<Filter>, negated: bool, s: Scan,
                                              B: set<Constraint>)
    returns (D: set<Constraint>)
    requires (forall p :: p in parts ==> InFragment(p, negated)) && Within(s.constraints, B)
    ensures Conjoined(parts, negated, D) && Within(VisitParts(parts, negated, s).constraints, B + D)
    ensures forall rep :: rep in VisitParts(parts, negated, s).reports && rep !in s.reports ==>
              exists D' :: Conjoined(parts, negated, D') && Excused(rep, B + D')
    decreases parts, 0
  {
    if parts == [] {
      D := {};
      assert B + D == B;
    } else {
      var D0 := VisitStaysInDisjunct(parts[0], negated, s, B);
      var s1 := Visit(parts[0], negated, s);
      var D1 := PartsStayConjoined(parts[1..], negated, s1, B + D0);
      D := D0 + D1;
      assert B + D0 + D1 == B + D;
      forall rep | rep in VisitParts(parts, negated, s).reports && rep !in s.reports
        ensures exists D' :: Conjoined(parts, negated, D') && Excused(rep, B + D')
      {
        if rep in s1.reports {
          var D0' :| Disjunct(parts[0], negated, D0') && Excused(rep, B + D0');
          ExcusedGrows(rep, B + D0', B + (D0' + D1));
          assert Conjoined(parts, negated, D0' + D1);
        } else {
          var D1' :| Conjoined(parts[1..], negated, D1') && Excused(rep, B + D0 + D1');
          assert B + D0 + D1' == B + (D0 + D1');
          assert Conjoined(parts, negated, D0 + D1');
        }
      }
    }
  }

  lemma {:induction false} DisjunctWithinLiterals(f: Filter, negated: bool, D: set<Constraint>)
    requires Disjunct(f, negated, D)
    ensures D <= Literals(f, negated)
    decreases f, 1
  {
    match f
    case Or(branches) =>
      if negated {
        ConjoinedWithinLiterals(branches, negated, D);
      } else {
        var b :| b in branches && Disjunct(b, negated, D);
        DisjunctWithinLiterals(b, negated, D);
        LiteralsInclude(branches, negated, b);
      }
    case And(parts) =>
      if negated {
        var p :| p in parts && Disjunct(p, negated, D);
        DisjunctWithinLiterals(p, negated, D);
        LiteralsInclude(parts, negated, p);
      } else {
        ConjoinedWithinLiterals(parts, negated, D);
      }
    case Not(inner) => DisjunctWithinLiterals(inner, !negated, D);
    case Compare(_) =>
    case Other(_) =>
  }

  lemma {:induction false} ConjoinedWithinLiterals(fs: seq<Filter>, negated: bool, D: set<Constraint>)
    requires Conjoined(fs, negated, D)
    ensures D <= LiteralsOfAll(fs, negated)
    decreases fs, 0
  {
    if fs != [] {
      var D0: set<Constraint>, D1: set<Constraint> :|
        Disjunct(fs[0], negated, D0) && Conjoined(fs[1..], negated, D1) && D == D0 + D1;
      DisjunctWithinLiterals(fs[0], negated, D0);
      ConjoinedWithinLiterals(fs[1..], negated, D1);
    }
  }

  lemma {:induction false} LiteralsInclude(fs: seq<Filter>, negated: bool, f: Filter)
    requires f in fs
    ensures Literals(f, negated) <= LiteralsOfAll(fs, negated)
    decreases |fs|
  {
    if f != fs[0] {
      LiteralsInclude(fs[1..], negated, f);
    }
  }

  // ---- Soundness ----

  ghost predicate Refuted(D: set<Constraint>) {
    forall r: Record, m: Matcher :: !HoldTogether(D, r, m)
  }

  /** In the fragment every report is found among the comparisons of one disjunct of the filter. */
  lemma ReportComesFromDisjunct(f: Filter, rep: Report) returns (D: set<Constraint>)
    requires InFragment(f, false) && rep in Detect(f)
    ensures Disjunct(f, false, D) && Excused(rep, D)
  {
    var start := Scan(map[], iset{});
    D := VisitStaysInDisjunct(f, false, start, {});
    var s := Visit(f, false, start);
    if rep in s.reports {
      D :| Disjunct(f, false, D) && Excused(rep, {} + D);
    } else {
      ReportedIsExcused(s.constraints, {} + D, rep);
    }
    assert {} + D == D;
  }

  /** Over clean literals no record satisfies that disjunct. */
  lemma ReportsAreSound(f: Filter, rep: Report)
    requires InFragment(f, false) && Clean(Literals(f, false)) && rep in Detect(f)
    ensures exists D :: Disjunct(f, false, D) && Excused(rep, D) && Refuted(D)
  {
    var D := ReportComesFromDisjunct(f, rep);
    DisjunctWithinLiterals(f, false, D);
    ExcusedIsRefuted(rep, D, Literals(f, false));
  }

  lemma ExcusedIsRefuted(rep: Report, D: set<Constraint>, S: set<Constraint>)
    requires Excused(rep, D) && D <= S && Clean(S)
    ensures Refuted(D)
  {
    var cs :| Drawn(cs, rep.field, D) && Finding(rep.kind, cs);
    assert Drawn(cs, rep.field, S);
    forall r: Record, m: Matcher ensures !HoldTogether(D, r, m) {
      FindingIsJustified(rep.kind, cs, rep.field, S, r, m);
    }
  }

  /** No choice between branches: every OR has one branch, unless NOT turns it into a conjunction. */
  ghost predicate OrFree(f: Filter, negated: bool) {
    match f
    case Or(branches) => (negated || |branches| == 1) && forall b :: b in branches ==> OrFree(b, negated)
    case And(parts) => (negated ==> |parts| == 1) && forall p :: p in parts ==> OrFree(p, negated)
    case Not(inner) => OrFree(inner, !negated)
    case Compare(_) => true
    case Other(_) => true
  }

  lemma {:induction false} OneDisjunctOnly(f: Filter, negated: bool, D: set<Constraint>, E: set<Constraint>)
    requires OrFree(f, negated) && Disjunct(f, negated, D) && Disjunct(f, negated, E)
    ensures D == E
    decreases f, 1
  {
    match f
    case Or(branches) =>
      if negated {
        OneConjoinedOnly(branches, negated, D, E);
      } else {
        OneDisjunctOnly(branches[0], negated, D, E);
      }
    case And(parts) =>
      if negated {
        OneDisjunctOnly(parts[0], negated, D, E);
      } else {
        OneConjoinedOnly(parts, negated, D, E);
      }
    case Not(inner) => OneDisjunctOnly(inner, !negated, D, E);
    case Compare(_) =>
    case Other(_) =>
  }

  lemma {:induction false} OneConjoinedOnly(fs: seq<Filter>, negated: bool, D: set<Constraint>, E: set<Constraint>)
    requires (forall f :: f in fs ==> OrFree(f, negated)) && Conjoined(fs, negated, D) && Conjoined(fs, negated, E)
    ensures D == E
    decreases fs, 0
  {
    if fs != [] {
      var D0: set<Constraint>, D1: set<Constraint> :|
        Disjunct(fs[0], negated, D0) && Conjoined(fs[1..], negated, D1) && D == D0 + D1;
      var E0: set<Constraint>, E1: set<Constraint> :|
        Disjunct(fs[0], negated, E0) && Conjoined(fs[1..], negated, E1) && E == E0 + E1;
      OneDisjunctOnly(fs[0], negated, D0, E0);
      OneConjoinedOnly(fs[1..], negated, D1, E1);
    }
  }

  /** An OR-free filter that is reported is satisfied by no record, as long as the record has the fields that a
      range comparison under NOT speaks of. */
  lemma ReportedFilterIsNeverTrue(f: Filter, rep: Report, r: Record, m: Matcher, others: nat -> bool)
    requires InFragment(f, false) && OrFree(f, false) && Clean(Literals(f, false)) && rep in Detect(f)
    requires Readable(f, false, r)
    ensures !Eval(f, r, m, others)
  {
    ReportsAreSound(f, rep);
    var D :| Disjunct(f, false, D) && Excused(rep, D) && Refuted(D);
    RefutedIsNeverTrue(f, D, r, m, others);
  }

  lemma RefutedIsNeverTrue(f: Filter, D: set<Constraint>, r: Record, m: Matcher, others: nat -> bool)
    requires OrFree(f, false) && Disjunct(f, false, D) && Refuted(D) && Readable(f, false, r)
    ensures !Eval(f, r, m, others)
  {
    if Eval(f, r, m, others) {
      SatisfiesSomeDisjunct(f, false, r, m, others);
      var E :| Disjunct(f, false, E) && HoldTogether(E, r, m);
      OneDisjunctOnly(f, false, D, E);
    }
  }
}
