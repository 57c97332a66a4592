/** One BETWEEN against several NOT BETWEENs on its field: three probes decide the report, coverage the truth. */
module BetweenProbes {
  import opened Wrappers
  import opened Constraints
  import opened Findings
  import opened Contradictions
  import opened ContradictionSoundness
  import opened ContradictionLimits

  /** `field op lo AND hi` with numbers. */
  predicate IsSpan(c: Comparison, field: string, op: Operator) {
    && c.field == field && c.op == op && |c.values| == 2
    && c.values[0].number.Some? && c.values[1].number.Some?
  }

  function Low(c: Comparison): real
    requires |c.values| == 2 && c.values[0].number.Some?
  {
    c.values[0].number.value
  }

  function High(c: Comparison): real
    requires |c.values| == 2 && c.values[1].number.Some?
  {
    c.values[1].number.value
  }

  /** One of the ranges holds x. */
  ghost predicate Covered(ns: seq<Comparison>, field: string, x: real) {
    exists n :: n in ns && Reaches(n, field, x)
  }

  predicate Reaches(n: Comparison, field: string, x: real) {
    IsSpan(n, field, NotBetween) && Low(n) <= x <= High(n)
  }

  // ---- What is reported ----

  /** The NOT BETWEEN constraints of the list are those that the comparisons give. */
  ghost predicate NotBetweensOf(bucket: seq<Constraint>, ns: seq<Comparison>) {
    forall c :: c in bucket && c.op == NotBetween <==> exists n :: n in ns && c == Extract(n, false)
  }

  /** The comparisons on this path of the walk end without a check. */
  lemma {:induction false} QuietWalk(cs: seq<Comparison>, s: Scan)
    requires forall k :: k in cs ==> !ChecksAtOnce(k.op)
    ensures VisitParts(Conjunction(cs).parts, false, s).reports == s.reports
    decreases |cs|
  {
    if cs != [] {
      var parts := Conjunction(cs).parts;
      assert parts[0] == Compare(cs[0]) && parts[1..] == Conjunction(cs[1..]).parts;
      QuietWalk(cs[1..], Visit(parts[0], false, s));
    }
  }

  lemma CollectedSpans(b: Comparison, ns: seq<Comparison>, field: string)
    requires IsSpan(b, field, Between) && forall n :: n in ns ==> IsSpan(n, field, NotBetween)
    ensures var bucket := Bucket(CollectAll(map[], [b] + ns), field);
            && |bucket| >= 2
            && (forall c :: c in bucket && c.op == Between <==> c == Extract(b, false))
            && NotBetweensOf(bucket, ns)
  {
    var cs := [b] + ns;
    var bucket := Bucket(CollectAll(map[], cs), field);
    forall c: Constraint | c.field == field ensures c in bucket <==> GivenBy(cs, c) {
      CollectedMembers(map[], cs, c);
    }
    CollectedIsOwnField(cs, field);
    var x, e := Extract(b, false), Constraint(field, Exists, []);
    GivenBySpans(b, ns, field, x);
    GivenBySpans(b, ns, field, e);
    TwoMembers(bucket, x, e);
    forall c ensures c in bucket && c.op == Between <==> c == x {
      if c.field == field {
        GivenBySpans(b, ns, field, c);
      }
    }
    forall c ensures c in bucket && c.op == NotBetween <==> exists n :: n in ns && c == Extract(n, false) {
      if c.field == field {
        GivenBySpans(b, ns, field, c);
      }
    }
  }

  ghost predicate GivenBy(cs: seq<Comparison>, c: Constraint) {
    exists k :: k in cs && c in WithImplied(Extract(k, false))
  }

  /** BETWEEN gives itself and EXISTS, NOT BETWEEN only itself. */
  lemma GivenBySpans(b: Comparison, ns: seq<Comparison>, field: string, c: Constraint)
    requires IsSpan(b, field, Between) && forall n :: n in ns ==> IsSpan(n, field, NotBetween)
    ensures GivenBy([b] + ns, c) <==>
              || c == Extract(b, false) || c == Constraint(field, Exists, [])
              || exists n :: n in ns && c == Extract(n, false)
  {
    var cs := [b] + ns;
    var x := Extract(b, false);
    assert b in cs && x in WithImplied(x) && Constraint(field, Exists, []) in WithImplied(x);
    forall n | n in ns ensures n in cs && WithImplied(Extract(n, false)) == [Extract(n, false)] {
    }
    assert forall k :: k in cs ==> k == b || k in ns;
  }

  lemma CollectedIsOwnField(cs: seq<Comparison>, field: string)
    ensures forall c :: c in Bucket(CollectAll(map[], cs), field) ==> c.field == field
  {
    OwnBuckets(map[], cs);
  }

  lemma TwoMembers<T>(xs: seq<T>, a: T, b: T)
    requires a in xs && b in xs && a != b
    ensures |xs| >= 2
  {
  }

  /** The report is made exactly when both ends and the middle of the range are covered. */
  lemma ReportedByProbes(b: Comparison, ns: seq<Comparison>)
    requires IsSpan(b, b.field, Between) && forall n :: n in ns ==> IsSpan(n, b.field, NotBetween)
    ensures Report(b.field, BetweenExcluded) in Detect(Conjunction([b] + ns)) <==>
              && Covered(ns, b.field, Low(b)) && Covered(ns, b.field, High(b))
              && Covered(ns, b.field, (Low(b) + High(b)) / 2.0)
  {
    var bucket := Bucket(CollectAll(map[], [b] + ns), b.field);
    FoundInTheEnd(b, ns, BetweenExcluded);
    CollectedSpans(b, ns, b.field);
    ProbedByOnly(bucket, Extract(b, false));
    ProbesMeanCovered(bucket, b, ns);
  }

  lemma ProbedByOnly(bucket: seq<Constraint>, e: Constraint)
    requires e.op == Between && forall c :: c in bucket && c.op == Between <==> c == e
    ensures Finding(BetweenExcluded, bucket) <==> ProbesExcluded(e, bucket)
  {
    assert e in bucket;
  }

  lemma ProbesMeanCovered(bucket: seq<Constraint>, b: Comparison, ns: seq<Comparison>)
    requires IsSpan(b, b.field, Between) && forall n :: n in ns ==> IsSpan(n, b.field, NotBetween)
    requires NotBetweensOf(bucket, ns)
    ensures ProbesExcluded(Extract(b, false), bucket) <==>
              && Covered(ns, b.field, Low(b)) && Covered(ns, b.field, High(b))
              && Covered(ns, b.field, (Low(b) + High(b)) / 2.0)
  {
    ExcludedMeansCovered(bucket, ns, b.field, Low(b));
    ExcludedMeansCovered(bucket, ns, b.field, High(b));
    ExcludedMeansCovered(bucket, ns, b.field, (Low(b) + High(b)) / 2.0);
    assert IsNumericRange(Extract(b, false));
  }

  lemma FoundInTheEnd(b: Comparison, ns: seq<Comparison>, kind: Kind)
    requires IsSpan(b, b.field, Between) && forall n :: n in ns ==> IsSpan(n, b.field, NotBetween)
    ensures Report(b.field, kind) in Detect(Conjunction([b] + ns)) <==>
              Finding(kind, Bucket(CollectAll(map[], [b] + ns), b.field))
  {
    var cs, start := [b] + ns, Scan(map[], iset{});
    WalkConjunction(cs, start);
    QuietWalk(cs, start);
    CollectedSpans(b, ns, b.field);
  }

  lemma ExcludedMeansCovered(bucket: seq<Constraint>, ns: seq<Comparison>, field: string, x: real)
    requires forall n :: n in ns ==> IsSpan(n, field, NotBetween)
    requires NotBetweensOf(bucket, ns)
    ensures ExcludedBySome(x, bucket) <==> Covered(ns, field, x)
  {
    if n :| n in ns && Reaches(n, field, x) {
      var c := Extract(n, false);
      assert c in bucket && c.op == NotBetween && ValueSatisfiesBetween(Some(x), c);
    }
  }

  // ---- What is true ----

  /** No record satisfies the filter exactly when the whole range is covered. */
  lemma NeverTrueWhenCovered(b: Comparison, ns: seq<Comparison>, m: Matcher, others: nat -> bool)
    requires IsSpan(b, b.field, Between) && forall n :: n in ns ==> IsSpan(n, b.field, NotBetween)
    ensures NeverTrue(Conjunction([b] + ns), m, others) <==>
              forall x :: Low(b) <= x <= High(b) ==> Covered(ns, b.field, x)
  {
    forall r: Record ensures Eval(Conjunction([b] + ns), r, m, others) <==>
      b.field in r && Low(b) <= r[b.field] <= High(b) && !Covered(ns, b.field, r[b.field])
    {
      SpansHold(b, ns, r, m, others);
    }
    if x :| Low(b) <= x <= High(b) && !Covered(ns, b.field, x) {
      var r: Record := map[b.field := x];
      assert Eval(Conjunction([b] + ns), r, m, others);
    }
  }

  lemma SpansHold(b: Comparison, ns: seq<Comparison>, r: Record, m: Matcher, others: nat -> bool)
    requires IsSpan(b, b.field, Between) && forall n :: n in ns ==> IsSpan(n, b.field, NotBetween)
    ensures Eval(Conjunction([b] + ns), r, m, others) <==>
              b.field in r && Low(b) <= r[b.field] <= High(b) && !Covered(ns, b.field, r[b.field])
  {
    var cs := [b] + ns;
    EvalConjunction(cs, r, m, others);
    assert b in cs && forall n :: n in ns ==> n in cs;
    assert forall k :: k in cs ==> k == b || k in ns;
    forall n | n in ns ensures Means(n, r, m) <==> b.field !in r || !Reaches(n, b.field, r[b.field]) {
      ExcludedSpanMeans(n, b.field, r, m);
    }
  }

  lemma ExcludedSpanMeans(n: Comparison, field: string, r: Record, m: Matcher)
    requires IsSpan(n, field, NotBetween)
    ensures Means(n, r, m) <==> field !in r || !Reaches(n, field, r[field])
  {
  }

  lemma EvalConjunction(cs: seq<Comparison>, r: Record, m: Matcher, others: nat -> bool)
    ensures Eval(Conjunction(cs), r, m, others) <==> forall k :: k in cs ==> Means(k, r, m)
  {
    var parts := Conjunction(cs).parts;
    forall i | 0 <= i < |cs| ensures parts[i] in parts && (Eval(parts[i], r, m, others) <==> Means(cs[i], r, m)) {
      assert parts[i] == Compare(cs[i]);
    }
  }

  // ---- When the two agree ----

  /** The report is right exactly when the ranges cover all of [lo, hi] and not only the three probes; a right
      report is never missed on a range that is not empty. */
  lemma BetweenExcludedIsRightExactly(b: Comparison, ns: seq<Comparison>, m: Matcher, others: nat -> bool)
    requires IsSpan(b, b.field, Between) && forall n :: n in ns ==> IsSpan(n, b.field, NotBetween)
    ensures Report(b.field, BetweenExcluded) in Detect(Conjunction([b] + ns)) ==>
              (NeverTrue(Conjunction([b] + ns), m, others) <==>
                forall x :: Low(b) <= x <= High(b) ==> Covered(ns, b.field, x))
    ensures Low(b) <= High(b) && NeverTrue(Conjunction([b] + ns), m, others) ==>
              Report(b.field, BetweenExcluded) in Detect(Conjunction([b] + ns))
  {
    ReportedByProbes(b, ns);
    NeverTrueWhenCovered(b, ns, m, others);
  }

  /** With a single NOT BETWEEN the probes suffice. */
  lemma OneRangeIsProbedExactly(b: Comparison, n: Comparison, m: Matcher, others: nat -> bool)
    requires IsSpan(b, b.field, Between) && IsSpan(n, b.field, NotBetween) && Low(b) <= High(b)
    ensures Report(b.field, BetweenExcluded) in Detect(Conjunction([b, n])) <==>
            NeverTrue(Conjunction([b, n]), m, others)
  {
    assert [b] + [n] == [b, n];
    assert forall k :: k in [n] ==> k == n;
    BetweenExcludedIsRightExactly(b, [n], m, others);
    ReportedByProbes(b, [n]);
    if Report(b.field, BetweenExcluded) in Detect(Conjunction([b, n])) {
      forall x | Low(b) <= x <= High(b) ensures Covered([n], b.field, x) {
        assert n in [n] && Reaches(n, b.field, x);
      }
    }
  }

  /** With three narrow ranges at the probes it is wrong: everything between them is allowed. */
  lemma ProbesCanBeWrong(b: Comparison, n0: Comparison, n1: Comparison, n2: Comparison, m: Matcher, others: nat -> bool)
    requires IsSpan(b, b.field, Between) && Low(b) < High(b)
    requires IsSpan(n0, b.field, NotBetween) && Low(n0) == High(n0) == Low(b)
    requires IsSpan(n1, b.field, NotBetween) && Low(n1) == High(n1) == (Low(b) + High(b)) / 2.0
    requires IsSpan(n2, b.field, NotBetween) && Low(n2) == High(n2) == High(b)
    ensures Report(b.field, BetweenExcluded) in Detect(Conjunction([b] + [n0, n1, n2]))
    ensures !NeverTrue(Conjunction([b] + [n0, n1, n2]), m, others)
  {
    var ns := [n0, n1, n2];
    assert n0 in ns && n1 in ns && n2 in ns;
    assert forall n :: n in ns ==> n == n0 || n == n1 || n == n2;
    ReportedByProbes(b, ns);
    NeverTrueWhenCovered(b, ns, m, others);
    var x := Low(b) + (High(b) - Low(b)) / 4.0;
    assert Low(b) <= x <= High(b) && !Covered(ns, b.field, x);
  }
}
