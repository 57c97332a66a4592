/** The checks made on the constraints collected for one field, and when a finding is justified. */
module Findings {
  import opened Wrappers
  import opened Constraints
  import LikePatterns

  datatype Kind =
    | DifferentEquals
    | EqualAndNotEqual
    | EqualInNotIn
    | EqualMissingFromIn
    | InOverlapsNotIn
    | ContradictoryRanges
    | EqualOutsideRange
    | ExistsAndNotExists
    | NotExistsButImplied
    | DisjointBetweens
    | EqualOutsideBetweens
    | EqualInNotBetween
    | BetweenExcluded
    | EqualMissesLike
    | PatternOutOfRange // not a message: the matcher slices a lone `%` out of range and panics

  /** What the checks of one field end with; the kinds of a check that panics include PatternOutOfRange. */
  datatype Checked = Panicked(kinds: set<Kind>) | Returned(kinds: set<Kind>)

  // ---- The checks ----

  /** The text of the value a comparison carries. */
  function TextOf(c: Constraint): string {
    if |c.values| > 0 then c.values[0].text else ""
  }

  function NumberOf(c: Constraint): Option<real> {
    if |c.values| > 0 then c.values[0].number else None
  }

  predicate ListsText(c: Constraint, text: string) {
    exists v :: v in c.values && v.text == text
  }

  /** Whether a numeric value breaks a numeric range constraint. */
  predicate BreaksRange(value: Option<real>, c: Constraint) {
    && value.Some? && IsRangeOperator(c.op) && NumberOf(c).Some?
    && !Compares(c.op, value.value, NumberOf(c).value)
  }

  /** Non-numeric values and bounds count as satisfied; a malformed range does not. */
  predicate ValueSatisfiesBetween(value: Option<real>, between: Constraint) {
    if |between.values| != 2 then false
    else if value.None? || between.values[0].number.None? || between.values[1].number.None? then true
    else between.values[0].number.value <= value.value <= between.values[1].number.value
  }

  predicate ExcludedBySome(x: real, cs: seq<Constraint>) {
    exists n :: n in cs && n.op == NotBetween && ValueSatisfiesBetween(Some(x), n)
  }

  function WithOp(cs: seq<Constraint>, op: Operator): (r: seq<Constraint>)
    ensures forall c :: c in r <==> c in cs && c.op == op
  {
    if cs == [] then []
    else if cs[0].op == op then [cs[0]] + WithOp(cs[1..], op)
    else WithOp(cs[1..], op)
  }

  /** The matcher is asked about a lone `%`. */
  predicate SlicedOutOfRange(a: Constraint, b: Constraint) {
    a.op == Equal && b.op in {Like, ILike} && TextOf(b) == "%"
  }

  /** The checks that compare two constraints. */
  predicate Clashes(kind: Kind, a: Constraint, b: Constraint) {
    match kind
    case DifferentEquals => a.op == Equal && b.op == Equal && TextOf(a) != TextOf(b)
    case EqualAndNotEqual => a.op == Equal && b.op == NotEqual && TextOf(a) == TextOf(b)
    case EqualInNotIn => a.op == Equal && b.op == NotIn && ListsText(b, TextOf(a))
    case EqualMissingFromIn => a.op == Equal && b.op == In && !ListsText(b, TextOf(a))
    case InOverlapsNotIn => a.op == In && b.op == NotIn && Overlap(a, b)
    case EqualOutsideRange => a.op == Equal && BreaksRange(NumberOf(a), b)
    case ExistsAndNotExists => a.op == Exists && b.op == NotExists
    case NotExistsButImplied => ImpliesExistence(a.op) && b.op == NotExists
    case EqualInNotBetween => a.op == Equal && b.op == NotBetween && ValueSatisfiesBetween(NumberOf(a), b)
    case EqualMissesLike =>
      && a.op == Equal && b.op in {Like, ILike}
      && TextOf(b) != "%" && !LikePatterns.MatchesLikePattern(TextOf(a), TextOf(b))
    case PatternOutOfRange => SlicedOutOfRange(a, b)
    case _ => false
  }

  predicate Overlap(a: Constraint, b: Constraint) {
    exists v :: v in a.values && ListsText(b, v.text)
  }

  ghost predicate SomePairClashes(kind: Kind, cs: seq<Constraint>) {
    exists a, b :: a in cs && b in cs && Clashes(kind, a, b)
  }

  ghost predicate DisjointRanges(cs: seq<Constraint>) {
    |WithOp(cs, Between)| >= 2 && forall x: real :: !InAllBetweens(WithOp(cs, Between), x)
  }

  /** a lies in none of the BETWEEN ranges, and there is one. */
  predicate OutsideAll(a: Constraint, betweens: seq<Constraint>) {
    a.op == Equal && |betweens| > 0 && forall b :: b in betweens ==> !ValueSatisfiesBetween(NumberOf(a), b)
  }

  /** Both endpoints and the midpoint fall in some NOT BETWEEN range. */
  predicate ProbesExcluded(b: Constraint, cs: seq<Constraint>) {
    && b.op == Between && IsNumericRange(b)
    && ExcludedBySome(b.values[0].number.value, cs)
    && ExcludedBySome(b.values[1].number.value, cs)
    && ExcludedBySome((b.values[0].number.value + b.values[1].number.value) / 2.0, cs)
  }

  /** What each check looks for in the constraints of a field. */
  ghost predicate Finding(kind: Kind, cs: seq<Constraint>) {
    match kind
    case ContradictoryRanges => RangeImpossible(cs)
    case DisjointBetweens => DisjointRanges(cs)
    case EqualOutsideBetweens => exists a :: a in cs && OutsideAll(a, WithOp(cs, Between))
    case BetweenExcluded => exists b :: b in cs && ProbesExcluded(b, cs)
    case _ => SomePairClashes(kind, cs)
  }

  method ClashesWithSome(kind: Kind, a: Constraint, cs: seq<Constraint>) returns (found: bool)
    ensures found <==> exists b :: b in cs && Clashes(kind, a, b)
  {
    found := false;
    for j := 0 to |cs|
      invariant found ==> exists b :: b in cs && Clashes(kind, a, b)
      invariant !found ==> forall l :: 0 <= l < j ==> !Clashes(kind, a, cs[l])
    {
      if Clashes(kind, a, cs[j]) {
        found := true;
      }
    }
  }

  method AnyPairClashes(kind: Kind, cs: seq<Constraint>) returns (found: bool)
    ensures found <==> SomePairClashes(kind, cs)
  {
    found := false;
    for i := 0 to |cs|
      invariant found ==> SomePairClashes(kind, cs)
      invariant !found ==> forall k, b :: 0 <= k < i && b in cs ==> !Clashes(kind, cs[k], b)
    {
      var clashes := ClashesWithSome(kind, cs[i], cs);
      found := found || clashes;
    }
  }

  const PAIR_KINDS: seq<Kind> := [DifferentEquals, EqualAndNotEqual, EqualInNotIn, EqualMissingFromIn, InOverlapsNotIn,
                                  EqualOutsideRange, ExistsAndNotExists, NotExistsButImplied, EqualInNotBetween,
                                  EqualMissesLike, PatternOutOfRange]

  predicate IsPairKind(kind: Kind) {
    kind !in {ContradictoryRanges, DisjointBetweens, EqualOutsideBetweens, BetweenExcluded}
  }

  lemma PairKindsListed(kind: Kind)
    ensures kind in PAIR_KINDS <==> IsPairKind(kind)
  {
    assert PAIR_KINDS[0] == DifferentEquals && PAIR_KINDS[1] == EqualAndNotEqual && PAIR_KINDS[2] == EqualInNotIn;
    assert PAIR_KINDS[3] == EqualMissingFromIn && PAIR_KINDS[4] == InOverlapsNotIn;
    assert PAIR_KINDS[5] == EqualOutsideRange && PAIR_KINDS[6] == ExistsAndNotExists;
    assert PAIR_KINDS[7] == NotExistsButImplied && PAIR_KINDS[8] == EqualInNotBetween;
    assert PAIR_KINDS[9] == EqualMissesLike && PAIR_KINDS[10] == PatternOutOfRange;
  }

  method PairFindings(cs: seq<Constraint>) returns (kinds: set<Kind>)
    ensures forall k :: k in kinds <==> IsPairKind(k) && SomePairClashes(k, cs)
  {
    kinds := {};
    var all := PAIR_KINDS;
    for i := 0 to |all|
      invariant all == PAIR_KINDS
      invariant forall k :: k in kinds <==> k in all[..i] && SomePairClashes(k, cs)
    {
      var found := AnyPairClashes(all[i], cs);
      assert all[..i + 1] == all[..i] + [all[i]];
      if found {
        kinds := kinds + {all[i]};
      }
    }
    assert all[..|all|] == all;
    forall k ensures k in kinds <==> IsPairKind(k) && SomePairClashes(k, cs) {
      PairKindsListed(k);
    }
  }

  method BetweenFindings(cs: seq<Constraint>) returns (disjoint: bool, outside: bool, excluded: bool)
    ensures disjoint <==> DisjointRanges(cs)
    ensures outside <==> exists a :: a in cs && OutsideAll(a, WithOp(cs, Between))
    ensures excluded <==> exists b :: b in cs && ProbesExcluded(b, cs)
  {
    var betweens := WithOp(cs, Between);
    disjoint := false;
    if |betweens| >= 2 {
      var common := HasCommonIntersection(betweens);
      disjoint := !common;
    }
    outside := exists a :: a in cs && OutsideAll(a, betweens);
    excluded := exists b :: b in cs && ProbesExcluded(b, cs);
  }

  function Combined(pairs: set<Kind>, impossible: bool, disjoint: bool, outside: bool,
                    excluded: bool): (kinds: set<Kind>)
    ensures forall k :: k in kinds <==>
              || k in pairs
              || (impossible && k == ContradictoryRanges)
              || (disjoint && k == DisjointBetweens)
              || (outside && k == EqualOutsideBetweens)
              || (excluded && k == BetweenExcluded)
  {
    pairs + (if impossible then {ContradictoryRanges} else {}) + (if disjoint then {DisjointBetweens} else {}) +
    (if outside then {EqualOutsideBetweens} else {}) + (if excluded then {BetweenExcluded} else {})
  }

  method FindContradictionsInConstraints(cs: seq<Constraint>) returns (checked: Checked)
    ensures checked.Panicked? <==> exists a, b :: a in cs && b in cs && SlicedOutOfRange(a, b)
    ensures forall k :: k in checked.kinds <==> Finding(k, cs)
  {
    var pairs := PairFindings(cs);
    var impossible := CheckRangeContradictions(cs);
    var disjoint, outside, excluded := BetweenFindings(cs);
    var kinds := Combined(pairs, impossible, disjoint, outside, excluded);
    ghost var findings := iset k | Finding(k, cs);
    PairKindsFound(cs);
    CombinedIs(pairs, impossible, disjoint, outside, excluded, findings);
    LonePercentIsFinding(cs);
    checked := if PatternOutOfRange in kinds then Panicked(kinds) else Returned(kinds);
  }

  lemma PairKindsFound(cs: seq<Constraint>)
    ensures forall k :: IsPairKind(k) ==> (Finding(k, cs) <==> SomePairClashes(k, cs))
  {
  }

  lemma CombinedIs(pairs: set<Kind>, impossible: bool, disjoint: bool, outside: bool, excluded: bool,
                   findings: iset<Kind>)
    requires forall k :: k in pairs <==> IsPairKind(k) && k in findings
    requires impossible <==> ContradictoryRanges in findings
    requires disjoint <==> DisjointBetweens in findings
    requires outside <==> EqualOutsideBetweens in findings
    requires excluded <==> BetweenExcluded in findings
    ensures forall k :: k in Combined(pairs, impossible, disjoint, outside, excluded) <==> k in findings
  {
  }

  lemma LonePercentIsFinding(cs: seq<Constraint>)
    ensures Finding(PatternOutOfRange, cs) <==> exists a, b :: a in cs && b in cs && SlicedOutOfRange(a, b)
  {
    if a, b :| a in cs && b in cs && SlicedOutOfRange(a, b) {
      assert Clashes(PatternOutOfRange, a, b);
    }
    if a, b :| a in cs && b in cs && Clashes(PatternOutOfRange, a, b) {
      assert SlicedOutOfRange(a, b);
    }
  }

  // ---- When a finding is justified ----

  /** Well-formed numeric constraints: no pattern to be liked, every literal a number, and the operator's number of
      literals. */
  ghost predicate Numeric(c: Constraint) {
    && c.op !in {Like, ILike}
    && (forall v :: v in c.values ==> v.number.Some?)
    && (c.op in {Equal, NotEqual, LessThan, LessThanOrEq, GreaterThan, GreaterThanOrEq} ==> |c.values| == 1)
    && (c.op in {Between, NotBetween} ==> |c.values| == 2)
  }

  /** On each field texts identify numbers: equal texts, equal numbers, and no number written in two ways. */
  ghost predicate Canonical(s: set<Constraint>) {
    forall a, b, u, v :: a in s && b in s && a.field == b.field && u in a.values && v in b.values ==>
      (u.text == v.text <==> u.number == v.number)
  }

  /** An IN list that shares a value with a NOT IN list on its field lies inside it. */
  ghost predicate ListsNested(s: set<Constraint>) {
    forall a, b :: a in s && b in s && a.field == b.field && a.op == In && b.op == NotIn ==>
      (exists v :: v in a.values && ListsText(b, v.text)) ==> forall v :: v in a.values ==> ListsText(b, v.text)
  }

  ghost predicate OneNotBetween(s: set<Constraint>) {
    forall a, b :: a in s && b in s && a.field == b.field && a.op == NotBetween && b.op == NotBetween ==> a == b
  }

  ghost predicate Clean(s: set<Constraint>) {
    (forall c :: c in s ==> Numeric(c)) && Canonical(s) && ListsNested(s) && OneNotBetween(s)
  }

  /** Constraints of one field, all from s. */
  ghost predicate Drawn(cs: seq<Constraint>, field: string, s: set<Constraint>) {
    forall c :: c in cs ==> c in s && c.field == field
  }

  /** Among canonical literals, comparing texts is comparing numbers. */
  lemma TextsAreNumbers(a: Constraint, b: Constraint, v: Literal)
    requires Canonical({a, b}) && a.field == b.field && v in a.values && v.number.Some?
    ensures ListsText(b, v.text) <==> Lists(b.values, v.number.value)
  {
    if ListsText(b, v.text) {
      var u :| u in b.values && u.text == v.text;
      assert u.number == v.number;
    }
    if Lists(b.values, v.number.value) {
      var u :| u in b.values && u.number == v.number;
      assert u.text == v.text;
    }
  }

  lemma CanonicalPair(s: set<Constraint>, a: Constraint, b: Constraint)
    requires Canonical(s) && a in s && b in s
    ensures Canonical({a, b})
  {
  }

  lemma EqualClashIsJustified(kind: Kind, a: Constraint, b: Constraint, r: Record, m: Matcher)
    requires kind in {DifferentEquals, EqualAndNotEqual, EqualInNotIn, EqualMissingFromIn}
    requires Numeric(a) && Numeric(b) && Canonical({a, b}) && a.field == b.field && Clashes(kind, a, b)
    ensures !(Holds(a, r, m) && Holds(b, r, m))
  {
    var u := a.values[0];
    assert u in a.values;
    if kind in {DifferentEquals, EqualAndNotEqual} {
      assert b.values[0] in b.values;
      assert u.text == b.values[0].text <==> u.number == b.values[0].number;
    } else {
      TextsAreNumbers(a, b, u);
    }
  }

  lemma OverlapIsJustified(a: Constraint, b: Constraint, s: set<Constraint>, r: Record, m: Matcher)
    requires Clean(s) && a in s && b in s && a.field == b.field && Clashes(InOverlapsNotIn, a, b)
    ensures !(Holds(a, r, m) && Holds(b, r, m))
  {
    CanonicalPair(s, a, b);
    NestedListsExclude(a, b, r, m);
  }

  /** A value of the IN list is in the NOT IN list as well. */
  lemma NestedListsExclude(a: Constraint, b: Constraint, r: Record, m: Matcher)
    requires a.field == b.field && a.op == In && b.op == NotIn && Canonical({a, b})
    requires forall v :: v in a.values ==> ListsText(b, v.text)
    ensures !(Holds(a, r, m) && Holds(b, r, m))
  {
    if Holds(a, r, m) {
      var u :| u in a.values && u.number == Some(r[a.field]);
      TextsAreNumbers(a, b, u);
    }
  }

  lemma ClashIsJustified(kind: Kind, a: Constraint, b: Constraint, s: set<Constraint>, r: Record, m: Matcher)
    requires Clean(s) && a in s && b in s && a.field == b.field && Clashes(kind, a, b)
    ensures !(Holds(a, r, m) && Holds(b, r, m))
  {
    match kind
    case InOverlapsNotIn => OverlapIsJustified(a, b, s, r, m);
    case EqualInNotBetween => assert b.values[0] in b.values && b.values[1] in b.values;
    case EqualOutsideRange =>
    case ExistsAndNotExists =>
    case NotExistsButImplied =>
    case EqualMissesLike =>
    case PatternOutOfRange =>
    case _ =>
      CanonicalPair(s, a, b);
      EqualClashIsJustified(kind, a, b, r, m);
  }

  lemma RangeFindingIsJustified(cs: seq<Constraint>, field: string, r: Record, m: Matcher)
    requires (forall c :: c in cs ==> c.field == field) && RangeImpossible(cs)
    ensures !AllHold(cs, r, m)
  {
    var x := if field in r then r[field] else 0.0;
    assert !InAllRanges(cs, x);
    var c :| c in cs && !WithinRange(c, x);
    assert !Holds(c, r, m);
  }

  lemma DisjointIsJustified(cs: seq<Constraint>, field: string, r: Record, m: Matcher)
    requires (forall c :: c in cs ==> c.field == field) && DisjointRanges(cs)
    ensures !AllHold(cs, r, m)
  {
    var betweens := WithOp(cs, Between);
    assert betweens[0] in betweens;
    if field in r {
      assert !InAllBetweens(betweens, r[field]);
      var c :| c in betweens && IsNumericRange(c) && !Spans(c.values, r[field]);
      assert !Holds(c, r, m);
    } else {
      assert !Holds(betweens[0], r, m);
    }
  }

  lemma OutsideIsJustified(cs: seq<Constraint>, field: string, s: set<Constraint>, a: Constraint, r: Record, m: Matcher)
    requires Clean(s) && Drawn(cs, field, s) && a in cs && OutsideAll(a, WithOp(cs, Between))
    ensures !AllHold(cs, r, m)
  {
    var b := WithOp(cs, Between)[0];
    assert b in WithOp(cs, Between);
    assert Numeric(a) && Numeric(b);
    assert !(Holds(a, r, m) && Holds(b, r, m));
  }

  lemma ExcludedIsJustified(cs: seq<Constraint>, field: string, s: set<Constraint>, b: Constraint, r: Record,
                            m: Matcher)
    requires Clean(s) && Drawn(cs, field, s) && b in cs && ProbesExcluded(b, cs)
    ensures !AllHold(cs, r, m)
  {
    var lo, hi := b.values[0].number.value, b.values[1].number.value;
    var n :| n in cs && n.op == NotBetween && ValueSatisfiesBetween(Some(lo), n);
    var n' :| n' in cs && n'.op == NotBetween && ValueSatisfiesBetween(Some(hi), n');
    assert n == n' by { assert n in s && n' in s && n.field == n'.field; }
    CoveredByOne(b, n, r, m);
  }

  /** A NOT BETWEEN range that holds both ends of a BETWEEN range holds all of it. */
  lemma CoveredByOne(b: Constraint, n: Constraint, r: Record, m: Matcher)
    requires b.field == n.field && b.op == Between && n.op == NotBetween && IsNumericRange(b) && Numeric(n)
    requires ValueSatisfiesBetween(b.values[0].number, n) && ValueSatisfiesBetween(b.values[1].number, n)
    ensures !(Holds(b, r, m) && Holds(n, r, m))
  {
    assert n.values[0] in n.values && n.values[1] in n.values;
  }

  /** Whatever is found among clean constraints of one field, no record satisfies them all. */
  lemma FindingIsJustified(kind: Kind, cs: seq<Constraint>, field: string, s: set<Constraint>, r: Record, m: Matcher)
    requires Clean(s) && Drawn(cs, field, s) && Finding(kind, cs)
    ensures !AllHold(cs, r, m)
  {
    match kind
    case ContradictoryRanges => RangeFindingIsJustified(cs, field, r, m);
    case DisjointBetweens => DisjointIsJustified(cs, field, r, m);
    case EqualOutsideBetweens => SomeOutsideIsJustified(cs, field, s, r, m);
    case BetweenExcluded => SomeExcludedIsJustified(cs, field, s, r, m);
    case _ => SomeClashIsJustified(kind, cs, field, s, r, m);
  }

  lemma SomeOutsideIsJustified(cs: seq<Constraint>, field: string, s: set<Constraint>, r: Record, m: Matcher)
    requires Clean(s) && Drawn(cs, field, s) && Finding(EqualOutsideBetweens, cs)
    ensures !AllHold(cs, r, m)
  {
    var a :| a in cs && OutsideAll(a, WithOp(cs, Between));
    OutsideIsJustified(cs, field, s, a, r, m);
  }

  lemma SomeExcludedIsJustified(cs: seq<Constraint>, field: string, s: set<Constraint>, r: Record, m: Matcher)
    requires Clean(s) && Drawn(cs, field, s) && Finding(BetweenExcluded, cs)
    ensures !AllHold(cs, r, m)
  {
    var b :| b in cs && ProbesExcluded(b, cs);
    ExcludedIsJustified(cs, field, s, b, r, m);
  }

  lemma SomeClashIsJustified(kind: Kind, cs: seq<Constraint>, field: string, s: set<Constraint>, r: Record, m: Matcher)
    requires Clean(s) && Drawn(cs, field, s) && IsPairKind(kind) && SomePairClashes(kind, cs)
    ensures !AllHold(cs, r, m)
  {
    var a, b :| a in cs && b in cs && Clashes(kind, a, b);
    ClashIsJustified(kind, a, b, s, r, m);
  }

  // ---- Exactly when the overlap finding is wrong ----

  /** An IN and a NOT IN list on one field still allow some value exactly when the IN list is not contained in
      the NOT IN list, while the detector reports any overlap. So the report is wrong exactly when the lists
      overlap without the first lying inside the second. */
  lemma OverlapReportExactly(a: Constraint, b: Constraint)
    requires a.field == b.field && a.op == In && b.op == NotIn && Numeric(a) && Canonical({a, b})
    ensures Clashes(InOverlapsNotIn, a, b) <==> Overlap(a, b)
    ensures (exists r: Record, m: Matcher :: Holds(a, r, m) && Holds(b, r, m)) <==>
            exists v :: v in a.values && !ListsText(b, v.text)
  {
    if r: Record, m: Matcher :| Holds(a, r, m) && Holds(b, r, m) {
      var v :| v in a.values && v.number == Some(r[a.field]);
      TextsAreNumbers(a, b, v);
    }
    if v :| v in a.values && !ListsText(b, v.text) {
      AllowedValue(a, b, v);
    }
  }

  lemma AllowedValue(a: Constraint, b: Constraint, v: Literal)
    requires a.field == b.field && a.op == In && b.op == NotIn && Numeric(a) && Canonical({a, b})
    requires v in a.values && !ListsText(b, v.text)
    ensures exists r: Record, m: Matcher :: Holds(a, r, m) && Holds(b, r, m)
  {
    var r: Record := map[a.field := v.number.value];
    var m: Matcher := (op, values, x) => false;
    TextsAreNumbers(a, b, v);
    assert Holds(a, r, m) && Holds(b, r, m);
  }
}
