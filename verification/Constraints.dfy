/** Filter comparisons as constraints on one field, their meaning on records, and the detector's checks. */
module Constraints {
  import opened Wrappers

  datatype Operator =
    | Equal | NotEqual | LessThan | LessThanOrEq | GreaterThan | GreaterThanOrEq
    | In | NotIn | Exists | NotExists | Between | NotBetween
    | Regexp | NotRegexp | Contains | NotContains | Like | NotLike | ILike | NotILike

  /** A literal: its text, and the number that parsing the text gives, if any. */
  datatype Literal = Literal(text: string, number: Option<real>)

  datatype Constraint = Constraint(field: string, op: Operator, values: seq<Literal>)

  function NegateOperator(op: Operator): Operator {
    match op
    case Equal => NotEqual
    case NotEqual => Equal
    case LessThan => GreaterThanOrEq
    case LessThanOrEq => GreaterThan
    case GreaterThan => LessThanOrEq
    case GreaterThanOrEq => LessThan
    case In => NotIn
    case NotIn => In
    case Exists => NotExists
    case NotExists => Exists
    case Between => NotBetween
    case NotBetween => Between
    case Regexp => NotRegexp
    case NotRegexp => Regexp
    case Contains => NotContains
    case NotContains => Contains
    case Like => NotLike
    case NotLike => Like
    case ILike => NotILike
    case NotILike => ILike
  }

  predicate IsRangeOperator(op: Operator) {
    op in {LessThan, LessThanOrEq, GreaterThan, GreaterThanOrEq}
  }

  predicate IsNegativeOperator(op: Operator) {
    op in {NotEqual, NotIn, NotExists, NotBetween, NotRegexp, NotContains, NotLike, NotILike}
  }

  predicate AddDefaultExistsFilter(op: Operator) {
    op in {Equal, GreaterThan, GreaterThanOrEq, LessThan, LessThanOrEq, Between, In, Regexp, Contains,
           Like, ILike}
  }

  predicate ImpliesExistence(op: Operator) {
    AddDefaultExistsFilter(op) && !IsNegativeOperator(op)
  }

  // ---- Meaning ----

  type Record = map<string, real>

  /** Decides the pattern operators, whose matching is not modelled. */
  type Matcher = (Operator, seq<Literal>, real) -> bool

  predicate Compares(op: Operator, x: real, bound: real)
    requires IsRangeOperator(op)
  {
    match op
    case LessThan => x < bound
    case LessThanOrEq => x <= bound
    case GreaterThan => x > bound
    case GreaterThanOrEq => x >= bound
  }

  ghost predicate Lists(values: seq<Literal>, x: real) {
    exists v :: v in values && v.number == Some(x)
  }

  ghost predicate Spans(values: seq<Literal>, x: real) {
    && |values| == 2 && values[0].number.Some? && values[1].number.Some?
    && values[0].number.value <= x <= values[1].number.value
  }

  /** Whether a present value satisfies an operator. */
  ghost predicate Satisfies(op: Operator, values: seq<Literal>, x: real, m: Matcher) {
    match op
    case Equal => |values| > 0 && values[0].number == Some(x)
    case NotEqual => !(|values| > 0 && values[0].number == Some(x))
    case In => Lists(values, x)
    case NotIn => !Lists(values, x)
    case Between => Spans(values, x)
    case NotBetween => !Spans(values, x)
    case Exists => true
    case NotExists => false
    case Regexp => m(Regexp, values, x)
    case NotRegexp => !m(Regexp, values, x)
    case Contains => m(Contains, values, x)
    case NotContains => !m(Contains, values, x)
    case Like => m(Like, values, x)
    case NotLike => !m(Like, values, x)
    case ILike => m(ILike, values, x)
    case NotILike => !m(ILike, values, x)
    case _ => |values| > 0 && values[0].number.Some? && Compares(op, x, values[0].number.value)
  }

  /** A missing field satisfies the negative operators and no other. */
  ghost predicate Holds(c: Constraint, r: Record, m: Matcher) {
    if c.field in r then Satisfies(c.op, c.values, r[c.field], m) else IsNegativeOperator(c.op)
  }

  ghost predicate AllHold(cs: seq<Constraint>, r: Record, m: Matcher) {
    forall c :: c in cs ==> Holds(c, r, m)
  }

  /** Negation is an involution, and on present values it is the complement. On a missing field it is the
      complement for every operator but the range comparisons, all of which a missing field fails. */
  lemma NegateComplements(c: Constraint, r: Record, m: Matcher)
    requires IsRangeOperator(c.op) ==> |c.values| > 0 && c.values[0].number.Some?
    ensures NegateOperator(NegateOperator(c.op)) == c.op
    ensures c.field in r || !IsRangeOperator(c.op) ==>
              (Holds(c.(op := NegateOperator(c.op)), r, m) <==> !Holds(c, r, m))
    ensures c.field !in r && IsRangeOperator(c.op) ==>
              !Holds(c.(op := NegateOperator(c.op)), r, m) && !Holds(c, r, m)
  {
  }

  // ---- Range checks over a dense order ----

  ghost predicate WithinRange(c: Constraint, x: real) {
    IsRangeOperator(c.op) && |c.values| > 0 && c.values[0].number.Some? ==>
      Compares(c.op, x, c.values[0].number.value)
  }

  ghost predicate InAllRanges(cs: seq<Constraint>, x: real) {
    forall c :: c in cs ==> WithinRange(c, x)
  }

  /** No number satisfies all the numeric range constraints of the list. */
  ghost predicate RangeImpossible(cs: seq<Constraint>) {
    forall x: real :: !InAllRanges(cs, x)
  }

  datatype Bound = Bound(value: real, inclusive: bool)

  predicate Above(b: Bound, x: real) {
    if b.inclusive then x >= b.value else x > b.value
  }

  predicate Below(b: Bound, x: real) {
    if b.inclusive then x <= b.value else x < b.value
  }

  ghost predicate WithinBounds(lower: seq<Bound>, upper: seq<Bound>, x: real) {
    (forall b :: b in lower ==> Above(b, x)) && (forall b :: b in upper ==> Below(b, x))
  }

  method CheckRangeContradictions(constraints: seq<Constraint>) returns (impossible: bool)
    ensures impossible <==> RangeImpossible(constraints)
  {
    var lowerBounds, upperBounds := CollectBounds(constraints);
    var effectiveLower: Option<Bound> := TightestLower(lowerBounds);
    var effectiveUpper: Option<Bound> := TightestUpper(upperBounds);
    impossible := false;
    if effectiveLower.Some? && effectiveUpper.Some? {
      var lower, upper := effectiveLower.value, effectiveUpper.value;
      impossible := lower.value > upper.value || (lower.value == upper.value && !(lower.inclusive && upper.inclusive));
    }
    ghost var x := Witness(effectiveLower, effectiveUpper);
    if !impossible {
      assert WithinBounds(lowerBounds, upperBounds, x);
      assert InAllRanges(constraints, x);
    } else {
      forall y: real ensures !InAllRanges(constraints, y) {
        assert !(Above(effectiveLower.value, y) && Below(effectiveUpper.value, y));
        assert !WithinBounds(lowerBounds, upperBounds, y);
      }
    }
  }

  ghost function Witness(lower: Option<Bound>, upper: Option<Bound>): real {
    if lower.None? && upper.None? then 0.0
    else if upper.None? then lower.value.value + 1.0
    else if lower.None? then upper.value.value - 1.0
    else (lower.value.value + upper.value.value) / 2.0
  }

  method CollectBounds(constraints: seq<Constraint>) returns (lower: seq<Bound>, upper: seq<Bound>)
    ensures forall x: real :: InAllRanges(constraints, x) <==> WithinBounds(lower, upper, x)
  {
    lower, upper := [], [];
    for i := 0 to |constraints|
      invariant forall x: real :: InAllRanges(constraints[..i], x) <==> WithinBounds(lower, upper, x)
    {
      var c := constraints[i];
      ghost var lower0, upper0 := lower, upper;
      if |c.values| > 0 && c.values[0].number.Some? {
        var val := c.values[0].number.value;
        match c.op
        case GreaterThan => lower := lower + [Bound(val, false)];
        case GreaterThanOrEq => lower := lower + [Bound(val, true)];
        case LessThan => upper := upper + [Bound(val, false)];
        case LessThanOrEq => upper := upper + [Bound(val, true)];
        case _ =>
      }
      forall x: real ensures InAllRanges(constraints[..i + 1], x) <==> WithinBounds(lower, upper, x) {
        RangesGrow(constraints, i, x);
        BoundsGrow(lower0, upper0, lower, upper, x);
        assert InAllRanges(constraints[..i], x) <==> WithinBounds(lower0, upper0, x);
      }
    }
    assert constraints[..|constraints|] == constraints;
  }

  lemma RangesGrow(cs: seq<Constraint>, i: nat, x: real)
    requires i < |cs|
    ensures InAllRanges(cs[..i + 1], x) <==> InAllRanges(cs[..i], x) && WithinRange(cs[i], x)
  {
    assert cs[..i + 1] == cs[..i] + [cs[i]];
  }

  lemma BoundsGrow(lower0: seq<Bound>, upper0: seq<Bound>, lower: seq<Bound>, upper: seq<Bound>, x: real)
    requires lower0 <= lower && |lower| <= |lower0| + 1 && upper0 <= upper && |upper| <= |upper0| + 1
    ensures WithinBounds(lower, upper, x) <==>
            && WithinBounds(lower0, upper0, x)
            && (|lower| > |lower0| ==> Above(lower[|lower0|], x))
            && (|upper| > |upper0| ==> Below(upper[|upper0|], x))
  {
    assert lower == lower0 + lower[|lower0|..];
    assert upper == upper0 + upper[|upper0|..];
  }

  method TightestLower(bounds: seq<Bound>) returns (tightest: Option<Bound>)
    ensures tightest.None? <==> bounds == []
    ensures tightest.Some? ==> tightest.value in bounds
    ensures forall b, x: real :: b in bounds && Above(tightest.value, x) ==> Above(b, x)
  {
    tightest := None;
    for i := 0 to |bounds|
      invariant tightest.None? <==> i == 0
      invariant tightest.Some? ==> tightest.value in bounds
      invariant forall b, x: real :: b in bounds[..i] && Above(tightest.value, x) ==> Above(b, x)
    {
      var b := bounds[i];
      if tightest.None? || b.value > tightest.value.value ||
         (b.value == tightest.value.value && !b.inclusive && tightest.value.inclusive) {
        tightest := Some(b);
      }
    }
  }

  method TightestUpper(bounds: seq<Bound>) returns (tightest: Option<Bound>)
    ensures tightest.None? <==> bounds == []
    ensures tightest.Some? ==> tightest.value in bounds
    ensures forall b, x: real :: b in bounds && Below(tightest.value, x) ==> Below(b, x)
  {
    tightest := None;
    for i := 0 to |bounds|
      invariant tightest.None? <==> i == 0
      invariant tightest.Some? ==> tightest.value in bounds
      invariant forall b, x: real :: b in bounds[..i] && Below(tightest.value, x) ==> Below(b, x)
    {
      var b := bounds[i];
      if tightest.None? || b.value < tightest.value.value ||
         (b.value == tightest.value.value && !b.inclusive && tightest.value.inclusive) {
        tightest := Some(b);
      }
    }
  }

  /** The numeric BETWEEN constraints of the list admit x. */
  ghost predicate InAllBetweens(cs: seq<Constraint>, x: real) {
    forall c :: c in cs && c.op == Between && IsNumericRange(c) ==> Spans(c.values, x)
  }

  predicate IsNumericRange(c: Constraint) {
    |c.values| == 2 && c.values[0].number.Some? && c.values[1].number.Some?
  }

  method HasCommonIntersection(betweens: seq<Constraint>) returns (common: bool)
    requires forall c :: c in betweens ==> c.op == Between
    ensures common <==> exists x: real :: InAllBetweens(betweens, x)
  {
    var min, max := 0.0, 0.0;
    var initialized := false;
    for i := 0 to |betweens|
      invariant forall x: real :: InAllBetweens(betweens[..i], x) <==> (initialized ==> min <= x <= max)
    {
      var b := betweens[i];
      ghost var min0, max0, initialized0 := min, max, initialized;
      if IsNumericRange(b) {
        var lo, hi := b.values[0].number.value, b.values[1].number.value;
        if !initialized {
          min, max, initialized := lo, hi, true;
        } else {
          if lo > min {
            min := lo;
          }
          if hi < max {
            max := hi;
          }
        }
      }
      ghost var seen := betweens[..i + 1];
      forall x: real ensures InAllBetweens(seen, x) <==> (initialized ==> min <= x <= max) {
        BetweensGrow(betweens, i, x);
        assert InAllBetweens(betweens[..i], x) <==> (initialized0 ==> min0 <= x <= max0);
      }
    }
    assert betweens[..|betweens|] == betweens;
    common := !initialized || min <= max;
    if common {
      assert InAllBetweens(betweens, min);
    }
  }

  lemma BetweensGrow(cs: seq<Constraint>, i: nat, x: real)
    requires i < |cs| && cs[i].op == Between
    ensures InAllBetweens(cs[..i + 1], x) <==>
            InAllBetweens(cs[..i], x) && (IsNumericRange(cs[i]) ==> Spans(cs[i].values, x))
  {
    assert cs[..i + 1] == cs[..i] + [cs[i]];
  }
}
