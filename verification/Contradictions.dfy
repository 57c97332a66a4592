/** The never-true detector: a walk over a filter that collects constraints and reports contradictions. */
module Contradictions {
  import opened Constraints
  import opened Findings

  /** A comparison as written; `listForm` is false for the `key IN value` form without brackets. */
  datatype Comparison = Comparison(field: string, op: Operator, values: seq<Literal>, listForm: bool)

  /** `Other` stands for a function call or a full-text term, which the detector does not look into. */
  datatype Filter =
    | Or(branches: seq<Filter>)
    | And(parts: seq<Filter>)
    | Not(inner: Filter)
    | Compare(cmp: Comparison)
    | Other(id: nat)

  datatype Report = Report(field: string, kind: Kind)

  type Collected = map<string, seq<Constraint>>

  // ---- What the walk computes ----

  /** The IN forms without a list yield no values. */
  function ExtractedValues(c: Comparison): seq<Literal> {
    if c.op in {In, NotIn} && !c.listForm then [] else c.values
  }

  function Extract(c: Comparison, negated: bool): Constraint {
    Constraint(c.field, if negated then NegateOperator(c.op) else c.op, ExtractedValues(c))
  }

  /** Positive operators imply that the field exists. */
  function WithImplied(c: Constraint): seq<Constraint> {
    if ImpliesExistence(c.op) then [Constraint(c.field, Exists, []), c] else [c]
  }

  function Bucket(m: Collected, field: string): seq<Constraint> {
    if field in m then m[field] else []
  }

  function AddConstraint(m: Collected, c: Constraint): Collected {
    m[c.field := Bucket(m, c.field) + WithImplied(c)]
  }

  /** EXISTS, IN and BETWEEN return before the check that other comparisons end with. */
  predicate ChecksAtOnce(op: Operator) {
    op !in {Exists, NotExists, In, NotIn, Between, NotBetween}
  }

  ghost predicate Reported(m: Collected, rep: Report) {
    rep.field in m && |m[rep.field]| >= 2 && Finding(rep.kind, m[rep.field])
  }

  datatype Scan = Scan(constraints: Collected, reports: iset<Report>)

  ghost function Check(s: Scan): Scan {
    s.(reports := s.reports + iset rep | Reported(s.constraints, rep))
  }

  ghost function Visit(f: Filter, negated: bool, s: Scan): Scan
    decreases f, 1
  {
    match f
    case Or(branches) =>
      if |branches| == 1 then Visit(branches[0], negated, s) else VisitBranches(branches, negated, s)
    case And(parts) => VisitParts(parts, negated, s)
    case Not(inner) => Visit(inner, !negated, s)
    case Compare(c) =>
      var s' := s.(constraints := AddConstraint(s.constraints, Extract(c, negated)));
      if ChecksAtOnce(c.op) then Check(s') else s'
    case Other(_) => s
  }

  /** Each branch starts from the constraints that hold before the OR, which are restored at its end. */
  ghost function VisitBranches(branches: seq<Filter>, negated: bool, s: Scan): Scan
    decreases branches, 0
  {
    if branches == [] then s
    else VisitBranches(branches[1..], negated, s.(reports := Visit(branches[0], negated, s).reports))
  }

  ghost function VisitParts(parts: seq<Filter>, negated: bool, s: Scan): Scan
    decreases parts, 0
  {
    if parts == [] then s else VisitParts(parts[1..], negated, Visit(parts[0], negated, s))
  }

  ghost function Detect(f: Filter): iset<Report> {
    Check(Visit(f, false, Scan(map[], iset{}))).reports
  }

  // ---- The detector ----

  class LogicalContradictionDetector {
    var constraintStack: seq<Collected>
    var contradictions: set<Report>
    var notContextStack: seq<bool>

    constructor ()
      ensures constraintStack == [map[]] && contradictions == {} && notContextStack == [false]
    {
      constraintStack, contradictions, notContextStack := [map[]], {}, [false];
    }

    ghost predicate Ready()
      reads this
    {
      |constraintStack| > 0 && |notContextStack| > 0
    }

    ghost function Current(): Scan
      requires Ready()
      reads this
    {
      Scan(CurrentConstraints(), AsIset(contradictions))
    }

    function CurrentConstraints(): Collected
      requires |constraintStack| > 0
      reads this
    {
      constraintStack[|constraintStack| - 1]
    }

    predicate InNotContext()
      requires |notContextStack| > 0
      reads this
    {
      notContextStack[|notContextStack| - 1]
    }

    method SetCurrent(m: Collected)
      requires Ready()
      modifies this`constraintStack
      ensures Ready() && constraintStack == old(constraintStack)[..|old(constraintStack)| - 1] + [m]
    {
      constraintStack := constraintStack[..|constraintStack| - 1] + [m];
    }

    method PushNotContext(value: bool)
      modifies this`notContextStack
      ensures notContextStack == old(notContextStack) + [value]
    {
      notContextStack := notContextStack + [value];
    }

    method PopNotContext()
      modifies this`notContextStack
      ensures |old(notContextStack)| > 1 ==> notContextStack == old(notContextStack)[..|old(notContextStack)| - 1]
      ensures |old(notContextStack)| <= 1 ==> notContextStack == old(notContextStack)
    {
      if |notContextStack| > 1 {
        notContextStack := notContextStack[..|notContextStack| - 1];
      }
    }

    method CheckContradictions()
      requires Ready()
      modifies this`contradictions
      ensures Current() == Check(old(Current()))
    {
      var m := CurrentConstraints();
      var pending := m.Keys;
      while pending != {}
        invariant pending <= m.Keys && Ready()
        invariant forall rep :: rep in contradictions <==>
                    rep in old(contradictions) || (rep.field !in pending && Reported(m, rep))
        decreases |pending|
      {
        var field :| field in pending;
        if |m[field]| >= 2 {
          var checked := FindContradictionsInConstraints(m[field]);
          var found := set k | k in checked.kinds :: Report(field, k);
          assert forall rep: Report :: rep in found <==> rep.field == field && rep.kind in checked.kinds by {
            assert forall rep: Report :: rep == Report(rep.field, rep.kind);
          }
          contradictions := contradictions + found;
        }
        pending := pending - {field};
      }
    }

    method VisitComparison(c: Comparison)
      requires Ready()
      modifies this
      ensures Ready() && notContextStack == old(notContextStack)
      ensures constraintStack[..|constraintStack| - 1] == old(constraintStack[..|constraintStack| - 1])
      ensures Current() == Visit(Compare(c), old(InNotContext()), old(Current()))
    {
      SetCurrent(AddConstraint(CurrentConstraints(), Extract(c, InNotContext())));
      if ChecksAtOnce(c.op) {
        CheckContradictions();
      }
    }

    /** The walk leaves both stacks as they were, up to the collected constraints on top. */
    method VisitFilter(f: Filter)
      requires Ready()
      modifies this
      ensures Ready() && notContextStack == old(notContextStack)
      ensures constraintStack[..|constraintStack| - 1] == old(constraintStack[..|constraintStack| - 1])
      ensures Current() == Visit(f, old(InNotContext()), old(Current()))
      decreases f, 1
    {
      match f
      case Or(branches) =>
        if |branches| == 1 {
          VisitFilter(branches[0]);
        } else {
          VisitOrExpression(branches);
        }
      case And(parts) => VisitAndExpression(parts);
      case Not(inner) =>
        PushNotContext(!InNotContext());
        VisitFilter(inner);
        PopNotContext();
      case Compare(c) => VisitComparison(c);
      case Other(_) =>
    }

    method VisitOrExpression(branches: seq<Filter>)
      requires Ready()
      modifies this
      ensures Ready() && notContextStack == old(notContextStack)
      ensures constraintStack[..|constraintStack| - 1] == old(constraintStack[..|constraintStack| - 1])
      ensures Current() == VisitBranches(branches, old(InNotContext()), old(Current()))
      decreases branches, 0
    {
      var i := 0;
      while i < |branches|
        invariant 0 <= i <= |branches|
        invariant Ready() && notContextStack == old(notContextStack)
        invariant constraintStack[..|constraintStack| - 1] == old(constraintStack[..|constraintStack| - 1])
        invariant VisitBranches(branches[i..], InNotContext(), Current()) ==
                  VisitBranches(branches, old(InNotContext()), old(Current()))
      {
        var savedConstraints := CurrentConstraints();
        VisitFilter(branches[i]);
        SetCurrent(savedConstraints);
        assert branches[i..][1..] == branches[i + 1..];
        i := i + 1;
      }
    }

    method VisitAndExpression(parts: seq<Filter>)
      requires Ready()
      modifies this
      ensures Ready() && notContextStack == old(notContextStack)
      ensures constraintStack[..|constraintStack| - 1] == old(constraintStack[..|constraintStack| - 1])
      ensures Current() == VisitParts(parts, old(InNotContext()), old(Current()))
      decreases parts, 0
    {
      var i := 0;
      while i < |parts|
        invariant 0 <= i <= |parts|
        invariant Ready() && notContextStack == old(notContextStack)
        invariant constraintStack[..|constraintStack| - 1] == old(constraintStack[..|constraintStack| - 1])
        invariant VisitParts(parts[i..], InNotContext(), Current()) ==
                  VisitParts(parts, old(InNotContext()), old(Current()))
      {
        VisitFilter(parts[i]);
        assert parts[i..][1..] == parts[i + 1..];
        i := i + 1;
      }
    }
  }

  ghost function AsIset(s: set<Report>): iset<Report> {
    iset rep | rep in s
  }

  /** The detection either panics or returns its reports. */
  datatype Outcome = Panicked | Reports(reports: set<Report>)

  /** Some check of the walk asks the matcher about a lone `%`. What the walk would do after it does not show. */
  ghost predicate Panics(f: Filter) {
    exists field :: Report(field, PatternOutOfRange) in Detect(f)
  }

  method DetectContradictions(f: Filter) returns (outcome: Outcome)
    ensures outcome.Panicked? <==> Panics(f)
    ensures outcome.Reports? ==> forall rep :: rep in outcome.reports <==> rep in Detect(f)
  {
    var detector := new LogicalContradictionDetector();
    assert AsIset({}) == iset{};
    detector.VisitFilter(f);
    detector.CheckContradictions();
    var found := detector.contradictions;
    assert AsIset(found) == Detect(f);
    outcome := if exists rep :: rep in found && rep.kind == PatternOutOfRange then Outcome.Panicked
      else Reports(found);
    assert forall rep: Report :: rep in found <==> rep in Detect(f);
    assert forall rep: Report :: rep.kind == PatternOutOfRange ==> rep == Report(rep.field, PatternOutOfRange);
  }
}
