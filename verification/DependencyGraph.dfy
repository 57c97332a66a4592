/** Declared dependencies, their validation, and the acyclicity check that a registry passes. */
module DependencyGraph {
  type Name = string

  datatype Declared = Declared(name: Name, dependsOn: seq<Name>)

  datatype RegistryError = NoServices | DuplicateName(name: Name) | CyclicDependencies

  datatype Built = Accepted(graph: map<Name, seq<Name>>) | Rejected(error: RegistryError)

  type Graph = map<Name, seq<Name>>

  /** Every edge leads to a node. */
  ghost predicate Closed(g: Graph) {
    forall n, d :: n in g && d in g[n] ==> d in g
  }

  /** Position i of the walk steps to a service that the one there depends on. */
  ghost predicate StepAt(g: Graph, w: seq<Name>, i: int)
    requires 0 <= i < |w| - 1
  {
    w[i] in g && w[i + 1] in g[w[i]]
  }

  ghost predicate Walk(g: Graph, w: seq<Name>) {
    && |w| > 0
    && (forall i :: 0 <= i < |w| ==> w[i] in g)
    && (forall i :: 0 <= i < |w| - 1 ==> StepAt(g, w, i))
  }

  ghost predicate IsCycle(g: Graph, w: seq<Name>) {
    Walk(g, w) && |w| > 1 && w[0] == w[|w| - 1]
  }

  ghost predicate Acyclic(g: Graph) {
    forall w :: !IsCycle(g, w)
  }

  /** A rank that falls along every edge. */
  ghost predicate Ranks(g: Graph, rank: map<Name, nat>) {
    && g.Keys <= rank.Keys
    && forall n, d :: n in g && d in g[n] && d in rank ==> rank[d] < rank[n]
  }

  // ---- A rank excludes cycles ----

  lemma {:induction false} RankFallsAlongWalk(g: Graph, rank: map<Name, nat>, w: seq<Name>)
    requires Ranks(g, rank) && Walk(g, w)
    ensures |w| > 1 ==> rank[w[|w| - 1]] < rank[w[0]]
    decreases |w|
  {
    if |w| > 1 {
      var tail := w[1..];
      assert StepAt(g, w, 0);
      WalkTail(g, w);
      RankFallsAlongWalk(g, rank, tail);
    }
  }

  lemma WalkTail(g: Graph, w: seq<Name>)
    requires Walk(g, w) && |w| > 1
    ensures Walk(g, w[1..])
  {
    forall i | 0 <= i < |w[1..]| - 1 ensures StepAt(g, w[1..], i) {
      assert StepAt(g, w, i + 1);
    }
  }

  lemma WalkGrows(g: Graph, n: Name, w: seq<Name>)
    requires Walk(g, w) && n in g && w[0] in g[n]
    ensures Walk(g, [n] + w)
  {
    var v := [n] + w;
    forall i | 0 <= i < |v| - 1 ensures StepAt(g, v, i) {
      if i > 0 {
        assert StepAt(g, w, i - 1);
      }
    }
  }

  lemma RankedIsAcyclic(g: Graph, rank: map<Name, nat>)
    requires Ranks(g, rank)
    ensures Acyclic(g)
  {
    forall w ensures !IsCycle(g, w) {
      if Walk(g, w) {
        RankFallsAlongWalk(g, rank, w);
      }
    }
  }

  // ---- A set of nodes that all depend on each other contains a cycle ----

  ghost predicate DependsInside(g: Graph, R: set<Name>, n: Name) {
    n in R ==> n in g && exists d :: d in g[n] && d in R
  }

  ghost predicate AllDependInside(g: Graph, R: set<Name>) {
    forall n :: DependsInside(g, R, n)
  }

  lemma {:induction false} LongWalk(g: Graph, R: set<Name>, start: Name, k: nat) returns (w: seq<Name>)
    requires AllDependInside(g, R) && start in R
    ensures Walk(g, w) && |w| == k + 1 && w[0] == start
    ensures forall i :: 0 <= i < |w| ==> w[i] in R
    decreases k
  {
    assert DependsInside(g, R, start);
    if k == 0 {
      w := [start];
    } else {
      assert DependsInside(g, R, start);
      var d :| d in g[start] && d in R;
      var tail := LongWalk(g, R, d, k - 1);
      WalkGrows(g, start, tail);
      w := [start] + tail;
    }
  }

  /** More places than elements: two places hold the same element. */
  lemma {:induction false} Pigeonhole(w: seq<Name>, R: set<Name>) returns (i: nat, j: nat)
    requires (forall k :: 0 <= k < |w| ==> w[k] in R) && |w| > |R|
    ensures i < j < |w| && w[i] == w[j]
    decreases |w|
  {
    var last := w[|w| - 1];
    var front := w[..|w| - 1];
    if k :| 0 <= k < |front| && front[k] == last {
      i, j := k, |w| - 1;
    } else {
      i, j := Pigeonhole(front, R - {last});
    }
  }

  lemma WalkSlice(g: Graph, w: seq<Name>, i: nat, j: nat)
    requires Walk(g, w) && i < j < |w|
    ensures Walk(g, w[i..j + 1])
  {
    var c := w[i..j + 1];
    forall k | 0 <= k < |c| - 1 ensures StepAt(g, c, k) {
      assert StepAt(g, w, i + k);
    }
  }

  lemma StuckHasCycle(g: Graph, R: set<Name>)
    requires AllDependInside(g, R) && R != {}
    ensures !Acyclic(g)
  {
    var start :| start in R;
    var w := LongWalk(g, R, start, |R|);
    var i, j := Pigeonhole(w, R);
    WalkSlice(g, w, i, j);
    assert IsCycle(g, w[i..j + 1]);
  }

  // ---- The check ----

  /** The nodes removed so far are ranked, each above its dependencies. */
  ghost predicate RankedOutside(g: Graph, remaining: set<Name>, rank: map<Name, nat>) {
    && rank.Keys == g.Keys - remaining
    && (forall n :: n in rank ==> rank[n] < |rank|)
    && (forall n, d :: n in rank && d in g[n] ==> d in rank && rank[d] < rank[n])
  }

  lemma RankNext(g: Graph, remaining: set<Name>, rank: map<Name, nat>, n: Name)
    requires Closed(g) && remaining <= g.Keys && RankedOutside(g, remaining, rank)
    requires n in remaining && forall d :: d in g[n] ==> d !in remaining
    ensures RankedOutside(g, remaining - {n}, rank[n := |rank|])
  {
    var r := rank[n := |rank|];
    UpdateGrows(rank, n, |rank|);
    OneRemoved(g.Keys, remaining, n);
    forall m | m in r ensures r[m] < |r| {
      assert m != n ==> m in rank;
    }
    forall m, d | m in r && d in g[m] ensures d in r && r[d] < r[m] {
      DependencyIsRanked(g, remaining, rank, n, m, d);
    }
  }

  lemma OneRemoved(all: set<Name>, remaining: set<Name>, n: Name)
    requires n in remaining && remaining <= all
    ensures all - (remaining - {n}) == (all - remaining) + {n}
  {
  }

  lemma DependencyIsRanked(g: Graph, remaining: set<Name>, rank: map<Name, nat>, n: Name, m: Name, d: Name)
    requires Closed(g) && RankedOutside(g, remaining, rank)
    requires n in remaining && n in g && forall d :: d in g[n] ==> d !in remaining
    requires (m in rank || m == n) && m in g && d in g[m]
    ensures d in rank && d != n && rank[d] < if m == n then |rank| else rank[m]
  {
  }

  lemma UpdateGrows(rank: map<Name, nat>, n: Name, k: nat)
    requires n !in rank
    ensures rank[n := k].Keys == rank.Keys + {n} && |rank[n := k]| == |rank| + 1
  {
    var r := rank[n := k];
    assert r.Keys == rank.Keys + {n};
    assert |r.Keys| == |r| && |rank.Keys| == |rank|;
  }

  /** Whether a topological order exists; on acceptance, the rank it gives. */
  method TopologicallySortable(g: Graph) returns (ok: bool, ghost rank: map<Name, nat>)
    requires Closed(g)
    ensures ok <==> Acyclic(g)
    ensures ok ==> Ranks(g, rank)
  {
    var remaining := g.Keys;
    rank := map[];
    while remaining != {}
      invariant remaining <= g.Keys && RankedOutside(g, remaining, rank)
      decreases |remaining|
    {
      if n :| n in remaining && forall d :: d in g[n] ==> d !in remaining {
        RankNext(g, remaining, rank, n);
        rank := rank[n := |rank|];
        remaining := remaining - {n};
      } else {
        assert AllDependInside(g, remaining);
        StuckHasCycle(g, remaining);
        return false, rank;
      }
    }
    RankedIsAcyclic(g, rank);
    ok := true;
  }

  // ---- Building a registry ----

  ghost predicate KnownName(services: seq<Declared>, n: Name) {
    exists i :: 0 <= i < |services| && services[i].name == n
  }

  /** The declared dependencies on other known services, in order. */
  function ValidDeps(self: Name, known: set<Name>, declared: seq<Name>): (deps: seq<Name>)
    ensures forall d :: d in deps <==> d in declared && d in known && d != self
  {
    if declared == [] then []
    else if declared[0] != self && declared[0] in known then [declared[0]] + ValidDeps(self, known, declared[1..])
    else ValidDeps(self, known, declared[1..])
  }

  ghost predicate DistinctNames(services: seq<Declared>) {
    forall i, j :: 0 <= i < j < |services| ==> services[i].name != services[j].name
  }

  /** The graph has one node a service, with its valid dependencies. */
  ghost predicate GraphOf(services: seq<Declared>, g: Graph) {
    && (forall n :: n in g <==> KnownName(services, n))
    && forall i :: 0 <= i < |services| ==>
         services[i].name in g && g[services[i].name] == ValidDeps(services[i].name, g.Keys, services[i].dependsOn)
  }

  /** Unknown and self dependencies are dropped, and exactly the acyclic graphs are accepted. */
  method NewRegistry(services: seq<Declared>) returns (built: Built, ghost rank: map<Name, nat>)
    ensures built == Rejected(NoServices) <==> services == []
    ensures built.Rejected? && built.error.DuplicateName? ==> !DistinctNames(services)
    ensures built.Accepted? ==> DistinctNames(services) && GraphOf(services, built.graph) && Closed(built.graph)
    ensures built.Accepted? ==> Acyclic(built.graph) && Ranks(built.graph, rank)
    ensures built == Rejected(CyclicDependencies) ==>
              DistinctNames(services) && exists g :: GraphOf(services, g) && !Acyclic(g)
  {
    rank := map[];
    if |services| == 0 {
      return Rejected(NoServices), rank;
    }
    var names: set<Name> := {};
    for i := 0 to |services|
      invariant forall n :: n in names <==> KnownName(services[..i], n)
      invariant forall k, l :: 0 <= k < l < i ==> services[k].name != services[l].name
    {
      if services[i].name in names {
        var k :| 0 <= k < i && services[..i][k].name == services[i].name;
        assert services[k].name == services[i].name;
        return Rejected(DuplicateName(services[i].name)), rank;
      }
      forall n ensures n in names + {services[i].name} <==> KnownName(services[..i + 1], n) {
        KnownNameGrows(services, i, n);
      }
      forall k | 0 <= k < i ensures services[k].name != services[i].name {
        assert services[..i][k].name == services[k].name;
      }
      names := names + {services[i].name};
    }
    assert services[..|services|] == services;
    var g := LinkServices(services, names);
    var ok;
    ok, rank := TopologicallySortable(g);
    built := if ok then Accepted(g) else Rejected(CyclicDependencies);
  }

  lemma KnownNameGrows(services: seq<Declared>, i: nat, n: Name)
    requires i < |services|
    ensures KnownName(services[..i + 1], n) <==> KnownName(services[..i], n) || n == services[i].name
  {
    var before, after := services[..i], services[..i + 1];
    if k :| 0 <= k < |before| && before[k].name == n {
      assert after[k].name == n;
    }
    if n == services[i].name {
      assert after[i].name == n;
    }
    if k :| 0 <= k < |after| && after[k].name == n {
      if k < i {
        assert before[k].name == n;
      }
    }
  }

  method LinkServices(services: seq<Declared>, names: set<Name>) returns (g: Graph)
    requires DistinctNames(services) && forall n :: n in names <==> KnownName(services, n)
    ensures GraphOf(services, g) && Closed(g)
  {
    g := map[];
    for i := 0 to |services|
      invariant LinkedUpTo(services, i, names, g)
    {
      LinkNext(services, i, names, g);
      g := g[services[i].name := ValidDeps(services[i].name, names, services[i].dependsOn)];
    }
    assert services[..|services|] == services;
    assert g.Keys == names;
  }

  ghost predicate Linked(service: Declared, names: set<Name>, g: Graph) {
    service.name in g && g[service.name] == ValidDeps(service.name, names, service.dependsOn)
  }

  ghost predicate DependsOnKnown(g: Graph, n: Name, names: set<Name>)
    requires n in g
  {
    forall d :: d in g[n] ==> d in names
  }

  ghost predicate LinkedUpTo(services: seq<Declared>, i: nat, names: set<Name>, g: Graph)
    requires i <= |services|
  {
    && (forall n :: n in g <==> KnownName(services[..i], n))
    && (forall k :: 0 <= k < i ==> Linked(services[k], names, g))
    && (forall n :: n in g ==> DependsOnKnown(g, n, names))
  }

  lemma LinkNext(services: seq<Declared>, i: nat, names: set<Name>, g: Graph)
    requires DistinctNames(services) && i < |services| && LinkedUpTo(services, i, names, g)
    ensures LinkedUpTo(services, i + 1, names,
                       g[services[i].name := ValidDeps(services[i].name, names, services[i].dependsOn)])
  {
    var linked := g[services[i].name := ValidDeps(services[i].name, names, services[i].dependsOn)];
    forall k | 0 <= k < i + 1 ensures Linked(services[k], names, linked) {
      if k < i {
        assert Linked(services[k], names, g) && services[k].name != services[i].name;
      }
    }
    forall n ensures n in linked <==> KnownName(services[..i + 1], n) {
      KnownNameGrows(services, i, n);
    }
    forall n | n in linked ensures DependsOnKnown(linked, n, names) {
      if n != services[i].name {
        assert DependsOnKnown(g, n, names);
      }
    }
  }
}
