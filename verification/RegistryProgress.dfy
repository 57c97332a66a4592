/** The registry's own steps run out: each takes something off what its services still have to do. */
module RegistryProgress {
  import opened Wrappers
  import opened DependencyGraph
  import opened Registry

  function PcWork(pc: Pc, deps: nat): nat {
    match pc
    case Waiting(i) => 5 + if i <= deps then deps - i else 0
    case InStart => 4
    case Recording(_) => 3
    case Closing(_) => 2
    case Sending(_) => 1
    case Sent(_) => 0
  }

  function WatcherWork(w: Watcher): nat {
    match w
    case NotSpawned => 2
    case Watching => 1
    case Quit => 0
  }

  /** How many steps a service with that many dependencies can still take at most. */
  function Work(v: Svc, deps: nat): nat {
    PcWork(v.pc, deps) + WatcherWork(v.watcher)
  }

  ghost function TotalWork(g: Graph, names: seq<Name>, s: State): nat
    requires forall n :: n in names ==> n in g && n in s.svcs
  {
    if names == [] then 0 else Work(s.svcs[names[0]], |g[names[0]]|) + TotalWork(g, names[1..], s)
  }

  ghost predicate Moves(ev: Event) {
    Subject(ev).Some? && !ev.ServiceSignals?
  }

  lemma ServiceWorkFalls(g: Graph, order: seq<Name>, s: State, ev: Event)
    requires Enabled(g, order, s, ev) && Subject(ev).Some? && ev.n in g && ev.n in s.svcs && Consistent(s.svcs[ev.n])
    ensures Work(Changed(g, order, s, ev), |g[ev.n]|) <= Work(s.svcs[ev.n], |g[ev.n]|)
    ensures Moves(ev) ==> Work(Changed(g, order, s, ev), |g[ev.n]|) < Work(s.svcs[ev.n], |g[ev.n]|)
  {
  }

  lemma {:induction false} TotalWorkFalls(g: Graph, order: seq<Name>, s: State, ev: Event, names: seq<Name>)
    requires Inv(g, order, s) && Enabled(g, order, s, ev) && forall n :: n in names ==> n in g
    ensures forall n :: n in names ==> n in After(g, order, s, ev).svcs
    ensures TotalWork(g, names, After(g, order, s, ev)) <= TotalWork(g, names, s)
    ensures Moves(ev) && ev.n in names ==> TotalWork(g, names, After(g, order, s, ev)) < TotalWork(g, names, s)
    decreases |names|
  {
    SubjectIsService(g, order, s, ev);
    if names != [] {
      TotalWorkFalls(g, order, s, ev, names[1..]);
      if Subject(ev) == Some(names[0]) {
        ServiceWorkFalls(g, order, s, ev);
      } else {
        StepAtService(g, order, s, ev, names[0]);
      }
    }
  }

  /** What all services of the registry still have to do. */
  ghost function Remaining(g: Graph, order: seq<Name>, s: State): nat
    requires Setup(g, order) && s.svcs.Keys == g.Keys
  {
    TotalWork(g, order, s)
  }

  /** No step adds to what remains, and each of the registry's own steps takes something off it. */
  lemma InternalStepsFall(g: Graph, order: seq<Name>, s: State, ev: Event)
    requires Setup(g, order) && Inv(g, order, s) && Enabled(g, order, s, ev)
    ensures Remaining(g, order, After(g, order, s, ev)) <= Remaining(g, order, s)
    ensures Internal(ev) ==> Remaining(g, order, After(g, order, s, ev)) < Remaining(g, order, s)
  {
    SubjectIsService(g, order, s, ev);
    TotalWorkFalls(g, order, s, ev, order);
  }

  /** The events can happen one after the other. */
  ghost predicate Follows(g: Graph, order: seq<Name>, s: State, evs: seq<Event>)
    decreases |evs|
  {
    evs == [] || (Enabled(g, order, s, evs[0]) && Follows(g, order, After(g, order, s, evs[0]), evs[1..]))
  }

  ghost function InternalSteps(evs: seq<Event>): nat {
    if evs == [] then 0 else (if Internal(evs[0]) then 1 else 0) + InternalSteps(evs[1..])
  }

  /** However services, callers and the context behave, the registry takes no more steps of its own than remain:
      none of its services is kept waiting by steps that go on forever. */
  lemma {:induction false} InternalStepsRunOut(g: Graph, order: seq<Name>, s: State, evs: seq<Event>)
    requires Setup(g, order) && Inv(g, order, s) && Follows(g, order, s, evs)
    ensures InternalSteps(evs) <= Remaining(g, order, s)
    decreases |evs|
  {
    if evs != [] {
      var s' := After(g, order, s, evs[0]);
      StepKeepsInv(g, order, s, evs[0]);
      InternalStepsFall(g, order, s, evs[0]);
      InternalStepsRunOut(g, order, s', evs[1..]);
    }
  }
}
