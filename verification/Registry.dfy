/** The start protocol of a service registry: one goroutine a service, waiting on its dependencies' channels. */
module Registry {
  import opened Wrappers
  import opened DependencyGraph

  datatype Health = Starting | Running | FailedState

  /** Why a service's start goroutine finished. */
  datatype Cause = ContextDone | DependencyFailed(dep: Name) | StartReturned(failed: bool)

  // ---- The state of one service ----

  /** The goroutine that starts a service: waiting on dependency i, inside Start, about to record a failure,
      about to close startReturnedC, about to send on startC, finished. */
  datatype Pc =
    | Waiting(i: nat)
    | InStart
    | Recording(cause: Cause)
    | Closing(cause: Cause)
    | Sending(cause: Cause)
    | Sent(cause: Cause)

  datatype Watcher = NotSpawned | Watching | Quit

  /** `healthyCloses` and `returnedCloses` count the closings of healthyC and startReturnedC; `signalled` is the
      service's own health channel. */
  datatype Svc = Svc(pc: Pc, state: Health, startErr: Option<Cause>, healthyCloses: nat, returnedCloses: nat,
                     watcher: Watcher, signalled: bool)
  {
    predicate Healthy() {
      healthyCloses > 0
    }

    predicate Returned() {
      returnedCloses > 0
    }

    predicate Started() {
      watcher != NotSpawned
    }
  }

  /** The transition of `setState`: healthyC is closed on the first move to Running and not again. */
  function SetState(s: Svc, state: Health): Svc {
    s.(state := state, healthyCloses := if state == Running && s.healthyCloses == 0 then 1 else s.healthyCloses)
  }

  class ServiceWithState {
    var state: Health
    var healthyCloses: nat

    constructor ()
      ensures state == Starting && healthyCloses == 0
    {
      state, healthyCloses := Starting, 0;
    }

    method SetState(state: Health)
      modifies this
      ensures this.state == state
      ensures healthyCloses == if state == Running && old(healthyCloses) == 0 then 1 else old(healthyCloses)
    {
      this.state := state;
      if state == Running {
        if healthyCloses > 0 {
        } else {
          healthyCloses := healthyCloses + 1;
        }
      }
    }
  }

  // ---- The registry ----

  /** A caller of AwaitHealthy, at the i-th service or done. */
  datatype Await = At(i: nat) | AllHealthy | GaveUp

  datatype State = State(svcs: map<Name, Svc>, ctxDone: bool, startC: nat, await: Await)

  const START_CAPACITY := 1

  datatype Event =
    | SeeContextDone(n: Name)
    | SeeDependencyHealthy(n: Name)
    | SeeDependencyReturned(n: Name)
    | Launch(n: Name)
    | StartReturns(n: Name, failed: bool)
    | RecordFailure(n: Name)
    | CloseReturned(n: Name)
    | Send(n: Name)
    | WatcherSeesHealthy(n: Name)
    | WatcherSeesReturned(n: Name)
    | ServiceSignals(n: Name)
    | CancelContext
    | Receive
    | AwaitSeesHealthy
    | AwaitGivesUp

  /** The dependency a waiting service is at. */
  predicate AtDependency(g: Graph, s: State, n: Name) {
    n in g && n in s.svcs && s.svcs[n].pc.Waiting? && s.svcs[n].pc.i < |g[n]| && g[n][s.svcs[n].pc.i] in s.svcs
  }

  function CurrentDependency(g: Graph, s: State, n: Name): Name
    requires AtDependency(g, s, n)
  {
    g[n][s.svcs[n].pc.i]
  }

  predicate Enabled(g: Graph, order: seq<Name>, s: State, ev: Event) {
    match ev
    case SeeContextDone(n) => AtDependency(g, s, n) && s.ctxDone
    case SeeDependencyHealthy(n) => AtDependency(g, s, n) && s.svcs[CurrentDependency(g, s, n)].Healthy()
    case SeeDependencyReturned(n) => AtDependency(g, s, n) && s.svcs[CurrentDependency(g, s, n)].Returned()
    case Launch(n) => n in g && n in s.svcs && s.svcs[n].pc.Waiting? && s.svcs[n].pc.i >= |g[n]|
    case StartReturns(n, _) => n in s.svcs && s.svcs[n].pc == InStart
    case RecordFailure(n) => n in s.svcs && s.svcs[n].pc.Recording?
    case CloseReturned(n) => n in s.svcs && s.svcs[n].pc.Closing?
    case Send(n) => n in s.svcs && s.svcs[n].pc.Sending? && s.startC < START_CAPACITY
    case WatcherSeesHealthy(n) => n in s.svcs && s.svcs[n].watcher == Watching && s.svcs[n].signalled
    case WatcherSeesReturned(n) => n in s.svcs && s.svcs[n].watcher == Watching && s.svcs[n].Returned()
    case ServiceSignals(n) => n in s.svcs
    case CancelContext => true
    case Receive => s.startC > 0
    case AwaitSeesHealthy =>
      s.await.At? && s.await.i < |order| && order[s.await.i] in s.svcs && s.svcs[order[s.await.i]].Healthy()
    case AwaitGivesUp =>
      s.await.At? && s.await.i < |order| && order[s.await.i] in s.svcs &&
      (s.ctxDone || s.svcs[order[s.await.i]].Returned())
  }

  /** The service whose state an event changes. */
  function Subject(ev: Event): Option<Name> {
    match ev
    case CancelContext => None
    case Receive => None
    case AwaitSeesHealthy => None
    case AwaitGivesUp => None
    case _ => Some(ev.n)
  }

  /** That service afterwards. */
  function Changed(g: Graph, order: seq<Name>, s: State, ev: Event): Svc
    requires Enabled(g, order, s, ev) && Subject(ev).Some?
  {
    var v := s.svcs[ev.n];
    match ev
    case SeeContextDone(n) => v.(pc := Recording(ContextDone))
    case SeeDependencyHealthy(n) => v.(pc := Waiting(v.pc.i + 1))
    case SeeDependencyReturned(n) => v.(pc := Recording(DependencyFailed(CurrentDependency(g, s, n))))
    case Launch(n) => v.(pc := InStart, watcher := Watching)
    case StartReturns(n, failed) =>
      v.(pc := if failed then Recording(StartReturned(true)) else Closing(StartReturned(false)))
    case RecordFailure(n) => v.(state := FailedState, startErr := Some(v.pc.cause), pc := Closing(v.pc.cause))
    case CloseReturned(n) => v.(returnedCloses := v.returnedCloses + 1, pc := Sending(v.pc.cause))
    case Send(n) => v.(pc := Sent(v.pc.cause))
    case WatcherSeesHealthy(n) => SetState(v, Running).(watcher := Quit)
    case WatcherSeesReturned(n) => v.(watcher := Quit)
    case ServiceSignals(n) => v.(signalled := true)
  }

  function After(g: Graph, order: seq<Name>, s: State, ev: Event): State
    requires Enabled(g, order, s, ev)
  {
    State(
      if Subject(ev).Some? then s.svcs[ev.n := Changed(g, order, s, ev)] else s.svcs,
      s.ctxDone || ev.CancelContext?,
      if ev.Send? then s.startC + 1 else if ev.Receive? then s.startC - 1 else s.startC,
      if ev.AwaitSeesHealthy? then (if s.await.i + 1 == |order| then AllHealthy else At(s.await.i + 1))
      else if ev.AwaitGivesUp? then GaveUp
      else s.await)
  }

  /** Steps that the registry itself takes, other than sending on startC. */
  predicate Internal(ev: Event) {
    ev.SeeContextDone? || ev.SeeDependencyHealthy? || ev.SeeDependencyReturned? || ev.Launch? ||
    ev.RecordFailure? || ev.CloseReturned? || ev.WatcherSeesHealthy? || ev.WatcherSeesReturned?
  }

  ghost predicate Init(g: Graph, s: State) {
    && s.svcs.Keys == g.Keys
    && (forall n :: n in s.svcs ==> s.svcs[n] == Svc(Waiting(0), Starting, None, 0, 0, NotSpawned, s.svcs[n].signalled))
    && s.startC == 0 && s.await == At(0)
  }

  ghost predicate Next(g: Graph, order: seq<Name>, s: State, s': State) {
    exists ev :: Enabled(g, order, s, ev) && s' == After(g, order, s, ev)
  }

  /** The registry's services in the order they were given. */
  ghost predicate Setup(g: Graph, order: seq<Name>) {
    Closed(g) && |order| > 0 && forall n :: n in order <==> n in g
  }

  ghost predicate IsRun(g: Graph, order: seq<Name>, run: seq<State>) {
    |run| > 0 && Init(g, run[0]) && forall i :: 0 <= i < |run| - 1 ==> Next(g, order, run[i], run[i + 1])
  }

  // ---- The invariant ----

  function CauseOf(pc: Pc): Option<Cause> {
    match pc
    case Waiting(_) => None
    case InStart => None
    case Recording(c) => Some(c)
    case Closing(c) => Some(c)
    case Sending(c) => Some(c)
    case Sent(c) => Some(c)
  }

  ghost predicate HealthyUpTo(g: Graph, s: State, n: Name, k: int)
    requires n in g
  {
    forall j :: 0 <= j < k && j < |g[n]| ==> g[n][j] in s.svcs && s.svcs[g[n][j]].Healthy()
  }

  /** What one service's own fields always satisfy. */
  ghost predicate Consistent(v: Svc) {
    && v.healthyCloses <= 1
    && v.returnedCloses == (if v.pc.Sending? || v.pc.Sent? then 1 else 0)
    && (v.Healthy() ==> v.Started())
    && (v.watcher == Quit ==> v.Healthy() || v.Returned())
    && (v.pc.Waiting? ==> !v.Started())
    && (v.pc == InStart ==> v.Started())
    && (v.pc.Recording? ==> v.pc.cause != StartReturned(false))
    && (CauseOf(v.pc).Some? ==> (v.Started() <==> CauseOf(v.pc).value.StartReturned?))
    && (v.pc.Closing? || v.pc.Sending? || v.pc.Sent? ==>
          v.startErr == if v.pc.cause == StartReturned(false) then None else Some(v.pc.cause))
    && (v.pc.Waiting? || v.pc == InStart || v.pc.Recording? ==> v.startErr == None)
  }

  /** How a service's progress depends on the others. */
  ghost predicate Justified(g: Graph, s: State, n: Name)
    requires n in g && n in s.svcs
  {
    var v := s.svcs[n];
    && (v.pc.Waiting? ==> v.pc.i <= |g[n]| && HealthyUpTo(g, s, n, v.pc.i))
    && (v.Started() ==> HealthyUpTo(g, s, n, |g[n]|))
    && (CauseOf(v.pc) == Some(ContextDone) ==> s.ctxDone)
    && (CauseOf(v.pc).Some? && CauseOf(v.pc).value.DependencyFailed? ==>
          var d := CauseOf(v.pc).value.dep; d in g[n] && d in s.svcs && s.svcs[d].Returned())
  }

  ghost predicate AwaitJustified(order: seq<Name>, s: State) {
    && (s.await.At? ==> s.await.i < |order| && forall j :: 0 <= j < s.await.i ==>
        order[j] in s.svcs && s.svcs[order[j]].Healthy())
    && (s.await == AllHealthy ==> forall n :: n in order ==> n in s.svcs && s.svcs[n].Healthy())
  }

  ghost predicate Inv(g: Graph, order: seq<Name>, s: State) {
    && s.svcs.Keys == g.Keys
    && (forall n :: n in s.svcs ==> Consistent(s.svcs[n]))
    && (forall n :: n in s.svcs ==> Justified(g, s, n))
    && s.startC <= START_CAPACITY
    && AwaitJustified(order, s)
  }

  ghost predicate SvcGrows(v: Svc, v': Svc) {
    && (v.Healthy() ==> v'.Healthy())
    && (v.Returned() ==> v'.Returned())
    && (v.Started() ==> v'.Started())
  }

  /** Channels stay closed and the context stays cancelled. */
  ghost predicate Grows(s: State, s': State) {
    && s.svcs.Keys == s'.svcs.Keys
    && (s.ctxDone ==> s'.ctxDone)
    && forall n :: n in s.svcs ==> SvcGrows(s.svcs[n], s'.svcs[n])
  }

  lemma ChangedIsConsistent(g: Graph, order: seq<Name>, s: State, ev: Event)
    requires Enabled(g, order, s, ev) && Subject(ev).Some? && Consistent(s.svcs[ev.n])
    ensures Consistent(Changed(g, order, s, ev)) && SvcGrows(s.svcs[ev.n], Changed(g, order, s, ev))
  {
  }

  lemma StepAtService(g: Graph, order: seq<Name>, s: State, ev: Event, n: Name)
    requires Enabled(g, order, s, ev) && n in s.svcs && Consistent(s.svcs[n])
    ensures n in After(g, order, s, ev).svcs
    ensures var v := After(g, order, s, ev).svcs[n]; SvcGrows(s.svcs[n], v) && Consistent(v)
    ensures Subject(ev) != Some(n) ==> After(g, order, s, ev).svcs[n] == s.svcs[n]
  {
    if Subject(ev) == Some(n) {
      ChangedIsConsistent(g, order, s, ev);
    }
  }

  lemma SubjectIsService(g: Graph, order: seq<Name>, s: State, ev: Event)
    requires Enabled(g, order, s, ev)
    ensures Subject(ev).Some? ==> ev.n in s.svcs
    ensures After(g, order, s, ev).svcs.Keys == s.svcs.Keys
  {
  }

  lemma StepGrows(g: Graph, order: seq<Name>, s: State, ev: Event)
    requires Inv(g, order, s) && Enabled(g, order, s, ev)
    ensures Grows(s, After(g, order, s, ev))
    ensures forall n :: n in s.svcs ==> Consistent(After(g, order, s, ev).svcs[n])
  {
    SubjectIsService(g, order, s, ev);
    var s' := After(g, order, s, ev);
    forall n | n in s.svcs ensures SvcGrows(s.svcs[n], s'.svcs[n]) && Consistent(s'.svcs[n]) {
      StepAtService(g, order, s, ev, n);
    }
  }

  lemma HealthyUpToGrows(g: Graph, s: State, s': State, n: Name, k: int)
    requires n in g && Grows(s, s') && HealthyUpTo(g, s, n, k)
    ensures HealthyUpTo(g, s', n, k)
  {
    forall j | 0 <= j < k && j < |g[n]| ensures g[n][j] in s'.svcs && s'.svcs[g[n][j]].Healthy() {
      assert s.svcs[g[n][j]].Healthy() && SvcGrows(s.svcs[g[n][j]], s'.svcs[g[n][j]]);
    }
  }

  lemma UnchangedIsJustified(g: Graph, s: State, s': State, n: Name)
    requires n in g && n in s.svcs && Grows(s, s') && s'.svcs[n] == s.svcs[n] && Justified(g, s, n)
    ensures Justified(g, s', n)
  {
    if s.svcs[n].pc.Waiting? {
      HealthyUpToGrows(g, s, s', n, s.svcs[n].pc.i);
    }
    if s.svcs[n].Started() {
      HealthyUpToGrows(g, s, s', n, |g[n]|);
    }
    if CauseOf(s.svcs[n].pc).Some? && CauseOf(s.svcs[n].pc).value.DependencyFailed? {
      var d := CauseOf(s.svcs[n].pc).value.dep;
      assert SvcGrows(s.svcs[d], s'.svcs[d]);
    }
  }

  /** One more healthy dependency. */
  lemma OneMoreHealthy(g: Graph, s: State, n: Name, k: nat)
    requires n in g && HealthyUpTo(g, s, n, k) && k < |g[n]| && g[n][k] in s.svcs && s.svcs[g[n][k]].Healthy()
    ensures HealthyUpTo(g, s, n, k + 1)
  {
  }

  /** The changed service's new fields are justified by the state before the step. */
  lemma ChangedIsJustified(g: Graph, order: seq<Name>, s: State, ev: Event)
    requires Setup(g, order) && Inv(g, order, s) && Enabled(g, order, s, ev) && Subject(ev).Some?
    ensures ev.n in g
    ensures var v := Changed(g, order, s, ev);
            && (v.pc.Waiting? ==> v.pc.i <= |g[ev.n]| && HealthyUpTo(g, s, ev.n, v.pc.i))
            && (v.Started() ==> HealthyUpTo(g, s, ev.n, |g[ev.n]|))
            && (CauseOf(v.pc) == Some(ContextDone) ==> s.ctxDone)
            && (CauseOf(v.pc).Some? && CauseOf(v.pc).value.DependencyFailed? ==>
                  var d := CauseOf(v.pc).value.dep; d in g[ev.n] && d in s.svcs && s.svcs[d].Returned())
  {
    var n := ev.n;
    assert Justified(g, s, n) && Consistent(s.svcs[n]);
    if ev.SeeDependencyHealthy? {
      OneMoreHealthy(g, s, n, s.svcs[n].pc.i);
    }
  }

  lemma StepIsJustified(g: Graph, order: seq<Name>, s: State, ev: Event, n: Name)
    requires Setup(g, order) && Inv(g, order, s) && Enabled(g, order, s, ev) && n in s.svcs
    ensures Justified(g, After(g, order, s, ev), n)
  {
    var s' := After(g, order, s, ev);
    StepGrows(g, order, s, ev);
    if Subject(ev) != Some(n) {
      UnchangedIsJustified(g, s, s', n);
    } else {
      ChangedIsJustified(g, order, s, ev);
      var v := Changed(g, order, s, ev);
      if v.pc.Waiting? {
        HealthyUpToGrows(g, s, s', n, v.pc.i);
      }
      if v.Started() {
        HealthyUpToGrows(g, s, s', n, |g[n]|);
      }
      if CauseOf(v.pc).Some? && CauseOf(v.pc).value.DependencyFailed? {
        var d := CauseOf(v.pc).value.dep;
        assert SvcGrows(s.svcs[d], s'.svcs[d]);
      }
    }
  }

  lemma AwaitGrows(order: seq<Name>, s: State, s': State, j: int)
    requires Grows(s, s') && 0 <= j < |order| && order[j] in s.svcs && s.svcs[order[j]].Healthy()
    ensures order[j] in s'.svcs && s'.svcs[order[j]].Healthy()
  {
    assert SvcGrows(s.svcs[order[j]], s'.svcs[order[j]]);
  }

  /** The caller of AwaitHealthy stands still, gives up, or goes past a service that it sees healthy. */
  ghost predicate AwaitMoves(order: seq<Name>, s: State, s': State) {
    || s'.await == s.await
    || s'.await == GaveUp
    || (s.await.At? && s.await.i < |order| && order[s.await.i] in s.svcs && s.svcs[order[s.await.i]].Healthy()
        && s'.await == if s.await.i + 1 == |order| then AllHealthy else At(s.await.i + 1))
  }

  lemma AwaitStaysJustified(order: seq<Name>, s: State, s': State)
    requires AwaitJustified(order, s) && Grows(s, s') && AwaitMoves(order, s, s')
    ensures AwaitJustified(order, s')
  {
    var reached := if s'.await == AllHealthy then |order| else if s'.await.At? then s'.await.i else 0;
    forall j | 0 <= j < reached ensures order[j] in s'.svcs && s'.svcs[order[j]].Healthy() {
      assert order[j] in order;
      AwaitGrows(order, s, s', j);
    }
    if s'.await == AllHealthy {
      AllReached(order, s');
    }
  }

  lemma StepKeepsAwait(g: Graph, order: seq<Name>, s: State, ev: Event)
    requires Setup(g, order) && Inv(g, order, s) && Enabled(g, order, s, ev)
    ensures AwaitJustified(order, After(g, order, s, ev))
  {
    StepGrows(g, order, s, ev);
    AwaitStaysJustified(order, s, After(g, order, s, ev));
  }

  lemma AllReached(order: seq<Name>, s: State)
    requires forall j :: 0 <= j < |order| ==> order[j] in s.svcs && s.svcs[order[j]].Healthy()
    ensures forall n :: n in order ==> n in s.svcs && s.svcs[n].Healthy()
  {
    forall n | n in order ensures n in s.svcs && s.svcs[n].Healthy() {
      var j :| 0 <= j < |order| && order[j] == n;
    }
  }

  lemma StepKeepsInv(g: Graph, order: seq<Name>, s: State, ev: Event)
    requires Setup(g, order) && Inv(g, order, s) && Enabled(g, order, s, ev)
    ensures Inv(g, order, After(g, order, s, ev))
  {
    var s' := After(g, order, s, ev);
    StepGrows(g, order, s, ev);
    forall n | n in s'.svcs ensures Justified(g, s', n) {
      StepIsJustified(g, order, s, ev, n);
    }
    StepKeepsAwait(g, order, s, ev);
  }

  lemma {:induction false} RunKeepsInv(g: Graph, order: seq<Name>, run: seq<State>, i: nat)
    requires Setup(g, order) && IsRun(g, order, run) && i < |run|
    ensures Inv(g, order, run[i])
  {
    if i > 0 {
      RunKeepsInv(g, order, run, i - 1);
      assert Next(g, order, run[i - 1], run[i - 1 + 1]);
      var ev :| Enabled(g, order, run[i - 1], ev) && run[i] == After(g, order, run[i - 1], ev);
      StepKeepsInv(g, order, run[i - 1], ev);
    }
  }

  // ---- Channels are closed at most once ----

  lemma ChannelsCloseOnce(g: Graph, order: seq<Name>, run: seq<State>, i: nat, n: Name)
    requires Setup(g, order) && IsRun(g, order, run) && i < |run| && n in run[i].svcs
    ensures run[i].svcs[n].healthyCloses <= 1 && run[i].svcs[n].returnedCloses <= 1
  {
    RunKeepsInv(g, order, run, i);
    assert Consistent(run[i].svcs[n]);
  }

  // ---- Start order ----

  /** A service whose Start was invoked has every service on every path of its dependencies started, with its
      healthyC closed. */
  lemma {:induction false} DependenciesAreHealthy(g: Graph, order: seq<Name>, s: State, w: seq<Name>)
    requires Setup(g, order) && Inv(g, order, s) && Walk(g, w) && s.svcs[w[0]].Started()
    ensures forall k :: 1 <= k < |w| ==> s.svcs[w[k]].Started() && s.svcs[w[k]].healthyCloses == 1
    decreases |w|
  {
    if |w| > 1 {
      assert StepAt(g, w, 0);
      var j :| 0 <= j < |g[w[0]]| && g[w[0]][j] == w[1];
      assert Justified(g, s, w[0]);
      assert s.svcs[w[1]].Healthy() && Consistent(s.svcs[w[1]]);
      WalkTail(g, w);
      DependenciesAreHealthy(g, order, s, w[1..]);
      forall k | 1 <= k < |w| ensures s.svcs[w[k]].Started() && s.svcs[w[k]].healthyCloses == 1 {
        if k > 1 {
          assert w[1..][k - 1] == w[k];
        }
      }
    }
  }

  lemma StartOrderIsSafe(g: Graph, order: seq<Name>, run: seq<State>, i: nat, w: seq<Name>)
    requires Setup(g, order) && IsRun(g, order, run) && i < |run| && Walk(g, w)
    requires w[0] in run[i].svcs && run[i].svcs[w[0]].Started()
    ensures forall k :: 1 <= k < |w| ==>
              w[k] in run[i].svcs && run[i].svcs[w[k]].Started() && run[i].svcs[w[k]].healthyCloses == 1
  {
    RunKeepsInv(g, order, run, i);
    DependenciesAreHealthy(g, order, run[i], w);
  }

  // ---- Dependency failures ----

  ghost predicate FailedBy(s: State, n: Name, c: Cause) {
    n in s.svcs && CauseOf(s.svcs[n].pc) == Some(c)
  }

  /** Each service of the walk but the last failed because of the next one. */
  ghost predicate Blames(s: State, w: seq<Name>) {
    forall k :: 0 <= k < |w| - 1 ==> FailedBy(s, w[k], DependencyFailed(w[k + 1]))
  }

  /** The walk ends at a service whose Start returned, or which saw the context cancelled. */
  ghost predicate EndsAtRoot(s: State, w: seq<Name>)
    requires |w| > 0
  {
    var last := w[|w| - 1];
    && last in s.svcs && s.svcs[last].Returned()
    && (FailedBy(s, last, ContextDone) ==> s.ctxDone)
    && (FailedBy(s, last, ContextDone) || (s.svcs[last].Started() && exists f :: FailedBy(s, last, StartReturned(f))))
  }

  /** Every dependency failure traces along the dependencies to a Start that returned or to the context. */
  lemma {:induction false} FailureHasRoot(g: Graph, order: seq<Name>, rank: map<Name, nat>, s: State, n: Name, d: Name)
    returns (w: seq<Name>)
    requires Setup(g, order) && Ranks(g, rank) && Inv(g, order, s)
    requires n in s.svcs && FailedBy(s, n, DependencyFailed(d))
    ensures |w| > 1 && w[0] == n && Walk(g, w) && Blames(s, w) && EndsAtRoot(s, w)
    decreases rank[n]
  {
    assert Justified(g, s, n);
    assert d in g[n] && s.svcs[d].Returned();
    assert Consistent(s.svcs[d]) && Justified(g, s, d);
    var c := s.svcs[d].pc.cause;
    var tail := [d];
    if c.DependencyFailed? {
      tail := FailureHasRoot(g, order, rank, s, d, c.dep);
    } else if c.StartReturned? {
      assert FailedBy(s, d, StartReturned(c.failed));
    }
    WalkGrows(g, n, tail);
    BlameGrows(s, n, tail);
    w := [n] + tail;
  }

  lemma BlameGrows(s: State, n: Name, tail: seq<Name>)
    requires tail != [] && FailedBy(s, n, DependencyFailed(tail[0])) && Blames(s, tail) && EndsAtRoot(s, tail)
    ensures Blames(s, [n] + tail) && EndsAtRoot(s, [n] + tail)
  {
    var w := [n] + tail;
    forall k | 0 <= k < |w| - 1 ensures FailedBy(s, w[k], DependencyFailed(w[k + 1])) {
      if k > 0 {
        assert FailedBy(s, tail[k - 1], DependencyFailed(tail[k - 1 + 1]));
      }
    }
    assert w[|w| - 1] == tail[|tail| - 1];
  }

  lemma FailuresTraceBack(g: Graph, order: seq<Name>, rank: map<Name, nat>, run: seq<State>, i: nat, n: Name, d: Name)
    returns (w: seq<Name>)
    requires Setup(g, order) && Ranks(g, rank) && IsRun(g, order, run) && i < |run|
    requires FailedBy(run[i], n, DependencyFailed(d))
    ensures |w| > 1 && w[0] == n && Walk(g, w) && Blames(run[i], w) && EndsAtRoot(run[i], w)
  {
    RunKeepsInv(g, order, run, i);
    w := FailureHasRoot(g, order, rank, run[i], n, d);
  }

  // ---- No deadlock ----

  ghost predicate CanStep(g: Graph, order: seq<Name>, s: State) {
    exists ev :: Internal(ev) && Enabled(g, order, s, ev)
  }

  /** Inside Start, and its health not signalled: nothing but the service itself holds things up. */
  ghost predicate HeldByService(s: State, n: Name) {
    n in s.svcs && s.svcs[n].pc == InStart && !s.svcs[n].signalled && !s.svcs[n].Healthy() && !s.svcs[n].Returned()
  }

  /** When the registry cannot step, a waiting service's current dependency waits too or is held up in Start. */
  lemma BlockedOn(g: Graph, order: seq<Name>, s: State, n: Name) returns (d: Name)
    requires Setup(g, order) && Inv(g, order, s)
    requires n in s.svcs && s.svcs[n].pc.Waiting? && !CanStep(g, order, s)
    ensures d in g[n] && d in s.svcs && (s.svcs[d].pc.Waiting? || HeldByService(s, d))
  {
    assert Justified(g, s, n);
    assert !Enabled(g, order, s, Launch(n));
    d := CurrentDependency(g, s, n);
    assert d in g[n];
    assert !Enabled(g, order, s, SeeDependencyHealthy(n)) && !Enabled(g, order, s, SeeDependencyReturned(n));
    NoPendingStep(g, order, s, d);
  }

  lemma NoPendingStep(g: Graph, order: seq<Name>, s: State, d: Name)
    requires Inv(g, order, s) && d in s.svcs && !CanStep(g, order, s)
    requires !s.svcs[d].Healthy() && !s.svcs[d].Returned()
    ensures s.svcs[d].pc.Waiting? || HeldByService(s, d)
  {
    assert Consistent(s.svcs[d]);
    assert !Enabled(g, order, s, RecordFailure(d));
    assert !Enabled(g, order, s, CloseReturned(d));
    assert !Enabled(g, order, s, WatcherSeesHealthy(d));
  }

  /** In a ranked graph a waiting service is never stuck on the registry: some internal step is possible, or
      some service it depends on, directly or not, is inside Start without having signalled its health. Senders
      blocked on the full startC play no part. */
  lemma {:induction false} WaitingIsNeverStuck(g: Graph, order: seq<Name>, rank: map<Name, nat>, s: State, n: Name)
    returns (w: seq<Name>)
    requires Setup(g, order) && Ranks(g, rank) && Inv(g, order, s)
    requires n in s.svcs && s.svcs[n].pc.Waiting? && !CanStep(g, order, s)
    ensures |w| > 1 && w[0] == n && Walk(g, w) && HeldByService(s, w[|w| - 1])
    decreases rank[n]
  {
    var d := BlockedOn(g, order, s, n);
    var tail := [d];
    if s.svcs[d].pc.Waiting? {
      tail := WaitingIsNeverStuck(g, order, rank, s, d);
    }
    WalkGrows(g, n, tail);
    w := [n] + tail;
    assert w[|w| - 1] == tail[|tail| - 1];
  }

  lemma NoDeadlock(g: Graph, order: seq<Name>, rank: map<Name, nat>, run: seq<State>, i: nat, n: Name)
    requires Setup(g, order) && Ranks(g, rank) && IsRun(g, order, run) && i < |run|
    requires n in run[i].svcs && run[i].svcs[n].pc.Waiting? && !CanStep(g, order, run[i])
    ensures exists w :: |w| > 1 && w[0] == n && Walk(g, w) && HeldByService(run[i], w[|w| - 1])
  {
    RunKeepsInv(g, order, run, i);
    var w := WaitingIsNeverStuck(g, order, rank, run[i], n);
  }

  // ---- AwaitHealthy ----

  /** When AwaitHealthy returns without error, every service was started and is past its healthyC. */
  lemma AwaitedMeansHealthy(g: Graph, order: seq<Name>, run: seq<State>, i: nat)
    requires Setup(g, order) && IsRun(g, order, run) && i < |run| && run[i].await == AllHealthy
    ensures forall n :: n in g ==> n in run[i].svcs && run[i].svcs[n].Started() && run[i].svcs[n].healthyCloses == 1
  {
    RunKeepsInv(g, order, run, i);
    forall n | n in g ensures n in run[i].svcs && run[i].svcs[n].Started() && run[i].svcs[n].healthyCloses == 1 {
      assert n in order && Consistent(run[i].svcs[n]);
    }
  }
}
