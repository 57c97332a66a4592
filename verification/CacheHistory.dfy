/** Runs of concurrent cached executions of one fingerprint over one cache slot. */
module CacheHistory {
  import opened Wrappers
  import opened U64
  import opened TimeSeries
  import opened QueryWindow
  import opened MissingRanges
  import opened BucketCache
  import opened CachedExecution
  import opened CacheTransparency
  import opened CacheStore

  // ---- One execution on its own ----

  /** Look up, answer, and store what was newly executed; the clock is read once for each. */
  method ExecuteWithCache(cache: BucketCache, w: Window, step: u64, lookupNow: u64, storeNow: u64, exec: Executor,
                          written: bool, ghost src: Source)
    returns (outcome: Outcome)
    modifies cache
    ensures exists cached, missing ::
              LooksUp(old(cache.entry), w, step, cached, missing) && Answers(cached, missing, w, exec, outcome)
    ensures !(outcome.Answer? && outcome.store) ==> cache.entry == old(cache.entry)
    ensures outcome.Answer? && outcome.store ==>
              exists updated ::
                && Updates(EntryBuckets(old(cache.entry)), w, step, FluxBoundary(storeNow, cache.fluxInterval),
                           Result(TimeSeriesKind, Some(outcome.data)), updated)
                && cache.entry == if updated.Some? && written then updated else old(cache.entry)
    ensures step > 0 && NoWrap(w, step) && FaithfulExecutor(src, step, exec)
            && FaithfulEntry(src, step, old(cache.entry)) ==>
              FaithfulEntry(src, step, cache.entry) && RightOutcome(src, step, w, outcome)
  {
    ghost var before := cache.entry;
    var cached, missing := cache.GetMissRanges(w, step, lookupNow);
    outcome := Combine(cached, missing, w, exec);
    ghost var faithful :=
      step > 0 && NoWrap(w, step) && FaithfulExecutor(src, step, exec) && FaithfulEntry(src, step, before);
    if faithful {
      OutcomeIsRight(src, before, w, step, cached, missing, exec, outcome);
    }
    if outcome.Answer? && outcome.store {
      var result := Result(TimeSeriesKind, Some(outcome.data));
      cache.Put(w, step, storeNow, result, written);
      ghost var flux := FluxBoundary(storeNow, cache.fluxInterval);
      ghost var updated :| Updates(EntryBuckets(before), w, step, flux, result, updated)
                           && cache.entry == if updated.Some? && written then updated else before;
      if faithful {
        ghost var added :| UpdatesWith(EntryBuckets(before), w, step, flux, result, updated, added);
        UpdateStaysFaithful(src, EntryBuckets(before), w, step, flux, result, updated, added);
      }
    }
  }

  /** What is promised of an outcome: over a window that is not empty something is answered or an error returned;
      over at least one whole step the answer is the direct one up to the trailing interval, and everywhere when
      the end is aligned; and it may be stored. */
  ghost predicate RightOutcome(src: Source, step: u64, w: Window, outcome: Outcome)
    requires step > 0
  {
    && (w.start < w.end ==> outcome != NilDereference)
    && (w.start + step <= w.end && outcome.Answer? ==>
          && Transparent(src, w, step, outcome.data)
          && (w.end % step == 0 ==> Executed(src, w, step, outcome.data))
          && Storable(src, w, step, outcome.data))
  }

  lemma OutcomeIsRight(src: Source, entry: Option<seq<Bucket>>, w: Window, step: u64, cached: Option<Data>,
                       missing: seq<Window>, exec: Executor, outcome: Outcome)
    requires step > 0 && NoWrap(w, step) && FaithfulExecutor(src, step, exec) && FaithfulEntry(src, step, entry)
    requires LooksUp(entry, w, step, cached, missing) && Answers(cached, missing, w, exec, outcome)
    ensures RightOutcome(src, step, w, outcome)
  {
    if w.start < w.end {
      FaithfulIsOnGrid(src, step, entry);
      NonEmptyWindowIsAnswered(entry, w, step, cached, missing, exec, outcome);
    }
    if w.start + step <= w.end && outcome.Answer? {
      AnswerIsTransparent(src, entry, w, step, cached, missing, exec, outcome);
      AnswerIsStorable(src, entry, w, step, cached, missing, exec, outcome);
    }
  }

  lemma FaithfulIsOnGrid(src: Source, step: u64, entry: Option<seq<Bucket>>)
    requires step > 0 && FaithfulEntry(src, step, entry)
    ensures entry.Some? ==> AllOnGrid(entry.value, step) && NonEmpty(entry.value)
  {
    if entry.Some? {
      forall b | b in entry.value ensures OnGrid(b, step) {
        assert Faithful(src, step, b);
      }
    }
  }

  // ---- Interleaved executions ----

  /** Where a call stands: its answer awaits storing, it has read the entry it will merge into, or it is done. */
  datatype Stage = AwaitingStore | HasRead(existing: seq<Bucket>, flux: u64) | Finished

  datatype Call = Call(w: Window, outcome: Outcome, stage: Stage)

  /** A bucket that a store made, and the flux boundary of that store. */
  datatype Stored = Stored(bucket: Bucket, flux: u64)

  /** The slot, the calls made so far, and the buckets their stores have made. */
  datatype State = State(entry: Option<seq<Bucket>>, calls: map<nat, Call>, stores: set<Stored>)

  ghost predicate Init(s: State) {
    s == State(None, map[], {})
  }

  /** One step of a run. `Begin`: a new call looks up the slot and computes its answer. `Read`: a call that
      stores reads the clock and the entry. `Write`: it overwrites the slot with the merge of its answer into
      what it read, whatever is there by now. `Forget`: the entry expires or is evicted. */
  datatype Event =
    | Begin(id: nat, w: Window, cached: Option<Data>, missing: seq<Window>, exec: Executor, outcome: Outcome)
    | Read(id: nat, flux: u64)
    | Write(id: nat, updated: Option<seq<Bucket>>, added: Option<Bucket>, written: bool)
    | Forget

  ghost predicate Happens(src: Source, step: u64, s: State, s': State, ev: Event)
    requires step > 0
  {
    match ev
    case Begin(id, w, cached, missing, exec, outcome) =>
      && id !in s.calls && NoWrap(w, step) && FaithfulExecutor(src, step, exec)
      && LooksUp(s.entry, w, step, cached, missing) && Answers(cached, missing, w, exec, outcome)
      && s' == s.(calls := s.calls[id := NewCall(w, outcome)])
    case Read(id, flux) =>
      && id in s.calls && s.calls[id].stage == AwaitingStore
      && s' == s.(calls := s.calls[id := s.calls[id].(stage := HasRead(EntryBuckets(s.entry), flux))])
    case Write(id, updated, added, written) =>
      && id in s.calls && s.calls[id].stage.HasRead? && s.calls[id].outcome.Answer?
      && UpdatesWith(s.calls[id].stage.existing, s.calls[id].w, step, s.calls[id].stage.flux,
                     Result(TimeSeriesKind, Some(s.calls[id].outcome.data)), updated, added)
      && s' == State(if updated.Some? && written then updated else s.entry,
                     s.calls[id := s.calls[id].(stage := Finished)],
                     if added.Some? then s.stores + {Stored(added.value, s.calls[id].stage.flux)} else s.stores)
    case Forget => s' == s.(entry := None)
  }

  function NewCall(w: Window, outcome: Outcome): Call {
    Call(w, outcome, if outcome.Answer? && outcome.store then AwaitingStore else Finished)
  }

  ghost predicate Next(src: Source, step: u64, s: State, s': State)
    requires step > 0
  {
    exists ev :: Happens(src, step, s, s', ev)
  }

  ghost predicate IsRun(src: Source, step: u64, run: seq<State>)
    requires step > 0
  {
    |run| > 0 && Init(run[0]) && forall i :: 0 <= i < |run| - 1 ==> Next(src, step, run[i], run[i + 1])
  }

  // ---- The invariant ----

  /** Every bucket was made by a store, and ends at or before that store's flux boundary. */
  ghost predicate EndsBeforeItsFlux(buckets: seq<Bucket>, stores: set<Stored>) {
    forall b :: b in buckets ==> exists flux :: Stored(b, flux) in stores && b.end <= flux
  }

  ghost predicate GoodBuckets(src: Source, step: u64, buckets: seq<Bucket>, stores: set<Stored>)
    requires step > 0
  {
    FaithfulStore(src, step, buckets) && EndsBeforeItsFlux(buckets, stores)
  }

  ghost predicate GoodCall(src: Source, step: u64, c: Call, stores: set<Stored>)
    requires step > 0
  {
    && NoWrap(c.w, step)
    && RightOutcome(src, step, c.w, c.outcome)
    && (c.stage.HasRead? ==> GoodBuckets(src, step, c.stage.existing, stores))
  }

  ghost predicate Inv(src: Source, step: u64, s: State)
    requires step > 0
  {
    && GoodBuckets(src, step, EntryBuckets(s.entry), s.stores)
    && (forall id :: id in s.calls ==> GoodCall(src, step, s.calls[id], s.stores))
  }

  lemma MoreStores(src: Source, step: u64, buckets: seq<Bucket>, stores: set<Stored>, more: set<Stored>)
    requires step > 0 && GoodBuckets(src, step, buckets, stores) && stores <= more
    ensures GoodBuckets(src, step, buckets, more)
  {
    forall b | b in buckets ensures exists flux :: Stored(b, flux) in more && b.end <= flux {
      var flux :| Stored(b, flux) in stores && b.end <= flux;
      assert Stored(b, flux) in more;
    }
  }

  lemma BeginKeepsInv(src: Source, step: u64, s: State, s': State, ev: Event)
    requires step > 0 && Inv(src, step, s) && ev.Begin? && Happens(src, step, s, s', ev)
    ensures Inv(src, step, s')
  {
    assert FaithfulEntry(src, step, s.entry);
    OutcomeIsRight(src, s.entry, ev.w, step, ev.cached, ev.missing, ev.exec, ev.outcome);
    forall k | k in s'.calls ensures GoodCall(src, step, s'.calls[k], s'.stores) {
      if k != ev.id {
        assert s'.calls[k] == s.calls[k];
      }
    }
  }

  lemma ReadKeepsInv(src: Source, step: u64, s: State, s': State, ev: Event)
    requires step > 0 && Inv(src, step, s) && ev.Read? && Happens(src, step, s, s', ev)
    ensures Inv(src, step, s')
  {
    forall k | k in s'.calls ensures GoodCall(src, step, s'.calls[k], s'.stores) {
      assert GoodCall(src, step, s.calls[k], s.stores);
    }
  }

  lemma WrittenIsGood(src: Source, step: u64, c: Call, updated: Option<seq<Bucket>>, added: Option<Bucket>,
                      stores: set<Stored>, more: set<Stored>)
    requires step > 0 && GoodCall(src, step, c, stores) && c.stage.HasRead? && c.outcome.Answer?
    requires UpdatesWith(c.stage.existing, c.w, step, c.stage.flux, Result(TimeSeriesKind, Some(c.outcome.data)),
                         updated, added)
    requires stores <= more && (added.Some? ==> Stored(added.value, c.stage.flux) in more)
    ensures updated.Some? ==> GoodBuckets(src, step, updated.value, more)
  {
    var result := Result(TimeSeriesKind, Some(c.outcome.data));
    UpdateStaysFaithful(src, c.stage.existing, c.w, step, c.stage.flux, result, updated, added);
    MoreStores(src, step, c.stage.existing, stores, more);
  }

  lemma WriteKeepsInv(src: Source, step: u64, s: State, s': State, ev: Event)
    requires step > 0 && Inv(src, step, s) && ev.Write? && Happens(src, step, s, s', ev)
    ensures Inv(src, step, s')
  {
    WrittenIsGood(src, step, s.calls[ev.id], ev.updated, ev.added, s.stores, s'.stores);
    MoreStores(src, step, EntryBuckets(s.entry), s.stores, s'.stores);
    forall k | k in s'.calls ensures GoodCall(src, step, s'.calls[k], s'.stores) {
      assert GoodCall(src, step, s.calls[k], s.stores);
      if s.calls[k].stage.HasRead? {
        MoreStores(src, step, s.calls[k].stage.existing, s.stores, s'.stores);
      }
    }
  }

  lemma NextKeepsInv(src: Source, step: u64, s: State, s': State)
    requires step > 0 && Inv(src, step, s) && Next(src, step, s, s')
    ensures Inv(src, step, s')
  {
    var ev :| Happens(src, step, s, s', ev);
    match ev
    case Begin(_, _, _, _, _, _) => BeginKeepsInv(src, step, s, s', ev);
    case Read(_, _) => ReadKeepsInv(src, step, s, s', ev);
    case Write(_, _, _, _) => WriteKeepsInv(src, step, s, s', ev);
    case Forget =>
  }

  lemma {:induction false} RunKeepsInv(src: Source, step: u64, run: seq<State>, i: nat)
    requires step > 0 && IsRun(src, step, run) && i < |run|
    ensures Inv(src, step, run[i])
  {
    if i > 0 {
      RunKeepsInv(src, step, run, i - 1);
      assert Next(src, step, run[i - 1], run[i - 1 + 1]);
      NextKeepsInv(src, step, run[i - 1], run[i]);
    }
  }

  /** In every run, over every window that is not empty the nil result is never dereferenced, and over at least
      one whole step every answer is the direct answer up to the trailing interval, and exactly the direct answer
      when the window's end is aligned. */
  lemma CacheIsTransparent(src: Source, step: u64, run: seq<State>, i: nat, id: nat)
    requires step > 0 && IsRun(src, step, run) && i < |run| && id in run[i].calls
    ensures var c := run[i].calls[id];
            && (c.w.start < c.w.end ==> c.outcome != NilDereference)
            && (c.w.start + step <= c.w.end && c.outcome.Answer? ==>
                  && Transparent(src, c.w, step, c.outcome.data)
                  && (c.w.end % step == 0 ==> Executed(src, c.w, step, c.outcome.data)))
  {
    RunKeepsInv(src, step, run, i);
  }

  /** In every state of every run the stored list is sorted, repeats no range, lies on the grid, holds whole
      values only and all of them for the range it spans, and each bucket was made by a store and ends at or
      before that store's flux boundary. */
  lemma StoreStaysFaithful(src: Source, step: u64, run: seq<State>, i: nat)
    requires step > 0 && IsRun(src, step, run) && i < |run|
    ensures FaithfulEntry(src, step, run[i].entry)
    ensures EndsBeforeItsFlux(EntryBuckets(run[i].entry), run[i].stores)
  {
    RunKeepsInv(src, step, run, i);
  }
}
