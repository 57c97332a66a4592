/** A run in which the cache answers an unaligned window differently from the store. */
module TrailingExample {
  import opened Wrappers
  import opened U64
  import opened TimeSeries
  import opened QueryWindow
  import opened MissingRanges
  import opened BucketCache
  import opened CachedExecution
  import opened CacheHistory

  const STEP: u64 := 10
  const ID := SeriesId(0, "series")

  /** Two steps, aligned at both ends. */
  const WHOLE := Window(10, 30)

  /** The same start, ending inside the second step. */
  const CUT := Window(10, 25)

  /** One series, whose value over an interval is the interval's length. */
  function Lengths(): Source {
    (id, lo, hi) => if id == ID then Some((hi - lo) as real) else None
  }

  function TwoSteps(): Data {
    Data([Aggregation(0, [Series("series", [Point(10, 10.0, false), Point(20, 10.0, false)])])])
  }

  /** Answers the aligned window; every other query fails. */
  function OnlyWhole(): Executor {
    (n, w) => if w == WHOLE then Some(TwoSteps()) else None
  }

  lemma TwoStepsContents(e: Entry)
    ensures e in Contents(TwoSteps()) <==> e.id == ID && e.point in [Point(10, 10.0, false), Point(20, 10.0, false)]
  {
    ContentsMember(TwoSteps(), e);
    var a := TwoSteps().aggregations[0];
    var s := a.series[0];
    assert a in TwoSteps().aggregations && s in a.series;
    assert forall b :: b in TwoSteps().aggregations ==> b == a;
    assert forall t :: t in a.series ==> t == s;
  }

  lemma WholeIsExecuted()
    ensures Executed(Lengths(), WHOLE, STEP, TwoSteps())
    ensures FaithfulExecutor(Lengths(), STEP, OnlyWhole())
  {
    forall e ensures e in Contents(TwoSteps()) <==> Emits(Lengths(), WHOLE, STEP, e) {
      TwoStepsContents(e);
      if Meets(e.point.ts, WHOLE, STEP) {
        assert e.point.ts == 10 || e.point.ts == 20;
      }
    }
  }

  function Made(): Bucket {
    Bucket(10, 30, TwoSteps())
  }

  /** All of the result is cacheable before a later flux boundary. */
  lemma WholeIsStored(flux: u64)
    requires flux >= 30
    ensures UpdatesWith([], WHOLE, STEP, flux, Result(TimeSeriesKind, Some(TwoSteps())), Some([Made()]), Some(Made()))
  {
    forall e ensures e in Contents(TwoSteps()) ==> Cacheable(30)(e.point) {
      TwoStepsContents(e);
    }
    assert Kept(Contents(TwoSteps()), Cacheable(30)) == Contents(TwoSteps());
    assert StoredFrom(Made(), WHOLE, STEP, flux, TwoSteps());
    assert LastAt([Made()], Made(), 0);
    assert [] + [Made()] == [Made()];
  }

  lemma MadeIsRelevant()
    ensures Relevant([Made()], CUT) == [Made()]
  {
    var buckets := [Made()];
    assert buckets[..0] == [] && Relevant([], CUT) == [];
  }

  lemma MadeMergesToItself()
    ensures MergeAll(DataBlocks(DatasOf([Made()]))) == Contents(TwoSteps())
  {
    var datas := DatasOf([Made()]);
    assert datas == [TwoSteps()] && datas[..0] == [];
    assert DataBlocks(datas) == [] + Blocks(TwoSteps().aggregations) == Blocks(TwoSteps().aggregations);
    forall e, f | e in Contents(TwoSteps()) && f in Contents(TwoSteps()) && e.id == f.id && e.point.ts == f.point.ts
      ensures e == f
    {
      TwoStepsContents(e);
      TwoStepsContents(f);
    }
    MergeOfAgreeing(DataBlocks(datas));
  }

  lemma MadeServesCut()
    ensures ServesMerged([Made()], CUT, TwoSteps())
  {
    MadeIsRelevant();
    MadeMergesToItself();
    forall e ensures e in Contents(TwoSteps()) ==> WithinWindow(CUT)(e.point) {
      TwoStepsContents(e);
    }
    assert Kept(Contents(TwoSteps()), WithinWindow(CUT)) == Contents(TwoSteps());
    assert ServesInOrder([Made()], CUT, TwoSteps());
  }

  lemma MadeCoversCut()
    ensures MissesExactly([Made()], CUT, STEP, [])
  {
    assert Made() in [Made()];
    forall x | InWindow(x, CUT) ensures InBucket(x, [Made()]) && !InSome(x, []) {
    }
  }

  lemma CutIsServed()
    ensures LooksUp(Some([Made()]), CUT, STEP, Some(TwoSteps()), [])
  {
    MadeIsRelevant();
    MadeServesCut();
    MadeCoversCut();
  }

  /** The store reports the second step as partial, with the value of its first half. */
  lemma CutIsPartial()
    ensures !Executed(Lengths(), CUT, STEP, TwoSteps())
  {
    var e := Entry(ID, Point(20, 10.0, false));
    TwoStepsContents(e);
    assert !Emits(Lengths(), CUT, STEP, e);
  }

  function FirstCall(): Call {
    NewCall(WHOLE, Answer(TwoSteps(), true))
  }

  function Asked(): State {
    State(None, map[0 := FirstCall()], {})
  }

  function HasReadEmpty(flux: u64): State {
    State(None, map[0 := FirstCall().(stage := HasRead([], flux))], {})
  }

  function HasStored(flux: u64): State {
    State(Some([Made()]), map[0 := FirstCall().(stage := Finished)], {Stored(Made(), flux)})
  }

  function AskedAgain(flux: u64): State {
    HasStored(flux).(calls := HasStored(flux).calls[1 := NewCall(CUT, Answer(TwoSteps(), false))])
  }

  function Run(flux: u64): seq<State> {
    [State(None, map[], {}), Asked(), HasReadEmpty(flux), HasStored(flux), AskedAgain(flux)]
  }

  lemma Begins(src: Source, step: u64, s: State, id: nat, w: Window, cached: Option<Data>, missing: seq<Window>,
               exec: Executor, outcome: Outcome)
    requires step > 0 && id !in s.calls && NoWrap(w, step) && FaithfulExecutor(src, step, exec)
    requires LooksUp(s.entry, w, step, cached, missing) && Answers(cached, missing, w, exec, outcome)
    ensures Next(src, step, s, s.(calls := s.calls[id := NewCall(w, outcome)]))
  {
    var s' := s.(calls := s.calls[id := NewCall(w, outcome)]);
    assert Happens(src, step, s, s', Begin(id, w, cached, missing, exec, outcome));
  }

  lemma FirstCallBegins()
    ensures Next(Lengths(), STEP, State(None, map[], {}), Asked())
  {
    WholeIsExecuted();
    Begins(Lengths(), STEP, State(None, map[], {}), 0, WHOLE, None, [WHOLE], OnlyWhole(), Answer(TwoSteps(), true));
  }

  lemma FirstCallReads(flux: u64)
    ensures Next(Lengths(), STEP, Asked(), HasReadEmpty(flux))
  {
    assert Happens(Lengths(), STEP, Asked(), HasReadEmpty(flux), Read(0, flux));
  }

  lemma FirstCallWrites(flux: u64)
    requires flux >= 30
    ensures Next(Lengths(), STEP, HasReadEmpty(flux), HasStored(flux))
  {
    WholeIsStored(flux);
    OnlyCallWrites(Lengths(), STEP, FirstCall(), [], flux, [Made()], Made());
  }

  /** The write of the only call, which has read some buckets and found no entry since. */
  lemma OnlyCallWrites(src: Source, step: u64, call: Call, existing: seq<Bucket>, flux: u64, buckets: seq<Bucket>,
                       added: Bucket)
    requires step > 0 && call.outcome.Answer?
    requires UpdatesWith(existing, call.w, step, flux, Result(TimeSeriesKind, Some(call.outcome.data)), Some(buckets),
                         Some(added))
    ensures Next(src, step, State(None, map[0 := call.(stage := HasRead(existing, flux))], {}),
                 State(Some(buckets), map[0 := call.(stage := Finished)], {Stored(added, flux)}))
  {
    var s := State(None, map[0 := call.(stage := HasRead(existing, flux))], {});
    var s' := State(Some(buckets), map[0 := call.(stage := Finished)], {Stored(added, flux)});
    assert s.calls[0 := s.calls[0].(stage := Finished)] == s'.calls;
    assert s.stores + {Stored(added, flux)} == s'.stores;
    assert Happens(src, step, s, s', Write(0, Some(buckets), Some(added), true));
  }

  lemma SecondCallBegins(flux: u64)
    ensures Next(Lengths(), STEP, HasStored(flux), AskedAgain(flux))
  {
    WholeIsExecuted();
    CutIsServed();
    assert Answers(Some(TwoSteps()), [], CUT, OnlyWhole(), Answer(TwoSteps(), false));
    Begins(Lengths(), STEP, HasStored(flux), 1, CUT, Some(TwoSteps()), [], OnlyWhole(), Answer(TwoSteps(), false));
  }

  lemma RunIsRun(flux: u64)
    requires flux >= 30
    ensures IsRun(Lengths(), STEP, Run(flux))
  {
    FirstCallBegins();
    FirstCallReads(flux);
    FirstCallWrites(flux);
    SecondCallBegins(flux);
    FourSteps(Lengths(), STEP, State(None, map[], {}), Asked(), HasReadEmpty(flux), HasStored(flux), AskedAgain(flux));
  }

  lemma FourSteps(src: Source, step: u64, s0: State, s1: State, s2: State, s3: State, s4: State)
    requires step > 0 && Init(s0)
    requires Next(src, step, s0, s1) && Next(src, step, s1, s2) && Next(src, step, s2, s3) && Next(src, step, s3, s4)
    ensures IsRun(src, step, [s0, s1, s2, s3, s4])
  {
    var run := [s0, s1, s2, s3, s4];
    forall i | 0 <= i < |run| - 1 ensures Next(src, step, run[i], run[i + 1]) {
      assert i == 0 || i == 1 || i == 2 || i == 3;
    }
  }

  /** One call over an aligned window, its store, then a call over a window with the same start that ends inside
      the second step: it is answered from the cache, and not with what the store would answer. */
  lemma TrailingDifferenceIsReached(flux: u64)
    requires flux >= 30
    ensures IsRun(Lengths(), STEP, Run(flux))
    ensures Run(flux)[4].calls[1].w == CUT && Run(flux)[4].calls[1].outcome == Answer(TwoSteps(), false)
    ensures !Executed(Lengths(), CUT, STEP, TwoSteps())
  {
    RunIsRun(flux);
    CutIsPartial();
  }
}
