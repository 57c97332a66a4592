/** What stores keep true of the bucket list, and what a store makes the next lookup return. */
module CacheStore {
  import opened Wrappers
  import opened U64
  import opened TimeSeries
  import opened QueryWindow
  import opened MissingRanges
  import opened BucketCache
  import opened CachedExecution
  import opened CacheTransparency

  lemma ExecutedIsStorable(src: Source, w: Window, step: u64, d: Data)
    requires step > 0 && NoWrap(w, step) && Executed(src, w, step, d)
    ensures Storable(src, w, step, d)
  {
    forall e | e in Contents(d) && !e.point.partial ensures Whole(src, step, e) {
      PartialIffNotComplete(e.point.ts, w, step);
    }
    forall e: Entry | Complete(e.point.ts, w, step) && Whole(src, step, e) ensures e in Contents(d) {
      EmittedWhenComplete(src, w, step, e);
    }
  }

  /** Whatever is answered may be stored. */
  lemma AnswerIsStorable(src: Source, entry: Option<seq<Bucket>>, w: Window, step: u64, cached: Option<Data>,
                         missing: seq<Window>, exec: Executor, outcome: Outcome)
    requires step > 0 && w.start + step <= w.end && NoWrap(w, step)
    requires FaithfulExecutor(src, step, exec) && FaithfulEntry(src, step, entry)
    requires LooksUp(entry, w, step, cached, missing) && Answers(cached, missing, w, exec, outcome)
    requires outcome.Answer?
    ensures Storable(src, w, step, outcome.data)
  {
    AnswerIsTransparent(src, entry, w, step, cached, missing, exec, outcome);
    if RunsWhole(cached, missing, w, exec) {
      ExecutedIsStorable(src, w, step, outcome.data);
    } else {
      forall e: Entry | Complete(e.point.ts, w, step) && Whole(src, step, e) ensures e in Contents(outcome.data) {
        EmittedWhenComplete(src, w, step, e);
      }
      forall e | e in Contents(outcome.data) && !e.point.partial ensures Whole(src, step, e) {
        UnflaggedIsWhole(src, entry, w, step, cached, missing, exec, outcome, e);
      }
    }
  }

  lemma UnflaggedIsWhole(src: Source, entry: Option<seq<Bucket>>, w: Window, step: u64, cached: Option<Data>,
                         missing: seq<Window>, exec: Executor, outcome: Outcome, e: Entry)
    requires step > 0 && w.start + step <= w.end && NoWrap(w, step)
    requires FaithfulExecutor(src, step, exec) && FaithfulEntry(src, step, entry) && entry.Some?
    requires LooksUp(entry, w, step, cached, missing) && Answers(cached, missing, w, exec, outcome)
    requires outcome.Answer? && !RunsWhole(cached, missing, w, exec)
    requires e in Contents(outcome.data) && !e.point.partial
    ensures Whole(src, step, e)
  {
    if cached.Some? {
      ServedIsStored(src, step, entry.value, w, cached.value, e);
    }
    if missing != [] {
      MergedFromOffers(src, step, cached, missing, exec, e);
      assert AllOnGrid(entry.value, step);
      if i :| 0 <= i < |missing| && Emits(src, missing[i], step, e) {
        assert missing[i] in missing;
        PartialIffNotComplete(e.point.ts, missing[i], step);
      }
    }
  }

  // ---- The range a store covers ----

  lemma CacheableRangeIsRounded(w: Window, step: u64, flux: u64)
    requires step > 0 && NoWrap(w, step)
    ensures CacheableRange(w, step, flux).0 == Ceil(w.start, step)
    ensures CacheableRange(w, step, flux).1 == Floor(Min(w.end, flux), step)
  {
    MultipleForms(w.start, step);
    RoundingForms(w.start, step);
    MultipleForms(Min(w.end, flux), step);
    RoundingForms(Min(w.end, flux), step);
  }

  /** A window shorter than a step is never stored. */
  lemma SubStepStoresNothing(w: Window, step: u64, flux: u64, result: Result)
    requires step > 0 && NoWrap(w, step) && w.end < w.start + step
    ensures NothingToStore(w, step, flux, result)
  {
    CacheableRangeIsRounded(w, step, flux);
    var lo, hi := Ceil(w.start, step), Floor(Min(w.end, flux), step);
    if lo < hi {
      GridGap(lo, hi, step);
    }
  }

  lemma StoredBucketIsFaithful(src: Source, w: Window, step: u64, flux: u64, result: Result, b: Bucket)
    requires step > 0 && NoWrap(w, step)
    requires MakesBucket(result) && Storable(src, w, step, result.data.value) && !NothingToStore(w, step, flux, result)
    requires StoredFrom(b, w, step, flux, result.data.value)
    ensures Faithful(src, step, b)
    ensures b.end <= flux
  {
    CacheableRangeIsRounded(w, step, flux);
    var d := result.data.value;
    forall e: Entry | Whole(src, step, e) && b.start <= e.point.ts && e.point.ts + step <= b.end
      ensures e in Contents(b.data)
    {
      WholeInRangeIsComplete(src, w, step, flux, b, e);
      assert e in Contents(d);
    }
  }

  lemma WholeInRangeIsComplete(src: Source, w: Window, step: u64, flux: u64, b: Bucket, e: Entry)
    requires step > 0 && b.start == Ceil(w.start, step) && b.end == Floor(Min(w.end, flux), step)
    requires Whole(src, step, e) && b.start <= e.point.ts && e.point.ts + step <= b.end
    ensures Complete(e.point.ts, w, step)
    ensures Cacheable(Min(w.end, flux))(e.point)
  {
    assert Of(e.point.ts) == e.point.ts;
  }

  lemma LastIsListed(buckets: seq<Bucket>, b: Bucket)
    requires LastOfRange(buckets, b)
    ensures b in buckets
  {
    var i :| LastAt(buckets, b, i);
  }

  /** A store keeps the list faithful, whatever list it read, and the one bucket it adds ends at or before its
      flux boundary. */
  lemma UpdateStaysFaithful(src: Source, existing: seq<Bucket>, w: Window, step: u64, flux: u64, result: Result,
                            updated: Option<seq<Bucket>>, added: Option<Bucket>)
    requires step > 0 && NoWrap(w, step) && FaithfulStore(src, step, existing)
    requires UpdatesWith(existing, w, step, flux, result, updated, added)
    requires MakesBucket(result) && w.start + step <= w.end ==> Storable(src, w, step, result.data.value)
    ensures updated.Some? ==> FaithfulStore(src, step, updated.value)
    ensures updated.Some? ==> forall b :: b in updated.value ==> b in existing || Some(b) == added
    ensures added.Some? ==> added.value.end <= flux
  {
    if updated.Some? {
      if w.end < w.start + step {
        SubStepStoresNothing(w, step, flux, result);
      }
      if MakesBucket(result) {
        StoredBucketIsFaithful(src, w, step, flux, result, added.value);
        forall b | b in updated.value ensures Faithful(src, step, b) && (b in existing || b == added.value) {
          LastIsListed(existing + [added.value], b);
        }
      } else {
        forall b | b in updated.value ensures Faithful(src, step, b) && b in existing {
          LastIsListed(existing, b);
        }
      }
    }
  }

  // ---- A stored range is served ----

  lemma StoredBucketIsListed(existing: seq<Bucket>, w: Window, step: u64, flux: u64, result: Result,
                             updated: Option<seq<Bucket>>, added: Option<Bucket>)
    requires MakesBucket(result) && !NothingToStore(w, step, flux, result)
    requires UpdatesWith(existing, w, step, flux, result, updated, added)
    ensures updated.Some? && added.Some? && added.value in updated.value
    ensures (added.value.start, added.value.end) == CacheableRange(w, step, flux)
  {
    assert LastAt(existing + [added.value], added.value, |existing|);
  }

  /** A window covered by one bucket misses nothing. */
  lemma CoveredMissesNothing(buckets: seq<Bucket>, b: Bucket, v: Window, step: u64, missing: seq<Window>)
    requires step > 0 && MissesExactly(buckets, v, step, missing)
    requires b in buckets && b.start <= v.start < v.end <= b.end && v.start % step == 0
    ensures missing == []
  {
    forall x | InWindow(x, v) ensures !InSome(x, missing) {
      assert InBucket(x, buckets);
    }
    if missing != [] {
      FirstInstantIsMissing(missing, v);
    }
  }

  lemma FirstInstantIsMissing(missing: seq<Window>, v: Window)
    requires Consecutive(missing, v) && missing != []
    ensures InWindow(missing[0].start, v) && InSome(missing[0].start, missing)
  {
    assert missing[0] in missing && InWindow(missing[0].start, missing[0]);
  }

  /** After a store, every aligned window inside the stored range is answered from the cache alone, with the
      direct answer. */
  lemma StoredRangeIsServed(src: Source, existing: seq<Bucket>, w: Window, step: u64, flux: u64, result: Result,
                            updated: Option<seq<Bucket>>, v: Window, cached: Option<Data>, missing: seq<Window>)
    requires step > 0 && NoWrap(w, step) && NoWrap(v, step) && FaithfulStore(src, step, existing)
    requires MakesBucket(result) && Storable(src, w, step, result.data.value) && !NothingToStore(w, step, flux, result)
    requires Updates(existing, w, step, flux, result, updated)
    requires CacheableRange(w, step, flux).0 <= v.start < v.end <= CacheableRange(w, step, flux).1
    requires Aligned(v.start, step) && Aligned(v.end, step)
    requires LooksUp(updated, v, step, cached, missing)
    ensures missing == []
    ensures cached.Some? && Executed(src, v, step, cached.value)
  {
    var added :| UpdatesWith(existing, w, step, flux, result, updated, added);
    UpdateStaysFaithful(src, existing, w, step, flux, result, updated, added);
    GridGap(v.start, v.end, step);
    StoredBucketIsListed(existing, w, step, flux, result, updated, added);
    var stored := added.value;
    assert AllOnGrid(updated.value, step);
    CoveredMissesNothing(updated.value, stored, v, step, missing);
    var exec: Executor := (n, u) => None;
    NothingMissingMeansServed(updated, v, step, cached, missing);
    AnswerIsTransparent(src, updated, v, step, cached, missing, exec, Answer(cached.value, false));
  }
}
