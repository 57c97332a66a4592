# Verified model of the query service's core logic

A Dafny 4.11 model of the parts of SigNoz whose correctness spans several functions: the range-bucket
query cache, windowed listing, the two filter compilers, the service start protocol, edit distance,
epoch and step arithmetic, and the scalar join. `dafny verify dfyconfig.toml` checks everything.

## What is modelled

**The query cache** (`TimeSeries`, `SeriesMerge`, `QueryWindow`, `MissingRanges`, `BucketCache`,
`CachedExecution`, `CacheTransparency`, `CacheStore`, `CacheHistory`, `TrailingExample`). The telemetry
store is an immutable function from a series and a half-open interval to a value; a direct execution emits,
for every aligned interval that meets the window, the value of its part inside the window and a partial
flag. The cache slot is a class holding a bucket list. Arithmetic is on 64-bit words that wrap; the theorems ask that a window's
ends plus one step stay below 2^64 (`NoWrap`). `CacheHistory` is a state machine in which any number of calls
interleave, a store being a read step followed by a write step that overwrites whatever is there by then,
and the entry may vanish at any step. Main result: `CacheHistory.CacheIsTransparent`.

**Windowed listing** (`EpochTime`, `StepInterval`, `WindowSlices`, `SliceLoop`, `WindowList`). Slices of
doubling length partition the window; paging over them refines "order everything, then slice".

**The contradiction detector** (`LikePatterns`, `Constraints`, `Findings`, `Contradictions`,
`ContradictionSoundness`, `ContradictionLimits`, `NegatedRanges`, `BetweenProbes`, `LikePanics`). A class with the
walk's two stacks, proved against a functional walk, which is proved sound against the meaning of filters over
records of reals. The detection returns its reports or panics.

**The WHERE-clause compiler** (`WhereClause`, `WhereMeaning`, `WhereExactness`). Skipped and failed conditions
are the two sentinel literals; expressions have the shape that the grammar gives them, an OR of ANDs of unary
expressions, and no sentinel reaches their clause; the clause is compared with the filter row by row.

**The start protocol** (`DependencyGraph`, `Registry`, `RegistryProgress`). One goroutine a service as a step
system over program counters, channels that count how often they are closed, the capacity-1 start channel and
the health watcher.

**Edit distance** (`EditDistance`) and **the scalar join** (`ScalarJoin`, `ScalarSort`).

## Where the code does less than it seems to promise

- *Trailing interval.* For an unaligned end the cache may serve a stored whole value where a direct execution
  reports a partial one: `TrailingAgreement` says exactly when the two agree, `StoredTrailingWins` that the
  whole value wins, `TrailingDifferenceIsReached` that a run gets there.
- *Detector.* Overlapping IN and NOT IN lists are reported although a record may satisfy both
  (`InAgainstNotIn`); equalities are compared by text, so `1` and `1.0` contradict (`EqualByText`); an IN without
  brackets has no values, so `f = 1 AND f IN 1` is reported (`InWithoutBrackets`); a range comparison under NOT is
  taken to require its field, so `NOT f < 5 AND NOT f > 3` is reported although every record without f satisfies it
  (right exactly under `ReportIsRightExactly` and `OneFieldReportIsRightExactly`; `NegatedRangesAreReported` and
  `NegatedRangeAgainstMissing` are wrong ones); NOT over AND is treated as if it were over OR
  (`NegatedAndIsReported`, right exactly under `NegatedAndReportIsRightExactly`); several NOT BETWEENs are only
  probed at three values (`BetweenExcludedIsRightExactly`). LIKE patterns are read literally but for a `%` at
  either end, which decides LIKE exactly for the patterns with no other wildcard (`ShortcutDecidesLikeExactly`,
  `InnerWildcardIsMissed`), and ILIKE is matched with regard to case, so `f = 'ABC' AND f ILIKE 'abc'` is reported
  (`ShortcutDecidesILikeExactly`, `CaseIsMissed`). A lone `%` beside an equality on its field is sliced out of
  range and ends the detection with a panic: `PanicsExactly` says for which filters, `ConjunctionPanicsExactly` for
  which conjunctions, `SatisfiablePanic` names one, and `OrderDecides` one that panics in one order of its parts
  and not in the other.
- *WHERE clause.* An AND under NOT that mixes skipped and kept operands loses rows: `ClauseKeepsRowsExactly`
  gives the exact condition.
- *Epochs.* `ToNanoSecs` keeps order among epochs of one digit count; between any two digit counts it does not
  (`OrderKeptInOneUnit`, `OrderLostAcrossUnits`); twenty digits become zero.
- *Steps.* The minimum step does not always keep a range within 1500 points (`MaxPointsKeptExactly`), and the
  meter recommendation can be below the meter minimum (`MeterRecommendationBelowMinimumExactly`).
- *Slices.* When the doubling slices would pass the epoch the last subtraction wraps (`WrapsExactly`) and a slice
  is emitted that begins after it ends, so that the window is cut as intended exactly when it is at most an hour or
  nothing wraps (`SlicesExactlyWithoutWrap`). The loop ends within 51 rounds or never (`EndsWithinRoundsOrNever`);
  from a start of zero it may never end (`ZeroStartEndsExactly`, `ZeroStartNeverEnds`). For logs a slice bound of
  zero is left out of the statement, for traces a start of zero selects nothing (`RunSlice`).
- *Scalar join.* Group keys are printed with blanks between cells, so keys with blanks in them can collide
  (`NoKeyIsLostExactly`, `BlanksCollide`).

## Model

| member | source | states |
|---|---|---|
| CacheHistory.CacheIsTransparent | pkg/querier/querier.go:738-838 | In every run of interleaved calls (begin, read, write, forget), every answer over at least one step equals the direct execution outside the trailing interval, and everywhere when the end is aligned; over a window that is not empty the nil result is never dereferenced. |
| CacheHistory.StoreStaysFaithful | pkg/querier/bucket_cache.go:97-192 | In every state of every run the stored list is sorted by start, repeats no range, is non-empty and step-aligned bucket by bucket, holds whole unflagged values only and all of them for each range, and each bucket was made by a store and ends at or before the flux boundary of that store. |
| CacheHistory.RunKeepsInv | pkg/querier/bucket_cache.go:97-192 | The invariant of the two properties above holds after every step of every run. |
| CacheHistory.NextKeepsInv | pkg/querier/bucket_cache.go:97-192 | One step keeps it: a lookup, a store's read, a store's write over whatever another caller has written meanwhile, or an eviction. |
| CacheHistory.ExecuteWithCache | pkg/querier/querier.go:738-838 | The executable path: lookup, answer, store. The new cache slot is the store's merge or the old slot, and the answer is transparent when the slot was faithful. |
| CacheTransparency.AnswerIsTransparent | pkg/querier/querier.go:738-838 | From one faithful entry, the cached answer is the direct one up to the trailing interval, in both directions of membership. |
| CacheTransparency.TrailingAgreement | pkg/querier/bucket_cache.go:133-165 | On the trailing unaligned interval the merged answer is the direct one if and only if no overlapping bucket stores a point there and, if the source has one, the interval is re-queried. |
| CacheTransparency.StoredTrailingWins | pkg/querier/querier.go:959-1091 | A stored whole value is served where a direct execution reports a partial one. |
| TrailingExample.TrailingDifferenceIsReached | pkg/querier/querier.go:738-838 | A concrete run reaches the difference: one call over an aligned window, its store, then a call over a window ending inside a step, answered from the cache and not with what a direct execution answers. |
| CacheTransparency.LeadIsReExecuted | pkg/querier/bucket_cache.go:202-316 | The leading partial interval is always executed again. |
| CacheTransparency.LeadIsExecutedNotServed | pkg/querier/bucket_cache.go:202-316 | What a direct execution emits before the window starts is executed again, and no served point is stamped before the window starts. |
| CacheTransparency.MergedFromOffers | pkg/querier/querier.go:895-956 | The merge takes nothing that neither cache nor a ranged query offers, and every point no other offer contests. |
| CacheTransparency.NilDereferenceExactly | pkg/querier/querier.go:738-838 | On the zero-step or sub-step path the merge is left with nothing exactly when the entry exists, the window is empty and no bucket overlaps it. |
| CacheTransparency.NonEmptyWindowIsAnswered | pkg/querier/querier.go:818-833 | Over a window that is not empty, on either path, the merge always has a cached or a fresh result. |
| CachedExecution.Combine | pkg/querier/querier.go:754-838 | The answer for what the lookup returned: served whole, run whole, run whole after a failed range, or merged. |
| CachedExecution.ServedIsStored | pkg/querier/bucket_cache.go:427-558 | Buckets of a faithful store cannot disagree: the lookup serves exactly the stored points of the window, in whatever order equal starts are sorted. |
| CachedExecution.UncontestedSurvives | pkg/querier/querier.go:959-1091 | A point that no other input contradicts survives the merge. |
| CacheStore.AnswerIsStorable | pkg/querier/querier.go:812-838 | Whatever is answered may be stored: its unflagged points are whole values and no complete interval of the window is absent. |
| CacheStore.UpdateStaysFaithful | pkg/querier/bucket_cache.go:97-192 | A store keeps any faithful list faithful, whichever list it read, and the bucket it adds ends at or before its flux boundary. |
| CacheStore.StoredRangeIsServed | pkg/querier/bucket_cache.go:40-94 | After a store, each aligned window inside the stored range misses nothing and is answered from the cache with the direct answer. |
| CacheStore.CacheableRangeIsRounded | pkg/querier/bucket_cache.go:140-165 | The 64-bit rounding of Put is the start rounded up and the smaller of end and flux boundary rounded down. |
| CacheStore.SubStepStoresNothing | pkg/querier/bucket_cache.go:140-170 | A window shorter than a step is never stored. |
| BucketCache.BucketCache.GetMissRanges | pkg/querier/bucket_cache.go:40-94 | Missing ranges and served data for the stored list, or the whole window when there is no entry. |
| BucketCache.BucketCache.Put | pkg/querier/bucket_cache.go:97-192 | The new entry is the deduplicated merge of the old one with the trimmed, rounded bucket, or unchanged. |
| BucketCache.BucketCache.Forget | pkg/querier/bucket_cache.go:40-62 | An expired or evicted entry is no entry. |
| BucketCache.Lookup | pkg/querier/bucket_cache.go:40-94 | Served data is the merge of the overlapping buckets cut to the window; nothing is served exactly when none overlaps. |
| BucketCache.Update | pkg/querier/bucket_cache.go:97-192 | What a store writes for any list it reads: nothing, or the deduplicated list with the trimmed, rounded bucket added. |
| BucketCache.MergeAndDeduplicateBuckets | pkg/querier/bucket_cache.go:644-678 | Sorted by start, no repeated range, and for every range the last listed bucket and no other. |
| BucketCache.TrimResultToFluxBoundary | pkg/querier/bucket_cache.go:700-752 | Keeps exactly the unflagged points at or before the boundary; raw, scalar and trace results yield nothing. |
| BucketCache.KeepInData | pkg/querier/bucket_cache.go:769-825 | Filtering keeps exactly the points that pass, whether or not emptied aggregations are dropped. |
| BucketCache.FilterRelevantBuckets | pkg/querier/bucket_cache.go:401-424 | The overlapping buckets, each as often as listed, sorted by start. |
| BucketCache.IsEmptyResult | pkg/querier/bucket_cache.go:561-608 | Empty exactly when it is no time series or holds no point; filtered exactly when it is an empty time series that lists an aggregation. |
| BucketCache.ResultToBuckets | pkg/querier/bucket_cache.go:611-641 | One bucket for a time series with an aggregation, none otherwise. |
| MissingRanges.FindMissingRangesWithStep | pkg/querier/bucket_cache.go:202-316 | On grid buckets: sorted, disjoint, non-empty ranges, aligned except at the window's ends, whose instants are the leading partial interval and exactly the instants no bucket covers; on the zero-step or sub-step path exactly the complement of the buckets. |
| MissingRanges.SearchSorted | pkg/querier/bucket_cache.go:245-316 | The sweep over the sorted buckets finds exactly that. |
| MissingRanges.PassBucket | pkg/querier/bucket_cache.go:271-308 | One step of the sweep decides exactly the instants up to the bucket's end. |
| MissingRanges.LeadingRange | pkg/querier/bucket_cache.go:258-269 | The leading partial interval becomes a range of its own. |
| MissingRanges.FindMissingRangesBasic | pkg/querier/bucket_cache.go:319-398 | Exactly the complement of the non-empty buckets in the window, as sorted disjoint ranges. |
| QueryWindow.PartialIffNotComplete | pkg/querier/consume.go:75-101 | A grid timestamp whose interval meets the window is flagged partial if and only if its interval is not inside the window. |
| QueryWindow.UnflaggedAreBetweenRoundedEnds | pkg/querier/bucket_cache.go:140-165 | The unflagged timestamps are exactly those between the store's rounded-up start and rounded-down end. |
| SeriesMerge.MergeTimeSeriesValues | pkg/querier/bucket_cache.go:460-558 | The flat-key merge computes the left-biased union, one series per key, timestamps strictly increasing. |
| SeriesMerge.MergeTimeSeriesResults | pkg/querier/querier.go:959-1091 | The nested-map merge computes the same left-biased union, cached data first. |
| SeriesMerge.AppendNewTimestamps | pkg/querier/querier.go:1025-1038 | Appends exactly the points whose timestamps are new. |
| TimeSeries.MergeKeepsFirstSeen | pkg/querier/bucket_cache.go:460-558 | The union holds a point if and only if it is the first one listed for its series and timestamp. |
| TimeSeries.MergeTimestamps | pkg/querier/bucket_cache.go:460-558 | No timestamp is lost or invented. |
| TimeSeries.MergeIsSingleValued | pkg/querier/querier.go:959-1091 | One value per series and timestamp when no input repeats a timestamp. |
| SliceLoop.MakeBuckets | pkg/querier/list_range.go:10-36 | Whenever the loop ends, the slices are those of its rounds up to the first that reaches the start, in 64-bit arithmetic; a window of at most an hour is one slice. |
| SliceLoop.GrowingSlices | pkg/querier/list_range.go:19-34 | The loop alone. |
| SliceLoop.CutsIntoSlices | pkg/querier/list_range.go:10-36 | Where nothing wraps the slices run contiguously from end back to start, the i-th being 2^i hours except the last. |
| SliceLoop.CuttableWithoutWrap | pkg/querier/list_range.go:10-36 | Where nothing wraps the loop ends. |
| SliceLoop.SlicesExactlyWithoutWrap | pkg/querier/list_range.go:10-36 | A window that the loop cuts is cut into those slices if and only if it is at most an hour long or nothing wraps; otherwise some emitted slice begins after it ends. |
| SliceLoop.WrappedSlice | pkg/querier/list_range.go:19-34 | Without the no-wrap condition the loop reaches the round that passes the epoch and emits there a slice that begins after it ends. |
| SliceLoop.EndsWithinRoundsOrNever | pkg/querier/list_range.go:19-34 | For every window the loop ends if and only if one of its first 51 rounds stops: by then the doubled bucket is zero modulo 2^64. |
| SliceLoop.ZeroStartEndsExactly | pkg/querier/list_range.go:19-34 | From a start of zero the loop ends if and only if the end is, modulo 2^64, one of the spans of 1 to 51 whole slices. |
| SliceLoop.ZeroStartNeverEnds | pkg/querier/list_range.go:19-34 | From zero to any time in milliseconds that is a multiple of 256 the loop never ends. |
| WindowSlices.SlicesAreNeeded | pkg/querier/list_range.go:19-34 | n slices mean the window is longer than 2^(n-1) - 1 hours and at most 2^n - 1 hours. |
| WindowSlices.SlicesAreUnique | pkg/querier/list_range.go:19-34 | A non-empty window has only one such list. |
| WindowSlices.RecentWindowsDoNotWrap | pkg/querier/list_range.go:19-26 | end + 1h <= 2 * start is enough for no subtraction to wrap. |
| WindowSlices.WrapsExactly | pkg/querier/list_range.go:22-26 | The subtraction that would reach the start stays above zero if and only if the no-wrap condition holds; without it the difference wraps to a time after the one it was taken from. |
| WindowSlices.BoundariesAreExact | pkg/querier/builder_query.go:368 | With windows in milliseconds or coarser units every boundary is read by the statement as it is. |
| WindowSlices.RereadIsFloor | pkg/querier/builder_query.go:368 | Any nineteen-digit boundary is read as its last whole millisecond. |
| WindowList.ExecuteWindowList | pkg/querier/builder_query.go:279-421 | Whenever the slicing ends, the rows are the requested page of what the visited slices select, and every slice query has a limit of at least 1; for a window that starts after zero and does not wrap, in either order and whatever unit, that is exactly rows [offset, offset + limit) of the ordered window in whole milliseconds. |
| WindowList.PageThrough | pkg/querier/builder_query.go:362-398 | Paging with a shrinking need over any list of slices gives the page of what the slices select one after the other. |
| WindowList.MillisecondWindowIsItself | pkg/querier/builder_query.go:368 | A window in milliseconds or a coarser unit is not rounded. |
| WindowList.TakeRows | pkg/querier/builder_query.go:385-394 | Skipping and appending keeps the rows a page of all rows seen so far. |
| WindowList.Reverse | pkg/querier/builder_query.go:354-360 | The swaps reverse the slices. |
| WindowList.BetweenSplits | pkg/querier/builder_query.go:352-362 | An ordered listing of a range is the listings of its two parts one after the other, in the order asked for. |
| WindowList.BetweenCounts | pkg/telemetrylogs/statement_builder.go:671-676 | A half-open range holds each row of the store as often as the store does, and none outside. |
| WindowList.RunSlice | pkg/telemetrylogs/statement_builder.go:323-328 | The first rows of the slice in order, as many as the limit or 100 without a positive one; a bound of zero is left open for logs and selects nothing for traces. |
| WindowList.SelectedIsBetween | pkg/telemetrylogs/statement_builder.go:671-676 | Between bounds other than zero the statements of both signals select the same half-open range. |
| EpochTime.ToNanoSecs | pkg/querybuilder/time.go:22-34 | The digit-counting loop computes the scaled epoch. |
| EpochTime.ScaledToNineteenDigits | pkg/querybuilder/time.go:22-34 | Below 10^19 nothing wraps and the result has nineteen digits; from 10^19 on it is zero. |
| EpochTime.ConvertingTwice | pkg/querybuilder/time.go:22-34 | The conversion is idempotent on all 64-bit inputs. |
| EpochTime.OrderKeptInOneUnit | pkg/querybuilder/time.go:22-34 | For equal digit counts below 10^19 order is preserved both ways, and the epoch is recovered by division. |
| EpochTime.OrderLostAcrossUnits | pkg/querybuilder/time.go:22-34 | For any two different digit counts some pair is converted the wrong way round. |
| EpochTime.DigitsBetweenPowers | pkg/querybuilder/time.go:25-32 | d digits means lying between 10^(d-1) and 10^d. |
| StepInterval.RecommendedIsAllowed | pkg/querybuilder/time.go:38-64 | The recommended step is never below the minimum, so a defaulted step is never overridden. |
| StepInterval.TwiceAsManyPointsAtMost | pkg/querybuilder/time.go:38-64 | A range has fewer than 2N steps, and at least N when the step is not the floor of 5 s. |
| StepInterval.MaxPointsKeptExactly | pkg/querybuilder/time.go:52-64 | The minimum step keeps the range within 1500 points if and only if the range is under 7500 s or a whole multiple of it. |
| StepInterval.MetricStepIsRound | pkg/querybuilder/time.go:109-155 | The metric step, recommended and minimum alike, is a positive multiple of a minute, of 5 min from a day on, of 30 min from a week on. |
| StepInterval.MeterRecommendationBelowMinimumExactly | pkg/querybuilder/time.go:66-107 | The meter recommendation falls below its minimum if and only if a range of 30 days or more has a minimum past a whole day by less than half a day. |
| StepInterval.AdjustSteps | pkg/querier/querier.go:160-276 | The pass rewrites each query's step in place and warns for exactly the queries whose given step was too small. |
| StepInterval.AdjustStep | pkg/querier/querier.go:184-195 | One query's step: filled in when missing, then raised to the minimum, with or without a warning. |
| StepInterval.AdjustedStepIsAllowed | pkg/querier/querier.go:184-195 | After the pass steps are allowed, allowed steps are kept, defaults are not overridden (meter aside), warnings concern given steps only, and a second pass changes nothing. |
| StepInterval.RangeIsTheLength | pkg/querybuilder/time.go:38-42 | For one unit the unsigned difference is the true length of the range. |
| Constraints.CheckRangeContradictions | pkg/querybuilder/never_true.go:688-763 | True if and only if no real satisfies every numeric range constraint. |
| Constraints.HasCommonIntersection | pkg/querybuilder/never_true.go:648-685 | True if and only if some real lies in all BETWEEN intervals. |
| Constraints.CollectBounds | pkg/querybuilder/never_true.go:691-728 | The bounds collected are satisfied by exactly the reals that satisfy the range constraints. |
| Constraints.NegateComplements | pkg/querybuilder/never_true.go:865-910 | Negation is an involution on all operators and the complement, except for range comparisons on a missing field, where both sides fail. |
| Findings.FindContradictionsInConstraints | pkg/querybuilder/never_true.go:416-645 | Finds exactly the kinds that hold of the field's constraints, LIKE against equality included, and panics exactly when an equality stands beside a LIKE or ILIKE of a lone `%`. |
| LikePatterns.ShortcutDecidesLikeExactly | pkg/querybuilder/never_true.go:823-833 | For any pattern but a lone `%` the matcher decides LIKE on all texts if and only if the only wildcards are `%` at the ends. |
| LikePatterns.ShortcutDecidesLike | pkg/querybuilder/never_true.go:823-833 | Where the only wildcards are `%` at the ends, matcher and LIKE agree on each text. |
| LikePatterns.InnerWildcardIsMissed | pkg/querybuilder/never_true.go:823-833 | For every pattern with a wildcard elsewhere, the text without its `%` and with an `x` for each `_` is liked and not matched. |
| LikePatterns.ShortcutDecidesILikeExactly | pkg/querybuilder/never_true.go:823-833 | The same matcher decides ILIKE on all texts if and only if, moreover, the pattern holds no letter. |
| LikePatterns.CaseIsMissed | pkg/querybuilder/never_true.go:823-833 | For every other pattern ILIKE accepts a text that the matcher rejects. |
| Findings.FindingIsJustified | pkg/querybuilder/never_true.go:416-645 | Whatever is found among clean constraints of one field, no record satisfies them all. |
| Findings.OverlapReportExactly | pkg/querybuilder/never_true.go:416-645 | IN against NOT IN is reported when the lists overlap; both can hold when some value is not excluded. |
| Contradictions.LogicalContradictionDetector.VisitFilter | pkg/querybuilder/never_true.go:113-180 | The walk with its two stacks computes the functional walk and leaves both stacks as they were below the top. |
| Contradictions.LogicalContradictionDetector.VisitComparison | pkg/querybuilder/never_true.go:203-343 | Extraction, negation under NOT, the EXISTS side constraint, and the immediate check. |
| Contradictions.LogicalContradictionDetector.VisitOrExpression | pkg/querybuilder/never_true.go:127-149 | Each branch starts from the constraints collected before the OR, which are restored after it. |
| Contradictions.LogicalContradictionDetector.VisitAndExpression | pkg/querybuilder/never_true.go:152-161 | The parts share one constraint set. |
| Contradictions.LogicalContradictionDetector.CheckContradictions | pkg/querybuilder/never_true.go:403-413 | Adds the findings of every field of the set on top of the stack. |
| Contradictions.DetectContradictions | pkg/querybuilder/never_true.go:36-83 | Panics if and only if some check of the walk meets a lone `%`, and otherwise returns the reports of the whole walk. |
| LikePanics.PanicsExactly | pkg/querybuilder/never_true.go:127-180 | For every filter, the detection panics on a field if and only if, inside some AND, an equality on it and a lone `%` on it (read under the NOTs around them) stand in different parts, and the one in the earlier part is in no OR of several branches within that part. |
| LikePanics.WalkPanics | pkg/querybuilder/never_true.go:127-180 | The same for a walk that starts with constraints already collected. |
| LikePanics.ConjunctionPanicsExactly | pkg/querybuilder/never_true.go:628-643 | A conjunction of comparisons panics if and only if it has an equality and a LIKE or ILIKE of a lone `%` on one field. |
| LikePanics.PanicIsInOneDisjunct | pkg/querybuilder/never_true.go:127-180 | In the fragment the two stand in one disjunct of the disjunctive normal form. |
| LikePanics.OrLeavesNothing | pkg/querybuilder/never_true.go:134-146 | An OR of several branches in front of a filter adds no panic to those of either alone. |
| LikePanics.OrderDecides | pkg/querybuilder/never_true.go:134-146 | `f LIKE '%' AND (f = v OR g = v)` panics; with its parts exchanged it does not. |
| LikePanics.SatisfiablePanic | pkg/querybuilder/never_true.go:628-643 | `f = v AND f LIKE '%'` panics, and is satisfied by v wherever `%` accepts it. |
| ContradictionSoundness.ReportComesFromDisjunct | pkg/querybuilder/never_true.go:127-180 | In the fragment, whatever the literals, every report is found among the extracted constraints of one disjunct of the disjunctive normal form. |
| ContradictionSoundness.ReportsAreSound | pkg/querybuilder/never_true.go:127-180 | Over clean literals no record satisfies the extracted constraints of that disjunct, among which a range comparison under NOT demands its field. |
| ContradictionSoundness.ReportedFilterIsNeverTrue | pkg/querybuilder/never_true.go:36-83 | An OR-free reported filter over clean literals, with its IN lists in brackets, is satisfied by no record that has every field on which it has a range comparison under NOT; NegatedRanges.ReportIsRightExactly settles the records without them. |
| ContradictionSoundness.SatisfiesSomeDisjunct | pkg/querybuilder/never_true.go:127-180 | A record satisfies a filter, or its negation, only through some disjunct. |
| ContradictionSoundness.DisjunctSuffices | pkg/querybuilder/never_true.go:127-180 | Conversely, satisfying a disjunct suffices. |
| ContradictionSoundness.VisitStaysInDisjunct | pkg/querybuilder/never_true.go:113-180 | The walk collects within one disjunct of what it walks. |
| ContradictionLimits.InAgainstNotIn | pkg/querybuilder/never_true.go:416-645 | `f IN A AND f NOT IN B` is reported exactly on overlap and unsatisfiable exactly on inclusion. |
| ContradictionLimits.EqualByText | pkg/querybuilder/never_true.go:416-645 | Two equalities are reported exactly when their texts differ and unsatisfiable exactly when their numbers do. |
| NegatedRanges.ReportIsRightExactly | pkg/querybuilder/never_true.go:164-180 | Every OR-free filter of comparisons over clean literals that is reported on a field is never true if and only if one of its comparisons on that field, read under its NOTs, is false of a record without the field, or those on other fields are never true together. |
| NegatedRanges.EvalByLeaves | pkg/querybuilder/never_true.go:164-180 | Such a filter means that each of its comparisons, read under its NOTs, holds. |
| NegatedRanges.LeavesOfConjunction | pkg/querybuilder/never_true.go:152-161 | Of a conjunction of comparisons, each under NOT or not, these are the conjuncts. |
| NegatedRanges.OneFieldReportIsRightExactly | pkg/querybuilder/never_true.go:164-180 | On one field: such a report is right if and only if some comparison is a positive operator without NOT or a negative one under NOT. |
| NegatedRanges.SatisfiedWithoutField | pkg/querybuilder/never_true.go:416-645 | Every record that has the reported field falsifies some comparison of the filter. |
| NegatedRanges.NegatedRangesAreReported | pkg/querybuilder/never_true.go:203-343 | A wrong one: `NOT f < u AND NOT f > v` with u > v is reported and satisfied by exactly the records without f. |
| NegatedRanges.NegatedRangeAgainstMissing | pkg/querybuilder/never_true.go:203-343 | Another: `NOT f < v AND f NOT EXISTS` is always reported and satisfied by exactly the records without f. |
| ContradictionLimits.InWithoutBrackets | pkg/querybuilder/never_true.go:365-376 | `f = u AND f IN v` without brackets is always reported, and unsatisfiable if and only if u and v are different numbers. |
| ContradictionLimits.NegatedAndIsReported | pkg/querybuilder/never_true.go:164-180 | For any two comparisons, `NOT (a AND b)` is reported exactly when a check finds something in the constraints of NOT a and NOT b together, and never true exactly when no record falsifies a and none falsifies b. |
| ContradictionLimits.NegatedAndReportIsRightExactly | pkg/querybuilder/never_true.go:164-180 | Over numeric comparisons such a report is right if and only if both exclude nothing: NOT IN an empty list, or NOT BETWEEN bounds the wrong way round. |
| ContradictionLimits.NegatedInequalitiesAreReported | pkg/querybuilder/never_true.go:164-180 | A wrong one: `NOT (f != u AND f != v)` with two numbers. |
| BetweenProbes.ReportedByProbes | pkg/querybuilder/never_true.go:595-626 | A BETWEEN with any number of NOT BETWEENs on its field is reported exactly when both ends and the midpoint are covered. |
| BetweenProbes.NeverTrueWhenCovered | pkg/querybuilder/never_true.go:595-626 | It is never true exactly when the whole range is covered. |
| BetweenProbes.BetweenExcludedIsRightExactly | pkg/querybuilder/never_true.go:595-626 | So the report is right if and only if the whole range is covered, and on a range that is not empty a right report is never missed. |
| BetweenProbes.OneRangeIsProbedExactly | pkg/querybuilder/never_true.go:595-626 | With one NOT BETWEEN report and truth coincide. |
| BetweenProbes.ProbesCanBeWrong | pkg/querybuilder/never_true.go:595-626 | With three point ranges at the probes the report is wrong. |
| ContradictionLimits.RangeConjunctionsAreExact | pkg/querybuilder/never_true.go:688-763 | A conjunction of numeric range comparisons gets a range report if and only if no record satisfies it. |
| WhereClause.FilterExpressionVisitor.VisitFilter | pkg/querybuilder/where_clause_visitor.go:238-366 | Node by node the visitor computes the functional visit and adds its errors. |
| WhereClause.FilterExpressionVisitor.VisitOrExpression | pkg/querybuilder/where_clause_visitor.go:238-262 | A skipped or failed branch ends the OR and is its result. |
| WhereClause.FilterExpressionVisitor.VisitAndExpression | pkg/querybuilder/where_clause_visitor.go:265-290 | Skipped and failed parts are left out; an AND of none is skipped. |
| WhereClause.PrepareWhereClause | pkg/querybuilder/where_clause_visitor.go:97-178 | For every parsed expression: clause, nothing, or the recorded errors; an OR anywhere turns resource skipping off. |
| WhereClause.VisitIsClean | pkg/querybuilder/where_clause_visitor.go:238-320 | A visited condition is a bare sentinel or contains none. |
| WhereClause.PreparedClauseIsClean | pkg/querybuilder/where_clause_visitor.go:161-177 | No prepared clause holds a sentinel, whatever is skipped and whatever fails, recorded or not. |
| WhereClause.ExpressionDropsErrors | pkg/querybuilder/where_clause_visitor.go:265-290 | A parsed expression is visited to a clean condition or to the skip sentinel, never to the error sentinel. |
| WhereMeaning.NothingExactlyWhenSkipped | pkg/querybuilder/where_clause_visitor.go:168-173 | Without recorded errors nothing is prepared if and only if the filter is skipped as a whole. |
| WhereMeaning.SkippedExactly | pkg/querybuilder/where_clause_visitor.go:238-320 | A node is visited to a sentinel if and only if it is skipped, read off the filter: an OR with any branch, an AND with all parts, a comparison that no key reaches or that fails to build. |
| WhereMeaning.ClauseKeepsRows | pkg/querybuilder/where_clause_visitor.go:238-320 | When conditions are dropped safely every row of the filter satisfies the emitted clause. |
| WhereMeaning.CompiledIsWeaker | pkg/querybuilder/where_clause_visitor.go:238-320 | Weaker at positive, stronger at negative polarity, through every connective. |
| WhereMeaning.NothingSkippedIsExact | pkg/querybuilder/where_clause_visitor.go:238-320 | With nothing skipped clause and filter are equivalent. |
| WhereMeaning.SplitIsExact | pkg/querybuilder/where_clause_visitor.go:264-290 | For filters without an OR of two branches, with one-sided leaves and NOT over what is wholly on one side, the main and resource conditions together select exactly the rows of the filter. |
| WhereMeaning.PreparedSplitIsExact | pkg/querybuilder/where_clause_visitor.go:97-178 | The same for the prepared clauses, neither of which is invalid. |
| WhereMeaning.OrKeepsResourceConditions | pkg/querybuilder/where_clause_visitor.go:122-128 | A filter with an OR keeps its resource conditions in the main clause, which is then equivalent to the filter. |
| WhereExactness.ClauseKeepsRowsExactly | pkg/querybuilder/where_clause_visitor.go:264-306 | For filters reading each condition once, the clause lets every row of the filter through if and only if conditions are dropped safely. |
| WhereExactness.UnsafeIsBetrayed | pkg/querybuilder/where_clause_visitor.go:264-306 | An unsafe drop has a row that shows it. |
| DependencyGraph.TopologicallySortable | pkg/factory/registry.go:214-250 | Accepts exactly the acyclic graphs, with a rank that falls along dependencies. |
| DependencyGraph.NewRegistry | pkg/factory/registry.go:30-79 | Unknown and self dependencies are dropped; no services, duplicate names and cycles are rejected, nothing else. |
| DependencyGraph.LinkServices | pkg/factory/registry.go:52-66 | The graph has a node a service and its known, non-self dependencies in order. |
| DependencyGraph.StuckHasCycle | pkg/factory/registry.go:214-250 | A non-empty set of services that all depend inside it contains a cycle. |
| Registry.NoDeadlock | pkg/factory/registry.go:81-133 | If in a reachable state a service waits and the registry cannot step, it waits, directly or not, on a service that is inside Start without having signalled health; blocked senders play no part. |
| RegistryProgress.InternalStepsRunOut | pkg/factory/registry.go:81-133 | However services and callers behave, the number of the registry's own steps is bounded by the work that remains. |
| RegistryProgress.InternalStepsFall | pkg/factory/registry.go:81-133 | No step adds to that work and each of the registry's own steps takes something off it. |
| Registry.StartOrderIsSafe | pkg/factory/registry.go:81-133 | A started service has all transitive dependencies started and their healthyC closed. |
| Registry.FailuresTraceBack | pkg/factory/registry.go:81-133 | Every dependency failure traces along dependencies to a service whose Start returned or to a cancelled context. |
| Registry.ChannelsCloseOnce | pkg/factory/state.go:58-69 | healthyC and startReturnedC are each closed at most once in every run. |
| Registry.AwaitedMeansHealthy | pkg/factory/registry.go:173-190 | When AwaitHealthy returns without error every service was started and became healthy. |
| Registry.RunKeepsInv | pkg/factory/registry.go:81-133 | The protocol invariant holds in every reachable state. |
| Registry.StepKeepsInv | pkg/factory/registry.go:81-133 | Each of the fifteen kinds of step keeps it. |
| Registry.ServiceWithState.SetState | pkg/factory/state.go:58-69 | The state is set and healthyC closed on the first move to Running only. |
| EditDistance.Levenshtein | pkg/querybuilder/having_expression_validator.go:464-485 | The single-row loop computes the distance recurrence. |
| EditDistance.UpdateRow | pkg/querybuilder/having_expression_validator.go:470-483 | One pass turns the row of distances for i-1 characters into that for i. |
| EditDistance.DistanceIsMinimal | pkg/querybuilder/having_expression_validator.go:464-485 | The distance is the length of a shortest insert/delete/substitute script. |
| EditDistance.Symmetric | pkg/querybuilder/having_expression_validator.go:464-485 | Symmetric. |
| EditDistance.Triangle | pkg/querybuilder/having_expression_validator.go:464-485 | Triangle inequality. |
| EditDistance.ZeroIffEqual | pkg/querybuilder/having_expression_validator.go:464-485 | Zero if and only if the strings are equal. |
| EditDistance.ClosestMatch | pkg/querybuilder/having_expression_validator.go:453-461 | The first candidate attaining the minimum distance; empty and -1 for none. |
| ScalarJoin.MergeScalarData | pkg/querier/postprocess.go:748-861 | One row per printed key in order of first appearance; a cell is the last value its query wrote under that key, "n/a" if none; group columns are those of any query, each once. |
| ScalarSort.MergeAndSort | pkg/querier/postprocess.go:748-861 | The table is the merge, stably sorted by its first aggregation column (numbers descending, "n/a" last) unless an order was asked for or there is no such column. |
| ScalarSort.SortRows | pkg/querier/postprocess.go:890-937 | The same rows; over numbers and "n/a" sorted, with equal rows as they stood. |
| ScalarJoin.CollectGroups | pkg/querier/postprocess.go:749-763 | Each group column name of any query, once. |
| ScalarJoin.CollectAggregations | pkg/querier/postprocess.go:780-787 | The aggregation columns query by query. |
| ScalarJoin.MergeRow | pkg/querier/postprocess.go:803-846 | Merging one more row keeps the table merged. |
| ScalarJoin.CellIsTheQuerysValue | pkg/querier/postprocess.go:825-846 | With distinguishable keys, one row per key and query and unique aggregation indices, a cell is that query's value for the key, otherwise "n/a". |
| ScalarJoin.NoKeyIsLostExactly | pkg/querier/postprocess.go:803-823 | Every key of every query has a row if and only if printing tells the keys apart. |
| ScalarJoin.RowsAreDistinctKeys | pkg/querier/postprocess.go:803-823 | No row is invented and no two rows have the same group cells, however keys are printed. |
| ScalarJoin.BlankFreeIsDistinguishable | pkg/querier/postprocess.go:877-887 | Keys without blanks are printed differently. |
| ScalarJoin.BlanksCollide | pkg/querier/postprocess.go:877-887 | With blanks two different keys can be printed alike. |

## Left out

- CacheHistory.CacheIsTransparent: no claim for windows shorter than a step, for shifted queries (the shift is applied twice there), or for fingerprints with limit, having or order, where the source is not pointwise.
- CacheTransparency.AnswerIsTransparent: assumes an immutable source and windows whose ends plus a step stay below 2^64; values are reals, so float rounding, NaN and infinities are not modelled.
- CacheHistory.ExecuteWithCache: the goroutines that fill one result slot each are a loop over the slots; an executor is indexed by attempt, so a repeated query may fail differently.
- BucketCache.BucketCache.Put: marshalling is the identity; an unreadable or refused entry is an absent one or an unwritten one; keys and fingerprints of other queries are other slots.
- SeriesMerge.MergeTimeSeriesResults: aliases, units, labels and buckets of metadata are not modelled; a series carries its rendered key.
- BucketCache.IsEmptyResult: statistics and warnings carried beside results are not modelled.
- Contradictions.DetectContradictions: works on a syntax tree, and the walk of the model goes on after a panic, which does not show in its outcome; what pattern operators match in a record is arbitrary, and ILIKE disregards the case of the letters A to Z only.
- ContradictionSoundness.ReportsAreSound: for literals that are numbers written in one way on each field, no LIKE, at most one NOT BETWEEN on a field, IN lists that are nested in the NOT IN lists they overlap, and NOT over no AND of several parts; LikePatterns, ContradictionLimits and BetweenProbes give exact conditions outside these for patterns, lists, texts, NOT over AND and NOT BETWEEN.
- ContradictionSoundness.ReportedFilterIsNeverTrue: speaks only of records that have every field on which the filter has a range comparison under NOT, and of IN lists in brackets; NegatedRanges.ReportIsRightExactly settles the other records and ContradictionLimits.InWithoutBrackets a list without brackets.
- WhereClause.PrepareWhereClause: works on parsed expressions; what single conditions, full-text searches and function calls compile to is an identifier, a condition builder never returns the empty string, and template variables other than the one that stands for all values are left out.
- WhereExactness.ClauseKeepsRowsExactly: for filters that read each row condition once; with repeated conditions safe dropping stays sufficient (WhereMeaning.ClauseKeepsRows).
- DependencyGraph.TopologicallySortable: the library's strongly connected components are replaced by removing services without open dependencies.
- Registry.NoDeadlock: Stop and signal handling are left out; what a service does inside Start is arbitrary, and steps under the mutex are atomic.
- SliceLoop.MakeBuckets: asks that the loop ends, without which no list of slices is returned; SliceLoop.EndsWithinRoundsOrNever, SliceLoop.CuttableWithoutWrap and SliceLoop.ZeroStartEndsExactly say when it does.
- WindowList.ExecuteWindowList: cursors, the clamp to the range of given trace ids, statement failures and statistics are left out; limit plus offset is taken not to exceed the signed 64-bit range.
- StepInterval.NearestMultiple: rounds the exact quotient, halves up.
- ScalarJoin.MergeScalarData: cells are their printed text, and the fields of columns other than name, query and index are left out.
- ScalarSort.SortRows: with cells that are neither numbers nor "n/a" the comparison is no order, and only the rows' number and contents are stated.
- Formulas, reduction, series limits and fill functions after the query: they work on the merged results and take no part in the cache, listing or join protocols above.
- SQL text, ClickHouse and Prometheus execution, HTTP handlers, configuration and migrations: I/O and plumbing.
