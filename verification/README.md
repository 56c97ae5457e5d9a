# Metrictank in Dafny

Metrictank stores time series. This project models four parts of it and proves what they promise:

- **Writing one metric.** A reorder buffer, a ring of chunks with its rules for closing, evicting and saving them,
  and aggregators that turn the points into rollup series.
- **Reading it back.** Which range to fetch, what memory and the store return for it, snapping points to a grid,
  grouping them, and nudging groups so that they stay put when a graph is refreshed.
- **Two concurrent protocols.** The speculative fan-out of a query to peers, and the lock-free maximum.
- **Planning and selection.** One interval for a group of requests, members that cover all partitions, and the
  flattened index of storage schemas.

Code that changes things in place is modelled by classes, arrays and loops that are proved against functions on
values; the results over whole runs are lemmas about these functions. Timestamps are integers, with the 32-bit
wrap-around written out wherever the code can meet it. A value is a real number, or `Null` for NaN. Clocks, the role
of a node and the order in which a map is walked are inputs.

`dafny verify dfyconfig.toml` checks everything.

| files | part |
|---|---|
| `ReorderBuffer` | the reorder buffer: a window of slots, and the circular array that holds it |
| `Tanks`, `TankQuery`, `TankRuns`, `Closings` | the chunks of a metric as a history; queries; what is saved over whole runs, and when a chunk is closed |
| `Ring`, `Metrics`, `AggMetric` | the ring of chunks; a metric as a value and as an object |
| `MetricSteps`, `MetricRuns`, `Lifetimes`, `Flushes`, `Saves` | window and chunks together, in one step and over runs of writes, garbage collection and save notices |
| `Fetch`, `Promotion`, `RawAnswers`, `MetricAnswers` | memory and store together, also on a promoted node; raw requests answered from a metric |
| `Batch`, `Buckets`, `Rollups`, `Aggregators` | statistics of points; streaming them into rollups |
| `RollupAnswers`, `RollupMetrics` | requests answered from rollup series |
| `Quantize`, `Fixed`, `Consolidation`, `Grids`, `Nudges`, `Requests`, `Canonical`, `Targets` | the read path |
| `FanOut`, `Speculation`, `Bump` | the protocols |
| `Lcms`, `Planning`, `Members`, `Schemas` | planning and selection |
| `Arith`, `Points`, `Seqs`, `Options` | shared facts |

## Model

| member | source | states |
|---|---|---|
| ReorderBuffer.RunSorts | mdata/reorder_buffer.go:33-106 | after any run of Adds, all that was pushed out followed by what is buffered is the list of accepted slots in strict time order; accepted are the slots of all points that were in reach of the window when they came, each with the value that was taken last |
| ReorderBuffer.AddExactly | mdata/reorder_buffer.go:33-74 | a point is taken exactly if its slot is in reach of the window and is free or may be overwritten, too old exactly if it is out of reach; it is then in its slot, and every other slot still in the window is as it was; a refusal changes nothing |
| ReorderBuffer.LateTaken | mdata/reorder_buffer.go:44-71 | a concrete late point that is put before a newer one |
| ReorderBuffer.SlideEffect | mdata/reorder_buffer.go:51-66 | a newer point is appended and what is pushed out is the front of the old contents, so nothing is lost or reordered |
| ReorderBuffer.PlaceEffect | mdata/reorder_buffer.go:44-71 | a late point is inserted at its place, or replaces the point of its slot, and no other slot changes |
| ReorderBuffer.AgeTestExact | mdata/reorder_buffer.go:36-39 | the age test in 32-bit arithmetic is the intended one if and only if the window does not reach before timestamp 0; otherwise everything is refused |
| ReorderBuffer.NewerTooOld | mdata/reorder_buffer.go:36-39 | a concrete window that refuses a point newer than all it holds |
| ReorderBuffer.Buffer.constructor | mdata/reorder_buffer.go:23-29 | a new array is the empty window |
| ReorderBuffer.Buffer.Add | mdata/reorder_buffer.go:33-74 | the circular array takes exactly the step that the window of slots takes, which AddExactly describes, with the same outcome and the same purged points |
| ReorderBuffer.Buffer.Slide | mdata/reorder_buffer.go:51-66 | the purged cells are the slots that the window leaves behind, oldest first |
| ReorderBuffer.Buffer.Get | mdata/reorder_buffer.go:77-92 | the walk around the array lists the window in time order |
| ReorderBuffer.Buffer.Reset | mdata/reorder_buffer.go:94-99 | the window is empty and starts over |
| ReorderBuffer.Buffer.Flush | mdata/reorder_buffer.go:101-106 | hands out the whole contents and leaves the empty window |
| ReorderBuffer.Buffer.IsEmpty | mdata/reorder_buffer.go:108-110 | true exactly if nothing is buffered |
| Tanks.AddKeeps | mdata/aggmetric.go:490-584 | a point is either appended to the stream of accepted points or changes nothing, and the chunks stay well formed |
| TankRuns.SentInOrderOverRuns | mdata/aggmetric.go:356-431 | for any mix of adds, closings, role changes and notices, chunks are sent finished, at strictly increasing start times, never change afterwards, and the history holds exactly the accepted points |
| TankRuns.SentOnlyGrows | mdata/aggmetric.go:424-428 | what was sent at one time is a prefix of what is sent later |
| TankRuns.PromotionCovers | mdata/aggmetric.go:384-411 | a save by a new primary covers every chunk in memory that the save marker does not, and nothing else |
| TankRuns.NoLoss | mdata/aggmetric.go:544-580 | on a lasting primary that hears of no saves but its own, what was sent and the unsent current chunk are the whole accepted stream, if and only if the stream did not leave behind a chunk at time 0; nothing else is evicted unsent |
| TankRuns.EpochChunkLost | mdata/aggmetric.go:360-369 | a concrete run whose first chunk is never sent |
| TankRuns.Remembers | mdata/aggmetric.go:508-580 | after any run, memory holds the last chunks that fit in the ring, and with dropFirstChunk on the first chunk was never sent |
| TankRuns.ReportedNotSent | mdata/aggmetric.go:96-105 | after a report that a chunk was saved, neither it nor an earlier one is sent |
| TankRuns.SecondarySendsNothing | mdata/aggmetric.go:550-555 | a node that is not the primary sends nothing, whatever happens |
| Closings.ClosingSaves | mdata/aggmetric.go:650-661 | a primary that closes a chunk saves it, and everything in memory that was not saved before |
| Closings.CloseSaves | mdata/aggmetric.go:650-661 | after garbage collection on the primary the current chunk is saved, if and only if it was open, or saved before |
| Closings.ClosedBySecondary | mdata/aggmetric.go:650-661 | a concrete chunk, closed by a secondary, that garbage collection does not save once the node is the primary |
| Closings.ClosedAllSent | mdata/aggmetric.go:650-661 | when a lasting primary closes the chunk of a stale metric, all that was ever accepted has been sent, if and only if the stream did not begin less than one span after time 0 |
| TankQuery.QueryComplete | mdata/aggmetric.go:227-324 | restricted to the range, the chunks returned hold exactly the accepted points of the range from the reported oldest time on, in time order, also across gaps and evictions |
| TankQuery.GapEmpty | mdata/aggmetric.go:278-314 | a range in a gap is answered with chunks in wrapped order, none of which has a point in the range |
| TankQuery.BelowOldestEvicted | mdata/aggmetric.go:316-320 | points of the range before the reported oldest time are in evicted chunks only |
| TankQuery.ReachesBack | mdata/aggmetric.go:227-321 | memory is said to reach back to the start of the range if and only if that lies in a chunk in memory, not before its first point if it is the first of all, or after all chunks; never for a metric without chunks |
| Ring.CollectPending | mdata/aggmetric.go:372-408 | the walk back around the ring finds exactly the chunks after the save marker, and ends |
| Ring.QueueUp | mdata/aggmetric.go:415-428 | pending chunks are queued oldest first |
| Ring.SeekForward | mdata/aggmetric.go:278-284 | finds the first chunk in memory that ends after the start of the range, and ends |
| Ring.SeekBackward | mdata/aggmetric.go:292-299 | finds the last chunk in memory that starts before the end of the range, and ends |
| Ring.CollectIters | mdata/aggmetric.go:302-314 | the chunks between two positions, around the ring |
| Ring.ReadRange | mdata/aggmetric.go:278-321 | the positions found in the ring give the answer of the history of chunks |
| AggMetric.AggMetric.constructor | mdata/aggmetric.go:59-93 | a new metric has no chunks and an empty window |
| AggMetric.AggMetric.SyncChunkSaveState | mdata/aggmetric.go:96-105 | the save marker is raised to the reported chunk and never lowered; nothing else changes |
| AggMetric.AggMetric.Persist | mdata/aggmetric.go:356-431 | the queue grows by the unsaved chunks in memory, oldest first, and the marker moves to the current chunk |
| AggMetric.AggMetric.PushPoint | mdata/aggmetric.go:490-584 | the ring follows the history of chunks: begin, extend, advance or refuse; the panics are unreachable |
| AggMetric.AggMetric.Add | mdata/aggmetric.go:434-486 | the object takes the step of the metric as a value, including refusals by age, future and the reorder window |
| AggMetric.AggMetric.Get | mdata/aggmetric.go:199-324 | the answer is that of window and chunks; an inverted range is an error |
| AggMetric.AggMetric.Collectable | mdata/aggmetric.go:597-609 | the two conditions on the last write and on the end of the current chunk |
| AggMetric.AggMetric.GC | mdata/aggmetric.go:614-670 | drains the window, keeps the time of the last write, closes and saves the stale chunk; reports the points in memory and staleness exactly if the metric is still collectable after draining, and stale only when the window is empty and the chunk closed |
| MetricSteps.AcceptsExactly | mdata/aggmetric.go:515-545 | the chunks take a point exactly if it is later than all others, and the current chunk is open or ended before it |
| MetricSteps.PassesExactly | mdata/aggmetric.go:435-461 | a point is stopped exactly if it is older than what the chunks may hold, or more than the tolerance ahead of the clock where that is refused |
| MetricSteps.StoppedExactly | mdata/aggmetric.go:435-461 | a point that is stopped changes nothing, except that one that is too old still goes to the aggregators |
| MetricSteps.DirectExactly | mdata/aggmetric.go:466-468 | without a window the point goes to the chunks if they accept it, and exactly then to the aggregators, and counts as a write |
| MetricSteps.ReorderExactly | mdata/aggmetric.go:469-485 | with a window the point is in its slot exactly if the window takes it; only points that fell out go to the chunks, and what they take goes to the aggregators; it counts as a write if nothing fell out or something was taken |
| MetricSteps.CollectableExactly | mdata/aggmetric.go:587-609 | collectable if and only if the last write is old enough and no point that comes at most 15 minutes late can belong to the current chunk |
| MetricSteps.CollectExactly | mdata/aggmetric.go:614-655 | garbage collection empties the window of a collectable metric into the chunks without counting as a write, and changes nothing of another |
| MetricSteps.ClosesExactly | mdata/aggmetric.go:643-662 | after garbage collection of a collectable metric the current chunk is closed if and only if it is not active, also where draining the window started a new one |
| MetricRuns.NothingDiscarded | mdata/aggmetric.go:466-485 | on every run of Add calls no purged point is refused by the chunks, and chunk points followed by buffered points are all accepted points in strict time order |
| MetricRuns.AcceptsPassed | mdata/aggmetric.go:435-485 | accepted are the slots of exactly the points that pass the checks on input and are in reach of the window when they come, each with the value taken last |
| MetricRuns.AnswerComplete | mdata/aggmetric.go:212-220 | while chunk points are older than buffered ones, an answer holds exactly the points from its oldest time on; returning early from the buffer loses nothing |
| MetricRuns.RunAnswersComplete | mdata/aggmetric.go:199-324 | the same for every query after every run of Add calls |
| MetricRuns.AnswerExactly | mdata/aggmetric.go:212-220 | for any chunks and any buffer, an answer has only points of the range, and is complete if and only if the buffer is empty, starts after the range does, or repeats all chunk points of the range |
| Lifetimes.ReorderOrder | mdata/aggmetric.go:466-485 | a write keeps chunks older than buffer if and only if it is refused, replaces a point, or rounds to a time after the last chunk point |
| Lifetimes.StepOrder | mdata/aggmetric.go:614-655 | garbage collection and notices always keep that order, a write exactly under that condition |
| Lifetimes.LifeAnswers | mdata/aggmetric.go:199-324 | every query at any time in a life of writes, garbage collections and notices: complete exactly under the condition above, and complete and in time order if no write was out of time |
| Lifetimes.OrderAfterFlush | mdata/aggmetric.go:624-634 | after a flush the window takes a point of any age; the order survives if and only if it rounds to a time after the last chunk point |
| Lifetimes.HiddenAfterFlush | mdata/aggmetric.go:212-220 | a concrete life, from a new metric on, after which a query misses a point that a chunk holds |
| Flushes.StepLeaves | mdata/aggmetric.go:466-485 | all that leaves the window in a write or a garbage collection is taken by the chunks, if and only if the current chunk is open or ended before the first of these points |
| Flushes.LifeLeaves | mdata/aggmetric.go:434-655 | over a life with no write out of time, the chunks hold all that ever left the window, in that order, if and only if that held at every step |
| Flushes.LostAfterFlush | mdata/aggmetric.go:519-525 | a concrete point that is accepted and buffered after a flush, and lost at the next one |
| Saves.LifeDrives | mdata/aggmetric.go:434-670 | every life of a metric takes its chunks through a run of adds, closings and notices, which is that of a lasting primary if the life is |
| Saves.LifeSends | mdata/aggmetric.go:356-431 | whatever happens to a metric, chunks are sent once each, finished, in order of time, and stay as sent |
| Saves.LifeNoLoss | mdata/aggmetric.go:544-580 | the no-loss result over lives of a lasting primary with garbage collection and word of its own saves |
| Saves.CollectedAllSent | mdata/aggmetric.go:614-661 | when garbage collection finds a metric of a lasting primary stale, its window is empty and all that its chunks ever took has been sent, with the one exception of a stream that began before one span |
| Saves.LifeIsRun | mdata/aggmetric.go:96-105 | word of its own saves changes nothing for a primary: without garbage collection its life is a run of the writes alone |
| Saves.RunKeepsAll | mdata/aggmetric.go:466-485 | on a lasting primary, sent chunks, the unsent chunk and the window together are every accepted point in time order, with the one exception of a chunk at time 0 |
| Fetch.StoreExact | api/dataprocessor.go:463-504 | with any number of first chunks in the store that includes all evicted ones, memory and store give exactly the accepted points of the range, if and only if the first chunk is not read from both |
| Fetch.EpochExact | api/dataprocessor.go:463-504 | if the store lacks a first chunk at time 0, nothing is read twice, and the result is exact if and only if that chunk is in memory or has no point in the range |
| Fetch.FetchExact | api/dataprocessor.go:447-504 | on a lasting primary the result is exact if and only if the first chunk is not read twice, and no evicted chunk at time 0 has points in the range |
| Fetch.FetchShape | api/dataprocessor.go:463-480 | unless such a chunk is missed, the result is the points of the range after a repeated part of their beginning |
| Fetch.FirstPointTwice | api/dataprocessor.go:463-480 | a concrete run and range for which the first point comes twice |
| Promotion.PromotedFetch | api/dataprocessor.go:447-504 | for a node in any sequence of roles, if all reports of saves are true and no chunk was evicted unsaved: the shared store has exactly the chunks it sent or was told of, and memory and that store are exact under the same conditions |
| Promotion.RunShared | mdata/aggmetric.go:384-411 | in such a run every chunk up to the save marker was sent by this node or reported, except one at time 0 |
| Quantize.AlignForwardLeast | api/dataprocessor.go:57-63 | the least grid point at or after a timestamp |
| Quantize.AlignBackwardGreatest | api/dataprocessor.go:66-68 | the greatest grid point strictly before a timestamp |
| Quantize.BoundaryBucket | mdata/aggregator.go:11-13 | the boundary of a bucket is the grid point whose interval, open at its start and closed at its end, holds the timestamp |
| Batch.SumOf | batch/aggregator.go:177-190 | the sum of the values present, none if there are none |
| Batch.CntOf | batch/aggregator.go:29-40 | their number |
| Batch.LstOf | batch/aggregator.go:42-50 | the latest of them |
| Batch.MinOf | batch/aggregator.go:52-67 | the least of them |
| Batch.MaxOf | batch/aggregator.go:69-84 | the greatest of them |
| Batch.AvgOf | batch/aggregator.go:14-27 | their average: multiplied by their number it gives their total |
| Batch.AggregateMeans | batch/aggregator.go:14-190 | each statistic of a series, without reference to how it is computed: the total, number, latest, bounds that are reached, and the value whose product with the number is the total |
| Batch.RatioExactly | api/dataprocessor.go:157-166 | the quotient is the one value that multiplied by the divisor gives the dividend, and none if a value is missing or the divisor is 0 |
| Batch.FoldConcat | batch/aggregator.go:14-84 | every statistic of two series together is the statistics combined, which is what lets rollups be merged |
| Buckets.RunConserves | mdata/aggregator.go:104-128 | for points in any order and garbage collection at any time, flushed buckets and pending points hold every point that was not ignored, in the order received |
| Buckets.PointsAddUp | mdata/aggregator.go:104-128 | flushed, pending and ignored points add up to the points received |
| Buckets.RunPlaces | mdata/aggregator.go:104-128 | for points in any order and garbage collection at any time, every point is in the bucket that it belongs to |
| Buckets.IgnoredExactly | mdata/aggregator.go:104-111 | a point is ignored if and only if some point before it belongs to a later bucket |
| Buckets.CollectedExactly | mdata/aggregator.go:131-143 | garbage collection flushes an open bucket, at its boundary and with its points, if and only if the last write was at least one span before the cutoff |
| Buckets.FlushedOnceExactly | mdata/aggregator.go:104-143 | for points in any order and garbage collection at any time, boundaries are flushed at strictly rising times if and only if no point falls in the bucket that was flushed last |
| Buckets.FlushedTwice | mdata/aggregator.go:131-143 | a concrete run that flushes one boundary twice |
| Buckets.RunSteady | mdata/aggregator.go:104-143 | garbage collection at any time does no harm to a stream in time order as long as no bucket is reopened: flushes and open points are the stream, in whole buckets |
| Rollups.FlushedPoints | mdata/aggregator.go:82-128 | on a stream in time order each flush holds exactly the points of its bucket, and flushes are at strictly increasing boundaries |
| Rollups.FlushedBuckets | mdata/aggregator.go:104-128 | a bucket is flushed if and only if it has points and is complete |
| Rollups.SummaryIsBatch | mdata/aggregation.go:22-28 | the running statistic of a bucket is that of the batch functions, exactly under a condition on the values that are missing |
| Rollups.RollupsCompose | mdata/aggregator.go:82-128 | consolidating any number of rollup points is aggregating the raw points of their range directly: the result is the total, number, bounds, latest or true average of these, also after garbage collection that reopens no bucket |
| Rollups.RollupCountsExact | mdata/aggregation.go:22-28 | rollup counts are the raw count if and only if every raw point has a value |
| Rollups.RollupsExact | mdata/aggregation.go:22-28 | all statistics agree if and only if every raw point has a value |
| Rollups.NullSpoilsRollup | mdata/aggregation.go:22-28 | a concrete stream whose rollup has no sum although the raw points have one |
| Aggregators.Aggregation.Add | mdata/aggregation.go:22-28 | one step of the running statistics |
| Aggregators.Aggregation.Reset | mdata/aggregation.go:30-36 | the starting statistics, except that the last value is kept |
| Aggregators.KeepsExactly | mdata/aggregator.go:41-77 | a rollup series is kept if and only if a configured method needs it: an average needs a sum and a count |
| Aggregators.Aggregator.Flush | mdata/aggregator.go:82-100 | each configured series gets the statistic of the open bucket at its boundary, and exactly those series do |
| Aggregators.Aggregator.Add | mdata/aggregator.go:104-128 | the object groups points as the stream of buckets does, and its five series are those of the flushed buckets |
| Aggregators.Aggregator.GC | mdata/aggregator.go:131-143 | a bucket that got no point for a whole span is flushed |
| Fixed.ScanSorted | api/dataprocessor.go:100-137 | on a sorted series, filling slots while scanning gives each slot the first value of its interval |
| Fixed.ScanTwice | api/dataprocessor.go:100-137 | repeating some of the first points of a series does not change the slots |
| Fixed.QuantizedExactly | api/dataprocessor.go:70-79 | the result has a point at t if and only if t is a multiple of the interval in the range, with the value of the first point after the previous multiple and up to t, and none if there is no such point |
| Fixed.NeverEarlier | api/dataprocessor.go:118-121 | a value never moves to an earlier time, and moves by less than one interval |
| Fixed.Fill | api/dataprocessor.go:86-137 | the loop that steps back computes the slots in the space set aside, and ends |
| Fixed.Fix | api/dataprocessor.go:76-141 | one point per multiple of the interval in the range, with the first value of its interval, for every sorted input |
| Consolidation.WholeGroups | consolidation/consolidate.go:43-62 | groups are written over points already read; nothing unread is overwritten |
| Consolidation.LastGroup | consolidation/consolidate.go:64-77 | the leftover points make one more group, at the time that the last two points of the input imply |
| Consolidation.Consolidate | consolidation/consolidate.go:35-78 | in place, yet equal to grouping the input: its points up to the result are the groups, and what lies before the part given is left alone |
| Consolidation.WholeGroup | consolidation/consolidate.go:43-62 | the k-th point of the result is the statistic of the k-th whole group, at the time of its last point |
| Consolidation.RestGroup | consolidation/consolidate.go:64-77 | the last point is the statistic of the leftover points, at the time that the last of a whole group would have at the last distance of the input |
| Grids.ConsolidatedEven | consolidation/consolidate.go:35-78 | evenly spaced input of two points or more gives evenly spaced output |
| Nudges.AggEveryLeast | consolidation/consolidate.go:82-87 | the least group size that leaves no more than the maximum number of points |
| Nudges.NudgeAligns | consolidation/consolidate.go:151-199 | the series then starts one interval after a multiple of the span, and fewer than one group of points is stripped |
| Nudges.NudgedBounded | consolidation/consolidate.go:24-29 | the result never has more than the maximum number of points |
| Nudges.FewKept | consolidation/consolidate.go:89-121 | nothing is stripped of a series of at most two groups, and a maximum of one point takes all points together |
| Nudges.NudgedBuckets | consolidation/consolidate.go:89-115 | each point of the result is at a multiple of the span and aggregates all points of its bucket |
| Nudges.NudgedHit | consolidation/consolidate.go:89-115 | every bucket that lies wholly in the window is in the result |
| Nudges.NudgedStable | consolidation/consolidate.go:89-199 | two windows of one series with the same group size agree on every bucket complete in both |
| Nudges.ConsolidateNudged | consolidation/consolidate.go:24-29 | the array operations compute the nudged consolidation of the input |
| Requests.ContextExact | api/dataprocessor.go:698-799 | the range covers exactly the slots of the output points |
| Requests.AlwaysRewinds | api/dataprocessor.go:769-774 | the panic about the rewind is unreachable |
| Requests.EmptyFetch | api/dataprocessor.go:424-426 | for every request, the range is empty if and only if there is no output point and the range was adjusted at all |
| Requests.FetchesForNothing | api/dataprocessor.go:424-426 | a concrete request without output points whose range is not empty |
| Canonical.GetSeriesFixed | api/dataprocessor.go:415-442 | fetching and fixing gives exactly the slots that the request needs |
| Canonical.GroupedCanonical | api/dataprocessor.go:698-799 | grouping these slots gives the canonical form; there is never a partial group |
| Canonical.CanonicalTimes | api/dataprocessor.go:698-799 | a series in canonical form has a point at t if and only if t is a multiple of the output interval in the range |
| Targets.GetTarget | api/dataprocessor.go:337-406 | the answer has one point per multiple of the output interval, each depending only on what is stored in its own interval |
| Targets.Divide | api/dataprocessor.go:157-166 | pointwise quotients: multiplied by the second series they give the first; refused for series of different lengths |
| Targets.GetAverage | api/dataprocessor.go:384-397 | sums and counts always have the same length, so the division goes through, and each point multiplied by the count of its time gives the sum |
| RawAnswers.FixHidesRepeats | api/dataprocessor.go:437-441 | snapping to the grid hides that a chunk was read twice |
| RawAnswers.RunAnswer | api/dataprocessor.go:447-504 | over whole runs of a lasting primary, a raw request is answered from the slots of all points ever accepted, unless an evicted chunk at time 0 has points in the range |
| MetricAnswers.SeriesSlots | api/dataprocessor.go:437-441 | with the unfiltered buffered points appended, the slots are still those of everything accepted |
| MetricAnswers.GetRawTarget | api/dataprocessor.go:337-442 | range, window, memory, store, fixing and grouping together give the canonical answer of a raw request |
| MetricAnswers.AnswerLife | api/dataprocessor.go:337-504 | the same at any time in the life of a metric of a lasting primary in which no write was out of time |
| MetricAnswers.AnswerRun | api/dataprocessor.go:337-504 | without garbage collection, the canonical answer is computed from all accepted points |
| RollupAnswers.RollupAnswer | api/dataprocessor.go:337-406 | an output point from rollups is the statistic of the raw points of its interval |
| RollupAnswers.AverageAnswer | api/dataprocessor.go:384-397 | divided rollups are the true average of the raw points: multiplied by their number, their total |
| RollupMetrics.FedStream | mdata/aggmetric.go:327-334 | what the aggregators receive is the chunk points, a stream in strict time order |
| RollupMetrics.RollupTakesUp | mdata/aggmetric.go:434-486 | the metric of a rollup series takes up exactly the points handed to it that pass its checks on age and future time |
| RollupMetrics.RollupKept | mdata/aggregator.go:82-100 | and what the store has of its chunks is a prefix, so that it can be read like any other metric |
| RollupMetrics.RepeatRefused | mdata/chunk/chunk.go:42-51 | the second point of a boundary that was flushed twice changes nothing: it is refused |
| RollupMetrics.AnswerRollup | api/dataprocessor.go:337-504 | a request for rollups, read from their own memory and store, is answered in canonical form, each point being the aggregate of the raw points of its interval, also after garbage collection that reopens no bucket |
| RollupMetrics.AnswerAverage | api/dataprocessor.go:384-397 | averages made from the metrics of the sums and of the counts are the true averages of the raw points |
| RollupMetrics.AnswerRollupRun | api/dataprocessor.go:337-504 | the same as AnswerRollup, from the points that arrived at the raw metric |
| FanOut.EveryOrder | api/cluster.go:545-622 | in every order of events: what is delivered is the first result of each group that comes in, one for each group when the loop ends without an error; no peer is asked twice, and every group without a result has a request in flight; an error comes with the last event, from a group without a result all of whose peers were asked |
| FanOut.ErrorWithoutSpeculation | api/cluster.go:567-589 | without speculation, an error means that every peer of the group has failed |
| FanOut.ErrorExactly | api/cluster.go:567-589 | an error means that if and only if no other request of the group is in flight |
| FanOut.GivesUpAfterAll | api/cluster.go:573-588 | when a failed answer ends the query, all peers of the group have failed if and only if it was the only request of the group in flight before |
| FanOut.PrematureError | api/cluster.go:567-589 | a concrete order of events with an error while a peer has yet to answer |
| Speculation.FailsEarlyExactly | api/cluster.go:545-622 | some order of events makes a query fail before all peers of the group have, if and only if some group has two peers and the threshold can be reached while a group has no result |
| FanOut.Query.constructor | api/cluster.go:545-552 | the first peer of each group is asked |
| FanOut.Query.IsRunning | api/cluster.go:562 | comparing two counts decides whether a group is without a result |
| FanOut.Query.OnResponse | api/cluster.go:567-593 | one answer takes the step of the protocol, and says which peer is asked next |
| FanOut.Query.OnTick | api/cluster.go:595-620 | speculates exactly if the number of answered groups is at least the threshold times that of all groups, and then asks one more peer of exactly the groups without a result that have one left |
| Bump.SwapKeepsTop | util/atomic.go:19-25 | no swap changes the largest of the cell and all values in flight |
| Bump.CellIsMax | util/atomic.go:17-25 | under every interleaving, the cell ends with the maximum of its first value and all arguments |
| Bump.SwapsBounded | util/atomic.go:19-25 | every interleaving of n calls ends after at most n(n+1)/2 + n swaps |
| Bump.BrieflyLower | util/atomic.go:19-25 | in between the cell can hold less than before |
| Bump.AtomicBump | util/atomic.go:19-25 | one call alone leaves the larger of the two values, and its turns are swaps of the protocol |
| Lcms.Lcm | util/util.go:25-43 | the result is the least common multiple if and only if that fits in 32 bits |
| Lcms.LcmLeast | util/util.go:24-43 | what the contract of Lcm calls a least common multiple is the least of the common multiples |
| Lcms.Overflows | util/util.go:25-43 | two intervals for which it does not |
| Planning.Validate | conf/retention.go:55-80 | accepts exactly the lists in which each archive may follow the one before |
| Planning.SaneExactly | conf/retention.go:55-80 | accepted are exactly the lists of which any two archives are nested, the later coarser by a whole factor and kept longer, and each is kept for at least one point of the next |
| Planning.PickBest | api/query_engine.go:169-186 | if any ready archive is kept long enough, so is the chosen one, and it is the finest such |
| Planning.PlanHighestResSingle | api/query_engine.go:169-186 | a plan exactly if there is a ready archive: the finest one that is kept long enough, or else the coarsest, read at its own interval, which for raw data is that of the request; otherwise the request is left as it was |
| Planning.AdjustTo | api/models/request.go:111-132 | the first coarser ready archive with the interval, or else as many points of the same archive as make it up |
| Planning.AdjustedServes | api/models/request.go:111-132 | moving to a coarser archive or grouping keeps readiness and retention, and gives the interval; the archive is read at its own interval, raw data at that of the request |
| Planning.PlanHighestResMulti | api/query_engine.go:204-243 | unsatisfiable exactly if some request has no ready archive; otherwise all requests get one interval, the least common multiple of those chosen first, each from the archive and by the grouping that AdjustTo describes, if and only if it fits in 32 bits |
| Planning.PlannedIsValid | api/models/request.go:87-104 | a plan meets what fetching and grouping rely on |
| Members.EligibleIs | cluster/cluster.go:81-96 | the nodes that can be asked are this node if it is ready, and the members of another name |
| Members.Gather | cluster/cluster.go:78-113 | the partitions of this node if it is ready and of all other members, each with exactly those of its holders that have the least priority number, whatever the order of partitions |
| Members.Select | cluster/cluster.go:118-153 | every partition gets a selected holder of the best priority, no node twice, for every order and every counter |
| Members.MembersForQuery | cluster/cluster.go:71-156 | an error exactly if too few partitions can be asked for; otherwise every partition of this node, if ready, or of another member has a node in the answer that holds it with the least priority number of its holders, every node is there for some partition, this node wherever it can be, and no partition is held twice if partitions are assigned in groups |
| Schemas.IndexAt | conf/schemas.go:54-79 | each position of the flattened index is a known schema without its first retentions, and the same in all else |
| Schemas.FindBlock | conf/schemas.go:184-218 | only block heads are tested, and the first matching schema is found |
| Schemas.SchemaSet.BuildIndex | conf/schemas.go:54-79 | the index holds every schema from every one of its retentions on, in order, and nothing else |
| Schemas.SchemaSet.Match | conf/schemas.go:183-223 | the first schema that matches, from a retention on, in all else unchanged; the first interval is the largest of the schema not above the metric's, or its first if none is; and where that is in the index |
| Schemas.FitUnique | conf/schemas.go:193-213 | there is only one retention that fits the interval of a metric, so Match is determined |
| Schemas.SchemaSet.Get | conf/schemas.go:226-231 | the entry of an id, the default schema outside the index, and a panic for the largest id |
| Schemas.SchemaSet.Roundtrip | conf/schemas.go:183-231 | the id that Match returns gives back the schema that it returned, if and only if something matched or the index has fewer than 65535 entries |

## Findings

Properties that the code does not have in full. Each has a concrete case and the exact condition under which it holds.

- **A chunk that starts at time 0 is never saved** (mdata/aggmetric.go:361), because the save marker starts at 0 too.
  `TankRuns.EpochChunkLost`; exactly when, `TankRuns.NoLoss`; which reads miss it, `Fetch.FetchExact`.
- **A point in a chunk can be hidden after garbage collection** (mdata/aggmetric.go:216). The flushed window takes
  points of any age, and a query that starts after the oldest of them is answered from the window alone.
  `Lifetimes.HiddenAfterFlush`; exactly when, `MetricRuns.AnswerExactly`; which writes lead there,
  `Lifetimes.ReorderOrder`.
- **A point that was accepted can be lost after garbage collection** (mdata/aggmetric.go:519). The flushed window takes
  points again, but the chunk that covers their time was closed, and refuses them when they leave the window.
  `Flushes.LostAfterFlush`; exactly when, `Flushes.StepLeaves` and, over whole lives, `Flushes.LifeLeaves`.
- **A primary does not save a chunk that was closed while it was a secondary** (mdata/aggmetric.go:650), unless a later
  point starts another chunk. `Closings.ClosedBySecondary`; exactly when, `Closings.CloseSaves`.
- **The first chunk can be read twice**, from memory and from the store, when a range starts before its first point
  (api/dataprocessor.go:471). `Fetch.FirstPointTwice`; exactly when, `Fetch.FetchExact`. Snapping to the grid hides it:
  `RawAnswers.FixHidesRepeats`.
- **One rollup boundary can be flushed twice** (mdata/aggregator.go:141), when garbage collection flushes a bucket and a
  point then falls in it. The rollup metric refuses the second point, so what it stands for is lost.
  `Buckets.FlushedTwice` and `RollupMetrics.RepeatRefused`; exactly when, `Buckets.FlushedOnceExactly`.
- **Near timestamp 0 the reorder buffer refuses every point** (mdata/reorder_buffer.go:37), as the bound of its age test
  wraps around. `ReorderBuffer.NewerTooOld`; exactly when, `ReorderBuffer.AgeTestExact`.
- **A raw point without a value spoils the rollups of its bucket** (mdata/aggregation.go:22), while the batch functions
  skip it. `Rollups.NullSpoilsRollup`; exactly when, `Rollups.RollupsExact`.
- **A speculative query can fail too early** (api/cluster.go:586), while another request of the group is in flight.
  `FanOut.PrematureError`; which answer does it, `FanOut.GivesUpAfterAll`; for which groups and thresholds,
  `Speculation.FailsEarlyExactly`.
- **The least common multiple of intervals can overflow** (util/util.go:33). `Lcms.Overflows`; exactly when, `Lcms.Lcm`
  and `Planning.PlanHighestResMulti`.
- **An empty fetch range means no output points only where the range is adjusted** (api/dataprocessor.go:424); a rollup
  read without grouping keeps the range of the request. `Requests.FetchesForNothing`; exactly when,
  `Requests.EmptyFetch`.
- **Schema id 65535 panics** (conf/schemas.go:227), whatever the index holds: `Schemas.SchemaSet.Get`. Match returns it
  only if nothing matches and the index has 65535 entries: `Schemas.SchemaSet.Roundtrip`.

## Left out

- AggMetric.AggMetric.Add: the reorder buffer of a metric is the window as a value; that the circular array implements the window is proved of `ReorderBuffer.Buffer`, and aliasing between the two objects is not captured.
- Aggregators.Aggregator.Flush: the rollup metrics are sequences of the points handed to them, and a method that is not configured stands for a metric that is nil; their chunks are the subject of `RollupMetrics`.
- Aggregators.Aggregator.GC: does not model the point counts and staleness of the rollup metrics it collects.
- AggMetric.AggMetric.GC: takes the result of the aggregators as an input.
- MetricAnswers.AnswerLife: for a node that is the primary all along, and not for requests whose range has points of an evicted chunk at time 0; what other nodes put in the store is the subject of `Promotion`, which goes as far as the points that are fetched.
- Promotion.PromotedFetch: a chunk that another node saved is taken to hold the points that this node accepted; chunks that only other nodes have, and points from before this node started, are not modelled.
- RollupMetrics.AnswerRollup: the rollup metric is not garbage collected itself, and aggregators that reopened a bucket are excluded, as the refused point is lost.
- RollupMetrics.AnswerRollupRun: for metrics that ingest from time 0 on; otherwise points before the first chunk go to the aggregators without passing the reorder window, and need not be in time order.
- Rollups.SummaryIsBatch: infinities and rounding are not modelled; the largest finite float64 is kept as the starting value of the running minimum and maximum.
- Planning.PlanHighestResMulti: a request is a value in the array, not shared by reference with its caller.
- Members.MembersForQuery: the partitions of a node are a set, the members other than this node have different names, and the development mode, which just returns the local node, is left out.
- Schemas.SchemaSet.Match: patterns are an arbitrary predicate on names, and the original text of retentions is left out.
- Bump.AtomicBump: the loop is proved for one caller; interleavings are proved of the swap protocol.
- Chunk compression, the chunk cache and the wire formats: a chunk is the list of its points, and the store gives back what it was sent.
- The statistics Mult, Med, Diff, StdDev and Range: they add only easy members.
- Planning for the lowest resolution, limits on points per request, and `MembersForSpeculativeQuery`.
- Parsing of schemas, retentions and expressions, and the functions of the query language.
- HTTP, tracing, statistics, logging, locks, pools and cancellation of a query by its client.
