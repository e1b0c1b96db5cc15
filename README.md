# parallel-shapefile-join, modelled in Dafny

The system joins census tracts to zip-code areas. Each tract has a centroid and
a population. It adds its population to the `PopSum` of the first zip-code area,
in list order, whose polygon contains the centroid. Three runners do the same
join:

- **Sequential** (`scheduler/sequential.go`): one nested loop over the tracts
  and the zones.
- **Static partition** (`scheduler/parbasic.go`):
  - Splits the tracts into contiguous slices, one worker per slice.
  - Each worker keeps private per-ZIP lists of populations.
  - A serial reduction and a scatter then write the totals back onto the zones.
- **Work stealing** (`scheduler/parsteal.go`):
  - One bounded ring-buffer deque per worker.
  - A producer deals tract `i` onto deque `i % w`.
  - Each worker pops its own deque. When that yields nothing, it steals the
    oldest item of the first other deque that has one.

`Schedule` (`scheduler/scheduler.go`) picks the runner from the configured mode.

The Dafny project models these four files:

| file | module | form |
|---|---|---|
| `wrappers.dfy` | `Wrappers` | Option, Result, Outcome; the Go runtime panics as values |
| `orb.dfy` | `Orb` | the geometry types; `planar.PolygonContains` as the parameter `contains` |
| `sequences.dfy`, `intarith.dfy` | `Sequences`, `IntArith` | sums, reversal, ceiling division, residue counting |
| `sequential.dfy` | `Sequential` | records, the first-match rule, the in-place aggregation loop, the zone loader and its MultiPolygon merge |
| `parbasic.dfy` | `ParallelBasic` | slice bounds, `Worker` class, reduction and scatter loops |
| `deque.dfy` | `WorkDeque` | `Deque` class over an 8192-slot array with `head`/`tail`, and call sequences on one deque |
| `stealschedule.dfy` | `StealSchedule` | the work-stealing schedule as a function of the deque contents, and what it processes |
| `parsteal.dfy` | `ParallelSteal` | `ThiefWorker` class, producer loop, `RunParallelSteal` as written and with the corrected Pop |
| `scheduler.dfy` | `Scheduler` | `Config`, `Schedule`, and a dispatch into the three runners |

Concurrency is modelled as one sequential interleaving. Static-partition
workers run one after another, and the barrier is the end of the last one. For
work stealing, the producer deals every tract first. Then the workers run to
completion in index order, each calling the deque operations one at a time.

## Model

| member | source | states |
|---|---|---|
| Sequential.FirstMatch | scheduler/sequential.go:128-133 | the zone found contains the centroid and no earlier zone does; None exactly when no zone contains it |
| Sequential.FirstMatchFrom | scheduler/sequential.go:128-133 | the scan from zone `k` on returns the first zone at or after `k` containing the point, and None exactly when none of them does |
| Sequential.FindFirstMatch | scheduler/sequential.go:128-134 | the inner loop with its `break` finds the first containing zone |
| Sequential.FirstMatchLayout | scheduler/sequential.go:127-135 | the first match depends only on polygons, not on the sums already accumulated |
| Sequential.AddTract | scheduler/sequential.go:128-134 | one tract adds its population to the first containing zone only; count, order, polygons and ZIPs are untouched |
| Sequential.Aggregated | scheduler/sequential.go:127-135 | aggregating a tract list changes only `PopSum` fields |
| Sequential.RunSequential | scheduler/sequential.go:127-135 | the in-place loop leaves the zones equal to the aggregation of all tracts in input order |
| Sequential.AggregatedPopSum | scheduler/sequential.go:127-135 | each final `PopSum[i]` is its initial value plus the populations of the tracts whose first containing zone is `i` |
| Sequential.LoadedZonesPopSum | scheduler/sequential.go:127-135 | from loaded zones (all sums 0), `PopSum[i]` is exactly that matched population |
| Sequential.UnmatchedTractChangesNothing | scheduler/sequential.go:128-134 | a tract contained by no zone changes nothing |
| Sequential.AddTractTotal | scheduler/sequential.go:128-134 | one tract raises the sum of all `PopSum`s by its population if it matches, else by 0 |
| Sequential.AggregatedConserves | scheduler/sequential.go:127-135 | the sum of all `PopSum`s grows by the total population of matched tracts |
| Sequential.MatchedTotalBounds | scheduler/sequential.go:127-135 | with non-negative populations, the matched total is at most the input total, and equal when every tract matches; with positive populations, equal exactly when every tract matches |
| Sequential.AddTractCommutes | scheduler/sequential.go:128-134 | two tracts can be joined in either order |
| Sequential.AggregatedAppend | scheduler/sequential.go:127-135 | aggregating `s + t` is aggregating `s`, then `t` |
| Sequential.AggregatedShift | scheduler/sequential.go:127-135 | a tract joined first gives what it gives when joined last |
| Sequential.MoveToEnd | scheduler/sequential.go:127-135 | a tract anywhere in the list may be joined last instead |
| Sequential.OrderIndependent | scheduler/sequential.go:127-135 | the result does not depend on tract order: any permutation gives the same zones |
| Sequential.Flatten | scheduler/sequential.go:78-81 | the merged polygon: the rings of every part, in part order (its length and ring positions are FlattenLength and FlattenRing) |
| Sequential.FlattenLength | scheduler/sequential.go:78-81 | the merged polygon's ring count is the sum of the parts' ring counts |
| Sequential.FlattenRing | scheduler/sequential.go:78-81 | ring `r` of part `p` sits at index (rings of parts before `p`) + `r` of the merged polygon |
| Sequential.MergeMultiPolygon | scheduler/sequential.go:78-81 | the append loop yields the concatenation of the parts' rings in part order |
| Sequential.FeatureError | scheduler/sequential.go:68-89 | a feature without a ZIP, or whose geometry is neither Polygon nor MultiPolygon, is fatal; Polygon and MultiPolygon features load |
| Sequential.LoadZipcodeAreas | scheduler/sequential.go:66-91 | loading succeeds iff every feature has a ZIP and a Polygon or MultiPolygon geometry; otherwise it fails with the first bad feature's error; on success, one zone per feature in order, with the merged polygon, the ZIP and `PopSum` 0 |
| ParallelBasic.SliceBounds | scheduler/parbasic.go:41-45 | worker `i` gets `[i*n/w, (i+1)*n/w)`, the last one ending at `n`, with `start <= end <= n` |
| ParallelBasic.SliceBoundsOrdered | scheduler/parbasic.go:41-42 | `0 <= i*n/w <= (i+1)*n/w <= n` |
| ParallelBasic.SlicesAbut | scheduler/parbasic.go:41-45 | the first slice starts at 0, the last ends at `n`, consecutive slices abut, and the last-worker override is a no-op (`w*n/w == n`) |
| ParallelBasic.SlicesOrdered | scheduler/parbasic.go:41-45 | an earlier slice ends before a later one starts |
| ParallelBasic.SlicesPartition | scheduler/parbasic.go:41-45 | every index below `n` lies in exactly one slice |
| ParallelBasic.SliceContaining | scheduler/parbasic.go:41-45 | an index at or after slice `i`'s start lies in some slice `j >= i` |
| ParallelBasic.SliceLength | scheduler/parbasic.go:41-42 | every slice has length ⌊n/w⌋ or ⌈n/w⌉ |
| ParallelBasic.Slice | scheduler/parbasic.go:41-48 | worker `i` gets `censusTracts[start:end]` with the bounds of SliceBounds (SliceBetweenBoundaries places it between consecutive boundaries) |
| ParallelBasic.SliceBetweenBoundaries | scheduler/parbasic.go:41-48 | a worker's tracts are exactly `censusTracts[start:end]` |
| ParallelBasic.Record | scheduler/parbasic.go:21-26 | one tract appends its population to the list of its first containing zone's ZIP, and an unmatched tract appends nothing (RecordStep states it per ZIP) |
| ParallelBasic.Recorded | scheduler/parbasic.go:20-28 | Worker.Start's loop on values: the lists after recording every tract of the slice in order (RecordedLists characterizes them) |
| ParallelBasic.ZipMatchesAppend | scheduler/parbasic.go:20-28 | the populations recorded under a ZIP for `s + t` are those for `s`, then those for `t` |
| ParallelBasic.RecordedLists | scheduler/parbasic.go:20-28 | each matched tract's population is appended once, under the ZIP of its first containing zone; a ZIP becomes a key iff something is appended under it |
| ParallelBasic.Worker.constructor | scheduler/parbasic.go:46-51 | a worker starts with its slice and an empty map |
| ParallelBasic.Worker.Start | scheduler/parbasic.go:18-29 | the loop leaves `Populations` equal to the recorded lists of its tracts; the zone list is read only |
| ParallelBasic.WorkerLists | scheduler/parbasic.go:40-54 | there is one population map per worker |
| ParallelBasic.AllKeys | scheduler/parbasic.go:59-60 | a ZIP is in the key set iff some worker's map has it |
| ParallelBasic.Reduced | scheduler/parbasic.go:58-65 | a ZIP is a key of the reduction iff some worker appended under it, and its value is the sum over all workers of all their entries for it |
| ParallelBasic.TotalFor | scheduler/parbasic.go:58-65 | the reduced value under a ZIP: the sum over all workers of every entry in their list for it (TotalForStep and Reduce relate it to the loop) |
| ParallelBasic.TotalForStep | scheduler/parbasic.go:59-64 | adding one worker adds the sum of its list for each ZIP |
| ParallelBasic.TotalForNotAppended | scheduler/parbasic.go:58-65 | a ZIP nobody appended under totals 0 |
| ParallelBasic.AddEntries | scheduler/parbasic.go:61-63 | the innermost loop adds a list's sum under its ZIP and touches no other key |
| ParallelBasic.AddWorker | scheduler/parbasic.go:60-64 | the middle loop adds each of a worker's lists under its ZIP |
| ParallelBasic.Reduce | scheduler/parbasic.go:58-65 | the reduction loop computes the reduced map |
| ParallelBasic.Scattered | scheduler/parbasic.go:67-72 | a zone whose ZIP is a key gets that total, otherwise keeps its `PopSum`; only `PopSum` changes; zones sharing a ZIP both get the combined total |
| ParallelBasic.Scatter | scheduler/parbasic.go:67-72 | the scatter loop writes exactly the scattered zones in place |
| ParallelBasic.RunParallelBasic | scheduler/parbasic.go:36-72 | a negative thread count fails at `make` and changes nothing; otherwise the zones are the scatter of the reduction of the workers' lists |
| ParallelBasic.WorkerTotalStep | scheduler/parbasic.go:40-65 | worker `k` adds the populations recorded for its own slice |
| ParallelBasic.TotalOverWorkers | scheduler/parbasic.go:40-65 | the first `k` workers together record exactly the tracts before slice boundary `k` |
| ParallelBasic.ParallelBasicZipTotals | scheduler/parbasic.go:40-72 | from loaded zones and `w >= 1`, each zone ends with the total over all tracts matched under its ZIP |
| ParallelBasic.ZipMatchesDistinct | scheduler/parbasic.go:21-25 | with distinct ZIPs, the populations recorded under zone `i`'s ZIP are the tracts whose first match is zone `i` |
| ParallelBasic.ParallelBasicMatchesSequential | scheduler/parbasic.go:40-72 | with distinct ZIPs, loaded zones and any `w >= 1`, the final zones equal the sequential ones |
| ParallelBasic.NoWorkersChangeNothing | scheduler/parbasic.go:40-72 | with `w = 0` no worker runs and every sum stays as loaded |
| WorkDeque.PopValue | scheduler/parsteal.go:40-48 | what Pop as written returns: nil for at most one item, otherwise the second-newest item (Deque.Pop is proved to return it) |
| WorkDeque.AfterPop | scheduler/parsteal.go:40-48 | what Pop as written leaves: the deque emptied for at most one item, otherwise the deque without its newest item |
| WorkDeque.SlotsDistinct | scheduler/parsteal.go:36-36 | fewer than 8192 consecutive positions map to distinct buffer slots |
| WorkDeque.Deque.Contents | scheduler/parsteal.go:20-24 | the deque holds the works in slots `head .. tail-1` (mod 8192), oldest first |
| WorkDeque.Deque.constructor | scheduler/parsteal.go:26-28 | a new deque is empty |
| WorkDeque.Deque.Push | scheduler/parsteal.go:30-38 | overflow (`tail - head >= 8192`) panics and changes nothing; otherwise slot `tail % 8192` gets the work, `tail` grows by one, `head` and the other slots are unchanged, and the contents gain the work at the end; `0 <= head <= tail <= head + 8192` is kept |
| WorkDeque.Deque.Pop | scheduler/parsteal.go:40-48 | as written: `head` is unchanged; with at most one item, Pop returns nil and sets `tail := head`, discarding that item; otherwise it returns the second-newest item and drops only the newest |
| WorkDeque.Deque.PopCorrected | scheduler/parsteal.go:40-48 | with the index fixed, Pop returns the newest item and removes exactly it, or nil on an empty deque |
| WorkDeque.Deque.Steal | scheduler/parsteal.go:50-62 | on an empty deque Steal returns nil and changes nothing; otherwise it returns the oldest item and advances `head` by one |
| WorkDeque.Filled | scheduler/parsteal.go:30-38 | pushing up to 8192 works onto a new deque holds exactly them, in order |
| WorkDeque.OwnerDrain | scheduler/parsteal.go:40-48 | after pushes `x0..x(k-1)`, successive Pops return `x(k-2), …, x0`, then nil; `x(k-1)` is never returned |
| WorkDeque.OwnerDrainCorrected | scheduler/parsteal.go:40-48 | with the corrected Pop, the owner gets every item, newest first |
| WorkDeque.ThiefDrain | scheduler/parsteal.go:50-62 | after pushes alone, successive Steals return the items in push order |
| WorkDeque.DuplicateDelivery | scheduler/parsteal.go:40-62 | push a, push b, Pop, Steal, Steal gives a, a, nil: a is delivered twice, b never |
| WorkDeque.SingleDeliveryCorrected | scheduler/parsteal.go:40-62 | the same calls with the corrected Pop give b, a, nil |
| WorkDeque.SingleItemLost | scheduler/parsteal.go:42-46 | push a, Pop, Steal gives nil, nil: the only item is discarded |
| StealSchedule.TractsOfPermutation | scheduler/parsteal.go:16-18 | works that are a permutation of each other carry tracts that are too |
| StealSchedule.PopResult | scheduler/parsteal.go:40-48 | the owner's Pop on deque contents: PopValue as written, the newest item when corrected |
| StealSchedule.PopRest | scheduler/parsteal.go:40-48 | a Pop that returns an item removes one; a Pop that returns nil empties the owner's deque |
| StealSchedule.Kept | scheduler/parsteal.go:40-48 | the items of its own deque the owner ever gets: all but the newest as written, all when corrected (KeptStep and RunCovers prove it) |
| StealSchedule.FirstVictim | scheduler/parsteal.go:77-86 | the scan picks the first other deque, in slice order, that has an item; None when all others are empty |
| StealSchedule.Run | scheduler/parsteal.go:73-93 | Start's loop on deque contents: Pop; on nil, steal from FirstVictim; stop when that finds nothing (RunOrder and RunCovers characterize it, ThiefWorker.Start is proved to follow it) |
| StealSchedule.KeptStep | scheduler/parsteal.go:40-48 | each successful Pop hands out the newest item its owner will still get |
| StealSchedule.RunOrder | scheduler/parsteal.go:73-93 | a worker running alone takes the items its Pop yields, newest first, then the other deques' items, deque by deque, oldest first |
| StealSchedule.RunCovers | scheduler/parsteal.go:73-93 | the worker processes every item in every deque once, except the newest item of its own deque under the Pop as written |
| StealSchedule.RunAllEmpty | scheduler/parsteal.go:73-93 | a worker finding every deque empty processes nothing |
| StealSchedule.Dealt | scheduler/parsteal.go:135-137 | what the producer pushes onto deque `j`: the works of the tracts with index ≡ j (mod w), in order (DealtItems) |
| StealSchedule.DealtAll | scheduler/parsteal.go:135-137 | there is one deque per worker and deque `j` holds the tracts dealt to it |
| StealSchedule.DealtItems | scheduler/parsteal.go:135-137 | deque `j` holds exactly the indices ≡ j (mod w), in increasing order |
| StealSchedule.DealtAllStep | scheduler/parsteal.go:135-137 | each push appends tract `i` to deque `i % w` |
| StealSchedule.DealtCovers | scheduler/parsteal.go:135-137 | every tract is dealt to exactly one deque |
| StealSchedule.StealOrder | scheduler/parsteal.go:73-137 | the tracts processed when the producer finishes first and the workers then run one at a time in index order: worker 0 runs the schedule, the others find every deque empty |
| StealSchedule.StealOrderDeques | scheduler/parsteal.go:73-137 | worker 0 takes what its Pop yields from its own deque, newest first, then deques 1..w-1 in turn; later workers find nothing |
| StealSchedule.StealOrderCovers | scheduler/parsteal.go:73-137 | with the corrected Pop, every tract is processed exactly once |
| StealSchedule.ParallelStealCorrectedMatchesSequential | scheduler/parsteal.go:95-137 | with the corrected Pop, the work-stealing zones equal the sequential ones for every `w >= 1` |
| StealSchedule.LostIndex | scheduler/parsteal.go:135-137 | the lost tract is the highest multiple of `w` below `n` |
| StealSchedule.LastDealtToZero | scheduler/parsteal.go:135-137 | the newest work in deque 0 is tract `LostIndex` |
| StealSchedule.DealtWithoutLost | scheduler/parsteal.go:135-137 | without deque 0's newest work, the deques hold every tract but the lost one |
| StealSchedule.WithoutLost | scheduler/parsteal.go:135-137 | the input minus the lost tract, in order; putting the lost tract back at its index rebuilds the input |
| StealSchedule.StealOrderLosesOne | scheduler/parsteal.go:40-137 | with the Pop as written, every tract but the lost one is processed exactly once, and the lost one never |
| StealSchedule.ParallelStealAsWritten | scheduler/parsteal.go:95-137 | with the Pop as written, the zones are the sequential join over every tract but the lost one |
| StealSchedule.LostTractCompletes | scheduler/parsteal.go:95-104 | joining the lost tract afterwards gives the sequential result |
| StealSchedule.SingleWorkerLosesLastTract | scheduler/parsteal.go:73-137 | with one worker, the sums are the sequential ones minus the last tract's population in its first containing zone |
| StealSchedule.DealtTwo | scheduler/parsteal.go:135-137 | two tracts dealt onto two deques land one on each |
| StealSchedule.LaterWorkerFirstLosesOtherTract | scheduler/parsteal.go:40-93 | the lost tract depends on the interleaving: with two tracts and two workers LostIndex is tract 0, but if worker 1 runs first it processes only tract 0, so tract 1 is the one lost |
| ParallelSteal.PopAt | scheduler/parsteal.go:40-48 | Pop (as written or corrected) on deque `j` of the shared list acts on that deque only |
| ParallelSteal.StealAt | scheduler/parsteal.go:50-62 | Steal on deque `j` of the shared list acts on that deque only |
| ParallelSteal.PushAt | scheduler/parsteal.go:30-38 | Push on deque `j` of the shared list acts on that deque only |
| ParallelSteal.ThiefWorker.constructor | scheduler/parsteal.go:121-130 | a worker owns deque `id`, shares the list of all deques and the zones, and pops with the rule it is given |
| ParallelSteal.ThiefWorker.Process | scheduler/parsteal.go:95-104 | the tract's population goes to the first containing zone only; no deque changes |
| ParallelSteal.ThiefWorker.TrySteal | scheduler/parsteal.go:77-86 | the scan skips the worker's own deque and takes the oldest item of the first other deque with one; nothing changes when all are empty |
| ParallelSteal.ThiefWorker.NextWork | scheduler/parsteal.go:75-89 | one round of Start takes the next item of the schedule, or ends it when the schedule is exhausted and every deque is empty |
| ParallelSteal.ThiefWorker.Start | scheduler/parsteal.go:73-93 | the loop processes exactly the schedule of its deques under its Pop rule, and leaves every deque empty |
| ParallelSteal.PoppedStep | scheduler/parsteal.go:75-76 | a Pop that returns an item is the next step of the schedule, and the deques shrink |
| ParallelSteal.StolenStep | scheduler/parsteal.go:77-86 | after a nil Pop, the stolen item is the next step of the schedule, and the deques shrink |
| ParallelSteal.Produce | scheduler/parsteal.go:135-137 | with `w = 0` and any tract, `i % 0` panics; otherwise it overflows iff ⌈n/w⌉ > 8192; on success the deques hold the round-robin deal |
| ParallelSteal.NewDeques | scheduler/parsteal.go:113-116 | `w` distinct empty deques |
| ParallelSteal.NewWorkers | scheduler/parsteal.go:121-133 | worker `i` owns deque `i` and sees all of them |
| ParallelSteal.RunWorkers | scheduler/parsteal.go:121-139 | run after the producer, the workers join the tracts in the order of the schedule |
| ParallelSteal.RunParallelStealWith | scheduler/parsteal.go:107-139 | a negative thread count fails at `make`; `w = 0` with tracts panics on `% 0`; otherwise it overflows iff ⌈n/w⌉ > 8192; on success the zones are the join of the scheduled tracts |
| ParallelSteal.RunParallelSteal | scheduler/parsteal.go:107-139 | as written: the same errors; on success the zones are the sequential join minus exactly the lost tract, and adding that tract back gives the sequential result; with no tracts nothing changes |
| ParallelSteal.RunParallelStealCorrected | scheduler/parsteal.go:107-139 | with the corrected Pop: the same errors; on success the zones equal the sequential join |
| Scheduler.Schedule | scheduler/scheduler.go:10-20 | mode `"s"`, `"pb"` or `"ps"` selects its runner; every other string panics; exactly one outcome |
| Scheduler.ScheduleReadsOnlyMode | scheduler/scheduler.go:10-20 | the outcome depends on the mode alone, so `ThreadCount` is not validated here |
| Scheduler.ModeIsCaseSensitive | scheduler/scheduler.go:11-18 | differently-cased variants and the empty mode panic |
| Scheduler.Dispatch | scheduler/scheduler.go:10-20 | an invalid mode panics and touches no zone; `"s"` gives the sequential join; `"pb"` fails iff `ThreadCount < 0`; `"ps"` loses the one tract |

## Left out

- GeoJSON decoding (section 3 of RFC 7946) is done by a foreign library. `LoadZipcodeAreas` starts from decoded features.
- `loadCensusTracts` is not modelled. It converts a `float64` population to `int` and computes a centroid in floating point. Tracts enter the model already built.
- `planar.PolygonContains` is foreign floating-point code and is the parameter `contains`. Nothing is claimed about which points a merged MultiPolygon contains. Under section 3.1.6 of RFC 7946, rings after the first are holes.
- `writeOutput`, `loadData` and the output paths are file I/O and are not modelled. Each runner takes the tracts and a zone array instead of a `Config`.
- `aggregate/aggregate.go` is not modelled: command-line handling and wall-clock timing.
- Goroutines, `sync.WaitGroup`, the mutex and atomic memory ordering are not modelled. Every run is one sequential interleaving.
- ParallelSteal.RunParallelSteal: models only the interleaving where the producer finishes first and the workers then run one at a time in index order. Other interleavings lose other tracts, or more than one: when workers run concurrently every owner can lose the newest item of its own deque, and with `n = w = 2` and worker 1 first, tract 1 is lost instead of tract 0 (StealSchedule.LaterWorkerFirstLosesOtherTract). In the source, workers start at scheduler/parsteal.go:132, before the producer pushes at scheduler/parsteal.go:135-137. They may exit early or race the producer's Push with the owner's Pop.
- WorkDeque.Deque.Steal: the compare-and-swap retry loop is not modelled. Called one at a time, the first compare-and-swap always succeeds.
- 64-bit overflow of `head`, `tail`, `PopSum` and the `i*n` product in the slice bounds is not modelled: integers are unbounded.
- `Work` is a value here, not a pointer. Two pushes of equal tracts are two equal works, which the proofs count with multisets.

## Findings

| source | as written | input that shows it | evidently intended | confidence | as-written member | corrected member |
|---|---|---|---|---|---|---|
| scheduler/parsteal.go:41 | `atomic.AddInt64` already returns the decremented tail, and Pop subtracts 1 again. It reads slot `oldTail - 2` and keeps `tail = oldTail - 1`. | Push a, push b, Pop, Steal, Steal returns a, a, nil: a is processed twice and b never. Push a, Pop returns nil and a is lost. | `t` is the new tail itself: Pop returns the newest item and removes it | not executed | WorkDeque.DuplicateDelivery | WorkDeque.SingleDeliveryCorrected |
| scheduler/parsteal.go:41 | The first Pop on a worker's own deque drops its newest item: with two or more items the first Pop that returns an item returns the second-newest and drops the newest; with one item the Pop returns nil and discards it. | Any input with `n >= 1` tracts and `w >= 1`, the producer finishing first and the workers then running one at a time in index order: tract `LostIndex(n, w)` is never joined (with `w = 1`, the last tract). Other interleavings lose other tracts, or more than one: with `n = w = 2` and worker 1 running first, tract 1 is lost instead (LaterWorkerFirstLosesOtherTract). | every tract is joined once, as in the sequential run | not executed | ParallelSteal.RunParallelSteal | ParallelSteal.RunParallelStealCorrected |
