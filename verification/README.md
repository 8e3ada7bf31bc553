# AletheiaDB: a verified model

A Dafny model of the parts of AletheiaDB whose correctness is hardest to see by
reading: the lock-free commit clock, the anchor-and-delta version chain, the
lineage graph, the two top-k rerankers, and the protocols, calendars,
statistics and generators its benchmarks and workloads rely on. Every claim is
for all inputs, all runs or all reachable states of the model.

| file | models |
|---|---|
| `CommitClock.dfy` | the commit clock and the storage behind it as a step relation over readers, committers and the replica applier; snapshot isolation over every schedule |
| `VersionChain.dfy` | vector and property deltas, and the version history of a node with its caches |
| `Lineage.dfy`, `LineageWorkload.dfy` | the derivation graph, its closures and cycle guard, and the citation graph of the lineage workload |
| `TopK.dfy`, `Rerank.dfy` | stable top-k, the baseline rerank iterator, and the engine's bounded-heap iterator |
| `BarrierProtocol.dfy` | persistent workers and a driver on two reusable barriers |
| `Calendar.dfy`, `Rfc3339.dfy` | civil-from-days and the timestamps printed with it |
| `OrderStatistics.dfy`, `LatencyGate.dfy` | percentiles, the three rank definitions, and the gate pipeline up to the exit code |
| `JsonRpc.dfy`, `VersionWalk.dfy`, `DeletePool.dfy` | the line-based client, the version extraction and the disposable ids of the round-trip benchmark |
| `Similarity.dfy` | one-pass, three-pass, normalised and engine cosine similarity |
| `Modular.dfy`, `IndexMaps.dfy`, `Traversal.dfy`, `Partition.dfy` | index formulas, generated graphs, multi-hop counts, and work split over threads |
| `Common.dfy` | the few definitions several models share |

Floating-point numbers are exact reals. A square root is a value with the
property of a root. Clocks, sleeps, the operating system's scheduling and the
lines another process writes are parameters or arbitrary steps.

## Where the code does less than it says

- On a replica, a batch of the primary's commits reaches storage before the clock
  is consulted, so ordinary replication lag changes snapshots already handed out
  (`LagBreaksSnapshot`). And `raise_to` compares and then stores, while readers
  reserve stamps without the lock, so the store can move the frontier back and a
  later commit lands at or below a snapshot (`RaceIsReachable`,
  `RaceBreaksSnapshot`). `StepIsSafeExactly` says that these two, a late batch and
  a lowering store, are exactly the steps that break a promise. On a primary
  neither happens, and `SnapshotIsolation` needs no hypothesis.
- A replicated commit at the very stamp of a live reservation is missed by readers
  that come after the clock was raised over it (`RaisedTieIsMissed`).
  `MissesExactly` says that sharing such a reservation is the only step that
  hands out a snapshot missing a raised commit, and `RunMissesExactly` carries
  this over whole runs.
- A delta drops component changes of at most 1e-7. The next delta is taken
  against the cached value as it was written, so the losses of a chain add up,
  and what a read returns depends on what the cache holds
  (`DriftDependsOnCache`). `DiffApplyRoundTrip` says exactly when a delta loses
  nothing, `ReadsAreExact` that a whole history reads as written exactly when no
  change between two anchors loses anything, and `NodeHistory` keeps the bound
  of one epsilon per delta.
- The anchor interval, the reconstruction depth and the version limit are free
  settings. If the interval is at most a positive depth, or the limit is at most
  the depth, no read fails (`ReadsSucceed`). Under every other setting a history
  can be written whose last version cannot be read once the caches have dropped
  it (`DeepHistory`); if there is room for a further version and it is due as a
  delta, that one cannot be written either.
- A closure query with depth 0 reports that nothing more exists even when
  something does (`DepthZeroHidesMore`); `ComputeClosure` says that this is the
  only such case.
- The identifier generator refuses ids above its limit, so the concurrent
  benchmark finishes exactly when all its calls fit
  (`FinishesExactlyWithinCapacity`; `ExhaustedNeverFinishes` is one that does not
  fit).
- The one-pass and three-pass similarities can differ on vectors of different
  length (`DifferentLengthsDiffer`); `OnePassIsThreePass` says exactly when they
  agree.
- The scattered reads visit every pair once exactly when the stride is coprime
  to the number of versions (`ReadsVisitOnce`, and `ReadsCanRepeat` for two nodes
  of five versions). The power-law graph repeats an edge unless it has at least
  100 nodes, or 1700 where 17 divides their number (`PowerLawRowsSimple`, and
  `HubRepeatsTarget` for 50 nodes), and has edges from a node to itself exactly
  when `PowerLawSelfTargets` says so (`HubTargetsItself` for 35 nodes).

## Model

| member | source | states |
|---|---|---|
| CommitClock.PackRoundTrip | src/core/commit_clock.rs:127-146 | packing a timestamp into the 128-bit cell loses nothing and keeps the order |
| CommitClock.EncodeFaithful | src/core/commit_clock.rs:150-177 | the two flag bits and the packed stamp never overlap: equal words mean equal stamps and flags, and masking gives the stamp back |
| CommitClock.InitInv | src/core/commit_clock.rs:193-204 | a new clock satisfies the invariant |
| CommitClock.IssueInv | src/core/commit_clock.rs:230-290 | handing out a snapshot at or ahead of everything applied keeps all promises already made |
| CommitClock.ApplyBatchInv | src/storage/replication/apply.rs:128-199 | a batch whose new commits all lie after the snapshots handed out leaves every snapshot as it was |
| CommitClock.StepInv | src/core/commit_clock.rs:230-480 | every step of a reader, committer or applier that is neither a late batch nor a lowering store keeps the invariant, only adds snapshots and never moves the frontier back |
| CommitClock.RunInv | src/core/commit_clock.rs:24-118 | the invariant, with all four promises to every snapshot, holds along whole runs without those two steps |
| CommitClock.SnapshotIsolation | src/core/commit_clock.rs:24-118 | on a primary, for any number of readers and any schedule: what a snapshot sees never changes, includes everything published before it was asked for, sorts before every later commit, and snapshots never go backwards |
| CommitClock.ReplicaIsolation | src/storage/replication/apply.rs:101-199 | the same on a replica, replicated commits included, along every run whose applier takes neither breaking step |
| CommitClock.LateBatchBreaks | src/storage/replication/apply.rs:128-199 | a batch with a new commit at or before a snapshot handed out breaks a promise at once |
| CommitClock.LoweringCollides | src/core/commit_clock.rs:337-357 | from any state where the pending store is behind the frontier, a commit can take the stamp of a live snapshot |
| CommitClock.StepIsSafeExactly | src/core/commit_clock.rs:230-480 | a step leaves every promise intact for every continuation if and only if it is neither a late batch nor a lowering store |
| CommitClock.MissesExactly | src/core/commit_clock.rs:230-290 | a step hands out a snapshot that misses a commit the clock had been raised over if and only if it shares a reservation at the very stamp of such a commit; the load beside a commit in flight and the compare-exchange never do |
| CommitClock.RunMissesExactly | src/core/commit_clock.rs:230-290 | along whole runs without a breaking step, no snapshot misses a raised commit if and only if no step shares such a reservation |
| CommitClock.LagBreaksSnapshot | src/storage/replication/apply.rs:128-199 | a concrete run in which the clock only moves forward and replication lag changes a snapshot already handed out |
| CommitClock.RaceIsReachable | src/core/commit_clock.rs:230-357 | a concrete run, with no breaking step, reaches a state whose pending store would lower the frontier |
| CommitClock.RaceBreaksSnapshot | src/core/commit_clock.rs:337-357 | from that state a commit appears below a snapshot already handed out |
| CommitClock.TiedIsReachable | src/core/commit_clock.rs:230-290 | a concrete run replays a commit and then reserves its very stamp |
| CommitClock.RaisedTieIsMissed | src/core/commit_clock.rs:248-262 | from there the clock counts as raised and the next reader misses the commit |
| VersionChain.DiffVectors | src/core/version.rs:159-200 | the scan returns the sparse, full or absent delta of the specification |
| VersionChain.ApplyVectorDelta | src/core/version.rs:209-236 | applying a delta in place gives the patched vector, or the base on a dimension mismatch |
| VersionChain.PatchAt | src/core/version.rs:159-236 | each component after a patch is the new one where it changed by more than epsilon and the base one elsewhere |
| VersionChain.ChangesEmpty | src/core/version.rs:94-106 | no change is recorded exactly when every component is within epsilon |
| VersionChain.CompareAt | src/core/version.rs:430-465 | which of the three outcomes one key of the new map has |
| VersionChain.VectorAt | src/core/version.rs:550-568 | what one vector delta puts under its key, and when it is dropped |
| VersionChain.DiffProperties | src/core/version.rs:418-476 | the loops compute the delta: changed values, vector deltas and removed keys |
| VersionChain.ApplyProperties | src/core/version.rs:505-571 | the three passes compute the application of a delta to a base |
| VersionChain.ReappliedExact | src/core/version.rs:159-236 | one vector survives its delta if and only if the change is lossless |
| VersionChain.DiffApplyRoundTrip | src/core/version.rs:418-571 | applying the difference gives the new properties back if and only if every changed vector is lossless |
| VersionChain.PatchClose | src/core/version.rs:94-236 | patching a base within a tolerance of the old vector lands within that tolerance plus epsilon of the new one |
| VersionChain.ApplyDiffClose | src/core/version.rs:418-571 | one more delta adds at most epsilon to the error of whatever base it is applied to |
| VersionChain.ExtendWithAnchor | src/storage/historical/mod.rs:849-1025 | appending an anchor keeps every version recoverable and resets the depth |
| VersionChain.ExtendWithDelta | src/storage/historical/mod.rs:849-1025 | appending a delta, taken against the written or the reconstructed value, keeps every version within epsilon per delta |
| VersionChain.DeltaExactness | src/storage/historical/mod.rs:849-1025 | an exact chain stays exact under a delta if and only if the written step is lossless |
| VersionChain.ExtendExact | src/storage/historical/mod.rs:849-1025 | appending a version keeps the anchors a fixed interval apart, and the chain exact exactly when all changes stored as deltas are lossless |
| VersionChain.Replay | src/storage/historical/mod.rs:1596-1630 | applying the deltas after an anchor in order gives the value the chain denotes |
| VersionChain.NodeHistory.constructor | src/storage/historical/mod.rs:302-310 | an empty history is valid |
| VersionChain.NodeHistory.Reconstruct | src/storage/historical/mod.rs:1522-1632 | walking back to an anchor and reapplying the deltas returns exactly the value the chain denotes, or the depth error |
| VersionChain.NodeHistory.Read | src/storage/historical/mod.rs:1752-1775 | a cached read returns the written or the reconstructed value, never further off than the chain allows, and keeps the caches truthful |
| VersionChain.NodeHistory.Evict | src/storage/historical/mod.rs:1455-1460 | dropping cache entries keeps the history valid |
| VersionChain.NodeHistory.AddVersion | src/storage/historical/mod.rs:849-1025 | a write fails exactly at the version limit or when the delta it needs cannot read its base, with which error; otherwise exactly one anchor, or the delta against the cached base, is appended, leaving every version recoverable |
| VersionChain.NodeHistory.AddAnchor | src/storage/historical/mod.rs:849-1025 | an anchor is appended exactly and its caches are filled |
| VersionChain.NodeHistory.AddDelta | src/storage/historical/mod.rs:905-925 | the delta against the cached previous value is appended, or exactly the error of reading that value is returned and nothing is appended |
| VersionChain.NodeHistory.NextDelta | src/storage/historical/mod.rs:905-925 | the delta against the cached previous value, which extends the chain, exactly if the step is lossless; or exactly the error of that read |
| VersionChain.NodeHistory.Append | src/storage/historical/mod.rs:1010-1025 | the version is stored and its written properties are cached |
| VersionChain.DriftDependsOnCache | src/storage/historical/mod.rs:1455-1460 | three writes through the history: the last version reads as written while cached, two epsilons off once evicted, and as written if the caches were dropped before its write |
| VersionChain.WriteAndRead | src/storage/historical/mod.rs:1010-1025 | a third write read with and without its cached copy, for either base its delta may have been taken from |
| VersionChain.NodeHistory.ReadsSucceed | src/storage/historical/mod.rs:1536-1551 | with anchors at most a positive depth limit apart, or a version limit at most the depth limit, no read of an existing version fails and a write fails only at the version limit |
| VersionChain.NodeHistory.ReadsAreExact | src/storage/historical/mod.rs:849-1025 | if every change that falls between two anchors is lossless, every read gives back what was written whatever the caches hold and held; with empty caches, only then |
| VersionChain.DeepHistory | src/storage/historical/mod.rs:1536-1551 | under every other setting of the three limits a history exists, written without a refusal, whose last version cannot be read once evicted; if there is room and a delta is due, the next version cannot be written |
| Lineage.FreshVersions | src/core/lineage.rs:298-331 | filtering references keeps each new version once and drops the visited ones |
| Lineage.ExpandVersions | src/core/lineage.rs:446-472 | a version is among the expansion exactly when it is adjacent to the frontier |
| Lineage.LevelIsDistance | src/core/lineage.rs:429-490 | after d levels exactly the versions within d hops are visited and the frontier is at distance d |
| Lineage.WithinIsClosure | src/core/lineage.rs:429-490 | a version is listed at depth k if and only if k is its distance from the root, at least one and at most the bound |
| Lineage.WithinDistinct | src/core/lineage.rs:429-490 | no version is listed twice |
| Lineage.WithinGrows | src/core/lineage.rs:429-490 | a deeper query extends a shallower one |
| Lineage.ExhaustedWithin | src/core/lineage.rs:444-445 | once a level is empty nothing is found at any later one |
| Lineage.ScanNeighbours | src/core/lineage.rs:455-470 | one node's neighbours are listed, marked and queued up to the limit |
| Lineage.ExpandLevel | src/core/lineage.rs:444-483 | one level of the search gives the next frontier, visited set and entries, or stops at the limit |
| Lineage.ComputeClosure | src/core/lineage.rs:429-490 | the entries are the first `limit` of the closure, nearest first, and `hasMore` holds exactly when depth is not zero and an entry is missing |
| Lineage.DepthZeroHidesMore | src/core/lineage.rs:429-490 | a one-edge graph whose closure at depth 0 is empty and reports nothing more |
| Lineage.NoCycles | src/core/lineage.rs:334-340 | in a ranked graph no version derives from itself |
| Lineage.AddRecordRanked | src/core/lineage.rs:298-357 | recording a derivation that closes no cycle keeps the graph ranked |
| Lineage.Search | src/core/lineage.rs:375-406 | the breadth-first search ends with a walk to the target, or none exists |
| Lineage.UpstreamPathTo | src/core/lineage.rs:375-406 | a path is returned if and only if the target is reachable, and it is a walk from start to target |
| Lineage.DistinctSources | src/core/lineage.rs:304-331 | the sources in order without repetitions, or a self-derivation |
| Lineage.Judge | src/core/lineage.rs:298-345 | each of the four verdicts is given exactly in its case, a cycle with a walk that proves it |
| Lineage.PushMirrored | src/core/lineage.rs:342-356 | recording keeps both adjacency maps saying the same thing |
| Lineage.LineageStore.constructor | src/core/lineage.rs:267-269 | an empty store is valid |
| Lineage.LineageStore.RecordDerivation | src/core/lineage.rs:298-357 | the store changes exactly as the verdict says and stays acyclic and mirrored |
| Lineage.LineageStore.UpstreamClosure | src/core/lineage.rs:410-418 | the truncated upstream closure at a transaction time, its root, and exactly when more exists |
| Lineage.LineageStore.DownstreamClosure | src/core/lineage.rs:421-427 | the truncated downstream closure at a transaction time, its root, and exactly when more exists |
| Lineage.EdgesReverse | src/core/lineage.rs:515-560 | a version is one hop downstream exactly when the other is one hop upstream |
| Lineage.WalksReverse | src/core/lineage.rs:410-427 | blast radius and provenance are converse relations at every distance and time |
| LineageWorkload.NextFactAccepted | examples/bolt_lineage_workload.rs:72-86 | no fact of the workload is ever rejected as a cycle or repetition |
| LineageWorkload.BuildGraph | examples/bolt_lineage_workload.rs:62-91 | the nested loops leave exactly the citation graph, and `waves[k]` is wave k |
| LineageWorkload.DownIsCitation | examples/bolt_lineage_workload.rs:70-89 | the root leads to wave 0 and every fact to its counterpart in the next wave only |
| LineageWorkload.RootLevels | examples/bolt_lineage_workload.rs:102-110 | level d + 1 of the search from the root is exactly wave d |
| LineageWorkload.RootClosure | examples/bolt_lineage_workload.rs:102-110 | the root's closure bounded at d has min(d, levels) waves of facts |
| LineageWorkload.FactDistance | examples/bolt_lineage_workload.rs:57-62 | a fact of wave k is exactly k + 1 derivations from the root |
| LineageWorkload.ChainClosure | examples/bolt_lineage_workload.rs:112-119 | the closure of a wave-m fact is one chain of min(depth, levels - 1 - m) facts |
| LineageWorkload.OneParent | examples/bolt_lineage_workload.rs:121-128 | one hop upstream of any fact there is exactly one version |
| LineageWorkload.RunWorkload | examples/bolt_lineage_workload.rs:93-134 | the printed sum in closed form, at 64 bits |
| TopK.SortIsStable | benches/vector_rerank.rs:90-92 | the sort is descending, a permutation, and keeps the order of equal scores |
| TopK.AnyStableSort | benches/vector_rerank.rs:90-92 | any descending stable rearrangement is that same list |
| TopK.TopStreams | benches/hybrid_query.rs:706-709 | top-k of the top-k of a prefix followed by the rest is the top-k of the whole, ties included |
| TopK.TopIsRanking | benches/hybrid_query.rs:752-755 | sorting everything and truncating gives min(k, n) elements in descending order such that nothing left out scores more than anything kept |
| TopK.RankingScores | benches/hybrid_query.rs:752-755 | elements of the input in descending order are a ranking if and only if their scores are those of the sorted prefix |
| TopK.RankingWithoutTies | benches/hybrid_query.rs:752-755 | without equal scores every ranking is the sorted prefix |
| TopK.DrainedHeapRanks | src/query/executor/iterators.rs:3162-3210 | a heap that kept the k best, drained in descending order, is a ranking of everything offered |
| Rerank.WholeRun | benches/vector_rerank.rs:47-101 | every call of a run: the top-k rows in order then nothing forever; after an input error that error once then nothing; without a vector property an error every time |
| Rerank.RerankStreams | benches/vector_rerank.rs:75-92 | buffering only the top-k of any prefix of the input changes nothing |
| Rerank.BaselineRerank.constructor | benches/vector_rerank.rs:29-45 | the requested property wins over the default one, and nothing is consumed yet |
| Rerank.BaselineRerank.Next | benches/vector_rerank.rs:61-101 | one call does what the run specification says of its state |
| Rerank.Offer | src/query/executor/iterators.rs:3178-3196 | pushing, keeping or evicting the least keeps the k best seen so far |
| Rerank.OfferRow | src/query/executor/iterators.rs:3114-3200 | a row is scored and offered, skipped without a vector, and an error exactly on a length mismatch |
| Rerank.FailureIsErrorOrMismatch | src/query/executor/iterators.rs:3114-3200 | a run fails exactly when an input item is an error or a vector has the wrong length |
| Rerank.IntoSorted | src/query/executor/iterators.rs:3203-3210 | emptying the heap gives its rows in descending order |
| Rerank.HeapRerank.constructor | src/query/executor/iterators.rs:3055-3104 | the requested property wins over the default one, and nothing is consumed yet |
| Rerank.HeapRerank.Drain | src/query/executor/iterators.rs:3145-3227 | the bounded heap yields a ranking of all scored rows, or the first failure |
| Rerank.HeapRerank.Next | src/query/executor/iterators.rs:3145-3227 | calls emit such a ranking one row at a time, then nothing |
| Rerank.EngineRun | src/query/executor/iterators.rs:3145-3228 | every call of a whole run: the rows of a ranking then nothing forever; a failure once then nothing; without a vector property an error every time |
| Rerank.EngineIsBaseline | benches/vector_rerank.rs:61-101 | when nothing fails and no scores tie, every call of the engine gives what the baseline gives |
| BarrierProtocol.StepInv | benches/current_state.rs:290-333 | every step of every thread keeps the phase invariant |
| BarrierProtocol.WorkersStayInStep | benches/current_state.rs:290-333 | no worker is more than one barrier ahead of another |
| BarrierProtocol.NoWorkAfterStop | benches/current_state.rs:305-318 | no worker draws ids or waits on the done barrier once stopped |
| BarrierProtocol.NeverStuck | benches/current_state.rs:290-333 | until everything has finished some thread can step |
| BarrierProtocol.FinishedMeansDone | benches/current_state.rs:305-333 | at the end every worker has exited after exactly rounds times ids calls |
| BarrierProtocol.NoPanic | src/core/id.rs:397-406 | within capacity no draw is refused |
| BarrierProtocol.RankDrops | benches/current_state.rs:290-333 | a measure falls with every step, so every schedule is finite |
| BarrierProtocol.EveryScheduleCompletes | benches/current_state.rs:290-333 | within capacity every run is bounded in length, keeps the invariant, and can only stop finished |
| BarrierProtocol.SomeRunFinishes | benches/current_state.rs:290-333 | from every reachable state a run to the end exists |
| BarrierProtocol.FinishingNeedsCapacity | src/core/id.rs:397-406 | a run that finishes never drew a refused id |
| BarrierProtocol.FinishesExactlyWithinCapacity | benches/current_state.rs:290-333 | a finishing run exists if and only if all calls fit below the id limit |
| BarrierProtocol.ExhaustedNeverFinishes | benches/current_state.rs:290-333 | one worker with two calls and a single id: no schedule finishes |
| Calendar.EraIsFloor | benches/mcp_round_trip.rs:412-412 | the shifted truncating division is the floor for every day, negative ones included |
| Calendar.YearOfEraIs | benches/mcp_round_trip.rs:414-414 | the year-of-era formula names the March year that holds the day |
| Calendar.MarchYearStep | benches/mcp_round_trip.rs:415-420 | within a March year each date is valid and the next day is the next calendar day |
| Calendar.CivilStep | benches/mcp_round_trip.rs:406-420 | one day later the closed form gives the next calendar day |
| Calendar.CivilIsCalendar | benches/mcp_round_trip.rs:406-420 | for every integer day the closed form is the date reached from 1970-01-01 one day at a time |
| Calendar.CalendarValid | benches/mcp_round_trip.rs:406-420 | every such date exists: month lengths and the leap rule hold |
| Rfc3339.DayNumberOfCivil | benches/mcp_round_trip.rs:406-420 | the date of a day has that day number |
| Rfc3339.CivilOfDayNumber | benches/mcp_round_trip.rs:406-420 | every valid date is the date of its day number |
| Rfc3339.SplitThenJoin | benches/mcp_round_trip.rs:403-420 | splitting microseconds into fields and joining them loses nothing, before the epoch as well |
| Rfc3339.JoinThenSplit | benches/mcp_round_trip.rs:403-420 | joining valid fields and splitting gives them back |
| Rfc3339.RenderThenParse | benches/mcp_round_trip.rs:421-422 | fixed-width fields parse back to their numbers |
| Rfc3339.ParseThenRender | benches/mcp_round_trip.rs:421-422 | whatever the grammar accepts is the rendering of its numbers |
| Rfc3339.RangeIsFourDigitYears | benches/mcp_round_trip.rs:403-422 | the representable microseconds are exactly those of the years 0000 to 9999 |
| Rfc3339.OutOfRangeUnparsable | benches/mcp_round_trip.rs:421-422 | outside that range the output is not a date-time of the grammar |
| Rfc3339.FormatThenParse | benches/mcp_round_trip.rs:403-422 | parsing the output gives the microseconds back if and only if they are in range |
| Rfc3339.ParseThenFormat | benches/mcp_round_trip.rs:403-422 | every accepted text is the output for the instant it denotes |
| Rfc3339.FormatLength | benches/mcp_round_trip.rs:421-422 | in range the output has 27 characters |
| Rfc3339.TextOrderIsTimeOrder | benches/mcp_round_trip.rs:403-422 | in range, text order is time order |
| OrderStatistics.KthByCounting | benches/mcp_round_trip.rs:187-206 | the k-th smallest sample is the one number with at most k samples below it and more than k at most it |
| OrderStatistics.AnySort | benches/mcp_round_trip.rs:188-188 | any ascending rearrangement is the same list, so an unstable sort will do |
| OrderStatistics.SlowerKth | benches/mcp_round_trip.rs:187-206 | slowing each sample by at least c moves each order statistic by at least c |
| OrderStatistics.ShiftedKth | benches/mcp_round_trip.rs:187-206 | a uniform shift moves each order statistic by exactly that much |
| OrderStatistics.NearestRank | benches/mcp_round_trip.rs:191-199 | the nearest rank is an index of the samples for every fraction |
| OrderStatistics.RoundedRank | benches/provenance_write_throughput.rs:680-688 | the rounded rank is an index of the samples for every fraction |
| OrderStatistics.FloorRank | benches/cold_storage.rs:263-268 | the floor rank is an index of the samples for every fraction |
| OrderStatistics.RanksMonotone | benches/cold_storage.rs:263-272 | all three ranks grow with the fraction |
| OrderStatistics.RanksWithinOne | benches/provenance_write_throughput.rs:680-688 | any two of the three ranks are at most one apart, and nearest and floor differ exactly at whole products |
| OrderStatistics.RanksOutside | benches/provenance_write_throughput.rs:680-688 | a fraction outside 0 to 1 is clamped to the same end by all three |
| OrderStatistics.NearestRankIsLeast | benches/mcp_round_trip.rs:190-199 | the percentile is a sample and the least number that at least the fraction of the samples do not exceed |
| OrderStatistics.SummaryOrdered | benches/mcp_round_trip.rs:187-209 | min, p50, p95, p99 and max are in order, bound all samples, and the mean lies between |
| OrderStatistics.SlowerSummary | benches/mcp_round_trip.rs:187-209 | slower samples make every figure slower by as much |
| OrderStatistics.ShiftedSummary | benches/mcp_round_trip.rs:187-209 | a uniform shift moves every figure by exactly that much |
| LatencyGate.MeasureScenario | benches/mcp_round_trip.rs:1697-1761 | the loops collect each call's time, with the injected sleep only in the configured gated scenario |
| LatencyGate.EvaluateLatency | benches/mcp_round_trip.rs:2033-2038 | the loop lists the gated scenarios over the absolute gate, in order |
| LatencyGate.EvaluateRelative | benches/mcp_round_trip.rs:1859-1885 | the loop makes one row per gated scenario with a baseline |
| LatencyGate.FindMissing | benches/mcp_round_trip.rs:1993-2002 | tools are missing exactly when some advertised one has no scenario |
| LatencyGate.RunBenchmark | benches/mcp_round_trip.rs:1993-2183 | the whole pipeline ends in the specified exit code |
| LatencyGate.GateFailuresExactly | benches/mcp_round_trip.rs:2033-2038 | the absolute gate reports something exactly when a gated p99 reaches 5 ms |
| LatencyGate.RegressionsExactly | benches/mcp_round_trip.rs:1859-1885 | the relative gate reports something exactly when a gated median exceeds its allowance or its baseline is not positive |
| LatencyGate.PassesExactly | benches/mcp_round_trip.rs:2163-2183 | exit 0 if and only if the registry is complete and no enforced gate has anything to report |
| LatencyGate.InjectionIsCaught | benches/mcp_round_trip.rs:1703-1730 | injecting at least the threshold into a gated scenario with enforcement on ends in 3, or in 2 for an incomplete registry |
| LatencyGate.InjectionRegresses | benches/mcp_round_trip.rs:1703-1730 | injecting more than a baseline's allowance with relative enforcement never passes |
| LatencyGate.SlowerNeverPasses | benches/mcp_round_trip.rs:2033-2183 | a run in which no reading is faster never passes where the faster one fails, nor fails more mildly |
| LatencyGate.OverheadIsTransportCost | benches/mcp_round_trip.rs:1684-1696 | a transport that adds c to every direct call is reported as exactly c at every percentile |
| JsonRpc.StepInv | benches/mcp_round_trip.rs:268-334 | every step of client and server keeps ids in order, answers recorded and the pending answer in the pipe |
| JsonRpc.CallsMatchAnswers | benches/mcp_round_trip.rs:268-334 | in every session the k-th call returns the answer to the k-th request, ids never repeat, and the client gives up only on a server that closed unanswered |
| JsonRpc.AnsweredCallReturns | benches/mcp_round_trip.rs:268-288 | an answered call returns after reading to the first matching line, whatever lies in front |
| JsonRpc.McpClient.constructor | benches/mcp_round_trip.rs:250-258 | ids start at 1 |
| JsonRpc.McpClient.ReadForId | benches/mcp_round_trip.rs:268-288 | the loop returns the first line with the id and consumes up to it, or reports the end of the output |
| JsonRpc.McpClient.CallTool | benches/mcp_round_trip.rs:325-334 | one fresh id is sent and its first answer returned |
| VersionWalk.ParsePrinted | benches/mcp_round_trip.rs:1803-1805 | parsing undoes printing for every 64-bit number, with or without a plus, and refuses every larger one |
| VersionWalk.CollectVersions | benches/mcp_round_trip.rs:1795-1813 | the walk only appends, and appends the versions of the tree |
| VersionWalk.WalkSelectsFields | benches/mcp_round_trip.rs:1795-1813 | the versions are exactly the version fields among all fields at any depth, in traversal order, containers under version keys descended into |
| DeletePool.MeasureDeletes | benches/mcp_round_trip.rs:1711-1743 | which timed deletes of either database name an id not deleted before |
| DeletePool.TimedDeletesHitLive | benches/mcp_round_trip.rs:428-435 | all timed deletes hit live ids if and only if the pool has warmup + 2 * samples ids, and with the fixture's size no index of either database wraps |
| Similarity.FoldIsSums | benches/vector_similarity.rs:42-48 | the single fold computes the three sums |
| Similarity.CauchySchwarz | benches/vector_similarity.rs:42-57 | the squared dot product never exceeds the product of squared magnitudes, for vectors of any length |
| Similarity.OnePassUnclamped | benches/vector_similarity.rs:50-56 | the clamp never changes the one-pass result |
| Similarity.OnePassIsThreePass | benches/vector_similarity.rs:42-74 | both versions agree if and only if the vectors are orthogonal on their common part or zero past it; always at equal length |
| Similarity.DifferentLengthsDiffer | benches/vector_similarity.rs:42-74 | vectors of lengths 1 and 2 on which the two versions return 1 and 0.6 |
| Similarity.UnitLength | benches/vector_similarity.rs:186-190 | a vector divided by its magnitude has length one |
| Similarity.NormalisingKeepsCosine | benches/vector_similarity.rs:186-190 | normalising both inputs keeps the similarity, and the engine's shortcut returns it |
| Similarity.EngineIsThreePass | src/core/vector/ops.rs:129-174 | the engine agrees with the scalar version if and only if the lengths match and the vectors are orthogonal or both above the threshold |
| Similarity.DistanceFromDot | benches/vector_similarity.rs:250-258 | the squared distance in terms of the dot product and the magnitudes |
| IndexMaps.ScatteredReads | examples/bolt_temporal_workload.rs:129-149 | the read loop asks for the scheduled pairs in order |
| IndexMaps.ReadsVisitOnce | examples/bolt_temporal_workload.rs:131-139 | the first nodes * versions reads visit every pair exactly once if and only if 7 * nodes + 1 is coprime to versions |
| IndexMaps.DefaultReadsDiffer | examples/bolt_temporal_workload.rs:61-64 | with the default sizes all 8000 reads differ |
| IndexMaps.ReadsCanRepeat | examples/bolt_temporal_workload.rs:61-64 | with two nodes of five versions a pair is read twice |
| IndexMaps.MakeEdges | benches/recovery_benchmarks.rs:88-105 | exactly the requested number of edges, by the index formula |
| IndexMaps.EdgesAreSimple | benches/recovery_benchmarks.rs:88-105 | no self-loop exactly up to n * (n - 1) edges, no repeated pair exactly up to n * n |
| IndexMaps.PowerLawEdges | benches/hybrid_query.rs:121-140 | the nested loops create each node's stride targets in order |
| IndexMaps.PowerLawCount | benches/hybrid_query.rs:95-133 | the number of edges the three degree classes add up to |
| IndexMaps.StrideTargetsDistinct | benches/hybrid_query.rs:134-139 | a node's targets are different if and only if its degree is at most n, or n / 17 when 17 divides n |
| IndexMaps.PowerLawRowsSimple | benches/hybrid_query.rs:121-140 | no node of the built graph repeats a target if and only if there are none, at least 100, or at least 1700 nodes where 17 divides their number |
| IndexMaps.HubRepeatsTarget | benches/hybrid_query.rs:121-140 | with 50 nodes a node has two edges to the same target |
| IndexMaps.PowerLawSelfTargets | benches/hybrid_query.rs:121-140 | no node leads to itself if and only if the number of nodes divides none of 17 j + 1 below the largest degree; never when 17 divides it |
| IndexMaps.HubTargetsItself | benches/hybrid_query.rs:121-140 | with 35 nodes a node leads to itself |
| Traversal.NestedThreeHops | benches/current_state.rs:100-120 | the nested loops count the walks of three edges |
| Traversal.FrontierThreeHops | benches/performance_targets.rs:96-102 | the frontier loop counts the same walks |
| Traversal.FrontierCountsWalks | benches/performance_targets.rs:96-102 | after k expansions the frontier has one entry per walk of k edges, on any graph and for any k |
| Traversal.CreateTestGraph | benches/current_state.rs:48-64 | the nested loops create the rows of the ring-shaped graph |
| Traversal.TestGraphRegular | benches/current_state.rs:48-62 | every node has the capped degree both ways, to and from different nodes, never itself |
| Traversal.RegularWalks | benches/current_state.rs:100-120 | on that graph every node starts m to the power k walks |
| Partition.AnyInterleaving | examples/bolt_recovery_workload.rs:76-102 | however threads interleave, position k of the joined ids leads to item k, each id is returned once, and storage holds exactly the items |
| Partition.NeverStuck | examples/bolt_recovery_workload.rs:76-102 | until all threads are done one of them can go on |
| Partition.ChunksCover | examples/bolt_recovery_workload.rs:77-82 | with at least one thread the chunks are all items once and in order; with none there is no work |
| Partition.ThreadNodes | examples/bolt_recovery_workload.rs:83-94 | a thread creates its chunk of the nodes |
| Partition.NodesInOrder | examples/bolt_recovery_workload.rs:76-102 | for every count, thread number and interleaving, the k-th returned id is the node made for index k; with no threads nothing is made or returned |
| Partition.ThreadEdges | examples/bolt_recovery_workload.rs:118-131 | a thread creates the edges of its sources, whenever that does not divide by an empty list of targets |
| Partition.EdgesAsSequential | examples/bolt_recovery_workload.rs:104-133 | for every thread number and interleaving storage ends with the edges of the sequential double loop; with no threads, with none |

## Left out

- Write-ahead log, indexes, query planner, log shipping and the rest of the engine: only what the results above need is modelled.
- `reset_to` of the commit clock, lock poisoning, and batches that fail halfway and are replayed again.
- CommitClock.ReplicaIsolation: for runs whose applier takes neither breaking step, because the property is false otherwise; StepIsSafeExactly gives the condition.
- CommitClock.ApplyBatchInv: a batch lands at once, because replay holds the storage lock and the publish window; readers that take neither are not modelled.
- Structural versions (exempt from the version limit), cold tiers, temporal intervals, edges and several nodes in one history; not-a-number and infinite components.
- VersionChain.NodeHistory.AddVersion: vectors beyond the dimension limit are excluded, because the property value's constructor refuses them.
- Rerank threshold, score alias and distance metrics other than the one compared.
- Rerank.HeapRerank.Next: the order among equal scores is left open, because the heap does not keep it.
- Lineage transaction-time visibility is part of the graph view; the lock that makes a record atomic is not a separate step.
- Floating-point rounding, SIMD dispatch, and machine-word overflow of counters and products other than the 64-bit sum of the lineage workload.
- LatencyGate.RunBenchmark: tables, artifacts and the informational overhead check are not modelled; a negative injected latency, which panics, is not a run.
- JsonRpc request parameters, the handshake's check of its result, and the encoding of lines.
- The pseudo-random edge filling of the round-trip fixture, and environment parsing.
- Traversal edge labels and weights, and the order in which storage lists edges.
- Process spawning, files, embeddings, HTTP and tracing examples.
