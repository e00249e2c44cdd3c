# Verification of the rustfs core

This project models the logic at the heart of the object store and proves what
it promises, in Dafny 4.11. `dafny verify dfyconfig.toml` checks all of it.

| files | part of the system |
|---|---|
| `UsageStats`, `UsageGraph`, `UsageRewrites`, `UsageCache`, `UsageExamples` | the data-usage cache: a map of path keys to entries that name their children, flattened, deleted, compacted, garbage-collected, copied and merged in place |
| `UsageInfo` | merging usage infos and buckets, and aggregating per-disk snapshots |
| `UsageRefresh` | the flag protocol by which concurrent readers refresh the usage figures |
| `BatchProcessor` | tasks under a semaphore with results put back by index |
| `AuditLocks`, `AuditLifecycle`, `AuditRetry` | the audit system: its three locks and its lifecycle under concurrency, and the retry loop |
| `DisksLayout`, `SetSizes`, `Expansion`, `Endpoints` | choosing the erasure-set size, expanding ellipses, cutting drives into sets, indexing endpoints and rejecting conflicting topologies |
| `LastMinute` | the sixty-slot ring behind the last-minute figures |
| `Strings`, `Version`, `VersionOrder` | version parsing, cleaning, ordering and incrementing |
| `Bitrot` | the position arithmetic and the frame format of shard files |
| `Prelude`, `Arith`, `Folds` | shared datatypes and lemmas |

## How the proofs are built

* **Usage cache.** Reachability is the least closed set of present keys, so
  statements about deletion and collection hold on every graph, cyclic ones
  included. Totals are stated per counter (four numbers and each histogram
  slot) as `Flat`, which adds along every chain as the code does; `TreeFlat`
  ties it to counting each entry once. The class methods carry the map they
  leave behind, and the lemmas in `UsageRewrites` say what that map means for
  the totals.
* **Protocols.** The refresh, the batch processor and the audit locks are state
  machines; a run is a sequence of states joined by enabled steps, and the main
  lemmas hold for every state of every run.
* **Layout and topology.** Success is characterised exactly: `GetAllSets`,
  `CreatePools`, `Create` and the two `FromVolumes` say when they succeed as well
  as what they return.
* **References.** Where a method is tied to a function of the same shape, a
  lemma ties that function to an independent description: `VersionOrder` says
  what newer means by numbers, words and characters, `SetSizes` which sizes are
  taken by remainders, `Expansion` that ellipses give every choice once, and
  `Bitrot.DamageIsSeen` what becomes of a damaged file.
* **The ring.** A ghost log records what was added; the ring represents it if
  each slot holds its second of the current window.

## Where the code and its promise part

These are proved about the code as it is, with the exact condition.

* `UsageRewrites.CompactFlat`: compaction keeps totals on trees, but on a cache
  with shared children it loses what is also reached around the compacted path
  (`UsageExamples.SharedChildLost`).
* `UsageRewrites.MergeFlat`: merging adds up if the other root names no child
  that this root lacks; a child that is present but detached is linked in with
  what it already held (`UsageExamples.DetachedChildGained`). A root that the
  other root names as a child ends up on a cycle (`UsageRewrites.MergeAcyclicIff`).
* `UsageRefresh.SingleFlightIff`: the flag does not exclude two refreshes at
  once; it fails exactly when a reader runs out of tries during a refresh
  (`UsageRefresh.BoundReached`).
* `BatchProcessor.ExecuteWithQuorum`: with no successes required, the first
  success alone is returned.
* `AuditLifecycle.StartPassesIff`: the check at the head of `start` does not keep
  concurrent starts out; all pass that come before the first raises the state
  (`AuditLifecycle.StartedTwice`).
* `DisksLayout.SymmetryHonestIff`: the set size is documented to be uniform
  across all ellipses, and the filter looks at the last one in the parsed list
  only (`DisksLayout.SymmetryMissesOne`). The list holds the rightmost ellipsis
  first, so the one that counts is the leftmost in the text of the last argument.
* `LastMinute.LastMinuteLatency.Merge`: the older ring is not the one that is
  moved on when the receiver is newer, so stale slots are counted
  (`LastMinute.StaleSlotCounted`).
* `Version.IdentifiersTransitiveIff`: the ordering of mixed identifiers is not
  transitive (`Version.ComparisonCycle`).
* `Version.IncrementNewerIff`: incrementing a number of nines after a letter
  gives an older version (`Version.IncrementGoesBack`), and a last letter of
  several bytes makes the increment panic (`Version.IncrementPanics`).
* `Bitrot.FileSizeFitsIff`: the verifier's size rule leaves the checksums out for
  every algorithm but the streaming one, while the writer always counts them
  (`Bitrot.OneByteMisfit`).

## Model

| member | source | states |
|---|---|---|
| `UsageStats.MergeStats` | crates/common/src/data_usage.rs:454-489 | merging adds every counter and every slot of both histograms, and nothing else changes |
| `UsageCache.MergeEntry` | crates/common/src/data_usage.rs:454-489 | the merged entry has the added figures and keeps its own children and compacted mark |
| `UsageGraph.ReachIffPath` | crates/common/src/data_usage.rs:569-580 | the least closed set used below is exactly the set of keys at the end of a chain of present entries |
| `UsageGraph.FlatPick` | crates/common/src/data_usage.rs:538-551 | the flattened total does not depend on the order in which the children are visited |
| `UsageGraph.TreeFlat` | crates/common/src/data_usage.rs:538-551 | on a tree, flattening counts every reachable entry exactly once |
| `UsageGraph.FlatAgree` | crates/common/src/data_usage.rs:538-551 | two caches that agree on what is reachable flatten to the same totals |
| `UsageCache.DataUsageCache.Flatten` | crates/common/src/data_usage.rs:538-551 | on an acyclic cache the result is childless, keeps the mark, and every counter is the entry's own plus the total below it |
| `UsageCache.DataUsageCache.SizeRecursive` | crates/common/src/data_usage.rs:582-596 | absent exactly when the cleaned path is; otherwise the flattened entry of that path |
| `UsageCache.DataUsageCache.TotalChildrenRec` | crates/common/src/data_usage.rs:705-721 | the number of child links on all chains below a path |
| `UsageCache.DataUsageCache.ReplaceHashed` | crates/common/src/data_usage.rs:523-528 | the new map: the entry stored, and the key added to the children of the parent, created if absent |
| `UsageCache.DataUsageCache.DeleteRecursive` | crates/common/src/data_usage.rs:569-580 | on any graph, cyclic or shared, terminates and removes exactly the reachable keys; every other entry is unchanged |
| `UsageRewrites.DeleteOneMore` | crates/common/src/data_usage.rs:576-579 | deleting one more child after others removes together what all of them reach, although the graph has shrunk |
| `UsageRewrites.DeleteSelfFirst` | crates/common/src/data_usage.rs:569-580 | removing the start before its children loses nothing that was to be deleted |
| `UsageCache.DataUsageCache.CompactAt` | crates/common/src/data_usage.rs:665-668 | delete and put back the flattened entry: the subtree becomes one childless compacted entry with its totals |
| `UsageRewrites.CompactFlat` | crates/common/src/data_usage.rs:664-670 | on any acyclic cache, shared children included, compaction never adds to a flattened total, and keeps it if and only if no counted entry below the path is also reached around it |
| `UsageExamples.SharedChildLost` | crates/common/src/data_usage.rs:664-670 | a cache with a child shared by two folders whose root total drops from 2 to 1 when one of them is compacted |
| `UsageRewrites.TreeLossless` | crates/common/src/data_usage.rs:654-703 | on a tree, compaction at any reachable key loses nothing |
| `UsageRewrites.TreeCompactTotals` | crates/common/src/data_usage.rs:654-703 | compaction in a tree keeps the tree, every total of the roots, and removes exactly the strict descendants |
| `UsageCache.DataUsageCache.AddLeaf` | crates/common/src/data_usage.rs:853-870 | a childless entry is recorded with its object count, any other is not |
| `UsageCache.DataUsageCache.CompactLeaves` | crates/common/src/data_usage.rs:681-702 | the leaf loop keeps the cache valid, adds no links, and does nothing without candidates or without links to remove |
| `UsageCache.DataUsageCache.ReduceChildrenOf` | crates/common/src/data_usage.rs:654-703 | compacts exactly when the entry is present, not compacted, has more children than the limit and may be compacted itself; otherwise the map is unchanged |
| `UsageRewrites.ReduceTotals` | crates/common/src/data_usage.rs:654-703 | for every call on a tree: the roots keep every flattened total, and the path stays reachable |
| `UsageRewrites.ReduceKeepsEach` | crates/common/src/data_usage.rs:654-703 | every entry that is left, wherever it stands in the tree, keeps its flattened total |
| `UsageRewrites.AboveIsLeft` | crates/common/src/data_usage.rs:654-703 | the path itself and all entries above it are left |
| `UsageRewrites.ReduceKeepsFigures` | crates/common/src/data_usage.rs:582-596 | so the figures reported for an entry, as a whole and not counter by counter, are the same before and after |
| `UsageCache.DataUsageCache.Mark` | crates/common/src/data_usage.rs:872-879 | the marked present keys are those already marked and those reachable from the entry's children |
| `UsageCache.MarkAfterReduce` | crates/common/src/data_usage.rs:644-645 | marking from the root entry read before compaction finds what the root reaches after it |
| `UsageCache.DataUsageCache.Collect` | crates/common/src/data_usage.rs:644-651 | mark and retain keep exactly the entries reachable from the root |
| `UsageRewrites.RetainFlat` | crates/common/src/data_usage.rs:646-651 | dropping unreachable keys keeps every flattened total of the start keys |
| `UsageCache.DataUsageCache.ForceCompact` | crates/common/src/data_usage.rs:624-652 | the map after each of the two steps, and exactly when the retain step is reached |
| `UsageRewrites.ForceCompactTotals` | crates/common/src/data_usage.rs:624-652 | on any acyclic cache the root totals never change; after the retain step the keys are exactly those reachable from the root; without it the size is within the limit |
| `UsageCache.DataUsageCache.CopyWithChildren` | crates/common/src/data_usage.rs:553-567 | from an acyclic source, the destination is overwritten with the reachable part of the source and linked to the parent; where the source has self-links, the key is copied, what is below is copied or left alone, everything else is left alone, and the parent is linked if and only if the key has no self-link |
| `UsageCache.DataUsageCache.CopyChild` | crates/common/src/data_usage.rs:556-561 | one turn of the child loop, for both of these |
| `UsageRewrites.PartlyCopiedStep` | crates/common/src/data_usage.rs:556-561 | copying a child keeps what a stopped copy promises |
| `UsageRewrites.CopyOneMore` | crates/common/src/data_usage.rs:556-561 | copying one more child extends the copied part by what that child reaches |
| `UsageRewrites.CopyFlat` | crates/common/src/data_usage.rs:553-567 | after the copy the key reaches the same keys and flattens to the same totals as in the source |
| `UsageRewrites.CopyFrame` | crates/common/src/data_usage.rs:553-567 | only the copied keys and the parent change, and the parent only gains the copied key as a child |
| `UsageCache.DataUsageCache.MergeChild` | crates/common/src/data_usage.rs:743-749 | one child: its entry gains the flattened totals of the other cache and keeps its children and its compacted mark, and it is linked to the root; no key appears or is lost |
| `UsageCache.DataUsageCache.MergeChildren` | crates/common/src/data_usage.rs:743-749 | all children of the other root, in any order, with every compacted mark as it was |
| `UsageCache.DataUsageCache.Merge` | crates/common/src/data_usage.rs:723-750 | all four cases of present and absent roots, the later update time, and the merged map, also when the other root names this one as its child: the same keys and compacted marks, the root with the children of both roots, all other child sets and all unmerged entries as they were |
| `UsageCache.DataUsageCache.MergeRoots` | crates/common/src/data_usage.rs:740-749 | the merged map when both roots are present |
| `UsageRewrites.MergeAcyclicIff` | crates/common/src/data_usage.rs:723-750 | the merged root lies on a cycle if and only if the other root names it as a child |
| `UsageRewrites.MergeSiblings` | crates/common/src/data_usage.rs:743-749 | the children of the merged root flatten to the old totals plus those of the other cache for the shared children |
| `UsageRewrites.MergeFlat` | crates/common/src/data_usage.rs:723-750 | the merged root total is the sum of both, plus whatever newly linked children held before |
| `UsageExamples.DetachedChildGained` | crates/common/src/data_usage.rs:723-750 | roots with 0 and 1 objects whose merged root has 6, because a detached entry with 5 is linked in |
| `UsageRewrites.MergeTotals` | crates/common/src/data_usage.rs:723-750 | if the other root names only children of this root, the merged total is exactly the sum of the two |
| `UsageRewrites.MergeFigures` | crates/common/src/data_usage.rs:723-750 | so the whole figures reported for the merged root are those of the two roots added up |
| `UsageInfo.JoinInto` | crates/common/src/data_usage.rs:1168-1203 | the histogram and per-target loops compute the union of two maps with common values added |
| `UsageInfo.JoinCommutes` | crates/common/src/data_usage.rs:1125-1149 | the union does not depend on the order of its arguments |
| `UsageInfo.JoinAssociates` | crates/common/src/data_usage.rs:1125-1149 | nor on how three maps are grouped |
| `UsageInfo.MergeBucket` | crates/common/src/data_usage.rs:1168-1203 | every figure and every deprecated figure is the sum of the two; the keys of each histogram and of the targets are the union, and every count under a key and every figure of a target is the sum, absent ones counting as nothing |
| `UsageInfo.PlusBucketSlot` | crates/common/src/data_usage.rs:1168-1203 | every single number that can be read from a merged bucket is the sum of the two |
| `UsageInfo.DataUsageInfo.CalculateTotals` | crates/common/src/data_usage.rs:1110-1122 | the totals are the sums over the buckets, in whatever order these are visited |
| `UsageInfo.SingleBucketTotals` | crates/common/src/data_usage.rs:1110-1122 | the totals of one bucket are its objects, versions, delete markers and size |
| `UsageInfo.DataUsageInfo.MergeBuckets` | crates/common/src/data_usage.rs:1127-1136 | the bucket map becomes the union with common buckets merged |
| `UsageInfo.DataUsageInfo.Merge` | crates/common/src/data_usage.rs:1125-1149 | the whole new value: no bucket appears or is lost, every number of every bucket is the sum of the two, disk statuses are appended, totals recomputed, the bucket count is that of the map, and the later time is kept |
| `UsageInfo.MergeOrder` | crates/common/src/data_usage.rs:1125-1149 | merging any list of infos gives the same figures whatever the order |
| `UsageInfo.MergeRunTotals` | crates/common/src/data_usage.rs:1110-1149 | after merging any list, totals are the sums over all merged infos and over the buckets, and the count is the number of buckets |
| `UsageInfo.MergeRunSlots` | crates/common/src/data_usage.rs:1125-1149 | after merging any list, every single number of every bucket, each histogram slot and target figure included, is the sum over all merged infos |
| `UsageInfo.MergeRunRest` | crates/common/src/data_usage.rs:1125-1149 | after merging any list, the buckets are exactly those named by some info, the disk statuses all there in order, and the time is the latest of all |
| `UsageInfo.SumAllJoin` | crates/common/src/data_usage.rs:1110-1149 | joining two bucket maps adds their totals |
| `UsageInfo.RecomputeTotals` | crates/ecstore/src/data_usage/local_snapshot.rs:78-98 | saturating sums over the buckets are the exact sums, capped at the largest 64-bit number |
| `UsageInfo.Aggregate.AddBucket` | crates/ecstore/src/data_usage.rs:209-222 | one bucket: merged or inserted, with the recorded sizes still those of the buckets |
| `UsageInfo.Aggregate.AddBuckets` | crates/ecstore/src/data_usage.rs:209-223 | all buckets of a snapshot |
| `UsageInfo.Aggregate.MergeSnapshot` | crates/ecstore/src/data_usage.rs:193-224 | keeps: totals are the exact sums capped, every recorded bucket size is that bucket's size capped; no bucket appears or is lost, every number of every bucket is the sum of the two, and the later time is taken |
| `UsageInfo.CappedSums` | crates/ecstore/src/data_usage.rs:202-207 | saturating addition of capped totals is the capped total of the union |
| `UsageRefresh.RefreshesBounded` | crates/ecstore/src/data_usage.rs:418-485 | in every state of every interleaving, refreshes in flight are at most the flag plus the readers that used up their ten tries |
| `UsageRefresh.BoundedStep` | crates/ecstore/src/data_usage.rs:418-485 | every step keeps that bound |
| `UsageRefresh.NoOvertakingSingleFlight` | crates/ecstore/src/data_usage.rs:418-485 | while nobody has overtaken a running refresh, the flag is up exactly while one refresh is in flight |
| `UsageRefresh.SingleFlightIff` | crates/ecstore/src/data_usage.rs:418-485 | a run never has two refreshes at once if and only if no reader gives up while one is in flight |
| `UsageRefresh.BoundReached` | crates/ecstore/src/data_usage.rs:461-472 | the bound is tight: for every n a reachable state has n readers that gave up and n + 1 refreshes in flight |
| `UsageRefresh.WaitingIsBounded` | crates/ecstore/src/data_usage.rs:418-485 | no reader takes more than 14 steps in any run |
| `UsageRefresh.SleepIsBounded` | crates/ecstore/src/data_usage.rs:461-469 | in every run a waiting reader has slept at most 1023 milliseconds |
| `UsageRefresh.FreshIsLeftAlone` | crates/ecstore/src/data_usage.rs:423-434 | in every run a reader that finds an age below thirty seconds is done with it, with no refresh |
| `UsageRefresh.StaleDoesNotWait` | crates/ecstore/src/data_usage.rs:436-459 | from thirty and below sixty seconds a reader never waits: it tries once, and ends by having refreshed or by having found the flag up |
| `UsageRefresh.OldIsRefreshed` | crates/ecstore/src/data_usage.rs:461-485 | from sixty seconds on a reader does not end without having refreshed |
| `BatchProcessor.EveryState` | crates/ecstore/src/batch_processor.rs:36-82 | in every state of every schedule at most max_concurrent tasks hold a permit, and joined tasks have their own outcome in their own place |
| `BatchProcessor.StepInvariant` | crates/ecstore/src/batch_processor.rs:36-82 | every step keeps free permits plus holders constant and the results in place |
| `BatchProcessor.FinishedResults` | crates/ecstore/src/batch_processor.rs:36-82 | a finished batch holds at index i the outcome of task i, or the placeholder if it panicked, whatever the completion order |
| `BatchProcessor.Progress` | crates/ecstore/src/batch_processor.rs:36-82 | with at least one permit an unfinished batch can always go on |
| `BatchProcessor.NoPermitsStuck` | crates/ecstore/src/batch_processor.rs:36-82 | with no permits no step is ever possible |
| `BatchProcessor.RunLength` | crates/ecstore/src/batch_processor.rs:36-82 | every schedule finishes after exactly three steps per task |
| `BatchProcessor.ExecuteWithQuorum` | crates/ecstore/src/batch_processor.rs:85-109 | succeeds exactly when enough tasks did, then returns the first that many successes in task order; the case of none required; the error carries the number of successes |
| `BatchProcessor.SuccessesAt` | crates/ecstore/src/batch_processor.rs:91-99 | there are as many successes as successful places, and they stand in the order of their places |
| `BatchProcessor.SuccessesOfTasks` | crates/ecstore/src/batch_processor.rs:85-109 | the successes in the result vector are what the successful tasks return, in task order |
| `BatchProcessor.BatchWithQuorum` | crates/ecstore/src/batch_processor.rs:85-109 | the same for every finished schedule of given tasks, told by what the tasks return |
| `AuditLocks.OperationsDisciplined` | crates/audit/src/system.rs:67-672 | every path of every operation takes the locks in the order registry, state, config and keeps none |
| `AuditLocks.EveryState` | crates/audit/src/system.rs:67-672 | in every interleaving an exclusive holder is alone and every operation still takes its locks in order |
| `AuditLocks.NoWaitCycle` | crates/audit/src/system.rs:67-672 | no state of any run has a cyclic wait, queueing included |
| `AuditLocks.NoDeadlock` | crates/audit/src/system.rs:67-672 | while an operation is unfinished, some operation can take a step |
| `AuditLocks.AllOperationsFinish` | crates/audit/src/system.rs:67-672 | a run that cannot go on has finished all operations, streams of any number of passes included, and released all locks, after a number of steps fixed by the operations alone |
| `AuditLifecycle.EveryState` | crates/audit/src/system.rs:67-233 | in every run the registry has one user, the state is starting only while a start that raised it is at work, and stopping only while a close is |
| `AuditLifecycle.SettledState` | crates/audit/src/system.rs:67-233 | whenever all operations have ended, the system is stopped, running or paused |
| `AuditLifecycle.StaysStopped` | crates/audit/src/system.rs:107-233 | once a close has ended or a start has failed, the system is stopped and stays so, whatever else goes on, until a start has created targets |
| `AuditLifecycle.StaysPaused` | crates/audit/src/system.rs:155-191 | pausing a running system holds until a resume, a close or a start that goes on, and resuming makes it run again; pausing any other changes nothing |
| `AuditLifecycle.RaisedTellsState` | crates/audit/src/system.rs:67-149 | among concurrent starts the state is told by whether one has raised it and is still at work |
| `AuditLifecycle.StartPassesIff` | crates/audit/src/system.rs:67-115 | among concurrent starts one passes the check if and only if none has raised the state yet, however many have passed |
| `AuditLifecycle.StartedTwice` | crates/audit/src/system.rs:67-149 | a run in which two starts pass the check and the second creates targets while the system is running |
| `AuditRetry.SendKey` | crates/audit/src/system.rs:459-493 | the retry loop for one key: after k sends that find no connection or time out, a success or a permanent failure ends it with k + 1 sends, the doubled pauses slept and one record; five such sends end it with 124 seconds slept and one failure recorded |
| `AuditRetry.BackoffClosed` | crates/audit/src/system.rs:442-486 | the doubling pauses after n failures add up to 2^(n + 2) less four seconds |
| `AuditRetry.TreatKey` | crates/audit/src/system.rs:459-493 | a key is sent one to five times, slept for at most 124 seconds and recorded once, as a success just when it was sent in time |
| `AuditRetry.StreamPass` | crates/audit/src/system.rs:453-495 | for every sequence of outcomes at every position of the list: each key fares so, the successes are the keys sent, and successes plus failures is the number of keys |
| `DisksLayout.Gcd` | crates/ecstore/src/disks_layout.rs:306-313 | a number divides the result exactly when it divides both arguments |
| `DisksLayout.DivisibleSize` | crates/ecstore/src/disks_layout.rs:305-316 | a number divides the result exactly when it divides every total |
| `DisksLayout.PossibleSetCounts` | crates/ecstore/src/disks_layout.rs:318-326 | exactly the supported sizes that divide the count, in increasing order |
| `DisksLayout.ComputeSymmetry` | crates/ecstore/src/disks_layout.rs:361-371 | the flag after the nested loop is that of the last ellipsis in the parsed list |
| `SetSizes.SymmetricIff` | crates/ecstore/src/disks_layout.rs:361-373 | a size passes the filter if and only if it divides, or is divided by, the number of labels of the last ellipsis |
| `DisksLayout.UniformIsSymmetric` | crates/ecstore/src/disks_layout.rs:354-381 | the filter keeps every size that is uniform across all ellipses, as documented |
| `DisksLayout.SymmetryHonestIff` | crates/ecstore/src/disks_layout.rs:354-381 | filter and documentation agree on a size if and only if the last ellipsis does not fit it or all others do too |
| `DisksLayout.OneEllipsisHonest` | crates/ecstore/src/disks_layout.rs:354-381 | with a single ellipsis they always agree |
| `DisksLayout.SymmetryMissesOne` | crates/ecstore/src/disks_layout.rs:354-381 | nine drives on each of two hosts get sets of six, though no supported size is uniform |
| `DisksLayout.SymmetricSetCounts` | crates/ecstore/src/disks_layout.rs:357-381 | exactly the candidates that pass the symmetry filter, in increasing order |
| `DisksLayout.CommonSetDriveCount` | crates/ecstore/src/disks_layout.rs:334-352 | the largest listed count that divides the size, though the loop minimises the quotient; zero if none does |
| `DisksLayout.GetSetIndexes` | crates/ecstore/src/disks_layout.rs:387-451 | succeeds exactly when a supported size divides every total, passes the filter and is the requested one if any; the size is then the requested or the largest such one; and which error goes with which failing condition |
| `SetSizes.CandidateIff` | crates/ecstore/src/disks_layout.rs:318-381 | a size may be used if and only if it is from 2 to 16, leaves no remainder in any total, and passes the filter as remainders say |
| `SetSizes.SizeChoice` | crates/ecstore/src/disks_layout.rs:387-451 | when arguments and a requested count are accepted, and which size is taken, in terms of remainders alone |
| `SetSizes.OneEllipsis` | crates/ecstore/src/disks_layout.rs:387-451 | a single ellipsis of n labels and no requested count: accepted if and only if n is at least 2 and has a divisor from 2 to 16, and the sets are of the largest |
| `SetSizes.PlainArguments` | crates/ecstore/src/disks_layout.rs:387-451 | the same for n arguments without ellipses |
| `SetSizes.SixtyFourDrives` | crates/ecstore/src/disks_layout.rs:179-186 | as documented, sixty-four drives make four sets of sixteen |
| `DisksLayout.RowSum` | crates/ecstore/src/disks_layout.rs:447-450 | every row adds up to its total |
| `DisksLayout.RowsSum` | crates/ecstore/src/disks_layout.rs:447-450 | all rows together add up to the number of endpoints |
| `DisksLayout.SplitRow` | crates/ecstore/src/disks_layout.rs:293-298 | one row of sets follows on from where the last one ended |
| `DisksLayout.SplitEndpoints` | crates/ecstore/src/disks_layout.rs:289-301 | no slice is out of range, the sets have the listed sizes and concatenate back to the list in order |
| `DisksLayout.UniformSets` | crates/ecstore/src/disks_layout.rs:289-301 | in sets of one size s the k-th endpoint is number k % s of set k / s |
| `DisksLayout.ExpandLength` | crates/utils/src/string.rs:305-334 | an argument expands to as many endpoints as its announced total |
| `Expansion.ExpandAt` | crates/utils/src/string.rs:311-329 | the labels of a choice, in the order of the text, stand at the place where the first ellipsis of the list turns slowest |
| `Expansion.ExpandsAll` | crates/utils/src/string.rs:311-329 | the expansion lists every choice of one label per ellipsis exactly once |
| `Expansion.JoinedAppend` | crates/ecstore/src/disks_layout.rs:271-276 | the text of an endpoint is its labels one after the other |
| `DisksLayout.ExpandAllLength` | crates/ecstore/src/disks_layout.rs:262-284 | the endpoint list is as long as the totals add up to |
| `Expansion.ExpandAllAt` | crates/ecstore/src/disks_layout.rs:271-276 | endpoint i of argument a stands after all endpoints of the arguments before it |
| `DisksLayout.SetIndexesFor` | crates/ecstore/src/disks_layout.rs:187-198 | set sizes exist exactly for divisible arguments, and fit the endpoint list |
| `DisksLayout.SplitUniform` | crates/ecstore/src/disks_layout.rs:289-301 | cutting along the rows of one size gives a partition into equal sets |
| `DisksLayout.CheckUnique` | crates/ecstore/src/disks_layout.rs:202-210 | finds a repeated endpoint exactly when there are fewer endpoints than places |
| `DisksLayout.NoDuplicatesIff` | crates/ecstore/src/disks_layout.rs:202-210 | which is to say, exactly when two places hold the same endpoint |
| `DisksLayout.GetAllSets` | crates/ecstore/src/disks_layout.rs:186-213 | succeeds exactly when a set size exists and no endpoint is repeated; the result is a partition in order into sets of the right size |
| `DisksLayout.LayOutEach` | crates/ecstore/src/disks_layout.rs:130-141 | arguments with ellipses are laid out exactly when none is rejected, each as a pool of its own cut into sets of the right size |
| `DisksLayout.LayOutPlain` | crates/ecstore/src/disks_layout.rs:119-127 | arguments without ellipses make one pool, exactly when they can be cut |
| `DisksLayout.FromVolumes` | crates/ecstore/src/disks_layout.rs:104-147 | a command line is laid out exactly when it is not empty, the drive count is a number, ellipses are in all arguments or in none, and every pool can be cut |
| `Endpoints.ParseSet` | crates/ecstore/src/endpoints.rs:82-116 | accepts exactly the lists that parse, share style and scheme, and name no endpoint twice |
| `Endpoints.ShowIff` | crates/ecstore/src/disk/endpoint.rs:43-51 | two endpoints print alike exactly when both are paths that decode alike or both are the same URL |
| `Endpoints.BuildPool` | crates/ecstore/src/endpoints.rs:199-221 | succeeds exactly on readable sets that are not all empty; the endpoints follow in order with their indexes |
| `Endpoints.BuildPools` | crates/ecstore/src/endpoints.rs:198-221 | all pools, in order |
| `Endpoints.PoolIndexes` | crates/ecstore/src/endpoints.rs:199-221 | with sets of one size s, endpoint k has set index k / s and disk index k % s |
| `Endpoints.UpdateIsLocal` | crates/ecstore/src/endpoints.rs:365-380 | only the local flags change, to what the host lookup says; fails exactly when a lookup does |
| `Endpoints.LocatePools` | crates/ecstore/src/endpoints.rs:223-230 | succeeds exactly when every endpoint can be located |
| `Endpoints.LocatedOnce` | crates/ecstore/src/endpoints.rs:365-380 | the located endpoints of a pool are determined by the layout |
| `Endpoints.LookUp` | crates/ecstore/src/endpoints.rs:242-271 | the per-pool host cache never changes what a host resolves to |
| `Endpoints.CheckAddresses` | crates/ecstore/src/endpoints.rs:234-288 | passes exactly when every host resolves and no two host endpoints share a path and an address |
| `Endpoints.CheckLocalPaths` | crates/ecstore/src/endpoints.rs:290-304 | passes exactly when no two local endpoints share a path |
| `Endpoints.CheckLocalHosts` | crates/ecstore/src/endpoints.rs:306-328 | rejects exactly all-local pools on one port under several host names |
| `Endpoints.FillPorts` | crates/ecstore/src/endpoints.rs:330-348 | the endpoints with missing ports filled in, and the servers they name |
| `Endpoints.FilledIsFinal` | crates/ecstore/src/endpoints.rs:330-380 | what becomes of a parsed endpoint: host, path, scheme and indexes stay; a missing port becomes the server's, unless that is 80 for http or 443 for https; it is local exactly when it has no host, or its host is local and it names no other port |
| `Endpoints.PoolDistinct` | crates/ecstore/src/endpoints.rs:232-349 | after the checks no two endpoints of the pool print alike, even with ports filled in, and the checks still hold |
| `Endpoints.CheckPool` | crates/ecstore/src/endpoints.rs:232-349 | succeeds exactly when all checks pass; the resulting pool is free of conflicts |
| `Endpoints.CompletePool` | crates/ecstore/src/endpoints.rs:232-349 | the same for a located pool of the layout |
| `Endpoints.CheckPools` | crates/ecstore/src/endpoints.rs:232-349 | all pools, with the servers collected across them |
| `Endpoints.SinglePool` | crates/ecstore/src/endpoints.rs:177-196 | a single drive is accepted exactly when it is a path, and is then local, in pool, set and disk 0 |
| `Endpoints.CreatePools` | crates/ecstore/src/endpoints.rs:170-362 | succeeds exactly when the server address is a local one and the layout is a single drive path, or every pool can be read, located and passes the checks; then every pool is free of conflicts, every endpoint has become what it should, port and local flag included, and the setup type fits the number of servers |
| `Endpoints.DistributedIff` | crates/ecstore/src/endpoints.rs:351-359 | a cluster is distributed if and only if it is not a single drive, its first endpoint is a URL, and some endpoint has another host and port than the first |
| `Endpoints.AcceptedIndexes` | crates/ecstore/src/endpoints.rs:199-221 | in an accepted pool with sets of one size, indexes are k / s and k % s, and set count times drives per set is the pool size |
| `Endpoints.PoolInPlace` | crates/ecstore/src/endpoints.rs:199-221 | every endpoint of such a pool carries the pool, set and disk index of its place |
| `Endpoints.EndpointServerPools.AllShown` | crates/ecstore/src/endpoints.rs:525-530 | everything the present pools print |
| `Endpoints.EndpointServerPools.Add` | crates/ecstore/src/endpoints.rs:524-541 | adds the pool exactly when none of its endpoints prints like a present one |
| `Endpoints.EndpointServerPools.AddAll` | crates/ecstore/src/endpoints.rs:503-514 | succeeds exactly when all pools are pairwise apart |
| `Endpoints.EndpointServerPools.Create` | crates/ecstore/src/endpoints.rs:492-517 | succeeds exactly when the pools can be created and are pairwise apart; then all endpoints of the cluster are pairwise distinct, each with the port and local flag it should have, and the pool shapes are those of the layout |
| `Endpoints.EndpointServerPools.FromVolumes` | crates/ecstore/src/endpoints.rs:484-488 | from the command line on: a cluster is made exactly when the arguments can be laid out, the pools created, and these are pairwise apart; then endpoint k of a pool has set index k / s and disk index k % s for the set size s that the layout chose, and the port and local flag it should have |
| `LastMinute.LastMinuteLatency.ForwardTo` | crates/common/src/last_minute.rs:188-202 | the ring still stands for the log, at the later of the two times |
| `LastMinute.ForwardOne` | crates/common/src/last_minute.rs:197-201 | one second on: emptying the next slot makes the ring right for the new window |
| `LastMinute.OldMinuteGone` | crates/common/src/last_minute.rs:192-196 | after a minute the empty ring is right for any log |
| `LastMinute.LastMinuteLatency.AddAll` | crates/common/src/last_minute.rs:168-173 | logs the event; the ring stays right if and only if the second does not go back, or goes back past nothing that was logged and no emptied slot that is needed; the ring itself when it goes back |
| `LastMinute.AddOne` | crates/common/src/last_minute.rs:168-173 | adding to the slot of the current second is logging an event |
| `LastMinute.AddBackIff` | crates/common/src/last_minute.rs:168-173 | going back keeps the ring right if and only if it is safe in this sense |
| `LastMinute.SlotsAreWindow` | crates/common/src/last_minute.rs:175-186 | the sixty slots stand for exactly the log entries of the last sixty seconds, each once |
| `LastMinute.LastMinuteLatency.GetTotal` | crates/common/src/last_minute.rs:175-186 | the result is the log's sum over the window, modulo 2^64 |
| `LastMinute.Replay` | crates/common/src/last_minute.rs:136-202 | for every run of additions with non-decreasing seconds the total is the window sum of the plain log |
| `LastMinute.MergeSlots` | crates/common/src/last_minute.rs:136-155 | adding an older ring slot by slot is right if and only if it has no slot that has left the window |
| `LastMinute.LastMinuteLatency.Merge` | crates/common/src/last_minute.rs:136-155 | there is no merged ring exactly when overflow checks are on and a slot overflows; otherwise it stands for both logs if and only if the argument has no stale slot, in particular when it is at least as recent |
| `LastMinute.AddSlots` | crates/common/src/last_minute.rs:146-152 | the slotwise sums, or none exactly when checks are on and a sum exceeds 64 bits; with checks on, the sums are exact |
| `LastMinute.MergeFits` | crates/common/src/last_minute.rs:146-152 | no slot overflows if the two minutes together fit in 64 bits |
| `LastMinute.StaleSlotCounted` | crates/common/src/last_minute.rs:136-155 | rings at seconds 100 and 10 whose merge shows the second ring's entry at second 70, though neither log has anything in the last minute |
| `LastMinute.MergedWindow` | crates/common/src/last_minute.rs:136-155 | slots of two rings at one time add up to the windows of both logs |
| `Version.PrintParse` | rustfs/src/version.rs:73-104 | printing and parsing three 32-bit numbers and any pre-release text round-trips |
| `VersionOrder.ParseVersionIff` | rustfs/src/version.rs:89-104 | a text parses if and only if it starts with three 32-bit numbers between dots, further dotted parts being ignored, and all that follows the first dash is the pre-release |
| `Strings.ParseU32Iff` | rustfs/src/version.rs:99-101 | a text is a number if and only if it is digits, possibly after a plus sign, whose value is below 2^32 |
| `VersionOrder.CleanedIs` | rustfs/src/version.rs:129-137 | cleaning takes off blanks on both sides and any number of each of the four prefixes in turn, and leaves the rest |
| `VersionOrder.NewerIff` | rustfs/src/version.rs:140-217 | where both parse, newer means greater numbers, the first difference deciding, or the same numbers and a release against a pre-release, or a greater pre-release; where one does not parse, greater text |
| `VersionOrder.ComparePartsIff` | rustfs/src/version.rs:193-217 | a list of identifiers is greater if and only if it is greater where the two first differ, as numbers if both are and else as text, or they differ nowhere and it is longer |
| `VersionOrder.StrLessIff` | rustfs/src/version.rs:213-214 | text is smaller if and only if after a common start it ends or has the smaller character |
| `VersionOrder.ReleaseIsNewer` | rustfs/src/version.rs:179-190 | a release is newer than each of its pre-releases and not the other way round |
| `Version.IdentifierFlip` | rustfs/src/version.rs:193-217 | comparing two identifiers the other way round gives the opposite verdict |
| `Version.NewerIsAsymmetric` | rustfs/src/version.rs:140-190 | of any two strings at most one is newer than the other |
| `Version.PartsAsymmetric` | rustfs/src/version.rs:193-217 | the same for lists of identifiers of any length |
| `Version.IdentifiersTransitiveIff` | rustfs/src/version.rs:193-217 | a set of identifiers compares transitively if and only if no word lies between two numbers that compare the other way as numbers |
| `Version.PartsTransitive` | rustfs/src/version.rs:193-217 | pre-releases compare transitively where no position holds such a word |
| `Version.HomogeneousNoStraddle` | rustfs/src/version.rs:193-217 | in particular where the identifiers of a position are all numbers or all words |
| `Version.ComparisonCycle` | rustfs/src/version.rs:193-217 | the comparison is not transitive in general: 9 < 10 < 1a < 9 |
| `Version.DottedNewer` | rustfs/src/version.rs:107-114 | a dotted pair ending in a number is incremented to a newer one |
| `Version.LetterNewerIff` | rustfs/src/version.rs:116-125 | a number after a letter: panics if and only if the letter takes several bytes, and is otherwise incremented to a newer one if and only if it is not all nines |
| `Version.IncrementNewerIff` | rustfs/src/version.rs:73-86 | barring overflow of the number that is increased: panics exactly for a last letter of several bytes outside a dotted pair, otherwise parses; returns a newer version if and only if the pre-release is absent, a dotted number, without a letter, or has a one-byte last letter not followed by a number of nines |
| `VersionOrder.IncrementDotted` | rustfs/src/version.rs:107-114 | x.n becomes x.(n + 1), whatever x is, and the three numbers stay |
| `VersionOrder.IncrementAfterLetter` | rustfs/src/version.rs:116-125 | a number n right after the last letter becomes n + 1 and the three numbers stay; it panics exactly for a letter of several bytes |
| `VersionOrder.IncrementPatch` | rustfs/src/version.rs:73-86 | in all other cases the patch goes up by one and the pre-release goes |
| `VersionOrder.IncrementPrints` | rustfs/src/version.rs:73-86 | the text returned: the three numbers between dots and, after a dash, the pre-release |
| `VersionOrder.IncrementIsNewerIff` | rustfs/src/version.rs:73-217 | barring overflow, a version that parses and does not end in a blank has an increment that the comparison of strings finds newer if and only if its pre-release is one of those above |
| `Version.DecimalSucc` | rustfs/src/version.rs:107-126 | a decimal and its successor are in text order if and only if the decimal is not all nines |
| `Version.IncrementGoesBack` | rustfs/src/version.rs:107-126 | the increment of c9 is c10, which compares as older |
| `Version.IncrementPanics` | rustfs/src/version.rs:116-119 | the increment of 1.0.0 with the pre-release beta (the Greek letter) and 8 panics, because that letter takes two bytes |
| `Strings.JoinSplit` | rustfs/src/version.rs:89-92 | splitting at a separator and joining again gives the text back |
| `Bitrot.PhysicalIncreasing` | crates/ecstore/src/bitrot.rs:43-45 | the physical position is strictly increasing |
| `Bitrot.ReadRangeDefinedIff` | crates/ecstore/src/bitrot.rs:43-54 | the reader's subtraction does not underflow if and only if the offset is within the length |
| `Bitrot.FramePosition` | crates/ecstore/src/bitrot.rs:43-45 | the position lies in frame n / s: at its start exactly for aligned bytes, past its checksum otherwise |
| `Bitrot.AlignedRange` | crates/ecstore/src/bitrot.rs:43-54 | an aligned range starts at frame offset / s and has the size the writer reserves for the remaining bytes |
| `Bitrot.PhysicalAligned` | crates/ecstore/src/bitrot.rs:92-97 | sizes of an aligned part and of the rest add up |
| `Bitrot.EncodedLength` | crates/ecstore/src/bitrot.rs:92-97 | the reserved size is the length of the file that is written, and nothing for a length that is not positive |
| `Bitrot.EncodeConcat` | crates/ecstore/src/erasure_coding/bitrot.rs:136-174 | after whole chunks, writing more bytes appends their own file |
| `Bitrot.EncodeAligned` | crates/ecstore/src/bitrot.rs:43-54 | an aligned offset cuts the file into the files of the two parts |
| `Bitrot.UnalignedByte` | crates/ecstore/src/bitrot.rs:43-45 | at an offset inside a chunk the physical position holds that very byte |
| `Bitrot.BitrotWriter.Write` | crates/ecstore/src/erasure_coding/bitrot.rs:136-174 | succeeds exactly for an empty buffer, or one within the shard size while no short chunk was written; the file then ends in the checksum and the buffer, and is that of all bytes written |
| `Bitrot.BitrotReader.Read` | crates/ecstore/src/erasure_coding/bitrot.rs:62-101 | however the stream portions its bytes: invalid input exactly for more than a shard, end of file exactly if the checksum is cut short, and otherwise as many bytes as are wanted or left if the checksum is theirs or there is none, and invalid data if not; and where the stream then stands |
| `Bitrot.BitrotReader.ReadData` | crates/ecstore/src/erasure_coding/bitrot.rs:80-91 | the loop takes as much as is wanted or left, whatever the portions |
| `Bitrot.ReadFrameBack` | crates/ecstore/src/erasure_coding/bitrot.rs:62-101 | a read at a frame start of a written file returns its chunk and stops at the next frame |
| `Bitrot.ReadAllBack` | crates/ecstore/src/erasure_coding/bitrot.rs:62-101 | reads of a shard each return the bytes of a written file, all of them or whole chunks |
| `Bitrot.ReadBack` | crates/ecstore/src/bitrot.rs:43-54 | round trip: reading a written file from the position of an aligned offset returns the bytes from there on |
| `Bitrot.DamageIsSeen` | crates/ecstore/src/erasure_coding/bitrot.rs:62-101 | in a written file with one frame replaced by bytes that are not under their checksum, the read of that frame is invalid data; whole chunks before it still come back, and every longer read is invalid data |
| `Bitrot.FileSizeFitsIff` | crates/ecstore/src/erasure_coding/bitrot.rs:181-186 | the verifier's expected size is that of the written file if and only if the algorithm is the streaming one, has no checksum, or the file is empty |
| `Bitrot.OneByteMisfit` | crates/ecstore/src/erasure_coding/bitrot.rs:181-186 | one byte in shards of one under a checksum of 32: the file has 33 bytes and the verifier expects 1 |
| `Bitrot.FramesIff` | crates/ecstore/src/erasure_coding/bitrot.rs:203-220 | a sequence of sound frames is exactly a written file, after whole chunks possibly followed by the checksum of nothing |
| `Bitrot.WrittenOfSize` | crates/ecstore/src/erasure_coding/bitrot.rs:188-223 | of the size of a file for n bytes, it is exactly a file written for n bytes |
| `Bitrot.DamageIsRefused` | crates/ecstore/src/erasure_coding/bitrot.rs:188-223 | the verifier refuses such a file, which has the size of the sound one |
| `Bitrot.WrittenSizeDivisible` | crates/ecstore/src/erasure_coding/bitrot.rs:203-220 | a file of a written size never leaves part of a checksum over |
| `Bitrot.VerifyFrame` | crates/ecstore/src/erasure_coding/bitrot.rs:203-220 | one turn of the loop accepts exactly a sound frame, and leaves the same question for the rest; and which error goes with which failing condition |
| `Bitrot.VerifyFrames` | crates/ecstore/src/erasure_coding/bitrot.rs:203-220 | the loop accepts exactly sound frames, and does not underflow on sizes that can be cut into frames |
| `Bitrot.Verify` | crates/ecstore/src/erasure_coding/bitrot.rs:188-223 | for every algorithm, accepts exactly the streams that start with a written file of the expected size; where the size rule fits, that is a file written for data of the given size, and nothing underflows |

## Left out

- UsageStats.MergeStats: replica size and count of an entry, which are added, and per-target replication figures, which merging clears before adding, are not among the figures.
- UsageCache.MergeEntry: the same figures are left out.
- UsageCache.DataUsageCache.CopyWithChildren: for a source with a self-link, how far the copy gets is not stated; it depends on the order of a hash set.
- UsageCache.DataUsageCache.CompactLeaves: does not say which candidates get compacted; `ReduceChildrenOf` proves that the loop is never entered, because a candidate has no children.
- UsageCache.DataUsageCache.Merge: requires the children of the other root to be present in both caches, where the code panics otherwise.
- LastMinute.LastMinuteLatency.Merge: in a build with overflow checks, says when a sum panics but not which of the slots does.
- AuditLocks.OperationsDisciplined: paths list lock actions only; the registry's contents and target I/O under the locks are not modelled.
- AuditLifecycle.EveryState: targets are created, missing or failing as a step says; their number, their streams and the configuration are not modelled.
- Overflow of counters, which are unbounded here except for saturating sums, the wrapping ring and the wrapping subtraction of the leaf loop.
- Path cleaning, which is any idempotent function on keys; `search_parent`, `replace`, `dui`, histogram `add` and `to_map`, serialisation.
- `flatten`, `mark`, `copy_with_children` and `total_children_rec` on cyclic caches, where the code recurses without end (a self-link of the copied source apart).
- The contents of the usage memory cache, and a refresher that is cancelled or panics and leaves the flag up.
- Semaphore closing and cancellation in the batch processor.
- Reading the clock: `add` of the last-minute ring and its histogram of size classes take the second as an argument here.
- Which characters are blank and which alphabetic, taken as predicates that exclude digits and the signs of a version; overflow of a 32-bit number on increment.
- The text of ellipses and URLs, the drive count in the environment, the check of the server address, name resolution and the local-host test, taken as functions; URLs are compared by their components.
- `get_nodes`, peers, command lines and platform strings of pools.
- Partial writes, flushing and the inline buffer of shard files; the checksum functions, taken as any function with results of one size.
- Erasure coding, object and bucket operations, authentication, encryption, error tables, file cache, readiness, startup and shutdown.
