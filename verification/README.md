# Vasto, verified

Vasto is a distributed key-value store. A keyspace is a cluster of servers; a key's partition hash picks
its shard by jump consistent hash; a shard is replicated on the next servers around the ring. A shard is a
RocksDB database plus a segmented binary log. Replicas follow each other's logs and merge what they read by
last write wins. When a cluster is resized, new shards copy rows from the old ones, then catch up from their
logs.

This project is a Dafny model of that core and a set of proofs about it.

| module | what it models |
|---|---|
| `Bytes`, `Codec` | byte strings in RocksDB order, the on-disk row format, expiry |
| `LastWriteWins`, `Rows`, `Convergence` | the rule that merges a write into a row, and replicas that hear the same puts |
| `Follower`, `Replication` | a shard as writer and follower; snapshot, tail, crash and restart as a step system |
| `ManySources` | a brand-new shard that copies from and follows all old shards at once, seen through each of them |
| `FrameFormat`, `Binlog`, `LogManager`, `Tail` | log frames, rotation and retention, the log objects, and tailing against a live writer |
| `TailProgress` | when a tail waits, reads on, or is stuck for good |
| `TailedRows` | the two put together: from the bytes of a source's log to the rows of its follower |
| `JumpHash`, `Placement`, `BootstrapPlan` | hashing, replica placement on the ring, the resize plan |
| `MergeHeap`, `KWayMerge`, `GrowCopy`, `PrefixPaging` | the heap and k-way merge, the copy into a new shard, distributed prefix paging |
| `Resize`, `Topology` | compaction during a resize, the in-place cluster map |
| `MergeOperator` | the RocksDB merge operator |
| `KeyedLock`, `CloseGate` | the master's per-keyspace lock and the database close gate, as step systems |

Protocols are step systems: a state, the enabled actions, and theorems over every run. Objects that the
source updates in place are classes whose methods are tied to specification functions or relations, and the
theorems are about those.

## Where the code does not do what it seems meant to do

Each of these is a theorem, with an exact condition.

- A logged delete answers for a nil put request (`pb/log_entry.go:18-24` compares an interface that holds a
  typed nil), so a follower leaves the key a delete names alone and, if it hears the delete at all, applies it
  to the empty key. `Replication.LostDelete` is a run that loses
  a delete; `Replication.ShippedFollowerMeetsSourceIff` says exactly when a follower agrees with its source
  all the same; `Replication.FollowerMeetsSource` is the result once entries answer for their own key.
- A row with an empty value is stored but does not decode again (`Codec.RoundTrip`), and the code that looks
  into a stored row dereferences nil. A follower panics on the next log entry for that key
  (`Follower.PanicsIff`, `Follower.EmptyValuePanicsNext`), the backfill on such a stored row or on such a
  copied row over a live one (`Convergence.InsertRow`), a prefix query on such a row or on one of the store's
  own (`PrefixPaging.ProcessPrefix`). The results over runs are about puts with values, for which no panic
  ever happens (`Replication.FollowerNeverPanics`).
- Replicas that receive the same puts, at whatever times, stay alive and agree exactly when no put has an
  empty value, no key has two different puts tied for newest (a log entry wins a tie and a backfilled row
  loses it), and every key's newest put never expires or is its only put (an expired row gives way to an
  older one that arrives later) (`Convergence.ConvergesIffUniqueNewest`, `Convergence.LapseDiverges`).
- A time to live of more than 4 seconds is not kept: readers lose the row within 4.3 seconds
  (`Codec.LifetimeIsShort`, `Codec.LifetimeIff`). Compaction's age rule takes milliseconds for seconds and
  never fires for a row written later than 214 days after the epoch (`Codec.AgeRuleFiresIff`).
- A segment that was rotated away cannot be read again, though it is kept. A tail that asks for an unread
  entry can get it exactly when the entry's segment is the one still being written; a follower that fell
  behind a rotation never hears another entry (`TailProgress.TailReadsIff`).
- The flag that protects rows during a resize is forgotten by a restart. On a shard that stays, a row copied
  in for the new size outlasts restarts exactly when the shard owned it at the old size too
  (`Resize.OutlastsRestartsIff`).
- A bootstrap plan that picks one source copies from whichever replica is picked as if it were the primary
  under that server number. It brings the shard's rows exactly when the primary was picked, and otherwise
  none, or rows of a shard that retires (`BootstrapPlan.PickBestCopiesIff`).
- Paging over the shards repeats itself exactly when a row under the empty key ends a page
  (`PrefixPaging.PageThrough`, `PrefixPaging.PagingIsExactIff`).
- Two merge operands may be combined early exactly when they are of one type or the second is of no known
  type; for float sums the contract is exactly associativity of the addition
  (`MergeOperator.EarlyMergeIsSafeIff`, `MergeOperator.SumsRegroupIffAssociative`).
- The close gate is safe exactly when at most 100 calls are in flight and reopening is quiet, both when the
  counter is reset and until the database is open (`CloseGate.SafeExactlyWhenStrict`).
- A shard report is visible in the cluster map afterwards exactly when it updated a known node or did not
  shrink the cluster below its own shard (`Topology.ReportVisibleIff`).

## Model

| member | source | states |
|---|---|---|
| Bytes.LessIffFirstDifference | pb/priority_queue_raw_key_value.go:19-21 | the key order: a proper first part comes first, otherwise the smaller byte at the first difference |
| Bytes.HasPrefixIff | storage/rocks/rocksdb_prefix_scan.go:63-63 | a key has a prefix if and only if it is the prefix followed by something |
| Bytes.LastByteWeighsMost | storage/codec/entry.go:25-27 | in a stored number every further byte has the next higher weight |
| Codec.ToBytes | storage/codec/entry.go:22-32 | the buffer filled field by field is the encoding: three little-endian numbers, the type byte, the value |
| Codec.RoundTrip | storage/codec/entry.go:22-50 | decoding an encoded row gives the row back if and only if its value is not empty |
| Codec.DecodeRoundTrip | storage/codec/entry.go:35-50 | every byte string the decoder accepts is the encoding of what it decoded to |
| Codec.PartitionHashAgrees | storage/codec/entry.go:53-55 | the shortcut hash reader agrees with the row, also on rows the decoder rejects |
| Codec.TtlAgreement | storage/rocks/rocksdb_shard.go:38-44 | a row that compaction drops for its age is expired for readers then and at every later time, under the 32-bit product and the mixed units |
| Codec.LifetimeIsShort | storage/codec/entry.go:59-64 | a row with a time to live is expired for readers within 2^32 nanoseconds, whatever the time to live, since the product is taken in 32 bits |
| Codec.LifetimeIff | storage/codec/entry.go:59-64 | readers see a row for exactly its time to live if and only if that is at most 4 seconds |
| Codec.AgeRuleFiresFrom | storage/rocks/rocksdb_shard.go:38-44 | from which time on compaction drops a row for its age, milliseconds taken for seconds |
| Codec.AgeRuleFiresIff | storage/rocks/rocksdb_shard.go:38-44 | the age rule can ever fire if and only if the row has a time to live and was written, times to live included, within 214 days of the epoch |
| Rows.UnreadableIff | storage/codec/entry.go:35-40 | the bytes stored for a key do not decode if and only if the row has an empty value; any other row is read back as it was |
| LastWriteWins.ApplyAtWithoutTtl | cmd/store/shard_follow_binlog.go:85-133 | for rows without a time to live the apply rule is: only a strictly newer row resists a write |
| LastWriteWins.ReadersSeeLastWriteWins | cmd/store/shard_follow_binlog.go:85-133 | whatever the times to live, to readers then and later a put or delete acts as last write wins on the visible row: a live row yields only to a write that is not older, an expired one is as good as none |
| LastWriteWins.StoredRowGoesIff | cmd/store/shard_follow_binlog.go:93-131 | the stored row goes if and only if it is live and the write is not older, or it is expired and the write is a put that is not expired |
| LastWriteWins.FoldForm | cmd/store/shard_follow_binlog.go:74-134 | any log's effect on a row: keep the row if it is strictly newer than the whole log, else take the log's own result |
| LastWriteWins.FoldAbsorbs | cmd/store/shard_follow_binlog.go:74-134 | applying a write ahead of a log that contains it changes nothing |
| LastWriteWins.FoldIdempotent | cmd/store/shard_follow_binlog.go:74-134 | replaying any stretch of puts and deletes twice equals replaying it once |
| LastWriteWins.FoldFollowsLatest | cmd/store/shard_follow_binlog.go:74-134 | with event times that do not go back, merging agrees with blind overwriting |
| Convergence.HoldsANewest | cmd/store/shard_bootstrap.go:129-153 | after any deliveries of puts with values, by log or backfill, a replica is alive and, if at every delivery's clock reading the key's newest puts had not expired or had no rival, holds one of them, and nothing for a key never put |
| Convergence.ReadersSeeBackfill | cmd/store/shard_bootstrap.go:131-151 | to readers then and later a backfilled row replaces the visible row if and only if it is newer |
| Convergence.UniqueNewestConverges | cmd/store/shard_follow_binlog.go:107-131 | replicas that received the same puts with values in any order, path, repetition and time are alive and hold the same rows when every key has one newest put and that put never expires or is the only one |
| Convergence.TieDiverges | cmd/store/shard_follow_binlog.go:107-131 | a tie between two different newest puts lets replicas differ |
| Convergence.LapseDiverges | cmd/store/shard_bootstrap.go:137-141 | a newest put that can expire gives way to an older put that is backfilled after it has, so replicas differ |
| Convergence.EmptyValueKills | cmd/store/shard_follow_binlog.go:113-119 | a put with an empty value, delivered twice, kills the replica |
| Convergence.ConvergesIffUniqueNewest | cmd/store/shard_follow_binlog.go:107-131 | replicas always stay alive and converge, each under its own clock, if and only if no put has an empty value, no key has two different puts tied for newest, and every key's newest put never expires or is its only one |
| Convergence.InsertRow | cmd/store/shard_bootstrap.go:131-151 | one backfilled row: the new rows, which counter it raises, and that it panics if and only if the stored row has an empty value, or is live and the copied one has |
| Convergence.SortedInsert | cmd/store/shard_bootstrap.go:119-164 | the backfill loop is the sequence of backfill deliveries of the merged rows up to the first that panics; the counters add up, and the store grows by exactly the rows counted as new |
| Convergence.ReadableDeliveriesApply | cmd/store/shard_bootstrap.go:131-151 | where no value is empty every delivery goes through, at any clock |
| Convergence.FollowIsProcessEntry | cmd/store/shard_follow_binlog.go:107-131 | a log delivery is what the apply rule does with the logged put, panics included |
| Follower.ClockIrrelevant | cmd/store/shard_follow_binlog.go:74-134 | without times to live, applying a batch does not depend on the clock |
| Follower.PanicsIff | cmd/store/shard_follow_binlog.go:94-119 | an entry panics if and only if a row with an empty value is stored under the key it answers for |
| Follower.EmptyValuePanicsNext | cmd/store/shard_follow_binlog.go:113-119 | a put of an empty value goes through, and the next entry for that key, whatever it is, panics |
| Follower.ReadableBatchApplies | cmd/store/shard_follow_binlog.go:60-62 | where no value is empty no batch ever panics |
| Follower.Shard.ProcessPut | cmd/store/process_put.go:11-60 | the row is stored and logged under one event time; a refused write is not logged |
| Follower.Shard.ProcessDelete | cmd/store/process_delete.go:9-47 | the same for deletes |
| Follower.Shard.ProcessEntry | cmd/store/shard_follow_binlog.go:74-134 | the branches of the apply rule compute the last-write-wins step on the entry's key and touch no other key; they panic, changing nothing, if and only if the row stored under that key has an empty value |
| Follower.Shard.FollowBatch | cmd/store/shard_follow_binlog.go:60-68 | all entries of a batch are applied before the position moves, and it moves only while it is tracked; at the first entry that panics the batch ends with the position where it was |
| Follower.Shard.EverySecond | cmd/store/shard_follow_progress.go:37-48 | every tracked position is saved and no other saved position changes |
| Replication.CrashTolerance | cmd/store/shard_follow_binlog.go:60-134 | in every run with any crashes, saved progress never passes what was applied, and at its furthest entry the follower holds the rows of one that heard every entry once |
| Replication.FollowerMeetsSource | cmd/store/store_grpc_server_bootstrap.go:27-86 | in every interleaving of writes, position read, scan, tailing, saving and crashing: once past every write its scan saw, the follower's row of each key in scope is the source's row at that log position, for entries that answer for their own key |
| Replication.FollowerNeverPanics | cmd/store/shard_follow_binlog.go:94-119 | in every run of puts with values, the entry a follower is about to apply does not panic |
| Replication.HearAllIsApplyAll | cmd/store/store_grpc_server_binlog.go:56-103 | hearing a stretch of log is applying its delivered entries |
| Replication.FollowBatchIsTailing | cmd/store/shard_follow_binlog.go:49-70 | at any point of any run, what a batch does with the delivered entries of the next stretch, at any clock, is a run of tail steps over it, and it goes through |
| Replication.ShippedFollowerMeetsSourceIff | pb/log_entry.go:9-24 | the same for the code as it is, for every key in scope: they agree if and only if the tailed writes to the key do not end in a delete, or only delete a row that was never copied; and for the empty key of a follower that hears deletes, if and only if its row is absent or newer than every delete of any key after its last write |
| Replication.ShippedDeleteIgnored | pb/log_entry.go:14-24 | a tailed delete leaves the key it names alone |
| Replication.ShippedDeleteOnlyReachesShardZero | pb/log_entry.go:9-24 | a filtered tail hears a delete if and only if it follows for shard 0 |
| Replication.ShippedDeleteHitsEmptyKey | pb/log_entry.go:14-24 | a tailed delete removes the row under the empty key if and only if that row is not newer |
| Replication.LostDelete | cmd/store/shard_follow_binlog.go:85-104 | for every key in scope there is a five-step run after which a caught-up follower still holds a row its source deleted |
| ManySources.StepSeenFrom | cmd/store/shard_bootstrap.go:80-99 | with all old shards as sources and one set of rows, a step at one source is that source's own step, and the others see nothing |
| ManySources.ScanIsBootstrapCopy | cmd/store/store_grpc_server_bootstrap.go:44-67 | a stored row is scanned in the replication model if and only if the copy's filter sends it |
| ManySources.FollowerMeetsEachSource | cmd/store/shard_bootstrap.go:80-117 | in every interleaving of writes at all sources, copies, tailing, saving, crashes and fresh starts: settled with a key's source, the new shard's row of that key is that source's row at its log position |
| ManySources.NewShardHoldsTheUnion | cmd/store/shard_bootstrap.go:80-117 | once all sources are settled, exhausted and quiet, the new shard holds exactly their rows of the keys it owns, each from the source that owns it |
| FrameFormat.ReadAtBoundary | storage/binlog/log_segment_file.go:117-148 | reading at an entry boundary gives that entry and the next boundary; past the last entry it gives an error |
| FrameFormat.BoundariesIncrease | storage/binlog/log_segment_file.go:38-74 | entry boundaries are strictly increasing |
| FrameFormat.BoundaryStable | storage/binlog/log_segment_file.go:38-74 | appending moves no earlier boundary |
| Binlog.AppendKeepsWindow | storage/binlog/log_manager.go:79-94 | an append, with or without rotation and purge, keeps the retained segments a window that ends at the current one |
| Binlog.RetentionWindow | storage/binlog/log_manager.go:127-146 | from an empty directory, after any number of appends whose segment numbers stay clear of the 32-bit wrap, exactly the last limit + 1 segments are retained |
| LogManager.SegmentFile.constructor | storage/binlog/log_segment_file.go:27-36 | a new segment is empty, open and not shut down |
| LogManager.SegmentFile.AppendEntry | storage/binlog/log_segment_file.go:38-74 | an open segment grows by the entry's frame; a closed one refuses and is unchanged |
| LogManager.SegmentFile.ReadEntries | storage/binlog/log_segment_file.go:79-115 | from a boundary: end of segment past the maximum size, waiting at the end, an error once shut down, otherwise the next entries up to the limit and their end boundary |
| LogManager.SegmentFile.Close | storage/binlog/log_segment_file.go:173-185 | closing keeps the bytes and makes later reads fail |
| LogManager.Manager.MaybeRemoveOldFiles | storage/binlog/log_manager.go:127-136 | exactly the files more than the limit behind the current segment go, under the 32-bit comparison |
| LogManager.Manager.PrepareCurrentFile | storage/binlog/log_manager.go:138-147 | the current segment has an open file: a new one if there was no last file, otherwise the last one, written from its end |
| LogManager.Manager.AppendEntry | storage/binlog/log_manager.go:79-94 | the object's append refines the append of the log value: rotate when full, purge, then write the frame |
| LogManager.Manager.HasSegment | storage/binlog/log_manager.go:149-158 | membership, which is the retention window |
| LogManager.Manager.GetSegmentRange | storage/binlog/log_manager.go:160-180 | the least and greatest retained segment, exact ends of the window below the 32-bit signed limit |
| LogManager.Manager.GetSegmentOffset | storage/binlog/log_manager.go:229-234 | the current segment and its write offset |
| LogManager.WindowEnds | storage/binlog/log_manager.go:160-180 | the loop's least and greatest segment are the ends of the retention window |
| Tail.TailContiguity | cmd/store/store_grpc_server_binlog.go:56-103 | for every rotation size, read limit and interleaving with appends, rotations and purges, what a tail reads is one unbroken, unrepeated stretch of the append history, it delivers that stretch's wanted part, and reports where it ends |
| Tail.HistoryOnlyGrows | storage/binlog/log_manager.go:79-125 | the append history only grows, so resuming at a reported position continues the stretch |
| TailProgress.NotifiedFromEmpty | storage/binlog/log_manager.go:79-93 | in a log started from an empty directory every file is open, or closed with its readers told |
| TailProgress.TailWaitsIff | storage/binlog/log_manager.go:97-125 | no lost wake-up: in every run a tail about to read waits if and only if it has read all there is; a closed segment never keeps it waiting |
| TailProgress.BatchGrowsIff | storage/binlog/log_segment_file.go:97-115 | a batch grows until it has the limit, the open file has no further entry, or an entry crosses the rotation size |
| TailProgress.SendsSomething | cmd/store/store_grpc_server_binlog.go:56-103 | from an unread entry of the segment being written the tail reaches a send with entries by its own steps, whatever it is doing now |
| TailProgress.TailReadsIff | storage/binlog/log_segment_file.go:79-95 | a tail that asks for an unread entry can get it if and only if its limit is positive and the entry's segment is still being written; otherwise no run gives it any |
| TailedRows.TailingIsTailSteps | cmd/store/shard_follow_binlog.go:44-70 | applying what a tailing run delivered is one replication step for every entry it read, from the entry where it started |
| TailedRows.TailedRowsMeetSource | cmd/store/store_grpc_server_binlog.go:56-103 | from bytes to rows: a follower at any point of a replication run that tails its source's segments, against any appends, rotations and purges, has once settled the source's row of every key in scope at the entry where the reading ended |
| JumpHash.JumpLoop | topology/cluster.go:180-183 | the published loop computes the bucket |
| JumpHash.HashIsLastJump | README.md:73 | the bucket is the last jump of the key's increasing jump sequence below the number of buckets |
| JumpHash.HashInRange | topology/cluster.go:180-183 | every key has a bucket in range; none exists for an empty cluster |
| JumpHash.HashConsistent | README.md:73 | between two sizes a key keeps its bucket or moves to or from one of the added buckets |
| JumpHash.HashOfSomeKeys | README.md:73 | the jumps of three keys in numbers: key 42 is in bucket 43 of 57, key 256 in bucket 520 of 1024, key 2 in bucket 3 of 5 |
| Placement.PlacedByModulus | topology/cluster_shard_follow.go:40-79 | a shard is on a server if and only if the server is fewer than min(r, n) steps past it modulo n |
| Placement.PeerShards | topology/cluster_shard_follow.go:16-38 | exactly the other servers that hold the shard, nearest first, and how many |
| Placement.PartitionShards | topology/cluster_shard_follow.go:40-59 | exactly the servers that hold the shard, in ring order, min(r, n) of them |
| Placement.LocalShards | topology/cluster_shard_follow.go:61-79 | exactly the shards a server holds, in ring order, min(r, n) of them; the dual of the server list |
| Placement.IsShardInLocal | topology/cluster_shard_follow.go:81-89 | true if and only if the shard is placed on the server |
| BootstrapPlan.KeysMoveAsPlanned | topology/cluster_shard_bootstrap.go:30-113 | jump hash moves a key on resize only in the ways the plan allows for |
| BootstrapPlan.BootstrapPlanWithTopoChange | topology/cluster_shard_bootstrap.go:30-113 | for every replica of the new cluster and every key of its shard, the key's old shard is held already or listed; every listed source existed and can matter; one source is picked if and only if the size stays or the replica is new to its server, and then all old replicas are listed; otherwise, and for transitional following, exactly the primaries of the other shards keys can come from, each once |
| BootstrapPlan.PickBestCopiesIff | cmd/store/shard_bootstrap.go:63-78 | the copy that follows a pick-best plan brings a key of the shard if and only if the picked replica is the primary; from another replica it brings nothing, or rows of a retiring shard |
| MergeHeap.RootIsLeast | pb/priority_queue_raw_key_value.go:19-21 | in a heap no item is before the root |
| MergeHeap.PriorityQueue.Init | pb/priority_queue_raw_key_value.go:58-58 | any items become a heap of the same items |
| MergeHeap.PriorityQueue.Push | pb/priority_queue_raw_key_value.go:72-73 | the heap gains exactly the pushed item |
| MergeHeap.PriorityQueue.Pop | pb/priority_queue_raw_key_value.go:62-62 | the heap loses exactly the returned item, which no remaining item is before |
| MergeHeap.PriorityQueue.Fix | pb/priority_queue_raw_key_value.go:74-76 | re-sifting one place keeps the items and the heap order |
| KWayMerge.Fill | pb/priority_queue_raw_key_value.go:45-58 | the first row of every channel is on the heap, and heap plus channels hold all rows |
| KWayMerge.MergeSorted | pb/priority_queue_raw_key_value.go:42-81 | for any sorted channels: a permutation of all rows sorted byte by byte, or the first `limit` of one, none after an unemitted row; or a stop at the row that was next in order when the callback refuses it |
| KWayMerge.LimitedMergeSorted | goclient/vs/key_value_priority_queue.go:40-74 | the `limit` least rows in byte order, or all if fewer |
| GrowCopy.FullScan | storage/rocks/rocksdb_full_scan.go:24-57 | the batches taken are the scanned rows in order, cut at the limit, all full but the last and none empty; at the callback's first error they are a first part of the rows |
| GrowCopy.FilterBatch | cmd/store/store_grpc_server_bootstrap.go:46-66 | exactly the batch's client rows whose hash is in the source shard at its size and in the target shard at the target size, in order; it panics if and only if a client row is too short to have a hash |
| GrowCopy.BootstrapCopy | cmd/store/store_grpc_server_bootstrap.go:42-76 | all messages together are the wanted rows of the store in key order, up to the request's limit, whatever the batch size; after a failed send, those of a first part of the store |
| GrowCopy.HashByKeyGivesOneSource | cmd/store/store_grpc_server_bootstrap.go:46-66 | if a key determines its partition hash, no two primaries send the same key |
| GrowCopy.StrictIffOneSource | cmd/store/shard_bootstrap.go:104-112 | the merged keys are strictly increasing if and only if no key has two sources |
| GrowCopy.CopyToNewShard | cmd/store/shard_bootstrap.go:80-117 | the file of a brand-new shard holds exactly the old primaries' client rows whose hash is in that primary at the old size and in the new shard at the new size, none foreign to the new shard's compaction filter, sorted, strictly if and only if no key has two sources |
| PrefixPaging.Enumerate | storage/rocks/rocksdb_prefix_scan.go:33-81 | the unbroken run of rows with the prefix after the last seen key, cut at the limit |
| PrefixPaging.RunIsMatching | storage/rocks/rocksdb_prefix_scan.go:33-81 | that run is all matching rows after the last key, since a prefix is a contiguous range |
| PrefixPaging.ProcessPrefix | cmd/store/process_prefix.go:8-39 | the shard's answer is exactly the rows of that run that have not expired; it panics if and only if a scanned row does not decode |
| PrefixPaging.PageOfUnion | goclient/vs/cluster_client_get_by_prefix.go:39-73 | pushing the limit to every shard and merging with it gives the page of the sorted union of the shards |
| PrefixPaging.CollectByPrefix | goclient/vs/cluster_client_get_by_prefix.go:28-73 | the loop over shards and the merge return no expired row, and that page where the matching rows are live; the call reports an error if and only if some shard's page holds a row that does not decode |
| PrefixPaging.UnionOf | goclient/vs/cluster_client_get_by_prefix.go:39-73 | ascending shards without a common key have a sorted union, so the page above is always that of some store |
| PrefixPaging.PageThrough | goclient/vs/cluster_client_get_by_prefix.go:28-73 | asking all shards for k pages, each time after the last key returned, gives the first k times limit matching rows of all shards, each once and in order, if and only if no row under the empty key ends a page (or only one page was asked for) |
| PrefixPaging.PagingIsExactIff | goclient/vs/cluster_client_get_by_prefix.go:28-73 | paging by last returned key walks every matching row once, in order, if and only if no row under the empty key ends a page |
| MergeOperator.FullMerge | cmd/store/shard_merge_operator.go:30-47 | the loop folds the operands, in order, onto the stored row or the first operand |
| MergeOperator.FullMergeAmounts | storage/codec/entry_merge.go:31-56 | on operands of one type the result keeps the first row's header and holds the concatenation, the sum, or the earliest maximum or minimum of all values |
| MergeOperator.JoinIsStored | storage/codec/entry_merge.go:9-27 | what a partial merge stores decodes to the merge of the two rows |
| MergeOperator.JoinCrashesIff | storage/codec/entry_merge.go:38-53 | merging two rows panics if and only if the operand is numeric and one of the values is shorter than eight bytes |
| MergeOperator.CollapseActs | cmd/store/shard_merge_operator.go:61-63 | a partially merged stretch acts on any row as its operands one after the other |
| MergeOperator.BracketingIsIrrelevant | cmd/store/shard_merge_operator.go:30-63 | for operands of one type, any stored row or none, and exact arithmetic, every bracketing by partial merges gives the same bytes, panics included |
| MergeOperator.SumsRegroupIffAssociative | storage/codec/entry_merge.go:41-43 | early merging of float sums is safe if and only if the addition is associative |
| MergeOperator.MixedTypesDiffer | storage/codec/entry_merge.go:38-53 | for two different types, the second a known one, three small numbers tell the groupings apart |
| MergeOperator.EarlyMergeIsSafeIff | storage/codec/entry_merge.go:38-53 | two operands may be merged early for every stored row if and only if they are of one type or the second is of no known type |
| MergeOperator.WordsAreExact | util/bytes.go:67-79 | an arithmetic on eight bytes meets the hypotheses of the results above |
| KeyedLock.StepKeepsInv | cmd/master/master_server.go:65-90 | every step keeps: one mutex per keyspace in the map, its counter the number of waiters and holders, its owner the one thread past acquiring it |
| KeyedLock.MutualExclusion | cmd/master/master_server.go:60-90 | in every interleaving at most one thread is between lock and unlock of a keyspace, and no mutex operation fails |
| KeyedLock.EntryExactlyWhileUsed | cmd/master/master_server.go:65-90 | all waiters and the holder share the mutex in the map, and the entry is there if and only if some thread waits or holds |
| KeyedLock.WaiterNotStranded | cmd/master/master_server.go:65-90 | a waiter's mutex is free, or its owner has a step of its own to take |
| CloseGate.GateIsSafe | storage/rocks/rocksdb.go:74-118 | with at most 100 calls in flight and quiet reopens, the swap succeeds only with no call inside, no call is inside while the handle is unusable, and a call is let in if and only if the handle is usable |
| CloseGate.FloodBreaksIn | storage/rocks/rocksdb.go:130-144 | the 101st call in flight after the swap is let in |
| CloseGate.EarlyResetLetsIn | storage/rocks/rocksdb.go:48-71 | a call that begins between the counter reset and the open uses a closed handle |
| CloseGate.LateLeaveSkewsTheCounter | storage/rocks/rocksdb.go:48-50 | a refused call that leaves after the reset makes a later swap succeed with a call inside |
| CloseGate.SafeExactlyWhenStrict | storage/rocks/rocksdb.go:48-144 | for overlapping callers the gate is safe in every run if and only if at most 100 are in flight and every reopen is quiet on both sides of the reset |
| Resize.KeptSurvives | storage/rocks/rocksdb_shard.go:23-46 | the filter never drops a row that the shard owns and a later reader can still see |
| Resize.CompactionIsSafeDuringResize | cmd/store/store_grpc_server_resize.go:66-91 | from prepare to commit, in every interleaving of creation, copies, writes, deletes, compactions and restarts, every row the old or new size needs that a reader could still see is there as if no compaction had run; after a restart, of the rows of the old size and of new shards |
| Resize.RestartLosesCopiedRow | cmd/store/store_grpc_server_create_shard.go:136-151 | a row copied in for the new size that the shard did not own before is dropped by the first compaction after a restart |
| Resize.OutlastsRestartsIff | cmd/store/store_grpc_server_create_shard.go:112-151 | on a shard that was there and stays, a live row of the new size outlasts every run with restarts if and only if it was the shard's row at the old size |
| Resize.CommitThenCompactIsExact | storage/rocks/rocksdb_shard.go:23-60 | after commit a full compaction leaves exactly the rows owned at the new size that the age rule spares, and the store's own values |
| Resize.FailureRestoresFilters | cmd/store/store_grpc_server_resize.go:83-88 | a failed prepare puts every filter back as it was |
| Resize.GrowthNeedsNoFlag | storage/rocks/rocksdb_shard.go:30-37 | growing, the old filter already keeps what the new size needs |
| Resize.ShrinkDropsUnflaggedIff | storage/rocks/rocksdb_shard.go:30-37 | shrinking, an unflagged filter would drop a copied row if and only if its old shard retires |
| Resize.Store.FlagLocalShards | cmd/store/store_grpc_server_resize.go:174-187 | exactly the shards the new cluster places here get the flag set or cleared; nothing else changes |
| Resize.Store.SetLocalFilters | cmd/store/store_grpc_server_resize.go:100-103 | exactly those shards filter for the new size, unflagged |
| Resize.Store.CommitInfos | cmd/store/store_grpc_server_resize.go:105-119 | exactly those shards' records take the new size and stop being candidates; a change is reported if and only if a record changed |
| Resize.Store.CommitResize | cmd/store/store_grpc_server_resize.go:93-129 | both, or nothing at all when the keyspace has no status |
| Resize.CommitOutlastsRestart | cmd/store/store_grpc_server_resize.go:105-119 | after commit a restarted store opens every shard that stays with the filter that commit left it, and no longer as a candidate |
| Topology.SortedShards | topology/cluster.go:165-178 | a permutation of the group in order of ring distance |
| Topology.RankIsAhead | topology/cluster.go:165-178 | the sorting distance is the ring distance by which replicas are placed |
| Topology.Cluster.SetExpectedSize | topology/cluster.go:196-206 | a positive size becomes the expected size, fills an empty map or cuts a longer one, and leaves the groups that remain as they were |
| Topology.Cluster.SetShard | topology/cluster.go:43-71 | a known address is updated in place, a new one added and sorted in, then sizes follow the report; the former record is returned |
| Topology.Cluster.ReplaceShard | topology/cluster.go:75-93 | the first node with the same keyspace, server and shard, if there is one, gets the new store and record; otherwise the groups are only padded |
| Topology.Cluster.RemoveShard | topology/cluster.go:96-128 | the first match goes, an emptied cluster forgets its size, and the answer says whether the store is used nowhere |
| Topology.Cluster.RemoveStore | topology/cluster.go:132-148 | every node at the address goes, group by group, no use of it remains, and exactly their shards are returned in order |
| Topology.Cluster.CurrentSize | topology/cluster.go:232-240 | the position after the last group that is not empty |
| Topology.Cluster.GetNode | topology/cluster.go:244-258 | found if and only if both indices are in range, and then that replica |
| Topology.Cluster.FindShardId | topology/cluster.go:181-183 | a key is routed to its jump hash at the expected size, in range, and nowhere when that size is zero |
| Topology.SortedLeads | topology/cluster.go:165-178 | sorting by ring distance puts server i first in group i, whatever the number of groups |
| Topology.NextKeepsInv | topology/cluster.go:43-206 | every operation, under the two hypotheses, keeps: group i holds shard i, one node per address, server i first if present |
| Topology.LeaderIsFirst | topology/cluster.go:43-251 | over every run in which an address keeps its server id and a replacement store is new to its group, replica 0 of shard i is server i whenever server i is in the group |
| Topology.OverwriteLeadsIff | topology/cluster.go:51-57 | exactly when updating a node in place keeps the leader first |
| Topology.ReplacementDistinctIff | topology/cluster.go:84-90 | a replacement keeps one node per address if and only if its store is new to the group |
| Topology.ReportVisibleIff | topology/cluster.go:43-71 | exactly when a reported node is in its group afterwards; no other group changes, up to the cut |
| Topology.RemovedInOrder | topology/cluster.go:132-148 | the shards RemoveStore returns come in the order of their numbers, each once |
| Topology.RemoveAllExactly | topology/cluster.go:132-148 | no node remains at the address and no other node is lost |
| Topology.RemoveExactly | topology/cluster.go:96-128 | the address is gone from that group, its other nodes stay, no other group changes unless all are empty, and then the expected size is zero |

## Left out

- gRPC and TCP servers and clients, connection pools, retries, sleeps, the shell, the gateway and the Java client: input and output only.
- Protobuf encoding: a log payload is a byte string with an inverse decoding.
- RocksDB and SST internals: a database is a map or an ascending sequence of rows, an iterator a position in it, a compaction any subset of the rows the filter drops.
- JumpHash.JumpLoop: divides exactly where the library divides floating-point numbers, so a bucket that rounding would move is not modelled.
- JumpHash.HashOfZero: holds for up to 2^31 buckets, the range of the source's 32-bit bucket numbers.
- ManySources.FollowerMeetsEachSource: each source writes only keys it owns, as clients route them, and entries answer for their own key, so the deletes as shipped have no result here. A copy does not fail: in the code each source's position is saved before the merged file is ingested, and an ingestion error is ignored, so a failed copy would be followed as if it had succeeded.
- ManySources.NewShardHoldsTheUnion: under the same conditions.
- Merges in replay: a redelivered merge is applied twice, so the replay results are about puts and deletes.
- Times to live in replay: rows of the replication runs never expire; the apply and backfill rules, batches and convergence are modelled with expiry.
- Replication.FollowerMeetsSource: assumes values that are not empty, one write per key in flight and event times per key that do not go back, which the writers give under one clock; log positions are entry indices, tied to segments and offsets in `TailedRows`.
- Replication.CrashTolerance: the source keeps what a follower still needs; the out-of-sync reply to a purged position, which the follower takes as position 0:0, is not a step, nor is the error at a segment that was rotated away (`TailProgress.TailReadsIff`).
- The two puts of saveProgress are one step, so a crash between them is not modelled.
- The lock mismatch around the in-memory progress map: followers and the every-second task are interleaved step by step.
- TailProgress.SendsSomething: gives a run of the tail's own steps; no fairness among writer and readers is modelled.
- FrameFormat.ReadAtBoundary: entries are short enough for the 32-bit frame length and step; longer ones are not modelled.
- Binlog restart from disk and a torn last frame: a log starts from an empty directory.
- Binlog.RetentionWindow: every segment number on the way stays below 2^32 minus the limit; what the 32-bit comparison purges beyond that is not stated.
- LogManager.Manager.AppendEntry: one appender at a time, as a shard has; racing appenders during rotation are not modelled.
- Choosing the best bootstrap source by comparing log positions: not modelled.
- PrefixPaging.PageThrough: the matching rows are live, so no shard panics on one of them (processPrefix does, on the store's own rows and on rows with an empty value); keys are distinct across shards. Pages shortened by expired rows are described for one shard only.
- Nil operands of the merge operator: the library hands over slices that are not nil; the existing value may be absent.
- Rounding and not-a-number in merges: sums need an associative addition, which is shown to be the exact condition; maxima and minima need a strict weak order, which leaves out not-a-number.
- The capacity of merged slices: appending to a value that shares a buffer with its operand is modelled on values.
- Unlocking a keyspace by a thread that did not lock it: the master's handlers always pair the two.
- KeyedLock.WaiterNotStranded: no fairness is modelled, so a waiter may wait for ever behind others.
- CloseGate.SafeExactlyWhenStrict: one thread closes and reopens; a second concurrent close is not modelled.
- Resize.CompactionIsSafeDuringResize: prepare, creation and commit use one replication factor, as the master sends it; a shard created but not yet recorded when the store restarts is not modelled.
- ResizeCleanup: deletes whole shards; only the rows' safety up to commit is modelled.
- The master's message-level resize and promotion sequence: expected sizes change as a side effect of reports, so a clean switch-over is not a property of the code.
- Aliasing of cluster nodes: nodes are values, so a record that a caller changes after reporting it is not followed.
- Topology.SortedShards: the library sort is not stable; every result is described by the permutation and the order, and one such sort is written out.
- Placing new servers on disks (allocateServers), benchmarks, histograms and debug printing.
