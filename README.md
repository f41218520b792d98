# Ceph core bookkeeping, modelled and proved in Dafny

This project models the sequential bookkeeping at the heart of a number of
Ceph components and proves what each one promises. One Dafny module
corresponds to one source file:

- `PgMap` (`pg_map.dfy`): the crimson OSD's sharded pgid -> core mapping.
  Every core keeps a copy of the mapping, and core 0 keeps a load table of
  PGs per core. New PGs go to the least loaded core, lowest id first.
- `FixedKVNode` (`fixed_kv_node.dfy`): the child-pointer array of a SeaStore
  fixed-kv B-tree node. It covers shift insert and remove, range moves, the
  split, merge and balance partitioning, the two-pointer copy from the
  stable node, and the capacity predicates.
- `RecordSubmitter` (`record_submitter.dfy`): SeaStore's journal record
  batching. A batch goes EMPTY -> PENDING -> SUBMITTING -> EMPTY. The
  submitter is IDLE, PENDING or FULL according to its outstanding writes,
  and it keeps a pool of free batches.
- `Transaction` (`transaction.dfy`): a SeaStore transaction's statistics
  counters and the lookup order over its write, retired and read sets. It
  also covers the retired-range check, the placement of fresh extents, the
  delayed-allocation list and the reset that keeps the ordering handle.
- `DamageTable` (`damage_table.dfy`): the MDS damage table. Its indexes by
  damage type and by id stay consistent, it has a size cap read on every call and the rank's
  fatal cases, and entries are erased by id.
- `PerfCounters` (`perf_counters.dfy`): performance-counter slots gated by
  type and by the global switch, the builder's configuration rules, and the
  collection's unique names and counter paths.
- `Allocator` (`allocator.dfy`): BlueStore's free-extent histogram and the
  parameter check of its admin command.
- `BlockDevice` (`block_device.dfy`): the I/O range check, the access mode
  and the device type lookup.
- `CephFeatures` (`ceph_features.dfy`): feature bits with incarnation
  markers, `HAVE_FEATURE`, and the composition of `CEPH_FEATURES_ALL`.
- `ScrubTypes` (`scrub_types.dfy`): the error flags scrub records per shard
  and per object.
- `ClsVersion` (`cls_version.dfy`): the object version of the version class.
- `PubSubPush` (`pubsub_push.dfy`): how the object gateway chooses a
  notification endpoint from its URL schema and parses the endpoint
  arguments.
- `RestMetadata` (`rest_metadata.dfy`): how the gateway's metadata REST
  handlers frame keys, dispatch requests, validate parameters and map
  status codes.
- `ExporterUtil` (`exporter_util.dfy`): the Prometheus exporter's digit
  test and metric-name mangling.

`Wrappers`, `MachineInt` and `Strings` hold shared helpers:
- `Option` and `Result`;
- `uint64_t` wrap-around;
- character classes, decimal strings and `find`.

Methods that change state in the source are methods on classes with
`modifies` clauses. Each one's `ensures` ties the new state to a function of
the old one, and lemmas prove that function's properties. Every
`ceph_assert` a caller has to satisfy is a `requires`. Every assertion that
follows from the object's own invariant is proved instead.

## Model

| member | source | states |
|---|---|---|
| PgMap.LeastLoadedUnique | src/crimson/osd/pg_map.h:59-65 | two cores that both have the least count, the lower id winning ties, are the same core |
| PgMap.LoadSumCountsPgs | src/crimson/osd/pg_map.h:108-111 | the load counts summed over the table equal the number of pgids core 0 maps |
| PgMap.CountsMatchAfterInsert | src/crimson/osd/pg_map.h:55-71 | inserting a new pgid and incrementing its core's count keeps every count equal to the number of pgids mapped to that core |
| PgMap.CountsMatchAfterRemove | src/crimson/osd/pg_map.h:93-97 | erasing a pgid and decrementing its core's count keeps the counts matching the mapping |
| PgMap.MinElement | src/crimson/osd/pg_map.h:60-65 | the loop returns a core of the table whose count is least, the lowest such core id |
| PgMap.PGShardMapping.constructor | src/crimson/osd/pg_map.h:114-120 | every shard's mapping empty and every count 0, with the invariant: the load table holds exactly the cores in [min, limit), all shards agree, and the counts match the mapping |
| PgMap.PGShardMapping.GetPgMapping | src/crimson/osd/pg_map.h:33-38 | NULL_CORE exactly when the core's own map lacks the pgid, the stored core otherwise, and a stored core is never NULL_CORE |
| PgMap.PGShardMapping.GetNumPgs | src/crimson/osd/pg_map.h:108-111 | the size of core 0's map, which equals the sum of the load counts |
| PgMap.PGShardMapping.ForEachPgid | src/crimson/osd/pg_map.h:122-128 | visits each mapped pgid once, in increasing order, and visits get_num_pgs of them |
| PgMap.PGShardMapping.MaybeCreatePg | src/crimson/osd/pg_map.h:41-84 | a known pgid returns its core and changes nothing; a new one goes to the requested core or to the least loaded, lowest-id core, whose count alone rises by one, and every core then maps the pgid to that core |
| PgMap.PGShardMapping.RemovePg | src/crimson/osd/pg_map.h:87-106 | the pgid is erased from every core and its core's count alone falls by one |
| FixedKVNode.ShiftInsert | src/crimson/os/seastore/btree/fixed_kv_node.h:126-146 | slots before the offset are unchanged, the child sits at the offset, and the old slots from the offset move up by one |
| FixedKVNode.ShiftRemove | src/crimson/os/seastore/btree/fixed_kv_node.h:149-166 | slots before the offset are unchanged and the ones after it move down by one |
| FixedKVNode.RemoveUndoesInsert | src/crimson/os/seastore/btree/fixed_kv_node.h:126-166 | removing at the offset just inserted at restores the array |
| FixedKVNode.Place | src/crimson/os/seastore/btree/fixed_kv_node.h:203-225 | a range copied to a destination offset: the slots inside take the source's, the rest keep theirs |
| FixedKVNode.MergeConcatenates | src/crimson/os/seastore/btree/fixed_kv_node.h:281-298 | with both sources pending, the merged node's leading slots are the left children followed by the right ones |
| FixedKVNode.SplitPartitions | src/crimson/os/seastore/btree/fixed_kv_node.h:265-279 | the left replacement's slots and the right one's put together give back the source's children |
| FixedKVNode.Node.constructor | src/crimson/os/seastore/btree/fixed_kv_node.h:100-103 | a node with `capacity` null slots and the given strictly increasing keys |
| FixedKVNode.Node.UpdateChildPtr | src/crimson/os/seastore/btree/fixed_kv_node.h:117-121 | only the slot at the offset changes, to the new child |
| FixedKVNode.Node.InsertChildPtr | src/crimson/os/seastore/btree/fixed_kv_node.h:126-146 | the children become ShiftInsert of the old ones, with RESERVATION_PTR for a null child in a leaf |
| FixedKVNode.Node.RemoveChildPtr | src/crimson/os/seastore/btree/fixed_kv_node.h:149-166 | the children become ShiftRemove of the old ones |
| FixedKVNode.Node.SplitChildPtrs | src/crimson/os/seastore/btree/fixed_kv_node.h:265-279 | when the node is pending, the two replacements take its children below and from the pivot; otherwise they are unchanged |
| FixedKVNode.Node.MergeChildPtrs | src/crimson/os/seastore/btree/fixed_kv_node.h:281-298 | the children are Merged of the two sources, each copied only when pending |
| FixedKVNode.Node.IsChildrenEmpty | src/crimson/os/seastore/btree/fixed_kv_node.h:373-384 | true exactly when no slot up to the node size holds a valid child |
| FixedKVNode.Node.CopyChildrenFromStableSource | src/crimson/os/seastore/btree/fixed_kv_node.h:431-460 | fills only slots that were null, each with the stable child of the equal key, and leaves every other slot unchanged |
| FixedKVNode.MoveChildPtrs | src/crimson/os/seastore/btree/fixed_kv_node.h:203-225 | dest[dest_start + k] = src[src_start + k] for the range, every other destination slot unchanged |
| FixedKVNode.BalancePivot | src/crimson/os/seastore/btree/fixed_kv_node.h:307-313 | half of the total, rounded up only when the total is odd and the left is preferred |
| FixedKVNode.BalanceRedistributes | src/crimson/os/seastore/btree/fixed_kv_node.h:317-349 | with both sides pending, the left replacement gets the first pivot children of left++right and the right one the rest |
| FixedKVNode.BalanceChildPtrs | src/crimson/os/seastore/btree/fixed_kv_node.h:300-350 | the replacements' slots become BalancedLeft and BalancedRight of the sources |
| FixedKVNode.BalancePivotInLeft | src/crimson/os/seastore/btree/fixed_kv_node.h:317-331 | the branch with the pivot inside the left node deals the slots as BalancedLeft/BalancedRight say |
| FixedKVNode.BalancePivotInRight | src/crimson/os/seastore/btree/fixed_kv_node.h:332-349 | the branch with the pivot inside the right node deals the slots as BalancedLeft/BalancedRight say |
| FixedKVNode.DealRightChildPtrs | src/crimson/os/seastore/btree/fixed_kv_node.h:345-346 | the right source's children below the cut go to the left replacement and the rest to the right one |
| FixedKVNode.LowerBound | src/crimson/os/seastore/btree/fixed_kv_node.h:1105-1108 | the first slot whose key is not below the searched key |
| FixedKVNode.UpperBound | src/crimson/os/seastore/btree/fixed_kv_node.h:662-665 | the first slot whose key is above the searched key |
| FixedKVNode.ChildPosForKey | src/crimson/os/seastore/btree/fixed_kv_node.h:667-673 | upper_bound - 1 in an internal node, lower_bound in a leaf |
| FixedKVNode.ChildPosIsCoveringSlot | src/crimson/os/seastore/btree/fixed_kv_node.h:667-673 | in an internal node whose first key is at most the searched key, the slot found is the last one whose key is at most it |
| FixedKVNode.MinCapacity | src/crimson/os/seastore/btree/fixed_kv_node.h:931-934 | (capacity - 1) / 2, less than the capacity |
| FixedKVNode.AtMaxCapacity | src/crimson/os/seastore/btree/fixed_kv_node.h:936-940 | a full node of non-zero capacity holds more than get_min_capacity() entries |
| FixedKVNode.AtMinCapacity | src/crimson/os/seastore/btree/fixed_kv_node.h:942-946 | when the minimum is at least 1, true exactly for sizes get_min_capacity() - 1 and get_min_capacity(), the only sizes the assertion admits at or below it |
| FixedKVNode.BelowMinCapacity | src/crimson/os/seastore/btree/fixed_kv_node.h:948-952 | when the minimum is at least 1, true exactly for size get_min_capacity() - 1 |
| FixedKVNode.CapacityPredicates | src/crimson/os/seastore/btree/fixed_kv_node.h:936-952 | how the three predicates relate for any capacity: below min implies at min; at min and not below min exactly at the minimum; at max excludes at min |
| FixedKVNode.TinyCapacityMinAssertUnsatisfiable | src/crimson/os/seastore/btree/fixed_kv_node.h:942-945 | with capacity 1 or 2, get_min_capacity() - 1 wraps to the largest size_t, so the size assertion in at_min_capacity cannot hold |
| RecordSubmitter.RecordBatch.constructor | src/crimson/os/seastore/journal/record_submitter.cc:145-146 | an EMPTY batch with no records, its index and capacities set |
| RecordSubmitter.RecordBatch.AddPending | src/crimson/os/seastore/journal/record_submitter.cc:17-62 | not SUBMITTING before; PENDING after, holding a promise, with one more record and the new group size; the submitting counters are unchanged |
| RecordSubmitter.RecordBatch.EncodeBatch | src/crimson/os/seastore/journal/record_submitter.cc:64-81 | PENDING with records before; SUBMITTING after, with the submitted size, length and metadata length of the group |
| RecordSubmitter.RecordBatch.SetResult | src/crimson/os/seastore/journal/record_submitter.cc:83-103 | SUBMITTING before; EMPTY after, with the submitting counters zeroed, and the promise gets the write result with the metadata length |
| RecordSubmitter.RecordBatch.SubmitPendingFast | src/crimson/os/seastore/journal/record_submitter.cc:105-122 | callable only on an EMPTY batch, as the source asserts, and changes no state of the batch; the group size it hands back is the record's own |
| RecordSubmitter.StateOf | src/crimson/os/seastore/journal/record_submitter.cc:425-436 | IDLE at 0 outstanding writes, PENDING below the depth, FULL at it |
| RecordSubmitter.CheckAction | src/crimson/os/seastore/journal/record_submitter.cc:193-206 | ROLL when a roll is needed, else SUBMIT_FULL when the batch is full, else SUBMIT_NOT_FULL |
| RecordSubmitter.NewBatches | src/crimson/os/seastore/journal/record_submitter.cc:144-148 | count fresh EMPTY batches indexed 0 to count - 1, all in the free list |
| RecordSubmitter.Submitter.constructor | src/crimson/os/seastore/journal/record_submitter.cc:124-150 | IDLE with nothing outstanding or in flight; batch 0 current and batches 1 to io_depth free, all EMPTY |
| RecordSubmitter.Submitter.UpdateState | src/crimson/os/seastore/journal/record_submitter.cc:425-436 | the state becomes StateOf the outstanding count and nothing else changes |
| RecordSubmitter.Submitter.FlushCurrentBatch | src/crimson/os/seastore/journal/record_submitter.cc:493-524 | the current batch goes in flight, the first free batch becomes current, and the outstanding count rises by one |
| RecordSubmitter.Submitter.DecrementIoWithFlush | src/crimson/os/seastore/journal/record_submitter.cc:438-470 | the outstanding count falls by one, rising again only by the flush that follows; a flush happens exactly when a FULL submitter had a waiter or a PENDING batch is at the last write or asks for it |
| RecordSubmitter.Submitter.FinishSubmitBatch | src/crimson/os/seastore/journal/record_submitter.cc:483-491 | the batch is EMPTY, leaves the in-flight set and joins the free pool; the promise gets the write result |
| RecordSubmitter.Submitter.Submit | src/crimson/os/seastore/journal/record_submitter.cc:268-349 | the record is written alone exactly when the batch is EMPTY, the submitter is not FULL, and it is IDLE or the fast path is otherwise chosen; otherwise it joins the batch, which is flushed exactly when not FULL and IDLE, over the preferred fullness, full by evaluation or at capacity; an unflushed batch is PENDING with one more record and the new size, a flushed one SUBMITTING with its record count; a waiter is left exactly when FULL without an atomic roll and the batch needs a flush |
| RecordSubmitter.Submitter.SubmitFast | src/crimson/os/seastore/journal/record_submitter.cc:285-307 | one write for the record alone; the outstanding count rises by one and the current batch stays |
| RecordSubmitter.Submitter.SubmitBatched | src/crimson/os/seastore/journal/record_submitter.cc:308-348 | the record joins the current batch, which is flushed exactly when it needs it and the submitter is not FULL; unflushed, the batch is PENDING with one more record and the new size and the pool is unchanged; flushed, it is SUBMITTING with that record count and the first free batch becomes current; a waiter is left exactly when FULL without an atomic roll |
| RecordSubmitter.FreeBatchAvailable | src/crimson/os/seastore/journal/record_submitter.cc:498-499 | below the I/O depth the free pool is never empty |
| RecordSubmitter.PoolCoversAllBatches | src/crimson/os/seastore/journal/record_submitter.cc:144-149 | every batch is the current one, a free one or one in flight |
| Transaction.Merge | src/crimson/os/seastore/transaction.h:38-42 | the component-wise uint64_t sum of two tallies |
| Transaction.Bump | src/crimson/os/seastore/transaction.h:32-36 | the count rises by one and the total by the amount, in uint64_t |
| Transaction.MergeCommutes | src/crimson/os/seastore/transaction.h:38-42 | increment_stat is commutative |
| Transaction.MergeClearIsIdentity | src/crimson/os/seastore/transaction.h:27-42 | merging a clear tally changes nothing |
| Transaction.BumpNeverClearWithoutWrap | src/crimson/os/seastore/transaction.h:27-36 | after an increment the tally is not clear unless the count wraps |
| Transaction.IoStat.constructor | src/crimson/os/seastore/transaction.h:23-25 | a clear tally |
| Transaction.IoStat.Increment | src/crimson/os/seastore/transaction.h:32-36 | the tally becomes Bump of the old one |
| Transaction.IoStat.IncrementStat | src/crimson/os/seastore/transaction.h:38-42 | the tally becomes Merge of the old one with the other |
| Transaction.IoStat.Clear | src/crimson/os/seastore/transaction.h:428 | the tally is clear |
| Transaction.VersionStat.constructor | src/crimson/os/seastore/transaction.h:49-51 | a clear tally |
| Transaction.VersionStat.Increment | src/crimson/os/seastore/transaction.h:58-62 | the tally becomes Bump of the old one |
| Transaction.VersionStat.IncrementStat | src/crimson/os/seastore/transaction.h:64-68 | the tally becomes Merge of the old one with the other |
| Transaction.VersionStat.Clear | src/crimson/os/seastore/transaction.h:443 | the tally is clear |
| Transaction.CountInc | src/crimson/os/seastore/transaction.h:518-526 | valid rises by one, and clean or mutated by one according to the extent |
| Transaction.CountDec | src/crimson/os/seastore/transaction.h:527-535 | valid falls by one, and clean or mutated by one according to the extent |
| Transaction.CountDecUndoesInc | src/crimson/os/seastore/transaction.h:518-535 | dec after inc of the same extent kind restores all three counters |
| Transaction.CountIncKeepsBalance | src/crimson/os/seastore/transaction.h:518-526 | inc keeps valid == clean + mutated |
| Transaction.CountDecKeepsBalance | src/crimson/os/seastore/transaction.h:527-535 | dec keeps valid == clean + mutated |
| Transaction.ExistingBlockStats.constructor | src/crimson/os/seastore/transaction.h:514-517 | all three counters at 0 |
| Transaction.ExistingBlockStats.Inc | src/crimson/os/seastore/transaction.h:518-526 | the counters become CountInc of the old ones |
| Transaction.ExistingBlockStats.Dec | src/crimson/os/seastore/transaction.h:527-535 | the counters become CountDec of the old ones |
| Transaction.ExistingBlockStats.Clear | src/crimson/os/seastore/transaction.h:437 | all three counters at 0 |
| Transaction.ClearStatsAreTheDefaults | src/crimson/os/seastore/transaction.h:455-504 | is_clear of tree stats, OOL write stats and a tally holds exactly for the all-zero value |
| Transaction.TreeStatsIsClear | src/crimson/os/seastore/transaction.h:462-469 | tree_stats_t::is_clear holds exactly for the default-initialised stats |
| Transaction.OolWriteStatsIsClear | src/crimson/os/seastore/transaction.h:498-503 | ool_write_stats_t::is_clear holds exactly for the default-initialised stats |
| Transaction.RouteOf | src/crimson/os/seastore/transaction.h:177-199 | inline, delayed, pre-allocated or existing by the extent's kind and placement |
| Transaction.InlineExtentsDisjoint | src/crimson/os/seastore/transaction.h:190-197 | inline extents placed one after another occupy disjoint record offsets |
| Transaction.LowerBound | src/crimson/os/seastore/transaction.h:338 | the first retired extent whose address is at least the one searched |
| Transaction.FloorIndex | src/crimson/os/seastore/transaction.h:338-343 | the retired extent starting at, or else just before, the address |
| Transaction.IsRetired | src/crimson/os/seastore/transaction.h:333-348 | false on an empty set; true only when a retired extent covers [paddr, paddr + len) |
| Transaction.IsRetiredComplete | src/crimson/os/seastore/transaction.h:333-348 | in a set of disjoint retired extents, an extent covering the range makes is_retired true |
| Transaction.ValidOnly | src/crimson/os/seastore/transaction.h:287-294 | never longer than the list |
| Transaction.ValidOnlyKeepsExactlyTheValid | src/crimson/os/seastore/transaction.h:284-297 | an extent is in the filtered list exactly when it is a valid extent of the list |
| Transaction.CountInvalid | src/crimson/os/seastore/transaction.h:287-294 | the invalid count plus the kept count is the list's length |
| Transaction.IncrementedWraps | src/crimson/os/seastore/transaction.h:292 | the uint64_t counter grows by the number of invalid extents, modulo 2^64 |
| Transaction.KeepValid | src/crimson/os/seastore/transaction.h:287-294 | the loop returns ValidOnly of the list and adds the invalid count to the counter in uint64_t |
| Transaction.Transaction.constructor | src/crimson/os/seastore/transaction.h:388-400 | empty sets and lists, offsets at 0, not conflicted, not reset, fresh-block stats clear |
| Transaction.Transaction.GetExtent | src/crimson/os/seastore/transaction.h:92-124 | PRESENT from the write set, else RETIRED from the retired set, else PRESENT from the read set, else ABSENT |
| Transaction.Transaction.IsRetiredRange | src/crimson/os/seastore/transaction.h:333-348 | whenever it answers true, some retired extent covers the range |
| Transaction.Transaction.Placed | src/crimson/os/seastore/transaction.h:180-195 | the extent's address after placement by its route |
| Transaction.Transaction.AddFreshExtent | src/crimson/os/seastore/transaction.h:173-204 | not on a weak transaction; the placed extent joins the write set and the list its route names, an inline one at the current offset, which then advances by its length; the stats follow |
| Transaction.Transaction.FileFresh | src/crimson/os/seastore/transaction.h:177-199 | the placed extent joins exactly the list its route names, and the offsets and stats advance to match |
| Transaction.Transaction.FileExisting | src/crimson/os/seastore/transaction.h:177-179 | the extent joins the existing list and the existing-block counts take CountInc |
| Transaction.Transaction.FileDelayed | src/crimson/os/seastore/transaction.h:180-186 | the extent joins the delayed list and the temporary offset advances by its length |
| Transaction.Transaction.FilePreAlloc | src/crimson/os/seastore/transaction.h:187-189 | a pre-allocated extent joins the pre-alloc list |
| Transaction.Transaction.FileInline | src/crimson/os/seastore/transaction.h:190-198 | an inline extent is placed at the offset and the offset advances |
| Transaction.Transaction.AppendInline | src/crimson/os/seastore/transaction.h:196-197 | the inline list gains the extent and the written length grows by its length |
| Transaction.Transaction.FreshExtentIsPresent | src/crimson/os/seastore/transaction.h:99-107 | a fresh extent just added is found PRESENT |
| Transaction.Transaction.GetDelayedAllocList | src/crimson/os/seastore/transaction.h:284-297 | returns only the valid extents, counts the invalid ones and empties the delayed list |
| Transaction.Transaction.GetValidPreAllocList | src/crimson/os/seastore/transaction.h:299-311 | the invalid counter is 0 before; returns only the valid pre-allocated extents and counts the invalid ones, leaving the list |
| Transaction.Transaction.ResetPreserveHandle | src/crimson/os/seastore/transaction.h:419-448 | offsets at 0, every list and set empty, not conflicted, stats cleared, did_reset true |
| Transaction.Transaction.ClearSetsAndLists | src/crimson/os/seastore/transaction.h:421-436 | every list and set empty |
| Transaction.Transaction.ClearStats | src/crimson/os/seastore/transaction.h:425-443 | every statistic back to its default |
| DamageTable.MdsdirOfRank | src/mds/DamageTable.cc:141-142 | the mdsdir of a rank is owned by that rank |
| DamageTable.StraysOfRank | src/mds/DamageTable.cc:144 | a rank's stray directories are owned by that rank |
| DamageTable.AddDentryKeepsIndexes | src/mds/DamageTable.cc:151-157 | a new dentry entry keeps every index keyed by its own entries and by_id keyed by each entry's id; under an id not in use every indexed entry stays listed in by_id |
| DamageTable.AddDirfragKeepsIndexes | src/mds/DamageTable.cc:178-183 | the same for a new dirfrag entry |
| DamageTable.AddRemoteKeepsIndexes | src/mds/DamageTable.cc:194-199 | the same for a new backtrace entry |
| DamageTable.DirfragIdCollisionOrphansEntry | src/mds/DamageTable.cc:178-183 | a new dirfrag entry whose random id is in use by an older dirfrag or backtrace entry overwrites that by_id slot: the older entry stays in its type index but is no longer listed in by_id |
| DamageTable.EraseDirfragKeepsIndexes | src/mds/DamageTable.cc:259-261 | erasing a dirfrag entry from both indexes keeps the table well formed, and every remaining indexed entry listed when all were |
| DamageTable.EraseDentryKeepsIndexes | src/mds/DamageTable.cc:262-264 | dropping a dentry entry's whole dirfrag map keeps both properties |
| DamageTable.EraseRemoteKeepsIndexes | src/mds/DamageTable.cc:265-267 | erasing a backtrace entry from both indexes keeps both properties |
| DamageTable.DamageTable.IsDentryDamaged | src/mds/DamageTable.cc:209-224 | on a consistent table, a damaged answer is backed by a dentry entry in by_id for that inode, frag, name and snapshot |
| DamageTable.DamageTable.IsDirfragDamaged | src/mds/DamageTable.cc:226-231 | on a consistent table, a damaged answer is backed by a dirfrag entry in by_id for that inode and frag |
| DamageTable.DamageTable.IsRemoteDamaged | src/mds/DamageTable.cc:233-237 | on a consistent table, a damaged answer is backed by a backtrace entry in by_id for that inode |
| DamageTable.DamageTable.NotifyDentry | src/mds/DamageTable.cc:131-160 | fatal with no change when oversized under the cap given for this call, or for the rank's own mdsdir or stray; otherwise a dentry not yet recorded is added to its dirfrag's map and stored in by_id under the random id, overwriting any entry there, and a known one changes nothing; a record leaves by_id at most one entry above the cap; the table stays well formed, and the indexes stay consistent when the id was not in use |
| DamageTable.DamageTable.NotifyDirfrag | src/mds/DamageTable.cc:162-186 | fatal for the root or the rank's own stray before the cap, fatal when oversized under the cap given for this call; otherwise a new dirfrag is added to its index and stored in by_id under the random id, overwriting any entry there, leaving by_id at most one entry above the cap; consistent afterwards when the id was not in use |
| DamageTable.DamageTable.NotifyRemoteDamaged | src/mds/DamageTable.cc:188-202 | fatal with no change when oversized under the cap given for this call; otherwise a new remote inode is added to its index and stored in by_id under the random id, overwriting any entry there, leaving by_id at most one entry above the cap; consistent afterwards when the id was not in use |
| DamageTable.DamageTable.Erase | src/mds/DamageTable.cc:248-274 | an unknown id changes nothing; a known one leaves by_id and its type index; a consistent table stays consistent |
| DamageTable.DamageTable.EraseDirfragEntry | src/mds/DamageTable.cc:259-261 | the dirfrag entry leaves by_id and the dirfrag index |
| DamageTable.DamageTable.EraseDentryEntry | src/mds/DamageTable.cc:262-264 | the entry leaves by_id and its dirfrag's whole dentry map is dropped |
| DamageTable.DamageTable.EraseBacktraceEntry | src/mds/DamageTable.cc:265-267 | the entry leaves by_id and the remote index |
| PerfCounters.AddData | src/common/perf_counters.cc:175-182 | u64 grows by the amount; a long-run average also bumps both avgcounts |
| PerfCounters.SubData | src/common/perf_counters.cc:196 | u64 falls by the amount in uint64_t |
| PerfCounters.SetData | src/common/perf_counters.cc:212-219 | u64 becomes the value; a long-run average also bumps both avgcounts |
| PerfCounters.ResetData | src/common/perf_counters.cc:336-345 | a slot whose type is not plain U64 has its value and both avgcounts zeroed; a plain U64 slot keeps its value |
| PerfCounters.SubUndoesAdd | src/common/perf_counters.cc:165-197 | dec after inc of the same amount restores a counter's value |
| PerfCounters.AvgCountsStayEqual | src/common/perf_counters.cc:175-179 | inc and set keep avgcount == avgcount2 |
| PerfCounters.ResetAll | src/common/perf_counters.cc:336-345 | every slot becomes ResetData of itself |
| PerfCounters.SplitNanos | src/common/perf_counters.cc:300-301 | whole seconds and a nanosecond remainder below 10^9 that recombine to the value |
| PerfCounters.SplitNanosUnique | src/common/perf_counters.cc:300-301 | that split is the only one |
| PerfCounters.PerfCounters.constructor | src/common/perf_counters.cc:487-498 | lower < upper; every slot empty |
| PerfCounters.PerfCounters.Slot | src/common/perf_counters.cc:172 | counter idx lives in slot idx - lower - 1, inside the data |
| PerfCounters.PerfCounters.Get | src/common/perf_counters.cc:222-233 | 0 unless perf is on and the slot is U64, the value otherwise |
| PerfCounters.PerfCounters.TGet | src/common/perf_counters.cc:290-302 | zero unless perf is on and the slot is TIME; otherwise seconds and nanoseconds that recombine to the value |
| PerfCounters.PerfCounters.Inc | src/common/perf_counters.cc:165-183 | AddData on the slot when perf is on and it is U64, so get rises by the amount; nothing otherwise |
| PerfCounters.PerfCounters.Dec | src/common/perf_counters.cc:185-197 | not on long-run averages; SubData on an enabled U64 slot, so get falls by the amount; nothing otherwise |
| PerfCounters.PerfCounters.Set | src/common/perf_counters.cc:199-220 | SetData on an enabled U64 slot, so get answers the value; nothing otherwise |
| PerfCounters.PerfCounters.TInc | src/common/perf_counters.cc:235-253 | AddData of the nanoseconds on an enabled TIME slot, nothing otherwise |
| PerfCounters.PerfCounters.TSet | src/common/perf_counters.cc:275-288 | not on a long-run time average; the value becomes the nanoseconds on an enabled TIME slot, so tget answers its split; nothing otherwise |
| PerfCounters.PerfCounters.Reset | src/common/perf_counters.cc:336-345 | the data become ResetAll of the old data |
| PerfCounters.BuilderTypesAreReady | src/common/perf_counters.cc:514-566 | every type the add_* helpers pass to add_impl is one create_perf_counters accepts |
| PerfCounters.PerfCountersBuilder.constructor | src/common/perf_counters.cc:500-505 | a logger over (first, last) with every slot empty; the default priority, set by set_prio_default in the header, enters here as a constructor parameter and is stored |
| PerfCounters.PerfCountersBuilder.AddImpl | src/common/perf_counters.cc:568-590 | an unconfigured slot and a nick of at most 4 characters; the slot gets the name, description, nick, type, unit and histogram flag, priority 0 becomes the default, and the slot's value and both average counts are kept; other slots are unchanged |
| PerfCounters.PerfCountersBuilder.CreatePerfCounters | src/common/perf_counters.cc:592-606 | every slot configured with U64 or TIME; the logger is handed over and the builder keeps none |
| PerfCounters.PathsOf | src/common/perf_counters.cc:48-57 | a path "name.counter" for each slot and no other |
| PerfCounters.PathKeys | src/common/perf_counters.cc:64-72 | exactly the paths of the slots, which remove erases |
| PerfCounters.Uniquify | src/common/perf_counters.cc:36-44 | a name no registered logger has, beginning with the original name |
| PerfCounters.UniquifyKeepsFreeName | src/common/perf_counters.cc:38-39 | a name not yet taken is kept as it is |
| PerfCounters.PerfCountersCollection.constructor | src/common/perf_counters.cc:22-25 | no loggers and no paths |
| PerfCounters.PerfCountersCollection.Add | src/common/perf_counters.cc:32-58 | the logger is renamed to Uniquify of its name, appended, and its paths are added |
| PerfCounters.PerfCountersCollection.RenameUnique | src/common/perf_counters.cc:36-44 | the loop ends with the Uniquify name, which no registered logger has |
| PerfCounters.PerfCountersCollection.RegisterPaths | src/common/perf_counters.cc:48-57 | by_path gains exactly PathsOf the logger |
| PerfCounters.PerfCountersCollection.Remove | src/common/perf_counters.cc:60-77 | the logger must be present; its paths leave by_path and it leaves the set |
| PerfCounters.PerfCountersCollection.Clear | src/common/perf_counters.cc:79-89 | no loggers and no paths |
| PerfCounters.PerfCountersCollection.Reset | src/common/perf_counters.cc:91-117 | "all" resets every logger and answers true; another name resets the logger of that name, the only one since names are unique, and answers whether there was one |
| Allocator.GetMax | src/os/bluestore/Allocator.cc:292-295 | the bound of a bucket before the last is at most base << (mux * b), and every bound fits in uint64_t (a bound beyond it saturates) |
| Allocator.GetMaxMonotone | src/os/bluestore/Allocator.cc:292-295 | the bounds grow with the bucket |
| Allocator.InnerBucket | src/os/bluestore/Allocator.cc:303-305 | 1 + (msb(len - 1) - base_bits) / mux is at least 1 for a length above base |
| Allocator.InnerBucketOf | src/os/bluestore/Allocator.cc:303-305 | a length above 2^(base_bits + mux (k - 1)) and up to 2^(base_bits + mux k) has inner bucket k |
| Allocator.BucketIndex | src/os/bluestore/Allocator.cc:297-307 | for any bucket count, a bucket below it (the assert): 0 up to base, the last beyond the tracked maximum |
| Allocator.BucketRangeComplete | src/os/bluestore/Allocator.cc:294-306 | every length in a bucket's range is sent to that bucket |
| Allocator.BucketRangeSound | src/os/bluestore/Allocator.cc:294-306 | a length sent to a bucket lies in that bucket's range |
| Allocator.MaxTrackedAsWritten | src/os/bluestore/Allocator.cc:292-295 | get_max(n - 2, n) as written is below 2^64, and undefined (None) once the shift reaches 64 |
| Allocator.BucketIndexAsWritten | src/os/bluestore/Allocator.cc:297-307 | the bucket picked against the maximum as written: undefined only for lengths above base, bucket 0 only for lengths up to base |
| Allocator.BucketIndexAsWrittenLumpsAboveBase | src/os/bluestore/Allocator.cc:292-307 | with 28 buckets the tracked maximum 4096 << 52 wraps to 0, so an 8192-byte extent lands in bucket 27 instead of bucket 1; with 34 buckets the shift is undefined |
| Allocator.MaxTrackedAsWrittenWraps | src/os/bluestore/Allocator.cc:292-295 | get_max(26, 28) as written is 0, and get_max(32, 34) is undefined |
| Allocator.BucketOf8192 | src/os/bluestore/Allocator.cc:297-307 | with 28 buckets an 8192-byte extent belongs in bucket 1 |
| Allocator.P2RoundupAsWrittenMisrounds | src/os/bluestore/Allocator.cc:312 | with unit 12288, p2roundup(16384) is 16384, not a multiple of the unit, and p2roundup(8192) is 16384 where the next multiple is 12288 |
| Allocator.P2RoundupAsWrittenAlignedForPowerOfTwo | src/os/bluestore/Allocator.cc:312 | for a power-of-two unit, p2roundup as written gives a multiple of the unit |
| Allocator.RoundUp | src/os/bluestore/Allocator.cc:312 | the least multiple of the unit not below the offset |
| Allocator.RoundUpIsLeast | src/os/bluestore/Allocator.cc:312 | no smaller multiple of the unit lies at or above the offset |
| Allocator.AlignedRemainderAsWritten | src/os/bluestore/Allocator.cc:312-314 | the aligned length as written, when present, is at least one unit and at most the extent's length |
| Allocator.AlignedRemainder | src/os/bluestore/Allocator.cc:312-314 | when present, the length from the rounded-up offset to the end of the extent |
| Allocator.AlignedCountAsWrittenCountsMisalignedUnit | src/os/bluestore/Allocator.cc:312-313 | off 16384, len 12288, unit 12288: the count as written takes a whole unit, the corrected one none |
| Allocator.AlignedUnitsAreWholeUnits | src/os/bluestore/Allocator.cc:312-324 | the counted units are at least one and fit whole after the rounded-up offset, with no room for one more; without a count not one unit fits |
| Allocator.AlignedBucket | src/os/bluestore/Allocator.cc:312-322 | the bucket of the aligned remainder, a valid index, together with its units |
| Allocator.CountAt | src/os/bluestore/Allocator.cc:308-324 | keeps the number of buckets (its totals: CountAtAddsOneTotal) |
| Allocator.CountExtent | src/os/bluestore/Allocator.cc:297-326 | keeps the number of buckets; the histogram after one extent |
| Allocator.CountAll | src/os/bluestore/Allocator.cc:328 | keeps the number of buckets; the histogram after every extent in order |
| Allocator.CountAtAddsOneTotal | src/os/bluestore/Allocator.cc:308 | each extent raises the sum of the totals by exactly one |
| Allocator.CountAllCountsExtents | src/os/bluestore/Allocator.cc:297-328 | the totals sum to the number of free extents |
| Allocator.CountExtentInPlace | src/os/bluestore/Allocator.cc:297-326 | the array becomes CountExtent of the old contents |
| Allocator.BuildFreeStateHistogram | src/os/bluestore/Allocator.cc:283-329 | the array becomes CountAll of the extents, and its totals grow by the number of extents |
| Allocator.ValidateHistogramCommand | src/os/bluestore/Allocator.cc:114-130 | accepted exactly when the unit (default 4096) is non-zero and a multiple of the block size and there are at least 2 buckets (default 8), and then the request carries that unit and that bucket count; -EINVAL otherwise |
| BlockDevice.Buffermode | src/blk/BlockDevice.cc:51-54 | BUFFERED exactly for true, DIRECT exactly for false |
| BlockDevice.DeviceTypeFromName | src/blk/BlockDevice.cc:127-150 | a known answer is a compiled type of that name, and any compiled type of that name is the answer |
| BlockDevice.DeviceTypeNameRoundTrip | src/blk/BlockDevice.cc:127-150 | a compiled type's name gives back that type |
| BlockDevice.IsValidIoAsWritten | src/blk/BlockDevice.cc:194-200 | an accepted I/O is at least one block long and starts inside the device, and its end is within the device or past 2^64 |
| BlockDevice.IsValidIo | src/blk/BlockDevice.cc:194-200 | an accepted I/O is at least one block long and ends within the device |
| BlockDevice.IsValidIoAsWrittenAcceptsWrappedRange | src/blk/BlockDevice.cc:194-200 | off 4096 and len 2^64 - 4096 on an 8192-byte device pass the written check though the range ends far past the device |
| BlockDevice.ValidIoWithinDevice | src/blk/BlockDevice.cc:196-200 | every byte of an I/O the corrected check accepts lies in [0, size), and its end is aligned |
| BlockDevice.IsValidIoAgreesWithoutWrap | src/blk/BlockDevice.cc:196-200 | when off + len does not wrap the two checks agree |
| BlockDevice.IsValidIoStricter | src/blk/BlockDevice.cc:196-200 | whatever the corrected check accepts the written one accepts |
| CephFeatures.MaskBits | src/include/ceph_features.h:11-18 | a feature's mask is its bit together with its incarnation's markers |
| CephFeatures.IncarnationMask | src/include/ceph_features.h:11-18 | only the JEWEL and MIMIC bits: JEWEL exactly from incarnation 2, MIMIC exactly in incarnation 3 |
| CephFeatures.Mask | src/include/ceph_features.h:11-18 | a feature mask holds the feature's bit and its incarnation's markers |
| CephFeatures.HaveFeature | src/include/ceph_features.h:34-35 | true exactly when the bit and every marker of the feature's incarnation are present |
| CephFeatures.Incarnation1MaskIsBit | src/include/ceph_features.h:11-18 | an incarnation-1 mask is its bit alone |
| CephFeatures.HaveFeatureIffMaskSubset | src/include/ceph_features.h:34-35 | HAVE_FEATURE holds exactly when every bit of the mask is present |
| CephFeatures.NoMarkerNoLaterIncarnation | src/include/ceph_features.h:30-35 | without the JEWEL marker bit no incarnation-2 or 3 feature is present |
| CephFeatures.RawBitIsNotFeature | src/include/ceph_features.h:30-35 | the raw bit alone does not give a later-incarnation feature |
| CephFeatures.HaveFeatureMonotone | src/include/ceph_features.h:34-35 | adding bits never loses a feature |
| CephFeatures.AllPart1Bits | src/include/ceph_features.h:223-232 | the bits of the first part of CEPH_FEATURES_ALL |
| CephFeatures.AllListed1Masks | src/include/ceph_features.h:223-232 | the first part holds the masks it lists |
| CephFeatures.AllPart2Bits | src/include/ceph_features.h:233-242 | the bits of the second part |
| CephFeatures.AllListed2Masks | src/include/ceph_features.h:233-242 | the second part holds the masks it lists |
| CephFeatures.AllPart3Bits | src/include/ceph_features.h:243-252 | the bits of the third part |
| CephFeatures.AllListed3Masks | src/include/ceph_features.h:243-252 | the third part holds the masks it lists |
| CephFeatures.AllPart4Bits | src/include/ceph_features.h:253-262 | the bits of the fourth part |
| CephFeatures.AllListed4Masks | src/include/ceph_features.h:253-262 | the fourth part holds the masks it lists |
| CephFeatures.AllPart5Bits | src/include/ceph_features.h:263-272 | the bits of the fifth part |
| CephFeatures.AllListed5Masks | src/include/ceph_features.h:263-272 | the fifth part holds the masks it lists |
| CephFeatures.AllPart6Bits | src/include/ceph_features.h:273-283 | the bits of the sixth part |
| CephFeatures.AllListed6Masks | src/include/ceph_features.h:273-283 | the sixth part holds the masks it lists |
| CephFeatures.FeaturesAll | src/include/ceph_features.h:222-303 | CEPH_FEATURES_ALL carries both incarnation markers and not the RESERVED bit 62 |
| CephFeatures.FeaturesCrush | src/include/ceph_features.h:288-295 | CEPH_FEATURES_CRUSH is exactly the bits 18, 21, 25, 36, 41, 48, 57 and 58 |
| CephFeatures.AllHasListedFeatures | src/include/ceph_features.h:222-283 | a peer advertising CEPH_FEATURES_ALL has every listed feature |
| CephFeatures.CrushWithinAll | src/include/ceph_features.h:288-295 | CEPH_FEATURES_CRUSH lies within CEPH_FEATURES_ALL |
| ScrubTypes.WithFlag | src/common/scrub_types.h:52-111 | the flag is set and no other flag changes |
| ScrubTypes.WithoutFlag | src/common/scrub_types.h:116-119 | the flag is cleared and no other flag changes |
| ScrubTypes.WithFlagIdempotent | src/common/scrub_types.h:52-111 | setting a flag twice is setting it once |
| ScrubTypes.WithoutFlagUndoesWithFlag | src/common/scrub_types.h:116-119 | clearing a flag that was absent undoes setting it |
| ScrubTypes.ShardInfoWrapper.constructor | src/common/scrub_types.h:46 | no errors |
| ScrubTypes.ShardInfoWrapper.SetError | src/common/scrub_types.h:52-111 | the errors become WithFlag of the old ones |
| ScrubTypes.ShardInfoWrapper.OnlyDataDigestMismatchInfo | src/common/scrub_types.h:112-115 | true exactly when the errors are that one flag |
| ScrubTypes.ShardInfoWrapper.ClearDataDigestMismatchInfo | src/common/scrub_types.h:116-119 | the errors become WithoutFlag of the old ones |
| ScrubTypes.ClearingTheOnlyErrorLeavesNone | src/common/scrub_types.h:112-119 | when that flag was the only error, clearing it leaves none |
| ScrubTypes.InconsistentObjWrapper.SetError | src/common/scrub_types.h:138-173 | the object errors become WithFlag of the old ones |
| ScrubTypes.InconsistentObjWrapper.SetVersion | src/common/scrub_types.h:180-183 | the version stored is the one given, the errors unchanged |
| ClsVersion.ObjVersion.constructor | src/cls/version/cls_version_types.h:17 | counter 0, no tag, empty |
| ClsVersion.ObjVersion.Inc | src/cls/version/cls_version_types.h:35-38 | the counter rises by one in uint64_t, and only the counter changes |
| ClsVersion.ObjVersion.Clear | src/cls/version/cls_version_types.h:40-44 | counter 0 and no tag, so empty |
| ClsVersion.ObjVersion.Empty | src/cls/version/cls_version_types.h:46-49 | empty exactly when the tag is |
| ClsVersion.ObjVersion.Compare | src/cls/version/cls_version_types.h:51-55 | true exactly when counter and tag are both equal |
| ClsVersion.ObjVersion.Equals | src/cls/version/cls_version_types.h:57-61 | true exactly when counter and tag are both equal |
| ClsVersion.CompareIsEquality | src/cls/version/cls_version_types.h:51-61 | compare and == agree, and compare is symmetric |
| PubSubPush.GetSchema | src/rgw/driver/rados/rgw_pubsub_push.cc:434-456 | "" exactly for an empty endpoint, "unknown" for one without a colon |
| PubSubPush.SchemaOfUrl | src/rgw/driver/rados/rgw_pubsub_push.cc:439-455 | with a colon, the schema is the one the text before the first colon names: webhook for http/https, amqp or kafka when built in, unknown otherwise |
| PubSubPush.SchemaOfScheme | src/rgw/driver/rados/rgw_pubsub_push.cc:444-455 | never "none"; webhook exactly for http and https; amqp only when built with AMQP, kafka only when built with Kafka |
| PubSubPush.GetBool | src/rgw/driver/rados/rgw_pubsub_push.cc:45-56 | the default when absent, the parsed value when valid, a configuration error otherwise |
| PubSubPush.AtoiOfDecimalString | src/rgw/driver/rados/rgw_pubsub_push.cc:81 | atoi reads back a decimal number |
| PubSubPush.Atoi | src/rgw/driver/rados/rgw_pubsub_push.cc:81 | 0 for a string with no digit; negative only after a leading minus sign |
| PubSubPush.HttpAckLevel | src/rgw/driver/rados/rgw_pubsub_push.cc:73-85 | any when absent; "any" gives any, "non-error" gives non-error; any other value gives its atoi when that is in [100, 600) and an invalid-ack-level error otherwise |
| PubSubPush.HttpAckLevelOfStatusCode | src/rgw/driver/rados/rgw_pubsub_push.cc:81-84 | every status code in [100, 600) written in decimal is accepted as itself |
| PubSubPush.AmqpAckLevel | src/rgw/driver/rados/rgw_pubsub_push.cc:171-186 | absent or "broker", "none", "routable", anything else an error |
| PubSubPush.KafkaAckLevel | src/rgw/driver/rados/rgw_pubsub_push.cc:312-324 | absent or "broker", "none", anything else an error |
| PubSubPush.ToLower | src/rgw/driver/rados/rgw_pubsub_push.cc:151 | the same length, each character lower-cased |
| PubSubPush.ToLowerIdempotent | src/rgw/driver/rados/rgw_pubsub_push.cc:151 | lower-casing twice is lower-casing once |
| PubSubPush.AmqpVerifySsl | src/rgw/driver/rados/rgw_pubsub_push.cc:143-159 | true when absent, "true" or "false" in any case, an error otherwise |
| PubSubPush.AmqpVerifySslIgnoresCase | src/rgw/driver/rados/rgw_pubsub_push.cc:143-159 | the answer is the same for any spelling in upper or lower case |
| PubSubPush.MakeHttpEndpoint | src/rgw/driver/rados/rgw_pubsub_push.cc:70-86 | an endpoint exactly when verify-ssl, cloudevents and the ack level all parse, carrying their values |
| PubSubPush.MakeAmqpEndpoint | src/rgw/driver/rados/rgw_pubsub_push.cc:189-203 | an error without an exchange; an endpoint exactly when the exchange is given, the ack level and verify-ssl are valid and the broker connects |
| PubSubPush.MakeKafkaEndpoint | src/rgw/driver/rados/rgw_pubsub_push.cc:327-339 | an endpoint exactly when the ack level, use-ssl and verify-ssl are valid and the broker connects |
| PubSubPush.Create | src/rgw/driver/rados/rgw_pubsub_push.cc:458-491 | the endpoint of the schema; an error for an unknown schema, AMQP 1-0 or an unknown AMQP version; a created endpoint's kind matches the schema |
| PubSubPush.CreatedEndpointHasKnownScheme | src/rgw/driver/rados/rgw_pubsub_push.cc:434-491 | a created endpoint's URL has the scheme http or https, or amqp, amqps or kafka when built in |
| RestMetadata.FrameMetadataKey | src/rgw/rgw_rest_metadata.cc:34-53 | bucket + ":" + key with a URL bucket and a key, the bucket alone without a key, the key alone without a bucket |
| RestMetadata.FramedKeySection | src/rgw/rgw_rest_metadata.cc:39-52 | the section of a framed key is the URL's bucket |
| RestMetadata.OpGet | src/rgw/rgw_rest_metadata.cc:352-358 | Get exactly when "key" is present, List exactly when it is not |
| RestMetadata.OpPost | src/rgw/rgw_rest_metadata.cc:370-378 | Lock when "lock" is present, else Unlock when "unlock" is, else none |
| RestMetadata.StrictStrtol | src/rgw/rgw_rest_metadata.cc:319 | a value only for a whole decimal integer within int |
| RestMetadata.StrictStrtolOfDecimalString | src/rgw/rgw_rest_metadata.cc:319 | every int from 0 up, written in decimal, is read back |
| RestMetadata.MetadataOp.constructor | src/rgw/rgw_rest_metadata.cc:304 | return code 0 and no update status |
| RestMetadata.MetadataOp.LockExecute | src/rgw/rgw_rest_metadata.cc:297-330 | -EINVAL without key, length or lock id, or with a length that is not a positive int; otherwise the lock call with the framed key, and -EBUSY reported as ERR_LOCKED |
| RestMetadata.MetadataOp.UnlockExecute | src/rgw/rgw_rest_metadata.cc:332-350 | -EINVAL without key or lock id; otherwise the unlock call's own result |
| RestMetadata.MetadataOp.KeyExecute | src/rgw/rgw_rest_metadata.cc:283-295 | the manager is asked about the framed key; a failure is the result, anything else 0 |
| RestMetadata.MetadataOp.PutExecute | src/rgw/rgw_rest_metadata.cc:225-267 | the first failure of body, authentication, update-type and put is the result; skipped and applied are recorded in the update status |
| RestMetadata.MetadataOp.PutResponseCode | src/rgw/rgw_rest_metadata.cc:269-274 | NO_APPLY and APPLIED answer NO_CONTENT, any other code answers itself |
| RestMetadata.PutSyncType | src/rgw/rgw_rest_metadata.cc:242-254 | APPLY_ALWAYS without update-type, the parsed type with it |
| RestMetadata.PutResponseHidesInternalStatus | src/rgw/rgw_rest_metadata.cc:269-274 | the response code is never NO_APPLY or APPLIED |
| ExporterUtil.StringIsDigit | src/exporter/util.cc:42-49 | true exactly when every character is a decimal digit, so true for "" |
| ExporterUtil.Underscored | src/exporter/util.cc:67-70 | '.', '/', ' ' and '-' become '_', every other character and the length kept |
| ExporterUtil.ReplaceIfUnderscore | src/exporter/util.cc:70 | the in-place loop computes Underscored |
| ExporterUtil.ReplaceAll | src/exporter/util.cc:72-73 | a replacement as long as the pattern keeps the length |
| ExporterUtil.Promethize | src/exporter/util.cc:60-76 | a non-empty name becomes the promethized name, which starts with "ceph_" |
| ExporterUtil.PromethizedHasNoForbiddenChars | src/exporter/util.cc:62-73 | after the prefix there is no '.', '/', ' ', '-' or '+' |
| ExporterUtil.PromethizedKeepsMinus | src/exporter/util.cc:62-65 | a name ending in '-' comes out ending in "_minus" |
| ExporterUtil.ReplaceAllRemovesChar | src/exporter/util.cc:73 | replacing '+' by "_plus" leaves no '+' |
| ExporterUtil.ReplaceAllKeepsAbsent | src/exporter/util.cc:72-73 | a character in neither the name nor the replacement text is not in the result |

## Left out

- Seastar cross-core calls in `pg_map.h` are flattened into sequential code over one map per core. Only quiescent states between operations are modelled, not interleavings.
- PgMap.PGShardMapping.MaybeCreatePg: the per-core load counts are unbounded `nat` where the source keeps `unsigned` (32-bit) counts. Wrap-around would need 2^32 PGs on one core and is not modelled.
- `PGMap` (pg_map.h:141-219) is not modelled: only its declarations are shown, and its waiting is async machinery.
- `fixed_kv_node.h` outside the child array is not modelled: parent trackers, root linking, cache lookups, delta buffers, CRC and the node layout. Keys appear as a strictly increasing sequence.
- FixedKVNode.MoveChildPtrs: the child trackers' parent pointers that move with each child are not modelled.
- `record_submitter.cc`: futures and promises are reduced to flags, and journal writes and rolls to parameters. Metrics are not modelled.
- RecordSubmitter.Submitter.Submit: the `double` `preferred_fullness` comparison is floating point and enters as a boolean parameter.
- RecordSubmitter.Submitter.FlushCurrentBatch: `pop_free_batch` lives in `record_submitter.h`, which is not part of this model. The free pool is a sequence whose front batch is popped, and batches are their indexes.
- `record_submitter.h`, which holds the batch and submitter declarations, is not part of this model. The state names and fields follow their use in the `.cc`.
- `transaction.h`: the interruption and conflict templates, intrusive-set internals, `on_destruct` callbacks and the transaction operations outside its bookkeeping are not modelled.
- Transaction.Transaction.GetExtent: extents are values, so the out-pointer it fills is the returned extent.
- DamageTable.DamageTable.NotifyDentry: the random damage id is a `freshId` parameter, and the entry's path is not kept. The same applies to NotifyDirfrag and NotifyRemoteDamaged.
- DamageTable.DamageTable.NotifyDirfrag: an id already in use overwrites by_id, as the source does; the indexes are promised to stay consistent only when the id was not in use (DirfragIdCollisionOrphansEntry shows what a collision breaks). The same applies to NotifyDentry and NotifyRemoteDamaged.
- DamageTable.DamageTable.Oversized: the cap mds_damage_table_max_entries is a parameter of each call (Oversized, NotifyDentry, NotifyDirfrag, NotifyRemoteDamaged), as the source reads the setting afresh each time. So the well-formedness invariant no longer bounds |by_id|, and nothing promises that an oversized table holds exactly cap + 1 entries: after the setting is lowered at run time it may hold any number above the cap. Each Notify* states only that a record it adds leaves by_id at most one entry above the cap of that call.
- `DamageTable.h` and `mdstypes.h` are not part of this model. The inode constants (`MDS_INO_ROOT`, the mdsdir and stray offsets, `MAX_MDS`) follow Ceph's published values.
- PerfCounters.PerfCounters.Inc: the global perf switch is a parameter, and histogram buckets (`hinc`), `get_tavg_ms` and `utime_t` are not modelled. Formatter output and mutexes are not modelled either.
- PerfCounters.PerfCountersCollection.Add: the suffix of the renaming loop is the logger's address in the source; here it is a parameter that makes the new name differ from the old one.
- `perf_counters.h`, which holds the type flags and slot fields, is not part of this model. The flag values are Ceph's published ones.
- Allocator.BucketIndex: the bucket geometry of `Allocator.h` and `cbits` of `intarith.h` are not part of this model and enter as parameters. Any bucket count is handled; a bucket bound beyond uint64_t saturates at its maximum, the intended reading of get_max, and the wrapped bound as written is MaxTrackedAsWritten.
- Allocator.MaxTrackedAsWritten: a shift of 64 bits or more is undefined behaviour in C++ and is modelled as None, not as any particular value.
- Allocator.AlignedRemainder: it rounds the offset up with RoundUp, the true least multiple of the unit, not with `p2roundup` as written. For a power-of-two unit only the alignment of `p2roundup`'s result is proved (P2RoundupAsWrittenAlignedForPowerOfTwo), not that it equals RoundUp.
- Allocator.AlignedBucket: built on AlignedRemainder, so it uses the intended rounding, not `p2roundup` as written.
- Allocator.CountExtent: its aligned counts use the intended rounding, not `p2roundup` as written.
- Allocator.CountAll: its aligned counts use the intended rounding, not `p2roundup` as written.
- Allocator.CountExtentInPlace: its aligned counts use the intended rounding, not `p2roundup` as written.
- Allocator.BuildFreeStateHistogram: its aligned counts use the intended rounding and its bucket bound saturates, where the code as written misrounds a non-power-of-two unit and wraps get_max (see Findings).
- `Allocator.cc` outside the histogram is not modelled: the fragmentation score (floating point), admin-socket registration, output formatting, `create` and `release`.
- Allocator.ValidateHistogramCommand: `p2align` against the block size is stated as a multiple test, which is exact for a power-of-two block size.
- BlockDevice.DeviceTypeFromName: the build configuration (which back ends are compiled in) is a parameter.
- BlockDevice.IsValidIoStricter: the log line on failure is not modelled.
- CephFeatures.MaskBits: a 64-bit feature word is the set of its bit positions, so OR is union and AND is intersection.
- ScrubTypes.InconsistentObjWrapper.SetError: the constructor, `set_auth_missing`, `add_shard` and `set_object` are not modelled. The `err_t` and `obj_err_t` values of `rados_types.hpp` are not part of this model and appear as a set of flags.
- Encode and decode of scrub and version types are not modelled.
- PubSubPush.GetBool: `RGWHTTPArgs::get_bool` is not part of this model, and its parse of a boolean is a parameter.
- PubSubPush.MakeAmqpEndpoint: connecting to the broker is a `connects` parameter, and the same holds for Kafka. The HTTP, AMQP and Kafka sends and `Waiter` are not modelled.
- PubSubPush.AtoiOfDecimalString: `atoi` on a number beyond `int` is undefined in C and is not modelled.
- RestMetadata.StrictStrtol: `common/strtol.cc` is not part of this model. Its contract is stated in one direction, what a returned value implies.
- RestMetadata.PutSyncType: `string_to_sync_type` is not part of this model and is a parameter.
- RestMetadata.MetadataOp.KeyExecute: the metadata manager's calls and the body reading are results passed in. List and the Formatter output are not modelled.
- The codes of `rgw_common.h` (`ERR_LOCKED`, `STATUS_*`) are not part of this model and are symbolic.
- ExporterUtil: `BlockTimer` and `read_file_to_string` are clock and file I/O and are not modelled.

## Findings

| source | as written | input that shows it | evidently intended | confidence | as-written member | corrected member |
|---|---|---|---|---|---|---|
| src/blk/BlockDevice.cc:200 | `off + len <= size` computed in uint64_t | block size 4096, size 8192, off 4096, len 2^64 - 4096: off + len wraps to 0 and the I/O is accepted | the range [off, off + len) lies within the device | not executed | BlockDevice.IsValidIoAsWrittenAcceptsWrappedRange | BlockDevice.ValidIoWithinDevice |
| src/os/bluestore/Allocator.cc:312 | `p2roundup(off, alloc_unit)`, a power-of-two bit trick, on an alloc_unit the command only checks for being a multiple of the block size | alloc_unit 12288 with block size 4096 passes the command check; p2roundup(16384, 12288) is 16384, and the extent at 16384 of length 12288 is counted as holding one aligned unit though none fits | round the offset up to the next multiple of the allocation unit | not executed | Allocator.P2RoundupAsWrittenMisrounds | Allocator.AlignedUnitsAreWholeUnits |
| src/os/bluestore/Allocator.cc:294-295 | `get_max(num_buckets - 2, num_buckets)` computed as `base << (mux * b)` in 64 bits, with `num_buckets` only checked to be at least 2 | num_buckets 28: 4096 << 52 wraps to 0, so an 8192-byte extent is counted in bucket 27 instead of bucket 1; from 34 buckets the shift is undefined | a bound beyond 64 bits saturates, so each length lands in the bucket whose range holds it | not executed | Allocator.BucketIndexAsWrittenLumpsAboveBase | Allocator.BucketRangeComplete |
