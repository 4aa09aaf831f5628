# CoroDB, verified in Dafny

CoroDB is a relational database in C++: an LSM storage engine with multi-version rows, write-ahead logs and
replication, transactions with private write buffers, savepoints and row locks, and an executor with three join
operators, secondary indexes and correlated subqueries. This project models that core and proves what it keeps.

Everything about stored rows rests on one notion, `Versions.Newest`: the version of a key that a snapshot sees.
`Versions.Refines(a, b, h)` says that one collection of versions can replace another at every snapshot not below `h`.
Compaction, flushes, recovery, replication and the read paths are all stated with these two.

| file | what it models |
|---|---|
| `Values.dfy`, `Rounding.dfy`, `Versions.dfy` | values and their order, how conditions compare integers, row versions, what a snapshot sees |
| `Compaction.dfy`, `ReadPaths.dfy`, `Store.dfy`, `Bloom.dfy` | merging, garbage collection, the three read paths, one table with its scan cache and filters |
| `Snapshots.dfy` | the transaction manager and repeatable reads over every run |
| `Recovery.dfy`, `Wal.dfy`, `GroupCommit.dfy` | crashes at every durable write, the log file, the group sync protocol |
| `Codec.dfy`, `Replication.dfy`, `Followers.dfy` | value, row and record formats, the replication stream, primary and follower |
| `Sessions.dfy`, `RowLocks.dfy`, `Concurrency.dfy` | write buffers, row locks, transactions side by side |
| `Joins.dfy`, `IndexScan.dfy`, `Like.dfy` | nested-loop, hash and merge joins; secondary indexes; LIKE |
| `Subqueries.dfy`, `Decorrelation.dfy` | three-valued conditions, correlated subqueries and their rewrites |
| `PageCache.dfy` | the buffer pool |

Code that changes state step by step is modelled by classes and by methods with loops, each proved against a
specification function; what the design promises is then proved of those functions over all inputs and all runs.
A transition system whose steps are the durable writes, lock acquisitions or syncs of the code stands for concurrency
and crashes.

## Where the code gives less than one would expect

Each of these is a lemma about the code as it is; next to it stands the condition under which the code is right, an
equivalence wherever the name ends in `Iff`.

- A commit that takes its timestamp before a transaction begins and applies its rows afterwards changes what that
  transaction reads (`Snapshots.StragglerBreaksRepeatableRead`, exact condition `Snapshots.SnapshotStableIff`: no
  timestamp up to the snapshot is still waiting). An auto-commit SELECT is not registered, so a compaction can take
  away what it reads (`Snapshots.UnregisteredReadIsLost`, exact condition `Snapshots.CompactionKeepsReadIff`).
- A memtable that is flushed in the middle of a commit makes part of an unsealed commit durable
  (`Recovery.FlushInsideCommitLeavesHalf`, exact condition `Recovery.FlushIsSafeIff`). Truncating a table's log, or at
  the end of a CHECKPOINT the commit log, loses what was committed since the flush (`Recovery.TruncationLosesSealedRow`,
  exact conditions `Recovery.TruncateWalIsSafeIff` and `TruncateLogIsSafeIff`). A flush between the two file writes of a
  compaction loses its rows (`Recovery.FlushDuringCompactionLosesRow`, exact condition
  `Recovery.FlushDuringCompactionSafeIff`); one before the manifest write is taken for a half-done compaction when the
  fingerprints agree (`Recovery.FlushBeforeManifestSafeIff`). Before the first sealed commit there is no commit log and
  every logged row is replayed (`Recovery.FirstCommitTornIsRestored`, exact condition
  `Recovery.WithoutCommitLogEverythingReplays`).
- A torn log record hides the records appended after it, unless the torn bytes and the new ones read as a record
  (`Wal.TornTailHidesLaterRecords`, an equivalence).
- Conditions compare integers as doubles, so that 2^53 and 2^53 + 1 are equal in WHERE and ON. The hash table, the
  indexes and IN compare exactly, and differ there: `Joins.HashJoinSplitsRounded`, `IndexScan.IndexMissesRounded`,
  `Decorrelation.RoundedLinkWrong`. The comment at src/executor/bool_evaluator.cpp:28 speaks of comparing integers with
  doubles; the code also converts when both are integers, and the model follows the code.
- A caller that joins a running group sync may return before its record is durable
  (`GroupCommit.LatecomerReturnsTooEarly`, exact condition `GroupCommit.LateRecordDurableIff`). The comment at
  src/storage/storage_engine_common.cpp:246-250 says that callers wait for a later pass; the code does not, and the
  model follows the code.
- A table name of 256 bytes or more does not survive replication (`Replication.RecordRoundTripIff`).
- UPDATE of a primary key column shows one row inside the transaction and leaves two after COMMIT
  (`Sessions.MovedKeyIsDuplicated`, exact condition `Sessions.CommitInstallsViewIff`); it may overwrite a row that
  another transaction has locked (`Concurrency.MovedKeyCrossesLock`, exact condition
  `Concurrency.CommitChangesOnlyOwnIff`).
- At REPEATABLE READ and above SELECT reads the rows of BEGIN, while INSERT, UPDATE and DELETE read the latest rows: they
  refuse keys and change rows that the transaction does not see (`Sessions.UnseenRowIsUpdated`, exact conditions
  `Sessions.InsertActsOnSnapshotIff`, `UpdateActsOnSnapshotIff`, `DeleteActsOnSnapshotIff`).
- At REPEATABLE READ, deleting a row that others have deleted and the transaction has inserted again brings the row of
  BEGIN back into view (`Concurrency.DeletedRowReturns`, exact conditions `Concurrency.RemoveOnCopyIff` for one deletion
  and `Concurrency.RepeatableCopyIff` over all runs).
- The hash join pairs NULL keys and splits integers that ON compares as equal (`Joins.HashJoinRightIff`); the merge join
  pairs NULL keys and drops kept rows whose partners fail the rest of ON (`Joins.MergeJoinRightIff`).
- An index treats NULL as the smallest value (`IndexScan.LessThanReturnsNulls`, exact conditions
  `IndexScan.IndexScanEqualsWhereIff` and `TupleScanEqualsWhereIff`), misses rows at snapshots older than its creation
  (`IndexScan.OlderSnapshotMisses`, exact condition `IndexScan.ScanRightForEveryProbeIff`), and its range loop runs past
  the end when the ends are swapped around a key (`IndexScan.BackwardsRangeRunsPast`, exact condition
  `IndexScan.RangeEndsIff`). The composite plan keeps one equality of each column (`IndexScan.DroppedEqualityReturnsRow`).
- Decorrelation is wrong for aggregate EXISTS, for most aggregate IN, for NOT IN over NULLs, and for IN when another
  column than the equated one is projected (`Decorrelation.ExistsRewriteRightIff`, `AggregateInRightIff` with
  `PickInRightIff`, `InRewriteRightIff`).
- LIKE is right for every pattern if and only if the text contains no percent sign (`Like.RightForEveryPatternIff`).
- Pinning a page of a missing file leaves the page table pointing to another page's data
  (`PageCache.BufferPool.Pin`, `PageCache.MissingFileServesOtherPage`).

## Model

| member | source | states |
|---|---|---|
| `Values.LessTotal` | src/storage/table.cpp:58-68 | the comparator of ordered indexes and runs is a strict total order on values |
| `Values.LessTransitive` | src/storage/table.cpp:58-68 | that order is transitive, across types too |
| `Values.LessOrder` | src/storage/table.cpp:58-68 | NULL comes before integers and integers before texts; integers are ordered by size |
| `Values.LexOrder` | src/storage/table.cpp:58-68 | texts are ordered like words: a proper prefix is smaller, and the first byte that differs decides |
| `Rounding.DblMonotone` | src/executor/bool_evaluator.cpp:28-42 | converting integers to double keeps their order |
| `Rounding.DblClose` | src/executor/bool_evaluator.cpp:28-42 | the conversion errs by at most half the distance of the doubles around |
| `Rounding.DblSmall` | src/executor/bool_evaluator.cpp:28-42 | up to 2^53 it is exact |
| `Rounding.DblLarge` | src/executor/bool_evaluator.cpp:28-42 | 2^53 + 1 is compared as 2^53 |
| `Rounding.RoundedMonotone` | src/executor/bool_evaluator.cpp:20-57 | what compares less is less, for all types of values |
| `Versions.BeforeTotal` | include/corodb/storage/lsm_storage_engine.h:186-196 | the order of runs is total on (key, timestamp), newer first within a key |
| `Versions.BeforeTransitive` | include/corodb/storage/lsm_storage_engine.h:186-196 | that order is transitive |
| `Versions.NewestIsNewest` | src/storage/lsm_storage_engine.cpp:1016-1090 | what a snapshot sees is a version of the key with the largest timestamp not above the snapshot, and nothing only if there is none |
| `Versions.NewestOfSameSet` | src/storage/lsm_storage_engine.cpp:1140-1170 | only the set of stored versions matters, not file, order or multiplicity |
| `Versions.RefinesReads` | src/storage/lsm_storage_engine.cpp:1702-1744 | a refinement shows every reader at or above its horizon the same rows |
| `Compaction.MergeRuns` | src/storage/lsm_storage_engine.cpp:1677-1700 | the two-pointer loop computes the merge of two sorted runs |
| `Compaction.MergeIsUnion` | src/storage/lsm_storage_engine.cpp:1677-1700 | merging consistent runs keeps exactly their versions |
| `Compaction.MergeSorted` | src/storage/lsm_storage_engine.cpp:671-692 | the merge of sorted runs is sorted, without duplicates |
| `Compaction.FindRunEnd` | src/storage/lsm_storage_engine.cpp:1709-1712 | finds the end of the run of one key |
| `Compaction.FindAnchor` | src/storage/lsm_storage_engine.cpp:1714-1721 | finds the newest version at or below the horizon |
| `Compaction.CollectRun` | src/storage/lsm_storage_engine.cpp:1714-1741 | keeps of one run what the collection keeps of it |
| `Compaction.CollectGarbage` | src/storage/lsm_storage_engine.cpp:1702-1744 | the collection loop drops, run by run, exactly what lies below the anchor, and a lone tombstone |
| `Compaction.GcSorted` | src/storage/lsm_storage_engine.cpp:1702-1744 | what collection keeps is still sorted |
| `Compaction.GcElements` | src/storage/lsm_storage_engine.cpp:1702-1744 | collection invents no version |
| `Compaction.GcKeepsVisible` | src/storage/lsm_storage_engine.cpp:1677-1744 | at every snapshot at or above the horizon each key shows the same version after collection, or the tombstone it showed is gone with its whole run |
| `Compaction.GcDropsHidden` | src/storage/lsm_storage_engine.cpp:1733-1741 | nothing older than a version at or below the horizon is kept |
| `Compaction.SurvivesOrDropped` | src/storage/lsm_storage_engine.cpp:1723-1741 | every other version is kept, or is the tombstone whose run is discarded |
| `Compaction.GcSafeIff` | src/storage/lsm_storage_engine.cpp:1723-1741 | with other sources around, collection is safe if and only if none of them holds an older version of a key whose lone tombstone is dropped |
| `Compaction.GcUnderNewer` | src/storage/lsm_storage_engine.cpp:1677-1744 | collection is safe under a memtable that holds the newer versions of its keys |
| `ReadPaths.FirstVisible` | src/storage/lsm_storage_engine.cpp:1069-1078 | binary search in one sorted source finds what the snapshot sees there |
| `ReadPaths.LookupVisible` | src/storage/lsm_storage_engine.cpp:1016-1090 | point lookup over all sources, with sound skips, reads what the union of the sources shows |
| `ReadPaths.PickNewest` | src/storage/lsm_storage_engine.cpp:1080-1090 | the newest candidate is the newest version of the candidates |
| `ReadPaths.ConsiderKeepsBest` | src/storage/lsm_storage_engine.cpp:1140-1170 | the map of best versions stays exactly the visible version of every key seen |
| `ReadPaths.ConsiderSource` | src/storage/lsm_storage_engine.cpp:1140-1170 | one source is taken into the map, and the largest timestamp is tracked |
| `ReadPaths.MapScan` | src/storage/lsm_storage_engine.cpp:1130-1178 | the map-based scan delivers exactly the visible live rows in key order |
| `ReadPaths.FirstHead` | src/storage/lsm_storage_engine.cpp:1337-1350 | no remaining version has a smaller key than the head that is picked; none is picked only when all sources are exhausted |
| `ReadPaths.ConsumeKey` | src/storage/lsm_storage_engine.cpp:1354-1372 | consuming one key finds what the snapshot sees of it and leaves exactly the versions of the other keys |
| `ReadPaths.NewestHead` | src/storage/lsm_storage_engine.cpp:1357-1366 | among the heads with that key it finds the newest remaining version |
| `ReadPaths.StreamScan` | src/storage/lsm_storage_engine.cpp:1322-1375 | the streaming k-way merge delivers exactly the visible live rows in key order |
| `ReadPaths.ScansAgree` | src/storage/lsm_storage_engine.cpp:1130-1178 | two scans of the same versions at one snapshot are the same sequence |
| `ReadPaths.LookupAgreesWithScan` | src/storage/lsm_storage_engine.cpp:1016-1090 | a lookup finds a row if and only if the scan contains it |
| `Bloom.BloomFilter.Build` | src/storage/storage_engine_common.cpp:849-865 | after building, the filter holds exactly the given keys: all their bits are set and no other |
| `Bloom.BloomFilter.MaybeContains` | src/storage/storage_engine_common.cpp:867-894 | a key is denied exactly if one of its three bits was set by no key, so a denied key was never added |
| `Store.ApplyKeeps` | src/storage/lsm_storage_engine.cpp:741-830 | every write, flush and compaction keeps the table a refinement of its write history |
| `Store.ApplyMoves` | src/storage/lsm_storage_engine.cpp:653-830 | a write is in the memtable; a flush empties the memtable into level 0 and a compaction level 0 into level 1, without losing a version at horizon 0 |
| `Store.FlushKeeps` | src/storage/lsm_storage_engine.cpp:653-707 | a flush loses and invents no version |
| `Store.CompactRefines` | src/storage/lsm_storage_engine.cpp:1640-1757 | a level-0 compaction refines the table at its horizon |
| `Store.RunReadsLikeHistory` | src/storage/lsm_storage_engine.cpp:741-830 | any interleaving of writes, flushes and compactions reads like the plain list of writes, at every snapshot not below a horizon used |
| `Store.ReplicaConverges` | src/storage/lsm_storage_engine.cpp:895-932 | two tables that stand for the same history and apply the same writes show the same rows, whatever each one's flush and compaction schedule |
| `Store.TableState.Write` | src/storage/lsm_storage_engine.cpp:741-830 | a write adds one version and outdates the scan cache |
| `Store.TableState.Flush` | src/storage/lsm_storage_engine.cpp:653-707 | a flush moves the memtable to level 0 and keeps a valid scan cache right |
| `Store.TableState.CompactLevels` | src/storage/lsm_storage_engine.cpp:1640-1757 | a compaction rewrites both levels and keeps a valid scan cache right |
| `Store.TableState.ScanVisible` | src/storage/lsm_storage_engine.cpp:1092-1191 | with or without a cache hit, the answer is what a fresh scan at the requested snapshot gives |
| `Store.TableState.LookupVisible` | src/storage/lsm_storage_engine.cpp:1016-1090 | lookup with Bloom filters reads what the table shows |
| `Store.TableState.ScanVisibleStream` | src/storage/lsm_storage_engine.cpp:1322-1375 | the stream delivers what the scan delivers |
| `Snapshots.TransactionManager.Begin` | src/txn/transaction_manager.cpp:37-44 | a fresh id and a snapshot below every later timestamp; the Begin step of the system |
| `Snapshots.TransactionManager.Commit` | src/txn/transaction_manager.cpp:58-76 | succeeds exactly for active transactions, with a timestamp above every live snapshot, which waits to be applied; the system's step that takes a commit timestamp |
| `Snapshots.TransactionManager.Rollback` | src/txn/transaction_manager.cpp:82-94 | removes exactly a live transaction; the Rollback step of the system |
| `Snapshots.TransactionManager.PrepareAutoCommit` | src/process/transaction_controller.cpp:313-333 | a statement outside a transaction takes a snapshot and a timestamp, which waits to be applied, and registers neither |
| `Snapshots.TransactionManager.MarkFailed` | src/txn/transaction_manager.cpp:99-105 | a failed transaction stays live and holds the horizon |
| `Snapshots.TransactionManager.MinActiveReadTs` | src/txn/transaction_manager.cpp:168-183 | the loop finds the oldest snapshot in use, or the next timestamp |
| `Snapshots.WriteDisturbsIff` | src/storage/lsm_storage_engine.cpp:741-793 | a write changes what a snapshot reads if and only if it is not younger and differs from what was seen |
| `Snapshots.CommitInstallsChanges` | src/process/transaction_controller.cpp:135-189 | applying a commit: every changed key of every table reads at and above the timestamp as its row, or as nothing if it was deleted; every other key, and every earlier snapshot, reads as before |
| `Snapshots.StepsTakeEffect` | src/txn/transaction_manager.cpp:37-94 | after BEGIN the new transaction is live with the next timestamp; after COMMIT and ROLLBACK it is not, and the timestamp taken can be applied |
| `Snapshots.AppliedOnce` | src/process/transaction_controller.cpp:135-189 | in no run is a timestamp applied twice |
| `Snapshots.MaintenanceMoves` | src/storage/lsm_storage_engine.cpp:653-707 | a flush leaves an empty memtable, a compaction an empty level 0, and both leave the other tables alone |
| `Snapshots.StepKeepsSnapshot` | src/process/transaction_controller.cpp:135-189 | no step changes a live snapshot's reads unless it applies an older timestamp; what an applied commit does change is `CommitInstallsChanges` |
| `Snapshots.RepeatableRead` | src/process/transaction_controller.cpp:42-57 | over every run without a straggler a live transaction reads the same row of every key |
| `Snapshots.SnapshotStableIff` | src/process/transaction_controller.cpp:42-57 | over all possible runs a live transaction keeps its reads if and only if no timestamp up to its snapshot waits to be applied, or there is no table |
| `Snapshots.WaitingTimestampDisturbs` | src/process/transaction_controller.cpp:135-189 | a waiting timestamp up to the snapshot can still bring it a row |
| `Snapshots.CompactionKeepsReadIff` | src/storage/lsm_storage_engine.cpp:1702-1744 | at any snapshot a compaction keeps a read if and only if it does not collect the row that is read |
| `Snapshots.UnregisteredReadIsLost` | src/process/transaction_controller.cpp:313-333 | an auto-commit SELECT that loses its row to a compaction |
| `Snapshots.NothingTakenNoStragglers` | src/process/transaction_controller.cpp:313-333 | with no timestamp waiting at the start, no run contains a straggler |
| `Snapshots.StragglerBreaksRepeatableRead` | src/process/transaction_controller.cpp:313-333 | a concrete run in which a late auto-commit changes a snapshot's read |
| `Recovery.ReplayLog` | src/storage/lsm_storage_engine.cpp:591-634 | the replay loop rebuilds the memtable from the counted log records |
| `Recovery.ReplayElements` | src/storage/lsm_storage_engine.cpp:591-634 | the rebuilt memtable is sorted and holds exactly the records with timestamp 0 or a sealed one, or all when there is no commit log |
| `Recovery.ReconcileKeepsFiles` | src/storage/lsm_storage_engine.cpp:2076-2206 | startup repair leaves files that still stand for what was flushed, for every fingerprint function |
| `Recovery.ReconcileRepairs` | src/storage/lsm_storage_engine.cpp:2076-2206 | repair never touches level 1; it empties level 0 when level 0 has its recorded size, without a checksum, and level 1 is not recorded; it leaves everything when level 1 is as recorded or level 0 is not |
| `Recovery.HalfwayRepresents` | src/storage/lsm_storage_engine.cpp:1746-1756 | between the two file writes of a compaction, both file states stand for what was flushed |
| `Recovery.StepKeeps` | src/storage/lsm_storage_engine.cpp:844-887 | every durable step keeps the invariant of log, files, manifest and commit log, also log truncations and manifest writes while a compaction is half done, and so does every restart |
| `Recovery.RunKeeps` | src/storage/lsm_storage_engine.cpp:1770-1840 | so does every run of them |
| `Recovery.CrashRestoresSealedCommits` | src/storage/lsm_storage_engine.cpp:591-634 | a crash at any durable write restores exactly the rows of the sealed commits and a matching manifest |
| `Recovery.RestartRestores` | src/storage/lsm_storage_engine.cpp:591-634 | the same from every state that satisfies the invariant |
| `Recovery.ManifestKeeps` | src/storage/lsm_storage_engine.cpp:2016-2074 | one manifest write over all tables describes their files as they are and keeps the invariant, in the middle of a compaction too |
| `Recovery.CommitIsAllOrNothing` | src/process/transaction_controller.cpp:135-189 | across tables, a commit is restored as a whole or not at all |
| `Recovery.FlushIsSafeIff` | src/storage/lsm_storage_engine.cpp:653-707 | a flush followed by a crash shows no unsealed row if and only if no open commit had a row in the memtable |
| `Recovery.FlushInsideCommitLeavesHalf` | src/storage/lsm_storage_engine.cpp:653-707 | a run from a new database in which a flush between two rows of a commit leaves one of them after a crash |
| `Recovery.TruncateWalIsSafeIff` | src/storage/lsm_storage_engine.cpp:700-706 | truncating a log before a crash loses no sealed row if and only if the memtable holds no sealed row outside the files |
| `Recovery.LostTailIsSafeIff` | src/storage/storage_engine_common.cpp:252-272 | a crash that loses the end of a table's log loses no sealed row if and only if every sealed row of the memtable is before it or in the files |
| `Recovery.TruncateLogIsSafeIff` | src/storage/lsm_storage_engine.cpp:1770-1840 | truncating the commit log before a crash loses no sealed row if and only if the memtable holds no sealed row outside the files |
| `Recovery.TruncationLosesSealedRow` | src/storage/lsm_storage_engine.cpp:1804-1840 | a run from a new database in which either truncation loses a sealed row |
| `Recovery.FlushDuringCompactionSafeIff` | src/storage/lsm_storage_engine.cpp:1746-1756 | after a flush between the two file writes of a compaction, the end of both and a crash, the table stands for the sealed history if and only if no new row of the memtable is seen at a snapshot above the horizon, except deletions of keys that level 1 does not hold |
| `Recovery.FlushDuringCompactionLosesRow` | src/storage/lsm_storage_engine.cpp:1746-1756 | a run from a new database in which this loses a sealed row |
| `Recovery.FlushBeforeManifestSafeIff` | src/storage/lsm_storage_engine.cpp:2076-2206 | after a flush before the manifest write of a compaction and a crash, it does if and only if the fingerprints tell the new level 0 from the recorded one, or that holds |
| `Recovery.FirstCommitTornIsRestored` | src/storage/lsm_storage_engine.cpp:591-634 | a crash before the first seal restores the row of the open commit |
| `Recovery.WithoutCommitLogEverythingReplays` | src/storage/lsm_storage_engine.cpp:591-634 | without a commit log a restart restores only sealed rows if and only if the log holds only sealed rows |
| `Codec.ValueRoundTrip` | src/storage/storage_engine_common.cpp:520-576 | a value is read back, and reading stops where it ends |
| `Codec.ValueLayout` | src/storage/storage_engine_common.cpp:520-546 | the bytes: tags 0, 1 and 2, numbers with their lowest byte first, a length of four bytes before a text |
| `Codec.ValuePrefixFree` | src/storage/storage_engine_common.cpp:520-546 | no encoding is a prefix of another |
| `Codec.KeyRoundTrip` | src/storage/storage_engine_common.cpp:739-751 | a key is read back |
| `Codec.RowRoundTrip` | src/storage/storage_engine_common.cpp:637-663 | a row is read back with its width |
| `Codec.CompositeKeyIdentifies` | src/storage/storage_engine_common.cpp:720-734 | with two key columns or more, two rows have the same key if and only if they agree in all key columns |
| `Codec.FirstColumnIdentifies` | src/storage/storage_engine_common.cpp:707-726 | with fewer than two, the key is the first column, and two rows have the same key if and only if they agree there |
| `Codec.CompositeIndexInjective` | src/storage/table.cpp:311-333 | no two column tuples of the same width share an index key |
| `Wal.ReadRecords` | src/storage/storage_engine_common.cpp:329-371 | the reader loop recovers what the format defines, stopping at the first bad record |
| `Wal.RecordLayout` | src/storage/storage_engine_common.cpp:72-91 | a record is its kind, the length and the checksum of its payload, and the payload |
| `Wal.MagicLayout` | src/storage/storage_engine_common.cpp:49-58 | a log begins with its magic number |
| `Wal.CutRecoversWholeRecords` | src/storage/storage_engine_common.cpp:329-371 | whatever the length at which a log is cut, exactly the records wholly inside are recovered, in order |
| `Wal.TornTailHidesLaterRecords` | src/storage/storage_engine_common.cpp:72-91 | wherever a record is torn, nothing appended behind it is recovered if and only if the torn and the new bytes do not read as a record; behind a whole header, if and only if they do not fill it up to one with its checksum |
| `Wal.DamagedByteStopsReading` | src/storage/storage_engine_common.cpp:33-42 | FNV-1a detects every change of one payload byte: the records before are recovered, the damaged one and what follows are not |
| `Wal.WalWriter.Append` | src/storage/storage_engine_common.cpp:72-91 | one more record at the end of the file, and a sync is due |
| `Wal.WalWriter.Truncate` | src/storage/storage_engine_common.cpp:111-127 | an empty log remains |
| `GroupCommit.StepKeepsGood` | src/storage/storage_engine_common.cpp:252-272 | every step of every caller keeps the protocol's invariant |
| `GroupCommit.SyncWrites` | src/storage/storage_engine_common.cpp:96-106 | a sync step makes the whole of one log durable and clean, and touches no other |
| `GroupCommit.ProtocolIsSafe` | src/storage/storage_engine_common.cpp:252-272 | in every interleaving at most one leader syncs, and no follower waits in an epoch without a leader |
| `GroupCommit.EpochCoversItsStart` | src/storage/storage_engine_common.cpp:196-203 | what was appended before a leader's sync began is durable when its epoch ends |
| `GroupCommit.LateRecordDurableIff` | src/storage/storage_engine_common.cpp:196-203 | a record is durable at the end of an epoch if and only if it was appended before the leader visited its log |
| `GroupCommit.LatecomerReturnsTooEarly` | src/storage/storage_engine_common.cpp:252-272 | a follower may return while its record is not on disk |
| `Replication.RecordRoundTripIff` | src/replication/replication.cpp:41-181 | a record survives serialization if and only if its table name is shorter than 256 bytes |
| `Replication.SchemaRoundTrip` | src/replication/replication.cpp:41-85 | a schema is read back |
| `Replication.RecordLayout` | src/replication/replication.cpp:41-85 | the first byte tells the five kinds of records apart |
| `Replication.FrameRoundTrip` | src/replication/replication.cpp:183-189 | a frame is received as its record, and the stream goes on behind it |
| `Replication.BadFrameEndsStream` | src/replication/replication.cpp:426-488 | nothing is received behind a frame of length zero or above the limit |
| `Replication.UnreadableFrameIsSkipped` | src/replication/replication.cpp:426-488 | a frame that is no record is skipped, and the stream goes on behind it |
| `Replication.ReceiveFrames` | src/replication/replication.cpp:426-488 | the follower's loop receives what the stream format defines |
| `Replication.ReceivedIsPrefix` | src/replication/replication.cpp:426-488 | wherever the connection breaks, a prefix of the records was received, and all of them from a whole stream |
| `Replication.WriteRoundTrip` | src/storage/lsm_storage_engine.cpp:895-932 | the follower writes the version the primary wrote |
| `Followers.Engine.ApplyReplicationRecord` | src/storage/lsm_storage_engine.cpp:895-932 | a record is applied exactly when it can be; rows of unknown tables are refused and unreadable rows throw, without effect; what applying means is stated by the four lemmas below |
| `Followers.RecordsRepeat` | src/storage/lsm_storage_engine.cpp:895-911 | creating a table that is there changes nothing, nor dropping one that is not; a CREATE, DROP or COMMIT received twice does what it does once |
| `Followers.RecordsTakeEffect` | src/storage/lsm_storage_engine.cpp:895-911 | afterwards a created table exists, a new one empty with its columns, a dropped one does not, and a commit is sealed |
| `Followers.RecordsTouchOnlyTheirs` | src/storage/lsm_storage_engine.cpp:895-932 | no record changes a table it does not name, nor another commit |
| `Followers.ArrivedRowIsRead` | src/storage/lsm_storage_engine.cpp:912-918 | a row that arrives is read under its key at and above its timestamp: under the value of its first column unless the key is composite |
| `Followers.RecordDoesChange` | src/storage/lsm_storage_engine.cpp:895-932 | the record of a change is accepted and does to the follower what the change did to the primary |
| `Followers.RunStandsFor` | src/storage/lsm_storage_engine.cpp:741-932 | an engine that carries out changes of any tables, or receives their records, with flushes and compactions in between, stands for their history |
| `Followers.UpkeepMoves` | src/storage/lsm_storage_engine.cpp:653-707 | flushes and compactions empty what they should and leave commits and other tables alone |
| `Followers.EnginesConverge` | src/storage/lsm_storage_engine.cpp:895-932 | two engines that start from the same history and carry out the same changes have the same tables, columns, rows and sealed commits |
| `Followers.FollowerShowsPrimaryState` | src/storage/lsm_storage_engine.cpp:869-932 | fed with the primary's stream cut anywhere, the follower has the primary's state after as many changes as records arrived |
| `Followers.BootstrappedFollowerConverges` | src/storage/lsm_storage_engine.cpp:895-932 | a follower whose copy already contains some CREATEs, DROPs and commits of the stream, and that receives the whole stream, has the primary's state |
| `Followers.RepeatedRecordsStand` | src/storage/lsm_storage_engine.cpp:895-911 | receiving these records again leads the copy back to where it was, table by table |
| `Sessions.InsertActsOnView` | src/executor/executor.cpp:1506-1528 | READ COMMITTED: INSERT is refused exactly for a key the transaction sees, and otherwise adds the row to what it sees |
| `Sessions.UpdateActsOnView` | src/executor/executor.cpp:1559-1619 | READ COMMITTED: UPDATE acts on what the transaction sees as on a plain table, and keeps rows and deletions apart |
| `Sessions.DeleteActsOnView` | src/executor/executor.cpp:1670-1718 | READ COMMITTED: DELETE acts on what the transaction sees as on a plain table, and keeps rows and deletions apart |
| `Sessions.InsertActsOnSnapshotIff` | src/executor/executor.cpp:1515-1521 | REPEATABLE READ: INSERT refuses exactly the keys that SELECT shows if and only if the keys outside the buffer are those of BEGIN |
| `Sessions.UpdateActsOnSnapshotIff` | src/executor/executor.cpp:1578-1596 | REPEATABLE READ: UPDATE acts on what SELECT shows, for every change, if and only if the rows outside the buffer are those of BEGIN |
| `Sessions.DeleteActsOnSnapshotIff` | src/executor/executor.cpp:1680-1698 | REPEATABLE READ: DELETE acts on what SELECT shows, for every WHERE, if and only if no row of BEGIN is gone, or changed outside the buffer |
| `Sessions.UnseenRowIsUpdated` | src/executor/executor.cpp:1515-1596 | a row committed after BEGIN: SELECT shows nothing, INSERT refuses its key, UPDATE brings it into view |
| `Sessions.UpdateCommitted` | src/executor/executor.cpp:1582-1596 | the pass over the committed rows has handled exactly their keys |
| `Sessions.UpdateInserted` | src/executor/executor.cpp:1597-1618 | the pass over the rows only inserted handles exactly the others |
| `Sessions.UpdateLoop` | src/executor/executor.cpp:1559-1619 | both passes together are UPDATE on the buffer |
| `Sessions.DeleteLoop` | src/executor/executor.cpp:1670-1718 | marking committed rows and taking back inserted ones is DELETE on the buffer |
| `Sessions.OverlayScan` | src/executor/executor.cpp:339-395 | the scan under a buffer delivers exactly what the transaction sees, each key once |
| `Sessions.CommitVersions` | src/process/transaction_controller.cpp:147-156 | COMMIT leaves, under each key, the deletion or a row that has this key |
| `Sessions.CommitReads` | src/process/transaction_controller.cpp:135-189 | after COMMIT a key reads as a row stored under it, else as deleted, else as before, moved rows included |
| `Sessions.CommitInstallsViewIff` | src/process/transaction_controller.cpp:135-189 | after COMMIT every later reader sees what the transaction saw if and only if no buffered row changed its key |
| `Sessions.MovedKeyIsDuplicated` | src/executor/executor.cpp:1563-1597 | UPDATE of a key column: one row before COMMIT, two after |
| `RowLocks.RowLockManager.constructor` | include/corodb/txn/row_lock_manager.h:19-39 | no row is locked at first |
| `RowLocks.RowLockManager.TryAcquire` | src/txn/row_lock_manager.cpp:17-30 | grants a row exactly if it is free or the asker's own, otherwise names the holder; both lock tables stay one relation, without empty tables |
| `RowLocks.RowLockManager.ReleaseAll` | src/txn/row_lock_manager.cpp:35-53 | frees what the transaction holds and nothing else; both lock tables stay one relation, without empty tables |
| `Concurrency.FindSavepoint` | src/process/transaction_controller.cpp:251-265 | the search finds the youngest savepoint of a name |
| `Concurrency.LastNamedIsLast` | src/process/transaction_controller.cpp:270-280 | the savepoint found has the name, and no younger one has |
| `Concurrency.StepKeepsOk` | src/executor/executor.cpp:60-72 | every step keeps every buffered key, also those in savepoints, locked by its transaction, and every lock with a live one |
| `Concurrency.RunKeepsOk` | src/process/transaction_controller.cpp:190-234 | so does every interleaving, and committed rows always stand under their own keys |
| `Concurrency.NoSharedRow` | src/txn/row_lock_manager.cpp:17-30 | no two live transactions have buffered the same row, nor store under the same key if they keep their keys |
| `Concurrency.CommitChangesOnlyOwnIff` | src/process/transaction_controller.cpp:147-156 | COMMIT changes only rows its transaction has locked, whatever is committed, if and only if it has locked the own key of every buffered row |
| `Concurrency.KeptCommitStaysApart` | src/process/transaction_controller.cpp:147-156 | a commit that keeps its keys leaves every row alone that another transaction has buffered |
| `Concurrency.MovedKeyCrossesLock` | src/executor/executor.cpp:1563-1597 | a moved key: COMMIT overwrites a row that another transaction has locked |
| `Concurrency.ViewsCommute` | src/process/transaction_controller.cpp:147-156 | commits of disjoint rows can be overlaid in either order |
| `Concurrency.PrivateCopy` | src/executor/executor.cpp:1559-1619 | READ COMMITTED: over every interleaving in which the others keep their keys, a transaction sees a private copy on which only its own statements and the commits of others take effect |
| `Concurrency.BeginSees` | src/process/transaction_controller.cpp:42-57 | a new transaction sees exactly what is committed, at either isolation level |
| `Concurrency.TransactionIsAtomicIff` | src/process/transaction_controller.cpp:135-234 | COMMIT installs that copy if and only if each of its rows stands under its own key; ROLLBACK installs nothing; both free every lock |
| `Concurrency.RepeatableCopy` | src/executor/executor.cpp:351-369 | REPEATABLE READ: over every interleaving in which the transaction deletes no row of BEGIN that others have deleted, it sees a copy on which only its own statements take effect |
| `Concurrency.RepeatableCopyIff` | src/executor/executor.cpp:351-369 | whatever happens it sees such a copy, if and only if it has locked every row of BEGIN and all are still committed |
| `Concurrency.DeletedRowReturns` | src/executor/executor.cpp:1698-1716 | a row that others deleted, inserted and deleted again: the row of BEGIN shows |
| `Concurrency.RemoveOnCopyIff` | src/executor/executor.cpp:1680-1716 | deleting a row takes it from view if and only if a row shown below the buffer is still committed |
| `Concurrency.RepeatableCommitIff` | src/process/transaction_controller.cpp:135-189 | COMMIT of such a transaction installs what it sees if and only if those rows stand under their own keys and no row outside its buffer has changed |
| `Concurrency.SaveSaves` | src/process/transaction_controller.cpp:239-245 | SAVEPOINT records what the transaction sees |
| `Concurrency.ReleaseForgets` | src/process/transaction_controller.cpp:270-280 | RELEASE keeps what is seen and forgets the savepoint and the younger ones |
| `Concurrency.RollbackRestores` | src/process/transaction_controller.cpp:251-265 | READ COMMITTED: after any work under a savepoint ROLLBACK TO shows what was saved plus what others committed since, any number of times |
| `Concurrency.RepeatableRollbackRestores` | src/process/transaction_controller.cpp:251-265 | REPEATABLE READ: it shows exactly what was saved, if no row of BEGIN was deleted under the savepoint that others had deleted |
| `Joins.NestedLoopJoin` | src/executor/executor.cpp:938-986 | the nested loops deliver the join in order, for all four kinds; what the kinds mean is stated by the lemmas below |
| `Joins.PairsOf` | src/executor/executor.cpp:957-970 | a pair is delivered if and only if both rows are there and ON is true of them, in every kind |
| `Joins.LeftRowAlone` | src/executor/executor.cpp:971-974 | a left row is delivered alone in LEFT and FULL exactly if it has no partner, and never in INNER and RIGHT |
| `Joins.RightRowAlone` | src/executor/executor.cpp:977-984 | a right row is delivered alone in RIGHT and FULL exactly if it has no partner, and never in INNER and LEFT |
| `Joins.KeptRowsOccur` | src/executor/executor.cpp:957-984 | every left row occurs in LEFT and FULL, every right row in RIGHT and FULL |
| `Joins.RightIsLeftSwapped` | src/executor/executor.cpp:957-984 | RIGHT is LEFT with the inputs swapped, record by record with multiplicities |
| `Joins.FullIsBoth` | src/executor/executor.cpp:957-984 | FULL is LEFT with the right rows that RIGHT delivers alone; INNER is the pairs of LEFT |
| `Joins.JoinCounts` | src/executor/executor.cpp:938-986 | each record occurs exactly as often as the inputs demand: products of multiplicities for pairs, kept rows without partner |
| `Joins.JoinOfPermuted` | src/executor/executor.cpp:938-986 | the order of the inputs only changes the order of the output |
| `Joins.BuildBuckets` | src/executor/executor.cpp:752-764 | each bucket lists the right rows of its key in input order |
| `Joins.HashJoin` | src/executor/executor.cpp:736-801 | the hash join delivers, in the same order, the join under hash equality |
| `Joins.HashJoinRightIff` | src/executor/executor.cpp:736-801 | hash join and nested loops deliver the same sequence, for all four kinds and any residual, if and only if no two NULL keys meet whose residual holds, nor two different integers that ON compares as equal |
| `Joins.HashJoinPairsNulls` | src/executor/executor.cpp:764-788 | one NULL on each side: nothing from nested loops, a pair from the hash join |
| `Joins.HashJoinSplitsRounded` | src/executor/executor.cpp:752-788 | 2^53 and 2^53 + 1: a pair from nested loops, nothing from the hash join |
| `Joins.GroupEnd` | src/executor/executor.cpp:869-877 | finds the end of the group of keys that compare as equal |
| `Joins.OrderSorts` | src/executor/bool_evaluator.cpp:20-57 | the merge sorts NULL last, integers up to 2^53 by size and texts like words |
| `Joins.MergeOnce` | src/executor/executor.cpp:846-893 | one round of the merge keeps what is joined apart, in keys, from what is not |
| `Joins.MergeJoin` | src/executor/executor.cpp:842-912 | the merge delivers each pair as often as it should, and a row alone exactly if no key on the other side compares as equal |
| `Joins.MergeJoinRightIff` | src/executor/executor.cpp:804-912 | merge of the sorted inputs and nested loops deliver the same multiset if and only if no two NULL keys meet and no kept row loses all partners to the residual |
| `Joins.NothingLostWithoutResidual` | src/executor/executor.cpp:879-892 | an inner join, or one without residual, loses nothing |
| `Joins.MergeJoinLosesRow` | src/executor/executor.cpp:879-912 | a left join whose residual fails: nested loops keep the row, the merge drops it |
| `IndexScan.LowerBoundCuts` | src/storage/table.cpp:490-508 | the lower bound separates the smaller keys |
| `IndexScan.UpperBoundCuts` | src/storage/table.cpp:490-508 | the upper bound separates the keys not larger |
| `IndexScan.RangeEndsIff` | src/storage/table.cpp:490-508 | the range iteration meets its end if and only if no key lies above the high and below the low end |
| `IndexScan.BackwardsRangeRunsPast` | src/storage/table.cpp:490-508 | BETWEEN 7 AND 3 over the key 5: the iteration starts behind its end |
| `IndexScan.LookupPoint` | src/storage/table.cpp:475-488 | exactly the keys with an accepted entry, each once |
| `IndexScan.LookupRange` | src/storage/table.cpp:490-508 | runs past the end exactly when a key lies outside both ends; otherwise finds exactly the keys with an entry in the range, each once |
| `IndexScan.LookupPoints` | src/executor/executor.cpp:499-507 | IN: exactly the keys with an entry among the values, each once |
| `IndexScan.TupleProbeRight` | src/storage/table.cpp:510-524 | looking up an encoded tuple accepts exactly the rows with these column values |
| `IndexScan.Recheck` | src/executor/executor.cpp:516-542 | a candidate delivers its overlaid row exactly if that passes the check |
| `IndexScan.ScanIndex` | src/executor/executor.cpp:514-552 | the scan delivers the matching overlaid rows of the candidates and of the buffer, each once |
| `IndexScan.ExecuteIndexScan` | src/executor/executor.cpp:420-553 | probe, lookup, re-check and buffer together deliver the accepted rows that the index or the buffer holds, each once |
| `IndexScan.IndexScanEqualsWhereIff` | src/executor/executor.cpp:420-553 | at a snapshot not older than the index, under any buffer and for every kind of probe, the index scan delivers exactly the rows for which WHERE is true if and only if no row seen has NULL or rounding in the way |
| `IndexScan.ExecuteTupleScan` | src/executor/executor.cpp:508-553 | the same for equalities on all columns of a composite index |
| `IndexScan.CollectEqualities` | src/optimizer/physical/physical_planner.cpp:664-692 | of the equalities of a column the first visited is kept, and other conjuncts are noticed |
| `IndexScan.ExecuteTuplePlan` | src/optimizer/physical/physical_planner.cpp:664-722 | a conjunction that covers a composite index looks up the kept equalities, and is checked again unless it is only equalities of the index |
| `IndexScan.TupleScanEqualsWhereIff` | src/optimizer/physical/physical_planner.cpp:664-722 | that plan delivers exactly the rows for which the whole conjunction is true if and only if no row seen has exactly the looked-up columns while a NULL or a dropped equality goes unchecked, or satisfies WHERE with columns that only round onto them |
| `IndexScan.DroppedEqualityReturnsRow` | src/optimizer/physical/physical_planner.cpp:676-719 | a = 1 AND a = 2 AND b = 3: the plan returns a row |
| `IndexScan.ScanRightForEveryProbeIff` | src/executor/executor.cpp:420-553 | at a snapshot the scan delivers the accepted rows for every probe and every buffer if and only if the index knows every row of the snapshot |
| `IndexScan.PutKeeps` | src/storage/table.cpp:542-556 | an insertion keeps the index ordered and adds one entry |
| `IndexScan.StepsIndex` | src/storage/table.cpp:542-603 | a write keeps all entries and the time of the last build; a rebuild replaces the index and takes the largest stored timestamp |
| `IndexScan.Build` | src/storage/table.cpp:584-603 | building the index gives the entries of the current rows |
| `IndexScan.RunKeepsOk` | src/storage/table.cpp:542-603 | over every run of writes and rebuilds the index knows every row seen at a snapshot not older than its last build |
| `IndexScan.KnownFindsAll` | src/executor/executor.cpp:495-542 | when the index knows every row of a snapshot, the scan delivers every accepted row, for every probe and buffer |
| `IndexScan.OlderSnapshotMisses` | src/storage/table.cpp:584-603 | a snapshot older than the build misses a row that changed before it |
| `IndexScan.ProbeRightIff` | src/optimizer/physical/physical_planner.cpp:536-662 | the probe chosen for a WHERE accepts a value exactly when WHERE is true of it, if and only if neither NULL nor rounding is in the way |
| `IndexScan.IsTrueEvaluates` | src/executor/bool_evaluator.cpp:110-253 | what the probe is compared with is the three-valued evaluation of the same condition |
| `IndexScan.LessThanReturnsNulls` | src/executor/executor.cpp:455-481 | x < 5 through the index also returns NULLs |
| `IndexScan.IndexMissesRounded` | src/executor/executor.cpp:455-481 | x = 2^53 + 1 is true of 2^53, which the index does not find |
| `Like.MatchLike` | src/executor/bool_evaluator.cpp:82-102 | the single-backtrack loop terminates and computes the cursor automaton's answer |
| `Like.RightForEveryPatternIff` | src/executor/bool_evaluator.cpp:82-102 | the loop agrees with the recursive meaning of LIKE on every pattern if and only if the text has no percent sign |
| `Like.LikeLaws` | src/executor/bool_evaluator.cpp:82-102 | the meaning of LIKE: a plain pattern matches itself, an underscore one character, a percent sign any beginning |
| `Like.NeverAcceptsWrongly` | src/executor/bool_evaluator.cpp:82-102 | what it accepts is always a match |
| `Like.Complete` | src/executor/bool_evaluator.cpp:82-102 | one backtrack point suffices while the text read literally has no percent sign |
| `Subqueries.AndMeans` | src/executor/bool_evaluator.cpp:146-152 | AND is true exactly if both sides are, and false exactly if one is |
| `Subqueries.OrMeans` | src/executor/bool_evaluator.cpp:153-159 | OR is true exactly if one side is, and false exactly if both are |
| `Subqueries.NotMeans` | src/executor/bool_evaluator.cpp:160-166 | NOT exchanges true and false and keeps unknown |
| `Subqueries.DeMorgan` | src/executor/bool_evaluator.cpp:146-184 | NOT of an OR is the AND of the NOTs, and the other way round |
| `Subqueries.CompareMeans` | src/executor/bool_evaluator.cpp:110-137 | with a NULL every comparison is unknown; otherwise exactly one of less, equal and greater is true, and the other three operators combine them |
| `Subqueries.CompareOrders` | src/executor/bool_evaluator.cpp:20-57 | integers up to 2^53 compare by size, texts like words |
| `Subqueries.BetweenMeans` | src/executor/bool_evaluator.cpp:238-253 | BETWEEN is the two comparisons, NOT BETWEEN its negation, and unknown with a NULL anywhere |
| `Subqueries.IsNullMeans` | src/executor/bool_evaluator.cpp:68-71 | IS NULL is true exactly of NULL, and never unknown |
| `Subqueries.InListMeans` | src/executor/bool_evaluator.cpp:214-237 | IN over a list is true exactly if a value is equal, false exactly if none is equal or NULL; NOT IN is its negation |
| `Subqueries.InQueryMeans` | src/executor/bool_evaluator.cpp:185-213 | the same for IN over the results of a subquery; EXISTS is true exactly if there is one, and never unknown |
| `Subqueries.ResultsMean` | src/process/query_processor.cpp:349-370 | a plain subquery returns the projected values of exactly the records whose WHERE is true |
| `Subqueries.LookupMeans` | src/process/query_processor.cpp:84-95 | a reference is read from the innermost query that has the table |
| `Subqueries.EvalInner` | src/process/query_processor.cpp:152-198 | a condition without outer references does not depend on the queries around it |
| `Subqueries.SubstMeans` | src/process/query_processor.cpp:84-148 | substituting the outer row into a condition, nested subqueries included, is evaluation in its scope |
| `Subqueries.NestedApplyIsScoping` | src/process/query_processor.cpp:349-370 | running the substituted subquery alone gives the correlated result |
| `Decorrelation.DropLeafMeans` | src/process/query_processor.cpp:200-209 | a conjunction is true exactly if the dropped conjunct and the rest are |
| `Decorrelation.LinkIsOnlyLink` | src/process/query_processor.cpp:241-265 | the link is the one conjunct that looks out, an equality of a local and an outer column |
| `Decorrelation.FindLink` | src/process/query_processor.cpp:241-265 | the loop finds that link or gives up |
| `Decorrelation.RewrittenExistsMeans` | src/process/query_processor.cpp:281-334 | the produced IN is true exactly if some record of the original subquery passes with exactly the outer value |
| `Decorrelation.ExistsRewriteRightIff` | src/process/query_processor.cpp:281-334 | the EXISTS rewrite keeps truth if and only if the subquery is no aggregate over an empty set, and its records do not pass only by rounding |
| `Decorrelation.RoundedLinkWrong` | src/process/query_processor.cpp:281-334 | EXISTS over 2^53 for the outer value 2^53 + 1: true before, false after |
| `Decorrelation.InRewriteRightIff` | src/process/query_processor.cpp:222-279 | over all table contents, for any WHERE with the link and for plain IN and NOT IN, the rewrite is right if and only if on every record the other conjuncts admit the projected value compares as equal to the linked one, and for NOT IN is not NULL |
| `Decorrelation.NotInRewriteRightIff` | src/process/query_processor.cpp:222-279 | over given records the rewrite of a plain NOT IN keeps truth if and only if the outer value is NULL, or it or NULL is among the linked values, or neither is among all |
| `Decorrelation.AggregateInRightIff` | src/process/query_processor.cpp:222-279 | over all table contents, the rewrite of an aggregate IN or NOT IN is right if and only if the aggregate of the linked values always decides as the aggregate of all |
| `Decorrelation.AggregateResults` | src/process/query_processor.cpp:222-279 | an aggregate subquery has one result, the aggregate of the linked values before and of all after the rewrite |
| `Decorrelation.PickInRightIff` | src/process/query_processor.cpp:222-279 | for MIN and MAX of the equated column this is so if and only if the other conjuncts admit one value, for NOT IN only NULL |
| `Decorrelation.OtherColumnWrong` | src/process/query_processor.cpp:222-279 | IN with another projected column: false before, true after |
| `Decorrelation.AggregateInWrong` | src/process/query_processor.cpp:222-279 | IN over MAX: true before, false after |
| `Decorrelation.RunOnceMeans` | src/process/query_processor.cpp:1215-1268 | replacing an uncorrelated subquery by its values changes nothing for any outer row |
| `Decorrelation.RunsAlone` | src/process/query_processor.cpp:1215-1228 | an uncorrelated subquery has the same results whatever is around it |
| `Decorrelation.ResolveResolves` | src/process/query_processor.cpp:1188-1268 | after resolving no uncorrelated subquery is left, nor a correlated one that a rewrite covers outside NOT |
| `Decorrelation.ResolveKeepsFilter` | src/process/query_processor.cpp:1188-1268 | resolving a whole condition keeps what is true under an even and what is false under an odd number of NOTs, wherever the single rewrites are right |
| `Decorrelation.RewrittenIsUncorrelated` | src/process/query_processor.cpp:1200-1216 | a rewritten subquery is uncorrelated |
| `Decorrelation.AggregateExistsWrong` | src/process/query_processor.cpp:281-285 | EXISTS over COUNT(*) of an empty table: true before, false after |
| `Decorrelation.NotInWrong` | src/process/query_processor.cpp:1207-1213 | NOT IN over one NULL: true before, unknown after |
| `Decorrelation.RewriteUnderNotWrong` | src/process/query_processor.cpp:1191-1206 | why EXISTS under NOT is left alone |
| `PageCache.Sweep` | src/storage/buffer_pool.cpp:186-254 | the clock ends within two sweeps, fails if and only if every frame is pinned, otherwise takes only usage marks away and chooses the first unpinned frame without a mark, or the first unpinned one |
| `PageCache.BufferPool.constructor` | src/storage/buffer_pool.cpp:27-41 | an empty pool is valid |
| `PageCache.BufferPool.FindVictim` | src/storage/buffer_pool.cpp:176-254 | fails if and only if no frame is free and all are pinned; otherwise takes out an unpinned frame without changing any page or pin |
| `PageCache.BufferPool.ClockVictim` | src/storage/buffer_pool.cpp:186-254 | without free frames, fails if and only if all are pinned |
| `PageCache.BufferPool.FlushFrame` | src/storage/buffer_pool.cpp:120-153 | a dirty page reaches the disk |
| `PageCache.FlushKeeps` | src/storage/buffer_pool.cpp:120-153 | writing back changes no page's content |
| `PageCache.BufferPool.Pin` | src/storage/buffer_pool.cpp:281-323 | returns the page, marked as used, without changing any page, fails exactly when exhausted, and leaves the pool valid if and only if the file of a page to load exists, or the frame given up is of that file and dirty |
| `PageCache.BufferPool.Allocate` | src/storage/buffer_pool.cpp:335-373 | the page becomes zeros, marked as used, and no other page changes |
| `PageCache.BufferPool.Write` | src/storage/buffer_pool.cpp:382-386 | the pinned page changes and no other |
| `PageCache.BufferPool.Unpin` | src/storage/buffer_pool.cpp:395-404 | one pin less, no page changes |
| `PageCache.BufferPool.FlushAll` | src/storage/buffer_pool.cpp:422-442 | afterwards the disk holds what every cached page holds |
| `PageCache.BufferPool.EvictFile` | src/storage/buffer_pool.cpp:475-496 | after a file is replaced only its pinned pages are still cached, and no other file's page changes |
| `PageCache.BufferPool.Perform` | src/storage/buffer_pool.cpp:281-442 | an operation is carried out exactly when the pool does not refuse it, and changes pages and pins as it says |
| `PageCache.BufferPool.Execute` | src/storage/buffer_pool.cpp:281-442 | over every sequence of operations, each carried out exactly when it is not refused, pages change only by writes and allocations and pins only by pins and unpins |
| `PageCache.MissingFileServesOtherPage` | src/storage/buffer_pool.cpp:299-323 | pinning a page of a missing file serves another page's data |

## Left out

- Sockets, TLS, the event loop, the HTTP endpoint, the client, configuration, logging, metrics, authentication and cryptography: input and output around the core.
- The SQL parser, the printing of plans, the logical optimizer, the cost model and the plan cache: only the choice of an index probe is modelled from the planner.
- SSTable bytes, page padding, footers and the largest stored timestamp read from them: an SSTable is its sorted list of versions.
- Levels beyond level 1: a compaction is from level 0 to level 1; cascades and the shifting of level gaps are not modelled.
- Floating-point values: a value is NULL, a 64-bit integer or a byte string. The conversion of integers to double in comparisons is modelled; sums, averages, selectivity and statistics are absent.
- Clocks, timeouts, rate limits, randomness and I/O errors other than a missing page file.
- Serializable isolation: the read-set and table-counter checks of COMMIT are absent; a commit here is one that passes them.
- Interleavings inside one step: reading, locking and buffering one row, applying one commit to a table, and each buffer pool operation are atomic steps.
- Rows without a key column, and pure in-memory tables without storage.
- Tables whose writes arrive out of timestamp order for one key (`Store.InOrder`, `Snapshots.Fresh`): row locks and the commit mutex rule them out among explicit transactions. Auto-commit writes take neither, so two that overlap on one key are not covered.
- Comparison of values of different types in conditions and merge-join keys: the code raises an error, the model orders them by type.
- LIKE and arithmetic inside `Subqueries.Eval`: a binary function stands for arithmetic, LIKE has its own module.
- Unqualified references to outer columns and HAVING, GROUP BY, LIMIT inside subqueries: the rewrites refuse the latter, and the model gives them an arbitrary function of the values.
- `held_count`, statistics counters, `warmup` and `flush_page`: they would only add easy members.
- The per-follower outbox of the primary: a follower's stream is the concatenation of the frames sent to it.
- Rows of one key written twice with one timestamp, which only a moved key brings about, on a primary and its follower.
- Concurrency.StepKeepsOk: only explicit transactions write; auto-commit statements take no row lock, so the private-copy and exclusion theorems do not cover them.
- Concurrency.PrivateCopy: holds while the other transactions keep their keys, since `Concurrency.MovedKeyCrossesLock` shows it false otherwise; a statement is a sequence of row writes; that UPDATE and DELETE as a whole act on the view is stated by the lemmas of `Sessions`.
- Sessions.CommitInstallsViewIff: one table; the tables of a transaction are committed one after the other with the same timestamp.
- Recovery.RunKeeps: a run crashes only once the commit log exists; what happens before is `Recovery.WithoutCommitLogEverythingReplays`.
- Recovery.CrashRestoresSealedCommits: four conditions of `Recovery.Enabled` are not enforced by the code: no open commit has rows in a memtable that is flushed, no row was appended between a flush and the truncation of its table's log, none between the flushes of a CHECKPOINT and the truncation of the commit log, and no flush writes level 0 beside a compaction. `FlushIsSafeIff`, `TruncateWalIsSafeIff`, `TruncateLogIsSafeIff`, and `FlushDuringCompactionSafeIff` with `FlushBeforeManifestSafeIff` say exactly what happens without each. Appends are durable at once; `LostTailIsSafeIff` says what happens when they are not.
- Followers.FollowerShowsPrimaryState: one follower whose records arrive on one connection; reconnecting without a new copy of the data, and the catalog refresh after DDL, are not modelled.
- Followers.BootstrappedFollowerConverges: the copy was made before the first row of the stream; a row that arrives although the copy holds it is a second version with the same timestamp, which the model excludes.
- Joins.MergeJoin: the inputs are sorted; `std::stable_sort` is represented by any sorted permutation, and the match flags, which never influence the output, are not stored.
- IndexScan.RunKeepsOk: writes and rebuilds are steps of one thread.
- Decorrelation.ResolveKeepsFilter: subqueries nested in an uncorrelated subquery are evaluated by their meaning, not resolved again, and the nesting limit of eight is not modelled.
- PageCache.BufferPool.EvictFile: a page that is pinned while its file is replaced keeps its old content until it is given up; its content is then unspecified.
- GroupCommit.ProtocolIsSafe: liveness is not stated; a caller that never takes its next step blocks the others.
