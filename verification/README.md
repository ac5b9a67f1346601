# A verified model of OnCloudKV

OnCloudKV is a replicated key-value store: a Raft log feeds an LSM storage engine, and clients read
with a consistency mode of their choice. This project models the storage engine (memtable, tables,
compaction, write-ahead log), the state machine on top of it, the read router, the watch hub and the
batch writer, and proves what they promise over every run, or the exact condition under which they
keep it.

`dafny verify dfyconfig.toml` checks everything.

## How the model is laid out

| file | contents |
|---|---|
| Core.dfy | keys in byte order, entries, sorted entry lists and the maps they stand for |
| Skiplist.dfy | the memtable: a heap structure of nodes with forward arrays |
| Bytes.dfy, SSTable.dfy, TableIO.dfy, TableScan.dfy | the table format at byte level, writer, reader, scan |
| TableMerge.dfy | what reading past the data block does to merges and engine scans |
| Bloom.dfy | the bloom filter and its hash |
| Compaction.dfy | tier selection, merge, and the swap of the table list |
| Scan.dfy | scans over several layers |
| EngineRun.dfy | the engine as a state machine, and its run theorem |
| FaultyRuns.dfy | runs of that machine that end in a wrong read |
| Reapply.dfy | writes applied a second time to a running engine |
| Engine.dfy | the engine object; every method is proved to be one step of that state machine |
| Wal.dfy, GroupCommit.dfy, Recovery.dfy | log records, the group-commit protocol, crash recovery |
| Cluster.dfy, Router.dfy | replicated nodes, routed reads |
| FsmRun.dfy, Fsm.dfy | store and watch hub as one system, and the state machine object |
| Watch.dfy, Batch.dfy | watch hub and batch writer |

Objects that the program updates in place are classes whose methods are proved against functions of
the old state. The parts that interleave (flush against writes and compaction, callers against the
commit loop, nodes against the log) are state machines whose steps are the program's critical
sections; theorems about them quantify over every sequence of steps.

Reads are compared through what a reader can learn: a live value with its version, or nothing. The
value that stays behind a tombstone is forgotten, because deleting an existing memtable node keeps it
and deleting an absent key does not.

## Main results

* **Layered reads.** `LastWriteWins`: in every interleaving of writes with the steps of flushes and
  compactions, every key reads as in a plain last-write-wins map. Table writes may fail at any time; no
  flush may discard a leftover of a failed one that still shows something, and where compactions swap
  tables, each swap is safe for every key and versions grow from write to write, as log indexes do.
* **Compaction.** `CompactionExact`: a swap leaves what readers see of a key unchanged if and only if no
  kept table is newer than a live winner of the tier and, behind a dropped tombstone, the first kept
  entry is absent, newer or a tombstone. `FullTierIsSafe` gives the case that always qualifies;
  `ConcurrentRegisterGoesStale` and `DroppedTombstoneResurrects` are whole runs of the engine that do
  not. `OverlappingReadExact` is the same question for a read that overlaps the removal of files.
* **Memtable.** `Skiplist.Put`, `Delete`, `Get` and `Scan` refine a map for any level drawn; `LevelsNest`
  says that each level is an acyclic sorted list and a subsequence of the level below.
* **Files.** `RecordLayout`, `TableLayout` and `WalFormat.RecordLayout` give every field its bytes; `ReadExact`,
  `LoadExact` and `DecodesToExact` say exactly which bytes each reader takes for what.
* **Tables.** `WriteThenGet`: from entries to bytes and back through footer, index, filter, binary search
  and record. `ScanExact`: a scan is right if and only if nothing is at or after its start or the limit
  is positive and no larger than what is there; otherwise it decodes index bytes as records.
  `TierReadAsBytes` says exactly when those records matter to a compaction.
* **Engine scans.** `LimitedScanExact`: a scan with a limit shows of a key what a read shows if and only if
  the first layer holding the key has it before its own cut, or the layers behind it show the same.
  `ScanOfBytesExact` adds what is decoded behind the data blocks of the tables, for any limit.
* **Durability.** `CrashKeepsAcknowledged` and `CrashRecovery`: at any moment of any interleaving,
  wherever between the synced and the flushed length a crash cuts the file, every acknowledged write is
  recovered. `CrashPreservesReads` adds that with one writer at a time, no failed append so far and an
  engine run as in `LastWriteWins`, reads come back as they were, or with the one write in flight applied.
* **Replication.** `NodesShowTheirPrefix` and `NodesAgree`: in every run in which appends succeed, engines
  run as above and snapshots are installed on nodes without tables, a node shows the fold of the log
  prefix it applied. `ReadYourWritesHolds` and `MonotonicReadsHold` carry this to reads whose wait ended at
  a poll taken along the run, whichever key the index waited for came from; `GetAtNode` to the router's
  own answer. `CommittedIsRead`: from any point of a run a committed write is read at every node that
  applies the log to its end.
* **Applying again.** `ReapplyShowsAll`: writes applied a second time, among any flushes and safe swaps, end
  with the reads that all the writes leave, under a condition on the engine at the start only. It holds
  after recovery and after installing a snapshot, the two places where the program applies entries again
  (`ReapplyAfterOpen`, `ReapplyAfterRestore`). `LineSwapExact` extends `CompactionExact` to the table
  lists that then occur, which are not newest first.
* **Watching.** `FollowExact`: over any run without a restore a watcher that loses nothing agrees with the
  store on a key if and only if it agreed before or the key was written since. `LossExact`: it loses
  something if and only if a write under its prefix comes while 64 of its events wait to be received.
  `RestoreForWatchers` says what a restore does to that.
* **Restore and failures.** `RestoreExact`, `RotateOverLeftover`, `FailedApplyExact`, `HonestExact` and
  `CrashAfterRestoreExact` say exactly when these operations keep what they are meant to keep.

## Where the code does less than its comments say

* Compaction is described as keeping tables newest first; the merged table goes to the front whatever
  is newer, and tombstones are dropped whatever is behind them
  (internal/storage/compaction/compaction.go:118, 212-214, `ConcurrentRegisterGoesStale`,
  `DroppedTombstoneResurrects`, `CompactionExact`).
* Tier selection is described as finding the largest group of similar sizes; it takes the group of the
  smallest table (internal/storage/compaction/compaction.go:147-154, `SmallTableBlocksTier`,
  `LargestTierExact`).
* A table scan has no end of data. An unlimited scan that finds any key also returns at least one record
  made of index bytes, carrying the first key, an empty value and, if there is a second entry, the length
  of its key as version. In a compaction such records can replace older entries (`MergeLosesFirstEntry`,
  `TierReadAsBytes`). In an engine scan the first of them is harmless if the scan starts at the table's
  first key (`FirstSpuriousHarmless`), and otherwise comes back as a key below the prefix
  (`ScanReturnsForeignKey`, `ScanOfBytesExact`).
* An engine scan is described as returning up to `limit` entries; the limit cuts every layer separately,
  which can bring back stale versions and more entries than the limit (`LimitedScanIsStale`,
  `LimitedScanOverflows`, `LimitedScanExact`, `LimitedScanSize`).
* Restore is described as replacing all engine data; it replaces the active memtable
  (internal/storage/engine.go:236-246, `RestoreOverTables`, `RestoreExact`). It reaches neither the log
  (`RestoredThenLost`, `CrashAfterRestoreExact`) nor the watchers (`RestoreUnheard`, `RestoreForWatchers`).
* The table header comment gives the footer 16 bytes; it has 24 (internal/storage/sstable/sstable.go:2, 18).
* The skiplist says that writers take only node-level locks; it has one lock for the whole list
  (internal/storage/skiplist/skiplist.go:28, 60).
* The batch writer says that writes share one log entry; each command is proposed by itself
  (internal/consensus/batch.go:26-28, 71-77).
* A negative session index or version becomes a huge unsigned one, so that such a read waits until it is
  cancelled (internal/consistency/router.go:53, 57, `WaitCanEnd`).
* Opening a log does not cut a torn tail, so later records can be lost behind it (`TornHeaderLosesRecord`,
  `AppendAfterTornTail`).
* Requests still queued when the log is closed are never answered (`CloseStrandsRequest`,
  `StoppedNeverAnswers`, `CloseAnswersExact`), and an append after that panics (`AppendPanicsExact`).
* The batch writer says that stopping drains pending writes; what is still in its channel is left there
  without a reply (internal/consensus/batch.go:103-110, `StopStrandsRequest`, `StoppedRepliesExact`).
* The two hashes of the bloom filter are called independent; the second is a one-to-one function of the
  first (internal/storage/bloom/bloom.go:60, 71-73, `HashesCollideTogether`).
* A write that the engine's log refuses is skipped on that node while its applied index moves on
  (`FailedApplyExact`). The batch writer reports the state machine's error to its client as a success with
  version 0 (internal/consensus/batch.go:82-84, `RefusedPutReportedAsSuccess`, `HonestExact`).

## Model

| member | source | states |
|---|---|---|
| `Core.LessExact` | internal/storage/skiplist/skiplist.go:67-67 | keys are compared by the first byte in which they differ, a proper prefix being the smaller key |
| `SkiplistModel.Skiplist.Descend` | internal/storage/skiplist/skiplist.go:63-71 | the shared search stays in bounds, terminates, splits the keys at the right place and remembers the last node of every level before it |
| `SkiplistModel.Skiplist.Put` | internal/storage/skiplist/skiplist.go:59-96 | the list stays well linked on every level and its map is the old map with the key set; length and memory size grow only for a new key, by one and by key, value and 24 bytes |
| `SkiplistModel.Skiplist.InsertNode` | internal/storage/skiplist/skiplist.go:81-95 | splicing a node of any level in after the remembered nodes keeps all links and adds exactly its entry |
| `SkiplistModel.Skiplist.Splice` | internal/storage/skiplist/skiplist.go:89-93 | exactly one pointer per level of the new node is redirected, and the new node takes over its old target |
| `SkiplistModel.Skiplist.Delete` | internal/storage/skiplist/skiplist.go:99-120 | the key becomes a tombstone that keeps an old value if there was one; other keys and the accounts as for Put with an empty value |
| `SkiplistModel.Skiplist.FindNode` | internal/storage/skiplist/skiplist.go:122-134 | finds the key's node, or nil exactly when the map lacks the key |
| `SkiplistModel.Skiplist.Get` | internal/storage/skiplist/skiplist.go:137-152 | returns the map's entry for the key, or none |
| `SkiplistModel.Skiplist.Scan` | internal/storage/skiplist/skiplist.go:155-180 | returns entries with start <= key, and key < end unless end is empty, in key order and at most a positive limit of them; one is left out only when that many come before it |
| `SkiplistModel.ScanIsFirst` | internal/storage/skiplist/skiplist.go:155-180 | the same for any sorted list |
| `SkiplistModel.Skiplist.All` | internal/storage/skiplist/skiplist.go:183-194 | returns every entry in key order |
| `SkiplistModel.LevelsNest` | internal/storage/skiplist/skiplist.go:21-25 | following any level's pointers from the head visits a finite strictly sorted list that ends in nil; the level above is a subsequence of it and level 0 holds every node |
| `SkiplistModel.LengthCountsKeys` | internal/storage/skiplist/skiplist.go:197-201 | the length field is the number of distinct keys |
| `BloomFilter.Filter.Add` | internal/storage/bloom/bloom.go:39-45 | turns on exactly the probed bits of the key and no others, with every index in bounds under wrapping arithmetic, so that every key added so far has all its bits on |
| `BloomFilter.Filter.Contains` | internal/storage/bloom/bloom.go:49-58 | answers yes if and only if each probe (h1 + i h2, modulo 2^64 and the size) falls on a probe of some added key: always for an added key, never for an empty filter |
| `FnvHash.Hash` | internal/storage/bloom/bloom.go:61-75 | the loop computes the two hashes that the filter probes with, wrapping at 64 bits |
| `FnvHash.FnvSteps` | internal/storage/bloom/bloom.go:62-70 | the first hash is FNV-1a: its starting value and its step, with the numbers |
| `FnvHash.MixedSteps` | internal/storage/bloom/bloom.go:71-73 | the second hash folds by 33 bits, multiplies by its constant and folds again |
| `FnvHash.XorBit` | internal/storage/bloom/bloom.go:68-73 | the exclusive or has exactly the bits in which the numbers differ |
| `FnvHash.OneByteSeparates` | internal/storage/bloom/bloom.go:61-70 | two keys of the same length that differ in one byte never share their first hash |
| `FnvHash.HashesCollideTogether` | internal/storage/bloom/bloom.go:60-75 | two keys share their second hash if and only if they share their first |
| `BigEndian.DecodeEncode` | internal/storage/sstable/sstable.go:61-69 | a number that fits its field is read back |
| `BigEndian.SignedRoundTrip` | internal/storage/sstable/sstable.go:242-242 | a signed version survives the unsigned field, which holds it modulo 2^64 |
| `BigEndian.Get32Is` | internal/storage/sstable/sstable.go:224-224 | a 32-bit field is read most significant byte first |
| `BigEndian.Get64Is` | internal/storage/sstable/sstable.go:242-242 | a 64-bit field likewise |
| `TableFormat.EntryRoundTrip` | internal/storage/sstable/sstable.go:219-245 | a record is read back entry for entry, whatever bytes follow it |
| `TableFormat.RecordLayout` | internal/storage/sstable/sstable.go:55-76 | where key, value, version and flag of a record stand and what their bytes are |
| `TableFormat.ReadExact` | internal/storage/sstable/sstable.go:219-244 | a record is read from the front of bytes, with the rest left over, if and only if the bytes are that record, with any last byte that is 1 exactly for a tombstone, and the rest |
| `TableFormat.IndexRoundTrip` | internal/storage/sstable/sstable.go:167-177 | parsing an index block gives back the index |
| `TableFormat.IndexEntryLayout` | internal/storage/sstable/sstable.go:86-92 | where key and offset of an index entry stand |
| `TableFormat.ParseExact` | internal/storage/sstable/sstable.go:165-178 | the parser accepts a block if and only if it is the block of the index it returns |
| `TableFormat.TableLayout` | internal/storage/sstable/sstable.go:82-118 | data block, index block, then start, length, number of entries and magic number in the last 24 bytes |
| `TableIO.Writer.Write` | internal/storage/sstable/sstable.go:55-79 | file, index, offset and count stay those of the entries written, with this one appended |
| `TableIO.Writer.Record` | internal/storage/sstable/sstable.go:58-73 | the buffer filled at moving positions is the record's encoding |
| `TableIO.Writer.Close` | internal/storage/sstable/sstable.go:82-118 | the file is data block, index block and footer of the entries written |
| `TableIO.ParseIndexBlock` | internal/storage/sstable/sstable.go:167-177 | the parse loop computes the index, or fails where the program would run past the buffer |
| `TableIO.LoadTable` | internal/storage/sstable/sstable.go:143-178 | loading a written table recovers the writer's index and count |
| `TableIO.LoadExact` | internal/storage/sstable/sstable.go:143-178 | a file opens with an index and a count if and only if it ends in 24 bytes with the magic number that name the count and a place holding the block of that index |
| `TableIO.OpenReader` | internal/storage/sstable/sstable.go:129-185 | opening fails exactly when the file holds no such footer and index; on a written table the reader has its index and count and a filter holding exactly the indexed keys |
| `TableIO.Reader.Search` | internal/storage/sstable/sstable.go:193-208 | the binary search finds the key's position, or -1 only if no entry has the key |
| `TableIO.Reader.Get` | internal/storage/sstable/sstable.go:188-217 | a lookup returns exactly the entry written under the key, or a miss |
| `TableIO.WriteThenGet` | internal/storage/sstable/sstable.go:46-245 | end to end through the real hash, for every sorted entry list whose sizes fit their fields, every key and any filter size |
| `TableScan.Scan` | internal/storage/sstable/sstable.go:248-271 | the scan starts at the first key at or after its start and reads the byte stream from there |
| `TableScan.SpuriousRecord` | internal/storage/sstable/sstable.go:260-269 | behind the data of every table that is not empty one more record decodes: the first key, no value, as version the length of the second key and deleted if that key starts with byte 1; for a single entry both come from the length of the data block |
| `TableScan.ScanExact` | internal/storage/sstable/sstable.go:247-271 | the wanted entries are a prefix of the result, and equal to it if and only if there are none or 0 < limit <= their number |
| `TableScan.ScanUnlimited` | internal/storage/sstable/sstable.go:248-271 | without a limit a scan returns the entries from its start on followed by everything decoded behind the data |
| `TableScan.ScanLimited` | internal/storage/sstable/sstable.go:248-271 | a limit cuts that short wherever it falls, among the entries or behind them |
| `TableScan.OneRecordTrails` | internal/storage/sstable/sstable.go:260-269 | if bytes 1 to 4 of the second key, read as a length, exceed what is left, exactly one record trails, and the first two keys tell which |
| `TableMerge.MergeTables` | internal/storage/compaction/compaction.go:182-220 | scanning every table of the tier and merging gives the live newest entry of every key among entries and trailing records |
| `TableMerge.BestBoth` | internal/storage/compaction/compaction.go:190-202 | what the merge keeps of a key is the tier's newest entry, unless a trailing record is newer, or as old and read from an earlier table |
| `TableMerge.MergeOfScansExact` | internal/storage/compaction/compaction.go:190-202 | reading the trailing records leaves what is kept of a key if and only if none overrides the right entry or the one that does shows the same |
| `TableMerge.OneTableExact` | internal/storage/compaction/compaction.go:197-201 | for one table: nothing trails under the key, what trails is no newer, or it is a tombstone and nothing was shown |
| `TableMerge.ScannedSwapExact` | internal/storage/compaction/compaction.go:84-127 | a swap for a merge that kept any given entry leaves the view of a key if and only if a condition on that entry, the tier's newest and the first kept one holds |
| `TableMerge.TierReadAsBytes` | internal/storage/compaction/compaction.go:84-222 | the same for the merge of the scans of written tables, with what it kept given by the entries and trailing records |
| `TableMerge.MergeLosesFirstEntry` | internal/storage/compaction/compaction.go:190-202 | merging what an unlimited scan of a table returns loses a first entry whose version is below the length of the second key |
| `TableMerge.ScanLayers` | internal/storage/engine.go:184-227 | the engine's scan with any limit over table bytes shows the cut slices of all layers and a tail per table, the first entry of a key seen winning |
| `TableMerge.ScanOfBytesExact` | internal/storage/engine.go:199-219 | such a scan shows of a key what a read shows, and nothing below the prefix, if and only if the tail entry that comes before every slice shows that, or there is none and the condition of LimitedScanExact holds |
| `TableMerge.FirstSpuriousHarmless` | internal/storage/engine.go:209-217 | the trailing copy of a table's first key never counts when the scan starts at that key |
| `TableMerge.ScanReturnsForeignKey` | internal/storage/engine.go:204-217 | a scan that starts behind a table's first key returns that key although it is below the prefix |
| `CompactionModel.SelectTier` | internal/storage/compaction/compaction.go:129-156 | for files that are not empty, the tier is the group of tables within a factor of ten of each other that holds every such group with a smallest table: the tables at most ten times the smallest, each once, smallest first |
| `CompactionModel.SmallTableBlocksTier` | internal/storage/compaction/compaction.go:147-154 | one small table keeps four equal larger ones out of the tier |
| `CompactionModel.LargestTierExact` | internal/storage/compaction/compaction.go:147-155 | the tier is a largest group of similar sizes if and only if no table anchors more tables between its size and ten times it than a smallest one does |
| `CompactionModel.Merge` | internal/storage/compaction/compaction.go:188-220 | the output is strictly sorted and holds exactly the live highest-version entry of every key read |
| `CompactionModel.MergeIsMerged` | internal/storage/compaction/compaction.go:182-220 | for sorted tables that output is the merged table used by the swap results |
| `CompactionModel.BestExact` | internal/storage/compaction/compaction.go:190-200 | the entry a merge keeps of a key is, of those with the highest version, the first one read |
| `CompactionModel.MergeOrderIrrelevant` | internal/storage/compaction/compaction.go:145-202 | the merged table does not depend on the order of the tier if entries of equal key and version agree |
| `CompactionModel.Compactor.Register` | internal/storage/compaction/compaction.go:44-48 | readers see the new table in front of the old ones |
| `CompactionModel.Compactor.Begin` | internal/storage/compaction/compaction.go:84-98 | that tier if it has four tables, and none if and only if no four tables of similar sizes include a smallest one |
| `CompactionModel.Compactor.MergeTier` | internal/storage/compaction/compaction.go:158-222 | the merged file stands for the winners of the tier |
| `CompactionModel.Compactor.Swap` | internal/storage/compaction/compaction.go:106-124 | readers see the merged table followed by the tables not in the tier, in their order; the tier's files are gone and the merged one is there |
| `CompactionModel.CompactionExact` | internal/storage/compaction/compaction.go:84-127 | with tables newest first, what readers see of a key is unchanged if and only if the swap is safe for the key |
| `CompactionModel.CompactionKeepsOrder` | internal/storage/compaction/compaction.go:118-118 | a safe swap leaves the tables newest first |
| `CompactionModel.FullTierIsSafe` | internal/storage/compaction/compaction.go:112-118 | a swap of all tables, nothing registered meanwhile, is safe for every key |
| `CompactionModel.OverlappingReadExact` | internal/storage/engine.go:158-176 | a read that took the table list before a swap and opens files after it sees the old view exactly if the tier lacks the key, a kept entry is at least as new as its winner, or the winner is a tombstone and no kept entry shows |
| `ScanModel.Gather` | internal/storage/engine.go:184-227 | the result holds, once each, exactly the keys that a first-layer-wins read of the slices finds live |
| `ScanModel.UnlimitedScanAgreesWithReads` | internal/storage/engine.go:179-228 | without a limit the result is exactly the keys at or above the prefix that reads find, with their entries |
| `ScanModel.LimitedScanIsStale` | internal/storage/engine.go:194-204 | with a limit a scan can return an older version than a read does |
| `ScanModel.SliceHas` | internal/storage/engine.go:194-204 | a layer contributes exactly the keys at or above the prefix with fewer than limit entries in front of them |
| `ScanModel.LimitedScanExact` | internal/storage/engine.go:179-228 | a scan with any limit shows of a key what a read shows if and only if the first layer holding it has it before its cut or the layers behind show the same |
| `ScanModel.ClippedLiveKeyIsWrong` | internal/storage/engine.go:194-204 | with layers strictly newer in front, a live key whose newest entry is cut off is never returned as a read returns it |
| `ScanModel.LimitedScanSize` | internal/storage/engine.go:221-227 | the result has as many entries as the cut layers show keys, so at most limit exactly when those are; it has at most limit times the number of layers |
| `ScanModel.OneLayerKeepsLimit` | internal/storage/engine.go:179-228 | with entries from the prefix on in one layer only the result keeps the limit |
| `ScanModel.LimitedScanOverflows` | internal/storage/engine.go:194-204 | two layers with a key each: a scan limited to one entry returns two |
| `EngineRun.StepKeepsView` | internal/storage/engine.go:263-306 | no step of a flush, failed or not, and no swap changes what any key reads as, if the flush discards no needed leftover and the swap is safe |
| `EngineRun.LastWriteWins` | internal/storage/engine.go:111-177 | in every run without unsafe swaps or discarded leftovers that show something, and with growing versions if there are swaps, every key reads as in a last-write-wins map of the writes, whichever table writes fail |
| `EngineRun.FullSwapIsBenign` | internal/storage/compaction/compaction.go:106-119 | in such a run a swap of all tables is always safe |
| `FaultyRuns.ConcurrentRegisterGoesStale` | internal/storage/compaction/compaction.go:106-118 | a run with growing versions: four tables are merged, a fifth write of the key is flushed meanwhile, and the swap shows version 4 where reads showed 5 |
| `FaultyRuns.StaleTier` | internal/storage/compaction/compaction.go:147-155 | the file sizes of that run select exactly that tier |
| `FaultyRuns.SizeIsLength` | internal/storage/sstable/sstable.go:55-118 | the sizes used there are the lengths of the tables as written |
| `FaultyRuns.DroppedTombstoneResurrects` | internal/storage/compaction/compaction.go:211-214 | a run with growing versions: a value is deleted, four tables of tombstones are compacted, and the value is back |
| `FaultyRuns.DropTier` | internal/storage/compaction/compaction.go:147-155 | with a value long enough the file sizes of that run select exactly that tier |
| `EngineRun.RotateOverLeftover` | internal/storage/engine.go:264-271 | a flush that finds a leftover immutable memtable keeps reads exactly when every key it alone holds reads the same from the tables |
| `EngineRun.FailedFlushLosesWrites` | internal/storage/engine.go:269-293 | after a failed table write, another write and another flush lose every key the first flush carried alone |
| `EngineRun.RestoreExact` | internal/storage/engine.go:236-246 | after a restore reads show exactly the snapshot if and only if no lower layer shows a key outside it |
| `FaultyRuns.RestoreOverTables` | internal/storage/engine.go:241-244 | a run that flushes a put, then a restore of the empty snapshot taken after the delete: the key comes back from the table |
| `EngineModel.Engine.Put` | internal/storage/engine.go:112-129 | a logged put is the machine's write step, a refused one changes nothing; a flush is asked for at the size threshold |
| `EngineModel.Engine.Delete` | internal/storage/engine.go:132-141 | a logged delete is the machine's write step, a refused one changes nothing |
| `EngineModel.Engine.Get` | internal/storage/engine.go:144-177 | returns the first layer's entry of the key, or an empty one; found exactly when the machine's view shows the key, with that value and version |
| `EngineModel.Engine.Rotate` | internal/storage/engine.go:264-271 | first critical section of a flush: the machine's rotate step, or nothing for an empty memtable |
| `EngineModel.Engine.WriteTable` | internal/storage/engine.go:273-297 | the file holds the immutable memtable's entries; readers see no change |
| `EngineModel.Engine.RegisterTable` | internal/storage/engine.go:298-298 | the machine's register step |
| `EngineModel.Engine.ClearImmutable` | internal/storage/engine.go:300-302 | the machine's clear step |
| `EngineModel.Engine.Flush` | internal/storage/engine.go:263-306 | a successful flush leaves every key's view unchanged if it discards no needed leftover, and nothing pending; a failed one leaves the immutable memtable set, an empty one changes nothing |
| `EngineModel.Engine.BeginMerge` | internal/storage/compaction/compaction.go:84-98 | choosing a tier is the machine's begin step; nothing changes if and only if no four tables of similar sizes include a smallest one |
| `EngineModel.Engine.SwapMerged` | internal/storage/compaction/compaction.go:100-124 | merging the tier and swapping it is the machine's swap step, whatever was registered meanwhile |
| `EngineModel.Engine.Scan` | internal/storage/engine.go:180-228 | the result is that of the layers' slices; it holds nothing below the prefix, agrees with a read of a key exactly under the condition of LimitedScanExact, and has at most limit entries per layer |
| `EngineModel.Engine.Snapshot` | internal/storage/engine.go:231-234 | the entries are live, of distinct keys, and show exactly what reads show |
| `EngineModel.Engine.Restore` | internal/storage/engine.go:237-246 | only the active memtable changes: it becomes the entries, all live |
| `EngineModel.Engine.ReplayInto` | internal/storage/engine.go:95-106 | replaying writes into an empty memtable gives their fold |
| `EngineModel.SnapshotRoundTrip` | internal/storage/engine.go:230-246 | restoring a snapshot into an engine without tables gives the reads of the engine it came from |
| `WalFormat.ReadAll` | internal/storage/wal/wal.go:150-183 | the loop returns the records up to the end of whole records or the first checksum mismatch |
| `WalFormat.RecordLayout` | internal/storage/wal/wal.go:137-147 | length in bytes 0 to 3, checksum in bytes 4 to 7, then the payload |
| `WalFormat.WholeIs` | internal/storage/wal/wal.go:163-181 | the count of whole records is the one whose encoding still fits before the cut |
| `WalFormat.TruncatedReplay` | internal/storage/wal/wal.go:137-183 | for every cut of a log's encoding, replay returns exactly the records wholly before it |
| `WalFormat.CorruptReplay` | internal/storage/wal/wal.go:177-179 | when a record's checksum fails, exactly the records before it are returned, with the error |
| `WalFormat.AppendAfterTornTail` | internal/storage/wal/wal.go:46-64 | however much of a record a tear left, the records appended behind it are recovered and nothing else is if and only if the torn bytes and what follows start with their encoding and hold no record after it |
| `WalFormat.DecodesToExact` | internal/storage/wal/wal.go:150-183 | replay returns given records if and only if their encoding is in front of the bytes and no record follows it |
| `WalFormat.TornTailEndsLog` | internal/storage/wal/wal.go:46-64 | replay ends at the tear if and only if what is there does not read as a record whose length fits and whose checksum matches |
| `WalFormat.HeaderDecides` | internal/storage/wal/wal.go:163-179 | with a whole header left, recovery needs a first appended record of the torn one's length and checksum |
| `WalFormat.TornHeaderLosesRecord` | internal/storage/wal/wal.go:46-64 | a record of two bytes torn behind its header loses a record of one byte appended to it |
| `WalFormat.PayloadTornTail` | internal/storage/wal/wal.go:163-179 | for a tear in the payload that is: too few bytes follow or they do not carry the torn record's checksum |
| `WalFormat.CleanTail` | internal/storage/wal/wal.go:46-64 | with nothing left of the torn record everything appended is recovered |
| `GroupCommit.GroupCommitSafe` | internal/storage/wal/wal.go:68-135 | in every interleaving answers come in queue order and once each, a positive one means synced, and the stream is a prefix of the queue |
| `GroupCommit.CrashKeepsAcknowledged` | internal/storage/wal/wal.go:66-183 | at any moment and for any cut between the synced and the flushed length, replay returns the old log and a prefix of the queue that holds every acknowledged record |
| `GroupCommit.StoppedNeverAnswers` | internal/storage/wal/wal.go:90-102 | once the loop has stopped, what is pending is never answered |
| `GroupCommit.StoppedAnswersExact` | internal/storage/wal/wal.go:84-135 | once the loop has stopped every request has its answer if and only if none was left in the queue |
| `GroupCommit.CloseAnswersExact` | internal/storage/wal/wal.go:84-135 | once the loop has stopped every request has its answer if and only if the queue was empty at the close |
| `GroupCommit.CloseSyncsAll` | internal/storage/wal/wal.go:186-199 | after the sync of a close the whole file is synced, and replay returns the log found at open and every request answered since |
| `GroupCommit.HealthyRun` | internal/storage/wal/wal.go:106-134 | in a run in which no write, flush or sync fails every answer is positive |
| `GroupCommit.AppendPanicsExact` | internal/storage/wal/wal.go:68-81 | in every run an append panics if and only if the log was closed before, and otherwise is queued |
| `GroupCommit.CloseStrandsRequest` | internal/storage/wal/wal.go:88-102 | a record appended just before the close stays in the queue of the stopped loop |
| `GroupCommit.Wal.Enqueue` | internal/storage/wal/wal.go:68-79 | queueing on an open log is the protocol's append step and keeps its invariant; on a closed one it panics |
| `GroupCommit.Wal.CommitRound` | internal/storage/wal/wal.go:98-133 | one round answers the whole queue in order with one result, positive only if every write, the flush and the sync worked, and then everything is synced |
| `Recovery.Open` | internal/storage/engine.go:54-109 | the engine opened on a file holds the fold of the decodable records of its replay and no tables, and shows exactly that |
| `Recovery.SkipsUndecodable` | internal/storage/engine.go:95-99 | a record that does not decode costs itself only: the writes before and behind it are replayed |
| `Recovery.CrashRecovery` | internal/storage/engine.go:89-141 | the recovered view is the fold of the old log and a prefix of the queued writes that includes every acknowledged one |
| `Recovery.SerialCrashRecovery` | internal/storage/engine.go:89-141 | with one writer at a time and no failed append the recovered writes are the acknowledged ones, or those and the one in flight |
| `Recovery.CrashPreservesReads` | internal/storage/engine.go:89-177 | under the same conditions, if the engine ran as for LastWriteWins through any flushes and swaps, reads after a crash are those before it or those with the write in flight applied |
| `Recovery.CrashAfterRestoreExact` | internal/storage/engine.go:236-246 | reads after a crash are those after a restore exactly for the keys whose reads the restore left as they were |
| `Recovery.RestoredThenLost` | internal/storage/engine.go:236-246 | a fresh node that installed a snapshot and crashed shows none of it |
| `Cluster.FoldIsLastWrite` | internal/consensus/fsm.go:59-82 | what a log leaves under a key is its last write to the key, with the log index as version |
| `Cluster.NodesShowTheirPrefix` | internal/consensus/fsm.go:47-117 | in every run of commits, applies, flushes, compactions and snapshots installed on nodes without tables, in which no needed leftover is discarded and swaps are safe, each node shows the fold of the prefix it applied |
| `Cluster.NodesAgree` | internal/consensus/fsm.go:33-35 | in such a run nodes with the same applied index agree on every key |
| `Cluster.CommittedIsRead` | internal/consensus/fsm.go:48-88 | in every run, a put committed at any point is read, with its value and log index, at any node that applies the log to its end, and a deleted key is not |
| `Cluster.ResponseExact` | internal/consensus/fsm.go:48-88 | an entry gets its index back as version if and only if it is a write that the engine logged, and no response if and only if it is no command |
| `Cluster.FailedApplyExact` | internal/consensus/fsm.go:63-77 | a node whose log refused an entry still shows its prefix exactly when the entry was no write or deleted a key not shown |
| `Cluster.ReplayIdempotent` | internal/consensus/fsm.go:59-82 | applying any suffix of the writes again gives the same map |
| `Reapply.ReapplyKeepsView` | internal/storage/skiplist/skiplist.go:73-79 | applying any suffix of the writes again in the middle of a run ends with the reads before: with no swaps meanwhile always, and with any safe swaps if versions grew and of a key written again the engine holds its final cell or entries older than the first repeated write |
| `Reapply.ReapplyShowsAll` | internal/consensus/fsm.go:47-88 | from any engine that is ready for the writes from i on, applying them among any flushes and safe swaps ends with the reads that all the writes leave |
| `Reapply.ReapplyAfterOpen` | internal/storage/engine.go:67-109 | an engine that recovered all writes from its log is ready for every suffix of them: its reads are the same afterwards |
| `Reapply.ReapplyAfterRestore` | internal/consensus/fsm.go:104-117 | an engine without tables that holds a snapshot of the first i writes is ready for the rest |
| `Reapply.LineSwapExact` | internal/storage/compaction/compaction.go:106-118 | for tables whose entries older than the final cell of a key stand newest first, with copies of that cell anywhere, and whose reads show it: a swap leaves that so if and only if it is safe for the key |
| `Reapply.SwapKeepsLine` | internal/storage/compaction/compaction.go:106-118 | and a safe swap leaves the tables in that order |
| `FsmModel.Fsm.Apply` | internal/consensus/fsm.go:48-88 | a put or delete that was logged is written at version index, listed and announced with key, value (none for a delete) and index; everything else changes nothing; the response is the index if and only if a write was added, nothing for entries that are no commands and an error otherwise |
| `FsmModel.Fsm.Snapshot` | internal/consensus/fsm.go:96-101 | the snapshot shows exactly what the store shows |
| `FsmModel.Fsm.Restore` | internal/consensus/fsm.go:104-117 | the store's memtable becomes the snapshot; the hub and its channels stay as they are |
| `FsmRun.StoreIsFold` | internal/consensus/fsm.go:47-88 | in every run without a restore the store shows the fold of its start and the writes carried out, and the hub announced exactly those |
| `FsmRun.SafeIsCourse` | internal/consensus/fsm.go:47-88 | entries applied in the order of their indexes, with flushes and safe swaps, make such a run, and the tables stay newest first along it |
| `FsmRun.FollowExact` | internal/consensus/fsm.go:61-82 | over any run without a restore a watcher that follows agrees with the store on a key if and only if it did before or the key was written since |
| `FsmRun.LossExact` | internal/watch/hub.go:71-79 | over any run a subscription loses an event if and only if a write under its prefix is carried out while 64 of its events wait to be received |
| `FsmRun.FirstEventsArrive` | internal/watch/hub.go:46-55 | as long as at most 64 matching events follow a subscription, all are in its stream, received or not |
| `FsmRun.WatcherRebuildsStore` | internal/consensus/fsm.go:61-82 | replaying the stream since subscription on what the store showed then gives what the store shows under the prefix |
| `FsmRun.RestoreForWatchers` | internal/consensus/fsm.go:104-117 | after a restore and any further run a watcher agrees on a key if and only if the restore left its reads alone or the key was written since |
| `FsmRun.RestoreUnheard` | internal/consensus/fsm.go:104-117 | a key is put under the eyes of a watcher and lost to a restore that the watcher does not hear of |
| `Router.WaitForIndex` | internal/consistency/router.go:85-101 | ready at the first poll that sees the index, cancelled at the first cancelled poll before that, waiting otherwise |
| `Router.Get` | internal/consistency/router.go:46-68 | eventual and unrecognised modes always read, strong ones exactly if the node leads; the others read exactly if the session index or minimum version, as an unsigned number, is 0 or a poll sees it reached first, fail exactly if a poll is cancelled first and wait otherwise; a read returns what the engine shows |
| `Router.WaitCanEnd` | internal/consistency/router.go:52-59 | some sequence of reported log indexes ends the wait if and only if the session index or version is not negative |
| `Router.PrefixReadExact` | internal/consistency/router.go:84-94 | a node's answer is recent enough for a known write exactly when its state machine has consumed it |
| `Router.ReadYourWritesHolds` | internal/consistency/router.go:52-68 | in every such run, at every node, a read whose wait for the index of a session's last write, to any key, ended at a poll taken along the run is recent for every write to its own key up to that index: a version at least that, or nothing because of a delete at or after it |
| `Router.MonotonicReadsHold` | internal/consistency/router.go:56-68 | a read whose wait for the highest version seen of any key ended at such a poll never goes behind a version of its own key seen earlier at any node |
| `Router.GetAtNode` | internal/consistency/router.go:46-68 | the router's own answer at a node of a run, if it gives one, is recent for every write to the key up to the session index or minimum version |
| `WatchHub.Hub.Subscribe` | internal/watch/hub.go:46-54 | a new number, an empty open channel starting at the present |
| `WatchHub.Hub.Unsubscribe` | internal/watch/hub.go:57-64 | closes an open channel, and nothing else |
| `WatchHub.Hub.Notify` | internal/watch/hub.go:68-80 | every open channel with a prefix of the key gets the event behind the others if fewer than 64 wait to be received and loses it otherwise; the others are untouched; every stream stays good |
| `WatchHub.Hub.Receive` | internal/watch/hub.go:47-47 | the subscriber gets the oldest event not yet received, which then counts as received |
| `WatchHub.OfferAll` | internal/watch/hub.go:71-79 | the loop over the subscriptions gives the same result in any order |
| `WatchHub.OfferKeepsGood` | internal/watch/hub.go:71-79 | a stream stays an in-order subsequence of the matching events since subscription, all of them if none was dropped, which takes more than 64 of them, with at most 64 buffered |
| `WatchHub.StreamRebuildsPrefix` | internal/watch/hub.go:44-80 | replaying a complete stream on the state at subscription gives the state restricted to the prefix |
| `BatchWriter.BatchSafe` | internal/consensus/batch.go:57-108 | in every run replies come in channel order and once each, returned versions are the log indexes of the own commands and grow, fewer than 256 requests wait, and a stopped loop has answered all it took |
| `BatchWriter.FullBatchExact` | internal/consensus/batch.go:92-99 | in every run a request taken joins the pending ones; the 256th flushes them all and no other does |
| `BatchWriter.FlushReplies` | internal/consensus/batch.go:71-88 | the reply to a pending request is an error if and only if no response came back for it |
| `BatchWriter.StoppedRepliesExact` | internal/consensus/batch.go:103-114 | once the loop has stopped every submitted request has its reply if and only if the channel is empty |
| `BatchWriter.StoppedNeverReplies` | internal/consensus/batch.go:103-105 | what is in the channel of a stopped loop is never answered |
| `BatchWriter.StopStrandsRequest` | internal/consensus/batch.go:103-105 | a command submitted and not taken when the loop stops is left in the channel |
| `BatchWriter.HonestExact` | internal/consensus/batch.go:77-87 | in every run a reply without an error is for a command in the log, and the state machine carried it out if and only if the reply has a version |
| `BatchWriter.CarriedOutExact` | internal/consensus/fsm.go:48-88 | carried out means: applying the entry adds a write to those the state machine carried out |
| `BatchWriter.RefusedPutReportedAsSuccess` | internal/consensus/batch.go:82-84 | a put whose append the leader's engine refuses: the client is told of no error and the leader no longer shows what the log says |
| `BatchWriter.RefusedPutRun` | internal/consensus/batch.go:82-84 | one submission, one request taken and one tick lead there |
| `BatchWriter.Writer.Flush` | internal/consensus/batch.go:64-90 | the loop proposes and answers every pending request in order and empties the list |
| `BatchWriter.Writer.ReceiveOne` | internal/consensus/batch.go:94-99 | taking a request flushes exactly when the batch is full |
| `BatchWriter.Writer.Shutdown` | internal/consensus/batch.go:103-105 | stopping answers what is pending first |

## Left out

- Raft itself (elections, transport, log storage): the log is an append-only list applied in order.
- The strong read mode: the leadership check is an input of `Router.Get`.
- JSON encoding of commands, log payloads and snapshots: a codec whose decoder inverts its encoder.
- CRC-32: any function from payloads to 32-bit words; the results hold for each.
- Sizing of the bloom filter: any positive number of bits and probes; the program sizes it for one item more than the table holds, so that both are positive.
- Files, fsync, timers and contexts: a file is its bytes with a synced length, timing is the choice of step.
- gRPC and HTTP servers, command line, configuration, membership, metrics and deployment files.
- The time-to-live field of commands, which the state machine never reads.
- Restart of a node: recovery of the engine is modelled, rejoining the cluster afterwards is not.
- BloomFilter.Filter.Add: a 64-bit word of the bit array is the set of its one bits, so the or and the mask are set operations.
- CompactionModel.Compactor.MergeTier: a table is read as its entry list; TableMerge.MergeTables merges the bytes, and TableMerge.TierReadAsBytes says when the swap results carry over.
- EngineModel.Engine.Scan: a table's part is taken from its entry list; TableMerge.ScanLayers takes it from the bytes, and TableMerge.ScanOfBytesExact says when the two agree.
- EngineModel.Engine.Snapshot: built on that scan, so that the same holds for it.
- EngineModel.Engine.Get: a table lookup is by entry list, which TableIO.Reader.Get is proved to compute from the bytes; the read is one step, the overlap with a swap is CompactionModel.OverlappingReadExact.
- CompactionModel.SelectTier: sizes are positive (every table ends in a footer of 24 bytes) and compared exactly; the program divides floating-point numbers.
- Router.ReadYourWritesHolds: polls report no more than the state machine has consumed; Raft may report an index earlier, and Router.PrefixReadExact says that the guarantee then fails.
- Router.MonotonicReadsHold: the same assumption on what polls report.
- Cluster.NodesShowTheirPrefix: leaves out installing a snapshot over tables, which EngineRun.RestoreExact treats, and appends that fail, which Cluster.FailedApplyExact treats.
- FsmRun.WatcherRebuildsStore: runs are those whose swaps leave the tables' reads alone; FsmRun.SafeIsCourse gives them for growing indexes and safe swaps.
- Recovery.CrashPreservesReads: assumes one writer at a time, as when the state machine alone writes; concurrent writers may reach log and memtable in different orders.
- GroupCommit.Wal.CommitRound: an fsync that fails and later succeeds is taken to cover the earlier bytes.
- GroupCommit.Wal.Enqueue: payloads are below 2^32 bytes; the program writes the length of a longer one modulo 2^32.
- Reapply.ReapplyKeepsView: with swaps meanwhile the condition on the start is sufficient; the program applies entries again only to engines without tables, where ReapplyAfterOpen and ReapplyAfterRestore need none.
- WatchHub.Hub.Subscribe: subscription numbers are unbounded, the program's wrap after 2^64 subscriptions.
- BatchWriter.BatchSafe: the channel has no bound (the program blocks submitters beyond 1024 requests); a flush is one step; entries that others commit during it appear in front of each command.
