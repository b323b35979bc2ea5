# Verified models of the amind memory store

This project models the storage core of amind in Dafny and proves what that core is for.
Run `dafny verify dfyconfig.toml` in this directory to check it.

The main chain of results is a refinement in layers. A skip list of linked nodes refines a
sorted map. A table file, byte for byte, refines a sorted list of entries. A memtable over three
levels of tables refines a map from ids to values. A disk left behind by a crash at any step
of a put, a flush or a compaction refines the map before the crash, exactly under conditions
that are stated; what a log reopened behind torn bytes loses is stated at the level of its
bytes. Whole lives of the engine, crashes and reopenings included, are right about an id exactly
when each step met its guard for that id, and the store of memory records keeps its promises over
that engine under the same guards. Around it stand the lineage and graph indexes with their logs
and recovery, the freshness barrier with its queue and workers, CRC-32, the event-log indexes and
the id generator.

| file | what it models |
|---|---|
| `SkipList.dfy` | the MemTable's skip list: nodes, forward pointers, splicing, memory accounting |
| `Tables.dfy`, `Merge.dfy` | sorted tables, and the k-way merge with a heap of cursors |
| `Levels.dfy`, `Disk.dfy`, `LsmEngine.dfy` | the engine: reads, flush, compaction, manifest, log, crash points |
| `Session.dfy` | whole lives of an engine: puts, flushes, compactions, crashes, reopenings |
| `Wire.dfy`, `LsmWal.dfy`, `Recovery.dfy` | little-endian bytes, framed logs, the write-ahead log, torn logs |
| `Bitwise.dfy`, `Bloom.dfy`, `Block.dfy`, `SSTable.dfy`, `FileNames.dfy` | table files byte for byte |
| `RecordCodec.dfy`, `MemoryStore.dfy` | the record's byte form, and the write-back cache |
| `StoreEngine.dfy` | the cache over the real engine: what the store promises, and under which guards |
| `Lineage.dfy`, `Orphans.dfy`, `LineageWal.dfy` | the lineage index, invalidation of orphans and when it is exact, its log |
| `GraphStore.dfy`, `GraphWal.dfy` | the knowledge graph and its log |
| `Crc32.dfy`, `Polynomial.dfy` | CRC-32 as it is computed, and as it is defined |
| `Freshness.dfy` | pending counters, the bounded queue and the workers, as a protocol |
| `EventLog.dfy`, `Snowflake.dfy` | the event ring with its indexes, and the id generator |

Code that changes fields step by step is a class whose methods are proved against functions on
values; the laws are lemmas about those functions. A deletion of a record in the source is a put
of a flagged, non-empty record, so the engine's run theorems are about non-empty puts.

## Where the code departs from its comments

The code is modelled as it is. Each departure has an exact condition and, where it is short, an
input that shows it.

- A compaction appends its output to the tables of the next level, while reads and the manifest
  take the newest table first. `Levels.RunExact` says when reads stay right all the same,
  `Levels.AppendingServesStaleReads` shows a stale read, `Levels.FrontRunsAreRight` proves the
  order the header documents, and `Engines.CascadePersistsStaleValue` shows that a cascade can make
  the loss permanent.
- For the same reason a removed record can come back to life once a compaction puts its removal
  behind an older version of it (`EngineStores.RemovedReturnsExactly`, `EngineStores.RemovedReturns`).
- Two of the three flushes truncate the log before they save the manifest
  (`Disks.TruncateFirstExact`, `Disks.TruncateFirstLosesPut`), so a crash in the store's own flush can
  lose records that were not dirty (`EngineStores.TruncationForgetsExactly`).
- The engine's log, too, is reopened for appending without cutting off torn bytes, unless opening
  finds something to flush (`Recoveries.ReopenedLogExactly`, `Recoveries.OneTornByteLosesPut`).
- `contains` of the skip list leaves out flagged keys, although its comment includes them
  (`SkipLists.SkipList.Contains`).
- Removing a key from the engine only flags it in the memtable (`Levels.RemoveHidesExactly`).
- Propagation never looks again at a node it judged live (`Orphans.EveryRunExactly`,
  `Lineage.JudgedTooEarly`), and judges direct children whatever the depth limit.
- Archiving an invalidated record makes it alive again (`MemoryStores.ArchiveRevivesExactly`).
- A shutdown strands queued tasks, whose keys then never settle until a restart
  (`Freshness.StrandedExactly`, `Freshness.OneStranded`).
- A query that leads with id 0 finds nothing (`EventLogs.QueryIsScanExactly`).
- A lineage log record with more than 65535 parents does not read back
  (`LineageWals.ReplaysExactly`), nor does a write-ahead record of more than 64 MiB
  (`LsmWals.ReplaysExactly`).
- The graph log is reopened for appending without cutting off a torn record, which hides what is
  appended behind it (`GraphWals.TornTailHidesAppendsExactly`, `GraphWals.TornByOneByte`).
- The graph logs an operation before it locks the store to apply it. A checkpoint in between drops
  the operation from the disk (`GraphStores.CheckpointBetweenExactly`), and two operations may be
  logged in one order and applied in the other (`GraphStores.SwappedExactly`).
- The graph log's record has 30 bytes, not the 38 its comment counts.
- The cap on waiting for the clock compares the clock with a deadline ahead of it, so a clock that
  stays behind is waited for without end (`Snowflakes.FailsExactly`, `Snowflakes.FailsOnlyAhead`).

## Model

| member | source | states |
|---|---|---|
| SortedSlots.PutSlotIsUpdate | src/lsm/skip_list.h:118-161 | an insert or overwrite keeps keys ascending and changes the answer of one key only, whatever the slot held before |
| SortedSlots.RemoveSlotIsUpdate | src/lsm/skip_list.h:183-201 | a removal keeps the order, flags one key if it is there, and leaves every other key alone |
| SkipLists.LevelsAreNested | src/lsm/skip_list.h:139-156 | for every assignment of node heights, each level is a subsequence of the level below |
| SkipLists.LevelAscends | src/lsm/skip_list.h:139-156 | the positions on a level ascend, so each level is sorted |
| SkipLists.NextIndexWalksLevel | src/lsm/skip_list.h:122-129 | following the links of one level visits exactly the rest of that level |
| SkipLists.SkipList.LevelIsThreaded | src/lsm/skip_list.h:152-156 | in every valid list the forward pointers of level i chain up exactly the nodes that reach level i |
| SkipLists.SkipList.Descend | src/lsm/skip_list.h:121-129 | the descent remembers on every level the last node with a smaller key |
| SkipLists.SkipList.Put | src/lsm/skip_list.h:118-161 | for any height drawn, the entry list is updated as a map; all links and the count stay exact, and the memory estimate moves by the change of the value or by one node of that height |
| SkipLists.UsageExactly | src/lsm/skip_list.h:282-286 | the estimate of a whole list is 64 bytes a node, 8 bytes a forward pointer, and the bytes of all values |
| SkipLists.SkipList.Get | src/lsm/skip_list.h:164-180 | the value of the key, or nothing if it is absent or flagged |
| SkipLists.SkipList.Remove | src/lsm/skip_list.h:183-201 | flags the key and reports whether it was there; nothing else moves |
| SkipLists.SkipList.Contains | src/lsm/skip_list.h:204-217 | true exactly if the key is present and not flagged |
| SkipLists.SkipList.LowerBound | src/lsm/skip_list.h:225-235 | the first node whose key is not below the bound, or the end |
| SkipLists.SkipList.Entries | src/lsm/skip_list.h:219-222 | iteration yields every entry once, in ascending key order |
| Tables.LookupsDetermineTable | src/lsm/sstable_writer.cpp:29-49 | a strictly ascending table is determined by its lookups |
| Merging.OverlayAllLookup | src/lsm/lsm_engine.cpp:487-535 | the reference overlay answers a key as the lowest-index table that has it |
| Merging.CompactedLookup | src/lsm/lsm_engine.cpp:518-530 | the reference merge is ascending and answers a key with the lowest-index value, unless that is empty |
| Merging.MergeTables | src/lsm/lsm_engine.cpp:468-535 | the heap loop over any number of ascending tables ends, never trips the writer's order check, and writes exactly the reference merge |
| Levels.FlushEntriesLookup | src/lsm/lsm_engine.cpp:404-424 | what a flush writes answers as the memtable, a flagged key as an empty value |
| Levels.FlushKeepsReads | src/lsm/lsm_engine.cpp:404-434 | a flush keeps every read if and only if no flagged key of the memtable has an older version below |
| Levels.CompactionAtKey | src/lsm/lsm_engine.cpp:487-566 | at one key, replacing tables by their merge, in front or behind, keeps the answer exactly under the stated guard |
| Levels.Compact0Exact | src/lsm/lsm_engine.cpp:456-575 | compacting L0 into L1 keeps every read if and only if its guard holds |
| Levels.Compact1Exact | src/lsm/lsm_engine.cpp:456-575 | the same for L1 into L2 |
| Levels.AppendingServesStaleReads | src/lsm/lsm_engine.cpp:565-566 | an engine on which the appended output hides an update |
| Levels.StepKeepsShape | src/lsm/lsm_engine.cpp:218-260 | every operation keeps tables sorted and free of empty values |
| Levels.RunExact | src/lsm/lsm_engine.cpp:218-345 | in a run of non-empty puts, flushes and compactions all reads at all times give the last value put if and only if every compaction met its guard |
| Levels.FrontRunsAreRight | src/lsm/lsm_engine.h:113-117 | with the output placed newest first, as the header says, every run reads back the last put for every key |
| Levels.FrontScansAreRight | src/lsm/lsm_engine.cpp:604-712 | in the same runs the live scan shows the last put of every key |
| Levels.ReorderedReadsExactly | src/lsm/lsm_engine.cpp:11-60 | no order of the tables in L1 and L2, such as the one reopening restores, changes a read if and only if, for every key that memtable and L0 leave open, all tables of the level that answers agree on its value |
| Levels.RemoveHidesExactly | src/lsm/lsm_engine.cpp:262-269 | a removed key reads as absent if and only if no table shows a version of it |
| Levels.LiveAgreesWithGet | src/lsm/lsm_engine.cpp:604-712 | the live scan and get agree on every key if and only if no flagged or emptied memtable key has an older version below |
| Disks.LiveNamesDistinct | src/lsm/manifest.cpp:72-100 | all names listed by a well-formed manifest are pairwise distinct across levels |
| Disks.OrphanInvisible | src/lsm/lsm_engine.cpp:501-504 | writing or deleting a file no manifest lists changes nothing recovered |
| Disks.SaveFlushState | src/lsm/lsm_engine.cpp:247-252 | saving the manifest turns the recovered state into the flushed state |
| Disks.TruncateCovered | src/lsm/lsm_engine.cpp:251-255 | truncating a log already covered by the checkpoint changes nothing recovered |
| Disks.TruncateFirstExact | src/lsm/lsm_engine.cpp:354-373 | truncating before the save keeps every recovered read if and only if the tables already answer as the memtable did |
| Disks.TruncateFirstLosesPut | src/lsm/lsm_engine.cpp:362-371 | any acknowledged put, the only one in the log, that such a crash loses |
| Disks.MaxSeqIsMaximum | src/lsm/lsm_engine.cpp:133-147 | the number replay reports is the largest of the log |
| Disks.SaveCompact0State | src/lsm/manifest.cpp:76-85 | saving after an L0 compaction recovers the compacted state with the output first |
| Disks.MergedOrderExact | src/lsm/manifest.cpp:87-96 | replacing L1 by its merge keeps every recovered read if and only if the merge order answers like the saved order |
| Engines.CoversHits | src/lsm/lsm_engine.cpp:271-345 | readers in any order find a key exactly when the listed files do |
| Engines.FlushCrash | src/lsm/lsm_engine.cpp:236-255 | a crash after the write, the save or the truncation of a flush recovers every read |
| Engines.FlushLockedCrash | src/lsm/lsm_engine.cpp:354-373 | for the flush that truncates first, all crash points recover every read if and only if the tables already answer for the memtable |
| Engines.Compact0Crash | src/lsm/lsm_engine.cpp:536-566 | a crash after the output, the save or any file deletion of an L0 compaction recovers every read |
| Engines.Compact1Crash | src/lsm/lsm_engine.cpp:571-574 | a crash anywhere in the cascade recovers every read if and only if the order in which the engine merges L1 answers like the saved order |
| Engines.CascadePersistsStaleValue | src/lsm/lsm_engine.cpp:571-574 | a coherent disk with four tables in L1, held by the engine in the order it appended them, whose cascade writes a stale value for good |
| Engines.FlushIsEvents | src/lsm/lsm_engine.cpp:236-260 | what a flush with its compactions does to reads and to the disk is the sequence of flush, compact L0 and cascade that the size triggers select |
| Engines.LevelsStayShort | src/lsm/lsm_engine.cpp:236-260 | a flush empties the memtable, and merges L0 away when it gets its fourth table, and L1 then when it gets its fourth |
| Engines.CompactsFromTwo | src/lsm/lsm_engine.cpp:445-470 | a compaction empties L0 if it has two tables or more, and does nothing otherwise |
| Engines.LSMEngine.PairHasShape | src/lsm/lsm_engine.cpp:11-172 | a running engine and its disk share memtable and L0 and hold the same keys in L1, so sessions speak of every engine |
| Sessions.SessionExactly | src/lsm/lsm_engine.cpp:11-575 | over any sequence of non-empty puts, flushes, compactions, cascades, crashes and reopenings, what a key reads and what the disk would recover for it is the last value logged, at every moment, if and only if every event met its guard for that key |
| Sessions.FrontSessionsExactly | src/lsm/lsm_engine.h:113-117 | with outputs placed newest first, that holds if and only if every crash behind a log truncated too early met its guard |
| Engines.LSMEngine.constructor | src/lsm/lsm_engine.cpp:11-172 | opening a directory whose log is whole records yields the state that manifest and log above the checkpoint describe, with all books coherent |
| Engines.LSMEngine.Get | src/lsm/lsm_engine.cpp:271-345 | memtable, then L0, L1, L2 in list order; an empty value reads as absent |
| Engines.LSMEngine.PutRaw | src/lsm/lsm_engine.cpp:218-260 | a flush follows if and only if the memory estimate after the insert reaches 4 MiB, so that it stays below that between calls; reads and disk then hold the put, or the flushed and compacted state; on a log without torn bytes, every disk from the logged record on recovers the put if and only if no cascade merges in a disagreeing order |
| Engines.LSMEngine.FlushAndCompact | src/lsm/lsm_engine.cpp:236-260 | the whole flush with compactions: the states reads and the disk come to, and that every disk passed through recovers the old one if and only if no triggered cascade merges in a disagreeing order |
| Engines.LSMEngine.FlushLocked | src/lsm/lsm_engine.cpp:354-373 | the flush that truncates first: its state, and exactly when its crash points recover |
| Engines.LSMEngine.CompactL0 | src/lsm/lsm_engine.cpp:456-575 | compaction with its cascade: the states reads and the disk come to, and that every disk passed through recovers the old one if and only if a triggered cascade merges in an agreeing order |
| Engines.LSMEngine.ForEachLive | src/lsm/lsm_engine.cpp:604-712 | visits exactly the live keys, once each, with the value of the newest source |
| Engines.LSMEngine.FinishOpen | src/lsm/lsm_engine.cpp:156-170 | nothing happens to an empty memtable; otherwise the flushed and perhaps compacted state, and exactly when every disk passed through recovers it |
| FileNames.TextInjective | src/lsm/lsm_engine.cpp:192-203 | two table files never share a name, whatever their kind and number |
| FileNames.DecimalIsPlain | src/lsm/lsm_engine.cpp:192-203 | numbers are written in digits without leading zeros |
| FileNames.PadIsZeros | src/lsm/lsm_engine.cpp:192-203 | the numbers of L0 files are filled up with zeros to six places |
| FileNames.NamesInDirectory | src/lsm/lsm_engine.cpp:192-203 | one name of each kind, as it stands in the directory |
| Wire.LeDigits | src/lsm/lsm_wal.cpp:87-154 | every integer is stored with its lowest byte first |
| Wire.PrefixReadsWhole | src/lsm/lsm_wal.cpp:341-488 | for any framed log, reading any byte prefix yields exactly the records wholly in it |
| Wire.LogReadsBackExactly | src/lineage/lineage_wal.cpp:109-162 | a framed log reads back whole if and only if each of its records does |
| LsmWals.ParseEncoded | src/lsm/lsm_wal.cpp:352-455 | what the reader makes of a written record, whatever follows it |
| LsmWals.PrefixReplays | src/lsm/lsm_wal.cpp:341-488 | any byte prefix of the log delivers exactly the records wholly written |
| LsmWals.ReplaysExactly | src/lsm/lsm_wal.cpp:413-418 | a log replays as appended if and only if no record holds more than 64 MiB |
| LsmWals.ItemExactly | src/lsm/lsm_wal.cpp:352-455 | the reader delivers a record if and only if magic, version, length and both checksums in its bytes are right, and delivers the fields at their offsets |
| LsmWals.DamageIsSkippedExactly | src/lsm/lsm_wal.cpp:413-445 | whatever takes the place of one record and leaves its magic, version and length alone is skipped, and all other records delivered, if and only if one of its checksums fails |
| LsmWals.DamagedDataIsSkipped | src/lsm/lsm_wal.cpp:437-445 | a record whose data were replaced by others with another checksum is never delivered, and every other record is |
| LsmWals.LsmWriteAheadLog.WriteRecord | src/lsm/lsm_wal.cpp:87-154 | the header buffer filled at its offsets, the data and both checksums extend the file by the record, so that the file is always what was found plus the log of what was appended |
| LsmWals.LsmWriteAheadLog.Replay | src/lsm/lsm_wal.cpp:341-488 | visits the records above the given sequence number and returns the largest number over all of them; on a log begun empty these are the records appended, up to 64 MiB each |
| Recoveries.TornLogRecovers | src/lsm/lsm_engine.cpp:133-147 | a log file cut off at any byte recovers the engine state of the puts wholly written |
| Recoveries.CheckpointFilters | src/lsm/lsm_engine.cpp:133-147 | filtering by sequence number in the reader is what the checkpoint means to the engine |
| Recoveries.CutOffExactly | src/lsm/lsm_engine.cpp:155-161 | opening truncates the log exactly when a whole record lies above the checkpoint |
| Recoveries.ReopenedLogExactly | src/lsm/lsm_wal.cpp:30-43 | what is appended to a reopened log that ends in torn bytes is replayed if and only if nothing was torn or opening truncated the log, unless what begins with the torn bytes carries two right checksums by accident |
| Recoveries.OneTornByteLosesPut | src/lsm/lsm_wal.cpp:30-43 | one torn byte behind which a put is logged and then not replayed, whatever the checksum function |
| Blooms.NumBitsIsLeast | src/lsm/bloom_filter.cpp:9-24 | the filter has the fewest whole bytes that give each key its bits, and 64 bits at least |
| Blooms.NumHashesIsNearest | src/lsm/bloom_filter.cpp:20-24 | the number of hashes is the nearest to ln 2 times the bits per key, seven for ten |
| Blooms.PositionIsWalk | src/lsm/bloom_filter.cpp:33-55 | the positions of a key are a walk from its first hash in steps of its second, in 64 bits |
| Blooms.AnswersExactly | src/lsm/bloom_filter.cpp:33-55 | the filter says yes exactly if every position of the key is covered by keys added: never no for a key that was added |
| Blooms.BloomFilter.Add | src/lsm/bloom_filter.cpp:33-42 | after an add the bits set are exactly the positions of the keys so far and this one |
| Blooms.BloomFilter.MayContain | src/lsm/bloom_filter.cpp:44-55 | true exactly if all positions of the key are set |
| Blooms.SerializedBack | src/lsm/bloom_filter.cpp:57-83 | a serialized filter reads back with its hash count and bits |
| Blocks.BlockBuilder.Add | src/lsm/block.cpp:19-26 | the running size is the exact byte length of the layout |
| Blocks.BlockBuilder.Finish | src/lsm/block.cpp:28-73 | the layout loop writes exactly the block's bytes, or fails beyond the compressor's input limit |
| Blocks.Layout | src/lsm/block.cpp:28-73 | count, keys, lengths and values stand at their offsets, each entry behind the one before |
| Blocks.Open | src/lsm/block.cpp:83-138 | the reader's checks and its offset loop compute the parse function |
| Blocks.OpenedIsChecked | src/lsm/block.cpp:83-138 | a block opens only if its size field is at most 64 MiB and the size it decompresses to, and its entries then follow one another from offset 4 |
| Blocks.BlockRoundTripExactly | src/lsm/block.cpp:83-110 | a finished block opens, and as exactly the entries added, if and only if its layout is at most 64 MiB |
| Blocks.FindKey | src/lsm/block.cpp:158-177 | an index of the key if it is present, -1 if it is not |
| SSTables.LookupInBlock | src/lsm/sstable_reader.cpp:129-150 | a key can only be in the last block that begins at or before it |
| SSTables.SSTableWriter.Add | src/lsm/sstable_writer.cpp:29-49 | refuses keys out of order and adds after the end, and otherwise extends the table by the entry, cutting a block when it is full |
| SSTables.SSTableWriter.Finish | src/lsm/sstable_writer.cpp:51-96 | the file is data, index, filter and footer of blocks that concatenate to the entries added |
| SSTables.FooterBack | src/lsm/sstable_writer.cpp:72-92 | every field of the footer stands at its offset, with the format's own magic and version |
| SSTables.IndexLayout | src/lsm/sstable_writer.cpp:51-72 | the fields of every index entry stand at their offsets |
| SSTables.OpenedIsChecked | src/lsm/sstable_reader.cpp:81-123 | a file opens only with magic and version right and with index and filter inside it, and opens as what stands there |
| SSTables.WrittenOpens | src/lsm/sstable_reader.cpp:81-123 | a written file opens with the index and the filter it was written with if and only if the footer's 32 bits hold their sizes |
| SSTables.WrittenBlockReads | src/lsm/sstable_reader.cpp:152-165 | a block of a written file can be read if and only if its layout is at most 64 MiB |
| SSTables.WrittenContainsExactly | src/lsm/sstable_reader.cpp:37-165 | for any cut into blocks, the opened file stands for exactly the entries added, and its filter turns none of them away, if and only if the footer holds the size of the index and no block layout exceeds 64 MiB |
| SSTables.WriteAndRead | src/lsm/sstable_reader.cpp:167-307 | for every ascending table within the format's sizes, written and opened: get gives the value if and only if the key was added, a range gives exactly the entries in it, and the cursor gives all |
| SSTables.Get | src/lsm/sstable_reader.cpp:167-188 | returns the value if and only if the key was added |
| SSTables.ScanRange | src/lsm/sstable_reader.cpp:190-220 | yields exactly the entries in range, in order |
| SSTables.InRangeIs | src/lsm/sstable_reader.cpp:190-220 | the reference range is ascending and holds exactly the entries between the bounds |
| SSTables.ForEach | src/lsm/sstable_reader.cpp:222-230 | yields the whole entry list |
| SSTables.SSTableCursor.Next | src/lsm/sstable_reader.cpp:285-307 | moves from one position of the entry list to the next, across blocks |
| SSTables.Drain | src/lsm/sstable_reader.cpp:247-307 | a cursor yields the whole entry list and ends |
| SSTables.SmallValuesAreReadable | src/lsm/sstable_writer.cpp:45-48 | a block cut when full stays readable as long as its last value is short of 64 MiB by the block target |
| SSTables.WriteTable | src/lsm/lsm_engine.cpp:404-424 | writing a sorted table entry by entry never trips the order check, always succeeds on short values, and gives a file of full blocks with at most a short last one and a filter of the planned size |
| RecordCodecs.Layout | src/core/memory_record.cpp:14-147 | every field of the header stands at its offset |
| RecordCodecs.SerializedBack | src/core/memory_record.cpp:149-339 | a serialized record reads back with every variable part cut to 65535, whatever follows it |
| RecordCodecs.RoundTripExactly | src/core/memory_record.cpp:14-147 | serializing loses nothing if and only if no variable part is longer than 65535 |
| RecordCodecs.ReadIsChecked | src/core/memory_record.cpp:149-339 | what is read has the right magic, version, enumeration values and checksum, and its parts are as long as the lengths in the bytes say |
| RecordCodecs.DamageIsRefused | src/core/memory_record.cpp:149-339 | a serialized record changed anywhere but in its lengths and its checksum is refused whenever the checksum notices |
| MemoryStores.MemoryStore.FastStore | src/memory/memory_store.cpp:88-117 | stamps the record, writes it to the cache and the engine, and evicts only if the cache is over its size |
| MemoryStores.MemoryStore.Get | src/memory/memory_store.cpp:147-184 | counts the access in the cache, marks the id dirty and returns what it cached |
| MemoryStores.MemoryStore.Update | src/memory/memory_store.cpp:186-226 | the old id is versioned, the fresh id gets the new version, both through to the engine; EngineStores.UpdateAnswers names what each then answers |
| MemoryStores.MemoryStore.Remove | src/memory/memory_store.cpp:228-255 | the engine gets a flagged record and the cache forgets the id |
| MemoryStores.MemoryStore.EvictIfNeeded | src/memory/memory_store.cpp:590-613 | flushes, then drops exactly the fifth of the cache that is least used |
| MemoryStores.MemoryStore.FlushDirtyRecords | src/memory/memory_store.cpp:521-541 | exactly the dirty cached records are written, and nothing stays dirty |
| MemoryStores.GetAnswers | src/memory/memory_store.cpp:147-184 | a read raises the access count by one, sets the time, applies the promotion rule, and leaves the record dirty |
| MemoryStores.RemoveAnswers | src/memory/memory_store.cpp:228-255 | a removal leaves the record in the engine with phase and flag of a removed one, and all else as it was |
| MemoryStores.ArchiveAnswers | src/memory/memory_store.cpp:257-282 | archiving changes the phase and nothing else |
| MemoryStores.SetEmbeddingAnswers | src/memory/memory_store.cpp:284-304 | setting an embedding changes the embedding and its flag and nothing else |
| MemoryStores.ChangeAnswers | src/memory/memory_store.cpp:306-519 | a boost changes the scores of a live record only, a change in place the content of a cached record only |
| MemoryStores.DecayAnswers | src/memory/memory_store.cpp:420-440 | decay changes the scores of exactly the active cached records and marks exactly those dirty |
| MemoryStores.WarmsExactly | src/memory/memory_store.cpp:67-83 | opening caches exactly the records that are alive, and changes no answer |
| MemoryStores.EvictsLeastUsed | src/memory/memory_store.cpp:590-613 | eviction drops exactly a fifth of the cache, and no record that was used more than one it keeps; removed records go first |
| MemoryStores.EvictsOnlyIfOver | src/memory/memory_store.cpp:590-591 | a cache that stays within its size is left alone |
| MemoryStores.StepKeepsCoherent | src/memory/memory_store.cpp:88-324 | over an engine that answers as a map, every call and a reopening keep each id, if it is cached, dirty or equal to its stored copy |
| EngineStores.EveryCallTurns | src/memory/memory_store.cpp:88-324 | whatever a call may do over a map, it can do over the engine by logging what it changes |
| EngineStores.TurnAt | src/memory/memory_store.cpp:88-324 | over the engine with its flushes, compactions and crashes, every call does to an id what it would do over a map, where every event so far met its guard for the id |
| EngineStores.AlwaysCoherent | src/memory/memory_store.cpp:88-324 | under the same guards, at every moment of every life of the store a cached id is dirty or equal to what the engine answers |
| EngineStores.AlwaysKeyed | src/memory/memory_store.cpp:88-324 | under the same guards the record that an id answers is always a record of that id |
| EngineStores.OthersAnswerAsBefore | src/memory/memory_store.cpp:88-613 | no call changes the answer of an id it does not name, whatever the engine does under it |
| EngineStores.ScanShowsAnswers | src/memory/memory_store.cpp:67-81 | the scan that warms the cache shows what get answers, in every life of the engine |
| EngineStores.FlushIsInvisible | src/memory/memory_store.cpp:521-556 | a flush, with the compactions it brings, changes no answer for an id whose guards were met |
| EngineStores.EvictionIsInvisible | src/memory/memory_store.cpp:590-613 | a store that evicts changes no other answer, where the guards were met, beyond what storing and reading back does to a record |
| EngineStores.CrashLosesOnlyDirty | src/memory/memory_store.cpp:17-86 | after a crash and a reopening an id that was not dirty and whose guards were met, that of a truncated log included, answers as before, up to storing and reading back |
| EngineStores.TruncationForgetsExactly | src/memory/memory_store.cpp:543-556 | after a crash behind a log truncated before the save, the engine answers for an id as before if and only if the tables already answered for its memtable entry |
| EngineStores.StoredIsFetched | src/memory/memory_store.cpp:88-145 | what fastStore was given, with an id and times if it had none, is what the id answers, even if it is evicted at once and the engine compacts, where the guards were met |
| EngineStores.UpdateAnswers | src/memory/memory_store.cpp:186-226 | after an update the fresh id answers the new content, as an active version one higher that names the old id as its parent, with its counters and times set anew, and the old id its old record, versioned |
| EngineStores.RemovedStaysDead | src/memory/memory_store.cpp:228-255 | at any later moment of any life, crashes included, a removed id is not alive unless a call gives the id out again or an event missed its guard for it |
| EngineStores.FrontRemovedStaysDead | src/memory/memory_store.cpp:228-255 | with outputs placed newest first, crashes behind a log truncated too early are the only events with a guard to meet |
| EngineStores.RemovedReturnsExactly | src/lsm/lsm_engine.cpp:565-566 | when L0 holds the removal and is compacted behind L1, the id is alive again if and only if L1 holds an older version that is alive |
| EngineStores.RemovedReturns | src/lsm/lsm_engine.cpp:445-575 | a session of ten events, for any live record, whose last word on the id is its removal and which ends with the record alive |
| EngineStores.ReuseRevivesExactly | src/memory/memory_store.cpp:88-226 | where the guards were met, one call makes a removed id alive if and only if it gives the id out for a live record |
| MemoryStores.ArchiveRevivesExactly | src/memory/memory_store.cpp:257-282 | over an engine that answers as a map, a record is alive after archiving if and only if it lacks the tombstone flag |
| Lineage.Propagate | src/lineage/propagator.cpp:13-82 | the search ends on every graph and leaves a trace of fair judgements, with the depth limit itself as its bound from one on; where no descendant within the limit names a second parent, exactly what is reachable within it is removed |
| Lineage.NeverTooMuch | src/lineage/propagator.cpp:31-62 | the ids invalidated lie in every set closed under the orphan rule |
| Orphans.DoomedIsLeast | src/lineage/propagator.cpp:31-67 | the depth-bounded fixpoint: the least set that holds whatever is found through it within the bound and has lost every parent to it |
| Orphans.NeverBeyondDoomed | src/lineage/propagator.cpp:31-67 | no run, even unfinished, invalidates an id outside that fixpoint |
| Orphans.EveryRunExactly | src/lineage/propagator.cpp:13-82 | whatever the order in which children are walked, every run invalidates exactly the fixpoint, if and only if every doomed id finds its doomed parents a step nearer to the root than itself |
| Orphans.LateParentNeverExact | src/lineage/propagator.cpp:62-67 | where a doomed id is found strictly before a doomed parent, no run is exact |
| Orphans.TimelyIsRounds | src/lineage/propagator.cpp:31-67 | under the same condition the fixpoint is what killing round by round up to the bound gives |
| Orphans.GradedIsExact | src/lineage/propagator.cpp:31-67 | a special case: lineage in which every link goes down one rank |
| Lineage.SingleParentIsDescendants | src/capture/derived_extractor.cpp:84 | where no descendant within the bound names a second parent, everything reachable within the bound is invalidated, cycles or not |
| Lineage.JudgedTooEarly | src/lineage/propagator.cpp:31-32 | a run that leaves an orphan alive |
| Lineage.LineageIndex.GetTransitiveDescendants | src/lineage/lineage_index.cpp:212-241 | exactly the ids reachable within the depth, each once, the start left out |
| Lineage.SearchReaches | src/lineage/lineage_index.cpp:212-241 | a search that expands every node finds exactly what is reachable |
| Lineage.ReachIsByPath | src/lineage/lineage_index.cpp:212-241 | an id is reachable within a depth if and only if a path of at most so many links leads to it |
| Lineage.LineageIndex.RecordLineage | src/lineage/lineage_index.cpp:125-150 | replaces the child's record and adds its links |
| Lineage.RecordedExactly | src/lineage/lineage_index.cpp:125-150 | the record of the child and the links from its parents change, and nothing else |
| Lineage.LineageIndex.RemoveNode | src/lineage/lineage_index.cpp:152-183 | drops the record, the links to it and the links from it, and nothing else |
| Lineage.RecordKeepsBackedExactly | src/lineage/lineage_index.cpp:125-150 | recording keeps every link backed by a record if and only if no parent of an older record is dropped |
| Lineage.RemoveKeepsBacked | src/lineage/lineage_index.cpp:152-183 | a removal keeps every link backed, and the node is left in no link |
| Lineage.LineageIndex.FromSnapshot | src/lineage/lineage_index.cpp:26-45 | loading a snapshot rebuilds links that match the records exactly |
| Lineage.ReloadKeepsLinksExactly | src/lineage/lineage_index.cpp:99-116 | a checkpoint and a reload give the same links if and only if links and records matched |
| Lineage.RemoveKeepsExactExactly | src/lineage/lineage_index.cpp:152-183 | a removal keeps links and records matched if and only if the node had no children |
| Lineage.ReplayedAt | src/lineage/lineage_index.cpp:51-92 | a log decides the records it names, whatever was there, and adds the ids it removes |
| Lineage.LineageIndex.ReplayLog | src/lineage/lineage_index.cpp:51-92 | replaying a log leaves the records, the links and the removed ids it describes |
| Lineage.IndexReplayTwice | src/lineage/lineage_index.cpp:26-97 | replaying a log over a snapshot that already holds its effects changes no record and no removed id |
| Lineage.LinksReplayTwice | src/lineage/lineage_index.cpp:26-97 | the same replay gives every link the log settles as it was before the crash, and any other link exactly if a record backs it |
| Lineage.LinksReplayTwiceExactly | src/lineage/lineage_index.cpp:26-97 | such a crash leaves all links as they were if and only if those the log does not settle matched the records |
| LineageWals.Layout | src/lineage/lineage_wal.cpp:41-69 | every field, every parent and the checksum stand at their offsets |
| LineageWals.PrefixReplays | src/lineage/lineage_wal.cpp:109-162 | any byte prefix of the log delivers exactly the records wholly written |
| LineageWals.ReplaysExactly | src/lineage/lineage_wal.cpp:41-69 | a log replays as appended if and only if no record names more than 65535 parents |
| LineageWals.StopsAtDamage | src/lineage/lineage_wal.cpp:120-145 | replay stops exactly at a record damaged within four consecutive bytes, its count of parents left alone, whatever follows |
| LineageWals.LineageWAL.Append | src/lineage/lineage_wal.cpp:41-69 | header, parents and checksum extend the file by the record, so that the file is always what was found plus the log of what was appended |
| LineageWals.LineageWAL.Replay | src/lineage/lineage_wal.cpp:109-162 | the replay loop computes the reading of the file; on a log begun empty it is what was appended if and only if no record names more than 65535 parents |
| GraphStores.PutExactly | src/graph/graph_store.cpp:68-106 | adding an edge sets weight and time for its source, target and type, for the types 0, 5, 8 and 9 both ways, and leaves every other edge alone |
| GraphStores.DropExactly | src/graph/graph_store.cpp:141-170 | removing a node drops the edges from it and to it and no other |
| GraphStores.RunAt | src/graph/graph_store.cpp:32-62 | a log decides the keys it names and leaves the other edges as they were |
| GraphStores.ReplayTwice | src/graph/graph_store.cpp:32-62 | replaying a log over a state that already holds its effects changes nothing |
| GraphStores.SnapshotReloads | src/graph/graph_store.cpp:26-30 | a snapshot that lists the edges in any order reloads as exactly those edges |
| GraphStores.CheckpointBetweenExactly | src/graph/graph_store.cpp:108-247 | after a checkpoint between logging and applying an operation the disk recovers the graph if and only if the operation had nothing to do |
| GraphStores.SwappedExactly | src/graph/graph_store.cpp:108-147 | two operations logged in one order and applied in the other leave log and graph in agreement, on every graph, if and only if neither touches what the other sets otherwise or removes |
| GraphStores.GraphStore.constructor | src/graph/graph_store.cpp:19-66 | recovery from any snapshot and log gives the edges they describe, with all indexes exact |
| GraphStores.GraphStore.AddEdgeInternal | src/graph/graph_store.cpp:68-106 | one edge per source, target and type; undirected types both ways with equal weight and time; the mirror stays exact |
| GraphStores.GraphStore.RemoveNode | src/graph/graph_store.cpp:141-170 | exactly the edges of the node go, and the disk would recover the result |
| GraphStores.GraphStore.Checkpoint | src/graph/graph_store.cpp:227-247 | the snapshot holds exactly the edges, and a crash before the log is truncated recovers them too |
| GraphStores.GraphStore.GetIncomingEdges | src/graph/graph_store.cpp:309-324 | exactly the edges into the node, each as often as its source has parallel edges to it |
| GraphStores.CountToExactly | src/graph/graph_store.cpp:309-324 | how often the mirror names a source is the number of its edges to the node |
| GraphStores.DetachedKeeps | src/graph/graph_store.cpp:149-169 | a removal keeps lists unique and the mirror exact, and drops exactly the node's edges |
| GraphStores.DetachedEverywhere | src/graph/graph_store.cpp:141-170 | a removed node occurs nowhere, as key, source or target |
| Crc32.TableStep | src/core/crc32.h:36-46 | one table lookup does the work of eight bit steps |
| Crc32.BuildTable | src/core/crc32.h:11-29 | every table entry is eight bit steps of its index |
| Crc32.Crc | src/core/crc32.h:36-46 | the table loop computes the bit-by-bit checksum; Polynomials.CrcExactly says what that is |
| Polynomials.CrcExactly | src/core/crc32.h:36-46 | the checksum is the one word whose complement is the remainder, by the generator of section 8 of RFC 1952, of the message with its first 32 bits inverted |
| Polynomials.StoredLowestFirst | src/graph/graph_wal.cpp:55-62 | a stored checksum has its lowest byte first |
| Crc32.Stream | src/core/crc32.h:51-77 | streaming over pieces gives the CRC of their concatenation |
| Crc32.BurstShows | src/core/crc32.h:36-46 | inputs of equal length that differ only within four consecutive bytes never collide |
| Crc32.DamageBreaksSeal | src/core/crc32.h:36-46 | damage within four consecutive bytes of a record that ends in its CRC, the CRC included, is always noticed |
| GraphWals.Layout | src/graph/graph_wal.h:20-32 | every field and the checksum stand at their offsets |
| GraphWals.LoggedBytes | src/graph/graph_wal.cpp:43-84 | an addition is logged with kind byte 1 and all its fields, a removal with kind byte 2 and its node |
| GraphWals.OneRecord | src/graph/graph_store.cpp:32-62 | a record is replayed as the operation its kind byte names, and as nothing if it names none |
| GraphWals.PrefixReplays | src/graph/graph_wal.cpp:86-112 | any byte prefix of the log yields exactly the records wholly written |
| GraphWals.StopsAtDamage | src/graph/graph_wal.cpp:94-102 | replay stops exactly at a record damaged within four consecutive bytes, whatever follows |
| GraphWals.TornLogRecovers | src/graph/graph_store.cpp:19-66 | a store reopened on a log cut off at any byte recovers the operations wholly logged |
| GraphWals.TornTailHidesAppendsExactly | src/graph/graph_wal.cpp:24-41 | records appended after a torn one are not replayed if and only if the 30 bytes that begin with the torn ones do not carry their own CRC |
| GraphWals.TornByOneByte | src/graph/graph_wal.cpp:24-41 | a record torn off before its last byte, and an appended record it hides |
| GraphWals.GraphWAL.Append | src/graph/graph_wal.cpp:43-84 | the file is always what was found plus the log of what was appended |
| GraphWals.GraphWAL.Replay | src/graph/graph_wal.cpp:86-112 | the replay loop computes the reading of the file; on a log begun empty it is exactly what was appended |
| Freshness.CountedOffUndoesCounted | src/capture/capture_pipeline.cpp:44-60 | a task counted and at once counted off, because its push failed, leaves every counter as it was |
| Freshness.TaskQueue.Push | src/async/task_queue.cpp:13-31 | a task is accepted if and only if the queue runs and has room, at the end |
| Freshness.TaskQueue.Pop | src/async/task_queue.cpp:33-48 | the oldest task leaves, or none if the queue is empty and stopped |
| Freshness.NeverClamps | src/capture/capture_pipeline.cpp:51-60 | counting off a task in flight never meets a zero counter |
| Freshness.EveryRun | src/async/task_executor.cpp:14-65 | in every interleaving each counter is the number of tasks in flight, the queue and the workers hold exactly the queued and the running tasks, and no task is taken twice |
| Freshness.OutcomesAreCounted | src/async/task_executor.cpp:46-65 | over every run the tasks counted as failed are those that threw and those counted as completed the others, but for what workers have still to count |
| Freshness.BarrierIsExact | src/capture/capture_pipeline.cpp:62-69 | a wait can end with true if and only if no task of the key is in flight |
| Freshness.StrandedExactly | src/async/task_executor.cpp:24-65 | after a shutdown, and without a restart, a key can still settle if and only if no task of it was left in the queue |
| Freshness.OneStranded | src/async/task_executor.cpp:24-65 | a run of five events that strands a task, whose key never settles |
| Freshness.RestartTakesStranded | src/async/task_executor.cpp:14-65 | a restarted worker takes a task left in a stopped queue |
| EventLogs.MemoryEventLog.Append | src/observability/memory_event_log.cpp:126-153 | the ring drops its oldest event when full, and the indexes describe the ring exactly |
| EventLogs.MemoryEventLog.RebuildIndexes | src/observability/memory_event_log.cpp:279-286 | rebuilding gives indexes that describe the ring exactly |
| EventLogs.MemoryEventLog.Query | src/observability/memory_event_log.cpp:163-215 | by either index, the newest-first filtered scan with the same limit, or nothing if the leading id is zero |
| EventLogs.HitsExactly | src/observability/memory_event_log.cpp:167-186 | an event is found if and only if it is in the ring and passes every field of the filter |
| EventLogs.HitsNewestFirst | src/observability/memory_event_log.cpp:190-213 | the events found come newest first |
| EventLogs.PlacesExactly | src/observability/memory_event_log.cpp:190-213 | every place of the ring whose event passes is among them |
| EventLogs.LimitedExactly | src/observability/memory_event_log.cpp:190-213 | the answer is as much of them as the limit allows, and one at least |
| EventLogs.QueryIsScanExactly | src/observability/memory_event_log.cpp:273-277 | the index answers as the scan does if and only if the leading id is not zero or nothing matches |
| Snowflakes.SnowflakeGenerator.NextId | src/core/snowflake.cpp:17-60 | the outcome and the new state for any series of clock readings |
| Snowflakes.CallGives | src/core/snowflake.cpp:17-60 | a later reading gives an id with that time and sequence 0, the same one the next sequence number, and with the sequence used up the first later reading gives the id or the call waits |
| Snowflakes.CallBehind | src/core/snowflake.cpp:22-38 | after a backward jump the call gives an id if and only if a time reading passes the last id before a deadline reading passes the cap, with that time, and fails if and only if it is the other way round |
| Snowflakes.FailsOnlyBehind | src/core/snowflake.cpp:17-60 | a call fails only after a backward jump |
| Snowflakes.IdsStrictlyIncrease | src/core/snowflake.cpp:17-60 | over any series of calls with any clock inside the window, later ids are greater |
| Snowflakes.FieldsBack | src/core/snowflake.cpp:55-75 | milliseconds since the epoch, worker and sequence stand at their places, the extract functions recover them, and the sign bit is clear |
| Snowflakes.WorkersNeverCollide | src/core/snowflake.cpp:55-59 | generators with different worker ids never give out the same id |
| Snowflakes.FailsExactly | src/core/snowflake.cpp:22-38 | the wait for the clock fails if and only if a deadline reading past the cap comes before any time reading past the last id |

## Left out

- Engines.LSMEngine.constructor: the engine's disk holds whole log records; torn bytes at the end of the log are modelled on the log's bytes, in Recoveries.ReopenedLogExactly.
- Engines.LSMEngine.PutRaw: for the same reason it does not speak of a log reopened behind torn bytes, where Recoveries.OneTornByteLosesPut shows a put that is lost.
- SSTables.WrittenContainsExactly: assumes that the footer's 32 bits hold the size of the filter; SSTables.WrittenOpens says that the file does not open as written otherwise.
- SSTables.WriteAndRead: asks for entry counts and value lengths under which every block and the footer fit; SSTables.WrittenContainsExactly gives the exact limits.
- MemoryStores.ArchiveRevivesExactly: the engine is a map here, as in the methods of MemoryStores; EngineStores.TurnAt says when the real engine does the same to an id.
- MemoryStores.StepKeepsCoherent: the record codec enters as a law (a stored record reads back with its header); RecordCodecs.SerializedBack proves that law for the byte form of one record type.
- MemoryStores.MemoryStore.FastStore: like the other methods of the class it writes to a map; the engine itself is a class in LsmEngine.dfy, and EngineStores joins the two on values.
- The engine's files and log records are values, so its crash theorems leave out values over 64 MiB; LsmWals.ReplaysExactly and Blocks.BlockRoundTripExactly give the exact limits.
- Graph traversal, neighbour and conflict lists, paging and counts: read-only walks over the same lists.
- The engine's own remove as a method: it is a lemma about the state, since no caller in the repository uses it.
- The immutable memtable: it exists only inside one locked call.
- Locks and threads inside the engine, the cache and the indexes: every call is one atomic step, so a crash between the two puts of one update is left out. Only the freshness barrier, and two-step interleavings of the graph's log, are interleaved.
- Write-ahead log rotation and old segments, batch fsync, corrupted table files, opening without a manifest, records of wire version 1.
- I/O errors, allocation failure, and 64-bit overflow of file sizes.
- Compression, xxHash, the engine log's checksum and the record's CRC32C: parameters of the model; of compression it takes that it can be undone and the bound it documents for its output. The graph and lineage logs use the proved CRC-32.
- JSON inside record metadata: the metadata blob is opaque bytes.
- Importance, decay, promotion and every other floating-point score: parameters, or opaque values.
- The vector index and its soft deletes: they do not touch the modelled state.
- The coin flips of the skip list: the height is an arbitrary parameter. Vector capacity counts as vector size in the memory estimate.
- Replacing the manifest or a graph snapshot is one atomic step; the source removes the old graph snapshot first.
- Clock readings, fresh ids and the order in which hash maps are walked: parameters or arbitrary choices.
- Trace and history queries of the event log, its files and rotation: sorts and I/O over the same ring.
- HTTP, providers, SDK, regular expressions, reconciliation, gating, ranking, backup and configuration.
