# TransDB storage engine: a verified model

TransDB stores records under two keys, x and y. The records of one x live in slotted 4096-byte pages
that are kept in memory, written back by one storage thread and dropped from memory when they are not
used. This project models that engine in five layers and proves, for every run and every
interleaving of its threads, that a reader sees exactly what a plain map x -> y -> bytes would hold.

| layer | files | form |
|---|---|---|
| bytes, configuration, sets | `Bytes`, `Config`, `Sets` | functions; the gzip codec and the checksum are arbitrary functions |
| slotted page (`Block.c`) | `Pages` (values, image of a page), `Block` | methods on an `array<byte>` |
| block manager (`BlockManager.c`) | `Manager`, `Writes`, `Retention`, `GrowthAtLimit`, `Loading`, `Defrag` (values), `BlockManager` | class over a byte buffer and an index |
| LRU list, free space, index file | `LRUCache`, `FreeSpace`, `FreeSpaceMap`, `IndexFile`, `IndexBlock` | classes, each proved against a value |
| engine (`Storage.cpp`, `DiskWriter.cpp`) | `Store` (one step), `Tiling`, `Invariant`, `ClientSteps`, `SpaceSteps`, `FlushSteps`, `Flush`, `Engine` (runs), `Memory`, `Lifecycle`, `Shutdown`, `StoredImages`, `Restart`, `Lives` | state machine and its proofs |
| engine, in place | `StorageFacts`, `Storage` | class with block managers on the heap; every method performs one step of `Store` |

A page is a list of records with flags (`Pages.Page`); its bytes are a function of that list
(`Pages.Encode`), and every edit of a page in `Block` is proved to turn the image of one list into the
image of another. A manager is a list of pages with an index (`Manager.Man`); `Manager.Contents` is the
finite map it stands for. The engine's state (`Store.State`) holds both files, the records in memory with
their three flags, the queues, the free map and the deferred frees. A step (`Store.Step`) is one operation
under its record's accessor, one flushed or erased item, or one action of the storage thread between
items; `Store.Apply` says what it does, `Store.PlainStep` what it does to the plain map, and
`Invariant.Inv` is what every step keeps.

Main results, and where they end up:

* `Engine.RunOk`, `Engine.ReadAfterRun`: refinement of the plain map over all runs. The same invariant carries
  dirty-bit soundness, agreement of index and pages, extents that tile the data file, and distinct index
  slots.
* `Lives.LifeOfStore`: a new store, any orderly run, a final flush, a restart with any order of the
  parallel scan: the reader sees the plain map again. The two files can be opened after any step of any run,
  whatever was lost before (`Restart.ReopenedOk`); `Restart.RestartViewIff` and `Restart.RestartSameIff` say exactly
  when a restart is clean, for readers and for the slots of the index file.
* `Writes.WriteCorrect`, `Writes.WriteAnswers`, `Defrag.DefragmentCorrect`, `Retention.RetentionIff`: what a block
  manager promises.
* `FlushItem.FlushItemOk`, `FlushItem.FlushItemPlaced`: what one flushed item changes, and where it goes.
* `Storages.Storage.Process`, `Storages.Storage.WriteData`, `Storages.Storage.CheckMemory`: the engine in place.

## What the code does not do

Six promises are false of the code. Each is kept as it is, with an input that shows it and the exact
condition under which it holds.

* "The record limit rewrites from the oldest": the index is ordered by `memcmp` on the stored integer
  (`src/console/BlockManager.c:60-62`), the refusal test is numeric (line 236). For every run of writes the promise
  holds on a big-endian host, or with a limit of 1, and nowhere else (`Retention.RetentionIff`); on any host it holds
  for the runs whose keys the index happens to order as numbers (`Retention.KeepsLargest`). The host's byte order is
  a constant left open, `Bytes.HOST_IS_BIG_ENDIAN`.
* "A refused write changes nothing": it does after the limit was lowered at run time
  (`Writes.RefusedUnchangedIff`, `Writes.RefusedAfterEvicting`), and since it is not queued the change is undone when
  the record is next dropped from memory (`Engine.LoweredLimitUndone`). Within the limit the promise holds
  (`Writes.WriteCorrect`).
* "A deleted record frees its extent and slot": the queue of pending deletions holds one entry per x
  (`src/console/DiskWriter.h:66`), so that deleting x again replaces the entry that owns them
  (`Lifecycle.LeakStep`, `Lifecycle.DeleteWriteDeleteLeaks`). The slot is never freed again (`StoredImages.LeakStays`)
  and after a restart such an x is back (`Restart.RestartViewIff`); `Lives.NewStoreUndoesDeletion` is a whole life that
  ends so.
* "A queued write is flushed": `DeleteData(x)` removes x from the queue after it has given up the accessor
  (`src/console/Storage.cpp:412-419`), so that a write in between loses its place (`Lifecycle.OrphanStep`). Until
  x is written, deleted or defragmented again the record stays in memory and blocks eviction at the head of the list
  (`Shutdown.OrphanBlocks`); after a restart it is missing, or is what it was when it was last stored
  (`Restart.RestartOrphansIff`); `Lives.NewStoreLosesWrite` is a whole life that ends so.
* "m_memoryUsed is the memory used": a write answered with `eBMS_NeedDefrag` does not count the page it added
  (`src/console/Storage.cpp:347-352`). It happens exactly to a new key, not below the first one, in a full record with
  no room for it even without the first record, when DefragAfterRecordDelete is at most 1
  (`GrowthAtLimit.GrowsAtLimitIff`, `MemoryAccounting.DriftStep`); such a run is `MemoryAccounting.DriftingRun`, and
  `MemoryAccounting.NeverDriftsIff` says which servers never see one. When the sum falls below zero
  (`MemoryAccounting.NegativeRun`) the uint64 counter wraps, and CheckMemory evicts on to the end of its list or to a
  record that waits for the storage thread (`MemoryAccounting.NegativeNeverFits`).
* "A page number leads to its index page": the position is a 32-bit product (`src/console/IndexBlock.cpp:235`, 285
  and 345), so that page 2^20 is page 0 again (`IndexFile.DiskPageIff`, `IndexFile.FirstAlias`). The promise holds
  exactly for an index file of at most 2^20 pages, some 195 million records; every result about the index file and the
  engine is about such files, and a first flush that would need one more page is not an enabled step.

## Model

| member | source | states |
|---|---|---|
| `Bytes.UintRoundTrip` | src/console/Block.c:65-86 | an integer field stored by the host is read back, whatever the byte order |
| `Bytes.UintByte` | src/console/Block.c:65-86 | byte i of a stored integer is its base-256 digit of the weight that the host gives that place |
| `Bytes.MemcmpIsBigEndianOrder` | src/console/BlockManager.c:60-62 | `memcmp` on fields of equal length is the numeric order of their big-endian reading |
| `Bytes.RankIsMemcmp` | src/console/BlockManager.c:55-63 | for all keys and either byte order: one key ranks below another exactly when `memcmp` puts its stored bytes first |
| `Bytes.RankInjective` | src/console/BlockManager.c:55-63 | the index order is total: different keys have different ranks |
| `Bytes.RankNumericOnBigEndian` | src/console/BlockManager.c:60-62 | on a big-endian host the `memcmp` order of keys is the numeric order |
| `Pages.DecodeEncode` | src/console/BlockManager.c:119-161 | round trip: the bytes of a page determine its record list and flags, and are determined by them |
| `Pages.CidfOfEncode` | src/console/Block.c:14-26 | the control field at the end of a page image holds its free space, first free position and flags |
| `Pages.RecordOfEncode` | src/console/Block.c:28-56 | record i of a page: its definition field and its bytes lie where the scan of the page looks for them |
| `Pages.FreeOfEncode` | src/console/Block.c:162-163 | the bytes between the two areas of a page image are zero |
| `Pages.UpdateShape` | src/console/Block.c:166-194 | an update stays in its page if and only if the new bytes fit into the old ones and the free space; same size keeps the place, otherwise the others close up and the record comes last |
| `Pages.RemoveShape` | src/console/Block.c:102-164 | a removed record leaves the others in their order and the page marked |
| `Pages.ScanStopsIff` | src/console/Block.c:41-55 | a scan without a match stops at the end of the RDF area if and only if the page holds at most 408 records; beyond that the uint16 position wraps |
| `Pages.NonEmptyRecordsScannable` | src/console/Block.c:41-55 | records of at least one byte keep every page within that bound |
| `Config.ReadsBackIff` | src/console/BlockManager.c:182-199 | a record is read back as it was written if and only if it is not a client's own packed data that is stored as it is |
| `Config.StoredShorterIff` | src/console/BlockManager.c:182-199 | a record takes fewer bytes than it has if and only if it is longer than the threshold and packing shortens it |
| `Config.StoredIsCanonical` | src/console/BlockManager.c:182-199 | what a page keeps for a record survives being unpacked and written again |
| `Config.ClientPackedMisread` | src/console/Block.c:207-226 | a record that is itself the compressed form of another one, and is not packed again, is read back as that other one |
| `Block.InitBlock` | src/console/Block.c:19-26 | turns a zeroed block into the image of the empty page |
| `Block.ContainsKey` | src/console/Block.c:28-56 | finds the first definition field with the key and where its record starts; on a miss in a page that has records, the last field is left behind |
| `Block.WriteRecord` | src/console/Block.c:58-89 | appends the record, marks the page and refuses exactly when record and field do not fit; no other byte changes |
| `Block.DeleteRecordByRdf` | src/console/Block.c:102-164 | removes one record from both areas, keeps the order of the rest, zeroes what is free |
| `Block.DeleteRecordByKey` | src/console/Block.c:91-100 | the same by key; needs the key to be there, because a miss would remove the last record |
| `Block.UpdateRecord` | src/console/Block.c:166-194 | same size: in place; otherwise the old record goes and the new one is appended if it fits |
| `Block.GetRecord` | src/console/Block.c:196-227 | the stored bytes of the key, unpacked when they are packed |
| `Block.GetRecords` | src/console/Block.c:229-291 | all records of the page, oldest first, unpacked |
| `Manager.DeleteCorrect` | src/console/BlockManager.c:65-76 | deleting a key keeps pages and index in agreement and removes exactly that key from the map |
| `Manager.UpdateCorrect` | src/console/BlockManager.c:201-218 | an update replaces the record, or leaves the map without the key when it must move |
| `Manager.PlaceCorrect` | src/console/BlockManager.c:258-284 | placing a new key adds exactly that key and keeps agreement, with or without a new page |
| `Manager.PlaceWhere` | src/console/BlockManager.c:258-284 | the record goes behind the records of the last page with room for it, into a new page only when no page has room, and no other page changes |
| `Writes.WriteCorrect` | src/console/BlockManager.c:170-287 | within the limit a write is exactly the write of the finite map with a record limit: replace, add, or evict the first key, or refuse and change nothing; the three status bits about the limit are set exactly when they should be |
| `Writes.FirstByMemcmp` | src/console/BlockManager.c:229-231 | the first key of the index is the one stored key that no stored key precedes in `memcmp` order |
| `Writes.WriteContents` | src/console/BlockManager.c:201-286 | the contents after every write that is not refused, also above a lowered limit: replaced in place, or without its old form the first keys go until the count is below the limit and the record is added |
| `Writes.WriteTouches` | src/console/BlockManager.c:258-286 | a write adds one page or none, reports growth exactly when it added one, and marks every page it changed |
| `Writes.WriteUntouched` | src/console/BlockManager.c:201-284 | a page that neither held the key nor holds it now, and has lost none, is as it was, flags included |
| `Writes.WriteGrowsIff` | src/console/BlockManager.c:258-284 | below the limit a write adds a page if and only if the record is not replaced in its page and no page has room for it |
| `Writes.WriteGrowth` | src/console/BlockManager.c:258-284 | with a limit in force the number of pages never exceeds the limit, so the uint16 page count never wraps |
| `Writes.OneEviction` | src/console/BlockManager.c:224-249 | at the limit the loop refuses a key below the first one, and otherwise removes exactly the first |
| `Writes.RefusedUnchangedIff` | src/console/BlockManager.c:233-240 | a write refused as old left everything unchanged if and only if its key was not stored and is below the first key |
| `Writes.EvictRefusesIff` | src/console/BlockManager.c:224-249 | for any record count: eviction refuses the new key if and only if one of the keys that would have to go is numerically above it, and otherwise removes exactly as many as must go |
| `Writes.WriteAnswers` | src/console/BlockManager.c:201-256 | the status bits of every write that is not too big, also above a lowered limit, from keys and counts before the write |
| `Writes.RefusedAfterEvicting` | src/console/BlockManager.c:226-249 | a lowered limit: the write of key 3 evicts key 1 and is refused |
| `Writes.RefusedBetween` | src/console/BlockManager.c:226-249 | after the limit was lowered to 1, every new key between two stored ones evicts the first and is refused |
| `Retention.KeepsLargest` | src/console/BlockManager.c:220-256 | on any host, when the index orders the keys written as numbers, or with limit 1: exactly the largest keys written are kept, never more than the limit |
| `Retention.OrderedOnBigEndian` | src/console/BlockManager.c:60-62 | a big-endian host orders all keys as numbers |
| `Retention.ByteKeysOrdered` | src/console/BlockManager.c:60-62 | every host orders the keys of one byte as numbers |
| `Retention.KeepsLastRecords` | src/console/BlockManager.c:201-218 | every kept key has the record last written under it |
| `Retention.LittleEndianKeepsSmallKey` | src/console/BlockManager.c:60-62 | on a little-endian host with limit at least 2 a run exists that keeps key 1 and drops a larger one |
| `Retention.RetentionIff` | src/console/BlockManager.c:220-256 | the retention promise holds for every run of writes if and only if the host is big-endian or the limit is 1 |
| `Loading.IndexRebuilt` | src/console/BlockManager.c:119-161 | the index built from the pages is the index that was in memory |
| `Loading.LoadEncoded` | src/console/BlockManager.c:119-161 | round trip: a manager written page by page and loaded is the same manager |
| `Loading.CleanedValid` | src/console/BlockManager.c:341-349 | clearing the marks keeps agreement and contents |
| `Defrag.AllRecordsContents` | src/console/BlockManager.c:300-311 | the records of all pages, in page order, are exactly the contents, each key once |
| `Defrag.DefragmentCorrect` | src/console/BlockManager.c:351-397 | defragmentation keeps the key to record map, never needs more pages, and leaves no page empty and every page too full for the record that opened any later one |
| `Defrag.PackedPairs` | src/console/BlockManager.c:376-393 | after defragmentation no two pages would fit into one |
| `Defrag.ReinsertReady` | src/console/BlockManager.c:376-393 | no prefix of the re-insertion runs out of page numbers |
| `GrowthAtLimit.GrowsAtLimitIff` | src/console/BlockManager.c:220-286 | a write evicts, grows and asks for defragmentation if and only if, before it, the key is new and not below the first, the record is full, no page has room even without the first record, and DefragAfterRecordDelete is at most 1 |
| `GrowthAtLimit.GrowthNeedsTwo` | src/console/BlockManager.c:220-286 | with a limit of 1 an evicting write never grows |
| `BlockManagers.BlockManager.Create` | src/console/BlockManager.c:119-161 | a new manager: one empty page, empty index |
| `BlockManagers.BlockManager.Load` | src/console/BlockManager.c:119-161 | a manager on stored pages: the index is rebuilt from them |
| `BlockManagers.BlockManager.DeleteRecordByNode` | src/console/BlockManager.c:65-76 | in place: the buffer becomes the image of the manager without the key; the key is always in the page that the index names |
| `BlockManagers.BlockManager.DeleteRecordByKey` | src/console/BlockManager.c:313-321 | in place: removes the key if it is stored |
| `BlockManagers.BlockManager.ReadRecord` | src/console/BlockManager.c:289-298 | the unpacked record of the key, or none |
| `BlockManagers.BlockManager.ReadRecords` | src/console/BlockManager.c:300-311 | all records, page by page, unpacked |
| `BlockManagers.BlockManager.ReallocBlocks` | src/console/BlockManager.c:78-103 | a new buffer with one more empty page, the rest as it was |
| `BlockManagers.BlockManager.ClearDirtyFlags` | src/console/BlockManager.c:341-349 | clears the mark of every page and nothing else |
| `BlockManagers.BlockManager.EvictOldest` | src/console/BlockManager.c:220-256 | the eviction loop ends and does what the value function says, also after a lowered limit; the key it takes next is the first in `memcmp` order (`Writes.FirstByMemcmp`) |
| `BlockManagers.BlockManager.PlaceRecord` | src/console/BlockManager.c:258-286 | the backward search ends after at most one new page and reports growth exactly then |
| `BlockManagers.BlockManager.UpdateExisting` | src/console/BlockManager.c:201-218 | updates in place, or removes the record and its index entry |
| `BlockManagers.BlockManager.WriteRecord` | src/console/BlockManager.c:170-287 | the whole write in place: new buffer, index and status are those of the value function |
| `BlockManagers.BlockManager.DefragmentData` | src/console/BlockManager.c:351-397 | in place: all records re-inserted into fresh pages |
| `LRUCaches.LRUCache.ChangeChain` | src/console/LRUCache.cpp:24-47 | takes one node out of the linked list; links, ends and map stay consistent |
| `LRUCaches.LRUCache.Put` | src/console/LRUCache.cpp:49-85 | the key moves or is appended to the end of a duplicate-free list |
| `LRUCaches.LRUCache.Remove` | src/console/LRUCache.cpp:87-103 | the key leaves the list; true exactly when it was there |
| `LRUCaches.LRUCache.Get` | src/console/LRUCache.cpp:105-113 | the least recently used key, or none |
| `LRUCaches.RefreshedDistinct` | src/console/LRUCache.cpp:49-85 | using a key keeps the list duplicate-free and makes it the last to be evicted |
| `LRUCaches.HeadStays` | src/console/LRUCache.cpp:105-113 | the head of the list stays the head until it is used or removed itself |
| `FreeSpace.AddFreeCorrect` | src/console/DiskWriter.cpp:393-412 | freeing adds exactly one free extent |
| `FreeSpace.AllocCorrect` | src/console/DiskWriter.cpp:422-471 | -1 exactly when every free extent is shorter; otherwise the shortest that fits leaves the map and its tail comes back |
| `FreeSpace.AllocAfterGrowth` | src/console/DiskWriter.cpp:117-129 | after the file grew by at least the request, the second attempt cannot fail |
| `FreeSpace.RebuildOkIff` | src/console/IndexBlock.cpp:168-213 | corruption is reported if and only if two extents overlap or one starts below 0 |
| `FreeSpace.RebuildExact` | src/console/IndexBlock.cpp:168-213 | for sound extents, in any order, the result is their complement in maximal, non-adjacent extents |
| `FreeSpaceMaps.FreeSpaceMap.AddFreeSpace` | src/console/DiskWriter.cpp:393-412 | in place: appends the position under its length, ignores a negative position or empty length |
| `FreeSpaceMaps.FreeSpaceMap.GetFreeSpacePos` | src/console/DiskWriter.cpp:422-471 | in place: exact fit, or the first longer length of the ordered map, with split |
| `FreeSpaceMaps.FreeSpaceMap.LoadFreeSpaceFromIndexDef` | src/console/IndexBlock.cpp:168-213 | in place: rebuilds the map; on corruption the old map stays |
| `IndexFile.WriteDrecCorrect` | src/console/IndexBlock.cpp:215-331 | exactly one slot changes: the record's own, or one that was empty; counters and set of pages with room stay right, for up to 2^20 pages |
| `IndexFile.WriteDrecChosen` | src/console/IndexBlock.cpp:215-331 | a new record gets the first empty slot of the file, and the first slot of one new page if and only if there is none; a record that has a slot keeps it |
| `IndexFile.EraseDrecCorrect` | src/console/IndexBlock.cpp:333-376 | exactly one slot is emptied; counters and set stay right |
| `IndexFile.FreeBlockHasSlot` | src/console/IndexBlock.cpp:435-459 | a page in the set of pages with room has an empty slot, so the search for one never fails and its repair branch is dead |
| `IndexFile.FreeMeansRoom` | src/console/IndexBlock.cpp:64-75 | a page is in the set exactly when its counter of free bytes has room for a slot |
| `IndexFile.ScanSlotsCorrect` | src/console/IndexBlock.cpp:16-79 | the scan visits every occupied slot exactly once |
| `IndexFile.RoomRebuilt` | src/console/IndexBlock.cpp:64-75 | the set rebuilt at start is the set that was in memory |
| `IndexFile.DiskPageIff` | src/console/IndexBlock.cpp:235-238 | the 32-bit position of a page is its own exactly below page 2^20, and starts over from there |
| `IndexFile.FirstAlias` | src/console/IndexBlock.cpp:285 | page 2^20 is at the position of page 0 |
| `IndexFile.ReadPageIff` | src/console/IndexBlock.cpp:424-426 | reading by page number is right for every file exactly below 2^20 |
| `IndexFile.WritePageIff` | src/console/IndexBlock.cpp:243-245 | writing by page number changes that page and no other exactly below 2^20 |
| `IndexBlocks.IndexBlock.GetCachedDiskBlock` | src/console/IndexBlock.cpp:388-433 | returns the page of the file, from the cache or from its 32-bit position, and makes it the most recently used one; the least recently used one is dropped exactly when the cache is above its size; the cache stays equal to the file, for up to 2^20 pages |
| `IndexBlocks.IndexBlock.MakeRoom` | src/console/IndexBlock.cpp:402-419 | drops the least recently used page; it is always in the LRU list |
| `IndexBlocks.IndexBlock.WriteRecordIndexToDisk` | src/console/IndexBlock.cpp:215-331 | in place through the cache: the slot taken is the record's own, the first empty one, or the first of a new page when there is none, and the new file is that of the value function; cache and file stay equal |
| `IndexBlocks.IndexBlock.EraseRecord` | src/console/IndexBlock.cpp:333-376 | in place through the cache: empties the slot; nothing to do for a record that was never written |
| `Tiling.TilesCut` | src/console/DiskWriter.cpp:440-467 | cutting an extent in two keeps the file tiled |
| `Tiling.TilesMoved` | src/console/DiskWriter.cpp:374-386 | handing an extent to another owner keeps the file tiled |
| `Tiling.TilesExtended` | src/console/DiskWriter.cpp:314-337 | a new extent at the end of the file keeps it tiled |
| `Invariant.ManWriteOk` | src/console/BlockManager.c:170-287 | a write keeps a manager sound, does to what readers see what a limited map does, and its status bits say what readers could tell beforehand: the limit is reached, the key is below the first, defragmentation is due |
| `Invariant.ManDefragOk` | src/console/BlockManager.c:351-397 | defragmentation of a sound manager keeps it sound and its contents, and packs its pages |
| `Invariant.CleanedOk` | src/console/DiskWriter.cpp:131-146 | a flushed manager is sound, clean and is what loading its image gives |
| `ClientSteps.WriteStepOk` | src/console/Storage.cpp:286-386 | WriteData keeps the invariant and writes x, y in the plain map under the limit of x |
| `ClientSteps.DeleteXYOk` | src/console/Storage.cpp:422-449 | DeleteData(x, y) keeps the invariant and removes exactly x, y; the record is queued but not relocated for that |
| `ClientSteps.DeleteXOk` | src/console/Storage.cpp:388-413 | DeleteData(x) keeps the invariant and removes exactly x; slot and extent pass to the pending deletion |
| `ClientSteps.DefragStepOk` | src/console/Storage.cpp:559-608 | DefragmentData keeps the invariant and the plain map; the record is then in memory in packed pages, no more than before, and waits to be relocated |
| `ClientSteps.EvictOk` | src/console/Storage.cpp:631-670 | eviction drops a record that is not queued and keeps the invariant and the plain map |
| `ClientSteps.LoadedOk` | src/console/Storage.cpp:672-724 | loading keeps the invariant and the plain map; the branch marked as impossible is never taken |
| `SpaceSteps.EraseOk` | src/console/DiskWriter.cpp:369-391 | erasing a pending deletion keeps the invariant, in particular the tiling, and the plain map |
| `SpaceSteps.FreeStepOk` | src/console/DiskWriter.cpp:290-298 | a deferred free returns to the free map without overlap |
| `SpaceSteps.RebuildStepOk` | src/console/DiskWriter.cpp:473-491 | rebuilding the free map between flushes never finds corruption and keeps the tiling |
| `SpaceSteps.RebuiltSpace` | src/console/IndexBlock.cpp:168-213 | the rebuilt free map and the stored extents tile the file; free is exactly what is not stored |
| `FlushSteps.AllocateOk` | src/console/DiskWriter.cpp:117-129 | the allocation of a flush always succeeds and overlaps nothing; the file grows only when no free extent is long enough, by the request or by ReallocSize, whichever is more, and otherwise the shortest extent that fits is used |
| `FlushSteps.WriteDirtyAll` | src/console/DiskWriter.cpp:99-115 | writing only the marked pages leaves all clean pages on disk; the rest of the file is unchanged |
| `FlushSteps.RelocatedFile` | src/console/DiskWriter.cpp:131-146 | after a relocation the new extent holds the clean pages; the rest of the file is unchanged |
| `FlushItem.FlushItemOk` | src/console/DiskWriter.cpp:203-281 | one flushed item keeps the invariant and the plain map; one index slot changes; the queue flag stays only if the record was queued again |
| `FlushItem.FlushItemPlaced` | src/console/DiskWriter.cpp:203-281 | where a flushed item goes: in place unless it must be relocated, otherwise as AllocateOk says, with the old extent among the deferred frees; and to the slot that WriteDrecChosen says |
| `Engine.StepOk` | src/console/Storage.cpp:254-449 | every enabled step keeps the invariant and does to the plain map what its operation promises; the others do nothing to it |
| `Engine.RunOk` | src/console/DiskWriter.cpp:149-306 | every run, whatever the interleaving, keeps the invariant and refines the plain map |
| `Engine.ReadAfterRun` | src/console/Storage.cpp:254-268 | a read after any run returns what the plain map holds |
| `Engine.ChecksumHolds` | src/console/Storage.cpp:695-703 | the checksum test on loading always passes |
| `Engine.EvictThenLoad` | src/console/Storage.cpp:648-660 | evicting a record and loading it again gives back the same state |
| `Engine.FlushedIsStored` | src/console/DiskWriter.cpp:236-281 | after its item a record is on disk as it is in memory, no page is marked, and the flag for the queue is left exactly for records queued again |
| `Engine.RefusedChangeUndone` | src/console/Storage.cpp:338-346 | a write refused although it evicted is not queued; dropping the record from memory and loading it undoes the eviction |
| `Engine.LoweredLimitUndone` | src/console/Storage.cpp:338-346 | limit lowered to 1: readers no longer see the first key, and see it again after the record was dropped from memory |
| `MemoryAccounting.DefragDrift` | src/console/Storage.cpp:597-601 | defragmentation is counted correctly; the branch for growing memory only ever adds 0 |
| `MemoryAccounting.KeyUsage` | src/console/BlockManager.c:423-434 | a new key accounts for one index node, and for one page more if and only if no page had room; a deleted key gives its node back |
| `MemoryAccounting.DriftStep` | src/console/Storage.cpp:315-379 | each step changes the accounting error by exactly one page, counted negative, when its write meets the condition of `GrowthAtLimit.GrowsAtLimitIff` and DefragAfterRecordDelete is at most 1, and by nothing otherwise |
| `MemoryAccounting.DriftRun` | src/console/Storage.cpp:631-670 | after any run m_memoryUsed differs from the memory used by exactly the forgotten pages |
| `MemoryAccounting.DriftingRun` | src/console/Storage.cpp:347-352 | a legal run of a new store after which a page in use is not counted |
| `MemoryAccounting.NeverDriftsIff` | src/console/Storage.cpp:315-379 | the accounting is exact in every run of a new store if and only if there is no record limit, or it is 1, or DefragAfterRecordDelete is at least 2 |
| `MemoryAccounting.NegativeRun` | src/console/Storage.cpp:399-404 | a legal run of a new store after which the sum behind m_memoryUsed is below zero |
| `MemoryAccounting.NegativeNeverFits` | src/console/Storage.cpp:631-670 | then no eviction brings the wrapped counter below the limit |
| `Lifecycle.LeakStep` | src/console/DiskWriter.cpp:52-65 | a step leaks exactly the slot of the pending deletion that it replaces |
| `Lifecycle.LeakRun` | src/console/DiskWriter.cpp:52-65 | after any run exactly the replaced slots have leaked |
| `Lifecycle.DeleteWriteDeleteLeaks` | src/console/Storage.cpp:388-413 | delete, write, delete of a stored x is a legal run that leaks its slot |
| `Lifecycle.OrphanStep` | src/console/DiskWriter.cpp:308-312 | a write newly loses its place in the queue exactly when the end of an earlier deletion of x comes after it and the batch does not hold x |
| `Lifecycle.DeleteWriteRemoveOrphans` | src/console/Storage.cpp:412-419 | delete, write, end of the deletion is a legal run that does this |
| `Lifecycle.OrderlyRun` | src/console/Storage.cpp:388-420 | a run without those two patterns leaks nothing and orphans nothing |
| `StoredImages.StepImages` | src/console/DiskWriter.cpp:99-147 | every step keeps the pages behind every occupied slot, also behind those that have leaked |
| `StoredImages.RunImages` | src/console/DiskWriter.cpp:99-147 | and so does every run |
| `StoredImages.LeakStays` | src/console/DiskWriter.cpp:353-391 | no step frees a leaked slot or changes what it names |
| `Lifecycle.UnflushedIsKept` | src/console/Storage.cpp:642-661 | a record with changes not on disk is flagged and queued or in the batch, unless orphaned, and eviction leaves it alone |
| `Lifecycle.EveryByteOwnedOnce` | src/console/DiskWriter.cpp:203-298 | every byte of the data file belongs to exactly one of: an occupied slot, a deferred free, a free extent |
| `Lifecycle.RebuildKeepsFreeBytes` | src/console/DiskWriter.cpp:473-491 | rebuilding keeps exactly the same free bytes, in maximal extents |
| `Shutdown.Progress` | src/console/DiskWriter.cpp:149-306 | while anything is left to do, the storage thread has an enabled step that makes the remaining work smaller |
| `Shutdown.FinalFlush` | src/console/Storage.cpp:121-138 | from every reachable state with page numbers left for the records still waiting, the storage thread alone empties both queues, and readers notice nothing |
| `Shutdown.OrphanStays` | src/console/DiskWriter.cpp:149-306 | no step of the storage thread changes an orphaned record or gives it back its place |
| `Shutdown.OrphanBlocks` | src/console/Storage.cpp:642-647 | through every run without a write, deletion or defragmentation of x an orphaned x keeps its flag and its record, and eviction leaves it alone |
| `Restart.OpenedOk` | src/console/Storage.cpp:38-119 | opening sound files gives a state that satisfies the invariant; the free map is the exact rest; an empty data file becomes ReallocSize zero bytes |
| `Restart.NewStoreOk` | src/console/Storage.cpp:57-70 | two empty files open to an empty store |
| `Restart.IndexedFirst` | src/console/IndexBlock.cpp:37-58 | a key is loaded from the first slot of the scan that names it |
| `Restart.RestartOk` | src/console/Storage.cpp:74-103 | after a shutdown with empty queues, no orphan and no leaked slot that a scan can find before the live one of its key, the same x, y, records and slots come back |
| `Restart.RestartSameIff` | src/console/IndexBlock.cpp:16-79 | once both queues are empty: every scan brings back the same x from the same slots if and only if each leaked slot lies behind the live slot of its key in the same page and every record has a slot |
| `Restart.ReopenedOk` | src/console/Storage.cpp:74-103 | after any step of any run, whatever has leaked or was orphaned and in any order of the scan, the two files open to a sound store; readers see, for each x, what the first slot of x in the scan names; the free map is the exact rest |
| `Restart.RestartViewIff` | src/console/IndexBlock.cpp:16-79 | in every reachable state: readers notice nothing of a restart, in any order of the scan, if and only if some slot names each x and every slot that is the first of its key in its page reads like the live record of that key |
| `Restart.RestartOrphansIff` | src/console/Storage.cpp:74-103 | with empty queues and no leaked slot that a scan can find before the live one of its key: if and only if every orphaned record has a slot and reads the same from disk as from memory |
| `Restart.OrphanIsLost` | src/console/Storage.cpp:121-138 | with empty queues, an orphaned record that was never stored is found by a scan if and only if a leaked slot names its key |
| `Lives.LostWrite` | src/console/Storage.cpp:388-420 | delete, write, end of the deletion, final flush, restart: the plain map holds the record, the store has no x |
| `Lives.NewStoreLosesWrite` | src/console/Storage.cpp:388-420 | this happens to a new store after a single write of x |
| `Lives.UndoneDeletion` | src/console/DiskWriter.cpp:52-65 | delete, write, delete of a stored x, final flush, restart: the plain map has no x, every scan brings x back |
| `Lives.NewStoreUndoesDeletion` | src/console/DiskWriter.cpp:52-65 | this happens to a new store after one write and one flush of x |
| `Lives.LifeOfStore` | src/console/Storage.cpp:121-138 | new store, any orderly run, final flush, restart: the reader sees the plain map of the run, if the index has a page number left for each record still waiting |
| `Storages.Storage.Init` | src/console/Storage.cpp:38-119 | in place: the records, the free map and the data file of the opened state; false exactly when it cannot be opened |
| `StorageFacts.WriteAnswer` | src/console/Storage.cpp:286-386 | for every write: the answer is fixed by the plain map and the page count before and after, and it alone decides which flags and queue entries change |
| `Storages.Storage.FillIndex` | src/console/IndexBlock.cpp:16-79 | in place: extents of all occupied slots in scan order, and a record for the first slot of each key |
| `Storages.Storage.CheckBlockManager` | src/console/Storage.cpp:672-724 | in place: loads the record if it is not in memory; other records are untouched |
| `Storages.Storage.ReadData` | src/console/Storage.cpp:254-268 | in place: returns what the plain map holds for x, y; x becomes the most recently used key |
| `Storages.Storage.ReadAllData` | src/console/Storage.cpp:270-284 | in place: every y of x once, with its record; x becomes the most recently used key |
| `Storages.Storage.WriteData` | src/console/Storage.cpp:286-386 | in place: performs the write step, and the answer for the client is what the plain map before says: too big, at the limit, below the first key, defragmented, grown by a page; growth and defragmentation relocate the record, a refused one is not queued; x becomes the most recently used key |
| `Storages.Storage.DeleteRecord` | src/console/Storage.cpp:422-449 | in place: performs the deletion of x, y; x becomes the most recently used key |
| `Storages.Storage.DeleteIndex` | src/console/Storage.cpp:388-413 | in place: the first half of DeleteData(x); x leaves the LRU list |
| `Storages.Storage.Remove` | src/console/DiskWriter.cpp:308-312 | in place: the second half of DeleteData(x) |
| `Storages.Storage.DeleteData` | src/console/Storage.cpp:388-420 | in place: both halves with nothing between them; x leaves the LRU list |
| `Storages.Storage.DefragmentData` | src/console/Storage.cpp:559-573 | in place: performs the defragmentation step; readers notice nothing, and the record is in packed pages, no more than before; x becomes the most recently used key |
| `Storages.Storage.DefragmentLoaded` | src/console/Storage.cpp:575-608 | in place: packed pages, both flags, memory and queue |
| `Storages.Storage.CheckMemory` | src/console/Storage.cpp:631-670 | in place: evicts the longest prefix of the LRU list for which the 64-bit counter is above the limit before each key and the key does not wait for the storage thread; readers notice nothing |
| `Storages.Storage.Queue` | src/console/DiskWriter.cpp:37-50 | in place: the record is in the queue and flagged |
| `Storages.Storage.WriteDirtyPages` | src/console/DiskWriter.cpp:99-115 | in place: writes exactly the marked pages and clears their marks |
| `Storages.Storage.AllocateSpace` | src/console/DiskWriter.cpp:117-129 | in place: allocates at best fit, and grows the file only when nothing fits, by the request or by ReallocSize, whichever is more |
| `Storages.Storage.ReallocDataFile` | src/console/DiskWriter.cpp:314-337 | in place: grows the file by at least the request and frees the new end |
| `Storages.Storage.WriteRelocated` | src/console/DiskWriter.cpp:117-147 | in place: all pages, clean, at the allocated place |
| `Storages.Storage.FlushItem` | src/console/DiskWriter.cpp:203-281 | in place: performs the flush of one item |
| `Storages.Storage.EraseItem` | src/console/DiskWriter.cpp:369-391 | in place: performs the erasure of one pending deletion |
| `Storages.Storage.ProcessIndexDeleteQueue` | src/console/DiskWriter.cpp:353-391 | in place: erases everything that was pending |
| `Storages.Storage.Process` | src/console/DiskWriter.cpp:149-306 | in place: performs a legal run of storage-thread steps after which nothing is left to do; readers notice nothing |
| `Storages.Storage.DefragmentFreeSpace` | src/console/DiskWriter.cpp:473-491 | in place: performs the rebuild of the free map |

## Left out

- Engine.StepOk: covers records of at least one byte. A record of zero bytes takes a field and no data; a page of more than 408 of them makes the scan wrap (`Pages.ScanStopsIff` gives the exact bound).
- Engine.StepOk: covers records that are not a client's own packed data. Such a record is unpacked on the way out (`Config.ReadsBackIff`, `Config.ClientPackedMisread`), and defragmentation writes it back unpacked, or drops it when that is more than a page takes.
- Engine.StepOk: without a record limit in force, a write that would need page number 65536 of one x is not covered; the page count is a uint16 there.
- Engine.StepOk: the configuration is fixed during a run; what a lowered record limit does is stated for one write (`Writes.WriteAnswers`, `Writes.WriteContents`, `Engine.RefusedChangeUndone`).
- Engine.RunOk: the same records as Engine.StepOk.
- Engine.ReadAfterRun: the same records as Engine.StepOk.
- ClientSteps.WriteStepOk: the same records as Engine.StepOk.
- Storages.Storage.WriteData: the same records as Engine.StepOk.
- Writes.WriteCorrect: records that are stored with at least one byte, and no page number 65536.
- BlockManagers.BlockManager.WriteRecord: records that are stored with at least one byte, and no page number 65536.
- BlockManagers.BlockManager.DefragmentData: covers a record count within the limit and records that are stored again as they were; above a lowered limit re-insertion would evict, and a client's own packed data would be written back unpacked.
- Defrag.DefragmentCorrect: the same managers as BlockManagers.BlockManager.DefragmentData.
- MemoryAccounting.NeverDriftsIff: needs that zlib has records of one byte and of the largest size that it neither shortens nor takes for packed data, and a limit, if any, of at most 65535, the largest page count; beyond that the limit may be out of reach.
- Lives.LifeOfStore: does not cover a stop in the middle of a step or a torn write; `Restart.ReopenedOk` covers a stop between any two steps.
- Config.ReadsBackIff: the test for packed data is a function of the record's own bytes; the code looks at the first bytes of the page from there, which for a very short record are those of its neighbour.
- Storages.Storage.Init: the index file is whole pages, so that the alignment test of its size always passes; the startup checksum pass, which only reports, is not modelled.
- Storages.Storage.Process: takes its items in any order; the code sorts them by position, which no property depends on.
- gzip and CRC32 internals: an arbitrary lawful codec and an arbitrary function of the stored bytes.
- AVL tree, hash map and growable buffer: an ordered finite map, a map and a sequence.
- Real threads and mutexes: one step per accessor; steps of different threads interleave freely, and the methods of `Storages` perform one step, or for `Process` one uninterrupted batch.
- The two files are byte and page sequences whose reads and writes succeed; the index file is kept as pages of slots, not as bytes, and a slot offset is a slot number (offset / 22).
- The order of concurrent insertions into the list of extents: the rebuilt free map is a function of the extents in scan order; `FreeSpace.RebuildExact` holds for every order.
- `DiskWriter` is part of the class `Storages.Storage`.
- A flush that finds no space on the drive; resizing the file succeeds, so the allocation always does.
- Forced startup with corrupted free space, GetAllX and GetAllY, statistics, free-space dumps, sockets, packet handlers, Python files, configuration watching and service code.
