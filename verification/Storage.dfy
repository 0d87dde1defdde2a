/** Storage.cpp and DiskWriter.cpp, in place: records with their block managers on the heap, the
    queues, the two files. Every method is proved against the step of Store that it performs; that a
    step keeps the invariant, and what readers see, is Engine.StepOk. */
module Storages {
  import opened Bytes
  import opened Pages
  import opened Config
  import opened Manager
  import opened Writes
  import opened Retention
  import opened Loading
  import opened Defrag
  import opened FreeSpace
  import opened IndexFile
  import opened Store
  import opened Invariant
  import opened ClientSteps
  import opened FlushSteps
  import opened FlushItem
  import opened BlockManagers
  import opened FreeSpaceMaps
  import opened IndexBlocks
  import opened LRUCaches
  import opened Engine
  import opened Shutdown
  import opened Restart
  import opened StorageFacts

  /** RecordIndex. */
  datatype IndexRecord = IndexRecord(
    start: int,
    manager: BlockManager?,
    blockCount: nat,
    slot: Option<Slot>,
    crc: nat,
    relocate: bool,
    dirty: bool,
    inQueue: bool)

  /** Which record a manager or a buffer belongs to. */
  datatype Owners = Owners(managers: map<BlockManager, uint64>, buffers: map<array<byte>, uint64>)

  /** The entry of x stands for the value `r`: its manager is sound, and with its buffer belongs to x alone. */
  ghost predicate EntryOk(cfg: Config, x: uint64, e: IndexRecord, r: RecordIndex, owners: Owners)
    reads e.manager, if e.manager == null then {} else {e.manager.blocks}
  {
    && r == RecordIndex(e.start, r.man, e.blockCount, e.slot, e.crc, e.relocate, e.dirty, e.inQueue)
    && (if e.manager == null then r.man.None?
        else
          && e.manager in owners.managers && owners.managers[e.manager] == x
          && e.manager.blocks in owners.buffers && owners.buffers[e.manager.blocks] == x
          && e.manager.Ok() && e.manager.cfg == cfg && r.man == Some(e.manager.Abs()))
  }

  /** The manager and its buffer belong to x or to nobody. */
  ghost predicate Mine(m: BlockManager?, x: uint64, owners: Owners)
    reads m
  {
    m != null ==>
      && (m in owners.managers ==> owners.managers[m] == x)
      && (m.blocks in owners.buffers ==> owners.buffers[m.blocks] == x)
  }

  /** The owners after x got a manager. */
  ghost function Assigned(owners: Owners, x: uint64, m: BlockManager?): Owners
    reads m
  {
    if m == null then owners else Owners(owners.managers[m := x], owners.buffers[m.blocks := x])
  }

  lemma StillOk(cfg: Config, x: uint64, e: IndexRecord, r: RecordIndex, owners: Owners, m: BlockManager?, y: uint64)
    requires EntryOk(cfg, x, e, r, owners) && y != x
    requires Mine(m, y, owners)
    ensures EntryOk(cfg, x, e, r, Assigned(owners, y, m))
  {
    hide BlockManager.Ok, BlockManager.Abs;
  }

  lemma KeepsOwned(cfg: Config, x: uint64, e: IndexRecord, r: RecordIndex, owners: Owners)
    requires EntryOk(cfg, x, e, r, owners)
    ensures e.manager != null ==> e.manager in owners.managers && e.manager.blocks in owners.buffers
  {
    hide BlockManager.Ok, BlockManager.Abs;
  }

  lemma SameMan(cfg: Config, x: uint64, e: IndexRecord, r: RecordIndex, owners: Owners)
    requires EntryOk(cfg, x, e, r, owners)
    ensures e.manager == null <==> r.man.None?
    ensures r == RecordIndex(e.start, r.man, e.blockCount, e.slot, e.crc, e.relocate, e.dirty, e.inQueue)
    ensures e.manager != null ==> e.manager.Ok() && e.manager.cfg == cfg && r.man == Some(e.manager.Abs())
    ensures Mine(e.manager, x, owners)
  {
    hide BlockManager.Ok, BlockManager.Abs;
  }

  function RecordOfSlot(d: Drec, t: Slot): IndexRecord {
    IndexRecord(d.start, null, d.blockCount, Some(t), d.crc, false, false, false)
  }

  /** What FillIndex has gathered from the given slots. */
  ghost predicate Filled(index: Index, ss: seq<Slot>, defs: seq<Extent>, records: map<uint64, IndexRecord>)
    requires AllInRange(index, ss)
  {
    var live := Indexed(index, ss, |ss|);
    && defs == SlotExtents(index, ss)
    && records.Keys == live.Keys
    && forall k :: k in live ==> Unloaded(records[k], live[k])
  }

  ghost predicate Unloaded(e: IndexRecord, r: RecordIndex) {
    r == RecordIndex(e.start, None, e.blockCount, e.slot, e.crc, e.relocate, e.dirty, e.inQueue) && e.manager == null
  }

  lemma NothingFilled(index: Index)
    ensures var ss := Scanned(index.pages, 0, 0);
            AllInRange(index, ss) && Filled(index, ss, [], map[])
  {
    assert Scanned(index.pages, 0, 0) == [];
  }

  lemma FilledStep(index: Index, ss: seq<Slot>, defs: seq<Extent>, records: map<uint64, IndexRecord>, t: Slot)
    requires AllInRange(index, ss) && Filled(index, ss, defs, records) && InRange(index, t)
    ensures AllInRange(index, ss + [t])
    ensures var d := DrecAt(index, t);
            Filled(index, ss + [t], defs + [DrecExtent(d)],
                   if d.key in records then records else records[d.key := RecordOfSlot(d, t)])
  {
    IndexedPrefix(index, ss, t, |ss|);
    assert SlotExtents(index, ss + [t]) == SlotExtents(index, ss) + [DrecExtent(DrecAt(index, t))];
  }

  lemma FilledExtents(index: Index, ss: seq<Slot>, defs: seq<Extent>, records: map<uint64, IndexRecord>)
    requires AllInRange(index, ss) && Filled(index, ss, defs, records)
    ensures defs == SlotExtents(index, ss)
  {
  }

  lemma AssignedAlready(owners: Owners, x: uint64, m: BlockManager)
    requires m in owners.managers && m.blocks in owners.buffers
    ensures Assigned(owners, x, m).managers.Keys == owners.managers.Keys
    ensures Assigned(owners, x, m).buffers.Keys == owners.buffers.Keys
  {
  }

  lemma BufferOf(m: BlockManager)
    requires m.Ok()
    ensures AllFit(m.pages) && m.blocks[..] == EncodeAll(m.pages) && m.blockCount == |m.pages|
  {
  }

  lemma NoManager(cfg: Config, x: uint64, e: IndexRecord, r: RecordIndex, owners: Owners)
    requires EntryOk(cfg, x, e, r, owners)
    ensures EntryOk(cfg, x, e.(manager := null), r.(man := None), Assigned(owners, x, null)) && Mine(null, x, owners)
  {
    hide BlockManager.Ok, BlockManager.Abs;
  }

  lemma EntryIs(cfg: Config, x: uint64, e: IndexRecord, r: RecordIndex, owners: Owners)
    requires e.manager != null && e.manager.Ok() && e.manager.cfg == cfg && r.man == Some(e.manager.Abs())
    requires r == RecordIndex(e.start, r.man, e.blockCount, e.slot, e.crc, e.relocate, e.dirty, e.inQueue)
    ensures EntryOk(cfg, x, e, r, Assigned(owners, x, e.manager))
  {
    hide BlockManager.Ok, BlockManager.Abs;
  }

  class Storage {
    const cfg: Config
    const freeSpace: FreeSpaceMap          // m_rFreeSpace
    const indexFile: IndexBlock            // m_pDataIndexDiskWriter
    var dataIndexes: map<uint64, IndexRecord>
    var memoryUsed: int                    // the uint64 counter is its residue
    var file: seq<byte>                    // the data file
    var queue: set<uint64>
    var deletions: map<uint64, Deletion>
    var erasing: map<uint64, Deletion>     // what the storage thread is working on
    var flushing: set<uint64>
    var deferred: map<uint64, Extent>
    var removes: multiset<uint64>
    ghost var live: map<uint64, RecordIndex>
    ghost var owners: Owners

    constructor (cfg: Config, cacheSize: nat, file: seq<byte>, pages: seq<IPage>)
      requires |pages| <= MAX_INDEX_BLOCKS
      ensures Managed() && indexFile.Coherent() && this.cfg == cfg
      ensures Value() == State(map[], {}, multiset{}, map[], map[], {}, map[], map[], file,
                               Index(pages, RoomOf(pages)), 0)
      ensures fresh(freeSpace) && fresh(indexFile) && fresh(indexFile.lru) && fresh(indexFile.lru.chain)
    {
      this.cfg, this.file, memoryUsed := cfg, file, 0;
      freeSpace := new FreeSpaceMap();
      indexFile := new IndexBlock(cacheSize, pages);
      dataIndexes, queue, deletions, erasing, flushing, deferred, removes :=
        map[], {}, map[], map[], {}, map[], multiset{};
      live, owners := map[], Owners(map[], map[]);
    }

    /** The state that the object stands for. */
    ghost function Value(): State
      reads this, freeSpace, indexFile
    {
      State(live, queue, removes, deletions, erasing, flushing, deferred, freeSpace.free, file, indexFile.Abs(),
            memoryUsed)
    }

    ghost predicate Keeps(x: uint64)
      requires x in dataIndexes
      reads this`dataIndexes, this`owners, owners.managers.Keys
    {
      var m := dataIndexes[x].manager;
      m != null ==> m in owners.managers && m.blocks in owners.buffers
    }

    /** Every manager in memory is sound, and no two records share one. */
    ghost predicate Managed()
      reads this`dataIndexes, this`live, this`owners, owners.managers.Keys, owners.buffers.Keys
    {
      && dataIndexes.Keys == live.Keys
      && forall x :: x in dataIndexes ==> Keeps(x) && EntryOk(cfg, x, dataIndexes[x], live[x], owners)
    }

    /** The record of x is replaced; its manager and buffer are its own or new. */
    method SetEntry(x: uint64, e: IndexRecord, ghost r: RecordIndex)
      requires dataIndexes.Keys == live.Keys
      requires forall z :: z in dataIndexes && z != x ==> EntryOk(cfg, z, dataIndexes[z], live[z], owners)
      requires Mine(e.manager, x, owners)
      requires EntryOk(cfg, x, e, r, Assigned(owners, x, e.manager))
      modifies this`dataIndexes, this`live, this`owners
      ensures Managed() && dataIndexes == old(dataIndexes)[x := e] && live == old(live)[x := r]
      ensures owners == Assigned(old(owners), x, e.manager)
    {
      hide EntryOk, Mine, Assigned;
      ghost var all := Assigned(owners, x, e.manager);
      KeepsOwned(cfg, x, e, r, all);
      forall z | z in dataIndexes && z != x
        ensures EntryOk(cfg, z, dataIndexes[z], live[z], all)
        ensures var m := dataIndexes[z].manager; m != null ==> m in all.managers && m.blocks in all.buffers
      {
        StillOk(cfg, z, dataIndexes[z], live[z], owners, e.manager, x);
        KeepsOwned(cfg, z, dataIndexes[z], live[z], all);
      }
      owners, dataIndexes, live := all, dataIndexes[x := e], live[x := r];
    }

    // ----- loading

    /** blman_get_memory_usage. */
    static method UsageOf(m: BlockManager) returns (usage: nat)
      requires m.Ok()
      ensures usage == MemoryUsage(m.Abs())
    {
      hide Valid, EncodeAll, AllFit;
      usage := |m.blockIndex| * AVL_NODE_SIZE + m.blockCount * BLOCK_SIZE + MANAGER_SIZE;
    }

    method LoadManager(x: uint64) returns (m: BlockManager)
      requires Managed() && Inv(cfg, Value()) && x in dataIndexes && dataIndexes[x].manager == null
      ensures fresh(m) && fresh(m.blocks) && m.Ok()
      ensures m.Abs() == DiskMan(file, dataIndexes[x].start, dataIndexes[x].blockCount)
      ensures EntryOk(cfg, x, dataIndexes[x].(manager := m), live[x].(man := Some(m.Abs())), Assigned(owners, x, m))
      ensures !dataIndexes[x].relocate
    {
      hide Inv, Valid, EncodeAll, BlockManager.Ok;
      assert EntryOk(cfg, x, dataIndexes[x], live[x], owners);
      var r := dataIndexes[x];
      Loadable(cfg, Value(), x);
      var bytes, start, n := file, r.start, BLOCK_SIZE * r.blockCount;
      var blocks := new byte[n](i requires 0 <= i < n => bytes[start + i]);
      assert blocks[..] == DiskBytes(file, r.start, r.blockCount);
      m := new BlockManager.Load(cfg, blocks, r.blockCount, DiskMan(file, r.start, r.blockCount));
    }

    lemma EntryOf(x: uint64)
      requires Managed() && x in dataIndexes
      ensures x in live && EntryOk(cfg, x, dataIndexes[x], live[x], owners)
      ensures var e, r := dataIndexes[x], live[x];
              && (e.manager == null <==> r.man.None?)
              && r == RecordIndex(e.start, r.man, e.blockCount, e.slot, e.crc, e.relocate, e.dirty, e.inQueue)
              && (e.manager != null ==> e.manager.Ok() && e.manager.cfg == cfg && r.man == Some(e.manager.Abs()))
    {
      hide BlockManager.Ok, BlockManager.Abs, EntryOk;
      SameMan(cfg, x, dataIndexes[x], live[x], owners);
    }

    /** No other record shares the manager of x or its buffer. */
    lemma OthersApart(x: uint64)
      requires Managed() && x in dataIndexes && dataIndexes[x].manager != null
      ensures forall z :: z in dataIndexes && z != x && dataIndexes[z].manager != null ==>
                dataIndexes[z].manager != dataIndexes[x].manager
                && dataIndexes[z].manager.blocks != dataIndexes[x].manager.blocks
      ensures Mine(dataIndexes[x].manager, x, owners)
      ensures dataIndexes[x].manager in owners.managers && dataIndexes[x].manager.blocks in owners.buffers
    {
      hide BlockManager.Ok, BlockManager.Abs;
    }

    /** The manager of x changed in place; its entry did not. */
    ghost method Account(x: uint64, r: RecordIndex)
      requires dataIndexes.Keys == live.Keys && x in dataIndexes
      requires forall z :: z in dataIndexes && z != x ==> EntryOk(cfg, z, dataIndexes[z], live[z], owners)
      requires Mine(dataIndexes[x].manager, x, owners)
      requires EntryOk(cfg, x, dataIndexes[x], r, Assigned(owners, x, dataIndexes[x].manager))
      modifies this`live, this`owners
      ensures Managed() && live == old(live)[x := r]
      ensures owners == Assigned(old(owners), x, dataIndexes[x].manager)
    {
      hide EntryOk, Mine, Assigned;
      var e, all := dataIndexes[x], Assigned(owners, x, dataIndexes[x].manager);
      KeepsOwned(cfg, x, e, r, all);
      forall z | z in dataIndexes && z != x
        ensures EntryOk(cfg, z, dataIndexes[z], live[z], all)
        ensures var m := dataIndexes[z].manager; m != null ==> m in all.managers && m.blocks in all.buffers
      {
        StillOk(cfg, z, dataIndexes[z], live[z], owners, e.manager, x);
        KeepsOwned(cfg, z, dataIndexes[z], live[z], all);
      }
      owners, live := all, live[x := r];
    }

    /** DiskWriter::Queue, with the entry as the operation leaves it. */
    method Queue(x: uint64, e: IndexRecord, ghost r: RecordIndex)
      requires dataIndexes.Keys == live.Keys
      requires forall z :: z in dataIndexes && z != x ==> EntryOk(cfg, z, dataIndexes[z], live[z], owners)
      requires Mine(e.manager, x, owners) && EntryOk(cfg, x, e, r, Assigned(owners, x, e.manager))
      modifies this`dataIndexes, this`live, this`owners, this`queue
      ensures Managed() && dataIndexes == old(dataIndexes)[x := e.(inQueue := true)]
      ensures live == old(live)[x := r.(inQueue := true)] && queue == old(queue) + {x}
      ensures owners == Assigned(old(owners), x, e.manager)
    {
      hide BlockManager.Ok, BlockManager.Abs;
      queue := queue + {x};
      SetEntry(x, e.(inQueue := true), r.(inQueue := true));
    }

    /** Loads the record of x. */
    method Install(x: uint64)
      requires Managed() && Inv(cfg, Value()) && x in dataIndexes && dataIndexes[x].manager == null
      modifies this`dataIndexes, this`memoryUsed, this`live, this`owners
      ensures Managed() && Value() == Loaded(old(Value()), x)
      ensures x in dataIndexes && fresh(dataIndexes[x].manager) && fresh(dataIndexes[x].manager.blocks)
      ensures dataIndexes == old(dataIndexes)[x := dataIndexes[x]]
      ensures owners == Assigned(old(owners), x, dataIndexes[x].manager)
    {
      hide Inv, DiskMan, MemoryUsage, BlockManager.Ok, BlockManager.Abs, EntryOk, Loaded, Assigned;
      SameMan(cfg, x, dataIndexes[x], live[x], owners);
      var m := LoadManager(x);
      var usage := UsageOf(m);
      ghost var r := live[x].(man := Some(m.Abs()));
      LoadedIs(Value(), x, m.Abs());
      SetEntry(x, dataIndexes[x].(manager := m), r);
      memoryUsed := memoryUsed + usage;
    }

    /** CheckBlockManager. */
    method CheckBlockManager(x: uint64)
      requires Managed() && Inv(cfg, Value()) && x in dataIndexes
      modifies this`dataIndexes, this`memoryUsed, this`live, this`owners
      ensures Managed() && Value() == Loaded(old(Value()), x)
      ensures dataIndexes.Keys == old(dataIndexes.Keys) && dataIndexes[x].manager != null
      ensures forall o :: o in owners.managers ==> o in old(owners.managers) || fresh(o)
      ensures forall o :: o in owners.buffers ==> o in old(owners.buffers) || fresh(o)
    {
      hide Inv, DiskMan, MemoryUsage, BlockManager.Ok, BlockManager.Abs, EntryOk, Loaded;
      if dataIndexes[x].manager == null {
        Install(x);
      } else {
        SameMan(cfg, x, dataIndexes[x], live[x], owners);
        AlreadyLoaded(Value(), x);
      }
    }

    // ----- DeleteData(x, y)

    /** blman_delete_record_by_key, with the memory that it frees. */
    static method DeleteMeasured(m: BlockManager, y: uint64) returns (delta: int)
      requires m.Ok()
      modifies m, m.blocks
      ensures m.Ok() && m.Abs() == ManDelete(old(m.Abs()), y) && m.blocks == old(m.blocks)
      ensures delta == MemoryUsage(m.Abs()) - MemoryUsage(old(m.Abs()))
    {
      hide MemoryUsage, Valid, EncodeAll, AllFit, Delete;
      var before := UsageOf(m);
      m.DeleteRecordByKey(y);
      var after := UsageOf(m);
      delta := (after as int) - before;
    }

    /** Deletes y from a record in memory. */
    method DeleteLoaded(x: uint64, y: uint64)
      requires Managed() && x in dataIndexes && dataIndexes[x].manager != null
      modifies this`dataIndexes, this`memoryUsed, this`live, this`owners, this`queue
      modifies dataIndexes[x].manager, dataIndexes[x].manager.blocks
      ensures Managed() && x in old(live) && old(live[x]).man.Some?
      ensures var r, m := old(live[x]), old(live[x]).man.value;
              var m' := ManDelete(m, y);
              Value() == old(Value()).(live := old(live)[x := r.(man := Some(m'), inQueue := true)],
                                       queue := old(queue) + {x},
                                       memUsed := old(memoryUsed) + MemoryUsage(m') - MemoryUsage(m))
      ensures owners == Assigned(old(owners), x, old(dataIndexes[x]).manager)
    {
      hide MemoryUsage, BlockManager.Ok, BlockManager.Abs, EntryOk, ManDelete, Assigned;
      var e := dataIndexes[x];
      SameMan(cfg, x, e, live[x], owners);
      OthersApart(x);
      var delta := DeleteMeasured(e.manager, y);
      ghost var r := live[x].(man := Some(e.manager.Abs()));
      memoryUsed := memoryUsed + delta;
      EntryIs(cfg, x, e, r, owners);
      Queue(x, e, r);
    }

    /** DeleteData(x, y), after the LRU list was updated; and so for the other operations below. */
    method DeleteFrom(x: uint64, y: uint64)
      requires Managed() && Inv(cfg, Value())
      modifies this`dataIndexes, this`memoryUsed, this`live, this`owners, this`queue
      modifies owners.managers.Keys, owners.buffers.Keys
      ensures Managed() && Value() == RecordDeleted(old(Value()), x, y)
    {
      hide Inv, BlockManager.Ok, BlockManager.Abs, EntryOk, Loaded, RecordDeleted, MemoryUsage, ManDelete;
      if x in dataIndexes {
        ghost var s := Value();
        CheckBlockManager(x);
        RecordDeletedIs(s, x, y);
        OthersApart(x);
        DeleteLoaded(x, y);
      } else {
        NothingToDelete(Value(), x, y);
      }
    }

    // ----- DefragmentData

    /** blman_defragment_data, with the memory before and after. */
    static method DefragmentMeasured(m: BlockManager) returns (before: int, after: int)
      requires m.Ok() && ManOk(m.cfg, m.Abs()) && GoodConfig(m.cfg)
      modifies m, m.blocks
      ensures m.Ok() && m.Abs() == ManDefrag(m.cfg, old(m.Abs()))
      ensures m.blocks == old(m.blocks) || fresh(m.blocks)
      ensures before == MemoryUsage(old(m.Abs())) && after == MemoryUsage(m.Abs())
    {
      hide MemoryUsage, Valid, EncodeAll, AllFit, Defragment, Contents, AllCanonical;
      before := UsageOf(m);
      m.DefragmentData();
      after := UsageOf(m);
    }

    /** DefragmentDataInternal. */
    method DefragmentLoaded(x: uint64)
      requires Managed() && x in dataIndexes && dataIndexes[x].manager != null && GoodConfig(cfg)
      requires x in live && live[x].man.Some? && ManOk(cfg, live[x].man.value)
      modifies this`dataIndexes, this`memoryUsed, this`live, this`owners, this`queue
      modifies dataIndexes[x].manager, dataIndexes[x].manager.blocks
      ensures Managed() && Value() == Defragged(cfg, old(Value()), x, old(live[x]).man.value)
      ensures Compacted(old(Value()), Value(), x)
    {
      hide MemoryUsage, BlockManager.Ok, BlockManager.Abs, EntryOk, ManDefrag, Assigned, ManOk, Compacted;
      DefraggedCompacted(cfg, Value(), x);
      var e := dataIndexes[x];
      SameMan(cfg, x, e, live[x], owners);
      OthersApart(x);
      var before, after := DefragmentMeasured(e.manager);
      ghost var r := live[x].(man := Some(e.manager.Abs()));
      EntryIs(cfg, x, e, r, owners);
      WriteQueued(x, true, if before > after then after - before else before - after, r);
    }

    method DefragmentRecord(x: uint64)
      requires Managed() && Inv(cfg, Value()) && GoodConfig(cfg)
      modifies this`dataIndexes, this`memoryUsed, this`live, this`owners, this`queue
      modifies owners.managers.Keys, owners.buffers.Keys
      ensures Managed() && Value() == DefragStep(cfg, old(Value()), x)
    {
      hide Inv, BlockManager.Ok, BlockManager.Abs, EntryOk, Loaded, Defragged, MemoryUsage, ManOk, Compacted;
      if x in dataIndexes {
        ghost var s := Value();
        LoadedOk(cfg, s, x);
        CheckBlockManager(x);
        InMemory(cfg, Value(), x);
        OthersApart(x);
        DefragmentLoaded(x);
      }
    }

    // ----- WriteData

    /** blman_write_record, with the memory that it adds. */
    static method WriteMeasured(m: BlockManager, y: uint64, record: seq<byte>) returns (status: Status, delta: int)
      requires m.Ok() && Writable(m.cfg, record) && HasRoom(m.cfg, m.Abs(), y, record)
      modifies m, m.blocks
      ensures m.Ok() && (m.blocks == old(m.blocks) || fresh(m.blocks))
      ensures ManWrite(m.cfg, old(m.Abs()), y, record) == (m.Abs(), status)
      ensures delta == MemoryUsage(m.Abs()) - MemoryUsage(old(m.Abs()))
    {
      hide MemoryUsage, Valid, EncodeAll, AllFit, Write, Writable;
      var before := UsageOf(m);
      status := m.WriteRecord(y, record);
      var after := UsageOf(m);
      delta := (after as int) - before;
    }

    /** The part of WriteData for a record in memory. */
    method WriteLoaded(x: uint64, y: uint64, record: seq<byte>) returns (status: Status)
      requires Managed() && x in dataIndexes && dataIndexes[x].manager != null && GoodConfig(cfg)
      requires x in live && live[x].man.Some? && ManOk(cfg, live[x].man.value)
      requires RoomFor(cfg, live[x].man.value, y, record)
      modifies this`dataIndexes, this`memoryUsed, this`live, this`owners, this`queue
      modifies dataIndexes[x].manager, dataIndexes[x].manager.blocks
      ensures Managed() && Value() == Written(cfg, old(Value()), x, y, record)
      ensures status == ManWrite(cfg, old(live[x]).man.value, y, record).1
    {
      hide MemoryUsage, BlockManager.Ok, BlockManager.Abs, EntryOk, ManWrite, ManOk, Written, RoomFor, Assigned, AfterWrite;
      ghost var e := dataIndexes[x];
      SameMan(cfg, x, e, live[x], owners);
      OthersApart(x);
      RoomToWrite(cfg, live[x].man.value, y, record);
      WrittenIs(cfg, Value(), x, y, record);
      var delta;
      status, delta := WriteMeasured(dataIndexes[x].manager, y, record);
      ghost var r := live[x].(man := Some(e.manager.Abs()));
      EntryIs(cfg, x, e, r, owners);
      FinishWrite(x, status, delta, r);
    }

    /** What WriteData does after the write, by its status. */
    method FinishWrite(x: uint64, status: Status, delta: int, ghost r: RecordIndex)
      requires dataIndexes.Keys == live.Keys && x in dataIndexes && dataIndexes[x].manager != null && GoodConfig(cfg)
      requires forall z :: z in dataIndexes && z != x ==> EntryOk(cfg, z, dataIndexes[z], live[z], owners)
      requires Mine(dataIndexes[x].manager, x, owners)
      requires EntryOk(cfg, x, dataIndexes[x], r, Assigned(owners, x, dataIndexes[x].manager))
      requires r.man.Some? && r == live[x].(man := r.man) && ManOk(cfg, r.man.value)
      requires status.TooBig? ==> r == live[x]
      modifies this`dataIndexes, this`memoryUsed, this`live, this`owners, this`queue
      modifies dataIndexes[x].manager, dataIndexes[x].manager.blocks
      ensures Managed() && Value() == AfterWrite(cfg, old(Value()), x, r.man.value, status, delta)
    {
      hide BlockManager.Ok, BlockManager.Abs, EntryOk, ManOk, Defragged, Assigned;
      if status.TooBig? {
        Account(x, r);
      } else if status.oldRecord {
        WriteRefused(x, delta, r);
      } else if status.needDefrag {
        DefragmentWritten(x, r);
      } else {
        WriteQueued(x, status.reallocated, delta, r);
      }
    }

    /** The end of WriteData for eBMS_OldRecord: nothing is queued. */
    method WriteRefused(x: uint64, delta: int, ghost r: RecordIndex)
      requires dataIndexes.Keys == live.Keys && x in dataIndexes && dataIndexes[x].manager != null
      requires forall z :: z in dataIndexes && z != x ==> EntryOk(cfg, z, dataIndexes[z], live[z], owners)
      requires Mine(dataIndexes[x].manager, x, owners)
      requires EntryOk(cfg, x, dataIndexes[x], r, Assigned(owners, x, dataIndexes[x].manager))
      modifies this`memoryUsed, this`live, this`owners
      ensures Managed() && live == old(live)[x := r] && memoryUsed == old(memoryUsed) + delta
    {
      hide BlockManager.Ok, BlockManager.Abs, EntryOk, Mine, Assigned;
      Account(x, r);
      memoryUsed := memoryUsed + delta;
    }

    /** The end of WriteData for eBMS_NeedDefrag. */
    method DefragmentWritten(x: uint64, ghost r: RecordIndex)
      requires dataIndexes.Keys == live.Keys && x in dataIndexes && dataIndexes[x].manager != null && GoodConfig(cfg)
      requires forall z :: z in dataIndexes && z != x ==> EntryOk(cfg, z, dataIndexes[z], live[z], owners)
      requires Mine(dataIndexes[x].manager, x, owners)
      requires EntryOk(cfg, x, dataIndexes[x], r, Assigned(owners, x, dataIndexes[x].manager))
      requires r.man.Some? && r == live[x].(man := r.man) && ManOk(cfg, r.man.value)
      modifies this`dataIndexes, this`memoryUsed, this`live, this`owners, this`queue
      modifies dataIndexes[x].manager, dataIndexes[x].manager.blocks
      ensures Managed() && Value() == Defragged(cfg, old(Value()), x, r.man.value)
    {
      hide BlockManager.Ok, BlockManager.Abs, EntryOk, ManOk, Defragged, Assigned, Mine;
      DefraggedSame(cfg, Value(), x, r);
      Account(x, r);
      DefragmentLoaded(x);
    }

    /** The ordinary end of WriteData, and of DefragmentDataInternal. */
    method WriteQueued(x: uint64, reallocated: bool, delta: int, ghost r: RecordIndex)
      requires dataIndexes.Keys == live.Keys && x in dataIndexes && dataIndexes[x].manager != null
      requires forall z :: z in dataIndexes && z != x ==> EntryOk(cfg, z, dataIndexes[z], live[z], owners)
      requires Mine(dataIndexes[x].manager, x, owners)
      requires EntryOk(cfg, x, dataIndexes[x], r, Assigned(owners, x, dataIndexes[x].manager))
      modifies this`dataIndexes, this`memoryUsed, this`live, this`owners, this`queue
      ensures Managed() && queue == old(queue) + {x} && memoryUsed == old(memoryUsed) + delta
      ensures live == old(live)[x := r.(relocate := r.relocate || reallocated, dirty := r.dirty || reallocated,
                                        inQueue := true)]
    {
      hide BlockManager.Ok, BlockManager.Abs, Mine;
      var e := dataIndexes[x];
      ghost var q := r;
      if reallocated {
        if !e.relocate {
          e := e.(relocate := true);
        }
        e := e.(dirty := true);
        q := q.(relocate := true, dirty := true);
      }
      memoryUsed := memoryUsed + delta;
      Queue(x, e, q);
    }

    /** A new manager with its first record. */
    static method CreateAndWrite(cfg: Config, y: uint64, record: seq<byte>)
      returns (m: BlockManager, status: Status, usage: nat)
      requires GoodConfig(cfg) && |record| >= 1
      ensures fresh(m) && fresh(m.blocks) && m.Ok() && m.cfg == cfg
      ensures ManWrite(cfg, Fresh(), y, record) == (m.Abs(), status) && usage == MemoryUsage(m.Abs())
    {
      hide MemoryUsage, BlockManager.Ok, BlockManager.Abs, ManWrite;
      m := new BlockManager.Create(cfg);
      NewRoom(cfg, y, record);
      var delta;
      status, delta := WriteMeasured(m, y, record);
      usage := UsageOf(m);
    }

    /** The part of WriteData for a new record. */
    method WriteNew(x: uint64, y: uint64, record: seq<byte>) returns (status: Status)
      requires Managed() && x !in dataIndexes && GoodConfig(cfg) && |record| >= 1
      modifies this`dataIndexes, this`memoryUsed, this`live, this`owners, this`queue
      ensures Managed() && Value() == Written(cfg, old(Value()), x, y, record)
      ensures status == ManWrite(cfg, Fresh(), y, record).1
    {
      hide MemoryUsage, BlockManager.Ok, BlockManager.Abs, EntryOk, ManWrite, Assigned, Written;
      WrittenNewIs(cfg, Value(), x, y, record);
      var m, usage;
      m, status, usage := CreateAndWrite(cfg, y, record);
      var e := IndexRecord(-1, m, 1, None, 0, true, true, false);
      ghost var r := RecordIndex(-1, Some(m.Abs()), 1, None, 0, true, true, false);
      EntryIs(cfg, x, e, r, owners);
      memoryUsed := memoryUsed + usage;
      Queue(x, e, r);
    }

    method WriteTo(x: uint64, y: uint64, record: seq<byte>) returns (status: Status)
      requires Managed() && Inv(cfg, Value()) && GoodConfig(cfg) && WriteEnabled(cfg, Value(), x, y, record)
      modifies this`dataIndexes, this`memoryUsed, this`live, this`owners, this`queue
      modifies owners.managers.Keys, owners.buffers.Keys
      ensures Managed() && Value() == Written(cfg, old(Value()), x, y, record)
      ensures Answered(cfg, old(Value()), Value(), x, y, record, status)
    {
      hide Inv, BlockManager.Ok, BlockManager.Abs, EntryOk, Loaded, Written, MemoryUsage, ManOk, ManWrite, DiskMan,
           LooksPacked, RoomFor, Answered;
      ghost var s := Value();
      WriteAnswer(cfg, s, x, y, record);
      if x !in dataIndexes {
        status := WriteNew(x, y, record);
      } else {
        LoadedOk(cfg, s, x);
        LoadedIsManOf(s, x);
        LoadedWrite(cfg, s, x, y, record);
        CheckBlockManager(x);
        InMemory(cfg, Value(), x);
        OthersApart(x);
        EnabledRoom(cfg, s, x, y, record);
        status := WriteLoaded(x, y, record);
      }
    }

    // ----- ReadData

    method ReadFrom(x: uint64, y: uint64) returns (record: Option<seq<byte>>)
      requires Managed() && Inv(cfg, Value())
      modifies this`dataIndexes, this`memoryUsed, this`live, this`owners
      ensures Managed() && Value() == if x in old(dataIndexes) then Loaded(old(Value()), x) else old(Value())
      ensures record == PlainRead(View(cfg, old(Value())), x, y)
    {
      hide Inv, BlockManager.Ok, BlockManager.Abs, EntryOk, Loaded, PlainRead, View, Contents, Expand;
      ReadOk(cfg, Value(), x, y);
      if x !in dataIndexes {
        return None;
      }
      CheckBlockManager(x);
      SameMan(cfg, x, dataIndexes[x], live[x], owners);
      record := ReadLoaded(dataIndexes[x].manager, y);
    }

    static method ReadLoaded(m: BlockManager, y: uint64) returns (record: Option<seq<byte>>)
      requires m.Ok()
      ensures record == if y in Contents(m.Abs()) then Some(Expand(m.cfg, Contents(m.Abs())[y])) else None
    {
      hide Valid, EncodeAll, Lookup, Expand;
      record := m.ReadRecord(y);
    }

    method ReadAllFrom(x: uint64) returns (records: Option<seq<Record>>)
      requires Managed() && Inv(cfg, Value())
      modifies this`dataIndexes, this`memoryUsed, this`live, this`owners
      ensures Managed() && Value() == if x in old(dataIndexes) then Loaded(old(Value()), x) else old(Value())
      ensures records.Some? <==> x in View(cfg, old(Value()))
      ensures records.Some? ==> Lists(View(cfg, old(Value()))[x], records.value)
    {
      hide Inv, BlockManager.Ok, BlockManager.Abs, EntryOk, Loaded, View, Contents, Readable, Lists, AllRecords;
      if x !in dataIndexes {
        return None;
      }
      LoadedOk(cfg, Value(), x);
      CheckBlockManager(x);
      EntryOf(x);
      ViewAt(cfg, Value(), x);
      var rs := ReadAllLoaded(dataIndexes[x].manager);
      records := Some(rs);
    }

    static method ReadAllLoaded(m: BlockManager) returns (records: seq<Record>)
      requires m.Ok()
      ensures Lists(Readable(m.cfg, Contents(m.Abs())), records)
    {
      hide Valid, EncodeAll, Contents, AllRecords, Lists;
      records := m.ReadRecords();
      ListsContents(m.cfg, m.Abs());
    }

    // ----- DeleteData(x)

    method DropRecord(x: uint64)
      requires Managed()
      modifies this`dataIndexes, this`memoryUsed, this`live, this`deletions, this`removes
      ensures Managed() && Value() == Deleted(old(Value()), x)
    {
      hide BlockManager.Ok, BlockManager.Abs, EntryOk, MemoryUsage, Deleted;
      DeletedIs(Value(), x);
      if x in dataIndexes {
        DropIndex(x);
      }
      removes := removes + multiset{x};
    }

    method DropIndex(x: uint64)
      requires Managed() && x in dataIndexes
      modifies this`dataIndexes, this`memoryUsed, this`live, this`deletions
      ensures Managed() && x in old(live)
      ensures live == old(live) - {x}
      ensures var r := old(live)[x];
              && deletions == old(deletions)[x := Deletion(r.start, r.blockCount, r.slot)]
              && memoryUsed == old(memoryUsed) - if r.man.Some? then MemoryUsage(r.man.value) else 0
    {
      hide BlockManager.Ok, BlockManager.Abs, EntryOk, MemoryUsage;
      var e := dataIndexes[x];
      EntryOf(x);
      if e.manager != null {
        var usage := UsageOf(e.manager);
        memoryUsed := memoryUsed - usage;
      }
      Erase(x);
      deletions := deletions[x := Deletion(e.start, e.blockCount, e.slot)];
    }

    method Erase(x: uint64)
      requires Managed() && x in dataIndexes
      modifies this`dataIndexes, this`live
      ensures Managed() && dataIndexes == old(dataIndexes) - {x} && live == old(live) - {x}
    {
      hide BlockManager.Ok, BlockManager.Abs, EntryOk;
      dataIndexes, live := dataIndexes - {x}, live - {x};
    }

    /** DiskWriter::Remove, the end of DeleteData(x). */
    method Remove(x: uint64)
      requires Managed()
      modifies this`queue, this`removes
      ensures Managed() && Value() == Apply(cfg, old(Value()), RemoveFromQueue(x))
    {
      hide EntryOk;
      queue, removes := queue - {x}, removes - multiset{x};
    }

    // ----- the operations of a client

    /** A client operation uses x: it becomes the most recently used key of the worker's list. */
    method Use(lru: LRUCache, x: uint64)
      requires Managed() && lru.Ok()
      modifies lru, lru.chain
      ensures Managed() && Value() == old(Value()) && lru.Ok() && lru.keys == Refreshed(old(lru.keys), x)
    {
      hide BlockManager.Ok, LRUCache.Ok, LRUCache.Links, Tabled, Dropped;
      lru.Put(x);
    }

    /** ReadData(x, y). */
    method ReadData(lru: LRUCache, x: uint64, y: uint64) returns (record: Option<seq<byte>>)
      requires Managed() && Inv(cfg, Value()) && lru.Ok()
      modifies this`dataIndexes, this`memoryUsed, this`live, this`owners, lru, lru.chain
      ensures Managed() && Value() == if x in old(dataIndexes) then Loaded(old(Value()), x) else old(Value())
      ensures record == PlainRead(View(cfg, old(Value())), x, y)
      ensures lru.Ok() && lru.keys == if x in old(dataIndexes) then Refreshed(old(lru.keys), x) else old(lru.keys)
    {
      hide Inv, Managed, LRUCache.Ok, Loaded, PlainRead, View, Refreshed;
      if x in dataIndexes {
        Use(lru, x);
      }
      record := ReadFrom(x, y);
    }

    /** ReadData(x): every y of x once, with its record; None when there is no x. */
    method ReadAllData(lru: LRUCache, x: uint64) returns (records: Option<seq<Record>>)
      requires Managed() && Inv(cfg, Value()) && lru.Ok()
      modifies this`dataIndexes, this`memoryUsed, this`live, this`owners, lru, lru.chain
      ensures Managed() && Value() == if x in old(dataIndexes) then Loaded(old(Value()), x) else old(Value())
      ensures records.Some? <==> x in View(cfg, old(Value()))
      ensures records.Some? ==> Lists(View(cfg, old(Value()))[x], records.value)
      ensures lru.Ok() && lru.keys == if x in old(dataIndexes) then Refreshed(old(lru.keys), x) else old(lru.keys)
    {
      hide Inv, Managed, LRUCache.Ok, Loaded, View, Lists, Refreshed;
      if x in dataIndexes {
        Use(lru, x);
      }
      records := ReadAllFrom(x);
    }

    /** WriteData. */
    method WriteData(lru: LRUCache, x: uint64, y: uint64, record: seq<byte>) returns (status: Status)
      requires Managed() && Inv(cfg, Value()) && GoodConfig(cfg) && WriteEnabled(cfg, Value(), x, y, record) && lru.Ok()
      modifies this`dataIndexes, this`memoryUsed, this`live, this`owners, this`queue
      modifies owners.managers.Keys, owners.buffers.Keys, lru, lru.chain
      ensures Managed() && Value() == Written(cfg, old(Value()), x, y, record)
      ensures Answered(cfg, old(Value()), Value(), x, y, record, status)
      ensures lru.Ok() && lru.keys == Refreshed(old(lru.keys), x)
    {
      hide Inv, Managed, LRUCache.Ok, Written, WriteEnabled, Refreshed, Answered;
      Use(lru, x);
      status := WriteTo(x, y, record);
    }

    /** DeleteData(x, y). */
    method DeleteRecord(lru: LRUCache, x: uint64, y: uint64)
      requires Managed() && Inv(cfg, Value()) && lru.Ok()
      modifies this`dataIndexes, this`memoryUsed, this`live, this`owners, this`queue
      modifies owners.managers.Keys, owners.buffers.Keys, lru, lru.chain
      ensures Managed() && Value() == RecordDeleted(old(Value()), x, y)
      ensures lru.Ok() && lru.keys == if x in old(dataIndexes) then Refreshed(old(lru.keys), x) else old(lru.keys)
    {
      hide Inv, Managed, LRUCache.Ok, RecordDeleted, Refreshed;
      if x in dataIndexes {
        Use(lru, x);
      }
      DeleteFrom(x, y);
    }

    lemma SameKeys()
      requires Managed()
      ensures dataIndexes.Keys == live.Keys
    {
      hide EntryOk;
    }

    /** DefragmentData. */
    method DefragmentData(lru: LRUCache, x: uint64)
      requires Managed() && Inv(cfg, Value()) && GoodConfig(cfg) && lru.Ok()
      modifies this`dataIndexes, this`memoryUsed, this`live, this`owners, this`queue
      modifies owners.managers.Keys, owners.buffers.Keys, lru, lru.chain
      ensures Managed() && Value() == DefragStep(cfg, old(Value()), x)
      ensures View(cfg, Value()) == View(cfg, old(Value())) && Inv(cfg, Value())
      ensures x in old(dataIndexes) ==> Compacted(old(Value()), Value(), x)
      ensures lru.Ok() && lru.keys == if x in old(dataIndexes) then Refreshed(old(lru.keys), x) else old(lru.keys)
    {
      hide Inv, Managed, LRUCache.Ok, DefragStep, Refreshed, Compacted, View;
      ghost var s := Value();
      SameKeys();
      DefragStepOk(cfg, s, x);
      if x in dataIndexes {
        Use(lru, x);
      }
      DefragmentRecord(x);
    }

    /** The worker's list forgets x. */
    method Forget(lru: LRUCache, x: uint64)
      requires Managed() && lru.Ok()
      modifies lru, lru.chain
      ensures Managed() && Value() == old(Value()) && lru.Ok() && lru.keys == Dropped(old(lru.keys), x)
      ensures forall c :: c in lru.chain ==> c in old(lru.chain)
    {
      hide BlockManager.Ok, LRUCache.Ok, LRUCache.Links, Tabled, Dropped;
      var _ := lru.Remove(x);
    }

    /** DeleteData(x), up to the point where x is erased from the map. */
    method DeleteIndex(lru: LRUCache, x: uint64)
      requires Managed() && lru.Ok()
      modifies this`dataIndexes, this`memoryUsed, this`live, this`deletions, this`removes, lru, lru.chain
      ensures Managed() && Value() == Deleted(old(Value()), x)
      ensures lru.Ok() && lru.keys == if x in old(dataIndexes) then Dropped(old(lru.keys), x) else old(lru.keys)
    {
      hide Managed, LRUCache.Ok, Deleted, Dropped;
      if x in dataIndexes {
        Forget(lru, x);
      }
      DropRecord(x);
    }

    /** DeleteData(x), when nothing comes between its two halves. */
    method DeleteData(lru: LRUCache, x: uint64)
      requires Managed() && lru.Ok()
      modifies this`dataIndexes, this`memoryUsed, this`live, this`deletions, this`removes, this`queue, lru, lru.chain
      ensures Managed() && Value() == Apply(cfg, Deleted(old(Value()), x), RemoveFromQueue(x))
      ensures lru.Ok() && lru.keys == if x in old(dataIndexes) then Dropped(old(lru.keys), x) else old(lru.keys)
    {
      hide Managed, LRUCache.Ok, Deleted, Apply, EntryOk, Dropped;
      DeleteIndex(lru, x);
      Remove(x);
    }

    // ----- CheckMemory

    /** One round of CheckMemory, for a record that is not queued. */
    method EvictKey(x: uint64)
      requires Managed() && (x in dataIndexes ==> !dataIndexes[x].inQueue)
      modifies this`dataIndexes, this`memoryUsed, this`live, this`owners
      ensures Managed() && Value() == Evicted(old(Value()), x)
    {
      hide BlockManager.Ok, BlockManager.Abs, EntryOk, MemoryUsage;
      if x in dataIndexes {
        var e := dataIndexes[x];
        SameMan(cfg, x, e, live[x], owners);
        if e.manager != null {
          var usage := UsageOf(e.manager);
          NoManager(cfg, x, e, live[x], owners);
          SetEntry(x, e.(manager := null), live[x].(man := None));
          memoryUsed := memoryUsed - usage;
        }
      }
    }

    /** One round of CheckMemory: evicts the least recently used record, unless it waits for the storage
        thread. */
    method EvictNext(lru: LRUCache) returns (stop: bool)
      requires Managed() && lru.Ok() && Inv(cfg, Value())
      modifies this`dataIndexes, this`memoryUsed, this`live, this`owners, lru, lru.chain
      ensures Managed() && lru.Ok() && Inv(cfg, Value()) && View(cfg, Value()) == View(cfg, old(Value()))
      ensures forall c :: c in lru.chain ==> c in old(lru.chain)
      ensures stop ==> lru.keys == old(lru.keys) && Value() == old(Value())
                       && (lru.keys == [] || WaitsForDisk(Value(), lru.keys[0]))
      ensures !stop ==> old(lru.keys) != [] && lru.keys == old(lru.keys)[1..]
                        && !WaitsForDisk(old(Value()), old(lru.keys)[0])
                        && Value() == Evicted(old(Value()), old(lru.keys)[0])
    {
      hide BlockManager.Ok, BlockManager.Abs, EntryOk, LRUCache.Ok, LRUCache.Links, Tabled, Dropped, Inv, View, Evicted;
      var head := lru.Get();
      if head.None? {
        return true;
      }
      var x := head.value;
      if x in dataIndexes {
        EntryOf(x);
        if dataIndexes[x].inQueue {
          return true;
        }
      }
      EvictOk(cfg, Value(), x);
      EvictKey(x);
      HeadDropped(lru);
      Forget(lru, x);
      return false;
    }

    /** CheckMemory: evicts the least recently used records, as long as the counter is above the limit, the
        list is not empty and its head does not wait for the storage thread; and stops right then. No change
        is lost, and readers notice nothing. */
    method CheckMemory(lru: LRUCache, limit: nat)
      requires Managed() && lru.Ok() && Inv(cfg, Value())
      modifies this`dataIndexes, this`memoryUsed, this`live, this`owners, lru, lru.chain
      ensures Managed() && lru.Ok()
      ensures |lru.keys| <= |old(lru.keys)|
      ensures var n := |old(lru.keys)| - |lru.keys|;
              && lru.keys == old(lru.keys)[n..] && Value() == EvictedAll(old(Value()), old(lru.keys)[..n])
              && forall i :: 0 <= i < n ==> EvictsAfter(old(Value()), old(lru.keys), limit, i)
      ensures Counter(memoryUsed) <= limit || lru.keys == [] || WaitsForDisk(Value(), lru.keys[0])
      ensures Inv(cfg, Value()) && View(cfg, Value()) == View(cfg, old(Value()))
    {
      hide EntryOk, LRUCache.Ok, LRUCache.Links, Tabled, Dropped, Inv, View, Evicted, EvictedAll, WaitsForDisk, Counter;
      ghost var keys, s := lru.keys, Value();
      ghost var n := 0;
      EvictedNone(s, keys);
      while Counter(memoryUsed) > limit
        invariant 0 <= n <= |keys| && lru.keys == keys[n..]
        invariant Managed() && lru.Ok() && Inv(cfg, Value()) && View(cfg, Value()) == View(cfg, s)
        invariant Value() == EvictedAll(s, keys[..n])
        invariant forall i :: 0 <= i < n ==> EvictsAfter(s, keys, limit, i)
        invariant forall c :: c in lru.chain ==> c in old(lru.chain)
        decreases |lru.keys|
      {
        assert forall i :: 0 <= i < |lru.chain| ==> lru.chain[i] in old(lru.chain);
        var stop := EvictNext(lru);
        if stop {
          return;
        }
        EvictedOneMore(s, keys, n);
        n := n + 1;
      }
    }

    // ----- WriteDataWithoutRelocateFlag, WriteDataWithRelocateFlag

    /** WriteDataWithoutRelocateFlag: clears and writes the pages that are marked. */
    method WriteDirtyPages(m: BlockManager, start: int)
      requires m.Ok()
      modifies this`file, m`pages, m.blocks
      ensures m.Ok() && m.Abs() == Cleaned(old(m.Abs()))
      ensures AllFit(old(m.pages)) && file == WriteDirty(old(file), start, old(m.pages), |old(m.pages)|)
    {
      hide Valid, EncodeAll, Encode, WriteAt, ClearDirty;
      ghost var all := m.pages;
      for i := 0 to m.blockCount
        invariant m.Ok() && |m.pages| == |all| == m.blockCount && m.blockIndex == old(m.blockIndex)
        invariant forall b :: 0 <= b < |all| ==> m.pages[b] == if b < i then CleanPage(all[b]) else all[b]
        invariant file == WriteDirty(old(file), start, all, i)
      {
        var dirty, bytes := m.ClearDirtyPage(i);
        if dirty {
          file := WriteAt(file, start + BLOCK_SIZE * i, bytes);
        }
      }
      assert m.pages == Cleaned(old(m.Abs())).pages;
    }

    /** ReallocDataFile. */
    method ReallocDataFile(minSize: int)
      requires minSize > 0
      modifies this`file, freeSpace
      ensures var d := Max(cfg.reallocSize, minSize);
              file == old(file) + Zeros(d) && freeSpace.free == AddFree(old(freeSpace.free), |old(file)|, d)
    {
      var reallocSize := Max(cfg.reallocSize, minSize);
      var start := |file|;
      file := file + Zeros(reallocSize);
      freeSpace.AddFreeSpace(start, reallocSize);
    }

    /** The allocation in WriteDataWithRelocateFlag. */
    method AllocateSpace(len: int) returns (pos: int)
      requires FreeOk(freeSpace.free) && NonNegative(freeSpace.free) && len > 0
      modifies this`file, freeSpace
      ensures var p := Allocate(cfg, old(freeSpace.free), |old(file)|, len);
              pos == p.pos && freeSpace.free == p.free && file == Grown(old(file), p.size)
      ensures Provided(cfg, old(freeSpace.free), |old(file)|, len, Placement(pos, freeSpace.free, |file|))
    {
      hide Alloc, AddFree, NonNegative, FreeOk, Taken, IsBestFit, Provided;
      AllocCorrect(freeSpace.free, len);
      AllocateProvides(cfg, freeSpace.free, |file|, len);
      pos := freeSpace.GetFreeSpacePos(len);
      if pos == -1 {
        GrownFree(freeSpace.free, |file|, Max(cfg.reallocSize, len));
        ReallocDataFile(len);
        pos := freeSpace.GetFreeSpacePos(len);
      }
    }

    /** WriteDataWithRelocateFlag: all pages, to a new place; there always is one. */
    method WriteRelocated(m: BlockManager) returns (pos: int)
      requires m.Ok() && FreeOk(freeSpace.free) && NonNegative(freeSpace.free)
      modifies this`file, freeSpace, m`pages, m.blocks
      ensures m.Ok() && m.Abs() == Cleaned(old(m.Abs())) && AllFit(Cleaned(old(m.Abs())).pages)
      ensures var p := Allocate(cfg, old(freeSpace.free), |old(file)|, BLOCK_SIZE * |old(m.pages)|);
              && pos == p.pos && freeSpace.free == p.free
              && file == WriteAt(Grown(old(file), p.size), pos, EncodeAll(Cleaned(old(m.Abs())).pages))
    {
      hide Valid, EncodeAll, WriteAt, Allocate, Grown, Cleaned;
      PageCount(m.Abs());
      pos := AllocateSpace(BLOCK_SIZE * m.blockCount);
      m.ClearDirtyFlags();
      file := WriteAt(file, pos, m.blocks[..]);
    }

    // ----- one item of Process

    /** Writes the pages of a record, in place or to a new extent; an old extent is set aside. */
    method WritePages(x: uint64, m: BlockManager) returns (start: int)
      requires Managed() && Inv(cfg, Value()) && x in flushing && x in dataIndexes && dataIndexes[x].manager == m
      requires CanFlush(Value(), x)
      modifies this`file, this`deferred, freeSpace, m, m.blocks
      ensures m.Ok() && m.Abs() == Cleaned(old(m.Abs())) && m.blocks == old(m.blocks)
      ensures var w := ItemData(cfg, old(Value()), x);
              start == w.start && file == w.file && freeSpace.free == w.free && deferred == w.deferred
      ensures indexFile.Abs() == old(indexFile.Abs())
    {
      hide Inv, BlockManager.Ok, EntryOk, WriteDirty, WriteAt, Allocate, Grown, EncodeAll, Cleaned, AllFit, FreeOk, NonNegative,
           SpaceOk, Owns, ManOk;
      var e := dataIndexes[x];
      EntryOf(x);
      ReadyToFlush(cfg, Value(), x);
      InvIndex(cfg, Value());
      SpaceFree(cfg, Value());
      if !e.relocate {
        WriteDirtyPages(m, e.start);
        start := e.start;
      } else {
        start := WriteRelocated(m);
        if e.start != -1 {
          deferred := deferred[x := Extent(e.start, e.blockCount * BLOCK_SIZE)];
        }
      }
    }

    /** The slot of the record in the index file, rewritten or taken when something about it changed. */
    method UpdateIndex(slot: Option<Slot>, d: Drec, changed: bool) returns (s: Option<Slot>)
      requires indexFile.Coherent() && IndexInv(indexFile.Abs()) && !IsEmpty(d)
      requires CanAdd(indexFile.Abs(), slot)
      requires slot.Some? ==> Has(indexFile.Abs(), slot.value)
      modifies indexFile, indexFile.lru, indexFile.lru.chain
      ensures indexFile.Coherent()
      ensures forall c :: c in indexFile.lru.chain ==> c in old(indexFile.lru.chain) || fresh(c)
      ensures IndexUpdate(old(indexFile.Abs()), slot, d, changed) == (indexFile.Abs(), s)
    {
      hide IndexInv, IsEmpty, WriteDrec, IndexBlock.Coherent, Has;
      if changed {
        IndexReadyOk(indexFile.Abs(), slot);
        var t := indexFile.WriteRecordIndexToDisk(slot, d);
        s := Some(t);
      } else {
        s := slot;
      }
    }

    /** The end of an item: the record in memory is clean and knows its place. */
    method FinishItem(x: uint64, m: BlockManager, start: int, slot: Option<Slot>, crc: nat)
      requires dataIndexes.Keys == live.Keys && x in dataIndexes && dataIndexes[x].manager == m
      requires forall z :: z in dataIndexes && z != x ==> EntryOk(cfg, z, dataIndexes[z], live[z], owners)
      requires Mine(m, x, owners) && m.Ok() && m.cfg == cfg
      modifies this`dataIndexes, this`live, this`owners, this`flushing
      ensures Managed() && flushing == old(flushing) - {x}
      ensures live == old(live)[x := RecordIndex(start, Some(m.Abs()), |m.pages|, slot, crc, false, false,
                                                 old(dataIndexes[x]).inQueue && x in queue)]
      ensures owners == Assigned(old(owners), x, m)
    {
      hide BlockManager.Abs, EntryOk, Valid, EncodeAll, AllFit, Mine, Assigned;
      var e := IndexRecord(start, m, m.blockCount, slot, crc, false, false, dataIndexes[x].inQueue);
      if x !in queue {
        e := e.(inQueue := false);
      }
      ghost var r := RecordIndex(start, Some(m.Abs()), |m.pages|, slot, crc, false, false, e.inQueue);
      EntryIs(cfg, x, e, r, owners);
      SetEntry(x, e, r);
      flushing := flushing - {x};
    }

    /** The second half of an item: checksum, index file, flags. */
    method StoreIndex(x: uint64, m: BlockManager, start: int)
      requires dataIndexes.Keys == live.Keys && x in dataIndexes && dataIndexes[x].manager == m
      requires forall z :: z in dataIndexes && z != x ==> EntryOk(cfg, z, dataIndexes[z], live[z], owners)
      requires Mine(m, x, owners) && m.Ok() && m.cfg == cfg
      requires indexFile.Coherent() && IndexInv(indexFile.Abs()) && CanAdd(indexFile.Abs(), dataIndexes[x].slot)
      requires !IsEmpty(Drec(x, start, cfg.crc(m.blocks[..]), m.blockCount))
      requires dataIndexes[x].slot.Some? ==> Has(indexFile.Abs(), dataIndexes[x].slot.value)
      modifies this`dataIndexes, this`live, this`owners, this`flushing
      modifies indexFile, indexFile.lru, indexFile.lru.chain
      ensures Managed() && flushing == old(flushing) - {x} && indexFile.Coherent()
      ensures queue == old(queue) && removes == old(removes) && deletions == old(deletions) && erasing == old(erasing)
      ensures memoryUsed == old(memoryUsed) && deferred == old(deferred) && file == old(file)
      ensures owners == Assigned(old(owners), x, m)
      ensures freeSpace.free == old(freeSpace.free)
      ensures forall c :: c in indexFile.lru.chain ==> c in old(indexFile.lru.chain) || fresh(c)
      ensures var e, crc := old(dataIndexes[x]), cfg.crc(m.blocks[..]);
              var (index, slot) := IndexUpdate(old(indexFile.Abs()), e.slot, Drec(x, start, crc, m.blockCount),
                                               e.dirty || crc != e.crc);
              && indexFile.Abs() == index
              && live == old(live)[x := RecordIndex(start, Some(m.Abs()), |m.pages|, slot, crc, false, false,
                                                    e.inQueue && x in queue)]
    {
      hide BlockManager.Ok, IndexUpdate, IndexInv, IsEmpty, IndexBlock.Coherent, Has, Assigned;
      var e, crc := dataIndexes[x], cfg.crc(m.blocks[..]);
      var slot := UpdateIndex(e.slot, Drec(x, start, crc, m.blockCount), e.dirty || crc != e.crc);
      forall z | z in dataIndexes && z != x ensures EntryOk(cfg, z, dataIndexes[z], live[z], owners) {
        assert old(EntryOk(cfg, z, dataIndexes[z], live[z], owners));
      }
      FinishItem(x, m, start, slot, crc);
    }

    /** One item of Process, for a record that still exists. */
    method FlushRecord(x: uint64, m: BlockManager)
      requires Managed() && Inv(cfg, Value()) && x in flushing && x in dataIndexes && dataIndexes[x].manager == m
      requires indexFile.Coherent() && CanFlush(Value(), x)
      modifies this`dataIndexes, this`live, this`owners, this`flushing, this`file, this`deferred
      modifies freeSpace, indexFile, indexFile.lru, indexFile.lru.chain, m, m.blocks
      ensures Managed() && Value() == Flushed(cfg, old(Value()), x)
      ensures owners.managers.Keys == old(owners.managers.Keys) && owners.buffers.Keys == old(owners.buffers.Keys)
      ensures indexFile.Coherent()
      ensures forall c :: c in indexFile.lru.chain ==> c in old(indexFile.lru.chain) || fresh(c)
    {
      hide Inv, BlockManager.Ok, EntryOk, EncodeAll, Cleaned, AllFit, Ready, FlushData, Flushed, IndexUpdate,
           IndexInv, IsEmpty, IndexBlock.Coherent, Has, ItemData, Assigned, AfterFlush;
      ghost var s := Value();
      EntryOf(x);
      ReadyToFlush(cfg, s, x);
      OthersApart(x);
      ghost var mv := live[x].man.value;
      ghost var w := ItemData(cfg, s, x);
      FlushedIs(cfg, s, x, mv);
      ReadyFits(cfg, s, x, mv);
      var start := WritePages(x, m);
      BufferOf(m);
      ghost var crc := cfg.crc(EncodeAll(Cleaned(mv).pages));
      assert cfg.crc(m.blocks[..]) == crc && m.blockCount == |m.pages| == |mv.pages|;
      StoreIndex(x, m, start);
      AssignedAlready(old(owners), x, m);
      AfterFlushIs(s, Value(), x, mv, w, live[x].slot, crc);
    }

    /** One item of Process. */
    method FlushItem(x: uint64)
      requires Managed() && Inv(cfg, Value()) && x in flushing
      requires indexFile.Coherent() && CanFlush(Value(), x)
      modifies this`dataIndexes, this`live, this`owners, this`flushing, this`file, this`deferred
      modifies freeSpace, indexFile, indexFile.lru, indexFile.lru.chain
      modifies owners.managers.Keys, owners.buffers.Keys
      ensures Managed() && Value() == Flushed(cfg, old(Value()), x)
      ensures owners.managers.Keys == old(owners.managers.Keys) && owners.buffers.Keys == old(owners.buffers.Keys)
      ensures indexFile.Coherent()
      ensures forall c :: c in indexFile.lru.chain ==> c in old(indexFile.lru.chain) || fresh(c)
    {
      hide Inv, BlockManager.Ok, BlockManager.Abs, EntryOk, Ready, Flushed, IndexBlock.Coherent;
      if x in dataIndexes {
        EntryOf(x);
        ReadyToFlush(cfg, Value(), x);
        OthersApart(x);
        FlushRecord(x, dataIndexes[x].manager);
      } else {
        NotFlushed(cfg, Value(), x);
        flushing := flushing - {x};
      }
    }

    // ----- ProcessIndexDeleteQueue and Process

    /** EraseRecord on the index file. */
    method EraseSlot(slot: Option<Slot>)
      requires Managed() && indexFile.Coherent() && IndexInv(indexFile.Abs())
      requires slot.Some? ==> Has(indexFile.Abs(), slot.value)
      modifies indexFile, indexFile.lru, indexFile.lru.chain
      ensures Managed() && indexFile.Coherent() && |indexFile.file| == old(|indexFile.file|)
      ensures Value() == old(Value()).(index := if slot.Some? then EraseDrec(old(indexFile.Abs()), slot.value)
                                                else old(indexFile.Abs()))
      ensures forall c :: c in indexFile.lru.chain ==> c in old(indexFile.lru.chain) || fresh(c)
    {
      hide BlockManager.Ok, IndexInv, IsEmpty, IndexBlock.Coherent;
      indexFile.EraseRecord(slot);
    }

    /** One entry of ProcessIndexDeleteQueue: the extent is free again, the slot is empty. */
    method EraseItem(x: uint64)
      requires Managed() && Inv(cfg, Value()) && x in erasing && indexFile.Coherent()
      modifies this`erasing, freeSpace, indexFile, indexFile.lru, indexFile.lru.chain
      ensures Managed() && Value() == Erased(old(Value()), x)
      ensures indexFile.Coherent() && |indexFile.file| == old(|indexFile.file|)
      ensures forall c :: c in indexFile.lru.chain ==> c in old(indexFile.lru.chain) || fresh(c)
    {
      hide Inv, BlockManager.Ok, BlockManager.Abs, IndexInv, Has, IndexBlock.Coherent, AddFree, EntryOk, Erased, EraseDrec;
      var d := erasing[x];
      ErasedIs(cfg, Value(), x);
      EraseSlot(d.slot);
      if d.start != -1 {
        freeSpace.AddFreeSpace(d.start, d.blockCount * BLOCK_SIZE);
      }
      erasing := erasing - {x};
    }

    /** One entry of rFreeSpaceToAdd. */
    method FreeItem(x: uint64)
      requires Managed() && x in deferred
      modifies this`deferred, freeSpace
      ensures Managed() && Value() == Freed(old(Value()), x)
    {
      hide BlockManager.Ok, BlockManager.Abs, AddFree;
      var e := deferred[x];
      deferred := deferred - {x};
      freeSpace.AddFreeSpace(e.pos, e.len);
    }

    /** Takes one entry and erases it. */
    method EraseNext(ghost s: State, ghost before: seq<Step>) returns (ghost steps: seq<Step>)
      requires Managed() && GoodConfig(cfg) && indexFile.Coherent()
      requires Trace(cfg, s, before, Value()) && erasing != map[]
      modifies this`erasing, freeSpace, indexFile, indexFile.lru, indexFile.lru.chain
      ensures Managed() && Trace(cfg, s, steps, Value()) && |erasing| < old(|erasing|)
      ensures indexFile.Coherent() && |indexFile.file| == old(|indexFile.file|)
      ensures forall c :: c in indexFile.lru.chain ==> c in old(indexFile.lru.chain) || fresh(c)
    {
      hide Managed, BlockManager.Ok, BlockManager.Abs, IndexBlock.Coherent, Trace, Erased, EntryOk;
      var x :| x in erasing.Keys;
      TraceInv(cfg, s, before, Value());
      TraceStep(cfg, s, before, Value(), EraseOne(x));
      steps := before + [EraseOne(x)];
      MapSizes(erasing, x);
      ErasedErasing(Value(), x);
      EraseItem(x);
    }

    /** ProcessIndexDeleteQueue. */
    method ProcessIndexDeleteQueue(ghost s: State, ghost before: seq<Step>) returns (ghost steps: seq<Step>)
      requires Managed() && GoodConfig(cfg) && indexFile.Coherent()
      requires Trace(cfg, s, before, Value()) && Idle(Value())
      modifies this`deletions, this`erasing, freeSpace, indexFile, indexFile.lru, indexFile.lru.chain
      ensures Managed() && Trace(cfg, s, steps, Value()) && erasing == map[] && deletions == map[]
      ensures indexFile.Coherent() && |indexFile.file| == old(|indexFile.file|)
      ensures forall c :: c in indexFile.lru.chain ==> c in old(indexFile.lru.chain) || fresh(c)
    {
      hide BlockManager.Ok, BlockManager.Abs, IndexBlock.Coherent, Trace, Erased, EntryOk;
      steps := before;
      if |deletions| == 0 {
        return;
      }
      TraceStep(cfg, s, steps, Value(), TakeDeletions);
      steps := steps + [TakeDeletions];
      erasing, deletions := deletions, map[];
      while |erasing| > 0
        invariant Managed() && Trace(cfg, s, steps, Value())
        invariant deletions == map[]
        invariant indexFile.Coherent() && |indexFile.file| == old(|indexFile.file|)
        invariant forall c :: c in indexFile.lru.chain ==> c in old(indexFile.lru.chain) || fresh(c)
        decreases |erasing|
      {
        assert forall i :: 0 <= i < |indexFile.lru.chain| ==>
            indexFile.lru.chain[i] in old(indexFile.lru.chain) || fresh(indexFile.lru.chain[i]);
        steps := EraseNext(s, steps);
      }
    }

    /** Takes one item of the batch and flushes it. */
    method FlushNext(ghost s: State, ghost before: seq<Step>) returns (ghost steps: seq<Step>)
      requires Managed() && GoodConfig(cfg) && indexFile.Coherent() && |indexFile.file| < MAX_INDEX_BLOCKS
      requires Trace(cfg, s, before, Value()) && flushing != {} && erasing == map[]
      modifies this`dataIndexes, this`live, this`owners, this`flushing, this`file, this`deferred
      modifies freeSpace, indexFile, indexFile.lru, indexFile.lru.chain
      modifies owners.managers.Keys, owners.buffers.Keys
      ensures Managed() && Trace(cfg, s, steps, Value()) && |flushing| == old(|flushing|) - 1
      ensures owners.managers.Keys == old(owners.managers.Keys) && owners.buffers.Keys == old(owners.buffers.Keys)
      ensures indexFile.Coherent() && |indexFile.file| <= old(|indexFile.file|) + 1
      ensures forall c :: c in indexFile.lru.chain ==> c in old(indexFile.lru.chain) || fresh(c)
    {
      hide Managed, BlockManager.Ok, BlockManager.Abs, IndexBlock.Coherent, Trace, Flushed, EntryOk;
      var x :| x in flushing;
      TraceInv(cfg, s, before, Value());
      TraceStep(cfg, s, before, Value(), FlushOne(x));
      steps := before + [FlushOne(x)];
      FlushedSizes(cfg, Value(), x);
      FlushItem(x);
    }

    /** The batch of Process. */
    method FlushAll(ghost s: State, ghost before: seq<Step>) returns (ghost steps: seq<Step>)
      requires Managed() && GoodConfig(cfg) && indexFile.Coherent()
      requires |indexFile.file| + |flushing| <= MAX_INDEX_BLOCKS
      requires Trace(cfg, s, before, Value()) && erasing == map[]
      modifies this`dataIndexes, this`live, this`owners, this`flushing, this`file, this`deferred
      modifies freeSpace, indexFile, indexFile.lru, indexFile.lru.chain
      modifies owners.managers.Keys, owners.buffers.Keys
      ensures Managed() && Trace(cfg, s, steps, Value()) && flushing == {}
      ensures indexFile.Coherent()
      ensures forall c :: c in indexFile.lru.chain ==> c in old(indexFile.lru.chain) || fresh(c)
    {
      hide Managed, BlockManager.Ok, BlockManager.Abs, IndexBlock.Coherent, Trace, EntryOk;
      steps := before;
      while |flushing| > 0
        invariant Managed() && Trace(cfg, s, steps, Value())
        invariant indexFile.Coherent() && |indexFile.file| + |flushing| <= MAX_INDEX_BLOCKS
        invariant owners.managers.Keys == old(owners.managers.Keys) && owners.buffers.Keys == old(owners.buffers.Keys)
        invariant forall c :: c in indexFile.lru.chain ==> c in old(indexFile.lru.chain) || fresh(c)
        decreases |flushing|
      {
        assert forall i :: 0 <= i < |indexFile.lru.chain| ==>
            indexFile.lru.chain[i] in old(indexFile.lru.chain) || fresh(indexFile.lru.chain[i]);
        steps := FlushNext(s, steps);
      }
    }

    /** The extents set aside by the batch become free. */
    method FreeAll(ghost s: State, ghost before: seq<Step>) returns (ghost steps: seq<Step>)
      requires Managed() && GoodConfig(cfg)
      requires Trace(cfg, s, before, Value()) && flushing == {}
      modifies this`deferred, freeSpace
      ensures Managed() && Trace(cfg, s, steps, Value()) && deferred == map[]
    {
      hide Managed, BlockManager.Ok, BlockManager.Abs, Trace, EntryOk, Freed;
      steps := before;
      while |deferred| > 0
        invariant Managed() && Trace(cfg, s, steps, Value())
        decreases |deferred|
      {
        var x :| x in deferred.Keys;
        TraceStep(cfg, s, steps, Value(), FreeOne(x));
        steps := steps + [FreeOne(x)];
        MapSizes(deferred, x);
        FreedDeferred(Value(), x);
        FreeItem(x);
      }
    }

    /** The queue becomes the batch. */
    method TakeBatch(ghost s: State, ghost before: seq<Step>) returns (ghost steps: seq<Step>)
      requires Managed() && GoodConfig(cfg) && Trace(cfg, s, before, Value()) && Idle(Value())
      modifies this`queue, this`flushing
      ensures Managed() && Trace(cfg, s, steps, Value()) && queue == {} && flushing == old(queue)
    {
      hide BlockManager.Ok, BlockManager.Abs, Trace, EntryOk;
      TraceStep(cfg, s, before, Value(), TakeQueue);
      steps := before + [TakeQueue];
      flushing, queue := queue, {};
    }

    /** The part of Process that writes what was queued. */
    method WriteQueue(ghost s: State, ghost before: seq<Step>) returns (ghost steps: seq<Step>)
      requires Managed() && GoodConfig(cfg) && Trace(cfg, s, before, Value()) && Idle(Value())
      requires indexFile.Coherent() && |indexFile.file| + |queue| <= MAX_INDEX_BLOCKS
      modifies this`queue, this`dataIndexes, this`live, this`owners, this`flushing, this`file, this`deferred
      modifies freeSpace, indexFile, indexFile.lru, indexFile.lru.chain
      modifies owners.managers.Keys, owners.buffers.Keys
      ensures Managed() && indexFile.Coherent() && Trace(cfg, s, steps, Value())
      ensures flushing == {} && queue == {} && deferred == map[]
    {
      hide Managed, BlockManager.Ok, BlockManager.Abs, IndexBlock.Coherent, Trace, EntryOk;
      steps := before;
      if |queue| == 0 {
        return;
      }
      steps := TakeBatch(s, steps);
      steps := FlushAll(s, steps);
      steps := FreeAll(s, steps);
    }

    /** Process: erases what was deleted, writes what was queued, then frees what was relocated. Run to
        its end it leaves nothing to do, and readers notice nothing. */
    method Process() returns (ghost steps: seq<Step>)
      requires Managed() && GoodConfig(cfg) && Inv(cfg, Value()) && Idle(Value())
      requires indexFile.Coherent() && |indexFile.file| + |queue| <= MAX_INDEX_BLOCKS
      modifies this`deletions, this`erasing, this`queue
      modifies this`dataIndexes, this`live, this`owners, this`flushing, this`file, this`deferred
      modifies freeSpace, indexFile, indexFile.lru, indexFile.lru.chain
      modifies owners.managers.Keys, owners.buffers.Keys
      ensures Managed() && indexFile.Coherent()
      ensures Trace(cfg, old(Value()), steps, Value()) && Finished(Value())
    {
      hide Managed, BlockManager.Ok, BlockManager.Abs, IndexBlock.Coherent, Trace, EntryOk;
      ghost var s := Value();
      TraceStart(cfg, s);
      steps := ProcessIndexDeleteQueue(s, []);
      assert forall i :: 0 <= i < |indexFile.lru.chain| ==>
          indexFile.lru.chain[i] in old(indexFile.lru.chain) || fresh(indexFile.lru.chain[i]);
      steps := WriteQueue(s, steps);
    }

    // ----- Init and DefragmentFreeSpace

    /** FillIndex over all pages: the extents that the index names, and a record for each key. */
    static method FillIndex(pages: seq<IPage>, ghost blocks: set<nat>)
      returns (defs: seq<Extent>, records: map<uint64, IndexRecord>)
      requires |pages| <= MAX_INDEX_BLOCKS
      ensures AllInRange(Index(pages, blocks), Scanned(pages, |pages|, 0))
      ensures Filled(Index(pages, blocks), Scanned(pages, |pages|, 0), defs, records)
    {
      hide Filled, Scanned, AllInRange;
      ghost var index := Index(pages, blocks);
      defs, records := [], map[];
      NothingFilled(index);
      for b := 0 to |pages|
        invariant AllInRange(index, Scanned(pages, b, 0)) && Filled(index, Scanned(pages, b, 0), defs, records)
      {
        DiskPageIff(b);
        var page := ReadPage(pages, b);
        for i := 0 to |page.slots|
          invariant AllInRange(index, Scanned(pages, b, i)) && Filled(index, Scanned(pages, b, i), defs, records)
        {
          var d := page.slots[i];
          ScannedSlotStep(pages, b, i);
          if !IsEmpty(d) {
            FilledStep(index, Scanned(pages, b, i), defs, records, Slot(b, i));
            if d.key !in records {
              records := records[d.key := RecordOfSlot(d, Slot(b, i))];
            }
            defs := defs + [DrecExtent(d)];
          } else {
            assert Scanned(pages, b, i) + [] == Scanned(pages, b, i);
          }
        }
        ScannedPageStep(pages, b);
      }
    }

    /** DefragmentFreeSpace: the free map is rebuilt from the index file. */
    method DefragmentFreeSpace()
      requires Managed() && |indexFile.file| <= MAX_INDEX_BLOCKS
      modifies freeSpace
      ensures Managed() && Value() == Rebuilt(old(Value()))
    {
      hide Rebuild, Scanned, BlockManager.Ok, BlockManager.Abs;
      var defs, records := FillIndex(indexFile.file, indexFile.freeBlocks);
      ScannedAll(indexFile.Abs());
      FilledExtents(indexFile.Abs(), Scanned(indexFile.file, |indexFile.file|, 0), defs, records);
      var ok := freeSpace.LoadFreeSpaceFromIndexDef(defs, |file|);
    }

    /** Init: the state that the two files stand for; false when the index names unsound extents. */
    method Init() returns (ok: bool)
      requires dataIndexes == map[] && live == map[] && |indexFile.file| <= MAX_INDEX_BLOCKS
      requires Value() == State(map[], {}, multiset{}, map[], map[], {}, map[], freeSpace.free, file,
                                Index(indexFile.file, RoomOf(indexFile.file)), 0)
      modifies this`dataIndexes, this`live, this`file, freeSpace
      ensures AllInRange(indexFile.Abs(), ScanSlots(indexFile.file, |indexFile.file|))
      ensures var o := Opened(cfg, old(file), indexFile.file, ScanSlots(indexFile.file, |indexFile.file|));
              ok == o.Some? && (ok ==> Managed() && Value() == o.value)
    {
      hide Rebuild, Scanned, Indexed, RoomOf;
      var pages := indexFile.file;
      if |file| == 0 && cfg.reallocSize > 0 {
        file := file + Zeros(cfg.reallocSize);
      }
      var defs, records := FillIndex(pages, indexFile.freeBlocks);
      ScannedAll(indexFile.Abs());
      FilledExtents(indexFile.Abs(), Scanned(pages, |pages|, 0), defs, records);
      ok := freeSpace.LoadFreeSpaceFromIndexDef(defs, |file|);
      if ok {
        live := Indexed(indexFile.Abs(), Scanned(pages, |pages|, 0), |Scanned(pages, |pages|, 0)|);
        dataIndexes := records;
      }
    }
  }
}
