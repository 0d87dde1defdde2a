/** The operations of the clients and of CheckMemory keep the invariant and do to the plain map what
    they should. */
module ClientSteps {
  import opened Bytes
  import opened Pages
  import opened Config
  import opened Manager
  import opened Writes
  import opened Retention
  import opened Loading
  import opened Defrag
  import opened IndexFile
  import opened Store
  import opened Invariant

  // ----- changing one record in memory

  /** The record of x is replaced; nothing on disk changes. */
  ghost predicate RecordSet(s: State, s': State, x: uint64, r: RecordIndex) {
    && s' == s.(live := s.live[x := r], queue := s'.queue, memUsed := s'.memUsed)
    && s.queue <= s'.queue <= s.queue + {x}
    && r.slot == (if x in s.live then s.live[x].slot else None)
    && (x in s'.queue || x in s.flushing ==> r.inQueue)
  }

  lemma RecordSetKeepsInv(cfg: Config, s: State, s': State, x: uint64, r: RecordIndex)
    requires Inv(cfg, s) && RecordSet(s, s', x, r) && RecordOk(cfg, s.file, s.index, x, r)
    ensures Inv(cfg, s')
  {
    hide RecordOk, DeletionOk, IndexInv, SpaceOk;
  }

  lemma RecordSetView(cfg: Config, s: State, s': State, x: uint64, r: RecordIndex)
    requires RecordSet(s, s', x, r)
    ensures View(cfg, s') == View(cfg, s)[x := Seen(cfg, s.file, r)]
  {
    hide Seen;
    var v, v' := View(cfg, s)[x := Seen(cfg, s.file, r)], View(cfg, s');
    assert v.Keys == v'.Keys;
    assert forall k :: k in v ==> v[k] == v'[k];
  }

  lemma RecordOf(cfg: Config, s: State, x: uint64)
    requires Inv(cfg, s) && x in s.live
    ensures RecordOk(cfg, s.file, s.index, x, s.live[x])
  {
    hide RecordOk;
  }

  lemma TouchedMatch(ps: seq<Page>, qs: seq<Page>, ds: seq<Page>)
    requires PagesMatch(ps, ds) && Writes.Touched(ps, qs) && |qs| == |ps|
    ensures PagesMatch(qs, ds)
  {
  }

  /** A record in memory gets a new manager and new flags. */
  lemma RecordChanged(cfg: Config, file: seq<byte>, index: Index, x: uint64, r: RecordIndex, r': RecordIndex)
    requires RecordOk(cfg, file, index, x, r) && r.man.Some?
    requires r' == r.(man := r'.man, relocate := r'.relocate, dirty := r'.dirty, inQueue := r'.inQueue)
    requires r'.man.Some? && ManOk(cfg, r'.man.value) && FlagsOk(r')
    requires var m, m' := r.man.value, r'.man.value;
             && (!r'.relocate ==> !r.relocate && Writes.Touched(m.pages, m'.pages) && |m'.pages| == |m.pages|)
             && (!r'.inQueue ==> !r.inQueue && m' == m)
    ensures RecordOk(cfg, file, index, x, r')
  {
    hide ManOk, ImageOk, Has, DiskMan, DiskBytes, InFile, PagesMatch;
    if r.slot.Some? && !r'.relocate {
      TouchedMatch(r.man.value.pages, r'.man.value.pages, DiskMan(file, r.start, r.blockCount).pages);
    }
  }

  // ----- loading

  lemma LoadedRecord(cfg: Config, file: seq<byte>, index: Index, x: uint64, r: RecordIndex)
    requires RecordOk(cfg, file, index, x, r) && r.man.None?
    ensures !r.relocate && !r.inQueue
    ensures RecordOk(cfg, file, index, x, r.(man := Some(DiskMan(file, r.start, r.blockCount))))
  {
    hide ManOk, Has, Load, Contents;
  }

  /** Loading a record changes nothing that a reader sees; the branch "this cannot happen" of
      CheckBlockManager (not in memory although it must be relocated) is never taken. */
  lemma LoadedOk(cfg: Config, s: State, x: uint64)
    requires Inv(cfg, s) && x in s.live
    ensures var s' := Loaded(s, x);
            && Inv(cfg, s') && View(cfg, s') == View(cfg, s)
            && s'.live.Keys == s.live.Keys && s'.live[x].man.Some?
            && s'.live[x] == s.live[x].(man := s'.live[x].man)
            && s' == s.(live := s'.live, memUsed := s'.memUsed)
    ensures s.live[x].man.None? ==> !s.live[x].relocate
  {
    hide RecordOk, Inv, DiskMan, Contents, Readable, View;
    var r := s.live[x];
    RecordOf(cfg, s, x);
    if r.man.None? {
      var s' := Loaded(s, x);
      LoadedRecord(cfg, s.file, s.index, x, r);
      assert s.live[x := r.(man := Some(DiskMan(s.file, r.start, r.blockCount)))] == s'.live;
      QueuedFlag(cfg, s, x);
      RecordSetKeepsInv(cfg, s, s', x, s'.live[x]);
      RecordSetView(cfg, s, s', x, s'.live[x]);
      ViewAt(cfg, s, x);
    }
  }

  lemma QueuedFlag(cfg: Config, s: State, x: uint64)
    requires Inv(cfg, s) && x in s.live
    ensures x in s.queue || x in s.flushing ==> s.live[x].inQueue
  {
    hide RecordOk, DeletionOk, IndexInv, SpaceOk;
  }

  lemma ViewAt(cfg: Config, s: State, x: uint64)
    requires x in s.live
    ensures x in View(cfg, s) && View(cfg, s)[x] == Seen(cfg, s.file, s.live[x])
    ensures View(cfg, s)[x := View(cfg, s)[x]] == View(cfg, s)
  {
    hide Seen;
  }

  lemma InMemory(cfg: Config, s: State, x: uint64)
    requires Inv(cfg, s) && x in s.live && s.live[x].man.Some?
    ensures ManOk(cfg, s.live[x].man.value) && FlagsOk(s.live[x])
  {
    hide ManOk, DeletionOk, IndexInv, SpaceOk, StoredOk;
  }

  // ----- one operation on a record in memory

  /** The common end of the client operations on a record in memory: a new manager, new flags, and
      the record in the queue unless nothing changed. */
  function Operated(s: State, x: uint64, m: Man, relocate: bool, queued: bool, memUsed: int): State
    requires x in s.live
  {
    var r := s.live[x];
    s.(live := s.live[x := r.(man := Some(m), relocate := r.relocate || relocate,
                              dirty := r.dirty || relocate, inQueue := r.inQueue || queued)],
       queue := if queued then s.queue + {x} else s.queue, memUsed := memUsed)
  }

  lemma OperationOk(cfg: Config, s: State, x: uint64, m': Man, relocate: bool, queued: bool, memUsed: int)
    requires Inv(cfg, s) && x in s.live && s.live[x].man.Some? && ManOk(cfg, m')
    requires relocate ==> queued
    requires var m := s.live[x].man.value;
             && (!relocate ==> Writes.Touched(m.pages, m'.pages) && |m'.pages| == |m.pages|)
             && (!queued ==> m' == m)
    ensures var s' := Operated(s, x, m', relocate, queued, memUsed);
            Inv(cfg, s') && View(cfg, s') == View(cfg, s)[x := Readable(cfg, Contents(m'))]
  {
    hide RecordOk, Inv, ManOk, Contents, Readable, Writes.Touched, View;
    var s' := Operated(s, x, m', relocate, queued, memUsed);
    var r, r' := s.live[x], s'.live[x];
    RecordOf(cfg, s, x);
    InMemory(cfg, s, x);
    QueuedFlag(cfg, s, x);
    RecordChanged(cfg, s.file, s.index, x, r, r');
    RecordSetKeepsInv(cfg, s, s', x, r');
    RecordSetView(cfg, s, s', x, r');
  }

  // ----- WriteData

  lemma NewRecordOk(cfg: Config, file: seq<byte>, index: Index, x: uint64, m: Man)
    requires ManOk(cfg, m)
    ensures RecordOk(cfg, file, index, x, RecordIndex(-1, Some(m), 1, None, 0, true, true, true))
  {
  }

  lemma NewWriteOk(cfg: Config, s: State, x: uint64, y: uint64, record: seq<byte>)
    requires GoodConfig(cfg) && Inv(cfg, s) && WriteEnabled(cfg, s, x, y, record) && x !in s.live
    ensures Inv(cfg, Written(cfg, s, x, y, record))
    ensures View(cfg, Written(cfg, s, x, y, record)) == PlainWrite(cfg, View(cfg, s), x, y, record)
  {
    hide RecordOk, Inv, ManOk, Contents, Readable, LimitedPut, ManWrite, LooksPacked, Reports;
    var m := ManWrite(cfg, Fresh(), y, record).0;
    FreshOk(cfg);
    assert Readable(cfg, Contents(Fresh())) == map[] by {
      assert Readable(cfg, map[]).Keys == {};
    }
    ManWriteOk(cfg, Fresh(), y, record);
    NewRecordOk(cfg, s.file, s.index, x, m);
    var s' := Written(cfg, s, x, y, record);
    RecordSetKeepsInv(cfg, s, s', x, s'.live[x]);
    RecordSetView(cfg, s, s', x, s'.live[x]);
  }

  lemma OldWriteOk(cfg: Config, s: State, x: uint64, y: uint64, record: seq<byte>)
    requires GoodConfig(cfg) && Inv(cfg, s) && x in s.live && s.live[x].man.Some?
    requires |record| >= 1 && (|record| <= MAX_RECORD_SIZE ==> !LooksPacked(cfg, record))
    requires var m := s.live[x].man.value;
             LimitInForce(cfg) || |m.pages| < MAX_BLOCKS || |ManWrite(cfg, m, y, record).0.pages| == |m.pages|
    ensures Inv(cfg, Written(cfg, s, x, y, record))
    ensures View(cfg, Written(cfg, s, x, y, record)) == PlainWrite(cfg, View(cfg, s), x, y, record)
  {
    hide Inv, ManOk, Contents, Readable, LimitedPut, ManWrite, LooksPacked, Writes.Touched, ManDefrag, Operated,
         View, Written, Reports, Packed;
    var m := s.live[x].man.value;
    var (m', status) := ManWrite(cfg, m, y, record);
    InMemory(cfg, s, x);
    ViewAt(cfg, s, x);
    ManWriteOk(cfg, m, y, record);
    WrittenCases(cfg, s, x, y, record);
    var mem := Written(cfg, s, x, y, record).memUsed;
    if status.TooBig? {
    } else if status.oldRecord {
      OperationOk(cfg, s, x, m', false, false, mem);
    } else if status.needDefrag {
      ManDefragOk(cfg, m');
      OperationOk(cfg, s, x, ManDefrag(cfg, m'), true, true, mem);
    } else {
      OperationOk(cfg, s, x, m', status.reallocated, true, mem);
    }
  }

  lemma WrittenCases(cfg: Config, s: State, x: uint64, y: uint64, record: seq<byte>)
    requires x in s.live && s.live[x].man.Some?
    ensures var (m', status) := ManWrite(cfg, s.live[x].man.value, y, record);
            var s' := Written(cfg, s, x, y, record);
            s' == if status.TooBig? then s
                  else if status.oldRecord then Operated(s, x, m', false, false, s'.memUsed)
                  else if status.needDefrag then Operated(s, x, ManDefrag(cfg, m'), true, true, s'.memUsed)
                  else Operated(s, x, m', status.reallocated, true, s'.memUsed)
  {
    hide ManWrite, ManDefrag, MemoryUsage;
    assert Loaded(s, x) == s;
  }

  lemma LoadedWrite(cfg: Config, s: State, x: uint64, y: uint64, record: seq<byte>)
    requires x in s.live && Loaded(s, x).live[x].man.Some?
    ensures Written(cfg, s, x, y, record) == Written(cfg, Loaded(s, x), x, y, record)
  {
    hide ManWrite, AfterWrite, MemoryUsage, Loaded;
    LoadedTwice(s, x);
  }

  lemma LoadedTwice(s: State, x: uint64)
    requires x in s.live && Loaded(s, x).live[x].man.Some?
    ensures x in Loaded(s, x).live && Loaded(Loaded(s, x), x) == Loaded(s, x)
  {
    hide DiskMan, MemoryUsage;
  }

  /** WriteData writes x, y in the plain map, with the record limit of x. */
  lemma WriteStepOk(cfg: Config, s: State, x: uint64, y: uint64, record: seq<byte>)
    requires GoodConfig(cfg) && Inv(cfg, s) && WriteEnabled(cfg, s, x, y, record)
    ensures Inv(cfg, Written(cfg, s, x, y, record))
    ensures View(cfg, Written(cfg, s, x, y, record)) == PlainWrite(cfg, View(cfg, s), x, y, record)
  {
    hide Inv, ManWrite, LooksPacked, Written, PlainWrite, View, DiskMan;
    if x !in s.live {
      NewWriteOk(cfg, s, x, y, record);
    } else {
      LoadedOk(cfg, s, x);
      LoadedWrite(cfg, s, x, y, record);
      LoadedIsManOf(s, x);
      OldWriteOk(cfg, Loaded(s, x), x, y, record);
    }
  }

  lemma LoadedIsManOf(s: State, x: uint64)
    requires x in s.live && Loaded(s, x).live[x].man.Some?
    ensures Loaded(s, x).live[x].man.value == ManOf(s.file, s.live[x])
  {
    hide DiskMan;
  }

  // ----- DeleteData(x, y), DefragmentData, eviction

  /** The record of x is in memory and queued, with as many pages as before and not to be relocated for that. */
  ghost predicate QueuedInPlace(s: State, s': State, x: uint64)
    requires x in s.live
  {
    && x in s'.live && s'.live == s.live[x := s'.live[x]] && s'.queue == s.queue + {x}
    && var r, r' := s.live[x], s'.live[x];
       r'.man.Some? && |r'.man.value.pages| == |ManOf(s.file, r).pages| && r' == r.(man := r'.man, inQueue := true)
  }

  lemma DeletedInPlace(cfg: Config, s: State, x: uint64, y: uint64)
    requires GoodConfig(cfg) && Inv(cfg, s) && x in s.live
    ensures QueuedInPlace(s, RecordDeleted(s, x, y), x)
  {
    hide Inv, ManOk, Contents, Readable, Writes.Touched, ManDelete, View, MemoryUsage, DiskMan;
    var s1 := Loaded(s, x);
    LoadedOk(cfg, s, x);
    LoadedIsManOf(s, x);
    InMemory(cfg, s1, x);
    ManDeleteOk(cfg, s1.live[x].man.value, y);
  }

  lemma DeleteXYOk(cfg: Config, s: State, x: uint64, y: uint64)
    requires GoodConfig(cfg) && Inv(cfg, s)
    ensures Inv(cfg, RecordDeleted(s, x, y))
    ensures View(cfg, RecordDeleted(s, x, y))
         == if x in View(cfg, s) then View(cfg, s)[x := View(cfg, s)[x] - {y}] else View(cfg, s)
    ensures if x in s.live then QueuedInPlace(s, RecordDeleted(s, x, y), x) else RecordDeleted(s, x, y) == s
  {
    hide Inv, ManOk, Contents, Readable, Writes.Touched, ManDelete, Loaded, QueuedInPlace;
    if x in s.live {
      DeletedInPlace(cfg, s, x, y);
      var s1 := Loaded(s, x);
      LoadedOk(cfg, s, x);
      InMemory(cfg, s1, x);
      ViewAt(cfg, s1, x);
      var m := s1.live[x].man.value;
      ManDeleteOk(cfg, m, y);
      OperationOk(cfg, s1, x, ManDelete(m, y), false, true, RecordDeleted(s, x, y).memUsed);
    }
  }

  lemma OperatedRecord(s: State, x: uint64, m: Man, memUsed: int)
    requires x in s.live
    ensures var s' := Operated(s, x, m, true, true, memUsed);
            && x in s'.live && s'.live[x].man == Some(m) && x in s'.queue
            && s'.live[x].relocate && s'.live[x].dirty && s'.live[x].inQueue
  {
  }

  lemma DefraggedIs(cfg: Config, s: State, x: uint64, m: Man)
    requires x in s.live
    ensures var s' := Defragged(cfg, s, x, m); s' == Operated(s, x, ManDefrag(cfg, m), true, true, s'.memUsed)
  {
    hide ManDefrag, MemoryUsage;
  }

  /** The record of x is in memory in packed pages, no more than there were, and waits to be relocated. */
  ghost predicate Compacted(s: State, s': State, x: uint64)
    requires x in s.live
  {
    && x in s'.live && s'.live[x].man.Some?
    && var r, was, m := s'.live[x], ManOf(s.file, s.live[x]), s'.live[x].man.value;
       && r.relocate && r.dirty && r.inQueue && x in s'.queue
       && |m.pages| <= |was.pages| && (was.index != map[] ==> Packed(m.pages))
  }

  /** Defragmentation changes nothing that a reader sees, and leaves the record in packed pages. */
  lemma DefragStepOk(cfg: Config, s: State, x: uint64)
    requires GoodConfig(cfg) && Inv(cfg, s)
    ensures Inv(cfg, DefragStep(cfg, s, x)) && View(cfg, DefragStep(cfg, s, x)) == View(cfg, s)
    ensures x in s.live ==> Compacted(s, DefragStep(cfg, s, x), x)
  {
    hide Packed, Inv, ManOk, Contents, Readable, Writes.Touched, ManDefrag, Loaded, View, MemoryUsage, Operated;
    if x in s.live {
      var s1 := Loaded(s, x);
      LoadedOk(cfg, s, x);
      InMemory(cfg, s1, x);
      ViewAt(cfg, s1, x);
      var m := s1.live[x].man.value;
      ManDefragOk(cfg, m);
      OperationOk(cfg, s1, x, ManDefrag(cfg, m), true, true, DefragStep(cfg, s, x).memUsed);
      DefraggedIs(cfg, s1, x, m);
      LoadedIsManOf(s, x);
      OperatedRecord(s1, x, ManDefrag(cfg, m), DefragStep(cfg, s, x).memUsed);
    }
  }

  lemma EvictedRecord(cfg: Config, file: seq<byte>, index: Index, x: uint64, r: RecordIndex)
    requires RecordOk(cfg, file, index, x, r) && !r.inQueue && r.man.Some?
    ensures RecordOk(cfg, file, index, x, r.(man := None))
    ensures r.man.value == DiskMan(file, r.start, r.blockCount)
  {
    hide ManOk, Has, DiskMan, ImageOk;
  }

  /** A record that is not queued is dropped from memory; it is on disk exactly as it was in memory, so
      that no change is lost. */
  lemma EvictOk(cfg: Config, s: State, x: uint64)
    requires Inv(cfg, s)
    ensures Inv(cfg, Evicted(s, x)) && View(cfg, Evicted(s, x)) == View(cfg, s)
    ensures x in s.live && !s.live[x].inQueue ==> x in Evicted(s, x).live && Evicted(s, x).live[x].man.None?
  {
    hide RecordOk, Inv, Contents, Readable, DiskMan;
    var s' := Evicted(s, x);
    if x in s.live && !s.live[x].inQueue && s.live[x].man.Some? {
      RecordOf(cfg, s, x);
      EvictedRecord(cfg, s.file, s.index, x, s.live[x]);
      QueuedFlag(cfg, s, x);
      RecordSetKeepsInv(cfg, s, s', x, s'.live[x]);
      RecordSetView(cfg, s, s', x, s'.live[x]);
      ViewAt(cfg, s, x);
    }
  }

  // ----- DeleteData(x)

  lemma DeletionOfRecord(cfg: Config, s: State, x: uint64)
    requires x in s.live && RecordOk(cfg, s.file, s.index, x, s.live[x])
    ensures DeletionOk(s.index, x, Deletion(s.live[x].start, s.live[x].blockCount, s.live[x].slot))
  {
    hide ManOk, ImageOk, MatchOk, Has;
  }

  /** Deleting x removes it from the plain map; its extent and slot pass to the pending deletion. */
  lemma DeleteXOk(cfg: Config, s: State, x: uint64)
    requires Inv(cfg, s)
    ensures Inv(cfg, Deleted(s, x)) && View(cfg, Deleted(s, x)) == View(cfg, s) - {x}
  {
    hide RecordOk, DeletionOk, IndexInv, SpaceOk, View;
    if x in s.live {
      DeletionOfRecord(cfg, s, x);
    }
    DeleteXView(cfg, s, x);
  }

  lemma DeleteXView(cfg: Config, s: State, x: uint64)
    ensures View(cfg, Deleted(s, x)) == View(cfg, s) - {x}
  {
    hide Seen, MemoryUsage;
    var v, v' := View(cfg, s) - {x}, View(cfg, Deleted(s, x));
    DeletedKeys(s, x);
    assert v.Keys == v'.Keys;
    assert forall k :: k in v ==> v[k] == v'[k];
  }

  lemma DeletedKeys(s: State, x: uint64)
    ensures Deleted(s, x).live == s.live - {x} && Deleted(s, x).file == s.file
  {
    hide MemoryUsage;
  }

  lemma RemoveFromQueueOk(cfg: Config, s: State, x: uint64)
    requires Inv(cfg, s)
    ensures var s' := s.(removes := s.removes - multiset{x}, queue := s.queue - {x});
            Inv(cfg, s') && View(cfg, s') == View(cfg, s)
  {
    hide RecordOk, DeletionOk, IndexInv, SpaceOk, Seen;
  }
}
