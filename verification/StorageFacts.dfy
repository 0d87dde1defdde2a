/** Facts about the steps of Store, in the form in which the methods of Storages perform them. */
module StorageFacts {
  import opened Bytes
  import opened Pages
  import opened Config
  import opened Block
  import opened Manager
  import opened Writes
  import opened Retention
  import opened Loading
  import opened Defrag
  import opened FreeSpace
  import opened IndexFile
  import opened Store
  import opened Invariant
  import opened ClientSteps
  import opened SpaceSteps
  import opened FlushSteps
  import opened FlushItem
  import opened Shutdown
  import opened Restart

  // ----- loading

  lemma LoadedIs(s: State, x: uint64, m: Man)
    requires x in s.live && s.live[x].man.None? && !s.live[x].relocate
    requires m == DiskMan(s.file, s.live[x].start, s.live[x].blockCount)
    ensures Loaded(s, x) == s.(live := s.live[x := s.live[x].(man := Some(m))], memUsed := s.memUsed + MemoryUsage(m))
  {
  }

  lemma AlreadyLoaded(s: State, x: uint64)
    requires x in s.live && s.live[x].man.Some?
    ensures Loaded(s, x) == s
  {
  }

  // ----- scanning the index file

  /** The occupied slots of the first `b` pages and of the first `n` slots of the next one. */
  function Scanned(pages: seq<IPage>, b: nat, n: nat): seq<Slot>
    requires b <= |pages| && (b < |pages| ==> n <= |pages[b].slots|) && (b == |pages| ==> n == 0)
  {
    ScanSlots(pages, b) + if b < |pages| then PageSlots(pages[b], b, n) else []
  }

  lemma ScannedSlotStep(pages: seq<IPage>, b: nat, n: nat)
    requires b < |pages| && n < |pages[b].slots|
    ensures Scanned(pages, b, n + 1)
         == Scanned(pages, b, n) + if IsEmpty(pages[b].slots[n]) then [] else [Slot(b, n)]
  {
    hide ScanSlots, IsEmpty;
  }

  lemma ScannedPageStep(pages: seq<IPage>, b: nat)
    requires b < |pages|
    ensures Scanned(pages, b + 1, 0) == Scanned(pages, b, |pages[b].slots|)
  {
    hide PageSlots;
    assert ScanSlots(pages, b + 1) == ScanSlots(pages, b) + PageSlots(pages[b], b, |pages[b].slots|);
    if b + 1 < |pages| {
      NoSlots(pages[b + 1], b + 1);
    }
  }

  lemma NoSlots(p: IPage, b: nat)
    ensures PageSlots(p, b, 0) == []
  {
  }

  lemma ScannedAll(index: Index)
    ensures Scanned(index.pages, |index.pages|, 0) == ScanSlots(index.pages, |index.pages|)
  {
  }

  lemma {:induction false} IndexedPrefix(index: Index, ss: seq<Slot>, t: Slot, n: nat)
    requires n <= |ss| && AllInRange(index, ss) && AllInRange(index, ss + [t])
    ensures Indexed(index, ss + [t], n) == Indexed(index, ss, n)
  {
    if n > 0 {
      IndexedPrefix(index, ss, t, n - 1);
    }
  }

  // ----- the storage thread

  lemma FreedDeferred(s: State, x: uint64)
    requires x in s.deferred
    ensures Freed(s, x).deferred == s.deferred - {x} && Freed(s, x).flushing == s.flushing
  {
    hide AddFree;
  }

  lemma ErasedErasing(s: State, x: uint64)
    requires x in s.erasing
    ensures Erased(s, x).erasing == s.erasing - {x}
  {
    hide AddFree, EraseDrec;
  }

  lemma ErasedIs(cfg: Config, s: State, x: uint64)
    requires Inv(cfg, s) && x in s.erasing
    ensures IndexInv(s.index)
    ensures var d := s.erasing[x];
            && (d.slot.Some? ==> Has(s.index, d.slot.value) && InRange(s.index, d.slot.value))
            && Erased(s, x) == s.(erasing := s.erasing - {x},
                 free := if d.start != -1 then AddFree(s.free, d.start, d.blockCount * BLOCK_SIZE) else s.free,
                 index := if d.slot.Some? then EraseDrec(s.index, d.slot.value) else s.index)
  {
    hide RecordOk, IndexInv, SpaceOk, AddFree;
  }

  lemma TraceInv(cfg: Config, s: State, steps: seq<Step>, now: State)
    requires Trace(cfg, s, steps, now)
    ensures Inv(cfg, now) && View(cfg, now) == View(cfg, s)
  {
    hide Inv, View;
  }

  lemma AfterFlushIs(s: State, s': State, x: uint64, m: Man, w: Flush, slot: Option<Slot>, crc: nat)
    requires x in s.live && slot.Some?
    requires s' == s.(flushing := s.flushing - {x}, live := s'.live, free := w.free, file := w.file,
                      deferred := w.deferred, index := s'.index)
    requires s'.live == s.live[x := RecordIndex(w.start, Some(Cleaned(m)), |m.pages|, slot, crc, false, false,
                                                s.live[x].inQueue && x in s.queue)]
    ensures s' == AfterFlush(s, x, m, w, s'.index, slot.value, crc)
  {
  }

  lemma ReadyFits(cfg: Config, s: State, x: uint64, m: Man)
    requires Ready(cfg, s, x, m)
    ensures AllFit(Cleaned(m).pages)
  {
    hide Inv, ManOk, AllFit, Cleaned;
  }

  /** What is stored, and where, for an item whose record is in memory. */
  ghost function ItemData(cfg: Config, s: State, x: uint64): Flush {
    if x in s.live && s.live[x].man.Some? && AllFit(s.live[x].man.value.pages) && AllFit(Cleaned(s.live[x].man.value).pages)
    then FlushData(cfg, s, x, s.live[x].man.value)
    else Flush(-1, s.free, s.file, s.deferred)
  }

  lemma SpaceFree(cfg: Config, s: State)
    requires Inv(cfg, s)
    ensures FreeOk(s.free) && NonNegative(s.free)
  {
    hide RecordOk, DeletionOk, IndexInv, FreeOk, NonNegative;
    SpaceNonNegative(s.index, s.deferred, s.free, |s.file|);
  }

  /** What becomes of the state when one item is flushed, with the write to the index spelled out. */
  lemma FlushedIs(cfg: Config, s: State, x: uint64, m: Man)
    requires Ready(cfg, s, x, m)
    ensures x in s.live
    ensures var r, w := s.live[x], ItemData(cfg, s, x);
            var crc := cfg.crc(EncodeAll(Cleaned(m).pages));
            var d := Drec(x, w.start, crc, |m.pages|);
            && IndexInv(s.index) && (r.slot.Some? ==> Has(s.index, r.slot.value)) && !IsEmpty(d)
            && var (index, slot) := IndexUpdate(s.index, r.slot, d, r.dirty || crc != r.crc);
               slot.Some? && Flushed(cfg, s, x) == AfterFlush(s, x, m, w, index, slot.value, crc)
  {
    hide Inv, ManOk, SlotChanged, FlushData, EncodeAll, AllFit, Cleaned, WriteDrec, IndexInv, IsEmpty;
    var r, w := s.live[x], FlushData(cfg, s, x, m);
    assert w == ItemData(cfg, s, x);
    var crc := cfg.crc(EncodeAll(Cleaned(m).pages));
    FlushStart(cfg, s, x, m);
    IndexWritten(cfg, s, x, m, w.start, crc);
    InvIndex(cfg, s);
    SlotOf(cfg, s, x);
  }

  /** The index file and the slot of a record after its record in the index was written, if it changed. */
  ghost function IndexUpdate(index: Index, slot: Option<Slot>, d: Drec, changed: bool): (Index, Option<Slot>) {
    if changed && IndexReady(index, slot) then
      var (i, s) := WriteDrec(index, slot, d);
      (i, Some(s))
    else (index, slot)
  }

  lemma SlotOf(cfg: Config, s: State, x: uint64)
    requires Inv(cfg, s) && x in s.live
    ensures s.live[x].slot.Some? ==> Has(s.index, s.live[x].slot.value)
  {
    hide Inv, RecordOk, Has;
    RecordOf(cfg, s, x);
    if s.live[x].slot.Some? {
      RecordSlot(cfg, s.file, s.index, x, s.live[x]);
    }
  }

  lemma GrownFree(free: FreeMap, size: nat, d: int)
    requires FreeOk(free) && d > 0
    ensures FreeOk(AddFree(free, size, d))
  {
    AddFreeCorrect(free, size, d);
  }

  lemma DeletedIs(s: State, x: uint64)
    ensures Deleted(s, x) == if x !in s.live then s.(removes := s.removes + multiset{x})
      else
        var r := s.live[x];
        s.(live := s.live - {x}, removes := s.removes + multiset{x},
           deletions := s.deletions[x := Deletion(r.start, r.blockCount, r.slot)],
           memUsed := s.memUsed - if r.man.Some? then MemoryUsage(r.man.value) else 0)
  {
    hide MemoryUsage;
  }

  // ----- eviction

  /** CheckMemory on the keys of a list, one after the other. */
  ghost function EvictedAll(s: State, keys: seq<uint64>): State {
    if keys == [] then s else Evicted(EvictedAll(s, keys[..|keys| - 1]), keys[|keys| - 1])
  }

  ghost predicate WaitsForDisk(s: State, x: uint64) {
    x in s.live && s.live[x].inQueue
  }

  /** CheckMemory goes on after `i` keys: the counter is above the limit, and the next key is not queued. */
  ghost predicate EvictsAfter(s: State, keys: seq<uint64>, limit: nat, i: nat)
    requires i < |keys|
  {
    Counter(EvictedAll(s, keys[..i]).memUsed) > limit && !WaitsForDisk(EvictedAll(s, keys[..i]), keys[i])
  }

  lemma EvictedNone(s: State, keys: seq<uint64>)
    ensures EvictedAll(s, keys[..0]) == s
  {
  }

  lemma EvictedOneMore(s: State, keys: seq<uint64>, n: nat)
    requires n < |keys|
    ensures EvictedAll(s, keys[..n + 1]) == Evicted(EvictedAll(s, keys[..n]), keys[n])
  {
    hide Evicted;
    assert keys[..n + 1][..n] == keys[..n];
  }

  // ----- reading all records

  /** The list holds every key of the map once, with its value. */
  ghost predicate Lists(c: map<uint64, seq<byte>>, rs: seq<Record>) {
    UniqueKeys(rs) && Keys(rs) == c.Keys && forall r :: r in rs ==> r.key in c && c[r.key] == r.data
  }

  lemma ExpandedKeys(cfg: Config, rs: seq<Record>)
    ensures Keys(ExpandAll(cfg, rs)) == Keys(rs)
    ensures UniqueKeys(rs) ==> UniqueKeys(ExpandAll(cfg, rs))
  {
    hide Expand;
    var es := ExpandAll(cfg, rs);
    forall k ensures k in Keys(es) <==> k in Keys(rs) {
      if e :| e in es && e.key == k {
        var i :| 0 <= i < |es| && es[i] == e;
        assert rs[i] in rs;
      }
      if r :| r in rs && r.key == k {
        var i :| 0 <= i < |rs| && rs[i] == r;
        assert es[i] in es;
      }
    }
  }

  lemma ListsContents(cfg: Config, m: Man)
    requires Valid(m)
    ensures Lists(Readable(cfg, Contents(m)), ExpandAll(cfg, AllRecords(m.pages, |m.pages|)))
  {
    hide Valid, Expand, Lookup, AllRecords, UniqueKeys, Keys;
    var all := AllRecords(m.pages, |m.pages|);
    var rs := ExpandAll(cfg, all);
    AllRecordsUnique(m, |m.pages|);
    IndexInPages(m);
    ExpandedKeys(cfg, all);
    forall r | r in rs ensures r.key in Contents(m) && Expand(cfg, Contents(m)[r.key]) == r.data {
      var i :| 0 <= i < |rs| && rs[i] == r;
      RecordKey(all, i);
    }
  }

  lemma RecordKey(rs: seq<Record>, i: nat)
    requires i < |rs|
    ensures rs[i] in rs && rs[i].key in Keys(rs)
  {
  }

  lemma IndexInPages(m: Man)
    requires Valid(m)
    ensures forall k :: k in m.index ==> m.index[k] < |m.pages|
  {
  }

  // ----- writing and deleting

  /** What the source expects of a write to a record in memory. */
  ghost predicate RoomFor(cfg: Config, m: Man, y: uint64, record: seq<byte>) {
    && |record| >= 1 && (|record| <= MAX_RECORD_SIZE ==> !LooksPacked(cfg, record))
    && (LimitInForce(cfg) || |m.pages| < MAX_BLOCKS || |ManWrite(cfg, m, y, record).0.pages| == |m.pages|)
  }

  lemma EnabledRoom(cfg: Config, s: State, x: uint64, y: uint64, record: seq<byte>)
    requires WriteEnabled(cfg, s, x, y, record) && x in s.live
    ensures RoomFor(cfg, ManOf(s.file, s.live[x]), y, record)
  {
    hide ManWrite, LooksPacked, DiskMan;
  }

  lemma RoomToWrite(cfg: Config, m: Man, y: uint64, record: seq<byte>)
    requires GoodConfig(cfg) && ManOk(cfg, m) && RoomFor(cfg, m, y, record)
    ensures Valid(m) && Writable(cfg, record) && HasRoom(cfg, m, y, record)
    ensures ManWrite(cfg, m, y, record).1.TooBig? <==> |record| > MAX_RECORD_SIZE
    ensures ManWrite(cfg, m, y, record).1.TooBig? ==> ManWrite(cfg, m, y, record).0 == m
    ensures ManOk(cfg, ManWrite(cfg, m, y, record).0)
  {
    hide Valid, Write, Contents, AllCanonical, LooksPacked;
    WritableRecord(cfg, record);
    ManWriteOk(cfg, m, y, record);
    if LimitInForce(cfg) {
      WriteGrowth(cfg, m, y, record);
    }
  }

  lemma NewRoom(cfg: Config, y: uint64, record: seq<byte>)
    requires GoodConfig(cfg) && |record| >= 1
    ensures Valid(Fresh()) && Writable(cfg, record) && HasRoom(cfg, Fresh(), y, record)
  {
    FreshValid();
    WritableRecord(cfg, record);
  }

  /** The record of x before a write, which a write to a new x makes first. */
  function Before(s: State, x: uint64): RecordIndex {
    if x in s.live then s.live[x] else RecordIndex(-1, Some(Fresh()), 1, None, 0, true, true, true)
  }

  /** The map under x that a write finds. */
  function Found(cfg: Config, s: State, x: uint64): map<uint64, seq<byte>> {
    if x in View(cfg, s) then View(cfg, s)[x] else map[]
  }

  /** What a write did to the record, by its answer: growth and defragmentation relocate it, and it is queued
      unless the write was refused. `m` is the manager right after the write; it is defragmented when the
      answer asks for it. */
  ghost predicate RecordWritten(was: Man, m: Man, r: RecordIndex, r': RecordIndex, st: Status)
    requires st.Done?
  {
    && r'.man.Some? && (if st.needDefrag then Packed(r'.man.value.pages) else r'.man == Some(m))
    && (st.reallocated <==> |m.pages| == |was.pages| + 1) && (!st.reallocated <==> |m.pages| == |was.pages|)
    && var moved := st.reallocated || st.needDefrag;
       r' == r.(man := r'.man, relocate := r.relocate || moved, dirty := r.dirty || moved,
                inQueue := r.inQueue || !st.oldRecord)
  }

  /** The answer of WriteData: what the plain map before says about the write, and what became of the
      record. */
  ghost predicate Answered(cfg: Config, s: State, s': State, x: uint64, y: uint64, record: seq<byte>, st: Status)
    requires LimitSound(cfg)
  {
    var r, was := Before(s, x), ManOf(s.file, Before(s, x));
    && x in s'.live && (st.TooBig? <==> |record| > MAX_RECORD_SIZE)
    && (st.TooBig? ==> s'.live[x] == r.(man := Some(was)))
    && (st.Done? ==>
          Reports(cfg, Found(cfg, s, x), y, st)
          && RecordWritten(was, ManWrite(cfg, was, y, record).0, r, s'.live[x], st))
    && s'.queue == if x in s.live && (st.TooBig? || st.oldRecord) then s.queue else s.queue + {x}
  }

  lemma DefragReport(cfg: Config, c: map<uint64, seq<byte>>, y: uint64, st: Status)
    requires LimitSound(cfg) && Reports(cfg, c, y, st)
    ensures st.oldRecord ==> !st.needDefrag
    ensures st.needDefrag ==> c.Keys != {}
  {
    hide IsFirst;
    assert |c| == |c.Keys|;
  }

  /** The answer and the growth of the manager. */
  lemma ManAnswer(cfg: Config, m: Man, y: uint64, record: seq<byte>)
    requires GoodConfig(cfg) && ManOk(cfg, m) && RoomFor(cfg, m, y, record)
    ensures var (m', st) := ManWrite(cfg, m, y, record);
            && (st.TooBig? <==> |record| > MAX_RECORD_SIZE) && (st.TooBig? ==> m' == m)
            && (st.Done? ==>
                  && Reports(cfg, Readable(cfg, Contents(m)), y, st)
                  && |m'.pages| == |m.pages| + (if st.reallocated then 1 else 0)
                  && (st.oldRecord ==> m' == m && !st.reallocated && !st.needDefrag)
                  && (st.needDefrag ==> m.index != map[] && Packed(ManDefrag(cfg, m').pages)))
  {
    hide ManOk, Contents, Readable, LimitedPut, ManWrite, LooksPacked, Reports, Writes.Touched, Packed, ManDefrag;
    ManWriteOk(cfg, m, y, record);
    var (m', st) := ManWrite(cfg, m, y, record);
    if st.Done? {
      DefragReport(cfg, Readable(cfg, Contents(m)), y, st);
    }
    if st.Done? && st.needDefrag {
      ManDefragOk(cfg, m');
    }
  }

  /** The common end of the client operations, as an answer describes it. */
  lemma OperatedAnswer(s: State, x: uint64, was: Man, m: Man, m': Man, st: Status, memUsed: int)
    requires x in s.live && s.live[x].man == Some(was) && st.Done?
    requires |m.pages| == |was.pages| + if st.reallocated then 1 else 0
    requires st.oldRecord ==> !st.needDefrag && !st.reallocated
    requires if st.needDefrag then Packed(m'.pages) else m' == m
    ensures var s' := Operated(s, x, m', st.reallocated || st.needDefrag, !st.oldRecord, memUsed);
            && x in s'.live && RecordWritten(was, m, s.live[x], s'.live[x], st)
            && s'.queue == if st.oldRecord then s.queue else s.queue + {x}
  {
    hide Packed;
  }

  lemma AnswerInMemory(cfg: Config, s: State, x: uint64, y: uint64, record: seq<byte>)
    requires GoodConfig(cfg) && Inv(cfg, s) && x in s.live && s.live[x].man.Some?
    requires RoomFor(cfg, s.live[x].man.value, y, record)
    ensures Answered(cfg, s, Written(cfg, s, x, y, record), x, y, record,
                     ManWrite(cfg, s.live[x].man.value, y, record).1)
  {
    hide Inv, ManOk, Contents, Readable, ManWrite, RoomFor, Written, ManDefrag, View, Reports, Packed, Operated,
         RecordWritten;
    var was := s.live[x].man.value;
    var (m, st) := ManWrite(cfg, was, y, record);
    InMemory(cfg, s, x);
    ViewAt(cfg, s, x);
    ManAnswer(cfg, was, y, record);
    WrittenCases(cfg, s, x, y, record);
    if st.Done? {
      OperatedAnswer(s, x, was, m, if st.needDefrag then ManDefrag(cfg, m) else m, st,
                     Written(cfg, s, x, y, record).memUsed);
    }
  }

  lemma NewRoomFor(cfg: Config, s: State, x: uint64, y: uint64, record: seq<byte>)
    requires WriteEnabled(cfg, s, x, y, record) && x !in s.live
    ensures RoomFor(cfg, Fresh(), y, record)
  {
    hide LooksPacked, ManWrite;
  }

  lemma AnswerNew(cfg: Config, s: State, x: uint64, y: uint64, record: seq<byte>)
    requires GoodConfig(cfg) && Inv(cfg, s) && WriteEnabled(cfg, s, x, y, record) && x !in s.live
    ensures Answered(cfg, s, Written(cfg, s, x, y, record), x, y, record, ManWrite(cfg, Fresh(), y, record).1)
  {
    hide Inv, ManOk, Contents, Readable, ManWrite, RoomFor, Written, MemoryUsage, Reports, Packed;
    FreshOk(cfg);
    assert Readable(cfg, Contents(Fresh())) == map[] by {
      assert Readable(cfg, Contents(Fresh())).Keys == {};
    }
    NewRoomFor(cfg, s, x, y, record);
    ManAnswer(cfg, Fresh(), y, record);
    WrittenNewIs(cfg, s, x, y, record);
  }

  /** Loading the record first makes no difference to the answer. */
  lemma AnswerLoaded(cfg: Config, s: State, s': State, x: uint64, y: uint64, record: seq<byte>, st: Status)
    requires LimitSound(cfg) && Inv(cfg, s) && x in s.live && Answered(cfg, Loaded(s, x), s', x, y, record, st)
    ensures Answered(cfg, s, s', x, y, record, st)
  {
    hide Inv, Loaded, ManWrite, Reports, View, ManOf;
    LoadedOk(cfg, s, x);
    LoadedManOf(cfg, s, x);
  }

  lemma LoadedManOf(cfg: Config, s: State, x: uint64)
    requires Inv(cfg, s) && x in s.live
    ensures x in Loaded(s, x).live
    ensures ManOf(Loaded(s, x).file, Loaded(s, x).live[x]) == ManOf(s.file, s.live[x])
    ensures Loaded(s, x).live[x] == s.live[x].(man := Some(ManOf(s.file, s.live[x])))
  {
    hide Inv, Loaded, DiskMan;
    LoadedOk(cfg, s, x);
    LoadedIsManOf(s, x);
  }

  /** What WriteData answers, for every write that the model covers. */
  lemma WriteAnswer(cfg: Config, s: State, x: uint64, y: uint64, record: seq<byte>)
    requires GoodConfig(cfg) && Inv(cfg, s) && WriteEnabled(cfg, s, x, y, record)
    ensures var m := if x in s.live then ManOf(s.file, s.live[x]) else Fresh();
            Answered(cfg, s, Written(cfg, s, x, y, record), x, y, record, ManWrite(cfg, m, y, record).1)
  {
    hide Inv, ManOf, Answered, Written, ManWrite, WriteEnabled, Loaded, RoomFor;
    if x in s.live {
      LoadedOk(cfg, s, x);
      LoadedManOf(cfg, s, x);
      LoadedWrite(cfg, s, x, y, record);
      EnabledRoom(cfg, s, x, y, record);
      AnswerInMemory(cfg, Loaded(s, x), x, y, record);
      var st := ManWrite(cfg, ManOf(s.file, s.live[x]), y, record).1;
      AnswerLoaded(cfg, s, Written(cfg, s, x, y, record), x, y, record, st);
    } else {
      AnswerNew(cfg, s, x, y, record);
    }
  }

  lemma WrittenIs(cfg: Config, s: State, x: uint64, y: uint64, record: seq<byte>)
    requires x in s.live && s.live[x].man.Some?
    requires var (m', st) := ManWrite(cfg, s.live[x].man.value, y, record); st.TooBig? ==> m' == s.live[x].man.value
    ensures var (m', st) := ManWrite(cfg, s.live[x].man.value, y, record);
            Written(cfg, s, x, y, record)
            == AfterWrite(cfg, s, x, m', st, MemoryUsage(m') - MemoryUsage(s.live[x].man.value))
  {
    hide ManWrite, AfterWrite, Loaded, MemoryUsage;
    AlreadyLoaded(s, x);
  }

  lemma WrittenNewIs(cfg: Config, s: State, x: uint64, y: uint64, record: seq<byte>)
    requires x !in s.live
    ensures var m := ManWrite(cfg, Fresh(), y, record).0;
            Written(cfg, s, x, y, record)
            == s.(live := s.live[x := RecordIndex(-1, Some(m), 1, None, 0, true, true, true)],
                  queue := s.queue + {x}, memUsed := s.memUsed + MemoryUsage(m))
  {
    hide ManWrite, MemoryUsage;
  }

  lemma DefraggedSame(cfg: Config, s: State, x: uint64, r: RecordIndex)
    requires x in s.live && r.man.Some? && r == s.live[x].(man := r.man)
    ensures Defragged(cfg, s.(live := s.live[x := r]), x, r.man.value) == Defragged(cfg, s, x, r.man.value)
  {
    hide ManDefrag, MemoryUsage;
  }

  /** Defragmenting a record in memory leaves it in packed pages. */
  lemma DefraggedCompacted(cfg: Config, s: State, x: uint64)
    requires GoodConfig(cfg) && x in s.live && s.live[x].man.Some? && ManOk(cfg, s.live[x].man.value)
    ensures Compacted(s, Defragged(cfg, s, x, s.live[x].man.value), x)
  {
    hide Packed, ManOk, Contents, ManDefrag, MemoryUsage;
    ManDefragOk(cfg, s.live[x].man.value);
  }

  lemma RecordDeletedIs(s: State, x: uint64, y: uint64)
    requires x in s.live
    ensures var s1 := Loaded(s, x);
            s1.live[x].man.Some? ==>
              var r, m := s1.live[x], s1.live[x].man.value;
              var m' := ManDelete(m, y);
              RecordDeleted(s, x, y)
              == s1.(live := s1.live[x := r.(man := Some(m'), inQueue := true)], queue := s1.queue + {x},
                     memUsed := s1.memUsed + MemoryUsage(m') - MemoryUsage(m))
  {
    hide Loaded, ManDelete, MemoryUsage;
  }

  lemma NothingToDelete(s: State, x: uint64, y: uint64)
    requires x !in s.live
    ensures RecordDeleted(s, x, y) == s
  {
  }

  /** What is stored of a record that is not in memory can be loaded. */
  lemma Loadable(cfg: Config, s: State, x: uint64)
    requires Inv(cfg, s) && x in s.live && s.live[x].man.None?
    ensures var r := s.live[x];
            && !r.relocate && InFile(s.file, r.start, r.blockCount) && r.blockCount <= MAX_BLOCKS
            && var m := DiskMan(s.file, r.start, r.blockCount);
               Valid(m) && AllFit(m.pages) && |m.pages| == r.blockCount
               && EncodeAll(m.pages) == DiskBytes(s.file, r.start, r.blockCount)
  {
    hide Has, Contents, AllCanonical;
    RecordOf(cfg, s, x);
  }
}
