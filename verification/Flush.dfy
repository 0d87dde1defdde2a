/** A flushed item keeps the invariant and the plain map: afterwards its record is on disk exactly as
    it is in memory, and nobody else's bytes have moved. */
module FlushItem {
  import opened Bytes
  import opened Pages
  import opened Config
  import opened Manager
  import opened Loading
  import opened FreeSpace
  import opened IndexFile
  import opened Tiling
  import opened Store
  import opened Invariant
  import opened ClientSteps
  import opened SpaceSteps
  import opened FlushSteps

  /** The record of an item in the running batch is in memory. */
  ghost predicate Ready(cfg: Config, s: State, x: uint64, m: Man) {
    && Inv(cfg, s) && x in s.flushing && x in s.live && s.live[x].man == Some(m) && CanFlush(s, x)
    && ManOk(cfg, m) && AllFit(m.pages) && AllFit(Cleaned(m).pages)
  }

  function ByteCount(m: Man): nat {
    BLOCK_SIZE * |m.pages|
  }

  ghost predicate Placed(s: State, x: uint64, m: Man, w: Flush)
    requires x in s.live && AllFit(Cleaned(m).pages)
  {
    && w.start >= 0 && InFile(w.file, w.start, |m.pages|)
    && DiskBytes(w.file, w.start, |m.pages|) == EncodeAll(Cleaned(m).pages)
    && SameOutside(s.file, w.file, w.start, ByteCount(m))
  }

  lemma InPlace(cfg: Config, s: State, x: uint64, m: Man)
    requires Ready(cfg, s, x, m) && !s.live[x].relocate
    ensures var w, r := FlushData(cfg, s, x, m), s.live[x];
            && Placed(s, x, m, w) && |w.file| == |s.file|
            && w.start == r.start && w.free == s.free && w.deferred == s.deferred
            && r.slot.Some? && r.blockCount == |m.pages|
  {
    hide ManOk, WriteDirty, EncodeAll, DiskBytes, Has, SameOutside, PagesMatch, Inv;
    var r := s.live[x];
    RecordOf(cfg, s, x);
    var dm := DiskMan(s.file, r.start, r.blockCount);
    StoredPages(cfg, s.file, s.index, x, r, m);
    WriteDirtyAll(s.file, r.start, m, dm.pages);
  }

  /** A record that stays where it is: its pages match the stored ones. */
  lemma StoredPages(cfg: Config, file: seq<byte>, index: Index, x: uint64, r: RecordIndex, m: Man)
    requires RecordOk(cfg, file, index, x, r) && !r.relocate && r.man == Some(m)
    ensures r.slot.Some? && r.start >= 0 && r.blockCount == |m.pages| && InFile(file, r.start, |m.pages|)
    ensures var ds := DiskMan(file, r.start, r.blockCount).pages;
            PagesMatch(m.pages, ds) && AllFit(ds) && DiskBytes(file, r.start, |m.pages|) == EncodeAll(ds)
  {
    hide ManOk, EncodeAll, Has;
  }

  lemma Relocated(cfg: Config, s: State, x: uint64, m: Man)
    requires Ready(cfg, s, x, m) && s.live[x].relocate
    ensures var w, r := FlushData(cfg, s, x, m), s.live[x];
            && Placed(s, x, m, w) && FreeOk(w.free)
            && Tiles(WithOwner(Space(s.index, s.deferred, w.free), Deferred(x), Extent(w.start, ByteCount(m))), |w.file|)
            && w.deferred == (if r.start != -1 then s.deferred[x := Extent(r.start, r.blockCount * BLOCK_SIZE)]
                              else s.deferred)
  {
    hide ManOk, EncodeAll, DiskBytes, SameOutside, Space, Tiles, RecordOk, DeletionOk, IndexInv, SpaceOk, Allocate,
         WriteAt, Grown, FreeOk;
    OnePage(cfg, m);
    AllocateOk(cfg, s.index, s.deferred, s.free, |s.file|, ByteCount(m), Deferred(x));
    var p := Allocate(cfg, s.free, |s.file|, ByteCount(m));
    RelocatedFile(s.file, p.size, p.pos, EncodeAll(Cleaned(m).pages), |m.pages|);
  }

  lemma OnePage(cfg: Config, m: Man)
    requires ManOk(cfg, m)
    ensures |m.pages| >= 1
  {
  }

  // ----- the index

  /** The index afterwards: the record's slot holds its new position, checksum and size. When nothing
      was dirty and the checksum is the same, it already did. */
  lemma IndexWritten(cfg: Config, s: State, x: uint64, m: Man, start: int, crc: nat)
    requires Ready(cfg, s, x, m) && start >= 0
    requires !s.live[x].relocate ==> start == s.live[x].start && |m.pages| == s.live[x].blockCount
    ensures IndexReady(s.index, s.live[x].slot)
    ensures var r, d := s.live[x], Drec(x, start, crc, |m.pages|);
            var (index, slot) := if r.dirty || crc != r.crc then
                                   var (i, sl) := WriteDrec(s.index, r.slot, d); (i, Some(sl))
                                 else (s.index, r.slot);
            && slot.Some? && SlotChanged(s.index, index, slot.value, d) && IndexInv(index) && !IsEmpty(d)
            && (if r.slot.Some? then slot == r.slot else !Has(s.index, slot.value))
  {
    hide ManOk, Inv, IndexInv, StoredOk, WriteDrec, SlotChanged;
    var r := s.live[x];
    OnePage(cfg, m);
    RecordOf(cfg, s, x);
    InvIndex(cfg, s);
    if r.slot.Some? {
      RecordSlot(cfg, s.file, s.index, x, r);
      SameSlot(s.index, r.slot.value);
    }
    WriteDrecCorrect(s.index, r.slot, Drec(x, start, crc, |m.pages|));
    IndexReadyOk(s.index, r.slot);
  }

  lemma InvIndex(cfg: Config, s: State)
    requires Inv(cfg, s)
    ensures IndexInv(s.index) && SpaceOk(s.index, s.deferred, s.free, |s.file|)
  {
    hide RecordOk, DeletionOk, IndexInv, SpaceOk;
  }

  lemma SameSlot(index: Index, slot: Slot)
    requires Has(index, slot)
    ensures SlotChanged(index, index, slot, DrecAt(index, slot))
  {
  }

  lemma IndexReadyOk(index: Index, slot: Option<Slot>)
    requires IndexInv(index) && (slot.Some? ==> Has(index, slot.value))
    ensures IndexReady(index, slot)
  {
  }

  // ----- the space

  lemma SpaceInPlace(index: Index, index': Index, slot: Slot, d: Drec, deferred: map<uint64, Extent>, free: FreeMap,
                     size: int)
    requires SpaceOk(index, deferred, free, size) && SlotChanged(index, index', slot, d)
    requires Has(index, slot) && DrecExtent(DrecAt(index, slot)) == DrecExtent(d) && !IsEmpty(d)
    ensures SpaceOk(index', deferred, free, size)
  {
    hide Tiles, Owns, ExtentOf, SlotChanged, FreeOk;
    SlotOwners(index, index', slot, d, deferred, free);
    OwnerOfSlot(index, slot, deferred, free);
    var m, m' := Space(index, deferred, free), Space(index', deferred, free);
    assert forall o :: o in m' <==> o in m;
    assert forall o :: o in m ==> m'[o] == m[o];
    assert m' == m;
  }

  lemma OwnerOfSlot(index: Index, slot: Slot, deferred: map<uint64, Extent>, free: FreeMap)
    ensures Owns(index, deferred, free, BySlot(slot)) <==> Has(index, slot)
    ensures Has(index, slot) ==> ExtentOf(index, deferred, free, BySlot(slot)) == DrecExtent(DrecAt(index, slot))
  {
  }

  lemma OwnerOfDeferred(index: Index, x: uint64, deferred: map<uint64, Extent>, free: FreeMap, e: Extent)
    ensures var ds := deferred[x := e];
            && (forall o: Owner :: o != Deferred(x) ==> (Owns(index, ds, free, o) <==> Owns(index, deferred, free, o)))
            && (forall o: Owner :: o != Deferred(x) && Owns(index, deferred, free, o) ==>
                  ExtentOf(index, ds, free, o) == ExtentOf(index, deferred, free, o))
            && Owns(index, ds, free, Deferred(x)) && ExtentOf(index, ds, free, Deferred(x)) == e
  {
  }

  lemma NotDeferred(index: Index, x: uint64, deferred: map<uint64, Extent>, free: FreeMap)
    requires x !in deferred
    ensures !Owns(index, deferred, free, Deferred(x))
  {
  }

  /** A record written for the first time: the allocated extent becomes that of its new slot. */
  lemma SpaceFirst(index: Index, index': Index, slot: Slot, d: Drec, x: uint64, deferred: map<uint64, Extent>,
                   free: FreeMap, size: int)
    requires FreeOk(free) && x !in deferred && !Has(index, slot)
    requires Tiles(WithOwner(Space(index, deferred, free), Deferred(x), DrecExtent(d)), size)
    requires SlotChanged(index, index', slot, d) && !IsEmpty(d)
    ensures SpaceOk(index', deferred, free, size)
  {
    hide Tiles, Owns, ExtentOf, SlotChanged, FreeOk, Has, IsEmpty, DrecExtent;
    SlotOwners(index, index', slot, d, deferred, free);
    OwnerOfSlot(index, slot, deferred, free);
    NotDeferred(index, x, deferred, free);
    var a, b, e := Deferred(x), BySlot(slot), DrecExtent(d);
    var m, m' := WithOwner(Space(index, deferred, free), a, e), Space(index', deferred, free);
    assert b !in m && m[a] == e && m'[b] == e;
    assert forall o :: o in m' <==> (o in m && o != a) || o == b;
    assert forall o :: o in m && o != a ==> m'[o] == m[o];
    assert Moved(m, m', a, b);
    TilesMoved(m, m', a, b, size);
  }

  /** A relocated record: its slot gets the allocated extent, the old one waits among the deferred frees. */
  lemma SpaceMoved(index: Index, index': Index, slot: Slot, d: Drec, x: uint64, deferred: map<uint64, Extent>,
                   free: FreeMap, size: int)
    requires FreeOk(free) && x !in deferred && Has(index, slot)
    requires Tiles(WithOwner(Space(index, deferred, free), Deferred(x), DrecExtent(d)), size)
    requires SlotChanged(index, index', slot, d) && !IsEmpty(d)
    ensures SpaceOk(index', deferred[x := DrecExtent(DrecAt(index, slot))], free, size)
  {
    hide Tiles, Owns, ExtentOf, SlotChanged, FreeOk, IsEmpty, DrecExtent;
    var was := DrecExtent(DrecAt(index, slot));
    var ds := deferred[x := was];
    SlotOwners(index, index', slot, d, deferred, free);
    OwnerOfSlot(index, slot, deferred, free);
    NotDeferred(index, x, deferred, free);
    OwnerOfDeferred(index', x, deferred, free, was);
    var a, b, e := BySlot(slot), Deferred(x), DrecExtent(d);
    var m, m' := WithOwner(Space(index, deferred, free), b, e), Space(index', ds, free);
    assert m[a] == was && m[b] == e && m'[a] == e && m'[b] == was;
    assert forall o :: o in m' <==> o in m;
    assert forall o :: o in m && o != a && o != b ==> m'[o] == m[o];
    assert Swapped(m, m', a, b);
    TilesSwapped(m, m', a, b, size);
  }

  // ----- the records

  /** The flushed record: on disk, in its slot and in memory the same. */
  lemma FlushedRecord(cfg: Config, file: seq<byte>, index: Index, x: uint64, m: Man, start: int, slot: Slot,
                      crc: nat, inQueue: bool)
    requires ManOk(cfg, m) && AllFit(Cleaned(m).pages) && start >= 0
    requires Has(index, slot) && DrecAt(index, slot) == Drec(x, start, crc, |m.pages|)
    requires InFile(file, start, |m.pages|) && DiskBytes(file, start, |m.pages|) == EncodeAll(Cleaned(m).pages)
    requires crc == cfg.crc(EncodeAll(Cleaned(m).pages))
    ensures RecordOk(cfg, file, index, x,
                     RecordIndex(start, Some(Cleaned(m)), |m.pages|, Some(slot), crc, false, false, inQueue))
  {
    hide ManOk, EncodeAll, Has, Load, DiskBytes, InFile, AllFit, AllClean;
    OnePage(cfg, m);
    CleanedOk(cfg, m);
    assert DiskMan(file, start, |m.pages|) == Cleaned(m);
  }

  /** Another record: its bytes lie outside what was written, its slot is another one. */
  lemma OtherRecord(cfg: Config, s: State, w: Flush, index: Index, slot: Slot, d: Drec, y: uint64)
    requires y in s.live && RecordOk(cfg, s.file, s.index, y, s.live[y]) && s.live[y].slot != Some(slot)
    requires SlotChanged(s.index, index, slot, d) && !IsEmpty(d)
    requires SpaceOk(index, w.deferred, w.free, |w.file|)
    requires SameOutside(s.file, w.file, d.start, BLOCK_SIZE * d.blockCount)
    ensures RecordOk(cfg, w.file, index, y, s.live[y])
    ensures Seen(cfg, w.file, s.live[y]) == Seen(cfg, s.file, s.live[y])
  {
    hide RecordOk, Readable, Contents, Load, DiskBytes, SpaceOk, SlotChanged;
    var r := s.live[y];
    if r.slot.Some? {
      RecordSlot(cfg, s.file, s.index, y, r);
      SlotKept(s.index, index, slot, d, r.slot);
      SlotDisjoint(index, w.deferred, w.free, |w.file|, slot, d, s.index, r.slot.value);
      assert r.start + BLOCK_SIZE * r.blockCount <= d.start || d.start + BLOCK_SIZE * d.blockCount <= r.start;
      assert DiskBytes(w.file, r.start, r.blockCount) == DiskBytes(s.file, r.start, r.blockCount);
      assert InFile(w.file, r.start, r.blockCount);
    } else {
      NotOnDisk(cfg, s.file, s.index, y, r);
    }
    RecordFrame(cfg, s.file, s.index, w.file, index, y, r);
  }

  lemma NotOnDisk(cfg: Config, file: seq<byte>, index: Index, y: uint64, r: RecordIndex)
    requires RecordOk(cfg, file, index, y, r) && r.slot.None?
    ensures r.man.Some?
  {
    hide ManOk;
  }

  lemma SlotDisjoint(index: Index, deferred: map<uint64, Extent>, free: FreeMap, size: int, slot: Slot, d: Drec,
                     before: Index, t: Slot)
    requires SpaceOk(index, deferred, free, size) && SlotChanged(before, index, slot, d) && !IsEmpty(d)
    requires t != slot && Has(index, t)
    ensures Disjoint(DrecExtent(DrecAt(index, t)), DrecExtent(d))
  {
    hide FreeOk, Owned;
    var m := Space(index, deferred, free);
    assert BySlot(t) in m && BySlot(slot) in m && BySlot(t) != BySlot(slot);
  }

  /** No record of another x, and no pending deletion, has the slot of x. */
  lemma SlotOfOneRecord(cfg: Config, s: State, x: uint64, slot: Slot)
    requires Inv(cfg, s) && x in s.live
    requires if s.live[x].slot.Some? then s.live[x].slot == Some(slot) else !Has(s.index, slot)
    ensures forall y :: y in s.live && y != x ==> s.live[y].slot != Some(slot)
    ensures forall y :: y in s.deletions ==> s.deletions[y].slot != Some(slot)
    ensures forall y :: y in s.erasing ==> s.erasing[y].slot != Some(slot)
  {
    hide RecordOk, DeletionOk, IndexInv, SpaceOk, Has;
    if s.live[x].slot.Some? {
      RecordSlot(cfg, s.file, s.index, x, s.live[x]);
    }
    forall y | y in s.live && y != x ensures s.live[y].slot != Some(slot) {
      if s.live[y].slot == Some(slot) {
        RecordSlot(cfg, s.file, s.index, y, s.live[y]);
      }
    }
    forall y | y in s.deletions ensures s.deletions[y].slot != Some(slot) {
      if s.deletions[y].slot == Some(slot) {
        DeletionSlot(s.index, y, s.deletions[y]);
      }
    }
    forall y | y in s.erasing ensures s.erasing[y].slot != Some(slot) {
      if s.erasing[y].slot == Some(slot) {
        DeletionSlot(s.index, y, s.erasing[y]);
      }
    }
  }

  // ----- the item

  /** What a flushed item leaves behind, from its parts. */
  function AfterFlush(s: State, x: uint64, m: Man, w: Flush, index: Index, slot: Slot, crc: nat): State
    requires x in s.live
  {
    s.(flushing := s.flushing - {x},
       live := s.live[x := RecordIndex(w.start, Some(Cleaned(m)), |m.pages|, Some(slot), crc, false, false,
                                       s.live[x].inQueue && x in s.queue)],
       free := w.free, file := w.file, deferred := w.deferred, index := index)
  }

  /** The parts fit together. */
  ghost predicate Parts(cfg: Config, s: State, x: uint64, m: Man, w: Flush, index: Index, slot: Slot, crc: nat) {
    && Ready(cfg, s, x, m) && Placed(s, x, m, w)
    && crc == cfg.crc(EncodeAll(Cleaned(m).pages))
    && (var d := Drec(x, w.start, crc, |m.pages|); SlotChanged(s.index, index, slot, d) && !IsEmpty(d))
    && IndexInv(index) && SpaceOk(index, w.deferred, w.free, |w.file|)
    && (if s.live[x].slot.Some? then s.live[x].slot == Some(slot) else !Has(s.index, slot))
    && forall y :: y in w.deferred ==> y in s.deferred || y == x
  }

  lemma RecordsAfter(cfg: Config, s: State, x: uint64, m: Man, w: Flush, index: Index, slot: Slot, crc: nat, y: uint64)
    requires Parts(cfg, s, x, m, w, index, slot, crc) && y in s.live
    ensures var r' := AfterFlush(s, x, m, w, index, slot, crc).live[y];
            RecordOk(cfg, w.file, index, y, r') && Seen(cfg, w.file, r') == Seen(cfg, s.file, s.live[y])
  {
    hide Inv, RecordOk, IndexInv, SpaceOk, ManOk, Has, SlotChanged, EncodeAll, DiskBytes, SameOutside, Seen,
         AllFit, Cleaned, IsEmpty;
    var d := Drec(x, w.start, crc, |m.pages|);
    if y == x {
      ChangedSlot(s.index, index, slot, d);
      FlushedRecord(cfg, w.file, index, x, m, w.start, slot, crc, s.live[x].inQueue && x in s.queue);
      FlushedSeen(cfg, s, x, m, AfterFlush(s, x, m, w, index, slot, crc).live[x], w.file);
    } else {
      SlotOfOneRecord(cfg, s, x, slot);
      RecordOf(cfg, s, y);
      OtherRecord(cfg, s, w, index, slot, d, y);
    }
  }

  lemma PendingAfter(cfg: Config, s: State, x: uint64, m: Man, w: Flush, index: Index, slot: Slot, crc: nat)
    requires Parts(cfg, s, x, m, w, index, slot, crc)
    ensures var s' := AfterFlush(s, x, m, w, index, slot, crc);
            && DeletionsOk(index, s.deletions) && DeletionsOk(index, s.erasing) && SlotsApart(s') && QueuedOk(s')
            && forall y :: y in s'.flushing ==> y !in s'.deferred
  {
    hide RecordOk, DeletionOk, IndexInv, SpaceOk, ManOk, Has, SlotChanged, AllFit, Placed, IsEmpty;
    var d := Drec(x, w.start, crc, |m.pages|);
    SlotOfOneRecord(cfg, s, x, slot);
    OthersKeepSlots(cfg, s, index, slot, d);
  }

  lemma ViewAfter(cfg: Config, s: State, x: uint64, m: Man, w: Flush, index: Index, slot: Slot, crc: nat)
    requires Parts(cfg, s, x, m, w, index, slot, crc)
    ensures View(cfg, AfterFlush(s, x, m, w, index, slot, crc)) == View(cfg, s)
  {
    hide Ready, Placed, Seen, RecordOk, IndexInv, SpaceOk, SlotChanged, Has, IsEmpty;
    ReadyLive(cfg, s, x, m);
    var v, v' := View(cfg, s), View(cfg, AfterFlush(s, x, m, w, index, slot, crc));
    assert v.Keys == v'.Keys;
    forall y | y in v ensures v[y] == v'[y] {
      RecordsAfter(cfg, s, x, m, w, index, slot, crc, y);
    }
  }

  lemma ReadyLive(cfg: Config, s: State, x: uint64, m: Man)
    requires Ready(cfg, s, x, m)
    ensures x in s.live && x in s.flushing && AllFit(Cleaned(m).pages)
  {
    hide Inv;
  }

  lemma AssembleInv(cfg: Config, s: State, x: uint64, m: Man, w: Flush, index: Index, slot: Slot, crc: nat)
    requires Parts(cfg, s, x, m, w, index, slot, crc)
    ensures var s' := AfterFlush(s, x, m, w, index, slot, crc);
            Inv(cfg, s') && View(cfg, s') == View(cfg, s)
  {
    hide RecordOk, DeletionsOk, IndexInv, SpaceOk, Has, SlotChanged, Ready, Placed, View, SlotsApart, QueuedOk, IsEmpty;
    ReadyLive(cfg, s, x, m);
    PendingAfter(cfg, s, x, m, w, index, slot, crc);
    ViewAfter(cfg, s, x, m, w, index, slot, crc);
    var s' := AfterFlush(s, x, m, w, index, slot, crc);
    forall y | y in s'.live ensures RecordOk(cfg, s'.file, s'.index, y, s'.live[y]) {
      RecordsAfter(cfg, s, x, m, w, index, slot, crc, y);
    }
  }

  lemma ChangedSlot(x: Index, y: Index, s: Slot, d: Drec)
    requires SlotChanged(x, y, s, d) && !IsEmpty(d)
    ensures Has(y, s) && DrecAt(y, s) == d
  {
  }

  lemma FlushedSeen(cfg: Config, s: State, x: uint64, m: Man, r: RecordIndex, file: seq<byte>)
    requires x in s.live && s.live[x].man == Some(m) && r.man == Some(Cleaned(m)) && ManOk(cfg, m)
    ensures Seen(cfg, file, r) == Seen(cfg, s.file, s.live[x])
  {
    hide Readable, Contents, Cleaned, DiskMan;
    CleanedOk(cfg, m);
  }

  lemma SpaceAfter(cfg: Config, s: State, x: uint64, m: Man, index: Index, slot: Slot, crc: nat)
    requires Ready(cfg, s, x, m)
    requires var w, d := FlushData(cfg, s, x, m), Drec(x, FlushData(cfg, s, x, m).start, crc, |m.pages|);
             SlotChanged(s.index, index, slot, d) && !IsEmpty(d)
    requires if s.live[x].slot.Some? then s.live[x].slot == Some(slot) else !Has(s.index, slot)
    ensures var w := FlushData(cfg, s, x, m);
            SpaceOk(index, w.deferred, w.free, |w.file|) && Placed(s, x, m, w)
            && forall y :: y in w.deferred ==> y in s.deferred || y == x
  {
    hide RecordOk, DeletionOk, IndexInv, SpaceOk, ManOk, Has, SlotChanged, FlushData, Space, Tiles, FreeOk, Placed,
         AllFit, Cleaned, WithOwner;
    var w, r, d := FlushData(cfg, s, x, m), s.live[x], Drec(x, FlushData(cfg, s, x, m).start, crc, |m.pages|);
    RecordOf(cfg, s, x);
    if r.slot.Some? {
      RecordSlot(cfg, s.file, s.index, x, r);
    }
    if !r.relocate {
      InPlace(cfg, s, x, m);
      SpaceInPlace(s.index, index, slot, d, s.deferred, s.free, |s.file|);
    } else {
      Relocated(cfg, s, x, m);
      StartOfRecord(cfg, s.file, s.index, x, r);
      if r.slot.Some? {
        SpaceMoved(s.index, index, slot, d, x, s.deferred, w.free, |w.file|);
      } else {
        SpaceFirst(s.index, index, slot, d, x, s.deferred, w.free, |w.file|);
      }
    }
  }

  lemma StartOfRecord(cfg: Config, file: seq<byte>, index: Index, x: uint64, r: RecordIndex)
    requires RecordOk(cfg, file, index, x, r)
    ensures r.start == -1 <==> r.slot.None?
  {
    hide ManOk, StoredOk;
  }

  lemma ReadyToFlush(cfg: Config, s: State, x: uint64)
    requires Inv(cfg, s) && x in s.flushing && x in s.live && CanFlush(s, x)
    ensures s.live[x].man.Some? && Ready(cfg, s, x, s.live[x].man.value)
  {
    hide RecordOk, DeletionOk, IndexInv, SpaceOk, ManOk;
    RecordOf(cfg, s, x);
    QueuedInMemory(cfg, s.file, s.index, x, s.live[x]);
    CleanedOk(cfg, s.live[x].man.value);
  }

  lemma QueuedInMemory(cfg: Config, file: seq<byte>, index: Index, x: uint64, r: RecordIndex)
    requires RecordOk(cfg, file, index, x, r) && r.inQueue
    ensures r.man.Some? && ManOk(cfg, r.man.value)
  {
    hide ManOk, StoredOk;
  }

  /** What a flushed item changes: its record is clean and has a slot, that slot and nothing else in
      the index changed, nothing but its extent in the data file, and the flag for the queue stays only
      if the record was queued again. */
  ghost predicate ItemFlushed(s: State, s': State, x: uint64, m: Man)
    requires x in s.live
  {
    && x in s'.live && s'.live == s.live[x := s'.live[x]]
    && s' == s.(flushing := s.flushing - {x}, live := s'.live, free := s'.free, file := s'.file,
                deferred := s'.deferred, index := s'.index)
    && var r, r' := s.live[x], s'.live[x];
       && r'.man == Some(Cleaned(m)) && !r'.relocate && !r'.dirty && r'.inQueue == (r.inQueue && x in s.queue)
       && r'.slot.Some? && r'.blockCount == |m.pages|
       && SameOutside(s.file, s'.file, r'.start, BLOCK_SIZE * r'.blockCount)
       && var d := Drec(x, r'.start, r'.crc, r'.blockCount);
          && !IsEmpty(d) && SlotChanged(s.index, s'.index, r'.slot.value, d)
          && (if r.slot.Some? then r'.slot == r.slot else !Has(s.index, r'.slot.value))
  }

  /** Where a flushed item goes: in place unless it must be relocated, and then to the free extent that fits
      best, or to the new end of the file when none fits, while the old extent waits among the deferred
      frees; and which slot of the index file it takes. */
  ghost predicate ItemPlaced(cfg: Config, s: State, s': State, x: uint64, m: Man)
    requires x in s.live && AllFit(Cleaned(m).pages)
  {
    && x in s'.live && s'.live[x].slot.Some?
    && var r, r' := s.live[x], s'.live[x];
       && r'.crc == cfg.crc(EncodeAll(Cleaned(m).pages)) && Chosen(s.index, r.slot, s'.index, r'.slot.value)
       && if r.relocate then
            && Provided(cfg, s.free, |s.file|, ByteCount(m), Placement(r'.start, s'.free, |s'.file|))
            && s'.deferred == if r.start != -1 then s.deferred[x := Extent(r.start, r.blockCount * BLOCK_SIZE)]
                              else s.deferred
          else r'.start == r.start && s'.free == s.free && |s'.file| == |s.file| && s'.deferred == s.deferred
  }

  lemma DataPlaced(cfg: Config, s: State, x: uint64, m: Man)
    requires Ready(cfg, s, x, m) && s.live[x].relocate
    ensures var w := FlushData(cfg, s, x, m);
            Provided(cfg, s.free, |s.file|, ByteCount(m), Placement(w.start, w.free, |w.file|))
  {
    hide ManOk, EncodeAll, DiskBytes, SameOutside, Space, Tiles, RecordOk, DeletionOk, IndexInv, SpaceOk, Allocate,
         WriteAt, Grown, FreeOk, Provided;
    OnePage(cfg, m);
    InvIndex(cfg, s);
    AllocateOk(cfg, s.index, s.deferred, s.free, |s.file|, ByteCount(m), Deferred(x));
    var p := Allocate(cfg, s.free, |s.file|, ByteCount(m));
    RelocatedFile(s.file, p.size, p.pos, EncodeAll(Cleaned(m).pages), |m.pages|);
  }

  lemma SlotChosen(cfg: Config, s: State, x: uint64, d: Drec, changed: bool)
    requires Inv(cfg, s) && x in s.live
    ensures IndexInv(s.index) && IndexReady(s.index, s.live[x].slot)
    ensures var slot := s.live[x].slot;
            if changed then Chosen(s.index, slot, WriteDrec(s.index, slot, d).0, WriteDrec(s.index, slot, d).1)
            else slot.Some? ==> Chosen(s.index, slot, s.index, slot.value)
  {
    hide RecordOk, DeletionOk, IndexInv, SpaceOk, Has, WriteDrec, IndexReady;
    var slot := s.live[x].slot;
    if slot.Some? {
      RecordOf(cfg, s, x);
      RecordSlot(cfg, s.file, s.index, x, s.live[x]);
    }
    IndexReadyOk(s.index, slot);
    WriteDrecChosen(s.index, slot, d);
  }

  lemma FlushItemPlaced(cfg: Config, s: State, x: uint64, m: Man)
    requires Ready(cfg, s, x, m)
    ensures ItemPlaced(cfg, s, Flushed(cfg, s, x), x, m)
  {
    hide Inv, SpaceOk, ManOk, Has, SlotChanged, EncodeAll, AllFit, Cleaned, WriteDrec, IndexInv, IsEmpty,
         SameOutside, Provided, Chosen, Allocate, Grown, WriteAt, WriteDirty, IndexReady;
    var r, w := s.live[x], FlushData(cfg, s, x, m);
    var crc := cfg.crc(EncodeAll(Cleaned(m).pages));
    var d := Drec(x, w.start, crc, |m.pages|);
    FlushStart(cfg, s, x, m);
    IndexWritten(cfg, s, x, m, w.start, crc);
    SlotChosen(cfg, s, x, d, r.dirty || crc != r.crc);
    if r.relocate {
      DataPlaced(cfg, s, x, m);
    }
  }

  lemma NotFlushed(cfg: Config, s: State, x: uint64)
    requires x !in s.live
    ensures Flushed(cfg, s, x) == s.(flushing := s.flushing - {x})
  {
  }

  /** A flushed item keeps the invariant and what readers see. */
  lemma FlushOk(cfg: Config, s: State, x: uint64)
    requires Inv(cfg, s) && x in s.flushing && CanFlush(s, x)
    ensures Inv(cfg, Flushed(cfg, s, x)) && View(cfg, Flushed(cfg, s, x)) == View(cfg, s)
  {
    hide RecordOk, DeletionOk, IndexInv, SpaceOk, ManOk, Has, SlotChanged, FlushData, EncodeAll, AllFit, Cleaned,
         Seen, WriteDrec, IndexReady, AfterFlush, Placed;
    if x in s.live {
      ReadyToFlush(cfg, s, x);
      FlushItemOk(cfg, s, x, s.live[x].man.value);
    }
  }

  lemma FlushItemOk(cfg: Config, s: State, x: uint64, m: Man)
    requires Ready(cfg, s, x, m)
    ensures Inv(cfg, Flushed(cfg, s, x)) && View(cfg, Flushed(cfg, s, x)) == View(cfg, s)
    ensures ItemFlushed(s, Flushed(cfg, s, x), x, m)
  {
    hide Inv, SpaceOk, ManOk, Has, SlotChanged, FlushData, EncodeAll, AllFit, Cleaned, View, WriteDrec,
         IndexInv, IsEmpty, SameOutside;
    var r, w := s.live[x], FlushData(cfg, s, x, m);
    var crc := cfg.crc(EncodeAll(Cleaned(m).pages));
    FlushStart(cfg, s, x, m);
    IndexWritten(cfg, s, x, m, w.start, crc);
    var (index, slot) := if r.dirty || crc != r.crc then
                           var (i, sl) := WriteDrec(s.index, r.slot, Drec(x, w.start, crc, |m.pages|)); (i, Some(sl))
                         else (s.index, r.slot);
    assert Flushed(cfg, s, x) == AfterFlush(s, x, m, w, index, slot.value, crc);
    SpaceAfter(cfg, s, x, m, index, slot.value, crc);
    AssembleInv(cfg, s, x, m, w, index, slot.value, crc);
  }

  lemma FlushStart(cfg: Config, s: State, x: uint64, m: Man)
    requires Ready(cfg, s, x, m)
    ensures var w, r := FlushData(cfg, s, x, m), s.live[x];
            w.start >= 0 && (!r.relocate ==> w.start == r.start && |m.pages| == r.blockCount)
  {
    hide Inv, ManOk, FlushData, EncodeAll, DiskBytes, SameOutside, Tiles, Space, WithOwner, FreeOk, AllFit, Cleaned;
    if s.live[x].relocate {
      Relocated(cfg, s, x, m);
    } else {
      InPlace(cfg, s, x, m);
    }
  }
}
