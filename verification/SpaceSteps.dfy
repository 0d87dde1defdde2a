/** The steps of the storage thread that only move space: taking the queues, erasing pending
    deletions, reusing deferred frees, rebuilding the free map. */
module SpaceSteps {
  import opened Bytes
  import opened Pages
  import opened Config
  import opened FreeSpace
  import opened IndexFile
  import opened Tiling
  import opened Store
  import opened Invariant

  // ----- what does not touch a record

  lemma RecordFrame(cfg: Config, file: seq<byte>, index: Index, file': seq<byte>, index': Index,
                    x: uint64, r: RecordIndex)
    requires RecordOk(cfg, file, index, x, r)
    requires r.slot.Some? ==>
               && Has(index', r.slot.value) && DrecAt(index', r.slot.value) == DrecAt(index, r.slot.value)
               && InFile(file', r.start, r.blockCount)
               && DiskBytes(file', r.start, r.blockCount) == DiskBytes(file, r.start, r.blockCount)
    ensures RecordOk(cfg, file', index', x, r)
  {
    hide ManOk, ImageOk, MatchOk, Has, DiskBytes, InFile;
  }

  lemma DeletionFrame(index: Index, index': Index, x: uint64, d: Deletion)
    requires DeletionOk(index, x, d)
    requires d.slot.Some? ==>
               Has(index', d.slot.value) && DrecAt(index', d.slot.value) == DrecAt(index, d.slot.value)
    ensures DeletionOk(index', x, d)
  {
    hide Has;
  }

  /** Every record and pending deletion that does not claim `slot` survives a change of that slot. */
  lemma OthersKeepSlots(cfg: Config, s: State, index': Index, slot: Slot, d: Drec)
    requires Inv(cfg, s) && SlotChanged(s.index, index', slot, d)
    ensures forall y :: y in s.live && s.live[y].slot != Some(slot) ==>
              RecordOk(cfg, s.file, index', y, s.live[y])
    ensures forall y :: y in s.deletions && s.deletions[y].slot != Some(slot) ==>
              DeletionOk(index', y, s.deletions[y])
    ensures forall y :: y in s.erasing && s.erasing[y].slot != Some(slot) ==>
              DeletionOk(index', y, s.erasing[y])
  {
    hide RecordOk, DeletionOk, IndexInv, SpaceOk, Has, SlotChanged;
    forall y | y in s.live && s.live[y].slot != Some(slot)
      ensures RecordOk(cfg, s.file, index', y, s.live[y])
    {
      if s.live[y].slot.Some? {
        RecordSlot(cfg, s.file, s.index, y, s.live[y]);
      }
      SlotKept(s.index, index', slot, d, s.live[y].slot);
      RecordFrame(cfg, s.file, s.index, s.file, index', y, s.live[y]);
    }
    forall y | y in s.deletions && s.deletions[y].slot != Some(slot)
      ensures DeletionOk(index', y, s.deletions[y])
    {
      if s.deletions[y].slot.Some? {
        DeletionSlot(s.index, y, s.deletions[y]);
      }
      SlotKept(s.index, index', slot, d, s.deletions[y].slot);
      DeletionFrame(s.index, index', y, s.deletions[y]);
    }
    forall y | y in s.erasing && s.erasing[y].slot != Some(slot)
      ensures DeletionOk(index', y, s.erasing[y])
    {
      if s.erasing[y].slot.Some? {
        DeletionSlot(s.index, y, s.erasing[y]);
      }
      SlotKept(s.index, index', slot, d, s.erasing[y].slot);
      DeletionFrame(s.index, index', y, s.erasing[y]);
    }
  }

  lemma RecordSlot(cfg: Config, file: seq<byte>, index: Index, x: uint64, r: RecordIndex)
    requires RecordOk(cfg, file, index, x, r) && r.slot.Some?
    ensures Has(index, r.slot.value)
    ensures DrecAt(index, r.slot.value) == Drec(x, r.start, r.crc, r.blockCount)
    ensures InFile(file, r.start, r.blockCount)
  {
    hide ManOk, ImageOk, MatchOk, Has;
  }

  lemma DeletionSlot(index: Index, x: uint64, d: Deletion)
    requires DeletionOk(index, x, d) && d.slot.Some?
    ensures Has(index, d.slot.value) && DrecAt(index, d.slot.value).key == x
    ensures DrecAt(index, d.slot.value).start == d.start && DrecAt(index, d.slot.value).blockCount == d.blockCount
  {
    hide Has;
  }

  lemma SlotKept(x: Index, y: Index, slot: Slot, d: Drec, t: Option<Slot>)
    requires SlotChanged(x, y, slot, d) && t != Some(slot) && (t.Some? ==> Has(x, t.value))
    ensures t.Some? ==> Has(y, t.value) && DrecAt(y, t.value) == DrecAt(x, t.value)
  {
  }

  // ----- erasing a pending deletion

  /** The slot of a pending deletion of x belongs to nobody else. */
  lemma ErasedSlotUnclaimed(cfg: Config, s: State, x: uint64, slot: Slot)
    requires Inv(cfg, s) && x in s.erasing && s.erasing[x].slot == Some(slot)
    ensures forall y :: y in s.live ==> s.live[y].slot != Some(slot)
    ensures forall y :: y in s.deletions ==> s.deletions[y].slot != Some(slot)
    ensures forall y :: y in s.erasing && y != x ==> s.erasing[y].slot != Some(slot)
  {
    hide RecordOk, DeletionOk, IndexInv, SpaceOk;
    DeletionSlot(s.index, x, s.erasing[x]);
    forall y | y in s.live ensures s.live[y].slot != Some(slot) {
      if s.live[y].slot == Some(slot) {
        RecordSlot(cfg, s.file, s.index, y, s.live[y]);
      }
    }
    forall y | y in s.deletions ensures s.deletions[y].slot != Some(slot) {
      if s.deletions[y].slot == Some(slot) {
        DeletionSlot(s.index, y, s.deletions[y]);
      }
    }
    forall y | y in s.erasing && y != x ensures s.erasing[y].slot != Some(slot) {
      if s.erasing[y].slot == Some(slot) {
        DeletionSlot(s.index, y, s.erasing[y]);
      }
    }
  }

  lemma OwnedExtent(index: Index, deferred: map<uint64, Extent>, free: FreeMap, size: int, o: Owner)
    requires SpaceOk(index, deferred, free, size) && Owns(index, deferred, free, o)
    ensures var e := ExtentOf(index, deferred, free, o); e.len > 0 && 0 <= e.pos && e.pos + e.len <= size
  {
    hide ExtentOf;
    assert o in Space(index, deferred, free);
  }

  /** Freeing what an owner held: the extent moves to the free map. */
  lemma SpaceFreed(index: Index, deferred: map<uint64, Extent>, free: FreeMap, index': Index,
                   deferred': map<uint64, Extent>, a: Owner, size: int)
    requires SpaceOk(index, deferred, free, size) && Owns(index, deferred, free, a) && !a.Free?
    requires forall o: Owner :: !o.Free? ==>
               (Owns(index', deferred', free, o) <==> Owns(index, deferred, free, o) && o != a)
    requires forall o: Owner :: !o.Free? && o != a && Owns(index, deferred, free, o) ==>
               ExtentOf(index', deferred', free, o) == ExtentOf(index, deferred, free, o)
    ensures var e := ExtentOf(index, deferred, free, a);
            SpaceOk(index', deferred', AddFree(free, e.pos, e.len), size)
  {
    hide Has, HasFree, DrecAt, FreeExtent, AddFree, Tiles;
    var e := ExtentOf(index, deferred, free, a);
    OwnedExtent(index, deferred, free, size, a);
    AddFreeCorrect(free, e.pos, e.len);
    var free' := AddFree(free, e.pos, e.len);
    var m, m', b := Space(index, deferred, free), Space(index', deferred', free'), Free(e.len, FreeCount(free, e.len));
    NotYetFree(free, e.len);
    assert Moved(m, m', a, b) by {
      forall o ensures o in m' <==> (o in m && o != a) || o == b {
        OwnsByKind(index, deferred, free, index', deferred', free', o);
      }
      forall o | o in m && o != a ensures m'[o] == m[o] {
        OwnsByKind(index, deferred, free, index', deferred', free', o);
      }
    }
    TilesMoved(m, m', a, b, size);
  }

  lemma NotYetFree(free: FreeMap, len: int)
    ensures !HasFree(free, len, FreeCount(free, len))
  {
  }

  /** Index and deferred frees decide about the first two kinds of owners, the free map about the third. */
  lemma OwnsByKind(index: Index, deferred: map<uint64, Extent>, free: FreeMap,
                   index': Index, deferred': map<uint64, Extent>, free': FreeMap, o: Owner)
    ensures !o.Free? ==> (Owns(index', deferred', free', o) <==> Owns(index', deferred', free, o))
    ensures !o.Free? && Owns(index', deferred', free', o) ==>
              ExtentOf(index', deferred', free', o) == ExtentOf(index', deferred', free, o)
    ensures o.Free? ==> (Owns(index', deferred', free', o) <==> HasFree(free', o.len, o.i))
    ensures o.Free? ==> (Owns(index, deferred, free, o) <==> HasFree(free, o.len, o.i))
  {
  }

  lemma ErasedSpace(s: State, x: uint64)
    requires x in s.erasing && s.erasing[x].slot.Some? && DeletionOk(s.index, x, s.erasing[x])
    requires IndexInv(s.index) && SpaceOk(s.index, s.deferred, s.free, |s.file|)
    ensures var s' := Erased(s, x);
            && SlotChanged(s.index, s'.index, s.erasing[x].slot.value, EMPTY) && IndexInv(s'.index)
            && SpaceOk(s'.index, s'.deferred, s'.free, |s'.file|)
  {
    hide SpaceOk, IndexInv, EraseDrec, AddFree;
    var d := s.erasing[x];
    var slot := d.slot.value;
    DeletionSlot(s.index, x, d);
    EraseDrecCorrect(s.index, slot);
    var index' := EraseDrec(s.index, slot);
    assert DrecExtent(DrecAt(s.index, slot)) == Extent(d.start, d.blockCount * BLOCK_SIZE);
    SlotOwners(s.index, index', slot, EMPTY, s.deferred, s.free);
    SpaceFreed(s.index, s.deferred, s.free, index', s.deferred, BySlot(slot), |s.file|);
  }

  /** Who owns what after one slot changed. */
  lemma SlotOwners(index: Index, index': Index, slot: Slot, d: Drec, deferred: map<uint64, Extent>, free: FreeMap)
    requires SlotChanged(index, index', slot, d)
    ensures forall o :: o != BySlot(slot) ==> (Owns(index', deferred, free, o) <==> Owns(index, deferred, free, o))
    ensures forall o :: o != BySlot(slot) && Owns(index, deferred, free, o) ==>
              ExtentOf(index', deferred, free, o) == ExtentOf(index, deferred, free, o)
    ensures Owns(index', deferred, free, BySlot(slot)) <==> !IsEmpty(d)
    ensures !IsEmpty(d) ==> ExtentOf(index', deferred, free, BySlot(slot)) == DrecExtent(d)
  {
  }

  lemma EraseOk(cfg: Config, s: State, x: uint64)
    requires Inv(cfg, s) && x in s.erasing
    ensures Inv(cfg, Erased(s, x)) && View(cfg, Erased(s, x)) == View(cfg, s)
  {
    hide RecordOk, DeletionOk, IndexInv, SpaceOk, Seen, SlotChanged, EraseDrec, AddFree, Has;
    var s', d := Erased(s, x), s.erasing[x];
    if d.slot.Some? {
      ErasedSpace(s, x);
      ErasedSlotUnclaimed(cfg, s, x, d.slot.value);
      OthersKeepSlots(cfg, s, s'.index, d.slot.value, EMPTY);
    } else {
      NoSlotNoStart(s.index, x, d);
    }
  }

  lemma NoSlotNoStart(index: Index, x: uint64, d: Deletion)
    requires DeletionOk(index, x, d) && d.slot.None?
    ensures d.start == -1
  {
  }

  // ----- reusing a deferred free

  lemma FreeStepOk(cfg: Config, s: State, x: uint64)
    requires Inv(cfg, s) && x in s.deferred
    ensures Inv(cfg, Freed(s, x)) && View(cfg, Freed(s, x)) == View(cfg, s)
  {
    hide RecordOk, DeletionOk, IndexInv, SpaceOk, Seen, AddFree;
    SpaceFreed(s.index, s.deferred, s.free, s.index, s.deferred - {x}, Deferred(x), |s.file|);
  }

  // ----- taking the queues

  lemma TakeQueueOk(cfg: Config, s: State)
    requires Inv(cfg, s) && Idle(s)
    ensures var s' := s.(flushing := s.queue, queue := {}); Inv(cfg, s') && View(cfg, s') == View(cfg, s)
  {
    hide RecordOk, DeletionOk, IndexInv, SpaceOk, Seen;
  }

  lemma TakeDeletionsOk(cfg: Config, s: State)
    requires Inv(cfg, s) && Idle(s)
    ensures var s' := s.(erasing := s.deletions, deletions := map[]);
            Inv(cfg, s') && View(cfg, s') == View(cfg, s)
  {
    hide RecordOk, DeletionOk, IndexInv, SpaceOk, Seen;
  }

  // ----- rebuilding the free map

  /** Every occupied slot once, in some order: the parallel scan of the index pages. */
  ghost predicate IsScan(index: Index, ss: seq<Slot>) {
    DistinctSlots(ss) && forall t :: t in ss <==> Has(index, t)
  }

  /** The extents that the index names lie in the file and do not overlap. */
  ghost predicate SlotsSound(index: Index, size: int) {
    && (forall t :: Has(index, t) ==>
          var e := DrecExtent(DrecAt(index, t)); e.len > 0 && 0 <= e.pos && e.pos + e.len <= size)
    && (forall t, u :: Has(index, t) && Has(index, u) && t != u ==>
          Disjoint(DrecExtent(DrecAt(index, t)), DrecExtent(DrecAt(index, u))))
  }

  /** The byte belongs to an extent that the index names. */
  ghost predicate InStored(index: Index, p: int) {
    exists t :: Has(index, t) && Covers(DrecExtent(DrecAt(index, t)), p)
  }

  lemma ScanIsScan(index: Index)
    ensures IsScan(index, ScanSlots(index.pages, |index.pages|))
  {
    hide ScanSlots;
    ScanSlotsCorrect(index.pages, |index.pages|);
  }

  lemma SpaceSlotsSound(index: Index, deferred: map<uint64, Extent>, free: FreeMap, size: int)
    requires SpaceOk(index, deferred, free, size)
    ensures SlotsSound(index, size)
  {
    hide IsEmpty, DrecExtent, DrecAt, Owned;
    var m := Space(index, deferred, free);
    forall t | Has(index, t) ensures BySlot(t) in m && m[BySlot(t)] == DrecExtent(DrecAt(index, t)) {
    }
    forall t, u | Has(index, t) && Has(index, u) && t != u
      ensures Disjoint(DrecExtent(DrecAt(index, t)), DrecExtent(DrecAt(index, u)))
    {
      assert BySlot(t) != BySlot(u);
    }
  }

  lemma ScannedSlot(index: Index, ss: seq<Slot>, i: nat)
    requires IsScan(index, ss) && i < |ss|
    ensures Has(index, ss[i])
  {
    hide Has;
    assert ss[i] in ss;
  }

  /** Different slots name different extents. */
  lemma StoredExtentsSound(index: Index, size: int, ss: seq<Slot>)
    requires SlotsSound(index, size) && IsScan(index, ss)
    ensures var es := SlotExtents(index, ss);
            && PositiveLengths(es) && PairwiseDisjoint(es)
            && (forall e :: e in es ==> e.pos >= 0 && e.pos + e.len <= size)
            && forall e :: e in es <==> exists t :: Has(index, t) && e == DrecExtent(DrecAt(index, t))
  {
    hide DrecExtent, IsEmpty, DrecAt;
    var es := SlotExtents(index, ss);
    forall i | 0 <= i < |ss| ensures Has(index, ss[i]) && es[i] == DrecExtent(DrecAt(index, ss[i])) {
      ScannedSlot(index, ss, i);
    }
    forall t | Has(index, t) ensures DrecExtent(DrecAt(index, t)) in es {
      var i :| 0 <= i < |ss| && ss[i] == t;
      assert es[i] in es;
    }
  }

  /** The map rebuilt from a scan, and the stored extents, tile the file. */
  lemma RebuiltSpace(index: Index, size: nat, ss: seq<Slot>)
    requires SlotsSound(index, size) && IsScan(index, ss)
    ensures var (ok, f) := Rebuild(SlotExtents(index, ss), size);
            && ok && SpaceOk(index, map[], f, size) && Maximal(f, size)
            && forall p :: 0 <= p < size ==>
                 (InFree(f, p) <==> !InStored(index, p))
  {
    hide Rebuild, IsEmpty, SlotsSound, DrecAt, DrecExtent, SpaceOk, InFree, Maximal;
    var es := SlotExtents(index, ss);
    StoredExtentsSound(index, size, ss);
    RebuildExact(es, size);
    var f := Rebuild(es, size).1;
    ComplementTiles(index, f, es, size);
    forall p | 0 <= p < size
      ensures InDefs(es, p) <==> InStored(index, p)
    {
      if t :| Has(index, t) && Covers(DrecExtent(DrecAt(index, t)), p) {
        assert DrecExtent(DrecAt(index, t)) in es;
      }
      if e :| e in es && Covers(e, p) {
        var t :| Has(index, t) && e == DrecExtent(DrecAt(index, t));
      }
    }
  }

  lemma ComplementTiles(index: Index, f: FreeMap, es: seq<Extent>, size: int)
    requires SlotsSound(index, size) && Maximal(f, size)
    requires forall p :: 0 <= p < size ==> (InFree(f, p) <==> !InDefs(es, p))
    requires forall e :: e in es <==> exists t :: Has(index, t) && e == DrecExtent(DrecAt(index, t))
    ensures SpaceOk(index, map[], f, size)
  {
    hide IsEmpty, DrecAt, DrecExtent;
    var m' := Space(index, map[], f);
    assert forall t :: Has(index, t) ==> BySlot(t) in m' && m'[BySlot(t)] == DrecExtent(DrecAt(index, t));
    forall a, b | a in m' && b in m' && a != b ensures Disjoint(m'[a], m'[b]) {
      if a.BySlot? && b.Free? {
        SlotMeetsFree(index, f, es, size, a.slot, b.len, b.i);
      } else if a.Free? && b.BySlot? {
        SlotMeetsFree(index, f, es, size, b.slot, a.len, a.i);
      }
    }
    forall p | 0 <= p < size ensures Owned(m', p) {
      ComplementOwned(index, f, es, p);
    }
  }

  lemma ComplementOwned(index: Index, f: FreeMap, es: seq<Extent>, p: int)
    requires InFree(f, p) <==> !InDefs(es, p)
    requires forall e :: e in es <==> exists t :: Has(index, t) && e == DrecExtent(DrecAt(index, t))
    ensures Owned(Space(index, map[], f), p)
  {
    hide IsEmpty, DrecAt, DrecExtent;
    var m' := Space(index, map[], f);
    if InFree(f, p) {
      var l, i :| HasFree(f, l, i) && Covers(FreeExtent(f, l, i), p);
      assert Free(l, i) in m' && Covers(m'[Free(l, i)], p);
    } else {
      var e :| e in es && Covers(e, p);
      var t :| Has(index, t) && e == DrecExtent(DrecAt(index, t));
      assert BySlot(t) in m' && Covers(m'[BySlot(t)], p);
    }
  }

  lemma SlotMeetsFree(index: Index, f: FreeMap, es: seq<Extent>, size: int, t: Slot, l: int, i: int)
    requires SlotsSound(index, size) && Maximal(f, size) && Has(index, t) && HasFree(f, l, i)
    requires forall p :: 0 <= p < size ==> (InFree(f, p) <==> !InDefs(es, p))
    requires forall e :: e in es <==> exists t :: Has(index, t) && e == DrecExtent(DrecAt(index, t))
    ensures Disjoint(DrecExtent(DrecAt(index, t)), FreeExtent(f, l, i))
  {
    hide IsEmpty, DrecAt, DrecExtent;
    var e, g := DrecExtent(DrecAt(index, t)), FreeExtent(f, l, i);
    forall p | 0 <= p < size ensures !(Covers(e, p) && Covers(g, p)) {
      if Covers(e, p) {
        assert InDefs(es, p);
      } else if Covers(g, p) {
        assert InFree(f, p);
      }
    }
    DisjointByBytes(e, g, size);
  }

  lemma DisjointByBytes(a: Extent, b: Extent, size: int)
    requires a.len > 0 && 0 <= a.pos && a.pos + a.len <= size && b.len > 0 && 0 <= b.pos && b.pos + b.len <= size
    requires forall p :: 0 <= p < size ==> !(Covers(a, p) && Covers(b, p))
    ensures Disjoint(a, b)
  {
    var p := if a.pos >= b.pos then a.pos else b.pos;
    assert !(Covers(a, p) && Covers(b, p));
  }

  /** Rebuilding never finds corruption, and the new map is again the rest of the file. */
  lemma RebuildStepOk(cfg: Config, s: State)
    requires Inv(cfg, s) && Idle(s)
    ensures Inv(cfg, Rebuilt(s)) && View(cfg, Rebuilt(s)) == View(cfg, s)
  {
    hide RecordOk, DeletionOk, IndexInv, SpaceOk, Seen, Rebuild, SlotsSound, IsScan, SlotExtents, ScanSlots;
    SpaceSlotsSound(s.index, s.deferred, s.free, |s.file|);
    ScanIsScan(s.index);
    RebuiltSpace(s.index, |s.file|, ScanSlots(s.index.pages, |s.index.pages|));
  }
}
