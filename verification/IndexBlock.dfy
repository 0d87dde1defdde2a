/** IndexBlock.cpp, in place: the index file with its write-through page cache. The cache never
    differs from the file, so that any cached page can be dropped. Pages are read and written at their
    32-bit positions; below 2^20 pages those are the pages meant (IndexFile.DiskPageIff). */
module IndexBlocks {
  import opened Bytes
  import opened Config
  import opened IndexFile
  import opened Sets
  import opened LRUCaches

  class IndexBlock {
    const cacheSize: nat                  // g_cfg.IndexBlockCacheSize
    var blockCount: nat
    var freeBlocks: set<nat>
    var diskBlockCache: map<uint64, IPage>
    const lru: LRUCache
    var file: seq<IPage>                  // the index file

    ghost function Abs(): Index
      reads this
    {
      Index(file, freeBlocks)
    }

    /** Every cached page equals its page in the file, and the LRU list holds the cached pages. */
    ghost predicate Coherent()
      reads this`blockCount, this`diskBlockCache, this`file, lru, lru.chain
    {
      && lru.Ok()
      && blockCount == |file| <= MAX_INDEX_BLOCKS
      && (forall b :: b in diskBlockCache ==> b < |file| && diskBlockCache[b] == file[b])
      && (forall b :: b in lru.keys <==> b in diskBlockCache)
    }

    lemma CoherentBounds()
      requires Coherent()
      ensures blockCount == |file| <= MAX_INDEX_BLOCKS
    {
    }

    constructor (cacheSize: nat, file: seq<IPage>)
      requires |file| <= MAX_INDEX_BLOCKS
      ensures Coherent() && this.file == file && this.cacheSize == cacheSize
      ensures freeBlocks == RoomOf(file) && diskBlockCache == map[]
      ensures fresh(lru) && fresh(lru.chain)
    {
      this.cacheSize := cacheSize;
      lru := new LRUCache();
      this.file, blockCount, diskBlockCache := file, |file|, map[];
      freeBlocks := RoomOf(file);
    }

    /** GetCachedDiskBlock: the page from the cache, or from the file after making room. */
    method GetCachedDiskBlock(b: uint64) returns (p: IPage)
      requires Coherent() && b < |file|
      modifies this`diskBlockCache, lru, lru.chain
      ensures Coherent() && p == file[b] && b in diskBlockCache
      ensures var full := |old(diskBlockCache)| * INDEX_BLOCK_SIZE > cacheSize && old(lru.keys) != [];
              if b in old(diskBlockCache) then
                diskBlockCache == old(diskBlockCache) && lru.keys == Refreshed(old(lru.keys), b)
              else if full then
                diskBlockCache == (old(diskBlockCache) - {old(lru.keys)[0]})[b := p]
                && lru.keys == Refreshed(old(lru.keys)[1..], b)
              else
                diskBlockCache == old(diskBlockCache)[b := p] && lru.keys == Refreshed(old(lru.keys), b)
      ensures forall c :: c in lru.chain ==> c in old(lru.chain) || fresh(c)
    {
      hide LRUCache.Ok, LRUCache.Links, Dropped, Tabled, Distinct, Refreshed;
      if b in diskBlockCache {
        lru.Put(b);
        return diskBlockCache[b];
      }
      if |diskBlockCache| * INDEX_BLOCK_SIZE > cacheSize {
        MakeRoom();
      }
      assert forall i :: 0 <= i < |lru.chain| ==> lru.chain[i] in old(lru.chain);
      p := ReadIntoCache(b);
    }

    method ReadIntoCache(b: uint64) returns (p: IPage)
      requires Coherent() && b < |file|
      modifies this`diskBlockCache, lru, lru.chain
      ensures Coherent() && p == file[b] && diskBlockCache == old(diskBlockCache)[b := p]
      ensures lru.keys == Refreshed(old(lru.keys), b)
      ensures forall c :: c in lru.chain ==> c in old(lru.chain) || fresh(c)
    {
      hide LRUCache.Ok, LRUCache.Links, Dropped, Tabled, Distinct;
      DiskPageIff(b);
      p := ReadPage(file, b);
      diskBlockCache := diskBlockCache[b := p];
      lru.Put(b);
    }

    /** Drops the least recently used page; it is always in the cache and in the LRU list. */
    method MakeRoom()
      requires Coherent()
      modifies this`diskBlockCache, lru, lru.chain
      ensures Coherent()
      ensures diskBlockCache == if old(lru.keys) == [] then old(diskBlockCache)
                                else old(diskBlockCache) - {old(lru.keys)[0]}
      ensures lru.keys == if old(lru.keys) == [] then [] else old(lru.keys)[1..]
      ensures forall c :: c in lru.chain ==> c in old(lru.chain)
    {
      hide LRUCache.Ok, LRUCache.Links, Dropped, Tabled, Distinct;
      var toDelete := lru.Get();
      if toDelete.Some? {
        var d := toDelete.value;
        if d in diskBlockCache {
          diskBlockCache := diskBlockCache - {d};
        }
        HeadDropped(lru);
        var found := lru.Remove(d);
        assert found;
      }
    }

    /** Changes a cached page and writes it through. */
    method WriteThrough(b: uint64, p: IPage)
      requires Coherent() && b in diskBlockCache
      modifies this`diskBlockCache, this`file
      ensures Coherent() && file == old(file)[b := p]
    {
      hide LRUCache.Ok, LRUCache.Links, Dropped, Tabled, Distinct;
      diskBlockCache := diskBlockCache[b := p];
      DiskPageIff(b);
      file := WritePage(file, b, p);
    }

    /** GetEmptyDREC, as a scan. */
    static method GetEmptyDrec(p: IPage) returns (i: nat)
      ensures i == FirstEmpty(p.slots, 0)
    {
      i := 0;
      while i < |p.slots|
        invariant 0 <= i <= |p.slots| && FirstEmpty(p.slots, i) == FirstEmpty(p.slots, 0)
      {
        if IsEmpty(p.slots[i]) {
          return;
        }
        i := i + 1;
      }
    }

    /** WriteRecordIndexToDisk; returns the record's slot. The repair branch for a page wrongly marked
        as having room is unreachable. */
    method WriteRecordIndexToDisk(slot: Option<Slot>, d: Drec) returns (s: Slot)
      requires Coherent() && IndexInv(Abs()) && !IsEmpty(d)
      requires slot.Some? ==> Has(Abs(), slot.value)
      requires CanAdd(Abs(), slot)
      modifies this, lru, lru.chain
      ensures Coherent() && IndexInv(Abs())
      ensures WriteDrec(old(Abs()), slot, d) == (Abs(), s) && Chosen(old(Abs()), slot, Abs(), s)
      ensures forall c :: c in lru.chain ==> c in old(lru.chain) || fresh(c)
    {
      hide LRUCache.Ok, LRUCache.Links, Dropped, Tabled, Distinct, IndexInv, Coherent, Lowest, Chosen;
      CoherentBounds();
      WriteDrecCorrect(Abs(), slot, d);
      WriteDrecChosen(Abs(), slot, d);
      ghost var x := Abs();
      if slot.Some? {
        s := slot.value;
        var p := GetCachedDiskBlock(s.page);
        WriteThrough(s.page, p.(slots := p.slots[s.pos := d]));
      } else if freeBlocks == {} {
        s := AppendPage(d);
      } else {
        var b := FirstBlock(freeBlocks);
        FreeBlockHasSlot(x, b);
        var p := GetCachedDiskBlock(b);
        var i := GetEmptyDrec(p);
        FreeIsNonNegative(x, b);
        var q := IPage(p.slots[i := d], p.free - DREC_SIZE);
        if q.free < DREC_SIZE {
          freeBlocks := freeBlocks - {b};
        }
        WriteThrough(b, q);
        s := Slot(b, i);
      }
    }

    method AppendPage(d: Drec) returns (s: Slot)
      requires Coherent() && |file| < MAX_INDEX_BLOCKS
      modifies this, lru, lru.chain
      ensures Coherent() && s == Slot(old(|file|), 0)
      ensures Abs() == Index(old(file) + [NewPage(d)], old(freeBlocks) + {old(|file|)})
      ensures forall c :: c in lru.chain ==> c in old(lru.chain) || fresh(c)
    {
      hide LRUCache.Ok, LRUCache.Links, Dropped, Tabled, Distinct;
      var p := NewPage(d);
      diskBlockCache := diskBlockCache[blockCount := p];
      lru.Put(blockCount);
      s := Slot(blockCount, 0);
      freeBlocks := freeBlocks + {blockCount};
      blockCount := blockCount + 1;
      file := file + [p];
    }

    /** EraseRecord; nothing to do for a record that was never written. */
    method EraseRecord(slot: Option<Slot>)
      requires Coherent() && IndexInv(Abs())
      requires slot.Some? ==> Has(Abs(), slot.value)
      modifies this, lru, lru.chain
      ensures Coherent() && IndexInv(Abs())
      ensures Abs() == if slot.Some? then EraseDrec(old(Abs()), slot.value) else old(Abs())
      ensures forall c :: c in lru.chain ==> c in old(lru.chain) || fresh(c)
    {
      hide LRUCache.Ok, LRUCache.Links, Dropped, Tabled, Distinct, IndexInv, Coherent;
      if slot.None? {
        return;
      }
      var s := slot.value;
      CoherentBounds();
      EraseDrecCorrect(Abs(), s);
      var p := GetCachedDiskBlock(s.page);
      freeBlocks := freeBlocks + {s.page};
      WriteThrough(s.page, IPage(p.slots[s.pos := EMPTY], p.free + DREC_SIZE));
    }
  }

  lemma FreeIsNonNegative(x: Index, b: nat)
    requires IndexInv(x) && b in x.freeBlocks
    ensures b < |x.pages| && x.pages[b].free >= DREC_SIZE
  {
    FreeMeansRoom(x);
  }

  method FirstBlock(blocks: set<nat>) returns (b: nat)
    requires blocks != {}
    ensures b == Lowest(blocks)
  {
    assert exists c :: c in blocks;
    LeastExists(blocks);
    ghost var w :| IsLeast(blocks, w);
    b :| b in blocks && forall c :: c in blocks ==> b <= c;
  }
}
