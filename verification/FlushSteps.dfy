/** One item of DiskWriter::Process: where the pages go, what the file holds afterwards, and why no
    other record is affected. */
module FlushSteps {
  import opened Bytes
  import opened Pages
  import opened Config
  import opened Manager
  import opened Loading
  import opened FreeSpace
  import opened IndexFile
  import opened Tiling
  import opened Store
  import opened Invariant
  import opened SpaceSteps

  // ----- allocation

  ghost function WithOwner(m: imap<Owner, Extent>, b: Owner, e: Extent): imap<Owner, Extent> {
    m[b := e]
  }

  /** A change of the free map concerns only the owners of the third kind. */
  lemma Kinds(index: Index, deferred: map<uint64, Extent>, f: FreeMap, g: FreeMap)
    ensures forall o: Owner :: !o.Free? ==> (Owns(index, deferred, g, o) <==> Owns(index, deferred, f, o))
    ensures forall o: Owner :: !o.Free? && Owns(index, deferred, f, o) ==>
              ExtentOf(index, deferred, g, o) == ExtentOf(index, deferred, f, o)
    ensures forall len, i :: (Owns(index, deferred, f, Free(len, i)) <==> HasFree(f, len, i))
                             && (Owns(index, deferred, g, Free(len, i)) <==> HasFree(g, len, i))
    ensures forall len, i :: HasFree(f, len, i) ==>
              ExtentOf(index, deferred, f, Free(len, i)) == FreeExtent(f, len, i)
    ensures forall len, i :: HasFree(g, len, i) ==>
              ExtentOf(index, deferred, g, Free(len, i)) == FreeExtent(g, len, i)
  {
  }

  /** Taking space from the free map and giving it to a new owner keeps the file tiled. */
  lemma TakenTiles(index: Index, deferred: map<uint64, Extent>, f: FreeMap, g: FreeMap, l: int, i: int,
                   pos: int, len: int, size: int, b: Owner)
    requires SpaceOk(index, deferred, f, size) && HasFree(f, l, i) && Taken(f, g, l, i, pos, len)
    requires !b.Free? && !Owns(index, deferred, f, b)
    ensures Tiles(WithOwner(Space(index, deferred, g), b, Extent(pos, len)), size)
  {
    hide HasFree, FreeExtent, Tiles, Owns, ExtentOf;
    var m, m' := Space(index, deferred, f), WithOwner(Space(index, deferred, g), b, Extent(pos, len));
    Kinds(index, deferred, f, g);
    NotYetFree(f, l - len);
    var a, c := Free(l, i), Free(l - len, FreeCount(f, l - len));
    if l == len {
      assert Moved(m, m', a, b);
      TilesMoved(m, m', a, b, size);
    } else {
      assert Cut(m, m', a, b, c, len);
      TilesCut(m, m', a, b, c, len, size);
    }
  }

  lemma SpaceNonNegative(index: Index, deferred: map<uint64, Extent>, free: FreeMap, size: int)
    requires SpaceOk(index, deferred, free, size)
    ensures NonNegative(free)
  {
    forall l, i | HasFree(free, l, i) ensures free[l][i] >= 0 {
      OwnedExtent(index, deferred, free, size, Free(l, i));
    }
  }

  /** ReallocDataFile: the new end of the file is one more free extent. */
  lemma GrownSpace(index: Index, deferred: map<uint64, Extent>, free: FreeMap, size: nat, d: int)
    requires SpaceOk(index, deferred, free, size) && d > 0
    ensures SpaceOk(index, deferred, AddFree(free, size, d), size + d)
  {
    hide HasFree, FreeExtent, Tiles, AddFree, Owns, ExtentOf;
    AddFreeCorrect(free, size, d);
    var g, c := AddFree(free, size, d), Free(d, FreeCount(free, d));
    var m, m' := Space(index, deferred, free), Space(index, deferred, g);
    NotYetFree(free, d);
    Kinds(index, deferred, free, g);
    assert Extended(m, m', c, size, d);
    TilesExtended(m, m', c, size, d);
  }

  lemma AllocSpace(index: Index, deferred: map<uint64, Extent>, f: FreeMap, size: int, len: int, b: Owner)
    requires SpaceOk(index, deferred, f, size) && len > 0 && !b.Free? && !Owns(index, deferred, f, b)
    requires Alloc(f, len).0 != -1
    ensures var (pos, g) := Alloc(f, len);
            FreeOk(g) && Tiles(WithOwner(Space(index, deferred, g), b, Extent(pos, len)), size)
  {
    hide Tiles, Taken, IsBestFit;
    SpaceNonNegative(index, deferred, f, size);
    AllocCorrect(f, len);
    var (pos, g) := Alloc(f, len);
    var l, i :| HasFree(f, l, i) && IsBestFit(f, len, l) && Taken(f, g, l, i, pos, len);
    TakenTiles(index, deferred, f, g, l, i, pos, len, size, b);
  }

  /** The file grows only when no free extent is long enough, by the request or by ReallocSize, whichever
      is more; otherwise a free extent of the shortest length that fits is used. */
  ghost predicate Provided(cfg: Config, free: FreeMap, size: nat, len: int, p: Placement) {
    if exists l :: l in free && l >= len then
      p.size == size && TakenAtBest(free, p.free, p.pos, len)
    else
      var d := p.size - size;
      && d >= len && d >= cfg.reallocSize && (d == len || d == cfg.reallocSize)
      && p.pos == size && TakenAtBest(AddFree(free, size, d), p.free, p.pos, len)
  }

  lemma AllocateProvides(cfg: Config, free: FreeMap, size: nat, len: int)
    requires FreeOk(free) && NonNegative(free) && len > 0
    ensures Provided(cfg, free, size, len, Allocate(cfg, free, size, len))
  {
    hide Alloc, AddFree, FreeOk, NonNegative, TakenAtBest;
    AllocCorrect(free, len);
    var d := Max(cfg.reallocSize, len);
    if Alloc(free, len).0 == -1 {
      AllocAfterGrowth(free, len, size, d);
      GrownNonNegative(free, size, d);
      AllocatedAtBest(AddFree(free, size, d), len);
      var (pos, g) := Alloc(AddFree(free, size, d), len);
      OnlyFit(free, size, d, g, pos, len);
    } else {
      AllocatedAtBest(free, len);
    }
  }

  lemma AllocatedAtBest(free: FreeMap, len: int)
    requires FreeOk(free) && NonNegative(free) && len > 0 && Alloc(free, len).0 != -1
    ensures TakenAtBest(free, Alloc(free, len).1, Alloc(free, len).0, len)
  {
    hide Alloc;
    AllocCorrect(free, len);
  }

  lemma GrownNonNegative(free: FreeMap, size: nat, d: int)
    requires FreeOk(free) && NonNegative(free) && d > 0
    ensures NonNegative(AddFree(free, size, d))
  {
  }

  /** The allocation of a flush always succeeds, at the latest after growing the file, which it does only
      when nothing fits, and hands out an extent that overlaps nothing. */
  lemma AllocateOk(cfg: Config, index: Index, deferred: map<uint64, Extent>, free: FreeMap, size: nat, len: int,
                   b: Owner)
    requires SpaceOk(index, deferred, free, size) && len > 0 && !b.Free? && !Owns(index, deferred, free, b)
    ensures var p := Allocate(cfg, free, size, len);
            && p.pos >= 0 && p.pos + len <= p.size && p.size >= size && FreeOk(p.free)
            && Tiles(WithOwner(Space(index, deferred, p.free), b, Extent(p.pos, len)), p.size)
            && Provided(cfg, free, size, len, p)
  {
    hide Tiles, Alloc, AddFree, Space, FreeOk, Owns, Provided, NonNegative;
    SpaceNonNegative(index, deferred, free, size);
    AllocateProvides(cfg, free, size, len);
    var (pos, f) := Alloc(free, len);
    var p := Allocate(cfg, free, size, len);
    if pos != -1 {
      AllocSpace(index, deferred, free, size, len, b);
    } else {
      var d := Max(cfg.reallocSize, len);
      AllocAfterGrowth(free, len, size, d);
      GrownSpace(index, deferred, free, size, d);
      NotOwnedAfter(index, deferred, free, AddFree(free, size, d), b);
      AllocSpace(index, deferred, AddFree(free, size, d), size + d, len, b);
    }
    TiledOwner(Space(index, deferred, p.free), b, Extent(p.pos, len), p.size);
  }

  lemma NotOwnedAfter(index: Index, deferred: map<uint64, Extent>, free: FreeMap, free': FreeMap, b: Owner)
    requires !b.Free? && !Owns(index, deferred, free, b)
    ensures !Owns(index, deferred, free', b)
  {
  }

  lemma TiledOwner(m: imap<Owner, Extent>, b: Owner, e: Extent, size: int)
    requires Tiles(WithOwner(m, b, e), size)
    ensures e.pos >= 0 && e.pos + e.len <= size
    ensures forall o :: o in m && o != b ==> Disjoint(m[o], e) && 0 <= m[o].pos && m[o].pos + m[o].len <= size
  {
    var w := WithOwner(m, b, e);
    assert b in w && w[b] == e;
    forall o | o in m && o != b
      ensures Disjoint(m[o], e) && 0 <= m[o].pos && m[o].pos + m[o].len <= size
    {
      assert o in w && w[o] == m[o];
    }
  }

  // ----- the bytes of the file

  /** Outside the given range everything is as before. */
  ghost predicate SameOutside(file: seq<byte>, file': seq<byte>, pos: int, len: int) {
    && |file| <= |file'|
    && forall start, n :: InFile(file, start, n) && (start + BLOCK_SIZE * n <= pos || pos + len <= start) ==>
         DiskBytes(file', start, n) == DiskBytes(file, start, n)
  }

  lemma WriteAtSame(file: seq<byte>, pos: int, bytes: seq<byte>)
    requires 0 <= pos && pos + |bytes| <= |file|
    ensures SameOutside(file, WriteAt(file, pos, bytes), pos, |bytes|)
    ensures WriteAt(file, pos, bytes)[pos..pos + |bytes|] == bytes
  {
    hide Splice;
    SpliceReadSame(file, pos, bytes);
    forall start, n | InFile(file, start, n) && (start + BLOCK_SIZE * n <= pos || pos + |bytes| <= start)
      ensures DiskBytes(WriteAt(file, pos, bytes), start, n) == DiskBytes(file, start, n)
    {
      SpliceReadOther(file, pos, bytes, start, start + BLOCK_SIZE * n);
    }
  }

  lemma GrownSame(file: seq<byte>, size: int, pos: int, len: int)
    requires size >= |file|
    ensures SameOutside(file, Grown(file, size), pos, len)
  {
    forall start, n | InFile(file, start, n)
      ensures DiskBytes(Grown(file, size), start, n) == DiskBytes(file, start, n)
    {
    }
  }

  lemma SameOutsideTrans(a: seq<byte>, b: seq<byte>, c: seq<byte>, pos: int, len: int)
    requires SameOutside(a, b, pos, len) && SameOutside(b, c, pos, len)
    ensures SameOutside(a, c, pos, len)
  {
    hide DiskBytes;
  }

  lemma SameOutsideWider(a: seq<byte>, b: seq<byte>, pos: int, len: int, pos': int, len': int)
    requires SameOutside(a, b, pos, len) && pos' <= pos && pos + len <= pos' + len'
    ensures SameOutside(a, b, pos', len')
  {
    hide DiskBytes;
  }

  /** Relocation: the new extent holds the clean pages, the rest of the file is as before. */
  lemma RelocatedFile(file: seq<byte>, size: int, pos: int, bytes: seq<byte>, n: nat)
    requires size >= |file| && 0 <= pos && pos + |bytes| <= size && |bytes| == BLOCK_SIZE * n
    ensures var file' := WriteAt(Grown(file, size), pos, bytes);
            && |file'| == size && SameOutside(file, file', pos, |bytes|)
            && InFile(file', pos, n) && DiskBytes(file', pos, n) == bytes
  {
    hide SameOutside, WriteAt;
    GrownSame(file, size, pos, |bytes|);
    WriteAtSame(Grown(file, size), pos, bytes);
    SameOutsideTrans(file, Grown(file, size), WriteAt(Grown(file, size), pos, bytes), pos, |bytes|);
  }

  /** Writing one page changes its chunk and nothing else. */
  lemma PageWritten(file: seq<byte>, before: seq<byte>, start: int, n: nat, k: nat, bytes: seq<byte>)
    requires InFile(before, start, n) && k < n && |bytes| == BLOCK_SIZE
    requires SameOutside(file, before, start, BLOCK_SIZE * n)
    ensures var after := WriteAt(before, start + BLOCK_SIZE * k, bytes);
            && SameOutside(file, after, start, BLOCK_SIZE * n)
            && forall b :: 0 <= b < n ==>
                 Chunk(DiskBytes(after, start, n), b) == if b == k then bytes else Chunk(DiskBytes(before, start, n), b)
  {
    hide SameOutside, DiskBytes, WriteAt;
    var pos := start + BLOCK_SIZE * k;
    var after := WriteAt(before, pos, bytes);
    WriteAtSame(before, pos, bytes);
    SameOutsideWider(before, after, pos, BLOCK_SIZE, start, BLOCK_SIZE * n);
    SameOutsideTrans(file, before, after, start, BLOCK_SIZE * n);
    forall b | 0 <= b < n
      ensures Chunk(DiskBytes(after, start, n), b) == if b == k then bytes else Chunk(DiskBytes(before, start, n), b)
    {
      WriteAtChunk(before, start, n, k, bytes, b);
    }
  }

  /** WriteDataWithoutRelocateFlag after `k` pages: those are stored clean, the rest is as before. */
  lemma {:induction false} WriteDirtyUpTo(file: seq<byte>, start: int, ps: seq<Page>, ds: seq<Page>, k: nat)
    requires AllFit(ps) && AllFit(ds) && PagesMatch(ps, ds) && k <= |ps|
    requires InFile(file, start, |ps|) && DiskBytes(file, start, |ps|) == EncodeAll(ds)
    ensures var file' := WriteDirty(file, start, ps, k);
            && SameOutside(file, file', start, BLOCK_SIZE * |ps|)
            && forall b :: 0 <= b < |ps| ==>
                 Chunk(DiskBytes(file', start, |ps|), b) == Encode(if b < k then CleanPage(ps[b]) else ds[b])
  {
    hide Encode, Fits, EncodeAll, SameOutside, DiskBytes, WriteAt;
    var n := |ps|;
    if k == 0 {
      SameFile(file, start, BLOCK_SIZE * n);
      forall b | 0 <= b < n ensures Chunk(EncodeAll(ds), b) == Encode(ds[b]) {
        ChunkOfEncodeAll(ds, b);
      }
    } else {
      WriteDirtyUpTo(file, start, ps, ds, k - 1);
      var before, p := WriteDirty(file, start, ps, k - 1), ps[k - 1];
      if IsDirty(p.flags) {
        PageWritten(file, before, start, n, k - 1, Encode(CleanPage(p)));
      } else {
        assert CleanPage(p) == p == ds[k - 1];
      }
    }
  }

  lemma SameFile(file: seq<byte>, pos: int, len: int)
    ensures SameOutside(file, file, pos, len)
  {
  }

  lemma WriteAtChunk(file: seq<byte>, start: int, n: nat, k: nat, bytes: seq<byte>, b: nat)
    requires InFile(file, start, n) && k < n && b < n && |bytes| == BLOCK_SIZE
    ensures var file' := WriteAt(file, start + BLOCK_SIZE * k, bytes);
            Chunk(DiskBytes(file', start, n), b) == if b == k then bytes else Chunk(DiskBytes(file, start, n), b)
  {
    hide Splice;
    var file', pos := WriteAt(file, start + BLOCK_SIZE * k, bytes), start + BLOCK_SIZE * k;
    ChunkInFile(file, start, n, b);
    ChunkInFile(file', start, n, b);
    if b == k {
      SpliceReadSame(file, pos, bytes);
    } else {
      SpliceReadOther(file, pos, bytes, start + BLOCK_SIZE * b, start + BLOCK_SIZE * (b + 1));
    }
  }

  lemma ChunkInFile(file: seq<byte>, start: int, n: nat, b: nat)
    requires InFile(file, start, n) && b < n
    ensures Chunk(DiskBytes(file, start, n), b) == file[start + BLOCK_SIZE * b..start + BLOCK_SIZE * (b + 1)]
  {
    SliceOfSlice(file, start, start + BLOCK_SIZE * n, BLOCK_SIZE * b, BLOCK_SIZE * (b + 1));
  }

  /** In place: writing only the marked pages leaves all clean pages on disk. */
  lemma WriteDirtyAll(file: seq<byte>, start: int, m: Man, ds: seq<Page>)
    requires AllFit(m.pages) && AllFit(ds) && PagesMatch(m.pages, ds) && AllFit(Cleaned(m).pages)
    requires InFile(file, start, |m.pages|) && DiskBytes(file, start, |m.pages|) == EncodeAll(ds)
    ensures var file' := WriteDirty(file, start, m.pages, |m.pages|);
            && |file'| == |file| && SameOutside(file, file', start, BLOCK_SIZE * |m.pages|)
            && DiskBytes(file', start, |m.pages|) == EncodeAll(Cleaned(m).pages)
  {
    hide Encode, Fits, EncodeAll, SameOutside, DiskBytes, WriteDirty;
    var n := |m.pages|;
    WriteDirtyUpTo(file, start, m.pages, ds, n);
    EncodeAllByChunks(Cleaned(m).pages, DiskBytes(WriteDirty(file, start, m.pages, n), start, n));
  }
}
