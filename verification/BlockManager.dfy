/** BlockManager.c: the growable array of pages and its key index, in place. Each method is
    proved against the operation on manager values. */
module BlockManagers {
  import opened Bytes
  import opened Pages
  import opened Config
  import opened Block
  import opened Manager
  import opened Writes
  import opened Retention
  import opened Loading
  import opened Defrag

  class BlockManager {
    const cfg: Config
    var blocks: array<byte>
    var blockCount: uint16
    var blockIndex: map<uint64, nat>   // the AVL tree
    ghost var pages: seq<Page>

    /** The value that the object stands for. */
    ghost function Abs(): Man
      reads this
    {
      Man(pages, blockIndex)
    }

    ghost predicate Ok()
      reads this, blocks
    {
      && Valid(Abs())
      && blockCount == |pages|
      && AllFit(pages)
      && blocks[..] == EncodeAll(pages)
    }

    /** blman_create(NULL, 0): one empty block. */
    constructor Create(cfg: Config)
      ensures Ok() && Abs() == Fresh() && this.cfg == cfg && fresh(blocks)
    {
      this.cfg := cfg;
      var b := new byte[BLOCK_SIZE](_ => 0);
      assert At(b[..], 0) == Zeros(BLOCK_SIZE);
      InitBlock(b, 0);
      blocks, blockCount, blockIndex, pages := b, 1, map[], [EmptyPage()];
      FreshValid();
      FreshImage(b[..]);
    }

    /** blman_create on blocks read from disk: the index is built from the pages. */
    constructor Load(cfg: Config, blocks: array<byte>, blockCount: uint16, ghost m: Man)
      requires Valid(m) && AllFit(m.pages) && |m.pages| == blockCount && blocks[..] == EncodeAll(m.pages)
      ensures Ok() && Abs() == m && this.cfg == cfg && this.blocks == blocks
      ensures Abs() == Loading.Load(blocks[..], blockCount)
    {
      this.cfg, this.blocks, this.blockCount := cfg, blocks, blockCount;
      var index := BuildIndex(blocks, blockCount, m);
      this.blockIndex, this.pages := index, m.pages;
      IndexRebuilt(m);
      LoadEncoded(m);
    }

    /** blman_delete_record_by_node. */
    method DeleteRecordByNode(key: uint64)
      requires Ok() && key in blockIndex
      modifies this, blocks
      ensures Ok() && Abs() == Delete(old(Abs()), key) && blocks == old(blocks)
    {
      hide Valid, EncodeAll, Remove, Find, Keys, Fits;
      var b := blockIndex[key];
      HeldKey(Abs(), key);
      DeleteCorrect(Abs(), key);
      DeleteInPlace(blocks, b, key, pages);
      pages := pages[b := Remove(pages[b], Find(pages[b].records, key))];
      blockIndex := blockIndex - {key};
    }

    /** blman_delete_record_by_key. */
    method DeleteRecordByKey(key: uint64)
      requires Ok()
      modifies this, blocks
      ensures Ok() && blocks == old(blocks)
      ensures Abs() == if key in old(blockIndex) then Delete(old(Abs()), key) else old(Abs())
    {
      if key in blockIndex {
        DeleteRecordByNode(key);
      }
    }

    /** blman_read_record; None when the key is not stored. */
    method ReadRecord(key: uint64) returns (record: Option<seq<byte>>)
      requires Ok()
      ensures record == if key in blockIndex then Some(Expand(cfg, Contents(Abs())[key])) else None
    {
      hide Valid, EncodeAll, Find;
      if key in blockIndex {
        var b := blockIndex[key];
        HeldKey(Abs(), key);
        PageAt(pages, b);
        var data := GetRecord(cfg, blocks, BLOCK_SIZE * b, key, pages[b]);
        record := Some(data);
      } else {
        record := None;
      }
    }

    /** blman_read_records: every record, page by page, unpacked. */
    method ReadRecords() returns (records: seq<Record>)
      requires Ok()
      ensures records == ExpandAll(cfg, AllRecords(pages, |pages|))
    {
      hide Valid, EncodeAll, AllRecords, ExpandAll, Expand;
      records := [];
      NoRecordsYet(cfg, pages);
      for i := 0 to blockCount
        invariant records == ExpandAll(cfg, AllRecords(pages, i))
      {
        PageAt(pages, i);
        ValidScannable(Abs(), i);
        var rs := GetRecords(cfg, blocks, BLOCK_SIZE * i, pages[i]);
        NextRecords(cfg, pages, i);
        records := records + rs;
      }
    }

    /** blman_realloc_blocks: a new buffer with one more, initialised block. */
    method ReallocBlocks()
      requires Ok() && blockCount < MAX_BLOCKS
      modifies this
      ensures Ok() && fresh(blocks)
      ensures Abs() == Man(old(pages) + [EmptyPage()], old(blockIndex))
    {
      hide Valid, EncodeAll, Encode;
      GrownValid(Abs());
      EncodeAllAppend(pages, EmptyPage());
      blocks := GrownBuffer(blocks);
      blockCount := blockCount + 1;
      pages := pages + [EmptyPage()];
    }

    /** blman_clear_dirty_flags. */
    method ClearDirtyFlags()
      requires Ok()
      modifies this`pages, blocks
      ensures Ok() && Abs() == Cleaned(old(Abs()))
    {
      hide Valid, EncodeAll, Encode, ClearDirty;
      CleanedValid(Abs());
      ghost var all := pages;
      for i := 0 to blockCount
        invariant blockCount == |all| && AllFit(pages) && blocks[..] == EncodeAll(pages)
        invariant |pages| == |all|
        invariant forall b :: 0 <= b < |all| ==> pages[b] == if b < i then CleanPage(all[b]) else all[b]
      {
        ClearInPlace(blocks, i, pages);
        pages := pages[i := CleanPage(pages[i])];
      }
      assert pages == Cleaned(Man(all, blockIndex)).pages;
    }

    /** The pages of the buffer, one by one: clears the mark of page `b` if it has one. */
    method ClearDirtyPage(b: nat) returns (dirty: bool, bytes: seq<byte>)
      requires Ok() && b < |pages|
      modifies this`pages, blocks
      ensures Ok() && Abs() == Man(old(pages)[b := CleanPage(old(pages)[b])], old(blockIndex))
      ensures dirty == IsDirty(old(pages)[b].flags) && bytes == Encode(pages[b])
    {
      hide Valid, EncodeAll, Encode, ClearDirty, Cidf;
      PageAt(pages, b);
      PageCleaned(Abs(), b);
      var free, location, flags := LoadCidf(blocks, BLOCK_SIZE * b, pages[b]);
      dirty := IsDirty(flags);
      if dirty {
        ClearInPlace(blocks, b, pages);
        pages := pages[b := CleanPage(pages[b])];
      }
      PageAt(pages, b);
      bytes := blocks[BLOCK_SIZE * b..BLOCK_SIZE * b + BLOCK_SIZE];
    }

    /** The eviction loop of blman_write_record (phase 2). */
    method EvictOldest(key: uint64) returns (removed: nat, refused: bool)
      requires Ok() && cfg.recordLimit >= 1
      modifies this, blocks
      ensures Ok() && blocks == old(blocks) && blockCount == old(blockCount)
      ensures Evict(cfg, old(Abs()), key) == Eviction(Abs(), removed, refused)
    {
      hide Valid, EncodeAll, Delete, Rank, IsFirst;
      ghost var all := Evict(cfg, Abs(), key);
      removed, refused := 0, false;
      while |blockIndex| >= cfg.recordLimit
        invariant Ok() && blocks == old(blocks) && blockCount == old(blockCount)
        invariant all == Eviction(Evict(cfg, Abs(), key).man, removed + Evict(cfg, Abs(), key).removed,
                                  Evict(cfg, Abs(), key).refused)
        decreases |blockIndex|
      {
        var first := AvlFirst(blockIndex);
        if key < first {
          refused := true;
          return;
        }
        ghost var m := Abs();
        DeleteCorrect(m, first);
        removed := removed + 1;
        DeleteRecordByNode(first);
      }
    }

    /** The page search of blman_write_record (phase 3): from the last page back, one new page when
        none has room. Returns whether the blocks were reallocated. */
    method PlaceRecord(key: uint64, record: seq<byte>) returns (reallocated: bool)
      requires Ok() && key !in blockIndex && 1 <= |record| <= MAX_RECORD_SIZE
      requires CanPlace(Abs(), |record|)
      modifies this, blocks
      ensures Ok() && (blocks == old(blocks) || fresh(blocks))
      ensures Abs() == Place(old(Abs()), key, record)
      ensures reallocated == (|pages| > old(|pages|))
    {
      hide Valid, EncodeAll, Place, Append, CanTake, Fits;
      ghost var m := Abs();
      var size := |record|;
      PlaceCorrect(m, key, record);
      PageCount(m);
      reallocated := false;
      var blockNum: uint16 := blockCount;
      while true
        invariant Ok() && (blocks == old(blocks) || fresh(blocks))
        invariant 1 <= blockNum <= blockCount
        invariant Abs() == if reallocated then Man(m.pages + [EmptyPage()], m.index) else m
        invariant reallocated ==> blockNum == blockCount
        invariant Searched(m, if reallocated then 0 else blockNum, size)
        decreases if reallocated then 0 else 1, blockNum
      {
        blockNum := blockNum - 1;
        var ok := WriteInPlace(blocks, blockNum, key, record, pages);
        if ok {
          PlacedAt(m, pages, blockNum, key, record, reallocated);
          pages := pages[blockNum := Append(pages[blockNum], Record(key, record))];
          blockIndex := blockIndex[key := blockNum];
          return;
        }
        NotPlacedAt(m, pages, blockNum, size, reallocated);
        if blockNum == 0 {
          SearchedAll(m, size);
          ReallocBlocks();
          reallocated := true;
          blockNum := blockCount;
        }
      }
    }

    /** Phases 2 and 3 of blman_write_record. */
    method InsertRecord(key: uint64, record: seq<byte>) returns (status: Status)
      requires Ok() && key !in blockIndex && LimitSound(cfg) && 1 <= |record| <= MAX_RECORD_SIZE
      requires |pages| < MAX_BLOCKS || |Insert(cfg, Abs(), key, record).0.pages| == |pages|
      modifies this, blocks
      ensures Ok() && (blocks == old(blocks) || fresh(blocks))
      ensures Insert(cfg, old(Abs()), key, record) == (Abs(), status)
    {
      hide Valid, EncodeAll, Place, CanPlace, Evict;
      ghost var m := Abs();
      InsertRoom(cfg, m, key, record);
      if cfg.enableRecordLimit && |blockIndex| >= cfg.recordLimit {
        EvictTouches(cfg, m, key);
        var removed, refused := EvictOldest(key);
        if refused {
          return Done(false, true, true, false);
        }
        var reallocated := PlaceRecord(key, record);
        return Done(reallocated, true, false, removed >= cfg.defragAfterRecordDelete);
      }
      var reallocated := PlaceRecord(key, record);
      return Done(reallocated, false, false, false);
    }

    /** Phase 1 of blman_write_record: false when the record now needs another page. */
    method UpdateExisting(key: uint64, data: seq<byte>) returns (ok: bool)
      requires Ok() && key in blockIndex && 1 <= |data| <= MAX_RECORD_SIZE
      modifies this, blocks
      ensures Ok() && blocks == old(blocks)
      ensures UpdateMan(old(Abs()), key, data) == (ok, Abs())
    {
      hide Valid, EncodeAll, Update, Find, Keys, Fits, UpdateMan, Contents;
      ghost var m := Abs();
      var b := blockIndex[key];
      HeldKey(m, key);
      UpdateManIs(m, key, data);
      UpdateCorrect(m, key, data);
      ok := UpdateInPlace(blocks, b, key, data, pages);
      pages := pages[b := Update(pages[b], Find(pages[b].records, key), data).1];
      if !ok {
        blockIndex := blockIndex - {key};
      }
    }

    /** blman_write_record. */
    method WriteRecord(key: uint64, record: seq<byte>) returns (status: Status)
      requires Ok() && Writable(cfg, record) && HasRoom(cfg, Abs(), key, record)
      modifies this, blocks
      ensures Ok() && (blocks == old(blocks) || fresh(blocks))
      ensures Write(cfg, old(Abs()), key, record) == (Abs(), status)
    {
      hide Valid, EncodeAll, Insert, UpdateMan, Write;
      WriteCases(cfg, Abs(), key, record);
      if |record| > MAX_RECORD_SIZE {
        return TooBig;
      }
      var data := record;
      if |data| > cfg.recordSizeForCompression {
        var packed := cfg.compress(data);
        if packed.Some? && |packed.value| < |data| {
          data := packed.value;
        }
      }
      if key in blockIndex {
        ghost var m := Abs();
        UpdateTouches(m, key, data);
        UpdateIndex(m, key, data);
        var ok := UpdateExisting(key, data);
        if ok {
          return Done(false, false, false, false);
        }
      }
      status := InsertRecord(key, data);
    }

    /** blman_dealloc_blocks and blman_realloc_blocks: back to one empty block. */
    method StartOver()
      modifies this
      ensures Ok() && fresh(blocks) && Abs() == Fresh()
    {
      var b := new byte[BLOCK_SIZE](_ => 0);
      assert At(b[..], 0) == Zeros(BLOCK_SIZE);
      InitBlock(b, 0);
      FreshImage(b[..]);
      FreshValid();
      blocks, blockCount, blockIndex, pages := b, 1, map[], [EmptyPage()];
    }

    /** blman_defragment_data: all records into fresh blocks, in page order. */
    method DefragmentData()
      requires Ok() && LimitSound(cfg)
      requires WithinLimit(cfg, |blockIndex|) && AllCanonical(cfg, pages)
      modifies this, blocks
      ensures Ok() && (blocks == old(blocks) || fresh(blocks))
      ensures Abs() == Defragment(cfg, old(Abs()))
    {
      hide Valid, EncodeAll, AllCanonical, CanonicalRecords, Reinsert, AllRecords, Write;
      ghost var m := Abs();
      DefragmentUnfold(cfg, m);
      if |blockIndex| == 0 {
        return;
      }
      var records := ReadRecords();
      ghost var all := AllRecords(m.pages, |m.pages|);
      StartOver();
      ReinsertNone(cfg, all);
      for i := 0 to |records|
        invariant Ok() && fresh(blocks)
        invariant CanonicalRecords(cfg, all[..i]) && Abs() == Reinsert(cfg, Fresh(), all[..i])
      {
        ReinsertReady(cfg, m, i);
        var _ := WriteRecord(records[i].key, records[i].data);
      }
      assert all[..|records|] == all;
    }
  }

  /** avl_t_first. */
  method AvlFirst(index: map<uint64, nat>) returns (first: uint64)
    requires index != map[]
    ensures first == FirstKey(index.Keys)
    ensures first in index && forall k :: k in index ==> !KeyBefore(k, first)
  {
    hide Rank, KeyBefore;
    assert index.Keys != {};
    FirstExists(index.Keys);
    ghost var witness_ := FirstKey(index.Keys);
    assert witness_ in index && forall k :: k in index ==> Rank(witness_) <= Rank(k);
    first :| first in index && forall k :: k in index ==> Rank(first) <= Rank(k);
    FirstUnique(index.Keys, first, witness_);
    FirstByMemcmp(index.Keys, first);
  }

  lemma NoRecordsYet(cfg: Config, pages: seq<Page>)
    ensures ExpandAll(cfg, AllRecords(pages, 0)) == []
  {
  }

  lemma NextRecords(cfg: Config, pages: seq<Page>, i: nat)
    requires i < |pages|
    ensures ExpandAll(cfg, AllRecords(pages, i + 1))
         == ExpandAll(cfg, AllRecords(pages, i)) + ExpandAll(cfg, pages[i].records)
  {
    hide Expand;
  }

  lemma PageCount(m: Man)
    requires Valid(m)
    ensures 1 <= |m.pages| <= MAX_BLOCKS
  {
  }

  /** None of the pages from `n` on can take the size. */
  ghost predicate Searched(m: Man, n: nat, size: nat)
    requires Valid(m)
  {
    PagesFit(m);
    n <= |m.pages| && forall b :: n <= b < |m.pages| ==> !CanTake(m.pages[b], size)
  }

  lemma SearchedAll(m: Man, size: nat)
    requires Valid(m) && Searched(m, 0, size) && CanPlace(m, size)
    ensures |m.pages| < MAX_BLOCKS
  {
    PagesFit(m);
  }

  lemma NotPlacedAt(m: Man, pages: seq<Page>, b: nat, size: nat, grown: bool)
    requires Valid(m) && b < |pages| && AllFit(pages) && !CanTake(pages[b], size) && size <= MAX_RECORD_SIZE
    requires pages == if grown then m.pages + [EmptyPage()] else m.pages
    requires Searched(m, if grown then 0 else b + 1, size) && (grown ==> b == |m.pages|)
    ensures !grown && Searched(m, b, size)
  {
    PagesFit(m);
  }

  lemma PlacedAt(m: Man, pages: seq<Page>, b: nat, key: uint64, record: seq<byte>, grown: bool)
    requires Valid(m) && b < |pages| && AllFit(pages) && CanTake(pages[b], |record|) && |record| <= MAX_RECORD_SIZE
    requires pages == if grown then m.pages + [EmptyPage()] else m.pages
    requires Searched(m, if grown then 0 else b + 1, |record|) && (grown ==> b == |m.pages|)
    ensures Place(m, key, record)
         == Man(pages[b := Append(pages[b], Record(key, record))], m.index[key := b])
  {
    hide Append, Fits;
    PagesFit(m);
    TargetIs(m.pages, |m.pages|, |record|, b);
  }

  lemma {:induction false} TargetIs(pages: seq<Page>, n: nat, size: nat, b: nat)
    requires n <= |pages| && AllFit(pages) && b <= |pages|
    requires b < |pages| ==> b < n && CanTake(pages[b], size)
    requires forall c :: (if b < |pages| then b + 1 else 0) <= c < n ==> !CanTake(pages[c], size)
    ensures Target(pages, n, size) == b
  {
    hide CanTake;
    if n > 0 && n - 1 != b {
      TargetIs(pages, n - 1, size, b);
    }
  }

  lemma UpdateManIs(m: Man, key: uint64, data: seq<byte>)
    requires Valid(m) && key in m.index
    ensures var b := m.index[key];
            && b < |m.pages| && Fits(m.pages[b].records) && Find(m.pages[b].records, key) < |m.pages[b].records|
            && var u := Update(m.pages[b], Find(m.pages[b].records, key), data);
               UpdateMan(m, key, data) == (u.0, Man(m.pages[b := u.1], if u.0 then m.index else m.index - {key}))
  {
    hide Update, Find;
    HeldKey(m, key);
  }

  // ----- edits of one page inside the buffer

  lemma HeldKey(m: Man, key: uint64)
    requires Valid(m) && key in m.index
    ensures m.index[key] < |m.pages| && key in Keys(m.pages[m.index[key]].records)
    ensures Fits(m.pages[m.index[key]].records)
    ensures Find(m.pages[m.index[key]].records, key) < |m.pages[m.index[key]].records|
    ensures Contents(m)[key] == m.pages[m.index[key]].records[Find(m.pages[m.index[key]].records, key)].data
  {
    FindInKeys(m.pages[m.index[key]].records, key);
  }

  lemma WithPage(pages: seq<Page>, b: nat, q: Page)
    requires AllFit(pages) && b < |pages| && Fits(q.records)
    ensures AllFit(pages[b := q])
    ensures With(EncodeAll(pages), BLOCK_SIZE * b, Encode(q)) == EncodeAll(pages[b := q])
  {
    hide Splice, EncodeAll, Encode, Fits;
    EncodeAllUpdate(pages, b, q);
  }

  method DeleteInPlace(blocks: array<byte>, b: nat, key: uint64, ghost pages: seq<Page>)
    requires AllFit(pages) && b < |pages| && blocks[..] == EncodeAll(pages) && key in Keys(pages[b].records)
    modifies blocks
    ensures Find(pages[b].records, key) < |pages[b].records|
    ensures var q := Remove(pages[b], Find(pages[b].records, key));
            AllFit(pages[b := q]) && blocks[..] == EncodeAll(pages[b := q])
  {
    hide With, At, EncodeAll, Encode, Keys, Remove, Find;
    PageAt(pages, b);
    FindInKeys(pages[b].records, key);
    WithPage(pages, b, Remove(pages[b], Find(pages[b].records, key)));
    var _ := Block.DeleteRecordByKey(blocks, BLOCK_SIZE * b, key, pages[b]);
  }

  method UpdateInPlace(blocks: array<byte>, b: nat, key: uint64, record: seq<byte>, ghost pages: seq<Page>)
    returns (ok: bool)
    requires AllFit(pages) && b < |pages| && blocks[..] == EncodeAll(pages) && key in Keys(pages[b].records)
    requires |record| < 0x1_0000
    modifies blocks
    ensures Find(pages[b].records, key) < |pages[b].records|
    ensures var u := Update(pages[b], Find(pages[b].records, key), record);
            ok == u.0 && AllFit(pages[b := u.1]) && blocks[..] == EncodeAll(pages[b := u.1])
  {
    hide With, At, EncodeAll, Encode, Keys, Update, Find;
    PageAt(pages, b);
    FindInKeys(pages[b].records, key);
    WithPage(pages, b, Update(pages[b], Find(pages[b].records, key), record).1);
    ok := Block.UpdateRecord(blocks, BLOCK_SIZE * b, key, record, pages[b]);
  }

  method WriteInPlace(blocks: array<byte>, b: nat, key: uint64, record: seq<byte>, ghost pages: seq<Page>)
    returns (ok: bool)
    requires AllFit(pages) && b < |pages| && blocks[..] == EncodeAll(pages) && |record| < 0x1_0000
    modifies blocks
    ensures ok == CanTake(pages[b], |record|)
    ensures if ok then
              var q := Append(pages[b], Record(key, record));
              AllFit(pages[b := q]) && blocks[..] == EncodeAll(pages[b := q])
            else blocks[..] == old(blocks[..])
  {
    hide With, At, EncodeAll, Encode, Append, CanTake;
    PageAt(pages, b);
    if CanTake(pages[b], |record|) {
      WithPage(pages, b, Append(pages[b], Record(key, record)));
    }
    ok := Block.WriteRecord(blocks, BLOCK_SIZE * b, key, record, pages[b]);
  }

  /** A copy of the buffer with one more empty page. */
  method GrownBuffer(blocks: array<byte>) returns (grown: array<byte>)
    ensures fresh(grown) && grown[..] == blocks[..] + Encode(EmptyPage())
  {
    var n := blocks.Length;
    grown := new byte[n + BLOCK_SIZE](i requires 0 <= i < n + BLOCK_SIZE reads blocks => if i < n then blocks[i] else 0);
    assert grown[..] == blocks[..] + Zeros(BLOCK_SIZE);
    assert At(grown[..], n) == Zeros(BLOCK_SIZE);
    InitBlock(grown, n);
    assert With(blocks[..] + Zeros(BLOCK_SIZE), n, Encode(EmptyPage())) == blocks[..] + Encode(EmptyPage()) by {
      hide Encode;
    }
  }

  lemma GrownValid(m: Man)
    requires Valid(m) && |m.pages| < MAX_BLOCKS
    ensures Valid(Man(m.pages + [EmptyPage()], m.index))
  {
    hide PageOk, Keys;
    EmptyPageOk();
    var m' := Man(m.pages + [EmptyPage()], m.index);
    forall c, k | 0 <= c < |m'.pages|
      ensures k in Keys(m'.pages[c].records) <==> k in m'.index && m'.index[k] == c
    {
      if c < |m.pages| {
        assert k in Keys(m.pages[c].records) <==> k in m.index && m.index[k] == c;
      }
    }
  }

  // ----- clearing the dirty flags

  lemma CleanImage(p: Page)
    requires Fits(p.records)
    ensures Splice(Encode(p), CIDF_OFFSET, Cidf(Free(p.records), Location(p.records), ClearDirty(p.flags)))
         == Encode(CleanPage(p))
  {
    var rs := p.records;
    var front := DataBytes(rs) + Zeros(Free(rs)) + RdfBytes(rs);
    var c := Cidf(Free(rs), Location(rs), p.flags);
    assert Encode(p) == front + c + [];
    SpliceMiddle(front, c, [], Cidf(Free(rs), Location(rs), ClearDirty(p.flags)));
  }

  method ClearInPlace(blocks: array<byte>, b: nat, ghost pages: seq<Page>)
    requires AllFit(pages) && b < |pages| && blocks[..] == EncodeAll(pages)
    modifies blocks
    ensures var q := CleanPage(pages[b]);
            AllFit(pages[b := q]) && blocks[..] == EncodeAll(pages[b := q])
  {
    hide With, EncodeAll, Encode, Cidf, Splice, ClearDirty;
    PageAt(pages, b);
    CleanImage(pages[b]);
    WithPage(pages, b, CleanPage(pages[b]));
    var free, location, flags := LoadCidf(blocks, BLOCK_SIZE * b, pages[b]);
    StoreCidf(blocks, BLOCK_SIZE * b, free, location, ClearDirty(flags));
  }

  lemma PageCleaned(m: Man, b: nat)
    requires Valid(m) && b < |m.pages|
    ensures Valid(Man(m.pages[b := CleanPage(m.pages[b])], m.index))
    ensures !IsDirty(m.pages[b].flags) ==> m.pages[b := CleanPage(m.pages[b])] == m.pages
  {
    hide Valid, Contents;
    SameRecords(m, Man(m.pages[b := CleanPage(m.pages[b])], m.index));
    if !IsDirty(m.pages[b].flags) {
      assert CleanPage(m.pages[b]) == m.pages[b];
    }
  }

  lemma FreshImage(s: seq<byte>)
    requires |s| == BLOCK_SIZE && s == Encode(EmptyPage())
    ensures AllFit([EmptyPage()]) && s == EncodeAll([EmptyPage()])
  {
    EncodeAllAppend([], EmptyPage());
    assert [] + [EmptyPage()] == [EmptyPage()];
  }

  lemma PageAt(pages: seq<Page>, b: nat)
    requires AllFit(pages) && b < |pages|
    ensures At(EncodeAll(pages), BLOCK_SIZE * b) == Encode(pages[b])
  {
    ChunkOfEncodeAll(pages, b);
  }

  lemma ValidScannable(m: Man, b: nat)
    requires Valid(m) && b < |m.pages|
    ensures |m.pages[b].records| <= MAX_SCANNED_RDFS && Fits(m.pages[b].records)
  {
    NonEmptyRecordsScannable(m.pages[b].records);
  }

  /** The index-building loop of blman_create. */
  method BuildIndex(blocks: array<byte>, blockCount: uint16, ghost m: Man) returns (index: map<uint64, nat>)
    requires Valid(m) && AllFit(m.pages) && |m.pages| == blockCount && blocks[..] == EncodeAll(m.pages)
    ensures index == IndexPages(m.pages, |m.pages|)
  {
    index := map[];
    for i := 0 to blockCount
      invariant index == IndexPages(m.pages, i)
    {
      PageAt(m.pages, i);
      ValidScannable(m, i);
      index := IndexBlockKeys(blocks, i, index, m.pages[i]);
    }
  }

  lemma IndexPageEmpty(index: map<uint64, nat>, b: nat)
    ensures IndexPage(index, [], b) == index
  {
  }

  lemma IndexPageStep(index: map<uint64, nat>, rs: seq<Record>, i: nat, b: nat)
    requires i < |rs|
    ensures var before := IndexPage(index, rs[..i], b);
            IndexPage(index, rs[..i + 1], b)
            == if rs[i].key in before then before else before[rs[i].key := b]
  {
    assert rs[..i + 1][..i] == rs[..i];
  }

  method IndexBlockKeys(blocks: array<byte>, block: nat, before: map<uint64, nat>, ghost p: Page)
    returns (index: map<uint64, nat>)
    requires Holds(blocks, BLOCK_SIZE * block, p) && |p.records| <= MAX_SCANNED_RDFS
    ensures index == IndexPage(before, p.records, block)
  {
    hide At, Encode, DataBytes, IndexPage, Find;
    ghost var rs := p.records;
    var free, location, _ := LoadCidf(blocks, BLOCK_SIZE * block, p);
    var position: uint16 := CIDF_OFFSET - RDF_SIZE;
    var end: uint16 := location + free;
    index := before;
    ghost var i := 0;
    ScanFacts(rs, 0);
    IndexPageEmpty(before, block);
    while true
      invariant 0 <= i <= |rs|
      invariant position == RdfPosition(i)
      invariant index == IndexPage(before, rs[..i], block)
      decreases |rs| - i
    {
      ScanFacts(rs, i);
      if position < end {
        break;
      }
      var key, _ := LoadRdf(blocks, BLOCK_SIZE * block, position, p, i);
      position := position - RDF_SIZE;
      IndexPageStep(before, rs, i, block);
      if key !in index {
        index := index[key := block];
      }
      i := i + 1;
    }
  }
}
