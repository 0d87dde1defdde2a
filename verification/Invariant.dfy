/** What every step of the storage engine keeps. */
module Invariant {
  import opened Bytes
  import opened Pages
  import opened Config
  import opened Manager
  import opened Writes
  import opened Retention
  import opened Loading
  import opened Defrag
  import opened FreeSpace
  import opened IndexFile
  import opened Tiling
  import opened Store

  ghost predicate GoodConfig(cfg: Config) {
    LimitSound(cfg) && LawfulCodec(cfg)
  }

  // ----- one manager

  ghost predicate CanonicalMap(cfg: Config, c: map<uint64, seq<byte>>) {
    forall k :: k in c ==> Canonical(cfg, c[k])
  }

  /** The pages need no more numbers than a record limit in force allows. */
  predicate PagesBounded(cfg: Config, m: Man) {
    LimitInForce(cfg) ==> |m.pages| <= cfg.recordLimit
  }

  ghost predicate ManOk(cfg: Config, m: Man) {
    && Valid(m)
    && AllCanonical(cfg, m.pages)
    && WithinLimit(cfg, |m.index|)
    && PagesBounded(cfg, m)
  }

  // ----- one record

  /** The flags against each other: what is not on disk must be relocated, what must be relocated is
      dirty and queued, what is queued is in memory. */
  predicate FlagsOk(r: RecordIndex) {
    && (r.start == -1 <==> r.slot.None?)
    && (r.slot.None? ==> r.relocate)
    && (r.relocate <==> r.dirty)
    && (r.relocate ==> r.inQueue)
    && (r.inQueue ==> r.man.Some?)
  }

  /** The stored bytes are the clean pages of a manager, and the checksum is theirs. */
  ghost predicate ImageOk(cfg: Config, d: seq<byte>, n: nat, crc: nat) {
    && |d| == BLOCK_SIZE * n
    && crc == cfg.crc(d)
    && var dm := Load(d, n);
       ManOk(cfg, dm) && AllClean(dm.pages) && AllFit(dm.pages) && EncodeAll(dm.pages) == d
  }

  /** Every page in memory is marked dirty or equal to its stored page. */
  ghost predicate PagesMatch(ps: seq<Page>, ds: seq<Page>) {
    |ps| == |ds| && forall b :: 0 <= b < |ps| ==> IsDirty(ps[b].flags) || ps[b] == ds[b]
  }

  /** Dirty-bit soundness: pages without the mark are on disk unless the record must be relocated;
      a record that is not queued is on disk as it is. */
  ghost predicate MatchOk(r: RecordIndex, dm: Man) {
    r.man.Some? ==>
      && (!r.relocate ==> PagesMatch(r.man.value.pages, dm.pages))
      && (!r.inQueue ==> r.man.value == dm)
  }

  ghost predicate StoredOk(cfg: Config, file: seq<byte>, index: Index, x: uint64, r: RecordIndex)
    requires r.slot.Some?
  {
    && Has(index, r.slot.value)
    && DrecAt(index, r.slot.value) == Drec(x, r.start, r.crc, r.blockCount)
    && InFile(file, r.start, r.blockCount) && r.blockCount >= 1
    && ImageOk(cfg, DiskBytes(file, r.start, r.blockCount), r.blockCount, r.crc)
    && MatchOk(r, DiskMan(file, r.start, r.blockCount))
  }

  ghost predicate RecordOk(cfg: Config, file: seq<byte>, index: Index, x: uint64, r: RecordIndex) {
    && FlagsOk(r)
    && (r.man.Some? ==> ManOk(cfg, r.man.value))
    && (r.slot.Some? ==> StoredOk(cfg, file, index, x, r))
  }

  // ----- pending deletions

  /** A pending deletion names the slot of its x, with the extent that the slot names. */
  ghost predicate DeletionOk(index: Index, x: uint64, d: Deletion) {
    && (d.start == -1 <==> d.slot.None?)
    && (d.slot.Some? ==>
          && Has(index, d.slot.value)
          && var e := DrecAt(index, d.slot.value);
             e.key == x && e.start == d.start && e.blockCount == d.blockCount)
  }

  ghost predicate DeletionsOk(index: Index, ds: map<uint64, Deletion>) {
    forall x :: x in ds ==> DeletionOk(index, x, ds[x])
  }

  predicate Apart(a: Option<Slot>, b: Option<Slot>) {
    a.None? || b.None? || a != b
  }

  /** Live records and pending deletions of the same x own different slots. */
  ghost predicate SlotsApart(s: State) {
    && (forall x :: x in s.live && x in s.deletions ==> Apart(s.live[x].slot, s.deletions[x].slot))
    && (forall x :: x in s.live && x in s.erasing ==> Apart(s.live[x].slot, s.erasing[x].slot))
    && (forall x :: x in s.deletions && x in s.erasing ==> Apart(s.deletions[x].slot, s.erasing[x].slot))
  }

  // ----- the space of the data file

  datatype Owner =
    | BySlot(slot: Slot)           // a record of the index file: live, pending deletion, or lost
    | Deferred(x: uint64)          // freed by the running flush, not yet reusable
    | Free(len: int, i: int)

  predicate Owns(index: Index, deferred: map<uint64, Extent>, free: FreeMap, o: Owner) {
    match o
    case BySlot(t) => Has(index, t)
    case Deferred(x) => x in deferred
    case Free(len, i) => HasFree(free, len, i)
  }

  function ExtentOf(index: Index, deferred: map<uint64, Extent>, free: FreeMap, o: Owner): Extent
    requires Owns(index, deferred, free, o)
  {
    match o
    case BySlot(t) => DrecExtent(DrecAt(index, t))
    case Deferred(x) => deferred[x]
    case Free(len, i) => FreeExtent(free, len, i)
  }

  /** Who owns which extent of the data file. */
  ghost function Space(index: Index, deferred: map<uint64, Extent>, free: FreeMap): imap<Owner, Extent> {
    imap o | Owns(index, deferred, free, o) :: ExtentOf(index, deferred, free, o)
  }

  ghost predicate SpaceOk(index: Index, deferred: map<uint64, Extent>, free: FreeMap, size: int) {
    && FreeOk(free)
    && Tiles(Space(index, deferred, free), size)
  }

  // ----- the invariant

  ghost predicate RecordsOk(cfg: Config, s: State) {
    forall x :: x in s.live ==> RecordOk(cfg, s.file, s.index, x, s.live[x])
  }

  ghost predicate QueuedOk(s: State) {
    forall x :: x in s.live && (x in s.queue || x in s.flushing) ==> s.live[x].inQueue
  }

  ghost predicate Inv(cfg: Config, s: State) {
    && RecordsOk(cfg, s)
    && QueuedOk(s)
    && DeletionsOk(s.index, s.deletions) && DeletionsOk(s.index, s.erasing) && SlotsApart(s)
    && IndexInv(s.index)
    && SpaceOk(s.index, s.deferred, s.free, |s.file|)
    && (forall x :: x in s.flushing ==> x !in s.deferred)
  }

  // ----- managers

  /** Canonical pages are the same as canonical contents. */
  lemma CanonicalContents(cfg: Config, m: Man)
    requires Valid(m)
    ensures AllCanonical(cfg, m.pages) <==> CanonicalMap(cfg, Contents(m))
  {
    hide Canonical, Lookup, Keys;
    if CanonicalMap(cfg, Contents(m)) {
      forall b, r | 0 <= b < |m.pages| && r in m.pages[b].records ensures Canonical(cfg, r.data) {
        var i :| 0 <= i < |m.pages[b].records| && m.pages[b].records[i] == r;
        HeldRecord(m, b, i);
        assert Contents(m)[r.key] == r.data;
      }
    }
    if AllCanonical(cfg, m.pages) {
      forall k | k in m.index ensures Canonical(cfg, Lookup(m, k)) {
        var b, r := RecordUnder(m, k);
      }
    }
  }

  /** The record that the index leads to. */
  lemma RecordUnder(m: Man, k: uint64) returns (b: nat, r: Record)
    requires Valid(m) && k in m.index
    ensures b < |m.pages| && r in m.pages[b].records && r.data == Lookup(m, k)
  {
    hide PageOk;
    b := m.index[k];
    assert k in Keys(m.pages[b].records);
    FindInKeys(m.pages[b].records, k);
    r := m.pages[b].records[Find(m.pages[b].records, k)];
  }

  lemma HeldRecord(m: Man, b: nat, i: nat)
    requires Valid(m) && b < |m.pages| && i < |m.pages[b].records|
    ensures var r := m.pages[b].records[i];
            r.key in m.index && m.index[r.key] == b && Lookup(m, r.key) == r.data
  {
    GetAt(m.pages[b].records, i);
  }

  /** Agreement determines the index. */
  lemma IndexUnique(a: Man, b: Man)
    requires Valid(a) && Valid(b) && a.pages == b.pages
    ensures a == b
  {
    hide Keys, PageOk;
    forall k ensures k in a.index <==> k in b.index {
      if k in a.index {
        assert k in Keys(a.pages[a.index[k]].records);
      }
      if k in b.index {
        assert k in Keys(b.pages[b.index[k]].records);
      }
    }
    forall k | k in a.index ensures a.index[k] == b.index[k] {
      assert k in Keys(a.pages[a.index[k]].records);
    }
    assert a.index == b.index;
  }

  lemma FreshOk(cfg: Config)
    requires LimitSound(cfg)
    ensures ManOk(cfg, Fresh()) && Contents(Fresh()) == map[]
  {
    FreshValid();
  }

  lemma WritableRecord(cfg: Config, record: seq<byte>)
    requires GoodConfig(cfg) && |record| >= 1
    ensures Writable(cfg, record)
  {
    if StoredCompressed(cfg, record) {
      assert cfg.compress(record).Some?;
    }
  }

  /** Readers see the record that was written. */
  lemma ReadableWrite(cfg: Config, c: map<uint64, seq<byte>>, y: uint64, record: seq<byte>)
    requires LimitSound(cfg) && Expand(cfg, Stored(cfg, record)) == record
    ensures Readable(cfg, LimitedPut(cfg, c, y, Stored(cfg, record)))
         == LimitedPut(cfg, Readable(cfg, c), y, record)
  {
    hide Expand, Stored, IsFirst, Rank;
    assert c.Keys == Readable(cfg, c).Keys && |c| == |c.Keys| && |Readable(cfg, c)| == |Readable(cfg, c).Keys|;
  }

  /** What a write that is not too big reports, from the map `c` that it found. */
  ghost predicate Reports(cfg: Config, c: map<uint64, seq<byte>>, y: uint64, st: Status)
    requires LimitSound(cfg)
  {
    && st.Done?
    && (st.countLimit <==> y !in c && Full(cfg, c))
    && (st.oldRecord <==> y !in c && Full(cfg, c) && y < FirstKey(c.Keys))
    && (st.needDefrag <==> y !in c && Full(cfg, c) && !st.oldRecord && cfg.defragAfterRecordDelete <= 1)
  }

  lemma WriteReports(cfg: Config, m: Man, y: uint64, data: seq<byte>, r: (Man, Status))
    requires LimitSound(cfg) && LimitedWrite(cfg, m, y, data, r)
    ensures Reports(cfg, Readable(cfg, Contents(m)), y, r.1)
  {
    hide Contents, Readable, IsFirst, LimitedPut;
    var c := Readable(cfg, Contents(m));
    assert c.Keys == m.index.Keys;
    assert |c| == |c.Keys| && |m.index| == |m.index.Keys|;
  }

  lemma CanonicalWrite(cfg: Config, c: map<uint64, seq<byte>>, y: uint64, data: seq<byte>)
    requires LimitSound(cfg) && CanonicalMap(cfg, c) && Canonical(cfg, data)
    ensures CanonicalMap(cfg, LimitedPut(cfg, c, y, data))
  {
    hide Canonical, IsFirst, Rank;
  }

  /** The manager part of a write: the invariant, what readers see, and what the status means. */
  lemma ManWriteOk(cfg: Config, m: Man, y: uint64, record: seq<byte>)
    requires GoodConfig(cfg) && ManOk(cfg, m) && |record| >= 1
    requires |record| <= MAX_RECORD_SIZE ==> !LooksPacked(cfg, record)
    requires LimitInForce(cfg) || |m.pages| < MAX_BLOCKS || |ManWrite(cfg, m, y, record).0.pages| == |m.pages|
    ensures var (m', st) := ManWrite(cfg, m, y, record);
            && ManOk(cfg, m')
            && (st.TooBig? <==> |record| > MAX_RECORD_SIZE)
            && (st.TooBig? || st.oldRecord ==> m' == m)
            && Writes.Touched(m.pages, m'.pages)
            && |m'.pages| == |m.pages| + (if st.Done? && st.reallocated then 1 else 0)
            && (st.Done? && st.needDefrag ==> cfg.defragAfterRecordDelete <= 1 && |m'.index| == |m.index|)
            && (|record| <= MAX_RECORD_SIZE ==> Reports(cfg, Readable(cfg, Contents(m)), y, st))
            && Readable(cfg, Contents(m'))
               == (if |record| > MAX_RECORD_SIZE then Readable(cfg, Contents(m))
                   else LimitedPut(cfg, Readable(cfg, Contents(m)), y, record))
  {
    hide Valid, Write, Contents, Canonical, CanonicalMap, AllCanonical, LimitedPut, IsFirst, Stored, Expand, LooksPacked,
         Readable, Reports;
    CanonicalContents(cfg, m);
    WritableRecord(cfg, record);
    WriteTouches(cfg, m, y, record);
    if LimitInForce(cfg) {
      WriteGrowth(cfg, m, y, record);
    }
    WriteCorrect(cfg, m, y, record);
    CanonicalContents(cfg, ManWrite(cfg, m, y, record).0);
    if |record| <= MAX_RECORD_SIZE {
      StoredIsCanonical(cfg, record);
      CanonicalWrite(cfg, Contents(m), y, Stored(cfg, record));
      ReadableWrite(cfg, Contents(m), y, record);
      WriteReports(cfg, m, y, Stored(cfg, record), ManWrite(cfg, m, y, record));
    }
  }

  lemma ManDeleteOk(cfg: Config, m: Man, y: uint64)
    requires ManOk(cfg, m)
    ensures var m' := ManDelete(m, y);
            && ManOk(cfg, m') && Writes.Touched(m.pages, m'.pages) && |m'.pages| == |m.pages|
            && Readable(cfg, Contents(m')) == Readable(cfg, Contents(m)) - {y}
  {
    hide Valid, Delete, Contents, Canonical, Expand, AllCanonical;
    if y in m.index {
      DeleteCorrect(m, y);
      CanonicalContents(cfg, m);
      CanonicalContents(cfg, Delete(m, y));
      DeleteTouches(m, y);
      assert |Contents(Delete(m, y))| == |Delete(m, y).index|;
    } else {
      assert y !in Contents(m);
      assert Readable(cfg, Contents(m)) - {y} == Readable(cfg, Contents(m));
    }
  }

  lemma ManDefragOk(cfg: Config, m: Man)
    requires GoodConfig(cfg) && ManOk(cfg, m)
    ensures var m' := ManDefrag(cfg, m);
            && ManOk(cfg, m') && Contents(m') == Contents(m)
            && |m'.index| == |m.index| && |m'.pages| <= |m.pages|
            && (m.index != map[] ==> Packed(m'.pages))
  {
    hide Packed, Valid, Defragment, Contents, CanonicalMap, AllCanonical;
    DefragmentCorrect(cfg, m);
    CanonicalContents(cfg, m);
    CanonicalContents(cfg, Defragment(cfg, m));
  }

  lemma CleanedOk(cfg: Config, m: Man)
    requires ManOk(cfg, m)
    ensures ManOk(cfg, Cleaned(m)) && AllClean(Cleaned(m).pages) && AllFit(Cleaned(m).pages) && AllFit(m.pages)
    ensures Contents(Cleaned(m)) == Contents(m)
    ensures Load(EncodeAll(Cleaned(m).pages), |m.pages|) == Cleaned(m)
  {
    hide Contents, Canonical;
    CleanedValid(m);
    ValidFits(m);
    ValidFits(Cleaned(m));
    LoadEncoded(Cleaned(m));
  }
}
