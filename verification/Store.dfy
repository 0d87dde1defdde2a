/** Storage.cpp and DiskWriter.cpp as a state machine. One step is one operation under its record's
    accessor, one flushed or erased item, or one action of the storage thread between items; steps
    of different threads interleave freely. */
module Store {
  import opened Bytes
  import opened Pages
  import opened Config
  import opened Manager
  import opened Writes
  import opened Retention
  import opened Loading
  import opened Defrag
  import opened FreeSpace
  import opened IndexFile

  /** RecordIndex: what the server keeps in memory for one x. */
  datatype RecordIndex = RecordIndex(
    start: int,              // m_recordStart, -1: not on disk
    man: Option<Man>,        // m_pBlockManager, None: not in memory
    blockCount: nat,         // m_blockCount
    slot: Option<Slot>,      // m_IB_blockNumber, m_IB_recordOffset; None: offset -1
    crc: nat,
    relocate: bool,          // eRIF_RelocateBlocks
    dirty: bool,             // eRIF_Dirty
    inQueue: bool)           // eRIF_InDiskWriteQueue

  datatype Deletion = Deletion(start: int, blockCount: nat, slot: Option<Slot>)

  datatype State = State(
    live: map<uint64, RecordIndex>,      // m_dataIndexes
    queue: set<uint64>,                  // m_pQueue
    removes: multiset<uint64>,           // DeleteData calls on their way to Remove(x)
    deletions: map<uint64, Deletion>,    // m_pRIDelQueue, one entry per key
    erasing: map<uint64, Deletion>,      // taken by ProcessIndexDeleteQueue, not yet erased
    flushing: set<uint64>,               // taken by Process, not yet written
    deferred: map<uint64, Extent>,       // rFreeSpaceToAdd
    free: FreeMap,                       // m_rFreeSpace
    file: seq<byte>,                     // the data file
    index: Index,                        // the index file and m_freeBlocks
    memUsed: int)                        // m_memoryUsed, before it is reduced to 64 bits

  datatype Step =
    | WriteXY(x: uint64, y: uint64, record: seq<byte>)   // WriteData
    | DeleteXY(x: uint64, y: uint64)                     // DeleteData(x, y)
    | DeleteX(x: uint64)                                 // DeleteData(x), up to the map erase
    | RemoveFromQueue(x: uint64)                         // the rest of DeleteData(x)
    | DefragX(x: uint64)                                 // DefragmentData
    | ReadX(x: uint64)                                   // ReadData: loads the record
    | Evict(x: uint64)                                   // one round of CheckMemory
    | TakeDeletions                                      // ProcessIndexDeleteQueue, begin
    | EraseOne(x: uint64)                                // ProcessIndexDeleteQueue, one entry
    | TakeQueue                                          // Process, begin
    | FlushOne(x: uint64)                                // Process, one item
    | FreeOne(x: uint64)                                 // Process, one deferred free
    | RebuildFree                                        // DefragmentFreeSpace

  // ----- memory accounting

  const AVL_NODE_SIZE: nat   // sizeof(struct avl_node) + sizeof(blidxnode)
  const MANAGER_SIZE: nat    // sizeof(blman)

  /** What the uint64 m_memoryUsed holds. */
  function Counter(memUsed: int): nat {
    memUsed % 0x1_0000_0000_0000_0000
  }

  /** blman_get_memory_usage. */
  function MemoryUsage(m: Man): nat {
    |m.index| * AVL_NODE_SIZE + |m.pages| * BLOCK_SIZE + MANAGER_SIZE
  }

  // ----- total forms of the manager operations

  ghost function ManWrite(cfg: Config, m: Man, y: uint64, record: seq<byte>): (Man, Status) {
    if Valid(m) && Writable(cfg, record) then Write(cfg, m, y, record) else (m, TooBig)
  }

  ghost function ManDelete(m: Man, y: uint64): Man {
    if Valid(m) && y in m.index then Delete(m, y) else m
  }

  ghost function ManDefrag(cfg: Config, m: Man): Man {
    if Valid(m) && LimitSound(cfg) && AllCanonical(cfg, m.pages) then Defragment(cfg, m) else m
  }

  // ----- the data file

  predicate InFile(file: seq<byte>, start: int, n: nat) {
    0 <= start && start + BLOCK_SIZE * n <= |file|
  }

  function DiskBytes(file: seq<byte>, start: int, n: nat): (d: seq<byte>)
    ensures InFile(file, start, n) ==> |d| == BLOCK_SIZE * n
  {
    if InFile(file, start, n) then file[start..start + BLOCK_SIZE * n] else []
  }

  /** The manager built from what is stored (the load in CheckBlockManager). */
  function DiskMan(file: seq<byte>, start: int, n: nat): Man {
    if InFile(file, start, n) then Load(DiskBytes(file, start, n), n) else Man([], map[])
  }

  function WriteAt(file: seq<byte>, pos: int, bytes: seq<byte>): (r: seq<byte>)
    ensures |r| == |file|
  {
    if 0 <= pos && pos + |bytes| <= |file| then Splice(file, pos, bytes) else file
  }

  /** WriteDataWithoutRelocateFlag: the first `n` pages, those marked dirty are written. */
  ghost function WriteDirty(file: seq<byte>, start: int, pages: seq<Page>, n: nat): (r: seq<byte>)
    requires n <= |pages| && AllFit(pages)
    ensures |r| == |file|
  {
    if n == 0 then file
    else
      var before := WriteDirty(file, start, pages, n - 1);
      if IsDirty(pages[n - 1].flags)
      then WriteAt(before, start + BLOCK_SIZE * (n - 1), Encode(CleanPage(pages[n - 1])))
      else before
  }

  // ----- loading

  /** CheckBlockManager; a record that must be relocated is never loaded. */
  ghost function Loaded(s: State, x: uint64): State
    requires x in s.live
  {
    var r := s.live[x];
    if r.man.Some? || r.relocate then s
    else
      var m := DiskMan(s.file, r.start, r.blockCount);
      s.(live := s.live[x := r.(man := Some(m))], memUsed := s.memUsed + MemoryUsage(m))
  }

  // ----- client operations

  /** DefragmentDataInternal, on a record whose manager is `m`. */
  ghost function Defragged(cfg: Config, s: State, x: uint64, m: Man): State
    requires x in s.live
  {
    var d := ManDefrag(cfg, m);
    var before, after := MemoryUsage(m), MemoryUsage(d);
    s.(live := s.live[x := s.live[x].(man := Some(d), relocate := true, dirty := true, inQueue := true)],
       queue := s.queue + {x},
       memUsed := s.memUsed + if before > after then after - before else before - after)
  }

  /** WriteData after the write of a record in memory, by the status of the write. */
  ghost function AfterWrite(cfg: Config, s: State, x: uint64, m: Man, status: Status, delta: int): State
    requires x in s.live
  {
    var r := s.live[x].(man := Some(m));
    if status.TooBig? then s
    else if status.oldRecord then s.(live := s.live[x := r], memUsed := s.memUsed + delta)
    else if status.needDefrag then Defragged(cfg, s, x, m)
    else
      var grown := status.reallocated;
      s.(live := s.live[x := r.(relocate := r.relocate || grown, dirty := r.dirty || grown, inQueue := true)],
         queue := s.queue + {x}, memUsed := s.memUsed + delta)
  }

  ghost function Written(cfg: Config, s: State, x: uint64, y: uint64, record: seq<byte>): State {
    if x !in s.live then
      var m := ManWrite(cfg, Fresh(), y, record).0;
      s.(live := s.live[x := RecordIndex(-1, Some(m), 1, None, 0, true, true, true)],
         queue := s.queue + {x}, memUsed := s.memUsed + MemoryUsage(m))
    else
      var s1 := Loaded(s, x);
      var r := s1.live[x];
      if r.man.None? then s1
      else
        var (m, status) := ManWrite(cfg, r.man.value, y, record);
        AfterWrite(cfg, s1, x, m, status, MemoryUsage(m) - MemoryUsage(r.man.value))
  }

  ghost function RecordDeleted(s: State, x: uint64, y: uint64): State {
    if x !in s.live then s
    else
      var s1 := Loaded(s, x);
      var r := s1.live[x];
      if r.man.None? then s1
      else
        var m' := ManDelete(r.man.value, y);
        s1.(live := s1.live[x := r.(man := Some(m'), inQueue := true)], queue := s1.queue + {x},
            memUsed := s1.memUsed + MemoryUsage(m') - MemoryUsage(r.man.value))
  }

  /** DeleteData(x): the pending entry of an earlier deletion of the same x is replaced. */
  function Deleted(s: State, x: uint64): State {
    if x !in s.live then s.(removes := s.removes + multiset{x})
    else
      var r := s.live[x];
      s.(live := s.live - {x}, removes := s.removes + multiset{x},
         deletions := s.deletions[x := Deletion(r.start, r.blockCount, r.slot)],
         memUsed := s.memUsed - if r.man.Some? then MemoryUsage(r.man.value) else 0)
  }

  ghost function DefragStep(cfg: Config, s: State, x: uint64): State {
    if x !in s.live then s
    else
      var s1 := Loaded(s, x);
      if s1.live[x].man.None? then s1 else Defragged(cfg, s1, x, s1.live[x].man.value)
  }

  /** CheckMemory, for one key of the LRU list. */
  function Evicted(s: State, x: uint64): State {
    if x in s.live && !s.live[x].inQueue && s.live[x].man.Some? then
      s.(live := s.live[x := s.live[x].(man := None)],
         memUsed := s.memUsed - MemoryUsage(s.live[x].man.value))
    else s
  }

  // ----- the storage thread

  function Erased(s: State, x: uint64): State {
    if x !in s.erasing then s
    else
      var d := s.erasing[x];
      s.(erasing := s.erasing - {x},
         free := if d.start != -1 then AddFree(s.free, d.start, d.blockCount * BLOCK_SIZE) else s.free,
         index := if d.slot.Some? && InRange(s.index, d.slot.value) then EraseDrec(s.index, d.slot.value) else s.index)
  }

  /** Where the pages of a record go: the position, the free map and the file size afterwards. */
  datatype Placement = Placement(pos: int, free: FreeMap, size: int)

  function Max(a: int, b: int): int {
    if a > b then a else b
  }

  /** The allocation in WriteDataWithRelocateFlag: once, and again after ReallocDataFile. */
  ghost function Allocate(cfg: Config, free: FreeMap, size: nat, len: int): Placement {
    if !FreeOk(free) then Placement(-1, free, size)
    else
      var (pos, f) := Alloc(free, len);
      if pos != -1 then Placement(pos, f, size)
      else
        var d := Max(cfg.reallocSize, len);
        var g := AddFree(free, size, d);
        if !FreeOk(g) then Placement(-1, g, size + d)
        else
          var (pos2, f2) := Alloc(g, len);
          Placement(pos2, f2, size + d)
  }

  function Grown(file: seq<byte>, size: int): (r: seq<byte>)
    ensures size >= |file| ==> |r| == size
  {
    if size <= |file| then file else file + Zeros(size - |file|)
  }

  /** One item of Process, for a record that is in memory: what is stored and where. */
  datatype Flush = Flush(start: int, free: FreeMap, file: seq<byte>, deferred: map<uint64, Extent>)

  ghost function FlushData(cfg: Config, s: State, x: uint64, m: Man): Flush
    requires x in s.live && AllFit(m.pages) && AllFit(Cleaned(m).pages)
  {
    var r := s.live[x];
    if !r.relocate then
      Flush(r.start, s.free, WriteDirty(s.file, r.start, m.pages, |m.pages|), s.deferred)
    else
      var p := Allocate(cfg, s.free, |s.file|, BLOCK_SIZE * |m.pages|);
      Flush(p.pos, p.free, WriteAt(Grown(s.file, p.size), p.pos, EncodeAll(Cleaned(m).pages)),
            if r.start != -1 then s.deferred[x := Extent(r.start, r.blockCount * BLOCK_SIZE)] else s.deferred)
  }

  ghost function Flushed(cfg: Config, s: State, x: uint64): State {
    var s1 := s.(flushing := s.flushing - {x});
    if x !in s.live || s.live[x].man.None? || !AllFit(s.live[x].man.value.pages) then s1
    else
      var r, m := s.live[x], s.live[x].man.value;
      CleanedFits(m);
      var w := FlushData(cfg, s, x, m);
      if w.start == -1 then s1.(free := w.free, file := w.file)
      else
        var m' := Cleaned(m);
        var n, crc := |m.pages|, cfg.crc(EncodeAll(m'.pages));
        var inQueue := r.inQueue && x in s.queue;
        var (index, slot) :=
          if (r.dirty || crc != r.crc) && IndexReady(s.index, r.slot) then
            var (i, sl) := WriteDrec(s.index, r.slot, Drec(x, w.start, crc, n));
            (i, Some(sl))
          else (s.index, r.slot);
        s1.(live := s.live[x := RecordIndex(w.start, Some(m'), n, slot, crc, false, false, inQueue)],
            free := w.free, file := w.file, deferred := w.deferred, index := index)
  }

  predicate IndexReady(index: Index, slot: Option<Slot>) {
    && (slot.Some? ==> InRange(index, slot.value))
    && forall b :: b in index.freeBlocks ==> b < |index.pages|
  }

  lemma CleanedFits(m: Man)
    requires AllFit(m.pages)
    ensures AllFit(Cleaned(m).pages)
  {
  }

  function Freed(s: State, x: uint64): State {
    if x !in s.deferred then s
    else
      s.(deferred := s.deferred - {x}, free := AddFree(s.free, s.deferred[x].pos, s.deferred[x].len))
  }

  function DrecExtent(d: Drec): Extent {
    Extent(d.start, d.blockCount * BLOCK_SIZE)
  }

  function SlotExtents(index: Index, ss: seq<Slot>): (es: seq<Extent>)
    requires forall t :: t in ss ==> InRange(index, t)
    ensures |es| == |ss|
    ensures forall i :: 0 <= i < |ss| ==> es[i] == DrecExtent(DrecAt(index, ss[i]))
  {
    seq(|ss|, i requires 0 <= i < |ss| => DrecExtent(DrecAt(index, ss[i])))
  }

  /** The extents that the index file names, in scan order. */
  function StoredExtents(index: Index): seq<Extent> {
    ScanSlotsCorrect(index.pages, |index.pages|);
    SlotExtents(index, ScanSlots(index.pages, |index.pages|))
  }

  function Rebuilt(s: State): State {
    var (ok, f) := Rebuild(StoredExtents(s.index), |s.file|);
    s.(free := if ok then f else s.free)
  }

  // ----- steps

  ghost function Apply(cfg: Config, s: State, step: Step): State {
    match step
    case WriteXY(x, y, record) => Written(cfg, s, x, y, record)
    case DeleteXY(x, y) => RecordDeleted(s, x, y)
    case DeleteX(x) => Deleted(s, x)
    case RemoveFromQueue(x) => s.(removes := s.removes - multiset{x}, queue := s.queue - {x})
    case DefragX(x) => DefragStep(cfg, s, x)
    case ReadX(x) => if x in s.live then Loaded(s, x) else s
    case Evict(x) => Evicted(s, x)
    case TakeDeletions => s.(erasing := s.deletions, deletions := map[])
    case EraseOne(x) => Erased(s, x)
    case TakeQueue => s.(flushing := s.queue, queue := {})
    case FlushOne(x) => Flushed(cfg, s, x)
    case FreeOne(x) => Freed(s, x)
    case RebuildFree => Rebuilt(s)
  }

  /** The storage thread has finished everything it took. */
  predicate Idle(s: State) {
    s.erasing == map[] && s.flushing == {} && s.deferred == map[]
  }

  /** A write that the model covers: not empty, not a client's own packed data, and the page count of
      the record stays within its uint16 (implied by a record limit in force). */
  ghost predicate WriteEnabled(cfg: Config, s: State, x: uint64, y: uint64, record: seq<byte>) {
    && |record| >= 1
    && (|record| <= MAX_RECORD_SIZE ==> !LooksPacked(cfg, record))
    && (LimitInForce(cfg) || x !in s.live ||
        var m := ManOf(s.file, s.live[x]);
        |m.pages| < MAX_BLOCKS || |ManWrite(cfg, m, y, record).0.pages| == |m.pages|)
  }

  /** The index file has room for the record: it is not there yet only when one more page can be
      addressed or an old one has an empty slot. */
  predicate CanFlush(s: State, x: uint64) {
    x in s.live ==> CanAdd(s.index, s.live[x].slot)
  }

  /** When the step can happen: the order of actions within the storage thread, and the calls on
      their way to Remove(x). */
  ghost predicate Enabled(cfg: Config, s: State, step: Step) {
    match step
    case WriteXY(x, y, record) => WriteEnabled(cfg, s, x, y, record)
    case RemoveFromQueue(x) => x in s.removes
    case TakeDeletions => Idle(s)
    case EraseOne(x) => x in s.erasing
    case TakeQueue => Idle(s)
    case FlushOne(x) => x in s.flushing && s.erasing == map[] && CanFlush(s, x)
    case FreeOne(x) => x in s.deferred && s.flushing == {}
    case RebuildFree => Idle(s)
    case _ => true
  }

  // ----- the plain map that clients see

  type Plain = map<uint64, map<uint64, seq<byte>>>

  /** The manager of a record, whether it is in memory or on disk. */
  function ManOf(file: seq<byte>, r: RecordIndex): Man {
    if r.man.Some? then r.man.value else DiskMan(file, r.start, r.blockCount)
  }

  function Readable(cfg: Config, c: map<uint64, seq<byte>>): (p: map<uint64, seq<byte>>)
    ensures p.Keys == c.Keys
  {
    map k | k in c :: Expand(cfg, c[k])
  }

  function Seen(cfg: Config, file: seq<byte>, r: RecordIndex): map<uint64, seq<byte>> {
    Readable(cfg, Contents(ManOf(file, r)))
  }

  /** What ReadData returns for every x and y. */
  function View(cfg: Config, s: State): (v: Plain)
    ensures v.Keys == s.live.Keys
  {
    map x | x in s.live :: Seen(cfg, s.file, s.live[x])
  }

  /** WriteData on the plain map: a record that is too big is dropped, everything else goes through
      the record limit of its x. */
  ghost function PlainWrite(cfg: Config, v: Plain, x: uint64, y: uint64, record: seq<byte>): Plain
    requires LimitSound(cfg)
  {
    var c := if x in v then v[x] else map[];
    v[x := if |record| > MAX_RECORD_SIZE then c else LimitedPut(cfg, c, y, record)]
  }

  ghost function PlainStep(cfg: Config, v: Plain, step: Step): Plain
    requires LimitSound(cfg)
  {
    match step
    case WriteXY(x, y, record) => PlainWrite(cfg, v, x, y, record)
    case DeleteXY(x, y) => if x in v then v[x := v[x] - {y}] else v
    case DeleteX(x) => v - {x}
    case _ => v
  }
}
