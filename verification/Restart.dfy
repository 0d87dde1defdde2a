/** Storage::Init: what comes back from the two files after a shutdown. */
module Restart {
  import opened Bytes
  import opened Pages
  import opened Config
  import opened Manager
  import opened FreeSpace
  import opened IndexFile
  import opened Store
  import opened Invariant
  import opened ClientSteps
  import opened SpaceSteps
  import opened StoredImages
  import opened Lifecycle
  import opened Shutdown

  // ----- opening the files

  ghost predicate InPageOrder(ss: seq<Slot>) {
    forall i, j :: 0 <= i < j < |ss| && ss[i].page == ss[j].page ==> ss[i].pos < ss[j].pos
  }

  /** The order in which the parallel scan inserts: each page from its start, pages in any order. */
  ghost predicate IsParallelScan(index: Index, ss: seq<Slot>) {
    IsScan(index, ss) && InPageOrder(ss)
  }

  predicate AllInRange(index: Index, ss: seq<Slot>) {
    forall t :: t in ss ==> InRange(index, t)
  }

  function RecordOfDrec(d: Drec, t: Slot): RecordIndex {
    RecordIndex(d.start, None, d.blockCount, Some(t), d.crc, false, false, false)
  }

  /** FillIndex after `n` slots of the scan: of two slots with the same key, the first one stays. */
  function Indexed(index: Index, ss: seq<Slot>, n: nat): map<uint64, RecordIndex>
    requires n <= |ss| && AllInRange(index, ss)
  {
    if n == 0 then map[]
    else
      var live, d := Indexed(index, ss, n - 1), DrecAt(index, ss[n - 1]);
      if d.key in live then live else live[d.key := RecordOfDrec(d, ss[n - 1])]
  }

  /** Storage::Init on the two files; it fails when the stored extents are unsound. An empty data file
      is grown first. */
  function Opened(cfg: Config, file: seq<byte>, pages: seq<IPage>, ss: seq<Slot>): Option<State>
    requires AllInRange(Index(pages, RoomOf(pages)), ss)
  {
    var index := Index(pages, RoomOf(pages));
    var data := if |file| == 0 then Grown(file, cfg.reallocSize) else file;
    var (ok, free) := Rebuild(SlotExtents(index, ss), |data|);
    if ok then
      Some(State(Indexed(index, ss, |ss|), {}, multiset{}, map[], map[], {}, map[], free, data, index, 0))
    else None
  }

  lemma ScanInRange(index: Index, ss: seq<Slot>)
    requires IsScan(index, ss)
    ensures AllInRange(index, ss)
  {
  }

  /** The i-th slot is the first of the scan with key `k`. */
  ghost predicate FirstWith(index: Index, ss: seq<Slot>, k: uint64, i: nat)
    requires AllInRange(index, ss)
  {
    && i < |ss| && DrecAt(index, ss[i]).key == k
    && forall j :: 0 <= j < i ==> DrecAt(index, ss[j]).key != k
  }

  /** Every key that a slot names is loaded. */
  lemma {:induction false} IndexedKeys(index: Index, ss: seq<Slot>, n: nat, i: nat)
    requires i < n <= |ss| && AllInRange(index, ss)
    ensures DrecAt(index, ss[i]).key in Indexed(index, ss, n)
  {
    hide DrecAt;
    if i < n - 1 {
      IndexedKeys(index, ss, n - 1, i);
    }
  }

  /** A key is loaded from the first slot that names it. */
  lemma {:induction false} IndexedFirst(index: Index, ss: seq<Slot>, n: nat, k: uint64) returns (i: nat)
    requires n <= |ss| && AllInRange(index, ss) && k in Indexed(index, ss, n)
    ensures i < n && FirstWith(index, ss, k, i)
    ensures Indexed(index, ss, n)[k] == RecordOfDrec(DrecAt(index, ss[i]), ss[i])
  {
    hide DrecAt;
    if k in Indexed(index, ss, n - 1) {
      i := IndexedFirst(index, ss, n - 1, k);
    } else {
      i := n - 1;
      forall j | 0 <= j < i ensures DrecAt(index, ss[j]).key != k {
        IndexedKeys(index, ss, n - 1, j);
      }
    }
  }

  // ----- what is on disk

  lemma LoadedSlotOk(cfg: Config, file: seq<byte>, index: Index, t: Slot)
    requires SlotImageOk(cfg, file, index, t)
    ensures RecordOk(cfg, file, index, DrecAt(index, t).key, RecordOfDrec(DrecAt(index, t), t))
  {
    hide ImageOk, Has;
  }

  lemma SlotImageGrown(cfg: Config, file: seq<byte>, file': seq<byte>, index: Index, t: Slot)
    requires SlotImageOk(cfg, file, index, t) && (|file| == 0 || file' == file)
    ensures file' == file && SlotImageOk(cfg, file', index, t)
  {
    hide ImageOk, Has;
  }

  /** Opening sound files gives a state that satisfies the invariant, with nothing under way and the
      free map as the exact rest of the data file, in maximal extents. */
  lemma OpenedOk(cfg: Config, file: seq<byte>, index: Index, ss: seq<Slot>)
    requires IndexInv(index) && SlotsSound(index, |file|) && IsScan(index, ss) && AllInRange(index, ss)
    requires forall x :: x in Indexed(index, ss, |ss|) ==>
               var r := Indexed(index, ss, |ss|)[x]; r.slot.Some? && SlotImageOk(cfg, file, index, r.slot.value)
    ensures RoomOf(index.pages) == index.freeBlocks
    ensures var o := Opened(cfg, file, index.pages, ss);
            && o.Some? && Inv(cfg, o.value) && Idle(o.value)
            && o.value.index == index && o.value.live == Indexed(index, ss, |ss|)
            && o.value.queue == {} && o.value.deletions == map[] && o.value.removes == multiset{}
            && o.value.memUsed == 0
            && (if |file| > 0 then o.value.file == file
                else o.value.file == Zeros(if cfg.reallocSize > 0 then cfg.reallocSize else 0))
            && Maximal(o.value.free, |o.value.file|)
            && forall p :: 0 <= p < |o.value.file| ==> (InFree(o.value.free, p) <==> !InStored(index, p))
  {
    hide RecordOk, IndexInv, SpaceOk, Rebuild, Has, SlotImageOk, SlotExtents, Indexed, InFree, InStored, Maximal,
         SlotsSound, IsScan, DrecAt;
    RoomRebuilt(index);
    var data := if |file| == 0 then Grown(file, cfg.reallocSize) else file;
    SlotsSoundGrown(index, |file|, |data|);
    RebuiltSpace(index, |data|, ss);
    var live := Indexed(index, ss, |ss|);
    forall x | x in live ensures RecordOk(cfg, data, index, x, live[x]) {
      var i := IndexedFirst(index, ss, |ss|, x);
      var t := live[x].slot.value;
      SlotImageGrown(cfg, file, data, index, t);
      LoadedSlotOk(cfg, data, index, t);
    }
    assert QueuedOk(Opened(cfg, file, index.pages, ss).value);
  }

  lemma SlotsSoundGrown(index: Index, size: int, larger: int)
    requires SlotsSound(index, size) && size <= larger
    ensures SlotsSound(index, larger)
  {
    hide Has;
  }

  /** A new store: two empty files. */
  lemma NewStoreOk(cfg: Config)
    ensures var o := Opened(cfg, [], [], []);
            o.Some? && Inv(cfg, o.value) && View(cfg, o.value) == map[] && Leaked(o.value) == iset{}
            && Orphans(o.value) == {} && ImagesOk(cfg, o.value)
  {
    var index := Index([], {});
    assert RoomOf([]) == {};
    OpenedOk(cfg, [], index, []);
  }

  /** A new store. */
  ghost function NewStore(cfg: Config): (s: State)
    ensures Opened(cfg, [], [], []) == Some(s)
  {
    NewStoreOk(cfg);
    Opened(cfg, [], [], []).value
  }

  lemma NewStoreIs(cfg: Config)
    ensures var s := NewStore(cfg);
            && s.live == map[] && s.queue == {} && s.flushing == {} && s.deletions == map[] && s.index.pages == []
            && s.memUsed == 0
  {
  }

  // ----- shutting down and starting again

  /** Both queues are empty and no record lost its place in them: the final flush of ~Storage is over. */
  ghost predicate Settled(s: State) {
    Finished(s) && Orphans(s) == {}
  }

  /** The leaked slot comes after the slot of the live record with its key, in the same page. */
  ghost predicate Harmless(s: State, t: Slot)
    requires InRange(s.index, t)
  {
    var k := DrecAt(s.index, t).key;
    k in s.live && s.live[k].slot.Some?
    && s.live[k].slot.value.page == t.page && s.live[k].slot.value.pos < t.pos
  }

  ghost predicate AllHarmless(s: State) {
    forall t :: Has(s.index, t) && t in Leaked(s) ==> Harmless(s, t)
  }

  /** The same keys from the same slots. */
  ghost predicate SameSlots(live: map<uint64, RecordIndex>, s: State) {
    live.Keys == s.live.Keys && forall x :: x in live ==> live[x].slot == s.live[x].slot
  }

  /** The record as the index file knows it. */
  function OnDisk(r: RecordIndex): RecordIndex {
    RecordIndex(r.start, None, r.blockCount, r.slot, r.crc, false, false, false)
  }

  lemma StoredRecord(cfg: Config, s: State, x: uint64)
    requires Inv(cfg, s) && x in s.live && s.live[x].slot.Some?
    ensures var r := s.live[x];
            && SlotImageOk(cfg, s.file, s.index, r.slot.value) && Has(s.index, r.slot.value)
            && OnDisk(r) == RecordOfDrec(DrecAt(s.index, r.slot.value), r.slot.value)
            && DrecAt(s.index, r.slot.value).key == x
  {
    hide ManOk, ImageOk, MatchOk, Has;
    RecordOf(cfg, s, x);
  }

  /** A record that waits for nothing has a slot and reads the same from disk as from memory. */
  lemma UnqueuedRecord(cfg: Config, s: State, x: uint64)
    requires Inv(cfg, s) && x in s.live && !s.live[x].inQueue
    ensures s.live[x].slot.Some? && Seen(cfg, s.file, OnDisk(s.live[x])) == Seen(cfg, s.file, s.live[x])
  {
    hide RecordOk, DiskMan, Readable, Contents;
    RecordOf(cfg, s, x);
    HasSlot(cfg, s.file, s.index, x, s.live[x]);
    if s.live[x].man.Some? {
      EvictedRecord(cfg, s.file, s.index, x, s.live[x]);
    }
  }

  lemma HasSlot(cfg: Config, file: seq<byte>, index: Index, x: uint64, r: RecordIndex)
    requires RecordOk(cfg, file, index, x, r) && !r.inQueue
    ensures r.slot.Some?
  {
    hide ManOk, StoredOk;
  }

  /** Once everything is finished, an occupied slot belongs to the live record of its key, or has leaked. */
  lemma FinishedSlot(cfg: Config, s: State, t: Slot)
    requires Inv(cfg, s) && Finished(s) && Has(s.index, t) && t !in Leaked(s)
    ensures var k := DrecAt(s.index, t).key; k in s.live && s.live[k].slot == Some(t)
  {
    hide Inv, Has, SlotImageOk, DrecAt;
    var x :| x in s.live && s.live[x].slot == Some(t);
    StoredRecord(cfg, s, x);
  }

  /** With harmless leaks only, every scan finds the live slot of each key first. */
  lemma ScanFindsLive(cfg: Config, s: State, ss: seq<Slot>, i: nat)
    requires Inv(cfg, s) && Finished(s) && AllHarmless(s) && IsParallelScan(s.index, ss) && AllInRange(s.index, ss)
    requires i < |ss| && FirstWith(s.index, ss, DrecAt(s.index, ss[i]).key, i)
    ensures var k := DrecAt(s.index, ss[i]).key; k in s.live && s.live[k].slot == Some(ss[i])
  {
    hide Inv, Has, SlotImageOk, DrecAt, Leaked;
    ScannedSlot(s.index, ss, i);
    if ss[i] in Leaked(s) {
      LiveComesFirst(cfg, s, ss, i);
    } else {
      FinishedSlot(cfg, s, ss[i]);
    }
  }

  lemma LiveComesFirst(cfg: Config, s: State, ss: seq<Slot>, i: nat)
    requires Inv(cfg, s) && IsParallelScan(s.index, ss) && AllInRange(s.index, ss)
    requires i < |ss| && Harmless(s, ss[i])
    ensures exists j :: 0 <= j < i && DrecAt(s.index, ss[j]).key == DrecAt(s.index, ss[i]).key
  {
    hide Inv, Has, SlotImageOk, DrecAt;
    var k := DrecAt(s.index, ss[i]).key;
    StoredRecord(cfg, s, k);
    var u := s.live[k].slot.value;
    var j :| 0 <= j < |ss| && ss[j] == u;
    assert j < i;
  }

  /** What a scan loads: exactly the records that have a slot, as the index file knows them. */
  lemma ScanIsStored(cfg: Config, s: State, ss: seq<Slot>)
    requires Inv(cfg, s) && Finished(s) && AllHarmless(s) && IsParallelScan(s.index, ss) && AllInRange(s.index, ss)
    ensures var live := Indexed(s.index, ss, |ss|);
            && (forall x :: x in live <==> x in s.live && s.live[x].slot.Some?)
            && forall x :: x in live ==> live[x] == OnDisk(s.live[x])
  {
    hide Inv, Has, SlotImageOk, DrecAt, Leaked, AllHarmless, Finished, Indexed;
    var live := Indexed(s.index, ss, |ss|);
    forall x | x in live ensures x in s.live && s.live[x].slot.Some? && live[x] == OnDisk(s.live[x]) {
      var i := IndexedFirst(s.index, ss, |ss|, x);
      ScanFindsLive(cfg, s, ss, i);
      StoredRecord(cfg, s, x);
    }
    forall x | x in s.live && s.live[x].slot.Some? ensures x in live {
      StoredRecord(cfg, s, x);
      var i :| 0 <= i < |ss| && ss[i] == s.live[x].slot.value;
      IndexedKeys(s.index, ss, |ss|, i);
    }
  }

  /** The records that have a slot, with what a reader sees of them on disk. */
  function StoredView(cfg: Config, s: State): Plain {
    map x | x in s.live && s.live[x].slot.Some? :: Seen(cfg, s.file, OnDisk(s.live[x]))
  }

  /** What a scan brings back: for each x the pages that the first slot of x names. */
  function ScanView(cfg: Config, s: State, ss: seq<Slot>): Plain
    requires AllInRange(s.index, ss)
  {
    var live := Indexed(s.index, ss, |ss|);
    map x | x in live :: Seen(cfg, s.file, live[x])
  }

  /** The two files can be opened at any time, whatever has leaked or was orphaned and whatever the order of
      the scan: the opened store is sound, and readers see what the scan found. */
  lemma ReopenedOk(cfg: Config, s: State, ss: seq<Slot>)
    requires Inv(cfg, s) && ImagesOk(cfg, s) && IsScan(s.index, ss) && AllInRange(s.index, ss)
    ensures RoomOf(s.index.pages) == s.index.freeBlocks
    ensures var o := Opened(cfg, s.file, s.index.pages, ss);
            && o.Some? && Inv(cfg, o.value) && ImagesOk(cfg, o.value) && Settled(o.value)
            && View(cfg, o.value) == ScanView(cfg, s, ss)
            && o.value.index == s.index && (|s.file| > 0 ==> o.value.file == s.file)
            && o.value.live == Indexed(s.index, ss, |ss|)
            && Maximal(o.value.free, |o.value.file|)
            && forall p :: 0 <= p < |o.value.file| ==> (InFree(o.value.free, p) <==> !InStored(s.index, p))
  {
    hide Inv, Has, SlotImageOk, DrecAt, ImagesOk, Opened, Indexed, View, ScanView, InFree, InStored, Maximal, SlotsSound,
         IsScan, RoomOf, Settled;
    FilesSound(cfg, s);
    var live := Indexed(s.index, ss, |ss|);
    forall x | x in live ensures live[x].slot.Some? && SlotImageOk(cfg, s.file, s.index, live[x].slot.value) {
      LoadedSlot(cfg, s, ss, x);
    }
    OpenedOk(cfg, s.file, s.index, ss);
    OpenedFields(cfg, s, ss);
    ReopenedView(cfg, s, ss, Opened(cfg, s.file, s.index.pages, ss).value);
  }

  lemma LoadedSlot(cfg: Config, s: State, ss: seq<Slot>, x: uint64)
    requires ImagesOk(cfg, s) && IsScan(s.index, ss) && AllInRange(s.index, ss) && x in Indexed(s.index, ss, |ss|)
    ensures var r := Indexed(s.index, ss, |ss|)[x];
            && r.slot.Some? && SlotImageOk(cfg, s.file, s.index, r.slot.value) && !r.inQueue && |s.file| > 0
  {
    hide Has, SlotImageOk, DrecAt, Indexed;
    var i := IndexedFirst(s.index, ss, |ss|, x);
    ScannedSlot(s.index, ss, i);
    FileNotEmpty(cfg, s.file, s.index, ss[i]);
  }

  lemma FilesSound(cfg: Config, s: State)
    requires Inv(cfg, s)
    ensures IndexInv(s.index) && SlotsSound(s.index, |s.file|)
  {
    hide RecordOk, IndexInv, SpaceOk, DeletionOk;
    SpaceSlotsSound(s.index, s.deferred, s.free, |s.file|);
  }

  lemma OpenedFields(cfg: Config, s: State, ss: seq<Slot>)
    requires AllInRange(s.index, ss) && RoomOf(s.index.pages) == s.index.freeBlocks
    ensures var o := Opened(cfg, s.file, s.index.pages, ss);
            o.Some? ==> o.value.queue == {} && o.value.deletions == map[]
                        && (o.value.live == Indexed(s.index, ss, |ss|))
  {
    assert Index(s.index.pages, RoomOf(s.index.pages)) == s.index;
  }

  lemma ReopenedView(cfg: Config, s: State, ss: seq<Slot>, s': State)
    requires ImagesOk(cfg, s) && IsScan(s.index, ss) && AllInRange(s.index, ss)
    requires s'.live == Indexed(s.index, ss, |ss|) && s'.index == s.index && Finished(s')
    requires |s.file| == 0 || s'.file == s.file
    ensures View(cfg, s') == ScanView(cfg, s, ss) && Settled(s') && ImagesOk(cfg, s')
  {
    hide Seen, Indexed, IsScan, Has, SlotImageOk;
    forall x | x in s'.live
      ensures Seen(cfg, s'.file, s'.live[x]) == Seen(cfg, s.file, s'.live[x]) && !s'.live[x].inQueue
    {
      LoadedSlot(cfg, s, ss, x);
    }
    forall t | Has(s'.index, t) ensures SlotImageOk(cfg, s'.file, s'.index, t) {
      FileNotEmpty(cfg, s.file, s.index, t);
    }
  }

  lemma FileNotEmpty(cfg: Config, file: seq<byte>, index: Index, t: Slot)
    requires SlotImageOk(cfg, file, index, t)
    ensures |file| > 0
  {
    hide ImageOk, Has;
  }

  lemma HarmlessView(cfg: Config, s: State, ss: seq<Slot>)
    requires Inv(cfg, s) && Finished(s) && AllHarmless(s) && IsParallelScan(s.index, ss) && AllInRange(s.index, ss)
    ensures ScanView(cfg, s, ss) == StoredView(cfg, s)
  {
    hide Inv, Indexed, Seen, IsParallelScan, AllHarmless;
    ScanIsStored(cfg, s, ss);
    assert ScanView(cfg, s, ss).Keys == StoredView(cfg, s).Keys;
  }

  /** The store can be reopened, and readers see the given map. */
  ghost predicate Reopened(cfg: Config, e: State, ss: seq<Slot>, v: Plain) {
    && AllInRange(Index(e.index.pages, RoomOf(e.index.pages)), ss)
    && var o := Opened(cfg, e.file, e.index.pages, ss);
       o.Some? && Inv(cfg, o.value) && View(cfg, o.value) == v
  }

  /** The clean restart: after a shutdown with both queues empty, no orphan and no leak that shows, whatever
      the order of the scan, the same x, y and records come back, from the same slots. */
  lemma RestartOk(cfg: Config, s: State, ss: seq<Slot>)
    requires Inv(cfg, s) && ImagesOk(cfg, s) && Settled(s)
    requires AllHarmless(s) && IsParallelScan(s.index, ss) && AllInRange(s.index, ss)
    ensures RoomOf(s.index.pages) == s.index.freeBlocks
    ensures var o := Opened(cfg, s.file, s.index.pages, ss);
            && o.Some? && Inv(cfg, o.value) && Settled(o.value)
            && View(cfg, o.value) == View(cfg, s) && SameSlots(o.value.live, s)
  {
    hide Inv, AllHarmless, Opened, RoomOf, Maximal, InFree, InStored, AllInRange, View, ScanView, StoredView, Indexed,
         ImagesOk, IsScan, InPageOrder;
    ReopenedOk(cfg, s, ss);
    HarmlessView(cfg, s, ss);
    ScanIsStored(cfg, s, ss);
    NoOrphans(cfg, s);
  }

  lemma NoOrphans(cfg: Config, s: State)
    requires Inv(cfg, s) && Settled(s)
    ensures StoredView(cfg, s) == View(cfg, s)
    ensures forall x :: x in s.live ==> s.live[x].slot.Some?
  {
    hide Inv, Seen;
    forall x | x in s.live
      ensures s.live[x].slot.Some? && Seen(cfg, s.file, OnDisk(s.live[x])) == Seen(cfg, s.file, s.live[x])
    {
      assert x !in Orphans(s);
      UnqueuedRecord(cfg, s, x);
    }
  }

  // ----- when a write was orphaned

  /** The orphaned record reads the same from disk as from memory. */
  predicate ReadsTheSame(cfg: Config, s: State, x: uint64)
    requires x in s.live
  {
    s.live[x].slot.Some? && Seen(cfg, s.file, OnDisk(s.live[x])) == Seen(cfg, s.file, s.live[x])
  }

  lemma StoredViewIff(cfg: Config, s: State)
    requires Inv(cfg, s) && Finished(s)
    ensures StoredView(cfg, s) == View(cfg, s) <==> forall x :: x in Orphans(s) ==> ReadsTheSame(cfg, s, x)
  {
    hide Inv, Seen;
    var v, w := StoredView(cfg, s), View(cfg, s);
    if v == w {
      forall x | x in Orphans(s) ensures ReadsTheSame(cfg, s, x) {
        assert x in w && x in v;
      }
    }
    if forall x :: x in Orphans(s) ==> ReadsTheSame(cfg, s, x) {
      forall x | x in s.live ensures ReadsTheSame(cfg, s, x) {
        if x !in Orphans(s) {
          UnqueuedRecord(cfg, s, x);
        }
      }
      assert v.Keys == w.Keys;
    }
  }

  /** With no leak that shows, once both queues are empty: readers notice nothing of a restart exactly when
      every orphaned record reads the same from disk as from memory. */
  lemma RestartOrphansIff(cfg: Config, s: State)
    requires Inv(cfg, s) && ImagesOk(cfg, s) && Finished(s) && AllHarmless(s)
    ensures (forall ss :: IsParallelScan(s.index, ss) && AllInRange(s.index, ss) ==> Reopened(cfg, s, ss, View(cfg, s)))
       <==> forall x :: x in Orphans(s) ==> ReadsTheSame(cfg, s, x)
  {
    hide Inv, Finished, AllHarmless, View, StoredView, ScanView, Opened, Orphans, ReadsTheSame, RoomOf, AllInRange, Maximal,
         InFree, InStored, ImagesOk, Indexed, IsScan, InPageOrder;
    var all := AnyScan(s.index);
    ReopenedOk(cfg, s, all);
    HarmlessView(cfg, s, all);
    StoredViewIff(cfg, s);
    forall ss | IsParallelScan(s.index, ss) && AllInRange(s.index, ss)
      ensures Reopened(cfg, s, ss, StoredView(cfg, s))
    {
      ReopenedOk(cfg, s, ss);
      HarmlessView(cfg, s, ss);
    }
  }

  lemma AnyScan(index: Index) returns (ss: seq<Slot>)
    ensures IsParallelScan(index, ss) && AllInRange(index, ss)
  {
    hide ScanSlots, Has;
    ss := ScanSlots(index.pages, |index.pages|);
    ScanIsScan(index);
    ScanOrder(index.pages, |index.pages|);
    ScanInRange(index, ss);
  }

  // ----- when a leak comes back

  /** The scan that visits page `b` first. */
  ghost function PageFirst(index: Index, b: nat): seq<Slot>
    requires b < |index.pages|
  {
    PageSlots(index.pages[b], b, |index.pages[b].slots|) + WithoutPage(ScanSlots(index.pages, |index.pages|), b)
  }

  function WithoutPage(ss: seq<Slot>, b: nat): seq<Slot> {
    if ss == [] then []
    else WithoutPage(ss[..|ss| - 1], b) + if ss[|ss| - 1].page == b then [] else [ss[|ss| - 1]]
  }

  lemma {:induction false} WithoutPageSlots(ss: seq<Slot>, b: nat)
    ensures forall t :: t in WithoutPage(ss, b) <==> t in ss && t.page != b
  {
    if ss != [] {
      WithoutPageSlots(ss[..|ss| - 1], b);
      assert ss == ss[..|ss| - 1] + [ss[|ss| - 1]];
    }
  }

  lemma LastInPage(ss: seq<Slot>, t: Slot)
    requires InPageOrder(ss) && ss != [] && t in ss[..|ss| - 1] && t.page == ss[|ss| - 1].page
    ensures t.pos < ss[|ss| - 1].pos
  {
    var k :| 0 <= k < |ss| - 1 && ss[k] == t;
  }

  lemma AddLastInPage(w: seq<Slot>, last: Slot)
    requires InPageOrder(w) && forall t :: t in w && t.page == last.page ==> t.pos < last.pos
    ensures InPageOrder(w + [last])
  {
    assert forall i :: 0 <= i < |w| ==> w[i] in w;
  }

  lemma {:induction false} WithoutPageOrder(ss: seq<Slot>, b: nat)
    requires InPageOrder(ss)
    ensures InPageOrder(WithoutPage(ss, b))
  {
    if ss != [] {
      var n := |ss| - 1;
      WithoutPageOrder(ss[..n], b);
      WithoutPageSlots(ss[..n], b);
      var w := WithoutPage(ss[..n], b);
      forall t | t in w && t.page == ss[n].page ensures t.pos < ss[n].pos {
        LastInPage(ss, t);
      }
      AddLastInPage(w, ss[n]);
      assert w + [] == w;
    }
  }

  lemma {:induction false} PageSlotsOrder(p: IPage, b: nat, n: nat)
    requires n <= |p.slots|
    ensures InPageOrder(PageSlots(p, b, n))
    ensures forall t :: t in PageSlots(p, b, n) ==> t.page == b && t.pos < n
  {
    if n > 0 {
      PageSlotsOrder(p, b, n - 1);
    }
  }

  lemma AppendOrder(a: seq<Slot>, b: seq<Slot>)
    requires InPageOrder(a) && InPageOrder(b) && forall s, t :: s in a && t in b ==> s.page != t.page
    ensures InPageOrder(a + b)
  {
    forall i, j | 0 <= i < |a| && 0 <= j < |b| ensures a[i].page != b[j].page {
      assert a[i] in a && b[j] in b;
    }
  }

  lemma {:induction false} ScanOrder(pages: seq<IPage>, n: nat)
    requires n <= |pages|
    ensures InPageOrder(ScanSlots(pages, n))
    ensures forall t :: t in ScanSlots(pages, n) ==> t.page < n
  {
    hide PageSlots;
    if n > 0 {
      ScanOrder(pages, n - 1);
      PageSlotsOrder(pages[n - 1], n - 1, |pages[n - 1].slots|);
      AppendOrder(ScanSlots(pages, n - 1), PageSlots(pages[n - 1], n - 1, |pages[n - 1].slots|));
    }
  }

  lemma OrderedDistinct(ss: seq<Slot>)
    requires InPageOrder(ss)
    ensures DistinctSlots(ss)
  {
  }

  lemma PageFirstIsScan(index: Index, b: nat)
    requires b < |index.pages|
    ensures var ss := PageFirst(index, b);
            && IsParallelScan(index, ss)
            && forall i, j :: 0 <= i < j < |ss| && ss[j].page == b ==> ss[i].page == b
  {
    hide PageSlots, ScanSlots, WithoutPage, IsEmpty;
    var all, p := ScanSlots(index.pages, |index.pages|), PageSlots(index.pages[b], b, |index.pages[b].slots|);
    ScanSlotsCorrect(index.pages, |index.pages|);
    ScanOrder(index.pages, |index.pages|);
    PageSlotsCorrect(index.pages[b], b, |index.pages[b].slots|);
    PageSlotsOrder(index.pages[b], b, |index.pages[b].slots|);
    WithoutPageOrder(all, b);
    WithoutPageSlots(all, b);
    AppendOrder(p, WithoutPage(all, b));
    OrderedDistinct(p + WithoutPage(all, b));
    var ss := p + WithoutPage(all, b);
    forall i | |p| <= i < |ss| ensures ss[i].page != b {
      assert ss[i] in WithoutPage(all, b);
    }
    assert forall i :: 0 <= i < |p| ==> ss[i] in p;
  }

  /** A leaked slot that is not harmless: the scan that starts with its page does not find what was live. */
  lemma LeakComesBack(cfg: Config, s: State, t: Slot) returns (ss: seq<Slot>)
    requires Inv(cfg, s) && Finished(s) && t in Leaked(s) && !Harmless(s, t)
    ensures IsParallelScan(s.index, ss) && AllInRange(s.index, ss)
    ensures !SameSlots(Indexed(s.index, ss, |ss|), s)
  {
    hide Inv, IsEmpty, Indexed, PageFirst, DrecAt, Finished;
    ss := PageFirst(s.index, t.page);
    PageFirstIsScan(s.index, t.page);
    ScanInRange(s.index, ss);
    var k := DrecAt(s.index, t).key;
    var n :| 0 <= n < |ss| && ss[n] == t;
    IndexedKeys(s.index, ss, |ss|, n);
    var i := IndexedFirst(s.index, ss, |ss|, k);
    var live := Indexed(s.index, ss, |ss|);
    assert i <= n && ss[i].page == t.page && live[k].slot == Some(ss[i]);
  }

  /** Exactly when the same x come back from the same slots, in every order of the scan: when each leaked
      slot is hidden behind the live record of the same x in its own page, and every record has a slot. */
  lemma RestartSameIff(cfg: Config, s: State)
    requires Inv(cfg, s) && Finished(s)
    ensures AllHarmless(s) && (forall x :: x in s.live ==> s.live[x].slot.Some?) <==>
            forall ss :: IsParallelScan(s.index, ss) && AllInRange(s.index, ss) ==> SameSlots(Indexed(s.index, ss, |ss|), s)
  {
    hide Inv, IsEmpty, Indexed, IsParallelScan, Finished, Leaked, Harmless, AllInRange;
    if !AllHarmless(s) {
      var t :| Has(s.index, t) && t in Leaked(s) && !Harmless(s, t);
      var ss := LeakComesBack(cfg, s, t);
    } else {
      var all := AnyScan(s.index);
      forall ss | IsParallelScan(s.index, ss) && AllInRange(s.index, ss)
        ensures var live := Indexed(s.index, ss, |ss|);
                SameSlots(live, s) <==> forall x :: x in s.live ==> s.live[x].slot.Some?
      {
        ScanIsStored(cfg, s, ss);
      }
    }
  }

  // ----- what readers see

  /** Some slot names x. */
  ghost predicate Named(index: Index, x: uint64) {
    exists t :: Has(index, t) && DrecAt(index, t).key == x
  }

  /** Some scan visits this slot before all others of its key: it is the first of its key in its page. */
  ghost predicate CanBeFirst(index: Index, t: Slot) {
    && Has(index, t)
    && forall u :: Has(index, u) && u.page == t.page && u.pos < t.pos ==> DrecAt(index, u).key != DrecAt(index, t).key
  }

  /** The pages that the slot names read like the live record of its key. */
  predicate ReadsLive(cfg: Config, s: State, t: Slot) {
    && InRange(s.index, t)
    && var d := DrecAt(s.index, t);
       d.key in s.live && Seen(cfg, s.file, RecordOfDrec(d, t)) == Seen(cfg, s.file, s.live[d.key])
  }

  ghost predicate FirstSlotsReadLive(cfg: Config, s: State) {
    forall t :: CanBeFirst(s.index, t) ==> ReadsLive(cfg, s, t)
  }

  lemma FirstCanBeFirst(index: Index, ss: seq<Slot>, k: uint64, i: nat)
    requires IsParallelScan(index, ss) && AllInRange(index, ss) && FirstWith(index, ss, k, i)
    ensures CanBeFirst(index, ss[i])
  {
    hide IsEmpty, DrecAt;
    ScannedSlot(index, ss, i);
    forall u | Has(index, u) && u.page == ss[i].page && u.pos < ss[i].pos ensures DrecAt(index, u).key != k {
      var j :| 0 <= j < |ss| && ss[j] == u;
      assert j < i;
    }
  }

  /** The scan that starts with the page of such a slot finds it first. */
  lemma FoundFirst(index: Index, t: Slot) returns (ss: seq<Slot>)
    requires CanBeFirst(index, t)
    ensures IsParallelScan(index, ss) && AllInRange(index, ss) && InRange(index, t)
    ensures var d := DrecAt(index, t);
            d.key in Indexed(index, ss, |ss|) && Indexed(index, ss, |ss|)[d.key] == RecordOfDrec(d, t)
  {
    hide IsEmpty, Indexed, PageFirst, DrecAt;
    ss := PageFirst(index, t.page);
    PageFirstIsScan(index, t.page);
    ScanInRange(index, ss);
    var k := DrecAt(index, t).key;
    var n :| 0 <= n < |ss| && ss[n] == t;
    IndexedKeys(index, ss, |ss|, n);
    var i := IndexedFirst(index, ss, |ss|, k);
    ScannedSlot(index, ss, i);
    assert i <= n && ss[i].page == t.page;
  }

  lemma CleanScan(cfg: Config, s: State, ss: seq<Slot>)
    requires FirstSlotsReadLive(cfg, s) && forall x :: x in s.live ==> Named(s.index, x)
    requires IsParallelScan(s.index, ss) && AllInRange(s.index, ss)
    ensures ScanView(cfg, s, ss) == View(cfg, s)
  {
    hide IsEmpty, DrecAt, Indexed, Seen, CanBeFirst;
    var live := Indexed(s.index, ss, |ss|);
    forall x | x in live ensures x in s.live && Seen(cfg, s.file, live[x]) == Seen(cfg, s.file, s.live[x]) {
      var i := IndexedFirst(s.index, ss, |ss|, x);
      FirstCanBeFirst(s.index, ss, x, i);
    }
    forall x | x in s.live ensures x in live {
      var t :| Has(s.index, t) && DrecAt(s.index, t).key == x;
      var i :| 0 <= i < |ss| && ss[i] == t;
      IndexedKeys(s.index, ss, |ss|, i);
    }
    assert ScanView(cfg, s, ss).Keys == View(cfg, s).Keys;
  }

  /** Every scan brings back what readers saw. */
  ghost predicate CleanForReaders(cfg: Config, s: State) {
    forall ss :: IsParallelScan(s.index, ss) && AllInRange(s.index, ss) ==> Reopened(cfg, s, ss, View(cfg, s))
  }

  lemma CleanViews(cfg: Config, s: State, ss: seq<Slot>)
    requires Inv(cfg, s) && ImagesOk(cfg, s) && CleanForReaders(cfg, s)
    requires IsParallelScan(s.index, ss) && AllInRange(s.index, ss)
    ensures ScanView(cfg, s, ss) == View(cfg, s)
  {
    hide Inv, View, ScanView, Opened, RoomOf, AllInRange, Maximal, InFree, InStored, ImagesOk, Indexed, IsScan, InPageOrder;
    ReopenedOk(cfg, s, ss);
    assert Reopened(cfg, s, ss, View(cfg, s));
  }

  /** Exactly when readers notice nothing of a restart, whatever has leaked or was orphaned and whenever the
      server stopped: when some slot names each x, and every slot that a scan can find first for its x reads
      like the live record of that x. */
  lemma RestartViewIff(cfg: Config, s: State)
    requires Inv(cfg, s) && ImagesOk(cfg, s)
    ensures CleanForReaders(cfg, s) <==>
              (forall x :: x in s.live ==> Named(s.index, x)) && FirstSlotsReadLive(cfg, s)
  {
    hide Inv, View, ScanView, Opened, RoomOf, AllInRange, Maximal, InFree, InStored, ImagesOk, Indexed, IsScan, InPageOrder,
         CanBeFirst, ReadsLive, Named, IsEmpty;
    if (forall x :: x in s.live ==> Named(s.index, x)) && FirstSlotsReadLive(cfg, s) {
      forall ss | IsParallelScan(s.index, ss) && AllInRange(s.index, ss) ensures Reopened(cfg, s, ss, View(cfg, s)) {
        ReopenedOk(cfg, s, ss);
        CleanScan(cfg, s, ss);
      }
    }
    if CleanForReaders(cfg, s) {
      var all := AnyScan(s.index);
      CleanViews(cfg, s, all);
      forall x | x in s.live ensures Named(s.index, x) {
        NamedByScan(cfg, s, all, x);
      }
      forall t | CanBeFirst(s.index, t) ensures ReadsLive(cfg, s, t) {
        var ss := FoundFirst(s.index, t);
        CleanViews(cfg, s, ss);
        FirstSeen(cfg, s, ss, t);
      }
    }
  }

  lemma NamedByScan(cfg: Config, s: State, ss: seq<Slot>, x: uint64)
    requires IsScan(s.index, ss) && AllInRange(s.index, ss) && x in s.live && ScanView(cfg, s, ss) == View(cfg, s)
    ensures Named(s.index, x)
  {
    hide IsEmpty, DrecAt, Indexed, Seen;
    assert x in View(cfg, s) && x in ScanView(cfg, s, ss);
    var i := IndexedFirst(s.index, ss, |ss|, x);
    ScannedSlot(s.index, ss, i);
  }

  lemma FirstSeen(cfg: Config, s: State, ss: seq<Slot>, t: Slot)
    requires AllInRange(s.index, ss) && InRange(s.index, t) && ScanView(cfg, s, ss) == View(cfg, s)
    requires var d := DrecAt(s.index, t);
             d.key in Indexed(s.index, ss, |ss|) && Indexed(s.index, ss, |ss|)[d.key] == RecordOfDrec(d, t)
    ensures ReadsLive(cfg, s, t)
  {
    hide DrecAt, Indexed, Seen;
    var k := DrecAt(s.index, t).key;
    assert k in ScanView(cfg, s, ss) && k in View(cfg, s);
    assert ScanView(cfg, s, ss)[k] == View(cfg, s)[k];
  }

  /** A record that has no slot is found by a scan exactly when a leaked slot names it. */
  lemma OrphanIsLost(cfg: Config, s: State, x: uint64, ss: seq<Slot>)
    requires Inv(cfg, s) && Finished(s) && x in Orphans(s) && s.live[x].slot.None?
    requires IsScan(s.index, ss) && AllInRange(s.index, ss)
    ensures x in Indexed(s.index, ss, |ss|) <==> exists t :: t in Leaked(s) && DrecAt(s.index, t).key == x
  {
    hide Inv, IsEmpty, Indexed, DrecAt, Claimed;
    if x in Indexed(s.index, ss, |ss|) {
      var i := IndexedFirst(s.index, ss, |ss|, x);
      ScannedSlot(s.index, ss, i);
      if ss[i] !in Leaked(s) {
        FinishedSlot(cfg, s, ss[i]);
      }
    }
    if t :| t in Leaked(s) && DrecAt(s.index, t).key == x {
      var i :| 0 <= i < |ss| && ss[i] == t;
      IndexedKeys(s.index, ss, |ss|, i);
    }
  }
}
