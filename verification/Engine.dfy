/** The storage engine over whole runs: in every reachable state a reader sees exactly what a plain
    map from x and y to records would hold. */
module Engine {
  import opened Bytes
  import opened Pages
  import opened Config
  import opened Manager
  import opened Writes
  import opened Loading
  import opened Defrag
  import opened IndexFile
  import opened Store
  import opened Invariant
  import opened ClientSteps
  import opened SpaceSteps
  import opened FlushItem

  // ----- one step

  /** Every step keeps the invariant and does to the plain map what its operation promises; loading,
      eviction, defragmentation and the storage thread do nothing to it. */
  lemma StepOk(cfg: Config, s: State, step: Step)
    requires GoodConfig(cfg) && Inv(cfg, s) && Enabled(cfg, s, step)
    ensures Inv(cfg, Apply(cfg, s, step))
    ensures View(cfg, Apply(cfg, s, step)) == PlainStep(cfg, View(cfg, s), step)
  {
    hide Inv, View, Written, RecordDeleted, Deleted, DefragStep, Loaded, Evicted, Erased, Flushed, Freed, Rebuilt,
         PlainWrite, WriteEnabled;
    match step
    case WriteXY(x, y, record) => WriteStepOk(cfg, s, x, y, record);
    case DeleteXY(x, y) => DeleteXYOk(cfg, s, x, y);
    case DeleteX(x) => DeleteXOk(cfg, s, x);
    case RemoveFromQueue(x) => RemoveFromQueueOk(cfg, s, x);
    case DefragX(x) => DefragStepOk(cfg, s, x);
    case ReadX(x) => if x in s.live { LoadedOk(cfg, s, x); }
    case Evict(x) => EvictOk(cfg, s, x);
    case TakeDeletions => TakeDeletionsOk(cfg, s);
    case EraseOne(x) => EraseOk(cfg, s, x);
    case TakeQueue => TakeQueueOk(cfg, s);
    case FlushOne(x) => FlushOk(cfg, s, x);
    case FreeOne(x) => FreeStepOk(cfg, s, x);
    case RebuildFree => RebuildStepOk(cfg, s);
  }

  // ----- runs

  ghost function Run(cfg: Config, s: State, steps: seq<Step>): State {
    if steps == [] then s
    else Apply(cfg, Run(cfg, s, steps[..|steps| - 1]), steps[|steps| - 1])
  }

  /** Every step can happen where it stands. */
  ghost predicate Legal(cfg: Config, s: State, steps: seq<Step>) {
    forall i :: 0 <= i < |steps| ==> Enabled(cfg, Run(cfg, s, steps[..i]), steps[i])
  }

  ghost function PlainRun(cfg: Config, v: Plain, steps: seq<Step>): Plain
    requires LimitSound(cfg)
  {
    if steps == [] then v
    else PlainStep(cfg, PlainRun(cfg, v, steps[..|steps| - 1]), steps[|steps| - 1])
  }

  lemma LegalPrefix(cfg: Config, s: State, steps: seq<Step>, n: nat)
    requires Legal(cfg, s, steps) && n <= |steps|
    ensures Legal(cfg, s, steps[..n])
  {
    hide Run;
    forall i | 0 <= i < n ensures Enabled(cfg, Run(cfg, s, steps[..n][..i]), steps[..n][i]) {
      assert steps[..n][..i] == steps[..i];
    }
  }

  /** Every run, however its threads interleave, keeps the invariant and refines the plain map. */
  lemma {:induction false} RunOk(cfg: Config, s: State, steps: seq<Step>)
    requires GoodConfig(cfg) && Inv(cfg, s) && Legal(cfg, s, steps)
    ensures Inv(cfg, Run(cfg, s, steps))
    ensures View(cfg, Run(cfg, s, steps)) == PlainRun(cfg, View(cfg, s), steps)
  {
    hide Inv, View, Apply, PlainStep, Enabled;
    if steps != [] {
      var n := |steps| - 1;
      LegalPrefix(cfg, s, steps, n);
      RunOk(cfg, s, steps[..n]);
      StepOk(cfg, Run(cfg, s, steps[..n]), steps[n]);
    }
  }

  // ----- reading

  /** ReadData(x, y): load the record if need be, then look it up in memory. */
  ghost function ReadData(cfg: Config, s: State, x: uint64, y: uint64): Option<seq<byte>> {
    if x !in s.live then None
    else
      var r := Loaded(s, x).live[x];
      if r.man.None? || y !in Contents(r.man.value) then None
      else Some(Expand(cfg, Contents(r.man.value)[y]))
  }

  function PlainRead(v: Plain, x: uint64, y: uint64): Option<seq<byte>> {
    if x in v && y in v[x] then Some(v[x][y]) else None
  }

  lemma ReadOk(cfg: Config, s: State, x: uint64, y: uint64)
    requires Inv(cfg, s)
    ensures ReadData(cfg, s, x, y) == PlainRead(View(cfg, s), x, y)
  {
    hide Inv, Contents, Expand, Loaded, DiskMan;
    if x in s.live {
      LoadedOk(cfg, s, x);
      ViewAt(cfg, Loaded(s, x), x);
    }
  }

  /** A read after any run returns what a plain map would return. */
  lemma ReadAfterRun(cfg: Config, s: State, steps: seq<Step>, x: uint64, y: uint64)
    requires GoodConfig(cfg) && Inv(cfg, s) && Legal(cfg, s, steps)
    ensures ReadData(cfg, Run(cfg, s, steps), x, y) == PlainRead(PlainRun(cfg, View(cfg, s), steps), x, y)
  {
    hide Inv, View, Run, PlainRun, ReadData, PlainRead, Legal;
    RunOk(cfg, s, steps);
    ReadOk(cfg, Run(cfg, s, steps), x, y);
  }

  // ----- memory and disk

  /** The checksum test of CheckBlockManager passes on every load. */
  lemma ChecksumHolds(cfg: Config, s: State, x: uint64)
    requires Inv(cfg, s) && x in s.live && s.live[x].slot.Some?
    ensures cfg.crc(DiskBytes(s.file, s.live[x].start, s.live[x].blockCount)) == s.live[x].crc
  {
    hide ManOk, Has, MatchOk;
    RecordOf(cfg, s, x);
  }

  /** Eviction loses nothing: the next load brings back the very same manager. */
  lemma EvictThenLoad(cfg: Config, s: State, x: uint64)
    requires Inv(cfg, s) && x in s.live && s.live[x].man.Some?
    ensures Loaded(Evicted(s, x), x) == s
  {
    hide Inv, RecordOk, DiskMan;
    if !s.live[x].inQueue {
      RecordOf(cfg, s, x);
      EvictedRecord(cfg, s.file, s.index, x, s.live[x]);
      NotRelocated(cfg, s.file, s.index, x, s.live[x]);
      assert Loaded(Evicted(s, x), x).live == s.live;
    }
  }

  lemma NotRelocated(cfg: Config, file: seq<byte>, index: Index, x: uint64, r: RecordIndex)
    requires RecordOk(cfg, file, index, x, r) && !r.inQueue
    ensures !r.relocate
  {
    hide ManOk, StoredOk;
  }

  /** After its item was flushed, a record is on disk as it is in memory, under the checksum that the
      index holds, and nothing of it is marked. */
  lemma FlushedIsStored(cfg: Config, s: State, x: uint64)
    requires Inv(cfg, s) && x in s.flushing && x in s.live && CanFlush(s, x)
    ensures var s' := Flushed(cfg, s, x);
            && x in s'.live && s'.live[x].man.Some? && s'.live[x].slot.Some? && !s'.live[x].relocate
            && AllClean(s'.live[x].man.value.pages)
            && s'.live[x].man.value == DiskMan(s'.file, s'.live[x].start, s'.live[x].blockCount)
            && (s'.live[x].inQueue <==> s.live[x].inQueue && x in s.queue)
  {
    hide Inv, Flushed, AllFit, AllClean, Cleaned, RecordOk, SlotChanged, Has, IsEmpty, DiskMan;
    ReadyToFlush(cfg, s, x);
    var m := s.live[x].man.value;
    FlushItemOk(cfg, s, x, m);
    var s' := Flushed(cfg, s, x);
    RecordOf(cfg, s', x);
    StoredClean(cfg, s'.file, s'.index, x, s'.live[x], m);
  }

  lemma StoredClean(cfg: Config, file: seq<byte>, index: Index, x: uint64, r: RecordIndex, m: Man)
    requires RecordOk(cfg, file, index, x, r) && r.man == Some(Cleaned(m)) && r.slot.Some? && !r.relocate
    ensures AllClean(Cleaned(m).pages) && Cleaned(m) == DiskMan(file, r.start, r.blockCount)
  {
    hide Has, EncodeAll, Load, Contents, AllCanonical;
    var dm := DiskMan(file, r.start, r.blockCount);
    assert PagesMatch(Cleaned(m).pages, dm.pages);
    assert Cleaned(m).pages == dm.pages;
    IndexUnique(Cleaned(m), dm);
  }

  // ----- a limit lowered at run time

  /** A write that is refused although it evicted is not queued: the eviction is undone as soon as the
      record is dropped from memory and loaded again. */
  lemma RefusedChangeUndone(cfg: Config, low: Config, s: State, x: uint64, y: uint64, record: seq<byte>)
    requires Inv(cfg, s) && x in s.live && s.live[x].man.Some? && !s.live[x].inQueue
    requires var st := ManWrite(low, s.live[x].man.value, y, record).1; st.Done? && st.oldRecord
    ensures var s1 := Written(low, s, x, y, record);
            && x in s1.live && s1.live[x] == s.live[x].(man := Some(ManWrite(low, s.live[x].man.value, y, record).0))
            && s1.queue == s.queue && x in Evicted(s1, x).live
            && Loaded(Evicted(s1, x), x).live == s.live
  {
    hide Inv, RecordOk, DiskMan, ManWrite, MemoryUsage;
    var s1 := Written(low, s, x, y, record);
    assert Loaded(s, x) == s;
    RecordOf(cfg, s, x);
    EvictedRecord(cfg, s.file, s.index, x, s.live[x]);
    NotRelocated(cfg, s.file, s.index, x, s.live[x]);
    assert Loaded(Evicted(s1, x), x).live == s.live;
  }

  /** The limit is lowered to 1 while keys a and b are stored; a new key between them is refused, and a reader
      no longer sees a. After the record was dropped from memory, a reader sees a again. */
  lemma LoweredLimitUndone(cfg: Config, low: Config, s: State, x: uint64, a: uint64, b: uint64, y: uint64,
                           record: seq<byte>)
    requires Inv(cfg, s) && x in s.live && s.live[x].man.Some? && !s.live[x].inQueue
    requires low.enableRecordLimit && low.recordLimit == 1 && Writable(low, record) && |record| <= MAX_RECORD_SIZE
    requires var m := s.live[x].man.value;
             m.index.Keys == {a, b} && a != b && Rank(a) <= Rank(b) && a <= y < b && y !in m.index
    ensures var s1 := Written(low, s, x, y, record);
            && x in s1.live && View(cfg, s1)[x].Keys == {b}
            && x in Evicted(s1, x).live && x in Loaded(Evicted(s1, x), x).live
            && View(cfg, Loaded(Evicted(s1, x), x))[x].Keys == {a, b}
  {
    hide Inv, ManWrite, Written, Evicted, Loaded, DiskMan, Rank, Writable;
    var m := s.live[x].man.value;
    InMemory(cfg, s, x);
    ManagerWrite(low, m, y, record);
    RefusedBetween(low, m, a, b, y, record);
    RefusedChangeUndone(cfg, low, s, x, y, record);
  }

  lemma ManagerWrite(cfg: Config, m: Man, y: uint64, record: seq<byte>)
    requires Valid(m) && Writable(cfg, record)
    ensures ManWrite(cfg, m, y, record) == Write(cfg, m, y, record)
  {
    hide Valid, Write;
  }
}
