/** Whole lives of a store, from two empty files to the restart after a shutdown: the clean one, and the two
    that lose a write or bring back what was deleted. */
module Lives {
  import opened Bytes
  import opened Pages
  import opened Config
  import opened Writes
  import opened Sets
  import opened FreeSpace
  import opened IndexFile
  import opened Store
  import opened Invariant
  import opened SpaceSteps
  import opened Loading
  import opened FlushSteps
  import opened FlushItem
  import opened Engine
  import opened Lifecycle
  import opened Shutdown
  import opened StoredImages
  import opened Restart

  // ----- a write that is lost

  /** x is deleted and written again, and the deletion ends only then. The plain map holds the record; the
      storage thread finishes; after a restart there is no x. */
  lemma LostWrite(cfg: Config, s: State, x: uint64, y: uint64, record: seq<byte>) returns (last: seq<Step>)
    requires GoodConfig(cfg) && Inv(cfg, s) && ImagesOk(cfg, s) && IndexRoom(s) && Leaked(s) == iset{}
    requires x in s.live && x !in s.flushing && x !in s.deletions
    requires 1 <= |record| <= MAX_RECORD_SIZE && !LooksPacked(cfg, record)
    ensures var steps := [DeleteX(x), WriteXY(x, y, record), RemoveFromQueue(x)];
            && Legal(cfg, s, steps)
            && Lost(cfg, Run(cfg, s, steps), last, PlainRun(cfg, View(cfg, s), steps), x, y, record)
  {
    hide Inv, ImagesOk, View, Run, PlainRun, Leaked, Orphans, LooksPacked, IsThreadStep, Legal, Orderly;
    var steps := [DeleteX(x), WriteXY(x, y, record), RemoveFromQueue(x)];
    DeleteWriteRemoveOrphans(cfg, s, x, y, record);
    RunOk(cfg, s, steps);
    RunImages(cfg, s, steps);
    LostSteps(cfg, s, x, y, record);
    last := LostAtEnd(cfg, Run(cfg, s, steps), x);
  }

  /** The plain map holds x, y; after the given steps of the storage thread everything is finished, and no
      scan brings x back. */
  ghost predicate Lost(cfg: Config, s: State, last: seq<Step>, v: Plain, x: uint64, y: uint64, record: seq<byte>) {
    && PlainRead(v, x, y) == Some(record) && v == View(cfg, s)
    && GoneAfter(cfg, s, last, x)
  }

  ghost predicate GoneAfter(cfg: Config, s: State, last: seq<Step>, x: uint64) {
    var e := Run(cfg, s, last);
    && Trace(cfg, s, last, e) && Finished(e)
    && forall ss :: IsParallelScan(e.index, ss) && AllInRange(e.index, ss) ==> Gone(cfg, e, ss, x)
  }

  /** The store can be reopened, and has no x. */
  ghost predicate Gone(cfg: Config, e: State, ss: seq<Slot>, x: uint64) {
    && AllInRange(Index(e.index.pages, RoomOf(e.index.pages)), ss)
    && var o := Opened(cfg, e.file, e.index.pages, ss);
       o.Some? && x !in View(cfg, o.value)
  }

  /** An orphan without a slot is gone after the final flush and a restart. */
  lemma LostAtEnd(cfg: Config, s: State, x: uint64) returns (last: seq<Step>)
    requires GoodConfig(cfg) && Inv(cfg, s) && ImagesOk(cfg, s) && IndexRoom(s) && Leaked(s) == iset{}
    requires x in Orphans(s) && s.live[x].slot.None?
    ensures GoneAfter(cfg, s, last, x)
  {
    hide Inv, ImagesOk, View, Run, Leaked, Legal, Orderly, IsThreadStep, Opened, RoomOf, IndexRoom, StoredView, ScanView,
         Finished, Maximal, InFree, InStored, Orphans, IsScan, InPageOrder, Indexed;
    last := FinalFlush(cfg, s);
    OrphanStaysRun(cfg, s, last, x);
    OrderlyRun(cfg, s, last);
    RunImages(cfg, s, last);
    var e := Run(cfg, s, last);
    assert AllHarmless(e);
    NotStored(cfg, e, x);
    forall ss | IsParallelScan(e.index, ss) && AllInRange(e.index, ss) ensures Gone(cfg, e, ss, x) {
      ReopenedOk(cfg, e, ss);
      HarmlessView(cfg, e, ss);
    }
  }

  lemma NotStored(cfg: Config, s: State, x: uint64)
    requires x in Orphans(s) && s.live[x].slot.None?
    ensures x !in StoredView(cfg, s)
  {
    hide Seen;
  }

  lemma LostSteps(cfg: Config, s: State, x: uint64, y: uint64, record: seq<byte>)
    requires GoodConfig(cfg) && Inv(cfg, s) && IndexRoom(s) && Leaked(s) == iset{}
    requires x in s.live && x !in s.flushing && x !in s.deletions
    requires 1 <= |record| <= MAX_RECORD_SIZE && !LooksPacked(cfg, record)
    ensures var steps := [DeleteX(x), WriteXY(x, y, record), RemoveFromQueue(x)];
            var e := Run(cfg, s, steps);
            && IndexRoom(e) && Leaked(e) == iset{} && x in e.live && e.live[x].slot.None?
            && PlainRead(PlainRun(cfg, View(cfg, s), steps), x, y) == Some(record)
  {
    hide Inv, View, LooksPacked, Written, Deleted, WriteEnabled, Leaked, PlainWrite, Orphans;
    var a, b, c := DeleteX(x), WriteXY(x, y, record), RemoveFromQueue(x);
    var s1 := Deleted(s, x);
    var s2 := Written(cfg, s1, x, y, record);
    RunThree(cfg, s, a, b, c);
    PlainThree(cfg, View(cfg, s), a, b, c);
    PendingDeletion(cfg, s, x, y, record);
    StepOk(cfg, s, a);
    StepOk(cfg, s1, b);
    LeakStep(cfg, s, a);
    LeakStep(cfg, s1, b);
    NewWriteQueued(cfg, s, x, y, record);
    LeakStep(cfg, s2, c);
    DeletedAndWritten(cfg, s, x, y, record);
    FirstRecord(cfg, View(cfg, s), x, y, record);
  }

  lemma DeletedAndWritten(cfg: Config, s: State, x: uint64, y: uint64, record: seq<byte>)
    requires IndexRoom(s) && x in s.live
    ensures var e := Apply(cfg, Written(cfg, Deleted(s, x), x, y, record), RemoveFromQueue(x));
            IndexRoom(e) && x in e.live && e.live[x].slot.None?
  {
    hide ManWrite, MemoryUsage;
    var e := Apply(cfg, Written(cfg, Deleted(s, x), x, y, record), RemoveFromQueue(x));
    assert e.queue <= s.queue;
    SubsetCardinality(e.queue, s.queue);
  }

  lemma PlainThree(cfg: Config, v: Plain, a: Step, b: Step, c: Step)
    requires LimitSound(cfg)
    ensures PlainRun(cfg, v, [a, b, c]) == PlainStep(cfg, PlainStep(cfg, PlainStep(cfg, v, a), b), c)
  {
    hide PlainStep;
    assert [a, b, c][..2] == [a, b] && [a, b][..1] == [a] && [a][..0] == [];
    assert PlainRun(cfg, v, [a]) == PlainStep(cfg, v, a);
    assert PlainRun(cfg, v, [a, b]) == PlainStep(cfg, PlainStep(cfg, v, a), b);
  }

  lemma FirstRecord(cfg: Config, v: Plain, x: uint64, y: uint64, record: seq<byte>)
    requires LimitSound(cfg) && |record| <= MAX_RECORD_SIZE
    ensures PlainRead(PlainWrite(cfg, v - {x}, x, y, record), x, y) == Some(record)
  {
    hide IsFirst;
  }

  /** Such a life begins with two empty files. */
  lemma NewStoreLosesWrite(cfg: Config, x: uint64, y: uint64, record: seq<byte>) returns (last: seq<Step>)
    requires GoodConfig(cfg) && 1 <= |record| <= MAX_RECORD_SIZE && !LooksPacked(cfg, record)
    ensures var s := Run(cfg, NewStore(cfg), [WriteXY(x, y, record)]);
            var steps := [DeleteX(x), WriteXY(x, y, record), RemoveFromQueue(x)];
            && Legal(cfg, NewStore(cfg), [WriteXY(x, y, record)]) && Legal(cfg, s, steps)
            && Lost(cfg, Run(cfg, s, steps), last, PlainRun(cfg, View(cfg, s), steps), x, y, record)
  {
    hide Inv, ImagesOk, View, Run, PlainRun, Leaked, LooksPacked, Legal, Lost;
    var s0, first := NewStore(cfg), WriteXY(x, y, record);
    NewStoreOk(cfg);
    RunOne(cfg, s0, first);
    NewStoreWritten(cfg, x, y, record);
    StepOk(cfg, s0, first);
    LeakStep(cfg, s0, first);
    StepImages(cfg, s0, first);
    last := LostWrite(cfg, Apply(cfg, s0, first), x, y, record);
  }

  lemma RunOne(cfg: Config, s: State, a: Step)
    ensures Run(cfg, s, [a]) == Apply(cfg, s, a)
    ensures Legal(cfg, s, [a]) <==> Enabled(cfg, s, a)
  {
    hide Apply, Enabled;
    assert [a][..0] == [];
  }

  lemma NewStoreWritten(cfg: Config, x: uint64, y: uint64, record: seq<byte>)
    requires |record| >= 1 && !LooksPacked(cfg, record)
    ensures Enabled(cfg, NewStore(cfg), WriteXY(x, y, record))
    ensures var s := Apply(cfg, NewStore(cfg), WriteXY(x, y, record));
            IndexRoom(s) && x in s.live && x !in s.flushing && x !in s.deletions
  {
    hide ManWrite, MemoryUsage, LooksPacked;
    NewStoreIs(cfg);
  }

  // ----- a deletion that is undone

  /** A stored x is deleted, written and deleted again. The plain map has no x; the storage thread finishes;
      after a restart x is back. */
  lemma UndoneDeletion(cfg: Config, s: State, x: uint64, y: uint64, record: seq<byte>) returns (last: seq<Step>)
    requires GoodConfig(cfg) && Inv(cfg, s) && ImagesOk(cfg, s) && IndexRoom(s)
    requires x in s.live && s.live[x].slot.Some?
    requires |record| >= 1 && !LooksPacked(cfg, record)
    ensures var steps := [DeleteX(x), WriteXY(x, y, record), DeleteX(x), RemoveFromQueue(x)];
            && Legal(cfg, s, steps)
            && x !in PlainRun(cfg, View(cfg, s), steps)
            && BackAfter(cfg, Run(cfg, s, steps), last, x)
  {
    hide Inv, ImagesOk, View, Run, PlainRun, Leaked, LooksPacked, Legal, PlainStep, Apply, IndexRoom, Enabled, BackAfter, DrecAt;
    var three, t := [DeleteX(x), WriteXY(x, y, record), DeleteX(x)], s.live[x].slot.value;
    var steps := three + [RemoveFromQueue(x)];
    assert steps == [DeleteX(x), WriteXY(x, y, record), DeleteX(x), RemoveFromQueue(x)];
    DeleteWriteDeleteLeaks(cfg, s, x, y, record, t);
    TwiceDeleted(cfg, s, x, y, record);
    LegalAppend(cfg, s, three, RemoveFromQueue(x));
    RunOk(cfg, s, steps);
    RunImages(cfg, s, steps);
    RunOk(cfg, s, three);
    LeakStays(cfg, Run(cfg, s, three), RemoveFromQueue(x), t);
    StoredKeyOf(cfg, s, x);
    last := BackAtEnd(cfg, Run(cfg, s, steps), x, t);
  }

  /** Everything is finished after the given steps, readers see no x, and every scan brings x back. */
  ghost predicate BackAfter(cfg: Config, s: State, last: seq<Step>, x: uint64) {
    var e := Run(cfg, s, last);
    && Trace(cfg, s, last, e) && Finished(e) && x !in View(cfg, e)
    && forall ss :: IsParallelScan(e.index, ss) && AllInRange(e.index, ss) ==> Back(cfg, e, ss, x)
  }

  /** The store can be reopened, and has x. */
  ghost predicate Back(cfg: Config, e: State, ss: seq<Slot>, x: uint64) {
    && AllInRange(Index(e.index.pages, RoomOf(e.index.pages)), ss)
    && var o := Opened(cfg, e.file, e.index.pages, ss);
       o.Some? && Inv(cfg, o.value) && x in View(cfg, o.value)
  }

  /** A leaked slot of an x that is not live: the final flush leaves it, and a restart finds it. */
  lemma BackAtEnd(cfg: Config, s: State, x: uint64, t: Slot) returns (last: seq<Step>)
    requires GoodConfig(cfg) && Inv(cfg, s) && ImagesOk(cfg, s) && IndexRoom(s)
    requires x !in s.live && t in Leaked(s) && DrecAt(s.index, t).key == x
    ensures BackAfter(cfg, s, last, x)
  {
    hide Inv, ImagesOk, View, Run, Legal, Orderly, IsThreadStep, Opened, RoomOf, IndexRoom, ScanView, Finished, Maximal, InFree,
         InStored, InPageOrder, Indexed, Claimed, IsEmpty, DrecAt;
    last := FinalFlush(cfg, s);
    LeakStaysRun(cfg, s, last, t);
    RunImages(cfg, s, last);
    var e := Run(cfg, s, last);
    assert View(cfg, e) == View(cfg, s);
    forall ss | IsParallelScan(e.index, ss) && AllInRange(e.index, ss) ensures Back(cfg, e, ss, x) {
      ReopenedOk(cfg, e, ss);
      ScanHasNamed(cfg, e, ss, t);
    }
  }

  lemma ScanHasNamed(cfg: Config, s: State, ss: seq<Slot>, t: Slot)
    requires IsScan(s.index, ss) && AllInRange(s.index, ss) && Has(s.index, t)
    ensures DrecAt(s.index, t).key in ScanView(cfg, s, ss)
  {
    hide IsEmpty, DrecAt, Indexed, Seen;
    var i :| 0 <= i < |ss| && ss[i] == t;
    IndexedKeys(s.index, ss, |ss|, i);
  }

  lemma StoredKeyOf(cfg: Config, s: State, x: uint64)
    requires Inv(cfg, s) && x in s.live && s.live[x].slot.Some?
    ensures Has(s.index, s.live[x].slot.value) && DrecAt(s.index, s.live[x].slot.value).key == x
  {
    hide Inv, SlotImageOk;
    StoredRecord(cfg, s, x);
  }

  lemma TwiceDeleted(cfg: Config, s: State, x: uint64, y: uint64, record: seq<byte>)
    requires GoodConfig(cfg) && IndexRoom(s) && x in s.live
    ensures var three := [DeleteX(x), WriteXY(x, y, record), DeleteX(x)];
            var e := Run(cfg, s, three);
            && Enabled(cfg, e, RemoveFromQueue(x)) && e.index == s.index
            && IndexRoom(Apply(cfg, e, RemoveFromQueue(x))) && x !in Apply(cfg, e, RemoveFromQueue(x)).live
            && x !in PlainRun(cfg, View(cfg, s), three + [RemoveFromQueue(x)])
  {
    hide ManWrite, MemoryUsage, View, PlainWrite, LooksPacked, Written;
    var a, b, c, d := DeleteX(x), WriteXY(x, y, record), DeleteX(x), RemoveFromQueue(x);
    var s1 := Deleted(s, x);
    var s2 := Written(cfg, s1, x, y, record);
    RunThree(cfg, s, a, b, c);
    NewWriteFields(cfg, s1, x, y, record);
    DeletedTwiceRoom(s, s2, x);
    PlainThree(cfg, View(cfg, s), a, b, c);
    assert ([a, b, c] + [d])[..3] == [a, b, c];
  }

  lemma NewWriteFields(cfg: Config, s: State, x: uint64, y: uint64, record: seq<byte>)
    requires x !in s.live
    ensures var s' := Written(cfg, s, x, y, record);
            x in s'.live && s' == s.(live := s'.live, queue := s.queue + {x}, memUsed := s'.memUsed)
  {
    hide ManWrite, MemoryUsage;
  }

  lemma DeletedTwiceRoom(s: State, s2: State, x: uint64)
    requires IndexRoom(s) && x in s2.live
    requires var s1 := Deleted(s, x); s2 == s1.(live := s2.live, queue := s1.queue + {x}, memUsed := s2.memUsed)
    ensures var e := Deleted(s2, x);
            var e' := e.(removes := e.removes - multiset{x}, queue := e.queue - {x});
            x in e.removes && e.index == s.index && IndexRoom(e') && x !in e'.live
  {
    hide MemoryUsage;
    SubsetCardinality(s2.queue - {x}, s.queue);
  }

  /** Such a life begins with two empty files: x is written and flushed, then deleted, written and deleted. */
  lemma NewStoreUndoesDeletion(cfg: Config, x: uint64, y: uint64, record: seq<byte>) returns (last: seq<Step>)
    requires GoodConfig(cfg) && |record| >= 1 && !LooksPacked(cfg, record)
    ensures var first := [WriteXY(x, y, record), TakeQueue, FlushOne(x)];
            var s := Run(cfg, NewStore(cfg), first);
            var steps := [DeleteX(x), WriteXY(x, y, record), DeleteX(x), RemoveFromQueue(x)];
            && Legal(cfg, NewStore(cfg), first) && Legal(cfg, s, steps)
            && x !in PlainRun(cfg, View(cfg, s), steps)
            && BackAfter(cfg, Run(cfg, s, steps), last, x)
  {
    hide Inv, ImagesOk, View, Run, PlainRun, Leaked, LooksPacked, Legal, BackAfter, PlainStep, Apply, Enabled, NewStore;
    var s0, first := NewStore(cfg), [WriteXY(x, y, record), TakeQueue, FlushOne(x)];
    NewStoreOk(cfg);
    NewStoreFlushed(cfg, x, y, record);
    RunOk(cfg, s0, first);
    RunImages(cfg, s0, first);
    last := UndoneDeletion(cfg, Run(cfg, s0, first), x, y, record);
  }

  lemma NewStoreFlushed(cfg: Config, x: uint64, y: uint64, record: seq<byte>)
    requires GoodConfig(cfg) && |record| >= 1 && !LooksPacked(cfg, record)
    ensures var first := [WriteXY(x, y, record), TakeQueue, FlushOne(x)];
            var s := Run(cfg, NewStore(cfg), first);
            Legal(cfg, NewStore(cfg), first) && IndexRoom(s) && x in s.live && s.live[x].slot.Some?
  {
    hide Inv, ManWrite, MemoryUsage, LooksPacked, Flushed, SlotChanged, IsEmpty, Has, Cleaned, SameOutside, NewStore, View,
         WriteEnabled, Written;
    var a, b, c := WriteXY(x, y, record), TakeQueue, FlushOne(x);
    var s0 := NewStore(cfg);
    var s1 := Written(cfg, s0, x, y, record);
    var s2 := Apply(cfg, s1, b);
    NewStoreOk(cfg);
    NewStoreIs(cfg);
    NewStoreWritten(cfg, x, y, record);
    NewWriteFields(cfg, s0, x, y, record);
    RunThree(cfg, s0, a, b, c);
    StepOk(cfg, s0, a);
    StepOk(cfg, s1, b);
    ReadyToFlush(cfg, s2, x);
    FlushItemOk(cfg, s2, x, s2.live[x].man.value);
    FlushedSizes(cfg, s2, x);
  }

  // ----- a whole life

  /** From a new store through any orderly run: the storage thread can finish, and whatever the order of
      the scan at the next start, the reader sees the plain map again. */
  lemma LifeOfStore(cfg: Config, steps: seq<Step>) returns (last: seq<Step>)
    requires GoodConfig(cfg) && Legal(cfg, NewStore(cfg), steps) && Orderly(cfg, NewStore(cfg), steps)
    requires IndexRoom(Run(cfg, NewStore(cfg), steps))
    ensures var s := Run(cfg, NewStore(cfg), steps);
            && Legal(cfg, s, last) && (forall i :: 0 <= i < |last| ==> IsThreadStep(last[i]))
            && var e := Run(cfg, s, last);
               && Finished(e)
               && forall ss :: IsParallelScan(e.index, ss) && AllInRange(e.index, ss) ==>
                    Reopened(cfg, e, ss, PlainRun(cfg, map[], steps))
  {
    hide Inv, ImagesOk, View, Run, PlainRun, Opened, Legal, Orderly, Leaked, Orphans, IsParallelScan, RoomOf, IsThreadStep,
         NewStore;
    NewStoreOk(cfg);
    var s0 := NewStore(cfg);
    RunOk(cfg, s0, steps);
    OrderlyRun(cfg, s0, steps);
    RunImages(cfg, s0, steps);
    var s := Run(cfg, s0, steps);
    last := FinalFlush(cfg, s);
    RunOk(cfg, s, last);
    OrderlyRun(cfg, s, last);
    RunImages(cfg, s, last);
    var e := Run(cfg, s, last);
    assert Settled(e) && AllHarmless(e);
    forall ss | IsParallelScan(e.index, ss) && AllInRange(e.index, ss)
      ensures Reopened(cfg, e, ss, PlainRun(cfg, map[], steps))
    {
      RestartOk(cfg, e, ss);
    }
  }
}
