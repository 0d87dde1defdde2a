/** The final flush of ~Storage: the storage thread can always finish its work, and then both queues
    are empty. */
module Shutdown {
  import opened Bytes
  import opened Config
  import opened Loading
  import opened FreeSpace
  import opened IndexFile
  import opened Sets
  import opened Store
  import opened Invariant
  import opened ClientSteps
  import opened FlushSteps
  import opened FlushItem
  import opened Engine
  import opened Lifecycle

  /** The steps of DiskWriter::Process. */
  predicate IsThreadStep(step: Step) {
    step.TakeDeletions? || step.EraseOne? || step.TakeQueue? || step.FlushOne? || step.FreeOne?
  }

  predicate Finished(s: State) {
    Idle(s) && s.queue == {} && s.deletions == map[]
  }

  /** What is left to do; every step of the storage thread makes it smaller. */
  function Work(s: State): nat {
    3 * |s.deletions| + 2 * |s.erasing| + 5 * |s.queue| + 4 * |s.flushing| + |s.deferred|
  }

  /** One more page for every record that is waiting could still be addressed. */
  predicate IndexRoom(s: State) {
    |s.index.pages| + |s.queue| + |s.flushing| <= MAX_INDEX_BLOCKS
  }

  ghost predicate CanStep(cfg: Config, s: State, step: Step) {
    && IsThreadStep(step) && Enabled(cfg, s, step) && Work(Apply(cfg, s, step)) < Work(s)
    && IndexRoom(Apply(cfg, s, step))
  }

  lemma MapSizes<K, V>(m: map<K, V>, k: K)
    requires k in m
    ensures |m - {k}| == |m| - 1
  {
    assert (m - {k}).Keys == m.Keys - {k};
    assert |m.Keys| == |m|;
    assert |(m - {k}).Keys| == |m - {k}|;
  }

  lemma EraseWork(s: State, x: uint64)
    requires x in s.erasing
    ensures Work(Erased(s, x)) < Work(s)
    ensures IndexRoom(s) ==> IndexRoom(Erased(s, x))
  {
    hide AddFree, EraseDrec;
    MapSizes(s.erasing, x);
    ErasedPages(s, x);
  }

  lemma ErasedPages(s: State, x: uint64)
    ensures |Erased(s, x).index.pages| == |s.index.pages|
  {
    hide AddFree;
  }

  lemma FreeWork(s: State, x: uint64)
    requires x in s.deferred
    ensures Work(Freed(s, x)) < Work(s)
    ensures IndexRoom(s) ==> IndexRoom(Freed(s, x))
  {
    hide AddFree;
    MapSizes(s.deferred, x);
  }

  lemma TakeWork(s: State)
    requires Idle(s)
    ensures s.deletions != map[] ==> Work(s.(erasing := s.deletions, deletions := map[])) < Work(s)
    ensures s.queue != {} ==> Work(s.(flushing := s.queue, queue := {})) < Work(s)
  {
    assert s.deletions != map[] ==> |s.deletions| > 0;
    assert s.queue != {} ==> |s.queue| > 0;
  }

  lemma MapGrowth<K, V>(m: map<K, V>, m': map<K, V>, k: K)
    requires m'.Keys <= m.Keys + {k}
    ensures |m'| <= |m| + 1
  {
    SubsetCardinality(m'.Keys, m.Keys + {k});
    assert |m'.Keys| == |m'| && |m.Keys| == |m|;
  }

  lemma {:induction false} WriteDrecGrowth(x: Index, slot: Option<Slot>, d: Drec)
    requires IndexReady(x, slot)
    ensures |WriteDrec(x, slot, d).0.pages| <= |x.pages| + 1
    decreases |x.freeBlocks|
  {
    if slot.None? && exists b :: b in x.freeBlocks {
      var b := Lowest(x.freeBlocks);
      assert |x.freeBlocks - {b}| < |x.freeBlocks|;
      WriteDrecGrowth(x.(freeBlocks := x.freeBlocks - {b}), None, d);
    }
  }

  lemma FlushedSizes(cfg: Config, s: State, x: uint64)
    requires x in s.flushing
    ensures |Flushed(cfg, s, x).index.pages| <= |s.index.pages| + 1
    ensures Flushed(cfg, s, x).flushing == s.flushing - {x} && |s.flushing - {x}| == |s.flushing| - 1
    ensures Flushed(cfg, s, x).erasing == s.erasing
  {
    hide Inv, WriteDrec, FlushData;
    if x in s.live && IndexReady(s.index, s.live[x].slot) {
      forall d ensures |WriteDrec(s.index, s.live[x].slot, d).0.pages| <= |s.index.pages| + 1 {
        WriteDrecGrowth(s.index, s.live[x].slot, d);
      }
    }
  }

  lemma FlushWork(cfg: Config, s: State, x: uint64)
    requires Inv(cfg, s) && x in s.flushing && CanFlush(s, x)
    ensures Work(Flushed(cfg, s, x)) < Work(s)
    ensures IndexRoom(s) ==> IndexRoom(Flushed(cfg, s, x))
  {
    hide Inv, Flushed, SlotChanged, Has, IsEmpty, Cleaned;
    if x in s.live {
      ReadyToFlush(cfg, s, x);
      FlushItemOk(cfg, s, x, s.live[x].man.value);
    } else {
      NotFlushed(cfg, s, x);
    }
    FlushDeferred(cfg, s, x);
    FlushedSizes(cfg, s, x);
    assert |s.flushing - {x}| == |s.flushing| - 1;
    MapGrowth(s.deferred, Flushed(cfg, s, x).deferred, x);
  }

  lemma FlushDeferred(cfg: Config, s: State, x: uint64)
    ensures Flushed(cfg, s, x).deferred.Keys <= s.deferred.Keys + {x}
  {
    hide Allocate, WriteDrec, WriteDirty, IndexReady, WriteAt, Grown;
  }

  lemma RoomToFlush(s: State, x: uint64)
    requires x in s.flushing && IndexRoom(s)
    ensures CanFlush(s, x)
  {
    assert |s.flushing| > 0;
  }

  /** While anything is left to do, the storage thread has a step that brings it nearer to the end. */
  lemma Progress(cfg: Config, s: State) returns (step: Step)
    requires Inv(cfg, s) && !Finished(s) && IndexRoom(s)
    ensures CanStep(cfg, s, step)
  {
    hide Inv, Erased, Flushed, Freed, Work, CanAdd;
    if s.erasing != map[] {
      var x :| x in s.erasing.Keys;
      step := EraseOne(x);
      EraseWork(s, x);
    } else if s.flushing != {} {
      var x :| x in s.flushing;
      step := FlushOne(x);
      RoomToFlush(s, x);
      FlushWork(cfg, s, x);
    } else if s.deferred != map[] {
      var x :| x in s.deferred.Keys;
      step := FreeOne(x);
      FreeWork(s, x);
    } else if s.deletions != map[] {
      TakeWork(s);
      step := TakeDeletions;
    } else {
      TakeWork(s);
      step := TakeQueue;
    }
  }

  lemma LegalAppend(cfg: Config, s: State, steps: seq<Step>, step: Step)
    requires Legal(cfg, s, steps) && Enabled(cfg, Run(cfg, s, steps), step)
    ensures Legal(cfg, s, steps + [step])
    ensures Run(cfg, s, steps + [step]) == Apply(cfg, Run(cfg, s, steps), step)
  {
    hide Apply, Enabled;
    var all := steps + [step];
    assert all[..|steps|] == steps;
    forall i | 0 <= i < |all| ensures Enabled(cfg, Run(cfg, s, all[..i]), all[i]) {
      if i < |steps| {
        assert all[..i] == steps[..i];
      }
    }
  }

  lemma OrderlyAppend(cfg: Config, s: State, steps: seq<Step>, step: Step)
    requires Orderly(cfg, s, steps) && IsThreadStep(step)
    ensures Orderly(cfg, s, steps + [step])
  {
    hide Run;
    var all := steps + [step];
    forall i | 0 <= i < |all|
      ensures Replaced(Run(cfg, s, all[..i]), all[i]) == iset{} && LateRemoved(Run(cfg, s, all[..i]), all[i]) == {}
    {
      if i < |steps| {
        assert all[..i] == steps[..i];
      }
    }
  }

  /** `now` is reached from `s` by the given steps of the storage thread; readers notice nothing. */
  ghost predicate Trace(cfg: Config, s: State, steps: seq<Step>, now: State) {
    && now == Run(cfg, s, steps)
    && Legal(cfg, s, steps) && Orderly(cfg, s, steps)
    && (forall i :: 0 <= i < |steps| ==> IsThreadStep(steps[i]))
    && Inv(cfg, now) && View(cfg, now) == View(cfg, s)
  }

  lemma TraceStart(cfg: Config, s: State)
    requires Inv(cfg, s)
    ensures Trace(cfg, s, [], s)
  {
    hide Inv, View;
  }

  lemma TraceStep(cfg: Config, s: State, steps: seq<Step>, now: State, step: Step)
    requires GoodConfig(cfg) && Trace(cfg, s, steps, now) && IsThreadStep(step) && Enabled(cfg, now, step)
    ensures Trace(cfg, s, steps + [step], Apply(cfg, now, step))
  {
    hide Inv, Apply, Enabled, View, Legal, Orderly, IsThreadStep;
    LegalAppend(cfg, s, steps, step);
    OrderlyAppend(cfg, s, steps, step);
    StepOk(cfg, now, step);
    ThreadStepIsSilent(cfg, View(cfg, now), step);
  }

  lemma ThreadStepIsSilent(cfg: Config, v: Plain, step: Step)
    requires IsThreadStep(step) && LimitSound(cfg)
    ensures PlainStep(cfg, v, step) == v
  {
  }

  /** From every reachable state the storage thread alone reaches a state in which both queues are empty
      and nothing is under way; readers notice nothing. */
  lemma FinalFlush(cfg: Config, s: State) returns (steps: seq<Step>)
    requires GoodConfig(cfg) && Inv(cfg, s) && IndexRoom(s)
    ensures Trace(cfg, s, steps, Run(cfg, s, steps)) && Finished(Run(cfg, s, steps))
  {
    hide Inv, Apply, Enabled, View, Legal, Orderly, IsThreadStep;
    steps := [];
    var now := s;
    TraceStart(cfg, s);
    while !Finished(now)
      invariant Trace(cfg, s, steps, now) && IndexRoom(now)
      decreases Work(now)
    {
      var step := Progress(cfg, now);
      TraceStep(cfg, s, steps, now, step);
      steps := steps + [step];
      now := Apply(cfg, now, step);
    }
  }

  // ----- writes that lost their place in the queue

  /** An orphaned record stays as it is, whatever the storage thread does. */
  lemma OrphanStays(cfg: Config, s: State, step: Step, x: uint64)
    requires Inv(cfg, s) && Enabled(cfg, s, step) && IsThreadStep(step) && x in Orphans(s)
    ensures x in Orphans(Apply(cfg, s, step)) && Apply(cfg, s, step).live[x] == s.live[x]
  {
    hide Inv, Flushed, Erased, Freed, CanFlush;
    if step.FlushOne? {
      FlushKeepsOrphan(cfg, s, step.x, x);
    } else {
      SpaceKeepsLive(s, if step.EraseOne? || step.FreeOne? then step.x else 0);
    }
  }

  lemma FlushKeepsOrphan(cfg: Config, s: State, z: uint64, x: uint64)
    requires Inv(cfg, s) && z in s.flushing && CanFlush(s, z) && x in Orphans(s)
    ensures x in Orphans(Flushed(cfg, s, z)) && Flushed(cfg, s, z).live[x] == s.live[x]
  {
    hide Inv, Flushed, SlotChanged, Has, IsEmpty, Cleaned, SameOutside;
    if z in s.live {
      ReadyToFlush(cfg, s, z);
      FlushItemOk(cfg, s, z, s.live[z].man.value);
    } else {
      NotFlushed(cfg, s, z);
    }
  }

  lemma SpaceKeepsLive(s: State, x: uint64)
    ensures Erased(s, x).live == s.live && Erased(s, x).queue == s.queue && Erased(s, x).flushing == s.flushing
    ensures Freed(s, x).live == s.live && Freed(s, x).queue == s.queue && Freed(s, x).flushing == s.flushing
  {
    hide AddFree, EraseDrec;
  }

  lemma {:induction false} OrphanStaysRun(cfg: Config, s: State, steps: seq<Step>, x: uint64)
    requires GoodConfig(cfg) && Inv(cfg, s) && Legal(cfg, s, steps) && x in Orphans(s)
    requires forall i :: 0 <= i < |steps| ==> IsThreadStep(steps[i])
    ensures x in Orphans(Run(cfg, s, steps)) && Run(cfg, s, steps).live[x] == s.live[x]
  {
    hide Inv, Apply, Enabled, Orphans;
    if steps != [] {
      var n := |steps| - 1;
      LegalPrefix(cfg, s, steps, n);
      OrphanStaysRun(cfg, s, steps[..n], x);
      RunOk(cfg, s, steps[..n]);
      OrphanStays(cfg, Run(cfg, s, steps[..n]), steps[n], x);
    }
  }

  /** The operations that give an orphaned x its place back, or take its record away. */
  predicate Revives(step: Step, x: uint64) {
    (step.WriteXY? || step.DeleteXY? || step.DefragX? || step.DeleteX?) && step.x == x
  }

  /** Nothing else does: an orphaned record stays flagged, out of every queue and in memory. */
  lemma OrphanStaysOtherwise(cfg: Config, s: State, step: Step, x: uint64)
    requires GoodConfig(cfg) && Inv(cfg, s) && Enabled(cfg, s, step) && x in Orphans(s) && !Revives(step, x)
    ensures x in Orphans(Apply(cfg, s, step)) && Apply(cfg, s, step).live[x] == s.live[x]
  {
    hide Inv, Written, RecordDeleted, Deleted, DefragStep, Loaded, Evicted, Erased, Flushed, Freed, Rebuilt, CanFlush,
         WriteEnabled, Orphans;
    match step
    case RemoveFromQueue(z) => OrphanNotQueued(s, z, x);
    case RebuildFree => OrphanRebuilt(s, x);
    case DeleteX(z) => OrphanDeleted(s, z, x);
    case ReadX(z) => if z in s.live { OrphanLoaded(cfg, s, z, x); }
    case Evict(z) => OrphanEvicted(s, z, x);
    case WriteXY(z, _, _) => OtherRecordOrphan(cfg, s, step, x);
    case DeleteXY(z, _) => OtherRecordOrphan(cfg, s, step, x);
    case DefragX(z) => OtherRecordOrphan(cfg, s, step, x);
    case _ => OrphanStays(cfg, s, step, x);
  }

  lemma OrphanNotQueued(s: State, z: uint64, x: uint64)
    requires x in Orphans(s)
    ensures x in Orphans(s.(removes := s.removes - multiset{z}, queue := s.queue - {z})) && x in s.live
  {
  }

  lemma OrphanRebuilt(s: State, x: uint64)
    requires x in Orphans(s)
    ensures x in Orphans(Rebuilt(s)) && x in s.live && Rebuilt(s).live == s.live
  {
  }

  lemma OrphanDeleted(s: State, z: uint64, x: uint64)
    requires x in Orphans(s) && z != x
    ensures x in Orphans(Deleted(s, z)) && x in s.live && Deleted(s, z).live[x] == s.live[x]
  {
    hide MemoryUsage;
  }

  lemma OrphanLoaded(cfg: Config, s: State, z: uint64, x: uint64)
    requires Inv(cfg, s) && z in s.live && x in Orphans(s)
    ensures x in Orphans(Loaded(s, z)) && x in s.live && Loaded(s, z).live[x] == s.live[x]
  {
    hide Inv, MemoryUsage, DiskMan, ManOk;
    OrphanInMemory(cfg, s, x);
  }

  lemma OrphanInMemory(cfg: Config, s: State, x: uint64)
    requires Inv(cfg, s) && x in Orphans(s)
    ensures s.live[x].man.Some?
  {
    hide Inv, RecordOk;
    RecordOf(cfg, s, x);
    QueuedInMemory(cfg, s.file, s.index, x, s.live[x]);
  }

  lemma OrphanEvicted(s: State, z: uint64, x: uint64)
    requires x in Orphans(s)
    ensures x in Orphans(Evicted(s, z)) && x in s.live && Evicted(s, z).live[x] == s.live[x]
  {
    hide MemoryUsage;
  }

  lemma OtherRecordOrphan(cfg: Config, s: State, step: Step, x: uint64)
    requires step.WriteXY? || step.DeleteXY? || step.DefragX?
    requires x in Orphans(s) && step.x != x
    ensures x in Orphans(Apply(cfg, s, step)) && x in s.live && Apply(cfg, s, step).live[x] == s.live[x]
  {
    hide Apply;
    var z := OneRecordStep(cfg, s, step);
    assert z == step.x;
  }

  /** An orphaned x blocks eviction: through every run without an operation on x it keeps its flag, and
      CheckMemory, which stops at such a head of the list, never passes it. */
  lemma {:induction false} OrphanBlocks(cfg: Config, s: State, steps: seq<Step>, x: uint64)
    requires GoodConfig(cfg) && Inv(cfg, s) && Legal(cfg, s, steps) && x in Orphans(s)
    requires forall i :: 0 <= i < |steps| ==> !Revives(steps[i], x)
    ensures var s' := Run(cfg, s, steps);
            x in Orphans(s') && x in s'.live && s'.live[x].inQueue && s'.live[x] == s.live[x] && Evicted(s', x) == s'
  {
    hide Inv, Apply, Enabled, Revives;
    if steps != [] {
      var n := |steps| - 1;
      LegalPrefix(cfg, s, steps, n);
      OrphanBlocks(cfg, s, steps[..n], x);
      RunOk(cfg, s, steps[..n]);
      OrphanStaysOtherwise(cfg, Run(cfg, s, steps[..n]), steps[n], x);
    }
  }
}
