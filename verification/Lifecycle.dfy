/** Two ways in which queued work goes missing, and exactly when: the pending deletion of an x that is
    deleted again, and a write that is taken out of the queue by the end of an earlier deletion. */
module Lifecycle {
  import opened Bytes
  import opened Config
  import opened Manager
  import opened Loading
  import opened FreeSpace
  import opened IndexFile
  import opened Tiling
  import opened Store
  import opened Invariant
  import opened ClientSteps
  import opened SpaceSteps
  import opened FlushItem
  import opened Engine

  // ----- slots that nobody will ever free

  ghost predicate Claimed(s: State, t: Slot) {
    || (exists x :: x in s.live && s.live[x].slot == Some(t))
    || (exists x :: x in s.deletions && s.deletions[x].slot == Some(t))
    || (exists x :: x in s.erasing && s.erasing[x].slot == Some(t))
  }

  /** Slots of the index file, with their extents, that belong to no record and no deletion. */
  ghost function Leaked(s: State): iset<Slot> {
    iset t | Has(s.index, t) && !Claimed(s, t)
  }

  /** What DeleteData(x) drops: the entry of an earlier deletion of the same x. */
  ghost function Replaced(s: State, step: Step): iset<Slot> {
    match step
    case DeleteX(x) =>
      if x in s.live && x in s.deletions && s.deletions[x].slot.Some? then iset{s.deletions[x].slot.value} else iset{}
    case _ => iset{}
  }

  /** A client operation other than DeleteData(x) changes one record in memory: its slot stays, and it
      is queued or keeps its place as far as the queue is concerned. */
  ghost predicate OneRecord(s: State, s': State, x: uint64) {
    && x in s'.live
    && s' == s.(live := s.live[x := s'.live[x]], queue := s'.queue, memUsed := s'.memUsed)
    && s'.live[x].slot == (if x in s.live then s.live[x].slot else None)
    && (|| (s'.queue == s.queue + {x} && s'.live[x].inQueue)
        || (s'.queue == s.queue && x in s.live && s'.live[x].inQueue == s.live[x].inQueue))
  }

  ghost predicate AtMostOneRecord(s: State, s': State, x: uint64) {
    s' == s || OneRecord(s, s', x)
  }

  lemma OneRecordTransitive(a: State, b: State, c: State, x: uint64)
    requires AtMostOneRecord(a, b, x) && AtMostOneRecord(b, c, x)
    ensures AtMostOneRecord(a, c, x)
  {
    if b != a && c != b {
      assert c.live == a.live[x := c.live[x]];
    }
  }

  lemma OneRecordLeak(s: State, s': State, x: uint64)
    requires AtMostOneRecord(s, s', x)
    ensures Leaked(s') == Leaked(s)
  {
    hide Has;
    if s' != s {
      forall t ensures Claimed(s', t) <==> Claimed(s, t) {
        if y :| y in s.live && s.live[y].slot == Some(t) {
          assert s'.live[y].slot == Some(t);
        }
        if y :| y in s'.live && s'.live[y].slot == Some(t) {
          assert s.live[y].slot == Some(t);
        }
      }
    }
  }

  lemma LoadedOneRecord(s: State, x: uint64)
    requires x in s.live
    ensures AtMostOneRecord(s, Loaded(s, x), x) && x in Loaded(s, x).live
  {
    hide DiskMan, MemoryUsage;
  }

  lemma OperatedOneRecord(s: State, x: uint64, m: Man, relocate: bool, queued: bool, memUsed: int)
    requires x in s.live
    ensures AtMostOneRecord(s, Operated(s, x, m, relocate, queued, memUsed), x)
  {
  }

  lemma NewWriteOneRecord(cfg: Config, s: State, x: uint64, y: uint64, record: seq<byte>)
    requires x !in s.live
    ensures AtMostOneRecord(s, Written(cfg, s, x, y, record), x)
  {
    hide ManWrite, MemoryUsage;
  }

  lemma NotLoaded(cfg: Config, s: State, x: uint64, y: uint64, record: seq<byte>)
    requires x in s.live && Loaded(s, x).live[x].man.None?
    ensures Written(cfg, s, x, y, record) == Loaded(s, x)
  {
    hide ManWrite, MemoryUsage, DiskMan;
  }

  lemma WrittenOneRecord(cfg: Config, s: State, x: uint64, y: uint64, record: seq<byte>)
    ensures AtMostOneRecord(s, Written(cfg, s, x, y, record), x)
  {
    hide ManWrite, ManDefrag, Loaded, Written, AtMostOneRecord, Operated;
    if x !in s.live {
      NewWriteOneRecord(cfg, s, x, y, record);
      return;
    }
    var s1 := Loaded(s, x);
    LoadedOneRecord(s, x);
    if s1.live[x].man.None? {
      NotLoaded(cfg, s, x, y, record);
    } else {
      LoadedWrite(cfg, s, x, y, record);
      WrittenCases(cfg, s1, x, y, record);
      var (m', status) := ManWrite(cfg, s1.live[x].man.value, y, record);
      var mem := Written(cfg, s1, x, y, record).memUsed;
      OperatedOneRecord(s1, x, m', false, false, mem);
      OperatedOneRecord(s1, x, ManDefrag(cfg, m'), true, true, mem);
      OperatedOneRecord(s1, x, m', status.Done? && status.reallocated, true, mem);
      NoRecord(s1, x);
      OneRecordTransitive(s, s1, Written(cfg, s, x, y, record), x);
    }
  }

  lemma RecordDeletedOneRecord(s: State, x: uint64, y: uint64)
    ensures AtMostOneRecord(s, RecordDeleted(s, x, y), x)
  {
    hide ManDelete, MemoryUsage, Loaded;
    if x in s.live {
      LoadedOneRecord(s, x);
      OneRecordTransitive(s, Loaded(s, x), RecordDeleted(s, x, y), x);
    }
  }

  lemma DefragOneRecord(cfg: Config, s: State, x: uint64)
    ensures AtMostOneRecord(s, DefragStep(cfg, s, x), x)
  {
    hide ManDefrag, MemoryUsage, Loaded;
    if x in s.live {
      LoadedOneRecord(s, x);
      OneRecordTransitive(s, Loaded(s, x), DefragStep(cfg, s, x), x);
    }
  }

  lemma EvictedOneRecord(s: State, x: uint64)
    ensures AtMostOneRecord(s, Evicted(s, x), x)
  {
    hide MemoryUsage;
  }

  /** The record that a client operation other than DeleteData(x), or an eviction, is about. */
  lemma OneRecordStep(cfg: Config, s: State, step: Step) returns (x: uint64)
    requires step.WriteXY? || step.DeleteXY? || step.DefragX? || step.ReadX? || step.Evict?
    ensures x == step.x && AtMostOneRecord(s, Apply(cfg, s, step), x)
  {
    hide Written, RecordDeleted, DefragStep, Loaded, Evicted, AtMostOneRecord;
    x := step.x;
    match step
    case WriteXY(_, y, record) => WrittenOneRecord(cfg, s, x, y, record);
    case DeleteXY(_, y) => RecordDeletedOneRecord(s, x, y);
    case DefragX(_) => DefragOneRecord(cfg, s, x);
    case Evict(_) => EvictedOneRecord(s, x);
    case ReadX(_) => if x in s.live { LoadedOneRecord(s, x); } else { NoRecord(s, x); }
  }

  lemma NoRecord(s: State, x: uint64)
    ensures AtMostOneRecord(s, s, x)
  {
  }

  lemma DeleteLeak(cfg: Config, s: State, x: uint64)
    requires Inv(cfg, s) && x in s.live
    ensures Leaked(Deleted(s, x)) == Leaked(s) + Replaced(s, DeleteX(x))
  {
    hide RecordOk, DeletionOk, IndexInv, SpaceOk, Has;
    var s' := Deleted(s, x);
    var r := s.live[x];
    forall t ensures t in Leaked(s') <==> t in Leaked(s) + Replaced(s, DeleteX(x)) {
      ClaimAfterDelete(s, x, t);
      if x in s.deletions && s.deletions[x].slot == Some(t) {
        DeletionSlot(s.index, x, s.deletions[x]);
        OnlyDeletion(cfg, s, x, t);
      }
    }
  }

  lemma ClaimAfterDelete(s: State, x: uint64, t: Slot)
    requires x in s.live
    ensures var dropped := x in s.deletions && s.deletions[x].slot == Some(t);
            && (Claimed(Deleted(s, x), t) ==> Claimed(s, t))
            && (Claimed(s, t) && !dropped ==> Claimed(Deleted(s, x), t))
  {
    var s' := Deleted(s, x);
    if y :| y in s.live && s.live[y].slot == Some(t) {
      if y == x {
        assert s'.deletions[x].slot == Some(t);
      } else {
        assert s'.live[y].slot == Some(t);
      }
    }
    if y :| y in s.deletions && y != x && s.deletions[y].slot == Some(t) {
      assert s'.deletions[y].slot == Some(t);
    }
    if y :| y in s'.deletions && s'.deletions[y].slot == Some(t) {
      if y == x {
        assert s.live[x].slot == Some(t);
      } else {
        assert s.deletions[y].slot == Some(t);
      }
    }
    if y :| y in s'.live && s'.live[y].slot == Some(t) {
      assert s.live[y].slot == Some(t);
    }
  }

  /** The slot of a pending deletion of x is claimed by nothing else. */
  lemma OnlyDeletion(cfg: Config, s: State, x: uint64, t: Slot)
    requires Inv(cfg, s) && x in s.live && x in s.deletions && s.deletions[x].slot == Some(t)
    ensures !Claimed(Deleted(s, x), t)
  {
    hide RecordOk, DeletionOk, IndexInv, SpaceOk, Has;
    var s' := Deleted(s, x);
    DeletionSlot(s.index, x, s.deletions[x]);
    forall y | y in s'.live ensures s'.live[y].slot != Some(t) {
      if s'.live[y].slot == Some(t) {
        RecordSlot(cfg, s.file, s.index, y, s.live[y]);
      }
    }
    forall y | y in s'.deletions ensures s'.deletions[y].slot != Some(t) {
      if y != x && s'.deletions[y].slot == Some(t) {
        DeletionSlot(s.index, y, s.deletions[y]);
      }
    }
    forall y | y in s'.erasing ensures s'.erasing[y].slot != Some(t) {
      if s'.erasing[y].slot == Some(t) {
        DeletionSlot(s.index, y, s.erasing[y]);
      }
    }
  }

  lemma EraseLeak(cfg: Config, s: State, x: uint64)
    requires Inv(cfg, s) && x in s.erasing
    ensures Leaked(Erased(s, x)) == Leaked(s)
  {
    hide RecordOk, DeletionOk, IndexInv, SpaceOk, Has, EraseDrec, IsEmpty;
    var s', d := Erased(s, x), s.erasing[x];
    ClaimAfterErase(s, s', x);
    if d.slot.Some? {
      ErasedSpaceSlot(cfg, s, x);
    } else {
      assert s'.index == s.index;
    }
  }

  lemma ErasedSpaceSlot(cfg: Config, s: State, x: uint64)
    requires Inv(cfg, s) && x in s.erasing && s.erasing[x].slot.Some?
    ensures forall t :: Has(Erased(s, x).index, t) <==> Has(s.index, t) && t != s.erasing[x].slot.value
  {
    hide RecordOk, DeletionOk, IndexInv, SpaceOk, EraseDrec, AddFree;
    ErasedSpace(s, x);
  }

  lemma ClaimAfterErase(s: State, s': State, x: uint64)
    requires x in s.erasing && s'.live == s.live && s'.deletions == s.deletions && s'.erasing == s.erasing - {x}
    ensures forall t :: s.erasing[x].slot != Some(t) ==> (Claimed(s', t) <==> Claimed(s, t))
    ensures s.erasing[x].slot.Some? ==> Claimed(s, s.erasing[x].slot.value)
  {
    forall t | s.erasing[x].slot != Some(t) ensures Claimed(s', t) <==> Claimed(s, t) {
      if y :| y in s.erasing && s.erasing[y].slot == Some(t) {
        assert s'.erasing[y].slot == Some(t);
      }
      if y :| y in s'.erasing && s'.erasing[y].slot == Some(t) {
        assert s.erasing[y].slot == Some(t);
      }
    }
  }

  lemma TakeDeletionsLeak(s: State)
    requires Idle(s)
    ensures Leaked(s.(erasing := s.deletions, deletions := map[])) == Leaked(s)
  {
    hide Has;
    var s' := s.(erasing := s.deletions, deletions := map[]);
    forall t ensures Claimed(s', t) <==> Claimed(s, t) {
      if y :| y in s.deletions && s.deletions[y].slot == Some(t) {
        assert s'.erasing[y].slot == Some(t);
      }
    }
  }

  lemma FlushLeak(cfg: Config, s: State, x: uint64)
    requires Inv(cfg, s) && x in s.flushing && CanFlush(s, x)
    ensures Leaked(Flushed(cfg, s, x)) == Leaked(s)
  {
    hide Inv, Flushed, IsEmpty, Cleaned;
    if x in s.live {
      ReadyToFlush(cfg, s, x);
      FlushItemOk(cfg, s, x, s.live[x].man.value);
      ItemLeak(s, Flushed(cfg, s, x), x, s.live[x].man.value);
    } else {
      NotFlushed(cfg, s, x);
      SameClaims(s, Flushed(cfg, s, x));
    }
  }

  lemma SameClaims(s: State, s': State)
    requires s'.index == s.index && s'.live == s.live && s'.deletions == s.deletions && s'.erasing == s.erasing
    ensures Leaked(s') == Leaked(s)
  {
    hide Has;
    assert forall t :: Claimed(s', t) <==> Claimed(s, t);
  }

  lemma ItemLeak(s: State, s': State, x: uint64, m: Man)
    requires x in s.live && ItemFlushed(s, s', x, m)
    ensures Leaked(s') == Leaked(s)
  {
    hide Cleaned, IsEmpty, Has;
    var t := s'.live[x].slot.value;
    SlotHeld(s.index, s'.index, t, Drec(x, s'.live[x].start, s'.live[x].crc, s'.live[x].blockCount));
    forall u | u != t ensures Claimed(s', u) <==> Claimed(s, u) {
      if y :| y in s.live && s.live[y].slot == Some(u) {
        assert s'.live[y].slot == Some(u);
      }
      if y :| y in s'.live && s'.live[y].slot == Some(u) {
        assert s.live[y].slot == Some(u);
      }
    }
    assert Claimed(s', t);
    if s.live[x].slot.Some? {
      assert Claimed(s, t);
    }
  }

  lemma SlotHeld(x: Index, y: Index, t: Slot, d: Drec)
    requires SlotChanged(x, y, t, d) && !IsEmpty(d)
    ensures Has(y, t) && forall u :: u != t ==> (Has(y, u) <==> Has(x, u))
  {
  }

  /** Slots and their extents leak exactly when x is deleted while an earlier deletion of x, of a record
      that was on disk, is still pending: the queue holds one entry per key. */
  lemma LeakStep(cfg: Config, s: State, step: Step)
    requires GoodConfig(cfg) && Inv(cfg, s) && Enabled(cfg, s, step)
    ensures Leaked(Apply(cfg, s, step)) == Leaked(s) + Replaced(s, step)
  {
    hide Inv, Written, RecordDeleted, Deleted, DefragStep, Loaded, Evicted, Erased, Flushed, Freed, Rebuilt,
         WriteEnabled, Claimed, Leaked, AtMostOneRecord;
    match step
    case DeleteX(x) =>
      if x in s.live { DeleteLeak(cfg, s, x); } else { NothingDeleted(s, x); }
    case RemoveFromQueue(x) => SameClaims(s, Apply(cfg, s, step));
    case TakeDeletions => TakeDeletionsLeak(s);
    case EraseOne(x) => EraseLeak(cfg, s, x);
    case TakeQueue => SameClaims(s, Apply(cfg, s, step));
    case FlushOne(x) => FlushLeak(cfg, s, x);
    case FreeOne(x) => FreeClaims(s, x); SameClaims(s, Freed(s, x));
    case RebuildFree => FreeClaims(s, 0); SameClaims(s, Rebuilt(s));
    case _ =>
      var x := OneRecordStep(cfg, s, step);
      OneRecordLeak(s, Apply(cfg, s, step), x);
  }

  lemma NothingDeleted(s: State, x: uint64)
    requires x !in s.live
    ensures Leaked(Deleted(s, x)) == Leaked(s)
  {
    hide Has;
    SameClaims(s, Deleted(s, x));
  }

  lemma FreeClaims(s: State, x: uint64)
    ensures var s' := Freed(s, x);
            s'.index == s.index && s'.live == s.live && s'.deletions == s.deletions && s'.erasing == s.erasing
    ensures var s' := Rebuilt(s);
            s'.index == s.index && s'.live == s.live && s'.deletions == s.deletions && s'.erasing == s.erasing
  {
  }

  /** Deleting, writing and deleting a stored x again before the storage thread comes round leaks its slot. */
  lemma DeleteWriteDeleteLeaks(cfg: Config, s: State, x: uint64, y: uint64, record: seq<byte>, t: Slot)
    requires GoodConfig(cfg) && Inv(cfg, s) && x in s.live && s.live[x].slot == Some(t)
    requires |record| >= 1 && !LooksPacked(cfg, record)
    ensures var steps := [DeleteX(x), WriteXY(x, y, record), DeleteX(x)];
            Legal(cfg, s, steps) && t in Leaked(Run(cfg, s, steps))
  {
    hide Inv, Leaked, LooksPacked, Written, Deleted, WriteEnabled;
    var a, b, c := DeleteX(x), WriteXY(x, y, record), DeleteX(x);
    var s1 := Deleted(s, x);
    var s2 := Written(cfg, s1, x, y, record);
    RunThree(cfg, s, a, b, c);
    StepOk(cfg, s, a);
    PendingDeletion(cfg, s, x, y, record);
    StepOk(cfg, s1, b);
    LeakStep(cfg, s2, c);
  }

  lemma PendingDeletion(cfg: Config, s: State, x: uint64, y: uint64, record: seq<byte>)
    requires x in s.live
    ensures var s2 := Written(cfg, Deleted(s, x), x, y, record);
            x in s2.live && x in s2.deletions && s2.deletions[x].slot == s.live[x].slot
    ensures |record| >= 1 && !LooksPacked(cfg, record) ==> WriteEnabled(cfg, Deleted(s, x), x, y, record)
  {
    hide ManWrite, LooksPacked;
  }

  lemma RunThree(cfg: Config, s: State, a: Step, b: Step, c: Step)
    ensures Run(cfg, s, [a, b, c]) == Apply(cfg, Apply(cfg, Apply(cfg, s, a), b), c)
    ensures Legal(cfg, s, [a, b, c]) <==>
              && Enabled(cfg, s, a) && Enabled(cfg, Apply(cfg, s, a), b)
              && Enabled(cfg, Apply(cfg, Apply(cfg, s, a), b), c)
  {
    hide Apply, Enabled;
    var steps := [a, b, c];
    assert steps[..0] == [] && steps[..1] == [a] && steps[..2] == [a, b] && steps[..3] == steps;
    assert [a, b][..1] == [a] && [a][..0] == [];
    assert Run(cfg, s, [a]) == Apply(cfg, s, a);
    assert Run(cfg, s, [a, b]) == Apply(cfg, Apply(cfg, s, a), b);
  }

  // ----- writes that lost their place in the queue

  /** Records flagged as queued that are in no queue: they are neither flushed nor evicted. */
  ghost function Orphans(s: State): set<uint64> {
    set x | x in s.live && s.live[x].inQueue && x !in s.queue && x !in s.flushing
  }

  /** The second half of DeleteData(x), when it comes after a new write of x. */
  ghost function LateRemoved(s: State, step: Step): set<uint64> {
    match step
    case RemoveFromQueue(x) => if x in s.live && x in s.queue && x !in s.flushing then {x} else {}
    case _ => {}
  }

  lemma OneRecordOrphans(s: State, s': State, x: uint64)
    requires AtMostOneRecord(s, s', x)
    ensures Orphans(s') <= Orphans(s)
  {
  }

  lemma DeletedOrphans(s: State, x: uint64)
    ensures Orphans(Deleted(s, x)) <= Orphans(s)
  {
  }

  lemma RemovedOrphans(cfg: Config, s: State, x: uint64)
    requires Inv(cfg, s)
    ensures var s' := s.(removes := s.removes - multiset{x}, queue := s.queue - {x});
            Orphans(s') == Orphans(s) + LateRemoved(s, RemoveFromQueue(x))
  {
    hide RecordOk, DeletionOk, IndexInv, SpaceOk;
  }

  lemma FlushOrphans(cfg: Config, s: State, x: uint64)
    requires Inv(cfg, s) && x in s.flushing && CanFlush(s, x)
    ensures Orphans(Flushed(cfg, s, x)) <= Orphans(s)
  {
    hide Inv, Flushed, IsEmpty, Cleaned, SlotChanged, Has;
    if x in s.live {
      ReadyToFlush(cfg, s, x);
      FlushItemOk(cfg, s, x, s.live[x].man.value);
    } else {
      NotFlushed(cfg, s, x);
    }
  }

  lemma SpaceOrphans(s: State, x: uint64)
    ensures Orphans(Erased(s, x)) == Orphans(s) && Orphans(Freed(s, x)) == Orphans(s) && Orphans(Rebuilt(s)) == Orphans(s)
  {
  }

  /** A write loses its place in the queue exactly when the end of an earlier deletion of the same x
      comes after it and the running batch does not hold x. */
  lemma OrphanStep(cfg: Config, s: State, step: Step)
    requires GoodConfig(cfg) && Inv(cfg, s) && Enabled(cfg, s, step)
    ensures Orphans(Apply(cfg, s, step)) - Orphans(s) == LateRemoved(s, step)
  {
    hide Inv, Written, RecordDeleted, Deleted, DefragStep, Loaded, Evicted, Erased, Flushed, Freed, Rebuilt,
         WriteEnabled, Orphans, AtMostOneRecord;
    match step
    case DeleteX(x) => DeletedOrphans(s, x);
    case RemoveFromQueue(x) =>
      RemovedOrphans(cfg, s, x);
      LateIsNew(s, x);
    case TakeDeletions => TakenOrphans(s);
    case EraseOne(x) => SpaceOrphans(s, x);
    case TakeQueue => TakenOrphans(s);
    case FlushOne(x) => FlushOrphans(cfg, s, x);
    case FreeOne(x) => SpaceOrphans(s, x);
    case RebuildFree => SpaceOrphans(s, 0);
    case _ =>
      var x := OneRecordStep(cfg, s, step);
      OneRecordOrphans(s, Apply(cfg, s, step), x);
  }

  lemma LateIsNew(s: State, x: uint64)
    ensures LateRemoved(s, RemoveFromQueue(x)) !! Orphans(s)
  {
  }

  lemma TakenOrphans(s: State)
    requires Idle(s)
    ensures Orphans(s.(erasing := s.deletions, deletions := map[])) == Orphans(s)
    ensures Orphans(s.(flushing := s.queue, queue := {})) == Orphans(s)
  {
  }

  /** Such runs exist: x is deleted and written again before the first deletion is through. */
  lemma DeleteWriteRemoveOrphans(cfg: Config, s: State, x: uint64, y: uint64, record: seq<byte>)
    requires GoodConfig(cfg) && Inv(cfg, s) && x in s.live && x !in s.flushing
    requires |record| >= 1 && !LooksPacked(cfg, record)
    ensures var steps := [DeleteX(x), WriteXY(x, y, record), RemoveFromQueue(x)];
            Legal(cfg, s, steps) && x in Orphans(Run(cfg, s, steps))
  {
    hide Inv, Orphans, LooksPacked, Written, Deleted, WriteEnabled;
    var a, b, c := DeleteX(x), WriteXY(x, y, record), RemoveFromQueue(x);
    var s1 := Deleted(s, x);
    var s2 := Written(cfg, s1, x, y, record);
    RunThree(cfg, s, a, b, c);
    StepOk(cfg, s, a);
    PendingDeletion(cfg, s, x, y, record);
    StepOk(cfg, s1, b);
    NewWriteQueued(cfg, s, x, y, record);
    OrphanStep(cfg, s2, c);
  }

  lemma NewWriteQueued(cfg: Config, s: State, x: uint64, y: uint64, record: seq<byte>)
    requires x in s.live
    ensures var s2 := Written(cfg, Deleted(s, x), x, y, record);
            x in s2.live && x in s2.queue && x in s2.removes && s2.flushing == s.flushing
  {
    hide ManWrite;
  }

  // ----- over runs

  /** No step of the run deletes an x whose earlier deletion is pending, or takes a new write out of the
      queue. */
  ghost predicate Orderly(cfg: Config, s: State, steps: seq<Step>) {
    forall i :: 0 <= i < |steps| ==>
      var si := Run(cfg, s, steps[..i]);
      Replaced(si, steps[i]) == iset{} && LateRemoved(si, steps[i]) == {}
  }

  /** A run leaks nothing and orphans nothing when all its steps are orderly. */
  lemma {:induction false} OrderlyRun(cfg: Config, s: State, steps: seq<Step>)
    requires GoodConfig(cfg) && Inv(cfg, s) && Legal(cfg, s, steps) && Orderly(cfg, s, steps)
    ensures Leaked(Run(cfg, s, steps)) == Leaked(s) && Orphans(Run(cfg, s, steps)) <= Orphans(s)
  {
    hide Inv, Apply, Enabled, Leaked, Orphans, Replaced, LateRemoved;
    if steps != [] {
      var n := |steps| - 1;
      LegalPrefix(cfg, s, steps, n);
      OrderlyPrefix(cfg, s, steps, n);
      OrderlyRun(cfg, s, steps[..n]);
      RunOk(cfg, s, steps[..n]);
      LeakStep(cfg, Run(cfg, s, steps[..n]), steps[n]);
      OrphanStep(cfg, Run(cfg, s, steps[..n]), steps[n]);
      NothingNew(Orphans(Run(cfg, s, steps)), Orphans(Run(cfg, s, steps[..n])));
    }
  }

  lemma NothingNew(after: set<uint64>, before: set<uint64>)
    requires after - before == {}
    ensures after <= before
  {
    forall x | x in after ensures x in before {
      assert x in before || x in after - before;
    }
  }

  /** The slots that the steps of a run drop. */
  ghost function ReplacedBy(cfg: Config, s: State, steps: seq<Step>): iset<Slot> {
    if steps == [] then iset{}
    else
      var n := |steps| - 1;
      ReplacedBy(cfg, s, steps[..n]) + Replaced(Run(cfg, s, steps[..n]), steps[n])
  }

  /** What has leaked after any run is exactly what was dropped, for good. */
  lemma {:induction false} LeakRun(cfg: Config, s: State, steps: seq<Step>)
    requires GoodConfig(cfg) && Inv(cfg, s) && Legal(cfg, s, steps)
    ensures Leaked(Run(cfg, s, steps)) == Leaked(s) + ReplacedBy(cfg, s, steps)
  {
    hide Inv, Apply, Enabled, Leaked, Replaced;
    if steps != [] {
      var n := |steps| - 1;
      LegalPrefix(cfg, s, steps, n);
      LeakRun(cfg, s, steps[..n]);
      RunOk(cfg, s, steps[..n]);
      LeakStep(cfg, Run(cfg, s, steps[..n]), steps[n]);
    }
  }

  lemma OrderlyPrefix(cfg: Config, s: State, steps: seq<Step>, n: nat)
    requires Orderly(cfg, s, steps) && n <= |steps|
    ensures Orderly(cfg, s, steps[..n])
  {
    hide Run, Replaced, LateRemoved;
    forall i | 0 <= i < n
      ensures var si := Run(cfg, s, steps[..n][..i]);
              Replaced(si, steps[..n][i]) == iset{} && LateRemoved(si, steps[..n][i]) == {}
    {
      assert steps[..n][..i] == steps[..i];
    }
  }

  // ----- safety that a reader can see

  /** A record whose manager differs from what is stored is flagged as queued: it is waiting in the
      write queue or in the running batch, unless it was orphaned, and eviction leaves it alone. */
  lemma UnflushedIsKept(cfg: Config, s: State, x: uint64)
    requires Inv(cfg, s) && x in s.live && s.live[x].man.Some?
    requires s.live[x].man.value != DiskMan(s.file, s.live[x].start, s.live[x].blockCount)
    ensures s.live[x].inQueue && (x in s.queue || x in s.flushing || x in Orphans(s))
    ensures Evicted(s, x) == s
  {
    hide Inv, RecordOk, DiskMan;
    RecordOf(cfg, s, x);
    if !s.live[x].inQueue {
      EvictedRecord(cfg, s.file, s.index, x, s.live[x]);
    }
  }

  ghost predicate HoldsByte(s: State, o: Owner, p: int) {
    Owns(s.index, s.deferred, s.free, o) && Covers(ExtentOf(s.index, s.deferred, s.free, o), p)
  }

  /** Every byte of the data file belongs to exactly one owner: an occupied slot (of a live record, of
      a pending deletion, or leaked), a deferred free, or a free extent. */
  lemma EveryByteOwnedOnce(cfg: Config, s: State, p: int)
    requires Inv(cfg, s) && 0 <= p < |s.file|
    ensures exists o :: HoldsByte(s, o, p) && forall q :: HoldsByte(s, q, p) ==> q == o
    ensures forall t :: Has(s.index, t) ==> Claimed(s, t) || t in Leaked(s)
  {
    hide RecordOk, DeletionOk, IndexInv, Owns, ExtentOf, FreeOk, Has, Claimed;
    var m := Space(s.index, s.deferred, s.free);
    assert Owned(m, p);
    var o :| o in m && Covers(m[o], p);
    assert HoldsByte(s, o, p);
    forall q | HoldsByte(s, q, p) ensures q == o {
      assert q in m && m[q] == ExtentOf(s.index, s.deferred, s.free, q);
      assert q == o || Disjoint(m[q], m[o]);
    }
  }

  /** Rebuilding the free map keeps the same free bytes, now in maximal extents. */
  lemma RebuildKeepsFreeBytes(cfg: Config, s: State)
    requires Inv(cfg, s) && Idle(s)
    ensures Maximal(Rebuilt(s).free, |s.file|)
    ensures forall p :: 0 <= p < |s.file| ==> (InFree(Rebuilt(s).free, p) <==> InFree(s.free, p))
  {
    hide RecordOk, DeletionOk, IndexInv, Rebuild, SlotsSound, IsScan, SlotExtents, ScanSlots, Maximal, InFree, InStored,
         SpaceOk;
    SpaceSlotsSound(s.index, s.deferred, s.free, |s.file|);
    ScanIsScan(s.index);
    RebuiltSpace(s.index, |s.file|, ScanSlots(s.index.pages, |s.index.pages|));
    forall p | 0 <= p < |s.file| ensures InFree(s.free, p) <==> !InStored(s.index, p) {
      FreeOrStored(s.index, s.free, |s.file|, p);
    }
  }

  lemma FreeOrStored(index: Index, free: FreeMap, size: int, p: int)
    requires SpaceOk(index, map[], free, size) && 0 <= p < size
    ensures InFree(free, p) <==> !InStored(index, p)
  {
    hide IsEmpty, DrecAt, DrecExtent, FreeOk;
    var m := Space(index, map[], free);
    assert Owned(m, p);
    var o :| o in m && Covers(m[o], p);
    if InFree(free, p) && InStored(index, p) {
      var l, i :| HasFree(free, l, i) && Covers(FreeExtent(free, l, i), p);
      var t :| Has(index, t) && Covers(DrecExtent(DrecAt(index, t)), p);
      SlotAndFree(index, free, size, t, l, i);
    }
  }

  lemma SlotAndFree(index: Index, free: FreeMap, size: int, t: Slot, l: int, i: int)
    requires SpaceOk(index, map[], free, size) && Has(index, t) && HasFree(free, l, i)
    ensures Disjoint(DrecExtent(DrecAt(index, t)), FreeExtent(free, l, i))
  {
    hide IsEmpty, DrecAt, DrecExtent, FreeOk, Owned;
    var m := Space(index, map[], free);
    assert BySlot(t) in m && Free(l, i) in m && BySlot(t) != Free(l, i);
  }
}
