/** Memory accounting: m_memoryUsed against what the managers in memory really use. */
module MemoryAccounting {
  import opened Bytes
  import opened Config
  import opened Manager
  import opened Pages
  import opened Writes
  import opened Retention
  import opened IndexFile
  import opened Store
  import opened Invariant
  import opened ClientSteps
  import opened FlushItem
  import opened Engine
  import opened Lifecycle
  import opened Defrag
  import opened Shutdown
  import opened Restart
  import opened GrowthAtLimit
  import opened StorageFacts

  lemma UsageChange(m: Man, m': Man)
    ensures MemoryUsage(m') - MemoryUsage(m)
         == AVL_NODE_SIZE * (|m'.index| - |m.index|) + BLOCK_SIZE * (|m'.pages| - |m.pages|)
  {
    var a, b, c: int := |m.index|, |m'.index|, AVL_NODE_SIZE;
    assert c * (b - a) == c * b - c * a;
  }

  /** A new key accounts for one index node, and for 4096 bytes more when no page has room for its record; a
      deleted one gives its index node back. */
  lemma KeyUsage(m: Man, key: uint64, data: seq<byte>)
    requires Valid(m) && |data| <= MAX_RECORD_SIZE
    ensures key !in m.index ==>
              MemoryUsage(Place(m, key, data)) - MemoryUsage(m)
              == AVL_NODE_SIZE + if SomePageHasRoom(m, |data|) then 0 else BLOCK_SIZE
    ensures key in m.index ==> MemoryUsage(m) - MemoryUsage(Delete(m, key)) == AVL_NODE_SIZE
  {
    hide Valid, Place, MemoryUsage, SomePageHasRoom;
    if key in m.index {
      UsageChange(m, Delete(m, key));
      DeleteTouches(m, key);
    } else {
      UsageChange(m, Place(m, key, data));
      PlaceIndex(m, key, data);
      PlaceWhere(m, key, data);
    }
  }

  function UsageOf(r: RecordIndex): nat {
    if r.man.Some? then MemoryUsage(r.man.value) else 0
  }

  /** The memory that the managers of the given records use. */
  ghost function TotalUsage(live: map<uint64, RecordIndex>): nat
    decreases |live|
  {
    if live == map[] then 0
    else
      var x := AnyKey(live);
      assert |live - {x}| < |live| by { assert live == (live - {x})[x := live[x]]; }
      UsageOf(live[x]) + TotalUsage(live - {x})
  }

  ghost function AnyKey(live: map<uint64, RecordIndex>): (x: uint64)
    requires live != map[]
    ensures x in live
  {
    var x :| x in live.Keys;
    x
  }

  lemma {:induction false} TotalWithout(live: map<uint64, RecordIndex>, x: uint64)
    requires x in live
    ensures TotalUsage(live) == TotalUsage(live - {x}) + UsageOf(live[x])
    decreases |live|
  {
    hide UsageOf;
    var w := AnyKey(live);
    if w != x {
      assert |live - {w}| < |live| by { assert live == (live - {w})[w := live[w]]; }
      TotalWithout(live - {w}, x);
      TotalWithout(live - {x}, w);
      assert live - {w} - {x} == live - {x} - {w};
    }
  }

  /** Replacing or adding one record changes the total by the difference of that record. */
  lemma TotalUpdate(live: map<uint64, RecordIndex>, x: uint64, r: RecordIndex)
    ensures TotalUsage(live[x := r])
         == TotalUsage(live) + UsageOf(r) - if x in live then UsageOf(live[x]) else 0
  {
    hide UsageOf;
    TotalWithout(live[x := r], x);
    assert live[x := r] - {x} == live - {x};
    if x in live {
      TotalWithout(live, x);
    } else {
      assert live - {x} == live;
    }
  }

  // ----- drift

  /** How far m_memoryUsed is off. */
  ghost function Drift(s: State): int {
    s.memUsed - TotalUsage(s.live)
  }

  /** The memory that one step forgets to count, by what can be checked before it: a write that evicts at
      the record limit and grows the record all the same, with DefragAfterRecordDelete at most 1. */
  ghost function Forgotten(cfg: Config, s: State, step: Step): (n: nat) {
    match step
    case WriteXY(x, y, record) =>
      if x in s.live && GrowsAtLimit(cfg, ManOf(s.file, s.live[x]), y, record) && cfg.defragAfterRecordDelete <= 1
      then BLOCK_SIZE
      else 0
    case _ => 0
  }

  lemma DriftOfSet(s: State, s': State, x: uint64)
    requires x in s'.live && s'.live == s.live[x := s'.live[x]]
    ensures Drift(s') == Drift(s) + (s'.memUsed - s.memUsed) - UsageOf(s'.live[x])
                         + if x in s.live then UsageOf(s.live[x]) else 0
  {
    hide UsageOf, TotalUsage;
    TotalUpdate(s.live, x, s'.live[x]);
  }

  lemma LoadDrift(s: State, x: uint64)
    requires x in s.live
    ensures Drift(Loaded(s, x)) == Drift(s) && Loaded(s, x).live.Keys == s.live.Keys
  {
    hide MemoryUsage, DiskMan, TotalUsage;
    var s' := Loaded(s, x);
    assert s'.live == s.live[x := s'.live[x]];
    DriftOfSet(s, s', x);
  }

  /** DefragmentDataInternal counts correctly: its branch for growing memory only ever adds 0. */
  lemma DefragDrift(cfg: Config, s: State, x: uint64, m: Man)
    requires GoodConfig(cfg) && x in s.live && s.live[x].man.Some? && ManOk(cfg, m)
    ensures MemoryUsage(ManDefrag(cfg, m)) <= MemoryUsage(m)
    ensures Drift(Defragged(cfg, s, x, m)) == Drift(s) + UsageOf(s.live[x]) - MemoryUsage(m)
  {
    hide ManOk, ManDefrag, TotalUsage;
    ManDefragOk(cfg, m);
    DriftOfSet(s, Defragged(cfg, s, x, m), x);
  }

  lemma NewWriteDrift(cfg: Config, s: State, x: uint64, y: uint64, record: seq<byte>)
    requires x !in s.live
    ensures Drift(Written(cfg, s, x, y, record)) == Drift(s)
  {
    hide ManWrite, MemoryUsage, TotalUsage;
    DriftOfSet(s, Written(cfg, s, x, y, record), x);
  }

  lemma KeptByWrite(cfg: Config, m: Man, y: uint64, record: seq<byte>)
    requires GoodConfig(cfg) && ManOk(cfg, m) && |record| >= 1
    requires |record| <= MAX_RECORD_SIZE ==> !LooksPacked(cfg, record)
    requires LimitInForce(cfg) || |m.pages| < MAX_BLOCKS || |ManWrite(cfg, m, y, record).0.pages| == |m.pages|
    ensures var (m', st) := ManWrite(cfg, m, y, record);
            && ManOk(cfg, m') && (st.TooBig? || st.oldRecord ==> m' == m)
            && |m'.pages| == |m.pages| + (if st.Done? && st.reallocated then 1 else 0)
            && (st.Done? && st.needDefrag ==> |m'.index| == |m.index|)
  {
    hide ManOk, ManWrite, LooksPacked, Contents, Writes.Touched, Readable, LimitedPut, Reports;
    ManWriteOk(cfg, m, y, record);
  }

  lemma OldWriteDrift(cfg: Config, s: State, x: uint64, y: uint64, record: seq<byte>)
    requires GoodConfig(cfg) && Inv(cfg, s) && x in s.live && s.live[x].man.Some?
    requires |record| >= 1 && (|record| <= MAX_RECORD_SIZE ==> !LooksPacked(cfg, record))
    requires var m := s.live[x].man.value;
             LimitInForce(cfg) || |m.pages| < MAX_BLOCKS || |ManWrite(cfg, m, y, record).0.pages| == |m.pages|
    ensures Drift(Written(cfg, s, x, y, record)) == Drift(s) - Forgotten(cfg, s, WriteXY(x, y, record))
  {
    hide Inv, ManOk, ManWrite, LooksPacked, TotalUsage, ManDefrag, GrowsAtLimit, Written, Defragged, MemoryUsage,
         Drift, AfterWrite;
    var m := s.live[x].man.value;
    var (m', st) := ManWrite(cfg, m, y, record);
    InMemory(cfg, s, x);
    KeptByWrite(cfg, m, y, record);
    ForgottenIff(cfg, m, y, record);
    WrittenIs(cfg, s, x, y, record);
    AfterWriteDrift(cfg, s, x, m', st, MemoryUsage(m') - MemoryUsage(m));
    if st.Done? && st.needDefrag && !st.oldRecord {
      DefragDrift(cfg, s, x, m');
      SizeUsage(m, m');
    }
  }

  lemma SizeUsage(m: Man, m': Man)
    requires |m'.index| == |m.index|
    ensures MemoryUsage(m') == MemoryUsage(m) + BLOCK_SIZE * (|m'.pages| - |m.pages|)
  {
  }

  /** What WriteData does after the write counts the change of a manager that is not defragmented. */
  lemma AfterWriteDrift(cfg: Config, s: State, x: uint64, m: Man, st: Status, delta: int)
    requires x in s.live && s.live[x].man.Some? && delta == MemoryUsage(m) - MemoryUsage(s.live[x].man.value)
    ensures st.Done? && st.needDefrag && !st.oldRecord ==>
              AfterWrite(cfg, s, x, m, st, delta) == Defragged(cfg, s, x, m)
    ensures !(st.Done? && st.needDefrag && !st.oldRecord) ==> Drift(AfterWrite(cfg, s, x, m, st, delta)) == Drift(s)
  {
    hide MemoryUsage, TotalUsage, Defragged;
    if st.Done? && (st.oldRecord || !st.needDefrag) {
      DriftOfSet(s, AfterWrite(cfg, s, x, m, st, delta), x);
    }
  }

  lemma ForgottenIff(cfg: Config, m: Man, y: uint64, record: seq<byte>)
    requires GoodConfig(cfg) && ManOk(cfg, m) && |record| >= 1
    requires LimitInForce(cfg) || |m.pages| < MAX_BLOCKS || |ManWrite(cfg, m, y, record).0.pages| == |m.pages|
    ensures var st := ManWrite(cfg, m, y, record).1;
            st.Done? && st.needDefrag && !st.oldRecord && st.reallocated
            <==> GrowsAtLimit(cfg, m, y, record) && cfg.defragAfterRecordDelete <= 1
  {
    hide Valid, Write, AllCanonical, GrowsAtLimit;
    WritableRecord(cfg, record);
    if LimitInForce(cfg) {
      WriteGrowth(cfg, m, y, record);
    }
    GrowsAtLimitIff(cfg, m, y, record);
  }

  lemma WriteDrift(cfg: Config, s: State, x: uint64, y: uint64, record: seq<byte>)
    requires GoodConfig(cfg) && Inv(cfg, s) && WriteEnabled(cfg, s, x, y, record)
    ensures Drift(Written(cfg, s, x, y, record)) == Drift(s) - Forgotten(cfg, s, WriteXY(x, y, record))
  {
    hide Inv, ManWrite, LooksPacked, Written, DiskMan, TotalUsage, GrowsAtLimit;
    if x !in s.live {
      NewWriteDrift(cfg, s, x, y, record);
    } else {
      LoadedOk(cfg, s, x);
      LoadedWrite(cfg, s, x, y, record);
      LoadedIsManOf(s, x);
      LoadDrift(s, x);
      OldWriteDrift(cfg, Loaded(s, x), x, y, record);
    }
  }

  lemma DeleteXYDrift(s: State, x: uint64, y: uint64)
    ensures Drift(RecordDeleted(s, x, y)) == Drift(s)
  {
    hide ManDelete, MemoryUsage, TotalUsage, Loaded;
    if x in s.live {
      var s1 := Loaded(s, x);
      LoadDrift(s, x);
      if s1.live[x].man.Some? {
        DriftOfSet(s1, RecordDeleted(s, x, y), x);
      }
    }
  }

  lemma DefragStepDrift(cfg: Config, s: State, x: uint64)
    requires GoodConfig(cfg) && Inv(cfg, s)
    ensures Drift(DefragStep(cfg, s, x)) == Drift(s)
  {
    hide Inv, ManOk, TotalUsage, Loaded, Defragged;
    if x in s.live {
      var s1 := Loaded(s, x);
      LoadedOk(cfg, s, x);
      LoadDrift(s, x);
      InMemory(cfg, s1, x);
      DefragDrift(cfg, s1, x, s1.live[x].man.value);
    }
  }

  lemma EvictDrift(s: State, x: uint64)
    ensures Drift(Evicted(s, x)) == Drift(s)
  {
    hide MemoryUsage, TotalUsage;
    if x in s.live && !s.live[x].inQueue && s.live[x].man.Some? {
      DriftOfSet(s, Evicted(s, x), x);
    }
  }

  lemma DeleteXDrift(s: State, x: uint64)
    ensures Drift(Deleted(s, x)) == Drift(s)
  {
    hide MemoryUsage, TotalUsage;
    if x in s.live {
      TotalWithout(s.live, x);
    }
  }

  lemma FlushDrift(cfg: Config, s: State, x: uint64)
    requires Inv(cfg, s) && x in s.flushing && CanFlush(s, x)
    ensures Drift(Flushed(cfg, s, x)) == Drift(s)
  {
    hide Inv, TotalUsage, Flushed, SlotChanged, Has, IsEmpty;
    if x in s.live {
      ReadyToFlush(cfg, s, x);
      FlushItemOk(cfg, s, x, s.live[x].man.value);
      DriftOfSet(s, Flushed(cfg, s, x), x);
    } else {
      NotFlushed(cfg, s, x);
    }
  }

  /** Exactly one thing makes the accounting drift: a write that evicts at the record limit, with
      DefragAfterRecordDelete at most 1, and grows the record; its new page is never counted. */
  lemma DriftStep(cfg: Config, s: State, step: Step)
    requires GoodConfig(cfg) && Inv(cfg, s) && Enabled(cfg, s, step)
    ensures Drift(Apply(cfg, s, step)) == Drift(s) - Forgotten(cfg, s, step)
    ensures Forgotten(cfg, s, step) > 0 ==>
              cfg.enableRecordLimit && cfg.recordLimit >= 2 && cfg.defragAfterRecordDelete <= 1
  {
    hide Inv, Written, RecordDeleted, Deleted, DefragStep, Loaded, Evicted, Erased, Flushed, Freed, Rebuilt,
         WriteEnabled, TotalUsage, GrowsAtLimit;
    match step
    case WriteXY(x, y, record) =>
      WriteDrift(cfg, s, x, y, record);
      if Forgotten(cfg, s, step) > 0 {
        ForgottenNeeds(cfg, s, x, y, record);
      }
    case DeleteXY(x, y) => DeleteXYDrift(s, x, y);
    case DeleteX(x) => DeleteXDrift(s, x);
    case RemoveFromQueue(x) =>
    case DefragX(x) => DefragStepDrift(cfg, s, x);
    case ReadX(x) => if x in s.live { LoadDrift(s, x); }
    case Evict(x) => EvictDrift(s, x);
    case TakeDeletions =>
    case EraseOne(x) => EraseKeepsMemory(s, x);
    case TakeQueue =>
    case FlushOne(x) => FlushDrift(cfg, s, x);
    case FreeOne(x) => FreeKeepsMemory(s, x);
    case RebuildFree => RebuildKeepsMemory(s);
  }

  lemma EraseKeepsMemory(s: State, x: uint64)
    ensures Erased(s, x).live == s.live && Erased(s, x).memUsed == s.memUsed
  {
  }

  lemma FreeKeepsMemory(s: State, x: uint64)
    ensures Freed(s, x).live == s.live && Freed(s, x).memUsed == s.memUsed
  {
  }

  lemma RebuildKeepsMemory(s: State)
    ensures Rebuilt(s).live == s.live && Rebuilt(s).memUsed == s.memUsed
  {
  }

  lemma ForgottenNeeds(cfg: Config, s: State, x: uint64, y: uint64, record: seq<byte>)
    requires GoodConfig(cfg) && Inv(cfg, s) && Forgotten(cfg, s, WriteXY(x, y, record)) > 0
    ensures cfg.enableRecordLimit && cfg.recordLimit >= 2 && cfg.defragAfterRecordDelete <= 1
  {
    hide Inv, DiskMan, GrowsAtLimit, Valid, AllCanonical;
    LoadedOk(cfg, s, x);
    LoadedIsManOf(s, x);
    InMemory(cfg, Loaded(s, x), x);
    GrowthNeedsTwo(cfg, ManOf(s.file, s.live[x]), y, record);
  }

  /** All pages that the steps of a run forget. */
  ghost function ForgottenBy(cfg: Config, s: State, steps: seq<Step>): nat {
    if steps == [] then 0
    else
      var n := |steps| - 1;
      ForgottenBy(cfg, s, steps[..n]) + Forgotten(cfg, Run(cfg, s, steps[..n]), steps[n])
  }

  /** After any run the accounting is off by exactly the forgotten pages. */
  lemma {:induction false} DriftRun(cfg: Config, s: State, steps: seq<Step>)
    requires GoodConfig(cfg) && Inv(cfg, s) && Legal(cfg, s, steps)
    ensures Drift(Run(cfg, s, steps)) == Drift(s) - ForgottenBy(cfg, s, steps)
    ensures ForgottenBy(cfg, s, steps) > 0 ==>
              cfg.enableRecordLimit && cfg.recordLimit >= 2 && cfg.defragAfterRecordDelete <= 1
  {
    hide Inv, Apply, Enabled, Drift, Forgotten;
    if steps != [] {
      var n := |steps| - 1;
      LegalPrefix(cfg, s, steps, n);
      DriftRun(cfg, s, steps[..n]);
      RunOk(cfg, s, steps[..n]);
      DriftStep(cfg, Run(cfg, s, steps[..n]), steps[n]);
    }
  }

  // ----- which servers drift

  /** The accounting is exact in every run of a new store. */
  ghost predicate NeverDrifts(cfg: Config) {
    forall steps :: Legal(cfg, NewStore(cfg), steps) ==> Drift(Run(cfg, NewStore(cfg), steps)) == 0
  }

  function SmallSteps(x: uint64, small: seq<byte>, n: nat): (steps: seq<Step>)
    requires n <= MAX_BLOCKS
    ensures |steps| == n && forall i :: 0 <= i < n ==> steps[i] == WriteXY(x, i, small)
  {
    seq(n, i requires 0 <= i < n => WriteXY(x, i, small))
  }

  lemma WrittenManager(cfg: Config, s: State, x: uint64, y: uint64, record: seq<byte>)
    requires x in s.live ==> s.live[x].man.Some?
    requires var m := if x in s.live then s.live[x].man.value else Fresh();
             ManWrite(cfg, m, y, record).1.Done? && !ManWrite(cfg, m, y, record).1.needDefrag
    ensures var m := if x in s.live then s.live[x].man.value else Fresh();
            var s' := Written(cfg, s, x, y, record);
            && s'.live.Keys == s.live.Keys + {x}
            && s'.live[x].man == Some(ManWrite(cfg, m, y, record).0)
  {
    hide ManWrite, MemoryUsage;
    if x in s.live {
      assert Loaded(s, x) == s;
    }
  }

  /** Writing the keys 0, 1, ... below the limit, all small. */
  lemma {:induction false} SmallRun(cfg: Config, x: uint64, small: seq<byte>, n: nat)
    requires GoodConfig(cfg) && LimitInForce(cfg) && |small| == 1 && !LooksPacked(cfg, small) && n <= cfg.recordLimit
    ensures Legal(cfg, NewStore(cfg), SmallSteps(x, small, n)) && Storable(cfg, SmallWrites(small, n))
    ensures var s := Run(cfg, NewStore(cfg), SmallSteps(x, small, n));
            && s.live.Keys == (if n > 0 then {x} else {})
            && (n > 0 ==> s.live[x].man == Some(WriteAll(cfg, SmallWrites(small, n))))
  {
    hide Inv, Run, Legal, Written, WriteAll, LooksPacked, Write, Stored, ManWrite, NewStore, SmallOk, Enabled;
    var steps, ws := SmallSteps(x, small, n), SmallWrites(small, n);
    SmallWritesOk(cfg, small, n);
    if n == 0 {
      NoRunYet(cfg, NewStore(cfg));
      NewStoreIs(cfg);
    } else {
      var before := SmallSteps(x, small, n - 1);
      assert steps == before + [WriteXY(x, n - 1, small)] && ws[..n - 1] == SmallWrites(small, n - 1);
      SmallRun(cfg, x, small, n - 1);
      var s := Run(cfg, NewStore(cfg), before);
      SmallEnabled(cfg, s, x, n - 1, small);
      LegalAppend(cfg, NewStore(cfg), before, WriteXY(x, n - 1, small));
      SmallNext(cfg, s, x, small, n - 1);
    }
  }

  lemma SmallNext(cfg: Config, s: State, x: uint64, small: seq<byte>, n: nat)
    requires GoodConfig(cfg) && LimitInForce(cfg) && |small| == 1 && n < cfg.recordLimit
    requires Storable(cfg, SmallWrites(small, n)) && Storable(cfg, SmallWrites(small, n + 1))
    requires s.live.Keys == (if n > 0 then {x} else {})
    requires n > 0 ==> s.live[x].man == Some(WriteAll(cfg, SmallWrites(small, n)))
    ensures var s' := Apply(cfg, s, WriteXY(x, n, small));
            s'.live.Keys == {x} && s'.live[x].man == Some(WriteAll(cfg, SmallWrites(small, n + 1)))
  {
    hide Written, WriteAll, ManWrite, Storable;
    SmallStep(cfg, small, n);
    WrittenManager(cfg, s, x, n, small);
  }

  lemma NoRunYet(cfg: Config, s: State)
    ensures Legal(cfg, s, []) && Run(cfg, s, []) == s
  {
  }

  lemma SmallEnabled(cfg: Config, s: State, x: uint64, y: uint64, record: seq<byte>)
    requires LimitInForce(cfg) && |record| >= 1 && !LooksPacked(cfg, record)
    ensures Enabled(cfg, s, WriteXY(x, y, record))
  {
    hide ManWrite;
  }

  /** The manager after one more small write. */
  lemma SmallStep(cfg: Config, small: seq<byte>, n: nat)
    requires GoodConfig(cfg) && LimitInForce(cfg) && |small| == 1 && n < cfg.recordLimit
    requires Storable(cfg, SmallWrites(small, n)) && Storable(cfg, SmallWrites(small, n + 1))
    ensures var m := WriteAll(cfg, SmallWrites(small, n));
            && ManWrite(cfg, m, n, small).0 == WriteAll(cfg, SmallWrites(small, n + 1))
            && ManWrite(cfg, m, n, small).1.Done? && !ManWrite(cfg, m, n, small).1.needDefrag
            && (n == 0 ==> m == Fresh())
  {
    hide Valid, Write, Stored, LimitedPut;
    SmallWritesOk(cfg, small, n);
    SmallStored(cfg, small);
    var ws, m := SmallWrites(small, n + 1), WriteAll(cfg, SmallWrites(small, n));
    assert ws[..n] == SmallWrites(small, n);
    SmallWriteOk(cfg, m, small, n);
    WriteGrowth(cfg, m, n, small);
    WriteCorrect(cfg, m, n, small);
  }

  /** A limit of at least 2 in force and DefragAfterRecordDelete at most 1: small records under the keys
      0, 1, ... up to the limit, then one of the largest size, and a page is lost to the accounting. */
  lemma DriftingRun(cfg: Config, x: uint64, small: seq<byte>, big: seq<byte>)
    requires GoodConfig(cfg) && LimitInForce(cfg) && cfg.recordLimit >= 2 && cfg.defragAfterRecordDelete <= 1
    requires PlainPair(cfg, small, big)
    ensures var steps := SmallSteps(x, small, cfg.recordLimit) + [WriteXY(x, cfg.recordLimit, big)];
            Legal(cfg, NewStore(cfg), steps) && Drift(Run(cfg, NewStore(cfg), steps)) <= -BLOCK_SIZE
  {
    hide Inv, Run, Legal, WriteAll, LooksPacked, Stored, NewStore, SmallOk, GrowsAtLimit, Drift, Enabled;
    var n, before := cfg.recordLimit, SmallSteps(x, small, cfg.recordLimit);
    var last := WriteXY(x, n, big);
    SmallRun(cfg, x, small, n);
    SmallWritesOk(cfg, small, n);
    BigGrows(cfg, WriteAll(cfg, SmallWrites(small, n)), small, big);
    var s := Run(cfg, NewStore(cfg), before);
    SmallEnabled(cfg, s, x, n, big);
    LegalAppend(cfg, NewStore(cfg), before, last);
    NewStoreOk(cfg);
    NoDriftYet(cfg);
    DriftRun(cfg, NewStore(cfg), before);
    RunOk(cfg, NewStore(cfg), before);
    DriftStep(cfg, s, last);
  }

  lemma NoDriftYet(cfg: Config)
    ensures Drift(NewStore(cfg)) == 0
  {
    NewStoreIs(cfg);
  }

  /** Exactly which servers count their memory right in every run: those without a record limit, with a
      limit of 1, or with DefragAfterRecordDelete at least 2. */
  lemma NeverDriftsIff(cfg: Config, small: seq<byte>, big: seq<byte>)
    requires GoodConfig(cfg) && (cfg.enableRecordLimit ==> LimitInForce(cfg)) && PlainPair(cfg, small, big)
    ensures NeverDrifts(cfg) <==>
              !cfg.enableRecordLimit || cfg.recordLimit == 1 || cfg.defragAfterRecordDelete >= 2
  {
    hide Inv, Run, Legal, NewStore, Drift, PlainPair;
    if !cfg.enableRecordLimit || cfg.recordLimit == 1 || cfg.defragAfterRecordDelete >= 2 {
      forall steps | Legal(cfg, NewStore(cfg), steps) ensures Drift(Run(cfg, NewStore(cfg), steps)) == 0 {
        NewStoreOk(cfg);
        NoDriftYet(cfg);
        DriftRun(cfg, NewStore(cfg), steps);
      }
    } else {
      DriftingRun(cfg, 0, small, big);
    }
  }

  // ----- the counter below zero

  /** A sum below zero wraps to a counter above every sensible limit. */
  lemma NegativeIsHuge(memUsed: int, limit: nat)
    requires -0x8000_0000_0000_0000 <= memUsed < 0 && limit < 0x8000_0000_0000_0000
    ensures Counter(memUsed) > limit
  {
  }

  lemma {:induction false} EvictedAllUsage(s: State, keys: seq<uint64>)
    ensures Drift(EvictedAll(s, keys)) == Drift(s) && EvictedAll(s, keys).memUsed <= s.memUsed
  {
    hide Drift, Evicted;
    if keys != [] {
      var n := |keys| - 1;
      EvictedAllUsage(s, keys[..n]);
      EvictDrift(EvictedAll(s, keys[..n]), keys[n]);
      EvictedLess(EvictedAll(s, keys[..n]), keys[n]);
    }
  }

  lemma EvictedLess(s: State, x: uint64)
    ensures Evicted(s, x).memUsed <= s.memUsed
  {
    hide MemoryUsage;
  }

  /** Once the sum is below zero, no eviction brings the counter below the limit: CheckMemory stops only at
      the end of the list or at a record that waits for the storage thread. */
  lemma NegativeNeverFits(s: State, keys: seq<uint64>, n: nat, limit: nat)
    requires n <= |keys| && s.memUsed < 0 && Drift(s) >= -0x8000_0000_0000_0000 && limit < 0x8000_0000_0000_0000
    ensures Counter(EvictedAll(s, keys[..n]).memUsed) > limit
  {
    hide Counter, TotalUsage;
    EvictedAllUsage(s, keys[..n]);
    NegativeIsHuge(EvictedAll(s, keys[..n]).memUsed, limit);
  }

  /** It gets there: after the drifting run, deleting the only x leaves a sum below zero. */
  lemma NegativeRun(cfg: Config, x: uint64, small: seq<byte>, big: seq<byte>)
    requires GoodConfig(cfg) && LimitInForce(cfg) && cfg.recordLimit >= 2 && cfg.defragAfterRecordDelete <= 1
    requires PlainPair(cfg, small, big)
    ensures var steps := SmallSteps(x, small, cfg.recordLimit) + [WriteXY(x, cfg.recordLimit, big)] + [DeleteX(x)];
            Legal(cfg, NewStore(cfg), steps) && Run(cfg, NewStore(cfg), steps).memUsed <= -BLOCK_SIZE
  {
    hide Inv, Run, Legal, WriteAll, LooksPacked, Stored, NewStore, SmallOk, TotalUsage, Enabled, Written, WriteEnabled;
    var before, last := SmallSteps(x, small, cfg.recordLimit), WriteXY(x, cfg.recordLimit, big);
    DriftingRun(cfg, x, small, big);
    SmallRun(cfg, x, small, cfg.recordLimit);
    var s, s1 := Run(cfg, NewStore(cfg), before), Run(cfg, NewStore(cfg), before + [last]);
    LegalPrefix(cfg, NewStore(cfg), before + [last], |before|);
    assert (before + [last])[..|before|] == before;
    LastStep(cfg, NewStore(cfg), before, last);
    OnlyRecord(cfg, s, x, cfg.recordLimit, big);
    LegalAppend(cfg, NewStore(cfg), before + [last], DeleteX(x)) by {
      DeleteEnabled(cfg, s1, x);
    }
    DeleteXDrift(s1, x);
    NothingLive(Deleted(s1, x), s1, x);
  }

  lemma LastStep(cfg: Config, s: State, steps: seq<Step>, step: Step)
    ensures Run(cfg, s, steps + [step]) == Apply(cfg, Run(cfg, s, steps), step)
  {
    hide Apply;
    assert (steps + [step])[..|steps|] == steps;
  }

  lemma DeleteEnabled(cfg: Config, s: State, x: uint64)
    ensures Enabled(cfg, s, DeleteX(x))
  {
  }

  lemma OnlyRecord(cfg: Config, s: State, x: uint64, y: uint64, record: seq<byte>)
    requires s.live.Keys == {x}
    ensures Written(cfg, s, x, y, record).live.Keys == {x}
  {
    hide Written;
    WrittenOneRecord(cfg, s, x, y, record);
  }

  lemma NothingLive(s: State, before: State, x: uint64)
    requires s == Deleted(before, x) && before.live.Keys == {x}
    ensures TotalUsage(s.live) == 0
  {
    hide MemoryUsage;
    assert s.live.Keys == {};
    assert s.live == map[];
  }
}
