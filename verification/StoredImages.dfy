/** The data file behind every slot of the index file, also behind the slots that leaked: nobody ever
    writes there, so that the files can be opened again whatever happened. */
module StoredImages {
  import opened Bytes
  import opened Config
  import opened Loading
  import opened FreeSpace
  import opened IndexFile
  import opened Store
  import opened Invariant
  import opened ClientSteps
  import opened SpaceSteps
  import opened FlushSteps
  import opened FlushItem
  import opened Engine
  import opened Lifecycle

  /** The stored pages that a slot names are those of a sound manager, under the right checksum. */
  ghost predicate SlotImageOk(cfg: Config, file: seq<byte>, index: Index, t: Slot) {
    && Has(index, t)
    && var d := DrecAt(index, t);
       && d.start >= 0 && d.blockCount >= 1 && InFile(file, d.start, d.blockCount)
       && ImageOk(cfg, DiskBytes(file, d.start, d.blockCount), d.blockCount, d.crc)
  }

  ghost predicate ImagesOk(cfg: Config, s: State) {
    forall t :: Has(s.index, t) ==> SlotImageOk(cfg, s.file, s.index, t)
  }

  lemma SameFiles(cfg: Config, s: State, s': State)
    requires ImagesOk(cfg, s) && s'.index == s.index && s'.file == s.file
    ensures ImagesOk(cfg, s')
  {
    hide Has, SlotImageOk;
  }

  /** A slot whose record did not change, with bytes that did not change. */
  lemma ImageFrame(cfg: Config, file: seq<byte>, index: Index, file': seq<byte>, index': Index, t: Slot)
    requires SlotImageOk(cfg, file, index, t)
    requires Has(index', t) && DrecAt(index', t) == DrecAt(index, t)
    requires var d := DrecAt(index, t);
             && InFile(file', d.start, d.blockCount)
             && DiskBytes(file', d.start, d.blockCount) == DiskBytes(file, d.start, d.blockCount)
    ensures SlotImageOk(cfg, file', index', t)
  {
    hide ImageOk, IsEmpty, DiskBytes, InFile;
  }

  lemma EraseImages(cfg: Config, s: State, x: uint64)
    requires Inv(cfg, s) && x in s.erasing && ImagesOk(cfg, s)
    ensures ImagesOk(cfg, Erased(s, x))
  {
    hide RecordOk, DeletionOk, IndexInv, SpaceOk, EraseDrec, AddFree, IsEmpty, SlotImageOk, SlotChanged;
    var s', d := Erased(s, x), s.erasing[x];
    if d.slot.Some? {
      ErasedSpace(s, x);
      forall t | Has(s'.index, t) ensures SlotImageOk(cfg, s'.file, s'.index, t) {
        ErasedSlotGone(s.index, s'.index, d.slot.value, t);
        ImageInFile(cfg, s.file, s.index, t);
        ImageFrame(cfg, s.file, s.index, s'.file, s'.index, t);
      }
    } else {
      SameFiles(cfg, s, s');
    }
  }

  lemma ErasedSlotGone(x: Index, y: Index, slot: Slot, t: Slot)
    requires SlotChanged(x, y, slot, EMPTY) && Has(y, t)
    ensures t != slot && Has(x, t) && DrecAt(x, t) == DrecAt(y, t)
  {
  }

  lemma ImageInFile(cfg: Config, file: seq<byte>, index: Index, t: Slot)
    requires SlotImageOk(cfg, file, index, t)
    ensures Has(index, t) && InFile(file, DrecAt(index, t).start, DrecAt(index, t).blockCount)
  {
    hide ImageOk, InFile, IsEmpty;
  }

  /** The image of a record that has a slot. */
  lemma RecordImage(cfg: Config, file: seq<byte>, index: Index, x: uint64, r: RecordIndex)
    requires RecordOk(cfg, file, index, x, r) && r.slot.Some?
    ensures SlotImageOk(cfg, file, index, r.slot.value)
  {
    hide ManOk, ImageOk, MatchOk, Has;
  }

  lemma FlushImages(cfg: Config, s: State, x: uint64)
    requires Inv(cfg, s) && x in s.flushing && CanFlush(s, x) && ImagesOk(cfg, s)
    ensures ImagesOk(cfg, Flushed(cfg, s, x))
  {
    hide Inv, Flushed, SlotChanged, IsEmpty, SlotImageOk, SameOutside, Cleaned, RecordOk;
    var s' := Flushed(cfg, s, x);
    if x in s.live {
      ReadyToFlush(cfg, s, x);
      FlushItemOk(cfg, s, x, s.live[x].man.value);
      RecordOf(cfg, s', x);
      RecordImage(cfg, s'.file, s'.index, x, s'.live[x]);
      forall t | Has(s'.index, t) && t != s'.live[x].slot.value ensures SlotImageOk(cfg, s'.file, s'.index, t) {
        OtherImage(cfg, s, s', x, t);
      }
    } else {
      NotFlushed(cfg, s, x);
      SameFiles(cfg, s, s');
    }
  }

  lemma OtherImage(cfg: Config, s: State, s': State, x: uint64, t: Slot)
    requires x in s.live && s.live[x].man.Some? && ItemFlushed(s, s', x, s.live[x].man.value)
    requires Inv(cfg, s') && ImagesOk(cfg, s) && Has(s'.index, t) && t != s'.live[x].slot.value
    ensures SlotImageOk(cfg, s'.file, s'.index, t)
  {
    hide Inv, SlotChanged, IsEmpty, SlotImageOk, Cleaned, DiskBytes, SpaceOk, IndexInv;
    var r := s'.live[x];
    var d := Drec(x, r.start, r.crc, r.blockCount);
    OtherSlot(s.index, s'.index, r.slot.value, d, t);
    InvIndex(cfg, s');
    SlotDisjoint(s'.index, s'.deferred, s'.free, |s'.file|, r.slot.value, d, s.index, t);
    ImageInFile(cfg, s.file, s.index, t);
    ImageFrame(cfg, s.file, s.index, s'.file, s'.index, t);
  }

  lemma OtherSlot(x: Index, y: Index, slot: Slot, d: Drec, t: Slot)
    requires SlotChanged(x, y, slot, d) && Has(y, t) && t != slot
    ensures Has(x, t) && DrecAt(x, t) == DrecAt(y, t)
  {
  }

  /** Every step keeps the image behind every occupied slot. */
  lemma StepImages(cfg: Config, s: State, step: Step)
    requires GoodConfig(cfg) && Inv(cfg, s) && Enabled(cfg, s, step) && ImagesOk(cfg, s)
    ensures ImagesOk(cfg, Apply(cfg, s, step))
  {
    hide Inv, ImagesOk, Written, RecordDeleted, Deleted, DefragStep, Loaded, Evicted, Erased, Flushed, Freed, Rebuilt,
         WriteEnabled, AtMostOneRecord;
    match step
    case DeleteX(x) => DeletedFiles(s, x); SameFiles(cfg, s, Deleted(s, x));
    case EraseOne(x) => EraseImages(cfg, s, x);
    case FlushOne(x) => FlushImages(cfg, s, x);
    case FreeOne(x) => FreedFiles(s, x); SameFiles(cfg, s, Freed(s, x));
    case RebuildFree => FreedFiles(s, 0); SameFiles(cfg, s, Rebuilt(s));
    case RemoveFromQueue(x) => SameFiles(cfg, s, Apply(cfg, s, step));
    case TakeDeletions => SameFiles(cfg, s, Apply(cfg, s, step));
    case TakeQueue => SameFiles(cfg, s, Apply(cfg, s, step));
    case _ =>
      var x := OneRecordStep(cfg, s, step);
      OneRecordFiles(s, Apply(cfg, s, step), x);
      SameFiles(cfg, s, Apply(cfg, s, step));
  }

  lemma OneRecordFiles(s: State, s': State, x: uint64)
    requires AtMostOneRecord(s, s', x)
    ensures s'.index == s.index && s'.file == s.file
  {
  }

  lemma DeletedFiles(s: State, x: uint64)
    ensures Deleted(s, x).index == s.index && Deleted(s, x).file == s.file
  {
  }

  lemma FreedFiles(s: State, x: uint64)
    ensures Freed(s, x).index == s.index && Freed(s, x).file == s.file
    ensures Rebuilt(s).index == s.index && Rebuilt(s).file == s.file
  {
  }

  lemma {:induction false} RunImages(cfg: Config, s: State, steps: seq<Step>)
    requires GoodConfig(cfg) && Inv(cfg, s) && Legal(cfg, s, steps) && ImagesOk(cfg, s)
    ensures ImagesOk(cfg, Run(cfg, s, steps))
  {
    hide Inv, ImagesOk, Apply, Enabled;
    if steps != [] {
      var n := |steps| - 1;
      LegalPrefix(cfg, s, steps, n);
      RunImages(cfg, s, steps[..n]);
      RunOk(cfg, s, steps[..n]);
      StepImages(cfg, Run(cfg, s, steps[..n]), steps[n]);
    }
  }

  // ----- leaked slots

  /** A leaked slot keeps what it names, whatever happens. */
  lemma LeakStays(cfg: Config, s: State, step: Step, t: Slot)
    requires GoodConfig(cfg) && Inv(cfg, s) && Enabled(cfg, s, step) && t in Leaked(s)
    ensures var s' := Apply(cfg, s, step);
            t in Leaked(s') && Has(s.index, t) && Has(s'.index, t) && DrecAt(s'.index, t) == DrecAt(s.index, t)
  {
    hide Inv, Written, RecordDeleted, Deleted, DefragStep, Loaded, Evicted, Erased, Flushed, Freed, Rebuilt,
         WriteEnabled, AtMostOneRecord, Claimed, IsEmpty, DrecAt;
    LeakStep(cfg, s, step);
    match step
    case DeleteX(x) => DeletedFiles(s, x);
    case EraseOne(x) => EraseKeepsLeak(cfg, s, x, t);
    case FlushOne(x) => FlushKeepsLeak(cfg, s, x, t);
    case FreeOne(x) => FreedFiles(s, x);
    case RebuildFree => FreedFiles(s, 0);
    case RemoveFromQueue(x) =>
    case TakeDeletions =>
    case TakeQueue =>
    case _ =>
      var x := OneRecordStep(cfg, s, step);
      OneRecordFiles(s, Apply(cfg, s, step), x);
  }

  lemma EraseKeepsLeak(cfg: Config, s: State, x: uint64, t: Slot)
    requires Inv(cfg, s) && x in s.erasing && t in Leaked(s) && t in Leaked(Erased(s, x))
    ensures DrecAt(Erased(s, x).index, t) == DrecAt(s.index, t)
  {
    hide RecordOk, DeletionOk, IndexInv, SpaceOk, EraseDrec, AddFree, IsEmpty, SlotChanged, Claimed;
    if s.erasing[x].slot.Some? {
      ErasedSpace(s, x);
      ErasedSlotGone(s.index, Erased(s, x).index, s.erasing[x].slot.value, t);
    }
  }

  lemma FlushKeepsLeak(cfg: Config, s: State, x: uint64, t: Slot)
    requires Inv(cfg, s) && x in s.flushing && CanFlush(s, x) && t in Leaked(s) && t in Leaked(Flushed(cfg, s, x))
    ensures DrecAt(Flushed(cfg, s, x).index, t) == DrecAt(s.index, t)
  {
    hide Inv, Flushed, SlotChanged, IsEmpty, SameOutside, Cleaned;
    if x in s.live {
      ReadyToFlush(cfg, s, x);
      FlushItemOk(cfg, s, x, s.live[x].man.value);
      var s' := Flushed(cfg, s, x);
      var r := s'.live[x];
      assert Claimed(s', r.slot.value);
      OtherSlot(s.index, s'.index, r.slot.value, Drec(x, r.start, r.crc, r.blockCount), t);
    } else {
      NotFlushed(cfg, s, x);
    }
  }

  lemma {:induction false} LeakStaysRun(cfg: Config, s: State, steps: seq<Step>, t: Slot)
    requires GoodConfig(cfg) && Inv(cfg, s) && Legal(cfg, s, steps) && t in Leaked(s)
    ensures var s' := Run(cfg, s, steps);
            t in Leaked(s') && Has(s.index, t) && Has(s'.index, t) && DrecAt(s'.index, t) == DrecAt(s.index, t)
  {
    hide Inv, Apply, Enabled, Claimed, IsEmpty, DrecAt;
    if steps != [] {
      var n := |steps| - 1;
      LegalPrefix(cfg, s, steps, n);
      LeakStaysRun(cfg, s, steps[..n], t);
      RunOk(cfg, s, steps[..n]);
      LeakStays(cfg, Run(cfg, s, steps[..n]), steps[n], t);
    }
  }
}
