/** IndexBlock.cpp on values: index pages of 186 record slots, the set of pages with room, and
    what writing, erasing and scanning do. */
module IndexFile {
  import opened Bytes
  import opened Config
  import opened Sets

  const SLOTS := 186
  const DREC_SIZE := 22
  const DREC_AREA := 4092   // ICIDFOffset; 186 * 22

  const INDEX_BLOCK_SIZE := 4096
  const MAX_INDEX_BLOCKS := 0x10_0000   // 2^20 pages of 4096 bytes: where the 32-bit position wraps

  datatype Drec = Drec(key: uint64, start: int, crc: nat, blockCount: nat)

  /** A record slot: page number and slot number (byte offset / 22). */
  datatype Slot = Slot(page: nat, pos: nat)

  datatype IPage = IPage(slots: seq<Drec>, free: int)

  datatype Index = Index(pages: seq<IPage>, freeBlocks: set<nat>)

  const EMPTY := Drec(0, 0, 0, 0)

  /** IsEmptyDREC: all fields zero. */
  predicate IsEmpty(d: Drec) {
    d.key == 0 && d.start == 0 && d.blockCount == 0 && d.crc == 0
  }

  function Occupied(slots: seq<Drec>): nat {
    if slots == [] then 0
    else Occupied(slots[..|slots| - 1]) + if IsEmpty(slots[|slots| - 1]) then 0 else 1
  }

  ghost predicate PageInv(p: IPage) {
    |p.slots| == SLOTS && p.free + DREC_SIZE * Occupied(p.slots) == DREC_AREA
  }

  /** A page is in the set exactly when it has an empty slot, and every page can be addressed. */
  ghost predicate IndexInv(x: Index) {
    && |x.pages| <= MAX_INDEX_BLOCKS
    && (forall b :: 0 <= b < |x.pages| ==> PageInv(x.pages[b]))
    && forall b: nat :: b in x.freeBlocks <==> b < |x.pages| && Occupied(x.pages[b].slots) < SLOTS
  }

  predicate InRange(x: Index, s: Slot) {
    s.page < |x.pages| && s.pos < |x.pages[s.page].slots|
  }

  function DrecAt(x: Index, s: Slot): Drec
    requires InRange(x, s)
  {
    x.pages[s.page].slots[s.pos]
  }

  /** The slot holds a record. */
  predicate Has(x: Index, s: Slot) {
    InRange(x, s) && !IsEmpty(DrecAt(x, s))
  }

  // ----- addresses

  /** The position of a page in the file: a uint16 constant times a uint32 number, a product of 32 bits
      that is widened only afterwards. */
  function DiskPosition(b: nat): nat {
    (INDEX_BLOCK_SIZE * b) % 0x1_0000_0000
  }

  /** The page at that position. */
  function DiskPage(b: nat): (c: nat)
    ensures c <= b
  {
    DiskPosition(b) / INDEX_BLOCK_SIZE
  }

  /** A page number leads to its own page exactly below 2^20; from there on the pages start over. */
  lemma DiskPageIff(b: nat)
    ensures DiskPosition(b) == INDEX_BLOCK_SIZE * b <==> b < MAX_INDEX_BLOCKS
    ensures DiskPage(b) == b <==> b < MAX_INDEX_BLOCKS
    ensures DiskPage(b) == b % MAX_INDEX_BLOCKS
  {
  }

  /** Page 2^20 is read from, and written over, page 0. */
  lemma FirstAlias()
    ensures DiskPage(0x10_0000) == 0
  {
  }

  /** The file read at the position of page `b`, and with that position overwritten. */
  function ReadPage(pages: seq<IPage>, b: nat): IPage
    requires b < |pages|
  {
    pages[DiskPage(b)]
  }

  function WritePage(pages: seq<IPage>, b: nat, p: IPage): seq<IPage>
    requires b < |pages|
  {
    pages[DiskPage(b) := p]
  }

  /** Reading a page by its number is right for every file exactly below 2^20. */
  lemma ReadPageIff(b: nat)
    ensures (forall pages :: b < |pages| ==> ReadPage(pages, b) == pages[b]) <==> b < MAX_INDEX_BLOCKS
  {
    DiskPageIff(b);
    if b >= MAX_INDEX_BLOCKS {
      var pages := seq(b + 1, i => IPage([], i));
      assert ReadPage(pages, b) != pages[b];
    }
  }

  /** Writing a page by its number changes that page and no other exactly below 2^20. */
  lemma WritePageIff(pages: seq<IPage>, b: nat)
    requires b < |pages|
    ensures (forall p :: WritePage(pages, b, p) == pages[b := p]) <==> b < MAX_INDEX_BLOCKS
  {
    DiskPageIff(b);
    if b >= MAX_INDEX_BLOCKS {
      var p := pages[b].(free := pages[b].free + 1);
      assert WritePage(pages, b, p)[b] == pages[b] != pages[b := p][b];
    }
  }

  // ----- counting

  lemma {:induction false} OccupiedUpdate(slots: seq<Drec>, i: nat, d: Drec)
    requires i < |slots|
    ensures Occupied(slots[i := d])
         == Occupied(slots) - (if IsEmpty(slots[i]) then 0 else 1) + if IsEmpty(d) then 0 else 1
  {
    var n := |slots| - 1;
    if i == n {
      assert slots[i := d][..n] == slots[..n];
    } else {
      OccupiedUpdate(slots[..n], i, d);
      assert slots[i := d][..n] == slots[..n][i := d];
    }
  }

  lemma {:induction false} OccupiedBound(slots: seq<Drec>)
    ensures Occupied(slots) <= |slots|
    ensures Occupied(slots) < |slots| <==> exists i :: 0 <= i < |slots| && IsEmpty(slots[i])
  {
    if slots != [] {
      var n := |slots| - 1;
      OccupiedBound(slots[..n]);
      assert forall i :: 0 <= i < n ==> slots[..n][i] == slots[i];
    }
  }

  /** GetEmptyDREC: the first empty slot, or the number of slots. */
  function FirstEmpty(slots: seq<Drec>, from: nat): (i: nat)
    requires from <= |slots|
    ensures from <= i <= |slots|
    ensures i < |slots| ==> IsEmpty(slots[i])
    ensures forall j :: from <= j < i ==> !IsEmpty(slots[j])
    decreases |slots| - from
  {
    if from == |slots| then from
    else if IsEmpty(slots[from]) then from
    else FirstEmpty(slots, from + 1)
  }

  /** A page marked as having room has an empty slot: GetEmptyDREC does not return NULL there. */
  lemma FreeBlockHasSlot(x: Index, b: nat)
    requires IndexInv(x) && b in x.freeBlocks
    ensures b < |x.pages| && FirstEmpty(x.pages[b].slots, 0) < SLOTS == |x.pages[b].slots|
  {
    OccupiedBound(x.pages[b].slots);
  }

  // ----- writing

  /** The first block of the ordered set. */
  ghost function Lowest(blocks: set<nat>): (b: nat)
    requires exists b :: b in blocks
    ensures IsLeast(blocks, b)
  {
    LeastExists(blocks);
    var b :| IsLeast(blocks, b);
    b
  }

  function NewPage(d: Drec): (p: IPage)
    ensures |p.slots| == SLOTS && p.slots[0] == d && forall i :: 1 <= i < SLOTS ==> IsEmpty(p.slots[i])
  {
    IPage([d] + seq(SLOTS - 1, _ => EMPTY), DREC_AREA - DREC_SIZE)
  }

  /** WriteRecordIndexToDisk: rewrite the record's slot, or take an empty slot of the first page with
      room, or append a page. A page wrongly marked is unmarked and the search repeated. */
  ghost function WriteDrec(x: Index, slot: Option<Slot>, d: Drec): (Index, Slot)
    requires slot.Some? ==> InRange(x, slot.value)
    requires forall b :: b in x.freeBlocks ==> b < |x.pages|
    decreases |x.freeBlocks|
  {
    if slot.Some? then
      var s := slot.value;
      var p := x.pages[s.page];
      (x.(pages := x.pages[s.page := p.(slots := p.slots[s.pos := d])]), s)
    else if !exists b :: b in x.freeBlocks then
      var n := |x.pages|;
      (Index(x.pages + [NewPage(d)], x.freeBlocks + {n}), Slot(n, 0))
    else
      var b := Lowest(x.freeBlocks);
      var p := x.pages[b];
      var i := FirstEmpty(p.slots, 0);
      if i == |p.slots| then
        assert |x.freeBlocks - {b}| < |x.freeBlocks|;
        WriteDrec(x.(freeBlocks := x.freeBlocks - {b}), None, d)
      else
        var q := IPage(p.slots[i := d], p.free - DREC_SIZE);
        (Index(x.pages[b := q], if q.free < DREC_SIZE then x.freeBlocks - {b} else x.freeBlocks), Slot(b, i))
  }

  /** EraseRecord, for a record that has a slot. */
  function EraseDrec(x: Index, s: Slot): Index
    requires InRange(x, s)
  {
    var p := x.pages[s.page];
    Index(x.pages[s.page := IPage(p.slots[s.pos := EMPTY], p.free + DREC_SIZE)], x.freeBlocks + {s.page})
  }

  /** `y` is `x` with slot `s` holding `d`, every other slot as it was. */
  ghost predicate SlotChanged(x: Index, y: Index, s: Slot, d: Drec) {
    && InRange(y, s) && DrecAt(y, s) == d
    && forall t :: t != s ==> (Has(y, t) <==> Has(x, t)) && (Has(x, t) ==> DrecAt(y, t) == DrecAt(x, t))
  }

  lemma PageChange(x: Index, b: nat, i: nat, d: Drec, free: int, blocks: set<nat>)
    requires IndexInv(x) && b < |x.pages| && i < SLOTS
    requires var p := x.pages[b];
             free == p.free + DREC_SIZE * ((if IsEmpty(p.slots[i]) then 0 else 1) - if IsEmpty(d) then 0 else 1)
    requires forall c: nat :: c in blocks <==> if c == b then free >= DREC_SIZE else c in x.freeBlocks
    ensures var y := Index(x.pages[b := IPage(x.pages[b].slots[i := d], free)], blocks);
            IndexInv(y) && SlotChanged(x, y, Slot(b, i), d)
  {
    hide Occupied;
    var p := x.pages[b];
    OccupiedUpdate(p.slots, i, d);
    OccupiedBound(p.slots[i := d]);
    OccupiedBound(p.slots);
  }

  lemma NewPageInv(x: Index, d: Drec)
    requires IndexInv(x) && !IsEmpty(d) && |x.pages| < MAX_INDEX_BLOCKS
    ensures var y := Index(x.pages + [NewPage(d)], x.freeBlocks + {|x.pages|});
            IndexInv(y) && SlotChanged(x, y, Slot(|x.pages|, 0), d)
  {
    hide Occupied;
    OccupiedNew(d);
    assert (x.pages + [NewPage(d)])[|x.pages|] == NewPage(d);
  }

  lemma OccupiedNew(d: Drec)
    requires !IsEmpty(d)
    ensures Occupied(NewPage(d).slots) == 1
  {
    var e: seq<Drec> := seq(SLOTS, _ => EMPTY);
    OccupiedEmpty(SLOTS);
    OccupiedUpdate(e, 0, d);
    assert e[0 := d] == NewPage(d).slots;
  }

  lemma {:induction false} OccupiedEmpty(n: nat)
    ensures Occupied(seq(n, _ => EMPTY)) == 0
  {
    if n > 0 {
      OccupiedEmpty(n - 1);
      var e: seq<Drec> := seq(n, _ => EMPTY);
      assert e[..n - 1] == seq(n - 1, _ => EMPTY);
    }
  }

  /** The record has a slot, or there is an empty one, or one more page can be addressed. */
  predicate CanAdd(x: Index, slot: Option<Slot>) {
    slot.Some? || |x.freeBlocks| > 0 || |x.pages| < MAX_INDEX_BLOCKS
  }

  /** A write changes exactly one slot: the record's own, or one that was empty before. */
  lemma WriteDrecCorrect(x: Index, slot: Option<Slot>, d: Drec)
    requires IndexInv(x) && !IsEmpty(d) && (slot.Some? ==> Has(x, slot.value)) && CanAdd(x, slot)
    ensures var (y, s) := WriteDrec(x, slot, d);
            && IndexInv(y) && SlotChanged(x, y, s, d)
            && (if slot.Some? then s == slot.value else !Has(x, s))
  {
    hide Occupied;
    if slot.Some? {
      var s := slot.value;
      PageChange(x, s.page, s.pos, d, x.pages[s.page].free, x.freeBlocks);
      FreeMeansRoom(x);
    } else if exists b :: b in x.freeBlocks {
      var b := Lowest(x.freeBlocks);
      FreeBlockHasSlot(x, b);
      var i := FirstEmpty(x.pages[b].slots, 0);
      PageChange(x, b, i, d, x.pages[b].free - DREC_SIZE, WriteDrec(x, slot, d).0.freeBlocks);
    } else {
      assert x.freeBlocks == {};
      NewPageInv(x, d);
    }
  }

  ghost predicate EmptySlot(x: Index, t: Slot) {
    InRange(x, t) && IsEmpty(DrecAt(x, t))
  }

  predicate NotAfter(s: Slot, t: Slot) {
    s.page < t.page || (s.page == t.page && s.pos <= t.pos)
  }

  /** Which slot a write takes, and how many pages there are then: a record's own slot; otherwise the first
      empty slot of the file; and only when there is none, the first slot of one new page. */
  ghost predicate Chosen(x: Index, slot: Option<Slot>, y: Index, s: Slot) {
    if slot.Some? then s == slot.value && |y.pages| == |x.pages|
    else if exists t :: EmptySlot(x, t) then
      EmptySlot(x, s) && (forall t :: EmptySlot(x, t) ==> NotAfter(s, t)) && |y.pages| == |x.pages|
    else s == Slot(|x.pages|, 0) && |y.pages| == |x.pages| + 1
  }

  lemma WriteDrecChosen(x: Index, slot: Option<Slot>, d: Drec)
    requires IndexInv(x) && (slot.Some? ==> Has(x, slot.value))
    ensures Chosen(x, slot, WriteDrec(x, slot, d).0, WriteDrec(x, slot, d).1)
    ensures x.freeBlocks != {} <==> exists t :: EmptySlot(x, t)
  {
    hide Occupied, IsEmpty, NewPage;
    EmptySlotPages(x);
    if slot.None? && x.freeBlocks != {} {
      var b := Lowest(x.freeBlocks);
      FreeBlockHasSlot(x, b);
      var s := Slot(b, FirstEmpty(x.pages[b].slots, 0));
      assert EmptySlot(x, s) && WriteDrec(x, slot, d).1 == s;
    } else if x.freeBlocks != {} {
      var b :| b in x.freeBlocks;
      FreeBlockHasSlot(x, b);
      assert EmptySlot(x, Slot(b, FirstEmpty(x.pages[b].slots, 0)));
    }
  }

  lemma EmptySlotPages(x: Index)
    requires IndexInv(x)
    ensures forall t :: EmptySlot(x, t) ==> t.page in x.freeBlocks
  {
    hide IsEmpty;
    forall t | EmptySlot(x, t) ensures t.page in x.freeBlocks {
      assert PageInv(x.pages[t.page]);
      OccupiedBound(x.pages[t.page].slots);
    }
  }

  /** The free counter and the set of pages with room say the same. */
  lemma FreeMeansRoom(x: Index)
    requires IndexInv(x)
    ensures forall b: nat :: b in x.freeBlocks <==> b < |x.pages| && x.pages[b].free >= DREC_SIZE
  {
    hide Occupied;
    forall b | 0 <= b < |x.pages|
      ensures x.pages[b].free >= DREC_SIZE <==> Occupied(x.pages[b].slots) < SLOTS
    {
      assert PageInv(x.pages[b]);
    }
  }

  /** Erasing empties exactly one slot. */
  lemma EraseDrecCorrect(x: Index, s: Slot)
    requires IndexInv(x) && Has(x, s)
    ensures IndexInv(EraseDrec(x, s)) && SlotChanged(x, EraseDrec(x, s), s, EMPTY)
  {
    hide Occupied;
    var p := x.pages[s.page];
    OccupiedBound(p.slots);
    FreeMeansRoom(x);
    PageChange(x, s.page, s.pos, EMPTY, p.free + DREC_SIZE, x.freeBlocks + {s.page});
  }

  // ----- scanning

  /** The occupied slots of a page before slot `n`, in order. */
  function PageSlots(p: IPage, b: nat, n: nat): seq<Slot>
    requires n <= |p.slots|
  {
    if n == 0 then []
    else PageSlots(p, b, n - 1) + if IsEmpty(p.slots[n - 1]) then [] else [Slot(b, n - 1)]
  }

  /** The occupied slots of the first `n` pages: the order in which FillIndex visits them. */
  function ScanSlots(pages: seq<IPage>, n: nat): seq<Slot>
    requires n <= |pages|
  {
    if n == 0 then []
    else ScanSlots(pages, n - 1) + PageSlots(pages[n - 1], n - 1, |pages[n - 1].slots|)
  }

  ghost predicate DistinctSlots(ss: seq<Slot>) {
    forall i, j :: 0 <= i < j < |ss| ==> ss[i] != ss[j]
  }

  lemma {:induction false} PageSlotsCorrect(p: IPage, b: nat, n: nat)
    requires n <= |p.slots|
    ensures DistinctSlots(PageSlots(p, b, n))
    ensures forall s :: s in PageSlots(p, b, n) <==> s.page == b && s.pos < n && !IsEmpty(p.slots[s.pos])
  {
    if n > 0 {
      PageSlotsCorrect(p, b, n - 1);
    }
  }

  /** A scan visits every occupied slot exactly once. */
  lemma {:induction false} ScanSlotsCorrect(pages: seq<IPage>, n: nat)
    requires n <= |pages|
    ensures DistinctSlots(ScanSlots(pages, n))
    ensures forall s :: s in ScanSlots(pages, n) <==>
              s.page < n && s.pos < |pages[s.page].slots| && !IsEmpty(pages[s.page].slots[s.pos])
  {
    hide PageSlots;
    if n > 0 {
      ScanSlotsCorrect(pages, n - 1);
      PageSlotsCorrect(pages[n - 1], n - 1, |pages[n - 1].slots|);
      DistinctAppend(ScanSlots(pages, n - 1), PageSlots(pages[n - 1], n - 1, |pages[n - 1].slots|));
    }
  }

  lemma DistinctAppend(a: seq<Slot>, b: seq<Slot>)
    requires DistinctSlots(a) && DistinctSlots(b) && forall s :: s in a ==> s !in b
    ensures DistinctSlots(a + b)
  {
    forall i, j | 0 <= i < j < |a + b| ensures (a + b)[i] != (a + b)[j] {
      if i < |a| && j >= |a| {
        assert a[i] in a && b[j - |a|] in b;
      }
    }
  }

  /** Init: the pages that have room. */
  function RoomOf(pages: seq<IPage>): set<nat> {
    set b | 0 <= b < |pages| && pages[b].free >= DREC_SIZE
  }

  lemma RoomRebuilt(x: Index)
    requires IndexInv(x)
    ensures RoomOf(x.pages) == x.freeBlocks
  {
    FreeMeansRoom(x);
  }
}
