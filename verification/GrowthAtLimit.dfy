/** Writes that evict at the record limit and still need a new page: exactly when, and a run of writes
    that ends with one. */
module GrowthAtLimit {
  import opened Bytes
  import opened Pages
  import opened Config
  import opened Manager
  import opened Writes
  import opened Retention

  // ----- exactly when

  /** What a caller can check before the write: a new key, not below the first one, comes to a full
      manager, and even without the first record no page has room for it. */
  ghost predicate GrowsAtLimit(cfg: Config, m: Man, y: uint64, record: seq<byte>) {
    && Valid(m) && LimitSound(cfg) && |record| <= MAX_RECORD_SIZE
    && y !in m.index && Full(cfg, m.index) && FirstKey(m.index.Keys) <= y
    && NoRoom(Delete(m, FirstKey(m.index.Keys)), |Stored(cfg, record)|)
  }

  ghost predicate NoRoom(m: Man, size: nat) {
    forall b :: 0 <= b < |m.pages| ==> Fits(m.pages[b].records) ==> !CanTake(m.pages[b], size)
  }

  lemma PlaceGrowsIff(m: Man, key: uint64, data: seq<byte>)
    requires Valid(m) && |data| <= MAX_RECORD_SIZE
    ensures |Place(m, key, data).pages| > |m.pages| <==> NoRoom(m, |data|)
  {
    PagesFit(m);
    hide CanTake, Fits, Append;
  }

  /** Such a write, and no other, evicts and grows; with DefragAfterRecordDelete at most 1 it is answered
      with a request for defragmentation. */
  lemma GrowsAtLimitIff(cfg: Config, m: Man, y: uint64, record: seq<byte>)
    requires Valid(m) && Writable(cfg, record) && HasRoom(cfg, m, y, record) && WithinLimit(cfg, |m.index|)
    ensures var st := Write(cfg, m, y, record).1;
            st.Done? && st.needDefrag && !st.oldRecord && st.reallocated
            <==> GrowsAtLimit(cfg, m, y, record) && cfg.defragAfterRecordDelete <= 1
  {
    hide Valid, Place, Contents, Delete, IsFirst, Stored, NoRoom, LimitedPut;
    var data := Stored(cfg, record);
    WriteCorrect(cfg, m, y, record);
    if |record| <= MAX_RECORD_SIZE && y !in m.index && Full(cfg, m.index) && FirstKey(m.index.Keys) <= y {
      var first := FirstKey(m.index.Keys);
      var d := Delete(m, first);
      OneEviction(cfg, m, y);
      DeleteCorrect(m, first);
      DeleteTouches(m, first);
      PlaceGrowsIff(d, y, data);
    }
  }

  /** It takes a limit of at least two: with a single record the eviction leaves an empty page. */
  lemma GrowthNeedsTwo(cfg: Config, m: Man, y: uint64, record: seq<byte>)
    requires GrowsAtLimit(cfg, m, y, record) && WithinLimit(cfg, |m.index|)
    ensures cfg.enableRecordLimit && cfg.recordLimit >= 2
  {
    hide Delete, IsFirst, Stored;
    var d := Delete(m, FirstKey(m.index.Keys));
    DeleteCorrect(m, FirstKey(m.index.Keys));
    PageCountAtLeastOne(d);
    if cfg.recordLimit == 1 {
      EmptyIndexRoom(d, |Stored(cfg, record)|);
    }
  }

  lemma PageCountAtLeastOne(m: Man)
    requires Valid(m)
    ensures |m.pages| >= 1 && Fits(m.pages[0].records)
  {
  }

  lemma EmptyIndexRoom(m: Man, size: nat)
    requires Valid(m) && |m.index| == 0 && size <= MAX_RECORD_SIZE
    ensures Fits(m.pages[0].records) && CanTake(m.pages[0], size)
  {
    hide PageOk;
    assert m.index == map[];
    NoRecords(m);
  }

  lemma NoRecords(m: Man)
    requires Valid(m) && m.index == map[]
    ensures m.pages[0].records == [] && Fits(m.pages[0].records)
  {
    hide Keys, PageOk, Fits;
    PagesFit(m);
    if m.pages[0].records != [] {
      StoredKey(m, 0, 0);
    }
  }

  /** The index knows every stored record. */
  lemma StoredKey(m: Man, b: nat, i: nat)
    requires Valid(m) && b < |m.pages| && i < |m.pages[b].records|
    ensures var k := m.pages[b].records[i].key; k in m.index && m.index[k] == b
  {
    hide PageOk;
    assert m.pages[b].records[i] in m.pages[b].records;
    assert m.pages[b].records[i].key in Keys(m.pages[b].records);
  }

  // ----- a run that gets there

  /** Records that zlib neither shortens nor takes for packed data: one of one byte, one of the largest size. */
  ghost predicate PlainPair(cfg: Config, small: seq<byte>, big: seq<byte>) {
    && |small| == 1 && !LooksPacked(cfg, small)
    && |big| == MAX_RECORD_SIZE && Stored(cfg, big) == big && !LooksPacked(cfg, big)
  }

  /** Keys 0, 1, ... with small records. */
  function SmallWrites(small: seq<byte>, n: nat): (ws: seq<Entry>)
    requires n <= MAX_BLOCKS
    ensures |ws| == n && forall i :: 0 <= i < n ==> ws[i] == Entry(i, small)
  {
    seq(n, i requires 0 <= i < n => Entry(i, small))
  }

  lemma SmallStored(cfg: Config, small: seq<byte>)
    requires LawfulCodec(cfg) && |small| == 1
    ensures Stored(cfg, small) == small
  {
  }

  /** The keys below `n`, the first two of them in the first page. */
  ghost predicate SmallIndex(m: Man, n: nat) {
    && |m.index| == n
    && (forall k: uint64 :: k in m.index <==> k < n)
    && (forall k :: k in m.index && k < 2 ==> m.index[k] == 0)
  }

  /** Small records only, and no page without one. */
  ghost predicate SmallPages(m: Man, n: nat) {
    && (forall b, r :: 0 <= b < |m.pages| && r in m.pages[b].records ==> |r.data| == 1)
    && (n >= 1 ==> forall b :: 0 <= b < |m.pages| ==> m.pages[b].records != [])
    && (n <= 1 ==> |m.pages| == 1)
  }

  /** After at least two of them every page holds a record, and the first page holds keys 0 and 1. */
  ghost predicate SmallOk(m: Man, n: nat) {
    Valid(m) && SmallIndex(m, n) && SmallPages(m, n)
  }

  lemma {:induction false} SmallWritesOk(cfg: Config, small: seq<byte>, n: nat)
    requires LimitInForce(cfg) && LawfulCodec(cfg) && |small| == 1 && n <= cfg.recordLimit
    ensures Storable(cfg, SmallWrites(small, n)) && SmallOk(WriteAll(cfg, SmallWrites(small, n)), n)
  {
    hide Valid, Write, Stored;
    SmallStored(cfg, small);
    var ws := SmallWrites(small, n);
    if n == 0 {
      FreshValid();
    } else {
      assert ws[..n - 1] == SmallWrites(small, n - 1);
      SmallWritesOk(cfg, small, n - 1);
      SmallWriteOk(cfg, WriteAll(cfg, ws[..n - 1]), small, n - 1);
    }
  }

  lemma SmallWriteOk(cfg: Config, m: Man, small: seq<byte>, n: nat)
    requires LimitInForce(cfg) && |small| == 1 && Stored(cfg, small) == small
    requires SmallOk(m, n) && n < cfg.recordLimit && |m.pages| <= cfg.recordLimit
    ensures Writable(cfg, small) && SmallOk(Write(cfg, m, n, small).0, n + 1)
    ensures !Full(cfg, m.index)
  {
    hide Valid, Stored, SmallIndex, SmallPages, Write, LimitedPut, Place;
    SmallWriteIs(cfg, m, small, n);
    WriteGrowth(cfg, m, n, small);
    WriteCorrect(cfg, m, n, small);
    PlaceSmall(m, small, n);
  }

  lemma SmallWriteIs(cfg: Config, m: Man, small: seq<byte>, n: nat)
    requires LimitInForce(cfg) && |small| == 1 && Stored(cfg, small) == small
    requires Valid(m) && SmallIndex(m, n) && n < cfg.recordLimit
    ensures !Full(cfg, m.index) && |m.index| < cfg.recordLimit && n !in m.index
    ensures Write(cfg, m, n, small).0 == Place(m, n, small)
  {
    hide Valid, Stored, Place;
  }

  lemma PlaceSmall(m: Man, small: seq<byte>, n: nat)
    requires SmallOk(m, n) && |small| == 1 && n < MAX_BLOCKS
    ensures SmallIndex(Place(m, n, small), n + 1) && SmallPages(Place(m, n, small), n + 1)
  {
    hide Valid, Place;
    PlaceIs(m, n, small);
    PagesFit(m);
    if n < 2 {
      FirstPageRoom(m, n);
    }
    PlaceSmallIndex(m, small, n);
    PlaceSmallPages(m, small, n);
  }

  lemma PlaceSmallIndex(m: Man, small: seq<byte>, n: nat)
    requires Valid(m) && SmallIndex(m, n) && |small| == 1 && n < MAX_BLOCKS
    requires n < 2 ==> |m.pages| == 1 && Fits(m.pages[0].records) && CanTake(m.pages[0], 1)
    ensures SmallIndex(Place(m, n, small), n + 1)
  {
    hide Valid, CanTake, Place, Fits;
    PagesFit(m);
    PlaceIs(m, n, small);
    PlaceIndex(m, n, small);
  }

  lemma PlaceSmallPages(m: Man, small: seq<byte>, n: nat)
    requires Valid(m) && SmallPages(m, n) && |small| == 1 && n < MAX_BLOCKS
    requires n == 0 ==> Fits(m.pages[0].records) && CanTake(m.pages[0], 1)
    ensures SmallPages(Place(m, n, small), n + 1)
  {
    hide Valid, CanTake, Place, Fits;
    PagesFit(m);
    PlaceIs(m, n, small);
  }

  lemma PlaceIs(m: Man, key: uint64, data: seq<byte>)
    requires Valid(m) && |data| <= MAX_RECORD_SIZE && |data| >= 1
    ensures var t, p := Target(m.pages, |m.pages|, |data|), Place(m, key, data);
            && p.index == m.index[key := t]
            && |p.pages| == (if t < |m.pages| then |m.pages| else |m.pages| + 1)
            && forall b :: 0 <= b < |p.pages| ==>
                 p.pages[b].records
                 == (if b < |m.pages| then m.pages[b].records else []) + if b == t then [Record(key, data)] else []
  {
    hide Valid;
    PagesFit(m);
  }

  /** The first two small records share the first page. */
  lemma FirstPageRoom(m: Man, n: nat)
    requires SmallOk(m, n) && n < 2
    ensures Fits(m.pages[0].records) && CanTake(m.pages[0], 1)
  {
    AtMostOne(m, n);
    OneSmallFits(m.pages[0]);
  }

  lemma AtMostOne(m: Man, n: nat)
    requires SmallOk(m, n) && n < 2
    ensures |m.pages[0].records| <= 1
  {
    hide Keys, Fits;
    if |m.pages[0].records| >= 2 {
      StoredKey(m, 0, 0);
      StoredKey(m, 0, 1);
      DifferentKeys(m);
    }
  }

  lemma DifferentKeys(m: Man)
    requires Valid(m) && |m.pages[0].records| >= 2
    ensures m.pages[0].records[0].key != m.pages[0].records[1].key
  {
    hide Keys, Fits, Agree;
    assert PageOk(m.pages[0]);
  }

  lemma OneSmallFits(p: Page)
    requires |p.records| <= 1 && forall r :: r in p.records ==> |r.data| == 1
    ensures Fits(p.records) && CanTake(p, 1)
  {
    hide Rdf, RdfBytes;
    if p.records != [] {
      LocationAppend([], p.records[0]);
      assert [] + [p.records[0]] == p.records;
    }
  }

  // ----- the last write

  lemma ZeroIsFirst(keys: set<uint64>)
    requires 0 in keys
    ensures FirstKey(keys) == 0
  {
    hide Rank;
    RankOfZero();
    FirstUnique(keys, FirstKey(keys), 0);
  }

  lemma RankOfZero()
    ensures Rank(0) == 0
  {
    if HOST_IS_BIG_ENDIAN {
      RankNumericOnBigEndian(0);
    } else {
      LittleEndianZero(8);
      FromBigEndianLeadingZeros(8, []);
      assert LittleEndian(0, 8) == seq(8, _ => 0) + [];
    }
  }

  /** With all keys 0, 1, ... up to the limit stored in small records, a record of the largest size grows
      the manager: key 0 makes room in a page that still holds key 1. */
  lemma BigGrows(cfg: Config, m: Man, small: seq<byte>, big: seq<byte>)
    requires LimitInForce(cfg) && cfg.recordLimit >= 2 && SmallOk(m, cfg.recordLimit) && PlainPair(cfg, small, big)
    ensures GrowsAtLimit(cfg, m, cfg.recordLimit, big)
  {
    hide Delete, Stored, NoRoom, Valid, SmallIndex, SmallPages, GrowsAtLimit;
    SmallFull(cfg, m);
    FirstIsZero(m, cfg.recordLimit);
    NoRoomWithoutZero(m, cfg.recordLimit);
    GrowsFromParts(cfg, m, cfg.recordLimit, big);
  }

  lemma SmallFull(cfg: Config, m: Man)
    requires LimitInForce(cfg) && SmallIndex(m, cfg.recordLimit)
    ensures Full(cfg, m.index) && cfg.recordLimit !in m.index
  {
  }

  lemma GrowsFromParts(cfg: Config, m: Man, y: uint64, record: seq<byte>)
    requires Valid(m) && LimitSound(cfg) && |record| <= MAX_RECORD_SIZE && y !in m.index && Full(cfg, m.index)
    requires 0 in m.index && FirstKey(m.index.Keys) == 0 && NoRoom(Delete(m, 0), |Stored(cfg, record)|)
    ensures GrowsAtLimit(cfg, m, y, record)
  {
    hide Delete, Stored, NoRoom, Valid, IsFirst;
  }

  lemma FirstIsZero(m: Man, n: nat)
    requires SmallOk(m, n) && n >= 2
    ensures m.index.Keys != {} && FirstKey(m.index.Keys) == 0
  {
    hide Valid, IsFirst, SmallPages;
    assert 0 in m.index.Keys;
    ZeroIsFirst(m.index.Keys);
  }

  lemma NoRoomWithoutZero(m: Man, n: nat)
    requires SmallOk(m, n) && n >= 2
    ensures 0 in m.index && NoRoom(Delete(m, 0), MAX_RECORD_SIZE)
  {
    hide Delete, Fits, CanTake, Valid, SmallPages;
    DeleteTouches(m, 0);
    forall b | 0 <= b < |Delete(m, 0).pages| && Fits(Delete(m, 0).pages[b].records)
      ensures !CanTake(Delete(m, 0).pages[b], MAX_RECORD_SIZE)
    {
      StillUsed(m, n, b);
      UsedHasNoRoom(Delete(m, 0).pages[b]);
    }
  }

  lemma UsedHasNoRoom(p: Page)
    requires p.records != [] && Fits(p.records)
    ensures !CanTake(p, MAX_RECORD_SIZE)
  {
  }

  lemma StillUsed(m: Man, n: nat, b: nat)
    requires SmallOk(m, n) && n >= 2 && b < |m.pages|
    ensures |Delete(m, 0).pages| == |m.pages| && Delete(m, 0).pages[b].records != []
  {
    hide Valid, Delete;
    DeleteCorrect(m, 0);
    DeleteTouches(m, 0);
    DeletedIndex(m, 0);
    StoredKey(m, b, 0);
    StillHolds(Delete(m, 0), b, if b == 0 then 1 else m.pages[b].records[0].key);
  }

  lemma DeletedIndex(m: Man, k: uint64)
    requires Valid(m) && k in m.index
    ensures Delete(m, k).index == m.index - {k}
  {
    hide PageOk;
  }

  lemma StillHolds(m: Man, b: nat, k: uint64)
    requires Valid(m) && b < |m.pages| && k in m.index && m.index[k] == b
    ensures m.pages[b].records != []
  {
    hide PageOk;
    assert k in Keys(m.pages[b].records);
  }
}
