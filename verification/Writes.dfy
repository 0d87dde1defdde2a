/** blman_write_record on values: update or relocate, record-limit eviction, refusal of old
    records, and growth; and the finite map with a record limit that it implements. */
module Writes {
  import opened Bytes
  import opened Pages
  import opened Config
  import opened Manager
  import opened Sets

  // ----- the first key of the index

  ghost predicate IsFirst(keys: set<uint64>, key: uint64) {
    key in keys && forall k :: k in keys ==> Rank(key) <= Rank(k)
  }

  lemma {:induction false} FirstExists(keys: set<uint64>)
    requires keys != {}
    ensures exists k :: IsFirst(keys, k)
  {
    var a :| a in keys;
    if keys == {a} {
      assert IsFirst(keys, a);
    } else {
      var rest := keys - {a};
      FirstExists(rest);
      var b :| IsFirst(rest, b);
      assert IsFirst(keys, if Rank(a) <= Rank(b) then a else b);
    }
  }

  /** avl_t_first: the least key in `memcmp` order. */
  ghost function FirstKey(keys: set<uint64>): (k: uint64)
    requires keys != {}
    ensures IsFirst(keys, k) && k in keys
  {
    FirstExists(keys);
    var k :| IsFirst(keys, k);
    k
  }

  lemma FirstUnique(keys: set<uint64>, a: uint64, b: uint64)
    requires IsFirst(keys, a) && IsFirst(keys, b)
    ensures a == b
  {
    RankInjective(a, b);
  }

  /** The first key is the one stored key that no stored key is below in the order of `memcmp` on the bytes
      that the host stores. */
  lemma FirstByMemcmp(keys: set<uint64>, key: uint64)
    requires keys != {}
    ensures key == FirstKey(keys) <==> key in keys && forall k :: k in keys ==> !KeyBefore(k, key)
  {
    hide Rank, KeyBefore;
    forall k | k in keys ensures KeyBefore(k, key) <==> Rank(k) < Rank(key) {
      RankIsMemcmp(k, key);
    }
    if IsFirst(keys, key) {
      FirstUnique(keys, key, FirstKey(keys));
    }
  }

  // ----- the abstract map with a record limit

  predicate Full<V>(cfg: Config, c: map<uint64, V>) {
    cfg.enableRecordLimit && |c| >= cfg.recordLimit
  }

  /** Writing a key: replace it, or add it; at the limit the first key makes room, unless the
      new key is numerically smaller than it. */
  ghost function LimitedPut<V>(cfg: Config, c: map<uint64, V>, key: uint64, v: V): map<uint64, V>
    requires LimitSound(cfg)
  {
    if key in c || !Full(cfg, c) then c[key := v]
    else
      var first := FirstKey(c.Keys);
      if key < first then c else (c - {first})[key := v]
  }

  predicate WithinLimit(cfg: Config, count: nat) {
    cfg.enableRecordLimit ==> count <= cfg.recordLimit
  }

  // ----- phase 2: eviction

  datatype Eviction = Eviction(man: Man, removed: nat, refused: bool)

  ghost function Evict(cfg: Config, m: Man, key: uint64): (e: Eviction)
    requires Valid(m) && cfg.recordLimit >= 1
    ensures Valid(e.man)
    ensures !e.refused ==> |e.man.index| < cfg.recordLimit
    ensures e.man.index.Keys <= m.index.Keys
    ensures e.removed == 0 ==> e.man == m
    ensures |e.man.index| + e.removed == |m.index|
    decreases |m.index|
  {
    if |m.index| < cfg.recordLimit then Eviction(m, 0, false)
    else
      var first := FirstKey(m.index.Keys);
      if key < first then Eviction(m, 0, true)
      else
        DeleteCorrect(m, first);
        var e := Evict(cfg, Delete(m, first), key);
        Eviction(e.man, e.removed + 1, e.refused)
  }

  // ----- the whole write

  /** Phases 2 and 3, for a key that the index does not hold. */
  ghost function Insert(cfg: Config, m: Man, key: uint64, data: seq<byte>): (Man, Status)
    requires Valid(m) && LimitSound(cfg) && |data| <= MAX_RECORD_SIZE
  {
    if cfg.enableRecordLimit && |m.index| >= cfg.recordLimit then
      var e := Evict(cfg, m, key);
      if e.refused then (e.man, Done(false, true, true, false))
      else
        var m' := Place(e.man, key, data);
        (m', Done(|m'.pages| > |m.pages|, true, false, e.removed >= cfg.defragAfterRecordDelete))
    else
      var m' := Place(m, key, data);
      (m', Done(|m'.pages| > |m.pages|, false, false, false))
  }

  ghost predicate Writable(cfg: Config, record: seq<byte>) {
    LimitSound(cfg) && |Stored(cfg, record)| >= 1
  }

  ghost function Write(cfg: Config, m: Man, key: uint64, record: seq<byte>): (Man, Status)
    requires Valid(m) && Writable(cfg, record)
  {
    if |record| > MAX_RECORD_SIZE then (m, TooBig)
    else
      var data := Stored(cfg, record);
      if key in m.index then
        var u := UpdateMan(m, key, data);
        UpdateCorrect(m, key, data);
        if u.0 then (u.1, Done(false, false, false, false)) else Insert(cfg, u.1, key, data)
      else Insert(cfg, m, key, data)
  }

  /** The page count still fits its uint16 after the write. */
  ghost predicate HasRoom(cfg: Config, m: Man, key: uint64, record: seq<byte>)
    requires Valid(m) && Writable(cfg, record)
  {
    |m.pages| < MAX_BLOCKS || |Write(cfg, m, key, record).0.pages| == |m.pages|
  }

  // ----- what a write does to the pages

  /** Every old page is unchanged or marked dirty. */
  ghost predicate Touched(old_: seq<Page>, new_: seq<Page>) {
    && |old_| <= |new_|
    && forall b :: 0 <= b < |old_| ==> new_[b] == old_[b] || IsDirty(new_[b].flags)
  }

  lemma TouchedTransitive(a: seq<Page>, b: seq<Page>, c: seq<Page>)
    requires Touched(a, b) && Touched(b, c)
    ensures Touched(a, c)
  {
  }

  lemma DeleteTouches(m: Man, key: uint64)
    requires Valid(m) && key in m.index
    ensures Touched(m.pages, Delete(m, key).pages) && |Delete(m, key).pages| == |m.pages|
  {
    hide PageOk;
  }

  lemma {:induction false} EvictTouches(cfg: Config, m: Man, key: uint64)
    requires Valid(m) && cfg.recordLimit >= 1
    ensures var e := Evict(cfg, m, key); Touched(m.pages, e.man.pages) && |e.man.pages| == |m.pages|
    decreases |m.index|
  {
    hide Valid, Delete;
    if |m.index| >= cfg.recordLimit {
      var first := FirstKey(m.index.Keys);
      if key >= first {
        DeleteCorrect(m, first);
        DeleteTouches(m, first);
        EvictTouches(cfg, Delete(m, first), key);
        TouchedTransitive(m.pages, Delete(m, first).pages, Evict(cfg, Delete(m, first), key).man.pages);
      }
    }
  }

  lemma PlaceTouches(m: Man, key: uint64, data: seq<byte>)
    requires Valid(m) && |data| <= MAX_RECORD_SIZE
    ensures Touched(m.pages, Place(m, key, data).pages)
    ensures |m.pages| <= |Place(m, key, data).pages| <= |m.pages| + 1
    ensures |Place(m, key, data).pages| == |m.pages| <==> Target(m.pages, |m.pages|, |data|) < |m.pages|
  {
    hide PageOk;
    PagesFit(m);
  }

  lemma InsertTouches(cfg: Config, m: Man, key: uint64, data: seq<byte>)
    requires Valid(m) && LimitSound(cfg) && |data| <= MAX_RECORD_SIZE
    ensures var r := Insert(cfg, m, key, data);
            && Touched(m.pages, r.0.pages) && r.1.Done?
            && |r.0.pages| == |m.pages| + if r.1.reallocated then 1 else 0
  {
    hide Valid, Place;
    if cfg.enableRecordLimit && |m.index| >= cfg.recordLimit {
      var e := Evict(cfg, m, key);
      EvictTouches(cfg, m, key);
      if !e.refused {
        PlaceTouches(e.man, key, data);
        TouchedTransitive(m.pages, e.man.pages, Place(e.man, key, data).pages);
      }
    } else {
      PlaceTouches(m, key, data);
    }
  }

  /** A write reports growth exactly when it added one page, and marks every page it changes. */
  lemma WriteTouches(cfg: Config, m: Man, key: uint64, record: seq<byte>)
    requires Valid(m) && Writable(cfg, record)
    ensures var r := Write(cfg, m, key, record);
            && Touched(m.pages, r.0.pages)
            && (r.1.TooBig? ==> r.0 == m)
            && |r.0.pages| == |m.pages| + if r.1.Done? && r.1.reallocated then 1 else 0
  {
    hide Valid, Insert, UpdatePage;
    var data := Stored(cfg, record);
    if |record| <= MAX_RECORD_SIZE {
      if key in m.index {
        var u := UpdateMan(m, key, data);
        UpdateCorrect(m, key, data);
        UpdateTouches(m, key, data);
        if !u.0 {
          InsertTouches(cfg, u.1, key, data);
          TouchedTransitive(m.pages, u.1.pages, Insert(cfg, u.1, key, data).0.pages);
        }
      } else {
        InsertTouches(cfg, m, key, data);
      }
    }
  }

  lemma UpdateTouches(m: Man, key: uint64, data: seq<byte>)
    requires Valid(m) && key in m.index
    ensures var u := UpdateMan(m, key, data); Touched(m.pages, u.1.pages) && |u.1.pages| == |m.pages|
  {
    hide PageOk;
  }

  // ----- what a write does to the contents

  lemma OneEviction(cfg: Config, m: Man, key: uint64)
    requires Valid(m) && cfg.recordLimit >= 1 && |m.index| == cfg.recordLimit
    ensures var e, first := Evict(cfg, m, key), FirstKey(m.index.Keys);
            if key < first then e == Eviction(m, 0, true)
            else e == Eviction(Delete(m, first), 1, false)
  {
    hide Valid, Delete, Rank, IsFirst;
    var first := FirstKey(m.index.Keys);
    if key >= first {
      DeleteCorrect(m, first);
      assert Evict(cfg, Delete(m, first), key) == Eviction(Delete(m, first), 0, false);
    }
  }

  /** The result of writing a record that is not too big, while the count is within the limit. */
  ghost predicate LimitedWrite(cfg: Config, m: Man, key: uint64, data: seq<byte>, r: (Man, Status))
    requires LimitSound(cfg)
  {
    && r.1.Done?
    && Contents(r.0) == LimitedPut(cfg, Contents(m), key, data)
    && WithinLimit(cfg, |r.0.index|)
    && (r.1.oldRecord ==> r.0 == m)
    && (r.1.countLimit <==> key !in m.index && Full(cfg, m.index))
    && (r.1.oldRecord <==> key !in m.index && Full(cfg, m.index) && key < FirstKey(m.index.Keys))
    && (r.1.needDefrag <==> key !in m.index && Full(cfg, m.index) && !r.1.oldRecord && cfg.defragAfterRecordDelete <= 1)
    && (r.1.needDefrag ==> |r.0.index| == |m.index|)
  }

  lemma InsertBelowLimit(cfg: Config, m: Man, key: uint64, data: seq<byte>)
    requires Valid(m) && LimitSound(cfg) && 1 <= |data| <= MAX_RECORD_SIZE && key !in m.index
    requires CanPlace(m, |data|) && !Full(cfg, m.index)
    ensures Valid(Insert(cfg, m, key, data).0)
    ensures LimitedWrite(cfg, m, key, data, Insert(cfg, m, key, data))
  {
    hide Valid, Place, Contents, Rank, IsFirst, CanPlace;
    PlaceCorrect(m, key, data);
    PlaceIndex(m, key, data);
  }

  lemma InsertAtLimit(cfg: Config, m: Man, key: uint64, data: seq<byte>)
    requires Valid(m) && LimitSound(cfg) && 1 <= |data| <= MAX_RECORD_SIZE && key !in m.index
    requires cfg.enableRecordLimit && |m.index| == cfg.recordLimit
    requires key >= FirstKey(m.index.Keys) ==> CanPlace(Evict(cfg, m, key).man, |data|)
    ensures Valid(Insert(cfg, m, key, data).0)
    ensures LimitedWrite(cfg, m, key, data, Insert(cfg, m, key, data))
  {
    hide Valid, Place, Contents, Delete, Rank, IsFirst, CanPlace, Evict;
    OneEviction(cfg, m, key);
    var first := FirstKey(m.index.Keys);
    if key >= first {
      var d := Delete(m, first);
      DeleteCorrect(m, first);
      assert d.index.Keys == Contents(d).Keys;
      PlaceCorrect(d, key, data);
      PlaceIndex(d, key, data);
    }
  }

  lemma InsertRoom(cfg: Config, m: Man, key: uint64, data: seq<byte>)
    requires Valid(m) && LimitSound(cfg) && |data| <= MAX_RECORD_SIZE
    requires |m.pages| < MAX_BLOCKS || |Insert(cfg, m, key, data).0.pages| == |m.pages|
    ensures Full(cfg, m.index) ==> var e := Evict(cfg, m, key); e.refused || CanPlace(e.man, |data|)
    ensures !Full(cfg, m.index) ==> CanPlace(m, |data|)
  {
    hide Valid, Place, Evict;
    if Full(cfg, m.index) {
      var e := Evict(cfg, m, key);
      EvictTouches(cfg, m, key);
      PlaceTouches(e.man, key, data);
    } else {
      PlaceTouches(m, key, data);
    }
  }

  lemma InsertCorrect(cfg: Config, m: Man, key: uint64, data: seq<byte>)
    requires Valid(m) && LimitSound(cfg) && 1 <= |data| <= MAX_RECORD_SIZE && key !in m.index
    requires |m.pages| < MAX_BLOCKS || |Insert(cfg, m, key, data).0.pages| == |m.pages|
    ensures Valid(Insert(cfg, m, key, data).0)
    ensures WithinLimit(cfg, |m.index|) ==> LimitedWrite(cfg, m, key, data, Insert(cfg, m, key, data))
  {
    hide Valid, Place, LimitedWrite, Rank, IsFirst, CanPlace, Evict;
    InsertRoom(cfg, m, key, data);
    if !Full(cfg, m.index) {
      InsertBelowLimit(cfg, m, key, data);
    } else if |m.index| == cfg.recordLimit {
      OneEviction(cfg, m, key);
      InsertAtLimit(cfg, m, key, data);
    } else {
      var e := Evict(cfg, m, key);
      if !e.refused {
        PlaceCorrect(e.man, key, data);
      }
    }
  }

  lemma PlaceIndex(m: Man, key: uint64, data: seq<byte>)
    requires Valid(m) && |data| <= MAX_RECORD_SIZE && key !in m.index
    ensures |Place(m, key, data).index| == |m.index| + 1
  {
    hide PageOk;
    PagesFit(m);
  }

  lemma LimitedUpdate(cfg: Config, m: Man, m1: Man, key: uint64, data: seq<byte>)
    requires LimitSound(cfg) && key in m.index
    requires m1.index == m.index && Contents(m1) == Contents(m)[key := data]
    ensures WithinLimit(cfg, |m.index|) ==> LimitedWrite(cfg, m, key, data, (m1, Done(false, false, false, false)))
  {
    hide Contents, IsFirst;
  }

  lemma LimitedAfterRemoval(cfg: Config, m: Man, m1: Man, key: uint64, data: seq<byte>, r: (Man, Status))
    requires LimitSound(cfg) && WithinLimit(cfg, |m.index|)
    requires key in m.index && |m1.index| == |m.index| - 1 && Contents(m1) == Contents(m) - {key}
    requires LimitedWrite(cfg, m1, key, data, r)
    ensures LimitedWrite(cfg, m, key, data, r)
  {
    hide Contents, IsFirst;
    assert |Contents(m1)| == |m1.index|;
    assert (Contents(m) - {key})[key := data] == Contents(m)[key := data];
  }

  /** The contents after a write: exactly the map with a record limit, while the count is within
      the limit; a refused write then changes nothing. */
  lemma WriteCorrect(cfg: Config, m: Man, key: uint64, record: seq<byte>)
    requires Valid(m) && Writable(cfg, record) && HasRoom(cfg, m, key, record)
    ensures Valid(Write(cfg, m, key, record).0)
    ensures |record| > MAX_RECORD_SIZE ==> Write(cfg, m, key, record) == (m, TooBig)
    ensures WithinLimit(cfg, |m.index|) && |record| <= MAX_RECORD_SIZE ==>
              LimitedWrite(cfg, m, key, Stored(cfg, record), Write(cfg, m, key, record))
  {
    hide Valid, Insert, Contents, UpdateMan, LimitedWrite;
    var data := Stored(cfg, record);
    WriteTouches(cfg, m, key, record);
    if |record| <= MAX_RECORD_SIZE {
      if key in m.index {
        var u := UpdateMan(m, key, data);
        UpdateCorrect(m, key, data);
        UpdateTouches(m, key, data);
        UpdateIndex(m, key, data);
        if u.0 {
          LimitedUpdate(cfg, m, u.1, key, data);
        } else {
          assert Write(cfg, m, key, record) == Insert(cfg, u.1, key, data);
          InsertCorrect(cfg, u.1, key, data);
          if WithinLimit(cfg, |m.index|) {
            LimitedAfterRemoval(cfg, m, u.1, key, data, Insert(cfg, u.1, key, data));
          }
        }
      } else {
        InsertCorrect(cfg, m, key, data);
      }
    }
  }

  lemma UpdateIndex(m: Man, key: uint64, data: seq<byte>)
    requires Valid(m) && key in m.index
    ensures var u := UpdateMan(m, key, data);
            && u.1.index == (if u.0 then m.index else m.index - {key})
            && |m.index - {key}| == |m.index| - 1
  {
    assert m.index.Keys == (m.index - {key}).Keys + {key};
  }

  // ----- refusal

  /** Eviction stops at a refusal without having removed anything exactly when the new key is
      numerically below the first key. */
  lemma {:induction false} RefusedEviction(cfg: Config, m: Man, key: uint64)
    requires Valid(m) && cfg.recordLimit >= 1 && |m.index| >= cfg.recordLimit
    ensures var e := Evict(cfg, m, key);
            e.refused && e.man == m <==> key < FirstKey(m.index.Keys)
  {
    hide Valid, Delete, IsFirst;
    var first := FirstKey(m.index.Keys);
    if key >= first {
      DeleteCorrect(m, first);
      assert |Evict(cfg, Delete(m, first), key).man.index| <= |m.index| - 1;
    }
  }

  /** A write refused as old leaves the manager unchanged exactly when the key was not stored before
      and is below the first key: a caller sees both before the call. Within the limit this always
      holds (WriteCorrect); it can fail after the limit was lowered at run time. */
  lemma RefusedUnchangedIff(cfg: Config, m: Man, key: uint64, record: seq<byte>)
    requires Valid(m) && Writable(cfg, record)
    requires Write(cfg, m, key, record).1.Done? && Write(cfg, m, key, record).1.oldRecord
    ensures Write(cfg, m, key, record).0 == m <==> key !in m.index && key < FirstKey(m.index.Keys)
  {
    hide Valid, UpdatePage, Place, IsFirst;
    var data := Stored(cfg, record);
    if key in m.index {
      UpdateCorrect(m, key, data);
      UpdateIndex(m, key, data);
      var u := UpdateMan(m, key, data);
      assert key !in Insert(cfg, u.1, key, data).0.index;
    } else {
      RefusedEviction(cfg, m, key);
    }
  }

  /** With the limit lowered to 1 and two keys stored, a new key between them evicts the first one and is
      then refused. */
  lemma RefusedBetween(cfg: Config, m: Man, a: uint64, b: uint64, key: uint64, record: seq<byte>)
    requires cfg.enableRecordLimit && cfg.recordLimit == 1 && Valid(m) && m.index.Keys == {a, b} && a != b
    requires Rank(a) <= Rank(b) && a <= key < b && key !in m.index
    requires Writable(cfg, record) && |record| <= MAX_RECORD_SIZE
    ensures Write(cfg, m, key, record).1 == Done(false, true, true, false)
    ensures Write(cfg, m, key, record).0.index.Keys == {b}
  {
    hide Valid, Rank, Place, UpdatePage, Delete, Stored;
    assert IsFirst(m.index.Keys, a) && IsFirst({b}, b);
    FirstUnique(m.index.Keys, FirstKey(m.index.Keys), a);
    var d := Delete(m, a);
    DeleteCorrect(m, a);
    assert d.index.Keys == Contents(d).Keys == {b};
    FirstUnique(d.index.Keys, FirstKey(d.index.Keys), b);
    assert Evict(cfg, d, key) == Eviction(d, 0, true);
    assert |m.index.Keys| == |m.index| && |{a, b}| == 2;
    assert Evict(cfg, m, key) == Eviction(d, 1, true);
  }

  /** The failing family is not empty: with the limit lowered to 1, keys 1 and 5 stored, writing
      key 3 first evicts key 1 and then refuses key 3. */
  lemma RefusedAfterEvicting(cfg: Config)
    requires cfg.enableRecordLimit && cfg.recordLimit == 1 && cfg.recordSizeForCompression >= 1
    ensures var m := TwoRecords();
            && Valid(m) && Writable(cfg, [9])
            && Write(cfg, m, 3, [9]).1 == Done(false, true, true, false)
            && Write(cfg, m, 3, [9]).0.index.Keys == {5}
  {
    hide Valid, Rank, Write;
    TwoRecordsValid();
    SmallRanks();
    RefusedBetween(cfg, TwoRecords(), 1, 5, 3, [9]);
  }

  function TwoRecords(): Man {
    Man([Page([Record(1, [7]), Record(5, [7])], 0)], map[1 := 0, 5 := 0])
  }

  lemma TwoFit(a: Record, b: Record)
    requires |a.data| + |b.data| + 2 * RDF_SIZE <= CIDF_OFFSET
    ensures Fits([a, b])
  {
    hide Rdf, RdfBytes;
    LocationAppend([a], b);
    LocationAppend([], a);
    assert [] + [a] == [a] && [a] + [b] == [a, b];
  }

  lemma TwoRecordsPage()
    ensures PageOk(TwoRecords().pages[0]) && Keys(TwoRecords().pages[0].records) == {1, 5}
  {
    hide Fits;
    var rs := TwoRecords().pages[0].records;
    TwoFit(rs[0], rs[1]);
    assert rs[0] in rs && rs[1] in rs;
  }

  lemma TwoRecordsValid()
    ensures Valid(TwoRecords())
  {
    hide PageOk, Keys;
    TwoRecordsPage();
  }

  lemma SmallRanks()
    ensures Rank(1) <= Rank(5)
  {
    if HOST_IS_BIG_ENDIAN {
      RankNumericOnBigEndian(1);
      RankNumericOnBigEndian(5);
    } else {
      var z: seq<byte> := seq(7, _ => 0);
      LittleEndianZero(7);
      assert LittleEndian(1, 8) == [1] + z && LittleEndian(5, 8) == [5] + z;
      assert ([1] + z)[..0] == ([5] + z)[..0] && ([1] + z)[0] < ([5] + z)[0];
      MemcmpIsBigEndianOrder([1] + z, [5] + z);
    }
  }

  // ----- above a lowered limit

  /** The map without its first keys, as many as must go to get below the limit. */
  ghost function Trimmed<V>(cfg: Config, c: map<uint64, V>): map<uint64, V>
    requires cfg.recordLimit >= 1
    decreases |c|
  {
    if |c| < cfg.recordLimit then c
    else
      assert |c.Keys| == |c|;
      var first := FirstKey(c.Keys);
      assert c == (c - {first})[first := c[first]];
      Trimmed(cfg, c - {first})
  }

  lemma {:induction false} EvictTrims(cfg: Config, m: Man, key: uint64)
    requires Valid(m) && cfg.recordLimit >= 1 && !Evict(cfg, m, key).refused
    ensures Contents(Evict(cfg, m, key).man) == Trimmed(cfg, Contents(m))
    decreases |m.index|
  {
    hide Valid, Delete, Contents, IsFirst, Rank;
    if |m.index| >= cfg.recordLimit {
      var first := FirstKey(m.index.Keys);
      DeleteCorrect(m, first);
      EvictTrims(cfg, Delete(m, first), key);
      assert Contents(m).Keys == m.index.Keys;
    }
  }

  lemma InsertContents(cfg: Config, m: Man, key: uint64, data: seq<byte>)
    requires Valid(m) && LimitSound(cfg) && 1 <= |data| <= MAX_RECORD_SIZE && key !in m.index
    requires |m.pages| < MAX_BLOCKS || |Insert(cfg, m, key, data).0.pages| == |m.pages|
    ensures var r := Insert(cfg, m, key, data);
            r.1.Done? && (!r.1.oldRecord ==>
              Contents(r.0) == (if cfg.enableRecordLimit then Trimmed(cfg, Contents(m)) else Contents(m))[key := data])
  {
    hide Valid, Place, Contents, Evict, CanPlace, IsFirst;
    InsertRoom(cfg, m, key, data);
    assert |Contents(m)| == |m.index|;
    if Full(cfg, m.index) {
      var e := Evict(cfg, m, key);
      if !e.refused {
        EvictTrims(cfg, m, key);
        EvictedKeys(cfg, m, key);
        PlaceCorrect(e.man, key, data);
      }
    } else {
      PlaceCorrect(m, key, data);
    }
  }

  lemma EvictedKeys(cfg: Config, m: Man, key: uint64)
    requires Valid(m) && cfg.recordLimit >= 1
    ensures Evict(cfg, m, key).man.index.Keys <= m.index.Keys
  {
    hide Valid, Evict;
  }

  /** The contents after any write that is not refused, also above a lowered limit: the record is replaced
      where it is, or, without its old form, the first keys go and it is added. */
  lemma WriteContents(cfg: Config, m: Man, key: uint64, record: seq<byte>)
    requires Valid(m) && Writable(cfg, record) && HasRoom(cfg, m, key, record) && |record| <= MAX_RECORD_SIZE
    ensures var r, c, data := Write(cfg, m, key, record), Contents(m), Stored(cfg, record);
            r.1.Done? && (!r.1.oldRecord ==>
              Contents(r.0) ==
                if key in m.index && UpdateMan(m, key, data).0 then c[key := data]
                else (if cfg.enableRecordLimit then Trimmed(cfg, c - {key}) else c - {key})[key := data])
  {
    hide Valid, Insert, Contents, UpdateMan, Trimmed;
    var data := Stored(cfg, record);
    WriteCases(cfg, m, key, record);
    if key in m.index {
      var u := UpdateMan(m, key, data);
      UpdateCorrect(m, key, data);
      UpdateTouches(m, key, data);
      UpdateIndex(m, key, data);
      if !u.0 {
        InsertContents(cfg, u.1, key, data);
      }
    } else {
      assert key !in Contents(m);
      assert Contents(m) - {key} == Contents(m);
      InsertContents(cfg, m, key, data);
    }
  }

  /** A record that must leave its page needs as much room elsewhere as before. */
  lemma MovedRoom(m: Man, key: uint64, data: seq<byte>)
    requires Valid(m) && key in m.index && |data| >= 1 && !UpdateMan(m, key, data).0
    ensures Valid(UpdateMan(m, key, data).1)
    ensures SomePageHasRoom(UpdateMan(m, key, data).1, |data|) <==> SomePageHasRoom(m, |data|)
  {
    hide PageOk, Update, Free, Keys, Agree;
    UpdateCorrect(m, key, data);
    var b, m1 := m.index[key], UpdateMan(m, key, data).1;
    MovedFromFull(m, key, data);
    if SomePageHasRoom(m, |data|) {
      var c :| 0 <= c < |m.pages| && |data| + RDF_SIZE <= Free(PageRecords(m, c));
      assert |data| + RDF_SIZE <= Free(PageRecords(m1, c));
    }
    if SomePageHasRoom(m1, |data|) {
      var c :| 0 <= c < |m1.pages| && |data| + RDF_SIZE <= Free(PageRecords(m1, c));
      assert |data| + RDF_SIZE <= Free(PageRecords(m, c));
    }
  }

  lemma MovedFromFull(m: Man, key: uint64, data: seq<byte>)
    requires Valid(m) && key in m.index && |data| >= 1 && !UpdateMan(m, key, data).0
    ensures var b, m1 := m.index[key], UpdateMan(m, key, data).1;
            && Valid(m1) && b < |m.pages| == |m1.pages|
            && |data| + RDF_SIZE > Free(PageRecords(m, b)) && |data| + RDF_SIZE > Free(PageRecords(m1, b))
  {
    hide Free, Keys, Update, PageOk, Find;
    UpdateCorrect(m, key, data);
    PagesFit(m);
    var b := m.index[key];
    assert key in Keys(m.pages[b].records);
    FindInKeys(m.pages[b].records, key);
    UpdateFails(m.pages[b], Find(m.pages[b].records, key), data);
  }

  /** Below the limit a write grows the record exactly when it is not replaced in its page and no page has
      room for it. */
  lemma WriteGrowsIff(cfg: Config, m: Man, key: uint64, record: seq<byte>)
    requires Valid(m) && Writable(cfg, record) && |record| <= MAX_RECORD_SIZE && !Full(cfg, m.index - {key})
    ensures var st, data := Write(cfg, m, key, record).1, Stored(cfg, record);
            st.Done? && (st.reallocated <==>
              !(key in m.index && UpdateMan(m, key, data).0) && !SomePageHasRoom(m, |data|))
  {
    hide Valid, UpdateMan, Place, SomePageHasRoom;
    var data := Stored(cfg, record);
    WriteCases(cfg, m, key, record);
    if key in m.index {
      UpdateIndex(m, key, data);
      if !UpdateMan(m, key, data).0 {
        MovedRoom(m, key, data);
        PlaceWhere(UpdateMan(m, key, data).1, key, data);
      }
    } else {
      assert m.index - {key} == m.index;
      PlaceWhere(m, key, data);
    }
  }

  // ----- which pages a write leaves alone

  /** The first pages of `m'` have lost keys, or are the pages of `m`. */
  ghost predicate KeysLost(m: Man, m': Man) {
    && |m'.pages| == |m.pages|
    && forall b :: 0 <= b < |m.pages| ==>
         && Keys(m'.pages[b].records) <= Keys(m.pages[b].records)
         && (m'.pages[b] == m.pages[b] || Keys(m'.pages[b].records) < Keys(m.pages[b].records))
  }

  lemma DeleteKeysLost(m: Man, key: uint64)
    requires Valid(m) && key in m.index
    ensures KeysLost(m, Delete(m, key))
  {
    hide Keys, Get, Remove, PageOk, Fits;
    PagesFit(m);
    var b := m.index[key];
    assert PageOk(m.pages[b]) && key in Keys(m.pages[b].records);
    FindInKeys(m.pages[b].records, key);
    RemovePage(m.pages[b], Find(m.pages[b].records, key));
  }

  lemma NoKeysLost(m: Man)
    ensures KeysLost(m, m)
  {
    hide Keys;
  }

  lemma KeysLostTwice(m: Man, m1: Man, m2: Man)
    requires KeysLost(m, m1) && KeysLost(m1, m2)
    ensures KeysLost(m, m2)
  {
    hide Keys;
  }

  lemma {:induction false} EvictKeysLost(cfg: Config, m: Man, key: uint64)
    requires Valid(m) && cfg.recordLimit >= 1
    ensures KeysLost(m, Evict(cfg, m, key).man)
    decreases |m.index|
  {
    hide Valid, Delete, KeysLost, IsFirst, Rank;
    NoKeysLost(m);
    if |m.index| >= cfg.recordLimit {
      var first := FirstKey(m.index.Keys);
      if key >= first {
        DeleteCorrect(m, first);
        DeleteKeysLost(m, first);
        EvictKeysLost(cfg, Delete(m, first), key);
        KeysLostTwice(m, Delete(m, first), Evict(cfg, Delete(m, first), key).man);
      }
    }
  }

  /** A page that neither held the key nor holds it now, and has lost none, is as it was. */
  ghost predicate Untouched(m: Man, m': Man, key: uint64) {
    && |m.pages| <= |m'.pages|
    && forall b :: 0 <= b < |m.pages| ==>
         (Keys(m'.pages[b].records) == Keys(m.pages[b].records) && key !in Keys(m.pages[b].records) ==>
            m'.pages[b] == m.pages[b])
  }

  lemma PlaceUntouched(m: Man, m1: Man, key: uint64, data: seq<byte>)
    requires Valid(m1) && |data| <= MAX_RECORD_SIZE && KeysLost(m, m1)
    ensures Untouched(m, Place(m1, key, data), key)
  {
    hide Valid, Place;
    PlaceWhere(m1, key, data);
    var m' := Place(m1, key, data);
    var t := m'.index[key];
    assert t < |m.pages| ==> Record(key, data) in m'.pages[t].records;
  }

  lemma InsertUntouched(cfg: Config, m: Man, m1: Man, key: uint64, data: seq<byte>)
    requires Valid(m1) && LimitSound(cfg) && |data| <= MAX_RECORD_SIZE && KeysLost(m, m1)
    ensures Untouched(m, Insert(cfg, m1, key, data).0, key)
  {
    hide Valid, Place, Keys, Evict;
    if Full(cfg, m1.index) {
      var e := Evict(cfg, m1, key);
      EvictKeysLost(cfg, m1, key);
      KeysLostTwice(m, m1, e.man);
      if !e.refused {
        PlaceUntouched(m, e.man, key, data);
      }
    } else {
      PlaceUntouched(m, m1, key, data);
    }
  }

  /** A write rewrites no page but those that held the key, hold it now, or gave up a key. */
  lemma WriteUntouched(cfg: Config, m: Man, key: uint64, record: seq<byte>)
    requires Valid(m) && Writable(cfg, record)
    ensures Untouched(m, Write(cfg, m, key, record).0, key)
  {
    hide Valid, Insert, UpdateMan, Keys, Delete;
    var data := Stored(cfg, record);
    WriteCases(cfg, m, key, record);
    if |record| <= MAX_RECORD_SIZE {
      if key in m.index {
        var u := UpdateMan(m, key, data);
        UpdateCorrect(m, key, data);
        if u.0 {
          UpdateUntouched(m, key, data);
        } else {
          DeleteKeysLost(m, key);
          InsertUntouched(cfg, m, u.1, key, data);
        }
      } else {
        InsertUntouched(cfg, m, m, key, data);
      }
    }
  }

  lemma UpdateUntouched(m: Man, key: uint64, data: seq<byte>)
    requires Valid(m) && key in m.index
    ensures Untouched(m, UpdateMan(m, key, data).1, key)
  {
    hide UpdatePage, PageOk;
    assert key in Keys(m.pages[m.index[key]].records);
  }

  // ----- the answer above a lowered limit

  /** How many keys the index orders before this one. */
  ghost function RankedBelow(keys: set<uint64>, key: uint64): set<uint64> {
    set k | k in keys && Rank(k) < Rank(key)
  }

  /** One of the first keys, which would have to go, is numerically above the new key. */
  ghost predicate StopsAt(keys: set<uint64>, limit: int, key: uint64, k: uint64) {
    k in keys && key < k && |RankedBelow(keys, k)| <= |keys| - limit
  }

  lemma RankedBelowRest(keys: set<uint64>, first: uint64, k: uint64)
    requires IsFirst(keys, first) && k in keys && k != first
    ensures |RankedBelow(keys, k)| == |RankedBelow(keys - {first}, k)| + 1
  {
    hide Rank;
    assert first in RankedBelow(keys, k) by {
      if Rank(first) == Rank(k) {
        RankInjective(first, k);
      }
    }
    assert RankedBelow(keys, k) == RankedBelow(keys - {first}, k) + {first};
  }

  lemma NothingBelowFirst(keys: set<uint64>, first: uint64)
    requires IsFirst(keys, first)
    ensures RankedBelow(keys, first) == {}
  {
    hide Rank;
  }

  /** Eviction refuses the new key exactly when one of the keys that would have to go is numerically above
      it; otherwise it removes just as many as must go. */
  lemma {:induction false} EvictRefusesIff(cfg: Config, m: Man, key: uint64)
    requires Valid(m) && cfg.recordLimit >= 1 && |m.index| >= cfg.recordLimit
    ensures var e := Evict(cfg, m, key);
            && (e.refused <==> exists k :: StopsAt(m.index.Keys, cfg.recordLimit, key, k))
            && (!e.refused ==> e.removed == |m.index| - cfg.recordLimit + 1)
    decreases |m.index|
  {
    hide Valid, Delete, Rank, IsFirst, RankedBelow;
    var first, keys := FirstKey(m.index.Keys), m.index.Keys;
    NothingBelowFirst(keys, first);
    assert |keys| == |m.index|;
    if key < first {
      assert StopsAt(keys, cfg.recordLimit, key, first);
    } else {
      var d := Delete(m, first);
      DeleteCorrect(m, first);
      assert d.index.Keys == Contents(d).Keys == keys - {first};
      forall k | k in keys && k != first
        ensures StopsAt(keys, cfg.recordLimit, key, k) <==> StopsAt(d.index.Keys, cfg.recordLimit, key, k)
      {
        RankedBelowRest(keys, first, k);
      }
      if |d.index| >= cfg.recordLimit {
        EvictRefusesIff(cfg, d, key);
      } else {
        NoneStops(d.index.Keys, cfg.recordLimit, key);
      }
    }
  }

  lemma NoneStops(keys: set<uint64>, limit: int, key: uint64)
    requires |keys| < limit
    ensures forall k :: !StopsAt(keys, limit, key, k)
  {
  }

  /** The answer to every write of a key that is not in the index, also above a lowered limit. */
  lemma InsertAnswer(cfg: Config, m: Man, key: uint64, data: seq<byte>)
    requires Valid(m) && LimitSound(cfg) && |data| <= MAX_RECORD_SIZE
    ensures var st, n := Insert(cfg, m, key, data).1, |m.index|;
            && st.Done? && (st.countLimit <==> Full(cfg, m.index))
            && (st.oldRecord <==> Full(cfg, m.index) && exists k :: StopsAt(m.index.Keys, cfg.recordLimit, key, k))
            && (st.needDefrag <==> Full(cfg, m.index) && !st.oldRecord
                                   && n - cfg.recordLimit + 1 >= cfg.defragAfterRecordDelete)
  {
    hide Valid, Evict, Place, StopsAt;
    if Full(cfg, m.index) {
      EvictRefusesIff(cfg, m, key);
    }
  }

  /** The answer to every write that is not too big: all clear when the record is replaced in its page, and
      otherwise that of adding the key to the others. */
  lemma WriteAnswers(cfg: Config, m: Man, key: uint64, record: seq<byte>)
    requires Valid(m) && Writable(cfg, record) && |record| <= MAX_RECORD_SIZE
    ensures var st, rest, data := Write(cfg, m, key, record).1, m.index - {key}, Stored(cfg, record);
            && st.Done?
            && if key in m.index && UpdateMan(m, key, data).0 then st == Done(false, false, false, false)
               else
                 && (st.countLimit <==> Full(cfg, rest))
                 && (st.oldRecord <==> Full(cfg, rest) && exists k :: StopsAt(rest.Keys, cfg.recordLimit, key, k))
                 && (st.needDefrag <==> Full(cfg, rest) && !st.oldRecord
                                        && |rest| - cfg.recordLimit + 1 >= cfg.defragAfterRecordDelete)
  {
    hide Valid, Insert, UpdateMan, StopsAt;
    var data := Stored(cfg, record);
    WriteCases(cfg, m, key, record);
    if key in m.index {
      UpdateIndex(m, key, data);
      var u := UpdateMan(m, key, data);
      if !u.0 {
        InsertAnswer(cfg, u.1, key, data);
      }
    } else {
      assert m.index - {key} == m.index;
      InsertAnswer(cfg, m, key, data);
    }
  }

  // ----- growth

  lemma WriteCases(cfg: Config, m: Man, key: uint64, record: seq<byte>)
    requires Valid(m) && Writable(cfg, record)
    ensures var r, data := Write(cfg, m, key, record), Stored(cfg, record);
            if |record| > MAX_RECORD_SIZE then r == (m, TooBig)
            else if key in m.index then
              var u := UpdateMan(m, key, data);
              && (u.0 ==> r == (u.1, Done(false, false, false, false)))
              && (!u.0 ==> Valid(u.1) && r == Insert(cfg, u.1, key, data))
            else r == Insert(cfg, m, key, data)
  {
    hide Valid, Insert, UpdateMan;
    if key in m.index && |record| <= MAX_RECORD_SIZE {
      UpdateCorrect(m, key, Stored(cfg, record));
    }
  }

  lemma {:induction false} PagesAtMostKeys(m: Man, n: nat) returns (keys: set<uint64>)
    requires Valid(m) && n <= |m.pages| && forall b :: 0 <= b < |m.pages| ==> m.pages[b].records != []
    ensures |keys| == n && keys <= m.index.Keys
    ensures forall k :: k in keys ==> m.index[k] < n
  {
    if n == 0 {
      keys := {};
    } else {
      keys := PagesAtMostKeys(m, n - 1);
      var r := m.pages[n - 1].records[0];
      assert r in m.pages[n - 1].records;
      assert r.key in Keys(m.pages[n - 1].records);
      keys := keys + {r.key};
    }
  }

  /** A manager grows only when every page holds a record, so never beyond one page per key. */
  lemma PlaceGrowth(m: Man, key: uint64, data: seq<byte>)
    requires Valid(m) && key !in m.index && |data| <= MAX_RECORD_SIZE
    ensures |Place(m, key, data).pages| > |m.pages| ==> |Place(m, key, data).pages| <= |m.index| + 1
  {
    PagesFit(m);
    if Target(m.pages, |m.pages|, |data|) == |m.pages| {
      forall b | 0 <= b < |m.pages| ensures m.pages[b].records != [] {
        assert !CanTake(m.pages[b], |data|);
      }
      var keys := PagesAtMostKeys(m, |m.pages|);
      SubsetCardinality(keys, m.index.Keys);
    }
  }

  /** With the limit on, the page count never exceeds the limit once it does not. */
  lemma WriteGrowth(cfg: Config, m: Man, key: uint64, record: seq<byte>)
    requires Valid(m) && Writable(cfg, record) && cfg.enableRecordLimit
    requires |m.pages| <= cfg.recordLimit <= MAX_BLOCKS && WithinLimit(cfg, |m.index|)
    ensures |Write(cfg, m, key, record).0.pages| <= cfg.recordLimit && HasRoom(cfg, m, key, record)
  {
    hide Valid, Write, Insert, UpdateMan;
    var data := Stored(cfg, record);
    WriteTouches(cfg, m, key, record);
    WriteCases(cfg, m, key, record);
    if |record| <= MAX_RECORD_SIZE {
      if key in m.index {
        UpdateCorrect(m, key, data);
        UpdateIndex(m, key, data);
        UpdateTouches(m, key, data);
        var u := UpdateMan(m, key, data);
        if !u.0 {
          InsertGrowth(cfg, u.1, key, data);
        }
      } else {
        InsertGrowth(cfg, m, key, data);
      }
    }
  }

  lemma InsertGrowth(cfg: Config, m: Man, key: uint64, data: seq<byte>)
    requires Valid(m) && LimitSound(cfg) && |data| <= MAX_RECORD_SIZE && key !in m.index
    requires cfg.enableRecordLimit && |m.pages| <= cfg.recordLimit && |m.index| <= cfg.recordLimit
    ensures |Insert(cfg, m, key, data).0.pages| <= cfg.recordLimit
  {
    hide Valid, Place, IsFirst, Evict;
    if |m.index| >= cfg.recordLimit {
      var e := Evict(cfg, m, key);
      EvictTouches(cfg, m, key);
      if !e.refused {
        PlaceGrowth(e.man, key, data);
      }
    } else {
      PlaceGrowth(m, key, data);
    }
  }
}
