/** Which records survive a long run of writes under a fixed record limit. */
module Retention {
  import opened Bytes
  import opened Pages
  import opened Config
  import opened Manager
  import opened Writes
  import opened Sets

  datatype Entry = Entry(key: uint64, record: seq<byte>)

  /** A limit that the server can work with: at least 1, and a page count that fits its uint16. */
  predicate LimitInForce(cfg: Config) {
    cfg.enableRecordLimit && 1 <= cfg.recordLimit <= MAX_BLOCKS
  }

  /** blman_create(NULL, 0). */
  function Fresh(): (m: Man)
    ensures m.index == map[] && |m.pages| == 1
  {
    Man([EmptyPage()], map[])
  }

  lemma FreshValid()
    ensures Valid(Fresh())
  {
    EmptyPageOk();
  }

  ghost predicate Storable(cfg: Config, ws: seq<Entry>) {
    forall e :: e in ws ==> |Stored(cfg, e.record)| >= 1
  }

  /** The manager after a run of writes and no deletes. */
  ghost function WriteAll(cfg: Config, ws: seq<Entry>): (m: Man)
    requires LimitInForce(cfg) && Storable(cfg, ws)
    ensures Valid(m) && |m.pages| <= cfg.recordLimit && |m.index| <= cfg.recordLimit
  {
    if ws == [] then FreshValid(); Fresh()
    else
      var m, e := WriteAll(cfg, ws[..|ws| - 1]), ws[|ws| - 1];
      WriteGrowth(cfg, m, e.key, e.record);
      WriteCorrect(cfg, m, e.key, e.record);
      Write(cfg, m, e.key, e.record).0
  }

  /** The keys of all writes that were not too big. */
  function WrittenKeys(ws: seq<Entry>): set<uint64> {
    set e | e in ws && |e.record| <= MAX_RECORD_SIZE :: e.key
  }

  function LastRecord(ws: seq<Entry>, key: uint64): seq<byte> {
    if ws == [] then []
    else if ws[|ws| - 1].key == key && |ws[|ws| - 1].record| <= MAX_RECORD_SIZE then ws[|ws| - 1].record
    else LastRecord(ws[..|ws| - 1], key)
  }

  /** `kept` are the `limit` largest members of `all`. */
  ghost predicate LargestOf(kept: set<uint64>, all: set<uint64>, limit: nat) {
    && kept <= all
    && |kept| == (if |all| < limit then |all| else limit)
    && forall k, j :: k in kept && j in all && j !in kept ==> j < k
  }

  lemma SameSizeSubset<T>(a: set<T>, b: set<T>)
    requires a <= b && |a| == |b|
    ensures a == b
  {
    assert b == a + (b - a);
  }

  lemma WrittenLast(ws: seq<Entry>)
    requires ws != []
    ensures var n := |ws| - 1;
            WrittenKeys(ws) == WrittenKeys(ws[..n]) + if |ws[n].record| <= MAX_RECORD_SIZE then {ws[n].key} else {}
  {
    var n := |ws| - 1;
    assert ws == ws[..n] + [ws[n]];
  }

  /** The keys after one more write, from the keys before. */
  ghost predicate KeysStep(kept: set<uint64>, kept': set<uint64>, key: uint64, limit: nat) {
    if key in kept then kept' == kept
    else if |kept| < limit then kept' == kept + {key}
    else kept != {} && var first := FirstKey(kept);
         kept' == if key < first then kept else kept - {first} + {key}
  }

  lemma WriteAllEmpty(cfg: Config)
    requires LimitInForce(cfg)
    ensures WriteAll(cfg, []) == Fresh() && WrittenKeys([]) == {}
  {
  }

  lemma PutKeys<V>(cfg: Config, c: map<uint64, V>, key: uint64, v: V)
    requires LimitInForce(cfg) && |c| <= cfg.recordLimit
    ensures KeysStep(c.Keys, LimitedPut(cfg, c, key, v).Keys, key, cfg.recordLimit)
  {
    hide Rank, IsFirst;
    assert |c| == |c.Keys|;
    if key !in c && |c| == cfg.recordLimit {
      assert c.Keys != {};
    }
  }

  lemma WriteAllLast(cfg: Config, ws: seq<Entry>)
    requires LimitInForce(cfg) && Storable(cfg, ws) && ws != []
    ensures Storable(cfg, ws[..|ws| - 1]) && |Stored(cfg, ws[|ws| - 1].record)| >= 1
    ensures var m, e := WriteAll(cfg, ws[..|ws| - 1]), ws[|ws| - 1];
            WriteAll(cfg, ws) == Write(cfg, m, e.key, e.record).0 && HasRoom(cfg, m, e.key, e.record)
  {
    hide Valid, Write, Stored;
    var m, e := WriteAll(cfg, ws[..|ws| - 1]), ws[|ws| - 1];
    WriteGrowth(cfg, m, e.key, e.record);
  }

  lemma WriteStep(cfg: Config, ws: seq<Entry>)
    requires LimitInForce(cfg) && Storable(cfg, ws) && ws != []
    ensures var m, m', e := WriteAll(cfg, ws[..|ws| - 1]), WriteAll(cfg, ws), ws[|ws| - 1];
            if |e.record| > MAX_RECORD_SIZE then m' == m
            else
              && Contents(m') == LimitedPut(cfg, Contents(m), e.key, Stored(cfg, e.record))
              && KeysStep(m.index.Keys, m'.index.Keys, e.key, cfg.recordLimit)
  {
    hide Valid, Write, Contents, FirstKey, WriteAll, Stored, KeysStep, LimitedPut, Storable, HasRoom;
    WriteAllLast(cfg, ws);
    var m, e := WriteAll(cfg, ws[..|ws| - 1]), ws[|ws| - 1];
    WriteCorrect(cfg, m, e.key, e.record);
    PutKeys(cfg, Contents(m), e.key, Stored(cfg, e.record));
  }

  /** The index orders these keys as numbers. */
  ghost predicate OrderedAlike(keys: set<uint64>) {
    forall a, b :: a in keys && b in keys && Rank(a) <= Rank(b) ==> a <= b
  }

  lemma OrderedOnBigEndian(keys: set<uint64>)
    requires HOST_IS_BIG_ENDIAN
    ensures OrderedAlike(keys)
  {
    hide Rank;
    forall a, b | a in keys && b in keys && Rank(a) <= Rank(b) ensures a <= b {
      RankNumericOnBigEndian(a);
      RankNumericOnBigEndian(b);
    }
  }

  /** On every host the keys of one byte are. */
  lemma ByteKeysOrdered(keys: set<uint64>)
    requires forall k :: k in keys ==> k < 256
    ensures OrderedAlike(keys)
  {
    hide Rank;
    forall a, b | a in keys && b in keys && Rank(a) <= Rank(b) ensures a <= b {
      if HOST_IS_BIG_ENDIAN {
        RankNumericOnBigEndian(a);
        RankNumericOnBigEndian(b);
      } else if b < a {
        ByteRanks(b, a);
      }
    }
  }

  lemma ByteRanks(a: uint64, b: uint64)
    requires !HOST_IS_BIG_ENDIAN && a < b < 256
    ensures Rank(a) < Rank(b)
  {
    var z: seq<byte> := seq(7, _ => 0);
    ByteImage(a);
    ByteImage(b);
    assert ([a] + z)[..0] == ([b] + z)[..0] && ([a] + z)[0] < ([b] + z)[0];
    MemcmpIsBigEndianOrder([a] + z, [b] + z);
  }

  lemma ByteImage(k: uint64)
    requires !HOST_IS_BIG_ENDIAN && k < 256
    ensures PutUint(k, 8) == [k] + seq(7, _ => 0)
  {
    LittleEndianZero(7);
  }

  lemma NumericFirst(kept: set<uint64>)
    requires kept != {} && (OrderedAlike(kept) || |kept| == 1)
    ensures forall k :: k in kept && k != FirstKey(kept) ==> FirstKey(kept) < k
  {
    hide Rank;
    var first := FirstKey(kept);
    forall k | k in kept && k != first ensures first < k {
      if !OrderedAlike(kept) {
        SameSizeSubset({first}, kept);
      }
    }
  }

  lemma ReplaceFirst(kept: set<uint64>, all: set<uint64>, first: uint64, key: uint64, limit: nat)
    requires limit >= 1 && LargestOf(kept, all, limit) && |kept| == limit && key !in kept && first in kept
    requires forall k :: k in kept && k != first ==> first < k
    ensures LargestOf(if key < first then kept else kept - {first} + {key}, all + {key}, limit)
  {
    SubsetCardinality(kept, all);
    SubsetCardinality(all, all + {key});
    assert |kept - {first} + {key}| == |kept|;
  }

  lemma KeepLargest(kept: set<uint64>, kept': set<uint64>, all: set<uint64>, key: uint64, limit: nat)
    requires limit >= 1 && LargestOf(kept, all, limit) && KeysStep(kept, kept', key, limit)
    requires OrderedAlike(all) || limit == 1
    ensures LargestOf(kept', all + {key}, limit)
  {
    hide Rank, FirstKey, IsFirst;
    if key in kept {
      assert all + {key} == all;
    } else if |kept| < limit {
      SameSizeSubset(kept, all);
    } else {
      NumericFirst(kept);
      ReplaceFirst(kept, all, FirstKey(kept), key, limit);
    }
  }

  /** When the index orders the keys written as numbers, on whatever host, or with limit 1, exactly the
      largest keys are kept. */
  lemma {:induction false} KeepsLargest(cfg: Config, ws: seq<Entry>)
    requires LimitInForce(cfg) && Storable(cfg, ws)
    requires OrderedAlike(WrittenKeys(ws)) || cfg.recordLimit == 1
    ensures LargestOf(WriteAll(cfg, ws).index.Keys, WrittenKeys(ws), cfg.recordLimit)
  {
    hide Valid, Write, LargestOf, KeysStep, WriteAll, WrittenKeys, Rank;
    if ws == [] {
      WriteAllEmpty(cfg);
      NothingLargest(cfg.recordLimit);
    } else {
      var rest := ws[..|ws| - 1];
      WrittenLast(ws);
      KeepsLargest(cfg, rest);
      WriteStep(cfg, ws);
      var m, m', e := WriteAll(cfg, rest), WriteAll(cfg, ws), ws[|ws| - 1];
      if |e.record| <= MAX_RECORD_SIZE {
        KeepLargest(m.index.Keys, m'.index.Keys, WrittenKeys(rest), e.key, cfg.recordLimit);
      } else {
        assert WrittenKeys(rest) + {} == WrittenKeys(rest);
      }
    }
  }

  lemma NothingLargest(limit: nat)
    ensures LargestOf({}, {}, limit)
  {
  }

  /** Whatever is kept is the last record written under its key. */
  lemma {:induction false} KeepsLastRecords(cfg: Config, ws: seq<Entry>)
    requires LimitInForce(cfg) && Storable(cfg, ws)
    ensures var c := Contents(WriteAll(cfg, ws));
            forall k :: k in c ==> k in WrittenKeys(ws) && c[k] == Stored(cfg, LastRecord(ws, k))
  {
    hide Valid, Write, Contents, FirstKey, WriteAll, WrittenKeys, Stored, IsFirst, KeysStep;
    if ws == [] {
      WriteAllEmpty(cfg);
    } else {
      KeepsLastRecords(cfg, ws[..|ws| - 1]);
      WriteStep(cfg, ws);
      WrittenLast(ws);
    }
  }

  // ----- little-endian hosts

  lemma {:induction false} KeepsAllBelowLimit(cfg: Config, ws: seq<Entry>)
    requires LimitInForce(cfg) && Storable(cfg, ws) && |WrittenKeys(ws)| <= cfg.recordLimit
    ensures WriteAll(cfg, ws).index.Keys == WrittenKeys(ws)
  {
    hide Valid, Write, WriteAll, WrittenKeys, IsFirst;
    if ws == [] {
      WriteAllEmpty(cfg);
    } else {
      var rest := ws[..|ws| - 1];
      WrittenLast(ws);
      SubsetCardinality(WrittenKeys(rest), WrittenKeys(ws));
      KeepsAllBelowLimit(cfg, rest);
      WriteStep(cfg, ws);
      var key := ws[|ws| - 1].key;
      if key !in WrittenKeys(rest) && |WrittenKeys(rest)| == cfg.recordLimit {
        SameSizeSubset(WrittenKeys(rest), WrittenKeys(ws));
      }
    }
  }

  /** Key 1, then the first `n` multiples of 256. */
  function Probe(n: nat): (ws: seq<Entry>)
    requires n <= MAX_BLOCKS
    ensures |ws| == n + 1
  {
    if n == 0 then [Entry(1, [7])] else Probe(n - 1) + [Entry(256 * n, [7])]
  }

  lemma ProbeZero()
    ensures Probe(0) == [Entry(1, [7])] && WrittenKeys(Probe(0)) == {1}
  {
  }

  lemma {:induction false} ProbeKeys(n: nat)
    requires n <= MAX_BLOCKS
    ensures forall e :: e in Probe(n) ==> e.record == [7]
    ensures forall k :: k in WrittenKeys(Probe(n)) ==> 1 <= k < 256 * (n + 1)
    ensures 1 in WrittenKeys(Probe(n)) && (n >= 1 ==> 256 in WrittenKeys(Probe(n)))
    ensures |WrittenKeys(Probe(n))| == n + 1
  {
    hide WrittenKeys, Probe;
    if n == 0 {
      ProbeZero();
    } else {
      ProbeKeys(n - 1);
      ProbeLast(n);
      WrittenLast(Probe(n));
    }
  }

  lemma MultiplesRankBelowOne(i: nat)
    requires !HOST_IS_BIG_ENDIAN && i <= MAX_BLOCKS
    ensures Rank(256 * i) < Rank(1)
  {
    var a, b := LittleEndian(256 * i, 8), LittleEndian(1, 8);
    assert a[0] == 0 && b[0] == 1;
    assert a[..0] == b[..0];
    MemcmpIsBigEndianOrder(a, b);
  }

  /** With a limit of two or more a little-endian host keeps key 1 and drops a larger one. */
  lemma LittleEndianKeepsSmallKey(cfg: Config)
    requires LimitInForce(cfg) && !HOST_IS_BIG_ENDIAN && cfg.recordLimit >= 2
    requires Storable(cfg, Probe(cfg.recordLimit))
    ensures var ws := Probe(cfg.recordLimit);
            !LargestOf(WriteAll(cfg, ws).index.Keys, WrittenKeys(ws), cfg.recordLimit)
  {
    hide Valid, Write, WriteAll, WrittenKeys, Rank, Stored, FirstKey, IsFirst, Probe, KeysStep, LargestOf, LimitedPut, Contents;
    var n := cfg.recordLimit;
    var ws, rest := Probe(n), Probe(n - 1);
    ProbeLast(n);
    ProbeKeys(n);
    ProbeKeys(n - 1);
    KeepsAllBelowLimit(cfg, rest);
    WriteStep(cfg, ws);
    WrittenLast(ws);
    NotFirst(WrittenKeys(rest));
    SmallKeyKept(WrittenKeys(rest), WriteAll(cfg, ws).index.Keys, 256 * n, n);
  }

  lemma SmallKeyKept(kept: set<uint64>, kept': set<uint64>, key: uint64, limit: nat)
    requires KeysStep(kept, kept', key, limit) && |kept| == limit >= 2
    requires 1 in kept && FirstKey(kept) != 1 && forall k :: k in kept ==> 1 <= k < key
    ensures !LargestOf(kept', kept + {key}, limit)
  {
    hide Rank, IsFirst;
    var first := FirstKey(kept);
    assert first in kept + {key} && first !in kept' && 1 in kept';
  }

  lemma ProbeLast(n: nat)
    requires 1 <= n <= MAX_BLOCKS
    ensures Probe(n)[..n] == Probe(n - 1) && Probe(n)[n] == Entry(256 * n, [7])
    ensures forall e :: e in Probe(n) <==> e in Probe(n - 1) || e == Entry(256 * n, [7])
  {
  }

  lemma NotFirst(keys: set<uint64>)
    requires !HOST_IS_BIG_ENDIAN && 1 in keys && 256 in keys
    ensures FirstKey(keys) != 1
  {
    hide Rank;
    MultiplesRankBelowOne(1);
  }

  ghost predicate AlwaysKeepsLargest(cfg: Config)
    requires LimitInForce(cfg)
  {
    forall ws :: Storable(cfg, ws) ==> LargestOf(WriteAll(cfg, ws).index.Keys, WrittenKeys(ws), cfg.recordLimit)
  }

  /** The retention promise ("the record key is a timestamp, rewrite from the oldest") holds for
      every run of writes exactly on big-endian hosts or with limit 1: the index compares the raw
      bytes of the keys. */
  lemma RetentionIff(cfg: Config)
    requires LimitInForce(cfg) && LawfulCodec(cfg)
    ensures AlwaysKeepsLargest(cfg) <==> HOST_IS_BIG_ENDIAN || cfg.recordLimit == 1
  {
    hide Valid, Write, LargestOf;
    if HOST_IS_BIG_ENDIAN || cfg.recordLimit == 1 {
      forall ws | Storable(cfg, ws)
        ensures LargestOf(WriteAll(cfg, ws).index.Keys, WrittenKeys(ws), cfg.recordLimit)
      {
        if HOST_IS_BIG_ENDIAN {
          OrderedOnBigEndian(WrittenKeys(ws));
        }
        KeepsLargest(cfg, ws);
      }
    } else {
      var ws := Probe(cfg.recordLimit);
      ProbeKeys(cfg.recordLimit);
      assert Storable(cfg, ws) by {
        assert |Stored(cfg, [7])| >= 1;
      }
      LittleEndianKeepsSmallKey(cfg);
    }
  }
}
