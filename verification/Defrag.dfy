/** blman_defragment_data on values: it keeps the contents and never needs more pages. */
module Defrag {
  import opened Bytes
  import opened Pages
  import opened Config
  import opened Manager
  import opened Writes
  import opened Retention

  /** All records of the first `n` pages, in page order. */
  function AllRecords(pages: seq<Page>, n: nat): seq<Record>
    requires n <= |pages|
  {
    if n == 0 then [] else AllRecords(pages, n - 1) + pages[n - 1].records
  }

  /** Every stored record survives being unpacked and written again. */
  ghost predicate AllCanonical(cfg: Config, pages: seq<Page>) {
    forall b, r :: 0 <= b < |pages| && r in pages[b].records ==> Canonical(cfg, r.data)
  }

  ghost predicate CanonicalRecords(cfg: Config, rs: seq<Record>) {
    forall r :: r in rs ==> Canonical(cfg, r.data)
  }

  /** Writing the (unpacked) records `rs` into `m`, in order. */
  ghost function Reinsert(cfg: Config, m: Man, rs: seq<Record>): (r: Man)
    requires Valid(m) && LimitSound(cfg) && CanonicalRecords(cfg, rs)
  {
    if rs == [] then m
    else
      var n := |rs| - 1;
      assert rs[n] in rs && forall r :: r in rs[..n] ==> r in rs;
      var before := Reinsert(cfg, m, rs[..n]);
      if Valid(before) then Write(cfg, before, rs[n].key, Expand(cfg, rs[n].data)).0 else before
  }

  ghost function Defragment(cfg: Config, m: Man): Man
    requires Valid(m) && LimitSound(cfg) && AllCanonical(cfg, m.pages)
  {
    if |m.index| == 0 then m
    else
      FreshValid();
      AllRecordsCanonical(cfg, m.pages, |m.pages|);
      Reinsert(cfg, Fresh(), AllRecords(m.pages, |m.pages|))
  }

  lemma {:induction false} AllRecordsCanonical(cfg: Config, pages: seq<Page>, n: nat)
    requires AllCanonical(cfg, pages) && n <= |pages|
    ensures CanonicalRecords(cfg, AllRecords(pages, n))
  {
    hide Canonical;
    if n > 0 {
      AllRecordsCanonical(cfg, pages, n - 1);
    }
  }

  // ----- records as a map

  function MapOf(rs: seq<Record>): map<uint64, seq<byte>> {
    if rs == [] then map[] else MapOf(rs[..|rs| - 1])[rs[|rs| - 1].key := rs[|rs| - 1].data]
  }

  lemma UniquePrefix(rs: seq<Record>, n: nat)
    requires UniqueKeys(rs) && n < |rs|
    ensures UniqueKeys(rs[..n]) && rs[n].key !in MapOf(rs[..n])
  {
    MapOfKeys(rs[..n]);
  }

  lemma {:induction false} MapOfKeys(rs: seq<Record>)
    ensures MapOf(rs).Keys == Keys(rs)
  {
    if rs != [] {
      MapOfKeys(rs[..|rs| - 1]);
      assert rs == rs[..|rs| - 1] + [rs[|rs| - 1]];
    }
  }

  lemma {:induction false} MapOfUnique(rs: seq<Record>)
    requires UniqueKeys(rs)
    ensures |MapOf(rs)| == |rs|
    ensures forall i :: 0 <= i < |rs| ==> rs[i].key in MapOf(rs) && MapOf(rs)[rs[i].key] == rs[i].data
  {
    if rs != [] {
      var n := |rs| - 1;
      UniquePrefix(rs, n);
      MapOfUnique(rs[..n]);
      assert forall i :: 0 <= i < n ==> rs[..n][i] == rs[i];
    }
  }

  lemma {:induction false} AllRecordsUnique(m: Man, n: nat)
    requires Valid(m) && n <= |m.pages|
    ensures UniqueKeys(AllRecords(m.pages, n))
    ensures forall k :: k in Keys(AllRecords(m.pages, n)) <==> k in m.index && m.index[k] < n
    ensures forall r :: r in AllRecords(m.pages, n) ==> Lookup(m, r.key) == r.data
  {
    if n > 0 {
      AllRecordsUnique(m, n - 1);
      AllRecordsStep(m, n, AllRecords(m.pages, n - 1));
    }
  }

  lemma AllRecordsStep(m: Man, n: nat, before: seq<Record>)
    requires Valid(m) && 1 <= n <= |m.pages| && UniqueKeys(before)
    requires forall k :: k in Keys(before) <==> k in m.index && m.index[k] < n - 1
    requires forall r :: r in before ==> Lookup(m, r.key) == r.data
    ensures var rs := before + m.pages[n - 1].records;
            && UniqueKeys(rs)
            && (forall k :: k in Keys(rs) <==> k in m.index && m.index[k] < n)
            && forall r :: r in rs ==> Lookup(m, r.key) == r.data
  {
    var page := m.pages[n - 1].records;
    var rs := before + page;
    assert forall r :: r in rs <==> r in before || r in page;
    assert forall k :: k in Keys(page) <==> k in m.index && m.index[k] == n - 1;
    forall i | 0 <= i < |page|
      ensures page[i].key in Keys(page) && page[i].key !in Keys(before) && Lookup(m, page[i].key) == page[i].data
    {
      GetAt(page, i);
    }
    forall i, j | 0 <= i < j < |rs| ensures rs[i].key != rs[j].key {
      if i < |before| && j >= |before| {
        assert before[i] in before;
        assert rs[j] == page[j - |before|];
      }
    }
  }

  /** The records of all pages are exactly the contents. */
  lemma AllRecordsContents(m: Man)
    requires Valid(m)
    ensures var rs := AllRecords(m.pages, |m.pages|);
            UniqueKeys(rs) && |rs| == |m.index| && MapOf(rs) == Contents(m)
  {
    hide Valid, Lookup;
    var rs := AllRecords(m.pages, |m.pages|);
    AllRecordsUnique(m, |m.pages|);
    MapOfUnique(rs);
    MapOfKeys(rs);
    IndexInRange(m);
    assert MapOf(rs).Keys == Contents(m).Keys;
    forall k | k in Contents(m) ensures MapOf(rs)[k] == Contents(m)[k] {
      FindInKeys(rs, k);
      assert rs[Find(rs, k)] in rs;
    }
    assert |rs| == |MapOf(rs)| == |Contents(m)|;
  }

  lemma IndexInRange(m: Man)
    requires Valid(m)
    ensures forall k :: k in m.index ==> m.index[k] < |m.pages|
  {
  }

  // ----- one record

  function UsedBytes(rs: seq<Record>): nat {
    Location(rs) + RDF_SIZE * |rs|
  }

  /** No page is empty, and every page is too full for the record that opened any later one. */
  ghost predicate Packed(pages: seq<Page>) {
    && (forall b :: 0 <= b < |pages| ==> pages[b].records != [])
    && forall b, c :: 0 <= b < c < |pages| ==>
         UsedBytes(pages[b].records) + |pages[c].records[0].data| + RDF_SIZE > CIDF_OFFSET
  }

  /** Placing a record keeps pages packed; placed first, it makes them so. */
  lemma PlacePacked(m: Man, key: uint64, data: seq<byte>)
    requires Valid(m) && |data| <= MAX_RECORD_SIZE && (m == Fresh() || Packed(m.pages))
    ensures Packed(Place(m, key, data).pages)
  {
    hide Append, UsedBytes, PageOk, Fits, CanTake;
    PagesFit(m);
    var r, t := Record(key, data), Target(m.pages, |m.pages|, |data|);
    forall b | 0 <= b < |m.pages|
      ensures CanTake(m.pages[b], |data|) <==> UsedBytes(m.pages[b].records) + |data| + RDF_SIZE <= CIDF_OFFSET
    {
      TakesUsed(m.pages[b], |data|);
    }
    EmptyUsed();
    if t < |m.pages| {
      AppendUsed(m.pages[t], r);
      AppendRecords(m.pages[t], r);
    } else {
      AppendRecords(EmptyPage(), r);
    }
  }

  lemma TakesUsed(p: Page, size: nat)
    requires Fits(p.records)
    ensures CanTake(p, size) <==> UsedBytes(p.records) + size + RDF_SIZE <= CIDF_OFFSET
  {
  }

  lemma AppendRecords(p: Page, r: Record)
    requires Fits(p.records) && CanTake(p, |r.data|)
    ensures Append(p, r).records == p.records + [r]
  {
  }

  /** No two packed pages would fit into one. */
  lemma PackedPairs(pages: seq<Page>, b: nat, c: nat)
    requires Packed(pages) && b < |pages| && c < |pages| && b != c
    ensures UsedBytes(pages[b].records) + UsedBytes(pages[c].records) > CIDF_OFFSET
  {
    Around(pages[b].records, 0);
    Around(pages[c].records, 0);
  }

  /** The last page holds at most `used` bytes. */
  predicate LastPageWithin(m: Man, used: nat) {
    m.pages != [] && UsedBytes(m.pages[|m.pages| - 1].records) <= used
  }

  /** Writing one new record: it is added; if the last page has room for it, it goes there, and if
      a page is opened the record is all it holds. */
  lemma InsertOne(cfg: Config, m: Man, r: Record, used: nat)
    requires Valid(m) && LimitSound(cfg) && Canonical(cfg, r.data) && r.key !in m.index
    requires !Full(cfg, m.index) && (|m.pages| < MAX_BLOCKS || LastPageWithin(m, used))
    requires used + |r.data| + RDF_SIZE <= CIDF_OFFSET
    ensures var m' := Write(cfg, m, r.key, Expand(cfg, r.data)).0;
            && Valid(m') && Contents(m') == Contents(m)[r.key := r.data]
            && |m.pages| <= |m'.pages| <= |m.pages| + 1 && HasRoom(cfg, m, r.key, Expand(cfg, r.data))
            && (LastPageWithin(m, used) ==> |m'.pages| == |m.pages|)
            && (LastPageWithin(m, used) || |m'.pages| > |m.pages| ==>
                  LastPageWithin(m', used + |r.data| + RDF_SIZE))
            && (m == Fresh() || Packed(m.pages) ==> Packed(m'.pages))
  {
    hide Packed;
    var size := |r.data|;
    var m' := Place(m, r.key, r.data);
    assert Write(cfg, m, r.key, Expand(cfg, r.data)).0 == m' by {
      hide Valid, Place;
    }
    if LastPageWithin(m, used) {
      LastIsTarget(m, used, size);
    }
    PlaceLast(m, r.key, r.data, used);
    if m == Fresh() || Packed(m.pages) {
      PlacePacked(m, r.key, r.data);
    }
    PlaceTouches(m, r.key, r.data);
    PlaceCorrect(m, r.key, r.data);
  }

  lemma LastIsTarget(m: Man, used: nat, size: nat)
    requires Valid(m) && used + size + RDF_SIZE <= CIDF_OFFSET && LastPageWithin(m, used)
    ensures Target(m.pages, |m.pages|, size) == |m.pages| - 1
  {
    PagesFit(m);
  }

  lemma AppendUsed(p: Page, r: Record)
    requires Fits(p.records) && CanTake(p, |r.data|)
    ensures UsedBytes(Append(p, r).records) == UsedBytes(p.records) + |r.data| + RDF_SIZE
  {
    LocationAppend(p.records, r);
  }

  lemma PlaceLast(m: Man, key: uint64, data: seq<byte>, used: nat)
    requires Valid(m) && |data| <= MAX_RECORD_SIZE && used + |data| + RDF_SIZE <= CIDF_OFFSET
    ensures var m' := Place(m, key, data);
            LastPageWithin(m, used) || |m'.pages| > |m.pages| ==> LastPageWithin(m', used + |data| + RDF_SIZE)
  {
    hide Append, UsedBytes, Fits, PageOk;
    PagesFit(m);
    var r := Record(key, data);
    if LastPageWithin(m, used) {
      LastIsTarget(m, used, |data|);
      AppendUsed(m.pages[|m.pages| - 1], r);
    } else if Target(m.pages, |m.pages|, |data|) == |m.pages| {
      AppendUsed(EmptyPage(), r);
      EmptyUsed();
    }
  }

  lemma EmptyUsed()
    ensures UsedBytes(EmptyPage().records) == 0
  {
  }

  // ----- one old page after the other

  /** The records up to the `i`-th of old page `j`. */
  function RecordsUpTo(pages: seq<Page>, j: nat, i: nat): seq<Record>
    requires j < |pages| && i <= |pages[j].records|
  {
    AllRecords(pages, j) + pages[j].records[..i]
  }

  lemma {:induction false} PrefixOfAll(pages: seq<Page>, j: nat, n: nat)
    requires j <= n <= |pages|
    ensures |AllRecords(pages, j)| <= |AllRecords(pages, n)|
    ensures AllRecords(pages, n)[..|AllRecords(pages, j)|] == AllRecords(pages, j)
  {
    if j < n {
      PrefixOfAll(pages, j, n - 1);
      assert AllRecords(pages, n)[..|AllRecords(pages, n - 1)|] == AllRecords(pages, n - 1);
    }
  }

  lemma UpToIsPrefix(pages: seq<Page>, j: nat, i: nat)
    requires j < |pages| && i <= |pages[j].records|
    ensures var rs, all := RecordsUpTo(pages, j, i), AllRecords(pages, |pages|);
            |rs| <= |all| && all[..|rs|] == rs
  {
    PrefixOfAll(pages, j + 1, |pages|);
    var next := AllRecords(pages, j + 1);
    assert next[..|RecordsUpTo(pages, j, i)|] == RecordsUpTo(pages, j, i);
  }

  /** Half-way through old page `j`: either no page was opened for it yet, or one was, and that
      page holds at most what was read from the old one. */
  predicate OneNewPage(m: Man, j: nat, used: nat) {
    |m.pages| <= j || (|m.pages| <= j + 1 && LastPageWithin(m, used))
  }

  lemma {:induction false} ReinsertUpTo(cfg: Config, m: Man, j: nat, i: nat)
    requires Valid(m) && LimitSound(cfg) && WithinLimit(cfg, |m.index|) && AllCanonical(cfg, m.pages)
    requires j < |m.pages| && i <= |m.pages[j].records|
    ensures var rs := RecordsUpTo(m.pages, j, i);
            && CanonicalRecords(cfg, rs) && Valid(Fresh())
            && var r := Reinsert(cfg, Fresh(), rs);
               && Valid(r) && Contents(r) == MapOf(rs)
               && OneNewPage(r, j, UsedBytes(m.pages[j].records[..i]))
               && if rs == [] then r == Fresh() else Packed(r.pages)
    decreases j, i
  {
    hide Packed, Canonical, Write, LastPageWithin, Contents, Valid, MapOf, AllRecords, RecordsUpTo, UsedBytes;
    var rs := RecordsUpTo(m.pages, j, i);
    FreshValid();
    UpToCanonical(cfg, m.pages, j, i);
    UpToStep(m.pages, j, i);
    if i > 0 {
      ReinsertUpTo(cfg, m, j, i - 1);
      ReinsertStep(cfg, m, j, i - 1, Reinsert(cfg, Fresh(), rs[..|rs| - 1]));
    } else if j > 0 {
      ReinsertUpTo(cfg, m, j - 1, |m.pages[j - 1].records|);
    } else {
      FreshLastPage();
      assert rs == [];
    }
  }

  lemma UpToCanonical(cfg: Config, pages: seq<Page>, j: nat, i: nat)
    requires AllCanonical(cfg, pages) && j < |pages| && i <= |pages[j].records|
    ensures CanonicalRecords(cfg, RecordsUpTo(pages, j, i))
  {
    hide Canonical;
    AllRecordsCanonical(cfg, pages, j);
  }

  /** The record before position `(j, i)`. */
  lemma UpToStep(pages: seq<Page>, j: nat, i: nat)
    requires j < |pages| && i <= |pages[j].records|
    ensures var rs := RecordsUpTo(pages, j, i);
            if i > 0 then
              rs != [] && rs[..|rs| - 1] == RecordsUpTo(pages, j, i - 1) && rs[|rs| - 1] == pages[j].records[i - 1]
            else
              && UsedBytes(pages[j].records[..0]) == 0
              && if j > 0 then rs == RecordsUpTo(pages, j - 1, |pages[j - 1].records|) else rs == []
  {
    if i == 0 && j > 0 {
      var before := pages[j - 1].records;
      assert before[..|before|] == before;
    }
  }

  lemma FreshLastPage()
    ensures LastPageWithin(Fresh(), 0) && Contents(Fresh()) == map[] && MapOf([]) == map[]
  {
  }

  lemma ReinsertStep(cfg: Config, m: Man, j: nat, i: nat, r: Man)
    requires Valid(m) && LimitSound(cfg) && WithinLimit(cfg, |m.index|) && AllCanonical(cfg, m.pages)
    requires j < |m.pages| && i < |m.pages[j].records|
    requires Valid(r) && Contents(r) == MapOf(RecordsUpTo(m.pages, j, i))
    requires OneNewPage(r, j, UsedBytes(m.pages[j].records[..i]))
    ensures var rec := m.pages[j].records[i];
            && Writable(cfg, Expand(cfg, rec.data)) && HasRoom(cfg, r, rec.key, Expand(cfg, rec.data))
            && var r' := Write(cfg, r, rec.key, Expand(cfg, rec.data)).0;
               && Valid(r') && Contents(r') == MapOf(RecordsUpTo(m.pages, j, i + 1))
               && OneNewPage(r', j, UsedBytes(m.pages[j].records[..i + 1]))
               && (r == Fresh() || Packed(r.pages) ==> Packed(r'.pages))
  {
    hide Packed, Write, LastPageWithin, Contents, Valid, AllRecords, RecordsUpTo, UsedBytes, Canonical, Writable;
    var rs, page := RecordsUpTo(m.pages, j, i), m.pages[j].records;
    var rec, used := page[i], UsedBytes(page[..i]);
    UpToStep(m.pages, j, i + 1);
    RecordWritable(cfg, m, j, i);
    NewKey(m, j, i);
    UsedNext(m, j, i);
    assert r.index.Keys == MapOf(rs).Keys;
    assert |r.index| == |Contents(r)|;
    InsertOne(cfg, r, rec, used);
  }

  lemma RecordWritable(cfg: Config, m: Man, j: nat, i: nat)
    requires Valid(m) && AllCanonical(cfg, m.pages) && LimitSound(cfg)
    requires j < |m.pages| && i < |m.pages[j].records|
    ensures Canonical(cfg, m.pages[j].records[i].data)
    ensures Writable(cfg, Expand(cfg, m.pages[j].records[i].data)) && |m.pages| <= MAX_BLOCKS
  {
    assert m.pages[j].records[i] in m.pages[j].records;
  }

  lemma UsedNext(m: Man, j: nat, i: nat)
    requires Valid(m) && j < |m.pages| && i < |m.pages[j].records|
    ensures var page := m.pages[j].records;
            UsedBytes(page[..i + 1]) == UsedBytes(page[..i]) + |page[i].data| + RDF_SIZE <= CIDF_OFFSET
  {
    var page := m.pages[j].records;
    SplitAt(page, i);
    LocationAppend(page[..i], page[i]);
    FitsPrefix(page, i + 1);
  }

  /** The next record's key is new, and the records so far are fewer than the index has. */
  lemma NewKey(m: Man, j: nat, i: nat)
    requires Valid(m) && j < |m.pages| && i < |m.pages[j].records|
    ensures var rs := RecordsUpTo(m.pages, j, i);
            m.pages[j].records[i].key !in MapOf(rs) && |MapOf(rs)| < |m.index|
  {
    hide Valid, Lookup, AllRecords;
    var rs, next := RecordsUpTo(m.pages, j, i), RecordsUpTo(m.pages, j, i + 1);
    assert next[..|rs|] == rs && next[|rs|] == m.pages[j].records[i];
    AllRecordsContents(m);
    UpToIsPrefix(m.pages, j, i + 1);
    assert UniqueKeys(next);
    UniquePrefix(next, |rs|);
    MapOfUnique(rs);
  }

  /** Every prefix of the records can be written without running out of pages. */
  lemma ReinsertReady(cfg: Config, m: Man, k: nat)
    requires Valid(m) && LimitSound(cfg) && WithinLimit(cfg, |m.index|) && AllCanonical(cfg, m.pages)
    requires k < |AllRecords(m.pages, |m.pages|)|
    ensures Valid(Fresh())
    ensures var all := AllRecords(m.pages, |m.pages|);
            && CanonicalRecords(cfg, all[..k]) && CanonicalRecords(cfg, all[..k + 1])
            && var r := Reinsert(cfg, Fresh(), all[..k]);
               && Valid(r) && Writable(cfg, Expand(cfg, all[k].data))
               && HasRoom(cfg, r, all[k].key, Expand(cfg, all[k].data))
               && Reinsert(cfg, Fresh(), all[..k + 1]) == Write(cfg, r, all[k].key, Expand(cfg, all[k].data)).0
  {
    hide Packed, Valid, Canonical, Contents, MapOf, Write, LastPageWithin, Writable, UsedBytes, HasRoom, AllRecords;
    var j, i := Locate(m.pages, |m.pages|, k);
    ReinsertUpTo(cfg, m, j, i);
    UpToIsPrefix(m.pages, j, i);
    UpToIsPrefix(m.pages, j, i + 1);
    UpToStep(m.pages, j, i + 1);
    UpToCanonical(cfg, m.pages, j, i + 1);
    ReinsertStep(cfg, m, j, i, Reinsert(cfg, Fresh(), RecordsUpTo(m.pages, j, i)));
    var all := AllRecords(m.pages, |m.pages|);
    assert all[..k + 1][..k] == all[..k] && all[..k + 1][k] == all[k];
  }

  lemma ReinsertNone(cfg: Config, rs: seq<Record>)
    requires LimitSound(cfg)
    ensures Valid(Fresh()) && CanonicalRecords(cfg, rs[..0]) && Reinsert(cfg, Fresh(), rs[..0]) == Fresh()
  {
    FreshValid();
  }

  lemma DefragmentUnfold(cfg: Config, m: Man)
    requires Valid(m) && LimitSound(cfg) && AllCanonical(cfg, m.pages)
    ensures Valid(Fresh()) && CanonicalRecords(cfg, AllRecords(m.pages, |m.pages|))
    ensures Defragment(cfg, m)
         == if |m.index| == 0 then m else Reinsert(cfg, Fresh(), AllRecords(m.pages, |m.pages|))
  {
    hide Valid, Reinsert, AllCanonical, CanonicalRecords;
    FreshValid();
    AllRecordsCanonical(cfg, m.pages, |m.pages|);
  }

  /** The page and position of the `k`-th record of all. */
  lemma {:induction false} Locate(pages: seq<Page>, n: nat, k: nat) returns (j: nat, i: nat)
    requires n <= |pages| && k < |AllRecords(pages, n)|
    ensures j < n && i < |pages[j].records| && |RecordsUpTo(pages, j, i)| == k
  {
    if k < |AllRecords(pages, n - 1)| {
      j, i := Locate(pages, n - 1, k);
    } else {
      j, i := n - 1, k - |AllRecords(pages, n - 1)|;
    }
  }

  /** Defragmentation keeps the key -> record map, never needs more pages, and leaves them packed. */
  lemma DefragmentCorrect(cfg: Config, m: Man)
    requires Valid(m) && LimitSound(cfg) && WithinLimit(cfg, |m.index|) && AllCanonical(cfg, m.pages)
    ensures var d := Defragment(cfg, m);
            && Valid(d) && Contents(d) == Contents(m) && |d.index| == |m.index|
            && 1 <= |d.pages| <= |m.pages| && (m.index != map[] ==> Packed(d.pages))
  {
    hide Packed, Canonical, LastPageWithin, Contents, Reinsert, PageOk;
    if |m.index| > 0 {
      var n := |m.pages| - 1;
      var page := m.pages[n].records;
      ReinsertUpTo(cfg, m, n, |page|);
      assert page[..|page|] == page;
      assert RecordsUpTo(m.pages, n, |page|) == AllRecords(m.pages, |m.pages|);
      AllRecordsContents(m);
      assert |Defragment(cfg, m).index| == |Contents(Defragment(cfg, m))|;
    }
  }
}
