/** BlockManager.c on values: pages, the key index, and what each operation makes of them. */
module Manager {
  import opened Bytes
  import opened Pages

  const MAX_BLOCKS := 0xFFFF   // blockCount is a uint16

  datatype Man = Man(pages: seq<Page>, index: map<uint64, nat>)

  datatype Status =
    | TooBig                                                     // eBMS_FailRecordTooBig
    | Done(reallocated: bool, countLimit: bool, oldRecord: bool, needDefrag: bool)

  // ----- one page as a finite map

  ghost predicate UniqueKeys(rs: seq<Record>) {
    forall i, j :: 0 <= i < j < |rs| ==> rs[i].key != rs[j].key
  }

  function Get(rs: seq<Record>, key: uint64): seq<byte>
    requires key in Keys(rs)
  {
    FindInKeys(rs, key);
    rs[Find(rs, key)].data
  }

  lemma GetAt(rs: seq<Record>, i: nat)
    requires i < |rs| && UniqueKeys(rs)
    ensures Find(rs, rs[i].key) == i && rs[i].key in Keys(rs) && Get(rs, rs[i].key) == rs[i].data
  {
    FindIs(rs, rs[i].key, i);
  }

  lemma AppendMap(rs: seq<Record>, r: Record)
    requires UniqueKeys(rs) && r.key !in Keys(rs)
    ensures UniqueKeys(rs + [r]) && Keys(rs + [r]) == Keys(rs) + {r.key}
    ensures Get(rs + [r], r.key) == r.data
    ensures forall k :: k in Keys(rs) ==> Get(rs + [r], k) == Get(rs, k)
  {
    var qs := rs + [r];
    assert qs[|rs|] == r;
    assert forall x :: x in rs ==> x in qs;
    GetAt(qs, |rs|);
    forall k | k in Keys(rs) ensures Get(qs, k) == Get(rs, k) {
      FindInKeys(rs, k);
      GetAt(qs, Find(rs, k));
    }
  }

  lemma RemoveKeeps(rs: seq<Record>, i: nat, k: uint64)
    requires i < |rs| && UniqueKeys(rs) && UniqueKeys(Without(rs, i))
    requires k in Keys(rs) && k != rs[i].key
    ensures k in Keys(Without(rs, i)) && Get(Without(rs, i), k) == Get(rs, k)
  {
    FindInKeys(rs, k);
    var j := Find(rs, k);
    var j' := if j < i then j else j - 1;
    assert Without(rs, i)[j'] == rs[j];
    GetAt(rs, j);
    GetAt(Without(rs, i), j');
  }

  lemma RemoveMap(rs: seq<Record>, i: nat)
    requires UniqueKeys(rs) && i < |rs|
    ensures UniqueKeys(Without(rs, i)) && Keys(Without(rs, i)) == Keys(rs) - {rs[i].key}
    ensures forall k :: k in Keys(rs) && k != rs[i].key ==> Get(Without(rs, i), k) == Get(rs, k)
  {
    hide Get, Find;
    var qs := Without(rs, i);
    assert forall j :: 0 <= j < |qs| ==> qs[j] == rs[if j < i then j else j + 1];
    forall k | k in Keys(rs) && k != rs[i].key ensures k in Keys(qs) && Get(qs, k) == Get(rs, k) {
      RemoveKeeps(rs, i, k);
    }
    forall k | k in Keys(qs) ensures k in Keys(rs) && k != rs[i].key {
      FindInKeys(qs, k);
      assert qs[Find(qs, k)].key == k;
    }
  }

  lemma ReplaceMap(rs: seq<Record>, i: nat, data: seq<byte>)
    requires UniqueKeys(rs) && i < |rs|
    ensures var qs := rs[i := rs[i].(data := data)];
            && UniqueKeys(qs) && Keys(qs) == Keys(rs) && Get(qs, rs[i].key) == data
            && forall k :: k in Keys(rs) && k != rs[i].key ==> Get(qs, k) == Get(rs, k)
  {
    var qs := rs[i := rs[i].(data := data)];
    GetAt(qs, i);
    forall k | k in Keys(rs) ensures k in Keys(qs) && (k != rs[i].key ==> Get(qs, k) == Get(rs, k)) {
      FindInKeys(rs, k);
      GetAt(qs, Find(rs, k));
    }
    forall k | k in Keys(qs) ensures k in Keys(rs) {
      FindInKeys(qs, k);
      assert rs[Find(qs, k)] in rs;
    }
  }

  // ----- the invariant

  ghost predicate PageOk(p: Page) {
    && Fits(p.records)
    && UniqueKeys(p.records)
    && forall r :: r in p.records ==> |r.data| >= 1
  }

  /** The index maps a key to a page exactly when that page holds it. */
  ghost predicate Agree(pages: seq<Page>, index: map<uint64, nat>) {
    && (forall k :: k in index ==> index[k] < |pages|)
    && (forall b, k :: 0 <= b < |pages| ==>
         (k in Keys(pages[b].records) <==> k in index && index[k] == b))
  }

  ghost predicate Valid(m: Man) {
    && 1 <= |m.pages| <= MAX_BLOCKS
    && (forall b :: 0 <= b < |m.pages| ==> PageOk(m.pages[b]))
    && Agree(m.pages, m.index)
  }

  /** What the manager stores under a key of its index. */
  function Lookup(m: Man, key: uint64): seq<byte> {
    if key in m.index && m.index[key] < |m.pages| && key in Keys(m.pages[m.index[key]].records)
    then Get(m.pages[m.index[key]].records, key)
    else []
  }

  /** The finite map that a manager stands for. */
  function Contents(m: Man): (c: map<uint64, seq<byte>>)
    ensures c.Keys == m.index.Keys
    ensures |c| == |m.index|
  {
    var c := map k | k in m.index :: Lookup(m, k);
    assert c.Keys == m.index.Keys;
    assert |c| == |c.Keys| && |m.index| == |m.index.Keys|;
    c
  }

  lemma PagesFit(m: Man)
    requires Valid(m)
    ensures forall b :: 0 <= b < |m.pages| ==> Fits(m.pages[b].records)
  {
  }

  // ----- changing one page

  lemma RemovePage(p: Page, i: nat)
    requires PageOk(p) && i < |p.records|
    ensures var q, key := Remove(p, i), p.records[i].key;
            && PageOk(q) && Keys(q.records) == Keys(p.records) - {key}
            && forall k :: k in Keys(p.records) && k != key ==> Get(q.records, k) == Get(p.records, k)
  {
    RemoveMap(p.records, i);
  }

  lemma AppendPage(p: Page, r: Record)
    requires PageOk(p) && CanTake(p, |r.data|) && r.key !in Keys(p.records) && |r.data| >= 1
    ensures var q := Append(p, r);
            && PageOk(q) && Keys(q.records) == Keys(p.records) + {r.key} && Get(q.records, r.key) == r.data
            && forall k :: k in Keys(p.records) ==> Get(q.records, k) == Get(p.records, k)
  {
    AppendMap(p.records, r);
  }

  /** A page updated at record `i`: with the new bytes, or without the key when they do not fit. */
  lemma UpdatePageMap(p: Page, i: nat, data: seq<byte>)
    requires PageOk(p) && i < |p.records| && |data| >= 1
    ensures var u, key := Update(p, i, data), p.records[i].key;
            && PageOk(u.1) && key in Keys(p.records)
            && (if u.0 then Keys(u.1.records) == Keys(p.records) && Get(u.1.records, key) == data
                else u.1 == Remove(p, i) && Keys(u.1.records) == Keys(p.records) - {key})
            && forall k :: k in Keys(p.records) && k != key ==> Get(u.1.records, k) == Get(p.records, k)
  {
    GetAt(p.records, i);
    if |data| == |p.records[i].data| {
      ReplaceMap(p.records, i, data);
    } else {
      RemovePage(p, i);
      var q, r := Remove(p, i), Record(p.records[i].key, data);
      if CanTake(q, |data|) {
        AppendPage(q, r);
      }
    }
  }

  lemma PageUpdated(m: Man, b: nat, q: Page, index: map<uint64, nat>)
    requires Valid(m) && b < |m.pages| && PageOk(q)
    requires forall k :: k in Keys(q.records) <==> k in index && index[k] == b
    requires forall k :: k in m.index && m.index[k] != b ==> k in index && index[k] == m.index[k]
    requires forall k :: k in index && index[k] != b ==> k in m.index && index[k] == m.index[k]
    ensures Valid(Man(m.pages[b := q], index))
    ensures var m' := Man(m.pages[b := q], index);
            forall k :: k in index ==>
              Lookup(m', k) == if index[k] == b then Get(q.records, k) else Lookup(m, k)
  {
    hide Keys, Get, PageOk;
    var m' := Man(m.pages[b := q], index);
    forall c, k | 0 <= c < |m'.pages|
      ensures k in Keys(m'.pages[c].records) <==> k in index && index[k] == c
    {
      if c != b {
        assert k in Keys(m.pages[c].records) <==> k in m.index && m.index[k] == c;
      }
    }
  }

  lemma LookupSame(m: Man, m': Man, k: uint64)
    requires k in m.index && k in m'.index && m.index[k] == m'.index[k]
    requires m.index[k] < |m.pages| && m.index[k] < |m'.pages| && m.pages[m.index[k]] == m'.pages[m.index[k]]
    ensures Lookup(m, k) == Lookup(m', k)
  {
  }

  lemma LookupAt(m: Man, k: uint64)
    requires k in m.index && m.index[k] < |m.pages| && k in Keys(m.pages[m.index[k]].records)
    ensures Lookup(m, k) == Get(m.pages[m.index[k]].records, k)
  {
  }

  lemma ContentsWith(m: Man, m': Man, key: uint64, data: seq<byte>)
    requires m'.index.Keys == m.index.Keys + {key}
    requires forall k :: k in m'.index ==> Lookup(m', k) == if k == key then data else Lookup(m, k)
    ensures Contents(m') == Contents(m)[key := data]
  {
    hide Lookup;
  }

  lemma ContentsWithout(m: Man, m': Man, key: uint64)
    requires m'.index.Keys == m.index.Keys - {key}
    requires forall k :: k in m'.index ==> Lookup(m', k) == Lookup(m, k)
    ensures Contents(m') == Contents(m) - {key}
  {
    hide Lookup;
  }

  // ----- delete

  function Delete(m: Man, key: uint64): (m': Man)
    requires Valid(m) && key in m.index
    ensures |m'.index| == |m.index| - 1
  {
    var b := m.index[key];
    FindInKeys(m.pages[b].records, key);
    assert m.index.Keys == (m.index - {key}).Keys + {key};
    Man(m.pages[b := Remove(m.pages[b], Find(m.pages[b].records, key))], m.index - {key})
  }

  lemma DeleteCorrect(m: Man, key: uint64)
    requires Valid(m) && key in m.index
    ensures Valid(Delete(m, key))
    ensures Contents(Delete(m, key)) == Contents(m) - {key}
  {
    hide Keys, Get, PageOk, Remove, Find, Fits, Contents;
    var b := m.index[key];
    var rs := m.pages[b].records;
    var i := Find(rs, key);
    FindInKeys(rs, key);
    PagesFit(m);
    var q := Remove(m.pages[b], i);
    RemovePage(m.pages[b], i);
    PageUpdated(m, b, q, m.index - {key});
    assert Delete(m, key) == Man(m.pages[b := q], m.index - {key});
    ContentsWithout(m, Delete(m, key), key);
  }

  // ----- update in place

  function UpdatePage(m: Man, key: uint64, data: seq<byte>): (bool, Page)
    requires Valid(m) && key in m.index
  {
    var p := m.pages[m.index[key]];
    FindInKeys(p.records, key);
    Update(p, Find(p.records, key), data)
  }

  function UpdateMan(m: Man, key: uint64, data: seq<byte>): (bool, Man)
    requires Valid(m) && key in m.index
  {
    var u := UpdatePage(m, key, data);
    (u.0, Man(m.pages[m.index[key] := u.1], if u.0 then m.index else m.index - {key}))
  }

  lemma UpdateCorrect(m: Man, key: uint64, data: seq<byte>)
    requires Valid(m) && key in m.index && |data| >= 1
    ensures var u := UpdateMan(m, key, data);
            && Valid(u.1)
            && (!u.0 ==> u.1 == Delete(m, key))
            && Contents(u.1) == if u.0 then Contents(m)[key := data] else Contents(m) - {key}
  {
    hide Keys, Get, PageOk, Update, Contents;
    var b := m.index[key];
    var rs := m.pages[b].records;
    FindInKeys(rs, key);
    UpdatePageMap(m.pages[b], Find(rs, key), data);
    var u := UpdateMan(m, key, data);
    PageUpdated(m, b, UpdatePage(m, key, data).1, u.1.index);
    if u.0 {
      ContentsWith(m, u.1, key, data);
    } else {
      DeleteCorrect(m, key);
    }
  }

  // ----- placing a record

  /** The last page among the first `n` that can take the size; |pages| when there is none. */
  function Target(pages: seq<Page>, n: nat, size: nat): (t: nat)
    requires n <= |pages| && forall b :: 0 <= b < |pages| ==> Fits(pages[b].records)
    ensures t < n || t == |pages|
    ensures t < |pages| ==> CanTake(pages[t], size)
    ensures forall b :: 0 <= b < n && (t == |pages| || t < b) ==> !CanTake(pages[b], size)
  {
    if n == 0 then |pages|
    else if CanTake(pages[n - 1], size) then n - 1
    else Target(pages, n - 1, size)
  }

  function Place(m: Man, key: uint64, data: seq<byte>): Man
    requires Valid(m) && |data| <= MAX_RECORD_SIZE
  {
    var t, r := Target(m.pages, |m.pages|, |data|), Record(key, data);
    if t < |m.pages|
    then Man(m.pages[t := Append(m.pages[t], r)], m.index[key := t])
    else Man(m.pages + [Append(EmptyPage(), r)], m.index[key := |m.pages|])
  }

  predicate SomePageHasRoom(m: Man, size: nat)
    requires Valid(m)
  {
    exists b :: 0 <= b < |m.pages| && size + RDF_SIZE <= Free(PageRecords(m, b))
  }

  /** Where a record goes: behind the records of the last page that has room for it, and no other page
      changes; only when none has room, into one new page. */
  ghost predicate PlacedLast(m: Man, key: uint64, data: seq<byte>, m': Man)
    requires Valid(m)
  {
    var r, t, n := Record(key, data), if key in m'.index then m'.index[key] else 0, |m.pages|;
    && key in m'.index && m'.index == m.index[key := t] && t < |m'.pages|
    && (forall b :: 0 <= b < n && b != t ==> b < |m'.pages| && m'.pages[b] == m.pages[b])
    && (forall b :: t < b < n ==> |data| + RDF_SIZE > Free(PageRecords(m, b)))
    && if SomePageHasRoom(m, |data|) then
         && |m'.pages| == n && t < n && |data| + RDF_SIZE <= Free(PageRecords(m, t))
         && m'.pages[t] == Page(m.pages[t].records + [r], SetDirty(m.pages[t].flags))
       else t == n && |m'.pages| == n + 1 && m'.pages[n] == Page([r], 1)
  }

  function PageRecords(m: Man, b: nat): (rs: seq<Record>)
    requires Valid(m) && b < |m.pages|
    ensures Fits(rs)
  {
    PagesFit(m);
    m.pages[b].records
  }

  lemma PlaceWhere(m: Man, key: uint64, data: seq<byte>)
    requires Valid(m) && |data| <= MAX_RECORD_SIZE
    ensures PlacedLast(m, key, data, Place(m, key, data))
  {
    hide PageOk, Free, Fits;
    PagesFit(m);
    var t := Target(m.pages, |m.pages|, |data|);
    if t < |m.pages| {
      assert |data| + RDF_SIZE <= Free(PageRecords(m, t));
    } else {
      assert [] + [Record(key, data)] == [Record(key, data)];
    }
  }

  lemma NewPageAgrees(m: Man, key: uint64, q: Page)
    requires Valid(m) && key !in m.index && PageOk(q) && Keys(q.records) == {key}
    requires |m.pages| < MAX_BLOCKS
    ensures var m' := Man(m.pages + [q], m.index[key := |m.pages|]);
            && Valid(m')
            && Contents(m') == Contents(m)[key := Get(q.records, key)]
  {
    hide Keys, Get, PageOk, Contents, Lookup;
    var m' := Man(m.pages + [q], m.index[key := |m.pages|]);
    forall c, k | 0 <= c < |m'.pages|
      ensures k in Keys(m'.pages[c].records) <==> k in m'.index && m'.index[k] == c
    {
      if c < |m.pages| {
        assert k in Keys(m.pages[c].records) <==> k in m.index && m.index[k] == c;
      }
    }
    NewPageContents(m, m', key, q);
  }

  lemma NewPageContents(m: Man, m': Man, key: uint64, q: Page)
    requires key in Keys(q.records) && key !in m.index && forall k :: k in m.index ==> m.index[k] < |m.pages|
    requires m' == Man(m.pages + [q], m.index[key := |m.pages|])
    ensures Contents(m') == Contents(m)[key := Get(q.records, key)]
  {
    hide Keys, Get, Contents, Lookup;
    forall k | k in m.index ensures Lookup(m', k) == Lookup(m, k) {
      LookupSame(m, m', k);
    }
    LookupAt(m', key);
    ContentsWith(m, m', key, Get(q.records, key));
  }

  lemma EmptyPageOk()
    ensures PageOk(EmptyPage()) && Keys(EmptyPage().records) == {}
  {
  }

  /** There is a page for the record, or room for one more page. */
  predicate CanPlace(m: Man, size: nat)
    requires Valid(m)
  {
    |m.pages| < MAX_BLOCKS || Target(m.pages, |m.pages|, size) < |m.pages|
  }

  lemma PlaceInPage(m: Man, t: nat, r: Record)
    requires Valid(m) && t < |m.pages| && r.key !in m.index && |r.data| >= 1 && Fits(m.pages[t].records)
    requires CanTake(m.pages[t], |r.data|)
    ensures var m' := Man(m.pages[t := Append(m.pages[t], r)], m.index[r.key := t]);
            Valid(m') && Contents(m') == Contents(m)[r.key := r.data]
  {
    hide Keys, Get, PageOk, Append, Fits, CanTake, Contents;
    var q := Append(m.pages[t], r);
    var m' := Man(m.pages[t := q], m.index[r.key := t]);
    assert r.key !in Keys(m.pages[t].records);
    AppendPage(m.pages[t], r);
    PageUpdated(m, t, q, m'.index);
    ContentsWith(m, m', r.key, r.data);
  }

  lemma PlaceCorrect(m: Man, key: uint64, data: seq<byte>)
    requires Valid(m) && key !in m.index && 1 <= |data| <= MAX_RECORD_SIZE && CanPlace(m, |data|)
    ensures Valid(Place(m, key, data))
    ensures Contents(Place(m, key, data)) == Contents(m)[key := data]
  {
    hide Keys, Get, PageOk, Append, Contents, Valid, Target, Fits;
    PagesFit(m);
    var t, r := Target(m.pages, |m.pages|, |data|), Record(key, data);
    if t < |m.pages| {
      PlaceInPage(m, t, r);
    } else {
      EmptyPageOk();
      AppendPage(EmptyPage(), r);
      NewPageAgrees(m, key, Append(EmptyPage(), r));
    }
  }
}
