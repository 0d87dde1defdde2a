/** Block.c: the page operations in place, on the 4096 bytes of a buffer that start at `base`.
    Each method is proved against the operation on page values. The uint16 variables of the
    source are `uint16` here, so every step also proves that nothing wraps. */
module Block {
  import opened Bytes
  import opened Pages
  import opened Config

  /** The block of the buffer at `base`, and the buffer with another block there. */
  function At(s: seq<byte>, base: nat): (b: seq<byte>)
    requires base + BLOCK_SIZE <= |s|
    ensures |b| == BLOCK_SIZE
  {
    s[base..base + BLOCK_SIZE]
  }

  function With(s: seq<byte>, base: nat, b: seq<byte>): (r: seq<byte>)
    requires base + BLOCK_SIZE <= |s| && |b| == BLOCK_SIZE
    ensures |r| == |s|
  {
    Splice(s, base, b)
  }

  lemma WithAt(s: seq<byte>, base: nat, b: seq<byte>, c: seq<byte>)
    requires base + BLOCK_SIZE <= |s| && |b| == |c| == BLOCK_SIZE
    ensures At(With(s, base, b), base) == b
    ensures With(With(s, base, b), base, c) == With(s, base, c)
    ensures With(s, base, At(s, base)) == s
  {
  }

  lemma SpliceInBlock(s: seq<byte>, base: nat, position: nat, bytes: seq<byte>)
    requires base + BLOCK_SIZE <= |s| && position + |bytes| <= BLOCK_SIZE
    ensures Splice(s, base + position, bytes) == With(s, base, Splice(At(s, base), position, bytes))
  {
    var t := With(s, base, Splice(At(s, base), position, bytes));
    assert t[..base + position] == s[..base + position];
    assert t[base + position..base + position + |bytes|] == bytes;
    assert t[base + position + |bytes|..] == s[base + position + |bytes|..];
  }

  /** The bytes from `base` on are exactly the image of the page. */
  ghost predicate Holds(a: array<byte>, base: nat, p: Page)
    reads a
  {
    base + BLOCK_SIZE <= a.Length && Fits(p.records) && At(a[..], base) == Encode(p)
  }

  /** memcpy into the block. */
  method Store(a: array<byte>, base: nat, position: nat, bytes: seq<byte>)
    requires base + BLOCK_SIZE <= a.Length && position + |bytes| <= BLOCK_SIZE
    modifies a
    ensures a[..] == With(old(a[..]), base, Splice(At(old(a[..]), base), position, bytes))
  {
    ghost var s := a[..];
    forall i | 0 <= i < |bytes| {
      a[base + position + i] := bytes[i];
    }
    assert a[..] == Splice(s, base + position, bytes);
    SpliceInBlock(s, base, position, bytes);
  }

  /** memmove within the block. */
  method Move(a: array<byte>, base: nat, destination: nat, source: nat, size: nat)
    requires base + BLOCK_SIZE <= a.Length
    requires source + size <= BLOCK_SIZE && destination + size <= BLOCK_SIZE
    modifies a
    ensures var b := At(old(a[..]), base);
            a[..] == With(old(a[..]), base, Splice(b, destination, b[source..source + size]))
  {
    var bytes := At(a[..], base)[source..source + size];
    Store(a, base, destination, bytes);
  }

  /** The guarded memmove of Block_DeleteRecordByRDF. */
  method MoveIfAny(a: array<byte>, base: nat, destination: nat, source: nat, size: nat)
    requires base + BLOCK_SIZE <= a.Length
    requires source + size <= BLOCK_SIZE && destination + size <= BLOCK_SIZE
    modifies a
    ensures var b := At(old(a[..]), base);
            a[..] == With(old(a[..]), base, Splice(b, destination, b[source..source + size]))
  {
    if size > 0 {
      Move(a, base, destination, source, size);
    }
  }

  method StoreCidf(a: array<byte>, base: nat, free: uint16, location: uint16, flags: byte)
    requires base + BLOCK_SIZE <= a.Length
    modifies a
    ensures a[..] == With(old(a[..]), base, Splice(At(old(a[..]), base), CIDF_OFFSET, Cidf(free, location, flags)))
  {
    Store(a, base, CIDF_OFFSET, Cidf(free, location, flags));
  }

  method LoadCidf(a: array<byte>, base: nat, ghost p: Page)
    returns (free: uint16, location: uint16, flags: byte)
    requires Holds(a, base, p)
    ensures free == Free(p.records) && location == Location(p.records) && flags == p.flags
  {
    var b := At(a[..], base);
    CidfOfEncode(p);
    free, location, flags := FreeField(b), LocationField(b), FlagsField(b);
  }

  method LoadRdf(a: array<byte>, base: nat, position: uint16, ghost p: Page, ghost i: nat)
    returns (key: uint64, length: uint16)
    requires Holds(a, base, p) && i < |p.records| && position == RdfPosition(i)
    ensures key == p.records[i].key && length == |p.records[i].data|
  {
    var b := At(a[..], base);
    RecordOfEncode(p, i);
    key, length := KeyField(b, position), LengthField(b, position);
  }

  method LoadRecord(a: array<byte>, base: nat, position: uint16, recordPosition: uint16, ghost p: Page, ghost i: nat)
    returns (r: Record)
    requires Holds(a, base, p) && i < |p.records|
    requires position == RdfPosition(i) && recordPosition == Location(p.records[..i])
    ensures r == p.records[i]
  {
    var key, length := LoadRdf(a, base, position, p, i);
    RecordOfEncode(p, i);
    r := Record(key, At(a[..], base)[recordPosition..recordPosition + length]);
  }

  lemma CidfIntoZeros(b: seq<byte>)
    requires b == Zeros(BLOCK_SIZE)
    ensures Splice(b, CIDF_OFFSET, Cidf(CIDF_OFFSET, 0, 1)) == Encode(EmptyPage())
  {
  }

  /** Block_InitBlock, on a zeroed block. */
  method InitBlock(a: array<byte>, base: nat)
    requires base + BLOCK_SIZE <= a.Length && At(a[..], base) == Zeros(BLOCK_SIZE)
    modifies a
    ensures a[..] == With(old(a[..]), base, Encode(EmptyPage()))
  {
    CidfIntoZeros(At(a[..], base));
    StoreCidf(a, base, CIDF_OFFSET, 0, 1);
  }

  /** The scan variables of the loops over a page: after `i` fields. */
  lemma ScanFacts(rs: seq<Record>, i: nat)
    requires Fits(rs) && i <= |rs|
    ensures rs[..0] == [] && rs[..|rs|] == rs && Location(rs[..0]) == 0
    ensures RdfPosition(i) < Location(rs) + Free(rs) <==> i == |rs|
    ensures i < |rs| ==>
              && rs[..i + 1] == rs[..i] + [rs[i]]
              && Location(rs[..i + 1]) == Location(rs[..i]) + |rs[i].data| <= CIDF_OFFSET
  {
    if i < |rs| {
      SplitAt(rs, i);
      LocationAppend(rs[..i], rs[i]);
      FitsPrefix(rs, i + 1);
    }
  }

  lemma NoWrap(rs: seq<Record>, key: uint64, i: nat)
    requires Fits(rs) && i < |rs|
    requires key in Keys(rs) || |rs| <= MAX_SCANNED_RDFS
    requires forall j :: 0 <= j <= i ==> rs[j].key != key
    ensures RdfPosition(i) >= RDF_SIZE
  {
  }

  /** Block_ContainsKey. `rdf` is the position of the field found, -1 for NULL. On a miss in a
      page that has records it is the last field visited, not NULL. */
  method ContainsKey(a: array<byte>, base: nat, key: uint64, ghost p: Page)
    returns (rdf: int, recordPosition: uint16)
    requires Holds(a, base, p)
    requires key in Keys(p.records) || |p.records| <= MAX_SCANNED_RDFS
    ensures rdf == -1 <==> p.records == []
    ensures key in Keys(p.records) ==>
              && Find(p.records, key) < |p.records|
              && rdf == RdfPosition(Find(p.records, key))
              && recordPosition == Location(p.records[..Find(p.records, key)])
    ensures key !in Keys(p.records) && p.records != [] ==>
              rdf == RdfPosition(|p.records| - 1) && recordPosition == Location(p.records)
  {
    hide At, Encode, Find, Keys, DataBytes;
    ghost var rs := p.records;
    var free, location, _ := LoadCidf(a, base, p);
    rdf, recordPosition := -1, 0;
    var position: uint16 := CIDF_OFFSET - RDF_SIZE;
    var end: uint16 := location + free;
    ghost var i := 0;
    ScanFacts(rs, 0);
    while true
      invariant 0 <= i <= |rs|
      invariant forall j :: 0 <= j < i ==> rs[j].key != key
      invariant position == RdfPosition(i)
      invariant recordPosition == Location(rs[..i])
      invariant rdf == if i == 0 then -1 else RdfPosition(i - 1)
      decreases |rs| - i
    {
      ScanFacts(rs, i);
      if position < end {
        KeysMiss(rs, key);
        break;
      }
      rdf := position;
      var k, length := LoadRdf(a, base, position, p, i);
      if k == key {
        FindIs(rs, key, i);
        break;
      }
      recordPosition := recordPosition + length;
      NoWrap(rs, key, i);
      position := position - RDF_SIZE;
      i := i + 1;
    }
  }

  lemma AppendBytes(d: seq<byte>, z1: seq<byte>, z2: seq<byte>, z3: seq<byte>, f: seq<byte>, c: seq<byte>,
                    data: seq<byte>, rdf: seq<byte>, c': seq<byte>)
    requires |z1| == |data| && |z3| == |rdf| && |c| == |c'|
    ensures var b1 := Splice(d + (z1 + z2 + z3) + f + c, |d| + |z1| + |z2|, rdf);
            var b2 := Splice(b1, |d|, data);
            Splice(b2, |d| + |z1| + |z2| + |z3| + |f|, c') == (d + data) + z2 + (rdf + f) + c'
  {
    hide Splice;
    assert d + (z1 + z2 + z3) + f + c == (d + z1 + z2) + z3 + (f + c);
    SpliceMiddle(d + z1 + z2, z3, f + c, rdf);
    assert (d + z1 + z2) + rdf + (f + c) == d + z1 + (z2 + rdf + f + c);
    SpliceMiddle(d, z1, z2 + rdf + f + c, data);
    assert d + data + (z2 + rdf + f + c) == ((d + data) + z2 + (rdf + f)) + c + [];
    SpliceMiddle((d + data) + z2 + (rdf + f), c, [], c');
  }

  /** What the stores of Block_WriteRecord leave: the field, the data, the control field. */
  function AppendSplices(b: seq<byte>, position: nat, rdf: seq<byte>, location: nat, data: seq<byte>,
                         cidf: seq<byte>): seq<byte>
    requires |b| == BLOCK_SIZE && |cidf| == 5
    requires position + |rdf| <= BLOCK_SIZE && location + |data| <= BLOCK_SIZE
  {
    Splice(Splice(Splice(b, position, rdf), location, data), CIDF_OFFSET, cidf)
  }

  method AppendInPlace(a: array<byte>, base: nat, position: nat, rdf: seq<byte>, location: nat,
                       data: seq<byte>, cidf: seq<byte>)
    requires base + BLOCK_SIZE <= a.Length && |cidf| == 5
    requires position + |rdf| <= BLOCK_SIZE && location + |data| <= BLOCK_SIZE
    modifies a
    ensures a[..] == With(old(a[..]), base, AppendSplices(At(old(a[..]), base), position, rdf, location, data, cidf))
  {
    hide Splice, At, With;
    ghost var s, b := a[..], At(a[..], base);
    Store(a, base, position, rdf);
    ghost var b1 := Splice(b, position, rdf);
    ghost var b2 := Splice(b1, location, data);
    WithAt(s, base, b1, b2);
    Store(a, base, location, data);
    WithAt(s, base, b2, Splice(b2, CIDF_OFFSET, cidf));
    Store(a, base, CIDF_OFFSET, cidf);
  }

  lemma AppendImage(p: Page, r: Record)
    requires Fits(p.records) && CanTake(p, |r.data|)
    ensures var free, location, n := Free(p.records), Location(p.records), |r.data|;
            AppendSplices(Encode(p), location + free - RDF_SIZE, Rdf(r), location, r.data,
                          Cidf(free - n - RDF_SIZE, location + n, SetDirty(p.flags))) == Encode(Append(p, r))
  {
    hide Splice, Rdf;
    var rs, n := p.records, |r.data|;
    var q := Append(p, r);
    LocationAppend(rs, r);
    var z1, z2, z3 := Zeros(n), Zeros(Free(q.records)), Zeros(RDF_SIZE);
    assert Zeros(Free(rs)) == z1 + z2 + z3;
    AppendBytes(DataBytes(rs), z1, z2, z3, RdfBytes(rs), Cidf(Free(rs), Location(rs), p.flags),
                r.data, Rdf(r), Cidf(Free(q.records), Location(q.records), q.flags));
  }

  /** Block_WriteRecord; false is eBLS_NO_SPACE_FOR_NEW_DATA. */
  method WriteRecord(a: array<byte>, base: nat, key: uint64, record: seq<byte>, ghost p: Page)
    returns (ok: bool)
    requires Holds(a, base, p) && |record| < 0x1_0000
    modifies a
    ensures ok == CanTake(p, |record|)
    ensures a[..] == if ok then With(old(a[..]), base, Encode(Append(p, Record(key, record)))) else old(a[..])
  {
    hide Splice, At, With, AppendSplices, Encode, Cidf, Rdf;
    var free, location, flags := LoadCidf(a, base, p);
    if free < |record| + RDF_SIZE {
      return false;
    }
    var position: uint16 := location + free - RDF_SIZE;
    var newFree: uint16, newLocation: uint16 := free - |record| - RDF_SIZE, location + |record|;
    AppendImage(p, Record(key, record));
    AppendInPlace(a, base, position, Rdf(Record(key, record)), location, record,
                  Cidf(newFree, newLocation, SetDirty(flags)));
    return true;
  }

  lemma CloseDataGap(d1: seq<byte>, d: seq<byte>, d2: seq<byte>, z: seq<byte>) returns (g: seq<byte>)
    ensures Splice(d1 + d + d2 + z, |d1|, d2) == d1 + d2 + g
    ensures |g| == |d| + |z|
  {
    g := Splice(d1 + d + d2 + z, |d1|, d2)[|d1| + |d2|..];
  }

  lemma CloseRdfGap(f2: seq<byte>, r: seq<byte>, f1: seq<byte>, c: seq<byte>, c': seq<byte>)
    returns (g: seq<byte>)
    requires |c| == |c'|
    ensures Splice(Splice(f2 + r + f1 + c, |r|, f2), |f2 + r + f1|, c') == g + (f2 + f1 + c')
    ensures |g| == |r|
  {
    var b := Splice(f2 + r + f1 + c, |r|, f2);
    g := b[..|r|];
    assert b[|r|..] == f2 + f1 + c;
    assert b == (g + f2 + f1) + c + [];
    SpliceMiddle(g + f2 + f1, c, [], c');
  }

  lemma RemoveBytes(d1: seq<byte>, d: seq<byte>, d2: seq<byte>, z: seq<byte>,
                    f2: seq<byte>, r: seq<byte>, f1: seq<byte>, c: seq<byte>,
                    c': seq<byte>, z': seq<byte>)
    requires |z'| == |d| + |z| + |r| && |c| == |c'|
    ensures var e := |d1| + |d| + |d2| + |z|;
            var b1 := Splice((d1 + d + d2 + z) + (f2 + r + f1 + c), |d1|, d2);
            var b2 := Splice(b1, e + |r|, f2);
            var b3 := Splice(b2, e + |f2 + r + f1|, c');
            && b1[e..e + |f2|] == f2
            && Splice(b3, |d1| + |d2|, z') == (d1 + d2) + z' + (f2 + f1 + c')
  {
    hide Splice;
    var a, b := d1 + d + d2 + z, f2 + r + f1 + c;
    SpliceFront(a, b, |d1|, d2);
    var a' := Splice(a, |d1|, d2);
    SpliceBack(a', b, |r|, f2);
    SpliceBack(a', Splice(b, |r|, f2), |f2 + r + f1|, c');
    var g := CloseDataGap(d1, d, d2, z);
    var h := CloseRdfGap(f2, r, f1, c, c');
    assert (d1 + d2 + g) + (h + (f2 + f1 + c')) == (d1 + d2) + (g + h) + (f2 + f1 + c');
    SpliceMiddle(d1 + d2, g + h, f2 + f1 + c', z');
  }

  lemma SplitEncode(p: Page, i: nat)
    requires Fits(p.records) && i < |p.records|
    ensures var rs := p.records;
            Encode(p) == (DataBytes(rs[..i]) + rs[i].data + DataBytes(rs[i + 1..]) + Zeros(Free(rs)))
                       + (RdfBytes(rs[i + 1..]) + Rdf(rs[i]) + RdfBytes(rs[..i])
                          + Cidf(Free(rs), Location(rs), p.flags))
  {
    AroundData(p.records, i);
    AroundRdf(p.records, i);
  }

  lemma JoinEncode(p: Page, i: nat)
    requires Fits(p.records) && i < |p.records|
    ensures var rs, q := p.records, Remove(p, i);
            Encode(q) == (DataBytes(rs[..i]) + DataBytes(rs[i + 1..])) + Zeros(Free(q.records))
                       + (RdfBytes(rs[i + 1..]) + RdfBytes(rs[..i])
                          + Cidf(Free(q.records), Location(q.records), q.flags))
  {
    WithoutFits(p.records, i);
  }

  lemma RemoveSizes(p: Page, i: nat)
    requires Fits(p.records) && i < |p.records|
    ensures var rs, q := p.records, Remove(p, i);
            && Location(rs[..i]) + |rs[i].data| + |DataBytes(rs[i + 1..])| == Location(rs)
            && Location(q.records) == Location(rs[..i]) + |DataBytes(rs[i + 1..])|
            && Free(q.records) == |rs[i].data| + Free(rs) + RDF_SIZE
            && q.flags == SetDirty(p.flags)
            && Location(rs) + Free(rs) + |RdfBytes(rs[i + 1..])| == RdfPosition(i)
            && RdfPosition(i) + RDF_SIZE + |RdfBytes(rs[..i])| == CIDF_OFFSET
  {
    WithoutFits(p.records, i);
    AroundData(p.records, i);
  }

  /** What Block_DeleteRecordByRDF leaves: the records after `recordPosition + length` and the
      fields from `end` up to `rdf` moved, the control field stored, the space between cleared. */
  function RemoveSplices(b: seq<byte>, end: nat, location: nat, rdf: nat, recordPosition: nat, length: nat,
                         cidf: seq<byte>): seq<byte>
    requires |b| == BLOCK_SIZE && |cidf| == 5
    requires location <= end <= rdf && rdf + RDF_SIZE <= CIDF_OFFSET && recordPosition + length <= location
  {
    var b1 := Splice(b, recordPosition, b[recordPosition + length..location]);
    var b2 := Splice(b1, end + RDF_SIZE, b1[end..rdf]);
    Splice(Splice(b2, CIDF_OFFSET, cidf), location - length, Zeros(end + RDF_SIZE - location + length))
  }

  method RemoveInPlace(a: array<byte>, base: nat, end: nat, location: nat, rdf: nat, recordPosition: nat,
                       length: nat, cidf: seq<byte>)
    requires base + BLOCK_SIZE <= a.Length && |cidf| == 5
    requires location <= end <= rdf && rdf + RDF_SIZE <= CIDF_OFFSET && recordPosition + length <= location
    modifies a
    ensures a[..] == With(old(a[..]), base, RemoveSplices(At(old(a[..]), base), end, location, rdf,
                                                         recordPosition, length, cidf))
  {
    hide Splice, At, With;
    ghost var s, b := a[..], At(a[..], base);
    MoveIfAny(a, base, recordPosition, recordPosition + length, location - (recordPosition + length));
    ghost var b1 := Splice(b, recordPosition, b[recordPosition + length..location]);
    ghost var b2 := Splice(b1, end + RDF_SIZE, b1[end..rdf]);
    WithAt(s, base, b1, b2);
    MoveIfAny(a, base, end + RDF_SIZE, end, rdf - end);
    assert a[..] == With(s, base, b2);
    StoreAndClear(a, base, cidf, location - length, end + RDF_SIZE - location + length);
    WithAt(s, base, b2, Splice(Splice(b2, CIDF_OFFSET, cidf), location - length,
                               Zeros(end + RDF_SIZE - location + length)));
  }

  method StoreAndClear(a: array<byte>, base: nat, cidf: seq<byte>, position: nat, size: nat)
    requires base + BLOCK_SIZE <= a.Length && |cidf| == 5 && position + size <= CIDF_OFFSET
    modifies a
    ensures a[..] == With(old(a[..]), base, Splice(Splice(At(old(a[..]), base), CIDF_OFFSET, cidf),
                                                   position, Zeros(size)))
  {
    hide Splice, At, With;
    ghost var s, b1 := a[..], Splice(At(a[..], base), CIDF_OFFSET, cidf);
    Store(a, base, CIDF_OFFSET, cidf);
    WithAt(s, base, b1, Splice(b1, position, Zeros(size)));
    Store(a, base, position, Zeros(size));
  }

  lemma RemoveSteps(b: seq<byte>, q: seq<byte>, d1: seq<byte>, d: seq<byte>, d2: seq<byte>, z: seq<byte>,
                    f2: seq<byte>, r: seq<byte>, f1: seq<byte>, c: seq<byte>, c': seq<byte>)
    requires |b| == BLOCK_SIZE && |r| == RDF_SIZE && |c| == |c'| == 5
    requires b == (d1 + d + d2 + z) + (f2 + r + f1 + c)
    requires q == (d1 + d2) + Zeros(|d| + |z| + RDF_SIZE) + (f2 + f1 + c')
    ensures var location, end := |d1| + |d| + |d2|, |d1| + |d| + |d2| + |z|;
            RemoveSplices(b, end, location, end + |f2|, |d1|, |d|, c') == q
  {
    assert b[|d1| + |d|..|d1| + |d| + |d2|] == d2;
    RemoveBytes(d1, d, d2, z, f2, r, f1, c, c', Zeros(|d| + |z| + RDF_SIZE));
  }

  lemma RemoveImage(p: Page, i: nat)
    requires Fits(p.records) && i < |p.records|
    ensures var rs, n := p.records, |p.records[i].data|;
            && Location(rs) + Free(rs) <= RdfPosition(i)
            && Location(rs[..i]) + n <= Location(rs)
            && RemoveSplices(Encode(p), Location(rs) + Free(rs), Location(rs), RdfPosition(i), Location(rs[..i]), n,
                             Cidf(Free(rs) + n + RDF_SIZE, Location(rs) - n, SetDirty(p.flags)))
            == Encode(Remove(p, i))
  {
    hide Splice, RemoveSplices, Encode, Cidf, Rdf, Remove, Zeros, DataBytes, RdfBytes;
    var rs, n := p.records, |p.records[i].data|;
    RemoveSizes(p, i);
    SplitEncode(p, i);
    JoinEncode(p, i);
    RemoveSteps(Encode(p), Encode(Remove(p, i)), DataBytes(rs[..i]), rs[i].data, DataBytes(rs[i + 1..]),
                Zeros(Free(rs)), RdfBytes(rs[i + 1..]), Rdf(rs[i]), RdfBytes(rs[..i]),
                Cidf(Free(rs), Location(rs), p.flags),
                Cidf(Free(rs) + n + RDF_SIZE, Location(rs) - n, SetDirty(p.flags)));
  }

  /** Block_DeleteRecordByRDF: closes the gap in both areas, keeps the order of the rest. */
  method DeleteRecordByRdf(a: array<byte>, base: nat, rdf: uint16, recordPosition: uint16,
                           ghost p: Page, ghost i: nat)
    requires Holds(a, base, p) && i < |p.records|
    requires rdf == RdfPosition(i) && recordPosition == Location(p.records[..i])
    modifies a
    ensures a[..] == With(old(a[..]), base, Encode(Remove(p, i)))
  {
    hide Splice, At, With, RemoveSplices, Encode, Cidf, Rdf, Remove;
    var free, location, flags := LoadCidf(a, base, p);
    var _, length := LoadRdf(a, base, rdf, p, i);
    RemoveImage(p, i);
    var end: uint16 := location + free;
    var newFree: uint16, newLocation: uint16 := free + length + RDF_SIZE, location - length;
    RemoveInPlace(a, base, end, location, rdf, recordPosition, length,
                  Cidf(newFree, newLocation, SetDirty(flags)));
  }

  /** Block_DeleteRecordByKey; false is eBLS_KEY_NOT_FOUND. A miss in a page that has records
      must not happen: ContainsKey would hand over the wrong field. */
  method DeleteRecordByKey(a: array<byte>, base: nat, key: uint64, ghost p: Page)
    returns (ok: bool)
    requires Holds(a, base, p)
    requires key in Keys(p.records) || p.records == []
    modifies a
    ensures ok <==> key in Keys(p.records)
    ensures ok ==> Find(p.records, key) < |p.records|
                   && a[..] == With(old(a[..]), base, Encode(Remove(p, Find(p.records, key))))
    ensures !ok ==> a[..] == old(a[..])
  {
    var rdf, recordPosition := ContainsKey(a, base, key, p);
    if rdf == -1 {
      return false;
    }
    DeleteRecordByRdf(a, base, rdf, recordPosition, p, Find(p.records, key));
    return true;
  }

  lemma ReplaceBytes(d1: seq<byte>, d: seq<byte>, d2: seq<byte>, z: seq<byte>, f: seq<byte>, c: seq<byte>,
                     data: seq<byte>, c': seq<byte>)
    requires |d| == |data| && |c| == |c'|
    ensures Splice(Splice(d1 + d + d2 + z + f + c, |d1|, data), |d1| + |d| + |d2| + |z| + |f|, c')
         == d1 + data + d2 + z + f + c'
  {
    hide Splice;
    assert d1 + d + d2 + z + f + c == d1 + d + (d2 + z + f + c);
    SpliceMiddle(d1, d, d2 + z + f + c, data);
    assert d1 + data + (d2 + z + f + c) == (d1 + data + d2 + z + f) + c + [];
    SpliceMiddle(d1 + data + d2 + z + f, c, [], c');
  }

  lemma ReplaceImage(p: Page, i: nat, data: seq<byte>)
    requires Fits(p.records) && i < |p.records| && |data| == |p.records[i].data|
    ensures var rs, q := p.records, Replace(p, i, data);
            && Location(rs[..i]) + |data| <= CIDF_OFFSET
            && Splice(Splice(Encode(p), Location(rs[..i]), data), CIDF_OFFSET,
                      Cidf(Free(rs), Location(rs), SetDirty(p.flags))) == Encode(q)
  {
    hide Splice, Rdf;
    var rs := p.records;
    AroundData(rs, i);
    ReplaceFits(rs, i, data);
    ReplaceBytes(DataBytes(rs[..i]), rs[i].data, DataBytes(rs[i + 1..]), Zeros(Free(rs)), RdfBytes(rs),
                 Cidf(Free(rs), Location(rs), p.flags), data, Cidf(Free(rs), Location(rs), SetDirty(p.flags)));
  }

  method ReplaceInPlace(a: array<byte>, base: nat, free: uint16, location: uint16, flags: byte,
                        recordPosition: uint16, record: seq<byte>)
    requires base + BLOCK_SIZE <= a.Length && recordPosition + |record| <= CIDF_OFFSET
    modifies a
    ensures a[..] == With(old(a[..]), base, Splice(Splice(At(old(a[..]), base), recordPosition, record),
                                                   CIDF_OFFSET, Cidf(free, location, SetDirty(flags))))
  {
    hide Splice, At, With;
    ghost var s, b1 := a[..], Splice(At(a[..], base), recordPosition, record);
    Store(a, base, recordPosition, record);
    WithAt(s, base, b1, Splice(b1, CIDF_OFFSET, Cidf(free, location, SetDirty(flags))));
    StoreCidf(a, base, free, location, SetDirty(flags));
  }

  /** Block_UpdateRecord; false means that the old record is gone and the new one did not fit. */
  method UpdateRecord(a: array<byte>, base: nat, key: uint64, record: seq<byte>, ghost p: Page)
    returns (ok: bool)
    requires Holds(a, base, p) && |record| < 0x1_0000
    requires key in Keys(p.records)
    modifies a
    ensures Find(p.records, key) < |p.records|
    ensures ok == Update(p, Find(p.records, key), record).0
    ensures a[..] == With(old(a[..]), base, Encode(Update(p, Find(p.records, key), record).1))
  {
    hide Splice, At, With, Encode, Cidf, Rdf, Remove, Append, Replace;
    var rdf, recordPosition := ContainsKey(a, base, key, p);
    ghost var i := Find(p.records, key);
    var _, length := LoadRdf(a, base, rdf, p, i);
    if |record| == length {
      var free, location, flags := LoadCidf(a, base, p);
      ReplaceImage(p, i, record);
      ReplaceInPlace(a, base, free, location, flags, recordPosition, record);
      return true;
    }
    ghost var s, q := a[..], Remove(p, i);
    DeleteRecordByRdf(a, base, rdf, recordPosition, p, i);
    WithAt(s, base, Encode(q), Encode(Update(p, i, record).1));
    ok := WriteRecord(a, base, key, record, q);
  }

  /** Block_GetRecord: the record's bytes, unpacked when they are gzip data. */
  method GetRecord(cfg: Config, a: array<byte>, base: nat, key: uint64, ghost p: Page)
    returns (data: seq<byte>)
    requires Holds(a, base, p) && key in Keys(p.records)
    ensures Find(p.records, key) < |p.records|
    ensures data == Expand(cfg, p.records[Find(p.records, key)].data)
  {
    var rdf, recordPosition := ContainsKey(a, base, key, p);
    ghost var i := Find(p.records, key);
    var r := LoadRecord(a, base, rdf, recordPosition, p, i);
    data := Expand(cfg, r.data);
  }

  function ExpandAll(cfg: Config, rs: seq<Record>): (es: seq<Record>)
    ensures |es| == |rs|
    ensures forall i :: 0 <= i < |rs| ==> es[i] == Record(rs[i].key, Expand(cfg, rs[i].data))
  {
    seq(|rs|, i requires 0 <= i < |rs| => Record(rs[i].key, Expand(cfg, rs[i].data)))
  }

  /** Block_GetRecords: all records of the page, oldest first. */
  method GetRecords(cfg: Config, a: array<byte>, base: nat, ghost p: Page)
    returns (records: seq<Record>)
    requires Holds(a, base, p) && |p.records| <= MAX_SCANNED_RDFS
    ensures records == ExpandAll(cfg, p.records)
  {
    hide At, Encode;
    ghost var rs := p.records;
    var free, location, _ := LoadCidf(a, base, p);
    var recordPosition: uint16 := 0;
    var position: uint16 := CIDF_OFFSET - RDF_SIZE;
    var end: uint16 := location + free;
    records := [];
    ghost var i := 0;
    ScanFacts(rs, 0);
    while true
      invariant 0 <= i <= |rs|
      invariant position == RdfPosition(i)
      invariant recordPosition == Location(rs[..i])
      invariant records == ExpandAll(cfg, rs[..i])
      decreases |rs| - i
    {
      ScanFacts(rs, i);
      if position < end {
        break;
      }
      var r := LoadRecord(a, base, position, recordPosition, p, i);
      position := position - RDF_SIZE;
      records := records + [Record(r.key, Expand(cfg, r.data))];
      recordPosition := recordPosition + |r.data|;
      i := i + 1;
    }
  }
}
