/** The slotted page as a value: an ordered list of records and a flag byte, the exact
    4096 bytes that stand for it, and the parser that reads those bytes back. */
module Pages {
  import opened Bytes

  const BLOCK_SIZE := 4096
  const CIDF_OFFSET := 4091   // BLOCK_SIZE - sizeof(CIDF)
  const RDF_SIZE := 10
  const MAX_RECORD_SIZE := 4081
  const MAX_SCANNED_RDFS := 408   // with one more, the uint16 scan position wraps

  datatype Record = Record(key: uint64, data: seq<byte>)
  datatype Page = Page(records: seq<Record>, flags: byte)

  // ----- flags

  predicate IsDirty(flags: byte) {
    flags % 2 == 1
  }

  function SetDirty(flags: byte): (r: byte)
    ensures IsDirty(r) && r / 2 == flags / 2
  {
    if IsDirty(flags) then flags else flags + 1
  }

  function ClearDirty(flags: byte): (r: byte)
    ensures !IsDirty(r) && r / 2 == flags / 2
  {
    flags - flags % 2
  }

  // ----- layout

  /** All record bytes, oldest record first. */
  function DataBytes(rs: seq<Record>): seq<byte> {
    if rs == [] then [] else DataBytes(rs[..|rs| - 1]) + rs[|rs| - 1].data
  }

  function Rdf(r: Record): (s: seq<byte>)
    ensures |s| == RDF_SIZE
  {
    PutUint(r.key, 8) + PutUint(|r.data|, 2)
  }

  /** All record definition fields, newest record first. */
  function RdfBytes(rs: seq<Record>): (s: seq<byte>)
    ensures |s| == RDF_SIZE * |rs|
  {
    if rs == [] then [] else Rdf(rs[|rs| - 1]) + RdfBytes(rs[..|rs| - 1])
  }

  function Location(rs: seq<Record>): nat {
    |DataBytes(rs)|
  }

  /** The records leave room for the control field. */
  predicate Fits(rs: seq<Record>) {
    Location(rs) + RDF_SIZE * |rs| <= CIDF_OFFSET
  }

  function Free(rs: seq<Record>): nat
    requires Fits(rs)
  {
    CIDF_OFFSET - Location(rs) - RDF_SIZE * |rs|
  }

  function Zeros(n: nat): (s: seq<byte>)
    ensures |s| == n
  {
    seq(n, _ => 0)
  }

  function Cidf(free: nat, location: nat, flags: byte): (s: seq<byte>)
    ensures |s| == 5
  {
    PutUint(free, 2) + PutUint(location, 2) + [flags]
  }

  function Encode(p: Page): (s: seq<byte>)
    requires Fits(p.records)
    ensures |s| == BLOCK_SIZE
  {
    DataBytes(p.records) + Zeros(Free(p.records)) + RdfBytes(p.records)
    + Cidf(Free(p.records), Location(p.records), p.flags)
  }

  lemma ConcatAssociative(a: seq<byte>, b: seq<byte>, c: seq<byte>)
    ensures a + (b + c) == a + b + c
  {
  }

  lemma {:induction false} DataBytesConcat(a: seq<Record>, b: seq<Record>)
    ensures DataBytes(a + b) == DataBytes(a) + DataBytes(b)
  {
    if b == [] {
      assert a + b == a;
    } else {
      var n := |b| - 1;
      assert (a + b)[..|a + b| - 1] == a + b[..n];
      DataBytesConcat(a, b[..n]);
    }
  }

  lemma {:induction false} RdfBytesConcat(a: seq<Record>, b: seq<Record>)
    ensures RdfBytes(a + b) == RdfBytes(b) + RdfBytes(a)
  {
    if b == [] {
      assert a + b == a;
    } else {
      var n := |b| - 1;
      assert (a + b)[..|a + b| - 1] == a + b[..n];
      RdfBytesConcat(a, b[..n]);
    }
  }

  lemma SplitAt(rs: seq<Record>, i: nat)
    requires i < |rs|
    ensures rs == rs[..i + 1] + rs[i + 1..] && rs[..i + 1] == rs[..i] + [rs[i]]
  {
  }

  /** Splits the two areas around record `i`. */
  lemma Around(rs: seq<Record>, i: nat)
    requires i < |rs|
    ensures DataBytes(rs) == DataBytes(rs[..i]) + rs[i].data + DataBytes(rs[i + 1..])
    ensures RdfBytes(rs) == RdfBytes(rs[i + 1..]) + Rdf(rs[i]) + RdfBytes(rs[..i])
  {
    AroundData(rs, i);
    AroundRdf(rs, i);
  }

  lemma AroundData(rs: seq<Record>, i: nat)
    requires i < |rs|
    ensures DataBytes(rs) == DataBytes(rs[..i]) + rs[i].data + DataBytes(rs[i + 1..])
  {
    SplitAt(rs, i);
    LocationAppend(rs[..i], rs[i]);
    DataBytesConcat(rs[..i + 1], rs[i + 1..]);
  }

  lemma AroundRdf(rs: seq<Record>, i: nat)
    requires i < |rs|
    ensures RdfBytes(rs) == RdfBytes(rs[i + 1..]) + Rdf(rs[i]) + RdfBytes(rs[..i])
  {
    SplitAt(rs, i);
    LocationAppend(rs[..i], rs[i]);
    RdfBytesConcat(rs[..i + 1], rs[i + 1..]);
    ConcatAssociative(RdfBytes(rs[i + 1..]), Rdf(rs[i]), RdfBytes(rs[..i]));
  }

  lemma LocationAppend(rs: seq<Record>, r: Record)
    ensures DataBytes(rs + [r]) == DataBytes(rs) + r.data
    ensures RdfBytes(rs + [r]) == Rdf(r) + RdfBytes(rs)
  {
    assert (rs + [r])[..|rs|] == rs;
  }

  lemma FitsPrefix(rs: seq<Record>, i: nat)
    requires i <= |rs| && Fits(rs)
    ensures Fits(rs[..i]) && Location(rs[..i]) <= Location(rs)
  {
    assert rs == rs[..i] + rs[i..];
    DataBytesConcat(rs[..i], rs[i..]);
  }

  lemma RecordFits(rs: seq<Record>, i: nat)
    requires i < |rs| && Fits(rs)
    ensures Location(rs[..i]) + |rs[i].data| <= Location(rs) <= CIDF_OFFSET
    ensures |rs[i].data| <= MAX_RECORD_SIZE
  {
    Around(rs, i);
  }

  // ----- reading fields of a page image

  function RdfPosition(i: nat): int {
    CIDF_OFFSET - RDF_SIZE * (i + 1)
  }

  function FreeField(b: seq<byte>): nat
    requires |b| == BLOCK_SIZE
  {
    GetUint(b[CIDF_OFFSET..CIDF_OFFSET + 2])
  }

  function LocationField(b: seq<byte>): nat
    requires |b| == BLOCK_SIZE
  {
    GetUint(b[CIDF_OFFSET + 2..CIDF_OFFSET + 4])
  }

  function FlagsField(b: seq<byte>): byte
    requires |b| == BLOCK_SIZE
  {
    b[CIDF_OFFSET + 4]
  }

  function KeyField(b: seq<byte>, position: nat): nat
    requires position + RDF_SIZE <= |b|
  {
    GetUint(b[position..position + 8])
  }

  function LengthField(b: seq<byte>, position: nat): nat
    requires position + RDF_SIZE <= |b|
  {
    GetUint(b[position + 8..position + RDF_SIZE])
  }

  lemma CidfFields(b: seq<byte>, free: uint16, location: uint16, flags: byte)
    requires |b| == BLOCK_SIZE && b[CIDF_OFFSET..] == Cidf(free, location, flags)
    ensures FreeField(b) == free && LocationField(b) == location && FlagsField(b) == flags
  {
    var c := b[CIDF_OFFSET..];
    assert b[CIDF_OFFSET..CIDF_OFFSET + 2] == c[..2] == PutUint(free, 2);
    assert b[CIDF_OFFSET + 2..CIDF_OFFSET + 4] == c[2..4];
    assert c[2..4] == PutUint(location, 2);
    assert b[CIDF_OFFSET + 4] == c[4];
    Uint16RoundTrip(free);
    Uint16RoundTrip(location);
  }

  lemma CidfOfEncode(p: Page)
    requires Fits(p.records)
    ensures FreeField(Encode(p)) == Free(p.records)
    ensures LocationField(Encode(p)) == Location(p.records)
    ensures FlagsField(Encode(p)) == p.flags
  {
    assert Encode(p)[CIDF_OFFSET..] == Cidf(Free(p.records), Location(p.records), p.flags);
    CidfFields(Encode(p), Free(p.records), Location(p.records), p.flags);
  }

  lemma AreasOfEncode(p: Page)
    requires Fits(p.records)
    ensures Encode(p)[..Location(p.records)] == DataBytes(p.records)
    ensures Encode(p)[CIDF_OFFSET - RDF_SIZE * |p.records|..CIDF_OFFSET] == RdfBytes(p.records)
  {
  }

  /** What is free between the two areas of a page is zero. */
  lemma FreeOfEncode(p: Page)
    requires Fits(p.records)
    ensures var l := Location(p.records);
            forall k :: l <= k < l + Free(p.records) ==> Encode(p)[k] == 0
  {
  }

  lemma SliceOfSlice(b: seq<byte>, lo: nat, hi: nat, i: nat, j: nat)
    requires i <= j <= hi - lo && lo <= hi <= |b|
    ensures b[lo..hi][i..j] == b[lo + i..lo + j]
  {
    var s := b[lo..hi];
    assert forall k {:trigger s[k]} :: i <= k < j ==> s[k] == b[lo + k];
    assert forall k :: 0 <= k < j - i ==> s[i..j][k] == s[i + k];
  }

  lemma SliceMiddle(a: seq<byte>, b: seq<byte>, c: seq<byte>)
    ensures (a + b + c)[|a|..|a| + |b|] == b
  {
  }

  lemma RdfOfEncode(p: Page, i: nat)
    requires Fits(p.records) && i < |p.records|
    ensures Free(p.records) + Location(p.records) <= RdfPosition(i)
    ensures Encode(p)[RdfPosition(i)..RdfPosition(i) + RDF_SIZE] == Rdf(p.records[i])
  {
    var rs := p.records;
    var low, skip := CIDF_OFFSET - RDF_SIZE * |rs|, RDF_SIZE * (|rs| - 1 - i);
    AroundRdf(rs, i);
    SliceMiddle(RdfBytes(rs[i + 1..]), Rdf(rs[i]), RdfBytes(rs[..i]));
    AreasOfEncode(p);
    SliceOfSlice(Encode(p), low, CIDF_OFFSET, skip, skip + RDF_SIZE);
  }

  lemma RdfFields(b: seq<byte>, position: nat, r: Record)
    requires position + RDF_SIZE <= |b| && |r.data| < 0x1_0000
    requires b[position..position + RDF_SIZE] == Rdf(r)
    ensures KeyField(b, position) == r.key
    ensures LengthField(b, position) == |r.data|
  {
    var s := b[position..position + RDF_SIZE];
    assert b[position..position + 8] == s[..8] == PutUint(r.key, 8);
    assert b[position + 8..position + RDF_SIZE] == s[8..] == PutUint(|r.data|, 2);
    Uint64RoundTrip(r.key);
    Uint16RoundTrip(|r.data|);
  }

  lemma DataOfEncode(p: Page, i: nat)
    requires Fits(p.records) && i < |p.records|
    ensures Location(p.records[..i]) + |p.records[i].data| <= CIDF_OFFSET
    ensures Encode(p)[Location(p.records[..i])..Location(p.records[..i]) + |p.records[i].data|]
         == p.records[i].data
  {
    var rs := p.records;
    RecordFits(rs, i);
    AroundData(rs, i);
    var l, n := Location(rs[..i]), |rs[i].data|;
    SliceMiddle(DataBytes(rs[..i]), rs[i].data, DataBytes(rs[i + 1..]));
    AreasOfEncode(p);
    SliceOfSlice(Encode(p), 0, Location(rs), l, l + n);
  }

  /** Where record `i` of a page lies in its image. */
  lemma RecordOfEncode(p: Page, i: nat)
    requires Fits(p.records) && i < |p.records|
    ensures Free(p.records) + Location(p.records) <= RdfPosition(i)
    ensures KeyField(Encode(p), RdfPosition(i)) == p.records[i].key
    ensures LengthField(Encode(p), RdfPosition(i)) == |p.records[i].data|
    ensures Location(p.records[..i]) + |p.records[i].data| <= CIDF_OFFSET
    ensures Encode(p)[Location(p.records[..i])..Location(p.records[..i]) + |p.records[i].data|]
         == p.records[i].data
  {
    RdfOfEncode(p, i);
    RecordFits(p.records, i);
    RdfFields(Encode(p), RdfPosition(i), p.records[i]);
    DataOfEncode(p, i);
  }

  // ----- parsing a page image

  function DecodeRecords(b: seq<byte>, i: nat, n: nat, position: nat): seq<Record>
    requires |b| == BLOCK_SIZE && n <= 409
    decreases n - i
  {
    if i >= n then []
    else
      var key, length := KeyField(b, RdfPosition(i)), LengthField(b, RdfPosition(i));
      if key > 0xFFFF_FFFF_FFFF_FFFF || position + length > BLOCK_SIZE then []
      else [Record(key, b[position..position + length])] + DecodeRecords(b, i + 1, n, position + length)
  }

  /** The page that a 4096-byte image stands for. */
  function DecodePage(b: seq<byte>): Page
    requires |b| == BLOCK_SIZE
  {
    var end := LocationField(b) + FreeField(b);
    var n := if end > CIDF_OFFSET then 0 else (CIDF_OFFSET - end) / RDF_SIZE;
    Page(DecodeRecords(b, 0, n, 0), FlagsField(b))
  }

  lemma DecodeStep(b: seq<byte>, i: nat, n: nat, position: nat, r: Record)
    requires |b| == BLOCK_SIZE && i < n <= 409
    requires KeyField(b, RdfPosition(i)) == r.key && LengthField(b, RdfPosition(i)) == |r.data|
    requires position + |r.data| <= BLOCK_SIZE && b[position..position + |r.data|] == r.data
    ensures DecodeRecords(b, i, n, position) == [r] + DecodeRecords(b, i + 1, n, position + |r.data|)
  {
  }

  /** Every record of the list is where a scan of the image looks for it. */
  ghost predicate Scannable(b: seq<byte>, rs: seq<Record>)
    requires |b| == BLOCK_SIZE && |rs| <= 409
  {
    forall i {:trigger rs[i]} :: 0 <= i < |rs| ==>
      && KeyField(b, RdfPosition(i)) == rs[i].key
      && LengthField(b, RdfPosition(i)) == |rs[i].data|
      && Location(rs[..i]) + |rs[i].data| <= BLOCK_SIZE
      && b[Location(rs[..i])..Location(rs[..i]) + |rs[i].data|] == rs[i].data
  }

  lemma {:induction false} DecodeScannable(b: seq<byte>, rs: seq<Record>, i: nat)
    requires |b| == BLOCK_SIZE && i <= |rs| <= 409 && Scannable(b, rs)
    ensures DecodeRecords(b, i, |rs|, Location(rs[..i])) == rs[i..]
    decreases |rs| - i
  {
    hide KeyField, LengthField, RdfPosition, DataBytes;
    if i < |rs| {
      var r := rs[i];
      DecodeStep(b, i, |rs|, Location(rs[..i]), r);
      assert Location(rs[..i]) + |r.data| == Location(rs[..i + 1]) by {
        SplitAt(rs, i);
        LocationAppend(rs[..i], r);
      }
      DecodeScannable(b, rs, i + 1);
      assert rs[i..] == [r] + rs[i + 1..];
    }
  }

  lemma EncodeScannable(p: Page)
    requires Fits(p.records)
    ensures |p.records| <= 409 && Scannable(Encode(p), p.records)
  {
    forall i | 0 <= i < |p.records|
      ensures && KeyField(Encode(p), RdfPosition(i)) == p.records[i].key
              && LengthField(Encode(p), RdfPosition(i)) == |p.records[i].data|
              && Location(p.records[..i]) + |p.records[i].data| <= BLOCK_SIZE
              && Encode(p)[Location(p.records[..i])..Location(p.records[..i]) + |p.records[i].data|]
              == p.records[i].data
    {
      RecordOfEncode(p, i);
    }
  }

  lemma DecodeWithCount(b: seq<byte>, n: nat)
    requires |b| == BLOCK_SIZE && n <= 409
    requires LocationField(b) + FreeField(b) == CIDF_OFFSET - RDF_SIZE * n
    ensures DecodePage(b) == Page(DecodeRecords(b, 0, n, 0), FlagsField(b))
  {
  }

  /** Round trip: the bytes of a page are a function of the page and determine it. */
  lemma DecodeEncode(p: Page)
    requires Fits(p.records)
    ensures DecodePage(Encode(p)) == p
  {
    assert DecodePage(Encode(p)) == Page(DecodeRecords(Encode(p), 0, |p.records|, 0), p.flags) by {
      CidfOfEncode(p);
      DecodeWithCount(Encode(p), |p.records|);
    }
    EncodeScannable(p);
    DecodeScannable(Encode(p), p.records, 0);
    assert p.records[..0] == [] && p.records[0..] == p.records;
  }

  // ----- the operations on values

  function Keys(rs: seq<Record>): set<uint64> {
    set r | r in rs :: r.key
  }

  /** Index of the first record with the key, or the number of records. */
  function Find(rs: seq<Record>, key: uint64): (i: nat)
    ensures i <= |rs|
    ensures i < |rs| ==> rs[i].key == key
    ensures forall j :: 0 <= j < i ==> rs[j].key != key
  {
    if rs == [] then 0
    else if rs[0].key == key then 0
    else 1 + Find(rs[1..], key)
  }

  lemma FindIs(rs: seq<Record>, key: uint64, i: nat)
    requires i < |rs| && rs[i].key == key
    requires forall j :: 0 <= j < i ==> rs[j].key != key
    ensures Find(rs, key) == i && key in Keys(rs)
  {
  }

  lemma KeysMiss(rs: seq<Record>, key: uint64)
    requires forall j :: 0 <= j < |rs| ==> rs[j].key != key
    ensures key !in Keys(rs)
  {
  }

  lemma FindInKeys(rs: seq<Record>, key: uint64)
    ensures Find(rs, key) < |rs| <==> key in Keys(rs)
  {
  }

  predicate CanTake(p: Page, size: nat)
    requires Fits(p.records)
  {
    size + RDF_SIZE <= Free(p.records)
  }

  function Append(p: Page, r: Record): (q: Page)
    requires Fits(p.records) && CanTake(p, |r.data|)
    ensures Fits(q.records) && IsDirty(q.flags)
    ensures Free(q.records) + |r.data| + RDF_SIZE == Free(p.records)
  {
    LocationAppend(p.records, r);
    Page(p.records + [r], SetDirty(p.flags))
  }

  function Without(rs: seq<Record>, i: nat): seq<Record>
    requires i < |rs|
  {
    rs[..i] + rs[i + 1..]
  }

  lemma WithoutFits(rs: seq<Record>, i: nat)
    requires i < |rs| && Fits(rs)
    ensures Fits(Without(rs, i))
    ensures Free(Without(rs, i)) == Free(rs) + |rs[i].data| + RDF_SIZE
    ensures DataBytes(Without(rs, i)) == DataBytes(rs[..i]) + DataBytes(rs[i + 1..])
    ensures RdfBytes(Without(rs, i)) == RdfBytes(rs[i + 1..]) + RdfBytes(rs[..i])
  {
    Around(rs, i);
    DataBytesConcat(rs[..i], rs[i + 1..]);
    RdfBytesConcat(rs[..i], rs[i + 1..]);
  }

  function Remove(p: Page, i: nat): (q: Page)
    requires i < |p.records| && Fits(p.records)
    ensures Fits(q.records) && IsDirty(q.flags)
  {
    WithoutFits(p.records, i);
    Page(Without(p.records, i), SetDirty(p.flags))
  }

  function Replace(p: Page, i: nat, data: seq<byte>): (q: Page)
    requires i < |p.records| && Fits(p.records) && |data| == |p.records[i].data|
    ensures Fits(q.records) && IsDirty(q.flags)
  {
    ReplaceFits(p.records, i, data);
    Page(p.records[i := p.records[i].(data := data)], SetDirty(p.flags))
  }

  lemma ReplaceFits(rs: seq<Record>, i: nat, data: seq<byte>)
    requires i < |rs| && Fits(rs) && |data| == |rs[i].data|
    ensures var qs := rs[i := rs[i].(data := data)];
            && Fits(qs) && Location(qs) == Location(rs)
            && DataBytes(qs) == DataBytes(rs[..i]) + data + DataBytes(rs[i + 1..])
            && RdfBytes(qs) == RdfBytes(rs)
  {
    var qs := rs[i := rs[i].(data := data)];
    Around(rs, i);
    Around(qs, i);
    assert qs[..i] == rs[..i] && qs[i + 1..] == rs[i + 1..];
  }

  /** Replace in place when the size is the same; otherwise remove, then append if there is room. */
  function Update(p: Page, i: nat, data: seq<byte>): (r: (bool, Page))
    requires i < |p.records| && Fits(p.records)
    ensures Fits(r.1.records) && IsDirty(r.1.flags)
  {
    if |data| == |p.records[i].data| then (true, Replace(p, i, data))
    else
      var q := Remove(p, i);
      if CanTake(q, |data|) then (true, Append(q, Record(p.records[i].key, data))) else (false, q)
  }

  /** An update stays in its page exactly when the new bytes fit into the old ones and the free space. With
      the same size the record keeps its place; otherwise the others close up, and it comes last. */
  lemma UpdateShape(p: Page, i: nat, data: seq<byte>)
    requires i < |p.records| && Fits(p.records)
    ensures var u, rs, r := Update(p, i, data), p.records, Record(p.records[i].key, data);
            && (u.0 <==> |data| <= |rs[i].data| + Free(rs)) && u.1.flags == SetDirty(p.flags)
            && (if |data| == |rs[i].data| then
                  |u.1.records| == |rs| && forall j :: 0 <= j < |rs| ==> u.1.records[j] == if j == i then r else rs[j]
                else ClosedUp(rs, i, if u.0 then [r] else [], u.1.records))
  {
    hide RdfBytes, DataBytes;
    var q := Remove(p, i);
    WithoutFits(p.records, i);
  }

  /** A record that does not stay finds no room in its page, with or without its old bytes. */
  lemma UpdateFails(p: Page, i: nat, data: seq<byte>)
    requires i < |p.records| && Fits(p.records) && !Update(p, i, data).0
    ensures |data| + RDF_SIZE > Free(p.records) && |data| + RDF_SIZE > Free(Update(p, i, data).1.records)
  {
    hide RdfBytes, DataBytes;
    WithoutFits(p.records, i);
  }

  /** `qs` is `rs` without record `i`, in the same order, and `end` behind. */
  ghost predicate ClosedUp(rs: seq<Record>, i: nat, end: seq<Record>, qs: seq<Record>)
    requires i < |rs|
  {
    && |qs| == |rs| - 1 + |end|
    && (forall j :: 0 <= j < |rs| && j != i ==> rs[j] == qs[if j < i then j else j - 1])
    && forall j :: 0 <= j < |end| ==> end[j] == qs[|rs| - 1 + j]
  }

  /** A removed record leaves the others in their order. */
  lemma RemoveShape(p: Page, i: nat)
    requires i < |p.records| && Fits(p.records)
    ensures ClosedUp(p.records, i, [], Remove(p, i).records) && Remove(p, i).flags == SetDirty(p.flags)
  {
    hide RdfBytes, DataBytes;
  }

  function EmptyPage(): (p: Page)
    ensures Fits(p.records) && Free(p.records) == CIDF_OFFSET && IsDirty(p.flags)
  {
    Page([], 1)
  }

  /** The scan position after `n` record definition fields, as the uint16 holds it. */
  function ScanPosition(n: nat): uint16 {
    (CIDF_OFFSET - RDF_SIZE * (n + 1)) % 0x1_0000
  }

  /** A scan that finds no match stops at the end of the RDF area exactly when at most
      408 fields were visited; with 409 (records of no bytes) the position wraps. */
  lemma ScanStopsIff(rs: seq<Record>)
    requires Fits(rs)
    ensures ScanPosition(|rs|) < Location(rs) + Free(rs) <==> |rs| <= MAX_SCANNED_RDFS
  {
    if |rs| == 409 {
      assert CIDF_OFFSET - RDF_SIZE * (|rs| + 1) == -9;
      assert ScanPosition(|rs|) == 0x1_0000 - 9;
    }
  }

  /** Records of at least one byte keep every page scannable. */
  lemma {:induction false} NonEmptyRecordsScannable(rs: seq<Record>)
    requires forall r :: r in rs ==> |r.data| >= 1
    ensures Location(rs) >= |rs|
    ensures Fits(rs) ==> |rs| <= 371
  {
    if rs != [] {
      NonEmptyRecordsScannable(rs[..|rs| - 1]);
      assert rs[|rs| - 1] in rs;
    }
  }
}
