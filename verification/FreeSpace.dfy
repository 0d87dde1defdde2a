/** The free-space map of the data file: from an extent length to the positions of the free
    extents of that length. Best fit with split, freeing, and the rebuild from the index. */
module FreeSpace {
  import opened Sets

  type FreeMap = map<int, seq<int>>

  datatype Extent = Extent(pos: int, len: int)

  predicate Disjoint(a: Extent, b: Extent) {
    a.pos + a.len <= b.pos || b.pos + b.len <= a.pos
  }

  predicate Covers(e: Extent, p: int) {
    e.pos <= p < e.pos + e.len
  }

  /** The i-th free extent of a length is in the map. */
  predicate HasFree(f: FreeMap, len: int, i: int) {
    len in f && 0 <= i < |f[len]|
  }

  function FreeExtent(f: FreeMap, len: int, i: int): Extent
    requires HasFree(f, len, i)
  {
    Extent(f[len][i], len)
  }

  /** No length is listed without a position, and every length is positive. */
  ghost predicate FreeOk(f: FreeMap) {
    forall len :: len in f ==> len > 0 && f[len] != []
  }

  // ----- freeing

  /** DiskWriter::AddFreeSpace. */
  function AddFree(f: FreeMap, pos: int, len: int): FreeMap {
    if pos < 0 || len <= 0 then f
    else f[len := (if len in f then f[len] else []) + [pos]]
  }

  function FreeCount(f: FreeMap, len: int): nat {
    if len in f then |f[len]| else 0
  }

  /** Freeing adds exactly one free extent. */
  lemma AddFreeCorrect(f: FreeMap, pos: int, len: int)
    requires FreeOk(f) && pos >= 0 && len > 0
    ensures var g := AddFree(f, pos, len);
            && FreeOk(g)
            && (forall l, i :: HasFree(g, l, i) <==> HasFree(f, l, i) || (l == len && i == FreeCount(f, len)))
            && (forall l, i :: HasFree(f, l, i) ==> FreeExtent(g, l, i) == FreeExtent(f, l, i))
            && HasFree(g, len, FreeCount(f, len)) && FreeExtent(g, len, FreeCount(f, len)) == Extent(pos, len)
  {
  }

  // ----- allocating

  /** The shortest listed length that is at least `len`. */
  ghost predicate IsBestFit(f: FreeMap, len: int, best: int) {
    best in f && best >= len && forall l :: l in f && l >= len ==> best <= l
  }

  ghost function BestFit(f: FreeMap, len: int): (best: int)
    requires exists l :: l in f && l >= len
    ensures IsBestFit(f, len, best)
  {
    var s := set l | l in f && l >= len;
    var w :| w in f && w >= len;
    assert w in s;
    LeastExists(s);
    var best :| IsLeast(s, best);
    assert forall l :: l in f && l >= len ==> l in s;
    best
  }

  /** Takes the last listed extent of a length. */
  function PopFree(f: FreeMap, len: int): FreeMap
    requires len in f && f[len] != []
  {
    if |f[len]| == 1 then f - {len} else f[len := f[len][..|f[len]| - 1]]
  }

  /** DiskWriter::GetFreeSpacePos: the position, -1 when nothing fits, and the new map. */
  ghost function Alloc(f: FreeMap, len: int): (int, FreeMap)
    requires FreeOk(f)
  {
    if !exists l :: l in f && l >= len then (-1, f)
    else
      var best := BestFit(f, len);
      var pos := f[best][|f[best]| - 1];
      var g := PopFree(f, best);
      (pos, if best == len then g else AddFree(g, pos + len, best - len))
  }

  ghost predicate NonNegative(f: FreeMap) {
    forall l, i :: HasFree(f, l, i) ==> f[l][i] >= 0
  }

  lemma SplitTaken(f: FreeMap, len: int, best: int)
    requires FreeOk(f) && NonNegative(f) && best in f && best > len > 0
    ensures var i := |f[best]| - 1;
            var pos := f[best][i];
            var g := AddFree(PopFree(f, best), pos + len, best - len);
            FreeOk(g) && HasFree(f, best, i) && pos >= 0 && Taken(f, g, best, i, pos, len)
  {
    hide AddFree, PopFree;
    var i := |f[best]| - 1;
    assert HasFree(f, best, i);
    PopCorrect(f, best);
    AddFreeCorrect(PopFree(f, best), f[best][i] + len, best - len);
    PopCount(f, best, best - len);
  }

  lemma PopCount(f: FreeMap, len: int, other: int)
    requires FreeOk(f) && len in f && other != len
    ensures FreeCount(PopFree(f, len), other) == FreeCount(f, other)
  {
  }

  lemma ExactTaken(f: FreeMap, len: int)
    requires FreeOk(f) && NonNegative(f) && len in f && len > 0
    ensures var i := |f[len]| - 1;
            var g := PopFree(f, len);
            FreeOk(g) && HasFree(f, len, i) && f[len][i] >= 0 && Taken(f, g, len, i, f[len][i], len)
  {
    hide PopFree;
    assert HasFree(f, len, |f[len]| - 1);
    PopCorrect(f, len);
  }

  /** Best fit: exactly one extent, of the shortest length that fits, leaves the map; when it is
      longer than asked for, its tail comes back. Nothing fits exactly when -1 is returned. */
  lemma AllocCorrect(f: FreeMap, len: int)
    requires FreeOk(f) && len > 0 && NonNegative(f)
    ensures var (pos, g) := Alloc(f, len);
            && FreeOk(g)
            && (pos == -1 <==> forall l :: l in f ==> l < len)
            && (pos == -1 ==> g == f)
            && (pos != -1 ==>
                  exists l, i :: HasFree(f, l, i) && IsBestFit(f, len, l) && Taken(f, g, l, i, pos, len))
  {
    hide Taken, PopFree, AddFree, NonNegative;
    if exists l :: l in f && l >= len {
      var best := BestFit(f, len);
      var i := |f[best]| - 1;
      if best == len {
        ExactTaken(f, len);
      } else {
        SplitTaken(f, len, best);
      }
      assert HasFree(f, best, i) && Taken(f, Alloc(f, len).1, best, i, f[best][i], len);
    }
  }

  lemma PopCorrect(f: FreeMap, len: int)
    requires FreeOk(f) && len in f
    ensures var g := PopFree(f, len);
            && FreeOk(g)
            && (forall l, j :: HasFree(g, l, j) <==> HasFree(f, l, j) && !(l == len && j == |f[len]| - 1))
            && (forall l, j :: HasFree(g, l, j) ==> FreeExtent(g, l, j) == FreeExtent(f, l, j))
  {
  }

  /** `g` is `f` without the extent `(l, i)`, whose first `len` bytes, at `pos`, were taken. */
  ghost predicate Taken(f: FreeMap, g: FreeMap, l: int, i: int, pos: int, len: int)
    requires HasFree(f, l, i)
  {
    && FreeExtent(f, l, i) == Extent(pos, l) && 0 < len <= l
    && (forall k, j :: HasFree(g, k, j) <==>
          (HasFree(f, k, j) && !(k == l && j == i)) || (l > len && k == l - len && j == FreeCount(f, k)))
    && (forall k, j :: HasFree(g, k, j) && HasFree(f, k, j) ==> FreeExtent(g, k, j) == FreeExtent(f, k, j))
    && (l > len ==> HasFree(g, l - len, FreeCount(f, l - len))
                    && FreeExtent(g, l - len, FreeCount(f, l - len)) == Extent(pos + len, l - len))
  }

  /** The first `len` bytes of a free extent of the shortest length that fits, at `pos`, have left the map. */
  ghost predicate TakenAtBest(f: FreeMap, g: FreeMap, pos: int, len: int) {
    exists l, i :: HasFree(f, l, i) && IsBestFit(f, len, l) && Taken(f, g, l, i, pos, len)
  }

  /** When only one extent is long enough, that one is taken. */
  lemma OnlyFit(f: FreeMap, end: int, grown: int, g: FreeMap, pos: int, len: int)
    requires end >= 0 && grown >= len > 0 && forall l :: l in f ==> l < len
    requires TakenAtBest(AddFree(f, end, grown), g, pos, len)
    ensures pos == end
  {
    var l, i :| HasFree(AddFree(f, end, grown), l, i) && IsBestFit(AddFree(f, end, grown), len, l)
                && Taken(AddFree(f, end, grown), g, l, i, pos, len);
  }

  /** After the file grew by at least the request, the second attempt cannot fail. */
  lemma AllocAfterGrowth(f: FreeMap, len: int, end: int, grown: int)
    requires FreeOk(f) && len > 0 && end >= 0 && grown >= len
    requires NonNegative(f)
    ensures FreeOk(AddFree(f, end, grown)) && Alloc(AddFree(f, end, grown), len).0 != -1
  {
    AddFreeCorrect(f, end, grown);
    var g := AddFree(f, end, grown);
    assert grown in g;
    AllocCorrect(g, len);
  }

  // ----- the rebuild from the stored extents

  ghost predicate Sorted(defs: seq<Extent>) {
    forall i, j :: 0 <= i < j < |defs| ==> defs[i].pos <= defs[j].pos
  }

  function InsertSorted(defs: seq<Extent>, d: Extent): seq<Extent> {
    if defs == [] then [d]
    else if defs[|defs| - 1].pos <= d.pos then defs + [d]
    else InsertSorted(defs[..|defs| - 1], d) + [defs[|defs| - 1]]
  }

  /** Stands for the parallel sort by position. */
  function SortByPosition(defs: seq<Extent>): seq<Extent> {
    if defs == [] then [] else InsertSorted(SortByPosition(defs[..|defs| - 1]), defs[|defs| - 1])
  }

  ghost predicate PairwiseDisjoint(defs: seq<Extent>) {
    forall i, j :: 0 <= i < j < |defs| ==> Disjoint(defs[i], defs[j])
  }

  ghost predicate DisjointFrom(defs: seq<Extent>, d: Extent) {
    forall i :: 0 <= i < |defs| ==> Disjoint(defs[i], d)
  }

  lemma {:induction false} InsertSortedCorrect(defs: seq<Extent>, d: Extent)
    requires Sorted(defs)
    ensures var r := InsertSorted(defs, d);
            && Sorted(r) && (forall e :: e in r <==> e in defs || e == d)
            && (PairwiseDisjoint(r) <==> PairwiseDisjoint(defs) && DisjointFrom(defs, d))
  {
    hide PairwiseDisjoint, DisjointFrom;
    if defs != [] && defs[|defs| - 1].pos > d.pos {
      var n := |defs| - 1;
      var front, last := defs[..n], defs[n];
      InsertSortedCorrect(front, d);
      var q := InsertSorted(front, d);
      InsertedDisjoint(front, q, d, last);
      assert defs == front + [last];
      forall i | 0 <= i < |q| ensures q[i].pos <= last.pos {
        assert q[i] in q;
      }
    } else {
      DisjointAppend(defs, d);
      if defs == [] {
        assert [d] == defs + [d];
      }
    }
  }

  lemma InsertedDisjoint(front: seq<Extent>, q: seq<Extent>, d: Extent, last: Extent)
    requires forall e :: e in q <==> e in front || e == d
    requires PairwiseDisjoint(q) <==> PairwiseDisjoint(front) && DisjointFrom(front, d)
    ensures PairwiseDisjoint(q + [last]) <==> PairwiseDisjoint(front + [last]) && DisjointFrom(front + [last], d)
  {
    hide PairwiseDisjoint, DisjointFrom;
    DisjointAppend(q, last);
    DisjointAppend(front, last);
    DisjointMembers(q, last);
    DisjointMembers(front, last);
    DisjointMembers(front + [last], d);
    DisjointMembers(front, d);
    assert forall e :: e in front + [last] <==> e in front || e == last;
    assert d in q;
    assert Disjoint(d, last) <==> Disjoint(last, d);
  }

  lemma DisjointAppend(s: seq<Extent>, x: Extent)
    ensures PairwiseDisjoint(s + [x]) <==> PairwiseDisjoint(s) && DisjointFrom(s, x)
  {
    var t := s + [x];
    if PairwiseDisjoint(t) {
      forall i | 0 <= i < |s| ensures Disjoint(s[i], x) {
        assert t[i] == s[i] && t[|s|] == x;
      }
      forall i, j | 0 <= i < j < |s| ensures Disjoint(s[i], s[j]) {
        assert t[i] == s[i] && t[j] == s[j];
      }
    }
  }

  lemma DisjointMembers(s: seq<Extent>, x: Extent)
    ensures DisjointFrom(s, x) <==> forall e :: e in s ==> Disjoint(e, x)
  {
  }

  lemma {:induction false} SortCorrect(defs: seq<Extent>)
    ensures var r := SortByPosition(defs);
            && Sorted(r) && (forall e :: e in r <==> e in defs)
            && (PairwiseDisjoint(r) <==> PairwiseDisjoint(defs))
  {
    if defs != [] {
      var n := |defs| - 1;
      SortCorrect(defs[..n]);
      InsertSortedCorrect(SortByPosition(defs[..n]), defs[n]);
      DisjointMembers(defs[..n], defs[n]);
      DisjointMembers(SortByPosition(defs[..n]), defs[n]);
      DisjointAppend(defs[..n], defs[n]);
      assert defs == defs[..n] + [defs[n]];
    }
  }

  datatype Gaps = Gaps(free: FreeMap, start: int, ok: bool)

  /** The loop of LoadFreeSpaceFromIndexDef after the first `n` sorted extents. */
  function GapsOf(defs: seq<Extent>, n: nat): Gaps
    requires n <= |defs|
  {
    if n == 0 then Gaps(map[], 0, true)
    else
      var g, d := GapsOf(defs, n - 1), defs[n - 1];
      var gap := d.pos - g.start;
      Gaps(if gap > 0 then AddFree(g.free, g.start, gap) else g.free, d.pos + d.len, g.ok && gap >= 0)
  }

  /** LoadFreeSpaceFromIndexDef: the free map and whether the stored extents were sound. */
  function Rebuild(defs: seq<Extent>, size: int): (bool, FreeMap) {
    SortLength(defs);
    var g := GapsOf(SortByPosition(defs), |defs|);
    (g.ok, if size != g.start then AddFree(g.free, g.start, size - g.start) else g.free)
  }

  lemma {:induction false} InsertLength(defs: seq<Extent>, d: Extent)
    ensures |InsertSorted(defs, d)| == |defs| + 1
  {
    if defs != [] {
      InsertLength(defs[..|defs| - 1], d);
    }
  }

  lemma {:induction false} SortLength(defs: seq<Extent>)
    ensures |SortByPosition(defs)| == |defs|
  {
    if defs != [] {
      SortLength(defs[..|defs| - 1]);
      InsertLength(SortByPosition(defs[..|defs| - 1]), defs[|defs| - 1]);
    }
  }

  ghost predicate InDefs(defs: seq<Extent>, p: int) {
    exists d :: d in defs && Covers(d, p)
  }

  ghost predicate InFree(f: FreeMap, p: int) {
    exists l, i :: HasFree(f, l, i) && Covers(FreeExtent(f, l, i), p)
  }

  /** Free extents lie in [0, size), overlap nowhere and never touch: they are maximal. */
  ghost predicate Maximal(f: FreeMap, size: int) {
    && FreeOk(f)
    && (forall l, i :: HasFree(f, l, i) ==> 0 <= f[l][i] && f[l][i] + l <= size)
    && forall l, i, k, j :: HasFree(f, l, i) && HasFree(f, k, j) && !(l == k && i == j) ==>
         f[l][i] + l < f[k][j] || f[k][j] + k < f[l][i]
  }

  ghost predicate PositiveLengths(defs: seq<Extent>) {
    forall d :: d in defs ==> d.len > 0
  }

  /** Corruption is reported exactly when an extent starts below 0 or two extents overlap. */
  lemma {:induction false} GapsOkIff(defs: seq<Extent>, n: nat)
    requires n <= |defs| && Sorted(defs) && PositiveLengths(defs)
    ensures GapsOf(defs, n).ok <==>
              PairwiseDisjoint(defs[..n]) && forall i :: 0 <= i < n ==> defs[i].pos >= 0
    ensures GapsOf(defs, n).start == if n == 0 then 0 else defs[n - 1].pos + defs[n - 1].len
    ensures GapsOf(defs, n).ok ==> forall i :: 0 <= i < n ==> defs[i].pos + defs[i].len <= GapsOf(defs, n).start
  {
    if n > 0 {
      GapsOkIff(defs, n - 1);
      assert defs[..n] == defs[..n - 1] + [defs[n - 1]];
      DisjointAppend(defs[..n - 1], defs[n - 1]);
      assert defs[n - 1] in defs;
      if n > 1 {
        assert defs[n - 2] in defs;
        assert defs[..n - 1][n - 2] == defs[n - 2];
      }
    }
  }

  /** After `n` sound extents: the free map is the part of [0, start) outside them, and ends
      strictly before `start`. */
  lemma {:induction false} GapsExact(defs: seq<Extent>, n: nat)
    requires n <= |defs| && Sorted(defs) && PositiveLengths(defs) && GapsOf(defs, n).ok
    ensures var g := GapsOf(defs, n);
            && Maximal(g.free, g.start - 1) && g.start >= 0
            && forall p :: 0 <= p < g.start ==> (InFree(g.free, p) <==> !InDefs(defs[..n], p))
    ensures n == 0 ==> GapsOf(defs, n).free == map[]
  {
    hide Maximal, InFree, InDefs, PairwiseDisjoint, AddFree;
    if n == 0 {
      NoGaps();
    } else {
      GapsExact(defs, n - 1);
      GapsOkIff(defs, n);
      GapsOkIff(defs, n - 1);
      var g, d := GapsOf(defs, n - 1), defs[n - 1];
      assert d in defs;
      AddGap(g.free, g.start, d.pos - g.start);
      MaximalWithin(GapsOf(defs, n).free, d.pos, d.pos + d.len - 1);
      assert defs[..n] == defs[..n - 1] + [d];
      InDefsAppend(defs[..n - 1], d);
      forall p | 0 <= p < d.pos + d.len ensures InFree(GapsOf(defs, n).free, p) <==> !InDefs(defs[..n], p) {
        assert InDefs(defs[..n], p) <==> InDefs(defs[..n - 1], p) || Covers(d, p);
        if p >= g.start {
          BeyondDefs(defs, n - 1, p);
          FreeBefore(g.free, g.start - 1, p);
        }
      }
    }
  }

  lemma NoGaps()
    ensures Maximal(map[], -1)
  {
  }

  lemma MaximalWithin(f: FreeMap, size: int, larger: int)
    requires Maximal(f, size) && size <= larger
    ensures Maximal(f, larger)
  {
  }

  lemma FreeBefore(f: FreeMap, size: int, p: int)
    requires Maximal(f, size) && p >= size
    ensures !InFree(f, p)
  {
  }

  lemma BeyondDefs(defs: seq<Extent>, n: nat, p: int)
    requires n <= |defs| && forall i :: 0 <= i < n ==> defs[i].pos + defs[i].len <= p
    ensures !InDefs(defs[..n], p)
  {
  }

  lemma InDefsAppend(defs: seq<Extent>, d: Extent)
    ensures forall p :: InDefs(defs + [d], p) <==> InDefs(defs, p) || Covers(d, p)
  {
    forall p ensures InDefs(defs + [d], p) <==> InDefs(defs, p) || Covers(d, p) {
      assert forall e :: e in defs + [d] <==> e in defs || e == d;
    }
  }

  /** Adding the gap at the end keeps the map maximal and adds exactly its bytes. */
  lemma AddGap(f: FreeMap, start: int, gap: int)
    requires start >= 0 && gap >= 0 && Maximal(f, start - 1)
    ensures var g := if gap > 0 then AddFree(f, start, gap) else f;
            && Maximal(g, start + gap)
            && forall p :: InFree(g, p) <==> InFree(f, p) || start <= p < start + gap
  {
    if gap > 0 {
      AddFreeCorrect(f, start, gap);
      var g, n := AddFree(f, start, gap), FreeCount(f, gap);
      forall p ensures InFree(g, p) <==> InFree(f, p) || start <= p < start + gap {
        if InFree(f, p) {
          var l, i :| HasFree(f, l, i) && Covers(FreeExtent(f, l, i), p);
          assert HasFree(g, l, i) && Covers(FreeExtent(g, l, i), p);
        }
        if start <= p < start + gap {
          assert HasFree(g, gap, n) && Covers(FreeExtent(g, gap, n), p);
        }
      }
    }
  }

  /** Rebuilding reports corruption exactly when an extent starts below 0 or two extents overlap. */
  lemma RebuildOkIff(defs: seq<Extent>, size: int)
    requires PositiveLengths(defs)
    ensures Rebuild(defs, size).0 <==> PairwiseDisjoint(defs) && forall d :: d in defs ==> d.pos >= 0
  {
    hide InsertSorted;
    var r := SortByPosition(defs);
    SortCorrect(defs);
    SortLength(defs);
    GapsOkIff(r, |r|);
    assert r[..|r|] == r;
    assert (forall i :: 0 <= i < |r| ==> r[i].pos >= 0) <==> forall d :: d in r ==> d.pos >= 0;
  }

  /** The gaps of sound, sorted extents, with the rest of the file as the last one. */
  lemma LastGap(r: seq<Extent>, size: int)
    requires Sorted(r) && PositiveLengths(r) && PairwiseDisjoint(r) && size >= 0
    requires forall d :: d in r ==> d.pos >= 0 && d.pos + d.len <= size
    ensures var g := GapsOf(r, |r|);
            && g.ok && 0 <= g.start <= size && Maximal(g.free, g.start - 1)
            && (forall p :: 0 <= p < g.start ==> (InFree(g.free, p) <==> !InDefs(r, p)))
            && forall p :: p >= g.start ==> !InDefs(r, p) && !InFree(g.free, p)
  {
    hide GapsOf, Maximal, InFree, InDefs, PairwiseDisjoint, Sorted;
    assert r[..|r|] == r;
    assert forall i :: 0 <= i < |r| ==> r[i] in r;
    GapsOkIff(r, |r|);
    GapsExact(r, |r|);
    var g := GapsOf(r, |r|);
    forall p | p >= g.start ensures !InDefs(r, p) && !InFree(g.free, p) {
      AfterLast(r, g.start, p);
      FreeBefore(g.free, g.start - 1, p);
    }
  }

  /** For sound extents inside the file the rebuilt map is their complement in [0, size), in
      maximal, non-adjacent extents. */
  lemma RebuildExact(defs: seq<Extent>, size: int)
    requires PositiveLengths(defs) && PairwiseDisjoint(defs) && size >= 0
    requires forall d :: d in defs ==> d.pos >= 0 && d.pos + d.len <= size
    ensures var (ok, f) := Rebuild(defs, size);
            && ok && Maximal(f, size)
            && forall p :: 0 <= p < size ==> (InFree(f, p) <==> !InDefs(defs, p))
  {
    hide InsertSorted, GapsOf, Maximal, InFree, InDefs, PairwiseDisjoint, Sorted, SortByPosition, AddFree;
    var r := SortByPosition(defs);
    SortCorrect(defs);
    SortLength(defs);
    LastGap(r, size);
    var g, f := GapsOf(r, |r|), Rebuild(defs, size).1;
    AddGap(g.free, g.start, size - g.start);
    forall p | 0 <= p < size ensures InFree(f, p) <==> !InDefs(defs, p) {
      SameDefs(r, defs, p);
      assert InFree(f, p) <==> InFree(g.free, p) || g.start <= p;
    }
  }

  lemma SameDefs(r: seq<Extent>, defs: seq<Extent>, p: int)
    requires forall e :: e in r <==> e in defs
    ensures InDefs(r, p) <==> InDefs(defs, p)
  {
  }

  lemma AfterLast(r: seq<Extent>, start: int, p: int)
    requires p >= start && forall i :: 0 <= i < |r| ==> r[i].pos + r[i].len <= start
    ensures !InDefs(r, p)
  {
  }
}
