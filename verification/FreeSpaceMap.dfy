/** The free-space part of DiskWriter.cpp and IndexBlock.cpp, in place, proved against the
    functions of FreeSpace. */
module FreeSpaceMaps {
  import opened FreeSpace
  import opened Sets

  /** The keys of an ordered map, in order. */
  method OrderedKeys(m: FreeMap) returns (keys: seq<int>)
    ensures forall k :: k in keys <==> k in m
    ensures forall i, j :: 0 <= i < j < |keys| ==> keys[i] < keys[j]
  {
    keys := [];
    var rest := m.Keys;
    while exists k :: k in rest
      invariant rest <= m.Keys
      invariant forall k :: k in m <==> k in keys || k in rest
      invariant forall i, k :: 0 <= i < |keys| && k in rest ==> keys[i] < k
      invariant forall i, j :: 0 <= i < j < |keys| ==> keys[i] < keys[j]
      decreases |rest|
    {
      LeastExists(rest);
      ghost var w :| IsLeast(rest, w);
      var least :| least in rest && forall k :: k in rest ==> least <= k;
      keys := keys + [least];
      assert rest == (rest - {least}) + {least};
      rest := rest - {least};
    }
  }

  lemma BestFitIs(f: FreeMap, len: int, best: int)
    requires IsBestFit(f, len, best)
    ensures BestFit(f, len) == best
  {
  }

  class FreeSpaceMap {
    var free: FreeMap

    constructor ()
      ensures free == map[]
    {
      free := map[];
    }

    /** AddFreeSpace: non-positive lengths and negative positions are ignored. */
    method AddFreeSpace(pos: int, len: int)
      modifies this
      ensures free == AddFree(old(free), pos, len)
    {
      if pos < 0 || len <= 0 {
        return;
      }
      if len in free {
        free := free[len := free[len] + [pos]];
      } else {
        assert [] + [pos] == [pos];
        free := free[len := [pos]];
      }
    }

    /** Takes the last position of a length, and the length itself when that was its only one. */
    method TakeLast(len: int) returns (pos: int)
      requires len in free && free[len] != []
      modifies this
      ensures pos == old(free)[len][|old(free)[len]| - 1] && free == PopFree(old(free), len)
    {
      pos := free[len][|free[len]| - 1];
      ghost var before := free;
      free := free[len := free[len][..|free[len]| - 1]];
      if |free[len]| == 0 {
        free := free - {len};
        assert free == before - {len};
      }
    }

    /** GetFreeSpacePos: an exact fit, or else the first longer length of the ordered map. */
    method GetFreeSpacePos(len: int) returns (pos: int)
      requires FreeOk(free) && len > 0
      modifies this
      ensures Alloc(old(free), len) == (pos, free)
    {
      hide PopFree, AddFree;
      if len in free {
        BestFitIs(free, len, len);
        pos := TakeLast(len);
        return;
      }
      var keys := OrderedKeys(free);
      var i := 0;
      while i < |keys| && keys[i] <= len
        invariant 0 <= i <= |keys|
        invariant forall j :: 0 <= j < i ==> keys[j] < len
      {
        i := i + 1;
      }
      if i == |keys| {
        assert forall l :: l in free ==> l < len;
        return -1;
      }
      var best := keys[i];
      assert forall l :: l in free && l >= len ==> best <= l;
      BestFitIs(free, len, best);
      pos := TakeLast(best);
      AddFreeSpace(pos + len, best - len);
    }

    /** LoadFreeSpaceFromIndexDef, and the part of Init that keeps the old map on corruption. */
    method LoadFreeSpaceFromIndexDef(defs: seq<Extent>, size: int) returns (ok: bool)
      modifies this
      ensures ok == Rebuild(defs, size).0
      ensures free == if ok then Rebuild(defs, size).1 else old(free)
    {
      hide AddFree, SortByPosition;
      var loaded := new FreeSpaceMap();
      ok := true;
      var rest := size;
      SortLength(defs);
      var sorted := SortByPosition(defs);
      var start := 0;
      for i := 0 to |sorted|
        invariant fresh(loaded) && free == old(free)
        invariant GapsOf(sorted, i) == Gaps(loaded.free, start, ok) && rest == size - start
      {
        var gap := sorted[i].pos - start;
        if gap > 0 {
          loaded.AddFreeSpace(start, gap);
        } else if gap < 0 {
          ok := false;
        }
        start := start + (sorted[i].len + gap);
        rest := rest - (sorted[i].len + gap);
      }
      assert size - rest == start && rest == size - start;
      if rest != 0 {
        loaded.AddFreeSpace(size - rest, rest);
      }
      assert (ok, loaded.free) == Rebuild(defs, size);
      if ok {
        free := loaded.free;
      }
    }
  }
}
