/** Extents with owners that together tile a file: no overlap, no gap. */
module Tiling {
  import opened FreeSpace

  ghost predicate Owned<O(!new)>(m: imap<O, Extent>, p: int) {
    exists o :: o in m && Covers(m[o], p)
  }

  ghost predicate Tiles<O(!new)>(m: imap<O, Extent>, size: int) {
    && (forall o :: o in m ==> m[o].len > 0 && 0 <= m[o].pos && m[o].pos + m[o].len <= size)
    && (forall a, b :: a in m && b in m && a != b ==> Disjoint(m[a], m[b]))
    && forall p :: 0 <= p < size ==> Owned(m, p)
  }

  /** `m'` is `m` with the extent of `a` handed to `b`. */
  ghost predicate Moved<O(!new)>(m: imap<O, Extent>, m': imap<O, Extent>, a: O, b: O) {
    && a in m && (b !in m || b == a)
    && (forall o :: o in m' <==> (o in m && o != a) || o == b)
    && (forall o :: o in m && o != a ==> m'[o] == m[o])
    && m'[b] == m[a]
  }

  lemma TilesMoved<O(!new)>(m: imap<O, Extent>, m': imap<O, Extent>, a: O, b: O, size: int)
    requires Tiles(m, size) && Moved(m, m', a, b)
    ensures Tiles(m', size)
  {
    forall p | 0 <= p < size ensures Owned(m', p) {
      assert Owned(m, p);
      var o :| o in m && Covers(m[o], p);
      var o' := if o == a then b else o;
      assert o' in m' && Covers(m'[o'], p);
    }
  }

  /** `m'` is `m` with the extent of `a` cut in two: the first `len` bytes for `b`, the rest for `c`. */
  ghost predicate Cut<O(!new)>(m: imap<O, Extent>, m': imap<O, Extent>, a: O, b: O, c: O, len: int) {
    && a in m && b !in m && c !in m && b != c && 0 < len < m[a].len
    && (forall o :: o in m' <==> (o in m && o != a) || o == b || o == c)
    && (forall o :: o in m && o != a ==> m'[o] == m[o])
    && m'[b] == Extent(m[a].pos, len)
    && m'[c] == Extent(m[a].pos + len, m[a].len - len)
  }

  lemma TilesCut<O(!new)>(m: imap<O, Extent>, m': imap<O, Extent>, a: O, b: O, c: O, len: int, size: int)
    requires Tiles(m, size) && Cut(m, m', a, b, c, len)
    ensures Tiles(m', size)
  {
    forall p | 0 <= p < size ensures Owned(m', p) {
      assert Owned(m, p);
      var o :| o in m && Covers(m[o], p);
      var o' := if o != a then o else if p < m[a].pos + len then b else c;
      assert o' in m' && Covers(m'[o'], p);
    }
  }

  /** `m'` is `m` with a new extent at the end of the file. */
  ghost predicate Extended<O(!new)>(m: imap<O, Extent>, m': imap<O, Extent>, c: O, size: int, d: int) {
    && c !in m && d > 0
    && (forall o :: o in m' <==> o in m || o == c)
    && (forall o :: o in m ==> m'[o] == m[o])
    && m'[c] == Extent(size, d)
  }

  lemma TilesExtended<O(!new)>(m: imap<O, Extent>, m': imap<O, Extent>, c: O, size: int, d: int)
    requires size >= 0 && Tiles(m, size) && Extended(m, m', c, size, d)
    ensures Tiles(m', size + d)
  {
    forall p | 0 <= p < size + d ensures Owned(m', p) {
      if p < size {
        assert Owned(m, p);
        var o :| o in m && Covers(m[o], p);
        assert o in m' && Covers(m'[o], p);
      } else {
        assert c in m' && Covers(m'[c], p);
      }
    }
  }

  /** `m'` is `m` with the extents of two owners exchanged. */
  ghost predicate Swapped<O(!new)>(m: imap<O, Extent>, m': imap<O, Extent>, a: O, b: O) {
    && a in m && b in m && a != b
    && (forall o :: o in m' <==> o in m)
    && (forall o :: o in m && o != a && o != b ==> m'[o] == m[o])
    && m'[a] == m[b] && m'[b] == m[a]
  }

  lemma TilesSwapped<O(!new)>(m: imap<O, Extent>, m': imap<O, Extent>, a: O, b: O, size: int)
    requires Tiles(m, size) && Swapped(m, m', a, b)
    ensures Tiles(m', size)
  {
    forall p | 0 <= p < size ensures Owned(m', p) {
      assert Owned(m, p);
      var o :| o in m && Covers(m[o], p);
      var o' := if o == a then b else if o == b then a else o;
      assert o' in m' && Covers(m'[o'], p);
    }
  }
}
