/** Bytes in memory: fixed-width unsigned integers in the host's byte order,
    `memcmp`, and in-place replacement of a stretch of a buffer. */
module Bytes {

  type byte = x: int | 0 <= x < 0x100
  type uint16 = x: int | 0 <= x < 0x1_0000
  type uint64 = x: int | 0 <= x < 0x1_0000_0000_0000_0000

  /** The byte order of the machine. It is left open: everything below holds for both. */
  const HOST_IS_BIG_ENDIAN: bool

  function Pow256(n: nat): (r: nat)
    ensures r >= 1
  {
    if n == 0 then 1 else 256 * Pow256(n - 1)
  }

  lemma Pow256Values()
    ensures Pow256(1) == 0x100 && Pow256(2) == 0x1_0000
    ensures Pow256(8) == 0x1_0000_0000_0000_0000
  {
    assert Pow256(4) == 0x1_0000_0000;
  }

  function LittleEndian(v: nat, n: nat): (s: seq<byte>)
    ensures |s| == n
  {
    if n == 0 then [] else [v % 256] + LittleEndian(v / 256, n - 1)
  }

  function FromLittleEndian(s: seq<byte>): nat {
    if s == [] then 0 else s[0] + 256 * FromLittleEndian(s[1..])
  }

  function BigEndian(v: nat, n: nat): (s: seq<byte>)
    ensures |s| == n
  {
    if n == 0 then [] else BigEndian(v / 256, n - 1) + [v % 256]
  }

  function FromBigEndian(s: seq<byte>): nat {
    if s == [] then 0 else 256 * FromBigEndian(s[..|s| - 1]) + s[|s| - 1]
  }

  /** The `n` bytes that the host stores for the unsigned integer `v`. */
  function PutUint(v: nat, n: nat): (s: seq<byte>)
    ensures |s| == n
  {
    if HOST_IS_BIG_ENDIAN then BigEndian(v, n) else LittleEndian(v, n)
  }

  /** The unsigned integer that the host reads from the bytes `s`. */
  function GetUint(s: seq<byte>): nat {
    if HOST_IS_BIG_ENDIAN then FromBigEndian(s) else FromLittleEndian(s)
  }

  lemma {:induction false} LittleEndianRoundTrip(v: nat, n: nat)
    requires v < Pow256(n)
    ensures FromLittleEndian(LittleEndian(v, n)) == v
  {
    if n > 0 {
      LittleEndianRoundTrip(v / 256, n - 1);
      assert LittleEndian(v, n)[1..] == LittleEndian(v / 256, n - 1);
    }
  }

  lemma {:induction false} BigEndianRoundTrip(v: nat, n: nat)
    requires v < Pow256(n)
    ensures FromBigEndian(BigEndian(v, n)) == v
  {
    if n > 0 {
      BigEndianRoundTrip(v / 256, n - 1);
      assert BigEndian(v, n)[..n - 1] == BigEndian(v / 256, n - 1);
    }
  }

  lemma {:induction false} BigEndianInverse(s: seq<byte>)
    ensures FromBigEndian(s) < Pow256(|s|)
    ensures BigEndian(FromBigEndian(s), |s|) == s
  {
    if s != [] {
      BigEndianInverse(s[..|s| - 1]);
      assert s == s[..|s| - 1] + [s[|s| - 1]];
    }
  }

  /** What the host stores it reads back. */
  lemma UintRoundTrip(v: nat, n: nat)
    requires v < Pow256(n)
    ensures GetUint(PutUint(v, n)) == v
  {
    LittleEndianRoundTrip(v, n);
    BigEndianRoundTrip(v, n);
  }

  lemma DivideTwice(v: nat, p: nat)
    requires p >= 1
    ensures v / 256 / p == v / (256 * p)
  {
    var q, r := v / 256 / p, v / 256 % p;
    assert v == 256 * (p * q + r) + v % 256;
    assert v == (256 * p) * q + (256 * r + v % 256);
    QuotientIs(v, 256 * p, q, 256 * r + v % 256);
  }

  lemma {:induction false} NextProduct(d: nat, a: nat, b: nat)
    requires a < b
    ensures d * b >= d * a + d
  {
    assert d * b == d * (b - 1) + d;
    if a < b - 1 {
      NextProduct(d, a, b - 1);
    }
  }

  lemma QuotientIs(v: nat, d: nat, q: nat, r: nat)
    requires r < d && v == d * q + r
    ensures v / d == q
  {
    var q', r' := v / d, v % d;
    assert d * q' + r' == d * q + r;
    if q > q' {
      NextProduct(d, q', q);
    } else if q < q' {
      NextProduct(d, q, q');
    }
  }

  lemma {:induction false} LittleEndianByte(v: nat, n: nat, i: nat)
    requires i < n
    ensures LittleEndian(v, n)[i] == v / Pow256(i) % 256
  {
    if i > 0 {
      LittleEndianByte(v / 256, n - 1, i - 1);
      DivideTwice(v, Pow256(i - 1));
    }
  }

  lemma {:induction false} BigEndianByte(v: nat, n: nat, i: nat)
    requires i < n
    ensures BigEndian(v, n)[i] == v / Pow256(n - 1 - i) % 256
  {
    if i < n - 1 {
      BigEndianByte(v / 256, n - 1, i);
      DivideTwice(v, Pow256(n - 2 - i));
    }
  }

  /** Byte `i` of a stored integer is its digit to the base 256 of the weight that the host gives that place. */
  lemma UintByte(v: nat, n: nat, i: nat)
    requires i < n
    ensures PutUint(v, n)[i] == v / Pow256(if HOST_IS_BIG_ENDIAN then n - 1 - i else i) % 256
  {
    LittleEndianByte(v, n, i);
    BigEndianByte(v, n, i);
  }

  lemma Uint16RoundTrip(v: uint16)
    ensures GetUint(PutUint(v, 2)) == v
  {
    Pow256Values();
    UintRoundTrip(v, 2);
  }

  lemma Uint64RoundTrip(v: uint64)
    ensures GetUint(PutUint(v, 8)) == v
  {
    Pow256Values();
    UintRoundTrip(v, 8);
  }

  // ----- memcmp

  /** `memcmp(a, b, |a|) < 0`: the first differing byte decides. */
  ghost predicate MemcmpLess(a: seq<byte>, b: seq<byte>)
    requires |a| == |b|
  {
    exists i :: 0 <= i < |a| && a[..i] == b[..i] && a[i] < b[i]
  }

  /** The place of a key in the order that `memcmp` on its stored bytes gives. */
  function Rank(key: uint64): nat {
    FromBigEndian(PutUint(key, 8))
  }

  lemma MemcmpLast(a: seq<byte>, b: seq<byte>, n: nat)
    requires |a| == |b| == n + 1
    ensures MemcmpLess(a, b) <==> MemcmpLess(a[..n], b[..n]) || (a[..n] == b[..n] && a[n] < b[n])
  {
    var a', b' := a[..n], b[..n];
    assert forall i {:trigger a'[i]} :: 0 <= i < n ==> a'[..i] == a[..i] && b'[..i] == b[..i];
    if MemcmpLess(a, b) {
      var i :| 0 <= i < |a| && a[..i] == b[..i] && a[i] < b[i];
      if i < n {
        assert a'[i] < b'[i];
      }
    }
    if MemcmpLess(a', b') {
      var i :| 0 <= i < |a'| && a'[..i] == b'[..i] && a'[i] < b'[i];
      assert a[i] < b[i] && a[..i] == b[..i];
    }
  }

  lemma {:induction false} MemcmpIsBigEndianOrder(a: seq<byte>, b: seq<byte>)
    requires |a| == |b|
    ensures MemcmpLess(a, b) <==> FromBigEndian(a) < FromBigEndian(b)
  {
    if a != [] {
      var n := |a| - 1;
      MemcmpIsBigEndianOrder(a[..n], b[..n]);
      MemcmpLast(a, b, n);
      if FromBigEndian(a[..n]) == FromBigEndian(b[..n]) {
        FromBigEndianInjective(a[..n], b[..n]);
      }
    }
  }

  lemma FromBigEndianInjective(a: seq<byte>, b: seq<byte>)
    requires |a| == |b| && FromBigEndian(a) == FromBigEndian(b)
    ensures a == b
  {
    BigEndianInverse(a);
    BigEndianInverse(b);
  }

  /** The index compares two keys by `memcmp` on what the host stores for them. */
  ghost predicate KeyBefore(a: uint64, b: uint64) {
    MemcmpLess(PutUint(a, 8), PutUint(b, 8))
  }

  /** The ranks of keys are ordered as `memcmp` orders their stored bytes, on either kind of host. */
  lemma RankIsMemcmp(a: uint64, b: uint64)
    ensures Rank(a) < Rank(b) <==> KeyBefore(a, b)
  {
    MemcmpIsBigEndianOrder(PutUint(a, 8), PutUint(b, 8));
  }

  /** Distinct keys have distinct ranks, so the order is total. */
  lemma RankInjective(a: uint64, b: uint64)
    requires Rank(a) == Rank(b)
    ensures a == b
  {
    FromBigEndianInjective(PutUint(a, 8), PutUint(b, 8));
    Uint64RoundTrip(a);
    Uint64RoundTrip(b);
  }

  /** On a big-endian host the `memcmp` order of keys is the numeric order. */
  lemma RankNumericOnBigEndian(key: uint64)
    requires HOST_IS_BIG_ENDIAN
    ensures Rank(key) == key
  {
    Pow256Values();
    BigEndianRoundTrip(key, 8);
  }

  lemma LittleEndianZero(n: nat)
    ensures LittleEndian(0, n) == seq(n, _ => 0)
  {
    if n > 0 {
      LittleEndianZero(n - 1);
    }
  }

  lemma {:induction false} FromBigEndianLeadingZeros(n: nat, s: seq<byte>)
    ensures FromBigEndian(seq(n, _ => 0) + s) == FromBigEndian(s)
    decreases n + |s|
  {
    var z: seq<byte> := seq(n, _ => 0);
    if s == [] {
      if n > 0 {
        FromBigEndianLeadingZeros(n - 1, []);
        assert (z + s)[..n - 1] == seq(n - 1, _ => 0) + [];
      }
    } else {
      FromBigEndianLeadingZeros(n, s[..|s| - 1]);
      assert (z + s)[..|z + s| - 1] == z + s[..|s| - 1];
    }
  }

  // ----- writing into a buffer

  /** `s` with the bytes from `pos` on replaced by `b`. */
  function Splice<T>(s: seq<T>, pos: nat, b: seq<T>): (r: seq<T>)
    requires pos + |b| <= |s|
    ensures |r| == |s|
  {
    s[..pos] + b + s[pos + |b|..]
  }

  lemma SpliceMiddle<T>(a: seq<T>, b: seq<T>, c: seq<T>, b': seq<T>)
    requires |b| == |b'|
    ensures Splice(a + b + c, |a|, b') == a + b' + c
  {
  }

  lemma SpliceFront(a: seq<byte>, b: seq<byte>, position: nat, x: seq<byte>)
    requires position + |x| <= |a|
    ensures Splice(a + b, position, x) == Splice(a, position, x) + b
  {
  }

  lemma SpliceBack(a: seq<byte>, b: seq<byte>, position: nat, x: seq<byte>)
    requires position + |x| <= |b|
    ensures Splice(a + b, |a| + position, x) == a + Splice(b, position, x)
  {
  }

  lemma SpliceReadSame<T>(s: seq<T>, pos: nat, b: seq<T>)
    requires pos + |b| <= |s|
    ensures Splice(s, pos, b)[pos..pos + |b|] == b
  {
  }

  lemma SpliceReadOther<T>(s: seq<T>, pos: nat, b: seq<T>, lo: nat, hi: nat)
    requires pos + |b| <= |s| && lo <= hi <= |s|
    requires hi <= pos || pos + |b| <= lo
    ensures Splice(s, pos, b)[lo..hi] == s[lo..hi]
  {
  }
}
