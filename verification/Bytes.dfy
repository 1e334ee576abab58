/** Byte strings, their lexicographic order, and the big-endian 64-bit codec. */
module Bytes {

  type byte = x: int | 0 <= x < 256
  type bytes = seq<byte>

  const TWO64: nat := 0x1_0000_0000_0000_0000

  /** `bytes.Compare(a, b) < 0`. */
  predicate Less(a: bytes, b: bytes)
    decreases |a|
  {
    if b == [] then false
    else if a == [] then true
    else if a[0] != b[0] then a[0] < b[0]
    else Less(a[1..], b[1..])
  }

  /** `bytes.Compare(a, b) <= 0`. */
  predicate AtMost(a: bytes, b: bytes) {
    !Less(b, a)
  }

  lemma {:induction false} LessIsTotal(a: bytes, b: bytes)
    ensures a == b || Less(a, b) || Less(b, a)
    ensures !(Less(a, b) && Less(b, a))
    ensures !Less(a, a)
    decreases |a|
  {
    if a != [] {
      LessIsTotal(a[1..], if b == [] then [] else b[1..]);
      assert b != [] && a[0] == b[0] && a[1..] == b[1..] ==> a == [a[0]] + a[1..] == b;
    }
  }

  lemma {:induction false} LessIsTransitive(a: bytes, b: bytes, c: bytes)
    requires Less(a, b) && Less(b, c)
    ensures Less(a, c)
    decreases |a|
  {
    if a != [] && a[0] == b[0] == c[0] {
      LessIsTransitive(a[1..], b[1..], c[1..]);
    }
  }

  lemma AtMostIsTransitive(a: bytes, b: bytes, c: bytes)
    requires AtMost(a, b) && AtMost(b, c)
    ensures AtMost(a, c)
  {
    LessIsTotal(a, b);
    LessIsTotal(b, c);
    LessIsTotal(a, c);
    if Less(c, a) {
      if b != c { LessIsTransitive(b, c, a); }
    }
  }

  lemma StrictBetween(a: bytes, b: bytes, c: bytes, d: bytes)
    requires AtMost(a, b) && Less(b, c) && AtMost(c, d)
    ensures Less(a, d)
  {
    LessIsTotal(a, b);
    LessIsTotal(c, d);
    if a != b { LessIsTransitive(a, b, c); }
    if c != d { LessIsTransitive(a, c, d); }
  }

  /** Comparing the first n bytes is coarser than comparing whole strings. */
  lemma {:induction false} PrefixIsMonotone(a: bytes, b: bytes, n: nat)
    requires n <= |a| && n <= |b|
    ensures AtMost(a, b) ==> AtMost(a[..n], b[..n])
    ensures Less(a[..n], b[..n]) ==> Less(a, b)
    decreases n
  {
    LessIsTotal(a, b);
    if n > 0 {
      assert a[..n][1..] == a[1..][..n-1] && b[..n][1..] == b[1..][..n-1];
      PrefixIsMonotone(a[1..], b[1..], n - 1);
      LessIsTotal(a[1..], b[1..]);
      LessIsTotal(a[1..][..n-1], b[1..][..n-1]);
    }
  }

  ghost predicate IsLeast(k: bytes, s: set<bytes>) {
    k in s && forall k' :: k' in s ==> AtMost(k, k')
  }

  /** Every non-empty finite set of byte strings has a least member, so a sorted scan always has a next key. */
  lemma {:induction false} LeastExists(s: set<bytes>) returns (k: bytes)
    requires s != {}
    ensures IsLeast(k, s)
    decreases |s|
  {
    var x :| x in s;
    k := x;
    if s != {x} {
      var y := LeastExists(s - {x});
      k := if Less(x, y) then x else y;
      LessIsTotal(x, y);
      forall k' | k' in s ensures AtMost(k, k') {
        LessIsTotal(x, x);
        if k' != x {
          assert AtMost(y, k');
          if k == x { AtMostIsTransitive(x, y, k'); }
        }
      }
    } else {
      LessIsTotal(x, x);
    }
  }

  // ---- encoding/binary.BigEndian ----

  function BigEndian(v: nat, n: nat): (b: bytes)
    ensures |b| == n
  {
    if n == 0 then [] else BigEndian(v / 256, n - 1) + [v % 256]
  }

  function FromBigEndian(b: bytes): nat {
    if b == [] then 0 else FromBigEndian(b[..|b|-1]) * 256 + b[|b|-1]
  }

  function Pow256(n: nat): (p: nat)
    ensures p > 0
  {
    if n == 0 then 1 else 256 * Pow256(n - 1)
  }

  lemma {:induction false} BigEndianRoundTrip(v: nat, n: nat)
    requires v < Pow256(n)
    ensures FromBigEndian(BigEndian(v, n)) == v
  {
    if n > 0 {
      BigEndianRoundTrip(v / 256, n - 1);
      assert BigEndian(v, n)[..n-1] == BigEndian(v / 256, n - 1);
    }
  }

  lemma {:induction false} BigEndianBound(b: bytes)
    ensures FromBigEndian(b) < Pow256(|b|)
  {
    if b != [] {
      BigEndianBound(b[..|b|-1]);
    }
  }

  lemma Pow256Of8()
    ensures Pow256(8) == TWO64
  {
    assert Pow256(4) == 256 * 256 * 256 * 256;
    assert Pow256(6) == 256 * 256 * Pow256(4);
  }

  /** The first byte weighs most. */
  lemma {:induction false} FirstByteWeighsMost(b: bytes)
    requires b != []
    ensures FromBigEndian(b) == b[0] * Pow256(|b| - 1) + FromBigEndian(b[1..])
    decreases |b|
  {
    if |b| > 1 {
      var n := |b| - 1;
      FirstByteWeighsMost(b[..n]);
      assert b[1..][..n-1] == b[..n][1..] && b[1..][n-1] == b[n];
      assert b[0] * Pow256(n) == (b[0] * Pow256(n - 1)) * 256;
    } else {
      assert b[..0] == [] && b[1..] == [];
    }
  }

  lemma {:induction false} AtLeastOnce(d: nat, p: nat)
    requires d >= 1
    ensures d * p >= p
    decreases d
  {
    if d > 1 {
      AtLeastOnce(d - 1, p);
      assert d * p == (d - 1) * p + p;
    }
  }

  lemma HeadDecides(x: int, y: int, p: nat, u: nat, v: nat)
    requires u < p && x < y
    ensures x * p + u < y * p + v
  {
    AtLeastOnce(y - x, p);
    assert (y - x) * p == y * p - x * p;
  }

  /** On strings of one length the order of bytes.Compare is the order of the decoded numbers. */
  lemma {:induction false} LessIsNumeric(a: bytes, b: bytes)
    requires |a| == |b|
    ensures Less(a, b) <==> FromBigEndian(a) < FromBigEndian(b)
    decreases |a|
  {
    if a != [] {
      var p := Pow256(|a| - 1);
      FirstByteWeighsMost(a);
      FirstByteWeighsMost(b);
      BigEndianBound(a[1..]);
      BigEndianBound(b[1..]);
      if a[0] < b[0] {
        HeadDecides(a[0], b[0], p, FromBigEndian(a[1..]), FromBigEndian(b[1..]));
      } else if b[0] < a[0] {
        HeadDecides(b[0], a[0], p, FromBigEndian(b[1..]), FromBigEndian(a[1..]));
      } else {
        LessIsNumeric(a[1..], b[1..]);
      }
    }
  }

  type uint64 = x: int | 0 <= x < TWO64

  /** `binary.BigEndian.PutUint64` into a fresh 8-byte buffer. */
  function PutUint64(v: uint64): (b: bytes)
    ensures |b| == 8 && Uint64(b) == v
  {
    BigEndian8(v);
    BigEndian(v, 8)
  }

  /** `binary.BigEndian.Uint64`: reads the first eight bytes and ignores the rest. */
  function Uint64(b: bytes): uint64
    requires |b| >= 8
  {
    BigEndianBound(b[..8]);
    Pow256Of8();
    FromBigEndian(b[..8])
  }

  lemma BigEndian8(v: uint64)
    ensures Uint64(BigEndian(v, 8)) == v
  {
    Pow256Of8();
    BigEndianRoundTrip(v, 8);
    assert BigEndian(v, 8)[..8] == BigEndian(v, 8);
  }

  /** Stored numbers are ordered as their bytes are, so the most significant byte comes first. */
  lemma StoredOrder(v: uint64, w: uint64)
    ensures Less(PutUint64(v), PutUint64(w)) <==> v < w
  {
    LessIsNumeric(PutUint64(v), PutUint64(w));
    assert PutUint64(v)[..8] == PutUint64(v) && PutUint64(w)[..8] == PutUint64(w);
  }
}
