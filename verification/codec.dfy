/** The integer key codec: Go's `int` (64-bit) to 8 big-endian bytes of its
    two's-complement `uint64` and back, and the byte-wise comparison of the
    encodings that the sorted bucket uses as its key order. */
module Codec {

  type Byte = b: int | 0 <= b < 0x100

  /** Go's `int` on a 64-bit platform. */
  type Int64 = v: int | -0x8000_0000_0000_0000 <= v < 0x8000_0000_0000_0000

  type Uint64 = u: int | 0 <= u < 0x1_0000_0000_0000_0000

  const MIN_INT64: Int64 := -0x8000_0000_0000_0000
  const MAX_INT64: Int64 := 0x7fff_ffff_ffff_ffff

  /** 256 to the power n: the weight of the n-th byte from the right. */
  function Pow256(n: nat): (p: nat)
    ensures p >= 1
  {
    if n == 0 then 1 else 256 * Pow256(n - 1)
  }

  lemma Pow256Eight()
    ensures Pow256(8) == 0x1_0000_0000_0000_0000
  {
    assert Pow256(2) == 0x1_0000;
    assert Pow256(4) == 0x1_0000_0000;
    assert Pow256(6) == 0x1_0000_0000_0000;
  }

  /** Go's conversion `uint64(v)`: the two's-complement bit pattern of v. */
  function ToUint64(v: Int64): (u: Uint64)
    ensures v >= 0 <==> u < 0x8000_0000_0000_0000
  {
    if v < 0 then v + 0x1_0000_0000_0000_0000 else v
  }

  /** Go's conversion `int(u)`: reads the top bit as the sign. */
  function FromUint64(u: Uint64): (v: Int64)
    ensures ToUint64(v) == u
  {
    if u < 0x8000_0000_0000_0000 then u else u - 0x1_0000_0000_0000_0000
  }

  /** uint64(v) is v modulo 2^64, and int(uint64(v)) gives v back. */
  lemma ToUint64IsModulo(v: Int64)
    ensures ToUint64(v) == v % 0x1_0000_0000_0000_0000
    ensures FromUint64(ToUint64(v)) == v
  {
  }

  /** Go's `int(x)` for an integer expression x that may leave the 64-bit
      range: the result wraps around modulo 2^64. */
  function Wrap(x: int): (v: Int64)
    ensures MIN_INT64 <= x <= MAX_INT64 ==> v == x
    ensures ToUint64(v) == x % 0x1_0000_0000_0000_0000
  {
    FromUint64(x % 0x1_0000_0000_0000_0000)
  }

  /** The low n bytes of u, most significant first, each byte the truncating
      cast `byte(u >> 8k)` that `binary.BigEndian.PutUint64` performs. */
  function PutBigEndian(u: nat, n: nat): (bs: seq<Byte>)
    ensures |bs| == n
  {
    if n == 0 then [] else PutBigEndian(u / 256, n - 1) + [u % 256]
  }

  /** The unsigned value of bs read most significant byte first, as
      `binary.BigEndian.Uint64` reads it. */
  function BigEndian(bs: seq<Byte>): (u: nat)
    ensures u < Pow256(|bs|)
  {
    if |bs| == 0 then 0
    else
      var p := Pow256(|bs| - 1);
      var rest := BigEndian(bs[1..]);
      DigitOrder(bs[0], 256, p, rest, 0);
      bs[0] * p + rest
  }

  /** i2b: eight big-endian bytes of uint64(v). */
  function I2B(v: Int64): (b: seq<Byte>)
    ensures |b| == 8
  {
    PutBigEndian(ToUint64(v), 8)
  }

  /** b2i: int(binary.BigEndian.Uint64(b)). Go panics when b holds fewer than
      eight bytes and ignores every byte after the eighth. */
  function B2I(b: seq<Byte>): (v: Int64)
    requires |b| >= 8
    ensures ToUint64(v) == BigEndian(b[..8])
  {
    Pow256Eight();
    FromUint64(BigEndian(b[..8]))
  }

  /** bytes.Compare: -1, 0 or +1 as a sorts before, equal to or after b in
      lexicographic byte order, a proper prefix sorting first. */
  function BytesCompare(a: seq<Byte>, b: seq<Byte>): (r: int)
    ensures -1 <= r <= 1
    ensures r == 0 <==> a == b
  {
    if |a| == 0 && |b| == 0 then 0
    else if |a| == 0 then -1
    else if |b| == 0 then 1
    else if a[0] < b[0] then -1
    else if a[0] > b[0] then 1
    else
      var r := BytesCompare(a[1..], b[1..]);
      assert a == [a[0]] + a[1..] && b == [b[0]] + b[1..];
      r
  }

  /** compare: the order of i and j in the bucket, i.e. of their encodings. */
  function Compare(i: Int64, j: Int64): (r: int)
    ensures -1 <= r <= 1
    ensures r == 0 <==> i == j
  {
    var r := BytesCompare(I2B(i), I2B(j));
    if r == 0 then I2BInjective(i, j); r else r
  }

  function Sign(x: int): (s: int)
    ensures s < 0 <==> x < 0
    ensures s == 0 <==> x == 0
    ensures s > 0 <==> x > 0
  {
    if x < 0 then -1 else if x == 0 then 0 else 1
  }

  // ---------------------------------------------------------------------
  // Arithmetic helpers

  lemma DivUnique(u: int, d: int, q: int, r: int)
    requires d > 0 && 0 <= r < d && u == q * d + r
    ensures u / d == q && u % d == r
  {
    var e := q - u / d;
    assert e * d == u % d - r;
    MulAwayFromZero(e, d);
  }

  lemma MulAwayFromZero(e: int, d: int)
    requires d > 0
    ensures e >= 1 ==> e * d >= d
    ensures e <= -1 ==> e * d <= -d
  {
  }

  /** A leading digit decides the order of two numbers whose remaining digits
      are below the weight p of that digit. */
  lemma DigitOrder(x: int, y: int, p: nat, rx: nat, ry: nat)
    requires x < y && rx < p
    ensures x * p + rx < y * p + ry
  {
    assert (x + 1) * p <= y * p;
  }

  lemma DivDiv(u: nat, a: nat, b: nat)
    requires a > 0 && b > 0
    ensures (u / a) / b == u / (a * b)
  {
    var q, r := u / a, u % a;
    var q2, r2 := q / b, q % b;
    DivSplit(u, a, q, r, q2, r2, b);
    DivUnique(u, a * b, q2, r2 * a + r);
  }

  /** u = q a + r and q = q2 b + r2 give u = q2 (a b) + (r2 a + r), with the
      remainder below a b. */
  lemma DivSplit(u: int, a: int, q: int, r: int, q2: int, r2: int, b: int)
    requires a > 0 && b > 0 && 0 <= r < a && 0 <= r2 < b
    requires u == q * a + r && q == q2 * b + r2
    ensures u == q2 * (a * b) + (r2 * a + r)
    ensures 0 <= r2 * a + r < a * b
  {
    MulDistrib(q2 * b, r2, a);
    MulRegroup(q2, b, a);
    MulDistrib(b, -1, a);
    MulMonotone(r2, b - 1, a);
  }

  lemma MulDistrib(x: int, y: int, z: int)
    ensures (x + y) * z == x * z + y * z
  {
  }

  lemma MulRegroup(x: int, y: int, z: int)
    ensures (x * y) * z == x * (z * y)
  {
  }

  lemma MulMonotone(x: int, y: int, z: int)
    requires x <= y && z >= 0
    ensures x * z <= y * z
  {
  }

  // ---------------------------------------------------------------------
  // The big-endian layout

  lemma {:induction false} BigEndianSnoc(s: seq<Byte>, x: Byte)
    ensures BigEndian(s + [x]) == BigEndian(s) * 256 + x
    decreases |s|
  {
    if |s| == 0 {
      assert s + [x] == [x];
      assert [x][1..] == [];
    } else {
      var t := s + [x];
      assert t[0] == s[0] && t[1..] == s[1..] + [x];
      BigEndianSnoc(s[1..], x);
      var p := Pow256(|s| - 1);
      assert Pow256(|t| - 1) == 256 * p;
      calc {
        BigEndian(t);
        s[0] * (256 * p) + BigEndian(s[1..] + [x]);
        s[0] * (256 * p) + BigEndian(s[1..]) * 256 + x;
        (s[0] * p + BigEndian(s[1..])) * 256 + x;
        BigEndian(s) * 256 + x;
      }
    }
  }

  /** Reading back what PutBigEndian wrote gives the value, when it fits. */
  lemma {:induction false} BigEndianOfPut(u: nat, n: nat)
    requires u < Pow256(n)
    ensures BigEndian(PutBigEndian(u, n)) == u
  {
    if n > 0 {
      assert u / 256 < Pow256(n - 1);
      BigEndianOfPut(u / 256, n - 1);
      BigEndianSnoc(PutBigEndian(u / 256, n - 1), u % 256);
    }
  }

  /** Writing back what BigEndian read gives the bytes. */
  lemma {:induction false} PutOfBigEndian(bs: seq<Byte>)
    ensures PutBigEndian(BigEndian(bs), |bs|) == bs
    decreases |bs|
  {
    if |bs| > 0 {
      var s, x := bs[..|bs| - 1], bs[|bs| - 1];
      assert bs == s + [x];
      BigEndianSnoc(s, x);
      DivUnique(BigEndian(bs), 256, BigEndian(s), x);
      PutOfBigEndian(s);
    }
  }

  /** Byte k of the encoding is bits 8(n-1-k) .. 8(n-1-k)+7 of u. */
  lemma {:induction false} PutBigEndianByte(u: nat, n: nat, k: nat)
    requires k < n
    ensures PutBigEndian(u, n)[k] == (u / Pow256(n - 1 - k)) % 256
  {
    if k < n - 1 {
      PutBigEndianByte(u / 256, n - 1, k);
      DivDiv(u, 256, Pow256(n - 2 - k));
    }
  }

  /** Equal-length byte strings compare as the numbers they spell. */
  lemma {:induction false} BytesCompareBigEndian(a: seq<Byte>, b: seq<Byte>)
    requires |a| == |b|
    ensures BytesCompare(a, b) == Sign(BigEndian(a) - BigEndian(b))
    decreases |a|
  {
    if |a| > 0 {
      var p := Pow256(|a| - 1);
      var ra, rb := BigEndian(a[1..]), BigEndian(b[1..]);
      if a[0] < b[0] {
        DigitOrder(a[0], b[0], p, ra, rb);
      } else if a[0] > b[0] {
        DigitOrder(b[0], a[0], p, rb, ra);
      } else {
        BytesCompareBigEndian(a[1..], b[1..]);
      }
    }
  }

  // ---------------------------------------------------------------------
  // Properties of i2b, b2i and compare

  /** i2b is big-endian: byte k is byte 7-k of uint64(v) counted from the
      least significant end; in particular byte 0 is the top byte. */
  lemma I2BLayout(v: Int64)
    ensures forall k :: 0 <= k < 8 ==> I2B(v)[k] == (ToUint64(v) / Pow256(7 - k)) % 256
    ensures I2B(v)[0] == ToUint64(v) / 0x100_0000_0000_0000
    ensures I2B(v)[7] == ToUint64(v) % 256
  {
    forall k | 0 <= k < 8
      ensures I2B(v)[k] == (ToUint64(v) / Pow256(7 - k)) % 256
    {
      PutBigEndianByte(ToUint64(v), 8, k);
    }
    assert Pow256(7) == 0x100_0000_0000_0000 by {
      assert Pow256(3) == 0x100_0000;
    }
  }

  /** b2i(i2b(v)) == v for every 64-bit v, negative ones included. */
  lemma RoundTrip(v: Int64)
    ensures B2I(I2B(v)) == v
  {
    Pow256Eight();
    assert I2B(v)[..8] == I2B(v);
    BigEndianOfPut(ToUint64(v), 8);
  }

  /** i2b(b2i(b)) == b for every 8-byte b: the codec is a bijection between
      Int64 and the 8-byte strings. */
  lemma RoundTripBytes(b: seq<Byte>)
    requires |b| == 8
    ensures I2B(B2I(b)) == b
  {
    assert b[..8] == b;
    PutOfBigEndian(b);
  }

  /** b2i looks at the first eight bytes only. */
  lemma B2IReadsEightBytes(b: seq<Byte>, c: seq<Byte>)
    requires |b| >= 8 && |c| >= 8 && b[..8] == c[..8]
    ensures B2I(b) == B2I(c)
  {
  }

  lemma I2BInjective(v: Int64, w: Int64)
    ensures I2B(v) == I2B(w) <==> v == w
  {
    if I2B(v) == I2B(w) {
      RoundTrip(v);
      RoundTrip(w);
    }
  }

  /** Byte order of the encodings is the unsigned order of uint64(v). */
  lemma CompareUnsigned(i: Int64, j: Int64)
    ensures Compare(i, j) == Sign(ToUint64(i) - ToUint64(j))
  {
    Pow256Eight();
    BigEndianOfPut(ToUint64(i), 8);
    BigEndianOfPut(ToUint64(j), 8);
    BytesCompareBigEndian(I2B(i), I2B(j));
  }

  /** compare is antisymmetric and transitive: a strict total order. */
  lemma CompareAntisymmetric(i: Int64, j: Int64)
    ensures Compare(i, j) == -Compare(j, i)
  {
    CompareUnsigned(i, j);
    CompareUnsigned(j, i);
  }

  lemma CompareTransitive(i: Int64, j: Int64, k: Int64)
    requires Compare(i, j) < 0 && Compare(j, k) < 0
    ensures Compare(i, k) < 0
  {
    CompareUnsigned(i, j);
    CompareUnsigned(j, k);
    CompareUnsigned(i, k);
  }

  /** On non-negative values compare is the integer order. */
  lemma CompareNonNegative(i: Int64, j: Int64)
    requires 0 <= i && 0 <= j
    ensures Compare(i, j) == -1 <==> i < j
    ensures Compare(i, j) == 0 <==> i == j
    ensures Compare(i, j) == 1 <==> i > j
  {
    CompareUnsigned(i, j);
  }

  /** Among negative values compare is the integer order too. */
  lemma CompareNegative(i: Int64, j: Int64)
    requires i < 0 && j < 0
    ensures Compare(i, j) == Sign(i - j)
  {
    CompareUnsigned(i, j);
  }

  /** Across the sign boundary the order flips: every negative value sorts
      after every non-negative one, because its top bit is set. */
  lemma CompareSignBoundary(v: Int64, w: Int64)
    requires v < 0 <= w
    ensures Compare(v, w) == 1 && Compare(w, v) == -1
  {
    CompareUnsigned(v, w);
    CompareUnsigned(w, v);
  }
}
