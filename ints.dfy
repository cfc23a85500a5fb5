/** Fixed-width integers of the C++ source, as ranges of unbounded integers,
    and the little-endian 32-bit store used by the header serialisers
    (WriteLE32). */
module Ints {

  const TWO32: int := 0x1_0000_0000
  const INT64_MIN: int := -0x8000_0000_0000_0000
  const INT64_MAX: int := 0x7fff_ffff_ffff_ffff
  const TWO64: int := 0x1_0000_0000_0000_0000

  /** unsigned char */
  type byte = x: int | 0 <= x < 256
  /** uint32_t */
  type uint32 = x: int | 0 <= x < 0x1_0000_0000
  /** int32_t */
  type int32 = x: int | -0x8000_0000 <= x < 0x8000_0000

  /** qint8 */
  type int8 = x: int | -0x80 <= x < 0x80

  /** int64_t */
  type int64 = x: int | INT64_MIN <= x <= INT64_MAX

  /** The conversion from int32_t to uint32_t: the same 32 bits, read unsigned. */
  function Int32ToUint32(v: int32): (u: uint32)
    ensures u % TWO32 == v % TWO32
  {
    if v < 0 then v + TWO32 else v
  }

  /** The conversion from uint32_t back to int32_t (two's complement). */
  function Uint32ToInt32(u: uint32): (v: int32)
    ensures u % TWO32 == v % TWO32
  {
    if u < 0x8000_0000 then u else u - TWO32
  }

  lemma Int32RoundTrip(v: int32)
    ensures Uint32ToInt32(Int32ToUint32(v)) == v
  {
  }

  /** A signed 64-bit result as two's-complement hardware leaves it: the
      value congruent to x modulo 2^64 in the int64 range. */
  function WrapInt64(x: int): (r: int64)
    ensures (r - x) % TWO64 == 0
    ensures INT64_MIN <= x <= INT64_MAX ==> r == x
  {
    (x - INT64_MIN) % TWO64 + INT64_MIN
  }

  /** C++ integer division, which truncates toward zero. */
  function CDiv(a: int, b: int): (q: int)
    requires b > 0
    ensures a >= 0 ==> q == a / b
    ensures a < 0 ==> q <= 0
  {
    if a >= 0 then a / b else -((-a) / b)
  }

  /** C++ remainder: what is left after CDiv, with the sign of the dividend. */
  function CRem(a: int, b: int): (r: int)
    requires b > 0
    ensures a == b * CDiv(a, b) + r
    ensures -b < r < b && (a >= 0 ==> r == a % b) && (a < 0 ==> r <= 0)
  {
    a - b * CDiv(a, b)
  }

  /** WriteLE32: the four bytes of v, least significant first. */
  function LE32(v: uint32): (b: seq<byte>)
    ensures |b| == 4
  {
    [v % 256, v / 256 % 256, v / 0x1_0000 % 256, v / 0x100_0000]
  }

  /** ReadLE32: the inverse of LE32. */
  function ReadLE32(b: seq<byte>): (v: uint32)
    requires |b| == 4
  {
    b[0] as int + 256 * b[1] as int + 0x1_0000 * b[2] as int + 0x100_0000 * b[3] as int
  }

  /** Reading back what LE32 wrote gives the value that was written. */
  lemma ReadWriteLE32(v: uint32)
    ensures ReadLE32(LE32(v)) == v
  {
    var v1, v2, v3 := v / 256, v / 0x1_0000, v / 0x100_0000;
    assert v2 == v1 / 256 by { DivDiv(v, 256, 256); }
    assert v3 == v2 / 256 by { DivDiv(v, 0x1_0000, 256); }
    assert v == 256 * v1 + v % 256;
    assert v1 == 256 * v2 + v1 % 256;
    assert v2 == 256 * v3 + v2 % 256;
  }

  /** Every four bytes are what LE32 writes for some value: LE32 is onto. */
  lemma WriteReadLE32(b: seq<byte>)
    requires |b| == 4
    ensures LE32(ReadLE32(b)) == b
  {
    var v := ReadLE32(b);
    var b0, b1, b2, b3: int := b[0], b[1], b[2], b[3];
    DivUnique(v, 256, b1 + 256 * b2 + 0x1_0000 * b3, b0);
    DivUnique(v / 256, 256, b2 + 256 * b3, b1);
    DivUnique(v, 0x1_0000, b2 + 256 * b3, b0 + 256 * b1);
    DivUnique(v / 0x1_0000, 256, b3, b2);
    DivUnique(v, 0x100_0000, b3, b0 + 256 * b1 + 0x1_0000 * b2);
  }

  // Division facts for a positive divisor.

  lemma MulMonotone(a: nat, b: nat, c: nat)
    requires a <= b
    ensures a * c <= b * c
  {
  }
  lemma MulAssoc(a: int, b: int, c: int)
    ensures a * (b * c) == (a * b) * c
  {
  }

  lemma DivUnique(x: nat, p: nat, q: nat, r: nat)
    requires p > 0 && r < p && x == q * p + r
    ensures x / p == q && x % p == r
  {
    var q', r' := x / p, x % p;
    if q' > q {
      MulMonotone(q + 1, q', p);
      assert false;
    } else if q' < q {
      MulMonotone(q' + 1, q, p);
      assert false;
    }
  }
  lemma DivMulBelow(x: nat, p: nat)
    requires p > 0
    ensures (x / p) * p <= x
  {
  }

  lemma DivAtMost(x: nat, p: nat)
    requires p > 0
    ensures x / p <= x
  {
    DivMonotone(0, x, p);
    MulMonotone(1, p, x / p);
    DivMulBelow(x, p);
  }

  lemma DivMonotone(x: nat, y: nat, p: nat)
    requires p > 0 && x <= y
    ensures x / p <= y / p
  {
    if x / p > y / p {
      MulMonotone(y / p + 1, x / p, p);
    }
  }

  lemma DivDiv(x: nat, a: nat, b: nat)
    requires a > 0 && b > 0
    ensures x / a / b == x / (a * b)
  {
    var q, r := x / a, x % a;
    var q2, r2 := q / b, q % b;
    assert x == q * a + r;
    assert q == q2 * b + r2;
    assert x == q2 * (a * b) + (r2 * a + r) by {
      assert q * a == (q2 * b + r2) * a;
    }
    assert r2 * a + r < a * b by {
      MulMonotone(r2, b - 1, a);
    }
    DivUnique(x, a * b, q2, r2 * a + r);
  }

  lemma MulDivCancel(x: nat, p: nat)
    requires p > 0
    ensures (x * p) / p == x
  {
    DivUnique(x * p, p, x, 0);
  }

  lemma DivBelow(x: nat, a: nat, b: nat)
    requires a > 0 && x < a * b
    ensures x / a < b
  {
    if x / a >= b {
      MulMonotone(b, x / a, a);
    }
  }

  lemma DivAtLeast(x: nat, a: nat, b: nat)
    requires a > 0 && x >= a * b
    ensures x / a >= b
  {
    if x / a < b {
      MulMonotone(x / a + 1, b, a);
    }
  }

  lemma BelowFromDiv(x: nat, a: nat, c: nat)
    requires a > 0 && x / a < c
    ensures x < c * a
  {
    MulMonotone(x / a + 1, c, a);
  }
}
