/** The 256-bit unsigned integer of the source (arith_uint256), as a natural
    number below 2^256, with the byte-level view used by uint256 (32 bytes,
    least significant first) and the arithmetic facts the compact codec needs.
    arith_uint256.h/.cpp are not part of this model; their operators are
    written out where they are used. */
module Arith256 {
  import opened Ints

  const TWO256: int := 0x1_0000_0000_0000_0000_0000_0000_0000_0000_0000_0000_0000_0000_0000_0000_0000_0000

  /** arith_uint256 */
  type u256 = x: int | 0 <= x < TWO256

  /** uint256: 32 bytes, least significant first. */
  type Bytes32 = s: seq<byte> | |s| == 32 witness seq(32, i => 0)

  /** 256^k, the weight of byte k. */
  function Pow256(k: nat): (r: nat)
    ensures r >= 1
  {
    if k == 0 then 1 else 256 * Pow256(k - 1)
  }

  lemma {:induction false} Pow256Add(a: nat, b: nat)
    ensures Pow256(a + b) == Pow256(a) * Pow256(b)
  {
    if a > 0 {
      Pow256Add(a - 1, b);
      assert Pow256(a + b) == 256 * Pow256(a - 1 + b);
    }
  }

  lemma Pow256Is2To256()
    ensures Pow256(32) == TWO256
  {
    assert Pow256(4) == 0x1_0000_0000;
    Pow256Add(4, 4);
    Pow256Add(8, 8);
    Pow256Add(16, 16);
  }

  lemma Pow256Small()
    ensures Pow256(1) == 0x100 && Pow256(2) == 0x1_0000 && Pow256(3) == 0x100_0000
  {
  }

  lemma Pow256Monotone(a: nat, b: nat)
    requires a <= b
    ensures Pow256(a) <= Pow256(b)
  {
    Pow256Add(a, b - a);
  }

  /** The number of significant bytes of x: (bits() + 7) / 8. */
  function ByteLength(x: nat): (n: nat)
    ensures n == 0 <==> x == 0
  {
    if x == 0 then 0 else 1 + ByteLength(x / 256)
  }

  /** A positive value lies between the weights of its top byte and the next. */
  lemma {:induction false} ByteLengthBounds(x: nat)
    requires x > 0
    ensures Pow256(ByteLength(x) - 1) <= x < Pow256(ByteLength(x))
  {
    if x >= 256 {
      ByteLengthBounds(x / 256);
    }
  }

  /** A value below 256^n has at most n significant bytes. */
  lemma {:induction false} ByteLengthAtMost(x: nat, n: nat)
    requires x < Pow256(n)
    ensures ByteLength(x) <= n
  {
    if x > 0 {
      ByteLengthBounds(x);
      if ByteLength(x) > n {
        Pow256Monotone(n, ByteLength(x) - 1);
      }
    }
  }

  lemma ByteLengthMonotone(x: nat, y: nat)
    requires x <= y
    ensures ByteLength(x) <= ByteLength(y)
  {
    if x > 0 {
      ByteLengthBounds(y);
      ByteLengthAtMost(x, ByteLength(y));
    }
  }

  /** x with its remainder modulo p cleared: the largest multiple of p
      not above x. */
  function RoundDownTo(x: nat, p: nat): (r: nat)
    requires p > 0
    ensures r <= x < r + p
  {
    DivMulBelow(x, p);
    (x / p) * p
  }

  lemma RoundDownMonotone(x: nat, y: nat, p: nat)
    requires p > 0 && x <= y
    ensures RoundDownTo(x, p) <= RoundDownTo(y, p)
  {
    DivMonotone(x, y, p);
    MulMonotone(x / p, y / p, p);
  }

  /** UintToArith256's reading of bytes: little-endian. */
  function LeValue(s: seq<byte>): nat
  {
    if |s| == 0 then 0 else s[0] + 256 * LeValue(s[1..])
  }

  /** The n low bytes of x, least significant first (ArithToUint256 for n = 32). */
  function LeBytes(x: nat, n: nat): (s: seq<byte>)
    ensures |s| == n
  {
    if n == 0 then [] else [x % 256] + LeBytes(x / 256, n - 1)
  }

  lemma {:induction false} LeValueBelow(s: seq<byte>)
    ensures LeValue(s) < Pow256(|s|)
  {
    if |s| > 0 {
      LeValueBelow(s[1..]);
    }
  }

  lemma {:induction false} LeValueOfLeBytes(x: nat, n: nat)
    requires x < Pow256(n)
    ensures LeValue(LeBytes(x, n)) == x
  {
    if n > 0 {
      DivBelow(x, 256, Pow256(n - 1));
      LeValueOfLeBytes(x / 256, n - 1);
      assert LeBytes(x, n)[1..] == LeBytes(x / 256, n - 1);
    }
  }

  lemma {:induction false} LeBytesOfLeValue(s: seq<byte>)
    ensures LeBytes(LeValue(s), |s|) == s
  {
    if |s| > 0 {
      LeBytesOfLeValue(s[1..]);
      assert LeValue(s) / 256 == LeValue(s[1..]);
    }
  }

  /** UintToArith256 */
  function UintToArith256(h: Bytes32): (x: u256)
    ensures ArithToUint256(x) == h
  {
    LeValueBelow(h);
    Pow256Is2To256();
    LeBytesOfLeValue(h);
    LeValue(h)
  }

  /** ArithToUint256 */
  function ArithToUint256(x: u256): (h: Bytes32)
    ensures LeValue(h) == x
  {
    Pow256Is2To256();
    LeValueOfLeBytes(x, 32);
    LeBytes(x, 32)
  }
}
