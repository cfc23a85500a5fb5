/** The "compact" nBits encoding of a 256-bit target: one byte of size
    (number of significant bytes), a sign bit, and a 23-bit mantissa holding
    the top bytes.  SetCompact and GetCompact are Bitcoin Core's
    arith_uint256 members, which are not part of this model; they are
    written here from their documented behaviour. */
module Compact {
  import opened Ints
  import opened Arith256

  /** The sign bit of the compact form (0x00800000). */
  const SIGN_BIT: int := 0x80_0000
  /** The weight of the size byte (1 << 24). */
  const SIZE_UNIT: int := 0x100_0000

  /** What SetCompact leaves in the number, with its two out-flags. */
  datatype Target = Target(value: u256, negative: bool, overflow: bool)

  /** arith_uint256::SetCompact: the mantissa is shifted by 8 * (size - 3)
      bits, right for sizes up to 3 (and the shifted word is what the flags
      look at), left otherwise, where bits above 2^256 are lost. */
  function SetCompact(nCompact: uint32): (t: Target)
    ensures nCompact % SIGN_BIT == 0 ==> t == Target(0, false, false)
    ensures t.overflow ==> nCompact / SIZE_UNIT > 32
  {
    var nSize := nCompact / SIZE_UNIT;
    var word := nCompact % SIGN_BIT;
    var nWord := if nSize <= 3 then ShiftedDown(word, Pow256(3 - nSize)) else word;
    var value := if nSize <= 3 then nWord else (nWord * Pow256(nSize - 3)) % TWO256;
    Target(value,
           nWord != 0 && (nCompact / SIGN_BIT) % 2 == 1,
           nWord != 0 && (nSize > 34 || (nWord > 0xff && nSize > 33) || (nWord > 0xffff && nSize > 32)))
  }

  /** A right shift by whole bytes (division by p = 256^k) never grows a word. */
  function ShiftedDown(word: nat, p: nat): (r: nat)
    requires p > 0
    ensures r <= word
  {
    DivAtMost(word, p);
    word / p
  }

  /** The overflow flag is raised exactly when the left shift would carry
      mantissa bits past bit 255, so a decoded value without it is exact. */
  lemma OverflowFlagExact(nCompact: uint32)
    requires nCompact / SIZE_UNIT > 3
    ensures var size, word := nCompact / SIZE_UNIT, nCompact % SIGN_BIT;
            SetCompact(nCompact).overflow <==> word * Pow256(size - 3) >= TWO256
    ensures var size, word := nCompact / SIZE_UNIT, nCompact % SIGN_BIT;
            !SetCompact(nCompact).overflow ==> SetCompact(nCompact).value == word * Pow256(size - 3)
  {
    var size, word := nCompact / SIZE_UNIT, nCompact % SIGN_BIT;
    var p := Pow256(size - 3);
    if word != 0 {
      ShiftedWordOverflows(word, size);
    }
    assert (word * p >= TWO256) == (word != 0 && (size > 34 || (word > 0xff && size > 33) || (word > 0xffff && size > 32)));
  }

  /** The three cases of the overflow test, against the actual shift. */
  lemma ShiftedWordOverflows(word: nat, size: nat)
    requires 0 < word < SIGN_BIT && size > 3
    ensures word * Pow256(size - 3) >= TWO256 <==> (size > 34 || (word > 0xff && size > 33) || (word > 0xffff && size > 32))
  {
    var p := Pow256(size - 3);
    Pow256Is2To256();
    Pow256Small();
    if size > 34 {
      Pow256Monotone(32, size - 3);
      MulMonotone(1, word, p);
    } else if size == 34 {
      Pow256Add(1, 31);
      if word > 0xff {
        MulMonotone(0x100, word, p);
      } else {
        MulMonotone(word + 1, 0x100, p);
      }
    } else if size == 33 {
      Pow256Add(2, 30);
      if word > 0xffff {
        MulMonotone(0x1_0000, word, p);
      } else {
        MulMonotone(word + 1, 0x1_0000, p);
      }
    } else {
      Pow256Add(3, size - 3);
      Pow256Monotone(size, 32);
      MulMonotone(word + 1, 0x100_0000, p);
    }
  }

  /** The top three significant bytes of x, as GetCompact first extracts them. */
  function Mantissa(x: u256): nat
  {
    var nSize := ByteLength(x);
    if nSize <= 3 then x * Pow256(3 - nSize) else x / Pow256(nSize - 3)
  }

  lemma MantissaRange(x: u256)
    ensures ByteLength(x) <= 32
    ensures x == 0 ==> Mantissa(x) == 0
    ensures x > 0 ==> 0x1_0000 <= Mantissa(x) < 0x100_0000
  {
    Pow256Is2To256();
    ByteLengthAtMost(x, 32);
    if x > 0 {
      ByteLengthBounds(x);
      var b := ByteLength(x);
      if b <= 3 {
        MantissaRangeShort(x, b);
      } else {
        MantissaRangeLong(x, b);
      }
    }
  }

  lemma MantissaRangeShort(x: nat, b: nat)
    requires 1 <= b <= 3 && Pow256(b - 1) <= x < Pow256(b)
    ensures 0x1_0000 <= x * Pow256(3 - b) < 0x100_0000
  {
    var p := Pow256(3 - b);
    Pow256Small();
    Pow256Add(b, 3 - b);
    Pow256Add(b - 1, 3 - b);
    MulMonotone(x + 1, Pow256(b), p);
    MulMonotone(Pow256(b - 1), x, p);
  }

  lemma MantissaRangeLong(x: nat, b: nat)
    requires b > 3 && Pow256(b - 1) <= x < Pow256(b)
    ensures 0x1_0000 <= x / Pow256(b - 3) < 0x100_0000
  {
    var p := Pow256(b - 3);
    Pow256Small();
    Pow256Add(b - 3, 3);
    Pow256Add(b - 3, 2);
    DivBelow(x, p, 0x100_0000);
    DivAtLeast(x, p, 0x1_0000);
  }

  /** The size byte GetCompact emits: one more than the byte length when the
      top mantissa bit would read as a sign. */
  function CompactSize(x: u256): nat
  {
    if Mantissa(x) >= SIGN_BIT then ByteLength(x) + 1 else ByteLength(x)
  }

  /** arith_uint256::GetCompact (with fNegative = false). */
  function GetCompact(x: u256): (c: uint32)
    ensures c % SIZE_UNIT < SIGN_BIT
    ensures x == 0 ==> c == 0
  {
    MantissaRange(x);
    var nSize := ByteLength(x);
    var m := Mantissa(x);
    if m >= SIGN_BIT then
      DivUnique((nSize + 1) * SIZE_UNIT + m / 256, SIZE_UNIT, nSize + 1, m / 256);
      (nSize + 1) * SIZE_UNIT + m / 256
    else
      DivUnique(nSize * SIZE_UNIT + m, SIZE_UNIT, nSize, m);
      nSize * SIZE_UNIT + m
  }

  /** How many low bytes the encoding drops. */
  function DroppedBytes(x: u256): nat
  {
    if CompactSize(x) <= 3 then 0 else CompactSize(x) - 3
  }

  /** x with its dropped low bytes cleared: what the encoding keeps. */
  function Rounded(x: u256): (r: u256)
    ensures r <= x
  {
    RoundDownTo(x, Pow256(DroppedBytes(x)))
  }

  /** The size byte and the 23-bit mantissa of GetCompact(x). */
  lemma EncodedParts(x: u256) returns (m: nat)
    ensures GetCompact(x) == CompactSize(x) * SIZE_UNIT + m
    ensures m < SIGN_BIT
    ensures CompactSize(x) >= 3 ==> m == x / Pow256(CompactSize(x) - 3)
    ensures CompactSize(x) < 3 ==> m == x * Pow256(3 - CompactSize(x))
    ensures x > 0 ==> m >= 0x8000
    ensures CompactSize(x) <= 33 && (CompactSize(x) == 33 ==> m <= 0xffff)
  {
    MantissaRange(x);
    var b := ByteLength(x);
    var mm := Mantissa(x);
    if mm >= SIGN_BIT {
      m := mm / 256;
      BumpedMantissa(x, b, mm);
    } else {
      m := mm;
    }
  }

  /** Dropping the low byte of a mantissa whose top bit is set. */
  lemma BumpedMantissa(x: nat, b: nat, mm: nat)
    requires mm == if b <= 3 then x * Pow256(3 - b) else x / Pow256(b - 3)
    ensures b >= 2 ==> mm / 256 == x / Pow256(b - 2)
    ensures b < 2 ==> mm / 256 == x * Pow256(2 - b)
  {
    if b <= 2 {
      var p := Pow256(2 - b);
      assert Pow256(3 - b) == 256 * p;
      MulAssoc(x, p, 256);
      MulDivCancel(x * p, 256);
      if b == 2 {
        assert x * p == x;
      }
    } else if b > 3 {
      DivDiv(x, Pow256(b - 3), 256);
      Pow256Add(b - 3, 1);
    }
  }

  /** Decoding what GetCompact produced: never negative, never overflowing,
      and the value kept is x with its dropped bytes cleared. */
  lemma DecodeEncode(x: u256)
    ensures SetCompact(GetCompact(x)) == Target(Rounded(x), false, false)
  {
    var m := EncodedParts(x);
    var s := CompactSize(x);
    assert GetCompact(x) == s * SIZE_UNIT + m;
    var t := SetCompact(s * SIZE_UNIT + m);
    var r := Rounded(x);
    SetCompactOfParts(s, m);
    if s <= 3 {
      assert t.value == r by { DecodeShort(x, s, m); }
    } else {
      assert t.value == r by { DecodeLong(x, s, m); }
    }
  }

  /** Sizes up to 3: the mantissa is x shifted left, and nothing is dropped. */
  lemma DecodeShort(x: u256, s: nat, m: nat)
    requires s == CompactSize(x) <= 3
    requires s < 3 ==> m == x * Pow256(3 - s)
    requires s == 3 ==> m == x / Pow256(0)
    ensures m / Pow256(3 - s) == x && Rounded(x) == x
  {
    assert DroppedBytes(x) == 0;
    assert Pow256(0) == 1;
    if s < 3 {
      MulDivCancel(x, Pow256(3 - s));
    }
  }

  /** Larger sizes: the mantissa times the dropped scale is the rounded value,
      which fits in 256 bits. */
  lemma DecodeLong(x: u256, s: nat, m: nat)
    requires s == CompactSize(x) > 3
    requires m == x / Pow256(s - 3)
    ensures (m * Pow256(s - 3)) % TWO256 == Rounded(x)
  {
    var p := Pow256(s - 3);
    assert DroppedBytes(x) == s - 3;
    assert m * p == RoundDownTo(x, p);
    DivUnique(m * p, TWO256, 0, m * p);
  }

  /** SetCompact of a size byte and a mantissa without the sign bit. */
  lemma SetCompactOfParts(s: nat, m: nat)
    requires m < SIGN_BIT && s * SIZE_UNIT + m < TWO32
    ensures var t := SetCompact(s * SIZE_UNIT + m);
            && !t.negative
            && (s <= 3 ==> t.value == m / Pow256(3 - s) && !t.overflow)
            && (s > 3 ==> t.value == (m * Pow256(s - 3)) % TWO256)
            && (s > 3 ==> (t.overflow <==> m != 0 && (s > 34 || (m > 0xff && s > 33) || (m > 0xffff && s > 32))))
  {
    var c := s * SIZE_UNIT + m;
    DivUnique(c, SIZE_UNIT, s, m);
    DivUnique(c, SIGN_BIT, 2 * s, m);
  }

  /** Decoding an encoding never yields more than was encoded: a target
      re-encoded to compact form can only become harder, never easier. */
  lemma CompactRoundsDown(x: u256)
    ensures SetCompact(GetCompact(x)).value <= x
    ensures !SetCompact(GetCompact(x)).negative && !SetCompact(GetCompact(x)).overflow
  {
    DecodeEncode(x);
  }

  lemma CompactSizeMonotone(x: u256, y: u256)
    requires x <= y
    ensures CompactSize(x) <= CompactSize(y)
  {
    ByteLengthMonotone(x, y);
    var b := ByteLength(x);
    if b == ByteLength(y) {
      if b <= 3 {
        MulMonotone(x, y, Pow256(3 - b));
      } else {
        DivMonotone(x, y, Pow256(b - 3));
      }
    }
  }

  /** A positive value is below 0x80 in the top byte of its compact size. */
  lemma BelowCompactSize(x: u256)
    requires x > 0
    ensures CompactSize(x) >= 1 && x < 0x80 * Pow256(CompactSize(x) - 1)
  {
    var m := EncodedParts(x);
    var s := CompactSize(x);
    Pow256Small();
    if s >= 3 {
      BelowFromDiv(x, Pow256(s - 3), SIGN_BIT);
      Pow256Add(2, s - 3);
    } else {
      Pow256Add(s - 1, 3 - s);
    }
  }

  /** From size 4 on, the kept value is at least 0x8000 in the mantissa. */
  lemma RoundedAboveCompactSize(y: u256)
    requires CompactSize(y) >= 4
    ensures Rounded(y) >= 0x8000 * Pow256(CompactSize(y) - 3)
  {
    var m := EncodedParts(y);
    MulMonotone(0x8000, m, Pow256(CompactSize(y) - 3));
  }

  /** Rounding through the compact form preserves order. */
  lemma CompactMonotone(x: u256, y: u256)
    requires x <= y
    ensures SetCompact(GetCompact(x)).value <= SetCompact(GetCompact(y)).value
  {
    DecodeEncode(x);
    DecodeEncode(y);
    RoundedMonotone(x, y);
  }

  lemma RoundedMonotone(x: u256, y: u256)
    requires x <= y
    ensures Rounded(x) <= Rounded(y)
  {
    CompactSizeMonotone(x, y);
    var sx, sy := CompactSize(x), CompactSize(y);
    if x == 0 {
      assert Rounded(x) == 0;
    } else if sx == sy {
      RoundDownMonotone(x, y, Pow256(DroppedBytes(x)));
    } else if sy <= 3 {
      assert Rounded(x) == x && Rounded(y) == y;
    } else {
      RoundedAcrossSizes(x, y);
    }
  }

  /** When y needs a larger compact size than x, y keeps more than all of x. */
  lemma RoundedAcrossSizes(x: u256, y: u256)
    requires 0 < x && CompactSize(x) < CompactSize(y) && CompactSize(y) >= 4
    ensures Rounded(x) <= Rounded(y)
  {
    var sx, sy := CompactSize(x), CompactSize(y);
    BelowCompactSize(x);
    RoundedAboveCompactSize(y);
    var px, py := Pow256(sx - 1), Pow256(sy - 3);
    Pow256Monotone(sx - 1, sy - 2);
    Pow256Add(1, sy - 3);
    assert Pow256(sy - 2) == 0x100 * py;
    MulMonotone(px, 0x100 * py, 0x80);
  }

  /** A value whose significant part fits in the 23-bit mantissa survives
      the compact form unchanged. */
  lemma CompactExact(m: nat, e: nat, x: u256)
    requires m < SIGN_BIT && x == m * Pow256(e)
    ensures SetCompact(GetCompact(x)).value == x
  {
    assert Rounded(x) == x by { RoundedExact(m, e, x); }
    DecodeEncode(x);
  }

  lemma RoundedExact(m: nat, e: nat, x: u256)
    requires m < SIGN_BIT && x == m * Pow256(e)
    ensures Rounded(x) == x
  {
    if m > 0 {
      var k := DroppedBytes(x);
      assert k <= e by { MantissaTooNarrow(m, e, x); }
      assert RoundDownTo(x, Pow256(k)) == x by { RoundDownExact(m, e, k); }
    } else {
      assert x == 0;
      assert RoundDownTo(x, Pow256(DroppedBytes(x))) == 0;
    }
  }

  lemma RoundDownExact(m: nat, e: nat, k: nat)
    requires k <= e
    ensures RoundDownTo(m * Pow256(e), Pow256(k)) == m * Pow256(e)
  {
    var pd, pk := Pow256(e - k), Pow256(k);
    Pow256Add(e - k, k);
    MulAssoc(m, pd, pk);
    MulDivCancel(m * pd, pk);
  }

  /** A value with a 23-bit significant part drops no more bytes than its
      trailing zero bytes. */
  lemma MantissaTooNarrow(m: nat, e: nat, x: u256)
    requires 0 < m < SIGN_BIT && x == m * Pow256(e)
    ensures DroppedBytes(x) <= e
  {
    var k := DroppedBytes(x);
    if k > e {
      var cs := CompactSize(x);
      assert cs >= 4 && k == cs - 3;
      var pk := Pow256(k);
      assert 0x8000 * pk <= x by {
        RoundedAboveCompactSize(x);
      }
      var pe, pe1 := Pow256(e), Pow256(e + 1);
      assert pe1 == 256 * pe by { Pow256Add(1, e); Pow256Small(); }
      assert pe1 <= pk by { Pow256Monotone(e + 1, k); }
      assert x < 0x8000 * pe1 by { NarrowBound(m, pe, pe1); }
      assert false;
    }
  }

  lemma NarrowBound(m: nat, pe: nat, pe1: nat)
    requires m < SIGN_BIT && pe >= 1 && pe1 == 256 * pe
    ensures m * pe < 0x8000 * pe1
  {
    MulMonotone(m + 1, SIGN_BIT, pe);
  }
}
