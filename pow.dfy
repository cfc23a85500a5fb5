/** The proof-of-work consensus rules of pow.cpp: checking a hash against
    the target its compact bits encode, retargeting once per adjustment
    interval, choosing the bits the next block must carry, and bounding a
    target change to a factor of four. 256-bit values are naturals below
    2^256 (arith_uint256), decoded and encoded through the compact form. */
module Pow {
  import opened Ints
  import opened Arith256
  import opened Compact
  import opened Header

  /** The consensus parameters the rules read. */
  datatype Params = Params(
    powLimit: Bytes32,
    nPowTargetSpacing: int64,
    nPowTargetTimespan: int64,
    fPowAllowMinDifficultyBlocks: bool,
    fPowNoRetargeting: bool)

  /** What the code takes for granted of its parameters: a positive spacing
      no longer than the timespan (so the interval is at least one block and
      every division is defined), and a timespan small enough that
      4 * timespan * 2048 is an int64. */
  predicate ValidParams(p: Params)
  {
    0 < p.nPowTargetSpacing <= p.nPowTargetTimespan
    && p.nPowTargetTimespan * 4 * 2048 <= INT64_MAX
  }

  function PowLimit(p: Params): u256
  {
    UintToArith256(p.powLimit)
  }

  /** Consensus::Params::DifficultyAdjustmentInterval: the number of whole
      spacings in a timespan. */
  function DifficultyAdjustmentInterval(p: Params): (n: int)
    requires ValidParams(p)
    ensures n >= 1
    ensures n * p.nPowTargetSpacing <= p.nPowTargetTimespan < (n + 1) * p.nPowTargetSpacing
  {
    p.nPowTargetTimespan / p.nPowTargetSpacing
  }

  function Min(a: u256, b: u256): (m: u256)
    ensures m <= a && m <= b && (m == a || m == b)
  {
    if a > b then b else a
  }

  // ---------------------------------------------------------------------
  // CheckProofOfWork

  /** The target nBits stands for is usable: not negative, not zero, not
      overflowing, and no easier than the proof-of-work limit. */
  predicate TargetInRange(nBits: uint32, p: Params)
  {
    var t := SetCompact(nBits);
    !t.negative && t.value != 0 && !t.overflow && t.value <= PowLimit(p)
  }

  function CheckProofOfWork(hash: Bytes32, nBits: uint32, p: Params): (r: bool)
    ensures r ==> nBits % SIGN_BIT != 0 && UintToArith256(hash) <= PowLimit(p)
  {
    var bnTarget := SetCompact(nBits);
    if bnTarget.negative || bnTarget.value == 0 || bnTarget.overflow || bnTarget.value > PowLimit(p) then
      false
    else if UintToArith256(hash) > bnTarget.value then
      false
    else
      true
  }

  /** A hash passes exactly when the target is usable and the hash, read as
      a little-endian number, does not exceed it. */
  lemma CheckProofOfWorkMeaning(hash: Bytes32, nBits: uint32, p: Params)
    ensures CheckProofOfWork(hash, nBits, p)
        <==> TargetInRange(nBits, p) && UintToArith256(hash) <= SetCompact(nBits).value
  {
  }

  /** An unusable target rejects every hash. */
  lemma BadTargetRejectsAll(nBits: uint32, p: Params)
    requires !TargetInRange(nBits, p)
    ensures forall hash: Bytes32 :: !CheckProofOfWork(hash, nBits, p)
  {
  }

  /** The comparison is inclusive: the hash equal to the target passes and
      the one just above it fails. */
  lemma TargetIsInclusive(nBits: uint32, p: Params)
    requires TargetInRange(nBits, p)
    ensures CheckProofOfWork(ArithToUint256(SetCompact(nBits).value), nBits, p)
    ensures SetCompact(nBits).value + 1 < TWO256 ==>
              !CheckProofOfWork(ArithToUint256(SetCompact(nBits).value + 1), nBits, p)
  {
    var t := SetCompact(nBits).value;
    var h := ArithToUint256(t);
    assert UintToArith256(h) == LeValue(h) == t;
    if t + 1 < TWO256 {
      var h1 := ArithToUint256(t + 1);
      assert UintToArith256(h1) == LeValue(h1) == t + 1;
    }
  }

  /** A hash no larger than one that passes also passes. */
  lemma SmallerHashPasses(h1: Bytes32, h2: Bytes32, nBits: uint32, p: Params)
    requires CheckProofOfWork(h1, nBits, p)
    requires UintToArith256(h2) <= UintToArith256(h1)
    ensures CheckProofOfWork(h2, nBits, p)
  {
  }

  // ---------------------------------------------------------------------
  // CalculateNextWorkRequired

  /** The measured timespan limited to [S/4, 4S] (S the target timespan). */
  function ClampTimespan(actual: int, p: Params): (ts: int)
    requires ValidParams(p)
    ensures p.nPowTargetTimespan / 4 <= ts <= p.nPowTargetTimespan * 4
    ensures p.nPowTargetTimespan / 4 <= actual <= p.nPowTargetTimespan * 4 ==> ts == actual
    ensures actual < p.nPowTargetTimespan / 4 ==> ts == p.nPowTargetTimespan / 4
    ensures actual > p.nPowTargetTimespan * 4 ==> ts == p.nPowTargetTimespan * 4
  {
    var ts := if actual < p.nPowTargetTimespan / 4 then p.nPowTargetTimespan / 4 else actual;
    if ts > p.nPowTargetTimespan * 4 then p.nPowTargetTimespan * 4 else ts
  }

  /** The int64 factor ts * 2048 / S, as operator*=(uint32_t) receives it:
      converted to 32 bits. Within the clamp it never needs the conversion. */
  function RetargetFactor(ts: int, p: Params): (f: uint32)
    requires ValidParams(p)
    requires p.nPowTargetTimespan / 4 <= ts <= p.nPowTargetTimespan * 4
    ensures f == ts * 2048 / p.nPowTargetTimespan <= 8192
  {
    var s := p.nPowTargetTimespan;
    MulMonotone(ts, s * 4, 2048);
    DivBelow(ts * 2048, s, 8193);
    var q := ts * 2048 / s;
    DivUnique(q, TWO32, 0, q);
    q % TWO32
  }

  /** The new target before encoding: the old one scaled by the factor
      (wrapping at 2^256), divided by 2048, capped at the limit. When the
      product cannot wrap it is min(limit, floor(T * f / 2048)). */
  function RetargetTarget(lastBits: uint32, ts: int, p: Params): (t: u256)
    requires ValidParams(p)
    requires p.nPowTargetTimespan / 4 <= ts <= p.nPowTargetTimespan * 4
    ensures t <= PowLimit(p)
    ensures SetCompact(lastBits).value * 8192 < TWO256 ==>
              var n := SetCompact(lastBits).value * (ts * 2048 / p.nPowTargetTimespan) / 2048;
              t == if n > PowLimit(p) then PowLimit(p) else n
  {
    var target := SetCompact(lastBits).value;
    var f := RetargetFactor(ts, p);
    var product := (target * f) % TWO256;
    NoWrap(target, f, 8192);
    DivAtMost(product, 2048);
    var bnNew := product / 2048;
    if bnNew > PowLimit(p) then PowLimit(p) else bnNew
  }

  /** A product below 2^256 is unaffected by the wrap. */
  lemma NoWrap(x: nat, f: nat, bound: nat)
    requires f <= bound
    ensures x * bound < TWO256 ==> (x * f) % TWO256 == x * f
  {
    if x * bound < TWO256 {
      MulMonotone(f, bound, x);
      DivUnique(x * f, TWO256, 0, x * f);
    }
  }

  /** The bits for the block after lastBits, given the measured timespan. */
  function RetargetBits(lastBits: uint32, actualTimespan: int, p: Params): (b: uint32)
    requires ValidParams(p)
    ensures !p.fPowNoRetargeting ==>
              var t := SetCompact(b);
              !t.negative && !t.overflow
              && t.value <= RetargetTarget(lastBits, ClampTimespan(actualTimespan, p), p)
  {
    if p.fPowNoRetargeting then lastBits
    else
      CompactRoundsDown(RetargetTarget(lastBits, ClampTimespan(actualTimespan, p), p));
      GetCompact(RetargetTarget(lastBits, ClampTimespan(actualTimespan, p), p))
  }

  function CalculateNextWorkRequired(lastBits: uint32, lastTime: uint32, nFirstBlockTime: int64, p: Params): (nBits: uint32)
    requires ValidParams(p)
    requires lastTime - nFirstBlockTime <= INT64_MAX
    ensures p.fPowNoRetargeting ==> nBits == lastBits
    ensures !p.fPowNoRetargeting ==>
              var t := SetCompact(nBits);
              !t.negative && !t.overflow && t.value <= PowLimit(p)
  {
    RetargetBits(lastBits, lastTime - nFirstBlockTime, p)
  }

  /** A timespan beyond either bound counts as the bound itself. */
  lemma TimespanBeyondBounds(lastBits: uint32, actual: int, p: Params)
    requires ValidParams(p)
    ensures actual <= p.nPowTargetTimespan / 4 ==>
              RetargetBits(lastBits, actual, p) == RetargetBits(lastBits, p.nPowTargetTimespan / 4, p)
    ensures actual >= p.nPowTargetTimespan * 4 ==>
              RetargetBits(lastBits, actual, p) == RetargetBits(lastBits, p.nPowTargetTimespan * 4, p)
  {
  }

  /** Blocks that took twice as long as intended double the target (up to
      the limit): the factor is exactly 4096. */
  lemma RetargetDoubleTimespan(lastBits: uint32, p: Params)
    requires ValidParams(p) && !p.fPowNoRetargeting
    requires SetCompact(lastBits).value * 8192 < TWO256
    ensures RetargetBits(lastBits, 2 * p.nPowTargetTimespan, p)
              == GetCompact(Min(PowLimit(p), 2 * SetCompact(lastBits).value))
  {
    var s := p.nPowTargetTimespan;
    var t := SetCompact(lastBits).value;
    assert (2 * s) * 2048 / s == 4096 by {
      DivUnique((2 * s) * 2048, s, 4096, 0);
    }
    assert t * 4096 / 2048 == 2 * t by {
      DivUnique(t * 4096, 2048, 2 * t, 0);
    }
  }

  // ---------------------------------------------------------------------
  // PermittedDifficultyTransition

  /** The old target scaled by timespan / S as the check computes it: the
      timespan converted to 32 bits for operator*=(uint32_t), a product that
      wraps at 2^256, then capped at the limit. */
  function ScaledTarget(oldBits: uint32, timespan: int, p: Params): (t: u256)
    requires ValidParams(p) && timespan >= 0
    ensures t <= PowLimit(p)
  {
    var scaled := (SetCompact(oldBits).value * (timespan % TWO32)) % TWO256 / p.nPowTargetTimespan;
    DivAtMost((SetCompact(oldBits).value * (timespan % TWO32)) % TWO256, p.nPowTargetTimespan);
    Min(scaled, PowLimit(p))
  }

  /** The easiest target a retarget could reach, after a compact round trip. */
  function MaximumNewTarget(oldBits: uint32, p: Params): u256
    requires ValidParams(p)
  {
    SetCompact(GetCompact(ScaledTarget(oldBits, p.nPowTargetTimespan * 4, p))).value
  }

  /** The hardest target a retarget could reach, after a compact round trip. */
  function MinimumNewTarget(oldBits: uint32, p: Params): u256
    requires ValidParams(p)
  {
    SetCompact(GetCompact(ScaledTarget(oldBits, p.nPowTargetTimespan / 4, p))).value
  }

  function PermittedDifficultyTransition(p: Params, height: int64, oldBits: uint32, newBits: uint32): bool
    requires ValidParams(p)
  {
    if p.fPowAllowMinDifficultyBlocks then
      true
    else if height % DifficultyAdjustmentInterval(p) == 0 then
      var observed := SetCompact(newBits).value;
      if MaximumNewTarget(oldBits, p) < observed then false
      else if MinimumNewTarget(oldBits, p) > observed then false
      else true
    else
      oldBits == newBits
  }

  /** On networks that allow minimum-difficulty blocks every transition is permitted. */
  lemma MinDifficultyPermitsAll(p: Params, height: int64, oldBits: uint32, newBits: uint32)
    requires ValidParams(p) && p.fPowAllowMinDifficultyBlocks
    ensures PermittedDifficultyTransition(p, height, oldBits, newBits)
  {
  }

  /** Between adjustments the bits may not change at all. */
  lemma OffBoundaryPermittedIffEqual(p: Params, height: int64, oldBits: uint32, newBits: uint32)
    requires ValidParams(p) && !p.fPowAllowMinDifficultyBlocks
    requires height % DifficultyAdjustmentInterval(p) != 0
    ensures PermittedDifficultyTransition(p, height, oldBits, newBits) <==> oldBits == newBits
  {
  }

  /** At an adjustment the new target must lie in the rounded window. */
  lemma BoundaryPermittedIffInWindow(p: Params, height: int64, oldBits: uint32, newBits: uint32)
    requires ValidParams(p) && !p.fPowAllowMinDifficultyBlocks
    requires height % DifficultyAdjustmentInterval(p) == 0
    ensures PermittedDifficultyTransition(p, height, oldBits, newBits)
        <==> MinimumNewTarget(oldBits, p) <= SetCompact(newBits).value <= MaximumNewTarget(oldBits, p)
  {
  }

  /** Within the clamp the retarget factor lies in [512, 8192] when S is a
      multiple of 4. */
  lemma FactorBounds(ts: int, s: int)
    requires s > 0 && s % 4 == 0 && s / 4 <= ts <= s * 4
    ensures 512 <= ts * 2048 / s <= 8192
  {
    assert ts * 2048 >= s * 512;
    DivAtLeast(ts * 2048, s, 512);
    DivBelow(ts * 2048, s, 8193);
  }

  /** Scaling by a factor in [512, 8192] and dividing by 2048 lands between
      a quarter and four times the original. */
  lemma ScaledWithinFour(t: nat, f: nat)
    requires 512 <= f <= 8192
    ensures t / 4 <= t * f / 2048 <= 4 * t
  {
    MulMonotone(512, f, t);
    MulMonotone(f, 8192, t);
    DivMonotone(t * 512, t * f, 2048);
    DivMonotone(t * f, t * 8192, 2048);
    DivUnique(t * 512, 2048, t / 4, (t % 4) * 512);
    DivUnique(t * 8192, 2048, 4 * t, 0);
  }

  /** Multiplying by 4S or S/4 and dividing by S is multiplying by 4 or
      dividing by 4. */
  lemma ScaledByTimespan(t: nat, s: nat)
    requires s > 0 && s % 4 == 0
    ensures t * (s * 4) / s == 4 * t
    ensures t * (s / 4) / s == t / 4
  {
    DivUnique(t * (s * 4), s, 4 * t, 0);
    var k := s / 4;
    assert s == k * 4;
    DivUnique(t * k, k, t, 0);
    DivDiv(t * k, k, 4);
    assert t * (s / 4) / s == t * k / (k * 4);
  }

  /** Without wrap-around the check's scaled target is min(T * timespan / S, limit). */
  lemma ScaledTargetNoWrap(oldBits: uint32, timespan: nat, p: Params)
    requires ValidParams(p) && timespan < TWO32
    requires SetCompact(oldBits).value * timespan < TWO256
    ensures var n := SetCompact(oldBits).value * timespan / p.nPowTargetTimespan;
            ScaledTarget(oldBits, timespan, p) == if n > PowLimit(p) then PowLimit(p) else n
  {
    var product := SetCompact(oldBits).value * timespan;
    DivUnique(timespan, TWO32, 0, timespan);
    DivUnique(product, TWO256, 0, product);
  }

  /** The retarget's new target lies between the check's unrounded bounds. */
  lemma RetargetWithinBounds(oldBits: uint32, ts: int, p: Params)
    requires ValidParams(p)
    requires p.nPowTargetTimespan / 4 <= ts <= p.nPowTargetTimespan * 4
    requires p.nPowTargetTimespan % 4 == 0 && p.nPowTargetTimespan * 4 < TWO32
    requires SetCompact(oldBits).value * 8192 < TWO256
    requires SetCompact(oldBits).value * (p.nPowTargetTimespan * 4) < TWO256
    ensures ScaledTarget(oldBits, p.nPowTargetTimespan / 4, p)
              <= RetargetTarget(oldBits, ts, p)
              <= ScaledTarget(oldBits, p.nPowTargetTimespan * 4, p)
  {
    var s := p.nPowTargetTimespan;
    var t := SetCompact(oldBits).value;
    var f := ts * 2048 / s;
    FactorBounds(ts, s);
    ScaledWithinFour(t, f);
    ScaledByTimespan(t, s);
    ScaledTargetNoWrap(oldBits, s * 4, p);
    MulMonotone(s / 4, s * 4, t);
    ScaledTargetNoWrap(oldBits, s / 4, p);
  }

  /** What CalculateNextWorkRequired produces is a transition
      PermittedDifficultyTransition accepts, provided S is a multiple of 4,
      4S fits in 32 bits, and the old target is small enough that neither
      retarget nor check wraps at 2^256. */
  lemma RetargetIsPermitted(p: Params, height: int64, oldBits: uint32, lastTime: uint32, nFirstBlockTime: int64)
    requires ValidParams(p) && !p.fPowAllowMinDifficultyBlocks && !p.fPowNoRetargeting
    requires lastTime - nFirstBlockTime <= INT64_MAX
    requires height % DifficultyAdjustmentInterval(p) == 0
    requires p.nPowTargetTimespan % 4 == 0 && p.nPowTargetTimespan * 4 < TWO32
    requires SetCompact(oldBits).value * 8192 < TWO256
    requires SetCompact(oldBits).value * (p.nPowTargetTimespan * 4) < TWO256
    ensures PermittedDifficultyTransition(p, height, oldBits,
              CalculateNextWorkRequired(oldBits, lastTime, nFirstBlockTime, p))
  {
    var s := p.nPowTargetTimespan;
    var ts := ClampTimespan(lastTime - nFirstBlockTime, p);
    var n := RetargetTarget(oldBits, ts, p);
    var newBits := CalculateNextWorkRequired(oldBits, lastTime, nFirstBlockTime, p);
    assert newBits == GetCompact(n);
    var hi := ScaledTarget(oldBits, s * 4, p);
    var lo := ScaledTarget(oldBits, s / 4, p);
    assert lo <= n <= hi by {
      RetargetWithinBounds(oldBits, ts, p);
    }
    CompactMonotone(n, hi);
    CompactMonotone(lo, n);
    BoundaryPermittedIffInWindow(p, height, oldBits, newBits);
  }

  // ---------------------------------------------------------------------
  // GetNextWorkRequired

  /** A block of the active chain as the rules see it. */
  datatype BlockIndex = BlockIndex(nHeight: int, nBits: uint32, nTime: uint32)

  /** The chain up to the tip, indexed by height: pprev of the block at
      height h is the one at h - 1, and genesis has none. */
  predicate ValidChain(chain: seq<BlockIndex>)
  {
    |chain| >= 1 && forall i :: 0 <= i < |chain| ==> chain[i].nHeight == i
  }

  /** The block the minimum-difficulty rule falls back to: walking back from
      height i past blocks that are not genesis, not at an adjustment, and
      carry the limit bits. */
  function LastRegularBlock(chain: seq<BlockIndex>, i: nat, limitBits: uint32, interval: int): (j: nat)
    requires ValidChain(chain) && i < |chain| && interval >= 1
    ensures j <= i
    ensures j == 0 || j % interval == 0 || chain[j].nBits != limitBits
    ensures forall k :: j < k <= i ==> k % interval != 0 && chain[k].nBits == limitBits
    decreases i
  {
    if chain[i].nHeight > 0 && chain[i].nHeight % interval != 0 && chain[i].nBits == limitBits then
      LastRegularBlock(chain, i - 1, limitBits, interval)
    else
      i
  }

  /** A height just before an adjustment has a whole interval behind it, so
      the first block of the interval exists. */
  lemma BoundaryHasFullInterval(h: nat, interval: int)
    requires interval >= 1 && (h + 1) % interval == 0
    ensures h - (interval - 1) >= 0
  {
    if h + 1 < interval {
      DivUnique(h + 1, interval, 0, h + 1);
    }
  }

  method GetNextWorkRequired(chain: seq<BlockIndex>, blockTime: uint32, p: Params) returns (nBits: uint32)
    requires ValidParams(p) && ValidChain(chain)
    ensures var last := |chain| - 1;
            var interval := DifficultyAdjustmentInterval(p);
            var limitBits := GetCompact(PowLimit(p));
            && ((last + 1) % interval != 0 && !p.fPowAllowMinDifficultyBlocks ==>
                  nBits == chain[last].nBits)
            && ((last + 1) % interval != 0 && p.fPowAllowMinDifficultyBlocks
                && blockTime > chain[last].nTime + p.nPowTargetSpacing * 2 ==>
                  nBits == limitBits)
            && ((last + 1) % interval != 0 && p.fPowAllowMinDifficultyBlocks
                && blockTime <= chain[last].nTime + p.nPowTargetSpacing * 2 ==>
                  nBits == chain[LastRegularBlock(chain, last, limitBits, interval)].nBits)
            && ((last + 1) % interval == 0 ==>
                  last - (interval - 1) >= 0
                  && nBits == CalculateNextWorkRequired(chain[last].nBits, chain[last].nTime,
                                                        chain[last - (interval - 1)].nTime, p))
  {
    var last := |chain| - 1;
    var interval := DifficultyAdjustmentInterval(p);
    var nProofOfWorkLimit := GetCompact(PowLimit(p));
    if (chain[last].nHeight + 1) % interval != 0 {
      if p.fPowAllowMinDifficultyBlocks {
        if blockTime > chain[last].nTime + p.nPowTargetSpacing * 2 {
          return nProofOfWorkLimit;
        }
        var i := last;
        while chain[i].nHeight > 0 && chain[i].nHeight % interval != 0 && chain[i].nBits == nProofOfWorkLimit
          invariant 0 <= i <= last
          invariant LastRegularBlock(chain, i, nProofOfWorkLimit, interval)
                    == LastRegularBlock(chain, last, nProofOfWorkLimit, interval)
          decreases i
        {
          i := i - 1;
        }
        return chain[i].nBits;
      }
      return chain[last].nBits;
    }
    var nHeightFirst := chain[last].nHeight - (interval - 1);
    BoundaryHasFullInterval(last, interval);
    assert nHeightFirst >= 0;
    nBits := CalculateNextWorkRequired(chain[last].nBits, chain[last].nTime, chain[nHeightFirst].nTime, p);
  }

  // ---------------------------------------------------------------------
  // CheckProofOfWorkX

  /** The full header check: the hash of the 80-byte header under the key
      of its epoch must meet the header's own bits. The key hash (a double
      SHA-256 of the key input) and the RandomX hash are parameters. */
  function CheckProofOfWorkX(h: BlockHeader, p: Params,
                             keyHash: seq<byte> -> Bytes32,
                             powHash: (Bytes32, seq<byte>) -> Bytes32): (r: bool)
    ensures r ==> h.bits % SIGN_BIT != 0
                  && UintToArith256(powHash(keyHash(KeyPreimage(h)), Preimage(h))) <= PowLimit(p)
  {
    CheckProofOfWork(powHash(keyHash(KeyPreimage(h)), Preimage(h)), h.bits, p)
  }

  /** Headers that differ only in their nonce are checked under the same
      key against the same target: only the hash input's last four bytes
      differ. */
  lemma CheckProofOfWorkXNonce(h: BlockHeader, n: uint32, p: Params,
                               keyHash: seq<byte> -> Bytes32,
                               powHash: (Bytes32, seq<byte>) -> Bytes32)
    ensures CheckProofOfWorkX(h.(nonce := n), p, keyHash, powHash)
        <==> CheckProofOfWork(powHash(keyHash(KeyPreimage(h)), PreimagePrefix(h) + LE32(n)), h.bits, p)
  {
    PreimageWithNonce(h, n);
  }
}
