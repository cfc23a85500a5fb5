/** The miner of pow.h and pow.cpp: the target comparison, the copy of the
    RandomX result into a uint256, the split of the dataset among the
    initialising workers, and the nonce search of RxWorkMiner::Mine. The
    RandomX hash and the shutdown callback are parameters. */
module Miner {
  import opened Ints
  import opened Arith256
  import opened Compact
  import opened Header
  import opened Pow

  /** RxWorkMiner::checkPow: the hash meets the target when it does not exceed it. */
  function CheckPow(hash: u256, bnTarget: u256): bool
  {
    hash <= bnTarget
  }

  /** Against a usable target, CheckProofOfWork is checkPow on the decoded target. */
  lemma CheckPowIsCheckProofOfWork(hash: Bytes32, nBits: uint32, p: Params)
    requires TargetInRange(nBits, p)
    ensures CheckProofOfWork(hash, nBits, p) == CheckPow(UintToArith256(hash), SetCompact(nBits).value)
  {
  }

  /** HashBytesToUnit256: the 32 result bytes become the uint256 in the same
      order, so the first byte is the least significant. */
  function HashBytesToUint256(hashBytes: seq<byte>): (h: Bytes32)
    requires |hashBytes| == 32
    ensures UintToArith256(h) == LeValue(hashBytes)
  {
    hashBytes
  }

  // ---------------------------------------------------------------------
  // Dataset partition

  /** The number of workers that initialise the dataset. */
  const N_THREADS: nat := 8

  /** The items one worker initialises: count items from startItem. */
  datatype WorkRange = WorkRange(startItem: uint32, count: nat)

  /** Worker i's share: itemCount / nThreads, plus the remainder for the last. */
  function ShareOf(i: nat, itemCount: nat, nThreads: nat): nat
    requires nThreads >= 1
  {
    itemCount / nThreads + (if i == nThreads - 1 then itemCount % nThreads else 0)
  }

  /** Worker i's 32-bit start: the shares of the workers before it, wrapped. */
  function StartOf(i: nat, itemCount: nat, nThreads: nat): uint32
    requires nThreads >= 1
  {
    (i * (itemCount / nThreads)) % TWO32
  }

  /** The split the constructor makes: every worker but the last gets
      itemCount / nThreads items, the last also gets the remainder, and each
      starts where the previous one ended (a 32-bit start, so it wraps). */
  predicate IsSplit(ranges: seq<WorkRange>, itemCount: nat, nThreads: nat)
    requires nThreads >= 1
  {
    && |ranges| == nThreads
    && (forall i :: 0 <= i < nThreads ==>
          ranges[i] == WorkRange(StartOf(i, itemCount, nThreads), ShareOf(i, itemCount, nThreads)))
  }

  /** The dataset partition loop of the RxWorkMiner constructor, with the
      thread spawns replaced by recording each worker's range. With a single
      thread the whole range goes to one worker. */
  method PartitionDataset(itemCount: nat, nThreads: nat) returns (ranges: seq<WorkRange>)
    requires nThreads >= 1
    ensures IsSplit(ranges, itemCount, nThreads)
  {
    if nThreads > 1 {
      var perThread := itemCount / nThreads;
      var remainder := itemCount % nThreads;
      var startItem: uint32 := 0;
      ranges := [];
      var i := 0;
      while i < nThreads
        invariant 0 <= i <= nThreads
        invariant |ranges| == i
        invariant i < nThreads ==> startItem == StartOf(i, itemCount, nThreads)
        invariant forall k :: 0 <= k < i ==>
                    ranges[k] == WorkRange(StartOf(k, itemCount, nThreads), ShareOf(k, itemCount, nThreads))
      {
        var count := perThread + (if i == nThreads - 1 then remainder else 0);
        assert count == ShareOf(i, itemCount, nThreads);
        ranges := ranges + [WorkRange(startItem, count)];
        if i < nThreads - 1 {
          NextStart(i, perThread, startItem);
        }
        startItem := (startItem + count) % TWO32;
        i := i + 1;
      }
    } else {
      assert itemCount / nThreads == itemCount && itemCount % nThreads == 0;
      ranges := [WorkRange(0, itemCount)];
    }
  }

  /** Advancing the 32-bit start by one full share. */
  lemma NextStart(i: nat, perThread: nat, startItem: nat)
    requires startItem == (i * perThread) % TWO32
    ensures (startItem + perThread) % TWO32 == ((i + 1) * perThread) % TWO32
  {
    var q := (i * perThread) / TWO32;
    assert i * perThread == q * TWO32 + startItem;
    assert (i + 1) * perThread == q * TWO32 + (startItem + perThread);
    var r := (startItem + perThread) % TWO32;
    var q2 := (startItem + perThread) / TWO32;
    assert (i + 1) * perThread == (q + q2) * TWO32 + r;
    DivUnique((i + 1) * perThread, TWO32, q + q2, r);
  }

  function SumCounts(ranges: seq<WorkRange>): nat
  {
    if |ranges| == 0 then 0 else SumCounts(ranges[..|ranges| - 1]) + ranges[|ranges| - 1].count
  }

  /** The workers' counts add up to the item count. */
  lemma SplitSumsToItemCount(ranges: seq<WorkRange>, itemCount: nat, nThreads: nat)
    requires nThreads >= 1 && IsSplit(ranges, itemCount, nThreads)
    ensures SumCounts(ranges) == itemCount
  {
    var n, per, rem := nThreads, itemCount / nThreads, itemCount % nThreads;
    forall i | 0 <= i < n - 1
      ensures ranges[i].count == per
    {
      assert ranges[i].count == ShareOf(i, itemCount, n);
    }
    PrefixSum(ranges, per, n - 1);
    assert ranges[..n - 1] == ranges[..|ranges| - 1];
    assert ranges[n - 1].count == per + rem;
    assert SumCounts(ranges) == (n - 1) * per + (per + rem);
    assert (n - 1) * per + per == n * per;
  }

  lemma {:induction false} PrefixSum(ranges: seq<WorkRange>, per: nat, k: nat)
    requires k <= |ranges|
    requires forall i :: 0 <= i < k ==> ranges[i].count == per
    ensures SumCounts(ranges[..k]) == k * per
  {
    if k > 0 {
      PrefixSum(ranges, per, k - 1);
      assert ranges[..k][..k - 1] == ranges[..k - 1];
    }
  }

  predicate Covers(r: WorkRange, x: int)
  {
    r.startItem <= x < r.startItem + r.count
  }

  /** Some worker initialises item x. */
  predicate Covered(ranges: seq<WorkRange>, x: int)
  {
    exists i :: 0 <= i < |ranges| && Covers(ranges[i], x)
  }

  /** Without wrap-around, worker i starts at i * share and all but the
      last end where the next begins; none reaches past itemCount. */
  lemma SplitBounds(ranges: seq<WorkRange>, itemCount: nat, nThreads: nat, i: nat)
    requires nThreads >= 1 && IsSplit(ranges, itemCount, nThreads)
    requires itemCount < TWO32 && i < nThreads
    ensures ranges[i].startItem == i * (itemCount / nThreads)
    ensures i < nThreads - 1 ==> ranges[i].startItem + ranges[i].count == (i + 1) * (itemCount / nThreads)
    ensures i == nThreads - 1 ==> ranges[i].startItem + ranges[i].count == itemCount
    ensures ranges[i].startItem + ranges[i].count <= itemCount
  {
    var per := itemCount / nThreads;
    assert itemCount == (nThreads - 1) * per + per + itemCount % nThreads;
    MulMonotone(i, nThreads - 1, per);
    DivUnique(i * per, TWO32, 0, i * per);
    if i < nThreads - 1 {
      MulMonotone(i + 1, nThreads - 1, per);
    }
  }

  /** When the item count fits in 32 bits no start wraps, the workers'
      ranges lie inside [0, itemCount), are pairwise disjoint, and together
      cover every item: each item is initialised by exactly one worker. */
  lemma SplitCoversOnce(ranges: seq<WorkRange>, itemCount: nat, nThreads: nat)
    requires nThreads >= 1 && IsSplit(ranges, itemCount, nThreads)
    requires itemCount < TWO32
    ensures forall i :: 0 <= i < nThreads ==> ranges[i].startItem + ranges[i].count <= itemCount
    ensures forall i, j, x :: 0 <= i < j < nThreads && Covers(ranges[i], x) ==> !Covers(ranges[j], x)
    ensures forall x :: 0 <= x < itemCount ==> Covered(ranges, x)
  {
    forall i | 0 <= i < nThreads
      ensures ranges[i].startItem + ranges[i].count <= itemCount
    {
      SplitBounds(ranges, itemCount, nThreads, i);
    }
    forall i, j, x | 0 <= i < j < nThreads && Covers(ranges[i], x)
      ensures !Covers(ranges[j], x)
    {
      SplitDisjoint(ranges, itemCount, nThreads, i, j);
    }
    forall x | 0 <= x < itemCount
      ensures Covered(ranges, x)
    {
      SplitCoversItem(ranges, itemCount, nThreads, x);
    }
  }

  lemma SplitDisjoint(ranges: seq<WorkRange>, itemCount: nat, nThreads: nat, i: nat, j: nat)
    requires nThreads >= 1 && IsSplit(ranges, itemCount, nThreads)
    requires itemCount < TWO32 && i < j < nThreads
    ensures ranges[i].startItem + ranges[i].count <= ranges[j].startItem
  {
    SplitBounds(ranges, itemCount, nThreads, i);
    SplitBounds(ranges, itemCount, nThreads, j);
    MulMonotone(i + 1, j, itemCount / nThreads);
  }

  lemma SplitCoversItem(ranges: seq<WorkRange>, itemCount: nat, nThreads: nat, x: nat)
    requires nThreads >= 1 && IsSplit(ranges, itemCount, nThreads)
    requires itemCount < TWO32 && x < itemCount
    ensures Covered(ranges, x)
  {
    var per := itemCount / nThreads;
    var last := nThreads - 1;
    SplitBounds(ranges, itemCount, nThreads, last);
    if x >= last * per {
      assert Covers(ranges[last], x);
    } else {
      var q := QuotientBelow(x, per, last);
      SplitBounds(ranges, itemCount, nThreads, q);
      assert Covers(ranges[q], x);
    }
  }

  /** The block of size per that x falls in, when x is below last blocks. */
  lemma QuotientBelow(x: nat, per: nat, last: nat) returns (q: nat)
    requires x < last * per
    ensures q < last && q * per <= x < (q + 1) * per
  {
    assert per > 0;
    q := x / per;
    DivMulBelow(x, per);
    DivBelow(x, per, last);
  }

  // ---------------------------------------------------------------------
  // RxWorkMiner

  /** How a call to Mine ends: with a hash at or below the target and the
      nonce that produced it, because shutdown was requested, or (in the
      model only) because the bound on attempts ran out. */
  datatype MineOutcome =
    | Found(hash: Bytes32, nonce: uint32)
    | ShutdownRequested
    | OutOfFuel

  /** The nonce tried in the k-th attempt, counting from 0. */
  function NonceAt(start: uint32, k: nat): uint32
  {
    (start + k) % TWO32
  }

  /** The uint32 increment steps from one attempt's nonce to the next, and
      the decrement after it steps back. */
  lemma NonceStep(start: uint32, k: nat)
    ensures NonceAt(start, k + 1) == (NonceAt(start, k) + 1) % TWO32
    ensures (NonceAt(start, k + 1) - 1) % TWO32 == NonceAt(start, k)
  {
    var n := NonceAt(start, k);
    var q := (start + k) / TWO32;
    assert start + k == q * TWO32 + n;
    if n + 1 < TWO32 {
      DivUnique(start + k + 1, TWO32, q, n + 1);
      DivUnique(n, TWO32, 0, n);
    } else {
      DivUnique(start + k + 1, TWO32, q + 1, 0);
      DivUnique(n + 1, TWO32, 1, 0);
      DivUnique(-1 + TWO32, TWO32, 0, TWO32 - 1);
    }
  }

  /** The target Mine compares against: the decoded bits, flags ignored. */
  function MineTarget(h: BlockHeader): u256
  {
    SetCompact(h.bits).value
  }

  /** The arithmetic value of the hash the k-th attempt computes. */
  function AttemptHash(rx: (Bytes32, seq<byte>) -> Bytes32, key: Bytes32, h: BlockHeader, k: nat): u256
  {
    UintToArith256(rx(key, Preimage(h.(nonce := NonceAt(h.nonce, k)))))
  }

  class RxWorkMiner {
    /** The header being mined (its nonce is where the search starts). */
    const header: BlockHeader
    /** The RandomX key the dataset was built from. */
    const key: Bytes32
    /** The item range each dataset worker initialised. */
    const datasetRanges: seq<WorkRange>

    /** RxWorkMiner(key, block): keeps the header and splits the dataset
        initialisation among N_THREADS workers; RandomX itself is not
        modelled, only which worker initialises which items. */
    constructor (key: Bytes32, block: BlockHeader, datasetItemCount: nat)
      ensures this.header == block && this.key == key
      ensures IsSplit(datasetRanges, datasetItemCount, N_THREADS)
    {
      this.header := block;
      this.key := key;
      var ranges := PartitionDataset(datasetItemCount, N_THREADS);
      this.datasetRanges := ranges;
    }

    /** RxWorkMiner(block): the key is the double SHA-256 (a parameter
        here) of the header's key input. */
    constructor FromHeader(block: BlockHeader, keyHash: seq<byte> -> Bytes32, datasetItemCount: nat)
      ensures this.header == block && this.key == keyHash(KeyPreimage(block))
      ensures IsSplit(datasetRanges, datasetItemCount, N_THREADS)
    {
      this.header := block;
      this.key := keyHash(KeyPreimage(block));
      var ranges := PartitionDataset(datasetItemCount, N_THREADS);
      this.datasetRanges := ranges;
    }

    /** The nonce search. Before each attempt the shutdown callback is
        asked (shutdown(k) is its answer before attempt k); each attempt
        writes the nonce into the last four bytes of the 80-byte input,
        hashes it and stops once the hash is at or below the target. On
        success the reported nonce is the one last hashed. fuel bounds the
        number of attempts; the source loops without bound. */
    method Mine(rx: (Bytes32, seq<byte>) -> Bytes32, shutdown: nat -> bool, fuel: nat)
      returns (outcome: MineOutcome, nHash: nat)
      ensures nHash <= fuel
      ensures forall k :: 0 <= k < nHash ==> !shutdown(k)
      ensures outcome.Found? ==>
                nHash >= 1
                && outcome.nonce == NonceAt(header.nonce, nHash - 1)
                && outcome.hash == rx(key, Preimage(header.(nonce := outcome.nonce)))
                && CheckPow(UintToArith256(outcome.hash), MineTarget(header))
      ensures forall k :: 0 <= k < (if outcome.Found? then nHash - 1 else nHash) ==>
                !CheckPow(AttemptHash(rx, key, header, k), MineTarget(header))
      ensures outcome.ShutdownRequested? ==> shutdown(nHash)
      ensures outcome.OutOfFuel? ==> nHash == fuel
    {
      var d1 := PrefixBuffer(header);
      var bnTarget := SetCompact(header.bits).value;
      assert bnTarget == MineTarget(header);
      var nonce: uint32 := header.nonce;
      nHash := 0;
      while true
        invariant nHash <= fuel
        invariant nonce == NonceAt(header.nonce, nHash)
        invariant d1.Length == 80 && d1[..76] == PreimagePrefix(header)
        invariant forall k :: 0 <= k < nHash ==> !shutdown(k)
        invariant forall k :: 0 <= k < nHash ==> !CheckPow(AttemptHash(rx, key, header, k), bnTarget)
        decreases fuel - nHash
      {
        if nHash == fuel {
          return OutOfFuel, nHash;
        }
        if shutdown(nHash) {
          return ShutdownRequested, nHash;
        }
        assert forall k :: 0 <= k < nHash + 1 ==> !shutdown(k);
        var tried := nonce;
        var hash, arith256 := Attempt(rx, d1, nHash, tried);
        ghost var attempt := arith256;
        NonceStep(header.nonce, nHash);
        nonce := (nonce + 1) % TWO32;
        assert nonce == NonceAt(header.nonce, nHash + 1);
        nHash := nHash + 1;
        if !(arith256 > bnTarget) {
          var pNonce := (nonce - 1) % TWO32;
          assert pNonce == tried;
          return Found(hash, pNonce), nHash;
        }
        assert !CheckPow(attempt, bnTarget);
      }
    }

    /** One attempt of the search: the k-th nonce written into the input,
        hashed with RandomX, and the hash read as a 256-bit number. */
    method Attempt(rx: (Bytes32, seq<byte>) -> Bytes32, d1: array<byte>, k: nat, tried: uint32)
      returns (hash: Bytes32, arith256: u256)
      requires d1.Length == 80 && d1[..76] == PreimagePrefix(header)
      requires tried == NonceAt(header.nonce, k)
      modifies d1
      ensures d1[..] == Preimage(header.(nonce := tried)) && d1[..76] == PreimagePrefix(header)
      ensures hash == rx(key, Preimage(header.(nonce := tried)))
      ensures arith256 == UintToArith256(hash) == AttemptHash(rx, key, header, k)
    {
      WriteNonce(d1, header, tried);
      var result := rx(key, d1[..]);
      hash := HashBytesToUint256(result);
      arith256 := UintToArith256(hash);
    }
  }

  /** The 80-byte hashing input with the header's first 76 bytes written. */
  method PrefixBuffer(h: BlockHeader) returns (d1: array<byte>)
    ensures fresh(d1) && d1.Length == 80 && d1[..76] == PreimagePrefix(h)
    ensures d1[..] == Preimage(h.(nonce := 0))
  {
    d1 := new byte[80](_ => 0);
    assert d1[76..] == LE32(0);
    WritePrefix(d1, h);
    assert d1[..] == d1[..76] + d1[76..];
  }

  /** Writes version, previous hash, merkle root, time and bits into the
      first 76 bytes and leaves the nonce bytes alone. */
  method WritePrefix(d1: array<byte>, h: BlockHeader)
    requires d1.Length == 80
    modifies d1
    ensures d1[..76] == PreimagePrefix(h) && d1[76..] == old(d1[76..])
  {
    ghost var tail := d1[76..];
    WriteLE32(d1, 0, Int32ToUint32(h.version));
    assert d1[76..] == tail;
    CopyBytes(d1, 4, h.hashPrevBlock);
    assert d1[76..] == tail;
    CopyBytes(d1, 36, h.hashMerkleRoot);
    assert d1[76..] == tail;
    WriteLE32(d1, 68, h.time);
    assert d1[76..] == tail;
    WriteLE32(d1, 72, h.bits);
  }

  /** Writing a nonce into the last four bytes completes the input for the
      header with that nonce and leaves the first 76 bytes as they were. */
  method WriteNonce(d1: array<byte>, h: BlockHeader, n: uint32)
    requires d1.Length == 80 && d1[..76] == PreimagePrefix(h)
    modifies d1
    ensures d1[..] == Preimage(h.(nonce := n)) && d1[..76] == PreimagePrefix(h)
  {
    WriteLE32(d1, 76, n);
    PreimageWithNonce(h, n);
  }

  /** WriteLE32 into a buffer at an offset. */
  method WriteLE32(a: array<byte>, offset: nat, v: uint32)
    requires offset + 4 <= a.Length
    modifies a
    ensures a[..] == old(a[..offset]) + LE32(v) + old(a[offset + 4..])
  {
    var b := LE32(v);
    a[offset] := b[0];
    a[offset + 1] := b[1];
    a[offset + 2] := b[2];
    a[offset + 3] := b[3];
    assert a[..] == old(a[..offset]) + LE32(v) + old(a[offset + 4..]);
  }

  /** memcpy of 32 bytes into a buffer at an offset. */
  method CopyBytes(a: array<byte>, offset: nat, src: Bytes32)
    requires offset + 32 <= a.Length
    modifies a
    ensures a[..] == old(a[..offset]) + src + old(a[offset + 32..])
  {
    var i := 0;
    while i < 32
      invariant 0 <= i <= 32
      invariant a[..offset] == old(a[..offset])
      invariant a[offset..offset + i] == src[..i]
      invariant a[offset + 32..] == old(a[offset + 32..])
    {
      a[offset + i] := src[i];
      i := i + 1;
    }
    assert a[..] == a[..offset] + a[offset..offset + 32] + a[offset + 32..];
  }

  /** A header Mine reports, with the key of its own header, passes the full
      check CheckProofOfWorkX whenever its bits stand for a usable target. */
  lemma MinedHeaderPasses(m: RxWorkMiner, rx: (Bytes32, seq<byte>) -> Bytes32, keyHash: seq<byte> -> Bytes32,
                          p: Params, hash: Bytes32, nonce: uint32)
    requires m.key == keyHash(KeyPreimage(m.header))
    requires hash == rx(m.key, Preimage(m.header.(nonce := nonce)))
    requires CheckPow(UintToArith256(hash), MineTarget(m.header))
    requires TargetInRange(m.header.bits, p)
    ensures CheckProofOfWorkX(m.header.(nonce := nonce), p, keyHash, rx)
  {
    KeyPreimageShared(m.header, m.header.(nonce := nonce));
  }
}
