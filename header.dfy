/** The block header fields that proof of work covers, and the two byte
    strings built from them: the 80-byte hash input (CheckProofOfWorkX and
    RxWorkMiner::Mine) and the 16-byte input of the epoch key
    (sha256dKeyBlock). */
module Header {
  import opened Ints
  import opened Arith256

  /** The key changes once every this many seconds of block time (about four days). */
  const EPOCH_SECONDS: int := 345678

  /** Length of the hash input and the offsets of its fields. */
  const PREIMAGE_SIZE: int := 80
  const NONCE_OFFSET: int := 76

  datatype BlockHeader = BlockHeader(
    version: int32,
    hashPrevBlock: Bytes32,
    hashMerkleRoot: Bytes32,
    time: uint32,
    bits: uint32,
    nonce: uint32)

  /** The first 76 bytes of the hash input: everything but the nonce. */
  function PreimagePrefix(h: BlockHeader): (s: seq<byte>)
    ensures |s| == NONCE_OFFSET
  {
    LE32(Int32ToUint32(h.version)) + h.hashPrevBlock + h.hashMerkleRoot
      + LE32(h.time) + LE32(h.bits)
  }

  /** The 80-byte hash input: version, previous hash, merkle root, time,
      bits and nonce, the integers little-endian. */
  function Preimage(h: BlockHeader): (s: seq<byte>)
    ensures |s| == PREIMAGE_SIZE
  {
    PreimagePrefix(h) + LE32(h.nonce)
  }

  /** Reading the fields back out of 80 bytes. */
  function ParsePreimage(s: seq<byte>): (h: BlockHeader)
    requires |s| == PREIMAGE_SIZE
  {
    BlockHeader(Uint32ToInt32(ReadLE32(s[0..4])), s[4..36], s[36..68],
                ReadLE32(s[68..72]), ReadLE32(s[72..76]), ReadLE32(s[76..80]))
  }

  /** The field layout: version at [0,4), previous hash at [4,36), merkle
      root at [36,68), time at [68,72), bits at [72,76), nonce at [76,80). */
  lemma PreimageLayout(h: BlockHeader)
    ensures Preimage(h)[0..4] == LE32(Int32ToUint32(h.version))
    ensures Preimage(h)[4..36] == h.hashPrevBlock
    ensures Preimage(h)[36..68] == h.hashMerkleRoot
    ensures Preimage(h)[68..72] == LE32(h.time)
    ensures Preimage(h)[72..76] == LE32(h.bits)
    ensures Preimage(h)[76..80] == LE32(h.nonce)
  {
  }

  /** Distinct headers have distinct hash inputs: the header can be read back. */
  lemma ParseOfPreimage(h: BlockHeader)
    ensures ParsePreimage(Preimage(h)) == h
  {
    PreimageLayout(h);
    ReadWriteLE32(Int32ToUint32(h.version));
    Int32RoundTrip(h.version);
    ReadWriteLE32(h.time);
    ReadWriteLE32(h.bits);
    ReadWriteLE32(h.nonce);
  }

  /** Every 80 bytes are the hash input of exactly one header. */
  lemma PreimageOfParse(s: seq<byte>)
    requires |s| == PREIMAGE_SIZE
    ensures Preimage(ParsePreimage(s)) == s
  {
    var h := ParsePreimage(s);
    var v := ReadLE32(s[0..4]);
    assert Int32ToUint32(Uint32ToInt32(v)) == v;
    WriteReadLE32(s[0..4]);
    WriteReadLE32(s[68..72]);
    WriteReadLE32(s[72..76]);
    WriteReadLE32(s[76..80]);
    PreimageLayout(h);
  }

  /** Changing only the nonce changes only the last four bytes, which is
      why the miner builds the first 76 once and rewrites the rest. */
  lemma PreimageWithNonce(h: BlockHeader, n: uint32)
    ensures Preimage(h.(nonce := n)) == PreimagePrefix(h) + LE32(n)
    ensures Preimage(h.(nonce := n))[..NONCE_OFFSET] == Preimage(h)[..NONCE_OFFSET]
  {
  }

  /** The epoch of a block time: which key its hash is computed under. */
  function Epoch(time: uint32): (e: uint32)
    ensures e * EPOCH_SECONDS <= time < (e + 1) * EPOCH_SECONDS
  {
    time / EPOCH_SECONDS
  }

  /** The serialised key input: version, epoch of the time, bits and a zero
      word, four little-endian bytes each. */
  function KeyPreimage(h: BlockHeader): (s: seq<byte>)
    ensures |s| == 16
  {
    LE32(Int32ToUint32(h.version)) + LE32(Epoch(h.time)) + LE32(h.bits) + LE32(0)
  }

  /** The key does not depend on the nonce, the previous hash or the merkle
      root, and blocks whose times fall in the same epoch share it. */
  lemma KeyPreimageShared(h: BlockHeader, g: BlockHeader)
    requires h.version == g.version && h.bits == g.bits
    requires h.time / EPOCH_SECONDS == g.time / EPOCH_SECONDS
    ensures KeyPreimage(h) == KeyPreimage(g)
  {
  }

  /** Conversely the key input determines version, epoch and bits. */
  lemma KeyPreimageDetermines(h: BlockHeader, g: BlockHeader)
    requires KeyPreimage(h) == KeyPreimage(g)
    ensures h.version == g.version && h.bits == g.bits
    ensures Epoch(h.time) == Epoch(g.time)
  {
    var kh, kg := KeyPreimage(h), KeyPreimage(g);
    assert kh[0..4] == kg[0..4] && kh[4..8] == kg[4..8] && kh[8..12] == kg[8..12];
    assert kh[0..4] == LE32(Int32ToUint32(h.version)) && kg[0..4] == LE32(Int32ToUint32(g.version));
    assert kh[4..8] == LE32(Epoch(h.time)) && kg[4..8] == LE32(Epoch(g.time));
    assert kh[8..12] == LE32(h.bits) && kg[8..12] == LE32(g.bits);
    ReadWriteLE32(Int32ToUint32(h.version));
    ReadWriteLE32(Int32ToUint32(g.version));
    Int32RoundTrip(h.version);
    Int32RoundTrip(g.version);
    ReadWriteLE32(Epoch(h.time));
    ReadWriteLE32(Epoch(g.time));
    ReadWriteLE32(h.bits);
    ReadWriteLE32(g.bits);
  }
}
