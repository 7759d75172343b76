/** The MIFARE Classic 1K layout both scripts compute with (four blocks per
    sector, the last of them the sector trailer), the 16-byte block payload,
    and the text rendering of a tag's UID. */
module BlockCodec {
  import opened Bytes

  /** Blocks per sector on a MIFARE Classic 1K card. */
  const BlocksPerSector: int := 4

  /** Index, within its sector, of the trailer block holding keys and access bits. */
  const TrailerBlock: int := 3

  /** Bytes in one block: the unit of every read and write. */
  const PayloadSize: nat := 16

  /** `(sector * 4) + block`: the absolute address of a block. Nothing is
      checked: any integers are accepted, block 3 included. For a block index
      0..3 the address lies in sector `sector`: dividing by 4 gives the sector
      back and the remainder gives the block back. */
  function BlockAddress(sector: int, block: int): (addr: int)
    ensures 0 <= block < BlocksPerSector ==>
              addr / BlocksPerSector == sector && addr % BlocksPerSector == block
  {
    sector * BlocksPerSector + block
  }

  /** `(sector * 4) + 3`: the address authentication is performed against,
      the last block of sector `sector`. */
  function TrailerAddress(sector: int): (addr: int)
    ensures addr / BlocksPerSector == sector && addr % BlocksPerSector == TrailerBlock
  {
    sector * BlocksPerSector + TrailerBlock
  }

  /** The data address coincides with the trailer address exactly when the
      block is 3; blocks 0, 1, 2 (or any other index) never touch it. */
  lemma DataAddressIsTrailerIff(sector: int, block: int)
    ensures BlockAddress(sector, block) == TrailerAddress(sector) <==> block == TrailerBlock
  {
  }

  /** Distinct (sector, block) pairs with block in 0..3 have distinct
      addresses. */
  lemma BlockAddressInjective(s1: int, b1: int, s2: int, b2: int)
    requires 0 <= b1 < BlocksPerSector && 0 <= b2 < BlocksPerSector
    requires BlockAddress(s1, b1) == BlockAddress(s2, b2)
    ensures s1 == s2 && b1 == b2
  {
  }

  /** The 16-byte payload made from `encoded`, byte by byte: the input's
      bytes where there are any, zero beyond its end, and nothing past
      position 16. */
  function Shaped(encoded: seq<byte>): (p: seq<byte>)
    ensures |p| == PayloadSize
  {
    seq(PayloadSize, i requires 0 <= i < PayloadSize => if i < |encoded| then encoded[i] else 0)
  }

  /** Short input: the payload is the input followed by `16 - len` zero bytes. */
  lemma ShapedPads(encoded: seq<byte>)
    requires |encoded| < PayloadSize
    ensures Shaped(encoded) == encoded + Zeros(PayloadSize - |encoded|)
  {
  }

  /** Long input: the payload is the first 16 bytes. */
  lemma ShapedTruncates(encoded: seq<byte>)
    requires |encoded| >= PayloadSize
    ensures Shaped(encoded) == encoded[..PayloadSize]
  {
  }

  /** A payload of exactly 16 bytes is kept as it is. */
  lemma ShapedKeepsExact(encoded: seq<byte>)
    requires |encoded| == PayloadSize
    ensures Shaped(encoded) == encoded
  {
    ShapedTruncates(encoded);
  }

  /** Shaping twice is shaping once. */
  lemma ShapedIdempotent(encoded: seq<byte>)
    ensures Shaped(Shaped(encoded)) == Shaped(encoded)
  {
    ShapedKeepsExact(Shaped(encoded));
  }

  /** Content up to 16 bytes survives shaping: it is the payload's prefix. */
  lemma ShapedKeepsContent(encoded: seq<byte>)
    requires |encoded| <= PayloadSize
    ensures Shaped(encoded)[..|encoded|] == encoded
  {
  }

  /** `"%02x%02x%02x%02x" % (raw[0], raw[1], raw[2], raw[3])`: the UID text.
      Bytes past the fourth (the check byte some readers append) are not
      shown. */
  function UidString(raw: seq<byte>): (r: string)
    requires |raw| >= 4
    ensures |r| == 8
    ensures forall i :: 0 <= i < |r| ==> IsHexDigit(r[i])
    ensures Unhexlify(r) == raw[..4]
  {
    UnhexlifyHexlify(raw[..4]);
    Hexlify(raw[..4])
  }

  /** Two readings give the same UID text exactly when their first four bytes
      agree. */
  lemma UidStringIff(a: seq<byte>, b: seq<byte>)
    requires |a| >= 4 && |b| >= 4
    ensures UidString(a) == UidString(b) <==> a[..4] == b[..4]
  {
  }
}
