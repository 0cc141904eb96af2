/** The LZ4 frame format, version 1.6.1: magic number, frame descriptor, data blocks, end mark, and
    skippable frames, written out as the bytes a frame consists of.

    Independent blocks only. The checksum of every field is XXH32 with seed 0. */
module FrameFormat {
  import opened Lz4Format
  import XxHash32

  const MAGIC := 0x184D2204
  const MAGIC_SKIPPABLE := 0x184D2A50
  const UNCOMPRESSED_FLAG := 0x8000_0000
  const MIN_HEADER := 7
  const MAX_HEADER := 19
  const BH_SIZE := 4
  const BF_SIZE := 4

  // ---------------------------------------------------------------- little-endian fields

  function Range(n: nat): (r: nat)
    ensures r >= 1
  {
    if n == 0 then 1 else 256 * Range(n - 1)
  }

  function LE(v: nat, n: nat): (r: seq<byte>)
    ensures |r| == n
  {
    if n == 0 then [] else [v % 256] + LE(v / 256, n - 1)
  }

  function ReadLE(b: seq<byte>): (r: nat)
    ensures r < Range(|b|)
  {
    if b == [] then 0 else b[0] + 256 * ReadLE(b[1..])
  }

  lemma {:induction false} ReadInvertsLE(v: nat, n: nat)
    requires v < Range(n)
    ensures ReadLE(LE(v, n)) == v
  {
    if n > 0 {
      ReadInvertsLE(v / 256, n - 1);
      assert LE(v, n)[1..] == LE(v / 256, n - 1);
    }
  }

  lemma Ranges()
    ensures Range(4) == 0x1_0000_0000 && Range(8) == 0x1_0000_0000_0000_0000
  {
    assert Range(2) == 0x1_0000;
    assert Range(4) == 0x1_0000_0000;
    assert Range(6) == 0x1_0000_0000_0000;
  }

  /** XXH32 with seed 0. */
  function Checksum(s: seq<byte>): (r: nat)
    ensures r < Range(4)
  {
    Ranges();
    XxHash32.Hash(s, 0) as nat
  }

  // ---------------------------------------------------------------- the frame descriptor

  /** The fields of a frame descriptor; blocks are independent. */
  datatype Header = Header(blockChecksum: bool, contentChecksum: bool, size: Option<nat>, dictID: Option<nat>,
                           blockSizeID: nat)

  predicate ValidHeader(h: Header) {
    && 4 <= h.blockSizeID <= 7
    && (h.size.Some? ==> h.size.value < Range(8))
    && (h.dictID.Some? ==> h.dictID.value < Range(4))
  }

  function BlockSize(id: nat): (r: nat)
    requires 4 <= id <= 7
    ensures r >= 65536
  {
    if id == 4 then 65536 else if id == 5 then 262144 else if id == 6 then 1048576 else 4194304
  }

  function Bit(b: bool): nat { if b then 1 else 0 }

  /** Version 01, independent blocks, then the four optional features. */
  function Flags(h: Header): byte {
    64 + 32 + 16 * Bit(h.blockChecksum) + 8 * Bit(h.size.Some?) + 4 * Bit(h.contentChecksum) + Bit(h.dictID.Some?)
  }

  function HeaderSize(h: Header): (r: nat)
    ensures MIN_HEADER <= r <= MAX_HEADER
  {
    MIN_HEADER + (if h.size.Some? then 8 else 0) + (if h.dictID.Some? then 4 else 0)
  }

  function Optional(v: Option<nat>, n: nat): seq<byte> {
    if v.Some? then LE(v.value, n) else []
  }

  function Descriptor(h: Header): (r: seq<byte>)
    requires 4 <= h.blockSizeID <= 7
    ensures |r| == HeaderSize(h) - 5
  {
    [Flags(h), h.blockSizeID * 16] + Optional(h.size, 8) + Optional(h.dictID, 4)
  }

  /** The second byte of the descriptor's checksum. */
  function HeaderChecksum(d: seq<byte>): byte {
    Checksum(d) / 256 % 256
  }

  function HeaderBytes(h: Header): (r: seq<byte>)
    requires 4 <= h.blockSizeID <= 7
    ensures |r| == HeaderSize(h)
  {
    LE(MAGIC, 4) + Descriptor(h) + [HeaderChecksum(Descriptor(h))]
  }

  // ---------------------------------------------------------------- data blocks

  datatype Block = Raw(data: seq<byte>) | Packed(code: seq<byte>, data: seq<byte>)

  function Payload(b: Block): seq<byte> {
    match b
    case Raw(data) => data
    case Packed(code, _) => code
  }

  /** A block as the decoder accepts it. */
  predicate ValidBlockIn(b: Block, max: nat) {
    && 0 < |Payload(b)| <= max
    && |b.data| <= max
    && (b.Packed? ==> ValidBlock(b.code, b.data))
  }

  predicate ValidBlocks(bs: seq<Block>, max: nat) {
    forall b :: b in bs ==> ValidBlockIn(b, max)
  }

  function Check(on: bool, s: seq<byte>): (r: seq<byte>)
    ensures |r| == if on then 4 else 0
  {
    if on then LE(Checksum(s), 4) else []
  }

  function BlockField(b: Block): nat {
    |Payload(b)| + if b.Raw? then UNCOMPRESSED_FLAG else 0
  }

  function BlockBytes(b: Block, check: bool): (r: seq<byte>)
    ensures |r| == BH_SIZE + |Payload(b)| + if check then BF_SIZE else 0
  {
    LE(BlockField(b), 4) + Payload(b) + Check(check, Payload(b))
  }

  function BlocksBytes(bs: seq<Block>, check: bool): seq<byte> {
    if bs == [] then [] else BlockBytes(bs[0], check) + BlocksBytes(bs[1..], check)
  }

  function Content(bs: seq<Block>): seq<byte> {
    if bs == [] then [] else bs[0].data + Content(bs[1..])
  }

  lemma {:induction false} BlocksJoin(bs: seq<Block>, cs: seq<Block>, check: bool)
    ensures BlocksBytes(bs + cs, check) == BlocksBytes(bs, check) + BlocksBytes(cs, check)
    ensures Content(bs + cs) == Content(bs) + Content(cs)
  {
    hide BlockBytes;
    if bs == [] {
      assert bs + cs == cs;
    } else {
      assert (bs + cs)[1..] == bs[1..] + cs;
      BlocksJoin(bs[1..], cs, check);
    }
  }

  lemma BlocksSnoc(bs: seq<Block>, b: Block, check: bool)
    ensures BlocksBytes(bs + [b], check) == BlocksBytes(bs, check) + BlockBytes(b, check)
    ensures Content(bs + [b]) == Content(bs) + b.data
  {
    hide BlockBytes;
    BlocksJoin(bs, [b], check);
    assert [b][1..] == [];
    assert BlocksBytes([b], check) == BlockBytes(b, check) + [];
    assert Content([b]) == b.data + [];
  }

  // ---------------------------------------------------------------- frames

  datatype Frame = Lz4Frame(header: Header, blocks: seq<Block>) | Skippable(kind: nat, user: seq<byte>)

  function Suffix(h: Header, content: seq<byte>): seq<byte> {
    LE(0, 4) + Check(h.contentChecksum, content)
  }

  predicate ValidFrame(f: Frame) {
    match f
    case Lz4Frame(h, bs) =>
      && ValidHeader(h)
      && ValidBlocks(bs, BlockSize(h.blockSizeID))
      && (h.size.Some? ==> h.size.value == |Content(bs)|)
    case Skippable(kind, user) => kind < 16 && |user| < Range(4)
  }

  function FrameBytes(f: Frame): seq<byte>
    requires ValidFrame(f)
  {
    match f
    case Lz4Frame(h, bs) =>
      HeaderBytes(h) + (BlocksBytes(bs, h.blockChecksum) + Suffix(h, Content(bs)))
    case Skippable(kind, user) => LE(MAGIC_SKIPPABLE + kind, 4) + (LE(|user|, 4) + user)
  }

  /** What a decoder delivers. */
  function FrameContent(f: Frame): seq<byte> {
    match f
    case Lz4Frame(_, bs) => Content(bs)
    case Skippable(_, _) => []
  }
}
