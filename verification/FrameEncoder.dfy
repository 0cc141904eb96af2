/** The frame encoder: LZ4F_compressBegin, LZ4F_compressUpdate, LZ4F_flush, LZ4F_compressEnd and the
    output bounds they publish.

    Block compression is a parameter: any function whose results are valid blocks of the data,
    shorter than the data. */
module FrameEncoder {
  import opened Lz4Format
  import opened FrameFormat

  datatype EncodeError = Generic | DstMaxSizeTooSmall | FrameSizeWrong

  datatype Result = Size(size: nat) | Error(error: EncodeError)

  /** Preferences; 0 stands for an absent content size or dictionary, and for the default block size. */
  datatype Prefs = Prefs(blockChecksum: bool, contentChecksum: bool, contentSize: nat, dictID: nat, blockSizeID: nat,
                         autoFlush: bool)

  /** What the enumeration types and field widths of the preferences admit. */
  predicate ValidPrefs(p: Prefs) {
    && (p.blockSizeID == 0 || 4 <= p.blockSizeID <= 7)
    && p.contentSize < Range(8) && p.dictID < Range(4)
  }

  /** Block size 0 means 64 KB. */
  function Normal(id: nat): (r: nat)
    ensures id == 0 ==> r == 4
    ensures id != 0 ==> r == id
  {
    if id == 0 then 4 else id
  }

  function NonZero(n: nat): Option<nat> {
    if n > 0 then Some(n) else None
  }

  /** The descriptor the preferences ask for. */
  function HeaderOf(p: Prefs): Header {
    Header(p.blockChecksum, p.contentChecksum, NonZero(p.contentSize), NonZero(p.dictID), Normal(p.blockSizeID))
  }

  lemma HeaderOfValid(p: Prefs)
    requires ValidPrefs(p)
    ensures ValidHeader(HeaderOf(p))
  {
  }

  // ---------------------------------------------------------------- output bounds

  const TWO_32 := 0x1_0000_0000
  const TWO_64 := 0x1_0000_0000_0000_0000

  function CrcSize(p: Prefs): nat {
    if p.blockChecksum then BF_SIZE else 0
  }

  function FrameEnd(p: Prefs): nat {
    BH_SIZE + if p.contentChecksum then BF_SIZE else 0
  }

  function Min(a: nat, b: nat): nat { if a < b then a else b }

  /** LZ4F_compressBound_internal. Sizes are 64-bit, the counts of blocks 32-bit. */
  function CompressBound(srcSize: nat, p: Prefs, alreadyBuffered: nat): nat
    requires ValidPrefs(p)
  {
    var flush := p.autoFlush || srcSize == 0;
    var blockSize := BlockSize(Normal(p.blockSizeID));
    var maxSrcSize := (srcSize + Min(alreadyBuffered, blockSize - 1)) % TWO_64;
    var nbFullBlocks := maxSrcSize / blockSize % TWO_32;
    var lastBlockSize := if flush then maxSrcSize % blockSize else 0;
    var nbBlocks := (nbFullBlocks + if lastBlockSize > 0 then 1 else 0) % TWO_32;
    (BH_SIZE + CrcSize(p)) * nbBlocks + blockSize * nbFullBlocks + lastBlockSize + FrameEnd(p)
  }

  /** LZ4F_compressFrameBound. */
  function CompressFrameBound(srcSize: nat, p: Prefs): nat
    requires ValidPrefs(p)
  {
    MAX_HEADER + CompressBound(srcSize, p.(autoFlush := true), 0)
  }

  // ---------------------------------------------------------------- blocks

  /** Results are blocks of the data, and shorter. */
  ghost predicate Compresses(compress: seq<byte> -> Option<seq<byte>>) {
    forall s :: match compress(s)
                case None => true
                case Some(c) => 0 < |c| < |s| && ValidBlock(c, s)
  }

  /** The block for `s`: compressed if that saves anything. */
  function BlockOf(compress: seq<byte> -> Option<seq<byte>>, s: seq<byte>): Block {
    match compress(s)
    case None => Raw(s)
    case Some(c) => Packed(c, s)
  }

  lemma BlockOfValid(compress: seq<byte> -> Option<seq<byte>>, s: seq<byte>, id: nat)
    requires Compresses(compress) && 4 <= id <= 7 && 0 < |s| <= BlockSize(id)
    ensures var b := BlockOf(compress, s); ValidBlockIn(b, BlockSize(id)) && b.data == s && |Payload(b)| <= |s|
  {
    hide BlockSize;
  }

  /** Every block is what the compressor makes of its data. */
  predicate Compressed(compress: seq<byte> -> Option<seq<byte>>, bs: seq<Block>) {
    forall b :: b in bs ==> b == BlockOf(compress, b.data)
  }

  /** How much data each block holds. */
  function DataSizes(bs: seq<Block>): seq<nat> {
    seq(|bs|, i requires 0 <= i < |bs| => |bs[i].data|)
  }

  function Repeated(n: nat, size: nat): seq<nat> {
    seq(n, _ => size)
  }

  /** What is left over of `total` bytes cut into full blocks. */
  function CutLeft(total: nat, size: nat): nat
    requires size > 0
  {
    total % size
  }

  /** The full blocks, and what is left over if it is not to wait. */
  function CutSizes(total: nat, size: nat, flush: bool): seq<nat>
    requires size > 0
  {
    Repeated(total / size, size) + if flush && CutLeft(total, size) > 0 then [CutLeft(total, size)] else []
  }

  lemma CutFlushed(total: nat, size: nat)
    requires size > 0
    ensures CutSizes(total, size, true)
         == CutSizes(total, size, false) + if CutLeft(total, size) > 0 then [CutLeft(total, size)] else []
  {
    hide Repeated;
  }

  lemma OneMoreBlock(compress: seq<byte> -> Option<seq<byte>>, bs: seq<Block>, piece: seq<byte>)
    requires Compressed(compress, bs)
    ensures Compressed(compress, bs + [BlockOf(compress, piece)])
    ensures DataSizes(bs + [BlockOf(compress, piece)]) == DataSizes(bs) + [|piece|]
  {
  }

  lemma SizesJoin(bs: seq<Block>, cs: seq<Block>)
    ensures DataSizes(bs + cs) == DataSizes(bs) + DataSizes(cs)
  {
  }

  lemma CompressedJoin(compress: seq<byte> -> Option<seq<byte>>, bs: seq<Block>, cs: seq<Block>)
    requires Compressed(compress, bs) && Compressed(compress, cs)
    ensures Compressed(compress, bs + cs)
  {
    hide BlockOf;
  }

  /** Bytes written at `dp`. */
  method Put(dst: array<byte>, dp: nat, s: seq<byte>)
    requires dp + |s| <= dst.Length
    modifies dst
    ensures dst[..dp + |s|] == old(dst[..dp]) + s
  {
    forall i | 0 <= i < |s| { dst[dp + i] := s[i]; }
  }

  /** LZ4F_makeBlock: one block with its size field and its optional checksum. */
  method MakeBlock(compress: seq<byte> -> Option<seq<byte>>, dst: array<byte>, dp0: nat, src: seq<byte>, crc: bool)
    returns (dp: nat)
    requires Compresses(compress) && 0 < |src| < UNCOMPRESSED_FLAG
    requires dp0 + BH_SIZE + |src| + (if crc then BF_SIZE else 0) <= dst.Length
    modifies dst
    ensures dp0 < dp <= dp0 + BH_SIZE + |src| + (if crc then BF_SIZE else 0)
    ensures dst[..dp] == old(dst[..dp0]) + BlockBytes(BlockOf(compress, src), crc)
  {
    hide LE, Checksum, ValidBlock, BlockBytes, BlockField, Compresses;
    ghost var b := BlockOf(compress, src);
    ShorterThan(compress, src);
    var c := compress(src);
    var payload: seq<byte>;
    if c.None? {
      payload := src;
      Put(dst, dp0, LE(|src| + UNCOMPRESSED_FLAG, 4));
    } else {
      payload := c.value;
      Put(dst, dp0, LE(|payload|, 4));
    }
    assert payload == Payload(b) && dst[..dp0 + BH_SIZE] == old(dst[..dp0]) + LE(BlockField(b), 4);
    Put(dst, dp0 + BH_SIZE, payload);
    dp := dp0 + BH_SIZE + |payload|;
    if crc {
      Put(dst, dp, LE(Checksum(payload), 4));
      dp := dp + BF_SIZE;
    }
    BlockLayout(old(dst[..dp0]), b, crc, dst[..dp]);
  }

  lemma ShorterThan(compress: seq<byte> -> Option<seq<byte>>, s: seq<byte>)
    requires Compresses(compress) && s != []
    ensures |Payload(BlockOf(compress, s))| <= |s|
    ensures BlockField(BlockOf(compress, s))
         == |Payload(BlockOf(compress, s))| + if compress(s).None? then UNCOMPRESSED_FLAG else 0
  {
  }

  lemma BlockLayout(front: seq<byte>, b: Block, crc: bool, whole: seq<byte>)
    requires whole == if crc then ((front + LE(BlockField(b), 4)) + Payload(b)) + LE(Checksum(Payload(b)), 4)
                      else (front + LE(BlockField(b), 4)) + Payload(b)
    ensures whole == front + BlockBytes(b, crc)
  {
    hide LE, Checksum, BlockField, Payload;
  }

  // ---------------------------------------------------------------- how many blocks fit the bound

  function Room(p: Prefs, count: nat, bytes: nat): nat {
    (BH_SIZE + CrcSize(p)) * count + bytes
  }

  lemma MulAtMost(c: nat, a: nat, b: nat)
    requires a <= b
    ensures c * a <= c * b
  {
  }

  lemma RoomGrows(p: Prefs, count: nat, a: nat, b: nat)
    ensures a <= b ==> Room(p, count, a) <= Room(p, count, b)
  {
  }

  lemma MulCancel(c: nat, a: nat, b: nat)
    requires c * a < c * b
    ensures a < b
  {
    if a >= b { MulAtMost(c, b, a); }
  }

  /** The bytes a call turns into blocks at most: whole blocks, and with flushing what is left over. */
  function Due(srcSize: nat, p: Prefs, buffered: nat): nat
    requires ValidPrefs(p)
  {
    var size := BlockSize(Normal(p.blockSizeID));
    var total := srcSize + buffered;
    if p.autoFlush || srcSize == 0 then total else total - total % size
  }

  /** The number of blocks they take. */
  function DueBlocks(srcSize: nat, p: Prefs, buffered: nat): nat
    requires ValidPrefs(p)
  {
    var size := BlockSize(Normal(p.blockSizeID));
    var total := srcSize + buffered;
    total / size + if (p.autoFlush || srcSize == 0) && total % size > 0 then 1 else 0
  }

  /** That number is a 32-bit number. */
  predicate Counted(srcSize: nat, p: Prefs, buffered: nat)
    requires ValidPrefs(p)
  {
    DueBlocks(srcSize, p, buffered) < TWO_32
  }

  /** The bytes a call leaves waiting for a block to fill up. */
  function Waiting(p: Prefs, buffered: nat, srcSize: nat): nat
    requires ValidPrefs(p)
  {
    if p.autoFlush then 0 else (buffered + srcSize) % BlockSize(Normal(p.blockSizeID))
  }

  lemma Quotient(total: nat, size: nat, count: nat)
    requires size >= 65536 && size * count <= total
    ensures count <= total / size
    ensures total - size * count < size ==> count == total / size && total % size == total - size * count
  {
    var q := total / size;
    assert total == size * q + total % size;
    assert size * (q + 1) == size * q + size;
    MulCancel(size, count, q + 1);
    if total - size * count < size {
      assert size * (count + 1) == size * count + size;
      MulCancel(size, q, count + 1);
    }
  }

  /** The counting of LZ4F_compressBound_internal on a number of whole blocks and a rest. */
  function Counting(p: Prefs, whole: nat, rest: nat, size: nat): nat {
    (BH_SIZE + CrcSize(p)) * ((whole + if rest > 0 then 1 else 0) % TWO_32) + size * whole + rest + FrameEnd(p)
  }

  /** It is right unless the rest makes the number of blocks 2^32. */
  lemma CountingIs(p: Prefs, whole: nat, rest: nat, size: nat)
    requires whole < TWO_32
    ensures var blocks := whole + if rest > 0 then 1 else 0;
            var need := Room(p, blocks, size * whole + rest) + FrameEnd(p);
            && Counting(p, whole, rest, size) <= need
            && (Counting(p, whole, rest, size) == need <==> blocks < TWO_32)
  {
    hide FrameEnd;
  }

  /** It is too little for a number of whole blocks cut to 32 bits. */
  lemma CountingLess(p: Prefs, whole: nat, rest: nat, size: nat, blocks: nat, bytes: nat)
    requires whole < TWO_32 <= blocks && rest < size && size * TWO_32 <= bytes
    ensures Counting(p, whole, rest, size) < Room(p, blocks, bytes) + FrameEnd(p)
  {
    hide FrameEnd, CrcSize;
    var counted := (whole + if rest > 0 then 1 else 0) % TWO_32;
    MulAtMost(size, whole + 1, TWO_32);
    assert size * (whole + 1) == size * whole + size;
    MulAtMost(BH_SIZE + CrcSize(p), counted, blocks);
  }

  /** Whole blocks and rest, as the bound counts them. */
  lemma BoundIsCounting(srcSize: nat, p: Prefs, buffered: nat)
    requires ValidPrefs(p) && buffered < BlockSize(Normal(p.blockSizeID))
    ensures var size := BlockSize(Normal(p.blockSizeID));
            var n := (srcSize + buffered) % TWO_64;
            && CompressBound(srcSize, p, buffered)
               == Counting(p, n / size % TWO_32, if p.autoFlush || srcSize == 0 then n % size else 0, size)
  {
    hide FrameEnd, BlockSize, CrcSize;
  }

  lemma DueIs(srcSize: nat, p: Prefs, buffered: nat)
    requires ValidPrefs(p)
    ensures var size := BlockSize(Normal(p.blockSizeID));
            var total := srcSize + buffered;
            var rest := if p.autoFlush || srcSize == 0 then total % size else 0;
            && Due(srcSize, p, buffered) == size * (total / size) + rest
            && DueBlocks(srcSize, p, buffered) == total / size + if rest > 0 then 1 else 0
  {
    hide BlockSize;
  }

  /** A size with fewer than 2^32 whole blocks is a 64-bit size. */
  lemma FewBlocks(total: nat, size: nat)
    requires 0 < size <= 4194304 && total / size < TWO_32
    ensures total < TWO_64
  {
    assert total == size * (total / size) + total % size;
    MulAtMost(total / size, size, 4194304);
  }

  lemma ManyBlocks(total: nat, size: nat)
    requires 0 < size && total / size >= TWO_32
    ensures size * TWO_32 <= size * (total / size)
  {
    MulAtMost(size, TWO_32, total / size);
  }

  lemma RestIs(total: nat, size: nat, count: nat, left: nat)
    requires total == size * count + left && left < size
    ensures total % size == left && total / size == count
  {
    assert size * (count + 1) == size * count + size;
    QuotientBelow(total, size, count);
    QuotientBelow(total, size, count + 1);
    assert total == size * (total / size) + total % size;
  }

  /** The published bound is what blocks that do not compress take, exactly if their number is a 32-bit
      number; otherwise it is less. */
  lemma BoundIs(srcSize: nat, p: Prefs, buffered: nat)
    requires ValidPrefs(p) && buffered < BlockSize(Normal(p.blockSizeID))
    ensures var need := Room(p, DueBlocks(srcSize, p, buffered), Due(srcSize, p, buffered)) + FrameEnd(p);
            && CompressBound(srcSize, p, buffered) <= need
            && (CompressBound(srcSize, p, buffered) == need <==> Counted(srcSize, p, buffered))
  {
    hide FrameEnd, BlockSize, CrcSize, CompressBound, Counting, Room, Due, DueBlocks;
    var size := BlockSize(Normal(p.blockSizeID));
    BlockSizes(Normal(p.blockSizeID));
    BoundIsCounting(srcSize, p, buffered);
    DueIs(srcSize, p, buffered);
    var total := srcSize + buffered;
    var n := total % TWO_64;
    var flush := p.autoFlush || srcSize == 0;
    if total / size < TWO_32 {
      FewBlocks(total, size);
      CountingIs(p, n / size % TWO_32, if flush then n % size else 0, size);
    } else {
      ManyBlocks(total, size);
      CountingLess(p, n / size % TWO_32, if flush then n % size else 0, size,
                   DueBlocks(srcSize, p, buffered), Due(srcSize, p, buffered));
    }
  }

  lemma QuotientBelow(n: nat, size: nat, limit: nat)
    requires 0 < size
    ensures n / size < limit <==> n < size * limit
  {
    var q := n / size;
    assert n == size * q + n % size && size * (q + 1) == size * q + size;
    if q < limit { MulAtMost(size, q + 1, limit); } else { MulAtMost(size, limit, q); }
  }

  lemma RestBelow(n: nat, size: nat, limit: nat)
    requires 0 < size
    ensures n / size + (if n % size > 0 then 1 else 0) <= limit <==> n <= size * limit
  {
    QuotientBelow(n, size, limit);
    var q := n / size;
    assert n == size * q + n % size;
    if q == limit { assert n == size * limit + n % size; }
    else if q > limit {
      MulAtMost(size, limit + 1, q);
      assert size * (limit + 1) == size * limit + size;
    }
  }

  /** Where that ends, for every block size. */
  lemma CountedUpTo(srcSize: nat, p: Prefs)
    requires ValidPrefs(p)
    ensures Counted(srcSize, p, 0) <==>
              if p.autoFlush then srcSize <= BlockSize(Normal(p.blockSizeID)) * (TWO_32 - 1)
              else srcSize < BlockSize(Normal(p.blockSizeID)) * TWO_32
  {
    hide BlockSize, DueBlocks;
    var size := BlockSize(Normal(p.blockSizeID));
    BlockSizes(Normal(p.blockSizeID));
    DueIs(srcSize, p, 0);
    QuotientBelow(srcSize, size, TWO_32);
    RestBelow(srcSize, size, TWO_32 - 1);
  }

  /** With 64 KB blocks flushed it ends at 2^48 - 65536 bytes: one more and no block header is counted, and
      at 2^48 not even the bytes are. */
  lemma BoundWraps(p: Prefs)
    requires p == Prefs(false, false, 0, 0, 4, true)
    ensures ValidPrefs(p)
    ensures CompressBound(0xFFFF_FFFF_0001, p, 0) == 0xFFFF_FFFF_0001 + FrameEnd(p)
    ensures CompressBound(0x1_0000_0000_0000, p, 0) == FrameEnd(p)
  {
    Ranges();
    assert 0x1_0000_0000_0000 / 65536 == TWO_32;
    assert 0xFFFF_FFFF_0001 / 65536 == TWO_32 - 1 && 0xFFFF_FFFF_0001 % 65536 == 1;
  }

  /** While a full block is in the data, there is room for it. */
  lemma FullBlockRoom(p: Prefs, srcSize: nat, buffered: nat, count: nat)
    requires ValidPrefs(p) && buffered < BlockSize(Normal(p.blockSizeID)) && Counted(srcSize, p, buffered)
    requires BlockSize(Normal(p.blockSizeID)) * count <= srcSize + buffered
    ensures Room(p, count, BlockSize(Normal(p.blockSizeID)) * count) + FrameEnd(p) <= CompressBound(srcSize, p, buffered)
  {
    hide FrameEnd, BlockSize, CrcSize, CompressBound;
    BoundIs(srcSize, p, buffered);
    var size := BlockSize(Normal(p.blockSizeID));
    BlockSizes(Normal(p.blockSizeID));
    Quotient(srcSize + buffered, size, count);
    DueIs(srcSize, p, buffered);
    MulAtMost(BH_SIZE + CrcSize(p), count, DueBlocks(srcSize, p, buffered));
    MulAtMost(size, count, (srcSize + buffered) / size);
  }

  /** With flushing there is room for what remains as well. */
  lemma LastBlockRoom(p: Prefs, srcSize: nat, buffered: nat, count: nat, left: nat)
    requires ValidPrefs(p) && buffered < BlockSize(Normal(p.blockSizeID)) && Counted(srcSize, p, buffered)
    requires p.autoFlush || srcSize == 0
    requires BlockSize(Normal(p.blockSizeID)) * count + left == srcSize + buffered
    requires 0 < left < BlockSize(Normal(p.blockSizeID))
    ensures Room(p, count + 1, srcSize + buffered) + FrameEnd(p) <= CompressBound(srcSize, p, buffered)
  {
    hide FrameEnd, BlockSize, CrcSize, CompressBound;
    BoundIs(srcSize, p, buffered);
    BlockSizes(Normal(p.blockSizeID));
    Quotient(srcSize + buffered, BlockSize(Normal(p.blockSizeID)), count);
  }

  /** Flush and end mark take what the bound for an empty source says. */
  lemma EndBound(p: Prefs, buffered: nat)
    requires ValidPrefs(p) && buffered < BlockSize(Normal(p.blockSizeID))
    ensures CompressBound(0, p, buffered)
         == (if buffered > 0 then BH_SIZE + CrcSize(p) + buffered else 0) + FrameEnd(p)
  {
    hide FrameEnd, CrcSize;
    BlockSizes(Normal(p.blockSizeID));
  }

  // ---------------------------------------------------------------- the encoder

  /** The descriptor, field by field. */
  method WriteHeader(dst: array<byte>, h: Header) returns (dp: nat)
    requires 4 <= h.blockSizeID <= 7 && MAX_HEADER <= dst.Length
    modifies dst
    ensures dp == HeaderSize(h) && dst[..dp] == HeaderBytes(h)
  {
    hide LE, Flags, HeaderChecksum;
    Put(dst, 0, LE(MAGIC, 4));
    assert dst[..0] == [];
    dp := 4;
    Put(dst, dp, [Flags(h), h.blockSizeID * 16]);
    dp := dp + 2;
    if h.size.Some? {
      Put(dst, dp, LE(h.size.value, 8));
      dp := dp + 8;
    }
    if h.dictID.Some? {
      Put(dst, dp, LE(h.dictID.value, 4));
      dp := dp + 4;
    }
    assert dst[..dp] == LE(MAGIC, 4) + Descriptor(h);
    assert dst[4..dp] == dst[..dp][4..] == Descriptor(h);
    Put(dst, dp, [HeaderChecksum(dst[4..dp])]);
    dp := dp + 1;
  }

  class CCtx {
    const compress: seq<byte> -> Option<seq<byte>>
    var prefs: Prefs
    var cStage: nat
    var maxBlockSize: nat
    var maxBufferSize: nat
    var tmpIn: array<byte>
    var tmpInSize: nat
    var totalInSize: nat
    var xxh: seq<byte>

    constructor (compress: seq<byte> -> Option<seq<byte>>)
      ensures this.compress == compress && cStage == 0 && tmpInSize == 0 && maxBufferSize == 0
      ensures fresh(this) && fresh(tmpIn) && tmpIn.Length == 0
    {
      this.compress := compress;
      prefs := Prefs(false, false, 0, 0, 0, false);
      cStage, maxBlockSize, maxBufferSize, tmpInSize, totalInSize, xxh := 0, 0, 0, 0, 0, [];
      tmpIn := new byte[0];
    }

    /** The preferences are in force and the buffer can hold what they ask for. */
    ghost predicate Prepared()
      reads this
    {
      && Compresses(compress) && ValidPrefs(prefs) && prefs.blockSizeID != 0
      && maxBlockSize == BlockSize(prefs.blockSizeID)
      && tmpInSize < maxBlockSize
      && (if prefs.autoFlush then tmpInSize == 0 else maxBlockSize <= tmpIn.Length)
    }

    /** A frame is under way: its blocks `bs`, then the bytes waiting in `tmpIn`, are the input so far. */
    ghost predicate Holds(bs: seq<Block>, input: seq<byte>)
      reads this, tmpIn
    {
      && cStage == 1 && Prepared() && tmpInSize <= tmpIn.Length
      && ValidBlocks(bs, maxBlockSize)
      && Content(bs) + tmpIn[..tmpInSize] == input
      && (prefs.contentChecksum ==> xxh == input)
      && (prefs.contentSize > 0 ==> totalInSize == |input| % TWO_64)
    }

    /** The first `dp` bytes of `dst` are blocks of `data`. */
    ghost predicate Made(dst: array<byte>, dp: nat, more: seq<Block>, data: seq<byte>)
      reads `prefs, `maxBlockSize, dst
    {
      && dp <= dst.Length && dst[..dp] == BlocksBytes(more, prefs.blockChecksum) && Compressed(compress, more)
      && Content(more) == data && ValidBlocks(more, maxBlockSize)
      && dp <= Room(prefs, |more|, |data|)
    }

    /** One more block. */
    method Emit(dst: array<byte>, dp0: nat, piece: seq<byte>, ghost more: seq<Block>, ghost data: seq<byte>)
      returns (dp: nat)
      requires Prepared() && Made(dst, dp0, more, data) && 0 < |piece| <= maxBlockSize
      requires Room(prefs, |more| + 1, |data| + |piece|) <= dst.Length
      modifies dst
      ensures Made(dst, dp, more + [BlockOf(compress, piece)], data + piece)
      ensures DataSizes(more + [BlockOf(compress, piece)]) == DataSizes(more) + [|piece|]
    {
      hide BlockSize, BlocksBytes, Content, Compresses, BlockBytes, BlockOf;
      BlockSizes(prefs.blockSizeID);
      OneMoreBlock(compress, more, piece);
      dp := MakeBlock(compress, dst, dp0, piece, prefs.blockChecksum);
      BlocksSnoc(more, BlockOf(compress, piece), prefs.blockChecksum);
      BlockOfValid(compress, piece, prefs.blockSizeID);
    }

    /** The input `all` of a call, blocks of `tmpIn` first, has been turned into full blocks up to `src[sp..]`. */
    ghost predicate Loose(dst: array<byte>, dp: nat, src: seq<byte>, sp: nat, more: seq<Block>, all: seq<byte>)
      reads `prefs, `maxBlockSize, `tmpInSize, dst
    {
      && tmpInSize == 0 && sp <= |src| && maxBlockSize * |more| <= |all|
      && Made(dst, dp, more, all[..maxBlockSize * |more|])
      && all[maxBlockSize * |more|..] == src[sp..]
      && DataSizes(more) == Repeated(|more|, maxBlockSize)
    }

    /** All of it fitted behind the bytes waiting in `tmpIn`. */
    ghost predicate Absorbed(dp: nat, src: seq<byte>, sp: nat, more: seq<Block>, all: seq<byte>)
      reads `tmpInSize, `tmpIn, tmpIn
    {
      && sp == |src| && more == [] && dp == 0
      && 0 < tmpInSize <= tmpIn.Length && tmpIn[..tmpInSize] == all
    }

    /** Add to the bytes waiting; if that completes a block, emit it. */
    method CompleteTmp(dst: array<byte>, src: seq<byte>, ghost all: seq<byte>)
      returns (dp: nat, sp: nat, ghost more: seq<Block>)
      requires Prepared() && tmpInSize <= tmpIn.Length && all == tmpIn[..tmpInSize] + src && dst != tmpIn
      requires |all| >= maxBlockSize ==> Room(prefs, 1, maxBlockSize) <= dst.Length
      modifies `tmpInSize, tmpIn, dst
      ensures Prepared()
      ensures Loose(dst, dp, src, sp, more, all) || Absorbed(dp, src, sp, more, all)
    {
      hide BlockSize, BlocksBytes, Compresses, Room, Made;
      dp, sp, more := 0, 0, [];
      NothingMade(dst);
      if tmpInSize > 0 {
        var sizeToCopy := maxBlockSize - tmpInSize;
        if sizeToCopy > |src| {
          Put(tmpIn, tmpInSize, src);
          tmpInSize, sp := tmpInSize + |src|, |src|;
        } else {
          ghost var had := tmpIn[..tmpInSize];
          sp := sizeToCopy;
          Put(tmpIn, tmpInSize, src[..sp]);
          assert tmpIn[..maxBlockSize] == had + src[..sp] == all[..maxBlockSize];
          dp := Emit(dst, 0, tmpIn[..maxBlockSize], [], []);
          more := [BlockOf(compress, all[..maxBlockSize])];
          assert [] + more == more && [] + all[..maxBlockSize] == all[..maxBlockSize];
          tmpInSize := 0;
        }
      } else {
        assert all == src && all[..0] == [];
      }
    }

    lemma NothingMade(dst: array<byte>)
      ensures Made(dst, 0, [], [])
    {
      assert dst[..0] == [];
    }

    /** A destination of `length` bytes meets the bound for `total` bytes, `buffered` of them in `tmpIn`. */
    ghost predicate Enough(length: nat, srcSize: nat, total: nat, buffered: nat)
      requires ValidPrefs(prefs)
      reads this
    {
      && total == srcSize + buffered && buffered < BlockSize(Normal(prefs.blockSizeID))
      && Counted(srcSize, prefs, buffered) && length >= CompressBound(srcSize, prefs, buffered)
    }

    lemma MadeFits(dst: array<byte>, dp: nat, more: seq<Block>, data: seq<byte>)
      requires Made(dst, dp, more, data)
      ensures dp <= Room(prefs, |more|, |data|)
    {
    }

    /** Full blocks straight from the source. */
    method FullBlocks(dst: array<byte>, dp0: nat, src: seq<byte>, sp0: nat, ghost more0: seq<Block>, ghost all: seq<byte>,
                      ghost buffered: nat)
      returns (dp: nat, sp: nat, ghost more: seq<Block>)
      requires Prepared() && (Loose(dst, dp0, src, sp0, more0, all) || Absorbed(dp0, src, sp0, more0, all)) && dst != tmpIn
      requires Enough(dst.Length, |src|, |all|, buffered)
      modifies dst
      ensures Loose(dst, dp, src, sp, more, all) || Absorbed(dp, src, sp, more, all)
      ensures |src| - sp < maxBlockSize
    {
      hide BlockSize, BlocksBytes, Compresses, Room, Made, CompressBound, FrameEnd;
      dp, sp, more := dp0, sp0, more0;
      while |src| - sp >= maxBlockSize
        invariant Loose(dst, dp, src, sp, more, all) || Absorbed(dp, src, sp, more, all)
        decreases |src| - sp
      {
        ghost var n := maxBlockSize * |more|;
        ghost var piece := src[sp..sp + maxBlockSize];
        assert maxBlockSize * (|more| + 1) == n + maxBlockSize;
        FullBlockRoom(prefs, |src|, buffered, |more| + 1);
        assert piece == all[n..][..maxBlockSize] && all[..n] + piece == all[..n + maxBlockSize];
        assert src[sp + maxBlockSize..] == all[n..][maxBlockSize..] == all[n + maxBlockSize..];
        dp := Emit(dst, dp, src[sp..sp + maxBlockSize], more, all[..n]);
        more := more + [BlockOf(compress, piece)];
        sp := sp + maxBlockSize;
      }
    }

    /** With automatic flushing, a last block for what is left of the source. */
    method LastBlock(dst: array<byte>, dp0: nat, src: seq<byte>, sp: nat, ghost more0: seq<Block>, ghost all: seq<byte>)
      returns (dp: nat, ghost more: seq<Block>)
      requires Prepared() && Loose(dst, dp0, src, sp, more0, all) && 0 < |src| - sp < maxBlockSize
      requires Room(prefs, |more0| + 1, |all|) <= dst.Length
      modifies dst
      ensures Made(dst, dp, more, all) && |more| == |more0| + 1 && DataSizes(more) == DataSizes(more0) + [|src| - sp]
    {
      hide BlockSize, BlocksBytes, Compresses, Room, Made;
      assert all[..maxBlockSize * |more0|] + src[sp..] == all;
      dp := Emit(dst, dp0, src[sp..], more0, all[..maxBlockSize * |more0|]);
      more := more0 + [BlockOf(compress, src[sp..])];
    }

    /** The blocks of a call and what it leaves waiting make up its input. */
    ghost predicate Settled(dst: array<byte>, dp: nat, more: seq<Block>, all: seq<byte>)
      reads `prefs, `maxBlockSize, `tmpInSize, `tmpIn, tmpIn, dst
    {
      && tmpInSize <= tmpIn.Length && tmpInSize <= |all|
      && Made(dst, dp, more, all[..|all| - tmpInSize]) && tmpIn[..tmpInSize] == all[|all| - tmpInSize..]
      && maxBlockSize > 0 && DataSizes(more) == CutSizes(|all|, maxBlockSize, prefs.autoFlush)
    }

    /** What the full blocks leave is either waiting already or still in the source. */
    lemma Nearly(dst: array<byte>, dp: nat, src: seq<byte>, sp: nat, more: seq<Block>, all: seq<byte>)
      requires Loose(dst, dp, src, sp, more, all) || Absorbed(dp, src, sp, more, all)
      ensures |src| - sp + tmpInSize <= |all| && sp <= |src| && (sp < |src| ==> tmpInSize == 0)
      ensures Made(dst, dp, more, all[..|all| - (|src| - sp) - tmpInSize])
      ensures all[|all| - (|src| - sp) - tmpInSize..] == if tmpInSize == 0 then src[sp..] else tmpIn[..tmpInSize]
    {
      hide DataSizes, Repeated, BlocksBytes, ValidBlocks, Content, Compressed;
      NothingMade(dst);
      assert all[..0] == [];
    }

    /** What the full blocks leave is the remainder by the block size. */
    lemma LeftOver(dst: array<byte>, dp: nat, src: seq<byte>, sp: nat, more: seq<Block>, all: seq<byte>, buffered: nat)
      requires Prepared() && (Loose(dst, dp, src, sp, more, all) || Absorbed(dp, src, sp, more, all))
      requires |src| - sp < maxBlockSize && |all| == |src| + buffered
      ensures prefs.autoFlush ==> tmpInSize == 0 == Waiting(prefs, buffered, |src|)
      ensures !prefs.autoFlush ==> |src| - sp + tmpInSize == Waiting(prefs, buffered, |src|)
    {
      hide BlockSize, Compresses, Loose, Made, ValidPrefs;
      if Loose(dst, dp, src, sp, more, all) {
        LooseSize(dst, dp, src, sp, more, all);
        RestIs(|all|, maxBlockSize, |more|, |src| - sp);
      } else {
        RestIs(|all|, maxBlockSize, 0, tmpInSize);
      }
    }

    /** And there are as many of them as go. */
    lemma AllFull(dst: array<byte>, dp: nat, src: seq<byte>, sp: nat, more: seq<Block>, all: seq<byte>)
      requires 0 < maxBlockSize && tmpInSize < maxBlockSize && |src| - sp < maxBlockSize
      requires Loose(dst, dp, src, sp, more, all) || Absorbed(dp, src, sp, more, all)
      ensures |src| - sp + tmpInSize == CutLeft(|all|, maxBlockSize)
      ensures DataSizes(more) == CutSizes(|all|, maxBlockSize, false)
    {
      hide Loose, Made;
      if Loose(dst, dp, src, sp, more, all) {
        LooseSize(dst, dp, src, sp, more, all);
        RestIs(|all|, maxBlockSize, |more|, |src| - sp);
      } else {
        RestIs(|all|, maxBlockSize, 0, tmpInSize);
        assert DataSizes(more) == [] == Repeated(0, maxBlockSize);
      }
      assert Repeated(|all| / maxBlockSize, maxBlockSize) + [] == Repeated(|all| / maxBlockSize, maxBlockSize);
    }

    lemma LooseSize(dst: array<byte>, dp: nat, src: seq<byte>, sp: nat, more: seq<Block>, all: seq<byte>)
      requires Loose(dst, dp, src, sp, more, all)
      ensures sp <= |src| && |all| == maxBlockSize * |more| + (|src| - sp) && tmpInSize == 0
      ensures DataSizes(more) == Repeated(|more|, maxBlockSize)
    {
      hide Made;
    }

    /** What is left after the full blocks: flushed as a last block, or kept waiting. */
    method Remainder(dst: array<byte>, dp0: nat, src: seq<byte>, sp0: nat, ghost more0: seq<Block>, ghost all: seq<byte>,
                     ghost buffered: nat)
      returns (dp: nat, ghost more: seq<Block>)
      requires Prepared() && (Loose(dst, dp0, src, sp0, more0, all) || Absorbed(dp0, src, sp0, more0, all)) && dst != tmpIn
      requires |src| - sp0 < maxBlockSize && Enough(dst.Length, |src|, |all|, buffered)
      modifies `tmpInSize, tmpIn, dst
      ensures Prepared() && Settled(dst, dp, more, all)
      ensures tmpInSize == Waiting(prefs, buffered, |src|)
      ensures dp + FrameEnd(prefs) <= CompressBound(|src|, prefs, buffered)
    {
      hide BlockSize, BlocksBytes, Compresses, Room, Made, CompressBound, FrameEnd, Waiting, CutSizes, CutLeft, DataSizes;
      dp, more := dp0, more0;
      var sp := sp0;
      FullBlockRoom(prefs, |src|, buffered, |more|);
      Nearly(dst, dp, src, sp, more, all);
      LeftOver(dst, dp, src, sp, more, all, buffered);
      AllFull(dst, dp, src, sp, more, all);
      CutFlushed(|all|, maxBlockSize);
      MadeFits(dst, dp, more, all[..|all| - (|src| - sp) - tmpInSize]);
      RoomGrows(prefs, |more|, |all| - (|src| - sp) - tmpInSize, maxBlockSize * |more|);
      if prefs.autoFlush && sp < |src| {
        LastBlockRoom(prefs, |src|, buffered, |more|, |src| - sp);
        dp, more := LastBlock(dst, dp, src, sp, more, all);
        sp := |src|;
        assert all[..|all|] == all && all[|all|..] == [] == tmpIn[..0];
        MadeFits(dst, dp, more, all);
      }
      if sp < |src| {
        Put(tmpIn, 0, src[sp..]);
        tmpInSize := |src| - sp;
        assert tmpIn[..tmpInSize] == src[sp..];
      }
    }

    /** The blocks of one update, and the bytes left waiting. */
    method EmitAll(dst: array<byte>, src: seq<byte>, ghost all: seq<byte>) returns (dp: nat, ghost more: seq<Block>)
      requires Prepared() && tmpInSize <= tmpIn.Length && all == tmpIn[..tmpInSize] + src && dst != tmpIn
      requires Counted(|src|, prefs, tmpInSize) && dst.Length >= CompressBound(|src|, prefs, tmpInSize)
      modifies `tmpInSize, tmpIn, dst
      ensures Prepared() && Settled(dst, dp, more, all)
      ensures tmpInSize == Waiting(prefs, old(tmpInSize), |src|)
      ensures dp + FrameEnd(prefs) <= CompressBound(|src|, prefs, old(tmpInSize))
    {
      hide BlockSize, Compresses, Room, Made, CompressBound, FrameEnd, Settled, Loose, Absorbed, Waiting;
      ghost var buffered := tmpInSize;
      if |all| >= maxBlockSize { FullBlockRoom(prefs, |src|, buffered, 1); }
      var sp;
      dp, sp, more := CompleteTmp(dst, src, all);
      dp, sp, more := FullBlocks(dst, dp, src, sp, more, all, buffered);
      dp, more := Remainder(dst, dp, src, sp, more, all, buffered);
    }

    /** LZ4F_compressUpdate: the new blocks and the bytes left waiting are the bytes that were waiting and `src`. */
    method Update(dst: array<byte>, src: seq<byte>, ghost bs: seq<Block>, ghost input: seq<byte>)
      returns (r: Result, ghost more: seq<Block>)
      requires cStage == 1 ==> Holds(bs, input) && Counted(|src|, prefs, tmpInSize)
      requires dst != tmpIn
      modifies `tmpInSize, `totalInSize, `xxh, tmpIn, dst
      ensures r.Size? || r == Error(Generic) || r == Error(DstMaxSizeTooSmall)
      ensures r == Error(Generic) <==> cStage != 1
      ensures cStage == 1 ==> (r == Error(DstMaxSizeTooSmall) <==> dst.Length < CompressBound(|src|, prefs, old(tmpInSize)))
      ensures r.Error? ==> more == [] && unchanged(this) && unchanged(tmpIn) && unchanged(dst)
      ensures r.Size? ==> r.size <= dst.Length && dst[..r.size] == BlocksBytes(more, prefs.blockChecksum)
      ensures r.Size? ==> Holds(bs + more, input + src)
      ensures r.Size? ==> tmpInSize == Waiting(prefs, old(tmpInSize), |src|)
      ensures r.Size? ==> Compressed(compress, more) && maxBlockSize > 0
      ensures r.Size? ==> DataSizes(more) == CutSizes(old(tmpInSize) + |src|, maxBlockSize, prefs.autoFlush)
      ensures r.Size? ==> r.size + FrameEnd(prefs) <= CompressBound(|src|, prefs, old(tmpInSize))
    {
      hide BlockSize, BlocksBytes, Compresses, CompressBound, FrameEnd, Content, ValidBlocks, ValidPrefs, Settled, ValidBlockIn, Waiting;
      more := [];
      if cStage != 1 { return Error(Generic), more; }
      PreparedPrefs();
      if dst.Length < CompressBound(|src|, prefs, tmpInSize) { return Error(DstMaxSizeTooSmall), more; }
      ghost var had := tmpIn[..tmpInSize];
      var dp;
      dp, more := EmitAll(dst, src, had + src);
      if prefs.contentChecksum { xxh := xxh + src; }
      SumWraps(|input|, |src|);
      totalInSize := (totalInSize + |src|) % TWO_64;
      Moves(dst, dp, more, had, src, bs, input);
      r := Size(dp);
    }

    lemma Moves(dst: array<byte>, dp: nat, more: seq<Block>, had: seq<byte>, src: seq<byte>, bs: seq<Block>,
                input: seq<byte>)
      requires cStage == 1 && Prepared() && Settled(dst, dp, more, had + src)
      requires ValidBlocks(bs, maxBlockSize) && input == Content(bs) + had
      requires prefs.contentChecksum ==> xxh == input + src
      requires prefs.contentSize > 0 ==> totalInSize == |input + src| % TWO_64
      ensures Holds(bs + more, input + src)
      ensures dp <= dst.Length && dst[..dp] == BlocksBytes(more, prefs.blockChecksum)
      ensures Compressed(compress, more) && maxBlockSize > 0
      ensures DataSizes(more) == CutSizes(|had + src|, maxBlockSize, prefs.autoFlush)
    {
      hide BlockSize, BlocksBytes, Compresses, Content, ValidBlocks, ValidPrefs, Made;
      var all := had + src;
      MadeIs(dst, dp, more, all[..|all| - tmpInSize]);
      BlocksJoin(bs, more, prefs.blockChecksum);
      ValidJoin(bs, more, maxBlockSize);
      Together(Content(bs), all[..|all| - tmpInSize], tmpIn[..tmpInSize], all);
      assert input + src == Content(bs) + all;
    }

    lemma PreparedPrefs()
      requires Prepared()
      ensures ValidPrefs(prefs)
    {
    }

    /** LZ4F_flush: a block for the bytes waiting, if there are any. */
    method Flush(dst: array<byte>, ghost bs: seq<Block>, ghost input: seq<byte>)
      returns (r: Result, ghost more: seq<Block>)
      requires cStage == 1 ==> Holds(bs, input)
      requires dst != tmpIn
      modifies `tmpInSize, dst
      ensures r.Size? || r == Error(Generic) || r == Error(DstMaxSizeTooSmall)
      ensures tmpInSize == 0 || r.Error?
      ensures r == Error(Generic) <==> cStage != 1 && old(tmpInSize) > 0
      ensures cStage == 1 && old(tmpInSize) > 0 ==>
                (r == Error(DstMaxSizeTooSmall) <==> dst.Length < old(tmpInSize) + BH_SIZE + BF_SIZE)
      ensures r.Error? ==> more == [] && unchanged(this) && unchanged(dst)
      ensures old(tmpInSize) == 0 ==> r == Size(0) && more == []
      ensures r.Size? ==> r.size <= dst.Length && dst[..r.size] == BlocksBytes(more, prefs.blockChecksum)
      ensures r.Size? && cStage == 1 ==> Holds(bs + more, input)
      ensures r.Size? ==> Compressed(compress, more) && DataSizes(more) == if old(tmpInSize) > 0 then [old(tmpInSize)] else []
      ensures r.Size? && r.size > 0 ==> r.size <= BH_SIZE + old(tmpInSize) + CrcSize(prefs)
    {
      hide BlockSize, BlocksBytes, Compresses, Content, ValidBlocks, BlockBytes;
      more := [];
      if tmpInSize == 0 {
        NothingMade(dst);
        MadeIs(dst, 0, [], []);
        assert bs + [] == bs;
        return Size(0), more;
      }
      if cStage != 1 { return Error(Generic), more; }
      if dst.Length < tmpInSize + BH_SIZE + BF_SIZE { return Error(DstMaxSizeTooSmall), more; }
      ghost var piece := tmpIn[..tmpInSize];
      NothingMade(dst);
      var dp := Emit(dst, 0, tmpIn[..tmpInSize], [], []);
      more := [] + [BlockOf(compress, piece)];
      MadeIs(dst, dp, more, [] + piece);
      BlocksJoin(bs, more, prefs.blockChecksum);
      ValidJoin(bs, more, maxBlockSize);
      tmpInSize := 0;
      assert [] + piece == piece && tmpIn[..0] == [];
      assert (Content(bs) + piece) + [] == Content(bs) + piece;
      r := Size(dp);
    }

    lemma MadeIs(dst: array<byte>, dp: nat, more: seq<Block>, data: seq<byte>)
      requires Made(dst, dp, more, data)
      ensures dp <= dst.Length && dst[..dp] == BlocksBytes(more, prefs.blockChecksum)
      ensures Content(more) == data && ValidBlocks(more, maxBlockSize) && Compressed(compress, more)
      ensures |more| == 1 ==> dp <= BH_SIZE + CrcSize(prefs) + |data|
    {
      hide BlocksBytes, Content, ValidBlocks, Compressed;
    }

    /** LZ4F_compressBegin: the preferences come into force and the descriptor is written. */
    method Begin(dst: array<byte>, p: Prefs) returns (r: Result)
      requires ValidPrefs(p) && Compresses(compress) && maxBufferSize <= tmpIn.Length && dst != tmpIn
      modifies this, dst
      ensures r == Error(DstMaxSizeTooSmall) <==> dst.Length < MAX_HEADER
      ensures r.Error? ==> r.error == DstMaxSizeTooSmall && unchanged(this) && unchanged(dst)
      ensures tmpIn == old(tmpIn) || fresh(tmpIn)
      ensures r.Size? ==> maxBufferSize <= tmpIn.Length && prefs == p.(blockSizeID := Normal(p.blockSizeID))
      ensures r.Size? ==> Holds([], [])
      ensures r.Size? ==> r.size == HeaderSize(HeaderOf(p)) && dst[..r.size] == HeaderBytes(HeaderOf(p))
    {
      hide Compresses, Range, HeaderBytes, Holds;
      if dst.Length < MAX_HEADER { return Error(DstMaxSizeTooSmall); }
      Prepare(p);
      var size := WriteHeader(dst, HeaderOf(prefs));
      cStage := 1;
      Started();
      r := Size(size);
    }

    /** The preferences come into force, with an empty buffer large enough for them. */
    method Prepare(p: Prefs)
      requires ValidPrefs(p) && Compresses(compress) && maxBufferSize <= tmpIn.Length
      modifies this
      ensures tmpIn == old(tmpIn) || fresh(tmpIn)
      ensures maxBufferSize <= tmpIn.Length && prefs == p.(blockSizeID := Normal(p.blockSizeID))
      ensures Prepared() && tmpInSize == 0 && xxh == [] && (prefs.contentSize > 0 ==> totalInSize == 0)
    {
      hide Compresses, Range;
      prefs := p;
      if prefs.blockSizeID == 0 { prefs := prefs.(blockSizeID := 4); }
      maxBlockSize := BlockSize(prefs.blockSizeID);
      BlockSizes(prefs.blockSizeID);
      var required := if p.autoFlush then 0 else maxBlockSize;
      if maxBufferSize < required {
        maxBufferSize := 0;
        tmpIn := new byte[required];
        maxBufferSize := required;
      }
      tmpInSize, xxh := 0, [];
      if prefs.contentSize > 0 { totalInSize := 0; }
    }

    lemma Started()
      requires cStage == 1 && Prepared() && tmpInSize == 0 && xxh == []
      requires prefs.contentSize > 0 ==> totalInSize == 0
      ensures Holds([], [])
    {
      hide Prepared, Compresses;
      assert tmpIn[..0] == [] && [] + tmpIn[..0] == [];
    }

    /** LZ4F_compressEnd: the last block, the end mark and the optional checksum. */
    method End(dst: array<byte>, ghost bs: seq<Block>, ghost input: seq<byte>) returns (r: Result, ghost more: seq<Block>)
      requires Holds(bs, input) && dst != tmpIn
      modifies `tmpInSize, `cStage, `maxBufferSize, dst
      ensures dst.Length >= CompressBound(0, prefs, old(tmpInSize)) ==> r != Error(DstMaxSizeTooSmall)
      ensures r == Error(FrameSizeWrong) ==> prefs.contentSize > 0 && prefs.contentSize != |input| % TWO_64
      ensures r.Size? || r == Error(FrameSizeWrong) || r == Error(DstMaxSizeTooSmall)
      ensures r.Size? ==> cStage == 0 && tmpInSize == 0 && maxBufferSize == 0
      ensures r.Size? ==> Content(bs + more) == input && ValidBlocks(bs + more, maxBlockSize)
      ensures r.Size? ==> Compressed(compress, more) && DataSizes(more) == if old(tmpInSize) > 0 then [old(tmpInSize)] else []
      ensures r.Size? ==> prefs.contentSize > 0 ==> prefs.contentSize == |input| % TWO_64
      ensures r.Size? ==> r.size <= dst.Length && r.size <= CompressBound(0, prefs, old(tmpInSize))
      ensures r.Size? ==> dst[..r.size] == BlocksBytes(more, prefs.blockChecksum) + Suffix(HeaderOf(prefs), input)
    {
      hide BlockSize, BlocksBytes, Compresses, CompressBound, Content, ValidBlocks, LE, Checksum;
      PreparedPrefs();
      EndBound(prefs, tmpInSize);
      r, more := Flush(dst, bs, input);
      if r.Error? { return; }
      var capacity := dst.Length - r.size;
      if capacity < 4 { return Error(DstMaxSizeTooSmall), more; }
      var size := r.size + 4;
      ghost var front := dst[..r.size];
      Put(dst, r.size, LE(0, 4));
      if prefs.contentChecksum {
        if capacity < 8 { return Error(DstMaxSizeTooSmall), more; }
        Put(dst, size, LE(Checksum(xxh), 4));
        size := size + 4;
      }
      Ended(front, input, dst[..size]);
      NothingWaits(bs + more, input);
      cStage, maxBufferSize := 0, 0;
      if prefs.contentSize > 0 && prefs.contentSize != totalInSize { return Error(FrameSizeWrong), more; }
      r := Size(size);
    }

    lemma NothingWaits(bs: seq<Block>, input: seq<byte>)
      requires Holds(bs, input) && tmpInSize == 0
      ensures Content(bs) == input && ValidBlocks(bs, maxBlockSize)
    {
      hide Content, ValidBlocks, Prepared;
      assert Content(bs) + tmpIn[..0] == Content(bs);
    }

    lemma Ended(front: seq<byte>, input: seq<byte>, whole: seq<byte>)
      requires whole == if prefs.contentChecksum then (front + LE(0, 4)) + LE(Checksum(input), 4) else front + LE(0, 4)
      ensures whole == front + Suffix(HeaderOf(prefs), input)
    {
      hide LE, Checksum;
      assert LE(0, 4) + [] == LE(0, 4);
    }
  }

  lemma SumWraps(a: nat, b: nat)
    ensures (a % TWO_64 + b) % TWO_64 == (a + b) % TWO_64
  {
  }

  lemma ValidJoin(bs: seq<Block>, cs: seq<Block>, max: nat)
    requires ValidBlocks(bs, max) && ValidBlocks(cs, max)
    ensures ValidBlocks(bs + cs, max)
  {
    hide ValidBlockIn;
  }

  lemma Together(a: seq<byte>, b: seq<byte>, c: seq<byte>, all: seq<byte>)
    requires all == b + c
    ensures (a + b) + c == a + all
  {
  }

  lemma BlockSizes(id: nat)
    requires 4 <= id <= 7
    ensures 65536 <= BlockSize(id) <= 4194304
  {
  }
}
