/** What a frame still holds at each point of its decoding: the bytes to come and the output owed. */
module FrameAhead {
  import opened Lz4Format
  import opened FrameFormat
  import opened FrameHeader

  /** A point inside a frame. `bs` are the blocks that follow. */
  datatype Ahead =
    | Whole
    | AtBlocks(bs: seq<Block>)
    | InRaw(seen: seq<byte>, left: seq<byte>, bs: seq<Block>)
    | AtCheck(data: seq<byte>, bs: seq<Block>)
    | AtCode(code: seq<byte>, data: seq<byte>, bs: seq<Block>)
    | Flushing(left: seq<byte>, bs: seq<Block>)
    | AtSuffix
    | AtSkipSize
    | Skipping(left: seq<byte>)

  /** The blocks `bs` and the end of the frame. */
  function BlocksOn(h: Header, content: seq<byte>, bs: seq<Block>): seq<byte> {
    BlocksBytes(bs, h.blockChecksum) + Suffix(h, content)
  }

  /** Points that make sense in `f`. */
  predicate Fits(f: Frame, a: Ahead) {
    ValidFrame(f) &&
    match a
    case Whole => true
    case AtSuffix => f.Lz4Frame?
    case AtSkipSize => f.Skippable?
    case Skipping(_) => f.Skippable?
    case InRaw(_, left, bs) => f.Lz4Frame? && left != [] && |left| <= BlockSize(f.header.blockSizeID)
                               && ValidBlocks(bs, BlockSize(f.header.blockSizeID))
    case AtCheck(_, bs) => f.Lz4Frame? && f.header.blockChecksum && ValidBlocks(bs, BlockSize(f.header.blockSizeID))
    case AtCode(code, data, bs) => f.Lz4Frame? && ValidBlockIn(Packed(code, data), BlockSize(f.header.blockSizeID))
                                   && ValidBlocks(bs, BlockSize(f.header.blockSizeID))
    case AtBlocks(bs) => f.Lz4Frame? && ValidBlocks(bs, BlockSize(f.header.blockSizeID))
    case Flushing(_, bs) => f.Lz4Frame? && ValidBlocks(bs, BlockSize(f.header.blockSizeID))
  }

  /** The bytes of the frame from this point on. */
  function Bytes(f: Frame, a: Ahead): seq<byte>
    requires Fits(f, a)
  {
    match a
    case Whole => FrameBytes(f)
    case AtBlocks(bs) => BlocksOn(f.header, Content(f.blocks), bs)
    case InRaw(seen, left, bs) =>
      left + (Check(f.header.blockChecksum, seen + left) + BlocksOn(f.header, Content(f.blocks), bs))
    case AtCheck(data, bs) => Check(true, data) + BlocksOn(f.header, Content(f.blocks), bs)
    case AtCode(code, _, bs) =>
      code + Check(f.header.blockChecksum, code) + BlocksOn(f.header, Content(f.blocks), bs)
    case Flushing(_, bs) => BlocksOn(f.header, Content(f.blocks), bs)
    case AtSuffix => Check(f.header.contentChecksum, Content(f.blocks))
    case AtSkipSize => LE(|f.user|, 4) + f.user
    case Skipping(left) => left
  }

  /** The point behind the descriptor, or behind a skippable magic number. */
  function Behind(f: Frame): Ahead {
    if f.Lz4Frame? then AtBlocks(f.blocks) else AtSkipSize
  }

  /** Neither at the very end nor skipping: more bytes are sure to come. */
  predicate Midway(a: Ahead) {
    !a.AtSuffix? && !a.Skipping?
  }

  /** Content not decoded yet. */
  function Undecoded(f: Frame, a: Ahead): seq<byte> {
    match a
    case Whole => FrameContent(f)
    case AtBlocks(bs) => Content(bs)
    case InRaw(_, left, bs) => left + Content(bs)
    case AtCheck(_, bs) => Content(bs)
    case AtCode(_, data, bs) => data + Content(bs)
    case Flushing(_, bs) => Content(bs)
    case _ => []
  }

  /** Output not delivered yet: a decoded block may still wait to be flushed. */
  function Owed(f: Frame, a: Ahead): seq<byte> {
    (if a.Flushing? then a.left else []) + Undecoded(f, a)
  }

  // ---------------------------------------------------------------- the start of a frame

  /** Any input that agrees with the frame is parsed as its descriptor. */
  lemma StartParses(f: Frame, d: seq<byte>, beyond: seq<byte>)
    requires ValidFrame(f) && |d| >= MIN_HEADER && d <= FrameBytes(f) + beyond
    ensures match f
            case Skippable(_, _) => ParseHeader(d) == SkippableStart
            case Lz4Frame(h, _) =>
              ParseHeader(d) == if |d| < HeaderSize(h) then TooShort(HeaderSize(h)) else Parsed(h, true)
  {
    hide ParseHeader, HeaderBytes, BlocksBytes, Suffix, Content, LE;
    match f
    case Skippable(kind, user) =>
      assert LE(MAGIC_SKIPPABLE + kind, 4) <= d by {
        assert d[..4] == (FrameBytes(f) + beyond)[..4] == LE(MAGIC_SKIPPABLE + kind, 4);
      }
      SkippableReadsBack(kind, d);
    case Lz4Frame(h, _) =>
      var n := Least(|d|, HeaderSize(h));
      assert d[..n] == (FrameBytes(f) + beyond)[..n] == HeaderBytes(h)[..n];
      if |d| < HeaderSize(h) {
        assert d[..n] == d;
        HeaderPrefix(h, d);
      } else {
        assert HeaderBytes(h)[..n] == HeaderBytes(h);
        HeaderReadsBack(h, d);
      }
  }

  function Least(a: nat, b: nat): nat { if a < b then a else b }

  /** Behind the descriptor come the blocks; behind a skippable magic number, the size. */
  lemma StartOpens(f: Frame)
    requires ValidFrame(f)
    ensures f.Lz4Frame? ==>
              && Fits(f, AtBlocks(f.blocks))
              && FrameBytes(f) == HeaderBytes(f.header) + Bytes(f, AtBlocks(f.blocks))
              && Owed(f, Whole) == Owed(f, AtBlocks(f.blocks)) == Content(f.blocks)
    ensures f.Skippable? ==>
              && FrameBytes(f) == LE(MAGIC_SKIPPABLE + f.kind, 4) + Bytes(f, AtSkipSize)
              && |Bytes(f, AtSkipSize)| >= 4
              && Owed(f, Whole) == Owed(f, AtSkipSize) == []
  {
    hide HeaderBytes, BlocksBytes, Suffix, Content, LE;
    match f
    case Lz4Frame(h, bs) =>
      assert [] + Content(bs) == Content(bs);
    case Skippable(_, _) =>
  }

  lemma StartCounts(f: Frame)
    requires ValidFrame(f) && f.Lz4Frame?
    ensures f.header.size.Some? ==> f.header.size.value == |Undecoded(f, AtBlocks(f.blocks))|
    ensures [] + Undecoded(f, AtBlocks(f.blocks)) == Content(f.blocks)
  {
  }

  // ---------------------------------------------------------------- moving on

  lemma BlocksEnd(f: Frame)
    requires Fits(f, AtBlocks([]))
    ensures Bytes(f, AtBlocks([])) == LE(0, 4) + Bytes(f, AtSuffix)
    ensures Owed(f, AtBlocks([])) == [] && Fits(f, AtSuffix)
  {
    assert BlocksBytes([], f.header.blockChecksum) == [];
  }

  lemma FieldFits(b: Block, id: nat)
    requires 4 <= id <= 7 && ValidBlockIn(b, BlockSize(id))
    ensures 0 < BlockField(b) % UNCOMPRESSED_FLAG == |Payload(b)|
    ensures BlockField(b) < Range(4) && (BlockField(b) >= UNCOMPRESSED_FLAG <==> b.Raw?)
    ensures ReadLE(LE(BlockField(b), 4)) == BlockField(b)
  {
    hide ValidBlock, LE, ReadLE, Range;
    Ranges();
    ReadInvertsLE(BlockField(b), 4);
  }

  /** The point behind the size field of the first block. */
  function InBlock(b: Block, bs: seq<Block>): Ahead {
    match b
    case Raw(data) => InRaw([], data, bs)
    case Packed(code, data) => AtCode(code, data, bs)
  }

  lemma BlocksOpen(f: Frame, bs: seq<Block>)
    requires bs != [] && Fits(f, AtBlocks(bs))
    ensures Fits(f, InBlock(bs[0], bs[1..]))
    ensures Bytes(f, AtBlocks(bs)) == LE(BlockField(bs[0]), 4) + Bytes(f, InBlock(bs[0], bs[1..]))
    ensures Undecoded(f, AtBlocks(bs)) == Undecoded(f, InBlock(bs[0], bs[1..])) == bs[0].data + Content(bs[1..])
  {
    hide LE, Check, BlocksOn, Content, BlockField, ValidFrame, ValidBlocks, ValidBlockIn;
    FitsOpen(f, bs);
    BlocksOnOpen(f.header, Content(f.blocks), bs);
    ContentOpen(bs);
    var b := bs[0];
    if b.Raw? { assert [] + b.data == b.data; }
  }

  lemma ContentOpen(bs: seq<Block>)
    requires bs != []
    ensures Content(bs) == bs[0].data + Content(bs[1..])
  {
  }

  lemma BlocksOnOpen(h: Header, content: seq<byte>, bs: seq<Block>)
    requires bs != []
    ensures BlocksOn(h, content, bs)
         == LE(BlockField(bs[0]), 4) + (Payload(bs[0]) + Check(h.blockChecksum, Payload(bs[0])) + BlocksOn(h, content, bs[1..]))
  {
    hide LE, Check, Suffix, BlockField, Payload;
    assert BlocksBytes(bs, h.blockChecksum) == BlockBytes(bs[0], h.blockChecksum) + BlocksBytes(bs[1..], h.blockChecksum);
  }

  lemma FitsOpen(f: Frame, bs: seq<Block>)
    requires bs != [] && Fits(f, AtBlocks(bs))
    ensures Fits(f, InBlock(bs[0], bs[1..]))
  {
    hide ValidBlock, BlockSize, Content;
    var max := BlockSize(f.header.blockSizeID);
    assert bs[0] in bs && ValidBlockIn(bs[0], max);
    assert forall b :: b in bs[1..] ==> b in bs;
  }

  /** The size field of no block: the end mark. */
  lemma EndField(f: Frame, word: seq<byte>, rest: seq<byte>)
    requires Fits(f, AtBlocks([])) && |word| == 4 && word + rest == Bytes(f, AtBlocks([]))
    ensures ReadLE(word) == 0 && Fits(f, AtSuffix) && rest == Bytes(f, AtSuffix)
    ensures Undecoded(f, AtBlocks([])) == Undecoded(f, AtSuffix) == []
  {
    hide Bytes, LE, ReadLE;
    Ranges();
    assert word == (word + rest)[..4] && rest == (word + rest)[4..];
    BlocksEnd(f);
    ReadInvertsLE(0, 4);
    assert word == LE(0, 4);
  }

  /** The size field of a block tells its length and whether it is stored or compressed. */
  lemma SizeField(f: Frame, b: Block, bs: seq<Block>, word: seq<byte>, rest: seq<byte>)
    requires Fits(f, AtBlocks([b] + bs)) && |word| == 4 && word + rest == Bytes(f, AtBlocks([b] + bs))
    ensures ReadLE(word) % UNCOMPRESSED_FLAG == |Payload(b)| > 0
    ensures |Payload(b)| <= BlockSize(f.header.blockSizeID)
    ensures ReadLE(word) >= UNCOMPRESSED_FLAG <==> b.Raw?
    ensures Fits(f, InBlock(b, bs)) && rest == Bytes(f, InBlock(b, bs))
    ensures Undecoded(f, AtBlocks([b] + bs)) == Undecoded(f, InBlock(b, bs))
  {
    hide Bytes, LE, ReadLE, BlockField, BlockSize, ValidBlock;
    assert word == (word + rest)[..4] && rest == (word + rest)[4..];
    assert ([b] + bs)[1..] == bs;
    BlocksOpen(f, [b] + bs);
    FitsHead(f, [b] + bs);
    FieldFits(b, f.header.blockSizeID);
    assert word == LE(BlockField(b), 4);
  }

  lemma FitsHead(f: Frame, bs: seq<Block>)
    requires bs != [] && Fits(f, AtBlocks(bs))
    ensures ValidBlockIn(bs[0], BlockSize(f.header.blockSizeID))
  {
    hide ValidBlockIn;
    assert bs[0] in bs;
  }

  /** The point after `n` bytes of a stored block have been copied out. */
  function RawNext(f: Frame, a: Ahead, n: nat): Ahead
    requires a.InRaw? && Fits(f, a) && n <= |a.left|
  {
    if n < |a.left| then InRaw(a.seen + a.left[..n], a.left[n..], a.bs)
    else if f.header.blockChecksum then AtCheck(a.seen + a.left, a.bs)
    else AtBlocks(a.bs)
  }

  lemma RawMoves(f: Frame, a: Ahead, n: nat)
    requires a.InRaw? && Fits(f, a) && n <= |a.left|
    ensures var next := RawNext(f, a, n);
            && Fits(f, next)
            && Bytes(f, a) == a.left[..n] + Bytes(f, next) && Bytes(f, next) == Bytes(f, a)[n..]
            && Undecoded(f, a) == a.left[..n] + Undecoded(f, next)
            && Owed(f, a) == a.left[..n] + Owed(f, next)
  {
    hide Check, BlocksOn, Content, ValidFrame, ValidBlocks;
    assert a.left == a.left[..n] + a.left[n..];
    if n < |a.left| {
      assert (a.seen + a.left[..n]) + a.left[n..] == a.seen + a.left;
    } else {
      assert a.left[..n] == a.left;
      CheckOn(a.seen + a.left);
    }
  }

  lemma CheckOn(s: seq<byte>)
    ensures Check(false, s) == []
  {
  }

  lemma RawLeft(f: Frame, a: Ahead)
    requires a.InRaw? && Fits(f, a)
    ensures f.Lz4Frame? && |a.left| > 0
  {
  }

  lemma CheckField(f: Frame, a: Ahead, word: seq<byte>, rest: seq<byte>)
    requires a.AtCheck? && Fits(f, a) && |word| == 4 && word + rest == Bytes(f, a)
    ensures f.Lz4Frame? && ReadLE(word) == Checksum(a.data)
    ensures Fits(f, AtBlocks(a.bs)) && rest == Bytes(f, AtBlocks(a.bs))
    ensures Undecoded(f, AtBlocks(a.bs)) == Undecoded(f, a) && Owed(f, AtBlocks(a.bs)) == Owed(f, a)
  {
    hide BlocksOn, ReadLE, LE, Checksum, ValidFrame, ValidBlocks;
    ReadInvertsLE(Checksum(a.data), 4);
    assert word == (word + rest)[..4] && rest == (word + rest)[4..];
  }

  /** The point behind a compressed block. */
  function AfterCode(f: Frame, a: Ahead): (r: Ahead)
    requires a.AtCode? && Fits(f, a)
    ensures Fits(f, r) && r == AtBlocks(a.bs)
  {
    AtBlocks(a.bs)
  }

  lemma IsLz4(f: Frame, a: Ahead)
    requires Fits(f, a)
    ensures a.AtBlocks? || a.InRaw? || a.AtCheck? || a.AtCode? || a.Flushing? || a.AtSuffix? ==> f.Lz4Frame?
    ensures a.AtSkipSize? || a.Skipping? ==> f.Skippable?
    ensures ValidFrame(f)
  {
  }

  lemma SuffixOwes(f: Frame)
    ensures Owed(f, AtSuffix) == []
  {
  }

  lemma SuffixLength(f: Frame)
    requires f.Lz4Frame? && Fits(f, AtSuffix)
    ensures |Bytes(f, AtSuffix)| == if f.header.contentChecksum then 4 else 0
  {
    hide LE, Checksum;
  }

  lemma SuffixField(f: Frame, word: seq<byte>, rest: seq<byte>)
    requires f.Lz4Frame? && Fits(f, AtSuffix) && f.header.contentChecksum
    requires |word| == 4 && word + rest == Bytes(f, AtSuffix)
    ensures rest == [] && ReadLE(word) == Checksum(Content(f.blocks))
  {
    hide LE, Checksum, ReadLE, Content;
    SuffixLength(f);
    assert word + [] == word;
    ReadInvertsLE(Checksum(Content(f.blocks)), 4);
  }

  lemma SkipLength(f: Frame)
    requires f.Skippable? && Fits(f, AtSkipSize)
    ensures |Bytes(f, AtSkipSize)| == 4 + |f.user|
  {
  }

  lemma SkipField(f: Frame, word: seq<byte>, rest: seq<byte>)
    requires f.Skippable? && Fits(f, AtSkipSize) && |word| == 4 && word + rest == Bytes(f, AtSkipSize)
    ensures ReadLE(word) == |f.user| && rest == f.user && Fits(f, Skipping(f.user))
  {
    hide LE, ReadLE;
    ReadInvertsLE(|f.user|, 4);
    assert word == (word + rest)[..4] && rest == (word + rest)[4..];
  }

  lemma CodeLength(f: Frame, a: Ahead)
    requires a.AtCode? && Fits(f, a) && f.Lz4Frame?
    ensures 0 < |a.code| <= BlockSize(f.header.blockSizeID)
    ensures |Bytes(f, a)| >= |a.code| + if f.header.blockChecksum then 4 else 0
  {
    hide BlocksOn, ValidBlocks, Decode, BlockSize, LE, Checksum;
  }

  lemma CodeField(f: Frame, a: Ahead, selected: seq<byte>, rest: seq<byte>)
    requires a.AtCode? && Fits(f, a) && f.Lz4Frame? && selected + rest == Bytes(f, a)
    requires |selected| == |a.code| + if f.header.blockChecksum then 4 else 0
    ensures selected[..|a.code|] == a.code && Decode(a.code) == Some(a.data)
    ensures f.header.blockChecksum ==> ReadLE(selected[|a.code|..]) == Checksum(a.code)
    ensures |a.data| <= BlockSize(f.header.blockSizeID) && |a.code| > 0
    ensures rest == Bytes(f, AfterCode(f, a))
  {
    hide BlocksOn, ReadLE, LE, Checksum, ValidBlocks, Decode, BlockSize;
    ReadInvertsLE(Checksum(a.code), 4);
    var whole := selected + rest;
    assert whole == (a.code + Check(f.header.blockChecksum, a.code)) + BlocksOn(f.header, Content(f.blocks), a.bs);
    assert selected == whole[..|selected|] == a.code + Check(f.header.blockChecksum, a.code);
    assert rest == whole[|selected|..];
  }

  /** A decoded block leaves the input for the output, or waits in between. */
  lemma CodeOpens(f: Frame, a: Ahead)
    requires a.AtCode? && Fits(f, a)
    ensures f.Lz4Frame? && Fits(f, Flushing(a.data, a.bs)) && Fits(f, AtBlocks(a.bs))
    ensures Bytes(f, Flushing(a.data, a.bs)) == Bytes(f, AtBlocks(a.bs))
    ensures Undecoded(f, a) == a.data + Undecoded(f, AtBlocks(a.bs))
    ensures Undecoded(f, a) == a.data + Undecoded(f, Flushing(a.data, a.bs))
    ensures Owed(f, a) == a.data + Owed(f, AtBlocks(a.bs)) == Owed(f, Flushing(a.data, a.bs))
  {
    hide BlocksOn, Content, ValidFrame, ValidBlocks;
  }

  /** Some of a decoded block is delivered. */
  lemma FlushMoves(f: Frame, a: Ahead, n: nat)
    requires a.Flushing? && Fits(f, a) && n <= |a.left|
    ensures f.Lz4Frame?
    ensures var next := if n < |a.left| then Flushing(a.left[n..], a.bs) else AtBlocks(a.bs);
            && Fits(f, next) && Bytes(f, next) == Bytes(f, a)
            && Undecoded(f, next) == Undecoded(f, a)
            && Owed(f, a) == a.left[..n] + Owed(f, next)
  {
    hide BlocksOn, Content, ValidFrame, ValidBlocks;
    assert a.left == a.left[..n] + a.left[n..];
  }

  /** A frame starts with at least seven bytes that tell what it is. */
  lemma LongEnough(f: Frame)
    requires ValidFrame(f)
    ensures |FrameBytes(f)| >= MIN_HEADER
    ensures f.Lz4Frame? ==> |FrameBytes(f)| >= HeaderSize(f.header)
  {
  }

  /** Every point of a frame but the last has bytes to come, and all of them have room for the end. */
  lemma AtLeast4(f: Frame, a: Ahead)
    requires Fits(f, a) && (a.AtBlocks? || a.InRaw? || a.AtCheck? || a.AtCode? || a.Flushing?)
    ensures |Bytes(f, a)| >= 4
  {
  }

  /** Input to a stored block is its data. */
  lemma RawIsInput(f: Frame, a: Ahead, src: seq<byte>, sp: nat, n: nat, rest: seq<byte>, beyond: seq<byte>)
    requires a.InRaw? && Fits(f, a) && rest == Bytes(f, a)
    requires sp + n <= |src| && n <= |a.left| && src[sp..] <= rest + beyond
    ensures |a.left| <= |rest| && src[sp..sp + n] == a.left[..n] == rest[..n]
    ensures src[sp + n..] <= rest[n..] + beyond
  {
    hide Check, BlocksOn;
    assert src[sp..sp + n] == src[sp..][..n] == (rest + beyond)[..n];
    assert src[sp + n..] == src[sp..][n..];
    assert (rest + beyond)[n..] == rest[n..] + beyond;
  }

  // ---------------------------------------------------------------- what a decoder asks for

  /** How much input is asked for when `rest` is still to come: up to and with the next size field, or to the end. In
      front of the checksum of a stored block it is one byte; and for a compressed block partly set aside, its
      checksum is counted twice. */
  predicate Hinted(f: Frame, a: Ahead, rest: seq<byte>, hint: int)
    requires Fits(f, a)
  {
    match a
    case Whole =>
      || (rest == FrameBytes(f) && hint == MIN_HEADER)
      || hint + |FrameBytes(f)| == |rest| + MIN_HEADER + BH_SIZE
      || (f.Lz4Frame? && hint + |FrameBytes(f)| == |rest| + HeaderSize(f.header) + BH_SIZE)
    case AtBlocks(bs) => hint + |Bytes(f, AtBlocks(bs))| == |rest| + BH_SIZE
    case InRaw(_, _, bs) => hint + |Bytes(f, AtBlocks(bs))| == |rest| + BH_SIZE
    case Flushing(_, bs) => hint + |Bytes(f, AtBlocks(bs))| == |rest| + BH_SIZE
    case AtCode(_, _, bs) =>
      || hint + |Bytes(f, AtBlocks(bs))| == |rest| + BH_SIZE
      || (f.header.blockChecksum && hint + |Bytes(f, AtBlocks(bs))| == |rest| + BH_SIZE + BF_SIZE)
    case AtCheck(_, _) => hint == 1
    case AtSkipSize => hint + |f.user| == |rest|
    case AtSuffix => hint == |rest|
    case Skipping(_) => hint == |rest|
  }

  /** How far what is asked for may reach beyond the frame: not at all, but for the checksum counted twice, and for the
      longer start that a skippable frame of less than three bytes is taken for. */
  function Overreach(f: Frame): nat {
    if f.Skippable? then 3 else if f.header.blockChecksum then 4 else 0
  }

  lemma BlocksFollow(f: Frame, a: Ahead)
    requires Fits(f, a) && (a.AtBlocks? || a.InRaw? || a.AtCode? || a.Flushing? || a.AtCheck?)
    ensures |Bytes(f, AtBlocks(a.bs))| >= 4
    ensures a.AtBlocks? || a.Flushing? ==> |Bytes(f, a)| == |Bytes(f, AtBlocks(a.bs))|
    ensures a.InRaw? ==>
              |Bytes(f, a)| == |a.left| + (if f.header.blockChecksum then BF_SIZE else 0) + |Bytes(f, AtBlocks(a.bs))|
    ensures a.AtCode? ==>
              |Bytes(f, a)| == |a.code| + (if f.header.blockChecksum then BF_SIZE else 0) + |Bytes(f, AtBlocks(a.bs))|
  {
    AtLeast4(f, AtBlocks(a.bs));
    hide BlocksOn, ValidBlocks, Decode, BlockSize, LE, Checksum, ValidFrame, ValidBlockIn;
  }

  /** Behind the last block of a frame without content checksum come four bytes, elsewhere eight or more. */
  lemma FollowEight(f: Frame, bs: seq<Block>)
    requires Fits(f, AtBlocks(bs)) && f.header.blockChecksum
    ensures var n := |Bytes(f, AtBlocks(bs))|; if bs == [] && !f.header.contentChecksum then n == 4 else n >= 8
  {
    hide BlockSize, LE, Checksum, ValidFrame, ValidBlockIn, Payload;
    if bs != [] { assert BlocksBytes(bs, true) == BlockBytes(bs[0], true) + BlocksBytes(bs[1..], true); }
  }

  /** What is asked for hardly reaches beyond the frame. */
  lemma HintedIsNear(f: Frame, a: Ahead, rest: seq<byte>, hint: int)
    requires Fits(f, a) && Hinted(f, a, rest, hint) && rest != []
    ensures hint <= |rest| + Overreach(f)
  {
    hide Bytes, FrameBytes, HeaderSize;
    if a.AtBlocks? || a.InRaw? || a.AtCode? || a.Flushing? { BlocksFollow(f, a); }
    if a.Whole? { LongerThanStart(f); }
  }

  lemma LongerThanStart(f: Frame)
    requires ValidFrame(f)
    ensures f.Lz4Frame? ==> |FrameBytes(f)| >= HeaderSize(f.header) + BH_SIZE
    ensures f.Skippable? ==> |FrameBytes(f)| == 8 + |f.user|
  {
    hide LE, BlocksBytes, HeaderBytes, Content, Check;
  }
}
