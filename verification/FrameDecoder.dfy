/** LZ4F_decompress: a decoder that can be stopped after any byte of input or output.

    Every stage of the state machine is proved against `FrameAhead`: the bytes a stage has set aside,
    followed by the input still to come, are the rest of the frame. */
module FrameDecoder {
  import opened Lz4Format
  import opened FrameFormat
  import opened FrameHeader
  import opened FrameAhead

  datatype Stage =
    | GetFrameHeader | StoreFrameHeader
    | Init
    | GetBlockHeader | StoreBlockHeader
    | CopyDirect | GetBlockChecksum
    | GetCBlock | StoreCBlock
    | FlushOut
    | GetSuffix | StoreSuffix
    | GetSFrameSize | StoreSFrameSize
    | SkipSkippable

  datatype FrameInfo = FrameInfo(skippable: bool, independent: bool, blockChecksum: bool, contentChecksum: bool,
                                 contentSize: nat, dictID: nat, blockSizeID: nat)

  /** How a stage ends: on to the next one, out of input or room, or in error. */
  datatype Turn = Again | Wait(hint: nat) | Failed(error: Error)

  function TurnOf(error: Option<Error>): Turn {
    if error.Some? then Failed(error.value) else Again
  }

  predicate IsBlockSize(n: nat) {
    n == 65536 || n == 262144 || n == 1048576 || n == 4194304
  }

  function Value(v: Option<nat>): nat {
    if v.Some? then v.value else 0
  }

  /** The record of a frame's descriptor. */
  function InfoOf(h: Header): FrameInfo {
    FrameInfo(false, true, h.blockChecksum, h.contentChecksum, Value(h.size), Value(h.dictID), h.blockSizeID)
  }

  lemma InfoFlags(h: Header)
    ensures InfoOf(h).blockChecksum == h.blockChecksum && InfoOf(h).contentChecksum == h.contentChecksum
  {
  }

  function Min(a: nat, b: nat): nat { if a < b then a else b }

  /** The next `n` bytes of input are the next `n` bytes of what the frame still holds. */
  lemma StreamTake(src: seq<byte>, sp: nat, n: nat, rest: seq<byte>, beyond: seq<byte>)
    requires sp + n <= |src| && n <= |rest| && src[sp..] <= rest + beyond
    ensures src[sp..sp + n] == rest[..n]
    ensures src[sp + n..] <= rest[n..] + beyond
  {
    assert src[sp..sp + n] == src[sp..][..n];
    assert src[sp + n..] == src[sp..][n..];
    assert (rest + beyond)[n..] == rest[n..] + beyond;
  }

  /** memcpy of `n` input bytes. */
  method CopyBytes(dst: array<byte>, dp: nat, src: seq<byte>, sp: nat, n: nat)
    requires dp + n <= dst.Length && sp + n <= |src|
    modifies dst
    ensures dst[..dp + n] == old(dst[..dp]) + src[sp..sp + n]
  {
    forall i | 0 <= i < n { dst[dp + i] := src[sp + i]; }
  }

  class DCtx {
    var info: FrameInfo
    var stage: Stage
    var remaining: nat
    var maxBlockSize: nat
    var maxBufferSize: nat
    var tmpIn: array<byte>
    var tmpInSize: nat
    var tmpInTarget: nat
    var tmpOut: array<byte>
    var tmpOutSize: nat
    var tmpOutStart: nat
    var xxh: seq<byte>
    var blockXxh: seq<byte>
    const header: array<byte>

    /** The buffers are apart and as large as `maxBufferSize` says. */
    ghost predicate Valid()
      reads this
    {
      && header.Length == MAX_HEADER
      && header != tmpIn && header != tmpOut && tmpIn != tmpOut
      && (maxBufferSize > 0 ==>
            && tmpIn.Length >= 4 && IsBlockSize(tmpIn.Length - 4)
            && maxBufferSize <= tmpIn.Length - 4 + 131072
            && tmpOut.Length == maxBufferSize)
    }

    constructor ()
      ensures Valid() && fresh(this) && fresh(header) && fresh(tmpIn) && fresh(tmpOut)
      ensures stage == GetFrameHeader && remaining == 0
    {
      info := FrameInfo(false, false, false, false, 0, 0, 0);
      stage, remaining, maxBlockSize, maxBufferSize := GetFrameHeader, 0, 0, 0;
      tmpIn, tmpOut, header := new byte[0], new byte[0], new byte[19];
      tmpInSize, tmpInTarget, tmpOutSize, tmpOutStart := 0, 0, 0, 0;
      xxh, blockXxh := [], [];
    }

    /** LZ4F_resetDecompressionContext: whatever frame was at hand, and however much of it was read, the
        decoder is at the beginning of any frame that comes next. The running count stays. */
    method Reset()
      requires Valid()
      modifies `stage
      ensures Valid() && stage == GetFrameHeader && remaining == old(remaining)
      ensures forall f: Frame :: ValidFrame(f) ==> Ready(f, Whole, remaining, FrameBytes(f))
    {
      hide FrameBytes, ValidFrame, Ready;
      stage := GetFrameHeader;
      forall f: Frame | ValidFrame(f) ensures Ready(f, Whole, remaining, FrameBytes(f)) {
        WholeIs(f, remaining, FrameBytes(f));
      }
    }

    /** How much input a turn asks for when it must wait. */
    ghost function Hint(): int
      reads `stage, `info, `tmpInSize, `tmpInTarget
    {
      var crcSize := if info.blockChecksum then BF_SIZE else 0;
      match stage
      case GetFrameHeader => MIN_HEADER
      case StoreFrameHeader => tmpInTarget - tmpInSize + BH_SIZE
      case StoreBlockHeader => BH_SIZE - tmpInSize
      case CopyDirect => tmpInTarget + crcSize + BH_SIZE
      case GetBlockChecksum => 1
      case GetCBlock => tmpInTarget + BH_SIZE
      case StoreCBlock => tmpInTarget - tmpInSize + crcSize + BH_SIZE
      case FlushOut => BH_SIZE
      case StoreSuffix => 4 - tmpInSize
      case StoreSFrameSize => tmpInTarget - tmpInSize
      case SkipSkippable => tmpInTarget
      case _ => 0
    }

    /** The fields agree with the descriptor of `h`, and the buffers hold its blocks. */
    ghost predicate Opened(h: Header)
      reads `info, `maxBlockSize, `tmpIn, `tmpOut
    {
      && 4 <= h.blockSizeID <= 7
      && info == InfoOf(h) && maxBlockSize == BlockSize(h.blockSizeID)
      && tmpIn.Length >= maxBlockSize + 4 && tmpOut.Length >= maxBlockSize
    }

    /** The running count and checksum. `stale` is what an abandoned frame left in the count. */
    ghost predicate Counts(f: Frame, a: Ahead, stale: nat)
      requires f.Lz4Frame?
      reads `remaining, `xxh
    {
      && remaining == (if f.header.size.Some? then |Undecoded(f, a)| else stale)
      && (f.header.size.Some? ==> remaining <= f.header.size.value)
      && (f.header.contentChecksum ==> xxh + Undecoded(f, a) == Content(f.blocks))
    }

    // Each point of a frame: the stage, its fields, and how the bytes already set aside and the
    // bytes `rest` still to be fed make up what the frame holds from that point on.

    ghost predicate ReadyWhole(f: Frame, stale: nat, rest: seq<byte>)
      requires Valid() && ValidFrame(f)
      reads this, header
    {
      && remaining == stale
      && if stage == GetFrameHeader then rest == FrameBytes(f)
         else
           && stage == StoreFrameHeader && tmpInSize < tmpInTarget
           && (tmpInTarget == MIN_HEADER || (f.Lz4Frame? && tmpInTarget == HeaderSize(f.header)))
           && header[..tmpInSize] + rest == FrameBytes(f)
    }

    ghost predicate ReadyInit(f: Frame, stale: nat, rest: seq<byte>)
      requires f.Lz4Frame? && Fits(f, AtBlocks(f.blocks))
      reads this
    {
      && stage == Init
      && info == InfoOf(f.header) && maxBlockSize == BlockSize(f.header.blockSizeID)
      && remaining == (if f.header.size.Some? then f.header.size.value else stale)
      && rest == Bytes(f, AtBlocks(f.blocks))
    }

    ghost predicate ReadyBlocks(f: Frame, bs: seq<Block>, stale: nat, rest: seq<byte>)
      requires Fits(f, AtBlocks(bs))
      reads this, tmpIn
    {
      && Opened(f.header) && Counts(f, AtBlocks(bs), stale)
      && if stage == GetBlockHeader then rest == Bytes(f, AtBlocks(bs))
         else stage == StoreBlockHeader && tmpInSize < 4 && tmpIn[..tmpInSize] + rest == Bytes(f, AtBlocks(bs))
    }

    ghost predicate ReadyRaw(f: Frame, a: Ahead, stale: nat, rest: seq<byte>)
      requires a.InRaw? && Fits(f, a)
      reads this
    {
      && Opened(f.header) && Counts(f, a, stale)
      && stage == CopyDirect && tmpInTarget == |a.left|
      && (f.header.blockChecksum ==> blockXxh == a.seen)
      && rest == Bytes(f, a)
    }

    ghost predicate ReadyCheck(f: Frame, a: Ahead, stale: nat, rest: seq<byte>)
      requires Valid() && a.AtCheck? && Fits(f, a)
      reads this, header
    {
      && Opened(f.header) && Counts(f, a, stale)
      && stage == GetBlockChecksum && tmpInSize < 4 && blockXxh == a.data
      && header[..tmpInSize] + rest == Bytes(f, a)
    }

    ghost predicate ReadyCode(f: Frame, a: Ahead, stale: nat, rest: seq<byte>)
      requires a.AtCode? && Fits(f, a)
      reads this, tmpIn
    {
      && Opened(f.header) && Counts(f, a, stale)
      && tmpInTarget == |a.code| + (if f.header.blockChecksum then 4 else 0)
      && if stage == GetCBlock then rest == Bytes(f, a)
         else stage == StoreCBlock && tmpInSize < tmpInTarget && tmpIn[..tmpInSize] + rest == Bytes(f, a)
    }

    ghost predicate ReadyFlush(f: Frame, a: Ahead, stale: nat, rest: seq<byte>)
      requires a.Flushing? && Fits(f, a)
      reads this, tmpOut
    {
      && Opened(f.header) && Counts(f, a, stale)
      && stage == FlushOut && tmpOutStart <= tmpOutSize <= tmpOut.Length
      && tmpOut[tmpOutStart..tmpOutSize] == a.left
      && rest == Bytes(f, a)
    }

    ghost predicate ReadySuffix(f: Frame, stale: nat, rest: seq<byte>)
      requires Fits(f, AtSuffix)
      reads this, tmpIn
    {
      && Opened(f.header) && Counts(f, AtSuffix, stale)
      && if stage == GetSuffix then rest == Bytes(f, AtSuffix)
         else
           && stage == StoreSuffix && f.header.contentChecksum && remaining == 0
           && tmpInSize < 4 && tmpIn[..tmpInSize] + rest == Bytes(f, AtSuffix)
    }

    ghost predicate ReadySkipSize(f: Frame, stale: nat, rest: seq<byte>)
      requires Valid() && Fits(f, AtSkipSize)
      reads this, header
    {
      && remaining == stale
      && if stage == GetSFrameSize then rest == Bytes(f, AtSkipSize)
         else stage == StoreSFrameSize && 4 <= tmpInSize < tmpInTarget == 8
              && header[..tmpInSize] + rest == header[..4] + Bytes(f, AtSkipSize)
    }

    ghost predicate ReadySkip(f: Frame, left: seq<byte>, stale: nat, rest: seq<byte>)
      reads this
    {
      remaining == stale && stage == SkipSkippable && tmpInTarget == |left| && rest == left
    }

    /** At point `a` of `f`, with the bytes `rest` of the frame still to be fed. */
    ghost predicate Ready(f: Frame, a: Ahead, stale: nat, rest: seq<byte>)
      reads this, header, tmpIn, tmpOut
    {
      && Valid() && Fits(f, a)
      && match a
         case Whole => ReadyWhole(f, stale, rest)
         case AtBlocks(bs) =>
           if stage == Init then bs == f.blocks && ReadyInit(f, stale, rest) else ReadyBlocks(f, bs, stale, rest)
         case InRaw(_, _, _) => ReadyRaw(f, a, stale, rest)
         case AtCheck(_, _) => ReadyCheck(f, a, stale, rest)
         case AtCode(_, _, _) => ReadyCode(f, a, stale, rest)
         case Flushing(_, _) => ReadyFlush(f, a, stale, rest)
         case AtSuffix => ReadySuffix(f, stale, rest)
         case AtSkipSize => ReadySkipSize(f, stale, rest)
         case Skipping(left) => ReadySkip(f, left, stale, rest)
    }

    lemma NowBlocks(f: Frame, bs: seq<Block>, stale: nat, rest: seq<byte>)
      requires Valid() && Fits(f, AtBlocks(bs)) && ReadyBlocks(f, bs, stale, rest)
      ensures Ready(f, AtBlocks(bs), stale, rest)
    {
      hide Valid, Fits, Opened, Counts, Bytes;
    }

    lemma NowCheck(f: Frame, a: Ahead, stale: nat, rest: seq<byte>)
      requires Valid() && a.AtCheck? && Fits(f, a) && ReadyCheck(f, a, stale, rest)
      ensures Ready(f, a, stale, rest)
    {
      hide Valid, Fits, ReadyCheck;
    }

    lemma NowSkip(f: Frame, left: seq<byte>, stale: nat, rest: seq<byte>)
      requires Valid() && Fits(f, Skipping(left)) && ReadySkip(f, left, stale, rest)
      ensures Ready(f, Skipping(left), stale, rest)
    {
      hide Valid, Fits, ReadySkip;
    }

    lemma NowSkipSize(f: Frame, stale: nat, rest: seq<byte>)
      requires Valid() && Fits(f, AtSkipSize) && ReadySkipSize(f, stale, rest)
      ensures Ready(f, AtSkipSize, stale, rest)
    {
      hide Valid, Fits, ReadySkipSize;
    }

    // -------------------------------------------------------------- setting input aside

    /** Move input to `buf` until it holds `target` bytes or the input is used up. `want` is what the
        bytes set aside and the rest of the frame make up. */
    method Collect(buf: array<byte>, target: nat, src: seq<byte>, sp0: nat, ghost want: seq<byte>,
                   ghost rest: seq<byte>, ghost beyond: seq<byte>)
      returns (sp: nat)
      requires tmpInSize < target <= buf.Length && target <= |want| && sp0 <= |src|
      requires buf[..tmpInSize] + rest == want && src[sp0..] <= rest + beyond
      modifies `tmpInSize, buf
      ensures sp0 <= sp <= |src| && sp - sp0 <= |rest| && tmpInSize <= target
      ensures buf[..tmpInSize] + rest[sp - sp0..] == want
      ensures if tmpInSize < target then sp == |src| else sp > sp0
    {
      var n := Min(target - tmpInSize, |src| - sp0);
      StreamTake(src, sp0, n, rest, beyond);
      CopyBytes(buf, tmpInSize, src, sp0, n);
      tmpInSize := tmpInSize + n;
      sp := sp0 + n;
      assert rest == rest[..n] + rest[n..];
    }

    // -------------------------------------------------------------- the frame descriptor

    /** LZ4F_decodeHeader; `own` says that `d` lies in `header` already. */
    method DecodeHeader(d: seq<byte>, own: bool) returns (error: Option<Error>, used: nat)
      requires Valid() && (own ==> |d| <= MAX_HEADER && header[..|d|] == d)
      modifies `info, `stage, `remaining, `maxBlockSize, `tmpInSize, `tmpInTarget, header
      ensures match ParseHeader(d)
              case BadHeader(e) => error == Some(e) && stage == old(stage)
              case SkippableStart =>
                && error == None && info.skippable && remaining == old(remaining)
                && (if own then used == |d| && tmpInSize == |d| && tmpInTarget == 8 && stage == StoreSFrameSize
                    else used == 4 && stage == GetSFrameSize)
                && header[..] == old(header[..])
              case TooShort(need) =>
                && error == None && used == |d| && remaining == old(remaining)
                && |d| < need <= MAX_HEADER && header[..|d|] == d
                && tmpInSize == |d| && tmpInTarget == need && stage == StoreFrameHeader
              case Parsed(h, independent) =>
                && error == None && used == HeaderSize(h)
                && 4 <= h.blockSizeID <= 7
                && info == InfoOf(h).(independent := independent) && maxBlockSize == BlockSize(h.blockSizeID)
                && remaining == (if h.size.Some? then h.size.value else old(remaining))
                && stage == Init
    {
      hide ReadLE, HeaderChecksum;
      used := 0;
      if |d| < MIN_HEADER { return Some(FrameHeaderIncomplete), 0; }
      info := FrameInfo(false, false, false, false, 0, 0, 0);
      if ReadLE(d[..4]) / 16 * 16 == MAGIC_SKIPPABLE {
        info := info.(skippable := true);
        if own {
          tmpInSize, tmpInTarget, stage := |d|, 8, StoreSFrameSize;
          return None, |d|;
        } else {
          stage := GetSFrameSize;
          return None, 4;
        }
      }
      if ReadLE(d[..4]) != MAGIC { return Some(FrameTypeUnknown), 0; }
      var flags := d[4];
      if FlagBit(flags, 2) { return Some(ReservedFlagSet), 0; }
      if flags / 64 % 4 != 1 { return Some(HeaderVersionWrong), 0; }
      var size := HeaderSizeOf(flags);
      if |d| < size {
        if !own { forall i | 0 <= i < |d| { header[i] := d[i]; } }
        tmpInSize, tmpInTarget, stage := |d|, size, StoreFrameHeader;
        return None, |d|;
      }
      var bd := d[5];
      if bd / 128 % 2 != 0 { return Some(ReservedFlagSet), 0; }
      if bd / 16 % 8 < 4 { return Some(MaxBlockSizeInvalid), 0; }
      if bd % 16 != 0 { return Some(ReservedFlagSet), 0; }
      if HeaderChecksum(d[4..size - 1]) != d[size - 1] { return Some(HeaderChecksumInvalid), 0; }
      info := info.(independent := FlagBit(flags, 32), blockChecksum := FlagBit(flags, 16),
                    contentChecksum := FlagBit(flags, 4), blockSizeID := bd / 16 % 8);
      maxBlockSize := BlockSize(bd / 16 % 8);
      if FlagBit(flags, 8) {
        info := info.(contentSize := ReadLE(d[6..14]));
        remaining := info.contentSize;
      }
      if FlagBit(flags, 1) { info := info.(dictID := ReadLE(d[size - 5..size - 1])); }
      stage := Init;
      return None, size;
    }

    lemma WholeIs(f: Frame, stale: nat, rest: seq<byte>)
      requires ValidFrame(f)
      ensures Ready(f, Whole, stale, rest) <==> Valid() && ReadyWhole(f, stale, rest)
      ensures Valid() && stage == GetFrameHeader ==>
                (ReadyWhole(f, stale, rest) <==> remaining == stale && rest == FrameBytes(f))
      ensures Valid() && stage == StoreFrameHeader ==>
                (ReadyWhole(f, stale, rest) <==>
                   && remaining == stale && tmpInSize < tmpInTarget <= header.Length
                   && (tmpInTarget == MIN_HEADER || (f.Lz4Frame? && tmpInTarget == HeaderSize(f.header)))
                   && header[..tmpInSize] + rest == FrameBytes(f))
    {
    }

    lemma Opens(f: Frame, stale: nat, rest: seq<byte>)
      requires Valid() && ValidFrame(f) && f.Lz4Frame? && stage == Init
      requires info == InfoOf(f.header) && maxBlockSize == BlockSize(f.header.blockSizeID)
      requires remaining == (if f.header.size.Some? then f.header.size.value else stale)
      requires rest == FrameBytes(f)[HeaderSize(f.header)..]
      ensures Ready(f, AtBlocks(f.blocks), stale, rest)
    {
      hide FrameBytes, Bytes, ValidBlocks, HeaderBytes, BlockSize, InfoOf, ValidHeader;
      StartOpens(f);
    }

    lemma SkipOpens(f: Frame, stale: nat, d: seq<byte>, rest: seq<byte>)
      requires Valid() && ValidFrame(f) && f.Skippable? && remaining == stale
      requires |d| == tmpInSize == MIN_HEADER && tmpInTarget == 8 && stage == StoreSFrameSize
      requires header[..|d|] == d && d + rest == FrameBytes(f)
      ensures Ready(f, AtSkipSize, stale, rest) && Owed(f, AtSkipSize) == Owed(f, Whole)
    {
      hide FrameBytes, Bytes;
      StartOpens(f);
      assert header[4..7] == d[4..];
      assert d[4..] + rest == FrameBytes(f)[4..] == Bytes(f, AtSkipSize);
    }

    /** Enough of the frame is set aside to look at it. */
    method TakeHeader(ghost f: Frame, ghost stale: nat, ghost left: seq<byte>) returns (t: Turn, ghost a: Ahead)
      requires Valid() && ValidFrame(f) && remaining == stale && stage == StoreFrameHeader
      requires tmpInTarget == MIN_HEADER || (f.Lz4Frame? && tmpInTarget == HeaderSize(f.header))
      requires header[..tmpInTarget] + left == FrameBytes(f)
      modifies `info, `stage, `remaining, `maxBlockSize, `tmpInSize, `tmpInTarget, header
      ensures Ready(f, a, stale, left) && Owed(f, a) == Owed(f, Whole) && t == Again && (a == Whole || a == Behind(f))
    {
      hide ParseHeader, FrameBytes, ValidFrame, Owed, BlockSize;
      ghost var d := header[..tmpInTarget];
      StartParses(f, d, left);
      var error, used := DecodeHeader(header[..tmpInTarget], true);
      t := TurnOf(error);
      a := Whole;
      if f.Skippable? {
        a := AtSkipSize;
        SkipOpens(f, stale, d, left);
      } else if |d| == HeaderSize(f.header) {
        a := AtBlocks(f.blocks);
        assert left == FrameBytes(f)[|d|..];
        Opens(f, stale, left);
        StartOpens(f);
      }
    }

    method StoreHeader(src: seq<byte>, sp0: nat, ghost f: Frame, ghost stale: nat, ghost rest: seq<byte>,
                       ghost beyond: seq<byte>)
      returns (t: Turn, sp: nat, ghost a: Ahead)
      requires Ready(f, Whole, stale, rest) && stage == StoreFrameHeader
      requires sp0 <= |src| && src[sp0..] <= rest + beyond
      modifies `info, `stage, `remaining, `maxBlockSize, `tmpInSize, `tmpInTarget, header
      ensures sp0 <= sp <= |src| && sp - sp0 <= |rest|
      ensures Ready(f, a, stale, rest[sp - sp0..]) && Owed(f, a) == Owed(f, Whole)
      ensures !t.Failed? && (t.Wait? ==> t.hint == Hint() > 0 && sp == |src|) && (t.Again? ==> sp > sp0)
      ensures a == Whole || a == Behind(f)
    {
      hide ParseHeader, FrameBytes, ValidFrame, Owed;
      hide ReadyInit, ReadyBlocks, ReadyRaw, ReadyCheck, ReadyCode, ReadyFlush, ReadySuffix, ReadySkipSize, ReadySkip;
      LongEnough(f);
      sp := Collect(header, tmpInTarget, src, sp0, FrameBytes(f), rest, beyond);
      if tmpInSize < tmpInTarget {
        t, a := Wait(tmpInTarget - tmpInSize + BH_SIZE), Whole;
      } else {
        t, a := TakeHeader(f, stale, rest[sp - sp0..]);
      }
    }

    /** Enough input to decode a descriptor where it lies. */
    method DecodeInPlace(d: seq<byte>, ghost f: Frame, ghost stale: nat, ghost beyond: seq<byte>)
      returns (t: Turn, used: nat, ghost a: Ahead)
      requires ValidFrame(f) && Ready(f, Whole, stale, FrameBytes(f)) && stage == GetFrameHeader
      requires |d| >= MAX_HEADER && d <= FrameBytes(f) + beyond
      modifies `info, `stage, `remaining, `maxBlockSize, `tmpInSize, `tmpInTarget, header
      ensures t == Again && 0 < used <= |d| && used <= |FrameBytes(f)| && a == Behind(f)
      ensures Ready(f, a, stale, FrameBytes(f)[used..]) && Owed(f, a) == Owed(f, Whole)
    {
      hide FrameBytes, ReadyWhole, Owed, ReadyBlocks, ReadyInit, ParseHeader, Bytes, BlockSize, Descriptor, HeaderBytes, BlocksBytes, Content;
      WholeIs(f, stale, FrameBytes(f));
      LongEnough(f);
      StartParses(f, d, beyond);
      StartOpens(f);
      var error;
      error, used := DecodeHeader(d, false);
      t := TurnOf(error);
      if f.Skippable? {
        a := AtSkipSize;
      } else {
        a := AtBlocks(f.blocks);
        Opens(f, stale, FrameBytes(f)[used..]);
      }
    }

    method GetHeader(src: seq<byte>, sp0: nat, ghost f: Frame, ghost stale: nat, ghost rest: seq<byte>,
                     ghost beyond: seq<byte>)
      returns (t: Turn, sp: nat, ghost a: Ahead)
      requires Ready(f, Whole, stale, rest) && stage == GetFrameHeader
      requires sp0 <= |src| && src[sp0..] <= rest + beyond
      modifies `info, `stage, `remaining, `maxBlockSize, `tmpInSize, `tmpInTarget, header
      ensures sp0 <= sp <= |src| && sp - sp0 <= |rest|
      ensures Ready(f, a, stale, rest[sp - sp0..]) && Owed(f, a) == Owed(f, Whole)
      ensures !t.Failed? && (t.Wait? ==> t.hint == Hint() > 0 && sp == |src|) && (t.Again? ==> sp > sp0)
      ensures a == Whole || a == Behind(f)
    {
      hide FrameBytes, ValidFrame, Owed;
      hide ReadyInit, ReadyBlocks, ReadyRaw, ReadyCheck, ReadyCode, ReadyFlush, ReadySuffix, ReadySkip, ReadySkipSize;
      LongEnough(f);
      sp, a := sp0, Whole;
      if |src| - sp >= MAX_HEADER {
        var used;
        t, used, a := DecodeInPlace(src[sp..], f, stale, beyond);
        sp := sp + used;
        return t, sp, a;
      }
      tmpInSize := 0;
      assert rest[0..] == rest;
      if |src| - sp == 0 { return Wait(MIN_HEADER), sp, a; }
      tmpInTarget, stage := MIN_HEADER, StoreFrameHeader;
      assert header[..0] + rest == rest;
      t, sp, a := StoreHeader(src, sp, f, stale, rest, beyond);
    }

    // -------------------------------------------------------------- blocks

    /** Buffers of `needed` bytes of output, unless those at hand are large enough. */
    method Allocate(needed: nat)
      requires Valid() && IsBlockSize(maxBlockSize) && needed == maxBlockSize + (if info.independent then 0 else 131072)
      modifies `maxBufferSize, `tmpIn, `tmpOut
      ensures Valid() && tmpIn.Length >= maxBlockSize + 4 && tmpOut.Length >= maxBlockSize
      ensures (tmpIn == old(tmpIn) && tmpOut == old(tmpOut)) || (fresh(tmpIn) && fresh(tmpOut))
    {
      if needed > maxBufferSize {
        tmpIn := new byte[maxBlockSize + BF_SIZE];
        tmpOut := new byte[needed];
        maxBufferSize := needed;
      }
    }

    lemma InitFits(f: Frame)
      requires f.Lz4Frame? && Fits(f, AtBlocks(f.blocks))
      ensures 4 <= f.header.blockSizeID <= 7 && IsBlockSize(BlockSize(f.header.blockSizeID)) && InfoOf(f.header).independent
      ensures f.header.size.Some? ==> f.header.size.value == |Undecoded(f, AtBlocks(f.blocks))|
      ensures [] + Undecoded(f, AtBlocks(f.blocks)) == Content(f.blocks)
    {
      StartCounts(f);
    }

    method Initialise(ghost f: Frame, ghost stale: nat, ghost rest: seq<byte>)
      requires f.Lz4Frame? && Fits(f, AtBlocks(f.blocks)) && Valid() && ReadyInit(f, stale, rest)
      modifies this
      ensures Valid() && ReadyBlocks(f, f.blocks, stale, rest) && stage == GetBlockHeader
      ensures (tmpIn == old(tmpIn) && tmpOut == old(tmpOut)) || (fresh(tmpIn) && fresh(tmpOut))
    {
      hide Bytes, ValidBlocks, FrameBytes, Undecoded, Content, Fits, BlockSize, Owed, IsBlockSize;
      InitFits(f);
      if info.contentChecksum { xxh := []; }
      Allocate(maxBlockSize + if info.independent then 0 else 131072);
      tmpInSize, tmpInTarget, tmpOutStart, tmpOutSize := 0, 0, 0, 0;
      stage := GetBlockHeader;
    }

    /** The four bytes `word` are the next size field, or the input ended before them. */
    ghost predicate Fielded(f: Frame, bs: seq<Block>, stale: nat, word: seq<byte>, rest: seq<byte>)
      requires Fits(f, AtBlocks(bs))
      reads this, tmpIn
    {
      && Valid() && Opened(f.header) && Counts(f, AtBlocks(bs), stale)
      && if |word| == 4 then word + rest == Bytes(f, AtBlocks(bs))
         else stage == StoreBlockHeader && tmpInSize < 4 && tmpIn[..tmpInSize] + rest == Bytes(f, AtBlocks(bs))
    }

    /** The size field of the next block, collected in `tmpIn`. */
    method CollectBlockField(src: seq<byte>, sp0: nat, ghost f: Frame, ghost bs: seq<Block>, ghost stale: nat,
                             ghost rest: seq<byte>, ghost beyond: seq<byte>)
      returns (word: seq<byte>, sp: nat)
      requires Fits(f, AtBlocks(bs)) && Fielded(f, bs, stale, [], rest)
      requires sp0 <= |src| && src[sp0..] <= rest + beyond
      modifies `tmpInSize, tmpIn
      ensures sp0 <= sp <= |src| && sp - sp0 <= |rest|
      ensures Fielded(f, bs, stale, word, rest[sp - sp0..])
      ensures if |word| == 4 then sp > sp0 else sp == |src|
    {
      hide Fits, Bytes, Content, BlockSize, InfoOf, ValidFrame, Undecoded, IsBlockSize;
      AtLeast4(f, AtBlocks(bs));
      sp := Collect(tmpIn, 4, src, sp0, Bytes(f, AtBlocks(bs)), rest, beyond);
      word := tmpIn[..tmpInSize];
    }

    /** The size field of the next block, read in place if the input holds all of it. */
    method FetchBlockField(src: seq<byte>, sp0: nat, ghost f: Frame, ghost bs: seq<Block>, ghost stale: nat,
                           ghost rest: seq<byte>, ghost beyond: seq<byte>)
      returns (word: seq<byte>, sp: nat)
      requires Fits(f, AtBlocks(bs)) && Valid() && ReadyBlocks(f, bs, stale, rest)
      requires sp0 <= |src| && src[sp0..] <= rest + beyond
      modifies `stage, `tmpInSize, tmpIn
      ensures sp0 <= sp <= |src| && sp - sp0 <= |rest|
      ensures Fielded(f, bs, stale, word, rest[sp - sp0..])
      ensures if |word| == 4 then sp > sp0 else sp == |src|
    {
      hide Fits, Bytes, Content, BlockSize, InfoOf, ValidFrame, Undecoded, IsBlockSize;
      if stage == GetBlockHeader && |src| - sp0 >= BH_SIZE {
        AtLeast4(f, AtBlocks(bs));
        StreamTake(src, sp0, BH_SIZE, rest, beyond);
        word, sp := src[sp0..sp0 + BH_SIZE], sp0 + BH_SIZE;
        assert word + rest[4..] == rest;
      } else {
        if stage == GetBlockHeader {
          tmpInSize, stage := 0, StoreBlockHeader;
          assert tmpIn[..0] + rest == rest;
        }
        word, sp := CollectBlockField(src, sp0, f, bs, stale, rest, beyond);
      }
    }

    /** Act on a size field. A compressed block needs both input and room to be worth starting. */
    method TakeBlockField(word: seq<byte>, stuck: bool, ghost f: Frame, ghost bs: seq<Block>, ghost stale: nat,
                          ghost rest: seq<byte>)
      returns (t: Turn, ghost a: Ahead)
      requires Fits(f, AtBlocks(bs)) && |word| == 4 && Fielded(f, bs, stale, word, rest)
      modifies `stage, `tmpInTarget, `blockXxh
      ensures Ready(f, a, stale, rest) && Owed(f, a) == Owed(f, AtBlocks(bs))
      ensures t == Again || (t.Wait? && t.hint == Hint() > 0 && stuck)
      ensures stage != Init && stage != StoreCBlock && (t.Wait? ==> Midway(a))
    {
      hide Bytes, ReadLE, BlockSize, ValidFrame, ValidBlocks, ValidBlockIn, Content, Ready, Fits, Owed, Undecoded, Counts;
      var size := ReadLE(word) % UNCOMPRESSED_FLAG;
      var crcSize := if info.blockChecksum then BF_SIZE else 0;
      t := Again;
      a := Next(bs);
      FieldMeans(f, bs, word, rest);
      SameCounts(f, AtBlocks(bs), a, stale);
      if size == 0 {
        stage := GetSuffix;
      } else if size > maxBlockSize {
        t := Failed(MaxBlockSizeInvalid);
      } else if ReadLE(word) >= UNCOMPRESSED_FLAG {
        tmpInTarget := size;
        if info.blockChecksum { blockXxh := []; }
        stage := CopyDirect;
      } else {
        tmpInTarget := size + crcSize;
        stage := GetCBlock;
        if stuck { t := Wait(BH_SIZE + size + crcSize); }
      }
      NowNext(f, bs, stale, rest);
    }

    /** The point behind a size field. */
    ghost function Next(bs: seq<Block>): Ahead {
      if bs == [] then AtSuffix else InBlock(bs[0], bs[1..])
    }

    /** What a size field says. */
    lemma FieldMeans(f: Frame, bs: seq<Block>, word: seq<byte>, rest: seq<byte>)
      requires Fits(f, AtBlocks(bs)) && |word| == 4 && word + rest == Bytes(f, AtBlocks(bs))
      ensures f.Lz4Frame? && Fits(f, Next(bs)) && rest == Bytes(f, Next(bs))
      ensures Undecoded(f, Next(bs)) == Undecoded(f, AtBlocks(bs)) && Owed(f, Next(bs)) == Owed(f, AtBlocks(bs))
      ensures 4 <= f.header.blockSizeID <= 7 && ReadLE(word) % UNCOMPRESSED_FLAG <= BlockSize(f.header.blockSizeID)
      ensures bs == [] <==> ReadLE(word) % UNCOMPRESSED_FLAG == 0
      ensures bs != [] ==> ReadLE(word) % UNCOMPRESSED_FLAG == |Payload(bs[0])| && (bs[0].Raw? <==> ReadLE(word) >= UNCOMPRESSED_FLAG)
    {
      hide Bytes, ReadLE, BlockSize, ValidBlocks, ValidBlockIn, Content;
      if bs == [] {
        EndField(f, word, rest);
      } else {
        assert bs == [bs[0]] + bs[1..];
        SizeField(f, bs[0], bs[1..], word, rest);
      }
    }

    lemma NowNext(f: Frame, bs: seq<Block>, stale: nat, rest: seq<byte>)
      requires Valid() && Fits(f, Next(bs)) && Opened(f.header) && rest == Bytes(f, Next(bs))
      requires Counts(f, Next(bs), stale)
      requires if bs == [] then stage == GetSuffix
               else if bs[0].Raw? then
                 stage == CopyDirect && tmpInTarget == |Payload(bs[0])| && (f.header.blockChecksum ==> blockXxh == [])
               else stage == GetCBlock && tmpInTarget == |Payload(bs[0])| + if f.header.blockChecksum then 4 else 0
      ensures Ready(f, Next(bs), stale, rest)
    {
      hide Bytes, Counts, Fits, Valid, BlockSize, InfoOf;
    }

    method BlockHeader(src: seq<byte>, sp0: nat, full: bool, ghost f: Frame, ghost bs: seq<Block>, ghost stale: nat,
                       ghost rest: seq<byte>, ghost beyond: seq<byte>)
      returns (t: Turn, sp: nat, ghost a: Ahead)
      requires Fits(f, AtBlocks(bs)) && Valid() && ReadyBlocks(f, bs, stale, rest)
      requires sp0 <= |src| && src[sp0..] <= rest + beyond
      modifies `stage, `tmpInSize, `tmpInTarget, `blockXxh, tmpIn
      ensures sp0 <= sp <= |src| && sp - sp0 <= |rest|
      ensures Ready(f, a, stale, rest[sp - sp0..]) && Owed(f, a) == Owed(f, AtBlocks(bs))
      ensures !t.Failed? && (t.Wait? ==> t.hint == Hint() > 0 && (sp == |src| || full)) && (t.Again? ==> sp > sp0)
      ensures stage != Init && (t.Wait? ==> Midway(a))
    {
      hide Fits, Bytes, Content, BlockSize, InfoOf, ValidFrame, Undecoded, IsBlockSize, Owed;
      hide ReadyWhole, ReadyInit, ReadyCheck, ReadyFlush, ReadySkip, ReadySkipSize, ReadyCode, ReadyRaw, ReadySuffix;
      var word;
      word, sp := FetchBlockField(src, sp0, f, bs, stale, rest, beyond);
      if |word| == 4 {
        t, a := TakeBlockField(word, full || sp == |src|, f, bs, stale, rest[sp - sp0..]);
      } else {
        t, a := Wait(BH_SIZE - tmpInSize), AtBlocks(bs);
      }
    }

    // -------------------------------------------------------------- stored blocks

    /** Bytes `x` of content have been decoded: take them off the count, add them to the checksum. */
    method Account(x: seq<byte>, ghost f: Frame, ghost a0: Ahead, ghost a: Ahead, ghost stale: nat)
      requires f.Lz4Frame? && info == InfoOf(f.header) && Counts(f, a0, stale)
      requires Undecoded(f, a0) == x + Undecoded(f, a)
      modifies `xxh, `remaining
      ensures Counts(f, a, stale)
    {
      hide Undecoded, Content;
      if info.contentChecksum {
        assert xxh + (x + Undecoded(f, a)) == (xxh + x) + Undecoded(f, a);
        xxh := xxh + x;
      }
      if info.contentSize > 0 { remaining := remaining - |x|; }
    }

    lemma SameCounts(f: Frame, a: Ahead, b: Ahead, stale: nat)
      requires f.Lz4Frame? && Undecoded(f, a) == Undecoded(f, b) && Counts(f, a, stale)
      ensures Counts(f, b, stale)
    {
    }

    /** A stored block goes straight from the input to the output. */
    method CopyOut(dst: array<byte>, dp0: nat, src: seq<byte>, sp0: nat, ghost f: Frame, ghost a0: Ahead,
                   ghost stale: nat,
                   ghost rest: seq<byte>, ghost beyond: seq<byte>)
      returns (t: Turn, sp: nat, dp: nat, ghost a: Ahead)
      requires a0.InRaw? && Fits(f, a0) && Valid() && ReadyRaw(f, a0, stale, rest)
      requires sp0 <= |src| && src[sp0..] <= rest + beyond
      requires dp0 <= dst.Length && dst != tmpIn && dst != tmpOut && dst != header
      modifies `stage, `tmpInSize, `tmpInTarget, `blockXxh, `xxh, `remaining, dst
      ensures sp0 <= sp <= |src| && sp - sp0 <= |rest| && dp0 <= dp <= dst.Length
      ensures Ready(f, a, stale, rest[sp - sp0..])
      ensures dst[..dp] == old(dst[..dp0]) + src[sp0..sp] && Owed(f, a0) == src[sp0..sp] + Owed(f, a)
      ensures !t.Failed? && (t.Wait? ==> t.hint == Hint() > 0 && (sp == |src| || dp == dst.Length)) && (t.Again? ==> sp > sp0)
      ensures stage != Init && Midway(a)
    {
      hide Fits, Bytes, Content, BlockSize, InfoOf, ValidFrame, Undecoded, IsBlockSize, Counts;
      hide Ready;
      RawLeft(f, a0);
      InfoFlags(f.header);
      var n := Min(tmpInTarget, Min(|src| - sp0, dst.Length - dp0));
      RawIsInput(f, a0, src, sp0, n, rest, beyond);
      CopyBytes(dst, dp0, src, sp0, n);
      sp, dp := sp0 + n, dp0 + n;
      if info.blockChecksum { blockXxh := blockXxh + src[sp0..sp]; }
      a := RawNext(f, a0, n);
      RawMoves(f, a0, n);
      Account(src[sp0..sp], f, a0, a, stale);
      t := RawTurn(n, f, a0, stale, rest[n..]);
    }

    /** Where a stored block goes on after `n` of its bytes. */
    method RawTurn(n: nat, ghost f: Frame, ghost a0: Ahead, ghost stale: nat, ghost rest: seq<byte>) returns (t: Turn)
      requires a0.InRaw? && Fits(f, a0) && Valid() && n <= tmpInTarget == |a0.left| && stage == CopyDirect
      requires Fits(f, RawNext(f, a0, n)) && f.Lz4Frame? && rest == Bytes(f, RawNext(f, a0, n))
      requires Opened(f.header) && Counts(f, RawNext(f, a0, n), stale)
      requires f.header.blockChecksum ==> blockXxh == a0.seen + a0.left[..n]
      modifies `stage, `tmpInSize, `tmpInTarget
      ensures Ready(f, RawNext(f, a0, n), stale, rest)
      ensures if n == |a0.left| then t == Again else t.Wait? && t.hint == Hint() > 0
      ensures stage != Init
    {
      hide Fits, Bytes, Content, BlockSize, InfoOf, ValidFrame, Undecoded, IsBlockSize, Counts;
      hide ReadyWhole, ReadyInit, ReadyFlush, ReadySkip, ReadySkipSize, ReadyCode, ReadySuffix;
      InfoFlags(f.header);
      if n == tmpInTarget {
        t := Again;
        assert a0.left[..n] == a0.left;
        if info.blockChecksum {
          tmpInSize, stage := 0, GetBlockChecksum;
          assert header[..0] + rest == rest;
        } else {
          stage := GetBlockHeader;
        }
      } else {
        tmpInTarget := tmpInTarget - n;
        t := Wait(tmpInTarget + (if info.blockChecksum then BF_SIZE else 0) + BH_SIZE);
      }
    }

    /** The four bytes behind a stored block, in place or collected in `header`. */
    method FetchCheckField(src: seq<byte>, sp0: nat, ghost f: Frame, ghost a0: Ahead, ghost stale: nat,
                           ghost rest: seq<byte>, ghost beyond: seq<byte>)
      returns (word: seq<byte>, sp: nat)
      requires a0.AtCheck? && Fits(f, a0) && Valid() && ReadyCheck(f, a0, stale, rest)
      requires sp0 <= |src| && src[sp0..] <= rest + beyond
      modifies `tmpInSize, header
      ensures sp0 <= sp <= |src| && sp - sp0 <= |rest|
      ensures if |word| == 4 then sp > sp0 && word + rest[sp - sp0..] == Bytes(f, a0)
              else sp == |src| && ReadyCheck(f, a0, stale, rest[sp - sp0..])
    {
      hide Fits, Bytes, Opened, ValidFrame, IsBlockSize, Counts;
      AtLeast4(f, a0);
      if |src| - sp0 >= 4 && tmpInSize == 0 {
        StreamTake(src, sp0, 4, rest, beyond);
        word, sp := src[sp0..sp0 + 4], sp0 + 4;
        assert header[..0] + rest == word + rest[4..];
      } else {
        sp := Collect(header, 4, src, sp0, Bytes(f, a0), rest, beyond);
        word := header[..tmpInSize];
      }
    }

    /** The checksum behind a stored block. */
    method BlockChecksum(src: seq<byte>, sp0: nat, ghost f: Frame, ghost a0: Ahead, ghost stale: nat,
                         ghost rest: seq<byte>, ghost beyond: seq<byte>)
      returns (t: Turn, sp: nat, ghost a: Ahead)
      requires a0.AtCheck? && Fits(f, a0) && Valid() && ReadyCheck(f, a0, stale, rest)
      requires sp0 <= |src| && src[sp0..] <= rest + beyond
      modifies `stage, `tmpInSize, header
      ensures sp0 <= sp <= |src| && sp - sp0 <= |rest|
      ensures Ready(f, a, stale, rest[sp - sp0..]) && Owed(f, a) == Owed(f, a0)
      ensures !t.Failed? && (t.Wait? ==> t.hint == Hint() > 0 && sp == |src|) && (t.Again? ==> sp > sp0)
      ensures stage != Init && Midway(a)
    {
      hide Fits, Bytes, Content, BlockSize, InfoOf, ValidFrame, Undecoded, IsBlockSize, Counts, Checksum, ReadLE, Opened, Ready, Owed;
      var word;
      word, sp := FetchCheckField(src, sp0, f, a0, stale, rest, beyond);
      t, a := Wait(1), a0;
      if |word| == 4 {
        CheckField(f, a0, word, rest[sp - sp0..]);
        a := AtBlocks(a0.bs);
        SameCounts(f, a0, a, stale);
        t := if ReadLE(word) != Checksum(blockXxh) then Failed(BlockChecksumInvalid) else Again;
        stage := GetBlockHeader;
        NowBlocks(f, a.bs, stale, rest[sp - sp0..]);
      } else {
        NowCheck(f, a, stale, rest[sp - sp0..]);
      }
    }

    // -------------------------------------------------------------- compressed blocks

    /** LZ4_decompress_safe into `out` at `at`, with room for `max` bytes; -1 if it fails. */
    method DecompressBlock(code: seq<byte>, out: array<byte>, at: nat, max: nat) returns (n: int)
      requires at + max <= out.Length
      modifies out
      ensures match Decode(code)
              case Some(data) => if |data| <= max then n == |data| && out[..at + |data|] == old(out[..at]) + data else n == -1
              case None => n == -1
    {
      match Decode(code)
      case None => n := -1;
      case Some(data) =>
        if |data| > max { return -1; }
        CopyBytes(out, at, data, 0, |data|);
        assert data[0..|data|] == data;
        n := |data|;
    }

    /** Deliver what fits of a decoded block. */
    method Flush(dst: array<byte>, dp0: nat, ghost f: Frame, ghost a0: Ahead, ghost stale: nat, ghost rest: seq<byte>)
      returns (t: Turn, dp: nat, ghost a: Ahead)
      requires a0.Flushing? && Fits(f, a0) && Valid() && ReadyFlush(f, a0, stale, rest)
      requires dp0 <= dst.Length && dst != tmpIn && dst != tmpOut && dst != header
      modifies `stage, `tmpOutStart, dst
      ensures dp0 <= dp <= dst.Length
      ensures Ready(f, a, stale, rest)
      ensures dst[..dp] + Owed(f, a) == old(dst[..dp0]) + Owed(f, a0)
      ensures if t.Again? then a == AtBlocks(a0.bs) else t.Wait? && t.hint == Hint() > 0 && dp == dst.Length
      ensures t.Again? && a0.left != [] ==> dp > dp0
      ensures stage != Init && stage != StoreCBlock && Midway(a) && (t.Again? ==> stage == GetBlockHeader)
    {
      hide Fits, Bytes, Content, BlockSize, InfoOf, ValidFrame, Undecoded, IsBlockSize, Counts, Ready, Owed, Hint, Opened;
      var n := Min(tmpOutSize - tmpOutStart, dst.Length - dp0);
      FlushMoves(f, a0, n);
      CopyBytes(dst, dp0, tmpOut[tmpOutStart..tmpOutSize], 0, n);
      assert dst[..dp0 + n] == old(dst[..dp0]) + a0.left[..n];
      dp := dp0 + n;
      t, a := FlushTurn(n, f, a0, stale, rest);
    }

    method FlushTurn(n: nat, ghost f: Frame, ghost a0: Ahead, ghost stale: nat, ghost rest: seq<byte>)
      returns (t: Turn, ghost a: Ahead)
      requires a0.Flushing? && Fits(f, a0) && Valid() && ReadyFlush(f, a0, stale, rest) && n <= |a0.left|
      modifies `stage, `tmpOutStart
      ensures a == if n < |a0.left| then Flushing(a0.left[n..], a0.bs) else AtBlocks(a0.bs)
      ensures Ready(f, a, stale, rest)
      ensures if n < |a0.left| then t.Wait? && t.hint == Hint() > 0 else t == Again
      ensures stage != Init && stage != StoreCBlock && (t.Again? ==> stage == GetBlockHeader)
    {
      hide Fits, Bytes, Content, BlockSize, InfoOf, ValidFrame, Undecoded, IsBlockSize, Counts;
      hide ReadyWhole, ReadyInit, ReadyRaw, ReadySkip, ReadySkipSize, ReadyCode, ReadySuffix, ReadyCheck;
      FlushMoves(f, a0, n);
      tmpOutStart := tmpOutStart + n;
      if tmpOutStart == tmpOutSize {
        stage := GetBlockHeader;
        t, a := Again, AtBlocks(a0.bs);
      } else {
        t, a := Wait(BH_SIZE), Flushing(a0.left[n..], a0.bs);
        assert tmpOut[tmpOutStart..tmpOutSize] == a0.left[n..];
      }
      SameCounts(f, a0, a, stale);
    }

    /** All of a compressed block is at hand: decode it into the output if a whole block fits there,
        and through `tmpOut` otherwise. */
    method UseBlock(selected: seq<byte>, dst: array<byte>, dp0: nat, ghost f: Frame, ghost a0: Ahead, ghost stale: nat,
                    ghost rest: seq<byte>)
      returns (t: Turn, dp: nat, ghost a: Ahead)
      requires a0.AtCode? && Fits(f, a0) && Valid() && f.Lz4Frame? && Opened(f.header) && Counts(f, a0, stale)
      requires |selected| == tmpInTarget && |a0.code| <= tmpInTarget && selected + rest == Bytes(f, a0)
      requires tmpInTarget == |a0.code| + if f.header.blockChecksum then 4 else 0
      requires dp0 <= dst.Length && dst != tmpIn && dst != tmpOut && dst != header
      modifies `stage, `tmpInTarget, `xxh, `remaining, `tmpOutSize, `tmpOutStart, tmpOut, dst
      ensures dp0 <= dp <= dst.Length
      ensures Ready(f, a, stale, rest)
      ensures dst[..dp] + Owed(f, a) == old(dst[..dp0]) + Owed(f, a0)
      ensures t.Again? || (t.Wait? && t.hint == Hint() > 0 && dp == dst.Length)
      ensures stage != Init && stage != StoreCBlock && Midway(a)
    {
      hide Fits, Bytes, Content, ValidFrame, Undecoded, IsBlockSize, Counts, ReadLE, Checksum, Ready, Owed, Decode;
      CodeField(f, a0, selected, rest);
      var error: Option<Error> := None;
      var size := tmpInTarget;
      if info.blockChecksum {
        size := size - 4;
        tmpInTarget := size;
        if ReadLE(selected[size..]) != Checksum(selected[..size]) { error := Some(BlockChecksumInvalid); }
      }
      t, dp, a := TurnOf(error), dp0, a0;
      if t.Again? {
        t, dp, a := DecodeBlock(selected[..size], dst, dp0, f, a0, stale, rest);
      }
    }

    /** Decode straight into the output. */
    method DecodeDirect(code: seq<byte>, dst: array<byte>, dp0: nat, ghost f: Frame, ghost a0: Ahead, ghost stale: nat,
                        ghost rest: seq<byte>)
      returns (t: Turn, dp: nat)
      requires a0.AtCode? && Fits(f, a0) && Valid() && f.Lz4Frame? && Opened(f.header) && Counts(f, a0, stale)
      requires code == a0.code && Decode(code) == Some(a0.data) && |a0.data| <= maxBlockSize && rest == Bytes(f, AfterCode(f, a0))
      requires dp0 + maxBlockSize <= dst.Length && dst != tmpIn && dst != tmpOut && dst != header
      modifies `stage, `xxh, `remaining, dst
      ensures dp0 <= dp <= dst.Length && t == Again
      ensures Ready(f, AtBlocks(a0.bs), stale, rest) && stage == GetBlockHeader
      ensures dst[..dp] == old(dst[..dp0]) + a0.data
    {
      hide Fits, Bytes, Content, ValidFrame, Undecoded, IsBlockSize, Counts, Owed, Decode;
      hide ReadyWhole, ReadyInit, ReadyRaw, ReadySkip, ReadySkipSize, ReadyCode, ReadySuffix, ReadyCheck;
      CodeOpens(f, a0);
      t, dp := Again, dp0;
      var n := DecompressBlock(code, dst, dp0, maxBlockSize);
      if n < 0 { t := Failed(DecompressionFailed); }
      if t.Again? {
        assert dst[dp0..dp0 + n] == dst[..dp0 + n][dp0..];
        Account(dst[dp0..dp0 + n], f, a0, AtBlocks(a0.bs), stale);
        dp := dp0 + n;
        stage := GetBlockHeader;
      }
    }

    /** Decode into `tmpOut`, to be flushed from there. */
    method DecodeAside(code: seq<byte>, ghost f: Frame, ghost a0: Ahead, ghost stale: nat, ghost rest: seq<byte>)
      returns (t: Turn)
      requires a0.AtCode? && Fits(f, a0) && Valid() && f.Lz4Frame? && Opened(f.header) && Counts(f, a0, stale)
      requires code == a0.code && Decode(code) == Some(a0.data) && |a0.data| <= maxBlockSize && rest == Bytes(f, AfterCode(f, a0))
      modifies `stage, `xxh, `remaining, `tmpOutSize, `tmpOutStart, tmpOut
      ensures t == Again && Fits(f, Flushing(a0.data, a0.bs)) && Valid() && ReadyFlush(f, Flushing(a0.data, a0.bs), stale, rest)
    {
      hide Fits, Bytes, Content, ValidFrame, Undecoded, IsBlockSize, Counts, Decode;
      CodeOpens(f, a0);
      t := Again;
      var n := DecompressBlock(code, tmpOut, 0, maxBlockSize);
      if n < 0 { t := Failed(DecompressionFailed); }
      if t.Again? {
        assert tmpOut[..n] == a0.data;
        Account(tmpOut[..n], f, a0, Flushing(a0.data, a0.bs), stale);
        tmpOutSize, tmpOutStart, stage := n, 0, FlushOut;
      }
    }

    method DecodeBlock(code: seq<byte>, dst: array<byte>, dp0: nat, ghost f: Frame, ghost a0: Ahead, ghost stale: nat,
                       ghost rest: seq<byte>)
      returns (t: Turn, dp: nat, ghost a: Ahead)
      requires a0.AtCode? && Fits(f, a0) && Valid() && f.Lz4Frame? && Opened(f.header) && Counts(f, a0, stale)
      requires code == a0.code && Decode(code) == Some(a0.data) && |a0.data| <= maxBlockSize && rest == Bytes(f, AfterCode(f, a0))
      requires dp0 <= dst.Length && dst != tmpIn && dst != tmpOut && dst != header
      modifies `stage, `xxh, `remaining, `tmpOutSize, `tmpOutStart, tmpOut, dst
      ensures dp0 <= dp <= dst.Length
      ensures Ready(f, a, stale, rest)
      ensures dst[..dp] + Owed(f, a) == old(dst[..dp0]) + Owed(f, a0)
      ensures t.Again? || (t.Wait? && t.hint == Hint() > 0 && dp == dst.Length)
      ensures stage != Init && stage != StoreCBlock && Midway(a)
    {
      hide Fits, Bytes, Content, ValidFrame, Undecoded, IsBlockSize, Counts, Owed, Decode, Ready, ReadyFlush, Opened;
      CodeOpens(f, a0);
      dp := dp0;
      if dst.Length - dp0 >= maxBlockSize {
        t, dp := DecodeDirect(code, dst, dp0, f, a0, stale, rest);
        a := AtBlocks(a0.bs);
      } else {
        t := DecodeAside(code, f, a0, stale, rest);
        a := Flushing(a0.data, a0.bs);
        if t.Again? { t, dp, a := Flush(dst, dp0, f, a, stale, rest); }
      }
    }

    /** A whole compressed block, in place or collected in `tmpIn`; `selected` is empty if it is not complete. */
    method FetchBlock(src: seq<byte>, sp0: nat, ghost f: Frame, ghost a0: Ahead, ghost stale: nat,
                      ghost rest: seq<byte>, ghost beyond: seq<byte>)
      returns (selected: seq<byte>, sp: nat)
      requires a0.AtCode? && Fits(f, a0) && f.Lz4Frame? && Valid() && ReadyCode(f, a0, stale, rest)
      requires sp0 <= |src| && src[sp0..] <= rest + beyond
      modifies `stage, `tmpInSize, tmpIn
      ensures sp0 <= sp <= |src| && sp - sp0 <= |rest| && Valid()
      ensures if selected == [] then
                ReadyCode(f, a0, stale, rest[sp - sp0..]) && stage == StoreCBlock && (sp == |src| || old(stage) == GetCBlock)
              else
                |selected| == tmpInTarget && selected + rest[sp - sp0..] == Bytes(f, a0) && sp > sp0
    {
      hide Fits, Bytes, BlockSize, ValidFrame, IsBlockSize, Counts, InfoOf;
      CodeLength(f, a0);
      sp, selected := sp0, [];
      if stage == GetCBlock {
        if |src| - sp0 < tmpInTarget {
          tmpInSize, stage := 0, StoreCBlock;
          assert tmpIn[..0] + rest == rest == rest[0..];
        } else {
          StreamTake(src, sp0, tmpInTarget, rest, beyond);
          selected, sp := src[sp0..sp0 + tmpInTarget], sp0 + tmpInTarget;
          assert selected + rest[tmpInTarget..] == rest;
        }
      } else {
        sp := Collect(tmpIn, tmpInTarget, src, sp0, Bytes(f, a0), rest, beyond);
        if tmpInSize == tmpInTarget { selected := tmpIn[..tmpInTarget]; }
      }
    }

    method CodeBlock(dst: array<byte>, dp0: nat, src: seq<byte>, sp0: nat, ghost f: Frame, ghost a0: Ahead,
                     ghost stale: nat,
                     ghost rest: seq<byte>, ghost beyond: seq<byte>)
      returns (t: Turn, sp: nat, dp: nat, ghost a: Ahead)
      requires a0.AtCode? && Fits(f, a0) && f.Lz4Frame? && Valid() && ReadyCode(f, a0, stale, rest)
      requires sp0 <= |src| && src[sp0..] <= rest + beyond
      requires dp0 <= dst.Length && dst != tmpIn && dst != tmpOut && dst != header
      modifies `stage, `tmpInSize, `tmpInTarget, `xxh, `remaining, `tmpOutSize, `tmpOutStart, tmpIn, tmpOut, dst
      ensures sp0 <= sp <= |src| && sp - sp0 <= |rest| && dp0 <= dp <= dst.Length
      ensures Ready(f, a, stale, rest[sp - sp0..])
      ensures dst[..dp] + Owed(f, a) == old(dst[..dp0]) + Owed(f, a0)
      ensures !t.Failed? && (t.Wait? ==> t.hint == Hint() > 0 && (sp == |src| || dp == dst.Length))
      ensures t.Again? ==> sp > sp0 || (old(stage) == GetCBlock && stage == StoreCBlock)
      ensures stage != Init && Midway(a)
    {
      hide Fits, Bytes, Content, ValidFrame, Undecoded, IsBlockSize, Counts, Owed, BlockSize, InfoOf;
      hide ReadyWhole, ReadyInit, ReadyRaw, ReadySkip, ReadySkipSize, ReadySuffix, ReadyCheck, ReadyFlush, ReadyBlocks;
      var selected;
      var stage0 := stage;
      selected, sp := FetchBlock(src, sp0, f, a0, stale, rest, beyond);
      if selected != [] {
        t, dp, a := UseBlock(selected, dst, dp0, f, a0, stale, rest[sp - sp0..]);
      } else if stage0 == GetCBlock {
        t, dp, a := Again, dp0, a0;
      } else {
        t := Wait(tmpInTarget - tmpInSize + (if info.blockChecksum then BF_SIZE else 0) + BH_SIZE);
        dp, a := dp0, a0;
      }
    }

    // -------------------------------------------------------------- the end of a frame

    /** The four bytes behind the end mark, in place or collected in `tmpIn`. */
    method FetchSuffix(src: seq<byte>, sp0: nat, ghost f: Frame, ghost stale: nat, ghost rest: seq<byte>,
                       ghost beyond: seq<byte>)
      returns (word: seq<byte>, sp: nat)
      requires Fits(f, AtSuffix) && f.Lz4Frame? && Valid() && ReadySuffix(f, stale, rest)
      requires f.header.contentChecksum && remaining == 0
      requires sp0 <= |src| && src[sp0..] <= rest + beyond
      modifies `stage, `tmpInSize, tmpIn
      ensures sp0 <= sp <= |src| && sp - sp0 <= |rest|
      ensures |word| <= 4
      ensures if |word| == 4 then word + rest[sp - sp0..] == Bytes(f, AtSuffix)
              else sp == |src| && ReadySuffix(f, stale, rest[sp - sp0..]) && stage == StoreSuffix && tmpInSize == |word|
    {
      hide Fits, Bytes, ValidFrame, IsBlockSize, Counts, InfoOf;
      SuffixLength(f);
      if stage == GetSuffix && |src| - sp0 >= 4 {
        StreamTake(src, sp0, 4, rest, beyond);
        word, sp := src[sp0..sp0 + 4], sp0 + 4;
        assert word + rest[4..] == rest;
      } else {
        if stage == GetSuffix {
          tmpInSize, stage := 0, StoreSuffix;
          assert tmpIn[..0] + rest == rest;
        }
        sp := Collect(tmpIn, 4, src, sp0, Bytes(f, AtSuffix), rest, beyond);
        word := tmpIn[..tmpInSize];
      }
    }

    /** The frame is complete if nothing is missing of its announced size and the checksum agrees. A count
        left over from an abandoned frame is taken for missing content. */
    method EndFrame(src: seq<byte>, sp0: nat, ghost f: Frame, ghost stale: nat, ghost rest: seq<byte>,
                    ghost beyond: seq<byte>)
      returns (t: Turn, sp: nat)
      requires Fits(f, AtSuffix) && f.Lz4Frame? && Valid() && ReadySuffix(f, stale, rest)
      requires sp0 <= |src| && src[sp0..] <= rest + beyond
      modifies `stage, `tmpInSize, tmpIn
      ensures sp0 <= sp <= |src| && sp - sp0 <= |rest|
      ensures !t.Again?
      ensures t.Failed? ==> t.error == FrameSizeWrong && f.header.size.None? && stale != 0
      ensures t.Wait? ==> f.header.size.Some? || stale == 0
      ensures t == Wait(0) ==> Valid() && stage == GetFrameHeader && remaining == 0 && sp - sp0 == |rest|
      ensures info == InfoOf(f.header)
      ensures t.Wait? && t.hint > 0 ==>
                && t.hint == Hint() && sp == |src| && stage == StoreSuffix
                && Valid() && ReadySuffix(f, stale, rest[sp - sp0..])
    {
      hide Fits, Bytes, ValidFrame, IsBlockSize, Counts, ReadLE, Checksum;
      EndCounts(f, stale);
      sp := sp0;
      if stage == GetSuffix && remaining != 0 { return Failed(FrameSizeWrong), sp; }
      SuffixLength(f);
      if !info.contentChecksum {
        stage := GetFrameHeader;
        return Wait(0), sp;
      }
      var word;
      word, sp := FetchSuffix(src, sp0, f, stale, rest, beyond);
      if |word| < 4 { return Wait(4 - |word|), sp; }
      SuffixField(f, word, rest[sp - sp0..]);
      t := if ReadLE(word) != Checksum(xxh) then Failed(ContentChecksumInvalid) else Wait(0);
      stage := GetFrameHeader;
    }

    lemma EndCounts(f: Frame, stale: nat)
      requires f.Lz4Frame? && Fits(f, AtSuffix) && Counts(f, AtSuffix, stale)
      ensures remaining == (if f.header.size.Some? then 0 else stale)
      ensures f.header.contentChecksum ==> xxh == Content(f.blocks)
    {
      assert xxh + [] == xxh;
    }

    // -------------------------------------------------------------- skippable frames

    /** The size of a skippable frame, collected in `header` behind the magic number. */
    method CollectSkipField(src: seq<byte>, sp0: nat, ghost f: Frame, ghost stale: nat, ghost rest: seq<byte>,
                            ghost beyond: seq<byte>)
      returns (word: seq<byte>, sp: nat)
      requires Fits(f, AtSkipSize) && f.Skippable? && Valid() && ReadySkipSize(f, stale, rest) && stage == StoreSFrameSize
      requires sp0 <= |src| && src[sp0..] <= rest + beyond
      modifies `tmpInSize, header
      ensures sp0 <= sp <= |src| && sp - sp0 <= |rest|
      ensures if |word| == 4 then sp > sp0 && word + rest[sp - sp0..] == Bytes(f, AtSkipSize)
              else sp == |src| && ReadySkipSize(f, stale, rest[sp - sp0..])
    {
      hide Fits, Bytes, ValidFrame, IsBlockSize;
      SkipLength(f);
      ghost var magic := header[..4];
      ghost var want := magic + Bytes(f, AtSkipSize);
      assert header[..tmpInSize][..4] == magic;
      sp := Collect(header, tmpInTarget, src, sp0, want, rest, beyond);
      ghost var made := header[..tmpInSize] + rest[sp - sp0..];
      assert header[..4] == made[..4] == want[..4] == magic;
      word := header[4..tmpInSize];
      assert word + rest[sp - sp0..] == made[4..] == want[4..] == Bytes(f, AtSkipSize);
    }

    /** The size of a skippable frame, in place or collected. */
    method FetchSkipField(src: seq<byte>, sp0: nat, ghost f: Frame, ghost stale: nat, ghost rest: seq<byte>,
                          ghost beyond: seq<byte>)
      returns (word: seq<byte>, sp: nat)
      requires Fits(f, AtSkipSize) && f.Skippable? && Valid() && ReadySkipSize(f, stale, rest)
      requires sp0 <= |src| && src[sp0..] <= rest + beyond
      modifies `stage, `tmpInSize, `tmpInTarget, header
      ensures sp0 <= sp <= |src| && sp - sp0 <= |rest| && remaining == stale
      ensures if |word| == 4 then sp > sp0 && word + rest[sp - sp0..] == Bytes(f, AtSkipSize)
              else sp == |src| && ReadySkipSize(f, stale, rest[sp - sp0..]) && stage == StoreSFrameSize
                   && tmpInSize < tmpInTarget
    {
      hide Fits, Bytes, ValidFrame, IsBlockSize;
      SkipLength(f);
      if stage == GetSFrameSize && |src| - sp0 >= 4 {
        StreamTake(src, sp0, 4, rest, beyond);
        word, sp := src[sp0..sp0 + 4], sp0 + 4;
        assert word + rest[4..] == rest;
      } else {
        if stage == GetSFrameSize {
          tmpInSize, tmpInTarget, stage := 4, 8, StoreSFrameSize;
        }
        word, sp := CollectSkipField(src, sp0, f, stale, rest, beyond);
      }
    }

    method SkippableSize(src: seq<byte>, sp0: nat, ghost f: Frame, ghost stale: nat, ghost rest: seq<byte>,
                         ghost beyond: seq<byte>)
      returns (t: Turn, sp: nat, ghost a: Ahead)
      requires Fits(f, AtSkipSize) && f.Skippable? && Valid() && ReadySkipSize(f, stale, rest)
      requires sp0 <= |src| && src[sp0..] <= rest + beyond
      modifies `stage, `tmpInSize, `tmpInTarget, `info, header
      ensures sp0 <= sp <= |src| && sp - sp0 <= |rest|
      ensures Ready(f, a, stale, rest[sp - sp0..]) && Owed(f, a) == Owed(f, AtSkipSize)
      ensures !t.Failed? && (t.Wait? ==> t.hint == Hint() > 0 && sp == |src|) && (t.Again? ==> sp > sp0)
      ensures !a.AtSuffix? && (t.Wait? ==> Midway(a))
      ensures stage != Init
    {
      hide Fits, Bytes, ValidFrame, IsBlockSize, ReadLE, Ready, ReadySkipSize;
      var word;
      word, sp := FetchSkipField(src, sp0, f, stale, rest, beyond);
      t, a := Wait(1), AtSkipSize;
      if |word| == 4 {
        SkipField(f, word, rest[sp - sp0..]);
        info := info.(contentSize := ReadLE(word));
        tmpInTarget, stage := ReadLE(word), SkipSkippable;
        t, a := Again, Skipping(f.user);
        NowSkip(f, f.user, stale, rest[sp - sp0..]);
      } else {
        t := Wait(tmpInTarget - tmpInSize);
        NowSkipSize(f, stale, rest[sp - sp0..]);
      }
    }

    method Skip(src: seq<byte>, sp0: nat, ghost f: Frame, ghost a0: Ahead, ghost stale: nat, ghost rest: seq<byte>,
                ghost beyond: seq<byte>)
      returns (t: Turn, sp: nat, ghost a: Ahead)
      requires a0.Skipping? && Fits(f, a0) && f.Skippable? && Valid() && ReadySkip(f, a0.left, stale, rest)
      requires sp0 <= |src| && src[sp0..] <= rest + beyond
      modifies `stage, `tmpInTarget
      ensures sp0 <= sp <= |src| && sp - sp0 <= |rest| && t.Wait?
      ensures Owed(f, a) == Owed(f, a0) == []
      ensures !a.AtSuffix? && (t.hint > 0 ==> a.Skipping? && a.left != [])
      ensures t.hint == 0 ==> Valid() && stage == GetFrameHeader && remaining == stale && sp - sp0 == |rest|
      ensures t.hint > 0 ==> t.hint == Hint() && sp == |src| && Ready(f, a, stale, rest[sp - sp0..]) && stage == SkipSkippable
    {
      hide ValidFrame, IsBlockSize;
      var n := Min(tmpInTarget, |src| - sp0);
      sp := sp0 + n;
      tmpInTarget := tmpInTarget - n;
      t, a := Wait(tmpInTarget), Skipping(a0.left[n..]);
      if tmpInTarget == 0 { stage := GetFrameHeader; }
    }

    // -------------------------------------------------------------- the state machine

    /** The frame is behind the decoder, which is ready for another. */
    ghost predicate Over(f: Frame, stale: nat, rest: seq<byte>)
      reads this
    {
      && Valid() && stage == GetFrameHeader && rest == []
      && remaining == (if f.Lz4Frame? then 0 else stale)
      && (f.Lz4Frame? ==> info == InfoOf(f.header))
      && Sound(f, stale)
    }

    /** What a turn of the state machine leaves, with `rest` of the frame to come and `stuck` telling
        whether input or room has run out. */
    ghost predicate After(t: Turn, f: Frame, a: Ahead, stale: nat, rest: seq<byte>, stuck: bool)
      reads this, header, tmpIn, tmpOut
    {
      match t
      case Again => Ready(f, a, stale, rest)
      case Wait(hint) =>
        if hint == 0 then Over(f, stale, rest) && Owed(f, a) == []
        else Ready(f, a, stale, rest) && stuck && rest != [] && hint == Hint()
      case Failed(e) => e == FrameSizeWrong && !Sound(f, stale) && a == AtSuffix
    }

    /** The stage tells the point of the frame. */
    lemma StageTells(f: Frame, a: Ahead, stale: nat, rest: seq<byte>)
      requires Ready(f, a, stale, rest)
      ensures ValidFrame(f)
      ensures stage == GetFrameHeader || stage == StoreFrameHeader <==> a == Whole
      ensures AtStart(stage) ==> a.Whole? || a.AtSkipSize? || a.Skipping?
      ensures Between(stage) ==> a.AtBlocks? || a.AtSuffix?
      ensures !AtStart(stage) && !Between(stage) ==> a.InRaw? || a.AtCheck? || a.AtCode? || a.Flushing?
    {
      hide Bytes, Owed, Content, ValidFrame, Counts, Opened;
    }

    /** A frame that is not complete has bytes to come. */
    lemma StillComing(f: Frame, a: Ahead, stale: nat, rest: seq<byte>)
      requires Ready(f, a, stale, rest)
      requires (a.AtSuffix? ==> stage == StoreSuffix) && (a.Skipping? ==> a.left != [])
      ensures rest != []
    {
      hide Bytes, Owed, Content, ValidFrame, Counts, Opened, ReadyRaw, ReadyInit;
      IsLz4(f, a);
      if a.AtBlocks? || a.InRaw? || a.AtCheck? || a.AtCode? || a.Flushing? { AtLeast4(f, a); }
      StillSome(f, a, stale, rest);
    }

    lemma StillSome(f: Frame, a: Ahead, stale: nat, rest: seq<byte>)
      requires Ready(f, a, stale, rest)
      requires a.AtSuffix? ==> stage == StoreSuffix
      requires a.AtBlocks? || a.InRaw? || a.AtCheck? || a.AtCode? || a.Flushing? ==> |Bytes(f, a)| >= 4
      requires a.Skipping? ==> a.left != []
      ensures rest != []
    {
    }

    lemma AfterReady(t: Turn, f: Frame, a: Ahead, stale: nat, rest: seq<byte>, stuck: bool)
      requires Ready(f, a, stale, rest) && !t.Failed? && (t.Wait? ==> t.hint == Hint() > 0 && stuck)
      requires t.Wait? ==> Midway(a) || (a.Skipping? && a.left != []) || (a.AtSuffix? && stage == StoreSuffix)
      ensures After(t, f, a, stale, rest, stuck)
    {
      hide Ready, Over, Owed;
      if t.Wait? { StillComing(f, a, stale, rest); }
    }

    /** What is asked for, in terms of the frame. */
    lemma HintMeans(f: Frame, a: Ahead, stale: nat, rest: seq<byte>)
      requires Ready(f, a, stale, rest) && Hint() > 0
      ensures Fits(f, a) && Hinted(f, a, rest, Hint())
    {
      hide Bytes, FrameBytes, HeaderSize, Counts, BlockSize, ValidFrame, ValidBlocks;
      if a.AtBlocks? || a.InRaw? || a.AtCode? || a.Flushing? { BlocksFollow(f, a); }
      if a.AtSuffix? { SuffixLength(f); }
      if a.AtSkipSize? { SkipLength(f); }
    }

    /** It is more than the frame has left in two cases only: inside a checked compressed block that is the last of a
        frame without content checksum, and at the start of a skippable frame of less than three bytes. */
    lemma AsksTooMuch(f: Frame, a: Ahead, stale: nat, rest: seq<byte>)
      requires Ready(f, a, stale, rest) && Hint() > 0 && rest != []
      ensures Hint() > |rest| <==>
                || (stage == StoreCBlock && a.AtCode? && a.bs == [] && f.header.blockChecksum && !f.header.contentChecksum)
                || (stage == StoreFrameHeader && f.Skippable? && |f.user| < 3)
    {
      hide Bytes, FrameBytes, HeaderSize, Counts, BlockSize, ValidFrame, ValidBlocks;
      if a.AtBlocks? || a.InRaw? || a.AtCode? || a.Flushing? { BlocksFollow(f, a); }
      if a.AtCode? && f.header.blockChecksum { FollowEight(f, a.bs); }
      if a.AtSuffix? { SuffixLength(f); }
      if a.AtSkipSize? { SkipLength(f); }
      if a.Whole? {
        LongerThanStart(f);
        if stage == StoreFrameHeader { assert |header[..tmpInSize] + rest| == tmpInSize + |rest|; }
      }
    }

    /** Inside the blocks. */
    method BlockStep(dst: array<byte>, dp0: nat, src: seq<byte>, sp0: nat, ghost f: Frame, ghost a0: Ahead,
                     ghost stale: nat,
                     ghost rest: seq<byte>, ghost beyond: seq<byte>)
      returns (t: Turn, sp: nat, dp: nat, ghost a: Ahead)
      requires Ready(f, a0, stale, rest) && (a0.InRaw? || a0.AtCheck? || a0.AtCode? || a0.Flushing?)
      requires sp0 <= |src| && src[sp0..] <= rest + beyond
      requires dp0 <= dst.Length && dst != tmpIn && dst != tmpOut && dst != header
      modifies this, header, tmpIn, tmpOut, dst
      ensures tmpIn == old(tmpIn) && tmpOut == old(tmpOut)
      ensures sp0 <= sp <= |src| && sp - sp0 <= |rest| && dp0 <= dp <= dst.Length
      ensures After(t, f, a, stale, rest[sp - sp0..], sp == |src| || dp == dst.Length)
      ensures dst[..dp] + Owed(f, a) == old(dst[..dp0]) + Owed(f, a0)
      ensures t.Again? ==> sp > sp0 || dp > dp0 || Rank(stage) < Rank(old(stage))
    {
      hide Fits, Bytes, Owed, Content, ValidFrame, IsBlockSize, BlockSize, InfoOf, Counts, Opened, After;
      hide ReadyWhole, ReadyInit, ReadyBlocks, ReadySuffix, ReadySkipSize, ReadySkip;
      IsLz4(f, a0);
      sp, dp := sp0, dp0;
      if stage == CopyDirect {
        t, sp, dp, a := CopyOut(dst, dp0, src, sp0, f, a0, stale, rest, beyond);
      } else if stage == GetBlockChecksum {
        t, sp, a := BlockChecksum(src, sp0, f, a0, stale, rest, beyond);
      } else if stage == FlushOut {
        t, dp, a := Flush(dst, dp0, f, a0, stale, rest);
        assert rest[0..] == rest;
      } else {
        t, sp, dp, a := CodeBlock(dst, dp0, src, sp0, f, a0, stale, rest, beyond);
      }
      AfterReady(t, f, a, stale, rest[sp - sp0..], sp == |src| || dp == dst.Length);
    }

    /** Inside a skippable frame. */
    method SkipStep(src: seq<byte>, sp0: nat, ghost f: Frame, ghost a0: Ahead, ghost stale: nat,
                ghost rest: seq<byte>, ghost beyond: seq<byte>)
      returns (t: Turn, sp: nat, ghost a: Ahead)
      requires Ready(f, a0, stale, rest) && (a0.AtSkipSize? || a0.Skipping?)
      requires sp0 <= |src| && src[sp0..] <= rest + beyond
      modifies `info, `stage, `remaining, `maxBlockSize, `tmpInSize, `tmpInTarget, header
      ensures sp0 <= sp <= |src| && sp - sp0 <= |rest|
      ensures After(t, f, a, stale, rest[sp - sp0..], sp == |src|)
      ensures Owed(f, a) == Owed(f, a0)
      ensures t.Again? ==> sp > sp0
    {
      hide Fits, Bytes, Owed, Content, ValidFrame, IsBlockSize, BlockSize, InfoOf, Counts, Opened;
      hide ReadyRaw, ReadyCheck, ReadyCode, ReadyFlush, ReadyBlocks, ReadyInit, ReadySuffix, ReadyWhole;
      IsLz4(f, a0);
      if stage == SkipSkippable {
        t, sp, a := Skip(src, sp0, f, a0, stale, rest, beyond);
      } else {
        t, sp, a := SkippableSize(src, sp0, f, stale, rest, beyond);
      }
      if t != Wait(0) { AfterReady(t, f, a, stale, rest[sp - sp0..], sp == |src|); }
    }

    /** The start of a frame, and skippable frames. */
    method StartStep(src: seq<byte>, sp0: nat, ghost f: Frame, ghost a0: Ahead, ghost stale: nat,
                ghost rest: seq<byte>, ghost beyond: seq<byte>)
      returns (t: Turn, sp: nat, ghost a: Ahead)
      requires Ready(f, a0, stale, rest) && (a0.Whole? || a0.AtSkipSize? || a0.Skipping?)
      requires sp0 <= |src| && src[sp0..] <= rest + beyond
      modifies `info, `stage, `remaining, `maxBlockSize, `tmpInSize, `tmpInTarget, header
      ensures sp0 <= sp <= |src| && sp - sp0 <= |rest|
      ensures After(t, f, a, stale, rest[sp - sp0..], sp == |src|)
      ensures Owed(f, a) == Owed(f, a0)
      ensures t.Again? ==> sp > sp0
    {
      hide Ready, After, Owed, Fits;
      StageTells(f, a0, stale, rest);
      if stage == GetFrameHeader {
        t, sp, a := GetHeader(src, sp0, f, stale, rest, beyond);
        AfterReady(t, f, a, stale, rest[sp - sp0..], sp == |src|);
      } else if stage == StoreFrameHeader {
        t, sp, a := StoreHeader(src, sp0, f, stale, rest, beyond);
        AfterReady(t, f, a, stale, rest[sp - sp0..], sp == |src|);
      } else {
        t, sp, a := SkipStep(src, sp0, f, a0, stale, rest, beyond);
      }
    }

    /** Between blocks, and the end of the frame. */
    method FieldStep(src: seq<byte>, sp0: nat, full: bool, ghost f: Frame, ghost a0: Ahead, ghost stale: nat,
                ghost rest: seq<byte>, ghost beyond: seq<byte>)
      returns (t: Turn, sp: nat, ghost a: Ahead)
      requires Ready(f, a0, stale, rest) && (a0.AtBlocks? || a0.AtSuffix?)
      requires sp0 <= |src| && src[sp0..] <= rest + beyond
      modifies this, tmpIn
      ensures (tmpIn == old(tmpIn) && tmpOut == old(tmpOut)) || (fresh(tmpIn) && fresh(tmpOut))
      ensures sp0 <= sp <= |src| && sp - sp0 <= |rest|
      ensures After(t, f, a, stale, rest[sp - sp0..], sp == |src| || full)
      ensures Owed(f, a) == Owed(f, a0)
      ensures t.Again? ==> sp > sp0
    {
      hide Fits, Bytes, Owed, Content, ValidFrame, IsBlockSize, BlockSize, InfoOf, Counts, Opened;
      hide ReadyRaw, ReadyCheck, ReadyCode, ReadyFlush, ReadyWhole, ReadySkip, ReadySkipSize;
      IsLz4(f, a0);
      if stage == Init {
        Initialise(f, stale, rest);
        t, sp, a := BlockHeader(src, sp0, full, f, f.blocks, stale, rest, beyond);
      } else if stage == GetSuffix || stage == StoreSuffix {
        t, sp := EndFrame(src, sp0, f, stale, rest, beyond);
        a := AtSuffix;
        SuffixOwes(f);
      } else {
        t, sp, a := BlockHeader(src, sp0, full, f, a0.bs, stale, rest, beyond);
      }
      if !t.Failed? && t != Wait(0) { AfterReady(t, f, a, stale, rest[sp - sp0..], sp == |src| || full); }
    }

    method Step(dst: array<byte>, dp0: nat, src: seq<byte>, sp0: nat, ghost f: Frame, ghost a0: Ahead, ghost stale: nat,
                ghost rest: seq<byte>, ghost beyond: seq<byte>)
      returns (t: Turn, sp: nat, dp: nat, ghost a: Ahead)
      requires Ready(f, a0, stale, rest)
      requires sp0 <= |src| && src[sp0..] <= rest + beyond
      requires dp0 <= dst.Length && dst != tmpIn && dst != tmpOut && dst != header
      modifies this, header, tmpIn, tmpOut, dst
      ensures (tmpIn == old(tmpIn) && tmpOut == old(tmpOut)) || (fresh(tmpIn) && fresh(tmpOut))
      ensures sp0 <= sp <= |src| && sp - sp0 <= |rest| && dp0 <= dp <= dst.Length
      ensures src[sp..] <= rest[sp - sp0..] + beyond
      ensures After(t, f, a, stale, rest[sp - sp0..], sp == |src| || dp == dst.Length)
      ensures dst[..dp] + Owed(f, a) == old(dst[..dp0]) + Owed(f, a0)
      ensures t.Again? ==> sp > sp0 || dp > dp0 || Rank(stage) < Rank(old(stage))
    {
      hide *;
      StageTells(f, a0, stale, rest);
      dp := dp0;
      if AtStart(stage) {
        t, sp, a := StartStep(src, sp0, f, a0, stale, rest, beyond);
        StuckMore(t, f, a, stale, rest[sp - sp0..], sp == |src|, dp == dst.Length);
        assert dst[..dp] == old(dst[..dp0]);
      } else if Between(stage) {
        t, sp, a := FieldStep(src, sp0, dp == dst.Length, f, a0, stale, rest, beyond);
        assert dst[..dp] == old(dst[..dp0]);
      } else {
        t, sp, dp, a := BlockStep(dst, dp, src, sp0, f, a0, stale, rest, beyond);
      }
      StreamTake(src, sp0, sp - sp0, rest, beyond);
    }

    lemma StuckMore(t: Turn, f: Frame, a: Ahead, stale: nat, rest: seq<byte>, stuck: bool, full: bool)
      requires After(t, f, a, stale, rest, stuck)
      ensures After(t, f, a, stale, rest, stuck || full)
    {
      hide Ready, Owed, Over;
    }

    lemma WasStuck(t: Turn, f: Frame, a: Ahead, stale: nat, rest: seq<byte>, stuck: bool)
      requires After(t, f, a, stale, rest, stuck) && t.Wait? && t.hint > 0
      ensures stuck && rest != []
    {
      hide Ready, Owed, Over;
    }

    /** LZ4F_decompress. Whatever part of the frame's bytes `src` brings and however much room `dst` has, the
        output is the next part of the content, nothing behind the frame is touched, and the call ends
        with the frame complete, or with input or room used up. */
    method Decompress(dst: array<byte>, src: seq<byte>, ghost f: Frame, ghost a0: Ahead, ghost stale: nat,
                      ghost rest: seq<byte>, ghost beyond: seq<byte>)
      returns (t: Turn, srcUsed: nat, dstUsed: nat, ghost a: Ahead)
      requires Ready(f, a0, stale, rest) && src <= rest + beyond
      requires dst != tmpIn && dst != tmpOut && dst != header
      modifies this, header, tmpIn, tmpOut, dst
      ensures (tmpIn == old(tmpIn) || fresh(tmpIn)) && (tmpOut == old(tmpOut) || fresh(tmpOut))
      ensures !t.Again? && srcUsed <= |src| && srcUsed <= |rest| && dstUsed <= dst.Length
      ensures dst[..dstUsed] + Owed(f, a) == Owed(f, a0)
      ensures After(t, f, a, stale, rest[srcUsed..], srcUsed == |src| || dstUsed == dst.Length)
    {
      hide Ready, Owed, Over, Rank;
      srcUsed, dstUsed := 0, 0;
      t, a := Again, a0;
      assert dst[..0] == [] && rest[0..] == rest && src[0..] == src;
      while t.Again?
        invariant srcUsed <= |src| && srcUsed <= |rest| && dstUsed <= dst.Length && src[srcUsed..] <= rest[srcUsed..] + beyond
        invariant (tmpIn == old(tmpIn) || fresh(tmpIn)) && (tmpOut == old(tmpOut) || fresh(tmpOut))
        invariant After(t, f, a, stale, rest[srcUsed..], srcUsed == |src| || dstUsed == dst.Length)
        invariant dst[..dstUsed] + Owed(f, a) == Owed(f, a0)
        decreases t.Again?, |src| - srcUsed + dst.Length - dstUsed, Rank(stage)
      {
        ghost var left := rest[srcUsed..];
        ghost var sp := srcUsed;
        t, srcUsed, dstUsed, a := Step(dst, dstUsed, src, srcUsed, f, a, stale, left, beyond);
        assert left[srcUsed - sp..] == rest[srcUsed..];
      }
    }
  }

  /** Stages of StartStep, and of FieldStep. */
  predicate AtStart(s: Stage) {
    s == GetFrameHeader || s == StoreFrameHeader || s == GetSFrameSize || s == StoreSFrameSize || s == SkipSkippable
  }

  predicate Between(s: Stage) {
    s == Init || s == GetBlockHeader || s == StoreBlockHeader || s == GetSuffix || s == StoreSuffix
  }

  /** Stages that may hand over without moving in the input or the output. */
  function Rank(s: Stage): nat {
    if s == GetCBlock || s == FlushOut then 1 else 0
  }

  /** No count is left over that the frame does not set itself. */
  predicate Sound(f: Frame, stale: nat) {
    f.Skippable? || f.header.size.Some? || stale == 0
  }
}
