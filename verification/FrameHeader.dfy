/** Reading a frame descriptor: which bytes LZ4F_decodeHeader accepts, and what it reads in them. */
module FrameHeader {
  import opened Lz4Format
  import opened FrameFormat

  datatype Error =
    | FrameHeaderIncomplete
    | FrameTypeUnknown
    | ReservedFlagSet
    | HeaderVersionWrong
    | MaxBlockSizeInvalid
    | HeaderChecksumInvalid
    | BlockChecksumInvalid
    | DecompressionFailed
    | FrameSizeWrong
    | ContentChecksumInvalid

  datatype Parsed =
    | BadHeader(error: Error)
    | SkippableStart
    | TooShort(need: nat)
    | Parsed(header: Header, independent: bool)

  function FlagBit(flags: byte, unit: nat): bool
    requires unit > 0
  {
    flags / unit % 2 == 1
  }

  function HeaderSizeOf(flags: byte): (r: nat)
    ensures MIN_HEADER <= r <= MAX_HEADER
  {
    MIN_HEADER + (if FlagBit(flags, 8) then 8 else 0) + (if FlagBit(flags, 1) then 4 else 0)
  }

  /** The fields of a descriptor of `size` bytes. */
  function FieldsOf(d: seq<byte>, flags: byte, size: nat): Header
    requires MIN_HEADER <= size <= |d| && size == HeaderSizeOf(flags)
  {
    Header(FlagBit(flags, 16), FlagBit(flags, 4),
           if FlagBit(flags, 8) then Some(ReadLE(d[6..14])) else None,
           if FlagBit(flags, 1) then Some(ReadLE(d[size - 5..size - 1])) else None,
           d[5] / 16 % 8)
  }

  /** What the bytes `d` at the start of a frame amount to. */
  function ParseHeader(d: seq<byte>): Parsed {
    if |d| < MIN_HEADER then BadHeader(FrameHeaderIncomplete)
    else if ReadLE(d[..4]) / 16 * 16 == MAGIC_SKIPPABLE then SkippableStart
    else if ReadLE(d[..4]) != MAGIC then BadHeader(FrameTypeUnknown)
    else
      var flags := d[4];
      var size := HeaderSizeOf(flags);
      if FlagBit(flags, 2) then BadHeader(ReservedFlagSet)
      else if flags / 64 % 4 != 1 then BadHeader(HeaderVersionWrong)
      else if |d| < size then TooShort(size)
      else if d[5] / 128 % 2 != 0 then BadHeader(ReservedFlagSet)
      else if d[5] / 16 % 8 < 4 then BadHeader(MaxBlockSizeInvalid)
      else if d[5] % 16 != 0 then BadHeader(ReservedFlagSet)
      else if HeaderChecksum(d[4..size - 1]) != d[size - 1] then BadHeader(HeaderChecksumInvalid)
      else Parsed(FieldsOf(d, flags, size), FlagBit(flags, 32))
  }

  // ---------------------------------------------------------------- a written descriptor is read back

  /** The flags for blocks that are `independent` or linked. */
  function FlagsOf(h: Header, independent: bool): byte {
    Flags(h) - if independent then 0 else 32
  }

  function DescriptorOf(h: Header, independent: bool): (r: seq<byte>)
    requires 4 <= h.blockSizeID <= 7
    ensures |r| == HeaderSize(h) - 5
  {
    [FlagsOf(h, independent), h.blockSizeID * 16] + Optional(h.size, 8) + Optional(h.dictID, 4)
  }

  /** The descriptor written for `h`. */
  function Written(h: Header, independent: bool): (r: seq<byte>)
    requires 4 <= h.blockSizeID <= 7
    ensures |r| == HeaderSize(h)
  {
    LE(MAGIC, 4) + DescriptorOf(h, independent) + [HeaderChecksum(DescriptorOf(h, independent))]
  }

  lemma WrittenIndependent(h: Header)
    requires 4 <= h.blockSizeID <= 7
    ensures Written(h, true) == HeaderBytes(h)
  {
    hide LE, Optional, HeaderChecksum, Flags;
    assert FlagsOf(h, true) == Flags(h);
    assert DescriptorOf(h, true) == Descriptor(h);
  }

  lemma FlagsReadBack(h: Header, independent: bool)
    ensures var f := FlagsOf(h, independent);
            && !FlagBit(f, 2) && f / 64 % 4 == 1 && FlagBit(f, 32) == independent
            && FlagBit(f, 16) == h.blockChecksum && FlagBit(f, 8) == h.size.Some?
            && FlagBit(f, 4) == h.contentChecksum && FlagBit(f, 1) == h.dictID.Some?
            && HeaderSizeOf(f) == HeaderSize(h)
  {
  }

  /** Where the fields of a descriptor lie in the bytes of a frame. */
  lemma HeaderLayout(h: Header, independent: bool, d: seq<byte>)
    requires ValidHeader(h) && Written(h, independent) <= d
    ensures var n := HeaderSize(h);
            && d[..4] == LE(MAGIC, 4) && d[4] == FlagsOf(h, independent) && d[5] == h.blockSizeID * 16
            && (h.size.Some? ==> d[6..14] == LE(h.size.value, 8))
            && (h.dictID.Some? ==> d[n - 5..n - 1] == LE(h.dictID.value, 4))
            && d[4..n - 1] == DescriptorOf(h, independent)
            && d[n - 1] == HeaderChecksum(DescriptorOf(h, independent))
  {
    hide FlagsOf, HeaderChecksum, LE;
    var n := HeaderSize(h);
    var b := Written(h, independent);
    assert d[..n] == b && |b| == n;
    assert d[..4] == b[..4] == LE(MAGIC, 4);
    assert d[4..n - 1] == b[4..n - 1] == DescriptorOf(h, independent);
    assert d[4] == d[4..n - 1][0] && d[5] == d[4..n - 1][1];
    if h.size.Some? {
      assert d[6..14] == d[4..n - 1][2..10] == LE(h.size.value, 8);
    }
    if h.dictID.Some? {
      assert d[n - 5..n - 1] == d[4..n - 1][n - 9..] == LE(h.dictID.value, 4);
    }
  }

  /** A written descriptor is read back, whatever follows it. */
  lemma WrittenReadsBack(h: Header, independent: bool, d: seq<byte>)
    requires ValidHeader(h) && Written(h, independent) <= d
    ensures ParseHeader(d) == Parsed(h, independent)
  {
    hide FlagsOf, HeaderChecksum, LE, ReadLE, Range, Written;
    HeaderLayout(h, independent, d);
    FlagsReadBack(h, independent);
    MagicReadsBack();
    if h.size.Some? { ReadInvertsLE(h.size.value, 8); }
    if h.dictID.Some? { ReadInvertsLE(h.dictID.value, 4); }
  }

  lemma HeaderReadsBack(h: Header, d: seq<byte>)
    requires ValidHeader(h) && HeaderBytes(h) <= d
    ensures ParseHeader(d) == Parsed(h, true)
  {
    hide HeaderBytes, Written;
    WrittenIndependent(h);
    WrittenReadsBack(h, true, d);
  }

  lemma MagicReadsBack()
    ensures ReadLE(LE(MAGIC, 4)) == MAGIC
  {
    Ranges();
    ReadInvertsLE(MAGIC, 4);
  }

  /** Short of the whole descriptor, seven bytes already tell how long it is. */
  lemma HeaderPrefix(h: Header, d: seq<byte>)
    requires ValidHeader(h) && d <= HeaderBytes(h) && MIN_HEADER <= |d| < HeaderSize(h)
    ensures ParseHeader(d) == TooShort(HeaderSize(h))
  {
    hide FlagsOf, HeaderChecksum, LE, ReadLE, Range, HeaderBytes, Written;
    WrittenIndependent(h);
    HeaderLayout(h, true, Written(h, true));
    assert d[..4] == HeaderBytes(h)[..4] && d[4] == HeaderBytes(h)[4];
    FlagsReadBack(h, true);
    MagicReadsBack();
  }

  lemma SkippableReadsBack(kind: nat, d: seq<byte>)
    requires kind < 16 && |d| >= MIN_HEADER && LE(MAGIC_SKIPPABLE + kind, 4) <= d
    ensures ParseHeader(d) == SkippableStart
  {
    hide LE, ReadLE;
    Ranges();
    ReadInvertsLE(MAGIC_SKIPPABLE + kind, 4);
    assert d[..4] == LE(MAGIC_SKIPPABLE + kind, 4);
  }

  // ---------------------------------------------------------------- nothing else is accepted

  lemma {:induction false} LEInvertsRead(b: seq<byte>)
    ensures LE(ReadLE(b), |b|) == b
  {
    if b != [] {
      LEInvertsRead(b[1..]);
      var v := ReadLE(b);
      assert v == b[0] + 256 * ReadLE(b[1..]) && v % 256 == b[0] && v / 256 == ReadLE(b[1..]);
      FirstByte(v, |b|);
      assert b == [b[0]] + b[1..];
    }
  }

  lemma FirstByte(v: nat, n: nat)
    requires n > 0
    ensures LE(v, n) == [v % 256] + LE(v / 256, n - 1)
  {
  }

  /** An optional field is what its bytes say. */
  lemma FieldIsWritten(on: bool, d: seq<byte>, at: nat, n: nat)
    requires at + n <= |d|
    ensures Optional(if on then Some(ReadLE(d[at..at + n])) else None, n) == if on then d[at..at + n] else []
  {
    hide LE, ReadLE;
    LEInvertsRead(d[at..at + n]);
  }

  /** An accepted descriptor is the written form of the fields read from it. */
  lemma AcceptedIsWritten(d: seq<byte>)
    requires ParseHeader(d).Parsed?
    ensures ValidHeader(ParseHeader(d).header) && Written(ParseHeader(d).header, ParseHeader(d).independent) <= d
  {
    hide HeaderChecksum, LE, ReadLE, Range;
    var h, independent := ParseHeader(d).header, ParseHeader(d).independent;
    var flags, n := d[4], HeaderSizeOf(d[4]);
    LEInvertsRead(d[..4]);
    assert d[..4] == LE(MAGIC, 4);
    FlagsAreWritten(h, independent, flags);
    var x := if FlagBit(flags, 8) then d[6..14] else [];
    var y := if FlagBit(flags, 1) then d[n - 5..n - 1] else [];
    FieldIsWritten(FlagBit(flags, 8), d, 6, if FlagBit(flags, 8) then 8 else 0);
    FieldIsWritten(FlagBit(flags, 1), d, n - 5, if FlagBit(flags, 1) then 4 else 0);
    assert x == Optional(h.size, 8) && y == Optional(h.dictID, 4);
    DescriptorParts(d, n, x, y);
    ThreeParts(d, n);
  }

  lemma ThreeParts(d: seq<byte>, n: nat)
    requires MIN_HEADER <= n <= |d|
    ensures d[..n] == d[..4] + d[4..n - 1] + [d[n - 1]]
  {
  }

  lemma DescriptorParts(d: seq<byte>, n: nat, x: seq<byte>, y: seq<byte>)
    requires n == MIN_HEADER + |x| + |y| <= |d|
    requires x == d[6..6 + |x|] && y == d[6 + |x|..n - 1]
    ensures d[4..n - 1] == [d[4], d[5]] + x + y
  {
  }

  function Shifted(f: byte, unit: nat): nat
    requires unit > 0
  {
    f / unit
  }

  lemma OneBit(f: byte, unit: nat, twice: nat)
    requires unit in {1, 2, 4, 8, 16, 32} && twice == 2 * unit
    ensures Shifted(f, unit) == 2 * Shifted(f, twice) + Bit(FlagBit(f, unit))
  {
    if unit == 1 {
    } else if unit == 2 {
    } else if unit == 4 {
    } else if unit == 8 {
    } else if unit == 16 {
    }
  }

  lemma FlagsAreWritten(h: Header, independent: bool, f: byte)
    requires !FlagBit(f, 2) && f / 64 % 4 == 1 && FlagBit(f, 32) == independent
    requires FlagBit(f, 16) == h.blockChecksum && FlagBit(f, 8) == h.size.Some?
    requires FlagBit(f, 4) == h.contentChecksum && FlagBit(f, 1) == h.dictID.Some?
    ensures FlagsOf(h, independent) == f && HeaderSizeOf(f) == HeaderSize(h)
  {
    hide FlagBit, Shifted;
    Ends(f);
    OneBit(f, 1, 2);
    OneBit(f, 2, 4);
    OneBit(f, 4, 8);
    OneBit(f, 8, 16);
    OneBit(f, 16, 32);
    OneBit(f, 32, 64);
  }

  lemma Ends(f: byte)
    ensures Shifted(f, 1) == f && Shifted(f, 64) == f / 64 % 4
  {
  }
}
