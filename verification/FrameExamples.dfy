/** Whole frames, byte for byte: what the magic numbers, the flags, the fields and the checksums come to. */
module FrameExamples {
  import opened Lz4Format
  import opened FrameFormat
  import XxHash32
  import XxHash32Values

  // ---------------------------------------------------------------- the checksums of two descriptors

  lemma TwoStart()
    ensures XxHash32.Plus(0, XxHash32.PRIME_5) == 0x165667B1 && XxHash32.AddWord(0x165667B1, 2) == 0x165667B3
  {
  }

  /** Two bytes, mixed one by one and stirred. */
  lemma TwoBytes(a: byte, b: byte, h: bv32, k: bv32, r: bv32)
    requires XxHash32.MixByte(0x165667B3, a) == h && XxHash32.MixByte(h, b) == k && XxHash32.Avalanche(k) == r
    ensures XxHash32.Hash([a, b], 0) == r
  {
    hide XxHash32.MixByte, XxHash32.Avalanche, XxHash32.Plus, XxHash32.AddWord, XxHash32.Tail;
    TwoStart();
    var s := [a, b];
    assert XxHash32.Rest(s) == s;
    TailOfTwo(0x165667B3, a, b);
  }

  lemma TailOfTwo(h: bv32, a: byte, b: byte)
    ensures XxHash32.Tail(h, [a, b]) == XxHash32.MixByte(XxHash32.MixByte(h, a), b)
  {
    hide XxHash32.MixByte;
    assert [a, b][1..] == [b] && [b][1..] == [];
    assert XxHash32.Tail(h, [a, b]) == XxHash32.Tail(XxHash32.MixByte(h, a), [b]);
    assert XxHash32.Tail(XxHash32.MixByte(h, a), [b]) == XxHash32.Tail(XxHash32.MixByte(XxHash32.MixByte(h, a), b), []);
  }

  lemma FirstDescriptor()
    ensures XxHash32.Hash([0x64, 0x40], 0) == 0x95C0A77C
  {
    assert XxHash32.MixByte(0x165667B3, 0x64) == 0x15743680;
    assert XxHash32.MixByte(0x15743680, 0x40) == 0x0EA849D8;
    Stirred1();
    TwoBytes(0x64, 0x40, 0x15743680, 0x0EA849D8, 0x95C0A77C);
  }

  lemma Stirred1()
    ensures XxHash32.Avalanche(0x0EA849D8) == 0x95C0A77C
  {
  }

  lemma SecondDescriptor()
    ensures XxHash32.Hash([0x70, 0x50], 0) == 0xA5E8841E
  {
    assert XxHash32.MixByte(0x165667B3, 0x70) == 0xCA5DB291;
    assert XxHash32.MixByte(0xCA5DB291, 0x50) == 0x53E0A50A;
    Stirred2();
    TwoBytes(0x70, 0x50, 0xCA5DB291, 0x53E0A50A, 0xA5E8841E);
  }

  lemma Stirred2()
    ensures XxHash32.Avalanche(0x53E0A50A) == 0xA5E8841E
  {
  }

  lemma Checksums()
    ensures HeaderChecksum([0x64, 0x40]) == 0xA7 && HeaderChecksum([0x70, 0x50]) == 0x84
    ensures Checksum([]) == 0x02CC5D05 && Checksum([0x61]) == 0x550D7456
  {
    hide XxHash32.Hash;
    FirstDescriptor();
    SecondDescriptor();
    XxHash32Values.NoInput();
    XxHash32Values.OneByte();
  }

  // ---------------------------------------------------------------- fields

  lemma Fields4(a: byte, b: byte, c: byte, d: byte)
    ensures LE(a + 0x100 * b + 0x1_0000 * c + 0x100_0000 * d, 4) == [a, b, c, d]
  {
    var v: nat := a + 0x100 * b + 0x1_0000 * c + 0x100_0000 * d;
    var w: nat := b + 0x100 * c + 0x1_0000 * d;
    assert v % 256 == a && v / 256 == w;
    assert w % 256 == b && w / 256 == c + 0x100 * d;
    assert (c + 0x100 * d) % 256 == c && (c + 0x100 * d) / 256 == d;
    LENext(v, 4);
    LENext(w, 3);
    LENext(c + 0x100 * d, 2);
    LENext(d, 1);
    assert LE(d / 256, 0) == [];
  }

  lemma LENext(v: nat, n: nat)
    requires n > 0
    ensures LE(v, n) == [v % 256] + LE(v / 256, n - 1)
  {
  }

  lemma FieldsAre()
    ensures LE(MAGIC, 4) == [0x04, 0x22, 0x4D, 0x18] && LE(0, 4) == [0x00, 0x00, 0x00, 0x00]
    ensures LE(0x8000_0001, 4) == [0x01, 0x00, 0x00, 0x80]
    ensures LE(0x02CC5D05, 4) == [0x05, 0x5D, 0xCC, 0x02] && LE(0x550D7456, 4) == [0x56, 0x74, 0x0D, 0x55]
  {
    hide LE;
    Fields4(0x04, 0x22, 0x4D, 0x18);
    Fields4(0, 0, 0, 0);
    Fields4(0x01, 0x00, 0x00, 0x80);
    Fields4(0x05, 0x5D, 0xCC, 0x02);
    Fields4(0x56, 0x74, 0x0D, 0x55);
  }

  // ---------------------------------------------------------------- frames

  lemma Headers()
    ensures HeaderBytes(Header(false, true, None, None, 4)) == [0x04, 0x22, 0x4D, 0x18] + [0x64, 0x40] + [0xA7]
    ensures HeaderBytes(Header(true, false, None, None, 5)) == [0x04, 0x22, 0x4D, 0x18] + [0x70, 0x50] + [0x84]
  {
    hide LE, Checksum, HeaderChecksum;
    FieldsAre();
    Checksums();
    assert Descriptor(Header(false, true, None, None, 4)) == [0x64, 0x40];
    assert Descriptor(Header(true, false, None, None, 5)) == [0x70, 0x50];
  }

  lemma Suffixes()
    ensures Suffix(Header(false, true, None, None, 4), []) == [0x00, 0x00, 0x00, 0x00] + [0x05, 0x5D, 0xCC, 0x02]
    ensures Suffix(Header(true, false, None, None, 5), [0x61]) == [0x00, 0x00, 0x00, 0x00]
  {
    hide LE, Checksum;
    FieldsAre();
    Checksums();
    assert LE(0, 4) + [] == LE(0, 4);
  }

  lemma StoredBlock()
    ensures BlockBytes(Raw([0x61]), true) == [0x01, 0x00, 0x00, 0x80] + [0x61] + [0x56, 0x74, 0x0D, 0x55]
  {
    hide LE, Checksum;
    FieldsAre();
    Checksums();
  }

  /** A frame without content, its checksum switched on: the magic number, the descriptor for blocks of 64 KB, the end
      mark, and the checksum of nothing. */
  lemma EmptyFrame()
    ensures FrameBytes(Lz4Frame(Header(false, true, None, None, 4), []))
         == [0x04, 0x22, 0x4D, 0x18] + [0x64, 0x40] + [0xA7]
            + ([0x00, 0x00, 0x00, 0x00] + [0x05, 0x5D, 0xCC, 0x02])
  {
    hide HeaderBytes, Suffix;
    Headers();
    Suffixes();
    var s := Suffix(Header(false, true, None, None, 4), []);
    assert [] + s == s;
  }

  /** A frame of one stored byte, its block checked: blocks of 256 KB, the size field with the top bit set, the byte and
      its checksum, the end mark. */
  lemma StoredByte()
    ensures FrameBytes(Lz4Frame(Header(true, false, None, None, 5), [Raw([0x61])]))
         == [0x04, 0x22, 0x4D, 0x18] + [0x70, 0x50] + [0x84]
            + ([0x01, 0x00, 0x00, 0x80] + [0x61] + [0x56, 0x74, 0x0D, 0x55] + [0x00, 0x00, 0x00, 0x00])
  {
    hide HeaderBytes, Suffix, BlockBytes;
    Headers();
    Suffixes();
    StoredBlock();
    var bs := [Raw([0x61])];
    assert bs[1..] == [];
    assert BlockBytes(bs[0], true) + [] == BlockBytes(bs[0], true);
    assert BlocksBytes(bs, true) == BlockBytes(bs[0], true);
    assert Content(bs) == [0x61] + [] == [0x61];
  }

  /** A skippable frame of two bytes. */
  lemma SkippableFrame(a: byte, b: byte)
    ensures FrameBytes(Skippable(3, [a, b])) == [0x53, 0x2A, 0x4D, 0x18] + [0x02, 0x00, 0x00, 0x00] + [a, b]
  {
    hide LE;
    Ranges();
    Fields4(0x53, 0x2A, 0x4D, 0x18);
    Fields4(2, 0, 0, 0);
  }
}
