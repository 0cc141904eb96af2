/** Published values of XXH64, and one for a single long word. Between them they meet every step, rotation and
    prime. */
module XxHash64Values {
  import opened Lz4Format
  import opened XxHash64

  lemma Ends()
    ensures Plus(0, PRIME_5) == 0x27D4EB2F165667C5 && AddWord(0x27D4EB2F165667C5, 0) == 0x27D4EB2F165667C5
    ensures Plus(1, PRIME_5) == 0x27D4EB2F165667C6 && AddWord(0x27D4EB2F165667C6, 0) == 0x27D4EB2F165667C6
  {
  }

  lemma EndsStirred()
    ensures Avalanche(0x27D4EB2F165667C5) == 0xEF46DB3751D8E999 && Avalanche(0x27D4EB2F165667C6) == 0xD5AFBA1336A3BE4B
  {
  }

  lemma NoInput()
    ensures Hash([], 0) == 0xEF46DB3751D8E999
    ensures Hash([], 1) == 0xD5AFBA1336A3BE4B
  {
    hide Avalanche, AddWord, Plus;
    Ends();
    EndsStirred();
    assert Rest([]) == [];
  }

  // ---------------------------------------------------------------- words from bytes

  /** One more byte in front of a word. */
  lemma Push(b: byte, rest: seq<byte>, c: bv64, word: bv64, more: bv64)
    requires b as bv64 == c && Word(rest) == word && more == c + (word << 8)
    ensures Word([b] + rest) == more
  {
    assert ([b] + rest)[1..] == rest;
  }

  lemma NoByte()
    ensures Word([]) == 0
  {
  }

  lemma Word1High()
    ensures Word([100, 121, 32, 105]) == 0x0000000069207964
  {
    hide Word;
    NoByte();
    Push(105, [], 105, 0x0000000000000000, 0x0000000000000069);
    assert [105] + [] == [105];
    Push(32, [105], 32, 0x0000000000000069, 0x0000000000006920);
    assert [32] + [105] == [32, 105];
    Push(121, [32, 105], 121, 0x0000000000006920, 0x0000000000692079);
    assert [121] + [32, 105] == [121, 32, 105];
    Push(100, [121, 32, 105], 100, 0x0000000000692079, 0x0000000069207964);
    assert [100] + [121, 32, 105] == [100, 121, 32, 105];
  }

  lemma Word1()
    ensures Word([78, 111, 98, 111, 100, 121, 32, 105]) == 0x692079646F626F4E
  {
    hide Word;
    Word1High();
    Push(111, [100, 121, 32, 105], 111, 0x0000000069207964, 0x000000692079646F);
    assert [111] + [100, 121, 32, 105] == [111, 100, 121, 32, 105];
    Push(98, [111, 100, 121, 32, 105], 98, 0x000000692079646F, 0x0000692079646F62);
    assert [98] + [111, 100, 121, 32, 105] == [98, 111, 100, 121, 32, 105];
    Push(111, [98, 111, 100, 121, 32, 105], 111, 0x0000692079646F62, 0x00692079646F626F);
    assert [111] + [98, 111, 100, 121, 32, 105] == [111, 98, 111, 100, 121, 32, 105];
    Push(78, [111, 98, 111, 100, 121, 32, 105], 78, 0x00692079646F626F, 0x692079646F626F4E);
    assert [78] + [111, 98, 111, 100, 121, 32, 105] == [78, 111, 98, 111, 100, 121, 32, 105];
  }

  lemma Word2High()
    ensures Word([99, 116, 115, 32]) == 0x0000000020737463
  {
    hide Word;
    NoByte();
    Push(32, [], 32, 0x0000000000000000, 0x0000000000000020);
    assert [32] + [] == [32];
    Push(115, [32], 115, 0x0000000000000020, 0x0000000000002073);
    assert [115] + [32] == [115, 32];
    Push(116, [115, 32], 116, 0x0000000000002073, 0x0000000000207374);
    assert [116] + [115, 32] == [116, 115, 32];
    Push(99, [116, 115, 32], 99, 0x0000000000207374, 0x0000000020737463);
    assert [99] + [116, 115, 32] == [99, 116, 115, 32];
  }

  lemma Word2()
    ensures Word([110, 115, 112, 101, 99, 116, 115, 32]) == 0x207374636570736E
  {
    hide Word;
    Word2High();
    Push(101, [99, 116, 115, 32], 101, 0x0000000020737463, 0x0000002073746365);
    assert [101] + [99, 116, 115, 32] == [101, 99, 116, 115, 32];
    Push(112, [101, 99, 116, 115, 32], 112, 0x0000002073746365, 0x0000207374636570);
    assert [112] + [101, 99, 116, 115, 32] == [112, 101, 99, 116, 115, 32];
    Push(115, [112, 101, 99, 116, 115, 32], 115, 0x0000207374636570, 0x0020737463657073);
    assert [115] + [112, 101, 99, 116, 115, 32] == [115, 112, 101, 99, 116, 115, 32];
    Push(110, [115, 112, 101, 99, 116, 115, 32], 110, 0x0020737463657073, 0x207374636570736E);
    assert [110] + [115, 112, 101, 99, 116, 115, 32] == [110, 115, 112, 101, 99, 116, 115, 32];
  }

  lemma Word3High()
    ensures Word([115, 112, 97, 109]) == 0x000000006D617073
  {
    hide Word;
    NoByte();
    Push(109, [], 109, 0x0000000000000000, 0x000000000000006D);
    assert [109] + [] == [109];
    Push(97, [109], 97, 0x000000000000006D, 0x0000000000006D61);
    assert [97] + [109] == [97, 109];
    Push(112, [97, 109], 112, 0x0000000000006D61, 0x00000000006D6170);
    assert [112] + [97, 109] == [112, 97, 109];
    Push(115, [112, 97, 109], 115, 0x00000000006D6170, 0x000000006D617073);
    assert [115] + [112, 97, 109] == [115, 112, 97, 109];
  }

  lemma Word3()
    ensures Word([116, 104, 101, 32, 115, 112, 97, 109]) == 0x6D61707320656874
  {
    hide Word;
    Word3High();
    Push(32, [115, 112, 97, 109], 32, 0x000000006D617073, 0x0000006D61707320);
    assert [32] + [115, 112, 97, 109] == [32, 115, 112, 97, 109];
    Push(101, [32, 115, 112, 97, 109], 101, 0x0000006D61707320, 0x00006D6170732065);
    assert [101] + [32, 115, 112, 97, 109] == [101, 32, 115, 112, 97, 109];
    Push(104, [101, 32, 115, 112, 97, 109], 104, 0x00006D6170732065, 0x006D617073206568);
    assert [104] + [101, 32, 115, 112, 97, 109] == [104, 101, 32, 115, 112, 97, 109];
    Push(116, [104, 101, 32, 115, 112, 97, 109], 116, 0x006D617073206568, 0x6D61707320656874);
    assert [116] + [104, 101, 32, 115, 112, 97, 109] == [116, 104, 101, 32, 115, 112, 97, 109];
  }

  lemma Word4High()
    ensures Word([32, 114, 101, 112]) == 0x0000000070657220
  {
    hide Word;
    NoByte();
    Push(112, [], 112, 0x0000000000000000, 0x0000000000000070);
    assert [112] + [] == [112];
    Push(101, [112], 101, 0x0000000000000070, 0x0000000000007065);
    assert [101] + [112] == [101, 112];
    Push(114, [101, 112], 114, 0x0000000000007065, 0x0000000000706572);
    assert [114] + [101, 112] == [114, 101, 112];
    Push(32, [114, 101, 112], 32, 0x0000000000706572, 0x0000000070657220);
    assert [32] + [114, 101, 112] == [32, 114, 101, 112];
  }

  lemma Word4()
    ensures Word([109, 105, 115, 104, 32, 114, 101, 112]) == 0x706572206873696D
  {
    hide Word;
    Word4High();
    Push(104, [32, 114, 101, 112], 104, 0x0000000070657220, 0x0000007065722068);
    assert [104] + [32, 114, 101, 112] == [104, 32, 114, 101, 112];
    Push(115, [104, 32, 114, 101, 112], 115, 0x0000007065722068, 0x0000706572206873);
    assert [115] + [104, 32, 114, 101, 112] == [115, 104, 32, 114, 101, 112];
    Push(105, [115, 104, 32, 114, 101, 112], 105, 0x0000706572206873, 0x0070657220687369);
    assert [105] + [115, 104, 32, 114, 101, 112] == [105, 115, 104, 32, 114, 101, 112];
    Push(109, [105, 115, 104, 32, 114, 101, 112], 109, 0x0070657220687369, 0x706572206873696D);
    assert [109] + [105, 115, 104, 32, 114, 101, 112] == [109, 105, 115, 104, 32, 114, 101, 112];
  }

  lemma WordBack()
    ensures Word([101, 116, 105, 116]) == 0x0000000074697465
  {
    hide Word;
    NoByte();
    Push(116, [], 116, 0x0000000000000000, 0x0000000000000074);
    assert [116] + [] == [116];
    Push(105, [116], 105, 0x0000000000000074, 0x0000000000007469);
    assert [105] + [116] == [105, 116];
    Push(116, [105, 116], 116, 0x0000000000007469, 0x0000000000746974);
    assert [116] + [105, 116] == [116, 105, 116];
    Push(101, [116, 105, 116], 101, 0x0000000000746974, 0x0000000074697465);
    assert [101] + [116, 105, 116] == [101, 116, 105, 116];
  }

  // ---------------------------------------------------------------- one long word

  const LONG: seq<byte> := [78, 111, 98, 111, 100, 121, 32, 105]

  lemma LongStarts()
    ensures Plus(0, PRIME_5) == 0x27D4EB2F165667C5 && AddWord(0x27D4EB2F165667C5, 8) == 0x27D4EB2F165667CD
  {
  }

  lemma LongMixed()
    ensures MixLong(0x27D4EB2F165667CD, 0x692079646F626F4E) == 0x5F0E865650BE3ED8
            && Avalanche(0x5F0E865650BE3ED8) == 0x93FC083B5A3F012C
  {
  }

  /** "Nobody i" */
  lemma OneLong()
    ensures Hash(LONG, 0) == 0x93FC083B5A3F012C
  {
    hide Word, MixLong, Avalanche, Plus, AddWord;
    LongStarts();
    LongMixed();
    Word1();
    assert Rest(LONG) == LONG && LONG[..8] == LONG && LONG[8..] == [];
  }

  // ---------------------------------------------------------------- a stripe, a word and three bytes

  lemma Seedless()
    ensures Start(0) == Lanes(0x60EA27EEADC0B5D6, 0xC2B2AE3D27D4EB4F, 0x0000000000000000, 0x61C8864E7A143579)
  {
  }

  lemma Lane1()
    ensures Round(0x60EA27EEADC0B5D6, 0x692079646F626F4E) == 0x37245127A4067E4B
  {
  }

  lemma Lane2()
    ensures Round(0xC2B2AE3D27D4EB4F, 0x207374636570736E) == 0x1B302B0A818F92CF
  {
  }

  lemma Lane3()
    ensures Round(0x0000000000000000, 0x6D61707320656874) == 0xCD62D843D0580FCA
  {
  }

  lemma Lane4()
    ensures Round(0x61C8864E7A143579, 0x706572206873696D) == 0x1C16E43EF2142A4A
  {
  }

  const FRONT: seq<byte> := [78, 111, 98, 111, 100, 121, 32, 105] + [110, 115, 112, 101, 99, 116, 115, 32]
          + ([116, 104, 101, 32, 115, 112, 97, 109] + [109, 105, 115, 104, 32, 114, 101, 112])

  lemma FrontWords()
    ensures |FRONT| == 32 && FRONT[..8] == [78, 111, 98, 111, 100, 121, 32, 105]
            && FRONT[8..16] == [110, 115, 112, 101, 99, 116, 115, 32]
    ensures FRONT[16..24] == [116, 104, 101, 32, 115, 112, 97, 109]
            && FRONT[24..] == [109, 105, 115, 104, 32, 114, 101, 112]
  {
    var a, b := [78, 111, 98, 111, 100, 121, 32, 105]
            + [110, 115, 112, 101, 99, 116, 115, 32], [116, 104, 101, 32, 115, 112, 97, 109]
            + [109, 105, 115, 104, 32, 114, 101, 112];
    assert (a + b)[..8] == a[..8] && (a + b)[8..16] == a[8..] && (a + b)[16..24] == b[..8] && (a + b)[24..] == b[8..];
  }

  lemma FrontAbsorbed()
    ensures |FRONT| == 32
            && Stripe(Lanes(0x60EA27EEADC0B5D6, 0xC2B2AE3D27D4EB4F, 0x0000000000000000, 0x61C8864E7A143579),
            FRONT) == Lanes(0x37245127A4067E4B, 0x1B302B0A818F92CF, 0xCD62D843D0580FCA, 0x1C16E43EF2142A4A)
  {
    hide Round, Word;
    FrontWords();
    Word1();
    Word2();
    Word3();
    Word4();
    Lane1();
    Lane2();
    Lane3();
    Lane4();
  }

  lemma Summed()
    ensures var a := Lanes(0x37245127A4067E4B, 0x1B302B0A818F92CF, 0xCD62D843D0580FCA, 0x1C16E43EF2142A4A);
            a.v1.RotateLeft(1) + a.v2.RotateLeft(7) + a.v3.RotateLeft(12) + a.v4.RotateLeft(18) == 0xC4DE2CE639FB8154
  {
  }

  lemma Merged1()
    ensures MergeRound(0xC4DE2CE639FB8154, 0x37245127A4067E4B) == 0x30D40DDD00AEA144
  {
  }

  lemma Merged2()
    ensures MergeRound(0x30D40DDD00AEA144, 0x1B302B0A818F92CF) == 0xE5A1F095BF498698
  {
  }

  lemma Merged3()
    ensures MergeRound(0xE5A1F095BF498698, 0xCD62D843D0580FCA) == 0xF9CEE721E748096D
  {
  }

  lemma Merged4()
    ensures MergeRound(0xF9CEE721E748096D, 0x1C16E43EF2142A4A) == 0x84F22C421A11A8B5
  {
  }

  lemma Converged()
    ensures Converge(Lanes(0x37245127A4067E4B, 0x1B302B0A818F92CF, 0xCD62D843D0580FCA, 0x1C16E43EF2142A4A))
            == 0x84F22C421A11A8B5
  {
    hide MergeRound;
    Summed();
    Merged1();
    Merged2();
    Merged3();
    Merged4();
  }

  const BACK: seq<byte> := [101, 116, 105, 116]

  const LAST: seq<byte> := [105, 111, 110]

  lemma BackMixed()
    ensures AddWord(0x84F22C421A11A8B5, 39) == 0x84F22C421A11A8DC
            && MixWord(0x84F22C421A11A8DC, 0x0000000074697465) == 0x9FCA0F5D0AAA110F
  {
  }

  lemma ByteMixed(h: bv64, b: byte, c: bv64, more: bv64)
    requires b as bv64 == c && more == Times1(Turn11(h, Times5(c)))
    ensures MixByte(h, b) == more
  {
  }

  lemma Last1()
    ensures MixByte(0x9FCA0F5D0AAA110F, 105) == 0x769671546F21BA14
  {
    hide MixByte;
    Last1Steps();
    ByteMixed(0x9FCA0F5D0AAA110F, 105, 105, 0x769671546F21BA14);
  }

  lemma Last1Steps()
    ensures Times1(Turn11(0x9FCA0F5D0AAA110F, Times5(105))) == 0x769671546F21BA14
  {
  }

  lemma Last2()
    ensures MixByte(0x769671546F21BA14, 111) == 0xEAE9B643C5F94E52
  {
    hide MixByte;
    Last2Steps();
    ByteMixed(0x769671546F21BA14, 111, 111, 0xEAE9B643C5F94E52);
  }

  lemma Last2Steps()
    ensures Times1(Turn11(0x769671546F21BA14, Times5(111))) == 0xEAE9B643C5F94E52
  {
  }

  lemma Last3()
    ensures MixByte(0xEAE9B643C5F94E52, 110) == 0x1D0A47483B37CC24
  {
    hide MixByte;
    Last3Steps();
    ByteMixed(0xEAE9B643C5F94E52, 110, 110, 0x1D0A47483B37CC24);
  }

  lemma Last3Steps()
    ensures Times1(Turn11(0xEAE9B643C5F94E52, Times5(110))) == 0x1D0A47483B37CC24
  {
  }

  lemma LastMixed()
    ensures Tail(0x9FCA0F5D0AAA110F, LAST) == 0x1D0A47483B37CC24
  {
    hide MixByte;
    Last1();
    Last2();
    Last3();
    assert LAST[1..] == [111, 110] && LAST[1..][1..] == [110] && LAST[1..][1..][1..] == [];
    assert Tail(0x769671546F21BA14, LAST[1..]) == Tail(0xEAE9B643C5F94E52, LAST[1..][1..])
            == Tail(0x1D0A47483B37CC24, LAST[1..][1..][1..]);
  }

  lemma TextStirred()
    ensures Avalanche(0x1D0A47483B37CC24) == 0xFBCEA83C8A378BF1
  {
  }

  const TEXT := FRONT + (BACK + LAST)

  lemma TextAbsorbed()
    ensures Absorb(Start(0), TEXT)
            == Lanes(0x37245127A4067E4B, 0x1B302B0A818F92CF, 0xCD62D843D0580FCA, 0x1C16E43EF2142A4A)
  {
    hide Stripe, Start;
    Seedless();
    FrontAbsorbed();
    assert TEXT[..32] == FRONT && TEXT[32..] == BACK + LAST;
  }

  lemma TextEnds()
    ensures |TEXT| == 39 && Rest(TEXT) == BACK + LAST
  {
  }

  lemma TailMixed()
    ensures Tail(0x84F22C421A11A8DC, BACK + LAST) == 0x1D0A47483B37CC24
  {
    hide AddWord, MixWord, MixLong, MixByte, Word;
    assert (BACK + LAST)[..4] == BACK && (BACK + LAST)[4..] == LAST;
    BackMixed();
    WordBack();
    LastMixed();
  }

  /** "Nobody inspects the spammish repetition" */
  lemma Text()
    ensures |TEXT| == 39 && Hash(TEXT, 0) == 0xFBCEA83C8A378BF1
  {
    hide Absorb, Converge, Avalanche, Start, AddWord, Tail, Rest, MixWord;
    TextEnds();
    TextAbsorbed();
    Converged();
    BackMixed();
    TailMixed();
    TextStirred();
  }
}
