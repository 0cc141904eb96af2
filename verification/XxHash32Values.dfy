/** Published values of XXH32. Between them they meet every step, rotation and prime: no input, single bytes,
    whole words, whole stripes, and a seed. */
module XxHash32Values {
  import opened Lz4Format
  import opened XxHash32

  lemma Ends()
    ensures Plus(0, PRIME_5) == 0x165667B1 && AddWord(0x165667B1, 0) == 0x165667B1
    ensures Plus(1, PRIME_5) == 0x165667B2 && AddWord(0x165667B2, 0) == 0x165667B2
  {
  }

  lemma EndsStirred()
    ensures Avalanche(0x165667B1) == 0x02CC5D05 && Avalanche(0x165667B2) == 0x0B2CB792
  {
  }

  lemma NoInput()
    ensures Hash([], 0) == 0x02CC5D05
    ensures Hash([], 1) == 0x0B2CB792
  {
    hide Avalanche, AddWord, Plus;
    Ends();
    EndsStirred();
    assert Rest([]) == [];
  }

  /** "a" */
  lemma OneByte()
    ensures Hash([0x61], 0) == 0x550D7456
  {
    hide MixByte, Avalanche, Plus, AddWord;
    LetterA();
    assert Rest([0x61]) == [0x61];
    LetterStarts();
    assert Tail(0x165667B2, [0x61]) == Tail(0x6506CBE8, [0x61][1..]) && [0x61][1..] == [];
    assert Avalanche(0x6506CBE8) == 0x550D7456 by { LetterAEnds(); }
  }

  lemma LetterStarts()
    ensures Plus(0, PRIME_5) == 0x165667B1 && AddWord(0x165667B1, 1) == 0x165667B2
  {
  }

  lemma LetterA()
    ensures MixByte(0x165667B2, 0x61) == 0x6506CBE8
  {
  }

  lemma LetterAEnds()
    ensures Avalanche(0x6506CBE8) == 0x550D7456
  {
  }

  lemma FromBytes(s: seq<byte>, a: bv32, b: bv32, c: bv32, d: bv32, w: bv32)
    requires |s| == 4 && s[0] as bv32 == a && s[1] as bv32 == b && s[2] as bv32 == c && s[3] as bv32 == d
    requires w == FromFour(a, b, c, d)
    ensures Word(s) == w
  {
    hide FromFour;
  }

  lemma Seedless()
    ensures Start(0) == Lanes(0x24234428, 0x85EBCA77, 0x00000000, 0x61C8864F)
  {
  }

  lemma ZerosWord1()
    ensures Word([0, 0, 0, 0]) == 0x00000000
  {
    hide Word;
    FromBytes([0, 0, 0, 0], 0, 0, 0, 0, 0x00000000);
  }

  lemma ZerosLane1()
    ensures Round(0x24234428, Word([0, 0, 0, 0])) == 0x93768344
  {
    hide Word;
    ZerosWord1();
  }

  lemma ZerosLane2()
    ensures Round(0x85EBCA77, Word([0, 0, 0, 0])) == 0x8DF8C7AD
  {
    hide Word;
    ZerosWord1();
  }

  lemma ZerosLane3()
    ensures Round(0x00000000, Word([0, 0, 0, 0])) == 0x00000000
  {
    hide Word;
    ZerosWord1();
  }

  lemma ZerosLane4()
    ensures Round(0x61C8864F, Word([0, 0, 0, 0])) == 0xFA824469
  {
    hide Word;
    ZerosWord1();
  }

  const ZEROS: seq<byte> := [0, 0, 0, 0, 0, 0, 0, 0, 0, 0, 0, 0, 0, 0, 0, 0]

  lemma ZerosAbsorbed()
    ensures Stripe(Lanes(0x24234428, 0x85EBCA77, 0x00000000, 0x61C8864F), ZEROS)
            == Lanes(0x93768344, 0x8DF8C7AD, 0x00000000, 0xFA824469)
  {
    hide Round, Word;
    ZerosLane1();
    ZerosLane2();
    ZerosLane3();
    ZerosLane4();
    assert ZEROS[..4] == [0, 0, 0, 0] && ZEROS[4..8] == [0, 0, 0, 0];
    assert ZEROS[8..12] == [0, 0, 0, 0] && ZEROS[12..] == [0, 0, 0, 0];
  }

  lemma ZerosEnd()
    ensures Converge(Lanes(0x93768344, 0x8DF8C7AD, 0x00000000, 0xFA824469)) == 0x34F8C758
            && AddWord(0x34F8C758, 16) == 0x34F8C768
    ensures Avalanche(0x34F8C768) == 0x8E022B3A
  {
  }

  /** Sixteen zero bytes. */
  lemma SixteenZeros()
    ensures Hash(ZEROS, 0) == 0x8E022B3A
  {
    hide Stripe, Converge, Avalanche, Start, AddWord;
    Seedless();
    ZerosAbsorbed();
    ZerosEnd();
    assert ZEROS[..16] == ZEROS && ZEROS[16..] == [] && Rest(ZEROS) == [];
    assert Absorb(Start(0), ZEROS) == Absorb(Lanes(0x93768344, 0x8DF8C7AD, 0x00000000, 0xFA824469), []);
  }

  // "Nobody inspects "

  lemma FrontWord1()
    ensures Word([78, 111, 98, 111]) == 0x6F626F4E
  {
    hide Word;
    FromBytes([78, 111, 98, 111], 78, 111, 98, 111, 0x6F626F4E);
  }

  lemma FrontLane1()
    ensures Round(0x24234428, Word([78, 111, 98, 111])) == 0x046A700A
  {
    hide Word;
    FrontWord1();
  }

  lemma FrontWord2()
    ensures Word([100, 121, 32, 105]) == 0x69207964
  {
    hide Word;
    FromBytes([100, 121, 32, 105], 100, 121, 32, 105, 0x69207964);
  }

  lemma FrontLane2()
    ensures Round(0x85EBCA77, Word([100, 121, 32, 105])) == 0xBFADF8E3
  {
    hide Word;
    FrontWord2();
  }

  lemma FrontWord3()
    ensures Word([110, 115, 112, 101]) == 0x6570736E
  {
    hide Word;
    FromBytes([110, 115, 112, 101], 110, 115, 112, 101, 0x6570736E);
  }

  lemma FrontLane3()
    ensures Round(0x00000000, Word([110, 115, 112, 101])) == 0x5B32B4AA
  {
    hide Word;
    FrontWord3();
  }

  lemma FrontWord4()
    ensures Word([99, 116, 115, 32]) == 0x20737463
  {
    hide Word;
    FromBytes([99, 116, 115, 32], 99, 116, 115, 32, 0x20737463);
  }

  lemma FrontLane4()
    ensures Round(0x61C8864F, Word([99, 116, 115, 32])) == 0x137E5555
  {
    hide Word;
    FrontWord4();
  }

  const FRONT: seq<byte> := [78, 111, 98, 111, 100, 121, 32, 105, 110, 115, 112, 101, 99, 116, 115, 32]

  lemma FrontAbsorbed()
    ensures Stripe(Lanes(0x24234428, 0x85EBCA77, 0x00000000, 0x61C8864F), FRONT)
            == Lanes(0x046A700A, 0xBFADF8E3, 0x5B32B4AA, 0x137E5555)
  {
    hide Round, Word;
    FrontLane1();
    FrontLane2();
    FrontLane3();
    FrontLane4();
    assert FRONT[..4] == [78, 111, 98, 111] && FRONT[4..8] == [100, 121, 32, 105];
    assert FRONT[8..12] == [110, 115, 112, 101] && FRONT[12..] == [99, 116, 115, 32];
  }

  // "the spammish rep"

  lemma MiddleWord1()
    ensures Word([116, 104, 101, 32]) == 0x20656874
  {
    hide Word;
    FromBytes([116, 104, 101, 32], 116, 104, 101, 32, 0x20656874);
  }

  lemma MiddleLane1()
    ensures Round(0x046A700A, Word([116, 104, 101, 32])) == 0x719A836E
  {
    hide Word;
    MiddleWord1();
  }

  lemma MiddleWord2()
    ensures Word([115, 112, 97, 109]) == 0x6D617073
  {
    hide Word;
    FromBytes([115, 112, 97, 109], 115, 112, 97, 109, 0x6D617073);
  }

  lemma MiddleLane2()
    ensures Round(0xBFADF8E3, Word([115, 112, 97, 109])) == 0x514C1DE8
  {
    hide Word;
    MiddleWord2();
  }

  lemma MiddleWord3()
    ensures Word([109, 105, 115, 104]) == 0x6873696D
  {
    hide Word;
    FromBytes([109, 105, 115, 104], 109, 105, 115, 104, 0x6873696D);
  }

  lemma MiddleLane3()
    ensures Round(0x5B32B4AA, Word([109, 105, 115, 104])) == 0x97FA4BA2
  {
    hide Word;
    MiddleWord3();
  }

  lemma MiddleWord4()
    ensures Word([32, 114, 101, 112]) == 0x70657220
  {
    hide Word;
    FromBytes([32, 114, 101, 112], 32, 114, 101, 112, 0x70657220);
  }

  lemma MiddleLane4()
    ensures Round(0x137E5555, Word([32, 114, 101, 112])) == 0x242A97A2
  {
    hide Word;
    MiddleWord4();
  }

  const MIDDLE: seq<byte> := [116, 104, 101, 32, 115, 112, 97, 109, 109, 105, 115, 104, 32, 114, 101, 112]

  lemma MiddleAbsorbed()
    ensures Stripe(Lanes(0x046A700A, 0xBFADF8E3, 0x5B32B4AA, 0x137E5555), MIDDLE)
            == Lanes(0x719A836E, 0x514C1DE8, 0x97FA4BA2, 0x242A97A2)
  {
    hide Round, Word;
    MiddleLane1();
    MiddleLane2();
    MiddleLane3();
    MiddleLane4();
    assert MIDDLE[..4] == [116, 104, 101, 32] && MIDDLE[4..8] == [115, 112, 97, 109];
    assert MIDDLE[8..12] == [109, 105, 115, 104] && MIDDLE[12..] == [32, 114, 101, 112];
  }

  // "etit", "ion"

  const BACK: seq<byte> := [101, 116, 105, 116]

  const LAST: seq<byte> := [105, 111, 110]

  lemma BackWord()
    ensures Word(BACK) == 0x74697465
  {
    hide Word;
    FromBytes(BACK, 101, 116, 105, 116, 0x74697465);
  }

  lemma BackMixed()
    ensures MixWord(0x8C86B554, Word(BACK)) == 0x09B51544
  {
    hide Word;
    BackWord();
  }

  lemma Last1()
    ensures MixByte(0x09B51544, 105) == 0xCDEFD3C9
  {
  }

  lemma Last2()
    ensures MixByte(0xCDEFD3C9, 111) == 0x3852087B
  {
  }

  lemma Last3()
    ensures MixByte(0x3852087B, 110) == 0xB3A7011B
  {
  }

  lemma LastMixed()
    ensures Tail(0x09B51544, LAST) == 0xB3A7011B
  {
    hide MixByte;
    Last1();
    Last2();
    Last3();
    assert LAST[1..] == [111, 110] && LAST[1..][1..] == [110] && LAST[1..][1..][1..] == [];
    assert Tail(0xCDEFD3C9, LAST[1..]) == Tail(0x3852087B, LAST[1..][1..]) == Tail(0xB3A7011B, LAST[1..][1..][1..]);
  }

  lemma TextGathers()
    ensures Converge(Lanes(0x719A836E, 0x514C1DE8, 0x97FA4BA2, 0x242A97A2)) == 0x8C86B52D
            && AddWord(0x8C86B52D, 39) == 0x8C86B554
    ensures Avalanche(0xB3A7011B) == 0xE2293B2F
  {
  }

  const TEXT := FRONT + (MIDDLE + (BACK + LAST))

  lemma TextAbsorbed()
    ensures Absorb(Start(0), TEXT) == Lanes(0x719A836E, 0x514C1DE8, 0x97FA4BA2, 0x242A97A2)
  {
    hide Stripe, Start;
    Seedless();
    FrontAbsorbed();
    MiddleAbsorbed();
    assert TEXT[..16] == FRONT && TEXT[16..] == MIDDLE + (BACK + LAST);
    assert TEXT[16..][..16] == MIDDLE && TEXT[16..][16..] == BACK + LAST;
    assert Absorb(Start(0), TEXT) == Absorb(Lanes(0x046A700A, 0xBFADF8E3, 0x5B32B4AA, 0x137E5555), TEXT[16..])
            == Absorb(Lanes(0x719A836E, 0x514C1DE8, 0x97FA4BA2, 0x242A97A2), BACK + LAST);
  }

  /** "Nobody inspects the spammish repetition" */
  lemma Text()
    ensures |TEXT| == 39 && Hash(TEXT, 0) == 0xE2293B2F
  {
    hide Absorb, Converge, Avalanche, Start, AddWord, MixWord, Word;
    TextAbsorbed();
    TextGathers();
    assert Rest(TEXT) == BACK + LAST && (BACK + LAST)[..4] == BACK && (BACK + LAST)[4..] == LAST;
    BackMixed();
    assert Tail(0x8C86B554, BACK + LAST) == Tail(0x09B51544, LAST);
    LastMixed();
  }
}
