/** XXH32: the one-shot hash, the streaming state that must agree with it however the input is cut,
    and the reference both are proved against.

    Words are 32-bit vectors, so every sum and product wraps as in the source. Only little-endian
    word reads are modelled; they do not depend on alignment. */
module XxHash32 {
  import opened Lz4Format

  const PRIME_1: bv32 := 2654435761
  const PRIME_2: bv32 := 2246822519
  const PRIME_5: bv32 := 374761393

  const TWO_32 := 0x1_0000_0000

  datatype Lanes = Lanes(v1: bv32, v2: bv32, v3: bv32, v4: bv32)

  function FromFour(a: bv32, b: bv32, c: bv32, d: bv32): bv32 { a + (b << 8) + (c << 16) + (d << 24) }

  function Word(b: seq<byte>): bv32
    requires |b| == 4
  {
    FromFour(b[0] as bv32, b[1] as bv32, b[2] as bv32, b[3] as bv32)
  }

  /** Multiplied by one of the primes. */
  function Times1(h: bv32): bv32 { h * 2654435761 }

  function Times2(h: bv32): bv32 { h * 2246822519 }

  function Times3(h: bv32): bv32 { h * 3266489917 }

  function Times4(h: bv32): bv32 { h * 668265263 }

  function Times5(h: bv32): bv32 { h * 374761393 }

  function Plus(h: bv32, w: bv32): bv32 { h + w }

  /** Turned. */
  function Turn13(h: bv32): bv32 { h.RotateLeft(13) }

  function Turn17(h: bv32): bv32 { h.RotateLeft(17) }

  function Turn11(h: bv32): bv32 { h.RotateLeft(11) }

  /** Folded onto itself. */
  function Fold15(h: bv32): bv32 { h ^ (h >> 15) }

  function Fold13(h: bv32): bv32 { h ^ (h >> 13) }

  function Fold16(h: bv32): bv32 { h ^ (h >> 16) }

  function Round(acc: bv32, input: bv32): bv32 {
    Times1(Turn13(Plus(acc, Times2(input))))
  }

  function Avalanche(h: bv32): bv32 {
    Fold16(Times3(Fold13(Times2(Fold15(h)))))
  }

  function MixWord(h: bv32, w: bv32): bv32 {
    Times4(Turn17(Plus(h, Times3(w))))
  }

  function MixByte(h: bv32, b: byte): bv32 {
    Times1(Turn11(Plus(h, Times5(b as bv32))))
  }

  function Start(seed: bv32): Lanes {
    Lanes(seed + PRIME_1 + PRIME_2, seed + PRIME_2, seed, seed - PRIME_1)
  }

  function Converge(a: Lanes): bv32 {
    a.v1.RotateLeft(1) + a.v2.RotateLeft(7) + a.v3.RotateLeft(12) + a.v4.RotateLeft(18)
  }

  // ---------------------------------------------------------------- the hash of reference

  /** One stripe of sixteen bytes: a word for each lane. */
  function Stripe(a: Lanes, s: seq<byte>): Lanes
    requires |s| == 16
  {
    Lanes(Round(a.v1, Word(s[..4])), Round(a.v2, Word(s[4..8])),
          Round(a.v3, Word(s[8..12])), Round(a.v4, Word(s[12..])))
  }

  /** The lanes after every complete stripe of `s`. */
  function Absorb(a: Lanes, s: seq<byte>): Lanes
    decreases |s|
  {
    if |s| < 16 then a else Absorb(Stripe(a, s[..16]), s[16..])
  }

  /** The bytes after the last complete stripe. */
  function Rest(s: seq<byte>): (r: seq<byte>)
    ensures |r| == |s| % 16
  {
    s[|s| - |s| % 16..]
  }

  /** Whole words first, then single bytes. */
  function Tail(h: bv32, s: seq<byte>): bv32
    decreases |s|
  {
    if |s| >= 4 then Tail(MixWord(h, Word(s[..4])), s[4..])
    else if |s| > 0 then Tail(MixByte(h, s[0]), s[1..])
    else h
  }

  /** The lanes brought together; an input without a complete stripe never reached them. */
  function Gathered(s: seq<byte>, seed: bv32): bv32 {
    if |s| >= 16 then Converge(Absorb(Start(seed), s)) else Plus(seed, PRIME_5)
  }

  function Low(n: nat): (r: nat)
    ensures r < TWO_32
  {
    n % TWO_32
  }

  /** The length joins the hash as a 32-bit word. */
  function WithLength(h: bv32, n: nat): bv32 {
    AddWord(h, Low(n))
  }

  function AddWord(h: bv32, n: nat): bv32
    requires n < TWO_32
  {
    h + n as bv32
  }

  function Hash(s: seq<byte>, seed: bv32): bv32 {
    Avalanche(Tail(WithLength(Gathered(s, seed), |s|), Rest(s)))
  }

  // ---------------------------------------------------------------- no step loses anything

  /** Multiplied by the inverse of the prime modulo 2^32. */
  function Over1(h: bv32): bv32 { h * 244002641 }

  function Over2(h: bv32): bv32 { h * 3066638151 }

  function Over3(h: bv32): bv32 { h * 2828982549 }

  function Over4(h: bv32): bv32 { h * 2701016015 }

  lemma Inverse1(h: bv32)
    ensures Over1(h * 2654435761) == h
  {
  }

  lemma Undo1(h: bv32)
    ensures Over1(Times1(h)) == h
  {
    hide Over1;
    Inverse1(h);
  }

  lemma Inverse2(h: bv32)
    ensures Over2(h * 2246822519) == h
  {
  }

  lemma Undo2(h: bv32)
    ensures Over2(Times2(h)) == h
  {
    hide Over2;
    Inverse2(h);
  }

  lemma Inverse3(h: bv32)
    ensures Over3(h * 3266489917) == h
  {
  }

  lemma Undo3(h: bv32)
    ensures Over3(Times3(h)) == h
  {
    hide Over3;
    Inverse3(h);
  }

  lemma Inverse4(h: bv32)
    ensures Over4(h * 668265263) == h
  {
  }

  lemma Undo4(h: bv32)
    ensures Over4(Times4(h)) == h
  {
    hide Over4;
    Inverse4(h);
  }

  function Minus(h: bv32, w: bv32): bv32 { h - w }

  lemma SumUndone(h: bv32, w: bv32)
    ensures Minus(h + w, w) == h
  {
  }

  lemma PlusUndone(h: bv32, w: bv32)
    ensures Minus(Plus(h, w), w) == h
  {
    hide Minus;
    SumUndone(h, w);
  }

  function Back13(h: bv32): bv32 { h.RotateRight(13) }

  lemma Turn13Undone(h: bv32)
    ensures Back13(Turn13(h)) == h
  {
  }

  function Back17(h: bv32): bv32 { h.RotateRight(17) }

  lemma Turn17Undone(h: bv32)
    ensures Back17(Turn17(h)) == h
  {
  }

  function Back11(h: bv32): bv32 { h.RotateRight(11) }

  lemma Turn11Undone(h: bv32)
    ensures Back11(Turn11(h)) == h
  {
  }

  function Unfold15(h: bv32): bv32 { h ^ (h >> 15) ^ (h >> 30) }

  lemma Folded15(h: bv32)
    ensures Unfold15(h ^ (h >> 15)) == h
  {
  }

  lemma Fold15Undone(h: bv32)
    ensures Unfold15(Fold15(h)) == h
  {
    hide Unfold15;
    Folded15(h);
  }

  function Unfold13(h: bv32): bv32 { h ^ (h >> 13) ^ (h >> 26) }

  lemma Folded13(h: bv32)
    ensures Unfold13(h ^ (h >> 13)) == h
  {
  }

  lemma Fold13Undone(h: bv32)
    ensures Unfold13(Fold13(h)) == h
  {
    hide Unfold13;
    Folded13(h);
  }

  function Unfold16(h: bv32): bv32 { h ^ (h >> 16) }

  lemma Folded16(h: bv32)
    ensures Unfold16(h ^ (h >> 16)) == h
  {
  }

  lemma Fold16Undone(h: bv32)
    ensures Unfold16(Fold16(h)) == h
  {
    hide Unfold16;
    Folded16(h);
  }

  /** A round is undone by its word. */
  lemma RoundUndone(acc: bv32, input: bv32)
    ensures Minus(Back13(Over1(Round(acc, input))), Times2(input)) == acc
  {
    hide Times1, Times2, Over1, Plus, Minus, Turn13, Back13;
    var sum := Plus(acc, Times2(input));
    Undo1(Turn13(sum));
    Turn13Undone(sum);
    PlusUndone(acc, Times2(input));
  }

  lemma MixWordUndone(h: bv32, w: bv32)
    ensures Minus(Back17(Over4(MixWord(h, w))), Times3(w)) == h
  {
    hide Times3, Times4, Over4, Plus, Minus, Turn17, Back17;
    var sum := Plus(h, Times3(w));
    Undo4(Turn17(sum));
    Turn17Undone(sum);
    PlusUndone(h, Times3(w));
  }

  lemma MixByteUndone(h: bv32, b: byte)
    ensures Minus(Back11(Over1(MixByte(h, b))), Times5(b as bv32)) == h
  {
    hide Times1, Times5, Over1, Plus, Minus, Turn11, Back11;
    var sum := Plus(h, Times5(b as bv32));
    Undo1(Turn11(sum));
    Turn11Undone(sum);
    PlusUndone(h, Times5(b as bv32));
  }

  function Calm(h: bv32): bv32 {
    Unfold15(Over2(Unfold13(Over3(Unfold16(h)))))
  }

  lemma AvalancheUndone(h: bv32)
    ensures Calm(Avalanche(h)) == h
  {
    hide Times2, Times3, Over2, Over3, Fold15, Fold13, Fold16, Unfold15, Unfold13, Unfold16;
    var a := Times2(Fold15(h));
    Fold16Undone(Times3(Fold13(a)));
    Undo3(Fold13(a));
    Fold13Undone(a);
    Undo2(Fold15(h));
    Fold15Undone(h);
  }

  /** The bytes after the stripes tell any two hashes apart that were different before. */
  lemma {:induction false} TailTells(x: bv32, y: bv32, s: seq<byte>)
    ensures Tail(x, s) == Tail(y, s) <==> x == y
    decreases |s|
  {
    hide MixWord, MixByte, Minus, Back17, Back11, Over4, Over1, Times3, Times5, Word;
    if |s| >= 4 {
      var w := Word(s[..4]);
      MixWordUndone(x, w);
      MixWordUndone(y, w);
      TailTells(MixWord(x, w), MixWord(y, w), s[4..]);
    } else if |s| > 0 {
      MixByteUndone(x, s[0]);
      MixByteUndone(y, s[0]);
      TailTells(MixByte(x, s[0]), MixByte(y, s[0]), s[1..]);
    }
  }

  /** A stripe tells any two states of the lanes apart. */
  lemma StripeTells(a: Lanes, b: Lanes, s: seq<byte>)
    requires |s| == 16
    ensures Stripe(a, s) == Stripe(b, s) <==> a == b
  {
    hide Round, Minus, Back13, Over1, Times2, Word;
    RoundUndone(a.v1, Word(s[..4]));
    RoundUndone(b.v1, Word(s[..4]));
    RoundUndone(a.v2, Word(s[4..8]));
    RoundUndone(b.v2, Word(s[4..8]));
    RoundUndone(a.v3, Word(s[8..12]));
    RoundUndone(b.v3, Word(s[8..12]));
    RoundUndone(a.v4, Word(s[12..]));
    RoundUndone(b.v4, Word(s[12..]));
  }

  // ---------------------------------------------------------------- cutting the input

  lemma {:induction false} AbsorbJoin(a: Lanes, s: seq<byte>, t: seq<byte>)
    requires |s| % 16 == 0
    ensures Absorb(a, s + t) == Absorb(Absorb(a, s), t)
    decreases |s|
  {
    hide Stripe;
    if |s| == 0 {
      assert s + t == t;
    } else {
      assert (s + t)[..16] == s[..16] && (s + t)[16..] == s[16..] + t;
      AbsorbJoin(Stripe(a, s[..16]), s[16..], t);
    }
  }

  /** Bytes that do not complete a stripe leave the lanes alone. */
  lemma AbsorbPart(a: Lanes, s: seq<byte>, t: seq<byte>)
    requires |s| % 16 + |t| < 16
    ensures Absorb(a, s + t) == Absorb(a, s)
    ensures Rest(s + t) == Rest(s) + t
  {
    hide Stripe, Absorb;
    var full := s[..|s| - |s| % 16];
    RestOf(s, t);
    AbsorbJoin(a, full, Rest(s));
    AbsorbJoin(a, full, Rest(s) + t);
    AbsorbShort(Absorb(a, full), Rest(s));
    AbsorbShort(Absorb(a, full), Rest(s) + t);
  }

  lemma RestOf(s: seq<byte>, t: seq<byte>)
    requires |s| % 16 + |t| < 16
    ensures var full := s[..|s| - |s| % 16];
            |full| % 16 == 0 && s == full + Rest(s) && s + t == full + (Rest(s) + t) && Rest(s + t) == Rest(s) + t
  {
    assert |s + t| % 16 == |s| % 16 + |t|;
  }

  /** Bytes that complete the stripe in waiting are absorbed with it. */
  lemma AbsorbFill(a: Lanes, s: seq<byte>, t: seq<byte>)
    requires |s| % 16 + |t| == 16
    ensures Absorb(a, s + t) == Stripe(Absorb(a, s), Rest(s) + t)
    ensures |s + t| % 16 == 0
  {
    hide Stripe;
    var full := s[..|s| - |s| % 16];
    assert s == full + Rest(s) && s + t == full + (Rest(s) + t);
    AbsorbJoin(a, full, Rest(s));
    AbsorbJoin(a, full, Rest(s) + t);
    var stripe := Rest(s) + t;
    assert stripe[..16] == stripe && stripe[16..] == [];
  }

  // ---------------------------------------------------------------- the switch that ends a hash

  /** The bytes of `s` from `p` to `end` worked into `h`. */
  function Ending(h: bv32, s: seq<byte>, p: nat, end: nat): bv32
    requires p <= end <= |s|
  {
    Tail(h, s[p..end])
  }

  lemma EndingDone(h0: bv32, h: bv32, s: seq<byte>, n: nat)
    requires n <= |s| && Ending(h, s, n, n) == Ending(h0, s, 0, n)
    ensures h == Tail(h0, s[..n])
  {
    assert s[n..n] == [] && s[0..n] == s[..n];
  }

  method ProcessWord(h: bv32, s: seq<byte>, p: nat, end: nat) returns (h': bv32, p': nat)
    requires p + 4 <= end <= |s|
    ensures p' == p + 4 && Ending(h', s, p', end) == Ending(h, s, p, end)
  {
    hide MixWord, MixByte, Word;
    assert s[p..end][..4] == s[p..p + 4] && s[p..end][4..] == s[p + 4..end];
    h', p' := MixWord(h, Word(s[p..p + 4])), p + 4;
  }

  method ProcessByte(h: bv32, s: seq<byte>, p: nat, end: nat) returns (h': bv32, p': nat)
    requires p < end <= |s| && end - p < 4
    ensures p' == p + 1 && Ending(h', s, p', end) == Ending(h, s, p, end)
  {
    hide MixWord, MixByte, Word;
    assert s[p..end][1..] == s[p + 1..end];
    h', p' := MixByte(h, s[p]), p + 1;
  }

  /** The fall-through switch: each residue of the length enters its chain of steps in the middle. */
  method Finalize(h0: bv32, s: seq<byte>, len: nat) returns (r: bv32)
    requires len % 16 <= |s|
    ensures r == Avalanche(Tail(h0, s[..len % 16]))
  {
    hide Ending, Tail, Avalanche;
    var n, h, p: nat := len % 16, h0, 0;
    if n == 12 || n == 8 || n == 4 {
      if n == 12 { h, p := ProcessWord(h, s, p, n); }
      if n >= 8 { h, p := ProcessWord(h, s, p, n); }
      h, p := ProcessWord(h, s, p, n);
    } else if n == 13 || n == 9 || n == 5 {
      if n == 13 { h, p := ProcessWord(h, s, p, n); }
      if n >= 9 { h, p := ProcessWord(h, s, p, n); }
      h, p := ProcessWord(h, s, p, n);
      h, p := ProcessByte(h, s, p, n);
    } else if n == 14 || n == 10 || n == 6 {
      if n == 14 { h, p := ProcessWord(h, s, p, n); }
      if n >= 10 { h, p := ProcessWord(h, s, p, n); }
      h, p := ProcessWord(h, s, p, n);
      h, p := ProcessByte(h, s, p, n);
      h, p := ProcessByte(h, s, p, n);
    } else {
      if n == 15 { h, p := ProcessWord(h, s, p, n); }
      if n >= 11 { h, p := ProcessWord(h, s, p, n); }
      if n >= 7 { h, p := ProcessWord(h, s, p, n); }
      if n >= 3 { h, p := ProcessByte(h, s, p, n); }
      if n >= 2 { h, p := ProcessByte(h, s, p, n); }
      if n >= 1 { h, p := ProcessByte(h, s, p, n); }
    }
    EndingDone(h0, h, s, n);
    r := Avalanche(h);
  }

  // ---------------------------------------------------------------- one shot

  /** The word at `p`. */
  function ReadWord(s: seq<byte>, p: nat): bv32
    requires p + 4 <= |s|
  {
    Word(s[p..p + 4])
  }

  lemma SliceOfSlice(s: seq<byte>, from: nat, to: nat, i: nat, j: nat)
    requires from <= to <= |s| && i <= j <= to - from
    ensures s[from..to][i..j] == s[from + i..from + j]
  {
    assert forall k | 0 <= k < j - i :: s[from..to][i..j][k] == s[from + i..from + j][k];
  }

  lemma StripeAt(a: Lanes, s: seq<byte>, p: nat)
    requires p + 16 <= |s|
    ensures Stripe(a, s[p..p + 16])
         == Lanes(Round(a.v1, ReadWord(s, p)), Round(a.v2, ReadWord(s, p + 4)),
                  Round(a.v3, ReadWord(s, p + 8)), Round(a.v4, ReadWord(s, p + 12)))
  {
    hide Round, Word;
    SliceOfSlice(s, p, p + 16, 0, 4);
    SliceOfSlice(s, p, p + 16, 4, 8);
    SliceOfSlice(s, p, p + 16, 8, 12);
    SliceOfSlice(s, p, p + 16, 12, 16);
  }

  lemma AbsorbNext(a: Lanes, s: seq<byte>, p: nat)
    requires p + 16 <= |s| && p % 16 == 0
    ensures Absorb(a, s[..p + 16]) == Stripe(Absorb(a, s[..p]), s[p..p + 16])
  {
    hide Stripe;
    assert s[..p + 16] == s[..p] + s[p..p + 16];
    AbsorbFill(a, s[..p], s[p..p + 16]);
    assert Rest(s[..p]) == [] && Rest(s[..p]) + s[p..p + 16] == s[p..p + 16];
  }

  /** The lane loop of the one-shot hash, which stops at the last complete stripe. */
  method AbsorbAll(input: seq<byte>, seed: bv32) returns (h: bv32, p: nat)
    requires |input| >= 16
    ensures p <= |input| && input[p..] == Rest(input)
    ensures h == Gathered(input, seed)
  {
    hide Round, Word, Stripe, Absorb, Converge, Rest;
    var limit := |input| - 15;
    var v1, v2, v3, v4 := seed + PRIME_1 + PRIME_2, seed + PRIME_2, seed + 0, seed - PRIME_1;
    p := 0;
    assert input[..0] == [];
    AbsorbNone(Start(seed));
    var first := true;
    while first || p < limit
      invariant p % 16 == 0 && p <= |input| && (first ==> p == 0)
      invariant Lanes(v1, v2, v3, v4) == Absorb(Start(seed), input[..p])
      decreases |input| - p
    {
      AbsorbNext(Start(seed), input, p);
      StripeAt(Lanes(v1, v2, v3, v4), input, p);
      v1 := Round(v1, ReadWord(input, p)); p := p + 4;
      v2 := Round(v2, ReadWord(input, p)); p := p + 4;
      v3 := Round(v3, ReadWord(input, p)); p := p + 4;
      v4 := Round(v4, ReadWord(input, p)); p := p + 4;
      first := false;
    }
    h := Converge(Lanes(v1, v2, v3, v4));
    AbsorbUpTo(Start(seed), input, p);
  }

  method FinalizeRest(h: bv32, input: seq<byte>, p: nat) returns (r: bv32)
    requires p <= |input| && input[p..] == Rest(input)
    ensures r == Avalanche(Tail(h, Rest(input)))
  {
    hide Avalanche, Tail, Rest;
    assert |input[p..]| == |input| % 16;
    assert input[p..][..|input| % 16] == input[p..];
    r := Finalize(h, input[p..], |input| % 16);
  }

  method Xxh32(input: seq<byte>, seed: bv32) returns (r: bv32)
    ensures r == Hash(input, seed)
  {
    hide Avalanche, Tail, Gathered, WithLength;
    var p: nat := 0;
    var h: bv32;
    if |input| >= 16 {
      h, p := AbsorbAll(input, seed);
    } else {
      h := Plus(seed, PRIME_5);
      GatheredShort(input, seed);
    }
    h := WithLength(h, |input|);
    r := FinalizeRest(h, input, p);
  }

  lemma AbsorbUpTo(a: Lanes, s: seq<byte>, p: nat)
    requires |s| - 16 < p <= |s| && p % 16 == 0
    ensures Absorb(a, s) == Absorb(a, s[..p]) && s[p..] == Rest(s)
  {
    hide Absorb;
    assert s == s[..p] + s[p..];
    AbsorbPart(a, s[..p], s[p..]);
    assert Rest(s[..p]) == [];
  }

  lemma GatheredShort(s: seq<byte>, seed: bv32)
    requires |s| < 16
    ensures Gathered(s, seed) == seed + PRIME_5
  {
  }

  lemma AbsorbNextAfter(a: Lanes, s: seq<byte>, t: seq<byte>, p: nat)
    requires p + 16 <= |t| && (|s| + p) % 16 == 0
    ensures Absorb(a, s + t[..p + 16]) == Stripe(Absorb(a, s + t[..p]), t[p..p + 16])
  {
    hide Stripe;
    var u := s + t[..p];
    assert s + t[..p + 16] == u + t[p..p + 16];
    AbsorbFill(a, u, t[p..p + 16]);
    assert Rest(u) + t[p..p + 16] == t[p..p + 16];
  }

  /** The bytes left over once fewer than sixteen remain. */
  lemma AbsorbRest(a: Lanes, s: seq<byte>, t: seq<byte>, p: nat)
    requires |t| - 16 < p <= |t| && (|s| + p) % 16 == 0
    ensures Absorb(a, s + t) == Absorb(a, s + t[..p])
    ensures Rest(s + t) == t[p..] && |s + t| % 16 == |t| - p
  {
    hide Stripe, Absorb;
    assert s + t == (s + t[..p]) + t[p..];
    AbsorbPart(a, s + t[..p], t[p..]);
    assert Rest(s + t[..p]) + t[p..] == t[p..];
  }

  lemma AbsorbShort(a: Lanes, s: seq<byte>)
    requires |s| < 16
    ensures Absorb(a, s) == a
  {
  }

  lemma AbsorbNone(a: Lanes)
    ensures Absorb(a, []) == a
  {
  }

  // ---------------------------------------------------------------- streaming

  lemma TotalGrows(n: nat, k: nat)
    ensures Low(Low(n) + k) == Low(n + k)
    ensures n < 16 && k < 16 ==> Low(n + k) == n + k
  {
  }

  lemma WithLengthWraps(h: bv32, n: nat)
    ensures WithLength(h, Low(n)) == WithLength(h, n)
  {
    hide Low, AddWord;
    LowTwice(n);
  }

  lemma LowTwice(n: nat)
    ensures Low(Low(n)) == Low(n)
  {
  }

  class State {
    var totalLen: nat
    var largeLen: bool
    var v1: bv32
    var v2: bv32
    var v3: bv32
    var v4: bv32
    const mem: array<byte>
    var memSize: nat

    constructor ()
      ensures fresh(this) && fresh(mem) && mem.Length == 16
    {
      mem := new byte[16];
    }

    /** The state is what absorbing `input` under `seed` leaves behind. */
    ghost predicate Holds(seed: bv32, input: seq<byte>)
      reads this, mem
    {
      && mem.Length == 16
      && memSize == |input| % 16 && mem[..memSize] == Rest(input)
      && Lanes(v1, v2, v3, v4) == Absorb(Start(seed), input)
      && totalLen == Low(|input|)
      && (largeLen <==> |input| >= 16)
    }

    method Reset(seed: bv32)
      requires mem.Length == 16
      modifies this
      ensures Holds(seed, [])
    {
      totalLen, largeLen, memSize := 0, false, 0;
      v1, v2, v3, v4 := seed + PRIME_1 + PRIME_2, seed + PRIME_2, seed + 0, seed - PRIME_1;
      assert mem[..0] == [];
    }

    /** The four rounds on one stripe. */
    method Rounds(s: seq<byte>, p: nat)
      requires p + 16 <= |s|
      modifies `v1, `v2, `v3, `v4
      ensures Lanes(v1, v2, v3, v4) == Stripe(old(Lanes(v1, v2, v3, v4)), s[p..p + 16])
    {
      hide Round, Word, Stripe;
      StripeAt(Lanes(v1, v2, v3, v4), s, p);
      v1 := Round(v1, ReadWord(s, p));
      v2 := Round(v2, ReadWord(s, p + 4));
      v3 := Round(v3, ReadWord(s, p + 8));
      v4 := Round(v4, ReadWord(s, p + 12));
    }

    /** Copy `data[..n]` behind the bytes already waiting. */
    method Store(data: seq<byte>, n: nat)
      requires n <= |data| && memSize + n <= mem.Length
      modifies mem
      ensures mem[..memSize + n] == old(mem[..memSize]) + data[..n]
    {
      forall i | 0 <= i < n { mem[memSize + i] := data[i]; }
    }

    /** The lanes and the waiting bytes alone. */
    ghost predicate Keeps(seed: bv32, input: seq<byte>)
      reads this, mem
    {
      && mem.Length == 16
      && memSize == |input| % 16 && mem[..memSize] == Rest(input)
      && Lanes(v1, v2, v3, v4) == Absorb(Start(seed), input)
    }

    /** Feed `data`: the state depends on the bytes fed so far, not on how they were cut. */
    method Update(data: seq<byte>, ghost seed: bv32, ghost sofar: seq<byte>)
      requires Holds(seed, sofar)
      modifies this, mem
      ensures Holds(seed, sofar + data)
    {
      hide Absorb, Rest, Low;
      TotalGrows(|sofar|, |data|);
      totalLen := Low(totalLen + |data|);
      largeLen := largeLen || |data| >= 16 || totalLen >= 16;
      assert Keeps(seed, sofar);
      if memSize + |data| < 16 {
        UpdateShort(data, seed, sofar);
      } else {
        UpdateStripes(data, seed, sofar);
      }
    }

    /** Too little for a stripe: keep it waiting. */
    method UpdateShort(data: seq<byte>, ghost seed: bv32, ghost sofar: seq<byte>)
      requires Keeps(seed, sofar) && memSize + |data| < 16
      modifies `memSize, mem
      ensures Keeps(seed, sofar + data)
    {
      hide Absorb, Rest;
      Store(data, |data|);
      memSize := memSize + |data|;
      AbsorbPart(Start(seed), sofar, data);
      assert data[..|data|] == data;
    }

    /** Complete the stripe in waiting, if there is one. */
    method FillStripe(data: seq<byte>, ghost seed: bv32, ghost sofar: seq<byte>) returns (p: nat)
      requires Keeps(seed, sofar) && memSize + |data| >= 16
      modifies `v1, `v2, `v3, `v4, `memSize, mem
      ensures p <= |data| && (|sofar| + p) % 16 == 0
      ensures Keeps(seed, sofar + data[..p]) && memSize == 0
    {
      hide Stripe, Absorb;
      p := 0;
      if memSize > 0 {
        p := 16 - memSize;
        Store(data, p);
        AbsorbFill(Start(seed), sofar, data[..p]);
        Rounds(mem[..], 0);
        assert mem[..][0..16] == mem[..16];
        memSize := 0;
        assert mem[..0] == [];
      } else {
        assert sofar + data[..0] == sofar;
      }
    }

    method UpdateStripes(data: seq<byte>, ghost seed: bv32, ghost sofar: seq<byte>)
      requires Keeps(seed, sofar) && memSize + |data| >= 16
      modifies `v1, `v2, `v3, `v4, `memSize, mem
      ensures Keeps(seed, sofar + data)
    {
      hide Stripe, Absorb, Rest;
      var p := FillStripe(data, seed, sofar);
      while p + 16 <= |data|
        invariant p <= |data| && (|sofar| + p) % 16 == 0 && memSize == 0 && mem.Length == 16
        invariant Lanes(v1, v2, v3, v4) == Absorb(Start(seed), sofar + data[..p])
        modifies `v1, `v2, `v3, `v4
      {
        Rounds(data, p);
        AbsorbNextAfter(Start(seed), sofar, data, p);
        p := p + 16;
      }
      KeepRest(data, p, seed, sofar);
    }

    /** What is left of `data` waits for the next stripe. */
    method KeepRest(data: seq<byte>, p: nat, ghost seed: bv32, ghost sofar: seq<byte>)
      requires |data| - 16 < p <= |data| && (|sofar| + p) % 16 == 0 && memSize == 0 && mem.Length == 16
      requires Lanes(v1, v2, v3, v4) == Absorb(Start(seed), sofar + data[..p])
      modifies `memSize, mem
      ensures Keeps(seed, sofar + data)
    {
      hide Absorb, Rest;
      AbsorbRest(Start(seed), sofar, data, p);
      assert mem[..0] == [];
      if p < |data| {
        Store(data[p..], |data| - p);
        memSize := |data| - p;
        assert data[p..][..|data| - p] == data[p..];
      }
    }

    method Digest(ghost seed: bv32, ghost input: seq<byte>) returns (h: bv32)
      requires Holds(seed, input)
      ensures h == Hash(input, seed)
    {
      hide Absorb, Avalanche, Tail, WithLength, Converge, Rest;
      if largeLen {
        h := Converge(Lanes(v1, v2, v3, v4));
      } else {
        h := Plus(v3, PRIME_5);
        AbsorbShort(Start(seed), input);
      }
      assert h == Gathered(input, seed);
      WithLengthWraps(h, |input|);
      h := DigestTail(h, seed, input);
    }

    method DigestTail(h0: bv32, ghost seed: bv32, ghost input: seq<byte>) returns (h: bv32)
      requires Holds(seed, input)
      ensures h == Avalanche(Tail(WithLength(h0, totalLen), Rest(input)))
    {
      hide Absorb, Avalanche, Tail, WithLength, Rest;
      h := WithLength(h0, totalLen);
      assert memSize % 16 == memSize && mem[..][..memSize] == mem[..memSize];
      h := Finalize(h, mem[..], memSize);
    }
  }

  // ---------------------------------------------------------------- any way of cutting

  function Joined(pieces: seq<seq<byte>>): seq<byte> {
    if pieces == [] then [] else Joined(pieces[..|pieces| - 1]) + pieces[|pieces| - 1]
  }

  /** Reset, one update for each piece, digest. */
  method Streamed(pieces: seq<seq<byte>>, seed: bv32) returns (h: bv32)
    ensures h == Hash(Joined(pieces), seed)
  {
    hide Hash;
    var state := new State();
    state.Reset(seed);
    assert pieces[..|pieces|] == pieces;
    for i := 0 to |pieces|
      invariant fresh(state) && fresh(state.mem)
      invariant state.Holds(seed, Joined(pieces[..i]))
    {
      assert pieces[..i + 1][..i] == pieces[..i];
      state.Update(pieces[i], seed, Joined(pieces[..i]));
    }
    h := state.Digest(seed, Joined(pieces));
  }
}
