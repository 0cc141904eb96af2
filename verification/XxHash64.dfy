/** XXH64: the one-shot hash, the streaming state that must agree with it however the input is cut,
    and the reference both are proved against.

    Words are 64-bit vectors, so every sum and product wraps as in the source. Only little-endian
    word reads are modelled; they do not depend on alignment. */
module XxHash64 {
  import opened Lz4Format

  const PRIME_1: bv64 := 11400714785074694791
  const PRIME_2: bv64 := 14029467366897019727
  const PRIME_3: bv64 := 1609587929392839161
  const PRIME_4: bv64 := 9650029242287828579
  const PRIME_5: bv64 := 2870177450012600261

  const TWO_64 := 0x1_0000_0000_0000_0000

  datatype Lanes = Lanes(v1: bv64, v2: bv64, v3: bv64, v4: bv64)

  /** A little-endian word of up to eight bytes. */
  function Word(b: seq<byte>): bv64 {
    if b == [] then 0 else b[0] as bv64 + (Word(b[1..]) << 8)
  }

  /** Multiplied by the first, second, third or fifth prime. */
  function Times1(h: bv64): bv64 { h * 11400714785074694791 }

  function Times2(h: bv64): bv64 { h * 14029467366897019727 }

  function Times3(h: bv64): bv64 { h * 1609587929392839161 }

  function Times5(h: bv64): bv64 { h * 2870177450012600261 }

  function Plus(h: bv64, w: bv64): bv64 { h + w }

  function Flip(h: bv64, w: bv64): bv64 { h ^ w }

  function Turn31(h: bv64): bv64 { h.RotateLeft(31) }

  /** Flipped by a word and turned. */
  function Turn27(h: bv64, w: bv64): bv64 { (h ^ w).RotateLeft(27) }

  function Turn23(h: bv64, w: bv64): bv64 { (h ^ w).RotateLeft(23) }

  function Turn11(h: bv64, w: bv64): bv64 { (h ^ w).RotateLeft(11) }

  /** Folded onto itself. */
  function Fold33(h: bv64): bv64 { h ^ (h >> 33) }

  function Fold29(h: bv64): bv64 { h ^ (h >> 29) }

  function Fold32(h: bv64): bv64 { h ^ (h >> 32) }

  function Round(acc: bv64, input: bv64): bv64 {
    Times1(Turn31(Plus(acc, Times2(input))))
  }

  function MergeRound(acc: bv64, val: bv64): bv64 {
    Plus(Times1(Flip(acc, Round(0, val))), PRIME_4)
  }

  function Avalanche(h: bv64): bv64 {
    Fold32(Times3(Fold29(Times2(Fold33(h)))))
  }

  function MixLong(h: bv64, w: bv64): bv64 {
    Plus(Times1(Turn27(h, Round(0, w))), PRIME_4)
  }

  function MixWord(h: bv64, w: bv64): bv64 {
    Plus(Times2(Turn23(h, Times1(w))), PRIME_3)
  }

  function MixByte(h: bv64, b: byte): bv64 {
    Times1(Turn11(h, Times5(b as bv64)))
  }

  function Start(seed: bv64): Lanes {
    Lanes(seed + PRIME_1 + PRIME_2, seed + PRIME_2, seed, seed - PRIME_1)
  }

  function Converge(a: Lanes): bv64 {
    var h := a.v1.RotateLeft(1) + a.v2.RotateLeft(7) + a.v3.RotateLeft(12) + a.v4.RotateLeft(18);
    MergeRound(MergeRound(MergeRound(MergeRound(h, a.v1), a.v2), a.v3), a.v4)
  }

  // ---------------------------------------------------------------- the hash of reference

  /** One stripe of thirty-two bytes: a long word for each lane. */
  function Stripe(a: Lanes, s: seq<byte>): Lanes
    requires |s| == 32
  {
    Lanes(Round(a.v1, Word(s[..8])), Round(a.v2, Word(s[8..16])),
          Round(a.v3, Word(s[16..24])), Round(a.v4, Word(s[24..])))
  }

  /** The lanes after every complete stripe of `s`. */
  function Absorb(a: Lanes, s: seq<byte>): Lanes
    decreases |s|
  {
    if |s| < 32 then a else Absorb(Stripe(a, s[..32]), s[32..])
  }

  /** The bytes after the last complete stripe. */
  function Rest(s: seq<byte>): (r: seq<byte>)
    ensures |r| == |s| % 32
  {
    s[|s| - |s| % 32..]
  }

  /** Long words first, then at most one word, then single bytes. */
  function Tail(h: bv64, s: seq<byte>): bv64
    decreases |s|
  {
    if |s| >= 8 then Tail(MixLong(h, Word(s[..8])), s[8..])
    else if |s| >= 4 then Tail(MixWord(h, Word(s[..4])), s[4..])
    else if |s| > 0 then Tail(MixByte(h, s[0]), s[1..])
    else h
  }

  /** The lanes brought together; an input without a complete stripe never reached them. */
  function Gathered(s: seq<byte>, seed: bv64): bv64 {
    if |s| >= 32 then Converge(Absorb(Start(seed), s)) else Plus(seed, PRIME_5)
  }

  function Low(n: nat): (r: nat)
    ensures r < TWO_64
  {
    n % TWO_64
  }

  /** The length joins the hash as a 64-bit word. */
  function WithLength(h: bv64, n: nat): bv64 {
    AddWord(h, Low(n))
  }

  function AddWord(h: bv64, n: nat): bv64
    requires n < TWO_64
  {
    Plus(h, Wide(n))
  }

  function Wide(n: nat): bv64
    requires n < TWO_64
  {
    n as bv64
  }

  function Hash(s: seq<byte>, seed: bv64): bv64 {
    Avalanche(Tail(WithLength(Gathered(s, seed), |s|), Rest(s)))
  }

  // ---------------------------------------------------------------- no step after the lanes loses anything

  /** Multiplied by the inverse of the prime modulo 2^64. */
  function Over1(h: bv64): bv64 { h * 614540362697595703 }

  function Over2(h: bv64): bv64 { h * 839798700976720815 }

  function Over3(h: bv64): bv64 { h * 16855272203555305545 }

  lemma Undo1(h: bv64)
    ensures Over1(Times1(h)) == h
  {
    hide Over1;
    Inverse1(h);
  }

  lemma Undo2(h: bv64)
    ensures Over2(Times2(h)) == h
  {
    hide Over2;
    Inverse2(h);
  }

  lemma Undo3(h: bv64)
    ensures Over3(Times3(h)) == h
  {
    hide Over3;
    Inverse3(h);
  }

  lemma Inverse1(h: bv64)
    ensures Over1(h * 11400714785074694791) == h
  {
  }

  lemma Inverse2(h: bv64)
    ensures Over2(h * 14029467366897019727) == h
  {
  }

  lemma Inverse3(h: bv64)
    ensures Over3(h * 1609587929392839161) == h
  {
  }

  function Minus(h: bv64, w: bv64): bv64 { h - w }

  lemma SumUndone(h: bv64, w: bv64)
    ensures Minus(h + w, w) == h
  {
  }

  lemma PlusUndone(h: bv64, w: bv64)
    ensures Minus(Plus(h, w), w) == h
  {
    hide Minus;
    SumUndone(h, w);
  }

  /** Turned back and flipped again. */
  function Back27(h: bv64, w: bv64): bv64 { h.RotateRight(27) ^ w }

  function Back23(h: bv64, w: bv64): bv64 { h.RotateRight(23) ^ w }

  function Back11(h: bv64, w: bv64): bv64 { h.RotateRight(11) ^ w }

  lemma Turn27Undone(h: bv64, w: bv64)
    ensures Back27(Turn27(h, w), w) == h
  {
  }

  lemma Turn23Undone(h: bv64, w: bv64)
    ensures Back23(Turn23(h, w), w) == h
  {
  }

  lemma Turn11Undone(h: bv64, w: bv64)
    ensures Back11(Turn11(h, w), w) == h
  {
  }

  function Unfold33(h: bv64): bv64 { h ^ (h >> 33) }

  function Unfold29(h: bv64): bv64 { h ^ (h >> 29) ^ (h >> 58) }

  function Unfold32(h: bv64): bv64 { h ^ (h >> 32) }

  lemma Fold33Undone(h: bv64)
    ensures Unfold33(Fold33(h)) == h
  {
    hide Unfold33;
    Folded33(h);
  }

  lemma Folded33(h: bv64)
    ensures Unfold33(h ^ (h >> 33)) == h
  {
  }

  lemma Fold29Undone(h: bv64)
    ensures Unfold29(Fold29(h)) == h
  {
    hide Unfold29;
    Folded29(h);
  }

  lemma Folded29(h: bv64)
    ensures Unfold29(h ^ (h >> 29)) == h
  {
  }

  lemma Fold32Undone(h: bv64)
    ensures Unfold32(Fold32(h)) == h
  {
    hide Unfold32;
    Folded32(h);
  }

  lemma Folded32(h: bv64)
    ensures Unfold32(h ^ (h >> 32)) == h
  {
  }

  function Back31(h: bv64): bv64 { h.RotateRight(31) }

  lemma Turn31Undone(h: bv64)
    ensures Back31(Turn31(h)) == h
  {
  }

  lemma FlipUndone(h: bv64, w: bv64)
    ensures Flip(Flip(h, w), w) == h
  {
  }

  /** A round is undone by its word. */
  lemma RoundUndone(acc: bv64, input: bv64)
    ensures Minus(Back31(Over1(Round(acc, input))), Times2(input)) == acc
  {
    hide Times1, Times2, Over1, Plus, Minus, Turn31, Back31;
    var sum := Plus(acc, Times2(input));
    Undo1(Turn31(sum));
    Turn31Undone(sum);
    PlusUndone(acc, Times2(input));
  }

  lemma MergeRoundUndone(acc: bv64, val: bv64)
    ensures Flip(Over1(Minus(MergeRound(acc, val), PRIME_4)), Round(0, val)) == acc
  {
    hide Times1, Over1, Plus, Minus, Flip, Round;
    var a := Flip(acc, Round(0, val));
    PlusUndone(Times1(a), PRIME_4);
    Undo1(a);
    FlipUndone(acc, Round(0, val));
  }

  /** A stripe tells any two states of the lanes apart. */
  lemma StripeTells(a: Lanes, b: Lanes, s: seq<byte>)
    requires |s| == 32
    ensures Stripe(a, s) == Stripe(b, s) <==> a == b
  {
    hide Round, Minus, Back31, Over1, Times2, Word;
    RoundUndone(a.v1, Word(s[..8]));
    RoundUndone(b.v1, Word(s[..8]));
    RoundUndone(a.v2, Word(s[8..16]));
    RoundUndone(b.v2, Word(s[8..16]));
    RoundUndone(a.v3, Word(s[16..24]));
    RoundUndone(b.v3, Word(s[16..24]));
    RoundUndone(a.v4, Word(s[24..]));
    RoundUndone(b.v4, Word(s[24..]));
  }

  function UnmixLong(h: bv64, w: bv64): bv64 {
    Back27(Over1(Minus(h, PRIME_4)), Round(0, w))
  }

  function UnmixWord(h: bv64, w: bv64): bv64 {
    Back23(Over2(Minus(h, PRIME_3)), Times1(w))
  }

  function UnmixByte(h: bv64, b: byte): bv64 {
    Back11(Over1(h), Times5(b as bv64))
  }

  function Calm(h: bv64): bv64 {
    Unfold33(Over2(Unfold29(Over3(Unfold32(h)))))
  }

  lemma MixLongUndone(h: bv64, w: bv64)
    ensures UnmixLong(MixLong(h, w), w) == h
  {
    hide Plus, Minus, Times1, Over1, Turn27, Back27, Round;
    var a := Turn27(h, Round(0, w));
    PlusUndone(Times1(a), PRIME_4);
    Undo1(a);
    Turn27Undone(h, Round(0, w));
  }

  lemma MixWordUndone(h: bv64, w: bv64)
    ensures UnmixWord(MixWord(h, w), w) == h
  {
    hide Plus, Minus, Times1, Times2, Over2, Turn23, Back23;
    var a := Turn23(h, Times1(w));
    PlusUndone(Times2(a), PRIME_3);
    Undo2(a);
    Turn23Undone(h, Times1(w));
  }

  lemma MixByteUndone(h: bv64, b: byte)
    ensures UnmixByte(MixByte(h, b), b) == h
  {
    hide Times1, Times5, Over1, Turn11, Back11;
    Undo1(Turn11(h, Times5(b as bv64)));
    Turn11Undone(h, Times5(b as bv64));
  }

  lemma AvalancheUndone(h: bv64)
    ensures Calm(Avalanche(h)) == h
  {
    hide Times2, Times3, Over2, Over3, Fold33, Fold29, Fold32, Unfold33, Unfold29, Unfold32;
    var a := Times2(Fold33(h));
    Fold32Undone(Times3(Fold29(a)));
    Undo3(Fold29(a));
    Fold29Undone(a);
    Undo2(Fold33(h));
    Fold33Undone(h);
  }

  /** The bytes after the stripes tell any two hashes apart that were different before. */
  lemma {:induction false} TailTells(x: bv64, y: bv64, s: seq<byte>)
    ensures Tail(x, s) == Tail(y, s) <==> x == y
    decreases |s|
  {
    hide MixLong, MixWord, MixByte, UnmixLong, UnmixWord, UnmixByte, Word;
    if |s| >= 8 {
      var w := Word(s[..8]);
      MixLongUndone(x, w);
      MixLongUndone(y, w);
      TailTells(MixLong(x, w), MixLong(y, w), s[8..]);
    } else if |s| >= 4 {
      var w := Word(s[..4]);
      MixWordUndone(x, w);
      MixWordUndone(y, w);
      TailTells(MixWord(x, w), MixWord(y, w), s[4..]);
    } else if |s| > 0 {
      MixByteUndone(x, s[0]);
      MixByteUndone(y, s[0]);
      TailTells(MixByte(x, s[0]), MixByte(y, s[0]), s[1..]);
    }
  }

  /** All that comes after the lanes, from the value they gave. */
  function Concluded(h: bv64, s: seq<byte>): bv64 {
    Avalanche(Tail(WithLength(h, |s|), Rest(s)))
  }

  /** The value a digest starts from is the right one unless the total has wrapped to less than a stripe. */
  lemma DigestTells(a: Lanes, h: bv64, seed: bv64, s: seq<byte>)
    requires a == Absorb(Start(seed), s) && h == if Low(|s|) >= 32 then Converge(a) else Plus(a.v3, PRIME_5)
    ensures |s| < 32 || Low(|s|) >= 32 ==> Concluded(h, s) == Hash(s, seed)
    ensures |s| >= 32 ==> (Concluded(h, s) == Hash(s, seed) <==> h == Converge(a))
  {
    hide Absorb, Converge, Start, Hash, Concluded, Plus;
    HashConcludes(s, seed);
    ConcludedTells(Converge(a), h, s);
    TotalSmall(|s|);
    if |s| < 32 { ThirdLane(seed, s); }
  }

  lemma HashConcludes(s: seq<byte>, seed: bv64)
    ensures Hash(s, seed) == Concluded(Gathered(s, seed), s)
  {
    hide Avalanche, Tail, WithLength, Gathered, Rest;
  }

  /** Two values the lanes could give lead to the same hash only if they are the same. */
  lemma ConcludedTells(x: bv64, y: bv64, s: seq<byte>)
    ensures Concluded(x, s) == Concluded(y, s) <==> x == y
  {
    hide Avalanche, Calm, Tail, Low, Rest, AddWord, Minus;
    if Concluded(x, s) == Concluded(y, s) {
      AvalancheUndone(Tail(WithLength(x, |s|), Rest(s)));
      AvalancheUndone(Tail(WithLength(y, |s|), Rest(s)));
      TailTells(WithLength(x, |s|), WithLength(y, |s|), Rest(s));
      AddWordUndone(x, Low(|s|));
      AddWordUndone(y, Low(|s|));
    }
  }

  lemma AddWordUndone(h: bv64, n: nat)
    requires n < TWO_64
    ensures Minus(AddWord(h, n), Wide(n)) == h
  {
    hide Plus, Minus, Wide;
    PlusUndone(h, Wide(n));
  }

  // ---------------------------------------------------------------- cutting the input

  lemma {:induction false} AbsorbJoin(a: Lanes, s: seq<byte>, t: seq<byte>)
    requires |s| % 32 == 0
    ensures Absorb(a, s + t) == Absorb(Absorb(a, s), t)
    decreases |s|
  {
    hide Stripe;
    if |s| == 0 {
      assert s + t == t;
    } else {
      assert (s + t)[..32] == s[..32] && (s + t)[32..] == s[32..] + t;
      AbsorbJoin(Stripe(a, s[..32]), s[32..], t);
    }
  }

  /** Bytes that do not complete a stripe leave the lanes alone. */
  lemma AbsorbPart(a: Lanes, s: seq<byte>, t: seq<byte>)
    requires |s| % 32 + |t| < 32
    ensures Absorb(a, s + t) == Absorb(a, s)
    ensures Rest(s + t) == Rest(s) + t
  {
    hide Stripe, Absorb;
    var full := s[..|s| - |s| % 32];
    RestOf(s, t);
    AbsorbJoin(a, full, Rest(s));
    AbsorbJoin(a, full, Rest(s) + t);
    AbsorbShort(Absorb(a, full), Rest(s));
    AbsorbShort(Absorb(a, full), Rest(s) + t);
  }

  lemma RestOf(s: seq<byte>, t: seq<byte>)
    requires |s| % 32 + |t| < 32
    ensures var full := s[..|s| - |s| % 32];
            |full| % 32 == 0 && s == full + Rest(s) && s + t == full + (Rest(s) + t) && Rest(s + t) == Rest(s) + t
  {
    assert |s + t| % 32 == |s| % 32 + |t|;
  }

  /** Bytes that complete the stripe in waiting are absorbed with it. */
  lemma AbsorbFill(a: Lanes, s: seq<byte>, t: seq<byte>)
    requires |s| % 32 + |t| == 32
    ensures Absorb(a, s + t) == Stripe(Absorb(a, s), Rest(s) + t)
    ensures |s + t| % 32 == 0
  {
    hide Stripe;
    var full := s[..|s| - |s| % 32];
    assert s == full + Rest(s) && s + t == full + (Rest(s) + t);
    AbsorbJoin(a, full, Rest(s));
    AbsorbJoin(a, full, Rest(s) + t);
    var stripe := Rest(s) + t;
    assert stripe[..32] == stripe && stripe[32..] == [];
  }

  // ---------------------------------------------------------------- the switch that ends a hash

  /** The bytes of `s` from `p` to `end` worked into `h`. */
  function Ending(h: bv64, s: seq<byte>, p: nat, end: nat): bv64
    requires p <= end <= |s|
  {
    Tail(h, s[p..end])
  }

  lemma EndingDone(h0: bv64, h: bv64, s: seq<byte>, n: nat)
    requires n <= |s| && Ending(h, s, n, n) == Ending(h0, s, 0, n)
    ensures h == Tail(h0, s[..n])
  {
    assert s[n..n] == [] && s[0..n] == s[..n];
  }

  method ProcessLong(h: bv64, s: seq<byte>, p: nat, end: nat) returns (h': bv64, p': nat)
    requires p + 8 <= end <= |s|
    ensures p' == p + 8 && Ending(h', s, p', end) == Ending(h, s, p, end)
  {
    hide MixLong, MixWord, MixByte, Word;
    assert s[p..end][..8] == s[p..p + 8] && s[p..end][8..] == s[p + 8..end];
    h', p' := MixLong(h, Word(s[p..p + 8])), p + 8;
  }

  method ProcessWord(h: bv64, s: seq<byte>, p: nat, end: nat) returns (h': bv64, p': nat)
    requires p + 4 <= end <= |s| && end - p < 8
    ensures p' == p + 4 && Ending(h', s, p', end) == Ending(h, s, p, end)
  {
    hide MixLong, MixWord, MixByte, Word;
    assert s[p..end][..4] == s[p..p + 4] && s[p..end][4..] == s[p + 4..end];
    h', p' := MixWord(h, Word(s[p..p + 4])), p + 4;
  }

  method ProcessByte(h: bv64, s: seq<byte>, p: nat, end: nat) returns (h': bv64, p': nat)
    requires p < end <= |s| && end - p < 4
    ensures p' == p + 1 && Ending(h', s, p', end) == Ending(h, s, p, end)
  {
    hide MixLong, MixWord, MixByte, Word;
    assert s[p..end][1..] == s[p + 1..end];
    h', p' := MixByte(h, s[p]), p + 1;
  }

  /** The long words of a fall-through chain. */
  method ProcessLongs(h0: bv64, s: seq<byte>, n: nat) returns (h: bv64, p: nat)
    requires n < 32 && n <= |s|
    ensures p <= n && n - p == n % 8
    ensures Ending(h, s, p, n) == Ending(h0, s, 0, n)
  {
    hide Ending;
    h, p := h0, 0;
    if n >= 24 { h, p := ProcessLong(h, s, p, n); }
    if n >= 16 { h, p := ProcessLong(h, s, p, n); }
    if n >= 8 { h, p := ProcessLong(h, s, p, n); }
  }

  /** The fall-through switch: each residue of the length enters its chain of steps in the middle. */
  method Finalize(h0: bv64, s: seq<byte>, len: nat) returns (r: bv64)
    requires len % 32 <= |s|
    ensures r == Avalanche(Tail(h0, s[..len % 32]))
  {
    hide Ending, Tail, Avalanche;
    var n: nat := len % 32;
    var h, p := ProcessLongs(h0, s, n);
    if n == 24 || n == 16 || n == 8 {
    } else if n == 28 || n == 20 || n == 12 || n == 4 {
      h, p := ProcessWord(h, s, p, n);
    } else if n == 25 || n == 17 || n == 9 {
      h, p := ProcessByte(h, s, p, n);
    } else if n == 29 || n == 21 || n == 13 || n == 5 {
      h, p := ProcessWord(h, s, p, n);
      h, p := ProcessByte(h, s, p, n);
    } else if n == 26 || n == 18 || n == 10 {
      h, p := ProcessByte(h, s, p, n);
      h, p := ProcessByte(h, s, p, n);
    } else if n == 30 || n == 22 || n == 14 || n == 6 {
      h, p := ProcessWord(h, s, p, n);
      h, p := ProcessByte(h, s, p, n);
      h, p := ProcessByte(h, s, p, n);
    } else if n == 27 || n == 19 || n == 11 {
      h, p := ProcessByte(h, s, p, n);
      h, p := ProcessByte(h, s, p, n);
      h, p := ProcessByte(h, s, p, n);
    } else {
      if n >= 7 { h, p := ProcessWord(h, s, p, n); }
      if n >= 3 { h, p := ProcessByte(h, s, p, n); }
      if n >= 2 { h, p := ProcessByte(h, s, p, n); }
      if n >= 1 { h, p := ProcessByte(h, s, p, n); }
    }
    EndingDone(h0, h, s, n);
    r := Avalanche(h);
  }

  // ---------------------------------------------------------------- one shot

  /** The long word at `p`. */
  function ReadLong(s: seq<byte>, p: nat): bv64
    requires p + 8 <= |s|
  {
    Word(s[p..p + 8])
  }

  lemma SliceOfSlice(s: seq<byte>, from: nat, to: nat, i: nat, j: nat)
    requires from <= to <= |s| && i <= j <= to - from
    ensures s[from..to][i..j] == s[from + i..from + j]
  {
    assert forall k | 0 <= k < j - i :: s[from..to][i..j][k] == s[from + i..from + j][k];
  }

  lemma StripeAt(a: Lanes, s: seq<byte>, p: nat)
    requires p + 32 <= |s|
    ensures Stripe(a, s[p..p + 32])
         == Lanes(Round(a.v1, ReadLong(s, p)), Round(a.v2, ReadLong(s, p + 8)),
                  Round(a.v3, ReadLong(s, p + 16)), Round(a.v4, ReadLong(s, p + 24)))
  {
    hide Round, Word;
    SliceOfSlice(s, p, p + 32, 0, 8);
    SliceOfSlice(s, p, p + 32, 8, 16);
    SliceOfSlice(s, p, p + 32, 16, 24);
    SliceOfSlice(s, p, p + 32, 24, 32);
  }

  lemma AbsorbNext(a: Lanes, s: seq<byte>, p: nat)
    requires p + 32 <= |s| && p % 32 == 0
    ensures Absorb(a, s[..p + 32]) == Stripe(Absorb(a, s[..p]), s[p..p + 32])
  {
    hide Stripe;
    assert s[..p + 32] == s[..p] + s[p..p + 32];
    AbsorbFill(a, s[..p], s[p..p + 32]);
    assert Rest(s[..p]) == [] && Rest(s[..p]) + s[p..p + 32] == s[p..p + 32];
  }

  /** The lane loop of the one-shot hash, which stops at the last complete stripe. */
  method AbsorbAll(input: seq<byte>, seed: bv64) returns (h: bv64, p: nat)
    requires |input| >= 32
    ensures p <= |input| && input[p..] == Rest(input)
    ensures h == Gathered(input, seed)
  {
    hide Round, Word, Stripe, Absorb, Converge, Rest;
    var limit := |input| - 32;
    var v1, v2, v3, v4 := seed + PRIME_1 + PRIME_2, seed + PRIME_2, seed + 0, seed - PRIME_1;
    p := 0;
    assert input[..0] == [];
    AbsorbNone(Start(seed));
    var first := true;
    while first || p <= limit
      invariant p % 32 == 0 && p <= |input| && (first ==> p == 0)
      invariant Lanes(v1, v2, v3, v4) == Absorb(Start(seed), input[..p])
      decreases |input| - p
    {
      AbsorbNext(Start(seed), input, p);
      StripeAt(Lanes(v1, v2, v3, v4), input, p);
      v1 := Round(v1, ReadLong(input, p)); p := p + 8;
      v2 := Round(v2, ReadLong(input, p)); p := p + 8;
      v3 := Round(v3, ReadLong(input, p)); p := p + 8;
      v4 := Round(v4, ReadLong(input, p)); p := p + 8;
      first := false;
    }
    h := Converge(Lanes(v1, v2, v3, v4));
    AbsorbUpTo(Start(seed), input, p);
  }

  method FinalizeRest(h: bv64, input: seq<byte>, p: nat) returns (r: bv64)
    requires p <= |input| && input[p..] == Rest(input)
    ensures r == Avalanche(Tail(h, Rest(input)))
  {
    hide Avalanche, Tail, Rest;
    assert |input[p..]| == |input| % 32;
    assert input[p..][..|input| % 32] == input[p..];
    r := Finalize(h, input[p..], |input| % 32);
  }

  method Xxh64(input: seq<byte>, seed: bv64) returns (r: bv64)
    ensures r == Hash(input, seed)
  {
    hide Avalanche, Tail, Gathered, WithLength;
    var p: nat := 0;
    var h: bv64;
    if |input| >= 32 {
      h, p := AbsorbAll(input, seed);
    } else {
      h := Plus(seed, PRIME_5);
      GatheredShort(input, seed);
    }
    h := WithLength(h, |input|);
    r := FinalizeRest(h, input, p);
  }

  lemma AbsorbUpTo(a: Lanes, s: seq<byte>, p: nat)
    requires |s| - 32 < p <= |s| && p % 32 == 0
    ensures Absorb(a, s) == Absorb(a, s[..p]) && s[p..] == Rest(s)
  {
    hide Absorb;
    assert s == s[..p] + s[p..];
    AbsorbPart(a, s[..p], s[p..]);
    assert Rest(s[..p]) == [];
  }

  lemma GatheredShort(s: seq<byte>, seed: bv64)
    requires |s| < 32
    ensures Gathered(s, seed) == seed + PRIME_5
  {
  }

  lemma AbsorbNextAfter(a: Lanes, s: seq<byte>, t: seq<byte>, p: nat)
    requires p + 32 <= |t| && (|s| + p) % 32 == 0
    ensures Absorb(a, s + t[..p + 32]) == Stripe(Absorb(a, s + t[..p]), t[p..p + 32])
  {
    hide Stripe;
    var u := s + t[..p];
    assert s + t[..p + 32] == u + t[p..p + 32];
    AbsorbFill(a, u, t[p..p + 32]);
    assert Rest(u) + t[p..p + 32] == t[p..p + 32];
  }

  /** The bytes left over once fewer than thirty-two remain. */
  lemma AbsorbRest(a: Lanes, s: seq<byte>, t: seq<byte>, p: nat)
    requires |t| - 32 < p <= |t| && (|s| + p) % 32 == 0
    ensures Absorb(a, s + t) == Absorb(a, s + t[..p])
    ensures Rest(s + t) == t[p..] && |s + t| % 32 == |t| - p
  {
    hide Stripe, Absorb;
    assert s + t == (s + t[..p]) + t[p..];
    AbsorbPart(a, s + t[..p], t[p..]);
    assert Rest(s + t[..p]) + t[p..] == t[p..];
  }

  lemma AbsorbShort(a: Lanes, s: seq<byte>)
    requires |s| < 32
    ensures Absorb(a, s) == a
  {
  }

  lemma ThirdLane(seed: bv64, s: seq<byte>)
    requires |s| < 32
    ensures Absorb(Start(seed), s).v3 == seed
  {
    AbsorbShort(Start(seed), s);
  }

  lemma AbsorbNone(a: Lanes)
    ensures Absorb(a, []) == a
  {
  }

  // ---------------------------------------------------------------- streaming

  lemma TotalGrows(n: nat, k: nat)
    ensures Low(Low(n) + k) == Low(n + k)
  {
  }

  lemma TotalSmall(n: nat)
    ensures n < 32 ==> Low(n) == n
  {
  }

  lemma LowIs(n: nat)
    requires n < TWO_64
    ensures Low(n) == n
  {
  }

  lemma TotalResidue(n: nat)
    ensures Low(n) % 32 == n % 32
  {
  }

  lemma WithLengthWraps(h: bv64, n: nat)
    ensures WithLength(h, Low(n)) == WithLength(h, n)
  {
    hide Low, AddWord;
    LowTwice(n);
  }

  lemma LowTwice(n: nat)
    ensures Low(Low(n)) == Low(n)
  {
  }

  class State {
    var totalLen: nat
    var v1: bv64
    var v2: bv64
    var v3: bv64
    var v4: bv64
    const mem: array<byte>
    var memSize: nat

    constructor ()
      ensures fresh(this) && fresh(mem) && mem.Length == 32
    {
      mem := new byte[32];
    }

    /** The state is what absorbing `input` under `seed` leaves behind. */
    ghost predicate Holds(seed: bv64, input: seq<byte>)
      reads this, mem
    {
      && mem.Length == 32
      && memSize == |input| % 32 && mem[..memSize] == Rest(input)
      && Lanes(v1, v2, v3, v4) == Absorb(Start(seed), input)
      && totalLen == Low(|input|)
    }

    method Reset(seed: bv64)
      requires mem.Length == 32
      modifies this
      ensures Holds(seed, [])
    {
      totalLen, memSize := 0, 0;
      v1, v2, v3, v4 := seed + PRIME_1 + PRIME_2, seed + PRIME_2, seed + 0, seed - PRIME_1;
      assert mem[..0] == [];
    }

    /** The four rounds on one stripe. */
    method Rounds(s: seq<byte>, p: nat)
      requires p + 32 <= |s|
      modifies `v1, `v2, `v3, `v4
      ensures Lanes(v1, v2, v3, v4) == Stripe(old(Lanes(v1, v2, v3, v4)), s[p..p + 32])
    {
      hide Round, Word, Stripe;
      StripeAt(Lanes(v1, v2, v3, v4), s, p);
      v1 := Round(v1, ReadLong(s, p));
      v2 := Round(v2, ReadLong(s, p + 8));
      v3 := Round(v3, ReadLong(s, p + 16));
      v4 := Round(v4, ReadLong(s, p + 24));
    }

    /** Copy `data[..n]` behind the bytes already waiting. */
    method Store(data: seq<byte>, n: nat)
      requires n <= |data| && memSize + n <= mem.Length
      modifies mem
      ensures mem[..memSize + n] == old(mem[..memSize]) + data[..n]
    {
      forall i | 0 <= i < n { mem[memSize + i] := data[i]; }
    }

    /** The lanes and the waiting bytes alone. */
    ghost predicate Keeps(seed: bv64, input: seq<byte>)
      reads this, mem
    {
      && mem.Length == 32
      && memSize == |input| % 32 && mem[..memSize] == Rest(input)
      && Lanes(v1, v2, v3, v4) == Absorb(Start(seed), input)
    }

    /** Feed `data`: the state depends on the bytes fed so far, not on how they were cut. */
    method Update(data: seq<byte>, ghost seed: bv64, ghost sofar: seq<byte>)
      requires Holds(seed, sofar)
      modifies this, mem
      ensures Holds(seed, sofar + data)
    {
      hide Absorb, Rest, Low;
      TotalGrows(|sofar|, |data|);
      totalLen := Low(totalLen + |data|);
      assert Keeps(seed, sofar);
      if memSize + |data| < 32 {
        UpdateShort(data, seed, sofar);
      } else {
        UpdateStripes(data, seed, sofar);
      }
    }

    /** Too little for a stripe: keep it waiting. */
    method UpdateShort(data: seq<byte>, ghost seed: bv64, ghost sofar: seq<byte>)
      requires Keeps(seed, sofar) && memSize + |data| < 32
      modifies `memSize, mem
      ensures Keeps(seed, sofar + data)
    {
      hide Absorb, Rest;
      Store(data, |data|);
      memSize := memSize + |data|;
      AbsorbPart(Start(seed), sofar, data);
      assert data[..|data|] == data;
    }

    /** Complete the stripe in waiting, if there is one. */
    method FillStripe(data: seq<byte>, ghost seed: bv64, ghost sofar: seq<byte>) returns (p: nat)
      requires Keeps(seed, sofar) && memSize + |data| >= 32
      modifies `v1, `v2, `v3, `v4, `memSize, mem
      ensures p <= |data| && (|sofar| + p) % 32 == 0
      ensures Keeps(seed, sofar + data[..p]) && memSize == 0
    {
      hide Stripe, Absorb;
      p := 0;
      if memSize > 0 {
        p := 32 - memSize;
        Store(data, p);
        AbsorbFill(Start(seed), sofar, data[..p]);
        Rounds(mem[..], 0);
        assert mem[..][0..32] == mem[..32];
        memSize := 0;
        assert mem[..0] == [];
      } else {
        assert sofar + data[..0] == sofar;
      }
    }

    method UpdateStripes(data: seq<byte>, ghost seed: bv64, ghost sofar: seq<byte>)
      requires Keeps(seed, sofar) && memSize + |data| >= 32
      modifies `v1, `v2, `v3, `v4, `memSize, mem
      ensures Keeps(seed, sofar + data)
    {
      hide Stripe, Absorb, Rest;
      var p := FillStripe(data, seed, sofar);
      while p + 32 <= |data|
        invariant p <= |data| && (|sofar| + p) % 32 == 0 && memSize == 0 && mem.Length == 32
        invariant Lanes(v1, v2, v3, v4) == Absorb(Start(seed), sofar + data[..p])
        modifies `v1, `v2, `v3, `v4
      {
        Rounds(data, p);
        AbsorbNextAfter(Start(seed), sofar, data, p);
        p := p + 32;
      }
      KeepRest(data, p, seed, sofar);
    }

    /** What is left of `data` waits for the next stripe. */
    method KeepRest(data: seq<byte>, p: nat, ghost seed: bv64, ghost sofar: seq<byte>)
      requires |data| - 32 < p <= |data| && (|sofar| + p) % 32 == 0 && memSize == 0 && mem.Length == 32
      requires Lanes(v1, v2, v3, v4) == Absorb(Start(seed), sofar + data[..p])
      modifies `memSize, mem
      ensures Keeps(seed, sofar + data)
    {
      hide Absorb, Rest;
      AbsorbRest(Start(seed), sofar, data, p);
      assert mem[..0] == [];
      if p < |data| {
        Store(data[p..], |data| - p);
        memSize := |data| - p;
        assert data[p..][..|data| - p] == data[p..];
      }
    }

    /** The total is a 64-bit count: once it has wrapped to less than a stripe, the lanes are forgotten. */
    method Digest(ghost seed: bv64, ghost input: seq<byte>) returns (h: bv64)
      requires Holds(seed, input)
      ensures |input| < 32 || Low(|input|) >= 32 ==> h == Hash(input, seed)
      ensures |input| >= 32 > Low(|input|) ==>
                var a := Absorb(Start(seed), input);
                && h == Concluded(Plus(a.v3, PRIME_5), input)
                && (h == Hash(input, seed) <==> Converge(a) == Plus(a.v3, PRIME_5))
    {
      hide Absorb, Converge, Start, Hash, Gathered, Concluded, Low, Plus;
      h := if totalLen >= 32 then Converge(Lanes(v1, v2, v3, v4)) else Plus(v3, PRIME_5);
      ghost var a := Absorb(Start(seed), input);
      DigestTells(a, h, seed, input);
      h := DigestTail(h, seed, input);
    }

    method DigestTail(h0: bv64, ghost seed: bv64, ghost input: seq<byte>) returns (h: bv64)
      requires Holds(seed, input)
      ensures h == Concluded(h0, input)
    {
      hide Absorb, Avalanche, Tail, WithLength, Rest;
      WithLengthWraps(h0, |input|);
      h := WithLength(h0, totalLen);
      TotalResidue(|input|);
      assert mem[..][..memSize] == mem[..memSize];
      h := Finalize(h, mem[..], totalLen);
    }
  }

  // ---------------------------------------------------------------- any way of cutting

  function Joined(pieces: seq<seq<byte>>): seq<byte> {
    if pieces == [] then [] else Joined(pieces[..|pieces| - 1]) + pieces[|pieces| - 1]
  }

  /** Reset, one update for each piece, digest. */
  method Streamed(pieces: seq<seq<byte>>, seed: bv64) returns (h: bv64)
    ensures |Joined(pieces)| < TWO_64 ==> h == Hash(Joined(pieces), seed)
  {
    hide Hash, Concluded, Low, Absorb, Rest;
    var state := new State();
    state.Reset(seed);
    assert pieces[..|pieces|] == pieces;
    for i := 0 to |pieces|
      invariant fresh(state) && fresh(state.mem)
      invariant state.Holds(seed, Joined(pieces[..i]))
    {
      assert pieces[..i + 1][..i] == pieces[..i];
      state.Update(pieces[i], seed, Joined(pieces[..i]));
    }
    if |Joined(pieces)| < TWO_64 { LowIs(|Joined(pieces)|); }
    h := state.Digest(seed, Joined(pieces));
  }
}
