/** Bits of unsigned words, and the bit stream the plane coder writes to and reads from. */
module ZfpBits {

  function Pow2(n: nat): (p: nat)
    ensures p >= 1
  {
    if n == 0 then 1 else 2 * Pow2(n - 1)
  }

  function Bit(b: bool): nat { if b then 1 else 0 }

  /** The word whose bit `i` is `bits[i]`. */
  function Word(bits: seq<bool>): (v: nat)
    ensures v < Pow2(|bits|)
  {
    if bits == [] then 0 else Bit(bits[0]) + 2 * Word(bits[1..])
  }

  /** `(v >> b) & 1`. */
  function BitOf(v: nat, b: nat): nat { (v / Pow2(b)) % 2 }

  lemma {:induction false} WordZero(bits: seq<bool>)
    ensures Word(bits) == 0 <==> forall i :: 0 <= i < |bits| ==> !bits[i]
  {
    if bits != [] {
      WordZero(bits[1..]);
      assert forall i :: 1 <= i < |bits| ==> bits[i] == bits[1..][i - 1];
    }
  }

  lemma {:induction false} WordSnoc(bits: seq<bool>, b: bool)
    ensures Word(bits + [b]) == Word(bits) + Bit(b) * Pow2(|bits|)
  {
    if bits != [] {
      WordSnoc(bits[1..], b);
      assert (bits + [b])[1..] == bits[1..] + [b];
      var p, q := Pow2(|bits|), Pow2(|bits| - 1);
      assert p == 2 * q;
      assert Bit(b) * p == 2 * (Bit(b) * q);
    } else {
      assert [b][1..] == [];
    }
  }

  /** Shifting right by `k` drops the `k` low bits; masking with them keeps those. */
  lemma {:induction false} WordSplit(bits: seq<bool>, k: nat)
    requires k <= |bits|
    ensures Word(bits) / Pow2(k) == Word(bits[k..]) && Word(bits) % Pow2(k) == Word(bits[..k])
    decreases k
  {
    if k == 0 {
      assert bits[0..] == bits;
    } else {
      WordSplit(bits[1..], k - 1);
      assert bits[1..][k - 1..] == bits[k..] && bits[1..][..k - 1] == bits[..k][1..];
      var w, p, b := Word(bits[1..]), Pow2(k - 1), Bit(bits[0]);
      HalveShift(w, p, b);
    }
  }

  lemma HalveShift(w: nat, p: nat, b: nat)
    requires p >= 1 && b <= 1
    ensures (b + 2 * w) / (2 * p) == w / p && (b + 2 * w) % (2 * p) == b + 2 * (w % p)
  {
    var q, r := w / p, w % p;
    assert w == q * p + r;
    assert b + 2 * w == q * (2 * p) + (b + 2 * r);
    DivModUnique(b + 2 * w, 2 * p, q, b + 2 * r);
  }

  lemma DivModUnique(v: nat, d: nat, q: nat, r: nat)
    requires d >= 1 && r < d && v == q * d + r
    ensures v / d == q && v % d == r
  {
    var q', r' := v / d, v % d;
    assert v == q' * d + r';
    if q' < q {
      MulAtLeast(q - q', d);
    } else if q' > q {
      MulAtLeast(q' - q, d);
    }
  }

  lemma MulAtLeast(a: nat, d: nat)
    requires a >= 1
    ensures a * d >= d
  {
    assert a * d == (a - 1) * d + d;
  }

  function LowBits(x: nat, n: nat): (bits: seq<bool>)
    ensures |bits| == n
  {
    if n == 0 then [] else [x % 2 == 1] + LowBits(x / 2, n - 1)
  }

  lemma {:induction false} LowBitsOfWord(bits: seq<bool>, k: nat)
    requires k <= |bits|
    ensures LowBits(Word(bits), k) == bits[..k]
    decreases k
  {
    if k > 0 {
      LowBitsOfWord(bits[1..], k - 1);
      assert bits[..k] == [bits[0]] + bits[1..][..k - 1];
    }
  }

  // ---------------------------------------------------------------- the bit stream

  /** A stream being written; the low bits of a word go first. */
  class BitWriter {
    var bits: seq<bool>

    constructor ()
      ensures bits == []
    {
      bits := [];
    }

    function BitSize(): nat
      reads this
    {
      |bits|
    }

    /** One bit; it is also the result. */
    method Write(b: bool) returns (r: bool)
      modifies this
      ensures r == b && bits == old(bits) + [b]
    {
      bits := bits + [b];
      r := b;
    }

    /** The `count` low bits of a word. */
    method WriteLong(x: nat, count: nat)
      modifies this
      ensures bits == old(bits) + LowBits(x, count)
    {
      var rest: nat := x;
      for i := 0 to count
        invariant bits + LowBits(rest, count - i) == old(bits) + LowBits(x, count)
      {
        ghost var before := bits;
        var b := rest % 2 == 1;
        bits := bits + [b];
        assert bits + LowBits(rest / 2, count - i - 1) == before + ([b] + LowBits(rest / 2, count - i - 1));
        rest := rest / 2;
      }
    }
  }

  /** A stream being read. */
  class BitReader {
    const stream: seq<bool>
    var pos: nat

    constructor (stream: seq<bool>)
      ensures this.stream == stream && pos == 0
    {
      this.stream := stream;
      pos := 0;
    }

    function BitSize(): nat
      reads this
    {
      pos
    }

    method Read() returns (b: bool)
      requires pos < |stream|
      modifies this
      ensures b == stream[old(pos)] && pos == old(pos) + 1
    {
      b := stream[pos];
      pos := pos + 1;
    }

    method ReadLong(count: nat) returns (x: nat)
      requires pos + count <= |stream|
      modifies this
      ensures x == Word(stream[old(pos)..old(pos) + count]) && pos == old(pos) + count
    {
      x := 0;
      var weight := 1;
      ghost var start := pos;
      for i := 0 to count
        invariant pos == start + i && weight == Pow2(i)
        invariant x == Word(stream[start..start + i])
      {
        WordSnoc(stream[start..start + i], stream[pos]);
        assert stream[start..start + i + 1] == stream[start..start + i] + [stream[pos]];
        if stream[pos] { x := x + weight; }
        weight := 2 * weight;
        pos := pos + 1;
      }
    }
  }
}
