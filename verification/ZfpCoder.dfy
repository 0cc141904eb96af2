/** The resumable plane coder, on words and streams.

    `Encode` and `Decode` follow the loops of the source, with the jump into the inner loop when the
    last call stopped inside a group; each is proved to do what the functions of `ZfpPlane` say. */
module ZfpCoder {
  import opened ZfpBits
  import opened ZfpPlane

  /** Bit plane `b` of 64 coefficients. */
  function PlaneOf(block: seq<nat>, b: nat): (plane: Bits)
    requires |block| == BLOCK
    ensures |plane| == BLOCK
  {
    seq(BLOCK, i requires 0 <= i < BLOCK => BitOf(block[i], b) == 1)
  }

  lemma WordHasOne(x: Bits)
    ensures Word(x) != 0 <==> HasOne(x)
  {
    WordZero(x);
  }

  // ---------------------------------------------------------------- the encoder

  /** `X`: the bits of plane `b` from coefficient `m` on. */
  method LoadPlane(block: array<nat>, k: nat, b: nat, m: nat) returns (x: nat)
    requires k + BLOCK <= block.Length && m <= BLOCK
    ensures x == Word(PlaneOf(block[k..k + BLOCK], b)[m..])
  {
    x := 0;
    ghost var plane := PlaneOf(block[k..k + BLOCK], b);
    for i := m to BLOCK
      invariant x == Word(plane[m..i])
    {
      WordSnoc(plane[m..i], plane[i]);
      assert plane[m..i + 1] == plane[m..i] + [plane[i]];
      assert Bit(plane[i]) == BitOf(block[k + i], b);
      x := x + (block[k + i] / Pow2(b)) % 2 * Pow2(i - m);
    }
    assert plane[m..BLOCK] == plane[m..];
  }

  /** `rest`, appended to what is written, completes the run `whole`. */
  ghost predicate Remains(written: Bits, settled: nat, rest: Run, whole: Run) {
    whole == Run(written + rest.bits, settled + rest.settled, rest.inner, rest.closed)
  }

  lemma RemainsAfter(w: Bits, k: nat, b: bool, rest: Run, whole: Run)
    ensures Remains(w, k, Prepend(b, rest), whole) ==> Remains(w + [b], k, rest, whole)
    ensures Remains(w, k, Settle(rest), whole) ==> Remains(w, k + 1, rest, whole)
  {
    assert w + ([b] + rest.bits) == w + [b] + rest.bits;
  }

  /** What the inner loop does with a zero, with a one, and at the last coefficient. */
  lemma InnerStep(x: Bits, r: nat, w: Bits, k: nat, whole: Run)
    requires x != [] && Remains(w, k, EncInner(x, r), whole)
    ensures r == 0 ==> whole == Run(w, k, true, false)
    ensures r > 0 && |x| == 1 ==> Remains(w, k + 1, EncOuter(x[1..], r), whole)
    ensures r > 0 && |x| > 1 && !x[0] ==> Remains(w + [false], k + 1, EncInner(x[1..], r - 1), whole)
    ensures r == 1 && |x| > 1 && x[0] ==> whole == Run(w + [true], k, true, false)
    ensures r > 1 && |x| > 1 && x[0] ==> Remains(w + [true], k + 1, EncOuter(x[1..], r - 1), whole)
  {
    hide EncOuter, Remains;
    if r == 0 {
      assert whole == Run(w, k, true, false) by { RemainsWhole(w, k, EncInner(x, r), whole); }
    } else if |x| == 1 {
      RemainsAfter(w, k, true, EncOuter(x[1..], r), whole);
    } else if !x[0] {
      RemainsAfter(w, k, false, Settle(EncInner(x[1..], r - 1)), whole);
      RemainsAfter(w + [false], k, false, EncInner(x[1..], r - 1), whole);
      assert Settle(Prepend(false, EncInner(x[1..], r - 1))) == Prepend(false, Settle(EncInner(x[1..], r - 1)));
    } else if r == 1 {
      RemainsWhole(w, k, EncInner(x, r), whole);
    } else {
      RemainsAfter(w, k, true, Settle(EncOuter(x[1..], r - 1)), whole);
      RemainsAfter(w + [true], k, true, EncOuter(x[1..], r - 1), whole);
      assert Settle(Prepend(true, EncOuter(x[1..], r - 1))) == Prepend(true, Settle(EncOuter(x[1..], r - 1)));
    }
  }

  lemma RemainsWhole(w: Bits, k: nat, rest: Run, whole: Run)
    requires Remains(w, k, rest, whole)
    ensures whole == Run(w + rest.bits, k + rest.settled, rest.inner, rest.closed)
    ensures rest.bits == [] ==> whole.bits == w
  {
  }

  /** The inner loop, and what follows it: `cut` when the budget `s` is spent inside the group.
      `whole` is the run seen from an earlier point, `k` the coefficients settled since then. */
  method EncodeGroup(bs: BitWriter, s: nat, x0: nat, n0: nat, ghost tail: Bits, ghost k: nat, ghost whole: Run)
    returns (x: nat, n: nat, cut: bool)
    requires bs.BitSize() <= s && n0 < BLOCK && |tail| == BLOCK - n0
    requires bs.BitSize() < s ==> x0 == Word(tail)
    requires Remains(bs.bits, k, EncInner(tail, s - bs.BitSize()), whole)
    modifies bs
    ensures n0 <= n <= BLOCK && bs.BitSize() <= s
    ensures if cut then whole == Run(bs.bits, k + n - n0, true, false)
            else
              && n0 < n && bs.BitSize() < s && x == Word(tail[n - n0..])
              && Remains(bs.bits, k + n - n0, EncOuter(tail[n - n0..], s - bs.BitSize()), whole)
  {
    hide EncOuter, EncInner, Remains;
    x, n := x0, n0;
    ghost var left := tail;
    while bs.BitSize() < s && n < BLOCK - 1
      invariant bs.BitSize() <= s && n0 <= n < BLOCK && left == tail[n - n0..]
      invariant bs.BitSize() < s ==> x == Word(left)
      invariant Remains(bs.bits, k + n - n0, EncInner(left, s - bs.BitSize()), whole)
      decreases BLOCK - n
    {
      InnerStep(left, s - bs.BitSize(), bs.bits, k + n - n0, whole);
      var b := bs.Write(x % 2 == 1);
      if b {
        cut := bs.BitSize() >= s;
        if !cut { x, n := x / 2, n + 1; }
        return;
      }
      x, n := x / 2, n + 1;
      left := left[1..];
    }
    InnerStep(left, s - bs.BitSize(), bs.bits, k + n - n0, whole);
    cut := bs.BitSize() >= s;
    if !cut { x, n := x / 2, n + 1; }
  }

  /** What the outer loop does: nothing left to do, the closing zero, or a group. */
  lemma OuterStep(x: Bits, r: nat, w: Bits, k: nat, whole: Run)
    requires Remains(w, k, EncOuter(x, r), whole)
    ensures r == 0 || x == [] ==> whole == Run(w, k, false, false)
    ensures r > 0 && x != [] && !HasOne(x) ==> whole == Run(w + [false], k, false, true)
    ensures r > 0 && x != [] && HasOne(x) ==> Remains(w + [true], k, EncInner(x, r - 1), whole)
  {
    hide EncInner, Remains, HasOne;
    RemainsWhole(w, k, EncOuter(x, r), whole);
    if r > 0 && x != [] && HasOne(x) {
      RemainsAfter(w, k, true, EncInner(x, r - 1), whole);
    }
  }

  /** The group loops: from the outer one, or from inside a group when `inner`. Returns the new `N`
      and `In`, and `Lb`, the last group test. */
  method EncodeGroups(bs: BitWriter, s: nat, x0: nat, n0: nat, inner: bool, ghost tail: Bits)
    returns (n: nat, inner': bool, lb: bool)
    requires bs.BitSize() <= s && n0 <= BLOCK && |tail| == BLOCK - n0 && (inner ==> n0 < BLOCK)
    requires bs.BitSize() < s ==> x0 == Word(tail)
    modifies bs
    ensures var c := EncRun(tail, inner, s - |old(bs.bits)|);
            && bs.bits == old(bs.bits) + c.bits && n == n0 + c.settled
            && inner' == (inner || c.inner) && lb == !c.closed
  {
    hide EncOuter, EncInner, Remains, HasOne;
    var x := x0;
    n, inner', lb := n0, inner, true;
    ghost var left := tail;
    var enter := inner;
    ghost var run := EncRun(tail, inner, s - bs.BitSize());
    ghost var whole := Run(bs.bits + run.bits, run.settled, run.inner, run.closed);
    assert Remains(bs.bits, 0, run, whole) by { RemainsStart(bs.bits, run); }
    while enter || (bs.BitSize() < s && n < BLOCK)
      invariant bs.BitSize() <= s && n0 <= n <= BLOCK && left == tail[n - n0..]
      invariant bs.BitSize() < s ==> x == Word(left)
      invariant enter ==> left != []
      invariant Remains(bs.bits, n - n0, EncRun(left, enter, s - bs.BitSize()), whole)
      invariant inner' == inner && lb
      decreases BLOCK - n, !enter
    {
      if !enter {
        OuterStep(left, s - bs.BitSize(), bs.bits, n - n0, whole);
        WordHasOne(left);
        lb := bs.Write(x != 0);
        if !lb { return; }
      }
      enter := false;
      var cut;
      ghost var n' := n;
      x, n, cut := EncodeGroup(bs, s, x, n, left, n - n0, whole);
      if cut {
        inner' := true;
        return;
      }
      left := left[n - n'..];
    }
    OuterStep(left, s - bs.BitSize(), bs.bits, n - n0, whole);
  }

  lemma RemainsStart(w: Bits, run: Run)
    ensures Remains(w, 0, run, Run(w + run.bits, run.settled, run.inner, run.closed))
  {
  }

  /** Encode bit plane `b` of the block at `k`, writing until the stream holds `s` bits. `n`, `m` and
      `inner` say where the last call stopped; the result says whether the plane is fully encoded. */
  method Encode(block: array<nat>, k: nat, b: nat, s: nat, st: State, bs: BitWriter) returns (st': State, done: bool)
    requires k + BLOCK <= block.Length && Valid(st) && bs.BitSize() <= s
    modifies bs
    ensures var c := EncodeCall(PlaneOf(block[k..k + BLOCK], b), st, s - |old(bs.bits)|);
            bs.bits == old(bs.bits) + c.bits && st' == c.state && done == c.done
  {
    hide EncRun, Word, LowBits, PlaneOf;
    ghost var plane := PlaneOf(block[k..k + BLOCK], b);
    ghost var before := bs.bits;
    var x := LoadPlane(block, k, b, st.m);
    var p: nat := Min(st.n - st.m, s - bs.BitSize());
    if p > 0 {
      LowBitsOfWord(plane[st.m..], p);
      WordSplit(plane[st.m..], p);
      bs.WriteLong(x, p);
      x := x / Pow2(p);
    } else {
      assert plane[st.m..][..0] == [] && plane[st.m..][0..] == plane[st.m..];
    }
    assert plane[st.m..][..p] == plane[st.m..st.m + p];
    var n, inner, lb := EncodeGroups(bs, s, x, st.n, st.inner, plane[st.n..]);
    st' := State(n, st.m + p + (n - st.n), inner);
    done := (n == BLOCK && st'.m == n) || !lb;
  }

  /** The group loops of the plain encoder, always from the outer one. */
  method EncodePlainGroups(bs: BitWriter, s: nat, x0: nat, n0: nat, ghost tail: Bits) returns (n: nat, lb: bool)
    requires bs.BitSize() <= s && n0 <= BLOCK && |tail| == BLOCK - n0
    requires bs.BitSize() < s ==> x0 == Word(tail)
    modifies bs
    ensures var c := EncOuter(tail, s - |old(bs.bits)|);
            bs.bits == old(bs.bits) + c.bits && n == n0 + c.settled && lb == !c.closed
  {
    hide EncOuter, EncInner, Remains, HasOne;
    var x := x0;
    n, lb := n0, true;
    ghost var left := tail;
    ghost var run := EncOuter(tail, s - bs.BitSize());
    ghost var whole := Run(bs.bits + run.bits, run.settled, run.inner, run.closed);
    assert Remains(bs.bits, 0, run, whole) by { RemainsStart(bs.bits, run); }
    while bs.BitSize() < s && n < BLOCK
      invariant bs.BitSize() <= s && n0 <= n <= BLOCK && left == tail[n - n0..]
      invariant bs.BitSize() < s ==> x == Word(left)
      invariant Remains(bs.bits, n - n0, EncOuter(left, s - bs.BitSize()), whole)
      invariant lb
      decreases BLOCK - n
    {
      OuterStep(left, s - bs.BitSize(), bs.bits, n - n0, whole);
      WordHasOne(left);
      lb := bs.Write(x != 0);
      if !lb { return; }
      var cut;
      ghost var n' := n;
      x, n, cut := EncodeGroup(bs, s, x, n, left, n - n0, whole);
      if cut { return; }
      left := left[n - n'..];
    }
    OuterStep(left, s - bs.BitSize(), bs.bits, n - n0, whole);
  }

  /** The plain encoder keeps no flag: it does what the resumable one does outside groups, and forgets that it
      was cut inside one. */
  method EncodePlain(block: array<nat>, k: nat, b: nat, s: nat, n: nat, m: nat, bs: BitWriter)
    returns (n': nat, m': nat, done: bool)
    requires k + BLOCK <= block.Length && m <= n <= BLOCK && bs.BitSize() <= s
    modifies bs
    ensures var c := EncodeCall(PlaneOf(block[k..k + BLOCK], b), State(n, m, false), s - |old(bs.bits)|);
            bs.bits == old(bs.bits) + c.bits && n' == c.state.n && m' == c.state.m && done == c.done
  {
    hide EncOuter, Word, LowBits, PlaneOf;
    ghost var plane := PlaneOf(block[k..k + BLOCK], b);
    var x := LoadPlane(block, k, b, m);
    var p: nat := Min(n - m, s - bs.BitSize());
    if p > 0 {
      LowBitsOfWord(plane[m..], p);
      WordSplit(plane[m..], p);
      bs.WriteLong(x, p);
      x := x / Pow2(p);
    } else {
      assert plane[m..][..0] == [] && plane[m..][0..] == plane[m..];
    }
    assert plane[m..][..p] == plane[m..m + p];
    var lb;
    n', lb := EncodePlainGroups(bs, s, x, n, plane[n..]);
    m' := m + p + (n' - n);
    done := (n' == BLOCK && m' == n') || !lb;
  }

  // ---------------------------------------------------------------- the decoder

  ghost predicate ReadRemains(values: Bits, used: nat, rest: Read, whole: Read) {
    whole == Read(values + rest.values, used + rest.used, rest.inner, rest.closed)
  }

  lemma ReadRemainsAfter(values: Bits, used: nat, v: bool, rest: Read, whole: Read)
    ensures ReadRemains(values, used, Consume(rest), whole) ==> ReadRemains(values, used + 1, rest, whole)
    ensures ReadRemains(values, used, Recover(v, rest), whole) ==> ReadRemains(values + [v], used, rest, whole)
    ensures ReadRemains(values, used, Consume(Recover(v, rest)), whole) ==> ReadRemains(values + [v], used + 1, rest, whole)
  {
    assert values + ([v] + rest.values) == values + [v] + rest.values;
  }

  lemma DecInnerStep(t: Bits, n: nat, r: nat, values: Bits, used: nat, whole: Read)
    requires n >= 1 && r <= |t| && ReadRemains(values, used, DecInner(t, n, r), whole)
    ensures r == 0 ==> whole == Read(values, used, true, false)
    ensures r > 0 && n == 1 ==> ReadRemains(values + [true], used, DecOuter(t, 0, r), whole)
    ensures r > 0 && n > 1 && !t[0] ==> ReadRemains(values + [false], used + 1, DecInner(t[1..], n - 1, r - 1), whole)
    ensures r == 1 && n > 1 && t[0] ==> whole == Read(values, used + 1, true, false)
    ensures r > 1 && n > 1 && t[0] ==> ReadRemains(values + [true], used + 1, DecOuter(t[1..], n - 1, r - 1), whole)
  {
    hide DecOuter;
    if r > 0 && n == 1 {
      ReadRemainsAfter(values, used, true, DecOuter(t, 0, r), whole);
    } else if r > 0 && !t[0] {
      ReadRemainsAfter(values, used, false, DecInner(t[1..], n - 1, r - 1), whole);
    } else if r > 1 {
      ReadRemainsAfter(values, used, true, DecOuter(t[1..], n - 1, r - 1), whole);
    }
  }

  lemma DecOuterStep(t: Bits, n: nat, r: nat, values: Bits, used: nat, whole: Read)
    requires r <= |t| && ReadRemains(values, used, DecOuter(t, n, r), whole)
    ensures r == 0 || n == 0 ==> whole == Read(values, used, false, false)
    ensures r > 0 && n > 0 && !t[0] ==> whole == Read(values, used + 1, false, true)
    ensures r > 0 && n > 0 && t[0] ==> ReadRemains(values, used + 1, DecInner(t[1..], n, r - 1), whole)
  {
    hide DecInner;
    if r > 0 && n > 0 && t[0] {
      ReadRemainsAfter(values, used, true, DecInner(t[1..], n, r - 1), whole);
    }
  }

  /** A value read so far, as the decoder holds it: the word `x` and its length. */
  lemma PushBit(values: Bits, x: nat, v: bool)
    requires x == Word(values)
    ensures x + Bit(v) * Pow2(|values|) == Word(values + [v])
    ensures !v ==> x == Word(values + [v])
  {
    WordSnoc(values, v);
  }

  /** The inner loop of the decoder. `values` are the coefficients put together so far. */
  method DecodeGroup(bs: BitReader, s: nat, x0: nat, p0: nat, n0: nat, ghost start: nat, ghost values0: Bits,
                     ghost whole: Read)
    returns (x: nat, p: nat, n: nat, cut: bool, ghost values: Bits)
    requires start <= bs.pos <= s <= |bs.stream| && n0 < BLOCK && |values0| == p0 && x0 == Word(values0)
    requires ReadRemains(values0, bs.pos - start, DecInner(bs.stream[bs.pos..], BLOCK - n0, s - bs.pos), whole)
    modifies bs
    ensures start <= bs.pos <= s && n0 <= n <= BLOCK && |values| == p && x == Word(values) && p - p0 == n - n0
    ensures if cut then whole == Read(values, bs.pos - start, true, false)
            else
              && n0 < n && bs.pos < s
              && ReadRemains(values, bs.pos - start, DecOuter(bs.stream[bs.pos..], BLOCK - n, s - bs.pos), whole)
  {
    hide DecOuter, DecInner, ReadRemains, Word;
    x, p, n, values := x0, p0, n0, values0;
    while bs.pos < s && n < BLOCK - 1
      invariant start <= bs.pos <= s && n0 <= n < BLOCK && |values| == p && x == Word(values) && p - p0 == n - n0
      invariant ReadRemains(values, bs.pos - start, DecInner(bs.stream[bs.pos..], BLOCK - n, s - bs.pos), whole)
      decreases BLOCK - n
    {
      DecInnerStep(bs.stream[bs.pos..], BLOCK - n, s - bs.pos, values, bs.pos - start, whole);
      var b := bs.Read();
      PushBit(values, x, b);
      if b {
        cut := bs.pos >= s;
        if !cut {
          x, p, n := x + Pow2(p), p + 1, n + 1;
          values := values + [true];
        }
        return;
      }
      p, n := p + 1, n + 1;
      values := values + [false];
    }
    DecInnerStep(bs.stream[bs.pos..], BLOCK - n, s - bs.pos, values, bs.pos - start, whole);
    cut := bs.pos >= s;
    if !cut {
      PushBit(values, x, true);
      x, p, n := x + Pow2(p), p + 1, n + 1;
      values := values + [true];
    }
  }

  method DecodeGroups(bs: BitReader, s: nat, x0: nat, p0: nat, n0: nat, inner: bool, ghost raw: Bits)
    returns (x: nat, p: nat, n: nat, inner': bool, lb: bool)
    requires bs.pos <= s <= |bs.stream| && n0 <= BLOCK && |raw| == p0 && x0 == Word(raw) && (inner ==> n0 < BLOCK)
    modifies bs
    ensures var d := DecRun(bs.stream[old(bs.pos)..], BLOCK - n0, inner, s - old(bs.pos));
            && bs.pos == old(bs.pos) + d.used && n == n0 + |d.values|
            && p == p0 + |d.values| && x == Word(raw + d.values)
            && inner' == (inner || d.inner) && lb == !d.closed
  {
    hide DecOuter, DecInner, ReadRemains, Word;
    x, p, n, inner', lb := x0, p0, n0, inner, true;
    var enter := inner;
    ghost var start, values := bs.pos, raw;
    ghost var read := DecRun(bs.stream[bs.pos..], BLOCK - n0, inner, s - bs.pos);
    ghost var whole := Read(raw + read.values, read.used, read.inner, read.closed);
    assert ReadRemains(values, 0, read, whole) by { ReadRemainsStart(raw, read); }
    while enter || (bs.pos < s && n < BLOCK)
      invariant start <= bs.pos <= s && n0 <= n <= BLOCK && |values| == p && x == Word(values) && p - p0 == n - n0
      invariant enter ==> n < BLOCK
      invariant ReadRemains(values, bs.pos - start, DecRun(bs.stream[bs.pos..], BLOCK - n, enter, s - bs.pos), whole)
      invariant inner' == inner && lb
      decreases BLOCK - n, !enter
    {
      if !enter {
        DecOuterStep(bs.stream[bs.pos..], BLOCK - n, s - bs.pos, values, bs.pos - start, whole);
        lb := bs.Read();
        if !lb { return; }
      }
      enter := false;
      var cut;
      x, p, n, cut, values := DecodeGroup(bs, s, x, p, n, start, values, whole);
      if cut {
        inner' := true;
        return;
      }
    }
    DecOuterStep(bs.stream[bs.pos..], BLOCK - n, s - bs.pos, values, bs.pos - start, whole);
  }

  lemma ReadRemainsStart(values: Bits, read: Read)
    ensures ReadRemains(values, 0, read, Read(values + read.values, read.used, read.inner, read.closed))
  {
  }

  function DepositAt(v: nat, i: nat, b: nat, m: nat, values: Bits): nat {
    if m <= i < m + |values| then v + Bit(values[i - m]) * Pow2(b) else v
  }

  /** Coefficients with `values` added on bit plane `b`, from coefficient `m` on. */
  function Deposit(block: seq<nat>, b: nat, m: nat, values: Bits): (r: seq<nat>)
    ensures |r| == |block|
  {
    seq(|block|, i requires 0 <= i < |block| => DepositAt(block[i], i, b, m, values))
  }

  /** The deposit loop stops as soon as only zeros are left. */
  method DepositPlane(block: array<nat>, k: nat, b: nat, m: nat, x0: nat, ghost values: Bits)
    requires k + BLOCK <= block.Length && m + |values| <= BLOCK && x0 == Word(values)
    modifies block
    ensures block[k..k + BLOCK] == Deposit(old(block[k..k + BLOCK]), b, m, values)
    ensures forall i :: 0 <= i < k || k + BLOCK <= i < block.Length ==> block[i] == old(block[i])
  {
    var x: nat, i: nat := x0, m;
    while x != 0
      invariant m <= i <= m + |values| && x == Word(values[i - m..])
      invariant forall j :: k + m <= j < k + i ==> block[j] == DepositAt(old(block[j]), j - k, b, m, values)
      invariant forall j :: 0 <= j < k + m || k + i <= j < block.Length ==> block[j] == old(block[j])
      decreases m + |values| - i
    {
      assert values[i - m..] != [];
      assert values[i - m..][1..] == values[i + 1 - m..];
      block[k + i] := block[k + i] + x % 2 * Pow2(b);
      x := x / 2;
      i := i + 1;
    }
    NothingMore(values, i - m);
    forall j | k <= j < k + BLOCK ensures block[j] == DepositAt(old(block[j]), j - k, b, m, values) {
    }
  }

  lemma NothingMore(values: Bits, k: nat)
    requires k <= |values| && Word(values[k..]) == 0
    ensures forall j :: k <= j < |values| ==> !values[j]
  {
    WordZero(values[k..]);
    forall j | k <= j < |values| ensures !values[j] { assert values[k..][j - k] == values[j]; }
  }

  /** Decode bit plane `b` into the block at `k`, reading up to bit `s` of the stream. */
  method Decode(block: array<nat>, k: nat, b: nat, s: nat, st: State, bs: BitReader) returns (st': State, done: bool)
    requires k + BLOCK <= block.Length && Valid(st) && bs.pos <= s <= |bs.stream|
    modifies block, bs
    ensures var d := DecodeCall(bs.stream[old(bs.pos)..], st, s - old(bs.pos));
            && bs.pos == old(bs.pos) + d.used && st' == d.state && done == d.done
            && block[k..k + BLOCK] == Deposit(old(block[k..k + BLOCK]), b, st.m, d.values)
    ensures forall i :: 0 <= i < k || k + BLOCK <= i < block.Length ==> block[i] == old(block[i])
  {
    hide DecRun, Word, Deposit;
    ghost var t := bs.stream[bs.pos..];
    ghost var d := DecodeCall(t, st, s - bs.pos);
    var p: nat := Min(st.n - st.m, s - bs.pos);
    var x: nat := 0;
    assert Word([]) == 0 by { WordZero([]); }
    ghost var start := bs.pos;
    if p > 0 { x := bs.ReadLong(p); }
    assert bs.stream[start..start + p] == t[..p] && bs.stream[bs.pos..] == t[p..];
    assert p == 0 ==> t[..p] == [];
    var n, inner, lb;
    x, p, n, inner, lb := DecodeGroups(bs, s, x, p, st.n, st.inner, t[..p]);
    DepositPlane(block, k, b, st.m, x, d.values);
    st' := State(n, st.m + p, inner);
    done := (n == BLOCK && st'.m == n) || !lb;
  }

  /** The group loops of the plain decoder. */
  method DecodePlainGroups(bs: BitReader, s: nat, x0: nat, p0: nat, n0: nat, ghost raw: Bits)
    returns (x: nat, p: nat, n: nat, lb: bool)
    requires bs.pos <= s <= |bs.stream| && n0 <= BLOCK && |raw| == p0 && x0 == Word(raw)
    modifies bs
    ensures var d := DecOuter(bs.stream[old(bs.pos)..], BLOCK - n0, s - old(bs.pos));
            && bs.pos == old(bs.pos) + d.used && n == n0 + |d.values|
            && p == p0 + |d.values| && x == Word(raw + d.values) && lb == !d.closed
  {
    hide DecOuter, DecInner, ReadRemains, Word;
    x, p, n, lb := x0, p0, n0, true;
    ghost var start, values := bs.pos, raw;
    ghost var read := DecOuter(bs.stream[bs.pos..], BLOCK - n0, s - bs.pos);
    ghost var whole := Read(raw + read.values, read.used, read.inner, read.closed);
    assert ReadRemains(values, 0, read, whole) by { ReadRemainsStart(raw, read); }
    while bs.pos < s && n < BLOCK
      invariant start <= bs.pos <= s && n0 <= n <= BLOCK && |values| == p && x == Word(values) && p - p0 == n - n0
      invariant ReadRemains(values, bs.pos - start, DecOuter(bs.stream[bs.pos..], BLOCK - n, s - bs.pos), whole)
      invariant lb
      decreases BLOCK - n
    {
      DecOuterStep(bs.stream[bs.pos..], BLOCK - n, s - bs.pos, values, bs.pos - start, whole);
      lb := bs.Read();
      if !lb { return; }
      var cut;
      x, p, n, cut, values := DecodeGroup(bs, s, x, p, n, start, values, whole);
      if cut { return; }
    }
    DecOuterStep(bs.stream[bs.pos..], BLOCK - n, s - bs.pos, values, bs.pos - start, whole);
  }

  method DecodePlain(block: array<nat>, k: nat, b: nat, s: nat, n: nat, m: nat, bs: BitReader)
    returns (n': nat, m': nat, done: bool)
    requires k + BLOCK <= block.Length && m <= n <= BLOCK && bs.pos <= s <= |bs.stream|
    modifies block, bs
    ensures var d := DecodeCall(bs.stream[old(bs.pos)..], State(n, m, false), s - old(bs.pos));
            && bs.pos == old(bs.pos) + d.used && n' == d.state.n && m' == d.state.m && done == d.done
            && block[k..k + BLOCK] == Deposit(old(block[k..k + BLOCK]), b, m, d.values)
    ensures forall i :: 0 <= i < k || k + BLOCK <= i < block.Length ==> block[i] == old(block[i])
  {
    hide DecOuter, Word, Deposit;
    ghost var t := bs.stream[bs.pos..];
    ghost var d := DecodeCall(t, State(n, m, false), s - bs.pos);
    var p: nat := Min(n - m, s - bs.pos);
    var x: nat := 0;
    assert Word([]) == 0 by { WordZero([]); }
    ghost var start := bs.pos;
    if p > 0 { x := bs.ReadLong(p); }
    assert bs.stream[start..start + p] == t[..p] && bs.stream[bs.pos..] == t[p..];
    assert p == 0 ==> t[..p] == [];
    var lb;
    x, p, n', lb := DecodePlainGroups(bs, s, x, p, n, t[..p]);
    DepositPlane(block, k, b, m, x, d.values);
    m' := m + p;
    done := (n' == BLOCK && m' == n') || !lb;
  }

  // ---------------------------------------------------------------- a deposit changes one plane

  lemma {:induction false} SetBit(v: nat, b: nat, j: nat)
    requires BitOf(v, b) == 0
    ensures BitOf(v + Pow2(b), j) == if j == b then 1 else BitOf(v, j)
    decreases b
  {
    var v' := v + Pow2(b);
    if b == 0 {
      assert v % 2 == 0 && v' / 2 == v / 2;
      if j > 0 { SameBit(v, v', j); }
    } else {
      assert Pow2(b) == 2 * Pow2(b - 1);
      assert v' / 2 == v / 2 + Pow2(b - 1) && v' % 2 == v % 2;
      hide Pow2;
      BitHalf(v, b);
      if j > 0 {
        BitHalf(v, j);
        BitHalf(v', j);
        SetBit(v / 2, b - 1, j - 1);
      } else {
        LowestBit(v);
        LowestBit(v');
      }
    }
  }

  lemma LowestBit(v: nat)
    ensures BitOf(v, 0) == v % 2
  {
  }

  lemma SameBit(v: nat, v': nat, j: nat)
    requires v / 2 == v' / 2 && j > 0
    ensures BitOf(v, j) == BitOf(v', j)
  {
    BitHalf(v, j);
    BitHalf(v', j);
  }

  lemma BitHalf(v: nat, b: nat)
    requires b > 0
    ensures BitOf(v, b) == BitOf(v / 2, b - 1)
  {
    HalveShift(v / 2, Pow2(b - 1), v % 2);
    assert v == v % 2 + 2 * (v / 2);
  }

  /** Depositing into an empty plane restores exactly those coefficients of it, and no other plane
      changes. */
  lemma DepositChangesOnePlane(block: seq<nat>, b: nat, m: nat, values: Bits, j: nat)
    requires |block| == BLOCK && m + |values| <= BLOCK
    requires forall i :: m <= i < m + |values| ==> BitOf(block[i], b) == 0
    ensures var r := Deposit(block, b, m, values);
            if j == b then PlaneOf(r, j) == PlaneOf(block, j)[..m] + values + PlaneOf(block, j)[m + |values|..]
            else PlaneOf(r, j) == PlaneOf(block, j)
  {
    var r := Deposit(block, b, m, values);
    forall i | m <= i < m + |values|
      ensures BitOf(r[i], j) == if j == b then Bit(values[i - m]) else BitOf(block[i], j)
    {
      SetBit(block[i], b, j);
    }
  }
}
