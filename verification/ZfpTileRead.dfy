/** Reading a tile back from its chunks.

    The tile comes back truncated to the planes that were coded, except in one corner: when the last
    plane coded was cut, by the end of the last chunk, right after the group bit of coefficient 63,
    the reader stops before it sets that bit. */
module ZfpTileRead {
  import opened ZfpBits
  import opened ZfpPlane
  import opened ZfpCoder
  import opened ZfpTile

  // ---------------------------------------------------------------- the stream ahead

  lemma {:induction false} FlatCons(chunks: seq<Bits>)
    requires chunks != []
    ensures Flat(chunks) == chunks[0] + Flat(chunks[1..])
    decreases |chunks|
  {
    var n := |chunks| - 1;
    if n == 0 {
      assert chunks[..0] == [] && chunks[1..] == [];
    } else {
      var front, tail := chunks[..n], chunks[1..];
      FlatCons(front);
      assert front[1..] == tail[..n - 1] && tail[n - 1] == chunks[n];
      calc {
        Flat(chunks);
        Flat(front) + chunks[n];
        chunks[0] + Flat(tail[..n - 1]) + chunks[n];
        chunks[0] + (Flat(tail[..n - 1]) + tail[n - 1]);
        chunks[0] + Flat(tail);
      }
    }
  }

  /** What is left to read at bit `pos` of chunk `ci`. */
  function Ahead(stored: seq<Bits>, ci: nat, pos: nat): Bits {
    if ci < |stored| && pos <= |stored[ci]| then stored[ci][pos..] + Flat(stored[ci + 1..]) else []
  }

  lemma AheadNext(stored: seq<Bits>, ci: nat, pos: nat, size: nat)
    requires ci < |stored| && pos <= size == |stored[ci]|
    ensures |stored[ci][pos..]| == size - pos && Ahead(stored, ci, pos)[size - pos..] == Ahead(stored, ci + 1, 0)
  {
    var next := stored[ci + 1..];
    if ci + 1 < |stored| {
      FlatCons(next);
      assert next[1..] == stored[ci + 2..];
    }
  }

  lemma AheadLater(stored: seq<Bits>, ci: nat, pos: nat, k: nat)
    requires ci < |stored| && pos + k <= |stored[ci]|
    ensures k <= |Ahead(stored, ci, pos)| && Ahead(stored, ci, pos)[k..] == Ahead(stored, ci, pos + k)
    ensures forall bits :: bits <= Ahead(stored, ci, pos) && |bits| <= |stored[ci]| - pos ==> bits <= stored[ci][pos..]
  {
  }

  // ---------------------------------------------------------------- joining deposits

  lemma DepositNothing(block: seq<nat>, b: nat)
    ensures Deposit(block, b, 0, []) == block
  {
  }

  lemma DepositJoin(block: seq<nat>, b: nat, plane: Bits, m: nat, m': nat)
    requires m <= m' <= |plane|
    ensures Deposit(Deposit(block, b, 0, plane[..m]), b, m, plane[m..m']) == Deposit(block, b, 0, plane[..m'])
  {
  }

  lemma DepositZeros(block: seq<nat>, b: nat, plane: Bits, m: nat)
    requires m <= |plane| && !HasOne(plane[m..])
    ensures Deposit(block, b, 0, plane[..m]) == Deposit(block, b, 0, plane)
  {
    forall i | m <= i < |plane| ensures !plane[i] { assert plane[i] == plane[m..][i - m]; }
  }

  // ---------------------------------------------------------------- one plane

  /** One decoder call of a job, on a chunk that carries it. */
  lemma ReadStep(plane: Bits, s: State, r: nat, size: nat, ahead: Bits, t: Bits, o: Job, pad: Bits)
    requires |plane| == BLOCK && Open(plane, s) && 0 < r <= size && 2 <= size && |t| == r
    requires JobEnds(plane, s, [], size - r, size, o.bits, o) && ahead == o.bits + pad
    requires t <= ahead
    ensures var c := EncodeCall(plane, s, r);
            && Valid(s)
            && DecodeCall(t, s, r) == Decoded(plane[s.m..c.state.m], |c.bits|, c.state, c.done)
            && |c.bits| <= r
            && (if c.done then
                  && !HasOne(plane[c.state.m..]) && c.bits == o.bits && c.state.n == o.n
                  && Wrap(size - r + |c.bits|, size) == o.used && o.silent == (c.bits == [])
                else
                  && |c.bits| == r <= |o.bits| && Open(plane, c.state)
                  && JobEnds(plane, c.state, [], 0, size, o.bits[r..], o.(bits := o.bits[r..]))
                  && ahead[r..] == o.bits[r..] + pad
                  && (size == r ==> NeedOf(plane, c.state) < NeedOf(plane, s)))
  {
    hide EncodeCall, DecodeCall, HasOne, CallNeed, NeedOf;
    JobStep(plane, s, [], size - r, size, o.bits, o);
    var c := EncodeCall(plane, s, r);
    assert [] + c.bits == c.bits;
    assert c.bits <= o.bits by { if !c.done { EndsPrefix(plane, c.state, c.bits, 0, size, o.bits, o); } }
    assert c.bits <= t;
    StreamReadsBack(plane, s, r, t);
    if !c.done { EndsRest(plane, c.state, c.bits, size, o); }
  }

  lemma EndsPrefix(plane: Bits, s: State, w: Bits, used: nat, size: nat, stream: Bits, o: Job)
    requires |plane| == BLOCK && Open(plane, s) && used < size && 2 <= size
    requires JobEnds(plane, s, w, used, size, stream, o)
    ensures w <= stream
  {
  }

  lemma EndsRest(plane: Bits, s: State, w: Bits, size: nat, o: Job)
    requires |plane| == BLOCK && Open(plane, s) && 2 <= size
    requires JobEnds(plane, s, w, 0, size, o.bits, o)
    ensures |w| <= |o.bits| && JobEnds(plane, s, [], 0, size, o.bits[|w|..], o.(bits := o.bits[|w|..]))
  {
    hide EncodeJob;
    var later := EncodeJob(plane, s, 0, size);
    assert [] + later.bits == o.bits[|w|..];
  }

  /** A job that adds nothing after a cut: it hangs on coefficient 63. */
  lemma EmptyRest(plane: Bits, s: State, size: nat, o: Job)
    requires |plane| == BLOCK && Open(plane, s) && 2 <= size
    requires JobEnds(plane, s, [], 0, size, o.bits, o) && o.bits == []
    ensures o.silent && s.m == BLOCK - 1 && plane[BLOCK - 1]
  {
    hide EncodeCall, HasOne, CallNeed, NeedOf;
    JobStep(plane, s, [], 0, size, o.bits, o);
    SilentCall(plane, s, size);
    var c := EncodeCall(plane, s, size);
    if !c.done { CutCallWrites(plane, s, size, o); }
  }

  lemma CutCallWrites(plane: Bits, s: State, size: nat, o: Job)
    requires |plane| == BLOCK && Open(plane, s) && 2 <= size && !EncodeCall(plane, s, size).done
    requires JobEnds(plane, s, [], 0, size, o.bits, o)
    ensures o.bits != []
  {
    hide EncodeCall, HasOne, CallNeed, NeedOf;
    JobStep(plane, s, [], 0, size, o.bits, o);
    var c := EncodeCall(plane, s, size);
    EndsPrefix(plane, c.state, [] + c.bits, 0, size, o.bits, o);
  }

  /** The reader's place: chunk `ci`, and a stream opened on it unless it is past the end. */
  ghost predicate ReaderAt(stored: seq<Bits>, ci: nat, bs: BitReader, size: nat)
    reads bs
  {
    ci <= |stored| && AllFull(stored, size) && (ci < |stored| ==> bs.stream == stored[ci] && bs.pos <= size)
  }

  ghost function AheadOf(stored: seq<Bits>, ci: nat, bs: BitReader): Bits
    reads bs
  {
    if ci < |stored| then Ahead(stored, ci, bs.pos) else []
  }

  /** Go to the next chunk when this one is exhausted. */
  method NextChunk(stored: seq<Bits>, ci0: nat, bs0: BitReader, size: nat, ghost ahead: Bits, ghost start: nat)
    returns (ci: nat, bs: BitReader)
    requires ci0 < |stored| && AllFull(stored, size) && bs0.stream == stored[ci0] && start <= bs0.pos <= size && size > 0
    requires ahead == Ahead(stored, ci0, start)
    ensures ReaderAt(stored, ci, bs, size) && bs0.pos - start <= |ahead| && AheadOf(stored, ci, bs) == ahead[bs0.pos - start..]
    ensures ci < |stored| ==> bs.pos == Wrap(bs0.pos, size) < size
    ensures if bs0.pos < size then ci == ci0 && bs == bs0 else ci == ci0 + 1
    ensures bs == bs0 || fresh(bs)
  {
    ci, bs := ci0, bs0;
    AheadLater(stored, ci, start, bs.pos - start);
    if bs.pos >= size {
      AheadNext(stored, ci, bs.pos, size);
      assert Ahead(stored, ci, bs.pos)[0..] == Ahead(stored, ci, bs.pos);
      ci := ci + 1;
      if ci < |stored| { bs := new BitReader(stored[ci]); }
    }
  }

  /** A job in progress: from `s`, at bit `used` of a chunk, `o` is still to come, then `pad`. */
  ghost predicate Going(plane: Bits, s: State, used: nat, size: nat, o: Job, ahead: Bits, pad: Bits) {
    && |plane| == BLOCK && 2 <= size && used < size && Open(plane, s) && (s.inner ==> used == 0)
    && JobEnds(plane, s, [], used, size, o.bits, o) && ahead == o.bits + pad
  }

  lemma GoingStep(plane: Bits, s: State, used: nat, size: nat, o: Job, ahead: Bits, pad: Bits, t: Bits)
    requires used <= size && Going(plane, s, Wrap(used, size), size, o, ahead, pad) && |t| == size - used && t <= ahead
    ensures Valid(s) && |plane| == BLOCK
    ensures var d := DecodeCall(t, s, size - used);
            && d.used <= |ahead| && d.used <= |o.bits|
            && s.m <= d.state.m <= BLOCK && d.values == plane[s.m..d.state.m]
            && (d.done ==> !HasOne(plane[d.state.m..]) && ahead[d.used..] == pad && d.state.n == o.n
                           && Wrap(used + d.used, size) == o.used && !(o.silent && pad == []))
            && (!d.done ==> d.used == size - used
                            && Going(plane, d.state, 0, size, o.(bits := o.bits[d.used..]), ahead[d.used..], pad)
                            && (used == 0 ==> NeedOf(plane, d.state) < NeedOf(plane, s)))
  {
    hide EncodeCall, DecodeCall, CallNeed, HasOne, Open, NeedOf, JobEnds;
    if used < size {
      ReadStep(plane, s, size - used, size, ahead, t, o, pad);
      assert ahead != [];
    } else {
      assert t == [] && o.bits[0..] == o.bits && ahead[0..] == ahead;
      ZeroCall(plane, s);
    }
  }

  /** One decoder call, and the next chunk if need be. */
  method ReadCall(uints: array<nat>, k: nat, b: nat, s0: State, size: nat, stored: seq<Bits>, ci0: nat, bs0: BitReader,
                  ghost plane: Bits, ghost block: seq<nat>, ghost o: Job, ghost pad: Bits)
    returns (s: State, done: bool, ci: nat, bs: BitReader, ghost o': Job)
    requires k + BLOCK <= uints.Length && ReaderAt(stored, ci0, bs0, size) && ci0 < |stored|
    requires Going(plane, s0, Wrap(bs0.pos, size), size, o, Ahead(stored, ci0, bs0.pos), pad)
    requires uints[k..k + BLOCK] == Deposit(block, b, 0, plane[..s0.m])
    modifies uints, bs0
    ensures ReaderAt(stored, ci, bs, size) && (bs == bs0 || fresh(bs)) && s.m <= BLOCK && (ci < |stored| ==> bs.pos < size)
    ensures uints[k..k + BLOCK] == Deposit(block, b, 0, plane[..s.m])
    ensures forall i :: 0 <= i < k || k + BLOCK <= i < uints.Length ==> uints[i] == old(uints[i])
    ensures done ==> o' == o && !HasOne(plane[s.m..]) && AheadOf(stored, ci, bs) == pad && !(o.silent && pad == [])
                     && (ci < |stored| ==> s.n == o.n && bs.pos == o.used)
    ensures !done ==> ci == ci0 + 1 && o' == o.(bits := o'.bits)
                      && (ci < |stored| ==> bs.pos == 0)
                      && Going(plane, s, 0, size, o', AheadOf(stored, ci, bs), pad)
  {
    hide DecodeCall, HasOne, Going, Deposit, Flat;
    ghost var start, t := bs0.pos, bs0.stream[bs0.pos..];
    ghost var ahead := Ahead(stored, ci0, start);
    GoingSize(plane, s0, Wrap(start, size), size, o, ahead, pad);
    GoingStep(plane, s0, start, size, o, ahead, pad, t);
    ghost var d := DecodeCall(t, s0, size - start);
    s, done := Decode(uints, k, b, size, s0, bs0);
    DepositJoin(block, b, plane, s0.m, s.m);
    ci, bs := NextChunk(stored, ci0, bs0, size, ahead, start);
    o' := if done then o else o.(bits := o.bits[d.used..]);
  }

  lemma GoingSize(plane: Bits, s: State, used: nat, size: nat, o: Job, ahead: Bits, pad: Bits)
    requires Going(plane, s, used, size, o, ahead, pad)
    ensures size >= 2
  {
  }

  /** One plane of the block at `k`, read over as many chunks as it takes; `full` unless the chunks
      ran out first. */
  method ReadPlane(uints: array<nat>, k: nat, b: nat, n: nat, size: nat, stored: seq<Bits>, ci0: nat, bs0: BitReader,
                   ghost plane: Bits, ghost pad: Bits)
    returns (ci: nat, bs: BitReader, n': nat, full: bool)
    requires k + BLOCK <= uints.Length && n <= BLOCK && size >= 2 && |plane| == BLOCK
    requires ReaderAt(stored, ci0, bs0, size) && ci0 < |stored|
    requires Ahead(stored, ci0, bs0.pos) == EncodeJob(plane, State(n, 0, false), Wrap(bs0.pos, size), size).bits + pad
    modifies uints, bs0
    ensures var o := EncodeJob(plane, State(n, 0, false), Wrap(old(bs0.pos), size), size);
            && full == !(o.silent && pad == [])
            && uints[k..k + BLOCK]
               == Deposit(old(uints[k..k + BLOCK]), b, 0, if full then plane else plane[..BLOCK - 1])
            && (!full ==> plane[BLOCK - 1])
            && AheadOf(stored, ci, bs) == pad
            && (ci < |stored| ==> bs.pos == o.used && n' == o.n)
    ensures ReaderAt(stored, ci, bs, size) && (bs == bs0 || fresh(bs)) && (!full ==> ci == |stored|)
    ensures ci < |stored| ==> bs.pos < size
    ensures forall i :: 0 <= i < k || k + BLOCK <= i < uints.Length ==> uints[i] == old(uints[i])
  {
    hide EncodeJob, HasOne, Going, Deposit, Ahead, Open;
    var s := State(n, 0, false);
    ci, bs, full := ci0, bs0, false;
    OpenAtStart(plane, n);
    ghost var used0 := Wrap(bs0.pos, size);
    ghost var o0 := EncodeJob(plane, s, used0, size);
    ghost var o, block := o0, uints[k..k + BLOCK];
    GoingStarts(plane, n, used0, size, pad);
    DepositNothing(block, b);
    assert plane[..0] == [];
    while !full && ci < |stored|
      invariant ReaderAt(stored, ci, bs, size) && (bs == bs0 || fresh(bs)) && s.m <= BLOCK
      invariant uints[k..k + BLOCK] == Deposit(block, b, 0, plane[..s.m])
      invariant forall i :: 0 <= i < k || k + BLOCK <= i < uints.Length ==> uints[i] == old(uints[i])
      invariant o == o0.(bits := o.bits)
      invariant !full ==> Going(plane, s, if ci < |stored| then Wrap(bs.pos, size) else 0, size, o, AheadOf(stored, ci, bs), pad)
      invariant full ==> !HasOne(plane[s.m..]) && AheadOf(stored, ci, bs) == pad && !(o.silent && pad == [])
                         && (ci < |stored| ==> s.n == o.n && bs.pos == o.used < size)
      decreases !full, |stored| - ci
    {
      s, full, ci, bs, o := ReadCall(uints, k, b, s, size, stored, ci, bs, plane, block, o, pad);
    }
    if full { DepositZeros(block, b, plane, s.m); } else { GoingStuck(plane, s, size, o, pad); }
    n' := s.n;
  }

  lemma GoingStarts(plane: Bits, n: nat, used: nat, size: nat, pad: Bits)
    requires |plane| == BLOCK && n <= BLOCK && used < size && 2 <= size
    ensures var o := EncodeJob(plane, State(n, 0, false), used, size);
            Going(plane, State(n, 0, false), used, size, o, o.bits + pad, pad)
  {
    OpenAtStart(plane, n);
    JobStarts(plane, State(n, 0, false), [], used, size);
    hide EncodeJob;
    assert [] + EncodeJob(plane, State(n, 0, false), used, size).bits
        == EncodeJob(plane, State(n, 0, false), used, size).bits;
  }

  /** The chunks ran out before the plane was finished. */
  lemma GoingStuck(plane: Bits, s: State, size: nat, o: Job, pad: Bits)
    requires Going(plane, s, 0, size, o, [], pad)
    ensures |plane| == BLOCK && o.silent && pad == [] && s.m == BLOCK - 1 && plane[BLOCK - 1]
  {
    hide JobEnds, Open;
    EmptyRest(plane, s, size, o);
  }

  // ---------------------------------------------------------------- what a tile comes back as

  /** `v` with only its bit planes `lo` to `hi - 1`. */
  function Keep(v: nat, hi: nat, lo: nat): nat { v % Pow2(hi) / Pow2(lo) * Pow2(lo) }

  lemma {:induction false} BitOfMod(v: nat, hi: nat, lo: nat)
    requires lo < hi
    ensures BitOf(v % Pow2(hi), lo) == BitOf(v, lo)
    decreases lo
  {
    var y, w := v % Pow2(hi), v / 2;
    HalveShift(w, Pow2(hi - 1), v % 2);
    assert v == v % 2 + 2 * w && Pow2(hi) == 2 * Pow2(hi - 1);
    assert y == v % 2 + 2 * (w % Pow2(hi - 1));
    hide Pow2;
    if lo > 0 {
      BitHalf(y, lo);
      BitHalf(v, lo);
      BitOfMod(w, hi - 1, lo - 1);
    } else {
      LowestBit(y);
      LowestBit(v);
    }
  }

  lemma KeepNext(v: nat, hi: nat, lo: nat)
    requires lo < hi
    ensures Keep(v, hi, lo) == Keep(v, hi, lo + 1) + BitOf(v, lo) * Pow2(lo)
  {
    BitOfMod(v, hi, lo);
    var y, p := v % Pow2(hi), Pow2(lo);
    var q := y / p;
    DivTwice(y, p);
    assert q == 2 * (q / 2) + q % 2;
    assert q * p == q / 2 * (2 * p) + q % 2 * p;
  }

  lemma DivTwice(y: nat, p: nat)
    requires p >= 1
    ensures y / (2 * p) == y / p / 2
  {
    var q, r := y / p, y % p;
    assert y == q * p + r && q == 2 * (q / 2) + q % 2;
    assert q * p == q / 2 * (2 * p) + q % 2 * p;
    assert q % 2 * p <= p;
    DivModUnique(y, 2 * p, q / 2, q % 2 * p + r);
  }

  lemma KeepNothing(v: nat, hi: nat)
    ensures Keep(v, hi, hi) == 0
  {
    DivModUnique(v % Pow2(hi), Pow2(hi), 0, v % Pow2(hi));
  }

  /** The lowest plane coded for a block. */
  function Cutoff(prec: nat, reach: int): (c: nat)
    ensures c <= prec && forall b :: 0 <= b < prec ==> (Enabled(prec, b, reach) <==> b >= c)
  {
    if reach <= 0 then prec else if reach >= prec then 0 else prec - reach
  }

  function KeptBlock(t: Tile, j: nat, lo: nat): (r: seq<nat>)
    requires ValidTile(t) && j < |t.emax|
    ensures |r| == BLOCK
  {
    seq<nat>(BLOCK, i requires 0 <= i < BLOCK => Keep(t.v[BLOCK * j + i], t.prec, lo))
  }

  function BlockOf(w: seq<nat>, j: nat): seq<nat>
    requires BLOCK * j + BLOCK <= |w|
  {
    w[BLOCK * j..BLOCK * j + BLOCK]
  }

  /** Planes of block `j` already passed when the loops stand at plane `bp - 1` of block `bi`. */
  function Level(t: Tile, bp: nat, bi: nat, j: nat): (lo: nat)
    requires j < |t.emax|
  {
    var d := if j < bi && bp > 0 then bp - 1 else bp;
    var c := Cutoff(t.prec, Reach(t, j));
    if d < c then c else d
  }

  ghost predicate Restored(t: Tile, w: seq<nat>, bp: nat, bi: nat) {
    && ValidTile(t) && |w| == |t.v|
    && forall j :: 0 <= j < |t.emax| ==> BlockOf(w, j) == KeptBlock(t, j, Level(t, bp, bi, j))
  }

  /** Depositing the next plane, or all of it but the last coefficient. */
  lemma DepositKept(t: Tile, j: nat, b: nat)
    requires ValidTile(t) && j < |t.emax| && b < t.prec
    ensures var plane := PlaneAt(t, j, b);
            && Deposit(KeptBlock(t, j, b + 1), b, 0, plane) == KeptBlock(t, j, b)
            && (plane[BLOCK - 1] ==>
                  && KeptBlock(t, j, b)[BLOCK - 1] >= Pow2(b)
                  && Deposit(KeptBlock(t, j, b + 1), b, 0, plane[..BLOCK - 1])
                     == KeptBlock(t, j, b)[BLOCK - 1 := KeptBlock(t, j, b)[BLOCK - 1] - Pow2(b)])
  {
    var plane := PlaneAt(t, j, b);
    forall i | 0 <= i < BLOCK
      ensures DepositAt(KeptBlock(t, j, b + 1)[i], i, b, 0, plane) == KeptBlock(t, j, b)[i]
    {
      KeepNext(t.v[BLOCK * j + i], t.prec, b);
      assert t.v[BLOCK * j..BLOCK * j + BLOCK][i] == t.v[BLOCK * j + i];
      assert BitOf(t.v[BLOCK * j + i], b) == Bit(plane[i]);
    }
  }

  // ---------------------------------------------------------------- the last plane of a tile

  /** The last plane coded, of which block, and whether its last call wrote nothing; none if the stream
      ends with a header. */
  datatype LastPlane = NoPlane | LastPlane(b: nat, bi: nat, silent: bool)

  function LastFrom(t: Tile, ns: seq<nat>, bp: nat, bi: nat, used: nat): LastPlane
    requires ValidTile(t) && Counts(ns, t) && bi <= |t.emax| && used < t.size
    decreases bp, |t.emax| - bi
  {
    if bp == 0 then NoPlane
    else if bi == |t.emax| then LastFrom(t, ns, bp - 1, 0, used)
    else
      var r := TurnAt(t, ns[bi], bp, bi, used);
      var ns' := ns[bi := r.n];
      if r.bits != [] && EncodeFrom(t, ns', bp, bi + 1, r.used) == [] then
        if r.coded then LastPlane(bp - 1, bi, r.silent) else NoPlane
      else LastFrom(t, ns', bp, bi + 1, r.used)
  }

  function LastOf(t: Tile): LastPlane
    requires ValidTile(t)
  {
    LastFrom(t, Fresh(t), t.prec, 0, 0)
  }

  lemma JobWrites(t: Tile, n: nat, b: nat, bi: nat, used: nat)
    requires ValidTile(t) && bi < |t.emax| && n <= BLOCK && used < t.size
    ensures JobAt(t, n, b, bi, used).bits != []
  {
    var plane, s := PlaneAt(t, bi, b), State(n, 0, false);
    OpenAtStart(plane, n);
    SilentCall(plane, s, t.size - used);
    hide EncodeCall;
  }

  lemma TurnWrites(t: Tile, n: nat, bp: nat, bi: nat, used: nat)
    requires ValidTile(t) && bi < |t.emax| && n <= BLOCK && used < t.size && bp > 0
    ensures var r, h := TurnAt(t, n, bp, bi, used), HeaderAt(t, bp, bi);
            && h <= r.bits && (r.fits && Enabled(t.prec, bp - 1, Reach(t, bi)) ==> r.coded && r.bits != [])
            && (r.bits == [] ==> h == [] && !r.hangs && r.fits && !r.coded)
  {
    hide JobAt, Header, Enabled;
    if used + |HeaderAt(t, bp, bi)| <= t.size {
      JobWrites(t, n, bp - 1, bi, Wrap(used + |HeaderAt(t, bp, bi)|, t.size));
    }
  }

  /** Nothing more is written exactly when every block has been brought to its cutoff. */
  lemma {:induction false} NothingLeft(t: Tile, ns: seq<nat>, bp: nat, bi: nat, used: nat)
    requires ValidTile(t) && Counts(ns, t) && bi <= |t.emax| && used < t.size && bp <= t.prec && (bp == 0 ==> bi == 0)
    requires EncodeFrom(t, ns, bp, bi, used) == []
    ensures forall j :: 0 <= j < |t.emax| ==> Level(t, bp, bi, j) == Cutoff(t.prec, Reach(t, j))
    ensures !TripsFrom(t, ns, bp, bi, used) && (0 < bp == t.prec ==> bi == |t.emax|)
    decreases bp, |t.emax| - bi
  {
    hide TurnAt;
    if bp > 0 {
      if bi == |t.emax| {
        NothingLeft(t, ns, bp - 1, 0, used);
      } else {
        var r := TurnAt(t, ns[bi], bp, bi, used);
        TurnWrites(t, ns[bi], bp, bi, used);
        NothingLeft(t, ns[bi := r.n], bp, bi + 1, r.used);
      }
    }
  }

  // ---------------------------------------------------------------- where the reader leaves its chunk

  /** A header without a plane fills a chunk, and another header follows: the chunk is handed over, but
      the reader goes to the next one only when it has a plane to decode. */
  predicate TripsFrom(t: Tile, ns: seq<nat>, bp: nat, bi: nat, used: nat)
    requires ValidTile(t) && Counts(ns, t) && bi <= |t.emax| && used < t.size
    decreases bp, |t.emax| - bi
  {
    if bp == 0 then false
    else if bi == |t.emax| then TripsFrom(t, ns, bp - 1, 0, used)
    else
      var r := TurnAt(t, ns[bi], bp, bi, used);
      (r.hangs && bi + 1 < |t.emax|) || TripsFrom(t, ns[bi := r.n], bp, bi + 1, r.used)
  }

  predicate Trips(t: Tile)
    requires ValidTile(t)
  {
    TripsFrom(t, Fresh(t), t.prec, 0, 0)
  }

  /** The same for a reader at bit `pos` of a chunk, perhaps at its very end. */
  predicate TripsAhead(t: Tile, ns: seq<nat>, bp: nat, bi: nat, pos: nat)
    requires ValidTile(t) && Counts(ns, t) && bi <= |t.emax| && pos <= t.size
  {
    (pos == t.size && bp == t.prec && bi < |t.emax|) || TripsFrom(t, ns, bp, bi, Wrap(pos, t.size))
  }

  // ---------------------------------------------------------------- reading a tile

  /** The exponent of a block as it comes back: of an insignificant block, two below the tolerance. */
  function ReadBack(t: Tile, j: nat): int
    requires j < |t.emax|
  {
    if Reach(t, j) >= 0 then t.emax[j] else t.tol - 2
  }

  /** The exponents read when the loops stand at plane `bp - 1` of block `bi`. */
  ghost predicate Known(t: Tile, em: seq<int>, bp: nat, bi: nat) {
    |em| == |t.emax| && forall j :: 0 <= j < |em| && (bp < t.prec || j < bi) ==> em[j] == ReadBack(t, j)
  }

  /** The loops stand before plane `bp - 1` of block `bi`, with the rest of the tile ahead. */
  ghost predicate Standing(t: Tile, w: seq<nat>, ns: seq<nat>, em: seq<int>, bp: nat, bi: nat, pos: nat, ahead: Bits,
                           pad: Bits, last: LastPlane) {
    && Restored(t, w, bp, bi) && Counts(ns, t) && Known(t, em, bp, bi)
    && bi <= |t.emax| && pos <= t.size && bp <= t.prec && Follows(t, ns, bp, bi, Wrap(pos, t.size), ahead, pad, last)
  }

  /** What lies ahead in the stream. */
  ghost predicate Follows(t: Tile, ns: seq<nat>, bp: nat, bi: nat, used: nat, ahead: Bits, pad: Bits, last: LastPlane)
    requires ValidTile(t) && Counts(ns, t) && bi <= |t.emax| && used < t.size
  {
    var rest := EncodeFrom(t, ns, bp, bi, used);
    && ahead == rest + pad && FitsFrom(t, ns, bp, bi, used)
    && if rest == [] then pad != [] || last.NoPlane? else LastFrom(t, ns, bp, bi, used) == last
  }

  /** The tile as it should be: every block down to its cutoff. */
  ghost predicate Whole(t: Tile, w: seq<nat>) {
    && ValidTile(t) && |w| == |t.v|
    && forall j :: 0 <= j < |t.emax| ==> BlockOf(w, j) == KeptBlock(t, j, Cutoff(t.prec, Reach(t, j)))
  }

  /** The same, but coefficient 63 of the last block coded lacks the last plane. */
  ghost predicate WholeButOneBit(t: Tile, w: seq<nat>, last: LastPlane) {
    && ValidTile(t) && |w| == |t.v| && last.LastPlane? && last.bi < |t.emax| && last.b == Cutoff(t.prec, Reach(t, last.bi))
    && (forall j :: 0 <= j < |t.emax| && j != last.bi ==> BlockOf(w, j) == KeptBlock(t, j, Cutoff(t.prec, Reach(t, j))))
    && var kept := KeptBlock(t, last.bi, last.b);
       kept[BLOCK - 1] >= Pow2(last.b)
       && BlockOf(w, last.bi) == kept[BLOCK - 1 := kept[BLOCK - 1] - Pow2(last.b)]
  }

  /** What the coefficients are in the end: `tight` when the last chunk carries no padding. */
  ghost predicate Outcome(t: Tile, w: seq<nat>, last: LastPlane, tight: bool) {
    if tight && last.LastPlane? && last.silent then WholeButOneBit(t, w, last) else Whole(t, w)
  }

  /** The two outcomes exclude each other. */
  lemma OneBitIsMissing(t: Tile, w: seq<nat>, last: LastPlane)
    requires WholeButOneBit(t, w, last)
    ensures !Whole(t, w)
  {
    var kept := KeptBlock(t, last.bi, last.b);
    assert BlockOf(w, last.bi)[BLOCK - 1] == kept[BLOCK - 1] - Pow2(last.b);
  }

  /** Only block `bi` has changed. */
  lemma BlockChanged(t: Tile, w: seq<nat>, w': seq<nat>, bi: nat)
    requires ValidTile(t) && |w| == |w'| == |t.v| && bi < |t.emax|
    requires forall i :: 0 <= i < BLOCK * bi || BLOCK * bi + BLOCK <= i < |w| ==> w'[i] == w[i]
    ensures forall j :: 0 <= j < |t.emax| && j != bi ==> BlockOf(w', j) == BlockOf(w, j)
  {
  }

  lemma AdvanceRestored(t: Tile, w: seq<nat>, w': seq<nat>, bp: nat, bi: nat)
    requires Restored(t, w, bp, bi) && |w'| == |w| && bi < |t.emax| && 0 < bp <= t.prec
    requires forall j :: 0 <= j < |t.emax| && j != bi ==> BlockOf(w', j) == BlockOf(w, j)
    requires BlockOf(w', bi) == if Enabled(t.prec, bp - 1, Reach(t, bi)) then KeptBlock(t, bi, bp - 1) else BlockOf(w, bi)
    ensures Restored(t, w', bp, bi + 1)
  {
    hide KeptBlock, BlockOf;
    forall j | 0 <= j < |t.emax| ensures BlockOf(w', j) == KeptBlock(t, j, Level(t, bp, bi + 1, j)) {
      if j != bi { assert Level(t, bp, bi + 1, j) == Level(t, bp, bi, j); }
    }
  }

  /** One turn takes its bits from the front of what lies ahead. */
  lemma FollowsTurn(t: Tile, ns: seq<nat>, bp: nat, bi: nat, used: nat, ahead: Bits, pad: Bits, last: LastPlane)
    requires ValidTile(t) && Counts(ns, t) && bi < |t.emax| && used < t.size && bp > 0
    requires Follows(t, ns, bp, bi, used, ahead, pad, last)
    ensures var r, h := TurnAt(t, ns[bi], bp, bi, used), HeaderAt(t, bp, bi);
            var ns' := ns[bi := r.n];
            var rest := EncodeFrom(t, ns', bp, bi + 1, r.used);
            && r.fits && h <= r.bits && h <= ahead && ahead[|h|..] == r.bits[|h|..] + (rest + pad)
            && (rest != [] || pad != [] || !r.coded ==> Follows(t, ns', bp, bi + 1, r.used, rest + pad, pad, last))
            && (rest == [] && r.coded ==> last == LastPlane(bp - 1, bi, r.silent))
            && (TripsFrom(t, ns, bp, bi, used) <==>
                  (r.hangs && bi + 1 < |t.emax|) || TripsFrom(t, ns', bp, bi + 1, r.used))
  {
    hide TurnAt, Header, Enabled;
    TurnWrites(t, ns[bi], bp, bi, used);
    CodedWrites(t, ns[bi], bp, bi, used);
    var r, h := TurnAt(t, ns[bi], bp, bi, used), HeaderAt(t, bp, bi);
    var rest := EncodeFrom(t, ns[bi := r.n], bp, bi + 1, r.used);
    assert r.bits + rest + pad == r.bits + (rest + pad);
    assert r.bits == h + r.bits[|h|..];
  }

  lemma CodedWrites(t: Tile, n: nat, bp: nat, bi: nat, used: nat)
    requires ValidTile(t) && bi < |t.emax| && n <= BLOCK && used < t.size && bp > 0
    ensures TurnAt(t, n, bp, bi, used).coded ==> TurnAt(t, n, bp, bi, used).bits != []
  {
    hide JobAt, Header;
    TurnWrites(t, n, bp, bi, used);
  }

  lemma StandingNextPlane(t: Tile, w: seq<nat>, ns: seq<nat>, em: seq<int>, bp: nat, pos: nat, ahead: Bits, pad: Bits, last: LastPlane)
    requires ValidTile(t) && Standing(t, w, ns, em, bp, |t.emax|, pos, ahead, pad, last) && bp > 0
    ensures Standing(t, w, ns, em, bp - 1, 0, pos, ahead, pad, last)
    ensures TripsAhead(t, ns, bp, |t.emax|, pos) == TripsAhead(t, ns, bp - 1, 0, pos)
  {
    hide KeptBlock, BlockOf, TurnAt;
    forall j | 0 <= j < |t.emax| ensures BlockOf(w, j) == KeptBlock(t, j, Level(t, bp - 1, 0, j)) {
      assert Level(t, bp, |t.emax|, j) == Level(t, bp - 1, 0, j);
    }
  }

  /** The chunks ran out: either the tile is whole, or one bit is missing. */
  lemma RanOut(t: Tile, w: seq<nat>, w': seq<nat>, ns: seq<nat>, bp: nat, bi: nat, used: nat, full: bool)
    requires Restored(t, w, bp, bi) && |w'| == |w| && bi < |t.emax| && 0 < bp <= t.prec
    requires Counts(ns, t) && used < t.size && EncodeFrom(t, ns, bp, bi + 1, used) == []
    requires Enabled(t.prec, bp - 1, Reach(t, bi))
    requires forall j :: 0 <= j < |t.emax| && j != bi ==> BlockOf(w', j) == BlockOf(w, j)
    requires var kept := KeptBlock(t, bi, bp - 1);
             if full then BlockOf(w', bi) == kept
             else kept[BLOCK - 1] >= Pow2(bp - 1) && BlockOf(w', bi) == kept[BLOCK - 1 := kept[BLOCK - 1] - Pow2(bp - 1)]
    ensures if full then Whole(t, w') else WholeButOneBit(t, w', LastPlane(bp - 1, bi, true))
    ensures !TripsFrom(t, ns, bp, bi + 1, used) && (bp < t.prec || bi + 1 == |t.emax|)
  {
    hide KeptBlock, BlockOf, Enabled, EncodeFrom, TripsFrom, Reach;
    NothingLeft(t, ns, bp, bi + 1, used);
    forall j | 0 <= j < |t.emax| && j != bi ensures BlockOf(w', j) == KeptBlock(t, j, Cutoff(t.prec, Reach(t, j))) {
      assert Level(t, bp, bi + 1, j) == Level(t, bp, bi, j);
    }
    assert Level(t, bp, bi + 1, bi) == bp - 1;
  }

  lemma {:induction false} WordOfLowBits(x: nat, n: nat)
    requires x < Pow2(n)
    ensures Word(LowBits(x, n)) == x
    decreases n
  {
    if n > 0 {
      assert LowBits(x, n)[1..] == LowBits(x / 2, n - 1);
      WordOfLowBits(x / 2, n - 1);
    }
  }

  /** `ReadEMax`. */
  method ReadEMax(ghost t: Tile, ghost bi: nat, tol: int, expBits: nat, bs: BitReader) returns (emax: int)
    requires ValidTile(t) && bi < |t.emax| && tol == t.tol && expBits == t.expBits
    requires bs.pos + |Header(t, bi)| <= |bs.stream| && Header(t, bi) <= bs.stream[bs.pos..]
    modifies bs
    ensures bs.pos == old(bs.pos) + |Header(t, bi)| && emax == ReadBack(t, bi)
  {
    ghost var h, p := Header(t, bi), bs.pos;
    assert bs.stream[p] == h[0];
    var significant := bs.Read();
    if significant {
      assert bs.stream[p + 1..p + 1 + expBits] == h[1..];
      WordOfLowBits(t.emax[bi] + Bias(expBits), expBits);
      var e := bs.ReadLong(expBits);
      return e - Bias(expBits);
    }
    return tol - 2;
  }

  /** The block's exponent says which of its planes are coded, also when it is not the true one. */
  lemma ReadBackEnables(t: Tile, j: nat, b: nat)
    requires j < |t.emax| && b < t.prec
    ensures Enabled(t.prec, b, ReadBack(t, j) - t.tol + 1) <==> Enabled(t.prec, b, Reach(t, j))
  {
  }

  /** The header of the turn, if it has one: `inside` unless the chunk is exhausted. */
  method ReadHeader(ghost t: Tile, prec: nat, tol: int, expBits: nat, size: nat, emaxes: array<int>, bp: nat, bi: nat,
                    stored: seq<Bits>, ci: nat, bs: BitReader, ghost ahead: Bits)
    returns (inside: bool)
    requires ValidTile(t) && prec == t.prec && tol == t.tol && expBits == t.expBits && size == t.size
    requires bi < |t.emax| && Known(t, emaxes[..], bp, bi) && ReaderAt(stored, ci, bs, size) && ci < |stored|
    requires ahead == Ahead(stored, ci, bs.pos) && 0 < bp <= prec && HeaderAt(t, bp, bi) <= ahead
    requires Wrap(bs.pos, size) + |HeaderAt(t, bp, bi)| <= size
    modifies emaxes, bs
    ensures inside <==> !(old(bs.pos) == size && bp == prec)
    ensures inside ==> bs.pos == old(bs.pos) + |HeaderAt(t, bp, bi)| <= size && Known(t, emaxes[..], bp, bi + 1)
    ensures inside ==> |HeaderAt(t, bp, bi)| <= |ahead| && Ahead(stored, ci, bs.pos) == ahead[|HeaderAt(t, bp, bi)|..]
    ensures bi < emaxes.Length && (inside ==> emaxes[bi] == ReadBack(t, bi))
  {
    hide Header, Flat;
    inside := true;
    ghost var p, k := bs.pos, |HeaderAt(t, bp, bi)|;
    if bp == prec {
      if bs.pos == size { return false; }
      assert bs.stream == stored[ci];
      AheadLater(stored, ci, p, k);
      assert HeaderAt(t, bp, bi) <= stored[ci][p..];
      ghost var em := emaxes[..];
      var e := ReadEMax(t, bi, tol, expBits, bs);
      emaxes[bi] := e;
      assert emaxes[..] == em[bi := e];
    } else {
      assert ahead[0..] == ahead && emaxes[..][bi] == emaxes[bi];
    }
  }

  /** Block `bi` with one more plane, all of it or all but coefficient 63. */
  ghost predicate OneMore(t: Tile, w: seq<nat>, w': seq<nat>, bp: nat, bi: nat, full: bool)
    requires ValidTile(t) && bi < |t.emax| && |w| == |w'| == |t.v| && bp > 0
  {
    var kept := KeptBlock(t, bi, bp - 1);
    && (forall j :: 0 <= j < |t.emax| && j != bi ==> BlockOf(w', j) == BlockOf(w, j))
    && if full then BlockOf(w', bi) == kept
       else kept[BLOCK - 1] >= Pow2(bp - 1) && BlockOf(w', bi) == kept[BLOCK - 1 := kept[BLOCK - 1] - Pow2(bp - 1)]
  }

  /** The plane of a turn. */
  method ReadCoded(ghost t: Tile, size: nat, uints: array<nat>, ns: array<nat>, bp: nat, bi: nat,
                   stored: seq<Bits>, ci0: nat, bs0: BitReader, ghost behind: Bits)
    returns (ci: nat, bs: BitReader, ghost full: bool)
    requires ValidTile(t) && size == t.size && uints != ns && uints.Length == |t.v| && Counts(ns[..], t)
    requires bi < |t.emax| && 0 < bp <= t.prec && Enabled(t.prec, bp - 1, Reach(t, bi)) && Restored(t, uints[..], bp, bi)
    requires ReaderAt(stored, ci0, bs0, size) && ci0 < |stored|
    requires Ahead(stored, ci0, bs0.pos) == JobAt(t, ns[bi], bp - 1, bi, Wrap(bs0.pos, size)).bits + behind
    modifies uints, ns, bs0
    ensures var o := JobAt(t, old(ns[bi]), bp - 1, bi, Wrap(old(bs0.pos), size));
            && full == !(o.silent && behind == []) && (ci < |stored| ==> bs.pos == o.used < size)
            && (ci < |stored| ==> ns[..] == old(ns[..])[bi := o.n])
    ensures ReaderAt(stored, ci, bs, size) && (bs == bs0 || fresh(bs)) && AheadOf(stored, ci, bs) == behind
    ensures OneMore(t, old(uints[..]), uints[..], bp, bi, full) && (!full ==> ci == |stored|)
  {
    hide Restored, EncodeJob, KeptBlock, Flat, Deposit, Ahead;
    var k := BLOCK * bi;
    ghost var w := uints[..];
    RestoredHere(t, w, bp, bi);
    var n, whole;
    ci, bs, n, whole := ReadPlane(uints, k, bp - 1, ns[bi], size, stored, ci0, bs0, PlaneAt(t, bi, bp - 1), behind);
    ns[bi] := n;
    full := whole;
    DepositKept(t, bi, bp - 1);
    assert w[k..k + BLOCK] == KeptBlock(t, bi, bp);
    BlockChanged(t, w, uints[..], bi);
  }

  /** The turn for plane `bp - 1` of block `bi`; `ci` is past the end when the chunks ran out. */
  method ReadBlock(ghost t: Tile, prec: nat, tol: int, expBits: nat, size: nat, uints: array<nat>, ns: array<nat>,
                   emaxes: array<int>, bp: nat, bi: nat, stored: seq<Bits>, ci0: nat, bs0: BitReader,
                   ghost pad: Bits, ghost last: LastPlane)
    returns (inside: bool, ci: nat, bs: BitReader)
    requires ValidTile(t) && prec == t.prec && tol == t.tol && expBits == t.expBits && size == t.size && uints != ns
    requires 0 < bp && bi < |t.emax| && ReaderAt(stored, ci0, bs0, size) && ci0 < |stored| && uints.Length == |t.v|
    requires Standing(t, uints[..], ns[..], emaxes[..], bp, bi, bs0.pos, Ahead(stored, ci0, bs0.pos), pad, last)
    modifies uints, ns, emaxes, bs0
    ensures inside <==> !(old(bs0.pos) == size && bp == prec)
    ensures inside ==> ReaderAt(stored, ci, bs, size) && (bs == bs0 || fresh(bs))
    ensures inside && ci < |stored| ==>
              && Standing(t, uints[..], ns[..], emaxes[..], bp, bi + 1, bs.pos, Ahead(stored, ci, bs.pos), pad, last)
              && TripsAhead(t, ns[..], bp, bi + 1, bs.pos) == old(TripsAhead(t, ns[..], bp, bi, bs0.pos))
    ensures inside && ci == |stored| ==>
              && pad == [] && last.LastPlane? && last.b == bp - 1 && last.bi == bi
              && Outcome(t, uints[..], last, true) && !old(TripsAhead(t, ns[..], bp, bi, bs0.pos))
              && Known(t, emaxes[..], 0, 0)
  {
    hide Restored, EncodeFrom, LastFrom, FitsFrom, TripsFrom, EncodeJob, KeptBlock, Flat, Deposit, Ahead, Whole, WholeButOneBit, Header;
    hide Follows, Known, ReadBack;
    ci, bs := ci0, bs0;
    ghost var w, n0, used, ahead := uints[..], ns[..], Wrap(bs0.pos, size), Ahead(stored, ci0, bs0.pos);
    FollowsTurn(t, n0, bp, bi, used, ahead, pad, last);
    ghost var r, h := TurnAt(t, n0[bi], bp, bi, used), HeaderAt(t, bp, bi);
    ghost var rest := EncodeFrom(t, n0[bi := r.n], bp, bi + 1, r.used);
    inside := ReadHeader(t, prec, tol, expBits, size, emaxes, bp, bi, stored, ci, bs, ahead);
    if !inside { return; }
    ReadBackEnables(t, bi, bp - 1);
    if !Enabled(prec, bp - 1, emaxes[bi] - tol + 1) {
      assert r.bits[|h|..] == [];
      assert [] + (rest + pad) == rest + pad;
      assert ns[..] == n0[bi := r.n];
      AdvanceRestored(t, w, w, bp, bi);
      return;
    }
    assert r.bits[|h|..] == JobAt(t, n0[bi], bp - 1, bi, Wrap(bs.pos, size)).bits;
    ghost var full;
    ci, bs, full := ReadCoded(t, size, uints, ns, bp, bi, stored, ci, bs, rest + pad);
    if ci == |stored| {
      RanOut(t, w, uints[..], n0[bi := r.n], bp, bi, r.used, full);
      AllKnown(t, emaxes[..], bp, bi + 1);
    } else {
      AdvanceRestored(t, w, uints[..], bp, bi);
      AheadNotEmpty(stored, ci, bs.pos, size);
    }
  }

  lemma AllKnown(t: Tile, em: seq<int>, bp: nat, bi: nat)
    requires Known(t, em, bp, bi) && (bp < t.prec || bi == |t.emax|)
    ensures Known(t, em, 0, 0)
  {
  }

  lemma RestoredHere(t: Tile, w: seq<nat>, bp: nat, bi: nat)
    requires Restored(t, w, bp, bi) && bi < |t.emax| && 0 < bp <= t.prec && Enabled(t.prec, bp - 1, Reach(t, bi))
    ensures BlockOf(w, bi) == KeptBlock(t, bi, bp)
  {
    hide KeptBlock, BlockOf;
    assert Level(t, bp, bi, bi) == bp;
  }

  /** Nothing lies ahead but padding: the tile is whole. */
  lemma StandingAtEnd(t: Tile, w: seq<nat>, ns: seq<nat>, em: seq<int>, pos: nat, ahead: Bits, pad: Bits, last: LastPlane)
    requires Standing(t, w, ns, em, 0, 0, pos, ahead, pad, last)
    ensures Whole(t, w) && (pad != [] || last.NoPlane?) && Outcome(t, w, last, pad == [])
    ensures t.prec > 0 ==> Known(t, em, 0, 0) && !TripsAhead(t, ns, 0, 0, pos)
  {
    hide KeptBlock, BlockOf, Enabled;
    forall j | 0 <= j < |t.emax| ensures BlockOf(w, j) == KeptBlock(t, j, Cutoff(t.prec, Reach(t, j))) {
      assert Level(t, 0, 0, j) == Cutoff(t.prec, Reach(t, j));
    }
  }

  lemma StandingAtStart(t: Tile, w: seq<nat>, em: seq<int>, stored: seq<Bits>, pad: Bits)
    requires ValidTile(t) && HeadersFit(t) && |w| == |t.v| && |em| == |t.emax|
    requires stored != [] && AllFull(stored, t.size) && Flat(stored) == EncodeTile(t) + pad
    requires forall i :: 0 <= i < |w| ==> w[i] == 0
    ensures Standing(t, w, Fresh(t), em, t.prec, 0, 0, Ahead(stored, 0, 0), pad, LastOf(t))
    ensures TripsAhead(t, Fresh(t), t.prec, 0, 0) == Trips(t)
  {
    hide EncodeFrom, LastFrom, FitsFrom, TripsFrom;
    FlatCons(stored);
    assert stored[0][0..] == stored[0];
    FlatNotEmpty(stored, t.size);
    hide Flat;
    forall j | 0 <= j < |t.emax| ensures BlockOf(w, j) == KeptBlock(t, j, Level(t, t.prec, 0, j)) {
      assert Level(t, t.prec, 0, j) == t.prec;
      forall i | 0 <= i < BLOCK ensures BlockOf(w, j)[i] == KeptBlock(t, j, t.prec)[i] {
        KeepNothing(t.v[BLOCK * j + i], t.prec);
      }
    }
  }

  lemma FlatNotEmpty(stored: seq<Bits>, size: nat)
    requires stored != [] && AllFull(stored, size) && size > 0
    ensures Flat(stored) != []
  {
  }

  /** A block is shown (transformed back and copied out) at its lowest plane, or when the chunks run
      out during its turn. */
  ghost predicate Shown(shown: seq<bool>, last: LastPlane, tight: bool) {
    forall j :: 0 <= j < |shown| ==>
      (shown[j] <==> !tight || last.NoPlane? || j == last.bi || (last.b == 0 && j < last.bi))
  }

  /** Read a tile from chunks that carry its stream, followed by padding up to a whole chunk: `inside`
      unless a header is looked for behind the end of a chunk. */
  method DecompressTile(ghost t: Tile, prec: nat, tol: int, expBits: nat, size: nat, uints: array<nat>, ns: array<nat>,
                        emaxes: array<int>, stored: seq<Bits>, ghost pad: Bits)
    returns (inside: bool, shown: seq<bool>)
    requires ValidTile(t) && HeadersFit(t) && prec == t.prec > 0 && tol == t.tol && expBits == t.expBits && size == t.size
    requires uints.Length == |t.v| && uints != ns && forall i :: 0 <= i < uints.Length ==> uints[i] == 0
    requires emaxes.Length == ns.Length == |t.emax| && forall i :: 0 <= i < ns.Length ==> ns[i] == 0
    requires stored != [] && AllFull(stored, size) && Flat(stored) == EncodeTile(t) + pad
    modifies uints, ns, emaxes
    ensures inside <==> !Trips(t)
    ensures inside ==> Outcome(t, uints[..], LastOf(t), pad == [])
    ensures inside ==> forall j :: 0 <= j < |t.emax| ==> emaxes[j] == ReadBack(t, j)
    ensures |shown| == |t.emax| && (inside ==> Shown(shown, LastOf(t), pad == []))
  {
    hide Standing, Ahead, Whole, WholeButOneBit, LastOf, Flat, EncodeTile, FitsFrom, Trips, TripsAhead, Known, Outcome;
    StandingAtStart(t, uints[..], emaxes[..], stored, pad);
    assert ns[..] == Fresh(t);
    ghost var last := LastOf(t);
    var ci: nat := 0;
    var bs := new BitReader(stored[0]);
    inside, shown := true, seq(ns.Length, _ => false);
    var bp: nat := prec;
    while bp > 0
      invariant bp <= prec && ReaderAt(stored, ci, bs, size) && ci < |stored| && fresh(bs) && |shown| == ns.Length && inside
      invariant Standing(t, uints[..], ns[..], emaxes[..], bp, 0, bs.pos, Ahead(stored, ci, bs.pos), pad, last)
      invariant Counts(ns[..], t) && TripsAhead(t, ns[..], bp, 0, bs.pos) == Trips(t)
      invariant forall j :: 0 <= j < |shown| ==> (shown[j] <==> bp == 0)
    {
      var bi: nat := 0;
      while bi < ns.Length
        invariant bi <= ns.Length && ReaderAt(stored, ci, bs, size) && ci < |stored| && fresh(bs) && |shown| == ns.Length
        invariant Standing(t, uints[..], ns[..], emaxes[..], bp, bi, bs.pos, Ahead(stored, ci, bs.pos), pad, last)
        invariant Counts(ns[..], t) && TripsAhead(t, ns[..], bp, bi, bs.pos) == Trips(t) && inside
        invariant forall j :: 0 <= j < |shown| ==> (shown[j] <==> bp == 1 && j < bi)
      {
        StandingIs(t, uints[..], ns[..], emaxes[..], bp, bi, bs.pos, Ahead(stored, ci, bs.pos), pad, last);
        inside, ci, bs := ReadBlock(t, prec, tol, expBits, size, uints, ns, emaxes, bp, bi, stored, ci, bs, pad, last);
        if !inside { return; }
        var lastChunk := ci == |stored|;
        if bp - 1 == 0 || lastChunk { shown := shown[bi := true]; }
        if lastChunk {
          KnownMeans(t, emaxes[..]);
          return;
        }
        StandingIs(t, uints[..], ns[..], emaxes[..], bp, bi + 1, bs.pos, Ahead(stored, ci, bs.pos), pad, last);
        bi := bi + 1;
      }
      StandingNextPlane(t, uints[..], ns[..], emaxes[..], bp, bs.pos, Ahead(stored, ci, bs.pos), pad, last);
      bp := bp - 1;
    }
    StandingAtEnd(t, uints[..], ns[..], emaxes[..], bs.pos, Ahead(stored, ci, bs.pos), pad, last);
    KnownMeans(t, emaxes[..]);
  }

  lemma KnownMeans(t: Tile, em: seq<int>)
    requires Known(t, em, 0, 0) && t.prec > 0
    ensures |em| == |t.emax| && forall j :: 0 <= j < |t.emax| ==> em[j] == ReadBack(t, j)
  {
  }

  lemma StandingIs(t: Tile, w: seq<nat>, ns: seq<nat>, em: seq<int>, bp: nat, bi: nat, pos: nat, ahead: Bits, pad: Bits, last: LastPlane)
    requires Standing(t, w, ns, em, bp, bi, pos, ahead, pad, last)
    ensures ValidTile(t) && Counts(ns, t) && bi <= |t.emax| && pos <= t.size
    ensures bi < |t.emax| && pos == t.size && bp == t.prec ==> TripsAhead(t, ns, bp, bi, pos)
  {
  }

  lemma AheadNotEmpty(stored: seq<Bits>, ci: nat, pos: nat, size: nat)
    requires ci < |stored| && AllFull(stored, size) && pos < size
    ensures Ahead(stored, ci, pos) != []
  {
  }
}
