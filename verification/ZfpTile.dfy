/** The loops that spread the bit planes of a tile over fixed-size chunks, and read them back.

    Planes go from the most significant down, and in each plane over the blocks; in front of its first
    plane, each block has the exponent of its largest value. Whatever the size of a chunk (at least a
    byte), a plane is cut where a chunk is full and resumed in the next one. */
module ZfpTile {
  import opened ZfpBits
  import opened ZfpPlane
  import opened ZfpCoder

  /** Which bit planes of a block are coded: `reach` is EMax - Exponent(Tolerance) + 1. */
  predicate Enabled(prec: nat, bp: nat, reach: int) { prec - bp <= reach }

  // ---------------------------------------------------------------- one plane of one block

  /** What coding a plane adds to the stream, when `used` of the `size` bits of the chunk are taken:
      the bits, the new `N`, the new `used`, and whether the last call had nothing to write. */
  datatype Job = Job(bits: Bits, n: nat, used: nat, silent: bool)

  function Wrap(used: nat, size: nat): nat { if used == size then 0 else used }

  predicate Open(plane: Bits, s: State)
    requires |plane| == BLOCK
  {
    Fits(plane, s) && s.m < BLOCK
  }

  function EncodeJob(plane: Bits, s: State, used: nat, size: nat): (o: Job)
    requires |plane| == BLOCK && Open(plane, s) && used < size && 2 <= size
    ensures o.used < size && o.n <= BLOCK
    decreases used > 0, CallNeed(plane, s)
  {
    CallStops(plane, s, size - used);
    var c := EncodeCall(plane, s, size - used);
    if c.done then Job(c.bits, c.state.n, Wrap(used + |c.bits|, size), c.bits == [])
    else
      NotDoneIsOpen(plane, s, size - used);
      var later := EncodeJob(plane, c.state, 0, size);
      later.(bits := c.bits + later.bits)
  }

  lemma NotDoneIsOpen(plane: Bits, s: State, r: nat)
    requires |plane| == BLOCK && Open(plane, s) && !EncodeCall(plane, s, r).done
    ensures Open(plane, EncodeCall(plane, s, r).state)
  {
    CallStops(plane, s, r);
    hide EncRun, HasOne;
  }

  /** A call with budget writes something, except in one situation: the last call was cut right
      after the group bit of coefficient 63, whose own bit is never written. */
  lemma SilentCall(plane: Bits, s: State, r: nat)
    requires |plane| == BLOCK && Open(plane, s) && r >= 1
    ensures EncodeCall(plane, s, r).bits == [] <==> s.inner && s.n == BLOCK - 1
    ensures s.inner && s.n == BLOCK - 1 ==> EncodeCall(plane, s, r) == Coded([], State(BLOCK, BLOCK, true), true)
    ensures s.inner && s.n == BLOCK - 1 ==> plane[BLOCK - 1]
  {
    var x := plane[s.n..];
    if s.inner {
      if s.n == BLOCK - 1 {
        assert x[1..] == [] && x[0] == plane[BLOCK - 1];
        assert EncInner(x, r) == Run([], 1, false, false);
        assert plane[s.m..s.m] + [] == [];
      } else {
        assert EncInner(x, r).bits != [];
      }
    } else if s.n == s.m {
      assert EncOuter(x, r).bits != [];
    }
  }

  // ---------------------------------------------------------------- the stream of a tile

  /** A tile: coefficients of its blocks, 64 each, the number of planes, the exponents of the blocks and
      of the tolerance, the width of a stored exponent, and the size of a chunk in bits. */
  datatype Tile = Tile(v: seq<nat>, prec: nat, emax: seq<int>, tol: int, expBits: nat, size: nat)

  function Bias(expBits: nat): int { if expBits == 0 then 0 else Pow2(expBits - 1) - 1 }

  function Reach(t: Tile, bi: nat): int
    requires bi < |t.emax|
  {
    t.emax[bi] - t.tol + 1
  }

  predicate ValidTile(t: Tile) {
    && |t.v| == BLOCK * |t.emax| && t.size >= 8
    && forall bi :: 0 <= bi < |t.emax| ==> Reach(t, bi) >= 0 ==> 0 <= t.emax[bi] + Bias(t.expBits) < Pow2(t.expBits)
  }

  /** What `Finalize` demands of the chunk size: room for all exponents. */
  predicate LargeEnough(t: Tile) { t.size >= |t.emax| * t.expBits }

  predicate Counts(ns: seq<nat>, t: Tile) {
    |ns| == |t.emax| && forall i :: 0 <= i < |ns| ==> ns[i] <= BLOCK
  }

  function PlaneAt(t: Tile, bi: nat, b: nat): (plane: Bits)
    requires ValidTile(t) && bi < |t.emax|
    ensures |plane| == BLOCK
  {
    PlaneOf(t.v[BLOCK * bi..BLOCK * bi + BLOCK], b)
  }

  function JobAt(t: Tile, n: nat, b: nat, bi: nat, used: nat): (o: Job)
    requires ValidTile(t) && bi < |t.emax| && n <= BLOCK && used < t.size
    ensures o.used < t.size && o.n <= BLOCK
  {
    EncodeJob(PlaneAt(t, bi, b), State(n, 0, false), used, t.size)
  }

  /** `WriteEMax`: a bit that says whether the block is significant, and if so the biased exponent. */
  function Header(t: Tile, bi: nat): (h: Bits)
    requires ValidTile(t) && bi < |t.emax|
    ensures |h| == if Reach(t, bi) >= 0 then 1 + t.expBits else 1
  {
    if Reach(t, bi) >= 0 then [true] + LowBits(t.emax[bi] + Bias(t.expBits), t.expBits) else [false]
  }

  function HeaderAt(t: Tile, bp: nat, bi: nat): Bits
    requires ValidTile(t) && bi < |t.emax|
  {
    if bp == t.prec then Header(t, bi) else []
  }

  /** What one turn of the block loop adds to the stream: the bits, the new `N`, the new `used`; whether a
      plane was coded and its last call had nothing to write; whether the header fits into the chunk; and
      whether a header without a plane fills the chunk. */
  datatype Turn = Turn(bits: Bits, n: nat, used: nat, coded: bool, silent: bool, fits: bool, hangs: bool)

  function TurnAt(t: Tile, n: nat, bp: nat, bi: nat, used: nat): (r: Turn)
    requires ValidTile(t) && bi < |t.emax| && n <= BLOCK && used < t.size && bp > 0
    ensures r.used < t.size && r.n <= BLOCK
  {
    var h := HeaderAt(t, bp, bi);
    var u := used + |h|;
    if u > t.size then Turn(h, n, 0, false, false, false, false)
    else if !Enabled(t.prec, bp - 1, Reach(t, bi)) then Turn(h, n, Wrap(u, t.size), false, false, true, u == t.size)
    else
      var o := JobAt(t, n, bp - 1, bi, Wrap(u, t.size));
      Turn(h + o.bits, o.n, o.used, true, o.silent, true, false)
  }

  /** All bits from plane `bp - 1` of block `bi` on, the planes below and the later blocks. */
  function EncodeFrom(t: Tile, ns: seq<nat>, bp: nat, bi: nat, used: nat): Bits
    requires ValidTile(t) && Counts(ns, t) && bi <= |t.emax| && used < t.size
    decreases bp, |t.emax| - bi
  {
    if bp == 0 then []
    else if bi == |t.emax| then EncodeFrom(t, ns, bp - 1, 0, used)
    else
      var r := TurnAt(t, ns[bi], bp, bi, used);
      r.bits + EncodeFrom(t, ns[bi := r.n], bp, bi + 1, r.used)
  }

  /** No header crosses the end of a chunk. */
  predicate FitsFrom(t: Tile, ns: seq<nat>, bp: nat, bi: nat, used: nat)
    requires ValidTile(t) && Counts(ns, t) && bi <= |t.emax| && used < t.size
    decreases bp, |t.emax| - bi
  {
    if bp == 0 then true
    else if bi == |t.emax| then FitsFrom(t, ns, bp - 1, 0, used)
    else
      var r := TurnAt(t, ns[bi], bp, bi, used);
      r.fits && FitsFrom(t, ns[bi := r.n], bp, bi + 1, r.used)
  }

  function Fresh(t: Tile): (ns: seq<nat>)
    ensures Counts(ns, t)
  {
    seq(|t.emax|, _ => 0)
  }

  predicate HeadersFit(t: Tile)
    requires ValidTile(t)
  {
    FitsFrom(t, Fresh(t), t.prec, 0, 0)
  }

  /** The bits of a list of chunks. */
  function Flat(chunks: seq<Bits>): Bits {
    if chunks == [] then [] else Flat(chunks[..|chunks| - 1]) + chunks[|chunks| - 1]
  }

  predicate AllFull(chunks: seq<Bits>, size: nat) { forall i :: 0 <= i < |chunks| ==> |chunks[i]| == size }

  /** Every chunk is full, except that the last one may be shorter, but not empty. */
  predicate Chunked(chunks: seq<Bits>, size: nat) {
    chunks != [] ==> AllFull(chunks[..|chunks| - 1], size) && 1 <= |chunks[|chunks| - 1]| <= size
  }

  lemma FlatSnoc(chunks: seq<Bits>, c: Bits)
    ensures Flat(chunks + [c]) == Flat(chunks) + c
  {
    assert (chunks + [c])[..|chunks|] == chunks;
  }

  /** What has been written: the chunks handed over and the open one. */
  function Written(chunks: seq<Bits>, open: Bits): Bits { Flat(chunks) + open }

  lemma WrittenAppend(chunks: seq<Bits>, open: Bits, more: Bits)
    ensures Written(chunks, open + more) == Written(chunks, open) + more
  {
    hide Flat;
  }

  // ---------------------------------------------------------------- what N is

  lemma {:induction false} JobMoves(plane: Bits, s: State, used: nat, size: nat)
    requires |plane| == BLOCK && Open(plane, s) && used < size && 2 <= size
    ensures var o := EncodeJob(plane, s, used, size);
            && s.n <= o.n && !HasOne(plane[o.n..])
            && (s.n < o.n ==> plane[o.n - 1]) && (s.inner ==> s.n < o.n)
    decreases used > 0, CallNeed(plane, s)
  {
    hide HasOne, EncodeCall;
    CallStops(plane, s, size - used);
    CallMoves(plane, s, size - used);
    var c := EncodeCall(plane, s, size - used);
    if !c.done {
      NotDoneIsOpen(plane, s, size - used);
      JobMoves(plane, c.state, 0, size);
    }
  }

  lemma OneFrom(plane: Bits, k: nat)
    requires k < LastOne(plane)
    ensures HasOne(plane[k..])
  {
    assert plane[k..][LastOne(plane) - 1 - k];
  }

  /** After a plane, `N` is behind the last one seen so far. */
  lemma JobReaches(plane: Bits, n: nat, used: nat, size: nat)
    requires |plane| == BLOCK && n <= BLOCK && Open(plane, State(n, 0, false)) && used < size && 2 <= size
    ensures EncodeJob(plane, State(n, 0, false), used, size).n == if LastOne(plane) > n then LastOne(plane) else n
  {
    hide EncodeJob, Open, HasOne;
    JobMoves(plane, State(n, 0, false), used, size);
    var o := EncodeJob(plane, State(n, 0, false), used, size);
    if o.n < LastOne(plane) { OneFrom(plane, o.n); }
  }

  /** A call begins with the coefficients below `N`; if it does not get through them it stops there. */
  lemma CallRaw(plane: Bits, s: State, r: nat)
    requires |plane| == BLOCK && Valid(s)
    ensures var c, p := EncodeCall(plane, s, r), Min(s.n - s.m, r);
            && plane[s.m..s.m + p] <= c.bits
            && (p < s.n - s.m ==> c == Coded(plane[s.m..s.m + p], State(s.n, s.m + p, s.inner), false))
  {
    hide EncRun;
    var p := Min(s.n - s.m, r);
    if p < s.n - s.m {
      SpentRunSettlesNothing(plane[s.n..], s.inner);
      assert plane[s.m..s.m + p] + [] == plane[s.m..s.m + p];
    }
  }

  lemma PrefixJoin(x: Bits, i: nat, j: nat, k: nat, y: Bits)
    requires i <= j <= k <= |x| && x[j..k] <= y
    ensures x[i..k] <= x[i..j] + y
  {
    assert x[i..k] == x[i..j] + x[j..k];
  }

  /** The bits of a plane begin with the coefficients below `N`, one bit each. */
  lemma {:induction false} RawFirst(plane: Bits, s: State, used: nat, size: nat)
    requires |plane| == BLOCK && Open(plane, s) && used < size && 2 <= size
    ensures plane[s.m..s.n] <= EncodeJob(plane, s, used, size).bits
    decreases used > 0, CallNeed(plane, s)
  {
    hide HasOne, EncodeCall;
    CallStops(plane, s, size - used);
    CallRaw(plane, s, size - used);
    var c, p := EncodeCall(plane, s, size - used), Min(s.n - s.m, size - used);
    if p < s.n - s.m {
      NotDoneIsOpen(plane, s, size - used);
      RawFirst(plane, c.state, 0, size);
      PrefixJoin(plane, s.m, s.m + p, s.n, EncodeJob(plane, c.state, 0, size).bits);
    }
  }

  /** One more than the place of the last coefficient of block `j` with a one in a coded plane from `bp` on. */
  function Significant(t: Tile, j: nat, bp: nat): (n: nat)
    requires ValidTile(t) && j < |t.emax|
    ensures n <= BLOCK
    decreases t.prec - bp
  {
    if bp >= t.prec then 0
    else
      var above, here := Significant(t, j, bp + 1), LastOne(PlaneAt(t, j, bp));
      if Enabled(t.prec, bp, Reach(t, j)) && here > above then here else above
  }

  /** That is what it is. */
  lemma {:induction false} SignificantIs(t: Tile, j: nat, bp: nat)
    requires ValidTile(t) && j < |t.emax|
    ensures var n := Significant(t, j, bp);
            && (forall b, i :: bp <= b < t.prec && Enabled(t.prec, b, Reach(t, j)) && n <= i < BLOCK ==> !PlaneAt(t, j, b)[i])
            && (n > 0 ==> exists b :: bp <= b < t.prec && Enabled(t.prec, b, Reach(t, j)) && PlaneAt(t, j, b)[n - 1])
    decreases t.prec - bp
  {
    hide PlaneAt, Reach;
    if bp < t.prec { SignificantIs(t, j, bp + 1); }
  }

  /** The counts where the loops stand before plane `bp - 1` of block `bi`. */
  ghost predicate Right(t: Tile, ns: seq<nat>, bp: nat, bi: nat) {
    && ValidTile(t) && |ns| == |t.emax|
    && forall j :: 0 <= j < |ns| ==> ns[j] == Significant(t, j, if j < bi && bp > 0 then bp - 1 else bp)
  }

  lemma RightAtStart(t: Tile)
    requires ValidTile(t)
    ensures Right(t, Fresh(t), t.prec, 0)
  {
  }

  lemma RightMeans(t: Tile, ns: seq<nat>)
    requires Right(t, ns, 0, 0)
    ensures forall j :: 0 <= j < |ns| ==> ns[j] == Significant(t, j, 0)
  {
    hide Significant;
  }

  lemma RightNextPlane(t: Tile, ns: seq<nat>, bp: nat)
    requires Right(t, ns, bp, |t.emax|) && bp > 0
    ensures Right(t, ns, bp - 1, 0)
  {
    hide Significant;
  }

  lemma TurnReaches(t: Tile, n: nat, bp: nat, bi: nat, used: nat)
    requires ValidTile(t) && bi < |t.emax| && 0 < bp && used < t.size && n <= BLOCK && TurnAt(t, n, bp, bi, used).fits
    ensures var l := LastOne(PlaneAt(t, bi, bp - 1));
            TurnAt(t, n, bp, bi, used).n == if Enabled(t.prec, bp - 1, Reach(t, bi)) && l > n then l else n
  {
    hide HeaderAt, PlaneAt, EncodeJob, Enabled, Open, LastOne, Reach;
    var u := used + |HeaderAt(t, bp, bi)|;
    var plane := PlaneAt(t, bi, bp - 1);
    OpenAtStart(plane, n);
    JobReaches(plane, n, Wrap(u, t.size), t.size);
  }

  lemma SignificantNext(t: Tile, j: nat, bp: nat)
    requires ValidTile(t) && j < |t.emax| && 0 < bp <= t.prec
    ensures var above, here := Significant(t, j, bp), LastOne(PlaneAt(t, j, bp - 1));
            Significant(t, j, bp - 1) == if Enabled(t.prec, bp - 1, Reach(t, j)) && here > above then here else above
  {
    hide PlaneAt, Reach, Enabled;
  }

  /** A turn leaves the next count. */
  lemma RightTurn(t: Tile, ns: seq<nat>, bp: nat, bi: nat, used: nat)
    requires Right(t, ns, bp, bi) && bi < |t.emax| && 0 < bp <= t.prec && used < t.size && ns[bi] <= BLOCK
    requires TurnAt(t, ns[bi], bp, bi, used).fits
    ensures Right(t, ns[bi := TurnAt(t, ns[bi], bp, bi, used).n], bp, bi + 1)
  {
    hide TurnAt, Significant, PlaneAt, Enabled, LastOne;
    TurnReaches(t, ns[bi], bp, bi, used);
    SignificantNext(t, bi, bp);
  }

  /** The stream with `N` taken from the coefficients instead of being carried along. */
  function StreamFrom(t: Tile, bp: nat, bi: nat, used: nat): Bits
    requires ValidTile(t) && bi <= |t.emax| && used < t.size
    decreases bp, |t.emax| - bi
  {
    if bp == 0 then []
    else if bi == |t.emax| then StreamFrom(t, bp - 1, 0, used)
    else
      var r := TurnAt(t, Significant(t, bi, bp), bp, bi, used);
      r.bits + StreamFrom(t, bp, bi + 1, r.used)
  }

  lemma {:induction false} StreamIs(t: Tile, ns: seq<nat>, bp: nat, bi: nat, used: nat)
    requires Right(t, ns, bp, bi) && Counts(ns, t) && bi <= |t.emax| && used < t.size && bp <= t.prec
    requires FitsFrom(t, ns, bp, bi, used)
    ensures EncodeFrom(t, ns, bp, bi, used) == StreamFrom(t, bp, bi, used)
    decreases bp, |t.emax| - bi
  {
    hide TurnAt, Significant;
    if bp > 0 {
      if bi == |t.emax| {
        RightNextPlane(t, ns, bp);
        StreamIs(t, ns, bp - 1, 0, used);
      } else {
        var r := TurnAt(t, ns[bi], bp, bi, used);
        RightTurn(t, ns, bp, bi, used);
        StreamIs(t, ns[bi := r.n], bp, bi + 1, r.used);
      }
    }
  }

  /** The stream of a tile, by the coefficients alone. */
  lemma TileStream(t: Tile)
    requires ValidTile(t) && HeadersFit(t)
    ensures EncodeTile(t) == StreamFrom(t, t.prec, 0, 0)
  {
    hide EncodeFrom, FitsFrom, StreamFrom;
    RightAtStart(t);
    StreamIs(t, Fresh(t), t.prec, 0, 0);
  }

  // ---------------------------------------------------------------- writing

  /** The end of a chunk: hand it over when it is full, or when it is the last one and not empty. */
  method FlushChunk(chunks0: seq<Bits>, bs: BitWriter, size: nat, last: bool) returns (chunks: seq<Bits>)
    requires size >= 1 && bs.BitSize() <= size && AllFull(chunks0, size)
    modifies bs
    ensures Written(chunks, bs.bits) == Written(chunks0, old(bs.bits))
    ensures |bs.bits| == if last then 0 else Wrap(|old(bs.bits)|, size)
    ensures Chunked(chunks, size) && (!last ==> AllFull(chunks, size))
    ensures |old(bs.bits)| == size ==> AllFull(chunks, size)
  {
    chunks := chunks0;
    var chunkComplete := bs.BitSize() >= size;
    if bs.BitSize() > 0 && (chunkComplete || last) {
      FlatSnoc(chunks, bs.bits);
      chunks := chunks + [bs.bits];
      bs.bits := [];
    }
  }

  /** Code one plane of the block at `k`, over as many chunks as it takes. */
  method WritePlane(uints: array<nat>, k: nat, b: nat, n: nat, size: nat, last: bool, chunks0: seq<Bits>, bs: BitWriter)
    returns (chunks: seq<Bits>, n': nat)
    requires k + BLOCK <= uints.Length && n <= BLOCK && size >= 2 && bs.BitSize() <= size && AllFull(chunks0, size)
    modifies bs
    ensures var o := EncodeJob(PlaneOf(uints[k..k + BLOCK], b), State(n, 0, false), Wrap(|old(bs.bits)|, size), size);
            && Written(chunks, bs.bits) == Written(chunks0, old(bs.bits)) + o.bits
            && |bs.bits| == (if last then 0 else o.used) && n' == o.n
    ensures Chunked(chunks, size) && (!last ==> AllFull(chunks, size))
  {
    hide EncodeCall, EncodeJob, CallNeed, HasOne, PlaneOf, Written, Open, NeedOf, JobEnds;
    chunks := chunks0;
    var s := State(n, 0, false);
    var done := false;
    ghost var plane := PlaneOf(uints[k..k + BLOCK], b);
    OpenAtStart(plane, n);
    ghost var used0 := Wrap(bs.BitSize(), size);
    ghost var o := EncodeJob(plane, s, used0, size);
    ghost var stream := Written(chunks0, bs.bits) + o.bits;
    assert JobEnds(plane, s, Written(chunks0, bs.bits), used0, size, stream, o) by {
      JobStarts(plane, s, Written(chunks0, bs.bits), used0, size);
    }
    while !done
      invariant bs.BitSize() <= size && Chunked(chunks, size) && (!last || !done ==> AllFull(chunks, size))
      invariant !done ==> Open(plane, s)
      invariant !done ==> JobEnds(plane, s, Written(chunks, bs.bits), Wrap(bs.BitSize(), size), size, stream, o)
      invariant done ==> Written(chunks, bs.bits) == stream && |bs.bits| == (if last then 0 else o.used) && s.n == o.n
      decreases !done, bs.BitSize() > 0, if done then 0 else NeedOf(plane, s)
    {
      ghost var before := bs.bits;
      JobCall(plane, s, Written(chunks, before), |before|, size, stream, o);
      s, done := Encode(uints, k, b, size, s, bs);
      WrittenAppend(chunks, before, bs.bits[|before|..]);
      chunks := FlushChunk(chunks, bs, size, last);
    }
    n' := s.n;
  }

  /** A call without budget does nothing. */
  lemma ZeroCall(plane: Bits, s: State)
    requires |plane| == BLOCK && Open(plane, s)
    ensures Valid(s) && EncodeCall(plane, s, 0) == Coded([], s, false)
    ensures DecodeCall([], s, 0) == Decoded([], 0, s, false)
  {
    hide HasOne;
  }

  /** One call of the job, perhaps at the very end of a chunk. */
  lemma JobCall(plane: Bits, s: State, written: Bits, used: nat, size: nat, stream: Bits, o: Job)
    requires |plane| == BLOCK && Open(plane, s) && used <= size && 2 <= size
    requires JobEnds(plane, s, written, Wrap(used, size), size, stream, o)
    ensures Valid(s)
    ensures var c := EncodeCall(plane, s, size - used);
            if c.done then
              && written + c.bits == stream && c.state.n == o.n && Wrap(used + |c.bits|, size) == o.used
            else
              && used + |c.bits| == size && Open(plane, c.state)
              && JobEnds(plane, c.state, written + c.bits, 0, size, stream, o)
              && (used == 0 ==> NeedOf(plane, c.state) < NeedOf(plane, s))
  {
    hide EncodeCall, DecodeCall, HasOne, CallNeed, JobEnds, Open;
    if used < size {
      JobStep(plane, s, written, used, size, stream, o);
    } else {
      ZeroCall(plane, s);
      assert written + [] == written;
    }
  }

  lemma OpenAtStart(plane: Bits, n: nat)
    requires |plane| == BLOCK && n <= BLOCK
    ensures Open(plane, State(n, 0, false))
  {
  }

  function NeedOf(plane: Bits, s: State): nat
    requires |plane| == BLOCK
  {
    if Fits(plane, s) then CallNeed(plane, s) else 0
  }

  /** From state `s`, with `written` in the stream, the job `o` ends with `stream` written. */
  ghost predicate JobEnds(plane: Bits, s: State, written: Bits, used: nat, size: nat, stream: Bits, o: Job)
    requires |plane| == BLOCK && Open(plane, s) && used < size && 2 <= size
  {
    var later := EncodeJob(plane, s, used, size);
    written + later.bits == stream && later.n == o.n && later.used == o.used && later.silent == o.silent
  }

  lemma JobStarts(plane: Bits, s: State, written: Bits, used: nat, size: nat)
    requires |plane| == BLOCK && Open(plane, s) && used < size && 2 <= size
    ensures var o := EncodeJob(plane, s, used, size); JobEnds(plane, s, written, used, size, written + o.bits, o)
  {
  }

  /** One call of the job. */
  lemma JobStep(plane: Bits, s: State, written: Bits, used: nat, size: nat, stream: Bits, o: Job)
    requires |plane| == BLOCK && Open(plane, s) && used < size && 2 <= size
    requires JobEnds(plane, s, written, used, size, stream, o)
    ensures Valid(s)
    ensures var c := EncodeCall(plane, s, size - used);
            if c.done then
              && written + c.bits == stream && c.state.n == o.n && Wrap(used + |c.bits|, size) == o.used
              && o.silent == (c.bits == [])
            else
              && used + |c.bits| == size && Open(plane, c.state)
              && JobEnds(plane, c.state, written + c.bits, 0, size, stream, o)
              && (used == 0 ==> NeedOf(plane, c.state) < NeedOf(plane, s))
  {
    hide EncodeCall, CallNeed, HasOne;
    CallStops(plane, s, size - used);
    var c := EncodeCall(plane, s, size - used);
    if !c.done {
      NotDoneIsOpen(plane, s, size - used);
      var later := EncodeJob(plane, c.state, 0, size);
      assert written + (c.bits + later.bits) == written + c.bits + later.bits;
    }
  }

  function EncodeTile(t: Tile): Bits
    requires ValidTile(t)
  {
    EncodeFrom(t, Fresh(t), t.prec, 0, 0)
  }

  lemma NothingAfterLast(t: Tile, ns: seq<nat>, used: nat)
    requires ValidTile(t) && Counts(ns, t) && used < t.size
    ensures EncodeFrom(t, ns, 1, |t.emax|, used) == []
  {
  }

  /** `written` and what is still to be coded from `(bp, bi)` make up the stream of the tile. */
  ghost predicate TileEnds(t: Tile, ns: seq<nat>, bp: nat, bi: nat, used: nat, written: Bits) {
    && ValidTile(t) && Counts(ns, t) && bi <= |t.emax| && used < t.size
    && written + EncodeFrom(t, ns, bp, bi, used) == EncodeTile(t) && FitsFrom(t, ns, bp, bi, used)
  }

  /** What one turn of the block loop contributes. */
  lemma TileTurn(t: Tile, ns: seq<nat>, bp: nat, bi: nat, used: nat, written: Bits)
    requires TileEnds(t, ns, bp, bi, used, written) && bi < |t.emax| && bp > 0
    ensures var r := TurnAt(t, ns[bi], bp, bi, used);
            r.fits && TileEnds(t, ns[bi := r.n], bp, bi + 1, r.used, written + r.bits)
  {
    hide TurnAt, EncodeTile;
    var r := TurnAt(t, ns[bi], bp, bi, used);
    var rest := EncodeFrom(t, ns[bi := r.n], bp, bi + 1, r.used);
    assert written + (r.bits + rest) == written + r.bits + rest;
  }

  /** The exponent of the block, in front of its first plane. */
  method WriteEMax(t: Tile, bi: nat, bs: BitWriter)
    requires ValidTile(t) && bi < |t.emax|
    modifies bs
    ensures bs.bits == old(bs.bits) + Header(t, bi)
  {
    var b;
    if 0 <= t.emax[bi] - t.tol + 1 {
      b := bs.Write(true);
      assert Reach(t, bi) >= 0;
      bs.WriteLong(t.emax[bi] + Bias(t.expBits), t.expBits);
    } else {
      b := bs.Write(false);
    }
  }

  /** The turn for plane `bp - 1` of block `bi`. */
  method WriteBlock(t: Tile, uints: array<nat>, ns: array<nat>, bp: nat, bi: nat, chunks0: seq<Bits>, bs: BitWriter)
    returns (chunks: seq<Bits>)
    requires bp > 0 && bi < |t.emax| && uints[..] == t.v && uints != ns && bs.BitSize() < t.size
    requires TileEnds(t, ns[..], bp, bi, bs.BitSize(), Written(chunks0, bs.bits)) && AllFull(chunks0, t.size)
    requires Right(t, ns[..], bp, bi) && bp <= t.prec
    modifies ns, bs
    ensures Right(t, ns[..], bp, bi + 1)
    ensures bs.BitSize() < t.size && Chunked(chunks, t.size)
    ensures TileEnds(t, ns[..], bp, bi + 1, bs.BitSize(), Written(chunks, bs.bits))
    ensures if bp == 1 && bi + 1 == |t.emax| then bs.bits == [] else AllFull(chunks, t.size)
  {
    hide EncodeFrom, FitsFrom, EncodeJob, Written, EncodeTile, Header, Right;
    TileTurn(t, ns[..], bp, bi, bs.BitSize(), Written(chunks0, bs.bits));
    RightTurn(t, ns[..], bp, bi, bs.BitSize());
    var last := bp - 1 == 0 && bi + 1 == |t.emax|;
    ghost var ns0, bits0, r := ns[..], bs.bits, TurnAt(t, ns[bi], bp, bi, bs.BitSize());
    if bp == t.prec { WriteEMax(t, bi, bs); } else { assert bs.bits + [] == bs.bits; }
    assert bs.bits == bits0 + HeaderAt(t, bp, bi);
    WrittenAppend(chunks0, bits0, HeaderAt(t, bp, bi));
    if Enabled(t.prec, bp - 1, Reach(t, bi)) {
      var k := BLOCK * bi;
      assert uints[k..k + BLOCK] == t.v[k..k + BLOCK];
      WrittenJoin(chunks0, bits0, HeaderAt(t, bp, bi), r.bits[|HeaderAt(t, bp, bi)|..]);
      var n;
      chunks, n := WritePlane(uints, k, bp - 1, ns[bi], t.size, last, chunks0, bs);
      ns[bi] := n;
    } else {
      chunks := FlushChunk(chunks0, bs, t.size, last);
    }
    assert ns[..] == ns0[bi := r.n];
    if last { LastTurn(t, ns[..], r.used, Written(chunks, bs.bits)); }
  }

  lemma WrittenJoin(chunks: seq<Bits>, open: Bits, h: Bits, more: Bits)
    ensures Written(chunks, open) + (h + more) == Written(chunks, open + h) + more
  {
    hide Flat;
  }

  lemma LastTurn(t: Tile, ns: seq<nat>, used: nat, written: Bits)
    requires TileEnds(t, ns, 1, |t.emax|, used, written)
    ensures TileEnds(t, ns, 1, |t.emax|, 0, written)
  {
    hide TurnAt;
    NothingAfterLast(t, ns, used);
    NothingAfterLast(t, ns, 0);
    assert FitsFrom(t, ns, 0, 0, 0);
  }

  /** Code a tile, most significant plane first. The coefficients are not changed. */
  method WriteTile(t: Tile, uints: array<nat>, ns: array<nat>) returns (chunks: seq<Bits>)
    requires ValidTile(t) && HeadersFit(t) && uints[..] == t.v && uints != ns
    requires ns.Length == |t.emax| && forall i :: 0 <= i < ns.Length ==> ns[i] == 0
    modifies ns
    ensures Flat(chunks) == EncodeTile(t) == StreamFrom(t, t.prec, 0, 0) && Chunked(chunks, t.size)
    ensures forall j :: 0 <= j < ns.Length ==> ns[j] == Significant(t, j, 0)
  {
    hide TurnAt, FitsFrom, EncodeFrom, Right, StreamFrom, Significant;
    TileStream(t);
    RightAtStart(t);
    chunks := [];
    var bs := new BitWriter();
    assert ns[..] == Fresh(t);
    var bp: nat := t.prec;
    while bp > 0
      invariant bs.BitSize() < t.size && uints[..] == t.v && fresh(bs)
      invariant TileEnds(t, ns[..], bp, 0, bs.BitSize(), Written(chunks, bs.bits)) && Chunked(chunks, t.size)
      invariant if bp == 0 then bs.bits == [] || |t.emax| == 0 else AllFull(chunks, t.size)
      invariant |t.emax| == 0 ==> chunks == [] && bs.bits == []
      invariant Right(t, ns[..], bp, 0) && bp <= t.prec
    {
      var bi: nat := 0;
      while bi < |t.emax|
        invariant bi <= |t.emax| && bs.BitSize() < t.size && uints[..] == t.v && fresh(bs)
        invariant TileEnds(t, ns[..], bp, bi, bs.BitSize(), Written(chunks, bs.bits)) && Chunked(chunks, t.size)
        invariant if bp == 1 && bi == |t.emax| then bs.bits == [] else AllFull(chunks, t.size)
        invariant |t.emax| == 0 ==> chunks == [] && bs.bits == []
        invariant Right(t, ns[..], bp, bi)
      {
        chunks := WriteBlock(t, uints, ns, bp, bi, chunks, bs);
        bi := bi + 1;
      }
      PlaneDone(t, ns[..], bp, bs.BitSize());
      RightNextPlane(t, ns[..], bp);
      bp := bp - 1;
    }
    TileDone(t, ns[..], bs.BitSize());
    RightMeans(t, ns[..]);
  }

  lemma PlaneDone(t: Tile, ns: seq<nat>, bp: nat, used: nat)
    requires ValidTile(t) && Counts(ns, t) && used < t.size && bp > 0
    ensures EncodeFrom(t, ns, bp, |t.emax|, used) == EncodeFrom(t, ns, bp - 1, 0, used)
    ensures FitsFrom(t, ns, bp, |t.emax|, used) == FitsFrom(t, ns, bp - 1, 0, used)
  {
    hide TurnAt;
  }

  lemma TileDone(t: Tile, ns: seq<nat>, used: nat)
    requires ValidTile(t) && Counts(ns, t) && used < t.size
    ensures EncodeFrom(t, ns, 0, 0, used) == []
  {
  }
}
