/** Tiles written, padded and read back, and tiles for which that goes wrong: a lost bit, blocks that are
    never transformed back, and headers that fill a chunk. */
module ZfpTileCases {
  import opened ZfpBits
  import opened ZfpPlane
  import opened ZfpCoder
  import opened ZfpTile
  import opened ZfpTileRead

  // ---------------------------------------------------------------- there and back

  /** The stream ends with a chunk. */
  predicate Tight(t: Tile)
    requires ValidTile(t)
  {
    |EncodeTile(t)| % t.size == 0
  }

  lemma {:induction false} FlatLength(stored: seq<Bits>, size: nat)
    requires AllFull(stored, size)
    ensures |Flat(stored)| == size * |stored|
  {
    if stored != [] {
      var n := |stored| - 1;
      FlatLength(stored[..n], size);
      assert size * |stored| == size * n + size;
    }
  }

  /** Chunks are stored at full size; what stands behind the stream in the last one is `fill`. */
  method Padded(chunks: seq<Bits>, size: nat, fill: Bits) returns (stored: seq<Bits>, ghost pad: Bits)
    requires Chunked(chunks, size) && chunks != [] && |fill| == size > 0
    ensures AllFull(stored, size) && stored != [] && Flat(stored) == Flat(chunks) + pad
    ensures pad == [] <==> |Flat(chunks)| % size == 0
  {
    var n := |chunks| - 1;
    var tail := chunks[n] + fill[|chunks[n]|..];
    stored := chunks[..n] + [tail];
    pad := fill[|chunks[n]|..];
    FlatSnoc(chunks[..n], tail);
    assert Flat(chunks[..n]) + tail == Flat(chunks) + pad;
    FlatLength(stored, size);
    Remainder(|Flat(chunks)|, |pad|, size, |stored|);
  }

  lemma Remainder(a: nat, p: nat, size: nat, k: nat)
    requires a + p == size * k && p < size
    ensures p == 0 <==> a % size == 0
  {
    if p == 0 {
      DivModUnique(a, size, k, 0);
    } else {
      assert size * k == (k - 1) * size + size;
      DivModUnique(a, size, k - 1, size - p);
    }
  }

  lemma TileNotEmpty(t: Tile)
    requires ValidTile(t) && t.prec > 0 && t.emax != []
    ensures EncodeTile(t) != []
  {
    hide TurnAt;
    TurnWrites(t, 0, t.prec, 0, 0);
    var r := TurnAt(t, 0, t.prec, 0, 0);
    assert r.bits != [];
    assert EncodeTile(t) == r.bits + EncodeFrom(t, Fresh(t)[0 := r.n], t.prec, 1, r.used);
  }

  lemma NoChunks()
    ensures Flat([]) == []
  {
  }

  /** Write a tile, store its chunks, read them back. The tile comes back as it should exactly if no
      header fills a chunk without a plane and in front of another header, and the bit of coefficient 63 is
      not left for a chunk that is never written. */
  method TileRoundTrip(t: Tile, fill: Bits) returns (inside: bool, w: seq<nat>, em: seq<int>, shown: seq<bool>)
    requires ValidTile(t) && HeadersFit(t) && t.prec > 0 && t.emax != [] && |fill| == t.size
    ensures inside <==> !Trips(t)
    ensures inside ==> Outcome(t, w, LastOf(t), Tight(t)) && |shown| == |t.emax| && Shown(shown, LastOf(t), Tight(t))
    ensures inside ==> |em| == |t.emax| && forall j :: 0 <= j < |em| ==> em[j] == ReadBack(t, j)
    ensures inside && Whole(t, w) <==> !Trips(t) && !(Tight(t) && LastOf(t).LastPlane? && LastOf(t).silent)
  {
    hide HeadersFit, EncodeTile, Flat, LastOf, Trips, Whole, WholeButOneBit, ReadBack;
    var n := |t.emax|;
    var coefficients := new nat[BLOCK * n](i requires 0 <= i < BLOCK * n => t.v[i]);
    var ns := new nat[n](_ => 0);
    assert coefficients[..] == t.v;
    var chunks := WriteTile(t, coefficients, ns);
    TileNotEmpty(t);
    NoChunks();
    var stored, pad := Padded(chunks, t.size, fill);
    var uints, ns', emaxes := new nat[BLOCK * n](_ => 0), new nat[n](_ => 0), new int[n](_ => 0);
    inside, shown := DecompressTile(t, t.prec, t.tol, t.expBits, t.size, uints, ns', emaxes, stored, pad);
    w, em := uints[..], emaxes[..];
    if inside && Tight(t) && LastOf(t).LastPlane? && LastOf(t).silent { OneBitIsMissing(t, w, LastOf(t)); }
  }

  // ---------------------------------------------------------------- turns without a plane

  lemma UncodedTurn(t: Tile, n: nat, bi: nat, used: nat)
    requires ValidTile(t) && bi < |t.emax| && n <= BLOCK && used < t.size && t.prec > 0 && Reach(t, bi) <= 0
    requires used + |Header(t, bi)| <= t.size
    ensures var u := used + |Header(t, bi)|;
            TurnAt(t, n, t.prec, bi, used) == Turn(Header(t, bi), n, Wrap(u, t.size), false, false, true, u == t.size)
  {
    hide Header, JobAt;
  }

  /** Planes below those coded add nothing. */
  lemma {:induction false} NothingBelow(t: Tile, ns: seq<nat>, bp: nat, bi: nat, used: nat)
    requires ValidTile(t) && Counts(ns, t) && bi <= |t.emax| && used < t.size && bp < t.prec
    requires forall j :: 0 <= j < |t.emax| ==> Reach(t, j) <= t.prec - bp
    ensures EncodeFrom(t, ns, bp, bi, used) == [] && FitsFrom(t, ns, bp, bi, used) && !TripsFrom(t, ns, bp, bi, used)
    decreases bp, |t.emax| - bi
  {
    hide Header, JobAt, Reach;
    if bp > 0 {
      if bi == |t.emax| {
        NothingBelow(t, ns, bp - 1, 0, used);
      } else {
        assert TurnAt(t, ns[bi], bp, bi, used) == Turn([], ns[bi], used, false, false, true, false);
        assert ns[bi := ns[bi]] == ns;
        NothingBelow(t, ns, bp, bi + 1, used);
      }
    }
  }

  /** What the functions of a tile say at one place. */
  ghost predicate Says(t: Tile, ns: seq<nat>, bp: nat, bi: nat, used: nat, length: nat, last: LastPlane) {
    && ValidTile(t) && Counts(ns, t) && bi <= |t.emax| && used < t.size
    && |EncodeFrom(t, ns, bp, bi, used)| == length && FitsFrom(t, ns, bp, bi, used) && !TripsFrom(t, ns, bp, bi, used)
    && (length > 0 ==> LastFrom(t, ns, bp, bi, used) == last)
  }

  lemma SaysTurn(t: Tile, ns: seq<nat>, bp: nat, bi: nat, used: nat, r: Turn, length: nat, last: LastPlane)
    requires ValidTile(t) && Counts(ns, t) && bi < |t.emax| && used < t.size && bp > 0
    requires r == TurnAt(t, ns[bi], bp, bi, used) && r.fits && !(r.hangs && bi + 1 < |t.emax|) && r.bits != []
    requires Says(t, ns[bi := r.n], bp, bi + 1, r.used, length, last)
    requires length == 0 ==> last == if r.coded then LastPlane(bp - 1, bi, r.silent) else NoPlane
    ensures Says(t, ns, bp, bi, used, |r.bits| + length, last)
  {
    hide TurnAt;
  }

  lemma SaysPlane(t: Tile, ns: seq<nat>, bp: nat, used: nat, length: nat, last: LastPlane)
    requires bp > 0 && ValidTile(t) && Says(t, ns, bp - 1, 0, used, length, last)
    ensures Says(t, ns, bp, |t.emax|, used, length, last)
  {
    hide TurnAt;
  }

  // ---------------------------------------------------------------- a bit gets lost

  /** Zeros, then a one in the last place. */
  function Lonely(n: nat): (x: Bits)
    ensures |x| == n + 1 && x[n] && forall i :: 0 <= i < n ==> !x[i]
  {
    seq(n, _ => false) + [true]
  }

  lemma {:induction false} LonelyRun(n: nat)
    ensures EncInner(Lonely(n), n) == Run(seq(n, _ => false), n, true, false)
    decreases n
  {
    if n > 0 {
      assert Lonely(n)[1..] == Lonely(n - 1);
      LonelyRun(n - 1);
      assert [false] + seq(n - 1, _ => false) == seq(n, _ => false);
    }
  }

  lemma LonelyCall(plane: Bits)
    requires plane == Lonely(BLOCK - 1)
    ensures var c := EncodeCall(plane, State(0, 0, false), 64);
            |c.bits| == 64 && c.state == State(BLOCK - 1, BLOCK - 1, true) && !c.done
  {
    LonelyRun(BLOCK - 1);
    assert HasOne(plane) by { assert plane[BLOCK - 1]; }
    assert plane[0..] == plane && plane[0..0] == [];
    hide EncInner;
  }

  /** The group bit and 63 zeros take the last 64 bits of a chunk. */
  lemma LonelyJob(plane: Bits, used: nat, size: nat)
    requires plane == Lonely(BLOCK - 1) && used + 64 == size
    ensures Open(plane, State(0, 0, false))
    ensures var o := EncodeJob(plane, State(0, 0, false), used, size);
            |o.bits| == 64 && o.silent && o.n == BLOCK && o.used == 0
  {
    var s, s' := State(0, 0, false), State(BLOCK - 1, BLOCK - 1, true);
    OpenAtStart(plane, 0);
    LonelyCall(plane);
    NotDoneIsOpen(plane, s, 64);
    SilentCall(plane, s', size);
    hide EncodeCall, HasOne;
    assert EncodeJob(plane, s', 0, size) == Job([], BLOCK, 0, true);
  }

  /** Insignificant blocks up to `k`, then a block of which one plane is coded, with a one in its last place. */
  predicate LonelyAfter(t: Tile, k: nat) {
    && ValidTile(t) && t.prec > 0 && |t.emax| == k + 1 && k + (1 + t.expBits) + 64 == t.size
    && (forall j :: 0 <= j < k ==> Reach(t, j) < 0) && Reach(t, k) == 1
    && PlaneAt(t, k, t.prec - 1) == Lonely(BLOCK - 1)
  }

  lemma LonelyTurn(t: Tile, k: nat)
    requires LonelyAfter(t, k)
    ensures var r := TurnAt(t, 0, t.prec, k, k);
            |r.bits| == t.size - k && r.used == 0 && r.coded && r.silent && r.fits && !r.hangs
  {
    LonelyJob(PlaneAt(t, k, t.prec - 1), k + 1 + t.expBits, t.size);
    hide EncodeJob, PlaneAt;
  }

  lemma LonelyLast(t: Tile, ns: seq<nat>, k: nat)
    requires LonelyAfter(t, k) && Counts(ns, t) && ns[k] == 0
    ensures Says(t, ns, t.prec, k, k, t.size - k, LastPlane(t.prec - 1, k, true))
  {
    hide TurnAt, PlaneAt, Says;
    LonelyTurn(t, k);
    var last, r := LastPlane(t.prec - 1, k, true), TurnAt(t, 0, t.prec, k, k);
    var ns' := ns[k := r.n];
    NothingBelow(t, ns', t.prec - 1, 0, 0);
    SaysNothing(t, ns', t.prec - 1, last);
    SaysPlane(t, ns', t.prec, 0, 0, last);
    SaysTurn(t, ns, t.prec, k, k, r, 0, last);
  }

  lemma {:induction false} LonelyFrom(t: Tile, ns: seq<nat>, k: nat, bi: nat)
    requires LonelyAfter(t, k) && Counts(ns, t) && ns[k] == 0 && bi <= k
    ensures Says(t, ns, t.prec, bi, bi, t.size - bi, LastPlane(t.prec - 1, k, true))
    decreases k - bi
  {
    hide TurnAt, Says, PlaneAt;
    if bi < k {
      UncodedTurn(t, ns[bi], bi, bi);
      assert ns[bi := ns[bi]] == ns;
      LonelyFrom(t, ns, k, bi + 1);
      SaysTurn(t, ns, t.prec, bi, bi, TurnAt(t, ns[bi], t.prec, bi, bi), t.size - bi - 1, LastPlane(t.prec - 1, k, true));
    } else {
      LonelyLast(t, ns, k);
    }
  }

  lemma SaysNothing(t: Tile, ns: seq<nat>, bp: nat, last: LastPlane)
    requires ValidTile(t) && Counts(ns, t)
    requires EncodeFrom(t, ns, bp, 0, 0) == [] && FitsFrom(t, ns, bp, 0, 0) && !TripsFrom(t, ns, bp, 0, 0)
    ensures Says(t, ns, bp, 0, 0, 0, last)
  {
  }

  /** The group bit and 63 zeros of the last plane coded end with the chunk, and the bit of coefficient 63
      has no chunk to be read from: the tile is not restored. */
  lemma LonelyCoefficientIsLost(t: Tile, k: nat)
    requires LonelyAfter(t, k)
    ensures HeadersFit(t) && !Trips(t) && Tight(t) && LastOf(t) == LastPlane(t.prec - 1, k, true)
    ensures forall w :: Outcome(t, w, LastOf(t), Tight(t)) ==> !Whole(t, w)
  {
    LonelyFrom(t, Fresh(t), k, 0);
    DivModUnique(t.size, t.size, 1, 0);
    hide *;
    SaysAll(t, t.size, LastPlane(t.prec - 1, k, true));
    SilentIsLost(t);
  }

  lemma SaysAll(t: Tile, length: nat, last: LastPlane)
    requires ValidTile(t) && Says(t, Fresh(t), t.prec, 0, 0, length, last) && length > 0
    ensures HeadersFit(t) && !Trips(t) && |EncodeTile(t)| == length && LastOf(t) == last
    ensures Tight(t) <==> length % t.size == 0
  {
    hide EncodeFrom, FitsFrom, TripsFrom, LastFrom;
  }

  lemma SilentIsLost(t: Tile)
    requires ValidTile(t) && Tight(t) && LastOf(t).LastPlane? && LastOf(t).silent
    ensures forall w :: Outcome(t, w, LastOf(t), Tight(t)) ==> !Whole(t, w)
  {
    hide Tight, LastOf, Whole, WholeButOneBit;
    forall w | Outcome(t, w, LastOf(t), Tight(t)) ensures !Whole(t, w) { OneBitIsMissing(t, w, LastOf(t)); }
  }

  lemma Pow2Is()
    ensures Pow2(7) == 128 && Pow2(8) == 256
  {
    assert Pow2(1) == 2 && Pow2(2) == 4 && Pow2(3) == 8 && Pow2(4) == 16 && Pow2(5) == 32 && Pow2(6) == 64;
  }

  /** Such a tile of 32-bit floats: 8 blocks, 32 planes, chunks of 10 bytes. */
  lemma LonelyTile() returns (t: Tile)
    ensures LonelyAfter(t, 7) && LargeEnough(t) && t.prec == 32 && t.expBits == 8 && t.size == 80
  {
    Pow2Is();
    var v := seq<nat>(512, i => if i == 511 then Pow2(31) else 0);
    t := Tile(v, 32, seq(8, i => if i < 7 then -2 else 0), 0, 8, 80);
    var plane := PlaneAt(t, 7, 31);
    hide Pow2;
    DivModUnique(Pow2(31), Pow2(31), 1, 0);
    DivModUnique(0, Pow2(31), 0, 0);
    forall i | 0 <= i < BLOCK ensures plane[i] == Lonely(BLOCK - 1)[i] {
      assert v[448..512][i] == v[448 + i];
    }
  }

  // ---------------------------------------------------------------- two planes, bit by bit

  /** A single one, in the first place. */
  function First(): (x: Bits)
    ensures |x| == BLOCK && x[0] && !HasOne(x[1..])
  {
    [true] + seq(BLOCK - 1, _ => false)
  }

  /** The first plane costs a group bit, the one, and the empty group. */
  lemma FirstCoded(r: nat)
    requires r >= 3
    ensures EncodeCall(First(), State(0, 0, false), r) == Coded([true, true, false], State(1, 1, false), true)
  {
    var x := First();
    assert HasOne(x) by { assert x[0]; }
    assert EncOuter(x[1..], r - 2) == Run([false], 0, false, true);
    hide EncOuter;
    assert EncInner(x, r - 1) == Run([true, false], 1, false, true);
    FirstOuter(x, r);
    assert x[0..] == x && x[0..0] == [];
  }

  lemma FirstOuter(x: Bits, r: nat)
    requires r >= 3 && x != [] && HasOne(x) && EncInner(x, r - 1) == Run([true, false], 1, false, true)
    ensures EncOuter(x, r) == Run([true, true, false], 1, false, true)
  {
  }

  /** The next one costs a raw bit and the empty group. */
  lemma FirstAgain(r: nat)
    requires r >= 2
    ensures EncodeCall(First(), State(1, 0, false), r) == Coded([true, false], State(1, 1, false), true)
  {
    var x := First();
    assert EncOuter(x[1..], r - 1) == Run([false], 0, false, true);
    assert x[0..1] == [true];
  }

  /** A job of one call. */
  lemma OneCall(plane: Bits, s: State, used: nat, size: nat, c: Coded)
    requires |plane| == BLOCK && Open(plane, s) && used < size && 2 <= size && EncodeCall(plane, s, size - used) == c && c.done
    ensures EncodeJob(plane, s, used, size) == Job(c.bits, c.state.n, Wrap(used + |c.bits|, size), c.bits == [])
  {
    hide EncodeCall;
  }

  lemma FirstJob(n: nat, used: nat, size: nat)
    requires n <= 1 && used + 3 < size
    ensures Open(First(), State(n, 0, false))
    ensures EncodeJob(First(), State(n, 0, false), used, size)
         == if n == 0 then Job([true, true, false], 1, used + 3, false) else Job([true, false], 1, used + 2, false)
  {
    hide EncodeCall, EncodeJob, Open, First;
    OpenAtStart(First(), n);
    if n == 0 {
      FirstCoded(size - used);
      OneCall(First(), State(0, 0, false), used, size, Coded([true, true, false], State(1, 1, false), true));
    } else {
      FirstAgain(size - used);
      OneCall(First(), State(1, 0, false), used, size, Coded([true, false], State(1, 1, false), true));
    }
  }

  /** One block of which two planes are coded, with a one in the first coefficient of both. */
  predicate FirstTwice(t: Tile) {
    && ValidTile(t) && |t.emax| == 1 && t.prec >= 2 && Reach(t, 0) == 2 && t.expBits + 9 < t.size
    && PlaneAt(t, 0, t.prec - 1) == First() && PlaneAt(t, 0, t.prec - 2) == First()
  }

  lemma CodedTurn(t: Tile, n: nat, bp: nat, bi: nat, used: nat, o: Job)
    requires ValidTile(t) && bi < |t.emax| && n <= BLOCK && used < t.size && bp > 0
    requires var u := used + |HeaderAt(t, bp, bi)|;
             u < t.size && Enabled(t.prec, bp - 1, Reach(t, bi)) && JobAt(t, n, bp - 1, bi, u) == o
    ensures TurnAt(t, n, bp, bi, used) == Turn(HeaderAt(t, bp, bi) + o.bits, o.n, o.used, true, o.silent, true, false)
  {
    hide HeaderAt, JobAt, Enabled, Reach;
  }

  lemma FirstTurns(t: Tile)
    requires FirstTwice(t)
    ensures TurnAt(t, 0, t.prec, 0, 0) == Turn(Header(t, 0) + [true, true, false], 1, t.expBits + 4, true, false, true, false)
    ensures TurnAt(t, 1, t.prec - 1, 0, t.expBits + 4) == Turn([] + [true, false], 1, t.expBits + 6, true, false, true, false)
  {
    hide EncodeJob, Open, First, PlaneAt, Header, TurnAt;
    FirstJob(0, 1 + t.expBits, t.size);
    FirstJob(1, t.expBits + 4, t.size);
    CodedTurn(t, 0, t.prec, 0, 0, Job([true, true, false], 1, t.expBits + 4, false));
    CodedTurn(t, 1, t.prec - 1, 0, t.expBits + 4, Job([true, false], 1, t.expBits + 6, false));
  }

  /** The exponent, `110`, then `10`: in the second plane the first coefficient costs one bit. */
  lemma SecondPlaneIsRaw(t: Tile)
    requires FirstTwice(t)
    ensures EncodeTile(t) == Header(t, 0) + [true, true, false] + [true, false]
  {
    hide TurnAt, Header, PlaneAt, First;
    FirstTurns(t);
    var u, v := t.expBits + 4, t.expBits + 6;
    NothingBelow(t, [1], t.prec - 2, 0, v);
    assert Fresh(t) == [0] && [0][0 := 1] == [1] && [1][0 := 1] == [1];
    assert EncodeFrom(t, [1], t.prec - 1, 1, v) == EncodeFrom(t, [1], t.prec - 2, 0, v) == [];
    assert EncodeFrom(t, [1], t.prec - 1, 0, u) == ([] + [true, false]) + [];
    assert EncodeFrom(t, [1], t.prec, 1, u) == EncodeFrom(t, [1], t.prec - 1, 0, u);
    assert EncodeFrom(t, [0], t.prec, 0, 0) == (Header(t, 0) + [true, true, false]) + EncodeFrom(t, [1], t.prec, 1, u);
    assert ([] + [true, false]) + [] == [true, false];
  }

  lemma PlaneIsFirst(t: Tile, b: nat)
    requires ValidTile(t) && |t.emax| == 1
    requires BitOf(t.v[0], b) == 1 && forall i :: 1 <= i < BLOCK ==> BitOf(t.v[i], b) == 0
    ensures PlaneAt(t, 0, b) == First()
  {
    hide BitOf;
    assert t.v[0..BLOCK] == t.v;
  }

  lemma ThreeBits()
    ensures BitOf(3 * Pow2(30), 30) == 1 && BitOf(3 * Pow2(30), 31) == 1 && BitOf(0, 30) == 0 && BitOf(0, 31) == 0
  {
    assert Pow2(31) == 2 * Pow2(30);
    hide Pow2;
    DivModUnique(3 * Pow2(30), Pow2(30), 3, 0);
    DivModUnique(3 * Pow2(30), Pow2(31), 1, Pow2(30));
    DivModUnique(0, Pow2(30), 0, 0);
    DivModUnique(0, Pow2(31), 0, 0);
  }

  /** Such a tile of 32-bit floats, and its bits: the exponent 1 is stored as 128. */
  lemma TwoPlanesTile() returns (t: Tile)
    ensures FirstTwice(t) && LargeEnough(t) && t.prec == 32 && t.expBits == 8 && t.size == 64 && t.tol == 0
    ensures Header(t, 0) == [true, false, false, false, false, false, false, false, true]
  {
    Pow2Is();
    t := Tile([3 * Pow2(30)] + seq<nat>(63, _ => 0), 32, [1], 0, 8, 64);
    Low128();
    assert Header(t, 0) == [true] + LowBits(128, 8);
    hide Pow2, BitOf, PlaneAt, LowBits, First;
    ThreeBits();
    PlaneIsFirst(t, 30);
    PlaneIsFirst(t, 31);
  }

  lemma Low128()
    ensures LowBits(128, 8) == [false, false, false, false, false, false, false, true]
  {
    assert LowBits(2, 2) == [false, true];
    assert LowBits(8, 4) == [false, false, false, true];
    assert LowBits(32, 6) == [false, false, false, false, false, true];
  }

  // ---------------------------------------------------------------- blocks that are not shown

  lemma ZeroJob(plane: Bits, used: nat, size: nat)
    requires |plane| == BLOCK && !HasOne(plane) && used < size && 2 <= size
    ensures Open(plane, State(0, 0, false))
    ensures EncodeJob(plane, State(0, 0, false), used, size) == Job([false], 0, Wrap(used + 1, size), false)
  {
    OpenAtStart(plane, 0);
    assert plane[0..] == plane && plane[0..0] == [];
    assert EncodeCall(plane, State(0, 0, false), size - used) == Coded([false], State(0, 0, false), true);
  }

  /** Two blocks whose coded planes are all zero, their headers and planes filling one chunk. */
  predicate ZerosFill(t: Tile, low: nat) {
    && ValidTile(t) && |t.emax| == 2 && 0 < low < t.prec
    && Reach(t, 0) == Reach(t, 1) == t.prec - low && 2 * (1 + t.expBits) + 2 * (t.prec - low) == t.size
    && forall j, b :: 0 <= j < 2 && low <= b < t.prec ==> !HasOne(PlaneAt(t, j, b))
  }

  lemma ZeroTurn(t: Tile, low: nat, bp: nat, bi: nat, used: nat)
    requires ZerosFill(t, low) && bi < 2 && low < bp <= t.prec && used + |HeaderAt(t, bp, bi)| < t.size
    ensures var u := used + |HeaderAt(t, bp, bi)|;
            TurnAt(t, 0, bp, bi, used) == Turn(HeaderAt(t, bp, bi) + [false], 0, Wrap(u + 1, t.size), true, false, true, false)
  {
    ZeroJob(PlaneAt(t, bi, bp - 1), used + |HeaderAt(t, bp, bi)|, t.size);
    hide PlaneAt, EncodeJob, HeaderAt;
  }

  /** One plane of both blocks. */
  lemma ZerosPlane(t: Tile, low: nat, bp: nat, used: nat, length: nat)
    requires ZerosFill(t, low) && low < bp <= t.prec
    requires var k := |HeaderAt(t, bp, 0)|;
             && used + 2 * k + 2 <= t.size && |HeaderAt(t, bp, 1)| == k && (length == 0 ==> bp - 1 == low)
             && Says(t, [0, 0], bp - 1, 0, Wrap(used + 2 * k + 2, t.size), length, LastPlane(low, 1, false))
    ensures Says(t, [0, 0], bp, 0, used, 2 * |HeaderAt(t, bp, 0)| + 2 + length, LastPlane(low, 1, false))
  {
    hide TurnAt, Says, PlaneAt, HeaderAt, Enabled;
    var ns, last: LastPlane, k := [0, 0], LastPlane(low, 1, false), |HeaderAt(t, bp, 0)|;
    ZeroTurn(t, low, bp, 0, used);
    ZeroTurn(t, low, bp, 1, used + k + 1);
    var r0, r1 := TurnAt(t, 0, bp, 0, used), TurnAt(t, 0, bp, 1, used + k + 1);
    assert ns[0 := 0] == ns && ns[1 := 0] == ns;
    hide ZerosFill;
    SaysPlane(t, ns, bp, r1.used, length, last);
    SaysTurn(t, ns, bp, 1, used + k + 1, r1, length, last);
    SaysTurn(t, ns, bp, 0, used, r0, length + k + 1, last);
  }

  lemma {:induction false} ZerosFrom(t: Tile, low: nat, bp: nat, used: nat)
    requires ZerosFill(t, low) && low <= bp <= t.prec && used < t.size
    requires bp > low ==> used + 2 * (bp - low) + (if bp == t.prec then 2 * (1 + t.expBits) else 0) == t.size
    requires bp == low ==> used == 0
    ensures Says(t, [0, 0], bp, 0, used, if bp == low then 0 else t.size - used, LastPlane(low, 1, false))
    decreases bp
  {
    hide Says, PlaneAt, TurnAt;
    if bp == low {
      NothingBelow(t, [0, 0], low, 0, 0);
      SaysNothing(t, [0, 0], low, LastPlane(low, 1, false));
    } else {
      var next := Wrap(used + 2 * |HeaderAt(t, bp, 0)| + 2, t.size);
      ZerosFrom(t, low, bp - 1, next);
      ZerosPlane(t, low, bp, used, if bp - 1 == low then 0 else t.size - next);
    }
  }

  /** The chunk ends with the lowest coded plane of block 1; block 0 is decoded but never transformed back. */
  lemma FirstBlockIsNotShown(t: Tile, low: nat)
    requires ZerosFill(t, low)
    ensures HeadersFit(t) && !Trips(t) && Tight(t) && LastOf(t) == LastPlane(low, 1, false)
    ensures forall shown :: |shown| == 2 && Shown(shown, LastOf(t), Tight(t)) ==> !shown[0] && shown[1]
  {
    ZerosFrom(t, low, t.prec, 0);
    DivModUnique(t.size, t.size, 1, 0);
    assert Fresh(t) == [0, 0];
    hide PlaneAt, Reach, EncodeFrom, FitsFrom, TripsFrom, LastFrom;
  }

  /** Such a tile of 32-bit floats: chunks of 8 bytes, 23 of 32 planes coded. */
  lemma ZerosTile() returns (t: Tile)
    ensures ZerosFill(t, 9) && LargeEnough(t) && t.prec == 32 && t.expBits == 8 && t.size == 64
  {
    Pow2Is();
    var v := seq<nat>(128, _ => 0);
    t := Tile(v, 32, [22, 22], 0, 8, 64);
    hide Pow2;
    forall j, b | 0 <= j < 2 && 9 <= b < 32 ensures !HasOne(PlaneAt(t, j, b)) {
      DivModUnique(0, Pow2(b), 0, 0);
      var plane := PlaneAt(t, j, b);
      forall i | 0 <= i < BLOCK ensures !plane[i] {
        assert v[BLOCK * j..BLOCK * j + BLOCK][i] == 0;
      }
    }
  }

  /** When every block is shown: the stream does not end with a chunk, or it ends with a header, or in the
      turn of the last block in the lowest plane, or there is only one block. */
  lemma AllShownIff(shown: seq<bool>, last: LastPlane, tight: bool)
    requires Shown(shown, last, tight) && (last.LastPlane? ==> last.bi < |shown|)
    ensures (forall j :: 0 <= j < |shown| ==> shown[j])
       <==> !tight || last.NoPlane? || |shown| == 1 || (last.b == 0 && last.bi + 1 == |shown|)
  {
    if tight && last.LastPlane? && |shown| != 1 && !(last.b == 0 && last.bi + 1 == |shown|) {
      var j := if last.bi + 1 < |shown| then last.bi + 1 else 0;
      assert !shown[j];
    }
  }

  // ---------------------------------------------------------------- headers that fill a chunk

  /** Only headers, of equal length, and a whole number of them to a chunk. */
  predicate OnlyHeaders(t: Tile, perChunk: nat) {
    && ValidTile(t) && t.prec > 0 && (1 + t.expBits) * perChunk == t.size && perChunk < |t.emax|
    && forall j :: 0 <= j < |t.emax| ==> Reach(t, j) == 0
  }

  lemma {:induction false} HeadersFrom(t: Tile, perChunk: nat, ns: seq<nat>, bi: nat, k: nat)
    requires OnlyHeaders(t, perChunk) && Counts(ns, t) && bi <= |t.emax| && k < perChunk
    requires (1 + t.expBits) * k < t.size
    ensures var used := (1 + t.expBits) * k;
            && FitsFrom(t, ns, t.prec, bi, used)
            && (bi + perChunk - k < |t.emax| ==> TripsFrom(t, ns, t.prec, bi, used))
    decreases |t.emax| - bi
  {
    var h, used := 1 + t.expBits, (1 + t.expBits) * k;
    if bi == |t.emax| {
      NothingBelow(t, ns, t.prec - 1, 0, used);
    } else {
      HeaderSteps(h, k, perChunk);
      UncodedTurn(t, ns[bi], bi, used);
      assert ns[bi := ns[bi]] == ns;
      hide TurnAt, OnlyHeaders;
      HeadersFrom(t, perChunk, ns, bi + 1, if k + 1 == perChunk then 0 else k + 1);
    }
  }

  lemma HeaderSteps(h: nat, k: nat, m: nat)
    requires h > 0 && k < m
    ensures h * k + h == h * (k + 1) <= h * m && (h * (k + 1) == h * m <==> k + 1 == m) && h * 0 == 0
  {
    if k + 1 < m { MulAtLeast(m - (k + 1), h); assert h * m == h * (k + 1) + (m - (k + 1)) * h; }
  }

  /** Blocks just at the tolerance have an exponent but no plane. Where they fill a chunk and another block
      follows, its exponent is looked for behind the end of the chunk. */
  lemma HeadersTrip(t: Tile, perChunk: nat)
    requires OnlyHeaders(t, perChunk)
    ensures HeadersFit(t) && Trips(t)
  {
    assert perChunk > 0;
    assert (1 + t.expBits) * 0 == 0;
    HeadersFrom(t, perChunk, Fresh(t), 0, 0);
  }

  /** Such a tile of 32-bit floats: 9 blocks, chunks of 9 bytes. */
  lemma HeadersTile() returns (t: Tile)
    ensures OnlyHeaders(t, 8) && LargeEnough(t) && t.prec == 32 && t.expBits == 8 && t.size == 72
  {
    Pow2Is();
    t := Tile(seq<nat>(576, _ => 0), 32, seq(9, _ => -1), 0, 8, 72);
  }
}
