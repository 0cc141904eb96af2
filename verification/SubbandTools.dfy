/** Aggregates of subbands, and the numbering of subbands by level. */
module SubbandTools {
  import opened Subbands

  // ---------------------------------------------------------------- aggregates

  /** The origin `from` lies between the samples of an aggregate. */
  predicate Between(aggFrom: nat, aggStrd: nat, from: nat) {
    aggStrd > 0 && (from - aggFrom) % aggStrd != 0
  }

  /** One direction of an aggregate: a subband between its samples halves the stride and adds its samples. */
  function AggStrd1(aggFrom: nat, aggStrd: nat, from: nat): nat {
    if Between(aggFrom, aggStrd, from) then aggStrd / 2 else aggStrd
  }

  function AggDim1(aggFrom: nat, aggDim: nat, aggStrd: nat, from: nat, dim: nat): nat {
    if Between(aggFrom, aggStrd, from) then aggDim + dim else aggDim
  }

  function AggStep(agg: Grid, s: Grid): (r: Grid)
    ensures r.from == agg.from
  {
    Grid(agg.from,
         V3(AggDim1(agg.from.x, agg.dims.x, agg.strd.x, s.from.x, s.dims.x),
            AggDim1(agg.from.y, agg.dims.y, agg.strd.y, s.from.y, s.dims.y),
            AggDim1(agg.from.z, agg.dims.z, agg.strd.z, s.from.z, s.dims.z)),
         V3(AggStrd1(agg.from.x, agg.strd.x, s.from.x),
            AggStrd1(agg.from.y, agg.strd.y, s.from.y),
            AggStrd1(agg.from.z, agg.strd.z, s.from.z)))
  }

  predicate Strided(g: Grid) {
    g.strd.x > 0 && g.strd.y > 0 && g.strd.z > 0
  }

  /** The aggregates of `subs`, one for each. */
  function Aggregates(subs: seq<Grid>): (r: seq<Grid>)
    ensures |r| == |subs|
  {
    if |subs| <= 1 then subs
    else
      var a := Aggregates(subs[..|subs| - 1]);
      a + [AggStep(a[|a| - 1], subs[|subs| - 1])]
  }

  /** The remainder by each stride is defined: none has been halved to nothing. */
  predicate Divisible(subs: seq<Grid>) {
    |subs| <= 1 ||
    (var had := subs[..|subs| - 1]; Divisible(had) && Strided(Aggregates(had)[|had| - 1]))
  }

  lemma {:induction false} DivisibleAt(subs: seq<Grid>, i: nat)
    requires Divisible(subs) && 1 <= i < |subs|
    ensures Strided(Aggregates(subs[..i])[i - 1])
    decreases |subs|
  {
    hide Aggregates, Strided;
    var had := subs[..|subs| - 1];
    if i < |had| {
      DivisibleAt(had, i);
      assert had[..i] == subs[..i];
    }
  }

  method AggregateSubbands(subbands: seq<Grid>) returns (aggs: seq<Grid>)
    requires |subbands| > 0 && Divisible(subbands)
    ensures aggs == Aggregates(subbands)
  {
    hide AggDim1, AggStrd1, AggStep;
    aggs := [subbands[0]];
    assert subbands[..1] == [subbands[0]];
    for i := 1 to |subbands|
      invariant aggs == Aggregates(subbands[..i])
    {
      var agg, s := aggs[i - 1], subbands[i];
      DivisibleAt(subbands, i);
      var dims, strd := agg.dims, agg.strd;
      if (s.from.x - agg.from.x) % agg.strd.x != 0 { dims, strd := dims.(x := dims.x + s.dims.x), strd.(x := strd.x / 2); }
      if (s.from.y - agg.from.y) % agg.strd.y != 0 { dims, strd := dims.(y := dims.y + s.dims.y), strd.(y := strd.y / 2); }
      if (s.from.z - agg.from.z) % agg.strd.z != 0 { dims, strd := dims.(z := dims.z + s.dims.z), strd.(z := strd.z / 2); }
      StepIs(agg, s, dims, strd);
      assert subbands[..i + 1][..i] == subbands[..i];
      aggs := aggs + [Grid(agg.from, dims, strd)];
    }
    assert subbands[..|subbands|] == subbands;
  }

  lemma StepIs(agg: Grid, s: Grid, dims: V3, strd: V3)
    requires Strided(agg)
    requires dims.x == agg.dims.x + (if (s.from.x - agg.from.x) % agg.strd.x != 0 then s.dims.x else 0)
    requires dims.y == agg.dims.y + (if (s.from.y - agg.from.y) % agg.strd.y != 0 then s.dims.y else 0)
    requires dims.z == agg.dims.z + (if (s.from.z - agg.from.z) % agg.strd.z != 0 then s.dims.z else 0)
    requires strd.x == if (s.from.x - agg.from.x) % agg.strd.x != 0 then agg.strd.x / 2 else agg.strd.x
    requires strd.y == if (s.from.y - agg.from.y) % agg.strd.y != 0 then agg.strd.y / 2 else agg.strd.y
    requires strd.z == if (s.from.z - agg.from.z) % agg.strd.z != 0 then agg.strd.z / 2 else agg.strd.z
    ensures Grid(agg.from, dims, strd) == AggStep(agg, s)
  {
  }

  // ---------------------------------------------------------------- one direction of a level

  /** Every subband of every level has samples. */
  predicate Deep(nDims: nat, m: V3, nLevels: nat)
    decreases nLevels
  {
    nLevels == 0 ||
    (&& (nDims < 1 || m.x >= 2) && (nDims < 2 || m.y >= 2) && (nDims < 3 || m.z >= 2)
     && Deep(nDims, Halved(m), nLevels - 1))
  }

  /** A direction during a level: still with every other sample, or with all of them. */
  function AxisDim(done: bool, m: nat): nat { if done then m else Half(0, m) }

  function AxisStrd(done: bool, s: nat): nat { if done then s else 2 * s }

  /** A subband on the odd samples completes the direction; any other leaves it. */
  lemma AxisStep(done: bool, c: nat, m: nat, s: nat)
    requires s > 0 && c <= 1
    ensures AggDim1(0, AxisDim(done, m), AxisStrd(done, s), At(c, s), Half(c, m)) == AxisDim(done || c == 1, m)
    ensures AggStrd1(0, AxisStrd(done, s), At(c, s)) == AxisStrd(done || c == 1, s)
  {
    HalfWay(s);
    Multiple(AxisStrd(done, s), 0);
    if c == 1 && done { Multiple(s, 1); }
  }

  lemma HalfWay(s: nat)
    requires s > 0
    ensures s % (2 * s) == s && 2 * s / 2 == s
  {
    var q, r := s / (2 * s), s % (2 * s);
    assert s == 2 * s * q + r;
    MulGap(2 * s, q);
  }

  /** Both halves are in a completed direction, the even one already before. */
  lemma AxisHolds(done: bool, c: nat, m: nat, s: nat, x: nat)
    requires s > 0 && c <= 1
    ensures In1(x, At(c, s), Half(c, m), 2 * s) && (c == 1 ==> done) ==> In1(x, 0, AxisDim(done, m), AxisStrd(done, s))
    ensures In1(x, 0, AxisDim(false, m), AxisStrd(false, s)) ==> In1(x, 0, AxisDim(done, m), AxisStrd(done, s))
  {
    hide In1;
    Split1(x, m, s);
  }

  // ---------------------------------------------------------------- aggregates within a level

  datatype Done = Done(x: bool, y: bool, z: bool)

  /** The aggregate when the directions in `d` are complete; `top` is the stride of directions not transformed. */
  function State(nDims: nat, d: Done, m: V3, s: nat, top: nat): Grid {
    Grid(V3(0, 0, 0),
         V3(if nDims >= 1 then AxisDim(d.x, m.x) else 1, if nDims >= 2 then AxisDim(d.y, m.y) else 1,
            if nDims >= 3 then AxisDim(d.z, m.z) else 1),
         V3(if nDims >= 1 then AxisStrd(d.x, s) else top, if nDims >= 2 then AxisStrd(d.y, s) else top,
            if nDims >= 3 then AxisStrd(d.z, s) else top))
  }

  function Completed(d: Done, c: V3): Done {
    Done(d.x || c.x == 1, d.y || c.y == 1, d.z || c.z == 1)
  }

  lemma StateStep(nDims: nat, d: Done, c: V3, m: V3, s: nat, top: nat)
    requires 1 <= nDims <= 3 && s > 0 && top > 0 && c.x <= 1 && c.y <= 1 && c.z <= 1
    ensures AggStep(State(nDims, d, m, s, top), Sub(nDims, c, m, s)) == State(nDims, Completed(d, c), m, s, top)
  {
    hide AggDim1, AggStrd1, AxisDim, AxisStrd, Half, At;
    AxisStep(d.x, c.x, m.x, s);
    AxisStep(d.y, c.y, m.y, s);
    AxisStep(d.z, c.z, m.z, s);
    NotBetween(top, 1);
  }

  lemma NotBetween(strd: nat, dim: nat)
    requires strd > 0
    ensures AggDim1(0, dim, strd, 0, dim) == dim && AggStrd1(0, strd, 0) == strd
  {
  }

  /** Each aggregate holds every subband up to its own. */
  ghost predicate Covers(subs: seq<Grid>) {
    forall a, i, p :: 0 <= i <= a < |subs| && In(p, subs[i]) ==> In(p, Aggregates(subs)[a])
  }

  ghost predicate Within(g: Grid, h: Grid) {
    forall p :: In(p, g) ==> In(p, h)
  }

  lemma AggregatesSnoc(subs: seq<Grid>, g: Grid)
    requires |subs| >= 1
    ensures Aggregates(subs + [g]) == Aggregates(subs) + [AggStep(Aggregates(subs)[|subs| - 1], g)]
  {
    hide AggStep;
    assert (subs + [g])[..|subs|] == subs;
  }

  lemma CoversSnoc(subs: seq<Grid>, g: Grid)
    requires |subs| >= 1 && Covers(subs)
    requires var a := Aggregates(subs)[|subs| - 1]; Within(a, AggStep(a, g)) && Within(g, AggStep(a, g))
    ensures Covers(subs + [g])
  {
    hide In, AggStep, Aggregates;
    AggregatesSnoc(subs, g);
    var more, aggs, last := subs + [g], Aggregates(subs), |subs| - 1;
    forall a, i, p | 0 <= i <= a < |more| && In(p, more[i]) ensures In(p, Aggregates(more)[a]) {
      if a < |subs| {
        assert In(p, subs[i]) && In(p, aggs[a]);
      } else if i < |subs| {
        assert In(p, subs[i]) && In(p, aggs[last]);
      }
    }
  }

  lemma DivisibleSnoc(subs: seq<Grid>, g: Grid)
    requires |subs| >= 1 && Divisible(subs) && Strided(Aggregates(subs)[|subs| - 1])
    ensures Divisible(subs + [g])
  {
    assert (subs + [g])[..|subs|] == subs;
  }

  lemma StateHolds(nDims: nat, d: Done, c: V3, m: V3, s: nat, top: nat)
    requires 1 <= nDims <= 3 && Shaped(nDims, m) && s > 0 && top > 0 && c.x <= 1 && c.y <= 1 && c.z <= 1
    ensures var after := State(nDims, Completed(d, c), m, s, top);
            Within(State(nDims, d, m, s, top), after) && Within(Sub(nDims, c, m, s), after)
  {
    hide In1, AxisDim, AxisStrd, Half, At;
    var before, after, sub := State(nDims, d, m, s, top), State(nDims, Completed(d, c), m, s, top), Sub(nDims, c, m, s);
    forall p ensures In(p, before) ==> In(p, after) {
      AxisKept(d.x, c.x, m.x, s, p.x);
      AxisKept(d.y, c.y, m.y, s, p.y);
      AxisKept(d.z, c.z, m.z, s, p.z);
    }
    forall p ensures In(p, sub) ==> In(p, after) {
      AxisHolds(d.x || c.x == 1, c.x, m.x, s, p.x);
      AxisHolds(d.y || c.y == 1, c.y, m.y, s, p.y);
      AxisHolds(d.z || c.z == 1, c.z, m.z, s, p.z);
      Single1(p.y, top);
      Single1(p.y, 2 * s);
      Single1(p.z, top);
      Single1(p.z, 2 * s);
    }
  }

  lemma AxisKept(done: bool, c: nat, m: nat, s: nat, x: nat)
    requires s > 0
    ensures In1(x, 0, AxisDim(done, m), AxisStrd(done, s)) ==>
              In1(x, 0, AxisDim(done || c == 1, m), AxisStrd(done || c == 1, s))
  {
    hide In1;
    AxisHolds(true, 0, m, s, x);
  }

  /** The directions complete after the places from `j` on. */
  function DoneAfter(nDims: nat, d: Done, j: nat): Done
    requires nDims <= 3 && j <= Pow2(nDims)
    decreases Pow2(nDims) - j
  {
    if j == Pow2(nDims) then d else DoneAfter(nDims, Completed(d, Corner(nDims, Order(nDims, j))), j + 1)
  }

  lemma {:induction false} LevelCovers(pre: seq<Grid>, nDims: nat, j: nat, d: Done, m: V3, s: nat, top: nat)
    requires 1 <= nDims <= 3 && 1 <= j <= Pow2(nDims) && Shaped(nDims, m) && Deep(nDims, m, 1) && s > 0 && top > 0
    requires |pre| >= 1 && Covers(pre) && Divisible(pre) && Aggregates(pre)[|pre| - 1] == State(nDims, d, m, s, top)
    ensures var subs := pre + Level(nDims, j, m, s);
            && Covers(subs) && Divisible(subs)
            && Aggregates(subs)[|subs| - 1] == State(nDims, DoneAfter(nDims, d, j), m, s, top)
    decreases Pow2(nDims) - j
  {
    hide Covers, Divisible, Aggregates, State, Sub, Corner, Order, AggStep, Within;
    if j == Pow2(nDims) {
      assert pre + [] == pre;
    } else {
      var c := Corner(nDims, Order(nDims, j));
      var g := Sub(nDims, c, m, s);
      SubExists(nDims, c, m, s);
      StateStep(nDims, d, c, m, s, top);
      StateHolds(nDims, d, c, m, s, top);
      StateStrided(nDims, d, m, s, top);
      CoversSnoc(pre, g);
      DivisibleSnoc(pre, g);
      AggregatesSnoc(pre, g);
      LevelCovers(pre + [g], nDims, j + 1, Completed(d, c), m, s, top);
      Assoc(pre, [g], Level(nDims, j + 1, m, s));
    }
  }

  lemma SubExists(nDims: nat, c: V3, m: V3, s: nat)
    requires 1 <= nDims <= 3 && Deep(nDims, m, 1) && c.x <= 1 && c.y <= 1 && c.z <= 1
    ensures !Empty(Sub(nDims, c, m, s))
  {
  }

  lemma StateStrided(nDims: nat, d: Done, m: V3, s: nat, top: nat)
    requires s > 0 && top > 0
    ensures Strided(State(nDims, d, m, s, top))
  {
  }

  lemma {:induction false} DoneKept(nDims: nat, d: Done, j: nat)
    requires nDims <= 3 && j <= Pow2(nDims)
    ensures var e := DoneAfter(nDims, d, j); (d.x ==> e.x) && (d.y ==> e.y) && (d.z ==> e.z)
    decreases Pow2(nDims) - j
  {
    hide Corner, Order;
    if j < Pow2(nDims) { DoneKept(nDims, Completed(d, Corner(nDims, Order(nDims, j))), j + 1); }
  }

  lemma AllDone(nDims: nat)
    requires 1 <= nDims <= 3
    ensures var d := DoneAfter(nDims, Done(false, false, false), 1);
            (nDims >= 1 ==> d.x) && (nDims >= 2 ==> d.y) && (nDims >= 3 ==> d.z)
  {
    var d := Done(false, false, false);
    if nDims == 3 {
      Places3(V3(1, 1, 1), 1);
      var e := Completed(d, V3(0, 0, 1));
      var f := Completed(e, V3(0, 1, 0));
      assert DoneAfter(3, d, 1) == DoneAfter(3, e, 2) == DoneAfter(3, f, 3) == DoneAfter(3, Completed(f, V3(1, 0, 0)), 4);
      DoneKept(3, Completed(f, V3(1, 0, 0)), 4);
    } else if nDims == 2 {
      assert Pow2(2) == 4 && Corner(2, Order(2, 1)).y == 1 && Corner(2, Order(2, 2)).x == 1;
      var e := Completed(d, Corner(2, Order(2, 1)));
      var f := Completed(e, Corner(2, Order(2, 2)));
      assert DoneAfter(2, d, 1) == DoneAfter(2, e, 2) == DoneAfter(2, f, 3);
      DoneKept(2, f, 3);
    } else {
      assert Pow2(1) == 2 && Corner(1, Order(1, 1)).x == 1;
      var e := Completed(d, Corner(1, Order(1, 1)));
      assert DoneAfter(1, d, 1) == DoneAfter(1, e, 2);
      DoneKept(1, e, 2);
    }
  }

  // ---------------------------------------------------------------- all levels

  /** `m` samples `s` apart in the transformed directions, one in the others. */
  function Whole(nDims: nat, m: V3, s: nat, top: nat): Grid {
    Grid(V3(0, 0, 0), m, V3(if nDims >= 1 then s else top, if nDims >= 2 then s else top, if nDims >= 3 then s else top))
  }

  lemma WholeStates(nDims: nat, m: V3, s: nat, top: nat)
    requires 1 <= nDims <= 3 && Shaped(nDims, m)
    ensures State(nDims, Done(false, false, false), m, s, top) == Whole(nDims, Halved(m), 2 * s, top)
    ensures State(nDims, DoneAfter(nDims, Done(false, false, false), 1), m, s, top) == Whole(nDims, m, s, top)
  {
    hide DoneAfter;
    AllDone(nDims);
  }

  lemma {:induction false} AggregatesCover(nDims: nat, m: V3, s: nat, nLevels: nat, top: nat)
    requires 1 <= nDims <= 3 && Shaped(nDims, m) && Deep(nDims, m, nLevels) && s > 0 && top == s * Pow2(nLevels)
    ensures var subs := SubbandsOf(nDims, m, s, nLevels);
            && |subs| >= 1 && Covers(subs) && Divisible(subs)
            && Aggregates(subs)[|subs| - 1] == Whole(nDims, m, s, top)
    decreases nLevels
  {
    hide Covers, Divisible, State, DoneAfter, Level, Deep;
    var subs := SubbandsOf(nDims, m, s, nLevels);
    if nLevels == 0 {
      OneCovers(Coarse(m, s));
    } else {
      DeepNext(nDims, m, nLevels);
      assert 2 * s * Pow2(nLevels - 1) == s * (2 * Pow2(nLevels - 1));
      MulGap(s, Pow2(nLevels));
      AggregatesCover(nDims, Halved(m), 2 * s, nLevels - 1, top);
      WholeStates(nDims, m, s, top);
      LevelCovers(SubbandsOf(nDims, Halved(m), 2 * s, nLevels - 1), nDims, 1, Done(false, false, false), m, s, top);
    }
  }

  lemma DeepNext(nDims: nat, m: V3, nLevels: nat)
    requires nLevels > 0 && Deep(nDims, m, nLevels)
    ensures Deep(nDims, m, 1) && Deep(nDims, Halved(m), nLevels - 1)
  {
    assert Deep(nDims, Halved(m), 0);
  }

  lemma OneCovers(g: Grid)
    ensures Covers([g]) && Divisible([g])
  {
  }

  /** A domain of one sample has one subband. */
  lemma {:induction false} SingleSample(m: V3, s: nat, nLevels: nat)
    requires m == V3(1, 1, 1) && s > 0
    ensures var subs := SubbandsOf(0, m, s, nLevels);
            && subs == [Whole(0, m, s, s * Pow2(nLevels))] && Aggregates(subs) == subs
            && Covers(subs) && Divisible(subs)
    decreases nLevels
  {
    if nLevels > 0 {
      SingleSample(m, 2 * s, nLevels - 1);
      assert 2 * s * Pow2(nLevels - 1) == s * (2 * Pow2(nLevels - 1));
      assert Level(0, 1, m, s) == [];
    }
  }

  /** When every subband has samples, aggregate `a` holds the subbands up to `a`, and the last aggregate is
      the whole domain. */
  lemma AggregatesRestoreDomain(n: V3, nLevels: nat)
    requires Trailing(n) && Deep(NumDims(n), n, nLevels)
    ensures var subs := SubbandsOf(NumDims(n), n, 1, nLevels);
            && |subs| >= 1 && Divisible(subs)
            && (forall a, i, p :: 0 <= i <= a < |subs| && In(p, subs[i]) ==> In(p, Aggregates(subs)[a]))
            && (forall p :: In(p, Aggregates(subs)[|subs| - 1]) <==> InDomain(p, n))
  {
    hide In1, Aggregates, SubbandsOf;
    var nDims, subs, top := NumDims(n), SubbandsOf(NumDims(n), n, 1, nLevels), Pow2(nLevels);
    if nDims == 0 { SingleSample(n, 1, nLevels); } else { AggregatesCover(nDims, n, 1, nLevels, top); }
    forall p ensures In(p, Whole(nDims, n, 1, top)) <==> InDomain(p, n) {
      DomainIs(p, n);
      Single1(p.x, top);
      Single1(p.x, 1);
      Single1(p.y, top);
      Single1(p.y, 1);
      Single1(p.z, top);
      Single1(p.z, 1);
    }
  }

  // ---------------------------------------------------------------- aggregates of any built list

  predicate Sampled(m: V3) {
    1 <= m.x && 1 <= m.y && 1 <= m.z
  }

  /** `t` is `s` doubled any number of times. */
  predicate Doubled(t: nat, s: nat)
    decreases t
  {
    s > 0 && (t == s || (t > s && t % 2 == 0 && Doubled(t / 2, s)))
  }

  lemma {:induction false} DoubledLess(t: nat, s: nat)
    requires s > 0 && Doubled(t, 2 * s)
    ensures Doubled(t, s) && t >= 2 * s
    decreases t
  {
    if t > 2 * s { DoubledLess(t / 2, s); }
  }

  /** A direction of an aggregate has at least the samples of `AxisDim`, at the stride of `AxisStrd` or that
      doubled. */
  predicate Reaches1(done: bool, dim: nat, strd: nat, m: nat, s: nat) {
    s > 0 && dim >= AxisDim(done, m) && Doubled(strd, AxisStrd(done, s))
  }

  predicate Exact1(done: bool, dim: nat, strd: nat, m: nat, s: nat) {
    dim == AxisDim(done, m) && strd == AxisStrd(done, s)
  }

  /** A subband on the odd samples completes a direction, but does not put right what is not exact. */
  lemma AxisMoves(done: bool, c: nat, dim: nat, strd: nat, m: nat, s: nat)
    requires Reaches1(done, dim, strd, m, s) && c <= 1 && Half(c, m) > 0
    ensures var dim1, strd1 := AggDim1(0, dim, strd, At(c, s), Half(c, m)), AggStrd1(0, strd, At(c, s));
            && Reaches1(done || c == 1, dim1, strd1, m, s)
            && (!Exact1(done, dim, strd, m, s) ==> !Exact1(done || c == 1, dim1, strd1, m, s))
  {
    if c == 0 {
      Multiple(strd, 0);
    } else if strd == s {
      Multiple(s, 1);
    } else {
      Below(s, strd);
      if !done && strd > 2 * s { DoubledLess(strd / 2, s); }
    }
  }

  lemma Below(n: nat, d: nat)
    requires n < d
    ensures n % d == n
  {
  }

  /** Where one sample is halved to one there is no odd subband, and the stride stays behind. */
  lemma AxisMissed(dim: nat, strd: nat, s: nat)
    requires Reaches1(false, dim, strd, 1, s)
    ensures Reaches1(true, dim, strd, 1, s) && !Exact1(true, dim, strd, 1, s)
  {
    DoubledLess(strd, s);
  }

  /** An aggregate reaches what it should in the transformed directions. */
  predicate Reaches(nDims: nat, d: Done, g: Grid, m: V3, s: nat) {
    && g.from == V3(0, 0, 0) && Strided(g) && !Empty(g)
    && (nDims >= 1 ==> Reaches1(d.x, g.dims.x, g.strd.x, m.x, s))
    && (nDims >= 2 ==> Reaches1(d.y, g.dims.y, g.strd.y, m.y, s))
    && (nDims >= 3 ==> Reaches1(d.z, g.dims.z, g.strd.z, m.z, s))
  }

  /** It is not exact in the directions `off`. */
  predicate Astray(nDims: nat, off: Done, d: Done, g: Grid, m: V3, s: nat) {
    && (nDims >= 1 && off.x ==> !Exact1(d.x, g.dims.x, g.strd.x, m.x, s))
    && (nDims >= 2 && off.y ==> !Exact1(d.y, g.dims.y, g.strd.y, m.y, s))
    && (nDims >= 3 && off.z ==> !Exact1(d.z, g.dims.z, g.strd.z, m.z, s))
  }

  /** A step in one direction, `on` if it is transformed. */
  lemma AxisGoesOn(on: bool, off: bool, done: bool, c: nat, dim: nat, strd: nat, m: nat, s: nat)
    requires c <= 1 && m >= 1 && dim > 0 && strd > 0
    requires on ==> Half(c, m) > 0 && Reaches1(done, dim, strd, m, s) && (off ==> !Exact1(done, dim, strd, m, s))
    ensures var from, more := if on then At(c, s) else 0, if on then Half(c, m) else 1;
            var dim1, strd1 := AggDim1(0, dim, strd, from, more), AggStrd1(0, strd, from);
            && dim1 > 0 && strd1 > 0
            && (on ==> Reaches1(done || c == 1, dim1, strd1, m, s) && (off ==> !Exact1(done || c == 1, dim1, strd1, m, s)))
  {
    hide Doubled, Exact1, At, Half, AggDim1, AggStrd1;
    if on {
      AxisMoves(done, c, dim, strd, m, s);
      DoubledSome(AggStrd1(0, strd, At(c, s)), AxisStrd(done || c == 1, s));
    } else {
      NotBetweenAny(dim, strd);
    }
  }

  lemma DoubledSome(t: nat, s: nat)
    requires Doubled(t, s)
    ensures t > 0
  {
  }

  lemma ReachesStep(nDims: nat, off: Done, d: Done, c: V3, g: Grid, m: V3, s: nat)
    requires 1 <= nDims <= 3 && Sampled(m) && c.x <= 1 && c.y <= 1 && c.z <= 1 && !Empty(Sub(nDims, c, m, s))
    requires Reaches(nDims, d, g, m, s) && Astray(nDims, off, d, g, m, s)
    ensures var g1 := AggStep(g, Sub(nDims, c, m, s));
            Reaches(nDims, Completed(d, c), g1, m, s) && Astray(nDims, off, Completed(d, c), g1, m, s)
  {
    hide AggDim1, AggStrd1, Reaches1, Exact1, Half, At;
    AxisGoesOn(true, off.x, d.x, c.x, g.dims.x, g.strd.x, m.x, s);
    AxisGoesOn(nDims >= 2, off.y, d.y, c.y, g.dims.y, g.strd.y, m.y, s);
    AxisGoesOn(nDims >= 3, off.z, d.z, c.z, g.dims.z, g.strd.z, m.z, s);
  }

  lemma NotBetweenAny(dim: nat, strd: nat)
    requires strd > 0
    ensures AggDim1(0, dim, strd, 0, 1) == dim && AggStrd1(0, strd, 0) == strd
  {
  }

  /** The directions complete after the places from `j` on, skipping those without samples. */
  function DoneFrom(nDims: nat, d: Done, j: nat, m: V3, s: nat): Done
    requires nDims <= 3 && j <= Pow2(nDims)
    decreases Pow2(nDims) - j
  {
    if j == Pow2(nDims) then d
    else
      var e := if Existing(nDims, j, m, s) == [] then d else Completed(d, Corner(nDims, Order(nDims, j)));
      DoneFrom(nDims, e, j + 1, m, s)
  }

  lemma LevelNext(nDims: nat, d: Done, j: nat, m: V3, s: nat)
    requires nDims <= 3 && j < Pow2(nDims)
    ensures var c := Corner(nDims, Order(nDims, j));
            var g := Sub(nDims, c, m, s);
            && Level(nDims, j, m, s) == (if Empty(g) then [] else [g]) + Level(nDims, j + 1, m, s)
            && DoneFrom(nDims, d, j, m, s) == DoneFrom(nDims, if Empty(g) then d else Completed(d, c), j + 1, m, s)
  {
    hide Corner, Order, Sub;
  }

  lemma {:induction false} LevelReaches(pre: seq<Grid>, nDims: nat, j: nat, off: Done, d: Done, m: V3, s: nat)
    requires 1 <= nDims <= 3 && 1 <= j <= Pow2(nDims) && Sampled(m) && |pre| >= 1 && Divisible(pre)
    requires var g := Aggregates(pre)[|pre| - 1]; Reaches(nDims, d, g, m, s) && Astray(nDims, off, d, g, m, s)
    ensures var subs, e := pre + Level(nDims, j, m, s), DoneFrom(nDims, d, j, m, s);
            var g := Aggregates(subs)[|subs| - 1];
            Divisible(subs) && Reaches(nDims, e, g, m, s) && Astray(nDims, off, e, g, m, s)
    decreases Pow2(nDims) - j
  {
    hide Divisible, Aggregates, Corner, Order, AggStep, Reaches, Astray, Sub, Level, DoneFrom, Empty, Completed;
    if j == Pow2(nDims) {
      NoLevel(nDims, d, m, s);
      assert pre + [] == pre;
    } else {
      var c := Corner(nDims, Order(nDims, j));
      var g := Sub(nDims, c, m, s);
      LevelNext(nDims, d, j, m, s);
      if Empty(g) {
        assert [] + Level(nDims, j + 1, m, s) == Level(nDims, j + 1, m, s);
        LevelReaches(pre, nDims, j + 1, off, d, m, s);
      } else {
        ReachesStep(nDims, off, d, c, Aggregates(pre)[|pre| - 1], m, s);
        ReachesStrided(nDims, d, Aggregates(pre)[|pre| - 1], m, s);
        DivisibleSnoc(pre, g);
        AggregatesSnoc(pre, g);
        LevelReaches(pre + [g], nDims, j + 1, off, Completed(d, c), m, s);
        Assoc(pre, [g], Level(nDims, j + 1, m, s));
      }
    }
  }

  lemma NoLevel(nDims: nat, d: Done, m: V3, s: nat)
    requires nDims <= 3
    ensures Level(nDims, Pow2(nDims), m, s) == [] && DoneFrom(nDims, d, Pow2(nDims), m, s) == d
  {
  }

  lemma ReachesStrided(nDims: nat, d: Done, g: Grid, m: V3, s: nat)
    requires Reaches(nDims, d, g, m, s)
    ensures Strided(g)
  {
  }

  /** What is complete stays so, and a place with samples completes its directions. */
  lemma {:induction false} DoneAt(nDims: nat, d: Done, j: nat, k: nat, m: V3, s: nat)
    requires nDims <= 3 && j <= k <= Pow2(nDims) && (k < Pow2(nDims) ==> Existing(nDims, k, m, s) != [])
    ensures var e := DoneFrom(nDims, d, j, m, s); (d.x ==> e.x) && (d.y ==> e.y) && (d.z ==> e.z)
    ensures k < Pow2(nDims) ==>
              var e, c := DoneFrom(nDims, d, j, m, s), Corner(nDims, Order(nDims, k));
              (c.x == 1 ==> e.x) && (c.y == 1 ==> e.y) && (c.z == 1 ==> e.z)
    decreases Pow2(nDims) - j
  {
    hide Corner, Order, Existing;
    if j < Pow2(nDims) {
      var e := if Existing(nDims, j, m, s) == [] then d else Completed(d, Corner(nDims, Order(nDims, j)));
      DoneAt(nDims, e, j + 1, if j < k then k else Pow2(nDims), m, s);
    }
  }

  /** A direction of one sample has no odd half to complete it. */
  lemma {:induction false} DoneOnly(nDims: nat, d: Done, j: nat, m: V3, s: nat)
    requires 1 <= nDims <= 3 && j <= Pow2(nDims)
    ensures var e := DoneFrom(nDims, d, j, m, s);
            && (nDims >= 1 && e.x ==> d.x || m.x >= 2) && (nDims >= 2 && e.y ==> d.y || m.y >= 2)
            && (nDims >= 3 && e.z ==> d.z || m.z >= 2)
    decreases Pow2(nDims) - j
  {
    hide Corner, Order;
    if j < Pow2(nDims) {
      var e := if Existing(nDims, j, m, s) == [] then d else Completed(d, Corner(nDims, Order(nDims, j)));
      DoneOnly(nDims, e, j + 1, m, s);
    }
  }

  /** Complete are just the directions with more than one sample. */
  predicate DoneRight(nDims: nat, e: Done, m: V3) {
    && (nDims >= 1 ==> (m.x >= 2 <==> e.x)) && (nDims >= 2 ==> (m.y >= 2 <==> e.y)) && (nDims >= 3 ==> (m.z >= 2 <==> e.z))
  }

  const NONE := Done(false, false, false)

  /** They are completed by their own subband. */
  lemma DoneWhere(nDims: nat, m: V3, s: nat)
    requires 1 <= nDims <= 3 && Sampled(m)
    ensures DoneRight(nDims, DoneFrom(nDims, NONE, 1, m, s), m)
  {
    hide DoneFrom, Order;
    var d := NONE;
    DoneOnly(nDims, d, 1, m, s);
    if nDims == 3 {
      Places3(m, s);
      if m.x >= 2 { DoneAt(3, d, 1, 3, m, s); }
      if m.y >= 2 { DoneAt(3, d, 1, 2, m, s); }
      if m.z >= 2 { DoneAt(3, d, 1, 1, m, s); }
    } else if nDims == 2 {
      Places2();
      if m.x >= 2 { DoneAt(2, d, 1, 2, m, s); }
      if m.y >= 2 { DoneAt(2, d, 1, 1, m, s); }
    } else {
      Places1();
      if m.x >= 2 { DoneAt(1, d, 1, 1, m, s); }
    }
  }

  lemma Places2()
    ensures Pow2(2) == 4 && Corner(2, Order(2, 1)) == V3(0, 1, 1) && Corner(2, Order(2, 2)) == V3(1, 0, 0)
  {
  }

  lemma Places1()
    ensures Pow2(1) == 2 && Corner(1, Order(1, 1)).x == 1
  {
  }

  /** One direction is halved `nLevels` times without coming down to one sample before. */
  predicate Deep1(m: nat, nLevels: nat)
    decreases nLevels
  {
    nLevels == 0 || (m >= 2 && Deep1((m + 1) / 2, nLevels - 1))
  }

  lemma {:induction false} DeepIsDeep1(nDims: nat, m: V3, nLevels: nat)
    ensures Deep(nDims, m, nLevels) <==>
              && (nDims < 1 || Deep1(m.x, nLevels)) && (nDims < 2 || Deep1(m.y, nLevels)) && (nDims < 3 || Deep1(m.z, nLevels))
    decreases nLevels
  {
    if nLevels > 0 { DeepIsDeep1(nDims, Halved(m), nLevels - 1); }
  }

  /** The directions that come down to one sample too early. */
  function Shallow(m: V3, nLevels: nat): Done {
    Done(!Deep1(m.x, nLevels), !Deep1(m.y, nLevels), !Deep1(m.z, nLevels))
  }

  const ALL := Done(true, true, true)

  /** Where a level is over, a direction is complete or was one sample. */
  lemma LevelOver(nDims: nat, e: Done, g: Grid, m: V3, s: nat, nLevels: nat)
    requires 1 <= nDims <= 3 && Sampled(m) && nLevels > 0
    requires Reaches(nDims, e, g, m, s) && Astray(nDims, Shallow(Halved(m), nLevels - 1), e, g, m, s)
    requires DoneRight(nDims, e, m)
    ensures Reaches(nDims, ALL, g, m, s) && Astray(nDims, Shallow(m, nLevels), ALL, g, m, s)
  {
    hide Reaches1, Exact1, Strided, Empty;
    AxisOver(e.x, g.dims.x, g.strd.x, m.x, s, nLevels);
    if nDims >= 2 { AxisOver(e.y, g.dims.y, g.strd.y, m.y, s, nLevels); }
    if nDims >= 3 { AxisOver(e.z, g.dims.z, g.strd.z, m.z, s, nLevels); }
  }

  lemma AxisOver(done: bool, dim: nat, strd: nat, m: nat, s: nat, nLevels: nat)
    requires nLevels > 0 && m >= 1 && Reaches1(done, dim, strd, m, s) && (m >= 2 <==> done)
    requires !Deep1((m + 1) / 2, nLevels - 1) ==> !Exact1(done, dim, strd, m, s)
    ensures Reaches1(true, dim, strd, m, s)
    ensures !Deep1(m, nLevels) ==> !Exact1(true, dim, strd, m, s)
  {
    hide Reaches1, Exact1;
    if !done { AxisMissed(dim, strd, s); }
  }

  /** No stride is ever halved to nothing, for any list that is built; and the directions that come down to one
      sample too early are not restored. */
  lemma {:induction false} AggregatesReach(nDims: nat, m: V3, s: nat, nLevels: nat)
    requires 1 <= nDims <= 3 && Sampled(m) && s > 0
    ensures var subs := SubbandsOf(nDims, m, s, nLevels);
            && |subs| >= 1 && Divisible(subs)
            && Reaches(nDims, ALL, Aggregates(subs)[|subs| - 1], m, s)
            && Astray(nDims, Shallow(m, nLevels), ALL, Aggregates(subs)[|subs| - 1], m, s)
    decreases nLevels
  {
    hide Divisible, Aggregates, DoneFrom, Level, Reaches, Astray, DoneRight, Shallow;
    if nLevels == 0 {
      CoarseReaches(nDims, m, s);
    } else {
      var pre := SubbandsOf(nDims, Halved(m), 2 * s, nLevels - 1);
      AggregatesReach(nDims, Halved(m), 2 * s, nLevels - 1);
      var g, off := Aggregates(pre)[|pre| - 1], Shallow(Halved(m), nLevels - 1);
      NextLevel(nDims, off, g, m, s);
      LevelReaches(pre, nDims, 1, off, NONE, m, s);
      DoneWhere(nDims, m, s);
      var subs := pre + Level(nDims, 1, m, s);
      LevelOver(nDims, DoneFrom(nDims, NONE, 1, m, s), Aggregates(subs)[|subs| - 1], m, s, nLevels);
    }
  }

  lemma CoarseReaches(nDims: nat, m: V3, s: nat)
    requires 1 <= nDims <= 3 && Sampled(m) && s > 0
    ensures var c := [Coarse(m, s)];
            && Divisible(c) && Aggregates(c) == c
            && Reaches(nDims, ALL, c[0], m, s) && Astray(nDims, Shallow(m, 0), ALL, c[0], m, s)
  {
  }

  /** Complete on a level is not yet complete on the next. */
  lemma NextLevel(nDims: nat, off: Done, g: Grid, m: V3, s: nat)
    requires s > 0 && Reaches(nDims, ALL, g, Halved(m), 2 * s) && Astray(nDims, off, ALL, g, Halved(m), 2 * s)
    ensures Reaches(nDims, NONE, g, m, s) && Astray(nDims, off, NONE, g, m, s)
  {
    hide Doubled;
  }

  /** A grid of at least `n` samples in the transformed directions is the domain only if it has exactly those,
      side by side. */
  lemma NotDomain(nDims: nat, g: Grid, n: V3) returns (p: V3)
    requires 1 <= nDims <= 3 && Sampled(n) && Reaches(nDims, ALL, g, n, 1)
    requires (nDims >= 1 ==> n.x >= 2) && (nDims >= 2 ==> n.y >= 2) && (nDims >= 3 ==> n.z >= 2)
    requires || !Exact1(true, g.dims.x, g.strd.x, n.x, 1)
             || (nDims >= 2 && !Exact1(true, g.dims.y, g.strd.y, n.y, 1))
             || (nDims >= 3 && !Exact1(true, g.dims.z, g.strd.z, n.z, 1))
    ensures In(p, g) != InDomain(p, n)
  {
    hide In1, Doubled;
    At0(g.dims.x, g.strd.x);
    At0(g.dims.y, g.strd.y);
    At0(g.dims.z, g.strd.z);
    if !Exact1(true, g.dims.x, g.strd.x, n.x, 1) {
      var x := Differs(g.dims.x, g.strd.x, n.x);
      p := V3(x, 0, 0);
    } else if nDims >= 2 && !Exact1(true, g.dims.y, g.strd.y, n.y, 1) {
      var y := Differs(g.dims.y, g.strd.y, n.y);
      p := V3(0, y, 0);
    } else {
      var z := Differs(g.dims.z, g.strd.z, n.z);
      p := V3(0, 0, z);
    }
  }

  lemma At0(dim: nat, strd: nat)
    requires dim > 0 && strd > 0
    ensures In1(0, 0, dim, strd)
  {
    IsIn1(0, 0, dim, strd, 0);
  }

  lemma Differs(dim: nat, strd: nat, n: nat) returns (x: nat)
    requires n >= 2 && dim >= n && strd > 0 && !(dim == n && strd == 1)
    ensures In1(x, 0, dim, strd) != (x < n)
  {
    if strd > 1 {
      x := 1;
      Below(1, strd);
    } else {
      x := n;
      IsIn1(n, 0, dim, 1, n);
    }
  }

  /** The first subband decides the stride of the directions that are not transformed. */
  lemma {:induction false} StrideStays(nDims: nat, subs: seq<Grid>)
    requires |subs| >= 1 && subs[0].from == V3(0, 0, 0) && Strided(subs[0])
    requires forall g :: g in subs ==> (nDims < 2 ==> g.from.y == 0) && (nDims < 3 ==> g.from.z == 0)
    ensures var g := Aggregates(subs)[|subs| - 1];
            && g.from == V3(0, 0, 0)
            && (nDims < 2 ==> g.strd.y == subs[0].strd.y) && (nDims < 3 ==> g.strd.z == subs[0].strd.z)
    decreases |subs|
  {
    hide Strided, AggDim1;
    if |subs| > 1 {
      var had := subs[..|subs| - 1];
      assert had[0] == subs[0] && subs[|subs| - 1] in subs;
      StrideStays(nDims, had);
      Multiple(1, 0);
    }
  }

  /** The origins of the subbands, and the stride of the coarsest. */
  lemma {:induction false} Origins(nDims: nat, m: V3, s: nat, nLevels: nat)
    requires nDims <= 3 && s > 0
    ensures var subs := SubbandsOf(nDims, m, s, nLevels);
            && |subs| >= 1 && subs[0].from == V3(0, 0, 0)
            && subs[0].strd == V3(s * Pow2(nLevels), s * Pow2(nLevels), s * Pow2(nLevels))
            && forall g :: g in subs ==> (nDims < 2 ==> g.from.y == 0) && (nDims < 3 ==> g.from.z == 0)
    decreases nLevels
  {
    hide Level;
    if nLevels > 0 {
      Origins(nDims, Halved(m), 2 * s, nLevels - 1);
      LevelOrigins(nDims, 1, m, s);
      assert 2 * s * Pow2(nLevels - 1) == s * (2 * Pow2(nLevels - 1));
    }
  }

  lemma {:induction false} LevelOrigins(nDims: nat, j: nat, m: V3, s: nat)
    requires nDims <= 3 && j <= Pow2(nDims)
    ensures forall g :: g in Level(nDims, j, m, s) ==> (nDims < 2 ==> g.from.y == 0) && (nDims < 3 ==> g.from.z == 0)
    decreases Pow2(nDims) - j
  {
    hide Corner, Order;
    if j < Pow2(nDims) { LevelOrigins(nDims, j + 1, m, s); }
  }

  /** With a level, no aggregate has the second sample of a direction that is left out. */
  lemma SkippedNotDomain(n: V3, nLevels: nat) returns (p: V3)
    requires Sampled(n) && Skipped(NumDims(n), n) && nLevels > 0
    ensures var subs := SubbandsOf(NumDims(n), n, 1, nLevels);
            |subs| >= 1 && InDomain(p, n) && !In(p, Aggregates(subs)[|subs| - 1])
  {
    hide Aggregates, SubbandsOf, In1;
    var nDims := NumDims(n);
    var subs := SubbandsOf(nDims, n, 1, nLevels);
    Origins(nDims, n, 1, nLevels);
    assert Pow2(nLevels) == 2 * Pow2(nLevels - 1);
    StrideStays(nDims, subs);
    var g := Aggregates(subs)[|subs| - 1];
    if nDims < 2 && n.y > 1 {
      p := V3(0, 1, 0);
      EvenMisses(0, g.dims.y, g.strd.y);
    } else {
      p := V3(0, 0, 1);
      EvenMisses(0, g.dims.z, g.strd.z);
    }
  }

  /** Every remainder is defined for any list that is built. */
  lemma AlwaysDivisible(n: V3, nLevels: nat)
    requires Sampled(n)
    ensures |SubbandsOf(NumDims(n), n, 1, nLevels)| >= 1 && Divisible(SubbandsOf(NumDims(n), n, 1, nLevels))
  {
    hide Divisible, SubbandsOf, Aggregates, Reaches, Astray;
    if NumDims(n) == 0 { SingleSample(n, 1, nLevels); } else { AggregatesReach(NumDims(n), n, 1, nLevels); }
  }

  /** The last aggregate is the domain exactly if directions of one sample come last (or there is no level) and
      no other direction comes down to one sample before the last level. Whether or not, every remainder taken
      on the way is defined. */
  lemma AggregateIsDomain(n: V3, nLevels: nat)
    requires Sampled(n)
    ensures var subs := SubbandsOf(NumDims(n), n, 1, nLevels);
            && |subs| >= 1 && Divisible(subs)
            && ((forall p :: In(p, Aggregates(subs)[|subs| - 1]) <==> InDomain(p, n)) <==>
                  (Trailing(n) || nLevels == 0) && Deep(NumDims(n), n, nLevels))
  {
    hide In, Aggregates, SubbandsOf, InDomain, Divisible, Deep, Reaches, Exact1, Deep1, Trailing;
    var nDims, subs := NumDims(n), SubbandsOf(NumDims(n), n, 1, nLevels);
    SkippedIs(n);
    AlwaysDivisible(n, nLevels);
    if nLevels == 0 {
      NoLevelAggregate(nDims, n);
    } else if !Trailing(n) {
      var p := SkippedNotDomain(n, nLevels);
    } else if Deep(nDims, n, nLevels) {
      AggregatesRestoreDomain(n, nLevels);
    } else {
      DeepIsDeep1(nDims, n, nLevels);
      AggregatesReach(nDims, n, 1, nLevels);
      var p := NotDomain(nDims, Aggregates(subs)[|subs| - 1], n);
    }
  }

  lemma NoLevelAggregate(nDims: nat, n: V3)
    requires nDims <= 3
    ensures var subs := SubbandsOf(nDims, n, 1, 0);
            && |subs| == 1 && Deep(nDims, n, 0)
            && forall p :: In(p, Aggregates(subs)[|subs| - 1]) <==> InDomain(p, n)
  {
    hide In, InDomain;
    forall p ensures In(p, Coarse(n, 1)) <==> InDomain(p, n) { DomainIs(p, n); }
  }

  /** Two samples, two levels: the coarser level has no odd sample, and its subband is left out. */
  const SPARSE: seq<Grid> := [Grid(V3(0, 0, 0), V3(1, 1, 1), V3(4, 4, 4)), Grid(V3(1, 0, 0), V3(1, 1, 1), V3(2, 2, 2))]

  lemma SparseIsBuilt()
    ensures SubbandsOf(1, V3(2, 1, 1), 1, 2) == SPARSE && NumDims(V3(2, 1, 1)) == 1
  {
    hide Level, Sub, Corner, Order;
    SparseLevels();
    var one := V3(1, 1, 1);
    assert SubbandsOf(1, one, 4, 0) == [Coarse(one, 4)];
    assert SubbandsOf(1, one, 2, 1) == [Coarse(one, 4)] + [];
    assert SubbandsOf(1, V3(2, 1, 1), 1, 2) == ([Coarse(one, 4)] + []) + [SPARSE[1]];
  }

  lemma SparseLevels()
    ensures Level(1, 1, V3(1, 1, 1), 2) == [] && Level(1, 1, V3(2, 1, 1), 1) == [SPARSE[1]]
    ensures Halved(V3(2, 1, 1)) == V3(1, 1, 1) && Halved(V3(1, 1, 1)) == V3(1, 1, 1)
  {
    assert Pow2(1) == 2 && Corner(1, Order(1, 1)).x == 1;
  }

  /** Where a subband is empty the aggregates can leave the domain: this one holds a third sample. */
  lemma EmptySubbandSpoilsAggregate()
    ensures |SPARSE| == 2 && In(V3(2, 0, 0), Aggregates(SPARSE)[1])
    ensures !InDomain(V3(2, 0, 0), V3(2, 1, 1))
  {
    hide In, AggStep;
    var x, y := SPARSE[0], SPARSE[1];
    assert Aggregates([x]) == [x];
    AggregatesSnoc([x], y);
    assert SPARSE == [x] + [y];
    SparseStep();
  }

  lemma SparseStep()
    ensures In(V3(2, 0, 0), AggStep(SPARSE[0], SPARSE[1]))
  {
    assert AggStep(SPARSE[0], SPARSE[1]) == Grid(V3(0, 0, 0), V3(2, 1, 1), V3(2, 4, 4));
  }

  /** Every subband has samples exactly when all places are filled: seven a level in three dimensions. */
  lemma {:induction false} DeepIsFull(nDims: nat, m: V3, s: nat, nLevels: nat)
    requires 1 <= nDims <= 3 && Shaped(nDims, m)
    ensures |SubbandsOf(nDims, m, s, nLevels)| <= (Pow2(nDims) - 1) * nLevels + 1
    ensures Deep(nDims, m, nLevels) <==> |SubbandsOf(nDims, m, s, nLevels)| == (Pow2(nDims) - 1) * nLevels + 1
    decreases nLevels
  {
    hide Level, Existing;
    if nLevels > 0 {
      DeepIsFull(nDims, Halved(m), 2 * s, nLevels - 1);
      LevelFull(nDims, m, s);
      assert (Pow2(nDims) - 1) * nLevels == (Pow2(nDims) - 1) * (nLevels - 1) + (Pow2(nDims) - 1);
    }
  }

  lemma LevelFull(nDims: nat, m: V3, s: nat)
    requires 1 <= nDims <= 3 && Shaped(nDims, m)
    ensures |Level(nDims, 1, m, s)| <= Pow2(nDims) - 1
    ensures Deep(nDims, m, 1) <==> |Level(nDims, 1, m, s)| == Pow2(nDims) - 1
  {
    hide Existing;
    LevelAtMost(nDims, 1, m, s);
    if Deep(nDims, m, 1) {
      LevelCount(nDims, 1, m, s);
    } else {
      LevelMisses(nDims, m, s);
    }
  }

  lemma {:induction false} LevelAtMost(nDims: nat, j: nat, m: V3, s: nat)
    requires nDims <= 3 && j <= Pow2(nDims)
    ensures |Level(nDims, j, m, s)| <= Pow2(nDims) - j
    decreases Pow2(nDims) - j
  {
    hide Existing;
    if j < Pow2(nDims) { LevelAtMost(nDims, j + 1, m, s); }
  }

  lemma {:induction false} LevelCount(nDims: nat, j: nat, m: V3, s: nat)
    requires 1 <= nDims <= 3 && j <= Pow2(nDims) && Deep(nDims, m, 1)
    ensures |Level(nDims, j, m, s)| == Pow2(nDims) - j
    decreases Pow2(nDims) - j
  {
    hide Corner, Order, Sub;
    if j < Pow2(nDims) {
      SubExists(nDims, Corner(nDims, Order(nDims, j)), m, s);
      LevelCount(nDims, j + 1, m, s);
    }
  }

  /** A direction of one sample leaves a place empty. */
  lemma LevelMisses(nDims: nat, m: V3, s: nat)
    requires 1 <= nDims <= 3 && Shaped(nDims, m) && !Deep(nDims, m, 1)
    ensures |Level(nDims, 1, m, s)| < Pow2(nDims) - 1
  {
    var last := Pow2(nDims) - 1;
    LastMissing(nDims, m, s);
    LevelThrough(nDims, 1, m, s);
  }

  lemma LastMissing(nDims: nat, m: V3, s: nat)
    requires 1 <= nDims <= 3 && Shaped(nDims, m) && !Deep(nDims, m, 1)
    ensures Existing(nDims, Pow2(nDims) - 1, m, s) == []
  {
    Places3(m, s);
    assert Pow2(2) == 4 && Pow2(1) == 2;
    assert Corner(2, Order(2, 3)).x == 1 && Corner(2, Order(2, 3)).y == 1 && Corner(1, Order(1, 1)).x == 1;
    assert Deep(nDims, Halved(m), 0);
  }

  lemma {:induction false} LevelThrough(nDims: nat, j: nat, m: V3, s: nat)
    requires 1 <= nDims <= 3 && j < Pow2(nDims) && Existing(nDims, Pow2(nDims) - 1, m, s) == []
    ensures |Level(nDims, j, m, s)| < Pow2(nDims) - j
    decreases Pow2(nDims) - j
  {
    hide Existing;
    if j + 1 < Pow2(nDims) {
      LevelThrough(nDims, j + 1, m, s);
    }
  }

  // ---------------------------------------------------------------- numbering

  function Not(b: nat): nat { if b == 0 then 1 else 0 }

  /** SubbandToLevel; `norm` asks for the corner alone. */
  function SubbandToLevel(nDims: nat, sb: nat, norm: bool): V3
    requires 1 <= nDims <= 3
  {
    if sb == 0 then V3(0, 0, 0)
    else
      var lvl := LevelOf(nDims, sb);
      var code := Order(nDims, PlaceOf(nDims, sb));
      var x, y, z := BitSet(code, nDims - 1), BitSet(code, Max(nDims - 2, 0)), BitSet(code, 0);
      if norm then V3(x, y, z) else V3(lvl - Not(x), lvl - Not(y), lvl - Not(z))
  }

  /** The level of subband `sb`, counted from the coarsest. */
  function LevelOf(nDims: nat, sb: nat): (r: nat)
    requires 1 <= nDims <= 3 && sb > 0
    ensures r >= 1 && (Pow2(nDims) - 1) * (r - 1) < sb <= (Pow2(nDims) - 1) * r
  {
    var n := Pow2(nDims) - 1;
    assert n == if nDims == 1 then 1 else if nDims == 2 then 3 else 7;
    (sb + n - 1) / n
  }

  /** The place of subband `sb` within its level. */
  function PlaceOf(nDims: nat, sb: nat): (r: nat)
    requires 1 <= nDims <= 3 && sb > 0
    ensures 1 <= r < Pow2(nDims)
  {
    sb - (Pow2(nDims) - 1) * (LevelOf(nDims, sb) - 1)
  }

  /** LevelToSubband, for three dimensions. */
  function LevelToSubband(l: V3): nat {
    if l.x + l.y + l.z == 0 then 0
    else
      var lvl := Max(Max(l.x, l.y), l.z);
      7 * (lvl - 1) + Order(3, 4 * One(l.x == lvl) + 2 * One(l.y == lvl) + One(l.z == lvl))
  }

  lemma SevenALevel(sb: nat)
    requires sb > 0
    ensures var lvl := (sb + 6) / 7;
            && lvl == LevelOf(3, sb) >= 1 && Pow2(3) == 8
            && sb == 7 * (lvl - 1) + PlaceOf(3, sb) && 1 <= PlaceOf(3, sb) <= 7
  {
    assert Pow2(3) == 8;
  }

  /** The level and corner of a number, in three dimensions. */
  lemma LevelIs(sb: nat)
    requires sb > 0
    ensures var lvl, c := (sb + 6) / 7, Corner(3, Order(3, PlaceOf(3, sb)));
            && SubbandToLevel(3, sb, true) == c
            && lvl >= 1 && SubbandToLevel(3, sb, false) == V3(lvl - Not(c.x), lvl - Not(c.y), lvl - Not(c.z))
  {
    hide Order, BitSet;
    SevenALevel(sb);
  }

  lemma CodeOfCorner(j: nat)
    requires 1 <= j <= 7
    ensures Pow2(3) == 8
    ensures var c := Corner(3, Order(3, j));
            && 1 <= 4 * c.x + 2 * c.y + c.z <= 7 && Order(3, 4 * c.x + 2 * c.y + c.z) == j
  {
    Places3(V3(1, 1, 1), 1);
  }

  /** A subband's number is recovered from its level. */
  lemma NumberOfLevel(sb: nat)
    ensures LevelToSubband(SubbandToLevel(3, sb, false)) == sb
  {
    hide Corner, Order, SubbandToLevel, PlaceOf;
    if sb == 0 {
      ZeroLevel();
    } else {
      SevenALevel(sb);
      LevelIs(sb);
      CodeOfCorner(PlaceOf(3, sb));
    }
  }

  lemma ZeroLevel()
    ensures SubbandToLevel(3, 0, false) == V3(0, 0, 0)
  {
  }

  /** The levels a subband can have: all components at its level or one below, one at it. */
  predicate IsLevel(l: V3) {
    var lvl := Max(Max(l.x, l.y), l.z);
    l.x + 1 >= lvl && l.y + 1 >= lvl && l.z + 1 >= lvl
  }

  lemma LevelOfNumber(l: V3)
    requires IsLevel(l)
    ensures SubbandToLevel(3, LevelToSubband(l), false) == l
  {
    hide Corner, Order, SubbandToLevel, PlaceOf;
    if l.x + l.y + l.z == 0 {
      ZeroLevel();
    } else {
      var lvl := Max(Max(l.x, l.y), l.z);
      var code := 4 * One(l.x == lvl) + 2 * One(l.y == lvl) + One(l.z == lvl);
      assert Pow2(3) == 8;
      CornerOfCode(code);
      var sb := LevelToSubband(l);
      assert sb == 7 * (lvl - 1) + Order(3, code);
      assert (sb + 6) / 7 == lvl;
      SevenALevel(sb);
      assert PlaceOf(3, sb) == Order(3, code);
      LevelIs(sb);
    }
  }

  lemma CornerOfCode(code: nat)
    requires 1 <= code <= 7
    ensures Pow2(3) == 8 && 1 <= Order(3, code) <= 7
    ensures var c := Corner(3, Order(3, Order(3, code))); code == 4 * c.x + 2 * c.y + c.z
  {
    Places3(V3(1, 1, 1), 1);
  }

  /** The origin of `g` is the corner `c` times half the stride. */
  predicate StartsAt(g: Grid, c: V3) {
    g.from.x == c.x * g.strd.x / 2 && g.from.y == c.y * g.strd.y / 2 && g.from.z == c.z * g.strd.z / 2
  }

  /** In three dimensions, with every subband present, subband `sb` starts at its corner times half its stride. */
  lemma {:induction false} OriginOfNumber(m: V3, s: nat, nLevels: nat, sb: nat)
    requires Shaped(3, m) && Deep(3, m, nLevels) && sb < |SubbandsOf(3, m, s, nLevels)|
    ensures StartsAt(SubbandsOf(3, m, s, nLevels)[sb], SubbandToLevel(3, sb, true))
    decreases nLevels
  {
    hide Level, SubbandToLevel, Order, Corner, Deep, PlaceOf;
    Pow3();
    DeepIsFull(3, m, s, nLevels);
    if nLevels == 0 {
      ZeroNorm();
    } else {
      DeepNext(3, m, nLevels);
      DeepIsFull(3, Halved(m), 2 * s, nLevels - 1);
      var k := |SubbandsOf(3, Halved(m), 2 * s, nLevels - 1)|;
      if sb < k {
        OriginOfNumber(Halved(m), 2 * s, nLevels - 1, sb);
      } else {
        LevelIs(sb);
        SevenALevel(sb);
        assert PlaceOf(3, sb) == sb - k + 1;
        LevelAt(m, s, 1, sb - k);
        AtTwice(Corner(3, Order(3, sb - k + 1)), s);
      }
    }
  }

  lemma Pow3()
    ensures Pow2(3) == 8
  {
  }

  lemma ZeroNorm()
    ensures SubbandToLevel(3, 0, true) == V3(0, 0, 0)
  {
  }

  lemma AtTwice(c: V3, s: nat)
    requires c.x <= 1 && c.y <= 1 && c.z <= 1
    ensures At(c.x, s) == c.x * (2 * s) / 2 && At(c.y, s) == c.y * (2 * s) / 2 && At(c.z, s) == c.z * (2 * s) / 2
  {
  }

  lemma {:induction false} LevelAt(m: V3, s: nat, j: nat, i: nat)
    requires Shaped(3, m) && Deep(3, m, 1) && Pow2(3) == 8 && 1 <= j && j + i < 8
    ensures i < |Level(3, j, m, s)| && Level(3, j, m, s)[i] == Sub(3, Corner(3, Order(3, j + i)), m, s)
    decreases i
  {
    hide Corner, Order, Sub;
    SubExists(3, Corner(3, Order(3, j)), m, s);
    if i > 0 { LevelAt(m, s, j + 1, i - 1); }
  }
}
