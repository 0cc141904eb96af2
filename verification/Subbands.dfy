/** The subbands of the wavelet transform, as grids in place: which sample belongs to which subband, how
    subbands add up to coarser versions of the domain, and how they are numbered. */
module Subbands {

  datatype V3 = V3(x: nat, y: nat, z: nat)

  /** The samples `from + k * strd`, `k` below `dims` in each direction. */
  datatype Grid = Grid(from: V3, dims: V3, strd: V3)

  /** One direction of a grid. */
  predicate In1(x: nat, from: nat, dim: nat, strd: nat) {
    strd > 0 && from <= x && (x - from) % strd == 0 && (x - from) / strd < dim
  }

  predicate In(p: V3, g: Grid) {
    && In1(p.x, g.from.x, g.dims.x, g.strd.x)
    && In1(p.y, g.from.y, g.dims.y, g.strd.y)
    && In1(p.z, g.from.z, g.dims.z, g.strd.z)
  }

  function One(b: bool): nat { if b then 1 else 0 }

  /** How many of the grids hold sample `p`. */
  function Owners(grids: seq<Grid>, p: V3): nat {
    if grids == [] then 0 else Owners(grids[..|grids| - 1], p) + One(In(p, grids[|grids| - 1]))
  }

  // ---------------------------------------------------------------- building the subbands

  function NumDims(n: V3): (r: nat)
    ensures r <= 3
  {
    One(n.x > 1) + One(n.y > 1) + One(n.z > 1)
  }

  function Pow2(n: nat): (r: nat)
    ensures r >= 1
  {
    if n == 0 then 1 else 2 * Pow2(n - 1)
  }

  /** `SubbandOrders`: in three dimensions 3 and 4 change places. */
  function Order(nDims: nat, j: nat): (r: nat)
    requires nDims <= 3 && j < Pow2(nDims)
    ensures r < Pow2(nDims) && (j > 0 ==> r > 0)
  {
    if nDims == 3 && j == 3 then 4 else if nDims == 3 && j == 4 then 3 else j
  }

  function BitSet(v: nat, i: nat): (b: nat)
    ensures b <= 1
  {
    v / Pow2(i) % 2
  }

  function Max(a: int, b: int): int { if a < b then b else a }

  /** Which half of each direction the code of a subband names. */
  function Corner(nDims: nat, code: nat): (c: V3)
    ensures c.x <= 1 && c.y <= 1 && c.z <= 1
  {
    V3(BitSet(code, Max(nDims - 1, 0)), BitSet(code, Max(nDims - 2, 0)), BitSet(code, Max(nDims - 3, 0)))
  }

  function Halved(m: V3): V3 {
    V3((m.x + 1) / 2, (m.y + 1) / 2, (m.z + 1) / 2)
  }

  /** The coarsest samples: `m` of them in each direction, `s` apart. */
  function Coarse(m: V3, s: nat): Grid {
    Grid(V3(0, 0, 0), m, V3(s, s, s))
  }

  /** How many samples of `m` fall into one half: the even ones or the odd ones. */
  function Half(c: nat, m: nat): nat
    requires c <= 1
  {
    if c == 0 then (m + 1) / 2 else m - (m + 1) / 2
  }

  function At(c: nat, s: nat): nat { if c == 0 then 0 else s }

  /** The subband of the given corner: samples `2 * s` apart, the odd ones moved by `s`. Directions that are
      not transformed keep one sample. */
  function Sub(nDims: nat, c: V3, m: V3, s: nat): Grid
    requires c.x <= 1 && c.y <= 1 && c.z <= 1
  {
    Grid(V3(At(c.x, s), if nDims >= 2 then At(c.y, s) else 0, if nDims >= 3 then At(c.z, s) else 0),
         V3(Half(c.x, m.x), if nDims >= 2 then Half(c.y, m.y) else 1, if nDims >= 3 then Half(c.z, m.z) else 1),
         V3(2 * s, 2 * s, 2 * s))
  }

  predicate Empty(g: Grid) {
    g.dims.x == 0 || g.dims.y == 0 || g.dims.z == 0
  }

  /** The subband with place `j` in the order of its level, if it has samples. */
  function Existing(nDims: nat, j: nat, m: V3, s: nat): (r: seq<Grid>)
    requires nDims <= 3 && j < Pow2(nDims)
    ensures |r| <= 1
  {
    var g := Sub(nDims, Corner(nDims, Order(nDims, j)), m, s);
    if Empty(g) then [] else [g]
  }

  /** The subbands of one level from place `j` on. */
  function Level(nDims: nat, j: nat, m: V3, s: nat): seq<Grid>
    requires nDims <= 3 && j <= Pow2(nDims)
    decreases Pow2(nDims) - j
  {
    if j == Pow2(nDims) then [] else Existing(nDims, j, m, s) + Level(nDims, j + 1, m, s)
  }

  /** All subbands of `m` samples `s` apart, the coarsest first. */
  function SubbandsOf(nDims: nat, m: V3, s: nat, nLevels: nat): seq<Grid>
    requires nDims <= 3
    decreases nLevels
  {
    if nLevels == 0 then [Coarse(m, s)]
    else SubbandsOf(nDims, Halved(m), 2 * s, nLevels - 1) + Level(nDims, 1, m, s)
  }

  function Reversed(gs: seq<Grid>): seq<Grid> {
    if gs == [] then [] else [gs[|gs| - 1]] + Reversed(gs[..|gs| - 1])
  }

  /** One dimension or more has samples, and directions of one sample come last. */
  predicate Trailing(n: V3) {
    && 1 <= n.x && 1 <= n.y && 1 <= n.z
    && (n.x == 1 ==> n.y == 1) && (n.y == 1 ==> n.z == 1)
  }

  lemma Assoc(a: seq<Grid>, b: seq<Grid>, c: seq<Grid>)
    ensures a + (b + c) == (a + b) + c
  {
  }

  lemma PushedReversed(had: seq<Grid>, now: seq<Grid>, g: seq<Grid>)
    requires |g| <= 1 && now == had + g
    ensures Reversed(now) == g + Reversed(had)
  {
    if |g| == 1 { assert now[..|now| - 1] == had; } else { assert now == had; }
  }

  lemma AtIs(c: nat, s: nat)
    requires c <= 1 && s % 2 == 0
    ensures c * s / 2 == At(c, s / 2)
  {
  }

  /** The body of the loop over places: a grid for the subband, if it exists. */
  method PushIfExists(subbands: seq<Grid>, nDims: nat, j: nat, m: V3, p: V3, s: nat) returns (r: seq<Grid>)
    requires 1 <= nDims <= 3 && 0 < j < Pow2(nDims) && p == Halved(m) && s % 2 == 0 && s >= 2
    ensures r == subbands + Existing(nDims, j, m, s / 2)
  {
    hide BitSet, Order;
    var code := Order(nDims, j);
    var z, y, x := BitSet(code, Max(nDims - 3, 0)), BitSet(code, Max(nDims - 2, 0)), BitSet(code, Max(nDims - 1, 0));
    var sm := V3(if x == 0 then p.x else m.x - p.x, if y == 0 then p.y else m.y - p.y, if z == 0 then p.z else m.z - p.z);
    r := subbands;
    AtIs(x, s);
    AtIs(y, s);
    AtIs(z, s);
    if nDims == 3 && sm.x != 0 && sm.y != 0 && sm.z != 0 {
      r := r + [Grid(V3(x * s / 2, y * s / 2, z * s / 2), sm, V3(s, s, s))];
    } else if nDims == 2 && sm.x != 0 && sm.y != 0 {
      r := r + [Grid(V3(x * s / 2, y * s / 2, 0), V3(sm.x, sm.y, 1), V3(s, s, s))];
    } else if nDims == 1 && sm.x != 0 {
      r := r + [Grid(V3(x * s / 2, 0, 0), V3(sm.x, 1, 1), V3(s, s, s))];
    }
  }

  /** The subbands of one level, from the last place down. */
  method PushLevel(before: seq<Grid>, nDims: nat, m: V3, p: V3, s: nat) returns (subbands: seq<Grid>)
    requires nDims <= 3 && p == Halved(m) && s % 2 == 0 && s >= 2
    ensures Reversed(subbands) == Level(nDims, 1, m, s / 2) + Reversed(before)
  {
    hide Existing, Reversed, Halved;
    subbands := before;
    var j := Pow2(nDims) - 1;
    assert [] + Reversed(before) == Reversed(before);
    while j > 0
      invariant 0 <= j < Pow2(nDims)
      invariant Reversed(subbands) == Level(nDims, j + 1, m, s / 2) + Reversed(before)
    {
      ghost var had := subbands;
      ghost var g := Existing(nDims, j, m, s / 2);
      subbands := PushIfExists(subbands, nDims, j, m, p, s);
      PushedReversed(had, subbands, g);
      Assoc(g, Level(nDims, j + 1, m, s / 2), Reversed(before));
      j := j - 1;
    }
  }

  lemma SubbandsNext(nDims: nat, m: V3, s: nat, k: nat, done: seq<Grid>)
    requires nDims <= 3
    ensures SubbandsOf(nDims, Halved(m), 2 * s, k) + (Level(nDims, 1, m, s) + done) == SubbandsOf(nDims, m, s, k + 1) + done
  {
    Assoc(SubbandsOf(nDims, Halved(m), 2 * s, k), Level(nDims, 1, m, s), done);
  }

  /** BuildSubbands for grids: finest level first, each from its last place down, then reversed. */
  method BuildSubbands(n: V3, nLevels: nat) returns (subbands: seq<Grid>)
    ensures subbands == SubbandsOf(NumDims(n), n, 1, nLevels)
  {
    hide Level, SubbandsOf, Halved, Reversed, NumDims, Coarse;
    var nDims := NumDims(n);
    subbands := [];
    var m, s: nat := n, 1;
    NoneReversed();
    assert SubbandsOf(nDims, n, 1, nLevels) + [] == SubbandsOf(nDims, n, 1, nLevels);
    for i := 0 to nLevels
      invariant s >= 1 && SubbandsOf(nDims, m, s, nLevels - i) + Reversed(subbands) == SubbandsOf(nDims, n, 1, nLevels)
    {
      SubbandsNext(nDims, m, s, nLevels - i - 1, Reversed(subbands));
      s := s * 2;
      var p := Halved(m);
      subbands := PushLevel(subbands, nDims, m, p, s);
      m := p;
    }
    Finished(nDims, m, s, subbands);
    subbands := Reversed(subbands + [Coarse(m, s)]);
  }

  /** The coarsest grid, pushed last, comes first. */
  lemma Finished(nDims: nat, m: V3, s: nat, had: seq<Grid>)
    requires nDims <= 3
    ensures Reversed(had + [Coarse(m, s)]) == SubbandsOf(nDims, m, s, 0) + Reversed(had)
  {
    hide Reversed;
    PushedReversed(had, had + [Coarse(m, s)], [Coarse(m, s)]);
  }

  lemma NoneReversed()
    ensures Reversed([]) == []
  {
  }

  // ---------------------------------------------------------------- one direction

  lemma Multiple(s: nat, k: nat)
    requires s > 0
    ensures (s * k) % s == 0 && (s * k) / s == k
  {
    var q, r := (s * k) / s, (s * k) % s;
    assert s * k == s * q + r;
    assert s * (k - q) == r;
    MulGap(s, k - q);
  }

  lemma MulGap(s: int, d: int)
    requires s > 0
    ensures d >= 1 ==> s * d >= s
    ensures d <= -1 ==> s * d <= -s
  {
  }

  /** Being the `k`-th sample of a direction. */
  lemma IsIn1(x: nat, from: nat, dim: nat, s: nat, k: nat)
    requires s > 0 && x == from + s * k
    ensures In1(x, from, dim, s) <==> k < dim
  {
    Multiple(s, k);
  }

  lemma In1Has(x: nat, from: nat, dim: nat, s: nat) returns (k: nat)
    requires In1(x, from, dim, s)
    ensures k < dim && x == from + s * k
  {
    k := (x - from) / s;
  }

  /** Every other sample, from the first or from the second. */
  lemma Split1(x: nat, m: nat, s: nat)
    requires s > 0
    ensures One(In1(x, 0, m, s)) == One(In1(x, 0, Half(0, m), 2 * s)) + One(In1(x, s, Half(1, m), 2 * s))
  {
    hide In1;
    if In1(x, 0, Half(0, m), 2 * s) {
      var k := In1Has(x, 0, Half(0, m), 2 * s);
      assert s * (2 * k) == 2 * s * k;
      SplitEven(x, m, s, k);
    } else if In1(x, s, Half(1, m), 2 * s) {
      var k := In1Has(x, s, Half(1, m), 2 * s);
      assert s * (2 * k + 1) == s + 2 * s * k;
      SplitOdd(x, m, s, k);
    } else if In1(x, 0, m, s) {
      var k := In1Has(x, 0, m, s);
      SplitAt(x, m, s, k);
    }
  }

  lemma SplitAt(x: nat, m: nat, s: nat, k: nat)
    requires s > 0 && x == s * k
    ensures One(In1(x, 0, m, s)) == One(In1(x, 0, Half(0, m), 2 * s)) + One(In1(x, s, Half(1, m), 2 * s))
  {
    hide In1, Half;
    if k % 2 == 0 { SplitEven(x, m, s, k / 2); } else { SplitOdd(x, m, s, k / 2); }
  }

  lemma SplitEven(x: nat, m: nat, s: nat, h: nat)
    requires s > 0 && x == s * (2 * h)
    ensures One(In1(x, 0, m, s)) == One(In1(x, 0, Half(0, m), 2 * s)) + One(In1(x, s, Half(1, m), 2 * s))
  {
    hide In1;
    assert s * (2 * h) == 2 * s * h;
    IsIn1(x, 0, m, s, 2 * h);
    IsIn1(x, 0, Half(0, m), 2 * s, h);
    OddIsNotEven(x, s, h, Half(1, m));
  }

  lemma SplitOdd(x: nat, m: nat, s: nat, h: nat)
    requires s > 0 && x == s * (2 * h + 1)
    ensures One(In1(x, 0, m, s)) == One(In1(x, 0, Half(0, m), 2 * s)) + One(In1(x, s, Half(1, m), 2 * s))
  {
    hide In1;
    assert s * (2 * h + 1) == s + 2 * s * h;
    IsIn1(x, 0, m, s, 2 * h + 1);
    IsIn1(x, s, Half(1, m), 2 * s, h);
    EvenIsNotOdd(x, s, h, Half(0, m));
  }

  lemma OddIsNotEven(x: nat, s: nat, k: nat, dim: nat)
    requires s > 0 && x == 2 * s * k
    ensures !In1(x, s, dim, 2 * s)
  {
    hide In1;
    if In1(x, s, dim, 2 * s) {
      var j := In1Has(x, s, dim, 2 * s);
      Parity(s, k, j);
    }
  }

  lemma EvenIsNotOdd(x: nat, s: nat, k: nat, dim: nat)
    requires s > 0 && x == s + 2 * s * k
    ensures !In1(x, 0, dim, 2 * s)
  {
    hide In1;
    if In1(x, 0, dim, 2 * s) {
      var j := In1Has(x, 0, dim, 2 * s);
      Parity(s, j, k);
    }
  }

  lemma Parity(s: nat, k: nat, j: nat)
    requires s > 0
    ensures 2 * s * k != s + 2 * s * j
  {
    assert 2 * s * k - (s + 2 * s * j) == s * (2 * k - (1 + 2 * j));
    MulGap(s, 2 * k - (1 + 2 * j));
  }

  /** A direction of one sample. */
  lemma Single1(x: nat, s: nat)
    requires s > 0
    ensures In1(x, 0, 1, s) <==> x == 0
  {
    if In1(x, 0, 1, s) {
      var k := In1Has(x, 0, 1, s);
    }
  }

  // ---------------------------------------------------------------- one level

  /** Directions beyond the transformed ones have one sample. */
  predicate Shaped(nDims: nat, m: V3) {
    && nDims <= 3 && 1 <= m.x && 1 <= m.y && 1 <= m.z
    && (nDims < 1 ==> m.x == 1) && (nDims < 2 ==> m.y == 1) && (nDims < 3 ==> m.z == 1)
  }

  lemma {:induction false} OwnersJoin(a: seq<Grid>, b: seq<Grid>, p: V3)
    ensures Owners(a + b, p) == Owners(a, p) + Owners(b, p)
    decreases |b|
  {
    hide In;
    if b == [] {
      assert a + b == a;
    } else {
      assert (a + b)[..|a + b| - 1] == a + b[..|b| - 1];
      OwnersJoin(a, b[..|b| - 1], p);
    }
  }

  /** 1 if sample `p` is in the subband with place `j`. */
  function Held(nDims: nat, j: nat, m: V3, s: nat, p: V3): nat
    requires nDims <= 3 && j < Pow2(nDims)
  {
    One(In(p, Sub(nDims, Corner(nDims, Order(nDims, j)), m, s)))
  }

  lemma OwnersNext(nDims: nat, j: nat, m: V3, s: nat, p: V3)
    requires nDims <= 3 && j < Pow2(nDims)
    ensures Owners(Level(nDims, j, m, s), p) == Held(nDims, j, m, s, p) + Owners(Level(nDims, j + 1, m, s), p)
  {
    hide Corner, Order, Pow2;
    var g := Sub(nDims, Corner(nDims, Order(nDims, j)), m, s);
    OwnersJoin(Existing(nDims, j, m, s), Level(nDims, j + 1, m, s), p);
    OwnersOne(g, p);
  }

  lemma OwnersOne(g: Grid, p: V3)
    ensures Owners([g], p) == One(In(p, g)) && Owners([], p) == 0
    ensures Empty(g) ==> !In(p, g)
  {
    assert [g][..0] == [];
  }

  lemma Places3(m: V3, s: nat)
    ensures Corner(3, Order(3, 1)) == V3(0, 0, 1) && Corner(3, Order(3, 2)) == V3(0, 1, 0)
    ensures Corner(3, Order(3, 3)) == V3(1, 0, 0) && Corner(3, Order(3, 4)) == V3(0, 1, 1)
    ensures Corner(3, Order(3, 5)) == V3(1, 0, 1) && Corner(3, Order(3, 6)) == V3(1, 1, 0)
    ensures Corner(3, Order(3, 7)) == V3(1, 1, 1) && Pow2(3) == 8
  {
  }

  lemma Level3(m: V3, s: nat, p: V3)
    requires Shaped(3, m) && s > 0
    ensures One(In(p, Coarse(m, s))) == One(In(p, Coarse(Halved(m), 2 * s))) + Owners(Level(3, 1, m, s), p)
  {
    hide In1, Level, Owners;
    Places3(m, s);
    Split1(p.x, m.x, s);
    Split1(p.y, m.y, s);
    Split1(p.z, m.z, s);
    OwnersNext(3, 1, m, s, p); OwnersNext(3, 2, m, s, p); OwnersNext(3, 3, m, s, p); OwnersNext(3, 4, m, s, p);
    OwnersNext(3, 5, m, s, p); OwnersNext(3, 6, m, s, p); OwnersNext(3, 7, m, s, p);
    LevelEnds(3, m, s, p);
  }

  lemma LevelEnds(nDims: nat, m: V3, s: nat, p: V3)
    requires nDims <= 3
    ensures Owners(Level(nDims, Pow2(nDims), m, s), p) == 0
  {
  }

  lemma Level2(m: V3, s: nat, p: V3)
    requires Shaped(2, m) && s > 0
    ensures One(In(p, Coarse(m, s))) == One(In(p, Coarse(Halved(m), 2 * s))) + Owners(Level(2, 1, m, s), p)
  {
    hide In1, Level, Owners;
    assert Pow2(2) == 4;
    assert Corner(2, Order(2, 1)).x == 0 && Corner(2, Order(2, 1)).y == 1;
    assert Corner(2, Order(2, 2)).x == 1 && Corner(2, Order(2, 2)).y == 0;
    assert Corner(2, Order(2, 3)).x == 1 && Corner(2, Order(2, 3)).y == 1;
    Split1(p.x, m.x, s);
    Split1(p.y, m.y, s);
    Single1(p.z, s);
    Single1(p.z, 2 * s);
    OwnersNext(2, 1, m, s, p); OwnersNext(2, 2, m, s, p); OwnersNext(2, 3, m, s, p);
    LevelEnds(2, m, s, p);
  }

  lemma Level1(m: V3, s: nat, p: V3)
    requires Shaped(1, m) && s > 0
    ensures One(In(p, Coarse(m, s))) == One(In(p, Coarse(Halved(m), 2 * s))) + Owners(Level(1, 1, m, s), p)
  {
    hide In1, Level, Owners;
    assert Pow2(1) == 2 && Corner(1, Order(1, 1)).x == 1;
    Split1(p.x, m.x, s);
    Single1(p.y, s);
    Single1(p.y, 2 * s);
    Single1(p.z, s);
    Single1(p.z, 2 * s);
    OwnersNext(1, 1, m, s, p);
    LevelEnds(1, m, s, p);
  }

  lemma Level0(m: V3, s: nat, p: V3)
    requires Shaped(0, m) && s > 0
    ensures One(In(p, Coarse(m, s))) == One(In(p, Coarse(Halved(m), 2 * s))) + Owners(Level(0, 1, m, s), p)
  {
    hide In1;
    Single1(p.x, s);
    Single1(p.x, 2 * s);
    Single1(p.y, s);
    Single1(p.y, 2 * s);
    Single1(p.z, s);
    Single1(p.z, 2 * s);
    LevelEnds(0, m, s, p);
  }

  // ---------------------------------------------------------------- the partition

  /** Each sample of the lattice belongs to exactly one subband, and no other point to any. */
  lemma {:induction false} Partition(nDims: nat, m: V3, s: nat, nLevels: nat, p: V3)
    requires Shaped(nDims, m) && s > 0
    ensures Owners(SubbandsOf(nDims, m, s, nLevels), p) == One(In(p, Coarse(m, s)))
    decreases nLevels
  {
    hide In, Level, Owners;
    if nLevels == 0 {
      OwnersOne(Coarse(m, s), p);
    } else {
      Partition(nDims, Halved(m), 2 * s, nLevels - 1, p);
      OwnersJoin(SubbandsOf(nDims, Halved(m), 2 * s, nLevels - 1), Level(nDims, 1, m, s), p);
      if nDims == 3 { Level3(m, s, p); }
      else if nDims == 2 { Level2(m, s, p); }
      else if nDims == 1 { Level1(m, s, p); }
      else { Level0(m, s, p); }
    }
  }

  lemma {:induction false} OwnersSome(grids: seq<Grid>, p: V3, i: nat)
    requires i < |grids| && In(p, grids[i])
    ensures Owners(grids, p) >= 1
    ensures forall j :: 0 <= j < |grids| && j != i && In(p, grids[j]) ==> Owners(grids, p) >= 2
    decreases |grids|
  {
    hide In;
    var last := |grids| - 1;
    if i < last {
      OwnersSome(grids[..last], p, i);
      forall j | 0 <= j < |grids| && j != i && In(p, grids[j]) ensures Owners(grids, p) >= 2 {
        if j < last { assert grids[..last][j] == grids[j]; }
      }
    } else {
      forall j | 0 <= j < last && In(p, grids[j]) ensures Owners(grids, p) >= 2 {
        OwnersSome(grids[..last], p, j);
      }
    }
  }

  lemma {:induction false} OwnersNone(grids: seq<Grid>, p: V3) returns (i: nat)
    requires Owners(grids, p) >= 1
    ensures i < |grids| && In(p, grids[i])
    decreases |grids|
  {
    hide In;
    i := |grids| - 1;
    if !In(p, grids[i]) { i := OwnersNone(grids[..|grids| - 1], p); }
  }

  predicate InDomain(p: V3, n: V3) {
    p.x < n.x && p.y < n.y && p.z < n.z
  }

  lemma DomainIs(p: V3, n: V3)
    ensures In(p, Coarse(n, 1)) <==> InDomain(p, n)
  {
    IsIn1(p.x, 0, n.x, 1, p.x);
    IsIn1(p.y, 0, n.y, 1, p.y);
    IsIn1(p.z, 0, n.z, 1, p.z);
  }

  ghost predicate Owned(grids: seq<Grid>, p: V3) {
    exists i :: 0 <= i < |grids| && In(p, grids[i])
  }

  lemma OwnedIs(grids: seq<Grid>, p: V3)
    ensures Owned(grids, p) <==> Owners(grids, p) >= 1
  {
    hide In, Owners;
    if Owners(grids, p) >= 1 { var i := OwnersNone(grids, p); }
    if i :| 0 <= i < |grids| && In(p, grids[i]) { OwnersSome(grids, p, i); }
  }

  /** A direction with more than one sample that is not transformed: a unit direction before it takes its place. */
  predicate Skipped(nDims: nat, n: V3) {
    (nDims < 2 && n.y > 1) || (nDims < 3 && n.z > 1)
  }

  lemma SkippedIs(n: V3)
    requires 1 <= n.x && 1 <= n.y && 1 <= n.z
    ensures Trailing(n) <==> !Skipped(NumDims(n), n)
    ensures Trailing(n) ==> Shaped(NumDims(n), n)
  {
  }

  /** A sample on an odd place of such a direction. */
  predicate OddPlace(nDims: nat, p: V3) {
    (nDims < 2 && p.y == 1) || (nDims < 3 && p.z == 1)
  }

  lemma EvenMisses(from: nat, dim: nat, strd: nat)
    requires from == 0 && strd > 0 && strd % 2 == 0
    ensures !In1(1, from, dim, strd)
  {
  }

  lemma {:induction false} LevelMissesOdd(nDims: nat, j: nat, m: V3, s: nat, p: V3)
    requires nDims <= 3 && j <= Pow2(nDims) && s > 0 && OddPlace(nDims, p)
    ensures Owners(Level(nDims, j, m, s), p) == 0
    decreases Pow2(nDims) - j
  {
    hide Corner, Order, In1, At, Half;
    if j < Pow2(nDims) {
      OwnersNext(nDims, j, m, s, p);
      var g := Sub(nDims, Corner(nDims, Order(nDims, j)), m, s);
      EvenMisses(0, g.dims.y, 2 * s);
      EvenMisses(0, g.dims.z, 2 * s);
      LevelMissesOdd(nDims, j + 1, m, s, p);
    } else {
      LevelEnds(nDims, m, s, p);
    }
  }

  /** No subband has it once there is a level. */
  lemma {:induction false} OddPlaceLost(nDims: nat, m: V3, s: nat, nLevels: nat, p: V3)
    requires nDims <= 3 && s > 0 && (nLevels > 0 || s % 2 == 0) && OddPlace(nDims, p)
    ensures Owners(SubbandsOf(nDims, m, s, nLevels), p) == 0
    decreases nLevels
  {
    hide In1, Level, Owners;
    if nLevels == 0 {
      EvenMisses(0, m.y, s);
      EvenMisses(0, m.z, s);
      OwnersOne(Coarse(m, s), p);
    } else {
      OddPlaceLost(nDims, Halved(m), 2 * s, nLevels - 1, p);
      OwnersJoin(SubbandsOf(nDims, Halved(m), 2 * s, nLevels - 1), Level(nDims, 1, m, s), p);
      LevelMissesOdd(nDims, 1, m, s, p);
    }
  }

  lemma NoLevels(nDims: nat, n: V3, p: V3)
    requires nDims <= 3
    ensures Owners(SubbandsOf(nDims, n, 1, 0), p) == One(In(p, Coarse(n, 1)))
  {
    OwnersOne(Coarse(n, 1), p);
  }

  /** Every sample of `n` is in one of the grids, none is in two, and nothing else is in any. */
  ghost predicate Partitions(subs: seq<Grid>, n: V3) {
    && (forall p :: InDomain(p, n) <==> Owned(subs, p))
    && (forall p, i, j :: 0 <= i < |subs| && 0 <= j < |subs| && In(p, subs[i]) && In(p, subs[j]) ==> i == j)
  }

  lemma PartitionsIf(subs: seq<Grid>, n: V3)
    requires forall p :: Owners(subs, p) == One(In(p, Coarse(n, 1)))
    ensures Partitions(subs, n)
  {
    hide In, Owners, InDomain, Owned;
    forall p ensures InDomain(p, n) <==> Owned(subs, p) {
      DomainIs(p, n);
      OwnedIs(subs, p);
    }
    forall p, i, j | 0 <= i < |subs| && 0 <= j < |subs| && In(p, subs[i]) && In(p, subs[j]) ensures i == j {
      OwnersSome(subs, p, i);
    }
  }

  /** The subbands of a domain share its samples among them exactly if directions of one sample come last, or
      there is no level. */
  lemma SubbandsPartitionDomain(n: V3, nLevels: nat)
    requires 1 <= n.x && 1 <= n.y && 1 <= n.z
    ensures Partitions(SubbandsOf(NumDims(n), n, 1, nLevels), n) <==> Trailing(n) || nLevels == 0
  {
    hide In, Owners, SubbandsOf, Owned, Partitions, Trailing;
    var nDims, subs := NumDims(n), SubbandsOf(NumDims(n), n, 1, nLevels);
    SkippedIs(n);
    if Trailing(n) {
      forall p ensures Owners(subs, p) == One(In(p, Coarse(n, 1))) { Partition(nDims, n, 1, nLevels, p); }
      PartitionsIf(subs, n);
    } else if nLevels == 0 {
      forall p ensures Owners(subs, p) == One(In(p, Coarse(n, 1))) { NoLevels(nDims, n, p); }
      PartitionsIf(subs, n);
    } else {
      var p := if nDims < 2 && n.y > 1 then V3(0, 1, 0) else V3(0, 0, 1);
      OddPlaceLost(nDims, n, 1, nLevels, p);
      OwnedIs(subs, p);
      NotPartitioned(subs, n, p);
    }
  }

  lemma NotPartitioned(subs: seq<Grid>, n: V3, p: V3)
    requires InDomain(p, n) && !Owned(subs, p)
    ensures !Partitions(subs, n)
  {
    hide Owned;
  }
}
