/** The embedded coding of one bit plane of a zfp block, as functions on bits.

    A plane is coded as raw bits for the coefficients already significant, then by group tests: one
    bit says whether anything is left, and if so the bits up to and including the next one. A call
    stops as soon as its budget is spent, wherever that is, and says how to go on. */
module ZfpPlane {

  type Bits = seq<bool>

  const BLOCK := 64

  predicate HasOne(x: Bits) { exists i :: 0 <= i < |x| && x[i] }

  /** What one run of the group loops writes (or reads): the bits, how many coefficients they
      settle, whether it stopped inside a group, and whether it closed with an empty group. */
  datatype Run = Run(bits: Bits, settled: nat, inner: bool, closed: bool)

  function Prepend(b: bool, r: Run): Run { r.(bits := [b] + r.bits) }

  function Settle(r: Run): Run { r.(settled := r.settled + 1) }

  /** The outer loop on the unsettled coefficients `x` with `r` bits left. */
  function EncOuter(x: Bits, r: nat): (c: Run)
    ensures |c.bits| <= r && c.settled <= |x|
    decreases |x|, 1
  {
    if r == 0 || x == [] then Run([], 0, false, false)
    else if !HasOne(x) then Run([false], 0, false, true)
    else Prepend(true, EncInner(x, r - 1))
  }

  /** The inner loop: a one is known to be in `x`. It stops inside the group when the budget is
      spent, even right after the bit of that one, which is then written again on resumption. */
  function EncInner(x: Bits, r: nat): (c: Run)
    requires x != []
    ensures |c.bits| <= r && c.settled <= |x|
    decreases |x|, 0
  {
    if r == 0 then Run([], 0, true, false)
    else if |x| == 1 then Settle(EncOuter(x[1..], r))
    else if !x[0] then Settle(Prepend(false, EncInner(x[1..], r - 1)))
    else if r == 1 then Run([true], 0, true, false)
    else Settle(Prepend(true, EncOuter(x[1..], r - 1)))
  }

  /** The reader's result: the coefficients recovered, the bits consumed, and the same two flags. */
  datatype Read = Read(values: Bits, used: nat, inner: bool, closed: bool)

  function Consume(d: Read): Read { d.(used := d.used + 1) }

  function Recover(v: bool, d: Read): Read { d.(values := [v] + d.values) }

  /** The reader's outer loop: `n` coefficients unsettled, `r` bits left, stream `t`. */
  function DecOuter(t: Bits, n: nat, r: nat): (d: Read)
    requires r <= |t|
    ensures d.used <= r && |d.values| <= n
    decreases n, 1
  {
    if r == 0 || n == 0 then Read([], 0, false, false)
    else if !t[0] then Read([], 1, false, true)
    else Consume(DecInner(t[1..], n, r - 1))
  }

  function DecInner(t: Bits, n: nat, r: nat): (d: Read)
    requires r <= |t| && n >= 1
    ensures d.used <= r && |d.values| <= n
    decreases n, 0
  {
    if r == 0 then Read([], 0, true, false)
    else if n == 1 then Recover(true, DecOuter(t, 0, r))
    else if !t[0] then Consume(Recover(false, DecInner(t[1..], n - 1, r - 1)))
    else if r == 1 then Read([], 1, true, false)
    else Consume(Recover(true, DecOuter(t[1..], n - 1, r - 1)))
  }

  lemma HasOneLater(x: Bits)
    requires x != [] && !x[0]
    ensures HasOne(x) <==> HasOne(x[1..])
  {
    if i :| 0 <= i < |x| && x[i] { assert x[1..][i - 1]; }
  }

  function Min(a: int, b: int): int { if a < b then a else b }

  // ---------------------------------------------------------------- reading back a run

  lemma {:induction false} OuterReadsBack(x: Bits, r: nat, rest: Bits)
    requires r <= |EncOuter(x, r).bits + rest|
    ensures var c := EncOuter(x, r);
            DecOuter(c.bits + rest, |x|, r) == Read(x[..c.settled], |c.bits|, c.inner, c.closed)
    decreases |x|, 1
  {
    var c := EncOuter(x, r);
    if r > 0 && x != [] && HasOne(x) {
      var t := c.bits + rest;
      assert t[1..] == EncInner(x, r - 1).bits + rest;
      InnerReadsBack(x, r - 1, rest);
    }
  }

  /** The bit `b`, then what a run from `x[1..]` on writes: it is read back if that is. */
  lemma StepReadsBack(x: Bits, r: nat, b: bool, sub: Run, rest: Bits)
    requires |x| > 1 && r > 0 && x[0] == b
    requires EncInner(x, r) == Settle(Prepend(b, sub)) && sub.settled <= |x| - 1 && r <= |EncInner(x, r).bits + rest|
    requires var t, d := sub.bits + rest, Read(x[1..][..sub.settled], |sub.bits|, sub.inner, sub.closed);
             r - 1 <= |t| && if b then r > 1 && DecOuter(t, |x| - 1, r - 1) == d else DecInner(t, |x| - 1, r - 1) == d
    ensures var c := EncInner(x, r);
            DecInner(c.bits + rest, |x|, r) == Read(x[..c.settled], |c.bits|, c.inner, c.closed)
  {
    hide EncOuter, EncInner, DecOuter;
    var t := EncInner(x, r).bits + rest;
    assert t[0] == b && t[1..] == sub.bits + rest;
    assert x[..sub.settled + 1] == [b] + x[1..][..sub.settled];
  }

  lemma {:induction false} InnerReadsBack(x: Bits, r: nat, rest: Bits)
    requires x != [] && HasOne(x)
    requires r <= |EncInner(x, r).bits + rest|
    ensures var c := EncInner(x, r);
            DecInner(c.bits + rest, |x|, r) == Read(x[..c.settled], |c.bits|, c.inner, c.closed)
    decreases |x|, 0
  {
    hide EncOuter, DecOuter;
    if r == 0 || (r == 1 && |x| > 1 && x[0]) {
      assert x[..0] == [];
    } else if |x| == 1 {
      assert x[0];
      OuterReadsBack(x[1..], r, rest);
      assert x[..1] == [x[0]];
    } else if !x[0] {
      HasOneLater(x);
      InnerReadsBack(x[1..], r - 1, rest);
      StepReadsBack(x, r, false, EncInner(x[1..], r - 1), rest);
    } else {
      OuterReadsBack(x[1..], r - 1, rest);
      StepReadsBack(x, r, true, EncOuter(x[1..], r - 1), rest);
    }
  }

  // ---------------------------------------------------------------- when a run is complete

  predicate Complete(c: Run, n: nat) { c.closed || (!c.inner && c.settled == n) }

  /** The budget a run needs: its bits, and one more when the last coefficient is a one, which has
      no bit of its own but is settled only while budget is left. */
  function OuterNeed(x: Bits): (n: nat)
    ensures n <= 2 * |x| && (x != [] ==> n >= 1)
    decreases |x|, 1
  {
    if x == [] then 0 else if !HasOne(x) then 1 else 1 + InnerNeed(x)
  }

  function InnerNeed(x: Bits): (n: nat)
    requires x != []
    ensures 1 <= n <= 2 * |x| - 1
    decreases |x|, 0
  {
    if |x| == 1 then 1 else 1 + if x[0] then OuterNeed(x[1..]) else InnerNeed(x[1..])
  }

  /** How a run stops. Complete exactly when the budget covers its need, and then only zeros are
      left. Otherwise the whole budget is spent; unless there was none, the run stopped inside a
      group with a one ahead, and what it still needs went down by the budget, less the bit of a one
      that has to be written twice. */
  ghost predicate StopsWell(x: Bits, c: Run, r: nat, need: nat) {
    && c.settled <= |x|
    && (Complete(c, |x|) <==> r >= need)
    && (c.closed ==> !c.inner && !HasOne(x[c.settled..]))
    && (c.inner ==> |c.bits| == r && c.settled < |x| && HasOne(x[c.settled..])
                    && InnerNeed(x[c.settled..]) <= need - r + 1)
    && (!Complete(c, |x|) && !c.inner ==> r == 0 && c == Run([], 0, false, false))
  }

  lemma {:induction false} OuterStops(x: Bits, r: nat)
    ensures StopsWell(x, EncOuter(x, r), r, OuterNeed(x))
    decreases |x|, 1
  {
    if r > 0 && x != [] && HasOne(x) {
      InnerStops(x, r - 1);
    }
  }

  lemma {:induction false} InnerStops(x: Bits, r: nat)
    requires x != [] && HasOne(x)
    ensures StopsWell(x, EncInner(x, r), r, InnerNeed(x))
    ensures !Complete(EncInner(x, r), |x|) ==> EncInner(x, r).inner
    decreases |x|, 0
  {
    hide EncOuter, OuterNeed, HasOne;
    var c := EncInner(x, r);
    var k := c.settled;
    if r == 0 || |x| == 1 || (r == 1 && x[0]) {
      assert x[0..] == x && x[1..][..0] == [];
      if r > 0 && |x| == 1 { NoneLeft(r); assert x[1..] == []; }
    } else if !x[0] {
      HasOneLater(x);
      InnerStops(x[1..], r - 1);
      assert x[1..][k - 1..] == x[k..];
    } else {
      OuterStops(x[1..], r - 1);
      assert x[1..][k - 1..] == x[k..];
    }
  }

  lemma NoneLeft(r: nat)
    ensures EncOuter([], r) == Run([], 0, false, false) && !HasOne([]) && OuterNeed([]) == 0
  {
  }

  /** `c` is `c'` cut at `r` bits. */
  predicate CutAt(c: Run, c': Run, r: nat) {
    c.bits <= c'.bits && |c.bits| == Min(r, |c'.bits|) && c.settled <= c'.settled
  }

  /** A smaller budget writes a prefix of what a larger one writes, cut at the budget. */
  lemma {:induction false} OuterPrefix(x: Bits, r: nat, r': nat)
    requires r <= r'
    ensures CutAt(EncOuter(x, r), EncOuter(x, r'), r)
    decreases |x|, 1
  {
    if r > 0 && x != [] && HasOne(x) {
      InnerPrefix(x, r - 1, r' - 1);
    }
  }

  lemma {:induction false} InnerPrefix(x: Bits, r: nat, r': nat)
    requires x != [] && r <= r'
    ensures CutAt(EncInner(x, r), EncInner(x, r'), r)
    decreases |x|, 0
  {
    hide EncOuter;
    if r > 0 && |x| == 1 {
      OuterPrefix(x[1..], r, r');
    } else if r > 0 && !x[0] {
      InnerPrefix(x[1..], r - 1, r' - 1);
    } else if r > 1 {
      OuterPrefix(x[1..], r - 1, r' - 1);
    }
  }

  // ---------------------------------------------------------------- one call on a plane

  /** Where the coding of a plane stands: `n` significant coefficients, `m` of them coded in this
      plane, and whether the next call goes on inside a group. */
  datatype State = State(n: nat, m: nat, inner: bool)

  predicate Valid(s: State) {
    s.m <= s.n <= BLOCK && (s.inner ==> s.m == s.n < BLOCK)
  }

  datatype Coded = Coded(bits: Bits, state: State, done: bool)
  datatype Decoded = Decoded(values: Bits, used: nat, state: State, done: bool)

  function Advance(s: State, raw: nat, settled: nat, inner: bool): State {
    State(s.n + settled, s.m + raw + settled, s.inner || inner)
  }

  function Finished(s: State, closed: bool): bool { (s.n == BLOCK && s.m == s.n) || closed }

  /** The group loops, entered at the inner one when the last call stopped inside a group. */
  function EncRun(x: Bits, inner: bool, r: nat): (c: Run)
    requires inner ==> x != []
    ensures |c.bits| <= r && c.settled <= |x|
  {
    if inner then EncInner(x, r) else EncOuter(x, r)
  }

  function DecRun(t: Bits, n: nat, inner: bool, r: nat): (d: Read)
    requires r <= |t| && (inner ==> n >= 1)
    ensures d.used <= r && |d.values| <= n
  {
    if inner then DecInner(t, n, r) else DecOuter(t, n, r)
  }

  lemma RunReadsBack(x: Bits, inner: bool, r: nat, rest: Bits)
    requires inner ==> HasOne(x)
    requires r <= |EncRun(x, inner, r).bits + rest|
    ensures var c := EncRun(x, inner, r);
            DecRun(c.bits + rest, |x|, inner, r) == Read(x[..c.settled], |c.bits|, c.inner, c.closed)
  {
    if inner { InnerReadsBack(x, r, rest); } else { OuterReadsBack(x, r, rest); }
  }

  lemma SpentRunSettlesNothing(x: Bits, inner: bool)
    requires inner ==> x != []
    ensures EncRun(x, inner, 0) == Run([], 0, inner, false)
  {
  }

  /** A call with `r` bits of budget: raw bits first, then the group loops. */
  function EncodeCall(plane: Bits, s: State, r: nat): (c: Coded)
    requires |plane| == BLOCK && Valid(s)
    ensures |c.bits| <= r && s.m <= c.state.m <= c.state.n <= BLOCK
  {
    var p := Min(s.n - s.m, r);
    var run := EncRun(plane[s.n..], s.inner, r - p);
    var s' := Advance(s, p, run.settled, run.inner);
    Coded(plane[s.m..s.m + p] + run.bits, s', Finished(s', run.closed))
  }

  function DecodeCall(t: Bits, s: State, r: nat): (d: Decoded)
    requires Valid(s) && r <= |t|
    ensures d.used <= r && s.m + |d.values| <= BLOCK
  {
    var p := Min(s.n - s.m, r);
    var read := DecRun(t[p..], BLOCK - s.n, s.inner, r - p);
    var s' := Advance(s, p, |read.values|, read.inner);
    Decoded(t[..p] + read.values, p + read.used, s', Finished(s', read.closed))
  }

  /** The state fits the plane: inside a group, a one is ahead. */
  predicate Fits(plane: Bits, s: State)
    requires |plane| == BLOCK
  {
    Valid(s) && (s.inner ==> HasOne(plane[s.n..]))
  }

  /** The coefficients a call settles follow the raw ones. */
  lemma SettledFollowRaw(plane: Bits, s: State, r: nat)
    requires |plane| == BLOCK && Valid(s)
    ensures var p := Min(s.n - s.m, r);
            var k := EncRun(plane[s.n..], s.inner, r - p).settled;
            && s.m + p + k <= BLOCK
            && plane[s.m..s.m + p] + plane[s.n..][..k] == plane[s.m..s.m + p + k]
  {
    if Min(s.n - s.m, r) < s.n - s.m { SpentRunSettlesNothing(plane[s.n..], s.inner); }
    hide EncRun;
  }

  /** The decoder reads the encoder's bits back, whatever follows them: same state, same verdict,
      and exactly the coefficients the encoder passed over. */
  lemma CallReadsBack(plane: Bits, s: State, r: nat, rest: Bits)
    requires |plane| == BLOCK && Fits(plane, s)
    requires r <= |EncodeCall(plane, s, r).bits + rest|
    ensures var c := EncodeCall(plane, s, r);
            && DecodeCall(c.bits + rest, s, r) == Decoded(plane[s.m..c.state.m], |c.bits|, c.state, c.done)
  {
    hide EncodeCall, EncRun, DecRun, HasOne, DecodeCall, Advance, Finished;
    var p := Min(s.n - s.m, r);
    var run := EncRun(plane[s.n..], s.inner, r - p);
    EncodeCallIs(plane, s, r, p, run);
    SettledFollowRaw(plane, s, r);
    InTwo(plane[s.m..s.m + p], run.bits, rest);
    RunReadsBack(plane[s.n..], s.inner, r - p, rest);
    DecodeCallIs(EncodeCall(plane, s, r).bits + rest, s, r, p,
                 Read(plane[s.n..][..run.settled], |run.bits|, run.inner, run.closed));
    AdvanceM(s, p, run.settled, run.inner);
  }

  lemma InTwo(x: Bits, y: Bits, rest: Bits)
    ensures (x + y + rest)[..|x|] == x && (x + y + rest)[|x|..] == y + rest
  {
  }

  lemma EncodeCallIs(plane: Bits, s: State, r: nat, p: nat, run: Run)
    requires |plane| == BLOCK && Valid(s) && p == Min(s.n - s.m, r) && run == EncRun(plane[s.n..], s.inner, r - p)
    ensures EncodeCall(plane, s, r)
         == Coded(plane[s.m..s.m + p] + run.bits, Advance(s, p, run.settled, run.inner),
                  Finished(Advance(s, p, run.settled, run.inner), run.closed))
  {
    hide EncRun;
  }

  lemma DecodeCallIs(t: Bits, s: State, r: nat, p: nat, read: Read)
    requires Valid(s) && r <= |t| && p == Min(s.n - s.m, r)
    requires DecRun(t[p..], BLOCK - s.n, s.inner, r - p) == read
    ensures DecodeCall(t, s, r)
         == Decoded(t[..p] + read.values, p + read.used, Advance(s, p, |read.values|, read.inner),
                    Finished(Advance(s, p, |read.values|, read.inner), read.closed))
  {
  }

  lemma AdvanceM(s: State, p: nat, k: nat, inner: bool)
    ensures Advance(s, p, k, inner).m == s.m + p + k
  {
  }

  // ---------------------------------------------------------------- when a call is done

  /** The budget a call needs to finish the plane. */
  function CallNeed(plane: Bits, s: State): nat
    requires |plane| == BLOCK && Valid(s)
  {
    s.n - s.m + RunNeed(plane[s.n..], s.inner)
  }

  function RunNeed(x: Bits, inner: bool): nat
    requires inner ==> x != []
  {
    if inner then InnerNeed(x) else OuterNeed(x)
  }

  lemma RunStops(x: Bits, inner: bool, r: nat)
    requires inner ==> HasOne(x)
    ensures StopsWell(x, EncRun(x, inner, r), r, RunNeed(x, inner))
    ensures inner && !Complete(EncRun(x, inner, r), |x|) ==> EncRun(x, inner, r).inner
  {
    if inner { InnerStops(x, r); } else { OuterStops(x, r); }
  }

  /** A call is done exactly when its budget covers the need of the plane. If it is, nothing but
      zeros is left. If not, it has spent its whole budget and stands where the next call can go on:
      the flag `inner`, which no call ever clears, is again telling the truth. */
  lemma CallStops(plane: Bits, s: State, r: nat)
    requires |plane| == BLOCK && Fits(plane, s)
    ensures var c := EncodeCall(plane, s, r);
            && (c.done <==> r >= CallNeed(plane, s))
            && (c.done ==> !HasOne(plane[c.state.m..]))
            && (!c.done ==> |c.bits| == r && Fits(plane, c.state)
                            && CallNeed(plane, c.state) <= CallNeed(plane, s) - r + 1)
  {
    hide EncRun, HasOne, InnerNeed, OuterNeed;
    var p := Min(s.n - s.m, r);
    var x := plane[s.n..];
    var run := EncRun(x, s.inner, r - p);
    SettledFollowRaw(plane, s, r);
    RunStops(x, s.inner, r - p);
    if p < s.n - s.m { SpentRunSettlesNothing(x, s.inner); }
    assert x[run.settled..] == plane[s.n + run.settled..];
    NoOneInNothing(plane);
  }

  lemma NoOneInNothing(plane: Bits)
    ensures !HasOne(plane[|plane|..])
  {
  }

  // ---------------------------------------------------------------- what N becomes

  /** One more than the place of the last one; 0 if there is none. */
  function LastOne(x: Bits): (n: nat)
    ensures n <= |x| && (n > 0 ==> x[n - 1]) && forall i :: n <= i < |x| ==> !x[i]
  {
    if x == [] then 0 else if x[|x| - 1] then |x| else LastOne(x[..|x| - 1])
  }

  /** A run that does not stop inside a group ends behind a one. */
  lemma {:induction false} OuterEndsAtOne(x: Bits, r: nat)
    ensures var c := EncOuter(x, r); !c.inner && c.settled > 0 ==> x[c.settled - 1]
    decreases |x|, 1
  {
    if r > 0 && x != [] && HasOne(x) { InnerEndsAtOne(x, r - 1); }
  }

  lemma {:induction false} InnerEndsAtOne(x: Bits, r: nat)
    requires x != [] && HasOne(x)
    ensures var c := EncInner(x, r); !c.inner ==> c.settled > 0 && x[c.settled - 1]
    decreases |x|, 0
  {
    hide EncOuter;
    if r == 0 {
    } else if |x| == 1 {
      NoneLeft(r);
      assert x[1..] == [];
    } else if !x[0] {
      HasOneLater(x);
      InnerEndsAtOne(x[1..], r - 1);
    } else if r > 1 {
      OuterEndsAtOne(x[1..], r - 1);
    }
  }

  /** A call never takes `N` back; when it is done no one is left from `N` on, and if `N` moved, or the call went on
      inside a group, a one stands before it. A call that is not done moves `N` only into a group. */
  lemma CallMoves(plane: Bits, s: State, r: nat)
    requires |plane| == BLOCK && Fits(plane, s)
    ensures var c := EncodeCall(plane, s, r);
            && s.n <= c.state.n <= BLOCK
            && (c.done ==> !HasOne(plane[c.state.n..]) && (s.inner ==> s.n < c.state.n)
                           && (s.n < c.state.n ==> plane[c.state.n - 1]))
            && (!c.done && s.n < c.state.n ==> c.state.inner) && (!c.done && s.inner ==> c.state.inner)
  {
    hide EncRun, HasOne, InnerNeed, OuterNeed, StopsWell;
    var p := Min(s.n - s.m, r);
    var x := plane[s.n..];
    var run := EncRun(x, s.inner, r - p);
    CallStops(plane, s, r);
    RunStops(x, s.inner, r - p);
    RunEndsAtOne(x, s.inner, r - p);
    StopsMeans(x, run, r - p, RunNeed(x, s.inner));
    if p < s.n - s.m { SpentRunSettlesNothing(x, s.inner); }
    assert run.settled > 0 ==> x[run.settled - 1] == plane[s.n + run.settled - 1];
  }

  lemma StopsMeans(x: Bits, c: Run, r: nat, need: nat)
    requires StopsWell(x, c, r, need)
    ensures Complete(c, |x|) ==> !c.inner
    ensures !Complete(c, |x|) && !c.inner ==> c.settled == 0
  {
    hide HasOne, InnerNeed;
  }

  lemma RunEndsAtOne(x: Bits, inner: bool, r: nat)
    requires inner ==> HasOne(x)
    ensures var c := EncRun(x, inner, r);
            (!c.inner && c.settled > 0 ==> x[c.settled - 1]) && (inner && !c.inner ==> c.settled > 0)
  {
    hide EncOuter, EncInner;
    if inner { InnerEndsAtOne(x, r); } else { OuterEndsAtOne(x, r); }
  }

  /** 128 bits finish any plane from any state. */
  lemma Need128(plane: Bits, s: State)
    requires |plane| == BLOCK && Valid(s)
    ensures CallNeed(plane, s) <= 128
  {
    hide InnerNeed, OuterNeed;
  }

  /** A smaller budget writes exactly the prefix of what a larger one writes. */
  lemma CallIsEmbedded(plane: Bits, s: State, r: nat, r': nat)
    requires |plane| == BLOCK && Valid(s) && r <= r'
    ensures var c, c' := EncodeCall(plane, s, r), EncodeCall(plane, s, r');
            && |c.bits| == Min(r, |c'.bits|)
            && c.bits <= c'.bits
            && c.state.m <= c'.state.m
  {
    hide EncRun;
    var x, p, p' := plane[s.n..], Min(s.n - s.m, r), Min(s.n - s.m, r');
    var b, b' := EncRun(x, s.inner, r - p).bits, EncRun(x, s.inner, r' - p').bits;
    if p == s.n - s.m {
      RunPrefix(x, s.inner, r - p, r' - p);
      assert plane[s.m..s.m + p] + b <= plane[s.m..s.m + p] + b';
    } else {
      SpentRunSettlesNothing(x, s.inner);
      assert plane[s.m..s.m + p] <= plane[s.m..s.m + p'] + b';
    }
  }

  lemma RunPrefix(x: Bits, inner: bool, r: nat, r': nat)
    requires r <= r' && (inner ==> x != [])
    ensures CutAt(EncRun(x, inner, r), EncRun(x, inner, r'), r)
  {
    if inner { InnerPrefix(x, r, r'); } else { OuterPrefix(x, r, r'); }
  }

  lemma {:induction false} OuterSize(x: Bits, r: nat)
    requires x != []
    ensures |EncOuter(x, r).bits| <= 2 * |x| - 1
    decreases |x|, 1
  {
    if r > 0 && HasOne(x) { InnerSize(x, r - 1); }
  }

  lemma {:induction false} InnerSize(x: Bits, r: nat)
    requires x != []
    ensures |EncInner(x, r).bits| <= 2 * |x| - 2
    decreases |x|, 0
  {
    if r > 0 && |x| > 1 {
      if x[0] { OuterSize(x[1..], r - 1); } else { InnerSize(x[1..], r - 1); }
    }
  }

  /** What a plane costs when it is not cut: 64 bits if every coefficient was significant before,
      and at most 127 - n bits if `n < 64` were. */
  lemma PlaneCost(plane: Bits, n: nat, r: nat)
    requires |plane| == BLOCK && n <= BLOCK
    requires EncodeCall(plane, State(n, 0, false), r).done
    ensures var bits := EncodeCall(plane, State(n, 0, false), r).bits;
            if n == BLOCK then bits == plane else |bits| <= 127 - n
  {
    var s := State(n, 0, false);
    CallStops(plane, s, r);
    if n < BLOCK { OuterSize(plane[n..], r - n); } else { assert plane[..BLOCK] == plane; }
  }

  // ---------------------------------------------------------------- a plane cut any number of times

  /** Coding the plane under the budgets `rs`, one call each, comes to an end. */
  ghost predicate Finishes(plane: Bits, s: State, rs: seq<nat>)
    requires |plane| == BLOCK && Fits(plane, s)
    decreases |rs|
  {
    rs != [] &&
    var c := EncodeCall(plane, s, rs[0]);
    CallStops(plane, s, rs[0]);
    c.done || Finishes(plane, c.state, rs[1..])
  }

  /** The streams `ts`, one for each call, start with the bits of that call and are long enough for
      its budget. */
  ghost predicate Carry(ts: seq<Bits>, plane: Bits, s: State, rs: seq<nat>)
    requires |plane| == BLOCK && Fits(plane, s)
    decreases |rs|
  {
    |ts| == |rs| &&
    (rs != [] ==>
      var c := EncodeCall(plane, s, rs[0]);
      CallStops(plane, s, rs[0]);
      && rs[0] <= |ts[0]| && c.bits <= ts[0]
      && (c.done || Carry(ts[1..], plane, c.state, rs[1..])))
  }

  /** The decoder on the streams `ts`, one call each until it takes the plane for finished. */
  function DecodeCalls(ts: seq<Bits>, s: State, rs: seq<nat>): (values: Bits)
    requires |ts| == |rs| && Valid(s)
    decreases |rs|
  {
    if rs == [] || rs[0] > |ts[0]| then []
    else
      var d := DecodeCall(ts[0], s, rs[0]);
      d.values + if d.done || !Valid(d.state) then [] else DecodeCalls(ts[1..], d.state, rs[1..])
  }

  lemma StreamReadsBack(plane: Bits, s: State, r: nat, t: Bits)
    requires |plane| == BLOCK && Fits(plane, s) && r <= |t| && EncodeCall(plane, s, r).bits <= t
    ensures var c := EncodeCall(plane, s, r);
            && DecodeCall(t, s, r) == Decoded(plane[s.m..c.state.m], |c.bits|, c.state, c.done)
            && (c.done ==> !HasOne(plane[c.state.m..]))
            && (!c.done ==> Fits(plane, c.state))
  {
    hide EncodeCall, DecodeCall, CallNeed, HasOne;
    var c := EncodeCall(plane, s, r);
    var rest := t[|c.bits|..];
    assert t == c.bits + rest;
    CallReadsBack(plane, s, r, rest);
    CallStops(plane, s, r);
  }

  /** The plane is cut whenever a budget is spent, inside a group or not, any number of times. What
      the decoder puts together is the plane from `s.m` on, and once the encoder is done, the rest of
      the plane is zero. */
  lemma {:induction false} PlaneSurvivesCuts(plane: Bits, s: State, rs: seq<nat>, ts: seq<Bits>)
    requires |plane| == BLOCK && Fits(plane, s) && Carry(ts, plane, s, rs)
    ensures var values := DecodeCalls(ts, s, rs);
            && s.m + |values| <= BLOCK && values == plane[s.m..s.m + |values|]
            && (Finishes(plane, s, rs) ==> !HasOne(plane[s.m + |values|..]))
    decreases |rs|
  {
    hide EncodeCall, DecodeCall, HasOne;
    if rs != [] {
      var c := EncodeCall(plane, s, rs[0]);
      StreamReadsBack(plane, s, rs[0], ts[0]);
      if !c.done {
        PlaneSurvivesCuts(plane, c.state, rs[1..], ts[1..]);
      }
    }
  }

  /** Budgets of at least 2 bits finish the plane: after `k` cut calls the need is down by `k` at least. */
  lemma {:induction false} CallsFinish(plane: Bits, s: State, rs: seq<nat>)
    requires |plane| == BLOCK && Fits(plane, s)
    requires (forall i :: 0 <= i < |rs| ==> rs[i] >= 2) && |rs| >= CallNeed(plane, s) && |rs| > 0
    ensures Finishes(plane, s, rs)
    decreases |rs|
  {
    hide EncodeCall, CallNeed, HasOne;
    CallStops(plane, s, rs[0]);
    var c := EncodeCall(plane, s, rs[0]);
    if !c.done {
      CallsFinish(plane, c.state, rs[1..]);
    }
  }

  /** With one bit a call may settle nothing: a plane whose next coefficient is a one, resumed
      inside its group, is handed back unchanged for ever. */
  lemma OneBitMakesNoProgress(plane: Bits, n: nat)
    requires |plane| == BLOCK && n < BLOCK - 1 && plane[n]
    ensures var s := State(n, n, true);
            Fits(plane, s) && EncodeCall(plane, s, 1) == Coded([true], s, false)
  {
    assert plane[n..][0];
  }
}
