/** What the fast compressor writes is determined: by the schedule of its search there is one way only to cut a
    source into matches. And what it writes for a run of one byte. */
module Lz4Greedy {
  import opened Lz4Format
  import opened Lz4Compress

  // ---------------------------------------------------------------- one way only

  lemma WidenedOnce(src: seq<byte>, anchor: nat, at: nat, candidate: nat, s: nat, p: nat, s': nat, p': nat)
    requires Widened(src, anchor, at, candidate, s, p) && Widened(src, anchor, at, candidate, s', p')
    ensures s == s' && p == p'
  {
    hide Same;
    if s < s' { SameAt(src, s, p, at - s + 4, s' - 1); }
    if s' < s { SameAt(src, s', p', at - s' + 4, s - 1); }
  }

  lemma EndsOnce(src: seq<byte>, f: Find, g: Find)
    requires Ends(src, f) && Ends(src, g) && f.start == g.start && f.from == g.from
    ensures f.end == g.end
  {
    hide Same;
    if f.end < g.end { SameAt(src, g.start, g.from, g.end - g.start, f.end); }
    if g.end < f.end { SameAt(src, f.start, f.from, f.end - f.start, g.end); }
  }

  /** At most one match comes next. */
  lemma NextIsOne(w: Work, fs: seq<Find>, f: Find, g: Find)
    requires Starts(w, fs, f) && Ends(w.src, f) && Starts(w, fs, g) && Ends(w.src, g)
    ensures f == g
  {
    hide Ends, Widened, Before, Ready, NextUsable, Missed, Namesake, Over;
    if !f.next {
      assert f.k == g.k;
      var at, c := PosAt(Ended(fs) + 1, w.acceleration, f.k), Namesake(Ready(w, fs), HuntAfter(w, fs), f.k);
      WidenedOnce(w.src, Ended(fs), at, c, f.start, f.from, g.start, g.from);
    }
    EndsOnce(w.src, f, g);
  }

  lemma {:induction false} GreedyAt(w: Work, fs: seq<Find>, i: nat)
    requires Greedy(w, fs) && i < |fs|
    ensures Greedy(w, fs[..i]) && Starts(w, fs[..i], fs[i]) && Ends(w.src, fs[i])
    decreases |fs|
  {
    hide Starts, Ends;
    var n := |fs| - 1;
    if i < n {
      GreedyAt(w, fs[..n], i);
      assert fs[..n][..i] == fs[..i];
    }
  }

  lemma {:induction false} GreedyAgree(w: Work, fs: seq<Find>, gs: seq<Find>)
    requires Greedy(w, fs) && Greedy(w, gs) && |fs| <= |gs|
    ensures fs == gs[..|fs|]
    decreases |fs|
  {
    hide Greedy, Starts, Ends;
    if fs != [] {
      var n := |fs| - 1;
      GreedyAt(w, fs, n);
      GreedyAt(w, gs, n);
      GreedyAgree(w, fs[..n], gs);
      NextIsOne(w, fs[..n], fs[n], gs[n]);
    }
  }

  lemma {:induction false} PosGrows(start: nat, acceleration: nat, j: nat, k: nat)
    requires j <= k
    ensures PosAt(start, acceleration, j) <= PosAt(start, acceleration, k)
    decreases k
  {
    hide StepAt;
    if j < k { PosGrows(start, acceleration, j, k - 1); }
  }

  /** Where no more matches are to be had, none comes next. */
  lemma FinishedIsLast(w: Work, fs: seq<Find>, f: Find)
    requires Finished(w, fs)
    ensures !Starts(w, fs, f)
  {
    hide Before, Ready, NextUsable, Missed, Widened, Over;
    var u := HuntAfter(w, fs);
    if !Over(w.src, fs) {
      var k: nat :| Exhausts(Ready(w, fs), u, k);
      if k <= f.k { PosGrows(u.start, u.acceleration, k + 1, f.k + 1); }
    }
  }

  /** There is one way only to cut a source into matches. */
  lemma GreedyIsOne(w: Work, fs: seq<Find>, gs: seq<Find>)
    requires Greedy(w, fs) && Finished(w, fs) && Greedy(w, gs) && Finished(w, gs)
    ensures fs == gs
  {
    hide Greedy, Finished, Starts, Ends;
    if |fs| <= |gs| { GreedyAgree(w, fs, gs); } else { GreedyAgree(w, gs, fs); }
    if |fs| < |gs| {
      GreedyAt(w, gs, |fs|);
      FinishedIsLast(w, fs, gs[|fs|]);
    }
    if |gs| < |fs| {
      GreedyAt(w, fs, |gs|);
      FinishedIsLast(w, gs, fs[|gs|]);
    }
  }

  // ---------------------------------------------------------------- a run of one byte

  /** Work on a source of one repeated byte, with a fresh table. */
  predicate Uniform(w: Work) {
    && |w.src| >= MIN_LENGTH && |w.src| <= MAX_INPUT_SIZE
    && (forall i :: 0 <= i < |w.src| ==> w.src[i] == w.src[0])
    && HashAt(w.src, 0, w.hash, w.tableType) < |w.table|
    && forall h :: 0 <= h < |w.table| ==> w.table[h] == 0
  }

  lemma UniformSame(src: seq<byte>, n: nat)
    requires 1 + n <= |src| && forall i :: 0 <= i < |src| ==> src[i] == src[0]
    ensures Same(src, 1, 0, n)
  {
    var x, y := src[1..1 + n], src[0..n];
    forall k | 0 <= k < n ensures x[k] == y[k] {
    }
  }

  /** Found at once, one byte behind itself, and as long as possible. */
  function Whole(src: seq<byte>): Find
    requires |src| >= MIN_LENGTH
  {
    Find(false, 0, 1, 0, |src| - LASTLITERALS)
  }

  lemma UniformStarts(w: Work)
    requires Uniform(w)
    ensures Starts(w, [], Whole(w.src)) && Ends(w.src, Whole(w.src))
  {
    var u := HuntAfter(w, []);
    UniformSame(w.src, 8);
    UniformSame(w.src, 4);
    UniformSame(w.src, |w.src| - LASTLITERALS - 1);
    assert Ready(w, []) == w.table;
    SameHash(w);
    FirstUsable(w);
    FirstSteps(w.acceleration);
    hide Usable, HasSlot, Ready, Same;
  }

  lemma SameHash(w: Work)
    requires Uniform(w)
    ensures HashAt(w.src, 1, w.hash, w.tableType) == HashAt(w.src, 0, w.hash, w.tableType)
  {
    hide Same;
    UniformSame(w.src, HashWidth(w.tableType));
    SameSlice(w.src, HashWidth(w.tableType));
  }

  lemma SameSlice(src: seq<byte>, n: nat)
    requires 1 + n <= |src| && Same(src, 1, 0, n)
    ensures src[1..1 + n] == src[0..0 + n]
  {
  }

  lemma FirstUsable(w: Work)
    requires Uniform(w) && HashAt(w.src, 1, w.hash, w.tableType) == HashAt(w.src, 0, w.hash, w.tableType)
    ensures !Missed(w.table, HuntAfter(w, []), 0) && Namesake(w.table, HuntAfter(w, []), 0) == 0
  {
    UniformSame(w.src, 4);
    hide Same, HashAt;
  }

  lemma FirstSteps(acceleration: nat)
    ensures PosAt(1, acceleration, 0) == 1 && PosAt(1, acceleration, 1) == 2
  {
    assert StepAt(acceleration, 0) == 1;
  }

  /** A run of one byte is a literal and one match at offset 1, and a block of so many bytes. */
  lemma UniformIsOneMatch(w: Work, fs: seq<Find>)
    requires Uniform(w) && Greedy(w, fs) && Finished(w, fs)
    ensures fs == [Whole(w.src)]
    ensures Sequences(w.src, fs) == [Sequence(w.src[..1], 1, |w.src| - 6)] && Encodable(Sequences(w.src, fs)[0])
    ensures |EncodeSequence(Sequences(w.src, fs)[0])| + |EncodeFinal(w.src[|w.src| - LASTLITERALS..])|
         == 10 + if |w.src| < 25 then 0 else 1 + (|w.src| - 25) / 255
  {
    hide Starts, Ends, Finished, Before;
    var f := Whole(w.src);
    UniformStarts(w);
    assert Greedy(w, []);
    GreedySnoc(w, [], f);
    assert [] + [f] == [f];
    assert Finished(w, [f]) by { WholeIsLast(w); }
    GreedyIsOne(w, fs, [f]);
    assert Sequences(w.src, []) == [] && [] + [SequenceOf(w.src, 0, f)] == [SequenceOf(w.src, 0, f)];
    assert w.src[0..1] == w.src[..1];
    hide Greedy;
  }

  lemma WholeIsLast(w: Work)
    requires |w.src| >= MIN_LENGTH
    ensures Finished(w, [Whole(w.src)])
  {
    hide NextUsable, Exhausts, Ready;
  }
}
