/** What the rounds of the optimal parser are worth: the table tells their size, none is longer than its first match
    alone, and a run of one byte is one match. */
module Lz4HcRounds {
  import opened Lz4Format
  import opened Lz4Compress
  import opened Lz4HcIndex
  import opened Lz4HcPrices
  import opened Lz4HcOptimal
  import Lz4HcSearch

  // ---------------------------------------------------------------- what a round costs

  /** The way of a round that has come to its end is the way to the last entry of the table. */
  lemma RoundIsPath(x: Source, o: Options, r: Round)
    requires Fits(x.src, r) && Exhausted(x, o, r)
    ensures Walkable(r.t, r.reach) && r.reach <= |r.t| - 1 && r.ip + r.reach <= |x.src|
    ensures RoundSequences(x.src, r) == PathSequences(r.t, x.src, r.anchor, r.ip, r.reach)
  {
    hide TableOk, HonestTo, Settled;
    FilledIs(x, o, r.anchor, r.ip, r.t, r.looks, r.reach);
    TableWalks(r.t, x.src, r.ip, r.reach + TRAILING_LITERALS, r.reach);
  }

  /** Its size is the price of that entry, if literals on the way are counted right. */
  lemma RoundIsPriced(x: Source, o: Options, r: Round)
    requires Fits(x.src, r) && Exhausted(x, o, r) && r.len != 1
    requires Walkable(r.t, r.reach) && Counted(r.t, r.anchor, r.ip, r.reach)
    ensures AllEncodable(RoundSequences(x.src, r))
    ensures |EncodeSequences(RoundSequences(x.src, r))| == r.t[r.reach].price
  {
    hide TableOk, HonestTo, Settled, Walkable, Counted, RoundSequences, PathSequences;
    RoundIsPath(x, o, r);
    FilledIs(x, o, r.anchor, r.ip, r.t, r.looks, r.reach);
    UpToLast(r.t, x.src, r.ip, r.reach + TRAILING_LITERALS, r.reach, |r.looks| - 1);
    PathIsPriced(r.t, x.src, r.anchor, r.ip, r.reach, |r.looks| - 1);
  }

  /** Then a round that reaches no further than its first match takes no more bytes than that match alone. */
  lemma NoLongerThanFirst(x: Source, o: Options, r: Round, first: Sequence)
    requires Fits(x.src, r) && Exhausted(x, o, r) && r.len != 1
    requires Walkable(r.t, r.reach) && Counted(r.t, r.anchor, r.ip, r.reach)
    requires r.reach == MatchLength(x, r.looks[0]) && Encodable(first)
    requires first == Sequence(x.src[r.anchor..r.ip], r.looks[0].off, MatchLength(x, r.looks[0]))
    ensures AllEncodable(RoundSequences(x.src, r))
    ensures |EncodeSequences(RoundSequences(x.src, r))| <= |EncodeSequence(first)|
  {
    hide TableOk, HonestTo, Walkable, Counted, RoundSequences, Searched, Encodable, EncodeSequence, SequencePrice;
    RoundIsPriced(x, o, r);
    PriceIsSize(first);
    assert Settled(x, o, r.ip, r.t, 0, r.looks[0], r.reach);
    assert r.t[0 + r.reach].price <= MatchPrice(r.t, 0, r.reach);
  }

  // ---------------------------------------------------------------- a run of one byte

  lemma {:induction false} RunPrefix(x: Source, o: Options, rs: seq<Round>, i: nat)
    requires Run(x, o, rs) && i <= |rs|
    ensures Run(x, o, rs[..i])
    decreases |rs|
  {
    hide RoundOk, Barren, Fits;
    if i < |rs| {
      RunPrefix(x, o, rs[..|rs| - 1], i);
      assert rs[..|rs| - 1][..i] == rs[..i];
    } else {
      assert rs[..i] == rs;
    }
  }

  /** The round behind the first `i`. */
  lemma RoundAt(x: Source, o: Options, rs: seq<Round>, i: nat)
    requires Run(x, o, rs) && i < |rs|
    ensures Run(x, o, rs[..i]) && RoundOk(x, o, rs[i]) && EndOf(rs[..i]) <= rs[i].ip
    ensures rs[i].anchor == AnchorOf(x.src, rs[..i]) && forall p: nat :: EndOf(rs[..i]) <= p < rs[i].ip ==> Barren(x, p)
  {
    hide RoundOk, Barren, Fits, EndOf;
    RunPrefix(x, o, rs, i);
    RunPrefix(x, o, rs, i + 1);
    var pre := rs[..i + 1];
    assert pre[..|pre| - 1] == rs[..i] && pre[|pre| - 1] == rs[i];
  }

  /** A round begins with a match. */
  lemma FirstLook(x: Source, o: Options, r: Round)
    requires RoundOk(x, o, r)
    ensures r.looks != [] && r.looks[0].Sighted? && Searched(x, r.ip, r.looks[0]) && MatchLength(x, r.looks[0]) != 0
    ensures r.looks[0].minLen == MINMATCH - 1
    ensures TooLong(o, 0, MatchLength(x, r.looks[0])) ==>
              r.cur == 0 && r.len == MatchLength(x, r.looks[0]) && r.off == r.looks[0].off
  {
    hide Searched, TableOk, HonestTo, Weighed, Tail, Fits;
    if Exhausted(x, o, r) { assert Settled(x, o, r.ip, r.t, 0, r.looks[0], r.reach); }
    else if r.cur > 0 { assert Settled(x, o, r.ip, r.t, 0, r.looks[..r.cur][0], r.reach); }
  }

  /** A source of one repeated byte, searched for a short while at least. */
  ghost predicate Uniform(x: Source) {
    && |x.src| > MFLIMIT && (forall i :: 0 <= i < |x.src| ==> x.src[i] == x.src[0])
    && x.nbSearches > 0 && !x.favorDecSpeed
  }

  /** The search one byte behind the beginning finds the whole run. */
  lemma WholeRun(x: Source, minLen: nat, longest: nat)
    requires Uniform(x) && Sought(x, 1, minLen, longest)
    ensures longest >= |x.src| - 6
  {
    var iHigh := |x.src| - LASTLITERALS;
    assert Lz4HcSearch.NearTried(x.src, 1, 1, iHigh, x.nbSearches, longest);
    assert Lz4HcSearch.NoLonger(x.src, 1, 0, 1, iHigh, longest);
    assert Lz4HcSearch.Through(x.src, 1, 0, 1, iHigh);
  }

  lemma UniformSame(src: seq<byte>, n: nat)
    requires 1 + n <= |src| && forall i :: 0 <= i < |src| ==> src[i] == src[0]
    ensures Same(src, 1, 0, n)
  {
    var a, b := src[1..1 + n], src[0..n];
    forall k | 0 <= k < n ensures a[k] == b[k] {
    }
  }

  /** So the first round begins there, takes it at once, and leaves no room for another. */
  lemma FirstRound(x: Source, o: Options, rs: seq<Round>)
    requires Uniform(x) && o.sufficientLen < |x.src| - 6 && Run(x, o, rs) && RunOut(x, rs)
    ensures rs != [] && rs[0].ip == 1 && rs[0].anchor == 0 && rs[0].cur == 0
    ensures rs[0].len == |x.src| - 6 && rs[0].off == 1 && Fits(x.src, rs[0])
  {
    hide RoundOk, Searched, TableOk, Sought, Fits;
    if Barren(x, 1) { WholeRun(x, MINMATCH - 1, MINMATCH - 1); }
    assert !Barren(x, 1);
    RoundAt(x, o, rs, 0);
    var r := rs[0];
    FirstLook(x, o, r);
    SearchedFits(x, r.ip, r.looks[0]);
    SearchedSought(x, r.ip, r.looks[0]);
    assert r.ip == 1;
    WholeRun(x, r.looks[0].minLen, r.looks[0].longest);
    assert Fits(x.src, r) by { FitsIs(x, o, r); }
  }

  lemma SearchedSought(x: Source, ip: nat, k: Look)
    requires k.Sighted? && Searched(x, ip, k)
    ensures Sought(x, ip, k.minLen, k.longest)
    ensures MatchLength(x, k) != 0 ==> 1 <= k.off <= ip
  {
    hide Sought;
  }

  lemma FitsIs(x: Source, o: Options, r: Round)
    requires RoundOk(x, o, r)
    ensures Fits(x.src, r)
  {
    hide Fits, AtOnce, Exhausted;
  }

  /** A run of one byte, if it is long enough to be taken at once, is a literal and one match at offset 1. */
  lemma UniformIsOneMatch(x: Source, o: Options, rs: seq<Round>)
    requires Uniform(x) && o.sufficientLen < |x.src| - 6 && Run(x, o, rs) && RunOut(x, rs)
    ensures |rs| == 1 && AllFit(x.src, rs) && AnchorOf(x.src, rs) == |x.src| - LASTLITERALS
    ensures AllSequences(x.src, rs) == [Sequence(x.src[..1], 1, |x.src| - 6)]
  {
    hide RoundOk, Searched, Barren, TableOk, RunOut;
    FirstRound(x, o, rs);
    if |rs| > 1 {
      RoundAt(x, o, rs, 1);
      assert rs[..1][0] == rs[0];
      FirstLook(x, o, rs[1]);
      SearchedFits(x, rs[1].ip, rs[1].looks[0]);
      assert false;
    }
    assert rs[..|rs| - 1] == [];
    assert x.src[0..1] == x.src[..1];
    assert RoundSequences(x.src, rs[0]) == [Sequence(x.src[..1], 1, |x.src| - 6)];
  }
}
