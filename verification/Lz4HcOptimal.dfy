/** The optimal parser of LZ4 HC: no output limit, one prefix, no dictionary.

    Prices equal the bytes written, the in-place reversal makes the forward walk retrace the backward
    path, and the block produced decodes to the source whatever the prices choose. */
module Lz4HcOptimal {
  import opened Lz4Format
  import opened Lz4Copy
  import opened Lz4Compress
  import opened Lz4HcIndex
  import opened Lz4HcPrices
  import opened Lz4HcSearch

  // ---------------------------------------------------------------- one sequence

  /** `for(; length >= 510 ; length -= 510) *op++ = 255, *op++ = 255; if (length >= 255) ...` */
  method WriteExtPairs(dst: array<byte>, op0: nat, n: nat) returns (op: nat)
    requires op0 + n / 255 + 1 <= dst.Length
    modifies dst
    ensures op == op0 + |ExtBytes(n)| && dst[..op] == old(dst[..op0]) + ExtBytes(n)
  {
    op := op0;
    var length: nat := n;
    while length >= 510
      invariant op0 <= op && op + length / 255 + 1 == op0 + n / 255 + 1
      invariant dst[..op] + ExtBytes(length) == old(dst[..op0]) + ExtBytes(n)
    {
      ghost var before := dst[..op];
      dst[op], dst[op + 1] := 255, 255;
      op := op + 2;
      length := length - 510;
      assert dst[..op] == before + [255] + [255];
      assert before + ([255] + ([255] + ExtBytes(length))) == dst[..op] + ExtBytes(length);
    }
    ghost var before := dst[..op];
    if length >= 255 {
      dst[op] := 255;
      op := op + 1;
      length := length - 255;
      assert dst[..op] == before + [255];
      assert before + ([255] + ExtBytes(length)) == dst[..op] + ExtBytes(length);
    }
    ghost var head := dst[..op];
    dst[op] := length;
    op := op + 1;
    assert dst[..op] == head + [length];
  }

  /** Offset and match length, the low part of it in the token already written. */
  method WriteMatchPart(dst: array<byte>, token: nat, op0: nat, offset: nat, code: nat) returns (op: nat)
    requires token < op0 < dst.Length && dst[token] % 16 == 0 && offset <= DISTANCE_MAX
    requires op0 + 2 + |LengthBytes(code)| <= dst.Length
    modifies dst
    ensures op == op0 + 2 + |LengthBytes(code)|
    ensures dst[..op] == old(dst[..op0])[token := old(dst[token]) + Nibble(code)]
                         + [offset % 256, offset / 256] + LengthBytes(code)
  {
    dst[op0], dst[op0 + 1] := offset % 256, offset / 256;
    op := op0 + 2;
    if code >= ML_MASK {
      dst[token] := dst[token] + ML_MASK;
      ghost var head := dst[..op];
      assert head == old(dst[..op0])[token := old(dst[token]) + ML_MASK] + [offset % 256, offset / 256];
      op := WriteExtPairs(dst, op, code - ML_MASK);
    } else {
      dst[token] := dst[token] + code;
    }
  }

  /** LZ4HC_encodeSequence: literals from `anchor` to `ip`, then the match. */
  method EncodeOne(src: seq<byte>, dst: array<byte>, op0: nat, anchor: nat, ip: nat, off: nat, len: nat,
                   ghost qs: seq<Sequence>)
    returns (op: nat, ghost qs': seq<Sequence>)
    requires op0 <= dst.Length && |src| + |src| / 255 + 16 <= dst.Length
    requires Emitted(dst[..op0], qs, src, anchor) && anchor <= ip && MatchAt(src, ip, off, len)
    modifies dst
    ensures op == op0 + SequencePrice(ip - anchor, len) && op <= dst.Length
    ensures qs' == qs + [Sequence(src[anchor..ip], off, len)] && Emitted(dst[..op], qs', src, ip + len)
  {
    hide Same, Spells, Emitted, LiteralPart, EncodeSequence, LengthBytes, Pending;
    ghost var q := Sequence(src[anchor..ip], off, len);
    ghost var out := dst[..op0];
    EmittedRoom(out, qs, src, anchor, ip);
    LiteralsPending(out, qs, src, anchor, ip);
    LiteralPartSize(q.literals);
    op := WriteLiterals(src, dst, op0, anchor, ip);
    ghost var part := dst[..op];
    assert part == out + LiteralPart(q.literals);
    PendingIs(part, qs, src, anchor, ip, op0);
    EncodedPart(part, op0, q);
    RoomForMatch(part, qs, src, anchor, ip, op0, len - MINMATCH);
    op := WriteMatchPart(dst, op0, op, off, len - MINMATCH);
    MatchCompletes(part, qs, src, anchor, ip, op0, q);
    PriceIsSize(q);
    qs' := qs + [q];
  }

  lemma LiteralPartSize(lits: seq<byte>)
    ensures |LiteralPart(lits)| == 1 + |LengthBytes(|lits|)| + |lits|
  {
    hide LengthBytes;
  }

  lemma PendingIs(out: seq<byte>, qs: seq<Sequence>, src: seq<byte>, anchor: nat, ip: nat, token: nat)
    requires Pending(out, qs, src, anchor, ip, token)
    ensures token <= |out| && out == out[..token] + LiteralPart(src[anchor..ip])
  {
    hide Emitted, LiteralPart;
  }

  // ---------------------------------------------------------------- reversing the path

  /** The positions on the way to `c`, first to last. */
  function BackPath(t: seq<Optimal>, c: nat): seq<nat>
    requires Walkable(t, c)
  {
    if c == 0 then [0] else BackPath(t, c - t[c].mlen) + [c]
  }

  /** The positions met when each entry says how far the next one is. */
  function ForwardPath(t: seq<Optimal>, p: nat, end: nat): seq<nat>
    decreases end - p
  {
    if end <= p || |t| <= p || t[p].mlen == 0 then [] else [p] + ForwardPath(t, p + t[p].mlen, end)
  }

  /** From `p` on, `t` holds the steps of `old` turned round: each entry has the length and offset of the
      entry it leads to, the one at `cur` those of the step behind it. */
  ghost predicate Retraces(t: seq<Optimal>, was: seq<Optimal>, p: nat, cur: nat, len: nat, off: nat)
    requires |t| == |was|
    decreases cur - p
  {
    && p <= cur < |t|
    && if p == cur then t[p].mlen == len && t[p].off == off
       else
         var next := p + t[p].mlen;
         && p < next <= cur && was[next].mlen == t[p].mlen && was[next].off == t[p].off
         && Retraces(t, was, next, cur, len, off)
  }

  lemma {:induction false} RetracesFrame(t: seq<Optimal>, u: seq<Optimal>, was: seq<Optimal>, p: nat, cur: nat,
                                         len: nat, off: nat)
    requires |t| == |u| == |was| && Retraces(t, was, p, cur, len, off)
    requires forall i :: p <= i < |t| ==> u[i] == t[i]
    ensures Retraces(u, was, p, cur, len, off)
    decreases cur - p
  {
    if p < cur { RetracesFrame(t, u, was, p + t[p].mlen, cur, len, off); }
  }

  /** The forward walk meets exactly the positions of the backward path, and then the end. */
  lemma {:induction false} RetracedPath(t: seq<Optimal>, was: seq<Optimal>, p: nat, cur: nat, len: nat, off: nat)
    requires |t| == |was| && Walkable(was, cur) && len >= 1 && Retraces(t, was, p, cur, len, off)
    ensures BackPath(was, cur) == BackPath(was, p)[..|BackPath(was, p)| - 1] + ForwardPath(t, p, cur + len)
    decreases cur - p
  {
    var back := BackPath(was, p);
    assert back == back[..|back| - 1] + [p];
    if p < cur {
      var next := p + t[p].mlen;
      RetracedPath(t, was, next, cur, len, off);
      assert BackPath(was, next) == back + [next];
      assert BackPath(was, next)[..|back|] == back;
    } else {
      assert ForwardPath(t, p + len, cur + len) == [];
    }
  }

  /** The step selected for `c` leads to the part of the path already turned round. */
  ghost predicate Selected(t: seq<Optimal>, was: seq<Optimal>, c: nat, cur: nat, len: nat, off: nat, selLen: nat,
                           selOff: nat)
    requires |t| == |was|
  {
    if c == cur then selLen == len && selOff == off
    else
      && c < c + selLen <= cur < |t| && was[c + selLen].mlen == selLen && was[c + selLen].off == selOff
      && Retraces(t, was, c + selLen, cur, len, off)
  }

  /** The reverse traversal of the optimal parser, in place. */
  method ReversePath(opt: array<Optimal>, cur: nat, bestLen: nat, bestOff: nat)
    requires Walkable(opt[..], cur) && bestLen >= 1
    modifies opt
    ensures Retraces(opt[..], old(opt[..]), 0, cur, bestLen, bestOff)
    ensures ForwardPath(opt[..], 0, cur + bestLen) == BackPath(old(opt[..]), cur)
  {
    ghost var was := opt[..];
    var candidate: nat, selectedLen: nat, selectedOff: nat := cur, bestLen, bestOff;
    while true
      invariant candidate <= cur < opt.Length
      invariant forall i :: 0 <= i <= candidate ==> opt[i] == was[i]
      invariant Selected(opt[..], was, candidate, cur, bestLen, bestOff, selectedLen, selectedOff)
      decreases candidate
    {
      var nextLen, nextOff := opt[candidate].mlen, opt[candidate].off;
      ghost var before := opt[..];
      opt[candidate] := opt[candidate].(mlen := selectedLen, off := selectedOff);
      if candidate < cur {
        RetracesFrame(before, opt[..], was, candidate + selectedLen, cur, bestLen, bestOff);
      }
      assert Retraces(opt[..], was, candidate, cur, bestLen, bestOff);
      assert before[candidate] == was[candidate];
      selectedLen, selectedOff := nextLen, nextOff;
      if nextLen > candidate { break; }
      candidate := candidate - nextLen;
    }
    RetracedPath(opt[..], was, 0, cur, bestLen, bestOff);
  }

  // ---------------------------------------------------------------- searching

  /** Everything a search needs to know about the source and its index. */
  datatype Source = Source(src: seq<byte>, start: nat, hash: seq<byte> -> nat, nbSearches: nat, favorDecSpeed: bool)

  ghost predicate Indexed(index: HcIndex, x: Source, upTo: nat)
    reads index, index.hashTable, index.chainTable
  {
    index.Valid(KeyOf(x.src, x.start, x.hash), x.start) && index.nextToUpdate <= upTo + x.start
  }

  lemma IndexedLater(index: HcIndex, x: Source, a: nat, b: nat)
    requires Indexed(index, x, a) && a <= b
    ensures Indexed(index, x, b)
  {
  }

  /** The length offered of the longest match found: none if it is not longer, and a short one for the sake of a fast
      decoder. */
  function Offered(longest: nat, minLen: nat, favorDecSpeed: bool): nat {
    if longest <= minLen then 0 else if favorDecSpeed && 18 < longest <= 36 then 18 else longest
  }

  /** The search behind it has got as far as its attempts allow. */
  ghost predicate Sought(x: Source, ip: nat, minLen: nat, longest: nat) {
    && minLen <= longest
    && Reached(x.src, x.start, x.hash, ip, ip, if |x.src| < LASTLITERALS then 0 else |x.src| - LASTLITERALS, x.nbSearches,
               true, true, x.favorDecSpeed, longest)
  }

  /** What became of a position: passed over, as the next one costs no more, or searched for a match longer than
      `minLen`. */
  datatype Look = Passed | Sighted(minLen: nat, longest: nat, off: nat)

  /** The length of the match a look offers. */
  function MatchLength(x: Source, k: Look): nat {
    match k
    case Passed => 0
    case Sighted(minLen, longest, _) => Offered(longest, minLen, x.favorDecSpeed)
  }

  /** The position was searched as far as the attempts allow, and the match offered is there. */
  ghost predicate Searched(x: Source, ip: nat, k: Look) {
    && k.Sighted? && Sought(x, ip, k.minLen, k.longest)
    && (MatchLength(x, k) != 0 ==> MatchAt(x.src, ip, k.off, MatchLength(x, k)))
  }

  /** Searched for a match of the least length, and there is none. */
  ghost predicate Barren(x: Source, ip: nat) {
    Sought(x, ip, MINMATCH - 1, MINMATCH - 1)
  }

  /** LZ4HC_FindLongerMatch: a match at `ip` itself, longer than `minLen`; length 0 if there is none. */
  method FindLonger(index: HcIndex, x: Source, ip: nat, minLen: nat) returns (len: nat, off: nat, ghost look: Look)
    requires Indexed(index, x, ip) && ip + MFLIMIT <= |x.src|
    requires 1 <= minLen && ip + minLen + LASTLITERALS <= |x.src|
    modifies index, index.hashTable, index.chainTable
    ensures Indexed(index, x, ip)
    ensures Searched(x, ip, look) && look.Sighted? && look.minLen == minLen && len == MatchLength(x, look) && off == look.off
    ensures len == 0 && minLen == MINMATCH - 1 ==> Barren(x, ip)
    ensures !x.favorDecSpeed && x.nbSearches >= MAXD ==>
              Longest(x.src, ip, ip, |x.src| - LASTLITERALS, if len == 0 then minLen else len)
  {
    hide index.Valid, KeyOf, Longest, Reached;
    var iHigh := |x.src| - LASTLITERALS;
    var best := WiderMatch(index, x.src, x.start, x.hash, ip, ip, iHigh, minLen, x.nbSearches, true, true, x.favorDecSpeed);
    assert Sought(x, ip, minLen, best.longest);
    if best.longest <= minLen {
      look := Sighted(minLen, best.longest, 0);
      return 0, 0, look;
    }
    len, off := best.longest, ip - best.at;
    if x.favorDecSpeed && 18 < len <= 36 {
      ShorterMatch(x.src, ip, off, len, 18);
      len := 18;
    }
    look := Sighted(minLen, best.longest, off);
  }

  lemma MatchFits(src: seq<byte>, ip: nat, off: nat, len: nat)
    requires MatchAt(src, ip, off, len)
    ensures ip + len + LASTLITERALS <= |src| && MINMATCH <= len
  {
  }

  // ---------------------------------------------------------------- one round

  /** How long a match is taken at once, and how eagerly positions are searched. */
  datatype Options = Options(sufficientLen: nat, fullUpdate: bool)

  /** A round of the parser: the segment at `ip` and the end of the last match, what was seen at its positions, the table
      with the prices, how far it reaches, and the last step: `len` bytes from position `cur`. */
  datatype Round = Round(ip: nat, anchor: nat, looks: seq<Look>, t: seq<Optimal>, reach: nat, cur: nat, len: nat, off: nat)

  /** A match too long to be weighed. */
  predicate TooLong(o: Options, c: nat, len: nat) {
    len > o.sufficientLen || c + len >= OPT_NUM
  }

  /** How eagerly: for any match, or only for one that leads further. */
  predicate Eager(o: Options, c: nat, minLen: nat, reach: nat) {
    if o.fullUpdate || c == 0 then minLen == MINMATCH - 1 else 1 <= minLen && c + minLen <= reach
  }

  /** Position `c` was passed over, as the next one costs no more, or searched; and then the way over the match found
      has been weighed. */
  ghost predicate Settled(x: Source, o: Options, ip: nat, t: seq<Optimal>, c: nat, k: Look, reach: nat) {
    && c < reach && reach + TRAILING_LITERALS < |t|
    && match k
       case Passed =>
         && 0 < c && t[c + 1].price <= t[c].price && (o.fullUpdate ==> t[c + MINMATCH].price < t[c].price + 3)
       case Sighted(minLen, _, _) =>
         && Searched(x, ip + c, k) && Eager(o, c, minLen, reach)
         && var len := MatchLength(x, k);
            len == 0 || (!TooLong(o, c, len) && Weighed(t, c, len) && c + len <= reach + TRAILING_LITERALS)
  }

  /** The segment up to the positions looked at: prices are those of literals and matches that are there, none is too low,
      and every position has been settled. */
  ghost predicate Filled(x: Source, o: Options, anchor: nat, ip: nat, t: seq<Optimal>, looks: seq<Look>, reach: nat) {
    && anchor <= ip && 1 <= |looks| <= reach && ip + reach + LASTLITERALS <= |x.src|
    && TableOk(t, x.src, ip, reach + TRAILING_LITERALS) && HonestTo(t, reach + TRAILING_LITERALS, |looks| - 1)
    && Tail(t, reach) && t[0] == Optimal(LiteralsPrice(ip - anchor), 0, 1, ip - anchor)
    && looks[0].Sighted? && MatchLength(x, looks[0]) != 0
    && forall c :: 0 <= c < |looks| ==> Settled(x, o, ip, t, c, looks[c], reach)
  }

  /** The round ends at once with a match too long to be weighed. */
  ghost predicate AtOnce(x: Source, o: Options, r: Round) {
    && |r.looks| == r.cur + 1 && Searched(x, r.ip + r.cur, r.looks[r.cur])
    && r.len == MatchLength(x, r.looks[r.cur]) != 0 && r.off == r.looks[r.cur].off && TooLong(o, r.cur, r.len)
    && Eager(o, r.cur, r.looks[r.cur].minLen, r.reach)
    && (r.cur > 0 ==> Filled(x, o, r.anchor, r.ip, r.t, r.looks[..r.cur], r.reach))
  }

  /** Or all positions that the table reaches have been looked at, and its last entry tells the last step. */
  ghost predicate Exhausted(x: Source, o: Options, r: Round) {
    && Filled(x, o, r.anchor, r.ip, r.t, r.looks, r.reach)
    && (|r.looks| == r.reach || r.ip + |r.looks| + MFLIMIT > |x.src|)
    && r.reach == r.cur + r.len && r.len == r.t[r.reach].mlen && r.off == r.t[r.reach].off
  }

  /** The way of a round lies in the source. */
  ghost predicate Fits(src: seq<byte>, r: Round) {
    r.anchor <= r.ip && Walkable(r.t, r.cur) && 1 <= r.len && r.ip + r.cur + r.len <= |src|
  }

  ghost predicate RoundOk(x: Source, o: Options, r: Round) {
    Fits(x.src, r) && (AtOnce(x, o, r) || Exhausted(x, o, r))
  }

  /** The sequences of a round. */
  ghost function RoundSequences(src: seq<byte>, r: Round): seq<Sequence>
    requires Fits(src, r)
  {
    PathSequences(r.t, src, r.anchor, r.ip, r.cur)
    + Hop(src, PathAnchor(r.t, r.anchor, r.ip, r.cur), r.ip + r.cur, r.off, r.len)
  }

  /** The end of its last match. */
  ghost function RoundAnchor(src: seq<byte>, r: Round): nat
    requires Fits(src, r)
  {
    if r.len == 1 then PathAnchor(r.t, r.anchor, r.ip, r.cur) else r.ip + r.cur + r.len
  }

  // ---------------------------------------------------------------- filling the table

  lemma SettledLater(x: Source, o: Options, ip: nat, t: seq<Optimal>, u: seq<Optimal>, c: nat, k: Look, cur: nat, reach: nat,
                     reach': nat)
    requires Settled(x, o, ip, t, c, k, reach) && Lower(t, u, cur, reach + TRAILING_LITERALS) && c <= cur
    requires reach <= reach' && reach' + TRAILING_LITERALS < |u|
    ensures Settled(x, o, ip, u, c, k, reach')
  {
    hide Searched, Weighed;
    if k.Sighted? && MatchLength(x, k) != 0 {
      StillWeighed(t, u, c, MatchLength(x, k), cur, reach + TRAILING_LITERALS);
    }
  }

  lemma FilledLater(x: Source, o: Options, anchor: nat, ip: nat, t: seq<Optimal>, looks: seq<Look>, reach: nat,
                    u: seq<Optimal>, k: Look, reach': nat)
    requires Filled(x, o, anchor, ip, t, looks, reach) && Lower(t, u, |looks|, reach + TRAILING_LITERALS)
    requires |looks| < reach <= reach' && ip + reach' + LASTLITERALS <= |x.src|
    requires TableOk(u, x.src, ip, reach' + TRAILING_LITERALS) && HonestTo(u, reach' + TRAILING_LITERALS, |looks|)
    requires Tail(u, reach') && Settled(x, o, ip, u, |looks|, k, reach')
    ensures Filled(x, o, anchor, ip, u, looks + [k], reach')
  {
    hide TableOk, HonestTo, Settled;
    forall c | 0 <= c < |looks| ensures Settled(x, o, ip, u, c, looks[c], reach') {
      SettledLater(x, o, ip, t, u, c, looks[c], |looks|, reach, reach');
    }
  }

  /** One position more, without a new match. */
  lemma FilledOn(x: Source, o: Options, anchor: nat, ip: nat, t: seq<Optimal>, looks: seq<Look>, reach: nat, k: Look)
    requires Filled(x, o, anchor, ip, t, looks, reach) && |looks| < reach && Settled(x, o, ip, t, |looks|, k, reach)
    ensures Filled(x, o, anchor, ip, t, looks + [k], reach)
  {
    hide TableOk, Settled;
    HonestOn(t, reach + TRAILING_LITERALS, |looks| - 1);
  }

  lemma HonestOn(t: seq<Optimal>, hi: nat, cur: nat)
    requires HonestTo(t, hi, cur)
    ensures HonestTo(t, hi, cur + 1)
  {
    hide MatchPrice;
  }

  /** Not worth a search: the next position costs no more. */
  predicate Skips(opt: array<Optimal>, cur: nat, fullUpdate: bool)
    requires cur + MINMATCH < opt.Length
    reads opt
  {
    opt[cur + 1].price <= opt[cur].price && (fullUpdate ==> opt[cur + MINMATCH].price < opt[cur].price + 3)
  }

  /** The look at one position: `taken` if a match there is long enough to be taken at once, else it has been settled. */
  method LookAt(index: HcIndex, x: Source, o: Options, opt: array<Optimal>, ghost anchor: nat, ip: nat, cur: nat, last0: nat,
                ghost looks: seq<Look>)
    returns (taken: bool, last: nat, len: nat, off: nat, ghost look: Look)
    requires Indexed(index, x, ip + cur) && opt.Length == OPT_NUM + TRAILING_LITERALS
    requires |looks| == cur < last0 < OPT_NUM && ip + cur + MFLIMIT <= |x.src|
    requires Filled(x, o, anchor, ip, opt[..], looks, last0)
    modifies index, index.hashTable, index.chainTable, opt
    ensures Indexed(index, x, ip + cur)
    ensures !taken ==> last0 <= last < OPT_NUM && Filled(x, o, anchor, ip, opt[..], looks + [look], last)
    ensures taken ==> last == last0 && opt[..] == old(opt[..])
    ensures taken ==> Searched(x, ip + cur, look) && look.Sighted? && Eager(o, cur, look.minLen, last0)
    ensures taken ==> len == MatchLength(x, look) != 0 && off == look.off && TooLong(o, cur, len)
  {
    hide Indexed, Filled, Searched, Settled, Weighed, TableOk, HonestTo, MatchAt, Tail, Entered, Lower, Barren, Longest;
    FilledIs(x, o, anchor, ip, opt[..], looks, last0);
    ghost var was := opt[..];
    taken, last, len, off, look := false, last0, 0, 0, Passed;
    if Skips(opt, cur, o.fullUpdate) {
      SettledPassed(x, o, ip, was, cur, last0);
      FilledOn(x, o, anchor, ip, was, looks, last0, look);
      return;
    }
    len, off, look := FindLonger(index, x, ip + cur, if o.fullUpdate then MINMATCH - 1 else last0 - cur);
    if len == 0 {
      SettledBarren(x, o, ip, was, cur, look, last0);
      FilledOn(x, o, anchor, ip, was, looks, last0, look);
      return;
    }
    SearchedFits(x, ip + cur, look);
    if len > o.sufficientLen || len + cur >= OPT_NUM {
      taken := true;
      return;
    }
    HonestOn(was, last0 + TRAILING_LITERALS, cur - 1);
    last := Improve(opt, last0, cur, len, off, x.favorDecSpeed, x.src, ip);
    SettledWeighed(x, o, ip, opt[..], cur, look, last0, last);
    EnteredTail(was, opt[..], last0, last, cur, len, off, x.favorDecSpeed);
    FilledLater(x, o, anchor, ip, was, looks, last0, opt[..], look, last);
  }

  lemma EnteredTail(t: seq<Optimal>, u: seq<Optimal>, last0: nat, last: nat, cur: nat, len: nat, off: nat,
                    favorDecSpeed: bool)
    requires Entered(t, u, last0, last, cur, len, off, favorDecSpeed)
    ensures Tail(u, last) && last + TRAILING_LITERALS < |u|
  {
    hide EntryAt, Better;
  }

  /** Search on at the positions the first match covers, until the table is complete or a match is
      long enough to be taken at once. */
  method FillTable(index: HcIndex, x: Source, o: Options, opt: array<Optimal>, ghost anchor: nat, ip: nat, last0: nat,
                   ghost first: Look)
    returns (cur: nat, last: nat, len: nat, off: nat, ghost r: Round)
    requires Indexed(index, x, ip) && opt.Length == OPT_NUM + TRAILING_LITERALS
    requires last0 < OPT_NUM && ip + MFLIMIT <= |x.src| && o.sufficientLen < OPT_NUM
    requires Filled(x, o, anchor, ip, opt[..], [first], last0)
    modifies index, index.hashTable, index.chainTable, opt
    ensures r.ip == ip && r.anchor == anchor && r.t == opt[..] && r.cur == cur && r.len == len && r.off == off
    ensures RoundOk(x, o, r) && Indexed(index, x, ip + last) && StepOk(x.src, ip, cur, len, off)
    ensures cur < last <= cur + len && ip + cur + len + LASTLITERALS <= |x.src|
    ensures TableOk(opt[..], x.src, ip, cur)
  {
    hide Indexed, Filled, Searched, TableOk, RoundOk, StepOk;
    last, cur := last0, 1;
    ghost var looks := [first];
    FilledIs(x, o, anchor, ip, opt[..], looks, last);
    IndexedLater(index, x, ip, ip + cur);
    while cur < last
      invariant 1 <= cur <= last < OPT_NUM && |looks| == cur
      invariant Filled(x, o, anchor, ip, opt[..], looks, last) && Indexed(index, x, ip + cur)
      decreases OPT_NUM - cur
    {
      if ip + cur + MFLIMIT > |x.src| { break; }
      var taken;
      ghost var look;
      taken, last, len, off, look := LookAt(index, x, o, opt, anchor, ip, cur, last, looks);
      if taken {
        r := Round(ip, anchor, looks + [look], opt[..], last, cur, len, off);
        assert r.looks[..cur] == looks;
        EndsAtOnce(x, o, r);
        IndexedLater(index, x, ip + cur, ip + cur + 1);
        last := cur + 1;
        return;
      }
      looks := looks + [look];
      FilledIs(x, o, anchor, ip, opt[..], looks, last);
      IndexedLater(index, x, ip + cur, ip + cur + 1);
      cur := cur + 1;
    }
    IndexedLater(index, x, ip + cur, ip + last);
    FilledLast(x, o, anchor, ip, opt[..], looks, last);
    len, off := opt[last].mlen, opt[last].off;
    cur := last - len;
    r := Round(ip, anchor, looks, opt[..], last, cur, len, off);
    EndsExhausted(x, o, r);
  }

  lemma FilledIs(x: Source, o: Options, anchor: nat, ip: nat, t: seq<Optimal>, looks: seq<Look>, reach: nat)
    requires Filled(x, o, anchor, ip, t, looks, reach)
    ensures anchor <= ip && 1 <= |looks| <= reach && ip + reach + LASTLITERALS <= |x.src| && reach + TRAILING_LITERALS < |t|
    ensures TableOk(t, x.src, ip, reach + TRAILING_LITERALS) && HonestTo(t, reach + TRAILING_LITERALS, |looks| - 1)
    ensures Tail(t, reach)
  {
    hide TableOk, HonestTo, Settled;
  }

  lemma SettledPassed(x: Source, o: Options, ip: nat, t: seq<Optimal>, c: nat, reach: nat)
    requires 0 < c < reach && reach + TRAILING_LITERALS < |t| && t[c + 1].price <= t[c].price
    requires o.fullUpdate ==> t[c + MINMATCH].price < t[c].price + 3
    ensures Settled(x, o, ip, t, c, Passed, reach)
  {
  }

  lemma SettledBarren(x: Source, o: Options, ip: nat, t: seq<Optimal>, c: nat, k: Look, reach: nat)
    requires 0 < c < reach && reach + TRAILING_LITERALS < |t|
    requires k.Sighted? && Searched(x, ip + c, k) && MatchLength(x, k) == 0
    requires k.minLen == if o.fullUpdate then MINMATCH - 1 else reach - c
    ensures Settled(x, o, ip, t, c, k, reach)
  {
    hide Sought, Weighed;
  }

  lemma SettledWeighed(x: Source, o: Options, ip: nat, t: seq<Optimal>, c: nat, k: Look, reach0: nat, reach: nat)
    requires 0 < c < reach0 <= reach && reach + TRAILING_LITERALS < |t|
    requires k.Sighted? && Searched(x, ip + c, k)
    requires k.minLen == if o.fullUpdate then MINMATCH - 1 else reach0 - c
    requires !TooLong(o, c, MatchLength(x, k)) && Weighed(t, c, MatchLength(x, k)) && c + MatchLength(x, k) <= reach + TRAILING_LITERALS
    ensures Settled(x, o, ip, t, c, k, reach)
  {
    hide Searched, Weighed;
  }

  lemma SearchedFits(x: Source, ip: nat, k: Look)
    requires Searched(x, ip, k) && MatchLength(x, k) != 0
    ensures MatchAt(x.src, ip, k.off, MatchLength(x, k))
    ensures ip + MatchLength(x, k) + LASTLITERALS <= |x.src| && MINMATCH <= MatchLength(x, k)
  {
    hide Sought;
  }

  lemma TableWalks(t: seq<Optimal>, src: seq<byte>, ip: nat, hi: nat, c: nat)
    requires TableOk(t, src, ip, hi) && c <= hi
    ensures Walkable(t, c)
  {
    hide StepOk;
    forall p | 1 <= p <= c ensures 1 <= t[p].mlen <= p {
      assert EntryOk(src, ip, p, t[p]);
    }
  }

  lemma EndsAtOnce(x: Source, o: Options, r: Round)
    requires r.cur > 0 && |r.looks| == r.cur + 1 && r.cur < r.reach
    requires Filled(x, o, r.anchor, r.ip, r.t, r.looks[..r.cur], r.reach)
    requires Searched(x, r.ip + r.cur, r.looks[r.cur]) && Eager(o, r.cur, r.looks[r.cur].minLen, r.reach)
    requires r.len == MatchLength(x, r.looks[r.cur]) != 0 && r.off == r.looks[r.cur].off && TooLong(o, r.cur, r.len)
    ensures RoundOk(x, o, r) && StepOk(x.src, r.ip, r.cur, r.len, r.off) && TableOk(r.t, x.src, r.ip, r.cur)
    ensures r.ip + r.cur + r.len + LASTLITERALS <= |x.src| && 1 < r.len
  {
    hide Filled, Searched, HonestTo, Walkable, MatchAt;
    FilledIs(x, o, r.anchor, r.ip, r.t, r.looks[..r.cur], r.reach);
    SearchedFits(x, r.ip + r.cur, r.looks[r.cur]);
    TableWalks(r.t, x.src, r.ip, r.reach + TRAILING_LITERALS, r.cur);
  }

  lemma FilledLast(x: Source, o: Options, anchor: nat, ip: nat, t: seq<Optimal>, looks: seq<Look>, reach: nat)
    requires Filled(x, o, anchor, ip, t, looks, reach)
    ensures reach < |t| && 1 <= t[reach].mlen <= reach && ip + reach + LASTLITERALS <= |x.src|
    ensures StepOk(x.src, ip, reach - t[reach].mlen, t[reach].mlen, t[reach].off)
    ensures Walkable(t, reach - t[reach].mlen) && TableOk(t, x.src, ip, reach - t[reach].mlen)
  {
    hide StepOk, Settled;
    assert EntryOk(x.src, ip, reach, t[reach]);
    TableWalks(t, x.src, ip, reach + TRAILING_LITERALS, reach);
  }

  lemma EndsExhausted(x: Source, o: Options, r: Round)
    requires Filled(x, o, r.anchor, r.ip, r.t, r.looks, r.reach)
    requires |r.looks| == r.reach || r.ip + |r.looks| + MFLIMIT > |x.src|
    requires r.reach == r.cur + r.len && r.len == r.t[r.reach].mlen && r.off == r.t[r.reach].off
    ensures RoundOk(x, o, r)
  {
    FilledLast(x, o, r.anchor, r.ip, r.t, r.looks, r.reach);
    FilledIs(x, o, r.anchor, r.ip, r.t, r.looks, r.reach);
    hide Filled, TableOk, HonestTo, Walkable, StepOk;
  }

  // ---------------------------------------------------------------- encoding the path

  /** What has been written of a round when its way has been followed to `p`. */
  ghost function SoFar(src: seq<byte>, r: Round, p: nat): seq<Sequence>
    requires Fits(src, r)
  {
    if p <= r.cur then PathSequences(r.t, src, r.anchor, r.ip, p) else RoundSequences(src, r)
  }

  ghost function AnchorSoFar(src: seq<byte>, r: Round, p: nat): nat
    requires Fits(src, r)
  {
    if p <= r.cur then PathAnchor(r.t, r.anchor, r.ip, p) else RoundAnchor(src, r)
  }

  /** A step of the retraced path is a step of the table. */
  lemma RetracedStep(t: seq<Optimal>, src: seq<byte>, r: Round, p: nat)
    requires Fits(src, r) && |t| == |r.t| && Retraces(t, r.t, p, r.cur, r.len, r.off)
    requires TableOk(r.t, src, r.ip, r.cur) && StepOk(src, r.ip, r.cur, r.len, r.off)
    ensures p <= r.cur < |t| && 1 <= t[p].mlen && StepOk(src, r.ip, p, t[p].mlen, t[p].off)
    ensures p == r.cur ==> t[p].mlen == r.len && t[p].off == r.off
    ensures p < r.cur ==>
              var c := p + t[p].mlen;
              c <= r.cur && r.t[c].mlen == t[p].mlen && r.t[c].off == t[p].off && Retraces(t, r.t, c, r.cur, r.len, r.off)
  {
    hide StepOk;
    if p < r.cur { assert EntryOk(src, r.ip, p + t[p].mlen, r.t[p + t[p].mlen]); }
  }

  /** What it adds. */
  lemma StepAdds(t: seq<Optimal>, src: seq<byte>, r: Round, p: nat)
    requires Fits(src, r) && p <= r.cur && p < |t| && 1 <= t[p].mlen
    requires p == r.cur ==> t[p].mlen == r.len && t[p].off == r.off
    requires p < r.cur ==> var c := p + t[p].mlen; c <= r.cur && r.t[c].mlen == t[p].mlen && r.t[c].off == t[p].off
    ensures AnchorSoFar(src, r, p) <= r.ip + p && r.ip + p + t[p].mlen <= |src|
    ensures SoFar(src, r, p + t[p].mlen) == SoFar(src, r, p) + Hop(src, AnchorSoFar(src, r, p), r.ip + p, t[p].off, t[p].mlen)
    ensures AnchorSoFar(src, r, p + t[p].mlen)
         == if t[p].mlen == 1 then AnchorSoFar(src, r, p) else r.ip + p + t[p].mlen
  {
  }

  /** Encode the recorded sequences in order. */
  method EncodePath(x: Source, dst: array<byte>, op0: nat, anchor0: nat, ip0: nat, opt: array<Optimal>, last: nat,
                    ghost r: Round, ghost qs0: seq<Sequence>)
    returns (op: nat, anchor: nat, ip: nat, ghost qs: seq<Sequence>)
    requires op0 <= dst.Length && |x.src| + |x.src| / 255 + 16 <= dst.Length && |r.t| == opt.Length
    requires Fits(x.src, r) && r.ip == ip0 && r.anchor == anchor0 && Retraces(opt[..], r.t, 0, r.cur, r.len, r.off)
    requires TableOk(r.t, x.src, ip0, r.cur) && StepOk(x.src, ip0, r.cur, r.len, r.off)
    requires r.cur < last <= r.cur + r.len && ip0 + r.cur + r.len + LASTLITERALS <= |x.src|
    requires Emitted(dst[..op0], qs0, x.src, anchor0)
    requires opt as object != dst
    modifies dst
    ensures op <= dst.Length && Emitted(dst[..op], qs, x.src, anchor)
    ensures qs == qs0 + RoundSequences(x.src, r) && anchor == RoundAnchor(x.src, r) && ip == ip0 + r.cur + r.len
  {
    hide Emitted, MatchAt, TableOk, Retraces, Fits, RoundSequences, SoFar, AnchorSoFar, RoundAnchor;
    op, anchor, ip, qs := op0, anchor0, ip0, qs0;
    var rPos: nat := 0;
    ghost var t := opt[..];
    NothingSoFar(x.src, r);
    while rPos < last
      invariant ip == ip0 + rPos && anchor <= ip && op <= dst.Length && opt[..] == t
      invariant Emitted(dst[..op], qs, x.src, anchor)
      invariant rPos == r.cur + r.len || (rPos <= r.cur && Retraces(t, r.t, rPos, r.cur, r.len, r.off))
      invariant qs == qs0 + SoFar(x.src, r, rPos) && anchor == AnchorSoFar(x.src, r, rPos)
      decreases r.cur + r.len - rPos
    {
      RetracedStep(t, x.src, r, rPos);
      StepAdds(t, x.src, r, rPos);
      var ml, offset := opt[rPos].mlen, opt[rPos].off;
      if ml == 1 {
        ip, rPos := ip + 1, rPos + 1;
      } else {
        rPos := rPos + ml;
        op, qs := EncodeOne(x.src, dst, op, anchor, ip, offset, ml, qs);
        ip := ip + ml;
        anchor := ip;
      }
    }
    assert SoFar(x.src, r, rPos) == RoundSequences(x.src, r) && AnchorSoFar(x.src, r, rPos) == RoundAnchor(x.src, r) by {
      AllSoFar(x.src, r);
    }
  }

  lemma NothingSoFar(src: seq<byte>, r: Round)
    requires Fits(src, r)
    ensures SoFar(src, r, 0) == [] && AnchorSoFar(src, r, 0) == r.anchor <= r.ip
  {
  }

  lemma AllSoFar(src: seq<byte>, r: Round)
    requires Fits(src, r)
    ensures SoFar(src, r, r.cur + r.len) == RoundSequences(src, r)
    ensures AnchorSoFar(src, r, r.cur + r.len) == RoundAnchor(src, r) <= r.ip + r.cur + r.len
  {
  }

  // ---------------------------------------------------------------- the optimal parser

  ghost predicate AllFit(src: seq<byte>, rs: seq<Round>) {
    forall i :: 0 <= i < |rs| ==> Fits(src, rs[i])
  }

  /** Where the last round ends. */
  ghost function EndOf(rs: seq<Round>): nat {
    if rs == [] then 0 else var r := rs[|rs| - 1]; r.ip + r.cur + r.len
  }

  /** Where the last match ends. */
  ghost function AnchorOf(src: seq<byte>, rs: seq<Round>): nat
    requires AllFit(src, rs)
  {
    if rs == [] then 0 else RoundAnchor(src, rs[|rs| - 1])
  }

  ghost function AllSequences(src: seq<byte>, rs: seq<Round>): seq<Sequence>
    requires AllFit(src, rs)
  {
    if rs == [] then [] else AllSequences(src, rs[..|rs| - 1]) + RoundSequences(src, rs[|rs| - 1])
  }

  /** Every round begins at the first position behind the one before it at which there is a match. */
  ghost predicate Run(x: Source, o: Options, rs: seq<Round>) {
    && AllFit(x.src, rs)
    && (rs == [] ||
        var pre, r := rs[..|rs| - 1], rs[|rs| - 1];
        && Run(x, o, pre) && RoundOk(x, o, r)
        && r.anchor == AnchorOf(x.src, pre) && EndOf(pre) <= r.ip
        && forall p: nat :: EndOf(pre) <= p < r.ip ==> Barren(x, p))
  }

  /** Behind the last round there is no match any more. */
  ghost predicate RunOut(x: Source, rs: seq<Round>) {
    forall p: nat :: EndOf(rs) <= p && p + MFLIMIT <= |x.src| ==> Barren(x, p)
  }

  lemma RunSnoc(x: Source, o: Options, rs: seq<Round>, r: Round)
    requires Run(x, o, rs) && RoundOk(x, o, r) && r.anchor == AnchorOf(x.src, rs) && EndOf(rs) <= r.ip
    requires forall p: nat :: EndOf(rs) <= p < r.ip ==> Barren(x, p)
    ensures Run(x, o, rs + [r]) && AllFit(x.src, rs + [r]) && EndOf(rs + [r]) == r.ip + r.cur + r.len
    ensures AnchorOf(x.src, rs + [r]) == RoundAnchor(x.src, r)
    ensures AllSequences(x.src, rs + [r]) == AllSequences(x.src, rs) + RoundSequences(x.src, r)
  {
    hide RoundSequences, RoundAnchor, Barren, Fits, AtOnce, Exhausted;
    var all := rs + [r];
    assert all[..|all| - 1] == rs && all[|all| - 1] == r;
  }

  /** The first match of a round is taken at once. */
  ghost function Taken(anchor: nat, ip: nat, k: Look, len: nat): Round
    requires k.Sighted?
  {
    Round(ip, anchor, [k], [Optimal(0, 0, 1, 0)], 0, 0, len, k.off)
  }

  lemma TakenIs(x: Source, o: Options, anchor: nat, ip: nat, k: Look, len: nat)
    requires k.Sighted? && Searched(x, ip, k) && k.minLen == MINMATCH - 1 && len == MatchLength(x, k) > o.sufficientLen
    requires anchor <= ip
    ensures var r := Taken(anchor, ip, k, len);
            && RoundOk(x, o, r) && RoundAnchor(x.src, r) == ip + len && ip + len <= |x.src|
            && r.ip == ip && r.anchor == anchor && r.ip + r.cur + r.len == ip + len
            && RoundSequences(x.src, r) == [Sequence(x.src[anchor..ip], k.off, len)]
  {
    SearchedFits(x, ip, k);
    hide Filled, Searched;
  }

  /** One round: price the ways through the segment a first match opens, turn the best round, encode it. */
  method EncodeSegment(index: HcIndex, x: Source, o: Options, dst: array<byte>, op0: nat, anchor0: nat, ip0: nat,
                       opt: array<Optimal>, len0: nat, off0: nat, ghost first: Look, ghost qs0: seq<Sequence>)
    returns (op: nat, anchor: nat, ip: nat, ghost qs: seq<Sequence>, ghost r: Round)
    requires op0 <= dst.Length && |x.src| + |x.src| / 255 + 16 <= dst.Length
    requires opt.Length == OPT_NUM + TRAILING_LITERALS && 0 < len0 <= o.sufficientLen < OPT_NUM
    requires Indexed(index, x, ip0) && Searched(x, ip0, first) && first.Sighted? && first.minLen == MINMATCH - 1
    requires len0 == MatchLength(x, first) && off0 == first.off
    requires Emitted(dst[..op0], qs0, x.src, anchor0) && anchor0 <= ip0
    requires opt as object != dst && index.hashTable as object != dst && index.chainTable as object != dst
    modifies index, index.hashTable, index.chainTable, dst, opt
    ensures op <= dst.Length && Emitted(dst[..op], qs, x.src, anchor) && ip0 < ip && Indexed(index, x, ip)
    ensures r.ip == ip0 && r.anchor == anchor0 && RoundOk(x, o, r) && ip == r.ip + r.cur + r.len
    ensures qs == qs0 + RoundSequences(x.src, r) && anchor == RoundAnchor(x.src, r) <= ip
  {
    hide Emitted, Indexed, Retraces, TableOk, Walkable, Filled, AtOnce, Exhausted, RoundSequences, RoundAnchor, Searched;
    SearchedFits(x, ip0, first);
    StartTable(opt, ip0 - anchor0, len0, off0, x.src, ip0);
    FilledFirst(x, o, anchor0, ip0, opt[..], first);
    var cur, last, len, off;
    cur, last, len, off, r := FillTable(index, x, o, opt, anchor0, ip0, len0, first);
    ReversePath(opt, cur, len, off);
    op, anchor, ip, qs := EncodePath(x, dst, op0, anchor0, ip0, opt, last, r, qs0);
    IndexedLater(index, x, ip0 + last, ip);
    AllSoFar(x.src, r);
  }

  lemma FilledFirst(x: Source, o: Options, anchor: nat, ip: nat, t: seq<Optimal>, first: Look)
    requires Searched(x, ip, first) && first.Sighted? && first.minLen == MINMATCH - 1 && anchor <= ip
    requires var len := MatchLength(x, first);
             && 0 < len <= o.sufficientLen < OPT_NUM && len + TRAILING_LITERALS < |t|
             && TableOk(t, x.src, ip, len + TRAILING_LITERALS) && HonestTo(t, len + TRAILING_LITERALS, 0)
             && t[0] == Optimal(LiteralsPrice(ip - anchor), 0, 1, ip - anchor) && Tail(t, len) && Weighed(t, 0, len)
    ensures Filled(x, o, anchor, ip, t, [first], MatchLength(x, first))
  {
    SearchedFits(x, ip, first);
    hide Searched, TableOk, HonestTo, Tail, Weighed;
  }

  lemma EmittedAnchor(out: seq<byte>, qs: seq<Sequence>, src: seq<byte>, anchor: nat)
    requires Emitted(out, qs, src, anchor)
    ensures anchor <= |src| && |out + EncodeFinal(src[anchor..])| <= |src| + |src| / 255 + 2
    ensures AllEncodable(qs) && out == EncodeSequences(qs)
  {
    EmittedThenLast(out, qs, src, anchor);
  }

  /** LZ4HC_compress_optimal: for every source, index, number of searches and setting, the block written decodes to the
      source, within the worst-case size. It is that of a run of rounds, each from the first position on at which a search
      finds a match, and behind the last there is none. */
  method CompressOptimal(index: HcIndex, x: Source, dst: array<byte>, sufficientLen: nat, fullUpdate: bool)
    returns (result: nat, ghost rs: seq<Round>)
    requires Indexed(index, x, 0) && |x.src| + |x.src| / 255 + 16 <= dst.Length
    requires index.hashTable as object != dst && index.chainTable as object != dst
    modifies index, index.hashTable, index.chainTable, dst
    ensures result <= dst.Length && result <= |x.src| + |x.src| / 255 + 2
    ensures ValidBlock(dst[..result], x.src)
    ensures Run(x, Options(if sufficientLen < OPT_NUM then sufficientLen else OPT_NUM - 1, fullUpdate), rs) && RunOut(x, rs)
    ensures AnchorOf(x.src, rs) <= |x.src| && AllEncodable(AllSequences(x.src, rs))
    ensures dst[..result] == EncodeSequences(AllSequences(x.src, rs)) + EncodeFinal(x.src[AnchorOf(x.src, rs)..])
    ensures x.src == [] ==> dst[..result] == [0]
  {
    hide Emitted, MatchAt, Indexed, Run, RunOut, AllSequences, AllFit, AnchorOf, EndOf, Searched, Barren, RoundOk, Longest;
    hide RoundSequences, RoundAnchor, Taken, ValidBlock, EncodeFinal, EncodeSequences;
    var o := Options(if sufficientLen >= OPT_NUM then OPT_NUM - 1 else sufficientLen, fullUpdate);
    var opt := new Optimal[OPT_NUM + TRAILING_LITERALS](i => Optimal(0, 0, 1, 0));
    var ip: nat, anchor: nat, op: nat := 0, 0, 0;
    ghost var qs := [];
    rs := [];
    NothingEmitted(dst[..op], x.src);
    NoRounds(x, o);
    while ip + MFLIMIT <= |x.src|
      invariant anchor <= ip && op <= dst.Length && Emitted(dst[..op], qs, x.src, anchor) && Indexed(index, x, ip)
      invariant x.src == [] ==> op == 0
      invariant Run(x, o, rs) && AllFit(x.src, rs) && anchor == AnchorOf(x.src, rs) && qs == AllSequences(x.src, rs)
      invariant EndOf(rs) <= ip && forall p: nat :: EndOf(rs) <= p < ip ==> Barren(x, p)
      decreases |x.src| - ip
    {
      var len, off;
      ghost var look, r;
      len, off, look := FindLonger(index, x, ip, MINMATCH - 1);
      if len == 0 {
        IndexedLater(index, x, ip, ip + 1);
        ip := ip + 1;
      } else {
        SearchedFits(x, ip, look);
        if len > o.sufficientLen {
          TakenIs(x, o, anchor, ip, look, len);
          r := Taken(anchor, ip, look, len);
          op, qs := EncodeOne(x.src, dst, op, anchor, ip, off, len, qs);
          IndexedLater(index, x, ip, ip + len);
          ip := ip + len;
          anchor := ip;
        } else {
          op, anchor, ip, qs, r := EncodeSegment(index, x, o, dst, op, anchor, ip, opt, len, off, look, qs);
        }
        RunSnoc(x, o, rs, r);
        rs := rs + [r];
      }
    }
    EmittedAnchor(dst[..op], qs, x.src, anchor);
    EmittedThenLast(dst[..op], qs, x.src, anchor);
    FinalSize(x.src[anchor..]);
    ItRunsOut(x, rs, ip);
    ghost var out := dst[..op];
    result := WriteLast(x.src, dst, op, anchor);
    if x.src == [] { assert x.src[anchor..] == [] && out + [0] == [0]; }
  }

  lemma ItRunsOut(x: Source, rs: seq<Round>, ip: nat)
    requires ip + MFLIMIT > |x.src| && forall p: nat :: EndOf(rs) <= p < ip ==> Barren(x, p)
    ensures RunOut(x, rs)
  {
    hide Barren, EndOf;
  }

  lemma NoRounds(x: Source, o: Options)
    ensures Run(x, o, []) && AllFit(x.src, []) && AnchorOf(x.src, []) == 0 && AllSequences(x.src, []) == [] && EndOf([]) == 0
  {
  }
}
