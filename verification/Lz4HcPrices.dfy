/** The price table of the optimal parser of LZ4 HC.

    A price is the number of bytes a way through the source takes. Entering a match never raises a price, leaves no way
    over the match dearer than it need be, and prices no step too low. */
module Lz4HcPrices {
  import opened Lz4Format
  import opened Lz4Copy
  import opened Lz4Compress

  const OPT_NUM := 4096
  const TRAILING_LITERALS := 3

  // ---------------------------------------------------------------- prices

  function LiteralsPrice(litlen: nat): nat {
    litlen + if litlen >= RUN_MASK then 1 + (litlen - RUN_MASK) / 255 else 0
  }

  function SequencePrice(litlen: nat, mlen: nat): nat {
    1 + 2 + LiteralsPrice(litlen) + if mlen >= ML_MASK + MINMATCH then 1 + (mlen - (ML_MASK + MINMATCH)) / 255 else 0
  }

  /** A price is the length of the encoding. */
  lemma PriceIsSize(q: Sequence)
    requires Encodable(q)
    ensures SequencePrice(|q.literals|, q.matchLen) == |EncodeSequence(q)|
    ensures LiteralsPrice(|q.literals|) + 1 == |EncodeFinal(q.literals)|
  {
  }

  lemma {:induction false} MoreLiterals(n: nat, k: nat)
    ensures LiteralsPrice(n) + k <= LiteralsPrice(n + k)
  {
    if k > 0 { MoreLiterals(n, k - 1); }
  }

  /** Up to two bytes less of a match save one byte at most. */
  lemma ShorterSaves(litlen: nat, n: nat, k: nat)
    requires k < n && k <= 2
    ensures SequencePrice(litlen, n) - 1 <= SequencePrice(litlen, n - k)
  {
    hide LiteralsPrice;
  }

  // ---------------------------------------------------------------- the table

  /** A match that may stand in a block of the whole source. */
  ghost predicate MatchAt(src: seq<byte>, ip: nat, off: nat, len: nat) {
    && ip + MFLIMIT <= |src| && ip + len + LASTLITERALS <= |src| && MINMATCH <= len
    && 1 <= off <= DISTANCE_MAX && off <= ip
    && Same(src, ip, ip - off, len)
  }

  lemma ShorterMatch(src: seq<byte>, ip: nat, off: nat, len: nat, n: nat)
    requires MatchAt(src, ip, off, len) && MINMATCH <= n <= len
    ensures MatchAt(src, ip, off, n)
  {
    hide Same;
    SameJoin(src, ip, ip - off, n, len - n);
  }

  /** An entry of the table: how position `c` is reached, by a literal or by a match of `mlen` bytes. */
  datatype Optimal = Optimal(price: int, off: nat, mlen: nat, litlen: nat)

  /** From position `p` of the segment at `ip` one can go `len` on: by a literal, or by a match. */
  ghost predicate StepOk(src: seq<byte>, ip: nat, p: nat, len: nat, off: nat) {
    len == 1 || MatchAt(src, ip + p, off, len)
  }

  ghost predicate EntryOk(src: seq<byte>, ip: nat, c: nat, o: Optimal) {
    1 <= o.mlen <= c && StepOk(src, ip, c - o.mlen, o.mlen, o.off)
  }

  /** Entries up to `hi` are sound steps. */
  ghost predicate TableOk(t: seq<Optimal>, src: seq<byte>, ip: nat, hi: nat) {
    && hi < |t| && t[0].mlen == 1
    && forall c :: 1 <= c <= hi ==> EntryOk(src, ip, c, t[c])
  }

  lemma LiteralOk(src: seq<byte>, ip: nat, c: nat, o: Optimal)
    requires 1 <= c && o.mlen == 1
    ensures EntryOk(src, ip, c, o)
  {
  }

  lemma MatchOk(src: seq<byte>, ip: nat, cur: nat, len: nat, o: Optimal)
    requires MatchAt(src, ip + cur, o.off, len) && MINMATCH <= o.mlen <= len
    ensures EntryOk(src, ip, cur + o.mlen, o)
  {
    hide MatchAt;
    ShorterMatch(src, ip + cur, o.off, len, o.mlen);
  }

  // ---------------------------------------------------------------- what a step costs

  /** The literals taken to belong to a match at `cur`. */
  function LiteralsAt(t: seq<Optimal>, cur: nat): nat
    requires cur < |t|
  {
    if t[cur].mlen == 1 then t[cur].litlen else 0
  }

  /** The price of a match of `ml` bytes at `cur`. */
  function MatchPrice(t: seq<Optimal>, cur: nat, ml: nat): int
    requires cur < |t|
  {
    var ll := LiteralsAt(t, cur);
    SequencePrice(ll, ml) + if t[cur].mlen != 1 then t[cur].price else if cur > ll then t[cur - ll].price else 0
  }

  /** The price of `k` more literals behind `cur`. */
  function LiteralPrice(t: seq<Optimal>, cur: nat, k: nat): int
    requires cur < |t|
  {
    t[cur].price - LiteralsPrice(t[cur].litlen) + LiteralsPrice(t[cur].litlen + k)
  }

  function LiteralEntry(t: seq<Optimal>, cur: nat, k: nat): Optimal
    requires cur < |t|
  {
    Optimal(LiteralPrice(t, cur, k), 0, 1, t[cur].litlen + k)
  }

  function MatchEntry(t: seq<Optimal>, cur: nat, ml: nat, off: nat): Optimal
    requires cur < |t|
  {
    Optimal(MatchPrice(t, cur, ml), off, ml, LiteralsAt(t, cur))
  }

  /** A match of `ml` bytes at `cur` makes the better way: any does beyond the tail; else one no dearer than the way
      there is, or cheaper if the choice is for a fast decoder. */
  predicate Better(t: seq<Optimal>, last: nat, cur: nat, ml: nat, favorDecSpeed: bool)
    requires cur + ml < |t|
  {
    cur + ml > last + TRAILING_LITERALS || MatchPrice(t, cur, ml) <= t[cur + ml].price - if favorDecSpeed then 1 else 0
  }

  /** A step to `c` that is not priced too low: a literal costs a byte or more, a match from `cur` or before what it
      takes. */
  ghost predicate Fair(t: seq<Optimal>, cur: nat, c: nat, o: Optimal)
    requires 1 <= c <= |t|
  {
    if o.mlen <= 1 then o.price >= t[c - 1].price + 1
    else o.mlen <= c && c - o.mlen <= cur && o.price == MatchPrice(t, c - o.mlen, o.mlen)
  }

  ghost predicate HonestTo(t: seq<Optimal>, hi: nat, cur: nat) {
    hi < |t| && forall c :: 1 <= c <= hi ==> Fair(t, cur, c, t[c])
  }

  /** The way over `cur` has been weighed: neither three literals nor a match of `len` bytes there make a cheaper way. */
  ghost predicate Weighed(t: seq<Optimal>, cur: nat, len: nat) {
    && cur + len < |t| && cur + TRAILING_LITERALS < |t|
    && (forall k :: 1 <= k <= TRAILING_LITERALS ==> t[cur + k].price <= LiteralPrice(t, cur, k))
    && forall ml :: MINMATCH <= ml <= len ==> t[cur + ml].price <= MatchPrice(t, cur, ml)
  }

  /** Behind `last` come three literals. */
  ghost predicate Tail(t: seq<Optimal>, last: nat) {
    && last + TRAILING_LITERALS < |t|
    && forall p :: last < p <= last + TRAILING_LITERALS ==> t[p] == Optimal(t[last].price + (p - last), 0, 1, p - last)
  }

  /** No price up to `hi` has risen, and up to `cur` nothing has changed. */
  ghost predicate Lower(t: seq<Optimal>, u: seq<Optimal>, cur: nat, hi: nat) {
    && |t| == |u|
    && (forall p :: 0 <= p <= cur && p < |t| ==> u[p] == t[p])
    && forall p :: 0 <= p <= hi && p < |t| ==> u[p].price <= t[p].price
  }

  lemma SamePrice(t: seq<Optimal>, u: seq<Optimal>, cur: nat, ml: nat)
    requires cur < |t| == |u| && forall p :: 0 <= p <= cur ==> u[p] == t[p]
    ensures MatchPrice(u, cur, ml) == MatchPrice(t, cur, ml) && LiteralPrice(u, cur, ml) == LiteralPrice(t, cur, ml)
    ensures LiteralsAt(u, cur) == LiteralsAt(t, cur)
  {
    hide SequencePrice, LiteralsPrice;
  }

  /** Put a fairly priced entry behind `cur`, no dearer than the one there. */
  lemma HonestSet(t: seq<Optimal>, hi: nat, cur: nat, c: nat, o: Optimal)
    requires HonestTo(t, hi, cur) && cur < c <= hi + 1 && c < |t|
    requires c <= hi ==> o.price <= t[c].price
    requires Fair(t, cur, c, o)
    ensures HonestTo(t[c := o], if c > hi then c else hi, cur)
  {
    hide MatchPrice;
    var u := t[c := o];
    forall p | 1 <= p <= hi || p == c ensures Fair(u, cur, p, u[p]) {
      if u[p].mlen > 1 {
        if p != c { assert Fair(t, cur, p, t[p]); }
        SamePrice(t, u, p - u[p].mlen, u[p].mlen);
      } else if p != c {
        assert Fair(t, cur, p, t[p]);
      }
    }
  }

  /** Put a sound and fairly priced entry into the table, at most one behind its end. */
  method Enter(opt: array<Optimal>, c: nat, o: Optimal, ghost src: seq<byte>, ghost ip: nat, ghost hi: nat, ghost cur: nat)
    requires TableOk(opt[..], src, ip, hi) && HonestTo(opt[..], hi, cur) && cur < c <= hi + 1 && c < opt.Length
    requires c <= hi ==> o.price <= opt[c].price
    requires EntryOk(src, ip, c, o) && Fair(opt[..], cur, c, o)
    modifies opt
    ensures opt[..] == old(opt[..])[c := o]
    ensures TableOk(opt[..], src, ip, if c > hi then c else hi) && HonestTo(opt[..], if c > hi then c else hi, cur)
  {
    hide EntryOk, Fair;
    HonestSet(opt[..], hi, cur, c, o);
    opt[c] := o;
  }

  lemma StillWeighed(t: seq<Optimal>, u: seq<Optimal>, c: nat, len: nat, cur: nat, hi: nat)
    requires Weighed(t, c, len) && Lower(t, u, cur, hi) && c <= cur && c + len <= hi && c + TRAILING_LITERALS <= hi
    ensures Weighed(u, c, len)
  {
    hide MatchPrice, LiteralPrice;
    forall k: nat ensures MatchPrice(u, c, k) == MatchPrice(t, c, k) && LiteralPrice(u, c, k) == LiteralPrice(t, c, k) {
      SamePrice(t, u, c, k);
    }
  }

  // ---------------------------------------------------------------- filling it

  /** Literals behind the last match position. */
  method AddLiterals(opt: array<Optimal>, last: nat, ghost src: seq<byte>, ghost ip: nat, ghost cur: nat)
    requires TableOk(opt[..], src, ip, last) && HonestTo(opt[..], last, cur) && cur <= last
    requires last + TRAILING_LITERALS < opt.Length
    modifies opt
    ensures TableOk(opt[..], src, ip, last + TRAILING_LITERALS) && HonestTo(opt[..], last + TRAILING_LITERALS, cur)
    ensures Tail(opt[..], last) && forall p :: 0 <= p <= last ==> opt[p] == old(opt[p])
  {
    hide EntryOk, TableOk, HonestTo;
    for addLit := 1 to TRAILING_LITERALS + 1
      invariant TableOk(opt[..], src, ip, last + addLit - 1) && HonestTo(opt[..], last + addLit - 1, cur)
      invariant forall p :: 0 <= p <= last ==> opt[p] == old(opt[p])
      invariant forall p :: last < p < last + addLit ==> opt[p] == Optimal(opt[last].price + (p - last), 0, 1, p - last)
    {
      var o := Optimal(opt[last].price + LiteralsPrice(addLit), 0, 1, addLit);
      LiteralOk(src, ip, last + addLit, o);
      Enter(opt, last + addLit, o, src, ip, last + addLit - 1, cur);
    }
  }

  lemma FirstEntry(t: seq<Optimal>, src: seq<byte>, ip: nat)
    requires t != [] && t[0].mlen == 1
    ensures TableOk(t, src, ip, 0) && HonestTo(t, 0, 0)
  {
  }

  /** Prices of the first positions: literals, then the first match. */
  method StartTable(opt: array<Optimal>, llen: nat, len: nat, off: nat, ghost src: seq<byte>, ghost ip: nat)
    requires opt.Length == OPT_NUM + TRAILING_LITERALS && MINMATCH <= len < OPT_NUM && MatchAt(src, ip, off, len)
    modifies opt
    ensures TableOk(opt[..], src, ip, len + TRAILING_LITERALS) && HonestTo(opt[..], len + TRAILING_LITERALS, 0)
    ensures opt[0] == Optimal(LiteralsPrice(llen), 0, 1, llen) && Tail(opt[..], len) && Weighed(opt[..], 0, len)
  {
    hide EntryOk, MatchAt, TableOk, HonestTo, SequencePrice, LiteralsPrice;
    opt[0] := Optimal(LiteralsPrice(llen), 0, 1, llen);
    FirstEntry(opt[..], src, ip);
    for rPos := 1 to MINMATCH
      invariant TableOk(opt[..], src, ip, rPos - 1) && HonestTo(opt[..], rPos - 1, 0)
      invariant opt[0] == Optimal(LiteralsPrice(llen), 0, 1, llen)
      invariant forall k :: 1 <= k < rPos ==> opt[k].price == LiteralsPrice(llen + k)
    {
      var o := Optimal(LiteralsPrice(llen + rPos), 0, 1, llen + rPos);
      LiteralOk(src, ip, rPos, o);
      MoreLiterals(llen + rPos - 1, 1);
      Enter(opt, rPos, o, src, ip, rPos - 1, 0);
    }
    for mlen := MINMATCH to len + 1
      invariant TableOk(opt[..], src, ip, mlen - 1) && HonestTo(opt[..], mlen - 1, 0)
      invariant opt[0] == Optimal(LiteralsPrice(llen), 0, 1, llen)
      invariant forall k :: 1 <= k < MINMATCH ==> opt[k].price == LiteralsPrice(llen + k)
      invariant forall ml :: MINMATCH <= ml < mlen ==> opt[ml].price == SequencePrice(llen, ml)
    {
      var o := Optimal(SequencePrice(llen, mlen), off, mlen, llen);
      MatchOk(src, ip, 0, len, o);
      Enter(opt, mlen, o, src, ip, mlen - 1, 0);
    }
    AddLiterals(opt, len, src, ip, 0);
  }

  /** Up to three more literals behind `cur`, where they make a cheaper way. */
  method ImproveLiterals(opt: array<Optimal>, cur: nat, ghost src: seq<byte>, ghost ip: nat, ghost hi: nat)
    requires TableOk(opt[..], src, ip, hi) && HonestTo(opt[..], hi, cur)
    requires cur + TRAILING_LITERALS <= hi < opt.Length
    modifies opt
    ensures TableOk(opt[..], src, ip, hi) && HonestTo(opt[..], hi, cur) && Lower(old(opt[..]), opt[..], cur, hi)
    ensures forall p :: cur + TRAILING_LITERALS < p < opt.Length ==> opt[p] == old(opt[p])
    ensures forall p :: cur < p <= cur + TRAILING_LITERALS ==>
              opt[p] == if LiteralPrice(old(opt[..]), cur, p - cur) < old(opt[p].price)
                        then LiteralEntry(old(opt[..]), cur, p - cur) else old(opt[p])
  {
    hide EntryOk, TableOk, HonestTo, LiteralsPrice;
    ghost var was := opt[..];
    var baseLitlen := opt[cur].litlen;
    for litlen := 1 to MINMATCH
      invariant TableOk(opt[..], src, ip, hi) && HonestTo(opt[..], hi, cur) && Lower(was, opt[..], cur, hi)
      invariant forall p :: cur + litlen <= p < opt.Length ==> opt[p] == was[p]
      invariant forall p :: cur < p < cur + litlen ==>
                  opt[p] == if LiteralPrice(was, cur, p - cur) < was[p].price then LiteralEntry(was, cur, p - cur) else was[p]
    {
      var price := opt[cur].price - LiteralsPrice(baseLitlen) + LiteralsPrice(baseLitlen + litlen);
      if price < opt[cur + litlen].price {
        var o := Optimal(price, 0, 1, baseLitlen + litlen);
        LiteralOk(src, ip, cur + litlen, o);
        MoreLiterals(baseLitlen + litlen - 1, 1);
        Enter(opt, cur + litlen, o, src, ip, hi, cur);
      }
    }
  }

  method WayOver(opt: array<Optimal>, cur: nat, ml: nat) returns (ll: nat, price: int)
    requires cur < opt.Length
    ensures ll == LiteralsAt(opt[..], cur) && price == MatchPrice(opt[..], cur, ml)
  {
    hide SequencePrice;
    if opt[cur].mlen == 1 {
      ll := opt[cur].litlen;
      price := (if cur > ll then opt[cur - ll].price else 0) + SequencePrice(ll, ml);
    } else {
      ll := 0;
      price := opt[cur].price + SequencePrice(0, ml);
    }
  }

  /** The ways over a match at `cur`, where they are cheaper; beyond the tail in any case. */
  method ImproveMatches(opt: array<Optimal>, last0: nat, cur: nat, len: nat, off: nat, favorDecSpeed: bool,
                        ghost src: seq<byte>, ghost ip: nat)
    returns (last: nat)
    requires opt.Length == OPT_NUM + TRAILING_LITERALS && TableOk(opt[..], src, ip, last0 + TRAILING_LITERALS)
    requires HonestTo(opt[..], last0 + TRAILING_LITERALS, cur)
    requires 1 <= cur < last0 && MINMATCH <= len && cur + len < OPT_NUM && MatchAt(src, ip + cur, off, len)
    modifies opt
    ensures TableOk(opt[..], src, ip, if cur + len > last0 + 3 then cur + len else last0 + 3)
    ensures HonestTo(opt[..], if cur + len > last0 + 3 then cur + len else last0 + 3, cur)
    ensures Lower(old(opt[..]), opt[..], cur + TRAILING_LITERALS, last0 + TRAILING_LITERALS)
    ensures forall p :: cur + MINMATCH <= p <= cur + len ==>
              opt[p] == if Better(old(opt[..]), last0, cur, p - cur, favorDecSpeed)
                        then MatchEntry(old(opt[..]), cur, p - cur, off) else old(opt[p])
    ensures forall p :: cur + len < p < opt.Length ==> opt[p] == old(opt[p])
    ensures last == if cur + len > last0 && Better(old(opt[..]), last0, cur, len, favorDecSpeed) then cur + len else last0
  {
    hide EntryOk, MatchAt, TableOk, HonestTo, MatchPrice, LiteralsAt;
    ghost var was := opt[..];
    last := last0;
    ghost var top: nat := last0 + TRAILING_LITERALS;
    for ml := MINMATCH to len + 1
      invariant TableOk(opt[..], src, ip, top) && HonestTo(opt[..], top, cur)
      invariant top == if cur + ml > last0 + 4 then cur + ml - 1 else last0 + 3
      invariant Lower(was, opt[..], cur + TRAILING_LITERALS, last0 + TRAILING_LITERALS)
      invariant forall p :: cur + ml <= p < opt.Length ==> opt[p] == was[p]
      invariant forall p :: cur + MINMATCH <= p < cur + ml ==>
                  opt[p] == if Better(was, last0, cur, p - cur, favorDecSpeed) then MatchEntry(was, cur, p - cur, off) else was[p]
      invariant last == if ml == len + 1 && cur + len > last0 && Better(was, last0, cur, len, favorDecSpeed)
                        then cur + len else last0
    {
      var pos := cur + ml;
      var ll, price := WayOver(opt, cur, ml);
      SamePrice(was, opt[..], cur, ml);
      if pos > last + TRAILING_LITERALS || price <= opt[pos].price - (if favorDecSpeed then 1 else 0) {
        if ml == len && last < pos { last := pos; }
        var o := Optimal(price, off, ml, ll);
        MatchOk(src, ip, cur, len, o);
        Enter(opt, pos, o, src, ip, top, cur);
        top := if pos > top then pos else top;
      }
    }
  }

  /** What stands at `p` when a match at `cur` has been entered. */
  function EntryAt(t: seq<Optimal>, last: nat, cur: nat, len: nat, off: nat, favorDecSpeed: bool, p: nat): Optimal
    requires cur < p < |t|
  {
    if p <= cur + TRAILING_LITERALS then
      if LiteralPrice(t, cur, p - cur) < t[p].price then LiteralEntry(t, cur, p - cur) else t[p]
    else
      if p <= cur + len && Better(t, last, cur, p - cur, favorDecSpeed) then MatchEntry(t, cur, p - cur, off) else t[p]
  }

  /** The table before and after a match at `cur` has been entered. */
  ghost predicate Entered(t: seq<Optimal>, u: seq<Optimal>, last0: nat, last: nat, cur: nat, len: nat, off: nat,
                          favorDecSpeed: bool)
  {
    && cur < last0 && last0 + TRAILING_LITERALS < |t| == |u| && cur + len + TRAILING_LITERALS < |t|
    && last == (if cur + len > last0 && Better(t, last0, cur, len, favorDecSpeed) then cur + len else last0)
    && (forall p :: 0 <= p <= cur ==> u[p] == t[p])
    && (forall p :: cur < p <= last ==> u[p] == EntryAt(t, last0, cur, len, off, favorDecSpeed, p))
    && Tail(t, last0) && Tail(u, last)
  }

  lemma EnteredMatch(t: seq<Optimal>, u: seq<Optimal>, last0: nat, last: nat, cur: nat, len: nat, off: nat,
                     favorDecSpeed: bool, ml: nat)
    requires Entered(t, u, last0, last, cur, len, off, favorDecSpeed) && MINMATCH <= ml <= len
    ensures u[cur + ml].price <= MatchPrice(t, cur, ml)
  {
    hide MatchPrice, LiteralPrice;
    var p := cur + ml;
    if p <= last {
      assert u[p] == EntryAt(t, last0, cur, len, off, favorDecSpeed, p);
    } else {
      assert u[last].price <= t[last].price by {
        assert u[last] == EntryAt(t, last0, cur, len, off, favorDecSpeed, last);
      }
      assert t[cur + len].price == t[last].price + (cur + len - last);
      MatchSaves(t, cur, len, len - ml);
    }
  }

  lemma MatchSaves(t: seq<Optimal>, cur: nat, n: nat, k: nat)
    requires cur < |t| && k < n && k <= 2
    ensures MatchPrice(t, cur, n) <= MatchPrice(t, cur, n - k) + if k == 0 then 0 else 1
  {
    hide SequencePrice;
    ShorterSaves(LiteralsAt(t, cur), n, k);
  }

  lemma EnteredLiteral(t: seq<Optimal>, u: seq<Optimal>, last0: nat, last: nat, cur: nat, len: nat, off: nat,
                       favorDecSpeed: bool, k: nat)
    requires Entered(t, u, last0, last, cur, len, off, favorDecSpeed) && 1 <= k <= TRAILING_LITERALS
    ensures u[cur + k].price <= LiteralPrice(t, cur, k)
  {
    hide MatchPrice, LiteralsPrice;
    var p := if cur + k <= last then cur + k else last;
    assert u[p] == EntryAt(t, last0, cur, len, off, favorDecSpeed, p);
    MoreLiterals(t[cur].litlen + (p - cur), cur + k - p);
  }

  /** Entering a match raises no price. */
  lemma EnteredIsLower(t: seq<Optimal>, u: seq<Optimal>, last0: nat, last: nat, cur: nat, len: nat, off: nat,
                       favorDecSpeed: bool)
    requires Entered(t, u, last0, last, cur, len, off, favorDecSpeed)
    ensures Lower(t, u, cur, last0 + TRAILING_LITERALS) && cur + len <= last + TRAILING_LITERALS
  {
    hide MatchPrice, LiteralPrice;
    forall p | cur < p <= last0 + TRAILING_LITERALS ensures u[p].price <= t[p].price {
      var q := if p <= last then p else last;
      assert u[q] == EntryAt(t, last0, cur, len, off, favorDecSpeed, q);
    }
  }

  /** Nor does it leave a dearer way than need be. */
  lemma EnteredIsWeighed(t: seq<Optimal>, u: seq<Optimal>, last0: nat, last: nat, cur: nat, len: nat, off: nat,
                         favorDecSpeed: bool)
    requires Entered(t, u, last0, last, cur, len, off, favorDecSpeed)
    ensures Weighed(u, cur, len)
  {
    hide MatchPrice, LiteralPrice, EntryAt, Better, Tail;
    forall k | 1 <= k <= TRAILING_LITERALS ensures u[cur + k].price <= LiteralPrice(u, cur, k) {
      EnteredLiteral(t, u, last0, last, cur, len, off, favorDecSpeed, k);
      SamePrice(t, u, cur, k);
    }
    forall ml | MINMATCH <= ml <= len ensures u[cur + ml].price <= MatchPrice(u, cur, ml) {
      EnteredMatch(t, u, last0, last, cur, len, off, favorDecSpeed, ml);
      SamePrice(t, u, cur, ml);
    }
  }

  /** First the literals, then the matches, then the tail. */
  lemma EnteredIs(t: seq<Optimal>, mid: seq<Optimal>, won: seq<Optimal>, u: seq<Optimal>, last0: nat, last: nat, cur: nat,
                  len: nat, off: nat, favorDecSpeed: bool)
    requires cur < last0 && last0 + TRAILING_LITERALS < |t| == |mid| == |won| == |u| && cur + len + TRAILING_LITERALS < |t|
    requires Lower(t, mid, cur, last0 + TRAILING_LITERALS) && Tail(t, last0)
    requires forall p :: cur + TRAILING_LITERALS < p < |t| ==> mid[p] == t[p]
    requires forall p :: cur < p <= cur + TRAILING_LITERALS ==>
               mid[p] == if LiteralPrice(t, cur, p - cur) < t[p].price then LiteralEntry(t, cur, p - cur) else t[p]
    requires Lower(mid, won, cur + TRAILING_LITERALS, last0 + TRAILING_LITERALS)
    requires forall p :: cur + MINMATCH <= p <= cur + len ==>
               won[p] == if Better(mid, last0, cur, p - cur, favorDecSpeed) then MatchEntry(mid, cur, p - cur, off) else mid[p]
    requires forall p :: cur + len < p < |t| ==> won[p] == mid[p]
    requires last == if cur + len > last0 && Better(mid, last0, cur, len, favorDecSpeed) then cur + len else last0
    requires (forall p :: 0 <= p <= last ==> u[p] == won[p]) && Tail(u, last) && MINMATCH <= len
    ensures Entered(t, u, last0, last, cur, len, off, favorDecSpeed)
  {
    hide MatchPrice, LiteralPrice, LiteralEntry, LiteralsAt, Tail;
    forall ml: nat | MINMATCH <= ml <= len
      ensures Better(mid, last0, cur, ml, favorDecSpeed) == Better(t, last0, cur, ml, favorDecSpeed)
      ensures MatchEntry(mid, cur, ml, off) == MatchEntry(t, cur, ml, off)
    {
      SamePrice(t, mid, cur, ml);
    }
    forall p | cur < p <= last ensures u[p] == EntryAt(t, last0, cur, len, off, favorDecSpeed, p) {
    }
  }

  /** A match found at `cur`: cheaper ways to the positions it leads to. No price rises, no way over the match is left
      dearer than need be, and no step is priced too low. */
  method Improve(opt: array<Optimal>, last0: nat, cur: nat, len: nat, off: nat, favorDecSpeed: bool,
                 ghost src: seq<byte>, ghost ip: nat)
    returns (last: nat)
    requires opt.Length == OPT_NUM + TRAILING_LITERALS && TableOk(opt[..], src, ip, last0 + TRAILING_LITERALS)
    requires HonestTo(opt[..], last0 + TRAILING_LITERALS, cur) && Tail(opt[..], last0)
    requires 1 <= cur < last0 && MINMATCH <= len && cur + len < OPT_NUM && MatchAt(src, ip + cur, off, len)
    modifies opt
    ensures Entered(old(opt[..]), opt[..], last0, last, cur, len, off, favorDecSpeed)
    ensures Lower(old(opt[..]), opt[..], cur, last0 + TRAILING_LITERALS) && Weighed(opt[..], cur, len)
    ensures TableOk(opt[..], src, ip, last + TRAILING_LITERALS) && HonestTo(opt[..], last + TRAILING_LITERALS, cur)
    ensures (last == last0 || last == cur + len > last0) && cur + len <= last + TRAILING_LITERALS
  {
    hide TableOk, HonestTo, MatchAt, MatchPrice, LiteralPrice, LiteralEntry, MatchEntry, Better, Weighed, Entered, Lower;
    ghost var was := opt[..];
    ImproveLiterals(opt, cur, src, ip, last0 + TRAILING_LITERALS);
    ghost var mid := opt[..];
    last := ImproveMatches(opt, last0, cur, len, off, favorDecSpeed, src, ip);
    UpToLast(opt[..], src, ip, if cur + len > last0 + 3 then cur + len else last0 + 3, last, cur);
    ghost var won := opt[..];
    AddLiterals(opt, last, src, ip, cur);
    EnteredIs(was, mid, won, opt[..], last0, last, cur, len, off, favorDecSpeed);
    EnteredIsLower(was, opt[..], last0, last, cur, len, off, favorDecSpeed);
    EnteredIsWeighed(was, opt[..], last0, last, cur, len, off, favorDecSpeed);
  }

  lemma UpToLast(t: seq<Optimal>, src: seq<byte>, ip: nat, hi: nat, last: nat, cur: nat)
    requires TableOk(t, src, ip, hi) && HonestTo(t, hi, cur) && last <= hi
    ensures TableOk(t, src, ip, last) && HonestTo(t, last, cur)
  {
    hide EntryOk, Fair;
  }

  // ---------------------------------------------------------------- what a path costs

  /** From every position up to `last`, the lengths lead back to 0. */
  predicate Walkable(t: seq<Optimal>, last: nat) {
    && last < |t| && 1 <= t[0].mlen
    && forall c :: 1 <= c <= last ==> 1 <= t[c].mlen <= c
  }

  /** The sequence of a step of `len` bytes from `p`, with the literals from `anchor` on; none for a literal. */
  function Hop(src: seq<byte>, anchor: nat, p: nat, off: nat, len: nat): seq<Sequence>
    requires anchor <= p <= |src|
  {
    if len == 1 then [] else [Sequence(src[anchor..p], off, len)]
  }

  /** Where the last match on the way to `c` ends. */
  function PathAnchor(t: seq<Optimal>, anchor: nat, ip: nat, c: nat): (a: nat)
    requires Walkable(t, c) && anchor <= ip
    ensures a <= ip + c
  {
    if c == 0 then anchor else if t[c].mlen == 1 then PathAnchor(t, anchor, ip, c - 1) else ip + c
  }

  /** The sequences of the way to `c`. */
  function PathSequences(t: seq<Optimal>, src: seq<byte>, anchor: nat, ip: nat, c: nat): seq<Sequence>
    requires Walkable(t, c) && anchor <= ip && ip + c <= |src|
  {
    if c == 0 then []
    else
      var p := c - t[c].mlen;
      PathSequences(t, src, anchor, ip, p) + Hop(src, PathAnchor(t, anchor, ip, p), ip + p, t[c].off, t[c].mlen)
  }

  /** Every literal on the way to `c` is counted from the last match on. */
  predicate Counted(t: seq<Optimal>, anchor: nat, ip: nat, c: nat)
    requires Walkable(t, c) && anchor <= ip
  {
    if c == 0 then t[0].mlen == 1 && t[0].litlen == ip - anchor
    else
      && (t[c].mlen == 1 ==> t[c].litlen == ip + c - PathAnchor(t, anchor, ip, c))
      && Counted(t, anchor, ip, c - t[c].mlen)
  }

  /** A literal entered right behind `cur` is counted right exactly if the way to `cur` is, and `cur` is not the end of a
      match with literals in front of it: their count is taken over. */
  lemma CountedBehind(t: seq<Optimal>, u: seq<Optimal>, last0: nat, last: nat, cur: nat, len: nat, off: nat,
                      favorDecSpeed: bool, anchor: nat, ip: nat)
    requires Entered(t, u, last0, last, cur, len, off, favorDecSpeed) && LiteralPrice(t, cur, 1) < t[cur + 1].price
    requires Walkable(u, cur) && anchor <= ip
    ensures Walkable(u, cur + 1)
    ensures Counted(u, anchor, ip, cur + 1) <==> Counted(u, anchor, ip, cur) && (t[cur].mlen == 1 || t[cur].litlen == 0)
  {
    hide LiteralPrice, Better, Tail;
    assert u[cur + 1] == EntryAt(t, last0, cur, len, off, favorDecSpeed, cur + 1);
    var c := cur + 1;
    assert u[c].mlen == 1 && u[c].litlen == u[cur].litlen + 1 && c - u[c].mlen == cur;
    assert PathAnchor(u, anchor, ip, c) == PathAnchor(u, anchor, ip, cur);
    assert Counted(u, anchor, ip, c) <==>
           u[c].litlen == ip + c - PathAnchor(u, anchor, ip, c) && Counted(u, anchor, ip, cur);
  }

  lemma {:induction false} PathEncodable(t: seq<Optimal>, src: seq<byte>, anchor: nat, ip: nat, c: nat)
    requires Walkable(t, c) && TableOk(t, src, ip, c) && anchor <= ip && ip + c <= |src|
    ensures AllEncodable(PathSequences(t, src, anchor, ip, c))
  {
    hide Same;
    if c > 0 {
      assert EntryOk(src, ip, c, t[c]);
      PathEncodable(t, src, anchor, ip, c - t[c].mlen);
    }
  }

  /** Back over literals: to a match or to the beginning. */
  lemma {:induction false} RunBack(t: seq<Optimal>, src: seq<byte>, anchor: nat, ip: nat, s: nat)
    requires Walkable(t, s) && anchor <= ip && ip + s <= |src| && Counted(t, anchor, ip, s)
    ensures var a := PathAnchor(t, anchor, ip, s);
            if a <= ip then a == anchor && PathSequences(t, src, anchor, ip, s) == []
            else
              && a - ip <= s && t[a - ip].mlen != 1 && Counted(t, anchor, ip, a - ip)
              && PathSequences(t, src, anchor, ip, s) == PathSequences(t, src, anchor, ip, a - ip)
  {
    if s > 0 && t[s].mlen == 1 { RunBack(t, src, anchor, ip, s - 1); }
  }

  lemma NoSequences(qs: seq<Sequence>)
    requires qs == []
    ensures EncodeSequences(qs) == []
  {
  }

  /** The last match adds its price. */
  lemma PathLast(t: seq<Optimal>, src: seq<byte>, anchor: nat, ip: nat, c: nat, s: nat)
    requires Walkable(t, c) && anchor <= ip && ip + c <= |src| && 0 < c && t[c].mlen != 1
    requires TableOk(t, src, ip, c) && s == c - t[c].mlen
    ensures AllEncodable(PathSequences(t, src, anchor, ip, c)) && AllEncodable(PathSequences(t, src, anchor, ip, s))
    ensures |EncodeSequences(PathSequences(t, src, anchor, ip, c))|
         == |EncodeSequences(PathSequences(t, src, anchor, ip, s))|
            + SequencePrice(ip + s - PathAnchor(t, anchor, ip, s), t[c].mlen)
  {
    hide Same, SequencePrice, EncodeSequence;
    PathEncodable(t, src, anchor, ip, c);
    PathEncodable(t, src, anchor, ip, s);
    var before, a := PathSequences(t, src, anchor, ip, s), PathAnchor(t, anchor, ip, s);
    var q := Sequence(src[a..ip + s], t[c].off, t[c].mlen);
    assert PathSequences(t, src, anchor, ip, c) == before + [q];
    assert (before + [q])[..|before|] == before;
    assert (before + [q])[|before|] == q;
    PriceIsSize(q);
  }

  /** A match is priced from the one before it. */
  lemma PriceFromLast(t: seq<Optimal>, anchor: nat, ip: nat, s: nat, ml: nat)
    requires Walkable(t, s) && anchor <= ip && Counted(t, anchor, ip, s)
    ensures var a := PathAnchor(t, anchor, ip, s);
            MatchPrice(t, s, ml) == SequencePrice(ip + s - a, ml) + if a > ip then t[a - ip].price else 0
  {
    hide SequencePrice;
  }

  /** The price of a position behind a match is the size of the sequences on the way to it, if its literals are counted
      right. */
  lemma {:induction false} PathIsPriced(t: seq<Optimal>, src: seq<byte>, anchor: nat, ip: nat, c: nat, cur: nat)
    requires Walkable(t, c) && anchor <= ip && ip + c <= |src| && 0 < c && t[c].mlen != 1
    requires TableOk(t, src, ip, c) && HonestTo(t, c, cur) && Counted(t, anchor, ip, c)
    ensures AllEncodable(PathSequences(t, src, anchor, ip, c))
    ensures |EncodeSequences(PathSequences(t, src, anchor, ip, c))| == t[c].price
  {
    hide EntryOk, SequencePrice, EncodeSequences, PathSequences, MatchPrice, PathAnchor;
    var s := c - t[c].mlen;
    PathLast(t, src, anchor, ip, c, s);
    assert Fair(t, cur, c, t[c]);
    RunBack(t, src, anchor, ip, s);
    PriceFromLast(t, anchor, ip, s, t[c].mlen);
    var a := PathAnchor(t, anchor, ip, s);
    if a > ip { PathIsPriced(t, src, anchor, ip, a - ip, cur); } else { NoSequences(PathSequences(t, src, anchor, ip, s)); }
  }
}
