/** The fast LZ4 compressor: no output limit, no dictionary, index tables, fresh state.

    Whatever the hash function puts in the table, the bytes produced form a valid block that
    decodes to the source, and no store leaves the published worst-case buffer. */
module Lz4Compress {
  import opened Lz4Format
  import opened Lz4Copy

  const MAX_INPUT_SIZE := 0x7E000000
  const LIMIT_64K := 0x10000 + MFLIMIT - 1
  const MIN_LENGTH := MFLIMIT + 1
  const SKIP_TRIGGER := 64 // 1 << 6

  /** How positions are stored: in 16-bit or in 32-bit slots. */
  datatype TableType = ByU16 | ByU32

  function CompressBound(n: nat): nat {
    if n > MAX_INPUT_SIZE then 0 else n + n / 255 + 16
  }

  predicate Supported(n: nat, tableType: TableType) {
    n <= MAX_INPUT_SIZE && (tableType == ByU16 ==> n < LIMIT_64K)
  }

  // ---------------------------------------------------------------- comparing bytes

  /** The `n` bytes of `src` at `i` and at `j` are equal. */
  predicate Same(src: seq<byte>, i: nat, j: nat, n: nat)
    requires i + n <= |src| && j + n <= |src|
  {
    src[i..i + n] == src[j..j + n]
  }

  lemma ConcatEqual(a: seq<byte>, b: seq<byte>, c: seq<byte>, d: seq<byte>)
    requires |a| == |c|
    ensures a + b == c + d <==> a == c && b == d
  {
    if a + b == c + d {
      assert a == (a + b)[..|a|] && b == (a + b)[|a|..];
      assert c == (c + d)[..|c|] && d == (c + d)[|c|..];
    }
  }

  lemma SameJoin(src: seq<byte>, i: nat, j: nat, c: nat, n: nat)
    requires i + c + n <= |src| && j + c + n <= |src|
    ensures Same(src, i, j, c + n) <==> Same(src, i, j, c) && Same(src, i + c, j + c, n)
  {
    var a, b, c', d := src[i..i + c], src[i + c..i + c + n], src[j..j + c], src[j + c..j + c + n];
    assert src[i..i + c + n] == a + b;
    assert src[j..j + c + n] == c' + d;
    ConcatEqual(a, b, c', d);
  }

  lemma SameByte(src: seq<byte>, i: nat, j: nat)
    requires i < |src| && j < |src|
    ensures Same(src, i, j, 0)
    ensures Same(src, i, j, 1) <==> src[i] == src[j]
  {
    assert src[i..i + 1] == [src[i]] && src[j..j + 1] == [src[j]];
  }

  lemma SameHead(src: seq<byte>, i: nat, j: nat, n: nat)
    requires n >= 1 && i + n <= |src| && j + n <= |src|
    ensures Same(src, i, j, n) <==> src[i] == src[j] && Same(src, i + 1, j + 1, n - 1)
  {
    hide Same;
    SameByte(src, i, j);
    SameJoin(src, i, j, 1, n - 1);
  }

  /** Number of leading bytes two different words share: the trailing zero bytes of their xor. */
  function CommonBytes(src: seq<byte>, i: nat, j: nat, n: nat): (r: nat)
    requires 1 <= n && i + n <= |src| && j + n <= |src| && !Same(src, i, j, n)
    ensures r < n
    decreases n
  {
    if src[i] != src[j] then 0
    else
      DifferLater(src, i, j, n);
      1 + CommonBytes(src, i + 1, j + 1, n - 1)
  }

  lemma {:induction false} CommonBytesStop(src: seq<byte>, i: nat, j: nat, n: nat)
    requires 1 <= n && i + n <= |src| && j + n <= |src| && !Same(src, i, j, n)
    ensures var r := CommonBytes(src, i, j, n); Same(src, i, j, r) && src[i + r] != src[j + r]
    decreases n
  {
    hide Same;
    if src[i] != src[j] {
      SameByte(src, i, j);
    } else {
      DifferLater(src, i, j, n);
      CommonBytesStop(src, i + 1, j + 1, n - 1);
      SameHead(src, i, j, CommonBytes(src, i, j, n));
    }
  }

  lemma DifferLater(src: seq<byte>, i: nat, j: nat, n: nat)
    requires 1 <= n && i + n <= |src| && j + n <= |src| && !Same(src, i, j, n) && src[i] == src[j]
    ensures n >= 2 && !Same(src, i + 1, j + 1, n - 1)
  {
    hide Same;
    SameHead(src, i, j, n);
    if n == 1 { SameByte(src, i, j); }
  }

  /** `r` is where the run of equal bytes at `i` and `j` stops, at a difference or at `limit`. */
  ghost predicate RunEnds(src: seq<byte>, i: nat, j: nat, limit: nat, r: nat)
    requires j < i <= limit <= |src|
  {
    i <= r <= limit && Same(src, i, j, r - i) && (r < limit ==> src[r] != src[r - i + j])
  }

  lemma RunJoin(src: seq<byte>, i: nat, j: nat, limit: nat, p: nat, r: nat)
    requires j < i <= p <= limit <= |src|
    requires Same(src, i, j, p - i) && RunEnds(src, p, p - i + j, limit, r)
    ensures RunEnds(src, i, j, limit, r)
  {
    SameJoin(src, i, j, p - i, r - p);
  }

  /** End of the run of bytes equal at `pIn` and `pMatch`, compared 8 at a time, then 4, 2 and 1. */
  method Count(src: seq<byte>, pIn: nat, pMatch: nat, limit: nat) returns (r: nat)
    requires pMatch < pIn <= limit <= |src|
    ensures RunEnds(src, pIn, pMatch, limit, r)
  {
    var p: nat, m: nat := pIn, pMatch;
    hide RunEnds, CommonBytes;
    while p + 7 < limit
      invariant pIn <= p <= limit && p - m == pIn - pMatch
      invariant Same(src, pIn, pMatch, p - pIn)
      decreases limit - p
    {
      if !Same(src, p, m, 8) {
        r := p + CommonBytes(src, p, m, 8);
        CommonBytesStop(src, p, m, 8);
        RunJoin(src, pIn, pMatch, limit, p, r);
        return;
      }
      SameJoin(src, pIn, pMatch, p - pIn, 8);
      p, m := p + 8, m + 8;
    }
    r := CountTail(src, p, m, limit);
    RunJoin(src, pIn, pMatch, limit, p, r);
  }

  /** The run at `i` and `j` stops before `w` more bytes. */
  ghost predicate Within(src: seq<byte>, i: nat, j: nat, limit: nat, w: nat)
    requires j < i <= limit <= |src|
  {
    limit - i < w || !Same(src, i, j, w)
  }

  /** One comparison of `w` bytes when the run is known to stop within twice that. */
  method CountWord(src: seq<byte>, i: nat, j: nat, limit: nat, w: nat) returns (r: nat)
    requires j < i <= limit <= |src| && w >= 1 && Within(src, i, j, limit, 2 * w)
    ensures i <= r <= limit && Same(src, i, j, r - i) && Within(src, r, r - i + j, limit, w)
  {
    r := i;
    if i + w <= limit && Same(src, i, j, w) {
      r := i + w;
      if limit - r >= w { SameJoin(src, i, j, w, w); }
    }
  }

  /** Fewer than 8 bytes left. */
  method CountTail(src: seq<byte>, pIn: nat, pMatch: nat, limit: nat) returns (r: nat)
    requires pMatch < pIn <= limit <= |src| && limit - pIn <= 7
    ensures RunEnds(src, pIn, pMatch, limit, r)
  {
    hide Same;
    var r4 := CountWord(src, pIn, pMatch, limit, 4);
    var r2 := CountWord(src, r4, r4 - pIn + pMatch, limit, 2);
    r := CountWord(src, r2, r2 - pIn + pMatch, limit, 1);
    SameJoin(src, pIn, pMatch, r4 - pIn, r2 - r4);
    SameJoin(src, pIn, pMatch, r2 - pIn, r - r2);
    if r < limit { SameByte(src, r, r - pIn + pMatch); }
  }

  // ---------------------------------------------------------------- the index table

  /** Every position in the table is below `limit`. */
  ghost predicate Below(table: array<nat>, limit: nat)
    reads table
  {
    forall h :: 0 <= h < table.Length ==> table[h] < limit
  }

  /** The hash of a position reads 4 bytes for 16-bit tables and 8 bytes for 32-bit ones. */
  function HashWidth(tableType: TableType): nat {
    if tableType == ByU16 then 4 else 8
  }

  function HashAt(src: seq<byte>, p: nat, hash: seq<byte> -> nat, tableType: TableType): nat
    requires p + 8 <= |src|
  {
    hash(src[p..p + HashWidth(tableType)])
  }

  method PutIndex(table: array<nat>, h: nat, idx: nat, tableType: TableType)
    requires h < table.Length && (tableType == ByU16 ==> idx < 0x10000)
    requires Below(table, idx + 1)
    modifies table
    ensures Below(table, idx + 1) && table[..] == old(table[..])[h := idx]
  {
    table[h] := if tableType == ByU16 then idx % 0x10000 else idx;
  }

  /** The `k`-th step of the search, longer by one every 64 misses. */
  function StepAt(acceleration: nat, k: nat): nat {
    if k == 0 then 1 else (acceleration * SKIP_TRIGGER + k - 1) / SKIP_TRIGGER
  }

  /** The `k`-th position looked at. */
  function PosAt(start: nat, acceleration: nat, k: nat): nat {
    if k == 0 then start else PosAt(start, acceleration, k - 1) + StepAt(acceleration, k - 1)
  }

  /** What a search works on. */
  datatype Hunt = Hunt(src: seq<byte>, hash: seq<byte> -> nat, tableType: TableType, start: nat, acceleration: nat)

  /** The slot of position `p`, if it has one among `n`. */
  predicate HasSlot(u: Hunt, p: nat, n: nat) {
    p + 8 <= |u.src| && HashAt(u.src, p, u.hash, u.tableType) < n
  }

  /** The table once the first `k` positions have been recorded, each in the slot of its hash. */
  ghost function TableAfter(t: seq<nat>, u: Hunt, k: nat): (r: seq<nat>)
    ensures |r| == |t|
  {
    if k == 0 then t
    else
      var before, p := TableAfter(t, u, k - 1), PosAt(u.start, u.acceleration, k - 1);
      if HasSlot(u, p, |t|) then before[HashAt(u.src, p, u.hash, u.tableType) := p] else before
  }

  /** The position recorded last with the hash of `p` will do as a match. */
  ghost predicate Usable(t: seq<nat>, u: Hunt, p: nat) {
    && HasSlot(u, p, |t|)
    && var c := t[HashAt(u.src, p, u.hash, u.tableType)];
       c + 4 <= |u.src| && (u.tableType == ByU16 || c + DISTANCE_MAX >= p) && Same(u.src, p, c, 4)
  }

  /** The `i`-th position looked at is no match. */
  ghost predicate Missed(t: seq<nat>, u: Hunt, i: nat) {
    !Usable(TableAfter(t, u, i), u, PosAt(u.start, u.acceleration, i))
  }

  lemma StepPositive(acceleration: nat, k: nat)
    requires acceleration >= 1
    ensures StepAt(acceleration, k) >= 1
  {
  }

  /** Skipping search for four bytes seen before, at most 65535 bytes back: the first position of the
      schedule whose last namesake in the table will do. Every position looked at is recorded. */
  method FindMatch(src: seq<byte>, table: array<nat>, hash: seq<byte> -> nat, tableType: TableType,
                   acceleration: nat, start: nat)
    returns (found: bool, ip: nat, match_: nat, ghost k: nat)
    requires acceleration >= 1 && forall w :: hash(w) < table.Length
    requires 1 <= start && start + MFLIMIT - 1 <= |src| && Supported(|src|, tableType)
    requires Below(table, start)
    modifies table
    ensures found ==> start <= ip && ip + MFLIMIT <= |src| && match_ < ip <= match_ + DISTANCE_MAX
    ensures found ==> Same(src, ip, match_, 4) && Below(table, ip + 1)
    ensures var u := Hunt(src, hash, tableType, start, acceleration);
            && (forall i: nat :: i < k ==> Missed(old(table[..]), u, i))
            && if found then
                 && ip == PosAt(start, acceleration, k) && PosAt(start, acceleration, k + 1) + MFLIMIT <= |src| + 1
                 && table[..] == TableAfter(old(table[..]), u, k + 1)
                 && match_ == TableAfter(old(table[..]), u, k)[HashAt(src, ip, hash, tableType)]
               else PosAt(start, acceleration, k + 1) + MFLIMIT > |src| + 1 && table[..] == TableAfter(old(table[..]), u, k)
  {
    hide Same, StepAt, TableAfter, Missed;
    var mflimitPlusOne := |src| - MFLIMIT + 1;
    var forwardIp := start;
    var forwardH: nat := HashAt(src, forwardIp, hash, tableType);
    var step := 1;
    var searchMatchNb := acceleration * SKIP_TRIGGER;
    ip := start;
    match_ := 0;
    k := 0;
    ghost var u, t := Hunt(src, hash, tableType, start, acceleration), table[..];
    SearchBegins(t, u);
    while true
      invariant start <= forwardIp <= mflimitPlusOne && step >= 1 && searchMatchNb == acceleration * SKIP_TRIGGER + k
      invariant forwardH == HashAt(src, forwardIp, hash, tableType) && Below(table, forwardIp)
      invariant forwardIp == PosAt(start, acceleration, k) && step == StepAt(acceleration, k)
      invariant table[..] == TableAfter(t, u, k) && forall i: nat :: i < k ==> Missed(t, u, i)
      decreases mflimitPlusOne - forwardIp
    {
      var h := forwardH;
      var current := forwardIp;
      var matchIndex := table[h];
      ip := forwardIp;
      forwardIp := forwardIp + step;
      step := searchMatchNb / SKIP_TRIGGER;
      searchMatchNb := searchMatchNb + 1;
      StepPositive(acceleration, k + 1);
      StepNext(acceleration, k);
      if forwardIp > mflimitPlusOne { return false, ip, 0, k; }
      match_ := matchIndex;
      forwardH := HashAt(src, forwardIp, hash, tableType);
      PutIndex(table, h, current, tableType);
      SearchNext(t, u, k);
      if tableType != ByU16 && matchIndex + DISTANCE_MAX < current {
        k := k + 1;
        continue;
      }
      if Same(src, ip, match_, 4) { return true, ip, match_, k; }
      k := k + 1;
    }
  }

  lemma SearchBegins(t: seq<nat>, u: Hunt)
    ensures TableAfter(t, u, 0) == t && StepAt(u.acceleration, 0) == 1
  {
  }

  lemma StepNext(acceleration: nat, k: nat)
    ensures StepAt(acceleration, k + 1) == (acceleration * SKIP_TRIGGER + k) / SKIP_TRIGGER
  {
  }

  lemma SearchNext(t: seq<nat>, u: Hunt, k: nat)
    requires HasSlot(u, PosAt(u.start, u.acceleration, k), |t|)
    ensures var p := PosAt(u.start, u.acceleration, k);
            var h, before := HashAt(u.src, p, u.hash, u.tableType), TableAfter(t, u, k);
            && TableAfter(t, u, k + 1) == before[h := p]
            && (Missed(t, u, k) <==> !(before[h] + 4 <= |u.src| && (u.tableType == ByU16 || before[h] + DISTANCE_MAX >= p)
                                       && Same(u.src, p, before[h], 4)))
  {
    hide Same, PosAt;
  }

  /** Extend a match backwards over equal bytes, not below `anchor`. */
  method CatchUp(src: seq<byte>, ip0: nat, match0: nat, anchor: nat) returns (ip: nat, match_: nat)
    requires match0 < ip0 && anchor <= ip0 && ip0 + 4 <= |src| && Same(src, ip0, match0, 4)
    ensures anchor <= ip <= ip0 && ip - match_ == ip0 - match0
    ensures Same(src, ip, match_, ip0 - ip + 4)
    ensures ip == anchor || match_ == 0 || src[ip - 1] != src[match_ - 1]
  {
    hide Same;
    ip, match_ := ip0, match0;
    while ip > anchor && match_ > 0 && src[ip - 1] == src[match_ - 1]
      invariant anchor <= ip <= ip0 && ip - match_ == ip0 - match0
      invariant Same(src, ip, match_, ip0 - ip + 4)
    {
      SameByte(src, ip - 1, match_ - 1);
      SameJoin(src, ip - 1, match_ - 1, 1, ip0 - ip + 4);
      ip, match_ := ip - 1, match_ - 1;
    }
  }

  /** A match found at `at` widened to `start`, as far back as `anchor`. */
  ghost predicate Widened(src: seq<byte>, anchor: nat, at: nat, candidate: nat, start: nat, from: nat) {
    && anchor <= start <= at && at + 4 <= |src| && from < start && start - from == at - candidate
    && Same(src, start, from, at - start + 4)
    && (start == anchor || from == 0 || src[start - 1] != src[from - 1])
  }

  /** The search that begins at `u.start` finds its match at the `k`-th position, and before the last one. */
  ghost predicate FindsAt(t: seq<nat>, u: Hunt, k: nat) {
    && (forall i: nat :: i < k ==> Missed(t, u, i)) && !Missed(t, u, k)
    && PosAt(u.start, u.acceleration, k + 1) + MFLIMIT <= |u.src| + 1
  }

  /** It ends with the `k`-th position, in vain. */
  ghost predicate Exhausts(t: seq<nat>, u: Hunt, k: nat) {
    (forall i: nat :: i < k ==> Missed(t, u, i)) && PosAt(u.start, u.acceleration, k + 1) + MFLIMIT > |u.src| + 1
  }

  /** The namesake found at the `k`-th position. */
  ghost function Namesake(t: seq<nat>, u: Hunt, k: nat): nat {
    var p := PosAt(u.start, u.acceleration, k);
    if HasSlot(u, p, |t|) then TableAfter(t, u, k)[HashAt(u.src, p, u.hash, u.tableType)] else 0
  }

  method FindWidened(src: seq<byte>, table: array<nat>, hash: seq<byte> -> nat, tableType: TableType,
                     acceleration: nat, anchor: nat, ip: nat)
    returns (found: bool, start: nat, from: nat, ghost len: nat, ghost k: nat)
    requires acceleration >= 1 && forall w :: hash(w) < table.Length
    requires 1 <= ip && anchor <= ip && ip + MFLIMIT - 1 <= |src| && Supported(|src|, tableType)
    requires Below(table, ip)
    modifies table
    ensures found ==> anchor <= start && start + MFLIMIT <= |src| && from < start <= from + DISTANCE_MAX
    ensures found ==> 4 <= len && ip + 4 <= start + len && start + len + MFLIMIT - 4 <= |src|
    ensures found ==> Same(src, start, from, len) && Below(table, start + len - 3)
    ensures var t, u := old(table[..]), Hunt(src, hash, tableType, ip, acceleration);
            if found then
              && FindsAt(t, u, k) && table[..] == TableAfter(t, u, k + 1)
              && Widened(src, anchor, PosAt(ip, acceleration, k), Namesake(t, u, k), start, from)
            else Exhausts(t, u, k)
  {
    hide Same, TableAfter, Missed;
    var at, match_;
    found, at, match_, k := FindMatch(src, table, hash, tableType, acceleration, ip);
    start, from, len := at, match_, 4;
    if found {
      FoundHere(old(table[..]), Hunt(src, hash, tableType, ip, acceleration), k, at, match_);
      start, from := CatchUp(src, at, match_, anchor);
      len := at - start + 4;
    }
  }

  lemma FoundHere(t: seq<nat>, u: Hunt, k: nat, at: nat, match_: nat)
    requires at == PosAt(u.start, u.acceleration, k) && HasSlot(u, at, |t|) && match_ < at <= match_ + DISTANCE_MAX
    requires match_ == TableAfter(t, u, k)[HashAt(u.src, at, u.hash, u.tableType)] && Same(u.src, at, match_, 4)
    ensures !Missed(t, u, k) && Namesake(t, u, k) == match_
  {
    hide Same, TableAfter;
  }

  // ---------------------------------------------------------------- the matches a source is cut into

  /** What is compressed, and with what. */
  datatype Work = Work(src: seq<byte>, hash: seq<byte> -> nat, tableType: TableType, acceleration: nat, table: seq<nat>)

  /** A match: taken up right after the last one or found by a search, at its `k`-th position; bytes `start` to
      `end`, the same as those at `from`. */
  datatype Find = Find(next: bool, k: nat, start: nat, from: nat, end: nat)

  /** Where the matches end. */
  function Ended(fs: seq<Find>): nat {
    if fs == [] then 0 else fs[|fs| - 1].end
  }

  /** So close to the end that no match may start. */
  predicate Over(src: seq<byte>, fs: seq<Find>) {
    fs != [] && Ended(fs) + MFLIMIT > |src|
  }

  /** The search after `fs`. */
  function HuntAfter(w: Work, fs: seq<Find>): Hunt {
    Hunt(w.src, w.hash, w.tableType, Ended(fs) + 1, w.acceleration)
  }

  /** Position `p` recorded. */
  function Recorded(w: Work, t: seq<nat>, p: nat): (r: seq<nat>)
    ensures |r| == |t|
  {
    var u := HuntAfter(w, []);
    if HasSlot(u, p, |t|) then t[HashAt(w.src, p, w.hash, w.tableType) := p] else t
  }

  /** The table after `fs`, when the next position is tested. */
  ghost function Before(w: Work, fs: seq<Find>): seq<nat>
    decreases |fs|, 0
  {
    if fs == [] then w.table
    else
      var f := fs[|fs| - 1];
      Recorded(w, Looked(w, fs[..|fs| - 1], f), if f.end < 2 then 0 else f.end - 2)
  }

  /** The table after `fs`, when a search begins. */
  ghost function Ready(w: Work, fs: seq<Find>): seq<nat>
    decreases |fs|, 1
  {
    Recorded(w, Before(w, fs), Ended(fs))
  }

  /** The table when `f` has been found after `fs`. */
  ghost function Looked(w: Work, fs: seq<Find>, f: Find): seq<nat>
    decreases |fs|, 2
  {
    if f.next then Ready(w, fs) else TableAfter(Ready(w, fs), HuntAfter(w, fs), f.k + 1)
  }

  /** The position after the last match matches at once. */
  ghost predicate NextUsable(w: Work, fs: seq<Find>) {
    fs != [] && Usable(Before(w, fs), HuntAfter(w, fs), Ended(fs))
  }

  /** Where the next match after `fs` starts. */
  ghost predicate Starts(w: Work, fs: seq<Find>, f: Find) {
    && !Over(w.src, fs) && f.next == NextUsable(w, fs)
    && if f.next then
         f.k == 0 && f.start == Ended(fs) && f.from == Before(w, fs)[HashAt(w.src, f.start, w.hash, w.tableType)]
       else
         && FindsAt(Ready(w, fs), HuntAfter(w, fs), f.k)
         && Widened(w.src, Ended(fs), PosAt(Ended(fs) + 1, w.acceleration, f.k), Namesake(Ready(w, fs), HuntAfter(w, fs), f.k),
                    f.start, f.from)
  }

  /** It goes on to a difference or to the last five bytes. */
  ghost predicate Ends(src: seq<byte>, f: Find) {
    && f.from < f.start && f.start + MINMATCH <= f.end && f.end + LASTLITERALS <= |src|
    && Same(src, f.start, f.from, f.end - f.start)
    && (f.end == |src| - LASTLITERALS || src[f.end] != src[f.end - f.start + f.from])
  }

  /** Each match is the first the schedule comes to, as long as it can be made. */
  ghost predicate Greedy(w: Work, fs: seq<Find>) {
    fs == [] || (var pre, f := fs[..|fs| - 1], fs[|fs| - 1]; Greedy(w, pre) && Starts(w, pre, f) && Ends(w.src, f))
  }

  /** No more matches are to be had: the end is near, or a search has been in vain. */
  ghost predicate Finished(w: Work, fs: seq<Find>) {
    Over(w.src, fs) || (!NextUsable(w, fs) && exists k: nat :: Exhausts(Ready(w, fs), HuntAfter(w, fs), k))
  }

  function SequenceOf(src: seq<byte>, anchor: nat, f: Find): Sequence {
    if anchor <= f.start <= |src| && f.from < f.start <= f.end
    then Sequence(src[anchor..f.start], f.start - f.from, f.end - f.start) else Sequence([], 1, MINMATCH)
  }

  /** The matches with the literals between them. */
  function Sequences(src: seq<byte>, fs: seq<Find>): seq<Sequence> {
    if fs == [] then []
    else
      var pre, f := fs[..|fs| - 1], fs[|fs| - 1];
      Sequences(src, pre) + [SequenceOf(src, Ended(pre), f)]
  }

  lemma GreedySnoc(w: Work, fs: seq<Find>, f: Find)
    requires Greedy(w, fs) && Starts(w, fs, f) && Ends(w.src, f)
    ensures Greedy(w, fs + [f]) && Ended(fs + [f]) == f.end
    ensures Sequences(w.src, fs + [f]) == Sequences(w.src, fs) + [SequenceOf(w.src, Ended(fs), f)]
    ensures Before(w, fs + [f]) == Recorded(w, Looked(w, fs, f), f.end - 2)
  {
    assert f.end >= 2;
    hide Starts, Ends, Looked;
    assert (fs + [f])[..|fs|] == fs;
  }

  /** A match does not depend on its end until it is reached. */
  lemma StartsAnyEnd(w: Work, fs: seq<Find>, f: Find, end: nat)
    requires Starts(w, fs, f)
    ensures Starts(w, fs, f.(end := end)) && Looked(w, fs, f.(end := end)) == Looked(w, fs, f)
  {
    hide Before, Ready, TableAfter, FindsAt, Widened, Usable;
  }

  // ---------------------------------------------------------------- writing the output

  lemma {:induction false} ExtBytesShape(n: nat)
    ensures var e := ExtBytes(n);
            && (forall i :: 0 <= i < n / 255 ==> e[i] == 255)
            && e[n / 255] == n % 255
  {
    if n >= 255 { ExtBytesShape(n - 255); }
  }

  /** `for(; len >= 255 ; len-=255) *op++ = 255; *op++ = len` */
  method WriteExt(dst: array<byte>, op0: nat, n: nat) returns (op: nat)
    requires op0 + n / 255 + 1 <= dst.Length
    modifies dst
    ensures op == op0 + |ExtBytes(n)| && dst[..op] == old(dst[..op0]) + ExtBytes(n)
  {
    op := op0;
    var len := n;
    while len >= 255
      invariant op0 <= op && op + len / 255 + 1 == op0 + n / 255 + 1
      invariant dst[..op] + ExtBytes(len) == old(dst[..op0]) + ExtBytes(n)
    {
      ghost var before := dst[..op];
      dst[op] := 255;
      op := op + 1;
      len := len - 255;
      assert dst[..op] == before + [255];
      assert before + ([255] + ExtBytes(len)) == dst[..op] + ExtBytes(len);
    }
    ghost var before := dst[..op];
    dst[op] := len;
    op := op + 1;
    assert dst[..op] == before + [len];
  }

  /** The token with the literal length in its high half, then the literals. */
  function LiteralPart(literals: seq<byte>): seq<byte> {
    [Token(|literals|, 0)] + LengthBytes(|literals|) + literals
  }

  method WriteToken(dst: array<byte>, op0: nat, litLength: nat) returns (op: nat)
    requires op0 + 1 + |LengthBytes(litLength)| <= dst.Length
    modifies dst
    ensures op == op0 + 1 + |LengthBytes(litLength)|
    ensures dst[..op] == old(dst[..op0]) + ([Token(litLength, 0)] + LengthBytes(litLength))
  {
    op := op0 + 1;
    if litLength >= RUN_MASK {
      dst[op0] := RUN_MASK * 16;
      ghost var head := dst[..op];
      op := WriteExt(dst, op, litLength - RUN_MASK);
      assert head == old(dst[..op0]) + [Token(litLength, 0)];
    } else {
      dst[op0] := litLength * 16;
    }
  }

  method WriteLiterals(src: seq<byte>, dst: array<byte>, op0: nat, anchor: nat, ip: nat) returns (op: nat)
    requires anchor <= ip && ip + 8 <= |src|
    requires op0 + 1 + |LengthBytes(ip - anchor)| + (ip - anchor) + 8 <= dst.Length
    modifies dst
    ensures op == op0 + |LiteralPart(src[anchor..ip])| <= dst.Length
    ensures dst[..op] == old(dst[..op0]) + LiteralPart(src[anchor..ip])
  {
    hide LengthBytes, Token;
    var litLength := ip - anchor;
    op := WriteToken(dst, op0, litLength);
    WildCopyFrom(dst, op, src, anchor, op + litLength, 8);
    op := op + litLength;
  }

  /** Offset, then the match length: its low part goes into the token already written. */
  method WriteMatch(dst: array<byte>, token: nat, op0: nat, offset: nat, matchCode: nat) returns (op: nat)
    requires token < op0 < dst.Length && dst[token] % 16 == 0 && offset <= DISTANCE_MAX
    requires op0 + 2 + |LengthBytes(matchCode)| + 3 <= dst.Length
    modifies dst
    ensures op == op0 + 2 + |LengthBytes(matchCode)|
    ensures dst[..op] == old(dst[..op0])[token := old(dst[token]) + Nibble(matchCode)]
                         + [offset % 256, offset / 256] + LengthBytes(matchCode)
  {
    ghost var out := dst[..op0];
    dst[op0], dst[op0 + 1] := offset % 256, offset / 256;
    op := op0 + 2;
    if matchCode >= ML_MASK {
      dst[token] := dst[token] + ML_MASK;
      assert dst[..op] == out[token := out[token] + Nibble(matchCode)] + [offset % 256, offset / 256];
      op := WriteMatchExt(dst, op, matchCode - ML_MASK);
    } else {
      dst[token] := dst[token] + matchCode;
      assert dst[..op] == out[token := out[token] + Nibble(matchCode)] + [offset % 256, offset / 256];
    }
  }

  /** The length bytes of a match, four 255s stored at a time. */
  method WriteMatchExt(dst: array<byte>, op0: nat, n: nat) returns (op: nat)
    requires op0 + n / 255 + 1 + 3 <= dst.Length
    modifies dst
    ensures op == op0 + |ExtBytes(n)| && dst[..op] == old(dst[..op0]) + ExtBytes(n)
  {
    op := op0;
    var code := n;
    Write32Ones(dst, op);
    while code >= 4 * 255
      invariant op0 <= op && op + code / 255 == op0 + n / 255 && code % 255 == n % 255
      invariant forall i :: op0 <= i < op + 4 ==> dst[i] == 255
      invariant forall i :: 0 <= i < op0 ==> dst[i] == old(dst[i])
    {
      op := op + 4;
      Write32Ones(dst, op);
      code := code - 4 * 255;
    }
    op := op + code / 255;
    dst[op] := code % 255;
    op := op + 1;
    ExtBytesShape(n);
    assert dst[op0..op] == ExtBytes(n);
  }

  method Write32Ones(dst: array<byte>, op: nat)
    requires op + 4 <= dst.Length
    modifies dst
    ensures forall i :: op <= i < op + 4 ==> dst[i] == 255
    ensures forall i :: 0 <= i < op || op + 4 <= i < dst.Length ==> dst[i] == old(dst[i])
  {
    dst[op], dst[op + 1], dst[op + 2], dst[op + 3] := 255, 255, 255, 255;
  }

  // ---------------------------------------------------------------- what has been emitted

  /** `out` encodes `qs`, which spells the source up to `anchor`, without growing by more than 1/255. */
  ghost predicate Emitted(out: seq<byte>, qs: seq<Sequence>, src: seq<byte>, anchor: nat) {
    && anchor <= |src|
    && AllEncodable(qs)
    && out == EncodeSequences(qs)
    && Spells(qs, src[..anchor], |src|)
    && |out| <= anchor + anchor / 255
  }

  lemma NothingEmitted(out: seq<byte>, src: seq<byte>)
    requires out == []
    ensures Emitted(out, [], src, 0)
  {
  }

  /** After that, at `token`, a sequence whose literals run from `anchor` to `ip` waits for its match. */
  ghost predicate Pending(out: seq<byte>, qs: seq<Sequence>, src: seq<byte>, anchor: nat, ip: nat, token: nat) {
    && anchor <= ip <= |src| && token <= |out|
    && Emitted(out[..token], qs, src, anchor)
    && out == out[..token] + LiteralPart(src[anchor..ip])
  }

  lemma LengthBytesAtMost(n: nat)
    ensures |LengthBytes(n)| <= 1 + n / 255 && |LengthBytes(n)| <= n
  {
  }

  lemma FloorAdd(a: nat, b: nat)
    ensures a / 255 + b / 255 <= (a + b) / 255
  {
  }

  /** A sequence is no longer than what it stands for, up to one byte in 255 literals. */
  lemma SequenceSize(q: Sequence)
    requires Encodable(q)
    ensures |EncodeSequence(q)| <= |q.literals| + q.matchLen + |q.literals| / 255
  {
    LengthBytesAtMost(|q.literals|);
    LengthBytesAtMost(q.matchLen - MINMATCH);
  }

  /** A genuine match in the source is what the LZ77 copy produces. */
  lemma SameIsMatchCopy(src: seq<byte>, ip: nat, offset: nat, len: nat)
    requires 1 <= offset <= ip && ip + len <= |src| && Same(src, ip, ip - offset, len)
    ensures src[..ip + len] == MatchCopy(src[..ip], offset, len)
  {
    var text := src[..ip + len];
    forall i | ip <= i < |text| ensures text[i] == text[i - offset] {
      assert text[i] == src[ip..ip + len][i - ip];
      assert text[i - offset] == src[ip - offset..ip - offset + len][i - ip];
    }
    MatchCopyUnique(src[..ip], offset, len, text);
  }

  lemma SpellsExtends(qs: seq<Sequence>, src: seq<byte>, anchor: nat, ip: nat, q: Sequence)
    requires AllEncodable(qs) && Encodable(q) && anchor <= ip && ip + q.matchLen + LASTLITERALS <= |src|
    requires ip + MFLIMIT <= |src| && q.offset <= ip
    requires Spells(qs, src[..anchor], |src|) && q.literals == src[anchor..ip]
    requires Same(src, ip, ip - q.offset, q.matchLen)
    ensures AllEncodable(qs + [q]) && Spells(qs + [q], src[..ip + q.matchLen], |src|)
  {
    hide MatchCopy, Same;
    var text := src[..ip + q.matchLen];
    SameIsMatchCopy(src, ip, q.offset, q.matchLen);
    assert text[..ip] == src[..ip] && text[..anchor] == src[..anchor] && text[anchor..ip] == src[anchor..ip];
    SpellsSnoc(qs, q, text, anchor, |src|);
  }

  lemma SpellsSnoc(qs: seq<Sequence>, q: Sequence, text: seq<byte>, anchor: nat, total: nat)
    requires AllEncodable(qs) && Encodable(q)
    requires anchor + |q.literals| + q.matchLen == |text| && q.offset <= anchor + |q.literals|
    requires Spells(qs, text[..anchor], total) && text[anchor..anchor + |q.literals|] == q.literals
    requires text == MatchCopy(text[..anchor + |q.literals|], q.offset, q.matchLen)
    requires anchor + |q.literals| + MFLIMIT <= total && |text| + LASTLITERALS <= total
    ensures AllEncodable(qs + [q]) && Spells(qs + [q], text, total)
  {
    hide MatchCopy;
    assert (qs + [q])[..|qs|] == qs;
  }

  lemma EncodedPart(out: seq<byte>, token: nat, q: Sequence)
    requires Encodable(q) && token <= |out| && out == out[..token] + LiteralPart(q.literals)
    ensures var code := q.matchLen - MINMATCH;
            && token < |out| && out[token] % 16 == 0 && out[token] + Nibble(code) < 256
            && out[token := out[token] + Nibble(code)] + [q.offset % 256, q.offset / 256] + LengthBytes(code)
               == out[..token] + EncodeSequence(q)
  {
    hide LengthBytes;
    var code, lits := q.matchLen - MINMATCH, q.literals;
    assert out[token] == LiteralPart(lits)[0] == Token(|lits|, 0);
    TokenSum(|lits|, code);
    hide Token, Nibble;
    assert out[token := out[token] + Nibble(code)]
        == out[..token] + ([Token(|lits|, code)] + LengthBytes(|lits|) + lits);
  }

  lemma TokenSum(n: nat, code: nat)
    ensures Token(n, 0) % 16 == 0 && Token(n, 0) + Nibble(code) == Token(n, code)
  {
    TokenParts(n, 0);
  }

  /** Completing the pending sequence with a genuine match. */
  lemma MatchCompletes(out: seq<byte>, qs: seq<Sequence>, src: seq<byte>, anchor: nat, ip: nat, token: nat, q: Sequence)
    requires Pending(out, qs, src, anchor, ip, token) && Encodable(q) && q.literals == src[anchor..ip]
    requires ip + q.matchLen + LASTLITERALS <= |src| && ip + MFLIMIT <= |src| && q.offset <= ip
    requires Same(src, ip, ip - q.offset, q.matchLen)
    ensures Emitted(out[..token] + EncodeSequence(q), qs + [q], src, ip + q.matchLen)
  {
    SpellsExtends(qs, src, anchor, ip, q);
    SequenceSize(q);
    FloorAdd(anchor, ip - anchor);
    FloorAdd(ip, q.matchLen);
    assert (qs + [q])[..|qs|] == qs;
    hide Spells, EncodeSequence, Same;
  }

  // ---------------------------------------------------------------- the compressor

  lemma RoomForMatch(out: seq<byte>, qs: seq<Sequence>, src: seq<byte>, anchor: nat, ip: nat, token: nat, code: nat)
    requires Pending(out, qs, src, anchor, ip, token) && ip + MINMATCH + code <= |src|
    ensures |out| + 2 + |LengthBytes(code)| + 3 <= |src| + |src| / 255 + 16
  {
    hide Spells;
    LengthBytesAtMost(ip - anchor);
    LengthBytesAtMost(code);
    FloorAdd(anchor, ip - anchor);
    FloorAdd(ip, code);
    FloorAdd(ip + code, |src| - ip - code);
  }

  /** Where the longest match ends, past every stretch known to be equal. */
  lemma RunCovers(src: seq<byte>, i: nat, j: nat, len: nat, limit: nat, r: nat)
    requires j < i && 4 <= len && i + len <= limit <= |src| && Same(src, i, j, len)
    requires RunEnds(src, i + 4, j + 4, limit, r)
    ensures i + len <= r <= limit && Same(src, i, j, r - i)
  {
    SameJoin(src, i, j, 4, len - 4);
    SameJoin(src, i, j, 4, r - (i + 4));
    if r < i + len {
      SameAt(src, i, j, len, r);
    }
  }

  lemma RunStops(src: seq<byte>, i: nat, j: nat, limit: nat, r: nat)
    requires j < i <= limit <= |src| && RunEnds(src, i, j, limit, r)
    ensures r == limit || src[r] != src[r - i + j]
  {
  }

  lemma SameAt(src: seq<byte>, i: nat, j: nat, n: nat, r: nat)
    requires i + n <= |src| && j + n <= |src| && Same(src, i, j, n) && i <= r < i + n
    ensures src[r] == src[r - i + j]
  {
    assert src[r] == src[i..i + n][r - i] && src[r - i + j] == src[j..j + n][r - i];
  }

  /** Offset and match length for the pending sequence; the match is made as long as possible. */
  method EmitMatch(src: seq<byte>, dst: array<byte>, token: nat, op0: nat, anchor: nat, ip: nat, match_: nat,
                   ghost len: nat, ghost qs: seq<Sequence>)
    returns (op: nat, end: nat, ghost qs': seq<Sequence>)
    requires op0 <= dst.Length && |src| + |src| / 255 + 16 <= dst.Length
    requires Pending(dst[..op0], qs, src, anchor, ip, token)
    requires match_ < ip <= match_ + DISTANCE_MAX && ip + MFLIMIT <= |src|
    requires 4 <= len && ip + len + LASTLITERALS <= |src| && Same(src, ip, match_, len)
    modifies dst
    ensures op <= dst.Length && Emitted(dst[..op], qs', src, end)
    ensures ip + len <= end && end + LASTLITERALS <= |src| && qs' == qs + [Sequence(src[anchor..ip], ip - match_, end - ip)]
    ensures Same(src, ip, match_, end - ip) && (end == |src| - LASTLITERALS || src[end] != src[end - ip + match_])
  {
    hide Same, RunEnds, Spells, Emitted, LengthBytes, EncodeSequence, Nibble;
    var matchlimit := |src| - LASTLITERALS;
    end := Count(src, ip + MINMATCH, match_ + MINMATCH, matchlimit);
    RunCovers(src, ip, match_, len, matchlimit, end);
    RunStops(src, ip + MINMATCH, match_ + MINMATCH, matchlimit, end);
    var matchCode := end - ip - MINMATCH;
    ghost var q := Sequence(src[anchor..ip], ip - match_, end - ip);
    ghost var out := dst[..op0];
    EncodedPart(out, token, q);
    RoomForMatch(out, qs, src, anchor, ip, token, matchCode);
    op := WriteMatch(dst, token, op0, ip - match_, matchCode);
    MatchCompletes(out, qs, src, anchor, ip, token, q);
    qs' := qs + [q];
  }

  /** Right after a match: record two positions, and see whether the next one matches already. */
  method NextMatch(src: seq<byte>, table: array<nat>, hash: seq<byte> -> nat, tableType: TableType, ip: nat)
    returns (found: bool, matchIndex: nat)
    requires 4 <= ip && ip + MFLIMIT <= |src| && Supported(|src|, tableType)
    requires Below(table, ip - 1) && forall w :: hash(w) < table.Length
    modifies table
    ensures Below(table, ip + 1)
    ensures found ==> matchIndex < ip <= matchIndex + DISTANCE_MAX && Same(src, ip, matchIndex, 4)
    ensures var u, h := Hunt(src, hash, tableType, ip, 1), HashAt(src, ip, hash, tableType);
            var t := old(table[..])[HashAt(src, ip - 2, hash, tableType) := ip - 2];
            table[..] == t[h := ip] && matchIndex == t[h] && (found <==> Usable(t, u, ip))
  {
    PutIndex(table, HashAt(src, ip - 2, hash, tableType), ip - 2, tableType);
    ghost var t := table[..];
    var h := HashAt(src, ip, hash, tableType);
    var current := ip;
    matchIndex := table[h];
    assert matchIndex == t[h] && matchIndex < ip;
    PutIndex(table, h, current, tableType);
    found := (tableType == ByU16 || matchIndex + DISTANCE_MAX >= current) && Same(src, matchIndex, ip, 4);
  }

  /** Literals written after what is emitted wait for their match. */
  lemma LiteralsPending(out: seq<byte>, qs: seq<Sequence>, src: seq<byte>, anchor: nat, ip: nat)
    requires Emitted(out, qs, src, anchor) && anchor <= ip <= |src|
    ensures Pending(out + LiteralPart(src[anchor..ip]), qs, src, anchor, ip, |out|)
  {
    hide Emitted, LiteralPart;
    assert (out + LiteralPart(src[anchor..ip]))[..|out|] == out;
  }

  /** A zero token and no literals: nothing stands between two matches. */
  lemma NothingPending(out: seq<byte>, qs: seq<Sequence>, src: seq<byte>, ip: nat)
    requires Emitted(out, qs, src, ip)
    ensures Pending(out + [0], qs, src, ip, ip, |out|)
    ensures |out| + 1 <= |src| + |src| / 255 + 16
  {
    hide *;
    EmittedSize(out, qs, src, ip);
    LiteralsPending(out, qs, src, ip, ip);
    NoLiterals(src, ip);
  }

  lemma NoLiterals(src: seq<byte>, ip: nat)
    requires ip <= |src|
    ensures LiteralPart(src[ip..ip]) == [0]
  {
    assert src[ip..ip] == [];
  }

  lemma EmittedSize(out: seq<byte>, qs: seq<Sequence>, src: seq<byte>, anchor: nat)
    requires Emitted(out, qs, src, anchor)
    ensures anchor <= |src| && |out| + 1 <= |src| + |src| / 255 + 16
  {
    hide Spells, EncodeSequences;
    FloorAdd(anchor, |src| - anchor);
  }

  lemma EmittedRoom(out: seq<byte>, qs: seq<Sequence>, src: seq<byte>, anchor: nat, ip: nat)
    requires Emitted(out, qs, src, anchor) && anchor <= ip && ip + MFLIMIT <= |src|
    ensures |out| + 1 + |LengthBytes(ip - anchor)| + (ip - anchor) + 8 <= |src| + |src| / 255 + 16
  {
    hide Spells, EncodeSequences;
    LengthBytesAtMost(ip - anchor);
    FloorAdd(anchor, ip - anchor);
    FloorAdd(ip, |src| - ip);
  }

  /** The loop at `_next_match`: a match, and as long as the position after it matches at once,
      another one without literals. */
  method EmitMatches(src: seq<byte>, dst: array<byte>, table: array<nat>, hash: seq<byte> -> nat, tableType: TableType,
                     token0: nat, op0: nat, anchor0: nat, ip0: nat, match0: nat,
                     ghost len0: nat, ghost qs0: seq<Sequence>, ghost w: Work, ghost fs0: seq<Find>, ghost f0: Find)
    returns (op: nat, ip: nat, ghost qs: seq<Sequence>, ghost fs: seq<Find>)
    requires op0 <= dst.Length && |src| + |src| / 255 + 16 <= dst.Length && table as object != dst
    requires Supported(|src|, tableType) && forall w :: hash(w) < table.Length
    requires Pending(dst[..op0], qs0, src, anchor0, ip0, token0)
    requires match0 < ip0 <= match0 + DISTANCE_MAX && ip0 + MFLIMIT <= |src|
    requires 4 <= len0 && ip0 + len0 + LASTLITERALS <= |src| && Same(src, ip0, match0, len0)
    requires Below(table, ip0 + len0 - 3)
    requires w.src == src && w.hash == hash && w.tableType == tableType
    requires Greedy(w, fs0) && Starts(w, fs0, f0) && table[..] == Looked(w, fs0, f0)
    requires f0.start == ip0 && f0.from == match0 && Ended(fs0) == anchor0 <= ip0 && qs0 == Sequences(src, fs0)
    modifies dst, table
    ensures Greedy(w, fs) && fs != [] && qs == Sequences(src, fs) && Ended(fs) == ip
    ensures !Over(src, fs) ==> !NextUsable(w, fs) && table[..] == Ready(w, fs)
    ensures op <= dst.Length && Emitted(dst[..op], qs, src, ip)
    ensures ip0 + len0 <= ip && (ip + MFLIMIT <= |src| ==> Below(table, ip + 1))
  {
    hide Same, Emitted, Pending, Greedy, Starts, Looked, Before, Ready, NextUsable, Usable, Sequences, Recorded, Below;
    var token: nat, anchor: nat, match_: nat := token0, anchor0, match0;
    ghost var len: nat := len0;
    ghost var f := f0;
    op, ip, qs, fs := op0, ip0, qs0, fs0;
    while true
      invariant op <= dst.Length && Pending(dst[..op], qs, src, anchor, ip, token)
      invariant match_ < ip <= match_ + DISTANCE_MAX && ip + MFLIMIT <= |src|
      invariant 4 <= len && ip + len + LASTLITERALS <= |src| && Same(src, ip, match_, len)
      invariant Below(table, ip + len - 3) && ip0 + len0 <= ip + len
      invariant Greedy(w, fs) && Starts(w, fs, f) && table[..] == Looked(w, fs, f)
      invariant f.start == ip && f.from == match_ && Ended(fs) == anchor <= ip && qs == Sequences(src, fs)
      decreases |src| - ip
    {
      ghost var start := ip;
      op, ip, qs := EmitMatch(src, dst, token, op, anchor, ip, match_, len, qs);
      MatchTaken(w, fs, f, anchor, start, match_, ip);
      fs, f := fs + [f.(end := ip)], f.(end := ip);
      anchor := ip;
      if ip + MFLIMIT > |src| { return; }
      BelowMore(table, start + len - 3, ip - 1);
      RecordedIs(w, table[..], ip - 2);
      var found;
      found, match_ := NextMatch(src, table, hash, tableType, ip);
      RecordedIs(w, Before(w, fs), ip);
      NextTested(w, fs, ip, table[..], match_, found);
      if !found { return; }
      f := Find(true, 0, ip, match_, 0);
      ghost var out := dst[..op];
      NothingPending(out, qs, src, ip);
      token := op;
      dst[op] := 0;
      op := op + 1;
      assert dst[..op] == out + [0];
      len := 4;
    }
  }

  lemma BelowMore(table: array<nat>, a: nat, b: nat)
    requires Below(table, a) && a <= b
    ensures Below(table, b)
  {
  }

  /** A match emitted to its end. */
  lemma MatchTaken(w: Work, fs: seq<Find>, f: Find, anchor: nat, start: nat, from: nat, end: nat)
    requires Greedy(w, fs) && Starts(w, fs, f) && f.start == start && f.from == from && Ended(fs) == anchor <= start
    requires from < start && start + MINMATCH <= end && end + LASTLITERALS <= |w.src| && Same(w.src, start, from, end - start)
    requires end == |w.src| - LASTLITERALS || w.src[end] != w.src[end - start + from]
    ensures var g := f.(end := end);
            && Greedy(w, fs + [g]) && Ended(fs + [g]) == end
            && Sequences(w.src, fs + [g]) == Sequences(w.src, fs) + [Sequence(w.src[anchor..start], start - from, end - start)]
            && Before(w, fs + [g]) == Recorded(w, Looked(w, fs, f), end - 2)
  {
    hide Starts, Greedy, Looked, Same, Before, Sequences;
    StartsAnyEnd(w, fs, f, end);
    GreedySnoc(w, fs, f.(end := end));
  }

  lemma RecordedIs(w: Work, t: seq<nat>, p: nat)
    requires p + 8 <= |w.src| && HashAt(w.src, p, w.hash, w.tableType) < |t|
    ensures Recorded(w, t, p) == t[HashAt(w.src, p, w.hash, w.tableType) := p]
    ensures HasSlot(HuntAfter(w, []), p, |t|)
  {
  }

  /** The two positions recorded and the test of the second. */
  lemma NextTested(w: Work, fs: seq<Find>, ip: nat, table: seq<nat>, candidate: nat, found: bool)
    requires fs != [] && Ended(fs) == ip && !Over(w.src, fs) && HasSlot(HuntAfter(w, []), ip, |Before(w, fs)|)
    requires var t, h := Before(w, fs), HashAt(w.src, ip, w.hash, w.tableType);
             table == t[h := ip] && candidate == t[h] && (found <==> Usable(t, Hunt(w.src, w.hash, w.tableType, ip, 1), ip))
    ensures table == Ready(w, fs) && found == NextUsable(w, fs)
    ensures found ==> Starts(w, fs, Find(true, 0, ip, candidate, 0)) && table == Looked(w, fs, Find(true, 0, ip, candidate, 0))
  {
    hide Before, Same;
  }

  /** Literals up to a match found, then the matches. */
  method EmitFound(src: seq<byte>, dst: array<byte>, table: array<nat>, hash: seq<byte> -> nat, tableType: TableType,
                   op0: nat, anchor: nat, start: nat, from: nat, ghost len: nat, ghost qs0: seq<Sequence>,
                   ghost w: Work, ghost fs0: seq<Find>, ghost f0: Find)
    returns (op: nat, ip: nat, ghost qs: seq<Sequence>, ghost fs: seq<Find>)
    requires op0 <= dst.Length && |src| + |src| / 255 + 16 <= dst.Length && table as object != dst
    requires Supported(|src|, tableType) && forall w :: hash(w) < table.Length
    requires Emitted(dst[..op0], qs0, src, anchor) && anchor <= start
    requires from < start <= from + DISTANCE_MAX && start + MFLIMIT <= |src|
    requires 4 <= len && start + len + LASTLITERALS <= |src| && Same(src, start, from, len) && Below(table, start + len - 3)
    requires w.src == src && w.hash == hash && w.tableType == tableType
    requires Greedy(w, fs0) && Starts(w, fs0, f0) && table[..] == Looked(w, fs0, f0)
    requires f0.start == start && f0.from == from && Ended(fs0) == anchor && qs0 == Sequences(src, fs0)
    modifies dst, table
    ensures Greedy(w, fs) && fs != [] && qs == Sequences(src, fs) && Ended(fs) == ip
    ensures !Over(src, fs) ==> !NextUsable(w, fs) && table[..] == Ready(w, fs)
    ensures op <= dst.Length && Emitted(dst[..op], qs, src, ip)
    ensures start + len <= ip && (ip + MFLIMIT <= |src| ==> Below(table, ip + 1))
  {
    hide Same, Emitted, Pending, LiteralPart, LengthBytes, Greedy, Starts, Looked, NextUsable, Ready, Sequences, Over;
    ghost var out := dst[..op0];
    EmittedRoom(out, qs0, src, anchor, start);
    LiteralsPending(out, qs0, src, anchor, start);
    op := WriteLiterals(src, dst, op0, anchor, start);
    op, ip, qs, fs := EmitMatches(src, dst, table, hash, tableType, op0, op, anchor, start, from, len, qs0, w, fs0, f0);
  }

  /** The search loop: literals up to each match found, then the matches. */
  method EmitSequences(src: seq<byte>, dst: array<byte>, table: array<nat>, hash: seq<byte> -> nat, tableType: TableType,
                       acceleration: nat, ghost w: Work)
    returns (op: nat, anchor: nat, ghost qs: seq<Sequence>, ghost fs: seq<Find>)
    requires |src| + |src| / 255 + 16 <= dst.Length && table as object != dst
    requires MIN_LENGTH <= |src| && Supported(|src|, tableType) && forall w :: hash(w) < table.Length
    requires acceleration >= 1 && Below(table, 1) && w == Work(src, hash, tableType, acceleration, table[..])
    modifies dst, table
    ensures op <= dst.Length && Emitted(dst[..op], qs, src, anchor)
    ensures Greedy(w, fs) && Finished(w, fs) && qs == Sequences(src, fs) && anchor == Ended(fs)
  {
    hide Same, Usable, Missed;
    PutIndex(table, HashAt(src, 0, hash, tableType), 0, tableType);
    op, anchor, qs, fs := 0, 0, [], [];
    var ip: nat := 1;
    assert Emitted(dst[..op], qs, src, anchor);
    hide Emitted, Pending, LiteralPart, LengthBytes;
    assert Greedy(w, fs) && table[..] == Ready(w, fs) && !NextUsable(w, fs) && !Over(src, fs);
    hide Greedy, Ready, Before, NextUsable, Sequences, Starts, Looked, Widened, FindsAt, Exhausts, TableAfter, Over;
    while true
      invariant 1 <= ip && anchor <= ip && ip + MFLIMIT - 1 <= |src| && Below(table, ip)
      invariant op <= dst.Length && Emitted(dst[..op], qs, src, anchor)
      invariant Greedy(w, fs) && table[..] == Ready(w, fs) && !NextUsable(w, fs) && !Over(src, fs)
      invariant qs == Sequences(src, fs) && anchor == Ended(fs) && ip == anchor + 1
      decreases |src| - ip
    {
      var found, start, from, len, k := FindWidened(src, table, hash, tableType, acceleration, anchor, ip);
      if !found { return; }
      SearchFound(w, fs, k, start, from);
      op, ip, qs, fs := EmitFound(src, dst, table, hash, tableType, op, anchor, start, from, len, qs, w, fs,
                                  Find(false, k, start, from, 0));
      anchor := ip;
      OverIs(src, fs);
      if ip + MFLIMIT > |src| { return; }
      ip := ip + 1;
    }
  }

  lemma OverIs(src: seq<byte>, fs: seq<Find>)
    ensures Over(src, fs) <==> fs != [] && Ended(fs) + MFLIMIT > |src|
  {
  }

  lemma SearchFound(w: Work, fs: seq<Find>, k: nat, start: nat, from: nat)
    requires !NextUsable(w, fs) && !Over(w.src, fs) && FindsAt(Ready(w, fs), HuntAfter(w, fs), k)
    requires Widened(w.src, Ended(fs), PosAt(Ended(fs) + 1, w.acceleration, k), Namesake(Ready(w, fs), HuntAfter(w, fs), k),
                     start, from)
    ensures Starts(w, fs, Find(false, k, start, from, 0))
    ensures Looked(w, fs, Find(false, k, start, from, 0)) == TableAfter(Ready(w, fs), HuntAfter(w, fs), k + 1)
  {
    hide NextUsable, Ready, FindsAt, Widened, Namesake, TableAfter;
  }

  method WriteLast(src: seq<byte>, dst: array<byte>, op0: nat, anchor: nat) returns (op: nat)
    requires anchor <= |src|
    requires op0 + |EncodeFinal(src[anchor..])| <= dst.Length
    modifies dst
    ensures op == op0 + |EncodeFinal(src[anchor..])|
    ensures dst[..op] == old(dst[..op0]) + EncodeFinal(src[anchor..])
  {
    hide LengthBytes, Token;
    var lastRun := |src| - anchor;
    op := WriteToken(dst, op0, lastRun);
    ghost var out := dst[..op];
    MemcpyFrom(dst, op, src, anchor, lastRun);
    op := op + lastRun;
    assert dst[..op] == out + src[anchor..];
  }

  lemma EmittedThenLast(out: seq<byte>, qs: seq<Sequence>, src: seq<byte>, anchor: nat)
    requires Emitted(out, qs, src, anchor)
    ensures anchor <= |src| && ValidBlock(out + EncodeFinal(src[anchor..]), src)
    ensures |out + EncodeFinal(src[anchor..])| <= |src| + |src| / 255 + 2
  {
    var lits := src[anchor..];
    assert src[..anchor] + lits == src;
    SpelledBlockIsValid(qs, src[..anchor], lits);
    LengthBytesAtMost(|lits|);
    FloorAdd(anchor, |lits|);
    hide ValidBlock, Spells;
  }

  /** Compress `src` into `dst`; the result is the number of bytes written, 0 when the size is not
      supported. `table` is the index table of a fresh stream. */
  method CompressGeneric(src: seq<byte>, dst: array<byte>, table: array<nat>, hash: seq<byte> -> nat,
                         tableType: TableType, acceleration: nat)
    returns (result: nat, ghost fs: seq<Find>)
    requires CompressBound(|src|) <= dst.Length && table as object != dst
    requires forall w :: hash(w) < table.Length
    requires forall h :: 0 <= h < table.Length ==> table[h] == 0
    requires acceleration >= 1
    modifies dst, table
    ensures result == 0 <==> !Supported(|src|, tableType)
    ensures result != 0 ==> result <= |src| + |src| / 255 + 2 && result <= dst.Length
    ensures result != 0 ==> ValidBlock(dst[..result], src)
    ensures result != 0 ==>
              var w := Work(src, hash, tableType, acceleration, old(table[..]));
              && Greedy(w, fs) && Finished(w, fs) && AllEncodable(Sequences(src, fs)) && Ended(fs) <= |src|
              && dst[..result] == EncodeSequences(Sequences(src, fs)) + EncodeFinal(src[Ended(fs)..])
    ensures src == [] ==> result == 1 && dst[..1] == [0]
  {
    hide EncodeFinal, ValidBlock, Emitted, Greedy, Finished, Sequences, EncodeSequences;
    fs := [];
    if |src| > MAX_INPUT_SIZE { return 0, fs; }
    if tableType == ByU16 && |src| >= LIMIT_64K { return 0, fs; }
    var op: nat, anchor: nat := 0, 0;
    ghost var qs := [];
    ghost var w := Work(src, hash, tableType, acceleration, table[..]);
    NothingEmitted(dst[..op], src);
    NothingFound(w);
    if |src| >= MIN_LENGTH {
      op, anchor, qs, fs := EmitSequences(src, dst, table, hash, tableType, acceleration, w);
    }
    EmittedIs(dst[..op], qs, src, anchor);
    EmittedThenLast(dst[..op], qs, src, anchor);
    FinalSize(src[anchor..]);
    ghost var out := dst[..op];
    result := WriteLast(src, dst, op, anchor);
    if src == [] { assert src[anchor..] == [] && out + [0] == [0]; }
  }

  lemma EmittedIs(out: seq<byte>, qs: seq<Sequence>, src: seq<byte>, anchor: nat)
    requires Emitted(out, qs, src, anchor)
    ensures anchor <= |src| && AllEncodable(qs) && out == EncodeSequences(qs)
  {
    hide Spells, EncodeSequences;
  }

  /** Too short a source is not searched at all. */
  lemma NothingFound(w: Work)
    ensures Greedy(w, []) && Sequences(w.src, []) == [] && Ended([]) == 0
    ensures |w.src| < MIN_LENGTH ==> Finished(w, [])
  {
    hide Before, Ready, Missed;
    assert PosAt(1, w.acceleration, 1) == PosAt(1, w.acceleration, 0) + StepAt(w.acceleration, 0) == 2;
    if |w.src| < MIN_LENGTH { assert Exhausts(Ready(w, []), HuntAfter(w, []), 0); }
  }

  lemma FinalSize(lits: seq<byte>)
    ensures |EncodeFinal(lits)| > 0 && (lits == [] ==> EncodeFinal(lits) == [0])
  {
  }
}
