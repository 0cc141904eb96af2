/** The match search of LZ4 HC: wider matches through the hash chains, with analysis of repeated
    patterns and a swap to better chains. One prefix, no dictionary.

    Addresses are positions in the source; index `i` of the tables is position `i - start`. */
module Lz4HcSearch {
  import opened Lz4Format
  import opened Lz4Compress
  import opened Lz4HcIndex

  lemma SameNone(src: seq<byte>, i: nat, j: nat)
    requires i <= |src| && j <= |src|
    ensures Same(src, i, j, 0)
  {
  }

  /** A stretch inside equal stretches is equal. */
  lemma SameInside(src: seq<byte>, s: nat, j: nat, n: nat, x: nat, k: nat)
    requires s + n <= |src| && j + n <= |src| && Same(src, s, j, n)
    requires s <= x && x + k <= s + n
    ensures Same(src, x, x - s + j, k)
    ensures k > 0 ==> src[x] == src[x - s + j]
  {
    hide Same;
    SameJoin(src, s, j, x - s, n - (x - s));
    SameJoin(src, x, x - s + j, k, n - (x - s) - k);
    if k > 0 { SameHead(src, x, x - s + j, k); }
  }

  // ---------------------------------------------------------------- matches

  /** `src[s..e]` repeats what stands `ip - m` before it, and takes in the four bytes at `ip`. */
  predicate Through(src: seq<byte>, ip: nat, m: nat, s: nat, e: nat) {
    && m < ip && ip - m <= s <= ip && ip + MINMATCH <= e <= |src|
    && Same(src, s, s - (ip - m), e - s)
  }

  /** No match between the limits that goes through `ip` and `m` is longer than `longest`. */
  ghost predicate NoLonger(src: seq<byte>, ip: nat, m: nat, iLow: nat, iHigh: nat, longest: nat) {
    forall s: nat, e: nat :: Through(src, ip, m, s, e) && iLow <= s && e <= iHigh ==> e - s <= longest
  }

  /** A match that a sequence can be made of. */
  ghost predicate Genuine(src: seq<byte>, iLow: nat, iHigh: nat, s: nat, at: nat, len: nat) {
    && iLow <= s && s + len <= iHigh <= |src| && MINMATCH <= len
    && at < s <= at + DISTANCE_MAX
    && Same(src, s, at, len)
  }

  // ---------------------------------------------------------------- backwards

  /** LZ4HC_countBack, as a count: equal bytes before `ip` and `m`, down to `iMin` and position 0. */
  method CountBack(src: seq<byte>, ip: nat, m: nat, iMin: nat) returns (back: nat)
    requires m < ip <= |src| && iMin <= ip
    ensures back <= ip - iMin && back <= m && Same(src, ip - back, m - back, back)
    ensures back == ip - iMin || back == m || src[ip - back - 1] != src[m - back - 1]
  {
    hide Same;
    back := 0;
    SameNone(src, ip, m);
    var min := if ip - iMin < m then ip - iMin else m;
    while back < min && src[ip - back - 1] == src[m - back - 1]
      invariant back <= min && Same(src, ip - back, m - back, back)
    {
      SameByte(src, ip - back - 1, m - back - 1);
      SameJoin(src, ip - back - 1, m - back - 1, 1, back);
      back := back + 1;
    }
  }

  // ---------------------------------------------------------------- repeated patterns

  /** `n` bytes from `p` on repeat the four bytes of `pattern`. */
  predicate Repeating(src: seq<byte>, p: nat, n: nat, pattern: seq<byte>)
    requires |pattern| == 4 && p + n <= |src|
  {
    forall k :: 0 <= k < n ==> src[p + k] == pattern[k % 4]
  }

  lemma RepeatingJoin(src: seq<byte>, p: nat, n: nat, c: nat, pattern: seq<byte>)
    requires |pattern| == 4 && n % 4 == 0 && p + n + c <= |src|
    requires Repeating(src, p, n, pattern)
    requires forall k :: 0 <= k < c ==> src[p + n + k] == pattern[k % 4]
    ensures Repeating(src, p, n + c, pattern) && (n + c) % 4 == c % 4
  {
    forall k | n <= k < n + c ensures src[p + k] == pattern[k % 4] {
      SamePhase(n, k - n);
      assert src[p + n + (k - n)] == pattern[(k - n) % 4];
    }
    SamePhase(n, c);
  }

  lemma SamePhase(n: nat, d: nat)
    requires n % 4 == 0
    ensures (n + d) % 4 == d % 4
  {
  }

  /** LZ4HC_countPattern: how long the pattern goes on from `ip`, eight bytes at a time, then one by one. */
  method CountPattern(src: seq<byte>, ip0: nat, iEnd: nat, pattern: seq<byte>) returns (n: nat)
    requires |pattern| == 4 && ip0 <= iEnd <= |src|
    ensures ip0 + n <= iEnd && Repeating(src, ip0, n, pattern)
    ensures ip0 + n < iEnd ==> src[ip0 + n] != pattern[n % 4]
  {
    hide CommonWithPattern;
    n := 0;
    while ip0 + n + 7 < iEnd
      invariant ip0 + n <= iEnd && n % 4 == 0 && Repeating(src, ip0, n, pattern)
      decreases iEnd - n
    {
      var c := CommonWithPattern(src, ip0 + n, pattern);
      RepeatingJoin(src, ip0, n, c, pattern);
      n := n + c;
      if c < 8 { return; }
    }
    while ip0 + n < iEnd && src[ip0 + n] == pattern[n % 4]
      invariant ip0 + n <= iEnd && Repeating(src, ip0, n, pattern)
    {
      n := n + 1;
    }
  }

  /** Leading bytes of a word equal to the doubled pattern. */
  function CommonWithPattern(src: seq<byte>, p: nat, pattern: seq<byte>): (c: nat)
    requires |pattern| == 4 && p + 8 <= |src|
    ensures c <= 8 && (forall k :: 0 <= k < c ==> src[p + k] == pattern[k % 4])
    ensures c < 8 ==> src[p + c] != pattern[c % 4]
  {
    if src[p] != pattern[0] then 0
    else if src[p + 1] != pattern[1] then 1
    else if src[p + 2] != pattern[2] then 2
    else if src[p + 3] != pattern[3] then 3
    else if src[p + 4] != pattern[0] then 4
    else if src[p + 5] != pattern[1] then 5
    else if src[p + 6] != pattern[2] then 6
    else if src[p + 7] != pattern[3] then 7
    else 8
  }

  /** `n` bytes before `p` repeat the pattern, its last byte right before `p`. */
  predicate RepeatingBack(src: seq<byte>, p: nat, n: nat, pattern: seq<byte>)
    requires |pattern| == 4 && n <= p <= |src|
  {
    forall i :: p - n <= i < p ==> src[i] == pattern[3 - (p - 1 - i) % 4]
  }

  lemma FourthDiffers(src: seq<byte>, q: nat, pattern: seq<byte>)
    requires |pattern| == 4 && 4 <= q <= |src| && src[q - 4..q] != pattern
    requires src[q - 1] == pattern[3] && src[q - 2] == pattern[2] && src[q - 3] == pattern[1]
    ensures src[q - 4] != pattern[0]
  {
    var w := src[q - 4..q];
    assert w == [src[q - 4], src[q - 3], src[q - 2], src[q - 1]];
    assert pattern == [pattern[0], pattern[1], pattern[2], pattern[3]];
  }

  lemma WordBefore(src: seq<byte>, q: nat, pattern: seq<byte>)
    requires |pattern| == 4 && 4 <= q <= |src| && src[q - 4..q] == pattern
    ensures forall i :: q - 4 <= i < q ==> src[i] == pattern[4 - (q - i)]
  {
    forall i | q - 4 <= i < q ensures src[i] == pattern[4 - (q - i)] {
      assert src[i] == src[q - 4..q][i - (q - 4)];
    }
  }

  /** The last bytes, fewer than a word: `byteIndex` never leaves the pattern. */
  method ReverseTail(src: seq<byte>, q: nat, iLow: nat, pattern: seq<byte>) returns (n: nat)
    requires |pattern| == 4 && q <= |src| && (q >= iLow + 4 ==> src[q - 4..q] != pattern)
    ensures n <= 3 && n <= q && (n > 0 ==> iLow + n <= q)
    ensures forall i :: q - n <= i < q ==> src[i] == pattern[4 - (q - i)]
    ensures iLow + n < q ==> src[q - 1 - n] != pattern[3 - n]
  {
    n := 0;
    var byteIndex := 3;
    while q > iLow + n && src[q - n - 1] == pattern[byteIndex]
      invariant n <= 3 && n <= q && (n > 0 ==> iLow + n <= q) && byteIndex == 3 - n
      invariant forall i :: q - n <= i < q ==> src[i] == pattern[4 - (q - i)]
      decreases 3 - n
    {
      if n == 3 {
        FourthDiffers(src, q, pattern);
      }
      n := n + 1;
      byteIndex := byteIndex - 1;
    }
  }

  lemma NoneBack(src: seq<byte>, p: nat, pattern: seq<byte>)
    requires |pattern| == 4 && p <= |src|
    ensures RepeatingBack(src, p, 0, pattern)
  {
  }

  lemma Residue(n: nat, d: nat)
    requires n % 4 == 0 && d < 4
    ensures (n + d) % 4 == d
  {
  }

  lemma BackJoin(src: seq<byte>, p: nat, n: nat, more: nat, pattern: seq<byte>)
    requires |pattern| == 4 && n % 4 == 0 && n + more <= p <= |src| && more <= 4
    requires RepeatingBack(src, p, n, pattern)
    requires forall i :: p - n - more <= i < p - n ==> src[i] == pattern[4 - (p - n - i)]
    ensures RepeatingBack(src, p, n + more, pattern)
  {
    forall i | p - n - more <= i < p - n ensures src[i] == pattern[3 - (p - 1 - i) % 4] {
      Residue(n, p - n - 1 - i);
    }
  }

  /** LZ4HC_reverseCountPattern: how long the pattern goes on backwards, not below `iLow`. */
  method ReverseCountPattern(src: seq<byte>, ip: nat, iLow: nat, pattern: seq<byte>) returns (n: nat)
    requires |pattern| == 4 && ip <= |src|
    ensures n <= ip && (n > 0 ==> iLow + n <= ip) && RepeatingBack(src, ip, n, pattern)
    ensures iLow + n < ip ==> src[ip - 1 - n] != pattern[3 - n % 4]
  {
    hide RepeatingBack;
    var q := ip;
    NoneBack(src, ip, pattern);
    while q >= iLow + 4 && src[q - 4..q] == pattern
      invariant q <= ip && (q < ip ==> iLow <= q) && (ip - q) % 4 == 0 && RepeatingBack(src, ip, ip - q, pattern)
    {
      WordBefore(src, q, pattern);
      BackJoin(src, ip, ip - q, 4, pattern);
      q := q - 4;
    }
    var more := ReverseTail(src, q, iLow, pattern);
    BackJoin(src, ip, ip - q, more, pattern);
    Residue(ip - q, more);
    n := ip - q + more;
  }

  // ---------------------------------------------------------------- one candidate

  /** The two bytes that would make a match longer differ: there is none. */
  lemma FilterIsSound(src: seq<byte>, ip: nat, m: nat, iLow: nat, iHigh: nat, longest: nat)
    requires m < ip && iLow <= ip < iLow + longest && iLow + longest < |src|
    requires !Same(src, iLow + longest - 1, iLow + longest - 1 - (ip - m), 2)
    ensures NoLonger(src, ip, m, iLow, iHigh, longest)
  {
    hide Same;
    var x, d := iLow + longest - 1, ip - m;
    forall s: nat, e: nat | Through(src, ip, m, s, e) && iLow <= s && e <= iHigh ensures e - s <= longest {
      if e - s > longest { SameInside(src, s, s - d, e - s, x, 2); }
    }
  }

  lemma FourDiffer(src: seq<byte>, ip: nat, m: nat, iLow: nat, iHigh: nat, longest: nat)
    requires m < ip && ip + MINMATCH <= |src| && !Same(src, ip, m, MINMATCH)
    ensures NoLonger(src, ip, m, iLow, iHigh, longest)
  {
    hide Through;
    forall s: nat, e: nat ensures !Through(src, ip, m, s, e) {
      if Through(src, ip, m, s, e) { ThroughHasFour(src, ip, m, s, e); }
    }
  }

  lemma ThroughHasFour(src: seq<byte>, ip: nat, m: nat, s: nat, e: nat)
    requires Through(src, ip, m, s, e)
    ensures Same(src, ip, m, MINMATCH)
  {
    hide Same;
    SameInside(src, s, s - (ip - m), e - s, ip, MINMATCH);
  }

  /** A match that can grow neither way is the longest through its candidate. */
  lemma MaximalIsLongest(src: seq<byte>, ip: nat, m: nat, iLow: nat, iHigh: nat, back: nat, r: nat)
    requires m < ip && iLow <= ip && ip + MINMATCH <= r <= iHigh <= |src| && back <= m && back <= ip - iLow
    requires back == ip - iLow || back == m || src[ip - back - 1] != src[m - back - 1]
    requires r == iHigh || src[r] != src[r - (ip - m)]
    ensures NoLonger(src, ip, m, iLow, iHigh, r - ip + back)
  {
    hide Same;
    var d := ip - m;
    forall s: nat, e: nat | Through(src, ip, m, s, e) && iLow <= s && e <= iHigh ensures e - s <= r - ip + back {
      if e > r { SameInside(src, s, s - d, e - s, r, 1); }
      if s < ip - back { SameInside(src, s, s - d, e - s, ip - back - 1, 1); }
    }
  }

  /** Compare with the candidate `m`: first the two bytes that decide, then all. */
  method TryCandidate(src: seq<byte>, ip: nat, m: nat, iLow: nat, iHigh: nat, longest: nat)
    returns (matchLength: nat, s: nat, at: nat)
    requires m < ip <= m + DISTANCE_MAX && ip + MINMATCH <= iHigh < |src|
    requires iLow <= ip < iLow + longest && iLow + longest <= iHigh
    ensures matchLength > 0 ==> s <= ip && Genuine(src, iLow, iHigh, s, at, matchLength)
    ensures iLow == ip ==> s == ip && at == m
    ensures NoLonger(src, ip, m, iLow, iHigh, if matchLength > longest then matchLength else longest)
  {
    hide Same;
    var lookBack := ip - iLow;
    matchLength, s, at := 0, ip, m;
    if !Same(src, iLow + longest - 1, m - lookBack + longest - 1, 2) {
      FilterIsSound(src, ip, m, iLow, iHigh, longest);
      return;
    }
    if !Same(src, ip, m, MINMATCH) {
      FourDiffer(src, ip, m, iLow, iHigh, longest);
      return;
    }
    var back: nat := 0;
    SameNone(src, ip, m);
    if lookBack > 0 { back := CountBack(src, ip, m, iLow); }
    var r := Count(src, ip + MINMATCH, m + MINMATCH, iHigh);
    SameJoin(src, ip, m, MINMATCH, r - (ip + MINMATCH));
    SameJoin(src, ip - back, m - back, back, r - ip);
    MaximalIsLongest(src, ip, m, iLow, iHigh, back, r);
    matchLength, s, at := r - ip + back, ip - back, m - back;
    LongerStill(src, ip, m, iLow, iHigh, matchLength, longest);
  }

  lemma LongerStill(src: seq<byte>, ip: nat, m: nat, iLow: nat, iHigh: nat, a: nat, b: nat)
    requires NoLonger(src, ip, m, iLow, iHigh, a)
    ensures a <= b ==> NoLonger(src, ip, m, iLow, iHigh, b)
  {
    hide Through;
  }

  // ---------------------------------------------------------------- a better chain

  /** The link of the position `p` behind index `i`. */
  function LinkOf(chain: seq<nat>, i: nat, p: nat): nat
    requires ValidChain(chain)
  {
    chain[Slot(i + p)]
  }

  /** Among the positions of a match, the first of those whose links lead furthest back. */
  method SelectChain(chainTable: array<nat>, matchIndex: nat, longest: nat) returns (distance: nat, pos: nat)
    requires ValidChain(chainTable[..])
    ensures 1 <= distance <= MAX_DISTANCE
    ensures forall p: nat :: p + MINMATCH <= longest ==> LinkOf(chainTable[..], matchIndex, p) <= distance
    ensures forall p: nat :: p < pos ==> LinkOf(chainTable[..], matchIndex, p) < distance
    ensures distance > 1 ==> pos + MINMATCH <= longest && LinkOf(chainTable[..], matchIndex, pos) == distance
  {
    distance, pos := 1, 0;
    var p: nat := 0;
    while p + MINMATCH <= longest
      invariant 1 <= distance <= MAX_DISTANCE && pos <= p
      invariant p == 0 || p + MINMATCH <= longest + 1
      invariant forall q: nat :: q < p ==> LinkOf(chainTable[..], matchIndex, q) <= distance
      invariant forall q: nat :: q < pos ==> LinkOf(chainTable[..], matchIndex, q) < distance
      invariant if distance == 1 then pos == 0 else pos < p && LinkOf(chainTable[..], matchIndex, pos) == distance
    {
      var candidateDist := chainTable[Slot(matchIndex + p)];
      assert candidateDist == LinkOf(chainTable[..], matchIndex, p);
      if candidateDist > distance { distance, pos := candidateDist, p; }
      p := p + 1;
    }
  }

  // ---------------------------------------------------------------- a repeated byte

  /** All of `src[p..p + n]` is `b`. */
  predicate AllByte(src: seq<byte>, p: nat, n: nat, b: byte) {
    p + n <= |src| && forall i :: p <= i < p + n ==> src[i] == b
  }

  lemma AllByteSame(src: seq<byte>, p: nat, q: nat, n: nat, b: byte)
    requires AllByte(src, p, n, b) && AllByte(src, q, n, b)
    ensures Same(src, p, q, n)
  {
    var x, y := src[p..p + n], src[q..q + n];
    forall k | 0 <= k < n ensures x[k] == y[k] {
      assert x[k] == src[p + k] && y[k] == src[q + k];
    }
  }

  /** Four bytes, pairwise alike: the test on half words and on first and last byte. */
  predicate OneByte(pattern: seq<byte>)
    requires |pattern| == 4
  {
    pattern[..2] == pattern[2..] && pattern[0] == pattern[3]
  }

  lemma OneByteMeans(pattern: seq<byte>)
    requires |pattern| == 4
    ensures OneByte(pattern) <==> forall k :: 0 <= k < 4 ==> pattern[k] == pattern[0]
  {
    var x, y := pattern[..2], pattern[2..];
    assert x == y <==> x[0] == y[0] && x[1] == y[1];
  }

  /** The run of the pattern's byte from `p` on, the word at `p` known to be the pattern. */
  method ForwardRun(src: seq<byte>, p: nat, iHigh: nat, pattern: seq<byte>) returns (n: nat)
    requires p + 4 <= iHigh <= |src| && src[p..p + 4] == pattern && OneByte(pattern)
    ensures 4 <= n && p + n <= iHigh && AllByte(src, p, n, pattern[0])
    ensures p + n < iHigh ==> src[p + n] != pattern[0]
  {
    OneByteMeans(pattern);
    var more := CountPattern(src, p + 4, iHigh, pattern);
    n := more + 4;
    forall i | p <= i < p + n ensures src[i] == pattern[0] {
      if i < p + 4 {
        assert src[i] == src[p..p + 4][i - p];
      } else {
        assert src[p + 4 + (i - p - 4)] == pattern[(i - p - 4) % 4];
      }
    }
  }

  method BackwardRun(src: seq<byte>, p: nat, iLow: nat, pattern: seq<byte>) returns (n: nat)
    requires |pattern| == 4 && p <= |src| && OneByte(pattern)
    ensures n <= p && (n > 0 ==> iLow + n <= p) && AllByte(src, p - n, n, pattern[0])
  {
    OneByteMeans(pattern);
    n := ReverseCountPattern(src, p, iLow, pattern);
  }

  lemma AllByteJoin(src: seq<byte>, p: nat, n: nat, k: nat, b: byte)
    requires AllByte(src, p, n, b) && AllByte(src, p + n, k, b)
    ensures AllByte(src, p, n + k, b)
  {
  }

  lemma AllByteLess(src: seq<byte>, p: nat, n: nat, k: nat, b: byte)
    requires AllByte(src, p, n, b) && k <= n
    ensures AllByte(src, p, k, b)
  {
  }

  // ---------------------------------------------------------------- the search

  /** The key of a table index: the hash of the four bytes there. */
  function KeyOf(src: seq<byte>, start: nat, hash: seq<byte> -> nat): nat -> nat {
    (i: nat) => if start <= i && i - start + 4 <= |src| then hash(src[i - start..i - start + 4]) else hash([])
  }

  datatype Repeat = Untested | NoRepeat | Confirmed

  /** The best match so far. */
  datatype Best = Best(longest: nat, at: nat, s: nat)

  /** Nothing found yet, or a genuine match. */
  ghost predicate Sound(src: seq<byte>, iLow: nat, iHigh: nat, ip: nat, longest0: nat, best: Best) {
    && longest0 <= best.longest && iLow + best.longest <= iHigh
    && (best.longest > longest0 ==> best.s <= ip && Genuine(src, iLow, iHigh, best.s, best.at, best.longest))
  }

  /** Compare with the candidate at index `matchIndex`, unless it is too close for a fast decoder. */
  method Consider(src: seq<byte>, start: nat, ip: nat, matchIndex: nat, iLow: nat, iHigh: nat, favorDecSpeed: bool,
                  best0: Best, ghost longest0: nat)
    returns (matchLength: nat, best: Best)
    requires start <= matchIndex < ip + start <= matchIndex + MAX_DISTANCE && ip + MINMATCH <= iHigh < |src|
    requires iLow <= ip < iLow + longest0 && Sound(src, iLow, iHigh, ip, longest0, best0)
    ensures Sound(src, iLow, iHigh, ip, longest0, best) && best0.longest <= best.longest
    ensures iLow == ip ==> Matches(src, ip, matchIndex - start, matchLength)
    ensures !favorDecSpeed || ip + start - matchIndex >= 8 ==> NoLonger(src, ip, matchIndex - start, iLow, iHigh, best.longest)
  {
    hide NoLonger;
    matchLength, best := 0, best0;
    SameNone(src, ip, matchIndex - start);
    if !favorDecSpeed || ip + start - matchIndex >= 8 {
      var s, at;
      matchLength, s, at := TryCandidate(src, ip, matchIndex - start, iLow, iHigh, best.longest);
      if matchLength > best.longest { best := Best(matchLength, at, s); }
    }
  }

  /** The `n` bytes at `ip` are those at `m`. */
  ghost predicate Matches(src: seq<byte>, ip: nat, m: nat, n: nat) {
    m < ip && ip + n <= |src| && Same(src, ip, m, n)
  }

  // ---------------------------------------------------------------- nothing is overlooked

  /** Candidates in reach have all been considered, down to `matchIndex`. */
  ghost predicate Covered(src: seq<byte>, start: nat, ip: nat, iLow: nat, iHigh: nat, matchIndex: nat, longest: nat) {
    forall m: nat :: m < ip <= m + MAX_DISTANCE && m + start > matchIndex ==> NoLonger(src, ip, m, iLow, iHigh, longest)
  }

  /** No match in reach, through any earlier position, is longer. */
  ghost predicate Longest(src: seq<byte>, ip: nat, iLow: nat, iHigh: nat, longest: nat) {
    forall m: nat :: m < ip <= m + MAX_DISTANCE ==> NoLonger(src, ip, m, iLow, iHigh, longest)
  }

  /** How far a search that overlooks nothing has come: `i` is the next candidate, met on the chain of the
      position `pos` behind it. Matches longer than `longest` have the bytes of `ip + pos` there. */
  ghost predicate Searching(src: seq<byte>, start: nat, hash: seq<byte> -> nat, ip: nat, iLow: nat, iHigh: nat,
                            i: nat, pos: nat, longest: nat)
  {
    var key := KeyOf(src, start, hash);
    && ip + pos + MINMATCH <= |src| && (pos > 0 ==> iLow == ip && pos + MINMATCH <= longest)
    && (i >= LowestIndex(start, ip + start) ==> i + pos < ip + start && key(i + pos) == key(ip + start + pos))
    && Covered(src, start, ip, iLow, iHigh, i, longest)
  }

  /** Another key `pos` behind the candidate: other bytes there. */
  lemma KeyDiffers(src: seq<byte>, start: nat, hash: seq<byte> -> nat, ip: nat, m: nat, iLow: nat, iHigh: nat,
                   pos: nat, longest: nat)
    requires m < ip && ip + pos + MINMATCH <= |src| && (pos > 0 ==> iLow == ip && pos + MINMATCH <= longest)
    requires KeyOf(src, start, hash)(m + start + pos) != KeyOf(src, start, hash)(ip + start + pos)
    ensures NoLonger(src, ip, m, iLow, iHigh, longest)
  {
    if pos == 0 {
      FourDiffer(src, ip, m, iLow, iHigh, longest);
    } else {
      assert !Same(src, ip + pos, m + pos, MINMATCH);
      hide Same, KeyOf;
      forall s: nat, e: nat | Through(src, ip, m, s, e) && iLow <= s && e <= iHigh ensures e - s <= longest {
        if e - s > longest { SameInside(src, s, m, e - s, ip + pos, MINMATCH); }
      }
    }
  }

  lemma SearchStart(src: seq<byte>, start: nat, hash: seq<byte> -> nat, ip: nat, iLow: nat, iHigh: nat, last: nat,
                    longest: nat)
    requires ip + MINMATCH <= |src|
    requires Latest(last, KeyOf(src, start, hash), start, ip + start, KeyOf(src, start, hash)(ip + start))
    ensures Searching(src, start, hash, ip, iLow, iHigh, last, 0, longest)
  {
    hide KeyOf, NoLonger;
    forall m: nat | m < ip <= m + MAX_DISTANCE && m + start > last ensures NoLonger(src, ip, m, iLow, iHigh, longest) {
      KeyDiffers(src, start, hash, ip, m, iLow, iHigh, 0, longest);
    }
  }

  /** One link further: what it jumps over has another key. */
  lemma SearchNext(src: seq<byte>, start: nat, hash: seq<byte> -> nat, ip: nat, iLow: nat, iHigh: nat,
                   chain: seq<nat>, i: nat, pos: nat, longest: nat)
    requires MAXD <= start && LowestIndex(start, ip + start) <= i < ip + start
    requires ValidChain(chain) && Links(chain, KeyOf(src, start, hash), start, ip + start)
    requires Searching(src, start, hash, ip, iLow, iHigh, i, pos, longest) && NoLonger(src, ip, i - start, iLow, iHigh, longest)
    ensures chain[Slot(i + pos)] <= i && Searching(src, start, hash, ip, iLow, iHigh, i - chain[Slot(i + pos)], pos, longest)
  {
    hide KeyOf, NoLonger;
    var key, p := KeyOf(src, start, hash), i + pos;
    assert Linked(chain, key, start, p);
    var j: nat := i - chain[Slot(p)];
    forall m: nat | m < ip <= m + MAX_DISTANCE && m + start > j ensures NoLonger(src, ip, m, iLow, iHigh, longest) {
      if m + start < i {
        assert key(m + start + pos) != key(p);
        KeyDiffers(src, start, hash, ip, m, iLow, iHigh, pos, longest);
      }
    }
  }

  lemma SearchLonger(src: seq<byte>, start: nat, hash: seq<byte> -> nat, ip: nat, iLow: nat, iHigh: nat,
                     i: nat, pos: nat, longest0: nat, longest: nat)
    requires Searching(src, start, hash, ip, iLow, iHigh, i, pos, longest0) && longest0 <= longest
    ensures Searching(src, start, hash, ip, iLow, iHigh, i, pos, longest)
  {
    hide KeyOf, NoLonger;
    forall m: nat | m < ip <= m + MAX_DISTANCE && m + start > i ensures NoLonger(src, ip, m, iLow, iHigh, longest) {
      LongerStill(src, ip, m, iLow, iHigh, longest0, longest);
    }
  }

  /** At a match of the length of the best, any position in it will do to go on from. */
  lemma SearchSwaps(src: seq<byte>, start: nat, hash: seq<byte> -> nat, ip: nat, iHigh: nat, i: nat, pos: nat,
                    longest: nat, pos': nat)
    requires Searching(src, start, hash, ip, ip, iHigh, i, pos, longest) && start <= i && i + longest <= ip + start
    requires Matches(src, ip, i - start, longest) && pos' + MINMATCH <= longest
    ensures Searching(src, start, hash, ip, ip, iHigh, i, pos', longest)
  {
    hide NoLonger, Covered, Same;
    SameInside(src, ip, i - start, longest, ip + pos', MINMATCH);
    SameKey(src, start, hash, ip + pos', i - start + pos');
  }

  lemma SameKey(src: seq<byte>, start: nat, hash: seq<byte> -> nat, p: nat, q: nat)
    requires p + MINMATCH <= |src| && q + MINMATCH <= |src| && Same(src, p, q, MINMATCH)
    ensures KeyOf(src, start, hash)(p + start) == KeyOf(src, start, hash)(q + start)
  {
  }

  lemma SearchEnds(src: seq<byte>, start: nat, hash: seq<byte> -> nat, ip: nat, iLow: nat, iHigh: nat, i: nat,
                   pos: nat, longest: nat)
    requires Searching(src, start, hash, ip, iLow, iHigh, i, pos, longest) && i < LowestIndex(start, ip + start)
    ensures Longest(src, ip, iLow, iHigh, longest)
  {
    hide KeyOf, NoLonger;
  }

  // ---------------------------------------------------------------- leaping over a segment

  /** A run of `n` bytes `b` from `p` on that ends by `iHigh` or before. */
  ghost predicate RunAt(src: seq<byte>, p: nat, n: nat, b: byte, iHigh: nat) {
    p + n <= iHigh <= |src| && AllByte(src, p, n, b) && (p + n < iHigh ==> src[p + n] != b)
  }

  /** Two runs of different lengths match as far as the shorter one. */
  lemma RunsMatch(src: seq<byte>, ip: nat, q: nat, iHigh: nat, n: nat, rem: nat, b: byte)
    requires q < ip && RunAt(src, ip, n, b, iHigh) && RunAt(src, q, rem, b, iHigh) && n != rem
    ensures NoLonger(src, ip, q, ip, iHigh, if rem < n then rem else n)
  {
    hide Same;
    var least := if rem < n then rem else n;
    forall s: nat, e: nat | Through(src, ip, q, s, e) && ip <= s && e <= iHigh ensures e - s <= least {
      if e - s > least { SameInside(src, ip, q, e - s, ip + least, 1); }
    }
  }

  /** Candidates from `lo` on in the segment `[m, e)` of the byte `b`. */
  lemma SegmentMatches(src: seq<byte>, start: nat, ip: nat, iHigh: nat, n: nat, b: byte, m: nat, e: nat, lo: nat, c: nat,
                       longest0: nat, longest: nat)
    requires RunAt(src, ip, n, b, iHigh) && m <= c < ip && m <= e && m <= lo <= c + 1 && RunAt(src, m, e - m, b, iHigh)
    requires c <= e && longest0 <= longest && Covered(src, start, ip, ip, iHigh, c + start, longest0)
    requires (e - lo < n && (e - lo <= longest || n <= longest)) || (c + n < e && n <= longest)
    ensures forall q: nat :: q < ip <= q + MAX_DISTANCE && lo <= q ==> NoLonger(src, ip, q, ip, iHigh, longest)
  {
    hide NoLonger;
    forall q: nat | q < ip <= q + MAX_DISTANCE && lo <= q ensures NoLonger(src, ip, q, ip, iHigh, longest) {
      if q > c {
        LongerStill(src, ip, q, ip, iHigh, longest0, longest);
      } else {
        assert RunAt(src, q, e - q, b, iHigh);
        RunsMatch(src, ip, q, iHigh, n, e - q, b);
        LongerStill(src, ip, q, ip, iHigh, if e - q < n then e - q else n, longest);
      }
    }
  }

  /** A match of `longest` bytes is to be had from candidate `i`. */
  ghost predicate Owed(src: seq<byte>, start: nat, ip: nat, iHigh: nat, i: nat, longest: nat) {
    && LowestIndex(start, ip + start) <= i && MINMATCH <= longest && ip + longest <= iHigh
    && Matches(src, ip, i - start, longest)
  }

  lemma OwedIsPaid(src: seq<byte>, start: nat, ip: nat, iHigh: nat, i: nat, owed: nat, longest: nat)
    requires Owed(src, start, ip, iHigh, i, owed) && NoLonger(src, ip, i - start, ip, iHigh, longest)
    ensures owed <= longest
  {
    hide Same;
    assert Through(src, ip, i - start, ip, ip + owed);
  }

  /** What the analysis of a repeated byte decides: where to search on, or to stop, and perhaps a match. */
  datatype Leap = Leap(stop: bool, matchIndex: nat, longest: nat, at: nat)

  /** The search goes on at `i` without having overlooked anything, except what `i` itself will yield. */
  ghost predicate Resumes(src: seq<byte>, start: nat, hash: seq<byte> -> nat, ip: nat, iHigh: nat, i: nat,
                          longest: nat, owed: nat) {
    && longest <= owed && Searching(src, start, hash, ip, ip, iHigh, i, 0, owed)
    && (longest < owed ==> Owed(src, start, ip, iHigh, i, owed))
  }

  /** The leap to the place in the segment where as much of the run is left as at `ip`. */
  lemma LeapInside(src: seq<byte>, start: nat, hash: seq<byte> -> nat, ip: nat, iHigh: nat, n: nat, b: byte, m: nat,
                   e: nat, c: nat, longest: nat)
    requires m <= c < ip && c + MINMATCH <= e && MINMATCH <= n
    requires RunAt(src, ip, n, b, iHigh) && RunAt(src, m, e - m, b, iHigh)
    requires m + n <= e <= c + n && Covered(src, start, ip, ip, iHigh, c + start, longest)
    requires m == c || LowestIndex(start, ip + start) <= m + start
    ensures Resumes(src, start, hash, ip, iHigh, e - n + start, longest, if longest < n && e - n < c then n else longest)
  {
    hide NoLonger, AllByte, KeyOf, Covered;
    var q := e - n;
    var owed := if longest < n && q < c then n else longest;
    assert AllByte(src, q, n, b) by { AllByteInside(src, m, e - m, q, n, b); }
    AllByteSame(src, ip, q, n, b);
    SameInside(src, ip, q, n, ip, MINMATCH);
    SameKey(src, start, hash, ip, q);
    if q < c { SegmentMatches(src, start, ip, iHigh, n, b, m, e, q + 1, c, longest, owed); }
    CoveredFrom(src, start, ip, iHigh, q, longest, owed, c);
  }

  lemma AllByteInside(src: seq<byte>, p: nat, n: nat, q: nat, k: nat, b: byte)
    requires AllByte(src, p, n, b) && p <= q && q + k <= p + n
    ensures AllByte(src, q, k, b)
  {
  }

  lemma CoveredFrom(src: seq<byte>, start: nat, ip: nat, iHigh: nat, q: nat, longest: nat, owed: nat, c: nat)
    requires q < c ==> forall m: nat :: m < ip <= m + MAX_DISTANCE && q + 1 <= m ==> NoLonger(src, ip, m, ip, iHigh, owed)
    requires q >= c ==> q == c && owed == longest && Covered(src, start, ip, ip, iHigh, c + start, longest)
    ensures Covered(src, start, ip, ip, iHigh, q + start, owed)
  {
    hide NoLonger;
  }

  /** The leap to the first place of the segment, where all of it is ahead, and one link further. */
  lemma LeapBehind(src: seq<byte>, start: nat, hash: seq<byte> -> nat, ip: nat, iHigh: nat, n: nat, b: byte, m: nat,
                   e: nat, c: nat,
                   longest0: nat, longest: nat, chain: seq<nat>)
    requires m <= c < ip && c + MINMATCH <= e && MINMATCH <= n
    requires RunAt(src, ip, n, b, iHigh) && RunAt(src, m, e - m, b, iHigh) && (e - m < n || c + n < e)
    requires Covered(src, start, ip, ip, iHigh, c + start, longest0)
    requires longest0 <= longest && (e - m <= longest || n <= longest)
    requires MAXD <= start && LowestIndex(start, ip + start) <= m + start
    requires ValidChain(chain) && Links(chain, KeyOf(src, start, hash), start, ip + start)
    ensures Searching(src, start, hash, ip, ip, iHigh, m + start - chain[Slot(m + start)], 0, longest)
  {
    hide NoLonger, AllByte, KeyOf;
    AllByteInside(src, m, e - m, m, MINMATCH, b);
    AllByteInside(src, ip, n, ip, MINMATCH, b);
    AllByteSame(src, ip, m, MINMATCH, b);
    SameKey(src, start, hash, ip, m);
    SegmentMatches(src, start, ip, iHigh, n, b, m, e, m, c, longest0, longest);
    SearchNext(src, start, hash, ip, ip, iHigh, chain, m + start, 0, longest);
  }

  /** The source repeats one byte for `srcLength` bytes from `ip`, and so does the word at `c`: leap to the
      place in that segment with the longest match, or behind the segment. When matches start at `ip` only,
      nothing longer is leapt over. */
  method LeapOver(src: seq<byte>, chainTable: array<nat>, start: nat, ip: nat, iLow: nat, iHigh: nat,
                  pattern: seq<byte>, srcLength: nat, c: nat, longest: nat, ghost hash: seq<byte> -> nat, ghost exact: bool)
    returns (leap: Leap, ghost owed: nat)
    requires ValidChain(chainTable[..]) && MAXD <= start
    requires |pattern| == 4 && OneByte(pattern) && ip + 4 <= iHigh <= |src|
    requires 4 <= srcLength && RunAt(src, ip, srcLength, pattern[0], iHigh)
    requires c < ip && src[c..c + 4] == pattern && iLow <= ip
    requires exact ==> iLow == ip && Links(chainTable[..], KeyOf(src, start, hash), start, ip + start)
    requires exact ==> Covered(src, start, ip, iLow, iHigh, c + start, longest) && LowestIndex(start, ip + start) <= c + start + 1
    ensures leap.matchIndex <= c + start && leap.longest >= longest
    ensures leap.longest > longest ==> iLow == ip && Genuine(src, iLow, iHigh, ip, leap.at, leap.longest)
    ensures exact ==> Resumes(src, start, hash, ip, iHigh, leap.matchIndex, leap.longest, owed)
    ensures exact && leap.stop ==> leap.matchIndex < LowestIndex(start, ip + start)
  {
    hide AllByte, OneByte, KeyOf, Links;
    assert chainTable.Length == MAXD;
    var forwardLength := ForwardRun(src, c, iHigh, pattern);
    var lowest := if MAX_DISTANCE >= ip then 0 else ip - MAX_DISTANCE;
    var backLength := BackwardRun(src, c, lowest, pattern);
    var segment := backLength + forwardLength;
    var m := c - backLength;
    AllByteJoin(src, m, backLength, forwardLength, pattern[0]);
    if segment >= srcLength && forwardLength <= srcLength {
      leap := Leap(false, c + start + forwardLength - srcLength, longest, ip);
      if exact { LeapInside(src, start, hash, ip, iHigh, srcLength, pattern[0], m, m + segment, c, longest); }
      owed := if longest < srcLength && c + forwardLength - srcLength < c then srcLength else longest;
      return;
    }
    leap := Leap(false, m + start, longest, ip);
    owed := longest;
    if iLow == ip {
      var maxML := if segment < srcLength then segment else srcLength;
      if longest < maxML {
        if ip - m > MAX_DISTANCE {
          if exact { BelowReach(src, start, hash, ip, iHigh, c, c + start, longest, longest); }
          return leap.(stop := true), owed;
        }
        AllByteLess(src, m, segment, maxML, pattern[0]);
        AllByteLess(src, ip, srcLength, maxML, pattern[0]);
        AllByteSame(src, ip, m, maxML, pattern[0]);
        leap := leap.(longest := maxML, at := m);
        owed := maxML;
      }
      var dist := chainTable[Slot(m + start)];
      assert dist == chainTable[..][Slot(m + start)];
      if dist > m + start { return leap.(stop := true), owed; }
      leap := leap.(matchIndex := m + start - dist);
      if exact {
        if LowestIndex(start, ip + start) <= m + start {
          LeapBehind(src, start, hash, ip, iHigh, srcLength, pattern[0], m, m + segment, c, longest, leap.longest, chainTable[..]);
        } else {
          BelowReach(src, start, hash, ip, iHigh, c, leap.matchIndex, longest, leap.longest);
        }
      }
    }
  }

  lemma BelowReach(src: seq<byte>, start: nat, hash: seq<byte> -> nat, ip: nat, iHigh: nat, c: nat, i: nat,
                   longest0: nat, longest: nat)
    requires Covered(src, start, ip, ip, iHigh, c + start, longest0) && longest0 <= longest
    requires c + start < LowestIndex(start, ip + start) && i <= c + start && ip + MINMATCH <= |src|
    ensures Resumes(src, start, hash, ip, iHigh, i, longest, longest)
  {
    hide NoLonger;
    forall m: nat | m < ip <= m + MAX_DISTANCE && m + start > i ensures NoLonger(src, ip, m, ip, iHigh, longest) {
      LongerStill(src, ip, m, ip, iHigh, longest0, longest);
    }
  }

  // ---------------------------------------------------------------- the loop

  /** Settings under which the search overlooks nothing on its way: no preference for fast decoding, and
      patterns analysed only where matches start at `ip`. */
  ghost predicate Thorough(ip: nat, iLow: nat, patternAnalysis: bool, favorDecSpeed: bool) {
    !favorDecSpeed && (patternAnalysis ==> iLow == ip)
  }

  /** The same with an attempt for every position in reach. */
  ghost predicate Exact(ip: nat, iLow: nat, maxNbAttempts: nat, patternAnalysis: bool, favorDecSpeed: bool) {
    Thorough(ip, iLow, patternAnalysis, favorDecSpeed) && maxNbAttempts >= MAXD
  }

  /** The positions in reach with the key of `ip`, latest first. */
  function Chain(src: seq<byte>, start: nat, hash: seq<byte> -> nat, ip: nat): (r: seq<nat>)
    ensures forall i :: 0 <= i < |r| ==> start <= r[i] < ip + start
  {
    Candidates(KeyOf(src, start, hash), KeyOf(src, start, hash)(ip + start), LowestIndex(start, ip + start), ip + start)
  }

  /** Through the first `n` candidates of the chain no match is longer. */
  ghost predicate FirstTried(src: seq<byte>, start: nat, hash: seq<byte> -> nat, ip: nat, iLow: nat, iHigh: nat, n: nat,
                             longest: nat) {
    var c := Chain(src, start, hash, ip);
    forall k :: 0 <= k < |c| && k < n ==> NoLonger(src, ip, c[k] - start, iLow, iHigh, longest)
  }

  /** Through the `n` positions right before `ip` no match is longer. */
  ghost predicate NearTried(src: seq<byte>, ip: nat, iLow: nat, iHigh: nat, n: nat, longest: nat) {
    forall m: nat :: m < ip <= m + MAX_DISTANCE && ip <= m + n ==> NoLonger(src, ip, m, iLow, iHigh, longest)
  }

  /** How far `n` attempts get: to the last candidate, if it is not too close for a fast decoder; without shortcuts
      that are not for this search, to all of the last `n` positions; and without changes of chain, to the first
      `n` candidates. */
  ghost predicate Reached(src: seq<byte>, start: nat, hash: seq<byte> -> nat, ip: nat, iLow: nat, iHigh: nat, n: nat,
                          patternAnalysis: bool, chainSwap: bool, favorDecSpeed: bool, longest: nat) {
    var c := Chain(src, start, hash, ip);
    && (n > 0 && c != [] && (!favorDecSpeed || ip + start - c[0] >= 8) ==> FirstTried(src, start, hash, ip, iLow, iHigh, 1, longest))
    && (Thorough(ip, iLow, patternAnalysis, favorDecSpeed) ==> NearTried(src, ip, iLow, iHigh, n, longest))
    && (Thorough(ip, iLow, patternAnalysis, favorDecSpeed) && !chainSwap ==> FirstTried(src, start, hash, ip, iLow, iHigh, n, longest))
  }

  /** Positions from index `seen` on have been tried, `used` of them at least, and as many candidates unless chains
      were changed. */
  ghost predicate Seen(src: seq<byte>, start: nat, hash: seq<byte> -> nat, ip: nat, iLow: nat, iHigh: nat, seen: nat,
                       used: nat, chainSwap: bool, longest: nat) {
    && 0 < seen && seen + used <= ip + start && Covered(src, start, ip, iLow, iHigh, seen - 1, longest)
    && (!chainSwap ==> |Candidates(KeyOf(src, start, hash), KeyOf(src, start, hash)(ip + start), seen, ip + start)| >= used)
  }

  lemma SeenNothing(src: seq<byte>, start: nat, hash: seq<byte> -> nat, ip: nat, iLow: nat, iHigh: nat, chainSwap: bool,
                    longest: nat)
    requires 0 < ip + start
    ensures Seen(src, start, hash, ip, iLow, iHigh, ip + start, 0, chainSwap, longest)
  {
    hide NoLonger, KeyOf;
  }

  /** One more attempt, at index `i`. */
  lemma SeenOneMore(src: seq<byte>, start: nat, hash: seq<byte> -> nat, ip: nat, iLow: nat, iHigh: nat, seen: nat, used: nat,
                    chainSwap: bool, longest0: nat, i: nat, pos: nat, longest: nat)
    requires Seen(src, start, hash, ip, iLow, iHigh, seen, used, chainSwap, longest0) && LowestIndex(start, ip + start) <= i < seen
    requires Searching(src, start, hash, ip, iLow, iHigh, i, pos, longest) && NoLonger(src, ip, i - start, iLow, iHigh, longest)
    requires !chainSwap ==> pos == 0
    requires 0 < i
    ensures Seen(src, start, hash, ip, iLow, iHigh, i, used + 1, chainSwap, longest)
  {
    hide NoLonger, KeyOf;
    var key := KeyOf(src, start, hash);
    if !chainSwap { CandidatesMore(key, key(ip + start), i, seen, ip + start); }
  }

  lemma SeenLonger(src: seq<byte>, start: nat, hash: seq<byte> -> nat, ip: nat, iLow: nat, iHigh: nat, seen: nat, used: nat,
                   chainSwap: bool, longest0: nat, longest: nat)
    requires Seen(src, start, hash, ip, iLow, iHigh, seen, used, chainSwap, longest0) && longest0 <= longest
    ensures Seen(src, start, hash, ip, iLow, iHigh, seen, used, chainSwap, longest)
  {
    hide NoLonger, KeyOf;
    forall m: nat | m < ip <= m + MAX_DISTANCE && m + start > seen - 1 ensures NoLonger(src, ip, m, iLow, iHigh, longest) {
      LongerStill(src, ip, m, iLow, iHigh, longest0, longest);
    }
  }

  lemma InReach(start: nat, ip: nat, i: nat)
    requires LowestIndex(start, ip + start) <= i < ip + start
    ensures start <= i && i - start < ip <= i - start + MAX_DISTANCE
  {
  }

  /** All attempts used up. */
  lemma SeenTells(src: seq<byte>, start: nat, hash: seq<byte> -> nat, ip: nat, iLow: nat, iHigh: nat, seen: nat, used: nat,
                  chainSwap: bool, longest: nat)
    requires Seen(src, start, hash, ip, iLow, iHigh, seen, used, chainSwap, longest)
    requires seen >= LowestIndex(start, ip + start)
    ensures NearTried(src, ip, iLow, iHigh, used, longest)
    ensures !chainSwap ==> FirstTried(src, start, hash, ip, iLow, iHigh, used, longest)
  {
    hide NoLonger, KeyOf, LowestIndex;
    if !chainSwap {
      var key, lowest := KeyOf(src, start, hash), LowestIndex(start, ip + start);
      CandidatesSplit(key, key(ip + start), lowest, seen, ip + start);
      var c := Chain(src, start, hash, ip);
      forall k | 0 <= k < |c| && k < used ensures NoLonger(src, ip, c[k] - start, iLow, iHigh, longest) {
        InReach(start, ip, c[k]);
      }
    }
  }

  /** Nothing in reach is longer at all. */
  lemma LongestTells(src: seq<byte>, start: nat, hash: seq<byte> -> nat, ip: nat, iLow: nat, iHigh: nat, n: nat, longest: nat)
    requires Longest(src, ip, iLow, iHigh, longest)
    ensures NearTried(src, ip, iLow, iHigh, n, longest) && FirstTried(src, start, hash, ip, iLow, iHigh, n, longest)
  {
    hide NoLonger, KeyOf, LowestIndex;
    var c := Chain(src, start, hash, ip);
    forall k | 0 <= k < |c| && k < n ensures NoLonger(src, ip, c[k] - start, iLow, iHigh, longest) {
      InReach(start, ip, c[k]);
    }
  }

  lemma NearIsLongest(src: seq<byte>, ip: nat, iLow: nat, iHigh: nat, n: nat, longest: nat)
    requires NearTried(src, ip, iLow, iHigh, n, longest) && n >= MAXD
    ensures Longest(src, ip, iLow, iHigh, longest)
  {
    hide NoLonger;
  }

  /** The head of the chain is the first candidate. */
  lemma HeadTried(src: seq<byte>, start: nat, hash: seq<byte> -> nat, ip: nat, iLow: nat, iHigh: nat, head: nat, longest: nat)
    requires Latest(head, KeyOf(src, start, hash), start, ip + start, KeyOf(src, start, hash)(ip + start))
    ensures Chain(src, start, hash, ip) != [] <==> LowestIndex(start, ip + start) <= head
    ensures Chain(src, start, hash, ip) != [] ==> Chain(src, start, hash, ip)[0] == head
    ensures LowestIndex(start, ip + start) <= head && NoLonger(src, ip, head - start, iLow, iHigh, longest) ==>
              FirstTried(src, start, hash, ip, iLow, iHigh, 1, longest)
  {
    hide NoLonger, KeyOf, Latest, LowestIndex;
    var key := KeyOf(src, start, hash);
    FirstIsLatest(key, key(ip + start), start, LowestIndex(start, ip + start), ip + start, head);
  }

  /** The chain to follow after a match as long as the best, if another position leads further back. Indices
      start at 65536, so that no link leads below 0. */
  method Swap(chainTable: array<nat>, src: seq<byte>, start: nat, ip: nat, iLow: nat, iHigh: nat, i: nat, pos0: nat,
              longest: nat,
              ghost hash: seq<byte> -> nat, ghost exact: bool)
    returns (swapped: bool, next: nat, pos: nat)
    requires ValidChain(chainTable[..]) && MAXD <= start && LowestIndex(start, ip + start) <= i && i + longest <= ip + start
    requires exact ==> iLow == ip && Links(chainTable[..], KeyOf(src, start, hash), start, ip + start) && i < ip + start
    requires exact ==> Searching(src, start, hash, ip, iLow, iHigh, i, pos0, longest)
    requires exact ==> Matches(src, ip, i - start, longest) && NoLonger(src, ip, i - start, iLow, iHigh, longest)
    ensures !swapped ==> next == i && pos == pos0
    ensures swapped ==> next < i
    ensures swapped && exact ==> Searching(src, start, hash, ip, iLow, iHigh, next, pos, longest)
  {
    hide KeyOf, Links, NoLonger, Searching, Matches;
    swapped, next, pos := false, i, pos0;
    var distance, p := SelectChain(chainTable, i, longest);
    if distance > 1 {
      swapped, next, pos := true, i - distance, p;
      if exact {
        SearchSwaps(src, start, hash, ip, iHigh, i, pos0, longest, p);
        SearchNext(src, start, hash, ip, iLow, iHigh, chainTable[..], i, p, longest);
      }
    }
  }

  /** The first byte of the pattern is known to be repeated at `ip`, for `n` bytes. */
  ghost predicate Confirms(src: seq<byte>, ip: nat, iHigh: nat, pattern: seq<byte>, repeat: Repeat, n: nat)
    requires |pattern| == 4
  {
    repeat == Confirmed ==> OneByte(pattern) && 4 <= n && RunAt(src, ip, n, pattern[0], iHigh)
  }

  /** The analysis of a repeated pattern at candidate `i`, whose link leads to the position before it. */
  method Analyse(chainTable: array<nat>, src: seq<byte>, start: nat, ip: nat, iLow: nat, iHigh: nat,
                 pattern: seq<byte>, i: nat,
                 repeat0: Repeat, srcLength0: nat, best0: Best, ghost longest0: nat, ghost hash: seq<byte> -> nat, ghost exact: bool)
    returns (leapt: bool, stop: bool, next: nat, best: Best, repeat: Repeat, srcLength: nat, ghost owed: nat)
    requires ValidChain(chainTable[..]) && MAXD <= start <= i < ip + start && ip + 4 <= iHigh <= |src| && iLow <= ip
    requires pattern == src[ip..ip + 4] && Confirms(src, ip, iHigh, pattern, repeat0, srcLength0)
    requires Sound(src, iLow, iHigh, ip, longest0, best0)
    requires exact ==> iLow == ip && Links(chainTable[..], KeyOf(src, start, hash), start, ip + start)
    requires exact ==> LowestIndex(start, ip + start) <= i && Searching(src, start, hash, ip, iLow, iHigh, i, 0, best0.longest)
    requires exact ==> NoLonger(src, ip, i - start, iLow, iHigh, best0.longest)
    ensures Confirms(src, ip, iHigh, pattern, repeat, srcLength) && Sound(src, iLow, iHigh, ip, longest0, best)
    ensures if leapt then next < i else next == i && best == best0 && !stop
    ensures best0.longest <= best.longest
    ensures leapt && exact ==> Resumes(src, start, hash, ip, iHigh, next, best.longest, owed)
    ensures stop && exact ==> next < LowestIndex(start, ip + start)
  {
    hide NoLonger, Genuine, KeyOf, Links, Covered, Searching, RunAt, Owed, Sound, AllByte, Resumes;
    leapt, stop, next, best, repeat, srcLength, owed := false, false, i, best0, repeat0, srcLength0, best0.longest;
    if repeat == Untested {
      if OneByte(pattern) {
        repeat := Confirmed;
        srcLength := ForwardRun(src, ip, iHigh, pattern);
        RunIs(src, ip, srcLength, pattern[0], iHigh);
      } else {
        repeat := NoRepeat;
      }
    }
    if repeat == Confirmed && i - 1 >= start && src[i - 1 - start..i + 3 - start] == pattern {
      if exact { CoverThis(src, start, hash, ip, iLow, iHigh, i, best.longest); }
      var leap;
      leap, owed := LeapOver(src, chainTable, start, ip, iLow, iHigh, pattern, srcLength, i - 1 - start, best.longest, hash, exact);
      SoundLeap(src, iLow, iHigh, ip, longest0, best, leap);
      if leap.longest > best.longest { best := Best(leap.longest, leap.at, ip); }
      leapt, stop, next := true, leap.stop, leap.matchIndex;
    }
  }

  /** What the candidate owes is paid by considering it. */
  lemma Settle(src: seq<byte>, start: nat, hash: seq<byte> -> nat, ip: nat, iLow: nat, iHigh: nat, i: nat, pos: nat,
               longest: nat, owed: nat, best: nat)
    requires longest <= owed && longest <= best && Searching(src, start, hash, ip, iLow, iHigh, i, pos, owed)
    requires longest < owed ==> iLow == ip && Owed(src, start, ip, iHigh, i, owed)
    requires start <= i && NoLonger(src, ip, i - start, iLow, iHigh, best)
    ensures Searching(src, start, hash, ip, iLow, iHigh, i, pos, best)
  {
    hide Searching, NoLonger, Owed;
    if longest < owed { OwedIsPaid(src, start, ip, iHigh, i, owed, best); }
    SearchLonger(src, start, hash, ip, iLow, iHigh, i, pos, owed, best);
  }

  /** The search proper, from the candidate `head` on. */
  method Search(chainTable: array<nat>, head: nat, src: seq<byte>, start: nat, ghost hash: seq<byte> -> nat, ip: nat,
                iLow: nat, iHigh: nat,
                longest0: nat, maxNbAttempts: nat, patternAnalysis: bool, chainSwap: bool, favorDecSpeed: bool)
    returns (best: Best)
    requires ValidChain(chainTable[..]) && MAXD <= start && Links(chainTable[..], KeyOf(src, start, hash), start, ip + start)
    requires Latest(head, KeyOf(src, start, hash), start, ip + start, KeyOf(src, start, hash)(ip + start))
    requires ip + MINMATCH <= iHigh < |src| && iLow <= ip < iLow + longest0 && iLow + longest0 <= iHigh
    requires chainSwap ==> iLow == ip
    ensures Sound(src, iLow, iHigh, ip, longest0, best)
    ensures Reached(src, start, hash, ip, iLow, iHigh, maxNbAttempts, patternAnalysis, chainSwap, favorDecSpeed, best.longest)
    ensures Exact(ip, iLow, maxNbAttempts, patternAnalysis, favorDecSpeed) ==> Longest(src, ip, iLow, iHigh, best.longest)
  {
    hide NoLonger, Genuine, KeyOf, Links, Covered, Searching, Longest, Owed, Matches, Sound, Confirms, Seen, FirstTried,
      NearTried, Chain, Latest;
    ghost var exact := Thorough(ip, iLow, patternAnalysis, favorDecSpeed);
    var ipIndex := ip + start;
    var lowestMatchIndex := LowestIndex(start, ipIndex);
    var pattern := src[ip..ip + 4];
    var matchIndex: nat := head;
    var nbAttempts, matchChainPos: nat, repeat, srcPatternLength: nat := maxNbAttempts, 0, Untested, 0;
    best := Best(longest0, ip, ip);
    SoundStart(src, iLow, iHigh, ip, longest0, best);
    NotConfirmed(src, ip, iHigh, pattern);
    ghost var owed, seen: nat := longest0, ipIndex;
    SearchStart(src, start, hash, ip, iLow, iHigh, matchIndex, longest0);
    SeenNothing(src, start, hash, ip, iLow, iHigh, chainSwap, longest0);
    HeadBefore(head, src, start, hash, ip);
    while matchIndex >= lowestMatchIndex && nbAttempts > 0
      invariant matchIndex < seen <= ipIndex && 0 <= nbAttempts <= maxNbAttempts && Sound(src, iLow, iHigh, ip, longest0, best)
      invariant nbAttempts == maxNbAttempts ==> matchIndex == head
      invariant nbAttempts < maxNbAttempts ==> seen >= lowestMatchIndex
      invariant nbAttempts < maxNbAttempts && (!favorDecSpeed || ipIndex - head >= 8) ==>
                  head >= lowestMatchIndex && NoLonger(src, ip, head - start, iLow, iHigh, best.longest)
      invariant Confirms(src, ip, iHigh, pattern, repeat, srcPatternLength)
      invariant !chainSwap ==> matchChainPos == 0
      invariant exact ==> best.longest <= owed && Searching(src, start, hash, ip, iLow, iHigh, matchIndex, matchChainPos, owed)
      invariant exact && best.longest < owed ==> iLow == ip && Owed(src, start, ip, iHigh, matchIndex, owed)
      invariant exact ==> Seen(src, start, hash, ip, iLow, iHigh, seen, maxNbAttempts - nbAttempts, chainSwap, best.longest)
      decreases nbAttempts
    {
      ghost var used := maxNbAttempts - nbAttempts;
      nbAttempts := nbAttempts - 1;
      ghost var longest := best.longest;
      var matchLength;
      matchLength, best := Consider(src, start, ip, matchIndex, iLow, iHigh, favorDecSpeed, best, longest0);
      if head >= lowestMatchIndex { StaysTried(src, ip, head - start, iLow, iHigh, longest, best.longest); }
      if exact {
        Settle(src, start, hash, ip, iLow, iHigh, matchIndex, matchChainPos, longest, owed, best.longest);
        SeenOneMore(src, start, hash, ip, iLow, iHigh, seen, used, chainSwap, longest, matchIndex, matchChainPos, best.longest);
      }
      owed, seen := best.longest, matchIndex;
      if chainSwap && matchLength == best.longest {
        if matchIndex + best.longest <= ipIndex {
          var swapped;
          swapped, matchIndex, matchChainPos :=
            Swap(chainTable, src, start, ip, iLow, iHigh, matchIndex, matchChainPos, best.longest, hash, exact);
          if swapped { continue; }
        }
      }
      if patternAnalysis && chainTable[Slot(matchIndex)] == 1 && matchChainPos == 0 {
        var leapt, stop;
        longest := best.longest;
        leapt, stop, matchIndex, best, repeat, srcPatternLength, owed :=
          Analyse(chainTable, src, start, ip, iLow, iHigh, pattern, matchIndex, repeat, srcPatternLength, best, longest0, hash, exact);
        if exact { SeenLonger(src, start, hash, ip, iLow, iHigh, seen, used + 1, chainSwap, longest, best.longest); }
        if head >= lowestMatchIndex { StaysTried(src, ip, head - start, iLow, iHigh, longest, best.longest); }
        if stop { break; }
        if leapt { continue; }
        owed := best.longest;
      }
      if exact { SearchNext(src, start, hash, ip, iLow, iHigh, chainTable[..], matchIndex, matchChainPos, best.longest); }
      assert chainTable[Slot(matchIndex + matchChainPos)] == chainTable[..][Slot(matchIndex + matchChainPos)];
      matchIndex := matchIndex - chainTable[Slot(matchIndex + matchChainPos)];
    }
    HeadTried(src, start, hash, ip, iLow, iHigh, head, best.longest);
    if exact {
      if matchIndex < lowestMatchIndex {
        NothingOwed(src, start, ip, iHigh, matchIndex, owed);
        SearchEnds(src, start, hash, ip, iLow, iHigh, matchIndex, matchChainPos, best.longest);
        LongestTells(src, start, hash, ip, iLow, iHigh, maxNbAttempts, best.longest);
      } else {
        SeenTells(src, start, hash, ip, iLow, iHigh, seen, maxNbAttempts, chainSwap, best.longest);
      }
      if maxNbAttempts >= MAXD { NearIsLongest(src, ip, iLow, iHigh, maxNbAttempts, best.longest); }
    }
  }

  lemma StaysTried(src: seq<byte>, ip: nat, m: nat, iLow: nat, iHigh: nat, a: nat, b: nat)
    ensures NoLonger(src, ip, m, iLow, iHigh, a) && a <= b ==> NoLonger(src, ip, m, iLow, iHigh, b)
  {
    hide NoLonger;
    if NoLonger(src, ip, m, iLow, iHigh, a) { LongerStill(src, ip, m, iLow, iHigh, a, b); }
  }

  lemma HeadBefore(head: nat, src: seq<byte>, start: nat, hash: seq<byte> -> nat, ip: nat)
    requires Latest(head, KeyOf(src, start, hash), start, ip + start, KeyOf(src, start, hash)(ip + start))
    ensures head < ip + start
  {
    hide KeyOf;
  }

  lemma NotConfirmed(src: seq<byte>, ip: nat, iHigh: nat, pattern: seq<byte>)
    requires |pattern| == 4
    ensures Confirms(src, ip, iHigh, pattern, Untested, 0)
  {
  }

  /** LZ4HC_InsertAndGetWiderMatch. What it finds is genuine under every setting. With an attempt for every
      position in reach nothing in reach is longer, in spite of the leaps and the swapped chains. */
  method WiderMatch(index: HcIndex, src: seq<byte>, start: nat, hash: seq<byte> -> nat, ip: nat, iLow: nat, iHigh: nat,
                    longest0: nat, maxNbAttempts: nat, patternAnalysis: bool, chainSwap: bool, favorDecSpeed: bool)
    returns (best: Best)
    requires index.Valid(KeyOf(src, start, hash), start) && index.nextToUpdate <= ip + start
    requires ip + MINMATCH <= iHigh < |src| && iLow <= ip < iLow + longest0 && iLow + longest0 <= iHigh
    requires chainSwap ==> iLow == ip
    modifies index, index.hashTable, index.chainTable
    ensures index.Valid(KeyOf(src, start, hash), start) && index.nextToUpdate == ip + start
    ensures Sound(src, iLow, iHigh, ip, longest0, best)
    ensures Reached(src, start, hash, ip, iLow, iHigh, maxNbAttempts, patternAnalysis, chainSwap, favorDecSpeed, best.longest)
    ensures Exact(ip, iLow, maxNbAttempts, patternAnalysis, favorDecSpeed) ==> Longest(src, ip, iLow, iHigh, best.longest)
  {
    hide KeyOf, Longest, Sound, Exact, Links, Reached;
    var key := KeyOf(src, start, hash);
    index.Insert(key, ip + start, start);
    var head := index.hashTable[key(ip + start)];
    assert Latest(index.hashTable[..][key(ip + start)], key, start, ip + start, key(ip + start));
    best := Search(index.chainTable, head, src, start, hash, ip, iLow, iHigh, longest0, maxNbAttempts,
                   patternAnalysis, chainSwap, favorDecSpeed);
  }

  lemma NothingOwed(src: seq<byte>, start: nat, ip: nat, iHigh: nat, i: nat, owed: nat)
    ensures i < LowestIndex(start, ip + start) ==> !Owed(src, start, ip, iHigh, i, owed)
  {
  }

  lemma RunIs(src: seq<byte>, p: nat, n: nat, b: byte, iHigh: nat)
    requires p + n <= iHigh <= |src| && AllByte(src, p, n, b) && (p + n < iHigh ==> src[p + n] != b)
    ensures RunAt(src, p, n, b, iHigh)
  {
  }

  lemma CoverThis(src: seq<byte>, start: nat, hash: seq<byte> -> nat, ip: nat, iLow: nat, iHigh: nat, i: nat,
                  longest: nat)
    requires Searching(src, start, hash, ip, iLow, iHigh, i, 0, longest) && start < i && NoLonger(src, ip, i - start, iLow, iHigh, longest)
    ensures Covered(src, start, ip, iLow, iHigh, i - 1, longest)
  {
    hide KeyOf, NoLonger;
  }

  lemma SoundStart(src: seq<byte>, iLow: nat, iHigh: nat, ip: nat, longest0: nat, best: Best)
    requires best.longest == longest0 && iLow + longest0 <= iHigh
    ensures Sound(src, iLow, iHigh, ip, longest0, best)
  {
  }

  lemma SoundLeap(src: seq<byte>, iLow: nat, iHigh: nat, ip: nat, longest0: nat, best: Best, leap: Leap)
    requires Sound(src, iLow, iHigh, ip, longest0, best)
    requires leap.longest > best.longest ==> Genuine(src, iLow, iHigh, ip, leap.at, leap.longest)
    ensures leap.longest > best.longest ==> Sound(src, iLow, iHigh, ip, longest0, Best(leap.longest, leap.at, ip))
  {
    hide Same;
  }
}
