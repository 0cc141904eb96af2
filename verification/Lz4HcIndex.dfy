/** The hash-chain index of LZ4 HC.

    Positions are inserted one by one; a slot of 16 bits leads from each to the one before it with the
    same key, and is reused 65536 positions later. The theorem is that following the chain from any
    key nevertheless visits exactly the inserted positions with that key that are in reach. */
module Lz4HcIndex {

  const MAXD := 65536
  const MAX_DISTANCE := 65535
  const ONE_GB := 0x4000_0000

  function Slot(p: nat): (s: nat)
    ensures s < MAXD
  {
    p % MAXD
  }

  lemma SlotsDiffer(p: nat, q: nat)
    requires p < q < p + MAXD
    ensures Slot(p) != Slot(q)
  {
  }

  predicate ValidChain(chain: seq<nat>) {
    |chain| == MAXD && forall k :: 0 <= k < MAXD ==> 1 <= chain[k] <= MAX_DISTANCE
  }

  /** The link of `p` skips no position with its key, and leads to one unless it was cut short or
      leaves the positions from `start` on. */
  ghost predicate Linked(chain: seq<nat>, key: nat -> nat, start: nat, p: nat)
    requires ValidChain(chain)
  {
    var d := chain[Slot(p)];
    && (forall q :: start <= q < p < q + d ==> key(q) != key(p))
    && (d < MAX_DISTANCE && start <= p - d ==> key(p - d) == key(p))
  }

  /** Links of all positions whose slot has not been reused yet. */
  ghost predicate Links(chain: seq<nat>, key: nat -> nat, start: nat, next: nat)
    requires ValidChain(chain)
  {
    forall p :: start <= p < next <= p + MAXD ==> Linked(chain, key, start, p)
  }

  /** `last` is the latest position with key `h`, or lies before `start` if there is none. */
  ghost predicate Latest(last: nat, key: nat -> nat, start: nat, next: nat, h: nat) {
    && last < next
    && (last >= start ==> key(last) == h)
    && (forall p :: start <= p < next && key(p) == h ==> p <= last)
  }

  ghost predicate Heads(heads: seq<nat>, key: nat -> nat, start: nat, next: nat) {
    forall h :: 0 <= h < |heads| ==> Latest(heads[h], key, start, next, h)
  }

  class HcIndex {
    const hashTable: array<nat>
    const chainTable: array<nat>
    var nextToUpdate: nat

    ghost predicate Valid(key: nat -> nat, start: nat)
      reads this, hashTable, chainTable
    {
      && MAXD <= start <= nextToUpdate && hashTable != chainTable
      && (forall p :: key(p) < hashTable.Length)
      && ValidChain(chainTable[..])
      && Heads(hashTable[..], key, start, nextToUpdate)
      && Links(chainTable[..], key, start, nextToUpdate)
    }

    /** Positions start at 65536, so that the zero of an empty slot is before all of them. */
    constructor (hashSize: nat)
      ensures fresh(hashTable) && fresh(chainTable) && hashTable.Length == hashSize && nextToUpdate == MAXD
      ensures forall key: nat -> nat :: (forall p :: key(p) < hashSize) ==> Valid(key, MAXD)
    {
      hashTable := new nat[hashSize](i => 0);
      chainTable := new nat[MAXD](i => 0xFFFF);
      nextToUpdate := MAXD;
    }

    /** LZ4HC_init_internal: a new source, `used` positions after the old base. Tables are kept, unless
        positions grew too large. */
    method Restart(used: nat, ghost oldKey: nat -> nat, ghost oldStart: nat) returns (start: nat)
      requires Valid(oldKey, oldStart) && nextToUpdate <= used
      modifies this, hashTable, chainTable
      ensures start == nextToUpdate
      ensures forall key: nat -> nat :: (forall p :: key(p) < hashTable.Length) ==> Valid(key, start)
    {
      var offset := used;
      if offset > ONE_GB {
        forall i | 0 <= i < hashTable.Length { hashTable[i] := 0; }
        forall i | 0 <= i < chainTable.Length { chainTable[i] := 0xFFFF; }
        offset := 0;
      }
      offset := offset + MAXD;
      nextToUpdate, start := offset, offset;
    }

    /** LZ4HC_Insert: chain in every position up to `target`. */
    method Insert(key: nat -> nat, target: nat, ghost start: nat)
      requires Valid(key, start) && nextToUpdate <= target
      modifies this, hashTable, chainTable
      ensures Valid(key, start) && nextToUpdate == target
    {
      var idx: nat := nextToUpdate;
      while idx < target
        invariant nextToUpdate <= idx <= target && nextToUpdate == old(nextToUpdate)
        invariant ValidChain(chainTable[..]) && Heads(hashTable[..], key, start, idx)
        invariant Links(chainTable[..], key, start, idx)
      {
        var h := key(idx);
        ghost var heads, chain := hashTable[..], chainTable[..];
        assert Latest(heads[h], key, start, idx, h);
        var delta: nat := idx - hashTable[h];
        if delta > MAX_DISTANCE { delta := MAX_DISTANCE; }
        chainTable[Slot(idx)] := delta;
        hashTable[h] := idx;
        HeadsGrow(heads, key, start, idx);
        LinksGrow(heads[h], chain, key, start, idx);
        assert hashTable[..] == heads[h := idx] && chainTable[..] == chain[Slot(idx) := delta];
        idx := idx + 1;
      }
      nextToUpdate := target;
    }
  }

  lemma HeadsGrow(heads: seq<nat>, key: nat -> nat, start: nat, idx: nat)
    requires start <= idx && key(idx) < |heads| && Heads(heads, key, start, idx)
    ensures Heads(heads[key(idx) := idx], key, start, idx + 1)
  {
    var more := heads[key(idx) := idx];
    forall h | 0 <= h < |heads| ensures Latest(more[h], key, start, idx + 1, h) {
      assert Latest(heads[h], key, start, idx, h);
    }
  }

  function Delta(last: nat, idx: nat): (d: nat)
    requires last < idx
    ensures 1 <= d <= MAX_DISTANCE
  {
    if idx - last > MAX_DISTANCE then MAX_DISTANCE else idx - last
  }

  lemma LinksGrow(last: nat, chain: seq<nat>, key: nat -> nat, start: nat, idx: nat)
    requires ValidChain(chain) && start <= idx && Links(chain, key, start, idx)
    requires Latest(last, key, start, idx, key(idx))
    ensures var more := chain[Slot(idx) := Delta(last, idx)];
            ValidChain(more) && Links(more, key, start, idx + 1)
  {
    var more := chain[Slot(idx) := Delta(last, idx)];
    forall p | start <= p < idx + 1 <= p + MAXD ensures Linked(more, key, start, p) {
      if p < idx {
        SlotsDiffer(p, idx);
        assert Linked(chain, key, start, p);
      }
    }
  }

  // ---------------------------------------------------------------- following a chain

  /** The positions met from `i` on, down to `lowest`. */
  function Walk(chain: seq<nat>, i: nat, lowest: nat): seq<nat>
    requires ValidChain(chain) && MAXD <= lowest
    decreases i
  {
    if i < lowest then [] else [i] + Walk(chain, i - chain[Slot(i)], lowest)
  }

  /** The positions from `lo` up to `hi` with key `h`, latest first. */
  function Candidates(key: nat -> nat, h: nat, lo: nat, hi: nat): (r: seq<nat>)
    ensures forall i :: 0 <= i < |r| ==> lo <= r[i] < hi
    decreases hi
  {
    if hi <= lo then []
    else if key(hi - 1) == h then [hi - 1] + Candidates(key, h, lo, hi - 1)
    else Candidates(key, h, lo, hi - 1)
  }

  lemma {:induction false} CandidatesGap(key: nat -> nat, h: nat, lo: nat, mid: nat, hi: nat)
    requires mid <= hi && forall q :: lo <= q && mid <= q < hi ==> key(q) != h
    ensures Candidates(key, h, lo, hi) == Candidates(key, h, lo, mid)
    decreases hi
  {
    if lo < hi && mid < hi { CandidatesGap(key, h, lo, mid, hi - 1); }
  }

  lemma {:induction false} CandidatesSplit(key: nat -> nat, h: nat, lo: nat, mid: nat, hi: nat)
    requires lo <= mid <= hi
    ensures Candidates(key, h, lo, hi) == Candidates(key, h, mid, hi) + Candidates(key, h, lo, mid)
    decreases hi
  {
    if mid < hi {
      CandidatesSplit(key, h, lo, mid, hi - 1);
    } else {
      assert Candidates(key, h, mid, mid) == [];
    }
  }

  /** A position with the key is one candidate more. */
  lemma CandidatesMore(key: nat -> nat, h: nat, p: nat, mid: nat, hi: nat)
    requires p < mid <= hi && key(p) == h
    ensures |Candidates(key, h, p, hi)| >= 1 + |Candidates(key, h, mid, hi)|
  {
    CandidatesSplit(key, h, p, mid, hi);
    CandidatesAre(key, h, p, mid);
    assert p in Candidates(key, h, p, mid);
  }

  /** The first candidate is the latest position with the key. */
  lemma FirstIsLatest(key: nat -> nat, h: nat, start: nat, lo: nat, hi: nat, last: nat)
    requires start <= lo && Latest(last, key, start, hi, h)
    ensures Candidates(key, h, lo, hi) != [] <==> lo <= last
    ensures lo <= last ==> Candidates(key, h, lo, hi)[0] == last
  {
    var c := Candidates(key, h, lo, hi);
    CandidatesAre(key, h, lo, hi);
    if c != [] { assert c[0] in c; }
    if lo <= last { assert last in c; }
  }

  predicate Decreasing(s: seq<nat>) {
    forall i, j :: 0 <= i < j < |s| ==> s[j] < s[i]
  }

  /** `Candidates` holds exactly the positions wanted, the latest first. */
  lemma {:induction false} CandidatesAre(key: nat -> nat, h: nat, lo: nat, hi: nat)
    ensures forall p :: p in Candidates(key, h, lo, hi) <==> lo <= p < hi && key(p) == h
    ensures Decreasing(Candidates(key, h, lo, hi))
    decreases hi
  {
    if lo < hi {
      CandidatesAre(key, h, lo, hi - 1);
      var rest := Candidates(key, h, lo, hi - 1);
      forall i | 0 <= i < |rest| ensures rest[i] < hi - 1 {
        assert rest[i] in rest;
      }
    }
  }

  lemma {:induction false} WalkFrom(chain: seq<nat>, key: nat -> nat, start: nat, next: nat, lowest: nat, i: nat, h: nat)
    requires ValidChain(chain) && Links(chain, key, start, next)
    requires MAXD <= start <= lowest && next <= lowest + MAX_DISTANCE
    requires i < next && (i >= lowest ==> key(i) == h)
    ensures Walk(chain, i, lowest) == Candidates(key, h, lowest, i + 1)
    decreases i
  {
    if i >= lowest {
      assert Linked(chain, key, start, i);
      var d := chain[Slot(i)];
      WalkFrom(chain, key, start, next, lowest, i - d, h);
      CandidatesGap(key, h, lowest, i - d + 1, i);
    }
  }

  /** `lowestMatchIndex`: as far back as an offset reaches, and not before the source. */
  function LowestIndex(start: nat, ip: nat): (r: nat)
    requires start <= ip
    ensures start <= r <= ip
  {
    if start + MAXD > ip then start else ip - MAX_DISTANCE
  }

  /** From the head of any key, the chain meets exactly the positions with that key in reach of `ip`. */
  lemma ChainIsComplete(index: HcIndex, key: nat -> nat, start: nat, ip: nat, h: nat)
    requires index.Valid(key, start) && index.nextToUpdate == ip && h < index.hashTable.Length
    ensures Walk(index.chainTable[..], index.hashTable[h], LowestIndex(start, ip))
         == Candidates(key, h, LowestIndex(start, ip), ip)
    ensures ip - LowestIndex(start, ip) <= MAX_DISTANCE
  {
    var heads := index.hashTable[..];
    var lowest, first := LowestIndex(start, ip), heads[h];
    assert Latest(first, key, start, ip, h);
    WalkFrom(index.chainTable[..], key, start, ip, lowest, first, h);
    CandidatesGap(key, h, lowest, first + 1, ip);
  }
}
