/** Block copies of the LZ4 decoder.

    `WildCopy*` move 8 or 32 bytes at a time and run past the requested end; the `UsingOffset`
    family first spreads a short period over 8 bytes. All of them are stated through `Repeats`:
    the bytes written are those of the byte-wise copy, because they repeat with the period
    `offset` (`Lz4Format.MatchCopyUnique`). */
module Lz4Copy {
  import opened Lz4Format

  function Max(a: int, b: int): int { if a < b then b else a }

  /** From `lo` up to `hi`, every byte equals the one `offset` places before it. */
  ghost predicate Repeats(a: seq<byte>, lo: nat, hi: nat, offset: nat)
    requires offset <= lo && hi <= |a|
  {
    forall i :: lo <= i < hi ==> a[i] == a[i - offset]
  }

  /** A period may be taken several times at once. */
  lemma {:induction false} RepeatsMany(a: seq<byte>, lo: nat, hi: nat, offset: nat, j: nat, m: nat)
    requires offset <= lo && hi <= |a| && Repeats(a, lo, hi, offset)
    requires j < hi && m * offset <= j && lo <= j - m * offset + offset
    ensures a[j] == a[j - m * offset]
  {
    if m > 1 {
      assert m * offset == (m - 1) * offset + offset;
      RepeatsMany(a, lo, hi, offset, j - offset, m - 1);
    }
  }

  /** Copying from a whole number of periods back continues the repetition. */
  lemma {:induction false} FarCopyRepeats(a: seq<byte>, lo: nat, d: nat, n: nat, offset: nat, m: nat)
    requires 1 <= offset <= lo <= d && d + n <= |a| && Repeats(a, lo, d, offset)
    requires 1 <= m && m * offset <= d && lo <= d - m * offset + offset
    requires forall i :: d <= i < d + n ==> a[i] == a[i - m * offset]
    ensures Repeats(a, lo, d + n, offset)
  {
    if n > 0 {
      FarCopyRepeats(a, lo, d, n - 1, offset, m);
      var i := d + n - 1;
      assert m * offset == (m - 1) * offset + offset;
      RepeatsMany(a, lo, i, offset, i - offset, m - 1);
    }
  }

  // ---------------------------------------------------------------- memcpy

  /** memcpy inside one buffer; the two ranges may not overlap. */
  method Memcpy(dst: array<byte>, d: nat, s: nat, n: nat)
    requires s + n <= d && d + n <= dst.Length
    modifies dst
    ensures forall i :: d <= i < d + n ==> dst[i] == old(dst[i - (d - s)])
    ensures forall i :: 0 <= i < d || d + n <= i < dst.Length ==> dst[i] == old(dst[i])
  {
    forall i | 0 <= i < n { dst[d + i] := dst[s + i]; }
  }

  /** memcpy from another buffer. */
  method MemcpyFrom(dst: array<byte>, d: nat, src: seq<byte>, s: nat, n: nat)
    requires s + n <= |src| && d + n <= dst.Length
    modifies dst
    ensures forall i :: d <= i < d + n ==> dst[i] == src[i - d + s]
    ensures forall i :: 0 <= i < d || d + n <= i < dst.Length ==> dst[i] == old(dst[i])
  {
    forall i | 0 <= i < n { dst[d + i] := src[s + i]; }
  }

  /** Literals, `step` bytes at a time, at least once, possibly past `e`. */
  method WildCopyFrom(dst: array<byte>, d0: nat, src: seq<byte>, s0: nat, e: nat, step: nat)
    requires step >= 1 && d0 <= e
    requires Max(d0 + step, e + step - 1) <= dst.Length
    requires s0 + Max(d0 + step, e + step - 1) - d0 <= |src|
    modifies dst
    ensures dst[..e] == old(dst[..d0]) + src[s0..s0 + (e - d0)]
    ensures forall i :: Max(d0 + step, e + step - 1) <= i < dst.Length ==> dst[i] == old(dst[i])
  {
    MemcpyFrom(dst, d0, src, s0, step);
    var d, s := d0 + step, s0 + step;
    while d < e
      invariant d0 + step <= d <= Max(d0 + step, e + step - 1)
      invariant s - s0 == d - d0
      invariant forall i :: d0 <= i < d ==> dst[i] == src[i - d0 + s0]
      invariant forall i :: 0 <= i < d0 || Max(d0 + step, e + step - 1) <= i < dst.Length ==> dst[i] == old(dst[i])
    {
      MemcpyFrom(dst, d, src, s, step);
      d, s := d + step, s + step;
    }
  }

  // ---------------------------------------------------------------- copies of earlier output

  /** `n` bytes from `m` periods back, not overlapping. */
  method CopyBack(dst: array<byte>, d: nat, s: nat, n: nat, ghost lo: nat, ghost offset: nat, ghost m: nat)
    requires 1 <= offset <= lo <= d && d + n <= dst.Length
    requires 1 <= m && d - s == m * offset && n <= d - s && lo <= s + offset
    requires Repeats(dst[..], lo, d, offset)
    modifies dst
    ensures Repeats(dst[..], lo, d + n, offset)
    ensures forall i :: 0 <= i < d || d + n <= i < dst.Length ==> dst[i] == old(dst[i])
  {
    ghost var before := dst[..];
    Memcpy(dst, d, s, n);
    ghost var a := dst[..];
    assert Repeats(a, lo, d, offset) by {
      forall i | lo <= i < d ensures a[i] == a[i - offset] {
        assert a[i] == before[i] && a[i - offset] == before[i - offset];
      }
    }
    forall i | d <= i < d + n ensures a[i] == a[i - m * offset] {
      assert a[i] == dst[i] && a[i - m * offset] == before[i - (d - s)];
    }
    FarCopyRepeats(a, lo, d, n, offset, m);
  }

  method WildCopy8(dst: array<byte>, d0: nat, s0: nat, e: nat, ghost lo: nat, ghost offset: nat, ghost m: nat)
    requires 1 <= offset <= lo <= d0 && Max(d0 + 8, e + 7) <= dst.Length
    requires 1 <= m && d0 - s0 == m * offset && 8 <= d0 - s0 && lo <= s0 + offset
    requires Repeats(dst[..], lo, d0, offset)
    modifies dst
    ensures Repeats(dst[..], lo, Max(d0 + 8, e), offset)
    ensures forall i :: 0 <= i < d0 || Max(d0 + 8, e + 7) <= i < dst.Length ==> dst[i] == old(dst[i])
  {
    CopyBack(dst, d0, s0, 8, lo, offset, m);
    var d, s := d0 + 8, s0 + 8;
    while d < e
      invariant d0 + 8 <= d <= Max(d0 + 8, e + 7) && d - s == d0 - s0
      invariant Repeats(dst[..], lo, d, offset)
      invariant forall i :: 0 <= i < d0 || Max(d0 + 8, e + 7) <= i < dst.Length ==> dst[i] == old(dst[i])
    {
      CopyBack(dst, d, s, 8, lo, offset, m);
      d, s := d + 8, s + 8;
    }
  }

  /** Two 16-byte halves per turn, so that an offset of 16 is enough. */
  method WildCopy32(dst: array<byte>, d0: nat, s0: nat, e: nat, ghost lo: nat, ghost offset: nat)
    requires 16 <= offset <= lo <= d0 && Max(d0 + 32, e + 31) <= dst.Length
    requires d0 - s0 == offset && lo <= s0 + offset
    requires Repeats(dst[..], lo, d0, offset)
    modifies dst
    ensures Repeats(dst[..], lo, Max(d0 + 32, e), offset)
    ensures forall i :: 0 <= i < d0 || Max(d0 + 32, e + 31) <= i < dst.Length ==> dst[i] == old(dst[i])
  {
    CopyBack(dst, d0, s0, 16, lo, offset, 1);
    CopyBack(dst, d0 + 16, s0 + 16, 16, lo, offset, 1);
    var d, s := d0 + 32, s0 + 32;
    while d < e
      invariant d0 + 32 <= d <= Max(d0 + 32, e + 31) && d - s == offset
      invariant Repeats(dst[..], lo, d, offset)
      invariant forall i :: 0 <= i < d0 || Max(d0 + 32, e + 31) <= i < dst.Length ==> dst[i] == old(dst[i])
    {
      CopyBack(dst, d, s, 16, lo, offset, 1);
      CopyBack(dst, d + 16, s + 16, 16, lo, offset, 1);
      d, s := d + 32, s + 32;
    }
  }

  const INC32: seq<nat> := [0, 1, 2, 1, 0, 4, 4, 4]
  const DEC64: seq<int> := [0, 0, 0, -1, -4, 1, 2, 3]

  /** How many periods back the source stands after the tables have moved it. */
  function Periods4(offset: nat): (m: nat)
    requires 1 <= offset < 8
    ensures 4 + offset - INC32[offset] == m * offset
    ensures m >= 1 && m * offset >= 4
  {
    if offset == 1 then 4 else if offset <= 4 then 2 else 1
  }

  function Periods8(offset: nat): (m: nat)
    requires 1 <= offset < 8
    ensures 8 + offset - (INC32[offset] - DEC64[offset]) == m * offset
    ensures m >= 1 && m * offset >= 8
  {
    [0, 8, 4, 3, 2, 2, 2, 2][offset]
  }

  /** The first 8 bytes of a match; returns where the source goes on. */
  method CopyFirst8(dst: array<byte>, d: nat, offset: nat) returns (s: nat, ghost m: nat)
    requires 1 <= offset <= d && d + 8 <= dst.Length
    modifies dst
    ensures Repeats(dst[..], d, d + 8, offset)
    ensures m >= 1 && d + 8 - s == m * offset && 8 <= d + 8 - s && d <= s + offset
    ensures forall i :: 0 <= i < d || d + 8 <= i < dst.Length ==> dst[i] == old(dst[i])
  {
    s := d - offset;
    if offset < 8 {
      dst[d] := dst[s];
      dst[d + 1] := dst[s + 1];
      dst[d + 2] := dst[s + 2];
      dst[d + 3] := dst[s + 3];
      s := s + INC32[offset];
      CopyBack(dst, d + 4, s, 4, d, offset, Periods4(offset));
      m := Periods8(offset);
      s := s - DEC64[offset];
    } else {
      CopyBack(dst, d, s, 8, d, offset, 1);
      s := s + 8;
      m := 1;
    }
  }

  method MemcpyUsingOffsetBase(dst: array<byte>, d: nat, e: nat, offset: nat)
    requires 1 <= offset <= d && Max(d + 16, e + 7) <= dst.Length
    modifies dst
    ensures Repeats(dst[..], d, Max(d + 16, e), offset)
    ensures forall i :: 0 <= i < d || Max(d + 16, e + 7) <= i < dst.Length ==> dst[i] == old(dst[i])
  {
    var s, m := CopyFirst8(dst, d, offset);
    WildCopy8(dst, d + 8, s, e, d, offset, m);
  }

  /** The 8-byte pattern spread from a period of 1, 2 or 4 bytes. */
  method Pattern8(dst: array<byte>, s: nat, offset: nat) returns (v: seq<byte>)
    requires offset in {1, 2, 4} && s + offset <= dst.Length
    ensures |v| == 8 && v[..offset] == dst[s..s + offset]
    ensures forall i :: offset <= i < 8 ==> v[i] == v[i - offset]
    ensures forall i :: 0 <= i < offset ==> v[i] == v[8 - offset + i]
  {
    if offset == 1 {
      var b := dst[s];
      v := seq(8, _ => b);
    } else if offset == 2 {
      v := dst[s..s + 2] + dst[s..s + 2];
      v := v + v[..4];
    } else {
      v := dst[s..s + 4] + dst[s..s + 4];
    }
  }

  method MemcpyUsingOffset(dst: array<byte>, d0: nat, e: nat, offset: nat)
    requires 1 <= offset <= d0 && Max(d0 + 16, e + 7) <= dst.Length
    modifies dst
    ensures Repeats(dst[..], d0, Max(d0 + 8, e), offset)
    ensures forall i :: 0 <= i < d0 || Max(d0 + 16, e + 7) <= i < dst.Length ==> dst[i] == old(dst[i])
  {
    if offset != 1 && offset != 2 && offset != 4 {
      MemcpyUsingOffsetBase(dst, d0, e, offset);
      return;
    }
    var v := Pattern8(dst, d0 - offset, offset);
    ghost var start := dst[..];
    MemcpyFrom(dst, d0, v, 0, 8);
    forall i | d0 <= i < d0 + 8 ensures dst[i] == dst[i - offset] {
      assert dst[i] == v[i - d0];
      if i < d0 + offset { assert v[..offset][i - d0] == start[d0 - offset..d0][i - d0]; }
    }
    var d := d0 + 8;
    while d < e
      invariant d0 + 8 <= d <= Max(d0 + 8, e + 7)
      invariant forall i :: d - 8 <= i < d ==> dst[i] == v[i - d + 8]
      invariant Repeats(dst[..], d0, d, offset)
      invariant forall i :: 0 <= i < d0 || Max(d0 + 16, e + 7) <= i < dst.Length ==> dst[i] == old(dst[i])
    {
      ghost var before := dst[..];
      MemcpyFrom(dst, d, v, 0, 8);
      forall i | d <= i < d + 8 ensures dst[i] == dst[i - offset] {
        assert dst[i] == v[i - d];
        if i < d + offset { assert before[i - offset] == v[8 - offset + (i - d)]; }
      }
      d := d + 8;
    }
  }
}
