/** The fast LZ4 decompressor: input size known, whole block, no dictionary.

    A fast loop while 64 bytes of output remain, then a safe loop with a two-stage shortcut. Both
    are proved to produce exactly the content that the byte-wise decoder of the format assigns to
    a valid block. */
module Lz4Decompress {
  import opened Lz4Format
  import opened Lz4Copy

  const FASTLOOP_SAFE_DISTANCE := 64
  const WILDCOPYLENGTH := 8
  const MATCH_SAFEGUARD_DISTANCE := 12 // 2 * WILDCOPYLENGTH - MINMATCH

  function ReadLE16(b: seq<byte>, ip: nat): nat
    requires ip + 2 <= |b|
  {
    b[ip] as int + 256 * (b[ip + 1] as int)
  }

  // ---------------------------------------------------------------- what remains to be decoded

  /** From a token at `ip`, with `out` produced, the rest of the block yields `content`. */
  ghost predicate AtToken(src: seq<byte>, ip: nat, out: seq<byte>, content: seq<byte>) {
    DecodeFrom(src, ip, out) == Some(content) && RulesFrom(src, ip, |out|, |content|)
  }

  /** A match of `length` bytes is due, then a token at `ip`. */
  ghost predicate AtMatch(src: seq<byte>, ip: nat, offset: nat, length: nat, out: seq<byte>, content: seq<byte>) {
    && 1 <= offset <= |out| && MINMATCH <= length
    && |out| + MFLIMIT <= |content| && |out| + length + LASTLITERALS <= |content|
    && AtToken(src, ip, MatchCopy(out, offset, length), content)
  }

  /** A match is due whose length is still to be read, from the token and from `ip` on. */
  ghost predicate AtMatchLength(src: seq<byte>, token: byte, ip: nat, offset: nat, out: seq<byte>, content: seq<byte>) {
    ip <= |src| &&
    match ReadLength(src, token % 16, ip)
    case NoLength => false
    case Length(code, next) => AtMatch(src, next, offset, code + MINMATCH, out, content)
  }

  /** `length` literals are due at `ip`; they close the block, or an offset follows. */
  ghost predicate AtLiterals(src: seq<byte>, token: byte, ip: nat, length: nat, out: seq<byte>, content: seq<byte>) {
    && ip + length <= |src|
    && if ip + length == |src| then content == out + src[ip..]
       else
         && ip + length + 2 <= |src|
         && AtMatchLength(src, token, ip + length + 2, ReadLE16(src, ip + length), out + src[ip..ip + length], content)
  }

  lemma TokenMeans(src: seq<byte>, ip: nat, out: seq<byte>, content: seq<byte>)
    requires AtToken(src, ip, out, content)
    ensures ip < |src|
    ensures match ReadLength(src, src[ip] / 16, ip + 1)
            case NoLength => false
            case Length(n, s) => AtLiterals(src, src[ip], s, n, out, content)
  {
    hide MatchCopy, ReadLength, ReadExt, DecodeFrom, RulesFrom;
    DecodeSplit(src, ip, out, content);
  }

  lemma DecodeSplit(src: seq<byte>, ip: nat, out: seq<byte>, content: seq<byte>)
    requires AtToken(src, ip, out, content)
    ensures match ParseStep(src, ip)
            case Malformed => false
            case Final(s, n) => content == out + src[s..s + n]
            case Seq(s, n, offset, len, next) => AtMatch(src, next, offset, len, out + src[s..s + n], content)
  {
    hide MatchCopy, ParseStep;
  }

  /** While 5 bytes of content are missing, at least 6 bytes of input remain. */
  lemma {:induction false} InputRemains(src: seq<byte>, ip: nat, out: seq<byte>, content: seq<byte>)
    requires AtToken(src, ip, out, content) && |out| + LASTLITERALS <= |content|
    ensures ip + 6 <= |src|
    decreases |src| - ip
  {
    hide MatchCopy, ParseStep;
    var step := ParseStep(src, ip);
    if step.Seq? {
      var Seq(s, n, offset, len, next) := step;
      InputRemains(src, next, MatchCopy(out + src[s..s + n], offset, len), content);
    }
  }

  // ---------------------------------------------------------------- lengths

  datatype LengthError = Ok | LoopError | InitialError

  /** `read_variable_length`: sums bytes until one below 255; `lencheck` is where input runs short. */
  method ReadVariableLength(src: seq<byte>, ip0: nat, lencheck: int, loopCheck: bool, initialCheck: bool)
    returns (length: nat, ip: nat, error: LengthError)
    requires ReadExt(src, ip0).Length?
    requires loopCheck ==> ReadExt(src, ip0).next <= lencheck
    ensures if initialCheck && ip0 >= lencheck then error == InitialError && length == 0 && ip == ip0
            else
              && ReadExt(src, ip0) == Length(length, ip)
              && error == if loopCheck && ip >= lencheck then LoopError else Ok
  {
    length, ip, error := 0, ip0, Ok;
    if initialCheck && ip >= lencheck { return 0, ip, InitialError; }
    while true
      invariant ReadExt(src, ip).Length? && ReadExt(src, ip).next == ReadExt(src, ip0).next
      invariant ReadExt(src, ip).value + length == ReadExt(src, ip0).value
      invariant error == Ok
      decreases |src| - ip
    {
      var s := src[ip];
      ip := ip + 1;
      length := length + s;
      if loopCheck && ip >= lencheck { return length, ip, LoopError; }
      if s != 255 { return; }
    }
  }

  /** The literal length. A count that stops right at the check is no error here: the literals may
      be the last bytes of the block. */
  method ReadLiteralLength(src: seq<byte>, token: byte, ip0: nat, ghost out: seq<byte>, ghost content: seq<byte>)
    returns (length: nat, ip: nat, failed: bool)
    requires ip0 <= |src|
    requires ReadLength(src, token / 16, ip0).Length?
    requires var r := ReadLength(src, token / 16, ip0); AtLiterals(src, token, r.next, r.value, out, content)
    ensures !failed && ReadLength(src, token / 16, ip0) == Length(length, ip)
  {
    hide AtMatchLength;
    length, ip, failed := token / 16, ip0, false;
    if length == RUN_MASK {
      var more, error;
      more, ip, error := ReadVariableLength(src, ip, |src| - RUN_MASK, true, true);
      length := length + more;
      if error == InitialError { failed := true; }
    }
  }

  /** The match length; here running short of input is an error. */
  method ReadMatchLength(src: seq<byte>, token: byte, ip0: nat, offset: nat, ghost out: seq<byte>,
                         ghost content: seq<byte>)
    returns (length: nat, ip: nat, failed: bool)
    requires AtMatchLength(src, token, ip0, offset, out, content)
    ensures !failed && ip0 <= ip && AtMatch(src, ip, offset, length, out, content)
    ensures token % 16 != ML_MASK ==> length == token % 16 + MINMATCH
  {
    length, ip, failed := token % 16, ip0, false;
    InputRemainsAfterMatch(src, token, ip0, offset, out, content);
    hide AtMatch;
    if length == ML_MASK {
      var more, error;
      more, ip, error := ReadVariableLength(src, ip, |src| - LASTLITERALS + 1, true, false);
      if error != Ok { failed := true; }
      length := length + more;
    }
    length := length + MINMATCH;
  }

  lemma InputRemainsAfterMatch(src: seq<byte>, token: byte, ip: nat, offset: nat, out: seq<byte>, content: seq<byte>)
    requires AtMatchLength(src, token, ip, offset, out, content)
    ensures ReadLength(src, token % 16, ip).next + 6 <= |src|
  {
    hide AtToken;
    var Length(code, next) := ReadLength(src, token % 16, ip);
    InputRemains(src, next, MatchCopy(out, offset, code + MINMATCH), content);
  }

  // ---------------------------------------------------------------- the safe loop

  /** Label `safe_literal_copy`: plain copy when the literals close the block, wild copy otherwise. */
  method CopyLiterals(src: seq<byte>, dst: array<byte>, token: byte, ip0: nat, length: nat, op0: nat,
                      ghost content: seq<byte>)
    returns (ip: nat, op: nat, done: bool, failed: bool)
    requires op0 <= dst.Length && |content| <= dst.Length
    requires AtLiterals(src, token, ip0, length, dst[..op0], content)
    modifies dst
    ensures !failed && op == op0 + length && op <= dst.Length && ip == ip0 + length
    ensures done ==> dst[..op] == content
    ensures !done ==> ip + 2 <= |src| && AtMatchLength(src, token, ip + 2, ReadLE16(src, ip), dst[..op], content)
  {
    ghost var out := dst[..op0];
    LiteralsFit(src, token, ip0, length, out, content);
    hide AtMatchLength;
    failed := false;
    var cpy := op0 + length;
    if cpy > dst.Length - MFLIMIT || ip0 + length > |src| - (2 + 1 + LASTLITERALS) {
      if ip0 + length != |src| || cpy > dst.Length { failed := true; }
      MemcpyFrom(dst, op0, src, ip0, length);
      assert dst[..cpy] == out + src[ip0..ip0 + length];
      ip, op := ip0 + length, cpy;
      done := true;
    } else {
      WildCopyFrom(dst, op0, src, ip0, cpy, 8);
      ip, op := ip0 + length, cpy;
      done := false;
    }
  }

  /** Literals that do not close the block are followed by room on both sides. */
  lemma LiteralsFit(src: seq<byte>, token: byte, ip: nat, length: nat, out: seq<byte>, content: seq<byte>)
    requires AtLiterals(src, token, ip, length, out, content)
    ensures |out| + length <= |content|
    ensures ip + length != |src| ==> ip + length + 8 <= |src| && |out| + length + MFLIMIT <= |content|
  {
    hide MatchCopy, AtToken, ReadLength, ReadLE16;
    if ip + length != |src| {
      InputRemainsAfterMatch(src, token, ip + length + 2, ReadLE16(src, ip + length), out + src[ip..ip + length], content);
    }
  }

  /** Bytes copied so that they repeat are those of the byte-wise copy. */
  lemma RepeatsIsMatchCopy(a: seq<byte>, op: nat, length: nat, offset: nat)
    requires 1 <= offset <= op && op + length <= |a| && Repeats(a, op, op + length, offset)
    ensures a[..op + length] == MatchCopy(a[..op], offset, length)
  {
    MatchCopyUnique(a[..op], offset, length, a[..op + length]);
  }

  /** The tail of a match when it ends near the end of the buffer: 8 bytes at a time while they
      fit, then one at a time. */
  method CopyMatchTail(dst: array<byte>, op0: nat, match0: nat, cpy: nat, ghost lo: nat, ghost offset: nat, ghost m: nat)
    requires 1 <= offset <= lo && lo + 8 == op0 && cpy <= dst.Length && 8 <= dst.Length
    requires m >= 1 && op0 - match0 == m * offset && 8 <= op0 - match0 && lo <= match0 + offset
    requires op0 <= dst.Length && Repeats(dst[..], lo, op0, offset)
    modifies dst
    ensures Repeats(dst[..], lo, Max(op0, cpy), offset)
    ensures forall i :: 0 <= i < op0 ==> dst[i] == old(dst[i])
  {
    var op: nat, match_: nat := op0, match0;
    var oCopyLimit := dst.Length - (WILDCOPYLENGTH - 1);
    if op < oCopyLimit {
      WildCopy8(dst, op, match_, oCopyLimit, lo, offset, m);
      match_ := match_ + (oCopyLimit - op);
      op := oCopyLimit;
    }
    while op < cpy
      invariant op0 <= op <= dst.Length && op - match_ == m * offset && lo <= match_ + offset
      invariant Repeats(dst[..], lo, op, offset)
      invariant forall i :: 0 <= i < op0 ==> dst[i] == old(dst[i])
      invariant op <= Max(oCopyLimit, Max(op0, cpy))
    {
      CopyBack(dst, op, match_, 1, lo, offset, m);
      op, match_ := op + 1, match_ + 1;
    }
  }

  /** Label `safe_match_copy`. */
  method CopyMatch(dst: array<byte>, op0: nat, offset: nat, length: nat) returns (op: nat, failed: bool)
    requires 1 <= offset <= op0 && MINMATCH <= length
    requires op0 + MFLIMIT <= dst.Length && op0 + length + LASTLITERALS <= dst.Length
    modifies dst
    ensures !failed && op == op0 + length && dst[..op] == MatchCopy(old(dst[..op0]), offset, length)
  {
    failed := false;
    var cpy := op0 + length;
    ghost var out := dst[..op0];
    var match_, m := CopyFirst8(dst, op0, offset);
    op := op0 + 8;
    if cpy > dst.Length - MATCH_SAFEGUARD_DISTANCE {
      if cpy > dst.Length - LASTLITERALS { failed := true; }
      CopyMatchTail(dst, op, match_, cpy, op0, offset, m);
    } else {
      CopyBack(dst, op, match_, 8, op0, offset, m);
      if length > 16 { WildCopy8(dst, op + 8, match_ + 8, cpy, op0, offset, m); }
    }
    op := cpy;
    assert dst[..op0] == out;
    RepeatsIsMatchCopy(dst[..], op0, length, offset);
  }

  /** 18 bytes on behalf of a match of at most 18, from at least 8 bytes back. */
  method Copy18(dst: array<byte>, op: nat, offset: nat, length: nat)
    requires 8 <= offset <= op && length <= 18 && op + 18 <= dst.Length
    modifies dst
    ensures dst[..op + length] == MatchCopy(old(dst[..op]), offset, length)
  {
    ghost var out := dst[..op];
    var match_ := op - offset;
    CopyBack(dst, op, match_, 8, op, offset, 1);
    CopyBack(dst, op + 8, match_ + 8, 8, op, offset, 1);
    CopyBack(dst, op + 16, match_ + 16, 2, op, offset, 1);
    assert dst[..op] == out;
    RepeatsIsMatchCopy(dst[..], op, length, offset);
  }

  /** 16 bytes on behalf of at most 16 literals. */
  method Copy16(dst: array<byte>, op: nat, src: seq<byte>, ip: nat, length: nat)
    requires length <= 16 && op + 16 <= dst.Length && ip + 16 <= |src|
    modifies dst
    ensures dst[..op + length] == old(dst[..op]) + src[ip..ip + length]
  {
    MemcpyFrom(dst, op, src, ip, 16);
  }

  lemma ShortMatchLength(src: seq<byte>, token: byte, ip: nat, offset: nat, out: seq<byte>, content: seq<byte>)
    requires AtMatchLength(src, token, ip, offset, out, content) && token % 16 != ML_MASK
    ensures AtMatch(src, ip, offset, token % 16 + MINMATCH, out, content)
  {
    hide AtMatch;
  }

  /** The two-stage shortcut: few literals and room for both copies. `whole` when the match was
      copied as well; otherwise its length is still to be read. */
  method Shortcut(src: seq<byte>, dst: array<byte>, token: byte, ip0: nat, op0: nat, ghost content: seq<byte>)
    returns (ip: nat, op: nat, offset: nat, whole: bool)
    requires token / 16 != RUN_MASK && ip0 + 16 < |src| && op0 + 32 <= dst.Length
    requires AtLiterals(src, token, ip0, token / 16, dst[..op0], content)
    modifies dst
    ensures ip0 < ip && op <= dst.Length
    ensures whole ==> AtToken(src, ip, dst[..op], content)
    ensures !whole ==> AtMatchLength(src, token, ip, offset, dst[..op], content)
  {
    hide AtMatchLength, AtToken;
    Copy16(dst, op0, src, ip0, token / 16);
    op, ip := op0 + token / 16, ip0 + token / 16;
    var length := token % 16;
    offset := ReadLE16(src, ip);
    ip := ip + 2;
    whole := length != ML_MASK && offset >= 8;
    if whole {
      ShortMatchLength(src, token, ip, offset, dst[..op], content);
      Copy18(dst, op, offset, length + MINMATCH);
      op := op + length + MINMATCH;
    }
  }

  /** Places where the safe loop can be entered. */
  datatype Entry = Token | SafeLiteralCopy | SafeMatchCopy
  datatype Place = Place(entry: Entry, token: byte, ip: nat, op: nat, length: nat, offset: nat)

  ghost predicate Holds(p: Place, src: seq<byte>, out: seq<byte>, content: seq<byte>) {
    match p.entry
    case Token => AtToken(src, p.ip, out, content)
    case SafeLiteralCopy => AtLiterals(src, p.token, p.ip, p.length, out, content)
    case SafeMatchCopy => AtMatch(src, p.ip, p.offset, p.length, out, content)
  }

  /** From a match whose length is not read yet: label `_copy_match`. */
  method CopyMatchAt(src: seq<byte>, dst: array<byte>, token: byte, ip0: nat, op0: nat, offset: nat,
                     ghost content: seq<byte>)
    returns (ip: nat, op: nat, failed: bool)
    requires op0 <= dst.Length && |content| <= dst.Length
    requires AtMatchLength(src, token, ip0, offset, dst[..op0], content)
    modifies dst
    ensures !failed && ip0 <= ip && op <= dst.Length && AtToken(src, ip, dst[..op], content)
  {
    hide AtToken;
    ghost var out := dst[..op0];
    var length;
    length, ip, failed := ReadMatchLength(src, token, ip0, offset, out, content);
    dst[op0], dst[op0 + 1], dst[op0 + 2], dst[op0 + 3] := 0, 0, 0, 0;
    assert dst[..op0] == out;
    var failedCopy;
    op, failedCopy := CopyMatch(dst, op0, offset, length);
    failed := failed || failedCopy;
  }

  /** From literals on: label `safe_literal_copy`. */
  method CopyLiteralsAt(src: seq<byte>, dst: array<byte>, token: byte, ip0: nat, length: nat, op0: nat,
                        ghost content: seq<byte>)
    returns (ip: nat, op: nat, done: bool, failed: bool)
    requires op0 <= dst.Length && |content| <= dst.Length
    requires AtLiterals(src, token, ip0, length, dst[..op0], content)
    modifies dst
    ensures !failed && op <= dst.Length
    ensures if done then dst[..op] == content else ip0 < ip && AtToken(src, ip, dst[..op], content)
  {
    hide AtToken, AtMatchLength, AtLiterals;
    ip, op, done, failed := CopyLiterals(src, dst, token, ip0, length, op0, content);
    if done || failed { return; }
    var offset := ReadLE16(src, ip);
    ip := ip + 2;
    ip, op, failed := CopyMatchAt(src, dst, token, ip, op, offset, content);
  }

  /** The safe loop, entered at `start`. */
  method SafeLoop(src: seq<byte>, dst: array<byte>, start: Place, ghost content: seq<byte>)
    returns (op: nat, failed: bool)
    requires start.op <= dst.Length && |content| <= dst.Length
    requires Holds(start, src, dst[..start.op], content)
    modifies dst
    ensures !failed && op <= dst.Length && dst[..op] == content
  {
    hide AtToken, AtLiterals, AtMatchLength, AtMatch;
    var ip: nat, done := start.ip, false;
    op, failed := start.op, false;
    if start.entry == SafeLiteralCopy {
      ip, op, done, failed := CopyLiteralsAt(src, dst, start.token, ip, start.length, op, content);
    } else if start.entry == SafeMatchCopy {
      MatchFits(src, ip, start.offset, start.length, dst[..op], content);
      op, failed := CopyMatch(dst, op, start.offset, start.length);
    }
    while !done && !failed
      invariant !failed && op <= dst.Length
      invariant if done then dst[..op] == content else AtToken(src, ip, dst[..op], content)
      decreases !done, |src| - ip
    {
      ip, op, done, failed := SafeStep(src, dst, ip, op, content);
    }
  }

  lemma MatchFits(src: seq<byte>, ip: nat, offset: nat, length: nat, out: seq<byte>, content: seq<byte>)
    requires AtMatch(src, ip, offset, length, out, content)
    ensures 1 <= offset <= |out| && MINMATCH <= length
    ensures |out| + MFLIMIT <= |content| && |out| + length + LASTLITERALS <= |content|
    ensures AtToken(src, ip, MatchCopy(out, offset, length), content)
  {
  }

  /** One turn of the safe loop. */
  method SafeStep(src: seq<byte>, dst: array<byte>, ip0: nat, op0: nat, ghost content: seq<byte>)
    returns (ip: nat, op: nat, done: bool, failed: bool)
    requires op0 <= dst.Length && |content| <= dst.Length && AtToken(src, ip0, dst[..op0], content)
    modifies dst
    ensures !failed && op <= dst.Length
    ensures if done then dst[..op] == content else ip0 < ip <= |src| && AtToken(src, ip, dst[..op], content)
  {
    hide AtToken, AtLiterals, AtMatchLength, ReadExt;
    TokenMeans(src, ip0, dst[..op0], content);
    var token := src[ip0];
    ip, op, done, failed := ip0 + 1, op0, false, false;
    var length: nat := token / 16;
    if length != RUN_MASK && ip < |src| - 14 - 2 && op <= dst.Length - 14 - 18 {
      var offset, whole;
      ip, op, offset, whole := Shortcut(src, dst, token, ip, op, content);
      if !whole {
        ip, op, failed := CopyMatchAt(src, dst, token, ip, op, offset, content);
      }
    } else {
      length, ip, failed := ReadLiteralLength(src, token, ip, dst[..op], content);
      ip, op, done, failed := CopyLiteralsAt(src, dst, token, ip, length, op, content);
    }
    if !done { TokenInside(src, ip, dst[..op], content); }
  }

  lemma TokenInside(src: seq<byte>, ip: nat, out: seq<byte>, content: seq<byte>)
    requires AtToken(src, ip, out, content)
    ensures ip < |src| && |out| <= |content|
  {
    TokenMeans(src, ip, out, content);
  }

  // ---------------------------------------------------------------- the fast loop

  /** Literals in the fast loop: 16 or 32 bytes at a time, or leave for `safe_literal_copy`. */
  method FastLiterals(src: seq<byte>, dst: array<byte>, token: byte, ip0: nat, op0: nat, ghost content: seq<byte>)
    returns (ip: nat, op: nat, length: nat, leave: bool, failed: bool)
    requires ip0 <= |src| && op0 + FASTLOOP_SAFE_DISTANCE <= dst.Length && |content| <= dst.Length
    requires ReadLength(src, token / 16, ip0).Length?
    requires var r := ReadLength(src, token / 16, ip0); AtLiterals(src, token, r.next, r.value, dst[..op0], content)
    modifies dst
    ensures !failed && op <= dst.Length && ip0 <= ip
    ensures leave ==> AtLiterals(src, token, ip, length, dst[..op], content)
    ensures !leave ==> ip + 2 <= |src| && AtMatchLength(src, token, ip + 2, ReadLE16(src, ip), dst[..op], content)
  {
    hide AtMatchLength;
    op := op0;
    length, ip, failed := ReadLiteralLength(src, token, ip0, dst[..op0], content);
    var cpy := op + length;
    if token / 16 == RUN_MASK {
      leave := cpy > dst.Length - 32 || ip + length > |src| - 32;
      if leave { return; }
      WildCopyFrom(dst, op, src, ip, cpy, 32);
    } else {
      leave := ip > |src| - (16 + 1);
      if leave { return; }
      Copy16(dst, op, src, ip, length);
    }
    ip, op := ip + length, cpy;
  }

  /** A match in the fast loop, with at least 64 bytes of output beyond it. */
  method FastMatch(dst: array<byte>, op: nat, offset: nat, length: nat, short: bool)
    requires 1 <= offset <= op && MINMATCH <= length && (short ==> length <= 18)
    requires op + length + FASTLOOP_SAFE_DISTANCE <= dst.Length
    modifies dst
    ensures dst[..op + length] == MatchCopy(old(dst[..op]), offset, length)
  {
    if short && offset >= 8 {
      Copy18(dst, op, offset, length);
      return;
    }
    ghost var out := dst[..op];
    var cpy := op + length;
    if offset < 16 {
      MemcpyUsingOffset(dst, op, cpy, offset);
    } else {
      WildCopy32(dst, op, op - offset, cpy, op, offset);
    }
    assert dst[..op] == out;
    RepeatsIsMatchCopy(dst[..], op, length, offset);
  }

  /** Fast loop, left where the safe loop has to take over. */
  method FastLoop(src: seq<byte>, dst: array<byte>, ghost content: seq<byte>) returns (p: Place, failed: bool)
    requires FASTLOOP_SAFE_DISTANCE <= dst.Length && |content| <= dst.Length && AtToken(src, 0, [], content)
    modifies dst
    ensures !failed && p.op <= dst.Length && Holds(p, src, dst[..p.op], content)
  {
    hide AtToken, AtLiterals, AtMatchLength, AtMatch;
    var ip: nat, op: nat := 0, 0;
    assert dst[..op] == [];
    while true
      invariant op + FASTLOOP_SAFE_DISTANCE <= dst.Length && AtToken(src, ip, dst[..op], content)
      decreases |src| - ip
    {
      TokenMeans(src, ip, dst[..op], content);
      var token := src[ip];
      var length, leave;
      ghost var ip0 := ip;
      ip, op, length, leave, failed := FastLiterals(src, dst, token, ip + 1, op, content);
      if leave || failed { return Place(SafeLiteralCopy, token, ip, op, length, 0), failed; }
      var offset := ReadLE16(src, ip);
      ip := ip + 2;
      length, ip, failed := ReadMatchLength(src, token, ip, offset, dst[..op], content);
      if failed || op + length >= dst.Length - FASTLOOP_SAFE_DISTANCE {
        return Place(SafeMatchCopy, token, ip, op, length, offset), failed;
      }
      MatchFits(src, ip, offset, length, dst[..op], content);
      FastMatch(dst, op, offset, length, token % 16 != ML_MASK);
      op := op + length;
      TokenInside(src, ip, dst[..op], content);
    }
  }

  /** Decompress the valid block `src` into `dst`; the result is the number of bytes produced, or -1. */
  method DecompressSafe(src: seq<byte>, dst: array<byte>, ghost content: seq<byte>) returns (r: int)
    requires ValidBlock(src, content) && |content| <= dst.Length
    modifies dst
    ensures r == |content| <==> dst.Length > 0 || src == [0]
    ensures r != |content| ==> r == -1
    ensures dst[..|content|] == content
  {
    TokenInside(src, 0, [], content);
    if dst.Length == 0 { return if |src| == 1 && src[0] == 0 then 0 else -1; }
    var p, failed := Place(Token, 0, 0, 0, 0, 0), false;
    assert dst[..0] == [];
    if dst.Length >= FASTLOOP_SAFE_DISTANCE {
      p, failed := FastLoop(src, dst, content);
    }
    hide AtToken;
    var op;
    op, failed := SafeLoop(src, dst, p, content);
    r := op;
  }
}
