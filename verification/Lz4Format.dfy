/** The LZ4 block format, read and written one byte at a time.

    This is the reference against which the fast compressor and the fast decompressor are proved:
    a block is a list of sequences (literals, then a copy of earlier output) closed by a run of
    literals. */
module Lz4Format {

  type byte = b: int | 0 <= b < 256

  const MINMATCH := 4
  const MFLIMIT := 12
  const LASTLITERALS := 5
  const RUN_MASK := 15
  const ML_MASK := 15
  const DISTANCE_MAX := 65535

  datatype Option<+T> = None | Some(value: T)

  // ---------------------------------------------------------------- copying a match

  /** The LZ77 copy: append `len` bytes, each equal to the byte `offset` places before it. */
  function MatchCopy(out: seq<byte>, offset: nat, len: nat): (r: seq<byte>)
    requires 1 <= offset <= |out|
    ensures |r| == |out| + len
    ensures out <= r
    ensures forall i :: |out| <= i < |r| ==> r[i] == r[i - offset]
  {
    if len == 0 then out
    else
      var p := MatchCopy(out, offset, len - 1);
      p + [p[|p| - offset]]
  }

  /** The copy is the only extension of `out` that repeats with period `offset`. */
  lemma {:induction false} MatchCopyUnique(out: seq<byte>, offset: nat, len: nat, r: seq<byte>)
    requires 1 <= offset <= |out| && |r| == |out| + len && out <= r
    requires forall i :: |out| <= i < |r| ==> r[i] == r[i - offset]
    ensures r == MatchCopy(out, offset, len)
  {
    if len > 0 {
      MatchCopyUnique(out, offset, len - 1, r[..|r| - 1]);
    }
  }

  // ---------------------------------------------------------------- lengths

  /** Bytes that carry the part of a length that does not fit in its nibble: 255s, then the rest. */
  function ExtBytes(n: nat): (r: seq<byte>)
    ensures |r| == n / 255 + 1
  {
    if n < 255 then [n] else [255] + ExtBytes(n - 255)
  }

  function LengthBytes(n: nat): (r: seq<byte>)
    ensures |r| == if n < 15 then 0 else (n - 15) / 255 + 1
  {
    if n < 15 then [] else ExtBytes(n - 15)
  }

  function Nibble(n: nat): (r: nat)
    ensures r <= 15 && (r < 15 ==> r == n)
  {
    if n < 15 then n else 15
  }

  datatype Length = NoLength | Length(value: nat, next: nat)

  /** Sum the bytes from `ip` up to and including the first one below 255. */
  function ReadExt(b: seq<byte>, ip: nat): (r: Length)
    ensures r.Length? ==> ip < r.next <= |b|
    ensures r.Length? ==> r.value < 255 * (r.next - ip)
    decreases |b| - ip
  {
    if ip >= |b| then NoLength
    else if b[ip] < 255 then Length(b[ip], ip + 1)
    else
      match ReadExt(b, ip + 1)
      case NoLength => NoLength
      case Length(v, next) => Length(v + 255, next)
  }

  function ReadLength(b: seq<byte>, nibble: nat, ip: nat): (r: Length)
    requires ip <= |b|
    ensures r.Length? ==> ip <= r.next <= |b|
    ensures r.Length? ==> r.value >= nibble && (nibble < 15 ==> r == Length(nibble, ip))
  {
    if nibble < 15 then Length(nibble, ip)
    else
      match ReadExt(b, ip)
      case NoLength => NoLength
      case Length(v, next) => Length(v + nibble, next)
  }

  /** The bytes `s` stand in `b` from `ip` on. */
  predicate At(b: seq<byte>, ip: nat, s: seq<byte>) {
    ip + |s| <= |b| && b[ip..ip + |s|] == s
  }

  lemma AtSplit(b: seq<byte>, ip: nat, x: seq<byte>, y: seq<byte>)
    requires At(b, ip, x + y)
    ensures At(b, ip, x) && At(b, ip + |x|, y)
  {
    assert b[ip..ip + |x|] == b[ip..ip + |x + y|][..|x|] == x;
    assert b[ip + |x|..ip + |x| + |y|] == b[ip..ip + |x + y|][|x|..] == y;
  }

  lemma AtWhole(b: seq<byte>)
    ensures At(b, 0, b)
  {
  }

  lemma {:induction false} ReadExtInverts(b: seq<byte>, ip: nat, n: nat)
    requires At(b, ip, ExtBytes(n))
    ensures ReadExt(b, ip) == Length(n, ip + |ExtBytes(n)|)
    decreases n
  {
    assert b[ip] == b[ip..ip + |ExtBytes(n)|][0];
    if n >= 255 {
      AtSplit(b, ip, [255], ExtBytes(n - 255));
      ReadExtInverts(b, ip + 1, n - 255);
    }
  }

  lemma ReadLengthInverts(b: seq<byte>, ip: nat, n: nat)
    requires At(b, ip, LengthBytes(n))
    ensures ReadLength(b, Nibble(n), ip) == Length(n, ip + |LengthBytes(n)|)
  {
    if n >= 15 {
      ReadExtInverts(b, ip, n - 15);
    }
  }

  // ---------------------------------------------------------------- the decoder of reference

  datatype Step =
    | Malformed
    | Final(litStart: nat, litLen: nat)
    | Seq(litStart: nat, litLen: nat, offset: nat, matchLen: nat, next: nat)

  /** What the bytes at `ip` say: one sequence, or the closing run of literals. */
  function ParseStep(b: seq<byte>, ip: nat): (r: Step)
    ensures !r.Malformed? ==> ip < r.litStart && r.litStart + r.litLen <= |b|
    ensures r.Final? ==> r.litStart + r.litLen == |b|
    ensures r.Seq? ==> r.litStart + r.litLen + 2 <= r.next <= |b| && r.matchLen >= MINMATCH
  {
    if ip >= |b| then Malformed
    else
      match ReadLength(b, b[ip] / 16, ip + 1)
      case NoLength => Malformed
      case Length(litLen, s) =>
        var e := s + litLen;
        if e == |b| then Final(s, litLen)
        else if e + 2 > |b| then Malformed
        else
          match ReadLength(b, b[ip] % 16, e + 2)
          case NoLength => Malformed
          case Length(code, next) => Seq(s, litLen, b[e] as int + 256 * (b[e + 1] as int), code + MINMATCH, next)
  }

  /** Decode from `ip` on, with `out` already produced. */
  function DecodeFrom(b: seq<byte>, ip: nat, out: seq<byte>): (r: Option<seq<byte>>)
    ensures r.Some? ==> out <= r.value
    decreases |b| - ip
  {
    match ParseStep(b, ip)
    case Malformed => None
    case Final(s, n) => Some(out + b[s..s + n])
    case Seq(s, n, offset, len, next) =>
      var o := out + b[s..s + n];
      if 1 <= offset <= |o| then DecodeFrom(b, next, MatchCopy(o, offset, len)) else None
  }

  function Decode(b: seq<byte>): Option<seq<byte>> { DecodeFrom(b, 0, []) }

  /** The end-of-block rules: no match starts within the last 12 bytes of the content,
      none reaches into its last 5 bytes. */
  predicate RulesFrom(b: seq<byte>, ip: nat, done: nat, total: nat)
    decreases |b| - ip
  {
    match ParseStep(b, ip)
    case Malformed => false
    case Final(s, n) => true
    case Seq(s, n, offset, len, next) =>
      && done + n + MFLIMIT <= total
      && done + n + len + LASTLITERALS <= total
      && RulesFrom(b, next, done + n + len, total)
  }

  /** `b` is a well-formed block whose content is `content`. */
  predicate ValidBlock(b: seq<byte>, content: seq<byte>) {
    Decode(b) == Some(content) && RulesFrom(b, 0, 0, |content|)
  }

  // ---------------------------------------------------------------- writing sequences

  datatype Sequence = Sequence(literals: seq<byte>, offset: nat, matchLen: nat)

  predicate Encodable(q: Sequence) {
    1 <= q.offset <= DISTANCE_MAX && q.matchLen >= MINMATCH
  }

  function Token(litLen: nat, code: nat): byte { Nibble(litLen) * 16 + Nibble(code) }

  function EncodeSequence(q: Sequence): seq<byte>
    requires Encodable(q)
  {
    [Token(|q.literals|, q.matchLen - MINMATCH)] + LengthBytes(|q.literals|) + q.literals
      + [q.offset % 256, q.offset / 256] + LengthBytes(q.matchLen - MINMATCH)
  }

  function EncodeFinal(literals: seq<byte>): seq<byte> {
    [Token(|literals|, 0)] + LengthBytes(|literals|) + literals
  }

  predicate AllEncodable(qs: seq<Sequence>) {
    forall i :: 0 <= i < |qs| ==> Encodable(qs[i])
  }

  function EncodeSequences(qs: seq<Sequence>): seq<byte>
    requires AllEncodable(qs)
  {
    if qs == [] then [] else EncodeSequences(qs[..|qs| - 1]) + EncodeSequence(qs[|qs| - 1])
  }

  /** `qs` spells `text`: literals are copied from it and every match repeats an earlier part,
      and every match keeps clear of the end of a content of `total` bytes. */
  ghost predicate Spells(qs: seq<Sequence>, text: seq<byte>, total: nat)
    requires AllEncodable(qs)
  {
    if qs == [] then text == []
    else
      var q := qs[|qs| - 1];
      var n := |text| - q.matchLen - |q.literals|;
      && 0 <= n
      && Spells(qs[..|qs| - 1], text[..n], total)
      && text[n..n + |q.literals|] == q.literals
      && q.offset <= n + |q.literals|
      && text == MatchCopy(text[..n + |q.literals|], q.offset, q.matchLen)
      && n + |q.literals| + MFLIMIT <= total
      && |text| + LASTLITERALS <= total
  }

  lemma SequenceLayout(b: seq<byte>, ip: nat, q: Sequence)
    requires Encodable(q) && At(b, ip, EncodeSequence(q))
    ensures var lb := |LengthBytes(|q.literals|)|;
            var e := ip + 1 + lb + |q.literals|;
            && e + 2 <= |b| && b[ip] == Token(|q.literals|, q.matchLen - MINMATCH)
            && At(b, ip + 1, LengthBytes(|q.literals|))
            && At(b, ip + 1 + lb, q.literals)
            && b[e] == q.offset % 256 && b[e + 1] == q.offset / 256
            && At(b, e + 2, LengthBytes(q.matchLen - MINMATCH))
  {
    hide LengthBytes, Token;
    var head, lb := [Token(|q.literals|, q.matchLen - MINMATCH)], LengthBytes(|q.literals|);
    var ob, mb := [q.offset % 256, q.offset / 256], LengthBytes(q.matchLen - MINMATCH);
    AtSplit(b, ip, head + lb + q.literals + ob, mb);
    AtSplit(b, ip, head + lb + q.literals, ob);
    AtSplit(b, ip, head + lb, q.literals);
    AtSplit(b, ip, head, lb);
    assert b[ip] == b[ip..ip + 1][0];
    var e := ip + 1 + |lb| + |q.literals|;
    assert b[e] == b[e..e + 2][0] && b[e + 1] == b[e..e + 2][1];
  }

  lemma TokenParts(n: nat, code: nat)
    ensures Token(n, code) / 16 == Nibble(n) && Token(n, code) % 16 == Nibble(code)
  {
    hide Nibble;
  }

  lemma ParseInvertsEncode(b: seq<byte>, ip: nat, q: Sequence)
    requires Encodable(q) && At(b, ip, EncodeSequence(q)) && ip + |EncodeSequence(q)| < |b|
    ensures ParseStep(b, ip) == Seq(ip + 1 + |LengthBytes(|q.literals|)|, |q.literals|, q.offset, q.matchLen,
                                    ip + |EncodeSequence(q)|)
    ensures At(b, ip + 1 + |LengthBytes(|q.literals|)|, q.literals)
  {
    hide LengthBytes, ReadLength, Nibble, Token, At;
    var n, code := |q.literals|, q.matchLen - MINMATCH;
    var lb := |LengthBytes(n)|;
    var e := ip + 1 + lb + n;
    assert |EncodeSequence(q)| == e + 2 + |LengthBytes(code)| - ip;
    SequenceLayout(b, ip, q);
    hide EncodeSequence;
    TokenParts(n, code);
    ReadLengthInverts(b, ip + 1, n);
    ReadLengthInverts(b, e + 2, code);
  }

  lemma ParseInvertsFinal(b: seq<byte>, ip: nat, lits: seq<byte>)
    requires ip <= |b| && b[ip..] == EncodeFinal(lits)
    ensures ParseStep(b, ip) == Final(|b| - |lits|, |lits|)
    ensures b[|b| - |lits|..] == lits
  {
    hide LengthBytes, ReadLength, Nibble, Token;
    var head, lb := [Token(|lits|, 0)], LengthBytes(|lits|);
    AtSplit(b, ip, head + lb, lits);
    AtSplit(b, ip, head, lb);
    assert b[ip] == b[ip..ip + 1][0];
    TokenParts(|lits|, 0);
    ReadLengthInverts(b, ip + 1, |lits|);
  }

  /** One step of the decoder on a sequence. */
  lemma DecodeUnfold(b: seq<byte>, ip: nat, out: seq<byte>, s: nat, n: nat, offset: nat, len: nat, next: nat)
    requires ParseStep(b, ip) == Seq(s, n, offset, len, next)
    requires 1 <= offset <= |out| + n
    ensures DecodeFrom(b, ip, out) == DecodeFrom(b, next, MatchCopy(out + b[s..s + n], offset, len))
    ensures forall total :: RulesFrom(b, ip, |out|, total) <==>
              (&& |out| + n + MFLIMIT <= total
               && |out| + n + len + LASTLITERALS <= total
               && RulesFrom(b, next, |out| + n + len, total))
  {
    hide ParseStep, MatchCopy;
  }

  /** One encoded sequence, read back. */
  lemma DecodeOne(b: seq<byte>, ip: nat, out: seq<byte>, q: Sequence, total: nat)
    requires Encodable(q) && At(b, ip, EncodeSequence(q)) && ip + |EncodeSequence(q)| < |b|
    requires q.offset <= |out| + |q.literals|
    requires |out| + |q.literals| + MFLIMIT <= total && |out| + |q.literals| + q.matchLen + LASTLITERALS <= total
    ensures DecodeFrom(b, ip, out)
         == DecodeFrom(b, ip + |EncodeSequence(q)|, MatchCopy(out + q.literals, q.offset, q.matchLen))
    ensures RulesFrom(b, ip, |out|, total)
         == RulesFrom(b, ip + |EncodeSequence(q)|, |out| + |q.literals| + q.matchLen, total)
  {
    hide ParseStep, EncodeSequence, MatchCopy, LengthBytes, DecodeFrom, RulesFrom;
    ParseInvertsEncode(b, ip, q);
    var s, next := ip + 1 + |LengthBytes(|q.literals|)|, ip + |EncodeSequence(q)|;
    assert b[s..s + |q.literals|] == q.literals;
    DecodeUnfold(b, ip, out, s, |q.literals|, q.offset, q.matchLen, next);
  }

  /** Decoding what `qs` encodes to, whatever follows it, amounts to having produced `text`. */
  lemma {:induction false} DecodeSequences(qs: seq<Sequence>, text: seq<byte>, total: nat, rest: seq<byte>)
    requires AllEncodable(qs) && Spells(qs, text, total) && rest != []
    ensures var e := EncodeSequences(qs);
            && Decode(e + rest) == DecodeFrom(e + rest, |e|, text)
            && RulesFrom(e + rest, 0, 0, total) == RulesFrom(e + rest, |e|, |text|, total)
  {
    hide DecodeFrom, RulesFrom, EncodeSequence, MatchCopy, At;
    if qs != [] {
      var q := qs[|qs| - 1];
      var before := qs[..|qs| - 1];
      var e0, eq := EncodeSequences(before), EncodeSequence(q);
      var n := |text| - q.matchLen - |q.literals|;
      DecodeSequences(before, text[..n], total, eq + rest);
      var b := e0 + (eq + rest);
      assert EncodeSequences(qs) + rest == b;
      assert At(b, |e0|, eq) by { AtWhole(b); AtSplit(b, 0, e0, eq + rest); AtSplit(b, |e0|, eq, rest); }
      DecodeOne(b, |e0|, text[..n], q, total);
      assert text[..n] + q.literals == text[..n + |q.literals|];
    }
  }

  lemma FinalOne(b: seq<byte>, ip: nat, out: seq<byte>, lits: seq<byte>)
    requires ip <= |b| && b[ip..] == EncodeFinal(lits)
    ensures DecodeFrom(b, ip, out) == Some(out + lits)
    ensures forall done, total :: RulesFrom(b, ip, done, total)
  {
    ParseInvertsFinal(b, ip, lits);
    hide ParseStep, EncodeFinal;
    assert out + b[|b| - |lits|..|b|] == out + lits;
  }

  /** A block made of encoded sequences and closing literals decodes to what it spells. */
  lemma SpelledBlockIsValid(qs: seq<Sequence>, text: seq<byte>, lits: seq<byte>)
    requires AllEncodable(qs) && Spells(qs, text, |text + lits|)
    ensures ValidBlock(EncodeSequences(qs) + EncodeFinal(lits), text + lits)
  {
    var e, f := EncodeSequences(qs), EncodeFinal(lits);
    assert f != [];
    hide *;
    DecodeSequences(qs, text, |text + lits|, f);
    FinalOne(e + f, |e|, text, lits);
  }
}
