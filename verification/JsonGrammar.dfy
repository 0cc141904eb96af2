/** The language picojson accepts, as a parser on the rest of the text: the reference for the parser over
    the one-character-pushback cursor. */
module JsonGrammar {
  import opened JsonText

  /** What was read, and the text behind it. */
  datatype Res<T> = Bad | Good(value: T, rest: seq<byte>)

  predicate IsWs(c: byte) {
    c == 0x20 || c == 0x09 || c == 0x0A || c == 0x0D
  }

  function SkipWs(s: seq<byte>): (r: seq<byte>)
    ensures |r| <= |s| && (r != [] ==> !IsWs(r[0]))
  {
    if s != [] && IsWs(s[0]) then SkipWs(s[1..]) else s
  }

  /** The text behind `c`, if `c` comes next after white space. */
  function Expect(s: seq<byte>, c: byte): (r: Option<seq<byte>>)
    ensures r.Some? ==> |r.value| < |s|
  {
    var t := SkipWs(s);
    if t != [] && t[0] == c then Some(t[1..]) else None
  }

  // ---------------------------------------------------------------- characters

  function HexValue(c: byte): (r: Option<nat>)
    ensures r.Some? ==> r.value < 16
  {
    if 0x30 <= c <= 0x39 then Some(c - 0x30)
    else if 0x41 <= c <= 0x46 then Some(c - 0x41 + 10)
    else if 0x61 <= c <= 0x66 then Some(c - 0x61 + 10)
    else None
  }

  /** Below this, `n` more digits keep a number below 65536. */
  function Limit(n: nat): nat {
    if n == 0 then 65536 else Limit(n - 1) / 16
  }

  /** `n` more hexadecimal digits behind the number `acc`. */
  function HexDigits(s: seq<byte>, n: nat, acc: nat): (r: Res<nat>)
    ensures r.Good? ==> |r.rest| + n == |s|
    ensures r.Good? && acc < Limit(n) ==> r.value < 65536
  {
    if n == 0 then Good(acc, s)
    else if s == [] || HexValue(s[0]).None? then Bad
    else HexDigits(s[1..], n - 1, acc * 16 + HexValue(s[0]).value)
  }

  function QuadHex(s: seq<byte>): (r: Res<nat>)
    ensures r.Good? ==> |r.rest| + 4 == |s| && r.value < 65536
  {
    assert Limit(2) == 256 && Limit(4) == 1;
    HexDigits(s, 4, 0)
  }

  /** The octets of a character number, section 3 of RFC 3629. */
  function Utf8(u: nat): seq<byte>
    requires u < 0x110000
  {
    if u < 0x80 then [u]
    else if u < 0x800 then [0xC0 + u / 64, 0x80 + u % 64]
    else if u < 0x10000 then [0xE0 + u / 4096, 0x80 + u / 64 % 64, 0x80 + u % 64]
    else [0xF0 + u / 262144, 0x80 + u / 4096 % 64, 0x80 + u / 64 % 64, 0x80 + u % 64]
  }

  predicate IsHigh(u: nat) { 0xD800 <= u <= 0xDBFF }

  predicate IsLow(u: nat) { 0xDC00 <= u <= 0xDFFF }

  /** The character a surrogate pair stands for. */
  function Paired(high: nat, low: nat): (u: nat)
    requires IsHigh(high) && IsLow(low)
    ensures 0x10000 <= u < 0x110000
  {
    (high - 0xD800) * 1024 + (low - 0xDC00) + 0x10000
  }

  /** Behind `\u`: four digits, or two groups that make a surrogate pair. */
  function Codepoint(s: seq<byte>): (r: Res<seq<byte>>)
    ensures r.Good? ==> |r.rest| + 4 <= |s|
  {
    match QuadHex(s)
    case Bad => Bad
    case Good(u, rest) =>
      if IsLow(u) then Bad
      else if IsHigh(u) then
        if |rest| < 2 || rest[0] != BACKSLASH || rest[1] != 0x75 then Bad
        else
          match QuadHex(rest[2..])
          case Bad => Bad
          case Good(second, more) => if IsLow(second) then Good(Utf8(Paired(u, second)), more) else Bad
      else Good(Utf8(u), rest)
  }

  /** The byte a two-character escape stands for. */
  function Unescaped(c: byte): Option<byte> {
    if c == QUOTE then Some(QUOTE)
    else if c == BACKSLASH then Some(BACKSLASH)
    else if c == 0x2F then Some(0x2F)
    else if c == 0x62 then Some(0x08)
    else if c == 0x66 then Some(0x0C)
    else if c == 0x6E then Some(0x0A)
    else if c == 0x72 then Some(0x0D)
    else if c == 0x74 then Some(0x09)
    else None
  }

  /** A string behind its opening quote; `acc` is what has been read of it. */
  function StringTail(s: seq<byte>, acc: seq<byte>): (r: Res<seq<byte>>)
    ensures r.Good? ==> |r.rest| < |s|
    decreases |s|
  {
    if s == [] || s[0] < SPACE then Bad
    else if s[0] == QUOTE then Good(acc, s[1..])
    else if s[0] == BACKSLASH then
      if |s| < 2 then Bad
      else if s[1] == 0x75 then
        match Codepoint(s[2..])
        case Bad => Bad
        case Good(bytes, rest) => StringTail(rest, acc + bytes)
      else if Unescaped(s[1]).Some? then StringTail(s[2..], acc + [Unescaped(s[1]).value])
      else Bad
    else StringTail(s[1..], acc + [s[0]])
  }

  // ---------------------------------------------------------------- numbers

  predicate IsDigit(c: byte) { 0x30 <= c <= 0x39 }

  predicate IsNumberByte(c: byte) {
    IsDigit(c) || c == 0x2B || c == 0x2D || c == 0x65 || c == 0x45 || c == 0x2E
  }

  /** How many bytes of a number stand at the front. */
  function NumberLength(s: seq<byte>): (n: nat)
    ensures n <= |s| && (n < |s| ==> !IsNumberByte(s[n]))
    ensures forall i :: 0 <= i < n ==> IsNumberByte(s[i])
  {
    if s != [] && IsNumberByte(s[0]) then 1 + NumberLength(s[1..]) else 0
  }

  // ---------------------------------------------------------------- the ordered map

  /** The order of keys: the first difference decides, a prefix comes first. */
  predicate Less(a: seq<byte>, b: seq<byte>) {
    b != [] && (a == [] || a[0] < b[0] || (a[0] == b[0] && Less(a[1..], b[1..])))
  }

  predicate Sorted(fields: seq<Field>) {
    forall i, j :: 0 <= i < j < |fields| ==> Less(fields[i].key, fields[j].key)
  }

  /** `o[key] = v`: in its place, replacing the value of an equal key. */
  function Put(fields: seq<Field>, key: seq<byte>, v: Value): seq<Field> {
    if fields == [] then [Field(key, v)]
    else
      var f := fields[|fields| - 1];
      if Less(f.key, key) then fields + [Field(key, v)]
      else if f.key == key then fields[..|fields| - 1] + [Field(key, v)]
      else Put(fields[..|fields| - 1], key, v) + [f]
  }

  // ---------------------------------------------------------------- values

  /** Reading a number, and the text it prints as; none if the text is no number. */
  type Reader = seq<byte> -> Option<seq<byte>>

  function Literal(s: seq<byte>, word: seq<byte>, v: Value): (r: Res<Value>)
    ensures r.Good? ==> |r.rest| <= |s|
  {
    if |word| <= |s| && s[..|word|] == word then Good(v, s[|word|..]) else Bad
  }

  function Parse(s: seq<byte>, read: Reader): (r: Res<Value>)
    ensures r.Good? ==> |r.rest| <= |s|
    decreases |s|, 2
  {
    var t := SkipWs(s);
    if t == [] then Bad
    else if t[0] == 0x6E then Literal(t[1..], [0x75, 0x6C, 0x6C], Null)
    else if t[0] == 0x66 then Literal(t[1..], [0x61, 0x6C, 0x73, 0x65], Bool(false))
    else if t[0] == 0x74 then Literal(t[1..], [0x72, 0x75, 0x65], Bool(true))
    else if t[0] == QUOTE then
      match StringTail(t[1..], [])
      case Bad => Bad
      case Good(x, rest) => Good(Str(x), rest)
    else if t[0] == 0x5B then
      match Expect(t[1..], 0x5D)
      case Some(rest) => Good(Arr([]), rest)
      case None => ParseItems(t[1..], [], read)
    else if t[0] == 0x7B then
      match Expect(t[1..], 0x7D)
      case Some(rest) => Good(Obj([]), rest)
      case None => ParseFields(t[1..], [], read)
    else if IsDigit(t[0]) || t[0] == 0x2D then
      var n := NumberLength(t);
      match read(t[..n])
      case None => Bad
      case Some(text) => Good(Num(text), t[n..])
    else Bad
  }

  /** The items of an array from the next one on; `acc` are those before. */
  function ParseItems(s: seq<byte>, acc: seq<Value>, read: Reader): (r: Res<Value>)
    ensures r.Good? ==> |r.rest| <= |s|
    decreases |s|, 3
  {
    match Parse(s, read)
    case Bad => Bad
    case Good(v, rest) =>
      match Expect(rest, COMMA)
      case Some(more) => ParseItems(more, acc + [v], read)
      case None =>
        match Expect(rest, 0x5D)
        case Some(more) => Good(Arr(acc + [v]), more)
        case None => Bad
  }

  function ParseFields(s: seq<byte>, acc: seq<Field>, read: Reader): (r: Res<Value>)
    ensures r.Good? ==> |r.rest| <= |s|
    decreases |s|, 3
  {
    match Expect(s, QUOTE)
    case None => Bad
    case Some(afterQuote) =>
      match StringTail(afterQuote, [])
      case Bad => Bad
      case Good(key, afterKey) =>
        match Expect(afterKey, COLON)
        case None => Bad
        case Some(afterColon) =>
          match Parse(afterColon, read)
          case Bad => Bad
          case Good(v, rest) =>
            match Expect(rest, COMMA)
            case Some(more) => ParseFields(more, Put(acc, key, v), read)
            case None =>
              match Expect(rest, 0x7D)
              case Some(more) => Good(Obj(Put(acc, key, v)), more)
              case None => Bad
  }
}
