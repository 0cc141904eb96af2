/** Printing and reading back: values, compact or indented, and the escapes of any character. */
module JsonRoundTrip {
  import opened JsonText
  import opened JsonGrammar

  // ---------------------------------------------------------------- characters

  /** Four digits of a number below 65536; `upper` picks the letters. */
  function Digit(d: nat, upper: bool): byte
    requires d < 16
  {
    if upper && d >= 10 then 0x41 + (d - 10) else Hex(d)
  }

  function Four(u: nat, upper: bool): seq<byte>
    requires u < 65536
  {
    [Digit(u / 4096, upper), Digit(u / 256 % 16, upper), Digit(u / 16 % 16, upper), Digit(u % 16, upper)]
  }

  lemma DigitReads(d: nat, upper: bool, n: nat, acc: nat, rest: seq<byte>)
    requires d < 16 && n > 0
    ensures HexDigits([Digit(d, upper)] + rest, n, acc) == HexDigits(rest, n - 1, acc * 16 + d)
  {
    assert ([Digit(d, upper)] + rest)[1..] == rest;
    assert HexValue(Digit(d, upper)) == Some(d);
  }

  lemma FourReads(u: nat, upper: bool, rest: seq<byte>)
    requires u < 65536
    ensures QuadHex(Four(u, upper) + rest) == Good(u, rest)
  {
    hide HexDigits, Digit, Limit;
    var a, b, c, d := u / 4096, u / 256 % 16, u / 16 % 16, u % 16;
    var three := [Digit(d, upper)] + rest;
    var two := [Digit(c, upper)] + three;
    var one := [Digit(b, upper)] + two;
    assert Four(u, upper) + rest == [Digit(a, upper)] + one;
    DigitReads(a, upper, 4, 0, one);
    DigitReads(b, upper, 3, a, two);
    DigitReads(c, upper, 2, a * 16 + b, three);
    DigitReads(d, upper, 1, (a * 16 + b) * 16 + c, rest);
    Digits16(u);
    NoMoreDigits(rest, u);
  }

  lemma Digits16(u: nat)
    ensures ((u / 4096 * 16 + u / 256 % 16) * 16 + u / 16 % 16) * 16 + u % 16 == u
  {
    Halve16(u);
    Halve16(u / 16);
    assert u / 256 == u / 16 / 16;
    assert u / 4096 == u / 256 / 16;
  }

  lemma Halve16(u: nat)
    ensures u / 16 * 16 + u % 16 == u && u / 16 / 16 * 16 + u / 16 % 16 == u / 16
  {
  }

  lemma NoMoreDigits(rest: seq<byte>, u: nat)
    ensures HexDigits(rest, 0, u) == Good(u, rest)
  {
  }

  /** The characters a JSON text can hold: all code points but the surrogates. */
  predicate IsScalar(u: nat) {
    u < 0x110000 && !IsHigh(u) && !IsLow(u)
  }

  /** A character escaped behind `\u`, by one group or by a surrogate pair (section 7 of RFC 8259). */
  function Escaped(u: nat, upper: bool): seq<byte>
    requires IsScalar(u)
  {
    if u < 0x10000 then Four(u, upper)
    else
      var v := u - 0x10000;
      Four(0xD800 + v / 1024, upper) + [BACKSLASH, 0x75] + Four(0xDC00 + v % 1024, upper)
  }

  /** An escaped character is read as its UTF-8 octets. */
  lemma EscapedReads(u: nat, upper: bool, rest: seq<byte>)
    requires IsScalar(u)
    ensures Codepoint(Escaped(u, upper) + rest) == Good(Utf8(u), rest)
  {
    hide Four, QuadHex, Utf8;
    if u < 0x10000 {
      FourReads(u, upper, rest);
    } else {
      var v := u - 0x10000;
      var high, low := 0xD800 + v / 1024, 0xDC00 + v % 1024;
      var behind := [BACKSLASH, 0x75] + (Four(low, upper) + rest);
      assert Escaped(u, upper) + rest == Four(high, upper) + behind;
      FourReads(high, upper, behind);
      assert behind[2..] == Four(low, upper) + rest;
      FourReads(low, upper, rest);
      assert Paired(high, low) == u;
    }
  }

  /** Decoding UTF-8: the character number in the free bits of the octets. */
  function Utf8Value(b: seq<byte>): Option<nat> {
    if |b| == 1 && b[0] < 0x80 then Some(b[0])
    else if |b| == 2 && 0xC0 <= b[0] < 0xE0 && 0x80 <= b[1] < 0xC0 then Some((b[0] as int - 0xC0) * 64 + (b[1] as int - 0x80))
    else if |b| == 3 && 0xE0 <= b[0] < 0xF0 && 0x80 <= b[1] < 0xC0 && 0x80 <= b[2] < 0xC0 then
      Some((b[0] as int - 0xE0) * 4096 + (b[1] as int - 0x80) * 64 + (b[2] as int - 0x80))
    else if |b| == 4 && 0xF0 <= b[0] < 0xF8 && 0x80 <= b[1] < 0xC0 && 0x80 <= b[2] < 0xC0 && 0x80 <= b[3] < 0xC0 then
      Some((b[0] as int - 0xF0) * 262144 + (b[1] as int - 0x80) * 4096 + (b[2] as int - 0x80) * 64 + (b[3] as int - 0x80))
    else None
  }

  lemma Utf8Decodes(u: nat)
    requires u < 0x110000
    ensures Utf8Value(Utf8(u)) == Some(u)
  {
    if u >= 0x10000 {
      Digits64(u);
    }
  }

  lemma Digits64(u: nat)
    ensures u == u / 262144 * 262144 + u / 4096 % 64 * 4096 + u / 64 % 64 * 64 + u % 64
  {
    Quotient64(u);
    Quotient64(u / 64);
    assert u / 262144 == u / 4096 / 64;
  }

  lemma Quotient64(u: nat)
    ensures u == u / 64 * 64 + u % 64 && u / 64 == u / 64 / 64 * 64 + u / 64 % 64 && u / 4096 == u / 64 / 64
  {
  }

  /** Whatever an escape is accepted as is the UTF-8 of a character, never of a surrogate. */
  lemma CodepointIsScalar(s: seq<byte>) returns (u: nat)
    requires Codepoint(s).Good?
    ensures IsScalar(u) && Codepoint(s).value == Utf8(u) && Utf8Value(Codepoint(s).value) == Some(u)
  {
    hide QuadHex, Utf8, Utf8Value;
    var g := QuadHex(s);
    u := g.value;
    if IsHigh(u) { u := Paired(u, QuadHex(g.rest[2..]).value); }
    Utf8Decodes(u);
  }

  // ---------------------------------------------------------------- strings

  lemma ControlReads(c: byte, rest: seq<byte>)
    requires c < 0x80
    ensures Codepoint([0x30, 0x30, Hex(c / 16), Hex(c % 16)] + rest) == Good([c], rest)
  {
    hide QuadHex;
    assert Four(c, false) == [0x30, 0x30, Hex(c / 16), Hex(c % 16)];
    FourReads(c, false, rest);
  }

  lemma ByteReads(c: byte, rest: seq<byte>, acc: seq<byte>)
    ensures StringTail(EscapeByte(c) + rest, acc) == StringTail(rest, acc + [c])
  {
    hide Codepoint, Hex;
    var s := EscapeByte(c) + rest;
    if |EscapeByte(c)| == 6 {
      ControlReads(c, rest);
      assert s[2..] == [0x30, 0x30, Hex(c / 16), Hex(c % 16)] + rest;
    } else if |EscapeByte(c)| == 2 {
      assert s[2..] == rest;
    } else {
      assert s[1..] == rest;
    }
  }

  /** A printed string is read back, whatever its bytes. */
  lemma {:induction false} StringReads(x: seq<byte>, rest: seq<byte>, acc: seq<byte>)
    ensures StringTail(EscapeAll(x) + ([QUOTE] + rest), acc) == Good(acc + x, rest)
    decreases |x|
  {
    hide EscapeByte;
    if x == [] {
      assert EscapeAll(x) + ([QUOTE] + rest) == [QUOTE] + rest && acc + x == acc;
      assert ([QUOTE] + rest)[1..] == rest;
    } else {
      var more := EscapeAll(x[1..]) + ([QUOTE] + rest);
      assert EscapeAll(x) + ([QUOTE] + rest) == EscapeByte(x[0]) + more;
      ByteReads(x[0], more, acc);
      StringReads(x[1..], rest, acc + [x[0]]);
      assert acc + [x[0]] + x[1..] == acc + x;
    }
  }

  // ---------------------------------------------------------------- white space and numbers

  lemma {:induction false} SkipSpaces(n: nat, s: seq<byte>)
    ensures SkipWs(Spaces(n) + s) == SkipWs(s)
  {
    if n == 0 {
      assert Spaces(n) + s == s;
    } else {
      assert (Spaces(n) + s)[1..] == Spaces(n - 1) + s;
      SkipSpaces(n - 1, s);
    }
  }

  lemma SkipIndent(indent: int, s: seq<byte>)
    ensures SkipWs(Indent(indent) + s) == SkipWs(s)
  {
    if indent < 0 {
      assert Indent(indent) + s == s;
    } else {
      assert (Indent(indent) + s)[1..] == Spaces(indent * INDENT_WIDTH) + s;
      SkipSpaces(indent * INDENT_WIDTH, s);
    }
  }

  /** White space in front does not matter. */
  lemma ParseSkips(s: seq<byte>, t: seq<byte>, read: Reader)
    requires SkipWs(s) == SkipWs(t)
    ensures Parse(s, read) == Parse(t, read)
    ensures forall c :: Expect(s, c) == Expect(t, c)
  {
    hide StringTail, Literal, ParseItems, ParseFields;
  }

  lemma {:induction false} NumberEnds(text: seq<byte>, rest: seq<byte>)
    requires forall i :: 0 <= i < |text| ==> IsNumberByte(text[i])
    requires rest == [] || !IsNumberByte(rest[0])
    ensures NumberLength(text + rest) == |text|
    decreases |text|
  {
    hide IsNumberByte;
    if text == [] {
      assert text + rest == rest;
    } else {
      assert (text + rest)[1..] == text[1..] + rest;
      NumberEnds(text[1..], rest);
    }
  }

  // ---------------------------------------------------------------- values

  /** The text of a number that prints as it was read. */
  predicate NumberText(text: seq<byte>, read: Reader) {
    && text != [] && (IsDigit(text[0]) || text[0] == 0x2D)
    && (forall i :: 0 <= i < |text| ==> IsNumberByte(text[i]))
    && read(text) == Some(text)
  }

  /** Numbers print as they read, and fields are in the order of the map. */
  predicate ValidValue(v: Value, read: Reader) {
    match v
    case Num(text) => NumberText(text, read)
    case Arr(items) => forall i :: 0 <= i < |items| ==> ValidValue(items[i], read)
    case Obj(fields) => Sorted(fields) && forall i :: 0 <= i < |fields| ==> ValidValue(fields[i].value, read)
    case _ => true
  }

  /** What may follow a printed value: a number must not run on. */
  predicate Ends(v: Value, rest: seq<byte>) {
    v.Num? ==> rest == [] || !IsNumberByte(rest[0])
  }

  /** Printed values do not start with white space, nor with what ends an array. */
  lemma PrintStarts(v: Value, indent: int, read: Reader)
    requires ValidValue(v, read)
    ensures Print(v, indent) != [] && !IsWs(Print(v, indent)[0]) && Print(v, indent)[0] != 0x5D
  {
    hide PrintItems, PrintFields, EscapeAll, Indent;
  }

  lemma Scalars(v: Value, indent: int, rest: seq<byte>, read: Reader)
    requires ValidValue(v, read) && Ends(v, rest) && !v.Arr? && !v.Obj?
    ensures Parse(Print(v, indent) + rest, read) == Good(v, rest)
  {
    hide StringTail, NumberLength, EscapeAll;
    var s := Print(v, indent) + rest;
    assert SkipWs(s) == s by { PrintStarts(v, indent, read); }
    match v
    case Null => LiteralReads(0x6E, [0x75, 0x6C, 0x6C], rest, s);
    case Bool(b) =>
      if b { LiteralReads(0x74, [0x72, 0x75, 0x65], rest, s); } else { LiteralReads(0x66, [0x61, 0x6C, 0x73, 0x65], rest, s); }
    case Num(text) =>
      NumberEnds(text, rest);
      assert s[..|text|] == text && s[|text|..] == rest;
    case Str(x) =>
      assert s[1..] == EscapeAll(x) + ([QUOTE] + rest);
      StringReads(x, rest, []);
      assert [] + x == x;
  }

  lemma LiteralReads(first: byte, word: seq<byte>, rest: seq<byte>, s: seq<byte>)
    requires s == [first] + word + rest
    ensures s != [] && s[0] == first
    ensures forall v: Value :: Literal(s[1..], word, v) == Good(v, rest)
  {
    assert s[1..] == word + rest;
    assert (word + rest)[..|word|] == word && (word + rest)[|word|..] == rest;
  }

  /** The text that ends an array or an object, with `rest` behind it. */
  predicate Closes(tail: seq<byte>, c: byte, rest: seq<byte>) {
    tail != [] && !IsNumberByte(tail[0]) && SkipWs(tail) == [c] + rest
  }

  lemma ClosingReads(indent: int, c: byte, rest: seq<byte>)
    requires c == 0x5D || c == 0x7D
    ensures Closes(Indent(indent) + ([c] + rest), c, rest)
  {
    SkipIndent(indent, [c] + rest);
    if indent < 0 { assert Indent(indent) + ([c] + rest) == [c] + rest; }
  }

  lemma ExpectClosing(tail: seq<byte>, c: byte, rest: seq<byte>)
    requires Closes(tail, c, rest)
    ensures Expect(tail, c) == Some(rest)
    ensures forall d :: d != c ==> Expect(tail, d) == None
  {
    assert ([c] + rest)[1..] == rest;
  }

  lemma ExpectHere(c: byte, s: seq<byte>)
    requires !IsWs(c)
    ensures Expect([c] + s, c) == Some(s)
    ensures forall d :: d != c ==> Expect([c] + s, d) == None
  {
    assert SkipWs([c] + s) == [c] + s;
    assert ([c] + s)[1..] == s;
  }

  /** Item `i` and those behind it, without the comma in front. */
  function ItemText(v: Value, i: nat, indent: int): seq<byte>
    requires v.Arr? && i < |v.items|
  {
    Indent(indent) + (Print(v.items[i], indent) + PrintItems(v, i + 1, indent))
  }

  lemma ItemsSplit(v: Value, i: nat, indent: int, tail: seq<byte>)
    requires v.Arr? && i < |v.items|
    ensures PrintItems(v, i, indent) + tail == (if i > 0 then [COMMA] else []) + (ItemText(v, i, indent) + tail)
    ensures ItemText(v, i, indent) + tail
         == Indent(indent) + (Print(v.items[i], indent) + (PrintItems(v, i + 1, indent) + tail))
  {
    hide Print, Indent;
    var a, b, c, d := if i > 0 then [COMMA] else [], Indent(indent), Print(v.items[i], indent), PrintItems(v, i + 1, indent);
    assert PrintItems(v, i, indent) == a + b + c + d;
    assert (a + b + c + d) + tail == a + ((b + (c + d)) + tail);
    assert (b + (c + d)) + tail == b + (c + (d + tail));
  }

  lemma {:induction false} ItemsRead(v: Value, i: nat, indent: int, tail: seq<byte>, rest: seq<byte>, read: Reader)
    requires v.Arr? && i < |v.items| && ValidValue(v, read) && Closes(tail, 0x5D, rest)
    ensures ParseItems(ItemText(v, i, indent) + tail, v.items[..i], read) == Good(v, rest)
    decreases v, 0, |v.items| - i
  {
    hide Print, Parse, Indent, ItemText, Expect, ValidValue, SkipWs;
    var x, more := v.items[i], PrintItems(v, i + 1, indent) + tail;
    ItemValid(v, i, read);
    ItemsSplit(v, i, indent, tail);
    SkipIndent(indent, Print(x, indent) + more);
    ParseSkips(ItemText(v, i, indent) + tail, Print(x, indent) + more, read);
    assert v.items[..i] + [x] == v.items[..i + 1];
    if i + 1 < |v.items| {
      ItemsSplit(v, i + 1, indent, tail);
      var next := ItemText(v, i + 1, indent) + tail;
      assert more == [COMMA] + next;
      PrintReads(x, indent, more, read);
      ExpectHere(COMMA, next);
      ItemsRead(v, i + 1, indent, tail, rest, read);
    } else {
      assert more == tail;
      PrintReads(x, indent, more, read);
      ExpectClosing(tail, 0x5D, rest);
      assert v.items[..i + 1] == v.items;
    }
  }

  lemma ItemValid(v: Value, i: nat, read: Reader)
    requires v.Arr? && i < |v.items| && ValidValue(v, read)
    ensures ValidValue(v.items[i], read)
  {
  }

  /** Field `i` and those behind it, without the comma in front. */
  function FieldText(v: Value, i: nat, indent: int): seq<byte>
    requires v.Obj? && i < |v.fields|
  {
    Indent(indent) + ([QUOTE] + (EscapeAll(v.fields[i].key) + ([QUOTE] + ValueText(v, i, indent))))
  }

  /** From the colon of field `i` on. */
  function ValueText(v: Value, i: nat, indent: int): seq<byte>
    requires v.Obj? && i < |v.fields|
  {
    [COLON] + (Gap(indent) + (Print(v.fields[i].value, indent) + PrintFields(v, i + 1, indent)))
  }

  function Gap(indent: int): seq<byte> {
    if indent != -1 then [SPACE] else []
  }

  lemma FieldsSplit(v: Value, i: nat, indent: int)
    requires v.Obj? && i < |v.fields|
    ensures PrintFields(v, i, indent) == (if i > 0 then [COMMA] else []) + FieldText(v, i, indent)
  {
    hide Print, Indent, EscapeAll;
    var comma, key := if i > 0 then [COMMA] else [], EscapeAll(v.fields[i].key);
    Nested(comma, Indent(indent), key, Gap(indent), Print(v.fields[i].value, indent), PrintFields(v, i + 1, indent));
  }

  lemma Assoc(a: seq<byte>, b: seq<byte>, c: seq<byte>)
    ensures a + b + c == a + (b + c)
  {
  }

  /** The pieces of a field, joined from the left or from the right. */
  lemma Nested(a: seq<byte>, b: seq<byte>, k: seq<byte>, g: seq<byte>, p: seq<byte>, f: seq<byte>)
    ensures a + b + ([QUOTE] + k + [QUOTE]) + [COLON] + g + p + f
         == a + (b + ([QUOTE] + (k + ([QUOTE] + ([COLON] + (g + (p + f)))))))
  {
    var q, s := [QUOTE], [QUOTE] + k + [QUOTE];
    var z := [COLON] + (g + (p + f));
    Assoc(a + b + s + [COLON] + g, p, f);
    Assoc(a + b + s + [COLON], g, p + f);
    Assoc(a + b + s, [COLON], g + (p + f));
    Assoc(a + b, s, z);
    Assoc(q + k, q, z);
    Assoc(q, k, q + z);
    Assoc(a, b, s + z);
  }

  lemma FieldTail(v: Value, i: nat, indent: int, tail: seq<byte>)
    requires v.Obj? && i < |v.fields|
    ensures FieldText(v, i, indent) + tail
         == Indent(indent) + ([QUOTE] + (EscapeAll(v.fields[i].key) + ([QUOTE] + (ValueText(v, i, indent) + tail))))
    ensures ValueText(v, i, indent) + tail
         == [COLON] + (Gap(indent) + (Print(v.fields[i].value, indent) + (PrintFields(v, i + 1, indent) + tail)))
  {
    hide Print, Indent, EscapeAll, Gap, PrintFields;
  }

  lemma FieldValid(v: Value, i: nat, read: Reader)
    requires v.Obj? && i < |v.fields| && ValidValue(v, read)
    ensures ValidValue(v.fields[i].value, read)
    ensures i > 0 ==> Less(v.fields[i - 1].key, v.fields[i].key)
  {
  }

  lemma PutLast(fields: seq<Field>, i: nat)
    requires i < |fields| && (i > 0 ==> Less(fields[i - 1].key, fields[i].key))
    ensures Put(fields[..i], fields[i].key, fields[i].value) == fields[..i + 1]
  {
    hide Less;
    assert fields[..i + 1] == fields[..i] + [fields[i]];
  }

  lemma GapSkips(indent: int, s: seq<byte>)
    ensures SkipWs(Gap(indent) + s) == SkipWs(s)
  {
    if indent != -1 {
      assert (Gap(indent) + s)[1..] == s;
    } else {
      assert Gap(indent) + s == s;
    }
  }

  /** The key of a field and its colon. */
  lemma KeyReads(v: Value, i: nat, indent: int, tail: seq<byte>)
    requires v.Obj? && i < |v.fields|
    ensures var s, key, k := FieldText(v, i, indent) + tail, v.fields[i].key, ValueText(v, i, indent) + tail;
            && Expect(s, QUOTE) == Some(EscapeAll(key) + ([QUOTE] + k))
            && StringTail(EscapeAll(key) + ([QUOTE] + k), []) == Good(key, k)
            && Expect(k, COLON) == Some(Gap(indent) + (Print(v.fields[i].value, indent) + (PrintFields(v, i + 1, indent) + tail)))
  {
    hide Print, Indent, EscapeAll, Gap, PrintFields, Expect, SkipWs, StringTail, ValueText, FieldText;
    FieldTail(v, i, indent, tail);
    var key, k := v.fields[i].key, ValueText(v, i, indent) + tail;
    var quoted := EscapeAll(key) + ([QUOTE] + k);
    SkipIndent(indent, [QUOTE] + quoted);
    ExpectSkips(FieldText(v, i, indent) + tail, [QUOTE] + quoted);
    ExpectHere(QUOTE, quoted);
    StringReads(key, k, []);
    assert [] + key == key;
    ExpectHere(COLON, Gap(indent) + (Print(v.fields[i].value, indent) + (PrintFields(v, i + 1, indent) + tail)));
  }

  lemma ExpectSkips(s: seq<byte>, t: seq<byte>)
    requires SkipWs(s) == SkipWs(t)
    ensures forall c :: Expect(s, c) == Expect(t, c)
  {
  }

  /** One field, once its parts are known. */
  lemma FieldStep(s: seq<byte>, acc: seq<Field>, key: seq<byte>, quoted: seq<byte>, k: seq<byte>, afterColon: seq<byte>,
                  x: Value, rest: seq<byte>, read: Reader)
    requires Expect(s, QUOTE) == Some(quoted) && StringTail(quoted, []) == Good(key, k) && Expect(k, COLON) == Some(afterColon)
    requires Parse(afterColon, read) == Good(x, rest)
    ensures Expect(rest, COMMA).Some? ==>
              ParseFields(s, acc, read) == ParseFields(Expect(rest, COMMA).value, Put(acc, key, x), read)
    ensures Expect(rest, COMMA).None? && Expect(rest, 0x7D).Some? ==>
              ParseFields(s, acc, read) == Good(Obj(Put(acc, key, x)), Expect(rest, 0x7D).value)
  {
    hide Parse, Expect, StringTail, Put;
  }

  lemma {:induction false} FieldsRead(v: Value, i: nat, indent: int, tail: seq<byte>, rest: seq<byte>, read: Reader)
    requires v.Obj? && i < |v.fields| && ValidValue(v, read) && Closes(tail, 0x7D, rest)
    ensures ParseFields(FieldText(v, i, indent) + tail, v.fields[..i], read) == Good(v, rest)
    decreases v, 0, |v.fields| - i
  {
    hide Print, Parse, Indent, FieldText, ValueText, Expect, ValidValue, SkipWs, StringTail, Put, EscapeAll, Gap, ParseFields;
    var x, more := v.fields[i].value, PrintFields(v, i + 1, indent) + tail;
    FieldValid(v, i, read);
    KeyReads(v, i, indent, tail);
    PutLast(v.fields, i);
    GapSkips(indent, Print(x, indent) + more);
    ParseSkips(Gap(indent) + (Print(x, indent) + more), Print(x, indent) + more, read);
    var s, key, k := FieldText(v, i, indent) + tail, v.fields[i].key, ValueText(v, i, indent) + tail;
    if i + 1 < |v.fields| {
      FieldsSplit(v, i + 1, indent);
      var next := FieldText(v, i + 1, indent) + tail;
      assert more == [COMMA] + next;
      PrintReads(x, indent, more, read);
      FieldStep(s, v.fields[..i], key, EscapeAll(key) + ([QUOTE] + k), k, Gap(indent) + (Print(x, indent) + more), x, more, read);
      ExpectHere(COMMA, next);
      FieldsRead(v, i + 1, indent, tail, rest, read);
    } else {
      assert more == tail;
      PrintReads(x, indent, more, read);
      FieldStep(s, v.fields[..i], key, EscapeAll(key) + ([QUOTE] + k), k, Gap(indent) + (Print(x, indent) + more), x, more, read);
      ExpectClosing(tail, 0x7D, rest);
      assert v.fields[..i + 1] == v.fields;
    }
  }

  lemma {:induction false} ArrayReads(v: Value, indent: int, rest: seq<byte>, read: Reader)
    requires v.Arr? && ValidValue(v, read)
    ensures Parse(Print(v, indent) + rest, read) == Good(v, rest)
    decreases v, 1
  {
    hide PrintItems, Indent, ValidValue, ItemText, Expect, ParseItems, StringTail, Literal, ParseFields;
    var s := Print(v, indent) + rest;
    if v.items == [] {
      EmptyItems(v, Deeper(indent));
      assert s == [0x5B] + ([0x5D] + rest) && s[1..] == [0x5D] + rest;
      ExpectHere(0x5D, rest);
    } else {
      var tail := Indent(indent) + ([0x5D] + rest);
      ItemsSplit(v, 0, Deeper(indent), tail);
      assert s == [0x5B] + (PrintItems(v, 0, Deeper(indent)) + tail);
      assert s[1..] == ItemText(v, 0, Deeper(indent)) + tail;
      ClosingReads(indent, 0x5D, rest);
      ItemsRead(v, 0, Deeper(indent), tail, rest, read);
      FirstItemNotEnd(v, Deeper(indent), tail, read);
      assert v.items[..0] == [];
    }
  }

  lemma EmptyItems(v: Value, indent: int)
    ensures v.Arr? && v.items == [] ==> PrintItems(v, 0, indent) == []
    ensures v.Obj? && v.fields == [] ==> PrintFields(v, 0, indent) == []
  {
  }

  lemma FirstItemNotEnd(v: Value, indent: int, tail: seq<byte>, read: Reader)
    requires v.Arr? && v.items != [] && ValidValue(v, read)
    ensures Expect(ItemText(v, 0, indent) + tail, 0x5D) == None
  {
    hide Print, Indent, PrintItems, ItemText;
    var text, more := Print(v.items[0], indent), PrintItems(v, 1, indent) + tail;
    ItemsSplit(v, 0, indent, tail);
    SkipIndent(indent, text + more);
    PrintStarts(v.items[0], indent, read);
    assert (text + more)[0] == text[0];
  }

  lemma {:induction false} ObjectReads(v: Value, indent: int, rest: seq<byte>, read: Reader)
    requires v.Obj? && ValidValue(v, read)
    ensures Parse(Print(v, indent) + rest, read) == Good(v, rest)
    decreases v, 1
  {
    hide PrintFields, Indent, ValidValue, FieldText, Expect, ParseItems, StringTail, Literal, ParseFields;
    var s := Print(v, indent) + rest;
    if v.fields == [] {
      EmptyItems(v, Deeper(indent));
      assert s == [0x7B] + ([0x7D] + rest) && s[1..] == [0x7D] + rest;
      ExpectHere(0x7D, rest);
    } else {
      var tail := Indent(indent) + ([0x7D] + rest);
      FieldsSplit(v, 0, Deeper(indent));
      assert s == [0x7B] + (PrintFields(v, 0, Deeper(indent)) + tail);
      assert s[1..] == FieldText(v, 0, Deeper(indent)) + tail;
      ClosingReads(indent, 0x7D, rest);
      FieldsRead(v, 0, Deeper(indent), tail, rest, read);
      FirstFieldNotEnd(v, Deeper(indent), tail);
      assert v.fields[..0] == [];
    }
  }

  lemma FirstFieldNotEnd(v: Value, indent: int, tail: seq<byte>)
    requires v.Obj? && v.fields != []
    ensures Expect(FieldText(v, 0, indent) + tail, 0x7D) == None
  {
    hide Indent, FieldText, EscapeAll, ValueText;
    FieldTail(v, 0, indent, tail);
    var quoted := EscapeAll(v.fields[0].key) + ([QUOTE] + (ValueText(v, 0, indent) + tail));
    SkipIndent(indent, [QUOTE] + quoted);
    assert ([QUOTE] + quoted)[0] == QUOTE;
  }

  /** A printed value is read back, compact or indented to any depth, and what follows it is left. */
  lemma {:induction false} PrintReads(v: Value, indent: int, rest: seq<byte>, read: Reader)
    requires ValidValue(v, read) && Ends(v, rest)
    ensures Parse(Print(v, indent) + rest, read) == Good(v, rest)
    decreases v, 2
  {
    hide Parse, Print, ValidValue;
    if v.Arr? {
      ArrayReads(v, indent, rest, read);
    } else if v.Obj? {
      ObjectReads(v, indent, rest, read);
    } else {
      Scalars(v, indent, rest, read);
    }
  }

  /** parse(serialize(v)) is v; of an indented document only the last newline is left. */
  lemma SerializeReads(v: Value, prettify: bool, read: Reader)
    requires ValidValue(v, read)
    ensures Parse(Serialize(v, prettify), read) == Good(v, if prettify then [NEWLINE] else [])
  {
    hide Parse, Print, ValidValue;
    assert Print(v, -1) + [] == Print(v, -1);
    PrintReads(v, if prettify then 0 else -1, if prettify then [NEWLINE] else [], read);
  }
}
