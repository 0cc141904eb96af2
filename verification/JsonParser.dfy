/** The recursive-descent parser over a cursor that can push one character back: it accepts exactly the
    language of `JsonGrammar`, builds the same value, stops at the same place, and keeps count of lines. */
module JsonParser {
  import opened JsonText
  import opened JsonGrammar
  import opened JsonErrors

  function Newlines(s: seq<byte>): nat {
    if s == [] then 0 else Newlines(s[..|s| - 1]) + (if s[|s| - 1] == NEWLINE then 1 else 0)
  }

  /** Bytes and the cursor of `input`: a byte handed out is passed only when the next one is asked for. */
  class Input {
    const text: seq<byte>
    var cur: nat
    var consumed: bool
    var line: nat

    ghost predicate Valid()
      reads this
    {
      && cur + (if consumed then 1 else 0) <= |text|
      && line == 1 + Newlines(text[..cur])
    }

    /** What the next `Getc` reads. */
    ghost function Rest(): seq<byte>
      requires Valid()
      reads this
    {
      text[cur + (if consumed then 1 else 0)..]
    }

    /** What it reads after an `Ungetc`. */
    ghost function Behind(): seq<byte>
      requires Valid()
      reads this
    {
      text[cur..]
    }

    /** Where reading stands. */
    ghost function Stopped(): Stop
      requires Valid()
      reads this
    {
      Stop(Behind(), Rest())
    }

    constructor (text: seq<byte>)
      ensures Valid() && Rest() == text && this.text == text
    {
      this.text := text;
      cur, consumed, line := 0, false, 1;
    }

    /** The next byte, -1 at the end. */
    method Getc() returns (ch: int)
      requires Valid()
      modifies this
      ensures Valid() && Behind() == old(Rest())
      ensures if old(Rest()) == [] then ch == -1 && Rest() == [] else ch == old(Rest())[0] && Rest() == old(Rest())[1..]
    {
      if consumed {
        assert text[..cur + 1][..cur] == text[..cur];
        if text[cur] == NEWLINE {
          line := line + 1;
        }
        cur := cur + 1;
      }
      if cur == |text| {
        consumed := false;
        return -1;
      }
      consumed := true;
      return text[cur];
    }

    method Ungetc()
      requires Valid()
      modifies `consumed
      ensures Valid() && Rest() == old(Behind()) && Behind() == old(Behind())
    {
      consumed := false;
    }

    /** `cur()`: where reading stopped. */
    method Position() returns (p: nat)
      requires Valid()
      modifies `consumed, `cur
      ensures p <= |text| && text[p..] == old(Rest()) && cur == p && !consumed
    {
      if consumed {
        consumed := false;
        cur := cur + 1;
      }
      return cur;
    }

    method SkipWs()
      requires Valid()
      modifies this
      ensures Valid() && Stopped() == Here(JsonGrammar.SkipWs(old(Rest())))
    {
      while true
        invariant Valid() && JsonGrammar.SkipWs(Rest()) == JsonGrammar.SkipWs(old(Rest()))
        decreases |Rest()|
      {
        var ch := Getc();
        if !(ch == 0x20 || ch == 0x09 || ch == 0x0A || ch == 0x0D) {
          Ungetc();
          break;
        }
      }
    }

    method Expect(expected: byte) returns (ok: bool)
      requires Valid()
      modifies this
      ensures Valid()
      ensures ok == JsonGrammar.Expect(old(Rest()), expected).Some?
      ensures ok ==> Rest() == JsonGrammar.Expect(old(Rest()), expected).value
      ensures !ok ==> Stopped() == Here(JsonGrammar.SkipWs(old(Rest())))
    {
      SkipWs();
      var ch := Getc();
      if ch != expected {
        Ungetc();
        return false;
      }
      return true;
    }

    /** The bytes of `pattern`, one after the other. */
    method Match(pattern: seq<byte>) returns (ok: bool)
      requires Valid()
      modifies this
      ensures Valid()
      ensures ok == (pattern <= old(Rest()))
      ensures ok ==> Rest() == old(Rest())[|pattern|..]
      ensures !ok ==> Stopped() == WordStop(old(Rest()), pattern)
    {
      hide WordStop;
      ghost var s := Rest();
      var i := 0;
      while i < |pattern|
        invariant Valid() && i <= |pattern| && i <= |s|
        invariant Rest() == s[i..] && pattern[..i] == s[..i]
      {
        var ch := Getc();
        if ch != pattern[i] {
          Ungetc();
          WordStopAt(s, pattern, i);
          return false;
        }
        assert pattern[..i + 1] == pattern[..i] + [pattern[i]] && s[..i + 1] == s[..i] + [s[i]];
        i := i + 1;
      }
      return true;
    }
  }

  // ---------------------------------------------------------------- characters

  /** One digit, or none. */
  lemma HexStep(s: seq<byte>, i: nat, acc: nat)
    requires i < 4 && i <= |s|
    ensures HexDigits(s[i..], 4 - i, acc)
         == if i == |s| || HexValue(s[i]).None? then Bad else HexDigits(s[i + 1..], 3 - i, acc * 16 + HexValue(s[i]).value)
  {
    hide HexValue;
    if i < |s| { assert s[i..][0] == s[i] && s[i..][1..] == s[i + 1..]; }
  }

  lemma HexDone(s: seq<byte>, acc: nat)
    ensures HexDigits(s, 0, acc) == Good(acc, s)
  {
  }

  method ParseQuadHex(input: Input) returns (u: int)
    requires input.Valid()
    modifies input
    ensures input.Valid()
    ensures var q := QuadHex(old(input.Rest()));
            if q.Bad? then u == -1 else u == q.value && input.Rest() == q.rest
    ensures if u == -1 then input.Stopped() == HexStop(old(input.Rest()), 4)
            else |old(input.Rest())| >= 4 && input.Stopped() == After(old(input.Rest()), 4)
  {
    hide HexStop, HexDigits, input.Valid, input.Rest, input.Behind;
    u := 0;
    ghost var s := input.Rest();
    assert s[0..] == s;
    for i := 0 to 4
      invariant input.Valid() && i <= |s| && input.Rest() == s[i..] && (i > 0 ==> input.Behind() == s[i - 1..])
      invariant u >= 0 && HexDigits(s, 4, 0) == HexDigits(s[i..], 4 - i, u)
      invariant forall j :: 0 <= j < i ==> HexValue(s[j]).Some?
    {
      HexStep(s, i, u);
      var hex := input.Getc();
      if hex == -1 {
        HexStopAt(s, 4, i);
        return -1;
      }
      if 0x30 <= hex <= 0x39 {
        hex := hex - 0x30;
      } else if 0x41 <= hex <= 0x46 {
        hex := hex - (0x41 - 10);
      } else if 0x61 <= hex <= 0x66 {
        hex := hex - (0x61 - 10);
      } else {
        input.Ungetc();
        HexStopAt(s, 4, i);
        return -1;
      }
      u := u * 16 + hex;
    }
    HexDone(s[4..], u);
  }

  /** Appends the UTF-8 octets of the escaped character. */
  method ParseCodepoint(input: Input, before: seq<byte>) returns (ok: bool, out: seq<byte>)
    requires input.Valid()
    modifies input
    ensures input.Valid()
    ensures var c := Codepoint(old(input.Rest()));
            ok == c.Good? && (ok ==> out == before + c.value && input.Rest() == c.rest)
    ensures !ok ==> input.Stopped() == CodepointStop(old(input.Rest()))
  {
    hide QuadHex, Utf8, HexStop, input.Valid, input.Rest, input.Behind;
    out := before;
    var u := ParseQuadHex(input);
    if u == -1 {
      return false, out;
    }
    if 0xD800 <= u <= 0xDFFF {
      if 0xDC00 <= u {
        return false, out;
      }
      ghost var rest := input.Rest();
      var ch := input.Getc();
      if ch != BACKSLASH {
        input.Ungetc();
        return false, out;
      }
      ch := input.Getc();
      if ch != 0x75 {
        input.Ungetc();
        return false, out;
      }
      assert input.Rest() == rest[2..];
      var second := ParseQuadHex(input);
      if !(0xDC00 <= second <= 0xDFFF) {
        return false, out;
      }
      u := (u - 0xD800) * 1024 + (second - 0xDC00) % 1024;
      u := u + 0x10000;
    }
    ok := true;
    out := Append(u, before);
  }

  /** The octets are pushed from the first to the last, the common ones at the end. */
  method Append(u: nat, before: seq<byte>) returns (out: seq<byte>)
    requires u < 0x110000
    ensures out == before + Utf8(u)
  {
    out := before;
    if u < 0x80 {
      out := out + [u];
    } else {
      if u < 0x800 {
        out := out + [0xC0 + u / 64];
      } else {
        if u < 0x10000 {
          out := out + [0xE0 + u / 4096];
        } else {
          out := out + [0xF0 + u / 262144];
          out := out + [0x80 + u / 4096 % 64];
        }
        out := out + [0x80 + u / 64 % 64];
      }
      out := out + [0x80 + u % 64];
    }
  }

  method ParseString(input: Input) returns (ok: bool, out: seq<byte>)
    requires input.Valid()
    modifies input
    ensures input.Valid()
    ensures var r := StringTail(old(input.Rest()), []);
            ok == r.Good? && (ok ==> out == r.value && input.Rest() == r.rest)
    ensures !ok ==> input.Stopped() == StringStop(old(input.Rest()))
  {
    hide Codepoint, CodepointStop, input.Valid;
    out := [];
    while true
      invariant input.Valid()
      invariant StringTail(old(input.Rest()), []) == StringTail(input.Rest(), out)
      invariant StringStop(old(input.Rest())) == StringStop(input.Rest())
      decreases |input.Rest()|
    {
      ghost var s := input.Rest();
      var ch := input.Getc();
      if ch < 0x20 {
        input.Ungetc();
        return false, out;
      } else if ch == QUOTE {
        return true, out;
      } else if ch == BACKSLASH {
        ch := input.Getc();
        if ch == -1 {
          return false, out;
        }
        assert input.Rest() == s[2..];
        if ch == 0x75 {
          var good;
          good, out := ParseCodepoint(input, out);
          if !good {
            return false, out;
          }
        } else if Unescaped(ch).Some? {
          out := out + [Unescaped(ch).value];
        } else {
          return false, out;
        }
      } else {
        out := out + [ch];
      }
    }
    assert false;
  }

  // ---------------------------------------------------------------- values

  lemma NumberGoesOn(s: seq<byte>, i: nat)
    requires i <= |s|
    ensures NumberLength(s[i..]) == if i < |s| && IsNumberByte(s[i]) then 1 + NumberLength(s[i + 1..]) else 0
  {
    if i < |s| { assert s[i..][0] == s[i] && s[i..][1..] == s[i + 1..]; }
  }

  method ParseNumber(input: Input) returns (num: seq<byte>)
    requires input.Valid()
    modifies input
    ensures input.Valid()
    ensures var s := old(input.Rest());
            num == s[..NumberLength(s)] && input.Stopped() == Here(s[NumberLength(s)..])
  {
    hide NumberLength, input.Valid, input.Rest, input.Behind;
    num := [];
    ghost var s := input.Rest();
    assert s[0..] == s;
    while true
      invariant input.Valid() && |num| <= |s|
      invariant num == s[..|num|] && input.Rest() == s[|num|..]
      invariant NumberLength(s) == |num| + NumberLength(s[|num|..])
      decreases |input.Rest()|
    {
      NumberGoesOn(s, |num|);
      var ch := input.Getc();
      if 0x30 <= ch <= 0x39 || ch == 0x2B || ch == 0x2D || ch == 0x65 || ch == 0x45 {
        num := num + [ch];
      } else if ch == 0x2E {
        num := num + [0x2E];
      } else {
        input.Ungetc();
        break;
      }
    }
  }

  /** A value, an array behind its bracket, an object behind its brace; `read` reads the text of a number. */
  method ParseValue(input: Input, read: Reader) returns (ok: bool, v: Value)
    requires input.Valid()
    modifies input
    ensures input.Valid()
    ensures var r := Parse(old(input.Rest()), read);
            ok == r.Good? && (ok ==> v == r.value && input.Rest() == r.rest)
    ensures !ok ==> input.Stopped() == ValueStop(old(input.Rest()), read)
    decreases |input.Rest()|, 2
  {
    hide StringTail, ParseItems, ParseFields, NumberLength, Expect, StringStop, ItemsStop, FieldsStop, WordStop,
      input.Valid, input.Rest, input.Behind;
    v := Null;
    input.SkipWs();
    ghost var t := input.Rest();
    var ch := input.Getc();
    if ch == 0x6E {
      ok := input.Match([0x75, 0x6C, 0x6C]);
    } else if ch == 0x66 {
      ok := input.Match([0x61, 0x6C, 0x73, 0x65]);
      v := Bool(false);
    } else if ch == 0x74 {
      ok := input.Match([0x72, 0x75, 0x65]);
      v := Bool(true);
    } else if ch == QUOTE {
      var s;
      ok, s := ParseString(input);
      v := Str(s);
    } else if ch == 0x5B {
      ok, v := ParseArray(input, read);
    } else if ch == 0x7B {
      ok, v := ParseObject(input, read);
    } else if 0x30 <= ch <= 0x39 || ch == 0x2D {
      input.Ungetc();
      var num := ParseNumber(input);
      var text := read(num);
      ok := num != [] && text.Some?;
      if ok { v := Num(text.value); }
    } else {
      input.Ungetc();
      ok := false;
    }
  }

  method ParseArray(input: Input, read: Reader) returns (ok: bool, v: Value)
    requires input.Valid()
    modifies input
    ensures input.Valid()
    ensures var r := ArrayBehind(old(input.Rest()), read);
            ok == r.Good? && (ok ==> v == r.value && input.Rest() == r.rest)
    ensures !ok ==> input.Stopped() == ItemsStop(old(input.Rest()), read)
    decreases |input.Rest()|, 4
  {
    hide Parse, ParseItems, Expect, ItemsStop, ValueStop, input.Valid, input.Rest, input.Behind, ItemsEnd;
    ghost var s := input.Rest();
    ok := input.Expect(0x5D);
    v := Arr([]);
    if ok { return; }
    SkipTwice(s, read);
    StopSkips(s, read);
    var items: seq<Value> := [];
    var more := true;
    while more
      invariant input.Valid() && |input.Rest()| <= |s|
      invariant ParseItems(s, [], read) == if more then ParseItems(input.Rest(), items, read) else ItemsEnd(input.Rest(), items)
      invariant ItemsStop(s, read) == if more then ItemsStop(input.Rest(), read) else Here(SkipWs(input.Rest()))
      decreases more, |input.Rest()|
    {
      ghost var here := input.Rest();
      ItemStep(here, items, read);
      ItemsStopStep(here, read);
      var x;
      ok, x := ParseValue(input, read);
      if !ok { return; }
      items := items + [x];
      SkipTwice(input.Rest(), read);
      SkipWsOnce(input.Rest());
      more := input.Expect(COMMA);
    }
    ItemsEndMeans(input.Rest(), items);
    ok := input.Expect(0x5D);
    v := Arr(items);
  }

  method ParseObject(input: Input, read: Reader) returns (ok: bool, v: Value)
    requires input.Valid()
    modifies input
    ensures input.Valid()
    ensures var r := ObjectBehind(old(input.Rest()), read);
            ok == r.Good? && (ok ==> v == r.value && input.Rest() == r.rest)
    ensures !ok ==> input.Stopped() == FieldsStop(old(input.Rest()), read)
    decreases |input.Rest()|, 4
  {
    hide Parse, ParseFields, Expect, Put, StringTail, FieldsStop, StringStop, ValueStop, input.Valid, input.Rest,
      input.Behind, FieldsEnd;
    ghost var s := input.Rest();
    ok := input.Expect(0x7D);
    v := Obj([]);
    if ok { return; }
    SkipTwice(s, read);
    StopSkips(s, read);
    var fields: seq<Field> := [];
    var more := true;
    while more
      invariant input.Valid() && |input.Rest()| <= |s|
      invariant ParseFields(s, [], read) == if more then ParseFields(input.Rest(), fields, read) else FieldsEnd(input.Rest(), fields)
      invariant FieldsStop(s, read) == if more then FieldsStop(input.Rest(), read) else Here(SkipWs(input.Rest()))
      decreases more, |input.Rest()|
    {
      ghost var here := input.Rest();
      FieldStep(here, fields, read);
      FieldsStopStep(here, read);
      ok := input.Expect(QUOTE);
      if !ok { return; }
      var key, x;
      ok, key := ParseString(input);
      if !ok { return; }
      ok := input.Expect(COLON);
      if !ok { return; }
      ok, x := ParseValue(input, read);
      if !ok { return; }
      fields := Put(fields, key, x);
      SkipTwice(input.Rest(), read);
      SkipWsOnce(input.Rest());
      more := input.Expect(COMMA);
    }
    FieldsEndMeans(input.Rest(), fields);
    ok := input.Expect(0x7D);
    v := Obj(fields);
  }

  // ---------------------------------------------------------------- documents

  /** The printable bytes up to the end of the line. */
  function Near(s: seq<byte>): seq<byte> {
    if s == [] || s[0] == NEWLINE then [] else (if s[0] >= SPACE then [s[0]] else []) + Near(s[1..])
  }

  method RestOfLine(input: Input) returns (near: seq<byte>)
    requires input.Valid()
    modifies input
    ensures input.Valid() && near == Near(old(input.Rest()))
  {
    hide input.Valid, input.Rest, input.Behind;
    near := [];
    while true
      invariant input.Valid() && near + Near(input.Rest()) == Near(old(input.Rest()))
      decreases |input.Rest()|
    {
      ghost var here := input.Rest();
      var ch := input.Getc();
      if ch == -1 || ch == NEWLINE {
        break;
      } else if ch >= 0x20 {
        assert near + Near(here) == near + [ch] + Near(here[1..]);
        near := near + [ch];
      }
    }
  }

  /** Reads one value from the front of `text`; of an error, the line reading stopped in and the text near. */
  method ParseText(text: seq<byte>, read: Reader)
    returns (ok: bool, v: Value, pos: nat, line: nat, near: seq<byte>)
    ensures pos <= |text|
    ensures var r := Parse(text, read);
            ok == r.Good? && (ok ==> v == r.value && text[pos..] == r.rest)
    ensures !ok ==>
              var stop := ValueStop(text, read);
              && |stop.behind| <= |text| && stop.behind == text[|text| - |stop.behind|..]
              && line == 1 + Newlines(text[..|text| - |stop.behind|]) && near == Near(stop.rest)
  {
    hide Parse, Newlines, ValueStop;
    var input := new Input(text);
    ok, v := ParseValue(input, read);
    line, near := input.line, [];
    ghost var cur := input.cur;
    assert text[cur..] == input.Behind();
    if !ok {
      near := RestOfLine(input);
    }
    pos := input.Position();
  }

  // ---------------------------------------------------------------- arrays and objects, one turn of the loop

  /** An array behind its bracket. */
  ghost function ArrayBehind(s: seq<byte>, read: Reader): Res<Value> {
    if Expect(s, 0x5D).Some? then Good(Arr([]), Expect(s, 0x5D).value) else ParseItems(s, [], read)
  }

  ghost function ObjectBehind(s: seq<byte>, read: Reader): Res<Value> {
    if Expect(s, 0x7D).Some? then Good(Obj([]), Expect(s, 0x7D).value) else ParseFields(s, [], read)
  }

  ghost function ItemsEnd(s: seq<byte>, items: seq<Value>): Res<Value> {
    if Expect(s, 0x5D).Some? then Good(Arr(items), Expect(s, 0x5D).value) else Bad
  }

  ghost function FieldsEnd(s: seq<byte>, fields: seq<Field>): Res<Value> {
    if Expect(s, 0x7D).Some? then Good(Obj(fields), Expect(s, 0x7D).value) else Bad
  }

  lemma ItemsEndMeans(s: seq<byte>, items: seq<Value>)
    ensures ItemsEnd(s, items) == if Expect(s, 0x5D).Some? then Good(Arr(items), Expect(s, 0x5D).value) else Bad
  {
  }

  lemma FieldsEndMeans(s: seq<byte>, fields: seq<Field>)
    ensures FieldsEnd(s, fields) == if Expect(s, 0x7D).Some? then Good(Obj(fields), Expect(s, 0x7D).value) else Bad
  {
  }

  /** White space passed by an `Expect` that failed does not matter to what is tried next. */
  lemma SkipTwice(s: seq<byte>, read: Reader)
    ensures forall acc :: ParseItems(SkipWs(s), acc, read) == ParseItems(s, acc, read)
    ensures forall acc :: ParseFields(SkipWs(s), acc, read) == ParseFields(s, acc, read)
    ensures forall items :: ItemsEnd(SkipWs(s), items) == ItemsEnd(s, items)
    ensures forall fields :: FieldsEnd(SkipWs(s), fields) == FieldsEnd(s, fields)
  {
    assert SkipWs(SkipWs(s)) == SkipWs(s);
    assert Parse(SkipWs(s), read) == Parse(s, read) by {
      hide StringTail, ParseItems, ParseFields, Literal, NumberLength;
    }
    forall acc ensures ParseItems(SkipWs(s), acc, read) == ParseItems(s, acc, read) {
      hide Parse, SkipWs, Expect;
    }
    forall acc ensures ParseFields(SkipWs(s), acc, read) == ParseFields(s, acc, read) {
      hide Parse, SkipWs, StringTail, Put;
    }
  }

  lemma ItemStep(s: seq<byte>, acc: seq<Value>, read: Reader)
    ensures var p := Parse(s, read);
            ParseItems(s, acc, read) ==
            if p.Bad? then Bad
            else if Expect(p.rest, COMMA).Some? then ParseItems(Expect(p.rest, COMMA).value, acc + [p.value], read)
            else ItemsEnd(p.rest, acc + [p.value])
  {
    hide Parse, Expect;
  }

  /** A field: quote, key, colon, value. */
  ghost function FieldHere(s: seq<byte>, read: Reader): Res<Field> {
    if Expect(s, QUOTE).None? then Bad
    else
      var k := StringTail(Expect(s, QUOTE).value, []);
      if k.Bad? || Expect(k.rest, COLON).None? then Bad
      else
        var p := Parse(Expect(k.rest, COLON).value, read);
        if p.Bad? then Bad else Good(Field(k.value, p.value), p.rest)
  }

  lemma FieldStep(s: seq<byte>, acc: seq<Field>, read: Reader)
    ensures var f := FieldHere(s, read);
            ParseFields(s, acc, read) ==
            if f.Bad? then Bad
            else
              var fields := Put(acc, f.value.key, f.value.value);
              if Expect(f.rest, COMMA).Some? then ParseFields(Expect(f.rest, COMMA).value, fields, read)
              else FieldsEnd(f.rest, fields)
  {
    hide Parse, Expect, Put, StringTail;
  }
}
