/** Where reading stops in a text that is refused. */
module JsonErrors {
  import opened JsonText
  import opened JsonGrammar

  /** The text not handed out yet, and the same with the byte handed out last if that has not been put back
      or passed: lines are counted before `behind`. */
  datatype Stop = Stop(behind: seq<byte>, rest: seq<byte>)

  /** The offending byte has been put back. */
  function Here(s: seq<byte>): Stop {
    Stop(s, s)
  }

  /** The first `n` bytes have been handed out. */
  function After(s: seq<byte>, n: nat): Stop
    requires 0 < n <= |s|
  {
    Stop(s[n - 1..], s[n..])
  }

  /** At the first byte that is no digit. */
  function HexStop(s: seq<byte>, n: nat): Stop
    requires n > 0
    decreases n
  {
    if s == [] || HexValue(s[0]).None? || n == 1 then Here(s) else HexStop(s[1..], n - 1)
  }

  /** A number that is no character is noticed behind its digits. */
  function CodepointStop(s: seq<byte>): Stop {
    match QuadHex(s)
    case Bad => HexStop(s, 4)
    case Good(u, rest) =>
      if !IsHigh(u) then After(s, 4)
      else if rest == [] || rest[0] != BACKSLASH then Here(rest)
      else if |rest| == 1 || rest[1] != 0x75 then Here(rest[1..])
      else
        match QuadHex(rest[2..])
        case Bad => HexStop(rest[2..], 4)
        case Good(_, _) => After(rest, 6)
  }

  /** A control character is put back, the second character of a wrong escape is not. */
  function StringStop(s: seq<byte>): Stop
    decreases |s|
  {
    if s == [] || s[0] < SPACE || s[0] == QUOTE then Here(s)
    else if s[0] == BACKSLASH then
      if |s| < 2 then Here([])
      else if s[1] == 0x75 then
        match Codepoint(s[2..])
        case Bad => CodepointStop(s[2..])
        case Good(_, rest) => StringStop(rest)
      else if Unescaped(s[1]).Some? then StringStop(s[2..])
      else After(s, 2)
    else StringStop(s[1..])
  }

  /** At the first byte that is not that of the word. */
  function WordStop(s: seq<byte>, word: seq<byte>): Stop
    decreases |word|
  {
    if word == [] || s == [] || s[0] != word[0] then Here(s) else WordStop(s[1..], word[1..])
  }

  lemma {:induction false} WordStopAt(s: seq<byte>, word: seq<byte>, i: nat)
    requires i < |word| && i <= |s| && word[..i] == s[..i] && (i == |s| || s[i] != word[i])
    ensures WordStop(s, word) == Here(s[i..])
  {
    if i > 0 {
      assert word[1..][..i - 1] == word[..i][1..] == s[..i][1..] == s[1..][..i - 1];
      assert s[0] == s[..i][0] == word[..i][0] == word[0];
      WordStopAt(s[1..], word[1..], i - 1);
    }
  }

  lemma {:induction false} HexStopAt(s: seq<byte>, n: nat, i: nat)
    requires i < n && i <= |s| && (i == |s| || HexValue(s[i]).None?)
    requires forall j :: 0 <= j < i ==> HexValue(s[j]).Some?
    ensures HexStop(s, n) == Here(s[i..])
  {
    hide HexValue;
    if i > 0 { HexStopAt(s[1..], n - 1, i - 1); }
  }

  function ValueStop(s: seq<byte>, read: Reader): Stop
    decreases |s|, 2
  {
    var t := SkipWs(s);
    if t == [] then Here(t)
    else if t[0] == 0x6E then WordStop(t[1..], [0x75, 0x6C, 0x6C])
    else if t[0] == 0x66 then WordStop(t[1..], [0x61, 0x6C, 0x73, 0x65])
    else if t[0] == 0x74 then WordStop(t[1..], [0x72, 0x75, 0x65])
    else if t[0] == QUOTE then StringStop(t[1..])
    else if t[0] == 0x5B then ItemsStop(t[1..], read)
    else if t[0] == 0x7B then FieldsStop(t[1..], read)
    else if IsDigit(t[0]) || t[0] == 0x2D then Here(t[NumberLength(t)..])
    else Here(t)
  }

  function ItemsStop(s: seq<byte>, read: Reader): Stop
    decreases |s|, 3
  {
    match Parse(s, read)
    case Bad => ValueStop(s, read)
    case Good(_, rest) =>
      match Expect(rest, COMMA)
      case Some(more) => ItemsStop(more, read)
      case None => Here(SkipWs(rest))
  }

  function FieldsStop(s: seq<byte>, read: Reader): Stop
    decreases |s|, 3
  {
    match Expect(s, QUOTE)
    case None => Here(SkipWs(s))
    case Some(afterQuote) =>
      match StringTail(afterQuote, [])
      case Bad => StringStop(afterQuote)
      case Good(_, afterKey) =>
        match Expect(afterKey, COLON)
        case None => Here(SkipWs(afterKey))
        case Some(afterColon) =>
          match Parse(afterColon, read)
          case Bad => ValueStop(afterColon, read)
          case Good(_, rest) =>
            match Expect(rest, COMMA)
            case Some(more) => FieldsStop(more, read)
            case None => Here(SkipWs(rest))
  }

  // ---------------------------------------------------------------- one turn of a loop

  lemma ItemsStopStep(s: seq<byte>, read: Reader)
    ensures var p := Parse(s, read);
            ItemsStop(s, read) ==
            if p.Bad? then ValueStop(s, read)
            else if Expect(p.rest, COMMA).Some? then ItemsStop(Expect(p.rest, COMMA).value, read)
            else Here(SkipWs(p.rest))
  {
    hide Parse, Expect, ValueStop;
  }

  lemma FieldsStopStep(s: seq<byte>, read: Reader)
    ensures var q := Expect(s, QUOTE);
            if q.None? then FieldsStop(s, read) == Here(SkipWs(s))
            else
              var k := StringTail(q.value, []);
              if k.Bad? then FieldsStop(s, read) == StringStop(q.value)
              else
                var c := Expect(k.rest, COLON);
                if c.None? then FieldsStop(s, read) == Here(SkipWs(k.rest))
                else
                  var p := Parse(c.value, read);
                  FieldsStop(s, read) ==
                  if p.Bad? then ValueStop(c.value, read)
                  else if Expect(p.rest, COMMA).Some? then FieldsStop(Expect(p.rest, COMMA).value, read)
                  else Here(SkipWs(p.rest))
  {
    hide Parse, Expect, ValueStop, StringTail, StringStop;
  }

  lemma SkipWsOnce(s: seq<byte>)
    ensures SkipWs(SkipWs(s)) == SkipWs(s)
    ensures forall c :: Expect(SkipWs(s), c) == Expect(s, c)
  {
  }

  /** White space passed before does not matter. */
  lemma StopSkips(s: seq<byte>, read: Reader)
    ensures ValueStop(SkipWs(s), read) == ValueStop(s, read)
    ensures ItemsStop(SkipWs(s), read) == ItemsStop(s, read)
    ensures FieldsStop(SkipWs(s), read) == FieldsStop(s, read)
  {
    hide Expect, StringTail, ParseItems, ParseFields, Literal, NumberLength;
    SkipWsOnce(s);
    assert Parse(SkipWs(s), read) == Parse(s, read);
    assert ValueStop(SkipWs(s), read) == ValueStop(s, read) by { hide ItemsStop, FieldsStop, StringStop, WordStop; }
    hide Parse, SkipWs;
    ItemsStopStep(s, read);
    ItemsStopStep(SkipWs(s), read);
    FieldsStopStep(s, read);
    FieldsStopStep(SkipWs(s), read);
  }
}
