/** The bytes of JSON text, spelled out: white space, the two-character escapes, and the layout of prettified text. */
module JsonExamples {
  import opened JsonText
  import opened JsonGrammar

  // ---------------------------------------------------------------- bytes

  /** White space, section 2 of RFC 8259. */
  lemma WhiteSpaceIs(c: byte)
    ensures IsWs(c) <==> c as char in " \t\n\r"
  {
    assert " \t\n\r" == [' ', '\t', '\n', '\r'];
  }

  /** The two-character escapes, section 7 of RFC 8259, and what they stand for. */
  const LETTERS: string := "\"\\/bfnrt"
  const MEANINGS: seq<byte> := [0x22, 0x5C, 0x2F, 0x08, 0x0C, 0x0A, 0x0D, 0x09]

  /** Each is printed for its byte and read as its byte, and there are no others. */
  lemma EscapesAre(c: byte)
    ensures forall k :: 0 <= k < 8 ==>
              EscapeByte(MEANINGS[k]) == ['\\' as int, LETTERS[k] as int] && Unescaped(LETTERS[k] as int) == Some(MEANINGS[k])
    ensures Unescaped(c).Some? ==> exists k :: 0 <= k < 8 && c == LETTERS[k] as int
  {
    assert LETTERS == ['"', '\\', '/', 'b', 'f', 'n', 'r', 't'];
    if Unescaped(c).Some? {
      var k := if c == 0x22 then 0 else if c == 0x5C then 1 else if c == 0x2F then 2 else if c == 0x62 then 3
               else if c == 0x66 then 4 else if c == 0x6E then 5 else if c == 0x72 then 6 else 7;
      assert c == LETTERS[k] as int;
    }
  }

  /** Other control bytes are printed with four digits, letters small. */
  lemma ControlsAre()
    ensures EscapeByte(0x00) == ['\\' as int, 'u' as int, '0' as int, '0' as int, '0' as int, '0' as int]
    ensures EscapeByte(0x1F) == ['\\' as int, 'u' as int, '0' as int, '0' as int, '1' as int, 'f' as int]
    ensures EscapeByte(0x7F) == ['\\' as int, 'u' as int, '0' as int, '0' as int, '7' as int, 'f' as int]
  {
  }

  /** The bits of an octet behind its marker, which says how many there are. */
  function Bits(b: byte, n: nat): nat
    requires n > 0
  {
    b % n
  }

  /** The number that the octets of a character carry. */
  function Carried(s: seq<byte>): nat
    requires 1 <= |s| <= 4
  {
    if |s| == 1 then Bits(s[0], 0x80)
    else if |s| == 2 then Bits(s[0], 0x20) * 0x40 + Bits(s[1], 0x40)
    else if |s| == 3 then Bits(s[0], 0x10) * 0x1000 + Bits(s[1], 0x40) * 0x40 + Bits(s[2], 0x40)
    else Bits(s[0], 0x08) * 0x40000 + Bits(s[1], 0x40) * 0x1000 + Bits(s[2], 0x40) * 0x40 + Bits(s[3], 0x40)
  }

  /** The number of octets, as the first one tells it. */
  function Announced(b: byte): nat {
    if b / 0x80 == 0 then 1 else if b / 0x20 == 6 then 2 else if b / 0x10 == 14 then 3 else if b / 0x08 == 30 then 4 else 0
  }

  lemma Sixes(u: nat)
    ensures u == u / 64 * 64 + u % 64 && u / 4096 == u / 64 / 64 && u / 262144 == u / 4096 / 64
    ensures u / 64 == u / 4096 * 64 + u / 64 % 64 && u / 4096 == u / 262144 * 64 + u / 4096 % 64
  {
  }

  lemma OneOctet(u: nat)
    requires u < 0x80
    ensures Bits(u, 0x80) == u && Announced(u) == 1
  {
  }

  lemma Markers(x: nat, y: nat)
    requires x < 64 && y < 32
    ensures Bits(0x80 + x, 0x40) == x && (0x80 + x) / 0x40 == 2
    ensures Bits(0xC0 + y, 0x20) == y && Announced(0xC0 + y) == 2
    ensures y < 16 ==> Bits(0xE0 + y, 0x10) == y && Announced(0xE0 + y) == 3
    ensures y < 8 ==> Bits(0xF0 + y, 0x08) == y && Announced(0xF0 + y) == 4
  {
  }

  /** The octets of a character carry its number, the first one tells how many they are, and they are the fewest that
      will do: section 3 of RFC 3629. */
  lemma Utf8Is(u: nat)
    requires u < 0x110000
    ensures |Utf8(u)| == if u < 0x80 then 1 else if u < 0x800 then 2 else if u < 0x10000 then 3 else 4
    ensures Carried(Utf8(u)) == u && Announced(Utf8(u)[0]) == |Utf8(u)|
    ensures forall i :: 1 <= i < |Utf8(u)| ==> Utf8(u)[i] / 0x40 == 2
  {
    hide Bits, Announced;
    Sixes(u);
    var x, y, z := u % 64, u / 64 % 64, u / 4096 % 64;
    Markers(x, 0);
    Markers(y, 0);
    Markers(z, 0);
    var s := Utf8(u);
    if u < 0x80 {
      assert s == [u] && Bits(u, 0x80) == u && Announced(u) == 1 by { OneOctet(u); }
    } else if u < 0x800 {
      assert s == [0xC0 + u / 64, 0x80 + x];
      Markers(0, u / 64);
    } else if u < 0x10000 {
      assert s == [0xE0 + u / 4096, 0x80 + y, 0x80 + x];
      Markers(0, u / 4096);
    } else {
      assert s == [0xF0 + u / 262144, 0x80 + z, 0x80 + y, 0x80 + x];
      Markers(0, u / 262144);
    }
  }

  // ---------------------------------------------------------------- the order of keys

  /** The first byte at which `a` and `b` differ is smaller in `a`. */
  ghost predicate SmallerAt(a: seq<byte>, b: seq<byte>, k: nat) {
    k < |a| && k < |b| && a[..k] == b[..k] && a[k] < b[k]
  }

  /** Keys are in the order of a dictionary. */
  lemma {:induction false} LessIs(a: seq<byte>, b: seq<byte>)
    ensures Less(a, b) <==> a < b || exists k: nat :: SmallerAt(a, b, k)
  {
    if a != [] && b != [] && a[0] == b[0] {
      var a', b' := a[1..], b[1..];
      LessIs(a', b');
      assert a == [a[0]] + a' && b == [b[0]] + b';
      forall k: nat ensures SmallerAt(a', b', k) <==> SmallerAt(a, b, k + 1) {
        Shift(a, b, k);
      }
      if exists k: nat :: SmallerAt(a, b, k) {
        var k: nat :| SmallerAt(a, b, k);
        assert SmallerAt(a', b', k - 1);
      }
    } else if a != [] && b != [] {
      assert a[..0] == b[..0];
      if a[0] < b[0] { assert SmallerAt(a, b, 0); }
    }
  }

  lemma Shift(a: seq<byte>, b: seq<byte>, k: nat)
    requires a != [] && b != [] && a[0] == b[0]
    ensures SmallerAt(a[1..], b[1..], k) <==> SmallerAt(a, b, k + 1)
  {
    if k < |a| - 1 && k < |b| - 1 {
      assert a[..k + 1] == [a[0]] + a[1..][..k] && b[..k + 1] == [b[0]] + b[1..][..k];
      assert a[1..][..k] == a[..k + 1][1..] && b[1..][..k] == b[..k + 1][1..];
    }
  }

  // ---------------------------------------------------------------- layout

  const NULL_TRUE: Value := Arr([Null, Bool(true)])
  const NONE: Value := Obj([])

  /** Two fields, an array and an object without fields. */
  const EXAMPLE: Value := Obj([Field([0x61], NULL_TRUE), Field([0x62], NONE)])

  const NAME_A: seq<byte> := [0x22, 0x61, 0x22, 0x3A]
  const NAME_B: seq<byte> := [0x22, 0x62, 0x22, 0x3A]
  const NULL_TEXT: seq<byte> := [0x6E, 0x75, 0x6C, 0x6C]
  const TRUE_TEXT: seq<byte> := [0x74, 0x72, 0x75, 0x65]
  const BRACES: seq<byte> := [0x7B, 0x7D]

  lemma Names()
    ensures PrintString([0x61]) + [COLON] == NAME_A && PrintString([0x62]) + [COLON] == NAME_B
  {
    assert EscapeAll([0x61]) == EscapeByte(0x61) + EscapeAll([]) == [0x61];
    assert EscapeAll([0x62]) == EscapeByte(0x62) + EscapeAll([]) == [0x62];
  }

  lemma CompactArray()
    ensures Print(NULL_TRUE, -1) == [0x5B] + NULL_TEXT + [0x2C] + TRUE_TEXT + [0x5D]
    ensures Print(NONE, -1) == BRACES
  {
    var v := NULL_TRUE;
    assert PrintItems(v, 2, -1) == [];
    assert PrintItems(v, 1, -1) == [0x2C] + [] + TRUE_TEXT + [];
    assert PrintItems(v, 0, -1) == NULL_TEXT + ([0x2C] + TRUE_TEXT);
    assert PrintFields(NONE, 0, -1) == [];
  }

  lemma Compact()
    ensures Serialize(EXAMPLE, false)
         == [0x7B] + NAME_A + ([0x5B] + NULL_TEXT + [0x2C] + TRUE_TEXT + [0x5D]) + [0x2C] + NAME_B + BRACES + [0x7D]
  {
    var v := EXAMPLE;
    Names();
    CompactArray();
    hide PrintString;
    assert PrintFields(v, 2, -1) == [];
    assert PrintFields(v, 1, -1) == [0x2C] + NAME_B + BRACES;
    assert PrintFields(v, 0, -1) == NAME_A + Print(NULL_TRUE, -1) + ([0x2C] + NAME_B + BRACES);
  }

  /** New lines at the three depths. */
  const LINE_0: seq<byte> := [0x0A]
  const LINE_1: seq<byte> := [0x0A, 0x20, 0x20]
  const LINE_2: seq<byte> := [0x0A, 0x20, 0x20, 0x20, 0x20]

  lemma Lines()
    ensures Indent(0) == LINE_0 && Indent(1) == LINE_1 && Indent(2) == LINE_2
  {
    assert Spaces(0) == [] && Spaces(1) == [0x20] && Spaces(2) == [0x20, 0x20];
    assert Spaces(3) == [0x20, 0x20, 0x20] && Spaces(4) == [0x20, 0x20, 0x20, 0x20];
  }

  lemma IndentedItems()
    ensures PrintItems(NULL_TRUE, 1, 2) == [0x2C] + Indent(2) + TRUE_TEXT
    ensures PrintItems(NULL_TRUE, 0, 2) == Indent(2) + NULL_TEXT + ([0x2C] + Indent(2) + TRUE_TEXT)
  {
    hide Indent;
    var v := NULL_TRUE;
    assert Print(v.items[0], 2) == NULL_TEXT && Print(v.items[1], 2) == TRUE_TEXT;
    LastItem(v, 1, 2);
    assert PrintItems(v, 0, 2) == [] + Indent(2) + NULL_TEXT + PrintItems(v, 1, 2);
    assert [] + Indent(2) == Indent(2);
  }

  lemma LastItem(v: Value, i: nat, indent: int)
    requires v.Arr? && 0 < i && i + 1 == |v.items|
    ensures PrintItems(v, i, indent) == [COMMA] + Indent(indent) + Print(v.items[i], indent)
  {
    hide Indent, Print;
    var x := [COMMA] + Indent(indent) + Print(v.items[i], indent);
    assert PrintItems(v, i + 1, indent) == [];
    assert x + [] == x;
  }

  lemma IndentedArray()
    ensures Print(NULL_TRUE, 1) == [0x5B] + (LINE_2 + NULL_TEXT + ([0x2C] + LINE_2 + TRUE_TEXT)) + LINE_1 + [0x5D]
  {
    hide Indent, LINE_1, LINE_2;
    Lines();
    IndentedItems();
  }

  lemma IndentedNone()
    ensures Print(NONE, 1) == BRACES
  {
    assert PrintFields(NONE, 0, 2) == [];
    assert [0x7B] + [] + [] + [0x7D] == BRACES;
  }

  lemma LastField(v: Value, i: nat, indent: int)
    requires v.Obj? && 0 < i && i + 1 == |v.fields| && indent >= 0
    ensures PrintFields(v, i, indent)
         == [COMMA] + Indent(indent) + PrintString(v.fields[i].key) + [COLON] + [SPACE] + Print(v.fields[i].value, indent)
  {
    hide Indent, Print, PrintString;
    var x := [COMMA] + Indent(indent) + PrintString(v.fields[i].key) + [COLON] + [SPACE] + Print(v.fields[i].value, indent);
    assert PrintFields(v, i + 1, indent) == [];
    assert x + [] == x;
  }

  lemma IndentedFields()
    ensures PrintFields(EXAMPLE, 0, 1)
         == LINE_1 + NAME_A + [0x20] + Print(NULL_TRUE, 1) + ([0x2C] + LINE_1 + NAME_B + [0x20] + BRACES)
  {
    hide Indent, Print, PrintString, LINE_1, NAME_A, NAME_B, BRACES, NULL_TRUE, NONE;
    var v := EXAMPLE;
    Lines();
    Names();
    assert Print(NONE, 1) == BRACES by { IndentedNone(); }
    LastField(v, 1, 1);
    var b := PrintString([0x62]);
    assert [0x2C] + LINE_1 + b + [COLON] + [SPACE] + BRACES == [0x2C] + LINE_1 + (b + [COLON]) + [0x20] + BRACES;
    var a := PrintString([0x61]);
    assert PrintFields(v, 0, 1) == [] + LINE_1 + a + [COLON] + [SPACE] + Print(NULL_TRUE, 1) + PrintFields(v, 1, 1);
    assert [] + LINE_1 + a + [COLON] == LINE_1 + (a + [COLON]);
  }

  /** Prettified: every item and field on a line of its own, two spaces deeper, a space behind a colon, nothing inside
      empty braces, and a new line at the end. */
  lemma Prettified()
    ensures Serialize(EXAMPLE, true)
         == [0x7B]
            + (LINE_1 + NAME_A + [0x20]
               + ([0x5B] + (LINE_2 + NULL_TEXT + ([0x2C] + LINE_2 + TRUE_TEXT)) + LINE_1 + [0x5D])
               + ([0x2C] + LINE_1 + NAME_B + [0x20] + BRACES))
            + LINE_0 + [0x7D] + [0x0A]
  {
    hide PrintString, Indent, PrintFields, PrintItems, LINE_0, LINE_1, LINE_2, NAME_A, NAME_B, BRACES, NULL_TRUE, NONE;
    IndentedFields();
    IndentedArray();
    Lines();
  }
}
