/** JSON values as picojson prints and reads them.

    Text is bytes. A number is its text: `read` stands for reading a number and printing it again, and the
    text of a value is one that comes back unchanged. An object is the sorted list of its fields, as the
    ordered map of the source keeps them. */
module JsonText {

  type byte = b: int | 0 <= b < 256

  const QUOTE: byte := 0x22
  const BACKSLASH: byte := 0x5C
  const COMMA: byte := 0x2C
  const COLON: byte := 0x3A
  const SPACE: byte := 0x20
  const NEWLINE: byte := 0x0A
  const INDENT_WIDTH := 2

  datatype Option<+T> = None | Some(value: T)

  datatype Value = Null | Bool(b: bool) | Num(text: seq<byte>) | Str(s: seq<byte>) | Arr(items: seq<Value>) | Obj(fields: seq<Field>)

  datatype Field = Field(key: seq<byte>, value: Value)

  // ---------------------------------------------------------------- strings

  function Hex(d: nat): byte
    requires d < 16
  {
    if d < 10 then 0x30 + d else 0x61 + (d - 10)
  }

  /** `serialize_str_char`: the escapes of two characters, the six-character escape of other control
      characters, everything else as it is. */
  function EscapeByte(c: byte): seq<byte> {
    if c == QUOTE then [BACKSLASH, QUOTE]
    else if c == BACKSLASH then [BACKSLASH, BACKSLASH]
    else if c == 0x2F then [BACKSLASH, 0x2F]
    else if c == 0x08 then [BACKSLASH, 0x62]
    else if c == 0x0C then [BACKSLASH, 0x66]
    else if c == 0x0A then [BACKSLASH, 0x6E]
    else if c == 0x0D then [BACKSLASH, 0x72]
    else if c == 0x09 then [BACKSLASH, 0x74]
    else if c < 0x20 || c == 0x7F then [BACKSLASH, 0x75, 0x30, 0x30, Hex(c / 16), Hex(c % 16)]
    else [c]
  }

  function EscapeAll(s: seq<byte>): seq<byte> {
    if s == [] then [] else EscapeByte(s[0]) + EscapeAll(s[1..])
  }

  function PrintString(s: seq<byte>): seq<byte> {
    [QUOTE] + EscapeAll(s) + [QUOTE]
  }

  // ---------------------------------------------------------------- values

  function Spaces(n: nat): seq<byte> {
    if n == 0 then [] else [SPACE] + Spaces(n - 1)
  }

  /** `_indent`; an indentation of -1 asks for compact text. */
  function Indent(indent: int): seq<byte> {
    if indent < 0 then [] else [NEWLINE] + Spaces(indent * INDENT_WIDTH)
  }

  function Deeper(indent: int): int {
    if indent == -1 then -1 else indent + 1
  }

  /** The items from the `i`-th on, each on its own line when indenting. */
  function PrintItems(v: Value, i: nat, indent: int): seq<byte>
    requires v.Arr? && i <= |v.items|
    decreases v, |v.items| - i
  {
    if i == |v.items| then []
    else
      (if i > 0 then [COMMA] else []) + Indent(indent) + Print(v.items[i], indent) + PrintItems(v, i + 1, indent)
  }

  function PrintFields(v: Value, i: nat, indent: int): seq<byte>
    requires v.Obj? && i <= |v.fields|
    decreases v, |v.fields| - i
  {
    if i == |v.fields| then []
    else
      (if i > 0 then [COMMA] else []) + Indent(indent) + PrintString(v.fields[i].key) + [COLON]
      + (if indent != -1 then [SPACE] else []) + Print(v.fields[i].value, indent) + PrintFields(v, i + 1, indent)
  }

  /** `_serialize` without the newline that ends an indented document. */
  function Print(v: Value, indent: int): seq<byte>
    decreases v
  {
    match v
    case Null => [0x6E, 0x75, 0x6C, 0x6C]
    case Bool(b) => if b then [0x74, 0x72, 0x75, 0x65] else [0x66, 0x61, 0x6C, 0x73, 0x65]
    case Num(text) => text
    case Str(s) => PrintString(s)
    case Arr(items) =>
      [0x5B] + PrintItems(v, 0, Deeper(indent)) + (if items != [] then Indent(indent) else []) + [0x5D]
    case Obj(fields) =>
      [0x7B] + PrintFields(v, 0, Deeper(indent)) + (if fields != [] then Indent(indent) else []) + [0x7D]
  }

  /** `value::serialize`. */
  function Serialize(v: Value, prettify: bool): seq<byte> {
    if prettify then Print(v, 0) + [NEWLINE] else Print(v, -1)
  }
}
