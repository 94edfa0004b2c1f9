/** JSON values as a tool output holds them, their serialised text, and its size in UTF-8 bytes. */
module Json {
  import opened Wrappers
  import opened Text
  import Utf8Text

  /** A Unicode code point; a surrogate stands alone. */
  type Char = c: int | 0 <= c < 0x110000

  datatype Json =
    | Null
    | Boolean(value: bool)
    | Number(digits: seq<Char>)
    | Str(chars: seq<Char>)
    | Arr(items: seq<Json>)
    | Obj(fields: seq<Field>)
    | Undefined

  datatype Field = Field(key: seq<Char>, value: Json)

  // ----- text

  const QUOTE: Char := 34
  const COMMA: Char := 44
  const COLON: Char := 58
  const BACKSLASH: Char := 92
  const NULL_TEXT: seq<Char> := [110, 117, 108, 108]
  const TRUE_TEXT: seq<Char> := [116, 114, 117, 101]
  const FALSE_TEXT: seq<Char> := [102, 97, 108, 115, 101]

  function Hex(d: int): Char
    requires 0 <= d < 16
  {
    if d < 10 then 48 + d else 87 + d
  }

  /** A character inside a JSON string; control characters and lone surrogates are escaped. */
  function Escape(c: Char): (text: seq<Char>)
    ensures text != []
  {
    if c == QUOTE || c == BACKSLASH then [BACKSLASH, c]
    else if c == 8 then [BACKSLASH, 98]
    else if c == 9 then [BACKSLASH, 116]
    else if c == 10 then [BACKSLASH, 110]
    else if c == 12 then [BACKSLASH, 102]
    else if c == 13 then [BACKSLASH, 114]
    else if c < 32 || 0xD800 <= c <= 0xDFFF then
      [BACKSLASH, 117, Hex(c / 4096), Hex(c / 256 % 16), Hex(c / 16 % 16), Hex(c % 16)]
    else [c]
  }

  function Escaped(s: seq<Char>): seq<Char> {
    if s == [] then [] else Escaped(s[..|s| - 1]) + Escape(s[|s| - 1])
  }

  function Quoted(s: seq<Char>): seq<Char> { [QUOTE] + Escaped(s) + [QUOTE] }

  // ----- a string read back

  function HexValue(c: Char): int { if 48 <= c <= 57 then c - 48 else c - 87 }

  /** The character a JSON string goes on with, and how much text it takes (section 7 of RFC 8259). */
  function ReadChar(text: seq<Char>): Option<(int, nat)> {
    if text == [] || text[0] == QUOTE || text[0] < 32 then None
    else if text[0] != BACKSLASH then Some((text[0], 1))
    else if |text| < 2 then None
    else if text[1] == QUOTE || text[1] == BACKSLASH then Some((text[1], 2))
    else if text[1] == 98 then Some((8, 2))
    else if text[1] == 116 then Some((9, 2))
    else if text[1] == 110 then Some((10, 2))
    else if text[1] == 102 then Some((12, 2))
    else if text[1] == 114 then Some((13, 2))
    else if text[1] == 117 && |text| >= 6 then
      Some((HexValue(text[2]) * 4096 + HexValue(text[3]) * 256 + HexValue(text[4]) * 16 + HexValue(text[5]), 6))
    else None
  }

  /** What is escaped is read back as the character it was. */
  lemma EscapeReadsBack(c: Char, rest: seq<Char>)
    ensures ReadChar(Escape(c) + rest) == Some((c, |Escape(c)|))
  {
    var text := Escape(c) + rest;
    assert forall i | 0 <= i < |Escape(c)| :: text[i] == Escape(c)[i];
    if c < 65536 {
      FourDigits(c);
      HexReadsBack(c / 4096);
      HexReadsBack(c / 256 % 16);
      HexReadsBack(c / 16 % 16);
      HexReadsBack(c % 16);
    }
  }

  lemma HexReadsBack(d: int)
    requires 0 <= d < 16
    ensures HexValue(Hex(d)) == d && Hex(d) != BACKSLASH
  {
  }

  lemma FourDigits(c: int)
    requires 0 <= c < 65536
    ensures 0 <= c / 4096 < 16 && c / 4096 * 4096 + c / 256 % 16 * 256 + c / 16 % 16 * 16 + c % 16 == c
  {
    var a := c / 16;
    var b := a / 16;
    assert b == c / 256 && b / 16 == c / 4096;
    assert a == b * 16 + a % 16 && b == b / 16 * 16 + b % 16 && c == a * 16 + c % 16;
  }

  /** `JSON.stringify`; a field with nothing to say is left out, an item becomes null. */
  function Serialise(v: Json): seq<Char>
    decreases v, 1
  {
    match v
    case Null => NULL_TEXT
    case Boolean(b) => if b then TRUE_TEXT else FALSE_TEXT
    case Number(digits) => digits
    case Str(chars) => Quoted(chars)
    case Arr(items) => [91] + Join(ItemTexts(items), COMMA) + [93]
    case Obj(fields) => [123] + Join(FieldTexts(fields), COMMA) + [125]
    case Undefined => NULL_TEXT
  }

  function ItemTexts(items: seq<Json>): (texts: seq<seq<Char>>)
    ensures |texts| == |items|
    decreases items, 0
  {
    if items == [] then [] else [Serialise(items[0])] + ItemTexts(items[1..])
  }

  function FieldTexts(fields: seq<Field>): seq<seq<Char>>
    decreases fields, 0
  {
    if fields == [] then []
    else (if fields[0].value.Undefined? then [] else [Quoted(fields[0].key) + [COLON] + Serialise(fields[0].value)]) + FieldTexts(fields[1..])
  }

  // ----- bytes

  function Utf8Length(c: Char): (n: nat)
    ensures 1 <= n <= 4
  {
    if c < 0x80 then 1 else if c < 0x800 then 2 else if c < 0x10000 then 3 else 4
  }

  /** The length UTF-8 gives the scalar value. */
  lemma LengthExactly(c: char)
    ensures Utf8Length(c as int) == |Utf8Text.EncodeChar(c)|
  {
  }

  function Bytes(s: seq<Char>): nat {
    if s == [] then 0 else Bytes(s[..|s| - 1]) + Utf8Length(s[|s| - 1])
  }

  function Size(v: Json): nat { Bytes(Serialise(v)) }

  lemma {:induction false} BytesJoined(a: seq<Char>, b: seq<Char>)
    ensures Bytes(a + b) == Bytes(a) + Bytes(b)
    decreases |b|
  {
    if b == [] {
      assert a + b == a;
    } else {
      BytesJoined(a, b[..|b| - 1]);
      assert (a + b)[..|a + b| - 1] == a + b[..|b| - 1];
    }
  }

  lemma OneByte(c: Char)
    ensures Bytes([c]) == Utf8Length(c)
  {
    assert [c][..0] == [];
  }

  function Sum(texts: seq<seq<Char>>): nat {
    if texts == [] then 0 else Bytes(texts[0]) + Sum(texts[1..])
  }

  function Commas(n: nat): nat { if n == 0 then 0 else n - 1 }

  lemma {:induction false} ListBytes(texts: seq<seq<Char>>)
    ensures Bytes(Join(texts, COMMA)) == Sum(texts) + Commas(|texts|)
  {
    if |texts| == 1 {
    } else if |texts| > 1 {
      ListBytes(texts[1..]);
      OneByte(COMMA);
      BytesJoined(texts[0], [COMMA]);
      BytesJoined(texts[0] + [COMMA], Join(texts[1..], COMMA));
    }
  }

  lemma Enclosed(open: Char, inner: seq<Char>, close: Char)
    requires open < 128 && close < 128
    ensures Bytes([open] + inner + [close]) == 2 + Bytes(inner)
  {
    OneByte(open);
    OneByte(close);
    BytesJoined([open], inner);
    BytesJoined([open] + inner, [close]);
  }

  /** Sizes by shape. */
  lemma ArrSize(items: seq<Json>)
    ensures Size(Arr(items)) == 2 + Commas(|items|) + Sum(ItemTexts(items))
  {
    ListBytes(ItemTexts(items));
    Enclosed(91, Join(ItemTexts(items), COMMA), 93);
  }

  lemma ObjSize(fields: seq<Field>)
    ensures Size(Obj(fields)) == 2 + Commas(|FieldTexts(fields)|) + Sum(FieldTexts(fields))
  {
    ListBytes(FieldTexts(fields));
    Enclosed(123, Join(FieldTexts(fields), COMMA), 125);
  }

  lemma FieldBytes(f: Field)
    ensures Bytes(Quoted(f.key) + [COLON] + Serialise(f.value)) == Bytes(Quoted(f.key)) + 1 + Size(f.value)
  {
    OneByte(COLON);
    BytesJoined(Quoted(f.key), [COLON]);
    BytesJoined(Quoted(f.key) + [COLON], Serialise(f.value));
  }
}
