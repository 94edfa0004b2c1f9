/** UTF-8 by its definition, scalar value by scalar value, and that the fatal decoder accepts exactly what it encodes. */
module Utf8Text {
  import opened Wrappers
  import opened ArchivePaths
  import opened Ustar

  /** The bytes of one scalar value. */
  function EncodeChar(c: char): (bytes: seq<byte>)
    ensures bytes != []
  {
    var n := c as int;
    if n < 0x80 then [n]
    else if n < 0x800 then [0xC0 + n / 64, 0x80 + n % 64]
    else if n < 0x10000 then [0xE0 + n / 4096, 0x80 + n / 64 % 64, 0x80 + n % 64]
    else [0xF0 + n / 262144, 0x80 + n / 4096 % 64, 0x80 + n / 64 % 64, 0x80 + n % 64]
  }

  function Utf8Of(s: string): seq<byte> { if s == "" then [] else EncodeChar(s[0]) + Utf8Of(s[1..]) }

  /** Base-64 digits put together. */
  function Two(a: int, b: int): int { a * 64 + b }
  function Three(a: int, b: int, c: int): int { Two(Two(a, b), c) }
  function Four(a: int, b: int, c: int, d: int): int { Two(Three(a, b, c), d) }

  /** The number the first character's bytes stand for. */
  function FirstScalar(bytes: seq<byte>): (n: int)
    requires bytes != [] && Width(bytes) > 0
    ensures 0 <= n < 0xD800 || 0xE000 <= n < 0x110000
  {
    match Width(bytes)
    case 1 => bytes[0]
    case 2 => Two(bytes[0] - 0xC0, bytes[1] - 0x80)
    case 3 => Three(bytes[0] - 0xE0, bytes[1] - 0x80, bytes[2] - 0x80)
    case _ => Four(bytes[0] - 0xF0, bytes[1] - 0x80, bytes[2] - 0x80, bytes[3] - 0x80)
  }

  function Decode(bytes: seq<byte>): string
    requires ValidUtf8(bytes)
  {
    if bytes == [] then "" else [FirstScalar(bytes) as char] + Decode(bytes[Width(bytes)..])
  }

  lemma Digits(a: int, b: int)
    requires a >= 0 && 0 <= b < 64
    ensures Two(a, b) / 64 == a && Two(a, b) % 64 == b
  {
  }

  lemma Scaled(n: int)
    requires n >= 0
    ensures n / 4096 == n / 64 / 64 && n / 262144 == n / 64 / 64 / 64
  {
  }

  lemma FirstReadsBack(bytes: seq<byte>)
    requires bytes != [] && Width(bytes) > 0
    ensures EncodeChar(FirstScalar(bytes) as char) == bytes[..Width(bytes)]
  {
    var n := FirstScalar(bytes);
    var w := Width(bytes);
    if w == 2 {
      Digits(bytes[0] - 0xC0, bytes[1] - 0x80);
      hide Width;
      assert bytes[..2] == [bytes[0], bytes[1]];
    } else if w == 3 {
      ThreeRead(bytes[0] - 0xE0, bytes[1] - 0x80, bytes[2] - 0x80);
      assert 0x800 <= n < 0x10000;
      hide Width, Three;
      assert bytes[..3] == [bytes[0], bytes[1], bytes[2]];
    } else if w == 4 {
      FourRead(bytes[0] - 0xF0, bytes[1] - 0x80, bytes[2] - 0x80, bytes[3] - 0x80);
      assert n >= 0x10000;
      hide Width, Four;
      assert bytes[..4] == [bytes[0], bytes[1], bytes[2], bytes[3]];
    }
  }

  lemma ThreeRead(a: int, b: int, c: int)
    requires a >= 0 && 0 <= b < 64 && 0 <= c < 64
    ensures var n := Three(a, b, c); n / 4096 == a && n / 64 % 64 == b && n % 64 == c
  {
    Digits(Two(a, b), c);
    Digits(a, b);
    Scaled(Three(a, b, c));
  }

  lemma FourRead(a: int, b: int, c: int, d: int)
    requires a >= 0 && 0 <= b < 64 && 0 <= c < 64 && 0 <= d < 64
    ensures var n := Four(a, b, c, d); n / 262144 == a && n / 4096 % 64 == b && n / 64 % 64 == c && n % 64 == d
  {
    Digits(Three(a, b, c), d);
    ThreeRead(a, b, c);
    Scaled(Four(a, b, c, d));
    Scaled(Three(a, b, c));
  }

  lemma PutTogether(n: int)
    requires n >= 0
    ensures n == Two(n / 64, n % 64) == Three(n / 4096, n / 64 % 64, n % 64) == Four(n / 262144, n / 4096 % 64, n / 64 % 64, n % 64)
  {
    Scaled(n);
  }

  lemma WidthOf(c: char, bytes: seq<byte>)
    requires EncodeChar(c) <= bytes
    ensures bytes != [] && Width(bytes) == |EncodeChar(c)|
  {
    var code := EncodeChar(c);
    assert forall i | 0 <= i < |code| :: bytes[i] == code[i];
  }

  lemma CharReadsBack(c: char, rest: seq<byte>)
    ensures var bytes := EncodeChar(c) + rest; Width(bytes) == |EncodeChar(c)| && FirstScalar(bytes) == c as int
  {
    var code := EncodeChar(c);
    var bytes := code + rest;
    WidthOf(c, bytes);
    PutTogether(c as int);
    hide Width, Two, Three, Four;
    assert forall i | 0 <= i < |code| :: bytes[i] == code[i];
  }

  lemma {:induction false} EncodedReadsBack(s: string)
    ensures ValidUtf8(Utf8Of(s)) && Decode(Utf8Of(s)) == s
  {
    hide EncodeChar, Width, FirstScalar;
    if s != "" {
      EncodedReadsBack(s[1..]);
      CharReadsBack(s[0], Utf8Of(s[1..]));
      assert s == [s[0]] + s[1..];
    }
  }

  lemma {:induction false} DecodedReadsBack(bytes: seq<byte>)
    requires ValidUtf8(bytes)
    ensures Utf8Of(Decode(bytes)) == bytes
    decreases |bytes|
  {
    hide EncodeChar, Width, FirstScalar;
    if bytes != [] {
      DecodedReadsBack(bytes[Width(bytes)..]);
      FirstReadsBack(bytes);
    }
  }

  ghost predicate IsText(bytes: seq<byte>) { exists s :: Utf8Of(s) == bytes }

  /** The decoder accepts exactly the encodings of strings. */
  lemma ValidExactly(bytes: seq<byte>)
    ensures ValidUtf8(bytes) <==> IsText(bytes)
  {
    if ValidUtf8(bytes) {
      DecodedReadsBack(bytes);
    }
    if IsText(bytes) {
      var s :| Utf8Of(s) == bytes;
      EncodedReadsBack(s);
    }
  }
}
