/**
 * The USTAR blocks of a review archive: header fields, checksum and PAX path records, after the
 * "ustar Interchange Format" and "pax Extended Header" of IEEE Std 1003.1-2017.
 */
module Ustar {
  import opened Wrappers
  import opened ArchivePaths

  const BLOCK := 512
  const REVIEW_FILE_MAX_BYTES := 16 * 1024 * 1024
  const MAX_SAFE_INTEGER := 9007199254740991
  const PAX_MAX := 1024

  const KIND_PAX: byte := 120
  const KIND_OLD_FILE: byte := 0
  const KIND_FILE: byte := 48
  const KIND_DIRECTORY: byte := 53

  predicate Zero(bytes: seq<byte>) { forall i | 0 <= i < |bytes| :: bytes[i] == 0 }

  // ----- UTF-8, as a fatal decoder accepts it

  predicate Continues(bytes: seq<byte>, n: nat, low: byte, high: byte)
    requires bytes != [] && n >= 1
  {
    && n < |bytes|
    && low <= bytes[1] <= high
    && forall i | 2 <= i <= n :: 128 <= bytes[i] <= 191
  }

  /** How many bytes the first character takes, or 0 when none starts here. */
  function Width(bytes: seq<byte>): (w: nat)
    requires bytes != []
    ensures w <= |bytes|
  {
    var b := bytes[0];
    if b < 0x80 then 1
    else if 0xC2 <= b <= 0xDF && Continues(bytes, 1, 0x80, 0xBF) then 2
    else if b == 0xE0 && Continues(bytes, 2, 0xA0, 0xBF) then 3
    else if (0xE1 <= b <= 0xEC || 0xEE <= b <= 0xEF) && Continues(bytes, 2, 0x80, 0xBF) then 3
    else if b == 0xED && Continues(bytes, 2, 0x80, 0x9F) then 3
    else if b == 0xF0 && Continues(bytes, 3, 0x90, 0xBF) then 4
    else if 0xF1 <= b <= 0xF3 && Continues(bytes, 3, 0x80, 0xBF) then 4
    else if b == 0xF4 && Continues(bytes, 3, 0x80, 0x8F) then 4
    else 0
  }

  predicate ValidUtf8(bytes: seq<byte>) {
    bytes == [] || (Width(bytes) > 0 && ValidUtf8(bytes[Width(bytes)..]))
  }

  // ----- fields

  function UpToNul(bytes: seq<byte>): (text: seq<byte>)
    ensures |text| <= |bytes|
  {
    if bytes == [] || bytes[0] == 0 then [] else [bytes[0]] + UpToNul(bytes[1..])
  }

  /** A field's text: up to its first NUL, with nothing but NULs after it. */
  function FieldText(bytes: seq<byte>): (r: Result<seq<byte>>)
    ensures r.Err? ==> Judged(r.error)
  {
    var text := UpToNul(bytes);
    if !Zero(bytes[|text|..]) then Err(BytesAfterNul)
    else if !ValidUtf8(text) then Err(NotUtf8)
    else Ok(text)
  }

  function Field(block: seq<byte>, at: nat, length: nat): (r: Result<seq<byte>>)
    requires at + length <= |block|
    ensures r.Err? ==> Judged(r.error)
  {
    FieldText(block[at..at + length])
  }

  function SkipSpaces(text: seq<byte>): seq<byte> {
    if text != [] && text[0] == 32 then SkipSpaces(text[1..]) else text
  }

  predicate OctalDigits(text: seq<byte>) { forall i | 0 <= i < |text| :: 48 <= text[i] <= 55 }

  function OctalValue(digits: seq<byte>): nat
    requires OctalDigits(digits)
  {
    if digits == [] then 0 else 8 * OctalValue(digits[..|digits| - 1]) + (digits[|digits| - 1] - 48)
  }

  function OctalText(text: seq<byte>): (r: Result<nat>)
    ensures r.Err? ==> Judged(r.error)
  {
    var digits := SkipSpaces(text);
    if digits == [] || !OctalDigits(digits) then Err(InvalidNumber)
    else if OctalValue(digits) > MAX_SAFE_INTEGER then Err(NumberTooLarge)
    else Ok(OctalValue(digits))
  }

  function Octal(block: seq<byte>, at: nat, length: nat, empty: bool := false): (r: Result<nat>)
    requires at + length <= |block|
    ensures r.Err? ==> Judged(r.error)
  {
    var text :- Field(block, at, length);
    if empty && text == [] then Ok(0) else OctalText(text)
  }

  /** The checksum from byte `i` on, with the checksum field itself counted as spaces. */
  function Checksum(block: seq<byte>, i: nat): int
    requires i <= |block|
    decreases |block| - i
  {
    if i == |block| then 0 else (if 148 <= i < 156 then 32 else block[i]) + Checksum(block, i + 1)
  }

  // ----- headers

  /** A header block's entry: its kind and how many bytes follow. */
  datatype Header = Header(kind: byte, size: nat)

  const USTAR: seq<byte> := [117, 115, 116, 97, 114]
  const VERSION: seq<byte> := [48, 48]

  /** Everything checked of a header before its kind matters, in the order it is checked. */
  function HeaderOf(block: seq<byte>, checksum: int): (r: Result<Header>)
    requires |block| == BLOCK
    ensures r.Err? ==> Judged(r.error)
  {
    var magic :- Field(block, 257, 6);
    if magic != USTAR then Err(NotUstar) else
    var version :- Field(block, 263, 2);
    if version != VERSION then Err(UnsupportedVersion) else
    var link :- Field(block, 157, 100);
    if link != [] then Err(UnsupportedMetadata) else
    var user :- Field(block, 265, 32);
    if user != [] then Err(UnsupportedMetadata) else
    var group :- Field(block, 297, 32);
    if group != [] then Err(UnsupportedMetadata) else
    NumbersOf(block, checksum)
  }

  function NumbersOf(block: seq<byte>, checksum: int): (r: Result<Header>)
    requires |block| == BLOCK
    ensures r.Err? ==> Judged(r.error)
  {
    var _ :- Octal(block, 108, 8);
    var _ :- Octal(block, 116, 8);
    var _ :- Octal(block, 136, 12);
    var _ :- Octal(block, 329, 8, true);
    var _ :- Octal(block, 337, 8, true);
    if !Zero(block[500..]) then Err(HeaderPadding) else
    var recorded :- Octal(block, 148, 8);
    if recorded != checksum then Err(ChecksumDiffers) else
    var size :- Octal(block, 124, 12);
    var mode :- Octal(block, 100, 8);
    if mode > 511 then Err(SpecialModeBits)
    else Ok(Header(block[156], size))
  }

  /** The path the header itself names. */
  function NamedPath(block: seq<byte>): (r: Result<Path>)
    requires |block| == BLOCK
    ensures r.Err? ==> Judged(r.error)
  {
    var name :- Field(block, 0, 100);
    var prefix :- Field(block, 345, 155);
    Ok(if prefix != [] then prefix + [SLASH] + name else name)
  }

  // ----- PAX records

  const PATH_TAG: seq<byte> := [32, 112, 97, 116, 104, 61]
  const NEWLINE: byte := 10

  function DigitCount(bytes: seq<byte>): (n: nat)
    ensures n <= |bytes| && DecimalDigits(bytes[..n])
  {
    if bytes != [] && 48 <= bytes[0] <= 57 then 1 + DigitCount(bytes[1..]) else 0
  }

  predicate DecimalDigits(text: seq<byte>) { forall i | 0 <= i < |text| :: 48 <= text[i] <= 57 }

  function DecimalValue(digits: seq<byte>): nat
    requires DecimalDigits(digits)
  {
    if digits == [] then 0 else 10 * DecimalValue(digits[..|digits| - 1]) + (digits[|digits| - 1] - 48)
  }

  /** One exact `<length> path=<path>\n` record that counts itself. */
  function PaxPath(payload: seq<byte>): (r: Result<Path>)
    ensures r.Err? ==> Judged(r.error)
  {
    if payload == [] || |payload| > PAX_MAX then Err(PaxOutOfBounds)
    else if !ValidUtf8(payload) then Err(NotUtf8)
    else if 0 in payload then Err(PaxHoldsNul)
    else
      var n := DigitCount(payload);
      var rest := payload[n..];
      if n == 0 || payload[0] == 48 || |rest| < 8 || rest[..6] != PATH_TAG || rest[|rest| - 1] != NEWLINE
         || NEWLINE in rest[6..|rest| - 1] || DecimalValue(payload[..n]) != |payload|
      then Err(PaxNotOneRecord)
      else Ok(rest[6..|rest| - 1])
  }

  function Pad(size: nat): (n: nat)
    ensures n < BLOCK && (size + n) % BLOCK == 0
  {
    (BLOCK - size % BLOCK) % BLOCK
  }
}
