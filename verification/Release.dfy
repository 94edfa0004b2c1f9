/**
 * A form of named parts written as an index and base64 chunk files (section 4 of RFC 4648), and
 * collected from them again.
 */
module Release {
  import opened Wrappers

  /** A base64 character: one of the 64 digits, or the pad. */
  datatype Char = Digit(value: int) | Equals

  const CHUNK_BYTES := 6 * 1024 * 1024
  const RELEASE_BYTES_MAX := 24 * 1024 * 1024

  predicate IsDigit(c: Char) { c.Digit? && 0 <= c.value < 64 }

  // ----- base64

  function Group3(a: byte, b: byte, c: byte): seq<Char> {
    [Digit(a / 4), Digit(a % 4 * 16 + b / 16), Digit(b % 16 * 4 + c / 64), Digit(c % 64)]
  }

  function Encode(bytes: seq<byte>): (text: seq<Char>)
    ensures |text| == 4 * ((|bytes| + 2) / 3)
  {
    if bytes == [] then []
    else if |bytes| == 1 then [Digit(bytes[0] / 4), Digit(bytes[0] % 4 * 16), Equals, Equals]
    else if |bytes| == 2 then [Digit(bytes[0] / 4), Digit(bytes[0] % 4 * 16 + bytes[1] / 16), Digit(bytes[1] % 16 * 4), Equals]
    else Group3(bytes[0], bytes[1], bytes[2]) + Encode(bytes[3..])
  }

  /** `atob` on padded text: whole groups of four, padding only at the end. */
  function Decode(text: seq<Char>): Option<seq<byte>> {
    if text == [] then Some([])
    else if |text| < 4 || !IsDigit(text[0]) || !IsDigit(text[1]) then None
    else
      var first := text[0].value * 4 + text[1].value / 16;
      if text[2].Equals? then
        if |text| == 4 && text[3].Equals? then Some([first]) else None
      else if !IsDigit(text[2]) then None
      else
        var second := text[1].value % 16 * 16 + text[2].value / 4;
        if text[3].Equals? then
          if |text| == 4 then Some([first, second]) else None
        else if !IsDigit(text[3]) then None
        else
          var rest := Decode(text[4..]);
          if rest.None? then None else Some([first, second, text[2].value % 4 * 64 + text[3].value] + rest.value)
  }

  lemma DigitsBack(a: byte, b: byte, c: byte)
    ensures 0 <= a / 4 < 64 && 0 <= a % 4 * 16 + b / 16 < 64 && 0 <= b % 16 * 4 + c / 64 < 64 && 0 <= c % 64 < 64
    ensures a / 4 * 4 + (a % 4 * 16 + b / 16) / 16 == a
    ensures (a % 4 * 16 + b / 16) % 16 * 16 + (b % 16 * 4 + c / 64) / 4 == b
    ensures (b % 16 * 4 + c / 64) % 4 * 64 + c % 64 == c
  {
  }

  lemma FourDigits(d0: int, d1: int, d2: int, d3: int, text: seq<Char>, bytes: seq<byte>, a: byte, b: byte, c: byte)
    requires 0 <= d0 < 64 && 0 <= d1 < 64 && 0 <= d2 < 64 && 0 <= d3 < 64 && Decode(text) == Some(bytes)
    requires d0 * 4 + d1 / 16 == a && d1 % 16 * 16 + d2 / 4 == b && d2 % 4 * 64 + d3 == c
    ensures Decode([Digit(d0), Digit(d1), Digit(d2), Digit(d3)] + text) == Some([a, b, c] + bytes)
  {
    var all := [Digit(d0), Digit(d1), Digit(d2), Digit(d3)] + text;
    assert all[4..] == text;
  }

  lemma GroupDecodes(a: byte, b: byte, c: byte, text: seq<Char>, bytes: seq<byte>)
    requires Decode(text) == Some(bytes)
    ensures Decode(Group3(a, b, c) + text) == Some([a, b, c] + bytes)
  {
    hide Decode;
    DigitsBack(a, b, c);
    FourDigits(a / 4, a % 4 * 16 + b / 16, b % 16 * 4 + c / 64, c % 64, text, bytes, a, b, c);
  }

  /** Decoding undoes encoding. */
  lemma {:induction false} Base64RoundTrip(bytes: seq<byte>)
    ensures Decode(Encode(bytes)) == Some(bytes)
  {
    if |bytes| == 1 {
      DigitsBack(bytes[0], 0, 0);
      assert bytes == [bytes[0]];
    } else if |bytes| == 2 {
      DigitsBack(bytes[0], bytes[1], 0);
      assert bytes == [bytes[0], bytes[1]];
    } else if |bytes| > 2 {
      hide Decode;
      Base64RoundTrip(bytes[3..]);
      GroupDecodes(bytes[0], bytes[1], bytes[2], Encode(bytes[3..]), bytes[3..]);
      assert bytes == [bytes[0], bytes[1], bytes[2]] + bytes[3..];
    }
  }

  /** A digit's number; a pad stands for none. */
  ghost function Worth(c: Char): int { if c.Digit? then c.value else 0 }

  ghost function ByteAt(bytes: seq<byte>, i: nat): int { if i < |bytes| then bytes[i] else 0 }

  /** Four characters spell the 24 bits of three bytes, six each, missing bytes as zeros and a pad for each of them. */
  ghost predicate Spells(text: seq<Char>, bytes: seq<byte>) {
    && |text| >= 4
    && Worth(text[0]) * 262144 + Worth(text[1]) * 4096 + Worth(text[2]) * 64 + Worth(text[3])
       == ByteAt(bytes, 0) * 65536 + ByteAt(bytes, 1) * 256 + ByteAt(bytes, 2)
    && text[0].Digit? && text[1].Digit? && (text[2].Equals? <==> |bytes| < 2) && (text[3].Equals? <==> |bytes| < 3)
    && forall i | 0 <= i < 4 :: 0 <= Worth(text[i]) < 64
  }

  lemma GroupSpells(a: byte, b: byte, c: byte)
    ensures a / 4 * 262144 + (a % 4 * 16 + b / 16) * 4096 + (b % 16 * 4 + c / 64) * 64 + c % 64 == a * 65536 + b * 256 + c
  {
    assert a == a / 4 * 4 + a % 4 && b == b / 16 * 16 + b % 16 && c == c / 64 * 64 + c % 64;
  }

  /** Group by group, the text spells the bytes as section 4 of RFC 4648 has it. */
  lemma {:induction false} Base64Exactly(bytes: seq<byte>, k: nat)
    requires 3 * k < |bytes|
    ensures 4 * k + 4 <= |Encode(bytes)| && Spells(Encode(bytes)[4 * k..], bytes[3 * k..])
  {
    if k > 0 {
      Base64Exactly(bytes[3..], k - 1);
      var text, rest := Encode(bytes), Encode(bytes[3..]);
      assert text[4 * k..] == rest[4 * (k - 1)..] && bytes[3 * k..] == bytes[3..][3 * (k - 1)..];
    } else {
      assert Encode(bytes)[0..] == Encode(bytes) && bytes[0..] == bytes;
      GroupSpells(bytes[0], if |bytes| > 1 then bytes[1] else 0, if |bytes| > 2 then bytes[2] else 0);
    }
  }

  /** Text whose bytes come in threes carries no padding. */
  lemma {:induction false} WholeGroupsUnpadded(bytes: seq<byte>)
    requires |bytes| % 3 == 0
    ensures Equals !in Encode(bytes)
  {
    if bytes != [] {
      WholeGroupsUnpadded(bytes[3..]);
    }
  }

  // ----- the release

  /** A form field's text (as its UTF-8 bytes), or a file's bytes with its media type and filename. */
  datatype Value = Text(utf8: seq<byte>) | File(bytes: seq<byte>, mediaType: string, filename: string)

  datatype Field = Field(name: string, value: Value)

  datatype Part = Part(name: string, bytes: nat, chunks: nat, mediaType: Option<string>)

  function BytesOf(v: Value): seq<byte> { if v.Text? then v.utf8 else v.bytes }

  /** The directory: the index, with what the build says was lost, and chunk `c` of part `i`. */
  datatype Dir = Dir(index: seq<Part>, dataLoss: string, files: map<(nat, nat), seq<Char>>)

  function ChunkCount(n: nat): nat { (n + CHUNK_BYTES - 1) / CHUNK_BYTES }

  function Slice(bytes: seq<byte>, c: nat): seq<byte>
    requires c < ChunkCount(|bytes|)
  {
    bytes[c * CHUNK_BYTES..if (c + 1) * CHUNK_BYTES <= |bytes| then (c + 1) * CHUNK_BYTES else |bytes|]
  }

  function PartOf(f: Field): Part {
    var n := |BytesOf(f.value)|;
    Part(f.name, n, ChunkCount(n), if f.value.Text? then None else Some(f.value.mediaType))
  }

  /** Chunk files of part `i` are the base64 of its slices. */
  ghost predicate Holds(files: map<(nat, nat), seq<Char>>, i: nat, bytes: seq<byte>, chunks: nat) {
    chunks <= ChunkCount(|bytes|) && forall c: nat | c < chunks :: (i, c) in files && files[(i, c)] == Encode(Slice(bytes, c))
  }

  ghost predicate Written(form: seq<Field>, d: Dir) {
    && |d.index| == |form|
    && forall i: nat | i < |form| :: d.index[i] == PartOf(form[i]) && Holds(d.files, i, BytesOf(form[i].value), ChunkCount(|BytesOf(form[i].value)|))
  }

  method WriteRelease(form: seq<Field>, dataLoss: string) returns (d: Dir)
    ensures Written(form, d) && d.dataLoss == dataLoss
  {
    var parts: seq<Part>, files: map<(nat, nat), seq<Char>> := [], map[];
    for i := 0 to |form|
      invariant |parts| == i
      invariant forall j: nat | j < i ::
          parts[j] == PartOf(form[j]) && Holds(files, j, BytesOf(form[j].value), ChunkCount(|BytesOf(form[j].value)|))
    {
      var bytes := BytesOf(form[i].value);
      var chunks := ChunkCount(|bytes|);
      for c := 0 to chunks
        invariant Holds(files, i, bytes, c)
        invariant forall j: nat | j < i :: Holds(files, j, BytesOf(form[j].value), ChunkCount(|BytesOf(form[j].value)|))
      {
        files := files[(i, c) := Encode(Slice(bytes, c))];
      }
      parts := parts + [PartOf(form[i])];
    }
    d := Dir(parts, dataLoss, files);
  }

  /** Every chunk file is within 8 Mi characters, and only a part's last one can be padded. */
  lemma ChunkFiles(bytes: seq<byte>, c: nat)
    requires c < ChunkCount(|bytes|)
    ensures |Encode(Slice(bytes, c))| <= 8 * 1024 * 1024
    ensures c + 1 < ChunkCount(|bytes|) ==> Equals !in Encode(Slice(bytes, c))
  {
    if c + 1 < ChunkCount(|bytes|) {
      assert |Slice(bytes, c)| == CHUNK_BYTES;
      WholeGroupsUnpadded(Slice(bytes, c));
    }
  }

  // ----- collecting it

  datatype Error = TooLarge | Unreadable | NotBase64 | WrongLength

  datatype Result<+T> = Ok(value: T) | Err(error: Error)

  /** A typed array's own rule: a write past its end is ignored. */
  method CopyInto(a: array<byte>, offset: nat, binary: seq<byte>)
    modifies a
    ensures offset + |binary| <= a.Length ==> a[..] == old(a[..offset]) + binary + old(a[offset + |binary|..])
  {
    for c := 0 to |binary|
      invariant offset + |binary| <= a.Length ==>
                  a[..] == old(a[..offset]) + binary[..c] + old(a[offset + c..])
    {
      if offset + c < a.Length {
        a[offset + c] := binary[c];
      }
    }
  }

  lemma SliceEnds(bytes: seq<byte>, c: nat)
    requires c < ChunkCount(|bytes|)
    ensures c * CHUNK_BYTES + |Slice(bytes, c)| <= |bytes|
    ensures c + 1 < ChunkCount(|bytes|) ==> |Slice(bytes, c)| == CHUNK_BYTES
    ensures c + 1 == ChunkCount(|bytes|) ==> c * CHUNK_BYTES + |Slice(bytes, c)| == |bytes|
    ensures bytes[..c * CHUNK_BYTES] + Slice(bytes, c) == bytes[..c * CHUNK_BYTES + |Slice(bytes, c)|]
  {
  }

  /** How far chunk `c` begins into the part. */
  ghost function Begins(n: nat, c: nat): nat
    requires c <= ChunkCount(n)
  {
    if c == ChunkCount(n) then n else c * CHUNK_BYTES
  }

  method CollectPart(files: map<(nat, nat), seq<Char>>, i: nat, part: Part, ghost full: seq<byte>) returns (r: Result<seq<byte>>)
    ensures part.bytes == |full| && part.chunks == ChunkCount(|full|) && Holds(files, i, full, part.chunks) ==> r == Ok(full)
  {
    hide Decode, Encode, Slice;
    ghost var sound := part.bytes == |full| && part.chunks == ChunkCount(|full|) && Holds(files, i, full, part.chunks);
    var bytes := new byte[part.bytes](_ => 0);
    var offset: nat := 0;
    for chunk := 0 to part.chunks
      invariant sound ==> offset == Begins(|full|, chunk) <= |full| && bytes[..offset] == full[..offset]
    {
      if (i, chunk) !in files {
        return Err(Unreadable);
      }
      if sound {
        assert files[(i, chunk)] == Encode(Slice(full, chunk));
        Base64RoundTrip(Slice(full, chunk));
        SliceEnds(full, chunk);
      }
      var binary := Decode(files[(i, chunk)]);
      if binary.None? {
        return Err(NotBase64);
      }
      CopyInto(bytes, offset, binary.value);
      offset := offset + |binary.value|;
    }
    if offset != part.bytes {
      return Err(WrongLength);
    }
    assert bytes[..] == bytes[..offset];
    assert full[..|full|] == full;
    r := Ok(bytes[..]);
  }

  const BOM: seq<byte> := [0xEF, 0xBB, 0xBF]

  /** `TextDecoder`'s default drops one leading byte order mark. */
  function Decoded(utf8: seq<byte>): seq<byte> { if BOM <= utf8 then utf8[3..] else utf8 }

  /** A field as it comes back: a text decoded, a file under its part's name. */
  function Received(f: Field): Field {
    f.(value := if f.value.Text? then Text(Decoded(f.value.utf8)) else f.value.(filename := f.name))
  }

  /** `form.set`: an earlier field of the name is replaced in place, otherwise the field is added. */
  function SetField(form: seq<Field>, f: Field): seq<Field> {
    if form == [] then [f]
    else if form[0].name == f.name then [f] + form[1..]
    else [form[0]] + SetField(form[1..], f)
  }

  ghost predicate DistinctNames(form: seq<Field>) { forall i, j | 0 <= i < j < |form| :: form[i].name != form[j].name }

  lemma {:induction false} SetAppends(form: seq<Field>, f: Field)
    requires forall i | 0 <= i < |form| :: form[i].name != f.name
    ensures SetField(form, f) == form + [f]
  {
    if form != [] {
      SetAppends(form[1..], f);
    }
  }

  ghost function TotalBytes(index: seq<Part>): nat {
    if index == [] then 0 else TotalBytes(index[..|index| - 1]) + index[|index| - 1].bytes
  }

  method SumBytes(index: seq<Part>) returns (sum: nat)
    ensures sum == TotalBytes(index)
  {
    sum := 0;
    for i := 0 to |index|
      invariant sum == TotalBytes(index[..i])
    {
      assert index[..i + 1][..i] == index[..i];
      sum := sum + index[i].bytes;
    }
    assert index[..|index|] == index;
  }

  ghost function ReceivedAll(form: seq<Field>): seq<Field> {
    seq(|form|, i requires 0 <= i < |form| => Received(form[i]))
  }

  lemma SetNext(form: seq<Field>, i: nat)
    requires DistinctNames(form) && i < |form|
    ensures SetField(ReceivedAll(form)[..i], Received(form[i])) == ReceivedAll(form)[..i + 1]
  {
    hide SetField, Decoded;
    SetAppends(ReceivedAll(form)[..i], Received(form[i]));
  }

  /** What was written comes back under its own names and types, unless the release is over the limit. */
  method CollectRelease(d: Dir, ghost form: seq<Field>) returns (r: Result<(seq<Field>, string)>)
    ensures Written(form, d) && DistinctNames(form) ==>
              r == if TotalBytes(d.index) > RELEASE_BYTES_MAX then Err(TooLarge) else Ok((ReceivedAll(form), d.dataLoss))
  {
    hide Holds, Decoded, SetField, TotalBytes, DistinctNames;
    var sum := SumBytes(d.index);
    if sum > RELEASE_BYTES_MAX {
      return Err(TooLarge);
    }
    ghost var sound := Written(form, d) && DistinctNames(form);
    var got: seq<Field> := [];
    for i := 0 to |d.index|
      invariant sound ==> got == ReceivedAll(form)[..i]
    {
      var part := d.index[i];
      ghost var full := if sound then BytesOf(form[i].value) else [];
      var bytes := CollectPart(d.files, i, part, full);
      if bytes.Err? {
        return Err(bytes.error);
      }
      var value := if part.mediaType.None? then Text(Decoded(bytes.value)) else File(bytes.value, part.mediaType.value, part.name);
      if sound {
        assert Field(part.name, value) == Received(form[i]);
        SetNext(form, i);
      }
      got := SetField(got, Field(part.name, value));
    }
    assert sound ==> ReceivedAll(form)[..|d.index|] == ReceivedAll(form);
    r := Ok((got, d.dataLoss));
  }

  /** A field the transfer changes: a text that starts with a byte order mark, or a file named otherwise than its part. */
  predicate Alters(f: Field) { if f.value.Text? then BOM <= f.value.utf8 else f.value.filename != f.name }

  lemma AltersExactly(f: Field)
    ensures Received(f) == f <==> !Alters(f)
  {
    if f.value.Text? && BOM <= f.value.utf8 {
      assert |Decoded(f.value.utf8)| == |f.value.utf8| - 3;
    }
  }

  /** The round trip is exact just when no field is such a one. */
  lemma RoundTripExactly(form: seq<Field>)
    ensures ReceivedAll(form) == form <==> forall i | 0 <= i < |form| :: !Alters(form[i])
  {
    hide Received, Alters;
    forall i | 0 <= i < |form| ensures ReceivedAll(form)[i] == form[i] <==> !Alters(form[i]) { AltersExactly(form[i]); }
  }
}
