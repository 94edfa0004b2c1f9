/** A USTAR header block as the writer lays it out, and that the reader reads the same fields back. */
module UstarImage {
  import opened Wrappers
  import opened Text
  import opened ArchivePaths
  import opened Ustar
  import opened ArchiveSpec

  /** How a header names its entry, and the entry's mode bits. */
  datatype Tag = Tag(name: seq<byte>, prefix: seq<byte>, mode: nat)

  predicate Fits(tag: Tag) { |tag.name| <= 100 && |tag.prefix| <= 155 && tag.mode <= 511 }

  /** The path a header's two fields spell. */
  function Spelled(tag: Tag): Path { if tag.prefix != [] then tag.prefix + [SLASH] + tag.name else tag.name }

  ghost predicate Legible(tag: Tag) {
    Fits(tag) && 0 !in tag.name && ValidUtf8(tag.name) && 0 !in tag.prefix && ValidUtf8(tag.prefix)
  }

  function Zeros(n: nat): (z: seq<byte>)
    ensures |z| == n && Zero(z)
  {
    seq(n, _ => 0)
  }

  function Padded(text: seq<byte>, width: nat): (field: seq<byte>)
    requires |text| <= width
    ensures |field| == width
  {
    text + Zeros(width - |text|)
  }

  function Power8(n: nat): nat { if n == 0 then 1 else 8 * Power8(n - 1) }

  /** `n` in `width` octal digits. */
  function OctalOf(n: nat, width: nat): (digits: seq<byte>)
    requires n < Power8(width)
    ensures |digits| == width && OctalDigits(digits)
  {
    if width == 0 then [] else OctalOf(n / 8, width - 1) + [48 + n % 8]
  }

  lemma {:induction false} OctalRoundTrip(n: nat, width: nat)
    requires n < Power8(width)
    ensures OctalValue(OctalOf(n, width)) == n
  {
    if width > 0 {
      OctalRoundTrip(n / 8, width - 1);
      assert OctalOf(n, width)[..width - 1] == OctalOf(n / 8, width - 1);
    }
  }

  // ----- UTF-8

  lemma {:induction false} Utf8Joined(a: seq<byte>, b: seq<byte>)
    requires ValidUtf8(a) && ValidUtf8(b)
    ensures ValidUtf8(a + b)
    decreases |a|
  {
    if a == [] {
      assert a + b == b;
    } else {
      var w := Width(a);
      Utf8Joined(a[w..], b);
      WidthPrefix(a, b);
      assert (a + b)[w..] == a[w..] + b;
    }
  }

  lemma WidthPrefix(a: seq<byte>, b: seq<byte>)
    requires a != [] && Width(a) > 0
    ensures Width(a + b) == Width(a)
  {
    assert forall i | 0 <= i < |a| :: (a + b)[i] == a[i];
  }

  lemma WidthBefore(a: seq<byte>, c: byte, b: seq<byte>)
    requires a != [] && c < 128 && Width(a + [c] + b) > 0
    ensures Width(a) == Width(a + [c] + b)
  {
    var all := a + [c] + b;
    assert all[|a|] == c && forall i | 0 <= i < |a| :: all[i] == a[i];
  }

  /** Text cut at an ASCII character is text on both sides. */
  lemma {:induction false} Utf8Cut(a: seq<byte>, c: byte, b: seq<byte>)
    requires c < 128 && ValidUtf8(a + [c] + b)
    ensures ValidUtf8(a) && ValidUtf8(b)
    decreases |a|
  {
    var all := a + [c] + b;
    if a == [] {
      assert all[1..] == b;
    } else {
      WidthBefore(a, c, b);
      var w := Width(all);
      assert all[w..] == a[w..] + [c] + b;
      Utf8Cut(a[w..], c, b);
    }
  }

  lemma {:induction false} AsciiValid(text: seq<byte>)
    requires forall i | 0 <= i < |text| :: text[i] < 128
    ensures ValidUtf8(text)
  {
    if text != [] {
      AsciiValid(text[1..]);
    }
  }

  // ----- fields read back

  lemma {:induction false} UpToNulPadded(text: seq<byte>, tail: seq<byte>)
    requires 0 !in text && (tail == [] || tail[0] == 0)
    ensures UpToNul(text + tail) == text
  {
    if text == [] {
      assert text + tail == tail;
    } else {
      UpToNulPadded(text[1..], tail);
      assert (text + tail)[1..] == text[1..] + tail;
      assert [text[0]] + text[1..] == text;
    }
  }

  lemma FieldPadded(text: seq<byte>, width: nat)
    requires |text| <= width && 0 !in text && ValidUtf8(text)
    ensures FieldText(Padded(text, width)) == Ok(text)
  {
    UpToNulPadded(text, Zeros(width - |text|));
    assert Padded(text, width)[|text|..] == Zeros(width - |text|);
  }

  /** A numeric field: octal digits and a NUL. */
  function NumberField(n: nat, width: nat): (field: seq<byte>)
    requires width > 0 && n < Power8(width - 1)
    ensures |field| == width
  {
    Padded(OctalOf(n, width - 1), width)
  }

  lemma NumberReadsBack(n: nat, width: nat)
    requires width > 1 && n < Power8(width - 1) && n <= MAX_SAFE_INTEGER
    ensures FieldText(NumberField(n, width)).Ok?
    ensures OctalText(FieldText(NumberField(n, width)).value) == Ok(n)
    ensures FieldText(NumberField(n, width)).value != []
  {
    var digits := OctalOf(n, width - 1);
    AsciiValid(digits);
    FieldPadded(digits, width);
    OctalRoundTrip(n, width - 1);
    assert digits[0] != 32;
  }

  // ----- headers

  /** A header as its three stretches: before the checksum, the checksum, and after it. */
  function Before(tag: Tag, size: nat): (pre: seq<byte>)
    requires Fits(tag) && size < Power8(11)
    ensures |pre| == 148
  {
    Small();
    Padded(tag.name, 100) + NumberField(tag.mode, 8) + NumberField(0, 8) + NumberField(0, 8) + NumberField(size, 12) + NumberField(0, 12)
  }

  function After(tag: Tag, kind: byte): (post: seq<byte>)
    requires Fits(tag)
    ensures |post| == 356
  {
    [kind] + Zeros(100) + Padded(USTAR, 6) + VERSION + Zeros(32) + Zeros(32) + Zeros(8) + Zeros(8) + Padded(tag.prefix, 155) + Zeros(12)
  }

  lemma Small()
    ensures Power8(7) == 2097152 && Power8(11) == 8589934592
  {
    assert Power8(3) == 512;
    assert Power8(7) == 8 * 8 * 8 * 8 * Power8(3);
    assert Power8(11) == 8 * 8 * 8 * 8 * Power8(7);
  }

  function Sum(bytes: seq<byte>): (n: nat)
    ensures n <= 255 * |bytes|
  {
    if bytes == [] then 0 else bytes[0] + Sum(bytes[1..])
  }

  function HeaderBlock(tag: Tag, size: nat, kind: byte): (block: seq<byte>)
    requires Fits(tag) && size < Power8(11)
    ensures |block| == BLOCK
  {
    Small();
    var pre, post := Before(tag, size), After(tag, kind);
    pre + NumberField(Sum(pre) + 256 + Sum(post), 8) + post
  }

  lemma {:induction false} ChecksumTail(block: seq<byte>, i: nat)
    requires 156 <= i <= |block|
    ensures Checksum(block, i) == Sum(block[i..])
    decreases |block| - i
  {
    if i < |block| {
      ChecksumTail(block, i + 1);
      assert block[i..][1..] == block[i + 1..];
    }
  }

  lemma {:induction false} ChecksumSpaces(block: seq<byte>, i: nat)
    requires 148 <= i <= 156 <= |block|
    ensures Checksum(block, i) == 32 * (156 - i) + Sum(block[156..])
    decreases 156 - i
  {
    if i == 156 {
      ChecksumTail(block, 156);
    } else {
      ChecksumSpaces(block, i + 1);
    }
  }

  lemma {:induction false} ChecksumHead(block: seq<byte>, i: nat)
    requires i <= 148 && 156 <= |block|
    ensures Checksum(block, i) == Sum(block[i..148]) + 256 + Sum(block[156..])
    decreases 148 - i
  {
    if i == 148 {
      ChecksumSpaces(block, 148);
    } else {
      ChecksumHead(block, i + 1);
      assert block[i..148][1..] == block[i + 1..148];
    }
  }

  /** `block` at `at` holds `field`. */
  ghost predicate At(block: seq<byte>, at: nat, field: seq<byte>) {
    at + |field| <= |block| && block[at..at + |field|] == field
  }

  lemma SixFields(a: seq<byte>, b: seq<byte>, c: seq<byte>, d: seq<byte>, e: seq<byte>, f: seq<byte>)
    ensures var all := a + b + c + d + e + f;
            && At(all, 0, a) && At(all, |a|, b) && At(all, |a| + |b|, c) && At(all, |a| + |b| + |c|, d)
            && At(all, |a| + |b| + |c| + |d|, e) && At(all, |a| + |b| + |c| + |d| + |e|, f)
  {
  }

  lemma BeforeFields(tag: Tag, size: nat, mode: seq<byte>, none: seq<byte>, bytes: seq<byte>, when: seq<byte>, pre: seq<byte>)
    requires Fits(tag) && size < Power8(11) && pre == Before(tag, size)
    requires Power8(7) > tag.mode && mode == NumberField(tag.mode, 8) && none == NumberField(0, 8)
    requires bytes == NumberField(size, 12) && when == NumberField(0, 12)
    ensures At(pre, 0, Padded(tag.name, 100)) && At(pre, 100, mode) && At(pre, 108, none)
    ensures At(pre, 116, none) && At(pre, 124, bytes) && At(pre, 136, when)
  {
    hide OctalOf, NumberField;
    SixFields(Padded(tag.name, 100), mode, none, none, bytes, when);
  }

  lemma AfterFields(tag: Tag, kind: byte)
    requires Fits(tag)
    ensures var post := After(tag, kind);
            && post[0] == kind && At(post, 1, Zeros(100)) && At(post, 101, Padded(USTAR, 6)) && At(post, 107, VERSION)
            && At(post, 109, Zeros(32)) && At(post, 141, Zeros(32)) && At(post, 173, Zeros(8)) && At(post, 181, Zeros(8))
            && At(post, 189, Padded(tag.prefix, 155)) && At(post, 344, Zeros(12))
  {
  }

  lemma Lifted(pre: seq<byte>, mid: seq<byte>, post: seq<byte>, at: nat, field: seq<byte>)
    ensures At(pre, at, field) ==> At(pre + mid + post, at, field)
    ensures At(post, at, field) ==> At(pre + mid + post, |pre| + |mid| + at, field)
  {
    var block := pre + mid + post;
    if At(pre, at, field) {
      assert block[at..at + |field|] == pre[at..at + |field|];
    }
    if At(post, at, field) {
      assert block[|pre| + |mid| + at..|pre| + |mid| + at + |field|] == post[at..at + |field|];
    }
  }

  lemma ReadsField(block: seq<byte>, at: nat, field: seq<byte>)
    requires At(block, at, field)
    ensures Field(block, at, |field|) == FieldText(field)
  {
  }

  lemma ReadsNumber(block: seq<byte>, at: nat, n: nat, width: nat)
    requires width > 1 && n < Power8(width - 1) && n <= MAX_SAFE_INTEGER && At(block, at, NumberField(n, width))
    ensures Octal(block, at, width) == Ok(n)
  {
    NumberReadsBack(n, width);
    ReadsField(block, at, NumberField(n, width));
  }

  lemma ReadsEmpty(block: seq<byte>, at: nat, width: nat)
    requires At(block, at, Zeros(width))
    ensures Field(block, at, width) == Ok([]) && Octal(block, at, width, true) == Ok(0)
  {
    FieldPadded([], width);
    assert Padded([], width) == Zeros(width);
    ReadsField(block, at, Zeros(width));
  }

  /** A written header's fields, where the reader looks for them. */
  ghost predicate Laid(block: seq<byte>, tag: Tag, size: nat, kind: byte, sum: nat)
    requires |block| == BLOCK && Fits(tag) && size < Power8(11) && Power8(7) > tag.mode && sum < Power8(7)
  {
    && At(block, 0, Padded(tag.name, 100)) && At(block, 100, NumberField(tag.mode, 8)) && At(block, 108, NumberField(0, 8))
    && At(block, 116, NumberField(0, 8)) && At(block, 124, NumberField(size, 12)) && At(block, 136, NumberField(0, 12))
    && At(block, 148, NumberField(sum, 8))
    && block[156] == kind && At(block, 157, Zeros(100)) && At(block, 257, Padded(USTAR, 6)) && At(block, 263, VERSION)
    && At(block, 265, Zeros(32)) && At(block, 297, Zeros(32)) && At(block, 329, Zeros(8)) && At(block, 337, Zeros(8))
    && At(block, 345, Padded(tag.prefix, 155)) && At(block, 500, Zeros(12))
  }

  lemma ChecksumSplit(pre: seq<byte>, check: seq<byte>, post: seq<byte>)
    requires |pre| == 148 && |check| == 8
    ensures Checksum(pre + check + post, 0) == Sum(pre) + 256 + Sum(post)
  {
    var block := pre + check + post;
    ChecksumHead(block, 0);
    assert block[0..148] == pre && block[156..] == post;
  }

  lemma MidAt(pre: seq<byte>, check: seq<byte>, post: seq<byte>)
    ensures At(pre + check + post, |pre|, check)
  {
  }

  lemma HeaderLaid(tag: Tag, size: nat, kind: byte) returns (sum: nat)
    requires Fits(tag) && size < Power8(11)
    ensures Power8(7) > tag.mode && sum < Power8(7) && sum <= 255 * 512
    ensures var block := HeaderBlock(tag, size, kind);
            Checksum(block, 0) == sum && Laid(block, tag, size, kind, sum)
  {
    hide OctalOf, NumberField, Before, After, Sum, Checksum, Power8, Padded, At;
    Small();
    var pre, post := Before(tag, size), After(tag, kind);
    sum := Sum(pre) + 256 + Sum(post);
    var check := NumberField(sum, 8);
    ChecksumSplit(pre, check, post);
    BeforeFields(tag, size, NumberField(tag.mode, 8), NumberField(0, 8), NumberField(size, 12), NumberField(0, 12), pre);
    LiftBefore(pre, check, post, NumberField(tag.mode, 8), NumberField(0, 8), NumberField(size, 12), NumberField(0, 12), tag.name);
    LiftAfter(pre, check, post, tag, kind);
    MidAt(pre, check, post);
  }

  lemma LiftBefore(pre: seq<byte>, check: seq<byte>, post: seq<byte>, mode: seq<byte>, none: seq<byte>, bytes: seq<byte>, when: seq<byte>, name: seq<byte>)
    requires |name| <= 100
    requires At(pre, 0, Padded(name, 100)) && At(pre, 100, mode) && At(pre, 108, none) && At(pre, 116, none) && At(pre, 124, bytes) && At(pre, 136, when)
    ensures var block := pre + check + post;
            && At(block, 0, Padded(name, 100)) && At(block, 100, mode) && At(block, 108, none) && At(block, 116, none)
            && At(block, 124, bytes) && At(block, 136, when)
  {
    hide At;
    Lifted(pre, check, post, 0, Padded(name, 100));
    Lifted(pre, check, post, 100, mode);
    Lifted(pre, check, post, 108, none);
    Lifted(pre, check, post, 116, none);
    Lifted(pre, check, post, 124, bytes);
    Lifted(pre, check, post, 136, when);
  }

  lemma LiftAfter(pre: seq<byte>, check: seq<byte>, post: seq<byte>, tag: Tag, kind: byte)
    requires |pre| == 148 && |check| == 8 && Fits(tag) && post == After(tag, kind)
    ensures var block := pre + check + post;
            && block[156] == kind && At(block, 157, Zeros(100)) && At(block, 257, Padded(USTAR, 6)) && At(block, 263, VERSION)
            && At(block, 265, Zeros(32)) && At(block, 297, Zeros(32)) && At(block, 329, Zeros(8)) && At(block, 337, Zeros(8))
            && At(block, 345, Padded(tag.prefix, 155)) && At(block, 500, Zeros(12))
  {
    hide At, After;
    AfterFields(tag, kind);
    Lifted(pre, check, post, 1, Zeros(100));
    Lifted(pre, check, post, 101, Padded(USTAR, 6));
    Lifted(pre, check, post, 107, VERSION);
    Lifted(pre, check, post, 109, Zeros(32));
    Lifted(pre, check, post, 141, Zeros(32));
    Lifted(pre, check, post, 173, Zeros(8));
    Lifted(pre, check, post, 181, Zeros(8));
    Lifted(pre, check, post, 189, Padded(tag.prefix, 155));
    Lifted(pre, check, post, 344, Zeros(12));
  }

  ghost predicate LaidOut(block: seq<byte>, tag: Tag, size: nat, kind: byte, sum: nat) {
    && |block| == BLOCK && Fits(tag) && size < Power8(11) && Power8(7) > tag.mode && sum < Power8(7) && sum <= 255 * 512
    && Laid(block, tag, size, kind, sum)
  }

  lemma LaidStrings(block: seq<byte>, tag: Tag, size: nat, kind: byte, sum: nat)
    requires LaidOut(block, tag, size, kind, sum)
    ensures At(block, 0, Padded(tag.name, 100)) && At(block, 345, Padded(tag.prefix, 155))
    ensures At(block, 257, Padded(USTAR, 6)) && At(block, 263, VERSION)
    ensures At(block, 157, Zeros(100)) && At(block, 265, Zeros(32)) && At(block, 297, Zeros(32))
    ensures Zero(block[500..]) && !Zero(block)
  {
    hide NumberField, OctalOf, Power8;
    assert block[257..263][0] == Padded(USTAR, 6)[0] == 117 == block[257];
    assert block[500..] == block[500..512];
  }

  lemma NameReadsBack(block: seq<byte>, tag: Tag)
    requires |block| == BLOCK && Legible(tag)
    requires At(block, 0, Padded(tag.name, 100)) && At(block, 345, Padded(tag.prefix, 155))
    ensures NamedPath(block) == Ok(Spelled(tag))
  {
    hide At, ValidUtf8, Field, FieldText;
    ReadsField(block, 0, Padded(tag.name, 100));
    FieldPadded(tag.name, 100);
    ReadsField(block, 345, Padded(tag.prefix, 155));
    FieldPadded(tag.prefix, 155);
  }

  lemma MagicReadsBack(block: seq<byte>)
    requires |block| == BLOCK && At(block, 257, Padded(USTAR, 6)) && At(block, 263, VERSION)
    ensures Field(block, 257, 6) == Ok(USTAR) && Field(block, 263, 2) == Ok(VERSION)
  {
    hide At, Field, FieldText;
    AsciiValid(USTAR);
    AsciiValid(VERSION);
    hide ValidUtf8;
    ReadsField(block, 257, Padded(USTAR, 6));
    FieldPadded(USTAR, 6);
    ReadsField(block, 263, VERSION);
    FieldPadded(VERSION, 2);
    assert Padded(VERSION, 2) == VERSION;
  }

  lemma LaidNumbers(block: seq<byte>, tag: Tag, size: nat, kind: byte, sum: nat)
    requires LaidOut(block, tag, size, kind, sum)
    ensures At(block, 100, NumberField(tag.mode, 8)) && At(block, 108, NumberField(0, 8)) && At(block, 116, NumberField(0, 8))
    ensures At(block, 124, NumberField(size, 12)) && At(block, 136, NumberField(0, 12)) && At(block, 148, NumberField(sum, 8))
    ensures block[156] == kind && At(block, 329, Zeros(8)) && At(block, 337, Zeros(8)) && Zero(block[500..])
  {
    LaidStrings(block, tag, size, kind, sum);
    hide At, NumberField, OctalOf, Power8, Padded, Zero;
  }

  lemma NumbersReadBack(block: seq<byte>, tag: Tag, size: nat, kind: byte, sum: nat)
    requires LaidOut(block, tag, size, kind, sum)
    ensures NumbersOf(block, sum) == Ok(Header(kind, size))
  {
    hide At, Field, OctalOf, NumberField, Power8, Padded, Octal, Zero, Laid;
    LaidNumbers(block, tag, size, kind, sum);
    Small();
    ReadsNumber(block, 100, tag.mode, 8);
    ReadsNumber(block, 108, 0, 8);
    ReadsNumber(block, 116, 0, 8);
    ReadsNumber(block, 124, size, 12);
    ReadsNumber(block, 136, 0, 12);
    ReadsNumber(block, 148, sum, 8);
    ReadsEmpty(block, 329, 8);
    ReadsEmpty(block, 337, 8);
  }

  lemma BlockReadsBack(block: seq<byte>, tag: Tag, size: nat, kind: byte, sum: nat)
    requires LaidOut(block, tag, size, kind, sum) && Legible(tag)
    ensures HeaderOf(block, sum) == Ok(Header(kind, size)) && NamedPath(block) == Ok(Spelled(tag)) && !Zero(block)
  {
    LaidStrings(block, tag, size, kind, sum);
    NumbersReadBack(block, tag, size, kind, sum);
    hide At, Field, NumbersOf, ValidUtf8, NamedPath, LaidOut, Laid, Zero;
    NameReadsBack(block, tag);
    MagicReadsBack(block);
    ReadsEmpty(block, 157, 100);
    ReadsEmpty(block, 265, 32);
    ReadsEmpty(block, 297, 32);
  }

  /** A written header reads back as what was written, its path split over two fields or not. */
  lemma HeaderRoundTrip(tag: Tag, size: nat, kind: byte)
    requires Legible(tag) && size < Power8(11)
    ensures var block := HeaderBlock(tag, size, kind);
            && HeaderOf(block, Checksum(block, 0)) == Ok(Header(kind, size))
            && NamedPath(block) == Ok(Spelled(tag))
            && !Zero(block)
  {
    hide HeaderBlock, Checksum, HeaderOf, NamedPath, Zero, Laid, Power8, ValidUtf8;
    var sum := HeaderLaid(tag, size, kind);
    BlockReadsBack(HeaderBlock(tag, size, kind), tag, size, kind, sum);
  }
}
