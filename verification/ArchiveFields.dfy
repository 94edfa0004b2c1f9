/**
 * What the fields, records and paths of an archive mean, byte by byte, and that the reader's parsers
 * accept exactly that.
 */
module ArchiveFields {
  import opened Wrappers
  import opened Text
  import opened ArchivePaths
  import opened Ustar
  import opened UstarImage
  import opened Utf8Text
  import opened ArchiveRoundTrip

  ghost predicate Blank(bytes: seq<byte>) { forall i | 0 <= i < |bytes| :: bytes[i] == 0 }

  lemma BlankIsZero(bytes: seq<byte>)
    ensures Blank(bytes) <==> Zero(bytes)
  {
  }

  // ----- text fields

  /** The field is the text and then NULs. */
  ghost predicate Spells(field: seq<byte>, text: seq<byte>) {
    text <= field && Blank(field[|text|..]) && 0 !in text && IsText(text)
  }

  lemma {:induction false} UpToNulExact(field: seq<byte>)
    ensures var text := UpToNul(field); text <= field && 0 !in text && (|text| < |field| ==> field[|text|] == 0)
  {
    if field != [] && field[0] != 0 {
      UpToNulExact(field[1..]);
      assert field == [field[0]] + field[1..];
    }
  }

  lemma SpellsExactly(field: seq<byte>, text: seq<byte>)
    ensures FieldText(field) == Ok(text) <==> Spells(field, text)
  {
    hide ValidUtf8, IsText;
    UpToNulExact(field);
    ValidExactly(UpToNul(field));
    ValidExactly(text);
    if Spells(field, text) {
      UpToNulPadded(text, field[|text|..]);
      assert field == text + field[|text|..];
    }
  }

  /** An empty text field is all NULs. */
  lemma EmptyExactly(field: seq<byte>)
    ensures FieldText(field) == Ok([]) <==> Blank(field)
  {
    assert field[0..] == field;
    assert Utf8Of("") == [];
    SpellsExactly(field, []);
  }

  // ----- numbers

  ghost function Power(base: nat, n: nat): nat { if n == 0 then 1 else base * Power(base, n - 1) }

  /** Digits by place. */
  ghost function Numeral(digits: seq<byte>, base: nat): int {
    if digits == [] then 0 else (digits[0] as int - 48) * Power(base, |digits| - 1) + Numeral(digits[1..], base)
  }

  lemma {:induction false} NumeralAppends(digits: seq<byte>, d: byte, base: nat)
    ensures Numeral(digits + [d], base) == base * Numeral(digits, base) + (d as int - 48)
  {
    var all := digits + [d];
    if digits == [] {
      assert all[1..] == [];
      assert Numeral(all, base) == (d as int - 48) * 1 + 0;
    } else {
      NumeralAppends(digits[1..], d, base);
      assert all[1..] == digits[1..] + [d];
      Shifted(digits[0] as int - 48, base, Power(base, |digits| - 1), Numeral(digits[1..], base));
    }
  }

  lemma Shifted(lead: int, base: int, n: int, rest: int)
    ensures lead * (base * n) + base * rest == base * (lead * n + rest)
  {
  }

  lemma {:induction false} OctalIsNumeral(digits: seq<byte>)
    requires OctalDigits(digits)
    ensures OctalValue(digits) == Numeral(digits, 8)
  {
    if digits != [] {
      var rest, d := digits[..|digits| - 1], digits[|digits| - 1];
      OctalIsNumeral(rest);
      assert digits == rest + [d];
      NumeralAppends(rest, d, 8);
    }
  }

  lemma {:induction false} DecimalIsNumeral(digits: seq<byte>)
    requires DecimalDigits(digits)
    ensures DecimalValue(digits) == Numeral(digits, 10)
  {
    if digits != [] {
      var rest, d := digits[..|digits| - 1], digits[|digits| - 1];
      DecimalIsNumeral(rest);
      assert digits == rest + [d];
      NumeralAppends(rest, d, 10);
    }
  }

  /** Spaces, octal digits, NULs: `k` spaces, and digits up to `m`. */
  ghost predicate Figures(field: seq<byte>, k: nat, m: nat) {
    && k < m <= |field| && (forall i | 0 <= i < k :: field[i] == 32)
    && (forall i | k <= i < m :: 48 <= field[i] <= 55) && Blank(field[m..])
  }

  /** The field states the number. */
  ghost predicate States(field: seq<byte>, n: int) {
    exists k: nat, m: nat :: Figures(field, k, m) && Numeral(field[k..m], 8) == n <= 9_007_199_254_740_991
  }

  lemma {:induction false} SpacesSkipped(text: seq<byte>, k: nat)
    requires k < |text| && (forall i | 0 <= i < k :: text[i] == 32) && text[k] != 32
    ensures SkipSpaces(text) == text[k..]
  {
    if k > 0 {
      SpacesSkipped(text[1..], k - 1);
      assert text[1..][k - 1..] == text[k..];
    }
  }

  lemma {:induction false} SkippedSpaces(text: seq<byte>) returns (k: nat)
    ensures k <= |text| && SkipSpaces(text) == text[k..] && forall i | 0 <= i < k :: text[i] == 32
  {
    k := 0;
    if text != [] && text[0] == 32 {
      var n := SkippedSpaces(text[1..]);
      k := n + 1;
      assert text[1..][n..] == text[k..];
      forall i | 0 <= i < k ensures text[i] == 32 { if i > 0 { assert text[i] == text[1..][i - 1]; } }
    }
  }

  lemma FiguresText(field: seq<byte>, k: nat, m: nat)
    requires Figures(field, k, m)
    ensures FieldText(field) == Ok(field[..m]) && SkipSpaces(field[..m]) == field[k..m] && OctalDigits(field[k..m])
  {
    hide ValidUtf8, SkipSpaces, UpToNul;
    var text := field[..m];
    assert field == text + field[m..];
    UpToNulPadded(text, field[m..]);
    AsciiValid(text);
    SpacesSkipped(text, k);
    assert text[k..] == field[k..m];
  }

  lemma StatesExactly(field: seq<byte>, n: nat)
    ensures FieldText(field).Ok? && OctalText(FieldText(field).value) == Ok(n) <==> States(field, n)
  {
    hide ValidUtf8, OctalValue, Numeral, UpToNul, SkipSpaces;
    if FieldText(field).Ok? && OctalText(FieldText(field).value) == Ok(n) {
      var text := FieldText(field).value;
      UpToNulExact(field);
      var k := SkippedSpaces(text);
      var m := |text|;
      var digits := text[k..];
      assert digits == field[k..m];
      OctalIsNumeral(digits);
      assert forall i | k <= i < m :: field[i] == digits[i - k];
      assert Figures(field, k, m);
    }
    if States(field, n) {
      var k: nat, m: nat :| Figures(field, k, m) && Numeral(field[k..m], 8) == n <= 9_007_199_254_740_991;
      FiguresText(field, k, m);
      OctalIsNumeral(field[k..m]);
    }
  }

  // ----- headers

  ghost function ByteSum(bytes: seq<byte>): int {
    if bytes == [] then 0 else bytes[0] + ByteSum(bytes[1..])
  }

  lemma {:induction false} SumIsByteSum(bytes: seq<byte>)
    ensures Sum(bytes) == ByteSum(bytes)
  {
    if bytes != [] {
      SumIsByteSum(bytes[1..]);
    }
  }

  ghost predicate Numbered(field: seq<byte>) { exists n: nat :: States(field, n) }

  /**
   * A header block for `size` bytes of kind `kind`: magic and version in place, no link and no owner,
   * numbers where numbers belong, its own byte sum stated with the sum's field taken as spaces, and no
   * mode bits but permissions.
   */
  ghost predicate HeaderSays(block: seq<byte>, kind: byte, size: nat) {
    && |block| == 512
    && block[257..263] == [117, 115, 116, 97, 114, 0] && block[263..265] == [48, 48]
    && Blank(block[157..257]) && Blank(block[265..297]) && Blank(block[297..329])
    && Numbered(block[108..116]) && Numbered(block[116..124]) && Numbered(block[136..148])
    && (Blank(block[329..337]) || Numbered(block[329..337])) && (Blank(block[337..345]) || Numbered(block[337..345]))
    && Blank(block[500..512])
    && States(block[148..156], ByteSum(block[..148]) + 8 * 32 + ByteSum(block[156..]))
    && States(block[124..136], size)
    && (exists mode: nat :: mode <= 511 && States(block[100..108], mode))
    && block[156] == kind
  }

  lemma OctalExactly(block: seq<byte>, at: nat, length: nat, n: nat)
    requires at + length <= |block|
    ensures Octal(block, at, length) == Ok(n) <==> States(block[at..at + length], n)
  {
    hide FieldText, OctalText, States;
    StatesExactly(block[at..at + length], n);
  }

  lemma NumberedExactly(block: seq<byte>, at: nat, length: nat)
    requires at + length <= |block|
    ensures Octal(block, at, length).Ok? <==> Numbered(block[at..at + length])
    ensures Octal(block, at, length, true).Ok? <==> Blank(block[at..at + length]) || Numbered(block[at..at + length])
  {
    hide FieldText, OctalText, States, Blank;
    var field := block[at..at + length];
    if Octal(block, at, length).Ok? { OctalExactly(block, at, length, Octal(block, at, length).value); }
    if Numbered(field) {
      var n: nat :| States(field, n);
      OctalExactly(block, at, length, n);
    }
    EmptyExactly(field);
  }

  lemma FieldExactly(block: seq<byte>, at: nat, length: nat, text: seq<byte>)
    requires at + length <= |block|
    ensures Field(block, at, length) == Ok(text) <==> Spells(block[at..at + length], text)
  {
    hide FieldText, Spells;
    SpellsExactly(block[at..at + length], text);
  }

  lemma BlankField(block: seq<byte>, at: nat, length: nat)
    requires at + length <= |block|
    ensures Field(block, at, length) == Ok([]) <==> Blank(block[at..at + length])
  {
    hide FieldText, Blank;
    EmptyExactly(block[at..at + length]);
  }

  lemma MagicExactly(block: seq<byte>)
    requires |block| == BLOCK
    ensures Field(block, 257, 6) == Ok(USTAR) <==> block[257..263] == [117, 115, 116, 97, 114, 0]
    ensures Field(block, 263, 2) == Ok(VERSION) <==> block[263..265] == [48, 48]
  {
    hide Field, FieldText, IsText;
    FieldExactly(block, 257, 6, USTAR);
    FieldExactly(block, 263, 2, VERSION);
    AsciiText(USTAR);
    AsciiText(VERSION);
    var magic, version := block[257..263], block[263..265];
    if magic == [117, 115, 116, 97, 114, 0] {
      assert magic[..5] == USTAR && magic[5..] == [0];
    }
    if Spells(magic, USTAR) {
      assert magic == magic[..5] + [magic[5..][0]];
    }
    assert version[2..] == [];
  }

  lemma AsciiText(text: seq<byte>)
    requires forall i | 0 <= i < |text| :: text[i] < 128
    ensures IsText(text)
  {
    AsciiValid(text);
    ValidExactly(text);
  }

  lemma ChecksumExactly(block: seq<byte>)
    requires |block| == BLOCK
    ensures Checksum(block, 0) == ByteSum(block[..148]) + 8 * 32 + ByteSum(block[156..])
  {
    ChecksumHead(block, 0);
    assert block[0..148] == block[..148];
    SumIsByteSum(block[..148]);
    SumIsByteSum(block[156..]);
  }

  lemma {:induction false} ByteSumPositive(bytes: seq<byte>)
    ensures ByteSum(bytes) >= 0
  {
    if bytes != [] {
      ByteSumPositive(bytes[1..]);
    }
  }

  /** The numbers of a header, and the zeros after them. */
  ghost predicate NumbersSay(block: seq<byte>, sum: int, size: nat)
    requires |block| == 512
  {
    && Numbered(block[108..116]) && Numbered(block[116..124]) && Numbered(block[136..148])
    && (Blank(block[329..337]) || Numbered(block[329..337])) && (Blank(block[337..345]) || Numbered(block[337..345]))
    && Blank(block[500..512]) && States(block[148..156], sum) && States(block[124..136], size)
    && (exists mode: nat :: mode <= 511 && States(block[100..108], mode))
  }

  lemma ModeExactly(block: seq<byte>)
    requires |block| == BLOCK
    ensures Octal(block, 100, 8).Ok? && Octal(block, 100, 8).value <= 511 <==> exists mode: nat :: mode <= 511 && States(block[100..108], mode)
  {
    hide Octal, States;
    if Octal(block, 100, 8).Ok? { OctalExactly(block, 100, 8, Octal(block, 100, 8).value); }
    if mode: nat :| mode <= 511 && States(block[100..108], mode) { OctalExactly(block, 100, 8, mode); }
  }

  lemma NumbersExactly(block: seq<byte>, sum: nat, kind: byte, size: nat)
    requires |block| == BLOCK
    ensures NumbersOf(block, sum) == Ok(Header(kind, size)) <==> NumbersSay(block, sum, size) && block[156] == kind
  {
    hide Octal, States, Blank, Numbered;
    NumberedExactly(block, 108, 8);
    NumberedExactly(block, 116, 8);
    NumberedExactly(block, 136, 12);
    NumberedExactly(block, 329, 8);
    NumberedExactly(block, 337, 8);
    OctalExactly(block, 148, 8, sum);
    OctalExactly(block, 124, 12, size);
    ModeExactly(block);
    assert block[500..] == block[500..512];
    BlankIsZero(block[500..]);
  }

  /** A block passes the reader's header checks exactly when it is such a header. */
  lemma HeaderExactly(block: seq<byte>, kind: byte, size: nat)
    requires |block| == BLOCK
    ensures HeaderOf(block, Checksum(block, 0)) == Ok(Header(kind, size)) <==> HeaderSays(block, kind, size)
  {
    hide Field, Checksum, ByteSum, NumbersOf, States, Blank, Numbered;
    MagicExactly(block);
    BlankField(block, 157, 100);
    BlankField(block, 265, 32);
    BlankField(block, 297, 32);
    ChecksumExactly(block);
    ByteSumPositive(block[..148]);
    ByteSumPositive(block[156..]);
    NumbersExactly(block, Checksum(block, 0), kind, size);
  }

  // ----- names and records

  /** The path a header's name and prefix spell. */
  ghost predicate Names(block: seq<byte>, path: Path)
    requires |block| == 512
  {
    exists name, prefix :: && Spells(block[0..100], name) && Spells(block[345..500], prefix)
                           && path == if prefix == [] then name else prefix + [47] + name
  }

  lemma NamesExactly(block: seq<byte>, path: Path)
    requires |block| == BLOCK
    ensures NamedPath(block) == Ok(path) <==> Names(block, path)
  {
    hide Field, Spells;
    if NamedPath(block) == Ok(path) {
      var name, prefix := Field(block, 0, 100).value, Field(block, 345, 155).value;
      FieldExactly(block, 0, 100, name);
      FieldExactly(block, 345, 155, prefix);
    }
    if Names(block, path) {
      var name, prefix :| && Spells(block[0..100], name) && Spells(block[345..500], prefix)
                          && path == if prefix == [] then name else prefix + [47] + name;
      FieldExactly(block, 0, 100, name);
      FieldExactly(block, 345, 155, prefix);
    }
  }

  /** `digits`, ` path=`, the path and a newline, the digits stating the whole length without a leading zero. */
  ghost predicate RecordSays(payload: seq<byte>, digits: seq<byte>, path: Path) {
    && payload == digits + [32, 112, 97, 116, 104, 61] + path + [10] && |payload| <= 1024
    && digits != [] && digits[0] != 48 && (forall i | 0 <= i < |digits| :: 48 <= digits[i] <= 57)
    && Numeral(digits, 10) == |payload|
    && path != [] && 10 !in path && 0 !in path && IsText(path)
  }

  ghost predicate Record(payload: seq<byte>, path: Path) { exists digits :: RecordSays(payload, digits, path) }

  lemma RecordText(digits: seq<byte>, path: Path)
    requires forall i | 0 <= i < |digits| :: 48 <= digits[i] <= 57
    ensures ValidUtf8(digits + PATH_TAG + path + [NEWLINE]) <==> ValidUtf8(path)
  {
    hide ValidUtf8;
    var head := digits + PATH_TAG[..5];
    assert digits + PATH_TAG + path + [NEWLINE] == head + [61] + (path + [NEWLINE]);
    if ValidUtf8(path) {
      AsciiValid(digits + PATH_TAG);
      AsciiValid([NEWLINE]);
      Utf8Joined(digits + PATH_TAG, path);
      Utf8Joined(digits + PATH_TAG + path, [NEWLINE]);
    }
    if ValidUtf8(digits + PATH_TAG + path + [NEWLINE]) {
      Utf8Cut(head, 61, path + [NEWLINE]);
      assert path + [NEWLINE] == path + [NEWLINE] + [];
      Utf8Cut(path, NEWLINE, []);
    }
  }

  lemma ReadRecord(payload: seq<byte>, path: Path)
    requires PaxPath(payload) == Ok(path)
    ensures RecordSays(payload, payload[..DigitCount(payload)], path)
  {
    hide ValidUtf8, IsText, DigitCount, DecimalValue, Numeral;
    var n := DigitCount(payload);
    var digits, rest := payload[..n], payload[n..];
    assert rest == rest[..6] + rest[6..|rest| - 1] + [rest[|rest| - 1]];
    assert payload == digits + rest;
    assert payload == digits + PATH_TAG + path + [NEWLINE];
    DecimalIsNumeral(digits);
    RecordText(digits, path);
    ValidExactly(path);
    assert forall i | 0 <= i < |path| :: path[i] == payload[n + 6 + i];
    assert 0 !in path && NEWLINE !in path;
  }

  lemma RecordRead(payload: seq<byte>, digits: seq<byte>, path: Path)
    requires RecordSays(payload, digits, path)
    ensures PaxPath(payload) == Ok(path)
  {
    hide ValidUtf8, IsText, DigitCount, DecimalValue, Numeral;
    var rest := PATH_TAG + path + [NEWLINE];
    assert payload == digits + rest;
    DigitsThen(digits, rest);
    assert payload[..|digits|] == digits && payload[|digits|..] == rest;
    assert rest[..6] == PATH_TAG && rest[6..|rest| - 1] == path;
    DecimalIsNumeral(digits);
    RecordText(digits, path);
    ValidExactly(path);
    NoNul(digits, path);
  }

  lemma NoNul(digits: seq<byte>, path: Path)
    requires 0 !in path && forall i | 0 <= i < |digits| :: 48 <= digits[i] <= 57
    ensures 0 !in digits + PATH_TAG + path + [NEWLINE]
  {
  }

  /** A payload is read as a path exactly when it is such a record of it. */
  lemma RecordExactly(payload: seq<byte>, path: Path)
    ensures PaxPath(payload) == Ok(path) <==> Record(payload, path)
  {
    hide PaxPath, RecordSays;
    if PaxPath(payload) == Ok(path) { ReadRecord(payload, path); }
    if digits :| RecordSays(payload, digits, path) { RecordRead(payload, digits, path); }
  }

  // ----- paths

  /** A maximal stretch without a slash. */
  ghost predicate Segment(path: Path, i: nat, j: nat) {
    && i <= j <= |path| && (i == 0 || path[i - 1] == 47) && (j == |path| || path[j] == 47)
    && forall k | i <= k < j :: path[k] != 47
  }

  /** Nothing but names, with no control byte, no backslash and no drive letter. */
  ghost predicate Tame(path: Path) {
    && path != [] && path[0] != 47
    && (forall i | 0 <= i < |path| :: path[i] >= 32 && path[i] != 127 && path[i] != 92)
    && !(|path| >= 2 && path[1] == 58 && (65 <= path[0] <= 90 || 97 <= path[0] <= 122))
    && forall i: nat, j: nat | Segment(path, i, j) :: path[i..j] != [] && path[i..j] != [46] && path[i..j] != [46, 46]
  }

  lemma {:induction false} FirstSlash(path: Path) returns (n: nat)
    ensures n <= |path| && (n < |path| ==> path[n] == 47) && forall k | 0 <= k < n :: path[k] != 47
  {
    n := 0;
    if path != [] && path[0] != 47 {
      var m := FirstSlash(path[1..]);
      n := m + 1;
      forall k | 0 <= k < n ensures path[k] != 47 { if k > 0 { assert path[k] == path[1..][k - 1]; } }
    }
  }

  /** Splitting takes off the first stretch. */
  lemma SplitFirst(path: Path, n: nat)
    requires n <= |path| && (n < |path| ==> path[n] == 47) && forall k | 0 <= k < n :: path[k] != 47
    ensures n == |path| ==> Split(path, SLASH) == [path]
    ensures n < |path| ==> Split(path, SLASH) == [path[..n]] + Split(path[n + 1..], SLASH)
  {
    hide Split;
    if n == |path| {
      SplitNone(path, SLASH);
    } else {
      assert path == path[..n] + [SLASH] + path[n + 1..];
      SplitHead(path[..n], path[n + 1..], SLASH);
    }
  }

  lemma StretchAfter(path: Path, n: nat, i: nat, j: nat)
    requires n < |path| && path[n] == 47
    ensures Segment(path[n + 1..], i, j) ==> Segment(path, n + 1 + i, n + 1 + j) && path[n + 1..][i..j] == path[n + 1 + i..n + 1 + j]
    ensures Segment(path, n + 1 + i, n + 1 + j) ==> Segment(path[n + 1..], i, j) && path[n + 1..][i..j] == path[n + 1 + i..n + 1 + j]
  {
    var rest := path[n + 1..];
    assert forall k | 0 <= k < |rest| :: rest[k] == path[n + 1 + k];
  }

  /** The parts of a split path are its stretches. */
  lemma {:induction false} PartsAreStretches(path: Path, part: Path)
    ensures part in Split(path, SLASH) <==> exists i: nat, j: nat :: Segment(path, i, j) && path[i..j] == part
    decreases |path|
  {
    hide Split;
    var n := FirstSlash(path);
    SplitFirst(path, n);
    assert Segment(path, 0, n) && path[0..n] == path[..n];
    if n == |path| {
      assert path[..n] == path;
      forall i: nat, j: nat | Segment(path, i, j) ensures i == 0 && j == n { }
    } else {
      var rest := path[n + 1..];
      PartsAreStretches(rest, part);
      if part in Split(rest, SLASH) {
        var i: nat, j: nat :| Segment(rest, i, j) && rest[i..j] == part;
        StretchAfter(path, n, i, j);
      }
      forall i: nat, j: nat | Segment(path, i, j) && path[i..j] == part ensures part == path[..n] || part in Split(rest, SLASH) {
        if i > n {
          StretchAfter(path, n, i - n - 1, j - n - 1);
        }
      }
    }
  }

  /** The reader's rule for a path is that it is tame. */
  lemma PortableExactly(path: Path)
    ensures Portable(path) <==> Tame(path)
  {
    hide Split;
    var parts := Split(path, SLASH);
    if Portable(path) {
      forall i: nat, j: nat | Segment(path, i, j) ensures path[i..j] != [] && path[i..j] != [46] && path[i..j] != [46, 46] {
        PartsAreStretches(path, path[i..j]);
        var k :| 0 <= k < |parts| && parts[k] == path[i..j];
      }
    }
    if Tame(path) {
      forall k | 0 <= k < |parts| ensures PlainPart(parts[k]) {
        PartsAreStretches(path, parts[k]);
        assert parts[k] in parts;
      }
    }
  }

  // ----- following a path

  /** Where a walk along segments stands: how far above the start, and the names below that. */
  datatype Place = Place(up: nat, down: seq<Path>)

  ghost function Step(at: Place, segment: Path): Place {
    if segment == [] || segment == [46] then at
    else if segment == [46, 46] then (if at.down == [] then at.(up := at.up + 1) else at.(down := at.down[..|at.down| - 1]))
    else at.(down := at.down + [segment])
  }

  ghost function Follow(segments: seq<Path>): Place {
    if segments == [] then Place(0, []) else Step(Follow(segments[..|segments| - 1]), segments[|segments| - 1])
  }

  lemma {:induction false} PlainFollows(segments: seq<Path>)
    requires forall i | 0 <= i < |segments| :: segments[i] != [] && segments[i] != [46] && segments[i] != [46, 46]
    ensures Follow(segments) == Place(0, segments)
  {
    if segments != [] {
      PlainFollows(segments[..|segments| - 1]);
      assert segments == segments[..|segments| - 1] + [segments[|segments| - 1]];
    }
  }

  /** A tame path leads down by every one of its segments, and never up. */
  lemma TameNeverClimbs(path: Path)
    requires Tame(path)
    ensures Follow(Split(path, SLASH)) == Place(0, Split(path, SLASH))
  {
    hide Split, Segment;
    var parts := Split(path, SLASH);
    forall k | 0 <= k < |parts| ensures parts[k] != [] && parts[k] != [46] && parts[k] != [46, 46] {
      PartsAreStretches(path, parts[k]);
      assert parts[k] in parts;
    }
    PlainFollows(parts);
  }
}
