/**
 * The CLI's upload of a committed tree: each path in the header's name, split over name and prefix,
 * or in a PAX record when neither holds it. Paths are UTF-8 bytes.
 */
module CliArchive {
  import opened Wrappers
  import opened Text
  import opened ArchivePaths
  import opened Ustar
  import opened ArchiveSpec
  import opened ArchiveWalk
  import opened UstarImage
  import opened ArchiveRoundTrip
  import ArchiveCuts
  import Sorting

  /** A blob of the tree. */
  datatype Committed = Committed(path: Path, content: seq<byte>, executable: bool)

  function ModeOf(f: Committed): nat { if f.executable then 493 else 420 }

  // ----- name and prefix

  predicate CutFits(path: Path, slash: nat) {
    slash < |path| && path[slash] == SLASH && slash <= 155 && |path| - slash - 1 <= 100
  }

  /** Some header can hold the path without a PAX record. */
  ghost predicate Native(path: Path) { |path| <= 100 || exists slash :: CutFits(path, slash) }

  /** The last slash before `end`, or -1. */
  function LastSlash(path: Path, end: nat): (k: int)
    requires end <= |path|
    ensures -1 <= k < end && (k >= 0 ==> path[k] == SLASH)
    ensures forall i | k < i < end :: path[i] != SLASH
  {
    if end == 0 then -1 else if path[end - 1] == SLASH then end - 1 else LastSlash(path, end - 1)
  }

  /** Name and prefix fields that spell the path, at the last slash that leaves both short enough. */
  method PathFields(path: Path, mode: nat) returns (r: Option<Tag>)
    requires Portable(path) && mode <= 511
    ensures r.Some? <==> Native(path)
    ensures r.Some? ==> Fits(r.value) && Spelled(r.value) == path && r.value.mode == mode
    ensures r.Some? && r.value.prefix != [] ==> CutFits(path, |r.value.prefix|) && forall k | |r.value.prefix| < k :: !CutFits(path, k)
  {
    hide Portable;
    assert path[0] != SLASH by { FirstPlain(path); }
    if |path| <= 100 {
      return Some(Tag(path, [], mode));
    }
    var slash := LastSlash(path, |path|);
    while slash >= 0
      invariant -1 <= slash < |path| && (slash >= 0 ==> path[slash] == SLASH)
      invariant forall k | slash < k :: !CutFits(path, k)
      decreases slash + 1
    {
      if slash <= 155 && |path| - slash - 1 <= 100 {
        assert path == path[..slash] + [SLASH] + path[slash + 1..];
        assert CutFits(path, slash);
        return Some(Tag(path[slash + 1..], path[..slash], mode));
      }
      slash := LastSlash(path, slash);
    }
    r := None;
  }

  lemma FirstPlain(path: Path)
    requires Portable(path)
    ensures path != [] && path[0] != SLASH
  {
  }

  /** Fields that spell a legible path are legible. */
  lemma TagLegible(path: Path, tag: Tag)
    requires Portable(path) && ValidUtf8(path) && Fits(tag) && Spelled(tag) == path
    ensures Legible(tag)
  {
    hide ValidUtf8, Split;
    assert forall i | 0 <= i < |path| :: path[i] != 0;
    AsciiValid([]);
    if tag.prefix != [] {
      Utf8Cut(tag.prefix, SLASH, tag.name);
      assert forall i | 0 <= i < |tag.prefix| :: tag.prefix[i] == path[i];
      assert forall i | 0 <= i < |tag.name| :: tag.name[i] == path[|tag.prefix| + 1 + i];
    }
  }

  // ----- the PAX record

  lemma {:induction false} DecimalGrows(a: nat, b: nat)
    requires a <= b
    ensures |Decimal(a)| <= |Decimal(b)|
  {
    if a >= 10 {
      DecimalGrows(a / 10, b / 10);
    }
  }

  lemma {:induction false} DecimalShort(n: nat)
    ensures |Decimal(n)| <= n / 10 + 1
  {
    if n >= 10 {
      DecimalShort(n / 10);
    }
  }

  /** No shorter record counts itself. */
  lemma LeastLength(path: Path, length: nat)
    requires length == |path| + 7 + |Decimal(length)|
    ensures length <= PAX_MAX ==> PaxLength(path) <= length
  {
    if length <= PAX_MAX {
      DecimalCount(length);
    }
  }

  /** The record is grown until the length it states is its own. */
  method PaxPathRecord(path: Path) returns (r: Option<seq<byte>>)
    requires path != []
    ensures r == if PaxLength(path) <= PAX_MAX then Some(PaxRecord(path)) else None
  {
    hide Decimal, PaxLength;
    var value := PATH_TAG[1..] + path + [NEWLINE];
    var length := |value| + 2;
    var record := Decimal(length) + [32] + value;
    PaxLengthFrom(path);
    if PaxLength(path) <= PAX_MAX {
      RecordCountsItself(path);
    }
    while |record| != length
      invariant record == Decimal(length) + [32] + value
      invariant |path| + 8 <= length <= 2 * |path| + 16 && length <= |record|
      invariant PaxLength(path) <= PAX_MAX ==> length <= PaxLength(path)
      decreases 2 * |path| + 16 - length
    {
      if PaxLength(path) <= PAX_MAX {
        DecimalGrows(length, PaxLength(path));
      }
      DecimalGrows(length, |record|);
      DecimalShort(length);
      length := |record|;
      record := Decimal(length) + [32] + value;
    }
    LeastLength(path, length);
    if length > PAX_MAX {
      return None;
    }
    assert record == PaxRecord(path);
    r := Some(record);
  }

  lemma PaxLengthFrom(path: Path)
    ensures PaxLength(path) >= |path| + 8
  {
  }

  // ----- the entries of an upload

  const PAX_HEADERS: seq<byte> := [80, 97, 120, 72, 101, 97, 100, 101, 114, 115]
  const PAX_FILES: seq<byte> := [80, 97, 120, 70, 105, 108, 101, 115]

  /** The entry's number in at least six digits. */
  function Marker(index: nat): (m: seq<byte>)
    ensures m != [] && DecimalDigits(m) && |m| == if |Decimal(index)| < 6 then 6 else |Decimal(index)|
  {
    var digits := Decimal(index);
    seq(if |digits| < 6 then 6 - |digits| else 0, _ => 48) + digits
  }

  /** A stand-in name for an entry whose own path is in its PAX record. */
  function StandIn(directory: seq<byte>, index: nat, mode: nat): Tag { Tag(directory + [SLASH] + Marker(index), [], mode) }

  ghost predicate Letters(text: seq<byte>) { forall i | 0 <= i < |text| :: IsLetter(text[i]) }

  lemma StandInPlain(directory: seq<byte>, m: seq<byte>)
    requires Letters(directory) && 2 <= |directory| <= 10 && DecimalDigits(m) && |m| == 6
    ensures var name := directory + [SLASH] + m;
            && |name| <= 17 && Checked(name) == name
            && forall i | 0 <= i < |name| :: IsLetter(name[i]) || 47 <= name[i] <= 57
  {
  }

  lemma StandInParts(directory: seq<byte>, m: seq<byte>)
    requires Letters(directory) && 2 <= |directory| <= 10 && DecimalDigits(m) && |m| == 6
    ensures Split(directory + [SLASH] + m, SLASH) == [directory, m]
  {
    hide Split;
    SplitHead(directory, m, SLASH);
    SplitNone(m, SLASH);
  }

  lemma StandInPortable(directory: seq<byte>, m: seq<byte>)
    requires Letters(directory) && 2 <= |directory| <= 10 && DecimalDigits(m) && |m| == 6
    ensures Portable(directory + [SLASH] + m)
  {
    StandInPlain(directory, m);
    StandInParts(directory, m);
    assert PlainPart(directory) && PlainPart(m);
    hide Split, Letters, DecimalDigits;
    var name := directory + [SLASH] + m;
    assert IsLetter(name[0]) && name[1] != 58;
  }

  lemma StandInText(name: seq<byte>)
    requires forall i | 0 <= i < |name| :: IsLetter(name[i]) || 47 <= name[i] <= 57
    ensures ValidUtf8(name) && 0 !in name
  {
    AsciiValid(name);
  }

  lemma StandInLegible(directory: seq<byte>, index: nat, mode: nat)
    requires Letters(directory) && 2 <= |directory| <= 10 && index < REVIEW_ENTRY_MAX && mode <= 511
    ensures var tag := StandIn(directory, index, mode); Legible(tag) && Portable(Checked(Spelled(tag)))
  {
    var m := Marker(index);
    DecimalGrows(index, 9999);
    FourDigits();
    hide Decimal, ValidUtf8, Split, Marker, DecimalDigits, Letters, Portable;
    StandInPlain(directory, m);
    StandInPortable(directory, m);
    StandInText(directory + [SLASH] + m);
    StandInText([]);
  }

  lemma FourDigits()
    ensures |Decimal(9999)| == 4
  {
    assert |Decimal(99)| == 2;
  }

  /** What is written for one file, native or under a stand-in with a PAX record. */
  ghost predicate WrittenAs(f: Committed, e: Entry) {
    && e.path == f.path && e.content == f.content && !e.directory && e.tag.mode == ModeOf(f)
    && (e.pax.None? <==> Native(f.path))
  }

  ghost predicate Written(files: seq<Committed>, es: seq<Entry>) {
    |es| == |files| && forall i | 0 <= i < |files| :: WrittenAs(files[i], es[i])
  }

  function Rounded(n: nat): (r: nat)
    ensures r == n + Pad(n)
  {
    (n + BLOCK - 1) / BLOCK * BLOCK
  }

  ghost function SizeOf(f: Committed): nat {
    BLOCK + Rounded(|f.content|) + if Native(f.path) then 0 else BLOCK + Rounded(PaxLength(f.path))
  }

  ghost function SizeOfAll(files: seq<Committed>): nat {
    if files == [] then 2 * BLOCK else SizeOfAll(files[..|files| - 1]) + SizeOf(files[|files| - 1])
  }

  ghost predicate Distinct(fold: Path -> Path, files: seq<Committed>) {
    forall i, j | 0 <= i < j < |files| :: fold(files[i].path) != fold(files[j].path)
  }

  ghost predicate Named(f: Committed) { ValidUtf8(f.path) && Portable(f.path) }

  ghost predicate Storable(f: Committed) { |f.content| <= REVIEW_FILE_MAX_BYTES && (Native(f.path) || PaxLength(f.path) <= PAX_MAX) }

  /** The trees the CLI uploads. */
  ghost predicate Uploadable(fold: Path -> Path, files: seq<Committed>) {
    && 1 <= |files| <= REVIEW_ENTRY_MAX && Distinct(fold, files)
    && (forall i | 0 <= i < |files| :: Named(files[i]) && Storable(files[i]))
    && SizeOfAll(files) <= REVIEW_TREE_MAX_BYTES
  }

  ghost function Bits(e: Entry): seq<byte>
    requires Writable(e)
  {
    Sized(e); EntryImage(e)
  }

  /** The bytes of the entries, without the end blocks. */
  ghost function Body(es: seq<Entry>): seq<byte>
    requires AllWritable(es)
  {
    if es == [] then []
    else Body(es[..|es| - 1]) + Bits(es[|es| - 1])
  }

  lemma {:induction false} BodyFront(es: seq<Entry>)
    requires AllWritable(es) && es != []
    ensures Body(es) == Bits(es[0]) + Body(es[1..])
    decreases |es|
  {
    hide Writable, Bits;
    var n := |es| - 1;
    if n == 0 {
      assert es[..0] == [] && es[1..] == [];
    } else {
      assert es[1..][..n - 1] == es[..n][1..];
      BodyFront(es[..n]);
    }
  }

  lemma {:induction false} BodyIsImage(es: seq<Entry>)
    requires AllWritable(es)
    ensures Body(es) + Zeros(2 * BLOCK) == Image(es)
  {
    hide Writable, EntryImage;
    if es != [] {
      BodyFront(es);
      BodyIsImage(es[1..]);
    }
  }

  lemma NothingWritten(files: seq<Committed>)
    ensures AllWritable([]) && Written(files[..0], []) && Body([]) == [] && SizeOfAll(files[..0]) == 2 * BLOCK
  {
  }

  lemma Appended(files: seq<Committed>, i: nat, es: seq<Entry>, e: Entry)
    requires i < |files| && AllWritable(es) && Written(files[..i], es) && Writable(e) && WrittenAs(files[i], e)
    ensures AllWritable(es + [e]) && Written(files[..i + 1], es + [e]) && Body(es + [e]) == Body(es) + Bits(e)
    ensures SizeOfAll(files[..i + 1]) == SizeOfAll(files[..i]) + SizeOf(files[i])
  {
    hide Writable, WrittenAs, Bits, SizeOf;
    assert (es + [e])[..|es|] == es && files[..i + 1][..i] == files[..i];
  }

  lemma {:induction false} SizesGrow(files: seq<Committed>, n: nat)
    requires n <= |files|
    ensures SizeOfAll(files[..n]) <= SizeOfAll(files)
    decreases |files|
  {
    hide SizeOf;
    if n == |files| {
      assert files[..n] == files;
    } else {
      SizesGrow(files[..|files| - 1], n);
      assert files[..|files| - 1][..n] == files[..n];
    }
  }

  /** The two checks made of every path before anything is written. */
  method CheckPaths(fold: Path -> Path, files: seq<Committed>) returns (ok: bool)
    ensures ok <==> Distinct(fold, files) && forall i | 0 <= i < |files| :: Named(files[i])
  {
    hide Named;
    var seen: set<Path> := {};
    for i := 0 to |files|
      invariant Distinct(fold, files[..i]) && forall k | 0 <= k < i :: Named(files[k])
      invariant forall p :: p in seen <==> exists k :: 0 <= k < i && fold(files[k].path) == p
    {
      if !IsNamed(files[i]) {
        return false;
      }
      var folded := fold(files[i].path);
      if folded in seen {
        return false;
      }
      seen := seen + {folded};
    }
    assert files[..|files|] == files;
    ok := true;
  }

  predicate IsNamed(f: Committed)
    ensures IsNamed(f) <==> Named(f)
  {
    ValidUtf8(f.path) && Portable(f.path)
  }

  /** One file's headers and bytes. */
  method WriteEntry(index: nat, f: Committed) returns (r: Option<seq<byte>>, grown: nat, ghost e: Entry)
    requires Named(f) && index < REVIEW_ENTRY_MAX
    ensures r.Some? <==> Storable(f)
    ensures r.Some? ==> Writable(e) && WrittenAs(f, e) && r.value == Bits(e) && |r.value| == SizeOf(f) == grown
  {
    hide Portable, ValidUtf8, PaxRecord, PaxLength, HeaderBlock, Marker, Power8, Spelled, Rounded;
    Small();
    NamedUnslashed(f);
    grown := BLOCK + Rounded(|f.content|);
    if |f.content| > REVIEW_FILE_MAX_BYTES {
      return None, grown, *;
    }
    var native := PathFields(f.path, ModeOf(f));
    if native.Some? {
      TagLegible(f.path, native.value);
      e := Entry(f.path, f.content, false, native.value, None);
      return Some(HeaderBlock(native.value, |f.content|, KIND_FILE) + f.content + Zeros(Pad(|f.content|))), grown, e;
    }
    FirstPlain(f.path);
    var record := PaxPathRecord(f.path);
    if record.None? {
      return None, grown, *;
    }
    StandInLegible(PAX_HEADERS, index, 420);
    StandInLegible(PAX_FILES, index, ModeOf(f));
    e := Entry(f.path, f.content, false, StandIn(PAX_FILES, index, ModeOf(f)), Some(StandIn(PAX_HEADERS, index, 420)));
    Sized(e);
    var pax := HeaderBlock(StandIn(PAX_HEADERS, index, 420), |record.value|, KIND_PAX) + record.value + Zeros(Pad(|record.value|));
    grown := grown + BLOCK + Rounded(|record.value|);
    r := Some(pax + HeaderBlock(StandIn(PAX_FILES, index, ModeOf(f)), |f.content|, KIND_FILE) + f.content + Zeros(Pad(|f.content|)));
  }

  const MAX_COMPRESSED := 32 * 1024 * 1024

  /** The committed files as they are written: by path, in the order of the runtime's strings. */
  function Ordered(decode: Path -> string, files: seq<Committed>): seq<Committed> {
    Sorting.Sort((a: Committed, b: Committed) => Sorting.NotAfter(decode(a.path), decode(b.path)), files)
  }

  /** The upload, or none where the CLI refuses the tree: what is compressed is the image of the ordered files. */
  method ReviewArchive(fold: Path -> Path, decode: Path -> string, gzip: seq<byte> -> seq<byte>, tree: seq<Committed>)
    returns (r: Option<seq<byte>>, ghost es: seq<Entry>)
    ensures !Uploadable(fold, Ordered(decode, tree)) ==> r.None?
    ensures Uploadable(fold, Ordered(decode, tree)) ==>
              && AllWritable(es) && Written(Ordered(decode, tree), es) && |Image(es)| == SizeOfAll(Ordered(decode, tree))
              && r == if |gzip(Image(es))| > MAX_COMPRESSED then None else Some(gzip(Image(es)))
  {
    hide Uploadable, AllWritable, Written, Image;
    var bytes;
    bytes, es := Blocks(fold, Ordered(decode, tree));
    if bytes.None? {
      return None, es;
    }
    var compressed := gzip(bytes.value);
    r := if |compressed| > MAX_COMPRESSED then None else Some(compressed);
  }

  /** The blocks of an upload, up to compression. */
  method Blocks(fold: Path -> Path, files: seq<Committed>) returns (r: Option<seq<byte>>, ghost es: seq<Entry>)
    ensures r.Some? <==> Uploadable(fold, files)
    ensures r.Some? ==> |r.value| == SizeOfAll(files) && AllWritable(es) && Written(files, es) && r.value == Image(es)
  {
    hide Named, Storable, SizeOf, SizeOfAll, AllWritable, Written, Writable, WrittenAs, Bits, Body, Image, Distinct;
    es := [];
    if files == [] || |files| > REVIEW_ENTRY_MAX {
      return None, es;
    }
    var named := CheckPaths(fold, files);
    if !named {
      return None, es;
    }
    var blocks: seq<byte> := [];
    var expanded := 2 * BLOCK;
    NothingWritten(files);
    for i := 0 to |files|
      invariant expanded == SizeOfAll(files[..i]) == |blocks| + 2 * BLOCK && expanded <= REVIEW_TREE_MAX_BYTES
      invariant AllWritable(es) && Written(files[..i], es) && blocks == Body(es)
      invariant forall k | 0 <= k < i :: Storable(files[k])
    {
      SizesGrow(files, i + 1);
      ghost var e;
      var written, grown;
      written, grown, e := WriteEntry(i, files[i]);
      if written.None? {
        return None, es;
      }
      Appended(files, i, es, e);
      expanded := expanded + grown;
      if expanded > REVIEW_TREE_MAX_BYTES {
        return None, es;
      }
      blocks := blocks + written.value;
      es := es + [e];
    }
    assert files[..|files|] == files;
    BodyIsImage(es);
    r := Some(blocks + Zeros(2 * BLOCK));
  }

  // ----- what intake makes of it

  ghost predicate NoFileAbove(fold: Path -> Path, files: seq<Committed>) {
    forall i, j | 0 <= i < |files| && 0 <= j < |files| :: !Above(fold(files[i].path), fold(files[j].path))
  }

  ghost function VisitsOf(files: seq<Committed>): seq<Visit> {
    seq(|files|, i requires 0 <= i < |files| => Visit(files[i].path, |files[i].content|, Some(files[i].content)))
  }

  lemma {:induction false} FilesAsCommitted(fold: Path -> Path, files: seq<Committed>, es: seq<Entry>)
    requires Written(files, es) && forall i | 0 <= i < |files| :: Checked(files[i].path) == files[i].path
    ensures FilesOf(es) == VisitsOf(files) && |Listing(fold, es)| == |files|
    ensures forall i | 0 <= i < |files| :: Listing(fold, es)[i] == Listed(fold(files[i].path), false)
  {
    if es != [] {
      FilesAsCommitted(fold, files[1..], es[1..]);
      assert WrittenAs(files[0], es[0]);
      assert VisitsOf(files) == VisitsOf(files)[..1] + VisitsOf(files[1..]);
    }
  }

  lemma NamedUnslashed(f: Committed)
    requires Named(f)
    ensures Checked(f.path) == f.path
  {
    var path := f.path;
    if path != [] && path[|path| - 1] == SLASH {
      LastPartEmpty(path);
    }
  }

  lemma {:induction false} LastPartEmpty(path: Path)
    requires path != [] && path[|path| - 1] == SLASH
    ensures Split(path, SLASH)[|Split(path, SLASH)| - 1] == []
  {
    if |path| > 1 {
      LastPartEmpty(path[1..]);
    }
  }

  /**
   * Intake accepts an upload, in whatever chunks it arrives, exactly when no committed path, folded,
   * is a directory of another; it then visits exactly the committed files.
   */
  lemma UploadAccepted(fold: Path -> Path, files: seq<Committed>, es: seq<Entry>, stream: seq<seq<byte>>)
    requires Uploadable(fold, files) && AllWritable(es) && Written(files, es)
    requires Flat(stream) == Image(es) && |Image(es)| == SizeOfAll(files)
    ensures NoFileAbove(fold, files) ==> Answer(fold, stream) == Outcome(VisitsOf(files), None)
    ensures !NoFileAbove(fold, files) ==> Answer(fold, stream).refusal.Some?
  {
    hide Writable, WrittenAs, Answer, Image, Above, Storable, SizeOf, Walk;
    ArchiveCuts.WithinLimit(fold, stream);
    forall i | 0 <= i < |files| ensures Checked(files[i].path) == files[i].path { NamedUnslashed(files[i]); }
    FilesAsCommitted(fold, files, es);
    assert !es[0].directory by { assert WrittenAs(files[0], es[0]); }
    RoundTrip(fold, es);
    ApartByPaths(fold, files, Listing(fold, es));
  }

  lemma ApartByPaths(fold: Path -> Path, files: seq<Committed>, listing: seq<Listed>)
    requires Distinct(fold, files) && |listing| == |files|
    requires forall i | 0 <= i < |files| :: listing[i] == Listed(fold(files[i].path), false)
    ensures AllApart(listing) <==> NoFileAbove(fold, files)
  {
    if AllApart(listing) {
      forall i, j | 0 <= i < |files| && 0 <= j < |files| ensures !Above(fold(files[i].path), fold(files[j].path)) {
        if i < j { assert Apart(listing[i], listing[j]); } else if j < i { assert Apart(listing[j], listing[i]); }
      }
    }
  }

  // ----- the tree the CLI lets through and intake does not

  function CaseFold(path: Path): Path { if path == [65] then [97] else path }

  /** A file `A` beside a directory `a`. */
  const CLASHING: seq<Committed> := [Committed([65], [], false), Committed([97, 47, 98], [], false)]

  lemma ClashNamed()
    ensures Named(CLASHING[0]) && Named(CLASHING[1]) && Split([97], SLASH) == [[97]] && Split([97, 47, 98], SLASH) == [[97], [98]]
  {
    hide Split, ValidUtf8;
    SplitNone([65], SLASH);
    SplitNone([97], SLASH);
    SplitNone([98], SLASH);
    SplitHead([97], [98], SLASH);
    assert [97] + [SLASH] + [98] == [97, 47, 98];
    AsciiValid([65]);
    AsciiValid([97, 47, 98]);
  }

  /** The CLI's check for duplicates does not see a file that folds onto another's directory. */
  lemma CaseClashUploads()
    ensures Uploadable(CaseFold, CLASHING) && !NoFileAbove(CaseFold, CLASHING)
  {
    ClashNamed();
    hide Named;
    assert CLASHING[..1] == [CLASHING[0]] && CLASHING[..1][..0] == [];
    assert SizeOfAll(CLASHING[..1]) == 3 * BLOCK && SizeOfAll(CLASHING) == 4 * BLOCK;
    assert Above(CaseFold(CLASHING[0].path), CaseFold(CLASHING[1].path));
  }
}
