/**
 * What is written as a canonical archive is what the walk visits: a header for each entry, with its
 * path in the name field, split over name and prefix, or in an exact self-counting PAX record before
 * it; zero padding; two end blocks.
 */
module ArchiveRoundTrip {
  import opened Wrappers
  import opened Text
  import opened ArchivePaths
  import opened Ustar
  import opened ArchiveSpec
  import opened UstarImage

  // ----- PAX records

  function Decimal(n: nat): (digits: seq<byte>)
    ensures digits != [] && DecimalDigits(digits)
  {
    if n < 10 then [48 + n] else Decimal(n / 10) + [48 + n % 10]
  }

  lemma {:induction false} DecimalRoundTrip(n: nat)
    ensures DecimalValue(Decimal(n)) == n && (n > 0 ==> Decimal(n)[0] != 48)
  {
    if n < 10 {
      assert Decimal(n)[..0] == [];
    } else {
      DecimalRoundTrip(n / 10);
      assert Decimal(n)[..|Decimal(n)| - 1] == Decimal(n / 10);
    }
  }

  /** The length a record states: its own digits counted. */
  function PaxLength(path: Path): nat {
    var fixed := |path| + 7;
    if fixed + 1 < 10 then fixed + 1 else if fixed + 2 < 100 then fixed + 2 else if fixed + 3 < 1000 then fixed + 3 else fixed + 4
  }

  function PaxRecord(path: Path): seq<byte> { Decimal(PaxLength(path)) + PATH_TAG + path + [NEWLINE] }

  lemma DecimalCount(n: nat)
    requires n <= PAX_MAX
    ensures |Decimal(n)| == if n < 10 then 1 else if n < 100 then 2 else if n < 1000 then 3 else 4
  {
    assert n >= 10 ==> |Decimal(n)| == 1 + |Decimal(n / 10)|;
    assert n >= 100 ==> |Decimal(n / 10)| == 1 + |Decimal(n / 100)|;
    assert n >= 1000 ==> |Decimal(n / 100)| == 1 + |Decimal(n / 1000)|;
  }

  lemma RecordCountsItself(path: Path)
    requires path != [] && PaxLength(path) <= PAX_MAX
    ensures |PaxRecord(path)| == PaxLength(path)
  {
    DecimalCount(PaxLength(path));
  }

  lemma {:induction false} DigitsThen(digits: seq<byte>, rest: seq<byte>)
    requires DecimalDigits(digits) && rest != [] && !(48 <= rest[0] <= 57)
    ensures DigitCount(digits + rest) == |digits|
  {
    if digits == [] {
      assert digits + rest == rest;
    } else {
      DigitsThen(digits[1..], rest);
      assert (digits + rest)[1..] == digits[1..] + rest;
    }
  }

  ghost predicate Recordable(path: Path) {
    path != [] && PaxLength(path) <= PAX_MAX && ValidUtf8(path) && 0 !in path && NEWLINE !in path
  }

  lemma RecordIsText(path: Path)
    requires Recordable(path)
    ensures ValidUtf8(PaxRecord(path)) && 0 !in PaxRecord(path)
  {
    var digits := Decimal(PaxLength(path));
    hide Decimal, PaxLength, Width, ValidUtf8;
    AsciiValid(digits + PATH_TAG);
    AsciiValid([NEWLINE]);
    Utf8Joined(digits + PATH_TAG, path);
    Utf8Joined(digits + PATH_TAG + path, [NEWLINE]);
  }

  /** The record hands back exactly the path it was written for. */
  lemma PaxRoundTrip(path: Path)
    requires Recordable(path)
    ensures PaxPath(PaxRecord(path)) == Ok(path)
  {
    var payload := PaxRecord(path);
    var digits := Decimal(PaxLength(path));
    var rest := PATH_TAG + path + [NEWLINE];
    assert payload == digits + rest;
    RecordCountsItself(path);
    RecordIsText(path);
    DecimalRoundTrip(PaxLength(path));
    DigitsThen(digits, rest);
    hide Decimal, ValidUtf8, DecimalValue, DigitCount, PaxLength, PaxRecord;
    assert payload[..|digits|] == digits && payload[|digits|..] == rest;
    assert rest[..6] == PATH_TAG && rest[6..|rest| - 1] == path;
  }

  // ----- entries

  /** An entry, its header's tag, and the tag of the PAX header before it if it has one. */
  datatype Entry = Entry(path: Path, content: seq<byte>, directory: bool, tag: Tag, pax: Option<Tag>)

  ghost predicate Writable(e: Entry) {
    && Portable(Checked(e.path)) && ValidUtf8(e.path) && Legible(e.tag)
    && (e.pax.None? ==> Spelled(e.tag) == e.path)
    && (e.pax.Some? ==> PaxLength(e.path) <= PAX_MAX && Legible(e.pax.value) && Portable(Checked(Spelled(e.pax.value))))
    && |e.content| <= REVIEW_FILE_MAX_BYTES
    && (e.directory ==> e.content == [])
    && (!e.directory ==> Checked(e.path) == e.path)
  }

  function KindOf(e: Entry): byte { if e.directory then KIND_DIRECTORY else KIND_FILE }

  function EntryImage(e: Entry): seq<byte>
    requires |e.content| < Power8(11) && Fits(e.tag)
    requires e.pax.Some? ==> |PaxRecord(e.path)| < Power8(11) && Fits(e.pax.value)
  {
    var record := PaxRecord(e.path);
    (if e.pax.Some? then HeaderBlock(e.pax.value, |record|, KIND_PAX) + record + Zeros(Pad(|record|)) else [])
    + HeaderBlock(e.tag, |e.content|, KindOf(e)) + e.content + Zeros(Pad(|e.content|))
  }

  ghost predicate AllWritable(es: seq<Entry>) { forall i | 0 <= i < |es| :: Writable(es[i]) }

  lemma Sized(e: Entry)
    requires Writable(e)
    ensures |e.content| < Power8(11) && (e.pax.Some? ==> |PaxRecord(e.path)| == PaxLength(e.path) < Power8(11))
    ensures e.path != [] && 0 !in e.path && NEWLINE !in e.path
    ensures Fits(e.tag) && (e.pax.Some? ==> Fits(e.pax.value))
  {
    Small();
    if e.pax.Some? {
      RecordCountsItself(e.path);
    }
    forall i | 0 <= i < |e.path| ensures e.path[i] != 0 && e.path[i] != NEWLINE {
      if i < |Checked(e.path)| { assert Checked(e.path)[i] == e.path[i]; }
    }
  }

  ghost function Image(es: seq<Entry>): seq<byte>
    requires AllWritable(es)
  {
    if es == [] then Zeros(2 * BLOCK)
    else (Sized(es[0]); EntryImage(es[0])) + Image(es[1..])
  }

  function Listing(fold: Path -> Path, es: seq<Entry>): seq<Listed> {
    if es == [] then [] else [Listed(fold(Checked(es[0].path)), es[0].directory)] + Listing(fold, es[1..])
  }

  /** The files of a list, each as it should be visited. */
  function FilesOf(es: seq<Entry>): seq<Visit> {
    if es == [] then []
    else (if es[0].directory then [] else [Visit(es[0].path, |es[0].content|, Some(es[0].content))]) + FilesOf(es[1..])
  }

  lemma SplitBlock(block: seq<byte>, tail: seq<byte>)
    requires |block| == BLOCK
    ensures (block + tail)[..BLOCK] == block && (block + tail)[BLOCK..] == tail
  {
  }

  lemma SplitPayload(payload: seq<byte>, tail: seq<byte>)
    ensures var rest, n := payload + Zeros(Pad(|payload|)) + tail, |payload|;
            && rest[..n] == payload && Zero(rest[n..n + Pad(n)]) && rest[n + Pad(n)..] == tail
  {
    var rest, n := payload + Zeros(Pad(|payload|)) + tail, |payload|;
    assert rest[n..n + Pad(n)] == Zeros(Pad(n));
  }

  /** A block that reads back as a header hands the rest to that kind's step. */
  lemma HeaderTurn(fold: Path -> Path, block: seq<byte>, h: Header, rest: seq<byte>, st: State)
    requires |block| == BLOCK && !Zero(block) && HeaderOf(block, Checksum(block, 0)) == Ok(h)
    ensures StepOf(fold, block + rest, st)
            == if h.kind == KIND_PAX then PaxStep(st, block, h, rest) else EntryStep(fold, st, block, h, rest)
  {
    hide HeaderOf, Checksum, PaxStep, EntryStep, Zero;
    SplitBlock(block, rest);
  }

  lemma PaxStepTaken(st: State, block: seq<byte>, record: seq<byte>, tail: seq<byte>, path: Path, named: Path)
    requires |block| == BLOCK && NamedPath(block) == Ok(named) && Portable(Checked(named)) && st.extended.None?
    requires 0 < |record| <= PAX_MAX && PaxPath(record) == Ok(path)
    ensures PaxStep(st, block, Header(KIND_PAX, |record|), record + Zeros(Pad(|record|)) + tail)
            == More([], st.(extended := Some(path)), tail)
  {
    hide NamedPath, PaxPath, Portable, Pad, Zero;
    SplitPayload(record, tail);
  }

  lemma PaxTurn(fold: Path -> Path, path: Path, tag: Tag, record: seq<byte>, tail: seq<byte>, st: State)
    requires Recordable(path) && st.extended.None? && record == PaxRecord(path)
    requires |record| == PaxLength(path) < Power8(11) && Legible(tag) && Portable(Checked(Spelled(tag)))
    ensures StepOf(fold, HeaderBlock(tag, |record|, KIND_PAX) + (record + Zeros(Pad(|record|)) + tail), st)
            == More([], st.(extended := Some(path)), tail)
  {
    PaxRoundTrip(path);
    hide HeaderBlock, HeaderOf, Checksum, PaxRecord, NamedPath, PaxPath, Power8, EntryStep, PaxStep, StepOf, Pad, Zero, ValidUtf8, Portable, Spelled;
    HeaderRoundTrip(tag, |record|, KIND_PAX);
    var block := HeaderBlock(tag, |record|, KIND_PAX);
    HeaderTurn(fold, block, Header(KIND_PAX, |record|), record + Zeros(Pad(|record|)) + tail, st);
    PaxStepTaken(st, block, record, tail, path, Spelled(tag));
  }

  lemma EntryEntered(fold: Path -> Path, e: Entry, st: State, block: seq<byte>, name: seq<byte>, c: Catalog)
    requires Writable(e) && |block| == BLOCK && NamedPath(block) == Ok(name)
    requires e.path == if st.extended.Some? then st.extended.value else name
    requires AdmitPath(fold, st.catalog, e.path, e.directory) == Ok(c) && st.entries < REVIEW_ENTRY_MAX
    ensures Enter(fold, st, block, Header(KindOf(e), |e.content|)) == Ok((e.path, State(c, st.entries + 1, None)))
  {
    hide NamedPath, AdmitPath, Portable, ValidUtf8;
  }

  lemma EntryStepTaken(fold: Path -> Path, e: Entry, st: State, block: seq<byte>, tail: seq<byte>, next: State)
    requires |block| == BLOCK && Enter(fold, st, block, Header(KindOf(e), |e.content|)) == Ok((e.path, next))
    ensures EntryStep(fold, st, block, Header(KindOf(e), |e.content|), e.content + Zeros(Pad(|e.content|)) + tail)
            == More(FilesOf([e]), next, tail)
  {
    hide Enter, Pad, Zero;
    SplitPayload(e.content, tail);
  }

  lemma EntryTurn(fold: Path -> Path, e: Entry, tail: seq<byte>, st: State, c: Catalog)
    requires Writable(e) && |e.content| < Power8(11) && Legible(e.tag)
    requires e.path == if st.extended.Some? then st.extended.value else Spelled(e.tag)
    requires AdmitPath(fold, st.catalog, e.path, e.directory) == Ok(c) && st.entries < REVIEW_ENTRY_MAX
    ensures StepOf(fold, HeaderBlock(e.tag, |e.content|, KindOf(e)) + (e.content + Zeros(Pad(|e.content|)) + tail), st)
            == More(FilesOf([e]), State(c, st.entries + 1, None), tail)
  {
    hide HeaderBlock, HeaderOf, Checksum, NamedPath, Power8, PaxStep, EntryStep, StepOf, Enter, AdmitPath, ValidUtf8, FilesOf, Pad, Zero, Writable, Spelled;
    HeaderRoundTrip(e.tag, |e.content|, KindOf(e));
    var block := HeaderBlock(e.tag, |e.content|, KindOf(e));
    HeaderTurn(fold, block, Header(KindOf(e), |e.content|), e.content + Zeros(Pad(|e.content|)) + tail, st);
    EntryEntered(fold, e, st, block, Spelled(e.tag), c);
    EntryStepTaken(fold, e, st, block, tail, State(c, st.entries + 1, None));
  }

  lemma Turned(fold: Path -> Path, bytes: seq<byte>, st: State, visits: seq<Visit>, next: State, rest: seq<byte>)
    requires StepOf(fold, bytes, st) == More(visits, next, rest)
    ensures var later := Walk(fold, rest, next);
            Walk(fold, bytes, st) == Outcome(visits + later.visits, later.refusal)
  {
    hide StepOf;
  }

  /** The bytes of one entry take the walk past it, PAX record and all. */
  lemma EntryWalks(fold: Path -> Path, e: Entry, tail: seq<byte>, st: State, c: Catalog)
    requires Writable(e) && |e.content| < Power8(11) && (e.pax.Some? ==> |PaxRecord(e.path)| == PaxLength(e.path) < Power8(11))
    requires st.extended.None? && st.entries < REVIEW_ENTRY_MAX
    requires AdmitPath(fold, st.catalog, e.path, e.directory) == Ok(c)
    ensures var later := Walk(fold, tail, State(c, st.entries + 1, None));
            Walk(fold, EntryImage(e) + tail, st) == Outcome(FilesOf([e]) + later.visits, later.refusal)
  {
    Sized(e);
    var next := State(c, st.entries + 1, None);
    if e.pax.Some? {
      PaxEntryWalks(fold, e, PaxRecord(e.path), tail, st, c);
      Regroup(HeaderBlock(e.pax.value, |PaxRecord(e.path)|, KIND_PAX), PaxRecord(e.path), Zeros(Pad(|PaxRecord(e.path)|)),
              HeaderBlock(e.tag, |e.content|, KindOf(e)), e.content, Zeros(Pad(|e.content|)), tail);
    } else {
      hide StepOf, Walk, HeaderBlock, FilesOf, Power8, PaxRecord, PaxLength, ValidUtf8, AdmitPath, Pad, Portable, Zero;
      EntryTurn(fold, e, tail, st, c);
      Turned(fold, HeaderBlock(e.tag, |e.content|, KindOf(e)) + (e.content + Zeros(Pad(|e.content|)) + tail), st, FilesOf([e]), next, tail);
      Regroup([], [], [], HeaderBlock(e.tag, |e.content|, KindOf(e)), e.content, Zeros(Pad(|e.content|)), tail);
    }
  }

  lemma Regroup(a: seq<byte>, b: seq<byte>, c: seq<byte>, d: seq<byte>, e: seq<byte>, f: seq<byte>, tail: seq<byte>)
    ensures ((a + b + c) + d + e + f) + tail == a + (b + c + (d + (e + f + tail)))
    ensures (([]) + d + e + f) + tail == d + (e + f + tail)
  {
  }

  lemma TurnedTwice(fold: Path -> Path, bytes: seq<byte>, st: State, named: State, body: seq<byte>, visits: seq<Visit>, next: State, tail: seq<byte>)
    requires StepOf(fold, bytes, st) == More([], named, body) && StepOf(fold, body, named) == More(visits, next, tail)
    ensures var later := Walk(fold, tail, next);
            Walk(fold, bytes, st) == Outcome(visits + later.visits, later.refusal)
  {
    hide StepOf, Walk;
    Turned(fold, bytes, st, [], named, body);
    Turned(fold, body, named, visits, next, tail);
    assert [] + Walk(fold, body, named).visits == Walk(fold, body, named).visits;
  }

  lemma PaxEntryWalks(fold: Path -> Path, e: Entry, record: seq<byte>, tail: seq<byte>, st: State, c: Catalog)
    requires Writable(e) && e.pax.Some? && |e.content| < Power8(11) && record == PaxRecord(e.path) && |record| == PaxLength(e.path) < Power8(11)
    requires st.extended.None? && st.entries < REVIEW_ENTRY_MAX
    requires AdmitPath(fold, st.catalog, e.path, e.directory) == Ok(c)
    ensures var later := Walk(fold, tail, State(c, st.entries + 1, None));
            var body := HeaderBlock(e.tag, |e.content|, KindOf(e)) + (e.content + Zeros(Pad(|e.content|)) + tail);
            Walk(fold, HeaderBlock(e.pax.value, |record|, KIND_PAX) + (record + Zeros(Pad(|record|)) + body), st)
            == Outcome(FilesOf([e]) + later.visits, later.refusal)
  {
    hide StepOf, Walk, HeaderBlock, FilesOf, Power8, PaxRecord, PaxLength, ValidUtf8, AdmitPath, Pad, Portable, Zero, Writable, Recordable, Zeros, KindOf;
    assert Recordable(e.path) && Legible(e.tag) && Legible(e.pax.value) && Portable(Checked(Spelled(e.pax.value))) by { RecordableEntry(e); }
    var named := st.(extended := Some(e.path));
    var body := HeaderBlock(e.tag, |e.content|, KindOf(e)) + (e.content + Zeros(Pad(|e.content|)) + tail);
    PaxTurn(fold, e.path, e.pax.value, record, body, st);
    EntryTurn(fold, e, tail, named, c);
    TurnedTwice(fold, HeaderBlock(e.pax.value, |record|, KIND_PAX) + (record + Zeros(Pad(|record|)) + body), st, named, body, FilesOf([e]), State(c, st.entries + 1, None), tail);
  }

  lemma RecordableEntry(e: Entry)
    requires Writable(e) && e.pax.Some?
    ensures Recordable(e.path) && Legible(e.tag) && Legible(e.pax.value) && Portable(Checked(Spelled(e.pax.value)))
  {
    hide PaxLength, ValidUtf8;
    Sized(e);
  }

  lemma EndWalks(fold: Path -> Path, st: State)
    requires st.extended.None? && st.catalog.files != {}
    ensures Walk(fold, Zeros(2 * BLOCK), st) == Outcome([], None)
  {
    hide HeaderOf, Checksum, PaxStep, EntryStep;
    var end := Zeros(2 * BLOCK);
    assert end[..BLOCK] == Zeros(BLOCK) && end[BLOCK..] == Zeros(BLOCK);
    assert end[BLOCK..][BLOCK..] == [];
    assert StepOf(fold, end, st) == Finished([]);
  }

  ghost predicate HoldsFile(es: seq<Entry>) { exists i :: 0 <= i < |es| && !es[i].directory }

  lemma {:induction false} ImageWalks(fold: Path -> Path, es: seq<Entry>, st: State)
    requires AllWritable(es) && AdmitAll(st.catalog, Listing(fold, es)).Ok?
    requires st.extended.None? && st.entries + |es| <= REVIEW_ENTRY_MAX
    requires st.catalog.files != {} || HoldsFile(es)
    ensures Walk(fold, Image(es), st) == Outcome(FilesOf(es), None)
    decreases |es|
  {
    hide Walk, EntryImage, Writable, Admit, PaxRecord, PaxLength, Power8;
    if es == [] {
      EndWalks(fold, st);
    } else {
      var e := es[0];
      var listed := Listed(fold(Checked(e.path)), e.directory);
      assert Listing(fold, es)[1..] == Listing(fold, es[1..]);
      Sized(e);
      EntryPortable(fold, e, st.catalog);
      var c := Admit(st.catalog, listed).value;
      var next := State(c, st.entries + 1, None);
      FilesKept(st.catalog, listed, c);
      ImageWalks(fold, es[1..], next);
      EntryWalks(fold, e, Image(es[1..]), st, c);
      assert FilesOf([e]) + FilesOf(es[1..]) == FilesOf(es);
    }
  }

  lemma EntryPortable(fold: Path -> Path, e: Entry, c: Catalog)
    requires Writable(e)
    ensures AdmitPath(fold, c, e.path, e.directory) == Admit(c, Listed(fold(Checked(e.path)), e.directory))
  {
  }

  lemma FilesKept(c: Catalog, e: Listed, c': Catalog)
    requires Admit(c, e) == Ok(c')
    ensures c'.files != {} || (e.directory && c.files == {})
    ensures e.directory ==> c'.files == c.files
  {
  }

  // ----- what a listing that collides comes to

  lemma RefusedTurn(fold: Path -> Path, e: Entry, tail: seq<byte>, st: State, error: Error)
    requires Writable(e) && |e.content| < Power8(11) && Legible(e.tag)
    requires e.path == if st.extended.Some? then st.extended.value else Spelled(e.tag)
    requires AdmitPath(fold, st.catalog, e.path, e.directory) == Err(error)
    ensures StepOf(fold, HeaderBlock(e.tag, |e.content|, KindOf(e)) + (e.content + Zeros(Pad(|e.content|)) + tail), st) == Failed([], error)
  {
    hide HeaderBlock, HeaderOf, Checksum, NamedPath, Power8, PaxStep, StepOf, AdmitPath, ValidUtf8, Pad, Zero, Portable, Spelled;
    HeaderRoundTrip(e.tag, |e.content|, KindOf(e));
    var block := HeaderBlock(e.tag, |e.content|, KindOf(e));
    HeaderTurn(fold, block, Header(KindOf(e), |e.content|), e.content + Zeros(Pad(|e.content|)) + tail, st);
  }

  lemma Stopped(fold: Path -> Path, bytes: seq<byte>, st: State, error: Error)
    requires StepOf(fold, bytes, st) == Failed([], error)
    ensures Walk(fold, bytes, st) == Outcome([], Some(error))
  {
    hide StepOf;
  }

  lemma EntryRefused(fold: Path -> Path, e: Entry, tail: seq<byte>, st: State, error: Error)
    requires Writable(e) && |e.content| < Power8(11) && (e.pax.Some? ==> |PaxRecord(e.path)| == PaxLength(e.path) < Power8(11))
    requires Fits(e.tag) && (e.pax.Some? ==> Fits(e.pax.value))
    requires st.extended.None? && AdmitPath(fold, st.catalog, e.path, e.directory) == Err(error)
    ensures Walk(fold, EntryImage(e) + tail, st) == Outcome([], Some(error))
  {
    hide StepOf, Walk, HeaderBlock, Power8, PaxRecord, PaxLength, ValidUtf8, AdmitPath, Pad, Portable, Zero, Recordable, Zeros, Spelled;
    var record := PaxRecord(e.path);
    var body := HeaderBlock(e.tag, |e.content|, KindOf(e)) + (e.content + Zeros(Pad(|e.content|)) + tail);
    if e.pax.Some? {
      RecordableEntry(e);
      var named := st.(extended := Some(e.path));
      var bytes := HeaderBlock(e.pax.value, |record|, KIND_PAX) + (record + Zeros(Pad(|record|)) + body);
      PaxTurn(fold, e.path, e.pax.value, record, body, st);
      RefusedTurn(fold, e, tail, named, error);
      Stopped(fold, body, named, error);
      Turned(fold, bytes, st, [], named, body);
      Regroup(HeaderBlock(e.pax.value, |record|, KIND_PAX), record, Zeros(Pad(|record|)),
              HeaderBlock(e.tag, |e.content|, KindOf(e)), e.content, Zeros(Pad(|e.content|)), tail);
    } else {
      RefusedTurn(fold, e, tail, st, error);
      Stopped(fold, body, st, error);
      Regroup([], [], [], HeaderBlock(e.tag, |e.content|, KindOf(e)), e.content, Zeros(Pad(|e.content|)), tail);
    }
  }

  /** The image of entries that do not go together is refused as the one-pass check refuses them. */
  lemma {:induction false} ImageRefused(fold: Path -> Path, es: seq<Entry>, st: State)
    requires AllWritable(es) && AdmitAll(st.catalog, Listing(fold, es)).Err?
    requires st.extended.None? && st.entries + |es| <= REVIEW_ENTRY_MAX
    ensures Walk(fold, Image(es), st).refusal == Some(AdmitAll(st.catalog, Listing(fold, es)).error)
    decreases |es|
  {
    hide Walk, EntryImage, Writable, Admit, PaxRecord, PaxLength, Power8;
    var e := es[0];
    var listed := Listed(fold(Checked(e.path)), e.directory);
    assert Listing(fold, es)[1..] == Listing(fold, es[1..]);
    Sized(e);
    EntryPortable(fold, e, st.catalog);
    var admitted := Admit(st.catalog, listed);
    if admitted.Err? {
      EntryRefused(fold, e, Image(es[1..]), st, admitted.error);
    } else {
      ImageRefused(fold, es[1..], State(admitted.value, st.entries + 1, None));
      EntryWalks(fold, e, Image(es[1..]), st, admitted.value);
    }
  }

  /**
   * The round trip: writable entries, at most the entry limit of them and at least one a file, are
   * accepted exactly when they are pairwise apart once folded, and then visited exactly, whatever
   * mix of name fields and PAX records names them.
   */
  lemma RoundTrip(fold: Path -> Path, es: seq<Entry>)
    requires AllWritable(es) && |es| <= REVIEW_ENTRY_MAX && HoldsFile(es)
    ensures AllApart(Listing(fold, es)) ==> Walk(fold, Image(es), START) == Outcome(FilesOf(es), None)
    ensures !AllApart(Listing(fold, es)) ==> Walk(fold, Image(es), START).refusal.Some?
  {
    hide Walk, Image, Writable;
    CollisionCheckExact(Listing(fold, es));
    if AllApart(Listing(fold, es)) {
      ImageWalks(fold, es, START);
    } else {
      ImageRefused(fold, es, START);
    }
  }
}
