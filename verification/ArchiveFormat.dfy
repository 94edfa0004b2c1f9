/**
 * Which byte strings are review archives, said without the parser: header blocks, payloads and zero
 * padding, a PAX record before an entry where one is used, then at least two zero blocks.
 */
module ArchiveFormat {
  import opened Wrappers
  import opened Text
  import opened ArchivePaths
  import opened Ustar
  import opened ArchiveSpec
  import opened UstarImage
  import opened ArchiveFields
  import ArchiveRoundTrip
  import ArchiveCuts

  /** A header block and the bytes it announces. */
  datatype Piece = Piece(header: seq<byte>, payload: seq<byte>)

  /** One entry: its path as visited and as judged, and the PAX piece before it if there is one. */
  datatype Item = Item(path: Path, place: Path, pax: Option<Piece>, entry: Piece)

  ghost function PieceBytes(p: Piece): seq<byte> { p.header + p.payload + Zeros(Pad(|p.payload|)) }

  ghost function ItemBytes(i: Item): seq<byte> { (if i.pax.Some? then PieceBytes(i.pax.value) else []) + PieceBytes(i.entry) }

  ghost function Laid(items: seq<Item>): seq<byte> {
    if items == [] then [] else ItemBytes(items[0]) + Laid(items[1..])
  }

  /** `path` is a tame path, or one followed by a slash. */
  ghost predicate At(path: Path, place: Path) { Tame(place) && (path == place || path == place + [47]) }

  ghost predicate IsDirectory(i: Item) { |i.entry.header| == 512 && i.entry.header[156] == 53 }

  ghost predicate EntrySound(i: Item) {
    && |i.entry.header| == 512 && (i.entry.header[156] == 0 || i.entry.header[156] == 48 || i.entry.header[156] == 53)
    && HeaderSays(i.entry.header, i.entry.header[156], |i.entry.payload|)
    && (if IsDirectory(i) then i.entry.payload == [] && At(i.path, i.place)
        else |i.entry.payload| <= 16 * 1024 * 1024 && i.path == i.place && Tame(i.place))
    && exists named :: Names(i.entry.header, named) && (i.pax.None? ==> named == i.path)
  }

  ghost predicate PaxSound(p: Piece, path: Path) {
    && HeaderSays(p.header, 120, |p.payload|) && Record(p.payload, path)
    && exists named, place :: Names(p.header, named) && At(named, place)
  }

  ghost predicate Sound(i: Item) { EntrySound(i) && (i.pax.Some? ==> PaxSound(i.pax.value, i.path)) }

  ghost predicate AllSound(items: seq<Item>) { forall k | 0 <= k < |items| :: Sound(items[k]) }

  ghost function Listing(fold: Path -> Path, items: seq<Item>): seq<Listed> {
    if items == [] then [] else [Listed(fold(items[0].place), IsDirectory(items[0]))] + Listing(fold, items[1..])
  }

  /** The files, each with its own bytes. */
  ghost function FilesOf(items: seq<Item>): seq<Visit> {
    if items == [] then []
    else (if IsDirectory(items[0]) then [] else [Visit(items[0].path, |items[0].entry.payload|, Some(items[0].entry.payload))]) + FilesOf(items[1..])
  }

  ghost predicate HoldsFile(items: seq<Item>) { exists k :: 0 <= k < |items| && !IsDirectory(items[k]) }

  /** `bytes` is the archive of `items`. */
  ghost predicate ArchiveOf(fold: Path -> Path, bytes: seq<byte>, items: seq<Item>, tail: seq<byte>) {
    && bytes == Laid(items) + tail && |tail| >= 1024 && Blank(tail)
    && AllSound(items) && |items| <= 10_000 && HoldsFile(items) && AllApart(Listing(fold, items))
  }

  // ----- the path rule

  lemma TameUnslashed(place: Path)
    requires Tame(place)
    ensures place[|place| - 1] != 47
  {
    if place[|place| - 1] == 47 {
      EmptyLast(place);
    }
  }

  lemma EmptyLast(path: Path)
    requires path != [] && path[|path| - 1] == 47
    ensures Segment(path, |path|, |path|) && path[|path|..|path|] == []
  {
  }

  lemma CheckedExactly(path: Path, place: Path)
    ensures PortablePath(path) == Ok(place) <==> At(path, place)
  {
    hide Portable, Tame;
    PortableExactly(Checked(path));
    if At(path, place) {
      TameUnslashed(place);
      assert Checked(path) == place;
    }
  }

  // ----- pieces

  lemma PieceLaid(p: Piece, rest: seq<byte>)
    ensures PieceBytes(p) + rest == p.header + (p.payload + Zeros(Pad(|p.payload|)) + rest)
  {
  }

  /** A block, its bytes and zero padding are a piece. */
  lemma PieceFound(bytes: seq<byte>, size: nat)
    requires |bytes| >= BLOCK + size + Pad(size) && Zero(bytes[BLOCK..][size..size + Pad(size)])
    ensures bytes == PieceBytes(Piece(bytes[..BLOCK], bytes[BLOCK..][..size])) + bytes[BLOCK..][size + Pad(size)..]
  {
    var after := bytes[BLOCK..];
    assert after[size..size + Pad(size)] == Zeros(Pad(size));
    assert after == after[..size] + after[size..size + Pad(size)] + after[size + Pad(size)..];
    assert bytes == bytes[..BLOCK] + after;
  }

  lemma HeaderNotBlank(block: seq<byte>, kind: byte, size: nat)
    requires HeaderSays(block, kind, size)
    ensures !Zero(block)
  {
    assert block[257..263][0] == block[257];
  }

  // ----- an item is walked

  lemma EntryEnters(fold: Path -> Path, i: Item, st: State, c: Catalog)
    requires EntrySound(i) && st.extended == (if i.pax.Some? then Some(i.path) else None) && st.entries < REVIEW_ENTRY_MAX
    requires Admit(st.catalog, Listed(fold(i.place), IsDirectory(i))) == Ok(c)
    ensures Enter(fold, st, i.entry.header, Header(i.entry.header[156], |i.entry.payload|)) == Ok((i.path, State(c, st.entries + 1, None)))
  {
    hide HeaderSays, Names, Tame, NamedPath, PortablePath, Admit;
    var named :| Names(i.entry.header, named) && (i.pax.None? ==> named == i.path);
    NamesExactly(i.entry.header, named);
    CheckedExactly(i.path, i.place);
    if !IsDirectory(i) {
      TameUnslashed(i.place);
    }
  }

  lemma EntryTaken(fold: Path -> Path, i: Item, rest: seq<byte>, st: State, next: State)
    requires |i.entry.header| == BLOCK
    requires Enter(fold, st, i.entry.header, Header(i.entry.header[156], |i.entry.payload|)) == Ok((i.path, next))
    ensures EntryStep(fold, st, i.entry.header, Header(i.entry.header[156], |i.entry.payload|), i.entry.payload + Zeros(Pad(|i.entry.payload|)) + rest)
            == More(FilesOf([i]), next, rest)
  {
    hide Enter, Pad, Zero;
    ArchiveRoundTrip.SplitPayload(i.entry.payload, rest);
    assert FilesOf([i][1..]) == [];
  }

  lemma EntrySteps(fold: Path -> Path, i: Item, rest: seq<byte>, st: State, c: Catalog)
    requires EntrySound(i) && st.extended == (if i.pax.Some? then Some(i.path) else None) && st.entries < REVIEW_ENTRY_MAX
    requires Admit(st.catalog, Listed(fold(i.place), IsDirectory(i))) == Ok(c)
    ensures StepOf(fold, PieceBytes(i.entry) + rest, st) == More(FilesOf([i]), State(c, st.entries + 1, None), rest)
  {
    var block, h := i.entry.header, Header(i.entry.header[156], |i.entry.payload|);
    EntryEnters(fold, i, st, c);
    EntryTaken(fold, i, rest, st, State(c, st.entries + 1, None));
    hide HeaderOf, Checksum, HeaderSays, Names, Tame, Enter, PaxStep, EntryStep, StepOf, Admit, Pad, Zero, PieceBytes, FilesOf;
    HeaderExactly(block, h.kind, h.size);
    HeaderNotBlank(block, h.kind, h.size);
    PieceLaid(i.entry, rest);
    ArchiveRoundTrip.HeaderTurn(fold, block, h, i.entry.payload + Zeros(Pad(|i.entry.payload|)) + rest, st);
  }

  lemma PaxSteps(fold: Path -> Path, p: Piece, path: Path, rest: seq<byte>, st: State)
    requires PaxSound(p, path) && st.extended.None?
    ensures StepOf(fold, PieceBytes(p) + rest, st) == More([], st.(extended := Some(path)), rest)
  {
    RecordSized(p.payload, path);
    hide HeaderOf, Checksum, HeaderSays, Names, Tame, NamedPath, PaxPath, Record, EntryStep, PaxStep, StepOf, Pad, Zero, PieceBytes, Portable;
    var named, place :| Names(p.header, named) && At(named, place);
    SaysBlock(p.header, 120, |p.payload|);
    NamesExactly(p.header, named);
    CheckedExactly(named, place);
    RecordExactly(p.payload, path);
    HeaderExactly(p.header, 120, |p.payload|);
    HeaderNotBlank(p.header, 120, |p.payload|);
    PieceLaid(p, rest);
    ArchiveRoundTrip.PaxStepTaken(st, p.header, p.payload, rest, path, named);
    ArchiveRoundTrip.HeaderTurn(fold, p.header, Header(120, |p.payload|), p.payload + Zeros(Pad(|p.payload|)) + rest, st);
  }

  lemma SaysBlock(block: seq<byte>, kind: byte, size: nat)
    requires HeaderSays(block, kind, size)
    ensures |block| == BLOCK && block[156] == kind
  {
  }

  lemma RecordSized(payload: seq<byte>, path: Path)
    requires Record(payload, path)
    ensures 0 < |payload| <= PAX_MAX
  {
  }

  /** The bytes of one sound item take the walk past it. */
  lemma ItemWalks(fold: Path -> Path, i: Item, rest: seq<byte>, st: State, c: Catalog)
    requires Sound(i) && st.extended.None? && st.entries < REVIEW_ENTRY_MAX
    requires Admit(st.catalog, Listed(fold(i.place), IsDirectory(i))) == Ok(c)
    ensures var later := Walk(fold, rest, State(c, st.entries + 1, None));
            Walk(fold, ItemBytes(i) + rest, st) == Outcome(FilesOf([i]) + later.visits, later.refusal)
  {
    hide StepOf, Walk, EntrySound, PaxSound, PieceBytes, FilesOf, Admit, IsDirectory;
    var next := State(c, st.entries + 1, None);
    var body := PieceBytes(i.entry) + rest;
    if i.pax.Some? {
      var named := st.(extended := Some(i.path));
      PaxSteps(fold, i.pax.value, i.path, body, st);
      EntrySteps(fold, i, rest, named, c);
      ArchiveRoundTrip.TurnedTwice(fold, PieceBytes(i.pax.value) + body, st, named, body, FilesOf([i]), next, rest);
      assert ItemBytes(i) + rest == PieceBytes(i.pax.value) + body;
    } else {
      EntrySteps(fold, i, rest, st, c);
      ArchiveRoundTrip.Turned(fold, body, st, FilesOf([i]), next, rest);
      assert ItemBytes(i) + rest == body;
    }
  }

  lemma EndWalks(fold: Path -> Path, tail: seq<byte>, st: State)
    requires st.extended.None? && st.catalog.files != {} && |tail| >= 1024 && Blank(tail)
    ensures Walk(fold, tail, st) == Outcome([], None)
  {
    hide HeaderOf, Checksum, PaxStep, EntryStep;
    var rest := tail[BLOCK..];
    assert StepOf(fold, tail, st) == Finished(rest[BLOCK..]);
  }

  lemma {:induction false} ItemsWalk(fold: Path -> Path, items: seq<Item>, tail: seq<byte>, st: State)
    requires AllSound(items) && |tail| >= 1024 && Blank(tail) && AdmitAll(st.catalog, Listing(fold, items)).Ok?
    requires st.extended.None? && st.entries + |items| <= REVIEW_ENTRY_MAX && (st.catalog.files != {} || HoldsFile(items))
    ensures Walk(fold, Laid(items) + tail, st) == Outcome(FilesOf(items), None)
    decreases |items|
  {
    hide Walk, Sound, ItemBytes, Admit, IsDirectory;
    if items == [] {
      assert Laid(items) + tail == tail;
      EndWalks(fold, tail, st);
    } else {
      var i, rest := items[0], items[1..];
      var listed := Listed(fold(i.place), IsDirectory(i));
      assert Listing(fold, items)[1..] == Listing(fold, rest);
      var c := Admit(st.catalog, listed).value;
      ArchiveRoundTrip.FilesKept(st.catalog, listed, c);
      if c.files == {} {
        var k :| 0 <= k < |items| && !IsDirectory(items[k]);
        assert rest[k - 1] == items[k];
      }
      ItemsWalk(fold, rest, tail, State(c, st.entries + 1, None));
      ItemWalks(fold, i, Laid(rest) + tail, st, c);
      assert Laid(items) + tail == ItemBytes(i) + (Laid(rest) + tail);
      FilesAhead(items);
    }
  }

  lemma FilesAhead(items: seq<Item>)
    requires items != []
    ensures FilesOf(items) == FilesOf([items[0]]) + FilesOf(items[1..])
  {
    assert [items[0]][1..] == [];
  }

  // ----- a walk that ends well finds items

  /** What one turn of the loop has read, when it goes on. */
  lemma PieceRead(fold: Path -> Path, bytes: seq<byte>, st: State) returns (p: Piece)
    requires StepOf(fold, bytes, st).More?
    ensures |p.header| == BLOCK && bytes == PieceBytes(p) + StepOf(fold, bytes, st).rest
    ensures HeaderSays(p.header, p.header[156], |p.payload|)
    ensures |bytes| >= BLOCK && |bytes[BLOCK..]| >= |p.payload| && bytes[BLOCK..][..|p.payload|] == p.payload
    ensures var h := Header(p.header[156], |p.payload|);
            StepOf(fold, bytes, st)
            == if h.kind == KIND_PAX then PaxStep(st, p.header, h, bytes[BLOCK..]) else EntryStep(fold, st, p.header, h, bytes[BLOCK..])
  {
    hide HeaderOf, Checksum, HeaderSays, Enter, PaxAllowed, PaxPath, Pad, PieceBytes;
    var block, after := bytes[..BLOCK], bytes[BLOCK..];
    var h := HeaderOf(block, Checksum(block, 0)).value;
    HeaderExactly(block, h.kind, h.size);
    SaysBlock(block, h.kind, h.size);
    p := Piece(block, after[..h.size]);
    PieceFound(bytes, h.size);
  }

  /** An entry the reader entered is sound, and was admitted. */
  lemma EntryFound(fold: Path -> Path, p: Piece, pax: Option<Piece>, st: State, entered: (Path, State)) returns (i: Item)
    requires |p.header| == BLOCK && HeaderSays(p.header, p.header[156], |p.payload|)
    requires Enter(fold, st, p.header, Header(p.header[156], |p.payload|)) == Ok(entered)
    requires pax.Some? <==> st.extended.Some?
    ensures i.pax == pax && i.entry == p && i.path == entered.0 && EntrySound(i) && (st.extended.Some? ==> st.extended.value == i.path)
    ensures Admit(st.catalog, Listed(fold(i.place), IsDirectory(i))) == Ok(entered.1.catalog)
    ensures entered.1 == State(entered.1.catalog, st.entries + 1, None) && st.entries < REVIEW_ENTRY_MAX
  {
    hide HeaderSays, Names, Tame, NamedPath, Portable, Admit;
    var named := NamedPath(p.header).value;
    NamesExactly(p.header, named);
    var path := entered.0;
    var place := PortablePath(path).value;
    CheckedExactly(path, place);
    i := Item(path, place, pax, p);
  }

  lemma PaxFound(p: Piece, st: State, after: seq<byte>)
    requires |p.header| == BLOCK && HeaderSays(p.header, p.header[156], |p.payload|) && p.header[156] == 120
    requires |after| >= |p.payload| && after[..|p.payload|] == p.payload
    requires PaxStep(st, p.header, Header(KIND_PAX, |p.payload|), after).More?
    ensures var next := PaxStep(st, p.header, Header(KIND_PAX, |p.payload|), after).next;
            st.extended.None? && next.extended.Some? && next == st.(extended := next.extended) && PaxSound(p, next.extended.value)
  {
    hide HeaderSays, Names, Tame, NamedPath, Portable, PaxPath, Record, Pad;
    var path := PaxPath(p.payload).value;
    RecordExactly(p.payload, path);
    var named := NamedPath(p.header).value;
    NamesExactly(p.header, named);
    CheckedExactly(named, PortablePath(named).value);
  }

  /** What the loop reads of one entry, its PAX piece included: a sound item, admitted. */
  lemma ItemFound(fold: Path -> Path, bytes: seq<byte>, st: State) returns (i: Item, rest: seq<byte>, c: Catalog)
    requires st.extended.None? && Walk(fold, bytes, st).refusal.None? && StepOf(fold, bytes, st).More?
    ensures Sound(i) && bytes == ItemBytes(i) + rest && st.entries < REVIEW_ENTRY_MAX
    ensures Admit(st.catalog, Listed(fold(i.place), IsDirectory(i))) == Ok(c)
    ensures Walk(fold, rest, State(c, st.entries + 1, None)).refusal.None? && |rest| < |bytes|
  {
    hide HeaderSays, PaxStep, EntryStep, StepOf, Admit, PieceBytes, EntrySound, PaxSound, Enter;
    var p := PieceRead(fold, bytes, st);
    var step := StepOf(fold, bytes, st);
    if p.header[156] == KIND_PAX {
      PaxFound(p, st, bytes[BLOCK..]);
      var named := step.next;
      AfterPax(fold, step.rest, named);
      var q := PieceRead(fold, step.rest, named);
      NoSecondPax(fold, q, step.rest, named);
      var entered := EntryReads(fold, q, step.rest, named);
      i := EntryFound(fold, q, Some(p), named, entered);
      rest, c := StepOf(fold, step.rest, named).rest, entered.1.catalog;
      assert bytes == ItemBytes(i) + rest;
    } else {
      var entered := EntryReads(fold, p, bytes, st);
      i := EntryFound(fold, p, None, st, entered);
      rest, c := step.rest, entered.1.catalog;
      assert bytes == ItemBytes(i) + rest;
    }
  }

  /** After a PAX piece a walk that ends well has another turn to take. */
  lemma AfterPax(fold: Path -> Path, bytes: seq<byte>, st: State)
    requires st.extended.Some? && Walk(fold, bytes, st).refusal.None?
    ensures StepOf(fold, bytes, st).More?
  {
    hide HeaderOf, Checksum, PaxStep, EntryStep;
  }

  lemma NoSecondPax(fold: Path -> Path, q: Piece, bytes: seq<byte>, st: State)
    requires |q.header| == BLOCK && |bytes| >= BLOCK && st.extended.Some? && StepOf(fold, bytes, st).More?
    requires q.header[156] == KIND_PAX ==> StepOf(fold, bytes, st) == PaxStep(st, q.header, Header(KIND_PAX, |q.payload|), bytes[BLOCK..])
    ensures q.header[156] != KIND_PAX
  {
    hide StepOf;
  }

  lemma EntryReads(fold: Path -> Path, p: Piece, bytes: seq<byte>, st: State) returns (entered: (Path, State))
    requires |p.header| == BLOCK && |bytes| >= BLOCK && StepOf(fold, bytes, st).More?
    requires StepOf(fold, bytes, st) == EntryStep(fold, st, p.header, Header(p.header[156], |p.payload|), bytes[BLOCK..])
    ensures Enter(fold, st, p.header, Header(p.header[156], |p.payload|)) == Ok(entered) && StepOf(fold, bytes, st).next == entered.1
  {
    hide StepOf, Enter, Pad, Zero;
    entered := Enter(fold, st, p.header, Header(p.header[156], |p.payload|)).value;
  }

  lemma EndFound(fold: Path -> Path, bytes: seq<byte>, st: State)
    requires Walk(fold, bytes, st).refusal.None? && !StepOf(fold, bytes, st).More?
    ensures |bytes| >= 1024 && Blank(bytes) && st.catalog.files != {} && st.extended.None?
  {
    hide HeaderOf, Checksum, PaxStep, EntryStep;
    var rest := bytes[BLOCK..];
    assert bytes == bytes[..BLOCK] + rest[..BLOCK] + rest[BLOCK..];
  }

  lemma {:induction false} ItemsFound(fold: Path -> Path, bytes: seq<byte>, st: State) returns (items: seq<Item>, tail: seq<byte>)
    requires st.extended.None? && st.entries <= REVIEW_ENTRY_MAX && Walk(fold, bytes, st).refusal.None?
    ensures bytes == Laid(items) + tail && |tail| >= 1024 && Blank(tail) && AllSound(items)
    ensures AdmitAll(st.catalog, Listing(fold, items)).Ok? && st.entries + |items| <= REVIEW_ENTRY_MAX
    ensures st.catalog.files != {} || HoldsFile(items)
    decreases |bytes|
  {
    hide Walk, StepOf, Sound, ItemBytes, Admit, IsDirectory;
    if StepOf(fold, bytes, st).More? {
      var i, rest, c := ItemFound(fold, bytes, st);
      var more;
      more, tail := ItemsFound(fold, rest, State(c, st.entries + 1, None));
      items := [i] + more;
      assert items[1..] == more;
      assert forall k | 0 <= k < |more| :: items[k + 1] == more[k];
      assert Listing(fold, items)[1..] == Listing(fold, more);
      assert bytes == ItemBytes(i) + (Laid(more) + tail);
      ArchiveRoundTrip.FilesKept(st.catalog, Listed(fold(i.place), IsDirectory(i)), c);
      FirstFile(st.catalog, c, i, more, items);
    } else {
      EndFound(fold, bytes, st);
      items, tail := [], bytes;
      assert Laid(items) + tail == bytes;
    }
  }

  lemma FirstFile(old_: Catalog, c: Catalog, i: Item, more: seq<Item>, items: seq<Item>)
    requires items == [i] + more && (c.files != {} || HoldsFile(more)) && (c.files != {} ==> old_.files != {} || !IsDirectory(i))
    ensures old_.files != {} || HoldsFile(items)
  {
    hide IsDirectory;
    if old_.files == {} && c.files == {} {
      var k :| 0 <= k < |more| && !IsDirectory(more[k]);
      assert items[k + 1] == more[k];
    } else if old_.files == {} {
      assert items[0] == i;
    }
  }

  // ----- acceptance

  ghost predicate Described(fold: Path -> Path, bytes: seq<byte>) { exists items, tail :: ArchiveOf(fold, bytes, items, tail) }

  /** An archive of some items is accepted, and exactly its files are visited. */
  lemma ArchiveAccepted(fold: Path -> Path, bytes: seq<byte>, items: seq<Item>, tail: seq<byte>)
    requires ArchiveOf(fold, bytes, items, tail)
    ensures Walk(fold, bytes, START) == Outcome(FilesOf(items), None)
  {
    hide Walk, Laid, AllSound;
    CollisionCheckExact(Listing(fold, items));
    ItemsWalk(fold, items, tail, START);
  }

  /** The walk accepts exactly the archives: the format, said without the parser. */
  lemma AcceptedExactly(fold: Path -> Path, bytes: seq<byte>)
    ensures Walk(fold, bytes, START).refusal.None? <==> Described(fold, bytes)
  {
    hide Walk, Laid, AllSound;
    if Walk(fold, bytes, START).refusal.None? {
      var items, tail := ItemsFound(fold, bytes, START);
      CollisionCheckExact(Listing(fold, items));
      assert ArchiveOf(fold, bytes, items, tail);
    }
    if items, tail :| ArchiveOf(fold, bytes, items, tail) {
      ArchiveAccepted(fold, bytes, items, tail);
    }
  }

  lemma {:induction false} VisitedItem(items: seq<Item>, v: Visit) returns (k: nat)
    requires v in FilesOf(items)
    ensures k < |items| && !IsDirectory(items[k]) && v == Visit(items[k].path, |items[k].entry.payload|, Some(items[k].entry.payload))
  {
    hide IsDirectory;
    if !IsDirectory(items[0]) && v == Visit(items[0].path, |items[0].entry.payload|, Some(items[0].entry.payload)) {
      k := 0;
    } else {
      var n := VisitedItem(items[1..], v);
      k := n + 1;
    }
  }

  /** Every path visited in an accepted archive is tame, and leads down by each of its segments. */
  lemma VisitedTame(fold: Path -> Path, bytes: seq<byte>, v: Visit)
    requires Walk(fold, bytes, START).refusal.None? && v in Walk(fold, bytes, START).visits
    ensures Tame(v.path) && Follow(Split(v.path, SLASH)) == Place(0, Split(v.path, SLASH))
  {
    hide Walk, Tame, Follow, Split, Laid;
    AcceptedExactly(fold, bytes);
    var items, tail :| ArchiveOf(fold, bytes, items, tail);
    ArchiveAccepted(fold, bytes, items, tail);
    var k := VisitedItem(items, v);
    assert Sound(items[k]);
    TameNeverClimbs(v.path);
  }

  // ----- a file is handed over as soon as its header has been read

  /** Where, in an item's bytes, its own header ends. */
  ghost function HeaderEnd(i: Item): nat { (if i.pax.Some? then |PieceBytes(i.pax.value)| else 0) + |i.entry.header| }

  /** The files whose headers end within the first `n` bytes, by path and size. */
  ghost function Reached(items: seq<Item>, n: int): seq<(Path, nat)> {
    if items == [] || n < HeaderEnd(items[0]) then []
    else (if IsDirectory(items[0]) then [] else [(items[0].path, |items[0].entry.payload|)]) + Reached(items[1..], n - |ItemBytes(items[0])|)
  }

  lemma ShortTurn(fold: Path -> Path, bytes: seq<byte>, st: State)
    requires |bytes| < BLOCK
    ensures Walk(fold, bytes, st) == Outcome([], Some(Truncated))
  {
    hide HeaderOf, Checksum, PaxStep, EntryStep;
  }

  lemma FailedWalk(fold: Path -> Path, bytes: seq<byte>, st: State, visits: seq<Visit>, error: Error)
    requires StepOf(fold, bytes, st) == Failed(visits, error)
    ensures Walk(fold, bytes, st) == Outcome(visits, Some(error))
  {
    hide StepOf;
  }

  lemma EntryStepCut(fold: Path -> Path, i: Item, after: seq<byte>, st: State, next: State)
    requires |i.entry.header| == BLOCK && |after| < |i.entry.payload| + Pad(|i.entry.payload|)
    requires Enter(fold, st, i.entry.header, Header(i.entry.header[156], |i.entry.payload|)) == Ok((i.path, next))
    ensures var step := EntryStep(fold, st, i.entry.header, Header(i.entry.header[156], |i.entry.payload|), after);
            step.Failed? && step.error == Truncated && ArchiveCuts.Calls(step.visits) == if IsDirectory(i) then [] else [(i.path, |i.entry.payload|)]
  {
    hide Enter, Pad, Zero;
  }

  /** A piece cut after its header. */
  lemma CutPiece(p: Piece, bytes: seq<byte>)
    requires |p.header| == BLOCK <= |bytes| < |PieceBytes(p)| && bytes <= PieceBytes(p)
    ensures var after := bytes[BLOCK..];
            && bytes == p.header + after && |after| < |p.payload| + Pad(|p.payload|)
            && (|after| >= |p.payload| ==> after[..|p.payload|] == p.payload)
  {
    assert PieceBytes(p)[..BLOCK] == p.header;
    assert PieceBytes(p)[BLOCK..][..|p.payload|] == p.payload;
  }

  /** An entry cut off after its header is handed over, and then found truncated. */
  lemma EntryCut(fold: Path -> Path, i: Item, bytes: seq<byte>, st: State, c: Catalog)
    requires EntrySound(i) && st.extended == (if i.pax.Some? then Some(i.path) else None) && st.entries < REVIEW_ENTRY_MAX
    requires Admit(st.catalog, Listed(fold(i.place), IsDirectory(i))) == Ok(c)
    requires bytes <= PieceBytes(i.entry) && BLOCK <= |bytes| < |PieceBytes(i.entry)|
    ensures var o := Walk(fold, bytes, st);
            && o.refusal == Some(Truncated) && ArchiveCuts.Calls(o.visits) == if IsDirectory(i) then [] else [(i.path, |i.entry.payload|)]
  {
    var block, h, after := i.entry.header, Header(i.entry.header[156], |i.entry.payload|), bytes[BLOCK..];
    EntryEnters(fold, i, st, c);
    hide HeaderOf, Checksum, HeaderSays, Names, Tame, Enter, PaxStep, EntryStep, StepOf, Admit, Pad, Zero, PieceBytes, Walk, IsDirectory, ArchiveCuts.Calls;
    CutPiece(i.entry, bytes);
    EntryStepCut(fold, i, after, st, State(c, st.entries + 1, None));
    HeaderExactly(block, h.kind, h.size);
    HeaderNotBlank(block, h.kind, h.size);
    ArchiveRoundTrip.HeaderTurn(fold, block, h, after, st);
    var step := EntryStep(fold, st, block, h, after);
    assert h.kind != KIND_PAX by { SoundKind(i); }
    FailedWalk(fold, bytes, st, step.visits, Truncated);
  }

  lemma SoundKind(i: Item)
    requires EntrySound(i)
    ensures |i.entry.header| == BLOCK && i.entry.header[156] != KIND_PAX
  {
  }

  lemma PaxStepCut(st: State, p: Piece, after: seq<byte>, path: Path, named: Path)
    requires |p.header| == BLOCK && NamedPath(p.header) == Ok(named) && PortablePath(named).Ok? && st.extended.None?
    requires 0 < |p.payload| <= PAX_MAX && PaxPath(p.payload) == Ok(path) && |after| < |p.payload| + Pad(|p.payload|)
    requires |after| >= |p.payload| ==> after[..|p.payload|] == p.payload
    ensures PaxStep(st, p.header, Header(KIND_PAX, |p.payload|), after) == Failed([], Truncated)
  {
    hide NamedPath, PaxPath, Portable, Pad, Zero;
  }

  /** A PAX piece cut short is found truncated. */
  lemma PaxCut(fold: Path -> Path, p: Piece, path: Path, bytes: seq<byte>, st: State)
    requires PaxSound(p, path) && st.extended.None? && bytes <= PieceBytes(p) && |bytes| < |PieceBytes(p)|
    ensures Walk(fold, bytes, st) == Outcome([], Some(Truncated))
  {
    RecordSized(p.payload, path);
    hide HeaderOf, Checksum, HeaderSays, Names, Tame, NamedPath, PaxPath, Record, PaxStep, EntryStep, StepOf, Pad, Zero, Portable, Walk, PieceBytes;
    if |bytes| < BLOCK {
      ShortTurn(fold, bytes, st);
    } else {
      var after := bytes[BLOCK..];
      var named, place :| Names(p.header, named) && At(named, place);
      SaysBlock(p.header, 120, |p.payload|);
      CutPiece(p, bytes);
      NamesExactly(p.header, named);
      CheckedExactly(named, place);
      RecordExactly(p.payload, path);
      PaxStepCut(st, p, after, path, named);
      HeaderExactly(p.header, 120, |p.payload|);
      HeaderNotBlank(p.header, 120, |p.payload|);
      ArchiveRoundTrip.HeaderTurn(fold, p.header, Header(120, |p.payload|), after, st);
      FailedWalk(fold, bytes, st, [], Truncated);
    }
  }

  /** An item cut short: truncated, and handed over exactly if its header was all there. */
  lemma ItemCut(fold: Path -> Path, i: Item, bytes: seq<byte>, st: State, c: Catalog)
    requires Sound(i) && st.extended.None? && st.entries < REVIEW_ENTRY_MAX
    requires Admit(st.catalog, Listed(fold(i.place), IsDirectory(i))) == Ok(c)
    requires bytes <= ItemBytes(i) && |bytes| < |ItemBytes(i)|
    ensures var o := Walk(fold, bytes, st);
            && o.refusal == Some(Truncated)
            && ArchiveCuts.Calls(o.visits) == if |bytes| < HeaderEnd(i) || IsDirectory(i) then [] else [(i.path, |i.entry.payload|)]
  {
    hide Walk, StepOf, EntrySound, PaxSound, PieceBytes, Admit, IsDirectory;
    assert |i.entry.header| == BLOCK by { SoundKind(i); }
    if i.pax.None? {
      assert ItemBytes(i) == PieceBytes(i.entry);
      EntryPartly(fold, i, bytes, st, c);
    } else {
      var pax := PieceBytes(i.pax.value);
      if |bytes| < |pax| {
        assert bytes <= pax;
        PaxCut(fold, i.pax.value, i.path, bytes, st);
      } else {
        var named, after := st.(extended := Some(i.path)), bytes[|pax|..];
        assert bytes == pax + after && after <= PieceBytes(i.entry);
        PaxSteps(fold, i.pax.value, i.path, after, st);
        ArchiveRoundTrip.Turned(fold, bytes, st, [], named, after);
        EntryPartly(fold, i, after, named, c);
      }
    }
  }

  lemma EntryPartly(fold: Path -> Path, i: Item, bytes: seq<byte>, st: State, c: Catalog)
    requires EntrySound(i) && st.extended == (if i.pax.Some? then Some(i.path) else None) && st.entries < REVIEW_ENTRY_MAX
    requires Admit(st.catalog, Listed(fold(i.place), IsDirectory(i))) == Ok(c)
    requires bytes <= PieceBytes(i.entry) && |bytes| < |PieceBytes(i.entry)|
    ensures var o := Walk(fold, bytes, st);
            && o.refusal == Some(Truncated)
            && ArchiveCuts.Calls(o.visits) == if |bytes| < BLOCK || IsDirectory(i) then [] else [(i.path, |i.entry.payload|)]
  {
    hide Walk, StepOf, EntrySound, PieceBytes, Admit, IsDirectory;
    if |bytes| < BLOCK {
      ShortTurn(fold, bytes, st);
    } else {
      EntryCut(fold, i, bytes, st, c);
    }
  }

  lemma EndCut(fold: Path -> Path, bytes: seq<byte>, st: State)
    requires Blank(bytes) && |bytes| < 1024 && st.extended.None?
    ensures Walk(fold, bytes, st) == Outcome([], Some(Truncated))
  {
    hide HeaderOf, Checksum, PaxStep, EntryStep;
  }

  /** The first `n` bytes of an archive hand over exactly the files whose headers are among them; short of the end blocks they are truncated. */
  lemma {:induction false} HandedAsReached(fold: Path -> Path, items: seq<Item>, tail: seq<byte>, st: State, n: nat)
    requires AllSound(items) && |tail| >= 1024 && Blank(tail) && AdmitAll(st.catalog, Listing(fold, items)).Ok?
    requires st.extended.None? && st.entries + |items| <= REVIEW_ENTRY_MAX && n < |Laid(items)| + 1024
    ensures var o := Walk(fold, (Laid(items) + tail)[..n], st); o.refusal == Some(Truncated) && ArchiveCuts.Calls(o.visits) == Reached(items, n)
    decreases |items|
  {
    hide Walk, Sound, ItemBytes, Admit, IsDirectory, HeaderEnd, ArchiveCuts.Calls, FilesOf, Blank;
    if items == [] {
      assert Laid(items) + tail == tail;
      EndHanded(fold, tail, n, st);
    } else {
      var i, rest := items[0], items[1..];
      assert Listing(fold, items)[1..] == Listing(fold, rest);
      var c := Admit(st.catalog, Listed(fold(i.place), IsDirectory(i))).value;
      var own, later := ItemBytes(i), Laid(rest) + tail;
      assert Laid(items) + tail == own + later;
      HeaderInside(i);
      if n < |own| {
        assert (own + later)[..n] == own[..n];
        ItemCut(fold, i, own[..n], st, c);
        NothingReached(rest, n - |own|);
      } else {
        assert (own + later)[..n] == own + later[..n - |own|];
        HandedAsReached(fold, rest, tail, State(c, st.entries + 1, None), n - |own|);
        ItemWalks(fold, i, later[..n - |own|], st, c);
        FilesOfOne(i);
        var o := Walk(fold, later[..n - |own|], State(c, st.entries + 1, None));
        ArchiveCuts.CallsJoined(FilesOf([i]), o.visits);
      }
    }
  }

  lemma EndHanded(fold: Path -> Path, tail: seq<byte>, n: nat, st: State)
    requires Blank(tail) && n < 1024 <= |tail| && st.extended.None?
    ensures var o := Walk(fold, tail[..n], st); o.refusal == Some(Truncated) && ArchiveCuts.Calls(o.visits) == []
  {
    hide Walk;
    EndCut(fold, tail[..n], st);
  }

  lemma HeaderInside(i: Item)
    ensures 0 <= HeaderEnd(i) <= |ItemBytes(i)|
  {
  }

  lemma FilesOfOne(i: Item)
    ensures ArchiveCuts.Calls(FilesOf([i])) == if IsDirectory(i) then [] else [(i.path, |i.entry.payload|)]
  {
    assert [i][1..] == [] && FilesOf([]) == [];
  }

  lemma NothingReached(items: seq<Item>, n: int)
    requires n < 0
    ensures Reached(items, n) == []
  {
  }

  lemma ReachedFrom(fold: Path -> Path, bytes: seq<byte>, items: seq<Item>, tail: seq<byte>, n: nat)
    requires ArchiveOf(fold, bytes, items, tail) && n < |Laid(items)| + 1024
    ensures var o := Walk(fold, bytes[..n], START); o.refusal == Some(Truncated) && ArchiveCuts.Calls(o.visits) == Reached(items, n)
  {
    hide Walk, Laid, AllSound, Reached;
    CollisionCheckExact(Listing(fold, items));
    HandedAsReached(fold, items, tail, START, n);
  }

  // ----- the reason given is a true one

  /** What a header check's refusal says of the block. */
  ghost predicate HeaderFault(block: seq<byte>, error: Error)
    requires |block| == 512
  {
    match error
    case NotUstar => block[257..263] != [117, 115, 116, 97, 114, 0]
    case UnsupportedVersion => block[263..265] != [48, 48]
    case UnsupportedMetadata => !Blank(block[157..257]) || !Blank(block[265..297]) || !Blank(block[297..329])
    case HeaderPadding => !Blank(block[500..512])
    case ChecksumDiffers => !States(block[148..156], ByteSum(block[..148]) + 8 * 32 + ByteSum(block[156..]))
    case SpecialModeBits => forall mode: nat | States(block[100..108], mode) :: mode > 511
    case _ => true
  }

  lemma NumbersFault(block: seq<byte>, sum: nat)
    requires |block| == BLOCK && NumbersOf(block, sum).Err? && sum == Checksum(block, 0)
    ensures HeaderFault(block, NumbersOf(block, sum).error)
  {
    hide Octal, States, Blank, ByteSum, Checksum;
    ChecksumExactly(block);
    ByteSumPositive(block[..148]);
    ByteSumPositive(block[156..]);
    OctalExactly(block, 148, 8, sum);
    assert block[500..] == block[500..512];
    BlankIsZero(block[500..]);
    forall mode: nat | States(block[100..108], mode) ensures Octal(block, 100, 8) == Ok(mode) { OctalExactly(block, 100, 8, mode); }
    assert forall at: nat, length: nat | at + length <= BLOCK && Octal(block, at, length).Err? :: FieldFault(Octal(block, at, length).error) by { OctalFaults(block); }
    assert forall at: nat, length: nat | at + length <= BLOCK && Octal(block, at, length, true).Err? :: FieldFault(Octal(block, at, length, true).error) by { OctalFaults(block); }
  }

  /** A fault of one field. */
  predicate FieldFault(e: Error) { e.BytesAfterNul? || e.NotUtf8? || e.InvalidNumber? || e.NumberTooLarge? }

  lemma OctalFaults(block: seq<byte>)
    ensures forall at: nat, length: nat | at + length <= |block| && Octal(block, at, length).Err? :: FieldFault(Octal(block, at, length).error)
    ensures forall at: nat, length: nat | at + length <= |block| && Octal(block, at, length, true).Err? :: FieldFault(Octal(block, at, length, true).error)
    ensures forall at: nat, length: nat | at + length <= |block| && Field(block, at, length).Err? :: FieldFault(Field(block, at, length).error)
  {
    hide ValidUtf8, UpToNul, OctalValue, SkipSpaces;
  }

  lemma HeaderRefusedBecause(block: seq<byte>)
    requires |block| == BLOCK && HeaderOf(block, Checksum(block, 0)).Err?
    ensures HeaderFault(block, HeaderOf(block, Checksum(block, 0)).error)
  {
    hide Field, Checksum, NumbersOf, States, Blank, ByteSum;
    MagicExactly(block);
    BlankField(block, 157, 100);
    BlankField(block, 265, 32);
    BlankField(block, 297, 32);
    assert forall at: nat, length: nat | at + length <= |block| && Field(block, at, length).Err? :: FieldFault(Field(block, at, length).error) by { OctalFaults(block); }
    ChecksumExactly(block);
    ByteSumPositive(block[..148]);
    ByteSumPositive(block[156..]);
    if NumbersOf(block, Checksum(block, 0)).Err? {
      NumbersFault(block, Checksum(block, 0));
    }
  }

  /** What an entry's refusal says of it: its kind, its size, its path, its place among the others, or their number. */
  lemma EntryRefusedBecause(fold: Path -> Path, st: State, block: seq<byte>, h: Header)
    requires |block| == BLOCK && Enter(fold, st, block, h).Err?
    ensures match Enter(fold, st, block, h).error
            case LinkOrSpecial => h.kind != 0 && h.kind != 48 && h.kind != 53
            case DirectoryData => h.kind == 53 && h.size > 0
            case FileTooLarge => h.kind != 53 && h.size > 16 * 1024 * 1024
            case FileEndsInSlash => h.kind != 53
            case NotPortable => forall path, place | st.extended == Some(path) || (st.extended.None? && Names(block, path)) :: !At(path, place)
            case TooManyEntries => st.entries >= 10_000
            case _ => true
  {
    hide NamedPath, Names, At, PortablePath, AdmitPath;
    NoPortableName(block);
    var judged := if st.extended.Some? then st.extended.value else if NamedPath(block).Ok? then NamedPath(block).value else [];
    AdmitFaults(fold, st.catalog, judged, h.kind == KIND_DIRECTORY);
    if Enter(fold, st, block, h).error.NotPortable? {
      forall path, place | st.extended == Some(path) || (st.extended.None? && Names(block, path)) ensures !At(path, place) {
        NamesExactly(block, path);
        CheckedExactly(path, place);
      }
    }
  }

  lemma NoPortableName(block: seq<byte>)
    requires |block| == BLOCK
    ensures NamedPath(block).Err? ==> FieldFault(NamedPath(block).error)
  {
    hide Field;
    assert forall at: nat, length: nat | at + length <= |block| && Field(block, at, length).Err? :: FieldFault(Field(block, at, length).error) by { OctalFaults(block); }
  }

  /** An admission fails for the path itself only where it is not portable, and otherwise for the paths before it. */
  ghost predicate AdmitFault(fold: Path -> Path, c: Catalog, path: Path, directory: bool) {
    AdmitPath(fold, c, path, directory).Err? ==>
      var error := AdmitPath(fold, c, path, directory).error;
      if PortablePath(path).Err? then error.NotPortable? else error.PathsCollide? || error.FileAboveChild?
  }

  lemma AdmitFaults(fold: Path -> Path, c: Catalog, path: Path, directory: bool)
    ensures AdmitFault(fold, c, path, directory)
  {
    hide Portable, Parents;
  }
}
