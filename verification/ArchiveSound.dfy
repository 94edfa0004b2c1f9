/** What an accepted archive is known to hold, whatever bytes it came as. */
module ArchiveSound {
  import opened Wrappers
  import opened ArchivePaths
  import opened Ustar
  import opened ArchiveSpec
  import UstarImage

  /** A file handed over whole, under a portable path that is text, within the file limit. */
  ghost predicate WholeFile(v: Visit) {
    && v.content.Some? && |v.content.value| == v.size <= REVIEW_FILE_MAX_BYTES
    && Checked(v.path) == v.path && Portable(v.path) && ValidUtf8(v.path)
  }

  function FileAt(fold: Path -> Path, v: Visit): Listed { Listed(fold(v.path), false) }

  ghost predicate FilesApart(fold: Path -> Path, visits: seq<Visit>) {
    forall i, j | 0 <= i < j < |visits| :: Apart(FileAt(fold, visits[i]), FileAt(fold, visits[j]))
  }

  /** Nothing admitted so far stands in a file's way. */
  ghost predicate ClearOf(c: Catalog, folded: Path) {
    folded !in c.seen && folded !in c.implied && forall p | p in Parents(folded) :: p !in c.files
  }

  ghost predicate Grows(c: Catalog, d: Catalog) { c.seen <= d.seen && c.files <= d.files && c.implied <= d.implied }

  /** One turn of the loop: at most one file, whole and clear of what came before, and then remembered. */
  ghost predicate SoundTurn(fold: Path -> Path, st: State, step: Step)
    requires step.More?
  {
    && Grows(st.catalog, step.next.catalog) && st.entries <= step.next.entries <= REVIEW_ENTRY_MAX
    && st.entries + |step.visits| <= step.next.entries
    && (step.visits != [] ==>
          && |step.visits| == 1 && WholeFile(step.visits[0]) && ClearOf(st.catalog, fold(step.visits[0].path))
          && Admit(st.catalog, FileAt(fold, step.visits[0])) == Ok(step.next.catalog))
    && (step.visits == [] ==> step.next.catalog.files == st.catalog.files)
    && TextAhead(step.next)
  }

  /** A PAX path waiting for its entry is text. */
  ghost predicate TextAhead(st: State) { st.extended.Some? ==> ValidUtf8(st.extended.value) }

  lemma NamedIsText(block: seq<byte>)
    requires |block| == BLOCK
    ensures NamedPath(block).Ok? ==> ValidUtf8(NamedPath(block).value)
  {
    hide ValidUtf8, UpToNul, Zero;
    if NamedPath(block).Ok? {
      var name, prefix := Field(block, 0, 100).value, Field(block, 345, 155).value;
      UstarImage.AsciiValid([SLASH]);
      UstarImage.Utf8Joined(prefix, [SLASH]);
      UstarImage.Utf8Joined(prefix + [SLASH], name);
    }
  }

  lemma PaxIsText(payload: seq<byte>)
    ensures PaxPath(payload).Ok? ==> ValidUtf8(PaxPath(payload).value)
  {
    hide ValidUtf8, DigitCount, DecimalValue;
    if PaxPath(payload).Ok? {
      var n := DigitCount(payload);
      var path := PaxPath(payload).value;
      var rest := payload[n..];
      assert rest[..6][5] == 61 && rest[5] == 61;
      assert payload == payload[..n + 5] + [61] + (path + [NEWLINE]);
      UstarImage.Utf8Cut(payload[..n + 5], 61, path + [NEWLINE]);
      assert path + [NEWLINE] == path + [NEWLINE] + [];
      UstarImage.Utf8Cut(path, NEWLINE, []);
    }
  }

  lemma EnterSound(fold: Path -> Path, st: State, block: seq<byte>, h: Header, path: Path, next: State)
    requires |block| == BLOCK && Enter(fold, st, block, h) == Ok((path, next)) && TextAhead(st)
    ensures next.extended.None? && ValidUtf8(path)
    ensures Grows(st.catalog, next.catalog) && next.entries == st.entries + 1 <= REVIEW_ENTRY_MAX
    ensures h.kind == KIND_DIRECTORY ==> next.catalog.files == st.catalog.files && h.size == 0
    ensures h.kind != KIND_DIRECTORY ==>
              && h.size <= REVIEW_FILE_MAX_BYTES && Checked(path) == path && Portable(path)
              && ClearOf(st.catalog, fold(path)) && Admit(st.catalog, Listed(fold(path), false)) == Ok(next.catalog)
  {
    hide NamedPath, Portable, Parents, ValidUtf8;
    NamedIsText(block);
  }

  lemma StepSound(fold: Path -> Path, bytes: seq<byte>, st: State)
    requires StepOf(fold, bytes, st).More? && st.entries <= REVIEW_ENTRY_MAX && TextAhead(st)
    ensures SoundTurn(fold, st, StepOf(fold, bytes, st))
  {
    hide HeaderOf, Checksum, Enter, PaxPath, PaxAllowed, Portable, Parents, Pad, ValidUtf8;
    var block, rest := bytes[..BLOCK], bytes[BLOCK..];
    var h := HeaderOf(block, Checksum(block, 0)).value;
    if h.kind != KIND_PAX {
      var (path, next) := Enter(fold, st, block, h).value;
      EnterSound(fold, st, block, h, path, next);
    } else {
      PaxIsText(rest[..h.size]);
    }
  }

  lemma ClearBefore(c: Catalog, d: Catalog, folded: Path)
    requires Grows(c, d) && ClearOf(d, folded)
    ensures ClearOf(c, folded)
  {
  }

  /** What is clear of a catalog that holds a file is apart from that file. */
  lemma ClearIsApart(c: Catalog, e: Listed, d: Catalog, folded: Path)
    requires !e.directory && Admit(c, e) == Ok(d) && ClearOf(d, folded)
    ensures Apart(e, Listed(folded, false))
  {
    ParentsAreAbove(folded, e.folded);
    ParentsAreAbove(e.folded, folded);
  }

  lemma {:induction false} WalkSound(fold: Path -> Path, bytes: seq<byte>, st: State)
    requires st.entries <= REVIEW_ENTRY_MAX && TextAhead(st)
    ensures Walk(fold, bytes, st).refusal.None? ==>
            var visits := Walk(fold, bytes, st).visits;
            && (forall i | 0 <= i < |visits| :: WholeFile(visits[i]) && ClearOf(st.catalog, fold(visits[i].path)))
            && FilesApart(fold, visits)
            && st.entries + |visits| <= REVIEW_ENTRY_MAX
            && (st.catalog.files != {} || visits != [])
    decreases |bytes|
  {
    hide StepOf, WholeFile, ClearOf, Apart, Admit, Grows, TextAhead;
    var step := StepOf(fold, bytes, st);
    if step.More? && Walk(fold, bytes, st).refusal.None? {
      StepSound(fold, bytes, st);
      WalkSound(fold, step.rest, step.next);
      var visits, later := Walk(fold, bytes, st).visits, Walk(fold, step.rest, step.next).visits;
      assert visits == step.visits + later;
      forall i | 0 <= i < |later| ensures ClearOf(st.catalog, fold(later[i].path)) && (step.visits != [] ==> Apart(FileAt(fold, step.visits[0]), FileAt(fold, later[i]))) {
        ClearBefore(st.catalog, step.next.catalog, fold(later[i].path));
        if step.visits != [] {
          ClearIsApart(st.catalog, FileAt(fold, step.visits[0]), step.next.catalog, fold(later[i].path));
        }
      }
    }
  }

  /**
   * Acceptance is sound: however the bytes came about, every file an accepted archive hands over is
   * whole, within the file limit and portably named, no two collide once folded, there is at least
   * one and there are at most the entry limit.
   */
  lemma AcceptedIsSound(fold: Path -> Path, bytes: seq<byte>)
    ensures Walk(fold, bytes, START).refusal.None? ==>
            var visits := Walk(fold, bytes, START).visits;
            && 1 <= |visits| <= REVIEW_ENTRY_MAX && FilesApart(fold, visits)
            && forall i | 0 <= i < |visits| :: WholeFile(visits[i])
  {
    assert TextAhead(START);
    hide TextAhead, WholeFile, Walk;
    WalkSound(fold, bytes, START);
  }
}
