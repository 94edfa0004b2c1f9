/**
 * A review archive as one function of its inflated bytes: the files it hands to a visitor, and why
 * it is refused if it is. No chunks, no buffer.
 */
module ArchiveSpec {
  import opened Wrappers
  import opened ArchivePaths
  import opened Ustar

  const REVIEW_TREE_MAX_BYTES := 128 * 1024 * 1024
  const REVIEW_ENTRY_MAX := 10_000

  /** One file handed to the visitor; its bytes when the archive holds them all. */
  datatype Visit = Visit(path: Path, size: nat, content: Option<seq<byte>>)

  datatype State = State(catalog: Catalog, entries: nat, extended: Option<Path>)

  const START := State(EMPTY, 0, None)

  datatype Step =
    | More(visits: seq<Visit>, next: State, rest: seq<byte>)
    | Finished(rest: seq<byte>)
    | Failed(visits: seq<Visit>, error: Error)

  function AdmitPath(fold: Path -> Path, c: Catalog, path: Path, directory: bool): (r: Result<Catalog>)
    ensures r.Err? ==> Judged(r.error)
  {
    var checked :- PortablePath(path);
    Admit(c, Listed(fold(checked), directory))
  }

  /** A file or directory entry's path and the state once it is admitted. */
  function Enter(fold: Path -> Path, st: State, block: seq<byte>, h: Header): (r: Result<(Path, State)>)
    requires |block| == BLOCK
    ensures r.Err? ==> Judged(r.error)
  {
    if h.kind != KIND_OLD_FILE && h.kind != KIND_FILE && h.kind != KIND_DIRECTORY then Err(LinkOrSpecial) else
    if h.kind == KIND_DIRECTORY && h.size != 0 then Err(DirectoryData) else
    if h.kind != KIND_DIRECTORY && h.size > REVIEW_FILE_MAX_BYTES then Err(FileTooLarge) else
    var named :- NamedPath(block);
    var path := if st.extended.Some? then st.extended.value else named;
    if h.kind != KIND_DIRECTORY && path != [] && path[|path| - 1] == SLASH then Err(FileEndsInSlash) else
    var catalog :- AdmitPath(fold, st.catalog, path, h.kind == KIND_DIRECTORY);
    if st.entries + 1 > REVIEW_ENTRY_MAX then Err(TooManyEntries) else
    Ok((path, State(catalog, st.entries + 1, None)))
  }

  /** What a PAX header must satisfy before its record is read. */
  function PaxAllowed(st: State, block: seq<byte>, h: Header): (r: Result<()>)
    requires |block| == BLOCK
    ensures r.Err? ==> Judged(r.error)
  {
    if st.extended.Some? then Err(PaxRepeated) else
    if h.size == 0 || h.size > PAX_MAX then Err(PaxOutOfBounds) else
    var named :- NamedPath(block);
    var _ :- PortablePath(named);
    Ok(())
  }

  function PaxStep(st: State, block: seq<byte>, h: Header, rest: seq<byte>): (step: Step)
    requires |block| == BLOCK
    ensures !step.Finished? && (step.More? ==> |step.rest| <= |rest|)
    ensures step.Failed? ==> !step.error.NoFiles?
  {
    var allowed := PaxAllowed(st, block, h);
    if allowed.Err? then Failed([], allowed.error)
    else if |rest| < h.size then Failed([], Truncated)
    else
      var path := PaxPath(rest[..h.size]);
      var end := h.size + Pad(h.size);
      if path.Err? then Failed([], path.error)
      else if |rest| < end then Failed([], Truncated)
      else if !Zero(rest[h.size..end]) then Failed([], PaxPadding)
      else More([], st.(extended := Some(path.value)), rest[end..])
  }

  function EntryStep(fold: Path -> Path, st: State, block: seq<byte>, h: Header, rest: seq<byte>): (step: Step)
    requires |block| == BLOCK
    ensures !step.Finished? && (step.More? ==> |step.rest| <= |rest|)
    ensures step.Failed? ==> !step.error.NoFiles?
  {
    var entered := Enter(fold, st, block, h);
    if entered.Err? then Failed([], entered.error)
    else
      var (path, next) := entered.value;
      var content := if |rest| < h.size then None else Some(rest[..h.size]);
      var visits := if h.kind == KIND_DIRECTORY then [] else [Visit(path, h.size, content)];
      var end := h.size + Pad(h.size);
      if |rest| < end then Failed(visits, Truncated)
      else if !Zero(rest[h.size..end]) then Failed(visits, EntryPadding)
      else More(visits, next, rest[end..])
  }

  /** One turn of the entry loop. */
  function StepOf(fold: Path -> Path, bytes: seq<byte>, st: State): (step: Step)
    ensures step.More? ==> |step.rest| < |bytes|
    ensures step.Failed? ==> !step.error.NoFiles?
  {
    hide HeaderOf, Checksum, PaxStep, EntryStep;
    if |bytes| < BLOCK then Failed([], Truncated)
    else
      var block, rest := bytes[..BLOCK], bytes[BLOCK..];
      if Zero(block) then
        if st.extended.Some? then Failed([], PaxWithoutEntry)
        else if |rest| < BLOCK then Failed([], Truncated)
        else if !Zero(rest[..BLOCK]) then Failed([], OneEndBlock)
        else Finished(rest[BLOCK..])
      else
        var header := HeaderOf(block, Checksum(block, 0));
        if header.Err? then Failed([], header.error)
        else if header.value.kind == KIND_PAX then PaxStep(st, block, header.value, rest)
        else EntryStep(fold, st, block, header.value, rest)
  }

  /** The files visited, in order, and the refusal if there is one. */
  datatype Outcome = Outcome(visits: seq<Visit>, refusal: Option<Error>)

  function Walk(fold: Path -> Path, bytes: seq<byte>, st: State): Outcome
    decreases |bytes|
  {
    match StepOf(fold, bytes, st)
    case Failed(visits, error) => Outcome(visits, Some(error))
    case Finished(rest) =>
      Outcome([], if !Zero(rest) then Some(DataAfterEnd) else if st.catalog.files == {} then Some(NoFiles) else None)
    case More(visits, next, rest) =>
      var later := Walk(fold, rest, next);
      Outcome(visits + later.visits, later.refusal)
  }

  /** What a visitor that reads only the entries it wants sees of the visits from number `from` on. */
  ghost function Seen(visits: seq<Visit>, wants: nat -> bool, from: nat): seq<Visit> {
    seq(|visits|, i requires 0 <= i < |visits| =>
      if wants(from + i) then visits[i] else visits[i].(content := None))
  }
}
