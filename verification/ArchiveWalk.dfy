/** `walkReviewArchive`: the walk over an arbitrarily chunked stream with a `pending` buffer. */
module ArchiveWalk {
  import opened Wrappers
  import opened Text
  import opened ArchivePaths
  import opened Ustar
  import opened ArchiveSpec

  ghost function Flat(chunks: seq<seq<byte>>): seq<byte> {
    if chunks == [] then [] else chunks[0] + Flat(chunks[1..])
  }

  /** The bytes that can be pulled before one more chunk would pass the size limit. */
  ghost function Reach(chunks: seq<seq<byte>>, expanded: nat): seq<byte> {
    if chunks == [] || expanded + |chunks[0]| > REVIEW_TREE_MAX_BYTES then []
    else chunks[0] + Reach(chunks[1..], expanded + |chunks[0]|)
  }

  /** Within the limit everything is in reach. */
  lemma {:induction false} AllInReach(chunks: seq<seq<byte>>, expanded: nat)
    requires expanded + |Flat(chunks)| <= REVIEW_TREE_MAX_BYTES
    ensures Reach(chunks, expanded) == Flat(chunks)
    decreases |chunks|
  {
    if chunks != [] {
      AllInReach(chunks[1..], expanded + |chunks[0]|);
    }
  }

  /** Past it, the cuts decide: the same bytes are walked up to a cut, or when they come whole not at all. */
  lemma CutsDecideReach(fold: Path -> Path, head: seq<byte>, tail: seq<byte>)
    requires |head| <= REVIEW_TREE_MAX_BYTES < |head + tail|
    ensures Flat([head + tail]) == Flat([head, tail]) == head + tail
    ensures Reach([head + tail], 0) == [] && Reach([head, tail], 0) == head
    ensures Walk(fold, Reach([head + tail], 0), START) == Outcome([], Some(Truncated))
  {
    assert [head, tail][1..] == [tail] && [tail][1..] == [] && [head + tail][1..] == [];
    assert Flat([tail]) == tail + [] && Flat([head, tail]) == head + Flat([tail]);
    assert Reach([tail], |head|) == [];
  }

  /** What a walk that would be truncated, or would end well, answers when the stream is over the limit. */
  ghost function Verdict(refusal: Option<Error>, over: bool): Option<Error> {
    if over && (refusal.None? || refusal.value.Truncated? || refusal.value.NoFiles?) then Some(TooExpanded) else refusal
  }

  /** The walk of a stream: the byte-level walk of what is in reach, with the limit's refusal if the stream is over it. */
  ghost function Answer(fold: Path -> Path, stream: seq<seq<byte>>): Outcome {
    var spec := Walk(fold, Reach(stream, 0), START);
    Outcome(spec.visits, Verdict(spec.refusal, |Flat(stream)| > REVIEW_TREE_MAX_BYTES))
  }

  lemma SliceOfRest(bytes: seq<byte>, n: nat, k: nat)
    requires n <= |bytes|
    ensures n + k <= |bytes| ==> bytes[n..][..k] == bytes[n..n + k] && bytes[n..][k..] == bytes[n + k..]
  {
  }

  lemma ZeroJoined(a: seq<byte>, b: seq<byte>)
    ensures Zero(a + b) <==> Zero(a) && Zero(b)
  {
    if Zero(a + b) {
      forall i | 0 <= i < |a| ensures a[i] == 0 { assert (a + b)[i] == a[i]; }
      forall i | 0 <= i < |b| ensures b[i] == 0 { assert (a + b)[|a| + i] == b[i]; }
    }
  }

  ghost function Joined(given: seq<Visit>, later: Outcome): Outcome { Outcome(given + later.visits, later.refusal) }

  ghost function AtEnd(rest: seq<byte>, c: Catalog): Outcome {
    Outcome([], if !Zero(rest) then Some(DataAfterEnd) else if c.files == {} then Some(NoFiles) else None)
  }

  lemma SeenJoined(a: seq<Visit>, b: seq<Visit>, wants: nat -> bool)
    ensures Seen(a + b, wants, 0) == Seen(a, wants, 0) + Seen(b, wants, |a|)
  {
  }

  lemma DropFront(all: seq<byte>, gone: nat, front: seq<byte>, back: seq<byte>, n: nat)
    requires n <= |front| && gone <= |all| && front + back == all[gone..]
    ensures gone + n <= |all| && front[n..] + back == all[gone + n..]
  {
    assert front[n..] + back == (front + back)[n..];
  }

  class Walker {
    /** What the inflated stream has yet to hand over. */
    var chunks: seq<seq<byte>>
    var pending: seq<byte>
    var expanded: nat
    var catalog: Catalog
    var entries: nat
    var extended: Option<Path>
    ghost const total: nat

    ghost predicate Valid() reads this { expanded + |Flat(chunks)| == total && expanded <= REVIEW_TREE_MAX_BYTES }

    /** The bytes still in reach: buffered, or in chunks that fit the limit. */
    ghost function Rest(): seq<byte> reads this { pending + Reach(chunks, expanded) }

    ghost function View(): State reads this { State(catalog, entries, extended) }

    ghost predicate OverLimit() { total > REVIEW_TREE_MAX_BYTES }

    /** How running out of bytes is refused. */
    ghost function Short(): Error { if OverLimit() then TooExpanded else Truncated }

    ghost function Heard(e: Error): Error { if e.Truncated? then Short() else e }

    constructor (stream: seq<seq<byte>>)
      ensures Valid() && Rest() == Reach(stream, 0) && View() == START && total == |Flat(stream)|
    {
      chunks, pending, expanded := stream, [], 0;
      catalog, entries, extended := EMPTY, 0, None;
      total := |Flat(stream)|;
    }

    /** One more chunk into the buffer; false at the end of the stream. */
    method Pull() returns (r: Result<bool>)
      requires Valid()
      modifies this`chunks, this`pending, this`expanded
      ensures r.Ok? ==> Valid()
      ensures r.Ok? && r.value ==> Rest() == old(Rest()) && |chunks| < |old(chunks)| && old(pending) <= pending
      ensures r.Ok? && !r.value ==> pending == old(pending) == Rest() == old(Rest()) && !OverLimit()
      ensures r.Err? ==> r.error == TooExpanded && OverLimit() && old(Rest()) == old(pending)
    {
      if chunks == [] {
        return Ok(false);
      }
      var next := chunks[0];
      chunks := chunks[1..];
      expanded := expanded + |next|;
      if expanded > REVIEW_TREE_MAX_BYTES {
        return Err(TooExpanded);
      }
      pending := pending + next;
      return Ok(true);
    }

    method Read(length: nat) returns (r: Result<seq<byte>>)
      requires Valid()
      modifies this`chunks, this`pending, this`expanded
      ensures r.Ok? ==> Valid()
      ensures r.Ok? ==> |old(Rest())| >= length && r.value == old(Rest())[..length] && Rest() == old(Rest())[length..]
      ensures r.Err? ==> r.error == Short() && |old(Rest())| < length
    {
      while |pending| < length
        invariant Valid() && Rest() == old(Rest())
        decreases |chunks|
      {
        var more := Pull();
        if more.Err? {
          return Err(more.error);
        }
        if !more.value {
          return Err(Truncated);
        }
      }
      r := Ok(pending[..length]);
      pending := pending[length..];
    }

    method Discard(length: nat) returns (r: Result<()>)
      requires Valid()
      modifies this`chunks, this`pending, this`expanded
      ensures r.Ok? ==> Valid()
      ensures r.Ok? ==> |old(Rest())| >= length && Rest() == old(Rest())[length..]
      ensures r.Err? ==> r.error == Short() && |old(Rest())| < length
    {
      hide Flat, Reach;
      var left := length;
      ghost var all := Rest();
      while left > 0
        invariant Valid() && 0 <= left <= length && length - left <= |all|
        invariant Rest() == all[length - left..]
        decreases |chunks|, left
      {
        if pending == [] {
          var more := Pull();
          if more.Err? {
            return Err(more.error);
          }
          if !more.value {
            return Err(Truncated);
          }
        }
        var n := if left <= |pending| then left else |pending|;
        DropFront(all, length - left, pending, Reach(chunks, expanded), n);
        pending := pending[n..];
        left := left - n;
      }
      r := Ok(());
    }

    /** The collision check, building the parents part by part. */
    method ArchivePath(fold: Path -> Path, path: Path, directory: bool) returns (r: Result<()>)
      modifies this`catalog
      ensures r.Ok? <==> AdmitPath(fold, old(catalog), path, directory).Ok?
      ensures r.Ok? ==> AdmitPath(fold, old(catalog), path, directory) == Ok(catalog)
      ensures r.Err? ==> AdmitPath(fold, old(catalog), path, directory) == Err(r.error)
    {
      var checked := PortablePath(path);
      if checked.Err? {
        return Err(checked.error);
      }
      var folded := fold(checked.value);
      if folded in catalog.seen || (!directory && folded in catalog.implied) {
        return Err(PathsCollide);
      }
      var parts := Split(folded, SLASH);
      for i := 1 to |parts|
        invariant catalog == old(catalog).(implied := old(catalog).implied + set k | 1 <= k < i :: Parent(folded, k))
        invariant forall k | 1 <= k < i :: Parent(folded, k) !in old(catalog).files
      {
        var parent := Join(parts[..i], SLASH);
        assert parent == Parent(folded, i);
        if parent in catalog.files {
          assert parent in Parents(folded);
          return Err(FileAboveChild);
        }
        catalog := catalog.(implied := catalog.implied + {parent});
      }
      if !directory {
        catalog := catalog.(files := catalog.files + {folded});
      }
      catalog := catalog.(seen := catalog.seen + {folded});
      r := Ok(());
    }

    static method SumBlock(block: seq<byte>) returns (checksum: int)
      requires |block| == BLOCK
      ensures checksum == Checksum(block, 0)
    {
      checksum := 0;
      for i := 0 to BLOCK
        invariant checksum + Checksum(block, i) == Checksum(block, 0)
      {
        checksum := checksum + if 148 <= i < 156 then 32 else block[i];
      }
    }

    /** `r`, `visits` and what is left agree with one turn of the byte-level loop. */
    ghost predicate Agrees(step: Step, r: Result<bool>, visits: seq<Visit>, wants: nat -> bool, index: nat)
      reads this
    {
      match step
      case More(v, next, rest) => r == Ok(true) && visits == Seen(v, wants, index) && View() == next && Rest() == rest
      case Finished(rest) => r == Ok(false) && visits == [] && Rest() == rest
      case Failed(v, error) => r == Err(Heard(error)) && visits == Seen(v, wants, index)
    }

    /** The zero padding after `size` bytes; anything else there is refused as `bad`. */
    method ReadPadding(size: nat, bad: Error) returns (r: Result<bool>)
      requires Valid()
      modifies this`chunks, this`pending, this`expanded
      ensures r.Ok? ==> Valid()
      ensures var rest, n := old(Rest()), Pad(size);
              || (r == Err(Short()) && |rest| < n)
              || (r == Err(bad) && |rest| >= n && !Zero(rest[..n]))
              || (r == Ok(true) && |rest| >= n && Zero(rest[..n]) && Rest() == rest[n..])
    {
      var pad := Read(Pad(size));
      if pad.Err? {
        return Err(pad.error);
      }
      r := if Zero(pad.value) then Ok(true) else Err(bad);
    }

    method ReadPax(block: seq<byte>, h: Header) returns (r: Result<bool>)
      requires Valid() && |block| == BLOCK
      modifies this`chunks, this`pending, this`expanded, this`extended
      ensures r.Ok? ==> Valid()
      ensures var step := PaxStep(old(View()), block, h, old(Rest()));
              Agrees(step, r, [], _ => false, 0)
    {
      hide PaxPath, PaxAllowed, Flat, Reach;
      var allowed := PaxAllowed(State(catalog, entries, extended), block, h);
      if allowed.Err? {
        return Err(allowed.error);
      }
      var payload := Read(h.size);
      if payload.Err? {
        return Err(payload.error);
      }
      var path := PaxPath(payload.value);
      if path.Err? {
        return Err(path.error);
      }
      extended := Some(path.value);
      r := ReadPadding(h.size, PaxPadding);
      SliceOfRest(old(Rest()), h.size, Pad(h.size));
    }

    /** The entry's own checks, then the collision check, then the count. */
    method EnterEntry(fold: Path -> Path, block: seq<byte>, h: Header) returns (r: Result<Path>)
      requires |block| == BLOCK
      modifies this`catalog, this`entries, this`extended
      ensures var entered := Enter(fold, old(View()), block, h);
              if entered.Err? then r == Err(entered.error) else r == Ok(entered.value.0) && View() == entered.value.1
    {
      hide NamedPath, AdmitPath;
      if h.kind != KIND_OLD_FILE && h.kind != KIND_FILE && h.kind != KIND_DIRECTORY {
        return Err(LinkOrSpecial);
      }
      if h.kind == KIND_DIRECTORY && h.size != 0 {
        return Err(DirectoryData);
      }
      if h.kind != KIND_DIRECTORY && h.size > REVIEW_FILE_MAX_BYTES {
        return Err(FileTooLarge);
      }
      var named := NamedPath(block);
      if named.Err? {
        return Err(named.error);
      }
      var path := if extended.Some? then extended.value else named.value;
      if h.kind != KIND_DIRECTORY && path != [] && path[|path| - 1] == SLASH {
        return Err(FileEndsInSlash);
      }
      var admitted := ArchivePath(fold, path, h.kind == KIND_DIRECTORY);
      if admitted.Err? {
        return Err(admitted.error);
      }
      extended := None;
      entries := entries + 1;
      if entries > REVIEW_ENTRY_MAX {
        return Err(TooManyEntries);
      }
      r := Ok(path);
    }

    /** The entry's bytes, handed over or passed by. */
    method TakeContent(size: nat, want: bool) returns (r: Result<Option<seq<byte>>>)
      requires Valid()
      modifies this`chunks, this`pending, this`expanded
      ensures r.Ok? ==> Valid()
      ensures var rest := old(Rest());
              || (r == Err(Short()) && |rest| < size)
              || (|rest| >= size && r == Ok(if want then Some(rest[..size]) else None) && Rest() == rest[size..])
    {
      if want {
        var content := Read(size);
        r := if content.Err? then Err(content.error) else Ok(Some(content.value));
      } else {
        var skipped := Discard(size);
        r := if skipped.Err? then Err(skipped.error) else Ok(None);
      }
    }

    method ReadEntry(fold: Path -> Path, wants: nat -> bool, index: nat, block: seq<byte>, h: Header)
      returns (r: Result<bool>, visits: seq<Visit>)
      requires Valid() && |block| == BLOCK
      modifies this
      ensures r.Ok? ==> Valid()
      ensures var step := EntryStep(fold, old(View()), block, h, old(Rest()));
              Agrees(step, r, visits, wants, index)
    {
      hide Enter, Flat, Reach;
      var path := EnterEntry(fold, block, h);
      if path.Err? {
        return Err(path.error), [];
      }
      var visited := h.kind != KIND_DIRECTORY;
      visits := if visited then [Visit(path.value, h.size, None)] else [];
      var content := TakeContent(h.size, visited && wants(index));
      if content.Err? {
        return Err(content.error), visits;
      }
      visits := if visited then [Visit(path.value, h.size, content.value)] else [];
      r := ReadPadding(h.size, EntryPadding);
      SliceOfRest(old(Rest()), h.size, Pad(h.size));
    }

    method NextEntry(fold: Path -> Path, wants: nat -> bool, index: nat) returns (r: Result<bool>, visits: seq<Visit>)
      requires Valid()
      modifies this
      ensures r.Ok? ==> Valid()
      ensures r == Ok(false) ==> View() == old(View())
      ensures var step := StepOf(fold, old(Rest()), old(View()));
              Agrees(step, r, visits, wants, index)
    {
      hide HeaderOf, Checksum, PaxStep, EntryStep, Flat, Reach;
      var block := Read(BLOCK);
      if block.Err? {
        return Err(block.error), [];
      }
      if Zero(block.value) {
        if extended.Some? {
          return Err(PaxWithoutEntry), [];
        }
        var second := Read(BLOCK);
        if second.Err? {
          return Err(second.error), [];
        }
        return if Zero(second.value) then Ok(false) else Err(OneEndBlock), [];
      }
      var checksum := SumBlock(block.value);
      var header := HeaderOf(block.value, checksum);
      if header.Err? {
        return Err(header.error), [];
      }
      if header.value.kind == KIND_PAX {
        visits := [];
        r := ReadPax(block.value, header.value);
      } else {
        r, visits := ReadEntry(fold, wants, index, block.value, header.value);
      }
    }

    /** Only zeros may follow the end blocks, and all of them count against the limit. */
    method Drain() returns (r: Result<()>)
      requires Valid()
      modifies this
      ensures r == if !Zero(old(Rest())) then Err(DataAfterEnd) else if OverLimit() then Err(TooExpanded) else Ok(())
      ensures catalog == old(catalog)
    {
      ZeroJoined(pending, Reach(chunks, expanded));
      if !Zero(pending) {
        return Err(DataAfterEnd);
      }
      pending := [];
      while chunks != []
        invariant Valid() && catalog == old(catalog)
        invariant Zero(old(Rest())) <==> Zero(Reach(chunks, expanded))
        decreases |chunks|
      {
        var tail := chunks[0];
        ZeroJoined(tail, Reach(chunks[1..], expanded + |tail|));
        chunks := chunks[1..];
        expanded := expanded + |tail|;
        if expanded > REVIEW_TREE_MAX_BYTES {
          return Err(TooExpanded);
        }
        if !Zero(tail) {
          return Err(DataAfterEnd);
        }
      }
      r := Ok(());
    }

    /** The walk refines the byte-level one over the bytes in reach, however they are chunked and whichever entries are read. */
    method Run(fold: Path -> Path, wants: nat -> bool) returns (refusal: Option<Error>, visits: seq<Visit>)
      requires Valid() && View() == START
      modifies this
      ensures var spec := Walk(fold, old(Rest()), START);
              refusal == Verdict(spec.refusal, OverLimit()) && visits == Seen(spec.visits, wants, 0)
    {
      hide StepOf, Flat, Reach;
      visits := [];
      ghost var spec := Walk(fold, Rest(), START);
      ghost var given: seq<Visit> := [];
      var more := true;
      while more
        invariant Valid()
        invariant visits == Seen(given, wants, 0)
        invariant more ==> spec == Joined(given, Walk(fold, Rest(), View()))
        invariant !more ==> spec == Joined(given, AtEnd(Rest(), catalog))
        decreases more, |Rest()|
      {
        ghost var step := StepOf(fold, Rest(), View());
        var turn, seen := NextEntry(fold, wants, |visits|);
        if !step.Finished? {
          SeenJoined(given, step.visits, wants);
        }
        visits := visits + seen;
        if turn.Err? {
          return Some(turn.error), visits;
        }
        more := turn.value;
        if more {
          given := given + step.visits;
        }
      }
      assert given + [] == given;
      var drained := Drain();
      if drained.Err? {
        return Some(drained.error), visits;
      }
      refusal := if catalog.files == {} then Some(NoFiles) else None;
    }
  }

  /**
   * The whole walk. For a stream within the limit, refusal and visits are the byte-level walk's, so
   * they depend on its bytes alone, not on how they were cut nor on which entries the visitor read;
   * a stream over it is always refused.
   */
  method WalkReviewArchive(stream: seq<seq<byte>>, fold: Path -> Path, wants: nat -> bool)
    returns (refusal: Option<Error>, visits: seq<Visit>)
    ensures refusal == Answer(fold, stream).refusal && visits == Seen(Answer(fold, stream).visits, wants, 0)
    ensures |Flat(stream)| <= REVIEW_TREE_MAX_BYTES ==>
              var spec := Walk(fold, Flat(stream), START);
              && refusal == spec.refusal && |visits| == |spec.visits|
              && forall i | 0 <= i < |visits| :: visits[i] == if wants(i) then spec.visits[i] else Visit(spec.visits[i].path, spec.visits[i].size, None)
    ensures |Flat(stream)| > REVIEW_TREE_MAX_BYTES ==> refusal.Some?
  {
    hide Walk;
    if |Flat(stream)| <= REVIEW_TREE_MAX_BYTES {
      AllInReach(stream, 0);
    }
    var walker := new Walker(stream);
    refusal, visits := walker.Run(fold, wants);
  }
}
