/**
 * When the walk depends on how the stream was cut. Within the size limit it never does; over it,
 * exactly when the first 128 MiB would show a file, or give another refusal than the limit's.
 */
module ArchiveCuts {
  import opened Wrappers
  import opened Text
  import opened ArchivePaths
  import opened Ustar
  import opened ArchiveSpec
  import opened ArchiveWalk
  import opened UstarImage
  import opened ArchiveRoundTrip

  // ----- fewer bytes

  /** The files the visitor is called with, whether or not their bytes are all there. */
  ghost function Calls(visits: seq<Visit>): seq<(Path, nat)> {
    seq(|visits|, i requires 0 <= i < |visits| => (visits[i].path, visits[i].size))
  }

  /** What a turn over fewer bytes says of the turn over all of them. */
  ghost predicate Foretells(short: Step, long: Step) {
    match short
    case More(visits, next, rest) => long.More? && long.visits == visits && long.next == next && rest <= long.rest
    case Finished(rest) => long.Finished? && rest <= long.rest
    case Failed(visits, error) =>
      if Judged(error) then long == short
      else if long.Finished? then visits == [] else Calls(visits) <= Calls(long.visits)
  }

  lemma PaxForetold(st: State, block: seq<byte>, h: Header, short: seq<byte>, long: seq<byte>)
    requires |block| == BLOCK && short <= long
    ensures Foretells(PaxStep(st, block, h, short), PaxStep(st, block, h, long))
  {
    hide PaxAllowed, PaxPath, Pad, Zero;
    var end := h.size + Pad(h.size);
    if |short| >= h.size { assert short[..h.size] == long[..h.size]; }
    if |short| >= end { assert short[h.size..end] == long[h.size..end] && short[end..] <= long[end..]; }
  }

  lemma EntryForetold(fold: Path -> Path, st: State, block: seq<byte>, h: Header, short: seq<byte>, long: seq<byte>)
    requires |block| == BLOCK && short <= long
    ensures Foretells(EntryStep(fold, st, block, h, short), EntryStep(fold, st, block, h, long))
  {
    hide Enter, Pad, Zero;
    var end := h.size + Pad(h.size);
    if |short| >= h.size { assert short[..h.size] == long[..h.size]; }
    if |short| >= end { assert short[h.size..end] == long[h.size..end] && short[end..] <= long[end..]; }
  }

  lemma TurnForetold(fold: Path -> Path, short: seq<byte>, long: seq<byte>, st: State)
    requires short <= long
    ensures Foretells(StepOf(fold, short, st), StepOf(fold, long, st))
  {
    hide HeaderOf, Checksum, PaxStep, EntryStep, Zero;
    if |short| >= BLOCK {
      var block := short[..BLOCK];
      assert block == long[..BLOCK] && short[BLOCK..] <= long[BLOCK..];
      var header := HeaderOf(block, Checksum(block, 0));
      if header.Ok? {
        PaxForetold(st, block, header.value, short[BLOCK..], long[BLOCK..]);
        EntryForetold(fold, st, block, header.value, short[BLOCK..], long[BLOCK..]);
      }
      if |short| >= 2 * BLOCK {
        assert short[BLOCK..][..BLOCK] == long[BLOCK..][..BLOCK] && short[BLOCK..][BLOCK..] <= long[BLOCK..][BLOCK..];
      }
    }
  }

  lemma CallsJoined(a: seq<Visit>, b: seq<Visit>)
    ensures Calls(a + b) == Calls(a) + Calls(b)
  {
  }

  /** Fewer bytes call the visitor with the first files only, and a refusal for what was read stands. */
  lemma {:induction false} FewerBytes(fold: Path -> Path, short: seq<byte>, long: seq<byte>, st: State)
    requires short <= long
    ensures Calls(Walk(fold, short, st).visits) <= Calls(Walk(fold, long, st).visits)
    ensures var refusal := Walk(fold, short, st).refusal;
            refusal.Some? && Judged(refusal.value) ==> Walk(fold, long, st).refusal == refusal
    decreases |short|
  {
    hide StepOf, Zero;
    TurnForetold(fold, short, long, st);
    var s, l := StepOf(fold, short, st), StepOf(fold, long, st);
    if s.More? {
      FewerBytes(fold, s.rest, l.rest, s.next);
      CallsJoined(s.visits, Walk(fold, s.rest, s.next).visits);
      CallsJoined(s.visits, Walk(fold, l.rest, s.next).visits);
    } else if s.Finished? {
      ZeroPrefix(s.rest, l.rest);
    } else if l.More? {
      CallsJoined(l.visits, Walk(fold, l.rest, l.next).visits);
    }
  }

  lemma ZeroPrefix(short: seq<byte>, long: seq<byte>)
    requires short <= long
    ensures Zero(long) ==> Zero(short)
  {
    assert forall i | 0 <= i < |short| :: long[i] == short[i];
  }

  // ----- cuts

  /** What is in reach is the front of the stream, and within the limit. */
  lemma {:induction false} ReachIsPrefix(chunks: seq<seq<byte>>, expanded: nat)
    requires expanded <= REVIEW_TREE_MAX_BYTES
    ensures Reach(chunks, expanded) <= Flat(chunks) && expanded + |Reach(chunks, expanded)| <= REVIEW_TREE_MAX_BYTES
    decreases |chunks|
  {
    if chunks != [] && expanded + |chunks[0]| <= REVIEW_TREE_MAX_BYTES {
      ReachIsPrefix(chunks[1..], expanded + |chunks[0]|);
    }
  }

  /** Every way of cutting the bytes has the visitor see the same files. */
  ghost predicate VisitsRegardless(fold: Path -> Path, bytes: seq<byte>) {
    forall a, b | Flat(a) == bytes == Flat(b) :: Answer(fold, a).visits == Answer(fold, b).visits
  }

  /** Every way of cutting the bytes gives the same answer, refusal and all. */
  ghost predicate AnswersRegardless(fold: Path -> Path, bytes: seq<byte>) {
    forall a, b | Flat(a) == bytes == Flat(b) :: Answer(fold, a) == Answer(fold, b)
  }

  /** The longest stretch of a stream over the limit that any cut puts in reach. */
  ghost function Front(fold: Path -> Path, bytes: seq<byte>): Outcome
    requires |bytes| > REVIEW_TREE_MAX_BYTES
  {
    Walk(fold, bytes[..REVIEW_TREE_MAX_BYTES], START)
  }

  lemma CutAtLimit(fold: Path -> Path, bytes: seq<byte>)
    requires |bytes| > REVIEW_TREE_MAX_BYTES
    ensures var whole, cut := [bytes], [bytes[..REVIEW_TREE_MAX_BYTES], bytes[REVIEW_TREE_MAX_BYTES..]];
            && Flat(whole) == bytes == Flat(cut)
            && Answer(fold, whole) == Outcome([], Some(TooExpanded))
            && Answer(fold, cut) == Outcome(Front(fold, bytes).visits, Verdict(Front(fold, bytes).refusal, true))
  {
    hide Walk;
    var head, tail := bytes[..REVIEW_TREE_MAX_BYTES], bytes[REVIEW_TREE_MAX_BYTES..];
    assert head + tail == bytes;
    CutsDecideReach(fold, head, tail);
  }

  lemma WithinLimit(fold: Path -> Path, a: seq<seq<byte>>)
    requires |Flat(a)| <= REVIEW_TREE_MAX_BYTES
    ensures Answer(fold, a) == Walk(fold, Flat(a), START)
  {
    AllInReach(a, 0);
  }

  lemma WithinIfAccepted(fold: Path -> Path, a: seq<seq<byte>>)
    requires Answer(fold, a).refusal.None?
    ensures |Flat(a)| <= REVIEW_TREE_MAX_BYTES
  {
    hide Walk, Reach, Flat;
  }

  /** Over the limit, a stream whose front shows no file shows none however it is cut. */
  lemma BareFront(fold: Path -> Path, a: seq<seq<byte>>)
    requires |Flat(a)| > REVIEW_TREE_MAX_BYTES && Front(fold, Flat(a)).visits == []
    ensures Answer(fold, a).visits == []
    ensures Verdict(Front(fold, Flat(a)).refusal, true) == Some(TooExpanded) ==> Answer(fold, a).refusal == Some(TooExpanded)
  {
    hide Walk;
    ReachIsPrefix(a, 0);
    var bytes := Flat(a);
    assert Reach(a, 0) <= bytes[..REVIEW_TREE_MAX_BYTES];
    FewerBytes(fold, Reach(a, 0), bytes[..REVIEW_TREE_MAX_BYTES], START);
    assert |Calls(Answer(fold, a).visits)| <= |Calls(Front(fold, bytes).visits)| == 0;
  }

  /** The files visited depend on the bytes alone exactly within the limit, or when the bytes up to it show no file. */
  lemma VisitsExactly(fold: Path -> Path, bytes: seq<byte>)
    ensures VisitsRegardless(fold, bytes) <==> |bytes| <= REVIEW_TREE_MAX_BYTES || Front(fold, bytes).visits == []
  {
    hide Walk, Reach, Flat, Answer;
    if |bytes| <= REVIEW_TREE_MAX_BYTES {
      forall a | Flat(a) == bytes ensures Answer(fold, a) == Walk(fold, bytes, START) { WithinLimit(fold, a); }
    } else {
      CutAtLimit(fold, bytes);
      if Front(fold, bytes).visits == [] {
        forall a | Flat(a) == bytes ensures Answer(fold, a).visits == [] { BareFront(fold, a); }
      }
    }
  }

  /** The whole answer does exactly when, besides, the bytes up to the limit are refused for nothing but their end. */
  lemma AnswersExactly(fold: Path -> Path, bytes: seq<byte>)
    ensures AnswersRegardless(fold, bytes)
            <==> || |bytes| <= REVIEW_TREE_MAX_BYTES
                 || (Front(fold, bytes).visits == [] && Verdict(Front(fold, bytes).refusal, true) == Some(TooExpanded))
  {
    hide Walk, Reach, Flat, Answer, Verdict;
    if |bytes| <= REVIEW_TREE_MAX_BYTES {
      forall a | Flat(a) == bytes ensures Answer(fold, a) == Walk(fold, bytes, START) { WithinLimit(fold, a); }
    } else {
      CutAtLimit(fold, bytes);
      if Front(fold, bytes).visits == [] && Verdict(Front(fold, bytes).refusal, true) == Some(TooExpanded) {
        forall a | Flat(a) == bytes ensures Answer(fold, a) == Outcome([], Some(TooExpanded)) { BareFront(fold, a); }
      }
    }
  }

  /**
   * The failing family: any archive within the limit that would be accepted, with zeros after it to
   * pass the limit, is refused whole but visited first when it is cut at the limit.
   */
  lemma PaddedPastLimit(fold: Path -> Path, es: seq<Entry>, zeros: nat)
    requires AllWritable(es) && AllApart(Listing(fold, es)) && |es| <= REVIEW_ENTRY_MAX && HoldsFile(es)
    requires |Image(es)| <= REVIEW_TREE_MAX_BYTES < |Image(es)| + zeros
    ensures !VisitsRegardless(fold, Image(es) + Zeros(zeros))
  {
    hide Walk, Image, Writable;
    var bytes := Image(es) + Zeros(zeros);
    RoundTrip(fold, es);
    FilesHeld(es);
    assert Image(es) <= bytes[..REVIEW_TREE_MAX_BYTES];
    FewerBytes(fold, Image(es), bytes[..REVIEW_TREE_MAX_BYTES], START);
    assert |Calls(FilesOf(es))| > 0;
    VisitsExactly(fold, bytes);
  }

  lemma {:induction false} FilesHeld(es: seq<Entry>)
    requires HoldsFile(es)
    ensures FilesOf(es) != []
  {
    if es[0].directory {
      var i :| 0 <= i < |es| && !es[i].directory;
      assert es[1..][i - 1] == es[i];
      FilesHeld(es[1..]);
    }
  }

  /** One empty file named `a`. */
  const ONE: Entry := Entry([97], [], false, Tag([97], [], 420), None)

  lemma OneWritable()
    ensures Writable(ONE)
  {
    hide ValidUtf8, Split;
    SplitNone(ONE.path, SLASH);
    AsciiValid(ONE.path);
    AsciiValid([]);
  }

  /** An entry alone, without PAX record or content, takes a header and the end blocks. */
  lemma BareImage(e: Entry)
    requires Writable(e) && e.pax.None? && e.content == []
    ensures AllWritable([e]) && |Image([e])| == 3 * BLOCK
  {
    hide HeaderBlock, Writable;
    Sized(e);
    assert AllWritable([e]) && [e][1..] == [];
    assert |Image([e])| == |EntryImage(e)| + |Image([])|;
  }

  /** The smallest of it: one empty file, two end blocks, and 128 MiB of zeros. */
  lemma CutsCanDiffer(fold: Path -> Path)
    ensures AllWritable([ONE]) && !VisitsRegardless(fold, Image([ONE]) + Zeros(REVIEW_TREE_MAX_BYTES))
  {
    hide Image, Writable, VisitsRegardless;
    OneWritable();
    BareImage(ONE);
    assert [ONE][0] == ONE && |Listing(fold, [ONE])| == 1;
    PaddedPastLimit(fold, [ONE], REVIEW_TREE_MAX_BYTES);
  }
}
