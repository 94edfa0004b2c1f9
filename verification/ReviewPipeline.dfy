/**
 * The review from stored bytes to kept findings: the archives the diff reads are what the walk hands
 * over, so what is proved of accepted archives holds of the files the diff accounts for.
 */
module ReviewPipeline {
  import opened Wrappers
  import opened ArchivePaths
  import opened Ustar
  import opened ArchiveSpec
  import opened ArchiveWalk
  import ArchiveSound
  import ArchiveCuts
  import opened ReviewDiff
  import opened ReviewReader

  /** A text decoder: two paths that are text are never confused. */
  ghost predicate Decodes(decode: Path -> string) {
    forall p, q | ValidUtf8(p) && ValidUtf8(q) && decode(p) == decode(q) :: p == q
  }

  /** The files a visitor that reads everything gets, up to one whose bytes do not all come. */
  ghost function Handed(decode: Path -> string, visits: seq<Visit>): seq<File> {
    if visits == [] || visits[0].content.None? then []
    else [ReviewDiff.File(decode(visits[0].path), visits[0].content.value)] + Handed(decode, visits[1..])
  }

  /** An archive opened as this stream. */
  ghost function Opened(fold: Path -> Path, decode: Path -> string, stream: seq<seq<byte>>, intact: bool): Archive {
    var answer := Answer(fold, stream);
    Archive(Handed(decode, answer.visits), answer.refusal.Some?, intact)
  }

  ghost predicate AllWhole(visits: seq<Visit>) { forall i | 0 <= i < |visits| :: ArchiveSound.WholeFile(visits[i]) }

  lemma {:induction false} AllHanded(decode: Path -> string, visits: seq<Visit>)
    requires AllWhole(visits)
    ensures var files := Handed(decode, visits);
            |files| == |visits| && forall i | 0 <= i < |files| :: files[i] == ReviewDiff.File(decode(visits[i].path), visits[i].content.value)
  {
    if visits != [] {
      assert ArchiveSound.WholeFile(visits[0]);
      forall i | 0 <= i < |visits[1..]| ensures ArchiveSound.WholeFile(visits[1..][i]) { assert visits[1..][i] == visits[i + 1]; }
      AllHanded(decode, visits[1..]);
    }
  }

  /** An accepted stream is within the limit, so its answer is the walk of its bytes. */
  lemma AcceptedWithin(fold: Path -> Path, stream: seq<seq<byte>>)
    requires Answer(fold, stream).refusal.None?
    ensures |Flat(stream)| <= REVIEW_TREE_MAX_BYTES && Answer(fold, stream) == Walk(fold, Flat(stream), START)
  {
    hide Walk;
    ArchiveCuts.WithinIfAccepted(fold, stream);
    ArchiveCuts.WithinLimit(fold, stream);
  }

  /** The files of an accepted archive have distinct paths, and there is at least one. */
  lemma AcceptedDistinct(fold: Path -> Path, decode: Path -> string, stream: seq<seq<byte>>, intact: bool)
    requires Decodes(decode) && !Opened(fold, decode, stream, intact).refused
    ensures DistinctPaths(Opened(fold, decode, stream, intact).files) && Opened(fold, decode, stream, intact).files != []
  {
    hide Walk, ArchiveSound.WholeFile, Answer, ValidUtf8;
    AcceptedWithin(fold, stream);
    ArchiveSound.AcceptedIsSound(fold, Flat(stream));
    var visits := Answer(fold, stream).visits;
    AllHanded(decode, visits);
    var files := Handed(decode, visits);
    forall i, j | 0 <= i < j < |files| ensures files[i].path != files[j].path {
      PathsDiffer(fold, decode, visits[i], visits[j]);
    }
  }

  lemma PathsDiffer(fold: Path -> Path, decode: Path -> string, v: Visit, u: Visit)
    requires Decodes(decode) && ArchiveSound.WholeFile(v) && ArchiveSound.WholeFile(u)
    requires Apart(ArchiveSound.FileAt(fold, v), ArchiveSound.FileAt(fold, u))
    ensures decode(v.path) != decode(u.path)
  {
    hide ValidUtf8;
    assert fold(v.path) != fold(u.path);
  }

  /** The same bytes opened again, however they are cut this time, hand over the same files. */
  lemma OpenedAgain(fold: Path -> Path, decode: Path -> string, stream: seq<seq<byte>>, again: seq<seq<byte>>, intact: bool)
    requires Flat(stream) == Flat(again) && !Opened(fold, decode, stream, intact).refused
    ensures Opened(fold, decode, again, intact) == Opened(fold, decode, stream, intact)
  {
    hide Walk;
    AcceptedWithin(fold, stream);
    ArchiveCuts.WithinLimit(fold, again);
  }

  /**
   * The accounting of two accepted archives, with nothing assumed of their files: every source path
   * is exactly one of unchanged, sent or recorded as not sent; with an injective hash, unchanged
   * means the base holds the same bytes under it.
   */
  lemma EveryPathAccounted<D>(w: World<D>, fold: Path -> Path, decode: Path -> string, base: seq<seq<byte>>, source: seq<seq<byte>>, k: nat)
    requires Decodes(decode) && Injective(w.hash)
    requires var b, s := Opened(fold, decode, base, true), Opened(fold, decode, source, true); !b.refused && !s.refused && k < |s.files|
    ensures var b, s := Opened(fold, decode, base, true), Opened(fold, decode, source, true);
            var g, f := Gather(w, Hashes(w, b.files), s.files), s.files[k];
            && (f in b.files || SentAs(g, f.path) || HeldBack(g, f.path))
            && !(f in b.files && SentAs(g, f.path)) && !(f in b.files && HeldBack(g, f.path))
            && !(SentAs(g, f.path) && HeldBack(g, f.path))
  {
    hide Opened, Gather, Hashes, FateOf, SentAs, HeldBack, Decodes, Injective, DistinctPaths;
    var b, s := Opened(fold, decode, base, true), Opened(fold, decode, source, true);
    AcceptedDistinct(fold, decode, base, true);
    AcceptedDistinct(fold, decode, source, true);
    ExactlyOneFate(w, Hashes(w, b.files), s.files, k);
    UnchangedExactly(w, b.files, s.files[k]);
  }

  /**
   * End to end: where a diff of accepted archives comes to be reviewed, every kept finding lies on a
   * line that a least-cost edit script inserts into the stored base's own text of that path, or in a
   * file the base has nothing to compare with; `base` is opened twice, cut as it may be.
   */
  lemma KeptFindingsHold<D>(w: World<D>, fold: Path -> Path, decode: Path -> string, base: seq<seq<byte>>, again: seq<seq<byte>>, source: Archive, d: Diff,
                            rules: Rules, compare: (string, string) -> int, reply: Reply, k: Kept)
    requires Decodes(decode) && Flat(base) == Flat(again) && !Opened(fold, decode, base, true).refused
    requires Owed(w, Some(Opened(fold, decode, base, true)), source, Opened(fold, decode, again, true), d) && d.Changed?
    requires k in Assembly(rules, compare, reply, d.files).kept
    ensures var b := Opened(fold, decode, base, true).files;
            Grounded(w, b, source.files, d.files, rules, reply, k)
  {
    hide Opened, Gather, Hashes, AllJudged, Assembly, Grounded, Decodes, DistinctPaths;
    OpenedAgain(fold, decode, base, again, true);
    AcceptedDistinct(fold, decode, base, true);
    KeptIsInserted(w, Opened(fold, decode, base, true).files, source.files, d.files, rules, compare, reply, k);
  }
}
