/**
 * The diff of a base and a source archive: every source file is unchanged, sent, or recorded as not
 * sent, under a byte budget; each sent file with an earlier text gets its changed lines.
 */
module ReviewDiff {
  import opened Wrappers
  import opened Text
  import LineDiff
  import EditScript
  import Sorting

  const REVIEW_MAX_DIFF_BYTES := 256 * 1024
  const REVIEW_SENT_FILE_MAX_BYTES := 64 * 1024

  datatype File = File(path: string, content: seq<byte>)

  datatype Rule = Lockfile | Generated | EmittedArtifact | Binary | FileTooLarge

  datatype Marks = All | Lines(lines: set<nat>)

  datatype ChangedFile = ChangedFile(path: string, text: string, changed: Marks, removedAfter: seq<nat>)

  datatype NotSent = NotSent(path: string, rule: Rule)

  datatype Diff =
    | Changed(files: seq<ChangedFile>, deleted: seq<string>, notSent: seq<NotSent>, bytes: nat, fullTree: bool)
    | TooLarge(bytes: nat, limit: nat)
    | ArchiveChanged
    | WalkRefused

  /** One opening of a stored archive: the files its walk hands over, whether it is then refused, and whether its digest is the recorded one. */
  datatype Archive = Archive(files: seq<File>, refused: bool, intact: bool)

  // ----- exclusions

  const LOCKFILES: set<string> := {
    "pnpm-lock.yaml", "package-lock.json", "npm-shrinkwrap.json", "yarn.lock", "bun.lock", "bun.lockb",
    "Cargo.lock", "Gemfile.lock", "poetry.lock", "composer.lock", "go.sum", "uv.lock" }
  const EMITTED: set<string> := {"model.json", "openapi.json", "PERMISSIONS.md", "MIGRATIONS.md"}

  predicate Contains(s: string, part: string) { part <= s || (s != "" && Contains(s[1..], part)) }

  function BaseName(path: string): string { var parts := Split(path, '/'); parts[|parts| - 1] }

  function ExcludedByName(path: string): Option<Rule> {
    var name := BaseName(path);
    if name in LOCKFILES then Some(Lockfile)
    else if Contains(name, ".generated.") then Some(Generated)
    else if name in EMITTED then Some(EmittedArtifact)
    else None
  }

  // ----- one file's fate

  /** The world the walk reads: how contents hash, and which are text. */
  datatype World<!D> = World(hash: seq<byte> -> D, textOf: seq<byte> -> Option<string>, maxFileBytes: nat, maxDiffBytes: nat)

  datatype Fate = Unchanged | Excluded(rule: Rule) | Sends(text: string)

  function FateOf<D(==)>(w: World<D>, base: map<string, D>, f: File): Fate {
    if f.path in base && base[f.path] == w.hash(f.content) then Unchanged
    else if ExcludedByName(f.path).Some? then Excluded(ExcludedByName(f.path).value)
    else if |f.content| > w.maxFileBytes then Excluded(FileTooLarge)
    else if w.textOf(f.content).None? then Excluded(Binary)
    else Sends(w.textOf(f.content).value)
  }

  function Hashes<D>(w: World<D>, files: seq<File>): map<string, D> {
    if files == [] then map[] else Hashes(w, files[..|files| - 1])[files[|files| - 1].path := w.hash(files[|files| - 1].content)]
  }

  /** What the walk of the source has gathered. */
  datatype Gathered = Gathered(files: seq<ChangedFile>, notSent: seq<NotSent>, seen: set<string>, bytes: nat)

  function Gather<D(==)>(w: World<D>, base: map<string, D>, source: seq<File>): Gathered {
    if source == [] then Gathered([], [], {}, 0)
    else
      var g := Gather(w, base, source[..|source| - 1]);
      var f := source[|source| - 1];
      var seen := g.seen + {f.path};
      match FateOf(w, base, f)
      case Unchanged => g.(seen := seen)
      case Excluded(rule) => g.(seen := seen, notSent := g.notSent + [NotSent(f.path, rule)])
      case Sends(text) =>
        Gathered(g.files + [ChangedFile(f.path, text, if f.path in base then Lines({}) else All, [])], g.notSent, seen, g.bytes + |f.content|)
  }

  lemma {:induction false} GatherGrows<D>(w: World<D>, base: map<string, D>, source: seq<File>, n: nat)
    requires n <= |source|
    ensures Gather(w, base, source[..n]).bytes <= Gather(w, base, source).bytes
    decreases |source|
  {
    if n == |source| {
      assert source[..n] == source;
    } else {
      GatherGrows(w, base, source[..|source| - 1], n);
      assert source[..|source| - 1][..n] == source[..n];
    }
  }

  // ----- the walk

  method HashBase<D>(w: World<D>, files: seq<File>) returns (base: map<string, D>)
    ensures base == Hashes(w, files)
  {
    base := map[];
    for i := 0 to |files|
      invariant base == Hashes(w, files[..i])
    {
      assert files[..i + 1][..i] == files[..i];
      base := base[files[i].path := w.hash(files[i].content)];
    }
    assert files[..|files|] == files;
  }

  /** Pass 2; the walk stops at the first file that breaks the budget. */
  method WalkSource<D(==)>(w: World<D>, base: map<string, D>, source: seq<File>) returns (g: Gathered, over: bool)
    ensures over <==> Gather(w, base, source).bytes > w.maxDiffBytes
    ensures !over ==> g == Gather(w, base, source)
    ensures over ==> w.maxDiffBytes < g.bytes <= Gather(w, base, source).bytes
  {
    g := Gathered([], [], {}, 0);
    over := false;
    for i := 0 to |source|
      invariant g == Gather(w, base, source[..i]) && g.bytes <= w.maxDiffBytes
    {
      assert source[..i + 1][..i] == source[..i];
      GatherGrows(w, base, source, i + 1);
      var f := source[i];
      g := g.(seen := g.seen + {f.path});
      var fate := FateOf(w, base, f);
      if fate.Excluded? {
        g := g.(notSent := g.notSent + [NotSent(f.path, fate.rule)]);
      } else if fate.Sends? {
        g := g.(bytes := g.bytes + |f.content|);
        if g.bytes > w.maxDiffBytes {
          over := true;
          return;
        }
        g := g.(files := g.files + [ChangedFile(f.path, fate.text, if f.path in base then Lines({}) else All, [])]);
      }
    }
    assert source[..|source|] == source;
  }

  /** The earlier text of a path, when the base holds one that can be compared. */
  function Earlier<D>(w: World<D>, base: seq<File>, path: string): Option<string> {
    if base == [] then None
    else
      var f := base[|base| - 1];
      if f.path == path then (if |f.content| > w.maxFileBytes then None else w.textOf(f.content))
      else Earlier(w, base[..|base| - 1], path)
  }

  ghost predicate Compares(before: string, f: ChangedFile, c: ChangedFile) {
    var a, b := Split(before, '\n'), Split(f.text, '\n');
    || (c == f.(changed := All, removedAfter := []) && forall t | EditScript.IsScript(a, b, t) :: EditScript.Cost(t) > LineDiff.LINE_DIFF_MAX_EDITS)
    || (exists s :: && LineDiff.LeastCost(a, b, s) && EditScript.Cost(s) <= LineDiff.LINE_DIFF_MAX_EDITS
                    && c.changed.Lines? && LineDiff.Describes(s, LineDiff.LineChanges(c.changed.lines, c.removedAfter))
                    && c == f.(changed := c.changed, removedAfter := c.removedAfter))
  }

  /** `c` is `f` with its lines judged: all when it is new or cannot be compared, else those a least-cost edit script inserts. */
  ghost predicate Judged<D>(w: World<D>, base: seq<File>, f: ChangedFile, c: ChangedFile) {
    if f.changed.All? then c == f
    else if Earlier(w, base, f.path).None? then c == f.(changed := All, removedAfter := [])
    else Compares(Earlier(w, base, f.path).value, f, c)
  }

  method JudgeFile<D>(w: World<D>, base: seq<File>, f: ChangedFile) returns (c: ChangedFile)
    ensures Judged(w, base, f, c)
  {
    if f.changed.All? {
      return f;
    }
    var before := Earlier(w, base, f.path);
    if before.None? {
      return f.(changed := All, removedAfter := []);
    }
    ghost var s;
    var diff;
    diff, s := LineDiff.Changes(before.value, f.text, LineDiff.LINE_DIFF_MAX_EDITS);
    if diff.None? {
      return f.(changed := All, removedAfter := []);
    }
    c := f.(changed := Lines(diff.value.changed), removedAfter := diff.value.removedAfter);
    assert LineDiff.LineChanges(c.changed.lines, c.removedAfter) == diff.value;
  }

  ghost predicate AllJudged<D>(w: World<D>, base: seq<File>, fs: seq<ChangedFile>, cs: seq<ChangedFile>) {
    |cs| == |fs| && forall i | 0 <= i < |fs| :: Judged(w, base, fs[i], cs[i])
  }

  method JudgeAll<D>(w: World<D>, base: seq<File>, fs: seq<ChangedFile>) returns (cs: seq<ChangedFile>)
    ensures AllJudged(w, base, fs, cs)
  {
    hide Judged;
    cs := [];
    for i := 0 to |fs|
      invariant |cs| == i && forall k | 0 <= k < i :: Judged(w, base, fs[k], cs[k])
    {
      var c := JudgeFile(w, base, fs[i]);
      cs := cs + [c];
    }
  }

  function PathsOf(files: seq<File>): set<string> { set f | f in files :: f.path }

  predicate Compared(fs: seq<ChangedFile>) { exists f | f in fs :: !f.changed.All? }

  /** The answer `d` is the one the three passes owe. */
  ghost predicate Owed<D>(w: World<D>, base: Option<Archive>, source: Archive, again: Archive, d: Diff) {
    var before := if base.Some? then base.value.files else [];
    var g := Gather(w, Hashes(w, before), source.files);
    if base.Some? && base.value.refused then d == WalkRefused
    else if base.Some? && !base.value.intact then d == ArchiveChanged
    else if g.bytes > w.maxDiffBytes then d.TooLarge? && d.limit == w.maxDiffBytes < d.bytes <= g.bytes
    else if source.refused then d == WalkRefused
    else if !source.intact then d == ArchiveChanged
    else if Compared(g.files) && again.refused then d == WalkRefused
    else if Compared(g.files) && !again.intact then d == ArchiveChanged
    else
      && d.Changed? && AllJudged(w, again.files, g.files, d.files) && d.notSent == g.notSent && d.bytes == g.bytes
      && Sorting.Listed(PathsOf(before) - PathsOf(source.files), d.deleted) && d.fullTree == base.None?
  }

  /** The three passes, each archive held to its digest; `again` is the base opened a second time. */
  method DiffReview<D(==)>(w: World<D>, base: Option<Archive>, source: Archive, again: Archive) returns (d: Diff)
    ensures Owed(w, base, source, again, d)
  {
    hide Gather, Judged, Sorting.Listed, Compared, AllJudged;
    var hashes: map<string, D> := map[];
    ghost var before: seq<File> := [];
    if base.Some? {
      hashes := HashBase(w, base.value.files);
      before := base.value.files;
      if base.value.refused {
        return WalkRefused;
      }
      if !base.value.intact {
        return ArchiveChanged;
      }
    }
    var g, over := WalkSource(w, hashes, source.files);
    if over {
      return TooLarge(g.bytes, w.maxDiffBytes);
    }
    if source.refused {
      return WalkRefused;
    }
    if !source.intact {
      return ArchiveChanged;
    }
    GatherSees(w, hashes, source.files);
    HashesKeys(w, before);
    var deleted := Sorting.ListSorted(hashes.Keys - g.seen);
    if base.None? {
      NothingCompared(w, source.files);
    }
    var compared := g.files;
    if base.Some? && Compared(g.files) {
      if again.refused {
        return WalkRefused;
      }
      if !again.intact {
        return ArchiveChanged;
      }
      compared := JudgeAll(w, again.files, g.files);
    } else {
      AllNewJudged(w, again.files, g.files);
    }
    d := Changed(compared, deleted, g.notSent, g.bytes, base.None?);
  }

  lemma {:induction false} GatherSees<D>(w: World<D>, base: map<string, D>, source: seq<File>)
    ensures Gather(w, base, source).seen == PathsOf(source)
  {
    if source != [] {
      GatherSees(w, base, source[..|source| - 1]);
      assert source == source[..|source| - 1] + [source[|source| - 1]];
    }
  }

  lemma {:induction false} HashesKeys<D>(w: World<D>, files: seq<File>)
    ensures Hashes(w, files).Keys == PathsOf(files)
  {
    if files != [] {
      HashesKeys(w, files[..|files| - 1]);
      assert files == files[..|files| - 1] + [files[|files| - 1]];
    }
  }

  /** With nothing to compare, the files stand as they are. */
  lemma AllNewJudged<D>(w: World<D>, before: seq<File>, fs: seq<ChangedFile>)
    requires !Compared(fs)
    ensures AllJudged(w, before, fs, fs)
  {
    assert forall i | 0 <= i < |fs| :: fs[i] in fs;
  }

  lemma NothingCompared<D>(w: World<D>, source: seq<File>)
    ensures !Compared(Gather(w, map[], source).files)
  {
    var fs := Gather(w, map[], source).files;
    forall f | f in fs ensures f.changed.All? {
      var i :| 0 <= i < |fs| && fs[i] == f;
      NoBaseAllNew(w, source, i);
    }
  }

  lemma {:induction false} NoBaseAllNew<D>(w: World<D>, source: seq<File>, i: nat)
    requires i < |Gather(w, map[], source).files|
    ensures Gather(w, map[], source).files[i].changed.All?
  {
    if source != [] && i < |Gather(w, map[], source[..|source| - 1]).files| {
      NoBaseAllNew(w, source[..|source| - 1], i);
    }
  }

  // ----- the accounting

  ghost predicate DistinctPaths(files: seq<File>) { forall i, j | 0 <= i < j < |files| :: files[i].path != files[j].path }

  ghost predicate SentAs(g: Gathered, path: string) { exists i :: 0 <= i < |g.files| && g.files[i].path == path }

  ghost predicate HeldBack(g: Gathered, path: string) { exists i :: 0 <= i < |g.notSent| && g.notSent[i].path == path }

  /** Nothing is sent or held back that the source does not hold. */
  lemma {:induction false} OnlySource<D>(w: World<D>, base: map<string, D>, source: seq<File>, path: string)
    requires SentAs(Gather(w, base, source), path) || HeldBack(Gather(w, base, source), path)
    ensures path in PathsOf(source)
  {
    if source != [] {
      var rest, f := source[..|source| - 1], source[|source| - 1];
      assert source == rest + [f];
      if path != f.path {
        var g, h := Gather(w, base, source), Gather(w, base, rest);
        if SentAs(g, path) {
          var i :| 0 <= i < |g.files| && g.files[i].path == path;
          assert h.files[i] == g.files[i];
        } else {
          var i :| 0 <= i < |g.notSent| && g.notSent[i].path == path;
          assert h.notSent[i] == g.notSent[i];
        }
        OnlySource(w, base, rest, path);
      } else {
        assert f in source;
      }
    }
  }

  /** Every source file meets exactly its own fate: unchanged, sent or held back, and no two of them. */
  lemma {:induction false} ExactlyOneFate<D>(w: World<D>, base: map<string, D>, source: seq<File>, k: nat)
    requires DistinctPaths(source) && k < |source|
    ensures var g, fate := Gather(w, base, source), FateOf(w, base, source[k]);
            && (SentAs(g, source[k].path) <==> fate.Sends?)
            && (HeldBack(g, source[k].path) <==> fate.Excluded?)
  {
    var rest, f := source[..|source| - 1], source[|source| - 1];
    var g, h := Gather(w, base, source), Gather(w, base, rest);
    var path := source[k].path;
    assert source == rest + [f];
    assert FateOf(w, base, f).Sends? ==> g.files[|h.files|].path == f.path;
    assert FateOf(w, base, f).Excluded? ==> g.notSent[|h.notSent|].path == f.path;
    assert h.files == g.files[..|h.files|] && h.notSent == g.notSent[..|h.notSent|];
    if k < |rest| {
      ExactlyOneFate(w, base, rest, k);
      Carried(g, h, f, path);
    } else {
      assert path !in PathsOf(rest);
      if SentAs(h, path) || HeldBack(h, path) {
        OnlySource(w, base, rest, path);
      }
    }
  }

  /** Adding one other file's outcome changes nothing for a path. */
  lemma Carried(g: Gathered, h: Gathered, f: File, path: string)
    requires |h.files| <= |g.files| <= |h.files| + 1 && h.files == g.files[..|h.files|]
    requires |h.notSent| <= |g.notSent| <= |h.notSent| + 1 && h.notSent == g.notSent[..|h.notSent|]
    requires |g.files| > |h.files| ==> g.files[|h.files|].path == f.path
    requires |g.notSent| > |h.notSent| ==> g.notSent[|h.notSent|].path == f.path
    requires path != f.path
    ensures SentAs(g, path) <==> SentAs(h, path)
    ensures HeldBack(g, path) <==> HeldBack(h, path)
  {
    if i :| 0 <= i < |h.files| && h.files[i].path == path { assert g.files[i].path == path; }
    if i :| 0 <= i < |h.notSent| && h.notSent[i].path == path { assert g.notSent[i].path == path; }
    if i :| 0 <= i < |g.files| && g.files[i].path == path { assert h.files[i].path == path; }
    if i :| 0 <= i < |g.notSent| && g.notSent[i].path == path { assert h.notSent[i].path == path; }
  }

  ghost predicate Injective<D>(hash: seq<byte> -> D) { forall a, b | hash(a) == hash(b) :: a == b }

  lemma {:induction false} HashOf<D>(w: World<D>, files: seq<File>, k: nat)
    requires DistinctPaths(files) && k < |files|
    ensures files[k].path in Hashes(w, files) && Hashes(w, files)[files[k].path] == w.hash(files[k].content)
  {
    if k < |files| - 1 {
      HashOf(w, files[..|files| - 1], k);
    }
  }

  /** A file is passed over as unchanged just when the base holds the same bytes under its path. */
  lemma {:induction false} UnchangedExactly<D>(w: World<D>, base: seq<File>, f: File)
    requires Injective(w.hash) && DistinctPaths(base)
    ensures FateOf(w, Hashes(w, base), f).Unchanged? <==> f in base
  {
    HashesKeys(w, base);
    if f.path in Hashes(w, base) {
      var b :| b in base && b.path == f.path;
      var k :| 0 <= k < |base| && base[k] == b;
      HashOf(w, base, k);
    }
  }

  // ----- what is sent, file by file

  lemma {:induction false} JoinLast(parts: seq<string>)
    requires parts != []
    ensures Join(parts, '/') == (if |parts| == 1 then "" else Join(parts[..|parts| - 1], '/') + "/") + parts[|parts| - 1]
  {
    if |parts| > 1 {
      JoinLast(parts[1..]);
      if |parts| > 2 {
        assert parts[..|parts| - 1][1..] == parts[1..][..|parts| - 2];
      }
    }
  }

  /** A name at the end of a path: what follows its last slash. */
  lemma BaseNameExact(path: string) returns (dir: string)
    ensures path == dir + BaseName(path) && '/' !in BaseName(path) && (dir == "" || dir[|dir| - 1] == '/')
  {
    hide Split, Join;
    var parts := Split(path, '/');
    JoinSplit(path, '/');
    JoinLast(parts);
    SplitFree(path, '/');
    assert Free(parts[|parts| - 1], '/');
    dir := if |parts| == 1 then "" else Join(parts[..|parts| - 1], '/') + "/";
  }

  ghost predicate StandsAt(s: string, part: string, i: nat) { i + |part| <= |s| && s[i..i + |part|] == part }

  ghost predicate Somewhere(s: string, part: string) { exists i :: StandsAt(s, part, i) }

  lemma {:induction false} ContainsExactly(s: string, part: string)
    ensures Contains(s, part) <==> Somewhere(s, part)
  {
    if part <= s {
      assert StandsAt(s, part, 0);
    }
    if s != "" {
      ContainsExactly(s[1..], part);
      forall i: nat ensures StandsAt(s[1..], part, i) <==> StandsAt(s, part, i + 1) {
        if i + 1 + |part| <= |s| { assert s[1..][i..i + |part|] == s[i + 1..i + 1 + |part|]; }
      }
      if i: nat :| StandsAt(s, part, i) && i > 0 {
        assert StandsAt(s[1..], part, i - 1);
      }
    }
  }

  /** Held back by its name: a lockfile's, a generated file's, or an emitted artifact's. */
  ghost predicate HeldByName(path: string) {
    var name := BaseName(path);
    name in LOCKFILES || name in EMITTED || Somewhere(name, ".generated.")
  }

  /** A file is sent exactly when it is not in the base as it is, its name does not hold it back, and it is text of a size to send. */
  lemma SendsExactly<D>(w: World<D>, base: seq<File>, f: File)
    requires Injective(w.hash) && DistinctPaths(base)
    ensures var fate := FateOf(w, Hashes(w, base), f);
            && (fate.Sends? <==> f !in base && !HeldByName(f.path) && |f.content| <= w.maxFileBytes && w.textOf(f.content).Some?)
            && (fate.Unchanged? <==> f in base)
  {
    UnchangedExactly(w, base, f);
    ContainsExactly(BaseName(f.path), ".generated.");
  }

  /** Why one is not: its name first, then its size, then that it is no text. */
  lemma HeldBackBecause<D>(w: World<D>, base: map<string, D>, f: File)
    requires FateOf(w, base, f).Excluded?
    ensures match FateOf(w, base, f).rule
            case Lockfile => BaseName(f.path) in LOCKFILES
            case Generated => BaseName(f.path) !in LOCKFILES && Somewhere(BaseName(f.path), ".generated.")
            case EmittedArtifact => BaseName(f.path) in EMITTED && BaseName(f.path) !in LOCKFILES
            case FileTooLarge => !HeldByName(f.path) && |f.content| > w.maxFileBytes
            case Binary => !HeldByName(f.path) && |f.content| <= w.maxFileBytes && w.textOf(f.content).None?
  {
    ContainsExactly(BaseName(f.path), ".generated.");
  }

  /** `at` picks places of the source in order. */
  ghost predicate Picks(at: seq<nat>, n: nat) {
    (forall i | 0 <= i < |at| :: at[i] < n) && forall i, j | 0 <= i < j < |at| :: at[i] < at[j]
  }

  /** A sent file is the source file's own path and text, all its lines marked exactly when the base holds no file of that path. */
  ghost predicate SentAsIs<D>(w: World<D>, base: set<string>, f: File, c: ChangedFile) {
    && c.path == f.path && w.textOf(f.content) == Some(c.text) && c.removedAfter == []
    && c.changed == if f.path in base then Lines({}) else All
  }

  ghost function Lengths(source: seq<File>, at: seq<nat>): nat
    requires Picks(at, |source|)
  {
    if at == [] then 0 else Lengths(source, at[..|at| - 1]) + |source[at[|at| - 1]].content|
  }

  /** The files sent are the source's at `sent`, those whose fate it is, in order; and the bytes are theirs. */
  ghost predicate SentBy<D>(w: World<D>, base: map<string, D>, source: seq<File>, sent: seq<nat>, files: seq<ChangedFile>, bytes: nat) {
    && Picks(sent, |source|) && |sent| == |files| && (forall i | 0 <= i < |sent| :: SentAsIs(w, base.Keys, source[sent[i]], files[i]))
    && (forall k | 0 <= k < |source| :: k in sent <==> FateOf(w, base, source[k]).Sends?)
    && bytes == Lengths(source, sent)
  }

  /** The files held back are the source's at `held`, those whose fate it is, in order, each under its rule. */
  ghost predicate HeldBy<D>(w: World<D>, base: map<string, D>, source: seq<File>, held: seq<nat>, notSent: seq<NotSent>) {
    && Picks(held, |source|) && |held| == |notSent|
    && (forall i | 0 <= i < |held| :: notSent[i].path == source[held[i]].path && FateOf(w, base, source[held[i]]) == Excluded(notSent[i].rule))
    && (forall k | 0 <= k < |source| :: k in held <==> FateOf(w, base, source[k]).Excluded?)
  }

  lemma {:induction false} LengthsOf(source: seq<File>, more: seq<File>, at: seq<nat>)
    requires Picks(at, |source|)
    ensures Picks(at, |source + more|) && Lengths(source + more, at) == Lengths(source, at)
  {
    if at != [] {
      LengthsOf(source, more, at[..|at| - 1]);
    }
  }

  lemma SentOn<D>(w: World<D>, base: map<string, D>, rest: seq<File>, f: File, sent: seq<nat>, files: seq<ChangedFile>, bytes: nat)
    requires SentBy(w, base, rest, sent, files, bytes) && !FateOf(w, base, f).Sends?
    ensures SentBy(w, base, rest + [f], sent, files, bytes)
  {
    hide FateOf, SentAsIs;
    var source := rest + [f];
    assert forall k | 0 <= k < |rest| :: source[k] == rest[k];
    LengthsOf(rest, [f], sent);
  }

  lemma SentOneMore<D>(w: World<D>, base: map<string, D>, rest: seq<File>, f: File, sent: seq<nat>, files: seq<ChangedFile>, bytes: nat, c: ChangedFile)
    requires SentBy(w, base, rest, sent, files, bytes) && FateOf(w, base, f).Sends? && SentAsIs(w, base.Keys, f, c)
    ensures SentBy(w, base, rest + [f], sent + [|rest|], files + [c], bytes + |f.content|)
  {
    hide FateOf, SentAsIs;
    var source, more := rest + [f], sent + [|rest|];
    assert forall k | 0 <= k < |rest| :: source[k] == rest[k];
    LengthsOf(rest, [f], sent);
    assert more[..|sent|] == sent && more[|sent|] == |rest|;
    assert forall k | 0 <= k < |rest| :: k in more <==> k in sent;
  }

  lemma HeldOn<D>(w: World<D>, base: map<string, D>, rest: seq<File>, f: File, held: seq<nat>, notSent: seq<NotSent>)
    requires HeldBy(w, base, rest, held, notSent)
    ensures !FateOf(w, base, f).Excluded? ==> HeldBy(w, base, rest + [f], held, notSent)
    ensures FateOf(w, base, f).Excluded? ==> HeldBy(w, base, rest + [f], held + [|rest|], notSent + [NotSent(f.path, FateOf(w, base, f).rule)])
  {
    hide FateOf;
    var source, more := rest + [f], held + [|rest|];
    assert forall k | 0 <= k < |rest| :: source[k] == rest[k];
    assert forall k | 0 <= k < |rest| :: k in more <==> k in held;
  }

  /** What the walk gathers is what each source file's fate says, in the order of the source. */
  lemma {:induction false} GatherAccounts<D>(w: World<D>, base: map<string, D>, source: seq<File>) returns (sent: seq<nat>, held: seq<nat>)
    ensures var g := Gather(w, base, source); SentBy(w, base, source, sent, g.files, g.bytes) && HeldBy(w, base, source, held, g.notSent)
  {
    sent, held := [], [];
    if source == [] {
      NothingGathered(w, base);
    } else {
      GatherStep(w, base, source);
      hide FateOf, SentAsIs, SentBy, HeldBy, Gather;
      var n := |source| - 1;
      var rest, f := source[..n], source[n];
      sent, held := GatherAccounts(w, base, rest);
      var g, fate := Gather(w, base, rest), FateOf(w, base, f);
      assert source == rest + [f];
      HeldOn(w, base, rest, f, held, g.notSent);
      if fate.Sends? {
        var c := ChangedFile(f.path, fate.text, if f.path in base then Lines({}) else All, []);
        SentText(w, base, f, c);
        SentOneMore(w, base, rest, f, sent, g.files, g.bytes, c);
        sent := sent + [n];
      } else {
        SentOn(w, base, rest, f, sent, g.files, g.bytes);
        held := if fate.Excluded? then held + [n] else held;
      }
    }
  }

  lemma GatherStep<D>(w: World<D>, base: map<string, D>, source: seq<File>)
    requires source != []
    ensures var n := |source| - 1;
            var f, g, all := source[n], Gather(w, base, source[..n]), Gather(w, base, source);
            var fate := FateOf(w, base, f);
            && (fate.Sends? ==> all.files == g.files + [ChangedFile(f.path, fate.text, if f.path in base then Lines({}) else All, [])]
                                && all.bytes == g.bytes + |f.content|)
            && (!fate.Sends? ==> all.files == g.files && all.bytes == g.bytes)
            && all.notSent == g.notSent + if fate.Excluded? then [NotSent(f.path, fate.rule)] else []
  {
    hide FateOf;
  }

  lemma NothingGathered<D>(w: World<D>, base: map<string, D>)
    ensures SentBy(w, base, [], [], [], 0) && HeldBy(w, base, [], [], [])
  {
  }

  lemma SentText<D>(w: World<D>, base: map<string, D>, f: File, c: ChangedFile)
    requires FateOf(w, base, f).Sends? && c == ChangedFile(f.path, FateOf(w, base, f).text, if f.path in base then Lines({}) else All, [])
    ensures SentAsIs(w, base.Keys, f, c)
  {
  }

  /** The earlier text of a path is the text of the base's file there, if it is one of a size to compare. */
  lemma {:induction false} EarlierExactly<D>(w: World<D>, base: seq<File>, b: File)
    requires DistinctPaths(base) && b in base
    ensures Earlier(w, base, b.path) == if |b.content| > w.maxFileBytes then None else w.textOf(b.content)
  {
    var last := base[|base| - 1];
    if b != last {
      var rest := base[..|base| - 1];
      assert base == rest + [last] && b in rest;
      var k :| 0 <= k < |rest| && rest[k] == b;
      assert base[k] == b;
      EarlierExactly(w, rest, b);
    }
  }

  lemma {:induction false} NoEarlier<D>(w: World<D>, base: seq<File>, path: string)
    requires path !in PathsOf(base)
    ensures Earlier(w, base, path).None?
  {
    if base != [] {
      assert base[|base| - 1] in base;
      NoEarlier(w, base[..|base| - 1], path);
    }
  }

  /** A diff is answered exactly when every archive it reads is whole and as recorded, and what there is to send is within the limit. */
  lemma ChangedExactly<D>(w: World<D>, base: Option<Archive>, source: Archive, again: Archive, d: Diff)
    requires Owed(w, base, source, again, d)
    ensures var before := if base.Some? then base.value.files else [];
            var g := Gather(w, Hashes(w, before), source.files);
            d.Changed? <==>
              && (base.Some? ==> base.value.intact && !base.value.refused) && source.intact && !source.refused
              && g.bytes <= w.maxDiffBytes && ((exists f | f in g.files :: f.path in PathsOf(before)) ==> again.intact && !again.refused)
  {
    var before := if base.Some? then base.value.files else [];
    var g := Gather(w, Hashes(w, before), source.files);
    HashesKeys(w, before);
    var sent, held := GatherAccounts(w, Hashes(w, before), source.files);
    hide Gather, FateOf, AllJudged, Hashes;
    assert Compared(g.files) <==> exists f | f in g.files :: f.path in PathsOf(before) by {
      if f :| f in g.files && !f.changed.All? {
        var i :| 0 <= i < |g.files| && g.files[i] == f;
        assert SentAsIs(w, Hashes(w, before).Keys, source.files[sent[i]], f);
      }
      if f :| f in g.files && f.path in PathsOf(before) {
        var i :| 0 <= i < |g.files| && g.files[i] == f;
        assert SentAsIs(w, Hashes(w, before).Keys, source.files[sent[i]], f);
      }
    }
  }
}
