/**
 * Which paths an archive may hold: portable relative paths, and no two entries that would land on
 * one another once folded. Paths are UTF-8 bytes.
 */
module ArchivePaths {
  import opened Wrappers
  import opened Text
  import Sorting

  type Path = seq<byte>

  const SLASH: byte := 47

  datatype Error =
    | BytesAfterNul | NotUtf8 | InvalidNumber | NumberTooLarge | NotPortable | PathsCollide | FileAboveChild
    | PaxOutOfBounds | PaxHoldsNul | PaxNotOneRecord | Truncated | TooExpanded | PaxWithoutEntry | OneEndBlock
    | NotUstar | UnsupportedVersion | UnsupportedMetadata | HeaderPadding | ChecksumDiffers | SpecialModeBits
    | PaxRepeated | PaxPadding | LinkOrSpecial | DirectoryData | FileTooLarge | FileEndsInSlash
    | TooManyEntries | EntryPadding | DataAfterEnd | NoFiles

  /** A refusal for what was read, rather than for where the stream ended. */
  predicate Judged(e: Error) { !e.Truncated? && !e.NoFiles? }

  datatype Result<+T> = Ok(value: T) | Err(error: Error) {
    predicate IsFailure() { Err? }
    function PropagateFailure<U>(): Result<U> requires Err? { Err(error) }
    function Extract(): T requires Ok? { value }
  }

  /** One trailing slash is dropped before a path is judged. */
  function Checked(path: Path): Path {
    if path != [] && path[|path| - 1] == SLASH then path[..|path| - 1] else path
  }

  predicate IsControl(b: byte) { b < 32 || b == 127 }

  predicate IsLetter(b: byte) { 65 <= b <= 90 || 97 <= b <= 122 }

  predicate PlainPart(part: Path) { part != [] && part != [46] && part != [46, 46] }

  predicate Portable(checked: Path) {
    && checked != []
    && (forall i | 0 <= i < |checked| :: !IsControl(checked[i]) && checked[i] != 92)
    && checked[0] != SLASH
    && !(|checked| >= 2 && IsLetter(checked[0]) && checked[1] == 58)
    && var parts := Split(checked, SLASH); forall i | 0 <= i < |parts| :: PlainPart(parts[i])
  }

  function PortablePath(path: Path): (r: Result<Path>)
    ensures r.Err? ==> Judged(r.error)
  {
    if Portable(Checked(path)) then Ok(Checked(path)) else Err(NotPortable)
  }

  // ----- collisions

  /** Everything the walk remembers of the entries so far, folded. */
  datatype Catalog = Catalog(seen: set<Path>, files: set<Path>, implied: set<Path>)

  const EMPTY := Catalog({}, {}, {})

  datatype Listed = Listed(folded: Path, directory: bool)

  function Parent(folded: Path, i: nat): Path
    requires i <= |Split(folded, SLASH)|
  {
    Join(Split(folded, SLASH)[..i], SLASH)
  }

  /** The directories above a path. */
  function Parents(folded: Path): set<Path> {
    set i | 1 <= i < |Split(folded, SLASH)| :: Parent(folded, i)
  }

  function Admit(c: Catalog, e: Listed): (r: Result<Catalog>)
    ensures r.Err? ==> Judged(r.error)
  {
    if e.folded in c.seen || (!e.directory && e.folded in c.implied) then Err(PathsCollide)
    else if exists p | p in Parents(e.folded) :: p in c.files then Err(FileAboveChild)
    else Ok(Catalog(c.seen + {e.folded}, if e.directory then c.files else c.files + {e.folded}, c.implied + Parents(e.folded)))
  }

  function AdmitAll(c: Catalog, es: seq<Listed>): Result<Catalog>
    decreases |es|
  {
    if es == [] then Ok(c)
    else
      var c' :- Admit(c, es[0]);
      AdmitAll(c', es[1..])
  }

  /** One segment list is a proper prefix of the other. */
  ghost predicate Above(p: Path, q: Path) { Split(p, SLASH) < Split(q, SLASH) }

  /** The two entries can stand in one tree: distinct, and neither a file above the other. */
  ghost predicate Apart(e: Listed, f: Listed) {
    && e.folded != f.folded
    && (!e.directory ==> !Above(e.folded, f.folded))
    && (!f.directory ==> !Above(f.folded, e.folded))
  }

  ghost predicate AllApart(es: seq<Listed>) {
    forall i, j | 0 <= i < j < |es| :: Apart(es[i], es[j])
  }

  /** The parents built part by part are exactly the paths above. */
  lemma ParentsAreAbove(p: Path, q: Path)
    ensures p in Parents(q) <==> Above(p, q)
  {
    var parts := Split(q, SLASH);
    SplitFree(q, SLASH);
    if Above(p, q) {
      JoinSplit(p, SLASH);
      assert Split(p, SLASH) == parts[..|Split(p, SLASH)|];
      assert p == Parent(q, |Split(p, SLASH)|);
    }
    if p in Parents(q) {
      var i :| 1 <= i < |parts| && p == Parent(q, i);
      SplitJoin(parts[..i], SLASH);
    }
  }

  /** What the three sets hold after admitting `done`. */
  ghost predicate Remembers(c: Catalog, done: seq<Listed>) {
    && (forall p :: p in c.seen <==> exists i :: 0 <= i < |done| && done[i].folded == p)
    && (forall p :: p in c.files <==> exists i :: 0 <= i < |done| && !done[i].directory && done[i].folded == p)
    && (forall p :: p in c.implied <==> exists i :: 0 <= i < |done| && Above(p, done[i].folded))
  }

  ghost predicate ApartFrom(done: seq<Listed>, e: Listed) { forall i | 0 <= i < |done| :: Apart(done[i], e) }

  lemma AdmitExact(c: Catalog, done: seq<Listed>, e: Listed)
    requires Remembers(c, done)
    ensures Admit(c, e).Ok? <==> ApartFrom(done, e)
    ensures Admit(c, e).Ok? ==> Remembers(Admit(c, e).value, done + [e])
  {
    forall p ensures p in Parents(e.folded) <==> Above(p, e.folded) {
      ParentsAreAbove(p, e.folded);
    }
    if Admit(c, e).Ok? {
      Extends(c, done, e, Admit(c, e).value);
    }
  }

  lemma Extends(c: Catalog, done: seq<Listed>, e: Listed, c': Catalog)
    requires Remembers(c, done) && Admit(c, e) == Ok(c')
    requires forall p :: p in Parents(e.folded) <==> Above(p, e.folded)
    ensures Remembers(c', done + [e])
  {
    var all := done + [e];
    assert all[|done|] == e;
    forall p ensures p in c'.seen <==> exists i :: 0 <= i < |all| && all[i].folded == p {
      if p in c.seen { var i :| 0 <= i < |done| && done[i].folded == p; assert all[i] == done[i]; }
    }
    forall p ensures p in c'.files <==> exists i :: 0 <= i < |all| && !all[i].directory && all[i].folded == p {
      if p in c.files { var i :| 0 <= i < |done| && !done[i].directory && done[i].folded == p; assert all[i] == done[i]; }
    }
    forall p ensures p in c'.implied <==> exists i :: 0 <= i < |all| && Above(p, all[i].folded) {
      if p in c.implied { var i :| 0 <= i < |done| && Above(p, done[i].folded); assert all[i] == done[i]; }
    }
  }

  /** The one-pass check over the rest of a list, after `done`. */
  lemma {:induction false} AdmitRest(c: Catalog, done: seq<Listed>, es: seq<Listed>)
    requires Remembers(c, done) && AllApart(done)
    ensures AdmitAll(c, es).Ok? <==> AllApart(done + es)
    decreases |es|
  {
    if es == [] {
      assert done + es == done;
    } else {
      AdmitExact(c, done, es[0]);
      assert done + es == (done + [es[0]]) + es[1..];
      if Admit(c, es[0]).Ok? {
        assert AllApart(done + [es[0]]);
        AdmitRest(Admit(c, es[0]).value, done + [es[0]], es[1..]);
      } else {
        var i :| 0 <= i < |done| && !Apart(done[i], es[0]);
        assert (done + es)[i] == done[i] && (done + es)[|done|] == es[0];
      }
    }
  }

  /** The one-pass check accepts a list exactly when its entries are pairwise apart. */
  lemma CollisionCheckExact(es: seq<Listed>)
    ensures AdmitAll(EMPTY, es).Ok? <==> AllApart(es)
  {
    AdmitRest(EMPTY, [], es);
    assert [] + es == es;
  }

  lemma ApartUnderReorder(es: seq<Listed>, fs: seq<Listed>, i: nat, j: nat)
    requires multiset(es) == multiset(fs) && AllApart(es) && i < j < |fs|
    ensures Apart(fs[i], fs[j])
  {
    var p, q := fs[i], fs[j];
    if p == q {
      assert fs == fs[..i] + [p] + fs[i + 1..j] + [q] + fs[j + 1..];
      Sorting.TwoPlaces(es, p);
    } else {
      assert p in multiset(es) && q in multiset(es);
      var k :| 0 <= k < |es| && es[k] == p;
      var l :| 0 <= l < |es| && es[l] == q;
      assert k < l || l < k;
    }
  }

  /** So acceptance does not depend on the order of the entries. */
  lemma OrderFree(es: seq<Listed>, fs: seq<Listed>)
    requires multiset(es) == multiset(fs)
    ensures AdmitAll(EMPTY, es).Ok? <==> AdmitAll(EMPTY, fs).Ok?
  {
    CollisionCheckExact(es);
    CollisionCheckExact(fs);
    if AllApart(es) {
      forall i, j | 0 <= i < j < |fs| ensures Apart(fs[i], fs[j]) { ApartUnderReorder(es, fs, i, j); }
    }
    if AllApart(fs) {
      forall i, j | 0 <= i < j < |es| ensures Apart(es[i], es[j]) { ApartUnderReorder(fs, es, i, j); }
    }
  }
}
