/** Where a repo-relative path points, and whether that is inside a project directory. */
module ProjectPath {
  import opened Wrappers
  import opened Text

  type Segs = seq<string>

  // ----- normalise

  /** One segment onto the stack. */
  function Push(out: Segs, seg: string): Segs {
    if seg == "" || seg == "." then out
    else if seg != ".." then out + [seg]
    else if out != [] && out[|out| - 1] != ".." then out[..|out| - 1]
    else out + [".."]
  }

  function Resolve(segs: Segs): Segs {
    if segs == [] then [] else Push(Resolve(segs[..|segs| - 1]), segs[|segs| - 1])
  }

  function Normal(path: string): string { Join(Resolve(Split(path, '/')), '/') }

  method Normalise(path: string) returns (r: string)
    ensures r == Normal(path)
  {
    var segs, out := Split(path, '/'), [];
    for i := 0 to |segs|
      invariant out == Resolve(segs[..i])
    {
      assert segs[..i + 1][..i] == segs[..i];
      var seg := segs[i];
      if seg != "" && seg != "." {
        if seg != ".." {
          out := out + [seg];
        } else if |out| > 0 && out[|out| - 1] != ".." {
          out := out[..|out| - 1];
        } else {
          out := out + [".."];
        }
      }
    }
    assert segs[..|segs|] == segs;
    r := Join(out, '/');
  }

  // ----- what a path means

  /** A place relative to where the path starts: so many directories up, then these names down. */
  datatype Place = Place(up: nat, down: Segs)

  /** Following one segment, as a directory walk does. */
  function Step(at: Place, seg: string): Place {
    if seg == "" || seg == "." then at
    else if seg != ".." then Place(at.up, at.down + [seg])
    else if at.down != [] then Place(at.up, at.down[..|at.down| - 1])
    else Place(at.up + 1, [])
  }

  function Walk(segs: Segs): Place {
    if segs == [] then Place(0, []) else Step(Walk(segs[..|segs| - 1]), segs[|segs| - 1])
  }

  function PlaceOf(path: string): Place { Walk(Split(path, '/')) }

  function Climb(n: nat): Segs { if n == 0 then [] else Climb(n - 1) + [".."] }

  function Spell(at: Place): Segs { Climb(at.up) + at.down }

  ghost predicate Named(seg: string) { seg != "" && seg != "." && seg != ".." && Free(seg, '/') }

  ghost predicate AllNamed(segs: Segs) { forall i | 0 <= i < |segs| :: Named(segs[i]) }

  lemma {:induction false} WalkNamed(segs: Segs)
    requires AllFree(segs, '/')
    ensures AllNamed(Walk(segs).down)
  {
    if segs != [] {
      var rest := segs[..|segs| - 1];
      assert AllFree(rest, '/') by { forall i | 0 <= i < |rest| ensures Free(rest[i], '/') { assert Free(segs[i], '/'); } }
      WalkNamed(rest);
      assert Free(segs[|segs| - 1], '/');
    }
  }

  lemma ClimbEnds(n: nat)
    ensures |Climb(n)| == n && forall i | 0 <= i < n :: Climb(n)[i] == ".."
  {
  }

  lemma PushIsStep(at: Place, seg: string)
    requires AllNamed(at.down)
    ensures Push(Spell(at), seg) == Spell(Step(at, seg))
  {
    ClimbEnds(at.up);
    var out := Spell(at);
    if seg == ".." {
      if at.down != [] {
        assert out[|out| - 1] == at.down[|at.down| - 1] && Named(at.down[|at.down| - 1]);
        assert out[..|out| - 1] == Climb(at.up) + at.down[..|at.down| - 1];
      } else {
        assert out == Climb(at.up);
        assert Climb(at.up + 1) == Climb(at.up) + [".."];
      }
    } else {
      assert (Climb(at.up) + at.down) + [seg] == Climb(at.up) + (at.down + [seg]);
    }
  }

  /** The stack is the place, spelled: climbs first, then names. */
  lemma {:induction false} StackIsPlace(segs: Segs)
    requires AllFree(segs, '/')
    ensures Resolve(segs) == Spell(Walk(segs))
  {
    hide Spell, Push, Step;
    if segs == [] {
      assert Spell(Place(0, [])) == [] by { NoClimb(); }
    } else {
      var rest := segs[..|segs| - 1];
      assert AllFree(rest, '/') by { forall i | 0 <= i < |rest| ensures Free(rest[i], '/') { assert Free(segs[i], '/'); } }
      StackIsPlace(rest);
      WalkNamed(rest);
      PushIsStep(Walk(rest), segs[|segs| - 1]);
    }
  }

  lemma NoClimb()
    ensures Spell(Place(0, [])) == []
  {
  }

  /** Walking what a place is spelled as leads there. */
  lemma {:induction false} SpellWalks(at: Place)
    requires AllNamed(at.down)
    ensures Walk(Spell(at)) == at
    decreases |at.down|, at.up
  {
    var segs := Spell(at);
    if at.down != [] {
      var before := Place(at.up, at.down[..|at.down| - 1]);
      SpellWalks(before);
      assert segs[..|segs| - 1] == Spell(before);
      assert Named(at.down[|at.down| - 1]);
    } else if at.up > 0 {
      var before := Place(at.up - 1, []);
      SpellWalks(before);
      assert segs == Climb(at.up) && segs[..|segs| - 1] == Climb(at.up - 1) == Spell(before);
    }
  }

  lemma SpellFree(at: Place)
    requires AllNamed(at.down)
    ensures AllFree(Spell(at), '/')
  {
    ClimbEnds(at.up);
    forall i | 0 <= i < |Spell(at)| ensures Free(Spell(at)[i], '/') {
      if i >= at.up { assert Named(at.down[i - at.up]); }
    }
  }

  /** A normalised path resolves where the path does, and splits into that place's spelling. */
  lemma NormalPlace(path: string)
    ensures AllNamed(PlaceOf(path).down)
    ensures Normal(path) == Join(Spell(PlaceOf(path)), '/') && PlaceOf(Normal(path)) == PlaceOf(path)
    ensures Spell(PlaceOf(path)) != [] ==> Split(Normal(path), '/') == Spell(PlaceOf(path))
  {
    SplitFree(path, '/');
    StackIsPlace(Split(path, '/'));
    WalkNamed(Split(path, '/'));
    var at := PlaceOf(path);
    SpellFree(at);
    SpellWalks(at);
    if Spell(at) != [] {
      SplitJoin(Spell(at), '/');
    } else {
      assert Split("", '/') == [""];
      assert Walk([""]) == Step(Walk([]), "") by { assert [""][..0] == []; }
    }
  }

  /** Normalising twice changes nothing. */
  lemma NormalIdempotent(path: string)
    ensures Normal(Normal(path)) == Normal(path)
  {
    NormalPlace(path);
    NormalPlace(Normal(path));
  }

  // ----- inside a project

  function StripSlashes(s: string): string {
    if s != "" && s[|s| - 1] == '/' then StripSlashes(s[..|s| - 1]) else s
  }

  function UnderProject(path: string, dir: string): Option<string> {
    if path != "" && path[0] == '/' then None
    else
      var base := StripSlashes(Normal(dir));
      var normalised := Normal(path);
      if normalised == base then Some("")
      else if !(base + "/" <= normalised) then None
      else Some(StripSlashes(normalised[|base| + 1..]))
  }

  function WithinProject(path: string, dir: string): Option<string> {
    var rel := UnderProject(path, dir);
    if rel.None? || rel.value == "" then None else rel
  }

  /** The place is the directory or below it. */
  ghost predicate Inside(at: Place, dir: Place) { at.up == dir.up && dir.down <= at.down }

  /** What is left of `at` below `dir`, when its spelling starts with `dir`'s. */
  lemma JoinedPrefix(a: Segs, b: Segs)
    requires a != [] && AllFree(a, '/') && AllFree(b, '/')
    ensures Join(a, '/') + "/" <= Join(b, '/') <==> a < b
    ensures a < b ==> Join(b, '/')[|Join(a, '/')| + 1..] == Join(b[|a|..], '/')
  {
    var x, y := Join(a, '/'), Join(b, '/');
    if a < b {
      JoinAppend(a, b[|a|..]);
      assert b == a + b[|a|..];
    }
    if x + "/" <= y {
      var rest := y[|x| + 1..];
      assert y == x + "/" + rest;
      SplitFree(rest, '/');
      JoinSplit(rest, '/');
      JoinAppend(a, Split(rest, '/'));
      FreeAppend(a, Split(rest, '/'));
      SplitJoin(a + Split(rest, '/'), '/');
      assert b != [];
      SplitJoin(b, '/');
    }
  }

  lemma {:induction false} JoinAppend(a: Segs, b: Segs)
    requires a != [] && b != []
    ensures Join(a + b, '/') == Join(a, '/') + "/" + Join(b, '/')
  {
    if |a| == 1 {
      assert (a + b)[1..] == b;
    } else {
      JoinAppend(a[1..], b);
      assert (a + b)[1..] == a[1..] + b;
    }
  }

  lemma FreeAppend(a: Segs, b: Segs)
    requires AllFree(a, '/') && AllFree(b, '/')
    ensures AllFree(a + b, '/')
  {
    forall i | 0 <= i < |a + b| ensures Free((a + b)[i], '/') {
      assert (a + b)[i] == if i < |a| then a[i] else b[i - |a|];
    }
  }

  ghost predicate Solid(segs: Segs) { forall i | 0 <= i < |segs| :: segs[i] != "" && Free(segs[i], '/') }

  lemma {:induction false} EndsInName(segs: Segs)
    requires Solid(segs) && segs != []
    ensures Join(segs, '/') != "" && Join(segs, '/')[|Join(segs, '/')| - 1] != '/'
  {
    if |segs| == 1 {
      assert Free(segs[0], '/');
      assert segs[0][|segs[0]| - 1] in segs[0];
    } else {
      EndsInName(segs[1..]);
    }
  }

  lemma NothingToStrip(segs: Segs)
    requires Solid(segs)
    ensures StripSlashes(Join(segs, '/')) == Join(segs, '/')
    ensures segs != [] ==> Join(segs, '/') != ""
  {
    if segs != [] {
      EndsInName(segs);
    }
  }

  lemma SpellSolid(at: Place)
    requires AllNamed(at.down)
    ensures Solid(Spell(at)) && AllFree(Spell(at), '/')
  {
    ClimbEnds(at.up);
    SpellFree(at);
    forall i | 0 <= i < |Spell(at)| ensures Spell(at)[i] != "" && Free(Spell(at)[i], '/') {
      if i >= at.up { assert Named(at.down[i - at.up]); } else { assert Spell(at)[i] == ".."; }
    }
  }

  predicate Relative(path: string) { path == "" || path[0] != '/' }

  /** What `underProject` compares: a relative path is answered when the directory's spelling begins the path's. */
  lemma UnderBySpelling(path: string, dir: string)
    requires Relative(path)
    ensures var d, p := Spell(PlaceOf(dir)), Spell(PlaceOf(path));
            && (UnderProject(path, dir).Some? <==> d == p || (d != [] && d < p))
            && (UnderProject(path, dir).Some? ==> UnderProject(path, dir).value == Join(p[|d|..], '/'))
  {
    hide Normal, PlaceOf, Spell;
    NormalPlace(path);
    NormalPlace(dir);
    SpellSolid(PlaceOf(dir));
    SpellSolid(PlaceOf(path));
    var d, p := Spell(PlaceOf(dir)), Spell(PlaceOf(path));
    NothingToStrip(d);
    NothingToStrip(p);
    if d != [] {
      JoinedPrefix(d, p);
      if p != [] {
        SplitJoin(d, '/');
        SplitJoin(p, '/');
      }
      if d < p {
        NothingToStrip(p[|d|..]);
      }
    } else {
      RootPrefixes(p);
    }
  }

  /** Nothing spelled by a place starts with a slash. */
  lemma RootPrefixes(p: Segs)
    requires Solid(p)
    ensures !("/" <= Join(p, '/')) && (Join(p, '/') == "" <==> p == [])
  {
    NothingToStrip(p);
    if p != [] {
      assert p[0][0] in p[0];
      assert Join(p, '/')[0] == p[0][0];
    }
  }

  /** For a directory that ends in a name, one spelling begins another exactly when the place is inside. */
  lemma SpellingIsInside(at: Place, dir: Place)
    requires AllNamed(at.down) && AllNamed(dir.down) && dir.down != []
    ensures Spell(dir) <= Spell(at) <==> Inside(at, dir)
    ensures Inside(at, dir) ==> Spell(at)[|Spell(dir)|..] == at.down[|dir.down|..]
  {
    ClimbEnds(at.up);
    ClimbEnds(dir.up);
    var d, p := Spell(dir), Spell(at);
    assert Named(dir.down[0]);
    if d <= p {
      assert d[dir.up] == dir.down[0];
      assert at.down != [] ==> p[at.up] == at.down[0] && Named(at.down[0]);
      assert at.up == dir.up;
      assert d[dir.up..] == dir.down && p[at.up..] == at.down;
    }
    if Inside(at, dir) {
      assert p == Climb(dir.up) + (dir.down + at.down[|dir.down|..]);
    }
  }

  /**
   * For a directory that ends in a name, `underProject` answers exactly the relative paths that
   * resolve inside it, with the way down from it.
   */
  lemma UnderProjectExactly(path: string, dir: string)
    requires Relative(path) && PlaceOf(dir).down != []
    ensures UnderProject(path, dir).Some? <==> Inside(PlaceOf(path), PlaceOf(dir))
    ensures UnderProject(path, dir).Some? ==>
              PlaceOf(UnderProject(path, dir).value) == Place(0, PlaceOf(path).down[|PlaceOf(dir).down|..])
  {
    hide Normal, UnderProject, PlaceOf, Join, Climb;
    var at, d := PlaceOf(path), PlaceOf(dir);
    NormalPlace(path);
    NormalPlace(dir);
    UnderBySpelling(path, dir);
    SpellingIsInside(at, d);
    if Inside(at, d) {
      var below := Place(0, at.down[|d.down|..]);
      assert AllNamed(below.down) by { forall i | 0 <= i < |below.down| ensures Named(below.down[i]) { assert Named(at.down[i + |d.down|]); } }
      assert Spell(below) == below.down by { ClimbEnds(0); }
      JoinedPlace(below);
    }
  }

  /** And the write rule exactly those that resolve below it, with the same way down. */
  lemma WithinProjectExactly(path: string, dir: string)
    requires Relative(path) && PlaceOf(dir).down != []
    ensures WithinProject(path, dir).Some? <==> Inside(PlaceOf(path), PlaceOf(dir)) && PlaceOf(path) != PlaceOf(dir)
    ensures WithinProject(path, dir).Some? ==> WithinProject(path, dir) == UnderProject(path, dir)
  {
    hide Normal, UnderProject, PlaceOf, Climb;
    UnderProjectExactly(path, dir);
    UnderBySpelling(path, dir);
    var at, d := PlaceOf(path), PlaceOf(dir);
    if Inside(at, d) {
      NormalPlace(path);
      NormalPlace(dir);
      SpellingIsInside(at, d);
      SpellSolid(at);
      var below := at.down[|d.down|..];
      forall i | 0 <= i < |below| ensures below[i] != "" && Free(below[i], '/') { assert below[i] == Spell(at)[|Spell(d)| + i]; }
      NothingToStrip(below);
      assert below == [] <==> at == d;
    }
  }

  lemma JoinedPlace(at: Place)
    requires AllNamed(at.down)
    ensures PlaceOf(Join(Spell(at), '/')) == at
  {
    SpellFree(at);
    SpellWalks(at);
    if Spell(at) != [] {
      SplitJoin(Spell(at), '/');
    } else {
      assert Split("", '/') == [""];
      assert Walk([""]) == Step(Walk([]), "") by { assert [""][..0] == []; }
    }
  }

  ghost predicate Judges(dir: string) {
    forall path | Relative(path) :: UnderProject(path, dir).Some? <==> Inside(PlaceOf(path), PlaceOf(dir))
  }

  /**
   * And only for those: with a directory that is the root, or nothing but climbs, some relative
   * path is misjudged: inside the root but refused, or climbing further out yet answered.
   */
  lemma JudgesExactly(dir: string)
    ensures Judges(dir) <==> PlaceOf(dir).down != []
  {
    var d := PlaceOf(dir);
    if d.down != [] {
      forall path | Relative(path) ensures UnderProject(path, dir).Some? <==> Inside(PlaceOf(path), d) {
        UnderProjectExactly(path, dir);
      }
    } else {
      var at := if d.up == 0 then Place(0, ["x"]) else Place(d.up + 1, []);
      assert AllNamed(at.down);
      var path := Join(Spell(at), '/');
      JoinedPlace(at);
      ClimbEnds(d.up);
      ClimbEnds(at.up);
      assert Relative(path) by { SpellSolid(at); RootPrefixes(Spell(at)); assert Relative(path) || "/" <= path; }
      UnderBySpelling(path, dir);
      assert Spell(d) == Climb(d.up);
      assert d.up > 0 ==> Spell(at) == Climb(d.up) + [".."];
      assert UnderProject(path, dir).Some? != Inside(at, d);
    }
  }
}
