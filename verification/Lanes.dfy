/**
 * A laned build turn's write guards and report routing. `fold` is how a case-insensitive filesystem
 * may open a name; it is taken to leave the already-folded prefix `app` alone.
 */
module Lanes {
  import opened Wrappers
  import opened ProjectPath
  import opened Text

  datatype Lane = Api | Ui

  datatype Phase = Interview | Model | Scenario | Scaffold | Iterate

  ghost predicate KeepsApp(fold: string -> string) {
    fold("app") == "app" && forall rest: string :: "app/" <= fold("app/" + rest)
  }

  // ----- write guards

  predicate Outside(path: string) {
    var p := Normal(path);
    (path != "" && (path[0] == '/' || path[0] == '\\')) || p == ".." || "../" <= p
  }

  predicate UnderUi(p: string) { p == "app" || "app/" <= p }

  predicate UnderSpec(p: string) { p == "spec" || "spec/" <= p }

  predicate UnderTest(p: string) { p == "test" || "test/" <= p }

  /** The files a build may not rewrite, as the filesystem would open them. */
  predicate Frozen(folded: string) { "test/scenario.test." <= folded || "spec/model." <= folded }

  predicate BuildMayWrite(fold: string -> string, path: string) {
    !Outside(path) && !Frozen(fold(Normal(path)))
  }

  predicate ApiMayWrite(fold: string -> string, path: string) {
    !Outside(path) && !UnderUi(fold(Normal(path))) && BuildMayWrite(fold, Normal(path))
  }

  predicate UiMayWrite(path: string) { !Outside(path) && UnderUi(Normal(path)) }

  datatype Turn = Turn(phase: Phase, lane: seq<Lane>)

  /** `writeGuardFor`: one dispatch for phases and lanes. */
  predicate MayWrite(fold: string -> string, t: Turn, path: string) {
    if t.lane != [] && (t.phase.Scaffold? || t.phase.Iterate?) then
      if t.lane[0].Api? then ApiMayWrite(fold, path) else UiMayWrite(path)
    else if t.phase.Interview? || t.phase.Model? then !Outside(path) && UnderSpec(Normal(path))
    else if t.phase.Scenario? then !Outside(path) && UnderTest(Normal(path))
    else BuildMayWrite(fold, path)
  }

  lemma UiStaysUi(fold: string -> string, p: string)
    requires KeepsApp(fold) && UnderUi(p)
    ensures UnderUi(fold(p))
  {
    if p != "app" {
      assert p == "app/" + p[4..];
    }
  }

  /** No file is writable by both lanes, however its path is spelled for each and whatever case the filesystem folds. */
  lemma LanesDisjoint(fold: string -> string, a: string, u: string)
    requires KeepsApp(fold) && fold(Normal(a)) == fold(Normal(u))
    ensures !(ApiMayWrite(fold, a) && UiMayWrite(u))
  {
    if UnderUi(Normal(u)) {
      UiStaysUi(fold, Normal(u));
    }
  }

  /** No build turn, laned or not, writes the model or the scenario, in any spelling the filesystem folds onto them. */
  lemma BuildNeverWritesFrozen(fold: string -> string, t: Turn, path: string)
    requires KeepsApp(fold) && (t.phase.Scaffold? || t.phase.Iterate?) && Frozen(fold(Normal(path)))
    ensures !MayWrite(fold, t, path)
  {
    NormalIdempotent(path);
    if UnderUi(Normal(path)) {
      UiStaysUi(fold, Normal(path));
    }
  }

  /** The textual test for climbing is exact: the path resolves above where it starts. */
  lemma ClimbsExactly(path: string)
    ensures Normal(path) == ".." || "../" <= Normal(path) <==> PlaceOf(path).up > 0
  {
    hide Normal, PlaceOf;
    NormalPlace(path);
    var at := PlaceOf(path);
    var segs := Spell(at);
    ClimbEnds(at.up);
    SpellSolid(at);
    NothingToStrip(segs);
    var up: seq<string> := [".."];
    assert segs != [] ==> (segs[0] == ".." <==> at.up > 0) by {
      if at.up == 0 && segs != [] { assert Named(at.down[0]); }
    }
    JoinedPrefix(up, segs);
    if segs != [] {
      assert up <= segs <==> segs[0] == "..";
      SplitJoin(segs, '/');
      SplitJoin(up, '/');
    }
  }

  /** Every write any turn allows resolves inside the project, climbing nowhere. */
  lemma WritesStayInside(fold: string -> string, t: Turn, path: string)
    requires MayWrite(fold, t, path)
    ensures PlaceOf(path).up == 0 && Relative(path)
  {
    ClimbsExactly(path);
  }

  /** Relative, climbing nowhere, and not written with a leading backslash. */
  ghost predicate Within(path: string) { PlaceOf(path).up == 0 && (path == "" || (path[0] != '/' && path[0] != '\\')) }

  /** The path leads to `top` or below it. */
  ghost predicate Below(path: string, top: string) { PlaceOf(path).down != [] && PlaceOf(path).down[0] == top }

  lemma OutsideExactly(path: string)
    ensures Outside(path) <==> !Within(path)
  {
    hide Normal, PlaceOf;
    ClimbsExactly(path);
  }

  /** A textual test for a top directory is exact for paths that climb nowhere. */
  lemma BelowExactly(path: string, top: string)
    requires PlaceOf(path).up == 0 && top != "" && '/' !in top
    ensures Normal(path) == top || top + "/" <= Normal(path) <==> Below(path, top)
  {
    hide Normal, PlaceOf;
    NormalPlace(path);
    var at := PlaceOf(path);
    var segs := Spell(at);
    ClimbEnds(at.up);
    SpellSolid(at);
    assert segs == at.down;
    var one: seq<string> := [top];
    assert AllFree(one, '/') && Join(one, '/') == top;
    JoinedPrefix(one, segs);
    if segs != [] {
      SplitJoin(segs, '/');
      SplitNone(top, '/');
      assert one < segs || segs == one <==> segs[0] == top;
    } else {
      assert Join(segs, '/') == "";
    }
  }

  /**
   * Which paths each turn may write, by where they lead: interview and model turns those below `spec`,
   * scenario turns those below `test`, the UI lane those below `app`, and a build all that is not frozen;
   * less, in the API lane, what the filesystem opens below `app`, and a name that begins with a backslash.
   */
  lemma MayWriteExactly(fold: string -> string, t: Turn, path: string)
    ensures var builds := t.phase == Scaffold || t.phase == Iterate;
            var free := !("test/scenario.test." <= fold(Normal(path))) && !("spec/model." <= fold(Normal(path)));
            MayWrite(fold, t, path) <==>
              && Within(path)
              && (t.phase == Interview || t.phase == Model ==> Below(path, "spec"))
              && (t.phase == Scenario ==> Below(path, "test"))
              && (builds && t.lane == [] ==> free)
              && (builds && t.lane != [] && t.lane[0] == Ui ==> Below(path, "app"))
              && (builds && t.lane != [] && t.lane[0] == Api ==>
                    && free && fold(Normal(path)) != "app" && !("app/" <= fold(Normal(path)))
                    && (Normal(path) == "" || Normal(path)[0] != '\\'))
  {
    hide Normal, PlaceOf;
    OutsideExactly(path);
    NormalIdempotent(path);
    if Within(path) {
      BelowExactly(path, "spec");
      BelowExactly(path, "test");
      BelowExactly(path, "app");
      NormalWithin(path);
      OutsideExactly(Normal(path));
    }
  }

  lemma NormalWithin(path: string)
    requires Within(path)
    ensures Normal(path) == "" || Normal(path)[0] != '\\' ==> Within(Normal(path))
  {
    hide Normal, PlaceOf;
    NormalPlace(path);
    SpellSolid(PlaceOf(path));
    RootPrefixes(Spell(PlaceOf(path)));
    assert Normal(path) != "" && Normal(path)[0] == '/' ==> "/" <= Normal(path);
  }

  // ----- a gate report

  /** One gate's section: its header line and the lines under it. */
  datatype Section = Section(header: string, lines: seq<string>)

  /** Who owns a line: the lanes of the paths it names, else those of the line before, at first both. */
  function Owners(lanesOf: string -> set<Lane>, lines: seq<string>, i: nat): set<Lane>
    requires i <= |lines|
  {
    if i == 0 then {Api, Ui}
    else if lanesOf(lines[i - 1]) != {} then lanesOf(lines[i - 1])
    else Owners(lanesOf, lines, i - 1)
  }

  function Kept(lanesOf: string -> set<Lane>, lines: seq<string>, lane: Lane, i: nat): seq<string>
    requires i <= |lines|
  {
    if i == 0 then []
    else Kept(lanesOf, lines, lane, i - 1) + if lane in Owners(lanesOf, lines, i) then [lines[i - 1]] else []
  }

  predicate Names(lanesOf: string -> set<Lane>, lines: seq<string>) {
    exists i | 0 <= i < |lines| :: lanesOf(lines[i]) != {}
  }

  predicate NamesFor(lanesOf: string -> set<Lane>, lines: seq<string>, lane: Lane) {
    exists i | 0 <= i < |lines| :: lane in lanesOf(lines[i])
  }

  /** What of a section a lane is given, if anything. */
  function SectionFor(lanesOf: string -> set<Lane>, s: Section, lane: Lane): seq<Section> {
    if !Names(lanesOf, s.lines) then (if lane.Api? then [s] else [])
    else if NamesFor(lanesOf, s.lines, lane) then [Section(s.header, Kept(lanesOf, s.lines, lane, |s.lines|))]
    else []
  }

  function ReportFor(lanesOf: string -> set<Lane>, report: seq<Section>, lane: Lane): seq<Section> {
    if report == [] then []
    else ReportFor(lanesOf, report[..|report| - 1], lane) + SectionFor(lanesOf, report[|report| - 1], lane)
  }

  method RouteSection(lanesOf: string -> set<Lane>, s: Section, lane: Lane) returns (kept: seq<Section>)
    ensures kept == SectionFor(lanesOf, s, lane)
  {
    var owners: set<Lane>, named, mine := {Api, Ui}, false, false;
    var keptLines: seq<string> := [];
    for i := 0 to |s.lines|
      invariant owners == Owners(lanesOf, s.lines, i) && keptLines == Kept(lanesOf, s.lines, lane, i)
      invariant named <==> exists k | 0 <= k < i :: lanesOf(s.lines[k]) != {}
      invariant mine <==> exists k | 0 <= k < i :: lane in lanesOf(s.lines[k])
    {
      var lanes := lanesOf(s.lines[i]);
      if lanes != {} {
        owners, named := lanes, true;
        if lane in owners {
          mine := true;
        }
      }
      if lane in owners {
        keptLines := keptLines + [s.lines[i]];
      }
    }
    kept := if !named then (if lane.Api? then [s] else []) else if mine then [Section(s.header, keptLines)] else [];
  }

  // ----- a report as text

  const RULE := "\n\n\U{2500}\U{2500} "

  /** Cut before every `── ` that stands after a blank line. */
  function SplitSections(text: string): (parts: seq<string>)
    ensures |parts| >= 1
  {
    if text == "" then [""]
    else if RULE <= text then [""] + SplitSections(text[2..])
    else
      var rest := SplitSections(text[1..]);
      [[text[0]] + rest[0]] + rest[1..]
  }

  function JoinSections(parts: seq<string>): string {
    if parts == [] then "" else if |parts| == 1 then parts[0] else parts[0] + "\n\n" + JoinSections(parts[1..])
  }

  function SectionOf(text: string): Section { var lines := Split(text, '\n'); Section(lines[0], lines[1..]) }

  function TextOf(s: Section): string { Join([s.header] + s.lines, '\n') }

  function SectionsOf(report: string): seq<Section> {
    var parts := SplitSections(report);
    seq(|parts|, i requires 0 <= i < |parts| => SectionOf(parts[i]))
  }

  function TextsOf(sections: seq<Section>): seq<string> {
    seq(|sections|, i requires 0 <= i < |sections| => TextOf(sections[i]))
  }

  lemma JoinAhead(rest: seq<string>)
    requires rest != []
    ensures JoinSections([""] + rest) == "\n\n" + JoinSections(rest)
  {
    assert ([""] + rest)[1..] == rest;
  }

  lemma JoinOnto(c: char, rest: seq<string>)
    requires rest != []
    ensures JoinSections([[c] + rest[0]] + rest[1..]) == [c] + JoinSections(rest)
  {
    assert ([[c] + rest[0]] + rest[1..])[1..] == rest[1..];
  }

  lemma {:induction false} SectionsRejoin(text: string)
    ensures JoinSections(SplitSections(text)) == text
  {
    if text == "" {
      assert JoinSections([""]) == "";
    } else {
      hide JoinSections;
      if RULE <= text {
        SectionsRejoin(text[2..]);
        JoinAhead(SplitSections(text[2..]));
        assert text[..2] == RULE[..2] == "\n\n" && text == text[..2] + text[2..];
      } else {
        SectionsRejoin(text[1..]);
        JoinOnto(text[0], SplitSections(text[1..]));
        assert text == [text[0]] + text[1..];
      }
    }
  }

  lemma SectionReads(text: string)
    ensures TextOf(SectionOf(text)) == text
  {
    hide Split, Join;
    var lines := Split(text, '\n');
    assert [lines[0]] + lines[1..] == lines;
    JoinSplit(text, '\n');
  }

  /** Taking a report apart into sections of lines loses nothing. */
  lemma ReportReads(report: string)
    ensures JoinSections(TextsOf(SectionsOf(report))) == report
  {
    hide JoinSections, SplitSections, SectionOf, TextOf;
    var parts := SplitSections(report);
    forall i | 0 <= i < |parts| ensures TextOf(SectionOf(parts[i])) == parts[i] { SectionReads(parts[i]); }
    assert TextsOf(SectionsOf(report)) == parts;
    SectionsRejoin(report);
  }

  /** What a lane is sent of a report: what it owns of each section, or nothing. */
  function LaneReport(lanesOf: string -> set<Lane>, report: string, lane: Lane): Option<string> {
    var kept := ReportFor(lanesOf, SectionsOf(report), lane);
    if kept == [] then None else Some(JoinSections(TextsOf(kept)))
  }

  lemma TextsJoined(a: seq<Section>, b: seq<Section>)
    ensures TextsOf(a + b) == TextsOf(a) + TextsOf(b)
  {
    hide TextOf;
  }

  method ReportForLane(lanesOf: string -> set<Lane>, report: string, lane: Lane) returns (r: Option<string>)
    ensures r == LaneReport(lanesOf, report, lane)
  {
    hide SplitSections, SectionOf, TextOf, JoinSections, SectionFor;
    var parts := SplitSections(report);
    ghost var sections := SectionsOf(report);
    var kept: seq<string> := [];
    assert ReportFor(lanesOf, sections[..0], lane) == [];
    for i := 0 to |parts|
      invariant kept == TextsOf(ReportFor(lanesOf, sections[..i], lane))
    {
      assert sections[..i + 1][..i] == sections[..i];
      var section := RouteSection(lanesOf, SectionOf(parts[i]), lane);
      TextsJoined(ReportFor(lanesOf, sections[..i], lane), section);
      kept := kept + TextsOf(section);
    }
    assert sections[..|parts|] == sections;
    r := if kept == [] then None else Some(JoinSections(kept));
  }

  /** Whose line `i` is, a lane that is also given its section. */
  lemma {:induction false} OwnerIsNamed(lanesOf: string -> set<Lane>, lines: seq<string>, i: nat) returns (lane: Lane)
    requires i <= |lines| && Names(lanesOf, lines)
    ensures lane in Owners(lanesOf, lines, i) && NamesFor(lanesOf, lines, lane)
  {
    if i == 0 {
      var k :| 0 <= k < |lines| && lanesOf(lines[k]) != {};
      lane :| lane in lanesOf(lines[k]);
      assert lane.Api? || lane.Ui?;
    } else if lanesOf(lines[i - 1]) != {} {
      lane :| lane in lanesOf(lines[i - 1]);
    } else {
      lane := OwnerIsNamed(lanesOf, lines, i - 1);
    }
  }

  lemma {:induction false} KeptHolds(lanesOf: string -> set<Lane>, lines: seq<string>, lane: Lane, i: nat, n: nat)
    requires i < n <= |lines| && lane in Owners(lanesOf, lines, i + 1)
    ensures lines[i] in Kept(lanesOf, lines, lane, n)
  {
    if n > i + 1 {
      KeptHolds(lanesOf, lines, lane, i, n - 1);
    }
  }

  lemma {:induction false} SectionReported(lanesOf: string -> set<Lane>, report: seq<Section>, lane: Lane, k: nat, s: Section)
    requires k < |report| && s in SectionFor(lanesOf, report[k], lane)
    ensures s in ReportFor(lanesOf, report, lane)
  {
    if k < |report| - 1 {
      SectionReported(lanesOf, report[..|report| - 1], lane, k, s);
    }
  }

  /** Line `j` names paths and no line after it up to `i` does. */
  ghost predicate NamesLast(lanesOf: string -> set<Lane>, lines: seq<string>, j: nat, i: nat) {
    j <= i < |lines| && lanesOf(lines[j]) != {} && forall k | j < k <= i :: lanesOf(lines[k]) == {}
  }

  /** A line belongs to the lanes of the last line up to it that names paths, and to both where none does. */
  lemma {:induction false} OwnersExactly(lanesOf: string -> set<Lane>, lines: seq<string>, i: nat)
    requires i < |lines|
    ensures forall j: nat | NamesLast(lanesOf, lines, j, i) :: Owners(lanesOf, lines, i + 1) == lanesOf(lines[j])
    ensures (forall k | 0 <= k <= i :: lanesOf(lines[k]) == {}) ==> Owners(lanesOf, lines, i + 1) == {Api, Ui}
  {
    if i > 0 && lanesOf(lines[i]) == {} {
      OwnersExactly(lanesOf, lines, i - 1);
      forall j: nat | NamesLast(lanesOf, lines, j, i) ensures NamesLast(lanesOf, lines, j, i - 1) { }
    }
  }

  /** `at` picks lines in order. */
  ghost predicate Picks(at: seq<nat>, n: nat) { (forall i | 0 <= i < |at| :: at[i] < n) && forall i, j | 0 <= i < j < |at| :: at[i] < at[j] }

  ghost predicate KeptAt(lanesOf: string -> set<Lane>, lines: seq<string>, lane: Lane, n: nat, kept: seq<string>, at: seq<nat>)
    requires n <= |lines|
  {
    && Picks(at, n) && |at| == |kept| && (forall i | 0 <= i < |at| :: kept[i] == lines[at[i]])
    && forall i: nat | i < n :: i in at <==> lane in Owners(lanesOf, lines, i + 1)
  }

  lemma KeptOn(lanesOf: string -> set<Lane>, lines: seq<string>, lane: Lane, n: nat, kept: seq<string>, at: seq<nat>)
    requires n < |lines| && KeptAt(lanesOf, lines, lane, n, kept, at)
    ensures lane !in Owners(lanesOf, lines, n + 1) ==> KeptAt(lanesOf, lines, lane, n + 1, kept, at)
    ensures lane in Owners(lanesOf, lines, n + 1) ==> KeptAt(lanesOf, lines, lane, n + 1, kept + [lines[n]], at + [n])
  {
    hide Owners;
    var more := at + [n];
    assert more[|at|] == n && forall i | 0 <= i < |at| :: more[i] == at[i];
    assert forall i: nat | i < n :: i in more <==> i in at;
    assert n !in at && n in more;
  }

  /** A lane is given exactly the lines it owns, in order. */
  lemma {:induction false} KeptExactly(lanesOf: string -> set<Lane>, lines: seq<string>, lane: Lane, n: nat) returns (at: seq<nat>)
    requires n <= |lines|
    ensures KeptAt(lanesOf, lines, lane, n, Kept(lanesOf, lines, lane, n), at)
  {
    hide Owners, KeptAt;
    at := [];
    if n == 0 {
      NoneKept(lanesOf, lines, lane);
    } else {
      at := KeptExactly(lanesOf, lines, lane, n - 1);
      var so := Kept(lanesOf, lines, lane, n - 1);
      KeptOn(lanesOf, lines, lane, n - 1, so, at);
      assert so + [] == so;
      at := if lane in Owners(lanesOf, lines, n) then at + [n - 1] else at;
    }
  }

  lemma NoneKept(lanesOf: string -> set<Lane>, lines: seq<string>, lane: Lane)
    ensures KeptAt(lanesOf, lines, lane, 0, [], [])
  {
  }

  /** A section reaches a lane exactly when a line of it is the lane's, or when none is anyone's and the lane is the API's. */
  lemma GivenExactly(lanesOf: string -> set<Lane>, s: Section, lane: Lane)
    ensures SectionFor(lanesOf, s, lane) != []
            <==> (exists i | 0 <= i < |s.lines| :: lane in lanesOf(s.lines[i])) || (lane == Api && forall i | 0 <= i < |s.lines| :: lanesOf(s.lines[i]) == {})
    ensures forall t | t in SectionFor(lanesOf, s, lane) :: t.header == s.header && (t == s || t.lines == Kept(lanesOf, s.lines, lane, |s.lines|))
    ensures |SectionFor(lanesOf, s, lane)| <= 1
  {
  }

  /** Every line of a report reaches at least one lane, under its own section's header. */
  lemma EveryLineRouted(lanesOf: string -> set<Lane>, report: seq<Section>, k: nat, i: nat)
    requires k < |report| && i < |report[k].lines|
    ensures exists lane, s :: s in ReportFor(lanesOf, report, lane) && s.header == report[k].header && report[k].lines[i] in s.lines
  {
    var section := report[k];
    if Names(lanesOf, section.lines) {
      var lane := OwnerIsNamed(lanesOf, section.lines, i + 1);
      KeptHolds(lanesOf, section.lines, lane, i, |section.lines|);
      SectionReported(lanesOf, report, lane, k, Section(section.header, Kept(lanesOf, section.lines, lane, |section.lines|)));
    } else {
      SectionReported(lanesOf, report, Api, k, section);
    }
  }

  lemma {:induction false} AllApiKept(lanesOf: string -> set<Lane>, lines: seq<string>, i: nat)
    requires i <= |lines| && forall k | 0 <= k < |lines| :: lanesOf(lines[k]) <= {Api}
    ensures Api in Owners(lanesOf, lines, i) && Kept(lanesOf, lines, Api, i) == lines[..i]
  {
    if i > 0 {
      AllApiKept(lanesOf, lines, i - 1);
    }
  }

  lemma ApiSectionWhole(lanesOf: string -> set<Lane>, s: Section)
    requires forall k | 0 <= k < |s.lines| :: lanesOf(s.lines[k]) <= {Api}
    ensures SectionFor(lanesOf, s, Api) == [s]
  {
    AllApiKept(lanesOf, s.lines, |s.lines|);
    assert s.lines[..|s.lines|] == s.lines;
    if k :| 0 <= k < |s.lines| && lanesOf(s.lines[k]) != {} {
      var lane :| lane in lanesOf(s.lines[k]);
      assert lane == Api;
    }
  }

  lemma {:induction false} ApiKeepsAll(lanesOf: string -> set<Lane>, report: seq<Section>)
    requires forall s, line | s in report && line in s.lines :: lanesOf(line) <= {Api}
    ensures ReportFor(lanesOf, report, Api) == report
  {
    hide SectionFor;
    if report != [] {
      var s := report[|report| - 1];
      ApiKeepsAll(lanesOf, report[..|report| - 1]);
      forall k | 0 <= k < |s.lines| ensures lanesOf(s.lines[k]) <= {Api} {
        assert s in report && s.lines[k] in s.lines;
      }
      ApiSectionWhole(lanesOf, s);
    }
  }

  /** With no line the UI lane's, the API lane is sent the report to the character, and the UI lane nothing. */
  lemma ApiReportUnchanged(lanesOf: string -> set<Lane>, report: string)
    requires forall s, line | s in SectionsOf(report) && line in s.lines :: lanesOf(line) <= {Api}
    ensures LaneReport(lanesOf, report, Api) == Some(report) && LaneReport(lanesOf, report, Ui) == None
  {
    hide JoinSections, TextsOf, SectionOf;
    ApiKeepsAll(lanesOf, SectionsOf(report));
    UiKeepsNone(lanesOf, SectionsOf(report));
    ReportReads(report);
  }

  lemma {:induction false} UiKeepsNone(lanesOf: string -> set<Lane>, report: seq<Section>)
    requires forall s, line | s in report && line in s.lines :: lanesOf(line) <= {Api}
    ensures ReportFor(lanesOf, report, Ui) == []
  {
    if report != [] {
      var s := report[|report| - 1];
      UiKeepsNone(lanesOf, report[..|report| - 1]);
      forall k | 0 <= k < |s.lines| ensures Ui !in lanesOf(s.lines[k]) {
        assert s in report && s.lines[k] in s.lines;
        assert lanesOf(s.lines[k]) <= {Api};
      }
    }
  }
}
