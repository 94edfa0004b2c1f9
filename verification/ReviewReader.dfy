/**
 * The reader's reply held to the change: what is kept stands, once, on a changed line of a sent file
 * that holds its quote; all the rest of the reply is dropped and counted.
 */
module ReviewReader {
  import opened Wrappers
  import opened Text
  import opened ReviewDiff
  import LineDiff
  import EditScript
  import Sorting

  datatype Severity = Blocking | Advisory

  /** A finding as the reply gives it, or text it says addresses the reviewer. */
  datatype Finding = Finding(item: string, file: string, line: nat, quote: string, failsWhen: string, fix: string, unconfirmed: bool)

  datatype Kept = Kept(item: string, severity: Severity, file: string, line: nat, quote: string, failsWhen: string, fix: string, unconfirmed: bool)

  const OUTSIDE := "outside"
  const ADDRESSES := "text in the change addresses the reviewer"
  const REMOVE_IT := "remove it, or say why it belongs in the change"

  const QUOTE_MAX := 200
  const TEXT_MAX := 500

  /** Findings of this item are recorded with an empty quote. */
  const NO_QUOTE_ITEM := "S7"

  /** The checklist's items, the severity of those a reader may judge, and how a quote is trimmed and masked. */
  datatype Rules = Rules(known: set<string>, judgement: map<string, Severity>, trim: string -> string, redact: (string, nat) -> string)

  /** A reply's raw entries; `None` is one that fails its own schema. */
  datatype Raw = Raw(findings: seq<Option<Finding>>, addressed: seq<Option<Finding>>, checkedClean: set<string>, notApplicable: set<string>)

  datatype Reply = Reply(findings: seq<Finding>, addressed: seq<Finding>, checkedClean: set<string>, notApplicable: set<string>, offSpec: nat)

  // ----- parsing

  /** The entries that meet their schema, in order. */
  function Good(values: seq<Option<Finding>>): (good: seq<Finding>)
    ensures |good| <= |values|
  {
    if values == [] then []
    else Good(values[..|values| - 1]) + if values[|values| - 1].Some? then [values[|values| - 1].value] else []
  }

  lemma {:induction false} GoodExact(values: seq<Option<Finding>>, f: Finding)
    ensures f in Good(values) <==> Some(f) in values
  {
    if values != [] {
      GoodExact(values[..|values| - 1], f);
      assert values == values[..|values| - 1] + [values[|values| - 1]];
    }
  }

  function Parsed(raw: Raw): Reply {
    var findings, addressed := Good(raw.findings), Good(raw.addressed);
    Reply(findings, addressed, raw.checkedClean, raw.notApplicable, |raw.findings| - |findings| + (|raw.addressed| - |addressed|))
  }

  /** Entry by entry: a good one stays, a bad one goes, and the order is kept. */
  lemma {:induction false} GoodJoined(a: seq<Option<Finding>>, b: seq<Option<Finding>>)
    ensures Good(a + b) == Good(a) + Good(b)
  {
    if b == [] {
      assert a + b == a;
    } else {
      GoodJoined(a, b[..|b| - 1]);
      assert (a + b)[..|a + b| - 1] == a + b[..|b| - 1];
    }
  }

  lemma GoodEach(f: Finding)
    ensures Good([Some(f)]) == [f] && Good([None]) == []
  {
    var one: seq<Option<Finding>>, none: seq<Option<Finding>> := [Some(f)], [None];
    assert one[..0] == [] && none[..0] == [];
  }

  /** Each entry parsed on its own: one that fails costs only itself. */
  method Each(values: seq<Option<Finding>>) returns (good: seq<Finding>, bad: nat)
    ensures good == Good(values) && |good| + bad == |values|
  {
    good, bad := [], 0;
    for i := 0 to |values|
      invariant good == Good(values[..i]) && |good| + bad == i
    {
      assert values[..i + 1][..i] == values[..i];
      if values[i].Some? {
        good := good + [values[i].value];
      } else {
        bad := bad + 1;
      }
    }
    assert values[..|values|] == values;
  }

  /** Nothing for a reply that is not one object with a list of findings; else every entry kept in order or counted. */
  method ParseReply(raw: Option<Raw>) returns (r: Option<Reply>)
    ensures r.None? <==> raw.None?
    ensures raw.Some? ==> r == Some(Parsed(raw.value))
    ensures raw.Some? ==> |r.value.findings| + |r.value.addressed| + r.value.offSpec == |raw.value.findings| + |raw.value.addressed|
    ensures raw.Some? ==> forall f :: f in r.value.findings <==> Some(f) in raw.value.findings
    ensures raw.Some? ==> forall f :: f in r.value.addressed <==> Some(f) in raw.value.addressed
  {
    if raw.None? {
      return None;
    }
    var findings, bad := Each(raw.value.findings);
    var addressed, worse := Each(raw.value.addressed);
    forall f ensures f in findings <==> Some(f) in raw.value.findings { GoodExact(raw.value.findings, f); }
    forall f ensures f in addressed <==> Some(f) in raw.value.addressed { GoodExact(raw.value.addressed, f); }
    r := Some(Reply(findings, addressed, raw.value.checkedClean, raw.value.notApplicable, bad + worse));
  }

  // ----- control characters

  predicate Control(c: char) {
    var n := c as int; n <= 8 || 10 <= n <= 0x1F || 0x7F <= n <= 0x9F
  }

  ghost predicate Plain(s: string) { forall i | 0 <= i < |s| :: !Control(s[i]) }

  function StripControl(s: string): (r: string)
    ensures |r| <= |s|
    ensures |r| == |s| ==> r == s
  {
    if s == "" then "" else (if Control(s[0]) then "" else [s[0]]) + StripControl(s[1..])
  }

  /** Stripping leaves a string alone exactly when it has nothing to strip. */
  lemma {:induction false} StripExactly(s: string)
    ensures StripControl(s) == s <==> Plain(s)
  {
    if s != "" {
      StripExactly(s[1..]);
      if StripControl(s) == s {
        assert !Control(s[0]);
        assert StripControl(s)[1..] == StripControl(s[1..]);
        forall i | 0 <= i < |s| ensures !Control(s[i]) { if i > 0 { assert s[i] == s[1..][i - 1]; } }
      }
    }
  }

  /** What is left is the rest, in order: no C0 or C1 control but tab, no DEL. */
  lemma {:induction false} StripJoined(a: string, b: string)
    ensures StripControl(a + b) == StripControl(a) + StripControl(b)
  {
    if a == "" {
      assert a + b == b;
    } else {
      StripJoined(a[1..], b);
      assert (a + b)[1..] == a[1..] + b;
    }
  }

  lemma StripEach(c: char)
    ensures StripControl([c]) == if (c < ' ' && c != '\t') || '\U{007F}' <= c <= '\U{009F}' then "" else [c]
  {
    assert [c][1..] == "";
  }

  // ----- the drop rule

  predicate Marked(f: ChangedFile, line: nat) { f.changed.All? || line in f.changed.lines }

  /** The line exists in the file, the change marks it, and the trimmed quote is on it. */
  predicate Supports(trim: string -> string, f: ChangedFile, line: nat, quote: string) {
    var lines := Split(f.text, '\n');
    1 <= line <= |lines| && Marked(f, line) && trim(quote) != "" && Contains(lines[line - 1], trim(quote))
  }

  /** The file sent under a path. */
  function Target(files: seq<ChangedFile>, path: string): (f: Option<ChangedFile>)
    ensures f.Some? ==> f.value in files && f.value.path == path
  {
    if files == [] then None
    else if files[|files| - 1].path == path then Some(files[|files| - 1])
    else Target(files[..|files| - 1], path)
  }

  predicate OnLine(trim: string -> string, files: seq<ChangedFile>, e: Finding) {
    Target(files, e.file).Some? && Supports(trim, Target(files, e.file).value, e.line, e.quote)
  }

  function Claimed(rules: Rules, reply: Reply): set<string> { (reply.checkedClean + reply.notApplicable) * rules.known }

  /** What may be kept of one entry: nothing, or its record. */
  function Admissible(rules: Rules, claimed: set<string>, files: seq<ChangedFile>, e: Finding, addressed: bool): Option<Kept> {
    if !OnLine(rules.trim, files, e) then None
    else if addressed then
      Some(Kept(OUTSIDE, Advisory, StripControl(e.file), e.line, rules.redact(rules.trim(e.quote), QUOTE_MAX), ADDRESSES, REMOVE_IT, false))
    else if e.item !in rules.judgement || e.item in claimed then None
    else
      var quote := if e.item == NO_QUOTE_ITEM then "" else rules.redact(rules.trim(e.quote), QUOTE_MAX);
      Some(Kept(e.item, rules.judgement[e.item], StripControl(e.file), e.line, quote,
                rules.redact(e.failsWhen, TEXT_MAX), rules.redact(e.fix, TEXT_MAX), e.unconfirmed))
  }

  ghost predicate PathsOnce(files: seq<ChangedFile>) { forall i, j | 0 <= i < j < |files| :: files[i].path != files[j].path }

  lemma {:induction false} TargetExactly(files: seq<ChangedFile>, f: ChangedFile)
    requires PathsOnce(files) && f in files
    ensures Target(files, f.path) == Some(f)
  {
    var last := files[|files| - 1];
    if f != last {
      var rest := files[..|files| - 1];
      assert files == rest + [last] && f in rest;
      var k :| 0 <= k < |rest| && rest[k] == f;
      assert files[k] == f;
      TargetExactly(rest, f);
    }
  }

  /** The entry quotes a sent file: a marked line of it holds the quote, trimmed and not blank. */
  ghost predicate Quotes(trim: string -> string, f: ChangedFile, e: Finding) {
    var lines := Split(f.text, '\n');
    && f.path == e.file && 1 <= e.line <= |lines| && (f.changed == All || (f.changed.Lines? && e.line in f.changed.lines))
    && trim(e.quote) != "" && Somewhere(lines[e.line - 1], trim(e.quote))
  }

  /** An entry is admissible exactly when it quotes a sent file and, unless it is addressed text, its item is judged and unclaimed. */
  lemma AdmissibleExactly(rules: Rules, claimed: set<string>, files: seq<ChangedFile>, e: Finding, addressed: bool)
    requires PathsOnce(files)
    ensures Admissible(rules, claimed, files, e, addressed).Some?
            <==> (exists f :: f in files && Quotes(rules.trim, f, e)) && (addressed || (e.item in rules.judgement && e.item !in claimed))
  {
    hide Split, Contains, Target, StripControl;
    var trimmed := rules.trim(e.quote);
    forall f | f in files && f.path == e.file ensures Supports(rules.trim, f, e.line, e.quote) <==> Quotes(rules.trim, f, e) {
      var lines := Split(f.text, '\n');
      if 1 <= e.line <= |lines| { ContainsExactly(lines[e.line - 1], trimmed); }
    }
    if f :| f in files && Quotes(rules.trim, f, e) { TargetExactly(files, f); }
  }

  /** And its record says where, how grave, and what of it may be stored. */
  lemma RecordSays(rules: Rules, claimed: set<string>, files: seq<ChangedFile>, e: Finding, addressed: bool, k: Kept)
    requires Admissible(rules, claimed, files, e, addressed) == Some(k)
    ensures k.line == e.line && k.file == StripControl(e.file) && k.item == if addressed then "outside" else e.item
    ensures addressed ==> k.severity.Advisory? && !k.unconfirmed && k.quote == rules.redact(rules.trim(e.quote), 200)
    ensures !addressed ==> e.item in rules.judgement && k.severity == rules.judgement[e.item] && k.unconfirmed == e.unconfirmed
    ensures !addressed ==> k.failsWhen == rules.redact(e.failsWhen, 500) && k.fix == rules.redact(e.fix, 500)
    ensures !addressed ==> k.quote == if e.item == "S7" then "" else rules.redact(rules.trim(e.quote), 200)
  {
    hide StripControl, OnLine;
  }

  // ----- assembling

  datatype Assembled = Assembled(kept: seq<Kept>, dropped: nat)

  function Spot(k: Kept): (string, string, nat) { (k.item, k.file, k.line) }

  ghost predicate Once(kept: seq<Kept>) { forall i, j | 0 <= i < j < |kept| :: Spot(kept[i]) != Spot(kept[j]) }

  ghost predicate Holds(kept: seq<Kept>, k: Kept) { exists i :: 0 <= i < |kept| && Spot(kept[i]) == Spot(k) }

  /** One entry: kept when it is admissible and its spot new, else dropped. */
  ghost function Take(a: Assembled, k: Option<Kept>): Assembled {
    if k.None? || Holds(a.kept, k.value) then a.(dropped := a.dropped + 1) else a.(kept := a.kept + [k.value])
  }

  ghost function TakeAll(rules: Rules, claimed: set<string>, files: seq<ChangedFile>, entries: seq<Finding>, addressed: bool, a: Assembled): Assembled {
    if entries == [] then a
    else
      Take(TakeAll(rules, claimed, files, entries[..|entries| - 1], addressed, a),
           Admissible(rules, claimed, files, entries[|entries| - 1], addressed))
  }

  ghost predicate Accounts(rules: Rules, claimed: set<string>, files: seq<ChangedFile>, entries: seq<Finding>, addressed: bool, a: Assembled, b: Assembled) {
    && Once(b.kept) && a.kept <= b.kept && |b.kept| + b.dropped == |a.kept| + a.dropped + |entries|
    && (forall k | k in b.kept :: k in a.kept || exists e :: e in entries && Admissible(rules, claimed, files, e, addressed) == Some(k))
    && (forall e | e in entries && Admissible(rules, claimed, files, e, addressed).Some? ::
          Holds(b.kept, Admissible(rules, claimed, files, e, addressed).value))
  }

  lemma {:induction false} TakeAllAccounts(rules: Rules, claimed: set<string>, files: seq<ChangedFile>, entries: seq<Finding>, addressed: bool, a: Assembled)
    requires Once(a.kept)
    ensures Accounts(rules, claimed, files, entries, addressed, a, TakeAll(rules, claimed, files, entries, addressed, a))
  {
    hide Admissible;
    if entries != [] {
      var rest, last := entries[..|entries| - 1], entries[|entries| - 1];
      TakeAllAccounts(rules, claimed, files, rest, addressed, a);
      assert entries == rest + [last];
      TakeOne(rules, claimed, files, rest, last, addressed, a, TakeAll(rules, claimed, files, rest, addressed, a));
    }
  }

  lemma TakeOne(rules: Rules, claimed: set<string>, files: seq<ChangedFile>, rest: seq<Finding>, last: Finding, addressed: bool, a: Assembled, b: Assembled)
    requires Accounts(rules, claimed, files, rest, addressed, a, b)
    ensures Accounts(rules, claimed, files, rest + [last], addressed, a, Take(b, Admissible(rules, claimed, files, last, addressed)))
  {
    hide Admissible;
    var k := Admissible(rules, claimed, files, last, addressed);
    var c := Take(b, k);
    forall e | e in rest + [last] && Admissible(rules, claimed, files, e, addressed).Some?
      ensures Holds(c.kept, Admissible(rules, claimed, files, e, addressed).value)
    {
      if e in rest {
        var want := Admissible(rules, claimed, files, e, addressed).value;
        var i :| 0 <= i < |b.kept| && Spot(b.kept[i]) == Spot(want);
        assert c.kept[i] == b.kept[i];
      } else if c != b.(dropped := b.dropped + 1) {
        assert c.kept[|b.kept|] == k.value;
      }
    }
  }

  // ----- display order

  function Rank(k: Kept): nat { if k.item == OUTSIDE then 2 else if k.severity.Blocking? then 0 else 1 }

  /** Blocking, then advisory, then outside; by item, file and line within each. */
  predicate ShownFirst(compare: (string, string) -> int, a: Kept, b: Kept) {
    if Rank(a) != Rank(b) then Rank(a) < Rank(b)
    else if compare(a.item, b.item) != 0 then compare(a.item, b.item) < 0
    else if compare(a.file, b.file) != 0 then compare(a.file, b.file) < 0
    else a.line <= b.line
  }

  function InOrder(compare: (string, string) -> int): (Kept, Kept) -> bool { (a: Kept, b: Kept) => ShownFirst(compare, a, b) }

  lemma ComparesAlike(compare: (string, string) -> int, a: string, b: string, c: string)
    requires Sorting.Collates(compare) && compare(a, b) <= 0 && compare(b, c) <= 0
    ensures compare(a, c) <= 0 && (compare(a, c) == 0 ==> compare(a, b) == 0 && compare(b, c) == 0)
  {
    assert compare(b, a) < 0 <==> compare(a, b) > 0;
    assert compare(a, b) < 0 <==> compare(b, a) > 0;
    assert compare(b, c) < 0 <==> compare(c, b) > 0;
    assert compare(a, c) < 0 <==> compare(c, a) > 0;
    if compare(a, c) == 0 {
      assert compare(c, a) <= 0;
      assert compare(c, b) <= 0 && compare(b, a) <= 0;
    }
  }

  lemma ShownRank(compare: (string, string) -> int)
    requires Sorting.Collates(compare)
    ensures Sorting.Ranks(InOrder(compare))
  {
    var le := InOrder(compare);
    forall a, b ensures le(a, b) || le(b, a) {
      assert compare(a.item, b.item) < 0 <==> compare(b.item, a.item) > 0;
      assert compare(b.item, a.item) < 0 <==> compare(a.item, b.item) > 0;
      assert compare(a.file, b.file) < 0 <==> compare(b.file, a.file) > 0;
      assert compare(b.file, a.file) < 0 <==> compare(a.file, b.file) > 0;
    }
    forall a, b, c | le(a, b) && le(b, c) ensures le(a, c) {
      if Rank(a) == Rank(b) == Rank(c) {
        ComparesAlike(compare, a.item, b.item, c.item);
        if compare(a.item, c.item) == 0 {
          ComparesAlike(compare, a.file, b.file, c.file);
        }
      }
    }
  }

  ghost predicate AsGrave(a: Kept, b: Kept) {
    (a.item == "outside" && b.item == "outside") || (a.item != "outside" && b.item != "outside" && a.severity == b.severity)
  }

  /**
   * Shown in order, nothing outside comes before a finding and nothing advisory before a blocking one;
   * what is as grave goes by item, then by file, then by line.
   */
  lemma GravestFirst(compare: (string, string) -> int, kept: seq<Kept>, i: nat, j: nat)
    requires Sorting.Sorted(InOrder(compare), kept) && i < j < |kept|
    ensures kept[j].item != "outside" ==> kept[i].item != "outside"
    ensures kept[j].item != "outside" && kept[j].severity.Blocking? ==> kept[i].severity.Blocking?
    ensures AsGrave(kept[i], kept[j]) ==>
              var byItem, byFile := compare(kept[i].item, kept[j].item), compare(kept[i].file, kept[j].file);
              byItem <= 0 && (byItem == 0 ==> byFile <= 0 && (byFile == 0 ==> kept[i].line <= kept[j].line))
  {
    assert InOrder(compare)(kept[i], kept[j]);
  }

  // ----- the assembler

  /** What a reply comes to: both lists taken in turn, then shown in order. */
  ghost function Assembly(rules: Rules, compare: (string, string) -> int, reply: Reply, files: seq<ChangedFile>): Assembled {
    var claimed := Claimed(rules, reply);
    var b := TakeAll(rules, claimed, files, reply.findings, false, Assembled([], reply.offSpec));
    var c := TakeAll(rules, claimed, files, reply.addressed, true, b);
    Assembled(Sorting.Sort(InOrder(compare), c.kept), c.dropped)
  }

  /** The record kept is what some entry of the reply admits. */
  ghost predicate Backed(rules: Rules, files: seq<ChangedFile>, reply: Reply, k: Kept) {
    exists e, addressed :: Admits(rules, files, reply, e, addressed, k)
  }

  ghost predicate Admits(rules: Rules, files: seq<ChangedFile>, reply: Reply, e: Finding, addressed: bool, k: Kept) {
    e in (if addressed then reply.addressed else reply.findings) && Admissible(rules, Claimed(rules, reply), files, e, addressed) == Some(k)
  }

  /** Every admissible entry's spot is among the kept. */
  ghost predicate Complete(rules: Rules, files: seq<ChangedFile>, reply: Reply, kept: seq<Kept>) {
    forall e, addressed, k | Admits(rules, files, reply, e, addressed, k) :: Holds(kept, k)
  }

  lemma HoldsMoved(a: seq<Kept>, b: seq<Kept>, k: Kept)
    requires Holds(a, k) && forall x | x in a :: x in b
    ensures Holds(b, k)
  {
    var i :| 0 <= i < |a| && Spot(a[i]) == Spot(k);
    assert a[i] in b;
  }

  lemma OnceMoved(a: seq<Kept>, b: seq<Kept>)
    requires Once(a) && multiset(a) == multiset(b)
    ensures Once(b)
  {
    Sorting.OnceStays(a, b);
    Sorting.SameMembers(a, b);
    forall i, j | 0 <= i < j < |b| ensures Spot(b[i]) != Spot(b[j]) {
      assert b[i] in a && b[j] in a && b[i] != b[j];
    }
  }

  /**
   * What is kept of a reply. Kept and dropped account for every entry; no two kept share item, file
   * and line; each kept record is one an entry admits, and every admissible entry's spot is kept; and
   * they are shown blocking first, then advisory, then text addressed to the reviewer.
   */
  lemma AssemblyExact(rules: Rules, compare: (string, string) -> int, reply: Reply, files: seq<ChangedFile>)
    ensures var a := Assembly(rules, compare, reply, files);
            && |a.kept| + a.dropped == |reply.findings| + |reply.addressed| + reply.offSpec
            && Once(a.kept) && (forall k | k in a.kept :: Backed(rules, files, reply, k)) && Complete(rules, files, reply, a.kept)
            && (Sorting.Collates(compare) ==> Sorting.Sorted(InOrder(compare), a.kept))
  {
    hide Admissible, Sorting.Collates, Sorting.Sorted;
    var claimed := Claimed(rules, reply);
    var start := Assembled([], reply.offSpec);
    var b := TakeAll(rules, claimed, files, reply.findings, false, start);
    var c := TakeAll(rules, claimed, files, reply.addressed, true, b);
    TakeAllAccounts(rules, claimed, files, reply.findings, false, start);
    TakeAllAccounts(rules, claimed, files, reply.addressed, true, b);
    hide TakeAll;
    var kept := Sorting.Sort(InOrder(compare), c.kept);
    Sorting.SameMembers(kept, c.kept);
    OnceMoved(c.kept, kept);
    forall k | k in kept ensures Backed(rules, files, reply, k) {
      if k in b.kept {
        assert k !in start.kept;
        var e :| e in reply.findings && Admissible(rules, claimed, files, e, false) == Some(k);
        assert Admits(rules, files, reply, e, false, k);
      } else {
        var e :| e in reply.addressed && Admissible(rules, claimed, files, e, true) == Some(k);
        assert Admits(rules, files, reply, e, true, k);
      }
    }
    forall e, addressed, k | Admits(rules, files, reply, e, addressed, k) ensures Holds(kept, k) {
      if !addressed { HoldsMoved(b.kept, c.kept, k); }
      HoldsMoved(c.kept, kept, k);
    }
    if Sorting.Collates(compare) {
      ShownRank(compare);
      Sorting.SortSorts(InOrder(compare), c.kept);
    }
  }

  /** One list of entries, in order, the spots kept so far remembered. */
  method KeepEach(rules: Rules, claimed: set<string>, files: seq<ChangedFile>, entries: seq<Finding>, addressed: bool, a: Assembled, seen: set<(string, string, nat)>)
    returns (b: Assembled, seen': set<(string, string, nat)>)
    requires forall k :: Spot(k) in seen <==> Holds(a.kept, k)
    ensures b == TakeAll(rules, claimed, files, entries, addressed, a)
    ensures forall k :: Spot(k) in seen' <==> Holds(b.kept, k)
  {
    hide Admissible;
    b, seen' := a, seen;
    for i := 0 to |entries|
      invariant b == TakeAll(rules, claimed, files, entries[..i], addressed, a)
      invariant forall k :: Spot(k) in seen' <==> Holds(b.kept, k)
    {
      assert entries[..i + 1][..i] == entries[..i];
      var k := Admissible(rules, claimed, files, entries[i], addressed);
      if k.None? || Spot(k.value) in seen' {
        b := b.(dropped := b.dropped + 1);
      } else {
        SpotAdded(b.kept, k.value);
        seen' := seen' + {Spot(k.value)};
        b := b.(kept := b.kept + [k.value]);
      }
    }
    assert entries[..|entries|] == entries;
  }

  lemma SpotAdded(kept: seq<Kept>, k: Kept)
    ensures forall x :: Holds(kept + [k], x) <==> Holds(kept, x) || Spot(x) == Spot(k)
  {
    var all := kept + [k];
    forall x ensures Holds(all, x) <==> Holds(kept, x) || Spot(x) == Spot(k) {
      if Holds(kept, x) {
        var i :| 0 <= i < |kept| && Spot(kept[i]) == Spot(x);
        assert all[i] == kept[i];
      }
      assert all[|kept|] == k;
    }
  }

  /** The assembler over a parsed reply; the items it claims clean or not applicable are listed as far as the checklist knows them. */
  method Assemble(rules: Rules, compare: (string, string) -> int, reply: Reply, files: seq<ChangedFile>)
    returns (a: Assembled, checkedClean: seq<string>, notApplicable: seq<string>)
    ensures Sorting.Listed(reply.checkedClean * rules.known, checkedClean) && Sorting.Listed(reply.notApplicable * rules.known, notApplicable)
    ensures a == Assembly(rules, compare, reply, files)
    ensures |a.kept| + a.dropped == |reply.findings| + |reply.addressed| + reply.offSpec
    ensures Once(a.kept) && (forall k | k in a.kept :: Backed(rules, files, reply, k)) && Complete(rules, files, reply, a.kept)
    ensures Sorting.Collates(compare) ==> Sorting.Sorted(InOrder(compare), a.kept)
  {
    hide Admissible, Claimed, Sorting.Collates, Sorting.Sorted, Sorting.Listed, Backed, Complete, TakeAll;
    checkedClean := Sorting.ListSorted(reply.checkedClean * rules.known);
    notApplicable := Sorting.ListSorted(reply.notApplicable * rules.known);
    var claimed := Claimed(rules, reply);
    var b, seen := KeepEach(rules, claimed, files, reply.findings, false, Assembled([], reply.offSpec), {});
    b, seen := KeepEach(rules, claimed, files, reply.addressed, true, b, seen);
    a := Assembled(Sorting.Sort(InOrder(compare), b.kept), b.dropped);
    AssemblyExact(rules, compare, reply, files);
  }

  /** An item is claimed exactly when the checklist knows it and the reply says it is clean or does not apply. */
  lemma ClaimedExactly(rules: Rules, reply: Reply, item: string)
    ensures item in Claimed(rules, reply) <==> item in rules.known && (item in reply.checkedClean || item in reply.notApplicable)
  {
  }

  // ----- what a kept record says of the change

  /** The record's line is one the change marks, in the file sent under the entry's path, and holds its quote. */
  ghost predicate Stands(rules: Rules, files: seq<ChangedFile>, e: Finding, k: Kept) {
    && Target(files, e.file).Some? && Supports(rules.trim, Target(files, e.file).value, e.line, e.quote)
    && k.line == e.line && k.file == StripControl(e.file)
  }

  lemma AdmittedStands(rules: Rules, claimed: set<string>, files: seq<ChangedFile>, e: Finding, addressed: bool, k: Kept)
    requires Admissible(rules, claimed, files, e, addressed) == Some(k)
    ensures Stands(rules, files, e, k)
    ensures k.item == OUTSIDE || (k.item in rules.judgement && k.severity == rules.judgement[k.item] && k.item !in claimed)
    ensures k.item == NO_QUOTE_ITEM ==> k.quote == ""
  {
    hide Supports, StripControl, Target;
  }

  /** Every kept record stands on such a line, with the checklist's severity, an unclaimed item, and no quote of a secret. */
  lemma KeptIsMarked(rules: Rules, files: seq<ChangedFile>, reply: Reply, k: Kept)
    requires Backed(rules, files, reply, k)
    ensures exists e :: e in reply.findings + reply.addressed && Stands(rules, files, e, k)
    ensures k.item == OUTSIDE || (k.item in rules.judgement && k.severity == rules.judgement[k.item])
    ensures k.item == OUTSIDE || !(k.item in rules.known && (k.item in reply.checkedClean || k.item in reply.notApplicable))
    ensures k.item == NO_QUOTE_ITEM ==> k.quote == ""
  {
    ClaimedExactly(rules, reply, k.item);
    hide Stands, Claimed, Admissible;
    var e, addressed :| Admits(rules, files, reply, e, addressed, k);
    AdmittedStands(rules, Claimed(rules, reply), files, e, addressed, k);
  }

  // ----- the file a record names

  ghost predicate Quotable(rules: Rules, f: ChangedFile) { exists line, quote :: Supports(rules.trim, f, line, quote) }

  /**
   * Every record that can be kept names the very file its entry quotes exactly when no path with a
   * quotable line holds a control character.
   */
  lemma NamesFileExactly(rules: Rules, files: seq<ChangedFile>)
    ensures (forall e, addressed, k | Admissible(rules, {}, files, e, addressed) == Some(k) :: k.file == e.file)
            <==> (forall f | f in files && Target(files, f.path) == Some(f) && Quotable(rules, f) :: Plain(f.path))
  {
    hide Supports, StripControl, Plain, Target;
    if forall e, addressed, k | Admissible(rules, {}, files, e, addressed) == Some(k) :: k.file == e.file {
      forall f | f in files && Target(files, f.path) == Some(f) && Quotable(rules, f) ensures Plain(f.path) {
        var line, quote :| Supports(rules.trim, f, line, quote);
        var e := Finding(OUTSIDE, f.path, line, quote, "", "", false);
        var k := Admissible(rules, {}, files, e, true);
        assert k.Some? && k.value.file == StripControl(f.path);
        StripExactly(f.path);
      }
    }
    if forall f | f in files && Target(files, f.path) == Some(f) && Quotable(rules, f) :: Plain(f.path) {
      forall e, addressed, k | Admissible(rules, {}, files, e, addressed) == Some(k) ensures k.file == e.file {
        StripExactly(e.file);
        assert Quotable(rules, Target(files, e.file).value);
      }
    }
  }

  /** Two sent files, the first's name a C1 control character before the second's. */
  const SHADOWED: seq<ChangedFile> := [ChangedFile("\U{0085}a", "x", All, []), ChangedFile("a", "y", All, [])]

  const QUOTES_X: Reply := Reply([], [Finding("", "\U{0085}a", 1, "x", "", "", false)], {}, {}, 0)

  lemma OneLine(c: char)
    requires c != '\n'
    ensures Split([c], '\n') == [[c]]
  {
    SplitNone([c], '\n');
  }

  /** One entry on a line of the first file comes back naming the second, which does not hold the quote. */
  lemma WrongFileNamed(rules: Rules, compare: (string, string) -> int)
    requires rules.trim("x") == "x"
    ensures Assembly(rules, compare, QUOTES_X, SHADOWED).kept == [Kept(OUTSIDE, Advisory, "a", 1, rules.redact("x", QUOTE_MAX), ADDRESSES, REMOVE_IT, false)]
    ensures Target(SHADOWED, "a") == Some(SHADOWED[1]) && !Supports(rules.trim, SHADOWED[1], 1, "x")
  {
    LineHeld(rules.trim);
    LineNotHeld(rules.trim);
    StripLeading();
    hide Supports, StripControl;
    var e := QUOTES_X.addressed[0];
    assert SHADOWED[..1] == [SHADOWED[0]] && SHADOWED[1].path != e.file;
    assert Target(SHADOWED, e.file) == Some(SHADOWED[0]);
    var k := Kept(OUTSIDE, Advisory, "a", 1, rules.redact("x", QUOTE_MAX), ADDRESSES, REMOVE_IT, false);
    assert Admissible(rules, Claimed(rules, QUOTES_X), SHADOWED, e, true) == Some(k);
    TakesOne(rules, compare, SHADOWED, e, k);
  }

  lemma LineHeld(trim: string -> string)
    requires trim("x") == "x"
    ensures Supports(trim, SHADOWED[0], 1, "x")
  {
    OneLine('x');
  }

  lemma LineNotHeld(trim: string -> string)
    requires trim("x") == "x"
    ensures !Supports(trim, SHADOWED[1], 1, "x")
  {
    OneLine('y');
    assert !("x" <= "y") && "y"[1..] == "" && !("x" <= "");
  }

  lemma StripLeading()
    ensures StripControl("\U{0085}a") == "a"
  {
    assert "\U{0085}a"[1..] == "a" && "a"[1..] == "";
  }

  /** A reply of one admissible entry keeps its record. */
  lemma TakesOne(rules: Rules, compare: (string, string) -> int, files: seq<ChangedFile>, e: Finding, k: Kept)
    requires Admissible(rules, Claimed(rules, Reply([], [e], {}, {}, 0)), files, e, true) == Some(k)
    ensures Assembly(rules, compare, Reply([], [e], {}, {}, 0), files).kept == [k]
  {
    hide Admissible;
    var reply, start := Reply([], [e], {}, {}, 0), Assembled([], 0);
    var claimed := Claimed(rules, reply);
    assert [e][..0] == [] && TakeAll(rules, claimed, files, [], true, start) == start;
    assert TakeAll(rules, claimed, files, [e], true, start) == Take(start, Some(k)) == Assembled([k], 0);
    var le := InOrder(compare);
    assert [k][..0] == [] && Sorting.Sort(le, [k]) == Sorting.Insert(le, k, []) == [k];
  }

  // ----- kept and inserted

  /** Every script from the one text's lines to the other's costs more than is looked for. */
  ghost predicate TooFar(before: string, text: string) {
    forall t | EditScript.IsScript(Split(before, '\n'), Split(text, '\n'), t) :: EditScript.Cost(t) > LineDiff.LINE_DIFF_MAX_EDITS
  }

  /** The base holds no file of that path, or one too large, one that is no text, or one too different to compare. */
  ghost predicate Uncompared<D>(w: World<D>, base: seq<File>, path: string, text: string) {
    || path !in PathsOf(base)
    || exists b | b in base && b.path == path ::
         |b.content| > w.maxFileBytes || w.textOf(b.content).None? || TooFar(w.textOf(b.content).value, text)
  }

  /** A least-cost edit script from the text of the base's file of that path inserts the line. */
  ghost predicate InsertedIn<D>(w: World<D>, base: seq<File>, path: string, text: string, line: nat) {
    exists b, s :: && b in base && b.path == path && w.textOf(b.content).Some?
                   && LineDiff.LeastCost(Split(w.textOf(b.content).value, '\n'), Split(text, '\n'), s) && line in EditScript.Inserted(s, 0)
  }

  /** Where the earlier text a file was judged by comes from. */
  lemma EarlierFrom<D>(w: World<D>, base: seq<File>, path: string) returns (b: File)
    requires DistinctPaths(base) && path in PathsOf(base)
    ensures b in base && b.path == path && Earlier(w, base, path) == if |b.content| > w.maxFileBytes then None else w.textOf(b.content)
  {
    b :| b in base && b.path == path;
    EarlierExactly(w, base, b);
  }

  /** A marked line of a sent file is inserted into the base's own text of that path, or there is nothing there it could be compared with. */
  lemma {:induction false} MarkedIsInserted<D>(w: World<D>, base: seq<File>, f: ChangedFile, c: ChangedFile, line: nat)
    requires DistinctPaths(base) && Judged(w, base, f, c) && Marked(c, line) && (f.changed.All? <==> f.path !in PathsOf(base))
    ensures c.path == f.path && c.text == f.text
    ensures if c.changed.All? then Uncompared(w, base, f.path, f.text) else InsertedIn(w, base, f.path, f.text, line)
  {
    hide LineDiff.LeastCost, EditScript.Inserted, EditScript.Cost, EditScript.IsScript, Earlier, DistinctPaths;
    if f.path in PathsOf(base) {
      var b := EarlierFrom(w, base, f.path);
      if !c.changed.All? {
        var before := Earlier(w, base, f.path).value;
        var s :| && LineDiff.LeastCost(Split(before, '\n'), Split(f.text, '\n'), s)
                 && LineDiff.Describes(s, LineDiff.LineChanges(c.changed.lines, c.removedAfter));
      }
    }
  }

  /** The record stands on an entry for a source file, on a line inserted into the base's text of it, or with nothing there to compare. */
  ghost predicate Grounded<D>(w: World<D>, base: seq<File>, source: seq<File>, cs: seq<ChangedFile>, rules: Rules, reply: Reply, k: Kept) {
    exists f, e :: && f in source && e in reply.findings + reply.addressed && e.file == f.path && Stands(rules, cs, e, k)
                   && w.textOf(f.content).Some?
                   && (Uncompared(w, base, f.path, w.textOf(f.content).value) || InsertedIn(w, base, f.path, w.textOf(f.content).value, k.line))
  }

  /**
   * So every kept record of an assembled review lies on a line that a least-cost edit script inserts
   * into the base's text of the entry's file, or in one the base has nothing to compare with.
   */
  lemma KeptIsInserted<D>(w: World<D>, base: seq<File>, source: seq<File>, cs: seq<ChangedFile>, rules: Rules, compare: (string, string) -> int, reply: Reply, k: Kept)
    requires DistinctPaths(base) && AllJudged(w, base, Gather(w, Hashes(w, base), source).files, cs) && k in Assembly(rules, compare, reply, cs).kept
    ensures Grounded(w, base, source, cs, rules, reply, k)
  {
    hide Assembly, Judged, Uncompared, InsertedIn, Backed, Complete, Sorting.Sorted, Sorting.Collates, Gather, Hashes, DistinctPaths, FateOf;
    AssemblyExact(rules, compare, reply, cs);
    KeptIsMarked(rules, cs, reply, k);
    var e :| e in reply.findings + reply.addressed && Stands(rules, cs, e, k);
    var c := Target(cs, e.file).value;
    var i :| 0 <= i < |cs| && cs[i] == c;
    assert Marked(c, k.line);
    HashesKeys(w, base);
    var g := Gather(w, Hashes(w, base), source);
    var sent, held := GatherAccounts(w, Hashes(w, base), source);
    var f := source[sent[i]];
    assert SentAsIs(w, Hashes(w, base).Keys, f, g.files[i]);
    MarkedIsInserted(w, base, g.files[i], cs[i], k.line);
    assert f in source;
  }
}
