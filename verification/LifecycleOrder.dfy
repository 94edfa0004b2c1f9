/** When a lifecycle's rows depend on the order it is declared in. */
module LifecycleOrder {
  import opened Wrappers
  import Sorting
  import opened Lifecycle

  /** A state with its lists' order forgotten. */
  datatype Shape = Shape(name: string, allow: multiset<string>, on: multiset<(string, string)>, terminal: bool)

  ghost function ShapeOf(s: StateDef): Shape { Shape(s.name, multiset(s.allow), multiset(s.on), s.terminal) }

  ghost function ShapesOf(states: seq<StateDef>): seq<Shape> {
    seq(|states|, i requires 0 <= i < |states| => ShapeOf(states[i]))
  }

  /** The same states with the same lists, each written in another order. */
  ghost predicate Reordered(a: Lifecycle, b: Lifecycle) {
    a.initial == b.initial && multiset(ShapesOf(a.states)) == multiset(ShapesOf(b.states))
  }

  // ----- a reordering declares the same

  ghost predicate Mentioned(s: Shape, m: Mention) {
    m.from == s.name && if m.Stays? then m.op in s.allow else (m.op, m.to) in s.on
  }

  lemma MentionsByShape(states: seq<StateDef>, m: Mention)
    ensures m in Mentions(states) <==> exists s :: s in ShapesOf(states) && Mentioned(s, m)
  {
    hide Mentions;
    MentionedExactly(states, m);
    var shapes := ShapesOf(states);
    if s :| s in states && Has(s, m) {
      var i :| 0 <= i < |states| && states[i] == s;
      assert shapes[i] in shapes && Mentioned(shapes[i], m);
    }
    if shape :| shape in shapes && Mentioned(shape, m) {
      var i :| 0 <= i < |shapes| && shapes[i] == shape;
      assert states[i] in states && Has(states[i], m);
    }
  }

  lemma TerminalByShape(states: seq<StateDef>, name: string)
    ensures Terminal(states, name) <==> exists s :: s in ShapesOf(states) && s.name == name && s.terminal
  {
    var shapes := ShapesOf(states);
    if Terminal(states, name) {
      var i :| 0 <= i < |states| && states[i].name == name && states[i].terminal;
      assert shapes[i] in shapes;
    }
  }

  lemma ReorderedDeclaresSame(a: Lifecycle, b: Lifecycle)
    requires Reordered(a, b)
    ensures SameDeclaration(a, b)
  {
    hide Mentions, Terminal, Mentioned;
    Sorting.SameMembers(ShapesOf(a.states), ShapesOf(b.states));
    forall m ensures m in Mentions(a.states) <==> m in Mentions(b.states) {
      MentionsByShape(a.states, m);
      MentionsByShape(b.states, m);
    }
    forall name ensures Terminal(a.states, name) <==> Terminal(b.states, name) {
      TerminalByShape(a.states, name);
      TerminalByShape(b.states, name);
    }
  }

  // ----- written first, filed first

  lemma {:induction false} MentionsAhead(s: StateDef, rest: seq<StateDef>)
    ensures Mentions([s] + rest) == (StaysOf(s.name, s.allow) + MovesOf(s.name, s.on)) + Mentions(rest)
  {
    var all := [s] + rest;
    if rest == [] {
      assert all[..0] == [] && all[0] == s;
    } else {
      var n := |rest| - 1;
      MentionsAhead(s, rest[..n]);
      assert all[..|all| - 1] == [s] + rest[..n] && all[|all| - 1] == rest[n];
    }
  }

  lemma OrderMentioned(ms: seq<Mention>)
    ensures forall op | op in TallyOf(ms).order :: exists m :: m in ms && m.op == op
  {
    forall op | op in TallyOf(ms).order ensures exists m :: m in ms && m.op == op {
      OrderExact(ms);
      TallyExact(ms, op);
    }
  }

  lemma FirstMentions(lc: Lifecycle) returns (stays: seq<Mention>, more: seq<Mention>)
    requires lc.states != [] && lc.states[0].on != []
    ensures var s := lc.states[0]; Mentions(lc.states) == stays + [Moves(s.on[0].0, s.name, s.on[0].1)] + more
    ensures forall m | m in stays :: m.Stays?
  {
    var s, rest := lc.states[0], lc.states[1..];
    assert lc.states == [s] + rest;
    MentionsAhead(s, rest);
    stays := StaysOf(s.name, s.allow);
    var moves := MovesOf(s.name, s.on);
    hide Mentions;
    more := moves[1..] + Mentions(rest);
    assert moves == [moves[0]] + moves[1..];
  }

  /** An operation written as the first edge of the first state gives its row its state. */
  lemma WrittenFirst(lc: Lifecycle, op: string, to: string, key: string)
    requires lc.states != [] && lc.states[0].on != [] && lc.states[0].on[0] == (op, to) && Filed(lc, op, to, key)
    ensures key in RowsOf(lc) && RowsOf(lc)[key].state == to
  {
    hide Mentions, RowsOf, TallyOf, Answer, FirstStates, Qualifies, Opens, KeyOf;
    var stays, more := FirstMentions(lc);
    var ms := Mentions(lc.states);
    RowsAnswer(lc);
    FirstInOrder(ms, stays, Moves(op, lc.states[0].name, to), more, to);
    FirstDecides(lc, TallyOf(ms).order, |TallyOf(stays).order|, op, to, key);
  }

  /** Behind operations that only stay, an edge's operation is read next. */
  lemma FirstInOrder(ms: seq<Mention>, stays: seq<Mention>, m: Mention, more: seq<Mention>, to: string)
    requires ms == stays + [m] + more && (forall x | x in stays :: x.Stays?) && Qualifies(ms, m.op, to)
    ensures var order, k := TallyOf(ms).order, |TallyOf(stays).order|;
            && k < |order| && order[k] == m.op
            && forall j, u | 0 <= j < k :: !Qualifies(ms, order[j], u)
  {
    hide TallyOf;
    assert forall x | x in stays :: x in ms;
    TallyExact(stays, m.op);
    assert m.op !in TallyOf(stays).target;
    TallyNext(stays, m);
    OrderGrows(stays + [m], more);
    OrderMentioned(stays);
    NotedNext(TallyOf(stays), m);
    var order, first := TallyOf(ms).order, TallyOf(stays).order;
    assert first + [m.op] <= order;
    forall j, u | 0 <= j < |first| ensures !Qualifies(ms, order[j], u) {
      assert order[j] == first[j] && first[j] in first;
      var x :| x in stays && x.op == first[j];
      assert x in ms;
    }
  }

  lemma NotedNext(t: Tally, m: Mention)
    requires m.op !in t.target
    ensures Note(t, m).order == t.order + [m.op]
  {
  }

  lemma FirstDecides(lc: Lifecycle, order: seq<string>, k: nat, op: string, to: string, key: string)
    requires Answer(lc, RowsOf(lc)) && FirstStates(lc, order, RowsOf(lc)) && Filed(lc, op, to, key)
    requires k < |order| && order[k] == op && forall j, u | 0 <= j < k :: !Qualifies(Mentions(lc.states), order[j], u)
    ensures key in RowsOf(lc) && RowsOf(lc)[key].state == to
  {
    hide Mentions, Qualifies, RowsOf, KeyOf, Opens;
    var state := RowsOf(lc)[key].state;
    assert FirstFiled(lc, order, key, state);
    var i: nat :| i < |order| && Filed(lc, order[i], state, key) && forall j: nat, u | j < i :: !Filed(lc, order[j], u, key);
    assert i >= k;
    assert i == k;
    OneKey(lc, op);
  }

  // ----- bringing an operation to the front

  function Lead(s: StateDef, j: nat): StateDef
    requires j < |s.on|
  {
    s.(on := [s.on[j]] + s.on[..j] + s.on[j + 1..])
  }

  /** The lifecycle with edge `j` of state `i` written first. */
  function Front(lc: Lifecycle, i: nat, j: nat): Lifecycle
    requires i < |lc.states| && j < |lc.states[i].on|
  {
    lc.(states := [Lead(lc.states[i], j)] + lc.states[..i] + lc.states[i + 1..])
  }

  lemma MovedAhead<T>(s: seq<T>, i: nat)
    requires i < |s|
    ensures multiset([s[i]] + s[..i] + s[i + 1..]) == multiset(s)
  {
    assert s == s[..i] + [s[i]] + s[i + 1..];
  }

  lemma LeadKeepsShape(s: StateDef, j: nat)
    requires j < |s.on|
    ensures ShapeOf(Lead(s, j)) == ShapeOf(s)
  {
    MovedAhead(s.on, j);
  }

  /** States in another order, one of them rewritten in the same shape. */
  lemma ShapesAhead(states: seq<StateDef>, i: nat, lead: StateDef)
    requires i < |states| && ShapeOf(lead) == ShapeOf(states[i])
    ensures multiset(ShapesOf([lead] + states[..i] + states[i + 1..])) == multiset(ShapesOf(states))
  {
    hide ShapeOf;
    var shapes, moved := ShapesOf(states), ShapesOf([lead] + states[..i] + states[i + 1..]);
    MovedAhead(shapes, i);
    assert moved == [shapes[i]] + shapes[..i] + shapes[i + 1..];
  }

  lemma FrontReorders(lc: Lifecycle, i: nat, j: nat)
    requires i < |lc.states| && j < |lc.states[i].on|
    ensures Reordered(lc, Front(lc, i, j))
  {
    hide ShapesOf, ShapeOf, Lead;
    LeadKeepsShape(lc.states[i], j);
    ShapesAhead(lc.states, i, Lead(lc.states[i], j));
  }

  /** Any operation that counts can be declared so that its row takes its state. */
  lemma CanLead(lc: Lifecycle, op: string, to: string, key: string) returns (b: Lifecycle)
    requires Filed(lc, op, to, key)
    ensures Reordered(lc, b) && key in RowsOf(b) && RowsOf(b)[key].state == to
  {
    hide RowsOf, Reordered, Opens, KeyOf;
    var from :| Moves(op, from, to) in Mentions(lc.states);
    MentionsByShape(lc.states, Moves(op, from, to));
    var shape :| shape in ShapesOf(lc.states) && Mentioned(shape, Moves(op, from, to));
    var i :| 0 <= i < |lc.states| && ShapeOf(lc.states[i]) == shape;
    var j :| 0 <= j < |lc.states[i].on| && lc.states[i].on[j] == (op, to);
    b := Front(lc, i, j);
    FrontReorders(lc, i, j);
    ReorderedDeclaresSame(lc, b);
    FiledAlike(lc, b, op, to, key);
    WrittenFirst(b, op, to, key);
  }

  // ----- the exact condition

  /** The rows are the same in every order of declaring exactly when no names clash. */
  lemma OrderFreeExactly(a: Lifecycle)
    ensures (forall b | Reordered(a, b) :: RowsOf(b) == RowsOf(a)) <==> !NameClash(a)
  {
    if NameClash(a) {
      var ms := Mentions(a.states);
      var op, t, o, u :| && Qualifies(ms, op, t) && Terminal(a.states, t)
                         && Qualifies(ms, o, u) && !Terminal(a.states, u)
                         && t == KeyOf(a.states, u, Opens(ms, a.initial, o));
      assert Filed(a, op, t, t) && Filed(a, o, u, t);
      hide RowsOf, Reordered, Mentions, Qualifies, Terminal, KeyOf, Opens;
      var b := CanLead(a, op, t, t);
      var c := CanLead(a, o, u, t);
      assert RowsOf(b)[t].state != RowsOf(c)[t].state;
    } else {
      forall b | Reordered(a, b) ensures RowsOf(b) == RowsOf(a) {
        ReorderedDeclaresSame(a, b);
        RowsAnswer(a);
        RowsAnswer(b);
        OrderFree(a, b, RowsOf(a), RowsOf(b));
      }
    }
  }

  /** `CLASHING` with `win` written before `send`. */
  const SWAPPED := CLASHING.(states := [
    StateDef("draft", [], [("win", WON), ("send", "sent")], false), StateDef("sent", [], [], false), StateDef(WON, [], [], true)])

  /** One declaration in two orders: the merged row stands for `sent` in one and for the terminal state in the other. */
  lemma OrderShows()
    ensures Reordered(CLASHING, SWAPPED)
    ensures WON in RowsOf(CLASHING) && RowsOf(CLASHING)[WON].state == "sent"
    ensures WON in RowsOf(SWAPPED) && RowsOf(SWAPPED)[WON].state == WON != "sent"
  {
    SwappedReorders();
    ClashFiled();
    hide RowsOf, Reordered, Mentions;
    ReorderedDeclaresSame(CLASHING, SWAPPED);
    FiledAlike(CLASHING, SWAPPED, "win", WON, WON);
    WrittenFirst(CLASHING, "send", "sent", WON);
    WrittenFirst(SWAPPED, "win", WON, WON);
    assert |WON| != |"sent"|;
  }

  lemma SwappedReorders()
    ensures Reordered(CLASHING, SWAPPED)
  {
    var s, on := CLASHING.states, CLASHING.states[0].on;
    FrontReorders(CLASHING, 0, 1);
    assert [on[1]] + on[..1] + on[2..] == SWAPPED.states[0].on;
    assert [Lead(s[0], 1)] + s[..0] + s[1..] == SWAPPED.states;
  }
}
