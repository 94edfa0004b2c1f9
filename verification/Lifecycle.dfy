/**
 * Which operations of a declared lifecycle a count of calls counts exactly. A call is accepted where
 * an `on` edge or an `allow` list of the entity's present state names its operation.
 */
module Lifecycle {
  import opened Wrappers
  import Sorting

  /** One declared state: operations allowed to stay in it, and operations that leave it with their target. */
  datatype StateDef = StateDef(name: string, allow: seq<string>, on: seq<(string, string)>, terminal: bool)

  datatype Lifecycle = Lifecycle(initial: string, states: seq<StateDef>)

  /** One mention of an operation. */
  datatype Mention = Stays(op: string, from: string) | Moves(op: string, from: string, to: string)

  function StaysOf(name: string, allow: seq<string>): seq<Mention> {
    seq(|allow|, i requires 0 <= i < |allow| => Stays(allow[i], name))
  }

  function MovesOf(name: string, on: seq<(string, string)>): seq<Mention> {
    seq(|on|, i requires 0 <= i < |on| => Moves(on[i].0, name, on[i].1))
  }

  /** Every mention, in declaration order. */
  function Mentions(states: seq<StateDef>): seq<Mention> {
    if states == [] then []
    else
      var last := states[|states| - 1];
      Mentions(states[..|states| - 1]) + (StaysOf(last.name, last.allow) + MovesOf(last.name, last.on))
  }

  // ----- what a declaration means

  /** A call of `op` in state `from` is accepted and leaves the entity in `to`. */
  ghost predicate Accepts(ms: seq<Mention>, from: string, op: string, to: string) {
    Moves(op, from, to) in ms || (Stays(op, from) in ms && to == from)
  }

  /** Every mention of the operation is an edge into `to` from a different state. */
  ghost predicate Qualifies(ms: seq<Mention>, op: string, to: string) {
    && (exists from :: Moves(op, from, to) in ms)
    && (forall m | m in ms && m.op == op :: m.Moves? && m.to == to && m.from != to)
  }

  ghost predicate Opens(ms: seq<Mention>, initial: string, op: string) {
    forall m | m in ms && m.op == op :: m.from == initial
  }

  /** The rule by mentions is the rule by calls: wherever the operation is accepted, the call is that move. */
  lemma QualifiesExactly(ms: seq<Mention>, op: string, to: string)
    ensures Qualifies(ms, op, to) <==>
              && (exists from, t :: Accepts(ms, from, op, t))
              && (forall from, t | Accepts(ms, from, op, t) :: t == to && from != t)
  {
    if Qualifies(ms, op, to) {
      var from :| Moves(op, from, to) in ms;
      assert Accepts(ms, from, op, to);
    } else if (exists from, t :: Accepts(ms, from, op, t)) && (forall from, t | Accepts(ms, from, op, t) :: t == to && from != t) {
      var from, t :| Accepts(ms, from, op, t);
      forall m | m in ms && m.op == op ensures m.Moves? && m.to == to && m.from != to {
        assert Accepts(ms, m.from, op, if m.Moves? then m.to else m.from);
      }
      assert false;
    }
  }

  // ----- the same on the declaration itself

  /** A state's `on` or `allow` list has the mention. */
  ghost predicate Has(s: StateDef, m: Mention) {
    m.from == s.name && if m.Stays? then m.op in s.allow else (m.op, m.to) in s.on
  }

  lemma StateHas(s: StateDef, m: Mention)
    ensures m in StaysOf(s.name, s.allow) + MovesOf(s.name, s.on) <==> Has(s, m)
  {
    var stays, moves := StaysOf(s.name, s.allow), MovesOf(s.name, s.on);
    if Has(s, m) {
      if m.Stays? {
        var i :| 0 <= i < |s.allow| && s.allow[i] == m.op;
        assert stays[i] == m;
      } else {
        var i :| 0 <= i < |s.on| && s.on[i] == (m.op, m.to);
        assert moves[i] == m;
      }
    }
  }

  lemma {:induction false} MentionedExactly(states: seq<StateDef>, m: Mention)
    ensures m in Mentions(states) <==> exists s :: s in states && Has(s, m)
  {
    hide Has;
    if states != [] {
      var rest, last := states[..|states| - 1], states[|states| - 1];
      MentionedExactly(rest, m);
      StateHas(last, m);
      assert states == rest + [last];
    }
  }

  /** In a state of that name, an `on` edge takes the call to `to`, or an `allow` list leaves it there. */
  ghost predicate Allows(lc: Lifecycle, from: string, op: string, to: string) {
    exists s :: s in lc.states && s.name == from && ((op, to) in s.on || (op in s.allow && to == from))
  }

  lemma AllowsExactly(lc: Lifecycle, from: string, op: string, to: string)
    ensures Accepts(Mentions(lc.states), from, op, to) <==> Allows(lc, from, op, to)
  {
    hide Mentions;
    MentionedExactly(lc.states, Moves(op, from, to));
    MentionedExactly(lc.states, Stays(op, from));
    if Allows(lc, from, op, to) {
      var s :| s in lc.states && s.name == from && ((op, to) in s.on || (op in s.allow && to == from));
      assert Has(s, if (op, to) in s.on then Moves(op, from, to) else Stays(op, from));
    }
  }

  /** An operation qualifies exactly when the declaration allows it somewhere, and wherever it does the call moves into the one state from another. */
  lemma QualifiesByCalls(lc: Lifecycle, op: string, to: string)
    ensures Qualifies(Mentions(lc.states), op, to) <==>
              && (exists from, t :: Allows(lc, from, op, t))
              && (forall from, t | Allows(lc, from, op, t) :: t == to && from != t)
  {
    hide Mentions, Qualifies, Accepts, Allows;
    QualifiesExactly(Mentions(lc.states), op, to);
    forall from, t ensures Accepts(Mentions(lc.states), from, op, t) <==> Allows(lc, from, op, t) { AllowsExactly(lc, from, op, t); }
  }

  // ----- the pass

  /**
   * An operation's one target so far, or nothing once disqualified; the states it leaves; and the
   * operations in the order their targets were first set, which is the order they are read back in.
   */
  datatype Tally = Tally(order: seq<string>, target: map<string, Option<string>>, sources: map<string, set<string>>)

  const BLANK := Tally([], map[], map[])

  function SetTarget(t: Tally, op: string, to: Option<string>): Tally {
    t.(order := if op in t.target then t.order else t.order + [op], target := t.target[op := to])
  }

  function Note(t: Tally, m: Mention): Tally {
    var seen := m.op in t.target;
    if m.Stays? then SetTarget(t, m.op, None)
    else if seen && t.target[m.op].None? then t
    else if m.to == m.from || (seen && t.target[m.op].value != m.to) then SetTarget(t, m.op, None)
    else SetTarget(t, m.op, Some(m.to)).(sources := t.sources[m.op := (if m.op in t.sources then t.sources[m.op] else {}) + {m.from}])
  }

  function TallyOf(ms: seq<Mention>): Tally {
    if ms == [] then BLANK else Note(TallyOf(ms[..|ms| - 1]), ms[|ms| - 1])
  }

  /** The tally says of an operation what its mentions say. */
  ghost predicate Says(t: Tally, ms: seq<Mention>, op: string) {
    && (op in t.target <==> exists m :: m in ms && m.op == op)
    && (forall to :: op in t.target && t.target[op] == Some(to) <==> Qualifies(ms, op, to))
    && (op in t.sources ==> exists m :: m in ms && m.op == op)
    && (op in t.target && t.target[op].Some? ==>
          op in t.sources && forall from :: from in t.sources[op] <==> Moves(op, from, t.target[op].value) in ms)
  }

  lemma {:induction false} TallyExact(ms: seq<Mention>, op: string)
    ensures Says(TallyOf(ms), ms, op)
  {
    if ms != [] {
      var rest, m := ms[..|ms| - 1], ms[|ms| - 1];
      TallyExact(rest, op);
      assert ms == rest + [m];
      assert forall x :: x in ms <==> x in rest || x == m;
      if m.op == op {
        NoteExact(TallyOf(rest), rest, m);
      } else {
        OthersKept(rest, m, op);
      }
    }
  }

  lemma OthersKept(rest: seq<Mention>, m: Mention, op: string)
    requires m.op != op
    ensures forall to :: Qualifies(rest + [m], op, to) <==> Qualifies(rest, op, to)
  {
    forall to ensures Qualifies(rest + [m], op, to) <==> Qualifies(rest, op, to) {
      assert forall x: Mention | x.op == op :: x in rest + [m] <==> x in rest;
      assert forall from :: Moves(op, from, to) in rest + [m] <==> Moves(op, from, to) in rest;
    }
  }

  lemma NoteExact(t: Tally, rest: seq<Mention>, m: Mention)
    requires Says(t, rest, m.op)
    ensures Says(Note(t, m), rest + [m], m.op)
  {
    var ms, op, t' := rest + [m], m.op, Note(t, m);
    assert m in ms && forall x :: x in ms <==> x in rest || x == m;
    forall to ensures op in t'.target && t'.target[op] == Some(to) <==> Qualifies(ms, op, to) {
      if Qualifies(ms, op, to) {
        assert m.Moves? && m.to == to && m.from != to;
        if op in t.target {
          var x :| x in rest && x.op == op;
          assert x in ms;
          assert Moves(op, x.from, to) in rest;
          assert Qualifies(rest, op, to);
        }
      }
      if op in t'.target && t'.target[op] == Some(to) {
        assert Moves(op, m.from, to) in ms;
        if op in t.target {
          assert Qualifies(rest, op, to);
        }
      }
    }
  }

  /** One state's `allow` list, then its edges. */
  method PassState(state: StateDef, t: Tally, ghost seen: seq<Mention>) returns (t': Tally)
    requires t == TallyOf(seen)
    ensures t' == TallyOf(seen + (StaysOf(state.name, state.allow) + MovesOf(state.name, state.on)))
  {
    hide TallyOf;
    t' := t;
    ghost var stays, moves := StaysOf(state.name, state.allow), MovesOf(state.name, state.on);
    assert seen + stays[..0] == seen;
    for k := 0 to |state.allow|
      invariant t' == TallyOf(seen + stays[..k])
    {
      TallyNext(seen + stays[..k], stays[k]);
      assert seen + stays[..k + 1] == seen + stays[..k] + [stays[k]];
      t' := SetTarget(t', state.allow[k], None);
    }
    assert stays[..|stays|] == stays && seen + stays + moves[..0] == seen + stays;
    for k := 0 to |state.on|
      invariant t' == TallyOf(seen + stays + moves[..k])
    {
      TallyNext(seen + stays + moves[..k], moves[k]);
      assert seen + stays + moves[..k + 1] == seen + stays + moves[..k] + [moves[k]];
      t' := NoteEdge(t', state.on[k].0, state.name, state.on[k].1);
    }
    assert moves[..|moves|] == moves && seen + stays + moves == seen + (stays + moves);
  }

  method Pass(lc: Lifecycle) returns (t: Tally)
    ensures t == TallyOf(Mentions(lc.states))
  {
    hide TallyOf, StaysOf, MovesOf;
    t := BLANK;
    EmptyTally();
    for i := 0 to |lc.states|
      invariant t == TallyOf(Mentions(lc.states[..i]))
    {
      t := PassState(lc.states[i], t, Mentions(lc.states[..i]));
      assert lc.states[..i + 1][..i] == lc.states[..i];
    }
    assert lc.states[..|lc.states|] == lc.states;
  }

  lemma EmptyTally()
    ensures TallyOf(Mentions([])) == BLANK
  {
  }

  lemma TallyNext(seen: seq<Mention>, m: Mention)
    ensures TallyOf(seen + [m]) == Note(TallyOf(seen), m)
  {
    assert (seen + [m])[..|seen|] == seen;
  }

  method NoteEdge(t: Tally, op: string, from: string, to: string) returns (t': Tally)
    ensures t' == Note(t, Moves(op, from, to))
  {
    t' := t;
    if op in t.target && t.target[op].None? {
      return;
    }
    if to == from || (op in t.target && t.target[op].value != to) {
      t' := SetTarget(t, op, None);
      return;
    }
    t' := SetTarget(t, op, Some(to));
    t' := t'.(sources := t.sources[op := (if op in t.sources then t.sources[op] else {}) + {from}]);
  }

  lemma {:induction false} OrderExact(ms: seq<Mention>)
    ensures var t := TallyOf(ms); Sorting.Once(t.order) && forall op :: op in t.order <==> op in t.target
  {
    if ms != [] {
      OrderExact(ms[..|ms| - 1]);
    }
  }

  /** What was read first stays first. */
  lemma {:induction false} OrderGrows(seen: seq<Mention>, more: seq<Mention>)
    ensures TallyOf(seen).order <= TallyOf(seen + more).order
  {
    if more == [] {
      assert seen + more == seen;
    } else {
      OrderGrows(seen, more[..|more| - 1]);
      assert (seen + more)[..|seen + more| - 1] == seen + more[..|more| - 1];
    }
  }

  // ----- rows

  const SEPARATOR: char := '\U{001F}'

  datatype Row = Row(state: string, terminal: bool, fromInitial: bool, operations: set<string>)

  predicate Terminal(states: seq<StateDef>, name: string) {
    exists i | 0 <= i < |states| :: states[i].name == name && states[i].terminal
  }

  function KeyOf(states: seq<StateDef>, to: string, opens: bool): string {
    if Terminal(states, to) then to else to + [SEPARATOR] + if opens then "true" else "false"
  }

  /** Operation `op` counts into `to`, in the row filed under `key`. */
  ghost predicate Filed(lc: Lifecycle, op: string, to: string, key: string) {
    var ms := Mentions(lc.states);
    Qualifies(ms, op, to) && key == KeyOf(lc.states, to, Opens(ms, lc.initial, op))
  }

  /** A row holds exactly the operations filed under its key; its state is one of theirs. */
  ghost predicate RowExact(lc: Lifecycle, done: set<string>, key: string, row: Row) {
    && (forall op :: op in row.operations <==> op in done && exists to :: Filed(lc, op, to, key))
    && (exists op :: op in row.operations && Filed(lc, op, row.state, key))
    && row.terminal == Terminal(lc.states, row.state)
    && (row.fromInitial <==> forall op | op in row.operations :: Opens(Mentions(lc.states), lc.initial, op))
  }

  ghost predicate RowsExact(lc: Lifecycle, done: set<string>, rows: map<string, Row>) {
    && (forall key | key in rows :: RowExact(lc, done, key, rows[key]))
    && (forall op, to, key | op in done && Filed(lc, op, to, key) :: key in rows)
  }

  /** The rows by key, and the keys in the order their rows were begun. */
  datatype Ledger = Ledger(keys: seq<string>, rows: map<string, Row>)

  /** Filing one more operation: a row takes its state from the first. */
  function File(lc: Lifecycle, l: Ledger, op: string, to: string, opens: bool): Ledger {
    var key := KeyOf(lc.states, to, opens);
    var row := if key in l.rows then l.rows[key] else Row(to, Terminal(lc.states, to), true, {});
    Ledger(if key in l.rows then l.keys else l.keys + [key],
           l.rows[key := row.(fromInitial := row.fromInitial && opens, operations := row.operations + {op})])
  }

  predicate OpensBy(lc: Lifecycle, t: Tally, op: string) {
    op in t.sources ==> forall s | s in t.sources[op] :: s == lc.initial
  }

  function FileNext(lc: Lifecycle, t: Tally, l: Ledger, op: string): Ledger {
    if op in t.target && t.target[op].Some? then File(lc, l, op, t.target[op].value, OpensBy(lc, t, op)) else l
  }

  function FileAll(lc: Lifecycle, t: Tally, ops: seq<string>): Ledger {
    if ops == [] then Ledger([], map[]) else FileNext(lc, t, FileAll(lc, t, ops[..|ops| - 1]), ops[|ops| - 1])
  }

  /** A lifecycle's rows: its operations filed in the order they are first mentioned. */
  function LedgerOf(lc: Lifecycle): Ledger {
    var t := TallyOf(Mentions(lc.states));
    FileAll(lc, t, t.order)
  }

  function RowsOf(lc: Lifecycle): map<string, Row> { LedgerOf(lc).rows }

  lemma FileKeeps(lc: Lifecycle, l: Ledger, op: string, to: string, opens: bool, done: set<string>)
    requires RowsExact(lc, done, l.rows) && op !in done
    requires Qualifies(Mentions(lc.states), op, to) && (opens <==> Opens(Mentions(lc.states), lc.initial, op))
    ensures RowsExact(lc, done + {op}, File(lc, l, op, to, opens).rows)
  {
    hide Qualifies, Mentions, Opens, KeyOf, Terminal;
    var key, rows, rows' := KeyOf(lc.states, to, opens), l.rows, File(lc, l, op, to, opens).rows;
    assert Filed(lc, op, to, key);
    assert RowExact(lc, done + {op}, key, rows'[key]) by {
      OneKey(lc, op);
      if key in rows {
        assert RowExact(lc, done, key, rows[key]);
      } else {
        assert forall o, t | o in done :: !Filed(lc, o, t, key);
      }
    }
    forall other | other in rows' && other != key ensures RowExact(lc, done + {op}, other, rows'[other]) {
      assert RowExact(lc, done, other, rows[other]);
      OneKey(lc, op);
    }
    forall o, t, k | o in done + {op} && Filed(lc, o, t, k) ensures k in rows' {
      OneKey(lc, op);
    }
  }

  /** An operation has one target, so one key. */
  lemma OneKey(lc: Lifecycle, op: string)
    ensures forall t, u, k, l | Filed(lc, op, t, k) && Filed(lc, op, u, l) :: t == u && k == l
  {
  }

  /** Every countable operation is filed, and every row is exact. */
  ghost predicate Answer(lc: Lifecycle, rows: map<string, Row>) {
    && (forall op, to, key | Filed(lc, op, to, key) :: key in rows && op in rows[key].operations)
    && (forall key | key in rows :: RowExact(lc, rows[key].operations, key, rows[key]))
  }

  /** `state` is that of the first operation in `ops` filed under the key. */
  ghost predicate FirstFiled(lc: Lifecycle, ops: seq<string>, key: string, state: string) {
    exists k: nat :: k < |ops| && Filed(lc, ops[k], state, key) && forall j: nat, to | j < k :: !Filed(lc, ops[j], to, key)
  }

  ghost predicate FirstStates(lc: Lifecycle, ops: seq<string>, rows: map<string, Row>) {
    forall key | key in rows :: FirstFiled(lc, ops, key, rows[key].state)
  }

  ghost predicate KeysExact(l: Ledger) { Sorting.Once(l.keys) && forall key :: key in l.keys <==> key in l.rows }

  ghost function Members(ops: seq<string>): set<string> { set op | op in ops }

  ghost predicate LedgerSays(lc: Lifecycle, ops: seq<string>, l: Ledger) {
    RowsExact(lc, Members(ops), l.rows) && FirstStates(lc, ops, l.rows) && KeysExact(l)
  }

  lemma FirstStaysFirst(lc: Lifecycle, ops: seq<string>, op: string, key: string, state: string)
    requires FirstFiled(lc, ops, key, state)
    ensures FirstFiled(lc, ops + [op], key, state)
  {
    hide Filed;
    var k: nat :| k < |ops| && Filed(lc, ops[k], state, key) && forall j: nat, to | j < k :: !Filed(lc, ops[j], to, key);
    var all := ops + [op];
    assert all[k] == ops[k] && forall j: nat | j < k :: all[j] == ops[j];
  }

  lemma BegunFirst(lc: Lifecycle, ops: seq<string>, op: string, key: string, state: string)
    requires Filed(lc, op, state, key) && forall o, to | o in ops :: !Filed(lc, o, to, key)
    ensures FirstFiled(lc, ops + [op], key, state)
  {
    hide Filed;
    var all := ops + [op];
    assert all[|ops|] == op && forall j: nat | j < |ops| :: all[j] in ops;
  }

  lemma FiledSays(lc: Lifecycle, ops: seq<string>, l: Ledger, op: string, to: string, opens: bool)
    requires LedgerSays(lc, ops, l) && op !in ops
    requires Qualifies(Mentions(lc.states), op, to) && (opens <==> Opens(Mentions(lc.states), lc.initial, op))
    ensures LedgerSays(lc, ops + [op], File(lc, l, op, to, opens))
  {
    hide Qualifies, Mentions, Opens, KeyOf, Terminal, RowExact;
    var l', key := File(lc, l, op, to, opens), KeyOf(lc.states, to, opens);
    FileKeeps(lc, l, op, to, opens, Members(ops));
    assert Members(ops + [op]) == Members(ops) + {op};
    assert Filed(lc, op, to, key);
    hide Filed, FirstFiled;
    forall k | k in l'.rows ensures FirstFiled(lc, ops + [op], k, l'.rows[k].state) {
      if k in l.rows {
        FirstStaysFirst(lc, ops, op, k, l.rows[k].state);
      } else {
        BegunFirst(lc, ops, op, key, to);
      }
    }
  }

  lemma UnfiledSays(lc: Lifecycle, ops: seq<string>, l: Ledger, op: string)
    requires LedgerSays(lc, ops, l) && forall to :: !Qualifies(Mentions(lc.states), op, to)
    ensures LedgerSays(lc, ops + [op], l)
  {
    hide Qualifies, Mentions, Opens, KeyOf, Terminal, RowExact, RowsExact, FirstFiled;
    Unfiled(lc, l.rows, op, Members(ops));
    assert Members(ops + [op]) == Members(ops) + {op};
    forall k | k in l.rows ensures FirstFiled(lc, ops + [op], k, l.rows[k].state) {
      FirstStaysFirst(lc, ops, op, k, l.rows[k].state);
    }
  }

  lemma {:induction false} FileAllSays(lc: Lifecycle, t: Tally, ops: seq<string>)
    requires t == TallyOf(Mentions(lc.states)) && Sorting.Once(ops)
    ensures LedgerSays(lc, ops, FileAll(lc, t, ops))
    decreases |ops|
  {
    hide Mentions, TallyOf, Qualifies, Opens, Filed, File, LedgerSays;
    if ops == [] {
      NothingFiled(lc);
    } else {
      var rest, op := ops[..|ops| - 1], ops[|ops| - 1];
      FileAllSays(lc, t, rest);
      TallyExact(Mentions(lc.states), op);
      assert ops == rest + [op] && op !in rest;
      var l := FileAll(lc, t, rest);
      if op in t.target && t.target[op].Some? {
        SourcesOpen(lc, t, op, OpensBy(lc, t, op));
        FiledSays(lc, rest, l, op, t.target[op].value, OpensBy(lc, t, op));
      } else {
        UnfiledSays(lc, rest, l, op);
      }
    }
  }

  lemma NothingFiled(lc: Lifecycle)
    ensures LedgerSays(lc, [], Ledger([], map[]))
  {
  }

  /** The rows answer the lifecycle, each with the state of its operation first mentioned. */
  lemma RowsAnswer(lc: Lifecycle)
    ensures Answer(lc, RowsOf(lc)) && KeysExact(LedgerOf(lc))
    ensures FirstStates(lc, TallyOf(Mentions(lc.states)).order, RowsOf(lc))
  {
    hide Mentions, TallyOf, FileAll, Answer, RowsExact, FirstStates;
    var t := TallyOf(Mentions(lc.states));
    OrderExact(Mentions(lc.states));
    FileAllSays(lc, t, t.order);
    AllFiled(lc, t, RowsOf(lc), Members(t.order));
  }

  /** `lifecycleMovesOf` for one entity: its rows, filed in the order of first mention. */
  method LifecycleMoves(lc: Lifecycle) returns (l: Ledger)
    ensures l == LedgerOf(lc) && Answer(lc, l.rows) && KeysExact(l)
  {
    hide Mentions, TallyOf, Answer, KeysExact, KeyOf, Terminal;
    RowsAnswer(lc);
    var t := Pass(lc);
    l := Ledger([], map[]);
    for i := 0 to |t.order|
      invariant l == FileAll(lc, t, t.order[..i])
    {
      assert t.order[..i + 1][..i] == t.order[..i];
      var op := t.order[i];
      if op in t.target && t.target[op].Some? {
        var to := t.target[op].value;
        var opens := op in t.sources ==> forall s | s in t.sources[op] :: s == lc.initial;
        var key := KeyOf(lc.states, to, opens);
        var row := if key in l.rows then l.rows[key] else Row(to, Terminal(lc.states, to), true, {});
        row := row.(fromInitial := row.fromInitial && opens, operations := row.operations + {op});
        l := Ledger(if key in l.rows then l.keys else l.keys + [key], l.rows[key := row]);
      }
    }
    assert t.order[..|t.order|] == t.order;
  }

  lemma SourcesOpen(lc: Lifecycle, t: Tally, op: string, opens: bool)
    requires Says(t, Mentions(lc.states), op) && op in t.target && t.target[op].Some?
    requires opens <==> OpensBy(lc, t, op)
    ensures opens <==> Opens(Mentions(lc.states), lc.initial, op)
  {
    hide Mentions;
    var ms, to := Mentions(lc.states), t.target[op].value;
    assert Qualifies(ms, op, to);
    if opens {
      forall m | m in ms && m.op == op ensures m.from == lc.initial {
        assert m == Moves(op, m.from, to);
      }
    } else {
      var s :| s in t.sources[op] && s != lc.initial;
      assert Moves(op, s, to) in ms;
    }
  }

  lemma AllFiled(lc: Lifecycle, t: Tally, rows: map<string, Row>, done: set<string>)
    requires t == TallyOf(Mentions(lc.states)) && done == t.target.Keys && RowsExact(lc, done, rows)
    ensures Answer(lc, rows)
  {
    hide Mentions, TallyOf, KeyOf, Opens, Terminal;
    forall op, to, key | Filed(lc, op, to, key) ensures key in rows && op in rows[key].operations {
      TallyExact(Mentions(lc.states), op);
      assert RowExact(lc, done, key, rows[key]);
    }
    forall key | key in rows ensures RowExact(lc, rows[key].operations, key, rows[key]) {
      assert RowExact(lc, done, key, rows[key]);
    }
  }

  lemma Unfiled(lc: Lifecycle, rows: map<string, Row>, op: string, done: set<string>)
    requires RowsExact(lc, done, rows) && forall to :: !Qualifies(Mentions(lc.states), op, to)
    ensures RowsExact(lc, done + {op}, rows)
  {
    hide Qualifies, Mentions, Opens, KeyOf, Terminal;
    forall key | key in rows ensures RowExact(lc, done + {op}, key, rows[key]) {
      assert RowExact(lc, done, key, rows[key]);
    }
  }

  // ----- when the rows are right

  /** Two qualifying operations share a key though their states differ: one name spells the other's key. */
  ghost predicate NameClash(lc: Lifecycle) {
    exists op, t, other, u :: && Qualifies(Mentions(lc.states), op, t) && Terminal(lc.states, t)
                              && Qualifies(Mentions(lc.states), other, u) && !Terminal(lc.states, u)
                              && t == KeyOf(lc.states, u, Opens(Mentions(lc.states), lc.initial, other))
  }

  ghost predicate OneStatePerRow(lc: Lifecycle, rows: map<string, Row>) {
    forall key, op, to | key in rows && op in rows[key].operations && Qualifies(Mentions(lc.states), op, to) :: to == rows[key].state
  }

  lemma OpenKeysDiffer(states: seq<StateDef>, t: string, u: string, a: bool, b: bool)
    requires !Terminal(states, t) && !Terminal(states, u) && KeyOf(states, t, a) == KeyOf(states, u, b)
    ensures t == u && a == b
  {
    var k, l := KeyOf(states, t, a), KeyOf(states, u, b);
    assert k[|k| - 2] == if a then 'u' else 's';
    assert l[|l| - 2] == if b then 'u' else 's';
    assert k[..|t|] == t && l[..|u|] == u;
  }

  lemma SameKeySameState(lc: Lifecycle, op: string, t: string, other: string, u: string, key: string)
    requires !NameClash(lc) && Filed(lc, op, t, key) && Filed(lc, other, u, key)
    ensures t == u
  {
    var ms := Mentions(lc.states);
    if !Terminal(lc.states, t) && !Terminal(lc.states, u) {
      OpenKeysDiffer(lc.states, t, u, Opens(ms, lc.initial, op), Opens(ms, lc.initial, other));
    }
  }

  /** Each row's operations all move into its state exactly when no state's name spells another's key. */
  lemma RowsRightExactly(lc: Lifecycle, rows: map<string, Row>)
    requires Answer(lc, rows)
    ensures OneStatePerRow(lc, rows) <==> !NameClash(lc)
  {
    var ms := Mentions(lc.states);
    if !NameClash(lc) {
      forall key, op, to | key in rows && op in rows[key].operations && Qualifies(ms, op, to) ensures to == rows[key].state {
        assert RowExact(lc, rows[key].operations, key, rows[key]);
        var first :| first in rows[key].operations && Filed(lc, first, rows[key].state, key);
        var u :| Filed(lc, op, u, key);
        OneKey(lc, op);
        SameKeySameState(lc, op, u, first, rows[key].state, key);
        assert u == to;
      }
    } else {
      var op, t, other, u :| && Qualifies(ms, op, t) && Terminal(lc.states, t)
                             && Qualifies(ms, other, u) && !Terminal(lc.states, u)
                             && t == KeyOf(lc.states, u, Opens(ms, lc.initial, other));
      assert Filed(lc, op, t, t) && Filed(lc, other, u, t);
    }
  }

  /** A name without the separator spells no other key. */
  lemma SeparatorFreeNoClash(lc: Lifecycle)
    requires forall i | 0 <= i < |lc.states| :: SEPARATOR !in lc.states[i].name
    ensures !NameClash(lc)
  {
    hide Mentions, Qualifies, Opens;
    forall t, u, opens | Terminal(lc.states, t) && !Terminal(lc.states, u) ensures t != KeyOf(lc.states, u, opens) {
      assert KeyOf(lc.states, u, opens)[|u|] == SEPARATOR;
    }
  }

  /** A declaration whose rows come out merged: `won` is terminal, and its name spells `sent`'s opening key. */
  const CLASHING := Lifecycle("draft", [
    StateDef("draft", [], [("send", "sent"), ("win", WON)], false), StateDef("sent", [], [], false), StateDef(WON, [], [], true)])

  const WON := "sent" + [SEPARATOR] + "true"

  lemma ClashFiled()
    ensures Filed(CLASHING, "send", "sent", WON) && Filed(CLASHING, "win", WON, WON)
    ensures Terminal(CLASHING.states, WON) && !Terminal(CLASHING.states, "sent")
  {
    var states := CLASHING.states;
    var ms := Mentions(states);
    assert states[..3] == states && states[..2][..1] == states[..1] && states[..1][..0] == [];
    assert Mentions(states[..1]) == [Moves("send", "draft", "sent"), Moves("win", "draft", WON)];
    assert states[..2][1] == states[1];
    assert Mentions(states[..2]) == Mentions(states[..1]);
    assert ms == Mentions(states[..2]);
    assert Moves("send", "draft", "sent") in ms && Moves("win", "draft", WON) in ms;
    assert |WON| != |"sent"|;
    assert Qualifies(ms, "win", WON) && Qualifies(ms, "send", "sent");
    assert Terminal(states, WON) by { assert states[2].terminal; }
    assert Opens(ms, "draft", "send");
    assert WON == KeyOf(states, "sent", true);
  }

  lemma ClashHappens()
    ensures NameClash(CLASHING)
  {
    hide Mentions, Terminal, Qualifies, Opens;
    ClashFiled();
  }

  // ----- counting runs

  datatype Call = Call(from: string, op: string, to: string)

  /** Where the entity stands before call `i`. */
  ghost function StandsIn(lc: Lifecycle, run: seq<Call>, i: nat): string
    requires i <= |run|
  {
    if i == 0 then lc.initial else run[i - 1].to
  }

  /** A run: accepted calls from the initial state, each starting where the last one ended. */
  ghost predicate IsRun(lc: Lifecycle, run: seq<Call>) {
    && (forall i | 0 <= i < |run| :: Allows(lc, run[i].from, run[i].op, run[i].to))
    && (forall i | 0 <= i < |run| :: run[i].from == StandsIn(lc, run, i))
  }

  ghost function CallsOf(run: seq<Call>, ops: set<string>): nat {
    if run == [] then 0 else CallsOf(run[..|run| - 1], ops) + if run[|run| - 1].op in ops then 1 else 0
  }

  ghost function MovesInto(run: seq<Call>, ops: set<string>, state: string): nat {
    if run == [] then 0
    else
      var c := run[|run| - 1];
      MovesInto(run[..|run| - 1], ops, state) + if c.op in ops && c.to == state && c.from != state then 1 else 0
  }

  /** One accepted call of a row's operation is a move into the row's state. */
  lemma CallIsMove(lc: Lifecycle, rows: map<string, Row>, key: string, c: Call)
    requires Answer(lc, rows) && key in rows
    requires Allows(lc, c.from, c.op, c.to) && c.op in rows[key].operations
    ensures c.from != c.to && (!NameClash(lc) ==> c.to == rows[key].state)
    ensures rows[key].fromInitial ==> c.from == lc.initial
  {
    var ms := Mentions(lc.states);
    AllowsExactly(lc, c.from, c.op, c.to);
    hide Allows;
    RowsRightExactly(lc, rows);
    assert RowExact(lc, rows[key].operations, key, rows[key]);
    var to :| Filed(lc, c.op, to, key);
    QualifiesExactly(ms, c.op, to);
    if Moves(c.op, c.from, c.to) in ms {
      assert Opens(ms, lc.initial, c.op) ==> c.from == lc.initial;
    }
  }

  lemma {:induction false} CallsAreMoves(lc: Lifecycle, rows: map<string, Row>, key: string, run: seq<Call>)
    requires Answer(lc, rows) && !NameClash(lc) && key in rows && IsRun(lc, run)
    ensures CallsOf(run, rows[key].operations) == MovesInto(run, rows[key].operations, rows[key].state)
    decreases |run|
  {
    hide Answer, NameClash, Allows, Mentions, IsRun;
    if run != [] {
      RunPrefix(lc, run);
      CallsAreMoves(lc, rows, key, run[..|run| - 1]);
      if run[|run| - 1].op in rows[key].operations {
        CallIsMove(lc, rows, key, run[|run| - 1]);
      }
    }
  }

  /**
   * The count is exact: over every run, the accepted calls of a row's operations number the moves
   * they make into the row's state from another state, if no names clash. Whether they do or not, an
   * opening row's calls all leave the initial state, and no call counts in two rows.
   */
  lemma {:induction false} CountsExact(lc: Lifecycle, rows: map<string, Row>, key: string, run: seq<Call>)
    requires Answer(lc, rows) && key in rows && IsRun(lc, run)
    ensures !NameClash(lc) ==> CallsOf(run, rows[key].operations) == MovesInto(run, rows[key].operations, rows[key].state)
    ensures rows[key].fromInitial ==> forall i | 0 <= i < |run| && run[i].op in rows[key].operations :: run[i].from == lc.initial
    ensures forall other | other in rows && other != key :: rows[key].operations !! rows[other].operations
  {
    hide Answer, NameClash, Allows, Mentions, CallsOf, MovesInto;
    if !NameClash(lc) {
      CallsAreMoves(lc, rows, key, run);
    }
    forall other | other in rows && other != key ensures rows[key].operations !! rows[other].operations {
      RowsApart(lc, rows, key, other);
    }
    forall i | 0 <= i < |run| && run[i].op in rows[key].operations ensures rows[key].fromInitial ==> run[i].from == lc.initial {
      CallIsMove(lc, rows, key, run[i]);
    }
  }

  lemma RunPrefix(lc: Lifecycle, run: seq<Call>)
    requires run != [] && IsRun(lc, run)
    ensures IsRun(lc, run[..|run| - 1]) && Allows(lc, run[|run| - 1].from, run[|run| - 1].op, run[|run| - 1].to)
  {
    hide Allows;
    var rest := run[..|run| - 1];
    forall i | 0 <= i < |rest| ensures rest[i].from == StandsIn(lc, rest, i) {
      assert run[i].from == StandsIn(lc, run, i);
    }
    forall i | 0 <= i < |rest| ensures Allows(lc, rest[i].from, rest[i].op, rest[i].to) {
      assert Allows(lc, run[i].from, run[i].op, run[i].to);
    }
  }

  lemma RowsApart(lc: Lifecycle, rows: map<string, Row>, key: string, other: string)
    requires Answer(lc, rows) && key in rows && other in rows && other != key
    ensures rows[key].operations !! rows[other].operations
  {
    assert RowExact(lc, rows[key].operations, key, rows[key]) && RowExact(lc, rows[other].operations, other, rows[other]);
    forall op | op in rows[key].operations ensures op !in rows[other].operations {
      OneKey(lc, op);
    }
  }

  // ----- declaration order

  /** The same declaration, its states, lists and edges written in any order. */
  ghost predicate SameDeclaration(a: Lifecycle, b: Lifecycle) {
    && a.initial == b.initial
    && (forall m :: m in Mentions(a.states) <==> m in Mentions(b.states))
    && (forall name :: Terminal(a.states, name) <==> Terminal(b.states, name))
  }

  lemma FiledAlike(a: Lifecycle, b: Lifecycle, op: string, to: string, key: string)
    requires SameDeclaration(a, b)
    ensures Filed(a, op, to, key) <==> Filed(b, op, to, key)
    ensures Opens(Mentions(a.states), a.initial, op) <==> Opens(Mentions(b.states), b.initial, op)
  {
    var ma, mb := Mentions(a.states), Mentions(b.states);
    assert Qualifies(ma, op, to) <==> Qualifies(mb, op, to) by {
      assert forall from :: Moves(op, from, to) in ma <==> Moves(op, from, to) in mb;
    }
  }

  /** The rows do not depend on the order a lifecycle is declared in. */
  lemma OrderFree(a: Lifecycle, b: Lifecycle, ra: map<string, Row>, rb: map<string, Row>)
    requires SameDeclaration(a, b) && Answer(a, ra) && Answer(b, rb) && !NameClash(a)
    ensures ra == rb
  {
    hide Mentions, Qualifies, Opens, KeyOf, Terminal, NameClash;
    forall op, to, key ensures Filed(a, op, to, key) <==> Filed(b, op, to, key) { FiledAlike(a, b, op, to, key); }
    forall key ensures key in ra <==> key in rb {
      if key in ra { assert RowExact(a, ra[key].operations, key, ra[key]); }
      if key in rb { assert RowExact(b, rb[key].operations, key, rb[key]); }
    }
    forall key | key in ra ensures ra[key] == rb[key] {
      RowsAlike(a, b, ra, rb, key);
    }
  }

  lemma RowsAlike(a: Lifecycle, b: Lifecycle, ra: map<string, Row>, rb: map<string, Row>, key: string)
    requires SameDeclaration(a, b) && Answer(a, ra) && Answer(b, rb) && !NameClash(a)
    requires key in ra && key in rb
    ensures ra[key] == rb[key]
  {
    hide Mentions, Qualifies, KeyOf, Terminal, NameClash, Opens, Filed;
    var x, y := ra[key], rb[key];
    assert RowExact(a, x.operations, key, x) && RowExact(b, y.operations, key, y);
    forall op, to ensures Filed(a, op, to, key) <==> Filed(b, op, to, key) { FiledAlike(a, b, op, to, key); }
    forall op ensures Opens(Mentions(a.states), a.initial, op) <==> Opens(Mentions(b.states), b.initial, op) { FiledAlike(a, b, op, "", key); }
    assert forall op :: op in x.operations <==> op in y.operations;
    assert x.operations == y.operations;
    var f :| f in x.operations && Filed(a, f, x.state, key);
    var g :| g in y.operations && Filed(b, g, y.state, key);
    SameKeySameState(a, f, x.state, g, y.state, key);
    assert x.fromInitial == y.fromInitial;
  }

  // ----- the rows as they are listed

  datatype Move = Move(entityType: string, state: string, terminal: bool, fromInitial: bool, operations: seq<string>)

  /** Rows go by their states' names; of two for one state, the opening one leads. */
  predicate RowFirst(compare: (string, string) -> int, a: Row, b: Row) {
    compare(a.state, b.state) < 0 || (compare(a.state, b.state) == 0 && (a.fromInitial || !b.fromInitial))
  }

  function ByRow(compare: (string, string) -> int): ((string, Row), (string, Row)) -> bool {
    (p: (string, Row), q: (string, Row)) => RowFirst(compare, p.1, q.1)
  }

  lemma RowsRank(compare: (string, string) -> int)
    requires Sorting.Collates(compare)
    ensures Sorting.Ranks(ByRow(compare))
  {
    var le := ByRow(compare);
    forall p: (string, Row), q: (string, Row) ensures le(p, q) || le(q, p) {
      assert compare(p.1.state, q.1.state) < 0 <==> compare(q.1.state, p.1.state) > 0;
      assert compare(q.1.state, p.1.state) < 0 <==> compare(p.1.state, q.1.state) > 0;
    }
    forall p: (string, Row), q: (string, Row), r: (string, Row) | le(p, q) && le(q, r) ensures le(p, r) {
      var a, b, c := p.1.state, q.1.state, r.1.state;
      assert compare(a, b) <= 0 && compare(b, c) <= 0;
      assert compare(a, c) <= 0;
      if compare(a, c) == 0 {
        assert compare(c, a) <= 0 && compare(c, b) <= 0 && compare(b, a) <= 0;
      }
    }
  }

  ghost predicate Shows(entityType: string, row: Row, m: Move) {
    && m.entityType == entityType && m.state == row.state && m.terminal == row.terminal && m.fromInitial == row.fromInitial
    && Sorting.Listed(row.operations, m.operations)
  }

  ghost predicate Filings(rows: map<string, Row>, order: seq<(string, Row)>) {
    Sorting.Once(order) && forall p: (string, Row) :: p in order <==> p.0 in rows && rows[p.0] == p.1
  }

  function Pairs(l: Ledger): seq<(string, Row)>
    requires KeysExact(l)
  {
    seq(|l.keys|, i requires 0 <= i < |l.keys| => assert l.keys[i] in l.keys; (l.keys[i], l.rows[l.keys[i]]))
  }

  lemma PairsFile(l: Ledger)
    requires KeysExact(l)
    ensures Filings(l.rows, Pairs(l))
  {
    var pairs := Pairs(l);
    forall p: (string, Row) | p.0 in l.rows && l.rows[p.0] == p.1 ensures p in pairs {
      var i :| 0 <= i < |l.keys| && l.keys[i] == p.0;
      assert pairs[i] == p;
    }
  }

  /** The order rows are shown in: sorted, those that tie as they were begun. */
  function Shown(compare: (string, string) -> int, l: Ledger): seq<(string, Row)>
    requires KeysExact(l)
  {
    Sorting.Sort(ByRow(compare), Pairs(l))
  }

  /** Every row is shown once, and in a locale's order. */
  lemma ShownExact(compare: (string, string) -> int, l: Ledger)
    requires KeysExact(l)
    ensures Filings(l.rows, Shown(compare, l)) && (Sorting.Collates(compare) ==> Sorting.Sorted(ByRow(compare), Shown(compare, l)))
  {
    hide Sorting.Collates, Sorting.Sorted, ByRow, KeysExact;
    var some := Pairs(l);
    PairsFile(l);
    var sorted := Sorting.Sort(ByRow(compare), some);
    Sorting.SameMembers(sorted, some);
    Sorting.OnceStays(some, sorted);
    if Sorting.Collates(compare) {
      RowsRank(compare);
      Sorting.SortSorts(ByRow(compare), some);
    }
  }

  /** `out` is the rows as they are shown, their operations sorted. */
  ghost predicate Emits(compare: (string, string) -> int, entityType: string, l: Ledger, out: seq<Move>)
    requires KeysExact(l)
  {
    var order := Shown(compare, l);
    |out| == |order| && forall i | 0 <= i < |out| :: Shows(entityType, order[i].1, out[i])
  }

  method Emit(compare: (string, string) -> int, entityType: string, l: Ledger) returns (out: seq<Move>)
    requires KeysExact(l)
    ensures Emits(compare, entityType, l, out)
  {
    hide KeysExact, Sorting.Listed;
    var order := Shown(compare, l);
    hide Shown;
    out := [];
    for i := 0 to |order|
      invariant |out| == i && forall k | 0 <= k < i :: Shows(entityType, order[k].1, out[k])
    {
      var row := order[i].1;
      var operations := Sorting.ListSorted(row.operations);
      out := out + [Move(entityType, row.state, row.terminal, row.fromInitial, operations)];
    }
  }

  ghost function Joined(parts: seq<seq<Move>>): seq<Move> {
    if parts == [] then [] else Joined(parts[..|parts| - 1]) + parts[|parts| - 1]
  }

  /** One entity's part of the list is its rows, emitted. */
  ghost predicate PartOf(compare: (string, string) -> int, entityType: string, lc: Lifecycle, part: seq<Move>) {
    KeysExact(LedgerOf(lc)) && Emits(compare, entityType, LedgerOf(lc), part)
  }

  /** `lifecycleMovesOf`: the entities in declared order, each with its rows. */
  method LifecycleMovesOf(compare: (string, string) -> int, entities: seq<(string, Lifecycle)>) returns (out: seq<Move>, ghost parts: seq<seq<Move>>)
    ensures |parts| == |entities| && out == Joined(parts)
    ensures forall i | 0 <= i < |entities| :: PartOf(compare, entities[i].0, entities[i].1, parts[i])
  {
    hide Answer, Emits, LedgerOf, KeysExact;
    out, parts := [], [];
    for i := 0 to |entities|
      invariant |parts| == i && out == Joined(parts)
      invariant forall k | 0 <= k < i :: PartOf(compare, entities[k].0, entities[k].1, parts[k])
    {
      var ledger := LifecycleMoves(entities[i].1);
      var part := Emit(compare, entities[i].0, ledger);
      assert (parts + [part])[..i] == parts;
      out, parts := out + part, parts + [part];
    }
  }

  /**
   * An entity's list shows every row once and in order: states never decrease in the locale's order, and
   * of two rows for one state the opening one comes first.
   */
  lemma ListInOrder(compare: (string, string) -> int, entityType: string, lc: Lifecycle, part: seq<Move>)
    requires Sorting.Collates(compare) && PartOf(compare, entityType, lc, part)
    ensures forall i, j | 0 <= i < j < |part| ::
              compare(part[i].state, part[j].state) <= 0 && (part[i].state == part[j].state && part[j].fromInitial ==> part[i].fromInitial)
    ensures |part| == |RowsOf(lc)| && forall key | key in RowsOf(lc) :: exists i :: 0 <= i < |part| && Shows(entityType, RowsOf(lc)[key], part[i])
  {
    var l := LedgerOf(lc);
    ShownExact(compare, l);
    var order := Shown(compare, l);
    RowsNumber(l);
    hide LedgerOf, KeysExact, Shown, Sorting.Listed;
    forall i, j | 0 <= i < j < |part|
      ensures compare(part[i].state, part[j].state) <= 0 && (part[i].state == part[j].state && part[j].fromInitial ==> part[i].fromInitial)
    {
      assert Shows(entityType, order[i].1, part[i]) && Shows(entityType, order[j].1, part[j]);
      assert ByRow(compare)(order[i], order[j]);
      assert compare(part[i].state, part[i].state) < 0 <==> compare(part[i].state, part[i].state) > 0;
    }
    forall key | key in l.rows ensures exists i :: 0 <= i < |part| && Shows(entityType, l.rows[key], part[i]) {
      assert (key, l.rows[key]) in order;
      var i :| 0 <= i < |order| && order[i] == (key, l.rows[key]);
      assert Shows(entityType, order[i].1, part[i]);
    }
  }

  lemma RowsNumber(l: Ledger)
    requires KeysExact(l)
    ensures |l.keys| == |l.rows|
  {
    assert l.rows.Keys == Members(l.keys);
    OnceCounted(l.keys);
    assert |l.rows.Keys| == |l.rows|;
  }

  lemma {:induction false} OnceCounted(keys: seq<string>)
    requires Sorting.Once(keys)
    ensures |Members(keys)| == |keys|
  {
    if keys != [] {
      var rest, last := keys[..|keys| - 1], keys[|keys| - 1];
      OnceCounted(rest);
      assert keys == rest + [last] && last !in rest;
      assert Members(keys) == Members(rest) + {last};
    }
  }

  /** The comparison tells the states moved into apart. */
  ghost predicate Tells(compare: (string, string) -> int, lc: Lifecycle) {
    var ms := Mentions(lc.states);
    forall m, n | m in ms && n in ms && m.Moves? && n.Moves? && compare(m.to, n.to) == 0 :: m.to == n.to
  }

  /** Without a clash, a row is known by its state and whether it opens. */
  lemma RowKnown(lc: Lifecycle, rows: map<string, Row>, k: string, l: string)
    requires Answer(lc, rows) && !NameClash(lc) && k in rows && l in rows
    requires rows[k].state == rows[l].state && rows[k].fromInitial == rows[l].fromInitial
    ensures k == l
  {
    KeySays(lc, rows, k);
    KeySays(lc, rows, l);
  }

  lemma KeySays(lc: Lifecycle, rows: map<string, Row>, key: string)
    requires Answer(lc, rows) && !NameClash(lc) && key in rows
    ensures key == if Terminal(lc.states, rows[key].state) then rows[key].state else KeyOf(lc.states, rows[key].state, rows[key].fromInitial)
  {
    hide Mentions, Qualifies, Opens, Terminal;
    var ms, row := Mentions(lc.states), rows[key];
    assert RowExact(lc, row.operations, key, row);
    var op :| op in row.operations && Filed(lc, op, row.state, key);
    if !Terminal(lc.states, row.state) {
      forall other | other in row.operations ensures Opens(ms, lc.initial, other) == Opens(ms, lc.initial, op) {
        var to :| Filed(lc, other, to, key);
        SameKeySameState(lc, op, row.state, other, to, key);
        OpenKeysDiffer(lc.states, to, row.state, Opens(ms, lc.initial, other), Opens(ms, lc.initial, op));
      }
    }
  }

  lemma TiedRows(compare: (string, string) -> int, lc: Lifecycle, rows: map<string, Row>, s: (string, Row), t: (string, Row))
    requires Sorting.Collates(compare) && Tells(compare, lc) && Answer(lc, rows)
    requires s.0 in rows && t.0 in rows && rows[s.0] == s.1 && rows[t.0] == t.1
    requires RowFirst(compare, s.1, t.1) && RowFirst(compare, t.1, s.1)
    ensures s.1.state == t.1.state && s.1.fromInitial == t.1.fromInitial
  {
    hide Mentions, Opens, KeyOf, Terminal;
    var a, b := s.1.state, t.1.state;
    assert compare(a, b) < 0 <==> compare(b, a) > 0;
    assert RowExact(lc, s.1.operations, s.0, s.1) && RowExact(lc, t.1.operations, t.0, t.1);
    var op, other :| Filed(lc, op, a, s.0) && Filed(lc, other, b, t.0);
    var from, from' :| Moves(op, from, a) in Mentions(lc.states) && Moves(other, from', b) in Mentions(lc.states);
  }

  lemma OneEmission(compare: (string, string) -> int, entityType: string, lc: Lifecycle, k: Ledger, l: Ledger, x: seq<Move>, y: seq<Move>)
    requires Sorting.Collates(compare) && !NameClash(lc) && Answer(lc, k.rows) && Tells(compare, lc)
    requires KeysExact(k) && KeysExact(l) && k.rows == l.rows && Emits(compare, entityType, k, x) && Emits(compare, entityType, l, y)
    ensures x == y
  {
    hide Answer, NameClash, Sorting.Collates, Sorting.Listed, Tells, Shown, KeysExact;
    ShownExact(compare, k);
    ShownExact(compare, l);
    var p, q := Shown(compare, k), Shown(compare, l);
    Sorting.SameOnce(p, q);
    var le := ByRow(compare);
    forall s: (string, Row), t: (string, Row) | s in p && t in p && le(s, t) && le(t, s) ensures s == t {
      TiedRows(compare, lc, k.rows, s, t);
      RowKnown(lc, k.rows, s.0, t.0);
    }
    assert Sorting.NoTies(le, p);
    Sorting.OneOrder(le, p, q);
    forall i | 0 <= i < |x| ensures x[i] == y[i] {
      Sorting.OneListing(p[i].1.operations, x[i].operations, y[i].operations);
    }
  }

  /** So an entity's list does not depend on declaration order, in any locale that tells its states apart. */
  lemma ListOrderFree(compare: (string, string) -> int, entityType: string, a: Lifecycle, b: Lifecycle, x: seq<Move>, y: seq<Move>)
    requires Sorting.Collates(compare) && Tells(compare, a) && SameDeclaration(a, b) && !NameClash(a)
    requires PartOf(compare, entityType, a, x) && PartOf(compare, entityType, b, y)
    ensures x == y
  {
    hide Answer, NameClash, SameDeclaration, Sorting.Collates, Tells, Emits, LedgerOf, KeysExact;
    RowsAnswer(a);
    RowsAnswer(b);
    OrderFree(a, b, RowsOf(a), RowsOf(b));
    OneEmission(compare, entityType, a, LedgerOf(a), LedgerOf(b), x, y);
  }
}
