/** One turn written into its thread: prose as bracketed text parts, everything appended in serial batches. */
module TurnRecord {
  import opened Wrappers

  const BATCH := 50
  const DELTA_MAX := 16_000

  /** What the turn loop reports: presence only, prose, or anything the record keeps as one event. */
  datatype Input = Thinking | Prose(text: string) | Happened(what: string)

  datatype Body =
    | TextStart(pid: nat)
    | TextDelta(pid: nat, delta: string)
    | TextEnd(pid: nat)
    | HostEvent(what: string)
    | TurnEnd(outcome: string)

  // ----- the stream, as a function of what was reported

  /** The open part, how many parts there have been, and the stream so far. */
  datatype Writer = Writer(pid: Option<nat>, parts: nat, out: seq<Body>)

  const OPENED := Writer(None, 0, [HostEvent("turn-context")])

  function Deltas(pid: nat, text: string): seq<Body> {
    if text == "" then []
    else if |text| <= DELTA_MAX then [TextDelta(pid, text)]
    else [TextDelta(pid, text[..DELTA_MAX])] + Deltas(pid, text[DELTA_MAX..])
  }

  function Close(w: Writer): Writer {
    if w.pid.None? then w else Writer(None, w.parts, w.out + [TextEnd(w.pid.value)])
  }

  function Open(w: Writer): Writer {
    if w.pid.Some? then w else Writer(Some(w.parts + 1), w.parts + 1, w.out + [TextStart(w.parts + 1)])
  }

  function Take(w: Writer, e: Input): Writer {
    match e
    case Thinking => w
    case Prose(text) => var o := Open(w); o.(out := o.out + Deltas(o.pid.value, text))
    case Happened(what) => var c := Close(w); c.(out := c.out + [HostEvent(what)])
  }

  function TakeAll(es: seq<Input>): Writer {
    if es == [] then OPENED else Take(TakeAll(es[..|es| - 1]), es[|es| - 1])
  }

  function End(w: Writer, outcome: string): Writer { var c := Close(w); c.(out := c.out + [TurnEnd(outcome)]) }

  // ----- what a reader of the stream relies on

  /** A reader's position: the part it is inside, the parts it has met, and their texts. */
  datatype Reader = Reader(open: Option<nat>, texts: seq<string>, ended: bool)

  /** Reading one event; nothing is readable out of place. */
  function Read(r: Reader, b: Body): Option<Reader> {
    if r.ended then None
    else match b
      case TextStart(pid) =>
        if r.open.None? && pid == |r.texts| + 1 then Some(Reader(Some(pid), r.texts + [""], false)) else None
      case TextDelta(pid, delta) =>
        if r.open == Some(pid) && r.texts != [] && 0 < |delta| <= DELTA_MAX then
          Some(r.(texts := r.texts[..|r.texts| - 1] + [r.texts[|r.texts| - 1] + delta]))
        else None
      case TextEnd(pid) => if r.open == Some(pid) then Some(r.(open := None)) else None
      case HostEvent(_) => if r.open.None? then Some(r) else None
      case TurnEnd(_) => if r.open.None? then Some(r.(ended := true)) else None
  }

  function ReadAll(out: seq<Body>): Option<Reader> {
    if out == [] then Some(Reader(None, [], false))
    else
      var r := ReadAll(out[..|out| - 1]);
      if r.None? then None else Read(r.value, out[|out| - 1])
  }

  /** The turn's prose by runs: reports of prose with nothing but thinking between them are one run. */
  datatype Runs = Runs(texts: seq<string>, going: bool)

  function RunsOf(es: seq<Input>): Runs {
    if es == [] then Runs([], false)
    else
      var r := RunsOf(es[..|es| - 1]);
      match es[|es| - 1]
      case Thinking => r
      case Prose(text) =>
        if r.going && r.texts != [] then Runs(r.texts[..|r.texts| - 1] + [r.texts[|r.texts| - 1] + text], true)
        else Runs(r.texts + [text], true)
      case Happened(_) => r.(going := false)
  }

  lemma ReadNext(out: seq<Body>, b: Body)
    ensures ReadAll(out + [b]) == if ReadAll(out).None? then None else Read(ReadAll(out).value, b)
  {
    assert (out + [b])[..|out|] == out;
  }

  lemma {:induction false} ReadDeltas(out: seq<Body>, pid: nat, text: string)
    requires ReadAll(out).Some?
    requires var r := ReadAll(out).value; r.open == Some(pid) && !r.ended && r.texts != []
    ensures var r := ReadAll(out).value;
            ReadAll(out + Deltas(pid, text)) == Some(r.(texts := r.texts[..|r.texts| - 1] + [r.texts[|r.texts| - 1] + text]))
    decreases |text|
  {
    hide ReadAll;
    var r := ReadAll(out).value;
    if text == "" {
      assert out + Deltas(pid, text) == out;
      assert r.texts[|r.texts| - 1] + text == r.texts[|r.texts| - 1];
      assert r.texts[..|r.texts| - 1] + [r.texts[|r.texts| - 1]] == r.texts;
    } else if |text| <= DELTA_MAX {
      ReadNext(out, TextDelta(pid, text));
    } else {
      var first := TextDelta(pid, text[..DELTA_MAX]);
      ReadNext(out, first);
      ReadDeltas(out + [first], pid, text[DELTA_MAX..]);
      assert out + Deltas(pid, text) == (out + [first]) + Deltas(pid, text[DELTA_MAX..]);
      assert text[..DELTA_MAX] + text[DELTA_MAX..] == text;
      assert (r.texts[|r.texts| - 1] + text[..DELTA_MAX]) + text[DELTA_MAX..] == r.texts[|r.texts| - 1] + text;
    }
  }

  /** The stream reads back as the turn's runs, with the writer's open part the reader's. */
  ghost predicate Faithful(w: Writer, runs: Runs) {
    && ReadAll(w.out) == Some(Reader(w.pid, runs.texts, false))
    && w.parts == |runs.texts|
    && (w.pid.Some? <==> runs.going)
    && (w.pid.Some? ==> runs.texts != [] && w.pid.value == |runs.texts|)
  }

  lemma CloseFaithful(w: Writer, runs: Runs)
    requires Faithful(w, runs)
    ensures Faithful(Close(w), runs.(going := false))
  {
    if w.pid.Some? {
      ReadNext(w.out, TextEnd(w.pid.value));
    }
  }

  lemma {:induction false} StreamFaithful(es: seq<Input>)
    ensures Faithful(TakeAll(es), RunsOf(es))
  {
    hide ReadAll;
    if es == [] {
      assert ReadAll([HostEvent("turn-context")]) == Some(Reader(None, [], false)) by { FirstRead("turn-context"); }
    } else {
      var rest, e := es[..|es| - 1], es[|es| - 1];
      StreamFaithful(rest);
      var w, runs := TakeAll(rest), RunsOf(rest);
      match e
      case Thinking =>
      case Prose(text) =>
        if w.pid.None? {
          ReadNext(w.out, TextStart(w.parts + 1));
        }
        var o := Open(w);
        ReadDeltas(o.out, o.pid.value, text);
        var texts := ReadAll(o.out).value.texts;
        assert "" + text == text;
        assert w.pid.None? ==> texts[..|texts| - 1] + [texts[|texts| - 1] + text] == runs.texts + [text];
      case Happened(what) =>
        CloseFaithful(w, runs);
        ReadNext(Close(w).out, HostEvent(what));
    }
  }

  lemma FirstRead(what: string)
    ensures ReadAll([HostEvent(what)]) == Some(Reader(None, [], false))
  {
    assert [HostEvent(what)][..0] == [];
    assert ReadAll([]) == Some(Reader(None, [], false));
  }

  /**
   * Every turn's stream is well formed: parts bracketed under fresh ids with nothing else inside one,
   * each part's deltas the prose of one run, and the terminal event once and last.
   */
  lemma TurnReadsBack(es: seq<Input>, outcome: string)
    ensures ReadAll(End(TakeAll(es), outcome).out) == Some(Reader(None, RunsOf(es).texts, true))
    ensures var out := End(TakeAll(es), outcome).out;
            forall i | 0 <= i < |out| :: out[i].TurnEnd? <==> i == |out| - 1
  {
    hide ReadAll, TakeAll, RunsOf;
    StreamFaithful(es);
    CloseFaithful(TakeAll(es), RunsOf(es));
    var c := Close(TakeAll(es));
    ReadNext(c.out, TurnEnd(outcome));
    forall i | 0 <= i < |c.out| ensures !c.out[i].TurnEnd? {
      EndedStays(c.out, i);
    }
  }

  /** A stream whose reader has not met the end holds no terminal event. */
  lemma {:induction false} EndedStays(out: seq<Body>, i: nat)
    requires i < |out| && ReadAll(out).Some? && !ReadAll(out).value.ended
    ensures !out[i].TurnEnd?
  {
    if i < |out| - 1 {
      EndedStays(out[..|out| - 1], i);
    }
  }

  // ----- what the stream tells, in order

  /** Prose said without interruption, something that happened, or how the turn ended. */
  datatype Block = Said(text: string) | Did(what: string) | Ended(outcome: string)

  ghost function Extended(blocks: seq<Block>, text: string): seq<Block> {
    if blocks != [] && blocks[|blocks| - 1].Said? then blocks[..|blocks| - 1] + [Said(blocks[|blocks| - 1].text + text)] else blocks
  }

  /** A stream told as blocks. */
  ghost function Told(out: seq<Body>): seq<Block> {
    if out == [] then [] else Tell(Told(out[..|out| - 1]), out[|out| - 1])
  }

  ghost function Tell(so: seq<Block>, b: Body): seq<Block> {
    match b
    case TextStart(_) => so + [Said("")]
    case TextDelta(_, delta) => Extended(so, delta)
    case TextEnd(_) => so
    case HostEvent(what) => so + [Did(what)]
    case TurnEnd(outcome) => so + [Ended(outcome)]
  }

  /** The same of the reports: prose goes on until something happens. */
  ghost function Reported(es: seq<Input>): seq<Block> {
    if es == [] then [Did("turn-context")]
    else
      var so := Reported(es[..|es| - 1]);
      match es[|es| - 1]
      case Thinking => so
      case Prose(text) => if so != [] && so[|so| - 1].Said? then Extended(so, text) else so + [Said(text)]
      case Happened(what) => so + [Did(what)]
  }

  lemma ToldNext(out: seq<Body>, b: Body)
    ensures Told(out + [b]) == Tell(Told(out), b)
  {
    assert (out + [b])[..|out|] == out;
  }

  lemma ExtendedTwice(blocks: seq<Block>, a: string, b: string)
    ensures Extended(Extended(blocks, a), b) == Extended(blocks, a + b)
  {
    if blocks != [] && blocks[|blocks| - 1].Said? {
      var so := Extended(blocks, a);
      assert so[..|so| - 1] == blocks[..|blocks| - 1];
      assert (blocks[|blocks| - 1].text + a) + b == blocks[|blocks| - 1].text + (a + b);
    }
  }

  lemma {:induction false} ToldDeltas(out: seq<Body>, pid: nat, text: string)
    requires Told(out) != [] && Told(out)[|Told(out)| - 1].Said?
    ensures Told(out + Deltas(pid, text)) == Extended(Told(out), text)
    decreases |text|
  {
    hide Told, Extended;
    if text == "" {
      assert out + Deltas(pid, text) == out;
      ExtendedByNothing(Told(out));
    } else if |text| <= DELTA_MAX {
      ToldNext(out, TextDelta(pid, text));
    } else {
      var first := TextDelta(pid, text[..DELTA_MAX]);
      ToldNext(out, first);
      StillSaid(Told(out), text[..DELTA_MAX]);
      ToldDeltas(out + [first], pid, text[DELTA_MAX..]);
      assert out + Deltas(pid, text) == (out + [first]) + Deltas(pid, text[DELTA_MAX..]);
      ExtendedTwice(Told(out), text[..DELTA_MAX], text[DELTA_MAX..]);
      assert text[..DELTA_MAX] + text[DELTA_MAX..] == text;
    }
  }

  lemma ExtendedByNothing(blocks: seq<Block>)
    ensures Extended(blocks, "") == blocks
  {
    if blocks != [] && blocks[|blocks| - 1].Said? {
      assert blocks[|blocks| - 1].text + "" == blocks[|blocks| - 1].text;
    }
  }

  lemma StillSaid(blocks: seq<Block>, text: string)
    requires blocks != [] && blocks[|blocks| - 1].Said?
    ensures Extended(blocks, text) != [] && Extended(blocks, text)[|Extended(blocks, text)| - 1].Said?
  {
  }

  lemma ExtendsNew(blocks: seq<Block>, text: string)
    ensures Extended(blocks + [Said("")], text) == blocks + [Said(text)]
  {
    var so := blocks + [Said("")];
    assert so[..|so| - 1] == blocks && "" + text == text;
  }

  ghost predicate SaysLast(blocks: seq<Block>) { blocks != [] && blocks[|blocks| - 1].Said? }

  lemma {:induction false} ToldAsReported(es: seq<Input>)
    ensures Told(TakeAll(es).out) == Reported(es) && (TakeAll(es).pid.Some? <==> SaysLast(Reported(es)))
  {
    hide Told, Extended;
    if es == [] {
      ToldNext([], HostEvent("turn-context"));
      assert [] + [HostEvent("turn-context")] == [HostEvent("turn-context")] && Told([]) == [] by { NothingTold(); }
    } else {
      var rest, e := es[..|es| - 1], es[|es| - 1];
      ToldAsReported(rest);
      var w := TakeAll(rest);
      match e
      case Thinking =>
      case Prose(text) =>
        if w.pid.None? {
          ToldNext(w.out, TextStart(w.parts + 1));
          ExtendsNew(Told(w.out), text);
        } else {
          StillSaid(Told(w.out), text);
        }
        var o := Open(w);
        ToldDeltas(o.out, o.pid.value, text);
      case Happened(what) =>
        if w.pid.Some? { ToldNext(w.out, TextEnd(w.pid.value)); }
        ToldNext(Close(w).out, HostEvent(what));
    }
  }

  lemma NothingTold()
    ensures Told([]) == []
  {
  }

  /**
   * The stream of a turn tells exactly what was reported, in order and in its own words: every run of
   * prose, everything that happened, and at the end the outcome given.
   */
  lemma TurnTold(es: seq<Input>, outcome: string)
    ensures Told(End(TakeAll(es), outcome).out) == Reported(es) + [Ended(outcome)]
  {
    hide Told, Extended, Reported;
    ToldAsReported(es);
    var w := TakeAll(es);
    if w.pid.Some? { ToldNext(w.out, TextEnd(w.pid.value)); }
    ToldNext(Close(w).out, TurnEnd(outcome));
  }

  // ----- the record itself

  ghost function Flat(batches: seq<seq<Body>>): seq<Body> {
    if batches == [] then [] else Flat(batches[..|batches| - 1]) + batches[|batches| - 1]
  }

  lemma FlatNext(batches: seq<seq<Body>>, batch: seq<Body>)
    ensures Flat(batches + [batch]) == Flat(batches) + batch
  {
    assert (batches + [batch])[..|batches|] == batches;
  }

  lemma {:induction false} FlatHead(batches: seq<seq<Body>>)
    requires batches != []
    ensures Flat(batches) == batches[0] + Flat(batches[1..])
  {
    if |batches| > 1 {
      FlatHead(batches[..|batches| - 1]);
      assert batches[..|batches| - 1][1..] == batches[1..][..|batches| - 2];
    }
  }

  ghost predicate Small(batches: seq<seq<Body>>) { forall i | 0 <= i < |batches| :: 0 < |batches[i]| <= BATCH }

  /** A batch that has had its turn on the chain, and whether the thread took it. */
  datatype Turn = Turn(batch: seq<Body>, taken: bool)

  ghost function Offered(turns: seq<Turn>): seq<Body> {
    if turns == [] then [] else Offered(turns[..|turns| - 1]) + turns[|turns| - 1].batch
  }

  /** What the thread holds: the batches it took, in order. */
  ghost function Taken(turns: seq<Turn>): seq<Body> {
    if turns == [] then []
    else Taken(turns[..|turns| - 1]) + if turns[|turns| - 1].taken then turns[|turns| - 1].batch else []
  }

  ghost predicate AllTaken(turns: seq<Turn>) { forall i | 0 <= i < |turns| :: turns[i].taken }

  lemma TurnNext(turns: seq<Turn>, t: Turn)
    ensures Offered(turns + [t]) == Offered(turns) + t.batch
    ensures Taken(turns + [t]) == Taken(turns) + if t.taken then t.batch else []
  {
    assert (turns + [t])[..|turns|] == turns;
  }

  lemma {:induction false} TakenWhole(turns: seq<Turn>)
    requires AllTaken(turns)
    ensures Taken(turns) == Offered(turns)
  {
    if turns != [] {
      TakenWhole(turns[..|turns| - 1]);
    }
  }

  class TurnRecord {
    var pending: seq<Body>
    var pid: Option<nat>
    var parts: nat
    var finished: bool
    /** Batches flushed and waiting their turn on the chain, and those the thread has taken. */
    var chain: seq<seq<Body>>
    var appended: seq<seq<Body>>
    var failed: bool
    ghost var pushed: seq<Body>
    ghost var turns: seq<Turn>

    ghost function View(): Writer reads this { Writer(pid, parts, pushed) }

    /**
     * What was pushed is the batches that have had their turn, then those that wait, then the buffer;
     * the thread holds the batches it took, whole and in order, and all of them while no append failed.
     */
    ghost predicate Valid() reads this { |pending| < BATCH && Kept() }

    ghost predicate Kept() reads this {
      && Small(chain) && Small(appended)
      && Offered(turns) + Flat(chain) + pending == pushed && Flat(appended) == Taken(turns)
      && (!failed ==> AllTaken(turns))
    }

    constructor ()
      ensures Valid() && View() == OPENED && !finished && !failed
    {
      pending, pid, parts, finished := [HostEvent("turn-context")], None, 0, false;
      chain, appended, failed, pushed, turns := [], [], false, [HostEvent("turn-context")], [];
    }

    /** What is buffered joins the chain as one batch. */
    method Flush()
      requires |pending| <= BATCH && Kept()
      modifies this`pending, this`chain
      ensures Valid() && pending == []
    {
      hide Flat, Offered, Taken, AllTaken;
      var batch := pending;
      pending := [];
      if batch != [] {
        FlatNext(chain, batch);
        assert Offered(turns) + (Flat(chain) + batch) + [] == Offered(turns) + Flat(chain) + batch;
        chain := chain + [batch];
      }
    }

    method Push(b: Body)
      requires Valid()
      modifies this`pending, this`chain, this`pushed
      ensures Valid() && pushed == old(pushed) + [b]
    {
      pending := pending + [b];
      pushed := pushed + [b];
      if |pending| >= BATCH {
        Flush();
      }
    }

    method CloseText()
      requires Valid()
      modifies this`pending, this`chain, this`pushed, this`pid
      ensures Valid() && View() == Close(old(View()))
    {
      if pid.None? {
        return;
      }
      Push(TextEnd(pid.value));
      pid := None;
    }

    method Event(e: Input)
      requires Valid()
      modifies this`pending, this`chain, this`pushed, this`pid, this`parts
      ensures Valid() && View() == Take(old(View()), e)
    {
      hide Flat, Offered, Taken, AllTaken, Deltas, Small;
      match e
      case Thinking =>
      case Prose(text) =>
        if pid.None? {
          parts := parts + 1;
          pid := Some(parts);
          Push(TextStart(parts));
        }
        PushDeltas(text);
      case Happened(what) =>
        CloseText();
        Push(HostEvent(what));
    }

    method PushDeltas(text: string)
      requires Valid() && pid.Some?
      modifies this`pending, this`chain, this`pushed
      ensures Valid() && pushed == old(pushed) + Deltas(pid.value, text)
    {
      var i := 0;
      while i < |text|
        invariant Valid() && i >= 0
        invariant pushed + (if i <= |text| then Deltas(pid.value, text[i..]) else []) == old(pushed) + Deltas(pid.value, text)
        decreases |text| - i
      {
        var end := if i + DELTA_MAX <= |text| then i + DELTA_MAX else |text|;
        assert i + DELTA_MAX <= |text| ==> text[i..][DELTA_MAX..] == text[i + DELTA_MAX..];
        assert text[i..][..end - i] == text[i..end];
        assert end == |text| ==> text[i..end] == text[i..];
        Push(TextDelta(pid.value, text[i..end]));
        i := i + DELTA_MAX;
      }
    }

    /**
     * The next batch on the chain has its turn, in slices, unless slice number `failsAt` fails, its
     * events taken all the same if only the answer was lost. A batch is one slice, so it is taken whole
     * or not at all.
     */
    method RunChain(failsAt: Option<nat>, unheard: bool)
      requires Valid() && chain != []
      modifies this`chain, this`appended, this`failed, this`turns
      ensures Valid() && chain == old(chain)[1..]
      ensures turns == old(turns) + [Turn(old(chain)[0], failsAt != Some(0) || unheard)]
      ensures failed <==> old(failed) || failsAt == Some(0)
    {
      hide Flat, Offered, Taken;
      var batch := chain[0];
      FlatHead(chain);
      TurnNext(turns, Turn(batch, failsAt != Some(0) || unheard));
      turns := turns + [Turn(batch, failsAt != Some(0) || unheard)];
      chain := chain[1..];
      assert Offered(old(turns)) + (batch + Flat(chain)) + pending == Offered(turns) + Flat(chain) + pending;
      FlatNext(appended, batch);
      var i: nat := 0;
      while i < |batch|
        invariant chain == old(chain)[1..] && failed == old(failed) && turns == old(turns) + [Turn(batch, failsAt != Some(0) || unheard)]
        invariant appended == old(appended) + if i == 0 then [] else [batch]
        invariant i == 0 || (i >= |batch| && failsAt != Some(0))
        decreases |batch| - i
      {
        var end := if i + BATCH <= |batch| then i + BATCH else |batch|;
        assert batch[i..end] == batch;
        if failsAt == Some(i / BATCH) {
          failed := true;
          if unheard {
            appended := appended + [batch[i..end]];
          }
          return;
        }
        appended := appended + [batch[i..end]];
        i := i + BATCH;
      }
    }

    /** The terminal event, once; then everything buffered is on the chain. */
    method Finish(outcome: string)
      requires Valid()
      modifies this`pending, this`chain, this`pushed, this`pid, this`finished
      ensures Valid() && finished
      ensures if old(finished) then View() == old(View()) else View() == End(old(View()), outcome) && pending == []
    {
      if finished {
        return;
      }
      finished := true;
      CloseText();
      Push(TurnEnd(outcome));
      Flush();
    }

    /**
     * Once finished and drained, the stream is the batches that had their turn, and the thread holds
     * those it took, whole and in order: exactly the stream where no append failed.
     */
    lemma Recorded()
      requires Valid() && pending == [] && chain == []
      ensures Offered(turns) == pushed && Flat(appended) == Taken(turns) && Small(appended)
      ensures !failed ==> Flat(appended) == pushed
    {
      assert Offered(turns) + [] + [] == Offered(turns);
      if !failed {
        TakenWhole(turns);
      }
    }
  }
}
