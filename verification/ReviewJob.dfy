/**
 * One review's job: an alarm-driven retry over a create-only result store. The start and the alarm are
 * cut at every await that reads, writes or calls, so the daily sweep can remove the review, and the
 * object can die, between any two of them.
 */
module ReviewJob {
  import opened Wrappers

  const REVIEW_MAX_ATTEMPTS := 3
  const REVIEW_RETRY_DELAYS_MS := [60_000, 300_000]
  const REVIEW_WRITE_RETRY_MS := 60_000

  /** What a `put` does: store, store though the answer is lost, or neither. */
  datatype Write = Lands | LandsUnheard | Fails

  /** The store: the receipt intake left, and the result once one is written. */
  datatype Bucket = Bucket(receipt: bool, result: Option<string>)

  /** Create-only: a result already there is left alone, and that is no failure. */
  function PutNew(b: Bucket, result: string, w: Write): Bucket {
    if w.Fails? || b.result.Some? then b else b.(result := Some(result))
  }

  /** What the alarm in flight is waiting for; the last three are the fallback record's. */
  datatype Phase =
    | Idle
    | Starting                 // the job is stored, its first alarm not set
    | Rearming(ms: nat)        // the next attempt is stored, its alarm not set
    | ReadingReceipt | ReadingResult | Working | Calling | Writing(result: string)
    | FallbackReceipt | FallbackResult | FallbackWriting

  /** How a wait ends. Reads answer from the store, or fail. */
  datatype Answer =
    | Read | ReadFails
    | Settles(result: string)                   // finished without the model: skipped, or an archive missing or changed
    | Calls                                     // everything is ready, and the model is called
    | Breaks                                    // an unexpected throw
    | Answers(result: string)                   // the model answered, or its deadline passed
    | Refuses(transient: bool, result: string)  // the model call failed
    | Put(write: Write, fallback: string)
    | Stored

  /**
   * The object's storage, the bucket, the alarm in flight, and what has happened so far: `lost` counts
   * the alarms that left no record, `raced` the sweeps that took a result from under an alarm between
   * its two reads; `stranded` tells that the object died between a start's two writes.
   */
  datatype State = State(
    bucket: Bucket, job: Option<nat>, alarm: Option<nat>, phase: Phase, calls: nat, alarms: nat, lost: nat, raced: nat, stranded: bool)

  function Fresh(): State { State(Bucket(true, None), None, None, Idle, 0, 0, 0, 0, false) }

  function Forgotten(s: State): State { s.(job := None, alarm := None, phase := Idle) }

  /** No record could be left: the alarm is set again. */
  function Rearmed(s: State): State {
    s.(phase := Idle, alarm := Some(REVIEW_WRITE_RETRY_MS), lost := s.lost + if s.bucket.result.None? then 1 else 0)
  }

  function Retried(s: State, attempt: nat): State {
    s.(phase := Rearming(REVIEW_RETRY_DELAYS_MS[if attempt < 2 then attempt else 1]), job := Some(attempt + 1))
  }

  /** The alarm goes on from where it waits: `runReviewJob`, then `writeRunnerError` where it throws. */
  function Resume(s: State, a: Answer): State {
    match (s.phase, a)
    case (ReadingReceipt, Read) => if s.bucket.receipt then s.(phase := ReadingResult) else Forgotten(s)
    case (ReadingResult, Read) => if s.bucket.result.None? then s.(phase := Working) else Forgotten(s)
    case (Working, Settles(result)) => s.(phase := Writing(result))
    case (Working, Calls) => s.(phase := Calling, calls := s.calls + 1)
    case (Calling, Answers(result)) => s.(phase := Writing(result))
    case (Calling, Refuses(transient, result)) =>
      if transient && s.job.Some? && s.job.value + 1 < REVIEW_MAX_ATTEMPTS then Retried(s, s.job.value) else s.(phase := Writing(result))
    case (Writing(result), Put(write, _)) =>
      var t := s.(bucket := PutNew(s.bucket, result, write));
      if write.Lands? then Forgotten(t) else t.(phase := FallbackReceipt)
    case (ReadingReceipt, ReadFails) => s.(phase := FallbackReceipt)
    case (ReadingResult, ReadFails) => s.(phase := FallbackReceipt)
    case (Working, Breaks) => s.(phase := FallbackReceipt)
    case (Calling, Breaks) => s.(phase := FallbackReceipt)
    case (FallbackReceipt, Read) => if s.bucket.receipt then s.(phase := FallbackResult) else Forgotten(s)
    case (FallbackResult, Read) => if s.bucket.result.None? then s.(phase := FallbackWriting) else Forgotten(s)
    case (FallbackWriting, Put(write, fallback)) =>
      var t := s.(bucket := PutNew(s.bucket, fallback, write));
      if write.Lands? then Forgotten(t) else Rearmed(t)
    case (FallbackReceipt, ReadFails) => Rearmed(s)
    case (FallbackResult, ReadFails) => Rearmed(s)
    case (Starting, Stored) => s.(phase := Idle, alarm := Some(0))
    case (Rearming(ms), Stored) => s.(phase := Idle, alarm := Some(ms))
    case _ => s
  }

  datatype Event = Start | Fires(bound: bool) | Resumes(answer: Answer) | Pruned | Dies

  /** Alarms of one object never overlap. */
  predicate Due(s: State) { s.phase.Idle? && s.alarm.Some? }

  function Next(s: State, e: Event): State {
    match e
    case Start => if s.job.Some? then s else s.(job := Some(0), phase := Starting)
    case Fires(bound) =>
      if !Due(s) then s
      else if s.job.None? || !bound then Forgotten(s)
      else s.(phase := ReadingReceipt, alarm := None, alarms := s.alarms + 1)
    case Resumes(a) => Resume(s, a)
    case Pruned =>
      if !s.bucket.receipt then s
      else s.(bucket := Bucket(false, None), raced := s.raced + if s.phase.ReadingResult? && s.bucket.result.Some? then 1 else 0)
    // The platform fires the alarm of an object that died in it again; it does not call `start` again.
    case Dies =>
      match s.phase
      case Idle => s
      case Starting => s.(phase := Idle, stranded := true)
      case Rearming(_) => s.(phase := Idle, alarm := Some(0))
      case _ => s.(phase := Idle, alarm := Some(0), lost := s.lost + if s.bucket.result.None? then 1 else 0)
  }

  predicate Bound(e: Event) { e.Fires? ==> e.bound }

  function After(s: State, es: seq<Event>): State {
    if es == [] then s else Next(After(s, es[..|es| - 1]), es[|es| - 1])
  }

  // ----- the invariant

  /** The alarm in flight has not called the model yet, and might. */
  ghost predicate MayCall(s: State) {
    match s.phase
    case Idle => s.bucket.receipt
    case Starting => s.bucket.receipt
    case Rearming(_) => s.bucket.receipt
    case ReadingReceipt => s.bucket.receipt
    case ReadingResult => true
    case Working => true
    case _ => false
  }

  /** An alarm is under way that has neither failed nor been retried yet. */
  predicate InFlight(s: State) { !s.phase.Idle? && !s.phase.Starting? && !s.phase.Rearming? }

  predicate Open(s: State) { s.bucket.receipt && s.bucket.result.None? }

  /** Attempts and lost alarms account for every call, and for every alarm while the review is open. */
  ghost predicate Inv(s: State) {
    && (s.job.Some? ==> s.job.value < REVIEW_MAX_ATTEMPTS && (s.phase.Idle? ==> (s.alarm.Some? <==> !s.stranded)))
    && (s.stranded ==> s.phase.Idle? && s.job.Some?) && (s.phase.Starting? || s.job.None? ==> s.alarm.None?)
    && (s.phase.Idle? || s.job.Some?)
    && (s.phase.Working? || s.phase.Calling? || s.phase.Writing? || s.phase.FallbackWriting? ==> s.bucket.result.None?)
    && s.calls <= REVIEW_MAX_ATTEMPTS + s.lost + s.raced
    && (s.job.Some? && Open(s) ==> s.calls <= s.job.value + s.lost + 1)
    && (s.job.Some? && MayCall(s) && s.bucket.result.None? ==> s.calls <= s.lost + if s.raced == 0 then s.job.value else REVIEW_MAX_ATTEMPTS)
    && (s.bucket.receipt ==> s.raced == 0) && s.raced <= 1
    && (Open(s) ==> if s.job.Some? then s.alarms == s.job.value + s.lost + (if InFlight(s) then 1 else 0)
                    else s.calls == s.alarms == s.lost == 0)
  }

  lemma JobKeeps(s: State, a: Answer)
    requires Inv(s) && (s.phase.ReadingReceipt? || s.phase.ReadingResult? || s.phase.Working? || s.phase.Calling?)
    ensures Inv(Resume(s, a))
  {
  }

  lemma WriteKeeps(s: State, a: Answer)
    requires Inv(s) && !(s.phase.ReadingReceipt? || s.phase.ReadingResult? || s.phase.Working? || s.phase.Calling?)
    ensures Inv(Resume(s, a))
  {
  }

  lemma StepKeeps(s: State, e: Event)
    requires Inv(s) && Bound(e)
    ensures Inv(Next(s, e))
  {
    hide Resume;
    if e.Resumes? {
      if s.phase.ReadingReceipt? || s.phase.ReadingResult? || s.phase.Working? || s.phase.Calling? {
        JobKeeps(s, e.answer);
      } else {
        WriteKeeps(s, e.answer);
      }
    }
  }

  lemma {:induction false} RunKeeps(es: seq<Event>)
    requires forall i | 0 <= i < |es| :: Bound(es[i])
    ensures Inv(After(Fresh(), es))
  {
    if es != [] {
      RunKeeps(es[..|es| - 1]);
      StepKeeps(After(Fresh(), es[..|es| - 1]), es[|es| - 1]);
    }
  }

  lemma {:induction false} AfterJoined(s: State, es: seq<Event>, fs: seq<Event>)
    ensures After(s, es + fs) == After(After(s, es), fs)
  {
    if fs == [] {
      assert es + fs == es;
    } else {
      AfterJoined(s, es, fs[..|fs| - 1]);
      assert (es + fs)[..|es + fs| - 1] == es + fs[..|fs| - 1];
    }
  }

  /**
   * Over every run with the bucket bound, sweeps and deaths wherever they fall: model calls number at
   * most three, plus the alarms that left no record, plus one if a sweep took the result from between
   * an alarm's two reads; the job is gone only where it never began, a result stands, or the receipt
   * is gone; while it is there and nothing is under way an alarm is set, unless its start died between
   * its two writes; and a review still open has lost every alarm beyond two and the one in flight.
   */
  lemma JobRuns(es: seq<Event>)
    requires forall i | 0 <= i < |es| :: Bound(es[i])
    ensures var s := After(Fresh(), es);
            && s.calls <= REVIEW_MAX_ATTEMPTS + s.lost + s.raced && s.raced <= 1 && (s.bucket.receipt ==> s.raced == 0)
            && (s.job.None? ==> s.alarms == 0 || !Open(s))
            && (s.job.Some? && s.phase.Idle? ==> (s.alarm.Some? <==> !s.stranded))
            && (Open(s) ==> s.alarms <= s.lost + 2 + if InFlight(s) then 1 else 0)
  {
    RunKeeps(es);
  }

  // ----- the store is create-only

  lemma ResultStays(s: State, e: Event)
    requires Inv(s) && s.bucket.result.Some? && e != Pruned
    ensures Next(s, e).bucket == s.bucket && Next(s, e).calls == s.calls
  {
  }

  /** A stored result is that result, and the model is not asked again, until the review is pruned. */
  lemma {:induction false} ResultFinal(s: State, es: seq<Event>)
    requires Inv(s) && s.bucket.result.Some? && Pruned !in es && forall i | 0 <= i < |es| :: Bound(es[i])
    ensures Inv(After(s, es)) && After(s, es).bucket == s.bucket && After(s, es).calls == s.calls
  {
    if es != [] {
      hide Next, Inv;
      ResultFinal(s, es[..|es| - 1]);
      ResultStays(After(s, es[..|es| - 1]), es[|es| - 1]);
      StepKeeps(After(s, es[..|es| - 1]), es[|es| - 1]);
    }
  }

  /** Whatever a run had stored at some point, any later point of it still holds. */
  lemma NeverReplaced(es: seq<Event>, fs: seq<Event>)
    requires (forall i | 0 <= i < |es| :: Bound(es[i])) && (forall i | 0 <= i < |fs| :: Bound(fs[i]))
    requires After(Fresh(), es).bucket.result.Some? && Pruned !in fs
    ensures After(Fresh(), es + fs).bucket.result == After(Fresh(), es).bucket.result
    ensures After(Fresh(), es + fs).calls == After(Fresh(), es).calls
  {
    AfterJoined(Fresh(), es, fs);
    RunKeeps(es);
    ResultFinal(After(Fresh(), es), fs);
  }

  // ----- after the sweep

  /** Nothing is written, and the model is not called, before the receipt is read, or read again. */
  predicate Quiet(s: State) { !InFlight(s) || s.phase.ReadingReceipt? || s.phase.FallbackReceipt? }

  /** Once the receipt is gone, what an alarm that has not read it yet finds stays as it is, and the model is not called. */
  lemma {:induction false} PrunedFinal(s: State, es: seq<Event>)
    requires !s.bucket.receipt && Quiet(s)
    ensures var t := After(s, es); Quiet(t) && t.bucket == s.bucket && t.calls == s.calls
  {
    if es != [] {
      PrunedFinal(s, es[..|es| - 1]);
    }
  }

  /** How far the alarm in flight can still go once the receipt is gone: one call while it may, one record while none stands. */
  ghost predicate Winding(s: State, t: State) {
    && !t.bucket.receipt && t.calls <= s.calls + (if s.phase.ReadingResult? || s.phase.Working? then 1 else 0)
    && (s.bucket.result.Some? ==> t.bucket == s.bucket)
    && (t.phase.ReadingResult? || t.phase.Working? ==> t.calls == s.calls && (s.phase.ReadingResult? || s.phase.Working?))
    && (t.phase.ReadingResult? ==> t.bucket == s.bucket)
  }

  lemma WindsOn(s: State, t: State, e: Event)
    requires !s.bucket.receipt && Winding(s, t)
    ensures Winding(s, Next(t, e))
  {
  }

  /** At most the alarm in flight when the review is pruned goes on: one more model call, and one record left. */
  lemma {:induction false} PrunedInFlight(s: State, es: seq<Event>)
    requires !s.bucket.receipt
    ensures Winding(s, After(s, es))
  {
    if es != [] {
      hide Next, Winding;
      PrunedInFlight(s, es[..|es| - 1]);
      WindsOn(s, After(s, es[..|es| - 1]), es[|es| - 1]);
    }
  }

  /** Once that alarm is over nothing changes any more. */
  lemma OneRecordAtMost(s: State, es: seq<Event>, fs: seq<Event>)
    requires !s.bucket.receipt && Quiet(After(s, es))
    ensures After(s, es + fs).bucket == After(s, es).bucket && After(s, es + fs).calls == After(s, es).calls
    ensures After(s, es).calls <= s.calls + 1
  {
    AfterJoined(s, es, fs);
    PrunedInFlight(s, es);
    PrunedFinal(After(s, es), fs);
  }

  lemma AfterNext(s: State, es: seq<Event>, e: Event)
    ensures After(s, es + [e]) == Next(After(s, es), e) && After(s, []) == s
  {
    hide Next;
    assert (es + [e])[..|es|] == es;
  }

  lemma FewSteps(s: State, d: Event, e: Event, f: Event)
    ensures After(s, [d]) == Next(s, d) && After(s, [d, e]) == Next(Next(s, d), e)
    ensures After(s, [d, e, f]) == Next(Next(Next(s, d), e), f)
  {
    hide Next;
    AfterNext(s, [], d);
    AfterNext(s, [d], e);
    AfterNext(s, [d, e], f);
    assert [] + [d] == [d] && [d] + [e] == [d, e] && [d, e] + [f] == [d, e, f];
  }

  // ----- exactly which alarms outlive the sweep

  /** The next step of an alarm on its way to leaving a record, and how many it is short of that. */
  function Toward(s: State): Answer {
    match s.phase
    case Working => Settles("r")
    case Calling => Answers("r")
    case Writing(_) => Put(Lands, "r")
    case FallbackWriting => Put(Lands, "r")
    case _ => Read
  }

  function Short(s: State): nat {
    match s.phase
    case ReadingResult => 3
    case Working => 2
    case Calling => 2
    case FallbackResult => 2
    case _ => 1
  }

  lemma OneStep(s: State, e: Event, es: seq<Event>)
    ensures After(s, [e] + es) == After(Next(s, e), es)
  {
    hide Next;
    AfterJoined(s, [e], es);
    assert [e][..0] == [];
  }

  lemma {:induction false} LeavesRecord(s: State) returns (es: seq<Event>)
    requires !Quiet(s) && s.bucket.result.None?
    ensures After(s, es).bucket.result.Some?
    decreases Short(s)
  {
    var e := Resumes(Toward(s));
    var t := Next(s, e);
    if t.bucket.result.Some? {
      OneStep(s, e, []);
      es := [e] + [];
    } else {
      var more := LeavesRecord(t);
      OneStep(s, e, more);
      es := [e] + more;
    }
  }

  lemma {:induction false} SettledFinal(s: State, es: seq<Event>)
    requires !s.bucket.receipt && s.bucket.result.Some?
    ensures After(s, es).bucket == s.bucket
  {
    if es != [] {
      SettledFinal(s, es[..|es| - 1]);
    }
  }

  /** The alarm may still call the model once the receipt is gone. */
  predicate StillCalls(s: State) { s.phase.Working? || (s.phase.ReadingResult? && s.bucket.result.None?) }

  lemma CallsNoMoreStep(s: State, e: Event)
    requires !s.bucket.receipt && !StillCalls(s)
    ensures var t := Next(s, e); t.calls == s.calls && !t.bucket.receipt && !StillCalls(t)
  {
  }

  lemma {:induction false} CallsNoMore(s: State, es: seq<Event>)
    requires !s.bucket.receipt && !StillCalls(s)
    ensures var t := After(s, es); t.calls == s.calls && !t.bucket.receipt && !StillCalls(t)
  {
    if es != [] {
      hide Next;
      CallsNoMore(s, es[..|es| - 1]);
      CallsNoMoreStep(After(s, es[..|es| - 1]), es[|es| - 1]);
    }
  }

  ghost function CallsFrom(s: State): seq<Event> {
    if s.phase.Working? then [Resumes(Calls)] else [Resumes(Read), Resumes(Calls)]
  }

  lemma CallsOnce(s: State)
    requires StillCalls(s)
    ensures After(s, CallsFrom(s)).calls == s.calls + 1
  {
    FewSteps(s, Resumes(Read), Resumes(Calls), Start);
    FewSteps(s, Resumes(Calls), Start, Start);
  }

  /**
   * A review without a receipt keeps what it holds, whatever comes, exactly when it holds a result
   * already or no alarm goes on without reading the receipt; and the model is not called again exactly when no alarm
   * waits between the receipt and the call.
   */
  lemma PrunedExactly(s: State)
    requires !s.bucket.receipt
    ensures (forall es :: After(s, es).bucket == s.bucket) <==> Quiet(s) || s.bucket.result.Some?
    ensures (forall es :: After(s, es).calls == s.calls) <==> !StillCalls(s)
  {
    if Quiet(s) {
      forall es ensures After(s, es).bucket == s.bucket { PrunedFinal(s, es); }
    } else if s.bucket.result.Some? {
      forall es ensures After(s, es).bucket == s.bucket { SettledFinal(s, es); }
    } else {
      var es := LeavesRecord(s);
      assert After(s, es).bucket != s.bucket;
    }
    if StillCalls(s) {
      CallsOnce(s);
      assert After(s, CallsFrom(s)).calls != s.calls;
    } else {
      forall es ensures After(s, es).calls == s.calls { CallsNoMore(s, es); }
    }
  }

  /**
   * So a sweep leaves nothing behind, ever, exactly when it finds no alarm that goes on without reading
   * the receipt; and costs no call exactly when none is between that read and the model.
   */
  lemma SweepExactly(s: State)
    requires s.bucket.receipt
    ensures var t := Next(s, Pruned);
            && ((forall es :: After(t, es).bucket == Bucket(false, None)) <==> Quiet(s))
            && ((forall es :: After(t, es).calls == s.calls) <==> !s.phase.ReadingResult? && !s.phase.Working?)
  {
    hide After;
    PrunedExactly(Next(s, Pruned));
  }

  // ----- a start that dies

  /** A job whose start died between its two writes never runs: it is held for good, and no later start or alarm moves it. */
  lemma {:induction false} StrandedForGood(s: State, es: seq<Event>)
    requires Inv(s) && s.stranded
    ensures var t := After(s, es); t == s.(bucket := t.bucket) && (t.bucket == s.bucket || t.bucket == Bucket(false, None))
  {
    if es != [] {
      StrandedForGood(s, es[..|es| - 1]);
    }
  }

  /** It takes no more than that death. */
  lemma StrandedHappens()
    ensures var s := After(Fresh(), [Start, Dies]); Open(s) && s.job == Some(0) && s.stranded && s.alarm.None?
  {
    FewSteps(Fresh(), Start, Dies, Dies);
  }

  // ----- runs in which the sweep falls inside an alarm

  const CALLED: seq<Event> := [Start, Resumes(Stored), Fires(true)] + [Resumes(Read), Resumes(Read), Resumes(Calls)]
  const LEFT_BEHIND: seq<Event> := CALLED + [Pruned, Resumes(Answers("r")), Resumes(Put(Lands, ""))]

  /** A review pruned while the model is being called is left a record nothing will sweep. */
  lemma RecordLeftBehind()
    ensures var s := After(Fresh(), LEFT_BEHIND); s.bucket == Bucket(false, Some("r")) && s.job.None?
  {
    hide After;
    FewSteps(Fresh(), Start, Resumes(Stored), Fires(true));
    var s := After(Fresh(), [Start, Resumes(Stored), Fires(true)]);
    FewSteps(s, Resumes(Read), Resumes(Read), Resumes(Calls));
    AfterJoined(Fresh(), [Start, Resumes(Stored), Fires(true)], [Resumes(Read), Resumes(Read), Resumes(Calls)]);
    FewSteps(After(Fresh(), CALLED), Pruned, Resumes(Answers("r")), Resumes(Put(Lands, "")));
    AfterJoined(Fresh(), CALLED, [Pruned, Resumes(Answers("r")), Resumes(Put(Lands, ""))]);
  }

  /** Two refused attempts, a third whose write lands unheard, then a sweep between the next alarm's two reads. */
  const BEGUN: seq<Event> := [Start, Resumes(Stored)]
  const READS: seq<Event> := [Fires(true), Resumes(Read), Resumes(Read)]
  const TRY: seq<Event> := READS + [Resumes(Calls), Resumes(Refuses(true, "r")), Resumes(Stored)]
  const UNHEARD: seq<Event> := READS + [Resumes(Calls), Resumes(Answers("r")), Resumes(Put(LandsUnheard, ""))] + [Resumes(ReadFails)]
  const CAUGHT: seq<Event> := [Fires(true), Resumes(Read), Pruned] + [Resumes(Read), Resumes(Calls)]

  lemma ReadsOn(s: State)
    requires Open(s) && Due(s) && s.job.Some?
    ensures After(s, READS) == s.(phase := Working, alarm := None, alarms := s.alarms + 1)
  {
    FewSteps(s, Fires(true), Resumes(Read), Resumes(Read));
  }

  lemma TryAgain(s: State)
    requires Open(s) && Due(s) && s.job.Some? && s.job.value < 2
    ensures var t := After(s, TRY); Open(t) && Due(t) && t.job == Some(s.job.value + 1) && t.calls == s.calls + 1 && t.lost == s.lost && t.raced == s.raced
  {
    hide After;
    ReadsOn(s);
    FewSteps(After(s, READS), Resumes(Calls), Resumes(Refuses(true, "r")), Resumes(Stored));
    AfterJoined(s, READS, [Resumes(Calls), Resumes(Refuses(true, "r")), Resumes(Stored)]);
  }

  lemma LandUnheard(s: State)
    requires Open(s) && Due(s) && s.job.Some?
    ensures var t := After(s, UNHEARD); t.bucket == Bucket(true, Some("r")) && Due(t) && t.job == s.job && t.calls == s.calls + 1 && t.lost == s.lost && t.raced == s.raced
  {
    hide After;
    var write := [Resumes(Calls), Resumes(Answers("r")), Resumes(Put(LandsUnheard, ""))];
    ReadsOn(s);
    FewSteps(After(s, READS), Resumes(Calls), Resumes(Answers("r")), Resumes(Put(LandsUnheard, "")));
    AfterJoined(s, READS, write);
    FewSteps(After(s, READS + write), Resumes(ReadFails), Start, Start);
    AfterJoined(s, READS + write, [Resumes(ReadFails)]);
  }

  lemma CaughtBetween(s: State)
    requires s.bucket.receipt && s.bucket.result.Some? && Due(s) && s.job.Some?
    ensures var t := After(s, CAUGHT); t.calls == s.calls + 1 && t.lost == s.lost && t.raced == s.raced + 1
  {
    hide After;
    FewSteps(s, Fires(true), Resumes(Read), Pruned);
    FewSteps(After(s, [Fires(true), Resumes(Read), Pruned]), Resumes(Read), Resumes(Calls), Start);
    AfterJoined(s, [Fires(true), Resumes(Read), Pruned], [Resumes(Read), Resumes(Calls)]);
  }

  /** The sweep's one call is real: a run of four model calls in which no alarm was lost. */
  lemma FourthCall()
    ensures var s := After(Fresh(), BEGUN + TRY + TRY + UNHEARD + CAUGHT); s.calls == 4 && s.lost == 0 && s.raced == 1
  {
    hide After, TRY, UNHEARD, CAUGHT;
    FewSteps(Fresh(), Start, Resumes(Stored), Start);
    var s := After(Fresh(), BEGUN);
    var t := After(s, TRY);
    TryAgain(s);
    AfterJoined(Fresh(), BEGUN, TRY);
    var u := After(t, TRY);
    TryAgain(t);
    AfterJoined(Fresh(), BEGUN + TRY, TRY);
    LandUnheard(u);
    AfterJoined(Fresh(), BEGUN + TRY + TRY, UNHEARD);
    CaughtBetween(After(u, UNHEARD));
    AfterJoined(Fresh(), BEGUN + TRY + TRY + UNHEARD, CAUGHT);
  }

  // ----- attempts and refusals

  /** The model refuses for a reason that may pass. */
  predicate MayPass(s: State, e: Event) { s.phase.Calling? && e.Resumes? && e.answer.Refuses? && e.answer.transient }

  /** How often it has since the job now held was begun. */
  ghost function Refusals(es: seq<Event>): nat {
    if es == [] then 0
    else
      var s := After(Fresh(), es[..|es| - 1]);
      if s.job.None? then 0 else Refusals(es[..|es| - 1]) + if MayPass(s, es[|es| - 1]) then 1 else 0
  }

  lemma AttemptStep(s: State, e: Event, refusals: nat)
    requires s.job.Some? ==> s.job.value == if refusals < 2 then refusals else 2
    ensures var n, t := if s.job.None? then 0 else refusals + (if MayPass(s, e) then 1 else 0), Next(s, e);
            t.job.Some? ==> t.job.value == if n < 2 then n else 2
  {
  }

  /** Over every run, a held job's attempt is the number of refusals that may pass, up to the last attempt there is. */
  lemma {:induction false} AttemptsAreRefusals(es: seq<Event>)
    ensures var s := After(Fresh(), es); s.job.Some? ==> s.job.value == if Refusals(es) < 2 then Refusals(es) else 2
  {
    if es != [] {
      hide Next;
      AttemptsAreRefusals(es[..|es| - 1]);
      AttemptStep(After(Fresh(), es[..|es| - 1]), es[|es| - 1], Refusals(es[..|es| - 1]));
    }
  }

  /** A refusal is retried exactly when it may pass and an attempt is left: after a minute, then after five. */
  lemma RetriesExactly(s: State, transient: bool, result: string)
    requires s.phase.Calling? && s.job.Some?
    ensures var t := After(s, [Resumes(Refuses(transient, result)), Resumes(Stored)]);
            && (t.job == Some(s.job.value + 1) && t.phase.Idle? && t.bucket == s.bucket <==> transient && s.job.value < 2)
            && (transient && s.job.value < 2 ==> t.alarm == Some(if s.job.value == 0 then 60_000 else 300_000))
  {
    hide After;
    FewSteps(s, Resumes(Refuses(transient, result)), Resumes(Stored), Start);
  }

  predicate IsPut(e: Event) { e.Resumes? && e.answer.Put? }

  /** With a record in hand, only its write or a death moves the alarm on. */
  lemma {:induction false} HeldUntilTried(s: State, es: seq<Event>)
    requires s.phase.Writing? && s.job.Some? && Dies !in es && forall i | 0 <= i < |es| :: !IsPut(es[i])
    ensures var t := After(s, es); t.phase == s.phase && t.calls == s.calls && t.job == s.job
  {
    if es != [] {
      HeldUntilTried(s, es[..|es| - 1]);
    }
  }

  /**
   * After a refusal that will not pass, or the last one there is, no model call comes before a record
   * is tried, and the record tried is the refusal's own.
   */
  lemma RefusalRecorded(s: State, transient: bool, result: string, es: seq<Event>, fallback: string)
    requires s.phase.Calling? && s.job.Some? && s.bucket.result.None? && (!transient || s.job.value >= 2)
    requires Dies !in es && forall i | 0 <= i < |es| :: !IsPut(es[i])
    ensures var t := After(Next(s, Resumes(Refuses(transient, result))), es);
            && t.phase == Writing(result) && t.calls == s.calls
            && (t.bucket.result.None? ==> Next(t, Resumes(Put(Lands, fallback))) == Forgotten(t.(bucket := t.bucket.(result := Some(result)))))
  {
    hide After;
    HeldUntilTried(Next(s, Resumes(Refuses(transient, result))), es);
  }

  /** What a finished course hands over is what is written, whichever course it is; a fallback's own record is its own. */
  lemma RecordIsItsOwn(s: State, result: string, other: string)
    requires s.bucket.result.None?
    ensures s.phase.Working? ==> After(s, [Resumes(Settles(result)), Resumes(Put(Lands, other))]).bucket.result == Some(result)
    ensures s.phase.Calling? ==> After(s, [Resumes(Answers(result)), Resumes(Put(Lands, other))]).bucket.result == Some(result)
    ensures s.phase.FallbackWriting? ==> After(s, [Resumes(Put(Lands, other))]).bucket.result == Some(other)
  {
    hide After, Next;
    if s.phase.Working? {
      HandedOver(s, Settles(result), result, other);
    } else if s.phase.Calling? {
      HandedOver(s, Answers(result), result, other);
    } else if s.phase.FallbackWriting? {
      FewSteps(s, Resumes(Put(Lands, other)), Start, Start);
      FallbackLands(s, other);
    }
  }

  lemma HandedOver(s: State, a: Answer, result: string, other: string)
    requires s.bucket.result.None? && ((s.phase.Working? && a == Settles(result)) || (s.phase.Calling? && a == Answers(result)))
    ensures After(s, [Resumes(a), Resumes(Put(Lands, other))]).bucket.result == Some(result)
  {
    hide After;
    FewSteps(s, Resumes(a), Resumes(Put(Lands, other)), Start);
    assert Next(s, Resumes(a)) == s.(phase := Writing(result));
  }

  lemma FallbackLands(s: State, other: string)
    requires s.bucket.result.None? && s.phase.FallbackWriting?
    ensures Next(s, Resumes(Put(Lands, other))).bucket.result == Some(other)
  {
  }

  /** A fallback whose write fails is tried again in a minute, as the fallback's unless one stands by then. */
  lemma TriedAgain(s: State, write: Write, fallback: string)
    requires s.phase.FallbackWriting? && !write.Lands?
    ensures var t := Next(s, Resumes(Put(write, fallback)));
            && t.phase.Idle? && t.alarm == Some(60_000) && t.job == s.job
            && (s.bucket.result.None? ==> t.bucket.result == if write.LandsUnheard? then Some(fallback) else None)
  {
  }

  // ----- forgetting

  /** A step forgets the job of a review left open exactly when it is an alarm that finds the bucket unbound. */
  lemma ForgetsExactly(s: State, e: Event)
    requires Inv(s) && s.job.Some?
    ensures Next(s, e).job.None? && Open(Next(s, e)) <==> e == Fires(false) && Due(s) && Open(s)
  {
  }

  // ----- the object

  class ReviewJobDO {
    var bucket: Bucket
    var job: Option<nat>
    var alarm: Option<nat>
    var phase: Phase
    var calls: nat
    var alarms: nat
    var lost: nat
    var raced: nat
    var stranded: bool

    ghost function View(): State reads this { State(bucket, job, alarm, phase, calls, alarms, lost, raced, stranded) }

    constructor ()
      ensures View() == Fresh() && Inv(View())
    {
      bucket, job, alarm, phase := Bucket(true, None), None, None, Idle;
      calls, alarms, lost, raced, stranded := 0, 0, 0, 0, false;
    }

    /** `start` up to its second write. */
    method Begin()
      requires Inv(View())
      modifies this
      ensures View() == Next(old(View()), Start) && Inv(View())
    {
      StepKeeps(View(), Start);
      if job.Some? {
        return;
      }
      job, phase := Some(0), Starting;
    }

    /** The write that sets the alarm, of a start or of a retry. */
    method SetAlarm()
      requires Inv(View()) && (phase.Starting? || phase.Rearming?)
      modifies this
      ensures View() == Next(old(View()), Resumes(Stored)) && Inv(View())
    {
      StepKeeps(View(), Resumes(Stored));
      alarm := Some(if phase.Starting? then 0 else phase.ms);
      phase := Idle;
    }

    method DeleteAll()
      modifies this`job, this`alarm, this`phase
      ensures View() == Forgotten(old(View()))
    {
      job, alarm, phase := None, None, Idle;
    }

    /** The alarm up to its first await. */
    method OnAlarm(bound: bool)
      requires Inv(View()) && Due(View())
      modifies this
      ensures View() == Next(old(View()), Fires(bound)) && (bound ==> Inv(View()))
    {
      if bound { StepKeeps(View(), Fires(bound)); }
      if job.None? || !bound {
        DeleteAll();
        return;
      }
      phase, alarm, alarms := ReadingReceipt, None, alarms + 1;
    }

    /** `runReviewJob` from one await to the next, up to its result's write. */
    method OnJob(a: Answer)
      requires Inv(View()) && (phase.ReadingReceipt? || phase.ReadingResult? || phase.Working? || phase.Calling?)
      modifies this
      ensures View() == Next(old(View()), Resumes(a)) && Inv(View())
    {
      StepKeeps(View(), Resumes(a));
      if (phase.ReadingReceipt? || phase.ReadingResult?) && a.Read? {
        if if phase.ReadingReceipt? then !bucket.receipt else bucket.result.Some? {
          DeleteAll();
          return;
        }
        phase := if phase.ReadingReceipt? then ReadingResult else Working;
      } else if (phase.ReadingReceipt? || phase.ReadingResult?) && a.ReadFails? {
        phase := FallbackReceipt;
      } else if (phase.Working? || phase.Calling?) && a.Breaks? {
        phase := FallbackReceipt;
      } else if phase.Working? && a.Settles? {
        phase := Writing(a.result);
      } else if phase.Working? && a.Calls? {
        phase, calls := Calling, calls + 1;
      } else if phase.Calling? && a.Answers? {
        phase := Writing(a.result);
      } else if phase.Calling? && a.Refuses? {
        if a.transient && job.value + 1 < REVIEW_MAX_ATTEMPTS {
          phase := Rearming(REVIEW_RETRY_DELAYS_MS[if job.value < 2 then job.value else 1]);
          job := Some(job.value + 1);
        } else {
          phase := Writing(a.result);
        }
      }
    }

    /** The writes, and `writeRunnerError` from one await to the next. */
    method OnWrite(a: Answer)
      requires Inv(View()) && (phase.Writing? || phase.FallbackReceipt? || phase.FallbackResult? || phase.FallbackWriting?)
      modifies this
      ensures View() == Next(old(View()), Resumes(a)) && Inv(View())
    {
      StepKeeps(View(), Resumes(a));
      if phase.Writing? && a.Put? {
        bucket := PutNew(bucket, phase.result, a.write);
        if a.write.Lands? {
          DeleteAll();
        } else {
          phase := FallbackReceipt;
        }
      } else if phase.FallbackWriting? && a.Put? {
        bucket := PutNew(bucket, a.fallback, a.write);
        if a.write.Lands? {
          DeleteAll();
        } else {
          Rearm();
        }
      } else if (phase.FallbackReceipt? || phase.FallbackResult?) && a.ReadFails? {
        Rearm();
      } else if phase.FallbackReceipt? && a.Read? {
        if !bucket.receipt {
          DeleteAll();
        } else {
          phase := FallbackResult;
        }
      } else if phase.FallbackResult? && a.Read? {
        if bucket.result.Some? {
          DeleteAll();
        } else {
          phase := FallbackWriting;
        }
      }
    }

    method Rearm()
      modifies this`phase, this`alarm, this`lost
      ensures View() == Rearmed(old(View()))
    {
      phase, alarm := Idle, Some(REVIEW_WRITE_RETRY_MS);
      if bucket.result.None? {
        lost := lost + 1;
      }
    }
  }
}
