/**
 * A first-come queue for each key, made of chained promises, in which waiting is bounded.
 * Each event below is one run-to-completion step of `BuildQueue.run`; between them anything may
 * interleave, and `blocked()` answers whatever it likes.
 */
module BuildQueue {
  import opened Wrappers

  const BUILD_WAIT_MS := 120_000
  const BUILD_POLL_MS := 1_000

  /**
   * `Waiting` on the builds before it, `Clear` of them and about to ask `blocked()`, `Sleeping`
   * until its next look, inside `fn`, or over (having run, or having given up).
   */
  datatype Phase = Waiting | Clear | Sleeping(wake: nat) | Running | Ended(ran: bool)

  /** One call of `run`: `prev` is the build whose tail it chained on, if any was remembered. */
  datatype Build = Build(key: string, arrived: nat, prev: Option<nat>, phase: Phase)

  type Builds = seq<Build>

  datatype State = State(
    waitMs: nat, pollMs: nat, now: nat, builds: Builds, tails: map<string, nat>, building: set<string>, starts: seq<nat>)

  datatype Event =
    | Arrive(key: string)
    | PrevSettled(i: nat)
    | Expire(i: nat)
    | Look(i: nat, blocked: bool)
    | End(i: nat)
    | Forget(i: nat)
    | Tick(ms: nat)

  function Empty(waitMs: nat, pollMs: nat): State { State(waitMs, pollMs, 0, [], map[], {}, []) }

  /** Build `i`'s tail has settled: it and every build it is chained behind are over. */
  predicate Settled(bs: Builds, i: nat) {
    && i < |bs| && bs[i].phase.Ended?
    && (bs[i].prev.None? || (bs[i].prev.value < i && Settled(bs, bs[i].prev.value)))
  }

  predicate PrevDone(bs: Builds, i: nat)
    requires i < |bs|
  {
    bs[i].prev.None? || Settled(bs, bs[i].prev.value)
  }

  predicate Enabled(s: State, e: Event) {
    match e
    case Arrive(_) => true
    case PrevSettled(i) => i < |s.builds| && s.builds[i].phase.Waiting? && PrevDone(s.builds, i)
    case Expire(i) => i < |s.builds| && s.builds[i].phase.Waiting? && s.now >= s.builds[i].arrived + s.waitMs
    case Look(i, _) =>
      i < |s.builds| && (s.builds[i].phase.Clear? || (s.builds[i].phase.Sleeping? && s.builds[i].phase.wake <= s.now))
    case End(i) => i < |s.builds| && s.builds[i].phase.Running?
    case Forget(i) => Settled(s.builds, i)
    case Tick(_) => true
  }

  function Put(bs: Builds, i: nat, phase: Phase): Builds
    requires i < |bs|
  {
    bs[i := bs[i].(phase := phase)]
  }

  function Next(s: State, e: Event): State
    requires Enabled(s, e)
  {
    match e
    case Arrive(key) =>
      var prev := if key in s.tails then Some(s.tails[key]) else None;
      s.(builds := s.builds + [Build(key, s.now, prev, Waiting)], tails := s.tails[key := |s.builds|])
    case PrevSettled(i) => s.(builds := Put(s.builds, i, Clear))
    case Expire(i) => s.(builds := Put(s.builds, i, Ended(false)))
    case Look(i, blocked) =>
      if !blocked then
        s.(builds := Put(s.builds, i, Running), building := s.building + {s.builds[i].key}, starts := s.starts + [i])
      else if s.now >= s.builds[i].arrived + s.waitMs then s.(builds := Put(s.builds, i, Ended(false)))
      else s.(builds := Put(s.builds, i, Sleeping(s.now + s.pollMs)))
    case End(i) => s.(builds := Put(s.builds, i, Ended(true)), building := s.building - {s.builds[i].key})
    case Forget(i) =>
      var key := s.builds[i].key;
      if key in s.tails && s.tails[key] == i then s.(tails := s.tails - {key}) else s
    case Tick(ms) => s.(now := s.now + ms)
  }

  // ----- the invariant

  ghost predicate SameKey(bs: Builds, i: nat, j: nat) { i < |bs| && j < |bs| && bs[i].key == bs[j].key }

  /** Every build of `i`'s key that came before it is over. */
  ghost predicate FirstInLine(bs: Builds, i: nat) {
    forall j: nat | j < i && SameKey(bs, i, j) :: bs[j].phase.Ended?
  }

  ghost predicate KeyOver(bs: Builds, key: string) {
    forall j: nat | j < |bs| && bs[j].key == key :: bs[j].phase.Ended?
  }

  /** A build is chained on the latest earlier build of its key, or all of those were over. */
  ghost predicate Chained(bs: Builds, i: nat)
    requires i < |bs|
  {
    match bs[i].prev
    case None => FirstInLine(bs, i)
    case Some(p) => p < i && SameKey(bs, i, p) && forall j: nat | p < j < i :: !SameKey(bs, i, j)
  }

  /** Past its wait: cleared, looking, running, or having run. */
  predicate Past(p: Phase) { p.Clear? || p.Sleeping? || p.Running? || p == Ended(true) }

  ghost predicate Line(bs: Builds) {
    forall i: nat | i < |bs| :: Chained(bs, i) && (Past(bs[i].phase) ==> FirstInLine(bs, i))
  }

  ghost predicate Latest(bs: Builds, key: string, i: nat) {
    i < |bs| && bs[i].key == key && forall j: nat | i < j < |bs| :: bs[j].key != key
  }

  ghost predicate TailsLatest(bs: Builds, tails: map<string, nat>) {
    && (forall key | key in tails :: Latest(bs, key, tails[key]))
    && (forall key | key !in tails :: KeyOver(bs, key))
  }

  ghost predicate Runs(bs: Builds, key: string, i: nat) { i < |bs| && bs[i].phase.Running? && bs[i].key == key }

  ghost predicate BuildingExact(bs: Builds, building: set<string>) {
    forall key :: key in building <==> exists i :: Runs(bs, key, i)
  }

  ghost predicate StartsInOrder(bs: Builds, starts: seq<nat>) {
    && (forall a | 0 <= a < |starts| :: starts[a] < |bs|)
    && (forall i: nat | i < |bs| :: i in starts <==> bs[i].phase.Running? || bs[i].phase == Ended(true))
    && (forall a, b | 0 <= a < b < |starts| && SameKey(bs, starts[a], starts[b]) :: starts[a] < starts[b])
  }

  ghost predicate Inv(s: State) {
    && Line(s.builds)
    && TailsLatest(s.builds, s.tails)
    && BuildingExact(s.builds, s.building)
    && StartsInOrder(s.builds, s.starts)
  }

  /** A settled tail speaks for every build of its key up to it. */
  lemma {:induction false} SettledMeansOver(bs: Builds, i: nat, j: nat)
    requires Line(bs) && Settled(bs, i) && j <= i && SameKey(bs, i, j)
    ensures bs[j].phase.Ended?
    decreases i
  {
    assert Chained(bs, i);
    if j < i && bs[i].prev.Some? {
      var p := bs[i].prev.value;
      assert j <= p;
      SettledMeansOver(bs, p, j);
    }
  }

  lemma PrevDoneMeansFirst(bs: Builds, i: nat)
    requires Line(bs) && i < |bs| && PrevDone(bs, i)
    ensures FirstInLine(bs, i)
  {
    assert Chained(bs, i);
    if bs[i].prev.Some? {
      var p := bs[i].prev.value;
      forall j: nat | j < i && SameKey(bs, i, j) ensures bs[j].phase.Ended? {
        assert j <= p;
        SettledMeansOver(bs, p, j);
      }
    }
  }

  // ----- each step keeps it

  /** Changing one build's phase keeps the line and the tails, as long as a build that is over stays over. */
  lemma PutKeeps(bs: Builds, tails: map<string, nat>, i: nat, phase: Phase)
    requires Line(bs) && TailsLatest(bs, tails) && i < |bs| && !bs[i].phase.Ended?
    requires Past(phase) ==> FirstInLine(bs, i)
    ensures Line(Put(bs, i, phase)) && TailsLatest(Put(bs, i, phase), tails)
  {
    var t := Put(bs, i, phase);
    assert forall x: nat, y: nat :: SameKey(t, x, y) <==> SameKey(bs, x, y);
    forall k: nat | k < |t| ensures Chained(t, k) && (Past(t[k].phase) ==> FirstInLine(t, k)) {
      assert Chained(bs, k);
      assert FirstInLine(bs, k) ==> FirstInLine(t, k);
    }
    forall key ensures key !in tails ==> KeyOver(t, key) {
      assert KeyOver(bs, key) ==> KeyOver(t, key);
    }
    forall key | key in tails ensures Latest(t, key, tails[key]) {
      assert Latest(bs, key, tails[key]);
    }
  }

  lemma ArriveKeepsLine(bs: Builds, tails: map<string, nat>, b: Build)
    requires Line(bs) && TailsLatest(bs, tails) && b.phase.Waiting?
    requires b.prev == if b.key in tails then Some(tails[b.key]) else None
    ensures Line(bs + [b]) && TailsLatest(bs + [b], tails[b.key := |bs|])
  {
    var t := bs + [b];
    assert forall x: nat, y: nat | x < |bs| && y < |bs| :: SameKey(t, x, y) <==> SameKey(bs, x, y);
    forall k: nat | k < |t| ensures Chained(t, k) && (Past(t[k].phase) ==> FirstInLine(t, k)) {
      if k < |bs| {
        assert Chained(bs, k);
        assert FirstInLine(bs, k) ==> FirstInLine(t, k);
      } else if b.key in tails {
        assert Latest(bs, b.key, tails[b.key]);
      } else {
        assert KeyOver(bs, b.key);
      }
    }
    forall key | key in tails && key != b.key ensures Latest(t, key, tails[key]) {
      assert Latest(bs, key, tails[key]);
    }
    forall key | key !in tails[b.key := |bs|] ensures KeyOver(t, key) {
      assert KeyOver(bs, key);
    }
  }

  /** Who runs, and who has started, after one build's phase changes. */
  lemma RunnersAfter(bs: Builds, t: Builds, building: set<string>, starts: seq<nat>)
    requires BuildingExact(bs, building) && StartsInOrder(bs, starts) && |bs| <= |t|
    requires forall k: nat | k < |bs| :: t[k].key == bs[k].key && (t[k].phase.Running? <==> bs[k].phase.Running?)
                                         && (t[k].phase == Ended(true) <==> bs[k].phase == Ended(true))
    requires forall k: nat | |bs| <= k < |t| :: t[k].phase.Waiting?
    ensures BuildingExact(t, building) && StartsInOrder(t, starts)
  {
    forall key ensures key in building <==> exists i :: Runs(t, key, i) {
      if key in building {
        var i :| Runs(bs, key, i);
        assert Runs(t, key, i);
      }
      if i :| Runs(t, key, i) {
        assert Runs(bs, key, i);
      }
    }
    assert forall x: nat, y: nat | x < |bs| && y < |bs| :: SameKey(t, x, y) <==> SameKey(bs, x, y);
  }

  /** Whatever of the key has started before, it arrived before. */
  lemma StartedLast(bs: Builds, starts: seq<nat>, i: nat, a: nat)
    requires Line(bs) && StartsInOrder(bs, starts) && i < |bs| && !bs[i].phase.Ended? && !bs[i].phase.Running?
    requires a < |starts| && SameKey(bs, starts[a], i)
    ensures starts[a] < i
  {
    var k := starts[a];
    assert k in starts;
    assert FirstInLine(bs, k);
    assert SameKey(bs, k, i);
  }

  lemma StartKeeps(bs: Builds, building: set<string>, starts: seq<nat>, i: nat)
    requires Line(bs) && BuildingExact(bs, building) && StartsInOrder(bs, starts)
    requires i < |bs| && !bs[i].phase.Ended? && !bs[i].phase.Running?
    ensures BuildingExact(Put(bs, i, Running), building + {bs[i].key})
    ensures StartsInOrder(Put(bs, i, Running), starts + [i])
  {
    var t := Put(bs, i, Running);
    forall key ensures key in building + {bs[i].key} <==> exists k :: Runs(t, key, k) {
      assert Runs(t, bs[i].key, i);
      if key in building {
        var k :| Runs(bs, key, k);
        assert Runs(t, key, k);
      }
      if k :| Runs(t, key, k) {
        assert k != i ==> Runs(bs, key, k);
      }
    }
    assert forall x: nat, y: nat :: SameKey(t, x, y) <==> SameKey(bs, x, y);
    forall a, b | 0 <= a < b < |starts + [i]| && SameKey(t, (starts + [i])[a], (starts + [i])[b])
      ensures (starts + [i])[a] < (starts + [i])[b]
    {
      if b == |starts| {
        StartedLast(bs, starts, i, a);
      }
    }
  }

  /** Only the build that ends was running under its key. */
  lemma EndKeeps(bs: Builds, building: set<string>, starts: seq<nat>, i: nat)
    requires Line(bs) && BuildingExact(bs, building) && StartsInOrder(bs, starts)
    requires i < |bs| && bs[i].phase.Running?
    ensures BuildingExact(Put(bs, i, Ended(true)), building - {bs[i].key})
    ensures StartsInOrder(Put(bs, i, Ended(true)), starts)
  {
    var t := Put(bs, i, Ended(true));
    forall key ensures key in building - {bs[i].key} <==> exists k :: Runs(t, key, k) {
      if key in building && key != bs[i].key {
        var k :| Runs(bs, key, k);
        assert Runs(t, key, k);
      }
      if k :| Runs(t, key, k) {
        assert Runs(bs, key, k);
        if key == bs[i].key {
          OneRuns(bs, i, k);
        }
      }
    }
    assert forall x: nat, y: nat :: SameKey(t, x, y) <==> SameKey(bs, x, y);
  }

  lemma OneRuns(bs: Builds, i: nat, j: nat)
    requires Line(bs) && SameKey(bs, i, j) && bs[i].phase.Running? && bs[j].phase.Running?
    ensures i == j
  {
    assert FirstInLine(bs, i) && FirstInLine(bs, j);
    assert SameKey(bs, j, i);
  }

  lemma ForgetKeeps(s: State, i: nat)
    requires Inv(s) && Settled(s.builds, i)
    ensures Inv(Next(s, Forget(i)))
  {
    var key := s.builds[i].key;
    if key in s.tails && s.tails[key] == i {
      var tails := s.tails - {key};
      assert Latest(s.builds, key, i);
      forall other | other !in tails ensures KeyOver(s.builds, other) {
        if other == key {
          forall j: nat | j < |s.builds| && s.builds[j].key == key ensures s.builds[j].phase.Ended? {
            SettledMeansOver(s.builds, i, j);
          }
        }
      }
      forall other | other in tails ensures Latest(s.builds, other, tails[other]) {
        assert Latest(s.builds, other, s.tails[other]);
      }
    }
  }

  lemma StepKeeps(s: State, e: Event)
    requires Inv(s) && Enabled(s, e)
    ensures Inv(Next(s, e))
  {
    hide Line, TailsLatest, BuildingExact, StartsInOrder, Settled, PrevDone;
    var bs, t := s.builds, Next(s, e);
    match e
    case Arrive(key) =>
      ArriveKeepsLine(bs, s.tails, t.builds[|bs|]);
      RunnersAfter(bs, t.builds, s.building, s.starts);
    case PrevSettled(i) =>
      PrevDoneMeansFirst(bs, i);
      PutKeeps(bs, s.tails, i, Clear);
      RunnersAfter(bs, t.builds, s.building, s.starts);
    case Expire(i) =>
      PutKeeps(bs, s.tails, i, Ended(false));
      RunnersAfter(bs, t.builds, s.building, s.starts);
    case Look(i, blocked) =>
      PastIsFirst(bs, i);
      PutKeeps(bs, s.tails, i, t.builds[i].phase);
      if blocked {
        RunnersAfter(bs, t.builds, s.building, s.starts);
      } else {
        StartKeeps(bs, s.building, s.starts, i);
      }
    case End(i) =>
      PastIsFirst(bs, i);
      PutKeeps(bs, s.tails, i, Ended(true));
      EndKeeps(bs, s.building, s.starts, i);
    case Forget(i) => ForgetKeeps(s, i);
    case Tick(_) =>
  }

  lemma PastIsFirst(bs: Builds, i: nat)
    requires Line(bs) && i < |bs| && Past(bs[i].phase)
    ensures FirstInLine(bs, i)
  {
  }

  // ----- runs

  predicate Legal(s: State, es: seq<Event>)
    decreases |es|
  {
    es == [] || (Enabled(s, es[0]) && Legal(Next(s, es[0]), es[1..]))
  }

  function After(s: State, es: seq<Event>): State
    requires Legal(s, es)
    decreases |es|
  {
    if es == [] then s else After(Next(s, es[0]), es[1..])
  }

  lemma {:induction false} RunKeeps(s: State, es: seq<Event>)
    requires Inv(s) && Legal(s, es)
    ensures Inv(After(s, es))
    decreases |es|
  {
    if es != [] {
      StepKeeps(s, es[0]);
      RunKeeps(Next(s, es[0]), es[1..]);
    }
  }

  /**
   * Safety over every run: at most one build per key is inside `fn`; while one is, everything of its
   * key behind it waits or has given up; `building` names exactly the keys with a running build;
   * builds of a key start in arrival order; and a key's tail is forgotten only once all its builds
   * are over.
   */
  lemma QueueSafety(waitMs: nat, pollMs: nat, es: seq<Event>)
    requires Legal(Empty(waitMs, pollMs), es)
    ensures var s := After(Empty(waitMs, pollMs), es);
            && (forall i: nat, j: nat | SameKey(s.builds, i, j) && i < j && s.builds[i].phase.Running? ::
                  s.builds[j].phase.Waiting? || s.builds[j].phase == Ended(false))
            && (forall key :: key in s.building <==> exists i :: Runs(s.builds, key, i))
            && (forall a, b | 0 <= a < b < |s.starts| && SameKey(s.builds, s.starts[a], s.starts[b]) :: s.starts[a] < s.starts[b])
            && (forall key | key !in s.tails :: KeyOver(s.builds, key))
  {
    RunKeeps(Empty(waitMs, pollMs), es);
    var s := After(Empty(waitMs, pollMs), es);
    forall i: nat, j: nat | SameKey(s.builds, i, j) && i < j && s.builds[i].phase.Running?
      ensures s.builds[j].phase.Waiting? || s.builds[j].phase == Ended(false)
    {
      if Past(s.builds[j].phase) {
        assert FirstInLine(s.builds, j) && SameKey(s.builds, j, i);
      }
    }
  }

  // ----- time

  /** Exact timers: the clock does not pass a due timer, nor move while a settled wait is unread. */
  ghost predicate OnTime(s: State, ms: nat) {
    forall i: nat | i < |s.builds| ::
      match s.builds[i].phase
      case Waiting => !PrevDone(s.builds, i) && s.now + ms <= s.builds[i].arrived + s.waitMs
      case Clear => false
      case Sleeping(wake) => s.now + ms <= wake
      case _ => true
  }

  ghost predicate Punctual(s: State, es: seq<Event>)
    requires Legal(s, es)
    decreases |es|
  {
    es == [] || ((es[0].Tick? ==> OnTime(s, es[0].ms)) && Punctual(Next(s, es[0]), es[1..]))
  }

  /** No build is still short of its start past its bound. */
  ghost predicate InTime(s: State) {
    forall i: nat | i < |s.builds| ::
      match s.builds[i].phase
      case Waiting => s.now <= s.builds[i].arrived + s.waitMs
      case Clear => s.now <= s.builds[i].arrived + s.waitMs
      case Sleeping(wake) => s.now <= wake <= s.builds[i].arrived + s.waitMs + s.pollMs
      case _ => true
  }

  lemma {:induction false} PunctualRun(s: State, es: seq<Event>)
    requires Legal(s, es) && Punctual(s, es) && InTime(s)
    ensures InTime(After(s, es)) && After(s, es).waitMs == s.waitMs && After(s, es).pollMs == s.pollMs
    decreases |es|
  {
    if es != [] {
      InTimeStep(s, es[0]);
      PunctualRun(Next(s, es[0]), es[1..]);
    }
  }

  lemma InTimeStep(s: State, e: Event)
    requires Enabled(s, e) && InTime(s) && (e.Tick? ==> OnTime(s, e.ms))
    ensures InTime(Next(s, e))
  {
  }

  /**
   * With exact timers every build has started or given up by `waitMs + pollMs` after it arrived,
   * whatever `blocked()` answers and however long the builds before it run.
   */
  lemma BoundedWait(waitMs: nat, pollMs: nat, es: seq<Event>, i: nat)
    requires Legal(Empty(waitMs, pollMs), es) && Punctual(Empty(waitMs, pollMs), es)
    requires var s := After(Empty(waitMs, pollMs), es); i < |s.builds| && s.now > s.builds[i].arrived + waitMs + pollMs
    ensures var s := After(Empty(waitMs, pollMs), es); s.builds[i].phase.Running? || s.builds[i].phase.Ended?
  {
    PunctualRun(Empty(waitMs, pollMs), es);
  }

  /** The clock is never stuck: whenever it may not advance, some build has a step to take. */
  lemma TimeMoves(s: State)
    requires !OnTime(s, 1)
    ensures exists e: Event :: (e.PrevSettled? || e.Expire? || e.Look?) && Enabled(s, e)
  {
    var i: nat :| i < |s.builds| &&
      match s.builds[i].phase
      case Waiting => PrevDone(s.builds, i) || s.now + 1 > s.builds[i].arrived + s.waitMs
      case Clear => true
      case Sleeping(wake) => s.now + 1 > wake
      case _ => false;
    var e := if s.builds[i].phase.Waiting? then (if PrevDone(s.builds, i) then PrevSettled(i) else Expire(i)) else Look(i, false);
    assert Enabled(s, e);
  }

  // ----- giving up, and running

  /** A build that has given up has waited its time out. */
  ghost predicate Patient(s: State) {
    forall i: nat | i < |s.builds| ::
      s.builds[i].arrived <= s.now && (s.builds[i].phase == Ended(false) ==> s.now >= s.builds[i].arrived + s.waitMs)
  }

  /** Build `i` is the one that came with this key at this instant. */
  ghost predicate Came(s: State, i: nat, key: string, at: nat) { i < |s.builds| && s.builds[i].key == key && s.builds[i].arrived == at }

  lemma PatientStep(s: State, e: Event)
    requires Enabled(s, e) && Patient(s)
    ensures Patient(Next(s, e)) && Next(s, e).waitMs == s.waitMs
  {
    hide Settled;
  }

  lemma CameStep(s: State, e: Event, i: nat, key: string, at: nat)
    requires Enabled(s, e) && Came(s, i, key, at)
    ensures Came(Next(s, e), i, key, at)
  {
    hide Settled;
  }

  lemma {:induction false} PatientRun(s: State, es: seq<Event>, i: nat, key: string, at: nat)
    requires Legal(s, es) && Patient(s)
    ensures Patient(After(s, es)) && After(s, es).waitMs == s.waitMs
    ensures Came(s, i, key, at) ==> Came(After(s, es), i, key, at)
    decreases |es|
  {
    hide Next, Enabled, Patient, Came;
    if es != [] {
      PatientStep(s, es[0]);
      if Came(s, i, key, at) {
        CameStep(s, es[0], i, key, at);
      }
      PatientRun(Next(s, es[0]), es[1..], i, key, at);
    }
  }

  lemma {:induction false} RunJoined(s: State, es: seq<Event>, fs: seq<Event>)
    ensures Legal(s, es + fs) <==> Legal(s, es) && Legal(After(s, es), fs)
    ensures Legal(s, es + fs) ==> After(s, es + fs) == After(After(s, es), fs)
    decreases |es|
  {
    hide Next, Enabled;
    if es == [] {
      assert es + fs == fs;
    } else if Enabled(s, es[0]) {
      assert (es + fs)[1..] == es[1..] + fs;
      RunJoined(Next(s, es[0]), es[1..], fs);
    }
  }

  /**
   * Over every run, the build that arrives after `before` keeps its key and its instant, and gives up
   * only once the whole wait has passed since.
   */
  lemma GivesUpOnlySpent(waitMs: nat, pollMs: nat, before: seq<Event>, key: string, later: seq<Event>)
    requires Legal(Empty(waitMs, pollMs), before + ([Arrive(key)] + later))
    ensures Legal(Empty(waitMs, pollMs), before)
    ensures var s, t := After(Empty(waitMs, pollMs), before), After(Empty(waitMs, pollMs), before + ([Arrive(key)] + later));
            && Came(t, |s.builds|, key, s.now)
            && (t.builds[|s.builds|].phase == Ended(false) ==> t.now >= s.now + waitMs)
  {
    hide Enabled;
    var start := Empty(waitMs, pollMs);
    RunJoined(start, before, [Arrive(key)] + later);
    var s := After(start, before);
    PatientRun(start, before, 0, key, 0);
    assert ([Arrive(key)] + later)[1..] == later;
    PatientStep(s, Arrive(key));
    PatientRun(Next(s, Arrive(key)), later, |s.builds|, key, s.now);
  }

  /** A build waits exactly while an earlier one of its key is not over. */
  lemma WaitsExactly(bs: Builds, i: nat)
    requires Line(bs) && i < |bs|
    ensures PrevDone(bs, i) <==> FirstInLine(bs, i)
  {
    if PrevDone(bs, i) {
      PrevDoneMeansFirst(bs, i);
    }
    assert Chained(bs, i);
    if FirstInLine(bs, i) && bs[i].prev.Some? {
      OverIsSettled(bs, bs[i].prev.value, i);
    }
  }

  lemma {:induction false} OverIsSettled(bs: Builds, p: nat, i: nat)
    requires Line(bs) && i < |bs| && p < i && SameKey(bs, i, p) && FirstInLine(bs, i)
    ensures Settled(bs, p)
    decreases p
  {
    assert bs[p].phase.Ended? && Chained(bs, p);
    if bs[p].prev.Some? {
      OverIsSettled(bs, bs[p].prev.value, i);
    }
  }

  lemma StepAhead(s: State, e: Event, es: seq<Event>)
    requires Enabled(s, e) && Legal(Next(s, e), es)
    ensures Legal(s, [e] + es) && After(s, [e] + es) == After(Next(s, e), es)
  {
    hide Next, Enabled;
    assert ([e] + es)[1..] == es;
  }

  lemma Steps(s: State, d: Event, e: Event, f: Event)
    ensures Enabled(s, d) && Enabled(Next(s, d), e) ==> Legal(s, [d, e]) && After(s, [d, e]) == Next(Next(s, d), e)
    ensures Enabled(s, d) && Enabled(Next(s, d), e) && Enabled(Next(Next(s, d), e), f) ==>
              Legal(s, [d, e, f]) && After(s, [d, e, f]) == Next(Next(Next(s, d), e), f)
  {
    hide Next, Enabled;
    assert [d, e] == [d] + [e] && [e] == [e] + [] && [d, e, f] == [d] + [e, f] && [e, f] == [e] + [f] && [f] == [f] + [];
    if Enabled(s, d) && Enabled(Next(s, d), e) {
      var t := Next(s, d);
      var u := Next(t, e);
      StepAhead(t, e, []);
      StepAhead(s, d, [e]);
      if Enabled(u, f) {
        StepAhead(u, f, []);
        StepAhead(t, e, [f]);
        StepAhead(s, d, [e, f]);
      }
    }
  }

  /** A waiting build whose predecessors are over, and whose look finds `blocked()` false, runs: in two steps. */
  lemma RunsInTurn(s: State, i: nat)
    requires Inv(s) && i < |s.builds| && s.builds[i].phase.Waiting? && FirstInLine(s.builds, i)
    ensures var es := [PrevSettled(i), Look(i, false)];
            Legal(s, es) && Runs(After(s, es).builds, s.builds[i].key, i) && After(s, es).building == s.building + {s.builds[i].key}
  {
    hide Settled, Legal, After;
    WaitsExactly(s.builds, i);
    Steps(s, PrevSettled(i), Look(i, false), Tick(0));
  }

  /** A blocked look short of the deadline costs one poll: the build looks again then, and runs if it finds the way free. */
  lemma LooksAgain(s: State, i: nat)
    requires i < |s.builds| && s.builds[i].phase.Clear? && s.now < s.builds[i].arrived + s.waitMs
    ensures var es := [Look(i, true), Tick(s.pollMs), Look(i, false)]; Legal(s, es) && Runs(After(s, es).builds, s.builds[i].key, i)
  {
    hide Settled, Legal, After;
    Steps(s, Look(i, true), Tick(s.pollMs), Look(i, false));
  }

  /** A key's tail can be forgotten exactly when all its builds are over, and its callback then forgets it. */
  lemma ForgottenExactly(s: State, key: string)
    requires Inv(s) && key in s.tails
    ensures Enabled(s, Forget(s.tails[key])) <==> KeyOver(s.builds, key)
    ensures KeyOver(s.builds, key) ==> Next(s, Forget(s.tails[key])).tails == s.tails - {key}
  {
    var bs, i := s.builds, s.tails[key];
    assert Latest(bs, key, i);
    if Settled(bs, i) {
      forall j: nat | j < |bs| && bs[j].key == key ensures bs[j].phase.Ended? {
        assert SameKey(bs, i, j);
        SettledMeansOver(bs, i, j);
      }
    }
    if KeyOver(bs, key) {
      assert Chained(bs, i);
      if bs[i].prev.Some? {
        OverIsSettled(bs, bs[i].prev.value, i);
      }
    }
  }

  // ----- one instant

  /** How many steps a build may still take before the clock moves. */
  ghost function Left(b: Build, now: nat): nat {
    match b.phase
    case Waiting => 5
    case Clear => 4
    case Sleeping(wake) => if wake <= now then 4 else 3
    case Running => 2
    case Ended(_) => 0
  }

  ghost function Rank(bs: Builds, now: nat): nat {
    if bs == [] then 0 else Rank(bs[..|bs| - 1], now) + Left(bs[|bs| - 1], now)
  }

  lemma {:induction false} RankPut(bs: Builds, i: nat, phase: Phase, now: nat)
    requires i < |bs|
    ensures Rank(Put(bs, i, phase), now) - Left(bs[i].(phase := phase), now) == Rank(bs, now) - Left(bs[i], now)
  {
    var n, cs := |bs| - 1, Put(bs, i, phase);
    if i < n {
      RankPut(bs[..n], i, phase, now);
      assert cs[..n] == Put(bs[..n], i, phase);
    } else {
      assert cs[..n] == bs[..n];
    }
  }

  /** A build's own step, rather than an arrival, the clock or a tail's callback. */
  predicate Own(e: Event) { e.PrevSettled? || e.Expire? || e.Look? || e.End? }

  /** A look that finds `blocked()` true ends the instant for its build: by sleeping past it, or by giving up. */
  ghost predicate LooksEnd(s: State) {
    s.pollMs > 0 || (s.waitMs == 0 && forall i | 0 <= i < |s.builds| :: s.builds[i].arrived <= s.now)
  }

  lemma StepRanks(s: State, e: Event)
    requires Enabled(s, e) && Own(e) && LooksEnd(s)
    ensures var t := Next(s, e); Rank(t.builds, s.now) < Rank(s.builds, s.now) && t.now == s.now && t.pollMs == s.pollMs && LooksEnd(t)
  {
    hide Rank, Settled;
    RankPut(s.builds, e.i, Next(s, e).builds[e.i].phase, s.now);
    assert Next(s, e).builds == Put(s.builds, e.i, Next(s, e).builds[e.i].phase);
  }

  /** Then only so many steps fit between two ticks of the clock: it cannot be held up for ever. */
  lemma {:induction false} InstantEnds(s: State, es: seq<Event>)
    requires Legal(s, es) && LooksEnd(s) && forall i | 0 <= i < |es| :: Own(es[i])
    ensures |es| + Rank(After(s, es).builds, s.now) <= Rank(s.builds, s.now) && After(s, es).now == s.now
    decreases |es|
  {
    hide Rank, Next, Enabled, LooksEnd;
    if es != [] {
      StepRanks(s, es[0]);
      InstantEnds(Next(s, es[0]), es[1..]);
    }
  }

  lemma LooksEndStep(s: State, e: Event)
    requires Enabled(s, e) && LooksEnd(s)
    ensures LooksEnd(Next(s, e))
  {
    hide Settled;
  }

  lemma {:induction false} LooksEndRun(s: State, es: seq<Event>)
    requires Legal(s, es) && LooksEnd(s)
    ensures LooksEnd(After(s, es))
    decreases |es|
  {
    hide Next, Enabled, LooksEnd;
    if es != [] {
      LooksEndStep(s, es[0]);
      LooksEndRun(Next(s, es[0]), es[1..]);
    }
  }

  ghost predicate OwnRun(s: State, es: seq<Event>) { Legal(s, es) && forall i | 0 <= i < |es| :: Own(es[i]) }

  /** Builds can take `n` steps at this instant. */
  ghost predicate Takes(s: State, n: nat) { exists es :: |es| == n && OwnRun(s, es) }

  /** As many as are asked for. */
  ghost predicate CanSpin(s: State) { forall n: nat :: Takes(s, n) }

  /** A blocked build, due and short of its deadline, whose poll takes no time. */
  ghost predicate Spinning(s: State, i: nat) {
    s.pollMs == 0 && i < |s.builds| && s.builds[i].phase == Sleeping(s.now) && s.now < s.builds[i].arrived + s.waitMs
  }

  lemma {:induction false} ZeroPollSpins(s: State, i: nat, n: nat) returns (es: seq<Event>)
    requires Spinning(s, i)
    ensures |es| == n && Legal(s, es) && After(s, es) == s && forall k | 0 <= k < n :: Own(es[k])
  {
    es := [];
    if n > 0 {
      es := ZeroPollSpins(s, i, n - 1);
      assert Next(s, Look(i, true)) == s;
      assert ([Look(i, true)] + es)[1..] == es;
      es := [Look(i, true)] + es;
    }
  }

  const SPIN: seq<Event> := [Arrive("k"), PrevSettled(0), Look(0, true)]

  lemma SpinReached(waitMs: nat)
    requires waitMs > 0
    ensures Legal(Empty(waitMs, 0), SPIN) && Spinning(After(Empty(waitMs, 0), SPIN), 0)
  {
    var s := Next(Empty(waitMs, 0), Arrive("k"));
    var t := Next(s, PrevSettled(0));
    assert SPIN[1..] == [PrevSettled(0), Look(0, true)] && SPIN[1..][1..] == [Look(0, true)] && SPIN[1..][1..][1..] == [];
    assert t.builds[0].phase == Clear && Enabled(t, Look(0, true));
  }

  /** Some run comes to an instant that need never end exactly when the poll takes no time and the wait does. */
  lemma SpinsExactly(waitMs: nat, pollMs: nat)
    ensures (exists es :: Legal(Empty(waitMs, pollMs), es) && CanSpin(After(Empty(waitMs, pollMs), es))) <==> pollMs == 0 && waitMs > 0
  {
    hide Legal, After, LooksEnd, Rank, Spinning;
    if pollMs == 0 && waitMs > 0 {
      SpinReached(waitMs);
      var s := After(Empty(waitMs, 0), SPIN);
      forall n: nat ensures Takes(s, n) {
        var es := ZeroPollSpins(s, 0, n);
        assert OwnRun(s, es);
      }
      assert CanSpin(s);
    } else {
      EmptyLooksEnd(waitMs, pollMs);
      forall es | Legal(Empty(waitMs, pollMs), es) ensures !CanSpin(After(Empty(waitMs, pollMs), es)) {
        LooksEndRun(Empty(waitMs, pollMs), es);
        NoSpin(After(Empty(waitMs, pollMs), es));
      }
    }
  }

  lemma EmptyLooksEnd(waitMs: nat, pollMs: nat)
    ensures pollMs > 0 || waitMs == 0 ==> LooksEnd(Empty(waitMs, pollMs))
  {
  }

  lemma NoSpin(s: State)
    requires LooksEnd(s)
    ensures !CanSpin(s)
  {
    var n := Rank(s.builds, s.now) + 1;
    forall es | OwnRun(s, es) ensures |es| < n { InstantEnds(s, es); }
    assert !Takes(s, n);
  }

  /** So from any state the clock can next advance after finitely many own steps. */
  lemma {:induction false} ClockReached(s: State) returns (es: seq<Event>)
    requires LooksEnd(s)
    ensures Legal(s, es) && (forall i | 0 <= i < |es| :: Own(es[i])) && |es| <= Rank(s.builds, s.now) && OnTime(After(s, es), 1)
    decreases Rank(s.builds, s.now)
  {
    hide Rank, Next, Enabled;
    es := [];
    if !OnTime(s, 1) {
      TimeMoves(s);
      var e: Event :| (e.PrevSettled? || e.Expire? || e.Look?) && Enabled(s, e);
      StepRanks(s, e);
      var later := ClockReached(Next(s, e));
      es := [e] + later;
      assert es[1..] == later;
    }
  }

  /** Nothing of the key of a build that is first in line and not over is running but itself. */
  lemma NoneRunsBeside(bs: Builds, i: nat, j: nat)
    requires i < |bs| && FirstInLine(bs, i) && !bs[i].phase.Ended? && !bs[i].phase.Running?
    requires Runs(bs, bs[i].key, j) ==> FirstInLine(bs, j)
    ensures !Runs(bs, bs[i].key, j)
  {
    assert Runs(bs, bs[i].key, j) ==> SameKey(bs, i, j) && SameKey(bs, j, i);
  }

  /** A build starts only in a step whose own look found `blocked()` false and its place first in line. */
  lemma StartsUnblocked(s: State, e: Event, i: nat)
    requires Inv(s) && Enabled(s, e) && i < |Next(s, e).builds|
    requires Next(s, e).builds[i].phase.Running? && (i < |s.builds| ==> !s.builds[i].phase.Running?)
    ensures e == Look(i, false) && FirstInLine(s.builds, i) && s.builds[i].key !in s.building
  {
    PastIsFirst(s.builds, i);
    forall j: nat ensures !Runs(s.builds, s.builds[i].key, j) {
      NoneRunsBeside(s.builds, i, j);
    }
  }

  // ----- the queue itself

  /** `BuildQueue`, its promise chain kept as the builds' own records. */
  class BuildQueue {
    const waitMs: nat
    const pollMs: nat
    var now: nat
    var builds: Builds
    var tails: map<string, nat>
    var running: set<string>
    ghost var starts: seq<nat>

    ghost function View(): State reads this { State(waitMs, pollMs, now, builds, tails, running, starts) }

    ghost predicate Valid() reads this { Inv(View()) }

    constructor (waitMs: nat := BUILD_WAIT_MS, pollMs: nat := BUILD_POLL_MS)
      ensures Valid() && View() == Empty(waitMs, pollMs)
    {
      this.waitMs, this.pollMs, now := waitMs, pollMs, 0;
      builds, tails, running, starts := [], map[], {}, [];
    }

    /** A build of the key is inside `fn`. */
    method Building(key: string) returns (r: bool)
      requires Valid()
      ensures r <==> exists i :: Runs(builds, key, i)
    {
      r := key in running;
    }

    /** The synchronous head of `run`: chain on the key's tail and become it. */
    method Enter(key: string) returns (i: nat)
      requires Valid()
      modifies this
      ensures Valid() && View() == Next(old(View()), Arrive(key)) && i == |old(builds)|
    {
      StepKeeps(View(), Arrive(key));
      i := |builds|;
      var prev := if key in tails then Some(tails[key]) else None;
      builds := builds + [Build(key, now, prev, Waiting)];
      tails := tails[key := i];
    }

    /** `before(prev, waitMs)` resolving, by the chain or by the timer. */
    method Resolve(i: nat, settled: bool)
      requires Valid() && Enabled(View(), if settled then PrevSettled(i) else Expire(i))
      modifies this
      ensures Valid() && View() == Next(old(View()), if settled then PrevSettled(i) else Expire(i))
    {
      StepKeeps(View(), if settled then PrevSettled(i) else Expire(i));
      builds := builds[i := builds[i].(phase := if settled then Clear else Ended(false))];
    }

    /** One look at `blocked()`: start, sleep, or give up at the deadline. */
    method TakeLook(i: nat, blocked: bool)
      requires Valid() && Enabled(View(), Look(i, blocked))
      modifies this
      ensures Valid() && View() == Next(old(View()), Look(i, blocked))
    {
      StepKeeps(View(), Look(i, blocked));
      var b := builds[i];
      if blocked {
        builds := builds[i := b.(phase := if now >= b.arrived + waitMs then Ended(false) else Sleeping(now + pollMs))];
      } else {
        running := running + {b.key};
        starts := starts + [i];
        builds := builds[i := b.(phase := Running)];
      }
    }

    /** `fn` returned or threw: the key is free and the build's own promise is released. */
    method Finish(i: nat)
      requires Valid() && Enabled(View(), End(i))
      modifies this
      ensures Valid() && View() == Next(old(View()), End(i))
    {
      StepKeeps(View(), End(i));
      running := running - {builds[i].key};
      builds := builds[i := builds[i].(phase := Ended(true))];
    }

    /** The tail's own callback. */
    method ForgetTail(i: nat)
      requires Valid() && Enabled(View(), Forget(i))
      modifies this
      ensures Valid() && View() == Next(old(View()), Forget(i))
    {
      StepKeeps(View(), Forget(i));
      var key := builds[i].key;
      if key in tails && tails[key] == i {
        tails := tails - {key};
      }
    }
  }
}
