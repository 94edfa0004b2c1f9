/**
 * `settleConsent` as any number of racing callbacks over one link row: each spends the row, then
 * stores the credential, and un-spends the row if the store fails. The row's own updates are atomic;
 * an answer to one may be lost after it took effect.
 */
module Consent {
  datatype Status = Outstanding | Used | Revoked

  datatype Refusal = Unknown | WasUsed | WasRevoked | WasExpired

  /** How far a callback has come, and how it ended. */
  datatype Stage =
    | Called
    | Won
    | StoreFailed
    | Connected
    | Refused(reason: Refusal)
    | NotStored(restored: bool)

  datatype State = State(row: Status, expired: bool, stages: seq<Stage>, stores: seq<nat>, restores: seq<nat>, wins: seq<nat>)

  const OPEN := State(Outstanding, false, [], [], [], [])

  datatype Event =
    | Arrives
    | Consumes(i: nat, heard: bool)
    | Stores(i: nat, ok: bool)
    | Restores(i: nat, heard: bool)
    | Revokes
    | Expires

  predicate Enabled(s: State, e: Event) {
    match e
    case Consumes(i, _) => i < |s.stages| && s.stages[i].Called?
    case Stores(i, _) => i < |s.stages| && s.stages[i].Won?
    case Restores(i, _) => i < |s.stages| && s.stages[i].StoreFailed?
    case _ => true
  }

  /** Why the row refuses, if it does. */
  function Refuses(s: State): (r: seq<Refusal>) {
    if s.row.Used? then [WasUsed] else if s.row.Revoked? then [WasRevoked] else if s.expired then [WasExpired] else []
  }

  function Next(s: State, e: Event): State
    requires Enabled(s, e)
  {
    match e
    case Arrives => s.(stages := s.stages + [Called])
    case Consumes(i, heard) =>
      var refused := Refuses(s);
      if refused != [] then s.(stages := s.stages[i := Refused(if heard then refused[0] else Unknown)])
      else if !heard then s.(row := Used, stages := s.stages[i := Refused(Unknown)])
      else s.(row := Used, stages := s.stages[i := Won], wins := s.wins + [i])
    case Stores(i, ok) => s.(stages := s.stages[i := if ok then Connected else StoreFailed], stores := s.stores + [i])
    case Restores(i, heard) =>
      var moves := s.row.Used? && !s.expired;
      s.(row := if moves then Outstanding else s.row, stages := s.stages[i := NotStored(moves && heard)], restores := s.restores + [i])
    case Revokes => s.(row := Revoked)
    case Expires => s.(expired := true)
  }

  predicate Legal(s: State, es: seq<Event>)
    decreases |es|
  {
    es == [] || (Enabled(s, es[0]) && Legal(Next(s, es[0]), es[1..]))
  }

  function After(s: State, es: seq<Event>): State
    requires Legal(s, es)
    decreases |es|
  {
    if es == [] then s else After(Next(s, es[0]), es[1..])
  }

  /** A callback that spent the row and has neither given it back nor been connected by it in vain. */
  predicate Holds(t: Stage) { t.Won? || t.StoreFailed? || t.Connected? }

  ghost predicate Inv(s: State) {
    && (forall i, j | 0 <= i < j < |s.stages| :: !(Holds(s.stages[i]) && Holds(s.stages[j])))
    && (forall i | 0 <= i < |s.stages| && Holds(s.stages[i]) :: !s.row.Outstanding?)
    && (forall i | i in s.wins :: i < |s.stages|)
    && (forall i: nat | i < |s.stages| :: i in s.wins <==> Holds(s.stages[i]) || s.stages[i].NotStored?)
    && (forall i | i in s.stores :: i in s.wins && (s.stages[i].StoreFailed? || s.stages[i].Connected? || s.stages[i].NotStored?))
    && (forall i | i in s.restores :: i in s.wins && s.stages[i].NotStored?)
    && (forall i, j | 0 <= i < j < |s.stores| :: s.stores[i] != s.stores[j])
  }

  lemma ConsumeKeeps(s: State, i: nat, heard: bool)
    requires Inv(s) && Enabled(s, Consumes(i, heard))
    ensures Inv(Next(s, Consumes(i, heard)))
  {
  }

  lemma StoreKeeps(s: State, i: nat, ok: bool)
    requires Inv(s) && Enabled(s, Stores(i, ok))
    ensures Inv(Next(s, Stores(i, ok)))
  {
    assert i !in s.stores;
  }

  lemma RestoreKeeps(s: State, i: nat, heard: bool)
    requires Inv(s) && Enabled(s, Restores(i, heard))
    ensures Inv(Next(s, Restores(i, heard)))
  {
  }

  lemma StepKeeps(s: State, e: Event)
    requires Inv(s) && Enabled(s, e)
    ensures Inv(Next(s, e))
  {
    match e
    case Consumes(i, heard) => ConsumeKeeps(s, i, heard);
    case Stores(i, ok) => StoreKeeps(s, i, ok);
    case Restores(i, heard) => RestoreKeeps(s, i, heard);
    case Arrives => assert |s.stages| !in s.wins;
    case _ =>
  }

  lemma {:induction false} RunKeeps(s: State, es: seq<Event>)
    requires Inv(s) && Legal(s, es)
    ensures Inv(After(s, es))
    decreases |es|
  {
    if es != [] {
      StepKeeps(s, es[0]);
      RunKeeps(Next(s, es[0]), es[1..]);
    }
  }

  /**
   * Over every interleaving: at most one callback is ever connected, and then the row is spent or
   * revoked; `store` runs at most once per callback and only after its consume won; only such a
   * callback, its store failed, restores the row.
   */
  lemma SingleUse(es: seq<Event>)
    requires Legal(OPEN, es)
    ensures var s := After(OPEN, es);
            && (forall i, j | 0 <= i < |s.stages| && 0 <= j < |s.stages| && s.stages[i].Connected? && s.stages[j].Connected? :: i == j)
            && (forall i | 0 <= i < |s.stages| && s.stages[i].Connected? :: !s.row.Outstanding?)
            && (forall i | i in s.stores :: i in s.wins) && (forall i, j | 0 <= i < j < |s.stores| :: s.stores[i] != s.stores[j])
            && (forall i | i in s.restores :: i in s.wins && i < |s.stages| && s.stages[i].NotStored?)
  {
    RunKeeps(OPEN, es);
  }

  /** Once a callback is connected, no later callback reaches the store. */
  lemma {:induction false} ConnectedIsFinal(s: State, es: seq<Event>, i: nat)
    requires Inv(s) && Legal(s, es) && i < |s.stages| && s.stages[i].Connected?
    ensures var t := After(s, es); t.stores == s.stores && t.restores == s.restores && i < |t.stages| && t.stages[i].Connected?
    decreases |es|
  {
    if es != [] {
      StepKeeps(s, es[0]);
      ConnectedIsFinal(Next(s, es[0]), es[1..], i);
    }
  }

  // ----- and the link does work

  lemma StepAhead(s: State, e: Event, es: seq<Event>)
    requires Enabled(s, e) && Legal(Next(s, e), es)
    ensures Legal(s, [e] + es) && After(s, [e] + es) == After(Next(s, e), es)
  {
    hide Next, Enabled;
    assert ([e] + es)[1..] == es;
  }

  /** A callback whose consume is heard wins exactly on a row that is outstanding and has not expired, and otherwise hears why not. */
  lemma WinsExactly(s: State, i: nat)
    requires Enabled(s, Consumes(i, true))
    ensures var t := Next(s, Consumes(i, true));
            && (t.stages[i].Won? <==> s.row.Outstanding? && !s.expired)
            && (t.stages[i].Won? ==> t.row.Used?)
            && (!t.stages[i].Won? ==> t.row == s.row && t.stages[i] == Refused(match s.row case Used => WasUsed case Revoked => WasRevoked case Outstanding => WasExpired))
  {
  }

  /** On a standing row a callback whose answers come and whose store succeeds is connected. */
  lemma Connects(s: State, i: nat)
    requires i < |s.stages| && s.stages[i].Called? && s.row.Outstanding? && !s.expired
    ensures var es := [Consumes(i, true), Stores(i, true)];
            Legal(s, es) && i < |After(s, es).stages| && After(s, es).stages[i].Connected?
  {
    hide Legal, After;
    var t := Next(s, Consumes(i, true));
    assert Legal(Next(t, Stores(i, true)), []) && After(Next(t, Stores(i, true)), []) == Next(t, Stores(i, true)) by { NoSteps(Next(t, Stores(i, true))); }
    assert [Stores(i, true)] + [] == [Stores(i, true)] && [Consumes(i, true)] + [Stores(i, true)] == [Consumes(i, true), Stores(i, true)];
    StepAhead(t, Stores(i, true), []);
    StepAhead(s, Consumes(i, true), [Stores(i, true)]);
  }

  lemma NoSteps(s: State)
    ensures Legal(s, []) && After(s, []) == s
  {
  }

  /** A failed store on a row that has not expired gives it back, heard or not: the next callback connects. */
  lemma RetryConnects(s: State, i: nat, heard: bool)
    requires i < |s.stages| && s.stages[i].Won? && s.row.Used? && !s.expired
    ensures var t := Next(Next(s, Stores(i, false)), Restores(i, heard));
            && t.row.Outstanding? && t.stages[i] == NotStored(heard)
            && var u, j := Next(t, Arrives), |t.stages|;
               && Legal(u, [Consumes(j, true), Stores(j, true)])
               && var v := After(u, [Consumes(j, true), Stores(j, true)]); j < |v.stages| && v.stages[j].Connected?
  {
    hide Legal, After;
    var t := Next(Next(s, Stores(i, false)), Restores(i, heard));
    Connects(Next(t, Arrives), |t.stages|);
  }

  /** A restore gives back exactly a row that is used and has not expired; a revoked row stays revoked. */
  lemma RestoresExactly(s: State, i: nat, heard: bool)
    requires Enabled(s, Restores(i, heard))
    ensures var t := Next(s, Restores(i, heard));
            && (s.row.Used? && !s.expired ==> t.row.Outstanding?) && (!(s.row.Used? && !s.expired) ==> t.row == s.row)
            && t.stages[i] == NotStored(heard && s.row.Used? && !s.expired)
  {
  }

  /** Nothing is lost, revoked or expired. */
  predicate Smooth(e: Event) { !e.Revokes? && !e.Expires? && (e.Consumes? ==> e.heard) }

  ghost predicate Free(s: State) { forall i | 0 <= i < |s.stages| :: !Holds(s.stages[i]) }

  lemma SmoothStep(s: State, e: Event)
    requires Inv(s) && Enabled(s, e) && Smooth(e) && !s.expired && !s.row.Revoked? && (s.row.Outstanding? <==> Free(s))
    ensures var t := Next(s, e); !t.expired && !t.row.Revoked? && (t.row.Outstanding? <==> Free(t))
  {
    var t := Next(s, e);
    if e.Consumes? || e.Stores? || e.Restores? {
      assert t.stages[e.i] != s.stages[e.i];
      assert forall k | 0 <= k < |s.stages| && k != e.i :: t.stages[k] == s.stages[k];
    } else {
      assert forall k | 0 <= k < |s.stages| :: t.stages[k] == s.stages[k];
      assert Free(t) ==> Free(s);
    }
  }

  /** While nothing is lost, revoked or expired, the link stands exactly while no callback has spent it for good. */
  lemma {:induction false} StandsExactly(s: State, es: seq<Event>)
    requires Inv(s) && Legal(s, es) && (forall i | 0 <= i < |es| :: Smooth(es[i]))
    requires !s.expired && !s.row.Revoked? && (s.row.Outstanding? <==> Free(s))
    ensures After(s, es).row.Outstanding? <==> Free(After(s, es))
    decreases |es|
  {
    hide Next, Enabled, Free, Inv;
    if es != [] {
      SmoothStep(s, es[0]);
      StepKeeps(s, es[0]);
      StandsExactly(Next(s, es[0]), es[1..]);
    }
  }
}
