/**
 * A card's day counts as moves: where the read buckets every accepted call faithfully, a row's
 * `today` and `yesterday` number the moves its operations made into its state on those days.
 */
module BusinessCounts {
  import Sorting
  import opened Lifecycle
  import opened BusinessVolumes

  /** One accepted call and when it was made; a log holds the calls of each entity in turn. */
  datatype Timed = Timed(at: int, call: Call)

  ghost function CallsIn(log: seq<Timed>, ops: set<string>, lo: int, hi: int): nat {
    if log == [] then 0
    else
      var t := log[|log| - 1];
      CallsIn(log[..|log| - 1], ops, lo, hi) + if t.call.op in ops && lo <= t.at < hi then 1 else 0
  }

  ghost function MovesIn(log: seq<Timed>, ops: set<string>, state: string, lo: int, hi: int): nat {
    if log == [] then 0
    else
      var t := log[|log| - 1];
      MovesIn(log[..|log| - 1], ops, state, lo, hi)
      + if t.call.op in ops && lo <= t.at < hi && t.call.to == state && t.call.from != state then 1 else 0
  }

  /** The log is made of runs: every call of it was accepted where its entity stood. */
  ghost predicate Accepted(lc: Lifecycle, log: seq<Timed>) {
    forall i | 0 <= i < |log| :: Allows(lc, log[i].call.from, log[i].call.op, log[i].call.to)
  }

  ghost function Times(run: seq<Call>, at: int -> int): seq<Timed> {
    seq(|run|, i requires 0 <= i < |run| => Timed(at(i), run[i]))
  }

  lemma RunsAccepted(lc: Lifecycle, run: seq<Call>, at: int -> int)
    requires IsRun(lc, run)
    ensures Accepted(lc, Times(run, at))
  {
    hide Allows;
  }

  /** What the series of one entity type and operation hold in the bucket at `at`. */
  ghost function Held(series: seq<Series>, entityType: string, op: string, at: int): nat {
    if series == [] then 0
    else
      var last := series[|series| - 1];
      Held(series[..|series| - 1], entityType, op, at)
      + if last.entityType == entityType && last.operation == op then CountAt(last.buckets, at) else 0
  }

  /** The read: an operation's series hold its calls, bucket by bucket, and every bucket starts on the grid. */
  ghost predicate Reads(series: seq<Series>, entityType: string, log: seq<Timed>, g: Grid) {
    && (forall i | 0 <= i < |series| && series[i].entityType == entityType :: AllOnGrid(series[i].buckets, g))
    && (forall op, at | OnGrid(g, at) :: Held(series, entityType, op, at) == CallsIn(log, {op}, at, at + g.step))
  }

  // ----- over a row's operations

  lemma {:induction false} CountJoined(a: seq<Sample>, b: seq<Sample>, at: int)
    ensures CountAt(a + b, at) == CountAt(a, at) + CountAt(b, at)
  {
    if b == [] {
      assert a + b == a;
    } else {
      CountJoined(a, b[..|b| - 1], at);
      assert (a + b)[..|a + b| - 1] == a + b[..|b| - 1];
    }
  }

  lemma {:induction false} OneMoreOperation(series: seq<Series>, entityType: string, ops: seq<string>, op: string, at: int)
    requires op !in ops
    ensures CountAt(Counted(series, entityType, ops + [op]), at) == CountAt(Counted(series, entityType, ops), at) + Held(series, entityType, op, at)
  {
    hide CountAt;
    if series == [] {
      NoneAt(at);
    } else {
      var rest, last := series[..|series| - 1], series[|series| - 1];
      OneMoreOperation(rest, entityType, ops, op, at);
      CountJoined(Counted(rest, entityType, ops + [op]), last.buckets, at);
      CountJoined(Counted(rest, entityType, ops), last.buckets, at);
      NothingJoined(Counted(rest, entityType, ops + [op]));
      NothingJoined(Counted(rest, entityType, ops));
    }
  }

  lemma NoneAt(at: int)
    ensures CountAt([], at) == 0
  {
  }

  lemma NothingJoined(a: seq<Sample>)
    ensures a + [] == a
  {
  }

  lemma {:induction false} CallsJoined(log: seq<Timed>, a: set<string>, op: string, lo: int, hi: int)
    requires op !in a
    ensures CallsIn(log, a + {op}, lo, hi) == CallsIn(log, a, lo, hi) + CallsIn(log, {op}, lo, hi)
  {
    if log != [] {
      CallsJoined(log[..|log| - 1], a, op, lo, hi);
    }
  }

  lemma {:induction false} NoCalls(log: seq<Timed>, lo: int, hi: int)
    ensures CallsIn(log, {}, lo, hi) == 0
  {
    if log != [] {
      NoCalls(log[..|log| - 1], lo, hi);
    }
  }

  lemma {:induction false} NothingCounted(series: seq<Series>, entityType: string)
    ensures Counted(series, entityType, []) == []
  {
    if series != [] {
      NothingCounted(series[..|series| - 1], entityType);
    }
  }

  ghost function OpSet(ops: seq<string>): set<string> { set op | op in ops }

  /** A bucket of the row holds the calls of all its operations in it. */
  lemma {:induction false} BucketIsCalls(series: seq<Series>, entityType: string, ops: seq<string>, log: seq<Timed>, g: Grid, at: int)
    requires Reads(series, entityType, log, g) && OnGrid(g, at) && Sorting.Once(ops)
    ensures CountAt(Counted(series, entityType, ops), at) == CallsIn(log, OpSet(ops), at, at + g.step)
    decreases |ops|
  {
    hide CountAt, Counted, CallsIn, AllOnGrid, Held;
    if ops == [] {
      NothingCounted(series, entityType);
      NoneAt(at);
      NoCalls(log, at, at + g.step);
      assert OpSet(ops) == {};
    } else {
      var rest, op := ops[..|ops| - 1], ops[|ops| - 1];
      assert ops == rest + [op] && op !in rest;
      BucketIsCalls(series, entityType, rest, log, g, at);
      OneMoreOperation(series, entityType, rest, op, at);
      CallsJoined(log, OpSet(rest), op, at, at + g.step);
      assert OpSet(ops) == OpSet(rest) + {op};
    }
  }

  lemma {:induction false} RowOnGrid(series: seq<Series>, entityType: string, ops: seq<string>, g: Grid)
    requires forall i | 0 <= i < |series| && series[i].entityType == entityType :: AllOnGrid(series[i].buckets, g)
    ensures AllOnGrid(Counted(series, entityType, ops), g)
  {
    hide OnGrid;
    if series != [] {
      RowOnGrid(series[..|series| - 1], entityType, ops, g);
    }
  }

  // ----- over the buckets of a day

  lemma {:induction false} CallsSplit(log: seq<Timed>, ops: set<string>, lo: int, mid: int, hi: int)
    requires lo <= mid <= hi
    ensures CallsIn(log, ops, lo, hi) == CallsIn(log, ops, lo, mid) + CallsIn(log, ops, mid, hi)
  {
    if log != [] {
      CallsSplit(log[..|log| - 1], ops, lo, mid, hi);
    }
  }

  lemma {:induction false} NoTime(log: seq<Timed>, ops: set<string>, at: int)
    ensures CallsIn(log, ops, at, at) == 0
  {
    if log != [] {
      NoTime(log[..|log| - 1], ops, at);
    }
  }

  /** `n` whole buckets up to the grid's end hold the calls from the first's start to the end. */
  lemma {:induction false} BucketsAreCalls(series: seq<Series>, entityType: string, ops: seq<string>, log: seq<Timed>, g: Grid, at: int, n: nat)
    requires Reads(series, entityType, log, g) && Sorting.Once(ops) && g.step > 0 && OnGrid(g, at) && at + n * g.step == g.until
    ensures BucketSum(Counted(series, entityType, ops), at, g.until, g.step) == CallsIn(log, OpSet(ops), at, g.until)
    decreases n
  {
    hide Counted, CallsIn, CountAt, Reads;
    if n == 0 {
      NoTime(log, OpSet(ops), at);
    } else {
      assert n * g.step == g.step + (n - 1) * g.step && (n - 1) * g.step >= 0;
      var i: int :| at == g.since + i * g.step;
      assert at + g.step == g.since + (i + 1) * g.step;
      BucketIsCalls(series, entityType, ops, log, g, at);
      BucketsAreCalls(series, entityType, ops, log, g, at + g.step, n - 1);
      CallsSplit(log, OpSet(ops), at, at + g.step, g.until);
    }
  }

  lemma {:induction false} CallsMove(lc: Lifecycle, rows: map<string, Row>, key: string, log: seq<Timed>, lo: int, hi: int)
    requires Answer(lc, rows) && !NameClash(lc) && key in rows && Accepted(lc, log)
    ensures CallsIn(log, rows[key].operations, lo, hi) == MovesIn(log, rows[key].operations, rows[key].state, lo, hi)
    decreases |log|
  {
    hide Answer, NameClash, Allows, Mentions;
    if log != [] {
      var t := log[|log| - 1];
      CallsMove(lc, rows, key, log[..|log| - 1], lo, hi);
      if t.call.op in rows[key].operations {
        CallIsMove(lc, rows, key, t.call);
      }
    }
  }

  /** A whole number of days before the end is a grid edge, so many buckets back. */
  lemma DayEdge(since: int, until: int, bucketMinutes: int, days: nat) returns (n: nat)
    requires bucketMinutes > 0 && DAY % (bucketMinutes * MINUTE) == 0
    ensures var g := GridOf(since, until, bucketMinutes);
            && g.step > 0 && OnGrid(g, g.until - days * DAY) && (g.until - days * DAY) + n * g.step == g.until
  {
    var g := GridOf(since, until, bucketMinutes);
    var span := if g.until - since >= 2 * DAY then g.until - since else 2 * DAY;
    var buckets := CeilDiv(span, g.step);
    var perDay := DAY / g.step;
    assert DAY == perDay * g.step && perDay >= 0;
    n := days * perDay;
    assert days * DAY == n * g.step by { assert days * (perDay * g.step) == (days * perDay) * g.step; }
    assert g.until - days * DAY == g.since + (buckets - n) * g.step;
  }

  /** From an edge of the grid on, a row counts its operations' calls. */
  lemma EdgeIsCalls(series: seq<Series>, entityType: string, ops: seq<string>, log: seq<Timed>, g: Grid, at: int, n: nat)
    requires Reads(series, entityType, log, g) && Sorting.Once(ops) && g.step > 0 && OnGrid(g, at) && at + n * g.step == g.until
    ensures SumFrom(Counted(series, entityType, ops), at) == CallsIn(log, OpSet(ops), at, g.until)
  {
    hide Counted, CallsIn, SumFrom, BucketSum, AllOnGrid, OnGrid, CountAt;
    RowOnGrid(series, entityType, ops, g);
    EdgeSumsBuckets(Counted(series, entityType, ops), g, at);
    BucketsAreCalls(series, entityType, ops, log, g, at, n);
  }

  /**
   * The last days' count of a row is the number of moves its operations made into its state on them:
   * with `days` one, `today`; with two, `today` and `yesterday` together.
   */
  lemma DaysAreMoves(lc: Lifecycle, rows: map<string, Row>, key: string, ops: seq<string>, log: seq<Timed>, series: seq<Series>, entityType: string,
                     since: int, until: int, bucketMinutes: int, days: nat)
    requires Answer(lc, rows) && !NameClash(lc) && key in rows && Sorting.Listed(rows[key].operations, ops) && Accepted(lc, log)
    requires bucketMinutes > 0 && DAY % (bucketMinutes * MINUTE) == 0
    requires Reads(series, entityType, log, GridOf(since, until, bucketMinutes))
    ensures var g := GridOf(since, until, bucketMinutes);
            SumFrom(Counted(series, entityType, ops), g.until - days * DAY)
            == MovesIn(log, rows[key].operations, rows[key].state, g.until - days * DAY, g.until)
  {
    hide Answer, NameClash, Accepted, Counted, CallsIn, MovesIn, SumFrom, Reads, GridOf, OnGrid;
    var g := GridOf(since, until, bucketMinutes);
    var n := DayEdge(since, until, bucketMinutes, days);
    EdgeIsCalls(series, entityType, ops, log, g, g.until - days * DAY, n);
    assert OpSet(ops) == rows[key].operations;
    CallsMove(lc, rows, key, log, g.until - days * DAY, g.until);
  }
}
