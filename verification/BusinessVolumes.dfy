/** Pulse's "Business today": the read's grid, and one row's counts folded onto it. Instants are milliseconds. */
module BusinessVolumes {

  const MINUTE := 60_000
  const DAY := 24 * 60 * MINUTE

  function CeilDiv(a: int, b: int): (q: int)
    requires b > 0
    ensures (q - 1) * b < a <= q * b
  {
    -((-a) / b)
  }

  datatype Grid = Grid(since: int, until: int, step: int)

  function GridOf(since: int, until: int, bucketMinutes: int): Grid
    requires bucketMinutes > 0
  {
    var end := CeilDiv(until, 1000) * 1000;
    var span := end - since;
    var step := bucketMinutes * MINUTE;
    var buckets := CeilDiv(if span >= 2 * DAY then span else 2 * DAY, step);
    Grid(end - buckets * step, end, step)
  }

  ghost predicate OnGrid(g: Grid, at: int) { exists i: int :: at == g.since + i * g.step }

  lemma PositiveMultiple(n: int, step: int)
    requires step > 0 && n * step > 0
    ensures n * step >= step
  {
    assert n <= 0 ==> n * step <= 0;
    assert (n - 1) * step >= 0;
  }

  /** The grid ends at the whole second at or after `until`, and reaches back past the window and both days, by less than a bucket. */
  lemma GridCovers(since: int, until: int, bucketMinutes: int)
    requires bucketMinutes > 0
    ensures var g := GridOf(since, until, bucketMinutes);
            && g.until % 1000 == 0 && until <= g.until < until + 1000
            && g.since <= since && g.since <= g.until - 2 * DAY
            && (g.since + g.step > since || g.since + g.step > g.until - 2 * DAY)
  {
    var end := CeilDiv(until, 1000) * 1000;
    var step := bucketMinutes * MINUTE;
    var reach := if end - since >= 2 * DAY then end - since else 2 * DAY;
    var buckets := CeilDiv(reach, step);
    assert (buckets - 1) * step == buckets * step - step;
  }

  /** When the bucket divides a day, no bucket is split between today and yesterday, nor between yesterday and earlier. */
  lemma DaysOnEdges(since: int, until: int, bucketMinutes: int, at: int, days: int)
    requires bucketMinutes > 0 && DAY % (bucketMinutes * MINUTE) == 0
    requires OnGrid(GridOf(since, until, bucketMinutes), at)
    ensures var g := GridOf(since, until, bucketMinutes);
            at < g.until - days * DAY ==> at + g.step <= g.until - days * DAY
  {
    var g := GridOf(since, until, bucketMinutes);
    var i: int :| at == g.since + i * g.step;
    var perDay := DAY / g.step;
    assert DAY == perDay * g.step;
    var span := if g.until - since >= 2 * DAY then g.until - since else 2 * DAY;
    var buckets := CeilDiv(span, g.step);
    assert g.since == g.until - buckets * g.step;
    var n := buckets - i - days * perDay;
    assert days * DAY == (days * perDay) * g.step;
    assert g.until - days * DAY - at == n * g.step by {
      assert n * g.step == buckets * g.step - i * g.step - (days * perDay) * g.step;
    }
    if n * g.step > 0 {
      PositiveMultiple(n, g.step);
    }
  }

  // ----- one row

  datatype Sample = Sample(at: int, count: nat)
  datatype Series = Series(entityType: string, operation: string, buckets: seq<Sample>)

  /** The samples one row counts, in reading order. */
  function Counted(series: seq<Series>, entityType: string, operations: seq<string>): seq<Sample> {
    if series == [] then []
    else
      var last := series[|series| - 1];
      Counted(series[..|series| - 1], entityType, operations)
      + if last.entityType == entityType && last.operation in operations then last.buckets else []
  }

  /** A row's samples are made up series by series. */
  lemma {:induction false} CountedJoined(a: seq<Series>, b: seq<Series>, entityType: string, operations: seq<string>)
    ensures Counted(a + b, entityType, operations) == Counted(a, entityType, operations) + Counted(b, entityType, operations)
  {
    if b == [] {
      assert a + b == a;
    } else {
      var rest, last := b[..|b| - 1], b[|b| - 1];
      CountedJoined(a, rest, entityType, operations);
      assert (a + b)[..|a + b| - 1] == a + rest && (a + b)[|a + b| - 1] == last;
      CountedNext(a + rest, last, a + b, entityType, operations);
      CountedNext(rest, last, b, entityType, operations);
    }
  }

  lemma CountedNext(rest: seq<Series>, last: Series, all: seq<Series>, entityType: string, operations: seq<string>)
    requires all != [] && all[..|all| - 1] == rest && all[|all| - 1] == last
    ensures Counted(all, entityType, operations)
            == Counted(rest, entityType, operations) + if last.entityType == entityType && last.operation in operations then last.buckets else []
  {
  }

  /** A series of another entity type or operation changes nothing for a row; one of its own adds exactly its buckets, in place. */
  lemma CountsItsOwn(a: seq<Series>, x: Series, b: seq<Series>, entityType: string, operations: seq<string>)
    ensures var without, with_ := Counted(a + b, entityType, operations), Counted(a + [x] + b, entityType, operations);
            if x.entityType == entityType && x.operation in operations
            then with_ == Counted(a, entityType, operations) + x.buckets + Counted(b, entityType, operations)
            else with_ == without
  {
    CountedJoined(a, b, entityType, operations);
    CountedJoined(a + [x], b, entityType, operations);
    CountedJoined(a, [x], entityType, operations);
    assert [x][..0] == [];
  }

  /** Moves at or after `lo`, and moves in the bucket that starts exactly at `at`. */
  ghost function SumFrom(samples: seq<Sample>, lo: int): nat {
    if samples == [] then 0
    else SumFrom(samples[..|samples| - 1], lo) + if samples[|samples| - 1].at >= lo then samples[|samples| - 1].count else 0
  }

  ghost function CountAt(samples: seq<Sample>, at: int): nat {
    if samples == [] then 0
    else CountAt(samples[..|samples| - 1], at) + if samples[|samples| - 1].at == at then samples[|samples| - 1].count else 0
  }

  /** A map of counts with its keys in insertion order. */
  datatype Bins = Bins(order: seq<int>, counts: map<int, nat>)

  ghost predicate Distinct(order: seq<int>) { forall i, j | 0 <= i < j < |order| :: order[i] != order[j] }

  ghost predicate ValidBins(b: Bins) { Distinct(b.order) && forall at :: at in b.order <==> at in b.counts }

  function Add(b: Bins, s: Sample): Bins {
    if s.at in b.counts then b.(counts := b.counts[s.at := b.counts[s.at] + s.count])
    else Bins(b.order + [s.at], b.counts[s.at := s.count])
  }

  ghost function BinsFrom(order: seq<int>, counts: map<int, nat>, lo: int): nat
    requires forall at | at in order :: at in counts
  {
    if order == [] then 0
    else BinsFrom(order[..|order| - 1], counts, lo) + if order[|order| - 1] >= lo then counts[order[|order| - 1]] else 0
  }

  lemma {:induction false} BinsUpdated(order: seq<int>, counts: map<int, nat>, at: int, n: nat, lo: int)
    requires Distinct(order) && (forall a | a in order :: a in counts) && at in counts
    ensures BinsFrom(order, counts[at := counts[at] + n], lo) == BinsFrom(order, counts, lo) + if at in order && at >= lo then n else 0
  {
    if order != [] {
      var rest, last := order[..|order| - 1], order[|order| - 1];
      assert order == rest + [last];
      BinsUpdated(rest, counts, at, n, lo);
    }
  }

  lemma {:induction false} BinsExtended(order: seq<int>, counts: map<int, nat>, at: int, n: nat, lo: int)
    requires (forall a | a in order :: a in counts) && at !in order
    ensures BinsFrom(order, counts[at := n], lo) == BinsFrom(order, counts, lo)
  {
    if order != [] {
      BinsExtended(order[..|order| - 1], counts, at, n, lo);
    }
  }

  lemma AddSums(b: Bins, s: Sample, lo: int)
    requires ValidBins(b)
    ensures ValidBins(Add(b, s))
    ensures BinsFrom(Add(b, s).order, Add(b, s).counts, lo) == BinsFrom(b.order, b.counts, lo) + if s.at >= lo then s.count else 0
  {
    if s.at in b.counts {
      BinsUpdated(b.order, b.counts, s.at, s.count, lo);
    } else {
      BinsExtended(b.order, b.counts, s.at, s.count, lo);
      assert (b.order + [s.at])[..|b.order|] == b.order;
    }
  }

  /** The bins hold exactly the samples folded so far. */
  ghost predicate Folded(b: Bins, samples: seq<Sample>) {
    && ValidBins(b)
    && (forall lo :: BinsFrom(b.order, b.counts, lo) == SumFrom(samples, lo))
    && (forall at :: CountAt(samples, at) == if at in b.counts then b.counts[at] else 0)
  }

  lemma FoldOne(b: Bins, samples: seq<Sample>, s: Sample)
    requires Folded(b, samples)
    ensures Folded(Add(b, s), samples + [s])
  {
    assert (samples + [s])[..|samples|] == samples;
    AddSums(b, s, 0);
    forall lo ensures BinsFrom(Add(b, s).order, Add(b, s).counts, lo) == SumFrom(samples + [s], lo) { AddSums(b, s, lo); }
  }

  method FoldSeries(b: Bins, buckets: seq<Sample>, ghost samples: seq<Sample>) returns (b': Bins)
    requires Folded(b, samples)
    ensures Folded(b', samples + buckets)
  {
    b' := b;
    assert samples + buckets[..0] == samples;
    for i := 0 to |buckets|
      invariant Folded(b', samples + buckets[..i])
    {
      FoldOne(b', samples + buckets[..i], buckets[i]);
      assert samples + buckets[..i + 1] == samples + buckets[..i] + [buckets[i]];
      b' := Add(b', buckets[i]);
    }
    assert buckets[..|buckets|] == buckets;
  }

  /** The grid's buckets from `at` to its end, less those over by `from`, each with its count or zero. */
  ghost function Shown(samples: seq<Sample>, at: int, end: int, step: int, from: int): seq<Sample>
    requires step > 0
    decreases end - at
  {
    if at >= end then []
    else (if at + step > from then [Sample(at, CountAt(samples, at))] else []) + Shown(samples, at + step, end, step, from)
  }

  /** The `k`th bucket of a grid. */
  ghost function Edge(since: int, step: int, k: nat): int { since + k * step }

  ghost predicate InSeries(samples: seq<Sample>, since: int, end: int, step: int, from: int, s: Sample) {
    exists k: nat :: Edge(since, step, k) == s.at && s.at < end && s.at + step > from && s.count == CountAt(samples, s.at)
  }

  lemma EdgeAfter(since: int, step: int, k: nat)
    ensures Edge(since, step, k + 1) == Edge(since + step, step, k) && Edge(since, step, 0) == since
  {
    assert (k + 1) * step == k * step + step;
  }

  /** The series holds exactly the buckets of the grid that begin before its end and end after the window's start. */
  lemma {:induction false} ShownExactly(samples: seq<Sample>, since: int, end: int, step: int, from: int, s: Sample)
    requires step > 0
    ensures s in Shown(samples, since, end, step, from) <==> InSeries(samples, since, end, step, from, s)
    decreases end - since
  {
    hide CountAt, Edge, InSeries;
    InSeriesNext(samples, since, end, step, from, s);
    if since < end {
      ShownExactly(samples, since + step, end, step, from, s);
    }
  }

  lemma InSeriesNext(samples: seq<Sample>, since: int, end: int, step: int, from: int, s: Sample)
    requires step > 0
    ensures InSeries(samples, since, end, step, from, s)
            <==> since < end && ((since + step > from && s == Sample(since, CountAt(samples, since))) || InSeries(samples, since + step, end, step, from, s))
  {
    hide CountAt, Edge;
    EdgeAfter(since, step, 0);
    if InSeries(samples, since, end, step, from, s) {
      var k: nat :| Edge(since, step, k) == s.at && s.at < end && s.at + step > from && s.count == CountAt(samples, s.at);
      EdgeGrows(since, step, k);
      if k > 0 {
        EdgeAfter(since, step, k - 1);
        assert InSeries(samples, since + step, end, step, from, s);
      }
    }
    if InSeries(samples, since + step, end, step, from, s) {
      var k: nat :| Edge(since + step, step, k) == s.at && s.at < end && s.at + step > from && s.count == CountAt(samples, s.at);
      EdgeAfter(since, step, k);
      EdgeGrows(since, step, k + 1);
    }
  }

  ghost predicate Ascends(samples: seq<Sample>, least: int) {
    forall i | 0 <= i < |samples| :: samples[i].at >= least && (i > 0 ==> samples[i - 1].at < samples[i].at)
  }

  lemma AscendsAhead(first: Sample, rest: seq<Sample>, step: int)
    requires step > 0 && Ascends(rest, first.at + step)
    ensures Ascends([first] + rest, first.at) && Ascends(rest, first.at)
  {
    var all := [first] + rest;
    assert forall i | 0 < i < |all| :: all[i] == rest[i - 1];
  }

  lemma {:induction false} ShownInOrder(samples: seq<Sample>, since: int, end: int, step: int, from: int)
    requires step > 0
    ensures Ascends(Shown(samples, since, end, step, from), since)
    decreases end - since
  {
    if since >= end {
      assert Ascends([], since);
    } else {
      hide CountAt, Ascends;
      ShownInOrder(samples, since + step, end, step, from);
      var rest := Shown(samples, since + step, end, step, from);
      AscendsAhead(Sample(since, CountAt(samples, since)), rest, step);
      assert [] + rest == rest;
    }
  }

  lemma EdgeGrows(since: int, step: int, k: nat)
    requires step > 0
    ensures Edge(since, step, k) >= since
  {
  }

  /** One row of `businessRows`: the two day counts and the card's series. */
  method RowCounts(series: seq<Series>, entityType: string, operations: seq<string>, since: int, end: int, step: int, from: int)
    returns (today: nat, yesterday: nat, buckets: seq<Sample>)
    requires step > 0
    ensures var samples := Counted(series, entityType, operations);
            && today == SumFrom(samples, end - DAY)
            && today + yesterday == SumFrom(samples, end - 2 * DAY)
            && buckets == Shown(samples, since, end, step, from)
  {
    hide Folded, Counted, SumFrom, CountAt, BinsFrom, Shown;
    ghost var samples := Counted(series, entityType, operations);
    var bins := FoldAll(series, entityType, operations);
    today, yesterday := DaysOf(bins, end, samples);
    buckets := SeriesOf(bins, since, end, step, from, samples);
  }

  method FoldAll(series: seq<Series>, entityType: string, operations: seq<string>) returns (bins: Bins)
    ensures Folded(bins, Counted(series, entityType, operations))
  {
    bins := Bins([], map[]);
    assert series[..0] == [];
    for i := 0 to |series|
      invariant Folded(bins, Counted(series[..i], entityType, operations))
    {
      ghost var so := Counted(series[..i], entityType, operations);
      CountedNext(series[..i], series[i], series[..i + 1], entityType, operations);
      assert so + [] == so;
      if series[i].entityType == entityType && series[i].operation in operations {
        bins := FoldSeries(bins, series[i].buckets, so);
      }
    }
    assert series[..|series|] == series;
  }

  method DaysOf(bins: Bins, end: int, ghost samples: seq<Sample>) returns (today: nat, yesterday: nat)
    requires Folded(bins, samples)
    ensures today == SumFrom(samples, end - DAY) && today + yesterday == SumFrom(samples, end - 2 * DAY)
  {
    today, yesterday := DayCounts(bins, end);
  }

  method SeriesOf(bins: Bins, since: int, end: int, step: int, from: int, ghost samples: seq<Sample>) returns (buckets: seq<Sample>)
    requires step > 0 && Folded(bins, samples)
    ensures buckets == Shown(samples, since, end, step, from)
  {
    hide CountAt, SumFrom, BinsFrom;
    buckets := [];
    var at := since;
    while at < end
      invariant buckets + Shown(samples, at, end, step, from) == Shown(samples, since, end, step, from)
      decreases end - at
    {
      if at + step > from {
        buckets := buckets + [Sample(at, if at in bins.counts then bins.counts[at] else 0)];
      }
      at := at + step;
    }
  }

  method DayCounts(bins: Bins, end: int) returns (today: nat, yesterday: nat)
    requires ValidBins(bins)
    ensures today == BinsFrom(bins.order, bins.counts, end - DAY)
    ensures today + yesterday == BinsFrom(bins.order, bins.counts, end - 2 * DAY)
  {
    today, yesterday := 0, 0;
    for i := 0 to |bins.order|
      invariant today == BinsFrom(bins.order[..i], bins.counts, end - DAY)
      invariant today + yesterday == BinsFrom(bins.order[..i], bins.counts, end - 2 * DAY)
    {
      assert bins.order[..i + 1][..i] == bins.order[..i];
      var at := bins.order[i];
      if at >= end - DAY {
        today := today + bins.counts[at];
      } else if at >= end - 2 * DAY {
        yesterday := yesterday + bins.counts[at];
      }
    }
    assert bins.order[..|bins.order|] == bins.order;
  }

  // ----- the day counts are sums of whole buckets

  ghost function BucketSum(samples: seq<Sample>, at: int, end: int, step: int): nat
    requires step > 0
    decreases end - at
  {
    if at >= end then 0 else CountAt(samples, at) + BucketSum(samples, at + step, end, step)
  }

  ghost predicate AllOnGrid(samples: seq<Sample>, g: Grid) {
    forall i | 0 <= i < |samples| :: OnGrid(g, samples[i].at) && samples[i].at < g.until
  }

  lemma {:induction false} SumSteps(samples: seq<Sample>, g: Grid, at: int)
    requires g.step > 0 && AllOnGrid(samples, g) && OnGrid(g, at)
    ensures SumFrom(samples, at) == CountAt(samples, at) + SumFrom(samples, at + g.step)
  {
    if samples != [] {
      SumSteps(samples[..|samples| - 1], g, at);
      var s := samples[|samples| - 1];
      assert OnGrid(g, s.at);
      var i: int :| s.at == g.since + i * g.step;
      var j: int :| at == g.since + j * g.step;
      assert s.at - at == (i - j) * g.step;
      if (i - j) * g.step > 0 {
        PositiveMultiple(i - j, g.step);
      }
    }
  }

  lemma {:induction false} NothingAfter(samples: seq<Sample>, g: Grid, at: int)
    requires AllOnGrid(samples, g) && at >= g.until
    ensures SumFrom(samples, at) == 0
  {
    if samples != [] {
      NothingAfter(samples[..|samples| - 1], g, at);
    }
  }

  /** From a grid edge on, the moves counted are those of the whole buckets from there to the end. */
  lemma {:induction false} EdgeSumsBuckets(samples: seq<Sample>, g: Grid, at: int)
    requires g.step > 0 && AllOnGrid(samples, g) && OnGrid(g, at)
    ensures SumFrom(samples, at) == BucketSum(samples, at, g.until, g.step)
    decreases g.until - at
  {
    if at >= g.until {
      NothingAfter(samples, g, at);
    } else {
      SumSteps(samples, g, at);
      var i: int :| at == g.since + i * g.step;
      assert at + g.step == g.since + (i + 1) * g.step;
      EdgeSumsBuckets(samples, g, at + g.step);
    }
  }

  /** So today's count is the sum of the day's own buckets, and both days' of theirs. */
  lemma DayIsItsBuckets(since: int, until: int, bucketMinutes: int, samples: seq<Sample>, days: int)
    requires bucketMinutes > 0 && DAY % (bucketMinutes * MINUTE) == 0
    requires AllOnGrid(samples, GridOf(since, until, bucketMinutes))
    ensures var g := GridOf(since, until, bucketMinutes);
            SumFrom(samples, g.until - days * DAY) == BucketSum(samples, g.until - days * DAY, g.until, g.step)
  {
    var g := GridOf(since, until, bucketMinutes);
    var span := if g.until - since >= 2 * DAY then g.until - since else 2 * DAY;
    var buckets := CeilDiv(span, g.step);
    var perDay := DAY / g.step;
    assert days * DAY == (days * perDay) * g.step by { assert DAY == perDay * g.step; }
    assert g.until - days * DAY == g.since + (buckets - days * perDay) * g.step;
    EdgeSumsBuckets(samples, g, g.until - days * DAY);
  }
}
