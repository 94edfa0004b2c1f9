/** `lineChanges`: the forward search, its trace, and the walk back to the changed lines. */
module LineDiff {
  import opened Wrappers
  import opened EditGraph
  import opened EditScript
  import Text

  const LINE_DIFF_MAX_EDITS := 2_000

  /** The numbers of the new lines a script inserts, counted from 1, and how many new lines precede each run it deletes. */
  datatype LineChanges = LineChanges(changed: set<nat>, removedAfter: seq<nat>)

  /** Round `d`'s furthest points, by how many of its edits are insertions. */
  ghost function Points<T>(a: seq<T>, b: seq<T>, d: nat): (points: seq<nat>) {
    seq(d + 1, j requires 0 <= j <= d => Furthest(a, b, d, j))
  }

  /** `v`, read at `mid + k` for diagonal `k`, holds the points of one round from `from` on. */
  ghost predicate Holds(v: seq<int>, mid: int, points: seq<nat>, from: nat) {
    && |points| <= mid + 1 && mid + |points| <= |v|
    && forall j | from <= j < |points| :: v[mid + |points| - 1 - 2 * j] == points[j]
  }

  /** What round `d` reads is in place: the round before it, or the zero the array starts with. */
  ghost predicate Ready<T>(a: seq<T>, b: seq<T>, v: seq<int>, offset: nat, d: nat) {
    && d < offset && offset + d + 1 < |v|
    && if d == 0 then v[offset + 1] == 0 else Holds(v, offset, Points(a, b, d - 1), 0)
  }

  ghost predicate TraceAt<T>(a: seq<T>, b: seq<T>, snapshot: seq<int>, d: nat) {
    |snapshot| == 2 * d + 1 && (d > 0 ==> Holds(snapshot, d, Points(a, b, d - 1), 0))
  }

  /** When the corner is `d` edits away, round `d` ends exactly on it. */
  lemma CornerReached<T>(a: seq<T>, b: seq<T>, d: nat) returns (j: nat)
    requires Distance(a, b, |a|, |b|) == d
    ensures j <= d && |a| - |b| == d - 2 * j && Furthest(a, b, d, j) == |a|
  {
    j := Parity(a, b, |a|, |b|);
    FurthestExact(a, b, d, j, |a|, |b|);
    var far := Furthest(a, b, d, j);
    var low: nat := far - |a| + |b|;
    FurthestReachable(a, b, d, j, far, low);
    Overshoot(a, b, far, low);
  }

  /** Reaching or passing the corner within `d` edits puts the corner within `d` edits. */
  lemma CornerWithin<T>(a: seq<T>, b: seq<T>, d: nat, j: nat, x: nat, y: nat)
    requires j <= d && x == Furthest(a, b, d, j) && x - y == d - 2 * j
    requires x >= |a| && y >= |b|
    ensures Distance(a, b, |a|, |b|) <= d
  {
    FurthestReachable(a, b, d, j, x, y);
    Overshoot(a, b, x, y);
  }

  lemma SnapshotHolds(v: seq<int>, offset: nat, d: nat, points: seq<nat>)
    requires d <= offset && offset + d < |v|
    requires Holds(v, offset, points, 0) && |points| <= d
    ensures Holds(v[offset - d..offset + d + 1], d, points, 0)
  {
    forall j | 0 <= j < |points|
      ensures v[offset - d..offset + d + 1][d + |points| - 1 - 2 * j] == points[j]
    {
      assert v[offset + |points| - 1 - 2 * j] == points[j];
    }
  }

  /** Rounds of alternate parity share the array without disturbing one another. */
  lemma StoreHolds(v: seq<int>, offset: nat, before: seq<nat>, points: seq<nat>, j: nat, v': seq<int>)
    requires j < |points| && Holds(v, offset, points, j + 1)
    requires v' == v[offset + |points| - 1 - 2 * j := points[j]]
    ensures Holds(v', offset, points, j)
    ensures |before| + 1 == |points| && Holds(v, offset, before, 0) ==> Holds(v', offset, before, 0)
  {
  }

  lemma PointRead<T>(a: seq<T>, b: seq<T>, v: seq<int>, mid: nat, d: nat, j: nat, at: int)
    requires j <= d <= mid && Holds(v, mid, Points(a, b, d), 0) && at == mid + d - 2 * j
    ensures 0 <= at < |v| && v[at] == Furthest(a, b, d, j)
  {
    assert Points(a, b, d)[j] == Furthest(a, b, d, j);
  }

  /** Read off the round before, the choice is the recurrence's, in the search and in the walk back. */
  lemma ChoiceAgrees<T>(a: seq<T>, b: seq<T>, v: seq<int>, mid: nat, d: nat, j: nat, down: bool)
    requires 0 < d && j <= d <= mid && mid + d < |v|
    requires Holds(v, mid, Points(a, b, d - 1), 0)
    requires down <==> j == d || (j != 0 && v[mid + d - 2 * j - 1] < v[mid + d - 2 * j + 1])
    ensures down == Down(a, b, d, j)
    ensures SlideStart(a, b, d, j) == if down then v[mid + d - 2 * j + 1] else v[mid + d - 2 * j - 1] + 1
  {
    hide Furthest, Slide;
    if j < d {
      PointRead(a, b, v, mid, d - 1, j, mid + d - 2 * j - 1);
    }
    if j > 0 {
      PointRead(a, b, v, mid, d - 1, j - 1, mid + d - 2 * j + 1);
    }
  }

  method SlideFrom<T(==)>(a: seq<T>, b: seq<T>, x0: nat, y0: nat) returns (x: nat, y: nat)
    ensures x == Slide(a, b, x0, y0) && y == y0 + x - x0
  {
    x, y := x0, y0;
    while x < |a| && y < |b| && a[x] == b[y]
      invariant x >= x0 && y == y0 + x - x0
      invariant Slide(a, b, x, y) == Slide(a, b, x0, y0)
    {
      x, y := x + 1, y + 1;
    }
  }

  /** One diagonal of one round: where the edit enters it, and how far the matching lines carry. */
  method Extend<T(==)>(a: seq<T>, b: seq<T>, v: array<int>, offset: nat, d: nat, k: int, ghost j: nat)
    returns (x: nat, y: nat)
    requires j <= d && k == d - 2 * j
    requires Ready(a, b, v[..], offset, d)
    ensures x == Furthest(a, b, d, j) && y == x - k
  {
    hide Furthest, Slide;
    var down := k == -(d as int) || (k != d && v[offset + k - 1] < v[offset + k + 1]);
    var start := if down then v[offset + k + 1] else v[offset + k - 1] + 1;
    if d > 0 {
      ChoiceAgrees(a, b, v[..], offset, d, j, down);
    }
    assert start == SlideStart(a, b, d, j);
    x, y := SlideFrom(a, b, start, start - k);
  }

  /** None of the round's points from `j = from` on is at or past the corner. */
  ghost predicate Missed<T>(a: seq<T>, b: seq<T>, d: nat, from: nat) {
    forall i: nat | from <= i <= d :: Furthest(a, b, d, i) < |a| || Furthest(a, b, d, i) - d + 2 * i < |b|
  }

  method Round<T(==)>(a: seq<T>, b: seq<T>, v: array<int>, offset: nat, d: nat) returns (found: bool)
    requires Ready(a, b, v[..], offset, d)
    requires Distance(a, b, |a|, |b|) >= d
    modifies v
    ensures found <==> Distance(a, b, |a|, |b|) == d
    ensures !found ==> Holds(v[..], offset, Points(a, b, d), 0)
  {
    hide Furthest, Slide, Distance;
    var k := -(d as int);
    ghost var j: int := d;
    found := false;
    while k <= d
      invariant -1 <= j <= d && k == d - 2 * j
      invariant Ready(a, b, v[..], offset, d)
      invariant Holds(v[..], offset, Points(a, b, d), j + 1)
      invariant Missed(a, b, d, j + 1)
      decreases d - k
    {
      var x, y := Extend(a, b, v, offset, d, k, j);
      ghost var before := v[..];
      v[offset + k] := x;
      StoreHolds(before, offset, if d == 0 then [] else Points(a, b, d - 1), Points(a, b, d), j, v[..]);
      if x >= |a| && y >= |b| {
        CornerWithin(a, b, d, j, x, y);
        found := true;
        return;
      }
      k := k + 2;
      j := j - 1;
    }
    if Distance(a, b, |a|, |b|) == d {
      var i := CornerReached(a, b, d);
      assert false;
    }
  }

  /** Rounds until the corner is reached or `limit` is spent, with each round's points kept. */
  method Search<T(==)>(a: seq<T>, b: seq<T>, limit: nat) returns (found: int, trace: seq<seq<int>>)
    ensures found == -1 <==> Distance(a, b, |a|, |b|) > limit
    ensures found != -1 ==> found == Distance(a, b, |a|, |b|) && |trace| == found + 1
    ensures forall d | 0 <= d < |trace| :: TraceAt(a, b, trace[d], d)
  {
    var offset := limit + 1;
    var v := new int[2 * limit + 3](_ => 0);
    trace := [];
    found := -1;
    var d := 0;
    while d <= limit && found < 0
      invariant 0 <= d <= limit + 1 && found >= -1
      invariant found < 0 ==> |trace| == d && Distance(a, b, |a|, |b|) >= d
      invariant found < 0 && d <= limit ==> Ready(a, b, v[..], offset, d)
      invariant found >= 0 ==> found == Distance(a, b, |a|, |b|) <= limit && |trace| == found + 1
      invariant forall e | 0 <= e < |trace| :: TraceAt(a, b, trace[e], e)
      decreases limit - d, found < 0
    {
      trace := trace + [v[offset - d..offset + d + 1]];
      if d > 0 { SnapshotHolds(v[..], offset, d, Points(a, b, d - 1)); }
      var hit := Round(a, b, v, offset, d);
      if hit {
        found := d;
      } else {
        d := d + 1;
      }
    }
  }

  /** `s` is what the walk back has undone so far: from `(x, y)` to the corner at the trace's prices. */
  ghost predicate Walked<T>(a: seq<T>, b: seq<T>, s: seq<Move>, x: nat, y: nat, changed: set<nat>, removed: set<nat>) {
    Leads(a, b, s, x, y) && changed == Inserted(s, y) && removed == RemovedAt(s, y)
  }

  lemma Prepend<T>(a: seq<T>, b: seq<T>, m: Move, s: seq<Move>, x: nat, y: nat, changed: set<nat>, removed: set<nat>)
    requires var x', y' := x + (if m.Insert? then 0 else 1), y + (if m.Delete? then 0 else 1);
             Walked(a, b, s, x', y', changed, removed)
    requires m.Keep? ==> Same(a, b, x, y)
    ensures x <= |a| && y <= |b|
    ensures var changed', removed' := if m.Insert? then {y + 1} + changed else changed, if m.Delete? then {y} + removed else removed;
            Walked(a, b, [m] + s, x, y, changed', removed')
    ensures Cost([m] + s) == Cost(s) + if m.Keep? then 0 else 1
  {
    assert ([m] + s)[1..] == s;
    Bounds(a, b, s, x + (if m.Insert? then 0 else 1), y + (if m.Delete? then 0 else 1));
  }

  /** Undoing the matching lines of one round, back to where its edit entered the diagonal. */
  method UndoSlide<T>(a: seq<T>, b: seq<T>, x0: nat, y0: nat, x: nat, y: nat, ghost s: seq<Move>,
                      ghost changed: set<nat>, ghost removed: set<nat>)
    returns (x': nat, y': nat, ghost s': seq<Move>)
    requires x == Slide(a, b, x0, y0) && y == y0 + x - x0
    requires Walked(a, b, s, x, y, changed, removed)
    ensures x' == x0 && y' == y0
    ensures Walked(a, b, s', x', y', changed, removed) && Cost(s') == Cost(s)
  {
    x', y', s' := x, y, s;
    while x' > x0 && y' > y0
      invariant x0 <= x' <= x && y' == y0 + x' - x0
      invariant Walked(a, b, s', x', y', changed, removed) && Cost(s') == Cost(s)
    {
      SlideSame(a, b, x0, y0, x' - 1);
      Prepend(a, b, Keep, s', x' - 1, y' - 1, changed, removed);
      x', y', s' := x' - 1, y' - 1, [Keep] + s';
    }
  }

  ghost predicate AtFurthest<T>(a: seq<T>, b: seq<T>, d: nat, j: nat, x: int, y: int) {
    j <= d && y >= 0 && x - y == d - 2 * j && x == Furthest(a, b, d, j)
  }

  /** A point entered by an insertion: the point before it, and the slide between. */
  lemma BackDown<T>(a: seq<T>, b: seq<T>, d: nat, j: nat, x: nat, y: nat, prevX: int, prevY: int)
    requires 0 < d && AtFurthest(a, b, d, j, x, y) && Down(a, b, d, j)
    requires prevX == SlideStart(a, b, d, j) && prevX - prevY == x - y + 1
    ensures j > 0 && AtFurthest(a, b, d - 1, j - 1, prevX, prevY)
    ensures x == Slide(a, b, prevX, prevY + 1)
  {
    assert prevY + 1 == prevX - d + 2 * j;
  }

  /** A point entered by a deletion. */
  lemma BackRight<T>(a: seq<T>, b: seq<T>, d: nat, j: nat, x: nat, y: nat, prevX: int, prevY: int)
    requires 0 < d && AtFurthest(a, b, d, j, x, y) && !Down(a, b, d, j)
    requires prevX + 1 == SlideStart(a, b, d, j) && prevX - prevY == x - y - 1
    ensures j < d && AtFurthest(a, b, d - 1, j, prevX, prevY)
    ensures x == Slide(a, b, prevX + 1, prevY)
  {
    assert prevY == prevX + 1 - d + 2 * j;
  }

  /** The edit that led to a round's point, read off the snapshot, and the point it came from. */
  method EditBefore<T>(a: seq<T>, b: seq<T>, d: nat, snapshot: seq<int>, ghost j: nat, x: nat, y: nat)
    returns (down: bool, prevX: nat, prevY: nat)
    requires 0 < d && TraceAt(a, b, snapshot, d) && AtFurthest(a, b, d, j, x, y)
    ensures down ==> j > 0 && AtFurthest(a, b, d - 1, j - 1, prevX, prevY) && x == Slide(a, b, prevX, prevY + 1)
    ensures !down ==> j < d && AtFurthest(a, b, d - 1, j, prevX, prevY) && x == Slide(a, b, prevX + 1, prevY)
  {
    hide Furthest, Slide, SlideStart, Down, Points;
    var k := x - y;
    assert -(d as int) <= k <= d;
    down := k == -(d as int) || (k != d && snapshot[k - 1 + d] < snapshot[k + 1 + d]);
    var prevK := if down then k + 1 else k - 1;
    var at := snapshot[prevK + d];
    ChoiceAgrees(a, b, snapshot, d, d, j, down);
    if down {
      BackDown(a, b, d, j, x, y, at, at - prevK);
    } else {
      BackRight(a, b, d, j, x, y, at, at - prevK);
    }
    prevX, prevY := at, at - prevK;
  }

  /** One round undone: its slide, then its edit, to the point the round before had reached. */
  method WalkRound<T>(a: seq<T>, b: seq<T>, d: nat, snapshot: seq<int>, ghost j: nat, x: nat, y: nat,
                      changed: set<nat>, removed: set<nat>, ghost s: seq<Move>)
    returns (x': nat, y': nat, changed': set<nat>, removed': set<nat>, ghost j': nat, ghost s': seq<Move>)
    requires 0 < d && TraceAt(a, b, snapshot, d) && AtFurthest(a, b, d, j, x, y)
    requires Walked(a, b, s, x, y, changed, removed)
    ensures AtFurthest(a, b, d - 1, j', x', y')
    ensures Walked(a, b, s', x', y', changed', removed') && Cost(s') == Cost(s) + 1
  {
    hide Furthest, Slide, Points, Leads, Inserted, RemovedAt, Cost;
    var down, prevX, prevY := EditBefore(a, b, d, snapshot, j, x, y);
    if down {
      x', y', s' := UndoSlide(a, b, prevX, prevY + 1, x, y, s, changed, removed);
      Prepend(a, b, Insert, s', prevX, prevY, changed, removed);
      changed', removed', j', s' := {prevY + 1} + changed, removed, j - 1, [Insert] + s';
    } else {
      x', y', s' := UndoSlide(a, b, prevX + 1, prevY, x, y, s, changed, removed);
      Prepend(a, b, Delete, s', prevX, prevY, changed, removed);
      changed', removed', j', s' := changed, {prevY} + removed, j, [Delete] + s';
    }
    x', y' := prevX, prevY;
  }

  /** The trace walked back from the corner: one edit per round. */
  method WalkBack<T>(a: seq<T>, b: seq<T>, found: nat, trace: seq<seq<int>>)
    returns (changed: set<nat>, removed: set<nat>, ghost s: seq<Move>)
    requires found == Distance(a, b, |a|, |b|) && |trace| == found + 1
    requires forall d | 0 <= d < |trace| :: TraceAt(a, b, trace[d], d)
    ensures IsScript(a, b, s) && Cost(s) == found
    ensures changed == Inserted(s, 0) && removed == RemovedAt(s, 0)
  {
    hide Furthest, Slide, Points, Distance;
    changed, removed, s := {}, {}, [];
    var x: nat, y: nat := |a|, |b|;
    ghost var j: nat := CornerReached(a, b, found);
    var d := found;
    while d > 0
      invariant 0 <= d <= found
      invariant AtFurthest(a, b, d, j, x, y)
      invariant Walked(a, b, s, x, y, changed, removed) && Cost(s) == found - d
    {
      assert TraceAt(a, b, trace[d], d);
      x, y, changed, removed, j, s := WalkRound(a, b, d, trace[d], j, x, y, changed, removed, s);
      d := d - 1;
    }
    assert SlideStart(a, b, 0, 0) == 0;
    x, y, s := UndoSlide(a, b, 0, 0, x, y, s, changed, removed);
  }

  ghost predicate Ascending(s: seq<nat>) { forall i, j | 0 <= i < j < |s| :: s[i] < s[j] }

  /** The members of a set of line numbers, in ascending order. */
  method Sorted(s: set<nat>, bound: nat) returns (r: seq<nat>)
    requires forall i | i in s :: i <= bound
    ensures Ascending(r) && forall i :: i in r <==> i in s
  {
    r := [];
    for n := 0 to bound + 1
      invariant Ascending(r) && forall i | 0 <= i < |r| :: r[i] < n
      invariant forall i :: i in r <==> i in s && i < n
    {
      if n in s {
        r := r + [n];
      }
    }
  }

  /** `r` is what script `s` says about the new lines. */
  ghost predicate Describes(s: seq<Move>, r: LineChanges) {
    && r.changed == Inserted(s, 0)
    && Ascending(r.removedAfter) && (forall i :: i in r.removedAfter <==> i in RemovedAt(s, 0))
  }

  ghost predicate LeastCost<T>(a: seq<T>, b: seq<T>, s: seq<Move>) {
    IsScript(a, b, s) && forall t | IsScript(a, b, t) :: Cost(s) <= Cost(t)
  }

  /**
   * The result describes a least-cost script of the two texts' lines; there is none exactly when
   * every script costs more than `maxEdits`.
   */
  method Changes(before: string, after: string, maxEdits: nat) returns (r: Option<LineChanges>, ghost s: seq<Move>)
    ensures r.None? <==> forall t | IsScript(Text.Split(before, '\n'), Text.Split(after, '\n'), t) :: Cost(t) > maxEdits
    ensures r.Some? ==> LeastCost(Text.Split(before, '\n'), Text.Split(after, '\n'), s) && Describes(s, r.value)
  {
    var a := Text.Split(before, '\n');
    var b := Text.Split(after, '\n');
    var n, m := |a|, |b|;
    var limit := if n + m <= maxEdits then n + m else maxEdits;
    forall t | IsScript(a, b, t) ensures Cost(t) >= Distance(a, b, n, m) {
      CostAtLeast(a, b, t, 0, 0);
    }
    OffDiagonal(a, b, n, m);
    var found, trace := Search(a, b, limit);
    if found < 0 {
      return None, [];
    }
    var changed, removed;
    changed, removed, s := WalkBack(a, b, found, trace);
    Bounds(a, b, s, 0, 0);
    var removedAfter := Sorted(removed, m);
    r := Some(LineChanges(changed, removedAfter));
  }

  /**
   * The lines left unmarked are a longest common subsequence of the old and new lines, so the
   * marked ones number the new lines less its length.
   */
  lemma UnmarkedIsLongest<T>(a: seq<T>, b: seq<T>, s: seq<Move>, r: LineChanges, c: seq<T>)
    requires LeastCost(a, b, s) && Describes(s, r) && Common(c, a, b)
    ensures Common(Unmarked(b, r.changed, 0), a, b)
    ensures |c| <= |Unmarked(b, r.changed, 0)| == |b| - |r.changed|
    ensures forall i | i in r.changed :: 1 <= i <= |b|
  {
    LeastCostKeepsLongest(a, b, s, c);
    Bounds(a, b, s, 0, 0);
  }
}
