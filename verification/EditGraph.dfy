/**
 * The insert/delete edit graph of two line sequences: points `(x, y)`, a free diagonal wherever
 * `a[x] == b[y]`, and unit steps right (delete) and down (insert). The forward search of
 * `lineChanges` steps outside the `|a| x |b|` grid, so distances are defined on all points; no
 * diagonal leaves the grid.
 */
module EditGraph {

  predicate Same<T(==)>(a: seq<T>, b: seq<T>, x: nat, y: nat) {
    x < |a| && y < |b| && a[x] == b[y]
  }

  /** Fewest insertions and deletions from the origin to `(x, y)`. */
  function Distance<T(==)>(a: seq<T>, b: seq<T>, x: nat, y: nat): (d: nat)
  {
    if x == 0 then y
    else if y == 0 then x
    else if Same(a, b, x - 1, y - 1) then Distance(a, b, x - 1, y - 1)
    else
      var right := Distance(a, b, x - 1, y);
      var down := Distance(a, b, x, y - 1);
      1 + if right <= down then right else down
  }

  /** One step changes the distance by at most one. */
  lemma {:induction false} UnitSteps<T>(a: seq<T>, b: seq<T>, x: nat, y: nat)
    ensures Distance(a, b, x + 1, y) <= Distance(a, b, x, y) + 1
    ensures Distance(a, b, x, y) <= Distance(a, b, x + 1, y) + 1
    ensures Distance(a, b, x, y + 1) <= Distance(a, b, x, y) + 1
    ensures Distance(a, b, x, y) <= Distance(a, b, x, y + 1) + 1
    decreases x + y
  {
    if x > 0 {
      UnitSteps(a, b, x - 1, y);
    }
    if y > 0 {
      UnitSteps(a, b, x, y - 1);
    }
  }

  /** Distances never fall along a diagonal, and a matching pair costs nothing. */
  lemma DiagonalStep<T>(a: seq<T>, b: seq<T>, x: nat, y: nat)
    ensures Distance(a, b, x, y) <= Distance(a, b, x + 1, y + 1)
    ensures Same(a, b, x, y) ==> Distance(a, b, x + 1, y + 1) == Distance(a, b, x, y)
  {
    UnitSteps(a, b, x, y);
    UnitSteps(a, b, x + 1, y);
    UnitSteps(a, b, x, y + 1);
  }

  lemma {:induction false} DiagonalMonotone<T>(a: seq<T>, b: seq<T>, x: nat, y: nat, steps: nat)
    ensures Distance(a, b, x, y) <= Distance(a, b, x + steps, y + steps)
  {
    if steps > 0 {
      DiagonalMonotone(a, b, x, y, steps - 1);
      DiagonalStep(a, b, x + steps - 1, y + steps - 1);
    }
  }

  /** A distance is at least its diagonal's offset and at most the trivial rewrite. */
  lemma {:induction false} OffDiagonal<T>(a: seq<T>, b: seq<T>, x: nat, y: nat)
    ensures x - y <= Distance(a, b, x, y) && y - x <= Distance(a, b, x, y) <= x + y
    decreases x + y
  {
    if x > 0 && y > 0 {
      if Same(a, b, x - 1, y - 1) {
        OffDiagonal(a, b, x - 1, y - 1);
      } else {
        OffDiagonal(a, b, x - 1, y);
        OffDiagonal(a, b, x, y - 1);
      }
    }
  }

  /** A distance has the parity of its diagonal: `inserts` of its edits are insertions. */
  lemma {:induction false} Parity<T>(a: seq<T>, b: seq<T>, x: nat, y: nat) returns (inserts: nat)
    ensures inserts <= Distance(a, b, x, y) && x - y == Distance(a, b, x, y) - 2 * inserts
    decreases x + y
  {
    if x == 0 {
      inserts := y;
    } else if y == 0 {
      inserts := 0;
    } else if Same(a, b, x - 1, y - 1) {
      inserts := Parity(a, b, x - 1, y - 1);
    } else if Distance(a, b, x - 1, y) <= Distance(a, b, x, y - 1) {
      inserts := Parity(a, b, x - 1, y);
    } else {
      inserts := Parity(a, b, x, y - 1);
      inserts := inserts + 1;
    }
  }

  /** Past the last line of a side, every further step on that side costs one. */
  lemma {:induction false} OutsideRight<T>(a: seq<T>, b: seq<T>, x: nat, y: nat)
    requires x >= |a|
    ensures Distance(a, b, x + 1, y) == Distance(a, b, x, y) + 1
    decreases y
  {
    if y > 0 {
      OutsideRight(a, b, x, y - 1);
      UnitSteps(a, b, x, y - 1);
    }
  }

  lemma {:induction false} OutsideDown<T>(a: seq<T>, b: seq<T>, x: nat, y: nat)
    requires y >= |b|
    ensures Distance(a, b, x, y + 1) == Distance(a, b, x, y) + 1
    decreases x
  {
    if x > 0 {
      OutsideDown(a, b, x - 1, y);
      UnitSteps(a, b, x - 1, y);
    }
  }

  /** Reaching beyond the corner costs the corner's distance plus the overshoot. */
  lemma {:induction false} Overshoot<T>(a: seq<T>, b: seq<T>, x: nat, y: nat)
    requires x >= |a| && y >= |b|
    ensures Distance(a, b, x, y) == Distance(a, b, |a|, |b|) + (x - |a|) + (y - |b|)
    decreases x + y
  {
    if x > |a| {
      Overshoot(a, b, x - 1, y);
      OutsideRight(a, b, x - 1, y);
    } else if y > |b| {
      Overshoot(a, b, x, y - 1);
      OutsideDown(a, b, x, y - 1);
    }
  }

  // ----- furthest-reaching points

  /** How far a run of matching lines carries `x`. */
  function Slide<T(==)>(a: seq<T>, b: seq<T>, x: nat, y: nat): (end: nat)
    ensures end >= x
    ensures end <= |a| || end == x
    decreases |a| - x
  {
    if Same(a, b, x, y) then Slide(a, b, x + 1, y + 1) else x
  }

  /**
   * The furthest `x` that `d` edits, `j` of them insertions, reach: diagonal `k = d - 2j`, by the
   * search's own recurrence.
   */
  function Furthest<T(==)>(a: seq<T>, b: seq<T>, d: nat, j: nat): (x: nat)
    requires j <= d
    ensures x >= d - 2 * j
    ensures x <= |a| + d
    decreases d
  {
    if d == 0 then Slide(a, b, 0, 0)
    else if j == d || (j != 0 && Furthest(a, b, d - 1, j) < Furthest(a, b, d - 1, j - 1)) then
      var start := Furthest(a, b, d - 1, j - 1);
      Slide(a, b, start, start - d + 2 * j)
    else
      var start := Furthest(a, b, d - 1, j) + 1;
      Slide(a, b, start, start - d + 2 * j)
  }

  /** Whether round `d` enters the diagonal by an insertion. */
  predicate Down<T(==)>(a: seq<T>, b: seq<T>, d: nat, j: nat)
    requires 0 < d && j <= d
  {
    j == d || (j != 0 && Furthest(a, b, d - 1, j) < Furthest(a, b, d - 1, j - 1))
  }

  /** Where the slide of round `d` starts: one edit from the round before. */
  function SlideStart<T(==)>(a: seq<T>, b: seq<T>, d: nat, j: nat): (x: nat)
    requires j <= d
    ensures x >= d - 2 * j
    ensures Furthest(a, b, d, j) == Slide(a, b, x, x - d + 2 * j)
  {
    if d == 0 then 0
    else if Down(a, b, d, j) then Furthest(a, b, d - 1, j - 1)
    else Furthest(a, b, d - 1, j) + 1
  }

  /** A slide runs over matching lines only, stops at a mismatch, and costs nothing. */
  lemma {:induction false} SlideEnd<T>(a: seq<T>, b: seq<T>, x: nat, y: nat)
    ensures var end := Slide(a, b, x, y);
            && Distance(a, b, end, y + end - x) == Distance(a, b, x, y)
            && !Same(a, b, end, y + end - x)
    decreases |a| - x
  {
    if Same(a, b, x, y) {
      SlideEnd(a, b, x + 1, y + 1);
      DiagonalStep(a, b, x, y);
    }
  }

  lemma {:induction false} SlideSame<T>(a: seq<T>, b: seq<T>, x: nat, y: nat, i: nat)
    requires x <= i < Slide(a, b, x, y)
    ensures Same(a, b, i, y + i - x)
    decreases i - x
  {
    if i > x {
      SlideSame(a, b, x + 1, y + 1, i);
    }
  }

  /** The furthest point dominates both points the round before offers. */
  lemma StartDominates<T>(a: seq<T>, b: seq<T>, d: nat, j: nat)
    requires 0 < d && j <= d
    ensures j < d ==> Furthest(a, b, d - 1, j) + 1 <= Furthest(a, b, d, j)
    ensures j > 0 ==> Furthest(a, b, d - 1, j - 1) <= Furthest(a, b, d, j)
  {
    assert SlideStart(a, b, d, j) <= Furthest(a, b, d, j);
  }

  lemma SlideWithin<T>(a: seq<T>, b: seq<T>, x: nat, y: nat, d: nat, end: nat)
    requires Distance(a, b, x, y) <= d && end == Slide(a, b, x, y)
    ensures Distance(a, b, end, y + end - x) <= d
  {
    SlideEnd(a, b, x, y);
  }

  /** The recurrence's points are reachable... */
  lemma {:induction false} FurthestReachable<T>(a: seq<T>, b: seq<T>, d: nat, j: nat, x: nat, y: nat)
    requires j <= d && x == Furthest(a, b, d, j) && x - y == d - 2 * j
    ensures Distance(a, b, x, y) <= d
    decreases d
  {
    var start := SlideStart(a, b, d, j);
    var under: nat := start - d + 2 * j;
    StartReachable(a, b, d, j, start, under);
    SlideWithin(a, b, start, under, d, x);
  }

  lemma {:induction false} StartReachable<T>(a: seq<T>, b: seq<T>, d: nat, j: nat, x: nat, y: nat)
    requires j <= d && x == SlideStart(a, b, d, j) && x - y == d - 2 * j
    ensures Distance(a, b, x, y) <= d
    decreases d, 0
  {
    hide Furthest, Slide;
    if d > 0 {
      if Down(a, b, d, j) {
        FurthestReachable(a, b, d - 1, j - 1, x, y - 1);
        UnitSteps(a, b, x, y - 1);
      } else {
        FurthestReachable(a, b, d - 1, j, x - 1, y);
        UnitSteps(a, b, x - 1, y);
      }
    }
  }

  lemma FurthestStops<T>(a: seq<T>, b: seq<T>, d: nat, j: nat, x: nat, y: nat)
    requires j <= d && x - y == d - 2 * j && Same(a, b, x, y)
    ensures x != Furthest(a, b, d, j)
  {
    var start := SlideStart(a, b, d, j);
    SlideEnd(a, b, start, start - d + 2 * j);
  }

  /** ...and nothing on their diagonal within `d` edits lies beyond them. */
  lemma {:induction false} FurthestBounds<T>(a: seq<T>, b: seq<T>, d: nat, j: nat, x: nat, y: nat)
    requires j <= d && x - y == d - 2 * j
    requires Distance(a, b, x, y) <= d
    ensures x <= Furthest(a, b, d, j)
    decreases d, x + 1
  {
    if x == 0 || y == 0 {
    } else if Same(a, b, x - 1, y - 1) {
      FurthestBounds(a, b, d, j, x - 1, y - 1);
      FurthestStops(a, b, d, j, x - 1, y - 1);
    } else if Distance(a, b, x - 1, y) < d {
      DeleteBounds(a, b, d, j, x - 1, y);
    } else {
      InsertBounds(a, b, d, j, x, y - 1);
    }
  }

  lemma {:induction false} DeleteBounds<T>(a: seq<T>, b: seq<T>, d: nat, j: nat, x: nat, y: nat)
    requires j <= d && x + 1 - y == d - 2 * j && Distance(a, b, x, y) < d
    ensures x + 1 <= Furthest(a, b, d, j)
    decreases d, 0
  {
    hide Furthest, Slide, Distance;
    assert j < d by { OffDiagonal(a, b, x, y); }
    FurthestBounds(a, b, d - 1, j, x, y);
    StartDominates(a, b, d, j);
  }

  lemma {:induction false} InsertBounds<T>(a: seq<T>, b: seq<T>, d: nat, j: nat, x: nat, y: nat)
    requires j <= d && x - y - 1 == d - 2 * j && Distance(a, b, x, y) < d
    ensures x <= Furthest(a, b, d, j)
    decreases d, 0
  {
    hide Furthest, Slide, Distance;
    assert j > 0 by { OffDiagonal(a, b, x, y); }
    FurthestBounds(a, b, d - 1, j - 1, x, y);
    StartDominates(a, b, d, j);
  }

  /**
   * Myers' invariant, exactly: on the diagonal of `(d, j)`, the points within `d` edits are those
   * up to the furthest-reaching one.
   */
  lemma FurthestExact<T>(a: seq<T>, b: seq<T>, d: nat, j: nat, x: nat, y: nat)
    requires j <= d && x - y == d - 2 * j
    ensures Distance(a, b, x, y) <= d <==> x <= Furthest(a, b, d, j)
  {
    if x <= Furthest(a, b, d, j) {
      var far := Furthest(a, b, d, j);
      FurthestReachable(a, b, d, j, far, far - x + y);
      DiagonalMonotone(a, b, x, y, far - x);
    } else if Distance(a, b, x, y) <= d {
      FurthestBounds(a, b, d, j, x, y);
    }
  }
}
