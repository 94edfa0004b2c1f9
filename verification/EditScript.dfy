/** Edit scripts between two line sequences, and what a script says about the new lines. */
module EditScript {
  import opened EditGraph

  datatype Move = Keep | Insert | Delete

  /** `s` rewrites what is left of `a` after `x` lines into what is left of `b` after `y` lines. */
  ghost predicate Leads<T>(a: seq<T>, b: seq<T>, s: seq<Move>, x: nat, y: nat) {
    if s == [] then x == |a| && y == |b|
    else match s[0]
      case Keep => Same(a, b, x, y) && Leads(a, b, s[1..], x + 1, y + 1)
      case Insert => y < |b| && Leads(a, b, s[1..], x, y + 1)
      case Delete => x < |a| && Leads(a, b, s[1..], x + 1, y)
  }

  ghost function Cost(s: seq<Move>): nat {
    if s == [] then 0 else (if s[0].Keep? then 0 else 1) + Cost(s[1..])
  }

  ghost function Keeps(s: seq<Move>): nat {
    if s == [] then 0 else (if s[0].Keep? then 1 else 0) + Keeps(s[1..])
  }

  /** The new lines, counted from 1, that the script inserts when it starts after new line `y`. */
  ghost function Inserted(s: seq<Move>, y: nat): set<nat> {
    if s == [] then {}
    else match s[0]
      case Keep => Inserted(s[1..], y + 1)
      case Insert => {y + 1} + Inserted(s[1..], y + 1)
      case Delete => Inserted(s[1..], y)
  }

  /** The new lines after which the script deletes; 0 is before the first. */
  ghost function RemovedAt(s: seq<Move>, y: nat): set<nat> {
    if s == [] then {}
    else match s[0]
      case Keep => RemovedAt(s[1..], y + 1)
      case Insert => RemovedAt(s[1..], y + 1)
      case Delete => {y} + RemovedAt(s[1..], y)
  }

  lemma {:induction false} Bounds<T>(a: seq<T>, b: seq<T>, s: seq<Move>, x: nat, y: nat)
    requires Leads(a, b, s, x, y)
    ensures x <= |a| && y <= |b|
    ensures forall i | i in Inserted(s, y) :: y < i <= |b|
    ensures forall i | i in RemovedAt(s, y) :: y <= i <= |b|
    ensures |Inserted(s, y)| + Keeps(s) == |b| - y
    ensures Cost(s) + 2 * Keeps(s) == (|a| - x) + (|b| - y)
  {
    if s != [] {
      match s[0]
      case Keep => Bounds(a, b, s[1..], x + 1, y + 1);
      case Insert =>
        Bounds(a, b, s[1..], x, y + 1);
        assert y + 1 !in Inserted(s[1..], y + 1);
      case Delete => Bounds(a, b, s[1..], x + 1, y);
    }
  }

  /** No script beats the graph distance. */
  lemma {:induction false} CostAtLeast<T>(a: seq<T>, b: seq<T>, s: seq<Move>, x: nat, y: nat)
    requires Leads(a, b, s, x, y)
    ensures Distance(a, b, |a|, |b|) <= Distance(a, b, x, y) + Cost(s)
  {
    if s != [] {
      match s[0]
      case Keep =>
        CostAtLeast(a, b, s[1..], x + 1, y + 1);
        DiagonalStep(a, b, x, y);
      case Insert =>
        CostAtLeast(a, b, s[1..], x, y + 1);
        UnitSteps(a, b, x, y);
      case Delete =>
        CostAtLeast(a, b, s[1..], x + 1, y);
        UnitSteps(a, b, x, y);
    }
  }

  // ----- common subsequences

  ghost predicate Subsequence<T>(c: seq<T>, s: seq<T>) {
    c == [] || (s != [] && if c[0] == s[0] then Subsequence(c[1..], s[1..]) else Subsequence(c, s[1..]))
  }

  lemma {:induction false} SkipHead<T>(c: seq<T>, s: seq<T>)
    requires s != [] && Subsequence(c, s[1..])
    ensures Subsequence(c, s)
    decreases |s[1..]|, 1
  {
    if c != [] && c[0] == s[0] {
      DropHead(c, s[1..]);
    }
  }

  lemma {:induction false} DropHead<T>(c: seq<T>, s: seq<T>)
    requires c != [] && Subsequence(c, s)
    ensures Subsequence(c[1..], s)
    decreases |s|, 0
  {
    if c[0] != s[0] {
      DropHead(c, s[1..]);
    }
    SkipHead(c[1..], s);
  }

  /** The new lines from `y` on that are not marked, in order. */
  ghost function Unmarked<T>(b: seq<T>, marked: set<nat>, y: nat): seq<T>
    decreases |b| - y
  {
    if y >= |b| then []
    else if y + 1 in marked then Unmarked(b, marked, y + 1)
    else [b[y]] + Unmarked(b, marked, y + 1)
  }

  /** Marks at or before `y` do not matter from `y` on. */
  lemma {:induction false} UnmarkedLater<T>(b: seq<T>, marked: set<nat>, y: nat, extra: nat)
    requires extra <= y
    ensures Unmarked(b, {extra} + marked, y) == Unmarked(b, marked, y)
    decreases |b| - y
  {
    if y < |b| {
      UnmarkedLater(b, marked, y + 1, extra);
    }
  }

  /** What a script leaves unmarked is a common subsequence of both sides, one line per `Keep`. */
  lemma {:induction false} UnmarkedCommon<T>(a: seq<T>, b: seq<T>, s: seq<Move>, x: nat, y: nat)
    requires Leads(a, b, s, x, y) && x <= |a| && y <= |b|
    ensures Subsequence(Unmarked(b, Inserted(s, y), y), a[x..])
    ensures Subsequence(Unmarked(b, Inserted(s, y), y), b[y..])
    ensures |Unmarked(b, Inserted(s, y), y)| == Keeps(s)
    decreases |s|
  {
    if s != [] {
      match s[0]
      case Keep =>
        assert y + 1 !in Inserted(s, y) by { Bounds(a, b, s[1..], x + 1, y + 1); }
        UnmarkedCommon(a, b, s[1..], x + 1, y + 1);
        assert a[x..][1..] == a[x + 1..] && b[y..][1..] == b[y + 1..];
      case Insert =>
        UnmarkedCommon(a, b, s[1..], x, y + 1);
        UnmarkedLater(b, Inserted(s[1..], y + 1), y + 1, y + 1);
        assert b[y..][1..] == b[y + 1..];
        SkipHead(Unmarked(b, Inserted(s, y), y), b[y..]);
      case Delete =>
        UnmarkedCommon(a, b, s[1..], x + 1, y);
        assert a[x..][1..] == a[x + 1..];
        SkipHead(Unmarked(b, Inserted(s, y), y), a[x..]);
    }
  }

  /** Every common subsequence is kept by some script. */
  lemma {:induction false} ScriptKeeping<T>(a: seq<T>, b: seq<T>, c: seq<T>, x: nat, y: nat) returns (s: seq<Move>)
    requires x <= |a| && y <= |b|
    requires Subsequence(c, a[x..]) && Subsequence(c, b[y..])
    ensures Leads(a, b, s, x, y) && Keeps(s) == |c|
    decreases |a| - x + |b| - y
  {
    assert x < |a| ==> a[x..][1..] == a[x + 1..];
    assert y < |b| ==> b[y..][1..] == b[y + 1..];
    if x < |a| && (c == [] || a[x] != c[0]) {
      var rest := ScriptKeeping(a, b, c, x + 1, y);
      s := [Delete] + rest;
      assert s[1..] == rest;
    } else if y < |b| && (c == [] || b[y] != c[0]) {
      var rest := ScriptKeeping(a, b, c, x, y + 1);
      s := [Insert] + rest;
      assert s[1..] == rest;
    } else if c != [] {
      var rest := ScriptKeeping(a, b, c[1..], x + 1, y + 1);
      s := [Keep] + rest;
      assert s[1..] == rest;
    } else {
      s := [];
    }
  }

  ghost predicate IsScript<T>(a: seq<T>, b: seq<T>, s: seq<Move>) { Leads(a, b, s, 0, 0) }

  ghost predicate Common<T>(c: seq<T>, a: seq<T>, b: seq<T>) { Subsequence(c, a) && Subsequence(c, b) }

  /**
   * A script of least cost leaves a longest common subsequence unmarked: the unmarked lines are
   * common to both sides and no common subsequence is longer.
   */
  lemma LeastCostKeepsLongest<T>(a: seq<T>, b: seq<T>, s: seq<Move>, c: seq<T>)
    requires IsScript(a, b, s) && forall t | IsScript(a, b, t) :: Cost(s) <= Cost(t)
    requires Common(c, a, b)
    ensures Common(Unmarked(b, Inserted(s, 0), 0), a, b)
    ensures |c| <= |Unmarked(b, Inserted(s, 0), 0)| == |b| - |Inserted(s, 0)|
  {
    assert a[0..] == a && b[0..] == b;
    UnmarkedCommon(a, b, s, 0, 0);
    Bounds(a, b, s, 0, 0);
    var t := ScriptKeeping(a, b, c, 0, 0);
    assert IsScript(a, b, t);
    Bounds(a, b, t, 0, 0);
  }
}
