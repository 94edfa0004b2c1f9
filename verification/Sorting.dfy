/** Stable sorting under a comparison, and the runtime's default order of strings: by UTF-16 unit. */
module Sorting {
  /** A comparison that can sort anything: total and transitive. */
  ghost predicate Ranks<T(!new)>(le: (T, T) -> bool) {
    && (forall a, b :: le(a, b) || le(b, a))
    && (forall a, b, c | le(a, b) && le(b, c) :: le(a, c))
  }

  ghost predicate Sorted<T>(le: (T, T) -> bool, s: seq<T>) {
    forall i, j | 0 <= i < j < |s| :: le(s[i], s[j])
  }

  /** `x` put after everything it does not come before. */
  function Insert<T>(le: (T, T) -> bool, x: T, s: seq<T>): (r: seq<T>)
    ensures multiset(r) == multiset(s) + multiset{x}
  {
    if s == [] || !le(s[0], x) then [x] + s
    else
      assert s == [s[0]] + s[1..];
      [s[0]] + Insert(le, x, s[1..])
  }

  function Sort<T>(le: (T, T) -> bool, s: seq<T>): (r: seq<T>)
    ensures multiset(r) == multiset(s) && |r| == |s|
  {
    if s == [] then []
    else
      assert s == s[..|s| - 1] + [s[|s| - 1]];
      var r := Insert(le, s[|s| - 1], Sort(le, s[..|s| - 1]));
      assert |multiset(r)| == |r| && |multiset(s)| == |s|;
      r
  }

  ghost predicate Once<T>(s: seq<T>) { forall i, j | 0 <= i < j < |s| :: s[i] != s[j] }

  lemma SameMembers<T>(a: seq<T>, b: seq<T>)
    requires multiset(a) == multiset(b)
    ensures forall x :: x in a <==> x in b
  {
    forall x ensures x in a <==> x in b {
      assert x in a <==> x in multiset(a);
      assert x in b <==> x in multiset(b);
    }
  }

  lemma {:induction false} InsertSorted<T(!new)>(le: (T, T) -> bool, x: T, s: seq<T>)
    requires Ranks(le) && Sorted(le, s)
    ensures Sorted(le, Insert(le, x, s))
  {
    if s != [] {
      if le(s[0], x) {
        InsertSorted(le, x, s[1..]);
        var t := Insert(le, x, s[1..]);
        forall y | y in t ensures le(s[0], y) {
          assert y in multiset(t);
          if y != x {
            assert y in s[1..];
            var j :| 0 <= j < |s[1..]| && s[1..][j] == y;
            assert le(s[0], s[j + 1]);
          }
        }
      } else {
        forall j | 0 <= j < |s| ensures le(x, s[j]) { assert le(s[0], s[j]) || j == 0; }
      }
    }
  }

  lemma {:induction false} SortSorts<T(!new)>(le: (T, T) -> bool, s: seq<T>)
    requires Ranks(le)
    ensures Sorted(le, Sort(le, s))
  {
    if s != [] {
      SortSorts(le, s[..|s| - 1]);
      InsertSorted(le, s[|s| - 1], Sort(le, s[..|s| - 1]));
    }
  }

  ghost predicate NoTies<T(!new)>(le: (T, T) -> bool, s: seq<T>) {
    forall x, y | x in s && y in s && le(x, y) && le(y, x) :: x == y
  }

  lemma SameFirst<T(!new)>(le: (T, T) -> bool, a: seq<T>, b: seq<T>)
    requires Sorted(le, a) && Sorted(le, b) && NoTies(le, a) && multiset(a) == multiset(b) && a != []
    ensures b != [] && a[0] == b[0]
  {
    SameMembers(a, b);
    assert a[0] in b && b[0] in a;
    var i :| 0 <= i < |b| && b[i] == a[0];
    var j :| 0 <= j < |a| && a[j] == b[0];
    if i > 0 && j > 0 {
      assert le(b[0], b[i]) && le(a[0], a[j]);
    }
  }

  lemma TailsAlike<T>(a: seq<T>, b: seq<T>)
    requires a != [] && b != [] && a[0] == b[0] && multiset(a) == multiset(b)
    ensures multiset(a[1..]) == multiset(b[1..])
  {
    assert a == [a[0]] + a[1..] && b == [b[0]] + b[1..];
    assert multiset(a[1..]) == multiset(a) - multiset{a[0]};
    assert multiset(b[1..]) == multiset(b) - multiset{b[0]};
  }

  /** Where no two members tie there is one sorted order, whatever order they came in. */
  lemma {:induction false} OneOrder<T(!new)>(le: (T, T) -> bool, a: seq<T>, b: seq<T>)
    requires Sorted(le, a) && Sorted(le, b) && NoTies(le, a) && multiset(a) == multiset(b)
    ensures a == b
    decreases |a|
  {
    assert |multiset(a)| == |a| && |multiset(b)| == |b|;
    if a != [] {
      SameFirst(le, a, b);
      TailsAlike(a, b);
      assert forall x | x in a[1..] :: x in a;
      assert NoTies(le, a[1..]);
      OneOrder(le, a[1..], b[1..]);
      assert a == [a[0]] + a[1..] && b == [b[0]] + b[1..];
    }
  }

  // ----- strings by locale, and by UTF-16 unit

  /** A locale's comparison of strings. */
  ghost predicate Collates(compare: (string, string) -> int) {
    && (forall a, b :: compare(a, b) < 0 <==> compare(b, a) > 0)
    && (forall a, b, c | compare(a, b) <= 0 && compare(b, c) <= 0 :: compare(a, c) <= 0)
  }

  /** A character as UTF-16 has it: itself, or a surrogate pair. */
  function Units(c: char): (units: seq<int>)
    ensures units != []
  {
    var n := c as int;
    if n < 0x10000 then [n] else [0xD800 + (n - 0x10000) / 1024, 0xDC00 + (n - 0x10000) % 1024]
  }

  function Utf16(s: string): seq<int> { if s == "" then [] else Units(s[0]) + Utf16(s[1..]) }

  predicate UnitsNotAfter(a: seq<int>, b: seq<int>) {
    a == [] || (b != [] && (a[0] < b[0] || (a[0] == b[0] && UnitsNotAfter(a[1..], b[1..]))))
  }

  predicate NotAfter(a: string, b: string) { UnitsNotAfter(Utf16(a), Utf16(b)) }

  /** No two characters' units begin alike, so the units tell strings apart. */
  lemma {:induction false} UnitsTell(a: string, b: string)
    requires Utf16(a) == Utf16(b)
    ensures a == b
  {
    if a != "" && b != "" {
      var x, y := Utf16(a), Utf16(b);
      var u, v := Units(a[0]), Units(b[0]);
      assert x[0] == u[0] && y[0] == v[0];
      assert |u| == 2 ==> x[1] == u[1];
      assert |v| == 2 ==> y[1] == v[1];
      assert a[0] == b[0];
      assert Utf16(a[1..]) == x[|u|..] == Utf16(b[1..]);
      UnitsTell(a[1..], b[1..]);
      assert a == [a[0]] + a[1..] && b == [b[0]] + b[1..];
    }
  }

  lemma {:induction false} UnitsTotal(a: seq<int>, b: seq<int>)
    ensures UnitsNotAfter(a, b) || UnitsNotAfter(b, a)
    ensures UnitsNotAfter(a, b) && UnitsNotAfter(b, a) ==> a == b
  {
    if a != [] && b != [] {
      UnitsTotal(a[1..], b[1..]);
      assert a == [a[0]] + a[1..] && b == [b[0]] + b[1..];
    }
  }

  lemma {:induction false} UnitsChain(a: seq<int>, b: seq<int>, c: seq<int>)
    requires UnitsNotAfter(a, b) && UnitsNotAfter(b, c)
    ensures UnitsNotAfter(a, c)
  {
    if a != [] && a[0] == b[0] == c[0] {
      UnitsChain(a[1..], b[1..], c[1..]);
    }
  }

  lemma StringsTotal(a: string, b: string)
    ensures NotAfter(a, b) || NotAfter(b, a)
    ensures NotAfter(a, b) && NotAfter(b, a) ==> a == b
  {
    UnitsTotal(Utf16(a), Utf16(b));
    if Utf16(a) == Utf16(b) {
      UnitsTell(a, b);
    }
  }

  lemma StringsRank()
    ensures Ranks(NotAfter)
  {
    forall a, b ensures NotAfter(a, b) || NotAfter(b, a) { StringsTotal(a, b); }
    forall a, b, c | NotAfter(a, b) && NotAfter(b, c) ensures NotAfter(a, c) { UnitsChain(Utf16(a), Utf16(b), Utf16(c)); }
  }

  /** Each member once, in the default order. */
  ghost predicate Listed(members: set<string>, list: seq<string>) {
    && Sorted(NotAfter, list) && (forall x :: x in list <==> x in members)
    && Once(list)
  }

  /** A set's members, sorted. */
  method ListSorted(members: set<string>) returns (list: seq<string>)
    ensures Listed(members, list)
  {
    var left, some := members, [];
    while left != {}
      invariant left <= members && forall x :: x in some <==> x in members - left
      invariant Once(some)
      decreases |left|
    {
      var x :| x in left;
      assert x !in some;
      left, some := left - {x}, some + [x];
    }
    StringsRank();
    SortSorts(NotAfter, some);
    list := Sort(NotAfter, some);
    SameMembers(list, some);
    OnceStays(some, list);
  }

  lemma OnceStays<T>(a: seq<T>, b: seq<T>)
    requires multiset(a) == multiset(b) && Once(a)
    ensures Once(b)
  {
    forall i, j | 0 <= i < j < |b| ensures b[i] != b[j] {
      if b[i] == b[j] {
        assert b == b[..i] + [b[i]] + b[i + 1..j] + [b[j]] + b[j + 1..];
        assert multiset(a)[b[i]] >= 2;
        TwoPlaces(a, b[i]);
      }
    }
  }

  lemma {:induction false} TwoPlaces<T>(s: seq<T>, x: T)
    requires multiset(s)[x] >= 2
    ensures exists i, j :: 0 <= i < j < |s| && s[i] == x && s[j] == x
  {
    assert s == [s[0]] + s[1..];
    if s[0] == x {
      assert x in multiset(s[1..]);
      var j :| 0 <= j < |s[1..]| && s[1..][j] == x;
      assert s[j + 1] == x;
    } else {
      TwoPlaces(s[1..], x);
      var i, j :| 0 <= i < j < |s[1..]| && s[1..][i] == x && s[1..][j] == x;
      assert s[i + 1] == x && s[j + 1] == x;
    }
  }

  /** A set has one such list. */
  lemma OneListing(members: set<string>, a: seq<string>, b: seq<string>)
    requires Listed(members, a) && Listed(members, b)
    ensures a == b
  {
    SameOnce(a, b);
    forall x, y | x in a && y in a && NotAfter(x, y) && NotAfter(y, x) ensures x == y { StringsTotal(x, y); }
    assert NoTies(NotAfter, a);
    OneOrder(NotAfter, a, b);
  }

  lemma SameOnce<T>(a: seq<T>, b: seq<T>)
    requires Once(a) && Once(b) && forall x :: x in a <==> x in b
    ensures multiset(a) == multiset(b)
  {
    forall x ensures multiset(a)[x] == multiset(b)[x] {
      AtMostOnce(a, x);
      AtMostOnce(b, x);
    }
  }

  lemma AtMostOnce<T>(s: seq<T>, x: T)
    requires Once(s)
    ensures multiset(s)[x] == if x in s then 1 else 0
  {
    if multiset(s)[x] >= 2 {
      TwoPlaces(s, x);
    }
    assert x in s <==> x in multiset(s);
  }
}
