/** `fitToolOutput`: arrays halved until a value fits its bound, or else a preview of its text. */
module ToolOutput {
  import opened Wrappers
  import opened Text
  import opened Json

  const ASK_TOOL_OUTPUT_MAX := 24 * 1024

  // ----- places in a value

  function Values(fields: seq<Field>): seq<Json> {
    if fields == [] then [] else [fields[0].value] + Values(fields[1..])
  }

  function Children(v: Json): seq<Json> {
    match v
    case Arr(items) => items
    case Obj(fields) => Values(fields)
    case _ => []
  }

  lemma {:induction false} ValuesAt(fields: seq<Field>)
    ensures |Values(fields)| == |fields| && forall i | 0 <= i < |fields| :: Values(fields)[i] == fields[i].value
  {
    if fields != [] {
      ValuesAt(fields[1..]);
    }
  }

  /** The value at a path of child positions. */
  function At(v: Json, path: seq<nat>): Option<Json>
    decreases |path|
  {
    if path == [] then Some(v)
    else if path[0] < |Children(v)| then At(Children(v)[path[0]], path[1..])
    else None
  }

  /** What stands there is an array with more than one item. */
  predicate Halvable(v: Json, path: seq<nat>) {
    At(v, path).Some? && At(v, path).value.Arr? && |At(v, path).value.items| > 1
  }

  function SizeAt(v: Json, path: seq<nat>): nat { if At(v, path).Some? then Size(At(v, path).value) else 0 }

  // ----- measure

  datatype Best = Best(path: seq<nat>, size: nat)

  datatype Walked = Walked(size: nat, count: nat, best: Option<Best>)

  /** One pass, bottom up: the size of `v`, and the largest halvable array so far. */
  function WalkValue(v: Json, at: seq<nat>, best: Option<Best>): Walked
    decreases v, 1
  {
    match v
    case Arr(items) =>
      var r := WalkItems(items, 0, at, best);
      var size := 2 + Commas(|items|) + r.size;
      Walked(size, 1, if |items| > 1 && (r.best.None? || size > r.best.value.size) then Some(Best(at, size)) else r.best)
    case Obj(fields) =>
      var r := WalkFields(fields, 0, at, best);
      Walked(2 + Commas(r.count) + r.size, 1, r.best)
    case _ => Walked(Size(v), 1, best)
  }

  function WalkItems(items: seq<Json>, k: nat, at: seq<nat>, best: Option<Best>): Walked
    decreases items, 0
  {
    if items == [] then Walked(0, 0, best)
    else
      var first := WalkValue(items[0], at + [k], best);
      var rest := WalkItems(items[1..], k + 1, at, first.best);
      Walked(first.size + rest.size, rest.count + 1, rest.best)
  }

  function WalkFields(fields: seq<Field>, k: nat, at: seq<nat>, best: Option<Best>): Walked
    decreases fields, 0
  {
    if fields == [] then Walked(0, 0, best)
    else if fields[0].value.Undefined? then WalkFields(fields[1..], k + 1, at, best)
    else
      var first := WalkValue(fields[0].value, at + [k], best);
      var rest := WalkFields(fields[1..], k + 1, at, first.best);
      Walked(Bytes(Quoted(fields[0].key)) + 1 + first.size + rest.size, rest.count + 1, rest.best)
  }

  /** `r` is at least as large as `best` and as every halvable array in `v`, and is one of those (or `best`). */
  ghost predicate Tops(v: Json, at: seq<nat>, best: Option<Best>, r: Option<Best>) {
    && (best.Some? ==> r.Some? && r.value.size >= best.value.size)
    && (forall p | Halvable(v, p) :: r.Some? && SizeAt(v, p) <= r.value.size)
    && (r == best || exists p :: Halvable(v, p) && r == Some(Best(at + p, SizeAt(v, p))))
  }

  ghost predicate TopsEach(vs: seq<Json>, k: nat, at: seq<nat>, best: Option<Best>, r: Option<Best>) {
    && (best.Some? ==> r.Some? && r.value.size >= best.value.size)
    && (forall i, p | 0 <= i < |vs| && Halvable(vs[i], p) :: r.Some? && SizeAt(vs[i], p) <= r.value.size)
    && (r == best || exists i: nat, p :: i < |vs| && Halvable(vs[i], p) && r == Some(Best(at + [k + i] + p, SizeAt(vs[i], p))))
  }

  lemma ConsTops(v: Json, vs: seq<Json>, k: nat, at: seq<nat>, best: Option<Best>, mid: Option<Best>, r: Option<Best>)
    requires Tops(v, at + [k], best, mid) && TopsEach(vs, k + 1, at, mid, r)
    ensures TopsEach([v] + vs, k, at, best, r)
  {
    hide Halvable, SizeAt;
    var all := [v] + vs;
    forall i, p | 0 <= i < |all| && Halvable(all[i], p) ensures r.Some? && SizeAt(all[i], p) <= r.value.size {
      if i > 0 { assert all[i] == vs[i - 1]; }
    }
    if r != best {
      if r == mid {
        var p :| Halvable(v, p) && mid == Some(Best(at + [k] + p, SizeAt(v, p)));
        assert all[0] == v && at + [k + 0] + p == at + [k] + p;
      } else {
        var i: nat, p :| i < |vs| && Halvable(vs[i], p) && r == Some(Best(at + [k + 1 + i] + p, SizeAt(vs[i], p)));
        assert all[i + 1] == vs[i] && k + (i + 1) == k + 1 + i;
      }
    }
  }

  lemma InChild(v: Json, i: nat, p: seq<nat>)
    requires i < |Children(v)|
    ensures Halvable(v, [i] + p) <==> Halvable(Children(v)[i], p)
    ensures SizeAt(v, [i] + p) == SizeAt(Children(v)[i], p)
  {
    hide Size;
    assert ([i] + p)[1..] == p;
  }

  lemma FirstStep(v: Json, p: seq<nat>)
    requires Halvable(v, p) && p != []
    ensures p[0] < |Children(v)|
  {
  }

  lemma ParentBounds(v: Json, at: seq<nat>, best: Option<Best>, inner: Option<Best>, r: Option<Best>, p: seq<nat>)
    requires TopsEach(Children(v), 0, at, best, inner) && Halvable(v, p)
    requires r == if Halvable(v, []) && (inner.None? || SizeAt(v, []) > inner.value.size) then Some(Best(at, SizeAt(v, []))) else inner
    ensures r.Some? && SizeAt(v, p) <= r.value.size
  {
    hide Halvable, SizeAt, Children;
    if p != [] {
      FirstStep(v, p);
      assert p == [p[0]] + p[1..];
      InChild(v, p[0], p[1..]);
    }
  }

  lemma InnerIsOwn(v: Json, at: seq<nat>, i: nat, p: seq<nat>)
    requires i < |Children(v)| && Halvable(Children(v)[i], p)
    ensures Halvable(v, [i] + p) && Best(at + [0 + i] + p, SizeAt(Children(v)[i], p)) == Best(at + ([i] + p), SizeAt(v, [i] + p))
  {
    hide Halvable, SizeAt, Children;
    InChild(v, i, p);
  }

  /** Children's best is the parent's, unless the parent itself is larger. */
  lemma ParentTops(v: Json, at: seq<nat>, best: Option<Best>, inner: Option<Best>, r: Option<Best>)
    requires TopsEach(Children(v), 0, at, best, inner)
    requires r == if Halvable(v, []) && (inner.None? || Size(v) > inner.value.size) then Some(Best(at, Size(v))) else inner
    ensures Tops(v, at, best, r)
  {
    assert SizeAt(v, []) == Size(v);
    hide Size, Halvable, SizeAt, Children;
    forall p | Halvable(v, p) ensures r.Some? && SizeAt(v, p) <= r.value.size { ParentBounds(v, at, best, inner, r, p); }
    if r != best {
      if r == inner {
        var i: nat, p :| i < |Children(v)| && Halvable(Children(v)[i], p) && r == Some(Best(at + [0 + i] + p, SizeAt(Children(v)[i], p)));
        InnerIsOwn(v, at, i, p);
      } else {
        assert at + [] == at;
      }
    }
  }

  lemma {:induction false} WalkExact(v: Json, at: seq<nat>, best: Option<Best>)
    ensures WalkValue(v, at, best).size == Size(v)
    ensures Tops(v, at, best, WalkValue(v, at, best).best)
    decreases v, 1
  {
    hide Tops, TopsEach, Size;
    match v
    case Arr(items) =>
      ItemsExact(items, 0, at, best);
      ArrSize(items);
      ParentTops(v, at, best, WalkItems(items, 0, at, best).best, WalkValue(v, at, best).best);
    case Obj(fields) =>
      FieldsExact(fields, 0, at, best);
      ObjSize(fields);
      ParentTops(v, at, best, WalkFields(fields, 0, at, best).best, WalkValue(v, at, best).best);
    case _ =>
      NoneEach(at, best);
      ParentTops(v, at, best, best, best);
  }

  lemma NoneEach(at: seq<nat>, best: Option<Best>)
    ensures TopsEach([], 0, at, best, best)
  {
  }

  lemma {:induction false} ItemsExact(items: seq<Json>, k: nat, at: seq<nat>, best: Option<Best>)
    ensures WalkItems(items, k, at, best).size == Sum(ItemTexts(items))
    ensures TopsEach(items, k, at, best, WalkItems(items, k, at, best).best)
    decreases items, 0
  {
    if items != [] {
      hide Tops, TopsEach;
      WalkExact(items[0], at + [k], best);
      var mid := WalkValue(items[0], at + [k], best).best;
      ItemsExact(items[1..], k + 1, at, mid);
      ConsTops(items[0], items[1..], k, at, best, mid, WalkItems(items, k, at, best).best);
      assert [items[0]] + items[1..] == items;
      assert ItemTexts(items)[1..] == ItemTexts(items[1..]);
    }
  }

  lemma {:induction false} FieldsExact(fields: seq<Field>, k: nat, at: seq<nat>, best: Option<Best>)
    ensures WalkFields(fields, k, at, best).size == Sum(FieldTexts(fields))
    ensures WalkFields(fields, k, at, best).count == |FieldTexts(fields)|
    ensures TopsEach(Values(fields), k, at, best, WalkFields(fields, k, at, best).best)
    decreases fields, 0
  {
    hide Tops, TopsEach, Quoted, Serialise, Size, Bytes;
    if fields == [] {
      NoneFrom(k, at, best);
    } else {
      var f := fields[0];
      WalkExact(f.value, at + [k], best);
      var mid := WalkValue(f.value, at + [k], best).best;
      FieldsExact(fields[1..], k + 1, at, mid);
      ConsTops(f.value, Values(fields[1..]), k, at, best, mid, WalkFields(fields, k, at, best).best);
      FieldTextsStep(fields);
    }
  }

  lemma NoneFrom(k: nat, at: seq<nat>, best: Option<Best>)
    ensures TopsEach([], k, at, best, best)
  {
  }

  lemma FieldTextsStep(fields: seq<Field>)
    requires fields != []
    ensures var f, rest := fields[0], FieldTexts(fields[1..]);
            if f.value.Undefined? then FieldTexts(fields) == rest
            else && |FieldTexts(fields)| == |rest| + 1
                 && Sum(FieldTexts(fields)) == Bytes(Quoted(f.key)) + 1 + Size(f.value) + Sum(rest)
  {
    hide Quoted, Serialise, Bytes;
    if !fields[0].value.Undefined? {
      FieldBytes(fields[0]);
      assert FieldTexts(fields)[1..] == FieldTexts(fields[1..]);
    }
  }

  /** `measure`: the serialised size, and where a largest halvable array stands if there is one. */
  function Measure(v: Json): Walked { WalkValue(v, [], None) }

  lemma MeasureExact(v: Json)
    ensures Measure(v).size == Size(v)
    ensures Measure(v).best.None? <==> forall p :: !Halvable(v, p)
    ensures Measure(v).best.Some? ==>
              var b := Measure(v).best.value;
              && Halvable(v, b.path) && b.size == SizeAt(v, b.path)
              && forall p | Halvable(v, p) :: SizeAt(v, p) <= b.size
  {
    hide Size, Halvable, SizeAt;
    WalkExact(v, [], None);
    var r := Measure(v).best;
    if r.Some? {
      var p :| Halvable(v, p) && r == Some(Best([] + p, SizeAt(v, p)));
      assert [] + p == p;
    }
  }

  // ----- cutting

  /** `w` is `v` with some of its arrays shortened to prefixes; none that had items is emptied. */
  ghost predicate Shortened(v: Json, w: Json)
    decreases v
  {
    match v
    case Arr(items) =>
      && w.Arr? && |w.items| <= |items| && (items != [] ==> w.items != [])
      && forall i | 0 <= i < |w.items| :: Shortened(items[i], w.items[i])
    case Obj(fields) =>
      && w.Obj? && |w.fields| == |fields|
      && forall i | 0 <= i < |fields| :: fields[i].key == w.fields[i].key && Shortened(fields[i].value, w.fields[i].value)
    case _ => w == v
  }

  lemma {:induction false} ShortenedSelf(v: Json)
    ensures Shortened(v, v)
    decreases v
  {
    match v
    case Arr(items) => forall i | 0 <= i < |items| ensures Shortened(items[i], items[i]) { ShortenedSelf(items[i]); }
    case Obj(fields) => forall i | 0 <= i < |fields| ensures Shortened(fields[i].value, fields[i].value) { ShortenedSelf(fields[i].value); }
    case _ =>
  }

  lemma {:induction false} ShortenedTwice(u: Json, v: Json, w: Json)
    requires Shortened(u, v) && Shortened(v, w)
    ensures Shortened(u, w)
    decreases u
  {
    match u
    case Arr(items) =>
      forall i | 0 <= i < |w.items| ensures Shortened(items[i], w.items[i]) { ShortenedTwice(items[i], v.items[i], w.items[i]); }
    case Obj(fields) =>
      forall i | 0 <= i < |fields| ensures Shortened(fields[i].value, w.fields[i].value) { ShortenedTwice(fields[i].value, v.fields[i].value, w.fields[i].value); }
    case _ =>
  }

  /** The array at `path` cut to its first half, the odd item kept. */
  function Halve(v: Json, path: seq<nat>): Json
    requires Halvable(v, path)
    decreases |path|
  {
    if path == [] then Arr(v.items[..(|v.items| + 1) / 2])
    else if v.Arr? then Arr(v.items[path[0] := Halve(v.items[path[0]], path[1..])])
    else
      ValuesAt(v.fields);
      Obj(v.fields[path[0] := Field(v.fields[path[0]].key, Halve(v.fields[path[0]].value, path[1..]))])
  }

  lemma {:induction false} HalveShortens(v: Json, path: seq<nat>)
    requires Halvable(v, path)
    ensures Shortened(v, Halve(v, path))
    decreases |path|
  {
    if path == [] {
      forall i | 0 <= i < |Halve(v, path).items| ensures Shortened(v.items[i], Halve(v, path).items[i]) { ShortenedSelf(v.items[i]); }
    } else if v.Arr? {
      HalveShortens(v.items[path[0]], path[1..]);
      forall i | 0 <= i < |v.items| ensures Shortened(v.items[i], Halve(v, path).items[i]) { ShortenedSelf(v.items[i]); }
    } else {
      ValuesAt(v.fields);
      HalveShortens(v.fields[path[0]].value, path[1..]);
      forall i | 0 <= i < |v.fields| ensures Shortened(v.fields[i].value, Halve(v, path).fields[i].value) { ShortenedSelf(v.fields[i].value); }
    }
  }

  lemma HalveChild(v: Json, path: seq<nat>, i: nat)
    requires Halvable(v, path) && path != []
    ensures |Children(Halve(v, path))| == |Children(v)| && path[0] < |Children(v)| && Halvable(Children(v)[path[0]], path[1..])
    ensures i < |Children(v)| ==> Children(Halve(v, path))[i] == if i == path[0] then Halve(Children(v)[i], path[1..]) else Children(v)[i]
  {
    if v.Obj? {
      ValuesAt(v.fields);
      ValuesAt(Halve(v, path).fields);
    }
  }

  /** Halving leaves the first half of the array, the middle item included, and every place that is neither in it nor around it as it was. */
  lemma {:induction false} HalveExactly(v: Json, path: seq<nat>, other: seq<nat>)
    requires Halvable(v, path)
    ensures var items, k := At(v, path).value.items, (|At(v, path).value.items| + 1) / 2;
            |items| <= 2 * k <= |items| + 1 && At(Halve(v, path), path) == Some(Arr(items[..k]))
    ensures !(path <= other) && !(other <= path) ==> At(Halve(v, path), other) == At(v, other)
    decreases |path|
  {
    if path != [] {
      hide Halve, Children;
      HalveChild(v, path, path[0]);
      var child := Children(v)[path[0]];
      if other != [] {
        HalveChild(v, path, other[0]);
        if other[0] == path[0] {
          HalveExactly(child, path[1..], other[1..]);
          assert path[1..] <= other[1..] ==> path <= other;
          assert other[1..] <= path[1..] ==> other <= path;
        }
      }
      HalveExactly(child, path[1..], []);
    }
  }

  /** The cutting loop: at most `n` times, while over the bound, the largest array is halved. */
  function HalveLargest(v: Json, max: nat, n: nat): Json
    decreases n
  {
    var m := Measure(v);
    MeasureExact(v);
    if n == 0 || m.size <= max || m.best.None? then v else HalveLargest(Halve(v, m.best.value.path), max, n - 1)
  }

  /** No halvable array is larger than the one at `path`. */
  ghost predicate Largest(v: Json, path: seq<nat>) {
    Halvable(v, path) && forall q | Halvable(v, q) :: SizeAt(v, q) <= SizeAt(v, path)
  }

  /** `w` is `v` after exactly `k` halvings, each of a largest array of a value still over the bound. */
  ghost predicate HalvedTimes(v: Json, w: Json, max: nat, k: nat)
    decreases k
  {
    if k == 0 then w == v
    else Size(v) > max && exists p :: Largest(v, p) && HalvedTimes(Halve(v, p), w, max, k - 1)
  }

  /** Nothing more is to be cut: the value fits, or no array has two items. */
  ghost predicate Done(w: Json, max: nat) { Size(w) <= max || forall p :: !Halvable(w, p) }

  lemma Unhalved(v: Json, max: nat)
    ensures HalvedTimes(v, v, max, 0)
  {
  }

  lemma OneMore(v: Json, p: seq<nat>, w: Json, max: nat, k: nat)
    requires Size(v) > max && Largest(v, p) && HalvedTimes(Halve(v, p), w, max, k)
    ensures HalvedTimes(v, w, max, k + 1)
  {
    hide Size, Halve, Largest;
  }

  /** One turn of the loop, as the measure decides it. */
  lemma TurnExact(v: Json, max: nat)
    ensures var m := Measure(v);
            if m.size <= max || m.best.None? then Done(v, max) else Size(v) > max && Largest(v, m.best.value.path)
  {
    hide Size, Halvable, SizeAt;
    MeasureExact(v);
  }

  /** The loop halves a largest array some number of times, short of `n` only when nothing is left to cut; so it only shortens arrays. */
  lemma {:induction false} HalvingExact(v: Json, max: nat, n: nat) returns (k: nat)
    ensures HalvedTimes(v, HalveLargest(v, max, n), max, k) && k <= n
    ensures k < n ==> Done(HalveLargest(v, max, n), max)
    ensures Shortened(v, HalveLargest(v, max, n))
    decreases n
  {
    hide Size, Halve, Halvable, Shortened, SizeAt, HalvedTimes, Done, Measure;
    var m := Measure(v);
    TurnExact(v, max);
    k := 0;
    if n == 0 || m.size <= max || m.best.None? {
      ShortenedSelf(v);
      Unhalved(v, max);
    } else {
      var p := m.best.value.path;
      var w := HalveLargest(Halve(v, p), max, n - 1);
      HalveShortens(v, p);
      k := HalvingExact(Halve(v, p), max, n - 1);
      ShortenedTwice(v, Halve(v, p), w);
      OneMore(v, p, w, max, k);
      k := k + 1;
    }
  }

  // ----- previews

  lemma {:induction false} EscapedGrows(text: seq<Char>, m: nat, n: nat)
    requires m <= n <= |text|
    ensures Bytes(Quoted(text[..m])) <= Bytes(Quoted(text[..n]))
    decreases n - m
  {
    hide Escape, Bytes;
    if m < n {
      EscapedGrows(text, m, n - 1);
      var a, b := text[..n - 1], text[..n];
      assert b[..|b| - 1] == a;
      BytesJoined(Escaped(a), Escape(b[|b| - 1]));
      Enclosed(QUOTE, Escaped(a), QUOTE);
      Enclosed(QUOTE, Escaped(b), QUOTE);
    }
  }

  /** Quoted, the prefix takes at most half the bound. */
  predicate FitsHalf(text: seq<Char>, n: nat, max: nat)
    requires n <= |text|
  {
    2 * Bytes(Quoted(text[..n])) <= max
  }

  /** `previewOf`: the longest prefix that fits, by binary search; nothing when not even the quotes do. */
  method PreviewOf(text: seq<Char>, max: nat) returns (n: nat)
    ensures n <= |text| && (n == 0 || FitsHalf(text, n, max))
    ensures forall m | n < m <= |text| :: !FitsHalf(text, m, max)
  {
    var lo, hi := 0, |text|;
    while lo < hi
      invariant 0 <= lo <= hi <= |text|
      invariant lo == 0 || FitsHalf(text, lo, max)
      invariant forall m | hi < m <= |text| :: !FitsHalf(text, m, max)
      decreases hi - lo
    {
      var mid := (lo + hi + 1) / 2;
      if FitsHalf(text, mid, max) {
        lo := mid;
      } else {
        forall m | mid <= m <= |text| ensures !FitsHalf(text, m, max) { EscapedGrows(text, mid, m); }
        hi := mid - 1;
      }
    }
    n := lo;
  }

  // ----- marks

  const TRUNCATED: seq<Char> := [116, 114, 117, 110, 99, 97, 116, 101, 100]
  const PREVIEW: seq<Char> := [112, 114, 101, 118, 105, 101, 119]
  const ITEMS: seq<Char> := [105, 116, 101, 109, 115]
  const NEXT_CURSOR: seq<Char> := [110, 101, 120, 116, 67, 117, 114, 115, 111, 114]
  const CURSOR: seq<Char> := [99, 117, 114, 115, 111, 114]
  const NEXT_CURSOR_SNAKE: seq<Char> := [110, 101, 120, 116, 95, 99, 117, 114, 115, 111, 114]

  predicate HasKey(fields: seq<Field>, key: seq<Char>) { exists i | 0 <= i < |fields| :: fields[i].key == key }

  /** Assignment to a property: in place if it is there, else at the end. */
  function SetKey(fields: seq<Field>, key: seq<Char>, value: Json): seq<Field> {
    if fields == [] then [Field(key, value)]
    else if fields[0].key == key then [Field(key, value)] + fields[1..]
    else [fields[0]] + SetKey(fields[1..], key, value)
  }

  function DropCursor(fields: seq<Field>, key: seq<Char>): seq<Field> {
    if HasKey(fields, key) then SetKey(fields, key, Null) else fields
  }

  /** A cut value, marked as one; a cut page's cursors are dropped. */
  function Marked(out: Json): Json {
    if out.Obj? then
      Obj(SetKey(DropCursor(DropCursor(DropCursor(out.fields, NEXT_CURSOR), CURSOR), NEXT_CURSOR_SNAKE), TRUNCATED, Boolean(true)))
    else Obj([Field(ITEMS, out), Field(TRUNCATED, Boolean(true))])
  }

  function PreviewMark(text: seq<Char>): Json { Obj([Field(TRUNCATED, Boolean(true)), Field(PREVIEW, Str(text))]) }

  predicate Plain(c: Char) { 32 <= c < 127 && c != QUOTE && c != BACKSLASH }

  lemma {:induction false} PlainSize(key: seq<Char>)
    requires forall i | 0 <= i < |key| :: Plain(key[i])
    ensures Bytes(Quoted(key)) == |key| + 2
  {
    Enclosed(QUOTE, Escaped(key), QUOTE);
    if key != [] {
      var rest := key[..|key| - 1];
      PlainSize(rest);
      Enclosed(QUOTE, Escaped(rest), QUOTE);
      BytesJoined(Escaped(rest), Escape(key[|key| - 1]));
      OneByte(key[|key| - 1]);
    }
  }

  /** Setting a property lengthens a list of fields by at most that property. */
  lemma {:induction false} SetGrows(fields: seq<Field>, key: seq<Char>, value: Json)
    ensures var before, after := FieldTexts(fields), FieldTexts(SetKey(fields, key, value));
            Sum(after) + |after| <= Sum(before) + |before| + Bytes(Quoted(key)) + 1 + Size(value) + 1
  {
    hide Size, Quoted, Bytes;
    var set_ := SetKey(fields, key, value);
    FieldTextsStep(set_);
    if fields == [] {
      assert set_[1..] == [];
    } else {
      FieldTextsStep(fields);
      assert set_[1..] == if fields[0].key == key then fields[1..] else SetKey(fields[1..], key, value);
      SetGrows(fields[1..], key, value);
    }
  }

  lemma SetSize(fields: seq<Field>, key: seq<Char>, value: Json)
    requires forall i | 0 <= i < |key| :: Plain(key[i])
    ensures Size(Obj(SetKey(fields, key, value))) <= Size(Obj(fields)) + |key| + 4 + Size(value)
  {
    hide Size, FieldTexts;
    SetGrows(fields, key, value);
    PlainSize(key);
    ObjSize(fields);
    ObjSize(SetKey(fields, key, value));
    assert Sum([]) == 0;
    assert |FieldTexts(fields)| == 0 ==> FieldTexts(fields) == [];
  }

  function Lookup(fields: seq<Field>, key: seq<Char>): Option<Json> {
    if fields == [] then None else if fields[0].key == key then Some(fields[0].value) else Lookup(fields[1..], key)
  }

  lemma {:induction false} SetLookup(fields: seq<Field>, key: seq<Char>, value: Json, other: seq<Char>)
    ensures Lookup(SetKey(fields, key, value), other) == if other == key then Some(value) else Lookup(fields, other)
  {
    if fields != [] {
      SetLookup(fields[1..], key, value, other);
      var set_ := SetKey(fields, key, value);
      assert set_[1..] == if fields[0].key == key then fields[1..] else SetKey(fields[1..], key, value);
    }
  }

  lemma {:induction false} HasKeyLookup(fields: seq<Field>, key: seq<Char>)
    ensures HasKey(fields, key) <==> Lookup(fields, key).Some?
  {
    if fields != [] {
      HasKeyLookup(fields[1..], key);
      if HasKey(fields, key) && fields[0].key != key {
        var i :| 0 <= i < |fields| && fields[i].key == key;
        assert fields[1..][i - 1] == fields[i];
      }
      if i :| 0 <= i < |fields[1..]| && fields[1..][i].key == key {
        assert fields[i + 1].key == key;
      }
    }
  }

  lemma DropLookup(fields: seq<Field>, key: seq<Char>, other: seq<Char>)
    ensures Lookup(DropCursor(fields, key), other) == if other == key && Lookup(fields, key).Some? then Some(Null) else Lookup(fields, other)
  {
    HasKeyLookup(fields, key);
    SetLookup(fields, key, Null, other);
  }

  /** A marked page says it is truncated, has no cursor to follow, and keeps everything else it said. */
  /** A preview says it is one, and holds the text. */
  lemma PreviewSays(text: seq<Char>, key: seq<Char>)
    ensures PreviewMark(text).Obj?
    ensures Lookup(PreviewMark(text).fields, key) == if key == TRUNCATED then Some(Boolean(true)) else if key == PREVIEW then Some(Str(text)) else None
  {
    assert |PREVIEW| != |TRUNCATED|;
    var fields, last := PreviewMark(text).fields, [Field(PREVIEW, Str(text))];
    assert fields[1..] == last && last[1..] == [];
    assert Lookup(last, key) == if key == PREVIEW then Some(Str(text)) else None;
  }

  /** A cut value that is no page is sent as the items of one. */
  lemma MarkedList(out: Json, key: seq<Char>)
    requires !out.Obj?
    ensures Marked(out).Obj? && Lookup(Marked(out).fields, key) == if key == ITEMS then Some(out) else if key == TRUNCATED then Some(Boolean(true)) else None
  {
    assert |ITEMS| != |TRUNCATED|;
    var fields, last := [Field(ITEMS, out), Field(TRUNCATED, Boolean(true))], [Field(TRUNCATED, Boolean(true))];
    assert fields[1..] == last && last[1..] == [];
    assert Lookup(last, key) == if key == TRUNCATED then Some(Boolean(true)) else None;
  }

  lemma MarkedPage(fields: seq<Field>, key: seq<Char>)
    ensures Marked(Obj(fields)).Obj?
    ensures Lookup(Marked(Obj(fields)).fields, key) ==
              if key == TRUNCATED then Some(Boolean(true))
              else if key in {NEXT_CURSOR, CURSOR, NEXT_CURSOR_SNAKE} && Lookup(fields, key).Some? then Some(Null)
              else Lookup(fields, key)
  {
    hide DropCursor, SetKey, Lookup;
    var a := DropCursor(fields, NEXT_CURSOR);
    var b := DropCursor(a, CURSOR);
    DropLookup(fields, NEXT_CURSOR, key);
    DropLookup(a, CURSOR, key);
    DropLookup(b, NEXT_CURSOR_SNAKE, key);
    SetLookup(DropCursor(b, NEXT_CURSOR_SNAKE), TRUNCATED, Boolean(true), key);
  }

  /** What the marks of a cut can add: three dropped cursors and `truncated`. */
  const ALLOWANCE := 68

  lemma SmallSizes()
    ensures Size(Null) == 4 && Size(Boolean(true)) == 4
  {
    assert NULL_TEXT == [110] + [117] + [108] + [108] && TRUE_TEXT == [116] + [114] + [117] + [101];
    forall c: Char ensures Bytes([c]) == Utf8Length(c) { OneByte(c); }
    BytesJoined([110], [117]); BytesJoined([110] + [117], [108]); BytesJoined([110] + [117] + [108], [108]);
    BytesJoined([116], [114]); BytesJoined([116] + [114], [117]); BytesJoined([116] + [114] + [117], [101]);
  }

  lemma CursorSize(fields: seq<Field>, key: seq<Char>)
    requires forall i | 0 <= i < |key| :: Plain(key[i])
    ensures Size(Obj(DropCursor(fields, key))) <= Size(Obj(fields)) + |key| + 8
  {
    hide Size, SetKey;
    SmallSizes();
    SetSize(fields, key, Null);
  }

  lemma EmptySize()
    ensures Size(Obj([])) == 2
  {
    ObjSize([]);
  }

  lemma MarkedSize(out: Json)
    ensures Size(Marked(out)) <= Size(out) + ALLOWANCE
  {
    hide Size, SetKey, DropCursor;
    SmallSizes();
    if out.Obj? {
      var a := DropCursor(out.fields, NEXT_CURSOR);
      var b := DropCursor(a, CURSOR);
      var c := DropCursor(b, NEXT_CURSOR_SNAKE);
      CursorSize(out.fields, NEXT_CURSOR);
      CursorSize(a, CURSOR);
      CursorSize(b, NEXT_CURSOR_SNAKE);
      SetSize(c, TRUNCATED, Boolean(true));
    } else {
      PairSize(ITEMS, out, TRUNCATED, Boolean(true));
    }
  }

  lemma PairSize(k: seq<Char>, v: Json, l: seq<Char>, w: Json)
    requires k != l && (forall i | 0 <= i < |k| :: Plain(k[i])) && forall i | 0 <= i < |l| :: Plain(l[i])
    ensures Size(Obj([Field(k, v), Field(l, w)])) <= 2 + |k| + 4 + Size(v) + |l| + 4 + Size(w)
  {
    hide Size;
    EmptySize();
    SetSize([], k, v);
    assert SetKey([], k, v) == [Field(k, v)];
    SetSize([Field(k, v)], l, w);
    assert SetKey([Field(k, v)], l, w) == [Field(k, v), Field(l, w)];
  }

  lemma PreviewSize(text: seq<Char>, n: nat, max: nat)
    requires n <= |text| && (n == 0 || FitsHalf(text, n, max))
    ensures Size(PreviewMark(text[..n])) <= max + ALLOWANCE
  {
    hide Size, Quoted, Bytes;
    SmallSizes();
    PairSize(TRUNCATED, Boolean(true), PREVIEW, Str(text[..n]));
    assert Size(Str(text[..n])) == Bytes(Quoted(text[..n])) by { StrSize(text[..n]); }
    if n == 0 {
      assert text[..0] == [];
      PlainSize([]);
    }
  }

  lemma StrSize(text: seq<Char>)
    ensures Size(Str(text)) == Bytes(Quoted(text))
  {
  }

  /**
   * An output within the bound is returned as it is. Otherwise `cut` is the output with arrays
   * shortened to prefixes: marked when it now fits, else replaced by the longest preview of its
   * text that fits half the bound. Either way the result is within the bound and its marks.
   */
  method FitToolOutput(value: Json, max: nat) returns (r: Json, ghost cut: Json, ghost halvings: nat)
    ensures Size(value) <= max ==> r == value
    ensures Size(value) > max ==>
              && halvings <= 24 && HalvedTimes(value, cut, max, halvings) && (halvings < 24 ==> Done(cut, max)) && Shortened(value, cut)
              && (Size(cut) <= max ==> r == Marked(cut))
              && (Size(cut) > max ==>
                    exists n :: 0 <= n <= |Serialise(cut)| && r == PreviewMark(Serialise(cut)[..n])
                                && (n == 0 || FitsHalf(Serialise(cut), n, max))
                                && forall m | n < m <= |Serialise(cut)| :: !FitsHalf(Serialise(cut), m, max))
    ensures Size(r) <= max + ALLOWANCE
  {
    hide Size, Serialise, Halve, Halvable, Measure, Shortened, Marked, PreviewMark, FitsHalf, HalvedTimes, Done;
    cut, halvings := value, 0;
    if Size(value) <= max {
      return value, cut, halvings;
    }
    var out := value;
    halvings := HalvingExact(value, max, 24);
    var i := 0;
    while i < 24
      invariant 0 <= i <= 24 && HalveLargest(out, max, 24 - i) == HalveLargest(value, max, 24)
    {
      var m := Measure(out);
      MeasureExact(out);
      if m.size <= max || m.best.None? {
        break;
      }
      out := Halve(out, m.best.value.path);
      i := i + 1;
    }
    cut := out;
    if Size(out) > max {
      var n := PreviewOf(Serialise(out), max);
      PreviewSize(Serialise(out), n, max);
      r := PreviewMark(Serialise(out)[..n]);
    } else {
      MarkedSize(out);
      r := Marked(out);
    }
  }
}
