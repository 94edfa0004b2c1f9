/** `writeSandboxFile`: a string too long for one RPC is written in parts that are joined in the container. */
module SandboxFile {
  import opened Wrappers
  import Sorting
  import Utf8Text

  /** UTF-16 code units and bytes. */
  type Unit = u: int | 0 <= u < 0x10000
  predicate High(u: Unit) { 0xD800 <= u <= 0xDBFF }
  predicate Low(u: Unit) { 0xDC00 <= u <= 0xDFFF }

  function Encode3(c: int): seq<byte>
    requires 0x800 <= c < 0x10000
  {
    [0xE0 + c / 4096, 0x80 + c / 64 % 64, 0x80 + c % 64]
  }

  function EncodePair(high: Unit, low: Unit): seq<byte>
    requires High(high) && Low(low)
  {
    var c := 0x10000 + (high - 0xD800) * 1024 + (low - 0xDC00);
    [0xF0 + c / 262144, 0x80 + c / 4096 % 64, 0x80 + c / 64 % 64, 0x80 + c % 64]
  }

  /** One unit on its own; a surrogate without its other half is written as U+FFFD. */
  function EncodeUnit(u: Unit): seq<byte> {
    if u < 0x80 then [u]
    else if u < 0x800 then [0xC0 + u / 64, 0x80 + u % 64]
    else if High(u) || Low(u) then Encode3(0xFFFD)
    else Encode3(u)
  }

  predicate StartsPair(s: seq<Unit>) { |s| >= 2 && High(s[0]) && Low(s[1]) }

  /** The UTF-8 bytes a string is written as. */
  function Utf8(s: seq<Unit>): seq<byte> {
    if s == [] then []
    else if StartsPair(s) then EncodePair(s[0], s[1]) + Utf8(s[2..])
    else EncodeUnit(s[0]) + Utf8(s[1..])
  }

  lemma {:induction false} UnitsInRange(s: string)
    ensures forall i | 0 <= i < |Sorting.Utf16(s)| :: 0 <= Sorting.Utf16(s)[i] < 0x10000
  {
    if s != "" {
      UnitsInRange(s[1..]);
    }
  }

  function AsUnits(units: seq<int>): seq<Unit>
    requires forall i | 0 <= i < |units| :: 0 <= units[i] < 0x10000
  {
    seq(|units|, i requires 0 <= i < |units| => units[i] as Unit)
  }

  lemma PairUtf8(c: char)
    requires c as int >= 0x10000
    ensures var h, l := 0xD800 + (c as int - 0x10000) / 1024, 0xDC00 + (c as int - 0x10000) % 1024;
            High(h) && Low(l) && EncodePair(h, l) == Utf8Text.EncodeChar(c)
  {
    var m := c as int - 0x10000;
    assert m == m / 1024 * 1024 + m % 1024;
  }

  lemma UnitUtf8(c: char)
    requires c as int < 0x10000
    ensures !High(c as int) && !Low(c as int) && EncodeUnit(c as int) == Utf8Text.EncodeChar(c)
  {
  }

  lemma OneAhead(u: Unit, rest: seq<Unit>)
    requires !High(u) || rest == [] || !Low(rest[0])
    ensures Utf8([u] + rest) == EncodeUnit(u) + Utf8(rest)
  {
    hide EncodeUnit, EncodePair;
    assert ([u] + rest)[1..] == rest;
  }

  lemma TwoAhead(h: Unit, l: Unit, rest: seq<Unit>)
    requires High(h) && Low(l)
    ensures Utf8([h, l] + rest) == EncodePair(h, l) + Utf8(rest)
  {
    hide EncodeUnit, EncodePair;
    assert ([h, l] + rest)[2..] == rest;
  }

  lemma CharUtf8(c: char, rest: seq<Unit>)
    ensures forall i | 0 <= i < |Sorting.Units(c)| :: 0 <= Sorting.Units(c)[i] < 0x10000
    ensures Utf8(AsUnits(Sorting.Units(c)) + rest) == Utf8Text.EncodeChar(c) + Utf8(rest)
  {
    hide Utf8, EncodeUnit, EncodePair, Utf8Text.EncodeChar;
    var n := c as int;
    if n < 0x10000 {
      UnitUtf8(c);
      OneAhead(n, rest);
      assert AsUnits(Sorting.Units(c)) == [n];
    } else {
      var h, l := 0xD800 + (n - 0x10000) / 1024, 0xDC00 + (n - 0x10000) % 1024;
      PairUtf8(c);
      TwoAhead(h, l, rest);
      assert AsUnits(Sorting.Units(c)) == [h, l];
    }
  }

  /** Text is written as its UTF-8 bytes. */
  lemma {:induction false} TextUtf8(s: string)
    ensures (UnitsInRange(s); Utf8(AsUnits(Sorting.Utf16(s)))) == Utf8Text.Utf8Of(s)
  {
    UnitsInRange(s);
    if s == "" {
      assert Utf8([]) == [];
    } else {
      hide Utf8, Utf8Text.EncodeChar;
      UnitsInRange(s[1..]);
      TextUtf8(s[1..]);
      var rest := AsUnits(Sorting.Utf16(s[1..]));
      CharUtf8(s[0], rest);
      assert AsUnits(Sorting.Utf16(s)) == AsUnits(Sorting.Units(s[0])) + rest;
    }
  }

  lemma Replaced(u: Unit)
    requires High(u) || Low(u)
    ensures EncodeUnit(u) == Utf8Text.EncodeChar('\U{FFFD}')
  {
  }

  /** A surrogate that stands alone is written as U+FFFD. */
  lemma LoneUtf8(u: Unit, rest: seq<Unit>)
    requires (High(u) && (rest == [] || !Low(rest[0]))) || Low(u)
    ensures Utf8([u] + rest) == Utf8Text.EncodeChar('\U{FFFD}') + Utf8(rest)
  {
    hide Utf8, EncodeUnit, Utf8Text.EncodeChar;
    OneAhead(u, rest);
    Replaced(u);
  }

  /** A cut that splits no pair splits the bytes too. */
  lemma {:induction false} CutKeepsBytes(s: seq<Unit>, end: nat)
    requires end <= |s| && !(0 < end < |s| && High(s[end - 1]) && Low(s[end]))
    ensures Utf8(s) == Utf8(s[..end]) + Utf8(s[end..])
  {
    hide EncodePair, EncodeUnit;
    if end == 0 {
      assert s[..0] == [] && s[0..] == s;
    } else {
      var w := if StartsPair(s) then 2 else 1;
      assert s[..end][w..] == s[w..end] && StartsPair(s[..end]) == StartsPair(s);
      CutKeepsBytes(s[w..], end - w);
      assert s[w..][..end - w] == s[w..end] && s[w..][end - w..] == s[end..];
      var head := if w == 2 then EncodePair(s[0], s[1]) else EncodeUnit(s[0]);
      assert head + (Utf8(s[w..end]) + Utf8(s[end..])) == (head + Utf8(s[w..end])) + Utf8(s[end..]);
    }
  }

  /** Where the part that starts at `start` ends. */
  function CutAfter(content: seq<Unit>, start: nat, chunk: nat): nat
    requires start < |content|
  {
    var end := if start + chunk <= |content| then start + chunk else |content|;
    if 0 < end < |content| && High(content[end - 1]) then end - 1 else end
  }

  /** With parts of one unit, the loop stands still exactly on a high surrogate that is not the last unit. */
  lemma ProgressExactly(content: seq<Unit>, start: nat, chunk: nat)
    requires start < |content| && chunk > 0
    ensures CutAfter(content, start, chunk) > start <==> !(chunk == 1 && start + 1 < |content| && High(content[start]))
  {
  }

  /** When the loop ends: parts of two units or more, or of one where no high surrogate stands before the last unit. */
  ghost predicate Ends(content: seq<Unit>, chunk: nat) {
    chunk >= 2 || |content| <= chunk || (chunk == 1 && forall i | 0 <= i < |content| - 1 :: !High(content[i]))
  }

  /** Where the loop stands after `n` turns. */
  ghost function Position(content: seq<Unit>, chunk: nat, n: nat): nat {
    if n == 0 then 0
    else
      var start := Position(content, chunk, n - 1);
      if start < |content| then CutAfter(content, start, chunk) else start
  }

  lemma {:induction false} Advances(content: seq<Unit>, chunk: nat, n: nat)
    requires Ends(content, chunk) && chunk < |content|
    ensures (if n < |content| then n else |content|) <= Position(content, chunk, n) <= |content|
  {
    if n > 0 {
      Advances(content, chunk, n - 1);
      var start := Position(content, chunk, n - 1);
      if start < |content| {
        ProgressExactly(content, start, chunk);
      }
    }
  }

  lemma {:induction false} Held(content: seq<Unit>, chunk: nat, at: nat, n: nat)
    requires at < |content| && chunk <= 1
    requires if chunk == 0 then at == 0 else at < |content| - 1 && High(content[at]) && forall i | 0 <= i < at :: !High(content[i])
    ensures Position(content, chunk, n) <= at
  {
    if n > 0 {
      Held(content, chunk, at, n - 1);
    }
  }

  lemma {:induction false} FirstHigh(content: seq<Unit>, n: nat) returns (at: nat)
    requires n < |content| && exists i :: 0 <= i < n && High(content[i])
    ensures at < n && High(content[at]) && forall i | 0 <= i < at :: !High(content[i])
  {
    if exists i :: 0 <= i < n - 1 && High(content[i]) {
      at := FirstHigh(content, n - 1);
    } else {
      at := n - 1;
    }
  }

  /** That is exactly when it ends: in every other case it stands still for ever before the last unit. */
  lemma EndsExactly(content: seq<Unit>, chunk: nat)
    ensures Ends(content, chunk) <==> |content| <= chunk || exists n :: Position(content, chunk, n) == |content|
  {
    if |content| > chunk {
      if Ends(content, chunk) {
        Advances(content, chunk, |content|);
      } else {
        var at := 0;
        if chunk == 1 {
          at := FirstHigh(content, |content| - 1);
        }
        forall n ensures Position(content, chunk, n) != |content| { Held(content, chunk, at, n); }
      }
    }
  }

  /** Every part but the last is a whole chunk, or a unit short of one where the chunk would have ended on a high surrogate. */
  ghost predicate Full(content: seq<Unit>, chunk: nat, parts: seq<seq<Unit>>) {
    forall k | 0 <= k < |parts| :: FullAt(content, chunk, |Flat(parts[..k])|, |parts[k]|)
  }

  ghost predicate FullAt(content: seq<Unit>, chunk: nat, start: nat, size: nat) {
    || size == chunk || start + size == |content|
    || (size + 1 == chunk && start + chunk < |content| && High(content[start + size]))
  }

  /** What the container joins: part `k` holds the bytes of `parts[k]`. */
  ghost function Joined(parts: seq<seq<Unit>>): seq<byte> {
    if parts == [] then [] else Joined(parts[..|parts| - 1]) + Utf8(parts[|parts| - 1])
  }

  ghost function Flat(parts: seq<seq<Unit>>): seq<Unit> {
    if parts == [] then [] else Flat(parts[..|parts| - 1]) + parts[|parts| - 1]
  }

  lemma PartAdds(content: seq<Unit>, parts: seq<seq<Unit>>, start: nat, end: nat)
    requires start <= end <= |content| && !(0 < start < |content| && High(content[start - 1]) && Low(content[start]))
    requires Flat(parts) == content[..start] && Joined(parts) == Utf8(content[..start])
    ensures var more := parts + [content[start..end]];
            Flat(more) == content[..end] && Joined(more) == Utf8(content[..end])
  {
    hide Utf8;
    var more := parts + [content[start..end]];
    assert more[..|more| - 1] == parts;
    CutKeepsBytes(content[..end], start);
    assert content[..end][..start] == content[..start] && content[..end][start..] == content[start..end];
    assert content[..end] == content[..start] + content[start..end];
  }

  /** One part's end: a chunk on, less one unit where that would split a pair. */
  method NextCut(content: seq<Unit>, start: nat, chunk: nat) returns (end: nat)
    requires start < |content| && chunk > 0 && Ends(content, chunk) && |content| > chunk
    ensures end == CutAfter(content, start, chunk)
    ensures start < end <= |content| && end - start <= chunk
    ensures end < |content| ==> !(High(content[end - 1]) && Low(content[end]))
  {
    end := if start + chunk <= |content| then start + chunk else |content|;
    if end < |content| && High(content[end - 1]) {
      end := end - 1;
    }
  }

  /**
   * The parts are non-empty, within the chunk and concatenate to the content, and joining what each
   * is written as gives the content's own bytes.
   */
  method WriteSandboxFile(content: seq<Unit>, chunk: nat) returns (parts: seq<seq<Unit>>)
    requires Ends(content, chunk)
    ensures Flat(parts) == content && Joined(parts) == Utf8(content)
    ensures forall i | 0 <= i < |parts| :: |parts[i]| <= chunk
    ensures |content| > chunk ==> forall i | 0 <= i < |parts| :: 0 < |parts[i]|
    ensures |content| <= chunk ==> parts == [content]
    ensures |content| > chunk ==> Full(content, chunk, parts)
  {
    if |content| <= chunk {
      Alone(content);
      return [content];
    }
    hide Utf8, Joined, Flat, CutAfter, Ends, FullAt;
    assert chunk > 0 by { EndsPositive(content, chunk); }
    parts := [];
    var start := 0;
    Nothing(content);
    while start < |content|
      invariant start <= |content|
      invariant Flat(parts) == content[..start] && Joined(parts) == Utf8(content[..start])
      invariant 0 < start < |content| ==> !(High(content[start - 1]) && Low(content[start]))
      invariant forall i | 0 <= i < |parts| :: 0 < |parts[i]| <= chunk
      invariant Full(content, chunk, parts)
      decreases |content| - start
    {
      var end := NextCut(content, start, chunk);
      PartAdds(content, parts, start, end);
      CutIsFull(content, chunk, start);
      FullAppends(content, chunk, parts, content[start..end]);
      parts := parts + [content[start..end]];
      start := end;
    }
    assert content[..start] == content;
  }

  lemma CutIsFull(content: seq<Unit>, chunk: nat, start: nat)
    requires start < |content| && chunk > 0 && start < CutAfter(content, start, chunk)
    ensures FullAt(content, chunk, start, CutAfter(content, start, chunk) - start)
  {
  }

  lemma FullAppends(content: seq<Unit>, chunk: nat, parts: seq<seq<Unit>>, part: seq<Unit>)
    requires Full(content, chunk, parts) && FullAt(content, chunk, |Flat(parts)|, |part|)
    ensures Full(content, chunk, parts + [part])
  {
    hide Flat, FullAt;
    var more := parts + [part];
    assert more[..|parts|] == parts;
    forall k | 0 <= k < |more| ensures FullAt(content, chunk, |Flat(more[..k])|, |more[k]|) {
      if k < |parts| { assert more[..k] == parts[..k] && more[k] == parts[k]; }
    }
  }

  lemma EndsPositive(content: seq<Unit>, chunk: nat)
    requires Ends(content, chunk) && |content| > chunk
    ensures chunk > 0
  {
  }

  lemma Alone(content: seq<Unit>)
    ensures Flat([content]) == content && Joined([content]) == Utf8(content)
  {
    hide Utf8;
    assert [content][..0] == [];
  }

  lemma Nothing(content: seq<Unit>)
    ensures Flat([]) == content[..0] && Joined([]) == Utf8(content[..0])
  {
  }
}
