/**
 IMAP sequence-sets (section 9 of RFC 9051): which numbers a set such as "1:5,7,10:*" denotes, and the merged
 sweep that lists them.

 `number` stands for JavaScript's `Number` followed by `Number.isInteger`: the integer a token reads as, if any.
 */
module SequenceSet {
  import opened Text
  import opened Sorting

  type Numeral = string -> Option<int>

  datatype Range = Range(lo: int, hi: int)

  function Min(a: int, b: int): int {
    if a <= b then a else b
  }

  function Max(a: int, b: int): int {
    if a >= b then a else b
  }

  // "*" is the largest number in use, not a literal.
  function Resolve(token: string, largest: nat, number: Numeral): Option<int> {
    if token == "*" then Some(largest) else number(token)
  }

  // ---- What a set denotes ----

  // One part names a number: it is that number, or a range whose ends, in either order, enclose it.
  predicate Names(part: string, n: int, largest: nat, number: Numeral) {
    var token := Trim(part);
    var colon := IndexOf(token, ':');
    if token == "" then false
    else if colon == -1 then Resolve(token, largest, number) == Some(n)
    else
      var a, b := Resolve(token[..colon], largest, number), Resolve(token[colon + 1..], largest, number);
      a.Some? && b.Some? && (a.value <= n <= b.value || b.value <= n <= a.value)
  }

  ghost predicate Denotes(sequence: string, n: int, largest: nat, number: Numeral) {
    1 <= n <= largest && exists part :: part in Split(sequence, ',') && Names(part, n, largest, number)
  }

  ghost predicate Ascending(s: seq<int>) {
    forall i, j :: 0 <= i < j < |s| ==> s[i] < s[j]
  }

  // ---- The merged sweep ----

  // Some range covers the number.
  ghost predicate Covered(ranges: seq<Range>, n: int) {
    exists i :: 0 <= i < |ranges| && ranges[i].lo <= n <= ranges[i].hi
  }

  lemma CoveredSnoc(ranges: seq<Range>, r: Range)
    ensures forall n :: Covered(ranges + [r], n) <==> Covered(ranges, n) || r.lo <= n <= r.hi
  {
    forall n ensures Covered(ranges + [r], n) <==> Covered(ranges, n) || r.lo <= n <= r.hi {
      if Covered(ranges, n) {
        var i :| 0 <= i < |ranges| && ranges[i].lo <= n <= ranges[i].hi;
        assert (ranges + [r])[i] == ranges[i];
      }
      if r.lo <= n <= r.hi {
        assert (ranges + [r])[|ranges|] == r;
      }
    }
  }

  // The ranges one part contributes, clamped to the numbers in use.
  method ReadPart(part: string, largest: nat, number: Numeral) returns (r: seq<Range>)
    ensures forall i :: 0 <= i < |r| ==> 1 <= r[i].lo <= r[i].hi <= largest
    ensures forall n :: Covered(r, n) <==> 1 <= n <= largest && Names(part, n, largest, number)
  {
    r := [];
    var trimmed := Trim(part);
    if trimmed == "" {
      return;
    }
    var colon := IndexOf(trimmed, ':');
    if colon == -1 {
      var n := Resolve(trimmed, largest, number);
      if n.Some? && 1 <= n.value <= largest {
        r := [Range(n.value, n.value)];
        CoveredSnoc([], r[0]);
      }
      return;
    }
    var a, b := Resolve(trimmed[..colon], largest, number), Resolve(trimmed[colon + 1..], largest, number);
    if a.None? || b.None? {
      return;
    }
    var lo, hi := Min(a.value, b.value), Max(a.value, b.value);
    var first, last := Max(lo, 1), Min(hi, largest);
    if first <= last {
      r := [Range(first, last)];
      CoveredSnoc([], r[0]);
    }
  }

  lemma CoveredConcat(a: seq<Range>, b: seq<Range>)
    ensures forall n :: Covered(a + b, n) <==> Covered(a, n) || Covered(b, n)
  {
    forall n ensures Covered(a + b, n) <==> Covered(a, n) || Covered(b, n) {
      if Covered(a, n) {
        var i :| 0 <= i < |a| && a[i].lo <= n <= a[i].hi;
        assert (a + b)[i] == a[i];
      }
      if Covered(b, n) {
        var i :| 0 <= i < |b| && b[i].lo <= n <= b[i].hi;
        assert (a + b)[|a| + i] == b[i];
      }
    }
  }

  ghost predicate NamedByFirst(parts: seq<string>, k: nat, n: int, largest: nat, number: Numeral)
    requires k <= |parts|
  {
    1 <= n <= largest && exists i :: 0 <= i < k && Names(parts[i], n, largest, number)
  }

  method ReadRanges(sequence: string, largest: nat, number: Numeral) returns (ranges: seq<Range>)
    ensures forall i :: 0 <= i < |ranges| ==> 1 <= ranges[i].lo <= ranges[i].hi <= largest
    ensures forall n :: Covered(ranges, n) <==> Denotes(sequence, n, largest, number)
  {
    ranges := [];
    var parts := Split(sequence, ',');
    var k := 0;
    while k < |parts|
      invariant 0 <= k <= |parts|
      invariant forall i :: 0 <= i < |ranges| ==> 1 <= ranges[i].lo <= ranges[i].hi <= largest
      invariant forall n :: Covered(ranges, n) <==> NamedByFirst(parts, k, n, largest, number)
    {
      var r := ReadPart(parts[k], largest, number);
      CoveredConcat(ranges, r);
      ranges := ranges + r;
      k := k + 1;
    }
    forall n ensures Covered(ranges, n) <==> Denotes(sequence, n, largest, number) {
      assert NamedByFirst(parts, k, n, largest, number) <==> Denotes(sequence, n, largest, number);
    }
  }

  // What the sweep has listed after the first k ranges.
  ghost predicate Swept(out: seq<int>, ranges: seq<Range>, k: nat, emittedTo: int)
    requires k <= |ranges|
  {
    && Ascending(out)
    && (forall n :: n in out <==> Covered(ranges[..k], n))
    && (forall n :: n in out ==> n <= emittedTo)
    && (emittedTo == 0 || Covered(ranges[..k], emittedTo))
  }

  method EmitRange(out: seq<int>, r: Range, emittedTo: nat) returns (more: seq<int>)
    requires Ascending(out) && forall n :: n in out ==> n <= emittedTo
    ensures Ascending(more)
    ensures forall n :: n in more <==> n in out || (r.lo <= n <= r.hi && emittedTo < n)
  {
    more := out;
    var n := Max(r.lo, emittedTo + 1);
    ghost var start := n;
    assert forall i :: 0 <= i < |out| ==> out[i] in out;
    while n <= r.hi
      invariant start <= n && (n <= r.hi + 1 || n == start)
      invariant Ascending(more) && forall i :: 0 <= i < |more| ==> more[i] < n
      invariant forall m :: m in more <==> m in out || start <= m < n
    {
      more := more + [n];
      n := n + 1;
    }
  }

  // Every range still to come starts at or above the ones swept, so a number of it that was already listed,
  // or is at most `emittedTo`, is covered.
  lemma AlreadyCovered(ranges: seq<Range>, k: nat, n: int, emittedTo: nat)
    requires SortedBy(ranges, (r: Range) => r.lo) && k < |ranges|
    requires emittedTo == 0 || Covered(ranges[..k], emittedTo)
    requires ranges[k].lo <= n <= emittedTo && 1 <= n
    ensures Covered(ranges[..k], n)
  {
    var i :| 0 <= i < |ranges[..k]| && ranges[..k][i].lo <= emittedTo <= ranges[..k][i].hi;
    var key := (r: Range) => r.lo;
    assert key(ranges[i]) <= key(ranges[k]);
    assert ranges[..k][i].lo <= n <= ranges[..k][i].hi;
  }

  lemma SweepStep(out: seq<int>, more: seq<int>, ranges: seq<Range>, k: nat, emittedTo: nat, next: nat)
    requires SortedBy(ranges, (r: Range) => r.lo) && k < |ranges|
    requires 1 <= ranges[k].lo <= ranges[k].hi
    requires Swept(out, ranges, k, emittedTo)
    requires Ascending(more)
    requires forall n :: n in more <==> n in out || (ranges[k].lo <= n <= ranges[k].hi && emittedTo < n)
    requires next == if ranges[k].hi > emittedTo then ranges[k].hi else emittedTo
    ensures Swept(more, ranges, k + 1, next)
  {
    CoveredSnoc(ranges[..k], ranges[k]);
    assert ranges[..k + 1] == ranges[..k] + [ranges[k]];
    forall n ensures n in more <==> Covered(ranges[..k + 1], n) {
      if ranges[k].lo <= n <= ranges[k].hi && n <= emittedTo {
        AlreadyCovered(ranges, k, n, emittedTo);
      }
    }
  }

  method Sweep(ranges: seq<Range>) returns (out: seq<int>)
    requires SortedBy(ranges, (r: Range) => r.lo)
    requires forall i :: 0 <= i < |ranges| ==> 1 <= ranges[i].lo <= ranges[i].hi
    ensures Ascending(out)
    ensures forall n :: n in out <==> Covered(ranges, n)
  {
    out := [];
    var emittedTo: nat := 0;
    var k := 0;
    while k < |ranges|
      invariant 0 <= k <= |ranges|
      invariant Swept(out, ranges, k, emittedTo)
    {
      var more := EmitRange(out, ranges[k], emittedTo);
      var next := if ranges[k].hi > emittedTo then ranges[k].hi else emittedTo;
      SweepStep(out, more, ranges, k, emittedTo, next);
      out, emittedTo := more, next;
      k := k + 1;
    }
    assert ranges[..k] == ranges;
  }

  // The answer to a sequence-set: every number it denotes, in strictly ascending order.
  ghost predicate IsAnswer(out: seq<int>, sequence: string, largest: nat, number: Numeral) {
    Ascending(out) && forall n :: n in out <==> Denotes(sequence, n, largest, number)
  }

  lemma SortedRangesCover(ranges: seq<Range>, key: Range -> int)
    ensures forall n :: Covered(SortBy(ranges, key), n) <==> Covered(ranges, n)
  {
    SortByMembers(ranges, key);
    forall n ensures Covered(SortBy(ranges, key), n) <==> Covered(ranges, n) {
      if Covered(SortBy(ranges, key), n) {
        var i :| 0 <= i < |SortBy(ranges, key)| && SortBy(ranges, key)[i].lo <= n <= SortBy(ranges, key)[i].hi;
        assert SortBy(ranges, key)[i] in ranges;
      }
      if Covered(ranges, n) {
        var i :| 0 <= i < |ranges| && ranges[i].lo <= n <= ranges[i].hi;
        assert ranges[i] in SortBy(ranges, key);
      }
    }
  }

  method ParseSequenceSet(sequence: string, largest: nat, number: Numeral) returns (out: seq<int>)
    ensures IsAnswer(out, sequence, largest, number)
    ensures |out| <= largest
  {
    var ranges := ReadRanges(sequence, largest, number);
    var sorted := SortBy(ranges, (r: Range) => r.lo);
    SortByIsStableSort(ranges, (r: Range) => r.lo);
    SortByMembers(ranges, (r: Range) => r.lo);
    SortedRangesCover(ranges, (r: Range) => r.lo);
    forall i | 0 <= i < |sorted| ensures 1 <= sorted[i].lo <= sorted[i].hi {
      assert sorted[i] in ranges;
    }
    out := Sweep(sorted);
    BoundedBy(out, largest);
  }

  // ---- Laws of the answer ----

  lemma {:induction false} BoundedBy(s: seq<int>, top: nat)
    requires Ascending(s) && forall n :: n in s ==> 1 <= n <= top
    ensures |s| <= top
  {
    if s != [] {
      var last := s[|s| - 1];
      var init := s[..|s| - 1];
      forall n | n in init ensures 1 <= n <= last - 1 {
        var i :| 0 <= i < |init| && init[i] == n;
        assert s[i] in s;
      }
      assert last in s;
      BoundedBy(init, last - 1);
    }
  }

  // An ascending list is determined by its members.
  lemma {:induction false} AscendingUnique(a: seq<int>, b: seq<int>)
    requires Ascending(a) && Ascending(b)
    requires forall n :: n in a <==> n in b
    ensures a == b
  {
    BothEmpty(a, b);
    if a != [] {
      assert a[0] in b && b[0] in a;
      forall n ensures n in a[1..] <==> n in b[1..] {
        assert a == [a[0]] + a[1..] && b == [b[0]] + b[1..];
        TailAbove(a, n);
        TailAbove(b, n);
      }
      AscendingUnique(a[1..], b[1..]);
    }
  }

  lemma BothEmpty(a: seq<int>, b: seq<int>)
    requires forall n :: n in a <==> n in b
    ensures a == [] <==> b == []
  {
    if a != [] {
      var first := a[0];
      assert first in b;
    }
    if b != [] {
      var first := b[0];
      assert first in a;
    }
  }

  lemma TailAbove(a: seq<int>, n: int)
    requires Ascending(a) && a != []
    ensures n in a[1..] <==> n in a && n != a[0]
    ensures n in a ==> a[0] <= n
  {
    assert a == [a[0]] + a[1..];
  }

  // Order, overlap and repetition of the parts do not matter.
  lemma PartsAreASet(s: string, t: string, a: seq<int>, b: seq<int>, largest: nat, number: Numeral)
    requires forall part :: part in Split(s, ',') <==> part in Split(t, ',')
    requires IsAnswer(a, s, largest, number) && IsAnswer(b, t, largest, number)
    ensures a == b
  {
    AscendingUnique(a, b);
  }

  // What a part holds that is a range once trimmed.
  lemma RangeNames(part: string, x: string, y: string, n: int, largest: nat, number: Numeral)
    requires Trim(part) == x + ":" + y && ':' !in x
    ensures var a, b := Resolve(x, largest, number), Resolve(y, largest, number);
            Names(part, n, largest, number)
            <==> a.Some? && b.Some? && (a.value <= n <= b.value || b.value <= n <= a.value)
  {
    var s := x + ":" + y;
    assert s[|x|] == ':' && forall i :: 0 <= i < |x| ==> s[i] == x[i];
    assert IndexOf(s, ':') == |x|;
    assert s[..|x|] == x && s[|x| + 1..] == y;
  }

  // A range reads the same from either end, with whatever white space around it.
  lemma RangeCommutes(part: string, turned: string, x: string, y: string, n: int, largest: nat, number: Numeral)
    requires ':' !in x && ':' !in y && Trim(part) == x + ":" + y && Trim(turned) == y + ":" + x
    ensures Names(part, n, largest, number) <==> Names(turned, n, largest, number)
  {
    RangeNames(part, x, y, n, largest, number);
    RangeNames(turned, y, x, n, largest, number);
  }

  // The part, once trimmed, is a range that names "*" at one end and `x` at the other.
  predicate StarRange(part: string, x: string) {
    (Trim(part) == x + ":" + "*" && ':' !in x) || Trim(part) == "*" + ":" + x
  }

  // A range that names "*" holds the largest number of a mailbox that is not empty, wherever its other end is.
  lemma StarHoldsLargest(s: string, part: string, x: string, out: seq<int>, largest: nat, number: Numeral)
    requires part in Split(s, ',') && StarRange(part, x)
    requires Resolve(x, largest, number).Some? && largest > 0
    requires IsAnswer(out, s, largest, number)
    ensures largest in out
  {
    if Trim(part) == "*" + ":" + x {
      RangeNames(part, "*", x, largest, largest, number);
    } else {
      RangeNames(part, x, "*", largest, largest, number);
    }
    assert Names(part, largest, largest, number);
  }
}
