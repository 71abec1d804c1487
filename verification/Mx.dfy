/**
 Ordering the mail exchangers of a domain (section 5.1 of RFC 5321): by increasing preference, each tier of equal
 preference shuffled in place.

 `draws` stands for the successive results of the random source, each at least 0 and below 1.
 */
module Mx {
  import opened Sorting
  import opened Text

  datatype Record = Record(host: string, preference: int)

  ghost predicate Fair(draws: seq<real>) {
    forall t :: 0 <= t < |draws| ==> 0.0 <= draws[t] < 1.0
  }

  function Preference(r: Record): int {
    r.preference
  }

  // ---- One draw ----

  // The draw x chooses among m positions.
  function Pick(x: real, m: nat): (r: nat)
    requires 0.0 <= x < 1.0 && m > 0
    ensures r < m
  {
    PickInRange(x, m);
    (x * m as real).Floor
  }

  lemma PickInRange(x: real, m: nat)
    requires 0.0 <= x < 1.0 && m > 0
    ensures 0.0 <= x * m as real < m as real
  {
  }

  // Every position gets an equal share of the draws.
  lemma PickShare(x: real, m: nat, r: nat)
    requires 0.0 <= x < 1.0 && r < m
    ensures Pick(x, m) == r <==> r as real / m as real <= x < (r + 1) as real / m as real
  {
    DivideLeft(r as real, m as real, x);
    DivideLeft((r + 1) as real, m as real, x);
  }

  lemma DivideLeft(a: real, b: real, x: real)
    requires b > 0.0
    ensures a / b <= x <==> a <= x * b
  {
    var q := a / b;
    assert q * b == a;
    if q <= x {
      Scale(q, x, b);
    } else {
      Scale(x, q, b);
    }
  }

  lemma Scale(x: real, y: real, b: real)
    requires b > 0.0 && x <= y
    ensures x * b <= y * b
    ensures x < y ==> x * b < y * b
  {
    assert (y - x) * b >= 0.0;
  }

  // ---- Shuffling one tier ----

  // The position drawn at each step for a tier of m records; the last step is the first position left alone.
  ghost predicate Picks(picks: seq<nat>, m: nat) {
    |picks| == (if m == 0 then 0 else m - 1) && forall t :: 0 <= t < |picks| ==> picks[t] < m - t
  }

  function Swapped<T>(s: seq<T>, k: nat, r: nat): (q: seq<T>)
    requires k < |s| && r < |s|
    ensures |q| == |s|
  {
    s[k := s[r]][r := s[k]]
  }

  lemma PicksTail(picks: seq<nat>, m: nat)
    requires Picks(picks, m) && m > 1
    ensures Picks(picks[1..], m - 1)
  {
    forall t | 0 <= t < |picks[1..]| ensures picks[1..][t] < m - 1 - t {
      assert picks[1..][t] == picks[t + 1];
    }
  }

  // The tier after its steps, the last position settled first.
  function Shuffled<T>(s: seq<T>, picks: seq<nat>): (q: seq<T>)
    requires Picks(picks, |s|)
    ensures |q| == |s|
    decreases |s|
  {
    if |s| <= 1 then s
    else
      var k := |s| - 1;
      var swapped := Swapped(s, k, picks[0]);
      PicksTail(picks, |s|);
      Shuffled(swapped[..k], picks[1..]) + [swapped[k]]
  }

  lemma SwappedPermutes<T>(s: seq<T>, k: nat, r: nat)
    requires k < |s| && r < |s|
    ensures multiset(Swapped(s, k, r)) == multiset(s)
  {
  }

  lemma LastApart<T>(s: seq<T>)
    requires s != []
    ensures s == s[..|s| - 1] + [s[|s| - 1]]
    ensures multiset(s) == multiset(s[..|s| - 1]) + multiset{s[|s| - 1]}
  {
    assert s == s[..|s| - 1] + [s[|s| - 1]];
  }

  // Whatever is drawn, the tier is permuted.
  lemma {:induction false} ShuffledPermutes<T>(s: seq<T>, picks: seq<nat>)
    requires Picks(picks, |s|)
    ensures multiset(Shuffled(s, picks)) == multiset(s)
    decreases |s|
  {
    if |s| > 1 {
      var k := |s| - 1;
      var swapped := Swapped(s, k, picks[0]);
      PicksTail(picks, |s|);
      ShuffledPermutes(swapped[..k], picks[1..]);
      SwappedPermutes(s, k, picks[0]);
      LastApart(swapped);
    }
  }

  ghost predicate Distinct<T>(s: seq<T>) {
    forall i, j :: 0 <= i < j < |s| ==> s[i] != s[j]
  }

  lemma SwappedDistinct<T>(s: seq<T>, k: nat, r: nat)
    requires Distinct(s) && k < |s| && r < |s|
    ensures Distinct(Swapped(s, k, r))
  {
  }

  // Two draw sequences that give the same order of distinct records are the same.
  lemma {:induction false} DrawsUnique<T>(s: seq<T>, p: seq<nat>, q: seq<nat>)
    requires Distinct(s) && Picks(p, |s|) && Picks(q, |s|)
    requires Shuffled(s, p) == Shuffled(s, q)
    ensures p == q
    decreases |s|
  {
    if |s| > 1 {
      var k := |s| - 1;
      var a, b := Swapped(s, k, p[0]), Swapped(s, k, q[0]);
      PicksTail(p, |s|);
      PicksTail(q, |s|);
      SameEnds(Shuffled(a[..k], p[1..]), a[k], Shuffled(b[..k], q[1..]), b[k]);
      assert s[p[0]] == s[q[0]];
      SwappedDistinct(s, k, p[0]);
      DrawsUnique(a[..k], p[1..], q[1..]);
      assert p == [p[0]] + p[1..] && q == [q[0]] + q[1..];
    }
  }

  lemma SameEnds<T>(a: seq<T>, x: T, b: seq<T>, y: T)
    requires a + [x] == b + [y] && |a| == |b|
    ensures a == b && x == y
  {
    assert a == (a + [x])[..|a|] && b == (b + [y])[..|b|];
    assert x == (a + [x])[|a|] && y == (b + [y])[|b|];
  }

  // The picks that put the records of a tier in a wanted order.
  lemma {:induction false} DrawsFor<T(!new)>(s: seq<T>, wanted: seq<T>) returns (picks: seq<nat>)
    requires multiset(s) == multiset(wanted)
    ensures Picks(picks, |s|) && Shuffled(s, picks) == wanted
    decreases |s|
  {
    SameLength(s, wanted);
    if |s| <= 1 {
      SingleSame(s, wanted);
      picks := [];
    } else {
      LastInside(s, wanted);
      var r: nat :| r < |s| && s[r] == wanted[|s| - 1];
      RestMatches(s, wanted, r);
      var later := DrawsFor(Swapped(s, |s| - 1, r)[..|s| - 1], wanted[..|s| - 1]);
      picks := [r] + later;
      PicksCons(r, later, |s|);
      LastApart(wanted);
    }
  }

  lemma PicksCons(r: nat, later: seq<nat>, m: nat)
    requires 1 < m && r < m && Picks(later, m - 1)
    ensures Picks([r] + later, m) && ([r] + later)[1..] == later
  {
  }

  lemma SingleSame<T>(s: seq<T>, wanted: seq<T>)
    requires multiset(s) == multiset(wanted) && |s| == |wanted| <= 1
    ensures s == wanted
  {
    if |s| == 1 {
      assert s == [s[0]] && wanted == [wanted[0]];
      assert s[0] in multiset(wanted);
    }
  }

  lemma LastInside<T>(s: seq<T>, wanted: seq<T>)
    requires multiset(s) == multiset(wanted) && wanted != []
    ensures exists r: nat :: r < |s| && s[r] == wanted[|wanted| - 1]
  {
    assert wanted[|wanted| - 1] in multiset(s);
    assert wanted[|wanted| - 1] in s;
  }

  lemma RestMatches<T>(s: seq<T>, wanted: seq<T>, r: nat)
    requires multiset(s) == multiset(wanted) && |s| == |wanted| > 0
    requires r < |s| && s[r] == wanted[|s| - 1]
    ensures multiset(Swapped(s, |s| - 1, r)[..|s| - 1]) == multiset(wanted[..|s| - 1])
  {
    var swapped := Swapped(s, |s| - 1, r);
    SwappedPermutes(s, |s| - 1, r);
    LastApart(swapped);
    LastApart(wanted);
    assert swapped[|s| - 1] == wanted[|s| - 1];
    assert multiset{wanted[|s| - 1]} + multiset(swapped[..|s| - 1]) == multiset(s);
    assert multiset{wanted[|s| - 1]} + multiset(wanted[..|s| - 1]) == multiset(s);
    Cancel(wanted[|s| - 1], multiset(swapped[..|s| - 1]), multiset(wanted[..|s| - 1]));
  }

  // Within a tier of distinct records the draw sequences and the orders correspond one to one.
  lemma EachOrderHasOneDraw<T(!new)>(s: seq<T>, wanted: seq<T>)
    requires Distinct(s) && multiset(s) == multiset(wanted)
    ensures exists picks :: Picks(picks, |s|) && Shuffled(s, picks) == wanted
    ensures forall p, q :: Picks(p, |s|) && Picks(q, |s|) && Shuffled(s, p) == wanted && Shuffled(s, q) == wanted ==>
            p == q
  {
    var picks := DrawsFor(s, wanted);
    forall p, q | Picks(p, |s|) && Picks(q, |s|) && Shuffled(s, p) == wanted && Shuffled(s, q) == wanted
      ensures p == q
    {
      DrawsUnique(s, p, q);
    }
  }

  // ---- The whole list, tier by tier ----

  // Length of the first tier.
  function TierLength(s: seq<Record>): (n: nat)
    requires s != []
    ensures 1 <= n <= |s|
    ensures forall i :: 0 <= i < n ==> s[i].preference == s[0].preference
    ensures n < |s| ==> s[n].preference != s[0].preference
  {
    if |s| > 1 && s[1].preference == s[0].preference then 1 + TierLength(s[1..]) else 1
  }

  // The positions drawn for a tier of m records.
  function TierPicks(draws: seq<real>, m: nat): (picks: seq<nat>)
    requires Fair(draws) && m > 0 && |draws| >= m - 1
    ensures Picks(picks, m)
  {
    seq(m - 1, t requires 0 <= t < m - 1 => Pick(draws[t], m - t))
  }

  // How many draws the list takes: m - 1 for a tier of m records.
  function Needed(s: seq<Record>): nat
    decreases |s|
  {
    if s == [] then 0 else TierLength(s) - 1 + Needed(s[TierLength(s)..])
  }

  ghost predicate Enough(s: seq<Record>, draws: seq<real>) {
    Fair(draws) && |draws| >= Needed(s)
  }

  lemma EnoughTail(s: seq<Record>, draws: seq<real>)
    requires Enough(s, draws) && s != []
    ensures |draws| >= TierLength(s) - 1
    ensures Enough(s[TierLength(s)..], draws[TierLength(s) - 1..])
  {
  }

  // The list in the order the draws give it.
  function Ordered(s: seq<Record>, draws: seq<real>): (q: seq<Record>)
    requires Enough(s, draws)
    ensures |q| == |s|
    decreases |s|
  {
    if s == [] then []
    else
      EnoughTail(s, draws);
      var m := TierLength(s);
      Shuffled(s[..m], TierPicks(draws, m)) + Ordered(s[m..], draws[m - 1..])
  }

  lemma SplitCounts<T>(s: seq<T>, m: nat)
    requires m <= |s|
    ensures multiset(s) == multiset(s[..m]) + multiset(s[m..])
  {
    assert s == s[..m] + s[m..];
  }

  lemma PermutedMembers<T>(a: seq<T>, b: seq<T>)
    requires multiset(a) == multiset(b)
    ensures forall x :: x in a <==> x in b
  {
    forall x ensures x in a <==> x in b {
      assert x in a <==> x in multiset(a);
      assert x in b <==> x in multiset(b);
    }
  }

  lemma TierIsLow(s: seq<Record>)
    requires s != [] && SortedBy(s, Preference)
    ensures forall x :: x in s[..TierLength(s)] ==> x.preference == s[0].preference
    ensures forall x :: x in s[TierLength(s)..] ==> x.preference > s[0].preference
    ensures SortedBy(s[TierLength(s)..], Preference)
  {
    var m := TierLength(s);
    forall x | x in s[m..] ensures x.preference > s[0].preference {
      var i :| 0 <= i < |s[m..]| && s[m..][i] == x;
      assert Preference(s[0]) <= Preference(s[m]) <= Preference(s[m + i]);
    }
  }

  lemma JoinSorted(a: seq<Record>, b: seq<Record>, p: int)
    requires forall x :: x in a ==> x.preference == p
    requires forall x :: x in b ==> x.preference > p
    requires SortedBy(b, Preference)
    ensures SortedBy(a + b, Preference)
  {
    forall i, j | 0 <= i < j < |a + b| ensures Preference((a + b)[i]) <= Preference((a + b)[j]) {
      assert i < |a| ==> (a + b)[i] in a;
      assert j < |a| ==> (a + b)[j] in a;
      assert j >= |a| ==> (a + b)[j] == b[j - |a|] && b[j - |a|] in b;
      assert i >= |a| ==> (a + b)[i] == b[i - |a|];
    }
  }

  // Whatever is drawn, the result is a permutation in non-decreasing preference.
  lemma {:induction false} OrderedIsRight(s: seq<Record>, draws: seq<real>)
    requires Enough(s, draws)
    requires SortedBy(s, Preference)
    ensures multiset(Ordered(s, draws)) == multiset(s)
    ensures SortedBy(Ordered(s, draws), Preference)
    decreases |s|
  {
    if s != [] {
      var m := TierLength(s);
      EnoughTail(s, draws);
      TierIsLow(s);
      ShuffledPermutes(s[..m], TierPicks(draws, m));
      OrderedIsRight(s[m..], draws[m - 1..]);
      TierThenRest(s, Shuffled(s[..m], TierPicks(draws, m)), Ordered(s[m..], draws[m - 1..]));
    }
  }

  lemma TierThenRest(s: seq<Record>, tier: seq<Record>, rest: seq<Record>)
    requires s != [] && SortedBy(s, Preference)
    requires multiset(tier) == multiset(s[..TierLength(s)])
    requires multiset(rest) == multiset(s[TierLength(s)..]) && SortedBy(rest, Preference)
    ensures multiset(tier + rest) == multiset(s) && SortedBy(tier + rest, Preference)
  {
    TierIsLow(s);
    SplitCounts(s, TierLength(s));
    PermutedMembers(tier, s[..TierLength(s)]);
    PermutedMembers(rest, s[TierLength(s)..]);
    JoinSorted(tier, rest, s[0].preference);
  }

  // Every position drawn over the whole list.
  function AllPicks(s: seq<Record>, draws: seq<real>): seq<nat>
    requires Enough(s, draws)
    decreases |s|
  {
    if s == [] then []
    else
      EnoughTail(s, draws);
      TierPicks(draws, TierLength(s)) + AllPicks(s[TierLength(s)..], draws[TierLength(s) - 1..])
  }

  lemma SplitSame<T>(a: seq<T>, x: seq<T>, b: seq<T>, y: seq<T>)
    requires |a| == |b| && a + x == b + y
    ensures a == b && x == y
  {
    assert a == (a + x)[..|a|] && b == (b + y)[..|a|];
    assert x == (a + x)[|a|..] && y == (b + y)[|a|..];
  }

  // Different positions drawn give different orders of distinct records.
  lemma {:induction false} OrderDeterminesPicks(s: seq<Record>, d: seq<real>, e: seq<real>)
    requires Enough(s, d) && Enough(s, e)
    requires Distinct(s) && Ordered(s, d) == Ordered(s, e)
    ensures AllPicks(s, d) == AllPicks(s, e)
    decreases |s|
  {
    if s != [] {
      var m := TierLength(s);
      EnoughTail(s, d);
      EnoughTail(s, e);
      var a, b := Shuffled(s[..m], TierPicks(d, m)), Shuffled(s[..m], TierPicks(e, m));
      var x, y := Ordered(s[m..], d[m - 1..]), Ordered(s[m..], e[m - 1..]);
      SplitSame(a, x, b, y);
      DrawsUnique(s[..m], TierPicks(d, m), TierPicks(e, m));
      OrderDeterminesPicks(s[m..], d[m - 1..], e[m - 1..]);
    }
  }

  // ---- Every order in non-decreasing preference is drawn ----

  // A draw that picks position r of m.
  function DrawOf(r: nat, m: nat): (x: real)
    requires r < m
    ensures 0.0 <= x < 1.0 && Pick(x, m) == r
  {
    DrawOfInRange(r, m);
    PickShare(r as real / m as real, m, r);
    r as real / m as real
  }

  lemma DrawOfInRange(r: nat, m: nat)
    requires r < m
    ensures 0.0 <= r as real / m as real < 1.0
    ensures r as real / m as real < (r + 1) as real / m as real
  {
  }

  function TierDraws(picks: seq<nat>, m: nat): (draws: seq<real>)
    requires Picks(picks, m) && m > 0
    ensures |draws| == m - 1 && Fair(draws)
    ensures forall t :: 0 <= t < m - 1 ==> Pick(draws[t], m - t) == picks[t]
  {
    seq(m - 1, t requires 0 <= t < m - 1 => DrawOf(picks[t], m - t))
  }

  lemma TierDrawsPick(picks: seq<nat>, m: nat, more: seq<real>)
    requires Picks(picks, m) && m > 0 && Fair(more)
    ensures var draws := TierDraws(picks, m) + more;
            Fair(draws) && draws[m - 1..] == more && TierPicks(draws, m) == picks
  {
    var draws := TierDraws(picks, m) + more;
    forall t | 0 <= t < m - 1 ensures TierPicks(draws, m)[t] == picks[t] {
      assert draws[t] == TierDraws(picks, m)[t];
    }
  }

  // Both sorted arrangements of the same records have the same first tier.
  lemma SameFirstTier(s: seq<Record>, t: seq<Record>)
    requires s != [] && SortedBy(s, Preference) && SortedBy(t, Preference)
    requires multiset(s) == multiset(t)
    ensures t != [] && TierLength(s) == TierLength(t)
    ensures multiset(s[..TierLength(s)]) == multiset(t[..TierLength(s)])
    ensures multiset(s[TierLength(s)..]) == multiset(t[TierLength(s)..])
  {
    SameLength(s, t);
    SameFirstPreference(s, t);
    var m, n := TierLength(s), TierLength(t);
    TierIsLow(s);
    TierIsLow(t);
    SplitCounts(s, m);
    SplitCounts(t, n);
    TierCounts(s[..m], s[m..], t[..n], t[n..], s[0].preference);
    SameLength(s[..m], t[..n]);
  }

  lemma SameFirstPreference(s: seq<Record>, t: seq<Record>)
    requires s != [] && t != [] && SortedBy(s, Preference) && SortedBy(t, Preference)
    requires multiset(s) == multiset(t)
    ensures s[0].preference == t[0].preference
  {
    PermutedMembers(s, t);
    assert s[0] in t && t[0] in s;
    LeastFirst(s, t[0], Preference);
    LeastFirst(t, s[0], Preference);
  }

  lemma TierCounts(a: seq<Record>, x: seq<Record>, b: seq<Record>, y: seq<Record>, p: int)
    requires multiset(a) + multiset(x) == multiset(b) + multiset(y)
    requires forall r :: r in a || r in b ==> r.preference == p
    requires forall r :: r in x || r in y ==> r.preference > p
    ensures multiset(a) == multiset(b) && multiset(x) == multiset(y)
  {
    forall r ensures multiset(a)[r] == multiset(b)[r] && multiset(x)[r] == multiset(y)[r] {
      assert (multiset(a) + multiset(x))[r] == (multiset(b) + multiset(y))[r];
      assert r in multiset(a) <==> r in a;
      assert r in multiset(b) <==> r in b;
      assert r in multiset(x) <==> r in x;
      assert r in multiset(y) <==> r in y;
    }
  }

  // Any arrangement in non-decreasing preference comes from some draws.
  lemma {:induction false} EveryOrderIsDrawn(s: seq<Record>, wanted: seq<Record>) returns (draws: seq<real>)
    requires SortedBy(s, Preference) && SortedBy(wanted, Preference)
    requires multiset(s) == multiset(wanted)
    ensures Enough(s, draws) && Ordered(s, draws) == wanted
    decreases |s|
  {
    SameLength(s, wanted);
    if s == [] {
      draws := [];
    } else {
      var m := TierLength(s);
      SameFirstTier(s, wanted);
      TierIsLow(s);
      TierIsLow(wanted);
      var rest := EveryOrderIsDrawn(s[m..], wanted[m..]);
      draws := DrawTierFirst(s, wanted, rest);
    }
  }

  lemma DrawTierFirst(s: seq<Record>, wanted: seq<Record>, rest: seq<real>) returns (draws: seq<real>)
    requires s != [] && |s| == |wanted|
    requires multiset(s[..TierLength(s)]) == multiset(wanted[..TierLength(s)])
    requires Enough(s[TierLength(s)..], rest) && Ordered(s[TierLength(s)..], rest) == wanted[TierLength(s)..]
    ensures Enough(s, draws) && Ordered(s, draws) == wanted
  {
    var m := TierLength(s);
    var picks := DrawsFor(s[..m], wanted[..m]);
    draws := TierDraws(picks, m) + rest;
    TierDrawsPick(picks, m, rest);
    DrawnFirst(s, draws, picks, rest, wanted);
  }

  lemma DrawnFirst(s: seq<Record>, draws: seq<real>, picks: seq<nat>, rest: seq<real>, wanted: seq<Record>)
    requires s != [] && |s| == |wanted| && Fair(draws) && Enough(s[TierLength(s)..], rest)
    requires Picks(picks, TierLength(s)) && |draws| == TierLength(s) - 1 + |rest| && draws[TierLength(s) - 1..] == rest
    requires TierPicks(draws, TierLength(s)) == picks
    requires Shuffled(s[..TierLength(s)], picks) == wanted[..TierLength(s)]
    requires Ordered(s[TierLength(s)..], rest) == wanted[TierLength(s)..]
    ensures Enough(s, draws) && Ordered(s, draws) == wanted
  {
    TakeAndDrop(wanted, TierLength(s));
  }

  lemma TakeAndDrop<T>(s: seq<T>, m: nat)
    requires m <= |s|
    ensures s[..m] + s[m..] == s
  {
  }

  // ---- In place ----

  method Exchange(a: array<Record>, k: nat, r: nat)
    requires k < a.Length && r < a.Length
    modifies a
    ensures a[..] == Swapped(old(a[..]), k, r)
  {
    var tmp := a[k];
    a[k] := a[r];
    a[r] := tmp;
  }

  // A swap inside s[i..k + 1], seen from the pieces of s.
  lemma SwapInside<T>(s: seq<T>, i: nat, k: nat, r: nat, j: nat)
    requires i <= r <= k < j <= |s|
    ensures Swapped(s, k, r)[i..k] == Swapped(s[i..k + 1], k - i, r - i)[..k - i]
    ensures Swapped(s, k, r)[k..j] == [Swapped(s[i..k + 1], k - i, r - i)[k - i]] + s[k + 1..j]
    ensures Swapped(s, k, r)[..i] == s[..i] && Swapped(s, k, r)[j..] == s[j..]
  {
    var whole, part := Swapped(s, k, r), Swapped(s[i..k + 1], k - i, r - i);
    assert forall t :: i <= t <= k ==> whole[t] == part[t - i];
    assert whole[i..k] == part[..k - i];
  }

  // The array s with the positions above k of the tier [i, j) settled; `left` are the picks still to be made.
  ghost predicate Underway(was: seq<Record>, s: seq<Record>, i: nat, k: nat, j: nat, picks: seq<nat>, left: seq<nat>)
    requires i <= k < j <= |s| == |was|
  {
    && s[..i] == was[..i] && s[j..] == was[j..]
    && Picks(picks, j - i) && Picks(left, k + 1 - i)
    && Shuffled(s[i..k + 1], left) + s[k + 1..j] == Shuffled(was[i..j], picks)
  }

  lemma ShuffleStart(was: seq<Record>, i: nat, j: nat, picks: seq<nat>)
    requires i < j <= |was| && Picks(picks, j - i)
    ensures Underway(was, was, i, j - 1, j, picks, picks)
  {
    assert was[j..j] == [];
  }

  lemma ShuffleStep(was: seq<Record>, s: seq<Record>, i: nat, k: nat, j: nat, picks: seq<nat>, left: seq<nat>, r: nat)
    requires i < k < j <= |s| == |was| && Underway(was, s, i, k, j, picks, left)
    requires r == i + left[0]
    ensures r < |s| && Underway(was, Swapped(s, k, r), i, k - 1, j, picks, left[1..])
  {
    PicksTail(left, k + 1 - i);
    SwapInside(s, i, k, r, j);
  }

  lemma ShuffleDone(was: seq<Record>, s: seq<Record>, i: nat, j: nat, picks: seq<nat>, left: seq<nat>)
    requires i < j <= |s| == |was| && Underway(was, s, i, i, j, picks, left)
    ensures s[i..j] == Shuffled(was[i..j], picks)
    ensures s[..i] == was[..i] && s[j..] == was[j..]
  {
    assert s[i..j] == s[i..i + 1] + s[i + 1..j];
  }

  // The picks still to be made after `done` of them.
  ghost function Remaining(draws: seq<real>, m: nat, done: nat): (left: seq<nat>)
    requires Fair(draws) && |draws| >= m - 1 && done < m
  {
    TierPicks(draws, m)[done..]
  }

  lemma RemainingStep(draws: seq<real>, m: nat, done: nat)
    requires Fair(draws) && |draws| >= m - 1 && done + 1 < m
    ensures Remaining(draws, m, done)[0] == Pick(draws[done], m - done)
    ensures Remaining(draws, m, done)[1..] == Remaining(draws, m, done + 1)
  {
  }

  // The tier with the positions above k settled by the first draws.
  ghost predicate Drawn(was: seq<Record>, s: seq<Record>, i: nat, k: nat, j: nat, draws: seq<real>)
    requires i <= k < j <= |s| == |was|
    requires Fair(draws) && |draws| >= j - i - 1
  {
    Underway(was, s, i, k, j, TierPicks(draws, j - i), Remaining(draws, j - i, j - 1 - k))
  }

  // Settle position k of the tier; `next` is the one to settle after it.
  method SettleOne(a: array<Record>, i: nat, k: nat, next: nat, j: nat, draws: seq<real>, ghost was: seq<Record>)
    requires i < k < j <= a.Length == |was| && next == k - 1
    requires Fair(draws) && |draws| >= j - i - 1 && Drawn(was, a[..], i, k, j, draws)
    modifies a
    ensures Drawn(was, a[..], i, next, j, draws)
  {
    var r := i + Pick(draws[j - 1 - k], k - i + 1);
    RemainingStep(draws, j - i, j - 1 - k);
    ShuffleStep(was, a[..], i, k, j, TierPicks(draws, j - i), Remaining(draws, j - i, j - 1 - k), r);
    Exchange(a, k, r);
  }

  method SettleAll(a: array<Record>, i: nat, j: nat, draws: seq<real>, ghost was: seq<Record>)
    requires i < j <= a.Length == |was|
    requires Fair(draws) && |draws| >= j - i - 1 && Drawn(was, a[..], i, j - 1, j, draws)
    modifies a
    ensures Drawn(was, a[..], i, i, j, draws)
  {
    var k := j - 1;
    while k > i
      invariant i <= k < j
      invariant Drawn(was, a[..], i, k, j, draws)
    {
      var next := k - 1;
      SettleOne(a, i, k, next, j, draws, was);
      k := next;
    }
  }

  // Shuffle the tier [i, j) of the array.
  method ShuffleTier(a: array<Record>, i: nat, j: nat, draws: seq<real>)
    requires i < j <= a.Length && Fair(draws) && |draws| >= j - i - 1
    modifies a
    ensures a[..i] == old(a[..i]) && a[j..] == old(a[j..])
    ensures a[i..j] == Shuffled(old(a[i..j]), TierPicks(draws, j - i))
  {
    ghost var was := a[..];
    ShuffleStart(was, i, j, TierPicks(draws, j - i));
    SettleAll(a, i, j, draws, was);
    ghost var now := a[..];
    ShuffleDone(was, now, i, j, TierPicks(draws, j - i), Remaining(draws, j - i, j - 1 - i));
    assert a[..i] == now[..i] && a[j..] == now[j..] && a[i..j] == now[i..j];
  }

  lemma TierLengthIs(s: seq<Record>, n: nat)
    requires 1 <= n <= |s|
    requires forall i :: 0 <= i < n ==> s[i].preference == s[0].preference
    requires n < |s| ==> s[n].preference != s[0].preference
    ensures n == TierLength(s)
  {
    if TierLength(s) < n {
      assert false;
    }
  }

  // The end of the tier that starts at i.
  method TierEnd(a: array<Record>, i: nat) returns (j: nat)
    requires i < a.Length
    ensures i < j <= a.Length && j - i == TierLength(a[i..])
  {
    j := i;
    while j < a.Length && a[j].preference == a[i].preference
      invariant i <= j <= a.Length
      invariant forall k :: i <= k < j ==> a[k].preference == a[i].preference
    {
      j := j + 1;
    }
    TierLengthIs(a[i..], j - i);
  }

  // What is before i is final, and shuffling the tiers from i on with the draws left completes the list.
  ghost predicate Settled(s: seq<Record>, i: nat, left: seq<real>, final: seq<Record>)
    requires i <= |s|
  {
    Enough(s[i..], left) && s[..i] + Ordered(s[i..], left) == final
  }

  lemma SettleTier(s: seq<Record>, next: seq<Record>, i: nat, j: nat, left: seq<real>, final: seq<Record>)
    requires i < j <= |s| == |next| && Settled(s, i, left, final)
    requires j - i == TierLength(s[i..]) && |left| >= j - i - 1
    requires next[..i] == s[..i] && next[j..] == s[j..]
    requires next[i..j] == Shuffled(s[i..j], TierPicks(left, j - i))
    ensures Settled(next, j, left[j - i - 1..], final)
  {
    TakeDrop(s, i, j);
    OrderedStep(s[i..], left, s[i..j], s[j..]);
    PrefixGrows(s[..i], next, i, j, final, Ordered(s[j..], left[j - i - 1..]));
    SettledBehind(next, j, s[j..], left[j - i - 1..], final);
  }

  lemma SettledBehind(s: seq<Record>, i: nat, rest: seq<Record>, left: seq<real>, final: seq<Record>)
    requires i <= |s| && s[i..] == rest && Enough(rest, left) && s[..i] + Ordered(rest, left) == final
    ensures Settled(s, i, left, final)
  {
  }

  lemma OrderedStep(s: seq<Record>, draws: seq<real>, tier: seq<Record>, rest: seq<Record>)
    requires s != [] && Enough(s, draws)
    requires tier == s[..TierLength(s)] && rest == s[TierLength(s)..]
    ensures Enough(rest, draws[|tier| - 1..])
    ensures Ordered(s, draws) == Shuffled(tier, TierPicks(draws, |tier|)) + Ordered(rest, draws[|tier| - 1..])
  {
    EnoughTail(s, draws);
  }

  lemma PrefixGrows<T>(head: seq<T>, next: seq<T>, i: nat, j: nat, whole: seq<T>, rest: seq<T>)
    requires i <= j <= |next| && head == next[..i] && whole == head + (next[i..j] + rest)
    ensures next[..j] + rest == whole
  {
    assert next[..j] == next[..i] + next[i..j];
  }

  lemma TakeDrop<T>(s: seq<T>, i: nat, j: nat)
    requires i <= j <= |s|
    ensures s[i..][..j - i] == s[i..j] && s[i..][j - i..] == s[j..]
  {
  }

  // Sort, then shuffle each tier in place.
  method OrderByPreference(records: seq<Record>, draws: seq<real>) returns (ordered: seq<Record>)
    requires Enough(SortBy(records, Preference), draws)
    ensures ordered == Ordered(SortBy(records, Preference), draws)
  {
    var sorted := SortBy(records, Preference);
    var byPref := new Record[|sorted|](t requires 0 <= t < |sorted| => sorted[t]);
    var i: nat, left := 0, draws;
    assert byPref[..] == sorted;
    while i < byPref.Length
      invariant i <= byPref.Length
      invariant Settled(byPref[..], i, left, Ordered(sorted, draws))
    {
      ghost var before := byPref[..];
      var j := TierEnd(byPref, i);
      assert before[i..] == byPref[i..];
      EnoughTail(before[i..], left);
      ShuffleTier(byPref, i, j, left);
      SettleTier(before, byPref[..], i, j, left, Ordered(sorted, draws));
      left := left[j - i - 1..];
      i := j;
    }
    ordered := byPref[..];
  }

  // For every draw the order is a permutation of the records, in non-decreasing preference.
  lemma OrderIsPermutation(records: seq<Record>, draws: seq<real>)
    requires Enough(SortBy(records, Preference), draws)
    ensures multiset(Ordered(SortBy(records, Preference), draws)) == multiset(records)
    ensures SortedBy(Ordered(SortBy(records, Preference), draws), Preference)
  {
    SortByIsStableSort(records, Preference);
    OrderedIsRight(SortBy(records, Preference), draws);
  }

  // ---- The hosts to try ----

  function Hosts(records: seq<Record>): (hosts: seq<string>)
    ensures |hosts| == |records|
    ensures forall i :: 0 <= i < |hosts| ==> hosts[i] == records[i].host
  {
    seq(|records|, i requires 0 <= i < |records| => records[i].host)
  }

  // A single record with the root as its host: the domain takes no mail (RFC 7505).
  predicate NullMx(mx: seq<Record>) {
    |mx| == 1 && (mx[0].host == "" || mx[0].host == ".")
  }

  method ResolveMxHosts(domain: string, mx: seq<Record>, hasAddress: bool, draws: seq<real>)
    returns (hosts: seq<string>)
    requires Enough(SortBy(mx, Preference), draws)
    ensures NullMx(mx) ==> hosts == ["."]
    ensures !NullMx(mx) && mx != [] ==> hosts == Hosts(Ordered(SortBy(mx, Preference), draws))
    ensures !NullMx(mx) && mx != [] ==>
      exists ordered :: multiset(ordered) == multiset(mx) && SortedBy(ordered, Preference) && hosts == Hosts(ordered)
    ensures mx == [] ==> hosts == if hasAddress then [domain] else []
  {
    if NullMx(mx) {
      return ["."];
    }
    if |mx| > 0 {
      var ordered := OrderByPreference(mx, draws);
      OrderIsPermutation(mx, draws);
      return Hosts(ordered);
    }
    if hasAddress {
      return [domain];
    }
    hosts := [];
  }
}
