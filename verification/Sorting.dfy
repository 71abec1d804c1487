/**
 The stable sort that `Array.prototype.sort` performs for a comparator `key(a) - key(b)`.
 */
module Sorting {

  ghost predicate SortedBy<T>(s: seq<T>, key: T -> int) {
    forall i, j :: 0 <= i < j < |s| ==> key(s[i]) <= key(s[j])
  }

  function Insert<T>(x: T, s: seq<T>, key: T -> int): (r: seq<T>)
    ensures |r| == |s| + 1
  {
    if s == [] || key(x) <= key(s[0]) then [x] + s else [s[0]] + Insert(x, s[1..], key)
  }

  function SortBy<T>(s: seq<T>, key: T -> int): (r: seq<T>)
    ensures |r| == |s|
  {
    if s == [] then [] else Insert(s[0], SortBy(s[1..], key), key)
  }

  // The elements that share one key, in order.
  ghost function Only<T>(s: seq<T>, key: T -> int, k: int): seq<T> {
    if s == [] then []
    else if key(s[0]) == k then [s[0]] + Only(s[1..], key, k)
    else Only(s[1..], key, k)
  }

  lemma {:induction false} InsertPermutes<T>(x: T, s: seq<T>, key: T -> int)
    ensures multiset(Insert(x, s, key)) == multiset{x} + multiset(s)
  {
    if s != [] && key(x) > key(s[0]) {
      InsertPermutes(x, s[1..], key);
      assert s == [s[0]] + s[1..];
    }
  }

  lemma {:induction false} InsertSorts<T>(x: T, s: seq<T>, key: T -> int)
    requires SortedBy(s, key)
    ensures SortedBy(Insert(x, s, key), key)
    ensures forall i :: 0 <= i <= |s| ==>
            key(Insert(x, s, key)[i]) >= if s == [] || key(x) <= key(s[0]) then key(x) else key(s[0])
  {
    if s != [] && key(x) > key(s[0]) {
      InsertSorts(x, s[1..], key);
    }
  }

  lemma {:induction false} InsertKeepsOrder<T>(x: T, s: seq<T>, key: T -> int, k: int)
    requires SortedBy(s, key)
    ensures Only(Insert(x, s, key), key, k) == (if key(x) == k then [x] else []) + Only(s, key, k)
  {
    if s == [] || key(x) <= key(s[0]) {
      assert ([x] + s)[1..] == s;
    } else {
      InsertKeepsOrder(x, s[1..], key, k);
      assert ([s[0]] + Insert(x, s[1..], key))[1..] == Insert(x, s[1..], key);
      if key(x) == k {
        assert key(s[0]) < k;
      }
    }
  }

  // Sorting permutes, orders, and keeps the order of elements with equal keys.
  lemma {:induction false} SortByIsStableSort<T>(s: seq<T>, key: T -> int)
    ensures multiset(SortBy(s, key)) == multiset(s)
    ensures SortedBy(SortBy(s, key), key)
    ensures forall k :: Only(SortBy(s, key), key, k) == Only(s, key, k)
  {
    if s != [] {
      SortByIsStableSort(s[1..], key);
      InsertPermutes(s[0], SortBy(s[1..], key), key);
      InsertSorts(s[0], SortBy(s[1..], key), key);
      assert s == [s[0]] + s[1..];
      forall k ensures Only(SortBy(s, key), key, k) == Only(s, key, k) {
        InsertKeepsOrder(s[0], SortBy(s[1..], key), key, k);
      }
    }
  }

  ghost predicate DistinctKeys<T>(s: seq<T>, key: T -> int) {
    forall i, j :: 0 <= i < j < |s| ==> key(s[i]) != key(s[j])
  }

  // The least element comes first in every sorted arrangement.
  lemma LeastFirst<T>(a: seq<T>, x: T, key: T -> int)
    requires SortedBy(a, key) && x in a
    ensures key(a[0]) <= key(x)
  {
    var i :| 0 <= i < |a| && a[i] == x;
  }

  // Two sorted arrangements of the same elements agree when no two elements share a key.
  lemma {:induction false} SortedUnique<T>(a: seq<T>, b: seq<T>, key: T -> int)
    requires SortedBy(a, key) && SortedBy(b, key)
    requires multiset(a) == multiset(b)
    requires forall x, y :: x in a && y in a && key(x) == key(y) ==> x == y
    ensures a == b
  {
    SameLength(a, b);
    if a != [] {
      assert a[0] in b && b[0] in a by {
        assert a[0] in multiset(a) && b[0] in multiset(b);
      }
      LeastFirst(a, b[0], key);
      LeastFirst(b, a[0], key);
      SameTail(a, b);
      SortedUnique(a[1..], b[1..], key);
      HeadAndTail(a, b);
    }
  }

  lemma HeadAndTail<T>(a: seq<T>, b: seq<T>)
    requires a != [] && b != [] && a[0] == b[0] && a[1..] == b[1..]
    ensures a == b
  {
    assert a == [a[0]] + a[1..] && b == [b[0]] + b[1..];
  }

  lemma SameLength<T>(a: seq<T>, b: seq<T>)
    requires multiset(a) == multiset(b)
    ensures |a| == |b|
  {
    assert |multiset(a)| == |a| && |multiset(b)| == |b|;
  }

  lemma Cancel<T>(x: T, a: multiset<T>, b: multiset<T>)
    requires multiset{x} + a == multiset{x} + b
    ensures a == b
  {
    assert a == multiset{x} + a - multiset{x};
    assert b == multiset{x} + b - multiset{x};
  }

  lemma SameTail<T>(a: seq<T>, b: seq<T>)
    requires a != [] && b != [] && a[0] == b[0] && multiset(a) == multiset(b)
    ensures multiset(a[1..]) == multiset(b[1..])
  {
    assert a == [a[0]] + a[1..] && b == [b[0]] + b[1..];
    assert multiset(a) == multiset{a[0]} + multiset(a[1..]);
    assert multiset(b) == multiset{b[0]} + multiset(b[1..]);
    assert multiset(a[1..]) == multiset(a) - multiset{a[0]};
  }

  // Sorting forgets the order in which elements with distinct keys were given.
  lemma SortByForgetsOrder<T>(s: seq<T>, t: seq<T>, key: T -> int)
    requires multiset(s) == multiset(t)
    requires forall x, y :: x in s && y in s && key(x) == key(y) ==> x == y
    ensures SortBy(s, key) == SortBy(t, key)
  {
    SortByIsStableSort(s, key);
    SortByIsStableSort(t, key);
    forall x, y | x in SortBy(s, key) && y in SortBy(s, key) && key(x) == key(y) ensures x == y {
      assert x in multiset(SortBy(s, key)) && y in multiset(SortBy(s, key));
    }
    SortedUnique(SortBy(s, key), SortBy(t, key), key);
  }

  lemma SortByMembers<T>(s: seq<T>, key: T -> int)
    ensures forall x :: x in SortBy(s, key) <==> x in s
  {
    SortByIsStableSort(s, key);
    forall x ensures x in SortBy(s, key) <==> x in s {
      assert x in multiset(SortBy(s, key)) <==> x in SortBy(s, key);
    }
  }

  function MapAll<T>(f: T -> T, s: seq<T>): (r: seq<T>)
    ensures |r| == |s|
    ensures forall i :: 0 <= i < |s| ==> r[i] == f(s[i])
  {
    if s == [] then [] else [f(s[0])] + MapAll(f, s[1..])
  }

  lemma {:induction false} MapAllSnoc<T>(f: T -> T, s: seq<T>, x: T)
    ensures MapAll(f, s + [x]) == MapAll(f, s) + [f(x)]
  {
    if s == [] {
      assert [x][1..] == [];
    } else {
      MapAllSnoc(f, s[1..], x);
      assert (s + [x])[1..] == s[1..] + [x];
    }
  }

  lemma {:induction false} InsertMapped<T(!new)>(f: T -> T, x: T, s: seq<T>, key: T -> int)
    requires forall y :: key(f(y)) == key(y)
    ensures Insert(f(x), MapAll(f, s), key) == MapAll(f, Insert(x, s, key))
  {
    assert MapAll(f, [x] + s) == [f(x)] + MapAll(f, s) by {
      assert ([x] + s)[1..] == s;
    }
    if s != [] && key(x) > key(s[0]) {
      InsertMapped(f, x, s[1..], key);
      assert MapAll(f, s)[1..] == MapAll(f, s[1..]);
      assert Insert(x, s, key)[1..] == Insert(x, s[1..], key);
    }
  }

  // Sorting commutes with a change of the elements that leaves their keys alone.
  lemma {:induction false} SortByMapped<T(!new)>(f: T -> T, s: seq<T>, key: T -> int)
    requires forall y :: key(f(y)) == key(y)
    ensures SortBy(MapAll(f, s), key) == MapAll(f, SortBy(s, key))
  {
    if s != [] {
      SortByMapped(f, s[1..], key);
      assert MapAll(f, s)[1..] == MapAll(f, s[1..]);
      InsertMapped(f, s[0], SortBy(s[1..], key), key);
    }
  }
}
