/**
 The structure of an Authenticated Received Chain (section 5.2 of RFC 8617), judged before any signature.
 */
module Arc {
  import opened Sorting

  datatype ChainValidation = CvNone | CvPass | CvFail

  datatype ArcSet = ArcSet(instance: int, cv: ChainValidation, hasAAR: bool, hasAMS: bool, hasAS: bool)

  predicate Complete(s: ArcSet) {
    s.hasAAR && s.hasAMS && s.hasAS
  }

  function ExpectedCv(instance: int): ChainValidation {
    if instance == 1 then CvNone else CvPass
  }

  function Instances(sets: seq<ArcSet>): (r: seq<int>)
    ensures |r| == |sets| && forall i :: 0 <= i < |r| ==> r[i] == sets[i].instance
  {
    seq(|sets|, i requires 0 <= i < |sets| => sets[i].instance)
  }

  function UpTo(n: nat): (r: seq<int>)
    ensures |r| == n && forall i :: 0 <= i < n ==> r[i] == i + 1
  {
    seq(n, i => i + 1)
  }

  function Same(n: int): int {
    n
  }

  // Every set whole, the instances exactly 1 to N, "none" at the first hop and "pass" at every other.
  ghost predicate WellFormedChain(sets: seq<ArcSet>) {
    && (forall i :: 0 <= i < |sets| ==> Complete(sets[i]))
    && multiset(Instances(sets)) == multiset(UpTo(|sets|))
    && (forall i :: 0 <= i < |sets| ==> sets[i].cv == ExpectedCv(sets[i].instance))
  }

  // Sorted instances count up from 1 exactly when they are 1 to N in some order.
  lemma SortedCountsUp(instances: seq<int>, sorted: seq<int>)
    requires sorted == SortBy(instances, Same)
    ensures multiset(instances) == multiset(UpTo(|instances|)) <==> forall i :: 0 <= i < |sorted| ==> sorted[i] == i + 1
  {
    SortByIsStableSort(instances, Same);
    if multiset(instances) == multiset(UpTo(|instances|)) {
      CountsUp(sorted, |instances|);
    }
    CountedUp(sorted);
  }

  lemma CountedUp(sorted: seq<int>)
    ensures (forall i :: 0 <= i < |sorted| ==> sorted[i] == i + 1) <==> sorted == UpTo(|sorted|)
  {
  }

  lemma CountsUp(sorted: seq<int>, n: nat)
    requires SortedBy(sorted, Same) && multiset(sorted) == multiset(UpTo(n))
    ensures sorted == UpTo(n)
  {
    SortedUnique(UpTo(n), sorted, Same);
  }

  method ValidateArcChainStructure(sets: seq<ArcSet>) returns (status: ChainValidation)
    ensures sets == [] ==> status == CvNone
    ensures sets != [] ==> status == if WellFormedChain(sets) then CvPass else CvFail
  {
    if |sets| == 0 {
      return CvNone;
    }
    var failed := false;
    for i := 0 to |sets|
      invariant failed <==> exists j :: 0 <= j < i && !Complete(sets[j])
    {
      var s := sets[i];
      if !s.hasAAR || !s.hasAMS || !s.hasAS {
        failed := true;
      }
    }
    var instances := SortBy(Instances(sets), Same);
    SortedCountsUp(Instances(sets), instances);
    var continuous := true;
    for i := 0 to |instances|
      invariant continuous <==> forall j :: 0 <= j < i ==> instances[j] == j + 1
    {
      if instances[i] != i + 1 {
        continuous := false;
      }
    }
    assert continuous <==> forall j :: 0 <= j < |instances| ==> instances[j] == j + 1;
    assert |Instances(sets)| == |sets| == |instances|;
    assert continuous <==> multiset(Instances(sets)) == multiset(UpTo(|sets|));
    if !continuous {
      failed := true;
    }
    ghost var soFar := failed;
    assert soFar <==>
           || (exists j :: 0 <= j < |sets| && !Complete(sets[j]))
           || multiset(Instances(sets)) != multiset(UpTo(|sets|));
    for i := 0 to |sets|
      invariant failed <==> soFar || exists j :: 0 <= j < i && sets[j].cv != ExpectedCv(sets[j].instance)
    {
      var s := sets[i];
      var expected := if s.instance == 1 then CvNone else CvPass;
      if s.cv == CvFail {
        failed := true;
      } else if s.cv != expected {
        failed := true;
      }
    }
    status := if failed then CvFail else CvPass;
  }

  // ---- Runs ----

  // An honest hop seals with the next instance number and vouches for the chain it received.
  function Hop(sets: seq<ArcSet>): seq<ArcSet> {
    sets + [ArcSet(|sets| + 1, if sets == [] then CvNone else CvPass, true, true, true)]
  }

  function HonestRun(hops: nat): seq<ArcSet> {
    if hops == 0 then [] else Hop(HonestRun(hops - 1))
  }

  lemma {:induction false} HonestRunShape(hops: nat)
    ensures |HonestRun(hops)| == hops
    ensures forall i :: 0 <= i < hops ==> HonestRun(hops)[i] == ArcSet(i + 1, ExpectedCv(i + 1), true, true, true)
  {
    if hops > 0 {
      HonestRunShape(hops - 1);
    }
  }

  // Takes one set out of the list and its instance out of the instances.
  lemma WithoutOne(b: seq<ArcSet>, x: ArcSet) returns (rest: seq<ArcSet>)
    requires x in b
    ensures |rest| == |b| - 1
    ensures multiset(b) == multiset{x} + multiset(rest)
    ensures multiset(Instances(b)) == multiset{x.instance} + multiset(Instances(rest))
  {
    var j :| 0 <= j < |b| && b[j] == x;
    rest := b[..j] + b[j + 1..];
    assert b == b[..j] + [x] + b[j + 1..];
    var ns := Instances(b);
    assert ns == ns[..j] + [x.instance] + ns[j + 1..];
    assert Instances(rest) == ns[..j] + ns[j + 1..];
  }

  lemma {:induction false} SameInstances(a: seq<ArcSet>, b: seq<ArcSet>)
    requires multiset(a) == multiset(b)
    ensures multiset(Instances(a)) == multiset(Instances(b))
    decreases |a|
  {
    SameLength(a, b);
    if a != [] {
      assert a[0] in multiset(a);
      assert a[0] in b;
      var p := WithoutOne(a, a[0]);
      var q := WithoutOne(b, a[0]);
      Cancel(a[0], multiset(p), multiset(q));
      SameInstances(p, q);
    }
  }

  // However many honest hops there were, and in whatever order their fields stand, the chain is well formed.
  lemma HonestChainsAreWellFormed(hops: nat, sets: seq<ArcSet>)
    requires multiset(sets) == multiset(HonestRun(hops))
    ensures WellFormedChain(sets)
  {
    var run := HonestRun(hops);
    HonestRunShape(hops);
    SameLength(sets, run);
    SameInstances(sets, run);
    assert Instances(run) == UpTo(hops);
    forall i | 0 <= i < |sets| ensures Complete(sets[i]) && sets[i].cv == ExpectedCv(sets[i].instance) {
      assert sets[i] in multiset(run);
    }
  }

  // A well-formed chain is an honest run in some order, so the check admits nothing else.
  lemma WellFormedChainsAreHonest(sets: seq<ArcSet>)
    requires WellFormedChain(sets)
    ensures multiset(sets) == multiset(HonestRun(|sets|))
  {
    var n := |sets|;
    var run := HonestRun(n);
    HonestRunShape(n);
    SortByIsStableSort(sets, KeyOf);
    var sorted := SortBy(sets, KeyOf);
    SameInstances(sorted, sets);
    CountsUp(Instances(sorted), n);
    forall i | 0 <= i < n ensures sorted[i] == run[i] {
      assert sorted[i] in multiset(sets);
      assert Instances(sorted)[i] == i + 1;
    }
    assert sorted == run;
  }

  function KeyOf(s: ArcSet): int {
    s.instance
  }
}
