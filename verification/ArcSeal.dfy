/**
 The octets an ARC-Seal signs (section 5.1.1 of RFC 8617): the sets 1..M in increasing order, the
 sealing field itself with its b= emptied.
 */
module ArcSeal {
  import opened Text
  import opened DkimVerify
  import opened Sorting

  // One hop's three header values; `seal` is the ARC-Seal.
  datatype ArcSetHeaders = ArcSetHeaders(instance: int, aar: string, ams: string, seal: string)

  const SEAL_HEADER: string := "ARC-Seal"

  function Instance(s: ArcSetHeaders): int {
    s.instance
  }

  // The sets a seal covers: none that was added after it.
  function Covered(sets: seq<ArcSetHeaders>, k: int): seq<ArcSetHeaders> {
    if sets == [] then []
    else
      var last := sets[|sets| - 1];
      Covered(sets[..|sets| - 1], k) + if last.instance <= k then [last] else []
  }

  function Ordered(sets: seq<ArcSetHeaders>, k: int): seq<ArcSetHeaders> {
    SortBy(Covered(sets, k), Instance)
  }

  function SetFields(s: ArcSetHeaders, k: int): seq<SignedField> {
    [SignedField("ARC-Authentication-Results", s.aar, None), SignedField("ARC-Message-Signature", s.ams, None)]
    + if s.instance == k then [] else [SignedField(SEAL_HEADER, s.seal, None)]
  }

  function SealFields(ordered: seq<ArcSetHeaders>, k: int): seq<SignedField> {
    if ordered == [] then []
    else SealFields(ordered[..|ordered| - 1], k) + SetFields(ordered[|ordered| - 1], k)
  }

  // The seal of instance k, or nothing if no set has it; of several, the last in order.
  function SealValue(ordered: seq<ArcSetHeaders>, k: int): string {
    if ordered == [] then []
    else
      var last := ordered[|ordered| - 1];
      if last.instance == k then last.seal else SealValue(ordered[..|ordered| - 1], k)
  }

  function SealInput(sets: seq<ArcSetHeaders>, k: int): string {
    var ordered := Ordered(sets, k);
    SigningInput(SealFields(ordered, k), SealValue(ordered, k), RelaxedHeader, SEAL_HEADER)
  }

  method BuildSealInput(sets: seq<ArcSetHeaders>, sealInstance: int) returns (input: string)
    ensures input == SealInput(sets, sealInstance)
  {
    var ordered := SortBy(Covered(sets, sealInstance), Instance);
    var signed: seq<SignedField> := [];
    var sealValue := "";
    for i := 0 to |ordered|
      invariant signed == SealFields(ordered[..i], sealInstance)
      invariant sealValue == SealValue(ordered[..i], sealInstance)
    {
      var s := ordered[i];
      assert ordered[..i + 1][..i] == ordered[..i];
      signed := signed + [SignedField("ARC-Authentication-Results", s.aar, None)];
      signed := signed + [SignedField("ARC-Message-Signature", s.ams, None)];
      if s.instance == sealInstance {
        sealValue := s.seal;
      } else {
        signed := signed + [SignedField("ARC-Seal", s.seal, None)];
      }
    }
    assert ordered[..|ordered|] == ordered;
    input := BuildSigningInput(signed, sealValue, RelaxedHeader, "ARC-Seal");
  }

  // ---- What a seal covers ----

  // For each set in turn its ARC-Authentication-Results, its ARC-Message-Signature and its ARC-Seal, but for the
  // seal of the last set.
  ghost predicate AreSealed(fields: seq<SignedField>, sets: seq<ArcSetHeaders>) {
    && |fields| + 1 == 3 * |sets|
    && forall i :: 0 <= i < |sets| ==>
       && fields[3 * i] == SignedField("ARC-Authentication-Results", sets[i].aar, None)
       && fields[3 * i + 1] == SignedField("ARC-Message-Signature", sets[i].ams, None)
       && (i < |sets| - 1 ==> fields[3 * i + 2] == SignedField("ARC-Seal", sets[i].seal, None))
  }

  // The sets count up from 1, as honest hops leave them.
  predicate CountUp(sets: seq<ArcSetHeaders>) {
    forall i :: 0 <= i < |sets| ==> sets[i].instance == i + 1
  }

  // A set below the seal contributes all three fields.
  ghost predicate AreWhole(fields: seq<SignedField>, sets: seq<ArcSetHeaders>) {
    && |fields| == 3 * |sets|
    && forall i :: 0 <= i < |sets| ==>
       && fields[3 * i] == SignedField("ARC-Authentication-Results", sets[i].aar, None)
       && fields[3 * i + 1] == SignedField("ARC-Message-Signature", sets[i].ams, None)
       && fields[3 * i + 2] == SignedField("ARC-Seal", sets[i].seal, None)
  }

  lemma {:induction false} EarlierAreWhole(sets: seq<ArcSetHeaders>, k: int)
    requires forall i :: 0 <= i < |sets| ==> sets[i].instance != k
    ensures AreWhole(SealFields(sets, k), sets)
  {
    if sets != [] {
      var n := |sets| - 1;
      var init, more := SealFields(sets[..n], k), SetFields(sets[n], k);
      EarlierAreWhole(sets[..n], k);
      InitLast(sets);
      assert SealFields(sets, k) == init + more && |init| == 3 * n;
      forall i | 0 <= i < |sets|
        ensures SealFields(sets, k)[3 * i] == SignedField("ARC-Authentication-Results", sets[i].aar, None)
        ensures SealFields(sets, k)[3 * i + 1] == SignedField("ARC-Message-Signature", sets[i].ams, None)
        ensures SealFields(sets, k)[3 * i + 2] == SignedField("ARC-Seal", sets[i].seal, None) {
        if i < n {
          assert sets[..n][i] == sets[i];
        }
      }
    }
  }

  lemma SealedBehind(fields: seq<SignedField>, sets: seq<ArcSetHeaders>, last: ArcSetHeaders, more: seq<SignedField>)
    requires AreWhole(fields, sets) && more == SetFields(last, last.instance)
    ensures AreSealed(fields + more, sets + [last])
  {
    var all, whole := sets + [last], fields + more;
    forall i | 0 <= i < |all|
      ensures whole[3 * i] == SignedField("ARC-Authentication-Results", all[i].aar, None)
      ensures whole[3 * i + 1] == SignedField("ARC-Message-Signature", all[i].ams, None)
      ensures i < |sets| ==> whole[3 * i + 2] == SignedField("ARC-Seal", all[i].seal, None) {
      if i < |sets| {
        assert all[i] == sets[i];
      }
    }
  }

  lemma SealedInOrder(sets: seq<ArcSetHeaders>, earlier: seq<ArcSetHeaders>, last: ArcSetHeaders, k: int)
    requires sets == earlier + [last] && CountUp(sets) && k == last.instance
    ensures AreSealed(SealFields(sets, k), sets) && SealValue(sets, k) == last.seal
  {
    assert sets[..|earlier|] == earlier && sets[|earlier|] == last;
    assert forall i :: 0 <= i < |earlier| ==> earlier[i] == sets[i];
    EarlierAreWhole(earlier, k);
    SealedBehind(SealFields(earlier, k), earlier, last, SetFields(last, k));
  }

  lemma {:induction false} AllCovered(sets: seq<ArcSetHeaders>, k: int)
    requires forall i :: 0 <= i < |sets| ==> sets[i].instance <= k
    ensures Covered(sets, k) == sets
  {
    if sets != [] {
      AllCovered(sets[..|sets| - 1], k);
      InitLast(sets);
    }
  }

  lemma OrderedIsItself(sets: seq<ArcSetHeaders>, k: nat)
    requires CountUp(sets) && k <= |sets|
    ensures Ordered(sets, k) == sets[..k]
  {
    var covered, later := sets[..k], sets[k..];
    assert sets == covered + later;
    CoveredConcat(covered, later, k);
    LaterNotCovered(later, k);
    AllCovered(covered, k);
    assert Covered(sets, k) == covered;
    SortByIsStableSort(covered, Instance);
    SortedUnique(covered, SortBy(covered, Instance), Instance);
  }

  // The seal of hop k signs the sets 1 to k in increasing order, and its own field, the one that is emptied.
  lemma SealInputIsItsSets(sets: seq<ArcSetHeaders>, k: nat)
    requires CountUp(sets) && 1 <= k <= |sets|
    ensures exists fields :: AreSealed(fields, sets[..k])
                             && SealInput(sets, k) == SigningInput(fields, sets[k - 1].seal, RelaxedHeader, "ARC-Seal")
  {
    OrderedIsItself(sets, k);
    assert sets[..k] == sets[..k - 1] + [sets[k - 1]];
    SealedInOrder(sets[..k], sets[..k - 1], sets[k - 1], k);
  }

  // ---- What a seal does not depend on ----

  lemma {:induction false} CoveredConcat(a: seq<ArcSetHeaders>, b: seq<ArcSetHeaders>, k: int)
    ensures Covered(a + b, k) == Covered(a, k) + Covered(b, k)
  {
    if b == [] {
      assert a + b == a;
    } else {
      CoveredConcat(a, b[..|b| - 1], k);
      assert (a + b)[..|a + b| - 1] == a + b[..|b| - 1];
    }
  }

  lemma {:induction false} LaterNotCovered(later: seq<ArcSetHeaders>, k: int)
    requires forall i :: 0 <= i < |later| ==> later[i].instance > k
    ensures Covered(later, k) == []
  {
    if later != [] {
      LaterNotCovered(later[..|later| - 1], k);
    }
  }

  // Sets added by later hops are outside the seal.
  lemma LaterHopsUnsealed(sets: seq<ArcSetHeaders>, later: seq<ArcSetHeaders>, k: int)
    requires forall i :: 0 <= i < |later| ==> later[i].instance > k
    ensures SealInput(sets + later, k) == SealInput(sets, k)
  {
    CoveredConcat(sets, later, k);
    LaterNotCovered(later, k);
    assert Covered(sets, k) + [] == Covered(sets, k);
  }

  lemma {:induction false} CoveredIsPart(sets: seq<ArcSetHeaders>, k: int)
    ensures forall s :: multiset(Covered(sets, k))[s] == if s.instance <= k then multiset(sets)[s] else 0
  {
    if sets != [] {
      var n := |sets| - 1;
      CoveredIsPart(sets[..n], k);
      assert sets == sets[..n] + [sets[n]];
    }
  }

  lemma CoveredPermuted(sets: seq<ArcSetHeaders>, other: seq<ArcSetHeaders>, k: int)
    requires multiset(sets) == multiset(other)
    ensures multiset(Covered(sets, k)) == multiset(Covered(other, k))
  {
    CoveredIsPart(sets, k);
    CoveredIsPart(other, k);
  }

  lemma {:induction false} CoveredMember(sets: seq<ArcSetHeaders>, k: int, x: ArcSetHeaders)
    requires x in Covered(sets, k)
    ensures x in sets
  {
    var n := |sets| - 1;
    if sets[n].instance > k || x != sets[n] {
      CoveredMember(sets[..n], k, x);
    }
  }

  // The order in which the sets are given does not matter when their instances are distinct.
  lemma SealForgetsOrder(sets: seq<ArcSetHeaders>, other: seq<ArcSetHeaders>, k: int)
    requires multiset(sets) == multiset(other)
    requires DistinctKeys(sets, Instance)
    ensures SealInput(sets, k) == SealInput(other, k)
  {
    CoveredPermuted(sets, other, k);
    forall x, y | x in Covered(sets, k) && y in Covered(sets, k) && Instance(x) == Instance(y) ensures x == y {
      CoveredMember(sets, k, x);
      CoveredMember(sets, k, y);
    }
    SortByForgetsOrder(Covered(sets, k), Covered(other, k), Instance);
  }

  // Puts a signature into the seal of instance k, in place of whatever stands behind its b=.
  function FillSeal(k: int, b: string): ArcSetHeaders -> ArcSetHeaders {
    (s: ArcSetHeaders) => if s.instance == k then s.(seal := ReplaceB(s.seal, b)) else s
  }

  lemma CoveredSnoc(sets: seq<ArcSetHeaders>, last: ArcSetHeaders, k: int)
    ensures Covered(sets + [last], k) == Covered(sets, k) + if last.instance <= k then [last] else []
  {
    assert (sets + [last])[..|sets|] == sets;
  }

  lemma {:induction false} CoveredFilled(sets: seq<ArcSetHeaders>, k: int, b: string)
    ensures Covered(MapAll(FillSeal(k, b), sets), k) == MapAll(FillSeal(k, b), Covered(sets, k))
  {
    if sets != [] {
      var f, rest, last := FillSeal(k, b), sets[..|sets| - 1], sets[|sets| - 1];
      assert sets == rest + [last];
      CoveredFilled(rest, k, b);
      MapAllSnoc(f, rest, last);
      CoveredSnoc(rest, last, k);
      CoveredSnoc(MapAll(f, rest), f(last), k);
      MapAllSnoc(f, Covered(rest, k), last);
    }
  }

  predicate Seals(ordered: seq<ArcSetHeaders>, k: int) {
    ordered != [] && (ordered[|ordered| - 1].instance == k || Seals(ordered[..|ordered| - 1], k))
  }

  lemma MapAllPrefix(f: ArcSetHeaders -> ArcSetHeaders, ordered: seq<ArcSetHeaders>)
    requires ordered != []
    ensures MapAll(f, ordered)[..|ordered| - 1] == MapAll(f, ordered[..|ordered| - 1])
  {
  }

  lemma {:induction false} FilledFields(ordered: seq<ArcSetHeaders>, k: int, b: string)
    ensures SealFields(MapAll(FillSeal(k, b), ordered), k) == SealFields(ordered, k)
  {
    if ordered != [] {
      FilledFields(ordered[..|ordered| - 1], k, b);
      MapAllPrefix(FillSeal(k, b), ordered);
    }
  }

  lemma {:induction false} FilledValue(ordered: seq<ArcSetHeaders>, k: int, b: string)
    ensures SealValue(MapAll(FillSeal(k, b), ordered), k)
            == if Seals(ordered, k) then ReplaceB(SealValue(ordered, k), b) else SealValue(ordered, k)
  {
    if ordered != [] {
      FilledValue(ordered[..|ordered| - 1], k, b);
      MapAllPrefix(FillSeal(k, b), ordered);
    }
  }

  // Whatever stands behind the b= of the seal, it is not part of what the seal signs.
  lemma FillingUnsealed(sets: seq<ArcSetHeaders>, k: int, b: string)
    requires ';' !in b
    ensures SealInput(MapAll(FillSeal(k, b), sets), k) == SealInput(sets, k)
  {
    CoveredFilled(sets, k, b);
    SortByMapped(FillSeal(k, b), Covered(sets, k), Instance);
    FilledFields(Ordered(sets, k), k, b);
    FilledValue(Ordered(sets, k), k, b);
    EmptyBForgetsB(SealValue(Ordered(sets, k), k), b);
  }

  // The seal of hop k, checked at the end of the road: later hops have added their sets, the header
  // fields may stand in any order, and the signature of hop k is in place.
  lemma SealStaysVerifiable(atHop: seq<ArcSetHeaders>, later: seq<ArcSetHeaders>, final: seq<ArcSetHeaders>, k: int,
      b: string)
    requires ';' !in b
    requires forall i :: 0 <= i < |later| ==> later[i].instance > k
    requires multiset(final) == multiset(MapAll(FillSeal(k, b), atHop) + later)
    requires DistinctKeys(MapAll(FillSeal(k, b), atHop) + later, Instance)
    ensures SealInput(final, k) == SealInput(atHop, k)
  {
    var filled := MapAll(FillSeal(k, b), atHop);
    SealForgetsOrder(filled + later, final, k);
    LaterHopsUnsealed(filled, later, k);
    FillingUnsealed(atHop, k, b);
  }
}
