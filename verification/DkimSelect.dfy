/**
 Header selection for an h= list (section 5.4.2 of RFC 6376): each name takes the next unused instance
 of that field from the bottom of the header block upward.
 */
module DkimSelect {
  import opened Text
  import opened DkimVerify

  // How header names are compared.
  function Key(name: string): string {
    Lower(Trim(name))
  }

  // Names are the same whatever white space is around them and whatever the case of their letters.
  lemma KeysAgree(a: string, b: string, before: string, after: string)
    requires Blank(before) && Blank(after) && a != "" && Bare(a, IsSpace) && Bare(b, IsSpace)
    ensures Key(before + a + after) == Key(b) <==> Lower(a) == Lower(b)
  {
    TrimPadded(before, a, after);
    StripIsBare(b, IsSpace);
  }

  function Keys(headers: seq<RawHeaderField>): (r: seq<string>)
    ensures |r| == |headers| && forall i :: 0 <= i < |r| ==> r[i] == Key(headers[i].name)
  {
    seq(|headers|, i requires 0 <= i < |headers| => Key(headers[i].name))
  }

  function KeysOf(names: seq<string>): (r: seq<string>)
    ensures |r| == |names| && forall i :: 0 <= i < |r| ==> r[i] == Key(names[i])
  {
    seq(|names|, i requires 0 <= i < |names| => Key(names[i]))
  }

  function Count(keys: seq<string>, n: string): nat {
    if keys == [] then 0 else Count(keys[..|keys| - 1], n) + if keys[|keys| - 1] == n then 1 else 0
  }

  // The k-th instance of a name counted from the bottom, k = 0 being the last one.
  function FromBottom(keys: seq<string>, n: string, k: nat): Option<nat> {
    if keys == [] then None
    else
      var last := |keys| - 1;
      if keys[last] != n then FromBottom(keys[..last], n, k)
      else if k == 0 then Some(last)
      else FromBottom(keys[..last], n, k - 1)
  }

  // What the last name of a list selects: its earlier occurrences have used up the instances below.
  function Pick(keys: seq<string>, names: seq<string>, n: string): Option<nat> {
    FromBottom(keys, n, Count(names, n))
  }

  // The positions selected, in the order of the list; an excess entry selects nothing.
  function Selection(keys: seq<string>, names: seq<string>): seq<nat> {
    if names == [] then []
    else
      var earlier := names[..|names| - 1];
      Selection(keys, earlier) + Picked(Pick(keys, earlier, names[|names| - 1]))
  }

  function Picked(pick: Option<nat>): seq<nat> {
    match pick case Some(i) => [i] case None => []
  }

  function Render(h: RawHeaderField): SignedField {
    SignedField(Trim(h.name), Trim(h.value), Some(h.name + ":" + h.value))
  }

  // The positions are positions of a block of n fields.
  predicate Within(picks: seq<nat>, n: nat) {
    forall j :: 0 <= j < |picks| ==> picks[j] < n
  }

  function RenderAll(headers: seq<RawHeaderField>, picks: seq<nat>): (r: seq<SignedField>)
    requires Within(picks, |headers|)
    ensures |r| == |picks| && forall j :: 0 <= j < |r| ==> r[j] == Render(headers[picks[j]])
  {
    seq(|picks|, j requires 0 <= j < |picks| => Render(headers[picks[j]]))
  }

  function SelectedFields(headers: seq<RawHeaderField>, hNames: seq<string>): seq<SignedField> {
    SelectionInRange(Keys(headers), KeysOf(hNames));
    RenderAll(headers, Selection(Keys(headers), KeysOf(hNames)))
  }

  // ---- What is selected ----

  lemma {:induction false} CountConcat(a: seq<string>, b: seq<string>, n: string)
    ensures Count(a + b, n) == Count(a, n) + Count(b, n)
  {
    if b == [] {
      assert a + b == a;
    } else {
      CountConcat(a, b[..|b| - 1], n);
      assert (a + b)[..|a + b| - 1] == a + b[..|b| - 1];
    }
  }

  // There is a k-th instance from the bottom exactly when there are more than k, and it is the instance
  // with k others below it.
  lemma {:induction false} FromBottomIsKth(keys: seq<string>, n: string, k: nat)
    ensures FromBottom(keys, n, k).Some? <==> k < Count(keys, n)
    ensures FromBottom(keys, n, k).Some? ==>
              var i := FromBottom(keys, n, k).value;
              i < |keys| && keys[i] == n && Count(keys[i + 1..], n) == k
  {
    if keys != [] {
      var last := |keys| - 1;
      var rest := keys[..last];
      var below := if keys[last] == n then 1 else 0;
      if keys[last] == n && k == 0 {
        assert keys[last + 1..] == [];
      } else {
        FromBottomIsKth(rest, n, k - below);
        var found := FromBottom(rest, n, k - below);
        if found.Some? {
          var i := found.value;
          assert keys[i + 1..] == rest[i + 1..] + [keys[last]];
          CountConcat(rest[i + 1..], [keys[last]], n);
          assert [keys[last]][..0] == [];
        }
      }
    }
  }

  lemma {:induction false} SelectionInRange(keys: seq<string>, names: seq<string>)
    ensures Within(Selection(keys, names), |keys|)
  {
    if names != [] {
      var earlier := names[..|names| - 1];
      SelectionInRange(keys, earlier);
      FromBottomIsKth(keys, names[|names| - 1], Count(earlier, names[|names| - 1]));
    }
  }

  // A selected instance has fewer instances of its name below it than the list names it.
  lemma {:induction false} SelectedIsLow(keys: seq<string>, names: seq<string>, i: nat)
    requires i in Selection(keys, names)
    ensures i < |keys| && Count(keys[i + 1..], keys[i]) < Count(names, keys[i])
  {
    var earlier, n := names[..|names| - 1], names[|names| - 1];
    FromBottomIsKth(keys, n, Count(earlier, n));
    if i in Selection(keys, earlier) {
      SelectedIsLow(keys, earlier, i);
    }
  }

  // No instance is used twice.
  lemma {:induction false} SelectionDistinct(keys: seq<string>, names: seq<string>)
    ensures forall a, b :: 0 <= a < b < |Selection(keys, names)| ==>
            Selection(keys, names)[a] != Selection(keys, names)[b]
  {
    if names != [] {
      var earlier, n := names[..|names| - 1], names[|names| - 1];
      SelectionDistinct(keys, earlier);
      FromBottomIsKth(keys, n, Count(earlier, n));
      var pick := Pick(keys, earlier, n);
      if pick.Some? && pick.value in Selection(keys, earlier) {
        SelectedIsLow(keys, earlier, pick.value);
        assert false;
      }
    }
  }

  // ---- Prepending fields ----

  function Shift(picks: seq<nat>, offset: nat): (r: seq<nat>)
    ensures |r| == |picks| && forall i :: 0 <= i < |r| ==> r[i] == picks[i] + offset
  {
    seq(|picks|, i requires 0 <= i < |picks| => picks[i] + offset)
  }

  lemma ShiftConcat(a: seq<nat>, b: seq<nat>, offset: nat)
    ensures Shift(a + b, offset) == Shift(a, offset) + Shift(b, offset)
  {
  }

  lemma {:induction false} FromBottomPrepended(front: seq<string>, keys: seq<string>, n: string, k: nat)
    ensures FromBottom(keys, n, k).Some? <==> k < Count(keys, n)
    ensures FromBottom(front + keys, n, k)
            == match FromBottom(keys, n, k)
               case Some(i) => Some(i + |front|)
               case None => FromBottom(front, n, k - Count(keys, n))
    decreases |keys|
  {
    FromBottomIsKth(keys, n, k);
    if keys == [] {
      assert front + keys == front;
    } else {
      var last := |keys| - 1;
      assert (front + keys)[|front + keys| - 1] == keys[last];
      assert (front + keys)[..|front + keys| - 1] == front + keys[..last];
      if keys[last] != n || k > 0 {
        FromBottomPrepended(front, keys[..last], n, if keys[last] == n then k - 1 else k);
      }
    }
  }

  lemma SelectionStep(keys: seq<string>, earlier: seq<string>, n: string)
    ensures Selection(keys, earlier + [n]) == Selection(keys, earlier) + Picked(Pick(keys, earlier, n))
  {
    assert (earlier + [n])[..|earlier|] == earlier;
  }

  lemma CountStep(earlier: seq<string>, m: string, n: string)
    ensures Count(earlier + [m], n) == Count(earlier, n) + if m == n then 1 else 0
  {
    assert (earlier + [m])[..|earlier|] == earlier;
  }

  // Fields whose names the list does not oversign can be prepended without any effect.
  lemma {:induction false} PrependKeepsSelection(front: seq<string>, keys: seq<string>, names: seq<string>)
    requires forall n :: n in front ==> Count(names, n) <= Count(keys, n)
    ensures Selection(front + keys, names) == Shift(Selection(keys, names), |front|)
  {
    if names != [] {
      var earlier, n := names[..|names| - 1], names[|names| - 1];
      assert names == earlier + [n];
      forall m | m in front ensures Count(earlier, m) <= Count(keys, m) {
        CountStep(earlier, n, m);
      }
      PrependKeepsSelection(front, keys, earlier);
      CountStep(earlier, n, n);
      PrependKeepsPick(front, keys, earlier, n);
      ShiftConcat(Selection(keys, earlier), Picked(Pick(keys, earlier, n)), |front|);
    }
  }

  lemma PrependKeepsPick(front: seq<string>, keys: seq<string>, earlier: seq<string>, n: string)
    requires n in front ==> Count(earlier, n) < Count(keys, n)
    ensures Picked(Pick(front + keys, earlier, n)) == Shift(Picked(Pick(keys, earlier, n)), |front|)
  {
    UnusedFront(front, keys, n, Count(earlier, n));
    ShiftPicked(Pick(keys, earlier, n), |front|);
  }

  lemma UnusedFront(front: seq<string>, keys: seq<string>, n: string, k: nat)
    requires n in front ==> k < Count(keys, n)
    ensures FromBottom(front + keys, n, k)
            == match FromBottom(keys, n, k) case Some(i) => Some(i + |front|) case None => None
  {
    FromBottomPrepended(front, keys, n, k);
    if k >= Count(keys, n) {
      NoInstance(front, n, k - Count(keys, n));
    }
  }

  lemma ShiftPicked(pick: Option<nat>, offset: nat)
    ensures Shift(Picked(pick), offset) == match pick case Some(i) => [i + offset] case None => []
  {
  }

  lemma NoInstance(keys: seq<string>, n: string, k: nat)
    requires n !in keys
    ensures FromBottom(keys, n, k) == None
  {
    FromBottomIsKth(keys, n, k);
  }

  // The selection behind entry `j` of the list, as positions in the same header block.
  function SelectionFrom(keys: seq<string>, names: seq<string>, j: nat): seq<nat>
    requires j <= |names|
  {
    if j == |names| then []
    else
      var earlier := names[..|names| - 1];
      SelectionFrom(keys, earlier, j) + Picked(Pick(keys, earlier, names[|names| - 1]))
  }

  lemma {:induction false} SelectionSplits(keys: seq<string>, names: seq<string>, j: nat)
    requires j <= |names|
    ensures Selection(keys, names) == Selection(keys, names[..j]) + SelectionFrom(keys, names, j)
  {
    if j == |names| {
      assert names[..j] == names;
    } else {
      var earlier := names[..|names| - 1];
      SelectionSplits(keys, earlier, j);
      assert earlier[..j] == names[..j];
    }
  }

  // Behind the first excess entry for `f` a prepended `f` is used up and changes nothing more.
  lemma {:induction false} PrependBehind(f: string, keys: seq<string>, names: seq<string>, j: nat)
    requires j <= |names| && Count(names[..j], f) > Count(keys, f)
    ensures SelectionFrom([f] + keys, names, j) == Shift(SelectionFrom(keys, names, j), 1)
  {
    if j < |names| {
      var earlier, n := names[..|names| - 1], names[|names| - 1];
      assert earlier[..j] == names[..j];
      PrependBehind(f, keys, earlier, j);
      var k := Count(earlier, n);
      FromBottomPrepended([f], keys, n, k);
      if FromBottom(keys, n, k).None? {
        CountGrows(earlier, j, f);
        FromBottomIsKth([f], n, k - Count(keys, n));
        assert [f] == [] + [f];
        CountStep([], f, n);
      }
      ShiftConcat(SelectionFrom(keys, earlier, j), Picked(Pick(keys, earlier, n)), 1);
    }
  }

  lemma CountGrows(names: seq<string>, j: nat, f: string)
    requires j <= |names|
    ensures Count(names, f) >= Count(names[..j], f)
  {
    assert names == names[..j] + names[j..];
    CountConcat(names[..j], names[j..], f);
  }

  lemma ExcessEntry(f: string, keys: seq<string>, earlier: seq<string>)
    requires Count(earlier, f) == Count(keys, f)
    ensures Selection(keys, earlier + [f]) == Selection(keys, earlier)
    ensures Selection([f] + keys, earlier + [f]) == Selection([f] + keys, earlier) + [0]
  {
    SelectionStep(keys, earlier, f);
    SelectionStep([f] + keys, earlier, f);
    FromBottomPrepended([f], keys, f, Count(keys, f));
    assert FromBottom([f], f, 0) == Some(0);
  }

  // Prepending a field whose name is oversigned: entry `j`, the first excess entry, selects exactly it
  // and every other entry selects what it did.
  lemma PrependInsertsOversigned(f: string, keys: seq<string>, names: seq<string>, j: nat)
    requires j < |names| && names[j] == f && Count(names[..j], f) == Count(keys, f)
    ensures Selection(keys, names) == Selection(keys, names[..j]) + SelectionFrom(keys, names, j + 1)
    ensures Selection([f] + keys, names)
            == Shift(Selection(keys, names[..j]), 1) + [0] + Shift(SelectionFrom(keys, names, j + 1), 1)
  {
    var earlier := names[..j];
    assert names[..j + 1] == earlier + [f];
    SelectionSplits(keys, names, j + 1);
    SelectionSplits([f] + keys, names, j + 1);
    ExcessEntry(f, keys, earlier);
    CountStep(earlier, f, f);
    PrependBehind(f, keys, names, j + 1);
    assert forall n :: n in [f] ==> n == f;
    PrependKeepsSelection([f], keys, earlier);
  }

  // ---- The selected fields ----

  lemma RenderConcat(headers: seq<RawHeaderField>, a: seq<nat>, b: seq<nat>)
    requires Within(a, |headers|) && Within(b, |headers|)
    ensures RenderAll(headers, a + b) == RenderAll(headers, a) + RenderAll(headers, b)
  {
  }

  lemma RenderShifted(front: seq<RawHeaderField>, headers: seq<RawHeaderField>, picks: seq<nat>)
    requires Within(picks, |headers|)
    ensures RenderAll(front + headers, Shift(picks, |front|)) == RenderAll(headers, picks)
  {
    forall j | 0 <= j < |picks| ensures (front + headers)[Shift(picks, |front|)[j]] == headers[picks[j]] {
    }
  }

  lemma KeysConcat(a: seq<RawHeaderField>, b: seq<RawHeaderField>)
    ensures Keys(a + b) == Keys(a) + Keys(b)
  {
  }

  // Fields prepended in transit whose names are not oversigned are not hashed, and nothing else changes.
  lemma PrependedFieldsIgnored(front: seq<RawHeaderField>, headers: seq<RawHeaderField>, hNames: seq<string>)
    requires forall n :: n in Keys(front) ==> Count(KeysOf(hNames), n) <= Count(Keys(headers), n)
    ensures SelectedFields(front + headers, hNames) == SelectedFields(headers, hNames)
  {
    KeysConcat(front, headers);
    PrependKeepsSelection(Keys(front), Keys(headers), KeysOf(hNames));
    SelectionInRange(Keys(headers), KeysOf(hNames));
    RenderShifted(front, headers, Selection(Keys(headers), KeysOf(hNames)));
  }

  // Where a name is oversigned, a prepended field of that name is hashed and the signing input grows.
  lemma OversignedFieldHashed(
    f: RawHeaderField, headers: seq<RawHeaderField>, hNames: seq<string>, j: nat,
    sigValue: string, canon: HeaderCanon, headerName: string)
    returns (a: seq<SignedField>, b: seq<SignedField>)
    requires j < |hNames| && Key(hNames[j]) == Key(f.name)
    requires Count(KeysOf(hNames)[..j], Key(f.name)) == Count(Keys(headers), Key(f.name))
    ensures SelectedFields(headers, hNames) == a + b
    ensures SelectedFields([f] + headers, hNames) == a + [Render(f)] + b
    ensures |SigningInput(SelectedFields([f] + headers, hNames), sigValue, canon, headerName)|
            > |SigningInput(SelectedFields(headers, hNames), sigValue, canon, headerName)|
  {
    var keys, names := Keys(headers), KeysOf(hNames);
    PrependInsertsOversigned(Key(f.name), keys, names, j);
    var p, q := Selection(keys, names[..j]), SelectionFrom(keys, names, j + 1);
    SelectionInRange(keys, names);
    PartsWithin(p, q, |headers|);
    a, b := RenderAll(headers, p), RenderAll(headers, q);
    RenderConcat(headers, p, q);
    KeysConcat([f], headers);
    assert Keys([f]) == [Key(f.name)];
    RenderInserted(f, headers, p, q);
    ExtraFieldLengthens(a, Render(f), b, sigValue, canon, headerName);
  }

  lemma PartsWithin(p: seq<nat>, q: seq<nat>, n: nat)
    requires Within(p + q, n)
    ensures Within(p, n) && Within(q, n)
  {
    assert forall j :: 0 <= j < |q| ==> q[j] == (p + q)[|p| + j];
    assert forall j :: 0 <= j < |p| ==> p[j] == (p + q)[j];
  }

  lemma RenderInserted(f: RawHeaderField, headers: seq<RawHeaderField>, p: seq<nat>, q: seq<nat>)
    requires Within(p, |headers|) && Within(q, |headers|)
    ensures Within(Shift(p, 1) + [0] + Shift(q, 1), |headers| + 1)
    ensures RenderAll([f] + headers, Shift(p, 1) + [0] + Shift(q, 1))
            == RenderAll(headers, p) + [Render(f)] + RenderAll(headers, q)
  {
    RenderShifted([f], headers, p);
    RenderShifted([f], headers, q);
    RenderConcat([f] + headers, Shift(p, 1), [0]);
    RenderConcat([f] + headers, Shift(p, 1) + [0], Shift(q, 1));
  }

  // ---- The selector as the engine runs it ----

  // All instances of a name, top to bottom.
  function Positions(keys: seq<string>, n: string): (r: seq<nat>)
    ensures |r| == Count(keys, n)
    ensures forall i :: 0 <= i < |r| ==> r[i] < |keys| && keys[r[i]] == n
  {
    if keys == [] then []
    else Positions(keys[..|keys| - 1], n) + if keys[|keys| - 1] == n then [|keys| - 1] else []
  }

  lemma {:induction false} PositionsFromBottom(keys: seq<string>, n: string, k: nat)
    ensures FromBottom(keys, n, k)
            == if k < Count(keys, n) then Some(Positions(keys, n)[Count(keys, n) - 1 - k]) else None
  {
    FromBottomIsKth(keys, n, k);
    if keys != [] {
      var last := |keys| - 1;
      if keys[last] != n || k > 0 {
        PositionsFromBottom(keys[..last], n, if keys[last] == n then k - 1 else k);
      }
    }
  }

  // The stacks hold the instances not yet used.
  ghost predicate Stacks(remaining: map<string, seq<nat>>, keys: seq<string>, used: seq<string>) {
    && (forall n :: n in remaining <==> n in keys)
    && (forall n :: n in remaining ==> remaining[n] == Positions(keys, n)[..Left(keys, used, n)])
  }

  function Left(keys: seq<string>, used: seq<string>, n: string): (r: nat)
    ensures r <= Count(keys, n)
  {
    if Count(used, n) < Count(keys, n) then Count(keys, n) - Count(used, n) else 0
  }

  lemma CountZero(keys: seq<string>, n: string)
    requires n !in keys
    ensures Count(keys, n) == 0
  {
    FromBottomIsKth(keys, n, 0);
  }

  lemma NextInStack(remaining: map<string, seq<nat>>, keys: seq<string>, used: seq<string>, n: string)
    requires Stacks(remaining, keys, used)
    ensures Pick(keys, used, n)
            == if n in remaining && remaining[n] != [] then Some(remaining[n][|remaining[n]| - 1]) else None
  {
    if n !in keys {
      CountZero(keys, n);
    }
    TopOfStack(keys, used, n);
  }

  lemma TopOfStack(keys: seq<string>, used: seq<string>, n: string)
    ensures var stack := Positions(keys, n)[..Left(keys, used, n)];
            Pick(keys, used, n) == if stack != [] then Some(stack[|stack| - 1]) else None
  {
    PositionsFromBottom(keys, n, Count(used, n));
  }

  // Naming n leaves one instance of it fewer, if any is left.
  lemma LeftStep(keys: seq<string>, used: seq<string>, n: string, m: string)
    ensures Left(keys, used + [n], m)
            == if m == n && Left(keys, used, n) > 0 then Left(keys, used, n) - 1 else Left(keys, used, m)
  {
    CountStep(used, n, m);
  }

  lemma StacksAfterPop(remaining: map<string, seq<nat>>, keys: seq<string>, used: seq<string>, n: string)
    requires Stacks(remaining, keys, used) && n in remaining && remaining[n] != []
    ensures Stacks(remaining[n := remaining[n][..|remaining[n]| - 1]], keys, used + [n])
  {
    forall m ensures Left(keys, used + [n], m) == if m == n then Left(keys, used, n) - 1 else Left(keys, used, m) {
      LeftStep(keys, used, n, m);
    }
  }

  lemma StacksUnchanged(remaining: map<string, seq<nat>>, keys: seq<string>, used: seq<string>, n: string)
    requires Stacks(remaining, keys, used) && (n !in remaining || remaining[n] == [])
    ensures Stacks(remaining, keys, used + [n])
  {
    if n !in keys {
      CountZero(keys, n);
    }
    forall m ensures Left(keys, used + [n], m) == Left(keys, used, m) {
      LeftStep(keys, used, n, m);
    }
  }

  ghost predicate Indexed(remaining: map<string, seq<nat>>, keys: seq<string>) {
    && (forall n :: n in remaining <==> n in keys)
    && (forall n :: n in remaining ==> remaining[n] == Positions(keys, n))
  }

  lemma IndexedStep(remaining: map<string, seq<nat>>, keys: seq<string>, key: string)
    requires Indexed(remaining, keys)
    ensures Indexed(remaining[key := if key in remaining then remaining[key] + [|keys|] else [|keys|]], keys + [key])
  {
    assert (keys + [key])[..|keys|] == keys;
    if key !in keys {
      CountZero(keys, key);
    }
    forall n ensures Positions(keys + [key], n) == Positions(keys, n) + if n == key then [|keys|] else [] {
    }
  }

  lemma IndexedIsStacks(remaining: map<string, seq<nat>>, keys: seq<string>)
    requires Indexed(remaining, keys)
    ensures Stacks(remaining, keys, [])
  {
  }

  lemma NextKey(headers: seq<RawHeaderField>, i: nat)
    requires i < |headers|
    ensures Keys(headers)[..i + 1] == Keys(headers)[..i] + [Key(headers[i].name)] && |Keys(headers)[..i]| == i
  {
  }

  // The instance positions of each name, in document order.
  method IndexByName(headers: seq<RawHeaderField>) returns (remaining: map<string, seq<nat>>)
    ensures Indexed(remaining, Keys(headers))
  {
    ghost var keys := Keys(headers);
    remaining := map[];
    for i := 0 to |headers|
      invariant Indexed(remaining, keys[..i])
    {
      var key := Key(headers[i].name);
      IndexedStep(remaining, keys[..i], key);
      NextKey(headers, i);
      if key !in remaining {
        remaining := remaining[key := [i]];
      } else {
        remaining := remaining[key := remaining[key] + [i]];
      }
    }
    assert keys[..|headers|] == keys;
  }

  // Popping the stack of a name gives what the list selects next and leaves the stacks in step.
  method PopInstance(remaining: map<string, seq<nat>>, key: string, ghost keys: seq<string>, ghost used: seq<string>)
    returns (rest: map<string, seq<nat>>, pick: Option<nat>)
    requires Stacks(remaining, keys, used)
    ensures Stacks(rest, keys, used + [key])
    ensures pick == Pick(keys, used, key)
    ensures pick.Some? ==> pick.value < |keys|
  {
    FromBottomIsKth(keys, key, Count(used, key));
    NextInStack(remaining, keys, used, key);
    if key !in remaining || remaining[key] == [] {
      StacksUnchanged(remaining, keys, used, key);
      return remaining, None;
    }
    StacksAfterPop(remaining, keys, used, key);
    var idxs := remaining[key];
    rest, pick := remaining[key := idxs[..|idxs| - 1]], Some(idxs[|idxs| - 1]);
  }

  // The field that entry `j` of the list selects, if any is left.
  method TakeField(headers: seq<RawHeaderField>, remaining: map<string, seq<nat>>, key: string,
      ghost names: seq<string>, ghost j: nat)
    returns (rest: map<string, seq<nat>>, taken: seq<SignedField>)
    requires j < |names| && key == names[j] && Stacks(remaining, Keys(headers), names[..j])
    ensures Stacks(rest, Keys(headers), names[..j + 1])
    ensures Within(Picked(Pick(Keys(headers), names[..j], names[j])), |headers|)
    ensures taken == RenderAll(headers, Picked(Pick(Keys(headers), names[..j], names[j])))
  {
    ghost var keys, used := Keys(headers), names[..j];
    assert names[..j + 1] == used + [key];
    var pick;
    rest, pick := PopInstance(remaining, key, keys, used);
    taken := [];
    if pick.Some? {
      var h := headers[pick.value];
      taken := [SignedField(Trim(h.name), Trim(h.value), Some(h.name + [':'] + h.value))];
    }
  }

  lemma SelectedNext(headers: seq<RawHeaderField>, names: seq<string>, j: nat)
    requires j < |names|
    ensures Within(Selection(Keys(headers), names[..j]), |headers|)
            && Within(Picked(Pick(Keys(headers), names[..j], names[j])), |headers|)
    ensures Within(Selection(Keys(headers), names[..j + 1]), |headers|)
    ensures RenderAll(headers, Selection(Keys(headers), names[..j + 1]))
            == RenderAll(headers, Selection(Keys(headers), names[..j]))
              + RenderAll(headers, Picked(Pick(Keys(headers), names[..j], names[j])))
  {
    var keys, picked := Keys(headers), Picked(Pick(Keys(headers), names[..j], names[j]));
    assert names[..j + 1] == names[..j] + [names[j]];
    SelectionStep(keys, names[..j], names[j]);
    SelectionInRange(keys, names[..j + 1]);
    PartsWithin(Selection(keys, names[..j]), picked, |headers|);
    RenderConcat(headers, Selection(keys, names[..j]), picked);
  }

  method SelectSignedFields(headers: seq<RawHeaderField>, hNames: seq<string>) returns (out: seq<SignedField>)
    ensures out == SelectedFields(headers, hNames)
  {
    ghost var names := KeysOf(hNames);
    var remaining := IndexByName(headers);
    IndexedIsStacks(remaining, Keys(headers));
    out := [];
    for j := 0 to |hNames|
      invariant Stacks(remaining, Keys(headers), names[..j])
      invariant Within(Selection(Keys(headers), names[..j]), |headers|)
      invariant out == RenderAll(headers, Selection(Keys(headers), names[..j]))
    {
      var key := Lower(Trim(hNames[j]));
      var taken;
      remaining, taken := TakeField(headers, remaining, key, names, j);
      SelectedNext(headers, names, j);
      out := out + taken;
    }
    assert names[..|hNames|] == names;
  }
}
