/**
 The header-hash input of a DKIM signature (sections 3.7 and 5.4.2 of RFC 6376): which header
 fields are hashed, and the octets they and the signature field contribute.
 */
module DkimVerify {
  import opened Text
  import opened DkimCanon

  datatype HeaderCanon = SimpleHeader | RelaxedHeader

  // A field to hash; `raw` holds its verbatim octets without the final CRLF.
  datatype SignedField = SignedField(name: string, value: string, raw: Option<string>)

  datatype RawHeaderField = RawHeaderField(name: string, value: string)

  // ---- Emptying the b= tag ----

  predicate IsBTag(seg: string) {
    '=' in seg && Trim(seg[..IndexOf(seg, '=')]) == "b"
  }

  function EmptiedTag(seg: string): string
    requires '=' in seg
  {
    seg[..IndexOf(seg, '=') + 1]
  }

  // Empties the first b= tag of a list of tags.
  function EmptyFirst(segs: seq<string>): (r: seq<string>)
    ensures |r| == |segs|
  {
    if segs == [] then []
    else if IsBTag(segs[0]) then [EmptiedTag(segs[0])] + segs[1..]
    else [segs[0]] + EmptyFirst(segs[1..])
  }

  function EmptyB(value: string): string {
    Join(EmptyFirst(Split(value, ';')), ";")
  }

  method EmptyBTag(value: string) returns (r: string)
    ensures r == EmptyB(value)
  {
    var done := false;
    var segs := Split(value, ';');
    var out := [];
    for i := 0 to |segs|
      invariant out + StillToEmpty(segs[i..], done) == EmptyFirst(segs)
    {
      var seg := segs[i];
      var eq := IndexOf(seg, '=');
      assert segs[i..][1..] == segs[i + 1..];
      TagStep(segs[i..], done);
      if done || eq == -1 || Trim(seg[..eq]) != "b" {
        Regroup(out, [seg], StillToEmpty(segs[i + 1..], done));
        out := out + [seg];
      } else {
        Regroup(out, [seg[..eq + 1]], StillToEmpty(segs[i + 1..], true));
        done := true;
        out := out + [seg[..eq + 1]];
      }
    }
    assert segs[|segs|..] == [] && out + [] == out;
    r := Join(out, ";");
  }

  // What the pass makes of the tags it has not reached, `done` saying that it has emptied one.
  function StillToEmpty(segs: seq<string>, done: bool): seq<string> {
    if done then segs else EmptyFirst(segs)
  }

  lemma TagStep(segs: seq<string>, done: bool)
    requires segs != []
    ensures done || !IsBTag(segs[0]) ==> StillToEmpty(segs, done) == [segs[0]] + StillToEmpty(segs[1..], done)
    ensures !done && IsBTag(segs[0])
            ==> StillToEmpty(segs, done) == [EmptiedTag(segs[0])] + StillToEmpty(segs[1..], true)
  {
  }

  // Which tag of the list is emptied, and that no other tag is touched.
  lemma {:induction false} EmptyFirstAt(segs: seq<string>, k: nat)
    requires k < |segs| && IsBTag(segs[k])
    requires forall i :: 0 <= i < k ==> !IsBTag(segs[i])
    ensures EmptyFirst(segs) == segs[k := EmptiedTag(segs[k])]
  {
    if k == 0 {
      assert segs[0 := EmptiedTag(segs[0])] == [EmptiedTag(segs[0])] + segs[1..];
    } else {
      EmptyFirstAt(segs[1..], k - 1);
      assert segs[k := EmptiedTag(segs[k])] == [segs[0]] + segs[1..][k - 1 := EmptiedTag(segs[k])];
    }
  }

  // ---- What emptying forgets ----

  // The list with `x` in place of what stands behind the "=" of its first b= tag.
  function FillFirst(segs: seq<string>, x: string): (r: seq<string>)
    ensures |r| == |segs|
  {
    if segs == [] then []
    else if IsBTag(segs[0]) then [EmptiedTag(segs[0]) + x] + segs[1..]
    else [segs[0]] + FillFirst(segs[1..], x)
  }

  // A signature value with another signature in it; a value without a b= tag has no place for one.
  function ReplaceB(value: string, x: string): string {
    Join(FillFirst(Split(value, ';'), x), ";")
  }

  // What stands behind the "=" of the first b= tag.
  function FirstB(segs: seq<string>): string {
    if segs == [] then []
    else if IsBTag(segs[0]) then segs[0][IndexOf(segs[0], '=') + 1..]
    else FirstB(segs[1..])
  }

  function BValue(value: string): string {
    FirstB(Split(value, ';'))
  }

  lemma FilledTagIsBTag(seg: string, x: string)
    requires IsBTag(seg)
    ensures IsBTag(EmptiedTag(seg) + x) && EmptiedTag(EmptiedTag(seg) + x) == EmptiedTag(seg)
  {
    var eq := IndexOf(seg, '=');
    var filled := EmptiedTag(seg) + x;
    assert filled[eq] == '=' && forall i :: 0 <= i < eq ==> filled[i] == seg[i];
    assert IndexOf(filled, '=') == eq && filled[..eq] == seg[..eq] && filled[..eq + 1] == seg[..eq + 1];
  }

  lemma {:induction false} EmptyFilled(segs: seq<string>, x: string)
    ensures EmptyFirst(FillFirst(segs, x)) == EmptyFirst(segs)
  {
    if segs != [] {
      if IsBTag(segs[0]) {
        FilledTagIsBTag(segs[0], x);
      } else {
        EmptyFilled(segs[1..], x);
      }
    }
  }

  lemma {:induction false} FilledPieces(segs: seq<string>, x: string, c: char)
    requires c !in x && forall i :: 0 <= i < |segs| ==> c !in segs[i]
    ensures forall i :: 0 <= i < |segs| ==> c !in FillFirst(segs, x)[i]
  {
    if segs != [] {
      FilledPieces(segs[1..], x, c);
    }
  }

  lemma {:induction false} EmptiedPieces(segs: seq<string>, c: char)
    requires forall i :: 0 <= i < |segs| ==> c !in segs[i]
    ensures forall i :: 0 <= i < |segs| ==> c !in EmptyFirst(segs)[i]
  {
    if segs != [] {
      EmptiedPieces(segs[1..], c);
    }
  }

  // Whatever signature is put in, and wherever the b= tag stands, what the signature covers stays.
  lemma EmptyBForgetsB(value: string, x: string)
    requires ';' !in x
    ensures EmptyB(ReplaceB(value, x)) == EmptyB(value)
  {
    var segs := Split(value, ';');
    FilledPieces(segs, x, ';');
    SplitJoin(FillFirst(segs, x), ';');
    EmptyFilled(segs, x);
  }

  lemma {:induction false} SameEmptied(a: seq<string>, b: seq<string>)
    requires EmptyFirst(a) == EmptyFirst(b)
    ensures b == FillFirst(a, FirstB(b))
  {
    if a != [] {
      var x, y := EmptyFirst(a)[0], EmptyFirst(b)[0];
      EmptiedHead(a);
      EmptiedHead(b);
      assert IsBTag(a[0]) <==> IsBTag(b[0]);
      assert EmptyFirst(a)[1..] == EmptyFirst(b)[1..];
      if IsBTag(a[0]) {
        assert b[0] == EmptiedTag(b[0]) + b[0][IndexOf(b[0], '=') + 1..];
        assert b == [b[0]] + a[1..];
      } else {
        SameEmptied(a[1..], b[1..]);
        assert b == [b[0]] + b[1..];
      }
    }
  }

  lemma EmptiedHead(segs: seq<string>)
    requires segs != []
    ensures IsBTag(EmptyFirst(segs)[0]) <==> IsBTag(segs[0])
    ensures EmptyFirst(segs)[1..] == if IsBTag(segs[0]) then segs[1..] else EmptyFirst(segs[1..])
  {
    if IsBTag(segs[0]) {
      FilledTagIsBTag(segs[0], []);
      assert EmptiedTag(segs[0]) + [] == EmptiedTag(segs[0]);
    }
  }

  // And nothing else is forgotten: two values come to the same exactly if they differ, at most, in what
  // stands behind the "=" of the first b= tag.
  lemma EmptyBIsExact(value: string, other: string)
    ensures EmptyB(value) == EmptyB(other) <==> other == ReplaceB(value, BValue(other))
  {
    var a, b := Split(value, ';'), Split(other, ';');
    JoinSplit(other, ';');
    if EmptyB(value) == EmptyB(other) {
      EmptiedPieces(a, ';');
      EmptiedPieces(b, ';');
      SplitJoin(EmptyFirst(a), ';');
      SplitJoin(EmptyFirst(b), ';');
      SameEmptied(a, b);
    }
    if other == ReplaceB(value, BValue(other)) {
      FirstBPiece(b, ';');
      EmptyBForgetsB(value, BValue(other));
    }
  }

  lemma {:induction false} FirstBPiece(segs: seq<string>, c: char)
    requires forall i :: 0 <= i < |segs| ==> c !in segs[i]
    ensures c !in FirstB(segs)
  {
    if segs != [] {
      FirstBPiece(segs[1..], c);
    }
  }

  lemma {:induction false} FillFirstAt(segs: seq<string>, k: nat, x: string)
    requires k < |segs| && IsBTag(segs[k])
    requires forall i :: 0 <= i < k ==> !IsBTag(segs[i])
    ensures FillFirst(segs, x) == segs[k := EmptiedTag(segs[k]) + x]
  {
    if k == 0 {
      assert segs[0 := EmptiedTag(segs[0]) + x] == [EmptiedTag(segs[0]) + x] + segs[1..];
    } else {
      FillFirstAt(segs[1..], k - 1, x);
      assert segs[k := EmptiedTag(segs[k]) + x] == [segs[0]] + segs[1..][k - 1 := EmptiedTag(segs[k]) + x];
    }
  }

  // A list that ends in its only b= tag, still empty: the shape the engine's own signer fills in.
  predicate AwaitsB(value: string) {
    var segs := Split(value, ';');
    var last := segs[|segs| - 1];
    && IsBTag(last) && EmptiedTag(last) == last
    && forall i :: 0 <= i < |segs| - 1 ==> !IsBTag(segs[i])
  }

  // The signer fills it in by appending the signature.
  lemma EmptyBUndoesFilling(value: string, b: string)
    requires AwaitsB(value) && ';' !in b
    ensures ReplaceB(value, b) == value + b
    ensures EmptyB(value + b) == value && EmptyB(value) == value
  {
    var segs := Split(value, ';');
    var k := |segs| - 1;
    FillFirstAt(segs, k, b);
    SplitAppend(value, b, ';');
    assert segs[k := segs[k] + b] == ToLast(segs, b);
    JoinSplit(value + b, ';');
    EmptyBForgetsB(value, b);
    EmptyFirstAt(segs, k);
    assert segs[k := segs[k]] == segs;
    JoinSplit(value, ';');
  }

  // ---- The signing input ----

  function CanonField(field: string, canon: HeaderCanon): string {
    if canon.RelaxedHeader? then Relaxed(field) else field
  }

  function FieldOctets(f: SignedField, canon: HeaderCanon): string {
    if canon.SimpleHeader? && f.raw.Some? then f.raw.value + CRLF
    else f.name + ": " + f.value + CRLF
  }

  function FieldsInput(fields: seq<SignedField>, canon: HeaderCanon): string {
    if fields == [] then []
    else FieldsInput(fields[..|fields| - 1], canon) + CanonField(FieldOctets(fields[|fields| - 1], canon), canon)
  }

  // The signature field itself: b= emptied, canonicalized, without its CRLF.
  function SignatureOctets(sigValue: string, canon: HeaderCanon, headerName: string): string {
    DropTerminator(CanonField(headerName + ": " + EmptyB(sigValue) + CRLF, canon))
  }

  function SigningInput(fields: seq<SignedField>, sigValue: string, canon: HeaderCanon, headerName: string): string {
    FieldsInput(fields, canon) + SignatureOctets(sigValue, canon, headerName)
  }

  // One field as it is hashed.
  method CanonicalField(f: SignedField, canon: HeaderCanon) returns (field: string)
    ensures field == CanonField(FieldOctets(f, canon), canon)
  {
    field := if canon.SimpleHeader? && f.raw.Some? then f.raw.value + ['\r', '\n']
             else f.name + ": " + f.value + "\r\n";
    if canon.RelaxedHeader? {
      field := RelaxedHeaderField(field);
    }
  }

  method SignatureField(sigValue: string, canon: HeaderCanon, headerName: string) returns (sigField: string)
    ensures sigField == SignatureOctets(sigValue, canon, headerName)
  {
    var emptied := EmptyBTag(sigValue);
    sigField := headerName + ": " + emptied + "\r\n";
    if canon.RelaxedHeader? {
      sigField := RelaxedHeaderField(sigField);
    }
    if |sigField| >= 2 && sigField[|sigField| - 2] == '\r' && sigField[|sigField| - 1] == '\n' {
      sigField := sigField[..|sigField| - 2];
    }
  }

  method CanonicalFields(fields: seq<SignedField>, canon: HeaderCanon) returns (input: string)
    ensures input == FieldsInput(fields, canon)
  {
    input := [];
    for i := 0 to |fields|
      invariant input == FieldsInput(fields[..i], canon)
    {
      var field := CanonicalField(fields[i], canon);
      FieldsInputNext(fields, i, canon);
      input := input + field;
    }
    assert fields[..|fields|] == fields;
  }

  lemma FieldsInputNext(fields: seq<SignedField>, i: nat, canon: HeaderCanon)
    requires i < |fields|
    ensures FieldsInput(fields[..i + 1], canon)
            == FieldsInput(fields[..i], canon) + CanonField(FieldOctets(fields[i], canon), canon)
  {
    assert fields[..i + 1] == fields[..i] + [fields[i]];
    FieldsInputSnoc(fields[..i], fields[i], canon);
  }

  method BuildSigningInput(fields: seq<SignedField>, sigValue: string, canon: HeaderCanon, headerName: string)
    returns (input: string)
    ensures input == SigningInput(fields, sigValue, canon, headerName)
  {
    input := CanonicalFields(fields, canon);
    var sigField := SignatureField(sigValue, canon, headerName);
    input := input + sigField;
  }

  lemma {:induction false} FieldsInputConcat(a: seq<SignedField>, b: seq<SignedField>, canon: HeaderCanon)
    ensures FieldsInput(a + b, canon) == FieldsInput(a, canon) + FieldsInput(b, canon)
  {
    if b == [] {
      assert a + b == a;
      assert FieldsInput(a, canon) + [] == FieldsInput(a, canon);
    } else {
      var init, f := b[..|b| - 1], b[|b| - 1];
      LastApart(a, b);
      FieldsInputConcat(a, init, canon);
      FieldsInputSnoc(a + init, f, canon);
      FieldsInputSnoc(init, f, canon);
      Regroup(FieldsInput(a, canon), FieldsInput(init, canon), CanonField(FieldOctets(f, canon), canon));
    }
  }

  lemma LastApart(a: seq<SignedField>, b: seq<SignedField>)
    requires b != []
    ensures b == b[..|b| - 1] + [b[|b| - 1]]
    ensures a + b == a + b[..|b| - 1] + [b[|b| - 1]]
  {
  }

  lemma FieldsInputSnoc(fields: seq<SignedField>, f: SignedField, canon: HeaderCanon)
    ensures FieldsInput(fields + [f], canon) == FieldsInput(fields, canon) + CanonField(FieldOctets(f, canon), canon)
  {
    assert (fields + [f])[..|fields|] == fields;
  }

  // One more field anywhere makes the input strictly longer, so it is a different input.
  lemma ExtraFieldLengthens(a: seq<SignedField>, f: SignedField, b: seq<SignedField>, sigValue: string,
      canon: HeaderCanon, headerName: string)
    ensures |SigningInput(a + [f] + b, sigValue, canon, headerName)|
            > |SigningInput(a + b, sigValue, canon, headerName)|
  {
    FieldsInputConcat(a + [f], b, canon);
    FieldsInputSnoc(a, f, canon);
    FieldsInputConcat(a, b, canon);
    FieldHasOctets(f, canon);
  }

  lemma FieldHasOctets(f: SignedField, canon: HeaderCanon)
    ensures |CanonField(FieldOctets(f, canon), canon)| > 0
  {
  }
}
