/**
 What transit may do to the fields a relaxed DKIM signature covers (sections 3.4.2 and 3.7 of RFC 6376): the
 changes that leave the signing input alone, and that every other change alters it.
 */
module DkimTransit {
  import opened DkimBodyCanon
  import opened DkimCanon
  import opened DkimSelect
  import opened DkimVerify
  import opened Text

  // The two fields look alike to relaxed canonicalization.
  ghost predicate SameRelaxed(f: SignedField, g: SignedField) {
    var x, y := FieldOctets(f, RelaxedHeader), FieldOctets(g, RelaxedHeader);
    && ':' in x && ':' in y
    && RelaxedName(NameOf(x)) == RelaxedName(NameOf(y))
    && ValueWords(ValueOf(x)) == ValueWords(ValueOf(y))
  }

  lemma {:induction false} SameRelaxedInput(fs: seq<SignedField>, gs: seq<SignedField>)
    requires |fs| == |gs| && forall i :: 0 <= i < |fs| ==> SameRelaxed(fs[i], gs[i])
    ensures FieldsInput(fs, RelaxedHeader) == FieldsInput(gs, RelaxedHeader)
  {
    if fs != [] {
      var k := |fs| - 1;
      SameRelaxedInput(fs[..k], gs[..k]);
      assert SameRelaxed(fs[k], gs[k]);
      RelaxedNormalForm(FieldOctets(fs[k], RelaxedHeader), FieldOctets(gs[k], RelaxedHeader));
    }
  }

  // Refolding, respacing and recasing fields in transit leaves the relaxed signing input alone.
  lemma RelaxedInputSurvivesTransit(fs: seq<SignedField>, gs: seq<SignedField>, sigValue: string, headerName: string)
    requires |fs| == |gs| && forall i :: 0 <= i < |fs| ==> SameRelaxed(fs[i], gs[i])
    ensures SigningInput(fs, sigValue, RelaxedHeader, headerName)
            == SigningInput(gs, sigValue, RelaxedHeader, headerName)
  {
    SameRelaxedInput(fs, gs);
  }

  // ---- Lines ----

  // The canonical line of a field.
  function CanonLine(f: SignedField): string {
    DropTerminator(Relaxed(FieldOctets(f, RelaxedHeader)))
  }

  function CanonLines(fields: seq<SignedField>): (r: seq<string>)
    ensures |r| == |fields| && forall i :: 0 <= i < |r| ==> r[i] == CanonLine(fields[i])
  {
    seq(|fields|, i requires 0 <= i < |fields| => CanonLine(fields[i]))
  }

  lemma FieldHasColon(f: SignedField)
    ensures ':' in FieldOctets(f, RelaxedHeader)
  {
    assert FieldOctets(f, RelaxedHeader)[|f.name|] == ':';
  }

  lemma LineOfField(f: SignedField)
    ensures Relaxed(FieldOctets(f, RelaxedHeader)) == CanonLine(f) + CRLF
  {
    FieldHasColon(f);
  }

  lemma SameLine(f: SignedField, g: SignedField)
    ensures SameRelaxed(f, g) <==> CanonLine(f) == CanonLine(g)
  {
    FieldHasColon(f);
    FieldHasColon(g);
    LineOfField(f);
    LineOfField(g);
    RelaxedNormalForm(FieldOctets(f, RelaxedHeader), FieldOctets(g, RelaxedHeader));
  }

  lemma JoinLinesSnoc(lines: seq<string>, last: string)
    ensures JoinLines(lines + [last]) == JoinLines(lines) + (last + CRLF)
  {
    JoinLinesConcat(lines, [last]);
    assert JoinLines([last]) == last + CRLF + [];
  }

  lemma {:induction false} FieldsAreLines(fields: seq<SignedField>)
    ensures FieldsInput(fields, RelaxedHeader) == JoinLines(CanonLines(fields))
  {
    if fields != [] {
      var init, f := fields[..|fields| - 1], fields[|fields| - 1];
      InitLast(fields);
      FieldsAreLines(init);
      FieldsInputSnoc(init, f, RelaxedHeader);
      LinesSnoc(init, f);
    }
  }

  lemma LinesSnoc(fields: seq<SignedField>, f: SignedField)
    ensures JoinLines(CanonLines(fields + [f]))
            == JoinLines(CanonLines(fields)) + CanonField(FieldOctets(f, RelaxedHeader), RelaxedHeader)
  {
    LineOfField(f);
    assert CanonLines(fields + [f]) == CanonLines(fields) + [CanonLine(f)];
    JoinLinesSnoc(CanonLines(fields), CanonLine(f));
  }

  // ---- Raw fields whose canonical form is one line ----

  // A field as a parser of messages yields it: no colon or line break in the name, every CRLF of the value
  // a fold.
  ghost predicate WellFormed(name: string, value: string) {
    ':' !in name && CrlfFree(name) && WellFolded(value)
  }

  ghost predicate AllWellFormed(fields: seq<SignedField>) {
    forall i :: 0 <= i < |fields| ==> WellFormed(fields[i].name, fields[i].value)
  }

  lemma CrlfFreeAround(a: string, c: char, b: string)
    requires !IsCrOrLf(c)
    ensures CrlfFree(a + [c] + b) <==> CrlfFree(a) && CrlfFree(b)
  {
    var s := a + [c] + b;
    assert forall i :: CrlfAt(a, i) ==> CrlfAt(s, i);
    assert forall i :: CrlfAt(b, i) ==> CrlfAt(s, |a| + 1 + i);
    assert forall i :: CrlfAt(s, i) ==> if i < |a| then CrlfAt(a, i) else CrlfAt(b, i - |a| - 1);
  }

  lemma WellFoldedCons(c: char, t: string)
    requires c != '\r'
    ensures WellFolded([c] + t) <==> WellFolded(t)
  {
    var s := [c] + t;
    if WellFolded(s) {
      forall i | 0 <= i < |t| - 1 && t[i] == '\r' && t[i + 1] == '\n' ensures FoldAt(t, i) {
        assert s[i + 1] == '\r' && s[i + 2] == '\n';
        assert FoldAt(s, i + 1);
      }
    }
    if WellFolded(t) {
      forall i | 0 <= i < |s| - 1 && s[i] == '\r' && s[i + 1] == '\n' ensures FoldAt(s, i) {
        assert FoldAt(t, i - 1);
      }
    }
  }

  // A CRLF survives unfolding exactly if it is no fold.
  lemma {:induction false} UnfoldedIsCrlfFree(s: string)
    ensures CrlfFree(Unfold(s)) <==> WellFolded(s)
  {
    if WellFolded(s) {
      UnfoldWellFolded(s);
    } else if FoldAt(s, 0) {
      UnfoldedIsCrlfFree(s[2..]);
      if WellFolded(s[2..]) {
        FoldThenFolded(s);
      }
    } else {
      UnfoldedIsCrlfFree(s[1..]);
      CrlfFreeCons(s[0], Unfold(s[1..]));
      if WellFolded(s[1..]) {
        BareCrlfFirst(s);
      }
    }
  }

  lemma FoldThenFolded(s: string)
    requires FoldAt(s, 0) && WellFolded(s[2..])
    ensures WellFolded(s)
  {
    forall i | 0 <= i < |s| - 1 && s[i] == '\r' && s[i + 1] == '\n' ensures FoldAt(s, i) {
      if i > 0 {
        assert FoldAt(s[2..], i - 2);
      }
    }
  }

  lemma BareCrlfFirst(s: string)
    requires s != [] && WellFolded(s[1..]) && !WellFolded(s)
    ensures |s| > 1 && s[0] == '\r' && Unfold(s[1..]) != [] && Unfold(s[1..])[0] == '\n'
  {
    forall i | 0 < i < |s| - 1 && s[i] == '\r' && s[i + 1] == '\n' ensures FoldAt(s, i) {
      assert FoldAt(s[1..], i - 1);
    }
  }

  // Rewriting the white space between words neither makes nor removes a CRLF.
  lemma {:induction false} TightKeepsCrlfs(s: string)
    ensures CrlfFree(Tight(s)) <==> CrlfFree(s)
  {
    TightStep(s);
    if s != [] {
      var rest := Tight(s[1..]);
      TightKeepsCrlfs(s[1..]);
      assert s == [s[0]] + s[1..];
      CrlfFreeCons(s[0], s[1..]);
      if !IsWsp(s[0]) {
        if |s| > 1 && !IsWsp(s[1]) {
          TightHead(s[1..]);
          CrlfFreeCons(s[0], rest);
        } else {
          CrlfFreeCons(' ', rest);
          CrlfFreeCons(s[0], if rest == [] then [] else " " + rest);
        }
      }
    }
  }

  lemma {:induction false} StripLeftKeepsCrlfs(s: string)
    ensures CrlfFree(StripLeft(s, IsWsp)) <==> CrlfFree(s)
  {
    if s != [] && IsWsp(s[0]) {
      StripLeftKeepsCrlfs(s[1..]);
      assert s == [s[0]] + s[1..];
      CrlfFreeCons(s[0], s[1..]);
    }
  }

  lemma {:induction false} StripRightKeepsCrlfs(s: string)
    ensures CrlfFree(StripRight(s, IsWsp)) <==> CrlfFree(s)
  {
    if s != [] && IsWsp(s[|s| - 1]) {
      var init := s[..|s| - 1];
      StripRightKeepsCrlfs(init);
      assert s == init + [s[|s| - 1]] + [];
      CrlfFreeAround(init, s[|s| - 1], []);
    }
  }

  lemma NameKeepsCrlfs(name: string)
    ensures CrlfFree(RelaxedName(name)) <==> CrlfFree(name)
  {
    var kept := Strip(name, IsWsp);
    StripLeftKeepsCrlfs(name);
    StripRightKeepsCrlfs(StripLeft(name, IsWsp));
    assert forall i :: CrlfAt(LowerAscii(kept), i) <==> CrlfAt(kept, i);
  }

  // The canonical line of a field, in terms of its raw name and value.
  lemma LineOf(f: SignedField)
    requires ':' !in f.name
    ensures CanonLine(f) == RelaxedName(f.name) + ":" + Tight(Unfold(f.value))
  {
    var v := " " + f.value;
    assert FieldOctets(f, RelaxedHeader) == f.name + ":" + (v + CRLF);
    SplitAtColon(f.name, v + CRLF);
    assert DropTerminator(v + CRLF) == v;
    UnfoldPlain(' ', f.value);
    TightStep(" " + Unfold(f.value));
    assert (" " + Unfold(f.value))[1..] == Unfold(f.value);
    FieldHasColon(f);
  }

  // The canonical form of a field is one line exactly if its name holds no CRLF and its value none but folds.
  lemma OneLineIff(f: SignedField)
    requires ':' !in f.name
    ensures CrlfFree(CanonLine(f)) <==> WellFormed(f.name, f.value)
  {
    LineOf(f);
    CrlfFreeAround(RelaxedName(f.name), ':', Tight(Unfold(f.value)));
    NameKeepsCrlfs(f.name);
    TightKeepsCrlfs(Unfold(f.value));
    UnfoldedIsCrlfFree(f.value);
  }

  // ---- The signature field ----

  lemma SignatureIsLine(sigValue: string, headerName: string)
    ensures SignatureOctets(sigValue, RelaxedHeader, headerName)
            == CanonLine(SignedField(headerName, EmptyB(sigValue), None))
  {
  }

  lemma WellFoldedAround(a: string, c: char, b: string)
    requires !IsCrOrLf(c) && !IsWsp(c)
    ensures WellFolded(a + [c] + b) <==> WellFolded(a) && WellFolded(b)
  {
    var s := a + [c] + b;
    if WellFolded(s) {
      forall i | 0 <= i < |a| - 1 && a[i] == '\r' && a[i + 1] == '\n' ensures FoldAt(a, i) {
        assert s[i] == '\r' && s[i + 1] == '\n';
      }
      forall i | 0 <= i < |b| - 1 && b[i] == '\r' && b[i + 1] == '\n' ensures FoldAt(b, i) {
        assert s[|a| + 1 + i] == '\r' && s[|a| + 2 + i] == '\n';
      }
    } else {
      var i :| 0 <= i < |s| - 1 && s[i] == '\r' && s[i + 1] == '\n' && !FoldAt(s, i);
      assert if i < |a| then !FoldAt(a, i) else !FoldAt(b, i - |a| - 1);
    }
  }

  lemma {:induction false} WellFoldedPieces(segs: seq<string>)
    requires segs != []
    ensures WellFolded(Join(segs, ";")) <==> forall i :: 0 <= i < |segs| ==> WellFolded(segs[i])
  {
    if |segs| > 1 {
      WellFoldedPieces(segs[1..]);
      WellFoldedAround(segs[0], ';', Join(segs[1..], ";"));
      assert forall i :: 1 <= i < |segs| ==> segs[i] == segs[1..][i - 1];
    }
  }

  lemma {:induction false} EmptiedStaysFolded(segs: seq<string>)
    requires forall i :: 0 <= i < |segs| ==> WellFolded(segs[i])
    ensures forall i :: 0 <= i < |segs| ==> WellFolded(EmptyFirst(segs)[i])
  {
    if segs != [] {
      if IsBTag(segs[0]) {
        var eq := IndexOf(segs[0], '=');
        assert segs[0] == segs[0][..eq] + ['='] + segs[0][eq + 1..];
        WellFoldedAround(segs[0][..eq], '=', segs[0][eq + 1..]);
        WellFoldedAround(segs[0][..eq], '=', []);
        assert EmptiedTag(segs[0]) == segs[0][..eq] + ['='] + [];
      } else {
        EmptiedStaysFolded(segs[1..]);
      }
    }
  }

  // Emptying the b= tag of a folded value leaves no broken line.
  lemma EmptyBStaysFolded(value: string)
    requires WellFolded(value)
    ensures WellFolded(EmptyB(value))
  {
    var segs := Split(value, ';');
    JoinSplit(value, ';');
    WellFoldedPieces(segs);
    EmptiedStaysFolded(segs);
    WellFoldedPieces(EmptyFirst(segs));
  }

  // ---- Every other change shows ----

  // The input reads back as its lines, the signature field's last.
  lemma InputReads(fields: seq<SignedField>, sigValue: string, headerName: string)
    requires AllWellFormed(fields) && WellFormed(headerName, sigValue)
    ensures Lines(SigningInput(fields, sigValue, RelaxedHeader, headerName) + CRLF)
            == CanonLines(fields) + [SignatureOctets(sigValue, RelaxedHeader, headerName)]
  {
    var lines, last := CanonLines(fields), SignatureOctets(sigValue, RelaxedHeader, headerName);
    forall i | 0 <= i < |fields| ensures CrlfFree(lines[i]) {
      OneLineIff(fields[i]);
    }
    EmptyBStaysFolded(sigValue);
    SignatureIsLine(sigValue, headerName);
    OneLineIff(SignedField(headerName, EmptyB(sigValue), None));
    FieldsAreLines(fields);
    JoinLinesSnoc(lines, last);
    Regroup(JoinLines(lines), last, CRLF);
    LinesOfJoin(lines + [last]);
  }

  // On well-formed fields two inputs are equal exactly if they come from equally many fields that look alike
  // to relaxed canonicalization one by one, and from signature fields that do once emptied: any other change
  // shows.
  lemma RelaxedInputTells(fs: seq<SignedField>, v: string, gs: seq<SignedField>, w: string, headerName: string)
    requires AllWellFormed(fs) && AllWellFormed(gs) && WellFormed(headerName, v) && WellFormed(headerName, w)
    ensures SigningInput(fs, v, RelaxedHeader, headerName) == SigningInput(gs, w, RelaxedHeader, headerName)
            <==> && |fs| == |gs| && (forall i :: 0 <= i < |fs| ==> SameRelaxed(fs[i], gs[i]))
                 && SignatureOctets(v, RelaxedHeader, headerName) == SignatureOctets(w, RelaxedHeader, headerName)
  {
    if SigningInput(fs, v, RelaxedHeader, headerName) == SigningInput(gs, w, RelaxedHeader, headerName) {
      InputReads(fs, v, headerName);
      InputReads(gs, w, headerName);
      LastLineApart(CanonLines(fs), CanonLines(gs), SignatureOctets(v, RelaxedHeader, headerName),
                    SignatureOctets(w, RelaxedHeader, headerName));
      forall i | 0 <= i < |fs| ensures SameRelaxed(fs[i], gs[i]) {
        SameLine(fs[i], gs[i]);
        assert CanonLines(fs)[i] == CanonLines(gs)[i];
      }
    } else if |fs| == |gs| && forall i :: 0 <= i < |fs| ==> SameRelaxed(fs[i], gs[i]) {
      SameRelaxedInput(fs, gs);
    }
  }

  lemma LastLineApart(a: seq<string>, b: seq<string>, x: string, y: string)
    requires a + [x] == b + [y]
    ensures a == b && x == y
  {
    assert |a + [x]| == |b + [y]|;
    assert a == (a + [x])[..|a|];
  }

  ghost predicate HeadersWellFormed(headers: seq<RawHeaderField>) {
    forall i :: 0 <= i < |headers| ==> WellFormed(headers[i].name, headers[i].value)
  }

  lemma TrimStaysFolded(s: string)
    requires WellFolded(s)
    ensures WellFolded(Trim(s))
  {
    StripLeftSuffix(s, IsSpace);
    var t := StripLeft(s, IsSpace);
    forall i | 0 <= i < |t| - 1 && t[i] == '\r' && t[i + 1] == '\n' ensures FoldAt(t, i) {
      assert FoldAt(s, |s| - |t| + i);
    }
    var r := StripRight(t, IsSpace);
    forall i | 0 <= i < |r| - 1 && r[i] == '\r' && r[i + 1] == '\n' ensures FoldAt(r, i) {
      assert FoldAt(t, i);
      assert !IsSpace(r[|r| - 1]);
    }
  }

  lemma TrimStaysPlain(s: string)
    requires ':' !in s && CrlfFree(s)
    ensures ':' !in Trim(s) && CrlfFree(Trim(s))
  {
    StripLeftSuffix(s, IsSpace);
    var t, r := StripLeft(s, IsSpace), Trim(s);
    assert forall i :: 0 <= i < |r| ==> r[i] == s[|s| - |t| + i];
    assert forall i :: CrlfAt(r, i) ==> CrlfAt(s, |s| - |t| + i);
  }

  // The fields selected from well-formed headers are well-formed.
  lemma SelectedAreWellFormed(headers: seq<RawHeaderField>, hNames: seq<string>)
    requires HeadersWellFormed(headers)
    ensures AllWellFormed(SelectedFields(headers, hNames))
  {
    var picks := Selection(Keys(headers), KeysOf(hNames));
    SelectionInRange(Keys(headers), KeysOf(hNames));
    forall j | 0 <= j < |picks| ensures WellFormed(Trim(headers[picks[j]].name), Trim(headers[picks[j]].value)) {
      TrimStaysPlain(headers[picks[j]].name);
      TrimStaysFolded(headers[picks[j]].value);
    }
  }

  // So for messages: what a relaxed signature covers is the selected fields, as far as canonicalization looks
  // at them, in number and in order.
  lemma SelectedInputTells(
    headers: seq<RawHeaderField>, v: string, other: seq<RawHeaderField>, w: string,
    hNames: seq<string>, headerName: string)
    requires HeadersWellFormed(headers) && HeadersWellFormed(other) && WellFormed(headerName, v)
             && WellFormed(headerName, w)
    ensures var fs, gs := SelectedFields(headers, hNames), SelectedFields(other, hNames);
            SigningInput(fs, v, RelaxedHeader, headerName) == SigningInput(gs, w, RelaxedHeader, headerName)
            <==> && |fs| == |gs| && (forall i :: 0 <= i < |fs| ==> SameRelaxed(fs[i], gs[i]))
                 && SignatureOctets(v, RelaxedHeader, headerName) == SignatureOctets(w, RelaxedHeader, headerName)
  {
    SelectedAreWellFormed(headers, hNames);
    SelectedAreWellFormed(other, hNames);
    RelaxedInputTells(SelectedFields(headers, hNames), v, SelectedFields(other, hNames), w, headerName);
  }

  // ---- Fields of any shape ----

  // The lines that the canonical fields are cut in.
  function Cut(fields: seq<SignedField>): seq<string> {
    if fields == [] then [] else Cut(fields[..|fields| - 1]) + Lines(CanonLine(fields[|fields| - 1]) + CRLF)
  }

  lemma CutSnoc(fields: seq<SignedField>, f: SignedField)
    ensures Cut(fields + [f]) == Cut(fields) + Lines(CanonLine(f) + CRLF)
  {
    assert (fields + [f])[..|fields|] == fields;
  }

  lemma {:induction false} FieldsAreCut(fields: seq<SignedField>)
    ensures FieldsInput(fields, RelaxedHeader) == [] || EndsCrlf(FieldsInput(fields, RelaxedHeader))
    ensures Lines(FieldsInput(fields, RelaxedHeader)) == Cut(fields)
  {
    if fields != [] {
      var init, f := fields[..|fields| - 1], fields[|fields| - 1];
      FieldsAreCut(init);
      InitLast(fields);
      InputSnoc(init, f);
      CutSnoc(init, f);
      LinesConcat(FieldsInput(init, RelaxedHeader), CanonLine(f) + CRLF);
      EndsInCrlf(FieldsInput(init, RelaxedHeader), CanonLine(f));
    }
  }

  lemma InputSnoc(fields: seq<SignedField>, f: SignedField)
    ensures FieldsInput(fields + [f], RelaxedHeader) == FieldsInput(fields, RelaxedHeader) + (CanonLine(f) + CRLF)
  {
    FieldsInputSnoc(fields, f, RelaxedHeader);
    LineOfField(f);
  }

  lemma EndsInCrlf(a: string, line: string)
    ensures EndsCrlf(a + (line + CRLF))
  {
  }

  lemma LinesOfInput(fields: seq<SignedField>, sigValue: string, headerName: string)
    ensures Lines(SigningInput(fields, sigValue, RelaxedHeader, headerName) + CRLF)
            == Cut(fields) + Lines(SignatureOctets(sigValue, RelaxedHeader, headerName) + CRLF)
  {
    var front, last := FieldsInput(fields, RelaxedHeader), SignatureOctets(sigValue, RelaxedHeader, headerName);
    FieldsAreCut(fields);
    LinesConcat(front, last + CRLF);
    Regroup(front, last, CRLF);
  }

  lemma LinesTell(s: string, t: string)
    ensures s == t <==> Lines(s + CRLF) == Lines(t + CRLF)
  {
    JoinOfLines(s + CRLF);
    JoinOfLines(t + CRLF);
    assert s == (s + CRLF)[..|s + CRLF| - 2] && t == (t + CRLF)[..|t + CRLF| - 2];
  }

  // Whatever the fields hold, the input is determined by the lines and determines them.
  lemma RelaxedInputIsItsLines(fs: seq<SignedField>, v: string, gs: seq<SignedField>, w: string, headerName: string)
    ensures SigningInput(fs, v, RelaxedHeader, headerName) == SigningInput(gs, w, RelaxedHeader, headerName)
            <==> Cut(fs) + Lines(SignatureOctets(v, RelaxedHeader, headerName) + CRLF)
                 == Cut(gs) + Lines(SignatureOctets(w, RelaxedHeader, headerName) + CRLF)
  {
    LinesOfInput(fs, v, headerName);
    LinesOfInput(gs, w, headerName);
    LinesTell(SigningInput(fs, v, RelaxedHeader, headerName), SigningInput(gs, w, RelaxedHeader, headerName));
  }

  // A line that canonicalization leaves alone.
  predicate Canonical(line: string) {
    ':' in line && Relaxed(line + CRLF) == line + CRLF
  }

  // The field that a line is.
  function FieldOf(line: string): SignedField
    requires ':' in line
  {
    SignedField(NameOf(line), ValueOf(line), None)
  }

  lemma LineSplits(line: string)
    requires ':' in line
    ensures line == NameOf(line) + [':'] + ValueOf(line) && ':' !in NameOf(line)
  {
  }

  lemma PlainIsWellFolded(v: string)
    requires CrlfFree(v)
    ensures WellFolded(v)
  {
    assert forall i :: 0 <= i < |v| - 1 && v[i] == '\r' && v[i + 1] == '\n' ==> CrlfAt(v, i);
  }

  lemma LineIsItsField(line: string)
    requires CrlfFree(line) && Canonical(line)
    ensures WellFormed(FieldOf(line).name, FieldOf(line).value) && CanonLine(FieldOf(line)) == line
  {
    LineSplits(line);
    LineIsField(NameOf(line), ValueOf(line), FieldOf(line), line);
  }

  lemma LineIsField(n: string, v: string, f: SignedField, line: string)
    requires ':' !in n && line == n + [':'] + v && f == SignedField(n, v, None)
    requires CrlfFree(line) && Relaxed(line + CRLF) == line + CRLF
    ensures WellFormed(n, v) && CanonLine(f) == line
  {
    CrlfFreeAround(n, ':', v);
    PlainIsWellFolded(v);
    LineReads(n, v, f, line);
  }

  lemma LineReads(n: string, v: string, f: SignedField, line: string)
    requires ':' !in n && line == n + [':'] + v && f == SignedField(n, v, None) && Relaxed(line + CRLF) == line + CRLF
    ensures CanonLine(f) == line
  {
    RelaxedLine(n, v);
    LineOf(f);
    SameTerminated(CanonLine(f), line);
  }

  lemma RelaxedLine(n: string, v: string)
    requires ':' !in n
    ensures Relaxed(n + [':'] + v + CRLF) == RelaxedName(n) + ":" + Tight(Unfold(v)) + CRLF
  {
    SplitAtColon(n, v + CRLF);
    assert n + [':'] + v + CRLF == n + ":" + (v + CRLF);
    assert DropTerminator(v + CRLF) == v;
  }

  lemma SameTerminated(a: string, b: string)
    requires a + CRLF == b + CRLF
    ensures a == b
  {
    assert a == (a + CRLF)[..|a + CRLF| - 2] && b == (b + CRLF)[..|b + CRLF| - 2];
  }

  lemma FieldIsCanonical(f: SignedField)
    requires WellFormed(f.name, f.value)
    ensures Canonical(CanonLine(f))
  {
    var v := " " + f.value;
    assert FieldOctets(f, RelaxedHeader) == f.name + ":" + (v + CRLF);
    SplitAtColon(f.name, v + CRLF);
    assert DropTerminator(v + CRLF) == v;
    WellFoldedCons(' ', f.value);
    RelaxedIdempotent(FieldOctets(f, RelaxedHeader));
    LineOfField(f);
    LineOf(f);
    assert CanonLine(f)[|RelaxedName(f.name)|] == ':';
  }

  lemma OneLine(f: SignedField)
    requires WellFormed(f.name, f.value)
    ensures Lines(CanonLine(f) + CRLF) == [CanonLine(f)]
  {
    OneLineIff(f);
    LinesOfPrefixed(CanonLine(f), []);
    assert CanonLine(f) + CRLF + [] == CanonLine(f) + CRLF;
  }

  lemma CanonLinesSnoc(fields: seq<SignedField>, f: SignedField)
    ensures CanonLines(fields + [f]) == CanonLines(fields) + [CanonLine(f)]
  {
  }

  lemma {:induction false} CutIsLines(fields: seq<SignedField>)
    requires AllWellFormed(fields)
    ensures Cut(fields) == CanonLines(fields)
  {
    if fields != [] {
      var init, f := fields[..|fields| - 1], fields[|fields| - 1];
      CutIsLines(init);
      OneLine(f);
      InitLast(fields);
      CutSnoc(init, f);
      CanonLinesSnoc(init, f);
    }
  }

  ghost predicate PassesFor(fs: seq<SignedField>, gs: seq<SignedField>) {
    AllWellFormed(gs) && FieldsInput(gs, RelaxedHeader) == FieldsInput(fs, RelaxedHeader)
  }

  lemma {:induction false} CutCrlfFree(fields: seq<SignedField>)
    ensures forall i :: 0 <= i < |Cut(fields)| ==> CrlfFree(Cut(fields)[i])
  {
    if fields != [] {
      CutCrlfFree(fields[..|fields| - 1]);
      LinesAreCrlfFree(CanonLine(fields[|fields| - 1]) + CRLF);
    }
  }

  function FieldsOf(lines: seq<string>): (r: seq<SignedField>)
    requires forall i :: 0 <= i < |lines| ==> ':' in lines[i]
    ensures |r| == |lines| && forall i :: 0 <= i < |r| ==> r[i] == FieldOf(lines[i])
  {
    seq(|lines|, i requires 0 <= i < |lines| => FieldOf(lines[i]))
  }

  // Fields of any shape pass for well-formed ones exactly if each line they are cut in is a canonical field.
  lemma PassesIff(fs: seq<SignedField>)
    ensures (exists gs :: PassesFor(fs, gs)) <==> forall i :: 0 <= i < |Cut(fs)| ==> Canonical(Cut(fs)[i])
  {
    FieldsAreCut(fs);
    if forall i :: 0 <= i < |Cut(fs)| ==> Canonical(Cut(fs)[i]) {
      var gs := FieldsOf(Cut(fs));
      CutCrlfFree(fs);
      forall i | 0 <= i < |gs| ensures WellFormed(gs[i].name, gs[i].value) && CanonLine(gs[i]) == Cut(fs)[i] {
        LineIsItsField(Cut(fs)[i]);
      }
      assert CanonLines(gs) == Cut(fs);
      FieldsAreLines(gs);
      JoinOfLines(FieldsInput(fs, RelaxedHeader));
      assert PassesFor(fs, gs);
    }
    if gs :| PassesFor(fs, gs) {
      FieldsAreCut(gs);
      CutIsLines(gs);
      forall i | 0 <= i < |Cut(fs)| ensures Canonical(Cut(fs)[i]) {
        FieldIsCanonical(gs[i]);
      }
    }
  }
}
