/**
 What a simple DKIM signature covers (sections 3.4.1 and 3.7 of RFC 6376): the selected fields octet for octet.
 */
module DkimVerbatim {
  import opened DkimBodyCanon
  import opened DkimCanon
  import opened DkimSelect
  import opened DkimTransit
  import opened DkimVerify
  import opened Text

  // A field as it stands in the message, without its CRLF.
  function RawText(h: RawHeaderField): string {
    h.name + ":" + h.value
  }

  // The selected fields as they stand, in the order in which they are hashed.
  function RawTexts(headers: seq<RawHeaderField>, picks: seq<nat>): (r: seq<string>)
    requires Within(picks, |headers|)
    ensures |r| == |picks| && forall j :: 0 <= j < |r| ==> r[j] == RawText(headers[picks[j]])
  {
    seq(|picks|, j requires 0 <= j < |picks| => RawText(headers[picks[j]]))
  }

  function SelectedTexts(headers: seq<RawHeaderField>, hNames: seq<string>): seq<string> {
    SelectionInRange(Keys(headers), KeysOf(hNames));
    RawTexts(headers, Selection(Keys(headers), KeysOf(hNames)))
  }

  // A field of which the caller has no octets is put together again from its name and value.
  predicate IsTextOf(text: string, f: SignedField) {
    if f.raw.Some? then text == f.raw.value else text == f.name + ": " + f.value
  }

  lemma {:induction false} SimpleFieldsAreJoined(fields: seq<SignedField>, texts: seq<string>)
    requires |texts| == |fields| && forall i :: 0 <= i < |fields| ==> IsTextOf(texts[i], fields[i])
    ensures FieldsInput(fields, SimpleHeader) == JoinLines(texts)
  {
    if fields != [] {
      var k := |fields| - 1;
      SimpleFieldsAreJoined(fields[..k], texts[..k]);
      InitLast(fields);
      InitLast(texts);
      FieldsInputSnoc(fields[..k], fields[k], SimpleHeader);
      JoinLinesSnoc(texts[..k], texts[k]);
      FieldText(fields[k], texts[k]);
    }
  }

  lemma FieldText(f: SignedField, text: string)
    requires IsTextOf(text, f)
    ensures CanonField(FieldOctets(f, SimpleHeader), SimpleHeader) == text + CRLF
  {
  }

  lemma SignatureIsRaw(sigValue: string, headerName: string)
    ensures SignatureOctets(sigValue, SimpleHeader, headerName) == headerName + ": " + EmptyB(sigValue)
  {
    var text := headerName + ": " + EmptyB(sigValue);
    assert (text + CRLF)[..|text|] == text;
  }

  // Under simple canonicalization the input is every selected field as it stands in the message, each with its
  // CRLF, and behind them the signature field with its b= emptied.
  lemma SimpleInputIsVerbatim(headers: seq<RawHeaderField>, hNames: seq<string>, sigValue: string, headerName: string)
    ensures SigningInput(SelectedFields(headers, hNames), sigValue, SimpleHeader, headerName)
            == JoinLines(SelectedTexts(headers, hNames)) + (headerName + ": " + EmptyB(sigValue))
  {
    SelectionInRange(Keys(headers), KeysOf(hNames));
    SimpleFieldsAreJoined(SelectedFields(headers, hNames), SelectedTexts(headers, hNames));
    SignatureIsRaw(sigValue, headerName);
  }

  // ---- Every change shows ----

  // A field as a parser of messages cuts it: it does not start with white space, and all its CRLFs are folds.
  ghost predicate IsField(text: string) {
    text != "" && !IsWsp(text[0]) && WellFolded(text)
  }

  ghost predicate AreFields(texts: seq<string>) {
    forall i :: 0 <= i < |texts| ==> IsField(texts[i])
  }

  // The end of a field is told by what follows it.
  lemma FieldEnds(a: string, x: string, b: string, y: string)
    requires IsField(a) && IsField(b) && x != "" && !IsWsp(x[0]) && y != "" && !IsWsp(y[0])
    requires a + CRLF + x == b + CRLF + y
    ensures a == b && x == y
  {
    var s := a + CRLF + x;
    NotShorter(a, x, b, y, s);
    NotShorter(b, y, a, x, s);
    assert a == s[..|a|] && b == s[..|b|] && x == s[|a| + 2..] && y == s[|b| + 2..];
  }

  lemma BehindField(a: string, x: string, s: string)
    requires x != "" && s == a + CRLF + x
    ensures |s| > |a| + 2 && s[|a|] == '\r' && s[|a| + 1] == '\n' && s[|a| + 2] == x[0]
  {
  }

  lemma FoldFollows(b: string, rest: string, s: string, i: nat)
    requires WellFolded(b) && s == b + rest && i + 1 < |b| && s[i] == '\r' && s[i + 1] == '\n'
    ensures i + 2 < |b| && IsWsp(s[i + 2])
  {
    assert b[i] == '\r' && b[i + 1] == '\n';
    assert FoldAt(b, i);
  }

  lemma NotShorter(a: string, x: string, b: string, y: string, s: string)
    requires WellFolded(b) && x != "" && !IsWsp(x[0]) && y != "" && s == a + CRLF + x && s == b + CRLF + y
    ensures |a| >= |b|
  {
    BehindField(a, x, s);
    BehindField(b, y, s);
    if |a| + 1 < |b| {
      Regroup(b, CRLF, y);
      FoldFollows(b, CRLF + y, s, |a|);
    }
  }

  // A field holds no complete field with another one behind it.
  lemma FieldHoldsNoField(a: string, b: string, y: string, s: string)
    requires IsField(a) && y != "" && !IsWsp(y[0]) && s == b + CRLF + y
    ensures a != s
  {
    BehindField(b, y, s);
    if a == s {
      FoldFollows(a, "", s, |b|);
    }
  }

  lemma Alone(texts: seq<string>, last: string)
    ensures texts == [] ==> JoinLines(texts) + last == last
  {
  }

  lemma BeginsPlain(texts: seq<string>, last: string)
    requires AreFields(texts) && IsField(last)
    ensures var s := JoinLines(texts) + last; s != "" && !IsWsp(s[0])
  {
  }

  lemma NextText(texts: seq<string>, last: string)
    requires texts != []
    ensures JoinLines(texts) + last == texts[0] + CRLF + (JoinLines(texts[1..]) + last)
  {
  }

  lemma {:induction false} TextsTell(fs: seq<string>, x: string, gs: seq<string>, y: string)
    requires AreFields(fs) && AreFields(gs) && IsField(x) && IsField(y)
    requires JoinLines(fs) + x == JoinLines(gs) + y
    ensures fs == gs && x == y
  {
    Alone(fs, x);
    Alone(gs, y);
    if fs != [] && gs != [] {
      NextText(fs, x);
      NextText(gs, y);
      BeginsPlain(fs[1..], x);
      BeginsPlain(gs[1..], y);
      FieldEnds(fs[0], JoinLines(fs[1..]) + x, gs[0], JoinLines(gs[1..]) + y);
      TextsTell(fs[1..], x, gs[1..], y);
      assert fs == [fs[0]] + fs[1..] && gs == [gs[0]] + gs[1..];
    } else if gs != [] {
      NextText(gs, y);
      BeginsPlain(gs[1..], y);
      FieldHoldsNoField(x, gs[0], JoinLines(gs[1..]) + y, JoinLines(gs) + y);
    } else if fs != [] {
      NextText(fs, x);
      BeginsPlain(fs[1..], x);
      FieldHoldsNoField(y, fs[0], JoinLines(fs[1..]) + x, JoinLines(fs) + x);
    }
  }

  // A block of such fields.
  ghost predicate AreRawFields(headers: seq<RawHeaderField>) {
    forall i :: 0 <= i < |headers| ==> IsField(RawText(headers[i]))
  }

  lemma SignatureIsField(headerName: string, sigValue: string)
    requires IsField(headerName) && WellFolded(sigValue)
    ensures IsField(headerName + ": " + EmptyB(sigValue))
  {
    EmptyBStaysFolded(sigValue);
    WellFoldedCons(' ', EmptyB(sigValue));
    WellFoldedAround(headerName, ':', [' '] + EmptyB(sigValue));
    assert headerName + [':'] + ([' '] + EmptyB(sigValue)) == headerName + ": " + EmptyB(sigValue);
  }

  lemma SameSignature(headerName: string, a: string, b: string)
    ensures headerName + ": " + a == headerName + ": " + b <==> a == b
  {
    var x, y := headerName + ": " + a, headerName + ": " + b;
    assert a == x[|headerName| + 2..] && b == y[|headerName| + 2..];
  }

  lemma SelectedAreFields(headers: seq<RawHeaderField>, hNames: seq<string>)
    requires AreRawFields(headers)
    ensures AreFields(SelectedTexts(headers, hNames))
  {
    var picks, texts := Selection(Keys(headers), KeysOf(hNames)), SelectedTexts(headers, hNames);
    SelectionInRange(Keys(headers), KeysOf(hNames));
    forall j | 0 <= j < |texts| ensures IsField(texts[j]) {
      assert texts[j] == RawText(headers[picks[j]]);
    }
  }

  lemma TextsTellIff(fs: seq<string>, x: string, gs: seq<string>, y: string)
    requires AreFields(fs) && AreFields(gs) && IsField(x) && IsField(y)
    ensures JoinLines(fs) + x == JoinLines(gs) + y <==> fs == gs && x == y
  {
    if JoinLines(fs) + x == JoinLines(gs) + y {
      TextsTell(fs, x, gs, y);
    }
  }

  // For any two messages with folded fields the inputs are equal exactly if the selected fields are, octet for
  // octet, in number and in order, and the signature fields with b= emptied.
  lemma SimpleInputTells(headers: seq<RawHeaderField>, v: string, other: seq<RawHeaderField>, w: string,
      hNames: seq<string>, headerName: string)
    requires AreRawFields(headers) && AreRawFields(other)
    requires IsField(headerName) && WellFolded(v) && WellFolded(w)
    ensures SigningInput(SelectedFields(headers, hNames), v, SimpleHeader, headerName)
            == SigningInput(SelectedFields(other, hNames), w, SimpleHeader, headerName)
            <==> SelectedTexts(headers, hNames) == SelectedTexts(other, hNames) && EmptyB(v) == EmptyB(w)
  {
    var fs, gs := SelectedTexts(headers, hNames), SelectedTexts(other, hNames);
    var x, y := headerName + ": " + EmptyB(v), headerName + ": " + EmptyB(w);
    SimpleInputIsVerbatim(headers, hNames, v, headerName);
    SimpleInputIsVerbatim(other, hNames, w, headerName);
    SelectedAreFields(headers, hNames);
    SelectedAreFields(other, hNames);
    SignatureIsField(headerName, v);
    SignatureIsField(headerName, w);
    TextsTellIff(fs, x, gs, y);
    SameSignature(headerName, EmptyB(v), EmptyB(w));
  }
}
