/**
 Header and body canonicalization (sections 3.4.1 to 3.4.4 of RFC 6376).
 */
module DkimCanon {
  import opened Text

  // ---- White space runs ----

  // Every run of WSP becomes one SP; `inWsp` says that the run was already written.
  function Collapse(s: string, inWsp: bool): string {
    if s == [] then []
    else if IsWsp(s[0]) then (if inWsp then [] else " ") + Collapse(s[1..], true)
    else [s[0]] + Collapse(s[1..], false)
  }

  lemma CollapseStep(s: string, i: nat, inWsp: bool)
    requires i < |s|
    ensures Collapse(s[i..], inWsp)
            == (if !IsWsp(s[i]) then [s[i]] else if inWsp then [] else " ") + Collapse(s[i + 1..], IsWsp(s[i]))
  {
    assert s[i..][1..] == s[i + 1..];
  }

  method CollapseWsp(bytes: string) returns (out: string)
    ensures out == Collapse(bytes, false)
  {
    out := [];
    var inWsp := false;
    for i := 0 to |bytes|
      invariant out + Collapse(bytes[i..], inWsp) == Collapse(bytes, false)
    {
      var b := bytes[i];
      CollapseStep(bytes, i, inWsp);
      if IsWsp(b) {
        if !inWsp {
          out := out + [' '];
        }
        inWsp := true;
      } else {
        out := out + [b];
        inWsp := false;
      }
    }
  }

  lemma {:induction false} CollapseStart(s: string)
    ensures Collapse(s, true) != [] ==> !IsWsp(Collapse(s, true)[0])
    ensures StripLeft(Collapse(s, false), IsWsp) == Collapse(s, true)
  {
    if s != [] && IsWsp(s[0]) {
      CollapseStart(s[1..]);
      assert Collapse(s, false)[1..] == Collapse(s[1..], true);
    }
  }

  lemma StripAfter(c: char, s: string)
    ensures !IsWsp(c) ==> StripRight([c] + s, IsWsp) == [c] + StripRight(s, IsWsp)
    ensures IsWsp(c)
            ==> StripRight([c] + s, IsWsp) == if StripRight(s, IsWsp) == [] then [] else [c] + StripRight(s, IsWsp)
  {
    StripRightConcat([c], s, IsWsp);
    assert [c][..0] == [];
  }

  // The words of a string, one SP between them.
  function Tight(s: string): string {
    Join(Words(s, IsWsp), " ")
  }

  lemma TightStep(s: string)
    ensures Tight([]) == []
    ensures s != [] && IsWsp(s[0]) ==> Tight(s) == Tight(s[1..])
    ensures |s| > 1 && !IsWsp(s[0]) && !IsWsp(s[1]) ==> Tight(s) == [s[0]] + Tight(s[1..])
    ensures s != [] && !IsWsp(s[0]) && (|s| == 1 || IsWsp(s[1]))
            ==> Tight(s) == [s[0]] + if Tight(s[1..]) == [] then [] else " " + Tight(s[1..])
  {
    if s != [] && !IsWsp(s[0]) {
      var ws := Words(s[1..], IsWsp);
      if |s| == 1 || IsWsp(s[1]) {
        assert Words(s, IsWsp)[1..] == ws;
        JoinEmpty(ws, " ");
      } else {
        assert Words(s, IsWsp)[1..] == ws[1..];
      }
    }
  }

  lemma {:induction false} CollapseTail(s: string)
    ensures StripRight(Collapse(s, true), IsWsp) == Tight(s)
  {
    TightStep(s);
    if s == [] {
    } else if IsWsp(s[0]) {
      CollapseTail(s[1..]);
      assert Collapse(s, true) == Collapse(s[1..], true);
    } else {
      CollapseTail(s[1..]);
      StripAfter(s[0], Collapse(s[1..], false));
      if |s| > 1 && IsWsp(s[1]) {
        var t := s[1..][1..];
        assert Collapse(s[1..], true) == Collapse(t, true);
        assert Collapse(s[1..], false) == [' '] + Collapse(t, true);
        StripAfter(' ', Collapse(t, true));
      } else {
        assert Collapse(s[1..], false) == Collapse(s[1..], true);
      }
    }
  }

  lemma JoinEmpty(ws: seq<string>, sep: string)
    requires forall i :: 0 <= i < |ws| ==> ws[i] != []
    ensures Join(ws, sep) == [] <==> ws == []
  {
  }

  // Collapsing and then stripping both edges leaves the words, one SP between them.
  lemma CollapsedIsWords(s: string)
    ensures Strip(Collapse(s, false), IsWsp) == Tight(s)
  {
    CollapseStart(s);
    CollapseTail(s);
  }

  // ---- Relaxed header fields ----

  predicate EndsCrlf(s: string) {
    |s| >= 2 && s[|s| - 2] == '\r' && s[|s| - 1] == '\n'
  }

  function DropTerminator(value: string): string {
    if EndsCrlf(value) then value[..|value| - 2] else value
  }

  predicate FoldAt(s: string, i: nat) {
    i + 2 < |s| && s[i] == '\r' && s[i + 1] == '\n' && IsWsp(s[i + 2])
  }

  // Drops the CRLF of each fold.
  function Unfold(s: string): string {
    if s == [] then []
    else if FoldAt(s, 0) then Unfold(s[2..])
    else [s[0]] + Unfold(s[1..])
  }

  // The words of a field's value once unfolded.
  function ValueWords(value: string): seq<string> {
    Words(Unfold(DropTerminator(value)), IsWsp)
  }

  function RelaxedValue(value: string): string {
    Join(ValueWords(value), " ")
  }

  function LowerAscii(s: string): string {
    Map(LowerAsciiChar, s)
  }

  function RelaxedName(name: string): string {
    LowerAscii(Strip(name, IsWsp))
  }

  function NameOf(field: string): string
    requires ':' in field
  {
    field[..IndexOf(field, ':')]
  }

  function ValueOf(field: string): string
    requires ':' in field
  {
    field[IndexOf(field, ':') + 1..]
  }

  // The canonical octets of a field: name, colon, words, CRLF; a field without a colon is left alone.
  function Relaxed(field: string): string {
    if ':' !in field then field
    else RelaxedName(NameOf(field)) + ":" + RelaxedValue(ValueOf(field)) + CRLF
  }

  method LowerAsciiBuffer(buf: string) returns (out: array<char>)
    ensures fresh(out)
    ensures out[..] == LowerAscii(buf)
  {
    out := new char[|buf|](i requires 0 <= i < |buf| => buf[i]);
    assert out[..] == buf;
    for i := 0 to out.Length
      invariant out.Length == |buf|
      invariant forall j :: 0 <= j < i ==> out[j] == LowerAsciiChar(buf[j])
      invariant forall j :: i <= j < |buf| ==> out[j] == buf[j]
    {
      var c := out[i];
      if 'A' <= c <= 'Z' {
        out[i] := (c as int + 0x20) as char;
      }
    }
    assert out[..] == LowerAscii(buf);
  }

  method TrimWsp(s: string) returns (r: string)
    ensures r == Strip(s, IsWsp)
  {
    r := s;
    while |r| > 0 && IsWsp(r[0])
      invariant StripLeft(r, IsWsp) == StripLeft(s, IsWsp)
    {
      r := r[1..];
    }
    while |r| > 0 && IsWsp(r[|r| - 1])
      invariant StripRight(r, IsWsp) == Strip(s, IsWsp)
    {
      r := r[..|r| - 1];
    }
  }

  lemma UnfoldStep(s: string, i: nat)
    requires i < |s|
    ensures Unfold(s[i..]) == if FoldAt(s, i) then Unfold(s[i + 2..]) else [s[i]] + Unfold(s[i + 1..])
  {
    assert FoldAt(s[i..], 0) <==> FoldAt(s, i);
    assert s[i..][1..] == s[i + 1..];
    if FoldAt(s, i) {
      assert s[i..][2..] == s[i + 2..];
    }
  }

  // Drops the CRLF of each fold, octet by octet.
  method UnfoldBytes(value: string) returns (unfolded: string)
    ensures unfolded == Unfold(value)
  {
    unfolded := [];
    var i := 0;
    while i < |value|
      invariant 0 <= i <= |value|
      invariant i > 0 ==> !FoldAt(value, i - 1)
      invariant unfolded + Unfold(value[i..]) == Unfold(value)
    {
      UnfoldStep(value, i);
      if value[i] == '\r' && i + 2 < |value| && value[i + 1] == '\n' && IsWsp(value[i + 2]) {
        i := i + 2;
        continue;
      }
      if value[i] == '\n' && i > 0 && value[i - 1] == '\r' && i + 1 < |value| && IsWsp(value[i + 1]) {
        assert false; // the LF of a fold is always consumed together with its CR
      }
      Regroup(unfolded, [value[i]], Unfold(value[i + 1..]));
      unfolded := unfolded + [value[i]];
      i := i + 1;
    }
    assert value[i..] == [] && unfolded + [] == unfolded;
  }

  method RelaxedHeaderField(field: string) returns (r: string)
    ensures r == Relaxed(field)
  {
    var colon := IndexOf(field, ':');
    if colon == -1 {
      return field;
    }
    var nameRaw := field[..colon];
    var value := field[colon + 1..];
    if |value| >= 2 && value[|value| - 2] == '\r' && value[|value| - 1] == '\n' {
      value := value[..|value| - 2];
    }
    assert value == DropTerminator(ValueOf(field));
    var unfolded := UnfoldBytes(value);
    var v := CollapseWsp(unfolded);
    v := TrimWsp(v);
    CollapsedIsWords(unfolded);
    assert v == RelaxedValue(ValueOf(field));
    var name := TrimWsp(nameRaw);
    var nameBuf := LowerAsciiBuffer(name);
    r := nameBuf[..] + ":" + v + CRLF;
  }

  // ---- The normal form ----

  lemma LowerAsciiKeeps(s: string, c: char)
    requires !IsLetter(c)
    ensures c in LowerAscii(s) ==> c in s
  {
    if c in LowerAscii(s) {
      var i :| 0 <= i < |s| && LowerAscii(s)[i] == c;
      assert s[i] == c;
    }
  }

  lemma RelaxedNameHasNoColon(field: string)
    requires ':' in field
    ensures ':' !in RelaxedName(NameOf(field))
  {
    var name := NameOf(field);
    StripLeftSuffix(name, IsWsp);
    LowerAsciiKeeps(Strip(name, IsWsp), ':');
  }

  lemma SplitAtColon(n: string, v: string)
    requires ':' !in n
    ensures ':' in n + ":" + v
    ensures NameOf(n + ":" + v) == n && ValueOf(n + ":" + v) == v
  {
    var s := n + ":" + v;
    assert s[|n|] == ':';
    assert forall i :: 0 <= i < |n| ==> s[i] == n[i] && n[i] in n;
    assert IndexOf(s, ':') == |n|;
  }

  lemma LineParts(n: string, v: string)
    requires ':' !in n
    ensures var r := n + ":" + v + CRLF;
            ':' in r && NameOf(r) == n && DropTerminator(ValueOf(r)) == v
  {
    SplitAtColon(n, v + CRLF);
    assert n + ":" + v + CRLF == n + ":" + (v + CRLF);
    assert (v + CRLF)[..|v + CRLF| - 2] == v;
  }

  // What canonicalization sees of a field, taken back out of its canonical form.
  lemma RelaxedParts(field: string)
    requires ':' in field
    ensures var r := Relaxed(field);
            && ':' in r
            && NameOf(r) == RelaxedName(NameOf(field))
            && DropTerminator(ValueOf(r)) == RelaxedValue(ValueOf(field))
            && Words(RelaxedValue(ValueOf(field)), IsWsp) == ValueWords(ValueOf(field))
  {
    var n, v := RelaxedName(NameOf(field)), RelaxedValue(ValueOf(field));
    RelaxedNameHasNoColon(field);
    LineParts(n, v);
    WordsJoin(ValueWords(ValueOf(field)), IsWsp, ' ');
  }

  // Two fields have the same canonical octets exactly when their trimmed names agree ignoring ASCII
  // case and their unfolded values are the same words.
  lemma RelaxedNormalForm(f: string, g: string)
    requires ':' in f && ':' in g
    ensures Relaxed(f) == Relaxed(g)
            <==> RelaxedName(NameOf(f)) == RelaxedName(NameOf(g)) && ValueWords(ValueOf(f)) == ValueWords(ValueOf(g))
  {
    RelaxedParts(f);
    RelaxedParts(g);
  }

  // ---- When canonicalizing twice is canonicalizing once ----

  predicate HasFold(s: string) {
    s != [] && (FoldAt(s, 0) || HasFold(s[1..]))
  }

  lemma {:induction false} UnfoldShrinks(s: string)
    ensures |Unfold(s)| <= |s|
    ensures HasFold(s) ==> |Unfold(s)| < |s|
    ensures !HasFold(s) ==> Unfold(s) == s
  {
    if s != [] {
      if FoldAt(s, 0) {
        UnfoldShrinks(s[2..]);
      } else {
        UnfoldShrinks(s[1..]);
      }
    }
  }

  lemma {:induction false} TightShrinks(s: string)
    ensures |Tight(s)| <= |s|
    ensures s != [] && IsWsp(s[0]) ==> |Tight(s)| < |s|
  {
    TightStep(s);
    if s != [] {
      TightShrinks(s[1..]);
    }
  }

  lemma TightHead(s: string)
    ensures s != [] && !IsWsp(s[0]) ==> Tight(s) != [] && Tight(s)[0] == s[0]
  {
    TightStep(s);
  }

  lemma {:induction false} TightEmpty(s: string)
    ensures Tight(s) == [] <==> StripRight(s, IsWsp) == []
  {
    TightStep(s);
    if s != [] {
      assert s == [s[0]] + s[1..];
      StripAfter(s[0], s[1..]);
      TightEmpty(s[1..]);
    }
  }

  lemma TightFoldAtHead(s: string)
    requires s != [] && !IsWsp(s[0])
    ensures FoldAt(Tight(s), 0) <==> FoldAt(StripRight(s, IsWsp), 0)
  {
    assert s == [s[0]] + s[1..];
    StripAfter(s[0], s[1..]);
    TightStep(s);
    if |s| > 1 && s[1] == '\n' {
      FoldAfterLf(s[1..]);
    } else if |s| > 1 && !IsWsp(s[1]) {
      TightHead(s[1..]);
    }
  }

  // What follows an LF is WSP in the words exactly when it is in the stripped string.
  lemma FoldAfterLf(s: string)
    requires s != [] && s[0] == '\n'
    ensures Tight(s) != [] && Tight(s)[0] == '\n'
    ensures |Tight(s)| > 1 && IsWsp(Tight(s)[1])
            <==> |StripRight(s, IsWsp)| > 1 && IsWsp(StripRight(s, IsWsp)[1])
  {
    var t := s[1..];
    assert s == [s[0]] + t;
    StripAfter(s[0], t);
    TightStep(s);
    TightEmpty(t);
    TightHead(t);
  }

  // Rewriting the white space between words neither makes nor removes a fold.
  lemma {:induction false} TightKeepsFolds(s: string)
    ensures HasFold(Tight(s)) <==> HasFold(StripRight(s, IsWsp))
  {
    TightStep(s);
    if s != [] {
      TightKeepsFolds(s[1..]);
      assert s == [s[0]] + s[1..];
      StripAfter(s[0], s[1..]);
      if !IsWsp(s[0]) {
        TightFoldAtHead(s);
        var rest := Tight(s[1..]);
        assert HasFold(" " + rest) <==> HasFold(rest) by {
          assert (" " + rest)[1..] == rest;
        }
        assert Tight(s)[1..] == if |s| > 1 && !IsWsp(s[1]) then rest else if rest == [] then [] else " " + rest;
        assert StripRight(s, IsWsp)[1..] == StripRight(s[1..], IsWsp);
      } else if StripRight(s, IsWsp) != [] {
        assert StripRight(s, IsWsp)[1..] == StripRight(s[1..], IsWsp);
      }
    }
  }

  // A CRLF survives unfolding and is then followed by white space and, later, by something else:
  // the canonical form would read it as a fold.
  predicate Refolds(field: string) {
    ':' in field && HasFold(StripRight(Unfold(DropTerminator(ValueOf(field))), IsWsp))
  }

  lemma RelaxedNameTwice(name: string)
    ensures RelaxedName(RelaxedName(name)) == RelaxedName(name)
  {
    var n := Strip(name, IsWsp);
    StripIsBare(name, IsWsp);
    StripIsBare(LowerAscii(n), IsWsp);
    assert LowerAscii(LowerAscii(n)) == LowerAscii(n);
  }

  // Canonicalization is idempotent on exactly the fields that do not refold.
  lemma RelaxedIdempotentIff(field: string)
    ensures Relaxed(Relaxed(field)) == Relaxed(field) <==> !Refolds(field)
  {
    if ':' in field {
      var v := ValueOf(field);
      var r := Relaxed(field);
      var tight := RelaxedValue(v);
      RelaxedParts(field);
      TightKeepsFolds(Unfold(DropTerminator(v)));
      RelaxedNameTwice(NameOf(field));
      UnfoldShrinks(tight);
      TightShrinks(Unfold(tight));
      RelaxedParts(r);
    }
  }

  // Of two CRLFs before white space the first is kept.
  lemma UnfoldDoubled(rest: string)
    requires rest != [] && IsWsp(rest[0])
    ensures Unfold(CRLF + (CRLF + rest)) == CRLF + Unfold(rest)
  {
    var s, t := CRLF + (CRLF + rest), CRLF + rest;
    assert FoldAt(t, 0) && t[2..] == rest;
    assert s[1..] == "\n" + t && s[1..][1..] == t;
    assert Unfold(s[1..]) == "\n" + Unfold(t);
    assert Unfold(s) == "\r" + Unfold(s[1..]);
  }

  lemma UnfoldPlain(c: char, rest: string)
    requires c != '\r'
    ensures Unfold([c] + rest) == [c] + Unfold(rest)
  {
    assert ([c] + rest)[1..] == rest;
  }

  // A value with two CRLFs before white space, when the white space is followed by something, refolds.
  lemma DoubledRefolds(c: char, d: char)
    requires c != '\r' && !IsWsp(d) && d != '\r'
    ensures HasFold(StripRight(Unfold([c] + (CRLF + (CRLF + [' ', d]))), IsWsp))
  {
    UnfoldPlain(c, CRLF + (CRLF + [' ', d]));
    UnfoldDoubled([' ', d]);
    UnfoldPlain(d, []);
    UnfoldPlain(' ', [d]);
    assert [d] + [] == [d] && [' '] + [d] == [' ', d];
    var u := [c] + (CRLF + [' ', d]);
    assert u[|u| - 1] == d;
    assert FoldAt(u[1..], 0);
  }

  // CRLF CRLF SP: dropping the second CRLF as a fold makes the first one a fold.
  lemma RelaxedNotIdempotent()
    ensures var field := "a:b\r\n\r\n c\r\n"; Relaxed(Relaxed(field)) != Relaxed(field)
  {
    var v := ['b'] + (CRLF + (CRLF + [' ', 'c']));
    assert "a:b\r\n\r\n c\r\n" == "a" + ":" + (v + CRLF);
    DoubledRefolds('b', 'c');
    RefoldingField("a", v, "a:b\r\n\r\n c\r\n");
  }

  lemma RefoldingField(name: string, v: string, field: string)
    requires ':' !in name && field == name + ":" + (v + CRLF) && HasFold(StripRight(Unfold(v), IsWsp))
    ensures Relaxed(Relaxed(field)) != Relaxed(field)
  {
    SplitAtColon(name, v + CRLF);
    assert DropTerminator(v + CRLF) == v;
    RelaxedIdempotentIff(field);
  }

  // Every CRLF other than the terminator opens a fold, as section 2.2.3 of RFC 5322 has it.
  ghost predicate WellFolded(v: string) {
    forall i :: 0 <= i < |v| - 1 && v[i] == '\r' && v[i + 1] == '\n' ==> FoldAt(v, i)
  }

  lemma {:induction false} UnfoldWellFolded(s: string)
    requires WellFolded(s)
    ensures !HasFold(Unfold(s))
    ensures forall i :: 0 <= i < |Unfold(s)| - 1 ==> !(Unfold(s)[i] == '\r' && Unfold(s)[i + 1] == '\n')
    ensures Unfold(s) != [] && Unfold(s)[0] == '\n' ==> s[0] == '\n'
  {
    if s != [] {
      var k := if FoldAt(s, 0) then 2 else 1;
      assert WellFolded(s[k..]) by {
        forall i | 0 <= i < |s[k..]| - 1 && s[k..][i] == '\r' && s[k..][i + 1] == '\n' ensures FoldAt(s[k..], i) {
          assert s[k + i] == '\r' && s[k + i + 1] == '\n';
          assert FoldAt(s, k + i);
        }
      }
      UnfoldWellFolded(s[k..]);
    }
  }

  lemma {:induction false} PrefixHasFold(a: string, b: string)
    requires a <= b && HasFold(a)
    ensures HasFold(b)
  {
    if !FoldAt(a, 0) {
      PrefixHasFold(a[1..], b[1..]);
    }
  }

  lemma RelaxedIdempotent(field: string)
    requires ':' in field && WellFolded(DropTerminator(ValueOf(field)))
    ensures Relaxed(Relaxed(field)) == Relaxed(field)
  {
    var u := Unfold(DropTerminator(ValueOf(field)));
    UnfoldWellFolded(DropTerminator(ValueOf(field)));
    if Refolds(field) {
      PrefixHasFold(StripRight(u, IsWsp), u);
    }
    RelaxedIdempotentIff(field);
  }
}
