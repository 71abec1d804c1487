/**
 Body canonicalization (sections 3.4.3 and 3.4.4 of RFC 6376).
 */
module DkimBodyCanon {
  import opened Text
  import opened DkimCanon

  predicate CrlfAt(s: string, i: int) {
    0 <= i < |s| - 1 && s[i] == '\r' && s[i + 1] == '\n'
  }

  ghost predicate CrlfFree(s: string) {
    forall i :: !CrlfAt(s, i)
  }

  // ---- Lines ----

  // The pieces between CRLFs; a last piece without a CRLF counts only if it holds something.
  function Lines(s: string): seq<string> {
    if s == [] then []
    else if CrlfAt(s, 0) then [[]] + Lines(s[2..])
    else Prepend(s[0], Lines(s[1..]))
  }

  // One more octet at the start of the first line.
  function Prepend(c: char, lines: seq<string>): (r: seq<string>)
    ensures r != []
  {
    if lines == [] then [[c]] else [[c] + lines[0]] + lines[1..]
  }

  function JoinLines(lines: seq<string>): string {
    if lines == [] then [] else lines[0] + CRLF + JoinLines(lines[1..])
  }

  lemma {:induction false} LinesSome(s: string)
    requires s != []
    ensures Lines(s) != []
  {
  }

  lemma {:induction false} LinesWithoutCrlf(s: string)
    requires s != [] && CrlfFree(s)
    ensures Lines(s) == [s]
  {
    assert !CrlfAt(s, 0);
    if |s| > 1 {
      assert forall i :: CrlfAt(s[1..], i) ==> CrlfAt(s, i + 1);
      LinesWithoutCrlf(s[1..]);
      assert s == [s[0]] + s[1..];
      assert Prepend(s[0], [s[1..]]) == [s];
    } else {
      assert s == [s[0]] && s[1..] == [];
    }
  }

  lemma {:induction false} LinesAt(s: string, k: nat)
    requires CrlfAt(s, k) && forall i :: 0 <= i < k ==> !CrlfAt(s, i)
    ensures Lines(s) == [s[..k]] + Lines(s[k + 2..])
  {
    if k == 0 {
      assert s[..0] == [];
    } else {
      assert !CrlfAt(s, 0);
      assert forall i :: 0 <= i < k - 1 && CrlfAt(s[1..], i) ==> CrlfAt(s, i + 1);
      LinesAt(s[1..], k - 1);
      assert s[1..][k - 1 + 2..] == s[k + 2..];
      assert s[..k] == [s[0]] + s[1..][..k - 1];
    }
  }

  lemma {:induction false} LinesAreCrlfFree(s: string)
    ensures forall j :: 0 <= j < |Lines(s)| ==> CrlfFree(Lines(s)[j])
    ensures Lines(s) != [] && Lines(s)[0] != [] ==> Lines(s)[0][0] == s[0]
    ensures s != [] && s[0] == '\n' ==> Lines(s)[0] != [] && Lines(s)[0][0] == '\n'
  {
    if s != [] {
      if CrlfAt(s, 0) {
        LinesAreCrlfFree(s[2..]);
      } else {
        LinesAreCrlfFree(s[1..]);
        var rest := Lines(s[1..]);
        if rest != [] {
          var line := [s[0]] + rest[0];
          forall i ensures !CrlfAt(line, i) {
            if i > 0 {
              assert !CrlfAt(rest[0], i - 1);
            }
          }
        }
      }
    }
  }

  lemma {:induction false} LinesOfPrefixed(line: string, s: string)
    requires CrlfFree(line)
    ensures Lines(line + CRLF + s) == [line] + Lines(s)
  {
    var t := line + CRLF + s;
    assert CrlfAt(t, |line|);
    forall i | 0 <= i < |line| ensures !CrlfAt(t, i) {
      assert !CrlfAt(line, i);
    }
    LinesAt(t, |line|);
    assert t[|line| + 2..] == s && t[..|line|] == line;
  }

  // Joining lines and splitting them undo each other.
  lemma {:induction false} LinesOfJoin(lines: seq<string>)
    requires forall j :: 0 <= j < |lines| ==> CrlfFree(lines[j])
    ensures Lines(JoinLines(lines)) == lines
  {
    if lines != [] {
      LinesOfJoin(lines[1..]);
      LinesOfPrefixed(lines[0], JoinLines(lines[1..]));
    }
  }

  lemma JoinOfPrepend(c: char, lines: seq<string>)
    requires lines != []
    ensures JoinLines(Prepend(c, lines)) == [c] + JoinLines(lines)
  {
    assert Prepend(c, lines)[1..] == lines[1..];
  }

  lemma {:induction false} JoinOfLines(s: string)
    ensures JoinLines(Lines(s)) == if s == [] || EndsCrlf(s) then s else s + CRLF
  {
    if s != [] {
      if CrlfAt(s, 0) {
        JoinOfLines(s[2..]);
        assert s == CRLF + s[2..];
        assert Lines(s)[1..] == Lines(s[2..]);
      } else if |s| == 1 {
        assert s == [s[0]] && Lines(s[1..]) == [];
        assert JoinLines([s][1..]) == [];
      } else {
        JoinOfLines(s[1..]);
        LinesSome(s[1..]);
        JoinOfPrepend(s[0], Lines(s[1..]));
        OneMoreOctet(s);
      }
    }
  }

  lemma OneMoreOctet(s: string)
    requires |s| > 1 && !CrlfAt(s, 0)
    ensures s == [s[0]] + s[1..] && s + CRLF == [s[0]] + (s[1..] + CRLF)
    ensures EndsCrlf(s) <==> EndsCrlf(s[1..])
  {
  }

  lemma PrependConcat(c: char, a: seq<string>, b: seq<string>)
    requires a != []
    ensures Prepend(c, a + b) == Prepend(c, a) + b
  {
    assert (a + b)[1..] == a[1..] + b;
  }

  // A CRLF-terminated part splits on its own.
  lemma {:induction false} LinesConcat(a: string, b: string)
    requires a == [] || EndsCrlf(a)
    ensures Lines(a + b) == Lines(a) + Lines(b)
  {
    if a == [] {
      assert a + b == b;
    } else if CrlfAt(a, 0) {
      LinesConcat(a[2..], b);
      assert (a + b)[2..] == a[2..] + b;
      assert CrlfAt(a + b, 0);
      Regroup([[]], Lines(a[2..]), Lines(b));
    } else {
      LinesConcat(a[1..], b);
      assert (a + b)[1..] == a[1..] + b;
      assert !CrlfAt(a + b, 0) && (a + b)[0] == a[0];
      LinesSome(a[1..]);
      PrependConcat(a[0], Lines(a[1..]), Lines(b));
    }
  }

  // Where the last line starts: just behind the last CRLF.
  function LineStart(body: string): (n: nat)
    ensures n <= |body|
    ensures n == 0 || EndsCrlf(body[..n])
  {
    if body == [] then 0
    else if EndsCrlf(body) then assert body[..|body|] == body; |body|
    else
      var n := LineStart(body[..|body| - 1]);
      assert body[..|body| - 1][..n] == body[..n];
      n
  }

  lemma {:induction false} LastLineCrlfFree(body: string)
    ensures CrlfFree(body[LineStart(body)..])
  {
    if body != [] && !EndsCrlf(body) {
      var shorter := body[..|body| - 1];
      LastLineCrlfFree(shorter);
      var n := LineStart(body);
      forall i ensures !CrlfAt(body[n..], i) {
        assert !CrlfAt(shorter[n..], i);
      }
    }
  }

  ghost predicate NoCrlf(body: string, lo: int, hi: int) {
    forall k :: lo <= k < hi ==> !CrlfAt(body, k)
  }

  lemma LinesRest(body: string, start: nat)
    requires start < |body| && NoCrlf(body, start, |body| - 1)
    ensures Lines(body[start..]) == [body[start..]]
  {
    var s := body[start..];
    assert forall k :: CrlfAt(s, k) ==> CrlfAt(body, start + k);
    LinesWithoutCrlf(s);
  }

  lemma LinesFrom(body: string, start: nat, i: nat)
    requires start <= i && CrlfAt(body, i) && NoCrlf(body, start, i)
    ensures Lines(body[start..]) == [body[start..i]] + Lines(body[i + 2..])
  {
    var s := body[start..];
    assert forall k :: 0 <= k < i - start && CrlfAt(s, k) ==> CrlfAt(body, start + k);
    LinesAt(s, i - start);
    assert s[..i - start] == body[start..i];
    assert s[i - start + 2..] == body[i + 2..];
  }

  method SplitLines(body: string) returns (lines: seq<string>)
    ensures lines == Lines(body)
  {
    lines := [];
    var start, i := 0, 0;
    while i + 1 < |body|
      invariant 0 <= start <= i <= |body|
      invariant lines + Lines(body[start..]) == Lines(body)
      invariant NoCrlf(body, start, i)
    {
      if body[i] == '\r' && body[i + 1] == '\n' {
        LinesFrom(body, start, i);
        Regroup(lines, [body[start..i]], Lines(body[i + 2..]));
        lines := lines + [body[start..i]];
        i := i + 1;
        start := i + 1;
      }
      i := i + 1;
    }
    if start < |body| {
      LinesRest(body, start);
      lines := lines + [body[start..]];
    }
  }

  // ---- One relaxed line ----

  // Runs of WSP become one SP and trailing WSP goes; leading WSP stays as one SP.
  function RelaxedLine(line: string): string {
    StripRight(Collapse(line, false), IsWsp)
  }

  // No tab, no two spaces in a row: what collapsing leaves alone.
  ghost predicate Collapsed(s: string) {
    forall i :: 0 <= i < |s| && IsWsp(s[i]) ==> s[i] == ' ' && (i + 1 < |s| ==> !IsWsp(s[i + 1]))
  }

  lemma {:induction false} CollapseIsCollapsed(s: string, inWsp: bool)
    ensures Collapsed(Collapse(s, inWsp))
    ensures inWsp && Collapse(s, inWsp) != [] ==> !IsWsp(Collapse(s, inWsp)[0])
  {
    if s != [] {
      CollapseIsCollapsed(s[1..], IsWsp(s[0]));
    }
  }

  lemma {:induction false} CollapseOfCollapsed(s: string, inWsp: bool)
    requires Collapsed(s) && (inWsp && s != [] ==> !IsWsp(s[0]))
    ensures Collapse(s, inWsp) == s
  {
    if s != [] {
      CollapseOfCollapsed(s[1..], IsWsp(s[0]));
    }
  }

  lemma RelaxedLineTwice(line: string)
    ensures RelaxedLine(RelaxedLine(line)) == RelaxedLine(line)
  {
    CollapseIsCollapsed(line, false);
    CollapseOfCollapsed(RelaxedLine(line), false);
    StripRightTwice(Collapse(line, false), IsWsp);
  }

  lemma CrlfFreeCons(c: char, t: string)
    ensures CrlfFree([c] + t) <==> !(c == '\r' && t != [] && t[0] == '\n') && CrlfFree(t)
  {
    var s := [c] + t;
    assert forall i :: CrlfAt(t, i) ==> CrlfAt(s, i + 1);
    assert forall i :: i > 0 && CrlfAt(s, i) ==> CrlfAt(t, i - 1);
    assert CrlfAt(s, 0) <==> c == '\r' && t != [] && t[0] == '\n';
  }

  lemma {:induction false} CollapseKeepsCrlfFree(s: string, inWsp: bool)
    requires CrlfFree(s)
    ensures CrlfFree(Collapse(s, inWsp))
    ensures Collapse(s, inWsp) != [] ==>
              Collapse(s, inWsp)[0] == ' ' || Collapse(s, inWsp)[0] == s[0] || (inWsp && IsWsp(s[0]))
  {
    if s != [] {
      var c, t := s[0], s[1..];
      assert s == [c] + t;
      CrlfFreeCons(c, t);
      if IsWsp(c) {
        CollapseKeepsCrlfFree(t, true);
        CrlfFreeCons(' ', Collapse(t, true));
        assert Collapse(s, inWsp) == if inWsp then Collapse(t, true) else [' '] + Collapse(t, true);
      } else {
        CollapseKeepsCrlfFree(t, false);
        CrlfFreeCons(c, Collapse(t, false));
        assert Collapse(s, inWsp) == [c] + Collapse(t, false);
      }
    }
  }

  lemma RelaxedLineCrlfFree(line: string)
    requires CrlfFree(line)
    ensures CrlfFree(RelaxedLine(line))
  {
    CollapseKeepsCrlfFree(line, false);
    forall i ensures !CrlfAt(RelaxedLine(line), i) {
      assert !CrlfAt(Collapse(line, false), i);
    }
  }

  // ---- Relaxed bodies ----

  function RelaxedLines(lines: seq<string>): (r: seq<string>)
    ensures |r| == |lines| && forall i :: 0 <= i < |lines| ==> r[i] == RelaxedLine(lines[i])
  {
    seq(|lines|, i requires 0 <= i < |lines| => RelaxedLine(lines[i]))
  }

  function DropEmptyTail(lines: seq<string>): (r: seq<string>)
    ensures r <= lines
    ensures r != [] ==> r[|r| - 1] != []
  {
    if lines != [] && lines[|lines| - 1] == [] then DropEmptyTail(lines[..|lines| - 1]) else lines
  }

  function RelaxedForm(body: string): string {
    JoinLines(DropEmptyTail(RelaxedLines(Lines(body))))
  }

  lemma {:induction false} JoinLinesConcat(a: seq<string>, b: seq<string>)
    ensures JoinLines(a + b) == JoinLines(a) + JoinLines(b)
  {
    if a == [] {
      assert a + b == b;
    } else {
      JoinLinesConcat(a[1..], b);
      assert (a + b)[1..] == a[1..] + b;
    }
  }

  method RelaxLine(line: string) returns (bytes: string)
    ensures bytes == RelaxedLine(line)
  {
    bytes := CollapseWsp(line);
    while |bytes| > 0 && IsWsp(bytes[|bytes| - 1])
      invariant StripRight(bytes, IsWsp) == RelaxedLine(line)
    {
      bytes := bytes[..|bytes| - 1];
    }
  }

  method WriteLines(lines: seq<string>) returns (out: string)
    ensures out == JoinLines(lines)
  {
    out := [];
    for i := 0 to |lines|
      invariant out + JoinLines(lines[i..]) == JoinLines(lines)
    {
      assert lines[i..][1..] == lines[i + 1..];
      out := out + lines[i] + ['\r', '\n'];
    }
  }

  method RelaxedBody(body: string) returns (r: string)
    ensures r == RelaxedForm(body)
  {
    var split := SplitLines(body);
    var lines := [];
    for i := 0 to |split|
      invariant |lines| == i
      invariant forall j :: 0 <= j < i ==> lines[j] == RelaxedLine(split[j])
    {
      var line := RelaxLine(split[i]);
      lines := lines + [line];
    }
    assert lines == RelaxedLines(split);
    while |lines| > 0 && lines[|lines| - 1] == []
      invariant DropEmptyTail(lines) == DropEmptyTail(RelaxedLines(split))
    {
      lines := lines[..|lines| - 1];
    }
    r := WriteLines(lines);
  }

  lemma RelaxedLinesCrlfFree(body: string)
    ensures forall j :: 0 <= j < |Lines(body)| ==> CrlfFree(RelaxedLines(Lines(body))[j])
  {
    LinesAreCrlfFree(body);
    forall j | 0 <= j < |Lines(body)| ensures CrlfFree(RelaxedLines(Lines(body))[j]) {
      RelaxedLineCrlfFree(Lines(body)[j]);
    }
  }

  // The lines of a relaxed body are the relaxed lines without the empty tail.
  lemma LinesOfRelaxed(body: string)
    ensures Lines(RelaxedForm(body)) == DropEmptyTail(RelaxedLines(Lines(body)))
  {
    RelaxedLinesCrlfFree(body);
    LinesOfJoin(DropEmptyTail(RelaxedLines(Lines(body))));
  }

  lemma RelaxedBodyIdempotent(body: string)
    ensures RelaxedForm(RelaxedForm(body)) == RelaxedForm(body)
  {
    LinesOfRelaxed(body);
    var ls := DropEmptyTail(RelaxedLines(Lines(body)));
    forall i | 0 <= i < |ls| ensures RelaxedLine(ls[i]) == ls[i] {
      RelaxedLineTwice(Lines(body)[i]);
    }
    assert RelaxedLines(ls) == ls;
    assert DropEmptyTail(ls) == ls;
  }

  lemma {:induction false} DropEmptyTailConcat(a: seq<string>, b: seq<string>)
    ensures DropEmptyTail(a + b) == if DropEmptyTail(b) == [] then DropEmptyTail(a) else a + DropEmptyTail(b)
    decreases |b|
  {
    if b == [] {
      assert a + b == a;
    } else {
      assert (a + b)[|a + b| - 1] == b[|b| - 1];
      assert (a + b)[..|a + b| - 1] == a + b[..|b| - 1];
      if b[|b| - 1] == [] {
        DropEmptyTailConcat(a, b[..|b| - 1]);
      }
    }
  }

  // ---- Simple bodies ----

  // The body without the CRs and LFs at its end.
  function Core(body: string): string {
    StripRight(body, IsCrOrLf)
  }

  function SimpleForm(body: string): string {
    Core(body) + CRLF
  }

  method SimpleBody(body: string) returns (r: string)
    ensures r == SimpleForm(body)
  {
    var end := |body|;
    assert body[..end] == body;
    while end > 0 && (body[end - 1] == '\r' || body[end - 1] == '\n')
      invariant 0 <= end <= |body|
      invariant Core(body[..end]) == Core(body)
    {
      assert body[..end][..end - 1] == body[..end - 1];
      end := end - 1;
    }
    r := body[..end] + CRLF;
  }

  lemma CoreOfSimple(s: string)
    ensures Core(s + CRLF) == Core(s)
  {
    StripRightAll(CRLF, IsCrOrLf);
    StripRightConcat(s, CRLF, IsCrOrLf);
  }

  lemma SimpleBodyIdempotent(body: string)
    ensures SimpleForm(SimpleForm(body)) == SimpleForm(body)
  {
    CoreOfSimple(Core(body));
    StripRightTwice(body, IsCrOrLf);
  }

  // ---- Relaxed after simple ----

  // One more CRLF at the end changes nothing that relaxed canonicalization keeps.
  lemma RelaxedIgnoresFinalCrlf(body: string)
    ensures RelaxedForm(body + CRLF) == RelaxedForm(body)
  {
    if body == [] || EndsCrlf(body) {
      LinesConcat(body, CRLF);
      assert Lines(CRLF) == [[]] by {
        LinesOfPrefixed([], []);
        assert [] + CRLF + [] == CRLF;
      }
      assert RelaxedLines(Lines(body) + [[]]) == RelaxedLines(Lines(body)) + [[]];
      DropEmptyTailConcat(RelaxedLines(Lines(body)), [[]]);
    } else {
      LinesAreCrlfFree(body);
      JoinOfLines(body);
      LinesOfJoin(Lines(body));
    }
  }

  function Crlfs(k: nat): string {
    if k == 0 then [] else Crlfs(k - 1) + CRLF
  }

  // The CRs and LFs at the end of the body are CRLF pairs.
  ghost predicate PairedTail(body: string) {
    exists k: nat :: body == Core(body) + Crlfs(k)
  }

  lemma OneMoreCrlf(s: string, k: nat)
    requires k > 0
    ensures RelaxedForm(s + Crlfs(k)) == RelaxedForm(s + Crlfs(k - 1))
  {
    assert s + Crlfs(k) == (s + Crlfs(k - 1)) + CRLF;
    RelaxedIgnoresFinalCrlf(s + Crlfs(k - 1));
  }

  lemma {:induction false} RelaxedIgnoresCrlfs(s: string, k: nat)
    ensures RelaxedForm(s + Crlfs(k)) == RelaxedForm(s)
  {
    if k == 0 {
      assert s + Crlfs(0) == s;
    } else {
      RelaxedIgnoresCrlfs(s, k - 1);
      OneMoreCrlf(s, k);
    }
  }

  // A run of CRs and LFs is CRLF pairs behind a part that does not end in CRLF.
  lemma {:induction false} SplitTail(run: string) returns (odd: string, k: nat)
    ensures run == odd + Crlfs(k) && !EndsCrlf(odd)
  {
    if EndsCrlf(run) {
      odd, k := SplitTail(run[..|run| - 2]);
      assert run == run[..|run| - 2] + CRLF;
      k := k + 1;
    } else {
      odd, k := run, 0;
    }
  }

  // How many CRs and LFs a string holds.
  ghost function Eols(s: string): nat {
    if s == [] then 0 else (if IsCrOrLf(s[0]) then 1 else 0) + Eols(s[1..])
  }

  lemma {:induction false} EolsConcat(a: string, b: string)
    ensures Eols(a + b) == Eols(a) + Eols(b)
  {
    if a == [] {
      assert a + b == b;
    } else {
      assert (a + b)[1..] == a[1..] + b;
      EolsConcat(a[1..], b);
    }
  }

  lemma {:induction false} CollapseKeepsEols(s: string, inWsp: bool)
    ensures Eols(Collapse(s, inWsp)) == Eols(s)
  {
    if s != [] {
      var rest := Collapse(s[1..], IsWsp(s[0]));
      CollapseKeepsEols(s[1..], IsWsp(s[0]));
      EolsConcat(if IsWsp(s[0]) then if inWsp then [] else " " else [s[0]], rest);
    }
  }

  lemma {:induction false} StripKeepsEols(s: string)
    ensures Eols(StripRight(s, IsWsp)) == Eols(s)
  {
    if s != [] && IsWsp(s[|s| - 1]) {
      var t := s[..|s| - 1];
      StripKeepsEols(t);
      assert s == t + [s[|s| - 1]];
      EolsConcat(t, [s[|s| - 1]]);
    }
  }

  lemma {:induction false} RelaxedKeepsEols(lines: seq<string>)
    ensures Eols(JoinLines(RelaxedLines(lines))) == Eols(JoinLines(lines))
  {
    if lines != [] {
      var rest := lines[1..];
      RelaxedKeepsEols(rest);
      assert RelaxedLines(lines)[1..] == RelaxedLines(rest);
      CollapseKeepsEols(lines[0], false);
      StripKeepsEols(Collapse(lines[0], false));
      EolsOfLine(lines[0], JoinLines(rest));
      EolsOfLine(RelaxedLine(lines[0]), JoinLines(RelaxedLines(rest)));
    }
  }

  lemma EolsOfLine(line: string, rest: string)
    ensures Eols(line + CRLF + rest) == Eols(line) + 2 + Eols(rest)
  {
    EolsConcat(line + CRLF, rest);
    EolsConcat(line, CRLF);
    assert CRLF[1..] == "\n" && "\n"[1..] == "";
  }

  lemma JoinOfPrefix(a: seq<string>, b: seq<string>)
    requires a <= b
    ensures JoinLines(a) <= JoinLines(b)
    ensures Eols(JoinLines(a)) <= Eols(JoinLines(b))
  {
    assert b == a + b[|a|..];
    JoinLinesConcat(a, b[|a|..]);
    EolsConcat(JoinLines(a), JoinLines(b[|a|..]));
  }

  // Relaxed canonicalization drops white space and trailing CRLFs only, so a CR or LF that is not
  // part of a trailing pair stays in the relaxed body.
  lemma RelaxedEols(body: string)
    ensures Eols(RelaxedForm(body)) <= Eols(body) + 2
    ensures body != [] && IsCrOrLf(body[|body| - 1]) && !EndsCrlf(body) ==> Eols(RelaxedForm(body)) == Eols(body) + 2
  {
    var ls := RelaxedLines(Lines(body));
    RelaxedKeepsEols(Lines(body));
    JoinOfPrefix(DropEmptyTail(ls), ls);
    EolsJoined(body);
    if body != [] && IsCrOrLf(body[|body| - 1]) && !EndsCrlf(body) {
      OddEndKept(body);
    }
  }

  lemma EolsJoined(body: string)
    ensures Eols(JoinLines(Lines(body))) == Eols(body) + if body == [] || EndsCrlf(body) then 0 else 2
  {
    JoinOfLines(body);
    EolsOfLine(body, []);
    assert body + CRLF + [] == body + CRLF;
  }

  lemma OddEndKept(body: string)
    requires body != [] && IsCrOrLf(body[|body| - 1]) && !EndsCrlf(body)
    ensures DropEmptyTail(RelaxedLines(Lines(body))) == RelaxedLines(Lines(body))
  {
    var init, line := LastLine(body);
    OddLineKept(line);
    RelaxedLinesSnoc(init, line);
    DropsNothing(RelaxedLines(init) + [RelaxedLine(line)]);
  }

  lemma RelaxedLinesSnoc(init: seq<string>, line: string)
    ensures RelaxedLines(init + [line]) == RelaxedLines(init) + [RelaxedLine(line)]
  {
  }

  lemma DropsNothing(lines: seq<string>)
    requires lines != [] && lines[|lines| - 1] != []
    ensures DropEmptyTail(lines) == lines
  {
  }

  lemma OddLineKept(line: string)
    requires line != [] && IsCrOrLf(line[|line| - 1])
    ensures RelaxedLine(line) != []
  {
    var rest := line[..|line| - 1];
    assert line == rest + [line[|line| - 1]];
    CollapseAppend(rest, line[|line| - 1], false);
  }

  lemma LastLine(s: string) returns (init: seq<string>, line: string)
    requires s != [] && !EndsCrlf(s)
    ensures Lines(s) == init + [line]
    ensures line != [] && line[|line| - 1] == s[|s| - 1]
  {
    var n := LineStart(s);
    assert n < |s| by {
      assert s[..|s|] == s;
    }
    init, line := Lines(s[..n]), s[n..];
    assert s == s[..n] + line;
    LastLineCrlfFree(s);
    LinesWithoutCrlf(line);
    LinesConcat(s[..n], line);
  }

  lemma PairedTailRelaxes(body: string)
    requires PairedTail(body)
    ensures RelaxedForm(SimpleForm(body)) == RelaxedForm(body)
  {
    var k: nat :| body == Core(body) + Crlfs(k);
    RelaxedIgnoresFinalCrlf(Core(body));
    RelaxedIgnoresCrlfs(Core(body), k);
  }

  // Relaxing after simplifying is relaxing alone exactly when the CRs and LFs at the end of the body
  // are CRLF pairs.
  lemma RelaxedAfterSimpleIff(body: string)
    ensures RelaxedForm(SimpleForm(body)) == RelaxedForm(body) <==> PairedTail(body)
  {
    if PairedTail(body) {
      PairedTailRelaxes(body);
    } else {
      UnpairedTailKept(body);
    }
  }

  lemma UnpairedTailKept(body: string)
    requires !PairedTail(body)
    ensures RelaxedForm(SimpleForm(body)) != RelaxedForm(body)
  {
    var core := Core(body);
    var odd, k := UnpairedTail(body);
    OddTailKept(core, odd);
    RelaxedIgnoresCrlfs(core + odd, k);
    RelaxedIgnoresFinalCrlf(core);
  }

  lemma UnpairedTail(body: string) returns (odd: string, k: nat)
    requires !PairedTail(body)
    ensures body == Core(body) + odd + Crlfs(k)
    ensures odd != [] && !EndsCrlf(odd) && forall i :: 0 <= i < |odd| ==> IsCrOrLf(odd[i])
  {
    var core := Core(body);
    StripRightAll(body, IsCrOrLf);
    odd, k := SplitTail(body[|core|..]);
    assert body == core + (odd + Crlfs(k));
    assert odd == [] ==> body == core + Crlfs(k);
    forall i | 0 <= i < |odd| ensures IsCrOrLf(odd[i]) {
      assert odd[i] == body[|core| + i];
    }
  }

  lemma NoNewCrlf(core: string, odd: string)
    requires odd != [] && !EndsCrlf(odd) && IsCrOrLf(odd[0])
    requires core != [] ==> !IsCrOrLf(core[|core| - 1])
    ensures !EndsCrlf(core + odd)
  {
    assert (core + odd)[|core + odd| - 1] == odd[|odd| - 1];
    if |odd| == 1 && core != [] {
      assert (core + odd)[|core + odd| - 2] == core[|core| - 1];
    }
  }

  lemma OddTailKept(core: string, odd: string)
    requires odd != [] && !EndsCrlf(odd) && forall i :: 0 <= i < |odd| ==> IsCrOrLf(odd[i])
    requires core != [] ==> !IsCrOrLf(core[|core| - 1])
    ensures RelaxedForm(core + odd) != RelaxedForm(core)
  {
    RelaxedEols(core);
    NoNewCrlf(core, odd);
    RelaxedEols(core + odd);
    EolsConcat(core, odd);
    assert Eols(odd) > 0;
  }

  lemma {:induction false} CrlfsLength(k: nat)
    ensures |Crlfs(k)| == 2 * k
  {
    if k > 0 {
      CrlfsLength(k - 1);
    }
  }

  lemma RelaxedAfterSimpleFails()
    ensures RelaxedForm(SimpleForm("a\n")) != RelaxedForm("a\n")
  {
    assert Core("a") == "a";
    StripRightConcat("a", "\n", IsCrOrLf);
    assert Core("a\n") == "a" by {
      assert "a\n"[..1] == "a";
    }
    forall k: nat ensures "a\n" != "a" + Crlfs(k) {
      CrlfsLength(k);
    }
    RelaxedAfterSimpleIff("a\n");
  }

  // ---- What appending to a body leaves in place ----

  // The last line holds nothing but WSP, or nothing at all.
  predicate BlankLastLine(body: string) {
    forall i :: LineStart(body) <= i < |body| ==> IsWsp(body[i])
  }

  lemma RelaxedLinesConcat(a: seq<string>, b: seq<string>)
    ensures RelaxedLines(a + b) == RelaxedLines(a) + RelaxedLines(b)
  {
  }

  lemma RelaxedSplit(p: string, t: string)
    requires p == [] || EndsCrlf(p)
    ensures RelaxedForm(p + t)
            == if DropEmptyTail(RelaxedLines(Lines(t))) == [] then RelaxedForm(p)
              else JoinLines(RelaxedLines(Lines(p))) + RelaxedForm(t)
  {
    LinesConcat(p, t);
    var a, b := RelaxedLines(Lines(p)), RelaxedLines(Lines(t));
    RelaxedLinesConcat(Lines(p), Lines(t));
    DropEmptyTailConcat(a, b);
    JoinLinesConcat(a, DropEmptyTail(b));
  }

  lemma RelaxedOfLine(t: string)
    requires CrlfFree(t)
    ensures RelaxedForm(t) == if RelaxedLine(t) == [] then [] else RelaxedLine(t) + CRLF
    ensures DropEmptyTail(RelaxedLines(Lines(t))) == [] <==> RelaxedLine(t) == []
  {
    if t != [] {
      LinesWithoutCrlf(t);
      var r := RelaxedLine(t);
      assert RelaxedLines([t]) == [r];
      assert [r][..0] == [] && [r][1..] == [];
      assert DropEmptyTail([r]) == if r == [] then [] else [r];
      assert JoinLines([r]) == r + CRLF;
    }
  }

  lemma {:induction false} CollapseAppend(s: string, c: char, inWsp: bool)
    requires !IsWsp(c)
    ensures Collapse(s + [c], inWsp) == Collapse(s, inWsp) + [c]
  {
    if s == [] {
      assert [c][1..] == [];
    } else {
      assert (s + [c])[1..] == s[1..] + [c];
      CollapseAppend(s[1..], c, IsWsp(s[0]));
    }
  }

  ghost predicate Blank(s: string) {
    forall i :: 0 <= i < |s| ==> IsWsp(s[i])
  }

  lemma BlankStep(c: char, s: string)
    ensures Blank([c] + s) <==> IsWsp(c) && Blank(s)
  {
    if Blank([c] + s) {
      assert ([c] + s)[0] == c;
      assert forall i :: 0 <= i < |s| ==> ([c] + s)[i + 1] == s[i];
    }
  }

  lemma {:induction false} CollapseBlank(s: string, inWsp: bool)
    ensures Blank(Collapse(s, inWsp)) <==> Blank(s)
  {
    if s != [] {
      var w := IsWsp(s[0]);
      var rest := Collapse(s[1..], w);
      CollapseBlank(s[1..], w);
      assert s == [s[0]] + s[1..];
      BlankStep(s[0], s[1..]);
      BlankStep(if w then ' ' else s[0], rest);
      assert inWsp && w ==> Collapse(s, inWsp) == rest;
    }
  }

  lemma BlankCollapses(s: string)
    ensures RelaxedLine(s) == [] <==> Blank(s)
  {
    StripRightAll(Collapse(s, false), IsWsp);
    CollapseBlank(s, false);
  }

  lemma BlankTailPrefix(body: string, x: string)
    requires BlankLastLine(body)
    ensures RelaxedForm(body) <= RelaxedForm(body + x)
  {
    var n := LineStart(body);
    var p, t := body[..n], body[n..];
    assert body == p + t && body + x == p + (t + x);
    LastLineCrlfFree(body);
    BlankLineDrops(p, t);
    BlankLinePrefix(p, t + x);
  }

  lemma BlankLineDrops(p: string, t: string)
    requires (p == [] || EndsCrlf(p)) && CrlfFree(t) && Blank(t)
    ensures RelaxedForm(p + t) == RelaxedForm(p)
  {
    BlankCollapses(t);
    RelaxedOfLine(t);
    RelaxedSplit(p, t);
  }

  lemma BlankLinePrefix(p: string, rest: string)
    requires p == [] || EndsCrlf(p)
    ensures RelaxedForm(p) <= RelaxedForm(p + rest)
  {
    RelaxedSplit(p, rest);
    var a := RelaxedLines(Lines(p));
    JoinOfPrefix(DropEmptyTail(a), a);
  }

  lemma RelaxedOpen(p: string, t: string)
    requires (p == [] || EndsCrlf(p)) && CrlfFree(t) && !Blank(t)
    ensures RelaxedForm(p + t) == JoinLines(RelaxedLines(Lines(p))) + (RelaxedLine(t) + CRLF)
  {
    BlankCollapses(t);
    RelaxedOfLine(t);
    RelaxedSplit(p, t);
  }

  // Text in the last line runs on into whatever is appended.
  lemma OpenLineChanges(body: string)
    requires !BlankLastLine(body)
    ensures !(RelaxedForm(body) <= RelaxedForm(body + "x"))
  {
    var n := LineStart(body);
    var p, t := body[..n], body[n..];
    assert body == p + t && body + "x" == p + (t + "x");
    LastLineCrlfFree(body);
    RelaxedOpen(p, t);
    StillOpen(t);
    RelaxedOpen(p, t + "x");
    OpenLineGrows(t);
    NotPrefix(JoinLines(RelaxedLines(Lines(p))), RelaxedLine(t), Collapse(t, false));
  }

  lemma StillOpen(t: string)
    requires CrlfFree(t)
    ensures CrlfFree(t + "x") && !Blank(t + "x")
  {
    assert (t + "x")[|t|] == 'x';
    forall i ensures !CrlfAt(t + "x", i) {
      assert !CrlfAt(t, i);
    }
  }

  lemma OpenLineGrows(t: string)
    ensures RelaxedLine(t + "x") == Collapse(t, false) + "x"
    ensures RelaxedLine(t) <= Collapse(t, false)
    ensures forall i :: |RelaxedLine(t)| <= i < |Collapse(t, false)| ==> IsWsp(Collapse(t, false)[i])
  {
    CollapseAppend(t, 'x', false);
    StripRightAll(Collapse(t, false), IsWsp);
  }

  lemma NotPrefix(start: string, r: string, c: string)
    requires r <= c && forall i :: |r| <= i < |c| ==> IsWsp(c[i])
    ensures !(start + (r + CRLF) <= start + (c + "x" + CRLF))
  {
    var a, b := start + (r + CRLF), start + (c + "x" + CRLF);
    assert a[|start| + |r|] == '\r';
    assert b[|start| + |r|] == (c + "x")[|r|];
  }

  // Appending keeps the relaxed body as a prefix, whatever is appended, exactly when the last line is blank;
  // a CRLF-terminated body is one such.
  lemma RelaxedPrefixIff(body: string)
    ensures (forall x :: RelaxedForm(body) <= RelaxedForm(body + x)) <==> BlankLastLine(body)
  {
    if BlankLastLine(body) {
      forall x ensures RelaxedForm(body) <= RelaxedForm(body + x) {
        BlankTailPrefix(body, x);
      }
    } else {
      OpenLineChanges(body);
    }
  }

  lemma SimplePrefixMeansCrlf(body: string)
    requires SimpleForm(body) <= SimpleForm(body + "x")
    ensures SimpleForm(body) <= body
  {
    StripRightConcat(body, "x", IsCrOrLf);
    assert Core("x") == "x";
    var n, next := |Core(body)|, body + "x" + CRLF;
    assert SimpleForm(body + "x") == next;
    assert SimpleForm(body)[n] == next[n] && SimpleForm(body)[n + 1] == next[n + 1];
    assert n + 1 < |body|;
    assert SimpleForm(body) == next[..n + 2] == body[..n + 2];
  }

  // Appending keeps the simple body as a prefix exactly when the CRs and LFs at its end begin with a CRLF.
  lemma SimplePrefixIff(body: string)
    ensures (forall x :: SimpleForm(body) <= SimpleForm(body + x)) <==> SimpleForm(body) <= body
  {
    if SimpleForm(body) <= body {
      forall x ensures SimpleForm(body) <= SimpleForm(body + x) {
        StripRightConcat(body, x, IsCrOrLf);
      }
    } else if forall x :: SimpleForm(body) <= SimpleForm(body + x) {
      SimplePrefixMeansCrlf(body);
    }
  }

  // ---- What the canonical bodies are ----

  // The words of a line with one space between them, and one in front if the line starts with white space.
  function WordLine(line: string): string {
    (if line != "" && IsWsp(line[0]) && Tight(line) != "" then " " else "") + Tight(line)
  }

  lemma RelaxedLineIsWords(line: string)
    ensures RelaxedLine(line) == WordLine(line)
  {
    if line != "" && IsWsp(line[0]) {
      TightStep(line);
      CollapseTail(line[1..]);
      StripAfter(' ', Collapse(line[1..], true));
    } else {
      CollapseTail(line);
    }
  }

  function WordLines(lines: seq<string>): (r: seq<string>)
    ensures |r| == |lines| && forall i :: 0 <= i < |r| ==> r[i] == WordLine(lines[i])
  {
    seq(|lines|, i requires 0 <= i < |lines| => WordLine(lines[i]))
  }

  // The lines from n on hold no word, and the line before them does.
  predicate LastWordAt(lines: seq<string>, n: nat) {
    && n <= |lines| && (n > 0 ==> Tight(lines[n - 1]) != "")
    && forall i :: n <= i < |lines| ==> Tight(lines[i]) == ""
  }

  lemma {:induction false} EmptyTailIsDropped(lines: seq<string>)
    ensures forall i :: |DropEmptyTail(lines)| <= i < |lines| ==> lines[i] == ""
  {
    if lines != [] && lines[|lines| - 1] == "" {
      EmptyTailIsDropped(lines[..|lines| - 1]);
      InitLast(lines);
    }
  }

  // The relaxed form is the lines of the body up to the last one with a word in it, each written as its words.
  lemma RelaxedFormIsWords(body: string, n: nat)
    requires LastWordAt(Lines(body), n)
    ensures RelaxedForm(body) == JoinLines(WordLines(Lines(body)[..n]))
  {
    var lines := RelaxedLines(Lines(body));
    forall i | 0 <= i < |lines| ensures lines[i] == WordLine(Lines(body)[i]) {
      RelaxedLineIsWords(Lines(body)[i]);
    }
    EmptyTailIsDropped(lines);
    var kept := DropEmptyTail(lines);
    assert |kept| == n;
    assert kept == WordLines(Lines(body)[..n]);
  }

  // There is one such place.
  lemma {:induction false} LastWordExists(lines: seq<string>)
    ensures exists n: nat :: LastWordAt(lines, n)
  {
    if lines == [] || Tight(lines[|lines| - 1]) != "" {
      assert LastWordAt(lines, |lines|);
    } else {
      LastWordExists(lines[..|lines| - 1]);
      var n: nat :| LastWordAt(lines[..|lines| - 1], n);
      assert LastWordAt(lines, n);
    }
  }

  // The simple form is the body without the CRs and LFs at its end, and one CRLF.
  lemma SimpleFormIs(body: string, core: string, tail: string)
    requires body == core + tail && (core != "" ==> !IsCrOrLf(core[|core| - 1]))
    requires forall i :: 0 <= i < |tail| ==> IsCrOrLf(tail[i])
    ensures SimpleForm(body) == core + CRLF
  {
    StripRightConcat(core, tail, IsCrOrLf);
    StripRightAll(tail, IsCrOrLf);
  }
}
