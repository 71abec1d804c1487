/**
 The transparency of DATA (section 4.5.2 of RFC 5321): how the message is put on the wire, and that a
 receiver takes exactly the message off it.
 */
module DotStuffing {
  import opened DkimBodyCanon
  import opened DkimCanon
  import opened Text

  const END_OF_DATA: string := "\r\n.\r\n"

  // Doubles the dot at the start of each CRLF-terminated line.
  function Stuffed(s: string, atLineStart: bool): string {
    if s == [] then []
    else if atLineStart && s[0] == '.' then ".." + Stuffed(s[1..], false)
    else if CrlfAt(s, 0) then CRLF + Stuffed(s[2..], true)
    else [s[0]] + Stuffed(s[1..], false)
  }

  method DotStuff(body: string) returns (out: string)
    ensures out == Stuffed(body, true)
  {
    out := [];
    var start, i, atLineStart := 0, 0, true;
    while i < |body|
      invariant 0 <= start <= i <= |body|
      invariant out + body[start..i] + Stuffed(body[i..], atLineStart) == Stuffed(body, true)
    {
      if atLineStart && body[i] == '.' {
        DotStep(out, body, start, i);
        out := out + body[start..i] + ['.'];
        start := i;
        atLineStart := false;
        i := i + 1;
      } else if body[i] == '\r' && i + 1 < |body| && body[i + 1] == '\n' {
        PairStep(out, body, start, i, atLineStart);
        atLineStart := true;
        i := i + 2;
      } else {
        OctetStep(out, body, start, i, atLineStart);
        atLineStart := false;
        i := i + 1;
      }
    }
    assert body[i..] == [];
    out := out + body[start..];
  }

  lemma DotStep(out: string, body: string, start: nat, i: nat)
    requires start <= i < |body| && body[i] == '.'
    ensures out + body[start..i] + Stuffed(body[i..], true)
            == out + body[start..i] + ['.'] + body[i..i + 1] + Stuffed(body[i + 1..], false)
  {
    assert body[i..][1..] == body[i + 1..];
    assert body[i..i + 1] == ".";
    assert Stuffed(body[i..], true) == "." + "." + Stuffed(body[i + 1..], false);
  }

  lemma PairStep(out: string, body: string, start: nat, i: nat, atLineStart: bool)
    requires start <= i < |body| - 1 && body[i] == '\r' && body[i + 1] == '\n'
    ensures out + body[start..i] + Stuffed(body[i..], atLineStart)
            == out + body[start..i + 2] + Stuffed(body[i + 2..], true)
  {
    assert CrlfAt(body[i..], 0) && body[i..][2..] == body[i + 2..];
    assert body[start..i + 2] == body[start..i] + CRLF;
    assert Stuffed(body[i..], atLineStart) == CRLF + Stuffed(body[i + 2..], true);
  }

  lemma OctetStep(out: string, body: string, start: nat, i: nat, atLineStart: bool)
    requires start <= i < |body| && !(atLineStart && body[i] == '.') && !CrlfAt(body, i)
    ensures out + body[start..i] + Stuffed(body[i..], atLineStart)
            == out + body[start..i + 1] + Stuffed(body[i + 1..], false)
  {
    assert !CrlfAt(body[i..], 0) && body[i..][1..] == body[i + 1..];
    assert body[start..i + 1] == body[start..i] + [body[i]];
    assert Stuffed(body[i..], atLineStart) == [body[i]] + Stuffed(body[i + 1..], false);
  }

  // What goes on the wire between 354 and the final reply.
  function Transmitted(data: string): string {
    var body := Stuffed(data, true);
    body + if EndsCrlf(body) then ".\r\n" else END_OF_DATA
  }

  method TransmitData(data: string) returns (sent: string)
    ensures sent == Transmitted(data)
  {
    var body := DotStuff(data);
    sent := body;
    if |body| >= 2 && body[|body| - 2] == '\r' && body[|body| - 1] == '\n' {
      sent := sent + ".\r\n";
    } else {
      sent := sent + END_OF_DATA;
    }
  }

  // ---- The receiver ----

  // Drops the dot at the start of each line.
  function Unstuffed(s: string, atLineStart: bool): string {
    if s == [] then []
    else if atLineStart && s[0] == '.' then Unstuffed(s[1..], false)
    else if CrlfAt(s, 0) then CRLF + Unstuffed(s[2..], true)
    else [s[0]] + Unstuffed(s[1..], false)
  }

  lemma {:induction false} UnstuffUndoesStuff(s: string, atLineStart: bool)
    ensures Unstuffed(Stuffed(s, atLineStart), atLineStart) == s
    ensures s != [] && !(atLineStart && s[0] == '.')
            ==> Stuffed(s, atLineStart) != [] && Stuffed(s, atLineStart)[0] == s[0]
    ensures s == [] ==> Stuffed(s, atLineStart) == []
    decreases |s|
  {
    if s != [] {
      var o := Stuffed(s, atLineStart);
      if atLineStart && s[0] == '.' {
        var rest := Stuffed(s[1..], false);
        UnstuffUndoesStuff(s[1..], false);
        DotThenRest(rest);
      } else if CrlfAt(s, 0) {
        UnstuffUndoesStuff(s[2..], true);
        assert CrlfAt(o, 0) && o[2..] == Stuffed(s[2..], true);
        assert s == CRLF + s[2..];
      } else {
        UnstuffUndoesStuff(s[1..], false);
        assert o[1..] == Stuffed(s[1..], false);
        assert !CrlfAt(o, 0);
        assert s == [s[0]] + s[1..];
      }
    }
  }

  lemma DotThenRest(rest: string)
    ensures Unstuffed(".." + rest, true) == "." + Unstuffed(rest, false)
  {
    var o := ".." + rest;
    assert o[1..] == "." + rest;
    assert (("." + rest)[1..]) == rest;
    assert !CrlfAt("." + rest, 0);
  }

  // A dot that opens a line of the stuffed text is followed by another dot.
  ghost predicate DotsDoubled(o: string, atLineStart: bool) {
    && (atLineStart && o != [] && o[0] == '.' ==> |o| > 1 && o[1] == '.')
    && forall i :: CrlfAt(o, i) && i + 2 < |o| && o[i + 2] == '.' ==> i + 3 < |o| && o[i + 3] == '.'
  }

  lemma {:induction false} StuffedIsDoubled(s: string, atLineStart: bool)
    ensures DotsDoubled(Stuffed(s, atLineStart), atLineStart)
    decreases |s|
  {
    if s != [] {
      var o := Stuffed(s, atLineStart);
      if atLineStart && s[0] == '.' {
        StuffedIsDoubled(s[1..], false);
        DoubledBehind(".", "." + Stuffed(s[1..], false), Stuffed(s[1..], false));
      } else if CrlfAt(s, 0) {
        StuffedIsDoubled(s[2..], true);
        DoubledAfterCrlf(Stuffed(s[2..], true));
      } else {
        StuffedIsDoubled(s[1..], false);
        UnstuffUndoesStuff(s[1..], false);
        DoubledAfterChar(s[0], Stuffed(s[1..], false), atLineStart);
      }
    }
  }

  lemma DoubledBehind(a: string, b: string, rest: string)
    requires a == "." && b == "." + rest && DotsDoubled(rest, false)
    ensures DotsDoubled(".." + rest, true)
  {
    var o := ".." + rest;
    forall i | CrlfAt(o, i) && i + 2 < |o| && o[i + 2] == '.' ensures i + 3 < |o| && o[i + 3] == '.' {
      assert CrlfAt(rest, i - 2);
    }
  }

  lemma DoubledAfterCrlf(rest: string)
    requires DotsDoubled(rest, true)
    ensures forall flag :: DotsDoubled(CRLF + rest, flag)
  {
    var o := CRLF + rest;
    forall i | CrlfAt(o, i) && i + 2 < |o| && o[i + 2] == '.' ensures i + 3 < |o| && o[i + 3] == '.' {
      if i >= 2 {
        assert CrlfAt(rest, i - 2);
      }
    }
  }

  lemma DoubledAfterChar(c: char, rest: string, atLineStart: bool)
    requires DotsDoubled(rest, false) && !(atLineStart && c == '.')
    requires !(c == '\r' && rest != [] && rest[0] == '\n')
    ensures DotsDoubled([c] + rest, atLineStart)
  {
    var o := [c] + rest;
    forall i | CrlfAt(o, i) && i + 2 < |o| && o[i + 2] == '.' ensures i + 3 < |o| && o[i + 3] == '.' {
      assert i >= 1;
      assert CrlfAt(rest, i - 1);
    }
  }

  predicate EndAt(s: string, i: int) {
    0 <= i && i + 5 <= |s| && s[i..i + 5] == END_OF_DATA
  }

  // Where the receiver, which starts at the beginning of a line, sees the end of the data: nowhere but at
  // the very end of what was sent.
  lemma EndSeenOnce(data: string, i: nat)
    requires EndAt(CRLF + Transmitted(data), i)
    ensures i + 5 == |CRLF + Transmitted(data)|
  {
    var o := Stuffed(data, true);
    var seen := CRLF + Transmitted(data);
    StuffedIsDoubled(data, true);
    DoubledAfterCrlf(o);
    assert seen[i] == '\r' && seen[i + 1] == '\n' && seen[i + 2] == '.' && seen[i + 3] == '\r' by {
      assert seen[i..i + 5][0] == '\r' && seen[i..i + 5][1] == '\n' && seen[i..i + 5][2] == '.'
             && seen[i..i + 5][3] == '\r';
    }
    var inner := CRLF + o;
    assert forall k :: 0 <= k < |inner| ==> seen[k] == inner[k];
    assert DotsDoubled(inner, true);
    assert i + 1 < |inner| ==> CrlfAt(inner, i);
  }

  lemma EndSeenAtEnd(data: string)
    ensures EndAt(CRLF + Transmitted(data), |CRLF + Transmitted(data)| - 5)
  {
    var o := Stuffed(data, true);
    var seen := CRLF + Transmitted(data);
    if EndsCrlf(o) {
      assert o == o[..|o| - 2] + CRLF;
      assert seen == CRLF + o[..|o| - 2] + END_OF_DATA;
    } else {
      assert seen == CRLF + o + END_OF_DATA;
    }
  }

  // The message as the receiver takes it: everything up to the dot that ends it, dots undone.
  function Received(sent: string): string
    requires |sent| >= 3
  {
    Unstuffed(sent[..|sent| - 3], true)
  }

  lemma {:induction false} StuffFinalCrlf(s: string, atLineStart: bool)
    ensures Stuffed(s + CRLF, atLineStart) == Stuffed(s, atLineStart) + CRLF
    decreases |s|
  {
    var t := s + CRLF;
    if s == [] {
      assert t == CRLF && CrlfAt(CRLF, 0) && CRLF[2..] == [];
    } else if atLineStart && s[0] == '.' {
      StuffFinalCrlf(s[1..], false);
      assert t[1..] == s[1..] + CRLF;
      Regroup("..", Stuffed(s[1..], false), CRLF);
    } else if CrlfAt(s, 0) {
      StuffFinalCrlf(s[2..], true);
      assert CrlfAt(t, 0) && t[2..] == s[2..] + CRLF;
      Regroup(CRLF, Stuffed(s[2..], true), CRLF);
    } else {
      StuffFinalCrlf(s[1..], false);
      assert !CrlfAt(t, 0) && t[1..] == s[1..] + CRLF;
      Regroup([s[0]], Stuffed(s[1..], false), CRLF);
    }
  }

  lemma {:induction false} StuffKeepsEnd(s: string, atLineStart: bool)
    ensures EndsCrlf(Stuffed(s, atLineStart)) <==> EndsCrlf(s)
    decreases |s|
  {
    if s != [] {
      var o := Stuffed(s, atLineStart);
      var k := if CrlfAt(s, 0) && !(atLineStart && s[0] == '.') then 2 else 1;
      var rest := Stuffed(s[k..], k == 2);
      StuffKeepsEnd(s[k..], k == 2);
      UnstuffUndoesStuff(s[k..], k == 2);
      assert o == (if atLineStart && s[0] == '.' then ".." else s[..k]) + rest;
      assert |s[k..]| == 1 ==> |rest| <= 2;
      EndOfLonger(s[..k], s[k..]);
      EndOfLonger(if atLineStart && s[0] == '.' then ".." else s[..k], rest);
    }
  }

  // Where a text of two octets or more ends.
  lemma EndOfLonger(a: string, b: string)
    ensures |b| >= 2 ==> (EndsCrlf(a + b) <==> EndsCrlf(b))
    ensures b == [] ==> (EndsCrlf(a + b) <==> EndsCrlf(a))
  {
    assert b == [] ==> a + b == a;
  }

  // The receiver gets the message that was to be sent, with a final CRLF if it lacked one.
  lemma TransmissionIsTransparent(data: string)
    ensures |Transmitted(data)| >= 3
    ensures Received(Transmitted(data)) == if EndsCrlf(data) then data else data + CRLF
  {
    var o := Stuffed(data, true);
    StuffKeepsEnd(data, true);
    UnstuffUndoesStuff(data, true);
    if EndsCrlf(data) {
      assert Transmitted(data)[..|Transmitted(data)| - 3] == o;
    } else {
      assert Transmitted(data)[..|Transmitted(data)| - 3] == o + CRLF;
      StuffFinalCrlf(data, true);
      UnstuffUndoesStuff(data + CRLF, true);
    }
  }
}
