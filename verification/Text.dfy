/**
 Octet strings and the few JavaScript string operations the engine is built from.

 A Buffer and a latin1 JavaScript string are both modelled by `string`, one character an octet.
 */
module Text {

  datatype Option<+T> = None | Some(value: T)

  const CRLF: string := "\r\n"

  // SP and HTAB, the only octets RFC 5322 calls WSP.
  predicate IsWsp(c: char) {
    c == ' ' || c == '\t'
  }

  // What `trim` and `\s` take for white space among the octets.
  predicate IsSpace(c: char) {
    c == ' ' || '\t' <= c <= '\r' || c == '\U{A0}'
  }

  predicate IsCrOrLf(c: char) {
    c == '\r' || c == '\n'
  }

  predicate IsDigit(c: char) {
    '0' <= c <= '9'
  }

  predicate IsLetter(c: char) {
    'A' <= c <= 'Z' || 'a' <= c <= 'z'
  }

  // `toLowerCase` on one octet.
  function LowerChar(c: char): char {
    if 'A' <= c <= 'Z' || ('\U{C0}' <= c <= '\U{DE}' && c != '\U{D7}')
    then (c as int + 32) as char
    else c
  }

  // Lower-cases A-Z only and leaves every other octet alone.
  function LowerAsciiChar(c: char): char {
    if 'A' <= c <= 'Z' then (c as int + 32) as char else c
  }

  function Map(f: char -> char, s: string): (r: string)
    ensures |r| == |s|
    ensures forall i :: 0 <= i < |s| ==> r[i] == f(s[i])
  {
    seq(|s|, i requires 0 <= i < |s| => f(s[i]))
  }

  function Lower(s: string): string {
    Map(LowerChar, s)
  }

  function UpperChar(c: char): char {
    if 'a' <= c <= 'z' then (c as int - 32) as char else c
  }

  // Capital letters and small ones are the same in lower case; nothing else below U+0080 changes.
  lemma CaseIsForgotten(s: string)
    ensures Lower(Map(UpperChar, s)) == Lower(s)
    ensures forall i :: 0 <= i < |s| ==> !('A' <= Lower(s)[i] <= 'Z')
    ensures forall i :: 0 <= i < |s| && s[i] < '\U{80}' && !IsLetter(s[i]) ==> Lower(s)[i] == s[i]
  {
    var upper := Map(UpperChar, s);
    assert forall i :: 0 <= i < |s| ==> Lower(upper)[i] == LowerChar(upper[i]) == LowerChar(s[i]);
  }

  lemma LowerTwice(s: string)
    ensures Lower(Lower(s)) == Lower(s)
  {
  }

  lemma LowerConcat(a: string, b: string)
    ensures Lower(a + b) == Lower(a) + Lower(b)
  {
  }

  // ---- Stripping from the edges ----

  function StripLeft(s: string, p: char -> bool): string {
    if s != [] && p(s[0]) then StripLeft(s[1..], p) else s
  }

  function StripRight(s: string, p: char -> bool): (r: string)
    ensures r <= s
    ensures r != [] ==> !p(r[|r| - 1])
  {
    if s != [] && p(s[|s| - 1]) then StripRight(s[..|s| - 1], p) else s
  }

  function Strip(s: string, p: char -> bool): string {
    StripRight(StripLeft(s, p), p)
  }

  function Trim(s: string): string {
    Strip(s, IsSpace)
  }

  // No character of the class at either edge: exactly the strings that stripping leaves alone.
  predicate Bare(s: string, p: char -> bool) {
    s == [] || (!p(s[0]) && !p(s[|s| - 1]))
  }

  lemma {:induction false} StripLeftSuffix(s: string, p: char -> bool)
    ensures |StripLeft(s, p)| <= |s|
    ensures StripLeft(s, p) == s[|s| - |StripLeft(s, p)|..]
    ensures StripLeft(s, p) != [] ==> !p(StripLeft(s, p)[0])
  {
    if s != [] && p(s[0]) {
      StripLeftSuffix(s[1..], p);
    }
  }

  lemma StripIsBare(s: string, p: char -> bool)
    ensures Bare(Strip(s, p), p)
    ensures Bare(s, p) ==> Strip(s, p) == s
  {
    StripLeftSuffix(s, p);
  }

  // t is what is left of s without white space at its edges.
  predicate Trims(s: string, t: string) {
    Bare(t, IsSpace) && exists i, j :: 0 <= i <= j <= |s| && Middle(s, t, i, j)
  }

  predicate Middle(s: string, t: string, i: nat, j: nat)
    requires i <= j <= |s|
  {
    s[i..j] == t && (forall k :: 0 <= k < i ==> IsSpace(s[k])) && forall k :: j <= k < |s| ==> IsSpace(s[k])
  }

  lemma {:induction false} StripLeftAll(s: string, p: char -> bool)
    ensures |StripLeft(s, p)| <= |s| && forall k :: 0 <= k < |s| - |StripLeft(s, p)| ==> p(s[k])
  {
    if s != [] && p(s[0]) {
      StripLeftAll(s[1..], p);
      assert forall k :: 0 < k < |s| ==> s[k] == s[1..][k - 1];
    }
  }

  lemma TrimIsMiddle(s: string)
    ensures Trims(s, Trim(s))
  {
    var left := StripLeft(s, IsSpace);
    var i := |s| - |left|;
    StripLeftAll(s, IsSpace);
    StripLeftSuffix(s, IsSpace);
    StripIsBare(s, IsSpace);
    RightEnd(s, left, i);
    assert Middle(s, Trim(s), i, i + |Trim(s)|);
  }

  lemma RightEnd(s: string, left: string, i: nat)
    requires i <= |s| && left == s[i..]
    ensures forall k :: i + |StripRight(left, IsSpace)| <= k < |s| ==> IsSpace(s[k])
    ensures i + |StripRight(left, IsSpace)| <= |s|
    ensures s[i..i + |StripRight(left, IsSpace)|] == StripRight(left, IsSpace)
  {
    StripRightAll(left, IsSpace);
    assert forall k :: i <= k < |s| ==> s[k] == left[k - i];
  }

  lemma StripRightTwice(s: string, p: char -> bool)
    ensures StripRight(StripRight(s, p), p) == StripRight(s, p)
  {
  }

  lemma {:induction false} StripRightConcat(a: string, b: string, p: char -> bool)
    ensures StripRight(a + b, p) == if StripRight(b, p) == [] then StripRight(a, p) else a + StripRight(b, p)
    decreases |b|
  {
    if b == [] {
      assert a + b == a;
    } else {
      assert (a + b)[|a + b| - 1] == b[|b| - 1];
      assert (a + b)[..|a + b| - 1] == a + b[..|b| - 1];
      if p(b[|b| - 1]) {
        StripRightConcat(a, b[..|b| - 1], p);
      }
    }
  }

  lemma {:induction false} StripRightAll(s: string, p: char -> bool)
    ensures StripRight(s, p) == [] <==> forall i :: 0 <= i < |s| ==> p(s[i])
    ensures forall i :: |StripRight(s, p)| <= i < |s| ==> p(s[i])
  {
    if s != [] && p(s[|s| - 1]) {
      StripRightAll(s[..|s| - 1], p);
      assert s == s[..|s| - 1] + [s[|s| - 1]];
    }
  }

  // White space only.
  predicate Blank(s: string) {
    forall i :: 0 <= i < |s| ==> IsSpace(s[i])
  }

  lemma {:induction false} StripBlank(before: string, s: string)
    requires Blank(before)
    ensures StripLeft(before + s, IsSpace) == StripLeft(s, IsSpace)
  {
    if before == "" {
      assert before + s == s;
    } else {
      assert (before + s)[1..] == before[1..] + s;
      StripBlank(before[1..], s);
    }
  }

  // White space around a text that has none at its edges is what trimming drops.
  lemma TrimPadded(before: string, core: string, after: string)
    requires Blank(before) && Blank(after) && core != "" && Bare(core, IsSpace)
    ensures Trim(before + core + after) == core
  {
    StripBlank(before, core + after);
    Regroup(before, core, after);
    assert StripLeft(core + after, IsSpace) == core + after;
    StripRightConcat(core, after, IsSpace);
    StripRightAll(after, IsSpace);
  }

  // ---- Searching ----

  // `indexOf(c, from)`, with -1 for "not there".
  function Find(s: string, c: char, from: nat): (k: int)
    ensures k == -1 || from <= k < |s|
    ensures k != -1 ==> s[k] == c && forall i :: from <= i < k ==> s[i] != c
    ensures k == -1 ==> forall i :: from <= i < |s| ==> s[i] != c
    decreases |s| - from
  {
    if from >= |s| then -1 else if s[from] == c then from else Find(s, c, from + 1)
  }

  function IndexOf(s: string, c: char): (k: int)
    ensures -1 <= k < |s|
    ensures k != -1 ==> s[k] == c && forall i :: 0 <= i < k ==> s[i] != c
    ensures k == -1 <==> c !in s
  {
    Find(s, c, 0)
  }

  // `lastIndexOf(c)`, with -1 for "not there".
  function LastIndexOf(s: string, c: char): (k: int)
    ensures -1 <= k < |s|
    ensures k != -1 ==> s[k] == c && c !in s[k + 1..]
    ensures k == -1 <==> c !in s
  {
    if s == [] then -1
    else if s[|s| - 1] == c then |s| - 1
    else
      assert s == s[..|s| - 1] + [s[|s| - 1]];
      LastIndexOf(s[..|s| - 1], c)
  }

  lemma Regroup<T>(a: seq<T>, b: seq<T>, c: seq<T>)
    ensures a + (b + c) == (a + b) + c
  {
  }

  lemma InitLast<T>(s: seq<T>)
    requires s != []
    ensures s == s[..|s| - 1] + [s[|s| - 1]]
  {
  }

  // ---- Splitting and joining ----

  function Split(s: string, c: char): (r: seq<string>)
    ensures |r| > 0
    ensures forall i :: 0 <= i < |r| ==> c !in r[i]
  {
    if s == [] then [[]]
    else
      var rest := Split(s[1..], c);
      if s[0] == c then [[]] + rest else [[s[0]] + rest[0]] + rest[1..]
  }

  function Join(parts: seq<string>, sep: string): string {
    if parts == [] then []
    else if |parts| == 1 then parts[0]
    else parts[0] + sep + Join(parts[1..], sep)
  }

  lemma {:induction false} JoinSnoc(parts: seq<string>, last: string, sep: string)
    requires parts != []
    ensures Join(parts + [last], sep) == Join(parts, sep) + sep + last
  {
    if |parts| == 1 {
      assert (parts + [last])[1..] == [last];
    } else {
      JoinSnoc(parts[1..], last, sep);
      assert (parts + [last])[1..] == parts[1..] + [last];
    }
  }

  lemma {:induction false} JoinSplit(s: string, c: char)
    ensures Join(Split(s, c), [c]) == s
  {
    if s != [] {
      JoinSplit(s[1..], c);
      var rest := Split(s[1..], c);
      var r := Split(s, c);
      if s[0] == c {
        assert r[1..] == rest;
      } else {
        assert r[1..] == rest[1..];
        assert r[0] == [s[0]] + rest[0];
      }
    }
  }

  lemma {:induction false} SplitJoin(parts: seq<string>, c: char)
    requires parts != []
    requires forall i :: 0 <= i < |parts| ==> c !in parts[i]
    ensures Split(Join(parts, [c]), c) == parts
    decreases |parts|, |parts[0]|
  {
    var s := Join(parts, [c]);
    if parts[0] == [] {
      if |parts| > 1 {
        SplitJoin(parts[1..], c);
        assert s[1..] == Join(parts[1..], [c]);
      } else {
        assert parts == [[]];
      }
    } else {
      var shorter := [parts[0][1..]] + parts[1..];
      assert shorter[1..] == parts[1..];
      assert s[0] == parts[0][0];
      assert s[1..] == Join(shorter, [c]);
      SplitJoin(shorter, c);
      assert [s[0]] + shorter[0] == parts[0];
      assert [[s[0]] + shorter[0]] + shorter[1..] == parts;
    }
  }

  // Appending text to the last piece.
  function ToLast(parts: seq<string>, b: string): seq<string>
    requires parts != []
  {
    parts[..|parts| - 1] + [parts[|parts| - 1] + b]
  }

  // Appending text without the separator lengthens the last piece.
  lemma {:induction false} SplitAppend(a: string, b: string, c: char)
    requires c !in b
    ensures Split(a + b, c) == ToLast(Split(a, c), b)
  {
    if a == [] {
      assert a + b == b;
      SplitJoin([b], c);
      assert Split(b, c) == [b];
    } else {
      assert (a + b)[1..] == a[1..] + b;
      SplitAppend(a[1..], b, c);
      if a[0] == c {
        ToLastBehind(Split(a[1..], c), b);
      } else {
        ToLastGrows(Split(a[1..], c), a[0], b);
      }
    }
  }

  lemma ToLastBehind(parts: seq<string>, b: string)
    requires parts != []
    ensures ToLast([[]] + parts, b) == [[]] + ToLast(parts, b)
  {
  }

  lemma ToLastGrows(parts: seq<string>, x: char, b: string)
    requires parts != []
    ensures ToLast([[x] + parts[0]] + parts[1..], b) == [[x] + ToLast(parts, b)[0]] + ToLast(parts, b)[1..]
  {
    if |parts| == 1 {
      assert [x] + (parts[0] + b) == [x] + parts[0] + b;
    }
  }

  // The maximal runs of characters outside a class, in order.
  function Words(s: string, p: char -> bool): (r: seq<string>)
    ensures s != [] && !p(s[0]) ==> r != []
    ensures forall i :: 0 <= i < |r| ==> IsWord(r[i], p)
  {
    if s == [] then []
    else if p(s[0]) then Words(s[1..], p)
    else if |s| == 1 || p(s[1]) then [[s[0]]] + Words(s[1..], p)
    else
      var rest := Words(s[1..], p);
      [[s[0]] + rest[0]] + rest[1..]
  }

  predicate IsWord(w: string, p: char -> bool) {
    w != [] && forall i :: 0 <= i < |w| ==> !p(w[i])
  }

  // Writing words with one separator between them and reading them back changes nothing.
  lemma {:induction false} WordsJoin(ws: seq<string>, p: char -> bool, sep: char)
    requires p(sep)
    requires forall i :: 0 <= i < |ws| ==> IsWord(ws[i], p)
    ensures Words(Join(ws, [sep]), p) == ws
    decreases |ws|, if ws == [] then 0 else |ws[0]|
  {
    if ws != [] {
      var s := Join(ws, [sep]);
      var w := ws[0];
      assert !p(w[0]) && s[0] == w[0];
      if |w| == 1 {
        if |ws| > 1 {
          WordsJoin(ws[1..], p, sep);
          assert s[1..][0] == sep;
          assert s[1..][1..] == Join(ws[1..], [sep]);
          assert Words(s[1..], p) == ws[1..];
        }
        assert w == [s[0]];
        assert ws == [[s[0]]] + ws[1..];
      } else {
        var shorter := [w[1..]] + ws[1..];
        assert shorter[1..] == ws[1..];
        assert s[1..] == Join(shorter, [sep]);
        assert w[1] == s[1] && !p(w[1]);
        WordsJoin(shorter, p, sep);
        assert [s[0]] + shorter[0] == w;
        assert [[s[0]] + shorter[0]] + shorter[1..] == ws;
      }
    }
  }
}
