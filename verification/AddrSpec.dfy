/**
 The strict addr-spec parser: dot-atom or quoted-string local-parts, hostname or address-literal domains
 (section 3.4.1 of RFC 5322 without its obsolete forms, lengths from section 4.5.3.1 of RFC 5321).
 */
module AddrSpec {
  import opened Text

  datatype Address = Address(localPart: string, domain: string)

  const MAX_LOCAL: nat := 64
  const MAX_DOMAIN: nat := 255

  predicate IsAtext(c: char) {
    IsLetter(c) || IsDigit(c) || c in "!#$%&'*+-/=?^_`{|}~"
  }

  predicate IsLdh(c: char) {
    IsLetter(c) || IsDigit(c) || c == '-'
  }

  predicate IsPrintable(c: char) {
    ' ' <= c <= '~'
  }

  predicate IsQtext(c: char) {
    c >= ' ' && c != '\U{7F}' && c != '"' && c != '\\'
  }

  // ---- The grammar ----

  predicate IsAtom(s: string) {
    s != "" && forall i :: 0 <= i < |s| ==> IsAtext(s[i])
  }

  predicate IsLabel(s: string) {
    s != "" && s[0] != '-' && s[|s| - 1] != '-' && forall i :: 0 <= i < |s| ==> IsLdh(s[i])
  }

  // Atoms with single dots between them.
  predicate DotAtom(s: string) {
    forall piece :: piece in Split(s, '.') ==> IsAtom(piece)
  }

  // qtext and quoted-pairs.
  predicate QuotedContent(s: string) {
    if s == [] then true
    else if s[0] == '\\' then |s| > 1 && IsPrintable(s[1]) && QuotedContent(s[2..])
    else IsQtext(s[0]) && QuotedContent(s[1..])
  }

  predicate QuotedLocal(s: string) {
    |s| >= 2 && s[0] == '"' && s[|s| - 1] == '"' && QuotedContent(s[1..|s| - 1])
  }

  predicate HostName(s: string) {
    forall piece :: piece in Split(s, '.') ==> IsLabel(piece)
  }

  predicate AddressLiteral(s: string) {
    |s| >= 2 && s[0] == '[' && s[|s| - 1] == ']' && forall i :: 1 <= i < |s| - 1 ==> s[i] !in {'[', ']', '\\'}
  }

  // The pairs an addr-spec can be written from. Only behind a quoted local-part may the domain hold an "@".
  predicate Grammatical(a: Address) {
    && 1 <= |a.localPart| <= MAX_LOCAL && (QuotedLocal(a.localPart) || DotAtom(a.localPart))
    && 1 <= |a.domain| <= MAX_DOMAIN && (AddressLiteral(a.domain) || HostName(a.domain))
    && (DotAtom(a.localPart) ==> '@' !in a.domain)
  }

  function Printed(a: Address): string {
    a.localPart + "@" + a.domain
  }

  // ---- Dot-atoms ----

  // The scan from left to right, `prevDot` saying that a dot was just read.
  predicate AtomRun(s: string, prevDot: bool) {
    if s == [] then true
    else if s[0] == '.' then !prevDot && AtomRun(s[1..], true)
    else IsAtext(s[0]) && AtomRun(s[1..], false)
  }

  // The pieces of what is still to be read, the first of which may go on an atom already begun.
  ghost predicate GoodPieces(pieces: seq<string>, prevDot: bool)
    requires pieces != []
  {
    && (prevDot ==> pieces[0] != "")
    && (forall i :: 0 <= i < |pieces[0]| ==> IsAtext(pieces[0][i]))
    && (forall k :: 1 <= k < |pieces| ==> IsAtom(pieces[k]))
  }

  lemma {:induction false} AtomRunPieces(s: string, prevDot: bool)
    requires s != [] && s[|s| - 1] != '.'
    ensures AtomRun(s, prevDot) <==> GoodPieces(Split(s, '.'), prevDot)
  {
    var rest := s[1..];
    if rest == [] {
      assert s == [s[0]];
      assert Split(rest, '.') == [[]] && [s[0]] + [] == s && Split(rest, '.')[1..] == [];
      assert Split(s, '.') == [s];
      assert forall i :: 0 <= i < |s| ==> s[i] == s[0];
      assert AtomRun(s, prevDot) == IsAtext(s[0]);
    } else {
      AtomRunPieces(rest, s[0] == '.');
      if s[0] == '.' {
        PiecesBehindDot(Split(rest, '.'), prevDot);
      } else {
        PiecesGrow(Split(rest, '.'), s[0], prevDot);
      }
    }
  }

  lemma PiecesBehindDot(pieces: seq<string>, prevDot: bool)
    requires pieces != []
    ensures GoodPieces([[]] + pieces, prevDot) <==> !prevDot && GoodPieces(pieces, true)
  {
    var more := [[]] + pieces;
    assert forall k :: 1 <= k < |more| ==> more[k] == pieces[k - 1];
    assert forall k :: 1 <= k < |pieces| ==> pieces[k] == more[k + 1];
    assert more[1] == pieces[0];
  }

  lemma PiecesGrow(pieces: seq<string>, c: char, prevDot: bool)
    requires pieces != []
    ensures GoodPieces([[c] + pieces[0]] + pieces[1..], prevDot) <==> IsAtext(c) && GoodPieces(pieces, false)
  {
    var more := [[c] + pieces[0]] + pieces[1..];
    assert forall k :: 1 <= k < |more| ==> more[k] == pieces[k];
    assert more[0][0] == c && more[0][1..] == pieces[0];
    assert forall i :: 0 <= i < |pieces[0]| ==> pieces[0][i] == more[0][i + 1];
    assert forall i :: 1 <= i < |more[0]| ==> more[0][i] == pieces[0][i - 1];
  }

  lemma DotAtomRuns(s: string)
    requires s != [] && s[0] != '.' && s[|s| - 1] != '.'
    ensures AtomRun(s, false) <==> DotAtom(s)
  {
    AtomRunPieces(s, false);
    assert Split(s, '.')[0] != "";
    AtomPieces(Split(s, '.'));
  }

  lemma AtomPieces(pieces: seq<string>)
    requires pieces != [] && pieces[0] != ""
    ensures GoodPieces(pieces, false) <==> forall piece :: piece in pieces ==> IsAtom(piece)
  {
    if forall piece :: piece in pieces ==> IsAtom(piece) {
      assert forall k :: 0 <= k < |pieces| ==> IsAtom(pieces[k]);
    }
  }

  lemma {:induction false} LastPieceEmpty(s: string)
    requires s != [] && s[|s| - 1] == '.'
    ensures |Split(s, '.')| > 1 && Split(s, '.')[|Split(s, '.')| - 1] == ""
  {
    if |s| == 1 {
      assert s[1..] == [];
    } else {
      LastPieceEmpty(s[1..]);
    }
  }

  // No edge dots, no two dots in a row, atext elsewhere.
  method IsDotAtom(part: string) returns (ok: bool)
    ensures ok <==> DotAtom(part)
  {
    if |part| == 0 {
      assert "" in Split(part, '.');
      return false;
    }
    if part[0] == '.' || part[|part| - 1] == '.' {
      EdgeDots(part);
      return false;
    }
    var prevDot, i := false, 0;
    while i < |part|
      invariant 0 <= i <= |part|
      invariant AtomRun(part, false) == AtomRun(part[i..], prevDot)
    {
      assert part[i..][1..] == part[i + 1..];
      if part[i] == '.' {
        if prevDot {
          DotAtomRuns(part);
          return false;
        }
        prevDot := true;
      } else {
        if !IsAtext(part[i]) {
          DotAtomRuns(part);
          return false;
        }
        prevDot := false;
      }
      i := i + 1;
    }
    DotAtomRuns(part);
    ok := true;
  }

  lemma EdgeDots(s: string)
    requires s != [] && (s[0] == '.' || s[|s| - 1] == '.')
    ensures "" in Split(s, '.') && !DotAtom(s) && !HostName(s)
  {
    if s[0] == '.' {
      assert Split(s, '.')[0] == "";
    } else {
      LastPieceEmpty(s);
    }
  }

  // ---- Hostnames ----

  // Labels read so far, followed by the pieces of the rest: the first piece goes on the last label.
  ghost function Glue(labels: seq<string>, pieces: seq<string>): seq<string>
    requires labels != [] && pieces != []
  {
    labels[..|labels| - 1] + [labels[|labels| - 1] + pieces[0]] + pieces[1..]
  }

  lemma GlueDot(labels: seq<string>, pieces: seq<string>)
    requires labels != [] && pieces != []
    ensures Glue(labels + [[]], pieces) == Glue(labels, [[]] + pieces)
  {
    assert labels[|labels| - 1] + [] == labels[|labels| - 1];
    assert [] + pieces[0] == pieces[0];
    assert labels == labels[..|labels| - 1] + [labels[|labels| - 1]];
    assert ([[]] + pieces)[1..] == pieces && pieces == [pieces[0]] + pieces[1..];
    assert (labels + [[]])[..|labels|] == labels;
  }

  lemma GlueOctet(labels: seq<string>, pieces: seq<string>, c: char)
    requires labels != [] && pieces != []
    ensures Glue(labels[|labels| - 1 := labels[|labels| - 1] + [c]], pieces)
            == Glue(labels, [[c] + pieces[0]] + pieces[1..])
  {
    var last := labels[|labels| - 1];
    assert (last + [c]) + pieces[0] == last + ([c] + pieces[0]);
    assert ([[c] + pieces[0]] + pieces[1..])[1..] == pieces[1..];
    var grown := labels[|labels| - 1 := last + [c]];
    assert grown[..|labels| - 1] == labels[..|labels| - 1];
  }

  lemma GlueEnd(labels: seq<string>)
    requires labels != []
    ensures Glue(labels, [[]]) == labels
  {
    assert labels[|labels| - 1] + [] == labels[|labels| - 1];
    assert labels == labels[..|labels| - 1] + [labels[|labels| - 1]];
  }

  // The labels of a domain, grown in place.
  method Labels(domain: string) returns (labels: seq<string>)
    ensures labels == Split(domain, '.')
  {
    labels := [[]];
    var i := 0;
    assert [] + Split(domain, '.')[0] == Split(domain, '.')[0];
    while i < |domain|
      invariant 0 <= i <= |domain|
      invariant labels != []
      invariant Glue(labels, Split(domain[i..], '.')) == Split(domain, '.')
    {
      var b := domain[i];
      assert domain[i..][1..] == domain[i + 1..];
      if b == '.' {
        GlueDot(labels, Split(domain[i + 1..], '.'));
        labels := labels + [[]];
      } else {
        GlueOctet(labels, Split(domain[i + 1..], '.'), b);
        labels := labels[|labels| - 1 := labels[|labels| - 1] + [b]];
      }
      i := i + 1;
    }
    GlueEnd(labels);
  }

  method LabelOk(piece: string) returns (ok: bool)
    ensures ok <==> IsLabel(piece)
  {
    if |piece| == 0 || piece[0] == '-' || piece[|piece| - 1] == '-' {
      return false;
    }
    var i := 0;
    while i < |piece|
      invariant 0 <= i <= |piece|
      invariant forall k :: 0 <= k < i ==> IsLdh(piece[k])
    {
      if !IsLdh(piece[i]) {
        return false;
      }
      i := i + 1;
    }
    ok := true;
  }

  method IsHostName(domain: string) returns (ok: bool)
    ensures ok <==> HostName(domain)
  {
    if domain != "" && (domain[0] == '.' || domain[|domain| - 1] == '.') {
      EdgeDots(domain);
      return false;
    }
    var labels := Labels(domain);
    var k := 0;
    while k < |labels|
      invariant 0 <= k <= |labels|
      invariant forall j :: 0 <= j < k ==> IsLabel(labels[j])
    {
      var good := LabelOk(labels[k]);
      if !good {
        assert labels[k] in Split(domain, '.');
        return false;
      }
      k := k + 1;
    }
    ok := true;
  }

  // ---- Quoted local-parts ----

  // Octets before the closing quote, if what precedes it is well formed.
  function ScanQuoted(s: string): (n: Option<nat>)
    ensures n.Some? ==> n.value < |s| && s[n.value] == '"'
  {
    if s == [] then None
    else if s[0] == '\\' then
      if |s| > 1 && IsPrintable(s[1]) then Skip(ScanQuoted(s[2..]), 2) else None
    else if s[0] == '"' then Some(0)
    else if s[0] < ' ' || s[0] == '\U{7F}' then None
    else Skip(ScanQuoted(s[1..]), 1)
  }

  function Skip(n: Option<nat>, k: nat): Option<nat> {
    if n.None? then None else Some(n.value + k)
  }

  lemma {:induction false} ScannedIsContent(s: string)
    ensures ScanQuoted(s).Some? ==> QuotedContent(s[..ScanQuoted(s).value])
  {
    if s != [] && ScanQuoted(s).Some? {
      var n := ScanQuoted(s).value;
      if s[0] == '\\' {
        ScannedIsContent(s[2..]);
        assert s[..n][2..] == s[2..][..n - 2];
      } else if s[0] != '"' {
        ScannedIsContent(s[1..]);
        assert s[..n][1..] == s[1..][..n - 1];
      }
    }
  }

  lemma {:induction false} ContentIsScanned(content: string, rest: string)
    requires QuotedContent(content)
    ensures ScanQuoted(content + "\"" + rest) == Some(|content|)
  {
    var s := content + "\"" + rest;
    if content == [] {
      assert s[0] == '"';
    } else if content[0] == '\\' {
      ContentIsScanned(content[2..], rest);
      assert s[2..] == content[2..] + "\"" + rest;
    } else {
      ContentIsScanned(content[1..], rest);
      assert s[1..] == content[1..] + "\"" + rest;
    }
  }

  // The closing quote of a local-part that opens with one.
  lemma ScanStep(s: string, i: nat)
    requires i < |s|
    ensures Skip(ScanQuoted(s[i..]), i)
            == if s[i] == '\\' then
                 if i + 1 < |s| && IsPrintable(s[i + 1]) then Skip(ScanQuoted(s[i + 2..]), i + 2) else None
               else if s[i] == '"' then Some(i)
               else if s[i] < ' ' || s[i] == '\U{7F}' then None
               else Skip(ScanQuoted(s[i + 1..]), i + 1)
  {
    assert s[i..][1..] == s[i + 1..];
    if i + 1 < |s| {
      assert s[i..][2..] == s[i + 2..];
    }
  }

  method ClosingQuote(input: string) returns (closed: Option<nat>)
    requires input != [] && input[0] == '"'
    ensures closed == Skip(ScanQuoted(input[1..]), 1)
  {
    var i := 1;
    while i < |input|
      invariant 1 <= i <= |input|
      invariant Skip(ScanQuoted(input[1..]), 1) == Skip(ScanQuoted(input[i..]), i)
    {
      var c := input[i];
      ScanStep(input, i);
      if c == '\\' {
        if i + 1 >= |input| || !IsPrintable(input[i + 1]) {
          return None;
        }
        i := i + 1;
      } else if c == '"' {
        return Some(i);
      } else if c < ' ' || c == '\U{7F}' {
        return None;
      }
      i := i + 1;
    }
    closed := None;
  }

  // ---- The parser ----

  lemma {:induction false} RunOctets(s: string, prevDot: bool)
    requires AtomRun(s, prevDot)
    ensures forall i :: 0 <= i < |s| ==> s[i] == '.' || IsAtext(s[i])
  {
    if s != [] {
      RunOctets(s[1..], s[0] == '.');
      assert forall i :: 1 <= i < |s| ==> s[i] == s[1..][i - 1];
    }
  }

  lemma DotAtomOctets(s: string)
    requires DotAtom(s)
    ensures '"' !in s && '@' !in s && s != ""
  {
    if s == [] {
      assert !IsAtom(Split(s, '.')[0]);
    } else if s[0] == '.' || s[|s| - 1] == '.' {
      EdgeDots(s);
    } else {
      DotAtomRuns(s);
      RunOctets(s, false);
    }
  }

  // Where the local-part ends: behind a closed quoted-string, or at the only "@".
  method SeparatorAt(input: string) returns (at: Option<nat>)
    ensures at.Some? ==> at.value < |input| && input[at.value] == '@'
    ensures at.Some? ==> if input[0] == '"' then QuotedLocal(input[..at.value])
                         else '@' !in input[..at.value] && '@' !in input[at.value + 1..]
    ensures forall a :: Grammatical(a) && input == Printed(a) ==> at == Some(|a.localPart|)
  {
    if input != [] && input[0] == '"' {
      var closed := ClosingQuote(input);
      forall a | Grammatical(a) && input == Printed(a) ensures closed == Some(|a.localPart| - 1) {
        QuotedPrinted(a);
      }
      if closed.None? {
        return None;
      }
      ScannedIsContent(input[1..]);
      assert input[..closed.value + 1][1..closed.value] == input[1..][..closed.value - 1];
      if closed.value + 1 >= |input| || input[closed.value + 1] != '@' {
        return None;
      }
      at := Some(closed.value + 1);
    } else {
      var first, last := IndexOf(input, '@'), LastIndexOf(input, '@');
      forall a | Grammatical(a) && input == Printed(a) ensures first == last == |a.localPart| {
        AtomPrinted(a);
      }
      if first == -1 || first != last {
        return None;
      }
      at := Some(first);
    }
  }

  lemma QuotedPrinted(a: Address)
    requires Grammatical(a) && Printed(a)[0] == '"'
    ensures ScanQuoted(Printed(a)[1..]) == Some(|a.localPart| - 2)
  {
    var l := a.localPart;
    assert l[0] == '"';
    if DotAtom(l) {
      DotAtomOctets(l);
    }
    var content := l[1..|l| - 1];
    ContentIsScanned(content, "@" + a.domain);
    assert Printed(a)[1..] == content + "\"" + ("@" + a.domain);
  }

  lemma AtomPrinted(a: Address)
    requires Grammatical(a) && Printed(a)[0] != '"'
    ensures IndexOf(Printed(a), '@') == LastIndexOf(Printed(a), '@') == |a.localPart|
  {
    var s, k := Printed(a), |a.localPart|;
    assert a.localPart[0] == s[0];
    DotAtomOctets(a.localPart);
    assert s[k] == '@';
    assert forall i :: 0 <= i < k ==> s[i] == a.localPart[i];
    assert forall i :: k < i < |s| ==> s[i] == a.domain[i - k - 1];
  }

  method IsAddressLiteral(domain: string) returns (ok: bool)
    requires domain != "" && domain[0] == '['
    ensures ok <==> AddressLiteral(domain)
  {
    if domain[|domain| - 1] != ']' {
      return false;
    }
    var i := 1;
    while i < |domain| - 1
      invariant 1 <= i <= |domain| - 1
      invariant forall k :: 1 <= k < i ==> domain[k] !in {'[', ']', '\\'}
    {
      if domain[i] == '[' || domain[i] == ']' || domain[i] == '\\' {
        return false;
      }
      i := i + 1;
    }
    ok := true;
  }

  method IsDomain(domain: string) returns (ok: bool)
    requires domain != ""
    ensures ok <==> AddressLiteral(domain) || HostName(domain)
  {
    if domain[0] == '[' {
      BracketIsNoHost(domain);
      ok := IsAddressLiteral(domain);
    } else {
      ok := IsHostName(domain);
    }
  }

  lemma BracketIsNoHost(s: string)
    requires s != "" && s[0] == '['
    ensures !HostName(s)
  {
    var piece := Split(s, '.')[0];
    assert piece in Split(s, '.') && piece[0] == '[';
  }

  // Accepts exactly the octets of a grammatical pair, and returns that pair.
  method ParseAddrSpec(input: string) returns (r: Option<Address>)
    ensures r.Some? ==> Grammatical(r.value) && Printed(r.value) == input
    ensures forall a :: Grammatical(a) && Printed(a) == input ==> r == Some(a)
  {
    var at := SeparatorAt(input);
    if at.None? {
      return None;
    }
    var localPart, domain := input[..at.value], input[at.value + 1..];
    forall a | Grammatical(a) && Printed(a) == input ensures a == Address(localPart, domain) {
      assert input[..|a.localPart|] == a.localPart && input[|a.localPart| + 1..] == a.domain;
    }
    if |localPart| == 0 || |domain| == 0 || |localPart| > MAX_LOCAL || |domain| > MAX_DOMAIN {
      return None;
    }
    if input[0] != '"' {
      var ok := IsDotAtom(localPart);
      assert !QuotedLocal(localPart);
      if !ok {
        return None;
      }
    }
    var ok := IsDomain(domain);
    if !ok {
      return None;
    }
    QuotedIsNoAtom(localPart);
    assert input == localPart + "@" + domain;
    r := Some(Address(localPart, domain));
  }

  lemma QuotedIsNoAtom(s: string)
    ensures QuotedLocal(s) ==> !DotAtom(s)
  {
    if QuotedLocal(s) && DotAtom(s) {
      DotAtomOctets(s);
      assert false;
    }
  }
}
