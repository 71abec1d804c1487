/**
 SPF records (sections 4.5, 4.6.1 and 4.6.2 of RFC 7208): the parser, and the evaluation of one record
 under given match decisions.
 */
module SpfRecord {
  import opened Text

  datatype Qualifier = Plus | Minus | Tilde | Question

  datatype SpfResult = Pass | Fail | SoftFail | Neutral | NoPolicy | PermError | TempError

  datatype SpfTerm = SpfTerm(qualifier: Qualifier, mechanism: string, value: Option<string>, isModifier: bool,
      raw: string)

  datatype Record = Record(valid: bool, version: Option<string>, terms: seq<SpfTerm>)

  const VERSION: string := "v=spf1"

  function QualifierOf(c: char): Option<Qualifier> {
    if c == '+' then Some(Plus)
    else if c == '-' then Some(Minus)
    else if c == '~' then Some(Tilde)
    else if c == '?' then Some(Question)
    else None
  }

  function QualifierResult(q: Qualifier): SpfResult {
    match q
    case Plus => Pass
    case Minus => Fail
    case Tilde => SoftFail
    case Question => Neutral
  }

  // The first ":" or "/", with -1 for "not there".
  function ArgumentStart(body: string): int {
    var colon, slash := IndexOf(body, ':'), IndexOf(body, '/');
    if colon == -1 then slash else if slash == -1 || colon < slash then colon else slash
  }

  function ParseBody(qualifier: Qualifier, body: string, raw: string): SpfTerm {
    if '=' in body then
      var eq := IndexOf(body, '=');
      SpfTerm(qualifier, Lower(body[..eq]), Some(body[eq + 1..]), true, raw)
    else
      var sep := ArgumentStart(body);
      if sep == -1 then SpfTerm(qualifier, Lower(body), None, false, raw)
      else SpfTerm(qualifier, Lower(body[..sep]), Some(body[sep..]), false, raw)
  }

  function ParseTerm(tok: string): SpfTerm
    requires tok != []
  {
    match QualifierOf(tok[0])
    case Some(q) => ParseBody(q, tok[1..], tok)
    case None => ParseBody(Plus, tok, tok)
  }

  function ParseTerms(toks: seq<string>): (r: seq<SpfTerm>)
    requires forall i :: 0 <= i < |toks| ==> toks[i] != []
    ensures |r| == |toks| && forall i :: 0 <= i < |r| ==> r[i] == ParseTerm(toks[i])
  {
    seq(|toks|, i requires 0 <= i < |toks| => ParseTerm(toks[i]))
  }

  function Tokens(text: string): (r: seq<string>)
    ensures forall i :: 0 <= i < |r| ==> r[i] != []
  {
    var ws := Words(Trim(text), IsSpace);
    assert forall i :: 0 <= i < |ws| ==> IsWord(ws[i], IsSpace);
    ws
  }

  function Parsed(text: string): Record {
    var toks := Tokens(text);
    if toks == [] then Record(false, None, [])
    else Record(Lower(toks[0]) == VERSION, Some(toks[0]), ParseTerms(toks[1..]))
  }

  method CollectTerms(tokens: seq<string>) returns (terms: seq<SpfTerm>)
    requires forall i :: 0 <= i < |tokens| ==> tokens[i] != []
    ensures terms == ParseTerms(tokens)
  {
    terms := [];
    for i := 0 to |tokens|
      invariant |terms| == i
      invariant forall j :: 0 <= j < i ==> terms[j] == ParseTerm(tokens[j])
    {
      var tok := tokens[i];
      var qualifier, body := Plus, tok;
      var first := QualifierOf(tok[0]);
      if first.Some? {
        qualifier, body := first.value, tok[1..];
      }
      terms := terms + [ParseBody(qualifier, body, tok)];
    }
  }

  method ParseSpfRecord(text: string) returns (record: Record)
    ensures record == Parsed(text)
  {
    var tokens := Tokens(text);
    var version := if tokens == [] then None else Some(tokens[0]);
    var valid := true;
    if version.None? || Lower(version.value) != VERSION {
      valid := false;
    }
    var terms := CollectTerms(if tokens == [] then [] else tokens[1..]);
    record := Record(valid, version, terms);
  }

  // ---- Printing and parsing ----

  lemma JoinEnds(ws: seq<string>, p: char -> bool)
    requires ws != [] && forall i :: 0 <= i < |ws| ==> IsWord(ws[i], p)
    ensures Join(ws, " ") != [] && Bare(Join(ws, " "), p)
  {
    var s, w, l := Join(ws, " "), ws[0], ws[|ws| - 1];
    JoinStartsAndEnds(ws);
    assert !p(w[0]) && !p(l[|l| - 1]);
  }

  lemma {:induction false} JoinStartsAndEnds(ws: seq<string>)
    requires ws != [] && forall i :: 0 <= i < |ws| ==> ws[i] != []
    ensures var s, l := Join(ws, " "), ws[|ws| - 1]; s != [] && s[0] == ws[0][0] && s[|s| - 1] == l[|l| - 1]
  {
    if |ws| > 1 {
      JoinStartsAndEnds(ws[1..]);
      var s, t := Join(ws, " "), Join(ws[1..], " ");
      assert s[|s| - 1] == t[|t| - 1];
    }
  }

  // A record written as tokens with one space between them parses to the version and the terms written.
  lemma ParseOfPrinted(toks: seq<string>)
    requires toks != [] && forall i :: 0 <= i < |toks| ==> IsWord(toks[i], IsSpace)
    ensures Tokens(Join(toks, " ")) == toks
    ensures Parsed(Join(toks, " ")) == Record(Lower(toks[0]) == VERSION, Some(toks[0]), ParseTerms(toks[1..]))
  {
    JoinEnds(toks, IsSpace);
    StripIsBare(Join(toks, " "), IsSpace);
    WordsJoin(toks, IsSpace, ' ');
  }

  // ---- What a term is written as ----

  // What follows the name of a term.
  function Argument(t: SpfTerm): string {
    var value := if t.value.Some? then t.value.value else "";
    if t.isModifier then "=" + value else value
  }

  // A modifier has a name and a value; the argument of a mechanism, if it has one, starts with ":" or "/".
  predicate Shaped(t: SpfTerm) {
    && '=' !in t.mechanism
    && if t.isModifier then t.value.Some?
       else && ':' !in t.mechanism && '/' !in t.mechanism && '=' !in Argument(t)
            && (t.value.Some? ==> t.value.value != "" && t.value.value[0] in {':', '/'})
  }

  // The body is the name, in any case of its letters, and the argument.
  predicate BodyOf(t: SpfTerm, body: string) {
    var n := |t.mechanism|;
    |body| >= n && Lower(body[..n]) == t.mechanism && body[n..] == Argument(t)
  }

  // The token writes the term: its qualifier, which can be left out if it is "+", and its body.
  predicate Writes(tok: string, t: SpfTerm)
    requires tok != ""
  {
    && t.raw == tok && Shaped(t)
    && match QualifierOf(tok[0])
       case Some(q) => t.qualifier == q && BodyOf(t, tok[1..])
       case None => t.qualifier == Plus && BodyOf(t, tok)
  }

  lemma LowerKeeps(s: string, c: char)
    requires c in {'=', ':', '/'}
    ensures c in Lower(s) <==> c in s
  {
    assert forall i :: 0 <= i < |s| ==> (Lower(s)[i] == c <==> s[i] == c);
    if c in s {
      var i :| 0 <= i < |s| && s[i] == c;
      assert Lower(s)[i] == c;
    }
  }

  lemma FirstAt(s: string, c: char, n: nat)
    requires n < |s| && s[n] == c && c !in s[..n]
    ensures IndexOf(s, c) == n
  {
    assert forall i :: 0 <= i < n ==> s[i] == s[..n][i];
  }

  // The name of a mechanism reaches to the first ":" or "/".
  lemma ArgumentAt(body: string, n: nat)
    requires n <= |body| && ':' !in body[..n] && '/' !in body[..n] && (n < |body| ==> body[n] in {':', '/'})
    ensures ArgumentStart(body) == if n < |body| then n else -1
  {
    assert body == body[..n] + body[n..];
    if n < |body| {
      FirstAt(body, body[n], n);
      assert forall i :: 0 <= i < n ==> body[i] == body[..n][i];
    }
  }

  lemma BodyReads(qualifier: Qualifier, body: string, raw: string, t: SpfTerm)
    requires Shaped(t) && BodyOf(t, body) && t.qualifier == qualifier && t.raw == raw
    ensures ParseBody(qualifier, body, raw) == t
  {
    var n := |t.mechanism|;
    assert body == body[..n] + body[n..];
    LowerKeeps(body[..n], '=');
    if t.isModifier {
      FirstAt(body, '=', n);
      assert body[n + 1..] == body[n..][1..];
    } else {
      LowerKeeps(body[..n], ':');
      LowerKeeps(body[..n], '/');
      ArgumentAt(body, n);
      assert n == |body| ==> body[..n] == body;
    }
  }

  lemma BodyIsWritten(qualifier: Qualifier, body: string, raw: string)
    ensures var t := ParseBody(qualifier, body, raw); Shaped(t) && BodyOf(t, body)
  {
    if '=' in body {
      var eq := IndexOf(body, '=');
      LowerKeeps(body[..eq], '=');
      assert body[eq..] == "=" + body[eq + 1..];
    } else {
      var sep := ArgumentStart(body);
      var n := if sep == -1 then |body| else sep;
      assert body == body[..n] + body[n..];
      LowerKeeps(body[..n], '=');
      LowerKeeps(body[..n], ':');
      LowerKeeps(body[..n], '/');
    }
  }

  // A token parses to exactly the term that it writes: any qualifier or none, mechanisms without an argument,
  // with ":" and with "/", and modifiers.
  lemma ParsesToWritten(tok: string, t: SpfTerm)
    requires tok != ""
    ensures ParseTerm(tok) == t <==> Writes(tok, t)
  {
    var body := if QualifierOf(tok[0]).Some? then tok[1..] else tok;
    var qualifier := if QualifierOf(tok[0]).Some? then QualifierOf(tok[0]).value else Plus;
    BodyIsWritten(qualifier, body, tok);
    if Writes(tok, t) {
      BodyReads(qualifier, body, tok, t);
    }
  }

  function Raws(terms: seq<SpfTerm>): (r: seq<string>)
    ensures |r| == |terms| && forall i :: 0 <= i < |r| ==> r[i] == terms[i].raw
  {
    seq(|terms|, i requires 0 <= i < |terms| => terms[i].raw)
  }

  // So a record of such tokens reads back as its terms.
  lemma WrittenRecordReads(terms: seq<SpfTerm>)
    requires forall i :: 0 <= i < |terms| ==> IsWord(terms[i].raw, IsSpace) && Writes(terms[i].raw, terms[i])
    ensures Parsed(Join([VERSION] + Raws(terms), " ")) == Record(true, Some(VERSION), terms)
  {
    var toks := [VERSION] + Raws(terms);
    VersionIsWord(VERSION);
    ParseOfPrinted(toks);
    assert toks[1..] == Raws(terms);
    forall i | 0 <= i < |terms| ensures ParseTerm(Raws(terms)[i]) == terms[i] {
      ParsesToWritten(terms[i].raw, terms[i]);
    }
  }

  lemma VersionIsWord(version: string)
    requires version == VERSION
    ensures IsWord(version, IsSpace) && Lower(version) == version
  {
  }

  // ---- Selection and parsing agree ----

  // The part of a TXT record before the first SP or HTAB.
  function FirstToken(text: string): (r: string)
    ensures r <= text
    ensures |r| == |text| || IsWsp(text[|r|])
  {
    if text == [] || IsWsp(text[0]) then [] else [text[0]] + FirstToken(text[1..])
  }

  predicate IsSpfText(text: string) {
    Lower(FirstToken(text)) == VERSION
  }

  lemma {:induction false} WordThenSpace(w: string, rest: string, p: char -> bool)
    requires IsWord(w, p) && (rest == [] || p(rest[0]))
    ensures Words(w + rest, p) == [w] + Words(rest, p)
  {
    var s := w + rest;
    assert !p(w[0]);
    if |w| == 1 {
      assert s[1..] == rest && w == [s[0]];
    } else {
      assert !p(w[1]) && s[1] == w[1];
      assert s[1..] == w[1..] + rest;
      WordThenSpace(w[1..], rest, p);
      assert w == [w[0]] + w[1..];
    }
  }

  // Every TXT record that is selected as an SPF record parses as a valid one: the two steps cannot
  // disagree about what an SPF record is.
  lemma SelectedIsValid(text: string)
    requires IsSpfText(text)
    ensures Parsed(text).valid
  {
    var w := FirstToken(text);
    var rest := text[|w|..];
    assert text == w + rest;
    assert |w| == 6;
    forall i | 0 <= i < |w| ensures !IsSpace(w[i]) {
      assert LowerChar(w[i]) == VERSION[i];
    }
    assert IsWord(w, IsSpace);
    assert StripLeft(text, IsSpace) == text;
    StripRightConcat(w, rest, IsSpace);
    assert StripRight(w, IsSpace) == w;
    var kept := StripRight(rest, IsSpace);
    assert kept != [] ==> kept[0] == rest[0];
    assert w + [] == w;
    WordThenSpace(w, kept, IsSpace);
  }

  // ---- One record under given match decisions ----

  // The leftmost mechanism that matches decides; modifiers never do, and "all" always matches.
  predicate Decides(t: SpfTerm, matches: SpfTerm -> bool) {
    !t.isModifier && (t.mechanism == "all" || matches(t))
  }

  // The place of the leftmost deciding mechanism, or the number of terms.
  function FirstDeciding(terms: seq<SpfTerm>, matches: SpfTerm -> bool): (k: nat)
    ensures k <= |terms|
    ensures k < |terms| ==> Decides(terms[k], matches)
    ensures forall i :: 0 <= i < k ==> !Decides(terms[i], matches)
  {
    if terms == [] || Decides(terms[0], matches) then 0 else 1 + FirstDeciding(terms[1..], matches)
  }

  function Evaluated(record: Record, matches: SpfTerm -> bool): SpfResult {
    if !record.valid then NoPolicy
    else
      var k := FirstDeciding(record.terms, matches);
      if k < |record.terms| then QualifierResult(record.terms[k].qualifier) else Neutral
  }

  method EvaluateSpf(record: Record, matches: SpfTerm -> bool) returns (r: SpfResult)
    ensures r == Evaluated(record, matches)
  {
    if !record.valid {
      return NoPolicy;
    }
    for i := 0 to |record.terms|
      invariant forall j :: 0 <= j < i ==> !Decides(record.terms[j], matches)
    {
      var t := record.terms[i];
      if t.isModifier {
        continue;
      }
      var matched := if t.mechanism == "all" then true else matches(t);
      if matched {
        assert Decides(t, matches);
        assert FirstDeciding(record.terms, matches) == i;
        return QualifierResult(t.qualifier);
      }
    }
    assert FirstDeciding(record.terms, matches) == |record.terms|;
    r := Neutral;
  }
}
