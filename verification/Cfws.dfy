/**
 Removing the comments of a header value (sections 3.2.2 and 3.2.4 of RFC 5322).

 The grammar is written as a lexer into plain characters, quoted-strings and comments, comments nesting by
 recursion; the engine's one-pass automaton with its depth counter is proved to compute the same.
 */
module Cfws {
  import opened Text

  datatype Token = Plain(c: char) | Quoted(text: string) | Comment(text: string)

  // Length of the rest of a quoted-string, through its closing quote or the end of the value.
  function QuotedTail(s: string): (n: nat)
    ensures n <= |s| && (s != [] ==> n > 0)
  {
    if s == [] then 0
    else if s[0] == '\\' then if |s| == 1 then 1 else 2 + QuotedTail(s[2..])
    else if s[0] == '"' then 1
    else 1 + QuotedTail(s[1..])
  }

  // Length of the rest of a comment, through its closing parenthesis or the end of the value; a comment
  // inside it is skipped as a whole.
  function CommentTail(s: string): (n: nat)
    ensures n <= |s| && (s != [] ==> n > 0)
    decreases |s|
  {
    if s == [] then 0
    else if s[0] == '\\' then if |s| == 1 then 1 else 2 + CommentTail(s[2..])
    else if s[0] == ')' then 1
    else if s[0] == '(' then
      var inner := 1 + CommentTail(s[1..]);
      inner + CommentTail(s[inner..])
    else 1 + CommentTail(s[1..])
  }

  function FirstToken(s: string): (t: Token)
    requires s != []
    ensures 0 < |Octets(t)| <= |s| && Octets(t) == s[..|Octets(t)|]
  {
    if s[0] == '"' then Quoted(s[..1 + QuotedTail(s[1..])])
    else if s[0] == '(' then Comment(s[..1 + CommentTail(s[1..])])
    else Plain(s[0])
  }

  // The octets of a token.
  function Octets(t: Token): string {
    match t
    case Plain(c) => [c]
    case Quoted(text) => text
    case Comment(text) => text
  }

  function Lex(s: string): seq<Token>
    decreases |s|
  {
    if s == [] then []
    else
      var t := FirstToken(s);
      [t] + Lex(s[|Octets(t)|..])
  }

  // What is left of a token: a comment becomes one space.
  function Kept(t: Token): string {
    if t.Comment? then " " else Octets(t)
  }

  // The value with every comment replaced by a space.
  function Stripped(value: string): string
    decreases |value|
  {
    if value == [] then []
    else Kept(FirstToken(value)) + Stripped(value[|Octets(FirstToken(value))|..])
  }

  // ---- The automaton computes the grammar ----

  // What the automaton still writes in each of its states.
  function Run(s: string, depth: nat, inQuote: bool): string {
    if s == [] then []
    else if inQuote then
      if s[0] == '\\' && |s| > 1 then [s[0], s[1]] + Run(s[2..], depth, true)
      else [s[0]] + Run(s[1..], depth, s[0] != '"')
    else if depth > 0 then
      if s[0] == '\\' then if |s| > 1 then Run(s[2..], depth, false) else []
      else Run(s[1..], if s[0] == '(' then depth + 1 else if s[0] == ')' then depth - 1 else depth, false)
    else if s[0] == '(' then " " + Run(s[1..], 1, false)
    else [s[0]] + Run(s[1..], 0, s[0] == '"')
  }

  // One pass with a nesting depth and a quote flag.
  method StripComments(value: string) returns (out: string)
    ensures out == Stripped(value)
  {
    out := [];
    var depth: nat, inQuote, i := 0, false, 0;
    while i < |value|
      invariant 0 <= i <= |value|
      invariant out + Run(value[i..], depth, inQuote) == Run(value, 0, false)
    {
      var ch := value[i];
      assert value[i..][1..] == value[i + 1..];
      if inQuote {
        if ch == '\\' && i + 1 < |value| {
          DropDrop(value, i, 2);
          Regroup(out, [ch, value[i + 1]], Run(value[i + 2..], depth, true));
          Regroup(out, [ch], [value[i + 1]]);
        } else {
          Regroup(out, [ch], Run(value[i + 1..], depth, ch != '"'));
        }
        out := out + [ch];
        if ch == '\\' && i + 1 < |value| {
          out := out + [value[i + 1]];
          i := i + 2;
          continue;
        }
        if ch == '"' {
          inQuote := false;
        }
      } else if depth > 0 {
        if ch == '\\' {
          assert i + 1 < |value| ==> value[i..][2..] == value[i + 2..];
          i := if i + 2 < |value| then i + 2 else |value|;
          continue;
        }
        if ch == '(' {
          depth := depth + 1;
        } else if ch == ')' {
          depth := depth - 1;
        }
      } else if ch == '"' {
        Regroup(out, [ch], Run(value[i + 1..], 0, true));
        inQuote := true;
        out := out + [ch];
      } else if ch == '(' {
        Regroup(out, " ", Run(value[i + 1..], 1, false));
        depth := depth + 1;
        out := out + [' '];
      } else {
        Regroup(out, [ch], Run(value[i + 1..], 0, false));
        out := out + [ch];
      }
      i := i + 1;
    }
    RunIsStripped(value);
  }

  // What follows the end of a comment is read one level further out.
  lemma {:induction false} RunInComment(s: string, depth: nat)
    requires depth > 0
    ensures Run(s, depth, false) == Run(s[CommentTail(s)..], depth - 1, false)
    decreases |s|, 1
  {
    if s != [] && s[0] == '(' {
      RunNested(s, depth);
    } else if s != [] && s[0] != ')' {
      var k := if s[0] == '\\' && |s| > 1 then 2 else 1;
      RunInComment(s[k..], depth);
      DropDrop(s, k, CommentTail(s[k..]));
    }
  }

  lemma {:induction false} RunNested(s: string, depth: nat)
    requires depth > 0 && s != [] && s[0] == '('
    ensures Run(s, depth, false) == Run(s[CommentTail(s)..], depth - 1, false)
    decreases |s|, 0
  {
    var rest := s[1..][CommentTail(s[1..])..];
    RunInComment(s[1..], depth + 1);
    RunInComment(rest, depth);
    NestedTail(s);
  }

  lemma NestedTail(s: string)
    requires s != [] && s[0] == '('
    ensures var rest := s[1..][CommentTail(s[1..])..]; s[CommentTail(s)..] == rest[CommentTail(rest)..]
  {
    var inner := 1 + CommentTail(s[1..]);
    DropDrop(s, 1, CommentTail(s[1..]));
    DropDrop(s, inner, CommentTail(s[inner..]));
  }

  // A quoted-string is copied to its end.
  lemma {:induction false} RunInQuote(s: string)
    ensures Run(s, 0, true) == s[..QuotedTail(s)] + Run(s[QuotedTail(s)..], 0, false)
  {
    if s == [] {
    } else if s[0] != '"' {
      var k := if s[0] == '\\' && |s| > 1 then 2 else 1;
      RunInQuote(s[k..]);
      CopiedOn(s, k, QuotedTail(s[k..]));
    }
  }

  lemma CopiedOn(s: string, k: nat, n: nat)
    requires k + n <= |s|
    ensures s[..k] + (s[k..][..n] + Run(s[k..][n..], 0, false)) == s[..k + n] + Run(s[k + n..], 0, false)
  {
    DropDrop(s, k, n);
    assert s[..k + n] == s[..k] + s[k..][..n];
    Regroup(s[..k], s[k..][..n], Run(s[k + n..], 0, false));
  }

  lemma RunQuoted(s: string)
    requires s != [] && s[0] == '"'
    ensures Run(s, 0, false) == Octets(FirstToken(s)) + Run(s[|Octets(FirstToken(s))|..], 0, false)
  {
    var n := QuotedTail(s[1..]);
    RunInQuote(s[1..]);
    DropDrop(s, 1, n);
    assert s[..1 + n] == [s[0]] + s[1..][..n];
    Regroup([s[0]], s[1..][..n], Run(s[1 + n..], 0, false));
  }

  lemma {:induction false} RunIsStripped(s: string)
    ensures Run(s, 0, false) == Stripped(s)
    decreases |s|
  {
    if s != [] {
      RunIsStripped(s[|Octets(FirstToken(s))|..]);
      if s[0] == '"' {
        RunQuoted(s);
      } else if s[0] == '(' {
        RunInComment(s[1..], 1);
        DropDrop(s, 1, CommentTail(s[1..]));
      }
    }
  }

  lemma DropDrop(s: string, i: nat, j: nat)
    requires i + j <= |s|
    ensures s[i..][j..] == s[i + j..]
  {
  }

  // ---- What stripping does ----

  lemma {:induction false} LexCovers(s: string)
    ensures Flatten(Lex(s)) == s
    decreases |s|
  {
    if s != [] {
      var t := FirstToken(s);
      LexCovers(s[|Octets(t)|..]);
      assert Lex(s)[1..] == Lex(s[|Octets(t)|..]);
      assert s == Octets(t) + s[|Octets(t)|..];
    }
  }

  function Flatten(ts: seq<Token>): string {
    if ts == [] then [] else Octets(ts[0]) + Flatten(ts[1..])
  }

  // Comments turned into spaces.
  function Blanked(ts: seq<Token>): (r: seq<Token>)
    ensures |r| == |ts|
    ensures forall i :: 0 <= i < |r| ==> r[i] == if ts[i].Comment? then Plain(' ') else ts[i]
  {
    seq(|ts|, i requires 0 <= i < |ts| => if ts[i].Comment? then Plain(' ') else ts[i])
  }

  // A complete quoted-string keeps its extent whatever follows it.
  lemma {:induction false} QuotedTailLocal(s: string, more: string)
    requires QuotedClosed(s)
    ensures QuotedTail(s[..QuotedTail(s)] + more) == QuotedTail(s)
    decreases |s|
  {
    var n := QuotedTail(s);
    if s[0] == '\\' {
      QuotedTailLocal(s[2..], more);
      assert (s[..n] + more)[2..] == s[2..][..n - 2] + more;
    } else if s[0] != '"' {
      QuotedTailLocal(s[1..], more);
      assert (s[..n] + more)[1..] == s[1..][..n - 1] + more;
    }
  }

  // The rest of a quoted-string has its closing quote.
  predicate QuotedClosed(s: string) {
    if s == [] then false
    else if s[0] == '\\' then |s| > 1 && QuotedClosed(s[2..])
    else if s[0] == '"' then true
    else QuotedClosed(s[1..])
  }

  lemma {:induction false} OpenQuoteRunsOn(s: string)
    requires !QuotedClosed(s)
    ensures QuotedTail(s) == |s|
  {
    if s != [] {
      if s[0] == '\\' {
        if |s| > 1 {
          OpenQuoteRunsOn(s[2..]);
        }
      } else {
        OpenQuoteRunsOn(s[1..]);
      }
    }
  }

  // A token that stripping keeps is read again as it was, whatever follows.
  lemma KeptTokenAgain(s: string)
    requires s != []
    ensures Stripped(s) != []
    ensures FirstToken(Stripped(s)) == if s[0] == '(' then Plain(' ') else FirstToken(s)
    ensures Stripped(s)[|Octets(FirstToken(Stripped(s)))|..] == Stripped(s[|Octets(FirstToken(s))|..])
  {
    if s[0] == '"' {
      QuotedTokenAgain(s);
    }
  }

  lemma QuotedTokenAgain(s: string)
    requires s != [] && s[0] == '"'
    ensures Stripped(s) != [] && FirstToken(Stripped(s)) == FirstToken(s)
  {
    var n := QuotedTail(s[1..]);
    if QuotedClosed(s[1..]) {
      ClosedTokenAgain(s, Stripped(s[1 + n..]));
    } else {
      OpenQuoteRunsOn(s[1..]);
      assert s[1 + n..] == [];
      assert Stripped(s) == s;
    }
  }

  lemma ClosedTokenAgain(s: string, more: string)
    requires s != [] && s[0] == '"' && QuotedClosed(s[1..])
    ensures FirstToken(s[..1 + QuotedTail(s[1..])] + more) == FirstToken(s)
  {
    var n := QuotedTail(s[1..]);
    var out := s[..1 + n] + more;
    assert out[1..] == s[1..][..n] + more;
    QuotedTailLocal(s[1..], more);
    assert out[..1 + n] == s[..1 + n];
  }

  lemma BlankedFirst(t: Token, ts: seq<Token>)
    ensures Blanked([t] + ts) == [if t.Comment? then Plain(' ') else t] + Blanked(ts)
  {
  }

  // Lexing what stripping leaves gives the same tokens with each comment turned into a space.
  lemma {:induction false} LexOfStripped(s: string)
    ensures Lex(Stripped(s)) == Blanked(Lex(s))
    decreases |s|
  {
    if s != [] {
      var rest := s[|Octets(FirstToken(s))|..];
      LexOfStripped(rest);
      KeptTokenAgain(s);
      BlankedFirst(FirstToken(s), Lex(rest));
    }
  }

  lemma {:induction false} StrippedByTokens(s: string)
    ensures Stripped(s) == Flatten(Blanked(Lex(s)))
    decreases |s|
  {
    if s != [] {
      var rest := s[|Octets(FirstToken(s))|..];
      StrippedByTokens(rest);
      BlankedFirst(FirstToken(s), Lex(rest));
      FlattenFirst(if FirstToken(s).Comment? then Plain(' ') else FirstToken(s), Blanked(Lex(rest)));
    }
  }

  lemma FlattenFirst(t: Token, ts: seq<Token>)
    ensures Flatten([t] + ts) == Octets(t) + Flatten(ts)
  {
    assert ([t] + ts)[1..] == ts;
  }

  // Stripping twice is stripping once.
  lemma StripIdempotent(value: string)
    ensures Stripped(Stripped(value)) == Stripped(value)
  {
    LexOfStripped(value);
    StrippedByTokens(value);
    StrippedByTokens(Stripped(value));
    assert Blanked(Blanked(Lex(value))) == Blanked(Lex(value));
  }

  lemma {:induction false} StripShortens(value: string)
    ensures |Stripped(value)| <= |value|
    decreases |value|
  {
    if value != [] {
      var t := FirstToken(value);
      StripShortens(value[|Octets(t)|..]);
    }
  }

  function QuotedStrings(ts: seq<Token>): seq<string> {
    if ts == [] then []
    else (if ts[0].Quoted? then [ts[0].text] else []) + QuotedStrings(ts[1..])
  }

  lemma {:induction false} BlankedKeepsQuoted(ts: seq<Token>)
    ensures QuotedStrings(Blanked(ts)) == QuotedStrings(ts)
  {
    if ts != [] {
      BlankedKeepsQuoted(ts[1..]);
      assert Blanked(ts)[1..] == Blanked(ts[1..]);
    }
  }

  // The quoted-strings outside comments stay, verbatim and in order, and no comment is left: outside the
  // quoted-strings no "(" remains.
  lemma StripKeepsQuotedStrings(value: string)
    ensures QuotedStrings(Lex(Stripped(value))) == QuotedStrings(Lex(value))
    ensures forall i :: 0 <= i < |Lex(Stripped(value))| ==> !Lex(Stripped(value))[i].Comment?
    ensures forall i :: 0 <= i < |Lex(Stripped(value))| && Lex(Stripped(value))[i].Plain? ==>
            Lex(Stripped(value))[i].c != '('
  {
    LexOfStripped(value);
    BlankedKeepsQuoted(Lex(value));
    PlainIsNoParen(value);
  }

  lemma {:induction false} PlainIsNoParen(s: string)
    ensures forall i :: 0 <= i < |Lex(s)| && Lex(s)[i].Plain? ==> Lex(s)[i].c != '('
    decreases |s|
  {
    if s != [] {
      PlainIsNoParen(s[|Octets(FirstToken(s))|..]);
    }
  }

  // ---- Concatenation ----

  // The rest of a comment has its closing parenthesis.
  predicate CommentClosed(s: string)
    decreases |s|
  {
    if s == [] then false
    else if s[0] == '\\' then |s| > 1 && CommentClosed(s[2..])
    else if s[0] == ')' then true
    else if s[0] == '(' then CommentClosed(s[1..]) && CommentClosed(s[1 + CommentTail(s[1..])..])
    else CommentClosed(s[1..])
  }

  predicate TokenClosed(s: string)
    requires s != []
  {
    if s[0] == '"' then QuotedClosed(s[1..]) else if s[0] == '(' then CommentClosed(s[1..]) else true
  }

  // The value ends outside comments and quoted-strings.
  predicate EndsOutside(s: string)
    decreases |s|
  {
    s == [] || (TokenClosed(s) && EndsOutside(s[|Octets(FirstToken(s))|..]))
  }

  lemma {:induction false} QuotedTailExtends(s: string, more: string)
    requires QuotedClosed(s)
    ensures QuotedTail(s + more) == QuotedTail(s)
  {
    if s[0] == '\\' {
      QuotedTailExtends(s[2..], more);
      assert (s + more)[2..] == s[2..] + more;
    } else if s[0] != '"' {
      QuotedTailExtends(s[1..], more);
      assert (s + more)[1..] == s[1..] + more;
    }
  }

  lemma {:induction false} CommentTailExtends(s: string, more: string)
    requires CommentClosed(s)
    ensures CommentTail(s + more) == CommentTail(s)
    decreases |s|
  {
    var t := s + more;
    if s[0] == '\\' {
      CommentTailExtends(s[2..], more);
      assert t[2..] == s[2..] + more;
    } else if s[0] == '(' {
      CommentTailExtends(s[1..], more);
      assert t[1..] == s[1..] + more;
      var inner := 1 + CommentTail(s[1..]);
      CommentTailExtends(s[inner..], more);
      assert t[inner..] == s[inner..] + more;
    } else if s[0] != ')' {
      CommentTailExtends(s[1..], more);
      assert t[1..] == s[1..] + more;
    }
  }

  lemma FirstTokenExtends(a: string, b: string)
    requires a != [] && TokenClosed(a)
    ensures FirstToken(a + b) == FirstToken(a)
    ensures (a + b)[|Octets(FirstToken(a))|..] == a[|Octets(FirstToken(a))|..] + b
  {
    assert (a + b)[1..] == a[1..] + b;
    if a[0] == '"' {
      QuotedTailExtends(a[1..], b);
    } else if a[0] == '(' {
      CommentTailExtends(a[1..], b);
    }
    assert (a + b)[..|Octets(FirstToken(a))|] == a[..|Octets(FirstToken(a))|];
  }

  // Where the left part ends outside both contexts, stripping distributes over concatenation.
  lemma {:induction false} StripConcat(a: string, b: string)
    requires EndsOutside(a)
    ensures Stripped(a + b) == Stripped(a) + Stripped(b)
    decreases |a|
  {
    if a == [] {
      assert a + b == b;
    } else {
      var n := |Octets(FirstToken(a))|;
      FirstTokenExtends(a, b);
      StripConcat(a[n..], b);
      Regroup(Kept(FirstToken(a)), Stripped(a[n..]), Stripped(b));
    }
  }

  // ---- What is written ----

  // The inside of a comment: octets, quoted-pairs and comments.
  datatype Inside = Nothing | Ctext(c: char, rest: Inside) | Cpair(c: char, rest: Inside)
    | Nested(inner: Inside, rest: Inside)

  function PrintInside(x: Inside): string {
    match x
    case Nothing => ""
    case Ctext(c, rest) => [c] + PrintInside(rest)
    case Cpair(c, rest) => ['\\', c] + PrintInside(rest)
    case Nested(inner, rest) => "(" + PrintInside(inner) + ")" + PrintInside(rest)
  }

  predicate InsideProper(x: Inside) {
    match x
    case Nothing => true
    case Ctext(c, rest) => c !in {'\\', '(', ')'} && InsideProper(rest)
    case Cpair(_, rest) => InsideProper(rest)
    case Nested(inner, rest) => InsideProper(inner) && InsideProper(rest)
  }

  // The inside of a quoted-string: octets and quoted-pairs.
  datatype QuotedText = QuoteEnd | Qtext(c: char, rest: QuotedText) | QuotedPair(c: char, rest: QuotedText)

  function PrintQuoted(x: QuotedText): string {
    match x
    case QuoteEnd => ""
    case Qtext(c, rest) => [c] + PrintQuoted(rest)
    case QuotedPair(c, rest) => ['\\', c] + PrintQuoted(rest)
  }

  predicate QuotedProper(x: QuotedText) {
    match x
    case QuoteEnd => true
    case Qtext(c, rest) => c !in {'\\', '"'} && QuotedProper(rest)
    case QuotedPair(_, rest) => QuotedProper(rest)
  }

  // A value; its last quoted-string or comment may lack its end.
  datatype Written = End | OpenString(text: QuotedText) | OpenComment(inside: Inside)
    | CharThen(c: char, rest: Written) | StringThen(text: QuotedText, rest: Written)
    | CommentThen(inside: Inside, rest: Written)

  function Print(v: Written): string {
    match v
    case End => ""
    case OpenString(text) => "\"" + PrintQuoted(text)
    case OpenComment(inside) => "(" + PrintInside(inside)
    case CharThen(c, rest) => [c] + Print(rest)
    case StringThen(text, rest) => "\"" + PrintQuoted(text) + "\"" + Print(rest)
    case CommentThen(inside, rest) => "(" + PrintInside(inside) + ")" + Print(rest)
  }

  predicate Proper(v: Written) {
    match v
    case End => true
    case OpenString(text) => QuotedProper(text)
    case OpenComment(inside) => InsideProper(inside)
    case CharThen(c, rest) => c !in {'"', '('} && Proper(rest)
    case StringThen(text, rest) => QuotedProper(text) && Proper(rest)
    case CommentThen(inside, rest) => InsideProper(inside) && Proper(rest)
  }

  // One space for each comment, and everything else as it stands.
  function WithoutComments(v: Written): string {
    match v
    case End => ""
    case OpenString(text) => "\"" + PrintQuoted(text)
    case OpenComment(_) => " "
    case CharThen(c, rest) => [c] + WithoutComments(rest)
    case StringThen(text, rest) => "\"" + PrintQuoted(text) + "\"" + WithoutComments(rest)
    case CommentThen(_, rest) => " " + WithoutComments(rest)
  }

  lemma InnerEnds(t: string)
    ensures CommentTail("(" + t) == 1 + CommentTail(t) + CommentTail(t[CommentTail(t)..])
  {
    var s, k := "(" + t, CommentTail(t);
    assert s[1..] == t && s[1 + k..] == t[k..];
  }

  lemma BehindInner(inner: string, behind: string)
    ensures (inner + (")" + behind))[|inner| + 1..] == behind
    ensures "(" + inner + ")" + behind == "(" + (inner + (")" + behind))
  {
  }

  lemma NestedEnds(inner: string, behind: string, t: string)
    requires t == inner + (")" + behind) && CommentTail(t) == |inner| + 1
    ensures CommentTail("(" + t) == |inner| + 2 + CommentTail(behind)
  {
    BehindInner(inner, behind);
    InnerEnds(t);
  }

  lemma CtextEnds(c: char, behind: string)
    requires c !in {'\\', '(', ')'}
    ensures CommentTail([c] + behind) == 1 + CommentTail(behind)
  {
    assert ([c] + behind)[1..] == behind;
  }

  lemma CpairEnds(c: char, behind: string)
    ensures CommentTail(['\\', c] + behind) == 2 + CommentTail(behind)
  {
    assert (['\\', c] + behind)[2..] == behind;
  }

  // A written comment ends at its own closing parenthesis, or runs on to the end without one.
  lemma {:induction false} InsideEnds(x: Inside, end: string)
    requires InsideProper(x) && (end == "" || end[0] == ')')
    ensures CommentTail(PrintInside(x) + end) == |PrintInside(x)| + if end == "" then 0 else 1
  {
    match x {
      case Nothing =>
        assert PrintInside(x) + end == end;
      case Ctext(c, rest) =>
        InsideEnds(rest, end);
        CtextEnds(c, PrintInside(rest) + end);
        Regroup([c], PrintInside(rest), end);
      case Cpair(c, rest) =>
        InsideEnds(rest, end);
        CpairEnds(c, PrintInside(rest) + end);
        Regroup(['\\', c], PrintInside(rest), end);
      case Nested(inner, rest) =>
        InsideEnds(inner, ")" + (PrintInside(rest) + end));
        InsideEnds(rest, end);
        var behind := PrintInside(rest) + end;
        NestedEnds(PrintInside(inner), behind, PrintInside(inner) + (")" + behind));
        BehindInner(PrintInside(inner), behind);
        Regroup("(" + PrintInside(inner) + ")", PrintInside(rest), end);
    }
  }

  lemma {:induction false} QuotedEnds(x: QuotedText, end: string)
    requires QuotedProper(x) && (end == "" || end[0] == '"')
    ensures QuotedTail(PrintQuoted(x) + end) == |PrintQuoted(x)| + if end == "" then 0 else 1
  {
    var s := PrintQuoted(x) + end;
    match x {
      case QuoteEnd =>
        assert s == end;
      case Qtext(c, rest) =>
        assert s[1..] == PrintQuoted(rest) + end;
        QuotedEnds(rest, end);
      case QuotedPair(c, rest) =>
        assert s[2..] == PrintQuoted(rest) + end;
        QuotedEnds(rest, end);
    }
  }

  lemma StringFirst(text: QuotedText, end: string, rest: string)
    requires QuotedProper(text) && (end == "\"" || (end == "" && rest == ""))
    ensures Stripped("\"" + PrintQuoted(text) + end + rest) == "\"" + PrintQuoted(text) + end + Stripped(rest)
  {
    var s, token := "\"" + PrintQuoted(text) + end + rest, "\"" + PrintQuoted(text) + end;
    assert s[1..] == PrintQuoted(text) + (end + rest);
    QuotedEnds(text, end + rest);
    assert s[..|token|] == token && s[|token|..] == rest;
  }

  lemma CommentApart(inside: string, end: string, rest: string, s: string)
    requires s == "(" + inside + end + rest
    ensures s[0] == '(' && s[1..] == inside + (end + rest) && s[1 + |inside + end|..] == rest
  {
  }

  lemma CommentFirst(inside: Inside, end: string, rest: string)
    requires InsideProper(inside) && (end == ")" || (end == "" && rest == ""))
    ensures Stripped("(" + PrintInside(inside) + end + rest) == " " + Stripped(rest)
  {
    CommentApart(PrintInside(inside), end, rest, "(" + PrintInside(inside) + end + rest);
    InsideEnds(inside, end + rest);
  }

  lemma BareFirst(c: char, rest: string)
    requires c !in {'"', '('}
    ensures Stripped([c] + rest) == [c] + Stripped(rest)
  {
    assert ([c] + rest)[1..] == rest;
  }

  // Whatever value is written, its comments become one space each, whatever they hold, and everything else stays.
  lemma {:induction false} StripOfPrinted(v: Written)
    requires Proper(v)
    ensures Stripped(Print(v)) == WithoutComments(v)
  {
    match v {
      case End =>
      case OpenString(text) =>
        StringFirst(text, "", "");
        assert Print(v) + "" + "" == Print(v) && Print(v) + "" + Stripped("") == Print(v);
      case OpenComment(inside) =>
        CommentFirst(inside, "", "");
        assert Print(v) + "" + "" == Print(v) && " " + Stripped("") == " ";
      case CharThen(c, rest) =>
        BareFirst(c, Print(rest));
        StripOfPrinted(rest);
      case StringThen(text, rest) =>
        StringFirst(text, "\"", Print(rest));
        StripOfPrinted(rest);
      case CommentThen(inside, rest) =>
        CommentFirst(inside, ")", Print(rest));
        StripOfPrinted(rest);
    }
  }
}
