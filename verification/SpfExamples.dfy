/**
 Concrete policies and name servers: each of them is one that a check receives and does what `SpfBudget` and
 `SpfMeaning` say of such a policy.
 */
module SpfExamples {
  import opened SpfBudget
  import opened SpfCheck
  import opened SpfMeaning
  import opened SpfRecord
  import opened Text

  // ---- Written policies ----

  // A policy as it is written, the words behind the version with one space between them.
  function Written(version: string, words: seq<string>): string {
    Join([version] + words, " ")
  }

  // Such a TXT text is selected, parses as valid, and gives the terms that the words are.
  lemma WrittenIsPublished(version: string, words: seq<string>)
    requires version == "v=spf1" && words != []
             && forall i :: 0 <= i < |words| ==> words[i] != [] && IsWord(words[i], IsSpace)
    ensures Parsed(Written(version, words)) == Record(true, Some(version), ParseTerms(words))
    ensures PolicyOf([Written(version, words)]) == Published(ParseTerms(words))
  {
    var toks := [version] + words;
    assert IsWord(version, IsSpace);
    ParseOfPrinted(toks);
    assert toks[1..] == words;
    VersionLowers(version);
    JoinFirst(version, words);
    SpfTextStarts(version, " " + Join(words, " "));
    PolicyOfOne(Written(version, words));
  }

  lemma VersionLowers(version: string)
    requires version == "v=spf1"
    ensures Lower(version) == VERSION
  {
  }

  lemma PolicyOfOne(text: string)
    requires IsSpfText(text) && Parsed(text).valid
    ensures PolicyOf([text]) == Published(Parsed(text).terms)
  {
    assert [text][1..] == [];
    assert SpfTexts([text]) == [text] + [] == [text];
  }

  lemma JoinFirst(first: string, rest: seq<string>)
    requires rest != []
    ensures Join([first] + rest, " ") == first + (" " + Join(rest, " "))
  {
    assert ([first] + rest)[1..] == rest;
  }

  lemma SpfTextStarts(version: string, rest: string)
    requires version == "v=spf1" && rest != [] && rest[0] == ' '
    ensures IsSpfText(version + rest)
  {
    FirstTokenIs(version, rest);
    VersionLowers(version);
  }

  lemma {:induction false} FirstTokenIs(w: string, rest: string)
    requires (forall i :: 0 <= i < |w| ==> !IsWsp(w[i])) && rest != [] && IsWsp(rest[0])
    ensures FirstToken(w + rest) == w
  {
    if w == [] {
      assert w + rest == rest;
    } else {
      FirstTokenIs(w[1..], rest);
      assert (w + rest)[1..] == w[1..] + rest;
      assert w == [w[0]] + w[1..];
    }
  }

  // A mechanism written as its name, ":" and an argument.
  lemma MechanismParses(qualifier: Qualifier, name: string, argument: string, raw: string)
    requires Lower(name) == name && ':' !in name && '/' !in name && '=' !in name && '=' !in argument
    ensures ParseBody(qualifier, name + (":" + argument), raw)
            == SpfTerm(qualifier, name, Some(":" + argument), false, raw)
  {
    BodyReads(qualifier, name + (":" + argument), raw, SpfTerm(qualifier, name, Some(":" + argument), false, raw));
  }

  // A DNS that answers every TXT query with the one text and knows no address and no mail host.
  function Publishing(text: string): Dns {
    Dns((n, name) => Answered([text]), (n, name, rr) => Answered([]), (n, name) => Answered([]))
  }

  // ---- Ten "mx" of ten hosts ----

  function FanOutDns(text: string): Dns {
    Publishing(text).(mx := (n, name) => Answered(Repeat("h", 10)))
  }

  lemma AllMx(n: nat)
    ensures ParseTerms(Repeat("mx", n)) == Repeat(MX_TERM, n)
  {
    assert Lower("mx") == "mx";
    assert ParseTerm("mx") == MX_TERM;
  }

  lemma FanOutOf(text: string)
    requires PolicyOf([text]) == Published(Repeat(MX_TERM, 10))
    ensures FansOut(FanOutDns(text))
  {
  }

  // There is a DNS that takes the whole bound of 111 queries.
  lemma FanOutExists()
    ensures FansOut(FanOutDns(Written("v=spf1", Repeat("mx", 10))))
  {
    forall i | 0 <= i < 10 ensures IsWord(Repeat("mx", 10)[i], IsSpace) {
      assert Repeat("mx", 10)[i] == "mx";
    }
    WrittenIsPublished("v=spf1", Repeat("mx", 10));
    AllMx(10);
    FanOutOf(Written("v=spf1", Repeat("mx", 10)));
  }

  // ---- A policy that includes itself ----

  // A domain name that a policy can name as it is.
  predicate Nameable(domain: string) {
    IsWord(domain, IsSpace) && '=' !in domain && '%' !in domain
  }

  function IncludeText(domain: string): string {
    Written("v=spf1", ["include" + (":" + domain)])
  }

  lemma IncludeIsWord(name: string, domain: string)
    requires name == "include" && IsWord(domain, IsSpace)
    ensures IsWord(name + (":" + domain), IsSpace)
  {
    var w := name + (":" + domain);
    forall i | 0 <= i < |w| ensures !IsSpace(w[i]) {
      assert i > 7 ==> w[i] == domain[i - 8];
    }
  }

  lemma IncludeParses(name: string, domain: string, tok: string)
    requires name == "include" && '=' !in domain && tok == name + (":" + domain)
    ensures ParseTerms([tok]) == [SpfTerm(Plus, name, Some(":" + domain), false, tok)]
  {
    assert Lower(name) == name;
    MechanismParses(Plus, name, domain, tok);
    PlainTerm(tok);
  }

  // A word without a qualifier has the default one.
  lemma PlainTerm(tok: string)
    requires tok != [] && tok[0] == 'i'
    ensures ParseTerms([tok]) == [ParseBody(Plus, tok, tok)]
  {
    UnqualifiedTerm(tok);
  }

  lemma UnqualifiedTerm(tok: string)
    requires tok != [] && QualifierOf(tok[0]).None?
    ensures ParseTerm(tok) == ParseBody(Plus, tok, tok)
  {
  }

  lemma IncludesIt(name: string, domain: string, tok: string, text: string, platform: Platform, ip: string)
    requires name == "include" && '%' !in domain
    requires PolicyOf([text]) == Published([SpfTerm(Plus, name, Some(":" + domain), false, tok)])
    ensures IncludesItself(Env(Publishing(text), platform, ip), domain, [text],
                           [SpfTerm(Plus, name, Some(":" + domain), false, tok)])
  {
    var t := SpfTerm(Plus, name, Some(":" + domain), false, tok);
    assert (":" + domain)[1..] == domain;
    assert IncludeOf(t, domain);
    var env := Env(Publishing(text), platform, ip);
    forall n: nat ensures FindsItself(env, n, domain, [text], [t]) {
    }
  }

  // Every name that can be written has a DNS under which its policy includes itself.
  lemma CycleExists(domain: string, platform: Platform, ip: string)
    requires Nameable(domain)
    ensures exists terms ::
              IncludesItself(Env(Publishing(IncludeText(domain)), platform, ip), domain, [IncludeText(domain)], terms)
  {
    var name := "include";
    var tok := name + (":" + domain);
    IncludeIsWord(name, domain);
    WrittenIsPublished("v=spf1", [tok]);
    IncludeParses(name, domain, tok);
    IncludesIt(name, domain, tok, IncludeText(domain), platform, ip);
  }

  // ---- An "all" with a macro ----

  function MacroAllText(): string {
    Written("v=spf1", ["-all:%"])
  }

  lemma MacroAllParses()
    ensures Parsed(MacroAllText()) == Record(true, Some("v=spf1"), [SpfTerm(Minus, "all", Some(":%"), false, "-all:%")])
    ensures PolicyOf([MacroAllText()]) == Published([SpfTerm(Minus, "all", Some(":%"), false, "-all:%")])
  {
    MacroAllTerm("-all:%", "all", "%");
    assert ":" + "%" == ":%";
    WrittenIsPublished("v=spf1", ["-all:%"]);
  }

  lemma MacroAllTerm(tok: string, name: string, argument: string)
    requires tok == "-all:%" && name == "all" && argument == "%"
    ensures IsWord(tok, IsSpace) && ParseTerms([tok]) == [SpfTerm(Minus, name, Some(":" + argument), false, tok)]
  {
    MacroAllWord(tok, name, argument);
    MechanismParses(Minus, name, argument, tok);
    MinusTerm(tok);
  }

  lemma MacroAllWord(tok: string, name: string, argument: string)
    requires tok == "-all:%" && name == "all" && argument == "%"
    ensures IsWord(tok, IsSpace) && tok[0] == '-' && tok[1..] == name + (":" + argument)
    ensures Lower(name) == name && ':' !in name && '/' !in name && '=' !in name && '=' !in argument
  {
  }

  lemma MinusTerm(tok: string)
    requires tok != [] && tok[0] == '-'
    ensures ParseTerms([tok]) == [ParseBody(Minus, tok[1..], tok)]
  {
    assert ParseTerm(tok) == ParseBody(Minus, tok[1..], tok);
  }

  lemma OnlyMacroAll(env: Env, domain: string, record: Record, matches: SpfTerm -> bool, w: Work, depth: nat)
    requires depth <= MAX_DNS_MECHANISMS && record.valid
    requires record.terms == [SpfTerm(Minus, "all", Some(":%"), false, "-all:%")]
    requires env.dns.txt(w.asked, domain).Answered?
    requires PolicyOf(env.dns.txt(w.asked, domain).records) == Published(record.terms)
    ensures EvalDomain(env, domain, w, depth).0 == Neutral && Evaluated(record, matches) == Fail
  {
    var t, w1 := record.terms[0], AfterTxt(w, depth);
    PassedOver(env, t, domain, w1, depth);
    OnlyTerm(env, t, domain, w1, depth);
    assert record.terms[..0] == [];
    assert RedirectOf(record.terms[..0]) == None;
    PublishedPolicy(env, domain, env.dns.txt(w.asked, domain).records, Published(record.terms), w, depth);
    ResultFirst(record.terms, matches);
  }

  lemma PassedOver(env: Env, t: SpfTerm, domain: string, w: Work, depth: nat)
    requires depth <= MAX_DNS_MECHANISMS && t.value == Some(":%")
    ensures MatchTerm(env, t, domain, w, depth) == (NotMatched, w)
  {
    var v := ":%";
    assert v[0] == ':' && v[1] == '%' && v[1..][0] == '%';
    assert '%' in v[1..];
  }

  lemma OnlyTerm(env: Env, t: SpfTerm, domain: string, w: Work, depth: nat)
    requires depth <= MAX_DNS_MECHANISMS && !t.isModifier && MatchTerm(env, t, domain, w, depth) == (NotMatched, w)
    ensures EvalTerms(env, [t], domain, w, depth) == (None, w)
  {
    assert [t][1..] == [];
  }

  // On the TXT text "v=spf1 -all:%" the two evaluators disagree: the recursive one falls through to neutral
  // where the record says fail.
  lemma MacroAllDisagrees(domain: string, platform: Platform, ip: string, matches: SpfTerm -> bool, w: Work, depth: nat)
    requires depth <= MAX_DNS_MECHANISMS
    ensures Steady(Publishing(MacroAllText()))
    ensures Parsed(MacroAllText()).valid && PolicyOf([MacroAllText()]) == Published(Parsed(MacroAllText()).terms)
    ensures EvalDomain(Env(Publishing(MacroAllText()), platform, ip), domain, w, depth).0 == Neutral
    ensures Evaluated(Parsed(MacroAllText()), matches) == Fail
  {
    MacroAllParses();
    OnlyMacroAll(Env(Publishing(MacroAllText()), platform, ip), domain, Parsed(MacroAllText()), matches, w, depth);
  }
}
