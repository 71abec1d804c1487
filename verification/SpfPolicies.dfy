/**
 What policies come to, from the TXT text to the answer: each mechanism and each qualifier as it is written,
 and what it makes of the answers of the DNS.
 */
module SpfPolicies {
  import opened Cidr
  import opened SpfCheck
  import opened SpfExamples
  import opened SpfPrefix
  import opened SpfRecord
  import opened Text

  // The next TXT query for the domain is answered by the policy of these words, and by nothing else.
  ghost predicate Publishes(env: Env, domain: string, w: Work, words: seq<string>) {
    && words != [] && (forall i :: 0 <= i < |words| ==> IsWord(words[i], IsSpace))
    && env.dns.txt(w.asked, domain) == Answered([Written("v=spf1", words)])
  }

  lemma PolicyIsWalked(env: Env, domain: string, w: Work, depth: nat, words: seq<string>)
    requires depth <= MAX_DNS_MECHANISMS && Publishes(env, domain, w, words)
    ensures forall i :: 0 <= i < |words| ==> words[i] != ""
    ensures EvalDomain(env, domain, w, depth)
            == EvalPolicy(env, Published(ParseTerms(words)), domain, AfterTxt(w, depth), depth)
  {
    WrittenIsPublished("v=spf1", words);
    PublishedPolicy(env, domain, [Written("v=spf1", words)], Published(ParseTerms(words)), w, depth);
  }

  // ---- Words ----

  // The names of the mechanisms, as far as parsing them goes.
  predicate IsName(name: string) {
    IsWord(name, IsSpace) && Lower(name) == name && ':' !in name && '/' !in name && '=' !in name
      && QualifierOf(name[0]).None?
  }

  // Lower-case letters and digits.
  predicate IsSmall(name: string) {
    name != "" && forall i :: 0 <= i < |name| ==> 'a' <= name[i] <= 'z' || IsDigit(name[i])
  }

  lemma SmallIsName(name: string)
    requires IsSmall(name)
    ensures IsName(name)
  {
    assert Lower(name) == name;
  }

  // The result that a qualifier asks for where its mechanism matches.
  predicate AsksFor(qualifier: string, r: SpfResult) {
    || (qualifier in {"", "+"} && r == Pass) || (qualifier == "-" && r == Fail)
    || (qualifier == "~" && r == SoftFail) || (qualifier == "?" && r == Neutral)
  }

  // A mechanism without argument, or with one that begins with ":" or "/".
  predicate IsArgument(argument: string) {
    '=' !in argument && (argument != "" ==> argument[0] in {':', '/'})
  }

  function TermOf(q: Qualifier, name: string, argument: string, raw: string): SpfTerm {
    SpfTerm(q, name, if argument == "" then None else Some(argument), false, raw)
  }

  predicate IsQualifier(qualifier: string, q: Qualifier) {
    (qualifier == "" && q == Plus) || (|qualifier| == 1 && QualifierOf(qualifier[0]) == Some(q))
  }

  lemma AskedQualifier(qualifier: string, r: SpfResult) returns (q: Qualifier)
    requires AsksFor(qualifier, r)
    ensures IsQualifier(qualifier, q) && QualifierResult(q) == r
  {
    q := if r == Pass then Plus else if r == Fail then Minus else if r == SoftFail then Tilde else Question;
  }

  lemma WordIsWritten(qualifier: string, body: string, word: string, t: SpfTerm)
    requires word == qualifier + body && body != "" && QualifierOf(body[0]).None?
    requires t.raw == word && Shaped(t) && BodyOf(t, body)
    requires IsQualifier(qualifier, t.qualifier)
    ensures Writes(word, t)
  {
    if qualifier == "" {
      assert word == body;
    } else {
      assert word[1..] == body;
    }
  }

  lemma BodyIsPrinted(q: Qualifier, name: string, argument: string, raw: string)
    requires IsName(name) && IsArgument(argument)
    ensures var body := name + argument;
            body != "" && QualifierOf(body[0]).None? && BodyOf(TermOf(q, name, argument, raw), body)
    ensures Shaped(TermOf(q, name, argument, raw))
  {
    var body := name + argument;
    assert body[..|name|] == name && body[|name|..] == argument && body[0] == name[0];
  }

  lemma WordParses(qualifier: string, name: string, argument: string, r: SpfResult) returns (q: Qualifier)
    requires AsksFor(qualifier, r) && IsName(name) && IsArgument(argument)
    ensures var word := qualifier + (name + argument);
            word != "" && ParseTerm(word) == TermOf(q, name, argument, word) && QualifierResult(q) == r
  {
    var word := qualifier + (name + argument);
    q := AskedQualifier(qualifier, r);
    BodyIsPrinted(q, name, argument, word);
    WordIsWritten(qualifier, name + argument, word, TermOf(q, name, argument, word));
    ParsesToWritten(word, TermOf(q, name, argument, word));
  }

  lemma PlainWordParses(name: string, argument: string)
    requires IsName(name) && IsArgument(argument)
    ensures var word := name + argument; word != "" && ParseTerm(word) == TermOf(Plus, name, argument, word)
  {
    var _ := WordParses("", name, argument, Pass);
    assert "" + (name + argument) == name + argument;
  }

  // ---- "all", and the qualifiers ----

  predicate IsAll(t: SpfTerm) {
    t.mechanism == "all" && t.value == None && !t.isModifier
  }

  lemma AllMatches(env: Env, t: SpfTerm, domain: string, w: Work, depth: nat)
    requires depth <= MAX_DNS_MECHANISMS && IsAll(t)
    ensures MatchTerm(env, t, domain, w, depth) == (Matched, w)
  {
  }

  lemma AllParses(qualifier: string, word: string, r: SpfResult) returns (t: SpfTerm)
    requires AsksFor(qualifier, r) && word == qualifier + "all"
    ensures word != "" && ParseTerm(word) == t && IsAll(t) && QualifierResult(t.qualifier) == r
  {
    var name := "all";
    SmallIsName(name);
    var _ := WordParses(qualifier, name, "", r);
    assert name + "" == name;
    t := ParseTerm(word);
  }

  lemma LastDecides(env: Env, u: SpfTerm, domain: string, w: Work, depth: nat)
    requires depth <= MAX_DNS_MECHANISMS && IsAll(u)
    ensures EvalTerms(env, [u], domain, w, depth).0 == Some(QualifierResult(u.qualifier))
  {
    AllMatches(env, u, domain, w, depth);
  }

  // A policy of one "all" answers what its qualifier asks for; "+" can be left out.
  lemma AllAnswers(env: Env, domain: string, w: Work, depth: nat, qualifier: string, r: SpfResult)
    requires depth <= MAX_DNS_MECHANISMS && AsksFor(qualifier, r)
    requires Publishes(env, domain, w, [qualifier + "all"])
    ensures EvalDomain(env, domain, w, depth).0 == r
  {
    var word := qualifier + "all";
    var t := AllParses(qualifier, word, r);
    PolicyIsWalked(env, domain, w, depth, [word]);
    assert ParseTerms([word]) == [t];
    LastDecides(env, t, domain, AfterTxt(w, depth), depth);
  }

  // ---- One mechanism, and "-all" behind it ----

  // What a mechanism without qualifier comes to in front of "-all".
  function Verdict(o: Outcome): SpfResult {
    match o
    case Matched => Pass
    case NotMatched => Fail
    case Error => PermError
    case TempFailure => TempError
  }

  lemma SecondDecides(env: Env, t: SpfTerm, u: SpfTerm, domain: string, w: Work, depth: nat)
    requires depth <= MAX_DNS_MECHANISMS && !t.isModifier && QualifierResult(t.qualifier) == Pass
    requires IsAll(u) && QualifierResult(u.qualifier) == Fail
    ensures EvalTerms(env, [t, u], domain, w, depth).0 == Some(Verdict(MatchTerm(env, t, domain, w, depth).0))
  {
    assert [t, u][1..] == [u];
    LastDecides(env, u, domain, MatchTerm(env, t, domain, w, depth).1, depth);
  }

  lemma PolicyIsAnswer(env: Env, domain: string, w: Work, depth: nat, words: seq<string>, terms: seq<SpfTerm>,
      r: SpfResult)
    requires depth <= MAX_DNS_MECHANISMS && Publishes(env, domain, w, words)
    requires (forall i :: 0 <= i < |words| ==> words[i] != "") && ParseTerms(words) == terms
    requires EvalPolicy(env, Published(terms), domain, AfterTxt(w, depth), depth).0 == r
    ensures EvalDomain(env, domain, w, depth).0 == r
  {
    PolicyIsWalked(env, domain, w, depth, words);
  }

  lemma FoundIsAnswer(env: Env, domain: string, w: Work, depth: nat, words: seq<string>, terms: seq<SpfTerm>,
      r: SpfResult)
    requires depth <= MAX_DNS_MECHANISMS && Publishes(env, domain, w, words)
    requires (forall i :: 0 <= i < |words| ==> words[i] != "") && ParseTerms(words) == terms
    requires EvalTerms(env, terms, domain, AfterTxt(w, depth), depth).0 == Some(r)
    ensures EvalDomain(env, domain, w, depth).0 == r
  {
    PolicyIsAnswer(env, domain, w, depth, words, terms, r);
  }

  lemma GuardedParses(word: string, fail: string, t: SpfTerm) returns (u: SpfTerm)
    requires word != "" && ParseTerm(word) == t && fail == "-all"
    ensures IsAll(u) && QualifierResult(u.qualifier) == Fail && ParseTerms([word, fail]) == [t, u]
  {
    u := AllParses("-", fail, Fail);
  }

  lemma GuardedIsWalked(env: Env, domain: string, w: Work, depth: nat, word: string, fail: string, t: SpfTerm)
    requires depth <= MAX_DNS_MECHANISMS && fail == "-all" && word != "" && ParseTerm(word) == t
    requires !t.isModifier && t.qualifier == Plus && Publishes(env, domain, w, [word, fail])
    ensures EvalDomain(env, domain, w, depth).0 == Verdict(MatchTerm(env, t, domain, AfterTxt(w, depth), depth).0)
  {
    var u := GuardedParses(word, fail, t);
    var w1 := AfterTxt(w, depth);
    SecondDecides(env, t, u, domain, w1, depth);
    FoundIsAnswer(env, domain, w, depth, [word, fail], [t, u], Verdict(MatchTerm(env, t, domain, w1, depth).0));
  }

  // The policy "v=spf1 <name><argument> -all".
  ghost predicate Guards(env: Env, domain: string, w: Work, name: string, argument: string) {
    Publishes(env, domain, w, [name + argument, "-all"])
  }

  lemma GuardedAnswers(env: Env, domain: string, w: Work, depth: nat, name: string, argument: string)
    requires depth <= MAX_DNS_MECHANISMS && IsName(name) && IsArgument(argument)
    requires Guards(env, domain, w, name, argument)
    ensures var t := TermOf(Plus, name, argument, name + argument);
            EvalDomain(env, domain, w, depth).0 == Verdict(MatchTerm(env, t, domain, AfterTxt(w, depth), depth).0)
  {
    PlainWordParses(name, argument);
    GuardedIsWalked(env, domain, w, depth, name + argument, "-all",
                    TermOf(Plus, name, argument, name + argument));
  }

  // The work spent when a mechanism behind the TXT query is granted its lookup.
  function Granted(w: Work, depth: nat): (granted: Work)
    ensures granted.asked == w.asked + 1 && granted.voids == w.voids
  {
    AfterTxt(w, depth).(lookups := w.lookups + 1)
  }

  lemma GrantIsUsed(env: Env, t: SpfTerm, value: string, domain: string, w: Work, depth: nat)
    requires depth <= MAX_DNS_MECHANISMS && w.lookups < MAX_DNS_MECHANISMS
    requires t.mechanism in {"a", "mx", "exists", "include"} && ValueOf(t) == value && '%' !in value
    ensures MatchTerm(env, t, domain, w, depth)
            == MatchGranted(env, t.mechanism, value, domain, w.(lookups := w.lookups + 1), depth)
  {
  }

  lemma GrantedAnswers(env: Env, domain: string, w: Work, depth: nat, name: string, argument: string, value: string)
    requires depth <= MAX_DNS_MECHANISMS && w.lookups < MAX_DNS_MECHANISMS
    requires IsName(name) && name in {"a", "mx", "exists", "include"} && IsArgument(argument) && '%' !in value
    requires ValueOf(TermOf(Plus, name, argument, name + argument)) == value
    requires Guards(env, domain, w, name, argument)
    ensures EvalDomain(env, domain, w, depth).0
            == Verdict(MatchGranted(env, name, value, domain, Granted(w, depth), depth).0)
  {
    GrantIsUsed(env, TermOf(Plus, name, argument, name + argument), value, domain, AfterTxt(w, depth), depth);
    GuardedAnswers(env, domain, w, depth, name, argument);
  }

  // A text without the characters that end a name or stand for a macro.
  predicate IsPlain(text: string) {
    '=' !in text && '%' !in text
  }

  // Dropping the colon of an argument leaves the value.
  lemma ColonIsDropped(q: Qualifier, name: string, value: string, colon: string, raw: string)
    requires IsPlain(value) && (colon == ":" || (colon == "" && (value != "" ==> value[0] == '/')))
    ensures IsArgument(colon + value) && ValueOf(TermOf(q, name, colon + value, raw)) == value
  {
    if colon == "" {
      assert colon + value == value;
    } else {
      assert (colon + value)[1..] == value;
    }
  }

  // ---- include and redirect ----

  // The table of section 5.2 of RFC 7208.
  predicate IncludeTable(sub: SpfResult, r: SpfResult) {
    || (sub == Pass && r == Pass)
    || (sub in {Fail, SoftFail, Neutral} && r == Fail)
    || (sub == TempError && r == TempError)
    || (sub in {PermError, NoPolicy} && r == PermError)
  }

  lemma IncludeAnswers(env: Env, domain: string, w: Work, depth: nat, target: string)
    requires depth <= MAX_DNS_MECHANISMS && w.lookups < MAX_DNS_MECHANISMS && IsPlain(target)
    requires Guards(env, domain, w, "include", ":" + target)
    ensures IncludeTable(EvalDomain(env, target, Granted(w, depth), depth + 1).0, EvalDomain(env, domain, w, depth).0)
  {
    var name := "include";
    ColonIsDropped(Plus, name, target, ":", name + (":" + target));
    SmallIsName(name);
    GrantedAnswers(env, domain, w, depth, name, ":" + target, target);
    IncludeIsEvaluated(env, name, target, domain, Granted(w, depth), depth);
  }

  lemma IncludeIsEvaluated(env: Env, name: string, target: string, domain: string, w: Work, depth: nat)
    requires depth <= MAX_DNS_MECHANISMS && name == "include"
    ensures IncludeTable(EvalDomain(env, target, w, depth + 1).0,
                         Verdict(MatchGranted(env, name, target, domain, w, depth).0))
  {
  }

  function RedirectWords(targets: seq<string>): (words: seq<string>)
    ensures |words| == |targets| && forall i :: 0 <= i < |words| ==> words[i] == "redirect=" + targets[i]
  {
    seq(|targets|, i requires 0 <= i < |targets| => "redirect=" + targets[i])
  }

  lemma RedirectParses(name: string, target: string, word: string)
    requires name == "redirect" && word == name + ("=" + target)
    ensures word != "" && ParseTerm(word) == SpfTerm(Plus, name, Some(target), true, word)
  {
    SmallIsName(name);
    assert word[..|name|] == name && word[|name|..] == "=" + target && word[0] == name[0];
    assert Writes(word, SpfTerm(Plus, name, Some(target), true, word));
    ParsesToWritten(word, SpfTerm(Plus, name, Some(target), true, word));
  }

  lemma {:induction false} ModifiersDecideNothing(env: Env, terms: seq<SpfTerm>, domain: string, w: Work, depth: nat)
    requires depth <= MAX_DNS_MECHANISMS && forall i :: 0 <= i < |terms| ==> terms[i].isModifier
    ensures EvalTerms(env, terms, domain, w, depth) == (None, w)
  {
    if terms != [] {
      ModifiersDecideNothing(env, terms[1..], domain, w, depth);
    }
  }

  // The last of any number of redirects is followed; its answer is the answer, or a permerror where the target
  // publishes nothing.
  lemma RedirectAnswers(env: Env, domain: string, w: Work, depth: nat, targets: seq<string>)
    requires depth <= MAX_DNS_MECHANISMS && w.lookups < MAX_DNS_MECHANISMS && targets != []
    requires Publishes(env, domain, w, RedirectWords(targets))
    ensures var sub := EvalDomain(env, targets[|targets| - 1], Granted(w, depth), depth + 1).0;
            EvalDomain(env, domain, w, depth).0 == if sub == NoPolicy then PermError else sub
  {
    var words, target := RedirectWords(targets), targets[|targets| - 1];
    var sub := EvalDomain(env, target, Granted(w, depth), depth + 1).0;
    RedirectsParse(words, targets);
    RedirectIsFollowed(env, ParseTerms(words), domain, AfterTxt(w, depth), Granted(w, depth), depth, target);
    PolicyIsAnswer(env, domain, w, depth, words, ParseTerms(words), if sub == NoPolicy then PermError else sub);
  }

  lemma RedirectsParse(words: seq<string>, targets: seq<string>)
    requires words == RedirectWords(targets)
    ensures forall i :: 0 <= i < |words| ==> words[i] != "" && IsRedirect(ParseTerms(words)[i], targets[i])
  {
    forall i | 0 <= i < |words| ensures words[i] != "" && IsRedirect(ParseTerm(words[i]), targets[i]) {
      var name := "redirect";
      assert words[i] == name + ("=" + targets[i]);
      RedirectParses(name, targets[i], words[i]);
    }
  }

  predicate IsRedirect(t: SpfTerm, target: string) {
    t.isModifier && t.mechanism == "redirect" && t.value == Some(target)
  }

  lemma RedirectIsFollowed(env: Env, terms: seq<SpfTerm>, domain: string, w: Work, w1: Work, depth: nat, target: string)
    requires w1 == w.(lookups := w.lookups + 1) && depth <= MAX_DNS_MECHANISMS && w.lookups < MAX_DNS_MECHANISMS
    requires terms != [] && IsRedirect(terms[|terms| - 1], target)
    requires forall i :: 0 <= i < |terms| ==> terms[i].isModifier
    ensures var sub := EvalDomain(env, target, w1, depth + 1).0;
            EvalPolicy(env, Published(terms), domain, w, depth).0 == if sub == NoPolicy then PermError else sub
  {
    ModifiersDecideNothing(env, terms, domain, w, depth);
    RedirectGranted(env, target, w, depth);
  }

  // ---- a, mx, exists and the written networks ----

  // The argument with this domain and these prefix lengths.
  function DualArgument(target: string, m: Option<nat>, n: Option<nat>): string {
    (if target == "" then "" else ":") + PrintDual(target, DigitsOf(m), DigitsOf(n))
  }

  predicate IsTarget(target: string) {
    IsPlain(target) && '/' !in target
  }

  lemma LengthIsPlain(slashes: string, m: Option<nat>)
    requires slashes in {"/", "//"}
    ensures var length := Behind(slashes, DigitsOf(m)); IsPlain(length) && (length != "" ==> length[0] == '/')
  {
    LengthReads(m);
  }

  lemma ArgumentReads(q: Qualifier, name: string, target: string, m: Option<nat>, n: Option<nat>, raw: string)
    requires IsTarget(target)
    ensures var argument := DualArgument(target, m, n);
            && IsArgument(argument) && '%' !in PrintDual(target, DigitsOf(m), DigitsOf(n))
            && ValueOf(TermOf(q, name, argument, raw)) == PrintDual(target, DigitsOf(m), DigitsOf(n))
  {
    LengthIsPlain("/", m);
    LengthIsPlain("//", n);
    ColonIsDropped(q, name, PrintDual(target, DigitsOf(m), DigitsOf(n)), if target == "" then "" else ":", raw);
  }

  lemma AddressesAreAsked(env: Env, domain: string, w: Work, depth: nat, name: string, argument: string, value: string)
    requires depth <= MAX_DNS_MECHANISMS && w.lookups < MAX_DNS_MECHANISMS && name == "a"
    requires IsArgument(argument) && '%' !in value && Guards(env, domain, w, name, argument)
    requires ValueOf(TermOf(Plus, name, argument, name + argument)) == value
    ensures EvalDomain(env, domain, w, depth).0 == Verdict(MatchA(env, value, domain, Granted(w, depth)).0)
  {
    SmallIsName(name);
    GrantedAnswers(env, domain, w, depth, name, argument, value);
  }

  lemma MailHostsAreAsked(env: Env, domain: string, w: Work, depth: nat, name: string, argument: string, value: string)
    requires depth <= MAX_DNS_MECHANISMS && w.lookups < MAX_DNS_MECHANISMS && name == "mx"
    requires IsArgument(argument) && '%' !in value && Guards(env, domain, w, name, argument)
    requires ValueOf(TermOf(Plus, name, argument, name + argument)) == value
    ensures EvalDomain(env, domain, w, depth).0 == Verdict(MatchMx(env, value, domain, Granted(w, depth)).0)
  {
    SmallIsName(name);
    GrantedAnswers(env, domain, w, depth, name, argument, value);
  }

  // "a" in all its forms: pass exactly if the client shares a block with an answered address.
  lemma AddressPolicyAnswers(env: Env, domain: string, w: Work, depth: nat, name: string, argument: string,
      target: string, m: Option<nat>, n: Option<nat>, addresses: seq<string>)
    requires depth <= MAX_DNS_MECHANISMS && w.lookups < MAX_DNS_MECHANISMS && IsTarget(target)
    requires name == "a" && argument == DualArgument(target, m, n) && Guards(env, domain, w, name, argument)
    requires env.dns.a(w.asked + 1, if target == "" then domain else target, Family(env)) == Answered(addresses)
    requires AddressTexts(addresses) && (addresses == [] ==> w.voids < 2)
    ensures EvalDomain(env, domain, w, depth).0 == if SomeShares(env, addresses, For(env, m, n)) then Pass else Fail
  {
    var value := PrintDual(target, DigitsOf(m), DigitsOf(n));
    AddressMechanismMatches(env, target, m, n, domain, Granted(w, depth), addresses);
    ArgumentReads(Plus, name, target, m, n, name + argument);
    AddressesAreAsked(env, domain, w, depth, name, argument, value);
  }

  // "mx" in all its forms: pass exactly if the client shares a block with an address of some mail host.
  lemma MailHostPolicyAnswers(env: Env, domain: string, w: Work, depth: nat, name: string, argument: string,
      target: string, m: Option<nat>, n: Option<nat>, hosts: seq<string>, lists: seq<seq<string>>)
    requires depth <= MAX_DNS_MECHANISMS && w.lookups < MAX_DNS_MECHANISMS && IsTarget(target)
    requires name == "mx" && argument == DualArgument(target, m, n) && Guards(env, domain, w, name, argument)
    requires env.dns.mx(w.asked + 1, if target == "" then domain else target) == Answered(hosts)
    requires |hosts| <= 10 && (hosts == [] ==> w.voids < 2) && HostsAnswer(env, hosts, lists, w.asked + 2)
    ensures EvalDomain(env, domain, w, depth).0 == if SomeListShares(env, lists, For(env, m, n)) then Pass else Fail
  {
    var value := PrintDual(target, DigitsOf(m), DigitsOf(n));
    MailHostMechanismMatches(env, target, m, n, domain, Granted(w, depth), hosts, lists);
    ArgumentReads(Plus, name, target, m, n, name + argument);
    MailHostsAreAsked(env, domain, w, depth, name, argument, value);
  }

  // "exists": pass exactly if the name has an A record, whatever the client's family.
  lemma ExistsAnswers(env: Env, domain: string, w: Work, depth: nat, target: string, addresses: seq<string>)
    requires depth <= MAX_DNS_MECHANISMS && w.lookups < MAX_DNS_MECHANISMS && IsPlain(target)
    requires Guards(env, domain, w, "exists", ":" + target)
    requires env.dns.a(w.asked + 1, target, A) == Answered(addresses) && (addresses == [] ==> w.voids < 2)
    ensures EvalDomain(env, domain, w, depth).0 == if addresses != [] then Pass else Fail
  {
    var name := "exists";
    ColonIsDropped(Plus, name, target, ":", name + (":" + target));
    SmallIsName(name);
    GrantedAnswers(env, domain, w, depth, name, ":" + target, target);
  }

  // "ip4" and "ip6": pass exactly if the client lies in the written network.
  lemma NetworkAnswers(env: Env, domain: string, w: Work, depth: nat, name: string, address: string, length: string,
      prefix: nat)
    requires depth <= MAX_DNS_MECHANISMS && name in {"ip4", "ip6"}
    requires IsTarget(address) && IsPlain(length) && env.platform.number(length) == Some(prefix)
    requires Guards(env, domain, w, name, ":" + (address + ("/" + length)))
    ensures EvalDomain(env, domain, w, depth).0 == if SharesBlock(env, address, Some(prefix)) then Pass else Fail
  {
    var cidr := address + ("/" + length);
    NetworkMatches(env, address, length, prefix);
    WrittenNetworkAnswers(env, domain, w, depth, name, cidr);
  }

  // And without a prefix length exactly if it is that address.
  lemma AddressAnswers(env: Env, domain: string, w: Work, depth: nat, name: string, address: string)
    requires depth <= MAX_DNS_MECHANISMS && name in {"ip4", "ip6"} && IsTarget(address)
    requires Guards(env, domain, w, name, ":" + address)
    ensures EvalDomain(env, domain, w, depth).0 == if SharesBlock(env, address, None) then Pass else Fail
  {
    NetworkIsBlock(env, address, None);
    WrittenNetworkAnswers(env, domain, w, depth, name, address);
  }

  lemma WrittenNetworkAnswers(env: Env, domain: string, w: Work, depth: nat, name: string, cidr: string)
    requires depth <= MAX_DNS_MECHANISMS && name in {"ip4", "ip6"} && IsPlain(cidr)
    requires Guards(env, domain, w, name, ":" + cidr)
    ensures EvalDomain(env, domain, w, depth).0 == if CidrMatch(env, env.ip, cidr) then Pass else Fail
  {
    var argument := ":" + cidr;
    SmallIsName(name);
    GuardedAnswers(env, domain, w, depth, name, argument);
    assert argument[1..] == cidr;
  }

  // ---- Failures ----

  // The eleventh lookup is refused.
  lemma LookupsRunOut(env: Env, domain: string, w: Work, depth: nat, name: string, argument: string, value: string)
    requires depth <= MAX_DNS_MECHANISMS && w.lookups >= 10
    requires IsName(name) && name in {"a", "mx", "exists", "include"} && IsArgument(argument) && '%' !in value
    requires ValueOf(TermOf(Plus, name, argument, name + argument)) == value
    requires Guards(env, domain, w, name, argument)
    ensures EvalDomain(env, domain, w, depth).0 == PermError
  {
    GuardedAnswers(env, domain, w, depth, name, argument);
  }

  lemma AddressesFail(env: Env, value: string, d: DualCidr, domain: string, w: Work, answer: Answer)
    requires SplitDualCidr(value) == d
    requires env.dns.a(w.asked, if d.domain == "" then domain else d.domain, Family(env)) == answer
    requires answer.Failed? || (answer.records == [] && w.voids >= 2)
    ensures MatchA(env, value, domain, w).0 == if answer.Failed? then TempFailure else Error
  {
  }

  lemma AddressValueFails(env: Env, domain: string, w: Work, depth: nat, name: string, argument: string, value: string,
      d: DualCidr, answer: Answer)
    requires depth <= MAX_DNS_MECHANISMS && w.lookups < MAX_DNS_MECHANISMS && name == "a" && SplitDualCidr(value) == d
    requires IsArgument(argument) && '%' !in value && Guards(env, domain, w, name, argument)
    requires ValueOf(TermOf(Plus, name, argument, name + argument)) == value
    requires env.dns.a(w.asked + 1, if d.domain == "" then domain else d.domain, Family(env)) == answer
    requires answer.Failed? || (answer.records == [] && w.voids >= 2)
    ensures EvalDomain(env, domain, w, depth).0 == if answer.Failed? then TempError else PermError
  {
    AddressesFail(env, value, d, domain, Granted(w, depth), answer);
    AddressesAreAsked(env, domain, w, depth, name, argument, value);
  }

  // A query that fails makes the answer a temperror; a third one answered without records, a permerror.
  lemma AddressPolicyFails(env: Env, domain: string, w: Work, depth: nat, name: string, argument: string,
      target: string, m: Option<nat>, n: Option<nat>, answer: Answer)
    requires depth <= MAX_DNS_MECHANISMS && w.lookups < MAX_DNS_MECHANISMS && IsTarget(target)
    requires name == "a" && argument == DualArgument(target, m, n) && Guards(env, domain, w, name, argument)
    requires env.dns.a(w.asked + 1, if target == "" then domain else target, Family(env)) == answer
    requires answer.Failed? || (answer.records == [] && w.voids >= 2)
    ensures EvalDomain(env, domain, w, depth).0 == if answer.Failed? then TempError else PermError
  {
    var value := PrintDual(target, DigitsOf(m), DigitsOf(n));
    PrintedDualReads(target, m, n);
    ArgumentReads(Plus, name, target, m, n, name + argument);
    AddressValueFails(env, domain, w, depth, name, argument, value, DualCidr(target, m, n), answer);
  }

  lemma MailHostsFail(env: Env, value: string, d: DualCidr, domain: string, w: Work, answer: Answer)
    requires SplitDualCidr(value) == d
    requires env.dns.mx(w.asked, if d.domain == "" then domain else d.domain) == answer
    requires answer.Failed? || (answer.records == [] && w.voids >= 2) || |answer.records| > 10
    ensures MatchMx(env, value, domain, w).0 == if answer.Failed? then TempFailure else Error
  {
  }

  lemma MailHostValueFails(env: Env, domain: string, w: Work, depth: nat, name: string, argument: string, value: string,
      d: DualCidr, answer: Answer)
    requires depth <= MAX_DNS_MECHANISMS && w.lookups < MAX_DNS_MECHANISMS && name == "mx" && SplitDualCidr(value) == d
    requires IsArgument(argument) && '%' !in value && Guards(env, domain, w, name, argument)
    requires ValueOf(TermOf(Plus, name, argument, name + argument)) == value
    requires env.dns.mx(w.asked + 1, if d.domain == "" then domain else d.domain) == answer
    requires answer.Failed? || (answer.records == [] && w.voids >= 2) || |answer.records| > 10
    ensures EvalDomain(env, domain, w, depth).0 == if answer.Failed? then TempError else PermError
  {
    MailHostsFail(env, value, d, domain, Granted(w, depth), answer);
    MailHostsAreAsked(env, domain, w, depth, name, argument, value);
  }

  // The same of "mx", where more than ten mail hosts are a permerror too.
  lemma MailHostPolicyFails(env: Env, domain: string, w: Work, depth: nat, name: string, argument: string,
      target: string, m: Option<nat>, n: Option<nat>, answer: Answer)
    requires depth <= MAX_DNS_MECHANISMS && w.lookups < MAX_DNS_MECHANISMS && IsTarget(target)
    requires name == "mx" && argument == DualArgument(target, m, n) && Guards(env, domain, w, name, argument)
    requires env.dns.mx(w.asked + 1, if target == "" then domain else target) == answer
    requires answer.Failed? || (answer.records == [] && w.voids >= 2) || |answer.records| > 10
    ensures EvalDomain(env, domain, w, depth).0 == if answer.Failed? then TempError else PermError
  {
    var value := PrintDual(target, DigitsOf(m), DigitsOf(n));
    PrintedDualReads(target, m, n);
    ArgumentReads(Plus, name, target, m, n, name + argument);
    MailHostValueFails(env, domain, w, depth, name, argument, value, DualCidr(target, m, n), answer);
  }

  // ---- Which TXT texts are policies ----

  // The text starts with the version, in any case of its letters, and white space or nothing behind it.
  ghost predicate IsPolicyText(text: string) {
    exists version, rest :: text == version + rest && Lower(version) == "v=spf1" && (rest == "" || IsWsp(rest[0]))
  }

  lemma {:induction false} FirstTokenOf(word: string, rest: string)
    requires (forall i :: 0 <= i < |word| ==> !IsWsp(word[i])) && (rest == "" || IsWsp(rest[0]))
    ensures FirstToken(word + rest) == word
  {
    if word == "" {
      assert word + rest == rest;
    } else {
      assert (word + rest)[1..] == word[1..] + rest;
      FirstTokenOf(word[1..], rest);
    }
  }

  lemma PolicyTextIff(text: string)
    ensures IsSpfText(text) <==> IsPolicyText(text)
  {
    if IsSpfText(text) {
      var word := FirstToken(text);
      assert text == word + text[|word|..];
    }
    if version, rest :| text == version + rest && Lower(version) == "v=spf1" && (rest == "" || IsWsp(rest[0])) {
      forall i | 0 <= i < |version| ensures !IsWsp(version[i]) {
        assert LowerChar(version[i]) == "v=spf1"[i];
      }
      FirstTokenOf(version, rest);
    }
  }

  lemma {:induction false} NoneSelected(txts: seq<string>)
    requires forall i :: 0 <= i < |txts| ==> !IsSpfText(txts[i])
    ensures SpfTexts(txts) == []
  {
    if txts != [] {
      NoneSelected(txts[1..]);
    }
  }

  lemma {:induction false} SelectedCount(txts: seq<string>, i: nat)
    requires i < |txts| && IsSpfText(txts[i])
    ensures SpfTexts(txts) != []
    ensures (forall j :: 0 <= j < |txts| && j != i ==> !IsSpfText(txts[j])) ==> SpfTexts(txts) == [txts[i]]
    ensures forall j :: i < j < |txts| && IsSpfText(txts[j]) ==> |SpfTexts(txts)| > 1
  {
    if i == 0 {
      if forall j :: 0 <= j < |txts| && j != i ==> !IsSpfText(txts[j]) {
        NoneSelected(txts[1..]);
      }
      forall j | i < j < |txts| && IsSpfText(txts[j]) ensures |SpfTexts(txts)| > 1 {
        SelectedCount(txts[1..], j - 1);
      }
    } else {
      SelectedCount(txts[1..], i - 1);
      assert forall j :: i < j < |txts| ==> txts[j] == txts[1..][j - 1];
    }
  }

  // Without a policy text the answer is "none", with two of them permerror; a failed query is a temperror.
  lemma SelectionAnswers(env: Env, domain: string, w: Work, depth: nat)
    requires depth <= MAX_DNS_MECHANISMS
    ensures env.dns.txt(w.asked, domain).Failed? ==> EvalDomain(env, domain, w, depth).0 == TempError
    ensures var answer := env.dns.txt(w.asked, domain);
            answer.Answered? ==>
            && ((forall i :: 0 <= i < |answer.records| ==> !IsPolicyText(answer.records[i])) ==>
                EvalDomain(env, domain, w, depth).0 == NoPolicy)
            && ((exists i, j :: 0 <= i < j < |answer.records| && IsPolicyText(answer.records[i])
                                && IsPolicyText(answer.records[j])) ==>
                EvalDomain(env, domain, w, depth).0 == PermError)
  {
    var answer := env.dns.txt(w.asked, domain);
    if answer.Answered? {
      var txts := answer.records;
      forall i | 0 <= i < |txts| ensures IsSpfText(txts[i]) <==> IsPolicyText(txts[i]) {
        PolicyTextIff(txts[i]);
      }
      PublishedPolicy(env, domain, txts, PolicyOf(txts), w, depth);
      if forall i :: 0 <= i < |txts| ==> !IsPolicyText(txts[i]) {
        NoneSelected(txts);
      }
      if i, j :| 0 <= i < j < |txts| && IsPolicyText(txts[i]) && IsPolicyText(txts[j]) {
        SelectedCount(txts, i);
      }
    }
  }

  // ---- Which checks evaluate a policy ----

  predicate IsLabel(s: string) {
    1 <= |s| <= 63 && '.' !in s
  }

  // Two labels or more with dots between them, and perhaps a dot at the end.
  ghost predicate IsFullName(domain: string) {
    exists labels :: AreLabels(labels) && (domain == Join(labels, ".") || domain == Join(labels, ".") + ".")
  }

  predicate AreLabels(labels: seq<string>) {
    |labels| >= 2 && forall i :: 0 <= i < |labels| ==> IsLabel(labels[i])
  }

  lemma {:induction false} JoinEndsInLabel(labels: seq<string>)
    requires labels != [] && forall i :: 0 <= i < |labels| ==> IsLabel(labels[i])
    ensures Join(labels, ".") != "" && Join(labels, ".")[|Join(labels, ".")| - 1] != '.'
  {
    if |labels| > 1 {
      JoinEndsInLabel(labels[1..]);
      var whole, tail := Join(labels, "."), Join(labels[1..], ".");
      assert whole[|whole| - 1] == tail[|tail| - 1];
    }
  }

  lemma NameIsSplit(domain: string, labels: seq<string>)
    requires AreLabels(labels) && (domain == Join(labels, ".") || domain == Join(labels, ".") + ".")
    ensures Split(WithoutLastDot(domain), '.') == labels
  {
    JoinEndsInLabel(labels);
    SplitJoin(labels, '.');
    assert WithoutLastDot(domain) == Join(labels, ".");
  }

  lemma MalformedByLabels(domain: string)
    ensures IsMalformedDomain(domain) <==> !AreLabels(Split(WithoutLastDot(domain), '.'))
  {
    var labels := Split(WithoutLastDot(domain), '.');
    assert forall i :: 0 <= i < |labels| ==> (IsLabel(labels[i]) <==> !(|labels[i]| == 0 || |labels[i]| > 63));
  }

  lemma LabelsMakeName(domain: string)
    ensures AreLabels(Split(WithoutLastDot(domain), '.')) ==> IsFullName(domain)
  {
    var labels, name := Split(WithoutLastDot(domain), '.'), WithoutLastDot(domain);
    JoinSplit(name, '.');
    assert domain == name || domain == name + ".";
  }

  // Exactly the names that are not of this form are taken for malformed.
  lemma MalformedIff(domain: string)
    ensures IsMalformedDomain(domain) <==> !IsFullName(domain)
  {
    MalformedByLabels(domain);
    LabelsMakeName(domain);
    if labels :| AreLabels(labels) && (domain == Join(labels, ".") || domain == Join(labels, ".") + ".") {
      NameIsSplit(domain, labels);
    }
  }

  predicate IsV4Text(platform: Platform, text: string) {
    platform.ip(text).Some? && platform.ip(text).value.V4? && text != ""
  }

  // An IPv4 address with the prefix of the mapped ones in front, in any case of its letters.
  predicate IsMapped(platform: Platform, ip: string, v4: string) {
    |ip| == 7 + |v4| && Lower(ip[..7]) == "::ffff:" && ip[7..] == v4 && IsV4Text(platform, v4)
  }

  // The client is the IPv4 address where that is mapped, and the address as it stands otherwise.
  ghost predicate IsClient(platform: Platform, ip: string, client: string) {
    IsMapped(platform, ip, client) || (client == ip && forall v4 :: !IsMapped(platform, ip, v4))
  }

  // A check evaluates the policy of the domain for the client exactly if the client's address is one and the
  // domain is a full name; otherwise it answers "none" without asking anything.
  lemma CheckStarts(dns: Dns, platform: Platform, ip: string, client: string, domain: string)
    requires IsClient(platform, ip, client)
    ensures var env := Env(dns, platform, client);
            Checked(dns, platform, ip, domain)
            == if ToBig(env, client).Some? && IsFullName(domain) then EvalDomain(env, domain, NO_WORK, 0)
               else (NoPolicy, NO_WORK)
  {
    MalformedIff(domain);
    assert Normalized(platform, ip) == client by {
      if |ip| > 7 && Lower(ip[..7]) == "::ffff:" && IsV4Text(platform, ip[7..]) {
        assert IsMapped(platform, ip, ip[7..]);
      }
    }
    assert IsMalformedDomain("");
  }
}
