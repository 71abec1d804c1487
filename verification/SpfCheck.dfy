/**
 SPF evaluation over DNS (section 4 and 5 of RFC 7208): the recursive walk through a policy with its
 budgets on DNS work.

 DNS is an arbitrary oracle. A query is answered according to its name, its type and the number of
 queries made before it, so the answers may change from one query to the next, and any query may fail.
 */
module SpfCheck {
  import opened Cidr
  import opened SpfRecord
  import opened Text

  const MAX_DNS_MECHANISMS: nat := 10
  const MAX_VOID_LOOKUPS: nat := 2
  const MAX_MX_ADDRESS_LOOKUPS: nat := 10

  datatype Answer = Failed | Answered(records: seq<string>)

  datatype Rr = A | Aaaa

  datatype Dns = Dns(txt: (nat, string) -> Answer, a: (nat, string, Rr) -> Answer, mx: (nat, string) -> Answer)

  // How the platform reads address texts and numbers.
  datatype Platform = Platform(ip: string -> Option<IpText>, number: string -> Option<int>)

  datatype Env = Env(dns: Dns, platform: Platform, ip: string)

  // What an evaluation has spent: the two budgets, the queries it made, and the deepest nesting it reached.
  datatype Work = Work(lookups: nat, voids: nat, asked: nat, askedTxt: nat, deepest: nat)

  datatype Outcome = Matched | NotMatched | Error | TempFailure

  // ---- Matching addresses ----

  predicate IsV6(env: Env, ip: string) {
    var t := env.platform.ip(ip);
    t.Some? && t.value.V6?
  }

  predicate IsV4(env: Env, ip: string) {
    var t := env.platform.ip(ip);
    t.Some? && t.value.V4?
  }

  // The record type that can match the client.
  function AddressRr(env: Env): Rr {
    if IsV6(env, env.ip) then Aaaa else A
  }

  function ToBig(env: Env, ip: string): Option<IpValue> {
    match env.platform.ip(ip) case None => None case Some(t) => Big(t)
  }

  // Does `ip` lie in `address` with the given prefix, the whole address if there is none?
  function InNetwork(env: Env, ip: string, address: string, prefix: Option<int>): bool {
    match (ToBig(env, ip), ToBig(env, address))
    case (Some(a), Some(b)) => BlockMatch(a, b, if prefix.Some? then prefix.value else a.bits)
    case _ => false
  }

  function CidrMatch(env: Env, ip: string, cidr: string): bool {
    var slash := IndexOf(cidr, '/');
    if slash == -1 then InNetwork(env, ip, cidr, None)
    else
      var prefix := env.platform.number(cidr[slash + 1..]);
      prefix.Some? && InNetwork(env, ip, cidr[..slash], prefix)
  }

  // `address/prefix` as a CIDR; an address that has a slash already leaves no number behind it.
  function CidrMatchWith(env: Env, ip: string, address: string, prefix: Option<int>): bool {
    if prefix.None? then CidrMatch(env, ip, address)
    else '/' !in address && InNetwork(env, ip, address, prefix)
  }

  datatype DualCidr = DualCidr(domain: string, v4: Option<int>, v6: Option<int>)

  function Decimal(digits: string): nat {
    if digits == [] then 0
    else
      var c := digits[|digits| - 1];
      Decimal(digits[..|digits| - 1]) * 10 + if IsDigit(c) then c as nat - '0' as nat else 0
  }

  predicate AllDigits(s: string) {
    s != [] && forall i :: 0 <= i < |s| ==> IsDigit(s[i])
  }

  // The "/v4", "//v6" or "/v4//v6" at the end of an a or mx value, split off.
  function SplitDualCidr(value: string): DualCidr {
    var slash := IndexOf(value, '/');
    if slash == -1 then DualCidr(value, None, None) else SplitBehind(value, value[..slash], value[slash + 1..])
  }

  // What stands behind the first slash.
  function SplitBehind(value: string, domain: string, rest: string): DualCidr {
    if rest != [] && rest[0] == '/' then
      if AllDigits(rest[1..]) then DualCidr(domain, None, Some(Decimal(rest[1..]))) else DualCidr(value, None, None)
    else
      var next := IndexOf(rest, '/');
      if next == -1 then
        if AllDigits(rest) then DualCidr(domain, Some(Decimal(rest)), None) else DualCidr(value, None, None)
      else if AllDigits(rest[..next]) && next + 1 < |rest| && rest[next + 1] == '/' && AllDigits(rest[next + 2..]) then
        DualCidr(domain, Some(Decimal(rest[..next])), Some(Decimal(rest[next + 2..])))
      else DualCidr(value, None, None)
  }

  function PrefixFor(env: Env, d: DualCidr): Option<int> {
    if IsV4(env, env.ip) then d.v4 else d.v6
  }

  // Some of the addresses covers the client.
  predicate Covers(env: Env, addresses: seq<string>, d: DualCidr) {
    exists i :: 0 <= i < |addresses| && CidrMatchWith(env, env.ip, addresses[i], PrefixFor(env, d))
  }

  method AnyAddressMatches(env: Env, addresses: seq<string>, d: DualCidr) returns (r: bool)
    ensures r == Covers(env, addresses, d)
  {
    var ipIsV4 := IsV4(env, env.ip);
    for i := 0 to |addresses|
      invariant forall j :: 0 <= j < i ==> !CidrMatchWith(env, env.ip, addresses[j], PrefixFor(env, d))
    {
      var prefix := if ipIsV4 then d.v4 else d.v6;
      if CidrMatchWith(env, env.ip, addresses[i], prefix) {
        return true;
      }
    }
    r := false;
  }

  // ---- The policy of a domain ----

  datatype Policy = Absent | Ambiguous | Malformed | Published(terms: seq<SpfTerm>)

  function SpfTexts(txts: seq<string>): seq<string> {
    if txts == [] then []
    else (if IsSpfText(txts[0]) then [txts[0]] else []) + SpfTexts(txts[1..])
  }

  function PolicyOf(txts: seq<string>): Policy {
    var spf := SpfTexts(txts);
    if |spf| == 0 then Absent
    else if |spf| > 1 then Ambiguous
    else
      var record := Parsed(spf[0]);
      if record.valid then Published(record.terms) else Malformed
  }

  // The target of the last redirect= modifier.
  function RedirectOf(terms: seq<SpfTerm>): Option<string> {
    if terms == [] then None
    else
      var t := terms[|terms| - 1];
      if t.isModifier && t.mechanism == "redirect" && t.value.Some? then t.value else RedirectOf(terms[..|terms| - 1])
  }

  // The value of a mechanism without the ":" that introduces it.
  function ValueOf(t: SpfTerm): string {
    match t.value
    case None => []
    case Some(v) => if v != [] && v[0] == ':' then v[1..] else v
  }

  function OrCurrent(domain: string, current: string): string {
    if domain == [] then current else domain
  }

  // ---- The evaluation ----

  function Max(a: nat, b: nat): nat {
    if a < b then b else a
  }

  // Counts the nesting levels that are left; it bounds the recursion.
  function Levels(depth: nat): nat {
    if depth > MAX_DNS_MECHANISMS then 0 else MAX_DNS_MECHANISMS + 1 - depth
  }

  function EvalDomain(env: Env, domain: string, w: Work, depth: nat): (SpfResult, Work)
    decreases Levels(depth), 5
  {
    if depth > MAX_DNS_MECHANISMS then (PermError, w.(deepest := Max(w.deepest, depth)))
    else EvalAnswer(env, env.dns.txt(w.asked, domain), domain, AfterTxt(w, depth), depth)
  }

  function AfterTxt(w: Work, depth: nat): Work {
    w.(deepest := Max(w.deepest, depth), asked := w.asked + 1, askedTxt := w.askedTxt + 1)
  }

  function EvalAnswer(env: Env, answer: Answer, domain: string, w: Work, depth: nat): (SpfResult, Work)
    requires depth <= MAX_DNS_MECHANISMS
    decreases Levels(depth), 4
  {
    match answer
    case Failed => (TempError, w)
    case Answered(txts) => EvalPolicy(env, PolicyOf(txts), domain, w, depth)
  }

  function EvalPolicy(env: Env, policy: Policy, domain: string, w: Work, depth: nat): (SpfResult, Work)
    requires depth <= MAX_DNS_MECHANISMS
    decreases Levels(depth), 3
  {
    match policy
    case Absent => (NoPolicy, w)
    case Ambiguous => (PermError, w)
    case Malformed => (PermError, w)
    case Published(terms) =>
      var (found, w1) := EvalTerms(env, terms, domain, w, depth);
      if found.Some? then (found.value, w1) else EvalRedirect(env, RedirectOf(terms), w1, depth)
  }

  // No mechanism matched: a redirect takes over.
  function EvalRedirect(env: Env, redirect: Option<string>, w: Work, depth: nat): (SpfResult, Work)
    requires depth <= MAX_DNS_MECHANISMS
    decreases Levels(depth), 1
  {
    if redirect.None? then (Neutral, w)
    else
      var w1 := w.(lookups := w.lookups + 1);
      if w1.lookups > MAX_DNS_MECHANISMS then (PermError, w1)
      else Redirected(EvalDomain(env, redirect.value, w1, depth + 1))
  }

  // A redirect to a domain without a policy is an error.
  function Redirected(target: (SpfResult, Work)): (SpfResult, Work) {
    (if target.0 == NoPolicy then PermError else target.0, target.1)
  }

  lemma PublishedPolicy(env: Env, domain: string, txts: seq<string>, policy: Policy, w: Work, depth: nat)
    requires depth <= MAX_DNS_MECHANISMS && env.dns.txt(w.asked, domain) == Answered(txts) && PolicyOf(txts) == policy
    ensures EvalDomain(env, domain, w, depth) == EvalPolicy(env, policy, domain, AfterTxt(w, depth), depth)
  {
  }

  lemma RedirectGranted(env: Env, target: string, w: Work, depth: nat)
    requires depth <= MAX_DNS_MECHANISMS && w.lookups < MAX_DNS_MECHANISMS
    ensures EvalRedirect(env, Some(target), w, depth)
            == Redirected(EvalDomain(env, target, w.(lookups := w.lookups + 1), depth + 1))
  {
  }

  // Walks the terms from the left to the first mechanism that settles the result.
  function EvalTerms(env: Env, terms: seq<SpfTerm>, domain: string, w: Work, depth: nat): (Option<SpfResult>, Work)
    requires depth <= MAX_DNS_MECHANISMS
    decreases Levels(depth), 2, |terms|
  {
    if terms == [] then (None, w)
    else if terms[0].isModifier then EvalTerms(env, terms[1..], domain, w, depth)
    else
      var (outcome, w1) := MatchTerm(env, terms[0], domain, w, depth);
      match outcome
      case Error => (Some(PermError), w1)
      case TempFailure => (Some(TempError), w1)
      case Matched => (Some(QualifierResult(terms[0].qualifier)), w1)
      case NotMatched => EvalTerms(env, terms[1..], domain, w1, depth)
  }

  function Found(b: bool): Outcome {
    if b then Matched else NotMatched
  }

  predicate AsksDns(mechanism: string) {
    mechanism == "a" || mechanism == "mx" || mechanism == "include" || mechanism == "exists"
  }

  // Whether one mechanism matches the client.
  function MatchTerm(env: Env, t: SpfTerm, domain: string, w: Work, depth: nat): (Outcome, Work)
    requires depth <= MAX_DNS_MECHANISMS
    decreases Levels(depth), 1
  {
    var value := ValueOf(t);
    if '%' in value then (NotMatched, w)
    else if t.mechanism == "all" then (Matched, w)
    else if t.mechanism == "ip4" || t.mechanism == "ip6" then (Found(CidrMatch(env, env.ip, value)), w)
    else if AsksDns(t.mechanism) then
      var w1 := w.(lookups := w.lookups + 1);
      if w1.lookups > MAX_DNS_MECHANISMS then (Error, w1) else MatchGranted(env, t.mechanism, value, domain, w1, depth)
    else (NotMatched, w)
  }

  // A mechanism whose lookup is within the budget.
  function MatchGranted(env: Env, mechanism: string, value: string, domain: string, w: Work, depth: nat)
    : (Outcome, Work)
    requires depth <= MAX_DNS_MECHANISMS
    decreases Levels(depth), 0
  {
    if mechanism == "a" then MatchA(env, value, domain, w)
    else if mechanism == "mx" then MatchMx(env, value, domain, w)
    else if mechanism == "exists" then MatchExists(env, value, w)
    else Included(EvalDomain(env, value, w, depth + 1))
  }

  function Included(sub: (SpfResult, Work)): (Outcome, Work) {
    (IncludeOutcome(sub.0), sub.1)
  }

  lemma IncludeGranted(env: Env, t: SpfTerm, domain: string, w: Work, depth: nat)
    requires depth <= MAX_DNS_MECHANISMS && w.lookups < MAX_DNS_MECHANISMS && t.mechanism == "include"
             && '%' !in ValueOf(t)
    ensures Levels(depth) - 1 == Levels(depth + 1)
    ensures MatchTerm(env, t, domain, w, depth)
            == Included(EvalDomain(env, ValueOf(t), w.(lookups := w.lookups + 1), depth + 1))
  {
  }

  // The result table of section 5.2 of RFC 7208.
  function IncludeOutcome(sub: SpfResult): Outcome {
    match sub
    case Pass => Matched
    case TempError => TempFailure
    case PermError => Error
    case NoPolicy => Error
    case _ => NotMatched
  }

  // A query has been answered with no records.
  function Void(w: Work, records: seq<string>): Work {
    if records == [] then w.(voids := w.voids + 1) else w
  }

  function MatchA(env: Env, value: string, domain: string, w: Work): (Outcome, Work) {
    var d := SplitDualCidr(value);
    var w1 := w.(asked := w.asked + 1);
    match env.dns.a(w.asked, OrCurrent(d.domain, domain), AddressRr(env))
    case Failed => (TempFailure, w1)
    case Answered(addresses) =>
      var w2 := Void(w1, addresses);
      if addresses == [] && w2.voids > MAX_VOID_LOOKUPS then (Error, w2)
      else (Found(Covers(env, addresses, d)), w2)
  }

  function MatchMx(env: Env, value: string, domain: string, w: Work): (Outcome, Work) {
    var d := SplitDualCidr(value);
    var w1 := w.(asked := w.asked + 1);
    match env.dns.mx(w.asked, OrCurrent(d.domain, domain))
    case Failed => (TempFailure, w1)
    case Answered(hosts) =>
      var w2 := Void(w1, hosts);
      if hosts == [] && w2.voids > MAX_VOID_LOOKUPS then (Error, w2)
      else if |hosts| > MAX_MX_ADDRESS_LOOKUPS then (Error, w2)
      else MatchHosts(env, hosts, d, w2)
  }

  function MatchHosts(env: Env, hosts: seq<string>, d: DualCidr, w: Work): (Outcome, Work) {
    if hosts == [] then (NotMatched, w)
    else
      var w1 := w.(asked := w.asked + 1);
      match env.dns.a(w.asked, hosts[0], AddressRr(env))
      case Failed => (TempFailure, w1)
      case Answered(addresses) =>
        if Covers(env, addresses, d) then (Matched, w1) else MatchHosts(env, hosts[1..], d, w1)
  }

  function MatchExists(env: Env, value: string, w: Work): (Outcome, Work) {
    var w1 := w.(asked := w.asked + 1);
    match env.dns.a(w.asked, value, A)
    case Failed => (TempFailure, w1)
    case Answered(addresses) =>
      var w2 := Void(w1, addresses);
      if addresses == [] && w2.voids > MAX_VOID_LOOKUPS then (Error, w2)
      else (Found(addresses != []), w2)
  }

  // ---- Entry ----

  // The client address without the prefix of an IPv4-mapped IPv6 address.
  function Normalized(platform: Platform, ip: string): string {
    if |ip| > 7 && Lower(ip[..7]) == "::ffff:" && platform.ip(ip[7..]).Some? && platform.ip(ip[7..]).value.V4?
    then ip[7..] else ip
  }

  function WithoutLastDot(domain: string): string {
    if domain != [] && domain[|domain| - 1] == '.' then domain[..|domain| - 1] else domain
  }

  // Single-label, or with an empty or over-long label; one dot at the end is allowed.
  predicate IsMalformedDomain(domain: string) {
    var labels := Split(WithoutLastDot(domain), '.');
    |labels| < 2 || exists i :: 0 <= i < |labels| && (|labels[i]| == 0 || |labels[i]| > 63)
  }

  const NO_WORK: Work := Work(0, 0, 0, 0, 0)

  function Checked(dns: Dns, platform: Platform, ip: string, domain: string): (SpfResult, Work) {
    var env := Env(dns, platform, Normalized(platform, ip));
    if domain == [] || ToBig(env, env.ip).None? || IsMalformedDomain(domain) then (NoPolicy, NO_WORK)
    else EvalDomain(env, domain, NO_WORK, 0)
  }

  // ---- The evaluator as the engine runs it ----

  // The resolver answers according to the queries made so far.
  class Resolvers {
    const dns: Dns
    var asked: nat
    var askedTxt: nat

    constructor (dns: Dns)
      ensures this.dns == dns && asked == 0 && askedTxt == 0
    {
      this.dns := dns;
      asked, askedTxt := 0, 0;
    }

    method Txt(name: string) returns (r: Answer)
      modifies this
      ensures r == dns.txt(old(asked), name)
      ensures asked == old(asked) + 1 && askedTxt == old(askedTxt) + 1
    {
      r := dns.txt(asked, name);
      asked, askedTxt := asked + 1, askedTxt + 1;
    }

    method Addresses(name: string, rr: Rr) returns (r: Answer)
      modifies this
      ensures r == dns.a(old(asked), name, rr)
      ensures asked == old(asked) + 1 && askedTxt == old(askedTxt)
    {
      r := dns.a(asked, name, rr);
      asked := asked + 1;
    }

    method Mx(name: string) returns (r: Answer)
      modifies this
      ensures r == dns.mx(old(asked), name)
      ensures asked == old(asked) + 1 && askedTxt == old(askedTxt)
    {
      r := dns.mx(asked, name);
      asked := asked + 1;
    }
  }

  // The budgets that one check shares among all the policies it visits.
  class EvalState {
    var lookups: nat
    var voids: nat
    ghost var deepest: nat
    const resolvers: Resolvers
    const env: Env

    constructor (resolvers: Resolvers, platform: Platform, ip: string)
      ensures this.resolvers == resolvers && env == Env(resolvers.dns, platform, ip)
      ensures lookups == 0 && voids == 0 && deepest == 0
    {
      this.resolvers := resolvers;
      env := Env(resolvers.dns, platform, ip);
      lookups, voids, deepest := 0, 0, 0;
    }

    ghost predicate Valid()
      reads this, resolvers
    {
      env.dns == resolvers.dns
    }

    ghost function Spent(): Work
      reads this, resolvers
    {
      Work(lookups, voids, resolvers.asked, resolvers.askedTxt, deepest)
    }

    method EvaluateDomain(domain: string, depth: nat) returns (r: SpfResult)
      requires Valid()
      modifies this, resolvers
      ensures Valid()
      ensures (r, Spent()) == EvalDomain(env, domain, old(Spent()), depth)
      decreases Levels(depth), 5
    {
      ghost var w := Spent();
      deepest := Max(deepest, depth);
      if depth > MAX_DNS_MECHANISMS {
        return PermError;
      }
      var answer := resolvers.Txt(domain);
      assert answer == env.dns.txt(w.asked, domain) && Spent() == AfterTxt(w, depth);
      r := EvaluateAnswer(answer, domain, depth);
    }

    method EvaluateAnswer(answer: Answer, domain: string, depth: nat) returns (r: SpfResult)
      requires Valid() && depth <= MAX_DNS_MECHANISMS
      modifies this, resolvers
      ensures Valid()
      ensures (r, Spent()) == EvalAnswer(env, answer, domain, old(Spent()), depth)
      decreases Levels(depth), 4
    {
      if answer.Failed? {
        return TempError;
      }
      r := EvaluatePolicy(PolicyOf(answer.records), domain, depth);
    }

    method EvaluatePolicy(policy: Policy, domain: string, depth: nat) returns (r: SpfResult)
      requires Valid() && depth <= MAX_DNS_MECHANISMS
      modifies this, resolvers
      ensures Valid()
      ensures (r, Spent()) == EvalPolicy(env, policy, domain, old(Spent()), depth)
      decreases Levels(depth), 3
    {
      match policy {
        case Absent => return NoPolicy;
        case Ambiguous => return PermError;
        case Malformed => return PermError;
        case Published(terms) =>
          var found, redirect := WalkTerms(terms, domain, depth);
          if found.Some? {
            return found.value;
          }
          r := FollowRedirect(redirect, depth);
      }
    }

    method FollowRedirect(redirect: Option<string>, depth: nat) returns (r: SpfResult)
      requires Valid() && depth <= MAX_DNS_MECHANISMS
      modifies this, resolvers
      ensures Valid()
      ensures (r, Spent()) == EvalRedirect(env, redirect, old(Spent()), depth)
      decreases Levels(depth), 1
    {
      if redirect.None? {
        return Neutral;
      }
      ghost var w := Spent();
      lookups := lookups + 1;
      if lookups > MAX_DNS_MECHANISMS {
        return PermError;
      }
      RedirectGranted(env, redirect.value, w, depth);
      assert Spent() == w.(lookups := w.lookups + 1);
      var target := EvaluateDomain(redirect.value, depth + 1);
      assert (target, Spent()) == EvalDomain(env, redirect.value, w.(lookups := w.lookups + 1), depth + 1);
      r := if target == NoPolicy then PermError else target;
    }

    // The loop over the terms: the result the first settling mechanism gives, and the redirect seen if none did.
    method WalkTerms(terms: seq<SpfTerm>, domain: string, depth: nat)
      returns (found: Option<SpfResult>, redirect: Option<string>)
      requires Valid() && depth <= MAX_DNS_MECHANISMS
      modifies this, resolvers
      ensures Valid()
      ensures (found, Spent()) == EvalTerms(env, terms, domain, old(Spent()), depth)
      ensures found.None? ==> redirect == RedirectOf(terms)
      decreases Levels(depth), 2
    {
      redirect := None;
      ghost var start := Spent();
      for i := 0 to |terms|
        invariant Valid()
        invariant redirect == RedirectOf(terms[..i])
        invariant EvalTerms(env, terms[i..], domain, Spent(), depth) == EvalTerms(env, terms, domain, start, depth)
      {
        var term := terms[i];
        assert terms[i..][1..] == terms[i + 1..];
        assert terms[..i + 1][..i] == terms[..i];
        if term.isModifier {
          if term.mechanism == "redirect" && term.value.Some? {
            redirect := term.value;
          }
          continue;
        }
        var matched := MatchMechanism(term, depth, domain);
        match matched {
          case Error => return Some(PermError), redirect;
          case TempFailure => return Some(TempError), redirect;
          case Matched => return Some(QualifierResult(term.qualifier)), redirect;
          case NotMatched =>
        }
      }
      assert terms[..|terms|] == terms;
      found := None;
    }

    method MatchMechanism(term: SpfTerm, depth: nat, currentDomain: string) returns (r: Outcome)
      requires Valid() && depth <= MAX_DNS_MECHANISMS
      modifies this, resolvers
      ensures Valid()
      ensures (r, Spent()) == MatchTerm(env, term, currentDomain, old(Spent()), depth)
      decreases Levels(depth), 1
    {
      var mech := term.mechanism;
      var value := ValueOf(term);
      if '%' in value {
        return NotMatched;
      }
      if mech == "all" {
        return Matched;
      } else if mech == "ip4" || mech == "ip6" {
        return Found(CidrMatch(env, env.ip, value));
      } else if AsksDns(mech) {
        lookups := lookups + 1;
        if lookups > MAX_DNS_MECHANISMS {
          return Error;
        }
        r := MatchWithinBudget(mech, value, currentDomain, depth);
      } else {
        r := NotMatched;
      }
    }

    method MatchWithinBudget(mech: string, value: string, currentDomain: string, depth: nat) returns (r: Outcome)
      requires Valid() && depth <= MAX_DNS_MECHANISMS
      modifies this, resolvers
      ensures Valid()
      ensures (r, Spent()) == MatchGranted(env, mech, value, currentDomain, old(Spent()), depth)
      decreases Levels(depth), 0
    {
      if mech == "a" {
        r := MatchAddresses(value, currentDomain);
      } else if mech == "mx" {
        r := MatchMailHosts(value, currentDomain);
      } else if mech == "exists" {
        r := MatchExistence(value);
      } else {
        var sub := EvaluateDomain(value, depth + 1);
        if sub == TempError {
          return TempFailure;
        }
        if sub == PermError || sub == NoPolicy {
          return Error;
        }
        r := Found(sub == Pass);
      }
    }

    method MatchAddresses(value: string, currentDomain: string) returns (r: Outcome)
      requires Valid()
      modifies this, resolvers
      ensures Valid()
      ensures (r, Spent()) == MatchA(env, value, currentDomain, old(Spent()))
    {
      var d := SplitDualCidr(value);
      var answer := resolvers.Addresses(OrCurrent(d.domain, currentDomain), AddressRr(env));
      if answer.Failed? {
        return TempFailure;
      }
      if |answer.records| == 0 {
        voids := voids + 1;
        if voids > MAX_VOID_LOOKUPS {
          return Error;
        }
      }
      var covered := AnyAddressMatches(env, answer.records, d);
      r := Found(covered);
    }

    method MatchMailHosts(value: string, currentDomain: string) returns (r: Outcome)
      requires Valid()
      modifies this, resolvers
      ensures Valid()
      ensures (r, Spent()) == MatchMx(env, value, currentDomain, old(Spent()))
    {
      var d := SplitDualCidr(value);
      var answer := resolvers.Mx(OrCurrent(d.domain, currentDomain));
      if answer.Failed? {
        return TempFailure;
      }
      var hosts := answer.records;
      if |hosts| == 0 {
        voids := voids + 1;
        if voids > MAX_VOID_LOOKUPS {
          return Error;
        }
      }
      if |hosts| > MAX_MX_ADDRESS_LOOKUPS {
        return Error;
      }
      ghost var start := Spent();
      for i := 0 to |hosts|
        invariant Valid()
        invariant MatchHosts(env, hosts[i..], d, Spent()) == MatchHosts(env, hosts, d, start)
      {
        assert hosts[i..][1..] == hosts[i + 1..];
        var addresses := resolvers.Addresses(hosts[i], AddressRr(env));
        if addresses.Failed? {
          return TempFailure;
        }
        var covered := AnyAddressMatches(env, addresses.records, d);
        if covered {
          return Matched;
        }
      }
      r := NotMatched;
    }

    method MatchExistence(value: string) returns (r: Outcome)
      requires Valid()
      modifies this, resolvers
      ensures Valid()
      ensures (r, Spent()) == MatchExists(env, value, old(Spent()))
    {
      var answer := resolvers.Addresses(value, A);
      if answer.Failed? {
        return TempFailure;
      }
      if |answer.records| == 0 {
        voids := voids + 1;
        if voids > MAX_VOID_LOOKUPS {
          return Error;
        }
      }
      r := Found(|answer.records| > 0);
    }
  }

  method CheckSpf(ip: string, domain: string, dns: Dns, platform: Platform) returns (r: SpfResult, ghost work: Work)
    ensures r == Checked(dns, platform, ip, domain).0 && work == Checked(dns, platform, ip, domain).1
  {
    var normalized := Normalized(platform, ip);
    var env := Env(dns, platform, normalized);
    if domain == [] || ToBig(env, normalized).None? || IsMalformedDomain(domain) {
      return NoPolicy, NO_WORK;
    }
    var resolvers := new Resolvers(dns);
    var state := new EvalState(resolvers, platform, normalized);
    r := state.EvaluateDomain(domain, 0);
    work := state.Spent();
  }
}
