/**
 What an SPF policy means, without budgets (sections 4.6, 5.2 and 6.1 of RFC 7208), and the evaluator as a
 refinement of it: whatever it answers within its budgets is what the policy means, errors included.

 `Means` is inductive: `rank` bounds the height of the derivation, that is, the nesting of includes and
 redirects, and a meaning at any rank is a meaning.
 */
module SpfMeaning {
  import SpfBudget
  import opened SpfCheck
  import opened SpfRecord
  import opened Text

  // The DNS answers each question the same way whenever it is asked.
  ghost predicate Steady(dns: Dns) {
    && (forall n: nat, name :: dns.txt(n, name) == dns.txt(0, name))
    && (forall n: nat, name, rr :: dns.a(n, name, rr) == dns.a(0, name, rr))
    && (forall n: nat, name :: dns.mx(n, name) == dns.mx(0, name))
  }

  predicate IsError(r: SpfResult) {
    r == PermError || r == TempError
  }

  // The policy that the domain publishes means `r` for the client.
  ghost predicate Means(env: Env, rank: nat, domain: string, r: SpfResult)
    decreases rank, 3
  {
    rank > 0 &&
    match env.dns.txt(0, domain)
    case Failed => r == TempError
    case Answered(txts) => PolicyMeans(env, rank, domain, PolicyOf(txts), r)
  }

  ghost predicate PolicyMeans(env: Env, rank: nat, domain: string, policy: Policy, r: SpfResult)
    requires rank > 0
    decreases rank, 2
  {
    match policy
    case Absent => r == NoPolicy
    case Ambiguous => r == PermError
    case Malformed => r == PermError
    case Published(terms) =>
      || (exists i, o :: Leftmost(env, rank, domain, terms, i, o) && r == Settled(terms[i], o))
      || (NothingMatches(env, rank, domain, terms) && AfterAll(env, rank, RedirectOf(terms), r))
  }

  // The result that a mechanism settles by its outcome.
  function Settled(t: SpfTerm, o: Outcome): SpfResult {
    match o
    case Error => PermError
    case TempFailure => TempError
    case _ => QualifierResult(t.qualifier)
  }

  // Term i matches or breaks off, and every mechanism to its left does not match.
  ghost predicate Leftmost(env: Env, rank: nat, domain: string, terms: seq<SpfTerm>, i: int, o: Outcome)
    requires rank > 0
    decreases rank, 1
  {
    && 0 <= i < |terms| && !terms[i].isModifier && o != NotMatched && TermMeans(env, rank, domain, terms[i], o)
    && forall j :: 0 <= j < i ==> terms[j].isModifier || TermMeans(env, rank, domain, terms[j], NotMatched)
  }

  ghost predicate NothingMatches(env: Env, rank: nat, domain: string, terms: seq<SpfTerm>)
    requires rank > 0
    decreases rank, 1
  {
    forall j :: 0 <= j < |terms| ==> terms[j].isModifier || TermMeans(env, rank, domain, terms[j], NotMatched)
  }

  // When no mechanism matches the result is neutral, or what the redirect's target means; to redirect to a
  // domain without a policy is an error.
  ghost predicate AfterAll(env: Env, rank: nat, redirect: Option<string>, r: SpfResult)
    requires rank > 0
    decreases rank, 0
  {
    match redirect
    case None => r == Neutral
    case Some(target) => exists sub :: Means(env, rank - 1, target, sub) && r == AsTarget(sub)
  }

  function AsTarget(sub: SpfResult): SpfResult {
    if sub == NoPolicy then PermError else sub
  }

  // What one mechanism comes to: an include as the table of section 5.2 turns the included policy's meaning,
  // a macro and an unknown mechanism as no match.
  ghost predicate TermMeans(env: Env, rank: nat, domain: string, t: SpfTerm, o: Outcome)
    requires rank > 0
    decreases rank, 0
  {
    var value := ValueOf(t);
    if '%' in value then o == NotMatched
    else if t.mechanism == "all" then o == Matched
    else if t.mechanism == "ip4" || t.mechanism == "ip6" then o == Found(CidrMatch(env, env.ip, value))
    else if t.mechanism == "include" then exists sub :: Means(env, rank - 1, value, sub) && o == IncludeOutcome(sub)
    else if AsksDns(t.mechanism) then AddressMeans(env, t.mechanism, value, domain, o)
    else o == NotMatched
  }

  // What a mechanism that asks for addresses comes to.
  ghost predicate AddressMeans(env: Env, mechanism: string, value: string, domain: string, o: Outcome) {
    var d := SplitDualCidr(value);
    if mechanism == "a" then
      match AddressesOf(env, OrCurrent(d.domain, domain))
      case Failed => o == TempFailure
      case Answered(addresses) => o == Found(Covers(env, addresses, d))
    else if mechanism == "mx" then
      match env.dns.mx(0, OrCurrent(d.domain, domain))
      case Failed => o == TempFailure
      case Answered(hosts) => if |hosts| > MAX_MX_ADDRESS_LOOKUPS then o == Error else HostsMean(env, hosts, d, o)
    else
      match env.dns.a(0, value, A)
      case Failed => o == TempFailure
      case Answered(addresses) => o == Found(addresses != [])
  }

  function AddressesOf(env: Env, name: string): Answer {
    env.dns.a(0, name, AddressRr(env))
  }

  // The host has addresses to tell, or none, and none of them covers the client.
  predicate PassesBy(env: Env, host: string, d: DualCidr) {
    AddressesOf(env, host).Answered? && !Covers(env, AddressesOf(env, host).records, d)
  }

  // The first host that covers the client, or cannot be asked, decides.
  ghost predicate HostsMean(env: Env, hosts: seq<string>, d: DualCidr, o: Outcome) {
    || (exists k :: FirstTelling(env, hosts, d, k)
                    && o == if AddressesOf(env, hosts[k]).Failed? then TempFailure else Matched)
    || (o == NotMatched && forall k :: 0 <= k < |hosts| ==> PassesBy(env, hosts[k], d))
  }

  ghost predicate FirstTelling(env: Env, hosts: seq<string>, d: DualCidr, k: int) {
    0 <= k < |hosts| && !PassesBy(env, hosts[k], d) && forall j :: 0 <= j < k ==> PassesBy(env, hosts[j], d)
  }

  // ---- A policy has at most one meaning ----

  // Each term comes to the same outcome at both ranks.
  ghost predicate Consistent(env: Env, m: nat, n: nat, domain: string, terms: seq<SpfTerm>)
    requires m > 0 && n > 0
  {
    forall i, o, p ::
      0 <= i < |terms| && TermMeans(env, m, domain, terms[i], o) && TermMeans(env, n, domain, terms[i], p) ==> o == p
  }

  lemma LeftmostUnique(env: Env, m: nat, n: nat, domain: string, terms: seq<SpfTerm>)
    requires m > 0 && n > 0 && Consistent(env, m, n, domain, terms)
    ensures forall i, o, j, p :: Leftmost(env, m, domain, terms, i, o) && Leftmost(env, n, domain, terms, j, p) ==>
            i == j && o == p
    ensures forall i, o :: Leftmost(env, m, domain, terms, i, o) ==> !NothingMatches(env, n, domain, terms)
    ensures forall i, o :: Leftmost(env, n, domain, terms, i, o) ==> !NothingMatches(env, m, domain, terms)
  {
  }

  lemma {:induction false} MeaningUnique(env: Env, m: nat, n: nat, domain: string, r: SpfResult, s: SpfResult)
    requires Means(env, m, domain, r) && Means(env, n, domain, s)
    ensures r == s
    decreases m, 2
  {
    if env.dns.txt(0, domain).Answered? {
      PolicyUnique(env, m, n, domain, PolicyOf(env.dns.txt(0, domain).records), r, s);
    }
  }

  lemma {:induction false} PolicyUnique(env: Env, m: nat, n: nat, domain: string, policy: Policy, r: SpfResult,
      s: SpfResult)
    requires m > 0 && n > 0 && PolicyMeans(env, m, domain, policy, r) && PolicyMeans(env, n, domain, policy, s)
    ensures r == s
    decreases m, 1
  {
    if policy.Published? {
      var terms := policy.terms;
      forall i, o, p | 0 <= i < |terms| && TermMeans(env, m, domain, terms[i], o)
        && TermMeans(env, n, domain, terms[i], p)
        ensures o == p
      {
        TermUnique(env, m, n, domain, terms[i], o, p);
      }
      LeftmostUnique(env, m, n, domain, terms);
      if NothingMatches(env, m, domain, terms) && NothingMatches(env, n, domain, terms) {
        AfterAllUnique(env, m, n, RedirectOf(terms), r, s);
      }
    }
  }

  lemma {:induction false} AfterAllUnique(env: Env, m: nat, n: nat, redirect: Option<string>, r: SpfResult,
      s: SpfResult)
    requires m > 0 && n > 0 && AfterAll(env, m, redirect, r) && AfterAll(env, n, redirect, s)
    ensures r == s
    decreases m, 0
  {
    if redirect.Some? {
      var x :| Means(env, m - 1, redirect.value, x) && r == AsTarget(x);
      var y :| Means(env, n - 1, redirect.value, y) && s == AsTarget(y);
      MeaningUnique(env, m - 1, n - 1, redirect.value, x, y);
    }
  }

  lemma {:induction false} TermUnique(env: Env, m: nat, n: nat, domain: string, t: SpfTerm, o: Outcome, p: Outcome)
    requires m > 0 && n > 0 && TermMeans(env, m, domain, t, o) && TermMeans(env, n, domain, t, p)
    ensures o == p
    decreases m, 0
  {
    var value := ValueOf(t);
    if '%' !in value && t.mechanism == "include" {
      var x :| Means(env, m - 1, value, x) && o == IncludeOutcome(x);
      var y :| Means(env, n - 1, value, y) && p == IncludeOutcome(y);
      MeaningUnique(env, m - 1, n - 1, value, x, y);
    }
  }

  // ---- The evaluator refines the meaning ----

  // No budget was overdrawn, and the nesting guard was never reached.
  predicate WithinBudget(w: Work, v: Work, depth: nat) {
    depth <= w.lookups && SpfBudget.Solvent(w) && SpfBudget.Solvent(v)
  }

  // Short of an error from any counters, and error or not within the budgets, the answer is the meaning.
  lemma {:induction false} DomainRefines(env: Env, domain: string, w: Work, depth: nat)
    requires Steady(env.dns)
    ensures var (r, v) := EvalDomain(env, domain, w, depth);
            !IsError(r) || WithinBudget(w, v, depth) ==> Means(env, Levels(depth), domain, r)
    decreases Levels(depth), 4
  {
    if depth <= MAX_DNS_MECHANISMS {
      assert env.dns.txt(w.asked, domain) == env.dns.txt(0, domain);
      if env.dns.txt(0, domain).Answered? {
        var txts := env.dns.txt(0, domain).records;
        PublishedPolicy(env, domain, txts, PolicyOf(txts), w, depth);
        PolicyRefines(env, domain, PolicyOf(txts), AfterTxt(w, depth), depth);
      }
    }
  }

  lemma {:induction false} PolicyRefines(env: Env, domain: string, policy: Policy, w: Work, depth: nat)
    requires Steady(env.dns) && depth <= MAX_DNS_MECHANISMS
    ensures var (r, v) := EvalPolicy(env, policy, domain, w, depth);
            !IsError(r) || WithinBudget(w, v, depth) ==> PolicyMeans(env, Levels(depth), domain, policy, r)
    decreases Levels(depth), 3
  {
    if policy.Published? {
      TermsRefine(env, policy.terms, domain, w, depth);
      var (found, w1) := EvalTerms(env, policy.terms, domain, w, depth);
      if found.None? {
        TermsSpend(env, policy.terms, domain, w, depth);
        RedirectRefines(env, RedirectOf(policy.terms), w1, depth);
      }
    }
  }

  // Terms that come to nothing leave the budgets in order.
  lemma TermsSpend(env: Env, terms: seq<SpfTerm>, domain: string, w: Work, depth: nat)
    requires depth <= MAX_DNS_MECHANISMS
    ensures var (found, v) := EvalTerms(env, terms, domain, w, depth);
            depth <= w.lookups && SpfBudget.Solvent(w) && found.None? ==> depth <= v.lookups && SpfBudget.Solvent(v)
  {
    if depth <= w.lookups && SpfBudget.Solvent(w) {
      SpfBudget.TermsPaid(env, terms, domain, w, depth);
    }
  }

  lemma TermSpends(env: Env, t: SpfTerm, domain: string, w: Work, depth: nat)
    requires depth <= MAX_DNS_MECHANISMS
    ensures var (o, v) := MatchTerm(env, t, domain, w, depth);
            depth <= w.lookups && SpfBudget.Solvent(w) && o == NotMatched ==> depth <= v.lookups && SpfBudget.Solvent(v)
  {
    if depth <= w.lookups && SpfBudget.Solvent(w) {
      SpfBudget.TermPaid(env, t, domain, w, depth);
    }
  }

  lemma {:induction false} RedirectRefines(env: Env, redirect: Option<string>, w: Work, depth: nat)
    requires Steady(env.dns) && depth <= MAX_DNS_MECHANISMS
    ensures var (r, v) := EvalRedirect(env, redirect, w, depth);
            !IsError(r) || WithinBudget(w, v, depth) ==> AfterAll(env, Levels(depth), redirect, r)
    decreases Levels(depth), 1
  {
    if redirect.Some? && w.lookups < MAX_DNS_MECHANISMS {
      var w1 := w.(lookups := w.lookups + 1);
      var (sub, v) := EvalDomain(env, redirect.value, w1, depth + 1);
      DomainRefines(env, redirect.value, w1, depth + 1);
      RedirectConcludes(env, redirect.value, w, w1, depth, sub, v);
      RedirectIs(env, redirect.value, w, w1, depth, sub, v);
    }
  }

  lemma RedirectIs(env: Env, target: string, w: Work, w1: Work, depth: nat, sub: SpfResult, v: Work)
    requires depth <= MAX_DNS_MECHANISMS && w.lookups < MAX_DNS_MECHANISMS && w1 == w.(lookups := w.lookups + 1)
    requires EvalDomain(env, target, w1, depth + 1) == (sub, v)
    ensures EvalRedirect(env, Some(target), w, depth) == (AsTarget(sub), v)
  {
    RedirectGranted(env, target, w, depth);
  }

  lemma RedirectConcludes(env: Env, target: string, w: Work, w1: Work, depth: nat, sub: SpfResult, v: Work)
    requires depth <= MAX_DNS_MECHANISMS && w.lookups < MAX_DNS_MECHANISMS && w1 == w.(lookups := w.lookups + 1)
    requires !IsError(sub) || WithinBudget(w1, v, depth + 1) ==> Means(env, Levels(depth + 1), target, sub)
    ensures !IsError(AsTarget(sub)) || WithinBudget(w, v, depth) ==>
            AfterAll(env, Levels(depth), Some(target), AsTarget(sub))
  {
    assert Levels(depth + 1) == Levels(depth) - 1;
  }

  lemma {:induction false} TermsRefine(env: Env, terms: seq<SpfTerm>, domain: string, w: Work, depth: nat)
    requires Steady(env.dns) && depth <= MAX_DNS_MECHANISMS
    ensures var (found, v) := EvalTerms(env, terms, domain, w, depth);
            if found.None? then NothingMatches(env, Levels(depth), domain, terms)
            else !IsError(found.value) || WithinBudget(w, v, depth) ==>
                 exists i, o :: Leftmost(env, Levels(depth), domain, terms, i, o) && found.value == Settled(terms[i], o)
    decreases Levels(depth), 2, |terms|
  {
    if terms != [] {
      var rest, rank := terms[1..], Levels(depth);
      assert terms == [terms[0]] + rest;
      var o, w1 := NotMatched, w;
      if !terms[0].isModifier {
        TermRefines(env, terms[0], domain, w, depth);
        TermSpends(env, terms[0], domain, w, depth);
        o, w1 := MatchTerm(env, terms[0], domain, w, depth).0, MatchTerm(env, terms[0], domain, w, depth).1;
      }
      if o != NotMatched {
        if o == Matched || WithinBudget(w, w1, depth) {
          assert Leftmost(env, rank, domain, terms, 0, o);
        }
      } else {
        TermsRefine(env, rest, domain, w1, depth);
        var (found, v) := EvalTerms(env, rest, domain, w1, depth);
        if found.Some? && (!IsError(found.value) || WithinBudget(w1, v, depth)) {
          var i, p :| Leftmost(env, rank, domain, rest, i, p) && found.value == Settled(rest[i], p);
          LeftmostShifts(env, rank, domain, terms, i, p);
        }
      }
    }
  }

  lemma LeftmostShifts(env: Env, rank: nat, domain: string, terms: seq<SpfTerm>, i: int, o: Outcome)
    requires rank > 0 && terms != [] && Leftmost(env, rank, domain, terms[1..], i, o)
    requires terms[0].isModifier || TermMeans(env, rank, domain, terms[0], NotMatched)
    ensures Leftmost(env, rank, domain, terms, i + 1, o)
  {
    forall j | 0 <= j < i + 1 ensures terms[j].isModifier || TermMeans(env, rank, domain, terms[j], NotMatched) {
      if j > 0 {
        assert terms[j] == terms[1..][j - 1];
      }
    }
  }

  // An outcome to explain: all but an error behind an overdrawn budget.
  predicate Explained(o: Outcome, w: Work, v: Work, depth: nat) {
    o == Matched || o == NotMatched || WithinBudget(w, v, depth)
  }

  lemma {:induction false} TermRefines(env: Env, t: SpfTerm, domain: string, w: Work, depth: nat)
    requires Steady(env.dns) && depth <= MAX_DNS_MECHANISMS
    ensures var (o, v) := MatchTerm(env, t, domain, w, depth);
            Explained(o, w, v, depth) ==> TermMeans(env, Levels(depth), domain, t, o)
    decreases Levels(depth), 1
  {
    if '%' !in ValueOf(t) && AsksDns(t.mechanism) && w.lookups < MAX_DNS_MECHANISMS {
      if t.mechanism == "include" {
        IncludeRefines(env, t, domain, w, depth);
      } else {
        AddressTermRefines(env, t, domain, w, depth);
      }
    }
  }

  lemma {:induction false} IncludeRefines(env: Env, t: SpfTerm, domain: string, w: Work, depth: nat)
    requires Steady(env.dns) && depth <= MAX_DNS_MECHANISMS
    requires t.mechanism == "include" && '%' !in ValueOf(t) && w.lookups < MAX_DNS_MECHANISMS
    ensures var (o, v) := MatchTerm(env, t, domain, w, depth);
            Explained(o, w, v, depth) ==> TermMeans(env, Levels(depth), domain, t, o)
    decreases Levels(depth), 0
  {
    var w1 := w.(lookups := w.lookups + 1);
    DomainRefines(env, ValueOf(t), w1, depth + 1);
    var (sub, v) := EvalDomain(env, ValueOf(t), w1, depth + 1);
    IncludeGranted(env, t, domain, w, depth);
    IncludeDecides(env, t, domain, Levels(depth), sub, w, v, depth);
  }

  lemma IncludeDecides(env: Env, t: SpfTerm, domain: string, rank: nat, sub: SpfResult, w: Work, v: Work, depth: nat)
    requires rank > 0 && t.mechanism == "include" && '%' !in ValueOf(t)
    requires !IsError(sub) || WithinBudget(w.(lookups := w.lookups + 1), v, depth + 1)
             ==> Means(env, rank - 1, ValueOf(t), sub)
    requires w.lookups < MAX_DNS_MECHANISMS
    ensures Explained(IncludeOutcome(sub), w, v, depth) ==> TermMeans(env, rank, domain, t, IncludeOutcome(sub))
  {
  }

  lemma AddressTermRefines(env: Env, t: SpfTerm, domain: string, w: Work, depth: nat)
    requires Steady(env.dns) && depth <= MAX_DNS_MECHANISMS
    requires t.mechanism != "include" && AsksDns(t.mechanism) && '%' !in ValueOf(t) && w.lookups < MAX_DNS_MECHANISMS
    ensures var (o, v) := MatchTerm(env, t, domain, w, depth);
            Explained(o, w, v, depth) ==> TermMeans(env, Levels(depth), domain, t, o)
  {
    var w1 := w.(lookups := w.lookups + 1);
    AddressRefines(env, t.mechanism, ValueOf(t), domain, w1, depth);
    assert MatchTerm(env, t, domain, w, depth) == MatchGranted(env, t.mechanism, ValueOf(t), domain, w1, depth);
  }

  lemma AddressRefines(env: Env, mechanism: string, value: string, domain: string, w: Work, depth: nat)
    requires Steady(env.dns) && depth <= MAX_DNS_MECHANISMS && mechanism != "include" && AsksDns(mechanism)
    ensures var (o, v) := MatchGranted(env, mechanism, value, domain, w, depth);
            o == Matched || o == NotMatched || SpfBudget.Solvent(v) ==> AddressMeans(env, mechanism, value, domain, o)
  {
    var d := SplitDualCidr(value);
    var name := OrCurrent(d.domain, domain);
    if mechanism == "a" {
      assert env.dns.a(w.asked, name, AddressRr(env)) == AddressesOf(env, name);
    } else if mechanism == "mx" {
      var answer := env.dns.mx(w.asked, name);
      assert answer == env.dns.mx(0, name);
      if answer.Answered? {
        HostsRefine(env, answer.records, d, Void(w.(asked := w.asked + 1), answer.records));
      }
    } else {
      assert env.dns.a(w.asked, value, A) == env.dns.a(0, value, A);
    }
  }

  lemma FirstHost(env: Env, hosts: seq<string>, d: DualCidr, w: Work)
    requires Steady(env.dns) && hosts != []
    ensures MatchHosts(env, hosts, d, w).0
            == if PassesBy(env, hosts[0], d) then MatchHosts(env, hosts[1..], d, w.(asked := w.asked + 1)).0
               else if AddressesOf(env, hosts[0]).Failed? then TempFailure else Matched
  {
    assert env.dns.a(w.asked, hosts[0], AddressRr(env)) == AddressesOf(env, hosts[0]);
  }

  lemma {:induction false} HostsRefine(env: Env, hosts: seq<string>, d: DualCidr, w: Work)
    requires Steady(env.dns)
    ensures HostsMean(env, hosts, d, MatchHosts(env, hosts, d, w).0)
  {
    if hosts != [] {
      FirstHost(env, hosts, d, w);
      if PassesBy(env, hosts[0], d) {
        HostsRefine(env, hosts[1..], d, w.(asked := w.asked + 1));
        PassedHost(env, hosts, d, MatchHosts(env, hosts[1..], d, w.(asked := w.asked + 1)).0);
      } else {
        assert FirstTelling(env, hosts, d, 0);
      }
    }
  }

  lemma PassedHost(env: Env, hosts: seq<string>, d: DualCidr, o: Outcome)
    requires hosts != [] && PassesBy(env, hosts[0], d) && HostsMean(env, hosts[1..], d, o)
    ensures HostsMean(env, hosts, d, o)
  {
    var rest := hosts[1..];
    if k :| FirstTelling(env, rest, d, k) && o == if AddressesOf(env, rest[k]).Failed? then TempFailure else Matched {
      TellingShifts(env, hosts, d, k);
      assert rest[k] == hosts[k + 1];
    } else {
      assert forall k :: 1 <= k < |hosts| ==> hosts[k] == rest[k - 1];
    }
  }

  lemma TellingShifts(env: Env, hosts: seq<string>, d: DualCidr, k: int)
    requires hosts != [] && PassesBy(env, hosts[0], d) && FirstTelling(env, hosts[1..], d, k)
    ensures FirstTelling(env, hosts, d, k + 1)
  {
    assert forall j :: 1 <= j < |hosts| ==> hosts[j] == hosts[1..][j - 1];
  }

  // The answer of a check is what the policy means, and it is so for permerror and temperror too: only a
  // permerror behind an overdrawn budget says nothing about the policy.
  lemma CheckMeans(dns: Dns, platform: Platform, ip: string, domain: string)
    requires Steady(dns)
    requires domain != [] && !IsMalformedDomain(domain)
             && ToBig(Env(dns, platform, Normalized(platform, ip)), Normalized(platform, ip)).Some?
    ensures var (r, work) := Checked(dns, platform, ip, domain);
            if SpfBudget.Solvent(work) then Means(Env(dns, platform, Normalized(platform, ip)), Levels(0), domain, r)
            else r == PermError
  {
    var env := Env(dns, platform, Normalized(platform, ip));
    DomainRefines(env, domain, NO_WORK, 0);
    SpfBudget.CheckIsBounded(dns, platform, ip, domain);
  }

  // So a policy with a meaning is never answered otherwise, whatever the budgets cut short.
  lemma CheckNeverMisjudges(dns: Dns, platform: Platform, ip: string, domain: string, rank: nat, meaning: SpfResult)
    requires Steady(dns) && Means(Env(dns, platform, Normalized(platform, ip)), rank, domain, meaning)
    requires domain != [] && !IsMalformedDomain(domain)
             && ToBig(Env(dns, platform, Normalized(platform, ip)), Normalized(platform, ip)).Some?
    ensures var (r, work) := Checked(dns, platform, ip, domain);
            r == meaning || (r == PermError && !SpfBudget.Solvent(work))
  {
    var env := Env(dns, platform, Normalized(platform, ip));
    CheckMeans(dns, platform, ip, domain);
    var (r, work) := Checked(dns, platform, ip, domain);
    if SpfBudget.Solvent(work) {
      MeaningUnique(env, Levels(0), rank, domain, r, meaning);
    }
  }

  // ---- Agreement with the evaluation of one record ----

  // The match decisions that the policy's meaning makes for each of its mechanisms.
  ghost predicate DecidesAsMeant(env: Env, domain: string, terms: seq<SpfTerm>, matches: SpfTerm -> bool) {
    forall i, rank: nat :: 0 <= i < |terms| && !terms[i].isModifier && rank > 0 ==>
                       && (TermMeans(env, rank, domain, terms[i], Matched) ==> matches(terms[i]))
                       && (TermMeans(env, rank, domain, terms[i], NotMatched) ==> !matches(terms[i]))
  }

  // An "all" with a macro in its value: the evaluator passes over it, the evaluation of one record does not.
  predicate MacroAll(t: SpfTerm) {
    !t.isModifier && t.mechanism == "all" && '%' in ValueOf(t)
  }

  function WithoutMacroAlls(terms: seq<SpfTerm>): seq<SpfTerm> {
    if terms == [] then []
    else (if MacroAll(terms[0]) then [] else [terms[0]]) + WithoutMacroAlls(terms[1..])
  }

  // The result of one record's terms.
  function ResultOf(terms: seq<SpfTerm>, matches: SpfTerm -> bool): SpfResult {
    Evaluated(Record(true, None, terms), matches)
  }

  lemma ResultFirst(terms: seq<SpfTerm>, matches: SpfTerm -> bool)
    requires terms != []
    ensures ResultOf(terms, matches)
            == if Decides(terms[0], matches) then QualifierResult(terms[0].qualifier) else ResultOf(terms[1..], matches)
  {
  }

  // The first i terms decide nothing.
  ghost predicate Undecided(terms: seq<SpfTerm>, matches: SpfTerm -> bool, i: nat)
    requires i <= |terms|
  {
    forall j :: 0 <= j < i ==> MacroAll(terms[j]) || !Decides(terms[j], matches)
  }

  lemma {:induction false} FirstUsable(terms: seq<SpfTerm>, matches: SpfTerm -> bool, i: nat)
    requires i <= |terms| && Undecided(terms, matches, i)
    requires i < |terms| ==> Decides(terms[i], matches) && !MacroAll(terms[i])
    ensures ResultOf(WithoutMacroAlls(terms), matches)
            == if i < |terms| then QualifierResult(terms[i].qualifier) else Neutral
  {
    if terms != [] {
      if i > 0 {
        UndecidedBehind(terms, matches, i);
        FirstUsable(terms[1..], matches, i - 1);
      }
      UsableFirst(terms, matches);
    }
  }

  lemma UndecidedBehind(terms: seq<SpfTerm>, matches: SpfTerm -> bool, i: nat)
    requires 0 < i <= |terms| && Undecided(terms, matches, i)
    ensures Undecided(terms[1..], matches, i - 1)
  {
    assert forall j :: 0 <= j < i - 1 ==> terms[1..][j] == terms[j + 1];
  }

  lemma UsableFirst(terms: seq<SpfTerm>, matches: SpfTerm -> bool)
    requires terms != []
    ensures ResultOf(WithoutMacroAlls(terms), matches)
            == if !MacroAll(terms[0]) && Decides(terms[0], matches) then QualifierResult(terms[0].qualifier)
               else ResultOf(WithoutMacroAlls(terms[1..]), matches)
  {
    var rest := WithoutMacroAlls(terms[1..]);
    if MacroAll(terms[0]) {
      assert [] + rest == rest;
    } else {
      ResultFirst([terms[0]] + rest, matches);
      assert ([terms[0]] + rest)[1..] == rest;
    }
  }

  // On a record without a redirect the recursive evaluator and the evaluation of the one record agree, given
  // the same match decisions, once the terms the evaluator passes over are taken out of the record.
  lemma EvaluatesWithoutMacroAlls(env: Env, domain: string, record: Record, matches: SpfTerm -> bool, w: Work,
      depth: nat)
    requires Steady(env.dns) && depth <= MAX_DNS_MECHANISMS && record.valid
    requires env.dns.txt(0, domain).Answered? && PolicyOf(env.dns.txt(0, domain).records) == Published(record.terms)
    requires RedirectOf(record.terms) == None
    requires DecidesAsMeant(env, domain, record.terms, matches)
    ensures var r := EvalDomain(env, domain, w, depth).0;
            IsError(r) || r == ResultOf(WithoutMacroAlls(record.terms), matches)
  {
    DomainRefines(env, domain, w, depth);
    var r := EvalDomain(env, domain, w, depth).0;
    if !IsError(r) {
      PolicyEvaluates(env, domain, record.terms, matches, Levels(depth), r);
    }
  }

  // What a policy without a redirect means, if not an error, is the result of its usable terms.
  lemma PolicyEvaluates(env: Env, domain: string, terms: seq<SpfTerm>, matches: SpfTerm -> bool, rank: nat,
      r: SpfResult)
    requires rank > 0 && PolicyMeans(env, rank, domain, Published(terms), r) && !IsError(r) && RedirectOf(terms) == None
    requires DecidesAsMeant(env, domain, terms, matches)
    ensures r == ResultOf(WithoutMacroAlls(terms), matches)
  {
    if i, o :| Leftmost(env, rank, domain, terms, i, o) && r == Settled(terms[i], o) {
      LeftmostDecides(env, rank, domain, terms, matches, i);
      FirstUsable(terms, matches, i);
    } else {
      NothingDecides(env, rank, domain, terms, matches);
      FirstUsable(terms, matches, |terms|);
    }
  }

  lemma LeftmostDecides(env: Env, rank: nat, domain: string, terms: seq<SpfTerm>, matches: SpfTerm -> bool, i: int)
    requires rank > 0 && Leftmost(env, rank, domain, terms, i, Matched) && DecidesAsMeant(env, domain, terms, matches)
    ensures Undecided(terms, matches, i) && Decides(terms[i], matches) && !MacroAll(terms[i])
  {
    forall j | 0 <= j < i ensures MacroAll(terms[j]) || !Decides(terms[j], matches) {
    }
  }

  lemma NothingDecides(env: Env, rank: nat, domain: string, terms: seq<SpfTerm>, matches: SpfTerm -> bool)
    requires rank > 0 && NothingMatches(env, rank, domain, terms) && DecidesAsMeant(env, domain, terms, matches)
    ensures Undecided(terms, matches, |terms|)
  {
    forall j | 0 <= j < |terms| ensures MacroAll(terms[j]) || !Decides(terms[j], matches) {
    }
  }

  // Taking the macro "all"s out shows only where one of them decides: then what decides is behind it.
  lemma {:induction false} UsableBehind(terms: seq<SpfTerm>, matches: SpfTerm -> bool, k: nat)
    requires k == FirstDeciding(terms, matches) && k < |terms|
    ensures ResultOf(WithoutMacroAlls(terms), matches)
            == if MacroAll(terms[k]) then ResultOf(WithoutMacroAlls(terms[k + 1..]), matches)
              else QualifierResult(terms[k].qualifier)
  {
    UsableFirst(terms, matches);
    if k > 0 {
      assert terms[1..][k - 1] == terms[k] && terms[1..][k..] == terms[k + 1..];
      UsableBehind(terms[1..], matches, k - 1);
    }
  }

  lemma TakingOutShows(terms: seq<SpfTerm>, matches: SpfTerm -> bool, k: nat)
    requires k == FirstDeciding(terms, matches)
    ensures ResultOf(WithoutMacroAlls(terms), matches) == ResultOf(terms, matches)
            <==> (k < |terms| && MacroAll(terms[k]) ==>
                    ResultOf(WithoutMacroAlls(terms[k + 1..]), matches) == QualifierResult(terms[k].qualifier))
  {
    ResultAt(terms, matches, k);
    if k < |terms| {
      UsableBehind(terms, matches, k);
    } else {
      FirstUsable(terms, matches, k);
    }
  }

  lemma ResultAt(terms: seq<SpfTerm>, matches: SpfTerm -> bool, k: nat)
    requires k == FirstDeciding(terms, matches)
    ensures ResultOf(terms, matches) == if k < |terms| then QualifierResult(terms[k].qualifier) else Neutral
  {
  }

  lemma AgreesWithResult(record: Record, matches: SpfTerm -> bool, r: SpfResult, k: nat)
    requires record.valid && r == ResultOf(WithoutMacroAlls(record.terms), matches)
    requires k == FirstDeciding(record.terms, matches)
    ensures r == Evaluated(record, matches)
            <==> (k < |record.terms| && MacroAll(record.terms[k]) ==>
                    ResultOf(WithoutMacroAlls(record.terms[k + 1..]), matches)
                      == QualifierResult(record.terms[k].qualifier))
  {
    TakingOutShows(record.terms, matches, k);
  }

  // So the two agree exactly if the deciding term is no "all" with a macro, or what lies behind it comes to
  // the same result.
  lemma AgreesWithEvaluateSpf(env: Env, domain: string, record: Record, matches: SpfTerm -> bool, w: Work, depth: nat)
    requires Steady(env.dns) && depth <= MAX_DNS_MECHANISMS && record.valid
    requires env.dns.txt(0, domain).Answered? && PolicyOf(env.dns.txt(0, domain).records) == Published(record.terms)
    requires RedirectOf(record.terms) == None
    requires DecidesAsMeant(env, domain, record.terms, matches)
    requires !IsError(EvalDomain(env, domain, w, depth).0)
    ensures var k := FirstDeciding(record.terms, matches);
            EvalDomain(env, domain, w, depth).0 == Evaluated(record, matches)
            <==> (k < |record.terms| && MacroAll(record.terms[k]) ==>
                    ResultOf(WithoutMacroAlls(record.terms[k + 1..]), matches)
                      == QualifierResult(record.terms[k].qualifier))
  {
    var r := EvalDomain(env, domain, w, depth).0;
    EvaluatesWithoutMacroAlls(env, domain, record, matches, w, depth);
    AgreesWithResult(record, matches, r, FirstDeciding(record.terms, matches));
  }
}
