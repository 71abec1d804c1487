/**
 The DNS work of one SPF check (section 4.6.4 of RFC 7208): for every DNS content, cyclic includes and
 answers that change from query to query among them, the budgets hold.
 */
module SpfBudget {
  import Cidr
  import opened SpfCheck
  import opened SpfRecord
  import opened Text

  // Neither budget is overdrawn.
  predicate Solvent(w: Work) {
    w.lookups <= MAX_DNS_MECHANISMS && w.voids <= MAX_VOID_LOOKUPS
  }

  // The lookups that were granted; the one past the limit is refused before it reaches the DNS.
  function Granted(w: Work): nat {
    if w.lookups <= MAX_DNS_MECHANISMS then w.lookups else MAX_DNS_MECHANISMS
  }

  // From `w` to `v`: every granted lookup cost at most 1 + 10 queries, one of them TXT, beyond `slack` of
  // each; one lookup or void too many at most was counted; and no policy was nested deeper than the lookups spent.
  predicate Paid(w: Work, v: Work, slack: nat) {
    && w.lookups <= v.lookups <= MAX_DNS_MECHANISMS + 1
    && w.voids <= v.voids <= MAX_VOID_LOOKUPS + 1
    && v.asked <= w.asked + slack + (1 + MAX_MX_ADDRESS_LOOKUPS) * (Granted(v) - Granted(w))
    && v.askedTxt <= w.askedTxt + slack + (Granted(v) - Granted(w))
    && v.deepest <= Max(w.deepest, Granted(v))
  }

  lemma {:induction false} HostsPaid(env: Env, hosts: seq<string>, d: DualCidr, w: Work)
    ensures var v := MatchHosts(env, hosts, d, w).1;
            v == w.(asked := v.asked) && w.asked <= v.asked <= w.asked + |hosts|
    ensures MatchHosts(env, hosts, d, w).0 != Error
  {
    if hosts != [] {
      HostsPaid(env, hosts[1..], d, w.(asked := w.asked + 1));
    }
  }

  // One of the three address mechanisms, its lookup granted: at most eleven queries.
  lemma AddressMechanismPaid(env: Env, value: string, domain: string, w: Work, r: (Outcome, Work))
    requires Solvent(w)
    requires r == MatchA(env, value, domain, w) || r == MatchMx(env, value, domain, w)
             || r == MatchExists(env, value, w)
    ensures r.1 == w.(asked := r.1.asked, voids := r.1.voids)
    ensures w.asked <= r.1.asked <= w.asked + 1 + MAX_MX_ADDRESS_LOOKUPS
    ensures w.voids <= r.1.voids <= w.voids + 1
    ensures Solvent(r.1) || r.0 == Error
  {
    var d := SplitDualCidr(value);
    var w1 := w.(asked := w.asked + 1);
    var answer := env.dns.mx(w.asked, OrCurrent(d.domain, domain));
    if answer.Answered? {
      HostsPaid(env, answer.records, d, Void(w1, answer.records));
    }
  }

  lemma {:induction false} DomainPaid(env: Env, domain: string, w: Work, depth: nat)
    requires Solvent(w) && depth <= w.lookups
    ensures var (r, v) := EvalDomain(env, domain, w, depth);
            Paid(w, v, 1) && (Solvent(v) || r == PermError)
    decreases Levels(depth), 4
  {
    var answer := env.dns.txt(w.asked, domain);
    if answer.Answered? {
      PublishedPolicy(env, domain, answer.records, PolicyOf(answer.records), w, depth);
      PolicyPaid(env, PolicyOf(answer.records), domain, AfterTxt(w, depth), depth);
    }
  }

  lemma {:induction false} PolicyPaid(env: Env, policy: Policy, domain: string, w: Work, depth: nat)
    requires Solvent(w) && depth <= w.lookups
    ensures var (r, v) := EvalPolicy(env, policy, domain, w, depth);
            Paid(w, v, 0) && (Solvent(v) || r == PermError)
    decreases Levels(depth), 3
  {
    if policy.Published? {
      TermsPaid(env, policy.terms, domain, w, depth);
      var (found, w1) := EvalTerms(env, policy.terms, domain, w, depth);
      if found.None? {
        RedirectPaid(env, RedirectOf(policy.terms), w1, depth);
      }
    }
  }

  lemma {:induction false} RedirectPaid(env: Env, redirect: Option<string>, w: Work, depth: nat)
    requires Solvent(w) && depth <= w.lookups
    ensures var (r, v) := EvalRedirect(env, redirect, w, depth);
            Paid(w, v, 0) && (Solvent(v) || r == PermError)
    decreases Levels(depth), 1
  {
    if redirect.Some? && w.lookups < MAX_DNS_MECHANISMS {
      DomainPaid(env, redirect.value, w.(lookups := w.lookups + 1), depth + 1);
    }
  }

  lemma {:induction false} TermsPaid(env: Env, terms: seq<SpfTerm>, domain: string, w: Work, depth: nat)
    requires Solvent(w) && depth <= w.lookups
    ensures var (r, v) := EvalTerms(env, terms, domain, w, depth);
            Paid(w, v, 0) && (Solvent(v) || r == Some(PermError))
    decreases Levels(depth), 2, |terms|
  {
    if terms != [] {
      if terms[0].isModifier {
        TermsPaid(env, terms[1..], domain, w, depth);
      } else {
        TermPaid(env, terms[0], domain, w, depth);
        var (outcome, w1) := MatchTerm(env, terms[0], domain, w, depth);
        if outcome == NotMatched {
          TermsPaid(env, terms[1..], domain, w1, depth);
        }
      }
    }
  }

  lemma {:induction false} TermPaid(env: Env, t: SpfTerm, domain: string, w: Work, depth: nat)
    requires Solvent(w) && depth <= w.lookups
    ensures var (r, v) := MatchTerm(env, t, domain, w, depth);
            Paid(w, v, 0) && (Solvent(v) || r == Error)
    decreases Levels(depth), 1
  {
    if '%' !in ValueOf(t) && AsksDns(t.mechanism) && w.lookups < MAX_DNS_MECHANISMS {
      if t.mechanism == "include" {
        IncludePaid(env, t, domain, w, depth);
      } else {
        GrantedPaid(env, t, domain, w, depth);
      }
    }
  }

  lemma {:induction false} IncludePaid(env: Env, t: SpfTerm, domain: string, w: Work, depth: nat)
    requires Solvent(w) && depth <= w.lookups < MAX_DNS_MECHANISMS && t.mechanism == "include" && '%' !in ValueOf(t)
    ensures var (r, v) := MatchTerm(env, t, domain, w, depth);
            Paid(w, v, 0) && (Solvent(v) || r == Error)
    decreases Levels(depth), 0
  {
    IncludeGranted(env, t, domain, w, depth);
    DomainPaid(env, ValueOf(t), w.(lookups := w.lookups + 1), depth + 1);
  }

  lemma GrantedPaid(env: Env, t: SpfTerm, domain: string, w: Work, depth: nat)
    requires Solvent(w) && depth <= w.lookups < MAX_DNS_MECHANISMS
    requires t.mechanism != "include" && AsksDns(t.mechanism) && '%' !in ValueOf(t)
    ensures var (r, v) := MatchTerm(env, t, domain, w, depth);
            Paid(w, v, 0) && (Solvent(v) || r == Error)
  {
    var w1 := w.(lookups := w.lookups + 1);
    assert MatchTerm(env, t, domain, w, depth) == MatchGranted(env, t.mechanism, ValueOf(t), domain, w1, depth);
    GrantedWithin(env, t.mechanism, ValueOf(t), domain, w1, depth);
  }

  lemma GrantedWithin(env: Env, mechanism: string, value: string, domain: string, w: Work, depth: nat)
    requires w.lookups > 0 && Solvent(w) && depth < w.lookups && mechanism != "include" && AsksDns(mechanism)
    ensures var (r, v) := MatchGranted(env, mechanism, value, domain, w, depth);
            Paid(w.(lookups := w.lookups - 1), v, 0) && (Solvent(v) || r == Error)
  {
    if mechanism == "a" {
      AddressMechanismPaid(env, value, domain, w, MatchA(env, value, domain, w));
    } else if mechanism == "mx" {
      AddressMechanismPaid(env, value, domain, w, MatchMx(env, value, domain, w));
    } else {
      AddressMechanismPaid(env, value, domain, w, MatchExists(env, value, w));
    }
  }

  // A whole check: at most 111 queries, at most 11 of them for TXT; no policy is nested deeper than the
  // lookups spent, so the nesting guard never fires; and a budget overdrawn at any depth makes the answer
  // permerror.
  lemma CheckIsBounded(dns: Dns, platform: Platform, ip: string, domain: string)
    ensures var (r, work) := Checked(dns, platform, ip, domain);
            && work.asked <= 111 && work.askedTxt <= 11
            && work.deepest <= work.lookups && work.deepest <= MAX_DNS_MECHANISMS
            && (!Solvent(work) ==> r == PermError)
  {
    var env := Env(dns, platform, Normalized(platform, ip));
    DomainPaid(env, domain, NO_WORK, 0);
  }

  // ---- The bounds are reached ----

  // Whenever it is asked, here as the n-th query, the domain publishes the policy, whose first term includes it.
  ghost predicate FindsItself(env: Env, n: nat, domain: string, txts: seq<string>, terms: seq<SpfTerm>) {
    env.dns.txt(n, domain) == Answered(txts) && PolicyOf(txts) == Published(terms) && terms != []
      && IncludeOf(terms[0], domain)
  }

  // The policy of the domain, `terms`, starts by including the domain itself.
  ghost predicate IncludesItself(env: Env, domain: string, txts: seq<string>, terms: seq<SpfTerm>) {
    forall n: nat {:trigger FindsItself(env, n, domain, txts, terms)} :: FindsItself(env, n, domain, txts, terms)
  }

  predicate IncludeOf(t: SpfTerm, domain: string) {
    !t.isModifier && t.mechanism == "include" && ValueOf(t) == domain && '%' !in domain
  }

  predicate Fails(env: Env, domain: string, w: Work, depth: nat, v: Work) {
    EvalDomain(env, domain, w, depth) == (PermError, v)
  }

  predicate TermFails(env: Env, t: SpfTerm, domain: string, w: Work, depth: nat, v: Work) {
    depth <= MAX_DNS_MECHANISMS && MatchTerm(env, t, domain, w, depth) == (Error, v)
  }

  lemma IncludeRefused(env: Env, t: SpfTerm, domain: string, w: Work, depth: nat)
    requires depth <= MAX_DNS_MECHANISMS <= w.lookups && IncludeOf(t, domain)
    ensures TermFails(env, t, domain, w, depth, w.(lookups := w.lookups + 1))
  {
  }

  lemma IncludeFails(env: Env, t: SpfTerm, domain: string, w: Work, depth: nat, v: Work)
    requires depth <= MAX_DNS_MECHANISMS && w.lookups < MAX_DNS_MECHANISMS && IncludeOf(t, domain)
    requires Fails(env, domain, w.(lookups := w.lookups + 1), depth + 1, v)
    ensures TermFails(env, t, domain, w, depth, v)
  {
    IncludeGranted(env, t, domain, w, depth);
  }

  lemma FirstTermFails(env: Env, domain: string, txts: seq<string>, terms: seq<SpfTerm>, w: Work, depth: nat, v: Work)
    requires depth <= MAX_DNS_MECHANISMS && FindsItself(env, w.asked, domain, txts, terms)
    requires TermFails(env, terms[0], domain, AfterTxt(w, depth), depth, v)
    ensures Fails(env, domain, w, depth, v)
  {
    PublishedPolicy(env, domain, txts, Published(terms), w, depth);
    FirstSettles(env, terms, domain, AfterTxt(w, depth), depth, v);
  }

  lemma FirstSettles(env: Env, terms: seq<SpfTerm>, domain: string, w: Work, depth: nat, v: Work)
    requires depth <= MAX_DNS_MECHANISMS && terms != [] && !terms[0].isModifier
             && TermFails(env, terms[0], domain, w, depth, v)
    ensures EvalPolicy(env, Published(terms), domain, w, depth) == (PermError, v)
  {
    assert EvalTerms(env, terms, domain, w, depth) == (Some(PermError), v);
  }

  // The include of one round fails: the budget refuses it, or the policy it includes fails.
  lemma RoundFails(env: Env, t: SpfTerm, domain: string, w: Work, depth: nat, w1: Work, v: Work)
    requires IncludeOf(t, domain) && depth <= w.lookups <= MAX_DNS_MECHANISMS && w1 == w.(lookups := w.lookups + 1)
    requires if w.lookups == MAX_DNS_MECHANISMS then v == w1 else Fails(env, domain, w1, depth + 1, v)
    ensures TermFails(env, t, domain, w, depth, v)
  {
    if w.lookups == MAX_DNS_MECHANISMS {
      IncludeRefused(env, t, domain, w, depth);
    } else {
      IncludeFails(env, t, domain, w, depth, v);
    }
  }

  function AfterInclude(w: Work, depth: nat): Work {
    var w1 := AfterTxt(w, depth);
    w1.(lookups := w1.lookups + 1)
  }

  // The evaluation fails with the lookups used up, one TXT query for each that was left.
  ghost predicate Doomed(env: Env, domain: string, w: Work, depth: nat) {
    exists v :: Fails(env, domain, w, depth, v) && Exhausts(w, v)
  }

  predicate Exhausts(w: Work, v: Work) {
    v.lookups == MAX_DNS_MECHANISMS + 1 && v.askedTxt == w.askedTxt + 1 + (MAX_DNS_MECHANISMS - w.lookups)
  }

  lemma PolicyRoundFails(env: Env, domain: string, txts: seq<string>, terms: seq<SpfTerm>, w: Work, depth: nat,
      w1: Work, v: Work)
    requires depth <= w.lookups <= MAX_DNS_MECHANISMS && FindsItself(env, w.asked, domain, txts, terms)
             && w1 == AfterInclude(w, depth)
    requires if w.lookups == MAX_DNS_MECHANISMS then v == w1 else Fails(env, domain, w1, depth + 1, v)
    ensures Fails(env, domain, w, depth, v)
  {
    RoundFails(env, terms[0], domain, AfterTxt(w, depth), depth, w1, v);
    FirstTermFails(env, domain, txts, terms, w, depth, v);
  }

  lemma RoundIsDoomed(env: Env, domain: string, txts: seq<string>, terms: seq<SpfTerm>, w: Work, depth: nat, w1: Work)
    requires depth <= w.lookups <= MAX_DNS_MECHANISMS && FindsItself(env, w.asked, domain, txts, terms)
    requires w1 == AfterInclude(w, depth) && (w.lookups < MAX_DNS_MECHANISMS ==> Doomed(env, domain, w1, depth + 1))
    ensures Doomed(env, domain, w, depth)
  {
    var v := w1;
    if w.lookups < MAX_DNS_MECHANISMS {
      v :| Fails(env, domain, w1, depth + 1, v) && Exhausts(w1, v);
    }
    PolicyRoundFails(env, domain, txts, terms, w, depth, w1, v);
    assert Exhausts(w, v);
  }

  lemma {:induction false} CycleIsDoomed(env: Env, domain: string, txts: seq<string>, terms: seq<SpfTerm>, w: Work,
      depth: nat)
    requires IncludesItself(env, domain, txts, terms) && depth <= w.lookups <= MAX_DNS_MECHANISMS
    ensures Doomed(env, domain, w, depth)
    decreases MAX_DNS_MECHANISMS - w.lookups
  {
    if w.lookups < MAX_DNS_MECHANISMS {
      CycleIsDoomed(env, domain, txts, terms, AfterInclude(w, depth), depth + 1);
    }
    NextRoundIsDoomed(env, domain, txts, terms, w, depth, AfterInclude(w, depth));
  }

  lemma NextRoundIsDoomed(env: Env, domain: string, txts: seq<string>, terms: seq<SpfTerm>, w: Work,
      depth: nat, w1: Work)
    requires IncludesItself(env, domain, txts, terms) && depth <= w.lookups <= MAX_DNS_MECHANISMS
    requires w1 == AfterInclude(w, depth) && (w.lookups < MAX_DNS_MECHANISMS ==> Doomed(env, domain, w1, depth + 1))
    ensures Doomed(env, domain, w, depth)
  {
    FoundAgain(env, domain, txts, terms, w.asked);
    RoundIsDoomed(env, domain, txts, terms, w, depth, w1);
  }

  lemma FoundAgain(env: Env, domain: string, txts: seq<string>, terms: seq<SpfTerm>, n: nat)
    requires IncludesItself(env, domain, txts, terms)
    ensures FindsItself(env, n, domain, txts, terms)
  {
    assert FindsItself(env, n, domain, txts, terms);
  }

  // A policy that includes itself ends in permerror after exactly eleven TXT queries, whatever follows in it:
  // each round spends one lookup, and the eleventh include is refused.
  lemma CyclicIncludeEnds(env: Env, domain: string, txts: seq<string>, terms: seq<SpfTerm>)
    requires IncludesItself(env, domain, txts, terms)
    ensures EvalDomain(env, domain, NO_WORK, 0).0 == PermError
    ensures EvalDomain(env, domain, NO_WORK, 0).1.askedTxt == 11
  {
    CycleIsDoomed(env, domain, txts, terms, NO_WORK, 0);
    var v :| Fails(env, domain, NO_WORK, 0, v) && Exhausts(NO_WORK, v);
  }

  function Repeat<T>(x: T, n: nat): (r: seq<T>)
    ensures |r| == n && forall i :: 0 <= i < n ==> r[i] == x
  {
    seq(n, i => x)
  }

  const MX_TERM: SpfTerm := SpfTerm(Plus, "mx", None, false, "mx")

  // A DNS that publishes a policy of ten "mx" and ten mail hosts for every name, and no address.
  ghost predicate FansOut(dns: Dns) {
    && (forall n: nat, name ::
          && dns.txt(n, name).Answered?
          && PolicyOf(dns.txt(n, name).records) == Published(Repeat(MX_TERM, 10)))
    && (forall n: nat, name, rr :: dns.a(n, name, rr) == Answered([]))
    && (forall n: nat, name :: dns.mx(n, name) == Answered(Repeat("h", 10)))
  }

  lemma {:induction false} FanOutHosts(env: Env, hosts: seq<string>, w: Work)
    requires FansOut(env.dns)
    ensures MatchHosts(env, hosts, DualCidr([], None, None), w) == (NotMatched, w.(asked := w.asked + |hosts|))
  {
    if hosts != [] {
      FanOutHosts(env, hosts[1..], w.(asked := w.asked + 1));
    }
  }

  lemma FanOutTerm(env: Env, domain: string, w: Work, depth: nat)
    requires FansOut(env.dns) && w.lookups < MAX_DNS_MECHANISMS && depth <= MAX_DNS_MECHANISMS
    ensures MatchTerm(env, MX_TERM, domain, w, depth)
            == (NotMatched, w.(lookups := w.lookups + 1, asked := w.asked + 11))
  {
    var w1 := w.(lookups := w.lookups + 1);
    FanOutHosts(env, Repeat("h", 10), w1.(asked := w1.asked + 1));
    assert SplitDualCidr([]) == DualCidr([], None, None);
  }

  lemma {:induction false} FanOutTerms(env: Env, n: nat, domain: string, w: Work, depth: nat)
    requires FansOut(env.dns) && w.lookups + n <= MAX_DNS_MECHANISMS && depth <= MAX_DNS_MECHANISMS
    ensures EvalTerms(env, Repeat(MX_TERM, n), domain, w, depth)
            == (None, w.(lookups := w.lookups + n, asked := w.asked + 11 * n))
  {
    if n > 0 {
      assert Repeat(MX_TERM, n)[1..] == Repeat(MX_TERM, n - 1);
      FanOutTerm(env, domain, w, depth);
      FanOutTerms(env, n - 1, domain, w.(lookups := w.lookups + 1, asked := w.asked + 11), depth);
    }
  }

  lemma RunsThrough(env: Env, domain: string, terms: seq<SpfTerm>, w: Work, depth: nat, v: Work)
    requires depth <= MAX_DNS_MECHANISMS
    requires EvalTerms(env, terms, domain, w, depth) == (None, v) && RedirectOf(terms) == None
    ensures EvalPolicy(env, Published(terms), domain, w, depth) == (Neutral, v)
  {
  }

  lemma FanOutEvaluates(env: Env, domain: string, w: Work, depth: nat, v: Work)
    requires FansOut(env.dns) && w.lookups == 0 && depth <= MAX_DNS_MECHANISMS
    requires v == AfterTxt(w, depth).(lookups := 10, asked := w.asked + 111)
    ensures EvalDomain(env, domain, w, depth) == (Neutral, v)
  {
    var w1 := AfterTxt(w, depth);
    FanOutTerms(env, 10, domain, w1, depth);
    NoRedirect(10);
    RunsThrough(env, domain, Repeat(MX_TERM, 10), w1, depth, v);
    PublishedPolicy(env, domain, env.dns.txt(w.asked, domain).records, Published(Repeat(MX_TERM, 10)), w, depth);
  }

  lemma FanOutChecks(dns: Dns, platform: Platform, ip: string, domain: string, w: Work, depth: nat, v: Work)
    requires FansOut(dns) && domain != [] && !IsMalformedDomain(domain) && w == NO_WORK && depth == 0
    requires ToBig(Env(dns, platform, Normalized(platform, ip)), Normalized(platform, ip)).Some?
    requires v == AfterTxt(w, depth).(lookups := 10, asked := w.asked + 111)
    ensures Checked(dns, platform, ip, domain) == (Neutral, v)
  {
    FanOutEvaluates(Env(dns, platform, Normalized(platform, ip)), domain, w, depth, v);
    AcceptedIsEvaluated(dns, platform, ip, domain, w, depth, Neutral, v);
  }

  // The bound of 111 queries is exact: such a DNS takes them all, for every client and every well-formed domain.
  lemma BoundIsReached(dns: Dns, platform: Platform, ip: string, domain: string)
    requires FansOut(dns) && domain != [] && !IsMalformedDomain(domain)
    requires ToBig(Env(dns, platform, Normalized(platform, ip)), Normalized(platform, ip)).Some?
    ensures Checked(dns, platform, ip, domain) == (Neutral, Work(10, 0, 111, 1, 0))
  {
    FanOutChecks(dns, platform, ip, domain, NO_WORK, 0, Work(10, 0, 111, 1, 0));
  }

  lemma AcceptedIsEvaluated(dns: Dns, platform: Platform, ip: string, domain: string, w: Work, depth: nat,
      r: SpfResult, v: Work)
    requires domain != [] && !IsMalformedDomain(domain) && w == NO_WORK && depth == 0
    requires ToBig(Env(dns, platform, Normalized(platform, ip)), Normalized(platform, ip)).Some?
    requires EvalDomain(Env(dns, platform, Normalized(platform, ip)), domain, w, depth) == (r, v)
    ensures Checked(dns, platform, ip, domain) == (r, v)
  {
  }

  lemma {:induction false} NoRedirect(n: nat)
    ensures RedirectOf(Repeat(MX_TERM, n)) == None
  {
    if n > 0 {
      NoRedirect(n - 1);
      assert Repeat(MX_TERM, n)[..n - 1] == Repeat(MX_TERM, n - 1);
    }
  }
}
