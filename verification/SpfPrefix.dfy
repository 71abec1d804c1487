/**
 The prefix lengths of "a" and "mx" values (the dual-cidr-length of section 5.6 of RFC 7208): which values carry
 them, and which clients an address with a prefix length covers.
 */
module SpfPrefix {
  import opened Cidr
  import opened SpfCheck
  import opened Text

  // ---- Decimal numbers ----

  function Digit(d: nat): char
    requires d < 10
  {
    ('0' as int + d) as char
  }

  // The number as it is printed.
  function Digits(m: nat): (s: string)
    ensures s != ""
  {
    if m < 10 then [Digit(m)] else Digits(m / 10) + [Digit(m % 10)]
  }

  function Padding(n: nat): (s: string)
    ensures |s| == n && forall i :: 0 <= i < n ==> s[i] == '0'
  {
    seq(n, i => '0')
  }

  lemma DecimalSnoc(s: string, d: nat)
    requires d < 10
    ensures Decimal(s + [Digit(d)]) == Decimal(s) * 10 + d
  {
    var t := s + [Digit(d)];
    assert t[..|t| - 1] == s && t[|t| - 1] == Digit(d);
  }

  lemma {:induction false} PaddingIsNothing(zeros: nat)
    ensures Decimal(Padding(zeros)) == 0
  {
    if zeros > 0 {
      PaddingIsNothing(zeros - 1);
      DecimalSnoc(Padding(zeros - 1), 0);
      assert Padding(zeros) == Padding(zeros - 1) + [Digit(0)];
    }
  }

  // A printed number reads back, whatever zeros stand in front of it.
  lemma {:induction false} PrintedNumberReads(zeros: nat, m: nat)
    ensures AllDigits(Padding(zeros) + Digits(m)) && Decimal(Padding(zeros) + Digits(m)) == m
  {
    if m < 10 {
      PaddingIsNothing(zeros);
      DecimalSnoc(Padding(zeros), m);
    } else {
      PrintedNumberReads(zeros, m / 10);
      DecimalSnoc(Padding(zeros) + Digits(m / 10), m % 10);
      assert Padding(zeros) + Digits(m) == Padding(zeros) + Digits(m / 10) + [Digit(m % 10)];
    }
  }

  lemma PrintedSnoc(zeros: nat, m: nat, d: nat)
    requires d < 10
    ensures Padding(zeros) + Digits(m) + [Digit(d)]
            == if m == 0 then Padding(zeros + 1) + Digits(d) else Padding(zeros) + Digits(m * 10 + d)
  {
    if m == 0 {
      assert Padding(zeros) + Digits(0) == Padding(zeros + 1);
    } else {
      assert Digits(m * 10 + d) == Digits(m) + [Digit(d)];
    }
  }

  ghost predicate IsPrinted(s: string, m: nat) {
    exists zeros: nat :: s == Padding(zeros) + Digits(m)
  }

  lemma OneDigit(c: char)
    requires IsDigit(c)
    ensures Decimal([c]) < 10 && [c] == [Digit(Decimal([c]))] && IsPrinted([c], Decimal([c]))
  {
    DecimalSnoc("", c as nat - '0' as nat);
    assert "" + [c] == [c];
    assert [c] == Padding(0) + Digits(Decimal([c]));
  }

  lemma PrintedGrows(s: string, m: nat, d: nat)
    requires IsPrinted(s, m) && d < 10
    ensures IsPrinted(s + [Digit(d)], m * 10 + d)
  {
    var zeros: nat :| s == Padding(zeros) + Digits(m);
    PrintedSnoc(zeros, m, d);
  }

  // And nothing but such a text is made of digits.
  lemma {:induction false} DigitsArePrinted(s: string)
    requires AllDigits(s)
    ensures IsPrinted(s, Decimal(s))
  {
    var init, c := s[..|s| - 1], s[|s| - 1];
    InitLast(s);
    OneDigit(c);
    if init == "" {
      assert s == [c];
    } else {
      DigitsArePrinted(init);
      DecimalSnoc(init, Decimal([c]));
      PrintedGrows(init, Decimal(init), Decimal([c]));
    }
  }

  // ---- Which values carry prefix lengths ----

  function Behind(slashes: string, length: Option<string>): string {
    if length.None? then "" else slashes + length.value
  }

  // The domain, with "/" and the prefix length for IPv4 addresses, "//" and the one for IPv6 addresses, or both.
  function PrintDual(domain: string, four: Option<string>, six: Option<string>): string {
    domain + (Behind("/", four) + Behind("//", six))
  }

  predicate IsLength(length: Option<string>) {
    length.Some? ==> AllDigits(length.value)
  }

  predicate IsDual(value: string, domain: string, four: Option<string>, six: Option<string>) {
    '/' !in domain && IsLength(four) && IsLength(six) && value == PrintDual(domain, four, six)
  }

  function NumberOf(length: Option<string>): Option<int> {
    if length.None? then None else Some(Decimal(length.value))
  }

  lemma FirstSlash(front: string, rest: string)
    requires '/' !in front
    ensures IndexOf(front + ("/" + rest), '/') == |front|
  {
    assert (front + ("/" + rest))[|front|] == '/';
  }

  lemma DigitsHaveNoSlash(s: string)
    requires AllDigits(s)
    ensures '/' !in s && s[0] != '/'
  {
  }

  lemma SplitsAtFirstSlash(domain: string, rest: string)
    requires '/' !in domain
    ensures SplitDualCidr(domain + ("/" + rest)) == SplitBehind(domain + ("/" + rest), domain, rest)
  {
    var value := domain + ("/" + rest);
    FirstSlash(domain, rest);
    assert value[..|domain|] == domain && value[|domain| + 1..] == rest;
  }

  lemma FourReads(domain: string, four: string)
    requires '/' !in domain && AllDigits(four)
    ensures SplitDualCidr(domain + ("/" + four)) == DualCidr(domain, Some(Decimal(four)), None)
  {
    SplitsAtFirstSlash(domain, four);
    DigitsHaveNoSlash(four);
  }

  lemma SixReads(domain: string, six: string)
    requires '/' !in domain && AllDigits(six)
    ensures SplitDualCidr(domain + ("//" + six)) == DualCidr(domain, None, Some(Decimal(six)))
  {
    SplitsAtFirstSlash(domain, "/" + six);
    assert "//" + six == "/" + ("/" + six) && ("/" + six)[1..] == six;
  }

  lemma BothBehind(four: string, six: string)
    ensures "/" + four + ("//" + six) == "/" + (four + ("/" + ("/" + six)))
  {
  }

  lemma BothRead(domain: string, four: string, six: string)
    requires '/' !in domain && AllDigits(four) && AllDigits(six)
    ensures SplitDualCidr(domain + ("/" + four + ("//" + six)))
            == DualCidr(domain, Some(Decimal(four)), Some(Decimal(six)))
  {
    var rest := four + ("/" + ("/" + six));
    BothBehind(four, six);
    SplitsAtFirstSlash(domain, rest);
    DigitsHaveNoSlash(four);
    FirstSlash(four, "/" + six);
    assert rest[..|four|] == four && rest[|four| + 1] == '/' && rest[|four| + 2..] == six;
  }

  lemma DualReads(value: string, domain: string, four: Option<string>, six: Option<string>)
    requires IsDual(value, domain, four, six)
    ensures SplitDualCidr(value) == DualCidr(domain, NumberOf(four), NumberOf(six))
  {
    match (four, six) {
      case (None, None) => assert value == domain;
      case (Some(m), None) =>
        assert value == domain + ("/" + m);
        FourReads(domain, m);
      case (None, Some(n)) =>
        assert value == domain + ("//" + n);
        SixReads(domain, n);
      case (Some(m), Some(n)) => BothRead(domain, m, n);
    }
  }

  lemma FourIsDual(domain: string, four: string)
    requires '/' !in domain && AllDigits(four)
    ensures IsDual(domain + ("/" + four), domain, Some(four), None)
  {
    assert "/" + four + "" == "/" + four;
  }

  lemma SixIsDual(domain: string, six: string)
    requires '/' !in domain && AllDigits(six)
    ensures IsDual(domain + ("/" + ("/" + six)), domain, None, Some(six))
  {
    assert "" + ("//" + six) == "/" + ("/" + six);
  }

  lemma BothAreDual(domain: string, four: string, six: string)
    requires '/' !in domain && AllDigits(four) && AllDigits(six)
    ensures IsDual(domain + ("/" + (four + ("/" + ("/" + six)))), domain, Some(four), Some(six))
  {
    BothBehind(four, six);
  }

  lemma RestIsDual(value: string, domain: string, rest: string)
    requires '/' !in domain && value == domain + ("/" + rest)
    requires SplitBehind(value, domain, rest) != DualCidr(value, None, None)
    ensures exists four, six :: IsDual(value, domain, four, six) && (four.Some? || six.Some?)
  {
    if rest[0] == '/' {
      assert rest == "/" + rest[1..];
      SixIsDual(domain, rest[1..]);
    } else if '/' !in rest {
      FourIsDual(domain, rest);
    } else {
      var next := IndexOf(rest, '/');
      assert rest == rest[..next] + ("/" + ("/" + rest[next + 2..]));
      BothAreDual(domain, rest[..next], rest[next + 2..]);
    }
  }

  // A value that is not kept whole has one of the printed forms.
  lemma SplitIsDual(value: string)
    requires SplitDualCidr(value) != DualCidr(value, None, None)
    ensures exists domain, four, six :: IsDual(value, domain, four, six) && (four.Some? || six.Some?)
  {
    var slash := IndexOf(value, '/');
    var domain, rest := value[..slash], value[slash + 1..];
    assert value == domain + ("/" + rest);
    RestIsDual(value, domain, rest);
  }

  // A value of a printed form is split into its parts, and every other value is kept whole.
  lemma SplitMeans(value: string)
    ensures forall domain, four, six :: IsDual(value, domain, four, six) ==>
            SplitDualCidr(value) == DualCidr(domain, NumberOf(four), NumberOf(six))
    ensures SplitDualCidr(value) == DualCidr(value, None, None) <==>
            forall domain, four, six :: IsDual(value, domain, four, six) ==> four.None? && six.None?
  {
    forall domain, four, six | IsDual(value, domain, four, six)
      ensures SplitDualCidr(value) == DualCidr(domain, NumberOf(four), NumberOf(six)) {
      DualReads(value, domain, four, six);
    }
    if SplitDualCidr(value) != DualCidr(value, None, None) {
      SplitIsDual(value);
    }
  }

  function DigitsOf(m: Option<nat>): Option<string> {
    if m.None? then None else Some(Digits(m.value))
  }

  lemma LengthReads(m: Option<nat>)
    ensures IsLength(DigitsOf(m)) && NumberOf(DigitsOf(m)) == m
  {
    if m.Some? {
      PrintedNumberReads(0, m.value);
      assert Padding(0) + Digits(m.value) == Digits(m.value);
    }
  }

  // Printing and splitting: the domain and both numbers come back.
  lemma PrintedDualReads(domain: string, m: Option<nat>, n: Option<nat>)
    requires '/' !in domain
    ensures SplitDualCidr(PrintDual(domain, DigitsOf(m), DigitsOf(n))) == DualCidr(domain, m, n)
  {
    LengthReads(m);
    LengthReads(n);
    DualReads(PrintDual(domain, DigitsOf(m), DigitsOf(n)), domain, DigitsOf(m), DigitsOf(n));
  }

  // ---- Which clients are covered ----

  // The client and the address are numbers of one width, and one aligned block of 2^(width - prefix) of them holds
  // both; without a prefix they are the same number.
  ghost predicate SharesBlock(env: Env, address: string, prefix: Option<nat>) {
    var a, b := ToBig(env, env.ip), ToBig(env, address);
    && a.Some? && b.Some? && a.value.bits == b.value.bits
    && if prefix.None? then a.value.value == b.value.value
       else prefix.value <= a.value.bits && SameBlock(a.value.value, b.value.value, a.value.bits - prefix.value)
  }

  lemma PrefixIsBlock(a: IpValue, b: IpValue, prefix: nat)
    requires a.value < Pow2(a.bits) && b.value < Pow2(b.bits)
    ensures BlockMatch(a, b, prefix) <==>
            a.bits == b.bits && prefix <= a.bits && SameBlock(a.value, b.value, a.bits - prefix)
  {
    if a.bits == b.bits && prefix <= a.bits {
      BlockMatchMeaning(a, b, prefix);
    }
  }

  lemma NumberInRange(env: Env, ip: string)
    requires ToBig(env, ip).Some?
    ensures ToBig(env, ip).value.value < Pow2(ToBig(env, ip).value.bits)
  {
    BigInRange(env.platform.ip(ip).value);
  }

  lemma NetworkIsBlock(env: Env, address: string, prefix: Option<nat>)
    ensures InNetwork(env, env.ip, address, prefix) <==> SharesBlock(env, address, prefix)
  {
    var a, b := ToBig(env, env.ip), ToBig(env, address);
    if a.Some? && b.Some? && prefix.Some? {
      NumberInRange(env, env.ip);
      NumberInRange(env, address);
      PrefixIsBlock(a.value, b.value, prefix.value);
    }
  }

  function Octets4(x: seq<nat>): seq<Option<int>>
    requires |x| == 4
  {
    [Some(x[0]), Some(x[1]), Some(x[2]), Some(x[3])]
  }

  function Number4(x: seq<nat>): nat
    requires |x| == 4
  {
    x[0] * 0x100_0000 + x[1] * 0x1_0000 + x[2] * 0x100 + x[3]
  }

  // For IPv4: one of the aligned blocks of 2^(32 - m) numbers holds both addresses.
  lemma Ipv4SharesBlock(env: Env, address: string, x: seq<nat>, y: seq<nat>, m: nat)
    requires |x| == 4 && |y| == 4 && forall i :: 0 <= i < 4 ==> x[i] < 256 && y[i] < 256
    requires env.platform.ip(env.ip) == Some(V4(Octets4(x))) && env.platform.ip(address) == Some(V4(Octets4(y)))
    ensures SharesBlock(env, address, Some(m)) <==>
            m <= 32 && SameBlock(Number4(x), Number4(y), 32 - m)
  {
    V4Number(x[0], x[1], x[2], x[3]);
    V4Number(y[0], y[1], y[2], y[3]);
  }

  // The prefix length that counts for the client's family.
  function For(env: Env, m: Option<nat>, n: Option<nat>): Option<nat> {
    if IsV4(env, env.ip) then m else n
  }

  ghost predicate SomeShares(env: Env, addresses: seq<string>, prefix: Option<nat>) {
    exists i :: 0 <= i < |addresses| && SharesBlock(env, addresses[i], prefix)
  }

  predicate AddressTexts(addresses: seq<string>) {
    forall i :: 0 <= i < |addresses| ==> '/' !in addresses[i]
  }

  lemma CoversByBlock(env: Env, addresses: seq<string>, domain: string, m: Option<nat>, n: Option<nat>)
    requires AddressTexts(addresses)
    ensures Covers(env, addresses, DualCidr(domain, m, n)) <==> SomeShares(env, addresses, For(env, m, n))
  {
    var prefix := For(env, m, n);
    forall i | 0 <= i < |addresses|
      ensures CidrMatchWith(env, env.ip, addresses[i], prefix) <==> SharesBlock(env, addresses[i], prefix) {
      NetworkIsBlock(env, addresses[i], prefix);
    }
  }

  // The record type that holds addresses of the client's family.
  function Family(env: Env): Rr {
    var t := env.platform.ip(env.ip);
    if t.Some? && t.value.V6? then Aaaa else A
  }

  lemma AddressesAreMatched(env: Env, value: string, d: DualCidr, domain: string, w: Work, addresses: seq<string>)
    requires SplitDualCidr(value) == d && (addresses == [] ==> w.voids < 2)
    requires env.dns.a(w.asked, if d.domain == "" then domain else d.domain, Family(env)) == Answered(addresses)
    ensures MatchA(env, value, domain, w).0 == if Covers(env, addresses, d) then Matched else NotMatched
  {
  }

  // An "a" with any prefix lengths matches exactly if the client shares a block with an answered address.
  lemma AddressMechanismMatches(env: Env, name: string, m: Option<nat>, n: Option<nat>, domain: string, w: Work,
      addresses: seq<string>)
    requires '/' !in name && AddressTexts(addresses) && (addresses == [] ==> w.voids < 2)
    requires env.dns.a(w.asked, if name == "" then domain else name, Family(env)) == Answered(addresses)
    ensures MatchA(env, PrintDual(name, DigitsOf(m), DigitsOf(n)), domain, w).0
            == if SomeShares(env, addresses, For(env, m, n)) then Matched else NotMatched
  {
    var value := PrintDual(name, DigitsOf(m), DigitsOf(n));
    CoversByBlock(env, addresses, name, m, n);
    PrintedDualReads(name, m, n);
    AddressesAreMatched(env, value, DualCidr(name, m, n), domain, w, addresses);
  }

  // Every host is answered in its turn, with these addresses.
  ghost predicate HostsAnswer(env: Env, hosts: seq<string>, lists: seq<seq<string>>, asked: nat) {
    && |lists| == |hosts|
    && forall i :: 0 <= i < |hosts| ==>
       AddressTexts(lists[i]) && env.dns.a(asked + i, hosts[i], Family(env)) == Answered(lists[i])
  }

  ghost predicate SomeListShares(env: Env, lists: seq<seq<string>>, prefix: Option<nat>) {
    exists i :: 0 <= i < |lists| && SomeShares(env, lists[i], prefix)
  }

  lemma LaterHostsAnswer(env: Env, hosts: seq<string>, lists: seq<seq<string>>, asked: nat)
    requires hosts != [] && HostsAnswer(env, hosts, lists, asked)
    ensures HostsAnswer(env, hosts[1..], lists[1..], asked + 1)
    ensures AddressTexts(lists[0]) && env.dns.a(asked, hosts[0], Family(env)) == Answered(lists[0])
  {
    assert env.dns.a(asked + 0, hosts[0], Family(env)) == Answered(lists[0]);
    forall i | 0 <= i < |hosts| - 1
      ensures AddressTexts(lists[1..][i])
      ensures env.dns.a(asked + 1 + i, hosts[1..][i], Family(env)) == Answered(lists[1..][i]) {
      assert env.dns.a(asked + (i + 1), hosts[i + 1], Family(env)) == Answered(lists[i + 1]);
    }
  }

  lemma FirstHost(env: Env, hosts: seq<string>, d: DualCidr, w: Work, addresses: seq<string>)
    requires hosts != [] && env.dns.a(w.asked, hosts[0], Family(env)) == Answered(addresses)
    ensures MatchHosts(env, hosts, d, w).0
            == if Covers(env, addresses, d) then Matched
               else MatchHosts(env, hosts[1..], d, w.(asked := w.asked + 1)).0
  {
  }

  lemma {:induction false} HostsMatch(env: Env, hosts: seq<string>, lists: seq<seq<string>>, name: string,
      m: Option<nat>, n: Option<nat>, w: Work)
    requires HostsAnswer(env, hosts, lists, w.asked)
    ensures MatchHosts(env, hosts, DualCidr(name, m, n), w).0
            == if SomeListShares(env, lists, For(env, m, n)) then Matched else NotMatched
  {
    if hosts != [] {
      LaterHostsAnswer(env, hosts, lists, w.asked);
      HostsMatch(env, hosts[1..], lists[1..], name, m, n, w.(asked := w.asked + 1));
      SharesFirstOrLater(env, lists, For(env, m, n));
      CoversByBlock(env, lists[0], name, m, n);
      FirstHost(env, hosts, DualCidr(name, m, n), w, lists[0]);
    }
  }

  lemma SharesFirstOrLater(env: Env, lists: seq<seq<string>>, prefix: Option<nat>)
    requires lists != []
    ensures SomeListShares(env, lists, prefix) <==>
            SomeShares(env, lists[0], prefix) || SomeListShares(env, lists[1..], prefix)
  {
    if i :| 0 <= i < |lists| && SomeShares(env, lists[i], prefix) {
      assert i > 0 ==> lists[1..][i - 1] == lists[i];
    }
    if i :| 0 <= i < |lists| - 1 && SomeShares(env, lists[1..][i], prefix) {
      assert lists[i + 1] == lists[1..][i];
    }
  }

  lemma HostsAreAsked(env: Env, value: string, d: DualCidr, domain: string, w: Work, hosts: seq<string>)
    requires SplitDualCidr(value) == d && |hosts| <= 10 && (hosts == [] ==> w.voids < 2)
    requires env.dns.mx(w.asked, if d.domain == "" then domain else d.domain) == Answered(hosts)
    ensures MatchMx(env, value, domain, w)
            == MatchHosts(env, hosts, d, Void(w.(asked := w.asked + 1), hosts))
  {
  }

  // An "mx" matches exactly if the client shares a block with an address of some mail host.
  lemma MailHostMechanismMatches(env: Env, name: string, m: Option<nat>, n: Option<nat>, domain: string, w: Work,
      hosts: seq<string>, lists: seq<seq<string>>)
    requires '/' !in name && |hosts| <= 10 && (hosts == [] ==> w.voids < 2)
    requires HostsAnswer(env, hosts, lists, w.asked + 1)
    requires env.dns.mx(w.asked, if name == "" then domain else name) == Answered(hosts)
    ensures MatchMx(env, PrintDual(name, DigitsOf(m), DigitsOf(n)), domain, w).0
            == if SomeListShares(env, lists, For(env, m, n)) then Matched else NotMatched
  {
    var value := PrintDual(name, DigitsOf(m), DigitsOf(n));
    PrintedDualReads(name, m, n);
    HostsAreAsked(env, value, DualCidr(name, m, n), domain, w, hosts);
    HostsMatch(env, hosts, lists, name, m, n, Void(w.(asked := w.asked + 1), hosts));
  }

  // ---- Written networks ----

  // An address alone is a network of one; behind a slash stands the prefix length as the platform reads numbers.
  lemma NetworkMatches(env: Env, address: string, length: string, prefix: nat)
    requires '/' !in address && env.platform.number(length) == Some(prefix)
    ensures CidrMatch(env, env.ip, address) <==> SharesBlock(env, address, None)
    ensures CidrMatch(env, env.ip, address + ("/" + length)) <==> SharesBlock(env, address, Some(prefix))
  {
    var cidr := address + ("/" + length);
    FirstSlash(address, length);
    assert cidr[..|address|] == address && cidr[|address| + 1..] == length;
    NetworkIsBlock(env, address, None);
    NetworkIsBlock(env, address, Some(prefix));
  }
}
