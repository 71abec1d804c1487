/**
 Addresses as numbers, and whether an address lies in a block. Recognizing the address text itself
 (net.isIPv4, net.isIPv6, Number and parseInt) is left to the platform: what arrives here are the numbers
 it read, `None` standing for text that is no integer.
 */
module Cidr {
  import opened Text

  // One ":"-separated part of an IPv6 address: a hexadecimal group, or a dotted IPv4 address.
  datatype Part = Group(n: Option<int>) | Embedded(octets: seq<Option<int>>)

  // An address text that was recognized: four dotted numbers, or the parts on each side of "::".
  datatype IpText = V4(octets: seq<Option<int>>) | V6(halves: seq<seq<Part>>)

  datatype IpValue = IpValue(value: nat, bits: nat)

  predicate InRange(n: Option<int>, limit: int) {
    n.Some? && 0 <= n.value < limit
  }

  function Octets(ns: seq<Option<int>>): Option<seq<nat>> {
    if |ns| == 4 && forall i :: 0 <= i < 4 ==> InRange(ns[i], 256)
    then Some([ns[0].value, ns[1].value, ns[2].value, ns[3].value]) else None
  }

  // The 16-bit groups a part stands for.
  function PartGroups(p: Part): Option<seq<nat>> {
    match p
    case Group(n) => if InRange(n, 0x1_0000) then Some([n.value]) else None
    case Embedded(ns) =>
      match Octets(ns)
      case None => None
      case Some(o) => Some([o[0] * 256 + o[1], o[2] * 256 + o[3]])
  }

  function HalfGroups(parts: seq<Part>): Option<seq<nat>> {
    if parts == [] then Some([])
    else
      match (HalfGroups(parts[..|parts| - 1]), PartGroups(parts[|parts| - 1]))
      case (Some(earlier), Some(more)) => Some(earlier + more)
      case _ => None
  }

  function Zeros(n: nat): (r: seq<nat>)
    ensures |r| == n && forall i :: 0 <= i < n ==> r[i] == 0
  {
    seq(n, i => 0)
  }

  // The eight groups; "::" stands for as many zero groups as are missing, possibly none.
  function Groups(halves: seq<seq<Part>>): Option<seq<nat>> {
    if |halves| == 1 then
      match HalfGroups(halves[0])
      case Some(head) => if |head| == 8 then Some(head) else None
      case None => None
    else if |halves| == 2 then
      match (HalfGroups(halves[0]), HalfGroups(halves[1]))
      case (Some(head), Some(tail)) =>
        if |head| + |tail| <= 8 then Some(head + Zeros(8 - |head| - |tail|) + tail) else None
      case _ => None
    else None
  }

  method ToGroups(parts: seq<Part>) returns (r: Option<seq<nat>>)
    ensures r == HalfGroups(parts)
  {
    var out: seq<nat> := [];
    for i := 0 to |parts|
      invariant HalfGroups(parts[..i]) == Some(out)
    {
      assert parts[..i + 1][..i] == parts[..i];
      match parts[i] {
        case Embedded(ns) =>
          if |ns| != 4 || exists j :: 0 <= j < |ns| && !InRange(ns[j], 256) {
            BadPart(parts, i);
            return None;
          }
          out := out + [ns[0].value * 256 + ns[1].value, ns[2].value * 256 + ns[3].value];
        case Group(n) =>
          if !InRange(n, 0x1_0000) {
            BadPart(parts, i);
            return None;
          }
          out := out + [n.value];
      }
    }
    assert parts[..|parts|] == parts;
    r := Some(out);
  }

  lemma {:induction false} BadPart(parts: seq<Part>, i: nat)
    requires i < |parts| && PartGroups(parts[i]) == None
    ensures HalfGroups(parts) == None
  {
    if i < |parts| - 1 {
      BadPart(parts[..|parts| - 1], i);
    }
  }

  method Ipv6Groups(halves: seq<seq<Part>>) returns (r: Option<seq<nat>>)
    ensures r == Groups(halves)
  {
    if |halves| > 2 || |halves| == 0 {
      return None;
    }
    var head := ToGroups(halves[0]);
    var tail: Option<seq<nat>> := Some([]);
    if |halves| == 2 {
      tail := ToGroups(halves[1]);
    }
    if head.None? || tail.None? {
      return None;
    }
    if |halves| == 2 {
      var missing := 8 - |head.value| - |tail.value|;
      if missing < 0 {
        return None;
      }
      return Some(head.value + Zeros(missing) + tail.value);
    }
    r := if |head.value| == 8 then head else None;
  }

  // Writing eight groups with any run of zero groups left out as "::" and expanding gives them back.
  lemma CompressedExpands(groups: seq<nat>, i: nat, j: nat)
    requires |groups| == 8 && i <= j <= 8
    requires forall k :: 0 <= k < 8 ==> groups[k] < 0x1_0000
    requires forall k :: i <= k < j ==> groups[k] == 0
    ensures Groups([AsParts(groups[..i]), AsParts(groups[j..])]) == Some(groups)
  {
    PartsOfGroups(groups[..i]);
    PartsOfGroups(groups[j..]);
    ZerosBetween(groups, i, j);
  }

  lemma ZerosBetween(groups: seq<nat>, i: nat, j: nat)
    requires i <= j <= |groups| && forall k :: i <= k < j ==> groups[k] == 0
    ensures groups == groups[..i] + Zeros(j - i) + groups[j..]
  {
    assert groups == groups[..i] + groups[i..j] + groups[j..];
    assert groups[i..j] == Zeros(j - i);
  }

  function AsParts(groups: seq<nat>): (r: seq<Part>)
    ensures |r| == |groups| && forall i :: 0 <= i < |r| ==> r[i] == Group(Some(groups[i]))
  {
    seq(|groups|, i requires 0 <= i < |groups| => Group(Some(groups[i])))
  }

  lemma {:induction false} PartsOfGroups(groups: seq<nat>)
    requires forall k :: 0 <= k < |groups| ==> groups[k] < 0x1_0000
    ensures HalfGroups(AsParts(groups)) == Some(groups)
  {
    if groups != [] {
      var k := |groups| - 1;
      PartsOfGroups(groups[..k]);
      assert AsParts(groups)[..k] == AsParts(groups[..k]);
      assert groups == groups[..k] + [groups[k]];
    }
  }

  // ---- Values ----

  // Digits read in a base, most significant first.
  function Value(digits: seq<nat>, base: nat): nat {
    if digits == [] then 0 else Value(digits[..|digits| - 1], base) * base + digits[|digits| - 1]
  }

  function Pow2(n: nat): (p: nat)
    ensures p > 0
  {
    if n == 0 then 1 else 2 * Pow2(n - 1)
  }

  function Big(ip: IpText): Option<IpValue> {
    match ip
    case V4(ns) =>
      (match Octets(ns)
       case None => None
       case Some(o) => Some(IpValue(Value(o, 256), 32)))
    case V6(halves) =>
      match Groups(halves)
      case None => None
      case Some(g) => Some(IpValue(Value(g, 0x1_0000), 128))
  }

  lemma ValueSnoc(digits: seq<nat>, d: nat, base: nat)
    ensures Value(digits + [d], base) == Value(digits, base) * base + d
  {
    assert (digits + [d])[..|digits|] == digits;
  }

  // An IPv4 address is its four octets, the first the most significant.
  lemma V4Number(a: nat, b: nat, c: nat, d: nat)
    requires a < 256 && b < 256 && c < 256 && d < 256
    ensures Big(V4([Some(a), Some(b), Some(c), Some(d)]))
            == Some(IpValue(a * 0x100_0000 + b * 0x1_0000 + c * 0x100 + d, 32))
  {
    ValueSnoc([], a, 256);
    ValueSnoc([a], b, 256);
    ValueSnoc([a, b], c, 256);
    ValueSnoc([a, b, c], d, 256);
    assert [] + [a] == [a] && [a] + [b] == [a, b] && [a, b] + [c] == [a, b, c] && [a, b, c] + [d] == [a, b, c, d];
  }

  // An IPv6 address is its eight groups, each weighing 2^16 times what the next one does.
  lemma {:induction false} GroupWeighs(groups: seq<nat>, more: seq<nat>)
    ensures Value(groups + more, 0x1_0000) == Value(groups, 0x1_0000) * Pow2(16 * |more|) + Value(more, 0x1_0000)
  {
    if more == [] {
      assert groups + more == groups;
    } else {
      var n := |more| - 1;
      GroupWeighs(groups, more[..n]);
      ValueSnoc(groups + more[..n], more[n], 0x1_0000);
      ValueSnoc(more[..n], more[n], 0x1_0000);
      assert more == more[..n] + [more[n]];
      Regroup(groups, more[..n], [more[n]]);
      Pow2Of8And16();
      Pow2Add(16 * n, 16);
      Spread(Value(groups, 0x1_0000), Pow2(16 * n), Value(more[..n], 0x1_0000), 0x1_0000);
    }
  }

  lemma Spread(x: nat, p: nat, y: nat, b: nat)
    ensures (x * p + y) * b == x * (p * b) + y * b
  {
  }

  method IpToBig(ip: IpText) returns (r: Option<IpValue>)
    ensures r == Big(ip)
  {
    match ip {
      case V4(ns) =>
        if |ns| != 4 || exists j :: 0 <= j < |ns| && !InRange(ns[j], 256) {
          return None;
        }
        var parts := [ns[0].value, ns[1].value, ns[2].value, ns[3].value];
        var v := Accumulate(parts, 256);
        r := Some(IpValue(v, 32));
      case V6(halves) =>
        var groups := Ipv6Groups(halves);
        if groups.None? {
          return None;
        }
        var v := Accumulate(groups.value, 0x1_0000);
        r := Some(IpValue(v, 128));
    }
  }

  // `v = (v << k) | digit` over all digits, with base 2^k.
  method Accumulate(digits: seq<nat>, base: nat) returns (v: nat)
    ensures v == Value(digits, base)
  {
    v := 0;
    for i := 0 to |digits|
      invariant v == Value(digits[..i], base)
    {
      assert digits[..i + 1][..i] == digits[..i];
      v := v * base + digits[i];
    }
    assert digits[..|digits|] == digits;
  }

  // `v >> s`.
  function ShiftRight(v: nat, s: nat): nat {
    if s == 0 then v else ShiftRight(v / 2, s - 1)
  }

  function BlockMatch(a: IpValue, b: IpValue, prefix: int): bool {
    a.bits == b.bits && 0 <= prefix <= a.bits
      && ShiftRight(a.value, a.bits - prefix) == ShiftRight(b.value, a.bits - prefix)
  }

  // What is left after shifting by s says which block of 2^s addresses the number is in.
  lemma {:induction false} ShiftIsBlock(v: nat, s: nat, k: nat)
    ensures ShiftRight(v, s) == k <==> k * Pow2(s) <= v < k * Pow2(s) + Pow2(s)
  {
    if s > 0 {
      var p := Pow2(s - 1);
      ShiftIsBlock(v / 2, s - 1, k);
      assert k * Pow2(s) == 2 * (k * p);
    }
  }

  // Bit i of a number, bit 0 being the least.
  function Bit(v: nat, i: nat): nat {
    if i == 0 then v % 2 else Bit(v / 2, i - 1)
  }

  ghost predicate SameBits(a: nat, b: nat, lo: nat, hi: nat) {
    forall i :: lo <= i < hi ==> Bit(a, i) == Bit(b, i)
  }

  lemma HalvedBits(a: nat, b: nat, lo: nat, hi: nat)
    requires 0 < lo
    ensures SameBits(a, b, lo, hi) <==> hi <= lo || SameBits(a / 2, b / 2, lo - 1, hi - 1)
  {
    if lo < hi {
      if SameBits(a, b, lo, hi) {
        forall i | lo - 1 <= i < hi - 1 ensures Bit(a / 2, i) == Bit(b / 2, i) {
          assert Bit(a, i + 1) == Bit(b, i + 1);
        }
      }
      if SameBits(a / 2, b / 2, lo - 1, hi - 1) {
        forall i | lo <= i < hi ensures Bit(a, i) == Bit(b, i) {
          assert Bit(a / 2, i - 1) == Bit(b / 2, i - 1);
        }
      }
    }
  }

  lemma {:induction false} SameBitsSameNumber(a: nat, b: nat, bits: nat)
    requires a < Pow2(bits) && b < Pow2(bits)
    ensures a == b <==> SameBits(a, b, 0, bits)
  {
    if bits > 0 {
      SameBitsSameNumber(a / 2, b / 2, bits - 1);
      HalvedBits(a, b, 1, bits);
      assert Bit(a, 0) == a % 2 && Bit(b, 0) == b % 2;
      assert SameBits(a, b, 0, bits) <==> Bit(a, 0) == Bit(b, 0) && SameBits(a, b, 1, bits);
      assert bits == 1 ==> a / 2 == b / 2;
    }
  }

  lemma {:induction false} SameShiftSameBits(a: nat, b: nat, s: nat, bits: nat)
    requires s <= bits && a < Pow2(bits) && b < Pow2(bits)
    ensures ShiftRight(a, s) == ShiftRight(b, s) <==> SameBits(a, b, s, bits)
    decreases bits
  {
    if s > 0 {
      SameShiftSameBits(a / 2, b / 2, s - 1, bits - 1);
      HalvedBits(a, b, s, bits);
    } else {
      SameBitsSameNumber(a, b, bits);
    }
  }

  ghost predicate InBlock(v: nat, k: nat, s: nat) {
    k * Pow2(s) <= v < k * Pow2(s) + Pow2(s)
  }

  // Some aligned block of 2^s addresses holds both.
  ghost predicate SameBlock(a: nat, b: nat, s: nat) {
    exists k: nat :: InBlock(a, k, s) && InBlock(b, k, s)
  }

  lemma SameShiftSameBlock(a: nat, b: nat, s: nat)
    ensures ShiftRight(a, s) == ShiftRight(b, s) <==> SameBlock(a, b, s)
  {
    ShiftIsBlock(a, s, ShiftRight(a, s));
    ShiftIsBlock(b, s, ShiftRight(b, s));
    if k: nat :| InBlock(a, k, s) && InBlock(b, k, s) {
      ShiftIsBlock(a, s, k);
      ShiftIsBlock(b, s, k);
    }
    if ShiftRight(a, s) == ShiftRight(b, s) {
      assert InBlock(a, ShiftRight(a, s), s) && InBlock(b, ShiftRight(a, s), s);
    }
  }

  // Two addresses of a family match at a prefix length exactly when their leading bits agree, and exactly
  // when they lie in the same aligned block of 2^(bits - prefix) addresses.
  lemma BlockMatchMeaning(a: IpValue, b: IpValue, prefix: nat)
    requires a.bits == b.bits && prefix <= a.bits && a.value < Pow2(a.bits) && b.value < Pow2(b.bits)
    ensures BlockMatch(a, b, prefix) <==> SameBits(a.value, b.value, a.bits - prefix, a.bits)
    ensures BlockMatch(a, b, prefix) <==> SameBlock(a.value, b.value, a.bits - prefix)
  {
    SameShiftSameBits(a.value, b.value, a.bits - prefix, a.bits);
    SameShiftSameBlock(a.value, b.value, a.bits - prefix);
  }

  // Distinct addresses have distinct values, all below 2^bits.
  lemma {:induction false} ValueBound(digits: seq<nat>, k: nat)
    requires forall i :: 0 <= i < |digits| ==> digits[i] < Pow2(k)
    ensures Value(digits, Pow2(k)) < Pow2(|digits| * k)
  {
    if digits != [] {
      var n := |digits| - 1;
      ValueBound(digits[..n], k);
      DigitBound(Value(digits[..n], Pow2(k)), digits[n], n * k, k);
      OneMore(n, k);
    }
  }

  lemma OneMore(n: nat, k: nat)
    ensures (n + 1) * k == n * k + k
  {
  }

  lemma DigitBound(v: nat, d: nat, m: nat, k: nat)
    requires v < Pow2(m) && d < Pow2(k)
    ensures v * Pow2(k) + d < Pow2(m + k)
  {
    Pow2Add(m, k);
    MulMonotone(v + 1, Pow2(m), Pow2(k));
  }

  lemma MulMonotone(x: nat, y: nat, b: nat)
    requires x <= y
    ensures x * b <= y * b
  {
  }

  lemma {:induction false} Pow2Add(m: nat, n: nat)
    ensures Pow2(m + n) == Pow2(m) * Pow2(n)
  {
    if m > 0 {
      Pow2Add(m - 1, n);
      assert Pow2(m + n) == 2 * Pow2(m - 1 + n);
    }
  }

  lemma Pow2Of8And16()
    ensures Pow2(8) == 256 && Pow2(16) == 0x1_0000
  {
    assert Pow2(4) == 16;
    Pow2Add(4, 4);
    Pow2Add(8, 8);
  }

  lemma {:induction false} HalfGroupsInRange(parts: seq<Part>)
    ensures HalfGroups(parts).Some?
            ==> forall i :: 0 <= i < |HalfGroups(parts).value| ==> HalfGroups(parts).value[i] < 0x1_0000
  {
    if parts != [] {
      HalfGroupsInRange(parts[..|parts| - 1]);
    }
  }

  // An address is a number below 2^32 or 2^128, as its family has it.
  lemma BigInRange(ip: IpText)
    requires Big(ip).Some?
    ensures Big(ip).value.bits == if ip.V4? then 32 else 128
    ensures Big(ip).value.value < Pow2(Big(ip).value.bits)
  {
    Pow2Of8And16();
    match ip {
      case V4(ns) =>
        ValueBound(Octets(ns).value, 8);
      case V6(halves) =>
        HalfGroupsInRange(halves[0]);
        if |halves| == 2 {
          HalfGroupsInRange(halves[1]);
        }
        ValueBound(Groups(halves).value, 16);
    }
  }

  lemma {:induction false} ValueInjective(a: seq<nat>, b: seq<nat>, base: nat)
    requires |a| == |b| && Value(a, base) == Value(b, base)
    requires forall i :: 0 <= i < |a| ==> a[i] < base && b[i] < base
    ensures a == b
  {
    if a != [] {
      var n := |a| - 1;
      DigitUnique(Value(a[..n], base), a[n], Value(b[..n], base), b[n], base);
      ValueInjective(a[..n], b[..n], base);
      assert a == a[..n] + [a[n]] && b == b[..n] + [b[n]];
    }
  }

  lemma DigitUnique(q: nat, r: nat, q': nat, r': nat, base: nat)
    requires q * base + r == q' * base + r' && r < base && r' < base
    ensures q == q' && r == r'
  {
    if q < q' {
      MulMonotone(q + 1, q', base);
    } else if q' < q {
      MulMonotone(q' + 1, q, base);
    }
  }
}
