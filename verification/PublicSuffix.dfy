/**
 The Public Suffix List algorithm: the public suffix of a domain and its registrable domain.

 The list itself is three arbitrary sets of dotted names; `toAscii` stands for the platform's `domainToASCII`.
 */
module PublicSuffixes {
  import opened Text

  datatype Rules = Rules(normal: set<string>, wildcards: set<string>, exceptions: set<string>)

  // The labels from i on as the list writes them.
  function Candidate(labels: seq<string>, i: nat): string
    requires i <= |labels|
  {
    Join(labels[i..], ".")
  }

  predicate ExceptionAt(labels: seq<string>, rules: Rules, i: nat)
    requires i < |labels|
  {
    Candidate(labels, i) in rules.exceptions
  }

  // A normal rule is the name itself; a wildcard rule covers a name one label longer.
  predicate RuleAt(labels: seq<string>, rules: Rules, i: nat)
    requires i < |labels|
  {
    Candidate(labels, i) in rules.normal || (i + 1 < |labels| && Candidate(labels, i + 1) in rules.wildcards)
  }

  // ---- The algorithm as the list's documentation states it ----

  // The longest match of an exception rule wins and loses its left label; otherwise the longest normal or
  // wildcard rule wins; otherwise the last label is the public suffix.
  ghost predicate IsSuffixLength(labels: seq<string>, rules: Rules, len: int) {
    var n := |labels|;
    if exists i :: 0 <= i < n && ExceptionAt(labels, rules, i) then
      exists i :: 0 <= i < n && ExceptionAt(labels, rules, i) && len == n - i - 1
                  && forall k :: 0 <= k < i ==> !ExceptionAt(labels, rules, k)
    else if exists i :: 0 <= i < n && RuleAt(labels, rules, i) then
      exists i :: 0 <= i < n && RuleAt(labels, rules, i) && len == n - i
                  && forall k :: 0 <= k < i ==> !RuleAt(labels, rules, k)
    else len == 1
  }

  // The first position at or after i where an exception matches, or the number of labels.
  function FirstException(labels: seq<string>, rules: Rules, i: nat): (k: nat)
    requires i <= |labels|
    ensures i <= k <= |labels|
    ensures k < |labels| ==> ExceptionAt(labels, rules, k)
    ensures forall j :: i <= j < k ==> !ExceptionAt(labels, rules, j)
    decreases |labels| - i
  {
    if i == |labels| || ExceptionAt(labels, rules, i) then i else FirstException(labels, rules, i + 1)
  }

  function FirstRule(labels: seq<string>, rules: Rules, i: nat): (k: nat)
    requires i <= |labels|
    ensures i <= k <= |labels|
    ensures k < |labels| ==> RuleAt(labels, rules, k)
    ensures forall j :: i <= j < k ==> !RuleAt(labels, rules, j)
    decreases |labels| - i
  {
    if i == |labels| || RuleAt(labels, rules, i) then i else FirstRule(labels, rules, i + 1)
  }

  function SuffixLength(labels: seq<string>, rules: Rules): nat {
    var n, e, r := |labels|, FirstException(labels, rules, 0), FirstRule(labels, rules, 0);
    if e < n then n - e - 1 else if r < n then n - r else 1
  }

  // The engine's loop: one pass from the longest candidate, keeping the longest rule seen.
  method PublicSuffixLen(ascii: seq<string>, rules: Rules) returns (len: nat)
    ensures IsSuffixLength(ascii, rules, len)
    ensures len == SuffixLength(ascii, rules)
  {
    var n := |ascii|;
    var ruleLen: nat := 0;
    var i := 0;
    while i < n
      invariant 0 <= i <= n
      invariant FirstException(ascii, rules, 0) >= i
      invariant ruleLen == 0 ==> forall k :: 0 <= k < i ==> !RuleAt(ascii, rules, k)
      invariant ruleLen > 0 ==> ruleLen <= n && n - ruleLen < i && RuleAt(ascii, rules, n - ruleLen)
                                && forall k :: 0 <= k < n - ruleLen ==> !RuleAt(ascii, rules, k)
    {
      var candidate := Join(ascii[i..], ".");
      if candidate in rules.exceptions {
        assert ExceptionAt(ascii, rules, i);
        return n - i - 1;
      }
      var length := n - i;
      if candidate in rules.normal {
        ruleLen := if ruleLen > length then ruleLen else length;
      }
      if i + 1 < n && Join(ascii[i + 1..], ".") in rules.wildcards {
        ruleLen := if ruleLen > length then ruleLen else length;
      }
      i := i + 1;
    }
    len := if ruleLen > 0 then ruleLen else 1;
  }

  // ---- Laws of the suffix length ----

  // Every exception of the list has at least two labels.
  ghost predicate LongExceptions(rules: Rules) {
    forall name :: name in rules.exceptions ==> '.' in name
  }

  ghost predicate DotFree(labels: seq<string>) {
    forall i :: 0 <= i < |labels| ==> '.' !in labels[i]
  }

  lemma SuffixLengthBounds(labels: seq<string>, rules: Rules)
    requires labels != [] && DotFree(labels) && LongExceptions(rules)
    ensures 1 <= SuffixLength(labels, rules) <= |labels|
  {
    var last := |labels| - 1;
    assert labels[last..] == [labels[last]];
    assert Candidate(labels, last) == labels[last];
    assert !ExceptionAt(labels, rules, last);
  }

  lemma CandidateDeeper(xs: seq<string>, labels: seq<string>, i: nat)
    requires i <= |labels|
    ensures Candidate(xs + labels, |xs| + i) == Candidate(labels, i)
  {
    assert (xs + labels)[|xs| + i..] == labels[i..];
  }

  lemma MatchesDeeper(xs: seq<string>, labels: seq<string>, rules: Rules, i: nat)
    requires i < |labels|
    ensures ExceptionAt(xs + labels, rules, |xs| + i) == ExceptionAt(labels, rules, i)
    ensures RuleAt(xs + labels, rules, |xs| + i) == RuleAt(labels, rules, i)
  {
    CandidateDeeper(xs, labels, i);
    CandidateDeeper(xs, labels, i + 1);
  }

  // Labels added on the left never shorten the public suffix.
  lemma LabelsNeverShorten(xs: seq<string>, labels: seq<string>, rules: Rules)
    requires labels != []
    ensures SuffixLength(xs + labels, rules) >= SuffixLength(labels, rules)
  {
    var e, r := FirstException(labels, rules, 0), FirstRule(labels, rules, 0);
    var e', r' := FirstException(xs + labels, rules, 0), FirstRule(xs + labels, rules, 0);
    if e < |labels| {
      MatchesDeeper(xs, labels, rules, e);
    } else if r < |labels| {
      MatchesDeeper(xs, labels, rules, r);
    }
    if |xs| <= e' < |xs + labels| {
      MatchesDeeper(xs, labels, rules, e' - |xs|);
    }
  }

  // The public suffix of a name cut down to its public suffix and one more label is the same.
  lemma SuffixOfRegistered(labels: seq<string>, rules: Rules)
    requires |labels| > SuffixLength(labels, rules)
    ensures SuffixLength(labels[|labels| - SuffixLength(labels, rules) - 1..], rules) == SuffixLength(labels, rules)
  {
    var len := SuffixLength(labels, rules);
    var cut := |labels| - len - 1;
    var xs, short := labels[..cut], labels[cut..];
    assert labels == xs + short;
    var e, r := FirstException(labels, rules, 0), FirstRule(labels, rules, 0);
    var e', r' := FirstException(short, rules, 0), FirstRule(short, rules, 0);
    if e < |labels| {
      MatchesDeeper(xs, short, rules, 0);
    } else {
      if e' < |short| {
        MatchesDeeper(xs, short, rules, e');
      }
      if r' < |short| {
        MatchesDeeper(xs, short, rules, r');
      }
      if r < |labels| {
        MatchesDeeper(xs, short, rules, r - cut);
      }
    }
  }

  // ---- Names ----

  predicate IsDot(c: char) {
    c == '.'
  }

  predicate HasDoubleDot(s: string) {
    exists i :: 0 <= i < |s| - 1 && s[i] == '.' && s[i + 1] == '.'
  }

  datatype Name = Name(orig: seq<string>, ascii: seq<string>)

  // Lower-case, without trailing dots, split into labels and into the labels of the ASCII form.
  function Normalize(domain: string, toAscii: string -> string): Option<Name> {
    var lower := StripRight(Lower(domain), IsDot);
    if lower == "" || lower[0] == '.' || HasDoubleDot(lower) then None
    else
      var orig, a := Split(lower, '.'), toAscii(lower);
      var ascii := if a == "" then orig else Split(a, '.');
      Some(if |ascii| == |orig| then Name(orig, ascii) else Name(orig, orig))
  }

  // The last len labels.
  function LastLabels(orig: seq<string>, len: nat): Option<string> {
    if len > |orig| then None else Some(Join(orig[|orig| - len..], "."))
  }

  function PublicSuffix(domain: string, rules: Rules, toAscii: string -> string): Option<string> {
    var name := Normalize(domain, toAscii);
    if name.None? then None else LastLabels(name.value.orig, SuffixLength(name.value.ascii, rules))
  }

  // The last len labels and one more.
  function OneMore(orig: seq<string>, len: nat): Option<string> {
    if |orig| <= len then None else Some(Join(orig[|orig| - len - 1..], "."))
  }

  // The public suffix and one more label.
  function Registered(name: Name, rules: Rules): Option<string> {
    OneMore(name.orig, SuffixLength(name.ascii, rules))
  }

  function RegisteredDomain(domain: string, rules: Rules, toAscii: string -> string): Option<string> {
    var name := Normalize(domain, toAscii);
    if name.None? then None else Registered(name.value, rules)
  }

  // Labels a name can have once normalized.
  ghost predicate Proper(labels: seq<string>) {
    forall i :: 0 <= i < |labels| ==> labels[i] != "" && '.' !in labels[i] && Lower(labels[i]) == labels[i]
  }

  function EachLabel(f: string -> string, labels: seq<string>): (r: seq<string>)
    ensures |r| == |labels| && forall i :: 0 <= i < |r| ==> r[i] == f(labels[i])
  {
    seq(|labels|, i requires 0 <= i < |labels| => f(labels[i]))
  }

  // The ASCII form of this label is a label.
  ghost predicate KeepsLabel(encode: string -> string, l: string) {
    l != "" && '.' !in l ==> encode(l) != "" && '.' !in encode(l)
  }

  // The ASCII form of the name with these labels has the ASCII forms of the labels.
  ghost predicate KeepsName(toAscii: string -> string, encode: string -> string, labels: seq<string>) {
    labels != [] && Proper(labels) ==> toAscii(Join(labels, ".")) == Join(EachLabel(encode, labels), ".")
  }

  // The ASCII form is taken label by label.
  ghost predicate LabelWise(toAscii: string -> string, encode: string -> string) {
    && (forall l {:trigger KeepsLabel(encode, l)} :: KeepsLabel(encode, l))
    && (forall labels {:trigger KeepsName(toAscii, encode, labels)} :: KeepsName(toAscii, encode, labels))
  }

  // The labels of a lower-case text without empty pieces.
  lemma {:induction false} PiecesProper(s: string)
    requires s == Lower(s)
    requires s != "" && s[0] != '.' && s[|s| - 1] != '.' && !HasDoubleDot(s)
    ensures Proper(Split(s, '.'))
  {
    if |s| == 1 {
      assert s[1..] == "" && s == [s[0]] + "";
      assert Split(s, '.') == [s];
    } else {
      var rest := s[1..];
      assert Lower(rest) == rest;
      if rest[0] == '.' {
        assert |rest| > 1 && rest[1] == s[2] && s[1] == '.';
        var deeper := rest[1..];
        assert Lower(deeper) == deeper;
        NoDoubleDotInside(s, 2);
        PiecesProper(deeper);
        assert Split(rest, '.') == [[]] + Split(deeper, '.');
        assert Split(rest, '.')[1..] == Split(deeper, '.') && [s[0]] + [] == [s[0]];
        assert Split(s, '.') == [[s[0]]] + Split(deeper, '.');
        assert Lower([s[0]]) == [s[0]];
      } else {
        NoDoubleDotInside(s, 1);
        PiecesProper(rest);
        assert Lower([s[0]] + Split(rest, '.')[0]) == [s[0]] + Split(rest, '.')[0];
      }
    }
  }

  lemma NoDoubleDotInside(s: string, k: nat)
    requires k <= |s| && !HasDoubleDot(s)
    ensures !HasDoubleDot(s[k..])
  {
  }

  // A name written from proper labels is normalized already.
  lemma {:induction false} JoinProper(labels: seq<string>)
    requires labels != [] && Proper(labels)
    ensures var s := Join(labels, ".");
            s == Lower(s) && s != "" && s[0] != '.' && s[|s| - 1] != '.' && !HasDoubleDot(s)
  {
    var s := Join(labels, ".");
    if |labels| > 1 {
      JoinProper(labels[1..]);
      var rest := Join(labels[1..], ".");
      LowerConcat(labels[0], ".");
      LowerConcat(labels[0] + ".", rest);
      var k := |labels[0]|;
      assert forall i :: 0 <= i < k ==> s[i] == labels[0][i] && s[i] in labels[0];
      assert s[k] == '.' && s[k + 1] == rest[0];
      assert forall i :: k < i < |s| ==> s[i] == rest[i - k - 1];
    } else {
      assert forall i :: 0 <= i < |s| ==> s[i] == labels[0][i] && s[i] in labels[0];
    }
  }

  // What normalization makes of any name it accepts.
  lemma NormalizedIsProper(domain: string, toAscii: string -> string, encode: string -> string)
    requires LabelWise(toAscii, encode) && Normalize(domain, toAscii).Some?
    ensures var name := Normalize(domain, toAscii).value;
            name.orig != [] && Proper(name.orig) && name.ascii == EachLabel(encode, name.orig)
  {
    var lower := StripRight(Lower(domain), IsDot);
    LowerTwice(domain);
    assert Lower(lower) == lower by {
      assert forall i :: 0 <= i < |lower| ==> lower[i] == Lower(domain)[i];
    }
    PiecesProper(lower);
    AsciiLabels(Split(lower, '.'), toAscii, encode);
    JoinSplit(lower, '.');
  }

  lemma AsciiLabels(labels: seq<string>, toAscii: string -> string, encode: string -> string)
    requires LabelWise(toAscii, encode) && labels != [] && Proper(labels)
    ensures toAscii(Join(labels, ".")) != ""
    ensures Split(toAscii(Join(labels, ".")), '.') == EachLabel(encode, labels)
  {
    var mapped := EachLabel(encode, labels);
    assert KeepsName(toAscii, encode, labels);
    assert forall i :: 0 <= i < |labels| ==> KeepsLabel(encode, labels[i]);
    assert mapped[0] == encode(labels[0]) != "";
    SplitJoin(mapped, '.');
    assert Join(mapped, ".") != "";
  }

  lemma NormalizeProper(labels: seq<string>, toAscii: string -> string, encode: string -> string)
    requires LabelWise(toAscii, encode) && labels != [] && Proper(labels)
    ensures Normalize(Join(labels, "."), toAscii) == Some(Name(labels, EachLabel(encode, labels)))
  {
    JoinProper(labels);
    SplitJoin(labels, '.');
    AsciiLabels(labels, toAscii, encode);
  }

  // ---- What the functions answer ----

  predicate AreDots(s: string) {
    forall i :: 0 <= i < |s| ==> s[i] == '.'
  }

  // The domain names these labels: in any case of its letters, and with any number of dots at the end.
  ghost predicate Names(domain: string, labels: seq<string>) {
    labels != [] && Proper(labels)
    && exists dots :: AreDots(dots) && Lower(domain) == Join(labels, ".") + dots
  }

  lemma {:induction false} DotsStrip(s: string, dots: string)
    requires s != "" && s[|s| - 1] != '.' && AreDots(dots)
    ensures StripRight(s + dots, IsDot) == s
  {
    StripRightConcat(s, dots, IsDot);
    StripRightAll(dots, IsDot);
  }

  lemma NamesNormalize(domain: string, labels: seq<string>, toAscii: string -> string, encode: string -> string)
    requires LabelWise(toAscii, encode) && Names(domain, labels)
    ensures Normalize(domain, toAscii) == Some(Name(labels, EachLabel(encode, labels)))
  {
    var dots :| AreDots(dots) && Lower(domain) == Join(labels, ".") + dots;
    JoinProper(labels);
    DotsStrip(Join(labels, "."), dots);
    SplitJoin(labels, '.');
    AsciiLabels(labels, toAscii, encode);
  }

  lemma StrippedStaysLower(domain: string, lower: string, dots: string)
    requires lower == StripRight(Lower(domain), IsDot) && dots == Lower(domain)[|lower|..]
    ensures Lower(lower) == lower && Lower(domain) == lower + dots && AreDots(dots)
  {
    LowerTwice(domain);
    assert forall i :: 0 <= i < |lower| ==> lower[i] == Lower(domain)[i];
    StripRightAll(Lower(domain), IsDot);
  }

  lemma PiecesAreNamed(domain: string, lower: string, dots: string)
    requires Lower(lower) == lower && Lower(domain) == lower + dots && AreDots(dots)
    requires lower != "" && lower[0] != '.' && lower[|lower| - 1] != '.' && !HasDoubleDot(lower)
    ensures Names(domain, Split(lower, '.'))
  {
    PiecesProper(lower);
    JoinSplit(lower, '.');
  }

  lemma NormalizedNames(domain: string, toAscii: string -> string)
    requires Normalize(domain, toAscii).Some?
    ensures exists labels :: Names(domain, labels)
  {
    var lower := StripRight(Lower(domain), IsDot);
    StrippedStaysLower(domain, lower, Lower(domain)[|lower|..]);
    PiecesAreNamed(domain, lower, Lower(domain)[|lower|..]);
  }

  // The last len labels, and these with one label more, where there are as many; len is what the list says of the
  // ASCII forms of the labels.
  ghost predicate Answers(labels: seq<string>, len: int, suffix: Option<string>, registered: Option<string>)
    requires 0 <= len
  {
    && suffix == (if len <= |labels| then Some(Join(labels[|labels| - len..], ".")) else None)
    && registered == if len < |labels| then Some(Join(labels[|labels| - len - 1..], ".")) else None
  }

  // What a domain that names labels is answered.
  lemma NamedIsAnswered(domain: string, labels: seq<string>, len: int, rules: Rules, toAscii: string -> string,
      encode: string -> string)
    requires LabelWise(toAscii, encode) && Names(domain, labels)
    requires 0 <= len && IsSuffixLength(EachLabel(encode, labels), rules, len)
    ensures Answers(labels, len, PublicSuffix(domain, rules, toAscii), RegisteredDomain(domain, rules, toAscii))
  {
    NamesNormalize(domain, labels, toAscii, encode);
    SuffixLengthIs(EachLabel(encode, labels), rules, len);
  }

  lemma SuffixLengthIs(labels: seq<string>, rules: Rules, len: int)
    requires IsSuffixLength(labels, rules, len)
    ensures len == SuffixLength(labels, rules)
  {
  }

  // A domain that names none has no answer.
  lemma UnnamedIsNotAnswered(domain: string, rules: Rules, toAscii: string -> string)
    requires forall labels :: !Names(domain, labels)
    ensures PublicSuffix(domain, rules, toAscii) == None && RegisteredDomain(domain, rules, toAscii) == None
  {
    if Normalize(domain, toAscii).Some? {
      NormalizedNames(domain, toAscii);
    }
  }

  // ---- Laws of the registrable domain ----

  // The registrable domain of a registrable domain is itself.
  lemma RegisteredIdempotent(domain: string, rules: Rules, toAscii: string -> string, encode: string -> string)
    requires LabelWise(toAscii, encode)
    requires RegisteredDomain(domain, rules, toAscii).Some?
    ensures RegisteredDomain(RegisteredDomain(domain, rules, toAscii).value, rules, toAscii)
            == RegisteredDomain(domain, rules, toAscii)
  {
    NormalizedIsProper(domain, toAscii, encode);
    var name := Normalize(domain, toAscii).value;
    var len := SuffixLength(name.ascii, rules);
    SuffixOfRegistered(name.ascii, rules);
    OneMoreAgain(name.orig, len, toAscii, encode);
    EachLabelDrop(encode, name.orig, |name.orig| - len - 1);
  }

  lemma EachLabelDrop(f: string -> string, labels: seq<string>, k: nat)
    requires k <= |labels|
    ensures EachLabel(f, labels[k..]) == EachLabel(f, labels)[k..]
  {
  }

  lemma OneMoreAgain(orig: seq<string>, len: nat, toAscii: string -> string, encode: string -> string)
    requires LabelWise(toAscii, encode) && Proper(orig) && len < |orig|
    ensures var short := orig[|orig| - len - 1..];
            Normalize(OneMore(orig, len).value, toAscii) == Some(Name(short, EachLabel(encode, short)))
            && OneMore(short, len) == OneMore(orig, len)
  {
    var short := orig[|orig| - len - 1..];
    NormalizeProper(short, toAscii, encode);
    assert short[0..] == short;
  }

  // A name that ends in another at a label boundary.
  ghost predicate Under(name: string, parent: string) {
    name == parent || exists front :: name == front + "." + parent
  }

  lemma {:induction false} JoinConcat(a: seq<string>, b: seq<string>)
    requires a != [] && b != []
    ensures Join(a + b, ".") == Join(a, ".") + "." + Join(b, ".")
  {
    if |a| == 1 {
      assert (a + b)[1..] == b;
    } else {
      JoinConcat(a[1..], b);
      assert (a + b)[1..] == a[1..] + b;
    }
  }

  // Whatever is put in front of a name, the registrable domain of the whole, where there is one, ends in that
  // of the name.
  lemma RegisteredOfSubdomain(front: string, domain: string, rules: Rules, toAscii: string -> string,
      encode: string -> string)
    requires LabelWise(toAscii, encode)
    requires RegisteredDomain(domain, rules, toAscii).Some?
    requires RegisteredDomain(front + "." + domain, rules, toAscii).Some?
    ensures Under(RegisteredDomain(front + "." + domain, rules, toAscii).value,
                  RegisteredDomain(domain, rules, toAscii).value)
  {
    NormalizedIsProper(domain, toAscii, encode);
    NormalizedIsProper(front + "." + domain, toAscii, encode);
    var name, labels := Normalize(domain, toAscii).value, Split(Lower(front), '.');
    LabelsInFront(front, domain, toAscii);
    EachLabelConcat(encode, labels, name.orig);
    RegisteredGrows(labels, EachLabel(encode, labels), name, rules);
  }

  lemma EachLabelConcat(f: string -> string, a: seq<string>, b: seq<string>)
    ensures EachLabel(f, a + b) == EachLabel(f, a) + EachLabel(f, b)
  {
  }

  lemma RegisteredGrows(front: seq<string>, frontAscii: seq<string>, name: Name, rules: Rules)
    requires name.orig != [] && |name.orig| == |name.ascii| && |front| == |frontAscii|
    requires Registered(name, rules).Some? && Registered(Name(front + name.orig, frontAscii + name.ascii), rules).Some?
    ensures Under(Registered(Name(front + name.orig, frontAscii + name.ascii), rules).value,
                  Registered(name, rules).value)
  {
    LabelsNeverShorten(frontAscii, name.ascii, rules);
    EndsIn(front, name.orig, SuffixLength(name.ascii, rules), SuffixLength(frontAscii + name.ascii, rules));
  }

  lemma EndsIn(front: seq<string>, orig: seq<string>, len: nat, longer: nat)
    requires len <= longer && OneMore(orig, len).Some? && OneMore(front + orig, longer).Some?
    ensures Under(OneMore(front + orig, longer).value, OneMore(orig, len).value)
  {
    var labels := front + orig;
    var whole, parent := labels[|labels| - longer - 1..], orig[|orig| - len - 1..];
    var extra := whole[..longer - len];
    assert whole == extra + parent;
    if extra == [] {
      assert whole == parent;
    } else {
      JoinConcat(extra, parent);
    }
  }

  // What is put in front of a name comes first in the normal form.
  lemma LabelsInFront(front: string, domain: string, toAscii: string -> string)
    requires Normalize(domain, toAscii).Some? && Normalize(front + "." + domain, toAscii).Some?
    ensures Normalize(front + "." + domain, toAscii).value.orig
            == Split(Lower(front), '.') + Normalize(domain, toAscii).value.orig
  {
    LowerBehind(front, domain);
    SplitDot(Lower(front), StripRight(Lower(domain), IsDot));
  }

  lemma LowerBehind(front: string, domain: string)
    requires StripRight(Lower(domain), IsDot) != ""
    ensures StripRight(Lower(front + "." + domain), IsDot) == Lower(front) + "." + StripRight(Lower(domain), IsDot)
  {
    LowerConcat(front, ".");
    LowerConcat(front + ".", domain);
    assert Lower(".") == ".";
    StripRightConcat(Lower(front) + ".", Lower(domain), IsDot);
  }

  lemma SplitDot(a: string, b: string)
    ensures Split(a + "." + b, '.') == Split(a, '.') + Split(b, '.')
  {
    JoinSplit(a, '.');
    JoinSplit(b, '.');
    JoinConcat(Split(a, '.'), Split(b, '.'));
    SplitJoin(Split(a, '.') + Split(b, '.'), '.');
  }

  ghost predicate OneLabelAbove(name: string, suffix: string) {
    exists l :: '.' !in l && name == l + "." + suffix
  }

  // The registrable domain is the public suffix behind one label.
  lemma RegisteredIsOneMore(domain: string, rules: Rules, toAscii: string -> string)
    requires LongExceptions(rules) && RegisteredDomain(domain, rules, toAscii).Some?
    ensures PublicSuffix(domain, rules, toAscii).Some?
    ensures OneLabelAbove(RegisteredDomain(domain, rules, toAscii).value, PublicSuffix(domain, rules, toAscii).value)
  {
    var name := Normalize(domain, toAscii).value;
    SuffixLengthBounds(name.ascii, rules);
    FirstLabelApart(name.orig, SuffixLength(name.ascii, rules));
  }

  lemma FirstLabelApart(labels: seq<string>, len: nat)
    requires 0 < len < |labels| && DotFree(labels)
    ensures OneLabelAbove(OneMore(labels, len).value, LastLabels(labels, len).value)
  {
    var k := |labels| - len - 1;
    assert labels[k..][1..] == labels[k + 1..];
    assert OneMore(labels, len).value == labels[k] + "." + LastLabels(labels, len).value;
  }
}
