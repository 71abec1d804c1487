/**
 The body hash of a DKIM signature and its "l=" limit (sections 3.5 and 3.7 of RFC 6376). The digest is
 an arbitrary function of the algorithm and the octets.
 */
module DkimBodyHash {
  import opened Text
  import opened DkimBodyCanon
  import opened DkimCanon
  import opened DkimSignature

  datatype BodyCanon = SimpleBodyCanon | RelaxedBodyCanon

  datatype HashAlgo = Sha1 | Sha256

  // What `Number` makes of an l= tag: an integer, or something else of which only the truncated value
  // is seen (NaN counts as 0).
  datatype Length = Integer(value: int) | NotInteger(truncated: int)

  datatype BodyHashResult = BodyHashResult(ok: bool, computed: string, expected: Option<string>, lengthValid: bool)

  function BodyCanonOf(sig: Signature): BodyCanon {
    match Get(sig.tags, "c")
    case None => SimpleBodyCanon
    case Some(c) =>
      var modes := Split(c, '/');
      if |modes| > 1 && modes[1] == "relaxed" then RelaxedBodyCanon else SimpleBodyCanon
  }

  function HashAlgoOf(sig: Signature): HashAlgo {
    var a := match sig.algorithm case Some(a) => a case None => [];
    if |a| >= 4 && a[|a| - 4..] == "sha1" then Sha1 else Sha256
  }

  // The body mode stands behind the slash; without one, or without a c= tag, it is "simple".
  lemma BodyModeReads(sig: Signature, header: string, mode: string)
    requires '/' !in header && '/' !in mode
    ensures Get(sig.tags, "c") in {None, Some(header)} ==> BodyCanonOf(sig) == SimpleBodyCanon
    ensures Get(sig.tags, "c") == Some(header + ("/" + mode)) ==>
            (BodyCanonOf(sig) == RelaxedBodyCanon <==> mode == "relaxed")
  {
    SplitJoin([header], '/');
    SplitJoin([header, mode], '/');
    assert Join([header], "/") == header && [header, mode][1..] == [mode];
    assert Join([header, mode], "/") == header + ("/" + mode);
  }

  // The digest that an algorithm names, in any case of its letters.
  predicate Names(a: string, algo: HashAlgo) {
    || (Lower(a) == "rsa-sha1" && algo == Sha1)
    || (Lower(a) in {"rsa-sha256", "ed25519-sha256"} && algo == Sha256)
  }

  // An algorithm that a valid signature can have is taken for the digest it names exactly if it is no "rsa-sha1"
  // with a capital letter behind the dash: the parser compares the names without case, the choice of the digest
  // does not.
  lemma DigestIsNamed(sig: Signature, a: string)
    requires sig.algorithm == Some(a) && Lower(a) in KNOWN_ALGORITHMS
    ensures Names(a, HashAlgoOf(sig)) <==> !(Lower(a) == "rsa-sha1" && a[4..] != "sha1")
  {
    var n := |a|;
    if n >= 4 && a[n - 4..] == "sha1" {
      assert a[n - 1] == a[n - 4..][3] == '1' && Lower(a)[n - 1] == '1';
    }
    assert Lower(a) in {"rsa-sha256", "ed25519-sha256"} ==> Lower(a)[n - 1] == '6';
    assert Lower(a) == "rsa-sha1" ==> a[4..] == a[n - 4..];
  }

  // Letters, digits and dashes.
  predicate IsWordText(s: string) {
    s != "" && forall i :: 0 <= i < |s| ==> IsLetter(s[i]) || IsDigit(s[i]) || s[i] == '-'
  }

  ghost predicate AreWordTags(tags: seq<Tag>) {
    && tags != [] && (forall i :: 0 <= i < |tags| ==> IsWordText(tags[i].name) && IsWordText(tags[i].value))
    && forall i, j :: 0 <= i < j < |tags| ==> tags[i].name != tags[j].name
  }

  lemma WordTag(t: Tag)
    requires IsWordText(t.name) && IsWordText(t.value)
    ensures WellFormedTag(t) && ';' !in Printed(t) && Bare(Printed(t), IsSpace)
  {
  }

  lemma {:induction false} JoinEnds(parts: seq<string>)
    requires parts != [] && forall i :: 0 <= i < |parts| ==> parts[i] != "" && Bare(parts[i], IsSpace)
    ensures Join(parts, ";") != "" && Bare(Join(parts, ";"), IsSpace)
  {
    if |parts| > 1 {
      JoinEnds(parts[1..]);
      var whole, tail := Join(parts, ";"), Join(parts[1..], ";");
      assert whole[0] == parts[0][0] && whole[|whole| - 1] == tail[|tail| - 1];
    }
  }

  // Tags of words, as they are printed, parse to just these tags.
  lemma WordTagsParse(tags: seq<Tag>, header: string)
    requires AreWordTags(tags) && header == Join(PrintedAll(tags), ";")
    ensures Separated(Parts(header)) && DistinctNames(Parts(header)) && Holds(Tags(Parts(header)), tags)
  {
    var pieces := PrintedAll(tags);
    forall i | 0 <= i < |tags|
      ensures WellFormedTag(tags[i]) && ';' !in pieces[i] && Bare(pieces[i], IsSpace)
      ensures Trim(pieces[i]) == Printed(tags[i]) {
      WordTag(tags[i]);
      StripIsBare(pieces[i], IsSpace);
    }
    JoinEnds(pieces);
    ParseOfPrinted(tags, pieces);
  }

  lemma WordTagsValid(tags: seq<Tag>, header: string, a: string)
    requires AreWordTags(tags) && header == Join(PrintedAll(tags), ";") && |tags| == 7
    requires tags[0] == Tag("v", "1") && tags[1] == Tag("a", a) && tags[2].name == "b" && tags[3].name == "bh"
    requires tags[4].name == "d" && tags[5].name == "s" && tags[6].name == "h" && Lower(a) in KNOWN_ALGORITHMS
    ensures Parsed(header).valid && Parsed(header).algorithm == Some(a)
  {
    WordTagsParse(tags, header);
    var m := Tags(Parts(header));
    assert tags[0].name in m && tags[1].name in m && tags[2].name in m && tags[3].name in m;
    assert tags[4].name in m && tags[5].name in m && tags[6].name in m;
    UsableIff(m);
  }

  const CAPITAL_SHA: seq<Tag> := [Tag("v", "1"), Tag("a", "rsa-SHA1"), Tag("b", "B"), Tag("bh", "H"), Tag("d", "d"),
                                  Tag("s", "s"), Tag("h", "from")]

  lemma CapitalShaNames(tags: seq<Tag>)
    requires tags == CAPITAL_SHA
    ensures forall i, j :: 0 <= i < j < |tags| ==> tags[i].name != tags[j].name
  {
    forall i, j | 0 <= i < j < |tags| ensures tags[i].name != tags[j].name {
      assert |tags[i].name| != |tags[j].name| || tags[i].name[0] != tags[j].name[0];
    }
  }

  lemma CapitalShaWords(tags: seq<Tag>)
    requires tags == CAPITAL_SHA
    ensures forall i :: 0 <= i < |tags| ==> IsWordText(tags[i].name) && IsWordText(tags[i].value)
  {
    assert IsWordText("rsa-SHA1") && IsWordText("from") && IsWordText("bh");
  }

  lemma CapitalShaTags(tags: seq<Tag>)
    requires tags == CAPITAL_SHA
    ensures AreWordTags(tags)
  {
    CapitalShaNames(tags);
    CapitalShaWords(tags);
  }

  // Such a signature: it parses as valid, and the digest is not the one it names.
  lemma CapitalShaExample(tags: seq<Tag>, header: string, a: string)
    requires tags == CAPITAL_SHA && header == Join(PrintedAll(tags), ";") && a == "rsa-SHA1"
    ensures Parsed(header).valid && HashAlgoOf(Parsed(header)) == Sha256 && Names(a, Sha1)
  {
    CapitalShaTags(tags);
    assert Lower(a) == "rsa-sha1";
    WordTagsValid(tags, header, a);
    DigestIsNamed(Parsed(header), a);
  }

  function CanonBody(body: string, canon: BodyCanon): string {
    if canon.RelaxedBodyCanon? then RelaxedForm(body) else SimpleForm(body)
  }

  // `subarray(0, end)`: a negative end counts from the back.
  function Subarray(s: string, end: int): string {
    if end >= |s| then s else if end >= 0 then s[..end] else if |s| + end > 0 then s[..|s| + end] else []
  }

  function ComputeBodyHash(digest: (HashAlgo, string) -> string, body: string, canon: BodyCanon, algo: HashAlgo,
      limit: Option<int>): string
  {
    var canonicalized := CanonBody(body, canon);
    digest(algo, match limit case None => canonicalized case Some(l) => Subarray(canonicalized, l))
  }

  // The length is an integer within the body, and so many octets have the digest of the signature.
  predicate Matches(digest: (HashAlgo, string) -> string, octets: string, l: Length, sig: Signature) {
    && l.Integer? && 0 <= l.value <= |octets|
    && sig.bodyHash == Some(digest(HashAlgoOf(sig), octets[..l.value]))
  }

  function LengthOf(sig: Signature, number: string -> Length): Option<Length> {
    match Get(sig.tags, "l") case None => None case Some(l) => Some(number(l))
  }

  function Verified(digest: (HashAlgo, string) -> string, number: string -> Length, body: string,
      sig: Signature): BodyHashResult
  {
    var canon, l := BodyCanonOf(sig), LengthOf(sig, number);
    var limit := match l case None => None case Some(Integer(v)) => Some(v) case Some(NotInteger(t)) => Some(t);
    var computed := ComputeBodyHash(digest, body, canon, HashAlgoOf(sig), limit);
    var lengthValid := l.None? || (l.value.Integer? && 0 <= l.value.value <= |CanonBody(body, canon)|);
    BodyHashResult(lengthValid && sig.bodyHash == Some(computed), computed, sig.bodyHash, lengthValid)
  }

  // What a body hash that verifies means.
  lemma VerifiedMeans(digest: (HashAlgo, string) -> string, number: string -> Length, body: string, sig: Signature)
    ensures var octets := if BodyCanonOf(sig).RelaxedBodyCanon? then RelaxedForm(body) else SimpleForm(body);
            Verified(digest, number, body, sig).ok
            <==> if "l" in sig.tags then Matches(digest, octets, number(sig.tags["l"]), sig)
                 else sig.bodyHash == Some(digest(HashAlgoOf(sig), octets))
  {
    var octets := CanonBody(body, BodyCanonOf(sig));
    assert octets[..|octets|] == octets;
  }

  method VerifyBodyHash(digest: (HashAlgo, string) -> string, number: string -> Length, body: string, sig: Signature)
    returns (r: BodyHashResult)
    ensures r == Verified(digest, number, body, sig)
    ensures var octets := if BodyCanonOf(sig).RelaxedBodyCanon? then RelaxedForm(body) else SimpleForm(body);
            r.ok <==> if "l" in sig.tags then Matches(digest, octets, number(sig.tags["l"]), sig)
                      else sig.bodyHash == Some(digest(HashAlgoOf(sig), octets))
  {
    VerifiedMeans(digest, number, body, sig);
    var canon := BodyCanonOf(sig);
    var l := LengthOf(sig, number);
    var lengthValid := true;
    var limit: Option<int> := None;
    var canonicalized;
    if canon.RelaxedBodyCanon? {
      canonicalized := RelaxedBody(body);
    } else {
      canonicalized := SimpleBody(body);
    }
    if l.Some? {
      match l.value {
        case Integer(v) =>
          limit := Some(v);
          if v < 0 || v > |canonicalized| {
            lengthValid := false;
          }
        case NotInteger(t) =>
          limit := Some(t);
          lengthValid := false;
      }
    }
    var hashed := if limit.None? then canonicalized else Subarray(canonicalized, limit.value);
    var computed := digest(HashAlgoOf(sig), hashed);
    r := BodyHashResult(sig.bodyHash == Some(computed) && lengthValid, computed, sig.bodyHash, lengthValid);
  }

  // The bodies whose canonical form stays put whatever is appended.
  predicate Settled(body: string, canon: BodyCanon) {
    if canon.RelaxedBodyCanon? then BlankLastLine(body) else SimpleForm(body) <= body
  }

  lemma SettledIff(body: string, canon: BodyCanon)
    ensures Settled(body, canon) <==> forall x :: CanonBody(body, canon) <= CanonBody(body + x, canon)
  {
    if canon.RelaxedBodyCanon? {
      RelaxedPrefixIff(body);
      assert (forall x :: CanonBody(body, canon) <= CanonBody(body + x, canon))
             <==> forall x :: RelaxedForm(body) <= RelaxedForm(body + x);
    } else {
      SimplePrefixIff(body);
      assert (forall x :: CanonBody(body, canon) <= CanonBody(body + x, canon))
             <==> forall x :: SimpleForm(body) <= SimpleForm(body + x);
    }
  }

  // A signature limited by l= that verifies for a settled body verifies for every longer body.
  lemma LimitedSignatureSurvivesAppend(
    digest: (HashAlgo, string) -> string, number: string -> Length, body: string, x: string, sig: Signature)
    requires Settled(body, BodyCanonOf(sig)) && LengthOf(sig, number).Some?
    requires Verified(digest, number, body, sig).ok
    ensures Verified(digest, number, body + x, sig).ok
  {
    var canon := BodyCanonOf(sig);
    SettledIff(body, canon);
    var short, long := CanonBody(body, canon), CanonBody(body + x, canon);
    assert short <= long;
    var l := LengthOf(sig, number).value.value;
    assert Subarray(short, l) == short[..l] == long[..l] == Subarray(long, l);
  }

  lemma {:induction false} CrlfTerminatedIsSettled(body: string)
    requires body != [] && EndsCrlf(body)
    ensures Settled(body, RelaxedBodyCanon)
    ensures PairedTail(body) ==> Settled(body, SimpleBodyCanon)
  {
    if PairedTail(body) {
      var k: nat :| body == Core(body) + Crlfs(k);
      assert k == 0 ==> Core(body) == body;
      CrlfsStart(k);
    }
  }

  lemma {:induction false} CrlfsStart(k: nat)
    requires k > 0
    ensures CRLF <= Crlfs(k)
  {
    if k > 1 {
      CrlfsStart(k - 1);
    }
  }
}
