/**
 DKIM signing (section 5 of RFC 6376), and the agreement of signer and verifier. The digest and the RSA
 operation are arbitrary functions of the octets they are given.
 */
module DkimSign {
  import opened Text
  import opened DkimBodyHash
  import opened DkimCanon
  import opened DkimSelect
  import opened DkimSignature
  import opened DkimVerify

  datatype SignParams = SignParams(
    domain: string,
    selector: string,
    headerCanon: HeaderCanon,
    bodyCanon: BodyCanon,
    signedHeaders: seq<SignedField>,
    headerNames: Option<seq<string>>,
    body: string)

  datatype SigningKey = SigningKey(bits: nat, sign: string -> string)

  datatype SignResult = Signed(header: string) | KeyTooWeak

  const SIGNATURE_HEADER: string := "DKIM-Signature"

  function HeaderCanonName(canon: HeaderCanon): string {
    if canon.RelaxedHeader? then "relaxed" else "simple"
  }

  function BodyCanonName(canon: BodyCanon): string {
    if canon.RelaxedBodyCanon? then "relaxed" else "simple"
  }

  function CanonTag(p: SignParams): string {
    HeaderCanonName(p.headerCanon) + "/" + BodyCanonName(p.bodyCanon)
  }

  function NamesOf(fields: seq<SignedField>): (r: seq<string>)
    ensures |r| == |fields|
  {
    seq(|fields|, i requires 0 <= i < |fields| => fields[i].name)
  }

  function HNames(p: SignParams): seq<string> {
    match p.headerNames case Some(names) => names case None => NamesOf(p.signedHeaders)
  }

  function HList(p: SignParams): string {
    Join(LowerAll(HNames(p)), ":")
  }

  // The tag list with the signature still empty.
  function UnsignedValue(p: SignParams, bh: string): string {
    "v=1; a=rsa-sha256; c=" + CanonTag(p) + "; d=" + p.domain + "; s=" + p.selector
    + "; h=" + HList(p) + "; bh=" + bh + "; b="
  }

  function BodyHashTag(p: SignParams, digest: (HashAlgo, string) -> string): string {
    ComputeBodyHash(digest, p.body, p.bodyCanon, Sha256, None)
  }

  // The octets the signer signs.
  function SignedInput(p: SignParams, digest: (HashAlgo, string) -> string): string {
    SigningInput(p.signedHeaders, UnsignedValue(p, BodyHashTag(p, digest)), p.headerCanon, SIGNATURE_HEADER)
  }

  function SignMessage(p: SignParams, key: SigningKey, digest: (HashAlgo, string) -> string): SignResult {
    if key.bits < 1024 then KeyTooWeak
    else Signed(UnsignedValue(p, BodyHashTag(p, digest)) + key.sign(SignedInput(p, digest)))
  }

  // ---- What the signer prints ----

  const TAG_NAMES: seq<string> := ["v", "a", "c", "d", "s", "h", "bh", "b"]

  function TagValues(p: SignParams, bh: string, b: string): seq<string> {
    ["1", "rsa-sha256", CanonTag(p), p.domain, p.selector, HList(p), bh, b]
  }

  function SignatureTags(p: SignParams, bh: string, b: string): (r: seq<Tag>)
    ensures |r| == 8 && forall i :: 0 <= i < 8 ==> r[i] == Tag(TAG_NAMES[i], TagValues(p, bh, b)[i])
  {
    seq(8, i requires 0 <= i < 8 => Tag(TAG_NAMES[i], TagValues(p, bh, b)[i]))
  }

  // The tags as they are printed, each but the first behind a space.
  function Pieces(tags: seq<Tag>): (r: seq<string>)
    ensures |r| == |tags|
            && forall i :: 0 <= i < |r| ==> r[i] == if i == 0 then Printed(tags[i]) else " " + Printed(tags[i])
  {
    seq(|tags|, i requires 0 <= i < |tags| => if i == 0 then Printed(tags[i]) else " " + Printed(tags[i]))
  }

  lemma PiecesSnoc(tags: seq<Tag>, t: Tag)
    requires tags != []
    ensures Pieces(tags + [t]) == Pieces(tags) + [" " + Printed(t)]
  {
  }

  lemma GlueTag(s: string, name: string, v: string)
    ensures s + ";" + (" " + (name + "=" + v)) == s + ("; " + name + "=") + v
  {
  }

  lemma AddPiece(tags: seq<Tag>, t: Tag)
    requires tags != []
    ensures Join(Pieces(tags + [t]), ";") == Join(Pieces(tags), ";") + ("; " + t.name + "=") + t.value
  {
    PiecesSnoc(tags, t);
    JoinSnoc(Pieces(tags), " " + Printed(t), ";");
    GlueTag(Join(Pieces(tags), ";"), t.name, t.value);
  }

  lemma FirstPiecesJoined(p: SignParams, tags: seq<Tag>)
    requires tags == [Tag("v", "1")] + [Tag("a", "rsa-sha256")] + [Tag("c", CanonTag(p))]
    ensures Join(Pieces(tags), ";") == "v=1; a=rsa-sha256; c=" + CanonTag(p)
  {
    VersionPiece();
    AddPiece([Tag("v", "1")], Tag("a", "rsa-sha256"));
    AddPiece([Tag("v", "1")] + [Tag("a", "rsa-sha256")], Tag("c", CanonTag(p)));
    CanonLabel();
  }

  lemma CanonLabel()
    ensures "v=1; a=rsa-sha256" + ("; " + "c" + "=") == "v=1; a=rsa-sha256; c="
  {
  }

  lemma VersionPiece()
    ensures Join(Pieces([Tag("v", "1")]), ";") + ("; " + "a" + "=") + "rsa-sha256" == "v=1; a=rsa-sha256"
  {
    assert "v" + "=" + "1" == "v=1";
    assert Pieces([Tag("v", "1")]) == [Printed(Tag("v", "1"))];
  }

  lemma MiddlePiecesJoined(p: SignParams, start: seq<Tag>)
    requires start != []
    ensures Join(Pieces(start + [Tag("d", p.domain)] + [Tag("s", p.selector)] + [Tag("h", HList(p))]), ";")
            == Join(Pieces(start), ";") + "; d=" + p.domain + "; s=" + p.selector + "; h=" + HList(p)
  {
    AddPiece(start, Tag("d", p.domain));
    assert "; " + "d" + "=" == "; d=";
    AddPiece(start + [Tag("d", p.domain)], Tag("s", p.selector));
    assert "; " + "s" + "=" == "; s=";
    AddPiece(start + [Tag("d", p.domain)] + [Tag("s", p.selector)], Tag("h", HList(p)));
    assert "; " + "h" + "=" == "; h=";
  }

  lemma LastPiecesJoined(start: seq<Tag>, bh: string, b: string)
    requires start != []
    ensures Join(Pieces(start + [Tag("bh", bh)] + [Tag("b", b)]), ";")
            == Join(Pieces(start), ";") + "; bh=" + bh + "; b=" + b
  {
    AddPiece(start, Tag("bh", bh));
    assert "; " + "bh" + "=" == "; bh=";
    AddPiece(start + [Tag("bh", bh)], Tag("b", b));
    assert "; " + "b" + "=" == "; b=";
  }

  // The header value is these tags joined by ";".
  lemma PiecesJoined(p: SignParams, bh: string, b: string)
    ensures Join(Pieces(SignatureTags(p, bh, b)), ";") == UnsignedValue(p, bh) + b
  {
    var first := [Tag("v", "1")] + [Tag("a", "rsa-sha256")] + [Tag("c", CanonTag(p))];
    var middle := first + [Tag("d", p.domain)] + [Tag("s", p.selector)] + [Tag("h", HList(p))];
    FirstPiecesJoined(p, first);
    MiddlePiecesJoined(p, first);
    LastPiecesJoined(middle, bh, b);
    TagsInParts(p, bh, b);
  }

  lemma TagsInParts(p: SignParams, bh: string, b: string)
    ensures SignatureTags(p, bh, b)
            == [Tag("v", "1")] + [Tag("a", "rsa-sha256")] + [Tag("c", CanonTag(p))]
               + [Tag("d", p.domain)] + [Tag("s", p.selector)] + [Tag("h", HList(p))] + [Tag("bh", bh)] + [Tag("b", b)]
  {
  }

  // ---- What the verifier reads ----

  // The parameters a signer may be given: nothing in them can be taken for a separator.
  ghost predicate Printable(p: SignParams) {
    && IsTagText(p.domain) && IsTagText(p.selector)
    && forall i :: 0 <= i < |HNames(p)| ==> IsFieldName(HNames(p)[i])
  }

  predicate IsFieldName(n: string) {
    n != [] && ':' !in n && IsTagText(n)
  }

  lemma LowerFieldName(n: string)
    requires IsFieldName(n)
    ensures IsFieldName(Lower(n))
    ensures Key(Lower(n)) == Key(n)
  {
    LowerKeepsSeparators(n);
    StripIsBare(n, IsSpace);
    StripIsBare(Lower(n), IsSpace);
    LowerTwice(n);
  }

  lemma LowerKeepsSeparators(n: string)
    requires IsFieldName(n)
    ensures IsFieldName(Lower(n))
  {
    var l := Lower(n);
    assert forall i :: 0 <= i < |n| ==>
           (l[i] == ':' <==> n[i] == ':') && (l[i] == ';' <==> n[i] == ';') && (IsSpace(l[i]) <==> IsSpace(n[i]));
    assert forall i :: 0 <= i < |n| ==> n[i] in n;
  }

  lemma LowerAllFieldNames(names: seq<string>)
    requires forall i :: 0 <= i < |names| ==> IsFieldName(names[i])
    ensures forall i :: 0 <= i < |names| ==> IsFieldName(LowerAll(names)[i])
    ensures KeysOf(LowerAll(names)) == KeysOf(names)
  {
    forall i | 0 <= i < |names| ensures IsFieldName(LowerAll(names)[i]) && Key(LowerAll(names)[i]) == Key(names[i]) {
      LowerFieldName(names[i]);
    }
  }

  lemma {:induction false} JoinedNamesAreText(names: seq<string>)
    requires forall i :: 0 <= i < |names| ==> IsFieldName(names[i])
    ensures IsTagText(Join(names, ":"))
    ensures names != [] ==> Join(names, ":") != []
  {
    if |names| > 1 {
      JoinedNamesAreText(names[1..]);
      assert IsFieldName(names[0]) && IsFieldName(names[1]);
      var rest := Join(names[1..], ":");
      assert Join(names, ":")[|Join(names, ":")| - 1] == rest[|rest| - 1];
    }
  }

  lemma TagsWellFormed(p: SignParams, bh: string, b: string)
    requires Printable(p) && IsTagText(bh) && IsTagText(b)
    ensures WellFormedTags(SignatureTags(p, bh, b))
  {
    TagValuesAreText(p, bh, b);
    TagNamesDistinct();
  }

  lemma TagValuesAreText(p: SignParams, bh: string, b: string)
    requires Printable(p) && IsTagText(bh) && IsTagText(b)
    ensures forall i :: 0 <= i < 8 ==> IsTagText(TagValues(p, bh, b)[i])
  {
    NameListIsText(p);
    CanonTagIsText(p);
    FixedValuesAreText();
  }

  lemma FixedValuesAreText()
    ensures IsTagText("1") && IsTagText("rsa-sha256")
  {
  }

  lemma NameListIsText(p: SignParams)
    requires Printable(p)
    ensures IsTagText(HList(p))
  {
    LowerAllFieldNames(HNames(p));
    JoinedNamesAreText(LowerAll(HNames(p)));
  }

  lemma CanonTagIsText(p: SignParams)
    ensures IsTagText(CanonTag(p))
  {
    var h, c := HeaderCanonName(p.headerCanon), BodyCanonName(p.bodyCanon);
    assert forall s :: s in {"relaxed", "simple"} ==> IsTagText(s) && s != [];
    assert h in {"relaxed", "simple"} && c in {"relaxed", "simple"};
    assert CanonTag(p)[|CanonTag(p)| - 1] == c[|c| - 1];
  }

  lemma TagNamesDistinct()
    ensures forall i :: 0 <= i < 8 ==> IsTagText(TAG_NAMES[i]) && '=' !in TAG_NAMES[i] && TAG_NAMES[i] != []
    ensures forall i, j :: 0 <= i < j < 8 ==> TAG_NAMES[i] != TAG_NAMES[j]
  {
  }

  lemma TrimAfterSpace(x: string)
    requires x != [] && Bare(x, IsSpace)
    ensures Trim(x) == x && Trim(" " + x) == x
  {
    StripIsBare(x, IsSpace);
    assert (" " + x)[1..] == x;
    assert StripLeft(" " + x, IsSpace) == StripLeft(x, IsSpace);
  }

  lemma PrintedIsBare(t: Tag)
    requires WellFormedTag(t) && t.name != []
    ensures Printed(t) != [] && Bare(Printed(t), IsSpace) && ';' !in Printed(t)
  {
    var x := Printed(t);
    assert t.value == [] ==> x[|x| - 1] == '=';
    assert t.value != [] ==> x[|x| - 1] == t.value[|t.value| - 1];
  }

  lemma PieceEquals(name: string, space: string, value: string)
    requires '=' !in name && '=' !in space
    ensures var piece := space + (name + "=" + value);
            '=' in piece && IndexOf(piece, '=') == |space| + |name| && piece[..|space| + |name|] == space + name
  {
    var piece, n := space + (name + "=" + value), |space| + |name|;
    assert piece == space + name + "=" + value;
    assert piece[n] == '=';
    assert forall i :: 0 <= i < |space| ==> piece[i] == space[i] && space[i] in space;
    assert forall i :: |space| <= i < n ==> piece[i] == name[i - |space|] && name[i - |space|] in name;
  }

  lemma PieceTrims(t: Tag, space: string)
    requires WellFormedTag(t) && t.name != [] && space in {"", " "}
    ensures Trim(space + Printed(t)) == Printed(t) && ';' !in space + Printed(t)
    ensures Trim(space + t.name) == t.name
  {
    PrintedIsBare(t);
    TrimAfterSpace(Printed(t));
    TrimAfterSpace(t.name);
    assert "" + Printed(t) == Printed(t) && "" + t.name == t.name;
  }

  // A printed tag, with or without a space before it, reads as the tag and is the b= tag only by name.
  lemma PieceReads(t: Tag, space: string)
    requires WellFormedTag(t) && t.name != [] && space in {"", " "}
    ensures ReadsAs(space + Printed(t), t)
  {
    PieceTrims(t, space);
    PieceIsB(t, space);
  }

  lemma PieceIsB(t: Tag, space: string)
    requires WellFormedTag(t) && space in {"", " "} && Trim(space + t.name) == t.name
    ensures IsBTag(space + Printed(t)) <==> t.name == "b"
    ensures t.name == "b" && t.value == [] ==> EmptiedTag(space + Printed(t)) == space + Printed(t)
  {
    PieceEquals(t.name, space, t.value);
    PrintedIs(t);
    BTagOf(space + (t.name + "=" + t.value), |space| + |t.name|, t.name);
  }

  lemma PrintedIs(t: Tag)
    ensures Printed(t) == t.name + "=" + t.value
  {
  }

  lemma BTagOf(piece: string, n: nat, name: string)
    requires '=' in piece && IndexOf(piece, '=') == n && Trim(piece[..n]) == name
    ensures IsBTag(piece) <==> name == "b"
    ensures |piece| == n + 1 ==> EmptiedTag(piece) == piece
  {
  }

  lemma PiecesRead(p: SignParams, bh: string, b: string)
    requires Printable(p) && IsTagText(bh) && IsTagText(b)
    ensures forall i :: 0 <= i < 8 ==> ReadsAs(Pieces(SignatureTags(p, bh, b))[i], SignatureTags(p, bh, b)[i])
  {
    TagsWellFormed(p, bh, b);
    TagNamesDistinct();
    var tags := SignatureTags(p, bh, b);
    forall i | 0 <= i < 8 ensures ReadsAs(Pieces(tags)[i], tags[i]) {
      PieceReads(tags[i], if i == 0 then "" else " ");
      assert "" + Printed(tags[i]) == Printed(tags[i]);
    }
  }

  ghost predicate ReadsAs(piece: string, t: Tag) {
    && Trim(piece) == Printed(t) && ';' !in piece
    && (IsBTag(piece) <==> t.name == "b")
    && (t.name == "b" && t.value == [] ==> EmptiedTag(piece) == piece)
  }

  lemma OnlyLastIsB(p: SignParams, bh: string, pieces: seq<string>)
    requires Printable(p) && IsTagText(bh) && pieces == Pieces(SignatureTags(p, bh, []))
    ensures forall i :: 0 <= i < 8 ==> ';' !in pieces[i] && (IsBTag(pieces[i]) <==> i == 7)
    ensures EmptiedTag(pieces[7]) == pieces[7]
  {
    PiecesRead(p, bh, []);
    TagNamesDistinct();
    var tags := SignatureTags(p, bh, []);
    assert tags[7].name == "b" && tags[7].value == [];
    forall i | 0 <= i < 8 ensures ';' !in pieces[i] && (IsBTag(pieces[i]) <==> i == 7) {
      assert ReadsAs(pieces[i], tags[i]);
      assert i != 7 ==> TAG_NAMES[i] != TAG_NAMES[7];
    }
    assert ReadsAs(pieces[7], tags[7]);
  }

  // The value the signer signs over is empty in its b= tag and nowhere else.
  lemma UnsignedAwaitsB(p: SignParams, bh: string)
    requires Printable(p) && IsTagText(bh)
    ensures AwaitsB(UnsignedValue(p, bh))
  {
    var pieces := Pieces(SignatureTags(p, bh, []));
    PiecesJoined(p, bh, []);
    OnlyLastIsB(p, bh, pieces);
    AwaitsBInLast(pieces);
    assert UnsignedValue(p, bh) + [] == UnsignedValue(p, bh);
  }

  lemma AwaitsBInLast(pieces: seq<string>)
    requires |pieces| == 8
    requires forall i :: 0 <= i < 8 ==> ';' !in pieces[i] && (IsBTag(pieces[i]) <==> i == 7)
    requires IsBTag(pieces[7]) && EmptiedTag(pieces[7]) == pieces[7]
    ensures AwaitsB(Join(pieces, ";"))
  {
    SplitJoin(pieces, ';');
  }

  lemma HeaderIsBare(p: SignParams, bh: string, b: string)
    requires IsTagText(b)
    ensures Bare(UnsignedValue(p, bh) + b, IsSpace)
  {
    var u := UnsignedValue(p, bh);
    assert u[0] == 'v' && u[|u| - 1] == '=';
  }

  lemma SignedTags(m: map<string, string>, p: SignParams, bh: string, b: string)
    requires Holds(m, SignatureTags(p, bh, b))
    ensures Get(m, "v") == Some("1") && Get(m, "a") == Some("rsa-sha256") && Get(m, "c") == Some(CanonTag(p))
    ensures Get(m, "d") == Some(p.domain) && Get(m, "s") == Some(p.selector) && Get(m, "h") == Some(HList(p))
    ensures Get(m, "bh") == Some(bh) && Get(m, "b") == Some(b) && Get(m, "l") == None
  {
    var tags := SignatureTags(p, bh, b);
    assert tags[0].name == "v" && tags[1].name == "a" && tags[2].name == "c" && tags[3].name == "d";
    assert tags[4].name == "s" && tags[5].name == "h" && tags[6].name == "bh" && tags[7].name == "b";
    if "l" in m {
      var i :| 0 <= i < |tags| && tags[i].name == "l";
    }
  }

  lemma KnownAlgorithm()
    ensures Lower("rsa-sha256") in KNOWN_ALGORITHMS
  {
    assert Lower("rsa-sha256") == "rsa-sha256";
  }

  lemma SignedTagsAccepted(m: map<string, string>, p: SignParams, bh: string, b: string)
    requires Holds(m, SignatureTags(p, bh, b))
    ensures TagsAcceptable(m)
  {
    SignedTags(m, p, bh, b);
    forall i | 0 <= i < |REQUIRED_TAGS| ensures REQUIRED_TAGS[i] in m {
      RequiredTag(i);
    }
    KnownAlgorithm();
  }

  lemma RequiredTag(i: nat)
    requires i < |REQUIRED_TAGS|
    ensures REQUIRED_TAGS[i] in {"v", "a", "b", "bh", "d", "s", "h"}
  {
  }

  lemma HeaderTags(p: SignParams, bh: string, b: string)
    requires Printable(p) && IsTagText(bh) && IsTagText(b)
    ensures var parts := Parts(UnsignedValue(p, bh) + b);
            Acceptable(parts) && Holds(Tags(parts), SignatureTags(p, bh, b))
  {
    var tags := SignatureTags(p, bh, b);
    PiecesJoined(p, bh, b);
    PiecesRead(p, bh, b);
    TagsWellFormed(p, bh, b);
    HeaderIsBare(p, bh, b);
    forall i | 0 <= i < 8 ensures ';' !in Pieces(tags)[i] && Trim(Pieces(tags)[i]) == Printed(tags[i]) {
      assert ReadsAs(Pieces(tags)[i], tags[i]);
    }
    ParseOfPrinted(tags, Pieces(tags));
    SignedTagsAccepted(Tags(Parts(UnsignedValue(p, bh) + b)), p, bh, b);
  }

  // Parsing the header value gives back everything the signer put in.
  lemma HeaderParses(p: SignParams, bh: string, b: string)
    requires Printable(p) && IsTagText(bh) && IsTagText(b)
    ensures var sig := Parsed(UnsignedValue(p, bh) + b);
            && sig.valid
            && sig.domain == Some(p.domain) && sig.selector == Some(p.selector)
            && sig.bodyHash == Some(bh) && sig.signature == Some(b) && sig.algorithm == Some("rsa-sha256")
            && sig.signedHeaders == LowerAll(HNames(p))
            && Get(sig.tags, "c") == Some(CanonTag(p))
            && Get(sig.tags, "l") == None
  {
    HeaderTags(p, bh, b);
    SignedTags(Tags(Parts(UnsignedValue(p, bh) + b)), p, bh, b);
    LowerAllFieldNames(HNames(p));
    LoweredNamesOfJoin(LowerAll(HNames(p)));
    LowerAllTwice(HNames(p));
  }

  lemma LowerAllTwice(names: seq<string>)
    ensures LowerAll(LowerAll(names)) == LowerAll(names)
  {
    forall i | 0 <= i < |names| ensures LowerAll(LowerAll(names))[i] == LowerAll(names)[i] {
      LowerTwice(names[i]);
    }
  }

  // ---- Agreement ----

  function HeaderCanonOf(sig: Signature): HeaderCanon {
    match Get(sig.tags, "c")
    case None => SimpleHeader
    case Some(c) => if Split(c, '/')[0] == "relaxed" then RelaxedHeader else SimpleHeader
  }

  // The octets a verifier checks the signature over, given the header block and the header value.
  ghost function VerifierInput(headers: seq<RawHeaderField>, value: string): string {
    var sig := Parsed(value);
    SigningInput(SelectedFields(headers, sig.signedHeaders), value, HeaderCanonOf(sig), SIGNATURE_HEADER)
  }

  lemma CanonTagReads(p: SignParams, sig: Signature)
    requires Get(sig.tags, "c") == Some(CanonTag(p))
    ensures HeaderCanonOf(sig) == p.headerCanon && BodyCanonOf(sig) == p.bodyCanon
  {
    var h, b := HeaderCanonName(p.headerCanon), BodyCanonName(p.bodyCanon);
    assert forall s :: s in {"relaxed", "simple"} ==> '/' !in s;
    assert h in {"relaxed", "simple"} && b in {"relaxed", "simple"};
    assert Join([h, b], "/") == CanonTag(p) by {
      assert [h, b][1..] == [b];
    }
    SplitJoin([h, b], '/');
  }

  // Signer and verifier agree octet for octet. The signer selects from `headers`; on the way fields were
  // prepended whose names the signature does not oversign. Parsing what the signer printed is valid, and
  // selecting by its h= over the longer header block and emptying the filled b= rebuilds the octets that
  // were signed; the body hash verifies.
  lemma SignerAndVerifierAgree(
    headers: seq<RawHeaderField>, front: seq<RawHeaderField>, p: SignParams, key: SigningKey,
    digest: (HashAlgo, string) -> string, number: string -> Length)
    requires Printable(p) && p.signedHeaders == SelectedFields(headers, HNames(p))
    requires forall n :: n in Keys(front) ==> Count(KeysOf(HNames(p)), n) <= Count(Keys(headers), n)
    requires IsTagText(BodyHashTag(p, digest)) && IsTagText(key.sign(SignedInput(p, digest)))
    requires key.bits >= 1024
    ensures var r := SignMessage(p, key, digest);
            && r.Signed?
            && Parsed(r.header).valid
            && Parsed(r.header).domain == Some(p.domain) && Parsed(r.header).selector == Some(p.selector)
            && Parsed(r.header).signature == Some(key.sign(SignedInput(p, digest)))
            && VerifierInput(front + headers, r.header) == SignedInput(p, digest)
            && Verified(digest, number, p.body, Parsed(r.header)).ok
  {
    var bh, b := BodyHashTag(p, digest), key.sign(SignedInput(p, digest));
    var header := UnsignedValue(p, bh) + b;
    var sig := Parsed(header);
    HeaderParses(p, bh, b);
    CanonTagReads(p, sig);
    UnsignedAwaitsB(p, bh);
    EmptyBUndoesFilling(UnsignedValue(p, bh), b);
    LowerAllFieldNames(HNames(p));
    assert SelectedFields(front + headers, sig.signedHeaders) == SelectedFields(front + headers, HNames(p));
    PrependedFieldsIgnored(front, headers, HNames(p));
    assert HashAlgoOf(sig) == Sha256;
  }

  // A field of an oversigned name prepended on the way makes the verifier hash more octets than were signed.
  lemma OversigningDetectsPrepending(
    headers: seq<RawHeaderField>, f: RawHeaderField, p: SignParams, j: nat, bh: string, b: string)
    requires Printable(p) && p.signedHeaders == SelectedFields(headers, HNames(p))
    requires IsTagText(bh) && IsTagText(b)
    requires j < |HNames(p)| && Key(HNames(p)[j]) == Key(f.name)
    requires Count(KeysOf(HNames(p))[..j], Key(f.name)) == Count(Keys(headers), Key(f.name))
    ensures VerifierInput([f] + headers, UnsignedValue(p, bh) + b)
            != SigningInput(p.signedHeaders, UnsignedValue(p, bh), p.headerCanon, SIGNATURE_HEADER)
  {
    var header := UnsignedValue(p, bh) + b;
    HeaderParses(p, bh, b);
    CanonTagReads(p, Parsed(header));
    UnsignedAwaitsB(p, bh);
    EmptyBUndoesFilling(UnsignedValue(p, bh), b);
    LowerAllFieldNames(HNames(p));
    var before, behind := OversignedFieldHashed(f, headers, HNames(p), j, header, p.headerCanon, SIGNATURE_HEADER);
  }
}
