/**
 The DKIM-Signature tag-list parser (sections 3.2, 3.5 and 6.1.1 of RFC 6376).
 */
module DkimSignature {
  import opened Text

  datatype Signature = Signature(
    valid: bool,
    tags: map<string, string>,
    version: Option<string>,
    algorithm: Option<string>,
    signature: Option<string>,
    bodyHash: Option<string>,
    domain: Option<string>,
    selector: Option<string>,
    signedHeaders: seq<string>)

  const REQUIRED_TAGS: seq<string> := ["v", "a", "b", "bh", "d", "s", "h"]
  const DKIM_VERSION: string := "1"
  const KNOWN_ALGORITHMS: set<string> := {"rsa-sha1", "rsa-sha256", "ed25519-sha256"}

  function Get(tags: map<string, string>, name: string): Option<string> {
    if name in tags then Some(tags[name]) else None
  }

  // The trimmed pieces that hold something.
  function TrimmedParts(pieces: seq<string>): seq<string> {
    if pieces == [] then []
    else
      var p := Trim(pieces[0]);
      (if p == [] then [] else [p]) + TrimmedParts(pieces[1..])
  }

  function Parts(header: string): seq<string> {
    TrimmedParts(Split(Trim(header), ';'))
  }

  function TagName(part: string): string
    requires '=' in part
  {
    Trim(part[..IndexOf(part, '=')])
  }

  function TagValue(part: string): string
    requires '=' in part
  {
    Trim(part[IndexOf(part, '=') + 1..])
  }

  // The tags of a list; a later value for the same name replaces an earlier one.
  function Tags(parts: seq<string>): map<string, string> {
    if parts == [] then map[]
    else
      var earlier, p := Tags(parts[..|parts| - 1]), parts[|parts| - 1];
      if '=' in p then earlier[TagName(p) := TagValue(p)] else earlier
  }

  predicate Separated(parts: seq<string>) {
    forall i :: 0 <= i < |parts| ==> '=' in parts[i]
  }

  // No two tags share a name.
  ghost predicate DistinctNames(parts: seq<string>) {
    forall i, j :: 0 <= i < j < |parts| && '=' in parts[i] && '=' in parts[j] ==> TagName(parts[i]) != TagName(parts[j])
  }

  predicate RequiredPresent(tags: map<string, string>) {
    forall i :: 0 <= i < |REQUIRED_TAGS| ==> REQUIRED_TAGS[i] in tags
  }

  predicate TagsAcceptable(tags: map<string, string>) {
    && RequiredPresent(tags)
    && ("v" in tags ==> tags["v"] == DKIM_VERSION)
    && ("a" in tags ==> Lower(tags["a"]) in KNOWN_ALGORITHMS)
  }

  // A signature that verification may go on with.
  ghost predicate Acceptable(parts: seq<string>) {
    Separated(parts) && DistinctNames(parts) && TagsAcceptable(Tags(parts))
  }

  function LoweredNames(h: string): seq<string> {
    LowerAll(TrimmedParts(Split(h, ':')))
  }

  function LowerAll(names: seq<string>): (r: seq<string>)
    ensures |r| == |names| && forall i :: 0 <= i < |r| ==> r[i] == Lower(names[i])
  {
    seq(|names|, i requires 0 <= i < |names| => Lower(names[i]))
  }

  // ---- The parser ----

  ghost function CountName(parts: seq<string>, n: string): nat {
    if parts == [] then 0
    else
      var p := parts[|parts| - 1];
      CountName(parts[..|parts| - 1], n) + if '=' in p && TagName(p) == n then 1 else 0
  }

  lemma {:induction false} CountNameSeen(parts: seq<string>, n: string)
    ensures CountName(parts, n) > 0 <==> exists i :: 0 <= i < |parts| && '=' in parts[i] && TagName(parts[i]) == n
  {
    if parts != [] {
      var k := |parts| - 1;
      CountNameSeen(parts[..k], n);
      if CountName(parts[..k], n) > 0 {
        var i :| 0 <= i < k && '=' in parts[..k][i] && TagName(parts[..k][i]) == n;
        assert parts[i] == parts[..k][i];
      }
      if i :| 0 <= i < |parts| && '=' in parts[i] && TagName(parts[i]) == n {
        assert i < k ==> parts[..k][i] == parts[i];
      }
    }
  }

  lemma {:induction false} DistinctCount(parts: seq<string>, n: string)
    requires DistinctNames(parts)
    ensures CountName(parts, n) <= 1
  {
    if parts != [] {
      var k := |parts| - 1;
      DistinctCount(parts[..k], n);
      CountNameSeen(parts[..k], n);
    }
  }

  lemma {:induction false} RepeatCount(parts: seq<string>, i: nat, j: nat)
    requires i < j < |parts| && '=' in parts[i] && '=' in parts[j] && TagName(parts[i]) == TagName(parts[j])
    ensures CountName(parts, TagName(parts[i])) > 1
  {
    var k := |parts| - 1;
    var rest := parts[..k];
    assert rest[i] == parts[i];
    if j < k {
      RepeatCount(rest, i, j);
    } else {
      CountNameSeen(rest, TagName(parts[i]));
    }
  }

  lemma CountsTellDuplicates(parts: seq<string>)
    ensures DistinctNames(parts) <==> forall n :: CountName(parts, n) <= 1
  {
    if DistinctNames(parts) {
      forall n ensures CountName(parts, n) <= 1 {
        DistinctCount(parts, n);
      }
    } else {
      var i, j :| 0 <= i < j < |parts| && '=' in parts[i] && '=' in parts[j] && TagName(parts[i]) == TagName(parts[j]);
      RepeatCount(parts, i, j);
    }
  }

  ghost predicate Counted(counts: map<string, nat>, parts: seq<string>) {
    forall n :: CountName(parts, n) == if n in counts then counts[n] else 0
  }

  method AnyRepeated(counts: map<string, nat>, ghost parts: seq<string>) returns (repeated: bool)
    requires Counted(counts, parts)
    ensures repeated <==> !DistinctNames(parts)
  {
    repeated := false;
    var left := counts.Keys;
    while left != {}
      invariant left <= counts.Keys
      invariant repeated <==> exists n :: n in counts && n !in left && counts[n] > 1
      decreases left
    {
      var n :| n in left;
      left := left - {n};
      if counts[n] > 1 {
        repeated := true;
      }
    }
    RepeatedIsDuplicate(counts, parts);
  }

  lemma RepeatedIsDuplicate(counts: map<string, nat>, parts: seq<string>)
    requires Counted(counts, parts)
    ensures (exists n :: n in counts && counts[n] > 1) <==> !DistinctNames(parts)
  {
    if n :| n in counts && counts[n] > 1 {
      assert CountName(parts, n) > 1;
      if DistinctNames(parts) {
        DistinctCount(parts, n);
      }
    } else {
      forall n ensures CountName(parts, n) <= 1 {
        assert CountName(parts, n) == if n in counts then counts[n] else 0;
      }
      CountsTellDuplicates(parts);
    }
  }

  lemma TagsStep(parts: seq<string>, p: string, counts: map<string, nat>)
    requires Counted(counts, parts)
    ensures Separated(parts + [p]) <==> Separated(parts) && '=' in p
    ensures '=' !in p ==> Tags(parts + [p]) == Tags(parts) && Counted(counts, parts + [p])
    ensures '=' in p ==>
              && Tags(parts + [p]) == Tags(parts)[TagName(p) := TagValue(p)]
              && Counted(counts[TagName(p) := (if TagName(p) in counts then counts[TagName(p)] else 0) + 1],
                         parts + [p])
  {
    var longer := parts + [p];
    assert longer[..|parts|] == parts && longer[|parts|] == p;
    assert forall i :: 0 <= i < |parts| ==> longer[i] == parts[i];
  }

  method CollectTags(parts: seq<string>) returns (tags: map<string, string>, counts: map<string, nat>, valid: bool)
    ensures tags == Tags(parts)
    ensures valid <==> Separated(parts)
    ensures Counted(counts, parts)
  {
    tags, counts, valid := map[], map[], true;
    ghost var seen := [];
    for i := 0 to |parts|
      invariant seen == parts[..i]
      invariant tags == Tags(seen)
      invariant valid <==> Separated(seen)
      invariant Counted(counts, seen)
    {
      var p := parts[i];
      TagsStep(seen, p, counts);
      seen := seen + [p];
      var eq := IndexOf(p, '=');
      if eq == -1 {
        valid := false;
        continue;
      }
      var name := Trim(p[..eq]);
      var value := Trim(p[eq + 1..]);
      counts := counts[name := (if name in counts then counts[name] else 0) + 1];
      tags := tags[name := value];
    }
    assert parts[..|parts|] == parts;
  }

  // All the tags a signature must have, version 1, and an algorithm that exists.
  predicate Usable(tags: map<string, string>) {
    && {"v", "a", "b", "bh", "d", "s", "h"} <= tags.Keys
    && tags["v"] == "1" && Lower(tags["a"]) in {"rsa-sha1", "rsa-sha256", "ed25519-sha256"}
  }

  lemma RequiredIff(tags: map<string, string>)
    ensures RequiredPresent(tags) <==> {"v", "a", "b", "bh", "d", "s", "h"} <= tags.Keys
  {
    if RequiredPresent(tags) {
      assert REQUIRED_TAGS[0] in tags && REQUIRED_TAGS[1] in tags && REQUIRED_TAGS[2] in tags;
      assert REQUIRED_TAGS[3] in tags && REQUIRED_TAGS[4] in tags && REQUIRED_TAGS[5] in tags;
      assert REQUIRED_TAGS[6] in tags;
    }
  }

  lemma UsableIff(tags: map<string, string>)
    ensures TagsAcceptable(tags) <==> Usable(tags)
  {
    RequiredIff(tags);
  }

  // Reads the tag list and applies the gates of section 6.1.1 of RFC 6376.
  method ParseDkimSignature(header: string) returns (sig: Signature)
    ensures sig == Parsed(header)
    ensures sig.valid <==> Separated(Parts(header)) && DistinctNames(Parts(header)) && Usable(sig.tags)
  {
    var parts := Parts(header);
    var tags, counts, valid := CollectTags(parts);
    var repeated := AnyRepeated(counts, parts);
    var missing := AnyMissing(tags);
    if repeated || missing {
      valid := false;
    }
    if "v" in tags && tags["v"] != DKIM_VERSION {
      valid := false;
    }
    if "a" in tags && Lower(tags["a"]) !in KNOWN_ALGORITHMS {
      valid := false;
    }
    assert valid <==> Acceptable(parts);
    UsableIff(tags);
    sig := FromTags(valid, tags);
  }

  method AnyMissing(tags: map<string, string>) returns (missing: bool)
    ensures missing <==> !RequiredPresent(tags)
  {
    missing := false;
    for i := 0 to |REQUIRED_TAGS|
      invariant missing <==> exists j :: 0 <= j < i && REQUIRED_TAGS[j] !in tags
    {
      if REQUIRED_TAGS[i] !in tags {
        missing := true;
      }
    }
  }

  // The fields of a parsed signature, read off its tags.
  function FromTags(valid: bool, tags: map<string, string>): Signature {
    Signature(valid, tags, Get(tags, "v"), Get(tags, "a"), Get(tags, "b"), Get(tags, "bh"), Get(tags, "d"),
              Get(tags, "s"),
              match Get(tags, "h") case Some(h) => LoweredNames(h) case None => [])
  }

  ghost function Parsed(header: string): Signature {
    FromTags(Acceptable(Parts(header)), Tags(Parts(header)))
  }

  // ---- Printing and parsing ----

  datatype Tag = Tag(name: string, value: string)

  // Free of ";" and of white space at the edges.
  predicate IsTagText(s: string) {
    ';' !in s && Bare(s, IsSpace)
  }

  predicate WellFormedTag(t: Tag) {
    IsTagText(t.name) && '=' !in t.name && IsTagText(t.value)
  }

  function Printed(t: Tag): string {
    t.name + "=" + t.value
  }

  function PrintedAll(tags: seq<Tag>): (r: seq<string>)
    ensures |r| == |tags| && forall i :: 0 <= i < |r| ==> r[i] == Printed(tags[i])
  {
    seq(|tags|, i requires 0 <= i < |tags| => Printed(tags[i]))
  }

  lemma PrintedTagReads(t: Tag)
    requires WellFormedTag(t)
    ensures '=' in Printed(t) && TagName(Printed(t)) == t.name && TagValue(Printed(t)) == t.value
  {
    var p := Printed(t);
    assert p[|t.name|] == '=';
    assert forall i :: 0 <= i < |t.name| ==> p[i] == t.name[i] && t.name[i] in t.name;
    assert IndexOf(p, '=') == |t.name|;
    assert p[..|t.name|] == t.name && p[|t.name| + 1..] == t.value;
    StripIsBare(t.name, IsSpace);
    StripIsBare(t.value, IsSpace);
  }

  lemma TrimmedPartsStep(piece: string, rest: seq<string>)
    ensures TrimmedParts([piece] + rest) == (if Trim(piece) == [] then [] else [Trim(piece)]) + TrimmedParts(rest)
  {
    assert ([piece] + rest)[1..] == rest;
  }

  lemma {:induction false} PartsOfPieces(pieces: seq<string>, tags: seq<Tag>)
    requires |pieces| == |tags| && forall i :: 0 <= i < |tags| ==> Trim(pieces[i]) == Printed(tags[i])
    ensures TrimmedParts(pieces) == PrintedAll(tags)
  {
    if pieces != [] {
      var rest := pieces[1..];
      forall i | 0 <= i < |rest| ensures Trim(rest[i]) == Printed(tags[1..][i]) {
        assert rest[i] == pieces[i + 1];
      }
      PartsOfPieces(rest, tags[1..]);
      FirstPart(pieces, Printed(tags[0]));
      FirstPrinted(tags);
    }
  }

  lemma FirstPart(pieces: seq<string>, part: string)
    requires pieces != [] && Trim(pieces[0]) == part && part != []
    ensures TrimmedParts(pieces) == [part] + TrimmedParts(pieces[1..])
  {
    assert pieces == [pieces[0]] + pieces[1..];
    TrimmedPartsStep(pieces[0], pieces[1..]);
  }

  lemma FirstPrinted(tags: seq<Tag>)
    requires tags != []
    ensures PrintedAll(tags) == [Printed(tags[0])] + PrintedAll(tags[1..])
  {
  }

  ghost predicate WellFormedTags(tags: seq<Tag>) {
    && (forall i :: 0 <= i < |tags| ==> WellFormedTag(tags[i]))
    && forall i, j :: 0 <= i < j < |tags| ==> tags[i].name != tags[j].name
  }

  lemma PrintedNames(tags: seq<Tag>)
    requires WellFormedTags(tags)
    ensures Separated(PrintedAll(tags)) && DistinctNames(PrintedAll(tags))
  {
    var parts := PrintedAll(tags);
    forall i | 0 <= i < |tags| ensures '=' in parts[i] && TagName(parts[i]) == tags[i].name {
      PrintedTagReads(tags[i]);
    }
  }

  // The map holds exactly these tags.
  ghost predicate Holds(m: map<string, string>, tags: seq<Tag>) {
    && (forall i :: 0 <= i < |tags| ==> tags[i].name in m && m[tags[i].name] == tags[i].value)
    && (forall n :: n in m ==> exists i :: 0 <= i < |tags| && tags[i].name == n)
  }

  lemma HoldsOneMore(m: map<string, string>, tags: seq<Tag>, t: Tag)
    requires Holds(m, tags) && forall i :: 0 <= i < |tags| ==> tags[i].name != t.name
    ensures Holds(m[t.name := t.value], tags + [t])
  {
    var more, longer := m[t.name := t.value], tags + [t];
    assert longer[|tags|] == t;
    forall n ensures n in more ==> exists i :: 0 <= i < |longer| && longer[i].name == n {
      if n in m {
        var i :| 0 <= i < |tags| && tags[i].name == n;
        assert longer[i] == tags[i];
      }
    }
  }

  lemma TagsOfOneMore(rest: seq<Tag>, t: Tag)
    requires WellFormedTag(t)
    ensures Tags(PrintedAll(rest + [t])) == Tags(PrintedAll(rest))[t.name := t.value]
  {
    PrintedTagReads(t);
    assert PrintedAll(rest + [t]) == PrintedAll(rest) + [Printed(t)];
    assert (PrintedAll(rest) + [Printed(t)])[..|rest|] == PrintedAll(rest);
  }

  lemma {:induction false} TagsOfPrinted(tags: seq<Tag>)
    requires WellFormedTags(tags)
    ensures Holds(Tags(PrintedAll(tags)), tags)
  {
    if tags != [] {
      var k := |tags| - 1;
      var rest, t := tags[..k], tags[k];
      assert tags == rest + [t];
      TagsOfPrinted(rest);
      TagsOfOneMore(rest, t);
      HoldsOneMore(Tags(PrintedAll(rest)), rest, t);
    }
  }

  // A list of well-formed tags with distinct names, joined by ";" with any white space around the tags,
  // parses to exactly those tags.
  lemma ParseOfPrinted(tags: seq<Tag>, pieces: seq<string>)
    requires |pieces| == |tags| > 0 && Bare(Join(pieces, ";"), IsSpace) && WellFormedTags(tags)
    requires forall i :: 0 <= i < |tags| ==> ';' !in pieces[i] && Trim(pieces[i]) == Printed(tags[i])
    ensures var parts := Parts(Join(pieces, ";"));
            Separated(parts) && DistinctNames(parts) && Holds(Tags(parts), tags)
  {
    var header := Join(pieces, ";");
    StripIsBare(header, IsSpace);
    SplitJoin(pieces, ';');
    PartsOfPieces(pieces, tags);
    TagsOfPrinted(tags);
    PrintedNames(tags);
  }

  // The h= list of names printed with ":" between them reads back as the names in lower case.
  lemma LoweredNamesOfJoin(names: seq<string>)
    requires forall i :: 0 <= i < |names| ==> names[i] != [] && ':' !in names[i] && Bare(names[i], IsSpace)
    ensures LoweredNames(Join(names, ":")) == LowerAll(names)
  {
    if names == [] {
      assert Split([], ':') == [[]];
      assert TrimmedParts([[]]) == [];
    } else {
      SplitJoin(names, ':');
      BarePartsKept(names);
    }
  }

  lemma {:induction false} BarePartsKept(names: seq<string>)
    requires forall i :: 0 <= i < |names| ==> names[i] != [] && Bare(names[i], IsSpace)
    ensures TrimmedParts(names) == names
  {
    if names != [] {
      StripIsBare(names[0], IsSpace);
      BarePartsKept(names[1..]);
    }
  }
}
