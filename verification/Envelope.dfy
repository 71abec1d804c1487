/**
 The FETCH ENVELOPE response (section 7.5.2 of RFC 9051): building it from a message's headers, writing it, and a
 reader of the wire form that recovers it.
 */
module Envelope {
  import opened Text
  import opened AddressScanner
  import DkimCanon

  // A field: a string, an address list, or NIL.
  datatype Value = Words(text: string) | Addresses(list: seq<Entry>) | Nil

  // ---- Writing ----

  predicate IsControl(c: char) {
    c < ' '
  }

  // Every maximal run of the class becomes one space.
  function CollapseRuns(s: string, p: char -> bool): string {
    if s == [] then []
    else if !p(s[0]) then [s[0]] + CollapseRuns(s[1..], p)
    else if |s| > 1 && p(s[1]) then CollapseRuns(s[1..], p)
    else " " + CollapseRuns(s[1..], p)
  }

  function Escape(s: string): string {
    if s == [] then []
    else (if s[0] == '\\' || s[0] == '"' then ['\\', s[0]] else [s[0]]) + Escape(s[1..])
  }

  function ImapString(s: Option<string>): string {
    if s.None? then "NIL" else "\"" + Escape(CollapseRuns(s.value, IsControl)) + "\""
  }

  function SerializeAddress(a: Entry): string {
    "(" + ImapString(a.name) + " NIL " + ImapString(a.mailbox) + " "
      + ImapString(if a.host == Some("") then None else a.host) + ")"
  }

  function SerializeEach(list: seq<Entry>): string {
    if list == [] then "" else SerializeAddress(list[0]) + SerializeEach(list[1..])
  }

  function SerializeAddressList(list: seq<Entry>): string {
    if list == [] then "NIL" else "(" + SerializeEach(list) + ")"
  }

  function SerializeValue(v: Value): string {
    match v
    case Nil => "NIL"
    case Words(text) => ImapString(Some(text))
    case Addresses(list) => SerializeAddressList(list)
  }

  function SerializeFields(fields: seq<Value>): string {
    if fields == [] then ""
    else if |fields| == 1 then SerializeValue(fields[0])
    else SerializeValue(fields[0]) + " " + SerializeFields(fields[1..])
  }

  function SerializeEnvelope(fields: seq<Value>): string {
    "(" + SerializeFields(fields) + ")"
  }

  // ---- Reading ----

  datatype Got<+T> = Got(value: T, rest: string)

  function ReadLiteral(s: string, literal: string): Option<string> {
    if literal <= s then Some(s[|literal|..]) else None
  }

  // The rest of a quoted string. Only a backslash and a quote are escaped; no control octet may appear.
  function ReadQuoted(s: string): (r: Option<Got<string>>)
    ensures r.Some? ==> |r.value.rest| < |s|
  {
    if s == [] || IsControl(s[0]) then None
    else if s[0] == '"' then Some(Got("", s[1..]))
    else if s[0] == '\\' then
      if |s| > 1 && (s[1] == '\\' || s[1] == '"') then Prepend(s[1], ReadQuoted(s[2..])) else None
    else Prepend(s[0], ReadQuoted(s[1..]))
  }

  function Prepend(c: char, r: Option<Got<string>>): Option<Got<string>> {
    if r.None? then None else Some(Got([c] + r.value.value, r.value.rest))
  }

  // A quoted string or NIL.
  function ReadString(s: string): (r: Option<Got<Option<string>>>)
    ensures r.Some? ==> |r.value.rest| < |s|
  {
    if "NIL" <= s then Some(Got(None, s[3..]))
    else if s == [] || s[0] != '"' then None
    else
      var q := ReadQuoted(s[1..]);
      if q.None? then None else Some(Got(Some(q.value.value), q.value.rest))
  }

  // A string, then the literal that must follow it.
  function ReadStringThen(s: string, literal: string): (r: Option<Got<Option<string>>>)
    ensures r.Some? ==> |r.value.rest| < |s|
  {
    var got := ReadString(s);
    if got.None? then None
    else
      var rest := ReadLiteral(got.value.rest, literal);
      if rest.None? then None else Some(Got(got.value.value, rest.value))
  }

  // "(" name SP adl SP mailbox SP host ")", with the adl NIL.
  function ReadAddress(s: string): (r: Option<Got<Entry>>)
    ensures r.Some? ==> |r.value.rest| < |s|
  {
    var inside := ReadLiteral(s, "(");
    if inside.None? then None
    else
      var name := ReadStringThen(inside.value, " NIL ");
      if name.None? then None
      else
        var mailbox := ReadStringThen(name.value.rest, " ");
        if mailbox.None? then None
        else
          var host := ReadStringThen(mailbox.value.rest, ")");
          if host.None? then None
          else Some(Got(Entry(name.value.value, mailbox.value.value, host.value.value), host.value.rest))
  }

  // Addresses up to the closing parenthesis.
  function ReadEach(s: string): Option<Got<seq<Entry>>>
    decreases |s|
  {
    if ")" <= s then Some(Got([], s[1..]))
    else
      var first := ReadAddress(s);
      if first.None? then None
      else
        var more := ReadEach(first.value.rest);
        if more.None? then None else Some(Got([first.value.value] + more.value.value, more.value.rest))
  }

  datatype Kind = StringField | ListField

  function ReadValue(kind: Kind, s: string): Option<Got<Value>> {
    if "NIL" <= s then Some(Got(Nil, s[3..]))
    else match kind
      case StringField =>
        var got := ReadString(s);
        if got.None? || got.value.value.None? then None else Some(Got(Words(got.value.value.value), got.value.rest))
      case ListField =>
        var inside := ReadLiteral(s, "(");
        if inside.None? then None
        else
          var got := ReadEach(inside.value);
          if got.None? then None else Some(Got(Addresses(got.value.value), got.value.rest))
  }

  // The fields in order, one space between two of them.
  function ReadFields(kinds: seq<Kind>, s: string): Option<Got<seq<Value>>>
    decreases |kinds|
  {
    if kinds == [] then Some(Got([], s))
    else
      var first := ReadValue(kinds[0], s);
      if first.None? then None
      else if |kinds| == 1 then Some(Got([first.value.value], first.value.rest))
      else
        var rest := ReadLiteral(first.value.rest, " ");
        if rest.None? then None
        else
          var more := ReadFields(kinds[1..], rest.value);
          if more.None? then None else Some(Got([first.value.value] + more.value.value, more.value.rest))
  }

  // The whole response; nothing may follow it.
  function ReadEnvelope(kinds: seq<Kind>, s: string): Option<seq<Value>> {
    var inside := ReadLiteral(s, "(");
    if inside.None? then None
    else
      var got := ReadFields(kinds, inside.value);
      if got.None? || got.value.rest != ")" then None else Some(got.value.value)
  }

  // ---- What survives the wire ----

  function SentString(s: Option<string>): Option<string> {
    if s.None? then None else Some(CollapseRuns(s.value, IsControl))
  }

  // Control runs become spaces, an empty host becomes NIL.
  function SentEntry(a: Entry): Entry {
    Entry(SentString(a.name), SentString(a.mailbox), if a.host == Some("") then None else SentString(a.host))
  }

  function SentEntries(list: seq<Entry>): seq<Entry> {
    if list == [] then [] else [SentEntry(list[0])] + SentEntries(list[1..])
  }

  // An empty list becomes NIL.
  function SentValue(v: Value): Value {
    match v
    case Nil => Nil
    case Words(text) => Words(CollapseRuns(text, IsControl))
    case Addresses(list) => if list == [] then Nil else Addresses(SentEntries(list))
  }

  function SentValues(fields: seq<Value>): seq<Value> {
    if fields == [] then [] else [SentValue(fields[0])] + SentValues(fields[1..])
  }

  predicate Fits(v: Value, kind: Kind) {
    match v
    case Nil => true
    case Words(_) => kind == StringField
    case Addresses(_) => kind == ListField
  }

  // ---- The round trip ----

  lemma LiteralReads(literal: string, rest: string)
    ensures ReadLiteral(literal + rest, literal) == Some(rest)
  {
  }

  lemma {:induction false} CollapsedIsClean(s: string, p: char -> bool)
    requires !p(' ')
    ensures forall i :: 0 <= i < |CollapseRuns(s, p)| ==> !p(CollapseRuns(s, p)[i])
  {
    if s != [] {
      CollapsedIsClean(s[1..], p);
    }
  }

  lemma {:induction false} QuotedReads(s: string, rest: string)
    requires forall i :: 0 <= i < |s| ==> !IsControl(s[i])
    ensures ReadQuoted(Escape(s) + "\"" + rest) == Some(Got(s, rest))
  {
    var t := Escape(s) + "\"" + rest;
    if s == [] {
      assert t[0] == '"' && t[1..] == rest;
    } else {
      QuotedReads(s[1..], rest);
      var k := if s[0] == '\\' || s[0] == '"' then 2 else 1;
      assert t[k..] == Escape(s[1..]) + "\"" + rest;
      assert [s[0]] + s[1..] == s;
    }
  }

  lemma QuoteOpens(body: string, value: string, rest: string)
    requires ReadQuoted(body) == Some(Got(value, rest))
    ensures ReadString("\"" + body) == Some(Got(Some(value), rest))
  {
    var t := "\"" + body;
    assert t[0] == '"';
    assert t[1..] == body;
  }

  lemma StringReads(s: Option<string>, rest: string)
    ensures ReadString(ImapString(s) + rest) == Some(Got(SentString(s), rest))
  {
    if s.None? {
      NilOpens(rest);
    } else {
      var clean := CollapseRuns(s.value, IsControl);
      CollapsedIsClean(s.value, IsControl);
      QuotedReads(clean, rest);
      QuoteOpens(Escape(clean) + "\"" + rest, clean, rest);
      QuoteGlue(Escape(clean), rest);
    }
  }

  lemma NilOpens(rest: string)
    ensures "NIL" <= "NIL" + rest && ("NIL" + rest)[3..] == rest
  {
  }

  lemma QuoteGlue(text: string, rest: string)
    ensures "\"" + text + "\"" + rest == "\"" + (text + "\"" + rest)
  {
  }

  lemma StringThenReads(s: Option<string>, literal: string, rest: string)
    ensures ReadStringThen(ImapString(s) + (literal + rest), literal) == Some(Got(SentString(s), rest))
  {
    StringReads(s, literal + rest);
    LiteralReads(literal, rest);
  }

  lemma AddressReads(a: Entry, rest: string)
    ensures ReadAddress(SerializeAddress(a) + rest) == Some(Got(SentEntry(a), rest))
  {
    var host := if a.host == Some("") then None else a.host;
    var t3 := ImapString(host) + (")" + rest);
    var t2 := ImapString(a.mailbox) + (" " + t3);
    var t1 := ImapString(a.name) + (" NIL " + t2);
    StringThenReads(host, ")", rest);
    StringThenReads(a.mailbox, " ", t3);
    StringThenReads(a.name, " NIL ", t2);
    LiteralReads("(", t1);
    AddressParts(ImapString(a.name), ImapString(a.mailbox), ImapString(host), rest);
  }

  lemma AddressParts(name: string, mailbox: string, host: string, rest: string)
    ensures "(" + name + " NIL " + mailbox + " " + host + ")" + rest
            == "(" + (name + (" NIL " + (mailbox + (" " + (host + (")" + rest))))))
  {
  }

  lemma NextEntry(s: string, a: Entry, tail: string, list: seq<Entry>, rest: string)
    requires !(")" <= s) && ReadAddress(s) == Some(Got(a, tail)) && ReadEach(tail) == Some(Got(list, rest))
    ensures ReadEach(s) == Some(Got([a] + list, rest))
  {
  }

  lemma {:induction false} EachReads(list: seq<Entry>, rest: string)
    ensures ReadEach(SerializeEach(list) + ")" + rest) == Some(Got(SentEntries(list), rest))
  {
    var t := SerializeEach(list) + ")" + rest;
    if list == [] {
      assert t == ")" + rest && t[1..] == rest;
    } else {
      var tail := SerializeEach(list[1..]) + ")" + rest;
      EachReads(list[1..], rest);
      AddressReads(list[0], tail);
      EntryGlue(SerializeAddress(list[0]), SerializeEach(list[1..]), rest);
      assert t[0] == '(';
      NextEntry(t, SentEntry(list[0]), tail, SentEntries(list[1..]), rest);
    }
  }

  lemma EntryGlue(first: string, more: string, rest: string)
    ensures first + more + ")" + rest == first + (more + ")" + rest)
  {
  }

  lemma ListOpens(body: string, list: seq<Entry>, rest: string)
    requires ReadEach(body) == Some(Got(list, rest))
    ensures ReadValue(ListField, "(" + body) == Some(Got(Addresses(list), rest))
  {
    LiteralReads("(", body);
    assert ("(" + body)[0] == '(';
  }

  lemma ListReads(list: seq<Entry>, rest: string)
    requires list != []
    ensures ReadValue(ListField, SerializeAddressList(list) + rest) == Some(Got(Addresses(SentEntries(list)), rest))
  {
    var body := SerializeEach(list) + ")" + rest;
    EachReads(list, rest);
    ListOpens(body, SentEntries(list), rest);
    ListGlue(SerializeEach(list), rest);
  }

  lemma ListGlue(text: string, rest: string)
    ensures "(" + text + ")" + rest == "(" + (text + ")" + rest)
  {
  }

  lemma ValueReads(v: Value, kind: Kind, rest: string)
    requires Fits(v, kind)
    ensures ReadValue(kind, SerializeValue(v) + rest) == Some(Got(SentValue(v), rest))
  {
    NilOpens(rest);
    match v {
      case Nil =>
      case Words(text) =>
        StringReads(Some(text), rest);
        assert (ImapString(Some(text)) + rest)[0] == '"';
      case Addresses(list) =>
        if list != [] {
          ListReads(list, rest);
        }
    }
  }

  lemma SentOne(fields: seq<Value>)
    requires |fields| == 1
    ensures SentValues(fields) == [SentValue(fields[0])]
  {
    assert fields[1..] == [];
    assert SentValues(fields[1..]) == [];
  }

  lemma LastField(kinds: seq<Kind>, s: string, v: Value, rest: string)
    requires |kinds| == 1 && ReadValue(kinds[0], s) == Some(Got(v, rest))
    ensures ReadFields(kinds, s) == Some(Got([v], rest))
  {
  }

  lemma NextField(kinds: seq<Kind>, s: string, v: Value, tail: string, vs: seq<Value>, rest: string)
    requires |kinds| > 1 && ReadValue(kinds[0], s) == Some(Got(v, " " + tail))
    requires ReadFields(kinds[1..], tail) == Some(Got(vs, rest))
    ensures ReadFields(kinds, s) == Some(Got([v] + vs, rest))
  {
    LiteralReads(" ", tail);
  }

  lemma {:induction false} FieldsRead(fields: seq<Value>, kinds: seq<Kind>, rest: string)
    requires |fields| == |kinds| && forall i :: 0 <= i < |fields| ==> Fits(fields[i], kinds[i])
    ensures ReadFields(kinds, SerializeFields(fields) + rest) == Some(Got(SentValues(fields), rest))
  {
    if fields == [] {
      assert "" + rest == rest;
    } else if |fields| == 1 {
      ValueReads(fields[0], kinds[0], rest);
      LastField(kinds, SerializeFields(fields) + rest, SentValue(fields[0]), rest);
      SentOne(fields);
    } else {
      var tail := SerializeFields(fields[1..]) + rest;
      FieldsRead(fields[1..], kinds[1..], rest);
      ValueReads(fields[0], kinds[0], " " + tail);
      FieldGlue(SerializeValue(fields[0]), SerializeFields(fields[1..]), rest);
      NextField(kinds, SerializeFields(fields) + rest, SentValue(fields[0]), tail, SentValues(fields[1..]), rest);
    }
  }

  lemma FieldGlue(first: string, more: string, rest: string)
    ensures first + " " + more + rest == first + (" " + (more + rest))
  {
  }

  // Every envelope reads back field by field, up to collapsed control runs, empty hosts and empty lists.
  lemma EnvelopeReads(fields: seq<Value>, kinds: seq<Kind>)
    requires |fields| == |kinds| && forall i :: 0 <= i < |fields| ==> Fits(fields[i], kinds[i])
    ensures ReadEnvelope(kinds, SerializeEnvelope(fields)) == Some(SentValues(fields))
  {
    FieldsRead(fields, kinds, ")");
    InsideReads(kinds, SerializeFields(fields) + ")", SentValues(fields));
    Parenthesized(fields);
  }

  lemma Parenthesized(fields: seq<Value>)
    ensures SerializeEnvelope(fields) == "(" + (SerializeFields(fields) + ")")
  {
  }

  lemma InsideReads(kinds: seq<Kind>, inside: string, values: seq<Value>)
    requires ReadFields(kinds, inside) == Some(Got(values, ")"))
    ensures ReadEnvelope(kinds, "(" + inside) == Some(values)
  {
    LiteralReads("(", inside);
  }

  // ---- No control octet is sent ----

  ghost predicate Clean(s: string) {
    forall i :: 0 <= i < |s| ==> !IsControl(s[i])
  }

  lemma {:induction false} EscapedIsClean(s: string)
    requires Clean(s)
    ensures Clean(Escape(s))
  {
    if s != [] {
      EscapedIsClean(s[1..]);
    }
  }

  lemma StringIsClean(s: Option<string>)
    ensures Clean(ImapString(s))
  {
    if s.Some? {
      CollapsedIsClean(s.value, IsControl);
      EscapedIsClean(CollapseRuns(s.value, IsControl));
    }
  }

  lemma AddressIsClean(a: Entry)
    ensures Clean(SerializeAddress(a))
  {
    StringIsClean(a.name);
    StringIsClean(a.mailbox);
    StringIsClean(a.host);
    StringIsClean(None);
  }

  lemma {:induction false} EachIsClean(list: seq<Entry>)
    ensures Clean(SerializeEach(list))
  {
    if list != [] {
      AddressIsClean(list[0]);
      EachIsClean(list[1..]);
    }
  }

  lemma {:induction false} FieldsAreClean(fields: seq<Value>)
    ensures Clean(SerializeFields(fields))
  {
    if fields != [] {
      ValueIsClean(fields[0]);
      FieldsAreClean(fields[1..]);
    }
  }

  lemma ValueIsClean(v: Value)
    ensures Clean(SerializeValue(v))
  {
    match v {
      case Nil =>
      case Words(text) => StringIsClean(Some(text));
      case Addresses(list) => EachIsClean(list);
    }
  }

  lemma EnvelopeIsClean(fields: seq<Value>)
    ensures forall i :: 0 <= i < |SerializeEnvelope(fields)| ==> SerializeEnvelope(fields)[i] >= ' '
  {
    FieldsAreClean(fields);
    assert Clean(SerializeEnvelope(fields));
  }

  // ---- Building ----

  datatype Header = Header(name: string, value: string)

  // Every CRLF before white space is dropped, and every other run of CRs and LFs becomes one space.
  function Unfold(value: string): string {
    CollapseRuns(DkimCanon.Unfold(value), IsCrOrLf)
  }

  // A run of CRs and LFs, and the text behind it.
  datatype Break = Break(run: string, text: string)

  function Broken(bs: seq<Break>): string {
    if bs == [] then "" else bs[0].run + (bs[0].text + Broken(bs[1..]))
  }

  // One CRLF in front of white space.
  predicate IsFold(b: Break) {
    b.run == CRLF && b.text != "" && IsWsp(b.text[0])
  }

  // A fold goes, and any other run becomes one space.
  function Mended(bs: seq<Break>): string {
    if bs == [] then "" else (if IsFold(bs[0]) then "" else " ") + (bs[0].text + Mended(bs[1..]))
  }

  predicate Unbroken(s: string) {
    forall i :: 0 <= i < |s| ==> !IsCrOrLf(s[i])
  }

  predicate IsRun(s: string) {
    forall i :: 0 <= i < |s| ==> IsCrOrLf(s[i])
  }

  // Whole runs only: no break has an empty text but the last.
  predicate WellBroken(bs: seq<Break>) {
    forall i :: 0 <= i < |bs| ==>
      bs[i].run != "" && IsRun(bs[i].run) && Unbroken(bs[i].text) && (i < |bs| - 1 ==> bs[i].text != "")
  }

  lemma {:induction false} UnfoldText(text: string, rest: string)
    requires Unbroken(text)
    ensures DkimCanon.Unfold(text + rest) == text + DkimCanon.Unfold(rest)
  {
    if text == "" {
      assert text + rest == rest;
    } else {
      assert (text + rest)[1..] == text[1..] + rest;
      UnfoldText(text[1..], rest);
    }
  }

  lemma {:induction false} UnfoldRun(run: string, rest: string) returns (kept: string)
    requires IsRun(run) && (rest == "" || !IsCrOrLf(rest[0]))
    ensures DkimCanon.Unfold(run + rest) == kept + DkimCanon.Unfold(rest) && IsRun(kept)
    ensures run != "" ==> (kept == "" <==> run == CRLF && rest != "" && IsWsp(rest[0]))
  {
    var s := run + rest;
    if run == "" {
      kept := "";
      assert s == rest && kept + DkimCanon.Unfold(rest) == DkimCanon.Unfold(rest);
    } else if DkimCanon.FoldAt(s, 0) {
      kept := "";
      assert |run| == 2 && s[2..] == rest;
    } else {
      assert s[1..] == run[1..] + rest;
      var later := UnfoldRun(run[1..], rest);
      kept := [run[0]] + later;
    }
  }

  lemma {:induction false} CollapseText(text: string, rest: string)
    requires Unbroken(text)
    ensures CollapseRuns(text + rest, IsCrOrLf) == text + CollapseRuns(rest, IsCrOrLf)
  {
    if text == "" {
      assert text + rest == rest;
    } else {
      assert (text + rest)[1..] == text[1..] + rest;
      CollapseText(text[1..], rest);
    }
  }

  lemma {:induction false} CollapseRun(run: string, rest: string)
    requires IsRun(run) && (rest == "" || !IsCrOrLf(rest[0]))
    ensures CollapseRuns(run + rest, IsCrOrLf) == (if run == "" then "" else " ") + CollapseRuns(rest, IsCrOrLf)
  {
    if run == "" {
      assert run + rest == rest;
    } else {
      assert (run + rest)[1..] == run[1..] + rest;
      CollapseRun(run[1..], rest);
    }
  }

  lemma BreakMends(b: Break, later: string)
    requires b.run != "" && IsRun(b.run) && Unbroken(b.text) && (b.text == "" ==> later == "")
    ensures Unfold(b.run + (b.text + later)) == (if IsFold(b) then "" else " ") + (b.text + Unfold(later))
  {
    var kept := UnfoldRun(b.run, b.text + later);
    UnfoldText(b.text, later);
    CollapseRun(kept, b.text + DkimCanon.Unfold(later));
    CollapseText(b.text, DkimCanon.Unfold(later));
  }

  lemma {:induction false} BreaksMend(bs: seq<Break>)
    requires WellBroken(bs)
    ensures Unfold(Broken(bs)) == Mended(bs)
  {
    if bs != [] {
      BreaksMend(bs[1..]);
      BreakMends(bs[0], Broken(bs[1..]));
    }
  }

  // What unfolding makes of a value, wherever its lines break.
  lemma UnfoldMends(first: string, bs: seq<Break>)
    requires Unbroken(first) && WellBroken(bs)
    ensures Unfold(first + Broken(bs)) == first + Mended(bs)
  {
    UnfoldText(first, Broken(bs));
    CollapseText(first, DkimCanon.Unfold(Broken(bs)));
    BreaksMend(bs);
  }

  predicate Named(h: Header, name: string) {
    Lower(Trim(h.name)) == Lower(name)
  }

  // White space around the name and the case of its letters do not matter.
  lemma NamesAgree(before: string, name: string, after: string, value: string, asked: string)
    requires Blank(before) && Blank(after) && name != "" && Bare(name, IsSpace)
    ensures Named(Header(before + name + after, value), asked) <==> Lower(name) == Lower(asked)
  {
    TrimPadded(before, name, after);
  }

  ghost predicate FirstNamed(headers: seq<Header>, name: string, k: int) {
    0 <= k < |headers| && Named(headers[k], name) && forall j :: 0 <= j < k ==> !Named(headers[j], name)
  }

  ghost predicate NoneNamed(headers: seq<Header>, name: string) {
    forall j :: 0 <= j < |headers| ==> !Named(headers[j], name)
  }

  function FirstValue(headers: seq<Header>, name: string): Option<string> {
    if headers == [] then None
    else if Named(headers[0], name) then Some(Trim(Unfold(headers[0].value)))
    else FirstValue(headers[1..], name)
  }

  lemma {:induction false} FirstValueIsFirst(headers: seq<Header>, name: string)
    ensures NoneNamed(headers, name) ==> FirstValue(headers, name) == None
    ensures forall k :: FirstNamed(headers, name, k) ==>
            FirstValue(headers, name) == Some(Trim(Unfold(headers[k].value)))
  {
    if headers != [] && !Named(headers[0], name) {
      FirstValueIsFirst(headers[1..], name);
      forall k | FirstNamed(headers, name, k)
        ensures FirstValue(headers, name) == Some(Trim(Unfold(headers[k].value))) {
        assert FirstNamed(headers[1..], name, k - 1);
      }
    }
  }

  lemma {:induction false} FirstOrNone(headers: seq<Header>, name: string)
    ensures NoneNamed(headers, name) || exists k :: FirstNamed(headers, name, k)
  {
    if headers != [] {
      if Named(headers[0], name) {
        assert FirstNamed(headers, name, 0);
      } else {
        FirstOrNone(headers[1..], name);
        if k :| FirstNamed(headers[1..], name, k) {
          assert FirstNamed(headers, name, k + 1);
        }
      }
    }
  }

  lemma FirstValueTells(headers: seq<Header>, name: string, value: Option<string>)
    requires value == FirstValue(headers, name)
    ensures value.None? <==> NoneNamed(headers, name)
    ensures value.Some? ==> exists k :: FirstNamed(headers, name, k) && value == Some(Trim(Unfold(headers[k].value)))
  {
    FirstValueIsFirst(headers, name);
    FirstOrNone(headers, name);
  }

  // The first header of the name, unfolded and trimmed.
  method HeaderValue(headers: seq<Header>, name: string) returns (value: Option<string>)
    ensures value.None? <==> NoneNamed(headers, name)
    ensures value.Some? ==> exists k :: FirstNamed(headers, name, k) && value == Some(Trim(Unfold(headers[k].value)))
    ensures value == FirstValue(headers, name)
  {
    value := None;
    for i := 0 to |headers|
      invariant value == None && FirstValue(headers[i..], name) == FirstValue(headers, name)
    {
      if Named(headers[i], name) {
        value := Some(Trim(Unfold(headers[i].value)));
        break;
      }
      assert headers[i..][1..] == headers[i + 1..];
    }
    FirstValueTells(headers, name, value);
  }

  function StringOf(value: Option<string>): Value {
    if value.None? then Nil else Words(value.value)
  }

  function ListOf(list: seq<Entry>): Value {
    if list == [] then Nil else Addresses(list)
  }

  function EntriesOf(headers: seq<Header>, name: string): seq<Entry> {
    Entries(Scanned(FirstValue(headers, name)))
  }

  // The order of section 7.5.2.
  const KINDS: seq<Kind> := [StringField, StringField, ListField, ListField, ListField, ListField, ListField, ListField,
                             StringField, StringField]

  method ReadList(headers: seq<Header>, name: string) returns (list: seq<Entry>)
    ensures list == EntriesOf(headers, name)
  {
    var value := HeaderValue(headers, name);
    list := ParseAddressList(value);
  }

  // The header names the fields are read from.
  datatype Names = Names(date: string, subject: string, senders: string, sender: string, replyTo: string, to: string,
                         cc: string, bcc: string, inReplyTo: string, messageId: string)

  const HEADER_NAMES: Names := Names("Date", "Subject", "From", "Sender", "Reply-To", "To", "Cc", "Bcc",
      "In-Reply-To", "Message-ID")

  function OrElse(list: seq<Entry>, other: seq<Entry>): seq<Entry> {
    if list == [] then other else list
  }

  // What the headers hold for each field.
  datatype Parts = Parts(date: Option<string>, subject: Option<string>, senders: seq<Entry>, sender: seq<Entry>,
                         replyTo: seq<Entry>, to: seq<Entry>, cc: seq<Entry>, bcc: seq<Entry>,
                         inReplyTo: Option<string>, messageId: Option<string>)

  function PartsOf(headers: seq<Header>, names: Names): Parts {
    Parts(FirstValue(headers, names.date), FirstValue(headers, names.subject), EntriesOf(headers, names.senders),
          EntriesOf(headers, names.sender), EntriesOf(headers, names.replyTo), EntriesOf(headers, names.to),
          EntriesOf(headers, names.cc), EntriesOf(headers, names.bcc), FirstValue(headers, names.inReplyTo),
          FirstValue(headers, names.messageId))
  }

  // The ten fields in order; Sender and Reply-To fall back to From where they hold no address.
  function FieldsOf(p: Parts): (fields: seq<Value>)
    ensures |fields| == |KINDS| && forall i :: 0 <= i < |fields| ==> Fits(fields[i], KINDS[i])
    ensures p.sender == [] ==> fields[3] == fields[2]
    ensures p.replyTo == [] ==> fields[4] == fields[2]
  {
    [StringOf(p.date), StringOf(p.subject), ListOf(p.senders), ListOf(OrElse(p.sender, p.senders)),
     ListOf(OrElse(p.replyTo, p.senders)), ListOf(p.to), ListOf(p.cc), ListOf(p.bcc), StringOf(p.inReplyTo),
     StringOf(p.messageId)]
  }

  method ReadStrings(headers: seq<Header>, names: Names) returns (date: Option<string>, subject: Option<string>,
                                                                  inReplyTo: Option<string>, messageId: Option<string>)
    ensures date == FirstValue(headers, names.date) && subject == FirstValue(headers, names.subject)
    ensures inReplyTo == FirstValue(headers, names.inReplyTo) && messageId == FirstValue(headers, names.messageId)
  {
    date := HeaderValue(headers, names.date);
    subject := HeaderValue(headers, names.subject);
    inReplyTo := HeaderValue(headers, names.inReplyTo);
    messageId := HeaderValue(headers, names.messageId);
  }

  method ReadParts(headers: seq<Header>, names: Names) returns (p: Parts)
    ensures p == PartsOf(headers, names)
  {
    var senders := ReadList(headers, names.senders);
    var sender := ReadList(headers, names.sender);
    var replyTo := ReadList(headers, names.replyTo);
    var date, subject, inReplyTo, messageId := ReadStrings(headers, names);
    var to := ReadList(headers, names.to);
    var cc := ReadList(headers, names.cc);
    var bcc := ReadList(headers, names.bcc);
    p := Parts(date, subject, senders, sender, replyTo, to, cc, bcc, inReplyTo, messageId);
  }

  // ---- What stands in each position ----

  // The text of the first header of the name, or NIL.
  ghost predicate HoldsText(v: Value, headers: seq<Header>, name: string) {
    && (NoneNamed(headers, name) ==> v == Nil)
    && forall k :: FirstNamed(headers, name, k) ==> v == Words(Trim(Unfold(headers[k].value)))
  }

  // The addresses of the first header of the name; NIL without one, or without an address in it.
  ghost predicate HoldsList(v: Value, headers: seq<Header>, name: string) {
    && (NoneNamed(headers, name) ==> v == Nil)
    && forall k :: FirstNamed(headers, name, k) ==> HoldsEntries(v, Trim(Unfold(headers[k].value)))
  }

  predicate HoldsEntries(v: Value, text: string) {
    var entries := Entries(Scanned(Some(text)));
    v == if entries == [] then Nil else Addresses(entries)
  }

  // The same, with another value in the place of NIL.
  ghost predicate HoldsListOr(v: Value, other: Value, headers: seq<Header>, name: string) {
    exists own :: HoldsList(own, headers, name) && v == if own == Nil then other else own
  }

  // Position i holds what belongs to the i-th name.
  ghost predicate InPosition(fields: seq<Value>, headers: seq<Header>, names: seq<string>)
    requires |fields| == |names| == 10
  {
    && (forall i :: i in {0, 1, 8, 9} ==> HoldsText(fields[i], headers, names[i]))
    && (forall i :: i in {2, 5, 6, 7} ==> HoldsList(fields[i], headers, names[i]))
    && (forall i :: i in {3, 4} ==> HoldsListOr(fields[i], fields[2], headers, names[i]))
  }

  function InOrder(n: Names): (names: seq<string>)
    ensures |names| == 10
  {
    [n.date, n.subject, n.senders, n.sender, n.replyTo, n.to, n.cc, n.bcc, n.inReplyTo, n.messageId]
  }

  lemma TextIsHeld(headers: seq<Header>, name: string)
    ensures HoldsText(StringOf(FirstValue(headers, name)), headers, name)
  {
    FirstValueIsFirst(headers, name);
  }

  lemma ListIsHeld(headers: seq<Header>, name: string)
    ensures HoldsList(ListOf(EntriesOf(headers, name)), headers, name)
  {
    FirstValueIsFirst(headers, name);
  }

  lemma ListIsHeldOr(headers: seq<Header>, name: string, other: seq<Entry>)
    ensures HoldsListOr(ListOf(OrElse(EntriesOf(headers, name), other)), ListOf(other), headers, name)
  {
    ListIsHeld(headers, name);
    assert HoldsList(ListOf(EntriesOf(headers, name)), headers, name);
  }

  function OwnText(headers: seq<Header>, name: string): Value {
    StringOf(FirstValue(headers, name))
  }

  function OwnList(headers: seq<Header>, name: string, other: seq<Entry>): Value {
    ListOf(OrElse(EntriesOf(headers, name), other))
  }

  lemma FieldsListed(p: Parts)
    ensures var fields := FieldsOf(p);
            && fields[0] == StringOf(p.date) && fields[1] == StringOf(p.subject) && fields[2] == ListOf(p.senders)
            && fields[3] == ListOf(OrElse(p.sender, p.senders)) && fields[4] == ListOf(OrElse(p.replyTo, p.senders))
            && fields[5] == ListOf(p.to) && fields[6] == ListOf(p.cc) && fields[7] == ListOf(p.bcc)
            && fields[8] == StringOf(p.inReplyTo) && fields[9] == StringOf(p.messageId)
  {
  }

  lemma NamesListed(n: Names)
    ensures InOrder(n)[2] == n.senders && InOrder(n)[3] == n.sender && InOrder(n)[4] == n.replyTo
    ensures InOrder(n)[5] == n.to && InOrder(n)[6] == n.cc && InOrder(n)[7] == n.bcc
  {
  }

  lemma TextAt(headers: seq<Header>, n: Names, i: nat)
    requires i in {0, 1, 8, 9}
    ensures FieldsOf(PartsOf(headers, n))[i] == OwnText(headers, InOrder(n)[i])
  {
    FieldsListed(PartsOf(headers, n));
  }

  lemma ListAt(headers: seq<Header>, n: Names, i: nat)
    requires i in {2, 5, 6, 7}
    ensures FieldsOf(PartsOf(headers, n))[i] == OwnList(headers, InOrder(n)[i], [])
  {
    FieldsListed(PartsOf(headers, n));
    NamesListed(n);
  }

  lemma ListOrFromAt(headers: seq<Header>, n: Names, i: nat)
    requires i in {3, 4}
    ensures FieldsOf(PartsOf(headers, n))[i] == OwnList(headers, InOrder(n)[i], EntriesOf(headers, InOrder(n)[2]))
  {
    FieldsListed(PartsOf(headers, n));
    NamesListed(n);
  }

  lemma PartsInPosition(headers: seq<Header>, n: Names)
    ensures InPosition(FieldsOf(PartsOf(headers, n)), headers, InOrder(n))
  {
    var fields, names := FieldsOf(PartsOf(headers, n)), InOrder(n);
    ListAt(headers, n, 2);
    forall i | i in {0, 1, 8, 9} ensures HoldsText(fields[i], headers, names[i]) {
      TextAt(headers, n, i);
      TextIsHeld(headers, names[i]);
    }
    forall i | i in {2, 5, 6, 7} ensures HoldsList(fields[i], headers, names[i]) {
      ListAt(headers, n, i);
      ListIsHeld(headers, names[i]);
    }
    forall i | i in {3, 4} ensures HoldsListOr(fields[i], fields[2], headers, names[i]) {
      ListOrFromAt(headers, n, i);
      ListIsHeldOr(headers, names[i], EntriesOf(headers, names[2]));
    }
  }

  method BuildEnvelope(headers: seq<Header>) returns (fields: seq<Value>)
    ensures fields == FieldsOf(PartsOf(headers, HEADER_NAMES)) && |fields| == 10
    ensures InPosition(fields, headers, ["Date", "Subject", "From", "Sender", "Reply-To", "To", "Cc", "Bcc",
                                         "In-Reply-To", "Message-ID"])
  {
    var p := ReadParts(headers, HEADER_NAMES);
    PartsInPosition(headers, HEADER_NAMES);
    fields := FieldsOf(p);
  }

  // ---- One header, one position ----

  // No two of the names are the same in lower case.
  predicate Distinct(names: seq<string>) {
    forall i, j :: 0 <= i < j < |names| ==> Lower(names[i]) != Lower(names[j])
  }

  lemma {:induction false} OtherNameUnchanged(headers: seq<Header>, k: nat, value: string, name: string)
    requires k < |headers| && !Named(headers[k], name)
    ensures FirstValue(headers[k := Header(headers[k].name, value)], name) == FirstValue(headers, name)
  {
    var changed := headers[k := Header(headers[k].name, value)];
    if k == 0 {
      assert changed[1..] == headers[1..];
    } else {
      OtherNameUnchanged(headers[1..], k - 1, value, name);
      assert changed[1..] == headers[1..][k - 1 := Header(headers[k].name, value)];
    }
  }

  // Sender or Reply-To, where its own header holds no address.
  predicate FallsBack(headers: seq<Header>, names: seq<string>, j: nat)
    requires j < |names|
  {
    j in {3, 4} && EntriesOf(headers, names[j]) == []
  }

  lemma NamesTellApart(headers: seq<Header>, names: seq<string>, i: nat, j: nat, k: nat)
    requires Distinct(names) && i < |names| && j < |names| && i != j && k < |headers| && Named(headers[k], names[i])
    ensures !Named(headers[k], names[j])
  {
  }

  // Changing the header that position i is read from changes no other position, except that From shows through
  // in Sender and Reply-To where these fall back.
  lemma OneHeaderOnePosition(headers: seq<Header>, n: Names, i: nat, k: nat, value: string, j: nat)
    requires Distinct(InOrder(n)) && i < 10 && j < 10 && i != j
    requires FirstNamed(headers, InOrder(n)[i], k) && !(i == 2 && FallsBack(headers, InOrder(n), j))
    ensures var changed := headers[k := Header(headers[k].name, value)];
            FieldsOf(PartsOf(changed, n))[j] == FieldsOf(PartsOf(headers, n))[j]
  {
    var names, changed := InOrder(n), headers[k := Header(headers[k].name, value)];
    NamesTellApart(headers, names, i, j, k);
    OtherNameUnchanged(headers, k, value, names[j]);
    if i != 2 {
      NamesTellApart(headers, names, i, 2, k);
      OtherNameUnchanged(headers, k, value, names[2]);
    }
    SameSources(headers, changed, n, j);
  }

  lemma SameSources(headers: seq<Header>, changed: seq<Header>, n: Names, j: nat)
    requires j < 10 && FirstValue(changed, InOrder(n)[j]) == FirstValue(headers, InOrder(n)[j])
    requires FallsBack(headers, InOrder(n), j) ==>
             FirstValue(changed, InOrder(n)[2]) == FirstValue(headers, InOrder(n)[2])
    ensures FieldsOf(PartsOf(changed, n))[j] == FieldsOf(PartsOf(headers, n))[j]
  {
    if j in {0, 1, 8, 9} {
      TextAt(headers, n, j);
      TextAt(changed, n, j);
    } else if j in {3, 4} {
      ListOrFromAt(headers, n, j);
      ListOrFromAt(changed, n, j);
    } else {
      ListAt(headers, n, j);
      ListAt(changed, n, j);
    }
  }

  // The same for the names of section 7.5.2.
  lemma ChangeStaysInPosition(headers: seq<Header>, i: nat, k: nat, value: string, j: nat)
    requires i < 10 && j < 10 && i != j && FirstNamed(headers, InOrder(HEADER_NAMES)[i], k)
    requires !(i == 2 && FallsBack(headers, InOrder(HEADER_NAMES), j))
    ensures var changed := headers[k := Header(headers[k].name, value)];
            FieldsOf(PartsOf(changed, HEADER_NAMES))[j] == FieldsOf(PartsOf(headers, HEADER_NAMES))[j]
  {
    HeaderNamesDistinct();
    OneHeaderOnePosition(headers, HEADER_NAMES, i, k, value, j);
  }

  lemma LowerDiffers(a: string, b: string)
    requires |a| != |b| || (a != "" && LowerChar(a[0]) != LowerChar(b[0]))
    ensures Lower(a) != Lower(b)
  {
    assert |a| == |b| ==> Lower(a)[0] != Lower(b)[0];
  }

  lemma HeaderNamesDistinct()
    ensures Distinct(InOrder(HEADER_NAMES))
  {
    var names := InOrder(HEADER_NAMES);
    forall i, j | 0 <= i < j < |names| ensures Lower(names[i]) != Lower(names[j]) {
      LowerDiffers(names[i], names[j]);
    }
  }

  // The wire form of the envelope of any message, whatever its headers hold, reads back in every position.
  lemma MessageEnvelopeReads(headers: seq<Header>, names: Names)
    ensures ReadEnvelope(KINDS, SerializeEnvelope(FieldsOf(PartsOf(headers, names))))
            == Some(SentValues(FieldsOf(PartsOf(headers, names))))
  {
    EnvelopeReads(FieldsOf(PartsOf(headers, names)), KINDS);
  }
}
