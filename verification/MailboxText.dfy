/**
 Which printed mailboxes read back: `"display" <local@host>` through the scan of one address and of a list.
 */
module MailboxText {
  import opened Text
  import opened AddressScanner

  // Text that can stand between two quotes: every backslash escapes an octet, no bare quote.
  predicate Quotable(d: string) {
    if d == [] then true
    else if d[0] == '\\' then |d| > 1 && Quotable(d[2..])
    else d[0] != '"' && Quotable(d[1..])
  }

  // A local-part or host without white space, quotes, brackets or separators.
  predicate Plain(s: string) {
    s != "" && forall i :: 0 <= i < |s| ==> !IsSpace(s[i]) && s[i] !in {'"', '<', '>', ':', ';', ','}
  }

  function AddrText(l: string, h: string): string {
    l + "@" + h
  }

  function MailboxOf(d: string, l: string, h: string): string {
    "\"" + d + "\" <" + AddrText(l, h) + ">"
  }

  // The text holds a "<" with no ">" behind it.
  ghost predicate LooseAngle(d: string) {
    exists k :: 0 <= k < |d| && d[k] == '<' && '>' !in d[k..]
  }

  // ---- One mailbox ----

  lemma {:induction false} StripLeftStops(u: string, v: string, p: char -> bool)
    requires v != [] && !p(v[0])
    ensures StripLeft(u + v, p) == StripLeft(u, p) + v
  {
    if u == [] {
      assert u + v == v;
    } else if p(u[0]) {
      StripLeftStops(u[1..], v, p);
      assert (u + v)[1..] == u[1..] + v;
    }
  }

  lemma {:induction false} LastAt(u: string, c: char, v: string)
    requires c !in v
    ensures LastIndexOf(u + [c] + v, c) == |u|
    decreases |v|
  {
    var s := u + [c] + v;
    if v != [] {
      assert s[|s| - 1] == v[|v| - 1];
      assert s[..|s| - 1] == u + [c] + v[..|v| - 1];
      LastAt(u, c, v[..|v| - 1]);
    }
  }

  lemma AtSign(name: Option<string>, u: string, v: string)
    requires '@' !in v
    ensures AtLastAt(name, u + "@" + v) == Entry(name, Some(u), Some(v))
  {
    var addr := u + "@" + v;
    LastAt(u, '@', v);
    assert addr[..|u|] == u;
    assert addr[|u| + 1..] == v;
  }

  lemma AddrSplits(l: string, h: string, front: string, name: Option<string>)
    requires '@' !in h
    ensures AtLastAt(name, front + AddrText(l, h)) == Entry(name, Some(front + l), Some(h))
  {
    AtSign(name, front + l, h);
    assert front + l + "@" + h == front + AddrText(l, h);
  }

  lemma PlainAddr(l: string, h: string)
    requires Plain(l) && Plain(h)
    ensures AddrText(l, h) != "" && forall i :: 0 <= i < |AddrText(l, h)| ==>
      !IsSpace(AddrText(l, h)[i]) && AddrText(l, h)[i] !in {'"', '<', '>', ':', ';', ','}
  {
    var a := AddrText(l, h);
    assert forall i :: 0 <= i < |l| ==> a[i] == l[i];
    assert a[|l|] == '@';
    assert forall i :: |l| < i < |a| ==> a[i] == h[i - |l| - 1];
  }

  // The display name comes out of its quotes.
  lemma DisplayUnquoted(d: string)
    ensures Unquote(Trim("\"" + d + "\" ")) == d
  {
    var quoted := "\"" + d + "\"";
    assert Bare(quoted, IsSpace);
    StripIsBare(quoted, IsSpace);
    assert "\"" + d + "\" " == quoted + " ";
    StripRightConcat(quoted, " ", IsSpace);
    assert StripRight(" ", IsSpace) == "" by {
      assert " "[..0] == "";
    }
    assert quoted[1..][..|d|] == d;
  }

  // Where the octets of the printed mailbox stand.
  lemma MailboxLayout(d: string, l: string, h: string)
    requires Plain(l) && Plain(h)
    ensures var raw, open := MailboxOf(d, l, h), |d| + 3;
            && |raw| == open + 2 + |AddrText(l, h)| && raw[|raw| - 1] == '>' && raw[open] == '<'
            && (forall i :: 1 <= i <= |d| ==> raw[i] == d[i - 1])
            && raw[0] == '"' && raw[|d| + 1] == '"' && raw[|d| + 2] == ' '
            && (forall i :: open < i < |raw| - 1 ==> raw[i] !in {'<', '>'})
  {
    PlainAddr(l, h);
    var raw, a := MailboxOf(d, l, h), AddrText(l, h);
    assert forall i :: |d| + 3 < i < |raw| - 1 ==> raw[i] == a[i - |d| - 4];
  }

  lemma MailboxPieces(d: string, l: string, h: string)
    ensures MailboxOf(d, l, h)[..|d| + 3] == "\"" + d + "\" "
    ensures MailboxOf(d, l, h)[|d| + 4..|MailboxOf(d, l, h)| - 1] == AddrText(l, h)
  {
  }

  // The display name inside a raw text, one octet further right.
  ghost predicate Inside(d: string, raw: string) {
    |raw| > |d| + 4 && raw[|raw| - 1] == '>' && forall i :: 1 <= i <= |d| ==> raw[i] == d[i - 1]
  }

  lemma NoSplitInDisplay(d: string, raw: string, k: nat)
    requires Inside(d, raw) && !LooseAngle(d) && 1 <= k <= |d|
    ensures !AngleAt(raw, k)
  {
    if d[k - 1] == '<' {
      assert '>' in d[k - 1..];
      var i :| 0 <= i < |d[k - 1..]| && d[k - 1..][i] == '>';
      assert raw[k + i] == '>';
    } else {
      assert raw[k] == d[k - 1];
    }
  }

  lemma SplitInDisplay(d: string, raw: string)
    requires Inside(d, raw) && LooseAngle(d)
    requires forall i :: |d| < i < |raw| - 1 ==> raw[i] != '>'
    ensures exists k :: 1 <= k <= |d| && AngleAt(raw, k)
  {
    var k :| 0 <= k < |d| && d[k] == '<' && '>' !in d[k..];
    assert forall i :: k < i < |d| ==> d[i] == d[k..][i - k];
    assert forall i :: k + 1 < i <= |d| ==> raw[i] == d[i - 1] != '>';
    assert AngleAt(raw, k + 1);
  }

  // The split falls at the address exactly when every "<" of the display name has a ">" behind it there.
  lemma SplitAtAddress(d: string, l: string, h: string)
    requires Plain(l) && Plain(h)
    ensures LazySplit(MailboxOf(d, l, h), 0) == |d| + 3 <==> !LooseAngle(d)
    ensures 0 <= LazySplit(MailboxOf(d, l, h), 0) <= |d| + 3
  {
    MailboxLayout(d, l, h);
    SplitPlace(d, MailboxOf(d, l, h));
  }

  lemma SplitPlace(d: string, raw: string)
    requires Inside(d, raw) && raw[|d| + 3] == '<'
    requires raw[0] == '"' && raw[|d| + 1] == '"' && raw[|d| + 2] == ' '
    requires forall i :: |d| + 3 < i < |raw| - 1 ==> raw[i] !in {'<', '>'}
    ensures LazySplit(raw, 0) == |d| + 3 <==> !LooseAngle(d)
    ensures 0 <= LazySplit(raw, 0) <= |d| + 3
  {
    assert AngleAt(raw, |d| + 3);
    if LooseAngle(d) {
      SplitInDisplay(d, raw);
    } else {
      forall k | 1 <= k <= |d| ensures !AngleAt(raw, k) {
        NoSplitInDisplay(d, raw, k);
      }
    }
  }

  // A printed mailbox reads back as it was printed exactly when every "<" of its display name has a ">"
  // behind it there; otherwise part of the display name goes into the mailbox.
  lemma MailboxReads(d: string, l: string, h: string)
    requires d != "" && Plain(l) && Plain(h) && '@' !in h
    ensures OneAddress(MailboxOf(d, l, h)) == Entry(Some(d), Some(l), Some(h)) <==> !LooseAngle(d)
  {
    SplitAtAddress(d, l, h);
    if LooseAngle(d) {
      EarlySplit(d, l, h, LazySplit(MailboxOf(d, l, h), 0));
    } else {
      MailboxPieces(d, l, h);
      DisplayUnquoted(d);
      TrimPlain(l, h);
      AddrSplits(l, h, "", Some(d));
      assert "" + AddrText(l, h) == AddrText(l, h) && "" + l == l;
    }
  }

  lemma TrimPlain(l: string, h: string)
    requires Plain(l) && Plain(h)
    ensures Trim(AddrText(l, h)) == AddrText(l, h)
  {
    PlainAddr(l, h);
    StripIsBare(AddrText(l, h), IsSpace);
  }

  // A split inside the display name leaves the "<" of the address in the mailbox.
  lemma EarlySplit(d: string, l: string, h: string, open: nat)
    requires Plain(l) && Plain(h) && '@' !in h && open <= |d|
    requires open == LazySplit(MailboxOf(d, l, h), 0)
    ensures OneAddress(MailboxOf(d, l, h)).mailbox != Some(l)
  {
    var raw := MailboxOf(d, l, h);
    MailboxLayout(d, l, h);
    var front := raw[open + 1..|d| + 1];
    InnerText(d, l, h, open);
    TrimKeepsAngle(front, l, h);
    var kept := StripLeft(front, IsSpace) + "\" <";
    AddrSplits(l, h, kept, NonEmpty(Unquote(Trim(raw[..open]))));
    assert |kept + l| > |l|;
  }

  lemma InnerText(d: string, l: string, h: string, open: nat)
    requires open <= |d|
    ensures var raw := MailboxOf(d, l, h);
            |raw| > |d| + 4 && raw[open + 1..|raw| - 1] == raw[open + 1..|d| + 1] + ("\" <" + AddrText(l, h))
  {
    var raw := MailboxOf(d, l, h);
    assert raw[|d| + 1..|raw| - 1] == "\" <" + AddrText(l, h);
    assert raw[open + 1..|raw| - 1] == raw[open + 1..|d| + 1] + raw[|d| + 1..|raw| - 1];
  }

  lemma TrimKeepsAngle(front: string, l: string, h: string)
    requires Plain(l) && Plain(h)
    ensures Trim(front + ("\" <" + AddrText(l, h))) == StripLeft(front, IsSpace) + "\" <" + AddrText(l, h)
  {
    var a := AddrText(l, h);
    PlainAddr(l, h);
    StripLeftStops(front, "\" <" + a, IsSpace);
    var whole := StripLeft(front, IsSpace) + "\" <" + a;
    assert whole == StripLeft(front, IsSpace) + ("\" <" + a);
    assert whole[|whole| - 1] == a[|a| - 1];
  }

  // A display name with one "<" and no ">": it is cut there, and what is behind goes into the mailbox.
  lemma LooseMailboxReads(u: string, v: string, l: string, h: string)
    requires Plain(l) && Plain(h) && '@' !in h && '<' !in u && '>' !in v
    requires u != "" && Bare(u, IsSpace) && u[|u| - 1] != '"' && (v == "" || !IsSpace(v[0]))
    ensures OneAddress(MailboxOf(u + "<" + v, l, h)) == Entry(Some(u), Some(v + "\" <" + l), Some(h))
  {
    var d := u + "<" + v;
    var raw, open := MailboxOf(d, l, h), |u| + 1;
    MailboxLayout(d, l, h);
    LooseSplit(u, v, raw);
    InnerText(d, l, h, open);
    LooseInner(u, v, l, h);
    OpenQuoteDropped(u);
    LooseAddress(v, l, h, Some(u));
    SplitReads(raw, open, u, v + ("\" <" + AddrText(l, h)), Entry(Some(u), Some(v + "\" <" + l), Some(h)));
  }

  lemma SplitReads(raw: string, open: nat, name: string, inner: string, e: Entry)
    requires LazySplit(raw, 0) == open && open < |raw| - 1
    requires name != "" && Unquote(Trim(raw[..open])) == name
    requires raw[open + 1..|raw| - 1] == inner && AtLastAt(Some(name), Trim(inner)) == e
    ensures OneAddress(raw) == e
  {
  }

  lemma LooseInner(u: string, v: string, l: string, h: string)
    ensures var raw, open := MailboxOf(u + "<" + v, l, h), |u| + 1;
            |raw| > open + |v| + 1 && raw[..open] == "\"" + u && raw[open + 1..|u + "<" + v| + 1] == v
  {
  }

  lemma LooseAddress(v: string, l: string, h: string, name: Option<string>)
    requires Plain(l) && Plain(h) && '@' !in h && (v == "" || !IsSpace(v[0]))
    ensures AtLastAt(name, Trim(v + ("\" <" + AddrText(l, h)))) == Entry(name, Some(v + "\" <" + l), Some(h))
  {
    TrimKeepsAngle(v, l, h);
    assert StripLeft(v, IsSpace) == v;
    AddrSplits(l, h, v + "\" <", name);
  }

  lemma LooseSplit(u: string, v: string, raw: string)
    requires Inside(u + "<" + v, raw) && '<' !in u && '>' !in v && raw[0] == '"'
    requires forall i :: |u + "<" + v| < i < |raw| - 1 ==> raw[i] != '>'
    ensures LazySplit(raw, 0) == |u| + 1
  {
    var d := u + "<" + v;
    forall i | 1 <= i <= |u| ensures raw[i] != '<' {
      assert raw[i] == d[i - 1] == u[i - 1];
    }
    assert raw[|u| + 1] == d[|u|] == '<';
    forall i | |u| + 1 < i < |raw| - 1 ensures raw[i] != '>' {
      assert i <= |d| ==> raw[i] == d[i - 1] == v[i - |u| - 2];
    }
    assert AngleAt(raw, |u| + 1);
  }

  lemma OpenQuoteDropped(u: string)
    requires u != "" && Bare(u, IsSpace) && u[|u| - 1] != '"'
    ensures Unquote(Trim("\"" + u)) == u
  {
    StripIsBare("\"" + u, IsSpace);
    assert ("\"" + u)[1..] == u;
  }

  // So  "a<b" <x@y>  reads as the name a and a mailbox that starts with b.
  lemma LooseAngleExample(raw: string)
    requires raw == "\"a<b\" <x@y>"
    ensures OneAddress(raw) == Entry(Some("a"), Some("b\" <x"), Some("y"))
  {
    ExampleReads("a", "b", "x", "y", raw, "b\" <x");
  }

  lemma ExampleReads(u: string, v: string, l: string, h: string, raw: string, mailbox: string)
    requires u == "a" && v == "b" && l == "x" && h == "y"
    requires raw == "\"a<b\" <x@y>" && mailbox == "b\" <x"
    ensures OneAddress(raw) == Entry(Some(u), Some(mailbox), Some(h))
  {
    ExampleParts(u, v, l, h);
    ExampleText(u, v, l, h, raw, mailbox);
    LooseMailboxReads(u, v, l, h);
  }

  lemma ExampleParts(u: string, v: string, l: string, h: string)
    requires u == "a" && v == "b" && l == "x" && h == "y"
    ensures Plain(l) && Plain(h) && '@' !in h && '<' !in u && '>' !in v
    ensures u != "" && Bare(u, IsSpace) && u[|u| - 1] != '"' && !IsSpace(v[0])
  {
  }

  lemma ExampleText(u: string, v: string, l: string, h: string, raw: string, mailbox: string)
    requires u == "a" && v == "b" && l == "x" && h == "y"
    requires raw == "\"a<b\" <x@y>" && mailbox == "b\" <x"
    ensures raw == MailboxOf(u + "<" + v, l, h) && mailbox == v + "\" <" + l
  {
    assert u + "<" + v == "a<b";
    assert AddrText(l, h) == "x@y";
  }

  // ---- In a list ----

  lemma {:induction false} PassConcat(a: string, b: string, m: Mode)
    requires Pass(a, m).Some?
    ensures Pass(a + b, m) == Pass(b, Pass(a, m).value)
    decreases |a|
  {
    if a == [] {
      assert a + b == b;
    } else if m.inQuote && a[0] == '\\' {
      assert (a + b)[2..] == a[2..] + b;
      PassConcat(a[2..], b, m);
    } else {
      var next := Next(m, a[0]);
      assert (a + b)[1..] == a[1..] + b;
      PassConcat(a[1..], b, next);
    }
  }

  lemma {:induction false} PassQuotable(d: string)
    requires Quotable(d)
    ensures Pass(d, Mode(true, false)) == Some(Mode(true, false))
    decreases |d|
  {
    if d != [] {
      PassQuotable(if d[0] == '\\' then d[2..] else d[1..]);
    }
  }

  lemma {:induction false} PassPlain(s: string)
    requires forall i :: 0 <= i < |s| ==> s[i] !in {'"', '<', '>', ':', ';', ','}
    ensures Pass(s, Mode(false, true)) == Some(Mode(false, true))
  {
    if s != [] {
      PassPlain(s[1..]);
    }
  }

  lemma PassOne(c: char, m: Mode)
    requires !m.inQuote && (m.inAngle || c !in {':', ';', ','})
    ensures Pass([c], m) == Some(Mode(c == '"', AngleAfter(c, m.inAngle)))
  {
    assert [c][1..] == [];
  }

  lemma PassThrough(a: string, b: string, m: Mode, between: Mode, last: Mode)
    requires Pass(a, m) == Some(between) && Pass(b, between) == Some(last)
    ensures Pass(a + b, m) == Some(last)
  {
    PassConcat(a, b, m);
  }

  lemma PassAddress(l: string, h: string)
    requires Plain(l) && Plain(h)
    ensures Pass(AddrText(l, h) + ">", Mode(false, true)) == Some(Mode(false, false))
  {
    PlainAddr(l, h);
    PassPlain(AddrText(l, h));
    PassOne('>', Mode(false, true));
    PassThrough(AddrText(l, h), ">", Mode(false, true), Mode(false, true), Mode(false, false));
  }

  // A printed mailbox is one piece of a list, whatever separators its display name holds.
  lemma MailboxIsWhole(d: string, l: string, h: string)
    requires Quotable(d) && Plain(l) && Plain(h)
    ensures Whole(MailboxOf(d, l, h))
  {
    var out, quote, angle := Mode(false, false), Mode(true, false), Mode(false, true);
    var addr := AddrText(l, h) + ">";
    PassAddress(l, h);
    PassBetween();
    PassThrough("\" <", addr, quote, angle, out);
    PassQuotable(d);
    PassThrough(d, "\" <" + addr, quote, quote, out);
    PassOne('"', out);
    PassThrough("\"", d + ("\" <" + addr), out, quote, out);
    MailboxNested(d, l, h);
  }

  lemma MailboxNested(d: string, l: string, h: string)
    ensures MailboxOf(d, l, h) == "\"" + (d + ("\" <" + (AddrText(l, h) + ">")))
  {
  }

  lemma PassBetween()
    ensures Pass("\" <", Mode(true, false)) == Some(Mode(false, true))
  {
    var s := "\" <";
    assert s[1..] == " <" && " <"[1..] == "<";
    PassOne('<', Mode(false, false));
  }

  datatype Mailbox = Mailbox(display: string, localPart: string, host: string)

  ghost predicate Printable(m: Mailbox) {
    m.display != "" && Quotable(m.display) && !LooseAngle(m.display) && Plain(m.localPart) && Plain(m.host)
      && '@' !in m.host
  }

  function Texts(ms: seq<Mailbox>): (r: seq<string>)
    ensures |r| == |ms| && forall i :: 0 <= i < |r| ==> r[i] == MailboxOf(ms[i].display, ms[i].localPart, ms[i].host)
  {
    seq(|ms|, i requires 0 <= i < |ms| => MailboxOf(ms[i].display, ms[i].localPart, ms[i].host))
  }

  function Boxes(ms: seq<Mailbox>): (r: seq<Piece>)
    ensures |r| == |ms|
    ensures forall i :: 0 <= i < |r| ==>
            r[i] == Box(Entry(Some(ms[i].display), Some(ms[i].localPart), Some(ms[i].host)))
  {
    seq(|ms|, i requires 0 <= i < |ms| => Box(Entry(Some(ms[i].display), Some(ms[i].localPart), Some(ms[i].host))))
  }

  lemma MailboxFlushes(m: Mailbox)
    requires Printable(m)
    ensures Flushed(MailboxOf(m.display, m.localPart, m.host))
            == [Box(Entry(Some(m.display), Some(m.localPart), Some(m.host)))]
  {
    var text := MailboxOf(m.display, m.localPart, m.host);
    MailboxLayout(m.display, m.localPart, m.host);
    StripIsBare(text, IsSpace);
    MailboxReads(m.display, m.localPart, m.host);
  }

  lemma {:induction false} MembersRead(ms: seq<Mailbox>)
    requires forall i :: 0 <= i < |ms| ==> Printable(ms[i])
    ensures MemberPieces(Texts(ms)) == Boxes(ms)
  {
    if ms != [] {
      MembersRead(ms[1..]);
      MailboxFlushes(ms[0]);
      FirstMember(ms);
    }
  }

  lemma FirstMember(ms: seq<Mailbox>)
    requires ms != []
    ensures Texts(ms)[0] == MailboxOf(ms[0].display, ms[0].localPart, ms[0].host) && Texts(ms)[1..] == Texts(ms[1..])
    ensures Boxes(ms) == [Box(Entry(Some(ms[0].display), Some(ms[0].localPart), Some(ms[0].host)))] + Boxes(ms[1..])
  {
  }

  // A printed group of mailboxes reads back as its start marker, its members in order and its end marker.
  lemma PrintedGroupReads(name: string, ms: seq<Mailbox>)
    requires Whole(name) && forall i :: 0 <= i < |ms| ==> Printable(ms[i])
    ensures Scan(PrintItem(Many(name, Texts(ms))), "", false, false, false) == [Start(Trim(name))] + Boxes(ms) + [End]
  {
    forall i | 0 <= i < |ms| ensures Whole(Texts(ms)[i]) {
      MailboxIsWhole(ms[i].display, ms[i].localPart, ms[i].host);
    }
    MembersRead(ms);
    ScanItem(Many(name, Texts(ms)), "");
  }

  // ---- Bare addresses in a list ----

  // An address without display name or angle brackets, with white space around it.
  datatype BareAddress = BareAddress(before: string, localPart: string, host: string, after: string)

  predicate Writable(b: BareAddress) {
    Blank(b.before) && Blank(b.after) && Plain(b.localPart) && Plain(b.host) && '@' !in b.host
  }

  function BareText(b: BareAddress): string {
    b.before + AddrText(b.localPart, b.host) + b.after
  }

  function BareTexts(bs: seq<BareAddress>): (r: seq<string>)
    ensures |r| == |bs| && forall i :: 0 <= i < |r| ==> r[i] == BareText(bs[i])
  {
    seq(|bs|, i requires 0 <= i < |bs| => BareText(bs[i]))
  }

  function BareBoxes(bs: seq<BareAddress>): (r: seq<Piece>)
    ensures |r| == |bs|
    ensures forall i :: 0 <= i < |r| ==> r[i] == Box(Entry(None, Some(bs[i].localPart), Some(bs[i].host)))
  {
    seq(|bs|, i requires 0 <= i < |bs| => Box(Entry(None, Some(bs[i].localPart), Some(bs[i].host))))
  }

  // Without angle brackets nothing is split off.
  lemma BareFlushes(b: BareAddress)
    requires Writable(b)
    ensures Flushed(BareText(b)) == [Box(Entry(None, Some(b.localPart), Some(b.host)))]
  {
    var addr := AddrText(b.localPart, b.host);
    PlainAddr(b.localPart, b.host);
    TrimPadded(b.before, addr, b.after);
    assert LazySplit(addr, 0) == -1;
    AtSign(None, b.localPart, b.host);
  }

  lemma {:induction false} PassBare(s: string)
    requires forall i :: 0 <= i < |s| ==> s[i] !in {'"', '<', '>', ':', ';', ','}
    ensures Whole(s)
  {
    if s != [] {
      PassBare(s[1..]);
    }
  }

  lemma BareIsWhole(b: BareAddress)
    requires Writable(b)
    ensures Whole(BareText(b))
  {
    var text, addr := BareText(b), AddrText(b.localPart, b.host);
    PlainAddr(b.localPart, b.host);
    forall i | 0 <= i < |text| ensures text[i] !in {'"', '<', '>', ':', ';', ','} {
      var from := i - |b.before|;
      if 0 <= from < |addr| {
        assert text[i] == addr[from];
      } else {
        assert IsSpace(text[i]);
      }
    }
    PassBare(text);
  }

  function Ones(texts: seq<string>): (r: seq<Item>)
    ensures |r| == |texts| && forall i :: 0 <= i < |r| ==> r[i] == One(texts[i])
  {
    seq(|texts|, i requires 0 <= i < |texts| => One(texts[i]))
  }

  lemma {:induction false} OnesPrint(texts: seq<string>)
    ensures PrintList(Ones(texts)) == Join(texts, ",")
  {
    if |texts| > 1 {
      OnesPrint(texts[1..]);
      assert Ones(texts)[1..] == Ones(texts[1..]);
    }
  }

  lemma {:induction false} BarePieces(bs: seq<BareAddress>)
    requires forall i :: 0 <= i < |bs| ==> Writable(bs[i])
    ensures ListPieces(Ones(BareTexts(bs))) == BareBoxes(bs)
  {
    if bs != [] {
      BarePieces(bs[1..]);
      BareFlushes(bs[0]);
      FirstBare(bs);
    }
  }

  lemma FirstBare(bs: seq<BareAddress>)
    requires bs != []
    ensures Ones(BareTexts(bs))[0] == One(BareText(bs[0])) && Ones(BareTexts(bs))[1..] == Ones(BareTexts(bs[1..]))
    ensures BareBoxes(bs) == [Box(Entry(None, Some(bs[0].localPart), Some(bs[0].host)))] + BareBoxes(bs[1..])
  {
    assert BareTexts(bs)[1..] == BareTexts(bs[1..]);
  }

  lemma JoinHolds(texts: seq<string>, c: char)
    requires texts != [] && c in texts[0]
    ensures c in Join(texts, ",")
  {
    var i :| 0 <= i < |texts[0]| && texts[0][i] == c;
    assert Join(texts, ",")[i] == c;
  }

  lemma NotBlank(s: string, c: char)
    requires c in s && !IsSpace(c)
    ensures Trim(s) != ""
  {
    TrimIsMiddle(s);
  }

  // Bare addresses, one behind the other with commas between them, read as exactly their local-parts and hosts.
  lemma BareListReads(bs: seq<BareAddress>)
    requires forall i :: 0 <= i < |bs| ==> Writable(bs[i])
    ensures Scanned(Some(Join(BareTexts(bs), ","))) == BareBoxes(bs)
  {
    var texts := BareTexts(bs);
    forall i | 0 <= i < |bs| ensures Whole(texts[i]) {
      BareIsWhole(bs[i]);
    }
    PrintedListReads(Ones(texts));
    OnesPrint(texts);
    BarePieces(bs);
    if bs != [] {
      assert '@' in BareText(bs[0]) by {
        assert BareText(bs[0])[|bs[0].before| + |bs[0].localPart|] == '@';
      }
      JoinHolds(texts, '@');
      NotBlank(Join(texts, ","), '@');
    }
  }
}
