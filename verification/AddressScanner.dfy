/**
 Reading an address-list header into ENVELOPE address structures (section 7.5.2 of RFC 9051), with the group
 syntax of section 3.4 of RFC 5322.
 */
module AddressScanner {
  import opened Text

  // One (name adl mailbox host) structure; the adl is never used. None is NIL.
  datatype Entry = Entry(name: Option<string>, mailbox: Option<string>, host: Option<string>)

  // An entry together with what it was pushed as.
  datatype Piece = Box(entry: Entry) | Start(name: string) | End

  function EntryOf(p: Piece): Entry {
    match p
    case Box(e) => e
    case Start(name) => Entry(None, Some(name), Some(""))
    case End => Entry(None, None, None)
  }

  function Entries(ps: seq<Piece>): (r: seq<Entry>)
    ensures |r| == |ps| && forall i :: 0 <= i < |r| ==> r[i] == EntryOf(ps[i])
  {
    seq(|ps|, i requires 0 <= i < |ps| => EntryOf(ps[i]))
  }

  // ---- One address ----

  // A match of the pattern  ^(.*?)<([^>]*)>$  with its "<" at k, on a value without line breaks.
  predicate AngleAt(raw: string, k: int) {
    0 <= k < |raw| - 1 && raw[|raw| - 1] == '>' && raw[k] == '<' && forall i :: k < i < |raw| - 1 ==> raw[i] != '>'
  }

  // The lazy match: the leftmost one at or after k, or -1.
  function LazySplit(raw: string, k: nat): (open: int)
    requires k <= |raw|
    ensures open == -1 || (k <= open && AngleAt(raw, open) && forall i :: k <= i < open ==> !AngleAt(raw, i))
    ensures open == -1 ==> forall i :: k <= i < |raw| ==> !AngleAt(raw, i)
    decreases |raw| - k
  {
    if AngleAt(raw, k) then k else if k == |raw| then -1 else LazySplit(raw, k + 1)
  }

  // One quote off each end.
  function Unquote(s: string): string {
    var t := if s != "" && s[0] == '"' then s[1..] else s;
    if t != "" && t[|t| - 1] == '"' then t[..|t| - 1] else t
  }

  // Local-part and host at the last "@"; without one the host is empty.
  function AtLastAt(name: Option<string>, addr: string): Entry {
    var at := LastIndexOf(addr, '@');
    if at == -1 then Entry(name, Some(addr), Some("")) else Entry(name, Some(addr[..at]), Some(addr[at + 1..]))
  }

  function NonEmpty(display: string): Option<string> {
    if display == "" then None else Some(display)
  }

  // What an address reads as: the lazy split, if the pattern matches.
  function OneAddress(raw: string): Entry {
    SplitAddress(raw, LazySplit(raw, 0))
  }

  // The last c at or before k, or -1.
  function LastFrom(s: string, c: char, k: int): (last: int)
    requires -1 <= k < |s|
    ensures -1 <= last <= k
    ensures last != -1 ==> s[last] == c
    ensures forall i :: last < i <= k ==> s[i] != c
    decreases k
  {
    if k == -1 then -1 else if s[k] == c then k else LastFrom(s, c, k - 1)
  }

  // `lastIndexOf(c, from)` on a text that is not empty: a negative `from` counts as 0.
  function LastIndexUpTo(s: string, c: char, from: int): int
    requires s != "" && from < |s|
  {
    LastFrom(s, c, if from < 0 then 0 else from)
  }

  // The pattern matches at the "<" signs behind the last interior ">".
  lemma AngleBehind(raw: string, k: int)
    requires raw != "" && raw[|raw| - 1] == '>'
    ensures AngleAt(raw, k) <==> LastIndexUpTo(raw, '>', |raw| - 2) < k < |raw| && raw[k] == '<'
  {
  }

  // The linear scan chooses the very split of the lazy pattern.
  lemma LinearIsLazy(raw: string)
    requires raw != "" && raw[|raw| - 1] == '>'
    ensures Find(raw, '<', LastIndexUpTo(raw, '>', |raw| - 2) + 1) == LazySplit(raw, 0)
  {
    var open, lazy := Find(raw, '<', LastIndexUpTo(raw, '>', |raw| - 2) + 1), LazySplit(raw, 0);
    AngleBehind(raw, open);
    AngleBehind(raw, lazy);
  }

  // What an address reads as, given the place of its split.
  function SplitAddress(raw: string, open: int): Entry
    requires open == -1 || AngleAt(raw, open)
  {
    if open == -1 then AtLastAt(None, raw)
    else AtLastAt(NonEmpty(Unquote(Trim(raw[..open]))), Trim(raw[open + 1..|raw| - 1]))
  }

  // The search of the linear scan; -1 where the value does not end in ">".
  function OpenAngle(raw: string): int {
    if raw != "" && raw[|raw| - 1] == '>' then Find(raw, '<', LastIndexUpTo(raw, '>', |raw| - 2) + 1) else -1
  }

  lemma OpenAngleIsLazy(raw: string)
    ensures OpenAngle(raw) == LazySplit(raw, 0)
  {
    if raw != "" && raw[|raw| - 1] == '>' {
      LinearIsLazy(raw);
    }
  }

  // ---- What an address reads as, without regard to how it is found ----

  // Local-part and host stand on either side of the last "@"; without one the whole is the mailbox.
  predicate Divides(e: Entry, addr: string) {
    if '@' in addr then
      && e.mailbox.Some? && e.host.Some?
      && e.mailbox.value + "@" + e.host.value == addr && '@' !in e.host.value
    else e.mailbox == Some(addr) && e.host == Some("")
  }

  predicate QuoteFirst(s: string) {
    s != "" && s[0] == '"'
  }

  predicate QuoteLast(s: string) {
    s != "" && s[|s| - 1] == '"'
  }

  // u is t without a quote in front and a quote behind, as far as there is one.
  predicate Unquotes(t: string, u: string) {
    || t == "\"" + u + "\""
    || (t == "\"" + u && !QuoteLast(u))
    || (t == u + "\"" && !QuoteFirst(t))
    || (t == u && !QuoteFirst(u) && !QuoteLast(u))
  }

  ghost predicate LeftmostAngle(raw: string, k: int) {
    AngleAt(raw, k) && forall i :: AngleAt(raw, i) ==> k <= i
  }

  // The name is the text in front of the bracket, trimmed and without its quotes, unless that leaves nothing.
  ghost predicate NameRead(name: Option<string>, front: string) {
    exists t :: Trims(front, t) && if Unquotes(t, "") then name == None else name.Some? && Unquotes(t, name.value)
  }

  ghost predicate AddressRead(e: Entry, inner: string) {
    exists a :: Trims(inner, a) && Divides(e, a)
  }

  ghost predicate AngleRead(e: Entry, raw: string, k: int)
    requires AngleAt(raw, k)
  {
    NameRead(e.name, raw[..k]) && AddressRead(e, raw[k + 1..|raw| - 1])
  }

  // A bare address has no name and is divided as it stands; one in angle brackets is divided between them.
  ghost predicate ReadsAs(raw: string, e: Entry) {
    && ((forall k :: !AngleAt(raw, k)) ==> e.name == None && Divides(e, raw))
    && forall k :: LeftmostAngle(raw, k) ==> AngleRead(e, raw, k)
  }

  lemma AtSignDivides(name: Option<string>, addr: string)
    ensures Divides(AtLastAt(name, addr), addr) && AtLastAt(name, addr).name == name
  {
    var at := LastIndexOf(addr, '@');
    if at != -1 {
      assert addr[..at] + "@" + addr[at + 1..] == addr;
    }
  }

  lemma UnquoteTakesQuotes(t: string)
    ensures Unquotes(t, Unquote(t)) && (Unquotes(t, "") ==> Unquote(t) == "")
  {
    if QuoteFirst(t) {
      assert t == "\"" + t[1..];
      LastQuoteApart(t[1..]);
    } else {
      LastQuoteApart(t);
    }
  }

  lemma LastQuoteApart(s: string)
    ensures QuoteLast(s) ==> s == s[..|s| - 1] + "\""
  {
  }

  lemma AngleReads(raw: string, k: nat)
    requires AngleAt(raw, k)
    ensures AngleRead(SplitAddress(raw, k), raw, k)
  {
    var front, inner := raw[..k], raw[k + 1..|raw| - 1];
    TrimIsMiddle(front);
    TrimIsMiddle(inner);
    UnquoteTakesQuotes(Trim(front));
    AtSignDivides(NonEmpty(Unquote(Trim(front))), Trim(inner));
  }

  // What every address reads as.
  lemma AddressReads(raw: string)
    ensures ReadsAs(raw, OneAddress(raw))
  {
    if LazySplit(raw, 0) == -1 {
      AtSignDivides(None, raw);
    }
    forall k | LeftmostAngle(raw, k) ensures AngleRead(OneAddress(raw), raw, k) {
      assert LazySplit(raw, 0) == k;
      AngleReads(raw, k);
    }
  }

  method ParseOneAddress(raw: string) returns (e: Entry)
    ensures e == OneAddress(raw) && ReadsAs(raw, e)
  {
    var display: Option<string>, addr := None, raw;
    var open := OpenAngle(raw);
    OpenAngleIsLazy(raw);
    if open != -1 {
      display := Some(Unquote(Trim(raw[..open])));
      addr := Trim(raw[open + 1..|raw| - 1]);
    }
    AddressReads(raw);
    e := AtLastAt(if display.Some? && |display.value| > 0 then display else None, addr);
  }

  // ---- The list ----

  function Flushed(cur: string): seq<Piece> {
    if Trim(cur) == "" then [] else [Box(OneAddress(Trim(cur)))]
  }

  function AngleAfter(c: char, inAngle: bool): bool {
    if c == '<' then true else if c == '>' then false else inAngle
  }

  // What the scan still pushes in each of its states.
  function Scan(s: string, cur: string, inQuote: bool, inAngle: bool, inGroup: bool): seq<Piece>
    decreases |s|
  {
    if s == [] then Flushed(cur) + (if inGroup then [End] else [])
    else if inQuote then
      if s[0] == '\\' && |s| > 1 then Scan(s[2..], cur + s[..2], true, inAngle, inGroup)
      else Scan(s[1..], cur + [s[0]], s[0] != '"', inAngle, inGroup)
    else if s[0] == ':' && !inAngle && !inGroup then [Start(Trim(cur))] + Scan(s[1..], "", false, false, true)
    else if s[0] == ';' && !inAngle && inGroup then Flushed(cur) + [End] + Scan(s[1..], "", false, false, false)
    else if s[0] == ',' && !inAngle then Flushed(cur) + Scan(s[1..], "", false, false, inGroup)
    else Scan(s[1..], cur + [s[0]], s[0] == '"', AngleAfter(s[0], inAngle), inGroup)
  }

  function Scanned(value: Option<string>): seq<Piece> {
    if value.None? || Trim(value.value) == "" then [] else Scan(value.value, "", false, false, false)
  }

  lemma EntriesConcat(a: seq<Piece>, b: seq<Piece>)
    ensures Entries(a + b) == Entries(a) + Entries(b)
  {
  }

  method Flush(cur: string, out: seq<Entry>, ghost pieces: seq<Piece>) returns (more: seq<Entry>)
    requires out == Entries(pieces)
    ensures more == Entries(pieces + Flushed(cur))
  {
    var raw := Trim(cur);
    EntriesConcat(pieces, Flushed(cur));
    if raw == "" {
      return out;
    }
    var a := ParseOneAddress(raw);
    more := out + [a];
  }

  method CloseGroup(cur: string, out: seq<Entry>, ghost pieces: seq<Piece>) returns (more: seq<Entry>)
    requires out == Entries(pieces)
    ensures more == Entries(pieces + (Flushed(cur) + [End]))
  {
    more := Flush(cur, out, pieces);
    EntriesConcat(pieces + Flushed(cur), [End]);
    Regroup(pieces, Flushed(cur), [End]);
    more := more + [Entry(None, None, None)];
  }

  method OpenGroup(cur: string, out: seq<Entry>, ghost pieces: seq<Piece>) returns (more: seq<Entry>)
    requires out == Entries(pieces)
    ensures more == Entries(pieces + [Start(Trim(cur))])
  {
    EntriesConcat(pieces, [Start(Trim(cur))]);
    more := out + [Entry(None, Some(Trim(cur)), Some(""))];
  }

  // The scan of one value that is not blank.
  method ScanList(value: string) returns (out: seq<Entry>)
    ensures out == Entries(Scan(value, "", false, false, false))
  {
    out := [];
    var cur, inQuote, inAngle, inGroup := "", false, false, false;
    ghost var pieces: seq<Piece> := [];
    var i := 0;
    while i < |value|
      invariant 0 <= i <= |value|
      invariant out == Entries(pieces)
      invariant pieces + Scan(value[i..], cur, inQuote, inAngle, inGroup) == Scan(value, "", false, false, false)
    {
      var c := value[i];
      ghost var rest := value[i + 1..];
      assert value[i..][1..] == rest;
      if inQuote {
        if c == '\\' && i + 1 < |value| {
          assert value[i..][2..] == value[i + 2..] && cur + value[i..][..2] == cur + [c] + [value[i + 1]];
          cur := cur + [c] + [value[i + 1]];
          i := i + 1;
        } else {
          cur := cur + [c];
          if c == '"' {
            inQuote := false;
          }
        }
      } else if c == ':' && !inAngle && !inGroup {
        Regroup(pieces, [Start(Trim(cur))], Scan(rest, "", false, false, true));
        out := OpenGroup(cur, out, pieces);
        pieces := pieces + [Start(Trim(cur))];
        cur := "";
        inGroup := true;
      } else if c == ';' && !inAngle && inGroup {
        Regroup(pieces, Flushed(cur) + [End], Scan(rest, "", false, false, false));
        out := CloseGroup(cur, out, pieces);
        pieces := pieces + (Flushed(cur) + [End]);
        cur := "";
        inGroup := false;
      } else if c == ',' && !inAngle {
        Regroup(pieces, Flushed(cur), Scan(rest, "", false, false, inGroup));
        out := Flush(cur, out, pieces);
        pieces := pieces + Flushed(cur);
        cur := "";
      } else {
        cur := cur + [c];
        if c == '"' {
          inQuote := true;
        } else if c == '<' {
          inAngle := true;
        } else if c == '>' {
          inAngle := false;
        }
      }
      i := i + 1;
    }
    assert value[i..] == [];
    if inGroup {
      out := CloseGroup(cur, out, pieces);
    } else {
      out := Flush(cur, out, pieces);
      assert Flushed(cur) + [] == Flushed(cur);
    }
  }

  method ParseAddressList(value: Option<string>) returns (out: seq<Entry>)
    ensures out == Entries(Scanned(value))
  {
    if value.None? || Trim(value.value) == "" {
      return [];
    }
    out := ScanList(value.value);
  }

  // ---- Groups are flat and closed ----

  // Markers alternate, each start closed by one end before the next start; `open` says that a group is open.
  predicate Flat(ps: seq<Piece>, open: bool) {
    if ps == [] then !open
    else match ps[0]
      case Start(_) => !open && Flat(ps[1..], true)
      case End => open && Flat(ps[1..], false)
      case Box(_) => Flat(ps[1..], open)
  }

  lemma FlatBehind(cur: string, ps: seq<Piece>, open: bool)
    ensures Flat(Flushed(cur) + ps, open) == Flat(ps, open)
  {
    if Trim(cur) == "" {
      assert Flushed(cur) + ps == ps;
    } else {
      assert (Flushed(cur) + ps)[1..] == ps;
    }
  }

  // Whatever the header holds, the scan pushes mailboxes and flat closed groups.
  lemma {:induction false} ScanIsFlat(s: string, cur: string, inQuote: bool, inAngle: bool, inGroup: bool)
    ensures Flat(Scan(s, cur, inQuote, inAngle, inGroup), inGroup)
    decreases |s|
  {
    if s == [] {
      FlatBehind(cur, if inGroup then [End] else [], inGroup);
    } else if inQuote {
      if s[0] == '\\' && |s| > 1 {
        ScanIsFlat(s[2..], cur + s[..2], true, inAngle, inGroup);
      } else {
        ScanIsFlat(s[1..], cur + [s[0]], s[0] != '"', inAngle, inGroup);
      }
    } else if s[0] == ':' && !inAngle && !inGroup {
      ScanIsFlat(s[1..], "", false, false, true);
    } else if s[0] == ';' && !inAngle && inGroup {
      var later := Scan(s[1..], "", false, false, false);
      ScanIsFlat(s[1..], "", false, false, false);
      FlatBehind(cur, [End] + later, true);
      Regroup(Flushed(cur), [End], later);
    } else if s[0] == ',' && !inAngle {
      ScanIsFlat(s[1..], "", false, false, inGroup);
      FlatBehind(cur, Scan(s[1..], "", false, false, inGroup), inGroup);
    } else {
      ScanIsFlat(s[1..], cur + [s[0]], s[0] == '"', AngleAfter(s[0], inAngle), inGroup);
    }
  }

  // Every mailbox has a local-part and a host, empty though they may be.
  predicate Boxed(ps: seq<Piece>) {
    forall i :: 0 <= i < |ps| && ps[i].Box? ==> ps[i].entry.mailbox.Some? && ps[i].entry.host.Some?
  }

  lemma BoxedConcat(a: seq<Piece>, b: seq<Piece>)
    requires Boxed(a) && Boxed(b)
    ensures Boxed(a + b)
  {
  }

  lemma FlushedIsBoxed(cur: string)
    ensures Boxed(Flushed(cur))
  {
    var e := OneAddress(Trim(cur));
    assert e.mailbox.Some? && e.host.Some?;
  }

  lemma BoxedBehind(cur: string, ps: seq<Piece>)
    requires Boxed(ps)
    ensures Boxed(Flushed(cur) + ps) && Boxed(Flushed(cur) + [End] + ps)
  {
    FlushedIsBoxed(cur);
    BoxedConcat(Flushed(cur), ps);
    BoxedConcat(Flushed(cur), [End]);
    BoxedConcat(Flushed(cur) + [End], ps);
  }

  lemma BoxedStart(name: string, ps: seq<Piece>)
    requires Boxed(ps)
    ensures Boxed([Start(name)] + ps)
  {
  }

  lemma {:induction false} ScanIsBoxed(s: string, cur: string, inQuote: bool, inAngle: bool, inGroup: bool)
    ensures Boxed(Scan(s, cur, inQuote, inAngle, inGroup))
    decreases |s|
  {
    if s == [] {
      BoxedBehind(cur, if inGroup then [End] else []);
    } else if inQuote {
      if s[0] == '\\' && |s| > 1 {
        ScanIsBoxed(s[2..], cur + s[..2], true, inAngle, inGroup);
      } else {
        ScanIsBoxed(s[1..], cur + [s[0]], s[0] != '"', inAngle, inGroup);
      }
    } else if s[0] == ':' && !inAngle && !inGroup {
      ScanIsBoxed(s[1..], "", false, false, true);
      BoxedStart(Trim(cur), Scan(s[1..], "", false, false, true));
    } else if s[0] == ';' && !inAngle && inGroup {
      ScanIsBoxed(s[1..], "", false, false, false);
      BoxedBehind(cur, Scan(s[1..], "", false, false, false));
    } else if s[0] == ',' && !inAngle {
      ScanIsBoxed(s[1..], "", false, false, inGroup);
      BoxedBehind(cur, Scan(s[1..], "", false, false, inGroup));
    } else {
      ScanIsBoxed(s[1..], cur + [s[0]], s[0] == '"', AngleAfter(s[0], inAngle), inGroup);
    }
  }

  // What an address list consists of.
  predicate Listed(ps: seq<Piece>) {
    Flat(ps, false) && Boxed(ps)
  }

  lemma ListIsFlat(value: Option<string>)
    ensures Listed(Scanned(value))
  {
    if value.Some? {
      ScanIsFlat(value.value, "", false, false, false);
      ScanIsBoxed(value.value, "", false, false, false);
    }
  }

  // ---- Printed lists read back ----

  datatype Mode = Mode(inQuote: bool, inAngle: bool)

  // The mode behind an octet that is no backslash in quotes.
  function Next(m: Mode, c: char): Mode {
    if m.inQuote then Mode(c != '"', m.inAngle) else Mode(c == '"', AngleAfter(c, m.inAngle))
  }

  // The modes the scan goes through over a text with no separator outside quotes and angle brackets.
  function Pass(r: string, m: Mode): Option<Mode> {
    if r == [] then Some(m)
    else if m.inQuote then
      if r[0] == '\\' then if |r| > 1 then Pass(r[2..], m) else None
      else Pass(r[1..], Next(m, r[0]))
    else if r[0] in {':', ';', ','} && !m.inAngle then None
    else Pass(r[1..], Next(m, r[0]))
  }

  // A text that the scan takes as one piece of a list.
  predicate Whole(r: string) {
    Pass(r, Mode(false, false)) == Some(Mode(false, false))
  }

  lemma {:induction false} PassScan(r: string, rest: string, cur: string, m: Mode, inGroup: bool)
    requires Pass(r, m).Some?
    ensures Scan(r + rest, cur, m.inQuote, m.inAngle, inGroup)
            == Scan(rest, cur + r, Pass(r, m).value.inQuote, Pass(r, m).value.inAngle, inGroup)
    decreases |r|
  {
    if r == [] {
      assert r + rest == rest && cur + r == cur;
    } else if m.inQuote && r[0] == '\\' {
      assert (r + rest)[2..] == r[2..] + rest && (r + rest)[..2] == r[..2];
      PassScan(r[2..], rest, cur + r[..2], m, inGroup);
      assert cur + r[..2] + r[2..] == cur + r;
    } else {
      var next := Next(m, r[0]);
      assert (r + rest)[1..] == r[1..] + rest;
      PassScan(r[1..], rest, cur + [r[0]], next, inGroup);
      assert cur + [r[0]] + r[1..] == cur + r;
    }
  }

  datatype Item = One(text: string) | Many(name: string, members: seq<string>)

  ghost predicate WholeItem(item: Item) {
    match item
    case One(text) => Whole(text)
    case Many(name, members) => Whole(name) && forall i :: 0 <= i < |members| ==> Whole(members[i])
  }

  function PrintItem(item: Item): string {
    match item
    case One(text) => text
    case Many(name, members) => name + ":" + Join(members, ",") + ";"
  }

  function PrintList(items: seq<Item>): string {
    if items == [] then ""
    else if |items| == 1 then PrintItem(items[0])
    else PrintItem(items[0]) + "," + PrintList(items[1..])
  }

  function MemberPieces(texts: seq<string>): seq<Piece> {
    if texts == [] then [] else Flushed(texts[0]) + MemberPieces(texts[1..])
  }

  function ItemPieces(item: Item): seq<Piece> {
    match item
    case One(text) => Flushed(text)
    case Many(name, members) => [Start(Trim(name))] + MemberPieces(members) + [End]
  }

  function ListPieces(items: seq<Item>): seq<Piece> {
    if items == [] then [] else ItemPieces(items[0]) + ListPieces(items[1..])
  }

  lemma ScanSeparator(text: string, c: char, rest: string, inGroup: bool)
    requires Whole(text)
    requires c == ',' || (c == ';' && inGroup) || (c == ':' && !inGroup)
    ensures Scan(text + [c] + rest, "", false, false, inGroup)
            == (if c == ':' then [Start(Trim(text))] else if c == ';' then Flushed(text) + [End] else Flushed(text))
               + Scan(rest, "", false, false, if c == ':' then true else if c == ';' then false else inGroup)
  {
    PassScan(text, [c] + rest, "", Mode(false, false), inGroup);
    assert text + [c] + rest == text + ([c] + rest) && "" + text == text;
    assert ([c] + rest)[1..] == rest;
  }

  lemma Reassociate<T>(a: seq<T>, b: seq<T>, c: seq<T>, d: seq<T>)
    ensures a + (b + c + d) == (a + b) + c + d
  {
  }

  lemma {:induction false} ScanMembers(members: seq<string>, rest: string)
    requires forall i :: 0 <= i < |members| ==> Whole(members[i])
    ensures Scan(Join(members, ",") + ";" + rest, "", false, false, true)
            == MemberPieces(members) + [End] + Scan(rest, "", false, false, false)
  {
    var later := Scan(rest, "", false, false, false);
    if members == [] {
      ScanSeparator("", ';', rest, true);
      assert Flushed("") == [];
    } else if |members| == 1 {
      ScanSeparator(members[0], ';', rest, true);
      assert Flushed(members[0]) + [] == Flushed(members[0]);
    } else {
      var tail := Join(members[1..], ",") + ";" + rest;
      ScanMembers(members[1..], rest);
      ScanSeparator(members[0], ',', tail, true);
      Reassociate(members[0] + ",", Join(members[1..], ","), ";", rest);
      Reassociate(Flushed(members[0]), MemberPieces(members[1..]), [End], later);
    }
  }

  lemma ScanGroup(name: string, members: seq<string>, rest: string)
    requires WholeItem(Many(name, members))
    ensures Scan(PrintItem(Many(name, members)) + rest, "", false, false, false)
            == ItemPieces(Many(name, members)) + Scan(rest, "", false, false, false)
  {
    var tail := Join(members, ",") + ";" + rest;
    ScanMembers(members, rest);
    ScanSeparator(name, ':', tail, false);
    Reassociate(name + ":", Join(members, ","), ";", rest);
    Reassociate([Start(Trim(name))], MemberPieces(members), [End], Scan(rest, "", false, false, false));
  }

  lemma ScanItem(item: Item, rest: string)
    requires WholeItem(item)
    ensures Scan(PrintItem(item) + "," + rest, "", false, false, false)
            == ItemPieces(item) + Scan(rest, "", false, false, false)
    ensures Scan(PrintItem(item), "", false, false, false) == ItemPieces(item)
  {
    match item {
      case One(text) =>
        ScanSeparator(text, ',', rest, false);
        PassScan(text, "", "", Mode(false, false), false);
        assert text + "" == text && "" + text == text;
      case Many(name, members) =>
        GroupThenComma(name, members, rest);
        ScanGroup(name, members, "");
        assert PrintItem(item) + "" == PrintItem(item);
        assert ItemPieces(item) + [] == ItemPieces(item);
    }
  }

  lemma GroupThenComma(name: string, members: seq<string>, rest: string)
    requires WholeItem(Many(name, members))
    ensures Scan(PrintItem(Many(name, members)) + "," + rest, "", false, false, false)
            == ItemPieces(Many(name, members)) + Scan(rest, "", false, false, false)
  {
    ScanGroup(name, members, "," + rest);
    ScanSeparator("", ',', rest, false);
    assert "" + "," + rest == "," + rest;
    Regroup(PrintItem(Many(name, members)), ",", rest);
    assert Flushed("") + Scan(rest, "", false, false, false) == Scan(rest, "", false, false, false);
  }

  // A printed list of mailboxes and groups reads back piece by piece.
  lemma {:induction false} PrintedListReads(items: seq<Item>)
    requires forall i :: 0 <= i < |items| ==> WholeItem(items[i])
    ensures Scan(PrintList(items), "", false, false, false) == ListPieces(items)
  {
    if items == [] {
      assert Flushed("") == [];
    } else if |items| == 1 {
      ScanItem(items[0], "");
      assert ItemPieces(items[0]) + [] == ItemPieces(items[0]);
    } else {
      PrintedListReads(items[1..]);
      ScanItem(items[0], PrintList(items[1..]));
    }
  }
}
