/**
 What the entries of an address list tell about its groups: a group start is written like an address without a
 host (section 7.5.2 of RFC 9051), so that two headers with different groups can have one ENVELOPE.
 */
module GroupReading {
  import opened AddressScanner
  import opened Text

  // ---- When the entries alone tell the groups ----

  // A mailbox of a single word, without "@" and without a display name: its entry is that of a group start.
  predicate BareMailbox(p: Piece) {
    p.Box? && p.entry.name.None? && p.entry.mailbox.Some? && p.entry.host == Some("")
  }

  predicate BareBeforeEnd(ps: seq<Piece>) {
    exists i, j :: 0 <= i < j < |ps| && BareMailbox(ps[i]) && ps[j] == End
  }

  predicate Alike(ps: seq<Piece>, qs: seq<Piece>) {
    Boxed(ps) && Boxed(qs) && Entries(ps) == Entries(qs)
  }

  lemma AlikeHeads(ps: seq<Piece>, qs: seq<Piece>)
    requires Alike(ps, qs) && ps != []
    ensures qs != [] && Alike(ps[1..], qs[1..])
    ensures ps[0] == End <==> qs[0] == End
    ensures ps[0] == qs[0] || (BareMailbox(ps[0]) && qs[0].Start?) || (ps[0].Start? && BareMailbox(qs[0]))
  {
    assert |qs| == |Entries(qs)| == |ps|;
    assert EntryOf(ps[0]) == Entries(ps)[0] == EntryOf(qs[0]);
    forall i | 0 <= i < |ps| - 1 ensures EntryOf(ps[1..][i]) == EntryOf(qs[1..][i]) {
      assert EntryOf(ps[i + 1]) == Entries(ps)[i + 1] == EntryOf(qs[i + 1]);
    }
  }

  lemma AlikeEnds(ps: seq<Piece>, qs: seq<Piece>, j: nat)
    requires Alike(ps, qs) && j < |qs| && qs[j] == End
    ensures j < |ps| && ps[j] == End
  {
    assert |ps| == |Entries(qs)| == |qs|;
    assert EntryOf(ps[j]) == Entries(ps)[j] == EntryOf(qs[j]);
  }

  // An open group has its end.
  lemma {:induction false} EndAhead(ps: seq<Piece>) returns (j: nat)
    requires Flat(ps, true)
    ensures j < |ps| && ps[j] == End
  {
    j := 0;
    if ps[0] != End {
      j := EndAhead(ps[1..]);
      j := j + 1;
    }
  }

  lemma BareStays(ps: seq<Piece>)
    requires ps != [] && BareBeforeEnd(ps[1..])
    ensures BareBeforeEnd(ps)
  {
    var i, j :| 0 <= i < j < |ps[1..]| && BareMailbox(ps[1..][i]) && ps[1..][j] == End;
    assert BareMailbox(ps[i + 1]) && ps[j + 1] == End;
  }

  // Inside a group and outside of one the entries differ before the next end.
  lemma {:induction false} StatesDiffer(ps: seq<Piece>, qs: seq<Piece>)
    requires Alike(ps, qs) && Flat(ps, true) && Flat(qs, false)
    ensures BareBeforeEnd(ps)
  {
    AlikeHeads(ps, qs);
    if BareMailbox(ps[0]) {
      var j := EndAhead(ps[1..]);
      assert ps[j + 1] == End;
    } else {
      StatesDiffer(ps[1..], qs[1..]);
      BareStays(ps);
    }
  }

  lemma {:induction false} SamePieces(ps: seq<Piece>, qs: seq<Piece>, open: bool)
    requires Alike(ps, qs) && Flat(ps, open) && Flat(qs, open) && !BareBeforeEnd(ps)
    ensures ps == qs
  {
    if ps == [] {
      assert |qs| == |Entries(ps)|;
    } else {
      AlikeHeads(ps, qs);
      if BareBeforeEnd(ps[1..]) {
        BareStays(ps);
      }
      if ps[0] == qs[0] {
        SamePieces(ps[1..], qs[1..], if ps[0].Box? then open else ps[0].Start?);
        assert ps == [ps[0]] + ps[1..] && qs == [qs[0]] + qs[1..];
      } else if ps[0].Start? {
        StatesDiffer(ps[1..], qs[1..]);
      } else {
        var j := EndAhead(qs[1..]);
        AlikeEnds(ps, qs, j + 1);
      }
    }
  }

  // The other way round, `Alike` lists that differ: a bare mailbox and a group start change places.

  predicate BareInGroup(ps: seq<Piece>) {
    ps != [] && ps[0] != End && (BareMailbox(ps[0]) || BareInGroup(ps[1..]))
  }

  lemma AlikePut(p: Piece, q: Piece, ps: seq<Piece>, qs: seq<Piece>)
    requires Alike(ps, qs) && EntryOf(p) == EntryOf(q) && Boxed([p]) && Boxed([q])
    ensures Alike([p] + ps, [q] + qs)
  {
    assert Entries([p] + ps) == [EntryOf(p)] + Entries(ps);
    assert Entries([q] + qs) == [EntryOf(q)] + Entries(qs);
    assert [p][0] == p && [q][0] == q;
  }

  function StartOf(p: Piece): Piece
    requires BareMailbox(p)
  {
    Start(p.entry.mailbox.value)
  }

  lemma Put(p: Piece, q: Piece, ps: seq<Piece>, rest: seq<Piece>) returns (qs: seq<Piece>)
    requires ps != [] && ps[0] == p && Boxed(ps) && Alike(ps[1..], rest)
    requires EntryOf(p) == EntryOf(q) && (q.Box? ==> q.entry.mailbox.Some? && q.entry.host.Some?)
    ensures qs != [] && qs[0] == q && qs[1..] == rest && Alike(ps, qs)
  {
    qs := [q] + rest;
    assert Boxed([p]) by {
      assert [p][0] == ps[0];
    }
    AlikePut(p, q, ps[1..], rest);
    assert [p] + ps[1..] == ps;
  }

  // Without its start, an open group can begin at a bare mailbox of it.
  lemma {:induction false} BeginLater(ps: seq<Piece>) returns (qs: seq<Piece>)
    requires Boxed(ps) && Flat(ps, true) && BareInGroup(ps)
    ensures Alike(ps, qs) && Flat(qs, false)
  {
    if BareMailbox(ps[0]) {
      qs := Put(ps[0], StartOf(ps[0]), ps, ps[1..]);
    } else {
      var rest := BeginLater(ps[1..]);
      qs := Put(ps[0], ps[0], ps, rest);
    }
  }

  // Behind another start, the next group can go on without its own.
  lemma {:induction false} BeginEarlier(ps: seq<Piece>, j: nat) returns (qs: seq<Piece>)
    requires Boxed(ps) && Flat(ps, false) && j < |ps| && ps[j] == End
    ensures Alike(ps, qs) && Flat(qs, true)
  {
    if ps[0].Start? {
      qs := Put(ps[0], Box(EntryOf(ps[0])), ps, ps[1..]);
    } else {
      var rest := BeginEarlier(ps[1..], j - 1);
      qs := Put(ps[0], ps[0], ps, rest);
    }
  }

  lemma {:induction false} OtherPieces(ps: seq<Piece>, open: bool) returns (qs: seq<Piece>)
    requires Boxed(ps) && Flat(ps, open) && BareBeforeEnd(ps) && !(open && BareInGroup(ps))
    ensures Alike(ps, qs) && Flat(qs, open) && qs != ps
  {
    var i, j :| 0 <= i < j < |ps| && BareMailbox(ps[i]) && ps[j] == End;
    if BareMailbox(ps[0]) {
      var rest := BeginEarlier(ps[1..], j - 1);
      qs := Put(ps[0], StartOf(ps[0]), ps, rest);
    } else if ps[0].Start? && BareInGroup(ps[1..]) {
      var rest := BeginLater(ps[1..]);
      qs := Put(ps[0], Box(EntryOf(ps[0])), ps, rest);
    } else {
      assert BareMailbox(ps[1..][i - 1]) && ps[1..][j - 1] == End;
      var rest := OtherPieces(ps[1..], if ps[0].Box? then open else ps[0].Start?);
      qs := Put(ps[0], ps[0], ps, rest);
    }
  }

  // The entries of a list determine its mailboxes and groups exactly if no bare mailbox stands anywhere before
  // the end of a group: otherwise another list of mailboxes and groups has the very same entries.
  lemma EntriesTellGroups(ps: seq<Piece>)
    requires Listed(ps)
    ensures (forall qs :: Listed(qs) && Entries(qs) == Entries(ps) ==> qs == ps) <==> !BareBeforeEnd(ps)
  {
    if BareBeforeEnd(ps) {
      var qs := OtherPieces(ps, false);
      assert Listed(qs) && Entries(qs) == Entries(ps) && qs != ps;
    } else {
      forall qs | Listed(qs) && Entries(qs) == Entries(ps) ensures qs == ps {
        SamePieces(ps, qs, false);
      }
    }
  }

  // ---- What headers yield ----

  const PLAIN: Mode := Mode(false, false)

  // The modes the scan goes through over a text in which it meets no separator, inside a group or outside.
  function Within(r: string, m: Mode, inGroup: bool): Option<Mode>
    decreases |r|
  {
    if r == [] then Some(m)
    else if m.inQuote then
      if r[0] == '\\' && |r| > 1 then Within(r[2..], m, inGroup)
      else Within(r[1..], Next(m, r[0]), inGroup)
    else if !m.inAngle && Separates(r[0], inGroup) then None
    else Within(r[1..], Next(m, r[0]), inGroup)
  }

  predicate Separates(c: char, inGroup: bool) {
    c == ',' || (c == ':' && !inGroup) || (c == ';' && inGroup)
  }

  // A text without a separator is gathered whole; a backslash at its end is taken alone only if nothing follows.
  lemma {:induction false} WithinScans(r: string, rest: string, cur: string, m: Mode, n: Mode, inGroup: bool)
    requires Within(r, m, inGroup) == Some(n) && (n.inQuote ==> rest == [])
    ensures Scan(r + rest, cur, m.inQuote, m.inAngle, inGroup) == Scan(rest, cur + r, n.inQuote, n.inAngle, inGroup)
    decreases |r|
  {
    if r == [] {
      assert r + rest == rest && cur + r == cur;
    } else if m.inQuote && r[0] == '\\' && |r| > 1 {
      assert (r + rest)[2..] == r[2..] + rest && (r + rest)[..2] == r[..2];
      WithinScans(r[2..], rest, cur + r[..2], m, n, inGroup);
      Gathered(cur, r, 2);
    } else {
      var next := Next(m, r[0]);
      assert (r + rest)[1..] == r[1..] + rest;
      assert r[..1] == [r[0]];
      WithinScans(r[1..], rest, cur + [r[0]], next, n, inGroup);
      Gathered(cur, r, 1);
    }
  }

  lemma Gathered(cur: string, r: string, k: nat)
    requires k <= |r|
    ensures cur + r[..k] + r[k..] == cur + r
  {
  }

  // The text up to the first separator.
  lemma {:induction false} FirstSeparator(s: string, m: Mode, inGroup: bool) returns (k: nat)
    requires Within(s, m, inGroup) == None
    ensures k < |s| && Within(s[..k], m, inGroup) == Some(PLAIN) && Separates(s[k], inGroup)
    decreases |s|
  {
    if m.inQuote && s[0] == '\\' && |s| > 1 {
      k := FirstSeparator(s[2..], m, inGroup);
      assert s[..k + 2][2..] == s[2..][..k];
      k := k + 2;
    } else if !m.inQuote && !m.inAngle && Separates(s[0], inGroup) {
      k := 0;
      assert s[..0] == [];
    } else {
      var next := Next(m, s[0]);
      k := FirstSeparator(s[1..], next, inGroup);
      assert s[..k + 1][1..] == s[1..][..k];
      k := k + 1;
    }
  }

  ghost predicate Writes(t: string, e: Entry, inGroup: bool) {
    Within(t, PLAIN, inGroup) == Some(PLAIN) && Flushed(t) == [Box(e)]
  }

  // A text that ends in an open quote or angle bracket.
  ghost predicate Dangles(t: string, e: Entry, inGroup: bool) {
    Within(t, PLAIN, inGroup).Some? && Flushed(t) == [Box(e)]
  }

  // Some text in a header is read as this mailbox: anywhere in a list, or just at its end.
  ghost predicate Writable(e: Entry, inGroup: bool) {
    exists t :: Writes(t, e, inGroup)
  }

  ghost predicate Fits(e: Entry, inGroup: bool, behind: seq<Piece>) {
    Writable(e, inGroup) || (behind == (if inGroup then [End] else []) && exists t :: Dangles(t, e, inGroup))
  }

  // Some text in a header is read as the start of a group of this name.
  predicate Nameable(name: string) {
    Trim(name) == name && Within(name, PLAIN, false) == Some(PLAIN)
  }

  // The lists that headers yield, from a place inside a group or outside.
  ghost predicate Yielded(ps: seq<Piece>, inGroup: bool) {
    if ps == [] then !inGroup
    else match ps[0]
      case Start(name) => !inGroup && Nameable(name) && Yielded(ps[1..], true)
      case End => inGroup && Yielded(ps[1..], false)
      case Box(e) => Fits(e, inGroup, ps[1..]) && Yielded(ps[1..], inGroup)
  }

  lemma {:induction false} YieldedIsListed(ps: seq<Piece>, inGroup: bool)
    requires Yielded(ps, inGroup)
    ensures Flat(ps, inGroup) && Boxed(ps)
  {
    if ps != [] {
      YieldedIsListed(ps[1..], if ps[0].Box? then inGroup else ps[0].Start?);
      if ps[0].Box? {
        FittingIsBoxed(ps[0].entry, inGroup, ps[1..]);
      }
      assert forall i :: 1 <= i < |ps| ==> ps[i] == ps[1..][i - 1];
    }
  }

  lemma FittingIsBoxed(e: Entry, inGroup: bool, behind: seq<Piece>)
    requires Fits(e, inGroup, behind)
    ensures e.mailbox.Some? && e.host.Some?
  {
    var t :| Flushed(t) == [Box(e)];
    FlushedIsBoxed(t);
    assert Flushed(t)[0] == Box(e);
  }

  // White space at the edges changes no mode.
  lemma {:induction false} SpaceBefore(s: string, t: string, m: Mode, inGroup: bool)
    requires !m.inQuote && forall i :: 0 <= i < |s| ==> IsSpace(s[i])
    ensures Within(s + t, m, inGroup) == Within(t, m, inGroup)
  {
    if s == [] {
      assert s + t == t;
    } else {
      assert (s + t)[1..] == s[1..] + t;
      SpaceBefore(s[1..], t, m, inGroup);
    }
  }

  lemma {:induction false} SpaceBehind(t: string, s: string, m: Mode, inGroup: bool)
    requires Within(t + s, m, inGroup) == Some(PLAIN) && forall i :: 0 <= i < |s| ==> IsSpace(s[i])
    ensures Within(t, m, inGroup) == Some(PLAIN)
    decreases |t|
  {
    if t == [] {
      assert t + s == s;
      OnlySpace(s, m, inGroup);
    } else if m.inQuote && t[0] == '\\' && |t + s| > 1 {
      if |t| == 1 {
        assert (t + s)[2..] == s[1..];
        OnlySpace(s[1..], m, inGroup);
      } else {
        assert (t + s)[2..] == t[2..] + s;
        SpaceBehind(t[2..], s, m, inGroup);
      }
    } else {
      var next := Next(m, t[0]);
      assert (t + s)[1..] == t[1..] + s;
      SpaceBehind(t[1..], s, next, inGroup);
    }
  }

  lemma {:induction false} OnlySpace(s: string, m: Mode, inGroup: bool)
    requires forall i :: 0 <= i < |s| ==> IsSpace(s[i])
    ensures Within(s, m, inGroup) == Some(m)
  {
    if s != [] {
      OnlySpace(s[1..], m, inGroup);
    }
  }

  // What trimming takes off.
  lemma TrimEdges(t: string) returns (before: string, behind: string)
    ensures t == before + (Trim(t) + behind)
    ensures (forall i :: 0 <= i < |before| ==> IsSpace(before[i]))
            && forall i :: 0 <= i < |behind| ==> IsSpace(behind[i])
  {
    var left := StripLeft(t, IsSpace);
    StripLeftSuffix(t, IsSpace);
    LeftIsSpace(t);
    StripRightAll(left, IsSpace);
    before, behind := t[..|t| - |left|], left[|Trim(t)|..];
    assert left == Trim(t) + behind;
  }

  // A group is named by what its text is once trimmed.
  lemma TrimmedIsNameable(t: string)
    requires Within(t, PLAIN, false) == Some(PLAIN)
    ensures Nameable(Trim(t))
  {
    var before, behind := TrimEdges(t);
    SpaceBefore(before, Trim(t) + behind, PLAIN, false);
    SpaceBehind(Trim(t), behind, PLAIN, false);
    StripIsBare(t, IsSpace);
    StripIsBare(Trim(t), IsSpace);
  }

  lemma {:induction false} LeftIsSpace(t: string)
    ensures forall i :: 0 <= i < |t| - |StripLeft(t, IsSpace)| ==> IsSpace(t[i])
  {
    if t != [] && IsSpace(t[0]) {
      LeftIsSpace(t[1..]);
      assert forall i :: 1 <= i < |t| ==> t[i] == t[1..][i - 1];
    }
  }

  // ---- The lists of headers are the yielded ones ----

  lemma YieldedBehind(t: string, ps: seq<Piece>, inGroup: bool)
    requires Yielded(ps, inGroup) && Within(t, PLAIN, inGroup) == Some(PLAIN)
    ensures Yielded(Flushed(t) + ps, inGroup)
  {
    if Trim(t) == "" {
      assert Flushed(t) + ps == ps;
    } else {
      var e := OneAddress(Trim(t));
      assert Writes(t, e, inGroup);
      assert (Flushed(t) + ps)[1..] == ps;
    }
  }

  lemma YieldedAtEnd(t: string, inGroup: bool)
    requires Within(t, PLAIN, inGroup).Some?
    ensures Yielded(Flushed(t) + (if inGroup then [End] else []), inGroup)
  {
    var last: seq<Piece> := if inGroup then [End] else [];
    assert inGroup ==> last[1..] == [];
    assert Yielded(last, inGroup);
    if Trim(t) == "" {
      assert Flushed(t) + last == last;
    } else {
      var e := OneAddress(Trim(t));
      assert Dangles(t, e, inGroup);
      assert (Flushed(t) + last)[1..] == last;
    }
  }

  lemma {:induction false} ScanYields(s: string, inGroup: bool)
    ensures Yielded(Scan(s, "", false, false, inGroup), inGroup)
    decreases |s|
  {
    if Within(s, PLAIN, inGroup).Some? {
      var n := Within(s, PLAIN, inGroup).value;
      WithinScans(s, "", "", PLAIN, n, inGroup);
      assert s + "" == s && "" + s == s;
      YieldedAtEnd(s, inGroup);
    } else {
      var k := FirstSeparator(s, PLAIN, inGroup);
      ScanYieldsBehind(s[..k], s[k], s[k + 1..], inGroup);
      assert s == s[..k] + [s[k]] + s[k + 1..];
    }
  }

  lemma {:induction false} ScanYieldsBehind(t: string, c: char, rest: string, inGroup: bool)
    requires Within(t, PLAIN, inGroup) == Some(PLAIN) && Separates(c, inGroup)
    ensures Yielded(Scan(t + [c] + rest, "", false, false, inGroup), inGroup)
    decreases |t| + |rest| + 1, 0
  {
    SeparatorScans(t, c, rest, inGroup);
    if c == ',' {
      ScanYields(rest, inGroup);
      YieldedBehind(t, Scan(rest, "", false, false, inGroup), inGroup);
    } else if c == ':' {
      var later := Scan(rest, "", false, false, true);
      ScanYields(rest, true);
      TrimmedIsNameable(t);
      assert ([Start(Trim(t))] + later)[1..] == later;
    } else {
      var later := Scan(rest, "", false, false, false);
      ScanYields(rest, false);
      assert ([End] + later)[1..] == later;
      YieldedBehind(t, [End] + later, true);
      Regroup(Flushed(t), [End], later);
    }
  }

  lemma SeparatorScans(t: string, c: char, rest: string, inGroup: bool)
    requires Within(t, PLAIN, inGroup) == Some(PLAIN) && Separates(c, inGroup)
    ensures Scan(t + [c] + rest, "", false, false, inGroup)
            == (if c == ':' then [Start(Trim(t))] else if c == ';' then Flushed(t) + [End] else Flushed(t))
               + Scan(rest, "", false, false, if c == ':' then true else if c == ';' then false else inGroup)
  {
    WithinScans(t, [c] + rest, "", PLAIN, PLAIN, inGroup);
    Regroup(t, [c], rest);
    assert "" + t == t;
    assert ([c] + rest)[1..] == rest;
  }

  // A header for every yielded list.
  lemma {:induction false} YieldedScans(ps: seq<Piece>, inGroup: bool) returns (s: string)
    requires Yielded(ps, inGroup)
    ensures Scan(s, "", false, false, inGroup) == ps
    decreases |ps|
  {
    s := "";
    if ps == [] {
      assert Flushed("") + [] == [];
    } else if ps[0].Box? && !Writable(ps[0].entry, inGroup) {
      s := DanglingScans(ps, inGroup);
    } else {
      var rest := YieldedScans(ps[1..], if ps[0].Box? then inGroup else ps[0].Start?);
      s := PieceScans(ps, inGroup, rest);
    }
  }

  lemma DanglingScans(ps: seq<Piece>, inGroup: bool) returns (s: string)
    requires Yielded(ps, inGroup) && ps != [] && ps[0].Box? && !Writable(ps[0].entry, inGroup)
    ensures Scan(s, "", false, false, inGroup) == ps
  {
    s :| Dangles(s, ps[0].entry, inGroup);
    WithinScans(s, "", "", PLAIN, Within(s, PLAIN, inGroup).value, inGroup);
    assert s + "" == s && "" + s == s;
    assert ps == [ps[0]] + ps[1..];
  }

  lemma PieceScans(ps: seq<Piece>, inGroup: bool, rest: string) returns (s: string)
    requires Yielded(ps, inGroup) && ps != [] && (ps[0].Box? ==> Writable(ps[0].entry, inGroup))
    requires Scan(rest, "", false, false, if ps[0].Box? then inGroup else ps[0].Start?) == ps[1..]
    ensures Scan(s, "", false, false, inGroup) == ps
  {
    var t, c := PieceText(ps[0], inGroup);
    s := t + [c] + rest;
    SeparatorScans(t, c, rest, inGroup);
    FirstAndRest(ps);
    assert (if c == ':' then true else if c == ';' then false else inGroup)
           == if ps[0].Box? then inGroup else ps[0].Start?;
  }

  lemma FirstAndRest(ps: seq<Piece>)
    requires ps != []
    ensures ps == [ps[0]] + ps[1..]
  {
  }

  // How a piece is written: its text and the separator behind it.
  lemma PieceText(p: Piece, inGroup: bool) returns (t: string, c: char)
    requires if p.Box? then Writable(p.entry, inGroup) else if p.Start? then !inGroup && Nameable(p.name) else inGroup
    ensures Within(t, PLAIN, inGroup) == Some(PLAIN) && Separates(c, inGroup)
    ensures [p] == if c == ':' then [Start(Trim(t))] else if c == ';' then Flushed(t) + [End] else Flushed(t)
    ensures c == ',' <==> p.Box?
    ensures c == ':' <==> p.Start?
  {
    t, c := "", ';';
    match p {
      case Start(name) => t, c := name, ':';
      case End => assert Flushed("") + [End] == [End];
      case Box(e) =>
        t :| Writes(t, e, inGroup);
        c := ',';
    }
  }

  lemma BlankScans(s: string)
    requires Trim(s) == ""
    ensures Scan(s, "", false, false, false) == []
  {
    StripRightAll(StripLeft(s, IsSpace), IsSpace);
    StripLeftSuffix(s, IsSpace);
    LeftIsSpace(s);
    OnlySpace(s, PLAIN, false);
    WithinScans(s, "", "", PLAIN, PLAIN, false);
    assert s + "" == s && "" + s == s;
  }

  lemma HeaderYields(value: Option<string>)
    ensures Yielded(Scanned(value), false)
  {
    if value.Some? && Trim(value.value) != "" {
      ScanYields(value.value, false);
    }
  }

  lemma YieldedByHeader(ps: seq<Piece>) returns (s: string)
    requires Yielded(ps, false)
    ensures Scanned(Some(s)) == ps
  {
    s := YieldedScans(ps, false);
    if Trim(s) == "" {
      BlankScans(s);
    }
  }

  // ---- Which headers share their entries with another list ----

  predicate NameableBox(p: Piece) {
    BareMailbox(p) && Nameable(p.entry.mailbox.value)
  }

  // An open group could begin at a later mailbox, those before it standing outside.
  ghost predicate CanBeginLater(ps: seq<Piece>) {
    ps != [] && ps[0].Box? && (NameableBox(ps[0]) || (Writable(ps[0].entry, false) && CanBeginLater(ps[1..])))
  }

  // Behind an earlier start, the next group's own start and the mailboxes before it could be members.
  ghost predicate CanBeginEarlier(ps: seq<Piece>) {
    ps != [] && ps[0] != End && Fits(EntryOf(ps[0]), true, ps[1..]) && (ps[0].Start? || CanBeginEarlier(ps[1..]))
  }

  // Some group could begin elsewhere.
  ghost predicate Confusable(ps: seq<Piece>, inGroup: bool) {
    ps != [] &&
    match ps[0]
    case Start(_) => CanBeginLater(ps[1..]) || Confusable(ps[1..], true)
    case End => Confusable(ps[1..], false)
    case Box(_) => (!inGroup && NameableBox(ps[0]) && CanBeginEarlier(ps[1..])) || Confusable(ps[1..], inGroup)
  }

  // A group's name can always be written as a mailbox: with an "@" behind it.
  lemma NameIsWritable(name: string)
    requires Nameable(name)
    ensures Writable(EntryOf(Start(name)), false)
  {
    AtBehind(name, PLAIN, false);
    AtReads(name);
    assert Writes(name + "@", EntryOf(Start(name)), false);
  }

  lemma AtReads(name: string)
    requires Trim(name) == name
    ensures Flushed(name + "@") == [Box(EntryOf(Start(name)))]
  {
    AtTrims(name);
    AtAlone(name);
  }

  lemma AtTrims(name: string)
    requires Trim(name) == name
    ensures Trim(name + "@") == name + "@"
  {
    StripIsBare(name, IsSpace);
    StripIsBare(name + "@", IsSpace);
  }

  lemma AtAlone(name: string)
    ensures OneAddress(name + "@") == EntryOf(Start(name))
  {
    var t := name + "@";
    assert LazySplit(t, 0) == -1;
    assert LastIndexOf(t, '@') == |name| && t[..|name|] == name && t[|name| + 1..] == "";
  }

  lemma {:induction false} AtBehind(t: string, m: Mode, inGroup: bool)
    requires Within(t, m, inGroup) == Some(PLAIN)
    ensures Within(t + "@", m, inGroup) == Some(PLAIN)
    decreases |t|
  {
    if t == [] {
      assert (t + "@")[1..] == [];
    } else if m.inQuote && t[0] == '\\' && |t| > 1 {
      assert (t + "@")[2..] == t[2..] + "@";
      AtBehind(t[2..], m, inGroup);
    } else {
      var next := Next(m, t[0]);
      assert (t + "@")[1..] == t[1..] + "@";
      AtBehind(t[1..], next, inGroup);
    }
  }

  lemma AlikeTails(ps: seq<Piece>, qs: seq<Piece>)
    requires Alike(ps, qs)
    ensures ps == [] <==> qs == []
    ensures ps == [End] <==> qs == [End]
  {
    assert |ps| == |Entries(ps)| == |qs|;
    if |ps| == 1 {
      AlikeHeads(ps, qs);
    }
  }

  // Other pieces with the same entries, where a group begins elsewhere.
  lemma {:induction false} Later(ps: seq<Piece>) returns (qs: seq<Piece>)
    requires Boxed(ps) && Yielded(ps, true) && CanBeginLater(ps)
    ensures Alike(ps, qs) && Yielded(qs, false)
  {
    if NameableBox(ps[0]) {
      qs := Put(ps[0], StartOf(ps[0]), ps, ps[1..]);
    } else {
      var rest := Later(ps[1..]);
      qs := Put(ps[0], ps[0], ps, rest);
    }
  }

  lemma {:induction false} Earlier(ps: seq<Piece>) returns (qs: seq<Piece>)
    requires Boxed(ps) && Yielded(ps, false) && CanBeginEarlier(ps)
    ensures Alike(ps, qs) && Yielded(qs, true)
  {
    if ps[0].Start? {
      qs := Put(ps[0], Box(EntryOf(ps[0])), ps, ps[1..]);
    } else {
      var rest := Earlier(ps[1..]);
      AlikeTails(ps[1..], rest);
      qs := Put(ps[0], ps[0], ps, rest);
    }
  }

  lemma {:induction false} Elsewhere(ps: seq<Piece>, inGroup: bool) returns (qs: seq<Piece>)
    requires Boxed(ps) && Yielded(ps, inGroup) && Confusable(ps, inGroup)
    ensures Alike(ps, qs) && Yielded(qs, inGroup) && qs != ps
  {
    if ps[0].Box? && !inGroup && NameableBox(ps[0]) && CanBeginEarlier(ps[1..]) {
      var rest := Earlier(ps[1..]);
      qs := Put(ps[0], StartOf(ps[0]), ps, rest);
    } else if ps[0].Start? && CanBeginLater(ps[1..]) {
      var rest := Later(ps[1..]);
      NameIsWritable(ps[0].name);
      qs := Put(ps[0], Box(EntryOf(ps[0])), ps, rest);
    } else {
      var rest := Elsewhere(ps[1..], if ps[0].Box? then inGroup else ps[0].Start?);
      AlikeTails(ps[1..], rest);
      qs := Put(ps[0], ps[0], ps, rest);
    }
  }

  // The other way round: where the pieces differ, a group begins elsewhere.
  lemma {:induction false} LaterFrom(ps: seq<Piece>, qs: seq<Piece>)
    requires Alike(ps, qs) && Yielded(ps, true) && Yielded(qs, false)
    ensures CanBeginLater(ps)
  {
    AlikeHeads(ps, qs);
    if !NameableBox(ps[0]) {
      AlikeTails(ps[1..], qs[1..]);
      LaterFrom(ps[1..], qs[1..]);
    }
  }

  lemma {:induction false} EarlierFrom(ps: seq<Piece>, qs: seq<Piece>)
    requires Alike(ps, qs) && Yielded(ps, false) && Yielded(qs, true)
    ensures CanBeginEarlier(ps)
  {
    AlikeHeads(qs, ps);
    AlikeTails(ps[1..], qs[1..]);
    if !ps[0].Start? {
      EarlierFrom(ps[1..], qs[1..]);
    }
  }

  lemma {:induction false} DifferenceIsElsewhere(ps: seq<Piece>, qs: seq<Piece>, inGroup: bool)
    requires Alike(ps, qs) && Yielded(ps, inGroup) && Yielded(qs, inGroup) && ps != qs
    ensures Confusable(ps, inGroup)
  {
    if ps == [] {
      AlikeTails(ps, qs);
      assert false;
    }
    AlikeHeads(ps, qs);
    if ps[0] == qs[0] {
      assert ps == [ps[0]] + ps[1..] && qs == [qs[0]] + qs[1..];
      DifferenceIsElsewhere(ps[1..], qs[1..], if ps[0].Box? then inGroup else ps[0].Start?);
    } else if ps[0].Start? {
      LaterFrom(ps[1..], qs[1..]);
    } else {
      EarlierFrom(ps[1..], qs[1..]);
    }
  }

  // The entries of a header's list determine its mailboxes and groups, among all headers, exactly if no group of
  // it could begin elsewhere.
  lemma HeadersTellGroups(value: Option<string>)
    ensures (forall other :: Entries(Scanned(other)) == Entries(Scanned(value)) ==> Scanned(other) == Scanned(value))
            <==> !Confusable(Scanned(value), false)
  {
    var ps := Scanned(value);
    HeaderYields(value);
    YieldedIsListed(ps, false);
    if Confusable(ps, false) {
      var qs := Elsewhere(ps, false);
      var s := YieldedByHeader(qs);
      assert Entries(Scanned(Some(s))) == Entries(ps) && Scanned(Some(s)) != ps;
    } else {
      forall other | Entries(Scanned(other)) == Entries(ps) ensures Scanned(other) == ps {
        HeaderYields(other);
        YieldedIsListed(Scanned(other), false);
        if Scanned(other) != ps {
          DifferenceIsElsewhere(ps, Scanned(other), false);
        }
      }
    }
  }

  // ---- Two headers with one ENVELOPE ----

  // A word that the scan takes as an address without "@".
  predicate BareWord(w: string) {
    w != "" && forall i :: 0 <= i < |w| ==> !IsSpace(w[i]) && w[i] !in {'"', '<', '>', ':', ';', ',', '@'}
  }

  function BareBox(w: string): Piece {
    Box(Entry(None, Some(w), Some("")))
  }

  lemma {:induction false} WordIsWhole(w: string)
    requires forall i :: 0 <= i < |w| ==> w[i] !in {'"', '<', '>', ':', ';', ','}
    ensures Whole(w)
  {
    if w != "" {
      WordIsWhole(w[1..]);
    }
  }

  lemma WordFlushes(w: string)
    requires BareWord(w)
    ensures Whole(w) && Trim(w) == w && Flushed(w) == [BareBox(w)]
  {
    WordIsWhole(w);
    StripIsBare(w, IsSpace);
    assert LazySplit(w, 0) == -1;
    assert LastIndexOf(w, '@') == -1;
  }

  lemma OneMember(x: string)
    requires BareWord(x)
    ensures MemberPieces([x]) == [BareBox(x)]
  {
    WordFlushes(x);
    assert [x][1..] == [];
  }

  lemma TwoMembers(x: string, y: string)
    requires BareWord(x) && BareWord(y)
    ensures MemberPieces([x, y]) == [BareBox(x), BareBox(y)]
  {
    WordFlushes(x);
    OneMember(y);
    assert [x, y][1..] == [y];
  }

  lemma FirstText(x: string, y: string, z: string)
    ensures PrintList([One(x), Many(y, [z])]) == x + "," + y + ":" + z + ";"
  {
    var items := [One(x), Many(y, [z])];
    assert items[1..] == [Many(y, [z])];
    assert PrintList([Many(y, [z])]) == y + ":" + z + ";";
    assert x + "," + (y + ":" + z + ";") == x + "," + y + ":" + z + ";";
  }

  lemma GroupPieces(name: string, members: seq<string>)
    requires BareWord(name)
    ensures ItemPieces(Many(name, members)) == [Start(name)] + MemberPieces(members) + [End]
  {
    WordFlushes(name);
  }

  lemma FirstPieces(x: string, y: string, z: string)
    requires BareWord(x) && BareWord(y) && BareWord(z)
    ensures ListPieces([One(x), Many(y, [z])]) == [BareBox(x)] + ([Start(y)] + [BareBox(z)] + [End])
  {
    TwoItems(One(x), Many(y, [z]));
    LastItem(Many(y, [z]));
    GroupPieces(y, [z]);
    OneMember(z);
    WordFlushes(x);
  }

  lemma TwoItems(i: Item, j: Item)
    ensures ListPieces([i, j]) == ItemPieces(i) + ListPieces([j])
  {
    assert [i, j][1..] == [j];
  }

  lemma LastItem(item: Item)
    ensures ListPieces([item]) == ItemPieces(item)
  {
    assert [item][1..] == [];
    assert ItemPieces(item) + [] == ItemPieces(item);
  }

  lemma SecondText(x: string, y: string, z: string)
    ensures PrintList([Many(x, [y, z])]) == x + ":" + y + "," + z + ";"
  {
    assert [y, z][1..] == [z];
    assert Join([y, z], ",") == y + "," + z;
    assert x + ":" + (y + "," + z) + ";" == x + ":" + y + "," + z + ";";
  }

  lemma SecondPieces(x: string, y: string, z: string)
    requires BareWord(x) && BareWord(y) && BareWord(z)
    ensures ListPieces([Many(x, [y, z])]) == [Start(x)] + [BareBox(y), BareBox(z)] + [End]
  {
    LastItem(Many(x, [y, z]));
    GroupPieces(x, [y, z]);
    TwoMembers(y, z);
  }

  lemma HeaderScans(s: string, items: seq<Item>)
    requires s == PrintList(items) && s != "" && !IsSpace(s[0]) && s[|s| - 1] == ';'
    requires forall i :: 0 <= i < |items| ==> WholeItem(items[i])
    ensures Scanned(Some(s)) == ListPieces(items)
  {
    StripIsBare(s, IsSpace);
    PrintedListReads(items);
  }

  lemma FirstReads(x: string, y: string, z: string, s: string)
    requires BareWord(x) && BareWord(y) && BareWord(z) && s == x + "," + y + ":" + z + ";"
    ensures Scanned(Some(s)) == [BareBox(x), Start(y), BareBox(z), End]
  {
    WordFlushes(x);
    WordFlushes(y);
    WordFlushes(z);
    FirstText(x, y, z);
    HeaderScans(s, [One(x), Many(y, [z])]);
    FirstPieces(x, y, z);
  }

  lemma SecondReads(x: string, y: string, z: string, s: string)
    requires BareWord(x) && BareWord(y) && BareWord(z) && s == x + ":" + y + "," + z + ";"
    ensures Scanned(Some(s)) == [Start(x), BareBox(y), BareBox(z), End]
  {
    WordFlushes(x);
    WordFlushes(y);
    WordFlushes(z);
    SecondText(x, y, z);
    HeaderScans(s, [Many(x, [y, z])]);
    SecondPieces(x, y, z);
  }

  // For any three words the headers  x,y:z;  and  x:y,z;  hold different mailboxes and groups and have the
  // same entries.
  lemma OneEnvelopeTwoLists(x: string, y: string, z: string)
    requires BareWord(x) && BareWord(y) && BareWord(z)
    ensures Scanned(Some(x + "," + y + ":" + z + ";")) == [BareBox(x), Start(y), BareBox(z), End]
    ensures Scanned(Some(x + ":" + y + "," + z + ";")) == [Start(x), BareBox(y), BareBox(z), End]
    ensures Entries([BareBox(x), Start(y), BareBox(z), End]) == Entries([Start(x), BareBox(y), BareBox(z), End])
  {
    FirstReads(x, y, z, x + "," + y + ":" + z + ";");
    SecondReads(x, y, z, x + ":" + y + "," + z + ";");
  }
}
