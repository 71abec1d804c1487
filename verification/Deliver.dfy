/**
 One SMTP delivery (the client side of RFC 5321, with STARTTLS after RFC 3207 and the enforcement of
 RFC 8461) as a protocol run against any peer.
 */
module Deliver {
  import opened Text

  datatype Command = Ehlo | Helo | StartTls | Mail | Rcpt(index: nat) | Data | Body | EndOfData | Quit

  datatype Reply = Reply(code: int, advertisesStartTls: bool)

  // What a read yields: a reply, nothing in time (timeout, close or reset), or a fault that is thrown.
  datatype ReadResult = Framed(reply: Reply) | Silence | Fault

  // The transcript. `Upgraded(validated)` is a completed handshake, with or without certificate validation.
  datatype Event = Sent(command: Command) | Got(read: ReadResult) | Upgraded(validated: bool) | UpgradeFailed

  // Any peer: what it does may depend on how much has happened. `takes` says whether a write goes through.
  datatype Peer = Peer(reply: nat -> ReadResult, takes: nat -> bool, handshake: (nat, bool) -> bool)

  class Wire {
    const peer: Peer
    var transcript: seq<Event>

    constructor (peer: Peer)
      ensures this.peer == peer && transcript == []
    {
      this.peer := peer;
      transcript := [];
    }

    // What was put on the wire is in the transcript even if the write did not complete.
    method Send(c: Command) returns (ok: bool)
      modifies this
      ensures transcript == old(transcript) + [Sent(c)]
    {
      ok := peer.takes(|transcript|);
      transcript := transcript + [Sent(c)];
    }

    method Read() returns (r: ReadResult)
      modifies this
      ensures transcript == old(transcript) + [Got(r)]
    {
      r := peer.reply(|transcript|);
      transcript := transcript + [Got(r)];
    }

    method Upgrade(validate: bool) returns (ok: bool)
      modifies this
      ensures transcript == old(transcript) + [if ok then Upgraded(validate) else UpgradeFailed]
    {
      ok := peer.handshake(|transcript|, validate);
      transcript := transcript + [if ok then Upgraded(validate) else UpgradeFailed];
    }

    predicate TlsEstablished()
      reads this
    {
      exists i :: 0 <= i < |transcript| && transcript[i].Upgraded?
    }
  }

  datatype Request = Request(sender: string, recipients: seq<string>)

  datatype Options = Options(startTls: bool, requireValidCert: bool)

  datatype Verb = EhloVerb | HeloVerb

  datatype DeliveryResult = DeliveryResult(
    ok: bool,
    greetingCode: Option<int>,
    openingVerb: Option<Verb>,
    heloFellBack: bool,
    mailCode: Option<int>,
    rcptCodes: seq<int>,
    sentData: bool,
    dataCode: Option<int>,
    dataIndeterminate: bool,
    quit: bool)

  const BASE: DeliveryResult := DeliveryResult(false, None, None, false, None, [], false, None, false, false)

  datatype Outcome = Returned(result: DeliveryResult) | Threw

  predicate Is2yz(r: ReadResult) {
    r.Framed? && 200 <= r.reply.code < 300
  }

  predicate Is5yz(r: ReadResult) {
    r.Framed? && 500 <= r.reply.code < 600
  }

  function CodeOf(r: ReadResult): Option<int> {
    if r.Framed? then Some(r.reply.code) else None
  }

  function CodeOrZero(r: ReadResult): int {
    if r.Framed? then r.reply.code else 0
  }

  // An address that the latin1 command lines cannot carry.
  predicate IsInternationalized(address: string) {
    exists i :: 0 <= i < |address| && address[i] > '\U{7F}'
  }

  predicate EnvelopeIsInternationalized(req: Request) {
    IsInternationalized(req.sender) || exists i :: 0 <= i < |req.recipients| && IsInternationalized(req.recipients[i])
  }

  // ---- What a client may do next ----

  type History = seq<Event>

  predicate IsTransaction(c: Command) {
    c.Mail? || c.Rcpt? || c.Data? || c.Body? || c.EndOfData?
  }

  // The previous command has been answered, or waited for.
  predicate Idle(h: History) {
    h != [] && h[|h| - 1].Got?
  }

  predicate JustUpgraded(h: History) {
    h != [] && h[|h| - 1].Upgraded?
  }

  // The last exchange was this command and a read.
  predicate Answered(h: History, c: Command) {
    |h| >= 2 && h[|h| - 2] == Sent(c) && h[|h| - 1].Got?
  }

  function LastRead(h: History): ReadResult
    requires Idle(h)
  {
    h[|h| - 1].read
  }

  predicate HeardAt(h: History, i: int, c: Command, r: ReadResult) {
    0 <= i < |h| - 1 && h[i] == Sent(c) && h[i + 1] == Got(r)
  }

  // Somewhere in the run this command was answered by this.
  ghost predicate Heard(h: History, c: Command, r: ReadResult) {
    exists i :: HeardAt(h, i, c, r)
  }

  ghost predicate AllRcptsHeard(h: History, n: nat) {
    forall i: nat :: i < n ==> RcptAnswered(h, i)
  }

  ghost predicate RcptAnswered(h: History, i: nat) {
    exists r :: Heard(h, Rcpt(i), r)
  }

  ghost predicate RcptHeard(h: History, i: nat, code: int) {
    exists r :: Heard(h, Rcpt(i), r) && CodeOrZero(r) == code
  }

  ghost predicate MailNotRefused(h: History) {
    exists r :: Heard(h, Mail, r) && !Is5yz(r)
  }

  ghost predicate SomeRcptAccepted(h: History, n: nat) {
    exists i, code :: 0 <= i < n && RcptHeard(h, i, code) && 200 <= code < 300
  }

  ghost predicate HelloAccepted(h: History) {
    exists r :: (Heard(h, Ehlo, r) || Heard(h, Helo, r)) && Is2yz(r)
  }

  // What the caller asked for, as far as the steps depend on it.
  datatype Plan = Plan(wantsTls: bool, enforce: bool, international: bool, n: nat)

  function PlanOf(opts: Options, req: Request): Plan {
    Plan(opts.startTls || opts.requireValidCert, opts.requireValidCert, EnvelopeIsInternationalized(req),
         |req.recipients|)
  }

  // Something has happened that the client answers, by a step or by ending the session.
  predicate Turn(h: History) {
    h != [] &&
    match h[|h| - 1]
    case Got(r) => !r.Fault?
    case Upgraded(_) => true
    case UpgradeFailed => true
    case Sent(_) => false
  }

  datatype Step = Say(command: Command) | Shake | Rest

  predicate Encrypted(h: History) {
    exists i :: 0 <= i < |h| && h[i].Upgraded?
  }

  // The session is open: the transaction begins, if it may.
  function Begin(p: Plan, h: History): Step {
    if p.enforce && Upgraded(true) !in h then Rest else Say(if p.international then Quit else Mail)
  }

  // Recipient i is next, or the envelope is complete.
  ghost function AfterRecipients(p: Plan, h: History, i: nat): Step {
    if i < p.n then Say(Rcpt(i)) else Say(if MailNotRefused(h) && SomeRcptAccepted(h, p.n) then Data else Quit)
  }

  // The step on the answer r to the command c.
  ghost function DueAfter(p: Plan, h: History, c: Command, r: ReadResult): Step {
    match c
    case Ehlo =>
      if !Is2yz(r) then (if Encrypted(h) then Rest else Say(Helo))
      else if !Encrypted(h) && p.wantsTls && r.reply.advertisesStartTls then Say(StartTls)
      else Begin(p, h)
    case Helo => if Is2yz(r) then Begin(p, h) else Rest
    case StartTls => if Is2yz(r) then Shake else Begin(p, h)
    case Mail => AfterRecipients(p, h, 0)
    case Rcpt(i) => AfterRecipients(p, h, i + 1)
    case Data => Say(if CodeOf(r) == Some(354) then Body else Quit)
    case EndOfData => Say(Quit)
    case _ => Rest
  }

  // What the client does next.
  ghost function Due(p: Plan, h: History): Step
    requires Turn(h)
  {
    var last := h[|h| - 1];
    if last.UpgradeFailed? then Rest
    else if last.Upgraded? then Say(Ehlo)
    else if |h| == 1 then Say(if Is2yz(last.read) then Ehlo else Quit)
    else if h[|h| - 2].Sent? then DueAfter(p, h, h[|h| - 2].command, last.read)
    else Rest
  }

  // The command may be sent here, and where the client has to answer something it is the answer.
  ghost predicate SendPermitted(p: Plan, h: History, c: Command) {
    && (if c.EndOfData? then h != [] && h[|h| - 1] == Sent(Body) else Idle(h) || (c.Ehlo? && JustUpgraded(h)))
    && (c.Ehlo? || Sent(c) !in h)
    && (IsTransaction(c) && p.enforce ==> Upgraded(true) in h)
    && (Turn(h) ==> Due(p, h) == Say(c))
    && match c
       case Ehlo => JustUpgraded(h) || (|h| == 1 && Is2yz(LastRead(h)))
       case Helo => Answered(h, Ehlo) && !Is2yz(LastRead(h))
       case StartTls => Answered(h, Ehlo) && Is2yz(LastRead(h)) && LastRead(h).reply.advertisesStartTls
       case Mail => HelloAccepted(h)
       case Rcpt(i) => i < p.n && Answered(h, if i == 0 then Mail else Rcpt(i - 1))
       case Data => MailNotRefused(h) && SomeRcptAccepted(h, p.n) && AllRcptsHeard(h, p.n)
       case Body => Answered(h, Data) && CodeOf(LastRead(h)) == Some(354)
       case EndOfData => true
       case Quit => true
  }

  ghost predicate Permitted(p: Plan, h: History, e: Event) {
    match e
    case Sent(c) => SendPermitted(p, h, c)
    case Got(_) => h == [] || (h[|h| - 1].Sent? && !h[|h| - 1].command.Body?)
    case Upgraded(validated) => validated == p.enforce && Answered(h, StartTls) && Is2yz(LastRead(h))
    case UpgradeFailed => Answered(h, StartTls) && Is2yz(LastRead(h))
  }

  // The run is over, with nothing left to do.
  ghost predicate Finished(p: Plan, h: History) {
    Turn(h) ==> Due(p, h) == Rest
  }

  // Every step of the run was permitted by what came before it.
  ghost predicate Conforms(p: Plan, h: History)
    decreases |h|
  {
    h == [] || (Conforms(p, h[..|h| - 1]) && Permitted(p, h[..|h| - 1], h[|h| - 1]))
  }

  lemma OneMore(p: Plan, h: History, e: Event)
    requires Conforms(p, h) && Permitted(p, h, e)
    ensures Conforms(p, h + [e])
  {
    assert (h + [e])[..|h|] == h;
  }

  lemma HeardLater(h: History, e: Event, c: Command, r: ReadResult)
    requires Heard(h, c, r)
    ensures Heard(h + [e], c, r)
  {
    var i :| HeardAt(h, i, c, r);
    assert HeardAt(h + [e], i, c, r);
  }

  lemma HeardNow(h: History, c: Command, r: ReadResult)
    requires h != [] && h[|h| - 1] == Sent(c)
    ensures Heard(h + [Got(r)], c, r)
  {
    assert HeardAt(h + [Got(r)], |h| - 1, c, r);
  }

  // ---- What follows for every conforming run ----

  lemma {:induction false} ConformsAt(p: Plan, h: History, k: nat)
    requires Conforms(p, h) && k < |h|
    ensures Conforms(p, h[..k]) && Permitted(p, h[..k], h[k])
  {
    if k < |h| - 1 {
      ConformsAt(p, h[..|h| - 1], k);
      assert h[..|h| - 1][..k] == h[..k];
    }
  }

  // Under enforcement nothing of the transaction goes out before a validated handshake.
  lemma {:induction false} NothingInTheClear(p: Plan, h: History, k: nat)
    requires p.enforce && Conforms(p, h) && k < |h| && h[k].Sent? && IsTransaction(h[k].command)
    ensures exists j :: 0 <= j < k && h[j] == Upgraded(true)
  {
    ConformsAt(p, h, k);
    var j :| 0 <= j < k && h[..k][j] == Upgraded(true);
    assert h[j] == Upgraded(true);
  }

  // The message goes out only behind a 354 to DATA, which itself followed a MAIL that was not refused and a
  // recipient that was accepted.
  lemma {:induction false} BodyNeedsGoAhead(p: Plan, h: History, k: nat)
    requires Conforms(p, h) && k < |h| && h[k] == Sent(Body)
    ensures k >= 2 && h[k - 2] == Sent(Data) && h[k - 1].Got? && CodeOf(h[k - 1].read) == Some(354)
    ensures MailNotRefused(h[..k - 2]) && SomeRcptAccepted(h[..k - 2], p.n)
    ensures AllRcptsHeard(h[..k - 2], p.n)
  {
    ConformsAt(p, h, k);
    ConformsAt(p, h, k - 2);
  }

  // Lock step: between two commands lies the read of the answer to the first. Only the message text and its
  // end follow one another directly.
  lemma {:induction false} LockStep(p: Plan, h: History, i: nat, k: nat)
    requires Conforms(p, h) && i < k < |h| && h[i].Sent? && h[k].Sent? && !h[k].command.EndOfData?
    ensures exists j :: i < j < k && h[j].Got?
  {
    ConformsAt(p, h, k);
    var before := h[..k];
    if Idle(before) {
      assert h[k - 1].Got?;
    } else {
      ConformsAt(p, h, k - 1);
      assert h[k - 2].Got?;
    }
  }

  // No command but EHLO is ever repeated; in particular the message is sent at most once.
  lemma {:induction false} NothingTwice(p: Plan, h: History, i: nat, k: nat)
    requires Conforms(p, h) && i < k < |h| && h[i].Sent? && h[i] == h[k]
    ensures h[i] == Sent(Ehlo)
  {
    ConformsAt(p, h, k);
    assert h[..k][i] == h[i];
  }

  // Recipients are named in order, each after the one before it was answered.
  lemma {:induction false} RecipientsInOrder(p: Plan, h: History, k: nat)
    requires Conforms(p, h) && k < |h| && h[k].Sent? && h[k].command.Rcpt?
    ensures h[k].command.index < p.n && k >= 2
    ensures h[k - 2] == Sent(if h[k].command.index == 0 then Mail else Rcpt(h[k].command.index - 1)) && h[k - 1].Got?
  {
    ConformsAt(p, h, k);
  }

  // ---- The same of a whole run, read off its transcript alone ----

  // Each command of the transaction lies behind a validated handshake.
  ghost predicate NeverClear(h: History) {
    forall k :: 0 <= k < |h| && h[k].Sent? && IsTransaction(h[k].command)
      ==> exists j :: 0 <= j < k && h[j] == Upgraded(true)
  }

  // The message lies right behind a 354 to DATA, and DATA behind an envelope that was accepted.
  ghost predicate AlwaysAsked(n: nat, h: History) {
    forall k :: 0 <= k < |h| && h[k] == Sent(Body) ==>
      && k >= 2 && h[k - 2] == Sent(Data) && h[k - 1].Got? && CodeOf(h[k - 1].read) == Some(354)
      && MailNotRefused(h[..k - 2]) && SomeRcptAccepted(h[..k - 2], n) && AllRcptsHeard(h[..k - 2], n)
  }

  ghost predicate AlwaysWaits(h: History) {
    forall i, k :: 0 <= i < k < |h| && h[i].Sent? && h[k].Sent? && !h[k].command.EndOfData?
      ==> exists j :: i < j < k && h[j].Got?
  }

  ghost predicate NeverRepeats(h: History) {
    forall i, k :: 0 <= i < k < |h| && h[i].Sent? && h[i] == h[k] ==> h[i] == Sent(Ehlo)
  }

  ghost predicate NamesInOrder(n: nat, h: History) {
    forall k :: 0 <= k < |h| && h[k].Sent? && h[k].command.Rcpt? ==>
      && h[k].command.index < n && k >= 2
      && h[k - 2] == Sent(if h[k].command.index == 0 then Mail else Rcpt(h[k].command.index - 1)) && h[k - 1].Got?
  }

  ghost predicate Safe(enforce: bool, n: nat, h: History) {
    && (enforce ==> NeverClear(h))
    && AlwaysAsked(n, h) && AlwaysWaits(h) && NeverRepeats(h) && NamesInOrder(n, h)
  }

  lemma EachStepSafe(p: Plan, h: History)
    requires Conforms(p, h)
    ensures p.enforce ==> NeverClear(h)
    ensures AlwaysAsked(p.n, h) && NamesInOrder(p.n, h)
  {
    forall k | 0 <= k < |h| && h[k].Sent? && IsTransaction(h[k].command) && p.enforce
      ensures exists j :: 0 <= j < k && h[j] == Upgraded(true) {
      NothingInTheClear(p, h, k);
    }
    forall k | 0 <= k < |h| && h[k] == Sent(Body)
      ensures k >= 2 && h[k - 2] == Sent(Data) && h[k - 1].Got? && CodeOf(h[k - 1].read) == Some(354)
      ensures MailNotRefused(h[..k - 2]) && SomeRcptAccepted(h[..k - 2], p.n) && AllRcptsHeard(h[..k - 2], p.n)
    {
      BodyNeedsGoAhead(p, h, k);
    }
    forall k | 0 <= k < |h| && h[k].Sent? && h[k].command.Rcpt?
      ensures h[k].command.index < p.n && k >= 2
      ensures h[k - 2] == Sent(if h[k].command.index == 0 then Mail else Rcpt(h[k].command.index - 1)) && h[k - 1].Got?
    {
      RecipientsInOrder(p, h, k);
    }
  }

  lemma EachPairSafe(p: Plan, h: History)
    requires Conforms(p, h)
    ensures AlwaysWaits(h) && NeverRepeats(h)
  {
    forall i, k | 0 <= i < k < |h| && h[i].Sent? && h[k].Sent? && !h[k].command.EndOfData?
      ensures exists j :: i < j < k && h[j].Got? {
      LockStep(p, h, i, k);
    }
    forall i, k | 0 <= i < k < |h| && h[i].Sent? && h[i] == h[k] ensures h[i] == Sent(Ehlo) {
      NothingTwice(p, h, i, k);
    }
  }

  // Whatever conforms is safe.
  lemma ConformingIsSafe(p: Plan, h: History)
    requires Conforms(p, h)
    ensures Safe(p.enforce, p.n, h)
  {
    EachStepSafe(p, h);
    EachPairSafe(p, h);
  }

  // ---- What the client must not leave out ----

  predicate Next(h: History, k: nat, e: Event) {
    k + 1 < |h| && h[k + 1] == e
  }

  // Event k is the read of an answer to c.
  predicate AnswerAt(h: History, k: int, c: Command, r: ReadResult) {
    1 <= k < |h| && h[k - 1] == Sent(c) && h[k] == Got(r)
  }

  predicate OffersTls(r: ReadResult) {
    Is2yz(r) && r.reply.advertisesStartTls
  }

  // The greeting is answered by EHLO, or by QUIT if it is a refusal; a refused EHLO in the clear by HELO; an EHLO
  // answer that offers STARTTLS by STARTTLS, if the caller wants it.
  ghost predicate Greets(wantsTls: bool, h: History) {
    && (h != [] && h[0].Got? && !h[0].read.Fault? ==> Next(h, 0, Sent(if Is2yz(h[0].read) then Ehlo else Quit)))
    && (forall r :: AnswerAt(h, 2, Ehlo, r) && !r.Fault? && !Is2yz(r) ==> Next(h, 2, Sent(Helo)))
    && (forall r :: AnswerAt(h, 2, Ehlo, r) && wantsTls && OffersTls(r) ==> Next(h, 2, Sent(StartTls)))
  }

  // A STARTTLS that is accepted is followed by the handshake, and the handshake by EHLO.
  ghost predicate Encrypts(enforce: bool, h: History) {
    && (forall k, r :: AnswerAt(h, k, StartTls, r) && Is2yz(r) ==>
        Next(h, k, Upgraded(enforce)) || Next(h, k, UpgradeFailed))
    && (forall k: nat :: k < |h| && h[k].Upgraded? ==> Next(h, k, Sent(Ehlo)))
  }

  // What opens the session for the transaction: the last greeting by name accepted, or STARTTLS refused.
  predicate OpensAt(wantsTls: bool, h: History, k: int, r: ReadResult) {
    || (AnswerAt(h, k, Ehlo, r) && Is2yz(r) && (k > 2 || !(wantsTls && OffersTls(r))))
    || (AnswerAt(h, k, Helo, r) && Is2yz(r))
    || (AnswerAt(h, k, StartTls, r) && !Is2yz(r) && !r.Fault?)
  }

  // Then MAIL follows, unless an address cannot be sent; under enforcement only over TLS, else nothing follows.
  ghost predicate Begins(wantsTls: bool, enforce: bool, international: bool, h: History) {
    forall k, r :: OpensAt(wantsTls, h, k, r) ==>
      if enforce && Upgraded(true) !in h[..k] then |h| == k + 1
      else Next(h, k, Sent(if international then Quit else Mail))
  }

  // Each recipient is named in turn; the complete envelope is followed by DATA if MAIL was not refused and a
  // recipient was accepted, and by QUIT otherwise; a 354 by the message and its end; and the rest by QUIT.
  ghost predicate Transacts(n: nat, h: History) {
    && (forall k, r :: AnswerAt(h, k, Mail, r) && !r.Fault? ==> RecipientOrEnd(n, h, k, 0))
    && (forall k, i: nat, r :: AnswerAt(h, k, Rcpt(i), r) && !r.Fault? ==> RecipientOrEnd(n, h, k, i + 1))
    && (forall k, r :: AnswerAt(h, k, Data, r) && !r.Fault? ==>
        Next(h, k, Sent(if CodeOf(r) == Some(354) then Body else Quit)))
    && (forall k, r :: AnswerAt(h, k, EndOfData, r) && !r.Fault? ==> Next(h, k, Sent(Quit)))
  }

  ghost predicate RecipientOrEnd(n: nat, h: History, k: int, i: nat)
    requires 0 <= k < |h|
  {
    Next(h, k, if i < n then Sent(Rcpt(i))
               else if MailNotRefused(h[..k + 1]) && SomeRcptAccepted(h[..k + 1], n) then Sent(Data) else Sent(Quit))
  }

  ghost predicate Diligent(opts: Options, req: Request, h: History) {
    var wantsTls := opts.startTls || opts.requireValidCert;
    && Greets(wantsTls, h) && Encrypts(opts.requireValidCert, h)
    && Begins(wantsTls, opts.requireValidCert, EnvelopeIsInternationalized(req), h)
    && Transacts(|req.recipients|, h)
  }

  // In a finished run the step that is due follows.
  lemma DueFollows(p: Plan, h: History, k: nat)
    requires Conforms(p, h) && Finished(p, h) && k < |h| && Turn(h[..k + 1])
    ensures match Due(p, h[..k + 1])
            case Say(c) => Next(h, k, Sent(c))
            case Shake => Next(h, k, Upgraded(p.enforce)) || Next(h, k, UpgradeFailed)
            case Rest => |h| == k + 1
  {
    if k + 1 == |h| {
      assert h[..k + 1] == h;
    } else {
      ConformsAt(p, h, k + 1);
    }
  }

  lemma AnswerIsDue(p: Plan, h: History, k: nat, c: Command, r: ReadResult)
    requires AnswerAt(h, k, c, r) && !r.Fault?
    ensures Turn(h[..k + 1]) && Due(p, h[..k + 1]) == DueAfter(p, h[..k + 1], c, r)
  {
    assert h[..k + 1] == h[..k - 1] + [Sent(c)] + [Got(r)];
  }

  // The first EHLO is answered in the clear, a second one over TLS.
  lemma EncryptedFromSecondEhlo(p: Plan, h: History, k: nat, r: ReadResult)
    requires Conforms(p, h) && AnswerAt(h, k, Ehlo, r)
    ensures k >= 2 && (Encrypted(h[..k + 1]) <==> k > 2)
  {
    ConformsAt(p, h, 0);
    ConformsAt(p, h, k - 1);
    if k > 2 {
      assert h[..k + 1][k - 2] == h[..k - 1][k - 2];
    } else {
      assert h[..k + 1] == [h[0], Sent(Ehlo), Got(r)];
    }
  }

  lemma FinishedGreets(p: Plan, h: History)
    requires Conforms(p, h) && Finished(p, h)
    ensures Greets(p.wantsTls, h)
  {
    if h != [] && h[0].Got? && !h[0].read.Fault? {
      DueFollows(p, h, 0);
    }
    forall r | AnswerAt(h, 2, Ehlo, r) && !r.Fault? && (!Is2yz(r) || (p.wantsTls && OffersTls(r)))
      ensures Next(h, 2, Sent(if Is2yz(r) then StartTls else Helo)) {
      EncryptedFromSecondEhlo(p, h, 2, r);
      AnswerIsDue(p, h, 2, Ehlo, r);
      DueFollows(p, h, 2);
    }
  }

  lemma FinishedEncrypts(p: Plan, h: History)
    requires Conforms(p, h) && Finished(p, h)
    ensures Encrypts(p.enforce, h)
  {
    forall k, r | AnswerAt(h, k, StartTls, r) && Is2yz(r)
      ensures Next(h, k, Upgraded(p.enforce)) || Next(h, k, UpgradeFailed) {
      AnswerIsDue(p, h, k, StartTls, r);
      DueFollows(p, h, k);
    }
    forall k: nat | k < |h| && h[k].Upgraded? ensures Next(h, k, Sent(Ehlo)) {
      DueFollows(p, h, k);
    }
  }

  lemma OpenedIsDue(p: Plan, h: History, k: nat, r: ReadResult)
    requires Conforms(p, h) && OpensAt(p.wantsTls, h, k, r)
    ensures Turn(h[..k + 1]) && Due(p, h[..k + 1]) == Begin(p, h[..k + 1])
  {
    var c := h[k - 1].command;
    AnswerIsDue(p, h, k, c, r);
    if c.Ehlo? {
      EncryptedFromSecondEhlo(p, h, k, r);
    }
  }

  lemma FinishedBegins(p: Plan, h: History)
    requires Conforms(p, h) && Finished(p, h)
    ensures Begins(p.wantsTls, p.enforce, p.international, h)
  {
    forall k, r | OpensAt(p.wantsTls, h, k, r)
      ensures if p.enforce && Upgraded(true) !in h[..k] then |h| == k + 1
              else Next(h, k, Sent(if p.international then Quit else Mail)) {
      OpenedIsDue(p, h, k, r);
      DueFollows(p, h, k);
      assert h[..k + 1] == h[..k] + [Got(r)];
    }
  }

  lemma RecipientIsDue(p: Plan, h: History, k: nat, i: nat)
    requires Conforms(p, h) && Finished(p, h) && k < |h| && Turn(h[..k + 1])
    requires Due(p, h[..k + 1]) == AfterRecipients(p, h[..k + 1], i)
    ensures RecipientOrEnd(p.n, h, k, i)
  {
    DueFollows(p, h, k);
  }

  lemma FinishedNames(p: Plan, h: History)
    requires Conforms(p, h) && Finished(p, h)
    ensures forall k, r :: AnswerAt(h, k, Mail, r) && !r.Fault? ==> RecipientOrEnd(p.n, h, k, 0)
    ensures forall k, i: nat, r :: AnswerAt(h, k, Rcpt(i), r) && !r.Fault? ==> RecipientOrEnd(p.n, h, k, i + 1)
  {
    forall k, r | AnswerAt(h, k, Mail, r) && !r.Fault? ensures RecipientOrEnd(p.n, h, k, 0) {
      AnswerIsDue(p, h, k, Mail, r);
      RecipientIsDue(p, h, k, 0);
    }
    forall k, i: nat, r | AnswerAt(h, k, Rcpt(i), r) && !r.Fault? ensures RecipientOrEnd(p.n, h, k, i + 1) {
      AnswerIsDue(p, h, k, Rcpt(i), r);
      RecipientIsDue(p, h, k, i + 1);
    }
  }

  lemma FinishedTransacts(p: Plan, h: History)
    requires Conforms(p, h) && Finished(p, h)
    ensures Transacts(p.n, h)
  {
    FinishedNames(p, h);
    forall k, r | AnswerAt(h, k, Data, r) && !r.Fault?
      ensures Next(h, k, Sent(if CodeOf(r) == Some(354) then Body else Quit)) {
      AnswerIsDue(p, h, k, Data, r);
      DueFollows(p, h, k);
    }
    forall k, r | AnswerAt(h, k, EndOfData, r) && !r.Fault? ensures Next(h, k, Sent(Quit)) {
      AnswerIsDue(p, h, k, EndOfData, r);
      DueFollows(p, h, k);
    }
  }

  // Whatever conforms to the end is diligent.
  lemma FinishedIsDiligent(opts: Options, req: Request, p: Plan, h: History)
    requires p == PlanOf(opts, req) && Conforms(p, h) && Finished(p, h)
    ensures Diligent(opts, req, h)
  {
    FinishedGreets(p, h);
    FinishedEncrypts(p, h);
    FinishedBegins(p, h);
    FinishedTransacts(p, h);
  }

  // ---- The client ----

  lemma ExchangeConforms(p: Plan, h: History, c: Command, r: ReadResult)
    requires Conforms(p, h) && SendPermitted(p, h, c) && !c.Body?
    ensures Conforms(p, h + [Sent(c)])
    ensures Conforms(p, h + [Sent(c)] + [Got(r)])
    ensures Heard(h + [Sent(c)] + [Got(r)], c, r)
  {
    OneMore(p, h, Sent(c));
    OneMore(p, h + [Sent(c)], Got(r));
    HeardNow(h + [Sent(c)], c, r);
  }

  // Sends a command and reads its answer; None if either step threw.
  method Exchange(wire: Wire, c: Command, ghost p: Plan) returns (r: Option<ReadResult>)
    requires Conforms(p, wire.transcript) && SendPermitted(p, wire.transcript, c) && !c.Body?
    modifies wire
    ensures Conforms(p, wire.transcript)
    ensures r.Some? ==>
              && !r.value.Fault? && Heard(wire.transcript, c, r.value)
              && wire.transcript == old(wire.transcript) + [Sent(c)] + [Got(r.value)]
    ensures r.None? ==>
              || wire.transcript == old(wire.transcript) + [Sent(c)]
              || wire.transcript == old(wire.transcript) + [Sent(c)] + [Got(Fault)]
  {
    ghost var h := wire.transcript;
    ExchangeConforms(p, h, c, Silence);
    var ok := wire.Send(c);
    if !ok {
      return None;
    }
    var read := wire.Read();
    ExchangeConforms(p, h, c, read);
    r := if read.Fault? then None else Some(read);
  }

  // The opening of a session: the client may go on, or the delivery is over.
  datatype Opening = Over(outcome: Outcome) | Ready(greetingCode: int, verb: Verb, heloFellBack: bool)

  // Nothing of a transaction, nor QUIT, has been sent.
  ghost predicate Untouched(h: History) {
    forall c: Command :: IsTransaction(c) || c.Quit? ==> Sent(c) !in h
  }

  ghost predicate NoTransaction(h: History) {
    forall c: Command :: IsTransaction(c) ==> Sent(c) !in h
  }

  // A result that claims nothing of a message.
  predicate Unsent(r: DeliveryResult) {
    !r.ok && !r.sentData && !r.dataIndeterminate && r.dataCode.None?
  }

  // A result that claims nothing of a transaction.
  predicate NothingSent(r: DeliveryResult) {
    Unsent(r) && r.rcptCodes == [] && r.mailCode.None?
  }

  // The last greeting by name failed: it could not be sent or read, or was not answered by a 2yz.
  predicate HelloFailed(h: History) {
    h != [] && (h[|h| - 1] == Sent(Ehlo)
                || (|h| >= 2 && h[|h| - 1].Got? && !Is2yz(h[|h| - 1].read)
                    && (h[|h| - 2] == Sent(Ehlo) || h[|h| - 2] == Sent(Helo))))
  }

  predicate GreetingRefused(h: History) {
    h != [] && h[0].Got? && !Is2yz(h[0].read)
  }

  // The session cannot be used: why a delivery may end before its transaction.
  predicate Unusable(enforce: bool, h: History) {
    GreetingRefused(h) || HelloFailed(h) || UpgradeFailed in h || (enforce && Upgraded(true) !in h)
  }

  // The run stopped at a write or a read that threw.
  predicate Broken(h: History) {
    h != [] && (h[|h| - 1].Sent? || h[|h| - 1] == Got(Fault))
  }

  // What the result says of the opening is what the transcript holds.
  predicate OpeningTold(h: History, r: DeliveryResult) {
    && h != [] && h[0].Got? && r.greetingCode == CodeOf(h[0].read)
    && r.openingVerb == (if |h| > 1 && h[1] == Sent(Ehlo) then Some(EhloVerb) else None)
    && (r.heloFellBack <==> |h| > 4 && h[3] == Sent(Helo) && h[4].Got? && Is2yz(h[4].read))
  }

  function Greeted(greetingCode: int, verb: Verb, heloFellBack: bool): DeliveryResult {
    BASE.(greetingCode := Some(greetingCode), openingVerb := Some(verb), heloFellBack := heloFellBack)
  }

  // What the opening guarantees to the rest of the session, whichever way it went.
  ghost predicate Opened(p: Plan, h: History, o: Opening) {
    && Conforms(p, h)
    && match o
       case Over(Threw) => NoTransaction(h) && Broken(h)
       case Over(Returned(r)) => NoTransaction(h) && EndedEarly(p, h, r) && NothingSent(r) && Unusable(p.enforce, h)
       case Ready(code, verb, fell) => MayBegin(p, h) && OpeningTold(h, Greeted(code, verb, fell))
  }

  ghost predicate EndedEarly(p: Plan, h: History, r: DeliveryResult) {
    Finished(p, h) && OpeningTold(h, r) && (r.quit <==> Sent(Quit) in h)
  }

  // The transaction is due, or the end for want of encryption.
  ghost predicate MayBegin(p: Plan, h: History) {
    && Idle(h) && Turn(h) && Due(p, h) == Begin(p, h)
    && |h| in {3, 5, 8} && Untouched(h) && HelloAccepted(h)
  }

  // The first exchange, then the second, of an opening.
  function Hello(g: ReadResult, e: ReadResult): History {
    [Got(g)] + [Sent(Ehlo)] + [Got(e)]
  }

  function Replied(h: History, c: Command, r: ReadResult): History {
    h + [Sent(c)] + [Got(r)]
  }

  lemma DueIs(p: Plan, h: History, c: Command, r: ReadResult)
    requires !r.Fault?
    ensures Turn(Replied(h, c, r)) && Due(p, Replied(h, c, r)) == DueAfter(p, Replied(h, c, r), c, r)
  {
  }

  lemma HelloIsClear(g: ReadResult, e: ReadResult)
    ensures !Encrypted(Hello(g, e)) && Untouched(Hello(g, e)) && Sent(Helo) !in Hello(g, e)
            && Sent(StartTls) !in Hello(g, e)
    ensures Upgraded(true) !in Hello(g, e) && Hello(g, e) == [Got(g), Sent(Ehlo), Got(e)]
  {
    assert Hello(g, e) == [Got(g), Sent(Ehlo), Got(e)];
  }

  // Over the encrypted session.
  method HelloAgain(wire: Wire, ghost p: Plan, ghost h: History) returns (ok: bool)
    requires |h| == 5 && wire.transcript == h + [Upgraded(p.enforce)] && Conforms(p, wire.transcript)
    requires Untouched(h)
    modifies wire
    ensures Conforms(p, wire.transcript) && h <= wire.transcript && NoTransaction(wire.transcript)
    ensures Sent(Quit) !in wire.transcript
    ensures if ok then MayBegin(p, wire.transcript) else HelloFailed(wire.transcript) && Finished(p, wire.transcript)
  {
    ghost var before := wire.transcript;
    var reEhlo := Exchange(wire, Ehlo, p);
    ok := reEhlo.Some? && Is2yz(reEhlo.value);
    if reEhlo.Some? {
      AgainIsDue(p, h, reEhlo.value);
    }
  }

  lemma AgainIsDue(p: Plan, h: History, r: ReadResult)
    requires !r.Fault?
    ensures var later := Replied(h + [Upgraded(p.enforce)], Ehlo, r);
            Turn(later) && Due(p, later) == if Is2yz(r) then Begin(p, later) else Rest
  {
    var later := Replied(h + [Upgraded(p.enforce)], Ehlo, r);
    DueIs(p, h + [Upgraded(p.enforce)], Ehlo, r);
    assert later[|h|] == Upgraded(p.enforce);
  }

  // The handshake and the second EHLO; a throw on the way is caught and reads as failure.
  method Handshake(wire: Wire, validate: bool, ghost p: Plan) returns (ok: bool)
    requires validate == p.enforce && |wire.transcript| == 5
    requires Conforms(p, wire.transcript) && Untouched(wire.transcript)
    requires Answered(wire.transcript, StartTls) && Is2yz(LastRead(wire.transcript))
    modifies wire
    ensures Conforms(p, wire.transcript) && old(wire.transcript) <= wire.transcript
    ensures NoTransaction(wire.transcript) && Sent(Quit) !in wire.transcript
    ensures if ok then MayBegin(p, wire.transcript)
            else Finished(p, wire.transcript) && (UpgradeFailed in wire.transcript || HelloFailed(wire.transcript))
  {
    ghost var before := wire.transcript;
    ok := wire.Upgrade(validate);
    OneMore(p, before, if ok then Upgraded(validate) else UpgradeFailed);
    if ok {
      ok := HelloAgain(wire, p, before);
    }
  }

  method Secure(wire: Wire, opts: Options, greetingCode: int, ghost p: Plan, ghost g: ReadResult, ghost e: ReadResult)
    returns (o: Opening)
    requires wire.transcript == Hello(g, e) && Conforms(p, wire.transcript)
    requires p.enforce == opts.requireValidCert && p.wantsTls && CodeOf(g) == Some(greetingCode)
    requires Is2yz(e) && e.reply.advertisesStartTls
    modifies wire
    ensures Opened(p, wire.transcript, o)
  {
    var refused := Over(Returned(Greeted(greetingCode, EhloVerb, false)));
    HelloIsClear(g, e);
    StartTlsIsDue(p, g, e);
    var go := Exchange(wire, StartTls, p);
    if go.None? {
      return Over(Threw);
    }
    StartTlsAnswered(p, g, e, go.value);
    if Is2yz(go.value) {
      var ok := Handshake(wire, opts.requireValidCert, p);
      return if ok then Ready(greetingCode, EhloVerb, false) else refused;
    }
    if opts.requireValidCert {
      return refused;
    }
    o := Ready(greetingCode, EhloVerb, false);
  }

  lemma StartTlsIsDue(p: Plan, g: ReadResult, e: ReadResult)
    requires p.wantsTls && Is2yz(e) && e.reply.advertisesStartTls
    ensures SendPermitted(p, Hello(g, e), StartTls)
  {
    HelloIsClear(g, e);
    DueIs(p, [Got(g)], Ehlo, e);
  }

  lemma StartTlsAnswered(p: Plan, g: ReadResult, e: ReadResult, r: ReadResult)
    requires Is2yz(e) && !r.Fault?
    ensures var h := Replied(Hello(g, e), StartTls, r);
            && Untouched(h) && HelloAccepted(h) && Upgraded(true) !in h
            && h[..3] == Hello(g, e) && h[3] == Sent(StartTls)
            && Turn(h) && (!Is2yz(r) ==> Due(p, h) == Begin(p, h))
  {
    var h := Replied(Hello(g, e), StartTls, r);
    HelloIsClear(g, e);
    DueIs(p, Hello(g, e), StartTls, r);
    assert h == [Got(g), Sent(Ehlo), Got(e), Sent(StartTls), Got(r)];
    assert HeardAt(h, 1, Ehlo, e);
  }

  lemma Begun(p: Plan, g: ReadResult)
    ensures Conforms(p, [Got(g)])
  {
    assert [Got(g)][..0] == [];
  }

  lemma TurnedAway(p: Plan, g: ReadResult)
    requires !Is2yz(g) && !g.Fault?
    ensures var h := [Got(g)] + [Sent(Quit)];
            && Opened(p, h, Over(Returned(BASE.(greetingCode := CodeOf(g), quit := true))))
            && Opened(p, h, Over(Threw))
  {
    var h := [Got(g)] + [Sent(Quit)];
    Begun(p, g);
    OneMore(p, [Got(g)], Sent(Quit));
    assert h == [Got(g), Sent(Quit)];
  }

  // The greeting, EHLO with HELO as the fallback, and STARTTLS.
  method Open(wire: Wire, opts: Options, ghost p: Plan) returns (o: Opening)
    requires wire.transcript == []
    requires p.enforce == opts.requireValidCert && (p.wantsTls <==> opts.startTls || opts.requireValidCert)
    modifies wire
    ensures Opened(p, wire.transcript, o)
  {
    var greeting := wire.Read();
    Begun(p, greeting);
    assert wire.transcript == [Got(greeting)];
    if greeting.Fault? {
      return Over(Threw);
    }
    if !Is2yz(greeting) {
      TurnedAway(p, greeting);
      var ok := wire.Send(Quit);
      return Over(if ok then Returned(BASE.(greetingCode := CodeOf(greeting), quit := true)) else Threw);
    }
    o := SayHello(wire, opts, greeting.reply.code, p, greeting);
  }

  // HELO after a refused EHLO.
  method FallBack(wire: Wire, greetingCode: int, ghost p: Plan, ghost g: ReadResult, ghost e: ReadResult)
    returns (o: Opening)
    requires wire.transcript == Hello(g, e) && Conforms(p, wire.transcript)
    requires CodeOf(g) == Some(greetingCode) && !Is2yz(e) && !e.Fault?
    modifies wire
    ensures Opened(p, wire.transcript, o)
  {
    HelloIsClear(g, e);
    HeloIsDue(p, g, e);
    var helo := Exchange(wire, Helo, p);
    if helo.None? {
      return Over(Threw);
    }
    HeloAnswered(p, g, e, helo.value);
    if !Is2yz(helo.value) {
      return Over(Returned(Greeted(greetingCode, EhloVerb, false)));
    }
    o := Ready(greetingCode, EhloVerb, true);
  }

  lemma HeloIsDue(p: Plan, g: ReadResult, e: ReadResult)
    requires !Is2yz(e) && !e.Fault?
    ensures SendPermitted(p, Hello(g, e), Helo)
  {
    HelloIsClear(g, e);
    DueIs(p, [Got(g)], Ehlo, e);
  }

  lemma HeloAnswered(p: Plan, g: ReadResult, e: ReadResult, r: ReadResult)
    requires !r.Fault?
    ensures var h := Replied(Hello(g, e), Helo, r);
            && Untouched(h) && (Is2yz(r) ==> HelloAccepted(h)) && h[..3] == Hello(g, e) && h[3] == Sent(Helo)
            && Turn(h) && Due(p, h) == if Is2yz(r) then Begin(p, h) else Rest
  {
    var h := Replied(Hello(g, e), Helo, r);
    DueIs(p, Hello(g, e), Helo, r);
    assert h == [Got(g), Sent(Ehlo), Got(e), Sent(Helo), Got(r)];
    assert HeardAt(h, 3, Helo, r);
  }

  method SayHello(wire: Wire, opts: Options, greetingCode: int, ghost p: Plan, ghost g: ReadResult) returns (o: Opening)
    requires p.enforce == opts.requireValidCert && (p.wantsTls <==> opts.startTls || opts.requireValidCert)
    requires wire.transcript == [Got(g)] && Conforms(p, wire.transcript) && Is2yz(g) && CodeOf(g) == Some(greetingCode)
    modifies wire
    ensures Opened(p, wire.transcript, o)
  {
    var refused := Over(Returned(Greeted(greetingCode, EhloVerb, false)));
    var ehlo := Exchange(wire, Ehlo, p);
    if ehlo.None? {
      return Over(Threw);
    }
    if !Is2yz(ehlo.value) {
      o := FallBack(wire, greetingCode, p, g, ehlo.value);
      return;
    }
    if (opts.startTls || opts.requireValidCert) && ehlo.value.reply.advertisesStartTls {
      o := Secure(wire, opts, greetingCode, p, g, ehlo.value);
      return;
    }
    HelloIsAnswered(p, g, ehlo.value);
    if opts.requireValidCert {
      return refused;
    }
    o := Ready(greetingCode, EhloVerb, false);
  }

  lemma HelloIsAnswered(p: Plan, g: ReadResult, e: ReadResult)
    requires Is2yz(e) && !(p.wantsTls && e.reply.advertisesStartTls)
    ensures var h := Hello(g, e);
            && Untouched(h) && HelloAccepted(h) && Upgraded(true) !in h && Turn(h) && Due(p, h) == Begin(p, h)
  {
    HelloIsClear(g, e);
    DueIs(p, [Got(g)], Ehlo, e);
    assert HeardAt(Hello(g, e), 1, Ehlo, e);
  }

  lemma {:induction false} UpgradesAsDemanded(p: Plan, h: History, i: nat)
    requires Conforms(p, h) && i < |h| && h[i].Upgraded?
    ensures h[i] == Upgraded(p.enforce)
  {
    ConformsAt(p, h, i);
  }

  // Neither DATA nor what follows it has been sent.
  ghost predicate NoMessage(h: History) {
    Sent(Data) !in h && Sent(Body) !in h && Sent(EndOfData) !in h && Sent(Quit) !in h
  }

  ghost predicate Secured(enforce: bool, h: History) {
    enforce ==> Upgraded(true) in h
  }

  ghost predicate CodesHeard(h: History, codes: seq<int>) {
    forall i: nat :: i < |codes| ==> RcptHeard(h, i, codes[i])
  }

  lemma CodesStand(h: History, codes: seq<int>, e: Event)
    requires CodesHeard(h, codes)
    ensures CodesHeard(h + [e], codes)
  {
    forall i: nat | i < |codes| ensures RcptHeard(h + [e], i, codes[i]) {
      var r :| Heard(h, Rcpt(i), r) && CodeOrZero(r) == codes[i];
      HeardLater(h, e, Rcpt(i), r);
    }
  }

  // The first i recipients have been named and answered.
  ghost predicate MidEnvelope(p: Plan, h: History, i: nat, mail: ReadResult, codes: seq<int>) {
    && NoMessage(h) && Secured(p.enforce, h)
    && Answered(h, if i == 0 then Mail else Rcpt(i - 1)) && Turn(h)
    && (forall j: nat :: i <= j ==> Sent(Rcpt(j)) !in h)
    && Heard(h, Mail, mail)
    && |codes| == i && CodesHeard(h, codes)
  }

  lemma NextRecipient(p: Plan, h: History, i: nat, mail: ReadResult, codes: seq<int>, read: ReadResult)
    requires MidEnvelope(p, h, i, mail, codes) && !read.Fault?
    requires Heard(h + [Sent(Rcpt(i))] + [Got(read)], Rcpt(i), read)
    ensures MidEnvelope(p, h + [Sent(Rcpt(i))] + [Got(read)], i + 1, mail, codes + [CodeOrZero(read)])
  {
    var h1 := h + [Sent(Rcpt(i))];
    var h2 := h1 + [Got(read)];
    HeardLater(h, Sent(Rcpt(i)), Mail, mail);
    HeardLater(h1, Got(read), Mail, mail);
    CodesStand(h, codes, Sent(Rcpt(i)));
    CodesStand(h1, codes, Got(read));
    assert RcptHeard(h2, i, CodeOrZero(read));
  }

  lemma MidIsDue(p: Plan, h: History, i: nat, mail: ReadResult, codes: seq<int>)
    requires MidEnvelope(p, h, i, mail, codes)
    ensures Due(p, h) == AfterRecipients(p, h, i)
  {
  }

  lemma MayNameRecipient(p: Plan, h: History, i: nat, mail: ReadResult, codes: seq<int>)
    requires i < p.n && MidEnvelope(p, h, i, mail, codes)
    ensures SendPermitted(p, h, Rcpt(i))
  {
    MidIsDue(p, h, i, mail, codes);
  }

  // One RCPT and its answer; `code` is None if a step threw.
  method NameRecipient(wire: Wire, i: nat, ghost p: Plan, ghost mail: ReadResult, ghost codes: seq<int>)
    returns (code: Option<int>)
    requires i < p.n && Conforms(p, wire.transcript) && MidEnvelope(p, wire.transcript, i, mail, codes)
    modifies wire
    ensures Conforms(p, wire.transcript) && NoMessage(wire.transcript) && old(wire.transcript) <= wire.transcript
    ensures code.None? ==> Broken(wire.transcript)
    ensures code.Some? ==> MidEnvelope(p, wire.transcript, i + 1, mail, codes + [code.value])
  {
    ghost var h := wire.transcript;
    MayNameRecipient(p, h, i, mail, codes);
    var rr := Exchange(wire, Rcpt(i), p);
    if rr.None? {
      return None;
    }
    NextRecipient(p, h, i, mail, codes, rr.value);
    code := Some(CodeOrZero(rr.value));
  }

  method NameRecipients(wire: Wire, req: Request, ghost p: Plan, ghost mail: ReadResult)
    returns (codes: Option<seq<int>>)
    requires p.n == |req.recipients| && Conforms(p, wire.transcript) && MidEnvelope(p, wire.transcript, 0, mail, [])
    modifies wire
    ensures Conforms(p, wire.transcript) && NoMessage(wire.transcript) && old(wire.transcript) <= wire.transcript
    ensures codes.None? ==> Broken(wire.transcript)
    ensures codes.Some? ==> MidEnvelope(p, wire.transcript, p.n, mail, codes.value)
  {
    var rcptCodes: seq<int> := [];
    for i := 0 to |req.recipients|
      invariant Conforms(p, wire.transcript) && old(wire.transcript) <= wire.transcript
      invariant MidEnvelope(p, wire.transcript, i, mail, rcptCodes)
    {
      var code := NameRecipient(wire, i, p, mail, rcptCodes);
      if code.None? {
        return None;
      }
      rcptCodes := rcptCodes + [code.value];
    }
    codes := Some(rcptCodes);
  }

  lemma EnvelopeBegun(p: Plan, h: History, mail: ReadResult)
    requires Untouched(h) && Secured(p.enforce, h) && !mail.Fault?
    requires Heard(h + [Sent(Mail)] + [Got(mail)], Mail, mail)
    ensures MidEnvelope(p, h + [Sent(Mail)] + [Got(mail)], 0, mail, [])
  {
  }

  lemma NothingOfMessage(h: History, later: History)
    requires Untouched(h)
    requires later == h + [Sent(Mail)] || later == h + [Sent(Mail)] + [Got(Fault)]
    ensures NoMessage(later)
  {
  }

  // MAIL and every RCPT, one after the other; `mail` is None if a step threw.
  method SendEnvelope(wire: Wire, req: Request, ghost p: Plan)
    returns (mail: Option<ReadResult>, rcptCodes: seq<int>)
    requires p.n == |req.recipients| && !p.international
    requires Conforms(p, wire.transcript) && Secured(p.enforce, wire.transcript) && MayBegin(p, wire.transcript)
    modifies wire
    ensures Conforms(p, wire.transcript) && NoMessage(wire.transcript) && old(wire.transcript) <= wire.transcript
    ensures mail.None? ==> Broken(wire.transcript)
    ensures mail.Some? ==> MidEnvelope(p, wire.transcript, p.n, mail.value, rcptCodes)
  {
    ghost var h := wire.transcript;
    rcptCodes := [];
    mail := Exchange(wire, Mail, p);
    if mail.None? {
      NothingOfMessage(h, wire.transcript);
      return;
    }
    EnvelopeBegun(p, h, mail.value);
    var codes := NameRecipients(wire, req, p, mail.value);
    if codes.None? {
      mail := None;
      return;
    }
    rcptCodes := codes.value;
  }

  // How the outcome of a delivery reads on the transcript.
  ghost predicate Faithful(h: History, n: nat, o: Outcome) {
    && (o.Returned? ==>
          var r := o.result;
          && (r.ok <==> exists reply :: Heard(h, EndOfData, reply) && Is2yz(reply))
          && (r.dataIndeterminate <==> Heard(h, EndOfData, Silence))
          && (r.sentData <==> Sent(EndOfData) in h)
          && (r.sentData ==> |r.rcptCodes| == n && CodesHeard(h, r.rcptCodes))
          && (!r.sentData ==> Unsent(r)))
    && (o.Threw? ==> forall reply :: Heard(h, EndOfData, reply) ==> reply.Fault?)
  }

  // The codes reported for MAIL and for every recipient are the ones heard.
  ghost predicate EnvelopeTold(h: History, n: nat, mail: ReadResult, r: DeliveryResult) {
    Heard(h, Mail, mail) && r.mailCode == CodeOf(mail) && |r.rcptCodes| == n && CodesHeard(h, r.rcptCodes)
  }

  // The envelope was refused: MAIL by a 5yz, or every recipient.
  predicate EnvelopeRefused(mail: ReadResult, codes: seq<int>) {
    Is5yz(mail) || !AnyAccepted(codes)
  }

  // Why a transaction ended: a refused envelope, a DATA not answered by 354, or the final reply, or its absence.
  ghost predicate TransactionEnded(h: History, n: nat, r: DeliveryResult) {
    exists mail :: EnvelopeTold(h, n, mail, r)
                   && (EnvelopeRefused(mail, r.rcptCodes) || DataRefused(h) || FinalTold(h, r))
  }

  ghost predicate DataRefused(h: History) {
    exists d :: Heard(h, Data, d) && CodeOf(d) != Some(354)
  }

  ghost predicate FinalTold(h: History, r: DeliveryResult) {
    r.sentData && exists f :: Heard(h, EndOfData, f) && r.dataCode == CodeOf(f)
  }

  // A delivery ends for a reason that stands on the transcript: no step is left out without one.
  ghost predicate Justified(h: History, req: Request, enforce: bool, o: Outcome) {
    match o
    case Threw => Broken(h)
    case Returned(r) =>
      || (NothingSent(r) && (Unusable(enforce, h) || EnvelopeIsInternationalized(req)))
      || TransactionEnded(h, |req.recipients|, r)
  }

  // The end of a transaction: it threw, or its result tells how it went.
  ghost predicate TransactionOver(p: Plan, h: History, base: DeliveryResult, o: Outcome) {
    && Faithful(h, p.n, o)
    && if o.Threw? then Broken(h)
       else && TransactionEnded(h, p.n, o.result) && h != [] && h[|h| - 1] == Sent(Quit) && o.result.quit
            && SameOpening(o.result, base)
  }

  predicate SameOpening(r: DeliveryResult, base: DeliveryResult) {
    r.greetingCode == base.greetingCode && r.openingVerb == base.openingVerb && r.heloFellBack == base.heloFellBack
  }

  lemma EnvelopeStands(h: History, n: nat, mail: ReadResult, r: DeliveryResult, e: Event)
    requires EnvelopeTold(h, n, mail, r)
    ensures EnvelopeTold(h + [e], n, mail, r)
  {
    HeardLater(h, e, Mail, mail);
    CodesStand(h, r.rcptCodes, e);
  }

  lemma {:induction false} HeardOnce(p: Plan, h: History, c: Command, r: ReadResult, s: ReadResult)
    requires Conforms(p, h) && !c.Ehlo? && Heard(h, c, r) && Heard(h, c, s)
    ensures r == s
  {
    var i :| HeardAt(h, i, c, r);
    var j :| HeardAt(h, j, c, s);
    if i < j {
      NothingTwice(p, h, i, j);
    } else if j < i {
      NothingTwice(p, h, j, i);
    }
  }

  lemma UnsentUnheard(h: History, c: Command)
    requires Sent(c) !in h
    ensures forall r :: !Heard(h, c, r)
  {
    assert forall i :: 0 <= i < |h| ==> h[i] in h;
  }

  // Behind a 354 the message goes out, and then its end.
  lemma MayTransmit(p: Plan, h: History)
    requires Conforms(p, h) && Secured(p.enforce, h) && Answered(h, Data) && CodeOf(LastRead(h)) == Some(354)
    requires Sent(Body) !in h && Sent(EndOfData) !in h
    ensures Conforms(p, h + [Sent(Body)]) && SendPermitted(p, h + [Sent(Body)], EndOfData)
  {
    OneMore(p, h, Sent(Body));
  }

  // The message, its end, the wait for the final reply, and a QUIT whose failure changes nothing.
  method SendMessage(wire: Wire, base: DeliveryResult, ghost p: Plan, ghost mail: ReadResult) returns (o: Outcome)
    requires Conforms(p, wire.transcript) && Secured(p.enforce, wire.transcript)
    requires Answered(wire.transcript, Data) && CodeOf(LastRead(wire.transcript)) == Some(354)
    requires Sent(Body) !in wire.transcript && Sent(EndOfData) !in wire.transcript && Sent(Quit) !in wire.transcript
    requires EnvelopeTold(wire.transcript, p.n, mail, base)
    modifies wire
    ensures Conforms(p, wire.transcript) && old(wire.transcript) <= wire.transcript
    ensures TransactionOver(p, wire.transcript, base, o)
  {
    ghost var h0 := wire.transcript;
    MayTransmit(p, h0);
    var sent := wire.Send(Body);
    if !sent {
      UnsentUnheard(wire.transcript, EndOfData);
      return Threw;
    }
    ghost var h1 := wire.transcript;
    var finalReply := Exchange(wire, EndOfData, p);
    if finalReply.None? {
      FinalReplyThrown(p, h1, wire.transcript);
      return Threw;
    }
    o := Conclude(wire, base, p, h0, mail, finalReply.value);
  }

  // The result after the final reply, and a QUIT whose failure changes nothing.
  method Conclude(wire: Wire, base: DeliveryResult, ghost p: Plan, ghost h: History, ghost mail: ReadResult,
      final: ReadResult)
    returns (o: Outcome)
    requires wire.transcript == h + [Sent(Body)] + [Sent(EndOfData)] + [Got(final)]
    requires Conforms(p, wire.transcript) && Sent(Quit) !in wire.transcript
    requires EnvelopeTold(h, p.n, mail, base) && Heard(wire.transcript, EndOfData, final) && !final.Fault?
    modifies wire
    ensures Conforms(p, wire.transcript) && old(wire.transcript) <= wire.transcript
    ensures o.Returned? && TransactionOver(p, wire.transcript, base, o)
  {
    ghost var h2 := wire.transcript;
    DueIs(p, h + [Sent(Body)], EndOfData, final);
    OneMore(p, h2, Sent(Quit));
    var _ := wire.Send(Quit);
    EnvelopeOutlasts(h, p.n, mail, base, final);
    HeardLater(h2, Sent(Quit), EndOfData, final);
    forall r | Heard(wire.transcript, EndOfData, r) ensures r == final {
      HeardOnce(p, wire.transcript, EndOfData, r, final);
    }
    o := Returned(base.(
      sentData := true,
      dataCode := CodeOf(final),
      dataIndeterminate := final.Silence?,
      quit := true,
      ok := Is2yz(final)));
    EndedSent(wire.transcript, p.n, mail, o.result, final);
  }

  lemma EnvelopeOutlasts(h: History, n: nat, mail: ReadResult, r: DeliveryResult, f: ReadResult)
    requires EnvelopeTold(h, n, mail, r)
    ensures EnvelopeTold(h + [Sent(Body)] + [Sent(EndOfData)] + [Got(f)] + [Sent(Quit)], n, mail, r)
  {
    EnvelopeStands(h, n, mail, r, Sent(Body));
    EnvelopeStands(h + [Sent(Body)], n, mail, r, Sent(EndOfData));
    EnvelopeStands(h + [Sent(Body)] + [Sent(EndOfData)], n, mail, r, Got(f));
    EnvelopeStands(h + [Sent(Body)] + [Sent(EndOfData)] + [Got(f)], n, mail, r, Sent(Quit));
  }

  lemma EndedSent(h: History, n: nat, mail: ReadResult, r: DeliveryResult, f: ReadResult)
    requires EnvelopeTold(h, n, mail, r) && r.sentData && Heard(h, EndOfData, f) && r.dataCode == CodeOf(f)
    ensures TransactionEnded(h, n, r)
  {
    assert FinalTold(h, r);
  }

  lemma FinalReplyThrown(p: Plan, h: History, later: History)
    requires Conforms(p, later) && Sent(EndOfData) !in h
    requires later == h + [Sent(EndOfData)] || later == h + [Sent(EndOfData)] + [Got(Fault)]
    ensures forall r :: Heard(later, EndOfData, r) ==> r.Fault?
  {
    assert forall i :: 0 <= i < |h| ==> h[i] in h && later[i] == h[i];
  }

  predicate AnyAccepted(codes: seq<int>) {
    exists i :: 0 <= i < |codes| && 200 <= codes[i] < 300
  }

  lemma MayAskForData(p: Plan, h: History, mail: ReadResult, codes: seq<int>)
    requires MidEnvelope(p, h, p.n, mail, codes) && !Is5yz(mail) && AnyAccepted(codes)
    ensures SendPermitted(p, h, Data)
  {
    MidIsDue(p, h, p.n, mail, codes);
    var i :| 0 <= i < |codes| && 200 <= codes[i] < 300;
    assert RcptHeard(h, i, codes[i]);
    forall j: nat | j < |codes| ensures RcptAnswered(h, j) {
      assert RcptHeard(h, j, codes[j]);
    }
  }

  // A refused envelope leaves nothing to do but QUIT.
  lemma MayQuit(p: Plan, h: History, mail: ReadResult, codes: seq<int>)
    requires Conforms(p, h) && MidEnvelope(p, h, p.n, mail, codes) && EnvelopeRefused(mail, codes)
    ensures Due(p, h) == Say(Quit)
  {
    MidIsDue(p, h, p.n, mail, codes);
    if MailNotRefused(h) && SomeRcptAccepted(h, p.n) {
      var r :| Heard(h, Mail, r) && !Is5yz(r);
      HeardOnce(p, h, Mail, r, mail);
      var i, code :| 0 <= i < p.n && RcptHeard(h, i, code) && 200 <= code < 300;
      CodeIsOne(p, h, i, code, codes[i]);
      assert false;
    }
  }

  lemma CodeIsOne(p: Plan, h: History, i: nat, a: int, b: int)
    requires Conforms(p, h) && RcptHeard(h, i, a) && RcptHeard(h, i, b)
    ensures a == b
  {
    var r :| Heard(h, Rcpt(i), r) && CodeOrZero(r) == a;
    var s :| Heard(h, Rcpt(i), s) && CodeOrZero(s) == b;
    HeardOnce(p, h, Rcpt(i), r, s);
  }

  lemma NothingHeard(h: History, n: nat, r: DeliveryResult)
    requires Sent(EndOfData) !in h && Unsent(r)
    ensures Faithful(h, n, Returned(r)) && Faithful(h, n, Threw)
  {
    UnsentUnheard(h, EndOfData);
  }

  // QUIT where the delivery ends without a message.
  method Leave(wire: Wire, r: DeliveryResult, ghost p: Plan) returns (o: Outcome)
    requires Conforms(p, wire.transcript) && Idle(wire.transcript) && Turn(wire.transcript)
    requires Due(p, wire.transcript) == Say(Quit)
    requires Sent(Quit) !in wire.transcript && Sent(EndOfData) !in wire.transcript
    requires Unsent(r)
    modifies wire
    ensures Conforms(p, wire.transcript) && Faithful(wire.transcript, p.n, o)
    ensures wire.transcript == old(wire.transcript) + [Sent(Quit)]
    ensures o.Threw? || o == Returned(r.(quit := true))
  {
    OneMore(p, wire.transcript, Sent(Quit));
    var ok := wire.Send(Quit);
    NothingHeard(wire.transcript, p.n, r);
    o := if ok then Returned(r.(quit := true)) else Threw;
    NothingHeard(wire.transcript, p.n, r.(quit := true));
  }

  // The mail transaction of an opened session.
  method Transact(wire: Wire, req: Request, base: DeliveryResult, ghost p: Plan) returns (o: Outcome)
    requires p.n == |req.recipients| && !p.international
    requires Conforms(p, wire.transcript) && Secured(p.enforce, wire.transcript) && MayBegin(p, wire.transcript)
    requires Unsent(base)
    modifies wire
    ensures Conforms(p, wire.transcript) && old(wire.transcript) <= wire.transcript
    ensures TransactionOver(p, wire.transcript, base, o)
  {
    var mail, rcptCodes := SendEnvelope(wire, req, p);
    if mail.None? {
      NothingHeard(wire.transcript, p.n, base);
      return Threw;
    }
    var soFar := base.(mailCode := CodeOf(mail.value), rcptCodes := rcptCodes);
    ghost var h := wire.transcript;
    if Is5yz(mail.value) || !AnyAccepted(rcptCodes) {
      MayQuit(p, h, mail.value, rcptCodes);
      o := Leave(wire, soFar, p);
      EnvelopeStands(h, p.n, mail.value, soFar, Sent(Quit));
      EndedRefused(h + [Sent(Quit)], p.n, mail.value, soFar.(quit := true));
      return;
    }
    MayAskForData(p, wire.transcript, mail.value, rcptCodes);
    o := AskForData(wire, soFar, p, mail.value);
  }

  lemma DataAnswered(p: Plan, h: History, mail: ReadResult, r: DeliveryResult, d: ReadResult)
    requires EnvelopeTold(h, p.n, mail, r) && NoMessage(h) && !d.Fault?
    ensures EnvelopeTold(Replied(h, Data, d), p.n, mail, r)
    ensures Turn(Replied(h, Data, d)) && Answered(Replied(h, Data, d), Data) && LastRead(Replied(h, Data, d)) == d
    ensures Due(p, Replied(h, Data, d)) == Say(if CodeOf(d) == Some(354) then Body else Quit)
    ensures forall c: Command :: c.Body? || c.EndOfData? || c.Quit? ==> Sent(c) !in Replied(h, Data, d)
  {
    EnvelopeStands(h, p.n, mail, r, Sent(Data));
    EnvelopeStands(h + [Sent(Data)], p.n, mail, r, Got(d));
    DueIs(p, h, Data, d);
  }

  // DATA, and behind a 354 the message.
  method AskForData(wire: Wire, soFar: DeliveryResult, ghost p: Plan, ghost mail: ReadResult) returns (o: Outcome)
    requires Conforms(p, wire.transcript) && Secured(p.enforce, wire.transcript)
    requires SendPermitted(p, wire.transcript, Data) && NoMessage(wire.transcript)
    requires EnvelopeTold(wire.transcript, p.n, mail, soFar)
    requires Unsent(soFar)
    modifies wire
    ensures Conforms(p, wire.transcript) && old(wire.transcript) <= wire.transcript
    ensures TransactionOver(p, wire.transcript, soFar, o)
  {
    ghost var h := wire.transcript;
    var dataReply := Exchange(wire, Data, p);
    if dataReply.None? {
      NothingHeard(wire.transcript, p.n, soFar);
      return Threw;
    }
    DataAnswered(p, h, mail, soFar, dataReply.value);
    if CodeOf(dataReply.value) != Some(354) {
      o := LeaveWithoutData(wire, soFar, dataReply.value, p, mail);
      return;
    }
    o := SendMessage(wire, soFar, p, mail);
  }

  method LeaveWithoutData(wire: Wire, soFar: DeliveryResult, ghost d: ReadResult, ghost p: Plan, ghost mail: ReadResult)
    returns (o: Outcome)
    requires Conforms(p, wire.transcript) && Idle(wire.transcript) && Turn(wire.transcript)
    requires Due(p, wire.transcript) == Say(Quit)
    requires Sent(Quit) !in wire.transcript && Sent(EndOfData) !in wire.transcript
    requires EnvelopeTold(wire.transcript, p.n, mail, soFar)
    requires Heard(wire.transcript, Data, d) && CodeOf(d) != Some(354)
    requires Unsent(soFar)
    modifies wire
    ensures Conforms(p, wire.transcript) && old(wire.transcript) <= wire.transcript
    ensures TransactionOver(p, wire.transcript, soFar, o)
  {
    ghost var h := wire.transcript;
    o := Leave(wire, soFar, p);
    EnvelopeStands(h, p.n, mail, soFar, Sent(Quit));
    HeardLater(h, Sent(Quit), Data, d);
    EndedWithoutData(h + [Sent(Quit)], p.n, mail, soFar.(quit := true), d);
  }

  lemma EndedRefused(h: History, n: nat, mail: ReadResult, r: DeliveryResult)
    requires EnvelopeTold(h, n, mail, r) && EnvelopeRefused(mail, r.rcptCodes)
    ensures TransactionEnded(h, n, r)
  {
  }

  lemma EndedWithoutData(h: History, n: nat, mail: ReadResult, r: DeliveryResult, d: ReadResult)
    requires EnvelopeTold(h, n, mail, r) && Heard(h, Data, d) && CodeOf(d) != Some(354)
    ensures TransactionEnded(h, n, r)
  {
    assert DataRefused(h);
  }

  // The two verdicts on a message that was sent exclude each other.
  lemma VerdictsExclude(p: Plan, h: History, o: Outcome)
    requires Conforms(p, h) && Faithful(h, p.n, o) && o.Returned?
    ensures !(o.result.ok && o.result.dataIndeterminate)
    ensures o.result.ok || o.result.dataIndeterminate ==> o.result.sentData
  {
    forall r, s | Heard(h, EndOfData, r) && Heard(h, EndOfData, s) ensures r == s {
      HeardOnce(p, h, EndOfData, r, s);
    }
    if Sent(EndOfData) !in h {
      UnsentUnheard(h, EndOfData);
    }
  }

  // The session from the greeting to its end.
  method RunSession(wire: Wire, req: Request, opts: Options) returns (o: Outcome)
    requires wire.transcript == []
    modifies wire
    ensures Conforms(PlanOf(opts, req), wire.transcript) && Finished(PlanOf(opts, req), wire.transcript)
    ensures Faithful(wire.transcript, |req.recipients|, o)
    ensures Justified(wire.transcript, req, opts.requireValidCert, o)
    ensures o.Returned? ==> OpeningTold(wire.transcript, o.result) && (o.result.quit <==> Sent(Quit) in wire.transcript)
  {
    ghost var p := PlanOf(opts, req);
    var opening := Open(wire, opts, p);
    if opening.Over? {
      NothingHeard(wire.transcript, p.n, BASE);
      return opening.outcome;
    }
    var base := Greeted(opening.greetingCode, opening.verb, opening.heloFellBack);
    ghost var h := wire.transcript;
    if opts.requireValidCert && !wire.TlsEstablished() {
      NothingHeard(wire.transcript, p.n, base);
      return Returned(base);
    }
    if opts.requireValidCert {
      ghost var i :| 0 <= i < |wire.transcript| && wire.transcript[i].Upgraded?;
      UpgradesAsDemanded(p, wire.transcript, i);
    }
    if EnvelopeIsInternationalized(req) {
      o := Leave(wire, base, p);
    } else {
      o := Transact(wire, req, base, p);
    }
    if o.Returned? {
      OpeningStands(p, h, wire.transcript, base, o.result);
    }
  }

  // What the opening holds stays told: the transaction, or QUIT, comes behind it.
  lemma OpeningStands(p: Plan, h: History, later: History, base: DeliveryResult, r: DeliveryResult)
    requires MayBegin(p, h) && OpeningTold(h, base) && h <= later && Conforms(p, later) && SameOpening(r, base)
    requires Begin(p, h) != Rest
    ensures OpeningTold(later, r)
  {
    assert forall i :: 0 <= i < |h| ==> later[i] == h[i];
    if |h| == 3 && |later| > 3 {
      ConformsAt(p, later, 3);
      assert later[..3] == h;
    }
  }

  // One delivery over a fresh connection in the clear, whatever the peer does. The run is safe: under
  // enforcement nothing of the transaction goes out in the clear, the message goes out once at most and only
  // when asked for, every command waits for its answer. It is diligent: whatever calls for a step gets it. The
  // outcome tells truly what was heard: a delivery whose final reply was heard, or waited for in vain, always
  // returns, so that an indeterminate one is never taken for a plain failure.
  method DeliverMessage(wire: Wire, req: Request, opts: Options) returns (o: Outcome)
    requires wire.transcript == []
    modifies wire
    ensures Conforms(PlanOf(opts, req), wire.transcript)
    ensures Safe(opts.requireValidCert, |req.recipients|, wire.transcript)
    ensures Diligent(opts, req, wire.transcript)
    ensures Faithful(wire.transcript, |req.recipients|, o)
    ensures Justified(wire.transcript, req, opts.requireValidCert, o)
    ensures o.Returned? ==> !(o.result.ok && o.result.dataIndeterminate)
    ensures o.Returned? ==> OpeningTold(wire.transcript, o.result) && (o.result.quit <==> Sent(Quit) in wire.transcript)
  {
    ghost var p := PlanOf(opts, req);
    o := RunSession(wire, req, opts);
    ConformingIsSafe(p, wire.transcript);
    FinishedIsDiligent(opts, req, p, wire.transcript);
    if o.Returned? {
      VerdictsExclude(p, wire.transcript, o);
    }
  }
}
