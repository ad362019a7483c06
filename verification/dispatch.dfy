/** `send_invitation_emails`: a pre-flight connection test gates the run,
    then every recipient is sent to once, in order, and the results are
    split into a success list and a failure list. Connecting, logging in and
    sending are outside the model: the pre-flight result is a parameter and
    each per-recipient send is an oracle. */
module Dispatch {
  import opened Optional
  import opened Recipients

  /** The outcome of the pre-flight connect, STARTTLS and login. */
  datatype Preflight = Connected | AuthenticationFailed | ConnectionFailed(reason: string)

  /** What `send_single_email` reports: whether its status is "success",
      and the error text when the result carries one. */
  datatype SendOutcome = SendOutcome(sent: bool, error: Option<string>)

  datatype FailedSend = FailedSend(email: string, error: string)

  /** The returned pair of lists. */
  datatype Report = Report(successful: seq<string>, failed: seq<FailedSend>)

  /** One call of `send_single_email`: the 1-based position and the recipient. */
  datatype Call = Call(position: nat, recipient: Recipient)

  /** The state of the send loop: the two lists, and the calls made so far. */
  datatype Loop = Loop(successful: seq<string>, failed: seq<FailedSend>, calls: seq<Call>)

  /** The returned pair (`None` standing for `(None, None)`), together with
      the calls made to `send_single_email`, in call order. */
  datatype Run = Run(report: Option<Report>, calls: seq<Call>)

  /** The per-recipient send: the 1-based position and the recipient. */
  type Sender = (nat, Recipient) -> SendOutcome

  const UnknownError: string := "Unknown error"

  /** `result.get('error', 'Unknown error')`. */
  function ErrorText(outcome: SendOutcome): (text: string)
    ensures outcome.error.Some? ==> text == outcome.error.value
    ensures outcome.error.None? ==> text == UnknownError
  {
    outcome.error.GetOr(UnknownError)
  }

  /** The failure entry recorded for the recipient at position `i`. */
  function FailureAt(recipients: seq<Recipient>, send: Sender, i: nat): (entry: FailedSend)
    requires i < |recipients|
    ensures entry.email == recipients[i].email
  {
    FailedSend(recipients[i].email, ErrorText(send(i + 1, recipients[i])))
  }

  /** The send loop: each recipient is passed to the oracle, and the result
      is appended to one of the two lists. */
  function SendAll(recipients: seq<Recipient>, send: Sender): (loop: Loop)
    ensures |loop.successful| + |loop.failed| == |recipients|
  {
    if recipients == [] then Loop([], [], [])
    else
      var n := |recipients| - 1;
      var prev := SendAll(recipients[..n], send);
      var outcome := send(n + 1, recipients[n]);
      var calls := prev.calls + [Call(n + 1, recipients[n])];
      if outcome.sent then
        prev.(successful := prev.successful + [recipients[n].email], calls := calls)
      else
        prev.(failed := prev.failed + [FailedSend(recipients[n].email, ErrorText(outcome))], calls := calls)
  }

  /** `send_single_email` is called once per recipient, in input order, with
      the recipient's 1-based position. */
  lemma {:induction false} SendAllCallsEachOnce(recipients: seq<Recipient>, send: Sender)
    ensures |SendAll(recipients, send).calls| == |recipients|
    ensures forall i | 0 <= i < |recipients| :: SendAll(recipients, send).calls[i] == Call(i + 1, recipients[i])
  {
    if recipients != [] {
      var n := |recipients| - 1;
      SendAllCallsEachOnce(recipients[..n], send);
      assert SendAll(recipients, send).calls == SendAll(recipients[..n], send).calls + [Call(n + 1, recipients[n])];
    }
  }

  /** The whole dispatch. A failed pre-flight check returns `(None, None)`
      and calls no send; otherwise the result is that of the send loop. */
  function SendInvitations(preflight: Preflight, recipients: seq<Recipient>, send: Sender): (run: Run)
    ensures run.report.None? <==> preflight != Connected
    ensures preflight != Connected ==> run.calls == []
    ensures preflight == Connected ==>
      var loop := SendAll(recipients, send);
      run.report == Some(Report(loop.successful, loop.failed)) && run.calls == loop.calls
    ensures run.report.Some? ==>
      |run.report.value.successful| + |run.report.value.failed| == |recipients|
  {
    match preflight
    case Connected =>
      var loop := SendAll(recipients, send);
      Run(Some(Report(loop.successful, loop.failed)), loop.calls)
    case AuthenticationFailed => Run(None, [])
    case ConnectionFailed(_) => Run(None, [])
  }

  /** A failed pre-flight check makes the outcome independent of the
      per-recipient send: it is never consulted. */
  lemma PreflightFailureIgnoresSender(preflight: Preflight, recipients: seq<Recipient>, send1: Sender, send2: Sender)
    requires preflight != Connected
    ensures SendInvitations(preflight, recipients, send1) == SendInvitations(preflight, recipients, send2)
    ensures SendInvitations(preflight, recipients, send1) == Run(None, [])
  {
  }

  /** The positions whose send succeeded, in increasing order. */
  function SentPositions(recipients: seq<Recipient>, send: Sender): (idx: seq<nat>)
    ensures StrictlyIncreasing(idx)
    ensures forall k | 0 <= k < |idx| :: idx[k] < |recipients|
  {
    if recipients == [] then []
    else
      var n := |recipients| - 1;
      var prev := SentPositions(recipients[..n], send);
      if send(n + 1, recipients[n]).sent then prev + [n] else prev
  }

  /** The positions whose send failed, in increasing order. */
  function FailedPositions(recipients: seq<Recipient>, send: Sender): (idx: seq<nat>)
    ensures StrictlyIncreasing(idx)
    ensures forall k | 0 <= k < |idx| :: idx[k] < |recipients|
  {
    if recipients == [] then []
    else
      var n := |recipients| - 1;
      var prev := FailedPositions(recipients[..n], send);
      if send(n + 1, recipients[n]).sent then prev else prev + [n]
  }

  /** A position is in `SentPositions` exactly when that send succeeded. */
  lemma {:induction false} SentPositionsExact(recipients: seq<Recipient>, send: Sender)
    ensures forall i | 0 <= i < |recipients| ::
      i in SentPositions(recipients, send) <==> send(i + 1, recipients[i]).sent
  {
    if recipients != [] {
      var n := |recipients| - 1;
      SentPositionsExact(recipients[..n], send);
      assert forall i | 0 <= i < n :: recipients[..n][i] == recipients[i];
    }
  }

  /** A position is in `FailedPositions` exactly when that send failed. */
  lemma {:induction false} FailedPositionsExact(recipients: seq<Recipient>, send: Sender)
    ensures forall i | 0 <= i < |recipients| ::
      i in FailedPositions(recipients, send) <==> !send(i + 1, recipients[i]).sent
  {
    if recipients != [] {
      var n := |recipients| - 1;
      FailedPositionsExact(recipients[..n], send);
      assert forall i | 0 <= i < n :: recipients[..n][i] == recipients[i];
    }
  }

  /** The success list is the addresses of the recipients whose send
      succeeded, in input order. */
  lemma {:induction false} SuccessesInOrder(recipients: seq<Recipient>, send: Sender)
    ensures |SendAll(recipients, send).successful| == |SentPositions(recipients, send)|
    ensures forall k | 0 <= k < |SentPositions(recipients, send)| ::
      SendAll(recipients, send).successful[k] == recipients[SentPositions(recipients, send)[k]].email
  {
    if recipients != [] {
      var n := |recipients| - 1;
      SuccessesInOrder(recipients[..n], send);
      var sent := SentPositions(recipients[..n], send);
      var prev := SendAll(recipients[..n], send).successful;
      assert forall k | 0 <= k < |sent| :: recipients[..n][sent[k]] == recipients[sent[k]];
      if send(n + 1, recipients[n]).sent {
        assert SentPositions(recipients, send) == sent + [n];
        assert SendAll(recipients, send).successful == prev + [recipients[n].email];
      } else {
        assert SentPositions(recipients, send) == sent;
        assert SendAll(recipients, send).successful == prev;
      }
    }
  }

  /** The failure list holds the address and error text of every recipient
      whose send failed, in input order. With the success list this puts
      every recipient in exactly one of the two lists. */
  lemma {:induction false} FailuresInOrder(recipients: seq<Recipient>, send: Sender)
    ensures |SendAll(recipients, send).failed| == |FailedPositions(recipients, send)|
    ensures forall k | 0 <= k < |FailedPositions(recipients, send)| ::
      SendAll(recipients, send).failed[k] == FailureAt(recipients, send, FailedPositions(recipients, send)[k])
  {
    if recipients != [] {
      var n := |recipients| - 1;
      FailuresInOrder(recipients[..n], send);
      var failed := FailedPositions(recipients[..n], send);
      var prev := SendAll(recipients[..n], send).failed;
      assert forall k | 0 <= k < |failed| ::
        FailureAt(recipients[..n], send, failed[k]) == FailureAt(recipients, send, failed[k]);
      if send(n + 1, recipients[n]).sent {
        assert FailedPositions(recipients, send) == failed;
        assert SendAll(recipients, send).failed == prev;
      } else {
        assert FailedPositions(recipients, send) == failed + [n];
        assert SendAll(recipients, send).failed == prev + [FailureAt(recipients, send, n)];
      }
    }
  }

  /** One failing recipient does not stop the others: every later
      recipient is still attempted and its outcome recorded. */
  lemma FailureDoesNotStopLaterSends(recipients: seq<Recipient>, send: Sender, i: nat, j: nat)
    requires i < j < |recipients|
    requires !send(i + 1, recipients[i]).sent
    requires send(j + 1, recipients[j]).sent
    ensures recipients[j].email in SendAll(recipients, send).successful
  {
    SuccessesInOrder(recipients, send);
    SentPositionsExact(recipients, send);
    var sent := SentPositions(recipients, send);
    var k :| 0 <= k < |sent| && sent[k] == j;
    assert SendAll(recipients, send).successful[k] == recipients[j].email;
  }

  /** A connected run calls the send once per recipient, in order, and
      reports exactly the successful addresses and exactly the failed
      addresses with their errors, each list in input order. */
  lemma ConnectedRunReportsEveryRecipient(recipients: seq<Recipient>, send: Sender)
    ensures var run := SendInvitations(Connected, recipients, send);
      && run.report.Some?
      && |run.calls| == |recipients|
      && (forall i | 0 <= i < |recipients| :: run.calls[i] == Call(i + 1, recipients[i]))
      && |run.report.value.successful| == |SentPositions(recipients, send)|
      && (forall k | 0 <= k < |SentPositions(recipients, send)| ::
            run.report.value.successful[k] == recipients[SentPositions(recipients, send)[k]].email)
      && |run.report.value.failed| == |FailedPositions(recipients, send)|
      && (forall k | 0 <= k < |FailedPositions(recipients, send)| ::
            run.report.value.failed[k] == FailureAt(recipients, send, FailedPositions(recipients, send)[k]))
  {
    SendAllCallsEachOnce(recipients, send);
    SuccessesInOrder(recipients, send);
    FailuresInOrder(recipients, send);
  }
}
