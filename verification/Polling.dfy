/** Asking Swish for an outcome (`poll_payout_status` in `src/swish/submit.rs`). */
module Polling {
  import opened Prelude
  import opened PayoutStatus

  const POLL_ATTEMPTS: nat := 8

  /** One status GET: a 2xx with the status its body carries (if any), another code, or no answer. */
  datatype Response =
    | Success(status: Option<Status>)
    | Refused(code: int)
    | NoAnswer

  datatype PollError = Unreachable | NoRecord

  type PollResult = Result<Status, PollError>

  /** Whether a response ends the poll. */
  predicate Final(response: Response) {
    && response.Success?
    && response.status.Some?
    && response.status.value in {Paid, Debited, Declined, Error}
  }

  /** What Swish can say that settles the matter: these four statuses and nothing else. */
  predicate Says(response: Response, status: Status) {
    response == Success(Some(status)) && (status == Paid || status == Debited || status == Declined || status == Error)
  }

  ghost predicate Decisive(response: Response) {
    exists status :: Says(response, status)
  }

  /** No answer so far settles the matter. */
  ghost predicate Undecided(responses: seq<Response>) {
    forall i, status | 0 <= i < |responses| :: !Says(responses[i], status)
  }

  predicate Unreached(responses: seq<Response>) {
    forall i | 0 <= i < |responses| :: responses[i] == NoAnswer
  }

  predicate NotOnRecord(responses: seq<Response>) {
    exists i :: 0 <= i < |responses| && responses[i] == Refused(404)
  }

  /** What the responses of a poll mean, with no loop and no order of discovery. */
  ghost predicate IsOutcome(responses: seq<Response>, result: PollResult) {
    && (forall i, status | 0 <= i < |responses| && Says(responses[i], status) && Undecided(responses[..i]) ::
          result == Ok(status))
    && (Undecided(responses) ==>
          result == if Unreached(responses) then Err(Unreachable)
                    else if NotOnRecord(responses) then Err(NoRecord)
                    else Ok(Pending))
  }

  lemma FinalSays(response: Response)
    ensures Final(response) <==> Decisive(response)
    ensures Final(response) ==> Says(response, response.status.value)
  {
    if Final(response) {
      assert Says(response, response.status.value);
    }
  }

  /** The poll itself: `asked` is how many GETs it made. */
  method PollPayoutStatus(responses: seq<Response>) returns (result: PollResult, asked: nat)
    requires |responses| == POLL_ATTEMPTS
    ensures IsOutcome(responses, result)
    ensures 1 <= asked <= 8 && Undecided(responses[..asked - 1])
    ensures asked < 8 ==> Decisive(responses[asked - 1])
  {
    var anyContact, saw404 := false, false;
    for attempt := 0 to POLL_ATTEMPTS
      invariant Heard(Poll(attempt, anyContact, saw404), responses[..attempt])
    {
      assert responses[..attempt + 1] == responses[..attempt] + [responses[attempt]];
      OneMore(responses[..attempt], responses[attempt]);
      match responses[attempt]
      case Success(status) =>
        anyContact := true;
        if Final(responses[attempt]) {
          DecidedBy(responses, attempt);
          return Ok(status.value), attempt + 1;
        }
      case Refused(code) =>
        anyContact := true;
        if code == 404 {
          saw404 := true;
        }
      case NoAnswer =>
    }
    assert responses[..POLL_ATTEMPTS] == responses;
    asked := POLL_ATTEMPTS;
    if !anyContact {
      result := Err(Unreachable);
    } else if saw404 {
      result := Err(NoRecord);
    } else {
      result := Ok(Pending);
    }
  }

  /** The first answer that settles the matter is the outcome. */
  lemma DecidedBy(responses: seq<Response>, i: nat)
    requires i < |responses| && Final(responses[i]) && Undecided(responses[..i])
    ensures IsOutcome(responses, Ok(responses[i].status.value))
  {
    FinalSays(responses[i]);
    forall j, status | 0 <= j < i
      ensures !Says(responses[j], status)
    {
      assert !Says(responses[..i][j], status);
    }
    forall j | i < j < |responses|
      ensures !Undecided(responses[..j])
    {
      assert Says(responses[..j][i], responses[i].status.value);
    }
  }

  // ---- The same loop one GET at a time, so that other tasks can run in between ----

  /** The loop's variables. */
  datatype Poll = Poll(attempt: nat, anyContact: bool, saw404: bool)

  const START: Poll := Poll(0, false, false)

  datatype Progress = Continue(poll: Poll) | Finished(result: PollResult)

  function PollStep(poll: Poll, response: Response): Progress {
    if Final(response) then Finished(Ok(response.status.value))
    else
      var next := Poll(
        poll.attempt + 1,
        poll.anyContact || !response.NoAnswer?,
        poll.saw404 || response == Refused(404));
      if next.attempt < POLL_ATTEMPTS then Continue(next)
      else if !next.anyContact then Finished(Err(Unreachable))
      else if next.saw404 then Finished(Err(NoRecord))
      else Finished(Ok(Pending))
  }

  /** The variables are what they should be after these answers. */
  ghost predicate Heard(poll: Poll, answers: seq<Response>) {
    && poll.attempt == |answers|
    && Undecided(answers)
    && (poll.anyContact <==> !Unreached(answers))
    && (poll.saw404 <==> NotOnRecord(answers))
  }

  lemma OneMore(answers: seq<Response>, response: Response)
    ensures var more := answers + [response];
            && (Undecided(more) <==> Undecided(answers) && !Final(response))
            && (Unreached(more) <==> Unreached(answers) && response == NoAnswer)
            && (NotOnRecord(more) <==> NotOnRecord(answers) || response == Refused(404))
  {
    FinalSays(response);
    var more := answers + [response];
    assert more[..|answers|] == answers && more[|answers|] == response;
    forall i | 0 <= i < |answers|
      ensures more[i] == answers[i]
    {
    }
    if Undecided(more) {
      forall i, status | 0 <= i < |answers|
        ensures !Says(answers[i], status)
      {
        assert !Says(more[i], status);
      }
    }
    if Final(response) {
      assert Says(more[|answers|], response.status.value);
    }
    if NotOnRecord(answers) {
      var i :| 0 <= i < |answers| && answers[i] == Refused(404);
      assert more[i] == Refused(404);
    }
  }

  /**
   * One more answer: either it settles the matter, or it was the eighth that does not, or the poll
   * goes on.
   */
  lemma StepHears(poll: Poll, answers: seq<Response>, response: Response)
    requires Heard(poll, answers) && poll.attempt < POLL_ATTEMPTS
    ensures var more := answers + [response];
            match PollStep(poll, response)
            case Continue(next) => |more| < 8 && Heard(next, more)
            case Finished(Ok(status)) =>
              Says(response, status) || (|more| == 8 && Undecided(more) && IsOutcome(more, Ok(status)))
            case Finished(result) => |more| == 8 && Undecided(more) && IsOutcome(more, result)
    ensures Undecided(answers + [response]) <==> !Final(response)
  {
    hide Undecided, Unreached, NotOnRecord;
    OneMore(answers, response);
    FinalSays(response);
    if Undecided(answers + [response]) {
      NothingElse(answers + [response]);
    }
  }

  lemma NothingElse(responses: seq<Response>)
    requires Undecided(responses)
    ensures forall i, status | 0 <= i < |responses| :: !Says(responses[i], status)
  {
  }

  function Stepped(poll: Poll, responses: seq<Response>): PollResult
    requires poll.attempt < |responses| == POLL_ATTEMPTS
    decreases |responses| - poll.attempt
  {
    match PollStep(poll, responses[poll.attempt])
    case Finished(result) => result
    case Continue(next) => Stepped(next, responses)
  }

  /** Taken one GET at a time, the poll comes to the same outcome. */
  lemma StepsReachTheOutcome(responses: seq<Response>)
    requires |responses| == POLL_ATTEMPTS
    ensures IsOutcome(responses, Stepped(START, responses))
  {
    assert responses[..0] == [];
    StepsFrom(START, responses);
  }

  lemma {:induction false} StepsFrom(poll: Poll, responses: seq<Response>)
    requires poll.attempt < |responses| == POLL_ATTEMPTS && Heard(poll, responses[..poll.attempt])
    ensures IsOutcome(responses, Stepped(poll, responses))
    decreases |responses| - poll.attempt
  {
    hide Heard, IsOutcome, Final;
    var response := responses[poll.attempt];
    var more := responses[..poll.attempt + 1];
    assert more == responses[..poll.attempt] + [response];
    HeardLength(poll, responses[..poll.attempt]);
    StepHears(poll, responses[..poll.attempt], response);
    var progress := PollStep(poll, response);
    if progress.Continue? {
      HeardLength(progress.poll, more);
      StepsFrom(progress.poll, responses);
    } else if Final(response) {
      DecidedAt(poll, responses);
    } else {
      assert more == responses;
    }
  }

  lemma HeardLength(poll: Poll, answers: seq<Response>)
    requires Heard(poll, answers)
    ensures poll.attempt == |answers|
  {
  }

  lemma DecidedAt(poll: Poll, responses: seq<Response>)
    requires poll.attempt < |responses| && Heard(poll, responses[..poll.attempt]) && Final(responses[poll.attempt])
    ensures PollStep(poll, responses[poll.attempt]) == Finished(Ok(responses[poll.attempt].status.value))
    ensures IsOutcome(responses, Ok(responses[poll.attempt].status.value))
  {
    DecidedBy(responses, poll.attempt);
  }

  /** `PENDING` is the only undecided answer: a poll that resolves names one of four statuses. */
  lemma ResolvedIsFinal(responses: seq<Response>, result: PollResult)
    requires |responses| == POLL_ATTEMPTS && IsOutcome(responses, result)
    ensures result.Ok? && result.value != Pending ==> result.value in {Paid, Debited, Declined, Error}
    ensures result == Ok(Pending) <==> Undecided(responses) && !Unreached(responses) && !NotOnRecord(responses)
    ensures result.Err? <==> Undecided(responses) && (Unreached(responses) || NotOnRecord(responses))
  {
    if !Undecided(responses) {
      var i := FirstFinal(responses);
      assert Says(responses[i], responses[i].status.value);
      assert result == Ok(responses[i].status.value);
    }
  }

  lemma {:induction false} FirstFinal(responses: seq<Response>) returns (i: nat)
    requires !Undecided(responses)
    ensures i < |responses| && Final(responses[i]) && Undecided(responses[..i])
    ensures Says(responses[i], responses[i].status.value)
  {
    var k, status :| 0 <= k < |responses| && Says(responses[k], status);
    FinalSays(responses[k]);
    i := k;
    if !Undecided(responses[..k]) {
      i := FirstFinal(responses[..k]);
      assert responses[..k][..i] == responses[..i];
    }
  }
}
