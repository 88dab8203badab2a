/**
 * Why each status is written: in every run, every write goes back to an answer Swish gave, to the
 * lack of one, to a failed submission or to a callback's own text.
 */
module Causes {
  import opened Prelude
  import opened Text
  import opened PayoutStatus
  import opened PayoutStore
  import opened Polling
  import opened Protocol
  import opened Settlement

  // ---- What a task has heard from Swish ----

  /** The answers to the GETs of a task in the first `n` steps. */
  function AnswersTo(actions: seq<Action>, n: nat, id: TaskId): seq<Response>
    requires n <= |actions|
  {
    if n == 0 then []
    else AnswersTo(actions, n - 1, id) + Hears(actions[n - 1], id)
  }

  function Hears(a: Action, id: TaskId): seq<Response> {
    if a.Ask? && a.task == id then [a.response] else []
  }

  /** The variables of a poll agree with the answers; other tasks have not asked, or are done asking. */
  ghost predicate HasHeard(task: Task, answers: seq<Response>) {
    if task.Polling? then Heard(task.poll, answers) && task.poll.attempt < POLL_ATTEMPTS
    else task.Writing? || task.Mirroring? || answers == []
  }

  lemma HeardMoved(s: State, a: Action, answers: seq<Response>)
    requires Enabled(s, a) && MovesTask(a) && TaskAfter(s, a).Some? && HasHeard(s.tasks[a.task], answers)
    ensures HasHeard(TaskAfter(s, a).value, answers + Hears(a, a.task))
  {
    if a.Ask? {
      StepHears(s.tasks[a.task].poll, answers, a.response);
    } else {
      assert answers + Hears(a, a.task) == answers;
    }
  }

  lemma HeardStep(s: State, a: Action, id: TaskId, answers: seq<Response>)
    requires Sound(s) && Enabled(s, a)
    requires id.serial >= s.serial ==> answers == []
    requires id in s.tasks ==> HasHeard(s.tasks[id], answers)
    ensures id.serial >= Apply(s, a).serial ==> answers + Hears(a, id) == []
    ensures id in TasksAfter(s, a) ==> HasHeard(TasksAfter(s, a)[id], answers + Hears(a, id))
  {
    hide TasksAfter, TaskAfter, HasHeard;
    if MovesTask(a) {
      assert TaskSound(s, a.task, s.tasks[a.task]);
    }
    assert answers + [] == answers;
    if id in TasksAfter(s, a) {
      TaskOrigins(s, a, id);
      if MovesTask(a) && id == a.task {
        HeardMoved(s, a, answers);
      } else if id !in s.tasks || TasksAfter(s, a)[id] != s.tasks[id] {
        NewTasksHeardNothing(TasksAfter(s, a)[id]);
      }
    }
  }

  lemma NewTasksHeardNothing(task: Task)
    ensures task.Claiming? || task.Checking? || task.Reading? ==> HasHeard(task, [])
  {
  }

  lemma {:induction false} HeardThroughout(run: seq<State>, actions: seq<Action>, n: nat, id: TaskId)
    requires Run(run, actions) && n < |run|
    ensures id.serial >= run[n].serial ==> AnswersTo(actions, n, id) == []
    ensures id in run[n].tasks ==> HasHeard(run[n].tasks[id], AnswersTo(actions, n, id))
  {
    hide HasHeard, Step;
    if n > 0 {
      HeardThroughout(run, actions, n - 1, id);
      HeardAt(run, actions, n - 1, id);
    }
  }

  lemma HeardAt(run: seq<State>, actions: seq<Action>, n: nat, id: TaskId)
    requires Run(run, actions) && n < |actions|
    requires id.serial >= run[n].serial ==> AnswersTo(actions, n, id) == []
    requires id in run[n].tasks ==> HasHeard(run[n].tasks[id], AnswersTo(actions, n, id))
    ensures id.serial >= run[n + 1].serial ==> AnswersTo(actions, n + 1, id) == []
    ensures id in run[n + 1].tasks ==> HasHeard(run[n + 1].tasks[id], AnswersTo(actions, n + 1, id))
  {
    hide HasHeard;
    SettledThroughout(run, actions, n);
    HeardStep(run[n], actions[n], id, AnswersTo(actions, n, id));
  }

  // ---- What a poll leads to ----

  /** Eight answers and none of them settles the matter. */
  ghost predicate Exhausted(answers: seq<Response>) {
    |answers| == 8 && Undecided(answers)
  }

  function Brings(task: Task, status: Status, writer: Writer): Option<Task>
    requires task.Polling?
  {
    Some(Writing(task.instance, task.reference, Some(task.about), status, writer))
  }

  /**
   * What follows each GET, by all the answers the task has had: the first of the four statuses is
   * written as it is; short of that a poll goes on to its eighth answer, and then the route writes
   * ERROR if no answer came or one was a 404 and PENDING otherwise, while reconcile does nothing
   * before the third attempt and asks for a review after it.
   */
  lemma PollsDecide(run: seq<State>, actions: seq<Action>, n: nat)
    requires Run(run, actions) && n < |actions| && actions[n].Ask?
    ensures Enabled(run[n], actions[n])
    ensures var task, next := run[n].tasks[actions[n].task], TaskAfter(run[n], actions[n]);
            var answers := AnswersTo(actions, n + 1, actions[n].task);
            && 1 <= |answers| <= 8 && answers[|answers| - 1] == actions[n].response
            && Undecided(answers[..|answers| - 1])
            && (forall status | Says(actions[n].response, status) ::
                  next == Brings(task, status, if task.origin == Route then FromRoute else Settle(task.origin.attempts)))
            && (Undecided(answers) && |answers| < 8 ==>
                  next.Some? && next.value.Polling? && next.value.(poll := task.poll) == task)
            && (Exhausted(answers) && task.origin == Route ==>
                  next == Brings(task, if Unreached(answers) || NotOnRecord(answers) then Error else Pending, FromRoute))
            && (Exhausted(answers) && task.origin.Chase? ==>
                  next == if task.origin.attempts < 3 then None
                          else Brings(task, NeedsReview, GiveUp(task.origin.attempts)))
  {
    var id := actions[n].task;
    HeardThroughout(run, actions, n, id);
    AskDecides(run[n], actions[n], AnswersTo(actions, n, id));
  }

  lemma AskDecides(s: State, a: Action, before: seq<Response>)
    requires Enabled(s, a) && a.Ask? && HasHeard(s.tasks[a.task], before)
    ensures var task, next, answers := s.tasks[a.task], TaskAfter(s, a), before + [a.response];
            && |before| < 8 && Undecided(before)
            && (forall status | Says(a.response, status) ::
                  next == Brings(task, status, if task.origin == Route then FromRoute else Settle(task.origin.attempts)))
            && (Undecided(answers) && |answers| < 8 ==>
                  next.Some? && next.value.Polling? && next.value.(poll := task.poll) == task)
            && (Exhausted(answers) && task.origin == Route ==>
                  next == Brings(task, if Unreached(answers) || NotOnRecord(answers) then Error else Pending, FromRoute))
            && (Exhausted(answers) && task.origin.Chase? ==>
                  next == if task.origin.attempts < 3 then None
                          else Brings(task, NeedsReview, GiveUp(task.origin.attempts)))
  {
    hide Undecided, Unreached, NotOnRecord;
    var task := s.tasks[a.task];
    StepHears(task.poll, before, a.response);
    OneMore(before, a.response);
    if Final(a.response) {
      FinalSays(a.response);
    }
    forall status | Says(a.response, status)
      ensures Final(a.response) && status == a.response.status.value
    {
      FinalSays(a.response);
    }
    if Undecided(before + [a.response]) {
      Outcomes(before + [a.response]);
    }
  }

  lemma Outcomes(answers: seq<Response>)
    requires Undecided(answers)
    ensures forall result | IsOutcome(answers, result) ::
              result == if Unreached(answers) then Err(Unreachable)
                        else if NotOnRecord(answers) then Err(NoRecord)
                        else Ok(Pending)
  {
  }

  // ---- Every write has its reason ----

  /** Whether step `k` is a reason for its task to make this write. */
  ghost predicate Reason(run: seq<State>, actions: seq<Action>, k: nat, write: Task)
    requires Run(run, actions) && k < |actions| && Enabled(run[k], actions[k]) && MovesTask(actions[k])
    requires write.Writing?
  {
    var s, a := run[k], actions[k];
    var task := s.tasks[a.task];
    var answers := AnswersTo(actions, k + 1, a.task);
    && write.instance == task.instance
    && write.reference == Subject(task)
    && match write.writer
       case FromCallback =>
         // the row carries the UUID the callback names
         && a == Check(a.task, false)
         && write.status == task.status
         && write.recorded == Some(task.about)
         && task.reference in s.table
         && s.table[task.reference].swishRef == Some(task.about)
       case FromRoute =>
         if CarriesPayout(task) then
           // nothing was sent, or Swish did not accept it
           (a == FailToSend(a.task) || a == Answer(a.task, false))
           && write.recorded == Some(task.payout.swishRef) && write.status == Error
         else
           && a.Ask?
           && task.origin == Route
           && write.recorded == Some(task.about)
           && (|| Says(a.response, write.status)
               || (Exhausted(answers)
                   && write.status == if Unreached(answers) || NotOnRecord(answers) then Error else Pending))
       case Settle(attempts) =>
         && a.Ask?
         && task.origin == Chase(attempts)
         && write.recorded == Some(task.about)
         && Says(a.response, write.status)
       case GiveUp(attempts) =>
         && write.status == NeedsReview
         && if a.Ask? then
              task.origin == Chase(attempts) && write.recorded == Some(task.about) && attempts >= 3 && Exhausted(answers)
            else
              // there is no instruction to ask about
              && a == Read(a.task, false)
              && task.attempts == attempts
              && write.recorded == None
              && task.reference in s.table
              && (s.table[task.reference].swishRef.None? || Blank(s.table[task.reference].swishRef.value))
  }

  /** A task goes on to a write exactly for one of these reasons. */
  lemma WritesHaveReasons(run: seq<State>, actions: seq<Action>, k: nat, write: Task)
    requires Run(run, actions) && k < |actions| && MovesTask(actions[k]) && write.Writing?
    ensures Enabled(run[k], actions[k])
    ensures TaskAfter(run[k], actions[k]) == Some(write) <==> Reason(run, actions, k, write)
  {
    if actions[k].Ask? {
      AskReasons(run, actions, k, write);
    }
  }

  lemma AskReasons(run: seq<State>, actions: seq<Action>, k: nat, write: Task)
    requires Run(run, actions) && k < |actions| && actions[k].Ask? && write.Writing? && Enabled(run[k], actions[k])
    ensures TaskAfter(run[k], actions[k]) == Some(write) <==> Reason(run, actions, k, write)
  {
    hide TaskAfter, Exhausted, Undecided, Unreached, NotOnRecord;
    PollsDecide(run, actions, k);
    Either(AnswersTo(actions, k + 1, actions[k].task));
  }

  lemma Either(answers: seq<Response>)
    requires 1 <= |answers| <= 8 && Undecided(answers[..|answers| - 1])
    ensures || (Decisive(answers[|answers| - 1]) && !Undecided(answers))
            || (Undecided(answers) && |answers| < 8)
            || Exhausted(answers)
    ensures Exhausted(answers) ==> Undecided(answers)
  {
    var last := |answers| - 1;
    assert answers == answers[..last] + [answers[last]];
    OneMore(answers[..last], answers[last]);
    FinalSays(answers[last]);
  }

  /** A poll begins exactly when Swish accepted a POST, or reconcile finds a UUID that is not blank. */
  lemma PollsHaveReasons(s: State, a: Action, poll: Task)
    requires Enabled(s, a) && MovesTask(a) && !a.Ask? && poll.Polling?
    ensures TaskAfter(s, a) == Some(poll) <==>
            var task := s.tasks[a.task];
            && poll.instance == task.instance
            && poll.reference == Subject(task)
            && poll.poll == Poll(0, false, false)
            && match poll.origin
               case Route => a == Answer(a.task, true) && poll.about == task.payout.swishRef
               case Chase(attempts) =>
                 && a == Read(a.task, false)
                 && task.attempts == attempts
                 && task.reference in s.table
                 && s.table[task.reference].swishRef == Some(poll.about)
                 && !Blank(poll.about)
  {
  }

  // ---- Over whole runs ----

  /** A task about to write has been so since the step that was its reason. */
  lemma {:induction false} WritingSince(run: seq<State>, actions: seq<Action>, n: nat, id: TaskId) returns (k: nat)
    requires Run(run, actions) && n < |run| && id in run[n].tasks && run[n].tasks[id].Writing?
    ensures k < n && Enabled(run[k], actions[k]) && MovesTask(actions[k]) && actions[k].task == id
    ensures TaskAfter(run[k], actions[k]) == Some(run[n].tasks[id])
  {
    var s, a := run[n - 1], actions[n - 1];
    TaskOrigins(s, a, id);
    if MovesTask(a) && a.task == id {
      return n - 1;
    }
    k := WritingSince(run, actions, n - 1, id);
  }

  /** A callback waiting for its check came in with the text that stands for its status. */
  lemma {:induction false} CheckingSince(run: seq<State>, actions: seq<Action>, n: nat, id: TaskId) returns (k: nat)
    requires Run(run, actions) && n < |run| && id in run[n].tasks && run[n].tasks[id].Checking?
    ensures k < n && Reported(run, actions, k, id, run[n].tasks[id])
  {
    var s, a := run[n - 1], actions[n - 1];
    TaskOrigins(s, a, id);
    if id in s.tasks && s.tasks[id] == run[n].tasks[id] {
      k := CheckingSince(run, actions, n - 1, id);
    } else {
      ReportedNow(s, a, id);
      k := n - 1;
    }
  }

  /** Step `k` is the callback that became this task. */
  predicate Reported(run: seq<State>, actions: seq<Action>, k: nat, id: TaskId, task: Task)
    requires k < |actions| && k < |run|
  {
    && actions[k].Report?
    && id == TaskId(run[k].serial, actions[k].reference)
    && task == Checking(actions[k].instance, actions[k].reference, actions[k].about, CallbackStatus(actions[k].text))
  }

  lemma ReportedNow(s: State, a: Action, id: TaskId)
    requires Enabled(s, a) && id in TasksAfter(s, a) && TasksAfter(s, a)[id].Checking?
    requires !(id in s.tasks && s.tasks[id] == TasksAfter(s, a)[id])
    ensures a.Report? && id == TaskId(s.serial, a.reference)
    ensures TasksAfter(s, a)[id] == Checking(a.instance, a.reference, a.about, CallbackStatus(a.text))
  {
    TaskOrigins(s, a, id);
  }

  /** The write of a callback brings the text of the callback: its words, or `UNKNOWN`. */
  ghost predicate FromItsText(run: seq<State>, actions: seq<Action>, n: nat, e: Event)
    requires n <= |actions| && n <= |run| && e.Wrote?
  {
    exists j: nat | j < n ::
      && actions[j].Report?
      && actions[j].reference == e.reference
      && Some(actions[j].about) == e.recorded
      && AsStr(e.status) == if actions[j].text.Some? then actions[j].text.value else "UNKNOWN"
  }

  /** The task was told so by Swish. */
  ghost predicate Told(actions: seq<Action>, n: nat, id: TaskId, status: Status)
    requires n <= |actions|
  {
    exists k: nat | k < n :: actions[k] == Ask(id, Success(Some(status)))
  }

  /**
   * Every applied write of a run has its reason at an earlier step of the same task. So what
   * reconcile settles, and what the route writes as PAID, DEBITED or DECLINED, is what Swish said in
   * so many words, and what a callback writes is what it said.
   */
  lemma EveryWriteHasItsReason(run: seq<State>, actions: seq<Action>, n: nat)
    requires Run(run, actions) && n < |actions| && actions[n].Write? && Emits(run[n], actions[n]) != []
    ensures Enabled(run[n], actions[n])
    ensures var id, e := actions[n].task, Emits(run[n], actions[n])[0];
            && (exists k: nat | k < n ::
                  Enabled(run[k], actions[k]) && MovesTask(actions[k]) && actions[k].task == id
                  && Reason(run, actions, k, run[n].tasks[id]))
            && e.reference == run[n].tasks[id].reference && e.recorded == run[n].tasks[id].recorded
            && e.status == run[n].tasks[id].status && e.writer == run[n].tasks[id].writer
            && (e.writer.Settle? ==> Told(actions, n, id, e.status))
            && (e.writer.FromRoute? && e.status !in {Error, Pending} ==> Told(actions, n, id, e.status))
            && (e.writer.FromCallback? ==> FromItsText(run, actions, n, e))
  {
    var id := actions[n].task;
    var write := run[n].tasks[id];
    var k := WritingSince(run, actions, n, id);
    WritesHaveReasons(run, actions, k, write);
    ReasonTells(run, actions, k, n, write);
  }

  lemma ReasonTells(run: seq<State>, actions: seq<Action>, k: nat, n: nat, write: Task)
    requires Run(run, actions) && k < n <= |actions| && Enabled(run[k], actions[k]) && MovesTask(actions[k])
    requires write.Writing? && Reason(run, actions, k, write)
    ensures write.writer.Settle? ==> Told(actions, n, actions[k].task, write.status)
    ensures write.writer.FromRoute? && write.status !in {Error, Pending} ==> Told(actions, n, actions[k].task, write.status)
    ensures write.writer.FromCallback? ==>
              exists j: nat | j < n ::
                && actions[j].Report?
                && actions[j].reference == write.reference
                && Some(actions[j].about) == write.recorded
                && AsStr(write.status) == if actions[j].text.Some? then actions[j].text.value else "UNKNOWN"
  {
    if write.writer.FromCallback? {
      var j := CheckingSince(run, actions, k, actions[k].task);
      CallbackStoresItsText(actions[j].text);
    } else if actions[k].Ask? && Says(actions[k].response, write.status) {
      assert actions[k] == Ask(actions[k].task, Success(Some(write.status)));
    }
  }

  // ---- What is sent was asked for ----

  ghost predicate Requested(actions: seq<Action>, n: nat, payout: Payout)
    requires n <= |actions|
  {
    exists j: nat | j < n :: actions[j].Arrive? && actions[j].payout == payout
  }

  lemma RequestedLater(actions: seq<Action>, n: nat, payout: Payout)
    requires n < |actions|
    requires Requested(actions, n, payout) || (actions[n].Arrive? && actions[n].payout == payout)
    ensures Requested(actions, n + 1, payout)
  {
    if Requested(actions, n, payout) {
      var j: nat :| j < n && actions[j].Arrive? && actions[j].payout == payout;
      assert actions[j].Arrive? && actions[j].payout == payout;
    }
  }

  lemma {:induction false} CarriedWasRequested(run: seq<State>, actions: seq<Action>, n: nat, id: TaskId)
    requires Run(run, actions) && n < |run| && id in run[n].tasks && CarriesPayout(run[n].tasks[id])
    ensures Requested(actions, n, run[n].tasks[id].payout)
  {
    var s, a := run[n - 1], actions[n - 1];
    PayoutOrigins(s, a, id);
    if id in s.tasks && CarriesPayout(s.tasks[id]) && s.tasks[id].payout == run[n].tasks[id].payout {
      CarriedWasRequested(run, actions, n - 1, id);
    }
    RequestedLater(actions, n - 1, run[n].tasks[id].payout);
  }

  lemma PayoutOrigins(s: State, a: Action, id: TaskId)
    requires Enabled(s, a) && id in TasksAfter(s, a) && CarriesPayout(TasksAfter(s, a)[id])
    ensures var payout := TasksAfter(s, a)[id].payout;
            || (id in s.tasks && CarriesPayout(s.tasks[id]) && s.tasks[id].payout == payout)
            || (a.Arrive? && a.payout == payout)
  {
    TaskOrigins(s, a, id);
  }

  /** In every run, every POST carries a payout as it was requested, with the UUID drawn for it. */
  lemma {:induction false} PostsWereRequested(run: seq<State>, actions: seq<Action>, n: nat, i: nat)
    requires Run(run, actions) && n < |run| && i < |run[n].history| && run[n].history[i].Posted?
    ensures Requested(actions, n, run[n].history[i].payout)
  {
    var payout := run[n].history[i].payout;
    var s, a := run[n - 1], actions[n - 1];
    if i < |s.history| {
      PostsWereRequested(run, actions, n - 1, i);
    } else {
      assert a.Send? && s.tasks[a.task].payout == payout;
      CarriedWasRequested(run, actions, n - 1, a.task);
    }
    RequestedLater(actions, n - 1, payout);
  }

  // ---- The audit event PAID, and whom Swish is asked about ----

  /** After an applied and acknowledged DEBITED write, and after nothing else, comes the audit event. */
  lemma DebitsAreMirrored(s: State, a: Action)
    requires Enabled(s, a) && a.Write?
    ensures var task := s.tasks[a.task];
            TaskAfter(s, a) ==
            if Emits(s, a) != [] && Emits(s, a)[0].status == Debited && Emits(s, a)[0].reported
            then Some(Mirroring(task.instance, task.reference)) else None
  {
  }

  lemma {:induction false} MirroringSince(run: seq<State>, actions: seq<Action>, n: nat, id: TaskId) returns (k: nat)
    requires Run(run, actions) && n < |run| && id in run[n].tasks && run[n].tasks[id].Mirroring?
    ensures k < n && Enabled(run[k], actions[k]) && actions[k] == Write(id, Delivered)
    ensures TaskAfter(run[k], actions[k]) == Some(run[n].tasks[id])
  {
    var s, a := run[n - 1], actions[n - 1];
    TaskOrigins(s, a, id);
    if MovesTask(a) && a.task == id {
      return n - 1;
    }
    k := MirroringSince(run, actions, n - 1, id);
  }

  /** Every audit event PAID carrying DEBITED follows a DEBITED write its own task made and saw applied. */
  lemma MirrorsFollowDebits(run: seq<State>, actions: seq<Action>, n: nat)
    requires Run(run, actions) && n < |actions| && actions[n].Mirror?
    ensures Enabled(run[n], actions[n])
    ensures exists k: nat | k < n ::
              && actions[k] == Write(actions[n].task, Delivered)
              && Enabled(run[k], actions[k])
              && Emits(run[k], actions[k]) != []
              && Emits(run[k], actions[k])[0].status == Debited
              && Emits(run[n], actions[n]) == [Mirrored(Emits(run[k], actions[k])[0].reference)]
  {
    var k := MirroringSince(run, actions, n, actions[n].task);
    DebitsAreMirrored(run[k], actions[k]);
  }

  /** No poll is about a blank UUID, which would ask Swish about all payouts at once. */
  ghost predicate NoBlankPolls(s: State) {
    && (forall id | id in s.tasks && s.tasks[id].Polling? :: !Blank(s.tasks[id].about))
    && (forall i | 0 <= i < |s.history| && s.history[i].Asked? :: !Blank(s.history[i].about))
  }

  lemma NoBlankPollsStep(s: State, a: Action)
    requires Sound(s) && Enabled(s, a) && NoBlankPolls(s)
    ensures NoBlankPolls(Apply(s, a))
  {
    hide TableAfter, TasksAfter;
    forall id | id in TasksAfter(s, a) && TasksAfter(s, a)[id].Polling?
      ensures !Blank(TasksAfter(s, a)[id].about)
    {
      TaskOrigins(s, a, id);
      if MovesTask(a) {
        assert TaskSound(s, a.task, s.tasks[a.task]);
      }
    }
  }

  /** In every run Swish is only ever asked about an instruction, by a UUID that is not blank. */
  lemma {:induction false} NoBlankIsAsked(run: seq<State>, actions: seq<Action>, n: nat)
    requires Run(run, actions) && n < |run|
    ensures NoBlankPolls(run[n])
  {
    if n > 0 {
      NoBlankIsAsked(run, actions, n - 1);
      SettledThroughout(run, actions, n - 1);
      NoBlankPollsStep(run[n - 1], actions[n - 1]);
    }
  }
}
