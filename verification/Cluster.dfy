/**
 * The running system: the code of each handler between two points where other tasks may run, as the
 * instances execute it against the shared store. Every method is one step of `Protocol`.
 */
module Cluster {
  import opened Prelude
  import opened Text
  import opened PayoutStatus
  import opened PayoutStore
  import opened Polling
  import opened Protocol

  class Instances {
    const store: Store
    var tasks: map<TaskId, Task>
    var serial: nat
    var used: set<string>
    var history: seq<Event>

    function View(): State
      reads this, store
    {
      State(store.rows, store.now, tasks, serial, used, history)
    }

    constructor (store: Store, used: set<string>)
      requires forall r | r in store.rows ::
                 && 0 <= store.rows[r].attempts <= MAX_ATTEMPTS
                 && store.rows[r].updatedAt <= store.now
                 && (store.rows[r].swishRef.Some? ==> store.rows[r].swishRef.value in used)
      ensures this.store == store && Init(View())
    {
      this.store := store;
      this.tasks := map[];
      this.serial := 0;
      this.used := used;
      this.history := [];
    }

    method Finish(id: TaskId)
      modifies this`tasks
      ensures tasks == old(tasks) - {id}
    {
      tasks := tasks - {id};
    }

    // ---- The payout route (`src/http/routes/payout.rs`) ----

    /** A validated request gets its UUID. */
    method AcceptRequest(instance: nat, payout: Payout)
      requires payout.swishRef !in used && !Blank(payout.swishRef)
      modifies this
      ensures Step(old(View()), Arrive(instance, payout), View())
    {
      tasks := tasks[TaskId(serial, payout.reference) := Claiming(instance, payout)];
      serial := serial + 1;
      used := used + {payout.swishRef};
    }

    /** Claims the reference and answers anything but a claim of one's own with a conflict. */
    method ClaimReference(id: TaskId, fault: Fault)
      requires id in tasks && tasks[id].Claiming?
      modifies this, store
      ensures Step(old(View()), Claim(id, fault), View())
    {
      var task := tasks[id];
      if fault == NotCommitted {
        Finish(id);
        return;
      }
      var claim := store.Claim(task.payout);
      if fault == AnswerLost {
        Finish(id);
        return;
      }
      if MayProceed(claim, task.payout.swishRef) {
        tasks := tasks[id := Submitting(task.instance, task.payout)];
      } else {
        Finish(id);
      }
    }

    /** Building or signing the payload failed: nothing was sent. */
    method FailToSubmit(id: TaskId)
      requires id in tasks && tasks[id].Submitting?
      modifies this`tasks
      ensures Step(old(View()), FailToSend(id), View())
    {
      var task := tasks[id];
      tasks := tasks[id := Writing(task.instance, task.payout.reference, Some(task.payout.swishRef), Error, FromRoute)];
    }

    /** The one POST. */
    method SubmitPayout(id: TaskId)
      requires id in tasks && tasks[id].Submitting?
      modifies this`tasks, this`history
      ensures Step(old(View()), Send(id), View())
    {
      var task := tasks[id];
      history := history + [Posted(task.payout)];
      tasks := tasks[id := Submitted(task.instance, task.payout)];
    }

    /** 201 starts the background poll; a rejection or no answer at all is recorded as an error. */
    method HearAnswer(id: TaskId, accepted: bool)
      requires id in tasks && tasks[id].Submitted?
      modifies this`tasks
      ensures Step(old(View()), Answer(id, accepted), View())
    {
      var task := tasks[id];
      var p := task.payout;
      if accepted {
        tasks := tasks[id := Polling(task.instance, p.reference, p.swishRef, Route, START)];
      } else {
        tasks := tasks[id := Writing(task.instance, p.reference, Some(p.swishRef), Error, FromRoute)];
      }
    }

    // ---- Polling, for the route and for reconcile (`src/swish/reconcile.rs`) ----

    method AskSwish(id: TaskId, response: Response)
      requires id in tasks && tasks[id].Polling?
      modifies this`tasks, this`history
      ensures Step(old(View()), Ask(id, response), View())
    {
      var task := tasks[id];
      history := history + [Asked(task.reference, task.about, task.origin, task.poll.attempt)];
      match PollStep(task.poll, response) {
        case Continue(poll) => tasks := tasks[id := task.(poll := poll)];
        case Finished(result) =>
          match task.origin {
            case Route => RoutePollOver(id, task, result);
            case Chase(attempts) => ReconcilePollOver(id, task, attempts, result);
          }
      }
    }

    /** A failed poll of the route's own counts as an error. */
    method RoutePollOver(id: TaskId, task: Task, result: PollResult)
      requires id in tasks && task.Polling? && task.origin.Route?
      modifies this`tasks
      ensures tasks == old(tasks)[id := AfterPoll(task, result).value]
    {
      var status := Error;
      if result.Ok? {
        status := result.value;
      }
      tasks := tasks[id := Writing(task.instance, task.reference, Some(task.about), status, FromRoute)];
    }

    /** `settle`, or `stop_if_exhausted`. */
    method ReconcilePollOver(id: TaskId, task: Task, attempts: int, result: PollResult)
      requires id in tasks && task.Polling? && task.origin == Chase(attempts)
      modifies this`tasks
      ensures tasks == if AfterPoll(task, result).Some? then old(tasks)[id := AfterPoll(task, result).value]
                       else old(tasks) - {id}
    {
      if result.Ok? && result.value != Pending {
        tasks := tasks[id := Writing(task.instance, task.reference, Some(task.about), result.value, Settle(attempts))];
      } else if attempts < MAX_ATTEMPTS {
        Finish(id);
      } else {
        tasks := tasks[id := Writing(task.instance, task.reference, Some(task.about), NeedsReview, GiveUp(attempts))];
      }
    }

    /** The start of `reconcile`. */
    method ReadForReconcile(id: TaskId, fails: bool)
      requires id in tasks && tasks[id].Reading?
      modifies this`tasks
      ensures Step(old(View()), Read(id, fails), View())
    {
      var task := tasks[id];
      if fails {
        Finish(id);
        return;
      }
      var row := store.Read(task.reference);
      match row {
        case None => Finish(id);
        case Some(snapshot) =>
          if snapshot.swishRef.None? || Blank(snapshot.swishRef.value) {
            tasks := tasks[id := Writing(task.instance, task.reference, None, NeedsReview, GiveUp(task.attempts))];
          } else {
            tasks := tasks[id := Polling(task.instance, task.reference, snapshot.swishRef.value,
                                         Chase(task.attempts), START)];
          }
      }
    }

    // ---- The callback (`src/http/routes/callback.rs`) ----

    method AcceptCallback(instance: nat, reference: string, about: string, text: Option<string>)
      requires reference != ""
      modifies this`tasks, this`serial
      ensures Step(old(View()), Report(instance, reference, about, text), View())
    {
      tasks := tasks[TaskId(serial, reference) := Checking(instance, reference, about, CallbackStatus(text))];
      serial := serial + 1;
    }

    method CheckCallback(id: TaskId, fails: bool)
      requires id in tasks && tasks[id].Checking?
      modifies this`tasks
      ensures Step(old(View()), Check(id, fails), View())
    {
      var task := tasks[id];
      if fails {
        Finish(id);
        return;
      }
      var row := store.Read(task.reference);
      match row {
        case None => Finish(id);
        case Some(snapshot) =>
          if snapshot.swishRef != Some(task.about) {
            Finish(id);
          } else {
            tasks := tasks[id := Writing(task.instance, task.reference, Some(task.about), task.status, FromCallback)];
          }
      }
    }

    // ---- Writing a status, for all three ----

    /** `update_swish_status`, and whether the audit event PAID is to follow. */
    method WriteStatus(id: TaskId, fault: Fault)
      requires id in tasks && tasks[id].Writing?
      modifies this`tasks, this`history, store
      ensures Step(old(View()), Write(id, fault), View())
    {
      var task := tasks[id];
      if fault == NotCommitted {
        Finish(id);
        return;
      }
      var before := store.rows;
      var applied := store.SetStatusUnlessTerminal(task.reference, task.status);
      if applied {
        var row := before[task.reference];
        history := history + [Wrote(task.reference, task.recorded, task.status, task.writer,
                                    row.swishRef, row.attempts, fault == Delivered)];
      }
      if applied && fault == Delivered && task.status == Debited {
        tasks := tasks[id := Mirroring(task.instance, task.reference)];
      } else {
        Finish(id);
      }
    }

    method MirrorDebit(id: TaskId)
      requires id in tasks && tasks[id].Mirroring?
      modifies this`tasks, this`history
      ensures Step(old(View()), Mirror(id), View())
    {
      history := history + [Mirrored(tasks[id].reference)];
      Finish(id);
    }

    // ---- The stall sweep (`src/main.rs`) ----

    method SweepStalled(instance: nat, fault: Fault)
      modifies this`tasks, this`serial, this`history, store
      ensures Step(old(View()), Sweep(instance, fault), View())
    {
      hide Due, StalledClaims, StalledClaimed;
      if fault != NotCommitted {
        var stalled := store.ClaimStalled(MAX_ATTEMPTS, STALL_AFTER);
        history := history + [Swept(stalled, store.now)];
        if fault == Delivered {
          tasks := tasks + map id | id in (set r | r in stalled :: TaskId(serial, r)) ::
            Reading(instance, id.reference, stalled[id.reference]);
        }
      }
      serial := serial + 1;
    }

    // ---- The world ----

    method Wait(now: int)
      requires store.now <= now
      modifies store
      ensures Step(old(View()), Tick(now), View())
    {
      store.now := now;
    }

    /** An instance dies: its tasks are gone, the table is not. */
    method LoseInstance(instance: nat)
      modifies this`tasks
      ensures Step(old(View()), Crash(instance), View())
    {
      tasks := map id | id in tasks && tasks[id].instance != instance :: tasks[id];
    }

    /** A single task is cancelled, as when a client hangs up on its request. */
    method LoseTask(id: TaskId)
      requires id in tasks
      modifies this`tasks
      ensures Step(old(View()), Abandon(id), View())
    {
      Finish(id);
    }
  }
}
