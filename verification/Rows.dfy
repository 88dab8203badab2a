/**
 * What happens to a row: nothing but what is announced, and a sweep claims it exactly when it has
 * been left alone for long enough.
 */
module Rows {
  import opened Prelude
  import opened PayoutStatus
  import opened PayoutStore
  import opened Protocol
  import opened Settlement
  import opened Instructions

  // ---- One step on one row ----

  /** The step announces a write to the row of `r`. */
  predicate WritesTo(s: State, a: Action, r: string)
    requires Enabled(s, a)
  {
    Emits(s, a) != [] && Emits(s, a)[0].Wrote? && Emits(s, a)[0].reference == r
  }

  predicate Sweeps(s: State, a: Action, r: string)
    requires Enabled(s, a)
  {
    Emits(s, a) != [] && SweptRow(Emits(s, a)[0], r)
  }

  predicate Touches(s: State, a: Action, r: string)
    requires Enabled(s, a)
  {
    Takes(s, a, r) || WritesTo(s, a, r) || Sweeps(s, a, r)
  }

  /**
   * A row comes into being or starts over by a claim that takes its reference, moves to a new status
   * by a write, gains an attempt by a sweep, each at the time of the step, and is otherwise as it was.
   */
  lemma RowsMoveAsAnnounced(s: State, a: Action, r: string)
    requires Enabled(s, a)
    ensures r in TableAfter(s, a) <==> r in s.table || Takes(s, a, r)
    ensures Takes(s, a, r) ==>
              var payout := s.tasks[a.task].payout;
              TableAfter(s, a)[r] ==
              Row(payout.payeeAlias, payout.payeeSsn, payout.amount, payout.message, Some(payout.swishRef), Created, 0, s.now)
    ensures WritesTo(s, a, r) ==>
              && r in s.table
              && Emits(s, a)[0].landed == s.table[r].swishRef
              && Emits(s, a)[0].attempts == s.table[r].attempts
              && TableAfter(s, a)[r] == s.table[r].(status := Emits(s, a)[0].status, updatedAt := s.now)
    ensures Sweeps(s, a, r) ==>
              && r in s.table
              && Emits(s, a)[0].claims[r] == s.table[r].attempts + 1
              && TableAfter(s, a)[r] == s.table[r].(attempts := s.table[r].attempts + 1, updatedAt := s.now)
    ensures r in s.table && !Touches(s, a, r) ==> TableAfter(s, a)[r] == s.table[r]
  {
    match a
    case Claim(id, _) => ClaimIsAllOrNothing(s.table, s.tasks[id].payout, s.now);
    case _ =>
  }

  /** A write that reaches the database changes its row unless the payout is settled, PAID after DEBITED aside. */
  lemma WritesApplyUnlessSettled(s: State, a: Action)
    requires Enabled(s, a) && a.Write?
    ensures var task := s.tasks[a.task];
            WritesTo(s, a, task.reference) <==>
              && a.fault != NotCommitted
              && task.reference in s.table
              && s.table[task.reference].status != Paid
              && (s.table[task.reference].status == Debited ==> task.status == Paid)
  {
  }

  // ---- The status of a row ----

  lemma StatusMoves(run: seq<State>, actions: seq<Action>, n: nat, r: string)
    requires Run(run, actions) && n < |actions|
    ensures Enabled(run[n], actions[n])
    ensures WritesTo(run[n], actions[n], r) ==>
              r in run[n + 1].table && run[n + 1].table[r].status == Emits(run[n], actions[n])[0].status
    ensures r in run[n].table && !WritesTo(run[n], actions[n], r) && !Reclaims(run[n], actions[n], r) ==>
              r in run[n + 1].table && run[n + 1].table[r].status == run[n].table[r].status
  {
    hide Emits;
    RowsMoveAsAnnounced(run[n], actions[n], r);
  }

  /** From a write on, a row holds the status written until it is written again or reclaimed. */
  lemma {:induction false} StatusIsTheLastWritten(run: seq<State>, actions: seq<Action>, i: nat, j: nat, r: string)
    requires Run(run, actions) && i < j < |run| && WritesTo(run[i], actions[i], r)
    requires forall k | i < k < j :: !WritesTo(run[k], actions[k], r) && !Reclaims(run[k], actions[k], r)
    ensures r in run[j].table && run[j].table[r].status == Emits(run[i], actions[i])[0].status
  {
    hide Step, Init, WritesTo, Reclaims, Emits;
    StatusMoves(run, actions, j - 1, r);
    if i + 1 < j {
      StatusIsTheLastWritten(run, actions, i, j - 1, r);
    }
  }

  // ---- When a sweep claims a row ----

  /** When the row was last touched in a run, or before it. */
  ghost function LastTouch(run: seq<State>, actions: seq<Action>, n: nat, r: string): int
    requires Run(run, actions) && n < |run| && r in run[n].table
  {
    if n == 0 then run[0].table[r].updatedAt
    else if r !in run[n - 1].table || Touches(run[n - 1], actions[n - 1], r) then run[n - 1].now
    else LastTouch(run, actions, n - 1, r)
  }

  lemma {:induction false} UpdatedAtIsTheLastTouch(run: seq<State>, actions: seq<Action>, n: nat, r: string)
    requires Run(run, actions) && n < |run| && r in run[n].table
    ensures run[n].table[r].updatedAt == LastTouch(run, actions, n, r)
  {
    if n > 0 {
      RowsMoveAsAnnounced(run[n - 1], actions[n - 1], r);
      if r in run[n - 1].table {
        UpdatedAtIsTheLastTouch(run, actions, n - 1, r);
      }
    }
  }

  lemma NotYetSpawned(run: seq<State>, actions: seq<Action>, n: nat, r: string)
    requires Run(run, actions) && n < |run|
    ensures TaskId(run[n].serial, r) !in run[n].tasks
  {
    SettledThroughout(run, actions, n);
    var id := TaskId(run[n].serial, r);
    assert id in run[n].tasks ==> TaskSound(run[n], id, run[n].tasks[id]);
  }

  /**
   * A committed sweep claims a row exactly when its status is CREATED, PENDING or ERROR, fewer than
   * three attempts are counted against it, and nothing touched it for more than thirty minutes; and
   * when the sweep's answer arrives, the claim is chased by a task of its own.
   */
  lemma SweepsClaimExactly(run: seq<State>, actions: seq<Action>, n: nat, r: string)
    requires Run(run, actions) && n < |actions| && actions[n].Sweep? && actions[n].fault != NotCommitted
    requires r in run[n].table
    ensures var row := run[n].table[r];
            Sweeps(run[n], actions[n], r) <==>
              && (row.status == Created || row.status == Pending || row.status == Error)
              && row.attempts < 3
              && LastTouch(run, actions, n, r) + 30 * 60 * 1_000_000 < run[n].now
    ensures var id := TaskId(run[n].serial, r);
            && (id in run[n + 1].tasks <==> Sweeps(run[n], actions[n], r) && actions[n].fault == Delivered)
            && (id in run[n + 1].tasks ==>
                  run[n + 1].tasks[id] == Reading(actions[n].instance, r, run[n].table[r].attempts + 1))
  {
    UpdatedAtIsTheLastTouch(run, actions, n, r);
    NotYetSpawned(run, actions, n, r);
  }

  // ---- Crashes ----

  lemma InstanceMoved(s: State, a: Action)
    requires Enabled(s, a) && MovesTask(a) && TaskAfter(s, a).Some?
    ensures TaskAfter(s, a).value.instance == s.tasks[a.task].instance
  {
  }

  /** A task stays with its instance, and once gone never comes back. */
  lemma {:induction false} TasksStayHome(run: seq<State>, actions: seq<Action>, i: nat, j: nat, id: TaskId)
    requires Run(run, actions) && i <= j < |run|
    requires id.serial < run[i].serial
    ensures id.serial < run[j].serial
    ensures id in run[j].tasks ==>
              id in run[i].tasks && run[j].tasks[id].instance == run[i].tasks[id].instance
  {
    if i < j {
      TasksStayHome(run, actions, i, j - 1, id);
      if id in run[j].tasks {
        TaskOrigins(run[j - 1], actions[j - 1], id);
        if MovesTask(actions[j - 1]) && id == actions[j - 1].task {
          InstanceMoved(run[j - 1], actions[j - 1]);
        }
      }
    }
  }

  /** A crash ends the tasks of its instance for good, and leaves all others and the table alone. */
  lemma CrashesEndTheirTasks(run: seq<State>, actions: seq<Action>, n: nat, j: nat, id: TaskId)
    requires Run(run, actions) && n < j < |run| && actions[n].Crash? && id in run[n].tasks
    ensures run[n + 1].table == run[n].table
    ensures if run[n].tasks[id].instance == actions[n].instance then id !in run[j].tasks
            else id in run[n + 1].tasks && run[n + 1].tasks[id] == run[n].tasks[id]
  {
    SettledThroughout(run, actions, n);
    assert TaskSound(run[n], id, run[n].tasks[id]);
    TasksStayHome(run, actions, n + 1, j, id);
  }
}
