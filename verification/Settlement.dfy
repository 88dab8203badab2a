/** What every run keeps, whatever statuses callbacks bring: money settled stays settled. */
module Settlement {
  import opened Text
  import opened PayoutStatus
  import opened PayoutStore
  import opened Protocol

  // ---- Bookkeeping ----

  ghost predicate RowsSound(s: State) {
    forall r | r in s.table ::
      && 0 <= s.table[r].attempts <= MAX_ATTEMPTS
      && s.table[r].updatedAt <= s.now
      && (s.table[r].swishRef.Some? ==> s.table[r].swishRef.value in s.used)
  }

  ghost predicate TaskSound(s: State, id: TaskId, task: Task) {
    && id.serial < s.serial
    && (CarriesPayout(task) ==> task.payout.swishRef in s.used && !Blank(task.payout.swishRef))
  }

  ghost predicate Sound(s: State) {
    && RowsSound(s)
    && forall id | id in s.tasks :: TaskSound(s, id, s.tasks[id])
  }

  lemma SoundStep(s: State, a: Action)
    requires Sound(s) && Enabled(s, a)
    ensures Sound(Apply(s, a))
  {
    RowsSoundStep(s, a);
    TasksSoundStep(s, a);
  }

  lemma RowsSoundStep(s: State, a: Action)
    requires Sound(s) && Enabled(s, a)
    ensures RowsSound(Apply(s, a))
  {
    hide TasksAfter, Emits, OnConflict;
    match a
    case Claim(id, _) =>
      assert TaskSound(s, id, s.tasks[id]);
      ClaimIsAllOrNothing(s.table, s.tasks[id].payout, s.now);
    case _ =>
  }

  lemma TasksSoundStep(s: State, a: Action)
    requires Sound(s) && Enabled(s, a)
    ensures var s' := Apply(s, a); forall id | id in s'.tasks :: TaskSound(s', id, s'.tasks[id])
  {
    hide TableAfter, Emits, TasksAfter;
    forall id | id in TasksAfter(s, a)
      ensures TaskSound(Apply(s, a), id, TasksAfter(s, a)[id])
    {
      TaskOrigins(s, a, id);
      if MovesTask(a) {
        assert TaskSound(s, a.task, s.tasks[a.task]);
      }
      if id in s.tasks {
        assert TaskSound(s, id, s.tasks[id]);
      }
    }
  }

  // ---- One step on the table ----

  /** Rows are never lost, never un-settled and never touched in the past. */
  ghost predicate Advances(before: Table, after: Table) {
    forall r | r in before ::
      && r in after
      && Settles(before[r].status, after[r].status)
      && before[r].updatedAt <= after[r].updatedAt
  }

  lemma AdvancesStep(s: State, a: Action)
    requires Sound(s) && Enabled(s, a)
    ensures Advances(s.table, Apply(s, a).table)
  {
    hide TasksAfter, Emits, OnConflict;
    match a
    case Claim(id, _) => ClaimIsAllOrNothing(s.table, s.tasks[id].payout, s.now);
    case _ =>
  }

  // ---- Who writes what ----

  /** The statuses each writer can come up with; only a callback can bring any other. */
  predicate Writes(writer: Writer, status: Status) {
    match writer
    case FromRoute => status in {Paid, Debited, Declined, Error, Pending}
    case Settle(_) => status in {Paid, Debited, Declined, Error}
    case GiveUp(_) => status == NeedsReview
    case FromCallback => true
  }

  ghost predicate InCharacter(s: State) {
    && (forall id | id in s.tasks && s.tasks[id].Writing? :: Writes(s.tasks[id].writer, s.tasks[id].status))
    && (forall i | 0 <= i < |s.history| && s.history[i].Wrote? :: Writes(s.history[i].writer, s.history[i].status))
  }

  lemma InCharacterStep(s: State, a: Action)
    requires InCharacter(s) && Enabled(s, a)
    ensures InCharacter(Apply(s, a))
  {
    hide TableAfter;
    forall id | id in TasksAfter(s, a) && TasksAfter(s, a)[id].Writing?
      ensures Writes(TasksAfter(s, a)[id].writer, TasksAfter(s, a)[id].status)
    {
      TaskOrigins(s, a, id);
    }
  }

  lemma {:induction false} InCharacterThroughout(run: seq<State>, actions: seq<Action>, n: nat)
    requires Run(run, actions) && n < |run|
    ensures InCharacter(run[n])
  {
    if n > 0 {
      InCharacterThroughout(run, actions, n - 1);
      InCharacterStep(run[n - 1], actions[n - 1]);
    }
  }

  /**
   * What a poll settles is an answer Swish gave, giving up is the only way to NEEDS_REVIEW but for a
   * callback, and only callbacks store anything unlisted; whatever else is in the table.
   */
  lemma WritersKeepToTheirStatuses(run: seq<State>, actions: seq<Action>, n: nat, i: nat)
    requires Run(run, actions) && n < |run| && i < |run[n].history| && run[n].history[i].Wrote?
    ensures Writes(run[n].history[i].writer, run[n].history[i].status)
  {
    InCharacterThroughout(run, actions, n);
  }

  // ---- Settling happens once ----

  /** A settling write, or its audit event, shows in the row for good. */
  ghost predicate Reflected(rows: Table, e: Event) {
    && (e.Wrote? && e.status in TERMINAL ==>
          e.reference in rows && rows[e.reference].status in TERMINAL && Settles(e.status, rows[e.reference].status))
    && (e.Mirrored? ==> e.reference in rows && rows[e.reference].status in TERMINAL)
  }

  ghost predicate Repeats(e: Event, f: Event) {
    || (e.Wrote? && f.Wrote? && e.reference == f.reference && e.status == f.status && e.status in TERMINAL)
    || (e.Mirrored? && f.Mirrored? && e.reference == f.reference)
  }

  ghost predicate SettledOnce(rows: Table, history: seq<Event>) {
    && (forall i | 0 <= i < |history| :: Reflected(rows, history[i]))
    && (forall i, j | 0 <= i < j < |history| :: !Repeats(history[i], history[j]))
  }

  /** An applied DEBITED write waiting to be mirrored is the only one of its reference. */
  ghost predicate MirrorsOnce(rows: Table, tasks: map<TaskId, Task>, history: seq<Event>) {
    && (forall id | id in tasks && tasks[id].Mirroring? ::
          tasks[id].reference in rows && rows[tasks[id].reference].status in TERMINAL)
    && (forall i, id | 0 <= i < |history| && id in tasks && tasks[id].Mirroring? ::
          history[i] != Mirrored(tasks[id].reference))
    && (forall id, id' | id in tasks && id' in tasks && tasks[id].Mirroring? && tasks[id'].Mirroring? ::
          tasks[id].reference == tasks[id'].reference ==> id == id')
  }

  lemma SettledOnceExtends(rows: Table, after: Table, history: seq<Event>, emitted: seq<Event>)
    requires Advances(rows, after) && SettledOnce(rows, history) && |emitted| <= 1
    requires emitted != [] ==> Reflected(after, emitted[0])
    requires emitted != [] ==> forall i | 0 <= i < |history| :: !Repeats(history[i], emitted[0])
    ensures SettledOnce(after, history + emitted)
  {
    forall i | 0 <= i < |history|
      ensures Reflected(after, history[i])
    {
      assert Reflected(rows, history[i]);
    }
  }

  lemma SettledOnceStep(s: State, a: Action)
    requires Sound(s) && Enabled(s, a)
    requires SettledOnce(s.table, s.history) && MirrorsOnce(s.table, s.tasks, s.history)
    ensures SettledOnce(Apply(s, a).table, Apply(s, a).history)
  {
    AdvancesStep(s, a);
    EmittedOnce(s, a);
    SettledOnceExtends(s.table, TableAfter(s, a), s.history, Emits(s, a));
  }

  lemma EmittedOnce(s: State, a: Action)
    requires Enabled(s, a)
    requires SettledOnce(s.table, s.history) && MirrorsOnce(s.table, s.tasks, s.history)
    ensures |Emits(s, a)| <= 1
    ensures Emits(s, a) != [] ==> Reflected(TableAfter(s, a), Emits(s, a)[0])
    ensures Emits(s, a) != [] ==> forall i | 0 <= i < |s.history| :: !Repeats(s.history[i], Emits(s, a)[0])
  {
    if Emits(s, a) != [] {
      forall i | 0 <= i < |s.history|
        ensures !Repeats(s.history[i], Emits(s, a)[0])
      {
        assert Reflected(s.table, s.history[i]);
      }
    }
  }

  /** A task is about to mirror either already, or because its own write just settled the row. */
  lemma MirroringOrigins(s: State, a: Action, id: TaskId)
    requires Enabled(s, a) && id in TasksAfter(s, a) && TasksAfter(s, a)[id].Mirroring?
    ensures var r := TasksAfter(s, a)[id].reference;
            || (id in s.tasks && s.tasks[id] == TasksAfter(s, a)[id] && a != Mirror(id))
            || (a.Write? && id == a.task && r in s.table && s.table[r].status !in TERMINAL
                && r in TableAfter(s, a) && TableAfter(s, a)[r].status == Debited)
  {
    TaskOrigins(s, a, id);
  }

  lemma MirrorsOnceStep(s: State, a: Action)
    requires Sound(s) && Enabled(s, a)
    requires SettledOnce(s.table, s.history) && MirrorsOnce(s.table, s.tasks, s.history)
    ensures MirrorsOnce(Apply(s, a).table, Apply(s, a).tasks, Apply(s, a).history)
  {
    hide TableAfter, TasksAfter, Emits;
    AdvancesStep(s, a);
    var rows, tasks := TableAfter(s, a), TasksAfter(s, a);
    forall id | id in tasks && tasks[id].Mirroring?
      ensures tasks[id].reference in rows && rows[tasks[id].reference].status in TERMINAL
      ensures forall i | 0 <= i < |s.history + Emits(s, a)| ::
                (s.history + Emits(s, a))[i] != Mirrored(tasks[id].reference)
    {
      MirroringOrigins(s, a, id);
      MirrorUnused(s, a, id);
    }
    forall id, id' | id in tasks && id' in tasks && tasks[id].Mirroring? && tasks[id'].Mirroring?
                     && tasks[id].reference == tasks[id'].reference
      ensures id == id'
    {
      MirroringOrigins(s, a, id);
      MirroringOrigins(s, a, id');
    }
  }

  lemma MirrorUnused(s: State, a: Action, id: TaskId)
    requires Enabled(s, a) && id in TasksAfter(s, a) && TasksAfter(s, a)[id].Mirroring?
    requires SettledOnce(s.table, s.history) && MirrorsOnce(s.table, s.tasks, s.history)
    ensures forall i | 0 <= i < |s.history| :: s.history[i] != Mirrored(TasksAfter(s, a)[id].reference)
    ensures Mirrored(TasksAfter(s, a)[id].reference) !in Emits(s, a)
  {
    MirroringOrigins(s, a, id);
    forall i | 0 <= i < |s.history|
      ensures s.history[i] != Mirrored(TasksAfter(s, a)[id].reference)
    {
      assert Reflected(s.table, s.history[i]);
    }
  }

  // ---- Sweeps keep their distance ----

  predicate SweptRow(e: Event, r: string) {
    e.Swept? && r in e.claims
  }

  ghost predicate Spaced(rows: Table, history: seq<Event>) {
    && (forall i, r | 0 <= i < |history| && SweptRow(history[i], r) ::
          r in rows && history[i].at <= rows[r].updatedAt)
    && (forall i, j, r | 0 <= i < j < |history| && SweptRow(history[i], r) && SweptRow(history[j], r) ::
          history[i].at + STALL_AFTER < history[j].at)
  }

  lemma SpacedStep(s: State, a: Action)
    requires Sound(s) && Enabled(s, a) && Spaced(s.table, s.history)
    ensures Spaced(Apply(s, a).table, Apply(s, a).history)
  {
    hide TableAfter, TasksAfter, Emits;
    AdvancesStep(s, a);
    SweptNow(s, a);
  }

  /** What a sweep claims was old and is now young. */
  lemma SweptNow(s: State, a: Action)
    requires Enabled(s, a)
    ensures |Emits(s, a)| <= 1
    ensures forall r | Emits(s, a) != [] && SweptRow(Emits(s, a)[0], r) ::
              && r in s.table
              && s.table[r].updatedAt + STALL_AFTER < s.now == Emits(s, a)[0].at
              && r in TableAfter(s, a)
              && TableAfter(s, a)[r].updatedAt == s.now
  {
    hide TasksAfter;
  }

  // ---- Over whole runs ----

  ghost predicate Settled(s: State) {
    && Sound(s)
    && SettledOnce(s.table, s.history)
    && MirrorsOnce(s.table, s.tasks, s.history)
    && Spaced(s.table, s.history)
  }

  lemma SettledStep(s: State, a: Action)
    requires Settled(s) && Enabled(s, a)
    ensures Settled(Apply(s, a))
  {
    SoundStep(s, a);
    SettledOnceStep(s, a);
    MirrorsOnceStep(s, a);
    SpacedStep(s, a);
  }

  lemma {:induction false} SettledThroughout(run: seq<State>, actions: seq<Action>, n: nat)
    requires Run(run, actions) && n < |run|
    ensures Settled(run[n])
  {
    if n > 0 {
      SettledThroughout(run, actions, n - 1);
      SettledStep(run[n - 1], actions[n - 1]);
    }
  }

  lemma AdvancesAt(run: seq<State>, actions: seq<Action>, n: nat)
    requires Run(run, actions) && n < |actions|
    ensures Advances(run[n].table, run[n + 1].table)
  {
    SettledThroughout(run, actions, n);
    AdvancesStep(run[n], actions[n]);
  }

  /**
   * A settled payout is never un-settled: from PAID every later status of the row is PAID, from
   * DEBITED only DEBITED or PAID, whatever callbacks, polls, sweeps, claims and crashes come between.
   */
  lemma {:induction false} NeverUnsettled(run: seq<State>, actions: seq<Action>, i: nat, j: nat, r: string)
    requires Run(run, actions) && i <= j < |run| && r in run[i].table
    ensures r in run[j].table && Settles(run[i].table[r].status, run[j].table[r].status)
  {
    if i < j {
      NeverUnsettled(run, actions, i, j - 1, r);
      AdvancesAt(run, actions, j - 1);
    }
  }

  /**
   * A reference gets at most one applied DEBITED write, one applied PAID write and one audit event
   * PAID carrying DEBITED, counting the route's poll, callbacks and reconcile together.
   */
  lemma SettlesOnce(run: seq<State>, actions: seq<Action>, n: nat)
    requires Run(run, actions) && n < |run|
    ensures forall i, j | 0 <= i < j < |run[n].history| :: !Repeats(run[n].history[i], run[n].history[j])
  {
    SettledThroughout(run, actions, n);
  }

  /** Two sweep claims of one row, by whichever instances, are more than STALL_AFTER apart. */
  lemma SweepsAreSpaced(run: seq<State>, actions: seq<Action>, n: nat, i: nat, j: nat, r: string)
    requires Run(run, actions) && n < |run| && i < j < |run[n].history|
    requires SweptRow(run[n].history[i], r) && SweptRow(run[n].history[j], r)
    ensures run[n].history[i].at + STALL_AFTER < run[n].history[j].at
  {
    SettledThroughout(run, actions, n);
  }
}
