/**
 * What a run keeps about one reference as long as that reference is not reclaimed, whatever other
 * rows hold: it is one instruction, sent at most once and chased a bounded number of times.
 */
module PayOnce {
  import opened Prelude
  import opened Text
  import opened PayoutStore
  import opened Polling
  import opened Protocol
  import opened Settlement
  import opened Instructions

  // ---- Tasks agree with the row they are about ----

  ghost predicate Carries(rows: Table, r: string, uuid: string) {
    r in rows && rows[r].swishRef == Some(uuid)
  }

  /** An attempt number handed out for a row by a sweep. */
  ghost predicate Counted(rows: Table, r: string, attempts: int) {
    r in rows && 1 <= attempts <= rows[r].attempts
  }

  /** What a task in flight goes by is still what the row of its reference says. */
  ghost predicate Fits(rows: Table, task: Task) {
    match task
    case Submitting(_, payout) => Holds(rows, payout)
    case Submitted(_, payout) => Holds(rows, payout)
    case Polling(_, r, about, origin, poll) =>
      Carries(rows, r, about) && poll.attempt < POLL_ATTEMPTS && (origin.Chase? ==> Counted(rows, r, origin.attempts))
    case Reading(_, r, attempts) => Counted(rows, r, attempts)
    case Writing(_, r, recorded, status, writer) =>
      && (recorded.Some? ==> Carries(rows, r, recorded.value))
      && (recorded.None? ==> writer.GiveUp? && r in rows && (rows[r].swishRef.Some? ==> Blank(rows[r].swishRef.value)))
      && (writer.GiveUp? ==> r in rows && (recorded.Some? ==> rows[r].attempts == MAX_ATTEMPTS))
    case _ => true
  }

  ghost predicate AllFit(rows: Table, tasks: map<TaskId, Task>, r: string) {
    forall id | id in tasks && Subject(tasks[id]) == r :: Fits(rows, tasks[id])
  }

  ghost predicate Bounded(rows: Table, r: string) {
    r in rows ==> rows[r].attempts <= MAX_ATTEMPTS
  }

  lemma FitsStays(before: Table, after: Table, task: Task)
    requires Keeps(before, after, Subject(task)) && Bounded(after, Subject(task)) && Fits(before, task)
    ensures Fits(after, task)
  {
  }

  /** A task that moves on still fits. */
  lemma FitsMoved(s: State, a: Action)
    requires Sound(s) && Waiting(s) && Enabled(s, a) && MovesTask(a) && Fits(s.table, s.tasks[a.task])
    requires TaskAfter(s, a).Some?
    ensures Fits(TableAfter(s, a), TaskAfter(s, a).value)
  {
    hide Claimed, Waiting;
    match a
    case Claim(_, _) => WinnerFits(s, a);
    case _ =>
  }

  lemma WinnerFits(s: State, a: Action)
    requires Waiting(s) && Enabled(s, a) && a.Claim? && TaskAfter(s, a).Some?
    ensures Fits(TableAfter(s, a), TaskAfter(s, a).value)
  {
    ClaimIsAllOrNothing(s.table, s.tasks[a.task].payout, s.now);
  }

  lemma FitsStep(s: State, a: Action, r: string)
    requires Sound(s) && Waiting(s) && Enabled(s, a) && !Reclaims(s, a, r) && AllFit(s.table, s.tasks, r)
    ensures AllFit(TableAfter(s, a), TasksAfter(s, a), r)
  {
    if r in s.table {
      KeepsStep(s, a, r);
    }
    RowsSoundStep(s, a);
    assert Bounded(TableAfter(s, a), r);
    forall id | id in TasksAfter(s, a) && Subject(TasksAfter(s, a)[id]) == r
      ensures Fits(TableAfter(s, a), TasksAfter(s, a)[id])
    {
      TaskFits(s, a, id);
    }
  }

  lemma TaskFits(s: State, a: Action, id: TaskId)
    requires Sound(s) && Waiting(s) && Enabled(s, a) && id in TasksAfter(s, a)
    requires var r := Subject(TasksAfter(s, a)[id]);
             Keeps(s.table, TableAfter(s, a), r) && Bounded(TableAfter(s, a), r) && AllFit(s.table, s.tasks, r)
    ensures Fits(TableAfter(s, a), TasksAfter(s, a)[id])
  {
    TaskOrigins(s, a, id);
    if id in s.tasks && TasksAfter(s, a)[id] == s.tasks[id] {
      FitsStays(s.table, TableAfter(s, a), s.tasks[id]);
    } else if MovesTask(a) {
      KnowsMoved(s, a);
      FitsMoved(s, a);
    }
  }

  // ---- No two tasks share an instruction or an attempt ----

  /** The instruction a route task will send, has sent or is polling. */
  function RouteUuid(task: Task): Option<string> {
    match task
    case Claiming(_, payout) => Some(payout.swishRef)
    case Submitting(_, payout) => Some(payout.swishRef)
    case Submitted(_, payout) => Some(payout.swishRef)
    case Polling(_, _, about, Route, _) => Some(about)
    case _ => None
  }

  /** The row and attempt a reconcile task was spawned for, until its poll is over. */
  function ChaseKey(task: Task): Option<(string, int)> {
    match task
    case Reading(_, r, attempts) => Some((r, attempts))
    case Polling(_, r, _, Chase(attempts), _) => Some((r, attempts))
    case _ => None
  }

  ghost predicate Clash(t: Task, u: Task) {
    || (RouteUuid(t).Some? && RouteUuid(t) == RouteUuid(u))
    || (ChaseKey(t).Some? && ChaseKey(t) == ChaseKey(u))
  }

  ghost predicate Distinct(tasks: map<TaskId, Task>, r: string) {
    forall i, j | i in tasks && j in tasks && i != j && Subject(tasks[i]) == r && Subject(tasks[j]) == r ::
      !Clash(tasks[i], tasks[j])
  }

  /** Moving on never takes up another instruction or attempt. */
  lemma KeysMoved(s: State, a: Action)
    requires Enabled(s, a) && MovesTask(a) && TaskAfter(s, a).Some?
    ensures RouteUuid(TaskAfter(s, a).value) in {None, RouteUuid(s.tasks[a.task])}
    ensures ChaseKey(TaskAfter(s, a).value) in {None, ChaseKey(s.tasks[a.task])}
  {
  }

  /** Every instruction in flight is a used one, and every attempt in flight has been counted. */
  lemma KeysTaken(s: State, id: TaskId)
    requires Sound(s) && id in s.tasks && Fits(s.table, s.tasks[id])
    ensures RouteUuid(s.tasks[id]).Some? ==> RouteUuid(s.tasks[id]).value in s.used
    ensures ChaseKey(s.tasks[id]).Some? ==> Counted(s.table, ChaseKey(s.tasks[id]).value.0, ChaseKey(s.tasks[id]).value.1)
  {
    assert TaskSound(s, id, s.tasks[id]);
  }

  /** The task a task in flight comes from, as far as instruction and attempt go. */
  lemma Inherits(s: State, a: Action, id: TaskId)
    requires Enabled(s, a) && id in TasksAfter(s, a)
    ensures var task := TasksAfter(s, a)[id];
            || (id in s.tasks && Subject(task) == Subject(s.tasks[id])
                && RouteUuid(task) in {None, RouteUuid(s.tasks[id])} && ChaseKey(task) in {None, ChaseKey(s.tasks[id])})
            || (a.Arrive? && id.serial == s.serial && RouteUuid(task) == Some(a.payout.swishRef) && ChaseKey(task) == None)
            || (a.Report? && id.serial == s.serial && RouteUuid(task) == None && ChaseKey(task) == None)
            || (a.Sweep? && id.serial == s.serial && id.reference in s.table && RouteUuid(task) == None
                && ChaseKey(task) == Some((id.reference, s.table[id.reference].attempts + 1)))
  {
    TaskOrigins(s, a, id);
    if MovesTask(a) && TaskAfter(s, a).Some? {
      KeysMoved(s, a);
      KnowsMoved(s, a);
    }
  }

  lemma DistinctStep(s: State, a: Action, r: string)
    requires Sound(s) && Enabled(s, a) && Distinct(s.tasks, r) && AllFit(s.table, s.tasks, r)
    ensures Distinct(TasksAfter(s, a), r)
  {
    var tasks := TasksAfter(s, a);
    forall i, j | i in tasks && j in tasks && i != j && Subject(tasks[i]) == r && Subject(tasks[j]) == r
      ensures !Clash(tasks[i], tasks[j])
    {
      TasksApart(s, a, r, i, j);
    }
  }

  lemma TasksApart(s: State, a: Action, r: string, i: TaskId, j: TaskId)
    requires Sound(s) && Enabled(s, a) && Distinct(s.tasks, r) && AllFit(s.table, s.tasks, r)
    requires i in TasksAfter(s, a) && j in TasksAfter(s, a) && i != j
    requires Subject(TasksAfter(s, a)[i]) == r && Subject(TasksAfter(s, a)[j]) == r
    ensures !Clash(TasksAfter(s, a)[i], TasksAfter(s, a)[j])
  {
    hide TasksAfter, Fits;
    Inherits(s, a, i);
    Inherits(s, a, j);
    OnlyOneArrives(s, a, i, j);
    if i in s.tasks {
      assert TaskSound(s, i, s.tasks[i]);
      KeysTaken(s, i);
    }
    if j in s.tasks {
      assert TaskSound(s, j, s.tasks[j]);
      KeysTaken(s, j);
    }
    if i in s.tasks && j in s.tasks {
      assert !Clash(s.tasks[i], s.tasks[j]);
    }
  }

  lemma OnlyOneArrives(s: State, a: Action, i: TaskId, j: TaskId)
    requires Sound(s) && Enabled(s, a) && i in TasksAfter(s, a) && j in TasksAfter(s, a) && i != j
    ensures a.Arrive? || a.Report? ==> i in s.tasks || j in s.tasks
    ensures a.Sweep? && i in s.tasks ==> i.serial < s.serial && TasksAfter(s, a)[i] == s.tasks[i]
  {
    if i in s.tasks {
      assert TaskSound(s, i, s.tasks[i]);
    }
  }

  // ---- The past agrees with the table ----

  /** What an event says about `r`, if anything, is still what the row of `r` says. */
  ghost predicate Recorded(rows: Table, e: Event, r: string) {
    match e
    case Posted(payout) => payout.reference == r ==> Holds(rows, payout)
    case Asked(subject, about, origin, index) =>
      subject == r ==>
        Carries(rows, r, about) && index < POLL_ATTEMPTS && (origin.Chase? ==> Counted(rows, r, origin.attempts))
    case Swept(claims, _) => r in claims ==> Counted(rows, r, claims[r])
    case Wrote(subject, recorded, _, writer, landed, attempts, _) =>
      subject == r && writer.GiveUp? && landed.Some? && !Blank(landed.value) ==>
        attempts == MAX_ATTEMPTS && r in rows && rows[r].attempts == MAX_ATTEMPTS
    case Mirrored(_) => true
  }

  /** `reconcile` stopped chasing a payout that has an instruction Swish knows. */
  predicate GaveUp(e: Event, r: string) {
    e.Wrote? && e.reference == r && e.writer.GiveUp? && e.landed.Some? && !Blank(e.landed.value)
  }

  lemma RecordedStays(before: Table, after: Table, e: Event, r: string)
    requires Keeps(before, after, r) && Bounded(after, r) && Recorded(before, e, r)
    ensures Recorded(after, e, r)
  {
  }

  lemma RecordedEmitted(s: State, a: Action, r: string)
    requires Sound(s) && Enabled(s, a) && Emits(s, a) != [] && AllFit(s.table, s.tasks, r)
    ensures |Emits(s, a)| == 1 && Recorded(TableAfter(s, a), Emits(s, a)[0], r)
  {
  }

  // ---- The past never meets the tasks again ----

  /** What happened about an instruction or attempt is behind the task that works on it. */
  ghost predicate Behind(e: Event, task: Task) {
    && (e.Posted? ==> Unsent(task) ==> task.payout.swishRef != e.payout.swishRef)
    && (e.Asked? && e.origin == Route && RouteUuid(task) == Some(e.about) ==>
          task.Polling? && e.index < task.poll.attempt)
    && (e.Asked? && e.origin.Chase? && ChaseKey(task) == Some((e.reference, e.origin.attempts)) ==>
          task.Polling? && e.index < task.poll.attempt)
  }

  predicate Concerns(e: Event, r: string) {
    match e
    case Posted(payout) => payout.reference == r
    case Swept(claims, _) => r in claims
    case _ => e.reference == r
  }

  ghost predicate AllBehind(e: Event, tasks: map<TaskId, Task>, r: string) {
    Concerns(e, r) ==> forall id | id in tasks && Subject(tasks[id]) == r :: Behind(e, tasks[id])
  }

  /** Whether two events, in this order, are the same thing done twice about `r`. */
  ghost predicate Again(e: Event, f: Event, r: string) {
    || (e.Posted? && f.Posted? && e.payout.reference == r == f.payout.reference)
    || (e.Asked? && f.Asked? && e.reference == r == f.reference && e.origin == f.origin && e.index == f.index)
    || (GaveUp(e, r) && SweptRow(f, r))
    || (SweptRow(e, r) && SweptRow(f, r) && e.claims[r] == f.claims[r])
  }

  lemma BehindMoved(s: State, a: Action, e: Event)
    requires Enabled(s, a) && MovesTask(a) && TaskAfter(s, a).Some? && Behind(e, s.tasks[a.task])
    ensures Behind(e, TaskAfter(s, a).value)
  {
  }

  /** An old event stays behind every task, old, moved or new. */
  lemma BehindStep(s: State, a: Action, e: Event, r: string, id: TaskId)
    requires Sound(s) && Enabled(s, a) && Recorded(s.table, e, r) && Concerns(e, r) && AllBehind(e, s.tasks, r)
    requires id in TasksAfter(s, a) && Subject(TasksAfter(s, a)[id]) == r
    ensures Behind(e, TasksAfter(s, a)[id])
  {
    hide TasksAfter, TaskAfter;
    TaskOrigins(s, a, id);
    if MovesTask(a) && TaskAfter(s, a).Some? {
      KnowsMoved(s, a);
      if Behind(e, s.tasks[a.task]) {
        BehindMoved(s, a, e);
      }
    }
  }

  /** A new event is behind every task. */
  lemma BehindEmitted(s: State, a: Action, r: string, id: TaskId)
    requires Sound(s) && Enabled(s, a) && Distinct(s.tasks, r) && Emits(s, a) != [] && Concerns(Emits(s, a)[0], r)
    requires id in TasksAfter(s, a) && Subject(TasksAfter(s, a)[id]) == r
    ensures Behind(Emits(s, a)[0], TasksAfter(s, a)[id])
  {
    hide TasksAfter;
    TaskOrigins(s, a, id);
    if MovesTask(a) && id in s.tasks && id != a.task {
      assert !Clash(s.tasks[id], s.tasks[a.task]);
    }
  }

  /** A new event repeats nothing. */
  lemma EmittedAnew(s: State, a: Action, e: Event, r: string)
    requires Sound(s) && Enabled(s, a) && Emits(s, a) != [] && Recorded(s.table, e, r)
    requires AllFit(s.table, s.tasks, r) && AllBehind(e, s.tasks, r)
    ensures !Again(e, Emits(s, a)[0], r)
  {
  }

  // ---- Together ----

  ghost predicate Past(rows: Table, tasks: map<TaskId, Task>, e: Event, r: string) {
    Recorded(rows, e, r) && AllBehind(e, tasks, r)
  }

  ghost predicate Safe(s: State, r: string) {
    && Sound(s)
    && Waiting(s)
    && Distinct(s.tasks, r)
    && AllFit(s.table, s.tasks, r)
    && (forall i | 0 <= i < |s.history| :: Past(s.table, s.tasks, s.history[i], r))
    && (forall i, j | 0 <= i < j < |s.history| :: !Again(s.history[i], s.history[j], r))
  }

  lemma PastStep(s: State, a: Action, e: Event, r: string)
    requires Safe(s, r) && Enabled(s, a) && !Reclaims(s, a, r) && Past(s.table, s.tasks, e, r)
    ensures Past(TableAfter(s, a), TasksAfter(s, a), e, r)
  {
    if r in s.table {
      KeepsStep(s, a, r);
    }
    RowsSoundStep(s, a);
    assert Bounded(TableAfter(s, a), r);
    RecordedStays(s.table, TableAfter(s, a), e, r);
    if Concerns(e, r) {
      forall id | id in TasksAfter(s, a) && Subject(TasksAfter(s, a)[id]) == r
        ensures Behind(e, TasksAfter(s, a)[id])
      {
        BehindStep(s, a, e, r, id);
      }
    }
  }

  lemma EmittedStep(s: State, a: Action, r: string)
    requires Safe(s, r) && Enabled(s, a) && Emits(s, a) != []
    ensures |Emits(s, a)| == 1 && Past(TableAfter(s, a), TasksAfter(s, a), Emits(s, a)[0], r)
    ensures forall i | 0 <= i < |s.history| :: !Again(s.history[i], Emits(s, a)[0], r)
  {
    RecordedEmitted(s, a, r);
    if Concerns(Emits(s, a)[0], r) {
      forall id | id in TasksAfter(s, a) && Subject(TasksAfter(s, a)[id]) == r
        ensures Behind(Emits(s, a)[0], TasksAfter(s, a)[id])
      {
        BehindEmitted(s, a, r, id);
      }
    }
    forall i | 0 <= i < |s.history|
      ensures !Again(s.history[i], Emits(s, a)[0], r)
    {
      assert Past(s.table, s.tasks, s.history[i], r);
      EmittedAnew(s, a, s.history[i], r);
    }
  }

  lemma HistoryStep(s: State, a: Action, r: string)
    requires Safe(s, r) && Enabled(s, a) && !Reclaims(s, a, r)
    ensures var h := s.history + Emits(s, a);
            && (forall i | 0 <= i < |h| :: Past(TableAfter(s, a), TasksAfter(s, a), h[i], r))
            && (forall i, j | 0 <= i < j < |h| :: !Again(h[i], h[j], r))
  {
    hide Past, Again, TableAfter, TasksAfter, Emits, Reclaims, Sound, Waiting, Distinct, AllFit;
    forall i | 0 <= i < |s.history|
      ensures Past(TableAfter(s, a), TasksAfter(s, a), s.history[i], r)
    {
      PastStep(s, a, s.history[i], r);
    }
    if Emits(s, a) != [] {
      EmittedStep(s, a, r);
    }
  }

  lemma SafeStep(s: State, a: Action, r: string)
    requires Safe(s, r) && Enabled(s, a) && !Reclaims(s, a, r)
    ensures Safe(Apply(s, a), r)
  {
    SoundStep(s, a);
    WaitingStep(s, a);
    DistinctStep(s, a, r);
    FitsStep(s, a, r);
    HistoryStep(s, a, r);
  }

  lemma {:induction false} SafeThroughout(run: seq<State>, actions: seq<Action>, n: nat, r: string)
    requires Run(run, actions) && n < |run| && !Reclaimed(run, actions, 0, n, r)
    ensures Safe(run[n], r)
  {
    if n > 0 {
      ReclaimedLater(run, actions, 0, n, r);
      SafeThroughout(run, actions, n - 1, r);
      SafeStep(run[n - 1], actions[n - 1], r);
    }
  }
}
