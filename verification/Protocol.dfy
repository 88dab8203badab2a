/**
 * Payouts as a concurrent, crash-prone transition system.
 *
 * Any number of swisha instances share one payouts table. Each runs tasks: payout requests
 * (`src/http/routes/payout.rs`), Swish callbacks (`src/http/routes/callback.rs`) and the reconcile
 * tasks a stall sweep spawns (`src/main.rs`, `src/swish/reconcile.rs`). A task moves one store call
 * or one call to Swish at a time, and the tasks interleave freely. A crash drops tasks and keeps the
 * table.
 *
 * Sending the POST and hearing its answer are two steps. A status GET and its answer are one, since a
 * GET changes nothing: an instance that dies in between is one that got no answer and then died.
 */
module Protocol {
  import opened Prelude
  import opened Text
  import opened PayoutStatus
  import opened PayoutStore
  import opened Polling

  const MAX_ATTEMPTS: int := 3

  /** Thirty minutes, in the microseconds of the database clock. */
  const STALL_AFTER: int := 30 * 60 * 1_000_000

  // ---- Tasks ----

  /** Who polls: the payout route after its own submission, or the reconcile task of an attempt. */
  datatype Origin = Route | Chase(attempts: int)

  /** Who writes a status. `GiveUp` is `needs_review`, reached by the reconcile task of an attempt. */
  datatype Writer = FromRoute | FromCallback | Settle(attempts: int) | GiveUp(attempts: int)

  /** Tasks are named by a serial number; the tasks of one sweep share it and differ in reference. */
  datatype TaskId = TaskId(serial: nat, reference: string)

  /** What a task does next. */
  datatype Task =
    // payout route
    | Claiming(instance: nat, payout: Payout)
    | Submitting(instance: nat, payout: Payout)
    | Submitted(instance: nat, payout: Payout)
    // callback
    | Checking(instance: nat, reference: string, about: string, status: Status)
    // reconcile
    | Reading(instance: nat, reference: string, attempts: int)
    // shared
    | Polling(instance: nat, reference: string, about: string, origin: Origin, poll: Poll)
    | Writing(instance: nat, reference: string, recorded: Option<string>, status: Status, writer: Writer)
    | Mirroring(instance: nat, reference: string)

  /** Tasks that still carry the caller's payout. */
  predicate CarriesPayout(task: Task) {
    task.Claiming? || task.Submitting? || task.Submitted?
  }

  /** The reference a task is about. */
  function Subject(task: Task): string {
    if CarriesPayout(task) then task.payout.reference else task.reference
  }

  /** What the rest of the world gets to see, in order. */
  datatype Event =
    /** The POST of a payout left for Swish. */
    | Posted(payout: Payout)
    /** A status GET about the instruction `about`, the `index`-th of its poll. */
    | Asked(reference: string, about: string, origin: Origin, index: nat)
    /** A sweep counted an attempt against these rows. */
    | Swept(claims: map<string, int>, at: int)
    /**
     * A status write changed a row, which at that instant carried `landed` and `attempts`; `reported`
     * tells whether the writer learned so.
     */
    | Wrote(reference: string, recorded: Option<string>, status: Status, writer: Writer,
            landed: Option<string>, attempts: int, reported: bool)
    /** The audit event `PAID` with status `DEBITED`. */
    | Mirrored(reference: string)

  datatype State = State(
    table: Table,
    now: int,
    tasks: map<TaskId, Task>,
    serial: nat,
    used: set<string>,
    history: seq<Event>)

  // ---- Actions ----

  /** How a write statement goes: acknowledged, committed but the answer lost, or not committed. */
  datatype Fault = Delivered | AnswerLost | NotCommitted

  datatype Action =
    | Arrive(instance: nat, payout: Payout)
    | Claim(task: TaskId, fault: Fault)
    | FailToSend(task: TaskId)
    | Send(task: TaskId)
    | Answer(task: TaskId, accepted: bool)
    | Ask(task: TaskId, response: Response)
    | Report(instance: nat, reference: string, about: string, text: Option<string>)
    | Check(task: TaskId, fails: bool)
    | Sweep(instance: nat, fault: Fault)
    | Read(task: TaskId, fails: bool)
    | Write(task: TaskId, fault: Fault)
    | Mirror(task: TaskId)
    | Tick(now: int)
    | Crash(instance: nat)
    | Abandon(task: TaskId)

  /**
   * Which actions can happen. Two assumptions live here: each request draws a fresh, non-blank UUID,
   * and the database clock never runs backwards.
   */
  predicate Enabled(s: State, a: Action) {
    match a
    case Arrive(_, payout) => payout.swishRef !in s.used && !Blank(payout.swishRef)
    case Claim(id, _) => id in s.tasks && s.tasks[id].Claiming?
    case FailToSend(id) => id in s.tasks && s.tasks[id].Submitting?
    case Send(id) => id in s.tasks && s.tasks[id].Submitting?
    case Answer(id, _) => id in s.tasks && s.tasks[id].Submitted?
    case Ask(id, _) => id in s.tasks && s.tasks[id].Polling?
    case Report(_, reference, _, _) => reference != ""
    case Check(id, _) => id in s.tasks && s.tasks[id].Checking?
    case Sweep(_, _) => true
    case Read(id, _) => id in s.tasks && s.tasks[id].Reading?
    case Write(id, _) => id in s.tasks && s.tasks[id].Writing?
    case Mirror(id) => id in s.tasks && s.tasks[id].Mirroring?
    case Tick(now) => s.now <= now
    case Crash(_) => true
    case Abandon(id) => id in s.tasks
  }

  /** The `match` on the status a claim returned: any other answer is a conflict. */
  predicate MayProceed(outcome: ClaimOutcome, uuid: string) {
    match outcome.status
    case Paid => false
    case Pending => false
    case Debited => false
    case NeedsReview => false
    case Error => false
    case Declined => false
    case Created => outcome.swishRef == Some(uuid)
    case Unlisted(_) => true
  }

  /** What a task does once its poll is over; `None` is a task that is done. */
  function AfterPoll(task: Task, result: PollResult): Option<Task>
    requires task.Polling?
  {
    match task.origin
    case Route =>
      var status := if result.Ok? then result.value else Error;
      Some(Writing(task.instance, task.reference, Some(task.about), status, FromRoute))
    case Chase(attempts) =>
      if result.Ok? && result.value != Pending then
        Some(Writing(task.instance, task.reference, Some(task.about), result.value, Settle(attempts)))
      else if attempts < MAX_ATTEMPTS then None
      else Some(Writing(task.instance, task.reference, Some(task.about), NeedsReview, GiveUp(attempts)))
  }

  /** What a reconcile task does with the row it read; a blank UUID counts as absent. */
  function AfterRead(task: Task, row: Option<Snapshot>): Option<Task>
    requires task.Reading?
  {
    match row
    case None => None
    case Some(snapshot) =>
      if snapshot.swishRef.None? || Blank(snapshot.swishRef.value) then
        Some(Writing(task.instance, task.reference, None, NeedsReview, GiveUp(task.attempts)))
      else
        Some(Polling(task.instance, task.reference, snapshot.swishRef.value, Chase(task.attempts), START))
  }

  /** What a callback does with the row it read: nothing unless the stored UUID is the one it names. */
  function AfterCheck(task: Task, row: Option<Snapshot>): Option<Task>
    requires task.Checking?
  {
    match row
    case None => None
    case Some(snapshot) =>
      if snapshot.swishRef != Some(task.about) then None
      else Some(Writing(task.instance, task.reference, Some(task.about), task.status, FromCallback))
  }

  function Look(rows: Table, reference: string): Option<Snapshot> {
    if reference in rows then Some(Snapshot(rows[reference].status, rows[reference].swishRef)) else None
  }

  // ---- Steps ----

  /** Actions by which one task in flight moves on. */
  predicate MovesTask(a: Action) {
    !(a.Arrive? || a.Report? || a.Sweep? || a.Tick? || a.Crash?)
  }

  /** Whether a claim won the reference, so that its task may submit. */
  predicate Wins(s: State, payout: Payout, fault: Fault) {
    && fault == Delivered
    && MayProceed(OutcomeOf(Claimed(s.table, payout, s.now), payout.reference), payout.swishRef)
  }

  /** Whether a write reaches the database and changes the row. */
  predicate Lands(s: State, task: Task, fault: Fault)
    requires task.Writing?
  {
    fault != NotCommitted && StatusApplies(s.table, task.reference, task.status)
  }

  /** The table after a step. */
  function TableAfter(s: State, a: Action): Table
    requires Enabled(s, a)
  {
    match a
    case Claim(id, fault) =>
      if fault == NotCommitted then s.table else Claimed(s.table, s.tasks[id].payout, s.now)
    case Sweep(_, fault) =>
      if fault == NotCommitted then s.table else StalledClaimed(s.table, MAX_ATTEMPTS, STALL_AFTER, s.now)
    case Write(id, fault) =>
      if fault == NotCommitted then s.table
      else StatusSet(s.table, s.tasks[id].reference, s.tasks[id].status, s.now)
    case _ => s.table
  }

  /** The write a route makes when the submission itself failed. */
  function SubmitFailed(task: Task): Task
    requires task.Submitting? || task.Submitted?
  {
    Writing(task.instance, task.payout.reference, Some(task.payout.swishRef), Error, FromRoute)
  }

  /** What the task of an action becomes; `None` is a task that is done. */
  function TaskAfter(s: State, a: Action): Option<Task>
    requires Enabled(s, a) && MovesTask(a)
  {
    var task := s.tasks[a.task];
    match a
    case Claim(_, fault) =>
      if Wins(s, task.payout, fault) then Some(Submitting(task.instance, task.payout)) else None
    case FailToSend(_) => Some(SubmitFailed(task))
    case Send(_) => Some(Submitted(task.instance, task.payout))
    case Answer(_, accepted) =>
      if accepted
      then Some(Polling(task.instance, task.payout.reference, task.payout.swishRef, Route, START))
      else Some(SubmitFailed(task))
    case Ask(_, response) =>
      (match PollStep(task.poll, response)
       case Continue(poll) => Some(task.(poll := poll))
       case Finished(result) => AfterPoll(task, result))
    case Check(_, fails) => AfterCheck(task, if fails then None else Look(s.table, task.reference))
    case Read(_, fails) => AfterRead(task, if fails then None else Look(s.table, task.reference))
    case Write(_, fault) =>
      if Lands(s, task, fault) && fault == Delivered && task.status == Debited
      then Some(Mirroring(task.instance, task.reference)) else None
    case Mirror(_) => None
    case Abandon(_) => None
  }

  /** One reconcile task for each row a sweep claimed, when its answer arrives. */
  function Spawned(s: State, instance: nat, fault: Fault): map<TaskId, Task> {
    var claims := StalledClaims(s.table, MAX_ATTEMPTS, STALL_AFTER, s.now);
    if fault == Delivered then
      map id | id in (set r | r in claims :: TaskId(s.serial, r)) ::
        Reading(instance, id.reference, claims[id.reference])
    else map[]
  }

  /** The tasks in flight after a step. */
  function TasksAfter(s: State, a: Action): map<TaskId, Task>
    requires Enabled(s, a)
  {
    match a
    case Arrive(instance, payout) =>
      s.tasks[TaskId(s.serial, payout.reference) := Claiming(instance, payout)]
    case Report(instance, reference, about, text) =>
      s.tasks[TaskId(s.serial, reference) := Checking(instance, reference, about, CallbackStatus(text))]
    case Sweep(instance, fault) => s.tasks + Spawned(s, instance, fault)
    case Crash(instance) => map id | id in s.tasks && s.tasks[id].instance != instance :: s.tasks[id]
    case Tick(_) => s.tasks
    case _ =>
      match TaskAfter(s, a)
      case Some(task) => s.tasks[a.task := task]
      case None => s.tasks - {a.task}
  }

  /** Each task in flight after a step is an untouched one, the one that moved, or a new one. */
  lemma TaskOrigins(s: State, a: Action, id: TaskId)
    requires Enabled(s, a) && id in TasksAfter(s, a)
    ensures var task := TasksAfter(s, a)[id];
            || (id in s.tasks && task == s.tasks[id] && (MovesTask(a) ==> id != a.task))
            || (MovesTask(a) && id == a.task && TaskAfter(s, a) == Some(task))
            || (a.Arrive? && id.serial == s.serial && task == Claiming(a.instance, a.payout))
            || (a.Report? && id.serial == s.serial
                && task == Checking(a.instance, a.reference, a.about, CallbackStatus(a.text)))
            || (a.Sweep? && id.serial == s.serial && a.fault == Delivered && id.reference in s.table
                && Due(s.table[id.reference], MAX_ATTEMPTS, STALL_AFTER, s.now)
                && task == Reading(a.instance, id.reference, s.table[id.reference].attempts + 1))
  {
  }

  /** What a step shows the world. */
  function Emits(s: State, a: Action): seq<Event>
    requires Enabled(s, a)
  {
    match a
    case Send(id) => [Posted(s.tasks[id].payout)]
    case Ask(id, _) =>
      [Asked(s.tasks[id].reference, s.tasks[id].about, s.tasks[id].origin, s.tasks[id].poll.attempt)]
    case Sweep(_, fault) =>
      if fault == NotCommitted then []
      else [Swept(StalledClaims(s.table, MAX_ATTEMPTS, STALL_AFTER, s.now), s.now)]
    case Write(id, fault) =>
      var task := s.tasks[id];
      if Lands(s, task, fault) then
        var row := s.table[task.reference];
        [Wrote(task.reference, task.recorded, task.status, task.writer, row.swishRef, row.attempts, fault == Delivered)]
      else []
    case Mirror(id) => [Mirrored(s.tasks[id].reference)]
    case _ => []
  }

  function Apply(s: State, a: Action): State
    requires Enabled(s, a)
  {
    State(
      TableAfter(s, a),
      if a.Tick? then a.now else s.now,
      TasksAfter(s, a),
      if a.Arrive? || a.Report? || a.Sweep? then s.serial + 1 else s.serial,
      if a.Arrive? then s.used + {a.payout.swishRef} else s.used,
      s.history + Emits(s, a))
  }

  predicate Step(s: State, a: Action, s': State) {
    Enabled(s, a) && s' == Apply(s, a)
  }

  // ---- Runs ----

  /**
   * A start: instances with nothing in flight over any table earlier runs may have left, including
   * rows put there by hand without a UUID.
   */
  predicate Init(s: State) {
    && s.tasks == map[]
    && s.history == []
    && forall r | r in s.table ::
         && 0 <= s.table[r].attempts <= MAX_ATTEMPTS
         && s.table[r].updatedAt <= s.now
         && (s.table[r].swishRef.Some? ==> s.table[r].swishRef.value in s.used)
  }

  predicate Run(run: seq<State>, actions: seq<Action>) {
    && |run| == |actions| + 1
    && Init(run[0])
    && forall i {:trigger actions[i]} | 0 <= i < |actions| :: Step(run[i], actions[i], run[i + 1])
  }

  // ---- Claims that start over ----

  /** A claim committed over a row whose status is none of the seven. */
  predicate Reclaims(s: State, a: Action, r: string) {
    && a.Claim?
    && a.fault != NotCommitted
    && a.task in s.tasks
    && s.tasks[a.task].Claiming?
    && s.tasks[a.task].payout.reference == r
    && r in s.table
    && !Listed(s.table[r].status)
  }

  /** Whether the reference was reclaimed between two moments of a run. */
  predicate Reclaimed(run: seq<State>, actions: seq<Action>, i: nat, j: nat, r: string)
    requires j <= |actions| && j <= |run|
  {
    exists k: nat | i <= k < j :: Reclaims(run[k], actions[k], r)
  }

  /** No row holds a status outside the listed seven, so that no reference can be reclaimed. */
  predicate AllListed(rows: Table) {
    forall r | r in rows :: Listed(rows[r].status)
  }

  predicate ListedThroughout(run: seq<State>) {
    forall i | 0 <= i < |run| :: AllListed(run[i].table)
  }
}
