/**
 * Which instruction a row carries. A row keeps the UUID it was claimed with until a claim finds an
 * unlisted status in it; everything here is exact and holds in every run, whatever is stored.
 */
module Instructions {
  import opened Prelude
  import opened PayoutStore
  import opened Protocol
  import opened Settlement

  // ---- One step on a row ----

  ghost predicate SameInstruction(before: Row, after: Row) {
    && after.payeeAlias == before.payeeAlias
    && after.payeeSsn == before.payeeSsn
    && after.amount == before.amount
    && after.message == before.message
    && after.swishRef == before.swishRef
  }

  /** The row of `r`, if any, is still there with what it was claimed with, its attempts no lower. */
  ghost predicate Keeps(before: Table, after: Table, r: string) {
    r in before ==> r in after && SameInstruction(before[r], after[r]) && before[r].attempts <= after[r].attempts
  }

  /** A claim that starts over replaces the whole row; nothing else touches what the row was claimed with. */
  lemma KeepsStep(s: State, a: Action, r: string)
    requires Enabled(s, a) && r in s.table
    ensures !Reclaims(s, a, r) ==> Keeps(s.table, TableAfter(s, a), r)
    ensures Reclaims(s, a, r) ==> r in TableAfter(s, a) && TableAfter(s, a)[r] == Inserted(s.tasks[a.task].payout, s.now)
  {
    match a
    case Claim(id, _) => ClaimIsAllOrNothing(s.table, s.tasks[id].payout, s.now);
    case _ =>
  }

  // ---- UUIDs not yet sent ----

  /** Requests whose POST has not left. */
  predicate Unsent(task: Task) {
    task.Claiming? || task.Submitting?
  }

  /** No waiting claim can bring this UUID to the table any more. */
  ghost predicate Retired(s: State, uuid: Option<string>) {
    uuid.Some? ==>
      && uuid.value in s.used
      && forall id | id in s.tasks && s.tasks[id].Claiming? :: s.tasks[id].payout.swishRef != uuid.value
  }

  /** An unsent request has been unsent, or just arrived with a fresh UUID. */
  lemma UnsentOrigins(s: State, a: Action, id: TaskId)
    requires Enabled(s, a) && id in TasksAfter(s, a) && Unsent(TasksAfter(s, a)[id])
    ensures || (id in s.tasks && Unsent(s.tasks[id]) && s.tasks[id].payout == TasksAfter(s, a)[id].payout
                && (TasksAfter(s, a)[id].Claiming? ==> s.tasks[id].Claiming? && (MovesTask(a) ==> id != a.task)))
            || (a.Arrive? && id == TaskId(s.serial, a.payout.reference) && TasksAfter(s, a)[id].payout == a.payout)
  {
    TaskOrigins(s, a, id);
    if a.Arrive? && id != TaskId(s.serial, a.payout.reference) {
      assert id in s.tasks;
    }
  }

  lemma RetiredStep(s: State, a: Action, uuid: Option<string>)
    requires Enabled(s, a) && Retired(s, uuid)
    ensures Retired(Apply(s, a), uuid)
  {
    forall id | id in TasksAfter(s, a) && TasksAfter(s, a)[id].Claiming?
      ensures uuid.Some? ==> TasksAfter(s, a)[id].payout.swishRef != uuid.value
    {
      UnsentOrigins(s, a, id);
    }
  }

  /** Unsent requests have UUIDs of their own, and no row has the UUID of a waiting claim. */
  ghost predicate Waiting(s: State) {
    && (forall r | r in s.table :: Retired(s, s.table[r].swishRef))
    && (forall i, j | i in s.tasks && j in s.tasks && i != j && Unsent(s.tasks[i]) && Unsent(s.tasks[j]) ::
          s.tasks[i].payout.swishRef != s.tasks[j].payout.swishRef)
  }

  /** A row's UUID was there before, or is the one a claim brought. */
  lemma UuidOrigins(s: State, a: Action, r: string)
    requires Enabled(s, a) && r in TableAfter(s, a)
    ensures || (r in s.table && TableAfter(s, a)[r].swishRef == s.table[r].swishRef)
            || (a.Claim? && TableAfter(s, a)[r].swishRef == Some(s.tasks[a.task].payout.swishRef))
  {
    match a
    case Claim(id, _) => ClaimIsAllOrNothing(s.table, s.tasks[id].payout, s.now);
    case _ =>
  }

  lemma WaitingStep(s: State, a: Action)
    requires Sound(s) && Waiting(s) && Enabled(s, a)
    ensures Waiting(Apply(s, a))
  {
    forall r | r in TableAfter(s, a)
      ensures Retired(Apply(s, a), TableAfter(s, a)[r].swishRef)
    {
      UuidOrigins(s, a, r);
      if r in s.table && TableAfter(s, a)[r].swishRef == s.table[r].swishRef {
        RetiredStep(s, a, s.table[r].swishRef);
      } else {
        ClaimRetires(s, a);
      }
    }
    UnsentApart(s, a);
  }

  /** The UUID of a claim is no longer one of a waiting claim. */
  lemma ClaimRetires(s: State, a: Action)
    requires Sound(s) && Waiting(s) && Enabled(s, a) && a.Claim?
    ensures Retired(Apply(s, a), Some(s.tasks[a.task].payout.swishRef))
  {
    assert TaskSound(s, a.task, s.tasks[a.task]);
    forall id | id in TasksAfter(s, a) && TasksAfter(s, a)[id].Claiming?
      ensures TasksAfter(s, a)[id].payout.swishRef != s.tasks[a.task].payout.swishRef
    {
      UnsentOrigins(s, a, id);
    }
  }

  lemma UnsentApart(s: State, a: Action)
    requires Sound(s) && Waiting(s) && Enabled(s, a)
    ensures var tasks := TasksAfter(s, a);
            forall i, j | i in tasks && j in tasks && i != j && Unsent(tasks[i]) && Unsent(tasks[j]) ::
              tasks[i].payout.swishRef != tasks[j].payout.swishRef
  {
    var tasks := TasksAfter(s, a);
    forall i, j | i in tasks && j in tasks && i != j && Unsent(tasks[i]) && Unsent(tasks[j])
      ensures tasks[i].payout.swishRef != tasks[j].payout.swishRef
    {
      UnsentOrigins(s, a, i);
      UnsentOrigins(s, a, j);
      if i in s.tasks {
        assert TaskSound(s, i, s.tasks[i]);
      }
      if j in s.tasks {
        assert TaskSound(s, j, s.tasks[j]);
      }
    }
  }

  lemma {:induction false} WaitingThroughout(run: seq<State>, actions: seq<Action>, n: nat)
    requires Run(run, actions) && n < |run|
    ensures Sound(run[n]) && Waiting(run[n])
  {
    SettledThroughout(run, actions, n);
    if n > 0 {
      WaitingThroughout(run, actions, n - 1);
      WaitingStep(run[n - 1], actions[n - 1]);
    }
  }

  // ---- How long a row keeps its instruction ----

  lemma {:induction false} InstructionSince(run: seq<State>, actions: seq<Action>, i: nat, j: nat, r: string)
    requires Run(run, actions) && i <= j < |run| && r in run[i].table
    ensures r in run[j].table && Retired(run[j], run[i].table[r].swishRef)
    ensures if Reclaimed(run, actions, i, j, r) then run[j].table[r].swishRef != run[i].table[r].swishRef
            else Keeps(run[i].table, run[j].table, r)
  {
    hide Step, Init, Reclaims, Reclaimed, Retired;
    if i < j {
      InstructionSince(run, actions, i, j - 1, r);
      InstructionAt(run, actions, j - 1, r, run[i].table[r].swishRef);
      ReclaimedLater(run, actions, i, j, r);
    } else {
      NotYetReclaimed(run, actions, i, r);
      WaitingThroughout(run, actions, i);
    }
  }

  lemma InstructionAt(run: seq<State>, actions: seq<Action>, n: nat, r: string, uuid: Option<string>)
    requires Run(run, actions) && n < |actions| && r in run[n].table && Retired(run[n], uuid)
    ensures r in run[n + 1].table && Retired(run[n + 1], uuid)
    ensures if Reclaims(run[n], actions[n], r) then run[n + 1].table[r].swishRef != uuid
            else Keeps(run[n].table, run[n + 1].table, r)
  {
    KeepsStep(run[n], actions[n], r);
    RetiredStep(run[n], actions[n], uuid);
  }

  lemma NotYetReclaimed(run: seq<State>, actions: seq<Action>, n: nat, r: string)
    requires n <= |actions| && n <= |run|
    ensures !Reclaimed(run, actions, n, n, r)
  {
  }

  lemma ReclaimedLater(run: seq<State>, actions: seq<Action>, i: nat, j: nat, r: string)
    requires i < j <= |actions| && j <= |run|
    ensures Reclaimed(run, actions, i, j, r) <==>
            Reclaimed(run, actions, i, j - 1, r) || Reclaims(run[j - 1], actions[j - 1], r)
  {
    if Reclaims(run[j - 1], actions[j - 1], r) {
      assert Reclaimed(run, actions, i, j, r);
    }
    if Reclaimed(run, actions, i, j - 1, r) {
      var k: nat :| i <= k < j - 1 && Reclaims(run[k], actions[k], r);
      assert Reclaimed(run, actions, i, j, r);
    }
  }

  /**
   * Once a reference is claimed its UUID changes exactly when it is reclaimed, and never changes
   * back; until then recipient, identity number, amount and message stay too, and its attempts never
   * go down. No other row matters.
   */
  lemma ClaimedOnceForAll(run: seq<State>, actions: seq<Action>, i: nat, j: nat, r: string)
    requires Run(run, actions) && i <= j < |run| && r in run[i].table
    ensures r in run[j].table
    ensures run[j].table[r].swishRef == run[i].table[r].swishRef <==> !Reclaimed(run, actions, i, j, r)
    ensures !Reclaimed(run, actions, i, j, r) ==>
              SameInstruction(run[i].table[r], run[j].table[r]) && run[i].table[r].attempts <= run[j].table[r].attempts
  {
    InstructionSince(run, actions, i, j, r);
  }

  // ---- From the check to the write ----

  /** The instruction a task will write about. */
  function Knows(task: Task): Option<string> {
    match task
    case Submitting(_, payout) => Some(payout.swishRef)
    case Submitted(_, payout) => Some(payout.swishRef)
    case Polling(_, _, about, _, _) => Some(about)
    case Writing(_, _, recorded, _, _) => recorded
    case _ => None
  }

  /** The claim that is won, the check that passes or the read that finds a UUID. */
  predicate Learns(s: State, a: Action) {
    && (a.Claim? || a.Check? || a.Read?)
    && Enabled(s, a)
    && TaskAfter(s, a).Some?
    && Knows(TaskAfter(s, a).value).Some?
  }

  /** At that moment the row carries the UUID. */
  lemma LearnsWhatIsThere(s: State, a: Action)
    requires Waiting(s) && Learns(s, a)
    ensures var task := TaskAfter(s, a).value;
            Subject(task) in TableAfter(s, a) && TableAfter(s, a)[Subject(task)].swishRef == Knows(task)
  {
    match a
    case Claim(id, _) => ClaimIsAllOrNothing(s.table, s.tasks[id].payout, s.now);
    case _ =>
  }

  lemma LearnedRow(run: seq<State>, actions: seq<Action>, k: nat)
    requires Run(run, actions) && k < |actions| && Learns(run[k], actions[k])
    ensures var task := TaskAfter(run[k], actions[k]).value;
            Subject(task) in run[k + 1].table && run[k + 1].table[Subject(task)].swishRef == Knows(task)
  {
    WaitingThroughout(run, actions, k);
    LearnsWhatIsThere(run[k], actions[k]);
  }

  /** A task sticks to its reference, and to the UUID it has learned for as long as it may write. */
  lemma KnowsMoved(s: State, a: Action)
    requires Enabled(s, a) && MovesTask(a) && TaskAfter(s, a).Some?
    ensures Subject(TaskAfter(s, a).value) == Subject(s.tasks[a.task])
    ensures Knows(s.tasks[a.task]).Some? ==>
              TaskAfter(s, a).value.Mirroring? || Knows(TaskAfter(s, a).value) == Knows(s.tasks[a.task])
    ensures Knows(s.tasks[a.task]).None? && Knows(TaskAfter(s, a).value).Some? ==> Learns(s, a)
    ensures !s.tasks[a.task].Mirroring?
  {
  }

  /** Once learned, the UUID is what the task holds for as long as it is in flight. */
  lemma {:induction false} KnowsSince(run: seq<State>, actions: seq<Action>, k: nat, n: nat)
    requires Run(run, actions) && k < n < |run| && Learns(run[k], actions[k])
    ensures actions[k].task.serial < run[n].serial
    ensures var before := TaskAfter(run[k], actions[k]).value;
            actions[k].task in run[n].tasks ==>
              var task := run[n].tasks[actions[k].task];
              Subject(task) == Subject(before) && (task.Mirroring? || Knows(task) == Knows(before))
  {
    var id := actions[k].task;
    var s, a := run[n - 1], actions[n - 1];
    if n == k + 1 {
      WaitingThroughout(run, actions, k);
      assert TaskSound(s, id, s.tasks[id]);
    } else {
      KnowsSince(run, actions, k, n - 1);
      if id in run[n].tasks {
        TaskOrigins(s, a, id);
        if MovesTask(a) && TaskAfter(s, a).Some? {
          KnowsMoved(s, a);
        }
      }
    }
  }

  /** Whoever knows a UUID has learned it. */
  lemma {:induction false} LearnedBefore(run: seq<State>, actions: seq<Action>, n: nat, id: TaskId) returns (k: nat)
    requires Run(run, actions) && n < |run| && id in run[n].tasks && Knows(run[n].tasks[id]).Some?
    ensures k < n && Learns(run[k], actions[k]) && actions[k].task == id
  {
    var s, a := run[n - 1], actions[n - 1];
    TaskOrigins(s, a, id);
    if MovesTask(a) && id == a.task {
      KnowsMoved(s, a);
      if Learns(s, a) {
        return n - 1;
      }
    }
    k := LearnedBefore(run, actions, n - 1, id);
  }

  /** A UUID some task has learned is never brought to the table again. */
  lemma LearnedIsRetired(run: seq<State>, actions: seq<Action>, k: nat, n: nat)
    requires Run(run, actions) && k < n < |run| && Learns(run[k], actions[k])
    ensures Retired(run[n], Knows(TaskAfter(run[k], actions[k]).value))
  {
    hide Step, Init, TaskAfter, Knows, Reclaimed, Keeps, Retired;
    LearnedRow(run, actions, k);
    InstructionSince(run, actions, k + 1, n, Subject(TaskAfter(run[k], actions[k]).value));
  }

  /**
   * Check-then-write, exactly: though the UPDATE names the reference alone, a write by a task that
   * won its claim, passed its check or read the UUID at moment `k` lands on a row carrying that very
   * UUID if and only if the reference was not reclaimed since. Every applied write about a UUID has
   * such a moment.
   */
  lemma WritesLandOnTheirInstruction(run: seq<State>, actions: seq<Action>, n: nat)
    requires Run(run, actions) && n < |actions| && actions[n].Write? && Emits(run[n], actions[n]) != []
    requires run[n].tasks[actions[n].task].recorded.Some?
    ensures exists k: nat :: k < n && Learns(run[k], actions[k]) && actions[k].task == actions[n].task
    ensures var e := Emits(run[n], actions[n])[0];
            forall k: nat | k < n && Learns(run[k], actions[k]) && actions[k].task == actions[n].task ::
              e.landed == e.recorded <==> !Reclaimed(run, actions, k + 1, n, e.reference)
  {
    var learned := LearnedBefore(run, actions, n, actions[n].task);
    var e := Emits(run[n], actions[n])[0];
    forall k: nat | k < n && Learns(run[k], actions[k]) && actions[k].task == actions[n].task
      ensures e.landed == e.recorded <==> !Reclaimed(run, actions, k + 1, n, e.reference)
    {
      LearnedRow(run, actions, k);
      KnowsSince(run, actions, k, n);
      InstructionSince(run, actions, k + 1, n, e.reference);
    }
  }

  // ---- Every POST is paid for by a claim ----

  predicate PostedFor(e: Event, r: string) {
    e.Posted? && e.payout.reference == r
  }

  function Posts(history: seq<Event>, r: string): nat {
    if history == [] then 0
    else Posts(history[..|history| - 1], r) + if PostedFor(history[|history| - 1], r) then 1 else 0
  }

  /** How often a reference was reclaimed in the first `n` steps. */
  ghost function TimesReclaimed(run: seq<State>, actions: seq<Action>, n: nat, r: string): nat
    requires n <= |actions| && n <= |run|
  {
    if n == 0 then 0
    else TimesReclaimed(run, actions, n - 1, r) + if Reclaims(run[n - 1], actions[n - 1], r) then 1 else 0
  }

  /** A claim committed where there was no row, or one with an unlisted status. */
  predicate Takes(s: State, a: Action, r: string)
    requires Enabled(s, a)
  {
    a.Claim? && a.fault != NotCommitted && s.tasks[a.task].payout.reference == r && (r !in s.table || Reclaims(s, a, r))
  }

  /** The UUIDs such claims brought to a reference. */
  ghost function Taken(run: seq<State>, actions: seq<Action>, n: nat, r: string): set<string>
    requires Run(run, actions) && n < |run|
  {
    if n == 0 then {}
    else
      Taken(run, actions, n - 1, r) +
      if Takes(run[n - 1], actions[n - 1], r) then {run[n - 1].tasks[actions[n - 1].task].payout.swishRef} else {}
  }

  /** A claim either finds no row and leaves one, or reclaims. */
  lemma RowTaken(run: seq<State>, actions: seq<Action>, n: nat, r: string)
    requires Run(run, actions) && n < |actions|
    ensures Enabled(run[n], actions[n])
    ensures r in run[n].table ==> r in run[n + 1].table
    ensures Takes(run[n], actions[n], r) ==>
              r in run[n + 1].table && (r in run[n].table ==> Reclaims(run[n], actions[n], r))
  {
    if r in run[n].table {
      KeepsStep(run[n], actions[n], r);
    }
  }

  lemma {:induction false} TakenIsCounted(run: seq<State>, actions: seq<Action>, n: nat, r: string)
    requires Run(run, actions) && n < |run|
    ensures r in run[0].table ==> r in run[n].table
    ensures |Taken(run, actions, n, r)| <=
            TimesReclaimed(run, actions, n, r) + if r in run[n].table && r !in run[0].table then 1 else 0
  {
    hide Step, Reclaims, Init;
    if n > 0 {
      TakenIsCounted(run, actions, n - 1, r);
      RowTaken(run, actions, n - 1, r);
    }
  }

  /** Unsent requests and sent ones never share a UUID, and neither do two sent ones. */
  ghost predicate SentApart(s: State) {
    && (forall i | 0 <= i < |s.history| && s.history[i].Posted? :: s.history[i].payout.swishRef in s.used)
    && (forall i, id | 0 <= i < |s.history| && id in s.tasks && s.history[i].Posted? && Unsent(s.tasks[id]) ::
          s.history[i].payout.swishRef != s.tasks[id].payout.swishRef)
    && (forall i, j | 0 <= i < j < |s.history| && s.history[i].Posted? && s.history[j].Posted? ::
          s.history[i].payout.swishRef != s.history[j].payout.swishRef)
  }

  lemma SentApartStep(s: State, a: Action)
    requires Sound(s) && Waiting(s) && SentApart(s) && Enabled(s, a)
    ensures SentApart(Apply(s, a))
  {
    hide TableAfter, TasksAfter, Emits;
    var history, tasks := s.history + Emits(s, a), TasksAfter(s, a);
    PostedOrigins(s, a);
    forall i, id | 0 <= i < |history| && id in tasks && history[i].Posted? && Unsent(tasks[id])
      ensures history[i].payout.swishRef != tasks[id].payout.swishRef
    {
      UnsentOrigins(s, a, id);
      UnsentMoved(s, a, id);
    }
  }

  lemma PostedOrigins(s: State, a: Action)
    requires Sound(s) && Enabled(s, a)
    ensures |Emits(s, a)| <= 1
    ensures Emits(s, a) != [] && Emits(s, a)[0].Posted? ==>
              && a.Send?
              && Emits(s, a)[0].payout == s.tasks[a.task].payout
              && s.tasks[a.task].payout.swishRef in s.used
  {
    if a.Send? {
      assert TaskSound(s, a.task, s.tasks[a.task]);
    }
  }

  /** A task that has sent its POST is not unsent. */
  lemma UnsentMoved(s: State, a: Action, id: TaskId)
    requires Enabled(s, a) && id in TasksAfter(s, a) && Unsent(TasksAfter(s, a)[id])
    ensures a != Send(id)
  {
  }

  /** What is sent, or about to be, was claimed. */
  ghost predicate OnlyTakenIsSent(s: State, taken: set<string>, r: string) {
    && (forall i | 0 <= i < |s.history| && PostedFor(s.history[i], r) :: s.history[i].payout.swishRef in taken)
    && (forall id | id in s.tasks && s.tasks[id].Submitting? && s.tasks[id].payout.reference == r ::
          s.tasks[id].payout.swishRef in taken)
  }

  lemma OnlyTakenIsSentStep(s: State, a: Action, taken: set<string>, after: set<string>, r: string)
    requires Waiting(s) && Enabled(s, a) && OnlyTakenIsSent(s, taken, r)
    requires after == taken + if Takes(s, a, r) then {s.tasks[a.task].payout.swishRef} else {}
    ensures OnlyTakenIsSent(Apply(s, a), after, r)
  {
    hide TasksAfter, Reclaims, Waiting;
    forall id | id in TasksAfter(s, a) && TasksAfter(s, a)[id].Submitting? && TasksAfter(s, a)[id].payout.reference == r
      ensures TasksAfter(s, a)[id].payout.swishRef in after
    {
      SubmittingOrigins(s, a, id);
    }
  }

  /** Only a claim that took its reference lets a request submit. */
  lemma SubmittingOrigins(s: State, a: Action, id: TaskId)
    requires Waiting(s) && Enabled(s, a) && id in TasksAfter(s, a) && TasksAfter(s, a)[id].Submitting?
    ensures || (id in s.tasks && s.tasks[id] == TasksAfter(s, a)[id])
            || (a == Claim(id, Delivered) && TasksAfter(s, a)[id].payout == s.tasks[id].payout
                && Takes(s, a, s.tasks[id].payout.reference))
  {
    hide TasksAfter;
    TaskOrigins(s, a, id);
    if a == Claim(id, Delivered) {
      ClaimIsAllOrNothing(s.table, s.tasks[id].payout, s.now);
    }
  }

  lemma {:induction false} SentThroughout(run: seq<State>, actions: seq<Action>, n: nat, r: string)
    requires Run(run, actions) && n < |run|
    ensures SentApart(run[n]) && OnlyTakenIsSent(run[n], Taken(run, actions, n, r), r)
  {
    if n > 0 {
      SentThroughout(run, actions, n - 1, r);
      SentAt(run, actions, n - 1, r);
    }
  }

  lemma SentAt(run: seq<State>, actions: seq<Action>, n: nat, r: string)
    requires Run(run, actions) && n < |actions|
    requires SentApart(run[n]) && OnlyTakenIsSent(run[n], Taken(run, actions, n, r), r)
    ensures SentApart(run[n + 1]) && OnlyTakenIsSent(run[n + 1], Taken(run, actions, n + 1, r), r)
  {
    hide SentApart, OnlyTakenIsSent, Takes, Waiting, Apply;
    WaitingThroughout(run, actions, n);
    SentApartStep(run[n], actions[n]);
    OnlyTakenIsSentStep(run[n], actions[n], Taken(run, actions, n, r), Taken(run, actions, n + 1, r), r);
  }

  lemma {:induction false} PostsFit(history: seq<Event>, r: string, uuids: set<string>)
    requires forall i | 0 <= i < |history| && PostedFor(history[i], r) :: history[i].payout.swishRef in uuids
    requires forall i, j | 0 <= i < j < |history| && PostedFor(history[i], r) && PostedFor(history[j], r) ::
               history[i].payout.swishRef != history[j].payout.swishRef
    ensures Posts(history, r) <= |uuids|
  {
    if history != [] {
      var last := |history| - 1;
      var rest := history[..last];
      PostsFit(rest, r, if PostedFor(history[last], r) then uuids - {history[last].payout.swishRef} else uuids);
    }
  }

  /**
   * In every run, whatever is stored: the POSTs of a reference all carry different UUIDs, and there
   * are at most as many as times it was reclaimed, and one for the first claim if it had no row.
   */
  lemma PostsArePaidFor(run: seq<State>, actions: seq<Action>, n: nat, r: string)
    requires Run(run, actions) && n < |run|
    ensures var h := run[n].history;
            forall i, j | 0 <= i < j < |h| && h[i].Posted? && h[j].Posted? ::
              h[i].payout.swishRef != h[j].payout.swishRef
    ensures Posts(run[n].history, r) <= TimesReclaimed(run, actions, n, r) + if r in run[0].table then 0 else 1
  {
    SentThroughout(run, actions, n, r);
    TakenIsCounted(run, actions, n, r);
    PostsFit(run[n].history, r, Taken(run, actions, n, r));
  }
}
