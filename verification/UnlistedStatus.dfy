/**
 * How a reference comes to be reclaimed. A callback stores a status it does not know as it came
 * (`src/http/routes/callback.rs`), such a row is not locked, and the next request for its reference
 * starts over with a new instruction.
 */
module UnlistedStatus {
  import opened Prelude
  import opened Text
  import opened PayoutStatus
  import opened PayoutStore
  import opened Polling
  import opened Protocol
  import opened Settlement
  import opened Instructions

  // ---- When no reference can be reclaimed ----

  /** A callback whose body carries one of the seven statuses. */
  predicate Known(text: Option<string>) {
    text.Some? && Parse(text.value).Some?
  }

  lemma KnownIsListed(text: Option<string>)
    requires Known(text)
    ensures Listed(CallbackStatus(text))
  {
    StoredIsTheText(text.value, Stored(text.value));
  }

  /** No table row and no task on its way to the table has an unlisted status. */
  ghost predicate OnlyListed(s: State) {
    && AllListed(s.table)
    && forall id | id in s.tasks :: StatusInFlightListed(s.tasks[id])
  }

  predicate StatusInFlightListed(task: Task) {
    (task.Checking? ==> Listed(task.status)) && (task.Writing? ==> Listed(task.status))
  }

  /** Polls and submissions only come up with listed statuses. */
  lemma OnlyListedStep(s: State, a: Action)
    requires Enabled(s, a) && OnlyListed(s) && (a.Report? ==> Known(a.text))
    ensures OnlyListed(Apply(s, a))
  {
    if a.Report? {
      KnownIsListed(a.text);
    }
    hide TasksAfter, TaskAfter;
    forall id | id in TasksAfter(s, a)
      ensures StatusInFlightListed(TasksAfter(s, a)[id])
    {
      TaskOrigins(s, a, id);
      if MovesTask(a) {
        assert StatusInFlightListed(s.tasks[a.task]);
        MovesListed(s, a);
      }
    }
  }

  lemma MovesListed(s: State, a: Action)
    requires Enabled(s, a) && MovesTask(a) && StatusInFlightListed(s.tasks[a.task])
    ensures TaskAfter(s, a).Some? ==> StatusInFlightListed(TaskAfter(s, a).value)
  {
  }

  lemma {:induction false} OnlyListedThroughout(run: seq<State>, actions: seq<Action>, n: nat)
    requires Run(run, actions) && n < |run| && AllListed(run[0].table)
    requires forall i | 0 <= i < n && actions[i].Report? :: Known(actions[i].text)
    ensures OnlyListed(run[n])
  {
    if n > 0 {
      OnlyListedThroughout(run, actions, n - 1);
      OnlyListedStep(run[n - 1], actions[n - 1]);
    }
  }

  /**
   * Callbacks are the only way in: as long as each of them brings one of the seven statuses, no row
   * ever holds another, and no reference is reclaimed (`Guarantees.ListedIsNotReclaimed`).
   */
  lemma ListedCallbacksSuffice(run: seq<State>, actions: seq<Action>, n: nat)
    requires Run(run, actions) && n < |run| && AllListed(run[0].table)
    requires forall i | 0 <= i < n && actions[i].Report? :: Known(actions[i].text)
    ensures ListedThroughout(run[..n + 1])
  {
    var seen := run[..n + 1];
    forall i | 0 <= i < |seen|
      ensures AllListed(seen[i].table)
    {
      OnlyListedThroughout(run, actions, i);
    }
  }

  // ---- When a claim wins ----

  /**
   * Exactly when a request goes on to submit, in any run whatever was stored: when its claim is
   * acknowledged, and its reference had no row or one whose status is not one of the seven. The
   * route's own match and `ClaimOutcome::claimed_by` agree on it.
   */
  lemma SubmitsExactlyWhenFree(run: seq<State>, actions: seq<Action>, n: nat, id: TaskId, fault: Fault)
    requires Run(run, actions) && n < |run| && id in run[n].tasks && run[n].tasks[id].Claiming?
    ensures var s, task := run[n], run[n].tasks[id];
            var free := task.payout.reference !in s.table || !Listed(s.table[task.payout.reference].status);
            && TaskAfter(s, Claim(id, fault)) ==
                 (if free && fault == Delivered then Some(Submitting(task.instance, task.payout)) else None)
            && (free <==> OutcomeOf(Claimed(s.table, task.payout, s.now), task.payout.reference)
                            .ClaimedBy(task.payout.swishRef))
  {
    WaitingThroughout(run, actions, n);
    ClaimIsAllOrNothing(run[n].table, run[n].tasks[id].payout, run[n].now);
  }

  /** From any state at all, an unlisted status lets a fresh request for its reference reach Swish. */
  lemma UnlistedIsPaidAgain(s: State, payout: Payout) returns (actions: seq<Action>, t: State)
    requires payout.reference in s.table && !Listed(s.table[payout.reference].status)
    requires payout.swishRef !in s.used && !Blank(payout.swishRef)
    ensures |actions| == 3 && Enabled(s, actions[0])
    ensures var s1 := Apply(s, actions[0]);
            Enabled(s1, actions[1]) &&
            var s2 := Apply(s1, actions[1]);
            Enabled(s2, actions[2]) && t == Apply(s2, actions[2])
    ensures t.history == s.history + [Posted(payout)]
  {
    var id := TaskId(s.serial, payout.reference);
    actions := [Arrive(0, payout), Claim(id, Delivered), Send(id)];
    var s1 := Apply(s, actions[0]);
    ClaimIsAllOrNothing(s1.table, payout, s1.now);
    var s2 := Apply(s1, actions[1]);
    assert s2.tasks[id] == Submitting(0, payout);
    t := Apply(s2, actions[2]);
  }

  /**
   * And from any state a run reaches, as soon as a row has an unlisted status while some task is about
   * to write what it knows of its UUID, a fresh request makes that write miss: it lands on the new
   * instruction.
   */
  lemma UnlistedMakesWritesMiss(run: seq<State>, actions: seq<Action>, id: TaskId, payout: Payout)
    returns (longer: seq<State>, more: seq<Action>)
    requires Run(run, actions)
    requires var s := run[|actions|];
             && id in s.tasks && s.tasks[id].Writing? && s.tasks[id].recorded.Some?
             && s.tasks[id].reference == payout.reference
             && payout.reference in s.table && !Listed(s.table[payout.reference].status)
             && payout.swishRef !in s.used && !Blank(payout.swishRef)
    ensures Run(longer, more) && run <= longer && |more| == |actions| + 3
    ensures var task := run[|actions|].tasks[id];
            && task.recorded != Some(payout.swishRef)
            && longer[|more|].history == run[|actions|].history +
                 [Wrote(task.reference, task.recorded, task.status, task.writer, Some(payout.swishRef), 0, true)]
  {
    var s := run[|actions|];
    KnownIsUsed(run, actions, id);
    WaitingThroughout(run, actions, |actions|);
    assert TaskSound(s, id, s.tasks[id]);
    hide Run;
    var t, u := RequestWins(s, payout);
    longer, more := Extended(run, actions, Arrive(0, payout));
    longer, more := Extended(longer, more, Claim(TaskId(s.serial, payout.reference), Delivered));
    assert longer[|more|] == u;
    longer, more := Extended(longer, more, Write(id, Delivered));
  }

  /** A UUID some task knows has been drawn. */
  lemma KnownIsUsed(run: seq<State>, actions: seq<Action>, id: TaskId)
    requires Run(run, actions) && id in run[|actions|].tasks && Knows(run[|actions|].tasks[id]).Some?
    ensures Knows(run[|actions|].tasks[id]).value in run[|actions|].used
  {
    var n := |actions|;
    var k := LearnedBefore(run, actions, n, id);
    hide Step, Init, Learns, TaskAfter;
    KnowsSince(run, actions, k, n);
    LearnedIsRetired(run, actions, k, n);
  }

  // ---- A run that pays twice ----

  lemma Extended(run: seq<State>, actions: seq<Action>, a: Action) returns (longer: seq<State>, more: seq<Action>)
    requires Run(run, actions) && Enabled(run[|actions|], a)
    ensures more == actions + [a] && longer == run + [Apply(run[|actions|], a)]
    ensures Run(longer, more)
  {
    more := actions + [a];
    longer := run + [Apply(run[|actions|], a)];
    forall i {:trigger more[i]} | 0 <= i < |more|
      ensures Step(longer[i], more[i], longer[i + 1])
    {
      if i < |actions| {
        assert Step(run[i], actions[i], run[i + 1]);
      }
    }
  }

  /** The same payout, asked for twice: every request draws its own UUID. */
  const FIRST := Payout("INV-1", "46701234567", None, 10000, "Invoice", "A1")
  const SECOND := FIRST.(swishRef := "B2")

  const FIRST_TASK := TaskId(0, "INV-1")
  const CALLBACK_TASK := TaskId(1, "INV-1")
  const SECOND_TASK := TaskId(2, "INV-1")

  const STALE: Task := Writing(0, "INV-1", Some("A1"), Paid, FromRoute)
  const CANCELLED: Status := CallbackStatus(Some("CANCELLED"))

  /** The first request is sent and paid, but its task has not stored that answer yet. */
  const PAID_ONCE: State := State(
    map["INV-1" := Inserted(FIRST, 0)], 0,
    map[FIRST_TASK := STALE], 1, {"A1"},
    [Posted(FIRST), Asked("INV-1", "A1", Route, 0)])

  /** Meanwhile a callback about it comes in with a status outside the seven. */
  const CHECKED: State := PAID_ONCE.(
    tasks := map[FIRST_TASK := STALE, CALLBACK_TASK := Writing(0, "INV-1", Some("A1"), CANCELLED, FromCallback)],
    serial := 2)

  /** That status is stored. */
  const OVERTAKEN: State := PAID_ONCE.(
    table := map["INV-1" := Inserted(FIRST, 0).(status := CANCELLED)],
    serial := 2,
    history := PAID_ONCE.history + [Wrote("INV-1", Some("A1"), CANCELLED, FromCallback, Some("A1"), 0, true)])

  /** A second request reclaims the reference. */
  const RECLAIMED: State := State(
    map["INV-1" := Inserted(SECOND, 0)], 0,
    map[FIRST_TASK := STALE, SECOND_TASK := Submitting(0, SECOND)], 3, {"A1", "B2"},
    OVERTAKEN.history)

  /** And is sent too. */
  const PAID_TWICE: State := RECLAIMED.(
    tasks := map[FIRST_TASK := STALE, SECOND_TASK := Submitted(0, SECOND)],
    history := OVERTAKEN.history + [Posted(SECOND)])

  lemma TheUuidsAreUsable()
    ensures !Blank(FIRST.swishRef) && !Blank(SECOND.swishRef) && FIRST.swishRef != SECOND.swishRef
  {
    assert "A1"[0] == 'A' && !IsWhitespace('A') && "B2"[0] == 'B' && !IsWhitespace('B');
  }

  /** A request arrives at `s` and wins its claim. */
  lemma RequestWins(s: State, payout: Payout) returns (t: State, u: State)
    requires payout.swishRef !in s.used && !Blank(payout.swishRef)
    requires payout.reference !in s.table || !Listed(s.table[payout.reference].status)
    ensures var id := TaskId(s.serial, payout.reference);
            && Step(s, Arrive(0, payout), t)
            && Step(t, Claim(id, Delivered), u)
            && u == State(s.table[payout.reference := Inserted(payout, s.now)], s.now,
                          s.tasks[id := Submitting(0, payout)], s.serial + 1,
                          s.used + {payout.swishRef}, s.history)
  {
    t := Apply(s, Arrive(0, payout));
    ClaimIsAllOrNothing(t.table, payout, t.now);
    u := Apply(t, Claim(TaskId(s.serial, payout.reference), Delivered));
  }

  const EMPTY: State := State(map[], 0, map[], 0, {}, [])

  const CLAIMED: State := State(
    map["INV-1" := Inserted(FIRST, 0)], 0, map[FIRST_TASK := Submitting(0, FIRST)], 1, {"A1"}, [])

  lemma FirstRequest() returns (run: seq<State>, actions: seq<Action>)
    ensures Run(run, actions) && run[|actions|] == CLAIMED && run[0] == EMPTY
  {
    TheUuidsAreUsable();
    var t, u := RequestWins(EMPTY, FIRST);
    run, actions := [EMPTY], [];
    run, actions := Extended(run, actions, Arrive(0, FIRST));
    run, actions := Extended(run, actions, Claim(FIRST_TASK, Delivered));
  }

  lemma IsPaid(run: seq<State>, actions: seq<Action>) returns (longer: seq<State>, more: seq<Action>)
    requires Run(run, actions) && run[|actions|] == CLAIMED
    ensures Run(longer, more) && longer[|more|] == PAID_ONCE && longer[0] == run[0]
  {
    hide Run;
    longer, more := Extended(run, actions, Send(FIRST_TASK));
    longer, more := Extended(longer, more, Answer(FIRST_TASK, true));
    assert longer[|more|].tasks == map[FIRST_TASK := Polling(0, "INV-1", "A1", Route, START)];
    longer, more := Extended(longer, more, Ask(FIRST_TASK, Success(Some(Paid))));
    assert longer[|more|].tasks == PAID_ONCE.tasks;
  }

  lemma ThenACallback(run: seq<State>, actions: seq<Action>) returns (longer: seq<State>, more: seq<Action>)
    requires Run(run, actions) && run[|actions|] == PAID_ONCE
    ensures Run(longer, more) && longer[|more|] == CHECKED && longer[0] == run[0]
  {
    hide Run, Stored;
    longer, more := Extended(run, actions, Report(0, "INV-1", "A1", Some("CANCELLED")));
    longer, more := Extended(longer, more, Check(CALLBACK_TASK, false));
    assert longer[|more|].tasks == CHECKED.tasks;
  }

  lemma WhichIsStored(run: seq<State>, actions: seq<Action>) returns (longer: seq<State>, more: seq<Action>)
    requires Run(run, actions) && run[|actions|] == CHECKED
    ensures Run(longer, more) && longer[|more|] == OVERTAKEN && longer[0] == run[0]
  {
    hide Run;
    longer, more := Extended(run, actions, Write(CALLBACK_TASK, Delivered));
    assert longer[|more|].tasks == OVERTAKEN.tasks;
  }

  lemma ThenASecondRequest(run: seq<State>, actions: seq<Action>) returns (longer: seq<State>, more: seq<Action>)
    requires Run(run, actions) && run[|actions|] == OVERTAKEN
    ensures Run(longer, more) && longer[|more|] == RECLAIMED && longer[0] == run[0]
  {
    hide Run;
    TheUuidsAreUsable();
    var t, u := RequestWins(OVERTAKEN, SECOND);
    longer, more := Extended(run, actions, Arrive(0, SECOND));
    longer, more := Extended(longer, more, Claim(SECOND_TASK, Delivered));
    assert u.tasks == RECLAIMED.tasks;
  }

  lemma WhichIsSent(run: seq<State>, actions: seq<Action>) returns (longer: seq<State>, more: seq<Action>)
    requires Run(run, actions) && run[|actions|] == RECLAIMED
    ensures Run(longer, more) && longer[|more|] == PAID_TWICE && longer[0] == run[0]
  {
    hide Run;
    longer, more := Extended(run, actions, Send(SECOND_TASK));
    assert longer[|more|].tasks == PAID_TWICE.tasks;
  }

  /** The answer about the first instruction, written at last. */
  lemma StaleWrite()
    ensures Enabled(PAID_TWICE, Write(FIRST_TASK, Delivered))
    ensures Apply(PAID_TWICE, Write(FIRST_TASK, Delivered)).history ==
            PAID_TWICE.history + [Wrote("INV-1", Some("A1"), Paid, FromRoute, Some("B2"), 0, true)]
  {
  }

  /**
   * It does happen: from an empty table, one unlisted callback status leads to two POSTs for one
   * reference, and to the answer about the first instruction being written over the second.
   */
  lemma PaysTwice() returns (run: seq<State>, actions: seq<Action>)
    ensures Run(run, actions) && run[0].table == map[]
    ensures run[|actions|].history ==
            [Posted(FIRST), Asked("INV-1", "A1", Route, 0),
             Wrote("INV-1", Some("A1"), CANCELLED, FromCallback, Some("A1"), 0, true),
             Posted(SECOND),
             Wrote("INV-1", Some("A1"), Paid, FromRoute, Some("B2"), 0, true)]
    ensures FIRST.reference == SECOND.reference && FIRST.swishRef != SECOND.swishRef
  {
    hide Run;
    run, actions := FirstRequest();
    run, actions := IsPaid(run, actions);
    run, actions := ThenACallback(run, actions);
    run, actions := WhichIsStored(run, actions);
    run, actions := ThenASecondRequest(run, actions);
    run, actions := WhichIsSent(run, actions);
    StaleWrite();
    TheUuidsAreUsable();
    run, actions := Extended(run, actions, Write(FIRST_TASK, Delivered));
  }
}
