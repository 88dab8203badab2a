/** The payment guarantees: what holds of a reference in every run that does not reclaim it. */
module Guarantees {
  import opened Text
  import opened PayoutStatus
  import opened PayoutStore
  import opened Polling
  import opened Protocol
  import opened Settlement
  import opened Instructions
  import opened PayOnce

  // ---- One reference, one instruction ----

  /**
   * In every interleaving of requests, callbacks, polls, sweeps, lost answers and crashes, over any
   * number of instances, a reference that is not reclaimed is POSTed at most once; and what was
   * POSTed is what its row still says, UUID and recipient included.
   */
  lemma PaysOnce(run: seq<State>, actions: seq<Action>, n: nat, r: string)
    requires Run(run, actions) && n < |run| && !Reclaimed(run, actions, 0, n, r)
    ensures var h := run[n].history;
            && (forall i, j | 0 <= i < j < |h| :: !(PostedFor(h[i], r) && PostedFor(h[j], r)))
            && (forall i | 0 <= i < |h| && PostedFor(h[i], r) :: Holds(run[n].table, h[i].payout))
  {
    SafeThroughout(run, actions, n, r);
    var h := run[n].history;
    forall i | 0 <= i < |h| && PostedFor(h[i], r)
      ensures Holds(run[n].table, h[i].payout)
    {
      assert Past(run[n].table, run[n].tasks, h[i], r);
    }
    forall i, j | 0 <= i < j < |h|
      ensures !(PostedFor(h[i], r) && PostedFor(h[j], r))
    {
      assert !Again(h[i], h[j], r);
    }
  }

  lemma ListedIsNotReclaimed(run: seq<State>, actions: seq<Action>, n: nat, r: string)
    requires Run(run, actions) && n < |run| && ListedThroughout(run[..n])
    ensures !Reclaimed(run, actions, 0, n, r)
  {
    forall k: nat | k < n
      ensures !Reclaims(run[k], actions[k], r)
    {
      assert AllListed(run[..n][k].table);
    }
  }

  /** As long as every row holds one of the seven statuses, this goes for all references. */
  lemma EveryReferencePaysOnce(run: seq<State>, actions: seq<Action>, n: nat)
    requires Run(run, actions) && n < |run| && ListedThroughout(run[..n])
    ensures var h := run[n].history;
            && (forall i, j | 0 <= i < j < |h| && h[i].Posted? && h[j].Posted? ::
                  h[i].payout.reference != h[j].payout.reference)
            && (forall i | 0 <= i < |h| && h[i].Posted? :: Holds(run[n].table, h[i].payout))
  {
    var h := run[n].history;
    forall i | 0 <= i < |h| && h[i].Posted?
      ensures Holds(run[n].table, h[i].payout)
      ensures forall j | i < j < |h| && h[j].Posted? :: h[i].payout.reference != h[j].payout.reference
    {
      var r := h[i].payout.reference;
      ListedIsNotReclaimed(run, actions, n, r);
      PaysOnce(run, actions, n, r);
      assert PostedFor(h[i], r);
      forall j | i < j < |h| && h[j].Posted?
        ensures h[j].payout.reference != r
      {
        assert !(PostedFor(h[i], r) && PostedFor(h[j], r));
      }
    }
  }

  // ---- A bounded chase ----

  /** Attempts stay within 0 and MAX_ATTEMPTS, reclaimed or not. */
  lemma AttemptsStayInRange(run: seq<State>, actions: seq<Action>, n: nat, r: string)
    requires Run(run, actions) && n < |run| && r in run[n].table
    ensures 0 <= run[n].table[r].attempts <= MAX_ATTEMPTS
  {
    SettledThroughout(run, actions, n);
  }

  /** Reconcile tasks of one reference carry distinct attempt numbers, all of them counted ones. */
  lemma ChasesAreDistinct(run: seq<State>, actions: seq<Action>, n: nat, r: string, id: TaskId, id': TaskId)
    requires Run(run, actions) && n < |run| && !Reclaimed(run, actions, 0, n, r)
    requires id in run[n].tasks && id' in run[n].tasks
    requires ChaseKey(run[n].tasks[id]).Some? && ChaseKey(run[n].tasks[id]).value.0 == r
    ensures r in run[n].table && 1 <= ChaseKey(run[n].tasks[id]).value.1 <= run[n].table[r].attempts <= MAX_ATTEMPTS
    ensures ChaseKey(run[n].tasks[id]) == ChaseKey(run[n].tasks[id']) ==> id == id'
  {
    SafeThroughout(run, actions, n, r);
    KeysTaken(run[n], id);
    if id != id' && Subject(run[n].tasks[id']) == r {
      assert !Clash(run[n].tasks[id], run[n].tasks[id']);
    }
  }

  predicate AskedAbout(e: Event, r: string) {
    e.Asked? && e.reference == r
  }

  function Asks(history: seq<Event>, r: string): nat {
    if history == [] then 0
    else Asks(history[..|history| - 1], r) + if AskedAbout(history[|history| - 1], r) then 1 else 0
  }

  datatype Slot = Slot(number: int)

  /** A slot for each GET the route and the attempts of one reference may make. */
  function SlotOf(e: Event): Slot
    requires e.Asked?
  {
    Slot(e.index + if e.origin.Chase? then POLL_ATTEMPTS * e.origin.attempts else 0)
  }

  /** The slots the GETs about `r` took. */
  ghost function SlotsOf(history: seq<Event>, r: string): set<Slot> {
    set i | 0 <= i < |history| && AskedAbout(history[i], r) :: SlotOf(history[i])
  }

  lemma {:induction false} AsksFillSlots(history: seq<Event>, r: string)
    requires forall i, j | 0 <= i < j < |history| && AskedAbout(history[i], r) && AskedAbout(history[j], r) ::
               SlotOf(history[i]) != SlotOf(history[j])
    ensures |SlotsOf(history, r)| == Asks(history, r)
  {
    hide SlotOf;
    if history != [] {
      var last := |history| - 1;
      var rest := history[..last];
      AsksFillSlots(rest, r);
      SlotsGrow(history, r);
    }
  }

  lemma SlotsGrow(history: seq<Event>, r: string)
    requires history != []
    ensures var last := |history| - 1;
            SlotsOf(history, r) == SlotsOf(history[..last], r) +
              if AskedAbout(history[last], r) then {SlotOf(history[last])} else {}
  {
    hide SlotOf;
    var last := |history| - 1;
    var rest := history[..last];
    forall k | k in SlotsOf(rest, r)
      ensures k in SlotsOf(history, r)
    {
      var i :| 0 <= i < last && AskedAbout(rest[i], r) && SlotOf(rest[i]) == k;
      assert rest[i] == history[i];
    }
    forall k | k in SlotsOf(history, r)
      ensures k in SlotsOf(rest, r) || (AskedAbout(history[last], r) && k == SlotOf(history[last]))
    {
      var i :| 0 <= i < |history| && AskedAbout(history[i], r) && SlotOf(history[i]) == k;
      if i < last {
        assert rest[i] == history[i];
      }
    }
  }

  /** The slot tells which of the GETs about its reference an event is. */
  lemma SlotsTell(e: Event, f: Event)
    requires e.Asked? && f.Asked? && e.index < POLL_ATTEMPTS && f.index < POLL_ATTEMPTS
    requires (e.origin.Chase? ==> e.origin.attempts >= 1) && (f.origin.Chase? ==> f.origin.attempts >= 1)
    requires SlotOf(e) == SlotOf(f)
    ensures e.origin == f.origin && e.index == f.index
  {
  }

  lemma {:induction false} SlotsBelow(s: set<Slot>, n: nat)
    requires forall k | k in s :: 0 <= k.number < n
    ensures |s| <= n
  {
    if s != {} {
      var k :| k in s;
      assert 0 <= k.number < n;
      SlotsBelow(s - {Slot(n - 1)}, n - 1);
    }
  }

  /** Swish is asked about a reference at most eight times for the route and for each attempt. */
  lemma AsksAreBounded(run: seq<State>, actions: seq<Action>, n: nat, r: string)
    requires Run(run, actions) && n < |run| && !Reclaimed(run, actions, 0, n, r)
    ensures Asks(run[n].history, r) <= POLL_ATTEMPTS * (MAX_ATTEMPTS + 1)
  {
    SafeThroughout(run, actions, n, r);
    var h := run[n].history;
    forall i | 0 <= i < |h| && AskedAbout(h[i], r)
      ensures h[i].index < POLL_ATTEMPTS && (h[i].origin.Chase? ==> 1 <= h[i].origin.attempts <= MAX_ATTEMPTS)
    {
      assert Past(run[n].table, run[n].tasks, h[i], r);
    }
    forall i, j | 0 <= i < j < |h| && AskedAbout(h[i], r) && AskedAbout(h[j], r)
      ensures SlotOf(h[i]) != SlotOf(h[j])
    {
      assert !Again(h[i], h[j], r);
      if SlotOf(h[i]) == SlotOf(h[j]) {
        SlotsTell(h[i], h[j]);
      }
    }
    AsksFillSlots(h, r);
    SlotsBelow(SlotsOf(h, r), POLL_ATTEMPTS * (MAX_ATTEMPTS + 1));
  }

  /**
   * Reconcile writes NEEDS_REVIEW over a row that has a usable UUID only when its attempts are used
   * up, and then no sweep ever claims the row again, whatever status a callback gives it later,
   * unless a request reclaims it.
   */
  lemma GivingUpIsFinal(run: seq<State>, actions: seq<Action>, n: nat, i: nat)
    requires Run(run, actions) && n < |run| && i < |run[n].history|
    requires run[n].history[i].Wrote? && run[n].history[i].writer.GiveUp?
    requires !Reclaimed(run, actions, 0, n, run[n].history[i].reference)
    ensures var e := run[n].history[i];
            && e.status == NeedsReview
            && (e.landed.Some? && !Blank(e.landed.value) ==>
                  && e.attempts == MAX_ATTEMPTS
                  && e.reference !in StalledClaims(run[n].table, MAX_ATTEMPTS, STALL_AFTER, run[n].now)
                  && forall j | i < j < |run[n].history| :: !SweptRow(run[n].history[j], e.reference))
  {
    var e := run[n].history[i];
    SafeThroughout(run, actions, n, e.reference);
    WritersKeepToTheirStatuses(run, actions, n, i);
    assert Past(run[n].table, run[n].tasks, e, e.reference);
    if GaveUp(e, e.reference) {
      forall j | i < j < |run[n].history|
        ensures !SweptRow(run[n].history[j], e.reference)
      {
        assert !Again(e, run[n].history[j], e.reference);
      }
    }
  }
}
