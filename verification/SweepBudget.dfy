/** Attempts are a budget: sweeps spend it, one unit a row, and only reclaiming a row gives it back. */
module SweepBudget {
  import opened PayoutStore
  import opened Protocol
  import opened Settlement

  /** The attempts counted against all rows together. */
  ghost function Spent(rows: Table): int
    decreases |rows|
  {
    if rows == map[] then 0
    else
      var r :| r in rows;
      rows[r].attempts + Spent(rows - {r})
  }

  lemma {:induction false} SpentWithout(rows: Table, r: string)
    requires r in rows
    ensures Spent(rows) == rows[r].attempts + Spent(rows - {r})
    decreases |rows|
  {
    var first :| first in rows && Spent(rows) == rows[first].attempts + Spent(rows - {first});
    if first != r {
      SpentWithout(rows - {first}, r);
      SpentWithout(rows - {r}, first);
      assert rows - {first} - {r} == rows - {r} - {first};
    }
  }

  lemma SpentAfterUpdate(rows: Table, r: string, row: Row)
    ensures Spent(rows[r := row]) == Spent(rows) + row.attempts - (if r in rows then rows[r].attempts else 0)
  {
    SpentWithout(rows[r := row], r);
    if r in rows {
      SpentWithout(rows, r);
      assert rows[r := row] - {r} == rows - {r};
    } else {
      assert rows[r := row] - {r} == rows;
    }
  }

  /** A sweep spends exactly one attempt for each row it returns. */
  lemma {:induction false} SweepSpends(rows: Table, now: int)
    ensures Spent(StalledClaimed(rows, MAX_ATTEMPTS, STALL_AFTER, now)) ==
            Spent(rows) + |StalledClaims(rows, MAX_ATTEMPTS, STALL_AFTER, now)|
    decreases |rows|
  {
    hide Due, StalledClaims, StalledClaimed;
    if rows == map[] {
      NothingToSweep(now);
    } else {
      var r :| r in rows;
      SweepSpends(rows - {r}, now);
      SweepWithout(rows, r, now);
      SpentWithout(rows, r);
      SpentWithout(StalledClaimed(rows, MAX_ATTEMPTS, STALL_AFTER, now), r);
    }
  }

  lemma NothingToSweep(now: int)
    ensures StalledClaimed(map[], MAX_ATTEMPTS, STALL_AFTER, now) == map[]
    ensures StalledClaims(map[], MAX_ATTEMPTS, STALL_AFTER, now) == map[]
  {
  }

  /** A sweep treats each row by itself. */
  lemma SweepWithout(rows: Table, r: string, now: int)
    requires r in rows
    ensures var after, claims := StalledClaimed(rows, MAX_ATTEMPTS, STALL_AFTER, now), StalledClaims(rows, MAX_ATTEMPTS, STALL_AFTER, now);
            var one := if Due(rows[r], MAX_ATTEMPTS, STALL_AFTER, now) then 1 else 0;
            && StalledClaimed(rows - {r}, MAX_ATTEMPTS, STALL_AFTER, now) == after - {r}
            && r in after && after[r].attempts == rows[r].attempts + one
            && |claims| == |StalledClaims(rows - {r}, MAX_ATTEMPTS, STALL_AFTER, now)| + one
  {
    hide Due;
    var claims := StalledClaims(rows, MAX_ATTEMPTS, STALL_AFTER, now);
    var rest := StalledClaims(rows - {r}, MAX_ATTEMPTS, STALL_AFTER, now);
    if r in claims {
      assert claims == rest[r := claims[r]];
    } else {
      assert claims == rest;
    }
  }

  lemma {:induction false} SpentIsBounded(rows: Table)
    requires forall r | r in rows :: 0 <= rows[r].attempts <= MAX_ATTEMPTS
    ensures 0 <= Spent(rows) <= MAX_ATTEMPTS * |rows|
    decreases |rows|
  {
    if rows != map[] {
      var r :| r in rows;
      SpentWithout(rows, r);
      SpentIsBounded(rows - {r});
    }
  }

  // ---- Over runs ----

  /** How many rows all sweeps so far returned. */
  function RowsSwept(history: seq<Event>): nat {
    if history == [] then 0
    else RowsSwept(history[..|history| - 1]) + RowsClaimed(history[|history| - 1])
  }

  function RowsClaimed(e: Event): nat {
    if e.Swept? then |e.claims| else 0
  }

  /** How many sweeps so far returned anything. */
  function NonEmptySweeps(history: seq<Event>): nat {
    if history == [] then 0
    else NonEmptySweeps(history[..|history| - 1]) + (if RowsClaimed(history[|history| - 1]) > 0 then 1 else 0)
  }

  lemma {:induction false} SweepsReturnRows(history: seq<Event>)
    ensures NonEmptySweeps(history) <= RowsSwept(history)
  {
    if history != [] {
      SweepsReturnRows(history[..|history| - 1]);
    }
  }

  /** The attempts a step takes back off the table, with the row it reclaims. */
  function GivesBack(s: State, a: Action): int
    requires Enabled(s, a)
  {
    if a.Claim? && Reclaims(s, a, s.tasks[a.task].payout.reference)
    then s.table[s.tasks[a.task].payout.reference].attempts
    else 0
  }

  function GivenBack(run: seq<State>, actions: seq<Action>, n: nat): int
    requires Run(run, actions) && n < |run|
  {
    if n == 0 then 0 else GivenBack(run, actions, n - 1) + GivesBack(run[n - 1], actions[n - 1])
  }

  /** How many of the first `n` steps reclaimed a row. */
  function Reclaimings(run: seq<State>, actions: seq<Action>, n: nat): nat
    requires Run(run, actions) && n < |run|
  {
    if n == 0 then 0
    else
      var s, a := run[n - 1], actions[n - 1];
      Reclaimings(run, actions, n - 1) + if a.Claim? && Reclaims(s, a, s.tasks[a.task].payout.reference) then 1 else 0
  }

  lemma SpentStep(s: State, a: Action)
    requires Enabled(s, a)
    ensures Spent(TableAfter(s, a)) + GivesBack(s, a) - RowsSwept(s.history + Emits(s, a)) ==
            Spent(s.table) - RowsSwept(s.history)
  {
    if Emits(s, a) != [] {
      assert (s.history + Emits(s, a))[..|s.history|] == s.history;
    } else {
      assert s.history + Emits(s, a) == s.history;
    }
    TableSpends(s, a);
  }

  lemma TableSpends(s: State, a: Action)
    requires Enabled(s, a)
    ensures |Emits(s, a)| <= 1
    ensures Spent(TableAfter(s, a)) + GivesBack(s, a) ==
            Spent(s.table) + if Emits(s, a) == [] then 0 else RowsClaimed(Emits(s, a)[0])
  {
    match a
    case Claim(id, fault) =>
      var payout := s.tasks[id].payout;
      if fault != NotCommitted {
        ClaimIsAllOrNothing(s.table, payout, s.now);
        SpentAfterUpdate(s.table, payout.reference, TableAfter(s, a)[payout.reference]);
      }
    case Sweep(_, _) => SweepSpends(s.table, s.now);
    case Write(id, _) =>
      if TableAfter(s, a) != s.table {
        SpentAfterUpdate(s.table, s.tasks[id].reference, TableAfter(s, a)[s.tasks[id].reference]);
      }
    case _ =>
  }

  /**
   * Sweeps alone spend attempts and reclaiming alone gives them back: what the table counts, with
   * what was given back, is what it counted at the start plus every row any sweep returned.
   */
  lemma {:induction false} AttemptsAreConserved(run: seq<State>, actions: seq<Action>, n: nat)
    requires Run(run, actions) && n < |run|
    ensures Spent(run[n].table) + GivenBack(run, actions, n) == Spent(run[0].table) + RowsSwept(run[n].history)
    ensures GivenBack(run, actions, n) <= MAX_ATTEMPTS * Reclaimings(run, actions, n)
  {
    hide Spent, RowsClaimed, Reclaims, GivesBack, Step;
    if n > 0 {
      AttemptsAreConserved(run, actions, n - 1);
      SpentAt(run, actions, n - 1);
    }
  }

  lemma SpentAt(run: seq<State>, actions: seq<Action>, n: nat)
    requires Run(run, actions) && n < |actions|
    ensures Enabled(run[n], actions[n]) && GivesBack(run[n], actions[n]) <= MAX_ATTEMPTS
    ensures Spent(run[n + 1].table) + GivesBack(run[n], actions[n]) - RowsSwept(run[n + 1].history) ==
            Spent(run[n].table) - RowsSwept(run[n].history)
    ensures GivesBack(run[n], actions[n]) > 0 ==>
              actions[n].Claim? && Reclaims(run[n], actions[n], run[n].tasks[actions[n].task].payout.reference)
  {
    SpentStep(run[n], actions[n]);
    SettledThroughout(run, actions, n);
  }

  /**
   * However long a run, its sweeps find something to claim at most MAX_ATTEMPTS times for each row
   * there is and for each time a row was reclaimed, so without new requests sweeping comes to an end.
   */
  lemma SweepingEnds(run: seq<State>, actions: seq<Action>, n: nat)
    requires Run(run, actions) && n < |run|
    ensures NonEmptySweeps(run[n].history) <= RowsSwept(run[n].history)
            <= MAX_ATTEMPTS * (|run[n].table| + Reclaimings(run, actions, n))
  {
    AttemptsAreConserved(run, actions, n);
    SweepsReturnRows(run[n].history);
    SettledThroughout(run, actions, n);
    SpentIsBounded(run[n].table);
    SettledThroughout(run, actions, 0);
    SpentIsBounded(run[0].table);
  }
}
