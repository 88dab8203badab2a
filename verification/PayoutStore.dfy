/** The payouts table and its statements (`src/store/postgres.rs`, `src/store/mod.rs`). */
module PayoutStore {
  import opened Prelude
  import opened PayoutStatus

  /** A payout as the caller submitted it. The amount is counted in öre. */
  datatype Payout = Payout(
    reference: string,
    payeeAlias: string,
    payeeSsn: Option<string>,
    amount: int,
    message: string,
    swishRef: string)

  datatype Row = Row(
    payeeAlias: string,
    payeeSsn: Option<string>,
    amount: int,
    message: string,
    swishRef: Option<string>,
    status: Status,
    attempts: int,
    updatedAt: int)

  type Table = map<string, Row>

  datatype ClaimOutcome = ClaimOutcome(status: Status, swishRef: Option<string>) {
    /** Whether this caller won the claim, and may therefore submit to Swish. */
    predicate ClaimedBy(uuid: string) {
      status == Created && swishRef == Some(uuid)
    }
  }

  datatype Snapshot = Snapshot(status: Status, swishRef: Option<string>)

  // ---- The statements, as functions of the table ----

  function Inserted(payout: Payout, now: int): Row {
    Row(payout.payeeAlias, payout.payeeSsn, payout.amount, payout.message, Some(payout.swishRef), Created, 0, now)
  }

  /** `ON CONFLICT (reference) DO UPDATE SET`, one `CASE` a column. */
  function OnConflict(row: Row, payout: Payout, now: int): Row {
    var locked := row.status in FIELDS_LOCKED;
    Row(
      if locked then row.payeeAlias else payout.payeeAlias,
      if locked then row.payeeSsn else payout.payeeSsn,
      if locked then row.amount else payout.amount,
      if locked then row.message else payout.message,
      if locked then row.swishRef else Some(payout.swishRef),
      if locked then row.status else Created,
      if locked then row.attempts else 0,
      if locked then row.updatedAt else now)
  }

  function Claimed(rows: Table, payout: Payout, now: int): Table {
    rows[payout.reference :=
      if payout.reference in rows then OnConflict(rows[payout.reference], payout, now) else Inserted(payout, now)]
  }

  predicate StatusApplies(rows: Table, reference: string, status: Status) {
    reference in rows && Writable(rows[reference].status, status)
  }

  function StatusSet(rows: Table, reference: string, status: Status, now: int): Table {
    if StatusApplies(rows, reference, status)
    then rows[reference := rows[reference].(status := status, updatedAt := now)]
    else rows
  }

  predicate Due(row: Row, maxAttempts: int, olderThan: int, now: int) {
    row.status in STALLED && row.attempts < maxAttempts && row.updatedAt < now - olderThan
  }

  /** The rows a sweep claims, each with the attempt count it returns. */
  function StalledClaims(rows: Table, maxAttempts: int, olderThan: int, now: int): map<string, int> {
    map r | r in rows && Due(rows[r], maxAttempts, olderThan, now) :: rows[r].attempts + 1
  }

  function StalledClaimed(rows: Table, maxAttempts: int, olderThan: int, now: int): Table {
    map r | r in rows ::
      if Due(rows[r], maxAttempts, olderThan, now)
      then rows[r].(attempts := rows[r].attempts + 1, updatedAt := now)
      else rows[r]
  }

  // ---- The store itself ----

  /** The shared table and the database clock. */
  class Store {
    var rows: Table
    var now: int

    constructor (rows: Table, now: int)
      ensures this.rows == rows && this.now == now
    {
      this.rows := rows;
      this.now := now;
    }

    method Claim(payout: Payout) returns (outcome: ClaimOutcome)
      modifies this`rows
      ensures rows == Claimed(old(rows), payout, now)
      ensures outcome == ClaimOutcome(rows[payout.reference].status, rows[payout.reference].swishRef)
    {
      if payout.reference in rows {
        rows := rows[payout.reference := OnConflict(rows[payout.reference], payout, now)];
      } else {
        rows := rows[payout.reference := Inserted(payout, now)];
      }
      outcome := ClaimOutcome(rows[payout.reference].status, rows[payout.reference].swishRef);
    }

    method SetStatusUnlessTerminal(reference: string, status: Status) returns (applied: bool)
      modifies this`rows
      ensures applied == StatusApplies(old(rows), reference, status)
      ensures rows == StatusSet(old(rows), reference, status, now)
    {
      applied := reference in rows && Writable(rows[reference].status, status);
      if applied {
        rows := rows[reference := rows[reference].(status := status, updatedAt := now)];
      }
    }

    method Read(reference: string) returns (row: Option<Snapshot>)
      ensures reference !in rows ==> row == None
      ensures reference in rows ==> row == Some(Snapshot(rows[reference].status, rows[reference].swishRef))
    {
      if reference in rows {
        return Some(Snapshot(rows[reference].status, rows[reference].swishRef));
      }
      return None;
    }

    method ClaimStalled(maxAttempts: int, olderThan: int) returns (stalled: map<string, int>)
      modifies this`rows
      ensures stalled == StalledClaims(old(rows), maxAttempts, olderThan, now)
      ensures rows == StalledClaimed(old(rows), maxAttempts, olderThan, now)
    {
      stalled := StalledClaims(rows, maxAttempts, olderThan, now);
      rows := map r | r in rows ::
        if r in stalled then rows[r].(attempts := stalled[r], updatedAt := now) else rows[r];
    }
  }

  // ---- The storage contract ----

  /** The row for `p` is exactly what its claim wrote into the caller's columns. */
  predicate Holds(rows: Table, p: Payout) {
    && p.reference in rows
    && rows[p.reference].payeeAlias == p.payeeAlias
    && rows[p.reference].payeeSsn == p.payeeSsn
    && rows[p.reference].amount == p.amount
    && rows[p.reference].message == p.message
    && rows[p.reference].swishRef == Some(p.swishRef)
  }

  function OutcomeOf(rows: Table, reference: string): ClaimOutcome
    requires reference in rows
  {
    ClaimOutcome(rows[reference].status, rows[reference].swishRef)
  }

  /**
   * The eight `CASE` columns never mix: a claim leaves the whole row as it was or replaces the whole
   * row, and it replaces it exactly when there was no row or its status was not a listed one. A
   * caller with a UUID no row carries wins exactly then.
   */
  lemma ClaimIsAllOrNothing(rows: Table, payout: Payout, now: int)
    ensures var r := payout.reference;
            var after := Claimed(rows, payout, now);
            var free := r !in rows || !Listed(rows[r].status);
            && after[r] == (if free then Inserted(payout, now) else rows[r])
            && after - {r} == rows - {r}
            && (free ==> OutcomeOf(after, r).ClaimedBy(payout.swishRef))
            && (!free && rows[r].swishRef != Some(payout.swishRef) ==> !OutcomeOf(after, r).ClaimedBy(payout.swishRef))
  {
    if payout.reference in rows {
      EveryListedStatusIsLocked(rows[payout.reference].status);
    }
  }

  /** Two claims of one reference, in whichever order they land: the second never wins. */
  lemma ClaimsAreExclusive(rows: Table, first: Payout, second: Payout, now: int, later: int)
    requires first.reference == second.reference && first.swishRef != second.swishRef
    ensures var after := Claimed(rows, first, now);
            OutcomeOf(after, first.reference).ClaimedBy(first.swishRef) ==>
              && Claimed(after, second, later) == after
              && !OutcomeOf(Claimed(after, second, later), second.reference).ClaimedBy(second.swishRef)
  {
    ClaimIsAllOrNothing(rows, first, now);
    var after := Claimed(rows, first, now);
    if OutcomeOf(after, first.reference).ClaimedBy(first.swishRef) {
      ClaimIsAllOrNothing(after, second, later);
      assert Claimed(after, second, later) == after;
    }
  }
}
