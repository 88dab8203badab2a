/** The payout lifecycle and the sets that guard it (`src/domain/status.rs`). */
module PayoutStatus {
  import opened Prelude

  /**
   * What the status column can hold: one of the seven listed statuses, or any other text, which a
   * callback stores as it came.
   */
  datatype Status =
    | Created
    | Pending
    | Debited
    | Paid
    | Declined
    | Error
    | NeedsReview
    | Unlisted(text: string)

  const TERMINAL: set<Status> := {Paid, Debited}
  const FIELDS_LOCKED: set<Status> := {Paid, Pending, Debited, NeedsReview, Created, Error, Declined}
  const STALLED: set<Status> := {Created, Pending, Error}
  const TERMINAL_ADVANCE: (Status, Status) := (Debited, Paid)

  predicate Listed(status: Status) {
    !status.Unlisted?
  }

  /** The SQL guard built by `writable_condition`. */
  predicate Writable(current: Status, incoming: Status) {
    current !in TERMINAL || (current == TERMINAL_ADVANCE.0 && incoming == TERMINAL_ADVANCE.1)
  }

  function AsStr(status: Status): string {
    match status
    case Created => "CREATED"
    case Pending => "PENDING"
    case Debited => "DEBITED"
    case Paid => "PAID"
    case Declined => "DECLINED"
    case Error => "ERROR"
    case NeedsReview => "NEEDS_REVIEW"
    case Unlisted(text) => text
  }

  function Parse(text: string): Option<Status> {
    if text == "CREATED" then Some(Created)
    else if text == "PENDING" then Some(Pending)
    else if text == "DEBITED" then Some(Debited)
    else if text == "PAID" then Some(Paid)
    else if text == "DECLINED" then Some(Declined)
    else if text == "ERROR" then Some(Error)
    else if text == "NEEDS_REVIEW" then Some(NeedsReview)
    else None
  }

  /** The status a column holding `text` stands for. */
  function Stored(text: string): Status {
    match Parse(text)
    case Some(status) => status
    case None => Unlisted(text)
  }

  /** What a callback writes: its own text, or `UNKNOWN` when the body carries no status. */
  function CallbackStatus(text: Option<string>): Status {
    match text
    case Some(text) => Stored(text)
    case None => Stored("UNKNOWN")
  }

  /** Storing loses nothing: each text is one status, and `Parse` knows exactly the listed seven. */
  lemma StoredIsTheText(text: string, status: Status)
    ensures AsStr(Stored(text)) == text
    ensures Parse(text) == Some(status) <==> Listed(status) && AsStr(status) == text
    ensures Listed(Stored(text)) <==> Parse(text).Some?
  {
    assert |"CREATED"| == |"PENDING"| == |"DEBITED"| == 7;
    assert "CREATED"[0] == 'C' && "PENDING"[0] == 'P' && "DEBITED"[0] == 'D';
  }

  /** A callback's text is stored as it came, and a missing one as `UNKNOWN`. */
  lemma CallbackStoresItsText(text: Option<string>)
    ensures AsStr(CallbackStatus(text)) == if text.Some? then text.value else "UNKNOWN"
  {
    StoredIsTheText(if text.Some? then text.value else "UNKNOWN", Created);
  }

  /** A claim is refused for every listed status: `FIELDS_LOCKED` is all of them and nothing else. */
  lemma EveryListedStatusIsLocked(status: Status)
    ensures status in FIELDS_LOCKED <==> Listed(status)
    ensures status in STALLED ==> status !in TERMINAL
  {
  }

  /** `PAID` is final, and out of `DEBITED` only the advance to `PAID` is left. */
  predicate Settles(before: Status, after: Status) {
    && (before == Paid ==> after == Paid)
    && (before == Debited ==> after == Debited || after == Paid)
  }

  /** The write guard lets a status through exactly when the change settles and is not a repeat. */
  lemma WritableIsProgress(before: Status, after: Status)
    ensures Writable(before, after) <==> Settles(before, after) && (before == after ==> before !in TERMINAL)
  {
  }
}
