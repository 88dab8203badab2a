# Verified model of swisha

swisha makes Swish payouts over a table it may share with other instances of itself. This project
models what its guarantees rest on and proves them in Dafny, for all inputs and all runs:

- **The payout protocol.** `Protocol.dfy` is a transition system. Any number of instances run payout
  requests, Swish callbacks, stall sweeps and reconcile tasks over one payouts table; every store call
  and every call to Swish is one step; steps interleave freely. Instances crash and single tasks are
  cancelled; a write may fail, or commit with its answer lost; Swish answers anything. `PayoutStore.dfy`
  is the table with the statements of the SQL, column by column, and `Cluster.dfy` is the handlers' code
  between two such steps, each method proved to be exactly one step of the transition system.
  `Settlement.dfy`, `Instructions.dfy`, `Causes.dfy`, `Rows.dfy` and `SweepBudget.dfy` hold what is true
  of every run (what stays settled, which instruction a row carries, why each status is written, when a
  row changes and a sweep claims it, what attempts are spent on),
  `PayOnce.dfy` the invariant behind the guarantees about a reference that is not reclaimed,
  `Guarantees.dfy` those guarantees, `UnlistedStatus.dfy` when a reference can be reclaimed.
- **Polling** (`Polling.dfy`), as the loop of the source and as single steps of the protocol.
- **Time** (`Calendar.dfy`, `Stockholm.dfy`, `DateText.dfy`): civil dates in truncating arithmetic, EU
  summer time, and dates as text.
- **The certificate serial** (`Base64.dfy`, `Base64Laws.dfy`, `Hex.dfy`, `Certificate.dfy`): from PEM
  text to the hexadecimal serial in the payload.
- **The rate limiter** (`RateLimit.dfy`) and **the configuration file** (`EnvFile.dfy`, and `EnvText.dfy`
  for what its text says line by line).

## Hypotheses

Two are part of what can happen at all (`Protocol.Enabled`): each request draws a UUID not used before
and not blank (the code draws 122 random bits), and the database clock does not run backwards.

The documentation of the code says one reference produces one Swish instruction, forever. The code does
not quite keep that: `src/http/routes/callback.rs:97-101` stores an unlisted callback status as it came,
such a row is not in `FIELDS_LOCKED`, and the next request for the reference replaces the row and
submits again. The model follows the code and calls this reclaiming (`Protocol.Reclaims`: a claim
committed over a row with a status that is none of the seven). What it costs is stated exactly:

- A row's UUID changes exactly when its reference is reclaimed (`Instructions.ClaimedOnceForAll`), a
  write lands on the instruction it is about exactly when the reference was not reclaimed since the task
  learned its UUID (`Instructions.WritesLandOnTheirInstruction`), and the POSTs of a reference are at
  most one more than the times it was reclaimed (`Instructions.PostsArePaidFor`). These hold in every run.
- The other payment guarantees are about one reference that is not reclaimed, whatever other rows hold.
- `UnlistedStatus.SubmitsExactlyWhenFree` says exactly when a request gets through;
  `UnlistedIsPaidAgain` and `UnlistedMakesWritesMiss` go from any unlisted row to a second POST and to a
  write that misses; `PaysTwice` is a run from an empty table that does both.
- `UnlistedStatus.ListedCallbacksSuffice` shows callbacks are the only way in: checking that the
  callback's text is one of the seven is enough.

A run starts from any table earlier runs may have left, including rows put in by hand without a UUID.

## Model

| member | source | states |
|---|---|---|
| Guarantees.PaysOnce | src/http/routes/payout.rs:124-222 | in every interleaving, with crashes and lost answers, a reference that is not reclaimed is POSTed at most once, and its POST agrees with what the row still holds (recipient, identity number, amount, message, UUID), whatever other rows hold |
| Guarantees.EveryReferencePaysOnce | src/domain/status.rs:87-88 | while all rows hold one of the seven statuses, that goes for all references |
| Instructions.PostsArePaidFor | src/http/routes/payout.rs:124-222 | in every run all POSTs carry different UUIDs, and those of a reference number at most the times it was reclaimed, plus one if it had no row |
| Instructions.WritesLandOnTheirInstruction | src/http/routes/callback.rs:104-136 | an applied write about a UUID, by callback, route or reconcile, changes a row that carries that UUID at that instant if and only if the reference was not reclaimed since the claim, check or read the task has it from, though the UPDATE names only the reference |
| Instructions.ClaimedOnceForAll | src/store/postgres.rs:41-55 | between any two moments of any run a row's UUID is unchanged if and only if the reference was not reclaimed, and then neither is any claimed column and its attempts have not gone down |
| Instructions.KeepsStep | src/store/postgres.rs:45-53 | a step that reclaims replaces the whole row; no other touches a claimed column or lowers attempts |
| Guarantees.AttemptsStayInRange | src/store/postgres.rs:128-134 | stored attempts stay within 0 and MAX_ATTEMPTS in every run |
| Guarantees.ChasesAreDistinct | src/main.rs:94-111 | the reconcile tasks in flight for a reference that is not reclaimed carry distinct attempt numbers, all between 1 and the stored attempts |
| Guarantees.AsksAreBounded | src/swish/submit.rs:94-125 | status GETs about a reference that is not reclaimed never exceed 8 × (MAX_ATTEMPTS + 1) |
| Guarantees.GivingUpIsFinal | src/swish/reconcile.rs:39-58 | reconcile writes NEEDS_REVIEW over a row with a usable UUID only at MAX_ATTEMPTS, and no later sweep claims that row, whatever status it gets, unless it is reclaimed |
| Settlement.WritersKeepToTheirStatuses | src/swish/reconcile.rs:46-58 | in every run, settling writes only PAID, DEBITED, DECLINED or ERROR; the route also PENDING; giving up only NEEDS_REVIEW |
| Causes.EveryWriteHasItsReason | src/swish/reconcile.rs:46-65 | every applied write of every run has its reason at an earlier step of its own task: what reconcile settles, and what the route writes as PAID, DEBITED or DECLINED, Swish answered to that task; a callback writes its own text, or UNKNOWN |
| Causes.WritesHaveReasons | src/http/routes/payout.rs:222-309 | a task goes on to a write if and only if: its callback names the stored UUID; its submission failed or was not accepted (ERROR); Swish gave that very answer; eight answers decided nothing (route: ERROR without contact or after a 404, else PENDING; reconcile: NEEDS_REVIEW from the third attempt); or reconcile found no usable UUID |
| Causes.PollsDecide | src/swish/submit.rs:94-141 | what follows each GET of a running task, by all answers it has had so far: the write, the next GET, or nothing |
| Causes.PollsHaveReasons | src/swish/reconcile.rs:25-46 | a poll starts, with nothing heard, if and only if Swish accepted the POST of that UUID or reconcile finds a UUID that is not blank |
| Causes.PostsWereRequested | src/http/routes/payout.rs:124-222 | in every run, every POST carries a payout as it was requested, with the UUID drawn for it |
| Causes.MirrorsFollowDebits | src/http/routes/payout.rs:324-341 | each audit event PAID carrying DEBITED follows a DEBITED write its own task made and saw applied |
| Causes.DebitsAreMirrored | src/swish/reconcile.rs:85-101 | and after each such write, and no other, comes the event |
| Causes.NoBlankIsAsked | src/swish/reconcile.rs:37-44 | in every run Swish is only asked about UUIDs that are not blank |
| Rows.RowsMoveAsAnnounced | src/store/postgres.rs:73-146 | a row starts or starts over by a claim that takes it, gets the status a write announces or one attempt from a sweep, each at the time of the step, and is otherwise untouched |
| Rows.WritesApplyUnlessSettled | src/store/postgres.rs:87-98 | a committed write applies exactly when the row exists, is not PAID, and if DEBITED is to become PAID |
| Rows.StatusIsTheLastWritten | src/store/postgres.rs:87-98 | from an applied write on, the row holds that status until written again or reclaimed |
| Rows.SweepsClaimExactly | src/main.rs:87-112 | in every run a committed sweep claims a row if and only if it is CREATED, PENDING or ERROR, has fewer than three attempts, and nothing touched it for more than thirty minutes, and it gets a reconcile task of its own exactly if the sweep's answer also arrives |
| Rows.CrashesEndTheirTasks | src/http/routes/payout.rs:287-294 | a crash ends the tasks of its instance for good, and leaves the table and all other tasks alone |
| PayOnce.SafeStep | src/http/routes/payout.rs:144-222 | the invariant about a reference is kept by every step of every task that does not reclaim it |
| PayOnce.DistinctStep | src/main.rs:105-111 | no step gives two tasks of a reference the same instruction to send or poll, or the same attempt |
| PayOnce.EmittedAnew | src/swish/reconcile.rs:104-121 | no step repeats a POST of a reference, a GET of a poll, or a sweep of a row already given up |
| Settlement.NeverUnsettled | src/domain/status.rs:79-119 | from PAID every later status of the row is PAID, from DEBITED only DEBITED or PAID, with no hypothesis on callback statuses |
| Settlement.SettlesOnce | src/http/routes/payout.rs:309-324 | per reference at most one DEBITED and one PAID write is ever applied, and the audit event PAID carrying DEBITED is logged at most once across route, callback and reconcile |
| Settlement.SweepsAreSpaced | src/store/postgres.rs:128-134 | any two sweep claims of one row, from any instances, are more than STALL_AFTER apart |
| Settlement.AdvancesStep | src/store/postgres.rs:87-98 | no step loses a row, un-settles it or moves its updated_at back |
| SweepBudget.AttemptsAreConserved | src/store/postgres.rs:128-146 | in every run the attempts of all rows together, and those given back by reclaiming, are what they were at the start plus the rows all sweeps returned |
| SweepBudget.SweepSpends | src/store/postgres.rs:129-134 | a sweep raises the sum of attempts by exactly the number of rows it returns |
| SweepBudget.SweepingEnds | src/main.rs:87-113 | the non-empty sweeps of any run number at most MAX_ATTEMPTS for each row there is and each time one was reclaimed |
| UnlistedStatus.SubmitsExactlyWhenFree | src/http/routes/payout.rs:144-180 | in every run, a waiting request goes on to submit if and only if its claim is acknowledged and its reference had no row or one with an unlisted status, and `claimed_by` says the same |
| UnlistedStatus.ListedCallbacksSuffice | src/http/routes/callback.rs:95-102 | if the text of every callback is one `parse` knows, no row ever holds an unlisted status, so no reference is ever reclaimed |
| UnlistedStatus.UnlistedIsPaidAgain | src/domain/status.rs:87-88 | from any state, a row with an unlisted status lets a fresh request for its reference reach Swish in three steps |
| UnlistedStatus.UnlistedMakesWritesMiss | src/http/routes/callback.rs:129-136 | in any run, once a row has an unlisted status while a task is about to write about its UUID, three more steps make that write land on another instruction |
| UnlistedStatus.PaysTwice | src/http/routes/callback.rs:97-101 | a run from an empty table with two POSTs for one reference, in which the answer about the first instruction is then written over the second |
| PayoutStore.ClaimIsAllOrNothing | src/store/postgres.rs:41-54 | a claim leaves the whole row as it was or replaces the whole row, exactly by whether the old status is listed, touches no other row, and is won exactly then by a UUID the row does not carry |
| PayoutStore.ClaimsAreExclusive | src/store/mod.rs:29-37 | of two claims of one reference, whichever comes second after a won claim changes nothing and is not won |
| PayoutStore.Store.Claim | src/store/postgres.rs:73-85 | performs the claim statement on the shared table and returns the resulting status and UUID |
| PayoutStore.Store.SetStatusUnlessTerminal | src/store/postgres.rs:87-98 | writes the status and time exactly when the row exists and the guard allows it, and reports just that |
| PayoutStore.Store.Read | src/store/postgres.rs:100-109 | returns the status and UUID of the row, or nothing when there is none |
| PayoutStore.Store.ClaimStalled | src/store/postgres.rs:128-146 | counts an attempt on exactly the stalled, old and unexhausted rows, returns those with their new counts, and leaves every other row alone |
| PayoutStatus.StoredIsTheText | src/domain/status.rs:34-59 | storing text as a status loses nothing, and `parse` accepts exactly the wire form of the seven |
| PayoutStatus.CallbackStoresItsText | src/http/routes/callback.rs:95-102 | a callback's text is what is stored, whatever it is, and UNKNOWN when it has none |
| PayoutStatus.EveryListedStatusIsLocked | src/domain/status.rs:79-94 | FIELDS_LOCKED holds exactly the seven statuses, and no stalled status is terminal |
| PayoutStatus.WritableIsProgress | src/domain/status.rs:105-119 | the write guard allows exactly the changes that do not un-settle, other than repeating a terminal status |
| Cluster.Instances.ClaimReference | src/http/routes/payout.rs:126-180 | claiming and the match on its outcome are one claim step of the protocol |
| Cluster.Instances.SubmitPayout | src/swish/submit.rs:25-75 | sending the POST is one send step |
| Cluster.Instances.HearAnswer | src/http/routes/payout.rs:222-293 | acceptance starts the poll; a rejection or failure leads to an ERROR write |
| Cluster.Instances.AskSwish | src/swish/submit.rs:94-141 | one GET of a poll, and what route and reconcile do with its end, is one ask step |
| Cluster.Instances.ReconcilePollOver | src/swish/reconcile.rs:46-58 | a resolved poll settles, an unresolved one stops or gives up by the attempt |
| Cluster.Instances.ReadForReconcile | src/swish/reconcile.rs:24-44 | reconcile polls the recorded UUID, gives up on a row without one, and stops when there is no row |
| Cluster.Instances.CheckCallback | src/http/routes/callback.rs:104-126 | a callback goes on to write exactly when the stored UUID is the one it names |
| Cluster.Instances.WriteStatus | src/swish/submit.rs:145-153 | one guarded write, and the audit event after it exactly for an applied and acknowledged DEBITED |
| Cluster.Instances.SweepStalled | src/main.rs:92-112 | one sweep and the reconcile tasks it spawns is one sweep step |
| Polling.PollPayoutStatus | src/swish/submit.rs:84-141 | the poll returns the first PAID, DEBITED, DECLINED or ERROR of the eight responses; else an error without any contact, else an error after a 404, else PENDING; and stops asking at the first of those |
| Polling.StepsReachTheOutcome | src/swish/submit.rs:94-141 | taking the loop one GET at a time comes to that same outcome |
| Polling.ResolvedIsFinal | src/swish/reconcile.rs:46-58 | a poll that resolves to anything but PENDING names PAID, DEBITED, DECLINED or ERROR; it comes to PENDING, or to an error, exactly when no response settles the matter and by contact and 404 alone |
| Calendar.DaysRoundTrip | src/util/time.rs:179-205 | civil_from_days then days_from_civil is the identity exactly on the days whose year fits an i32, negative eras included, and gives a real date there |
| Calendar.DatesRoundTrip | src/util/time.rs:179-205 | days_from_civil then civil_from_days is the identity on every valid date |
| Calendar.DateOrderIsDayOrder | src/util/time.rs:179-187 | day numbers order dates as the calendar does, and no two dates share one |
| Calendar.DaysCountDays | src/util/time.rs:164-187 | day 0 is 1970-01-01 and the day after a date, by month lengths and leap years, has the next number |
| Calendar.AsI32Identity | src/util/time.rs:189-205 | the cast of the year keeps what an i32 holds and wraps the rest by multiples of 2^32 |
| Stockholm.LastSundayIsTheLastSunday | src/util/time.rs:149-162 | last_sunday is a whole number of weeks from Sunday 4 January 1970, in that month, less than a week before the month's end |
| Stockholm.ClockShowsTheOffset | src/util/time.rs:123-147 | the clock shows UTC ahead by its own offset, which is two hours from 01:00 UTC on the last Sunday of March to 01:00 UTC on the last Sunday of October, and one hour otherwise |
| Stockholm.OnlyTheOctoberHourRepeats | src/util/time.rs:92-94 | two instants show the same wall clock if and only if they are 3600 s apart and the first is in the last hour before an October switch |
| Stockholm.EveryOtherTimeIsShown | src/util/time.rs:142-147 | the clock readings shown at some instant are exactly those outside the hour skipped in March, up to the first year an i32 holds |
| Stockholm.NoClockShowsTheSkippedHour | src/util/time.rs:123-147 | no instant renders into the hour from two to three on the last Sunday of March |
| DateText.ValidDatesArePrintedDays | src/util/time.rs:97-114 | is_valid_date accepts exactly the strings `date()` prints for the days of the years 0 to 9999 |
| DateText.DateStringIs | src/util/time.rs:29-31 | a date prints as YYYY-MM-DD, digit by digit |
| Base64.Encode | src/util/base64.rs:20-34 | the loop computes the chunkwise encoding |
| Base64.Decode | src/util/base64.rs:38-72 | the loops compute the decoding, with the same error for each malformed input |
| Base64Laws.DecodeUndoesEncode | src/util/base64.rs:20-72 | decoding gives back the encoded bytes, also with any amount of ASCII whitespace inserted anywhere in the text |
| Base64Laws.DecodeAcceptsExactly | src/util/base64.rs:38-72 | accepted are exactly the texts of whole quads of alphabet symbols followed by at most two `=`, with spaces, tabs, line feeds, form feeds and carriage returns anywhere in them |
| Base64Laws.DecodeRefusesWithReason | src/util/base64.rs:38-60 | each error is returned exactly for its own defect: the length, else an `=` before the end, else a byte outside the alphabet |
| Base64Laws.SymbolsAreTheAlphabet | src/util/base64.rs:5 | the symbols are the alphabet of RFC 4648 in its order |
| Base64Laws.EncodedCarriesTheBits | src/util/base64.rs:20-34 | read to the base 64, the symbols before the padding are the number the bytes are to the base 256, filled up with zero bits |
| Base64Laws.DecodedCarriesTheBits | src/util/base64.rs:56-70 | decoding reads that number back, less the bits that padding drops, three bytes for four symbols |
| Base64Laws.EncodeUndoesDecode | src/util/base64.rs:38-72 | re-encoding gives the stripped input back if and only if the bits discarded by padding were zero |
| Hex.Upper | src/util/hex.rs:6-14 | the loop computes the uppercase rendering |
| Hex.HexReadsBack | src/util/hex.rs:3-14 | two digits a byte, none but 0-9 and A-F, each pair reading as its byte |
| Hex.HexIsInjective | src/util/hex.rs:3-14 | different bytes never render alike |
| Certificate.ReadLength | src/swish/cert.rs:99-118 | the loop reads the length octets at a position, or fails with the error for what is missing |
| Certificate.ReadElement | src/swish/cert.rs:82-97 | reads the tag and contents of the element at a position and where it ends |
| Certificate.SerialFromDer | src/swish/cert.rs:59-80 | the cursor walk computes the serial of the certificate, or the first error |
| Certificate.LengthIsRead | src/swish/cert.rs:99-118 | a length is read if and only if the octets there are a definite form of up to four octets for it |
| Certificate.LengthOctetsStandForIt | src/swish/cert.rs:99-118 | the distinguished encoding of a length below 2^32 is one of those forms |
| Certificate.LengthOctetsAreTheShortest | src/swish/cert.rs:111-114 | and no accepted form of the length is shorter |
| Certificate.SerialsAreReadFromCertificates | src/swish/cert.rs:56-80 | a serial is read if and only if the bytes start with a well-formed certificate, version present or absent, and it is that certificate's |
| Certificate.ElementIsRefusedWithReason | src/swish/cert.rs:82-118 | each error of an element is returned exactly for its own defect: no tag, no length, an unsupported form, short length octets, or contents past the end |
| Certificate.SerialIsRefusedWithReason | src/swish/cert.rs:59-80 | the three errors about tags are returned exactly when the certificate is no SEQUENCE, its first element is none, or what stands in the serial's place is no INTEGER |
| Certificate.SerialOfThePem | src/swish/cert.rs:12-54 | for every well-formed certificate whose base64 text stands between the first markers with whitespace before, between and after its characters, followed by any text, read_cert_serial returns the uppercase hex of the leaf's serial |
| Certificate.FirstBlockIsRead | src/swish/cert.rs:38-54 | the DER is exactly what the characters of the first block, in their order and less the whitespace between them, decode to |
| Certificate.MissingMarkers | src/swish/cert.rs:42-50 | the two marker errors are returned exactly when that marker is missing |
| RateLimit.RateLimiter.Allow | src/http/rate_limit.rs:35-55 | one call changes buckets and counter, and answers, as one step of the limiter the laws below are about |
| RateLimit.PruningDoesNotShow | src/http/rate_limit.rs:40-43 | every request sequence on a monotone clock gets the answers of a limiter that never prunes |
| RateLimit.RateIsBounded | src/http/rate_limit.rs:45-54 | any stretch of k minutes lets at most 30 × (k + 1) requests of a caller through |
| RateLimit.RefusedOnlyAfterThirty | src/http/rate_limit.rs:45-54 | and a request is refused only if thirty earlier ones of its caller, less than sixty seconds old, were let through |
| RateLimit.MapIsBounded | src/http/rate_limit.rs:20-43 | the map never holds more than the callers live at the last prune plus one for each of the at most 1000 requests since it |
| RateLimit.EveryThousandthPrunes | src/http/rate_limit.rs:40-43 | the requests that prune are every thousandth, until the counter wraps |
| EnvFile.Parse | src/env.rs:121-160 | the loop computes the settings of the file, or its first error |
| EnvText.ParseFailsAtTheFirstOffence | src/env.rs:121-160 | read off the text alone: parsing fails if and only if a significant line lacks `=`, has an invalid name before it or repeats one, names the first such line and its mistake, and otherwise returns exactly the settings |
| EnvText.ClassifyIsTheText | src/env.rs:131-185 | a line's key is the text before its first `=` less `export ` and outer whitespace; its value is what matching quotes enclose, or else the text up to ` #`, trimmed |
| EnvFile.FinalNewlineIsOptional | src/env.rs:124 | a file reads the same without its last line break |
| EnvFile.ParseUndoesPrint | src/env.rs:115-185 | printing settings as quoted lines in any order, exported or not, among blank lines and comments, with either line ending, and parsing again gives exactly those settings |

## Left out

- Request validation, routing, secrets, client addresses and response bodies: single checks before the claim or plumbing around it.
- The announcements, the service log and every audit event but the mirrored PAID: they are sent without ordering guarantees, also when a write was refused.
- The contents of the POST and its signature: the POST is one recorded step carrying the payout.
- Amounts are whole öre; floating point and two-decimal formatting are not modelled.
- SQL text, pools and isolation: a statement is one atomic step, which may fail before or after committing.
- The GET of a poll and its answer are one step, as a GET changes nothing; the POST and its answer are two.
- Liveness: nothing says that a payout reaches a final status, since a crash after the last attempt prevents it.
- The bit operations of base64 and DER lengths are sums and quotients; the operands of each `|` never overlap.
- Overflow of `i64` arithmetic on instants and days, and of `usize` in `read_tlv`: instants, days and lengths are unbounded integers, except for the cast of the year to `i32`.
- The lookup order of environment and file, and reading the file itself.
- certificate_matches_key, phone and identity number normalisation, the error table and the remaining configuration.
