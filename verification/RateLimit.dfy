/** Per-caller rate limiting on the payout endpoint (`src/http/rate_limit.rs`). */
module RateLimit {

  datatype IpAddr = V4(bits: int) | V6(bits: int)

  /** Sixty seconds, in the nanoseconds of the monotonic clock. */
  const WINDOW: int := 60_000_000_000
  const MAX_PER_WINDOW: nat := 30
  const PRUNE_EVERY: nat := 1000
  const U64: nat := 0x1_0000_0000_0000_0000

  datatype Bucket = Bucket(count: nat, start: int)

  type Buckets = map<IpAddr, Bucket>

  /** `Instant::duration_since`, which saturates at zero. */
  function DurationSince(now: int, earlier: int): int {
    if now < earlier then 0 else now - earlier
  }

  predicate Fresh(bucket: Bucket, now: int) {
    DurationSince(now, bucket.start) < WINDOW
  }

  /** What `retain` keeps. */
  function Pruned(buckets: Buckets, now: int): Buckets {
    map a | a in buckets && Fresh(buckets[a], now) :: buckets[a]
  }

  /** One request against the caller's bucket. */
  function Visit(bucket: Bucket, now: int): (Bucket, bool) {
    if !Fresh(bucket, now) then (Bucket(1, now), true)
    else if bucket.count < MAX_PER_WINDOW then (bucket.(count := bucket.count + 1), true)
    else (bucket, false)
  }

  function BucketOf(buckets: Buckets, addr: IpAddr, now: int): Bucket {
    if addr in buckets then buckets[addr] else Bucket(0, now)
  }

  datatype Limiter = Limiter(buckets: Buckets, seen: nat)

  datatype Request = Request(addr: IpAddr, now: int)

  /** A limiter that never prunes: one bucket for every caller there ever was. */
  function Plain(buckets: Buckets, r: Request): (Buckets, bool) {
    var (bucket, allowed) := Visit(BucketOf(buckets, r.addr, r.now), r.now);
    (buckets[r.addr := bucket], allowed)
  }

  /** The limiter as it is. */
  function Step(l: Limiter, r: Request): (Limiter, bool) {
    var kept := if l.seen % PRUNE_EVERY == 0 then Pruned(l.buckets, r.now) else l.buckets;
    var (buckets, allowed) := Plain(kept, r);
    (Limiter(buckets, (l.seen + 1) % U64), allowed)
  }

  class RateLimiter {
    var buckets: Buckets
    var seen: nat

    constructor ()
      ensures Limiter(buckets, seen) == Limiter(map[], 0)
    {
      buckets := map[];
      seen := 0;
    }

    method Tracked() returns (n: nat)
      ensures n == |buckets|
    {
      n := |buckets|;
    }

    method Allow(addr: IpAddr, now: int) returns (allowed: bool)
      modifies this
      ensures (Limiter(buckets, seen), allowed) == Step(Limiter(old(buckets), old(seen)), Request(addr, now))
    {
      var prune := seen % PRUNE_EVERY == 0;
      seen := (seen + 1) % U64;
      if prune {
        buckets := Pruned(buckets, now);
      }
      ghost var kept := buckets;
      if addr !in buckets {
        buckets := buckets[addr := Bucket(0, now)];
      }
      var entry := buckets[addr];
      if DurationSince(now, entry.start) >= WINDOW {
        buckets := buckets[addr := Bucket(1, now)];
        allowed := true;
      } else if entry.count < MAX_PER_WINDOW {
        buckets := buckets[addr := entry.(count := entry.count + 1)];
        allowed := true;
      } else {
        allowed := false;
      }
      assert buckets == Plain(kept, Request(addr, now)).0;
    }
  }

  // ---- Request sequences ----

  /** Requests come in clock order, none before `now`. */
  predicate Ordered(requests: seq<Request>, now: int) {
    requests == [] || (now <= requests[0].now && Ordered(requests[1..], requests[0].now))
  }

  function Answers(l: Limiter, requests: seq<Request>): seq<bool>
    decreases |requests|
  {
    if requests == [] then []
    else
      var (next, allowed) := Step(l, requests[0]);
      [allowed] + Answers(next, requests[1..])
  }

  function PlainAnswers(buckets: Buckets, requests: seq<Request>): seq<bool>
    decreases |requests|
  {
    if requests == [] then []
    else
      var (next, allowed) := Plain(buckets, requests[0]);
      [allowed] + PlainAnswers(next, requests[1..])
  }

  // ---- Pruning does not show ----

  /** The pruned map is the plain one short of buckets whose window is over. */
  ghost predicate Mirrors(pruned: Buckets, plain: Buckets, now: int) {
    && (forall a | a in pruned :: a in plain && plain[a] == pruned[a])
    && (forall a | a in plain :: plain[a].start <= now && (a in pruned || plain[a].start + WINDOW <= now))
  }

  lemma MirrorsStep(l: Limiter, plain: Buckets, now: int, r: Request)
    requires Mirrors(l.buckets, plain, now) && now <= r.now
    ensures Step(l, r).1 == Plain(plain, r).1
    ensures Mirrors(Step(l, r).0.buckets, Plain(plain, r).0, r.now)
  {
  }

  lemma {:induction false} PruningDoesNotShowFrom(l: Limiter, plain: Buckets, requests: seq<Request>, now: int)
    requires Mirrors(l.buckets, plain, now) && Ordered(requests, now)
    ensures Answers(l, requests) == PlainAnswers(plain, requests)
    decreases |requests|
  {
    if requests != [] {
      MirrorsStep(l, plain, now, requests[0]);
      PruningDoesNotShowFrom(Step(l, requests[0]).0, Plain(plain, requests[0]).0, requests[1..], requests[0].now);
    }
  }

  /** Every sequence of requests gets the answers it would get if nothing were ever pruned. */
  lemma PruningDoesNotShow(seen: nat, requests: seq<Request>, now: int)
    requires Ordered(requests, now)
    ensures Answers(Limiter(map[], seen), requests) == PlainAnswers(map[], requests)
  {
    PruningDoesNotShowFrom(Limiter(map[], seen), map[], requests, now);
  }

  // ---- How much gets through ----

  /** How many requests of `addr` from `from` on and before `until` are let through. */
  function Admitted(requests: seq<Request>, answers: seq<bool>, addr: IpAddr, from: int, until: int): nat
    requires |requests| == |answers|
  {
    if requests == [] then 0
    else
      var counts := answers[0] && requests[0].addr == addr && from <= requests[0].now < until;
      (if counts then 1 else 0) + Admitted(requests[1..], answers[1..], addr, from, until)
  }

  lemma {:induction false} OneAnswerEach(buckets: Buckets, requests: seq<Request>)
    ensures |PlainAnswers(buckets, requests)| == |requests|
    decreases |requests|
  {
    if requests != [] {
      OneAnswerEach(Plain(buckets, requests[0]).0, requests[1..]);
    }
  }

  /** How many windows a stretch of time touches when the first begins with it. */
  function Windows(time: int): nat {
    if time <= 0 then 0 else (time + WINDOW - 1) / WINDOW
  }

  lemma WindowsGrow(a: int, b: int)
    requires a <= b
    ensures Windows(a) <= Windows(b)
    ensures a > 0 ==> Windows(a) == 1 + Windows(a - WINDOW)
  {
  }

  /** What the state of a caller's bucket at `now` still lets through before `until`. */
  function Allowance(buckets: Buckets, addr: IpAddr, now: int, until: int): int {
    if until <= now then 0
    else if addr in buckets && now < buckets[addr].start + WINDOW then
      MAX_PER_WINDOW - buckets[addr].count + MAX_PER_WINDOW * Windows(until - buckets[addr].start - WINDOW)
    else MAX_PER_WINDOW * Windows(until - now)
  }

  ghost predicate Settled(buckets: Buckets, now: int) {
    forall a | a in buckets :: buckets[a].start <= now && buckets[a].count <= MAX_PER_WINDOW
  }

  lemma AllowanceShrinks(buckets: Buckets, addr: IpAddr, now: int, later: int, until: int)
    requires Settled(buckets, now) && now <= later
    ensures 0 <= Allowance(buckets, addr, later, until) <= Allowance(buckets, addr, now, until)
  {
    if later < until {
      WindowsGrow(until - later, until - now);
      if addr in buckets && buckets[addr].start + WINDOW <= later {
        WindowsGrow(until - later, until - buckets[addr].start - WINDOW);
      }
    }
  }

  /** A request pays for itself out of the allowance. */
  lemma RequestIsPaidFor(buckets: Buckets, r: Request, addr: IpAddr, until: int)
    requires Settled(buckets, r.now) && r.now < until
    ensures Settled(Plain(buckets, r).0, r.now)
    ensures Allowance(Plain(buckets, r).0, addr, r.now, until)
            + (if r.addr == addr && Plain(buckets, r).1 then 1 else 0)
            <= Allowance(buckets, addr, r.now, until)
  {
    WindowsGrow(until - r.now, until - r.now);
  }

  lemma {:induction false} AdmittedWithinAllowance(
    buckets: Buckets, requests: seq<Request>, now: int, addr: IpAddr, from: int, until: int)
    requires Settled(buckets, now) && Ordered(requests, now)
    ensures |PlainAnswers(buckets, requests)| == |requests|
    ensures Admitted(requests, PlainAnswers(buckets, requests), addr, from, until) <= Allowance(buckets, addr, now, until)
    decreases |requests|
  {
    OneAnswerEach(buckets, requests);
    if requests == [] {
      AllowanceShrinks(buckets, addr, now, now, until);
    } else {
      var r := requests[0];
      var next := Plain(buckets, r).0;
      AllowanceShrinks(buckets, addr, now, r.now, until);
      StaysSettled(buckets, r);
      AdmittedWithinAllowance(next, requests[1..], r.now, addr, from, until);
      if r.now < until {
        RequestIsPaidFor(buckets, r, addr, until);
      }
    }
  }

  lemma StaysSettled(buckets: Buckets, r: Request)
    requires Settled(buckets, r.now)
    ensures Settled(Plain(buckets, r).0, r.now)
  {
  }

  lemma {:induction false} AdmittedInInterval(
    buckets: Buckets, requests: seq<Request>, now: int, addr: IpAddr, from: int, k: nat)
    requires Settled(buckets, now) && Ordered(requests, now)
    ensures |PlainAnswers(buckets, requests)| == |requests|
    ensures Admitted(requests, PlainAnswers(buckets, requests), addr, from, from + k * WINDOW) <= MAX_PER_WINDOW * (k + 1)
    decreases |requests|
  {
    OneAnswerEach(buckets, requests);
    if requests != [] {
      var r := requests[0];
      if r.now < from {
        StaysSettled(buckets, r);
        AdmittedInInterval(Plain(buckets, r).0, requests[1..], r.now, addr, from, k);
      } else {
        var start := if now < from then from else now;
        AdmittedFrom(buckets, requests, start, addr, from, k);
      }
    }
  }

  lemma AdmittedFrom(buckets: Buckets, requests: seq<Request>, start: int, addr: IpAddr, from: int, k: nat)
    requires Settled(buckets, start) && Ordered(requests, start) && from <= start
    ensures |PlainAnswers(buckets, requests)| == |requests|
    ensures Admitted(requests, PlainAnswers(buckets, requests), addr, from, from + k * WINDOW) <= MAX_PER_WINDOW * (k + 1)
  {
    var until := from + k * WINDOW;
    AdmittedWithinAllowance(buckets, requests, start, addr, from, until);
    if start < until {
      AllowanceAtStart(buckets, addr, start, from, k);
    }
  }

  lemma AllowanceAtStart(buckets: Buckets, addr: IpAddr, start: int, from: int, k: nat)
    requires Settled(buckets, start) && from <= start < from + k * WINDOW
    ensures Allowance(buckets, addr, start, from + k * WINDOW) <= MAX_PER_WINDOW * (k + 1)
  {
    var until := from + k * WINDOW;
    assert Windows(k * WINDOW) == k;
    WindowsGrow(until - start, until - from);
    if addr in buckets && start < buckets[addr].start + WINDOW {
      WindowsGrow(until - buckets[addr].start - WINDOW, until - start);
    }
  }

  /** Any stretch of `k` minutes lets at most 30 × (k + 1) requests of one caller through. */
  lemma RateIsBounded(seen: nat, requests: seq<Request>, now: int, addr: IpAddr, from: int, k: nat)
    requires Ordered(requests, now)
    ensures |Answers(Limiter(map[], seen), requests)| == |requests|
    ensures Admitted(requests, Answers(Limiter(map[], seen), requests), addr, from, from + k * 60_000_000_000)
            <= 30 * (k + 1)
  {
    PruningDoesNotShow(seen, requests, now);
    AdmittedInInterval(map[], requests, now, addr, from, k);
  }

  // ---- Who is refused ----

  /** What the bucket remembers of the requests let through since `from`. */
  function Remembered(buckets: Buckets, addr: IpAddr, from: int): nat {
    if addr in buckets && buckets[addr].start >= from then buckets[addr].count else 0
  }

  lemma RememberedGrows(buckets: Buckets, r: Request, addr: IpAddr, from: int)
    requires Settled(buckets, r.now)
    ensures Remembered(Plain(buckets, r).0, addr, from) <= Remembered(buckets, addr, from) +
              if Plain(buckets, r).1 && r.addr == addr && from <= r.now then 1 else 0
  {
  }

  /** A refusal is remembered, or has been seen, thirty times within the window. */
  lemma {:induction false} RefusedFrom(buckets: Buckets, requests: seq<Request>, now: int, i: nat)
    requires Settled(buckets, now) && Ordered(requests, now) && i < |requests|
    ensures |PlainAnswers(buckets, requests)| == |requests|
    ensures var addr, from := requests[i].addr, requests[i].now - WINDOW + 1;
            !PlainAnswers(buckets, requests)[i] ==>
              30 <= Remembered(buckets, addr, from) +
                Admitted(requests[..i], PlainAnswers(buckets, requests)[..i], addr, from, requests[i].now + 1)
    decreases |requests|
  {
    hide Plain;
    OneAnswerEach(buckets, requests);
    var answers := PlainAnswers(buckets, requests);
    var r := requests[0];
    SettlesLater(buckets, now, r);
    if i == 0 {
      RefusalIsFull(buckets, r);
    } else {
      var next := Plain(buckets, r).0;
      StaysOrdered(requests, i);
      RefusedFrom(next, requests[1..], r.now, i - 1);
      RememberedGrows(buckets, r, requests[i].addr, requests[i].now - WINDOW + 1);
      assert requests[..i][0] == r && requests[..i][1..] == requests[1..][..i - 1];
      assert answers[..i][0] == answers[0] && answers[..i][1..] == answers[1..][..i - 1];
    }
  }

  lemma RefusalIsFull(buckets: Buckets, r: Request)
    requires Settled(buckets, r.now)
    ensures !Plain(buckets, r).1 ==> Remembered(buckets, r.addr, r.now - WINDOW + 1) >= 30
  {
  }

  lemma SettlesLater(buckets: Buckets, now: int, r: Request)
    requires Settled(buckets, now) && now <= r.now
    ensures Settled(buckets, r.now) && Settled(Plain(buckets, r).0, r.now)
  {
    StaysSettled(buckets, r);
  }

  lemma {:induction false} StaysOrdered(requests: seq<Request>, i: nat)
    requires requests != [] && Ordered(requests, requests[0].now) && i < |requests|
    ensures requests[0].now <= requests[i].now
  {
    if i > 0 {
      assert requests[1..][i - 1] == requests[i];
      StaysOrdered(requests[1..], i - 1);
    }
  }

  /**
   * The other half of the rate: a caller is refused only if thirty of its earlier requests, all less
   * than sixty seconds old, were let through.
   */
  lemma RefusedOnlyAfterThirty(seen: nat, requests: seq<Request>, now: int, i: nat)
    requires Ordered(requests, now) && i < |requests|
    ensures var answers := Answers(Limiter(map[], seen), requests);
            && |answers| == |requests|
            && (!answers[i] ==>
                  Admitted(requests[..i], answers[..i], requests[i].addr,
                           requests[i].now - 60_000_000_000 + 1, requests[i].now + 1) >= 30)
  {
    PruningDoesNotShow(seen, requests, now);
    RefusedFrom(map[], requests, now, i);
  }

  // ---- How large the map gets ----

  lemma VisitAddsOne(buckets: Buckets, r: Request)
    ensures |Plain(buckets, r).0| <= |buckets| + 1
  {
    if r.addr in buckets {
      assert Plain(buckets, r).0.Keys == buckets.Keys;
    } else {
      assert Plain(buckets, r).0.Keys == buckets.Keys + {r.addr};
    }
  }

  /** The limiter after the first `n` requests the process gets. */
  function At(requests: seq<Request>, n: nat): Limiter
    requires n <= |requests|
  {
    if n == 0 then Limiter(map[], 0) else Step(At(requests, n - 1), requests[n - 1]).0
  }

  /** Whether request `p` prunes the map first. */
  predicate Prunes(requests: seq<Request>, p: nat)
    requires p < |requests|
  {
    At(requests, p).seen % PRUNE_EVERY == 0
  }

  /** The callers still inside their window when request `p` prunes the map. */
  function LiveAt(requests: seq<Request>, p: nat): nat
    requires p < |requests|
  {
    |Pruned(At(requests, p).buckets, requests[p].now)|
  }

  lemma StepAddsOne(l: Limiter, r: Request)
    requires l.seen < U64
    ensures Step(l, r).0.seen in {0, l.seen + 1} && Step(l, r).0.seen < U64
    ensures var kept := if l.seen % PRUNE_EVERY == 0 then Pruned(l.buckets, r.now) else l.buckets;
            |Step(l, r).0.buckets| <= |kept| + 1
  {
    VisitAddsOne(if l.seen % PRUNE_EVERY == 0 then Pruned(l.buckets, r.now) else l.buckets, r);
  }

  lemma {:induction false} SeenCounts(requests: seq<Request>, n: nat)
    requires n <= |requests| && n < U64
    ensures At(requests, n).seen == n
  {
    hide Pruned;
    if n > 0 {
      SeenCounts(requests, n - 1);
    }
  }

  /** It is every thousandth request that prunes, until the counter wraps. */
  lemma EveryThousandthPrunes(requests: seq<Request>, p: nat)
    requires p < |requests| && p < U64
    ensures Prunes(requests, p) <==> p % 1000 == 0
  {
    SeenCounts(requests, p);
  }

  /**
   * After any number of requests the last prune is at most a thousand requests back, and the map
   * holds no more than the callers live at that prune and one for each request since.
   */
  lemma {:induction false} MapIsBounded(requests: seq<Request>, n: nat) returns (p: nat)
    requires 0 < n <= |requests|
    ensures p < n <= p + 1000 && Prunes(requests, p)
    ensures forall q: nat | p < q < n :: !Prunes(requests, q)
    ensures At(requests, n).seen in {0, At(requests, p).seen + n - p} && At(requests, n).seen < U64
    ensures |At(requests, n).buckets| <= LiveAt(requests, p) + (n - p)
  {
    hide Step, Pruned;
    var last := n - 1;
    assert At(requests, n) == Step(At(requests, last), requests[last]).0;
    if last == 0 {
      p := 0;
      StepAddsOne(At(requests, 0), requests[0]);
    } else {
      p := MapIsBounded(requests, last);
      StepAddsOne(At(requests, last), requests[last]);
      if Prunes(requests, last) {
        p := last;
      }
    }
  }
}
