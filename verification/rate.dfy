/** The sliding-window rate limiter of rate.go: an immutable limiter state and its
    operations New, Try, Update and Wait. Time is integer nanoseconds since the Unix epoch,
    handed in as `now`, so that `now` and the reset time Update derives from an epoch
    second are directly comparable. Each operation is one atomic step (the source takes a
    mutex around Try only; Update is unsynchronised). */
module Rate {
  import opened Wrappers
  import Decimal

  /** One second in nanoseconds. */
  const Second: int := 1_000_000_000

  /** The largest time.Duration; time.Time.Sub saturates at this value. */
  const MaxDuration: int := Decimal.MaxInt64

  /** Limiter state: the admission limit, the absolute reset time (ns) and the log of
      admission timestamps (ns), oldest first. */
  datatype Limiter = Limiter(limit: int, resetAt: int, times: seq<int>)

  /** The decision Try reports. `NilDereference` is the panic the source raises when the
      log is empty, the limit is not positive and the reset time has passed. */
  datatype Decision = Admitted | Declined(wait: int) | NilDereference

  datatype Step = Step(next: Limiter, decision: Decision)

  function New(limit: int, resetAt: int): Limiter {
    Limiter(limit, resetAt, [])
  }

  function Min(a: int, b: int): int {
    if a <= b then a else b
  }

  function Max(a: int, b: int): int {
    if a <= b then b else a
  }

  /** The duration `resetAt - now`, saturated as time.Time.Sub saturates. */
  function WaitFor(resetAt: int, now: int): int {
    Min(resetAt - now, MaxDuration)
  }

  /** One admission attempt at time `now`. */
  function Try(l: Limiter, now: int): (r: Step)
    ensures r.next.limit == l.limit && r.next.resetAt == l.resetAt
    ensures r.decision.Admitted? <==> |l.times| < l.limit || (l.resetAt <= now && |l.times| > 0)
    ensures r.decision.Declined? <==> |l.times| >= l.limit && l.resetAt > now
    ensures r.decision.Declined? ==> 0 < r.decision.wait <= l.resetAt - now
    ensures r.decision.Declined? && l.resetAt - now <= MaxDuration ==> r.decision.wait == l.resetAt - now
    ensures r.decision.Declined? && l.resetAt - now > MaxDuration ==> r.decision.wait == MaxDuration
    ensures !r.decision.Admitted? ==> r.next == l
    ensures |l.times| < l.limit ==> r.next.times == l.times + [now]
    ensures |l.times| >= l.limit && r.decision.Admitted? ==> r.next.times == l.times[1..] + [now]
    ensures |l.times| <= |r.next.times| <= |l.times| + 1
    ensures |r.next.times| == |l.times| + 1 <==> |l.times| < l.limit
    ensures |r.next.times| <= Max(|l.times|, l.limit)
  {
    if |l.times| < l.limit then
      Step(l.(times := l.times + [now]), Admitted)
    else if l.resetAt - now > 0 then
      Step(l, Declined(WaitFor(l.resetAt, now)))
    else if |l.times| == 0 then
      Step(l, NilDereference)
    else
      Step(l.(times := l.times[1..] + [now]), Admitted)
  }

  /** An HTTP header: each key maps to its list of values. */
  type Header = map<string, seq<string>>

  const ResetKey: string := "X-Ratelimit-Reset"
  const RemainingKey: string := "X-Ratelimit-Remaining"
  const LimitKey: string := "X-Ratelimit-Limit"

  /** Header.Get: the first value stored under `key`, or "" when there is none. */
  function Get(h: Header, key: string): string {
    if key in h && |h[key]| > 0 then h[key][0] else ""
  }

  /** The absolute time (ns) Update stores for a reported reset epoch second: one
      second of safety margin after it. */
  function ResetTime(reset: int): int {
    (reset + 1) * Second
  }

  /** The error Update returns, naming the header that was missing or malformed. */
  datatype UpdateError = ResetNotDefined | RemainingNotDefined

  /** The limiter after Update, together with the error Update returned, if any. */
  datatype Updated = Updated(next: Limiter, err: Option<UpdateError>)

  /** Resynchronise from response headers. The reset time is written before the remaining
      count is parsed, so a bad remaining value leaves the new reset time in place. */
  function Update(l: Limiter, h: Header): (r: Updated)
    ensures r.next.times == l.times
    ensures !Decimal.IsInt64Literal(Get(h, ResetKey)) ==> r == Updated(l, Some(ResetNotDefined))
    ensures Decimal.IsInt64Literal(Get(h, ResetKey)) ==>
      r.next.resetAt == ResetTime(Decimal.Denotation(Get(h, ResetKey)))
    ensures Decimal.IsInt64Literal(Get(h, ResetKey)) && !Decimal.IsInt64Literal(Get(h, RemainingKey)) ==>
      r.next.limit == l.limit && r.err == Some(RemainingNotDefined)
    ensures Decimal.IsInt64Literal(Get(h, ResetKey)) && Decimal.IsInt64Literal(Get(h, RemainingKey)) ==>
      r.next.limit == Decimal.Denotation(Get(h, RemainingKey)) && r.err == None
  {
    match Decimal.ParseInt(Get(h, ResetKey))
    case None => Updated(l, Some(ResetNotDefined))
    case Some(reset) =>
      var l1 := l.(resetAt := ResetTime(reset));
      match Decimal.ParseInt(Get(h, RemainingKey))
      case None => Updated(l1, Some(RemainingNotDefined))
      case Some(remaining) => Updated(l1.(limit := remaining), None)
  }

  /** How a Wait call ends: admitted at clock time `at`, or the Try panic. */
  datatype WaitResult = Proceeded(next: Limiter, at: int) | Panicked

  /** Retry Try until it admits, sleeping for each reported duration in between; a sleep
      advances the clock by exactly the duration slept. */
  method Wait(l: Limiter, now: int) returns (r: WaitResult)
    ensures r.Panicked? <==> |l.times| == 0 && l.limit <= 0
    ensures r.Proceeded? && |l.times| < l.limit ==> r.at == now
    ensures r.Proceeded? && |l.times| >= l.limit ==> r.at == Max(now, l.resetAt)
    ensures r.Proceeded? ==> Try(l, r.at) == Step(r.next, Admitted)
  {
    var clock := now;
    while true
      invariant now <= clock
      invariant clock > now ==> |l.times| >= l.limit && clock <= l.resetAt
      decreases l.resetAt - clock
    {
      var step := Try(l, clock);
      match step.decision
      case Admitted =>
        return Proceeded(step.next, clock);
      case NilDereference =>
        return Panicked;
      case Declined(d) =>
        clock := clock + d;
    }
  }
}
