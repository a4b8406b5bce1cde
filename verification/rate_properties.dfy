/** Properties of the rate limiter that relate several operations: the admission bound
    over a run of Try calls, the sliding-window shape of the log, what Update leaves
    behind, and the scenarios of rate_test.go replayed on the model. */
module RateProperties {
  import opened Wrappers
  import Decimal
  import opened Rate

  /** The limiter after a run of Try calls at the given clock readings, and what each
      call decided. */
  datatype Trace = Trace(final: Limiter, decisions: seq<Decision>)

  function Run(l: Limiter, clock: seq<int>): (r: Trace)
    ensures |r.decisions| == |clock|
    ensures r.final.limit == l.limit && r.final.resetAt == l.resetAt
    decreases |clock|
  {
    if clock == [] then Trace(l, [])
    else
      var step := Try(l, clock[0]);
      var rest := Run(step.next, clock[1..]);
      Trace(rest.final, [step.decision] + rest.decisions)
  }

  /** How many decisions were admissions. */
  function Admissions(ds: seq<Decision>): nat
    decreases |ds|
  {
    if ds == [] then 0 else (if ds[0] == Admitted then 1 else 0) + Admissions(ds[1..])
  }

  /** The clock readings at which the run admitted, in order. */
  function AdmissionTimes(clock: seq<int>, ds: seq<Decision>): seq<int>
    requires |clock| == |ds|
    decreases |clock|
  {
    if clock == [] then []
    else (if ds[0] == Admitted then [clock[0]] else []) + AdmissionTimes(clock[1..], ds[1..])
  }

  /** Admission bound: while the reset time has not come, the first `limit - |log|` calls
      are admitted and every later one is declined with the time left until the reset,
      so a run admits exactly min(calls, limit - |log|) times. */
  lemma {:induction false} AdmissionBound(l: Limiter, clock: seq<int>)
    requires forall i :: 0 <= i < |clock| ==> clock[i] < l.resetAt
    ensures forall i :: 0 <= i < |clock| ==>
      (Run(l, clock).decisions[i] == Admitted <==> |l.times| + i < l.limit)
    ensures forall i :: 0 <= i < |clock| && |l.times| + i >= l.limit ==>
      Run(l, clock).decisions[i] == Declined(WaitFor(l.resetAt, clock[i]))
    ensures Admissions(Run(l, clock).decisions) == Min(|clock|, Max(0, l.limit - |l.times|))
    decreases |clock|
  {
    if clock != [] {
      var step := Try(l, clock[0]);
      var rest := Run(step.next, clock[1..]);
      var ds := Run(l, clock).decisions;
      assert ds == [step.decision] + rest.decisions;
      assert ds[1..] == rest.decisions;
      AdmissionBound(step.next, clock[1..]);
      forall i | 0 < i < |clock|
        ensures ds[i] == rest.decisions[i - 1]
        ensures clock[i] == clock[1..][i - 1]
      {
      }
    }
  }

  /** A fresh limiter admits exactly min(calls, limit) of any run before its reset time;
      `limit` immediate calls all pass and the next one is declined. */
  lemma NewAdmissionBound(limit: int, resetAt: int, clock: seq<int>)
    requires forall i :: 0 <= i < |clock| ==> clock[i] < resetAt
    ensures New(limit, resetAt).times == []
    ensures Admissions(Run(New(limit, resetAt), clock).decisions) == Min(|clock|, Max(0, limit))
    ensures forall i :: 0 <= i < |clock| ==>
      (Run(New(limit, resetAt), clock).decisions[i] == Admitted <==> i < limit)
  {
    AdmissionBound(New(limit, resetAt), clock);
  }

  /** After a successful Update reporting `remaining`, the calls made before the new reset
      time admit exactly min(calls, remaining - |log|) times: the log kept from before the
      update still counts against the reported remaining value. */
  lemma UpdateThenAdmissions(l: Limiter, h: Header, clock: seq<int>)
    requires Update(l, h).err == None
    requires forall i :: 0 <= i < |clock| ==> clock[i] < Update(l, h).next.resetAt
    ensures Decimal.IsInt64Literal(Get(h, RemainingKey))
    ensures Admissions(Run(Update(l, h).next, clock).decisions)
         == Min(|clock|, Max(0, Decimal.Denotation(Get(h, RemainingKey)) - |l.times|))
  {
    AdmissionBound(Update(l, h).next, clock);
  }

  /** The log is ordered oldest first and records no time after `now`. */
  predicate Chronological(times: seq<int>, now: int) {
    && (forall i, j :: 0 <= i <= j < |times| ==> times[i] <= times[j])
    && (forall i :: 0 <= i < |times| ==> times[i] <= now)
  }

  predicate NonDecreasing(clock: seq<int>) {
    forall i, j :: 0 <= i <= j < |clock| ==> clock[i] <= clock[j]
  }

  /** With a clock that never goes back, Try keeps the log in chronological order. */
  lemma TryKeepsChronological(l: Limiter, before: int, now: int)
    requires Chronological(l.times, before) && before <= now
    ensures Chronological(Try(l, now).next.times, now)
  {
  }

  /** Over a run whose clock never goes back, the log stays chronological. */
  lemma {:induction false} RunKeepsChronological(l: Limiter, before: int, clock: seq<int>)
    requires Chronological(l.times, before)
    requires NonDecreasing(clock)
    requires |clock| > 0 ==> before <= clock[0]
    ensures Chronological(Run(l, clock).final.times, if clock == [] then before else clock[|clock| - 1])
    decreases |clock|
  {
    if clock != [] {
      TryKeepsChronological(l, before, clock[0]);
      var rest := clock[1..];
      assert NonDecreasing(rest) by {
        forall i, j | 0 <= i <= j < |rest| ensures rest[i] <= rest[j] {
          assert rest[i] == clock[i + 1] && rest[j] == clock[j + 1];
        }
      }
      if rest != [] {
        assert rest[0] == clock[1];
        assert rest[|rest| - 1] == clock[|clock| - 1];
      }
      RunKeepsChronological(Try(l, clock[0]).next, clock[0], rest);
    }
  }

  predicate IsSuffix(a: seq<int>, b: seq<int>) {
    |a| <= |b| && a == b[|b| - |a|..]
  }

  /** A suffix of (a suffix of `old + first`) + `later` is a suffix of old + first + later. */
  lemma SuffixOfAppend(a: seq<int>, b: seq<int>, old0: seq<int>, first: seq<int>, later: seq<int>)
    requires IsSuffix(b, old0 + first) && IsSuffix(a, b + later)
    ensures IsSuffix(a, old0 + (first + later))
  {
  }

  /** The times a single Try adds to the log: `now` when it admits, nothing otherwise. */
  function Logged(d: Decision, now: int): seq<int> {
    if d == Admitted then [now] else []
  }

  lemma TryLogIsSuffix(l: Limiter, now: int)
    ensures IsSuffix(Try(l, now).next.times, l.times + Logged(Try(l, now).decision, now))
  {
  }

  /** Run and AdmissionTimes peeled by one call. */
  lemma RunStep(l: Limiter, clock: seq<int>)
    requires clock != []
    ensures Run(l, clock).final == Run(Try(l, clock[0]).next, clock[1..]).final
    ensures AdmissionTimes(clock, Run(l, clock).decisions)
         == Logged(Try(l, clock[0]).decision, clock[0])
          + AdmissionTimes(clock[1..], Run(Try(l, clock[0]).next, clock[1..]).decisions)
  {
  }

  /** After any run the log holds max(old length, min(limit, old length + admissions))
      entries: it grows with each admission until it reaches the limit and never shrinks. */
  lemma {:induction false} RunLogLength(l: Limiter, clock: seq<int>)
    ensures |Run(l, clock).final.times|
         == Max(|l.times|, Min(l.limit, |l.times| + Admissions(Run(l, clock).decisions)))
    decreases |clock|
  {
    if clock != [] {
      var step := Try(l, clock[0]);
      var rest := Run(step.next, clock[1..]);
      assert Run(l, clock).decisions == [step.decision] + rest.decisions;
      assert Run(l, clock).decisions[1..] == rest.decisions;
      RunLogLength(step.next, clock[1..]);
    }
  }

  /** Sliding window: after any run the log is exactly the latest
      max(old length, min(limit, old length + admissions)) entries of the old log followed
      by the times at which the run admitted. */
  lemma {:induction false} LogHoldsLatestAdmissions(l: Limiter, clock: seq<int>)
    ensures IsSuffix(Run(l, clock).final.times, l.times + AdmissionTimes(clock, Run(l, clock).decisions))
    ensures |Run(l, clock).final.times|
         == Max(|l.times|, Min(l.limit, |l.times| + Admissions(Run(l, clock).decisions)))
    decreases |clock|
  {
    RunLogLength(l, clock);
    if clock == [] {
      assert l.times + [] == l.times;
    } else {
      var step := Try(l, clock[0]);
      var first := Logged(step.decision, clock[0]);
      var rest := Run(step.next, clock[1..]);
      var later := AdmissionTimes(clock[1..], rest.decisions);
      RunStep(l, clock);
      LogHoldsLatestAdmissions(step.next, clock[1..]);
      TryLogIsSuffix(l, clock[0]);
      SuffixOfAppend(rest.final.times, step.next.times, l.times, first, later);
    }
  }

  /** Why Wait needs a single sleep: once Try declines with wait `d` (not saturated) on a
      non-empty log, a Try at `now + d` or later, with no Update in between, rolls the
      window over and admits. */
  lemma OneSleepSuffices(l: Limiter, now: int, later: int)
    requires Try(l, now).decision.Declined?
    requires |l.times| > 0
    requires l.resetAt - now <= MaxDuration
    requires later >= now + Try(l, now).decision.wait
    ensures Try(l, later).decision == Admitted
    ensures Try(l, later).next.times == l.times[1..] + [later]
  {
  }

  /** Update never reads X-Ratelimit-Limit: replacing its values changes nothing. */
  lemma UpdateIgnoresLimitHeader(l: Limiter, h: Header, values: seq<string>)
    ensures Update(l, h[LimitKey := values]) == Update(l, h)
  {
  }

  /** Applying the same headers twice is the same as applying them once. */
  lemma UpdateIdempotent(l: Limiter, h: Header)
    ensures Update(Update(l, h).next, h) == Update(l, h)
  {
  }

  /** The headers rate_test.go builds: reset, limit and remaining formatted in base 10. */
  function TestHeader(reset: int, limit: int, remaining: int): Header {
    map[ResetKey := [Decimal.FormatInt(reset)],
        LimitKey := [Decimal.FormatInt(limit)],
        RemainingKey := [Decimal.FormatInt(remaining)]]
  }

  lemma TestHeaderReads(reset: int, limit: int, remaining: int)
    requires Decimal.IsInt64(reset) && Decimal.IsInt64(remaining)
    ensures Decimal.ParseInt(Get(TestHeader(reset, limit, remaining), ResetKey)) == Some(reset)
    ensures Decimal.ParseInt(Get(TestHeader(reset, limit, remaining), RemainingKey)) == Some(remaining)
  {
    assert LimitKey[12] != ResetKey[12] && LimitKey[12] != RemainingKey[12] && |ResetKey| != |RemainingKey|;
    Decimal.FormatParseRoundTrip(reset);
    Decimal.FormatParseRoundTrip(remaining);
  }

  /** TestRateLimiter_Update: a limiter created with limit 5 and a reset three seconds
      out, updated with reset = (start + 1s) in epoch seconds and remaining = 10, ends with
      ResetAt one second after the reported reset and Limit 10. */
  lemma UpdateTestScenario(start: int)
    requires Decimal.IsInt64((start + Second) / Second)
    ensures Update(New(5, start + 3 * Second), TestHeader((start + Second) / Second, 10, 10))
         == Updated(Limiter(10, ((start + Second) / Second + 1) * Second, []), None)
    ensures Update(New(5, start + 3 * Second), TestHeader((start + Second) / Second, 10, 10)).next.resetAt / Second
         == (start + Second) / Second + 1
  {
    TestHeaderReads((start + Second) / Second, 10, 10);
  }

  /** One pass of the inner loop of TestRateLimiter_Wait: Wait at `clock`, then Update
      with the reported reset epoch second and remaining count. Returns the limiter
      afterwards and the clock at which Wait let the caller through. */
  method AdmitAndReport(l: Limiter, clock: int, reset: int, limit: int, remaining: int)
    returns (next: Limiter, at: int)
    requires |l.times| > 0 || l.limit > 0
    requires Decimal.IsInt64(reset) && Decimal.IsInt64(remaining)
    ensures at == if |l.times| < l.limit then clock else Max(clock, l.resetAt)
    ensures |next.times| == if |l.times| < l.limit then |l.times| + 1 else |l.times|
    ensures next.limit == remaining && next.resetAt == ResetTime(reset)
  {
    var w := Wait(l, clock);
    next, at := w.next, w.at;
    TestHeaderReads(reset, limit, remaining);
    next := Update(next, TestHeader(reset, limit, remaining)).next;
  }

  /** TestRateLimiter_Wait: a limiter with limit 3 and a reset five seconds out goes
      through two rounds of three Wait + Update passes, the headers reporting a reset
      3 and 6 seconds after `start` and remaining counts 2, 1, 0. Taking sleeps as the
      only passage of time, the last pass is let through at the reported second reset
      plus the one-second margin, more than the three seconds the test demands. */
  method WaitTestScenario(start: int) returns (finish: int)
    requires Decimal.IsInt64(start / Second + 3) && Decimal.IsInt64(start / Second + 6)
    ensures finish == (start / Second + 7) * Second
    ensures finish - start > 6 * Second
  {
    var u := start / Second;
    assert u * Second <= start < (u + 1) * Second;
    var l := New(3, start + 5 * Second);
    var clock := start;
    assert (start + 3 * Second) / Second == u + 3;
    assert (start + 6 * Second) / Second == u + 6;
    l, clock := AdmitAndReport(l, clock, (start + 3 * Second) / Second, 3, 2);
    l, clock := AdmitAndReport(l, clock, (start + 3 * Second) / Second, 3, 1);
    l, clock := AdmitAndReport(l, clock, (start + 3 * Second) / Second, 3, 0);
    assert clock == (u + 4) * Second;
    l, clock := AdmitAndReport(l, clock, (start + 6 * Second) / Second, 3, 2);
    l, clock := AdmitAndReport(l, clock, (start + 6 * Second) / Second, 3, 1);
    l, clock := AdmitAndReport(l, clock, (start + 6 * Second) / Second, 3, 0);
    finish := clock;
  }
}
