# go-rate rate limiter, modelled in Dafny

This project models the client-side rate limiter of `rate.go`. A `RateLimiter` holds a
`Limit`, an absolute `ResetAt` time and a log of admission timestamps. It has three
operations:

- `Try` is the non-blocking admission check.
- `Wait` retries `Try` and sleeps for the reported duration in between.
- `Update` resynchronises `ResetAt` and `Limit` from the `X-Ratelimit-Reset` and
  `X-Ratelimit-Remaining` response headers.

The model is functional. `Rate.Limiter` is an immutable record
`(limit, resetAt, times)`, with the log held as a `seq<int>`. `Rate.Try` and `Rate.Update`
are pure functions that return the next limiter together with their result. `Rate.Wait` is
a method with the retry loop. Time is integer nanoseconds since the Unix epoch, passed in
as `now`. `Update` turns the reported epoch second into the same unit, so `now` and
`ResetAt` are compared directly.

`Try` has three cases, in the source's order:

- If the log is shorter than `Limit`, it appends `now` and admits.
- Otherwise, if `ResetAt - now > 0`, it declines with that duration. The duration saturates
  at the largest `time.Duration`, as `time.Time.Sub` does.
- Otherwise it rolls the window over: the oldest entry is replaced by `now`, moved to the
  back, and the call admits.

The third case dereferences the front of an empty list when the log is empty and
`Limit <= 0`. The model makes this panic an explicit `NilDereference` decision that leaves
the state unchanged. `Wait` panics in exactly that situation.

`Update` parses with `strconv.ParseInt(s, 10, 64)` and `strconv.Atoi`. Module `Decimal`
models both: an optional sign, one or more ASCII digits, and a value inside the int64
range. On a 64-bit platform `Atoi` accepts exactly the same strings. `Decimal.ParseInt`
follows Go's digit loop, which checks a cutoff before multiplying. It is proved equal to
a reference meaning (`WellFormed` / `Denotation`). `FormatInt` and `Itoa` are modelled too,
because the tests build their headers with them, and a round-trip lemma connects the two.

The code does the following, which a caller may not expect. The model follows the code:

- `Update` is not atomic. `ResetAt` is written before the remaining count is parsed. A
  valid reset with a missing or malformed remaining value therefore returns an error
  *after* moving `ResetAt`.
- `Update` never reads `X-Ratelimit-Limit` (`UpdateIgnoresLimitHeader`).
- `Update` does not clear the log. After it reports `remaining = R`, the next calls before
  the reset admit `R - |log|` times, not `R` (`UpdateThenAdmissions`).
- `rate_test.go` reads `limiter.resetAt` and `limiter.limit`. Those fields do not exist:
  the struct declares `ResetAt` and `Limit`. The model states the test's assertions about
  `resetAt` and `limit` of `Rate.Limiter`.

## Model

| member | source | states |
|---|---|---|
| Decimal.ParseInt | rate.go:36 | accepts a header value exactly when it is an optional sign followed by one or more decimal digits whose value lies in the int64 range, and then yields that value |
| Decimal.ParseUint | rate.go:42 | accepts exactly the non-empty all-digit strings whose value is at most 2^64-1, yielding that value |
| Decimal.Accumulate | rate.go:36 | Go's cutoff-checking digit loop fails exactly on a non-digit or a value past 2^64-1, and otherwise yields the decimal value of the digits |
| Decimal.FormatParseRoundTrip | rate_test.go:20-22 | every int64 formatted in base 10 (FormatInt / Itoa, as the tests build headers) parses back to itself |
| Rate.Try | rate.go:65-80 | admits iff the log is below the limit, or the reset time has passed and the log is non-empty; declines iff the log is full and the reset is in the future, with a positive wait equal to the time left (saturated), leaving the state unchanged; the empty-log case after reset is the nil-dereference outcome; an admission appends `now` below the limit or drops the oldest entry and appends `now` at rollover; limit and reset never change and the log grows by at most one and never beyond max(old length, limit) |
| Rate.Update | rate.go:35-48 | a missing or malformed reset header fails with ResetNotDefined and changes nothing; a valid reset sets ResetAt to one second past it; a then-missing or malformed remaining header fails with RemainingNotDefined while keeping the new ResetAt and the old Limit; otherwise Limit becomes the remaining value and no error is returned; the log is never touched |
| Rate.Wait | rate.go:53-61 | panics iff the log is empty and the limit is not positive; otherwise lets the caller through immediately when the log is below the limit, else at max(now, ResetAt), and the resulting state is the one Try admits with at that time |
| RateProperties.AdmissionBound | rate.go:69-76 | before the reset time, call i of any run is admitted iff log length + i < limit, every later call is declined with the time left until the reset, and the run admits exactly min(calls, limit - log length) times |
| RateProperties.NewAdmissionBound | rate.go:25-31 | a fresh limiter has an empty log and admits exactly the first `limit` calls of any run before its reset time |
| RateProperties.UpdateThenAdmissions | rate.go:42-47 | after a successful Update reporting `remaining`, calls before the new reset time admit exactly min(calls, remaining - log length) times |
| RateProperties.TryKeepsChronological | rate.go:69-79 | with a clock that does not go back, one Try keeps the log ordered oldest first with no entry after `now` |
| RateProperties.RunKeepsChronological | rate.go:65-80 | over any run with a non-decreasing clock, the log stays ordered oldest first with no entry after the last clock reading |
| RateProperties.TryLogIsSuffix | rate.go:69-79 | after one Try the log is a suffix of the old log followed by `now` if the call admitted |
| RateProperties.RunLogLength | rate.go:69-79 | after any run the log length is max(old length, min(limit, old length + admissions)): it grows by one per admission below the limit and never shrinks |
| RateProperties.LogHoldsLatestAdmissions | rate.go:69-79 | after any run the log is exactly the last max(old length, min(limit, old length + admissions)) entries of the old log followed by the run's admission times in order, i.e. it holds the most recent admissions |
| RateProperties.OneSleepSuffices | rate.go:53-61 | if Try declines on a non-empty log with an unsaturated wait d, then a Try at now + d or later, with no Update in between, admits by rolling the window over |
| RateProperties.UpdateIgnoresLimitHeader | rate.go:35-48 | replacing the X-Ratelimit-Limit values of the headers does not change the result of Update |
| RateProperties.UpdateIdempotent | rate.go:35-48 | applying the same headers a second time gives the same limiter and error as applying them once |
| RateProperties.TestHeaderReads | rate_test.go:19-22 | headers built by formatting reset and remaining in base 10 are read back as exactly those values |
| RateProperties.UpdateTestScenario | rate_test.go:10-33 | a limiter New(5, start + 3s) updated with reset = (start + 1s) in epoch seconds and remaining 10 ends with limit 10 and a reset time whose epoch second is one more than the reported one, with no error |
| RateProperties.AdmitAndReport | rate_test.go:47-53 | one Wait + Update pass lets the caller through immediately below the limit and at max(clock, ResetAt) otherwise, grows the log only below the limit, and installs the reported remaining count and reset plus one second |
| RateProperties.WaitTestScenario | rate_test.go:35-60 | the two rounds of three Wait + Update passes finish at the second reported reset plus one second, more than six seconds after start, so the limiter blocks as the test requires |

## Left out

- The `sync.Mutex` around `Try` (rate.go:20, 66-67) is not modelled. Each `Try` and `Update` is one atomic step, and concurrent callers are outside the model. For `Update` this is the model's simplification: the source's `Update` (rate.go:35-48) never takes the mutex, so an `Update` concurrent with a `Try` is a data race in Go.
- `time.Now()` in `Try` (rate.go:68) is not modelled. The clock reading is the explicit parameter `now`.
- Rate.Wait: `time.Sleep(d)` is modelled as advancing the clock by exactly `d`. A real sleep may last longer, and a wake-up after `ResetAt` would still admit.
- `diff.Seconds() > 0` is a floating-point test. It is modelled as the equivalent integer test `ResetAt - now > 0` on nanoseconds.
- `container/list` is not modelled. The log is a sequence, oldest entry first, and "overwrite the front and move it to the back" becomes "drop the first entry and append `now`".
- `http.Header` key canonicalisation is not modelled. A header is a map from exact keys to value lists, and `Get` returns the first value, or `""` when there is none.
- The error message strings are not modelled. An error is a tag naming the header that failed (`ResetNotDefined`, `RemainingNotDefined`).
- Parse errors are not distinguished. Go's `ErrSyntax` and `ErrRange` are both just a failed parse, because `Update` treats them the same.
- Rate.Update: `ResetAt` is the unbounded `(reset + 1) * 10^9` nanoseconds. Go's `reset+1` wraps at the int64 maximum, and `time.Unix` overflows its internal seconds within about 6.2*10^10 of that maximum. Neither is modelled, because both happen only for reset times hundreds of billions of years away.
- `Limit` is an unbounded integer rather than Go's 64-bit `int`. `Update` only ever stores int64 values in it. `Atoi` is modelled as on a 64-bit platform.
- Wall-clock elapsed time in `rate_test.go:57-59` is replaced by the model's clock. In the model, sleeps are the only passage of time.
