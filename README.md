# retry — a Dafny model

This project models the Go package `retry`. The package re-invokes a fallible
operation `fn` up to `n` times. Between failed attempts it waits for a duration
chosen by a pluggable delay policy. It stops early when a `context.Context` is
cancelled.

Two modules cover the two parts of `retry.go`:

- `Policies` (`policies.dfy`) holds the delay policies.
  - `Interval(d)` always returns `d`.
  - `RandInterval(min, max, base)` orders its bounds. Each call then returns
    `(min + r) * base` for a draw `r` in `[0, max - min)`, or `min * base` when
    `min == max`.
  - `ExponentialBackoff(max, base)` and `RandExponentialBackoff(...)` are
    classes. Their field `num` starts at 1. Each `Next` call returns
    `num * base` (plus a random-interval value for the jittered one), then
    doubles `num` and clamps it to `max` unless `max` is negative.
  - The spec functions `Multiplier` and `ExpDelay` give the state and the value
    after `k` calls. Lemmas prove their closed form `min(2^k, max)`.
- `Retry` (`retry.dfy`) holds the sequential loop run by the goroutine of
  `RetryContext`, and `Retry`, which is that loop under `context.Background()`.
  The outside world enters as oracles:
  - `fn(i)` is what invocation `i` (from 0) returns;
  - `ctx.Done(i)` is whether the context is seen as done at the top of
    iteration `i`; `ctx.reason` is what `ctx.Err()` then returns;
  - `interval(k)` is what consultation `k` of the policy returns.

  The loop returns the outcome (nil, the last error, or the context's error),
  the durations it would sleep, and the number of invocations. The ghost
  predicate `Settles` describes every way a run can end. `SettlesUnique` proves
  that it fixes all three results. The other lemmas derive the budget,
  last-error, cancellation and interval-count properties from it.

Durations are unbounded integers. A policy's k-th value plugs into the loop as
`interval(k)`. `Interval(d)` has the loop's oracle type `nat -> int` directly.
An exponential backoff is `k => ExpDelay(max, base, k + 1)`, by the contract of
`ExponentialBackoff.Next`.

The doc comment of `RandInterval` says the range is open at `min` and closed
at `max`. The code, `rand.Intn(max-min)+min`, gives the half-open range
`[min, max)`. The model follows the code.

## Model

| member | source | states |
|---|---|---|
| `Retry.RetryContext` | retry.go:10-33 | requires `n > 0` (the panic); the run ends as `Settles` describes: at most `n` invocations; nil right after the first success; the last error after `n` failures; `ctx.Err()` when the context is seen done before an attempt; the k-th sleep is the k-th policy value |
| `Retry.Retry` | retry.go:43-45 | under a context that never fires, the result is never a cancellation; it is the last error exactly when all `n` attempts fail, and nil exactly when some attempt among the first `n` succeeds |
| `Retry.SettlesUnique` | retry.go:18-32 | two runs on the same oracles agree on outcome, sleeps and invocation count, so `Settles` is a complete specification |
| `Retry.NeverBeyondSuccess` | retry.go:24-26 | with a quiet context, no invocation happens after the first successful one, and the result is nil |
| `Retry.SucceedsAt` | retry.go:18-29 | if `fn` first returns nil at attempt `k <= n` and the context stays quiet, `fn` runs exactly `k` times, the result is nil and the policy is consulted `k - 1` times |
| `Retry.ExhaustsBudget` | retry.go:24-29 | if every attempt fails and the context stays quiet, `fn` runs exactly `n` times, the result is the last invocation's error and the policy is consulted `n - 1` times |
| `Retry.NoInvocationAfterCancel` | retry.go:19-22 | if the context is done at the top of iteration `j`, `fn` is invoked at most `j` times |
| `Retry.CancelledAt` | retry.go:19-22 | if the first `j < n` attempts failed and the context is first seen done at iteration `j`, the result is `ctx.Err()` after exactly `j` invocations and `j` sleeps |
| `Retry.CancelledBeforeStart` | retry.go:19-22 | a context already done at the start gives zero invocations, no sleep and the context's error |
| `Retry.SleepsFollowFailures` | retry.go:24-30 | the policy is consulted once per invocation minus one, or once per invocation when the run is cancelled; each consultation follows a failed attempt that left budget (`k + 1 < n`) |
| `Retry.FixedIntervalTotalSleep` | retry.go:27-30 | with `Interval(d)` as the policy, fewer than `n` sleeps are taken and their total is their number times `d` |
| `Retry.ExponentialRetrySleeps` | retry.go:30 | with an exponential backoff as the policy, sleep 0 is `base` and sleep `k >= 1` is `min(2^k, max) * base` for `max >= 0` and `2^k * base` for a negative `max` |
| `Policies.Interval` | retry.go:48-52 | every call returns `d`; the result reads no state |
| `Policies.RandInterval` | retry.go:55-58 | the built policy has ordered bounds `lo <= hi` and the same bounds as the arguments, in either order |
| `Policies.RandIntervalSymmetric` | retry.go:56-58 | reversed bounds build the same policy as ordered ones |
| `Policies.RandRange.Next` | retry.go:59-64 | for `lo == hi` the value is `lo * base`; otherwise it is `k * base` for some `k` in `[lo, hi)`, so for `base > 0` it lies in `[lo*base, hi*base)` with the upper end excluded (reversed for `base < 0`) |
| `Policies.RandRangeCovers` | retry.go:63 | every factor `k` in `[lo, hi)` is reached by some admissible draw |
| `Policies.MultiplierClosedForm` | retry.go:85-87 | after `k >= 1` calls the multiplier is `2^k` when `max < 0` and `min(2^k, max)` otherwise |
| `Policies.ExpDelayClosedForm` | retry.go:84-88 | call 1 returns `base`; call `k >= 2` returns `min(2^(k-1), max) * base` for `max >= 0` and `2^(k-1) * base` for `max < 0` |
| `Policies.MultiplierBounded` | retry.go:85-87 | with `max >= 0`, after any call `0 <= num <= max` |
| `Policies.UncappedDoubles` | retry.go:85-87 | with `max < 0`, each delay is twice the previous one and the multiplier after `k` calls is `2^k` |
| `Policies.ExponentialBackoff.constructor` | retry.go:81-82 | a fresh policy has `num == 1` and has made no call |
| `Policies.ExponentialBackoff.Next` | retry.go:83-89 | call number `k` returns `ExpDelay(max, base, k)`; the multiplier then equals `Multiplier(max, k)` and lies in `[0, max]` when `max >= 0` |
| `Policies.RandExponentialBackoff.constructor` | retry.go:68-70 | a fresh policy has `num == 1`, no call made, and its own random part `RandInterval(rMin, rMax, rBase)` |
| `Policies.RandExponentialBackoff.Next` | retry.go:71-77 | call number `k` with draw `r` returns `ExpDelay(max, base, k)` plus the random part's value for `r`; the multiplier advances as in `ExponentialBackoff` |
| `Policies.Lockstep` | retry.go:68-90 | plain and jittered backoffs with the same `max` and `base`, driven side by side: the k-th jittered value is the k-th plain value plus one random-interval value (that the multipliers advance alike is the `Valid()` of the two `Next` contracts) |
| `Policies.CappedSequence` | retry.go:81-90 | `ExponentialBackoff(16, base)` returns 1, 2, 4, 8, 16, 16 times `base` on its first six calls |
| `Policies.UncappedSequence` | retry.go:81-90 | `ExponentialBackoff(-1, base)` returns 1, 2, 4, 8, 16 times `base` on its first five calls (no clamp) |

## Left out

- The goroutine and the outer `select` (retry.go:14-17, 34-39) are concurrency. They race `ctx.Done()` against the loop's completion through a shared named result. The model is the loop alone. It does not capture an early return of `ctx.Err()` while an attempt or a sleep is still running.
- Real time: `time.Sleep` is not modelled. The loop returns the durations it would sleep. Nothing is claimed about cancellation cutting a sleep short.
- `math/rand`: a draw `r` is an argument with the range `rand.Intn` guarantees (`RandRange.Admits`). The generator and its distribution are not modelled.
- Overflow is not modelled: durations, bounds and multipliers are unbounded integers. On 64-bit Go, three overflows are therefore outside the model:
  - `num <<= 1` (retry.go:73, retry.go:85) wraps once `num` reaches 2^62. This happens with no cap, and also with a cap of 2^62 or more. The wrapped value -2^63 is not `> max`, so the clamp does not fire; the next call returns `-2^63 * base`, and `num` is 0 from then on.
  - `max - min` in `RandInterval` (retry.go:63) can wrap to a non-positive number, for example with `min = -2^63, max = 0`. `rand.Intn` then panics.
  - The `time.Duration` products `num * base` and `k * base`, and the sum `d + fn()` (retry.go:76), can overflow int64.
- Policies.MultiplierBounded: the bound `0 <= num <= max` for `max >= 0` holds for unbounded integers only; with a cap of 2^62 or more, Go's `num` wraps negative and then becomes 0, as above.
- Policies.ExponentialBackoff.Next: its values and its bound `0 <= num <= max` assume no overflow of `num <<= 1` or of `num * base`.
- Policies.RandExponentialBackoff.Next: its values and its bound `0 <= num <= max` assume no overflow of `num <<= 1`, of the products, or of the sum `d + fn()`.
- Context internals: `ctx.Err()` is an opaque `reason`. Deadline and explicit cancellation are not told apart. A context is observed once per iteration, as `ctx.Done(i)`.
- `fn` and `interval` are oracles indexed by call number. This covers any behaviour that depends only on how many calls came before.
- retry_test.go makes no assertions. Its runs depend on `rand.Int()` and a three-second timeout.
