/**
 * The sequential retry loop of `RetryContext` and its no-cancellation
 * instance `Retry`.
 *
 * The user's operation `fn`, the cancellation signal and the delay policy
 * are oracles: `fn(i)` is what the i-th invocation (from 0) returns,
 * `ctx.Done(i)` is whether the signal is seen at the top of iteration i, and
 * `interval(k)` is what the k-th consultation of the policy returns. The
 * durations handed to `time.Sleep` are returned in `sleeps`; nothing sleeps.
 */
module Retry {
  import Policies

  /** What one invocation of the operation returns: nil, or an error. */
  datatype Attempt<E> = Succeeded | Failed(err: E)

  /** The cancellation signal. `Background` never fires (Go's `context.Background()`);
      a cancellable context fires at the iterations where `done` holds, and
      then `ctx.Err()` is `reason`. */
  datatype Context<E> =
    | Background
    | Cancellable(done: nat -> bool, reason: E)
  {
    predicate Done(i: nat)
    {
      Cancellable? && done(i)
    }
  }

  /** The error `RetryContext` returns: nil, the last error of `fn`, or `ctx.Err()`. */
  datatype Outcome<E> = Success | Exhausted(last: E) | Cancelled(reason: E)

  /** The first `k` iterations each found the signal quiet and invoked `fn`, which failed. */
  ghost predicate FailedUpTo<E>(ctx: Context<E>, fn: nat -> Attempt<E>, k: nat)
  {
    forall i :: 0 <= i < k ==> !ctx.Done(i) && fn(i).Failed?
  }

  /** How a run with budget `n` can end: `calls` invocations of `fn`, the sleeps
      taken between them, and the outcome, described by the reason the loop stopped. */
  ghost predicate Settles<E>(ctx: Context<E>, n: int, interval: nat -> int, fn: nat -> Attempt<E>,
                             result: Outcome<E>, sleeps: seq<int>, calls: nat)
  {
    && calls <= n
    && (forall k :: 0 <= k < |sleeps| ==> sleeps[k] == interval(k))
    && match result
       case Cancelled(reason) =>
         // the signal was seen before invocation number `calls`; every earlier one failed
         && calls < n && ctx.Done(calls) && reason == ctx.reason
         && FailedUpTo(ctx, fn, calls) && |sleeps| == calls
       case Success =>
         // invocation number `calls` succeeded; every earlier one failed
         && 0 < calls && FailedUpTo(ctx, fn, calls - 1)
         && !ctx.Done(calls - 1) && fn(calls - 1).Succeeded? && |sleeps| == calls - 1
       case Exhausted(last) =>
         // all `n` invocations failed; the error is the last one's
         && 0 < calls == n && FailedUpTo(ctx, fn, n - 1)
         && !ctx.Done(n - 1) && fn(n - 1) == Failed(last) && |sleeps| == n - 1
  }

  /** The body of the goroutine of `RetryContext`. A budget `n <= 0` panics in
      the source and is a precondition here. */
  method RetryContext<E>(ctx: Context<E>, n: int, interval: nat -> int, fn: nat -> Attempt<E>)
    returns (result: Outcome<E>, sleeps: seq<int>, calls: nat)
    requires n > 0
    ensures Settles(ctx, n, interval, fn, result, sleeps, calls)
  {
    var budget := n;
    result, sleeps, calls := Success, [], 0;
    while true
      invariant 0 < budget == n - calls
      invariant FailedUpTo(ctx, fn, calls)
      invariant |sleeps| == calls
      invariant forall k :: 0 <= k < |sleeps| ==> sleeps[k] == interval(k)
      decreases budget
    {
      if ctx.Done(calls) {
        result := Cancelled(ctx.reason);
        return;
      }
      var attempt := fn(calls);
      calls := calls + 1;
      if attempt.Succeeded? {
        result := Success;
        return;
      }
      budget := budget - 1;
      if budget < 1 {
        result := Exhausted(attempt.err);
        return;
      }
      sleeps := sleeps + [interval(calls - 1)];
    }
  }

  /** `Retry` is `RetryContext` under a context that never fires: it never
      reports cancellation, and it reports the last error exactly when all `n` attempts fail. */
  method Retry<E>(n: int, interval: nat -> int, fn: nat -> Attempt<E>)
    returns (result: Outcome<E>, sleeps: seq<int>, calls: nat)
    requires n > 0
    ensures Settles(Background, n, interval, fn, result, sleeps, calls)
    ensures !result.Cancelled?
    ensures result.Exhausted? <==> forall i :: 0 <= i < n ==> fn(i).Failed?
    ensures result == Success <==> exists i :: 0 <= i < n && fn(i).Succeeded?
  {
    result, sleeps, calls := RetryContext(Background, n, interval, fn);
  }

  /** A settlement takes no invocation past the first successful one. */
  lemma NeverBeyondSuccess<E>(ctx: Context<E>, n: int, interval: nat -> int, fn: nat -> Attempt<E>,
                              result: Outcome<E>, sleeps: seq<int>, calls: nat, i: nat)
    requires Settles(ctx, n, interval, fn, result, sleeps, calls)
    requires i < n && fn(i).Succeeded? && forall j :: 0 <= j <= i ==> !ctx.Done(j)
    ensures calls <= i + 1 && result == Success
  {
  }

  /** At most one settlement exists: `Settles` determines the outcome, the
      sleeps and the number of invocations. */
  lemma SettlesUnique<E>(ctx: Context<E>, n: int, interval: nat -> int, fn: nat -> Attempt<E>,
                         r1: Outcome<E>, s1: seq<int>, c1: nat, r2: Outcome<E>, s2: seq<int>, c2: nat)
    requires Settles(ctx, n, interval, fn, r1, s1, c1)
    requires Settles(ctx, n, interval, fn, r2, s2, c2)
    ensures r1 == r2 && s1 == s2 && c1 == c2
  {
  }

  /** If `fn` first returns nil at attempt `k <= n` and the signal stays quiet,
      `fn` is invoked exactly `k` times, the result is nil and the policy is consulted `k - 1` times. */
  lemma SucceedsAt<E>(ctx: Context<E>, n: int, interval: nat -> int, fn: nat -> Attempt<E>,
                      result: Outcome<E>, sleeps: seq<int>, calls: nat, k: nat)
    requires Settles(ctx, n, interval, fn, result, sleeps, calls)
    requires 1 <= k <= n && fn(k - 1).Succeeded?
    requires forall i :: 0 <= i < k - 1 ==> fn(i).Failed?
    requires forall i :: 0 <= i < k ==> !ctx.Done(i)
    ensures result == Success && calls == k && |sleeps| == k - 1
  {
  }

  /** If every attempt fails and the signal stays quiet, `fn` is invoked exactly
      `n` times, the result is the last invocation's error and the policy is consulted `n - 1` times. */
  lemma ExhaustsBudget<E>(ctx: Context<E>, n: int, interval: nat -> int, fn: nat -> Attempt<E>,
                          result: Outcome<E>, sleeps: seq<int>, calls: nat)
    requires Settles(ctx, n, interval, fn, result, sleeps, calls)
    requires forall i :: 0 <= i < n ==> fn(i).Failed? && !ctx.Done(i)
    ensures result == Exhausted(fn(n - 1).err) && calls == n && |sleeps| == n - 1
  {
  }

  /** Once the signal is seen at the top of iteration `j`, no invocation
      numbered `j` or later happens. */
  lemma NoInvocationAfterCancel<E>(ctx: Context<E>, n: int, interval: nat -> int, fn: nat -> Attempt<E>,
                                   result: Outcome<E>, sleeps: seq<int>, calls: nat, j: nat)
    requires Settles(ctx, n, interval, fn, result, sleeps, calls)
    requires ctx.Done(j)
    ensures calls <= j
  {
  }

  /** If every attempt before iteration `j < n` failed and the signal is first
      seen at iteration `j`, the result is the context's error after exactly `j` invocations. */
  lemma CancelledAt<E>(ctx: Context<E>, n: int, interval: nat -> int, fn: nat -> Attempt<E>,
                       result: Outcome<E>, sleeps: seq<int>, calls: nat, j: nat)
    requires Settles(ctx, n, interval, fn, result, sleeps, calls)
    requires j < n && ctx.Done(j)
    requires FailedUpTo(ctx, fn, j)
    ensures ctx.Cancellable? && result == Cancelled(ctx.reason) && calls == j && |sleeps| == j
  {
  }

  /** A signal that has fired before the first iteration means `fn` is never invoked. */
  lemma CancelledBeforeStart<E>(ctx: Context<E>, n: int, interval: nat -> int, fn: nat -> Attempt<E>,
                                result: Outcome<E>, sleeps: seq<int>, calls: nat)
    requires Settles(ctx, n, interval, fn, result, sleeps, calls)
    requires ctx.Done(0)
    ensures ctx.Cancellable? && result == Cancelled(ctx.reason) && calls == 0 && sleeps == []
  {
  }

  /** The policy is consulted only after a failed invocation that leaves budget:
      never before the first invocation, once per invocation but the last (or
      once per invocation when the run is cancelled). */
  lemma SleepsFollowFailures<E>(ctx: Context<E>, n: int, interval: nat -> int, fn: nat -> Attempt<E>,
                                result: Outcome<E>, sleeps: seq<int>, calls: nat)
    requires Settles(ctx, n, interval, fn, result, sleeps, calls)
    ensures |sleeps| == if result.Cancelled? then calls else calls - 1
    ensures forall k :: 0 <= k < |sleeps| ==> fn(k).Failed? && k + 1 < n
  {
  }

  function Total(s: seq<int>): int
  {
    if s == [] then 0 else s[0] + Total(s[1..])
  }

  lemma {:induction false} TotalOfConstant(s: seq<int>, d: int)
    requires forall k :: 0 <= k < |s| ==> s[k] == d
    ensures Total(s) == |s| * d
  {
    if s != [] {
      TotalOfConstant(s[1..], d);
    }
  }

  /** With the fixed policy `Interval(d)`, at most `n - 1` sleeps are taken and
      the total time slept is their number times `d`. */
  lemma FixedIntervalTotalSleep<E>(ctx: Context<E>, n: int, d: int, fn: nat -> Attempt<E>,
                                   result: Outcome<E>, sleeps: seq<int>, calls: nat)
    requires Settles(ctx, n, Policies.Interval(d), fn, result, sleeps, calls)
    ensures |sleeps| < n
    ensures Total(sleeps) == |sleeps| * d
  {
    TotalOfConstant(sleeps, d);
  }

  /** With `ExponentialBackoff(max, base)` as the policy (its k-th call returns
      `ExpDelay(max, base, k)`, by the contract of its `Next`), the k-th sleep is
      `base` for k = 0 and after that `min(2^k, max) * base`, or `2^k * base`
      when `max` is negative. */
  lemma ExponentialRetrySleeps<E>(ctx: Context<E>, n: int, max: int, base: int, fn: nat -> Attempt<E>,
                                  result: Outcome<E>, sleeps: seq<int>, calls: nat)
    requires Settles(ctx, n, (k: nat) => Policies.ExpDelay(max, base, k + 1), fn, result, sleeps, calls)
    ensures forall k :: 0 <= k < |sleeps| ==>
      sleeps[k] == (if k == 0 then 1 else if max < 0 then Policies.Pow2(k) else Policies.Min(Policies.Pow2(k), max)) * base
  {
    forall k | 0 <= k < |sleeps|
      ensures sleeps[k] == (if k == 0 then 1 else if max < 0 then Policies.Pow2(k) else Policies.Min(Policies.Pow2(k), max)) * base
    {
      Policies.ExpDelayClosedForm(max, base, k + 1);
    }
  }
}
