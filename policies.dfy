/**
 * Delay policies of the retry package: generators of the duration to wait
 * before the next attempt. A duration is an unbounded integer (a count of
 * time units); `time.Duration(k) * base` is the product `k * base`.
 *
 * `Interval` and `RandInterval` keep no state between calls and are values.
 * `ExponentialBackoff` and `RandExponentialBackoff` keep a multiplier `num`
 * that every call doubles and clamps; they are classes whose `Next` updates
 * that field. The random draw that `rand.Intn` would make is an argument.
 */
module Policies {

  /** The fixed policy: the k-th call (counting from 0) returns `d`, for every k.
      The result reads nothing, so it has no state. */
  function Interval(d: int): (interval: nat -> int)
    ensures forall k :: interval(k) == d
  {
    _ => d
  }

  /** A random-interval policy after its bounds have been put in order. */
  datatype RandRange = RandRange(lo: int, hi: int, base: int)
  {
    /** The draws `rand.Intn(hi - lo)` can return. When `lo == hi` the
        generator is not consulted, so any draw is ignored. */
    predicate Admits(r: int)
    {
      lo == hi || 0 <= r < hi - lo
    }

    /** One call of the policy, given the draw `r`: a multiple of `base` by a
        factor in the half-open range [lo, hi), or `lo * base` when the range is a point. */
    function Next(r: int): (d: int)
      requires Admits(r)
      ensures lo == hi ==> d == lo * base
      ensures lo < hi && base > 0 ==> lo * base <= d < hi * base
      ensures lo < hi && base < 0 ==> hi * base < d <= lo * base
      ensures lo < hi ==> exists k :: lo <= k < hi && d == Scaled(k, base)
    {
      if lo == hi then
        lo * base
      else
        var k := r + lo;
        Scaled(k, base)
    }
  }

  /** `k * base`, named so that it can serve as a trigger. */
  function Scaled(k: int, base: int): int
  {
    k * base
  }

  /** Building the policy swaps reversed bounds. */
  function RandInterval(min: int, max: int, base: int): (p: RandRange)
    ensures p.lo <= p.hi
    ensures multiset{p.lo, p.hi} == multiset{min, max}
    ensures p.base == base
  {
    if min > max then RandRange(max, min, base) else RandRange(min, max, base)
  }

  /** Reversed bounds behave exactly as if they had been passed in order. */
  lemma RandIntervalSymmetric(min: int, max: int, base: int)
    ensures RandInterval(min, max, base) == RandInterval(max, min, base)
  {
  }

  /** Every factor of the half-open range is produced by some admissible draw,
      so the range of the policy is exactly [lo, hi) times `base` (and no more,
      by the contract of `Next`). */
  lemma RandRangeCovers(p: RandRange, k: int)
    requires p.lo <= k < p.hi
    ensures exists r :: p.Admits(r) && p.Next(r) == k * p.base
  {
    assert p.Admits(k - p.lo) && p.Next(k - p.lo) == k * p.base;
  }

  // ---------------------------------------------------------------------
  // Exponential backoff
  // ---------------------------------------------------------------------

  function Pow2(k: nat): (p: nat)
    ensures p >= 1
  {
    if k == 0 then 1 else 2 * Pow2(k - 1)
  }

  /** One update of the multiplier: `num <<= 1`, then clamp to `max` unless `max` is negative. */
  function Step(num: int, max: int): int
  {
    if num * 2 > max && max > -1 then max else num * 2
  }

  /** The multiplier after `k` calls of a freshly built policy. */
  function Multiplier(max: int, k: nat): int
  {
    if k == 0 then 1 else Step(Multiplier(max, k - 1), max)
  }

  /** The delay returned by call number `k` (from 1): the multiplier as it was before that call, times `base`. */
  function ExpDelay(max: int, base: int, k: nat): int
    requires k >= 1
  {
    Multiplier(max, k - 1) * base
  }

  function Min(a: int, b: int): int
  {
    if a <= b then a else b
  }

  /** Closed form of the multiplier after at least one call: `2^k`, capped at `max`
      when `max` is not negative. */
  lemma {:induction false} MultiplierClosedForm(max: int, k: nat)
    requires k >= 1
    ensures Multiplier(max, k) == if max < 0 then Pow2(k) else Min(Pow2(k), max)
  {
    if k > 1 {
      MultiplierClosedForm(max, k - 1);
    }
  }

  /** Closed form of the delays: call 1 returns `base`; call `k >= 2` returns
      `min(2^(k-1), max) * base`, or `2^(k-1) * base` when `max` is negative. */
  lemma ExpDelayClosedForm(max: int, base: int, k: nat)
    requires k >= 1
    ensures k == 1 ==> ExpDelay(max, base, k) == base
    ensures k >= 2 && max >= 0 ==> ExpDelay(max, base, k) == Min(Pow2(k - 1), max) * base
    ensures k >= 2 && max < 0 ==> ExpDelay(max, base, k) == Pow2(k - 1) * base
  {
    if k >= 2 {
      MultiplierClosedForm(max, k - 1);
    }
  }

  /** With a non-negative cap, the multiplier stays within [0, max] once a call has been made. */
  lemma {:induction false} MultiplierBounded(max: int, k: nat)
    requires max >= 0 && k >= 1
    ensures 0 <= Multiplier(max, k) <= max
  {
    if k > 1 {
      MultiplierBounded(max, k - 1);
    }
  }

  /** Without a cap, each delay is exactly twice the previous one. */
  lemma UncappedDoubles(max: int, base: int, k: nat)
    requires max < 0 && k >= 1
    ensures ExpDelay(max, base, k + 1) == 2 * ExpDelay(max, base, k)
    ensures Multiplier(max, k) == Pow2(k)
  {
    MultiplierClosedForm(max, k);
  }

  /** The closure returned by `ExponentialBackoff(max, base)`. */
  class ExponentialBackoff {
    const max: int
    const base: int
    var num: int
    /** Number of calls made so far. */
    ghost var calls: nat

    ghost predicate Valid()
      reads this
    {
      num == Multiplier(max, calls)
    }

    constructor (max: int, base: int)
      ensures this.max == max && this.base == base
      ensures Valid() && calls == 0 && num == 1
    {
      this.max := max;
      this.base := base;
      num := 1;
      calls := 0;
    }

    /** One call of the policy. */
    method Next() returns (d: int)
      requires Valid()
      modifies this
      ensures Valid() && calls == old(calls) + 1
      ensures d == ExpDelay(max, base, calls)
      ensures max >= 0 ==> 0 <= num <= max
    {
      d := num * base;
      num := Step(num, max);
      calls := calls + 1;
      if max >= 0 {
        MultiplierBounded(max, calls);
      }
    }
  }

  /** The closure returned by `RandExponentialBackoff(max, base, rMin, rMax, rBase)`:
      the exponential delay plus one value of its own random-interval policy. */
  class RandExponentialBackoff {
    const max: int
    const base: int
    const jitter: RandRange
    var num: int
    /** Number of calls made so far. */
    ghost var calls: nat

    ghost predicate Valid()
      reads this
    {
      num == Multiplier(max, calls)
    }

    constructor (max: int, base: int, rMin: int, rMax: int, rBase: int)
      ensures this.max == max && this.base == base
      ensures jitter == RandInterval(rMin, rMax, rBase)
      ensures Valid() && calls == 0 && num == 1
    {
      this.max := max;
      this.base := base;
      jitter := RandInterval(rMin, rMax, rBase);
      num := 1;
      calls := 0;
    }

    /** One call of the policy, with `r` the draw of its random part. */
    method Next(r: int) returns (d: int)
      requires Valid() && jitter.Admits(r)
      modifies this
      ensures Valid() && calls == old(calls) + 1
      ensures d == ExpDelay(max, base, calls) + jitter.Next(r)
      ensures max >= 0 ==> 0 <= num <= max
    {
      var e := num * base;
      num := Step(num, max);
      calls := calls + 1;
      if max >= 0 {
        MultiplierBounded(max, calls);
      }
      d := e + jitter.Next(r);
    }
  }

  /** Runs a plain and a jittered exponential backoff with the same `max` and
      `base` side by side, one call of each per draw: the jittered policy's k-th
      value is the plain one's k-th value plus one random-interval value. That
      both multipliers advance alike is the `Valid()` of the two `Next`
      contracts: each `num` equals `Multiplier(max, calls)`. */
  method Lockstep(max: int, base: int, rMin: int, rMax: int, rBase: int, draws: seq<int>)
    returns (plain: seq<int>, jittered: seq<int>)
    requires forall i :: 0 <= i < |draws| ==> RandInterval(rMin, rMax, rBase).Admits(draws[i])
    ensures |plain| == |jittered| == |draws|
    ensures forall i :: 0 <= i < |draws| ==> plain[i] == ExpDelay(max, base, i + 1)
    ensures forall i :: 0 <= i < |draws| ==>
      jittered[i] == plain[i] + RandInterval(rMin, rMax, rBase).Next(draws[i])
  {
    var e := new ExponentialBackoff(max, base);
    var j := new RandExponentialBackoff(max, base, rMin, rMax, rBase);
    plain, jittered := [], [];
    for i := 0 to |draws|
      invariant e.Valid() && j.Valid() && e.calls == j.calls == i
      invariant e.max == j.max == max && e.base == j.base == base
      invariant j.jitter == RandInterval(rMin, rMax, rBase)
      invariant e.num == j.num
      invariant |plain| == |jittered| == i
      invariant forall m :: 0 <= m < i ==> plain[m] == ExpDelay(max, base, m + 1)
      invariant forall m :: 0 <= m < i ==> jittered[m] == plain[m] + j.jitter.Next(draws[m])
    {
      var d := e.Next();
      var dj := j.Next(draws[i]);
      plain, jittered := plain + [d], jittered + [dj];
    }
  }

  /** `ExponentialBackoff(16, base)` called six times yields 1, 2, 4, 8, 16, 16 times `base`. */
  method CappedSequence(base: int) returns (ds: seq<int>)
    ensures ds == [base, 2 * base, 4 * base, 8 * base, 16 * base, 16 * base]
  {
    var b := new ExponentialBackoff(16, base);
    ds := [];
    for i := 0 to 6
      invariant b.Valid() && b.max == 16 && b.base == base && b.calls == i
      invariant |ds| == i
      invariant forall m :: 0 <= m < i ==> ds[m] == ExpDelay(16, base, m + 1)
    {
      var d := b.Next();
      ds := ds + [d];
    }
    assert Multiplier(16, 5) == 16;
  }

  /** `ExponentialBackoff(-1, base)` called five times yields 1, 2, 4, 8, 16 times `base`: no clamp. */
  method UncappedSequence(base: int) returns (ds: seq<int>)
    ensures ds == [base, 2 * base, 4 * base, 8 * base, 16 * base]
  {
    var b := new ExponentialBackoff(-1, base);
    ds := [];
    for i := 0 to 5
      invariant b.Valid() && b.max == -1 && b.base == base && b.calls == i
      invariant |ds| == i
      invariant forall m :: 0 <= m < i ==> ds[m] == ExpDelay(-1, base, m + 1)
    {
      var d := b.Next();
      ds := ds + [d];
    }
    assert Multiplier(-1, 4) == 16;
  }
}
