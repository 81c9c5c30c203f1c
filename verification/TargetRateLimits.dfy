/** The per-target limiter that spaces calls evenly. Times are milliseconds; the clock is a parameter of
    every call and may run backwards. */
module TargetRateLimits {
  import opened Collections

  /** The rate is absent when it is not finite. */
  datatype Call = Call(target: string, rate: Option<real>, now: real)

  const MINUTE: real := 60_000.0
  const MAX_RATE: real := 600.0

  /** Trimming and lower-casing. */
  type Normalizer = string -> string

  function Capped(rate: real): real {
    if rate < MAX_RATE then rate else MAX_RATE
  }

  predicate Counts(normalize: Normalizer, c: Call) {
    normalize(c.target) != "" && c.rate.Some? && c.rate.value > 0.0
  }

  function NextAllowed(next: map<string, real>, target: string): real {
    if target in next then next[target] else 0.0
  }

  predicate Allows(normalize: Normalizer, next: map<string, real>, c: Call) {
    Counts(normalize, c) && c.now >= NextAllowed(next, normalize(c.target))
  }

  function AfterCall(normalize: Normalizer, next: map<string, real>, c: Call): map<string, real> {
    if Allows(normalize, next, c) then next[normalize(c.target) := c.now + MINUTE / Capped(c.rate.value)] else next
  }

  function After(normalize: Normalizer, next: map<string, real>, calls: seq<Call>): map<string, real> {
    if calls == [] then next
    else AfterCall(normalize, After(normalize, next, calls[..|calls| - 1]), calls[|calls| - 1])
  }

  /** The times at which calls for a normalized target were allowed. */
  function AllowedTimes(normalize: Normalizer, next: map<string, real>, calls: seq<Call>, target: string): seq<real> {
    if calls == [] then []
    else
      var front, c := calls[..|calls| - 1], calls[|calls| - 1];
      var times := AllowedTimes(normalize, next, front, target);
      if normalize(c.target) == target && Allows(normalize, After(normalize, next, front), c) then times + [c.now] else times
  }

  /** How many of the times are in the half-open minute that begins at `from`. */
  function InMinute(times: seq<real>, from: real): nat {
    if times == [] then 0
    else InMinute(times[..|times| - 1], from) + (if from <= times[|times| - 1] < from + MINUTE then 1 else 0)
  }

  class TargetRateLimiter {
    var nextAllowedAt: map<string, real>
    const normalize: Normalizer

    constructor (normalize: Normalizer)
      ensures nextAllowedAt == map[] && this.normalize == normalize
    {
      nextAllowedAt := map[];
      this.normalize := normalize;
    }

    method Allow(target: string, rate: Option<real>, now: real) returns (allowed: bool)
      modifies this
      ensures allowed == Allows(normalize, old(nextAllowedAt), Call(target, rate, now))
      ensures nextAllowedAt == AfterCall(normalize, old(nextAllowedAt), Call(target, rate, now))
      ensures !allowed ==> nextAllowedAt == old(nextAllowedAt)
      ensures allowed ==> rate.Some? && rate.value > 0.0
      ensures allowed ==>
        nextAllowedAt == old(nextAllowedAt)[normalize(target) := now + 60_000.0 / (if rate.value > 600.0 then 600.0 else rate.value)]
    {
      var normalized := normalize(target);
      if normalized == "" || rate.None? || rate.value <= 0.0 {
        return false;
      }
      var interval := MINUTE / Capped(rate.value);
      var next := if normalized in nextAllowedAt then nextAllowedAt[normalized] else 0.0;
      if now < next {
        return false;
      }
      nextAllowedAt := nextAllowedAt[normalized := now + interval];
      return true;
    }
  }

  // ---------- Spacing ----------

  ghost predicate Spaced(times: seq<real>, interval: real) {
    forall i :: 0 < i < |times| ==> times[i] >= times[i - 1] + interval
  }

  lemma {:induction false} ProductGrows(x: real, y: real, factor: real)
    requires x <= y && factor > 0.0
    ensures x * factor <= y * factor && (x < y ==> x * factor < y * factor)
  {
  }

  lemma {:induction false} QuotientTimes(x: real, y: real)
    requires y > 0.0
    ensures x / y * y == x && (x > 0.0 ==> x / y > 0.0)
  {
  }

  lemma {:induction false} QuotientShrinks(x: real, a: real, b: real)
    requires 0.0 < a <= b && x > 0.0
    ensures x / a >= x / b > 0.0
  {
    var p, q := x / a, x / b;
    QuotientTimes(x, a);
    QuotientTimes(x, b);
    assert p * a == x && q * b == x;
    ProductGrows(a, b, q);
    assert q * a == a * q <= b * q;
    if p < q {
      ProductGrows(p, q, a);
    }
  }

  lemma {:induction false} IntervalShrinks(rate: real, cap: real)
    requires 0.0 < rate <= cap
    ensures MINUTE / Capped(rate) >= MINUTE / Capped(cap) > 0.0
  {
    QuotientShrinks(MINUTE, Capped(rate), Capped(cap));
  }

  /** The calls for the target ask for at most `cap` per minute. */
  ghost predicate RatesWithin(normalize: Normalizer, calls: seq<Call>, target: string, cap: real) {
    forall i :: 0 <= i < |calls| && normalize(calls[i].target) == target && calls[i].rate.Some? ==> calls[i].rate.value <= cap
  }

  lemma {:induction false} AllowedTimesAreSpaced(normalize: Normalizer, next: map<string, real>, calls: seq<Call>, target: string, cap: real)
    requires cap > 0.0 && RatesWithin(normalize, calls, target, cap)
    ensures var times := AllowedTimes(normalize, next, calls, target);
      && Spaced(times, MINUTE / Capped(cap))
      && (times != [] ==> NextAllowed(After(normalize, next, calls), target) >= times[|times| - 1] + MINUTE / Capped(cap))
  {
    if calls != [] {
      var front, c := calls[..|calls| - 1], calls[|calls| - 1];
      AllowedTimesAreSpaced(normalize, next, front, target, cap);
      if normalize(c.target) == target && Allows(normalize, After(normalize, next, front), c) {
        IntervalShrinks(c.rate.value, cap);
      }
    }
  }

  /** After an allowed call the next one for the target is allowed if and only if its rate is positive and the
      interval of the allowed call is over: a minute divided by its rate, with rates capped at 600. */
  lemma {:induction false} NextCallIff(normalize: Normalizer, next: map<string, real>, c: Call, d: Call)
    requires Allows(normalize, next, c) && normalize(d.target) == normalize(c.target)
    ensures c.rate.Some? && c.rate.value > 0.0 && normalize(c.target) != ""
    ensures Allows(normalize, AfterCall(normalize, next, c), d) <==>
      && d.rate.Some? && d.rate.value > 0.0
      && d.now >= c.now + 60_000.0 / (if c.rate.value > 600.0 then 600.0 else c.rate.value)
  {
  }

  /** Calls for other targets do not matter, nor do refused calls; a target without allowed calls is allowed
      from time zero on. */
  lemma {:induction false} TargetsAreApart(normalize: Normalizer, next: map<string, real>, c: Call, d: Call)
    requires normalize(d.target) != normalize(c.target) || !Allows(normalize, next, c)
    ensures Allows(normalize, AfterCall(normalize, next, c), d) <==> Allows(normalize, next, d)
    ensures normalize(d.target) !in next ==>
      (Allows(normalize, next, d) <==> normalize(d.target) != "" && d.rate.Some? && d.rate.value > 0.0 && d.now >= 0.0)
  {
  }

  function Late(from: real, k: int, interval: real): real {
    from + k as real * interval
  }

  lemma {:induction false} LateStep(from: real, k: int, interval: real)
    ensures Late(from, k + 1, interval) == Late(from, k, interval) + interval
    ensures Late(from, 0, interval) == from
  {
  }

  lemma {:induction false} LastTimeIsLate(times: seq<real>, interval: real, from: real)
    requires Spaced(times, interval) && interval > 0.0 && InMinute(times, from) > 0
    ensures times != [] && times[|times| - 1] >= Late(from, InMinute(times, from) - 1, interval)
  {
    var n := |times| - 1;
    var k := InMinute(times[..n], from);
    if k > 0 {
      LastTimeIsLate(times[..n], interval, from);
      assert times[n] >= times[n - 1] + interval;
      LateStep(from, k - 1, interval);
    } else {
      LateStep(from, 0, interval);
    }
  }

  lemma {:induction false} FewFit(times: seq<real>, interval: real, from: real)
    requires Spaced(times, interval) && interval > 0.0 && InMinute(times, from) > 0
    ensures Late(from, InMinute(times, from) - 1, interval) < from + MINUTE
  {
    var n := |times| - 1;
    if from <= times[n] < from + MINUTE {
      LastTimeIsLate(times, interval, from);
    } else {
      FewFit(times[..n], interval, from);
    }
  }

  function Ceiling(x: real): int {
    -(-x).Floor
  }

  lemma {:induction false} CountIsBelow(k: int, rate: real)
    requires 0.0 < rate && Late(0.0, k - 1, MINUTE / rate) < MINUTE
    ensures k <= Ceiling(rate)
  {
    var fewer := (k - 1) as real;
    QuotientTimes(MINUTE, rate);
    if fewer >= rate {
      ProductGrows(rate, fewer, MINUTE / rate);
    }
  }

  /** In any half-open minute a target is allowed at most its rate, rounded up, with rates capped at
      600: for every starting state, every history of calls to all targets, and every clock. */
  lemma {:induction false} RateIsRespected(normalize: Normalizer, next: map<string, real>, calls: seq<Call>, target: string, cap: real, from: real)
    requires cap > 0.0 && RatesWithin(normalize, calls, target, cap)
    ensures InMinute(AllowedTimes(normalize, next, calls, target), from) <= Ceiling(Capped(cap))
  {
    var times, interval := AllowedTimes(normalize, next, calls, target), MINUTE / Capped(cap);
    AllowedTimesAreSpaced(normalize, next, calls, target, cap);
    IntervalShrinks(cap, cap);
    if InMinute(times, from) > 0 {
      FewFit(times, interval, from);
      assert Late(0.0, InMinute(times, from) - 1, interval) == Late(from, InMinute(times, from) - 1, interval) - from;
      CountIsBelow(InMinute(times, from), Capped(cap));
    }
  }
}
