/** Retry delays, in nanoseconds. The floating-point arithmetic is modelled over the reals. */
module Backoff {
  import opened Jobs

  datatype Strategy =
    | FixedBackoff(delay: int)
    | ExponentialBackoff(initialDelay: int, maxDelay: int, factor: real)
  {
    /** Initial delay times factor^(attempts-1), capped; a factor that is not positive means 2. */
    function NextDelay(attempts: int): int {
      match this
      case FixedBackoff(delay) => delay
      case ExponentialBackoff(initialDelay, maxDelay, _) =>
        if attempts <= 0 then initialDelay
        else
          Cap(Scaled(initialDelay, Factor(), attempts - 1), maxDelay)
    }

    function Factor(): real
      requires ExponentialBackoff?
    {
      if factor <= 0.0 then 2.0 else factor
    }

    /** Settings for which the delay grows from the initial to the maximal one. */
    predicate Growing() {
      ExponentialBackoff? && Factor() >= 1.0 && 0 <= initialDelay <= maxDelay
    }
  }

  const DEFAULT := ExponentialBackoff(5 * SECOND, 3600 * SECOND, 2.0)

  function Pow(f: real, n: nat): real {
    if n == 0 then 1.0 else f * Pow(f, n - 1)
  }

  function Scaled(initialDelay: int, f: real, n: nat): real {
    initialDelay as real * Pow(f, n)
  }

  /** Conversion of a float to an integer rounds toward zero. */
  function Truncate(r: real): int {
    if r >= 0.0 then r.Floor else -((-r).Floor)
  }

  function Cap(delay: real, maxDelay: int): int {
    if delay > maxDelay as real then maxDelay else Truncate(delay)
  }

  lemma CapMonotone(a: real, b: real, maxDelay: int)
    requires 0.0 <= a <= b
    ensures Cap(a, maxDelay) <= Cap(b, maxDelay) <= maxDelay
  {
  }

  lemma CapExact(d: int, maxDelay: int)
    requires 0 <= d <= maxDelay
    ensures Cap(d as real, maxDelay) == d
  {
  }

  // ---------- Powers ----------

  lemma MulMonotone(a: real, b: real, k: real)
    requires a <= b && k >= 0.0
    ensures k * a <= k * b && a * k <= b * k
  {
  }

  lemma {:induction false} PowGrows(f: real, m: nat, n: nat)
    requires f >= 1.0 && m <= n
    ensures 1.0 <= Pow(f, m) <= Pow(f, n)
    decreases n
  {
    if n > 0 {
      if m < n {
        PowGrows(f, m, n - 1);
        MulMonotone(1.0, f, Pow(f, n - 1));
      } else {
        PowGrows(f, n - 1, n - 1);
        MulMonotone(1.0, f, Pow(f, n - 1));
      }
    }
  }

  /** Bernoulli's inequality. */
  lemma {:induction false} Bernoulli(f: real, n: nat)
    requires f >= 1.0
    ensures Pow(f, n) >= 1.0 + n as real * (f - 1.0)
  {
    if n > 0 {
      Bernoulli(f, n - 1);
      PowGrows(f, 0, n - 1);
      BernoulliStep(f - 1.0, Pow(f, n - 1), (n - 1) as real);
    }
  }

  lemma BernoulliStep(x: real, p: real, k: real)
    requires x >= 0.0 && p >= 1.0 && p >= 1.0 + k * x
    ensures (1.0 + x) * p >= 1.0 + (k + 1.0) * x
  {
    MulMonotone(1.0, p, x);
    assert (1.0 + x) * p == p + x * p;
    assert (k + 1.0) * x == k * x + x;
  }

  // ---------- Shape of the delay ----------

  lemma ScaledGrows(initialDelay: int, f: real, m: nat, n: nat)
    requires f >= 1.0 && initialDelay >= 0 && m <= n
    ensures initialDelay as real <= Scaled(initialDelay, f, m) <= Scaled(initialDelay, f, n)
  {
    var d := initialDelay as real;
    var p, q := Pow(f, m), Pow(f, n);
    PowGrows(f, m, n);
    MulMonotone(1.0, p, d);
    MulMonotone(p, q, d);
  }

  /** A fixed backoff waits the same after every try. */
  lemma FixedDelay(delay: int, n: int)
    ensures FixedBackoff(delay).NextDelay(n) == delay
  {
  }

  /** An exponential backoff waits the initial delay before any try; after try `n` it waits
      initial * factor^(n-1), less than a nanosecond off toward zero, but never more than the
      maximal delay. A factor that is not positive means 2. */
  lemma ExponentialDelay(initialDelay: int, maxDelay: int, factor: real, n: int)
    ensures var b := ExponentialBackoff(initialDelay, maxDelay, factor);
            && (n <= 0 ==> b.NextDelay(n) == initialDelay)
            && (n >= 1 ==>
                  var exact := initialDelay as real * Pow(if factor > 0.0 then factor else 2.0, n - 1);
                  var d := b.NextDelay(n);
                  if exact > maxDelay as real then d == maxDelay
                  else if exact >= 0.0 then d as real <= exact < d as real + 1.0
                  else d as real - 1.0 < exact <= d as real)
  {
  }

  /** The delay never leaves the range from the initial to the maximal delay, and never shrinks
      from one attempt to the next. */
  lemma DelayGrows(b: Strategy, m: int, n: int)
    requires b.Growing() && m <= n
    ensures b.initialDelay <= b.NextDelay(m) <= b.NextDelay(n) <= b.maxDelay
  {
    DelayInRange(b, m);
    DelayInRange(b, n);
    if 0 < m {
      ScaledGrows(b.initialDelay, b.Factor(), m - 1, n - 1);
      CapMonotone(Scaled(b.initialDelay, b.Factor(), m - 1), Scaled(b.initialDelay, b.Factor(), n - 1), b.maxDelay);
    }
  }

  lemma DelayInRange(b: Strategy, n: int)
    requires b.Growing()
    ensures b.initialDelay <= b.NextDelay(n) <= b.maxDelay
  {
    if n > 0 {
      ScaledGrows(b.initialDelay, b.Factor(), n - 1, n - 1);
      CapMonotone(b.initialDelay as real, Scaled(b.initialDelay, b.Factor(), n - 1), b.maxDelay);
      CapExact(b.initialDelay, b.maxDelay);
    }
  }

  /** With a factor above 1 and a positive initial delay the maximal delay is reached, at the
      latest at the given attempt, and kept. */
  lemma CapReached(b: Strategy, n: int)
    requires b.Growing() && b.Factor() > 1.0 && b.initialDelay > 0
    requires n >= CapAttempt(b)
    ensures b.NextDelay(n) == b.maxDelay
  {
    ScaledReaches(b.initialDelay, b.maxDelay as real, b.Factor(), n - 1);
    CapMonotone(b.maxDelay as real, Scaled(b.initialDelay, b.Factor(), n - 1), b.maxDelay);
    CapExact(b.maxDelay, b.maxDelay);
  }

  lemma ScaledReaches(initialDelay: int, top: real, f: real, k: int)
    requires f > 1.0 && initialDelay >= 1 && top >= 0.0
    requires k >= (top / (f - 1.0)).Floor + 1
    ensures k >= 0 && Scaled(initialDelay, f, k) >= top
  {
    EnoughSteps(top, f - 1.0, k);
    Bernoulli(f, k);
    AtLeast(initialDelay as real, Pow(f, k));
  }

  lemma AtLeast(d: real, p: real)
    requires d >= 1.0 && p >= 0.0
    ensures d * p >= p
  {
    assert (d - 1.0) * p >= 0.0;
  }

  lemma EnoughSteps(top: real, x: real, k: int)
    requires top >= 0.0 && x > 0.0 && k >= (top / x).Floor + 1
    ensures k >= 0 && k as real * x >= top
  {
    var q := top / x;
    assert q >= 0.0;
    assert q * x == top;
    MulMonotone(q, k as real, x);
  }

  function CapAttempt(b: Strategy): int
    requires b.Growing() && b.Factor() > 1.0
  {
    (b.maxDelay as real / (b.Factor() - 1.0)).Floor + 2
  }

  // ---------- The default ----------

  function TwoTo(n: nat): int {
    if n == 0 then 1 else 2 * TwoTo(n - 1)
  }

  lemma {:induction false} PowTwo(n: nat)
    ensures Pow(2.0, n) == TwoTo(n) as real && TwoTo(n) >= 1
  {
    if n > 0 { PowTwo(n - 1); }
  }

  lemma {:induction false} TwoToGrows(m: nat, n: nat)
    requires m <= n
    ensures TwoTo(m) <= TwoTo(n)
  {
    PowTwo(n);
    if m < n {
      TwoToGrows(m, n - 1);
      PowTwo(n - 1);
    }
  }

  /** 5, 10, 20, ... 2560 seconds for the first ten attempts, then an hour. */
  lemma DefaultDelays(n: int)
    ensures n >= 1 ==> DEFAULT.NextDelay(n) == (if n <= 10 then 5 * SECOND * TwoTo(n - 1) else 3600 * SECOND)
    ensures n <= 0 ==> DEFAULT.NextDelay(n) == 5 * SECOND
  {
    if n >= 1 {
      PowTwo(n - 1);
      var p := TwoTo(n - 1);
      assert Scaled(5 * SECOND, 2.0, n - 1) == (5 * SECOND * p) as real;
      assert TwoTo(9) == 512 by {
        assert TwoTo(3) == 8 && TwoTo(6) == 64;
      }
      if n <= 10 {
        TwoToGrows(n - 1, 9);
      } else {
        TwoToGrows(10, n - 1);
      }
    }
  }

  /** Every default delay is a whole number of any unit that divides the second. */
  lemma DefaultIsWholeUnits(n: int, unit: int)
    requires unit > 0 && SECOND % unit == 0
    ensures DEFAULT.NextDelay(n) % unit == 0
  {
    var k := DefaultIsWholeSeconds(n);
    MultipleOfMultiple(k, SECOND, unit);
  }

  lemma DefaultIsWholeSeconds(n: int) returns (k: int)
    ensures DEFAULT.NextDelay(n) == k * SECOND
  {
    DefaultDelays(n);
    k := if n <= 0 then 5 else if n <= 10 then 5 * TwoTo(n - 1) else 3600;
  }

  lemma MultipleOfMultiple(k: int, whole: int, unit: int)
    requires unit > 0 && whole % unit == 0
    ensures (k * whole) % unit == 0
  {
    var m := whole / unit;
    assert whole == m * unit;
    assert k * whole == (k * m) * unit;
    WholeMultiple(k * m, unit);
  }

  lemma WholeMultiple(k: int, unit: int)
    requires unit > 0
    ensures (k * unit) % unit == 0
  {
    var r := (k * unit) % unit;
    var m := k - (k * unit) / unit;
    assert m * unit == r;
    if m >= 1 { MultipleGrows(1, m, unit); }
    if m <= -1 { MultipleGrows(m, -1, unit); }
  }

  lemma MultipleGrows(a: int, b: int, unit: int)
    requires unit > 0 && a <= b
    ensures a * unit <= b * unit
  {
  }
}

/** The default backoff over a whole run. */
module DefaultSpacing {
  import opened Jobs
  import opened Backoff
  import JobSystem
  import JobRuns
  import RedisProtocol
  import PostgresProtocol

  ghost predicate UsesDefault(c: JobSystem.Config) {
    forall k :: c.nextDelay(k) == DEFAULT.NextDelay(k)
  }

  /** The sum of the first `n` default delays. */
  function DefaultSum(n: nat): int {
    if n <= 10 then 5 * SECOND * (TwoTo(n) - 1)
    else 5 * SECOND * (TwoTo(10) - 1) + 3600 * SECOND * (n - 10)
  }

  lemma {:induction false} DefaultTotal(c: JobSystem.Config, typ: string, n: nat)
    requires typ in c.handlers && UsesDefault(c)
    ensures JobRuns.TotalDelay(c, typ, n) == DefaultSum(n)
  {
    if n > 0 {
      DefaultTotal(c, typ, n - 1);
      DefaultSumStep(n);
    }
  }

  lemma DefaultSumStep(n: int)
    requires n >= 1
    ensures DefaultSum(n) == DefaultSum(n - 1) + DEFAULT.NextDelay(n)
  {
    DefaultDelays(n);
    var p := TwoTo(n - 1);
    if n <= 10 {
      assert TwoTo(n) == 2 * p;
    }
  }

  /** With a fixed backoff, reservation n+1 of a job whose type has a handler comes at least n
      delays after its first, up to less than one column unit per retry. */
  lemma FixedRetrySpacing(c: JobSystem.Config, delay: int, run: seq<JobSystem.Sys>, steps: seq<JobSystem.Step>,
          i: nat, id: string, n: nat)
    requires c.unit > 0 && forall k :: c.nextDelay(k) == FixedBackoff(delay).NextDelay(k)
    requires JobSystem.IsRun(c, run, steps) && i < |run|
    requires id in run[i].hist && n < |run[i].hist[id].times|
    requires run[i].hist[id].typ in c.handlers
    ensures var h := run[i].hist[id];
            h.times[n] - h.times[0] >= n * delay - n * (c.unit - 1)
  {
    JobRuns.RetrySpacing(c, run, steps, i, id, n);
    FixedTotal(c, delay, run[i].hist[id].typ, n);
  }

  lemma {:induction false} FixedTotal(c: JobSystem.Config, delay: int, typ: string, n: nat)
    requires typ in c.handlers && forall k :: c.nextDelay(k) == FixedBackoff(delay).NextDelay(k)
    ensures JobRuns.TotalDelay(c, typ, n) == n * delay
  {
    if n > 0 {
      FixedTotal(c, delay, typ, n - 1);
      FixedDelay(delay, n);
      assert n * delay == (n - 1) * delay + delay;
    }
  }

  /** With the default backoff, reservation n+1 of a job whose type has a handler comes at
      least 5(2^n - 1) seconds after its first, and an hour later for each retry after the
      tenth, up to less than one unit of the scheduling column in the whole run: a second on
      Redis, a microsecond on Postgres. */
  lemma DefaultRetrySpacing(c: JobSystem.Config, run: seq<JobSystem.Sys>, steps: seq<JobSystem.Step>, i: nat,
          id: string, n: nat)
    requires c.unit > 0 && SECOND % c.unit == 0 && UsesDefault(c)
    requires JobSystem.IsRun(c, run, steps) && i < |run|
    requires id in run[i].hist && n < |run[i].hist[id].times|
    requires run[i].hist[id].typ in c.handlers
    ensures var h := run[i].hist[id];
            h.times[n] - h.times[0] >= DefaultSum(n) - (c.unit - 1)
  {
    forall k | 1 <= k <= n ensures c.nextDelay(k) % c.unit == 0 {
      DefaultIsWholeUnits(k, c.unit);
    }
    JobRuns.WholeUnitSpacing(c, run, steps, i, id, n);
    DefaultTotal(c, run[i].hist[id].typ, n);
  }

  /** On Redis, with its two-trip operations, all retries together lose less than a second. */
  lemma RedisDefaultSpacing(c: JobSystem.Config, run: seq<RedisProtocol.Sys>, steps: seq<RedisProtocol.Step>, i: nat,
          id: string, n: nat)
    requires c.unit == SECOND && UsesDefault(c)
    requires RedisProtocol.IsRun(c, run, steps) && i < |run|
    requires id in run[i].hist && n < |run[i].hist[id].times|
    requires run[i].hist[id].typ in c.handlers
    ensures var h := run[i].hist[id];
            h.times[n] - h.times[0] >= DefaultSum(n) - (SECOND - 1)
  {
    RedisProtocol.RedisRefinesJobSystem(c, run, steps);
    DefaultRetrySpacing(c, RedisProtocol.AbsRun(run), RedisProtocol.AbsSteps(run, steps), i, id, n);
  }

  /** On Postgres they lose less than one unit of its column. */
  lemma PostgresDefaultSpacing(c: JobSystem.Config, run: seq<PostgresProtocol.Sys>,
          steps: seq<PostgresProtocol.Step>, i: nat, id: string, n: nat)
    requires c.unit > 0 && SECOND % c.unit == 0 && UsesDefault(c)
    requires PostgresProtocol.IsRun(c, run, steps) && i < |run|
    requires id in run[i].hist && n < |run[i].hist[id].times|
    requires run[i].hist[id].typ in c.handlers
    ensures var h := run[i].hist[id];
            h.times[n] - h.times[0] >= DefaultSum(n) - (c.unit - 1)
  {
    PostgresProtocol.PostgresRefinesJobSystem(c, run, steps);
    DefaultRetrySpacing(c, PostgresProtocol.AbsRun(run), PostgresProtocol.AbsSteps(run, steps), i, id, n);
  }

  lemma RedisFixedSpacing(c: JobSystem.Config, delay: int, run: seq<RedisProtocol.Sys>, steps: seq<RedisProtocol.Step>,
          i: nat, id: string, n: nat)
    requires c.unit == SECOND && forall k :: c.nextDelay(k) == FixedBackoff(delay).NextDelay(k)
    requires RedisProtocol.IsRun(c, run, steps) && i < |run|
    requires id in run[i].hist && n < |run[i].hist[id].times|
    requires run[i].hist[id].typ in c.handlers
    ensures var h := run[i].hist[id];
            h.times[n] - h.times[0] >= n * delay - n * (SECOND - 1)
  {
    RedisProtocol.RedisRefinesJobSystem(c, run, steps);
    FixedRetrySpacing(c, delay, RedisProtocol.AbsRun(run), RedisProtocol.AbsSteps(run, steps), i, id, n);
  }

  lemma PostgresFixedSpacing(c: JobSystem.Config, delay: int, run: seq<PostgresProtocol.Sys>,
          steps: seq<PostgresProtocol.Step>, i: nat, id: string, n: nat)
    requires c.unit > 0 && forall k :: c.nextDelay(k) == FixedBackoff(delay).NextDelay(k)
    requires PostgresProtocol.IsRun(c, run, steps) && i < |run|
    requires id in run[i].hist && n < |run[i].hist[id].times|
    requires run[i].hist[id].typ in c.handlers
    ensures var h := run[i].hist[id];
            h.times[n] - h.times[0] >= n * delay - n * (c.unit - 1)
  {
    PostgresProtocol.PostgresRefinesJobSystem(c, run, steps);
    FixedRetrySpacing(c, delay, PostgresProtocol.AbsRun(run), PostgresProtocol.AbsSteps(run, steps), i, id, n);
  }
}
