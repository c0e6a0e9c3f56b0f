/** The token bucket of `submitRequestWithRateLimiter`: its steps, its loop and the bound over whole runs. */
module RateLimiter {
  const SECOND: int := 1_000_000
  const INT_LIMIT: int := 0x8000_0000

  datatype Timeval = Timeval(sec: nat, usec: nat)

  predicate Proper(t: Timeval) { t.usec < SECOND }

  function Micros(t: Timeval): nat { t.sec * SECOND + t.usec }

  function AtMicros(us: nat): (t: Timeval)
    ensures Proper(t) && Micros(t) == us
  {
    Timeval(us / SECOND, us % SECOND)
  }

  /** Division of C: towards zero. */
  function Quotient(a: int, b: int): int
    requires b > 0
  {
    if a >= 0 then a / b else -((-a) / b)
  }

  /** The macro `TIMEVALDIFF`, in milliseconds. */
  function TimevalDiff(end: Timeval, start: Timeval): int {
    (end.sec - start.sec) * 1000 + Quotient(end.usec - start.usec, 1000)
  }

  /** A `long` stored into an `int`. */
  function Wrap32(x: int): (r: int)
    ensures -INT_LIMIT <= r < INT_LIMIT
    ensures -INT_LIMIT <= x < INT_LIMIT ==> r == x
    ensures (x - r) % 0x1_0000_0000 == 0
  {
    (x + INT_LIMIT) % (2 * INT_LIMIT) - INT_LIMIT
  }

  // ---------- the clock difference ----------

  /** It never counts more than the elapsed time, rounded up by less than a millisecond per second boundary. */
  lemma DiffAtMost(end: Timeval, start: Timeval)
    requires Proper(end) && Proper(start) && Micros(start) <= Micros(end)
    ensures 0 <= 1000 * TimevalDiff(end, start) <= Micros(end) - Micros(start) + 999 * (end.sec - start.sec)
    ensures start.sec <= end.sec
  {
  }

  /** It never counts less than the whole milliseconds that elapsed. */
  lemma DiffAtLeast(end: Timeval, start: Timeval)
    requires Proper(end) && Proper(start) && Micros(start) <= Micros(end)
    ensures Micros(end) - Micros(start) < 1000 * TimevalDiff(end, start) + 1000
  {
  }

  /** It grows with its end, across second boundaries too. */
  lemma DiffMonotone(end: Timeval, later: Timeval, start: Timeval)
    requires Proper(end) && Proper(later) && Proper(start) && Micros(start) <= Micros(end) <= Micros(later)
    ensures TimevalDiff(end, start) <= TimevalDiff(later, start)
  {
  }

  // ---------- the bucket ----------

  /** `max_reqs_per_sec` and `period`, for a configured limit. */
  function Rate(limit: int): int { if limit > 0 then limit else 1000 }

  function Period(limit: int): (p: nat)
    requires limit <= 1000
    ensures p >= 1
  {
    1000 / Rate(limit)
  }

  /** M and the period of a configured limit; no limit counts as 1000 requests per second. */
  lemma Configured(limit: int)
    requires 0 <= limit <= 1000
    ensures var m := if limit == 0 then 1000 else limit; Rate(limit) == m && Period(limit) == 1000 / m
  {
  }

  datatype Bucket = Bucket(tokens: int, ts: Timeval)

  /** `ocgeoGetCounters`: a full bucket, but an empty one when no limit is configured. */
  function Initial(limit: int, now: Timeval): Bucket { Bucket(limit, now) }

  /** Tokens at a time, before they are stored into an `int`. */
  function Supply(limit: int, b: Bucket, t: Timeval): int
    requires limit <= 1000
  {
    b.tokens + Quotient(TimevalDiff(t, b.ts), Period(limit))
  }

  function Permits(limit: int, b: Bucket, t: Timeval): int
    requires limit <= 1000
  {
    Wrap32(Supply(limit, b, t))
  }

  function Min(a: int, b: int): int { if a < b then a else b }

  /** The bucket behind a request admitted at `t`. */
  function Take(limit: int, b: Bucket, t: Timeval): Bucket
    requires limit <= 1000
  {
    Bucket(Min(Rate(limit), Permits(limit, b, t)) - 1, t)
  }

  predicate Full(limit: int, b: Bucket) {
    0 <= limit <= 1000 && 0 <= b.tokens <= Rate(limit) && Proper(b.ts)
  }

  predicate Ordered(b: Bucket, t: Timeval) {
    Proper(t) && Proper(b.ts) && Micros(b.ts) <= Micros(t)
  }

  lemma QuotientFacts(a: int, b: int)
    requires 0 <= a && 0 < b
    ensures 0 <= Quotient(a, b) && Quotient(a, b) * b <= a && (Quotient(a, b) == 0 <==> a < b)
  {
    var q := a / b;
    assert a == q * b + a % b;
    assert q == 0 ==> q * b == 0;
    if q >= 1 { Product(q, b); }
  }

  lemma Product(q: int, b: int)
    requires q >= 1 && b >= 0
    ensures q * b >= b
  {
  }

  lemma WrapOf(x: int)
    ensures Wrap32(x) == x % (2 * INT_LIMIT) - (if x % (2 * INT_LIMIT) < INT_LIMIT then 0 else 2 * INT_LIMIT)
  {
  }

  /** Without an overflow the permits are the tokens and one for each period. */
  lemma SupplyFacts(limit: int, b: Bucket, t: Timeval)
    requires Full(limit, b) && Ordered(b, t)
    ensures 0 <= b.tokens <= Supply(limit, b, t)
    ensures Supply(limit, b, t) == b.tokens <==> TimevalDiff(t, b.ts) < Period(limit)
    ensures (Supply(limit, b, t) - b.tokens) * Period(limit) <= TimevalDiff(t, b.ts)
  {
    hide TimevalDiff, Period, Quotient;
    DiffAtMost(t, b.ts);
    QuotientFacts(TimevalDiff(t, b.ts), Period(limit));
  }

  /** The supply, cut to 32 bits, is not negative: so whenever the idle gap is below 2^31 - M periods. */
  predicate InRange(limit: int, b: Bucket, t: Timeval)
    requires limit <= 1000
  {
    Supply(limit, b, t) % (2 * INT_LIMIT) < INT_LIMIT
  }

  /** An admitted request leaves between 0 and M - 1 tokens exactly where the supply is in range. */
  lemma TakeKeepsRange(limit: int, b: Bucket, t: Timeval)
    requires Full(limit, b) && Ordered(b, t) && Permits(limit, b, t) != 0
    ensures 0 <= Take(limit, b, t).tokens < (if limit == 0 then 1000 else limit) <==> InRange(limit, b, t)
    ensures InRange(limit, b, t) ==> Full(limit, Take(limit, b, t)) && Permits(limit, b, t) <= Supply(limit, b, t)
    ensures !InRange(limit, b, t) ==> -INT_LIMIT - 1 <= Take(limit, b, t).tokens < 0
  {
    hide Supply, Wrap32;
    SupplyFacts(limit, b, t);
    WrapOf(Supply(limit, b, t));
  }

  /**
   * A request is refused by an empty bucket, within a period of the last request, and by a supply that
   * is a multiple of 2^32; the delay is positive in the first case only.
   */
  lemma RefusedMeans(limit: int, b: Bucket, t: Timeval)
    requires Full(limit, b) && Ordered(b, t)
    ensures Permits(limit, b, t) == 0 <==> Supply(limit, b, t) % (2 * INT_LIMIT) == 0
    ensures Supply(limit, b, t) == 0 <==>
      b.tokens == 0 && TimevalDiff(t, b.ts) < 1000 / (if limit == 0 then 1000 else limit)
    ensures Permits(limit, b, t) == 0 ==> (TimevalDiff(t, b.ts) < Period(limit) <==> Supply(limit, b, t) == 0)
    ensures Supply(limit, b, t) < INT_LIMIT ==> Permits(limit, b, t) == Supply(limit, b, t)
  {
    hide Supply, Wrap32, TimevalDiff, Period;
    Configured(limit);
    SupplyFacts(limit, b, t);
    WrapOf(Supply(limit, b, t));
  }

  /**
   * Where the loop sleeps, the delay is at most a second, and behind a sleep of at least that long there is
   * a token; so the request is admitted unless the sleep took 2^32 periods.
   */
  lemma SleepsOnce(limit: int, b: Bucket, t: Timeval, later: Timeval)
    requires Full(limit, b) && Ordered(b, t) && Permits(limit, b, t) == 0 && TimevalDiff(t, b.ts) < Period(limit)
    requires Proper(later) && Micros(t) + 1000 * (Period(limit) - TimevalDiff(t, b.ts)) <= Micros(later)
    ensures Period(limit) - TimevalDiff(t, b.ts) <= 1000 && Supply(limit, b, later) >= 1
    ensures Supply(limit, b, later) < 2 * INT_LIMIT ==> Permits(limit, b, later) != 0
    ensures Supply(limit, b, later) < INT_LIMIT ==> Permits(limit, b, later) >= 1
  {
    hide Supply, Wrap32, TimevalDiff, Period, Permits;
    RefusedMeans(limit, b, t);
    PeriodBound(limit);
    DiffAtMost(t, b.ts);
    SleepLongEnough(t, later, b.ts, Period(limit));
    SupplyFacts(limit, b, later);
    RefusedMeans(limit, b, later);
  }

  /** The heart of it: the sleep may end in a later second than it began, where rounding is different. */
  lemma SleepLongEnough(t: Timeval, later: Timeval, start: Timeval, p: int)
    requires Proper(t) && Proper(later) && Proper(start) && Micros(start) <= Micros(t)
    requires TimevalDiff(t, start) < p <= 1000
    requires Micros(t) + 1000 * (p - TimevalDiff(t, start)) <= Micros(later)
    ensures TimevalDiff(later, start) >= p
  {
  }

  lemma PeriodBound(limit: int)
    requires limit <= 1000
    ensures Period(limit) <= 1000
  {
  }

  // ---------- whole runs ----------

  /** A run of one user: the times at which requests were admitted, one after the other. */
  ghost predicate Run(limit: int, b: Bucket, times: seq<Timeval>)
    requires limit <= 1000
    decreases times
  {
    times == [] ||
    (Ordered(b, times[0]) && Permits(limit, b, times[0]) != 0 && Run(limit, Take(limit, b, times[0]), times[1..]))
  }

  /** At every request of the run the supply is in range: no idle gap makes the permits negative. */
  ghost predicate NeverOverflows(limit: int, b: Bucket, times: seq<Timeval>)
    requires limit <= 1000
    decreases times
  {
    times == [] || (InRange(limit, b, times[0]) && NeverOverflows(limit, Take(limit, b, times[0]), times[1..]))
  }

  ghost predicate Good(limit: int, b: Bucket, times: seq<Timeval>) {
    Full(limit, b) && Run(limit, b, times) && NeverOverflows(limit, b, times)
  }

  /** Elapsed time, and what the clock difference may count beyond it. */
  function Allowance(from: Timeval, to: Timeval): int {
    Micros(to) - Micros(from) + 999 * (to.sec - from.sec)
  }

  lemma GoodStep(limit: int, b: Bucket, times: seq<Timeval>)
    requires Good(limit, b, times) && times != []
    ensures Ordered(b, times[0]) && Good(limit, Take(limit, b, times[0]), times[1..])
    ensures Take(limit, b, times[0]).tokens <= Rate(limit) - 1
    ensures Take(limit, b, times[0]).tokens <= Supply(limit, b, times[0]) - 1
  {
    hide Supply, Wrap32, Period, TimevalDiff;
    TakeKeepsRange(limit, b, times[0]);
  }

  lemma Scale(c: int, x: int, y: int)
    requires c >= 0 && x <= y
    ensures c * x <= c * y
  {
  }

  /** Tokens spent are paid for by tokens held or by time. */
  lemma StepBudget(limit: int, b: Bucket, t: Timeval, left: int)
    requires Full(limit, b) && Ordered(b, t) && left <= Supply(limit, b, t) - 1
    ensures 1000 * Period(limit) * (left + 1) <= 1000 * Period(limit) * b.tokens + Allowance(b.ts, t)
  {
    hide Supply, Period, TimevalDiff;
    var c, p := 1000 * Period(limit), Period(limit);
    SupplyFacts(limit, b, t);
    DiffAtMost(t, b.ts);
    var supply := Supply(limit, b, t);
    Scale(c, left + 1, supply);
    assert c * supply == c * b.tokens + 1000 * ((supply - b.tokens) * p);
  }

  lemma {:induction false} Budget(limit: int, b: Bucket, times: seq<Timeval>)
    requires Good(limit, b, times) && times != []
    ensures 1000 * Period(limit) * |times| <= 1000 * Period(limit) * b.tokens + Allowance(b.ts, times[|times| - 1])
    decreases times
  {
    hide Supply, Period, TimevalDiff, Run, NeverOverflows, Micros;
    GoodStep(limit, b, times);
    var c, after, rest := 1000 * Period(limit), Take(limit, b, times[0]), times[1..];
    StepBudget(limit, b, times[0], after.tokens);
    assert after.ts == times[0];
    if rest != [] {
      Budget(limit, after, rest);
      assert rest[|rest| - 1] == times[|times| - 1];
      assert c * |times| == c * |rest| + c;
      assert c * (after.tokens + 1) == c * after.tokens + c;
    } else {
      Scale(c, 1, after.tokens + 1);
    }
  }

  lemma {:induction false} GoodPrefix(limit: int, b: Bucket, times: seq<Timeval>, n: nat)
    requires Good(limit, b, times) && n <= |times|
    ensures Good(limit, b, times[..n])
    decreases times
  {
    hide Supply, Period, Permits, Take;
    if n > 0 {
      GoodStep(limit, b, times);
      GoodPrefix(limit, Take(limit, b, times[0]), times[1..], n - 1);
      assert times[..n][1..] == times[1..][..n - 1];
    }
  }

  lemma {:induction false} GoodSuffix(limit: int, b: Bucket, times: seq<Timeval>, n: nat) returns (at: Bucket)
    requires Good(limit, b, times) && n <= |times|
    ensures Good(limit, at, times[n..])
    decreases times
  {
    hide Supply, Period, Permits, Take, Run, NeverOverflows;
    if n == 0 {
      assert times[0..] == times;
      return b;
    }
    GoodStep(limit, b, times);
    at := GoodSuffix(limit, Take(limit, b, times[0]), times[1..], n - 1);
    assert times[1..][n - 1..] == times[n..];
  }

  lemma Floor(c: int, n: int, a: int)
    requires c > 0 && c * n <= a
    ensures n <= a / c
  {
    assert a == c * (a / c) + a % c;
    if n > a / c { Scale(c, a / c + 1, n); }
  }

  /**
   * The rate bound.  In any run whose supply is always in range, the requests from the i-th to the j-th one are at
   * most M plus one for each period of the time between them, where each crossing of a second may count
   * 999 microseconds that did not pass.
   */
  lemma RateBound(limit: int, b: Bucket, times: seq<Timeval>, i: nat, j: nat)
    requires Good(limit, b, times) && i <= j < |times|
    ensures var m := if limit == 0 then 1000 else limit;
      j - i + 1 <= m + Allowance(times[i], times[j]) / (1000 * (1000 / m))
  {
    hide Supply, Period, Take, Run, NeverOverflows, Micros, TimevalDiff;
    Configured(limit);
    if i == j {
      assert Allowance(times[i], times[j]) == 0;
      return;
    }
    var at := GoodSuffix(limit, b, times, i);
    var rest := times[i..];
    GoodStep(limit, at, rest);
    var after := Take(limit, at, rest[0]);
    GoodPrefix(limit, after, rest[1..], j - i);
    var window := rest[1..][..j - i];
    assert window[|window| - 1] == times[j] && rest[0] == times[i];
    Budget(limit, after, window);
    var c := 1000 * Period(limit);
    Scale(c, after.tokens, Rate(limit) - 1);
    assert c * (j - i - (Rate(limit) - 1)) == c * (j - i) - c * (Rate(limit) - 1);
    assert after.ts == times[i] by { TakeTime(limit, at, rest[0]); }
    Floor(c, j - i - (Rate(limit) - 1), Allowance(times[i], times[j]));
  }

  lemma TakeTime(limit: int, b: Bucket, t: Timeval)
    requires limit <= 1000
    ensures Take(limit, b, t).ts == t
  {
  }

  lemma Divide(a: int, p: int)
    requires 1 <= p && 0 <= a
    ensures a / (1000 * p) == (a / 1000) / p
  {
    var q, r := (a / 1000) / p, (a / 1000) % p;
    assert a / 1000 == q * p + r;
    assert a == 1000 * (q * p + r) + a % 1000;
    var c := 1000 * p;
    assert a == c * q + (1000 * r + a % 1000);
    assert 0 <= 1000 * r + a % 1000 < c;
    Unique(c, q, 1000 * r + a % 1000);
  }

  lemma Unique(c: int, q: int, r: int)
    requires 0 <= r < c
    ensures (c * q + r) / c == q
  {
    var m := (c * q + r) / c;
    assert c * q + r == c * m + (c * q + r) % c;
    if m > q { Scale(c, q + 1, m); }
    if m < q { Scale(c, m + 1, q); }
  }

  /** Within less than a second: at most M + 1000 / period requests, twice the limit where it divides 1000. */
  lemma WithinASecond(limit: int, b: Bucket, times: seq<Timeval>, i: nat, j: nat)
    requires Good(limit, b, times) && i <= j < |times|
    requires Proper(times[i]) && Proper(times[j]) && Micros(times[i]) <= Micros(times[j]) < Micros(times[i]) + SECOND
    ensures var m := if limit == 0 then 1000 else limit;
      j - i + 1 <= m + 1000 / (1000 / m) && (1000 % m == 0 ==> j - i + 1 <= 2 * m)
  {
    hide Run, NeverOverflows, Take, Supply, Period;
    Configured(limit);
    RateBound(limit, b, times, i, j);
    SecondAllowance(times[i], times[j]);
    PerSecond(Allowance(times[i], times[j]), Period(limit));
    if 1000 % Rate(limit) == 0 {
      ExactPeriod(limit);
      Unique(Period(limit), Rate(limit), 0);
    }
  }

  lemma SecondAllowance(from: Timeval, to: Timeval)
    requires Proper(from) && Proper(to) && Micros(from) <= Micros(to) < Micros(from) + SECOND
    ensures 0 <= Allowance(from, to) <= 1_000_998
  {
  }

  lemma PerSecond(a: int, p: int)
    requires 0 <= a <= 1_000_998 && p >= 1
    ensures a / (1000 * p) <= 1000 / p
  {
    Divide(a, p);
    DivideMonotone(a / 1000, 1000, p);
  }

  lemma ExactPeriod(limit: int)
    requires limit <= 1000 && 1000 % Rate(limit) == 0
    ensures Period(limit) * Rate(limit) == 1000
  {
    var m := Rate(limit);
    assert 1000 == m * (1000 / m) + 1000 % m;
  }

  lemma DivideMonotone(a: int, b: int, p: int)
    requires a <= b && p >= 1
    ensures a / p <= b / p
  {
    assert a == p * (a / p) + a % p && b == p * (b / p) + b % p;
    if a / p > b / p { Scale(p, b / p + 1, a / p); }
  }

  // ---------- runs that reach the bound ----------

  function Burst(t: Timeval, n: nat): seq<Timeval> { seq(n, _ => t) }

  lemma GoodCons(limit: int, b: Bucket, t: Timeval, rest: seq<Timeval>)
    requires Full(limit, b) && Ordered(b, t) && Permits(limit, b, t) != 0 && InRange(limit, b, t)
    requires Good(limit, Take(limit, b, t), rest)
    ensures Good(limit, b, [t] + rest)
  {
    hide Supply, Take, Permits, Full, Ordered;
    assert ([t] + rest)[1..] == rest;
  }

  lemma AtOnce(limit: int, k: nat, t: Timeval)
    requires 0 <= limit <= 1000 && 0 < k <= Rate(limit) && Proper(t)
    ensures Supply(limit, Bucket(k, t), t) == k && Take(limit, Bucket(k, t), t) == Bucket(k - 1, t)
  {
    hide Period;
    assert Quotient(0, Period(limit)) == 0;
  }

  /** Requests at one instant use up the tokens one by one. */
  lemma {:induction false} BurstRun(limit: int, k: nat, t: Timeval, n: nat, rest: seq<Timeval>)
    requires 0 <= limit <= 1000 && n <= k <= Rate(limit) && Proper(t)
    requires Good(limit, Bucket(k - n, t), rest)
    ensures Good(limit, Bucket(k, t), Burst(t, n) + rest)
    decreases n
  {
    hide Supply, Take, Good;
    if n == 0 {
      assert Burst(t, 0) + rest == rest;
    } else {
      BurstRun(limit, k - 1, t, n - 1, rest);
      AtOnce(limit, k, t);
      GoodCons(limit, Bucket(k, t), t, Burst(t, n - 1) + rest);
      assert Burst(t, n) + rest == [t] + (Burst(t, n - 1) + rest);
    }
  }

  function Later(t: Timeval, ms: nat): (r: Timeval)
    ensures Proper(r) && Micros(r) == Micros(t) + 1000 * ms
  {
    AtMicros(Micros(t) + 1000 * ms)
  }

  /** Whole milliseconds are counted exactly. */
  lemma ExactDiff(t: Timeval, ms: nat)
    requires Proper(t)
    ensures TimevalDiff(Later(t, ms), t) == ms
  {
    var end := Later(t, ms);
    var m := end.usec - t.usec;
    assert m == 1000 * (ms - 1000 * (end.sec - t.sec));
  }

  /** `k` requests, one each `p` milliseconds after `t`. */
  function Steady(t: Timeval, p: nat, k: nat): (r: seq<Timeval>)
    ensures |r| == k
    decreases k
  {
    if k == 0 then [] else [Later(t, p)] + Steady(Later(t, p), p, k - 1)
  }

  lemma LaterStill(t: Timeval, p: nat, k: nat)
    requires k > 1
    ensures Later(Later(t, p), p * (k - 1)) == Later(t, p * k)
  {
    assert p * k == p * (k - 1) + p;
    SameTime(Later(Later(t, p), p * (k - 1)), Later(t, p * k));
  }

  /** Steady requests spend what each period brings. */
  lemma {:induction false} SteadyRun(limit: int, t: Timeval, k: nat, rest: seq<Timeval>)
    requires 0 <= limit <= 1000 && Proper(t)
    requires Good(limit, Bucket(0, if k == 0 then t else Later(t, Period(limit) * k)), rest)
    ensures Good(limit, Bucket(0, t), Steady(t, Period(limit), k) + rest)
    decreases k
  {
    hide Period, Supply, Take, TimevalDiff, Good, Later;
    var p := Period(limit);
    if k == 0 {
      assert Steady(t, p, 0) + rest == rest;
    } else {
      var next := Later(t, p);
      ExactDiff(t, p);
      if k > 1 { LaterStill(t, p, k); }
      SteadyRun(limit, next, k - 1, rest);
      OnePermit(limit, t, next);
      GoodCons(limit, Bucket(0, t), next, Steady(next, p, k - 1) + rest);
      assert Steady(t, p, k) + rest == [next] + (Steady(next, p, k - 1) + rest);
    }
  }

  lemma SameTime(t: Timeval, u: Timeval)
    requires Proper(t) && Proper(u) && Micros(t) == Micros(u)
    ensures t == u
  {
  }

  lemma OnePermit(limit: int, t: Timeval, next: Timeval)
    requires 0 <= limit <= 1000 && Proper(t) && Proper(next) && TimevalDiff(next, t) == Period(limit)
    ensures Supply(limit, Bucket(0, t), next) == 1 && Take(limit, Bucket(0, t), next) == Bucket(0, next)
  {
    hide TimevalDiff;
    Unique(Period(limit), 1, 0);
  }

  lemma NoRequests(limit: int, b: Bucket)
    requires Full(limit, b)
    ensures Good(limit, b, [])
  {
  }

  lemma {:induction false} SteadyLast(t: Timeval, p: nat, k: nat)
    requires k > 0
    ensures Steady(t, p, k)[k - 1] == Later(t, p * k)
    decreases k
  {
    if k > 1 {
      SteadyLast(Later(t, p), p, k - 1);
      assert p * k == p * (k - 1) + p;
    }
  }

  /** The bound is attained: a burst of M requests, then one a period, within one second of the clock. */
  lemma BoundAttained(limit: int, sec: nat, k: nat)
    requires 0 <= limit <= 1000 && 0 < k && k * (1000 / (if limit == 0 then 1000 else limit)) < 1000
    ensures var start, m := Timeval(sec, 0), if limit == 0 then 1000 else limit;
      var times := Burst(start, m) + Steady(start, 1000 / m, k);
      && Good(limit, Bucket(m, start), times)
      && times[0] == start && times[|times| - 1].sec == sec
      && |times| == m + Allowance(times[0], times[|times| - 1]) / (1000 * (1000 / m))
  {
    hide Good, Allowance, Burst, Steady;
    Configured(limit);
    Attained(limit, sec, k);
  }

  lemma Attained(limit: int, sec: nat, k: nat)
    requires 0 <= limit <= 1000 && 0 < k && k * Period(limit) < 1000
    ensures var start := Timeval(sec, 0);
      var times := Burst(start, Rate(limit)) + Steady(start, Period(limit), k);
      && Good(limit, Bucket(Rate(limit), start), times)
      && times[0] == start && times[|times| - 1].sec == sec
      && |times| == Rate(limit) + Allowance(times[0], times[|times| - 1]) / (1000 * Period(limit))
  {
    hide Good, Period, TimevalDiff, Burst, Steady, Later;
    var p, start, m := Period(limit), Timeval(sec, 0), Rate(limit);
    NoRequests(limit, Bucket(0, Later(start, p * k)));
    SteadyRun(limit, start, k, []);
    assert Steady(start, p, k) + [] == Steady(start, p, k);
    BurstRun(limit, m, start, m, Steady(start, p, k));
    SteadyLast(start, p, k);
    BurstShape(start, m, Steady(start, p, k));
    SameSecond(sec, 0, p * k);
    Unique(1000 * p, k, 0);
    assert 1000 * (p * k) == (1000 * p) * k + 0;
  }

  lemma BurstShape(t: Timeval, n: nat, rest: seq<Timeval>)
    requires n > 0 && rest != []
    ensures var times := Burst(t, n) + rest;
      |times| == n + |rest| && times[0] == t && times[|times| - 1] == rest[|rest| - 1]
  {
  }

  lemma SameSecond(sec: nat, usec: nat, ms: nat)
    requires usec < 1000 && ms < 1000
    ensures Later(Timeval(sec, usec), ms) == Timeval(sec, usec + 1000 * ms)
  {
    SameTime(Later(Timeval(sec, usec), ms), Timeval(sec, usec + 1000 * ms));
  }

  /** M requests 999 microseconds into a second, one a period after them, and one as the next second begins. */
  function Crossing(limit: int, sec: nat): seq<Timeval>
    requires 0 <= limit <= 1000
  {
    Burst(Timeval(sec, 999), Rate(limit)) + AfterBurst(limit, sec)
  }

  function AfterBurst(limit: int, sec: nat): (r: seq<Timeval>)
    requires 0 <= limit <= 1000
    ensures r != []
  {
    PeriodBound(limit);
    Steady(Timeval(sec, 999), Period(limit), 1000 / Period(limit) - 1) + [Timeval(sec + 1, 0)]
  }

  /** The last period of the second, rounded up. */
  lemma LastPeriod(limit: int, sec: nat, x: nat)
    requires 0 <= limit <= 1000 && x == Period(limit) * (1000 / Period(limit) - 1)
    ensures x < 1000 && 1000 - x >= Period(limit)
    ensures var t, next := Timeval(sec, 999 + 1000 * x), Timeval(sec + 1, 0);
      Supply(limit, Bucket(0, t), next) == 1 && Take(limit, Bucket(0, t), next) == Bucket(0, next)
  {
    var p, q := Period(limit), 1000 / Period(limit);
    assert 1000 == p * q + 1000 % p;
    assert x == p * q - p;
    var t, next := Timeval(sec, 999 + 1000 * x), Timeval(sec + 1, 0);
    PeriodBound(limit);
    RoundedUp(t, next, x);
    assert 1000 - x == p * 1 + 1000 % p;
    Unique(p, 1, 1000 % p);
    hide TimevalDiff, Period;
    assert Quotient(1000 - x, p) == 1;
  }

  lemma RoundedUp(t: Timeval, next: Timeval, x: nat)
    requires x < 1000 && t.usec == 999 + 1000 * x && next.sec == t.sec + 1 && next.usec == 0
    ensures TimevalDiff(next, t) == 1000 - x
  {
  }

  /** What follows the burst uses up nothing but what the second brings. */
  lemma AfterBurstRun(limit: int, sec: nat)
    requires 0 <= limit <= 1000
    ensures Good(limit, Bucket(0, Timeval(sec, 999)), AfterBurst(limit, sec))
    ensures |AfterBurst(limit, sec)| == 1000 / Period(limit)
    ensures AfterBurst(limit, sec)[|AfterBurst(limit, sec)| - 1] == Timeval(sec + 1, 0)
  {
    hide Good, Supply, Take, Later;
    PeriodBound(limit);
    var t, p, next := Timeval(sec, 999), Period(limit), Timeval(sec + 1, 0);
    var k := 1000 / p - 1;
    LastPeriod(limit, sec, p * k);
    SameSecond(sec, 999, p * k);
    var at := Timeval(sec, 999 + 1000 * (p * k));
    assert k == 0 ==> p * k == 0;
    NoRequests(limit, Bucket(0, next));
    assert [next] + [] == [next];
    GoodCons(limit, Bucket(0, at), next, []);
    SteadyRun(limit, t, k, [next]);
  }

  /**
   * The bound within a second is attained for every limit: from a full bucket, M + 1000 / period requests within
   * 999001 microseconds.
   */
  lemma SecondAttained(limit: int, sec: nat)
    requires 0 <= limit <= 1000
    ensures var times := Crossing(limit, sec);
      var m := if limit == 0 then 1000 else limit;
      && Good(limit, Bucket(m, Timeval(sec, 999)), times)
      && |times| == m + 1000 / (1000 / m)
      && Micros(times[|times| - 1]) - Micros(times[0]) == 999_001
  {
    Configured(limit);
    hide Good, Period, Burst, AfterBurst;
    var t, m := Timeval(sec, 999), Rate(limit);
    AfterBurstRun(limit, sec);
    BurstRun(limit, m, t, m, AfterBurst(limit, sec));
    BurstShape(t, m, AfterBurst(limit, sec));
  }

  /**
   * So "at most M requests per second" holds for no limit at all: a new bucket too admits M + 1000 / period
   * requests in less than a second, 2M where M divides 1000 and never fewer than M + 1.
   */
  lemma OverTheLimit(limit: int)
    requires 0 <= limit <= 1000
    ensures var times := Crossing(limit, 1);
      var m := if limit == 0 then 1000 else limit;
      && Good(limit, Initial(limit, Timeval(0, 0)), times)
      && |times| == m + 1000 / (1000 / m) >= m + 1 && (1000 % m == 0 ==> |times| == 2 * m)
      && Micros(times[|times| - 1]) - Micros(times[0]) == 999_001
  {
    hide Good, Take, Permits, Supply, InRange, AfterBurst;
    var b, t, m := Initial(limit, Timeval(0, 0)), Timeval(1, 999), Rate(limit);
    SecondAttained(limit, 1);
    PeriodBound(limit);
    FirstTake(limit);
    AfterBurstRun(limit, 1);
    BurstRun(limit, m - 1, t, m - 1, AfterBurst(limit, 1));
    GoodCons(limit, b, t, Burst(t, m - 1) + AfterBurst(limit, 1));
    assert [t] + (Burst(t, m - 1) + AfterBurst(limit, 1)) == Burst(t, m) + AfterBurst(limit, 1);
    if 1000 % m == 0 {
      ExactPeriod(limit);
      Unique(Period(limit), m, 0);
    }
  }

  lemma FirstTake(limit: int)
    requires 0 <= limit <= 1000
    ensures var b, t := Initial(limit, Timeval(0, 0)), Timeval(1, 999);
      Permits(limit, b, t) != 0 && InRange(limit, b, t) && Take(limit, b, t) == Bucket(Rate(limit) - 1, t)
  {
    var p := Period(limit);
    assert TimevalDiff(Timeval(1, 999), Timeval(0, 0)) == 1000;
    assert Rate(limit) * p <= 1000;
    Floor(p, Rate(limit), 1000);
    DivideAtMost(1000, p);
  }

  lemma DivideAtMost(a: int, p: int)
    requires a >= 0 && p >= 1
    ensures a / p <= a
  {
    Scale(a / p, 1, p);
  }

  // ---------- overlong idle gaps ----------

  /** No window of the run holds more requests than its time allows. */
  ghost predicate Bounded(limit: int, times: seq<Timeval>)
    requires 0 <= limit <= 1000
  {
    var m := if limit == 0 then 1000 else limit;
    forall i, j | 0 <= i <= j < |times| :: j - i + 1 <= m + Allowance(times[i], times[j]) / (1000 * (1000 / m))
  }

  /** With tokens below zero nothing is refused; counting down past -2^31 only fills the bucket. */
  lemma {:induction false} NegativeRun(limit: int, k: int, t: Timeval, n: nat)
    requires 0 <= limit <= 1000 && Proper(t) && -INT_LIMIT - 1 <= k < 0 && n <= Rate(limit)
    ensures Run(limit, Bucket(k, t), Burst(t, n))
    decreases n
  {
    hide Run, TimevalDiff, Period;
    if n == 0 {
      RunNothing(limit, Bucket(k, t), Burst(t, 0));
      return;
    }
    SupplyAtOnce(limit, k, t);
    var after := Take(limit, Bucket(k, t), t);
    assert Burst(t, n) == [t] + Burst(t, n - 1);
    if k == -INT_LIMIT - 1 {
      assert after == Bucket(Rate(limit) - 1, t);
      NoRequests(limit, Bucket(Rate(limit) - n, t));
      BurstRun(limit, Rate(limit) - 1, t, n - 1, []);
      assert Burst(t, n - 1) + [] == Burst(t, n - 1);
    } else {
      assert after == Bucket(k - 1, t);
      NegativeRun(limit, k - 1, t, n - 1);
    }
    RunStep(limit, Bucket(k, t), t, Burst(t, n - 1));
  }

  lemma SupplyAtOnce(limit: int, k: int, t: Timeval)
    requires 0 <= limit <= 1000 && Proper(t)
    ensures Supply(limit, Bucket(k, t), t) == k
  {
    hide Period;
    assert TimevalDiff(t, t) == 0 && Quotient(0, Period(limit)) == 0;
  }

  lemma RunNothing(limit: int, b: Bucket, times: seq<Timeval>)
    requires limit <= 1000 && times == []
    ensures Run(limit, b, times)
  {
  }

  lemma RunStep(limit: int, b: Bucket, t: Timeval, rest: seq<Timeval>)
    requires limit <= 1000 && Ordered(b, t) && Permits(limit, b, t) != 0 && Run(limit, Take(limit, b, t), rest)
    ensures Run(limit, b, [t] + rest)
  {
    assert ([t] + rest)[1..] == rest;
  }

  /** Behind any gap whose supply is out of range, M + 1 requests can be admitted at one instant. */
  lemma OverlongIdle(limit: int, b: Bucket, t: Timeval)
    requires Full(limit, b) && Ordered(b, t) && Permits(limit, b, t) != 0 && !InRange(limit, b, t)
    ensures Run(limit, b, [t] + Burst(t, Rate(limit)))
  {
    hide Run, Permits, Supply;
    TakeKeepsRange(limit, b, t);
    NegativeRun(limit, Take(limit, b, t).tokens, t, Rate(limit));
    RunStep(limit, b, t, Burst(t, Rate(limit)));
  }

  /** For every limit such a gap exists: a new bucket left alone for 2^31 periods. */
  lemma OverlongIdleReached(limit: int)
    requires 0 <= limit <= 1000
    ensures var b, t := Initial(limit, Timeval(0, 0)), AtMicros(1000 * (Period(limit) * INT_LIMIT));
      && Full(limit, b) && Ordered(b, t) && Permits(limit, b, t) != 0 && !InRange(limit, b, t)
      && Run(limit, b, [t] + Burst(t, Rate(limit)))
  {
    hide TimevalDiff, Run;
    var b, start, p := Initial(limit, Timeval(0, 0)), Timeval(0, 0), Period(limit);
    var t := Later(start, p * INT_LIMIT);
    SameTime(t, AtMicros(1000 * (p * INT_LIMIT)));
    ExactDiff(start, p * INT_LIMIT);
    Unique(p, INT_LIMIT, 0);
    assert Supply(limit, b, t) == limit + INT_LIMIT;
    WrapOf(limit + INT_LIMIT);
    OverlongIdle(limit, b, t);
  }

  /** A run, its first `k` requests followed by `n` more at the instant of the last of them. */
  function Crowd(times: seq<Timeval>, k: nat, n: nat): seq<Timeval>
    requires 0 < k <= |times|
  {
    times[..k] + Burst(times[k - 1], n)
  }

  /** Where the supply was always in range, such a crowd meets the bound if it is admitted. */
  lemma {:induction false} CrowdGood(limit: int, b: Bucket, times: seq<Timeval>, k: nat, n: nat)
    requires Good(limit, b, times) && 0 < k <= |times| && Run(limit, b, Crowd(times, k, n))
    ensures Good(limit, b, Crowd(times, k, n))
    decreases k
  {
    hide Supply, Permits, Take;
    GoodStep(limit, b, times);
    var t, after, rest := times[0], Take(limit, b, times[0]), Crowd(times, k, n)[1..];
    TakeTime(limit, b, t);
    if k == 1 {
      assert rest == Burst(t, n);
      CrowdAtOnce(limit, after, n);
    } else {
      assert rest == Crowd(times[1..], k - 1, n);
      CrowdGood(limit, after, times[1..], k - 1, n);
    }
  }

  lemma {:induction false} CrowdAtOnce(limit: int, b: Bucket, n: nat)
    requires Full(limit, b) && Run(limit, b, Burst(b.ts, n))
    ensures Good(limit, b, Burst(b.ts, n))
    decreases n
  {
    hide Permits, Take, Period, TimevalDiff;
    if n > 0 {
      SupplyAtOnce(limit, b.tokens, b.ts);
      TakeKeepsRange(limit, b, b.ts);
      TakeTime(limit, b, b.ts);
      assert Burst(b.ts, n)[1..] == Burst(b.ts, n - 1);
      CrowdAtOnce(limit, Take(limit, b, b.ts), n - 1);
    }
  }

  /** The first request out of range, and the crowd that follows it. */
  lemma {:induction false} CrowdTooBig(limit: int, b: Bucket, times: seq<Timeval>) returns (k: nat)
    requires Full(limit, b) && Run(limit, b, times) && !NeverOverflows(limit, b, times)
    ensures 0 < k <= |times| && Run(limit, b, Crowd(times, k, Rate(limit)))
    decreases times
  {
    hide Supply, Permits, Take, InRange;
    var t, m := times[0], Rate(limit);
    TakeKeepsRange(limit, b, t);
    if !InRange(limit, b, t) {
      OverlongIdle(limit, b, t);
      assert times[..1] == [t];
      return 1;
    }
    k := CrowdTooBig(limit, Take(limit, b, t), times[1..]);
    RunStep(limit, b, t, Crowd(times[1..], k, m));
    assert Crowd(times, k + 1, m) == [t] + Crowd(times[1..], k, m);
    k := k + 1;
  }

  lemma CrowdUnbounded(limit: int, times: seq<Timeval>, k: nat)
    requires 0 <= limit <= 1000 && 0 < k <= |times|
    ensures !Bounded(limit, Crowd(times, k, Rate(limit)))
  {
    hide Period;
    var m, crowd := Rate(limit), Crowd(times, k, Rate(limit));
    var i, j := k - 1, k - 1 + m;
    assert crowd[i] == crowd[j] == times[k - 1];
    assert Allowance(crowd[i], crowd[j]) == 0;
    assert 0 / (1000 * Period(limit)) == 0;
    assert j - i + 1 == m + 1;
  }

  /**
   * The exact condition of the rate bound.  The supply of a run is always in range if and only if the bound holds
   * for it however many requests crowd behind any of its requests.
   */
  lemma RateBoundExactly(limit: int, b: Bucket, times: seq<Timeval>)
    requires Full(limit, b) && Run(limit, b, times)
    ensures NeverOverflows(limit, b, times) <==>
      forall k: nat, n: nat | 0 < k <= |times| && Run(limit, b, Crowd(times, k, n)) ::
        Bounded(limit, Crowd(times, k, n))
    ensures NeverOverflows(limit, b, times) ==> Bounded(limit, times)
  {
    hide Run, NeverOverflows, Bounded, Crowd;
    if NeverOverflows(limit, b, times) {
      GoodIsBounded(limit, b, times);
      forall k: nat, n: nat | 0 < k <= |times| && Run(limit, b, Crowd(times, k, n))
        ensures Bounded(limit, Crowd(times, k, n))
      {
        CrowdGood(limit, b, times, k, n);
        GoodIsBounded(limit, b, Crowd(times, k, n));
      }
    } else {
      var k := CrowdTooBig(limit, b, times);
      CrowdUnbounded(limit, times, k);
    }
  }

  lemma GoodIsBounded(limit: int, b: Bucket, times: seq<Timeval>)
    requires Good(limit, b, times)
    ensures Bounded(limit, times)
  {
    hide Run, NeverOverflows, Period, Allowance;
    forall i, j | 0 <= i <= j < |times|
      ensures var m := if limit == 0 then 1000 else limit;
        j - i + 1 <= m + Allowance(times[i], times[j]) / (1000 * (1000 / m))
    {
      RateBound(limit, b, times, i, j);
    }
  }
}
