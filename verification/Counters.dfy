/** The state one user's requests share, and the loop that waits for a token. */
module RequestCounters {
  import opened Bytes
  import opened RateLimiter

  /** A clock that never runs backwards; `lag` is what passes before each reading, on top of any sleep. */
  class Clock {
    var now: nat
    var readings: nat
    const lag: nat -> nat

    constructor (now: nat, lag: nat -> nat)
      ensures this.now == now && readings == 0 && this.lag == lag
    {
      this.now, this.readings, this.lag := now, 0, lag;
    }

    /** `gettimeofday` */
    method GetTime() returns (t: Timeval)
      modifies this
      ensures readings == old(readings) + 1 && now == old(now) + lag(old(readings))
      ensures Proper(t) && t == AtMicros(now)
    {
      now := now + lag(readings);
      readings := readings + 1;
      t := AtMicros(now);
    }

    /** `pg_usleep`: at least as long as asked, not at all if that is not positive. */
    method Sleep(us: int)
      modifies this`now
      ensures now == old(now) + (if us > 0 then us else 0)
    {
      if us > 0 { now := now + us; }
    }

    /** The clock never stands still for good, and between readings passes no more than 2^31 milliseconds. */
    ghost predicate Ticks()
    {
      (forall k: nat :: lag(k) <= 1000 * INT_LIMIT) && forall k: nat :: MovesFrom(k)
    }

    ghost predicate MovesFrom(k: nat) {
      exists m: nat | k <= m :: lag(m) >= 1
    }

    /** A reading, this one or a later one, before which the clock moves. */
    lemma NextTick(k: nat) returns (m: nat)
      requires Ticks()
      ensures k <= m && lag(m) >= 1
    {
      assert MovesFrom(k);
      m :| k <= m && lag(m) >= 1;
    }

    ghost function FirstReading(): nat
      reads this
    {
      now + lag(readings)
    }

    /** No reading of the loop comes later than this: it sleeps at most a second. */
    ghost function LatestReading(): nat
      reads this
    {
      now + lag(readings) + SECOND + lag(readings + 1)
    }
  }

  /** What the server says about its own limits. */
  datatype RateInfo = RateInfo(limit: int, remaining: int, reset: int)

  /** The bucket behind a run. */
  ghost function After(limit: int, b: Bucket, times: seq<Timeval>): Bucket
    requires limit <= 1000
    decreases times
  {
    if times == [] then b else After(limit, Take(limit, b, times[0]), times[1..])
  }

  lemma {:induction false} RunAppend(limit: int, b: Bucket, times: seq<Timeval>, t: Timeval)
    requires limit <= 1000 && Run(limit, b, times)
    requires Ordered(After(limit, b, times), t) && Permits(limit, After(limit, b, times), t) != 0
    ensures Run(limit, b, times + [t]) && After(limit, b, times + [t]) == Take(limit, After(limit, b, times), t)
    ensures NeverOverflows(limit, b, times + [t]) <==>
      NeverOverflows(limit, b, times) && InRange(limit, After(limit, b, times), t)
    decreases times
  {
    hide Supply, Permits, Take, Ordered, InRange;
    if times == [] {
      assert [] + [t] == [t] && [t][1..] == [];
    } else {
      RunAppend(limit, Take(limit, b, times[0]), times[1..], t);
      assert (times + [t])[1..] == times[1..] + [t];
    }
  }

  lemma {:induction false} AfterIsFull(limit: int, b: Bucket, times: seq<Timeval>)
    requires Good(limit, b, times)
    ensures Full(limit, After(limit, b, times))
    decreases times
  {
    if times != [] {
      GoodStep(limit, b, times);
      AfterIsFull(limit, Take(limit, b, times[0]), times[1..]);
    }
  }

  lemma SupplyMonotone(limit: int, b: Bucket, t: Timeval, later: Timeval)
    requires limit <= 1000 && Ordered(b, t) && Proper(later) && Micros(t) <= Micros(later)
    ensures Supply(limit, b, t) <= Supply(limit, b, later)
  {
    hide TimevalDiff, Period;
    DiffAtMost(t, b.ts);
    DiffMonotone(t, later, b.ts);
    DivideMonotone(TimevalDiff(t, b.ts), TimevalDiff(later, b.ts), Period(limit));
  }

  lemma DiffClose(end: Timeval, start: Timeval)
    requires Proper(end) && Proper(start)
    ensures -1000 < 1000 * TimevalDiff(end, start) - (Micros(end) - Micros(start)) < 1000
  {
  }

  /** A quotient grows by no more than its dividend. */
  lemma QuotientGrowth(a: int, b: int, p: int)
    requires 0 <= a <= b && 1 <= p
    ensures 0 <= Quotient(b, p) - Quotient(a, p) <= b - a
    ensures Quotient(a, p) == Quotient(b, p) ==> b - a < p
  {
    DivideMonotone(a, b, p);
    Steps(a / p, a % p, b / p, b % p, p);
  }

  lemma Steps(q: int, x: int, r: int, y: int, p: int)
    requires q <= r && 0 <= x < p && 0 <= y < p
    ensures r - q <= (p * r + y) - (p * q + x) || r == q
    ensures q == r ==> (p * r + y) - (p * q + x) < p
  {
    var n := r - q;
    Scale(p, 0, n);
    assert p * r == p * q + p * n;
    if n >= 1 { Corner(p, n); }
  }

  lemma Corner(p: int, n: int)
    requires p >= 1 && n >= 1
    ensures p * n >= n + p - 1
  {
    var a, b := p - 1, n - 1;
    Scale(a, 0, b);
    assert p * n == a * b + a + b + 1;
  }

  /** Between two readings of a ticking clock the supply cannot come round by 2^32. */
  lemma NoLap(limit: int, b: Bucket, t: Timeval, later: Timeval)
    requires limit <= 1000 && Ordered(b, t) && Proper(later)
    requires Micros(t) <= Micros(later) <= Micros(t) + SECOND + 1000 * INT_LIMIT
    ensures 0 <= Supply(limit, b, later) - Supply(limit, b, t) < 2 * INT_LIMIT
  {
    hide TimevalDiff, Period, Quotient;
    DiffClose(t, b.ts);
    DiffClose(later, b.ts);
    DiffAtMost(t, b.ts);
    DiffMonotone(t, later, b.ts);
    QuotientGrowth(TimevalDiff(t, b.ts), TimevalDiff(later, b.ts), Period(limit));
  }

  /** Two readings without a permit and without a lap between them lie within a period. */
  lemma SamePeriod(limit: int, b: Bucket, t: Timeval, later: Timeval)
    requires limit <= 1000 && Ordered(b, t) && Proper(later) && Micros(t) <= Micros(later)
    requires Permits(limit, b, t) == 0 && Permits(limit, b, later) == 0
    requires 0 <= Supply(limit, b, later) - Supply(limit, b, t) < 2 * INT_LIMIT
    ensures Supply(limit, b, later) == Supply(limit, b, t)
    ensures Micros(later) < Micros(t) + 1000 * (Period(limit) + 2)
  {
    hide TimevalDiff, Period, Quotient, Wrap32;
    WrapOf(Supply(limit, b, t));
    WrapOf(Supply(limit, b, later));
    DiffClose(t, b.ts);
    DiffClose(later, b.ts);
    DiffAtMost(t, b.ts);
    DiffMonotone(t, later, b.ts);
    QuotientGrowth(TimevalDiff(t, b.ts), TimevalDiff(later, b.ts), Period(limit));
  }

  class Counters {
    var calls: int
    var successCalls: int
    var totalTime: int
    var rateInfo: Option<RateInfo>
    var ts: Timeval
    var tokens: int

    ghost var start: Bucket
    ghost var history: seq<Timeval>

    ghost function State(): Bucket
      reads `tokens, `ts
    {
      Bucket(tokens, ts)
    }

    /** The bucket is the one the admitted requests have led to. */
    ghost predicate Reached(limit: int)
      reads `tokens, `ts, `start, `history
    {
      Full(limit, start) && Run(limit, start, history) && State() == After(limit, start, history)
    }

    ghost predicate Valid(limit: int)
      reads this
    {
      Reached(limit) && calls == |history|
    }

    /** No request has overflowed the permits. */
    ghost predicate Healthy(limit: int)
      requires limit <= 1000
      reads `start, `history
    {
      NeverOverflows(limit, start, history)
    }

    /** However late the loop reads the clock, the permits will fit an `int`. */
    ghost predicate Brief(limit: int, clock: Clock)
      requires limit <= 1000
      reads `tokens, `ts, clock
    {
      Full(limit, State()) && Supply(limit, State(), AtMicros(clock.LatestReading())) < INT_LIMIT
    }

    /** The new entry of `ocgeoGetCounters`. */
    constructor (limit: int, clock: Clock)
      requires 0 <= limit <= 1000
      modifies clock
      ensures Valid(limit) && Healthy(limit) && history == [] && start == State()
      ensures tokens == limit && ts == AtMicros(clock.now) && State() == Initial(limit, AtMicros(clock.now))
      ensures clock.now == old(clock.FirstReading())
      ensures successCalls == 0 && totalTime == 0 && rateInfo == None
    {
      calls, successCalls, totalTime, rateInfo := 0, 0, 0, None;
      tokens := limit;
      var t := clock.GetTime();
      ts := t;
      start, history := Bucket(limit, t), [];
    }

    /**
     * The loop: it reads the clock until there is a permit.  After a brief idle gap it sleeps at most
     * once, on any clock that does not run backwards; after longer ones the delay may be negative, and it
     * ends because the clock does not stand still for good.
     */
    method AwaitPermit(limit: int, clock: Clock) returns (permits: int, startTime: Timeval)
      requires 0 <= limit <= 1000 && Proper(ts) && Micros(ts) <= clock.now
      requires Brief(limit, clock) || clock.Ticks()
      modifies clock
      ensures Proper(startTime) && Micros(startTime) == clock.now && old(clock.now) <= clock.now
      ensures permits == Permits(limit, State(), startTime) != 0
      ensures Permits(limit, State(), AtMicros(old(clock.FirstReading()))) != 0 ==>
        startTime == AtMicros(old(clock.FirstReading())) && clock.readings == old(clock.readings) + 1
      ensures old(Brief(limit, clock)) ==>
        && permits == Supply(limit, State(), startTime) && 1 <= permits < INT_LIMIT
        && Waited(limit, State(), AtMicros(old(clock.FirstReading())), old(clock.lag(clock.readings + 1)), startTime)
        && clock.readings == old(clock.readings) + (if startTime == AtMicros(old(clock.FirstReading())) then 1 else 2)
    {
      hide Supply, TimevalDiff, Period, Permits, Wrap32;
      ghost var b, latest, lag := State(), AtMicros(clock.LatestReading()), clock.lag(clock.readings + 1);
      ghost var brief := Brief(limit, clock);
      var period := Period(limit);
      Configured(limit);
      startTime := clock.GetTime();
      ghost var first, slept, tick: nat := startTime, false, 0;
      if !brief { tick := clock.NextTick(clock.readings); }
      SupplyMonotone(limit, b, first, latest);
      while true
        invariant State() == b && Ordered(b, first) && Proper(startTime) && Micros(startTime) == clock.now
        invariant Micros(first) <= Micros(startTime)
        invariant 0 <= Supply(limit, b, startTime) - Supply(limit, b, first) < 2 * INT_LIMIT
        invariant !slept ==> startTime == first && clock.readings == old(clock.readings) + 1
        invariant slept ==> Permits(limit, b, first) == 0 && (brief ==> Micros(first) < Micros(startTime))
        invariant !brief ==> clock.readings <= tick && clock.lag(tick) >= 1
        invariant brief ==> Full(limit, b) && Supply(limit, b, startTime) < INT_LIMIT
        invariant brief && slept ==> clock.readings == old(clock.readings) + 2 && Permits(limit, b, startTime) >= 1
        invariant brief && slept ==>
          Micros(startTime) == Micros(first) + 1000 * (period - TimevalDiff(first, b.ts)) + lag
        decreases Micros(first) + 1000 * (period + 2) - Micros(startTime), tick + 1 - clock.readings
      {
        var ival := TimevalDiff(startTime, ts);
        permits := Wrap32(tokens + Quotient(ival, period));
        PermitsAre(limit, b, startTime);
        if permits == 0 {
          SamePeriod(limit, b, first, startTime);
          var delay := period - ival;
          ghost var before := startTime;
          DelayBound(limit, b, before);
          if brief { RefusedMeans(limit, b, before); }
          clock.Sleep(delay * 1000);
          startTime := clock.GetTime();
          if brief {
            SupplyMonotone(limit, b, startTime, latest);
            SupplyMonotone(limit, b, first, startTime);
            SupplyFacts(limit, b, first);
            SleepsOnce(limit, b, first, startTime);
          } else {
            NoLap(limit, b, before, startTime);
            if Micros(before) < Micros(startTime) { tick := clock.NextTick(clock.readings); }
          }
          slept := true;
        } else {
          if brief {
            RefusedMeans(limit, b, startTime);
            SupplyFacts(limit, b, startTime);
          }
          break;
        }
      }
    }

    /** The wait and the token it takes. */
    method Admit(limit: int, clock: Clock)
      requires Reached(limit) && Proper(ts) && Micros(ts) <= clock.now
      requires Brief(limit, clock) || clock.Ticks()
      modifies `tokens, `ts, `history, clock
      ensures Reached(limit) && history == old(history) + [ts]
      ensures Permits(limit, old(State()), ts) != 0 && State() == Take(limit, old(State()), ts)
      ensures Healthy(limit) <==> old(Healthy(limit)) && InRange(limit, old(State()), ts)
      ensures Permits(limit, old(State()), AtMicros(old(clock.FirstReading()))) != 0 ==>
        ts == AtMicros(old(clock.FirstReading()))
      ensures old(Brief(limit, clock)) ==>
        && InRange(limit, old(State()), ts)
        && Waited(limit, old(State()), AtMicros(old(clock.FirstReading())), old(clock.lag(clock.readings + 1)), ts)
        && clock.readings == old(clock.readings) + (if ts == AtMicros(old(clock.FirstReading())) then 1 else 2)
      ensures Proper(ts) && Micros(ts) == clock.now
    {
      hide Run, NeverOverflows, After, Supply, TimevalDiff, Period, Permits, Waited, Take, Counters.Brief;
      var permits, startTime := AwaitPermit(limit, clock);
      TakeIs(limit, State(), startTime);
      RunAppend(limit, start, history, startTime);
      history := history + [startTime];
      tokens, ts := Min(Rate(limit), permits) - 1, startTime;
    }

    /**
     * `submitRequestWithRateLimiter`; `answer` is what forwarding the request brings back, nothing when it
     * fails.
     */
    method Submit(limit: int, clock: Clock, answer: Option<RateInfo>) returns (ok: bool)
      requires Valid(limit) && Proper(ts) && Micros(ts) <= clock.now
      requires Brief(limit, clock) || clock.Ticks()
      modifies this, clock
      ensures Valid(limit) && start == old(start) && history == old(history) + [ts]
      ensures Permits(limit, old(State()), ts) != 0 && State() == Take(limit, old(State()), ts)
      ensures Healthy(limit) <==> old(Healthy(limit)) && InRange(limit, old(State()), ts)
      ensures Healthy(limit) ==> 0 <= tokens < (if limit == 0 then 1000 else limit)
      ensures Permits(limit, old(State()), AtMicros(old(clock.FirstReading()))) != 0 ==>
        ts == AtMicros(old(clock.FirstReading()))
      ensures old(Brief(limit, clock)) ==>
        && InRange(limit, old(State()), ts)
        && Waited(limit, old(State()), AtMicros(old(clock.FirstReading())), old(clock.lag(clock.readings + 1)), ts)
        && clock.readings == old(clock.readings) + (if ts == AtMicros(old(clock.FirstReading())) then 2 else 3)
      ensures Proper(ts) && Micros(ts) <= clock.now
      ensures totalTime == old(totalTime) + TimevalDiff(AtMicros(clock.now), ts)
      ensures ok <==> answer.Some?
      ensures calls == old(calls) + 1 && successCalls == old(successCalls) + (if ok then 1 else 0)
      ensures rateInfo == (if ok then answer else old(rateInfo))
    {
      hide Run, NeverOverflows, After, Supply, TimevalDiff, Period, Permits, Waited, Take, InRange, Counters.Brief;
      hide Counters.Reached;
      ghost var b := State();
      Admit(limit, clock);
      HealthyTokens(limit, b);
      var endTime := clock.GetTime();
      calls, totalTime := calls + 1, totalTime + TimevalDiff(endTime, ts);
      ok := answer.Some?;
      if ok {
        successCalls, rateInfo := successCalls + 1, answer;
      }
    }

    lemma HealthyTokens(limit: int, b: Bucket)
      requires Reached(limit) && State() == Take(limit, b, ts)
      ensures Healthy(limit) ==> 0 <= tokens < (if limit == 0 then 1000 else limit)
    {
      hide Run, NeverOverflows, After, Permits;
      if Healthy(limit) { AfterIsFull(limit, start, history); }
    }
  }

  /** The request goes out at once, or behind one sleep to the end of the period and what the clock adds. */
  ghost predicate Waited(limit: int, b: Bucket, first: Timeval, lag: nat, t: Timeval)
    requires 0 <= limit <= 1000
  {
    if Permits(limit, b, first) != 0 then t == first
    else
      var period := 1000 / (if limit == 0 then 1000 else limit);
      Micros(t) == Micros(first) + 1000 * (period - TimevalDiff(first, b.ts)) + lag
  }

  lemma DelayBound(limit: int, b: Bucket, t: Timeval)
    requires limit <= 1000 && Ordered(b, t)
    ensures Period(limit) - TimevalDiff(t, b.ts) <= 1000
  {
    hide TimevalDiff, Period;
    DiffAtMost(t, b.ts);
    PeriodBound(limit);
  }

  lemma TakeIs(limit: int, b: Bucket, t: Timeval)
    requires limit <= 1000
    ensures Take(limit, b, t) == Bucket(Min(Rate(limit), Permits(limit, b, t)) - 1, t)
  {
  }

  lemma PermitsAre(limit: int, b: Bucket, t: Timeval)
    requires limit <= 1000
    ensures Permits(limit, b, t) == Wrap32(b.tokens + Quotient(TimevalDiff(t, b.ts), Period(limit)))
  {
  }

  /** The rate bound for the requests a user has made, and, where permits have overflowed, its loss. */
  lemma HistoryBound(c: Counters, limit: int)
    requires c.Valid(limit)
    ensures c.Healthy(limit) ==> Bounded(limit, c.history)
    ensures !c.Healthy(limit) ==>
      exists k: nat | 0 < k <= |c.history| ::
        Run(limit, c.start, Crowd(c.history, k, Rate(limit))) && !Bounded(limit, Crowd(c.history, k, Rate(limit)))
  {
    hide Run, NeverOverflows, Bounded, Crowd;
    RateBoundExactly(limit, c.start, c.history);
    if !c.Healthy(limit) {
      var k := CrowdTooBig(limit, c.start, c.history);
      CrowdUnbounded(limit, c.history, k);
    }
  }
}
