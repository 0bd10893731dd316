/** The token bucket, over the atomic steps that tasks interleave: `await` releases control only between them. */
module TokenBucket {
  const MIN_RATE := 0.5
  const MAX_RATE := 20.0

  datatype Bucket = Bucket(rate: real, capacity: real, tokens: real, lastRefill: real)

  function Min(a: real, b: real): real { if a <= b then a else b }

  function Max(a: real, b: real): real { if a >= b then a else b }

  function Clamp(rate: real): (r: real)
    ensures MIN_RATE <= r <= MAX_RATE
  {
    Max(MIN_RATE, Min(MAX_RATE, rate))
  }

  /** What every step keeps. */
  predicate Valid(b: Bucket) {
    1.0 <= b.capacity && 0.0 <= b.tokens <= b.capacity && MIN_RATE <= b.rate <= MAX_RATE
  }

  /** What a rate adds in some time. */
  function Gain(elapsed: real, rate: real): real { elapsed * rate }

  function Refilled(b: Bucket, now: real): Bucket {
    var elapsed := now - b.lastRefill;
    if elapsed > 0.0 then b.(tokens := Min(b.capacity, b.tokens + Gain(elapsed, b.rate)), lastRefill := now) else b
  }

  predicate Grants(b: Bucket, now: real) {
    Refilled(b, now).tokens >= 1.0
  }

  /** One locked section of `acquire`. */
  function AfterRound(b: Bucket, now: real): Bucket {
    var r := Refilled(b, now);
    if r.tokens >= 1.0 then r.(tokens := r.tokens - 1.0) else r
  }

  /** How long a caller sleeps after a round that granted nothing. */
  function SleepTime(r: Bucket): real
    requires r.rate > 0.0
  {
    Max(0.01, (1.0 - r.tokens) / r.rate)
  }

  /** The atomic steps: a locked section of `acquire` by anyone, and the two rate changes. */
  datatype Step = Round(now: real) | Halve | Reset(rate: real)

  function After(b: Bucket, s: Step): Bucket {
    match s
    case Round(now) => AfterRound(b, now)
    case Halve => b.(rate := Max(MIN_RATE, b.rate / 2.0))
    case Reset(rate) => b.(rate := Clamp(rate))
  }

  // ----- The class -----

  /** What happens while a caller sleeps: how late it wakes, and the rate it then finds. */
  datatype Wake = Wake(late: real, rate: real)

  ghost predicate Plausible(wakes: nat -> Wake) {
    forall k :: 0.0 <= wakes(k).late && MIN_RATE <= wakes(k).rate <= MAX_RATE
  }

  class TokenBucketRateLimiter {
    var rate: real
    var capacity: real
    var tokens: real
    var lastRefill: real

    ghost function Abstract(): Bucket
      reads this
    {
      Bucket(rate, capacity, tokens, lastRefill)
    }

    constructor (rate: real, burst: real, now: real)
      ensures Valid(Abstract())
      ensures Abstract() == Bucket(Clamp(rate), Max(1.0, burst), Max(1.0, burst), now)
    {
      this.rate, capacity, tokens, lastRefill := Clamp(rate), Max(1.0, burst), Max(1.0, burst), now;
    }

    method Refill(now: real)
      requires Valid(Abstract())
      modifies `tokens, `lastRefill
      ensures Abstract() == Refilled(old(Abstract()), now) && Valid(Abstract())
    {
      RefillKeepsValid(Abstract(), now);
      var elapsed := now - lastRefill;
      if elapsed > 0.0 {
        tokens, lastRefill := Min(capacity, tokens + elapsed * rate), now;
      }
    }

    /** The locked section; a caller that gets nothing is told how long to sleep. */
    method TryAcquire(now: real) returns (granted: bool, sleep: real)
      requires Valid(Abstract())
      modifies `tokens, `lastRefill
      ensures granted == Grants(old(Abstract()), now)
      ensures Abstract() == AfterRound(old(Abstract()), now) && Valid(Abstract())
      ensures !granted ==> sleep == SleepTime(Abstract())
    {
      Refill(now);
      if tokens >= 1.0 {
        tokens := tokens - 1.0;
        return true, 0.0;
      }
      granted, sleep := false, Max(0.01, (1.0 - tokens) / rate);
    }

    /**
     * `acquire` by a caller that nobody else competes with, from the clock it starts at. It
     * is through after at most 200 sleeps whatever happens to the rate, and after at most
     * one if nothing does.
     */
    method Acquire(start: real, wakes: nat -> Wake) returns (sleeps: nat)
      requires Valid(Abstract()) && lastRefill <= start && Plausible(wakes)
      modifies `rate, `tokens, `lastRefill
      ensures Valid(Abstract())
      ensures sleeps <= 200
      ensures (forall k :: wakes(k).rate == old(rate)) ==> sleeps <= 1
      ensures Grants(old(Abstract()), start) <==> sleeps == 0
    {
      sleeps := 0;
      var now := start;
      RefillKeepsValid(Abstract(), now);
      ghost var steady := forall k :: wakes(k).rate == old(rate);
      hide Gain, SleepTime, Refilled;
      while true
        invariant Valid(Abstract()) && lastRefill <= now && sleeps <= 200
        invariant Refilled(Abstract(), now).tokens >= Min(1.0, 0.005 * sleeps as real)
        invariant sleeps == 0 ==> Abstract() == old(Abstract()) && now == start
        invariant sleeps > 0 ==> !Grants(old(Abstract()), start)
        invariant steady ==> rate == old(rate) && sleeps <= 1 && (sleeps > 0 ==> Grants(Abstract(), now))
        decreases 200 - sleeps
      {
        ghost var before := Abstract();
        var granted, sleep := TryAcquire(now);
        if granted {
          return;
        }
        FailedRoundGains(before, now, wakes(sleeps));
        assert 0.005 * (sleeps + 1) as real == 0.005 * sleeps as real + 0.005;
        now := now + sleep + wakes(sleeps).late;
        rate := wakes(sleeps).rate;
        sleeps := sleeps + 1;
      }
    }

    method HalveRate()
      requires Valid(Abstract())
      modifies `rate
      ensures Abstract() == After(old(Abstract()), Halve) && Valid(Abstract())
    {
      rate := Max(MIN_RATE, rate / 2.0);
    }

    method ResetRate(newRate: real)
      requires Valid(Abstract())
      modifies `rate
      ensures Abstract() == After(old(Abstract()), Reset(newRate)) && Valid(Abstract())
    {
      rate := Clamp(newRate);
    }
  }

  // ----- Single steps -----

  lemma NonNegative(x: real, y: real)
    requires 0.0 <= x && 0.0 <= y
    ensures 0.0 <= x * y
  {
  }

  lemma GainBounds(t: real, r: real, s: real)
    requires 0.0 <= t && 0.0 <= r <= s
    ensures 0.0 <= Gain(t, r) <= Gain(t, s)
  {
    NonNegative(t, r);
    NonNegative(t, s - r);
    assert t * (s - r) == t * s - t * r;
  }

  lemma LongerGainsMore(t: real, u: real, r: real)
    requires 0.0 <= t <= u && 0.0 <= r
    ensures Gain(t, r) <= Gain(u, r)
  {
    NonNegative(u - t, r);
    assert (u - t) * r == u * r - t * r;
  }

  lemma GainAdds(t: real, u: real, r: real)
    ensures Gain(t + u, r) == Gain(t, r) + Gain(u, r)
  {
  }

  lemma RefillKeepsValid(b: Bucket, now: real)
    requires Valid(b)
    ensures Valid(Refilled(b, now)) && Refilled(b, now).tokens >= b.tokens
    ensures b.lastRefill <= now ==>
      && Refilled(b, now).lastRefill == now
      && Refilled(b, now).tokens == Min(b.capacity, b.tokens + Gain(now - b.lastRefill, b.rate))
  {
    if now > b.lastRefill {
      GainBounds(now - b.lastRefill, b.rate, MAX_RATE);
    } else {
      assert Gain(0.0, b.rate) == 0.0;
    }
  }

  lemma StepKeepsValid(b: Bucket, s: Step)
    requires Valid(b)
    ensures Valid(After(b, s)) && After(b, s).capacity == b.capacity
  {
    if s.Round? {
      RefillKeepsValid(b, s.now);
    }
  }

  /** The sleep asked for is worth the missing part of a token at the present rate, and 0.005 at the lowest. */
  lemma SleepIsEnough(r: Bucket)
    requires r.rate > 0.0
    ensures SleepTime(r) >= 0.01 && Gain(SleepTime(r), r.rate) >= 1.0 - r.tokens
  {
    var t := (1.0 - r.tokens) / r.rate;
    assert Gain(t, r.rate) == 1.0 - r.tokens;
    LongerGainsMore(if t < 0.0 then 0.0 else t, SleepTime(r), r.rate);
    if t < 0.0 {
      NonNegative(-t, r.rate);
    }
  }

  /** A round that grants nothing is followed by a sleep worth a token at an unchanged rate, and 0.005 at any rate. */
  lemma FailedRoundGains(b: Bucket, now: real, w: Wake)
    requires Valid(b) && b.lastRefill <= now && !Grants(b, now)
    requires 0.0 <= w.late && MIN_RATE <= w.rate <= MAX_RATE
    ensures var r := AfterRound(b, now); var wake := now + SleepTime(r) + w.late;
      && r == Refilled(b, now) && r.lastRefill == now && wake > now
      && Refilled(r.(rate := w.rate), wake).tokens >= Min(1.0, r.tokens + 0.005)
      && (w.rate == b.rate ==> Grants(r.(rate := w.rate), wake))
  {
    RefillKeepsValid(b, now);
    var r := AfterRound(b, now);
    var pause := SleepTime(r) + w.late;
    var woken := r.(rate := w.rate);
    SleepIsEnough(r);
    assert Gain(0.01, MIN_RATE) == 0.005;
    GainBounds(0.01, MIN_RATE, w.rate);
    LongerGainsMore(0.01, pause, w.rate);
    LongerGainsMore(SleepTime(r), pause, w.rate);
    hide Gain, SleepTime;
    RefillKeepsValid(woken, now + pause);
    assert now + pause - woken.lastRefill == pause;
  }

  // ----- Whole runs -----

  /** The clock only moves forward, and never lies behind the last refill. */
  predicate Monotone(clock: real, steps: seq<Step>)
    decreases |steps|
  {
    steps == [] ||
    (if steps[0].Round? then clock <= steps[0].now && Monotone(steps[0].now, steps[1..])
     else Monotone(clock, steps[1..]))
  }

  function Run(b: Bucket, steps: seq<Step>): Bucket
    decreases |steps|
  {
    if steps == [] then b else Run(After(b, steps[0]), steps[1..])
  }

  /** How many tokens a run grants at clock values from `from` to `to`. */
  function Granted(b: Bucket, steps: seq<Step>, from: real, to: real): nat
    decreases |steps|
  {
    if steps == [] then 0
    else
      var now := if steps[0].Round? && Grants(b, steps[0].now) && from <= steps[0].now <= to then 1 else 0;
      now + Granted(After(b, steps[0]), steps[1..], from, to)
  }

  /** The rate never exceeds `r` in the run. */
  predicate RateAtMost(b: Bucket, steps: seq<Step>, r: real)
    decreases |steps|
  {
    b.rate <= r && (steps == [] || RateAtMost(After(b, steps[0]), steps[1..], r))
  }

  /** Every state of every run keeps its tokens within the capacity and its rate within the limits. */
  lemma {:induction false} RunKeepsValid(b: Bucket, steps: seq<Step>)
    requires Valid(b)
    ensures Valid(Run(b, steps)) && RateAtMost(b, steps, MAX_RATE)
    decreases |steps|
  {
    if steps != [] {
      StepKeepsValid(b, steps[0]);
      RunKeepsValid(After(b, steps[0]), steps[1..]);
    }
  }

  lemma {:induction false} NothingAfter(b: Bucket, steps: seq<Step>, clock: real, from: real, to: real)
    requires Monotone(clock, steps) && to < clock
    ensures Granted(b, steps, from, to) == 0
    decreases |steps|
  {
    if steps != [] {
      NothingAfter(After(b, steps[0]), steps[1..], if steps[0].Round? then steps[0].now else clock, from, to);
    }
  }

  /** From any state on, no more is granted than there are tokens and the rate can add. */
  lemma {:induction false} GrantedFromNow(b: Bucket, steps: seq<Step>, from: real, to: real, r: real)
    requires Valid(b) && Monotone(b.lastRefill, steps) && RateAtMost(b, steps, r) && b.lastRefill <= to
    ensures Granted(b, steps, from, to) as real <= b.tokens + Gain(to - b.lastRefill, r)
    decreases |steps|
  {
    GainBounds(to - b.lastRefill, 0.0, r);
    hide Gain;
    if steps != [] {
      var s, next := steps[0], After(b, steps[0]);
      StepKeepsValid(b, s);
      if s.Round? && to < s.now {
        NothingAfter(next, steps[1..], s.now, from, to);
      } else if s.Round? {
        RefillKeepsValid(b, s.now);
        GainBounds(s.now - b.lastRefill, b.rate, r);
        GrantedFromNow(next, steps[1..], from, to, r);
        GainAdds(to - s.now, s.now - b.lastRefill, r);
        assert to - s.now + (s.now - b.lastRefill) == to - b.lastRefill;
      } else {
        GrantedFromNow(next, steps[1..], from, to, r);
      }
    }
  }

  /** In any window of a run, at most the capacity plus what the highest rate of the run adds in that time. */
  lemma {:induction false} WindowBound(b: Bucket, steps: seq<Step>, from: real, d: real, r: real)
    requires Valid(b) && Monotone(b.lastRefill, steps) && RateAtMost(b, steps, r) && 0.0 <= d
    ensures Granted(b, steps, from, from + d) as real <= b.capacity + r * d
    decreases |steps|
  {
    GainBounds(d, 0.0, r);
    assert Gain(d, r) == r * d;
    if steps != [] {
      var s, next := steps[0], After(b, steps[0]);
      StepKeepsValid(b, s);
      if s.Round? {
        RefillKeepsValid(b, s.now);
        if from <= s.now <= from + d {
          // the bucket refilled at the first round of the window holds at most its capacity
          GrantedFromNow(next, steps[1..], from, from + d, r);
          LongerGainsMore(from + d - s.now, d, r);
        } else {
          WindowBound(next, steps[1..], from, d, r);
        }
      } else {
        WindowBound(next, steps[1..], from, d, r);
      }
    }
  }

  /** The bound that holds of every run: 20 requests a second on top of one burst. */
  lemma RateBound(b: Bucket, steps: seq<Step>, from: real, d: real)
    requires Valid(b) && Monotone(b.lastRefill, steps) && 0.0 <= d
    ensures Granted(b, steps, from, from + d) as real <= b.capacity + 20.0 * d
  {
    RunKeepsValid(b, steps);
    WindowBound(b, steps, from, d, MAX_RATE);
  }

  lemma {:induction false} RateFallsWithoutReset(b: Bucket, steps: seq<Step>, r: real)
    requires Valid(b) && b.rate <= r && forall s :: s in steps ==> !s.Reset?
    ensures RateAtMost(b, steps, r)
    decreases |steps|
  {
    if steps != [] {
      StepKeepsValid(b, steps[0]);
      RateFallsWithoutReset(After(b, steps[0]), steps[1..], r);
    }
  }

  /** As long as nobody resets the rate, however often it is halved, the present rate bounds every window. */
  lemma RateBoundWithoutReset(b: Bucket, steps: seq<Step>, from: real, d: real)
    requires Valid(b) && Monotone(b.lastRefill, steps) && 0.0 <= d
    requires forall s :: s in steps ==> !s.Reset?
    ensures Granted(b, steps, from, from + d) as real <= b.capacity + b.rate * d
  {
    hide Granted, Monotone, RateAtMost;
    RateFallsWithoutReset(b, steps, b.rate);
    WindowBound(b, steps, from, d, b.rate);
  }

  // ----- Tokens are spent one by one -----

  /** That many callers at one moment. */
  function Burst(now: real, k: nat): (steps: seq<Step>)
    ensures |steps| == k && forall s :: s in steps ==> s == Round(now)
  {
    seq(k, _ => Round(now))
  }

  /** Of any number of callers at one moment, as many are granted a token as there are whole tokens. */
  lemma {:induction false} BurstExactly(b: Bucket, now: real, k: nat)
    requires Valid(b) && b.lastRefill <= now
    ensures var whole := Refilled(b, now).tokens.Floor;
      Granted(b, Burst(now, k), now, now) == if k <= whole then k else whole
    decreases k
  {
    RefillKeepsValid(b, now);
    if k > 0 {
      var steps, next := Burst(now, k), AfterRound(b, now);
      StepKeepsValid(b, Round(now));
      assert steps[0] == Round(now) && steps[1..] == Burst(now, k - 1);
      assert next.lastRefill == now && Refilled(next, now) == next;
      BurstExactly(next, now, k - 1);
    }
  }

  /** Every burst up to the capacity passes through a bucket that is full. */
  lemma FullBucketServesBurst(rate: real, burst: real, now: real, k: nat)
    requires k as real <= burst
    ensures Granted(Bucket(Clamp(rate), Max(1.0, burst), Max(1.0, burst), now), Burst(now, k), now, now) == k
  {
    BurstExactly(Bucket(Clamp(rate), Max(1.0, burst), Max(1.0, burst), now), now, k);
  }

  // ----- The books of a run -----

  /** What time adds at a round, before the capacity cuts any off. */
  function Added(b: Bucket, s: Step): real {
    if s.Round? && s.now > b.lastRefill then (s.now - b.lastRefill) * b.rate else 0.0
  }

  /** What the capacity cuts off. */
  function Cut(b: Bucket, s: Step): real {
    if s.Round? then Max(0.0, b.tokens + Added(b, s) - b.capacity) else 0.0
  }

  function Inflow(b: Bucket, steps: seq<Step>): real
    decreases |steps|
  {
    if steps == [] then 0.0 else Added(b, steps[0]) + Inflow(After(b, steps[0]), steps[1..])
  }

  function Spilled(b: Bucket, steps: seq<Step>): real
    decreases |steps|
  {
    if steps == [] then 0.0 else Cut(b, steps[0]) + Spilled(After(b, steps[0]), steps[1..])
  }

  /** No token is lost or made: what was there and came in is there, was granted, or was cut off. */
  lemma {:induction false} Accounting(b: Bucket, steps: seq<Step>, from: real, to: real)
    requires Valid(b) && forall s :: s in steps && s.Round? ==> from <= s.now <= to
    ensures Run(b, steps).tokens + Granted(b, steps, from, to) as real + Spilled(b, steps)
         == b.tokens + Inflow(b, steps)
    decreases |steps|
  {
    if steps != [] {
      StepKeepsValid(b, steps[0]);
      Accounting(After(b, steps[0]), steps[1..], from, to);
      StepAccounts(b, steps[0]);
      hide After, Added, Cut, Grants;
      assert steps[0] in steps;
    }
  }

  lemma StepAccounts(b: Bucket, s: Step)
    requires Valid(b)
    ensures After(b, s).tokens + (if s.Round? && Grants(b, s.now) then 1.0 else 0.0) + Cut(b, s)
         == b.tokens + Added(b, s)
  {
  }

  /** So a caller is refused only when, but for less than one token, all that came in was granted or cut off. */
  lemma RefusedOnlyWhenSpent(b: Bucket, steps: seq<Step>, from: real, to: real)
    requires Valid(b) && forall s :: s in steps && s.Round? ==> from <= s.now <= to
    requires Run(b, steps).lastRefill <= to && !Grants(Run(b, steps), to)
    ensures Granted(b, steps, from, to) as real > b.tokens + Inflow(b, steps) - Spilled(b, steps) - 1.0
  {
    hide Run, Granted, Inflow, Spilled;
    Accounting(b, steps, from, to);
    RunKeepsValid(b, steps);
    RefillKeepsValid(Run(b, steps), to);
  }

  // ----- Sleeps and rates -----

  /** The sleep is no longer than it must be: the shortest of at least 0.01 that brings the missing part of a token. */
  lemma SleepIsLeast(r: Bucket, t: real)
    requires r.rate > 0.0 && t >= 0.01
    ensures t >= SleepTime(r) <==> r.tokens + t * r.rate >= 1.0
  {
    var need := (1.0 - r.tokens) / r.rate;
    assert need * r.rate == 1.0 - r.tokens;
    if t >= need {
      NonNegative(t - need, r.rate);
      assert (t - need) * r.rate == t * r.rate - need * r.rate;
    } else {
      assert (need - t) * r.rate > 0.0 by { PositiveProduct(need - t, r.rate); }
      assert (need - t) * r.rate == need * r.rate - t * r.rate;
    }
  }

  lemma PositiveProduct(x: real, y: real)
    requires 0.0 < x && 0.0 < y
    ensures 0.0 < x * y
  {
  }

  function Power2(k: nat): (p: nat)
    ensures p >= 1
  {
    if k == 0 then 1 else 2 * Power2(k - 1)
  }

  /** Halving the rate again and again divides it by powers of two until it stays at half a request a second. */
  lemma {:induction false} HalvedAgain(b: Bucket, k: nat)
    requires Valid(b)
    ensures var r := Run(b, seq(k, _ => Halve));
      && r.rate == Max(0.5, b.rate / Power2(k) as real)
      && r.tokens == b.tokens && r.capacity == b.capacity && r.lastRefill == b.lastRefill
    decreases k
  {
    var steps := seq(k, _ => Halve);
    if k > 0 {
      var next := After(b, Halve);
      StepKeepsValid(b, Halve);
      assert steps[0] == Halve && steps[1..] == seq(k - 1, _ => Halve);
      HalvedAgain(next, k - 1);
      HalvedTwice(b.rate, Power2(k - 1) as real);
      assert Power2(k) as real == 2.0 * Power2(k - 1) as real;
    }
  }

  lemma HalvedTwice(rate: real, p: real)
    requires 0.5 <= rate && p >= 1.0
    ensures Max(0.5, Max(0.5, rate / 2.0) / p) == Max(0.5, rate / (2.0 * p))
  {
    assert rate / 2.0 / p == rate / (2.0 * p);
    if rate / 2.0 < 0.5 {
      assert 0.5 / p <= 0.5;
      assert rate / (2.0 * p) <= 0.5;
    }
  }

  /** A reset sets the rate between 0.5 and 20 that is nearest to the one asked for. */
  lemma ResetIsNearest(b: Bucket, rate: real, other: real)
    requires 0.5 <= other <= 20.0
    ensures var chosen := After(b, Reset(rate)).rate;
      0.5 <= chosen <= 20.0 && Max(chosen - rate, rate - chosen) <= Max(other - rate, rate - other)
  {
  }
}
