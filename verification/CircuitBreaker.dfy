/** The circuit breaker, with `check_throttle` cut in two at its `await`. */
module CircuitBreaker {
  import opened Prelude
  import TokenBucket

  datatype Circuit = Normal | Throttled | Tripped

  datatype Breaker = Breaker(
    pause: real, serverErrors: nat, timeouts: nat, errorsInThrottled: nat, circuit: Circuit,
    throttledUntil: Option<real>,
    waiting: nat)  // tasks asleep inside check_throttle
  {
    /** `if self.throttled_until`: a clock value of zero counts as unset. */
    predicate UntilSet() {
      throttledUntil.Some? && throttledUntil.value != 0.0
    }
  }

  /** A response: its status code, if any, and whether it was a timeout. */
  datatype Response = Response(status: Option<int>, isTimeout: bool) {
    predicate IsServerError() {
      !isTimeout && status.Some? && status.value != 0 && status.value >= 500
    }

    predicate IsError() {
      isTimeout || IsServerError()
    }
  }

  /** The atomic steps of the tasks that share a breaker. */
  datatype Event =
    | Record(response: Response, now: real)
    | Success(now: real)           // record_success called on its own
    | CheckBegins(now: real)       // check_throttle up to its await, or to its end if it does not wait
    | CheckEnds                    // a waiting check_throttle after its await

  function Start(pause: real): Breaker {
    Breaker(pause, 0, 0, 0, Normal, None, 0)
  }

  function AfterSuccess(b: Breaker, now: real): Breaker {
    var c := b.(serverErrors := 0, timeouts := 0);
    if c.circuit == Throttled && c.UntilSet() && now >= c.throttledUntil.value
    then c.(circuit := Normal, errorsInThrottled := 0)
    else c
  }

  function AfterError(b: Breaker, now: real): Breaker {
    match b.circuit
    case Normal =>
      if b.serverErrors >= 5 || b.timeouts >= 3
      then b.(circuit := Throttled, throttledUntil := Some(now + b.pause), errorsInThrottled := 0)
      else b
    case Throttled =>
      var c := b.(errorsInThrottled := b.errorsInThrottled + 1);
      if c.errorsInThrottled >= 5 then c.(circuit := Tripped) else c
    case Tripped => b
  }

  function AfterRecord(b: Breaker, r: Response, now: real): Breaker {
    if r.isTimeout then AfterError(b.(timeouts := b.timeouts + 1), now)
    else if r.IsServerError() then AfterError(b.(serverErrors := b.serverErrors + 1), now)
    else AfterSuccess(b, now)
  }

  function After(b: Breaker, e: Event): Breaker {
    match e
    case Record(r, now) => AfterRecord(b, r, now)
    case Success(now) => AfterSuccess(b, now)
    case CheckBegins(now) =>
      if b.circuit != Throttled || !b.UntilSet() then b
      else if b.throttledUntil.value - now > 0.0 then b.(waiting := b.waiting + 1)
      else b.(circuit := Normal)
    case CheckEnds =>
      if b.waiting == 0 then b else b.(circuit := Normal, waiting := b.waiting - 1)
  }

  // ----- The class -----

  class CircuitBreaker {
    const pause: real
    var serverErrors: nat
    var timeouts: nat
    var errorsInThrottled: nat
    var circuit: Circuit
    var throttledUntil: Option<real>
    ghost var waiting: nat

    ghost function Abstract(): Breaker
      reads this
    {
      Breaker(pause, serverErrors, timeouts, errorsInThrottled, circuit, throttledUntil, waiting)
    }

    constructor (pause: real)
      ensures Abstract() == Start(pause)
    {
      this.pause := pause;
      serverErrors, timeouts, errorsInThrottled := 0, 0, 0;
      circuit, throttledUntil, waiting := Normal, None, 0;
    }

    method RecordSuccess(now: real)
      modifies this
      ensures Abstract() == After(old(Abstract()), Success(now))
    {
      serverErrors, timeouts := 0, 0;
      if circuit == Throttled {
        if throttledUntil.Some? && throttledUntil.value != 0.0 && now >= throttledUntil.value {
          circuit, errorsInThrottled := Normal, 0;
        }
      }
    }

    method RecordResponse(r: Response, now: real) returns (result: Circuit)
      modifies this
      ensures Abstract() == After(old(Abstract()), Record(r, now)) && result == circuit
    {
      if r.isTimeout {
        timeouts := timeouts + 1;
      } else if r.status.Some? && r.status.value != 0 && r.status.value >= 500 {
        serverErrors := serverErrors + 1;
      } else {
        RecordSuccess(now);
        return circuit;
      }
      if circuit == Normal {
        if serverErrors >= 5 || timeouts >= 3 {
          circuit, throttledUntil, errorsInThrottled := Throttled, Some(now + pause), 0;
        }
      } else if circuit == Throttled {
        errorsInThrottled := errorsInThrottled + 1;
        if errorsInThrottled >= 5 {
          circuit := Tripped;
        }
      }
      return circuit;
    }

    /**
     * `check_throttle` before its `await`: whether to sleep, and for how long. A limiter that is
     * handed in has its rate halved exactly if there is a pause to wait for.
     */
    method BeginCheck(now: real, limiter: TokenBucket.TokenBucketRateLimiter?) returns (sleep: Option<real>)
      requires limiter != null ==> TokenBucket.Valid(limiter.Abstract())
      modifies this, if limiter != null then {limiter} else {}
      ensures Abstract() == After(old(Abstract()), CheckBegins(now))
      ensures sleep.Some? <==> waiting == old(waiting) + 1
      ensures sleep.Some? ==> sleep.value > 0.0 && throttledUntil == Some(now + sleep.value)
      ensures limiter != null && sleep.Some? ==>
        limiter.Abstract() == TokenBucket.After(old(limiter.Abstract()), TokenBucket.Halve)
      ensures limiter != null && sleep.None? ==> limiter.Abstract() == old(limiter.Abstract())
    {
      sleep := None;
      if circuit == Throttled && throttledUntil.Some? && throttledUntil.value != 0.0 {
        var remaining := throttledUntil.value - now;
        if remaining > 0.0 {
          if limiter != null {
            limiter.HalveRate();
          }
          waiting := waiting + 1;
          return Some(remaining);
        }
        circuit := Normal;
      }
    }

    /** `check_throttle` after its `await`. */
    method EndCheck()
      requires waiting > 0
      modifies this
      ensures Abstract() == After(old(Abstract()), CheckEnds)
    {
      circuit := Normal;
      waiting := waiting - 1;
    }
  }

  // ----- Runs -----

  function Run(b: Breaker, events: seq<Event>): Breaker {
    if events == [] then b else After(Run(b, events[..|events| - 1]), events[|events| - 1])
  }

  predicate IsError(e: Event) {
    e.Record? && e.response.IsError()
  }

  predicate ClearsCounts(e: Event) {
    e.Success? || (e.Record? && !e.response.IsError())
  }

  predicate IsServerError(e: Event) {
    e.Record? && e.response.IsServerError()
  }

  predicate IsTimeout(e: Event) {
    e.Record? && e.response.isTimeout
  }

  /** How many events satisfy `p` after the last success. */
  function SinceSuccess(events: seq<Event>, p: Event -> bool): nat {
    if events == [] then 0
    else
      var e := events[|events| - 1];
      if ClearsCounts(e) then 0
      else SinceSuccess(events[..|events| - 1], p) + if p(e) then 1 else 0
  }

  function Count(events: seq<Event>, p: Event -> bool): nat {
    if events == [] then 0 else Count(events[..|events| - 1], p) + if p(events[|events| - 1]) then 1 else 0
  }

  lemma {:induction false} CountSplit(events: seq<Event>, i: nat, p: Event -> bool)
    requires i <= |events|
    ensures Count(events, p) == Count(events[..i], p) + Count(events[i..], p)
  {
    if i == |events| {
      assert events[..i] == events;
    } else {
      var n := |events| - 1;
      CountSplit(events[..n], i, p);
      assert events[..n][..i] == events[..i] && events[i..][..n - i] == events[..n][i..];
    }
  }

  lemma {:induction false} SinceSuccessAtMost(events: seq<Event>)
    ensures SinceSuccess(events, IsServerError) + SinceSuccess(events, IsTimeout) <= Count(events, IsError)
  {
    if events != [] {
      SinceSuccessAtMost(events[..|events| - 1]);
    }
  }

  /** The breaker's counters are the errors since the last success. */
  lemma {:induction false} CountersAreHistory(pause: real, events: seq<Event>)
    ensures var b := Run(Start(pause), events);
      b.serverErrors == SinceSuccess(events, IsServerError) && b.timeouts == SinceSuccess(events, IsTimeout)
  {
    if events != [] {
      CountersAreHistory(pause, events[..|events| - 1]);
    }
  }

  /** Event `i` is where the breaker goes from normal to throttled, and it then stays throttled up to position `j`. */
  ghost predicate Episode(pause: real, events: seq<Event>, i: nat, j: nat) {
    && i < j <= |events|
    && IsError(events[i]) && Run(Start(pause), events[..i]).circuit == Normal
    && (forall k :: i < k <= j ==> Run(Start(pause), events[..k]).circuit == Throttled)
  }

  /**
   * A throttled breaker is in an episode whose first error found five server errors or three
   * timeouts since the last success, and it has counted the errors of that episode.
   */
  lemma {:induction false} ThrottledEpisode(pause: real, events: seq<Event>) returns (i: nat)
    requires Run(Start(pause), events).circuit == Throttled
    ensures Episode(pause, events, i, |events|)
    ensures SinceSuccess(events[..i + 1], IsServerError) >= 5 || SinceSuccess(events[..i + 1], IsTimeout) >= 3
    ensures Run(Start(pause), events).errorsInThrottled == Count(events[i + 1..], IsError)
  {
    hide After, SinceSuccess, IsError, IsServerError, IsTimeout, Count;
    assert events != [];
    var n := |events| - 1;
    var init := events[..n];
    assert Run(Start(pause), events) == After(Run(Start(pause), init), events[n]);
    hide Run;
    LastStep(Run(Start(pause), init), events[n]);
    if Run(Start(pause), init).circuit == Throttled {
      i := ThrottledEpisode(pause, init);
      EpisodeGoesOn(pause, events, i);
      assert i < n;
      hide Episode;
      assert init[..i + 1] == events[..i + 1] && init[i + 1..] == events[i + 1..n];
      CountOneMore(events, i + 1, n, IsError);
      assert events[i + 1..n + 1] == events[i + 1..];
    } else {
      i := n;
      EpisodeBegins(pause, events);
    }
  }

  lemma EpisodeBegins(pause: real, events: seq<Event>)
    requires events != [] && Run(Start(pause), events).circuit == Throttled
    requires Run(Start(pause), events[..|events| - 1]).circuit == Normal
    ensures var i := |events| - 1;
      && Episode(pause, events, i, |events|)
      && (SinceSuccess(events[..i + 1], IsServerError) >= 5 || SinceSuccess(events[..i + 1], IsTimeout) >= 3)
      && Run(Start(pause), events).errorsInThrottled == Count(events[i + 1..], IsError)
  {
    var n := |events| - 1;
    LastStep(Run(Start(pause), events[..n]), events[n]);
    CountersAreHistory(pause, events);
    hide After, SinceSuccess;
    assert events[..n + 1] == events && events[n + 1..] == [];
  }

  /** How one step reaches the throttled state. */
  lemma LastStep(b: Breaker, e: Event)
    requires After(b, e).circuit == Throttled
    ensures b.circuit != Tripped
    ensures b.circuit == Throttled ==>
      After(b, e).errorsInThrottled == b.errorsInThrottled + if IsError(e) then 1 else 0
    ensures b.circuit == Normal ==>
      IsError(e) && After(b, e).errorsInThrottled == 0 && (After(b, e).serverErrors >= 5 || After(b, e).timeouts >= 3)
  {
  }

  lemma EpisodeGoesOn(pause: real, events: seq<Event>, i: nat)
    requires events != [] && Episode(pause, events[..|events| - 1], i, |events| - 1)
    requires Run(Start(pause), events).circuit == Throttled
    ensures Episode(pause, events, i, |events|)
  {
    hide Run;
    var init := events[..|events| - 1];
    assert events[..|events|] == events && init[..i] == events[..i];
    forall k | i < k <= |events| ensures Run(Start(pause), events[..k]).circuit == Throttled {
      if k < |events| {
        assert init[..k] == events[..k];
      }
    }
  }

  /** Event `j` trips the breaker. */
  ghost predicate TripsAt(pause: real, events: seq<Event>, j: nat) {
    && j < |events|
    && Run(Start(pause), events[..j]).circuit != Tripped
    && Run(Start(pause), events[..j + 1]).circuit == Tripped
  }

  /**
   * What must have happened for the breaker to trip: five server errors or three timeouts
   * since the last success where throttling set in, then five more errors without leaving
   * the throttled state. Never fewer than eight errors in all.
   */
  lemma TrippingNeeds(pause: real, events: seq<Event>, j: nat) returns (i: nat)
    requires TripsAt(pause, events, j)
    ensures Episode(pause, events, i, j)
    ensures SinceSuccess(events[..i + 1], IsServerError) >= 5 || SinceSuccess(events[..i + 1], IsTimeout) >= 3
    ensures Count(events[i + 1..j + 1], IsError) >= 5
    ensures Count(events[..j + 1], IsError) >= 8
  {
    var before := events[..j];
    TrippingStep(pause, events, j);
    i := ThrottledEpisode(pause, before);
    EpisodeOfPrefix(pause, events, i, j);
    hide Run, After, SinceSuccess, Episode, TripsAt, IsError, IsServerError, IsTimeout, Count;
    assert before[..i + 1] == events[..i + 1] && before[i + 1..] == events[i + 1..j];
    SinceSuccessAtMost(events[..i + 1]);
    CountOneMore(events, i + 1, j, IsError);
  }

  lemma TrippingStep(pause: real, events: seq<Event>, j: nat)
    requires TripsAt(pause, events, j)
    ensures Run(Start(pause), events[..j]).circuit == Throttled && IsError(events[j])
    ensures Run(Start(pause), events[..j]).errorsInThrottled >= 4
  {
    assert events[..j + 1][..j] == events[..j] && events[..j + 1][j] == events[j];
  }

  lemma CountOneMore(events: seq<Event>, i: nat, j: nat, p: Event -> bool)
    requires i <= j < |events|
    ensures Count(events[i..j + 1], p) == Count(events[i..j], p) + if p(events[j]) then 1 else 0
    ensures Count(events[..j + 1], p) == Count(events[..i], p) + Count(events[i..j + 1], p)
  {
    assert events[i..j + 1][..j - i] == events[i..j];
    CountSplit(events[..j + 1], i, p);
    assert events[..j + 1][..i] == events[..i] && events[..j + 1][i..] == events[i..j + 1];
  }

  lemma EpisodeOfPrefix(pause: real, events: seq<Event>, i: nat, j: nat)
    requires j < |events| && Episode(pause, events[..j], i, j)
    ensures Episode(pause, events, i, j)
  {
    hide Run;
    forall k | i <= k <= j ensures events[..j][..k] == events[..k] {
    }
  }

  // ----- When the state changes -----

  /** What is counted: a timeout, or else a status of 500 or more. */
  predicate Fails(e: Event) {
    e.Record? && (e.response.isTimeout || (e.response.status.Some? && e.response.status.value >= 500))
  }

  function TimeoutsSince(events: seq<Event>): nat {
    if events == [] then 0
    else
      var e, before := events[|events| - 1], TimeoutsSince(events[..|events| - 1]);
      if e.Success? || (e.Record? && !Fails(e)) then 0 else before + if e.Record? && e.response.isTimeout then 1 else 0
  }

  /** A response that is both counts as a timeout only. */
  function FailuresSince(events: seq<Event>): nat {
    if events == [] then 0
    else
      var e, before := events[|events| - 1], FailuresSince(events[..|events| - 1]);
      if e.Success? || (e.Record? && !Fails(e)) then 0
      else before + if Fails(e) && !e.response.isTimeout then 1 else 0
  }

  lemma {:induction false} CountersSince(pause: real, events: seq<Event>)
    ensures var b := Run(Start(pause), events);
      b.timeouts == TimeoutsSince(events) && b.serverErrors == FailuresSince(events) && b.pause == pause
  {
    if events != [] {
      CountersSince(pause, events[..|events| - 1]);
    }
  }

  /**
   * A breaker that is normal becomes throttled exactly at an error with which there have been
   * three timeouts or five server errors since the last success, for as long as its pause.
   */
  lemma ThrottlesExactly(pause: real, events: seq<Event>, e: Event)
    requires Run(Start(pause), events).circuit == Normal
    ensures var next := Run(Start(pause), events + [e]);
      && (next.circuit == Throttled <==>
            Fails(e) && (TimeoutsSince(events + [e]) >= 3 || FailuresSince(events + [e]) >= 5))
      && (next.circuit == Throttled ==> next.throttledUntil == Some(e.now + pause))
      && next.circuit != Tripped
  {
    assert (events + [e])[..|events|] == events;
    CountersSince(pause, events);
    CountersSince(pause, events + [e]);
  }

  /** One that is throttled trips exactly at the fifth error of its episode. */
  lemma TripsExactly(pause: real, events: seq<Event>, e: Event) returns (i: nat)
    requires Run(Start(pause), events).circuit == Throttled
    ensures Episode(pause, events, i, |events|)
    ensures Run(Start(pause), events + [e]).circuit == Tripped <==> Fails(e) && Count(events[i + 1..], Fails) >= 4
  {
    i := ThrottledEpisode(pause, events);
    SameCount(events[i + 1..]);
    hide Episode, Count;
    assert (events + [e])[..|events|] == events;
  }

  lemma {:induction false} SameCount(events: seq<Event>)
    ensures Count(events, Fails) == Count(events, IsError)
  {
    if events != [] {
      SameCount(events[..|events| - 1]);
    }
  }

  /**
   * And it is normal again exactly when a task that was asleep wakes, or when a check begins or a
   * success is recorded after the pause; a pause that ends at zero never ends in that way.
   */
  lemma RecoversExactly(b: Breaker, e: Event)
    requires b.circuit == Throttled
    ensures After(b, e).circuit == Normal <==>
      || (e.CheckEnds? && b.waiting > 0)
      || (&& !e.CheckEnds? && !Fails(e)
          && b.throttledUntil.Some? && b.throttledUntil.value != 0.0 && b.throttledUntil.value <= e.now)
  {
  }

  // ----- Who is asleep -----

  /** The last event puts a task to sleep: a check that begins in the throttled state before its end. */
  ghost predicate FallsAsleep(pause: real, events: seq<Event>) {
    && events != [] && events[|events| - 1].CheckBegins?
    && var b := Run(Start(pause), events[..|events| - 1]);
      && b.circuit == Throttled && b.throttledUntil.Some? && b.throttledUntil.value != 0.0
      && events[|events| - 1].now < b.throttledUntil.value
  }

  /** The tasks put to sleep less the wakings. */
  ghost function Asleep(pause: real, events: seq<Event>): int {
    if events == [] then 0
    else
      Asleep(pause, events[..|events| - 1])
      + if events[|events| - 1].CheckEnds? then -1 else if FallsAsleep(pause, events) then 1 else 0
  }

  /** The breaker knows how many tasks are asleep, as long as only those wake that are. */
  lemma {:induction false} AsleepExactly(pause: real, events: seq<Event>)
    requires forall n :: 0 <= n <= |events| ==> Asleep(pause, events[..n]) >= 0
    ensures Run(Start(pause), events).waiting == Asleep(pause, events)
  {
    assert events[..|events|] == events;
    if events != [] {
      var init := events[..|events| - 1];
      forall n | 0 <= n <= |init| ensures Asleep(pause, init[..n]) >= 0 {
        assert init[..n] == events[..n];
      }
      AsleepExactly(pause, init);
      assert Run(Start(pause), events) == After(Run(Start(pause), init), events[|events| - 1]);
      assert Asleep(pause, events) >= 0;
    }
  }

  // ----- Leaving the tripped state -----

  /** Only a check that was asleep already can leave the tripped state, and every one of them does. */
  lemma LeavesTrippedExactly(b: Breaker, e: Event)
    requires b.circuit == Tripped
    ensures After(b, e).circuit != Tripped <==> e.CheckEnds? && b.waiting > 0
  {
  }

  lemma {:induction false} TrippedForGood(b: Breaker, events: seq<Event>)
    requires b.circuit == Tripped && b.waiting == 0
    ensures Run(b, events).circuit == Tripped && Run(b, events).waiting == 0
  {
    if events != [] {
      TrippedForGood(b, events[..|events| - 1]);
    }
  }

  /** A tripped breaker stays tripped in every future exactly when no task is asleep in `check_throttle`. */
  lemma TrippedIsFinalExactly(b: Breaker)
    requires b.circuit == Tripped
    ensures (forall events :: Run(b, events).circuit == Tripped) <==> b.waiting == 0
  {
    if b.waiting == 0 {
      forall events ensures Run(b, events).circuit == Tripped {
        TrippedForGood(b, events);
      }
    } else {
      assert [CheckEnds][..0] == [];
      assert Run(b, [CheckEnds]).circuit == Normal;
    }
  }

  /** Such a run: throttled by five errors, one task begins to wait, five more errors trip it, the task wakes. */
  lemma SleeperResetsTripped(pause: real)
    requires pause > 0.0
    ensures var error := Record(Response(Some(500), false), 1.0);
      var run := [error, error, error, error, error, CheckBegins(1.0), error, error, error, error, error];
      Run(Start(pause), run).circuit == Tripped && Run(Start(pause), run + [CheckEnds]).circuit == Normal
  {
    var error := Record(Response(Some(500), false), 1.0);
    var five := [error, error, error, error, error];
    var run := five + [CheckBegins(1.0)] + five;
    var start := Start(pause);
    FiveErrors(start, 1.0);
    var throttled := Run(start, five);
    assert throttled == Breaker(pause, 5, 0, 0, Throttled, Some(1.0 + pause), 0);
    var waiting := After(throttled, CheckBegins(1.0));
    RunAppend(start, five, [CheckBegins(1.0)]);
    assert [CheckBegins(1.0)][..0] == [];
    RunAppend(start, five + [CheckBegins(1.0)], five);
    FiveErrors(waiting, 1.0);
    assert (run + [CheckEnds])[..|run|] == run;
    assert run == [error, error, error, error, error, CheckBegins(1.0), error, error, error, error, error];
  }

  lemma {:induction false} RunAppend(b: Breaker, xs: seq<Event>, ys: seq<Event>)
    ensures Run(b, xs + ys) == Run(Run(b, xs), ys)
  {
    if ys == [] {
      assert xs + ys == xs;
    } else {
      RunAppend(b, xs, ys[..|ys| - 1]);
      assert (xs + ys)[..|xs + ys| - 1] == xs + ys[..|ys| - 1];
    }
  }

  lemma FiveErrors(b: Breaker, now: real)
    ensures var e := Record(Response(Some(500), false), now);
      Run(b, [e, e, e, e, e]) == After(After(After(After(After(b, e), e), e), e), e)
  {
    var e := Record(Response(Some(500), false), now);
    assert [e, e, e, e, e][..4] == [e, e, e, e] && [e, e, e, e][..3] == [e, e, e];
    assert [e, e, e][..2] == [e, e] && [e, e][..1] == [e] && [e][..0] == [];
    assert Run(b, [e]) == After(Run(b, []), e);
    assert Run(b, [e, e]) == After(After(b, e), e);
    assert Run(b, [e, e, e]) == After(Run(b, [e, e]), e);
    assert Run(b, [e, e, e, e]) == After(Run(b, [e, e, e]), e);
  }
}
