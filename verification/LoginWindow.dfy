/** The login limiter: a pruned list of failures per key, against the failures themselves. */
module LoginWindow {
  const MAX_ATTEMPTS := 5
  const WINDOW := 60.0

  type Attempts = map<string, seq<real>>

  function Get(m: Attempts, key: string): seq<real> {
    if key in m then m[key] else []
  }

  predicate IsRecent(t: real, now: real) { now - t < WINDOW }

  function Recent(ts: seq<real>, now: real): seq<real> {
    if ts == [] then []
    else if IsRecent(ts[0], now) then [ts[0]] + Recent(ts[1..], now)
    else Recent(ts[1..], now)
  }

  predicate Blocks(ts: seq<real>, now: real) {
    |Recent(ts, now)| >= MAX_ATTEMPTS
  }

  datatype Outcome = TooMany | Denied | Accepted

  /** One login: its two readings of the clock, and whether the password fits. Nothing is awaited in between. */
  datatype Login = Login(key: string, checkedAt: real, recordedAt: real, correct: bool)

  /** The pruned lists the code keeps, and beside them every failure since the last reset of its key. */
  datatype State = State(pruned: Attempts, full: Attempts)

  function OutcomeOf(pruned: Attempts, l: Login): Outcome {
    if Blocks(Get(pruned, l.key), l.checkedAt) then TooMany else if l.correct then Accepted else Denied
  }

  function After(st: State, l: Login): State {
    var kept := Recent(Get(st.pruned, l.key), l.checkedAt);
    match OutcomeOf(st.pruned, l)
    case TooMany => st.(pruned := st.pruned[l.key := kept])
    case Denied =>
      State(st.pruned[l.key := kept + [l.recordedAt]], st.full[l.key := Get(st.full, l.key) + [l.recordedAt]])
    case Accepted => State(st.pruned - {l.key}, st.full - {l.key})
  }

  // ----- The code -----

  class LoginLimiter {
    var attempts: Attempts
    ghost var full: Attempts

    ghost function Abstract(): State
      reads this
    {
      State(attempts, full)
    }

    constructor ()
      ensures Abstract() == State(map[], map[])
    {
      attempts, full := map[], map[];
    }

    /** `check_login_rate_limit`, pruning the list of the key as it goes. */
    method Check(key: string, now: real) returns (allowed: bool)
      modifies `attempts
      ensures attempts == old(attempts)[key := Recent(Get(old(attempts), key), now)]
      ensures allowed <==> !Blocks(Get(old(attempts), key), now)
    {
      attempts := attempts[key := Recent(Get(attempts, key), now)];
      allowed := |attempts[key]| < MAX_ATTEMPTS;
    }

    method RecordFailed(key: string, now: real)
      modifies this
      ensures attempts == old(attempts)[key := Get(old(attempts), key) + [now]]
      ensures full == old(full)[key := Get(old(full), key) + [now]]
    {
      attempts := attempts[key := Get(attempts, key) + [now]];
      full := full[key := Get(full, key) + [now]];
    }

    method Reset(key: string)
      modifies this
      ensures attempts == old(attempts) - {key} && full == old(full) - {key}
    {
      attempts := attempts - {key};
      full := full - {key};
    }

    /** The order in which `login` uses them. */
    method Attempt(l: Login) returns (outcome: Outcome)
      modifies this
      ensures outcome == OutcomeOf(old(attempts), l)
      ensures Abstract() == After(old(Abstract()), l)
    {
      var allowed := Check(l.key, l.checkedAt);
      if !allowed {
        return TooMany;
      }
      if !l.correct {
        RecordFailed(l.key, l.recordedAt);
        return Denied;
      }
      Reset(l.key);
      return Accepted;
    }
  }

  // ----- Runs -----

  predicate Monotone(clock: real, logins: seq<Login>)
    decreases |logins|
  {
    logins == [] ||
    (clock <= logins[0].checkedAt <= logins[0].recordedAt && Monotone(logins[0].recordedAt, logins[1..]))
  }

  function Run(st: State, logins: seq<Login>): State
    decreases |logins|
  {
    if logins == [] then st else Run(After(st, logins[0]), logins[1..])
  }

  function Clock(clock: real, logins: seq<Login>): real {
    if logins == [] then clock else logins[|logins| - 1].recordedAt
  }

  // ----- Pruning decides as the full history would -----

  predicate SameFrom(a: seq<real>, b: seq<real>, clock: real) {
    Recent(a, clock) == Recent(b, clock)
  }

  lemma {:induction false} RecentAgain(ts: seq<real>, clock: real, now: real)
    requires clock <= now
    ensures Recent(Recent(ts, clock), now) == Recent(ts, now)
  {
    if ts != [] {
      RecentAgain(ts[1..], clock, now);
    }
  }

  lemma {:induction false} RecentAppend(a: seq<real>, b: seq<real>, now: real)
    ensures Recent(a + b, now) == Recent(a, now) + Recent(b, now)
  {
    hide IsRecent;
    if a == [] {
      assert a + b == b;
    } else {
      RecentAppend(a[1..], b, now);
      assert (a + b)[1..] == a[1..] + b;
    }
  }

  lemma SameLater(a: seq<real>, b: seq<real>, clock: real, now: real)
    requires SameFrom(a, b, clock) && clock <= now
    ensures SameFrom(a, b, now)
  {
    RecentAgain(a, clock, now);
    RecentAgain(b, clock, now);
  }

  /** From the present clock on, the pruned and the full list of every key look alike. */
  ghost predicate Agreeing(st: State, clock: real) {
    forall key :: SameFrom(Get(st.pruned, key), Get(st.full, key), clock)
  }

  lemma AgreeingStep(st: State, clock: real, l: Login)
    requires Agreeing(st, clock) && clock <= l.checkedAt <= l.recordedAt
    ensures Agreeing(After(st, l), l.recordedAt)
    ensures OutcomeOf(st.pruned, l) == OutcomeOf(st.full, l)
  {
    var next := After(st, l);
    var pruned, full := Get(st.pruned, l.key), Get(st.full, l.key);
    SameLater(pruned, full, clock, l.checkedAt);
    forall key ensures SameFrom(Get(next.pruned, key), Get(next.full, key), l.recordedAt) {
      SameLater(Get(st.pruned, key), Get(st.full, key), clock, l.recordedAt);
      if key == l.key {
        RecentAgain(pruned, l.checkedAt, l.recordedAt);
        RecentAppend(Recent(pruned, l.checkedAt), [l.recordedAt], l.recordedAt);
        RecentAppend(full, [l.recordedAt], l.recordedAt);
      }
    }
  }

  lemma {:induction false} RunAgrees(st: State, clock: real, logins: seq<Login>)
    requires Agreeing(st, clock) && Monotone(clock, logins)
    ensures Agreeing(Run(st, logins), Clock(clock, logins))
    decreases |logins|
  {
    if logins != [] {
      AgreeingStep(st, clock, logins[0]);
      RunAgrees(After(st, logins[0]), logins[0].recordedAt, logins[1..]);
    }
  }

  /** After any run, the next login gets the outcome that the full failure history would give it. */
  lemma PruningChangesNothing(clock: real, logins: seq<Login>, next: Login)
    requires Monotone(clock, logins) && Clock(clock, logins) <= next.checkedAt
    ensures var st := Run(State(map[], map[]), logins);
      && OutcomeOf(st.pruned, next) == OutcomeOf(st.full, next)
      && (OutcomeOf(st.pruned, next) == TooMany <==> |Recent(Get(st.full, next.key), next.checkedAt)| >= 5)
  {
    var st := Run(State(map[], map[]), logins);
    RunAgrees(State(map[], map[]), clock, logins);
    SameLater(Get(st.pruned, next.key), Get(st.full, next.key), Clock(clock, logins), next.checkedAt);
  }

  // ----- Six failures take a minute -----

  predicate Ascending(ts: seq<real>, upTo: real) {
    (forall i, j | 0 <= i <= j < |ts| :: ts[i] <= ts[j]) && (forall i | 0 <= i < |ts| :: ts[i] <= upTo)
  }

  /** Any six in a row span at least the window. */
  predicate Spread(ts: seq<real>) {
    forall i | 0 <= i < |ts| - MAX_ATTEMPTS :: ts[i + MAX_ATTEMPTS] - ts[i] >= WINDOW
  }

  lemma {:induction false} AllRecent(ts: seq<real>, now: real)
    requires forall i :: 0 <= i < |ts| ==> IsRecent(ts[i], now)
    ensures Recent(ts, now) == ts
  {
    if ts != [] {
      AllRecent(ts[1..], now);
    }
  }

  /** Room for another failure means that the fifth last one is out of the window. */
  lemma FifthLastIsOld(ts: seq<real>, now: real)
    requires Ascending(ts, now) && !Blocks(ts, now) && |ts| >= MAX_ATTEMPTS
    ensures now - ts[|ts| - MAX_ATTEMPTS] >= WINDOW
  {
    var n := |ts| - MAX_ATTEMPTS;
    if IsRecent(ts[n], now) {
      RecentAppend(ts[..n], ts[n..], now);
      assert ts == ts[..n] + ts[n..];
      AllRecent(ts[n..], now);
    }
  }

  ghost predicate AllSpread(st: State, clock: real) {
    forall key :: Ascending(Get(st.full, key), clock) && Spread(Get(st.full, key))
  }

  lemma SpreadStep(st: State, clock: real, l: Login)
    requires Agreeing(st, clock) && AllSpread(st, clock) && clock <= l.checkedAt <= l.recordedAt
    ensures AllSpread(After(st, l), l.recordedAt)
  {
    var next := After(st, l);
    var ts := Get(st.full, l.key);
    SameLater(Get(st.pruned, l.key), ts, clock, l.checkedAt);
    assert Ascending(ts, clock) && Spread(ts);
    hide Recent, Ascending, Spread;
    forall key ensures Ascending(Get(next.full, key), l.recordedAt) && Spread(Get(next.full, key)) {
      assert Ascending(Get(st.full, key), clock) && Spread(Get(st.full, key));
      StillAscending(Get(st.full, key), clock, l.recordedAt);
      if key == l.key && OutcomeOf(st.pruned, l) == Denied {
        RecordedSpread(ts, clock, l);
      }
    }
  }

  lemma StillAscending(ts: seq<real>, clock: real, later: real)
    requires Ascending(ts, clock) && clock <= later
    ensures Ascending(ts, later)
  {
  }

  /** A failure is only recorded where there is room for it. */
  lemma RecordedSpread(ts: seq<real>, clock: real, l: Login)
    requires Ascending(ts, clock) && Spread(ts) && clock <= l.checkedAt <= l.recordedAt
    requires !Blocks(ts, l.checkedAt)
    ensures Ascending(ts + [l.recordedAt], l.recordedAt) && Spread(ts + [l.recordedAt])
  {
    StillAscending(ts, clock, l.checkedAt);
    if |ts| >= MAX_ATTEMPTS {
      FifthLastIsOld(ts, l.checkedAt);
    }
    hide Recent;
  }

  lemma {:induction false} RunSpread(st: State, clock: real, logins: seq<Login>)
    requires Agreeing(st, clock) && AllSpread(st, clock) && Monotone(clock, logins)
    ensures AllSpread(Run(st, logins), Clock(clock, logins))
    decreases |logins|
  {
    if logins != [] {
      AgreeingStep(st, clock, logins[0]);
      SpreadStep(st, clock, logins[0]);
      RunSpread(After(st, logins[0]), logins[0].recordedAt, logins[1..]);
    }
  }

  /** In any run, six consecutive recorded failures of a key since its last reset span at least 60 seconds. */
  lemma SixFailuresTakeAMinute(clock: real, logins: seq<Login>, key: string, i: nat)
    requires Monotone(clock, logins)
    requires i + 5 < |Get(Run(State(map[], map[]), logins).full, key)|
    ensures var ts := Get(Run(State(map[], map[]), logins).full, key); ts[i + 5] - ts[i] >= 60.0
  {
    hide Agreeing;
    assert Agreeing(State(map[], map[]), clock) by { NothingAgrees(clock); }
    RunSpread(State(map[], map[]), clock, logins);
    var ts := Get(Run(State(map[], map[]), logins).full, key);
    assert Spread(ts);
  }

  lemma NothingAgrees(clock: real)
    ensures Agreeing(State(map[], map[]), clock)
  {
  }

  // ----- When a login is admitted -----

  lemma {:induction false} RecentCounts(ts: seq<real>, now: real)
    ensures |Recent(ts, now)| == |set i | 0 <= i < |ts| && now - ts[i] < 60.0|
  {
    var last := |ts| - 1;
    var s := set i | 0 <= i < |ts| && now - ts[i] < 60.0;
    if ts == [] {
      assert s == {};
    } else {
      var init := ts[..last];
      RecentCounts(init, now);
      RecentAppend(init, [ts[last]], now);
      assert ts == init + [ts[last]];
      var r := set i | 0 <= i < |init| && now - init[i] < 60.0;
      assert s == if now - ts[last] < 60.0 then r + {last} else r;
    }
  }

  /** A login with the outcome that it got. */
  datatype Entry = Entry(login: Login, outcome: Outcome)

  function Log(st: State, logins: seq<Login>): (log: seq<Entry>)
    ensures |log| == |logins|
    decreases |logins|
  {
    if logins == [] then []
    else [Entry(logins[0], OutcomeOf(st.pruned, logins[0]))] + Log(After(st, logins[0]), logins[1..])
  }

  /** The times at which a key was denied since it was last accepted. */
  function Denials(log: seq<Entry>, key: string): seq<real> {
    if log == [] then []
    else
      var before, e := Denials(log[..|log| - 1], key), log[|log| - 1];
      if e.login.key != key || e.outcome == TooMany then before
      else if e.outcome == Denied then before + [e.login.recordedAt]
      else []
  }

  lemma {:induction false} DenialsKept(st: State, done: seq<Entry>, logins: seq<Login>, key: string)
    requires Get(st.full, key) == Denials(done, key)
    ensures Get(Run(st, logins).full, key) == Denials(done + Log(st, logins), key)
    decreases |logins|
  {
    if logins == [] {
      assert done + [] == done;
    } else {
      var e := Entry(logins[0], OutcomeOf(st.pruned, logins[0]));
      assert (done + [e])[..|done|] == done;
      DenialsKept(After(st, logins[0]), done + [e], logins[1..], key);
      assert done + Log(st, logins) == done + [e] + Log(After(st, logins[0]), logins[1..]);
    }
  }

  /**
   * After any run, a login is turned away exactly if its key was denied five times within the
   * last sixty seconds, and not accepted since; otherwise its password decides.
   */
  lemma TurnedAwayExactly(clock: real, logins: seq<Login>, next: Login)
    requires Monotone(clock, logins) && Clock(clock, logins) <= next.checkedAt
    ensures var start := State(map[], map[]);
      var denials := Denials(Log(start, logins), next.key);
      OutcomeOf(Run(start, logins).pruned, next)
      == if |set i | 0 <= i < |denials| && next.checkedAt - denials[i] < 60.0| >= 5 then TooMany
         else if next.correct then Accepted
         else Denied
  {
    var start := State(map[], map[]);
    PruningChangesNothing(clock, logins, next);
    DenialsKept(start, [], logins, next.key);
    assert [] + Log(start, logins) == Log(start, logins);
    RecentCounts(Denials(Log(start, logins), next.key), next.checkedAt);
  }
}
