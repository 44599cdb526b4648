/**
 * A failure gate around an operation: CLOSED lets calls through, OPEN fails
 * fast until the reset timeout has elapsed since the last failure, HALF_OPEN
 * lets one probing call decide between CLOSED and OPEN. Each `execute` holds
 * the breaker's mutex for its whole body, so calls are modelled one after
 * another. The clock and the operation's outcome are inputs.
 */
module CircuitBreakers {

  datatype State = Closed | Open | HalfOpen

  /**
   * What the wrapped operation did: returned a value, threw a
   * `std::exception` (which `execute` catches and counts), or threw
   * something else, which escapes `execute` untouched.
   */
  datatype Outcome<R, E> = Returned(value: R) | Threw(error: E) | ThrewOther(error: E)

  /**
   * What `execute` gives its caller: `Blocked` is the empty optional of a
   * fast-failed call (the operation never ran), `Failed` is the operation's
   * own exception propagating to the caller.
   */
  datatype ExecResult<R, E> = Blocked | Ok(value: R) | Failed(error: E)

  /** The mutable fields of a breaker. Times are steady-clock nanoseconds. */
  datatype Snapshot = Snapshot(state: State, failureCount: int, lastFailureTime: int)

  const DefaultFailureThreshold := 5
  const DefaultResetTimeoutSeconds := 30
  const NanosPerSecond := 1_000_000_000

  /** The breaker a constructor builds: CLOSED, no failures, last failure at the clock's epoch. */
  const Initial := Snapshot(Closed, 0, 0)

  /**
   * One `execute`. `entryTime` is the clock read before the operation runs,
   * `exitTime` the one read when its failure is recorded.
   */
  function Step<R, E>(s: Snapshot, threshold: int, resetTimeout: int,
                      entryTime: int, outcome: Outcome<R, E>, exitTime: int): (Snapshot, ExecResult<R, E>)
  {
    if s.state == Open && !(entryTime - s.lastFailureTime > resetTimeout) then (s, Blocked)
    else
      var state := if s.state == Open then HalfOpen else s.state;
      match outcome
      case Returned(v) =>
        if state == HalfOpen then (Snapshot(Closed, 0, s.lastFailureTime), Ok(v))
        else (s.(state := state), Ok(v))
      case Threw(e) =>
        var count := s.failureCount + 1;
        var next := if count >= threshold then Open else if state == HalfOpen then Open else state;
        (Snapshot(next, count, exitTime), Failed(e))
      case ThrewOther(e) =>
        (s.(state := state), Failed(e))
  }

  /** One call handed to `execute`. */
  datatype Call<R, E> = Call(entryTime: int, outcome: Outcome<R, E>, exitTime: int)

  /** The breaker after a sequence of calls. */
  function Run<R, E>(s: Snapshot, threshold: int, resetTimeout: int, calls: seq<Call<R, E>>): Snapshot
    decreases |calls|
  {
    if calls == [] then s
    else
      var c := calls[0];
      Run(Step(s, threshold, resetTimeout, c.entryTime, c.outcome, c.exitTime).0, threshold, resetTimeout, calls[1..])
  }

  /** The invariant every reachable breaker keeps: a breaker that is not CLOSED has failed. */
  predicate Consistent(s: Snapshot)
  {
    s.failureCount >= 0 && (s.state != Closed ==> s.failureCount >= 1)
  }

  class CircuitBreaker {
    const name: string
    const failureThreshold: int
    /** The reset timeout in nanoseconds. */
    const resetTimeout: int
    var currentState: State
    var failureCount: int
    var lastFailureTime: int

    function Current(): Snapshot
      reads this
    {
      Snapshot(currentState, failureCount, lastFailureTime)
    }

    constructor (name: string, failureThreshold: int := DefaultFailureThreshold,
                 resetTimeoutSeconds: int := DefaultResetTimeoutSeconds)
      ensures this.name == name && this.failureThreshold == failureThreshold
      ensures resetTimeout == resetTimeoutSeconds * NanosPerSecond
      ensures Current() == Initial
    {
      this.name := name;
      this.failureThreshold := failureThreshold;
      this.resetTimeout := resetTimeoutSeconds * NanosPerSecond;
      currentState := Closed;
      failureCount := 0;
      lastFailureTime := 0;
    }

    method Execute<R, E>(entryTime: int, outcome: Outcome<R, E>, exitTime: int) returns (r: ExecResult<R, E>)
      modifies this
      ensures (Current(), r) == Step(old(Current()), failureThreshold, resetTimeout, entryTime, outcome, exitTime)
    {
      if currentState == Open {
        if entryTime - lastFailureTime > resetTimeout {
          currentState := HalfOpen;
        } else {
          return Blocked;
        }
      }
      match outcome
      case Returned(v) =>
        if currentState == HalfOpen {
          currentState := Closed;
          failureCount := 0;
        }
        r := Ok(v);
      case Threw(e) =>
        failureCount := failureCount + 1;
        lastFailureTime := exitTime;
        if failureCount >= failureThreshold {
          currentState := Open;
        } else if currentState == HalfOpen {
          currentState := Open;
        }
        r := Failed(e);
      case ThrewOther(e) =>
        r := Failed(e);
    }

    function GetState(): State
      reads this
    {
      currentState
    }

    function GetFailureCount(): int
      reads this
    {
      failureCount
    }

    function GetName(): string
    {
      name
    }

    function IsOpen(): (open: bool)
      reads this
      ensures open <==> GetState() == Open
    {
      currentState == Open
    }
  }

  // ---------------------------------------------------------------------
  // Properties of one call
  // ---------------------------------------------------------------------

  /** Within the timeout an OPEN breaker blocks, changes nothing, and ignores the outcome. */
  lemma OpenWithinTimeoutBlocks<R, E>(s: Snapshot, threshold: int, resetTimeout: int,
                                      entryTime: int, outcome: Outcome<R, E>, exitTime: int)
    requires s.state == Open && entryTime - s.lastFailureTime <= resetTimeout
    ensures Step(s, threshold, resetTimeout, entryTime, outcome, exitTime) == (s, Blocked)
  {
  }

  /** Only an OPEN breaker within its timeout blocks; every other call runs the operation. */
  lemma BlockedIff<R, E>(s: Snapshot, threshold: int, resetTimeout: int,
                         entryTime: int, outcome: Outcome<R, E>, exitTime: int)
    ensures Step(s, threshold, resetTimeout, entryTime, outcome, exitTime).1 == Blocked <==>
      s.state == Open && entryTime - s.lastFailureTime <= resetTimeout
  {
  }

  /** Past the timeout (strictly) the probe runs: success closes and resets, failure reopens. */
  lemma OpenPastTimeoutProbes<R, E>(s: Snapshot, threshold: int, resetTimeout: int,
                                    entryTime: int, outcome: Outcome<R, E>, exitTime: int)
    requires s.state == Open && entryTime - s.lastFailureTime > resetTimeout
    ensures var (t, r) := Step(s, threshold, resetTimeout, entryTime, outcome, exitTime);
      && (outcome.Returned? ==> t == Snapshot(Closed, 0, s.lastFailureTime) && r == Ok(outcome.value))
      && (outcome.Threw? ==> t == Snapshot(Open, s.failureCount + 1, exitTime) && r == Failed(outcome.error))
      && (outcome.ThrewOther? ==> t == s.(state := HalfOpen) && r == Failed(outcome.error))
  {
  }

  /**
   * An exception that is not a `std::exception` passes through: the count
   * and the last failure time stay, and a probe leaves the breaker HALF_OPEN.
   */
  lemma ForeignExceptionEscapes<R, E>(s: Snapshot, threshold: int, resetTimeout: int,
                                      entryTime: int, e: E, exitTime: int)
    requires s.state != Open || entryTime - s.lastFailureTime > resetTimeout
    ensures var (t, r) := Step(s, threshold, resetTimeout, entryTime, Outcome<R, E>.ThrewOther(e), exitTime);
      && t.failureCount == s.failureCount && t.lastFailureTime == s.lastFailureTime
      && t.state == (if s.state == Closed then Closed else HalfOpen)
      && r == Failed(e)
  {
  }

  /** A success while CLOSED changes nothing: the failure count is not reset. */
  lemma ClosedSuccessKeepsCount<R, E>(s: Snapshot, threshold: int, resetTimeout: int,
                                      entryTime: int, v: R, exitTime: int)
    requires s.state == Closed
    ensures Step(s, threshold, resetTimeout, entryTime, Outcome<R, E>.Returned(v), exitTime) == (s, Ok(v))
  {
  }

  /** A failure that runs counts, records the time, opens at the threshold, and is re-raised. */
  lemma FailureOpensAtThreshold<R, E>(s: Snapshot, threshold: int, resetTimeout: int,
                                      entryTime: int, e: E, exitTime: int)
    requires s.state != Open || entryTime - s.lastFailureTime > resetTimeout
    ensures var (t, r) := Step(s, threshold, resetTimeout, entryTime, Outcome<R, E>.Threw(e), exitTime);
      && t.failureCount == s.failureCount + 1
      && t.lastFailureTime == exitTime
      && r == Failed(e)
      && (t.state == Open <==> s.failureCount + 1 >= threshold || s.state != Closed)
      && (t.state != Open ==> t.state == Closed)
  {
  }

  /** The count never goes down, except to 0 when a probe closes the breaker. */
  lemma CountMonotone<R, E>(s: Snapshot, threshold: int, resetTimeout: int,
                            entryTime: int, outcome: Outcome<R, E>, exitTime: int)
    ensures var t := Step(s, threshold, resetTimeout, entryTime, outcome, exitTime).0;
      t.failureCount >= s.failureCount ||
      (t == Snapshot(Closed, 0, s.lastFailureTime) && s.state != Closed && outcome.Returned?)
  {
  }

  lemma StepConsistent<R, E>(s: Snapshot, threshold: int, resetTimeout: int,
                             entryTime: int, outcome: Outcome<R, E>, exitTime: int)
    requires Consistent(s)
    ensures Consistent(Step(s, threshold, resetTimeout, entryTime, outcome, exitTime).0)
  {
  }

  // ---------------------------------------------------------------------
  // Properties of call sequences
  // ---------------------------------------------------------------------

  lemma {:induction false} RunConsistent<R, E>(s: Snapshot, threshold: int, resetTimeout: int, calls: seq<Call<R, E>>)
    requires Consistent(s)
    ensures Consistent(Run(s, threshold, resetTimeout, calls))
    decreases |calls|
  {
    if calls != [] {
      var c := calls[0];
      StepConsistent(s, threshold, resetTimeout, c.entryTime, c.outcome, c.exitTime);
      RunConsistent(Step(s, threshold, resetTimeout, c.entryTime, c.outcome, c.exitTime).0, threshold, resetTimeout, calls[1..]);
    }
  }

  predicate AllFail<R, E>(calls: seq<Call<R, E>>)
  {
    forall i :: 0 <= i < |calls| ==> calls[i].outcome.Threw?
  }

  /** Once OPEN, a breaker whose calls all fail stays OPEN. */
  lemma {:induction false} OpenStaysOpenOnFailures<R, E>(s: Snapshot, threshold: int, resetTimeout: int, calls: seq<Call<R, E>>)
    requires s.state == Open && AllFail(calls)
    ensures Run(s, threshold, resetTimeout, calls).state == Open
    decreases |calls|
  {
    if calls != [] {
      var c := calls[0];
      var t := Step(s, threshold, resetTimeout, c.entryTime, c.outcome, c.exitTime).0;
      assert t.state == Open;
      assert AllFail(calls[1..]) by {
        forall i | 0 <= i < |calls[1..]| ensures calls[1..][i].outcome.Threw? {
          assert calls[1..][i] == calls[i + 1];
        }
      }
      OpenStaysOpenOnFailures(t, threshold, resetTimeout, calls[1..]);
    }
  }

  /**
   * Consecutive failures from a CLOSED breaker open it once the count reaches
   * the threshold, and keep it open whatever the clock says.
   */
  lemma {:induction false} FailuresReachThreshold<R, E>(s: Snapshot, threshold: int, resetTimeout: int, calls: seq<Call<R, E>>)
    requires s.state == Closed && AllFail(calls)
    requires |calls| >= 1 && s.failureCount + |calls| >= threshold
    ensures Run(s, threshold, resetTimeout, calls).state == Open
    decreases |calls|
  {
    var c := calls[0];
    var t := Step(s, threshold, resetTimeout, c.entryTime, c.outcome, c.exitTime).0;
    assert t.failureCount == s.failureCount + 1;
    assert AllFail(calls[1..]) by {
      forall i | 0 <= i < |calls[1..]| ensures calls[1..][i].outcome.Threw? {
        assert calls[1..][i] == calls[i + 1];
      }
    }
    if t.state == Open {
      OpenStaysOpenOnFailures(t, threshold, resetTimeout, calls[1..]);
    } else {
      assert t.state == Closed;
      FailuresReachThreshold(t, threshold, resetTimeout, calls[1..]);
    }
  }

  /**
   * With the default threshold, five failures from a new breaker open it, and
   * a sixth call within the timeout is blocked without running.
   */
  lemma FiveFailuresThenBlocked<R, E>(calls: seq<Call<R, E>>, resetTimeout: int,
                                      entryTime: int, outcome: Outcome<R, E>, exitTime: int)
    requires |calls| == 5 && AllFail(calls)
    requires entryTime - Run(Initial, DefaultFailureThreshold, resetTimeout, calls).lastFailureTime <= resetTimeout
    ensures var s := Run(Initial, DefaultFailureThreshold, resetTimeout, calls);
      s.state == Open &&
      Step(s, DefaultFailureThreshold, resetTimeout, entryTime, outcome, exitTime) == (s, Blocked)
  {
    FailuresReachThreshold(Initial, DefaultFailureThreshold, resetTimeout, calls);
  }
}
