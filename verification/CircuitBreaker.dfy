/** The client's circuit breaker as a timed three-state machine. Times are nanoseconds. */
module CircuitBreaker {
  import opened Arithmetic

  datatype State = Closed | Open | HalfOpen

  datatype Breaker = Breaker(
    threshold: int, timeout: int, state: State, failureCount: int, lastFailure: int, successCount: int)

  function Created(threshold: int, timeout: int): Breaker {
    Breaker(threshold, timeout, Closed, 0, 0, 0)
  }

  datatype Event = Ask(at: int) | Failure(at: int) | Success(at: int)

  predicate Allowed(b: Breaker, now: int) {
    b.state != Open || now - b.lastFailure > b.timeout
  }

  function Step(b: Breaker, e: Event): Breaker {
    match e
    case Ask(now) =>
      if b.state == Open && now - b.lastFailure > b.timeout then b.(state := HalfOpen) else b
    case Failure(now) =>
      var counted := b.(failureCount := b.failureCount + 1, lastFailure := now);
      if b.state == Closed && counted.failureCount >= b.threshold then counted.(state := Open)
      else if b.state == HalfOpen then counted.(state := Open)
      else counted
    case Success(_) =>
      var counted := b.(successCount := b.successCount + 1);
      if b.state == HalfOpen then counted.(state := Closed, failureCount := 0) else counted
  }

  // ---- Whole runs --------------------------------------------------------------------

  ghost predicate InOrder(events: seq<Event>) {
    forall i, j | 0 <= i <= j < |events| :: events[i].at <= events[j].at
  }

  function Run(b: Breaker, events: seq<Event>): Breaker {
    if events == [] then b
    else Step(Run(b, events[..|events| - 1]), events[|events| - 1])
  }

  /** Closed-to-Open transitions. */
  function Trips(b: Breaker, events: seq<Event>): nat {
    if events == [] then 0
    else
      var before := events[..|events| - 1];
      Trips(b, before) + if Run(b, before).state == Closed && Run(b, events).state == Open then 1 else 0
  }

  function Failures(events: seq<Event>): nat {
    if events == [] then 0
    else Failures(events[..|events| - 1]) + if events[|events| - 1].Failure? then 1 else 0
  }

  /** Failures recorded while the breaker was not closed. */
  function LateFailures(b: Breaker, events: seq<Event>): nat {
    if events == [] then 0
    else
      var before := events[..|events| - 1];
      LateFailures(b, before)
        + if events[|events| - 1].Failure? && Run(b, before).state != Closed then 1 else 0
  }

  lemma {:induction false} Settings(b: Breaker, events: seq<Event>)
    ensures Run(b, events).threshold == b.threshold && Run(b, events).timeout == b.timeout
  {
    if events != [] {
      Settings(b, events[..|events| - 1]);
    }
  }

  /**
   Over every run the breaker is closed exactly while its failure count is below the
   threshold; this holds if and only if the threshold is positive.
   */
  lemma ClosedBelowThreshold(threshold: int, timeout: int)
    ensures threshold >= 1 <==>
            forall events :: var b := Run(Created(threshold, timeout), events);
              b.state == Closed <==> b.failureCount < b.threshold
  {
    if threshold >= 1 {
      forall events
        ensures var b := Run(Created(threshold, timeout), events);
                b.state == Closed <==> b.failureCount < b.threshold
      {
        CountTracksState(threshold, timeout, events);
        Settings(Created(threshold, timeout), events);
      }
    } else {
      assert Run(Created(threshold, timeout), []).state == Closed;
    }
  }

  lemma {:induction false} CountTracksState(threshold: int, timeout: int, events: seq<Event>)
    requires threshold >= 1
    ensures var b := Run(Created(threshold, timeout), events);
            && b.failureCount >= 0
            && (b.state == Closed <==> b.failureCount < threshold)
  {
    if events != [] {
      CountTracksState(threshold, timeout, events[..|events| - 1]);
      Settings(Created(threshold, timeout), events[..|events| - 1]);
    }
  }

  /** While not closed, `lastFailure` is the latest recorded failure; half-open, its timeout has passed. */
  ghost predicate Guarded(b: Breaker, events: seq<Event>, now: int) {
    b.state != Closed ==>
      && (exists i | 0 <= i < |events| :: events[i] == Failure(b.lastFailure))
      && (forall i | 0 <= i < |events| && events[i].Failure? :: events[i].at <= b.lastFailure)
      && (b.state == HalfOpen ==> now - b.lastFailure > b.timeout)
  }

  lemma {:induction false} AlwaysGuarded(threshold: int, timeout: int, events: seq<Event>, now: int)
    requires InOrder(events) && forall i | 0 <= i < |events| :: events[i].at <= now
    ensures Guarded(Run(Created(threshold, timeout), events), events, now)
  {
    if events != [] {
      var before, last := events[..|events| - 1], events[|events| - 1];
      AlwaysGuarded(threshold, timeout, before, last.at);
      var b := Run(Created(threshold, timeout), before);
      if b.state != Closed {
        var i :| 0 <= i < |before| && before[i] == Failure(b.lastFailure);
        assert events[i] == before[i];
      }
      if last.Failure? {
        assert events[|events| - 1] == Failure(last.at);
      }
    }
  }

  /**
   Safety over every run: a call that is let through finds the breaker closed, or comes more
   than the timeout after every failure ever recorded; a call that is turned away comes
   within the timeout of some recorded failure.
   */
  lemma AdmissionIsSafe(threshold: int, timeout: int, events: seq<Event>, now: int)
    requires InOrder(events) && forall i | 0 <= i < |events| :: events[i].at <= now
    ensures var b := Run(Created(threshold, timeout), events);
            && (Allowed(b, now) && b.state != Closed ==>
                  forall i | 0 <= i < |events| && events[i].Failure? :: now - events[i].at > timeout)
            && (!Allowed(b, now) ==>
                  exists i | 0 <= i < |events| && events[i].Failure? :: now - events[i].at <= timeout)
  {
    AlwaysGuarded(threshold, timeout, events, now);
    Settings(Created(threshold, timeout), events);
    var b := Run(Created(threshold, timeout), events);
    if !Allowed(b, now) {
      var i :| 0 <= i < |events| && events[i] == Failure(b.lastFailure);
      assert events[i].Failure? && now - events[i].at <= timeout;
    }
  }

  /**
   Conservation: every failure ever recorded either went into a trip, `threshold` at a time,
   or was recorded while not closed, or is still on the closed breaker's count.
   */
  lemma {:induction false} FailuresAccounted(threshold: nat, timeout: int, events: seq<Event>)
    requires threshold >= 1
    ensures var start := Created(threshold, timeout);
            var b := Run(start, events);
            Failures(events) == Lots(Trips(start, events), threshold) + LateFailures(start, events)
                                + if b.state == Closed then b.failureCount else 0
  {
    if events != [] {
      var before := events[..|events| - 1];
      FailuresAccounted(threshold, timeout, before);
      CountTracksState(threshold, timeout, before);
      Settings(Created(threshold, timeout), before);
    }
  }

  /** So a breaker cannot trip more often than one time per `threshold` failures. */
  lemma TripsArePaidFor(threshold: nat, timeout: int, events: seq<Event>)
    requires threshold >= 1
    ensures Trips(Created(threshold, timeout), events) * threshold <= Failures(events)
  {
    FailuresAccounted(threshold, timeout, events);
    CountTracksState(threshold, timeout, events);
    LotsIsProduct(Trips(Created(threshold, timeout), events), threshold);
  }

  /** The event at position `i` opens a closed breaker. */
  predicate TripsAt(b: Breaker, events: seq<Event>, i: nat) {
    i < |events| && Run(b, events[..i]).state == Closed && Run(b, events[..i + 1]).state == Open
  }

  /** What holds of a breaker ever after a trip at time `trip`. */
  predicate SinceTrip(b: Breaker, trip: int, now: int) {
    if b.state == Open then b.lastFailure >= trip else now - trip > b.timeout
  }

  lemma {:induction false} AlwaysSinceTrip(threshold: int, timeout: int, events: seq<Event>, i: nat)
    requires InOrder(events) && TripsAt(Created(threshold, timeout), events, i)
    ensures SinceTrip(Run(Created(threshold, timeout), events), events[i].at, events[|events| - 1].at)
  {
    var before, last := events[..|events| - 1], events[|events| - 1];
    if i < |before| {
      assert before[..i] == events[..i] && before[..i + 1] == events[..i + 1];
      AlwaysSinceTrip(threshold, timeout, before, i);
      Settings(Created(threshold, timeout), before);
    } else {
      assert events[..i + 1] == events;
    }
  }

  /** Any two trips are more than the timeout apart, however many failures are recorded in between. */
  lemma TripsApart(threshold: int, timeout: int, events: seq<Event>, i: nat, j: nat)
    requires InOrder(events) && i < j
    requires TripsAt(Created(threshold, timeout), events, i) && TripsAt(Created(threshold, timeout), events, j)
    ensures events[j].at - events[i].at > timeout
  {
    assert events[..j][..i] == events[..i] && events[..j][..i + 1] == events[..i + 1];
    AlwaysSinceTrip(threshold, timeout, events[..j], i);
    Settings(Created(threshold, timeout), events[..j]);
  }

  lemma {:induction false} StaysClosed(b: Breaker, events: seq<Event>)
    requires b.state == Closed && b.failureCount + Failures(events) < b.threshold
    ensures Run(b, events).state == Closed && Run(b, events).failureCount == b.failureCount + Failures(events)
  {
    if events != [] {
      StaysClosed(b, events[..|events| - 1]);
      Settings(b, events[..|events| - 1]);
    }
  }

  /**
   Recovery: once every recorded failure is older than the timeout, a call is let through, and
   if it succeeds the breaker is closed and stays closed over any run with fewer than
   `threshold` new failures.
   */
  lemma TrialRecovers(threshold: int, timeout: int, past: seq<Event>, now: int, done: int, future: seq<Event>)
    requires threshold >= 1 && InOrder(past)
    requires forall i | 0 <= i < |past| :: past[i].at <= now && (past[i].Failure? ==> now - past[i].at > timeout)
    requires Run(Created(threshold, timeout), past).state != Closed && Failures(future) < threshold
    ensures var b := Run(Created(threshold, timeout), past);
            && Allowed(b, now)
            && Run(Step(Step(b, Ask(now)), Success(done)), future).state == Closed
  {
    var b := Run(Created(threshold, timeout), past);
    AdmissionIsSafe(threshold, timeout, past, now);
    Settings(Created(threshold, timeout), past);
    StaysClosed(Step(Step(b, Ask(now)), Success(done)), future);
  }

  /**
   A failed trial reopens at once. If the breaker would turn a call away at some moment, and a
   call comes once it is let through again and fails, then every call within the timeout of that
   failure is turned away, however high the threshold.
   */
  lemma FailedTrialReopens(threshold: int, timeout: int, past: seq<Event>, refused: int, now: int, failed: int,
                           later: int)
    requires !Allowed(Run(Created(threshold, timeout), past), refused)
    requires Allowed(Run(Created(threshold, timeout), past), now) && later - failed <= timeout
    ensures var trial := Step(Run(Created(threshold, timeout), past), Ask(now));
            && Allowed(trial, failed)
            && !Allowed(Step(trial, Failure(failed)), later)
  {
    Settings(Created(threshold, timeout), past);
  }

  /** Failures recorded since the breaker last went from half-open to closed. */
  function FailuresSinceReset(b: Breaker, events: seq<Event>): nat {
    if events == [] then 0
    else
      var before, last := events[..|events| - 1], events[|events| - 1];
      if last.Failure? then FailuresSinceReset(b, before) + 1
      else if last.Success? && Run(b, before).state == HalfOpen then 0
      else FailuresSinceReset(b, before)
  }

  /** The failure count, exactly, in every state. */
  lemma {:induction false} FailuresCounted(threshold: int, timeout: int, events: seq<Event>)
    ensures var start := Created(threshold, timeout);
            Run(start, events).failureCount == FailuresSinceReset(start, events)
  {
    if events != [] {
      FailuresCounted(threshold, timeout, events[..|events| - 1]);
    }
  }

  function Successes(events: seq<Event>): nat {
    if events == [] then 0
    else Successes(events[..|events| - 1]) + if events[|events| - 1].Success? then 1 else 0
  }

  /** Every recorded success is counted once, in whatever state. */
  lemma {:induction false} SuccessesCounted(threshold: int, timeout: int, events: seq<Event>)
    ensures Run(Created(threshold, timeout), events).successCount == Successes(events)
  {
    if events != [] {
      SuccessesCounted(threshold, timeout, events[..|events| - 1]);
    }
  }

  // ---- The breaker as the client runs it ---------------------------------------------

  class CircuitBreaker {
    var failureCount: int
    var lastFailure: int
    var state: State
    const threshold: int
    const timeout: int
    var successCount: int

    ghost function Value(): Breaker
      reads this
    {
      Breaker(threshold, timeout, state, failureCount, lastFailure, successCount)
    }

    constructor (threshold: int, timeout: int)
      ensures Value() == Created(threshold, timeout)
    {
      this.threshold := threshold;
      this.timeout := timeout;
      state := Closed;
      failureCount, lastFailure, successCount := 0, 0, 0;
    }

    method IsAllowed(now: int) returns (ok: bool)
      modifies this`state
      ensures ok == Allowed(old(Value()), now)
      ensures Value() == Step(old(Value()), Ask(now))
    {
      match state
      case Closed => return true;
      case Open =>
        if now - lastFailure > timeout {
          state := HalfOpen;
          return true;
        }
        return false;
      case HalfOpen => return true;
    }

    method RecordFailure(now: int)
      modifies this
      ensures Value() == Step(old(Value()), Failure(now))
    {
      failureCount := failureCount + 1;
      lastFailure := now;
      if state == Closed && failureCount >= threshold {
        state := Open;
      } else if state == HalfOpen {
        state := Open;
      }
    }

    method RecordSuccess(now: int)
      modifies this
      ensures Value() == Step(old(Value()), Success(now))
    {
      successCount := successCount + 1;
      if state == HalfOpen {
        state := Closed;
        failureCount := 0;
      }
    }
  }
}
