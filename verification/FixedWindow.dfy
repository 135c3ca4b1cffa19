/**
 The per-method fixed-window limiter of the service middleware. Times are nanoseconds.
 */
module FixedWindow {
  import opened Arithmetic

  datatype Counter = Counter(maxRequests: int, window: int, counts: map<string, int>, lastReset: int)

  function Created(maxRequests: int, window: int, now: int): Counter {
    Counter(maxRequests, window, map[], now)
  }

  predicate Resets(c: Counter, now: int) {
    now - c.lastReset > c.window
  }

  function Rolled(c: Counter, now: int): Counter {
    if Resets(c, now) then c.(counts := map[], lastReset := now) else c
  }

  function CountOf(c: Counter, name: string): int {
    if name in c.counts then c.counts[name] else 0
  }

  predicate Admits(c: Counter, name: string, now: int) {
    CountOf(Rolled(c, now), name) < c.maxRequests
  }

  function Step(c: Counter, name: string, now: int): Counter {
    var r := Rolled(c, now);
    if Admits(c, name, now) then r.(counts := r.counts[name := CountOf(r, name) + 1]) else r
  }

  // ---- Whole runs --------------------------------------------------------------------

  datatype Call = Call(name: string, at: int)

  ghost predicate InOrder(created: int, calls: seq<Call>) {
    && (forall i | 0 <= i < |calls| :: created <= calls[i].at)
    && (forall i, j | 0 <= i <= j < |calls| :: calls[i].at <= calls[j].at)
  }

  function Run(start: Counter, calls: seq<Call>): Counter {
    if calls == [] then start
    else
      var last := calls[|calls| - 1];
      Step(Run(start, calls[..|calls| - 1]), last.name, last.at)
  }

  /** How many calls of one method were admitted at times in [from, to]. */
  function Admitted(start: Counter, calls: seq<Call>, name: string, from: int, to: int): nat {
    if calls == [] then 0
    else
      var before, last := calls[..|calls| - 1], calls[|calls| - 1];
      Admitted(start, before, name, from, to)
        + if last.name == name && from <= last.at <= to && Admits(Run(start, before), name, last.at) then 1 else 0
  }

  /** How many resets happened once some call had been admitted in [from, to]. */
  function ResetsAfter(start: Counter, calls: seq<Call>, name: string, from: int, to: int): nat {
    if calls == [] then 0
    else
      var before, last := calls[..|calls| - 1], calls[|calls| - 1];
      ResetsAfter(start, before, name, from, to)
        + if Admitted(start, before, name, from, to) > 0 && Resets(Run(start, before), last.at) then 1 else 0
  }

  function Cap(maxRequests: int): nat {
    if maxRequests < 0 then 0 else maxRequests
  }

  function CeilDiv(a: int, b: int): int
    requires b > 0
  {
    (a + b - 1) / b
  }

  /** How many windows can admit calls within a closed interval of the given length. */
  function WindowsIn(length: nat, window: nat): nat
    ensures WindowsIn(length, window) >= 1
  {
    if length == 0 then 1 else (length - 1) / (window + 1) + 2
  }

  lemma {:induction false} Settings(start: Counter, calls: seq<Call>)
    ensures Run(start, calls).maxRequests == start.maxRequests && Run(start, calls).window == start.window
  {
    if calls != [] {
      Settings(start, calls[..|calls| - 1]);
    }
  }

  lemma {:induction false} NoneBefore(start: Counter, calls: seq<Call>, name: string, from: int, to: int)
    requires forall i | 0 <= i < |calls| :: calls[i].at < from
    ensures Admitted(start, calls, name, from, to) == 0
    ensures ResetsAfter(start, calls, name, from, to) == 0
  {
    if calls != [] {
      NoneBefore(start, calls[..|calls| - 1], name, from, to);
    }
  }

  /** What holds of a counter once `admitted` calls were let through since `from`, and then `e` resets made. */
  ghost predicate Spread(c: Counter, e: nat, admitted: nat, name: string, from: int, now: int) {
    && 0 <= CountOf(c, name) <= Cap(c.maxRequests)
    && admitted <= Lots(e, Cap(c.maxRequests)) + CountOf(c, name)
    && (admitted > 0 ==> from <= c.lastReset + c.window)
    && (e >= 1 ==> Lots(e - 1, c.window + 1) + 1 <= c.lastReset - from)
    && c.lastReset <= now
  }

  lemma SpreadStep(c: Counter, e: nat, admitted: nat, name: string, caller: string, from: int, was: int, now: int)
    requires c.window >= 0 && was <= now && from <= now && Spread(c, e, admitted, name, from, was)
    ensures Spread(Step(c, caller, now), e + (if admitted > 0 && Resets(c, now) then 1 else 0),
                   admitted + (if caller == name && Admits(c, name, now) then 1 else 0), name, from, now)
  {
    if Resets(c, now) {
      assert CountOf(Rolled(c, now), name) == 0;
      LotsGrow(0, e, Cap(c.maxRequests));
    }
  }

  /** Before `from` nothing is counted yet. */
  lemma QuietStep(c: Counter, name: string, caller: string, from: int, was: int, now: int)
    requires was <= now && Spread(c, 0, 0, name, from, was)
    ensures Spread(Step(c, caller, now), 0, 0, name, from, now)
  {
    assert CountOf(Rolled(c, now), name) == 0 || !Resets(c, now);
  }

  /** Every epoch admits at most the cap, and the epochs after the first admitted call are spread out. */
  lemma {:induction false} Epochs(maxRequests: int, window: nat, created: int, calls: seq<Call>,
                                  name: string, from: int, to: int)
    requires InOrder(created, calls)
    requires calls != [] ==> calls[|calls| - 1].at <= to
    ensures var start := Created(maxRequests, window, created);
            Spread(Run(start, calls), ResetsAfter(start, calls, name, from, to),
                   Admitted(start, calls, name, from, to),
                   name, from, if calls == [] then created else calls[|calls| - 1].at)
  {
    if calls != [] {
      var start := Created(maxRequests, window, created);
      var before, last := calls[..|calls| - 1], calls[|calls| - 1];
      Epochs(maxRequests, window, created, before, name, from, to);
      Settings(start, before);
      var was := if before == [] then created else before[|before| - 1].at;
      if last.at < from {
        NoneBefore(start, calls, name, from, to);
        NoneBefore(start, before, name, from, to);
        QuietStep(Run(start, before), name, last.name, from, was, last.at);
      } else {
        SpreadStep(Run(start, before), ResetsAfter(start, before, name, from, to),
                   Admitted(start, before, name, from, to), name, last.name, from, was, last.at);
      }
    }
  }

  lemma ProductGrows(a: int, b: int, x: nat)
    requires a <= b
    ensures a * x <= b * x
  {
  }

  lemma QuotientAtLeast(k: nat, divisor: int, length: int)
    requires divisor > 0 && k * divisor <= length
    ensures k <= length / divisor
  {
    var q := length / divisor;
    assert length < q * divisor + divisor == (q + 1) * divisor;
    if k > q {
      ProductGrows(q + 1, k, divisor);
    }
  }

  lemma SpreadOut(e: nat, window: nat, length: nat)
    requires e >= 1 ==> Lots(e - 1, window + 1) + 1 <= length
    ensures e + 1 <= WindowsIn(length, window)
  {
    if e >= 1 {
      LotsIsProduct(e - 1, window + 1);
      QuotientAtLeast(e - 1, window + 1, length - 1);
    }
  }

  lemma {:induction false} BoundInLots(maxRequests: int, window: nat, created: int, calls: seq<Call>,
                                       name: string, from: int, to: int, n: nat)
    requires from <= to && InOrder(created, calls) && n == WindowsIn(to - from, window)
    ensures Admitted(Created(maxRequests, window, created), calls, name, from, to) <= Lots(n, Cap(maxRequests))
  {
    LotsGrow(0, n, Cap(maxRequests));
    if calls != [] {
      if calls[|calls| - 1].at > to {
        BoundInLots(maxRequests, window, created, calls[..|calls| - 1], name, from, to, n);
      } else {
        Epochs(maxRequests, window, created, calls, name, from, to);
        Settings(Created(maxRequests, window, created), calls);
        var e := ResetsAfter(Created(maxRequests, window, created), calls, name, from, to);
        SpreadOut(e, window, to - from);
        LotsGrow(e + 1, n, Cap(maxRequests));
      }
    }
  }

  /**
   The window-counting bound: within a closed interval of length T > 0, one method is admitted at
   most maxRequests * ((T - 1) / (window + 1) + 2) times, and at most maxRequests times at one instant.
   */
  lemma SharpBound(maxRequests: int, window: nat, created: int, calls: seq<Call>, name: string, from: int, to: int)
    requires from <= to && InOrder(created, calls)
    ensures Admitted(Created(maxRequests, window, created), calls, name, from, to)
            <= WindowsIn(to - from, window) * Cap(maxRequests)
  {
    var n := WindowsIn(to - from, window);
    BoundInLots(maxRequests, window, created, calls, name, from, to, n);
    LotsIsProduct(n, Cap(maxRequests));
  }

  lemma WindowsAtMostCeil(length: nat, window: nat)
    requires length > 0 && window > 0
    ensures WindowsIn(length, window) <= CeilDiv(length, window) + 1
  {
    var q := (length - 1) / (window + 1);
    assert q * (window + 1) <= length - 1;
    ProductGrows(window, window + 1, q);
    assert (q + 1) * window == window * q + window && (window + 1) * q == q * (window + 1);
    QuotientAtLeast(q + 1, window, length + window - 1);
  }

  /** The same bound counted in windows begun: at most maxRequests * (ceil(T / window) + 1). */
  lemma WindowBound(maxRequests: int, window: nat, created: int, calls: seq<Call>, name: string, from: int, to: int)
    requires window > 0 && from < to && InOrder(created, calls)
    ensures Admitted(Created(maxRequests, window, created), calls, name, from, to)
            <= (CeilDiv(to - from, window) + 1) * Cap(maxRequests)
  {
    var n := WindowsIn(to - from, window);
    BoundInLots(maxRequests, window, created, calls, name, from, to, n);
    WindowsAtMostCeil(to - from, window);
    LotsGrow(n, CeilDiv(to - from, window) + 1, Cap(maxRequests));
    LotsIsProduct(CeilDiv(to - from, window) + 1, Cap(maxRequests));
  }

  /** In particular one window length, and even one unit more, never sees more than twice the limit. */
  lemma AtMostTwice(maxRequests: int, window: nat, created: int, calls: seq<Call>, name: string, from: int, to: int)
    requires from <= to <= from + window + 1 && InOrder(created, calls)
    ensures Admitted(Created(maxRequests, window, created), calls, name, from, to) <= 2 * Cap(maxRequests)
  {
    SharpBound(maxRequests, window, created, calls, name, from, to);
    assert WindowsIn(to - from, window) <= 2;
  }

  /** A refusal is always earned: the limit was reached within the last window. */
  lemma RefusalEarned(maxRequests: int, window: int, created: int, calls: seq<Call>, name: string, now: int)
    requires InOrder(created, calls) && forall i | 0 <= i < |calls| :: calls[i].at <= now
    requires created <= now && !Admits(Run(Created(maxRequests, window, created), calls), name, now)
    ensures Admitted(Created(maxRequests, window, created), calls, name, now - window, now) >= maxRequests
  {
    var c := Run(Created(maxRequests, window, created), calls);
    Settings(Created(maxRequests, window, created), calls);
    if Resets(c, now) {
      assert CountOf(Rolled(c, now), name) == 0;
    } else {
      CountedSinceReset(maxRequests, window, created, calls, name, now - window, now);
    }
  }

  /** What is counted was admitted after the last reset. */
  lemma {:induction false} CountedSinceReset(maxRequests: int, window: int, created: int, calls: seq<Call>,
                                             name: string, from: int, to: int)
    requires InOrder(created, calls) && forall i | 0 <= i < |calls| :: calls[i].at <= to
    ensures var start := Created(maxRequests, window, created);
            var c := Run(start, calls);
            && (from <= c.lastReset ==> CountOf(c, name) <= Admitted(start, calls, name, from, to))
            && c.lastReset >= created
            && (calls != [] ==> c.lastReset <= calls[|calls| - 1].at)
  {
    if calls != [] {
      CountedSinceReset(maxRequests, window, created, calls[..|calls| - 1], name, from, to);
    }
  }

  /** A negative window counts nothing: each call resets, and only a limit below 1 refuses. */
  lemma NegativeWindow(maxRequests: int, window: int, created: int, calls: seq<Call>, name: string, now: int)
    requires window < 0 && InOrder(created, calls) && created <= now
    requires forall i | 0 <= i < |calls| :: calls[i].at <= now
    ensures Admits(Run(Created(maxRequests, window, created), calls), name, now) <==> maxRequests >= 1
  {
    Settings(Created(maxRequests, window, created), calls);
    LastResetBefore(maxRequests, window, created, calls, now);
  }

  lemma {:induction false} LastResetBefore(maxRequests: int, window: int, created: int, calls: seq<Call>, now: int)
    requires created <= now && forall i | 0 <= i < |calls| :: calls[i].at <= now
    ensures Run(Created(maxRequests, window, created), calls).lastReset <= now
  {
    if calls != [] {
      LastResetBefore(maxRequests, window, created, calls[..|calls| - 1], now);
    }
  }

  // ---- The bound is reached ----------------------------------------------------------

  /** Calls to one method at one instant. */
  ghost predicate IsBurst(calls: seq<Call>, name: string, at: int) {
    forall i | 0 <= i < |calls| :: calls[i] == Call(name, at)
  }

  lemma OneMore(start: Counter, calls: seq<Call>, name: string, at: int, from: int, to: int)
    requires CountOf(Rolled(Run(start, calls), at), name) < start.maxRequests && start.window >= 0
    requires from <= at <= to
    ensures var all := calls + [Call(name, at)];
            && Admitted(start, all, name, from, to) == Admitted(start, calls, name, from, to) + 1
            && Rolled(Run(start, all), at).lastReset == Rolled(Run(start, calls), at).lastReset
            && CountOf(Rolled(Run(start, all), at), name) == CountOf(Rolled(Run(start, calls), at), name) + 1
  {
    assert (calls + [Call(name, at)])[..|calls|] == calls;
    Settings(start, calls);
  }

  /** A burst within the limit, into a window that has counted nothing, is admitted whole. */
  lemma {:induction false} BurstAdmitted(start: Counter, calls: seq<Call>, burst: seq<Call>,
                                         name: string, at: int, from: int, to: int)
    requires |burst| <= start.maxRequests && start.window >= 0 && from <= at <= to
    requires IsBurst(burst, name, at) && CountOf(Rolled(Run(start, calls), at), name) == 0
    ensures var all := calls + burst;
            && Admitted(start, all, name, from, to) == Admitted(start, calls, name, from, to) + |burst|
            && Rolled(Run(start, all), at).lastReset == Rolled(Run(start, calls), at).lastReset
            && CountOf(Rolled(Run(start, all), at), name) == |burst|
  {
    if burst == [] {
      assert calls + burst == calls;
    } else {
      var some := burst[..|burst| - 1];
      BurstAdmitted(start, calls, some, name, at, from, to);
      assert calls + burst == (calls + some) + [Call(name, at)];
      OneMore(start, calls + some, name, at, from, to);
    }
  }

  /** When the bursts of a train fall: at the last instant of the first window, then once per window. */
  ghost function BurstTime(edge: int, window: nat, j: nat): int {
    if j == 0 then edge else edge + 1 + Lots(j - 1, window + 1)
  }

  ghost function Burst(size: nat, name: string, at: int): (calls: seq<Call>)
    ensures |calls| == size && IsBurst(calls, name, at)
  {
    seq(size, _ => Call(name, at))
  }

  /** A train of `n` bursts, each of as many calls as the limit allows. */
  ghost function Train(maxRequests: nat, window: nat, name: string, edge: int, n: nat): seq<Call> {
    if n == 0 then []
    else Train(maxRequests, window, name, edge, n - 1)
         + Burst(maxRequests, name, BurstTime(edge, window, n - 1))
  }

  lemma BurstTimes(edge: int, window: nat, j: nat)
    ensures BurstTime(edge, window, j) >= edge
    ensures BurstTime(edge, window, j + 1) == BurstTime(edge, window, j) + (if j == 0 then 1 else window + 1)
  {
    LotsGrow(0, if j == 0 then 0 else j - 1, window + 1);
  }

  lemma {:induction false} TrainInOrder(maxRequests: nat, window: nat, name: string, edge: int, n: nat)
    requires n >= 1
    ensures InOrder(edge, Train(maxRequests, window, name, edge, n))
    ensures forall c | c in Train(maxRequests, window, name, edge, n) :: c.at <= BurstTime(edge, window, n - 1)
  {
    BurstTimes(edge, window, n - 1);
    if n > 1 {
      BurstTimes(edge, window, n - 2);
      TrainInOrder(maxRequests, window, name, edge, n - 1);
      var before := Train(maxRequests, window, name, edge, n - 1);
      assert forall i | 0 <= i < |before| :: before[i] in before;
    }
  }

  lemma ResetsLater(c: Counter, name: string, a: int, b: int)
    requires a <= b && b - Rolled(c, a).lastReset > c.window
    ensures Resets(c, b) && CountOf(Rolled(c, b), name) == 0 && Rolled(c, b).lastReset == b
  {
  }

  /** A burst that comes more than a window after the last reset is admitted whole and resets. */
  lemma BurstAfterWindow(start: Counter, calls: seq<Call>, burst: seq<Call>, name: string,
                         was: int, at: int, from: int, to: int)
    requires |burst| <= start.maxRequests && start.window >= 0 && IsBurst(burst, name, at) && from <= at <= to
    requires was <= at && at - Rolled(Run(start, calls), was).lastReset > start.window
    ensures Admitted(start, calls + burst, name, from, to) == Admitted(start, calls, name, from, to) + |burst|
    ensures Rolled(Run(start, calls + burst), at).lastReset == at
  {
    Settings(start, calls);
    ResetsLater(Run(start, calls), name, was, at);
    BurstAdmitted(start, calls, burst, name, at, from, to);
  }

  /** Every call of a train is admitted, because each burst after the first finds the counter reset. */
  lemma {:induction false} TrainAdmitted(maxRequests: nat, window: nat, created: int, name: string, n: nat, to: int)
    requires n >= 1 && BurstTime(created + window, window, n - 1) <= to
    ensures var start, edge := Created(maxRequests, window, created), created + window;
            var all := Train(maxRequests, window, name, edge, n);
            && Admitted(start, all, name, edge, to) == Lots(n, maxRequests)
            && Rolled(Run(start, all), BurstTime(edge, window, n - 1)).lastReset
               == (if n == 1 then created else BurstTime(edge, window, n - 1))
  {
    var start, edge := Created(maxRequests, window, created), created + window;
    var before, at := Train(maxRequests, window, name, edge, n - 1), BurstTime(edge, window, n - 1);
    var burst := Burst(maxRequests, name, at);
    BurstTimes(edge, window, n - 1);
    assert Train(maxRequests, window, name, edge, n) == before + burst;
    if n == 1 {
      BurstAdmitted(start, [], burst, name, at, edge, to);
    } else {
      BurstTimes(edge, window, n - 2);
      TrainAdmitted(maxRequests, window, created, name, n - 1, to);
      BurstAfterWindow(start, before, burst, name, BurstTime(edge, window, n - 2), at, edge, to);
    }
  }

  lemma TrainPasses(maxRequests: nat, window: nat, created: int, name: string, n: nat, to: int)
    requires n >= 1 && BurstTime(created + window, window, n - 1) <= to
    ensures var edge := created + window;
            var calls := Train(maxRequests, window, name, edge, n);
            && InOrder(created, calls)
            && Admitted(Created(maxRequests, window, created), calls, name, edge, to) == n * maxRequests
  {
    TrainInOrder(maxRequests, window, name, created + window, n);
    TrainAdmitted(maxRequests, window, created, name, n, to);
    LotsIsProduct(n, maxRequests);
  }

  lemma LastBurstFits(edge: int, window: nat, length: nat)
    ensures BurstTime(edge, window, WindowsIn(length, window) - 1) <= edge + length
  {
    var n := WindowsIn(length, window);
    if n >= 2 {
      LotsIsProduct(n - 2, window + 1);
    }
  }

  /** The bound is reached for every limit, every window and every length of the interval. */
  lemma SharpBoundReached(maxRequests: nat, window: nat, created: int, name: string, length: nat)
    ensures var n, edge := WindowsIn(length, window), created + window;
            var calls := Train(maxRequests, window, name, edge, n);
            && InOrder(created, calls)
            && Admitted(Created(maxRequests, window, created), calls, name, edge, edge + length) == n * maxRequests
  {
    LastBurstFits(created + window, window, length);
    TrainPasses(maxRequests, window, created, name, WindowsIn(length, window), created + window + length);
  }

  // ---- The limiter as the middleware runs it -----------------------------------------

  class Limiter {
    const maxRequests: int
    const window: int
    var requestCounts: map<string, int>
    var lastReset: int

    ghost function State(): Counter
      reads this
    {
      Counter(maxRequests, window, requestCounts, lastReset)
    }

    constructor (maxRequests: int, window: int, now: int)
      ensures State() == Created(maxRequests, window, now)
    {
      this.maxRequests := maxRequests;
      this.window := window;
      requestCounts := map[];
      lastReset := now;
    }

    /** `ok` is false when the call is answered with "rate limit exceeded". */
    method Intercept(name: string, now: int) returns (ok: bool)
      modifies this
      ensures ok == Admits(old(State()), name, now)
      ensures State() == Step(old(State()), name, now)
    {
      if now - lastReset > window {
        requestCounts := map[];
        lastReset := now;
      }
      var count := if name in requestCounts then requestCounts[name] else 0;
      if count >= maxRequests {
        return false;
      }
      requestCounts := requestCounts[name := count + 1];
      return true;
    }
  }
}
