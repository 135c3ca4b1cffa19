/**
 The lazy token bucket shared by the server limiter (one bucket) and the gateway limiter
 (one bucket a client), the log of verdicts it leaves behind, and the exact law it obeys.
 Times are seconds, tokens are reals.
 */
module TokenBucket {

  /** A bucket of `limit` tokens that earns `rate` tokens a second; the two have one sign. */
  datatype Config = Config(limit: int, rate: real) {
    ghost predicate Valid() {
      && (limit >= 1 ==> rate > 0.0)
      && (limit == 0 ==> rate == 0.0)
      && (limit <= -1 ==> rate < 0.0)
    }

    function Capacity(): real { limit as real }

    function Earned(seconds: real): real { seconds * rate }
  }

  datatype Bucket = Bucket(tokens: real, lastRefill: real)

  function Fresh(c: Config, now: real): Bucket {
    Bucket(c.Capacity(), now)
  }

  function Refill(c: Config, b: Bucket, now: real): Bucket
  {
    var earned := c.Earned(now - b.lastRefill);
    if earned > 0.0 then
      Bucket(if b.tokens + earned > c.Capacity() then c.Capacity() else b.tokens + earned, now)
    else
      b
  }

  function Admits(c: Config, b: Bucket, now: real): bool
  {
    Refill(c, b, now).tokens >= 1.0
  }

  function Take(c: Config, b: Bucket, now: real): Bucket
  {
    var r := Refill(c, b, now);
    if Admits(c, b, now) then r.(tokens := r.tokens - 1.0) else r
  }

  // ---- Whole runs -------------------------------------------------------------------

  datatype Call = Call(at: real, admitted: bool)

  /** Calls happen after creation and never before an earlier call. */
  ghost predicate Ordered(created: real, times: seq<real>) {
    && (forall i | 0 <= i < |times| :: created <= times[i])
    && (forall i, j | 0 <= i <= j < |times| :: times[i] <= times[j])
  }

  function Latest(created: real, times: seq<real>): real {
    if times == [] then created else times[|times| - 1]
  }

  /** The bucket left by a run of calls on a limiter created at `created`. */
  function After(c: Config, created: real, times: seq<real>): Bucket
  {
    if times == [] then Fresh(c, created)
    else Take(c, After(c, created, times[..|times| - 1]), times[|times| - 1])
  }

  /** What the next call at `now` is told after the run `times`. */
  predicate Verdict(c: Config, created: real, times: seq<real>, now: real)
  {
    Admits(c, After(c, created, times), now)
  }

  function Log(c: Config, created: real, times: seq<real>): (log: seq<Call>)
  {
    if times == [] then []
    else
      var before, now := times[..|times| - 1], times[|times| - 1];
      Log(c, created, before) + [Call(now, Verdict(c, created, before, now))]
  }

  /** How many calls were admitted in the closed window [from, to]. */
  function Admitted(log: seq<Call>, from: real, to: real): nat {
    if log == [] then 0
    else
      var last := log[|log| - 1];
      Admitted(log[..|log| - 1], from, to) + (if last.admitted && from <= last.at <= to then 1 else 0)
  }

  /** `n` admissions in a window of the given length respect burst plus sustained rate. */
  ghost predicate WithinBudget(c: Config, n: nat, length: real)
  {
    n as real <= c.Capacity() + c.Earned(length)
  }

  /** What the window from `s` to `now` still leaves, given the calls already logged. */
  ghost function Remainder(c: Config, created: real, times: seq<real>, s: real, now: real): real {
    c.Capacity() + c.Earned(now - s) - Admitted(Log(c, created, times), s, now) as real
  }

  /** The tokens a call at `now` finds after the refill. */
  function Level(c: Config, created: real, times: seq<real>, now: real): real {
    Refill(c, After(c, created, times), now).tokens
  }

  lemma EarnedAdds(c: Config, a: real, b: real)
    ensures c.Earned(a + b) == c.Earned(a) + c.Earned(b)
  {
  }

  lemma EarnedSign(c: Config, a: real)
    requires c.Valid() && c.limit >= 1 && a >= 0.0
    ensures c.Earned(a) >= 0.0
    ensures a > 0.0 ==> c.Earned(a) > 0.0
    ensures a == 0.0 ==> c.Earned(a) == 0.0
  {
  }

  lemma RefillTokens(c: Config, b: Bucket, now: real)
    requires c.Valid() && c.limit >= 1 && b.lastRefill <= now && b.tokens <= c.Capacity()
    ensures Refill(c, b, now).lastRefill == now
    ensures var full := b.tokens + c.Earned(now - b.lastRefill);
            Refill(c, b, now).tokens == if full > c.Capacity() then c.Capacity() else full
    ensures Refill(c, b, now).tokens >= b.tokens
  {
    EarnedSign(c, now - b.lastRefill);
  }

  lemma {:induction false} LogTimes(c: Config, created: real, times: seq<real>)
    requires Ordered(created, times)
    ensures |Log(c, created, times)| == |times|
    ensures forall i | 0 <= i < |times| :: Log(c, created, times)[i].at == times[i] <= Latest(created, times)
  {
    if times != [] {
      LogTimes(c, created, times[..|times| - 1]);
    }
  }

  lemma {:induction false} NoneAdmitted(log: seq<Call>, from: real, to: real)
    requires forall i | 0 <= i < |log| :: !(from <= log[i].at <= to)
    ensures Admitted(log, from, to) == 0
  {
    if log != [] {
      NoneAdmitted(log[..|log| - 1], from, to);
    }
  }

  /** Widening the right end past every logged call changes nothing. */
  lemma {:induction false} AdmittedUpTo(log: seq<Call>, from: real, to: real, to': real)
    requires to <= to' && forall i | 0 <= i < |log| :: log[i].at <= to
    ensures Admitted(log, from, to) == Admitted(log, from, to')
  {
    if log != [] {
      AdmittedUpTo(log[..|log| - 1], from, to, to');
    }
  }

  /** What any run leaves in a bucket; one of non-positive size never refills, and is never spent. */
  lemma {:induction false} TokensInRange(c: Config, created: real, times: seq<real>)
    requires c.Valid() && Ordered(created, times)
    ensures c.limit >= 0 ==> 0.0 <= After(c, created, times).tokens <= c.Capacity()
    ensures c.limit >= 1 ==> After(c, created, times).lastRefill == Latest(created, times)
    ensures c.limit <= 0 ==> After(c, created, times) == Fresh(c, created)
  {
    if times != [] {
      var before, now := times[..|times| - 1], times[|times| - 1];
      TokensInRange(c, created, before);
      if c.limit >= 1 {
        RefillTokens(c, After(c, created, before), now);
      } else {
        NoRefill(c, created, now);
      }
    }
  }

  lemma NoRefill(c: Config, created: real, now: real)
    requires c.Valid() && c.limit <= 0 && created <= now
    ensures Refill(c, Fresh(c, created), now) == Fresh(c, created)
    ensures Take(c, Fresh(c, created), now) == Fresh(c, created)
  {
    if c.limit < 0 {
      assert (now - created) * -c.rate >= 0.0;
    }
  }

  /** One more call takes its own admission off every window that reaches it. */
  lemma RemainderAfterCall(c: Config, created: real, before: seq<real>, t: real, s: real, now: real)
    requires Ordered(created, before + [t]) && s <= t <= now
    ensures Remainder(c, created, before + [t], s, now)
         == Remainder(c, created, before, s, t) + c.Earned(now - t)
            - (if Verdict(c, created, before, t) then 1.0 else 0.0)
  {
    var times, log := before + [t], Log(c, created, before);
    assert times[..|times| - 1] == before;
    var call := Call(t, Verdict(c, created, before, t));
    assert Log(c, created, times) == log + [call];
    assert (log + [call])[..|log|] == log;
    LogTimes(c, created, before);
    assert Latest(created, before) <= t by { if before != [] { assert times[|before| - 1] <= times[|before|]; } }
    AdmittedUpTo(log, s, t, now);
    assert now - s == (now - t) + (t - s);
    EarnedAdds(c, now - t, t - s);
  }

  lemma LevelAfterCall(c: Config, created: real, before: seq<real>, t: real, now: real)
    requires c.Valid() && c.limit >= 1 && Ordered(created, before + [t]) && t <= now
    ensures var sum := Level(c, created, before, t) - (if Verdict(c, created, before, t) then 1.0 else 0.0)
                       + c.Earned(now - t);
            Level(c, created, before + [t], now) == if sum > c.Capacity() then c.Capacity() else sum
  {
    assert (before + [t])[..|before|] == before;
    assert Ordered(created, before);
    TokensInRange(c, created, before);
    TokensInRange(c, created, before + [t]);
    RefillTokens(c, After(c, created, before + [t]), now);
  }

  lemma {:induction false} NoneTaken(c: Config, created: real, times: seq<real>, s: real, now: real)
    requires c.Valid() && c.limit <= 0
    ensures Admitted(Log(c, created, times), s, now) == 0
  {
    if times != [] {
      var before, last := times[..|times| - 1], times[|times| - 1];
      NeverAdmits(c, created, before, last);
      NoneTaken(c, created, before, s, now);
      var log := Log(c, created, before);
      assert (log + [Call(last, Verdict(c, created, before, last))])[..|log|] == log;
    }
  }

  /** The level never exceeds what any window leaves, wherever the window starts. */
  lemma LevelAtMost(c: Config, created: real, times: seq<real>, now: real, s: real)
    requires c.Valid() && c.limit >= 0 && Ordered(created, times) && Latest(created, times) <= now && s <= now
    ensures Level(c, created, times, now) <= Remainder(c, created, times, s, now)
  {
    if c.limit == 0 {
      NoneTaken(c, created, times, s, now);
      TokensInRange(c, created, times);
      CreatedFirst(created, times);
      NoRefill(c, created, now);
      assert c.Earned(now - s) == 0.0;
    } else {
      PositiveLevelAtMost(c, created, times, now, s);
    }
  }

  lemma CreatedFirst(created: real, times: seq<real>)
    requires Ordered(created, times)
    ensures created <= Latest(created, times)
  {
  }

  lemma {:induction false} PositiveLevelAtMost(c: Config, created: real, times: seq<real>, now: real, s: real)
    requires c.Valid() && c.limit >= 1 && Ordered(created, times) && Latest(created, times) <= now
    requires s <= now
    ensures Level(c, created, times, now) <= Remainder(c, created, times, s, now)
    decreases |times|
  {
    var was := Latest(created, times);
    TokensInRange(c, created, times);
    RefillTokens(c, After(c, created, times), now);
    if s > was || times == [] {
      LogTimes(c, created, times);
      NoneAdmitted(Log(c, created, times), s, now);
      EarnedSign(c, now - s);
    } else {
      var before := times[..|times| - 1];
      assert times == before + [was];
      assert Ordered(created, before);
      assert Latest(created, before) <= was;
      PositiveLevelAtMost(c, created, before, was, s);
      RemainderAfterCall(c, created, before, was, s, now);
      LevelAfterCall(c, created, before, was, now);
    }
  }

  /** And it is what the window from creation, from some call or from now leaves. */
  lemma LevelReached(c: Config, created: real, times: seq<real>, now: real) returns (s: real)
    requires c.Valid() && Ordered(created, times) && Latest(created, times) <= now
    ensures s in [created] + times + [now] && s <= now
    ensures Level(c, created, times, now) == Remainder(c, created, times, s, now)
  {
    if c.limit >= 1 {
      s := PositiveLevelReached(c, created, times, now);
    } else {
      s := now;
      NoneTaken(c, created, times, now, now);
      TokensInRange(c, created, times);
      CreatedFirst(created, times);
      NoRefill(c, created, now);
      assert c.Earned(now - now) == 0.0;
    }
  }

  lemma {:induction false} PositiveLevelReached(c: Config, created: real, times: seq<real>, now: real) returns (s: real)
    requires c.Valid() && c.limit >= 1 && Ordered(created, times) && Latest(created, times) <= now
    ensures s in [created] + times + [now] && s <= now
    ensures Level(c, created, times, now) == Remainder(c, created, times, s, now)
    decreases |times|
  {
    if times == [] {
      s := now;
      EarnedSign(c, now - created);
      EarnedSign(c, now - now);
    } else {
      var t, before := Latest(created, times), times[..|times| - 1];
      assert times == before + [t];
      assert Ordered(created, before);
      assert Latest(created, before) <= t;
      LevelAfterCall(c, created, before, t, now);
      s := PositiveLevelReached(c, created, before, t);
      RemainderAfterCall(c, created, before, t, s, now);
      if Level(c, created, times, now) != Remainder(c, created, times, s, now) {
        LevelCapped(c, created, before, t, now);
        s := now;
      }
    }
  }

  lemma LevelCapped(c: Config, created: real, before: seq<real>, t: real, now: real)
    requires c.Valid() && c.limit >= 1 && Ordered(created, before + [t]) && t <= now
    requires Level(c, created, before + [t], now) == c.Capacity()
    requires Level(c, created, before, t) - (if Verdict(c, created, before, t) then 1.0 else 0.0)
             + c.Earned(now - t) > c.Capacity()
    ensures Remainder(c, created, before + [t], now, now) == c.Capacity()
  {
    assert Ordered(created, before);
    TokensInRange(c, created, before);
    RefillTokens(c, After(c, created, before), t);
    if now == t {
      EarnedSign(c, 0.0);
    }
    LogTimes(c, created, before + [t]);
    NoneAdmitted(Log(c, created, before + [t]), now, now);
    EarnedSign(c, now - now);
  }

  /** A limiter of non-positive size never admits anything. */
  lemma {:induction false} NeverAdmits(c: Config, created: real, times: seq<real>, now: real)
    requires c.Valid() && c.limit <= 0
    ensures After(c, created, times).tokens <= c.Capacity()
    ensures !Verdict(c, created, times, now)
  {
    if times != [] {
      NeverAdmits(c, created, times[..|times| - 1], times[|times| - 1]);
    }
  }

  /** A window starting at `s` has room for one more call at `now`. */
  ghost predicate HasRoom(c: Config, created: real, times: seq<real>, s: real, now: real) {
    WithinBudget(c, 1 + Admitted(Log(c, created, times), s, now), now - s)
  }

  lemma RoomIsRemainder(c: Config, created: real, times: seq<real>, s: real, now: real)
    ensures HasRoom(c, created, times, s, now) <==> Remainder(c, created, times, s, now) >= 1.0
  {
  }

  lemma NoRoomAtAll(c: Config, created: real, times: seq<real>, now: real)
    requires c.limit <= 0
    ensures !HasRoom(c, created, times, now, now)
  {
    assert c.Earned(now - now) == 0.0;
  }

  /**
   The bucket is exact. A call at `now` is admitted if and only if, for every window that
   starts at creation, at an earlier call or at this call, the admissions in the window with
   this one added stay within limit + rate * length.
   */
  lemma ExactVerdict(c: Config, created: real, times: seq<real>, now: real)
    requires c.Valid() && Ordered(created, times + [now])
    ensures Verdict(c, created, times, now) <==>
            forall s | s in [created] + times + [now] :: HasRoom(c, created, times, s, now)
  {
    StartsBefore(created, times, now);
    if c.limit <= 0 {
      NeverAdmits(c, created, times, now);
      NoRoomAtAll(c, created, times, now);
    } else if Verdict(c, created, times, now) {
      forall s | s in [created] + times + [now] ensures HasRoom(c, created, times, s, now) {
        LevelAtMost(c, created, times, now, s);
        RoomIsRemainder(c, created, times, s, now);
      }
    } else {
      var s := LevelReached(c, created, times, now);
      RoomIsRemainder(c, created, times, s, now);
    }
  }

  lemma StartsBefore(created: real, times: seq<real>, now: real)
    requires Ordered(created, times + [now])
    ensures Ordered(created, times) && Latest(created, times) <= now
    ensures now in [created] + times + [now]
    ensures forall s | s in [created] + times + [now] :: s <= now
  {
    assert forall i | 0 <= i < |times| :: times[i] == (times + [now])[i];
    assert (times + [now])[|times|] == now;
  }

  /**
   No window of any run, wherever it starts and ends, exceeds burst plus sustained rate; a
   limiter of non-positive size admits nothing at all.
   */
  lemma EveryWindowBounded(c: Config, created: real, times: seq<real>, from: real, to: real)
    requires c.Valid() && Ordered(created, times) && from <= to
    ensures var n := Admitted(Log(c, created, times), from, to);
            if c.limit <= 0 then n == 0 else WithinBudget(c, n, to - from)
  {
    if c.limit <= 0 {
      NoneTaken(c, created, times, from, to);
    } else {
      PositiveWindowBounded(c, created, times, from, to);
    }
  }

  /** An admitted call fits, with all admitted since `from`, in any window that reaches past it. */
  lemma AdmittedCallFits(c: Config, created: real, before: seq<real>, now: real, from: real, to: real)
    requires c.Valid() && c.limit >= 1 && Ordered(created, before) && Latest(created, before) <= now
    requires from <= now <= to && Verdict(c, created, before, now)
    ensures WithinBudget(c, 1 + Admitted(Log(c, created, before), from, to), to - from)
  {
    LevelAtMost(c, created, before, now, from);
    LogTimes(c, created, before);
    AdmittedUpTo(Log(c, created, before), from, now, to);
    assert to - from == (to - now) + (now - from);
    EarnedAdds(c, to - now, now - from);
    EarnedSign(c, to - now);
  }

  lemma {:induction false} PositiveWindowBounded(c: Config, created: real, times: seq<real>, from: real, to: real)
    requires c.Valid() && c.limit >= 1 && Ordered(created, times) && from <= to
    ensures WithinBudget(c, Admitted(Log(c, created, times), from, to), to - from)
  {
    if times == [] {
      EarnedSign(c, to - from);
    } else {
      var before, now := times[..|times| - 1], times[|times| - 1];
      PositiveWindowBounded(c, created, before, from, to);
      var log := Log(c, created, before);
      var call := Call(now, Verdict(c, created, before, now));
      assert (log + [call])[..|log|] == log;
      if call.admitted && from <= now <= to {
        AdmittedCallFits(c, created, before, now, from, to);
      }
    }
  }
}

/** The server's limiter: one bucket for all callers. */
module ServerLimiter {
  import opened TokenBucket

  /** The limiter earns `limit` tokens a second. */
  function ServerConfig(limit: int): (c: Config)
    ensures c.Valid()
  {
    Config(limit, limit as real)
  }

  /** After an idle second, a limiter of positive size is full again. */
  lemma FullAfterASecond(limit: int, b: Bucket, now: real)
    requires limit >= 1 && 0.0 <= b.tokens && now - b.lastRefill >= 1.0
    ensures Refill(ServerConfig(limit), b, now) == Bucket(limit as real, now)
  {
    var idle := now - b.lastRefill;
    assert (idle - 1.0) * limit as real >= 0.0;
    assert idle * limit as real >= limit as real;
  }

  /** At most `limit`, plus `limit` for each second. */
  ghost predicate PerSecond(limit: int, n: nat, seconds: real) {
    n as real <= limit as real + limit as real * seconds
  }

  lemma BudgetIsPerSecond(limit: int, n: nat, seconds: real)
    ensures WithinBudget(ServerConfig(limit), n, seconds) <==> PerSecond(limit, n, seconds)
  {
    assert seconds * limit as real == limit as real * seconds;
  }

  /**
   The server's limit in numbers, for every limit: a call is admitted if and only if, for every
   window that starts at creation, at an earlier call or at this call, the admissions in it with
   this one added are at most `limit`, plus `limit` for each second of its length.
   */
  lemma ServerExact(limit: int, created: real, times: seq<real>, now: real)
    requires Ordered(created, times + [now])
    ensures Verdict(ServerConfig(limit), created, times, now) <==>
            forall s | s in [created] + times + [now] ::
              PerSecond(limit, 1 + Admitted(Log(ServerConfig(limit), created, times), s, now), now - s)
  {
    ExactVerdict(ServerConfig(limit), created, times, now);
    forall s | s in [created] + times + [now]
      ensures HasRoom(ServerConfig(limit), created, times, s, now) <==>
              PerSecond(limit, 1 + Admitted(Log(ServerConfig(limit), created, times), s, now), now - s)
    {
      BudgetIsPerSecond(limit, 1 + Admitted(Log(ServerConfig(limit), created, times), s, now), now - s);
    }
  }

  class RateLimiter {
    var limit: int
    var tokens: real
    var lastRefill: real
    var refillRate: real
    var bucketSize: int

    ghost function Settings(): Config
      reads this
    {
      ServerConfig(limit)
    }

    ghost function Contents(): Bucket
      reads this
    {
      Bucket(tokens, lastRefill)
    }

    ghost predicate Valid()
      reads this
    {
      bucketSize == limit && refillRate == Settings().rate
    }

    constructor (limit: int, now: real)
      ensures Valid() && this.limit == limit && Contents() == Fresh(Settings(), now)
    {
      this.limit := limit;
      tokens := limit as real;
      lastRefill := now;
      refillRate := limit as real;
      bucketSize := limit;
    }

    method Allow(now: real) returns (ok: bool)
      requires Valid()
      modifies this`tokens, this`lastRefill
      ensures Valid()
      ensures ok == Admits(Settings(), old(Contents()), now)
      ensures Contents() == Take(Settings(), old(Contents()), now)
    {
      var elapsed := now - lastRefill;
      var tokensToAdd := elapsed * refillRate;
      if tokensToAdd > 0.0 {
        tokens := if bucketSize as real <= tokens + tokensToAdd then bucketSize as real else tokens + tokensToAdd;
        lastRefill := now;
      }
      if tokens >= 1.0 {
        tokens := tokens - 1.0;
        return true;
      }
      return false;
    }
  }
}
