/**
 The gateway's per-client limiter: token buckets created on first use and collected once
 idle, and the proof that collecting them can never be noticed by a client.
 */
module GatewayLimiter {
  import opened TokenBucket

  const WINDOW: real := 60.0
  const CLEANUP_INTERVAL: real := 300.0

  /** `limit` tokens a minute. */
  function ClientConfig(limit: int): (c: Config)
    ensures c.Valid()
  {
    Config(limit, limit as real / 60.0)
  }

  // ---- The limiter as a value --------------------------------------------------------

  datatype Limiter = Limiter(limit: int, clients: map<string, Bucket>, lastCleanup: real)

  function Created(limit: int, now: real): Limiter {
    Limiter(limit, map[], now)
  }

  predicate Stale(b: Bucket, now: real) {
    b.lastRefill < now - 2.0 * WINDOW
  }

  function Collect(l: Limiter, now: real): Limiter {
    if now - l.lastCleanup > CLEANUP_INTERVAL then
      l.(clients := map k | k in l.clients && !Stale(l.clients[k], now) :: l.clients[k], lastCleanup := now)
    else
      l
  }

  function BucketOf(l: Limiter, key: string, now: real): Bucket {
    if key in l.clients then l.clients[key] else Fresh(ClientConfig(l.limit), now)
  }

  function Allowed(l: Limiter, key: string, now: real): bool {
    Admits(ClientConfig(l.limit), BucketOf(Collect(l, now), key, now), now)
  }

  function Step(l: Limiter, key: string, now: real): Limiter {
    var swept := Collect(l, now);
    swept.(clients := swept.clients[key := Take(ClientConfig(l.limit), BucketOf(swept, key, now), now)])
  }

  // ---- Whole runs --------------------------------------------------------------------

  datatype Request = Request(key: string, at: real)

  /** Requests come after creation and never before an earlier request. */
  ghost predicate InOrder(created: real, requests: seq<Request>) {
    && (forall i | 0 <= i < |requests| :: created <= requests[i].at)
    && (forall i, j | 0 <= i <= j < |requests| :: requests[i].at <= requests[j].at)
  }

  function Now(created: real, requests: seq<Request>): real {
    if requests == [] then created else requests[|requests| - 1].at
  }

  function Run(limit: int, created: real, requests: seq<Request>): Limiter {
    if requests == [] then Created(limit, created)
    else
      var last := requests[|requests| - 1];
      Step(Run(limit, created, requests[..|requests| - 1]), last.key, last.at)
  }

  /** When one client called: the only thing its verdicts should depend on. */
  function Own(requests: seq<Request>, key: string): seq<real> {
    if requests == [] then []
    else
      var last := requests[|requests| - 1];
      Own(requests[..|requests| - 1], key) + (if last.key == key then [last.at] else [])
  }

  /** A client's private bucket is created by its first call. */
  function Since(own: seq<real>, now: real): real {
    if own == [] then now else own[0]
  }

  /** The bucket of a client that has a limiter to itself, never collected. */
  function Solo(limit: int, own: seq<real>): Bucket
    requires own != []
  {
    After(ClientConfig(limit), own[0], own)
  }

  lemma OrderedAppend(created: real, times: seq<real>, t: real)
    requires Ordered(created, times) && Latest(created, times) <= t
    ensures Ordered(created, times + [t])
  {
    if times != [] {
      assert forall i | 0 <= i < |times| :: times[i] <= times[|times| - 1];
    }
  }

  lemma OrderedFromFirst(created: real, own: seq<real>, now: real)
    requires Ordered(created, own) && Latest(created, own) <= now
    ensures Ordered(Since(own, now), own)
    ensures forall i | 0 <= i < |own| :: own[i] <= now
  {
    if own != [] {
      assert forall i | 0 <= i < |own| :: own[0] <= own[i] <= own[|own| - 1];
    }
  }

  lemma {:induction false} OwnOrdered(created: real, requests: seq<Request>, key: string)
    requires InOrder(created, requests)
    ensures Ordered(created, Own(requests, key))
    ensures created <= Latest(created, Own(requests, key)) <= Now(created, requests)
  {
    if requests != [] {
      var before, last := requests[..|requests| - 1], requests[|requests| - 1];
      OwnOrdered(created, before, key);
      if last.key == key {
        OrderedAppend(created, Own(before, key), last.at);
      }
    }
  }

  lemma StaleIsFull(limit: int, b: Bucket, now: real)
    requires limit >= 1 && 0.0 <= b.tokens && Stale(b, now)
    ensures Refill(ClientConfig(limit), b, now) == Fresh(ClientConfig(limit), now)
  {
    var idle, rate := now - b.lastRefill, ClientConfig(limit).rate;
    assert (idle - 120.0) * rate >= 0.0;
    assert idle * rate >= 120.0 * rate == 2.0 * limit as real;
  }

  /** What the collected map says of one client, against that client's private bucket. */
  ghost predicate Agrees(l: Limiter, own: seq<real>, key: string) {
    && (own == [] ==> key !in l.clients)
    && (own != [] && key in l.clients ==> l.clients[key] == Solo(l.limit, own))
    && (own != [] && key !in l.clients && l.limit >= 1 ==> Stale(Solo(l.limit, own), l.lastCleanup))
  }

  lemma SoloExtends(limit: int, own: seq<real>, now: real)
    ensures Solo(limit, own + [now]) ==
            Take(ClientConfig(limit), if own == [] then Fresh(ClientConfig(limit), now) else Solo(limit, own), now)
  {
    var c := ClientConfig(limit);
    assert (own + [now])[..|own|] == own;
    if own == [] {
      assert After(c, now, [now]) == Take(c, After(c, now, []), now);
    } else {
      assert (own + [now])[0] == own[0];
    }
  }

  /** A call is served alike from the collected map and from the private bucket. */
  lemma SameService(l: Limiter, own: seq<real>, key: string, now: real)
    requires Agrees(l, own, key) && Ordered(Since(own, now), own) && l.lastCleanup <= now
    requires forall i | 0 <= i < |own| :: own[i] <= now
    requires l.limit >= 1
    ensures Refill(ClientConfig(l.limit), BucketOf(Collect(l, now), key, now), now)
         == Refill(ClientConfig(l.limit),
                   if own == [] then Fresh(ClientConfig(l.limit), now) else Solo(l.limit, own), now)
  {
    if own != [] {
      TokensInRange(ClientConfig(l.limit), own[0], own);
      if key !in Collect(l, now).clients {
        StaleIsFull(l.limit, Solo(l.limit, own), now);
      }
    }
  }

  lemma StepAgrees(l: Limiter, own: seq<real>, key: string, caller: string, now: real)
    requires Agrees(l, own, key) && Ordered(Since(own, now), own) && l.lastCleanup <= now && l.limit >= 1
    requires forall i | 0 <= i < |own| :: own[i] <= now
    ensures Agrees(Step(l, caller, now), own + (if caller == key then [now] else []), key)
  {
    if caller == key {
      SameService(l, own, key, now);
      SoloExtends(l.limit, own, now);
    } else {
      assert own + [] == own;
    }
  }

  lemma {:induction false} RunAgrees(limit: int, created: real, requests: seq<Request>, key: string)
    requires limit >= 1 && InOrder(created, requests)
    ensures var l := Run(limit, created, requests);
            && l.limit == limit
            && created <= l.lastCleanup <= Now(created, requests)
            && Agrees(l, Own(requests, key), key)
  {
    if requests != [] {
      var before, last := requests[..|requests| - 1], requests[|requests| - 1];
      RunAgrees(limit, created, before, key);
      OwnOrdered(created, before, key);
      OrderedFromFirst(created, Own(before, key), last.at);
      StepAgrees(Run(limit, created, before), Own(before, key), key, last.key, last.at);
    }
  }

  lemma {:induction false} RunNeverAdmits(limit: int, created: real, requests: seq<Request>)
    requires limit <= 0
    ensures var l := Run(limit, created, requests);
            l.limit == limit && forall k | k in l.clients :: l.clients[k].tokens <= limit as real
  {
    if requests != [] {
      RunNeverAdmits(limit, created, requests[..|requests| - 1]);
    }
  }

  /**
   Collection is invisible. Whatever the other clients do and whenever buckets are collected,
   a client is told exactly what a private, never collected bucket fed with its own calls
   would tell it.
   */
  lemma CollectionInvisible(limit: int, created: real, requests: seq<Request>, key: string, now: real)
    requires InOrder(created, requests) && Now(created, requests) <= now
    ensures var own := Own(requests, key);
            Allowed(Run(limit, created, requests), key, now)
            <==> Verdict(ClientConfig(limit), Since(own, now), own, now)
  {
    var l, own := Run(limit, created, requests), Own(requests, key);
    if limit >= 1 {
      RunAgrees(limit, created, requests, key);
      OwnOrdered(created, requests, key);
      OrderedFromFirst(created, own, now);
      SameService(l, own, key, now);
    } else {
      RunNeverAdmits(limit, created, requests);
      NeverAdmits(ClientConfig(limit), Since(own, now), own, now);
    }
  }

  lemma OwnThenNow(created: real, requests: seq<Request>, key: string, now: real)
    requires InOrder(created, requests) && Now(created, requests) <= now
    ensures var own := Own(requests, key); Ordered(Since(own, now), own + [now])
  {
    var own := Own(requests, key);
    OwnOrdered(created, requests, key);
    OrderedFromFirst(created, own, now);
    if own != [] {
      OrderedAppend(own[0], own, now);
    }
  }

  /** At most `limit`, plus `limit` for each minute. */
  ghost predicate PerMinute(limit: int, n: nat, seconds: real) {
    n as real <= limit as real + limit as real * seconds / 60.0
  }

  lemma BudgetIsPerMinute(limit: int, n: nat, seconds: real)
    ensures WithinBudget(ClientConfig(limit), n, seconds) <==> PerMinute(limit, n, seconds)
  {
    var rate := limit as real / 60.0;
    assert limit as real == 60.0 * rate;
    assert limit as real * seconds == 60.0 * (seconds * rate);
  }

  /** The bucket's creation is the client's first call, so it is no start of its own. */
  lemma OwnStarts(own: seq<real>, now: real, s: real)
    ensures s in [Since(own, now)] + own + [now] <==> s in own + [now]
  {
    assert own != [] ==> own[0] in own;
  }

  lemma ExactForOwn(limit: int, own: seq<real>, now: real)
    requires Ordered(Since(own, now), own + [now])
    ensures Verdict(ClientConfig(limit), Since(own, now), own, now)
            <==> forall s | s in own + [now] ::
                   PerMinute(limit, 1 + Admitted(Log(ClientConfig(limit), Since(own, now), own), s, now), now - s)
  {
    ExactVerdict(ClientConfig(limit), Since(own, now), own, now);
    forall s | s in own + [now]
      ensures HasRoom(ClientConfig(limit), Since(own, now), own, s, now) <==>
              PerMinute(limit, 1 + Admitted(Log(ClientConfig(limit), Since(own, now), own), s, now), now - s)
    {
      BudgetIsPerMinute(limit, 1 + Admitted(Log(ClientConfig(limit), Since(own, now), own), s, now), now - s);
    }
    forall s ensures s in [Since(own, now)] + own + [now] <==> s in own + [now] {
      OwnStarts(own, now, s);
    }
  }

  /**
   So the gateway, too, is exact, for every limit: a client is let through if and only if, for
   every window that starts at one of its own calls, this one included, its admissions in it with
   this one added are at most `limit`, plus `limit` for each minute of its length.
   */
  lemma GatewayExact(limit: int, created: real, requests: seq<Request>, key: string, now: real)
    requires InOrder(created, requests) && Now(created, requests) <= now
    ensures var own := Own(requests, key);
            Allowed(Run(limit, created, requests), key, now)
            <==> forall s | s in own + [now] ::
                   PerMinute(limit, 1 + Admitted(Log(ClientConfig(limit), Since(own, now), own), s, now), now - s)
  {
    CollectionInvisible(limit, created, requests, key, now);
    OwnThenNow(created, requests, key, now);
    ExactForOwn(limit, Own(requests, key), now);
  }

  /**
   When a client's bucket is dropped: at a call that comes more than five minutes after the last
   sweep, if the bucket was last refilled more than two minutes before and is not the caller's.
   */
  lemma SweepsExactly(l: Limiter, key: string, now: real, other: string)
    requires other != key
    ensures var l' := Step(l, key, now);
            && (other in l'.clients <==>
                  other in l.clients && (now - l.lastCleanup <= 300.0 || now - l.clients[other].lastRefill <= 120.0))
            && (other in l'.clients ==> l'.clients[other] == l.clients[other])
            && l'.lastCleanup == if now - l.lastCleanup > 300.0 then now else l.lastCleanup
  {
  }

  /**
   Memory is bounded in time: after any call, every bucket still held was refilled within
   the last cleanup interval plus two windows, and holds between 0 and `limit` tokens when the
   limit is not negative.
   */
  lemma {:induction false} BoundedRetention(limit: int, created: real, requests: seq<Request>)
    requires InOrder(created, requests)
    ensures var l, now := Run(limit, created, requests), Now(created, requests);
            && l.limit == limit
            && l.lastCleanup <= now <= l.lastCleanup + 300.0
            && forall k | k in l.clients ::
                 && l.lastCleanup - 120.0 <= l.clients[k].lastRefill <= now
                 && now - 420.0 <= l.clients[k].lastRefill
                 && (limit >= 0 ==> 0.0 <= l.clients[k].tokens <= limit as real)
  {
    if requests != [] {
      var before, last := requests[..|requests| - 1], requests[|requests| - 1];
      BoundedRetention(limit, created, before);
      var swept := Collect(Run(limit, created, before), last.at);
      TakeInRange(ClientConfig(limit), BucketOf(swept, last.key, last.at), last.at);
    }
  }

  lemma TakeInRange(c: Config, b: Bucket, now: real)
    requires c.Valid() && b.lastRefill <= now
    ensures 0.0 <= b.tokens <= c.Capacity() ==> 0.0 <= Take(c, b, now).tokens <= c.Capacity()
    ensures b.lastRefill <= Take(c, b, now).lastRefill <= now
  {
  }

  lemma StepReplacesOneBucket(l: Limiter, swept: Limiter, held: map<string, Bucket>, key: string, now: real)
    requires swept == Collect(l, now)
    requires held == swept.clients[key := BucketOf(swept, key, now)]
    ensures Step(l, key, now)
         == Limiter(l.limit, held[key := Take(ClientConfig(l.limit), held[key], now)], swept.lastCleanup)
    ensures Allowed(l, key, now) == Admits(ClientConfig(l.limit), held[key], now)
  {
  }

  // ---- The limiter as the gateway runs it --------------------------------------------

  class ClientLimiter {
    var tokens: real
    var lastRefill: real
    var refillRate: real
    var bucketSize: int

    constructor (limit: int, now: real)
      ensures tokens == limit as real && lastRefill == now
      ensures refillRate == limit as real / 60.0 && bucketSize == limit
    {
      tokens := limit as real;
      lastRefill := now;
      refillRate := limit as real / 60.0;
      bucketSize := limit;
    }

    ghost function Contents(): Bucket
      reads this
    {
      Bucket(tokens, lastRefill)
    }
  }

  class RateLimiter {
    var clientLimiters: map<string, ClientLimiter>
    var limit: int
    var window: real
    var cleanupInterval: real
    var lastCleanup: real

    ghost predicate Valid()
      reads this, clientLimiters.Values
    {
      && window == WINDOW && cleanupInterval == CLEANUP_INTERVAL
      && (forall k | k in clientLimiters ::
            clientLimiters[k].refillRate == limit as real / 60.0 && clientLimiters[k].bucketSize == limit)
      && (forall j, k | j in clientLimiters && k in clientLimiters && j != k ::
            clientLimiters[j] != clientLimiters[k])
    }

    ghost function Clients(): map<string, Bucket>
      reads this, clientLimiters.Values
    {
      map k | k in clientLimiters :: clientLimiters[k].Contents()
    }

    ghost function State(): Limiter
      reads this, clientLimiters.Values
    {
      Limiter(limit, Clients(), lastCleanup)
    }

    constructor (limit: int, now: real)
      ensures Valid() && State() == Created(limit, now)
    {
      clientLimiters := map[];
      this.limit := limit;
      window := WINDOW;
      cleanupInterval := CLEANUP_INTERVAL;
      lastCleanup := now;
    }

    method Allow(key: string, now: real) returns (ok: bool)
      requires Valid()
      modifies this, clientLimiters.Values
      ensures Valid() && fresh(clientLimiters.Values - old(clientLimiters.Values))
      ensures ok == Allowed(old(State()), key, now)
      ensures State() == Step(old(State()), key, now)
    {
      SweepIfDue(now);
      ghost var swept := State();
      ok := Serve(key, now);
      StepReplacesOneBucket(old(State()), swept, swept.clients[key := BucketOf(swept, key, now)], key, now);
    }

    /** Serves one call, creating the client's limiter if it has none. */
    method Serve(key: string, now: real) returns (ok: bool)
      requires Valid()
      modifies this`clientLimiters, clientLimiters.Values
      ensures Valid() && fresh(clientLimiters.Values - old(clientLimiters.Values))
      ensures ok == Admits(ClientConfig(limit), old(BucketOf(State(), key, now)), now)
      ensures Clients() == old(Clients())[key := Take(ClientConfig(limit), old(BucketOf(State(), key, now)), now)]
    {
      Ensure(key, now);
      ok := Charge(key, now);
    }

    method Ensure(key: string, now: real)
      requires Valid()
      modifies this`clientLimiters
      ensures Valid() && fresh(clientLimiters.Values - old(clientLimiters.Values))
      ensures key in clientLimiters
      ensures Clients() == old(Clients())[key := old(BucketOf(State(), key, now))]
      ensures key in old(clientLimiters) ==> clientLimiters == old(clientLimiters)
      ensures key !in old(clientLimiters) ==> fresh(clientLimiters[key])
    {
      if key !in clientLimiters {
        var client := new ClientLimiter(limit, now);
        clientLimiters := clientLimiters[key := client];
      }
    }

    method Charge(key: string, now: real) returns (ok: bool)
      requires Valid() && key in clientLimiters
      modifies clientLimiters[key]
      ensures Valid()
      ensures ok == Admits(ClientConfig(limit), old(Clients())[key], now)
      ensures Clients() == old(Clients())[key := Take(ClientConfig(limit), old(Clients())[key], now)]
    {
      ok := Spend(clientLimiters[key], now);
      assert forall k | k in clientLimiters && k != key ::
          clientLimiters[k].Contents() == old(clientLimiters[k].Contents());
    }

    method SweepIfDue(now: real)
      requires Valid()
      modifies this`clientLimiters, this`lastCleanup
      ensures Valid() && State() == Collect(old(State()), now)
      ensures clientLimiters.Values <= old(clientLimiters.Values)
    {
      if now - lastCleanup > cleanupInterval {
        Cleanup(now);
        lastCleanup := now;
      }
    }

    /** Refills the client's bucket and takes a token if there is one. */
    static method Spend(client: ClientLimiter, now: real) returns (ok: bool)
      modifies client`tokens, client`lastRefill
      ensures ok == Admits(Config(client.bucketSize, client.refillRate), old(client.Contents()), now)
      ensures client.Contents() == Take(Config(client.bucketSize, client.refillRate), old(client.Contents()), now)
    {
      var elapsed := now - client.lastRefill;
      var tokensToAdd := elapsed * client.refillRate;
      assert tokensToAdd == Config(client.bucketSize, client.refillRate).Earned(now - client.lastRefill);
      if tokensToAdd > 0.0 {
        if client.tokens + tokensToAdd > client.bucketSize as real {
          client.tokens := client.bucketSize as real;
        } else {
          client.tokens := client.tokens + tokensToAdd;
        }
        client.lastRefill := now;
      }
      ok := client.tokens >= 1.0;
      if ok {
        client.tokens := client.tokens - 1.0;
      }
    }

    method Cleanup(now: real)
      requires Valid()
      modifies this`clientLimiters
      ensures clientLimiters == map k | k in old(clientLimiters) && !Stale(old(clientLimiters)[k].Contents(), now)
                                      :: old(clientLimiters)[k]
    {
      var cutoff := now - 2.0 * window;
      var todo := clientLimiters.Keys;
      while todo != {}
        invariant todo <= clientLimiters.Keys
        invariant clientLimiters == map k | k in old(clientLimiters)
                                            && (k in todo || !Stale(old(clientLimiters)[k].Contents(), now))
                                          :: old(clientLimiters)[k]
        decreases todo
      {
        var key :| key in todo;
        todo := todo - {key};
        if clientLimiters[key].lastRefill < cutoff {
          clientLimiters := clientLimiters - {key};
        }
      }
    }
  }
}
