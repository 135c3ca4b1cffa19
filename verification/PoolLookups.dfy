/**
 The connection pools when looking a pool up and being served by it are two steps, as the two
 locks make them: in between, the pool may be dropped by a cleanup or replaced by a Create, and
 the caller is then served by a pool that no longer has a name. A cleanup visits one pool at a time.
 */
module PoolLookups {
  import opened ConnectionPool
  import opened Wrappers

  type Pools = map<string, Pool>

  /** The named pools, the pools each action so far has dropped, and every connection ever dialled. */
  datatype Shared = Shared(m: Manager, adrift: seq<Pools>, dialled: set<nat>)

  datatype Action =
    | Do(op: Op)
    | Sweep(name: string, now: int)
    | LateServe(n: nat, name: string, now: int, dialOk: bool)
    | LateCheck(n: nat, name: string, verdicts: seq<bool>)

  ghost function Start(poolTimeout: int): Shared {
    Shared(Created(poolTimeout), [], {})
  }

  predicate Dropped(s: Shared, n: nat, name: string) {
    n < |s.adrift| && name in s.adrift[n]
  }

  /** Cleanups are made of sweeps; a late caller or health check holds a pool that was dropped. */
  ghost predicate Possible(s: Shared, a: Action) {
    match a
    case Do(op) => !op.Cleanup? && Applicable(s.m, op)
    case Sweep(name, _) => name in s.m.pools
    case LateServe(n, name, _, _) => Dropped(s, n, name)
    case LateCheck(n, name, verdicts) => Dropped(s, n, name) && |verdicts| == |s.adrift[n][name].conns|
  }

  ghost function IdsIn(pools: Pools): set<nat> {
    set name, id | name in pools && id in Ids(pools[name]) :: id
  }

  ghost function IdsAdrift(adrift: seq<Pools>): set<nat> {
    set n, id | 0 <= n < |adrift| && id in IdsIn(adrift[n]) :: id
  }

  /** The connection that serving a caller dials. */
  function Dialled(pool: Pool, now: int, dialOk: bool, id: nat): set<nat> {
    if Handout(pool, now, dialOk, id) == Some(id) then {id} else {}
  }

  ghost function OpenedBy(m: Manager, op: Op): set<nat>
    requires Applicable(m, op)
  {
    match op
    case Create(name, _, _, _) => Ids(Step(m, op).pools[name])
    case Obtain(name, now, dialOk) => if name in m.pools then Dialled(m.pools[name], now, dialOk, m.nextId) else {}
    case _ => {}
  }

  function DroppedBy(m: Manager, op: Op): Pools {
    if op.Create? && op.name in m.pools then map[op.name := m.pools[op.name]] else map[]
  }

  /** One pool's visit by a cleanup. */
  ghost function Swept(m: Manager, name: string, now: int): Manager
    requires name in m.pools
  {
    var pool := m.pools[name];
    m.(pools := if Abandoned(m, pool, now) then m.pools - {name} else m.pools[name := Cleaned(pool, now)],
       closed := m.closed + GivenUp(m, pool, now))
  }

  /** An action that is not possible changes nothing. */
  ghost function Next(s: Shared, a: Action): Shared {
    if !Possible(s, a) then s
    else
      match a
      case Do(op) => Shared(Step(s.m, op), s.adrift + [DroppedBy(s.m, op)], s.dialled + OpenedBy(s.m, op))
      case Sweep(name, now) =>
        var pool := s.m.pools[name];
        s.(m := Swept(s.m, name, now),
           adrift := s.adrift + [if Abandoned(s.m, pool, now) then map[name := Cleaned(pool, now)] else map[]])
      case LateServe(n, name, now, dialOk) =>
        var pool := s.adrift[n][name];
        Shared(s.m.(nextId := s.m.nextId + 1),
               s.adrift[n := s.adrift[n][name := AfterHandout(pool, now, dialOk, s.m.nextId)]],
               s.dialled + Dialled(pool, now, dialOk, s.m.nextId))
      case LateCheck(n, name, verdicts) =>
        var pool := s.adrift[n][name];
        s.(adrift := s.adrift[n := s.adrift[n][name := pool.(conns := Checked(pool.conns, verdicts))]])
  }

  /** The connection an action hands to its caller. */
  ghost function Handed(s: Shared, a: Action): Option<nat> {
    if !Possible(s, a) then None
    else
      match a
      case Do(Obtain(name, now, dialOk)) =>
        if name in s.m.pools then Handout(s.m.pools[name], now, dialOk, s.m.nextId) else None
      case LateServe(n, name, now, dialOk) => Handout(s.adrift[n][name], now, dialOk, s.m.nextId)
      case _ => None
  }

  ghost function Run(start: Shared, actions: seq<Action>): Shared {
    if actions == [] then start else Next(Run(start, actions[..|actions| - 1]), actions[|actions| - 1])
  }

  // ---- Every connection is accounted for ---------------------------------------------

  ghost predicate Balanced(s: Shared) {
    && Valid(s.m)
    && (forall id | id in IdsAdrift(s.adrift) :: id < s.m.nextId)
    && IdsIn(s.m.pools) !! IdsAdrift(s.adrift)
    && s.dialled == IdsIn(s.m.pools) + IdsAdrift(s.adrift) + s.m.closed
  }

  /** Connections that are open and that no named pool holds. */
  ghost function Leaked(s: Shared): set<nat> {
    s.dialled - s.m.closed - IdsIn(s.m.pools)
  }

  /** What an action loses: the connections of a pool that a Create replaces, and what a late caller dials. */
  ghost function Leaks(s: Shared, a: Action): set<nat> {
    if !Possible(s, a) then {}
    else
      match a
      case Do(Create(name, _, _, _)) => if name in s.m.pools then Ids(s.m.pools[name]) else {}
      case LateServe(n, name, now, dialOk) => Dialled(s.adrift[n][name], now, dialOk, s.m.nextId)
      case _ => {}
  }

  lemma IdsOfUpdate(pools: Pools, name: string, pool: Pool)
    requires forall a, b | a in pools && b in pools && a != b :: Ids(pools[a]) !! Ids(pools[b])
    ensures IdsIn(pools[name := pool])
            == IdsIn(pools) - (if name in pools then Ids(pools[name]) else {}) + Ids(pool)
  {
    var after := pools[name := pool];
    forall id: nat
      ensures id in IdsIn(after)
              <==> id in IdsIn(pools) - (if name in pools then Ids(pools[name]) else {}) + Ids(pool)
    {
      if id in Ids(pool) {
        assert name in after && id in Ids(after[name]);
      } else if a :| a in pools && id in Ids(pools[a]) && a != name {
        assert a in after && id in Ids(after[a]);
      }
    }
  }

  lemma IdsOfRemove(pools: Pools, name: string)
    requires name in pools
    requires forall a, b | a in pools && b in pools && a != b :: Ids(pools[a]) !! Ids(pools[b])
    ensures IdsIn(pools - {name}) == IdsIn(pools) - Ids(pools[name])
  {
    var after := pools - {name};
    forall id: nat ensures id in IdsIn(after) <==> id in IdsIn(pools) - Ids(pools[name]) {
      if a :| a in pools && id in Ids(pools[a]) && a != name {
        assert a in after && id in Ids(after[a]);
      }
    }
  }

  lemma IdsOfOne(name: string, pool: Pool)
    ensures IdsIn(map[name := pool]) == Ids(pool)
  {
    IdsOfUpdate(map[], name, pool);
  }

  lemma AdriftAppend(adrift: seq<Pools>, dropped: Pools)
    ensures IdsAdrift(adrift + [dropped]) == IdsAdrift(adrift) + IdsIn(dropped)
  {
    var after := adrift + [dropped];
    forall id: nat ensures id in IdsAdrift(after) <==> id in IdsAdrift(adrift) + IdsIn(dropped) {
      if n :| 0 <= n < |adrift| && id in IdsIn(adrift[n]) {
        assert after[n] == adrift[n];
      } else if id in IdsIn(dropped) {
        assert after[|adrift|] == dropped;
      }
    }
  }

  /** A dropped pool that gains some connections. */
  lemma AdriftGains(adrift: seq<Pools>, n: nat, name: string, pool: Pool, gained: set<nat>)
    requires n < |adrift| && name in adrift[n] && Ids(pool) == Ids(adrift[n][name]) + gained
    ensures IdsAdrift(adrift[n := adrift[n][name := pool]]) == IdsAdrift(adrift) + gained
  {
    var after := adrift[n := adrift[n][name := pool]];
    forall id: nat ensures id in IdsAdrift(after) <==> id in IdsAdrift(adrift) + gained {
      if k :| 0 <= k < |adrift| && id in IdsIn(adrift[k]) {
        var a :| a in adrift[k] && id in Ids(adrift[k][a]);
        assert a in after[k] && id in Ids(after[k][a]);
        assert id in IdsIn(after[k]);
      } else if id in gained {
        assert name in after[n] && id in Ids(after[n][name]);
        assert id in IdsIn(after[n]);
      }
    }
  }

  lemma HandoutGains(pool: Pool, now: int, dialOk: bool, id: nat)
    requires id !in Ids(pool)
    ensures Ids(AfterHandout(pool, now, dialOk, id)) == Ids(pool) + Dialled(pool, now, dialOk, id)
  {
    var after := AfterHandout(pool, now, dialOk, id);
    var i := FirstUsable(pool.conns, pool.config, now);
    if i < |pool.conns| {
      assert pool.conns[i].id in Ids(pool);
    }
    forall k | 0 <= k < |pool.conns| ensures after.conns[k].id == pool.conns[k].id {
    }
    forall x: nat ensures x in Ids(after) <==> x in Ids(pool) + Dialled(pool, now, dialOk, id) {
      if x in Ids(pool) {
        var k :| 0 <= k < |pool.conns| && pool.conns[k].id == x;
        assert after.conns[k].id == x;
      }
      if x in Dialled(pool, now, dialOk, id) {
        assert after.conns[|pool.conns|].id == x;
      }
    }
  }

  lemma CheckedIds(pool: Pool, verdicts: seq<bool>)
    requires |verdicts| == |pool.conns|
    ensures Ids(pool.(conns := Checked(pool.conns, verdicts))) == Ids(pool)
  {
    var after := pool.(conns := Checked(pool.conns, verdicts));
    assert forall i | 0 <= i < |pool.conns| :: after.conns[i].id == pool.conns[i].id;
  }

  lemma SweptPool(m: Manager, name: string, now: int)
    requires Valid(m) && name in m.pools
    ensures var pool := m.pools[name];
            && Ids(Cleaned(pool, now)) <= Ids(pool)
            && DistinctIds(Cleaned(pool, now).conns)
            && |Cleaned(pool, now).conns| <= pool.config.Limit()
            && (forall id | id in Ids(pool) :: id < m.nextId && id !in m.closed)
  {
    CleanedIds(m.pools[name], now);
  }

  lemma SweptIds(m: Manager, name: string, now: int)
    requires Valid(m) && name in m.pools
    ensures IdsIn(Swept(m, name, now).pools) == IdsIn(m.pools) - GivenUp(m, m.pools[name], now)
  {
    var pool := m.pools[name];
    SweptPool(m, name, now);
    if Abandoned(m, pool, now) {
      IdsOfRemove(m.pools, name);
    } else {
      IdsOfUpdate(m.pools, name, Cleaned(pool, now));
      assert Ids(pool) <= IdsIn(m.pools);
    }
  }

  lemma SweptValid(m: Manager, name: string, now: int)
    requires Valid(m) && name in m.pools
    ensures Valid(Swept(m, name, now))
  {
    SweptPool(m, name, now);
    var m', pool := Swept(m, name, now), m.pools[name];
    forall a | a in m'.pools ensures Ids(m'.pools[a]) <= Ids(m.pools[a]) {
    }
    forall a, i | a in m'.pools && 0 <= i < |m'.pools[a].conns|
      ensures m'.pools[a].conns[i].id < m.nextId && m'.pools[a].conns[i].id !in m'.closed
    {
      var id := m'.pools[a].conns[i].id;
      assert id in Ids(m'.pools[a]) && id in Ids(m.pools[a]);
      if a != name {
        assert Ids(m.pools[a]) !! Ids(pool);
      }
    }
  }

  lemma HeldIsOpen(m: Manager, id: nat)
    requires Valid(m) && id in IdsIn(m.pools)
    ensures id < m.nextId && id !in m.closed
  {
  }

  /** What a step keeps, and exactly how it changes the leak. */
  ghost predicate Steps(s: Shared, a: Action) {
    && Balanced(Next(s, a))
    && Leaked(Next(s, a)) == Leaked(s) + Leaks(s, a)
    && s.m.closed <= Next(s, a).m.closed
  }

  /** Bookkeeping of one step: some connections are dialled, some pools dropped, some connections closed. */
  lemma Books(named: set<nat>, adrift: set<nat>, closed: set<nat>, gained: set<nat>, strayed: set<nat>,
              lost: set<nat>, shut: set<nat>, named': set<nat>, adrift': set<nat>)
    requires named !! adrift && named !! closed && lost <= named && shut <= named && lost !! shut
    requires gained + strayed !! named + adrift + closed && gained !! strayed
    requires named' == named - lost - shut + gained
    requires adrift + strayed + lost <= adrift' <= adrift + strayed + lost + shut
    ensures named' !! adrift'
    ensures named + adrift + closed + gained + strayed == named' + adrift' + (closed + shut)
    ensures named' + adrift' + (closed + shut) - (closed + shut) - named'
            == named + adrift + closed - closed - named + (lost + strayed)
  {
  }

  /** Ids not given out yet are in none of the books. */
  lemma FreshIds(s: Shared, ids: set<nat>)
    requires Balanced(s) && forall id | id in ids :: s.m.nextId <= id
    ensures ids !! IdsIn(s.m.pools) + IdsAdrift(s.adrift) + s.m.closed
    ensures IdsIn(s.m.pools) !! s.m.closed
    ensures forall id | id in IdsIn(s.m.pools) + IdsAdrift(s.adrift) :: id < s.m.nextId
  {
    forall id | id in IdsIn(s.m.pools) ensures id < s.m.nextId && id !in s.m.closed {
      HeldIsOpen(s.m, id);
    }
  }

  /** The step did this to the books. */
  lemma Booked(s: Shared, a: Action, gained: set<nat>, strayed: set<nat>, lost: set<nat>, shut: set<nat>)
    requires Balanced(s) && Valid(Next(s, a).m) && s.m.nextId <= Next(s, a).m.nextId
    requires lost <= IdsIn(s.m.pools) && shut <= IdsIn(s.m.pools) && lost !! shut && gained !! strayed
    requires forall id | id in gained + strayed :: s.m.nextId <= id < Next(s, a).m.nextId
    requires Next(s, a).dialled == s.dialled + gained + strayed && Leaks(s, a) == lost + strayed
    requires Next(s, a).m.closed == s.m.closed + shut
    requires IdsIn(Next(s, a).m.pools) == IdsIn(s.m.pools) - lost - shut + gained
    requires var adrift, adrift' := IdsAdrift(s.adrift), IdsAdrift(Next(s, a).adrift);
             adrift + strayed + lost <= adrift' <= adrift + strayed + lost + shut
    ensures Steps(s, a)
  {
    var s' := Next(s, a);
    FreshIds(s, gained + strayed);
    Books(IdsIn(s.m.pools), IdsAdrift(s.adrift), s.m.closed, gained, strayed, lost, shut,
          IdsIn(s'.m.pools), IdsAdrift(s'.adrift));
    forall id | id in IdsAdrift(s'.adrift) ensures id < s'.m.nextId {
      assert id in IdsAdrift(s.adrift) + IdsIn(s.m.pools) + strayed;
    }
  }

  lemma CreateSteps(s: Shared, a: Action)
    requires Balanced(s) && Possible(s, a) && a.Do? && a.op.Create?
    ensures Steps(s, a)
  {
    var op, s' := a.op, Next(s, a);
    StepValid(s.m, op);
    var pool := s'.m.pools[op.name];
    OpenedIds(op.config, op.dials, s.m.nextId, op.now);
    IdsOfUpdate(s.m.pools, op.name, pool);
    AdriftAppend(s.adrift, DroppedBy(s.m, op));
    if op.name in s.m.pools {
      IdsOfOne(op.name, s.m.pools[op.name]);
      assert Ids(s.m.pools[op.name]) <= IdsIn(s.m.pools);
    }
    Booked(s, a, Ids(pool), {}, Leaks(s, a), {});
  }

  lemma ObtainSteps(s: Shared, a: Action)
    requires Balanced(s) && Possible(s, a) && a.Do? && a.op.Obtain?
    ensures Steps(s, a)
  {
    var m, op := s.m, a.op;
    StepValid(m, op);
    AdriftAppend(s.adrift, map[]);
    if op.name in m.pools {
      var pool := m.pools[op.name];
      assert Ids(pool) <= IdsIn(m.pools);
      HandoutGains(pool, op.now, op.dialOk, m.nextId);
      IdsOfUpdate(m.pools, op.name, AfterHandout(pool, op.now, op.dialOk, m.nextId));
    }
    Booked(s, a, OpenedBy(m, op), {}, {}, {});
  }

  lemma CheckSteps(s: Shared, a: Action)
    requires Balanced(s) && Possible(s, a) && a.Do? && a.op.Check?
    ensures Steps(s, a)
  {
    var op := a.op;
    StepValid(s.m, op);
    AdriftAppend(s.adrift, map[]);
    var pool := s.m.pools[op.name];
    CheckedIds(pool, op.verdicts);
    assert Ids(pool) <= IdsIn(s.m.pools);
    IdsOfUpdate(s.m.pools, op.name, pool.(conns := Checked(pool.conns, op.verdicts)));
    Booked(s, a, {}, {}, {}, {});
  }

  lemma SweepSteps(s: Shared, a: Action)
    requires Balanced(s) && Possible(s, a) && a.Sweep?
    ensures Steps(s, a)
  {
    var pool := s.m.pools[a.name];
    SweptValid(s.m, a.name, a.now);
    SweptIds(s.m, a.name, a.now);
    SweptPool(s.m, a.name, a.now);
    IdsOfOne(a.name, Cleaned(pool, a.now));
    AdriftAppend(s.adrift, if Abandoned(s.m, pool, a.now) then map[a.name := Cleaned(pool, a.now)] else map[]);
    assert Ids(pool) <= IdsIn(s.m.pools);
    Booked(s, a, {}, {}, {}, GivenUp(s.m, pool, a.now));
  }

  lemma LateSteps(s: Shared, a: Action)
    requires Balanced(s) && Possible(s, a) && (a.LateServe? || a.LateCheck?)
    ensures Steps(s, a)
  {
    var pool := s.adrift[a.n][a.name];
    assert Ids(pool) <= IdsIn(s.adrift[a.n]) <= IdsAdrift(s.adrift);
    if a.LateServe? {
      HandoutGains(pool, a.now, a.dialOk, s.m.nextId);
      AdriftGains(s.adrift, a.n, a.name, AfterHandout(pool, a.now, a.dialOk, s.m.nextId), Leaks(s, a));
    } else {
      CheckedIds(pool, a.verdicts);
      AdriftGains(s.adrift, a.n, a.name, pool.(conns := Checked(pool.conns, a.verdicts)), {});
    }
    Booked(s, a, {}, Leaks(s, a), {}, {});
  }

  lemma EveryStep(s: Shared, a: Action)
    requires Balanced(s)
    ensures Steps(s, a)
  {
    if Possible(s, a) {
      match a
      case Do(op) =>
        match op {
          case Create(_, _, _, _) => CreateSteps(s, a);
          case Obtain(_, _, _) => ObtainSteps(s, a);
          case Check(_, _) => CheckSteps(s, a);
        }
      case Sweep(_, _) => SweepSteps(s, a);
      case _ => LateSteps(s, a);
    }
  }

  /** All that the actions of a run leak. */
  ghost function AllLeaks(start: Shared, actions: seq<Action>): set<nat> {
    if actions == [] then {}
    else
      var before := actions[..|actions| - 1];
      AllLeaks(start, before) + Leaks(Run(start, before), actions[|actions| - 1])
  }

  /**
   Conservation over every run: each connection ever dialled is held by one named pool, closed,
   or leaked; and what is leaked is exactly what the actions leaked, for nothing takes it back.
   */
  lemma {:induction false} NothingVanishes(poolTimeout: int, actions: seq<Action>)
    ensures Balanced(Run(Start(poolTimeout), actions))
    ensures Leaked(Run(Start(poolTimeout), actions)) == AllLeaks(Start(poolTimeout), actions)
  {
    if actions != [] {
      var before := actions[..|actions| - 1];
      NothingVanishes(poolTimeout, before);
      EveryStep(Run(Start(poolTimeout), before), actions[|actions| - 1]);
    }
  }

  // ---- Who is handed a closed connection ---------------------------------------------

  ghost predicate HandsOutClosed(s: Shared, a: Action) {
    Handed(s, a).Some? && Handed(s, a).value in s.m.closed
  }

  lemma NamedPoolsAreOpen(m: Manager, name: string, now: int, dialOk: bool)
    requires Valid(m) && name in m.pools
    ensures var r := Handout(m.pools[name], now, dialOk, m.nextId); r.Some? ==> r.value !in m.closed
  {
  }

  /** Only a caller whose pool was dropped between lookup and service can be handed a closed connection. */
  lemma OnlyLateCallers(poolTimeout: int, actions: seq<Action>, a: Action)
    requires HandsOutClosed(Run(Start(poolTimeout), actions), a)
    ensures a.LateServe?
  {
    var s := Run(Start(poolTimeout), actions);
    NothingVanishes(poolTimeout, actions);
    if a.Do? && a.op.Obtain? && a.op.name in s.m.pools {
      NamedPoolsAreOpen(s.m, a.op.name, a.op.now, a.op.dialOk);
    }
  }

  predicate HasTime(a: Action) {
    match a
    case Do(op) => !op.Check?
    case LateCheck(_, _, _) => false
    case _ => true
  }

  function TimeOf(a: Action): int
    requires HasTime(a)
  {
    match a
    case Do(op) => op.now
    case Sweep(_, now) => now
    case LateServe(_, _, now, _) => now
  }

  /** Clock readings go up, but a sweep may use a reading taken before the cleanup reached its pool. */
  ghost predicate InOrder(begin: int, actions: seq<Action>) {
    && (forall i | 0 <= i < |actions| && HasTime(actions[i]) :: begin <= TimeOf(actions[i]))
    && forall i, j | 0 <= i < j < |actions| && HasTime(actions[i]) && HasTime(actions[j]) && !actions[j].Sweep? ::
      TimeOf(actions[i]) <= TimeOf(actions[j])
  }

  /** The idle timeout of every pool that is created. */
  ghost predicate IdleTimeouts(actions: seq<Action>, idleTimeout: int) {
    forall i | 0 <= i < |actions| && actions[i].Do? && actions[i].op.Create? ::
      actions[i].op.config.idleTimeout <= idleTimeout
  }

  /** How long a pool's connections have idled, at least, when a cleanup drops the pool. */
  function Patience(poolTimeout: int): nat {
    if poolTimeout < 0 then 0 else poolTimeout * 2 + 1
  }

  ghost predicate ColdPool(pool: Pool, limit: int, now: int) {
    && pool.config.idleTimeout <= limit && pool.lastUsed <= now
    && forall i | 0 <= i < |pool.conns| :: pool.conns[i].lastUsed <= pool.lastUsed
  }

  ghost predicate ColdDropped(pool: Pool, closed: set<nat>, limit: int, now: int) {
    && pool.config.idleTimeout <= limit
    && forall i | 0 <= i < |pool.conns| && pool.conns[i].id in closed :: now - pool.conns[i].lastUsed >= limit
  }

  /** From `now` on, no pool hands out a connection that is closed. */
  ghost predicate Cold(s: Shared, now: int) {
    && (forall a | a in s.m.pools :: ColdPool(s.m.pools[a], Patience(s.m.poolTimeout), now))
    && (forall n, a | 0 <= n < |s.adrift| && a in s.adrift[n] ::
          ColdDropped(s.adrift[n][a], s.m.closed, Patience(s.m.poolTimeout), now))
  }

  lemma ColdLater(s: Shared, now: int, later: int)
    requires Cold(s, now) && now <= later
    ensures Cold(s, later)
  {
    forall n, a | 0 <= n < |s.adrift| && a in s.adrift[n]
      ensures ColdDropped(s.adrift[n][a], s.m.closed, Patience(s.m.poolTimeout), later)
    {
      assert ColdDropped(s.adrift[n][a], s.m.closed, Patience(s.m.poolTimeout), now);
    }
  }

  lemma ColdServed(pool: Pool, limit: int, was: int, now: int, dialOk: bool, id: nat)
    requires ColdPool(pool, limit, was) && was <= now
    ensures ColdPool(AfterHandout(pool, now, dialOk, id), limit, now)
  {
  }

  lemma ColdLateServed(pool: Pool, closed: set<nat>, limit: int, now: int, dialOk: bool, id: nat)
    requires ColdDropped(pool, closed, limit, now) && id !in closed
    ensures var r := Handout(pool, now, dialOk, id); r.Some? ==> r.value !in closed
    ensures ColdDropped(AfterHandout(pool, now, dialOk, id), closed, limit, now)
  {
    var i := FirstUsable(pool.conns, pool.config, now);
    if i < |pool.conns| {
      assert pool.conns[i].id !in closed;
    }
  }

  lemma ColdSwept(pool: Pool, limit: int, now: int, at: int)
    requires ColdPool(pool, limit, now)
    ensures ColdPool(Cleaned(pool, at), limit, now)
  {
    var kept := Cleaned(pool, at).conns;
    forall i | 0 <= i < |kept| ensures kept[i].lastUsed <= pool.lastUsed {
      SurvivorsExact(pool.conns, pool.config, at, kept[i]);
    }
  }

  function Later(now: int, a: Action): int {
    if HasTime(a) && TimeOf(a) > now then TimeOf(a) else now
  }

  lemma ColdDo(s: Shared, a: Action, now: int)
    requires Balanced(s) && Cold(s, now) && Possible(s, a) && a.Do? && (HasTime(a) ==> now <= a.op.now)
    requires a.op.Create? ==> a.op.config.idleTimeout <= Patience(s.m.poolTimeout)
    ensures Cold(Next(s, a), Later(now, a))
  {
    var m, op, later, limit := s.m, a.op, Later(now, a), Patience(s.m.poolTimeout);
    var s' := Next(s, a);
    ColdLater(s, now, later);
    forall name | name in s'.m.pools ensures ColdPool(s'.m.pools[name], limit, later) {
      assert op.Obtain? && name == op.name ==> name in m.pools;
      if op.Obtain? && name == op.name {
        ColdServed(m.pools[name], limit, now, op.now, op.dialOk, m.nextId);
      }
    }
    forall n, name | 0 <= n < |s'.adrift| && name in s'.adrift[n]
      ensures ColdDropped(s'.adrift[n][name], m.closed, limit, later)
    {
      if n < |s.adrift| {
        assert ColdDropped(s.adrift[n][name], m.closed, limit, later);
      } else {
        assert ColdPool(m.pools[name], limit, later);
      }
    }
  }

  /** A pool that a sweep drops has idled long enough. */
  lemma ColdAbandoned(m: Manager, pool: Pool, closed: set<nat>, now: int, at: int)
    requires ColdPool(pool, Patience(m.poolTimeout), now) && Abandoned(m, pool, at)
    ensures ColdDropped(Cleaned(pool, at), closed, Patience(m.poolTimeout), if at > now then at else now)
  {
    ColdSwept(pool, Patience(m.poolTimeout), now, at);
  }

  lemma ColdSweep(s: Shared, a: Action, now: int)
    requires Balanced(s) && Cold(s, now) && Possible(s, a) && a.Sweep?
    ensures Cold(Next(s, a), Later(now, a))
  {
    var later, limit, pool, s' := Later(now, a), Patience(s.m.poolTimeout), s.m.pools[a.name], Next(s, a);
    ColdLater(s, now, later);
    ColdSwept(pool, limit, later, a.now);
    SweptPool(s.m, a.name, a.now);
    forall n, name | 0 <= n < |s'.adrift| && name in s'.adrift[n]
      ensures ColdDropped(s'.adrift[n][name], s'.m.closed, limit, later)
    {
      if n < |s.adrift| {
        ClosingSpares(s, n, name, a.name, a.now);
        assert ColdDropped(s.adrift[n][name], s.m.closed, limit, later);
      } else {
        ColdAbandoned(s.m, pool, s'.m.closed, now, a.now);
      }
    }
  }

  /** What a sweep closes is in no dropped pool. */
  lemma ClosingSpares(s: Shared, n: nat, name: string, swept: string, now: int)
    requires Balanced(s) && n < |s.adrift| && name in s.adrift[n] && swept in s.m.pools
    ensures Ids(s.adrift[n][name]) !! GivenUp(s.m, s.m.pools[swept], now)
  {
    assert Ids(s.adrift[n][name]) <= IdsIn(s.adrift[n]) <= IdsAdrift(s.adrift);
    assert Ids(s.m.pools[swept]) <= IdsIn(s.m.pools);
  }

  lemma ColdLate(s: Shared, a: Action, now: int)
    requires Balanced(s) && Cold(s, now) && Possible(s, a)
    requires a.LateCheck? || (a.LateServe? && now <= a.now)
    ensures Cold(Next(s, a), Later(now, a)) && !HandsOutClosed(s, a)
  {
    var later, limit, s' := Later(now, a), Patience(s.m.poolTimeout), Next(s, a);
    ColdLater(s, now, later);
    assert ColdDropped(s.adrift[a.n][a.name], s.m.closed, limit, later);
    if a.LateServe? {
      ColdLateServed(s.adrift[a.n][a.name], s.m.closed, limit, later, a.dialOk, s.m.nextId);
    }
    forall n, name | 0 <= n < |s'.adrift| && name in s'.adrift[n]
      ensures ColdDropped(s'.adrift[n][name], s'.m.closed, limit, later)
    {
      if n != a.n || name != a.name {
        assert ColdDropped(s.adrift[n][name], s.m.closed, limit, later);
      }
    }
  }

  lemma Settings(s: Shared, a: Action)
    ensures Next(s, a).m.poolTimeout == s.m.poolTimeout
  {
  }

  lemma ColdStep(s: Shared, a: Action, now: int)
    requires Balanced(s) && Cold(s, now)
    requires HasTime(a) && !a.Sweep? ==> now <= TimeOf(a)
    requires a.Do? && a.op.Create? ==> a.op.config.idleTimeout <= Patience(s.m.poolTimeout)
    ensures Cold(Next(s, a), Later(now, a)) && !HandsOutClosed(s, a)
  {
    if !Possible(s, a) {
      ColdLater(s, now, Later(now, a));
    } else if a.Do? {
      ColdDo(s, a, now);
      if a.op.Obtain? && a.op.name in s.m.pools {
        NamedPoolsAreOpen(s.m, a.op.name, a.op.now, a.op.dialOk);
      }
    } else if a.Sweep? {
      ColdSweep(s, a, now);
    } else {
      ColdLate(s, a, now);
    }
  }

  /** The latest clock reading of a run. */
  function Latest(begin: int, actions: seq<Action>): int {
    if actions == [] then begin else Later(Latest(begin, actions[..|actions| - 1]), actions[|actions| - 1])
  }

  lemma OrderBefore(begin: int, actions: seq<Action>)
    requires actions != [] && InOrder(begin, actions)
    ensures InOrder(begin, actions[..|actions| - 1])
  {
    var before := actions[..|actions| - 1];
    assert forall i | 0 <= i < |before| :: before[i] == actions[i];
  }

  lemma {:induction false} LatestBefore(begin: int, actions: seq<Action>, now: int)
    requires forall i | 0 <= i < |actions| && HasTime(actions[i]) :: TimeOf(actions[i]) <= now
    requires begin <= now
    ensures Latest(begin, actions) <= now
  {
    if actions != [] {
      LatestBefore(begin, actions[..|actions| - 1], now);
    }
  }

  ghost predicate NeverHandsOutClosed(start: Shared, actions: seq<Action>) {
    actions == [] ||
    (var before := actions[..|actions| - 1];
     NeverHandsOutClosed(start, before) && !HandsOutClosed(Run(start, before), actions[|actions| - 1]))
  }

  lemma {:induction false} AlwaysCold(poolTimeout: int, begin: int, actions: seq<Action>)
    requires InOrder(begin, actions) && IdleTimeouts(actions, Patience(poolTimeout))
    ensures var s := Run(Start(poolTimeout), actions);
            Cold(s, Latest(begin, actions)) && s.m.poolTimeout == poolTimeout
    ensures NeverHandsOutClosed(Start(poolTimeout), actions)
  {
    if actions != [] {
      var start, before, last := Start(poolTimeout), actions[..|actions| - 1], actions[|actions| - 1];
      OrderBefore(begin, actions);
      AlwaysCold(poolTimeout, begin, before);
      NothingVanishes(poolTimeout, before);
      if HasTime(last) && !last.Sweep? {
        LatestBefore(begin, before, TimeOf(last));
      }
      Settings(Run(start, before), last);
      ColdStep(Run(start, before), last, Latest(begin, before));
    }
  }

  function CreateLone(idleTimeout: int, begin: int): Action {
    Do(Create("", Config(1, 1, idleTimeout, ["a"]), [true], begin))
  }

  /** One connection, a cleanup that drops its pool, and a caller who had looked the pool up before. */
  function LateCall(idleTimeout: int, begin: int, gap: nat): seq<Action> {
    [CreateLone(idleTimeout, begin), Sweep("", begin + gap), LateServe(1, "", begin + gap, false)]
  }

  function LoneConn(begin: int): Conn {
    Conn(0, "a", begin, 0, true)
  }

  function LonePool(idleTimeout: int, begin: int): Pool {
    Pool(Config(1, 1, idleTimeout, ["a"]), [LoneConn(begin)], 0, begin, [])
  }

  lemma LoneCreated(poolTimeout: int, idleTimeout: int, begin: int)
    ensures var s := Next(Start(poolTimeout), CreateLone(idleTimeout, begin));
            && s.m.pools == map["" := LonePool(idleTimeout, begin)] && |s.adrift| == 1
            && s.m.poolTimeout == poolTimeout
  {
    assert [true][..0] == [];
    assert Opened(["a"], [true], 0, begin) == [LoneConn(begin)];
  }

  lemma LoneSwept(s: Shared, idleTimeout: int, begin: int, at: int)
    requires s.m.pools == map["" := LonePool(idleTimeout, begin)]
    requires at - begin > s.m.poolTimeout * 2 && at - begin < idleTimeout
    ensures var s' := Next(s, Sweep("", at));
            && s'.adrift == s.adrift + [map["" := LonePool(idleTimeout, begin)]]
            && 0 in s'.m.closed && s'.m.nextId == s.m.nextId
  {
    var pool := LonePool(idleTimeout, begin);
    assert pool.conns[..0] == [];
    assert Survivors(pool.conns, pool.config, at) == pool.conns;
    assert pool.conns[0].id in Ids(pool);
  }

  lemma LoneServed(s: Shared, idleTimeout: int, begin: int, at: int)
    requires s.m.pools == map["" := LonePool(idleTimeout, begin)] && |s.adrift| == 1
    requires at - begin > s.m.poolTimeout * 2 && at - begin < idleTimeout
    ensures HandsOutClosed(Next(s, Sweep("", at)), LateServe(1, "", at, false))
  {
    LoneSwept(s, idleTimeout, begin, at);
    var s' := Next(s, Sweep("", at));
    assert s'.adrift[1][""] == LonePool(idleTimeout, begin);
  }

  lemma ThreeActions(start: Shared, a: Action, b: Action, c: Action)
    requires HandsOutClosed(Next(Next(start, a), b), c)
    ensures !NeverHandsOutClosed(start, [a, b, c])
  {
    var actions := [a, b, c];
    assert actions[..2] == [a, b] && [a, b][..1] == [a] && [a][..0] == [];
    assert Run(start, [a]) == Next(start, a);
    assert Run(start, [a, b]) == Next(Next(start, a), b);
  }

  lemma LoneRun(start: Shared, a: Action, s: Shared, idleTimeout: int, begin: int, at: int)
    requires s == Next(start, a) && s.m.pools == map["" := LonePool(idleTimeout, begin)] && |s.adrift| == 1
    requires at - begin > s.m.poolTimeout * 2 && at - begin < idleTimeout
    ensures !NeverHandsOutClosed(start, [a, Sweep("", at), LateServe(1, "", at, false)])
  {
    LoneServed(s, idleTimeout, begin, at);
    ThreeActions(start, a, Sweep("", at), LateServe(1, "", at, false));
  }

  lemma LateCallHandsOutClosed(poolTimeout: int, idleTimeout: int, begin: int)
    requires idleTimeout > Patience(poolTimeout)
    ensures !NeverHandsOutClosed(Start(poolTimeout), LateCall(idleTimeout, begin, Patience(poolTimeout)))
  {
    var start, create := Start(poolTimeout), CreateLone(idleTimeout, begin);
    LoneCreated(poolTimeout, idleTimeout, begin);
    LoneRun(start, create, Next(start, create), idleTimeout, begin, begin + Patience(poolTimeout));
  }

  /**
   A late caller is never handed a closed connection, in any run, if and only if the pools'
   idle timeout is at most twice the manager's default plus one nanosecond.
   */
  lemma LateCallersSafeExactly(poolTimeout: int, idleTimeout: int, begin: int)
    ensures idleTimeout <= Patience(poolTimeout)
            <==> forall actions | InOrder(begin, actions) && IdleTimeouts(actions, idleTimeout) ::
                   NeverHandsOutClosed(Start(poolTimeout), actions)
  {
    if idleTimeout <= Patience(poolTimeout) {
      forall actions | InOrder(begin, actions) && IdleTimeouts(actions, idleTimeout)
        ensures NeverHandsOutClosed(Start(poolTimeout), actions)
      {
        AlwaysCold(poolTimeout, begin, actions);
      }
    } else {
      LateCallHandsOutClosed(poolTimeout, idleTimeout, begin);
      var actions := LateCall(idleTimeout, begin, Patience(poolTimeout));
      assert InOrder(begin, actions) && IdleTimeouts(actions, idleTimeout);
    }
  }
}