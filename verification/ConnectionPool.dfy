/** The per-service connection pools: create, hand out, clean up. Times are nanoseconds. */
module ConnectionPool {
  import opened CyclicScan
  import opened Wrappers

  /** A pooled connection; `id` identifies the underlying connection. */
  datatype Conn = Conn(id: nat, target: string, lastUsed: int, useCount: int, healthy: bool)

  datatype Config = Config(maxConnections: int, maxIdle: int, idleTimeout: int, targets: seq<string>) {
    /** The largest a pool of this kind can get. */
    function Limit(): (n: nat)
      ensures maxConnections <= n
    {
      var initial := if maxIdle < |targets| then maxIdle else |targets|;
      if maxConnections >= initial && maxConnections >= 0 then maxConnections
      else if initial >= 0 then initial
      else 0
    }
  }

  /** `attempts` is history: the addresses dialled for callers so far, failed dials included. */
  datatype Pool = Pool(config: Config, conns: seq<Conn>, roundRobin: nat, lastUsed: int, attempts: seq<string>)

  /** All pools, the connections closed so far, and the identity the next dial will get. */
  datatype Manager = Manager(pools: map<string, Pool>, closed: set<nat>, nextId: nat, poolTimeout: int)

  function Created(poolTimeout: int): Manager {
    Manager(map[], {}, 0, poolTimeout)
  }

  // ---- Operations --------------------------------------------------------------------

  /** The pre-created connections; `dials[i]` says whether dialling target i works. */
  function Opened(targets: seq<string>, dials: seq<bool>, firstId: nat, now: int): (conns: seq<Conn>)
    requires |dials| <= |targets|
    ensures |conns| <= |dials|
    ensures forall i | 0 <= i < |conns| ::
              firstId <= conns[i].id < firstId + |dials| && conns[i].lastUsed == now
    ensures forall i, j | 0 <= i < j < |conns| :: conns[i].id < conns[j].id
  {
    if dials == [] then []
    else
      var n := |dials| - 1;
      Opened(targets, dials[..n], firstId, now)
        + if dials[n] then [Conn(firstId + n, targets[n], now, 0, true)] else []
  }

  /** How many targets are dialled up front. */
  function InitialDials(config: Config): (n: nat)
    ensures n <= |config.targets| && n <= config.Limit()
  {
    if config.maxIdle < 0 then 0
    else if config.maxIdle < |config.targets| then config.maxIdle
    else |config.targets|
  }

  predicate Usable(conn: Conn, config: Config, now: int) {
    conn.healthy && now - conn.lastUsed < config.idleTimeout
  }

  function FirstUsable(conns: seq<Conn>, config: Config, now: int): (i: nat)
    ensures i <= |conns|
    ensures i < |conns| ==> Usable(conns[i], config, now)
    ensures forall j | 0 <= j < i :: !Usable(conns[j], config, now)
  {
    if conns == [] || Usable(conns[0], config, now) then 0 else 1 + FirstUsable(conns[1..], config, now)
  }

  function Used(conn: Conn, now: int): Conn {
    conn.(lastUsed := now, useCount := conn.useCount + 1)
  }

  /** The target after the cursor moved, and the cursor. */
  function Target(pool: Pool): string {
    if pool.config.targets == [] then ""
    else pool.config.targets[(pool.roundRobin + 1) % |pool.config.targets|]
  }

  function NextCursor(pool: Pool): nat {
    if pool.config.targets == [] then pool.roundRobin else pool.roundRobin + 1
  }

  /** What a pool answers: a usable connection, a new one, or nothing. */
  function Handout(pool: Pool, now: int, dialOk: bool, id: nat): Option<nat> {
    var i := FirstUsable(pool.conns, pool.config, now);
    if i < |pool.conns| then Some(pool.conns[i].id)
    else if |pool.conns| < pool.config.maxConnections && dialOk then Some(id)
    else None
  }

  function AfterHandout(pool: Pool, now: int, dialOk: bool, id: nat): Pool {
    var i := FirstUsable(pool.conns, pool.config, now);
    var used := pool.(lastUsed := now);
    if i < |pool.conns| then used.(conns := pool.conns[i := Used(pool.conns[i], now)])
    else if |pool.conns| >= pool.config.maxConnections then used
    else
      var dialled := used.(roundRobin := NextCursor(pool), attempts := pool.attempts + [Target(pool)]);
      if !dialOk then dialled
      else dialled.(conns := pool.conns + [Conn(id, Target(pool), now, 1, true)])
  }

  predicate Expired(conn: Conn, config: Config, now: int) {
    now - conn.lastUsed > config.idleTimeout
  }

  /** The connections that survive a cleanup, in their order. */
  function Survivors(conns: seq<Conn>, config: Config, now: int): seq<Conn> {
    if conns == [] then []
    else
      var last := conns[|conns| - 1];
      Survivors(conns[..|conns| - 1], config, now) + if Expired(last, config, now) then [] else [last]
  }

  predicate Abandoned(m: Manager, pool: Pool, now: int) {
    now - pool.lastUsed > m.poolTimeout * 2
  }

  ghost function Ids(pool: Pool): set<nat> {
    set i | 0 <= i < |pool.conns| :: pool.conns[i].id
  }

  function Cleaned(pool: Pool, now: int): Pool {
    pool.(conns := Survivors(pool.conns, pool.config, now))
  }

  /** A cleanup keeps the pools in use, each with its survivors, and closes everything else. */
  function PoolsAfterCleanup(m: Manager, now: int): map<string, Pool> {
    map name | name in m.pools && !Abandoned(m, m.pools[name], now) :: Cleaned(m.pools[name], now)
  }

  datatype Op =
    | Create(name: string, config: Config, dials: seq<bool>, now: int)
    | Obtain(name: string, now: int, dialOk: bool)
    | Check(name: string, verdicts: seq<bool>)
    | Cleanup(now: int)

  function Checked(conns: seq<Conn>, verdicts: seq<bool>): (conns': seq<Conn>)
    requires |verdicts| == |conns|
    ensures |conns'| == |conns|
  {
    seq(|conns|, i requires 0 <= i < |conns| => conns[i].(healthy := verdicts[i]))
  }

  ghost predicate Applicable(m: Manager, op: Op) {
    match op
    case Create(_, config, dials, _) => |dials| == InitialDials(config)
    case Check(name, verdicts) => name in m.pools && |verdicts| == |m.pools[name].conns|
    case _ => true
  }

  /** The ids one pool gives up in a cleanup. */
  ghost function GivenUp(m: Manager, pool: Pool, now: int): set<nat> {
    if Abandoned(m, pool, now) then Ids(pool) else Ids(pool) - Ids(Cleaned(pool, now))
  }

  /** What cleaning the given pools closes. */
  ghost function Closing(m: Manager, names: set<string>, now: int): set<nat> {
    set name, id | name in m.pools && name in names && id in GivenUp(m, m.pools[name], now) :: id
  }

  ghost function ClosedByCleanup(m: Manager, now: int): set<nat> {
    Closing(m, m.pools.Keys, now)
  }

  ghost function Step(m: Manager, op: Op): Manager
    requires Applicable(m, op)
  {
    match op
    case Create(name, config, dials, now) =>
      m.(pools := m.pools[name := Pool(config, Opened(config.targets, dials, m.nextId, now), 0, now, [])],
         nextId := m.nextId + |dials|)
    case Obtain(name, now, dialOk) =>
      if name !in m.pools then m
      else m.(pools := m.pools[name := AfterHandout(m.pools[name], now, dialOk, m.nextId)], nextId := m.nextId + 1)
    case Check(name, verdicts) =>
      m.(pools := m.pools[name := m.pools[name].(conns := Checked(m.pools[name].conns, verdicts))])
    case Cleanup(now) =>
      m.(pools := PoolsAfterCleanup(m, now), closed := m.closed + ClosedByCleanup(m, now))
  }

  // ---- What every operation keeps ----------------------------------------------------

  ghost predicate Valid(m: Manager) {
    && (forall a | a in m.pools :: |m.pools[a].conns| <= m.pools[a].config.Limit())
    && (forall a, i | a in m.pools && 0 <= i < |m.pools[a].conns| ::
          m.pools[a].conns[i].id < m.nextId && m.pools[a].conns[i].id !in m.closed)
    && (forall id | id in m.closed :: id < m.nextId)
    && (forall a, b | a in m.pools && b in m.pools && a != b :: Ids(m.pools[a]) !! Ids(m.pools[b]))
    && (forall a | a in m.pools :: DistinctIds(m.pools[a].conns))
  }

  ghost predicate DistinctIds(conns: seq<Conn>) {
    forall i, j | 0 <= i < j < |conns| :: conns[i].id != conns[j].id
  }

  lemma OpenedIds(config: Config, dials: seq<bool>, firstId: nat, now: int)
    requires |dials| == InitialDials(config)
    ensures var pool := Pool(config, Opened(config.targets, dials, firstId, now), 0, now, []);
            && DistinctIds(pool.conns)
            && forall id | id in Ids(pool) :: firstId <= id < firstId + |dials|
  {
  }

  lemma CreateValid(m: Manager, op: Op)
    requires Valid(m) && Applicable(m, op) && op.Create?
    ensures Valid(Step(m, op))
  {
    OpenedIds(op.config, op.dials, m.nextId, op.now);
    var pools := Step(m, op).pools;
    forall a, b | a in pools && b in pools && a != b ensures Ids(pools[a]) !! Ids(pools[b]) {
      assert a != op.name ==> forall id | id in Ids(pools[a]) :: id < m.nextId;
      assert b != op.name ==> forall id | id in Ids(pools[b]) :: id < m.nextId;
    }
  }

  lemma HandoutIds(pool: Pool, now: int, dialOk: bool, id: nat)
    requires DistinctIds(pool.conns) && forall i | 0 <= i < |pool.conns| :: pool.conns[i].id < id
    requires |pool.conns| <= pool.config.Limit()
    ensures var pool' := AfterHandout(pool, now, dialOk, id);
            && DistinctIds(pool'.conns)
            && |pool'.conns| <= pool'.config.Limit()
            && (forall i | 0 <= i < |pool'.conns| :: pool'.conns[i].id in Ids(pool) || pool'.conns[i].id == id)
  {
    var pool' := AfterHandout(pool, now, dialOk, id);
    forall i | 0 <= i < |pool'.conns| ensures pool'.conns[i].id in Ids(pool) || pool'.conns[i].id == id {
      if i < |pool.conns| {
        assert pool'.conns[i].id == pool.conns[i].id;
      }
    }
  }

  lemma ObtainValid(m: Manager, op: Op)
    requires Valid(m) && op.Obtain?
    ensures Valid(Step(m, op))
  {
    if op.name in m.pools {
      HandoutIds(m.pools[op.name], op.now, op.dialOk, m.nextId);
      var pools := Step(m, op).pools;
      forall a, b | a in pools && b in pools && a != b ensures Ids(pools[a]) !! Ids(pools[b]) {
        assert forall id | id in Ids(pools[a]) :: id in Ids(m.pools[a]) || (a == op.name && id == m.nextId);
        assert forall id | id in Ids(pools[b]) :: id in Ids(m.pools[b]) || (b == op.name && id == m.nextId);
      }
    }
  }

  /**
   A hand-out, exactly. It is the first held connection that is healthy and has idled less than
   the idle timeout, stamped and counted; failing that, and below the maximum, one address is
   dialled, and a dial that works adds the new connection and hands it out. Otherwise nothing is
   handed out. All other connections stay as they are.
   */
  lemma HandoutIsUsable(pool: Pool, now: int, dialOk: bool, id: nat)
    requires DistinctIds(pool.conns) && forall i | 0 <= i < |pool.conns| :: pool.conns[i].id < id
    ensures var r, pool' := Handout(pool, now, dialOk, id), AfterHandout(pool, now, dialOk, id);
            var n, timeout := |pool.conns|, pool.config.idleTimeout;
            var found := exists i :: 0 <= i < n && pool.conns[i].healthy && now - pool.conns[i].lastUsed < timeout;
            var dials := !found && n < pool.config.maxConnections;
            && (found ==>
                  && r.Some?
                  && exists i ::
                  && 0 <= i < n && r.value == pool.conns[i].id
                  && pool.conns[i].healthy && now - pool.conns[i].lastUsed < timeout
                  && (forall j | 0 <= j < i :: !pool.conns[j].healthy || now - pool.conns[j].lastUsed >= timeout)
                  && pool'.conns
                     == pool.conns[i := pool.conns[i].(lastUsed := now, useCount := pool.conns[i].useCount + 1)])
            && |pool'.attempts| == |pool.attempts| + (if dials then 1 else 0) && pool.attempts <= pool'.attempts
            && (dials && dialOk ==>
                  && r == Some(id)
                  && pool'.conns == pool.conns + [Conn(id, pool'.attempts[|pool.attempts|], now, 1, true)])
            && (!found && !(dials && dialOk) ==> r == None && pool'.conns == pool.conns)
            && pool'.lastUsed == now && pool'.config == pool.config
  {
    var i := FirstUsable(pool.conns, pool.config, now);
    if i < |pool.conns| {
      assert Usable(pool.conns[i], pool.config, now);
    }
  }

  lemma CheckValid(m: Manager, op: Op)
    requires Valid(m) && Applicable(m, op) && op.Check?
    ensures Valid(Step(m, op))
  {
    var before := m.pools[op.name];
    var after := Step(m, op).pools[op.name];
    assert forall i | 0 <= i < |after.conns| :: after.conns[i].id == before.conns[i].id;
    assert Ids(after) == Ids(before);
  }

  /** A cleanup keeps exactly the connections that have not expired. */
  lemma {:induction false} SurvivorsExact(conns: seq<Conn>, config: Config, now: int, conn: Conn)
    ensures conn in Survivors(conns, config, now) <==> conn in conns && now - conn.lastUsed <= config.idleTimeout
  {
    if conns != [] {
      var before, last := conns[..|conns| - 1], conns[|conns| - 1];
      SurvivorsExact(before, config, now, conn);
      assert conn in conns <==> conn in before || conn == last;
    }
  }

  lemma {:induction false} SurvivorsDistinct(conns: seq<Conn>, config: Config, now: int)
    requires DistinctIds(conns)
    ensures DistinctIds(Survivors(conns, config, now))
    ensures |Survivors(conns, config, now)| <= |conns|
  {
    if conns != [] {
      var before, last := conns[..|conns| - 1], conns[|conns| - 1];
      SurvivorsDistinct(before, config, now);
      var kept := Survivors(before, config, now);
      forall i | 0 <= i < |kept| ensures kept[i].id != last.id {
        SurvivorsExact(before, config, now, kept[i]);
      }
    }
  }

  lemma {:induction false} SurvivorsInOrder(a: seq<Conn>, b: seq<Conn>, config: Config, now: int)
    ensures Survivors(a + b, config, now) == Survivors(a, config, now) + Survivors(b, config, now)
    decreases |b|
  {
    if b == [] {
      assert a + b == a;
    } else {
      var n := |b| - 1;
      assert (a + b)[..|a| + n] == a + b[..n];
      SurvivorsInOrder(a, b[..n], config, now);
    }
  }

  lemma CleanedIds(pool: Pool, now: int)
    requires DistinctIds(pool.conns)
    ensures Ids(Cleaned(pool, now)) <= Ids(pool) && DistinctIds(Cleaned(pool, now).conns)
    ensures |Cleaned(pool, now).conns| <= |pool.conns|
  {
    SurvivorsDistinct(pool.conns, pool.config, now);
    var kept := Cleaned(pool, now).conns;
    forall i | 0 <= i < |kept| ensures kept[i].id in Ids(pool) {
      SurvivorsExact(pool.conns, pool.config, now, kept[i]);
    }
  }

  lemma CleanupValid(m: Manager, now: int)
    requires Valid(m)
    ensures Valid(Step(m, Cleanup(now)))
  {
    forall a | a in m.pools ensures Ids(Cleaned(m.pools[a], now)) <= Ids(m.pools[a]) {
      CleanedIds(m.pools[a], now);
    }
    var m' := Step(m, Cleanup(now));
    forall a | a in m'.pools
      ensures DistinctIds(m'.pools[a].conns) && |m'.pools[a].conns| <= m'.pools[a].config.Limit()
    {
      CleanedIds(m.pools[a], now);
    }
    forall a, i | a in m'.pools && 0 <= i < |m'.pools[a].conns|
      ensures m'.pools[a].conns[i].id < m.nextId && m'.pools[a].conns[i].id !in m'.closed
    {
      KeptStayOpen(m, now, a, i);
    }
    forall id | id in m'.closed ensures id < m.nextId {
      if id !in m.closed {
        var a :| a in m.pools && id in Ids(m.pools[a]);
      }
    }
  }

  lemma KeptStayOpen(m: Manager, now: int, a: string, i: nat)
    requires Valid(m) && a in PoolsAfterCleanup(m, now) && i < |Cleaned(m.pools[a], now).conns|
    ensures var id := Cleaned(m.pools[a], now).conns[i].id;
            id < m.nextId && id !in m.closed && id !in ClosedByCleanup(m, now)
  {
    var id := Cleaned(m.pools[a], now).conns[i].id;
    CleanedIds(m.pools[a], now);
    assert id in Ids(Cleaned(m.pools[a], now)) && id in Ids(m.pools[a]);
    forall b | b in m.pools ensures id !in GivenUp(m, m.pools[b], now) {
      if b != a {
        assert Ids(m.pools[a]) !! Ids(m.pools[b]);
      }
    }
  }

  lemma StepValid(m: Manager, op: Op)
    requires Valid(m) && Applicable(m, op)
    ensures Valid(Step(m, op)) && m.closed <= Step(m, op).closed
  {
    match op
    case Create(_, _, _, _) => CreateValid(m, op);
    case Obtain(_, _, _) => ObtainValid(m, op);
    case Check(_, _) => CheckValid(m, op);
    case Cleanup(now) => CleanupValid(m, now);
  }

  // ---- Whole runs --------------------------------------------------------------------

  ghost predicate Runs(m: Manager, ops: seq<Op>)
    decreases |ops|
  {
    ops == [] || (Applicable(m, ops[0]) && Runs(Step(m, ops[0]), ops[1..]))
  }

  ghost function Run(m: Manager, ops: seq<Op>): Manager
    requires Runs(m, ops)
    decreases |ops|
  {
    if ops == [] then m else Run(Step(m, ops[0]), ops[1..])
  }

  lemma {:induction false} RunValid(m: Manager, ops: seq<Op>)
    requires Valid(m) && Runs(m, ops)
    ensures Valid(Run(m, ops)) && m.closed <= Run(m, ops).closed
    decreases |ops|
  {
    if ops != [] {
      StepValid(m, ops[0]);
      RunValid(Step(m, ops[0]), ops[1..]);
    }
  }

  /** Over every run each pool stays within MaxConnections, or within both MaxIdle and the number of targets. */
  lemma PoolsWithinLimit(poolTimeout: int, ops: seq<Op>, name: string)
    requires Runs(Created(poolTimeout), ops) && name in Run(Created(poolTimeout), ops).pools
    ensures var pool := Run(Created(poolTimeout), ops).pools[name];
            || |pool.conns| == 0
            || |pool.conns| <= pool.config.maxConnections
            || (|pool.conns| <= pool.config.maxIdle && |pool.conns| <= |pool.config.targets|)
  {
    RunValid(Created(poolTimeout), ops);
  }

  /**
   A connection closed by a cleanup is never handed out again, by any pool that is looked up and
   serves in one step, however long the run. `PoolLookups` takes the two steps apart.
   */
  lemma ClosedNeverReturns(poolTimeout: int, early: seq<Op>, late: seq<Op>, id: nat, name: string, now: int,
                           dialOk: bool)
    requires Runs(Created(poolTimeout), early) && id in Run(Created(poolTimeout), early).closed
    requires Runs(Run(Created(poolTimeout), early), late)
    ensures var m := Run(Run(Created(poolTimeout), early), late);
            name in m.pools ==> Handout(m.pools[name], now, dialOk, m.nextId) != Some(id)
  {
    var mid := Run(Created(poolTimeout), early);
    RunValid(Created(poolTimeout), early);
    RunValid(mid, late);
  }

  // ---- Target selection --------------------------------------------------------------

  /** The target positions named by `k` selections in a row, from counter `r`. */
  function Selected(r: nat, n: nat, k: nat): seq<int>
    requires n > 0
    decreases k
  {
    if k == 0 then [] else [(r + 1) % n] + Selected(r + 1, n, k - 1)
  }

  lemma {:induction false} SelectionIsScan(r: nat, n: nat, k: nat)
    requires n > 0
    ensures Live(FullRing(n)) && (r + 1) % n < n
    ensures Selected(r, n, k) == Picks(FullRing(n), (r + 1) % n, k)
    decreases k
  {
    var ring, c := FullRing(n), (r + 1) % n;
    assert ring[c] == c;
    if k > 0 {
      ModStep(r + 1, n);
      SelectionIsScan(r + 1, n, k - 1);
    }
  }

  /** Any |Targets| consecutive selections name each target position once, in cyclic order. */
  lemma SelectionCoversTargets(r: nat, n: nat)
    requires n > 0
    ensures (r + 1) % n < n
    ensures Selected(r, n, n) == FullRing(n)[(r + 1) % n..] + FullRing(n)[..(r + 1) % n]
  {
    SelectionIsScan(r, n, n);
    CursorServesAll(n, (r + 1) % n);
  }

  lemma {:induction false} SelectedAt(r: nat, n: nat, k: nat, i: nat)
    requires n > 0 && i < k
    ensures |Selected(r, n, k)| == k && Selected(r, n, k)[i] == (r + i + 1) % n
    decreases k
  {
    if k > 1 {
      SelectedAt(r + 1, n, k - 1, if i > 0 then i - 1 else 0);
    }
  }

  /** The dials of a pool since it was created went to its targets in turn, from the second one on. */
  ghost predicate InTurn(pool: Pool) {
    var n := |pool.config.targets|;
    if n == 0 then forall k | 0 <= k < |pool.attempts| :: pool.attempts[k] == ""
    else
      && pool.roundRobin == |pool.attempts|
      && forall k | 0 <= k < |pool.attempts| :: pool.attempts[k] == pool.config.targets[(k + 1) % n]
  }

  lemma HandoutInTurn(pool: Pool, now: int, dialOk: bool, id: nat)
    requires InTurn(pool)
    ensures InTurn(AfterHandout(pool, now, dialOk, id))
  {
  }

  lemma StepInTurn(m: Manager, op: Op)
    requires Applicable(m, op) && forall a | a in m.pools :: InTurn(m.pools[a])
    ensures forall a | a in Step(m, op).pools :: InTurn(Step(m, op).pools[a])
  {
    if op.Obtain? && op.name in m.pools {
      HandoutInTurn(m.pools[op.name], op.now, op.dialOk, m.nextId);
    }
  }

  lemma {:induction false} RunInTurn(m: Manager, ops: seq<Op>)
    requires Runs(m, ops) && forall a | a in m.pools :: InTurn(m.pools[a])
    ensures forall a | a in Run(m, ops).pools :: InTurn(Run(m, ops).pools[a])
    decreases |ops|
  {
    if ops != [] {
      StepInTurn(m, ops[0]);
      RunInTurn(Step(m, ops[0]), ops[1..]);
    }
  }

  /**
   Every target gets its turn. Over every run, failed dials included, any |Targets| consecutive
   dials of a pool go to each of its targets once, in list order from the target whose turn it is.
   */
  lemma DialsTakeTurns(poolTimeout: int, ops: seq<Op>, name: string, from: nat)
    requires Runs(Created(poolTimeout), ops) && name in Run(Created(poolTimeout), ops).pools
    requires var pool := Run(Created(poolTimeout), ops).pools[name];
             pool.config.targets != [] && from + |pool.config.targets| <= |pool.attempts|
    ensures var pool := Run(Created(poolTimeout), ops).pools[name];
            var targets, n := pool.config.targets, |pool.config.targets|;
            && (from + 1) % n < n
            && pool.attempts[from..from + n] == targets[(from + 1) % n..] + targets[..(from + 1) % n]
  {
    RunInTurn(Created(poolTimeout), ops);
    var pool := Run(Created(poolTimeout), ops).pools[name];
    var targets, n := pool.config.targets, |pool.config.targets|;
    var window, turn := pool.attempts[from..from + n], targets[(from + 1) % n..] + targets[..(from + 1) % n];
    SelectionCoversTargets(from, n);
    forall i | 0 <= i < n ensures window[i] == turn[i] {
      SelectedAt(from, n, n, i);
      assert (FullRing(n)[(from + 1) % n..] + FullRing(n)[..(from + 1) % n])[i] == (from + i + 1) % n;
    }
  }

  // ---- What a new pool holds, what health checks and cleanups do ---------------------

  /** A new pool dials its first min(MaxIdle, number of targets) targets and keeps the dials that work. */
  lemma {:induction false} OpenedExactly(targets: seq<string>, dials: seq<bool>, firstId: nat, now: int, conn: Conn)
    requires |dials| <= |targets|
    ensures conn in Opened(targets, dials, firstId, now)
            <==> exists i :: 0 <= i < |dials| && dials[i] && conn == Conn(firstId + i, targets[i], now, 0, true)
  {
    if dials != [] {
      var before, n := dials[..|dials| - 1], |dials| - 1;
      OpenedExactly(targets, before, firstId, now, conn);
      assert forall i | 0 <= i < n :: before[i] == dials[i];
      assert conn in Opened(targets, dials, firstId, now)
             <==> conn in Opened(targets, before, firstId, now)
                  || (dials[n] && conn == Conn(firstId + n, targets[n], now, 0, true));
    }
  }

  lemma CreateExactly(m: Manager, name: string, config: Config, dials: seq<bool>, now: int)
    requires Applicable(m, Create(name, config, dials, now))
    ensures config.maxIdle <= 0 ==> |dials| == 0
    ensures 0 <= config.maxIdle <= |config.targets| ==> |dials| == config.maxIdle
    ensures |config.targets| <= config.maxIdle ==> |dials| == |config.targets|
    ensures var pool := Step(m, Create(name, config, dials, now)).pools[name];
            && pool.config == config && pool.lastUsed == now && pool.attempts == []
            && (forall conn :: conn in pool.conns <==>
                  exists i :: 0 <= i < |dials| && dials[i]
                              && conn == Conn(m.nextId + i, config.targets[i], now, 0, true))
            && (forall i, j | 0 <= i < j < |pool.conns| :: pool.conns[i].id < pool.conns[j].id)
  {
    forall conn
      ensures conn in Opened(config.targets, dials, m.nextId, now)
              <==> exists i :: 0 <= i < |dials| && dials[i]
                               && conn == Conn(m.nextId + i, config.targets[i], now, 0, true)
    {
      OpenedExactly(config.targets, dials, m.nextId, now, conn);
    }
  }

  /** No pool but `name` holds `id`, and there it counts as unhealthy. */
  ghost predicate Sick(m: Manager, name: string, id: nat) {
    && id < m.nextId
    && forall a, i | a in m.pools && 0 <= i < |m.pools[a].conns| && m.pools[a].conns[i].id == id ::
         a == name && !m.pools[a].conns[i].healthy
  }

  lemma SickStep(m: Manager, op: Op, name: string, id: nat)
    requires Valid(m) && Applicable(m, op) && Sick(m, name, id) && !(op.Check? && op.name == name)
    ensures Sick(Step(m, op), name, id)
  {
    var m' := Step(m, op);
    forall a, i | a in m'.pools && 0 <= i < |m'.pools[a].conns| && m'.pools[a].conns[i].id == id
      ensures a == name && !m'.pools[a].conns[i].healthy
    {
      if op.Cleanup? {
        SurvivorsExact(m.pools[a].conns, m.pools[a].config, op.now, m'.pools[a].conns[i]);
      }
    }
  }

  lemma {:induction false} SickRun(m: Manager, ops: seq<Op>, name: string, id: nat)
    requires Valid(m) && Runs(m, ops) && Sick(m, name, id)
    requires forall i | 0 <= i < |ops| && ops[i].Check? :: ops[i].name != name
    ensures Valid(Run(m, ops)) && Sick(Run(m, ops), name, id)
    decreases |ops|
  {
    if ops != [] {
      SickStep(m, ops[0], name, id);
      StepValid(m, ops[0]);
      SickRun(Step(m, ops[0]), ops[1..], name, id);
    }
  }

  lemma SickAfterCheck(m: Manager, name: string, verdicts: seq<bool>, i: nat)
    requires Valid(m) && Applicable(m, Check(name, verdicts)) && i < |verdicts| && !verdicts[i]
    ensures Sick(Step(m, Check(name, verdicts)), name, m.pools[name].conns[i].id)
  {
    var m', id := Step(m, Check(name, verdicts)), m.pools[name].conns[i].id;
    forall a, k | a in m'.pools && 0 <= k < |m'.pools[a].conns| && m'.pools[a].conns[k].id == id
      ensures a == name && !m'.pools[a].conns[k].healthy
    {
      assert m.pools[a].conns[k].id == id;
      assert id in Ids(m.pools[a]) && id in Ids(m.pools[name]);
    }
  }

  lemma SickNotUsable(m: Manager, name: string, id: nat, caller: string, now: int, dialOk: bool)
    requires Sick(m, name, id) && caller in m.pools
    ensures Handout(m.pools[caller], now, dialOk, m.nextId) != Some(id)
  {
    var pool := m.pools[caller];
    var k := FirstUsable(pool.conns, pool.config, now);
    assert k < |pool.conns| ==> pool.conns[k].healthy;
  }

  /** A connection whose last health check failed is never handed out, however long the run since. */
  lemma SickIsNotHandedOut(m: Manager, name: string, verdicts: seq<bool>, i: nat, later: seq<Op>,
                           caller: string, now: int, dialOk: bool)
    requires Valid(m) && Applicable(m, Check(name, verdicts)) && i < |verdicts| && !verdicts[i]
    requires Runs(Step(m, Check(name, verdicts)), later)
    requires forall k | 0 <= k < |later| && later[k].Check? :: later[k].name != name
    ensures var m' := Run(Step(m, Check(name, verdicts)), later);
            caller in m'.pools ==> Handout(m'.pools[caller], now, dialOk, m'.nextId) != Some(m.pools[name].conns[i].id)
  {
    var m1, id := Step(m, Check(name, verdicts)), m.pools[name].conns[i].id;
    StepValid(m, Check(name, verdicts));
    SickAfterCheck(m, name, verdicts, i);
    SickRun(m1, later, name, id);
    if caller in Run(m1, later).pools {
      SickNotUsable(Run(m1, later), name, id, caller, now, dialOk);
    }
  }

  /** A health check writes each connection's verdict, and nothing else of it. */
  lemma CheckExactly(conns: seq<Conn>, verdicts: seq<bool>, i: nat)
    requires |verdicts| == |conns| && i < |conns|
    ensures var c, c' := conns[i], Checked(conns, verdicts)[i];
            && c'.healthy == verdicts[i]
            && c'.id == c.id && c'.target == c.target && c'.lastUsed == c.lastUsed && c'.useCount == c.useCount
  {
  }

  /** Pool `a` holds `id`, and the connection or the whole pool has idled too long. */
  predicate ClosedAt(m: Manager, now: int, id: nat, a: string, i: int) {
    && a in m.pools && 0 <= i < |m.pools[a].conns| && m.pools[a].conns[i].id == id
    && (now - m.pools[a].conns[i].lastUsed > m.pools[a].config.idleTimeout
        || now - m.pools[a].lastUsed > 2 * m.poolTimeout)
  }

  lemma KeptIds(pool: Pool, now: int, i: nat)
    requires DistinctIds(pool.conns) && i < |pool.conns|
    ensures pool.conns[i].id in Ids(Cleaned(pool, now)) <==> now - pool.conns[i].lastUsed <= pool.config.idleTimeout
  {
    var conn, kept := pool.conns[i], Cleaned(pool, now).conns;
    SurvivorsExact(pool.conns, pool.config, now, conn);
    if k :| 0 <= k < |kept| && kept[k] == conn {
      assert kept[k].id in Ids(Cleaned(pool, now));
    }
    forall k | 0 <= k < |kept| && kept[k].id == conn.id ensures kept[k] == conn {
      SurvivorsExact(pool.conns, pool.config, now, kept[k]);
    }
  }

  lemma GivenUpExactly(m: Manager, name: string, now: int, id: nat)
    requires Valid(m) && name in m.pools
    ensures id in GivenUp(m, m.pools[name], now) <==> exists i :: ClosedAt(m, now, id, name, i)
  {
    var pool := m.pools[name];
    if id in Ids(pool) {
      var i: nat :| i < |pool.conns| && pool.conns[i].id == id;
      KeptIds(pool, now, i);
      assert id in GivenUp(m, pool, now) <==> ClosedAt(m, now, id, name, i);
      assert forall k | 0 <= k < |pool.conns| && pool.conns[k].id == id :: k == i;
    } else {
      forall i ensures !ClosedAt(m, now, id, name, i) {
        assert 0 <= i < |pool.conns| ==> pool.conns[i].id in Ids(pool);
      }
    }
  }

  /**
   A cleanup, exactly: it drops the pools not used for more than twice the default idle timeout,
   and closes their connections and those that have idled for more than their own timeout.
   */
  lemma CleanupExactly(m: Manager, now: int, id: nat)
    requires Valid(m)
    ensures var m' := Step(m, Cleanup(now));
            && (forall a | a in m.pools :: a in m'.pools <==> now - m.pools[a].lastUsed <= 2 * m.poolTimeout)
            && m'.pools.Keys <= m.pools.Keys
            && (id in m'.closed <==> id in m.closed || exists a, i :: ClosedAt(m, now, id, a, i))
  {
    if id in ClosedByCleanup(m, now) {
      var a :| a in m.pools && id in GivenUp(m, m.pools[a], now);
      GivenUpExactly(m, a, now, id);
    }
    if a, i :| ClosedAt(m, now, id, a, i) {
      GivenUpExactly(m, a, now, id);
      assert a in m.pools.Keys && id in GivenUp(m, m.pools[a], now);
    }
  }

  // ---- The pools as they run ---------------------------------------------------------

  class AdvancedConnectionPool {
    var pools: map<string, Pool>
    const defaultIdleTimeout: int
    ghost var closed: set<nat>
    ghost var nextId: nat

    ghost function State(): Manager
      reads this
    {
      Manager(pools, closed, nextId, defaultIdleTimeout)
    }

    constructor (defaultIdleTimeout: int)
      ensures State() == Created(defaultIdleTimeout)
    {
      pools := map[];
      this.defaultIdleTimeout := defaultIdleTimeout;
      closed, nextId := {}, 0;
    }

    /** `dials[i]` is whether dialling target i works; ids number the dials. */
    method CreateServicePool(name: string, config: Config, dials: seq<bool>, firstId: nat, now: int)
      requires |dials| == InitialDials(config) && firstId == nextId
      modifies this
      ensures State() == Step(old(State()), Create(name, config, dials, now))
    {
      var conns := DialTargets(config, dials, firstId, now);
      pools := pools[name := Pool(config, conns, 0, now, [])];
      nextId := nextId + |dials|;
    }

    static method DialTargets(config: Config, dials: seq<bool>, firstId: nat, now: int) returns (conns: seq<Conn>)
      requires |dials| == InitialDials(config)
      ensures conns == Opened(config.targets, dials, firstId, now)
    {
      conns := [];
      var i := 0;
      while i < config.maxIdle && i < |config.targets|
        invariant 0 <= i <= |dials|
        invariant conns == Opened(config.targets, dials[..i], firstId, now)
      {
        Wraps(i, |config.targets|);
        var target := config.targets[i % |config.targets|];
        ghost var some := dials[..i + 1];
        assert some[..i] == dials[..i] && some[i] == dials[i];
        if dials[i] {
          conns := conns + [Conn(firstId + i, target, now, 0, true)];
        }
        i := i + 1;
      }
      assert dials[..i] == dials;
    }

    /** None is the error "no available connections" or "service pool not found". */
    method GetConnection(name: string, dialOk: bool, id: nat, now: int) returns (r: Option<nat>)
      requires id == nextId
      modifies this
      ensures State() == Step(old(State()), Obtain(name, now, dialOk))
      ensures r == if name in old(pools) then Handout(old(pools)[name], now, dialOk, id) else None
    {
      if name !in pools {
        return None;
      }
      var pool := pools[name];
      nextId := nextId + 1;
      var i := FindUsable(pool, now);
      if i < |pool.conns| {
        pools := pools[name := pool.(lastUsed := now, conns := pool.conns[i := Used(pool.conns[i], now)])];
        return Some(pool.conns[i].id);
      }
      if |pool.conns| < pool.config.maxConnections {
        var target := "";
        var roundRobin := pool.roundRobin;
        if |pool.config.targets| > 0 {
          roundRobin := roundRobin + 1;
          target := pool.config.targets[roundRobin % |pool.config.targets|];
        }
        pool := pool.(lastUsed := now, roundRobin := roundRobin, attempts := pool.attempts + [target]);
        if dialOk {
          var conn := Conn(id, target, now, 0, true);
          pools := pools[name := pool.(conns := pool.conns + [Used(conn, now)])];
          return Some(id);
        }
        pools := pools[name := pool];
        return None;
      }
      pools := pools[name := pool.(lastUsed := now)];
      return None;
    }

    static method FindUsable(pool: Pool, now: int) returns (i: nat)
      ensures i == FirstUsable(pool.conns, pool.config, now)
    {
      i := 0;
      while i < |pool.conns|
        invariant i <= |pool.conns|
        invariant FirstUsable(pool.conns, pool.config, now) == i + FirstUsable(pool.conns[i..], pool.config, now)
      {
        if Usable(pool.conns[i], pool.config, now) {
          return;
        }
        assert pool.conns[i..][1..] == pool.conns[i + 1..];
        i := i + 1;
      }
    }

    static method KeepActive(pool: Pool, now: int) returns (active: seq<Conn>, ghost dropped: set<nat>)
      ensures active == Survivors(pool.conns, pool.config, now)
      ensures dropped == set c | c in pool.conns && Expired(c, pool.config, now) :: c.id
    {
      active, dropped := [], {};
      for i := 0 to |pool.conns|
        invariant active == Survivors(pool.conns[..i], pool.config, now)
        invariant dropped == set c | c in pool.conns[..i] && Expired(c, pool.config, now) :: c.id
      {
        var conn := pool.conns[i];
        assert pool.conns[..i + 1] == pool.conns[..i] + [conn];
        if now - conn.lastUsed > pool.config.idleTimeout {
          dropped := dropped + {conn.id};
        } else {
          active := active + [conn];
        }
      }
      assert pool.conns[..|pool.conns|] == pool.conns;
    }

    static lemma DroppedIds(pool: Pool, now: int, id: nat)
      requires DistinctIds(pool.conns)
      ensures id in Ids(pool) && id !in Ids(Cleaned(pool, now))
              <==> exists c :: c in pool.conns && Expired(c, pool.config, now) && c.id == id
    {
      if c :| c in pool.conns && Expired(c, pool.config, now) && c.id == id {
        var kept := Cleaned(pool, now).conns;
        forall i | 0 <= i < |kept| ensures kept[i].id != id {
          SurvivorsExact(pool.conns, pool.config, now, kept[i]);
        }
      } else if id in Ids(pool) {
        var i :| 0 <= i < |pool.conns| && pool.conns[i].id == id;
        SurvivorsExact(pool.conns, pool.config, now, pool.conns[i]);
        var kept := Cleaned(pool, now).conns;
        var j :| 0 <= j < |kept| && kept[j] == pool.conns[i];
        assert kept[j].id in Ids(Cleaned(pool, now));
      }
    }

    method CleanOne(name: string, now: int) returns (ghost dropped: set<nat>)
      requires name in pools && DistinctIds(pools[name].conns)
      modifies this`pools, this`closed
      ensures var m, pool := old(State()), old(pools)[name];
              && pools == (if Abandoned(m, pool, now) then old(pools) - {name}
                           else old(pools)[name := Cleaned(pool, now)])
              && closed == old(closed) + GivenUp(m, pool, now)
    {
      var pool := pools[name];
      var active;
      active, dropped := KeepActive(pool, now);
      forall id: nat ensures id in dropped <==> id in Ids(pool) && id !in Ids(Cleaned(pool, now)) {
        DroppedIds(pool, now, id);
      }
      CleanedIds(pool, now);
      closed := closed + dropped;
      pools := pools[name := pool.(conns := active)];
      if now - pool.lastUsed > defaultIdleTimeout * 2 {
        closed := closed + Ids(pool.(conns := active));
        pools := pools - {name};
      }
    }

    /** The pools when those in `done` have been visited. */
    static ghost function PartlyClean(m: Manager, done: set<string>, now: int): map<string, Pool> {
      map name | name in m.pools && !(name in done && Abandoned(m, m.pools[name], now)) ::
        if name in done then Cleaned(m.pools[name], now) else m.pools[name]
    }

    static lemma VisitOne(m: Manager, done: set<string>, name: string, now: int)
      requires name in m.pools && name !in done
      ensures PartlyClean(m, done + {name}, now)
           == if Abandoned(m, m.pools[name], now) then PartlyClean(m, done, now) - {name}
              else PartlyClean(m, done, now)[name := Cleaned(m.pools[name], now)]
      ensures Closing(m, done + {name}, now) == Closing(m, done, now) + GivenUp(m, m.pools[name], now)
    {
    }

    static lemma VisitNoneOrAll(m: Manager, now: int)
      ensures PartlyClean(m, {}, now) == m.pools && Closing(m, {}, now) == {}
      ensures PartlyClean(m, m.pools.Keys, now) == PoolsAfterCleanup(m, now)
    {
    }

    /** Pools are visited in any order. */
    method PerformCleanup(now: int)
      requires Valid(State())
      modifies this`pools, this`closed
      ensures State() == Step(old(State()), Cleanup(now))
    {
      ghost var m, done := State(), {};
      var todo := pools.Keys;
      VisitNoneOrAll(m, now);
      while todo != {}
        invariant todo + done == m.pools.Keys && todo !! done
        invariant pools == PartlyClean(m, done, now)
        invariant closed == m.closed + Closing(m, done, now)
        decreases todo
      {
        var name :| name in todo;
        VisitOne(m, done, name, now);
        ghost var dropped := CleanOne(name, now);
        todo, done := todo - {name}, done + {name};
      }
      assert done == m.pools.Keys;
    }

    /** One pool's health check; `verdicts[i]` is the answer for connection i. */
    method PerformHealthCheck(name: string, verdicts: seq<bool>)
      requires name in pools && |verdicts| == |pools[name].conns|
      modifies this`pools
      ensures State() == Step(old(State()), Check(name, verdicts))
    {
      var conns := pools[name].conns;
      ghost var before := conns;
      for i := 0 to |conns|
        invariant |conns| == |before|
        invariant forall j | 0 <= j < i :: conns[j] == before[j].(healthy := verdicts[j])
        invariant forall j | i <= j < |conns| :: conns[j] == before[j]
        invariant State() == old(State())
      {
        conns := conns[i := conns[i].(healthy := verdicts[i])];
      }
      assert conns == Checked(before, verdicts);
      pools := pools[name := pools[name].(conns := conns)];
    }
  }
}
