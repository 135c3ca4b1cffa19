/**
 The client's 16-shard TTL + LRU cache. Every clock reading is an argument; readings are
 nanoseconds. A value is an opaque handle, the hash any function.
 */
module ShardedCache {
  import opened Wrappers

  type Value = int

  const SHARD_COUNT: nat := 16

  datatype Item = Item(value: Value, expireTime: int, accessTime: int, accessCount: int)

  datatype Shard = Shard(items: map<string, Item>, count: int)

  /** How a cache is built: its lifetime for items, its size, and where keys go. */
  datatype Config = Config(ttl: int, maxSize: int, hash: string -> nat) {
    function ShardOf(key: string): (i: nat)
      ensures i < SHARD_COUNT
    {
      hash(key) % SHARD_COUNT
    }

    /** maxSize / 16 with Go's truncation toward zero. */
    function ShardLimit(): int {
      if maxSize >= 0 then maxSize / SHARD_COUNT else -((-maxSize) / SHARD_COUNT)
    }

    /** What a shard can hold at rest: never fewer than no items. */
    function Room(): (n: nat)
      ensures maxSize >= 0 ==> SHARD_COUNT * n <= maxSize
    {
      if ShardLimit() < 0 then 0 else ShardLimit()
    }
  }

  /** `now` is the first clock reading of the call, `later` the second. */
  datatype Op =
    | Set(key: string, value: Value, now: int, later: int)
    | Get(key: string, now: int, later: int)
    | Delete(key: string)

  // ---- Eviction ----------------------------------------------------------------------

  /** `key` may come out of the scan for the oldest item: touched before `later`, none earlier. */
  ghost predicate IsOldest(items: map<string, Item>, key: string, later: int) {
    && key in items && items[key].accessTime < later
    && forall k | k in items :: items[key].accessTime <= items[k].accessTime
  }

  ghost predicate DistinctTimes(items: map<string, Item>) {
    forall j, k | j in items && k in items && items[j].accessTime == items[k].accessTime :: j == k
  }

  ghost function Oldest(items: map<string, Item>, later: int): Option<string> {
    if exists k :: IsOldest(items, k, later) then
      var k :| IsOldest(items, k, later);
      Some(k)
    else
      None
  }

  lemma OldestIsUnique(items: map<string, Item>, later: int, key: string)
    requires DistinctTimes(items) && IsOldest(items, key, later)
    ensures Oldest(items, later) == Some(key)
  {
  }

  /** The source's sentinel: the empty key stands for "nothing found". */
  function Without(s: Shard, victim: Option<string>): Shard {
    if victim == None || victim == Some("") then s
    else Shard(s.items - {victim.value}, s.count - 1)
  }

  // ---- One operation on one shard ----------------------------------------------------

  function Inserted(c: Config, s: Shard, key: string, value: Value, now: int): Shard {
    Shard(s.items[key := Item(value, now + c.ttl, now, 1)], s.count + 1)
  }

  /** Where the scan of a Set comes out, if the shard is over its limit and the scan runs. */
  ghost function Scanned(c: Config, s: Shard, key: string, value: Value, now: int, later: int): Option<string> {
    var full := Inserted(c, s, key, value, now);
    if |full.items| > c.ShardLimit() then Oldest(full.items, later) else None
  }

  /** What a Set really evicts. */
  ghost function Victim(c: Config, s: Shard, key: string, value: Value, now: int, later: int): Option<string> {
    var scanned := Scanned(c, s, key, value, now, later);
    if scanned == Some("") then None else scanned
  }

  ghost function SetStep(c: Config, s: Shard, key: string, value: Value, now: int, later: int): Shard {
    Without(Inserted(c, s, key, value, now), Scanned(c, s, key, value, now, later))
  }

  function DeleteStep(s: Shard, key: string): Shard {
    if key in s.items then Shard(s.items - {key}, s.count - 1) else s
  }

  function Answer(s: Shard, key: string, now: int): Option<Value> {
    if key in s.items && now <= s.items[key].expireTime then Some(s.items[key].value) else None
  }

  function GetStep(s: Shard, key: string, now: int, later: int): Shard {
    if key !in s.items then s
    else if now > s.items[key].expireTime then DeleteStep(s, key)
    else
      var item := s.items[key];
      s.(items := s.items[key := item.(accessCount := item.accessCount + 1, accessTime := later)])
  }

  ghost function ShardStep(c: Config, s: Shard, op: Op): Shard {
    match op
    case Set(key, value, now, later) => SetStep(c, s, key, value, now, later)
    case Get(key, now, later) => GetStep(s, key, now, later)
    case Delete(key) => DeleteStep(s, key)
  }

  // ---- The cache ---------------------------------------------------------------------

  type Shards = seq<Shard>

  function Empty(): (s: Shards)
    ensures |s| == SHARD_COUNT
  {
    seq(SHARD_COUNT, i => Shard(map[], 0))
  }

  ghost function Step(c: Config, s: Shards, op: Op): (s': Shards)
    requires |s| == SHARD_COUNT
    ensures |s'| == SHARD_COUNT
  {
    var i := c.ShardOf(op.key);
    s[i := ShardStep(c, s[i], op)]
  }

  ghost function Run(c: Config, ops: seq<Op>): (s: Shards)
    ensures |s| == SHARD_COUNT
  {
    if ops == [] then Empty()
    else Step(c, Run(c, ops[..|ops| - 1]), ops[|ops| - 1])
  }

  /** The latest clock reading of a run that began at `start`. */
  function Clock(start: int, ops: seq<Op>): int {
    if ops == [] then start
    else
      match ops[|ops| - 1]
      case Delete(_) => Clock(start, ops[..|ops| - 1])
      case op => op.later
  }

  /** The clock moves forward at every reading. */
  ghost predicate Ticking(start: int, ops: seq<Op>) {
    ops == [] ||
    var before, op := ops[..|ops| - 1], ops[|ops| - 1];
    Ticking(start, before) && (op.Delete? || Clock(start, before) < op.now < op.later)
  }

  /** Items sit in their own shard, with distinct past access times. */
  ghost predicate Keyed(c: Config, items: map<string, Item>, i: nat, clock: int) {
    && DistinctTimes(items)
    && forall k | k in items :: items[k].accessTime <= clock && c.ShardOf(k) == i
  }

  /** The empty key is the least recently touched of all. */
  ghost predicate EmptyIsOldest(items: map<string, Item>) {
    "" in items && forall k | k in items :: items[""].accessTime <= items[k].accessTime
  }

  lemma {:induction false} SomeOldest(items: map<string, Item>, later: int) returns (key: string)
    requires items != map[] && forall k | k in items :: items[k].accessTime < later
    ensures IsOldest(items, key, later)
    decreases |items|
  {
    var k :| k in items;
    var rest := items - {k};
    assert forall j | j in items :: j == k || j in rest;
    if rest == map[] {
      key := k;
    } else {
      key := SomeOldest(rest, later);
      if items[k].accessTime < items[key].accessTime {
        key := k;
      }
    }
  }

  /**
   With the clock moving, the scan of a Set runs if and only if the shard is over its room, and
   comes out at exactly the least recently touched item: the empty key only if that is the
   oldest, and the new item only if it is alone.
   */
  lemma ScanOfSet(c: Config, s: Shard, i: nat, clock: int, key: string, value: Value, now: int, later: int)
    requires Keyed(c, s.items, i, clock) && clock < now < later && c.ShardOf(key) == i
    ensures var full := Inserted(c, s, key, value, now).items;
            var scanned := Scanned(c, s, key, value, now, later);
            && DistinctTimes(full)
            && (scanned.Some? <==> |full| > c.Room())
            && (scanned.Some? ==> IsOldest(full, scanned.value, later))
            && (scanned.Some? ==> (scanned.value == key <==> |full| == 1))
            && (scanned == Some("") <==> |full| > c.Room() && EmptyIsOldest(full))
  {
    var full := Inserted(c, s, key, value, now).items;
    assert DistinctTimes(full);
    assert key in full;
    var oldest := SomeOldest(full, later);
    OldestIsUnique(full, later, oldest);
    if |full| == 1 {
      Singleton(full, oldest, key);
    } else {
      var other := Another(full, key);
      assert full[other].accessTime < full[key].accessTime;
    }
  }

  lemma Singleton(items: map<string, Item>, j: string, k: string)
    requires |items| == 1 && j in items && k in items
    ensures j == k
  {
    assert |items.Keys - {j}| == 0;
  }

  lemma Another(items: map<string, Item>, k: string) returns (other: string)
    requires |items| != 1 && k in items
    ensures other in items && other != k
  {
    assert |items.Keys - {k}| == |items.Keys| - 1;
    other :| other in items.Keys - {k};
  }

  lemma Inserting(a: map<string, Item>, key: string, item: Item)
    ensures |a[key := item]| == |a| + if key in a then 0 else 1
  {
    assert a[key := item].Keys == a.Keys + {key};
  }

  lemma Removing(a: map<string, Item>, key: string)
    ensures |a - {key}| == |a| - if key in a then 1 else 0
  {
    assert (a - {key}).Keys == a.Keys - {key};
  }

  lemma InsertedKeyed(c: Config, s: Shard, i: nat, clock: int, key: string, value: Value, now: int)
    requires Keyed(c, s.items, i, clock) && clock < now && c.ShardOf(key) == i
    ensures Keyed(c, Inserted(c, s, key, value, now).items, i, now)
    ensures |Inserted(c, s, key, value, now).items| <= |s.items| + 1
  {
    Inserting(s.items, key, Item(value, now + c.ttl, now, 1));
  }

  lemma WithoutKeyed(c: Config, s: Shard, victim: Option<string>, i: nat, clock: int, later: int)
    requires Keyed(c, s.items, i, clock) && clock <= later
    ensures Keyed(c, Without(s, victim).items, i, later)
  {
  }

  lemma StepKeyed(c: Config, s: Shard, i: nat, clock: int, op: Op)
    requires Keyed(c, s.items, i, clock) && c.ShardOf(op.key) == i
    requires op.Delete? || clock < op.now < op.later
    ensures Keyed(c, ShardStep(c, s, op).items, i, if op.Delete? then clock else op.later)
  {
    match op
    case Set(key, value, now, later) =>
      InsertedKeyed(c, s, i, clock, key, value, now);
      WithoutKeyed(c, Inserted(c, s, key, value, now), Scanned(c, s, key, value, now, later), i, now, later);
    case Get(_, _, _) =>
    case Delete(_) =>
  }

  /** Over every run, every shard holds only its own keys, with distinct past access times. */
  lemma {:induction false} AlwaysKeyed(c: Config, start: int, ops: seq<Op>, i: nat)
    requires Ticking(start, ops) && i < SHARD_COUNT
    ensures Keyed(c, Run(c, ops)[i].items, i, Clock(start, ops))
  {
    if ops != [] {
      var before, op := ops[..|ops| - 1], ops[|ops| - 1];
      AlwaysKeyed(c, start, before, i);
      if c.ShardOf(op.key) == i {
        StepKeyed(c, Run(c, before)[i], i, Clock(start, before), op);
      }
    }
  }

  /** The scan of the last operation of a run, when that is a Set. */
  lemma ScanInRun(c: Config, start: int, ops: seq<Op>)
    requires ops != [] && Ticking(start, ops) && ops[|ops| - 1].Set?
    ensures var before, op := ops[..|ops| - 1], ops[|ops| - 1];
            var s := Run(c, before)[c.ShardOf(op.key)];
            var full := Inserted(c, s, op.key, op.value, op.now).items;
            var scanned := Scanned(c, s, op.key, op.value, op.now, op.later);
            && Keyed(c, full, c.ShardOf(op.key), op.now)
            && (scanned.Some? <==> |full| > c.Room())
            && (scanned.Some? ==> IsOldest(full, scanned.value, op.later))
            && (scanned == Some("") <==> |full| > c.Room() && EmptyIsOldest(full))
  {
    var before, op := ops[..|ops| - 1], ops[|ops| - 1];
    var i := c.ShardOf(op.key);
    AlwaysKeyed(c, start, before, i);
    ScanOfSet(c, Run(c, before)[i], i, Clock(start, before), op.key, op.value, op.now, op.later);
    InsertedKeyed(c, Run(c, before)[i], i, Clock(start, before), op.key, op.value, op.now);
  }
}
