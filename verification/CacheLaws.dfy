/** LRU inclusion: a bigger cache holds everything a smaller one holds, item for item. */
module CacheInclusion {
  import opened Wrappers
  import opened ShardedCache

  /** Two caches that differ in size only. */
  ghost predicate SameButSmaller(small: Config, big: Config) {
    small.ttl == big.ttl && small.hash == big.hash && small.Room() <= big.Room()
  }

  /** Every item of `a` is in `b`, equal in value, expiry, access time and count. */
  ghost predicate Within(a: map<string, Item>, b: map<string, Item>) {
    forall k | k in a :: k in b && b[k] == a[k]
  }

  /**
   The invariant: inclusion, the empty key in both or in neither, and the bigger shard ahead by
   no more than its extra room.
   */
  ghost predicate Nested(small: Config, big: Config, s: Shard, b: Shard) {
    && Within(s.items, b.items)
    && ("" in b.items ==> "" in s.items)
    && |b.items| + small.Room() <= |s.items| + big.Room()
  }

  lemma InsertNested(small: Config, big: Config, s: Shard, b: Shard, key: string, value: Value, now: int)
    requires SameButSmaller(small, big) && Nested(small, big, s, b)
    ensures Nested(small, big, Inserted(small, s, key, value, now), Inserted(big, b, key, value, now))
  {
    var item := Item(value, now + small.ttl, now, 1);
    Inserting(s.items, key, item);
    Inserting(b.items, key, item);
  }

  /** The oldest of the bigger shard, if the smaller has it too, is the oldest there. */
  lemma SameOldest(a: map<string, Item>, b: map<string, Item>, x: string, y: string, later: int)
    requires Within(a, b) && DistinctTimes(b) && IsOldest(a, x, later) && IsOldest(b, y, later)
    ensures y in a ==> x == y
  {
    if y in a {
      assert a[y].accessTime == b[y].accessTime <= b[x].accessTime == a[x].accessTime <= a[y].accessTime;
    }
  }

  lemma EvictNested(small: Config, big: Config, s: Shard, b: Shard, vs: Option<string>, vb: Option<string>, later: int)
    requires SameButSmaller(small, big) && Nested(small, big, s, b) && DistinctTimes(b.items)
    requires vs.Some? <==> |s.items| > small.Room()
    requires vb.Some? <==> |b.items| > big.Room()
    requires vs.Some? ==> IsOldest(s.items, vs.value, later)
    requires vb.Some? ==> IsOldest(b.items, vb.value, later)
    ensures Nested(small, big, Without(s, vs), Without(b, vb))
  {
    if vs.Some? {
      Removing(s.items, vs.value);
    }
    if vb.Some? {
      Removing(b.items, vb.value);
      SameOldest(s.items, b.items, vs.value, vb.value, later);
    }
  }

  lemma SetNested(small: Config, big: Config, s: Shard, b: Shard, i: nat, clock: int, op: Op)
    requires SameButSmaller(small, big) && Nested(small, big, s, b)
    requires Keyed(small, s.items, i, clock) && Keyed(big, b.items, i, clock)
    requires op.Set? && clock < op.now < op.later && small.ShardOf(op.key) == i == big.ShardOf(op.key)
    ensures Nested(small, big, ShardStep(small, s, op), ShardStep(big, b, op))
  {
    var Set(key, value, now, later) := op;
    ScanOfSet(small, s, i, clock, key, value, now, later);
    ScanOfSet(big, b, i, clock, key, value, now, later);
    InsertNested(small, big, s, b, key, value, now);
    EvictNested(small, big, Inserted(small, s, key, value, now), Inserted(big, b, key, value, now),
                Scanned(small, s, key, value, now, later), Scanned(big, b, key, value, now, later), later);
  }

  lemma DeleteNested(small: Config, big: Config, s: Shard, b: Shard, key: string)
    requires Nested(small, big, s, b) && SameButSmaller(small, big)
    ensures Nested(small, big, DeleteStep(s, key), DeleteStep(b, key))
  {
    Removing(s.items, key);
    Removing(b.items, key);
    if key !in s.items && key in b.items {
      assert s.items == s.items - {key};
    }
  }

  lemma GetNested(small: Config, big: Config, s: Shard, b: Shard, key: string, now: int, later: int)
    requires Nested(small, big, s, b) && SameButSmaller(small, big)
    ensures Nested(small, big, GetStep(s, key, now, later), GetStep(b, key, now, later))
  {
    if key in b.items && now > b.items[key].expireTime {
      DeleteNested(small, big, s, b, key);
    } else if key in b.items {
      var item := b.items[key];
      var touched := item.(accessCount := item.accessCount + 1, accessTime := later);
      Inserting(b.items, key, touched);
      Inserting(s.items, key, touched);
    }
  }

  lemma {:induction false} AlwaysNested(small: Config, big: Config, start: int, ops: seq<Op>, i: nat)
    requires SameButSmaller(small, big) && Ticking(start, ops) && i < SHARD_COUNT
    ensures Nested(small, big, Run(small, ops)[i], Run(big, ops)[i])
  {
    if ops != [] {
      var before, op := ops[..|ops| - 1], ops[|ops| - 1];
      AlwaysNested(small, big, start, before, i);
      if small.ShardOf(op.key) == i {
        var s, b, clock := Run(small, before)[i], Run(big, before)[i], Clock(start, before);
        AlwaysKeyed(small, start, before, i);
        AlwaysKeyed(big, start, before, i);
        match op
        case Set(_, _, _, _) => SetNested(small, big, s, b, i, clock, op);
        case Get(key, now, later) => GetNested(small, big, s, b, key, now, later);
        case Delete(key) => DeleteNested(small, big, s, b, key);
      }
    }
  }

  /**
   LRU inclusion. On the same timed sequence of operations the bigger cache always holds what
   the smaller one holds, with equal values, expiries and access times; so enlarging a cache
   never turns a hit into a miss or changes what is returned.
   */
  lemma BiggerNeverMissesMore(small: Config, big: Config, start: int, ops: seq<Op>, key: string, now: int)
    requires SameButSmaller(small, big) && Ticking(start, ops)
    ensures var i := small.ShardOf(key);
            && Within(Run(small, ops)[i].items, Run(big, ops)[i].items)
            && (Answer(Run(small, ops)[i], key, now).Some? ==>
                  Answer(Run(big, ops)[i], key, now) == Answer(Run(small, ops)[i], key, now))
  {
    AlwaysNested(small, big, start, ops, small.ShardOf(key));
  }

  /** A larger maxSize gives at least as much room. */
  lemma RoomGrows(small: Config, big: Config)
    requires small.ttl == big.ttl && small.hash == big.hash && small.maxSize <= big.maxSize
    ensures SameButSmaller(small, big)
  {
  }
}

/** The sharded cache against one flat timed map. */
module CacheRefinement {
  import opened Wrappers
  import opened ShardedCache

  datatype Write = Write(value: Value, at: int)

  /** The last Set of `key` with no later Delete. */
  function LastWrite(ops: seq<Op>, key: string): Option<Write> {
    if ops == [] then None
    else
      var before, op := ops[..|ops| - 1], ops[|ops| - 1];
      if op.key != key || op.Get? then LastWrite(before, key)
      else if op.Set? then Some(Write(op.value, op.now))
      else None
  }

  /** When `key` was last set or asked for. */
  function LastTouch(ops: seq<Op>, key: string): int {
    if ops == [] then 0
    else
      var op := ops[|ops| - 1];
      if op.key != key || op.Delete? then LastTouch(ops[..|ops| - 1], key)
      else if op.Set? then op.now
      else op.later
  }

  /** What the last operation of a run evicted, if anything. */
  ghost function Evicted(c: Config, ops: seq<Op>): Option<string>
    requires ops != []
  {
    var before, op := ops[..|ops| - 1], ops[|ops| - 1];
    match op
    case Set(key, value, now, later) => Victim(c, Run(c, before)[c.ShardOf(key)], key, value, now, later)
    case _ => None
  }

  /** `key` was evicted by its last Set or since. */
  ghost predicate EvictedSinceWrite(c: Config, ops: seq<Op>, key: string) {
    ops != [] &&
    var before, op := ops[..|ops| - 1], ops[|ops| - 1];
    if Evicted(c, ops) == Some(key) then true
    else if op.key == key && !op.Get? then false
    else EvictedSinceWrite(c, before, key)
  }

  /** What a flat map with the same lifetimes would answer, given which keys were evicted. */
  ghost function FlatAnswer(c: Config, ops: seq<Op>, key: string, now: int): Option<Value> {
    var write := LastWrite(ops, key);
    if write.Some? && now <= write.value.at + c.ttl && !EvictedSinceWrite(c, ops, key) then Some(write.value.value)
    else None
  }

  ghost predicate Tracks(c: Config, ops: seq<Op>, key: string, clock: int) {
    var items, write := Run(c, ops)[c.ShardOf(key)].items, LastWrite(ops, key);
    && (key in items ==>
          && write.Some? && !EvictedSinceWrite(c, ops, key)
          && items[key].value == write.value.value && items[key].expireTime == write.value.at + c.ttl
          && items[key].accessTime == LastTouch(ops, key))
    && (key !in items ==>
          write.None? || EvictedSinceWrite(c, ops, key) || clock > write.value.at + c.ttl)
  }

  /** The history of a key the last operation was not about. */
  lemma HistoryElsewhere(c: Config, ops: seq<Op>, key: string)
    requires ops != [] && ops[|ops| - 1].key != key
    ensures var before := ops[..|ops| - 1];
            && LastWrite(ops, key) == LastWrite(before, key)
            && LastTouch(ops, key) == LastTouch(before, key)
            && (EvictedSinceWrite(c, ops, key) <==> Evicted(c, ops) == Some(key) || EvictedSinceWrite(c, before, key))
  {
  }

  lemma ElsewhereTracks(c: Config, start: int, ops: seq<Op>, key: string)
    requires ops != [] && Ticking(start, ops) && ops[|ops| - 1].key != key
    requires Tracks(c, ops[..|ops| - 1], key, Clock(start, ops[..|ops| - 1]))
    ensures Tracks(c, ops, key, Clock(start, ops))
  {
    var before, op, i := ops[..|ops| - 1], ops[|ops| - 1], c.ShardOf(key);
    HistoryElsewhere(c, ops, key);
    TouchesOneShard(c, Run(c, before), op, key);
    if op.Set? {
      ScanInRun(c, start, ops);
    }
  }

  lemma SetTracks(c: Config, start: int, ops: seq<Op>, key: string)
    requires ops != [] && Ticking(start, ops)
    requires ops[|ops| - 1].Set? && ops[|ops| - 1].key == key
    ensures Tracks(c, ops, key, Clock(start, ops))
  {
    var before, op, i := ops[..|ops| - 1], ops[|ops| - 1], c.ShardOf(key);
    var s := Run(c, before)[i];
    ScanInRun(c, start, ops);
    var s' := SetStep(c, s, key, op.value, op.now, op.later);
    assert Run(c, ops)[i] == s';
    if Victim(c, s, key, op.value, op.now, op.later) == Some(key) {
      assert key !in s'.items;
    } else {
      assert s'.items[key] == Item(op.value, op.now + c.ttl, op.now, 1);
    }
  }

  lemma OwnTracks(c: Config, start: int, ops: seq<Op>, key: string)
    requires ops != [] && Ticking(start, ops)
    requires !ops[|ops| - 1].Set? && ops[|ops| - 1].key == key
    requires Tracks(c, ops[..|ops| - 1], key, Clock(start, ops[..|ops| - 1]))
    ensures Tracks(c, ops, key, Clock(start, ops))
  {
  }

  lemma {:induction false} AlwaysTracks(c: Config, start: int, ops: seq<Op>, key: string)
    requires Ticking(start, ops)
    ensures Tracks(c, ops, key, Clock(start, ops))
  {
    if ops != [] {
      var op := ops[|ops| - 1];
      AlwaysTracks(c, start, ops[..|ops| - 1], key);
      if op.key != key {
        ElsewhereTracks(c, start, ops, key);
      } else if op.Set? {
        SetTracks(c, start, ops, key);
      } else {
        OwnTracks(c, start, ops, key);
      }
    }
  }

  /**
   Refinement. A Get answers exactly what one flat timed map would: the value of the last Set
   with no later Delete, unless it has expired or has been evicted since; whatever the hash.
   */
  lemma AnswersLikeFlatMap(c: Config, start: int, ops: seq<Op>, key: string, now: int)
    requires Ticking(start, ops) && now > Clock(start, ops)
    ensures Answer(Run(c, ops)[c.ShardOf(key)], key, now) == FlatAnswer(c, ops, key, now)
  {
    AlwaysTracks(c, start, ops, key);
  }

  /**
   What is evicted is the least recently used key of its shard: every key the shard still
   holds was set or asked for later.
   */
  lemma EvictsLeastRecentlyUsed(c: Config, start: int, ops: seq<Op>, victim: string, other: string)
    requires ops != [] && Ticking(start, ops) && Evicted(c, ops) == Some(victim)
    requires other in Run(c, ops)[c.ShardOf(victim)].items
    ensures c.ShardOf(victim) == c.ShardOf(ops[|ops| - 1].key)
    ensures LastTouch(ops, victim) < LastTouch(ops, other)
  {
    var before, op := ops[..|ops| - 1], ops[|ops| - 1];
    var i := c.ShardOf(op.key);
    ScanInRun(c, start, ops);
    var full := Inserted(c, Run(c, before)[i], op.key, op.value, op.now).items;
    assert Run(c, ops)[i].items == full - {victim};
    forall k | k in full ensures full[k].accessTime == LastTouch(ops, k) {
      if k != op.key {
        AlwaysTracks(c, start, before, k);
      }
    }
  }

  /**
   Locality. An operation leaves every other shard alone, and within its own shard it changes
   another key only by evicting it.
   */
  lemma TouchesOneShard(c: Config, s: Shards, op: Op, other: string)
    requires |s| == SHARD_COUNT && other != op.key
    ensures var i, s' := c.ShardOf(other), Step(c, s, op);
            && (i != c.ShardOf(op.key) ==> s'[i] == s[i])
            && (other in s'[i].items ==> other in s[i].items && s'[i].items[other] == s[i].items[other])
            && (other in s[i].items && other !in s'[i].items ==>
                  && op.Set? && i == c.ShardOf(op.key)
                  && Victim(c, s[i], op.key, op.value, op.now, op.later) == Some(other))
  {
  }

  /** How often `key` was asked for since its last Set or Delete. */
  function AskedSinceWrite(ops: seq<Op>, key: string): nat {
    if ops == [] then 0
    else
      var op := ops[|ops| - 1];
      if op.key != key then AskedSinceWrite(ops[..|ops| - 1], key)
      else if op.Get? then AskedSinceWrite(ops[..|ops| - 1], key) + 1
      else 0
  }

  /** An item's access count is one for its Set and one for each Get since. */
  lemma {:induction false} AccessesCounted(c: Config, ops: seq<Op>, key: string)
    ensures var items := Run(c, ops)[c.ShardOf(key)].items;
            key in items ==> items[key].accessCount == 1 + AskedSinceWrite(ops, key)
  {
    if ops != [] {
      var before, op := ops[..|ops| - 1], ops[|ops| - 1];
      AccessesCounted(c, before, key);
      if op.key != key {
        TouchesOneShard(c, Run(c, before), op, key);
      }
    }
  }

  /** A Get that finds nothing, or nothing still alive, leaves nothing under its key; one that answers keeps it. */
  lemma GetKeepsWhatItAnswers(c: Config, s: Shard, key: string, now: int, later: int)
    ensures key in GetStep(s, key, now, later).items <==> key in s.items && now <= s.items[key].expireTime
    ensures Answer(s, key, now).Some? <==> key in s.items && now <= s.items[key].expireTime
  {
  }

  /** Sets of a shard that overwrote a key it held. */
  ghost function Overwrites(c: Config, ops: seq<Op>, i: nat): nat
    requires i < SHARD_COUNT
  {
    if ops == [] then 0
    else
      var before, op := ops[..|ops| - 1], ops[|ops| - 1];
      Overwrites(c, before, i)
        + if op.Set? && c.ShardOf(op.key) == i && op.key in Run(c, before)[i].items then 1 else 0
  }

  /** How far the counter runs ahead of the items. */
  function Drift(s: Shard): int {
    s.count - |s.items|
  }

  lemma SetDrift(c: Config, s: Shard, i: nat, clock: int, op: Op)
    requires Keyed(c, s.items, i, clock) && op.Set? && clock < op.now < op.later && c.ShardOf(op.key) == i
    ensures Drift(ShardStep(c, s, op)) == Drift(s) + if op.key in s.items then 1 else 0
  {
    var Set(key, value, now, later) := op;
    ScanOfSet(c, s, i, clock, key, value, now, later);
    var full, scanned := Inserted(c, s, key, value, now), Scanned(c, s, key, value, now, later);
    Inserting(s.items, key, Item(value, now + c.ttl, now, 1));
    if scanned.Some? {
      Removing(full.items, scanned.value);
    }
  }

  lemma OtherDrift(c: Config, s: Shard, op: Op)
    requires !op.Set?
    ensures Drift(ShardStep(c, s, op)) == Drift(s)
  {
    Removing(s.items, op.key);
    if op.Get? && op.key in s.items {
      var item := s.items[op.key];
      Inserting(s.items, op.key, item.(accessCount := item.accessCount + 1, accessTime := op.later));
    }
  }

  /** The shard's counter drifts: it exceeds the number of items by the number of overwrites. */
  lemma {:induction false} CountDrifts(c: Config, start: int, ops: seq<Op>, i: nat)
    requires Ticking(start, ops) && i < SHARD_COUNT
    ensures Run(c, ops)[i].count == |Run(c, ops)[i].items| + Overwrites(c, ops, i)
  {
    if ops != [] {
      var before, op := ops[..|ops| - 1], ops[|ops| - 1];
      CountDrifts(c, start, before, i);
      if c.ShardOf(op.key) == i {
        AlwaysKeyed(c, start, before, i);
        match op
        case Set(_, _, _, _) => SetDrift(c, Run(c, before)[i], i, Clock(start, before), op);
        case _ => OtherDrift(c, Run(c, before)[i], op);
      }
    }
  }
}
