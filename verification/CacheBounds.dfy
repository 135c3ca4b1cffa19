/** How big the cache gets: exactly, over every run, the empty key included. */
module CacheBounds {
  import opened Arithmetic
  import opened CacheRefinement
  import opened ShardedCache
  import opened Wrappers

  // ---- One Set -----------------------------------------------------------------------

  /**
   When a Set leaves its shard within its room, from any state: if and only if the shard was
   not over with the new item in, or was over by one and the empty key is not the least
   recently touched. The source reads "" as "nothing found" and then evicts nothing; and one
   Set evicts at most one item, so a shard already over by more stays over.
   */
  lemma EmptyKeyJams(c: Config, s: Shard, i: nat, clock: int, key: string, value: Value, now: int, later: int)
    requires Keyed(c, s.items, i, clock) && clock < now < later && c.ShardOf(key) == i
    ensures var full := Inserted(c, s, key, value, now).items;
            |SetStep(c, s, key, value, now, later).items| <= c.Room()
            <==> |full| <= c.Room() || (|full| == c.Room() + 1 && !EmptyIsOldest(full))
  {
    ScanOfSet(c, s, i, clock, key, value, now, later);
    var full, scanned := Inserted(c, s, key, value, now).items, Scanned(c, s, key, value, now, later);
    if scanned.Some? {
      Removing(full, scanned.value);
    }
  }

  /** A sixteenth of the size, and nothing below 16. */
  function Sixteenth(maxSize: int): nat {
    if maxSize >= 16 then maxSize / 16 else 0
  }

  /** The empty key is, or becomes, the least recently touched when `key` is set. */
  ghost predicate EmptyComesFirst(items: map<string, Item>, key: string) {
    if key == "" then items.Keys <= {""}
    else "" in items && forall k | k in items && k != key :: items[""].accessTime <= items[k].accessTime
  }

  lemma RoomIsSixteenth(c: Config)
    ensures c.Room() == Sixteenth(c.maxSize)
  {
  }

  /** A Set evicts when it must, one item, and not otherwise: the size it leaves, exactly. */
  lemma SizeAfterSet(c: Config, s: Shard, i: nat, clock: int, key: string, value: Value, now: int, later: int)
    requires Keyed(c, s.items, i, clock) && clock < now < later && c.ShardOf(key) == i
    requires |s.items| <= Sixteenth(c.maxSize)
    ensures var n := |s.items.Keys + {key}|;
            |SetStep(c, s, key, value, now, later).items|
            == if n <= Sixteenth(c.maxSize) || EmptyComesFirst(s.items, key) then n else Sixteenth(c.maxSize)
  {
    var full := Inserted(c, s, key, value, now).items;
    assert full.Keys == s.items.Keys + {key};
    RoomIsSixteenth(c);
    ScanOfSet(c, s, i, clock, key, value, now, later);
    Inserting(s.items, key, full[key]);
    EmptyComesFirstMeans(c, s, i, clock, key, value, now);
    var scanned := Scanned(c, s, key, value, now, later);
    if scanned.Some? {
      Removing(full, scanned.value);
    }
  }

  lemma EmptyComesFirstMeans(c: Config, s: Shard, i: nat, clock: int, key: string, value: Value, now: int)
    requires Keyed(c, s.items, i, clock) && clock < now
    ensures EmptyComesFirst(s.items, key) <==> EmptyIsOldest(Inserted(c, s, key, value, now).items)
  {
    var full := Inserted(c, s, key, value, now).items;
    if key == "" {
      assert forall k | k in s.items && k != "" :: full[k].accessTime < full[""].accessTime;
    } else if EmptyIsOldest(full) {
      forall k | k in s.items && k != key ensures s.items[""].accessTime <= s.items[k].accessTime {
        assert k in full && full[k] == s.items[k];
      }
    }
  }

  // ---- Whole runs --------------------------------------------------------------------

  /** How far a shard is over its room. */
  function Over(c: Config, s: Shard): nat {
    if |s.items| > c.Room() then |s.items| - c.Room() else 0
  }

  /** A Set that puts a new key into a full shard while the empty key is the oldest: nothing is evicted. */
  ghost predicate Jams(c: Config, s: Shard, op: Op) {
    && op.Set? && op.key !in s.items && |s.items| >= c.Room()
    && EmptyIsOldest(Inserted(c, s, op.key, op.value, op.now).items)
  }

  /** What takes one item out of a shard over its room: a Delete, an expiry, or an overwrite that evicts. */
  ghost predicate Relieves(c: Config, s: Shard, op: Op) {
    && |s.items| > c.Room() && op.key in s.items
    && match op
       case Set(key, value, now, _) => !EmptyIsOldest(Inserted(c, s, key, value, now).items)
       case Get(key, now, _) => now > s.items[key].expireTime
       case Delete(_) => true
  }

  ghost function JamCount(c: Config, ops: seq<Op>, i: nat): nat
    requires i < SHARD_COUNT
  {
    if ops == [] then 0
    else
      var before, op := ops[..|ops| - 1], ops[|ops| - 1];
      JamCount(c, before, i) + if c.ShardOf(op.key) == i && Jams(c, Run(c, before)[i], op) then 1 else 0
  }

  ghost function ReliefCount(c: Config, ops: seq<Op>, i: nat): nat
    requires i < SHARD_COUNT
  {
    if ops == [] then 0
    else
      var before, op := ops[..|ops| - 1], ops[|ops| - 1];
      ReliefCount(c, before, i) + if c.ShardOf(op.key) == i && Relieves(c, Run(c, before)[i], op) then 1 else 0
  }

  lemma SetOver(c: Config, s: Shard, i: nat, clock: int, op: Op)
    requires Keyed(c, s.items, i, clock) && c.ShardOf(op.key) == i && op.Set? && clock < op.now < op.later
    ensures Over(c, ShardStep(c, s, op)) + (if Relieves(c, s, op) then 1 else 0)
         == Over(c, s) + (if Jams(c, s, op) then 1 else 0)
  {
    var item := Item(op.value, op.now + c.ttl, op.now, 1);
    var full := Inserted(c, s, op.key, op.value, op.now).items;
    var scanned := Scanned(c, s, op.key, op.value, op.now, op.later);
    ScanOfSet(c, s, i, clock, op.key, op.value, op.now, op.later);
    Inserting(s.items, op.key, item);
    if scanned.Some? {
      Removing(full, scanned.value);
    }
  }

  lemma OtherOver(c: Config, s: Shard, op: Op)
    requires !op.Set?
    ensures Over(c, ShardStep(c, s, op)) + (if Relieves(c, s, op) then 1 else 0) == Over(c, s)
  {
    Removing(s.items, op.key);
    if op.Get? && op.key in s.items {
      var item := s.items[op.key];
      Inserting(s.items, op.key, item.(accessCount := item.accessCount + 1, accessTime := op.later));
    }
  }

  /**
   The size law. After any run, what a shard is over its room is the number of jams it has seen
   less the number of reliefs since: an exact balance, for all keys.
   */
  lemma {:induction false} OverIsJamsLessReliefs(c: Config, start: int, ops: seq<Op>, i: nat)
    requires Ticking(start, ops) && i < SHARD_COUNT
    ensures Over(c, Run(c, ops)[i]) + ReliefCount(c, ops, i) == JamCount(c, ops, i)
  {
    if ops != [] {
      var before, op := ops[..|ops| - 1], ops[|ops| - 1];
      OverIsJamsLessReliefs(c, start, before, i);
      if c.ShardOf(op.key) == i {
        if op.Set? {
          AlwaysKeyed(c, start, before, i);
          SetOver(c, Run(c, before)[i], i, Clock(start, before), op);
        } else {
          OtherOver(c, Run(c, before)[i], op);
        }
      }
    }
  }

  /** The shard is within its room now and after every earlier operation of the run. */
  ghost predicate NeverOver(c: Config, ops: seq<Op>, i: nat)
    requires i < SHARD_COUNT
  {
    && |Run(c, ops)[i].items| <= c.Room()
    && (ops == [] || NeverOver(c, ops[..|ops| - 1], i))
  }

  /** A shard stays within its room all along a run if and only if nothing jams it. */
  lemma {:induction false} WithinRoomExactly(c: Config, start: int, ops: seq<Op>, i: nat)
    requires Ticking(start, ops) && i < SHARD_COUNT
    ensures NeverOver(c, ops, i) <==> JamCount(c, ops, i) == 0
  {
    OverIsJamsLessReliefs(c, start, ops, i);
    if ops != [] {
      var before := ops[..|ops| - 1];
      WithinRoomExactly(c, start, before, i);
      if JamCount(c, before, i) == 0 {
        OverIsJamsLessReliefs(c, start, before, i);
      }
    }
  }

  /** Where the empty key is never used, nothing jams. */
  lemma {:induction false} NoEmptyKeyNoJam(c: Config, ops: seq<Op>, i: nat)
    requires i < SHARD_COUNT
    requires forall n | 0 <= n < |ops| && c.ShardOf(ops[n].key) == i :: ops[n].key != ""
    ensures JamCount(c, ops, i) == 0 && "" !in Run(c, ops)[i].items
  {
    if ops != [] {
      NoEmptyKeyNoJam(c, ops[..|ops| - 1], i);
    }
  }

  /** So a shard whose operations never use the empty key holds at most maxSize / 16 items. */
  lemma ShardWithinRoom(c: Config, start: int, ops: seq<Op>, i: nat)
    requires Ticking(start, ops) && i < SHARD_COUNT
    requires forall n | 0 <= n < |ops| && c.ShardOf(ops[n].key) == i :: ops[n].key != ""
    ensures |Run(c, ops)[i].items| <= Sixteenth(c.maxSize)
  {
    RoomIsSixteenth(c);
    NoEmptyKeyNoJam(c, ops, i);
    OverIsJamsLessReliefs(c, start, ops, i);
  }

  function TotalItems(s: Shards): nat {
    if s == [] then 0 else TotalItems(s[..|s| - 1]) + |s[|s| - 1].items|
  }

  ghost function TotalJams(c: Config, ops: seq<Op>, n: nat): nat
    requires n <= SHARD_COUNT
  {
    if n == 0 then 0 else TotalJams(c, ops, n - 1) + JamCount(c, ops, n - 1)
  }

  lemma {:induction false} TotalBounded(c: Config, ops: seq<Op>, s: Shards, n: nat, room: nat)
    requires n <= |s| == SHARD_COUNT
    requires forall i | 0 <= i < n :: |s[i].items| <= room + JamCount(c, ops, i)
    ensures TotalItems(s[..n]) <= Lots(n, room) + TotalJams(c, ops, n)
  {
    if n > 0 {
      TotalBounded(c, ops, s, n - 1, room);
      assert s[..n][..n - 1] == s[..n - 1];
    }
  }

  lemma {:induction false} NoJams(c: Config, ops: seq<Op>, n: nat)
    requires n <= SHARD_COUNT && forall i | 0 <= i < |ops| :: ops[i].key != ""
    ensures TotalJams(c, ops, n) == 0
  {
    if n > 0 {
      NoJams(c, ops, n - 1);
      NoEmptyKeyNoJam(c, ops, n - 1);
    }
  }

  /** The whole cache holds at most maxSize items and one for each jam; maxSize if no key is empty. */
  lemma CacheWithinMaxSize(c: Config, start: int, ops: seq<Op>)
    requires Ticking(start, ops) && c.maxSize >= 0
    ensures TotalItems(Run(c, ops)) <= c.maxSize + TotalJams(c, ops, SHARD_COUNT)
    ensures (forall i | 0 <= i < |ops| :: ops[i].key != "") ==> TotalItems(Run(c, ops)) <= c.maxSize
  {
    var s := Run(c, ops);
    forall i | 0 <= i < SHARD_COUNT ensures |s[i].items| <= c.Room() + JamCount(c, ops, i) {
      OverIsJamsLessReliefs(c, start, ops, i);
    }
    TotalBounded(c, ops, s, SHARD_COUNT, c.Room());
    LotsIsProduct(SHARD_COUNT, c.Room());
    assert s[..SHARD_COUNT] == s;
    if forall i | 0 <= i < |ops| :: ops[i].key != "" {
      NoJams(c, ops, SHARD_COUNT);
    }
  }

  // ---- Nothing is evicted needlessly -------------------------------------------------

  /** The keys set so far whose hash leaves the remainder `r`. */
  function KeysSet(c: Config, ops: seq<Op>, r: nat): set<string> {
    if ops == [] then {}
    else
      var op := ops[|ops| - 1];
      KeysSet(c, ops[..|ops| - 1], r) + if op.Set? && c.hash(op.key) % 16 == r then {op.key} else {}
  }

  lemma {:induction false} ItemsWereSet(c: Config, ops: seq<Op>, i: nat)
    requires i < SHARD_COUNT
    ensures Run(c, ops)[i].items.Keys <= KeysSet(c, ops, i)
  {
    if ops != [] {
      ItemsWereSet(c, ops[..|ops| - 1], i);
    }
  }

  lemma Subset(a: set<string>, b: set<string>)
    requires a <= b
    ensures |a| <= |b|
  {
    assert b == a + (b - a);
  }

  /** An operation evicts no key of a group that has room for all its keys. */
  lemma NoEvictionWithin(c: Config, start: int, ops: seq<Op>, key: string)
    requires ops != [] && Ticking(start, ops) && c.maxSize >= 16
    requires |KeysSet(c, ops, c.hash(key) % 16)| <= c.maxSize / 16
    ensures Evicted(c, ops) != Some(key)
  {
    var before, op := ops[..|ops| - 1], ops[|ops| - 1];
    if op.Set? {
      var i := c.ShardOf(op.key);
      var full := Inserted(c, Run(c, before)[i], op.key, op.value, op.now).items;
      ScanInRun(c, start, ops);
      ItemsWereSet(c, before, i);
      if i == c.hash(key) % 16 {
        Subset(full.Keys, KeysSet(c, ops, i));
      }
    }
  }

  lemma {:induction false} NeverEvictedWithin(c: Config, start: int, ops: seq<Op>, key: string)
    requires Ticking(start, ops) && c.maxSize >= 16
    requires |KeysSet(c, ops, c.hash(key) % 16)| <= c.maxSize / 16
    ensures !EvictedSinceWrite(c, ops, key)
  {
    if ops != [] {
      var before := ops[..|ops| - 1];
      NoEvictionWithin(c, start, ops, key);
      Subset(KeysSet(c, before, c.hash(key) % 16), KeysSet(c, ops, c.hash(key) % 16));
      NeverEvictedWithin(c, start, before, key);
    }
  }

  /**
   While at most maxSize / 16 of the keys set so far share the remainder of `key`'s hash by 16,
   the cache forgets nothing of them: a Get answers the last Set with no later Delete until it expires.
   */
  lemma KeepsWhatFits(c: Config, start: int, ops: seq<Op>, key: string, now: int)
    requires Ticking(start, ops) && now > Clock(start, ops) && c.maxSize >= 16
    requires |KeysSet(c, ops, c.hash(key) % 16)| <= c.maxSize / 16
    ensures Answer(Run(c, ops)[c.ShardOf(key)], key, now)
            == match LastWrite(ops, key)
               case Some(write) => if now <= write.at + c.ttl then Some(write.value) else None
               case None => None
  {
    AnswersLikeFlatMap(c, start, ops, key, now);
    NeverEvictedWithin(c, start, ops, key);
  }

  // ---- Instances ---------------------------------------------------------------------

  lemma LoneSetStays(c: Config, key: string, value: Value, now: int, later: int)
    requires c.Room() == 1 && now < later
    ensures SetStep(c, Shard(map[], 0), key, value, now, later)
         == Shard(map[key := Item(value, now + c.ttl, now, 1)], 1)
  {
    ScanOfSet(c, Shard(map[], 0), c.ShardOf(key), now - 1, key, value, now, later);
  }

  /** One empty key, set first, is enough: a cache of one item a shard then holds two. */
  lemma EmptyKeyOverflows(c: Config, key: string)
    requires c.Room() == 1 && c.ShardOf(key) == c.ShardOf("") && key != ""
    ensures |Run(c, [Set("", 0, 1, 2), Set(key, 0, 3, 4)])[c.ShardOf(key)].items| == 2
  {
    var ops, i := [Set("", 0, 1, 2), Set(key, 0, 3, 4)], c.ShardOf(key);
    var first := SetStep(c, Shard(map[], 0), "", 0, 1, 2);
    assert ops[..1][..0] == [] && Run(c, ops[..1]) == Step(c, Empty(), ops[0]);
    LoneSetStays(c, "", 0, 1, 2);
    var full := Inserted(c, first, key, 0, 3).items;
    assert full.Keys == {"", key};
    assert IsOldest(full, "", 4);
    OldestIsUnique(full, 4, "");
  }
}
