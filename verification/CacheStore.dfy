/** The cache as the client runs it; the scan for a victim visits a shard's keys in any order. */
module CacheStore {
  import opened Wrappers
  import opened ShardedCache

  /** What a scan for the oldest item may do to a shard; only ties leave a choice. */
  ghost predicate EvictsTo(s: Shard, later: int, s': Shard) {
    || (exists k :: IsOldest(s.items, k, later) && s' == Without(s, Some(k)))
    || ((forall k | k in s.items :: s.items[k].accessTime >= later) && s' == s)
  }

  /** With distinct access times there is no choice, and the scan is the specified eviction. */
  lemma EvictionIsDetermined(s: Shard, later: int, s': Shard)
    requires EvictsTo(s, later, s') && DistinctTimes(s.items)
    ensures s' == Without(s, Oldest(s.items, later))
  {
    if k :| IsOldest(s.items, k, later) && s' == Without(s, Some(k)) {
      OldestIsUnique(s.items, later, k);
    }
  }

  class Cache {
    const config: Config
    var shards: Shards

    ghost predicate Valid()
      reads this
    {
      |shards| == SHARD_COUNT
    }

    constructor (ttl: int, maxSize: int, hash: string -> nat)
      ensures Valid() && config == Config(ttl, maxSize, hash) && shards == Empty()
    {
      config := Config(ttl, maxSize, hash);
      shards := Empty();
    }

    method Set(key: string, value: Value, now: int, later: int)
      requires Valid()
      modifies this
      ensures Valid()
      ensures var i := config.ShardOf(key);
              var full := Inserted(config, old(shards)[i], key, value, now);
              && (forall j | 0 <= j < SHARD_COUNT && j != i :: shards[j] == old(shards)[j])
              && (|full.items| <= config.ShardLimit() ==> shards[i] == full)
              && (|full.items| > config.ShardLimit() ==> EvictsTo(full, later, shards[i]))
              && (DistinctTimes(full.items) ==> shards == Step(config, old(shards), Op.Set(key, value, now, later)))
    {
      var i := config.ShardOf(key);
      var shard := shards[i];
      shard := shard.(items := shard.items[key := Item(value, now + config.ttl, now, 1)], count := shard.count + 1);
      ghost var full := shard;
      if |shard.items| > config.ShardLimit() {
        shard := EvictOldest(shard, later);
        if DistinctTimes(full.items) {
          EvictionIsDetermined(full, later, shard);
        }
      }
      shards := shards[i := shard];
    }

    static method EvictOldest(s: Shard, later: int) returns (s': Shard)
      ensures EvictsTo(s, later, s')
    {
      if s.items == map[] {
        return s;
      }
      var oldestKey, oldestTime := "", later;
      var todo := s.items.Keys;
      while todo != {}
        invariant todo <= s.items.Keys
        invariant oldestTime <= later
        invariant forall k | k in s.items && k !in todo :: oldestTime <= s.items[k].accessTime
        invariant oldestTime < later ==> oldestKey in s.items && s.items[oldestKey].accessTime == oldestTime
        invariant oldestTime == later ==> oldestKey == ""
        decreases todo
      {
        var k :| k in todo;
        todo := todo - {k};
        if s.items[k].accessTime < oldestTime {
          oldestTime, oldestKey := s.items[k].accessTime, k;
        }
      }
      assert oldestTime < later ==> IsOldest(s.items, oldestKey, later);
      if oldestKey != "" {
        return Shard(s.items - {oldestKey}, s.count - 1);
      }
      return s;
    }

    method Get(key: string, now: int, later: int) returns (answer: Option<Value>)
      requires Valid()
      modifies this
      ensures Valid()
      ensures answer == Answer(old(shards)[config.ShardOf(key)], key, now)
      ensures shards == Step(config, old(shards), Op.Get(key, now, later))
    {
      var i := config.ShardOf(key);
      var shard := shards[i];
      if key !in shard.items {
        return None;
      }
      var item := shard.items[key];
      if now > item.expireTime {
        shards := shards[i := Shard(shard.items - {key}, shard.count - 1)];
        return None;
      }
      item := item.(accessCount := item.accessCount + 1, accessTime := later);
      shards := shards[i := shard.(items := shard.items[key := item])];
      return Some(item.value);
    }

    method Delete(key: string)
      requires Valid()
      modifies this
      ensures Valid()
      ensures shards == Step(config, old(shards), Op.Delete(key))
    {
      var i := config.ShardOf(key);
      var shard := shards[i];
      if key in shard.items {
        shards := shards[i := Shard(shard.items - {key}, shard.count - 1)];
      }
    }
  }
}
