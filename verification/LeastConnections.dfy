/** The client's least-connections balancer: a greedy choice that is optimal in hindsight. */
module LeastConnections {

  /** The largest int64, where the scan for a minimum starts. */
  const MAX_INT64 := 0x7FFF_FFFF_FFFF_FFFF

  type Counts = map<string, int>

  // ---- Greedy runs over counts -------------------------------------------------------

  /** `a` may be picked: no address has fewer connections. Ties are broken arbitrarily. */
  ghost predicate Least(c: Counts, a: string) {
    a in c && forall b | b in c :: c[a] <= c[b]
  }

  function Counted(c: Counts, a: string): (c': Counts)
    ensures a in c ==> c'.Keys == c.Keys
  {
    c[a := (if a in c then c[a] else 0) + 1]
  }

  /** The counts after a sequence of picks. */
  function After(c: Counts, picks: seq<string>): Counts {
    if picks == [] then c
    else Counted(After(c, picks[..|picks| - 1]), picks[|picks| - 1])
  }

  /** Every pick takes some least-loaded address of its moment; ties may be broken in any way. */
  ghost predicate Greedy(c: Counts, picks: seq<string>) {
    picks == [] ||
    var before, last := picks[..|picks| - 1], picks[|picks| - 1];
    Greedy(c, before) && Least(After(c, before), last)
  }

  ghost function Sum(c: Counts, keys: set<string>): int
    requires keys <= c.Keys
    decreases |keys|
  {
    if keys == {} then 0
    else
      var k :| k in keys;
      c[k] + Sum(c, keys - {k})
  }

  ghost function Total(c: Counts): int {
    Sum(c, c.Keys)
  }

  lemma {:induction false} SumWithout(c: Counts, keys: set<string>, k: string)
    requires keys <= c.Keys && k in keys
    ensures Sum(c, keys) == c[k] + Sum(c, keys - {k})
    decreases |keys|
  {
    var first :| first in keys && Sum(c, keys) == c[first] + Sum(c, keys - {first});
    if first != k {
      SumWithout(c, keys - {first}, k);
      SumWithout(c, keys - {k}, first);
      assert keys - {first} - {k} == keys - {k} - {first};
    }
  }

  /** Pointwise order is order of sums, strictly so if it is strict somewhere. */
  lemma {:induction false} SumMonotone(c: Counts, d: Counts, keys: set<string>)
    requires keys <= c.Keys && keys <= d.Keys && forall k | k in keys :: c[k] <= d[k]
    ensures Sum(c, keys) <= Sum(d, keys)
    ensures (exists k | k in keys :: c[k] < d[k]) ==> Sum(c, keys) < Sum(d, keys)
    decreases |keys|
  {
    if keys != {} {
      var k :| k in keys && ((exists j | j in keys :: c[j] < d[j]) ==> c[k] < d[k]);
      SumWithout(c, keys, k);
      SumWithout(d, keys, k);
      SumMonotone(c, d, keys - {k});
    }
  }

  lemma TotalAfterPick(c: Counts, a: string)
    requires a in c
    ensures Total(Counted(c, a)) == Total(c) + 1
  {
    var c' := Counted(c, a);
    SumWithout(c, c.Keys, a);
    SumWithout(c', c'.Keys, a);
    SumMonotone(c, c', c.Keys - {a});
    SumMonotone(c', c, c.Keys - {a});
  }

  /** Counts only grow, and every raised count stands at most one above every other count. */
  ghost predicate Level(c: Counts, c': Counts) {
    && c.Keys == c'.Keys
    && (forall a | a in c :: c[a] <= c'[a])
    && (forall a | a in c' :: c'[a] == c[a] || forall b | b in c' :: c'[a] - 1 <= c'[b])
  }

  lemma LevelAfterPick(c: Counts, mid: Counts, a: string)
    requires Level(c, mid) && Least(mid, a)
    ensures Level(c, Counted(mid, a))
  {
  }

  lemma {:induction false} GreedyInvariant(c: Counts, picks: seq<string>)
    requires Greedy(c, picks)
    ensures Level(c, After(c, picks))
    ensures Total(After(c, picks)) == Total(c) + |picks|
  {
    if picks != [] {
      var before, last := picks[..|picks| - 1], picks[|picks| - 1];
      GreedyInvariant(c, before);
      LevelAfterPick(c, After(c, before), last);
      TotalAfterPick(After(c, before), last);
    }
  }

  /** `d` is some way, any way, of handing out as many increments over c as c' did. */
  ghost predicate Rival(c: Counts, c': Counts, d: Counts) {
    && d.Keys == c.Keys
    && (forall a | a in c :: c[a] <= d[a])
    && Total(d) == Total(c')
  }

  /**
   Optimality: whatever the tie-breaking, after k greedy picks no other way of handing out k
   increments has a smaller largest count.
   */
  lemma LargestIsLeast(c: Counts, picks: seq<string>, d: Counts, a: string)
    requires Greedy(c, picks) && Rival(c, After(c, picks), d) && a in c
    ensures a in After(c, picks) && exists b | b in d :: d[b] >= After(c, picks)[a]
  {
    var c' := After(c, picks);
    GreedyInvariant(c, picks);
    if forall b | b in d :: d[b] < c'[a] {
      assert d[a] < c'[a];
      SumMonotone(d, c', d.Keys);
      assert false;
    }
  }

  /** And none has a larger smallest count. */
  lemma SmallestIsGreatest(c: Counts, picks: seq<string>, d: Counts, a: string)
    requires Greedy(c, picks) && Rival(c, After(c, picks), d) && a in c
    ensures a in After(c, picks) && exists b | b in d :: d[b] <= After(c, picks)[a]
  {
    var c' := After(c, picks);
    GreedyInvariant(c, picks);
    if forall b | b in d :: d[b] > c'[a] {
      forall b | b in d ensures c'[b] <= d[b] {
        if c'[b] > c[b] {
          assert c'[b] - 1 <= c'[a];
        }
      }
      assert c'[a] < d[a];
      SumMonotone(c', d, d.Keys);
      assert false;
    }
  }

  /** The spread never exceeds the larger of 1 and the spread before the run. */
  lemma {:induction false} SpreadBounded(c: Counts, picks: seq<string>, spread: int)
    requires Greedy(c, picks) && spread >= 1
    requires forall a, b | a in c && b in c :: c[a] - c[b] <= spread
    ensures var c' := After(c, picks);
            c'.Keys == c.Keys && forall a, b | a in c' && b in c' :: c'[a] - c'[b] <= spread
  {
    if picks != [] {
      SpreadBounded(c, picks[..|picks| - 1], spread);
    }
  }

  // ---- The balancer ------------------------------------------------------------------

  class ConnectionStats {
    const address: string
    var connections: int
    var lastUsed: int

    constructor (address: string, now: int)
      ensures this.address == address && connections == 0 && lastUsed == now
    {
      this.address := address;
      connections := 0;
      lastUsed := now;
    }
  }

  class LoadBalancer {
    var addresses: map<string, ConnectionStats>

    ghost predicate Valid()
      reads this, addresses.Values
    {
      && (forall a | a in addresses :: addresses[a].connections <= MAX_INT64 && addresses[a].address == a)
      && (forall a, b | a in addresses && b in addresses && a != b :: addresses[a] != addresses[b])
    }

    ghost function Connections(): Counts
      reads this, addresses.Values
    {
      map a | a in addresses :: addresses[a].connections
    }

    constructor ()
      ensures Valid() && Connections() == map[]
    {
      addresses := map[];
    }

    /**
     Picks some address with the fewest connections, counts it and stamps it. Nothing is counted
     when there is no address below the int64 limit, or when the least one is named "".
     */
    method Next(now: int) returns (address: string)
      requires Valid()
      modifies addresses.Values
      ensures Valid()
      ensures address != "" ==>
                && Least(old(Connections()), address)
                && Connections() == Counted(old(Connections()), address)
                && addresses[address].lastUsed == now
      ensures address == "" ==> Connections() == old(Connections())
      ensures forall a | a in addresses && a != address :: addresses[a].lastUsed == old(addresses[a].lastUsed)
      ensures address == "" ==>
                || (forall a | a in addresses :: old(addresses[a].connections) == 0x7FFF_FFFF_FFFF_FFFF)
                || Least(old(Connections()), "")
    {
      if addresses == map[] {
        return "";
      }
      var minConnections := MAX_INT64;
      address := "";
      var todo := addresses.Keys;
      while todo != {}
        invariant todo <= addresses.Keys
        invariant minConnections <= MAX_INT64
        invariant forall a | a in addresses && a !in todo :: minConnections <= addresses[a].connections
        invariant minConnections < MAX_INT64 ==>
                    address in addresses && addresses[address].connections == minConnections
        invariant minConnections == MAX_INT64 ==> address == ""
        decreases todo
      {
        var a :| a in todo;
        todo := todo - {a};
        if addresses[a].connections < minConnections {
          minConnections := addresses[a].connections;
          address := a;
        }
      }
      if address != "" {
        Count(address, now);
      }
    }

    method Count(address: string, now: int)
      requires Valid() && address in addresses && addresses[address].connections < MAX_INT64
      modifies addresses[address]
      ensures Valid()
      ensures Connections() == Counted(old(Connections()), address) && addresses[address].lastUsed == now
    {
      var stats := addresses[address];
      stats.connections := stats.connections + 1;
      stats.lastUsed := now;
      assert forall a | a in addresses && a != address :: addresses[a].connections == old(addresses[a].connections);
    }

    /** Survivors keep their very record, and so their count; newcomers start at zero. */
    method UpdateAddresses(list: seq<string>, now: int)
      requires Valid()
      modifies this
      ensures Valid()
      ensures forall a :: a in addresses <==> a in list
      ensures forall a | a in list && a in old(addresses) :: addresses[a] == old(addresses)[a]
      ensures forall a | a in list && a in old(addresses) :: Connections()[a] == old(Connections())[a]
      ensures forall a | a in list && a !in old(addresses) ::
                fresh(addresses[a]) && Connections()[a] == 0 && addresses[a].lastUsed == now
    {
      var existing := addresses;
      addresses := map[];
      for i := 0 to |list|
        invariant forall a :: a in addresses <==> a in list[..i]
        invariant forall a | a in addresses && a in existing :: addresses[a] == existing[a]
        invariant forall a | a in addresses && a !in existing ::
                    && fresh(addresses[a]) && addresses[a].connections == 0
                    && addresses[a].lastUsed == now && addresses[a].address == a
        invariant forall a, b | a in addresses && b in addresses && a != b :: addresses[a] != addresses[b]
      {
        assert list[..i + 1] == list[..i] + [list[i]];
        var a := list[i];
        if a in existing {
          addresses := addresses[a := existing[a]];
        } else {
          var stats := new ConnectionStats(a, now);
          addresses := addresses[a := stats];
        }
      }
      assert list[..|list|] == list;
    }
  }
}
