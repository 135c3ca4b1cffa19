/** The client's health-aware round-robin balancer. */
module RoundRobin {
  import opened Counting
  import opened CyclicScan

  /** Position i qualifies when its address is marked healthy; its label is i. */
  function HealthyRing(addresses: seq<string>, health: map<string, bool>): (ring: seq<int>)
    ensures |ring| == |addresses|
  {
    seq(|addresses|, i requires 0 <= i < |addresses| =>
      if addresses[i] in health && health[addresses[i]] then i else SKIP)
  }

  predicate IsHealthy(addresses: seq<string>, health: map<string, bool>, i: int) {
    0 <= i < |addresses| && addresses[i] in health && health[addresses[i]]
  }

  /**
   Fairness: while the list and the health marks stand still, any window of calls, from any
   cursor, picks two healthy positions numbers of times that differ by at most one.
   */
  lemma Fair(addresses: seq<string>, health: map<string, bool>, cursor: nat, calls: nat, i: nat, j: nat)
    requires cursor < |addresses| && IsHealthy(addresses, health, i) && IsHealthy(addresses, health, j)
    ensures Live(HealthyRing(addresses, health))
    ensures var ring := HealthyRing(addresses, health);
            Times(ring, cursor, calls, i) <= Times(ring, cursor, calls, j) + 1
  {
    var ring := HealthyRing(addresses, health);
    assert ring[i] == i;
    OneSlotEach(ring, i);
    OneSlotEach(ring, j);
    Balanced(ring, cursor, calls, i, j);
  }

  /** Unhealthy positions are never picked, and one turn serves each healthy one in cyclic order. */
  lemma OneTurn(addresses: seq<string>, health: map<string, bool>, cursor: nat)
    requires cursor < |addresses| && Live(HealthyRing(addresses, health))
    ensures var ring := HealthyRing(addresses, health);
            var turn := Picks(ring, cursor, |Hits(ring)|);
            && turn == Hits(ring[cursor..]) + Hits(ring[..cursor])
            && forall i: nat :: i in turn <==> IsHealthy(addresses, health, i)
  {
    var ring := HealthyRing(addresses, health);
    FullTurn(ring, cursor);
    forall i: nat
      ensures i in Picks(ring, cursor, |Hits(ring)|) <==> IsHealthy(addresses, health, i)
    {
      PickedInTurn(ring, cursor, |Hits(ring)|, i);
    }
  }

  lemma PickedInTurn(ring: seq<int>, cursor: nat, turn: nat, i: nat)
    requires cursor < |ring| && Live(ring) && turn == |Hits(ring)|
    requires forall p | 0 <= p < |ring| :: ring[p] == p || ring[p] == SKIP
    ensures i in Picks(ring, cursor, turn) <==> i < |ring| && ring[i] == i
  {
    TimesTurn(ring, cursor, i);
    OneSlotEach(ring, i);
    CountMember(Picks(ring, cursor, turn), i);
  }

  class LoadBalancer {
    var addresses: seq<string>
    var current: nat
    var health: map<string, bool>
    var stats: map<string, int>
    ghost var served: seq<string>  // every successful pick so far

    ghost function Ring(): seq<int>
      reads this
    {
      HealthyRing(addresses, health)
    }

    /** The cursor is in range, and `stats` is exactly the tally of successful picks. */
    ghost predicate Valid()
      reads this
    {
      && (if addresses == [] then current == 0 else current < |addresses|)
      && (forall a :: (if a in stats then stats[a] else 0) == Count(served, a))
    }

    constructor ()
      ensures Valid() && addresses == [] && health == map[] && served == []
    {
      addresses := [];
      current := 0;
      health := map[];
      stats := map[];
      served := [];
    }

    method Next() returns (address: string)
      requires Valid()
      modifies this`current, this`stats, this`served
      ensures Valid()
      ensures Live(Ring()) ==>
                var pick := Seek(Ring(), old(current));
                && address == addresses[pick]
                && current == Succ(|addresses|, pick)
                && served == old(served) + [address]
                && address in health && health[address]
      ensures !Live(Ring()) ==>
                && address == "" && current == old(current) && served == old(served)
                && forall a | a in addresses && a in health :: !health[a]
    {
      if addresses == [] {
        return "";
      }
      var start, n := current, |addresses|;
      ghost var ring := Ring();
      for i := 0 to n
        invariant current == start && served == old(served) && stats == old(stats)
        invariant Passed(ring, start, i)
        invariant forall p | 0 <= p < n && Probed(n, start, p, i) ::
                    addresses[p] in health ==> !health[addresses[p]]
      {
        Wraps(start + i, n);
        var idx := (start + i) % n;
        var candidate := addresses[idx];
        if candidate in health && health[candidate] {
          assert ring[idx] == idx;
          Serve(idx);
          return candidate;
        }
        PassOne(ring, start, i);
      }
      return "";
    }

    /** Books a pick: the cursor moves past it and its tally grows. */
    method Serve(idx: nat)
      requires Valid() && idx < |addresses|
      modifies this`current, this`stats, this`served
      ensures Valid()
      ensures current == Succ(|addresses|, idx)
      ensures served == old(served) + [addresses[idx]]
    {
      Wraps(idx + 1, |addresses|);
      current := (idx + 1) % |addresses|;
      var address := addresses[idx];
      stats := stats[address := (if address in stats then stats[address] else 0) + 1];
      served := served + [address];
    }

    /** Slot reached from `start` after i < n probes. */
    static function Wrap(n: nat, start: nat, i: nat): (p: nat)
      requires start < n && i <= n
      ensures i < n ==> p < n
    {
      if start + i < n then start + i else start + i - n
    }

    static predicate Probed(n: nat, start: nat, p: nat, i: nat)
      requires start < n && p < n
    {
      if p >= start then p - start < i else p + n - start < i
    }

    /** The first `i` probes from `start` found nothing. */
    static ghost predicate Passed(ring: seq<int>, start: nat, i: nat)
      requires start < |ring| && i <= |ring|
    {
      && (forall p | 0 <= p < |ring| && Probed(|ring|, start, p, i) :: ring[p] == SKIP)
      && (Live(ring) && i < |ring| ==> Seek(ring, start) == Seek(ring, Wrap(|ring|, start, i)))
    }

    static lemma PassOne(ring: seq<int>, start: nat, i: nat)
      requires start < |ring| && i < |ring| && Passed(ring, start, i)
      requires ring[Wrap(|ring|, start, i)] == SKIP
      ensures Passed(ring, start, i + 1)
      ensures i + 1 == |ring| ==> !Live(ring)
    {
      assert Succ(|ring|, Wrap(|ring|, start, i)) == if i + 1 < |ring| then Wrap(|ring|, start, i + 1) else start;
    }

    method UpdateAddresses(addresses: seq<string>)
      requires Valid()
      modifies this`addresses, this`health, this`current
      ensures Valid() && this.addresses == addresses
      ensures current == if old(current) >= |addresses| then 0 else old(current)
      ensures forall i | 0 <= i < |addresses| :: IsHealthy(addresses, health, i)
      ensures forall a | a !in addresses :: a in health <==> a in old(health)
      ensures forall a | a !in addresses && a in health :: health[a] == old(health)[a]
    {
      this.addresses := addresses;
      for i := 0 to |addresses|
        invariant this.addresses == addresses && current == old(current)
        invariant forall a | a in addresses[..i] :: a in health && health[a]
        invariant forall a | a !in addresses :: a in health <==> a in old(health)
        invariant forall a | a !in addresses && a in health :: health[a] == old(health)[a]
      {
        assert addresses[..i + 1] == addresses[..i] + [addresses[i]];
        health := health[addresses[i] := true];
      }
      if current >= |this.addresses| {
        current := 0;
      }
    }

    method GetHealthyAddresses() returns (healthy: seq<string>)
      ensures healthy == Labelled(addresses, Hits(Ring()))
      ensures forall a :: a in healthy <==> a in addresses && a in health && health[a]
    {
      healthy := [];
      for i := 0 to |addresses|
        invariant healthy == Labelled(addresses, Hits(Ring()[..i]))
        invariant forall a :: a in healthy <==> a in addresses[..i] && a in health && health[a]
      {
        assert addresses[..i + 1] == addresses[..i] + [addresses[i]];
        HitsAppend(Ring()[..i], [Ring()[i]]);
        assert Ring()[..i + 1] == Ring()[..i] + [Ring()[i]];
        if addresses[i] in health && health[addresses[i]] {
          healthy := healthy + [addresses[i]];
        }
      }
      assert Ring()[..|addresses|] == Ring();
    }

    static ghost function Labelled(addresses: seq<string>, labels: seq<int>): seq<string> {
      seq(|labels|, k requires 0 <= k < |labels| => if 0 <= labels[k] < |addresses| then addresses[labels[k]] else "")
    }
  }
}
