/** The client's weighted round-robin balancer, as one ring of (level, position) slots. */
module WeightedRoundRobin {
  import opened Counting
  import opened CyclicScan

  datatype WeightedAddress = WeightedAddress(address: string, weight: int)

  function Weights(addresses: seq<WeightedAddress>): (ws: seq<int>)
    ensures |ws| == |addresses|
  {
    seq(|addresses|, i requires 0 <= i < |addresses| => addresses[i].weight)
  }

  function MaxWeight(ws: seq<int>): (m: nat)
    ensures forall i | 0 <= i < |ws| :: ws[i] <= m
    ensures m > 0 ==> exists i :: 0 <= i < |ws| && ws[i] == m
  {
    if ws == [] then 0
    else
      var before, last := ws[..|ws| - 1], ws[|ws| - 1];
      var m := MaxWeight(before);
      assert forall i | 0 <= i < |before| :: ws[i] == before[i];
      if last > m then last else m
  }

  // ---- The ring ----------------------------------------------------------------------

  /** One pass over the list at one level picks the addresses at least that heavy. */
  function Row(ws: seq<int>, level: int): (row: seq<int>)
    ensures |row| == |ws|
  {
    seq(|ws|, i requires 0 <= i < |ws| => if ws[i] >= level then i else SKIP)
  }

  /** The levels from `top` down to 1, one pass each. */
  function Levels(ws: seq<int>, top: nat): (ring: seq<int>)
    ensures forall p | 0 <= p < |ring| :: SKIP <= ring[p] < |ws|
  {
    if top == 0 then [] else Row(ws, top) + Levels(ws, top - 1)
  }

  /** Where position `current` of pass `level` sits in the ring. */
  function Slot(n: nat, top: nat, level: nat, current: nat): nat
    requires 1 <= level <= top
  {
    if level == top then current else n + Slot(n, top - 1, level, current)
  }

  lemma {:induction false} SlotHolds(ws: seq<int>, top: nat, level: nat, current: nat)
    requires 1 <= level <= top && current < |ws|
    ensures Slot(|ws|, top, level, current) < |Levels(ws, top)|
    ensures Levels(ws, top)[Slot(|ws|, top, level, current)] == if ws[current] >= level then current else SKIP
    decreases top
  {
    if level < top {
      SlotHolds(ws, top - 1, level, current);
    }
  }

  /** The loop's cursor: the position last looked at and the level. */
  datatype Probe = Probe(current: nat, level: int)

  /** One turn of the loop: the next position, and when it starts over the level below, or the top again. */
  function Turn(ws: seq<int>, p: Probe): (p': Probe)
    requires p.current < |ws|
    ensures p'.current < |ws|
  {
    var current := Succ(|ws|, p.current);
    Probe(current, if current != 0 then p.level else if p.level <= 1 then MaxWeight(ws) else p.level - 1)
  }

  function Turns(ws: seq<int>, p: Probe, k: nat): (p': Probe)
    requires p.current < |ws|
    ensures p'.current < |ws|
    decreases k
  {
    if k == 0 then p else Turns(ws, Turn(ws, p), k - 1)
  }

  predicate Accepted(ws: seq<int>, p: Probe)
    requires p.current < |ws|
  {
    ws[p.current] >= p.level
  }

  /** The loop ends after exactly `k` turns. */
  ghost predicate EndsAfter(ws: seq<int>, p: Probe, k: nat)
    requires p.current < |ws|
  {
    && k >= 1 && Accepted(ws, Turns(ws, p, k))
    && forall j | 1 <= j < k :: !Accepted(ws, Turns(ws, p, j))
  }

  lemma {:induction false} SlotAdvances(ws: seq<int>, top: nat, level: nat, current: nat)
    requires 1 <= level <= top && current < |ws|
    ensures var n, slot := |ws|, Slot(|ws|, top, level, current);
            slot + 1 == if current + 1 < n then Slot(n, top, level, current + 1)
                        else if level > 1 then Slot(n, top, level - 1, 0)
                        else |Levels(ws, top)|
    decreases top
  {
    if level < top {
      SlotAdvances(ws, top - 1, level, current);
    }
  }

  /** One turn moves one slot along the ring. */
  lemma ProbeIsSucc(ws: seq<int>, p: Probe)
    requires 1 <= p.level <= MaxWeight(ws) && p.current < |ws|
    ensures var n, top, ring := |ws|, MaxWeight(ws), Levels(ws, MaxWeight(ws));
            && Slot(n, top, p.level, p.current) < |ring|
            && 1 <= Turn(ws, p).level <= top
            && Succ(|ring|, Slot(n, top, p.level, p.current)) == Slot(n, top, Turn(ws, p).level, Turn(ws, p).current)
  {
    var top := MaxWeight(ws);
    SlotHolds(ws, top, p.level, p.current);
    SlotAdvances(ws, top, p.level, p.current);
    if p.current + 1 == |ws| && p.level > 1 {
      SlotHolds(ws, top, p.level - 1, 0);
    } else if p.current + 1 < |ws| {
      SlotHolds(ws, top, p.level, p.current + 1);
    }
  }

  lemma HeavyIsLive(ws: seq<int>)
    requires MaxWeight(ws) >= 1
    ensures Live(Levels(ws, MaxWeight(ws)))
  {
    var m := Heaviest(ws);
    var top := MaxWeight(ws);
    SlotHolds(ws, top, top, m);
  }

  ghost function Heaviest(ws: seq<int>): (m: nat)
    requires MaxWeight(ws) >= 1
    ensures m < |ws| && ws[m] == MaxWeight(ws)
  {
    var m :| 0 <= m < |ws| && ws[m] == MaxWeight(ws);
    m
  }

  // ---- When the loop ends ------------------------------------------------------------

  lemma {:induction false} TurnsAppend(ws: seq<int>, p: Probe, k: nat)
    requires p.current < |ws|
    ensures Turns(ws, p, k + 1) == Turn(ws, Turns(ws, p, k))
    decreases k
  {
    if k > 0 {
      TurnsAppend(ws, Turn(ws, p), k - 1);
    }
  }

  /** Turns from `current` to the next visit of `m`. */
  ghost function Gap(n: nat, m: nat, current: nat): (g: nat)
    requires m < n && current < n
    ensures 1 <= g <= n
  {
    if current < m then m - current else m + n - current
  }

  function Excess(ws: seq<int>, level: int): nat {
    if level > MaxWeight(ws) then level - MaxWeight(ws) else 0
  }

  /** An address as heavy as the top is accepted at the latest once the level has come down to it. */
  lemma {:induction false} TopIsReached(ws: seq<int>, p: Probe, m: nat) returns (k: nat)
    requires p.current < |ws| && m < |ws| && ws[m] == MaxWeight(ws)
    ensures k >= 1 && Accepted(ws, Turns(ws, p, k))
    decreases Excess(ws, p.level), if p.level > MaxWeight(ws) then |ws| - p.current else Gap(|ws|, m, p.current)
  {
    var p' := Turn(ws, p);
    if Accepted(ws, p') {
      k := 1;
      assert Turns(ws, p, 1) == Turns(ws, p', 0);
    } else {
      var k' := TopIsReached(ws, p', m);
      k := k' + 1;
    }
  }

  lemma {:induction false} BeforeWrap(ws: seq<int>, p: Probe, k: nat)
    requires p.current + k < |ws|
    ensures Turns(ws, p, k) == Probe(p.current + k, p.level)
    decreases k
  {
    if k > 0 {
      BeforeWrap(ws, Turn(ws, p), k - 1);
    }
  }

  /** With negative weights only, the level that starts each further pass is out of reach. */
  lemma {:induction false} NeverAccepted(ws: seq<int>, p: Probe, k: nat)
    requires p.current < |ws| && k >= 1 && forall i | 0 <= i < |ws| :: ws[i] < 0
    requires p.level >= 0 || forall i | p.current < i < |ws| :: ws[i] < p.level
    ensures !Accepted(ws, Turns(ws, p, k))
    decreases k
  {
    if k == 1 {
      assert Turns(ws, p, 1) == Turns(ws, Turn(ws, p), 0);
    } else {
      NeverAccepted(ws, Turn(ws, p), k - 1);
    }
  }

  /** Some weight is not negative, or some address yet to come in this pass reaches the level. */
  predicate Ends(ws: seq<int>, p: Probe) {
    || (exists i | 0 <= i < |ws| :: ws[i] >= 0)
    || (exists i | p.current < i < |ws| :: ws[i] >= p.level)
  }

  lemma TopIsTaken(ws: seq<int>, i: nat) returns (m: nat)
    requires i < |ws| && ws[i] >= 0
    ensures m < |ws| && ws[m] == MaxWeight(ws)
  {
    if MaxWeight(ws) > 0 {
      m :| 0 <= m < |ws| && ws[m] == MaxWeight(ws);
    } else {
      m := i;
    }
  }

  lemma {:induction false} Earliest(ws: seq<int>, p: Probe, k: nat) returns (first: nat)
    requires p.current < |ws| && k >= 1 && Accepted(ws, Turns(ws, p, k))
    ensures EndsAfter(ws, p, first)
  {
    if j: nat :| 1 <= j < k && Accepted(ws, Turns(ws, p, j)) {
      first := Earliest(ws, p, j);
    } else {
      first := k;
    }
  }

  /**
   For any weights, any cursor and any level, the unbounded loop of Next ends if and only if
   some weight is not negative or some address yet to come in this pass reaches the level.
   */
  lemma EndsExactly(ws: seq<int>, p: Probe)
    requires p.current < |ws|
    ensures (exists k: nat :: EndsAfter(ws, p, k)) <==> Ends(ws, p)
  {
    if Ends(ws, p) {
      var k: nat;
      if i :| 0 <= i < |ws| && ws[i] >= 0 {
        var m := TopIsTaken(ws, i);
        k := TopIsReached(ws, p, m);
      } else {
        var i :| p.current < i < |ws| && ws[i] >= p.level;
        k := i - p.current;
        BeforeWrap(ws, p, k);
      }
      var first := Earliest(ws, p, k);
    } else if k: nat :| EndsAfter(ws, p, k) {
      NeverAccepted(ws, p, k);
    }
  }

  lemma EndsAfterTurn(ws: seq<int>, p: Probe, k: nat)
    requires p.current < |ws| && EndsAfter(ws, p, k)
    ensures k == 1 ==> Accepted(ws, Turn(ws, p)) && Turns(ws, p, k) == Turn(ws, p)
    ensures k > 1 ==> !Accepted(ws, Turn(ws, p)) && EndsAfter(ws, Turn(ws, p), k - 1)
  {
    var p1 := Turn(ws, p);
    assert Turns(ws, p, 1) == Turns(ws, p1, 0) == p1;
    forall j | 1 <= j < k ensures Turns(ws, p1, j) == Turns(ws, p, j + 1) {
    }
    if k > 1 {
      forall j | 1 <= j < k - 1 ensures !Accepted(ws, Turns(ws, p1, j)) {
        assert !Accepted(ws, Turns(ws, p, j + 1));
      }
    }
  }

  /** What the slot after one turn holds. */
  lemma TurnHolds(ws: seq<int>, p: Probe)
    requires 1 <= p.level <= MaxWeight(ws) && p.current < |ws|
    ensures var n, top, ring, p1 := |ws|, MaxWeight(ws), Levels(ws, MaxWeight(ws)), Turn(ws, p);
            && Live(ring) && Slot(n, top, p.level, p.current) < |ring| && 1 <= p1.level <= top
            && Slot(n, top, p1.level, p1.current) == Succ(|ring|, Slot(n, top, p.level, p.current))
            && ring[Slot(n, top, p1.level, p1.current)] == if Accepted(ws, p1) then p1.current else SKIP
  {
    HeavyIsLive(ws);
    ProbeIsSucc(ws, p);
    SlotHolds(ws, MaxWeight(ws), Turn(ws, p).level, Turn(ws, p).current);
  }

  /** From a level in range, the loop ends at the next slot of the ring that picks, within one pass. */
  lemma {:induction false} SeeksRing(ws: seq<int>, p: Probe, k: nat)
    requires 1 <= p.level <= MaxWeight(ws) && p.current < |ws| && EndsAfter(ws, p, k)
    ensures var n, top, ring, p' := |ws|, MaxWeight(ws), Levels(ws, MaxWeight(ws)), Turns(ws, p, k);
            && Live(ring) && Slot(n, top, p.level, p.current) < |ring| && 1 <= p'.level <= top
            && Slot(n, top, p'.level, p'.current)
               == Seek(ring, Succ(|ring|, Slot(n, top, p.level, p.current)))
            && ring[Slot(n, top, p'.level, p'.current)] == p'.current
    ensures k <= Gap(|ws|, Heaviest(ws), p.current)
    decreases k
  {
    TurnHolds(ws, p);
    EndsAfterTurn(ws, p, k);
    if k > 1 {
      assert Turn(ws, p).current != Heaviest(ws);
      SeeksRing(ws, Turn(ws, p), k - 1);
    }
  }

  // ---- Shares ------------------------------------------------------------------------

  function Clamp(w: int, top: nat): nat {
    if w < 0 then 0 else if w > top then top else w
  }

  function SumClamped(ws: seq<int>, top: nat): nat {
    if ws == [] then 0 else SumClamped(ws[..|ws| - 1], top) + Clamp(ws[|ws| - 1], top)
  }

  /** The share of an address: its weight, or nothing when the weight is negative. */
  function Share(w: int): nat {
    if w < 0 then 0 else w
  }

  function TotalShare(ws: seq<int>): nat {
    if ws == [] then 0 else TotalShare(ws[..|ws| - 1]) + Share(ws[|ws| - 1])
  }

  lemma {:induction false} SharesAreClamped(ws: seq<int>, top: nat)
    requires forall i | 0 <= i < |ws| :: ws[i] <= top
    ensures SumClamped(ws, top) == TotalShare(ws)
  {
    if ws != [] {
      SharesAreClamped(ws[..|ws| - 1], top);
    }
  }

  lemma {:induction false} RowHits(ws: seq<int>, top: nat)
    requires top > 0
    ensures SumClamped(ws, top) == SumClamped(ws, top - 1) + |Hits(Row(ws, top))|
  {
    if ws != [] {
      var before := ws[..|ws| - 1];
      RowHits(before, top);
      var last := Row(ws, top)[|ws| - 1];
      assert Row(ws, top) == Row(before, top) + [last];
      HitsAppend(Row(before, top), [last]);
      assert Hits([last]) == if last >= 0 then [last] else [];
    }
  }

  lemma {:induction false} LevelsHits(ws: seq<int>, top: nat)
    ensures |Hits(Levels(ws, top))| == SumClamped(ws, top)
  {
    if top == 0 {
      NothingAtZero(ws);
    } else {
      LevelsHits(ws, top - 1);
      RowHits(ws, top);
      HitsAppend(Row(ws, top), Levels(ws, top - 1));
    }
  }

  lemma {:induction false} NothingAtZero(ws: seq<int>)
    ensures SumClamped(ws, 0) == 0
  {
    if ws != [] {
      NothingAtZero(ws[..|ws| - 1]);
    }
  }

  lemma {:induction false} LevelsCount(ws: seq<int>, top: nat, i: nat)
    requires i < |ws|
    ensures Count(Levels(ws, top), i) == Clamp(ws[i], top)
    decreases top
  {
    if top > 0 {
      LevelsCount(ws, top - 1, i);
      OneSlotEach(Row(ws, top), i);
      CountAppend(Row(ws, top), Levels(ws, top - 1), i);
    }
  }

  /**
   Exact fairness: on an unchanged list whose heaviest address has weight at least 1, any
   sum-of-weights consecutive picks, from any cursor, choose each address exactly as often
   as its weight says.
   */
  lemma ExactlyFair(ws: seq<int>, cursor: nat, i: nat)
    requires MaxWeight(ws) >= 1 && i < |ws|
    requires cursor < |Levels(ws, MaxWeight(ws))|
    ensures Live(Levels(ws, MaxWeight(ws)))
    ensures Times(Levels(ws, MaxWeight(ws)), cursor, TotalShare(ws), i) == Share(ws[i])
  {
    var top := MaxWeight(ws);
    HeavyIsLive(ws);
    LevelsHits(ws, top);
    SharesAreClamped(ws, top);
    LevelsCount(ws, top, i);
    TimesTurn(Levels(ws, top), cursor, i);
  }

  /** Between full turns, addresses of equal weight never drift apart by more than the weight. */
  lemma EqualWeightsTogether(ws: seq<int>, cursor: nat, calls: nat, i: nat, j: nat)
    requires MaxWeight(ws) >= 1 && i < |ws| && j < |ws| && ws[i] == ws[j]
    requires cursor < |Levels(ws, MaxWeight(ws))|
    ensures Live(Levels(ws, MaxWeight(ws)))
    ensures var ring := Levels(ws, MaxWeight(ws));
            Times(ring, cursor, calls, i) <= Times(ring, cursor, calls, j) + Share(ws[i])
  {
    var top := MaxWeight(ws);
    HeavyIsLive(ws);
    LevelsCount(ws, top, i);
    LevelsCount(ws, top, j);
    Balanced(Levels(ws, top), cursor, calls, i, j);
  }

  // ---- The balancer ------------------------------------------------------------------

  class LoadBalancer {
    var addresses: seq<WeightedAddress>
    var current: nat
    var weight: int

    ghost function Top(): nat
      reads this
    {
      MaxWeight(Weights(addresses))
    }

    /** An empty list, or a list with some positive weight and a level within its range. */
    ghost predicate Valid()
      reads this
    {
      addresses != [] ==> 1 <= weight <= Top()
    }

    ghost function Ring(): seq<int>
      reads this
    {
      Levels(Weights(addresses), Top())
    }

    /** The slot of the last probe. */
    ghost function Position(): (p: nat)
      requires Valid() && addresses != []
      reads this
    {
      Slot(|addresses|, Top(), weight, current % |addresses|)
    }

    constructor ()
      ensures Valid() && addresses == []
    {
      addresses := [];
      current := 0;
      weight := 0;
    }

    /** The cursor as the loop finds it: after an update it may lie beyond the new list. */
    ghost function Cursor(): (p: Probe)
      requires addresses != []
      reads this
      ensures p.current < |addresses|
    {
      Probe(current % |addresses|, weight)
    }

    /** `probes` counts the turns of the unbounded loop; it must be one that ends. */
    method Next() returns (address: string, ghost probes: nat)
      requires addresses != [] ==> Ends(Weights(addresses), Cursor())
      modifies this`current, this`weight
      ensures addresses == [] ==> address == "" && current == old(current) && weight == old(weight)
      ensures addresses != [] ==>
                && EndsAfter(Weights(addresses), old(Cursor()), probes)
                && Cursor() == Turns(Weights(addresses), old(Cursor()), probes)
                && current < |addresses| && address == addresses[current].address
      ensures old(Valid()) ==> Valid()
      ensures old(Valid()) && addresses != [] ==>
                && Live(Ring()) && old(Position()) < |Ring()|
                && Position() == Seek(Ring(), Succ(|Ring()|, old(Position())))
                && address == addresses[Ring()[Position()]].address
                && 1 <= probes <= |addresses|
    {
      probes := 0;
      if addresses == [] {
        return "", probes;
      }
      ghost var ws, start := Weights(addresses), Cursor();
      EndsExactly(ws, start);
      ghost var end: nat :| EndsAfter(ws, start, end);
      while true
        invariant probes < end && Cursor() == Turns(ws, start, probes)
        decreases end - probes
      {
        TurnsAppend(ws, start, probes);
        Advance();
        probes := probes + 1;
        if addresses[current].weight >= weight {
          if 1 <= start.level <= MaxWeight(ws) {
            SeeksRing(ws, start, probes);
          }
          return addresses[current].address, probes;
        }
      }
    }

    /** One turn of the loop's cursor. */
    method Advance()
      requires addresses != []
      modifies this`current, this`weight
      ensures current < |addresses| && Cursor() == Turn(Weights(addresses), old(Cursor())) == Probe(current, weight)
    {
      ModStep(current, |addresses|);
      current := (current + 1) % |addresses|;
      ModUnique(current, |addresses|, 0, current);
      if current == 0 {
        weight := weight - 1;
        if weight <= 0 {
          weight := GetMaxWeight();
        }
      }
    }

    method GetMaxWeight() returns (maxWeight: int)
      ensures maxWeight == Top()
    {
      maxWeight := 0;
      ghost var ws := Weights(addresses);
      for i := 0 to |addresses|
        invariant maxWeight == MaxWeight(ws[..i])
      {
        assert ws[..i + 1][..i] == ws[..i];
        if addresses[i].weight > maxWeight {
          maxWeight := addresses[i].weight;
        }
      }
      assert ws[..|ws|] == ws;
    }

    method UpdateAddresses(addresses: seq<string>)
      modifies this`addresses, this`weight
      ensures Valid()
      ensures this.addresses == seq(|addresses|, i requires 0 <= i < |addresses| => WeightedAddress(addresses[i], 1))
      ensures current == old(current)
    {
      this.addresses := seq(|addresses|, i requires 0 <= i < |addresses| => WeightedAddress(addresses[i], 1));
      weight := GetMaxWeight();
      if addresses != [] {
        assert Weights(this.addresses)[0] == 1;
        assert 1 in Weights(this.addresses);
      }
    }
  }
}
