/**
 Picking by cyclic scan: from a cursor, take the first slot that qualifies, then move past
 it. A ring lists the slots; a slot holds a label, or SKIP when it does not qualify. Every
 round-robin balancer here is an instance.
 */
module CyclicScan {
  import opened Counting

  const SKIP := -1

  ghost predicate Live(ring: seq<int>) {
    exists p | 0 <= p < |ring| :: ring[p] >= 0
  }

  function Succ(n: nat, p: nat): (q: nat)
    requires p < n
    ensures q < n
  {
    if p + 1 == n then 0 else p + 1
  }

  // ---- Cursor arithmetic -------------------------------------------------------------

  lemma AtLeastOneLot(lots: int, n: nat)
    requires lots >= 1
    ensures lots * n >= n
  {
    assert (lots - 1) * n >= 0;
  }

  lemma ModUnique(x: nat, n: nat, q: nat, r: nat)
    requires n > 0 && x == q * n + r && r < n
    ensures x % n == r
  {
    var q' := x / n;
    assert x == q' * n + x % n;
    assert (q' - q) * n == r - x % n;
    assert (q - q') * n == x % n - r;
    if q < q' {
      AtLeastOneLot(q' - q, n);
    } else if q' < q {
      AtLeastOneLot(q - q', n);
    }
  }

  /** A cursor left over from a longer list acts like its remainder. */
  lemma ModStep(c: nat, n: nat)
    requires n > 0
    ensures (c + 1) % n == Succ(n, c % n)
  {
    var q, r := c / n, c % n;
    if r + 1 < n {
      ModUnique(c + 1, n, q, r + 1);
    } else {
      assert (q + 1) * n == q * n + n;
      ModUnique(c + 1, n, q + 1, 0);
    }
  }

  /** The remainder of a cursor that has just moved one past a valid position. */
  lemma Wraps(x: nat, n: nat)
    requires 0 < n && x < 2 * n
    ensures x % n == if x < n then x else x - n
  {
    if x < n {
      ModUnique(x, n, 0, x);
    } else {
      ModUnique(x, n, 1, x - n);
    }
  }

  /** The labels of the qualifying slots, in order. */
  function Hits(slots: seq<int>): seq<int> {
    if slots == [] then []
    else (if slots[0] >= 0 then [slots[0]] else []) + Hits(slots[1..])
  }

  /** In a ring whose slot p can only carry the label p, a label occurs at most once. */
  lemma {:induction false} OneSlotEach(ring: seq<int>, i: nat)
    requires forall p | 0 <= p < |ring| :: ring[p] == p || ring[p] == SKIP
    ensures Count(ring, i) == if i < |ring| && ring[i] == i then 1 else 0
  {
    if ring != [] {
      OneSlotEach(ring[..|ring| - 1], i);
    }
  }

  /** Some slot that qualifies: the yardstick for termination. */
  ghost function Target(ring: seq<int>): (t: nat)
    requires Live(ring)
    ensures t < |ring| && ring[t] >= 0
  {
    var t :| 0 <= t < |ring| && ring[t] >= 0;
    t
  }

  ghost function Distance(ring: seq<int>, p: nat): nat
    requires Live(ring) && p < |ring|
  {
    var t := Target(ring);
    if p <= t then t - p else t + |ring| - p
  }

  /** The first qualifying slot at or after `p`, cyclically. */
  ghost function Seek(ring: seq<int>, p: nat): (q: nat)
    requires Live(ring) && p < |ring|
    ensures q < |ring| && ring[q] >= 0
    decreases Distance(ring, p)
  {
    if ring[p] >= 0 then p else Seek(ring, Succ(|ring|, p))
  }

  /** The labels of `k` picks in a row. */
  ghost function Picks(ring: seq<int>, p: nat, k: nat): (picks: seq<int>)
    requires Live(ring) && p < |ring|
    ensures |picks| == k
    decreases k
  {
    if k == 0 then [] else
      var q := Seek(ring, p);
      [ring[q]] + Picks(ring, Succ(|ring|, q), k - 1)
  }

  /** The cursor after `k` picks. */
  ghost function Cursor(ring: seq<int>, p: nat, k: nat): (q: nat)
    requires Live(ring) && p < |ring|
    ensures q < |ring|
    decreases k
  {
    if k == 0 then p else Cursor(ring, Succ(|ring|, Seek(ring, p)), k - 1)
  }

  /** The labels met by probing `steps` slots in a row. */
  ghost function Scan(ring: seq<int>, p: nat, steps: nat): seq<int>
    requires p < |ring|
    decreases steps
  {
    if steps == 0 then []
    else (if ring[p] >= 0 then [ring[p]] else []) + Scan(ring, Succ(|ring|, p), steps - 1)
  }

  lemma {:induction false} PicksAreScan(ring: seq<int>, p: nat, steps: nat)
    requires Live(ring) && p < |ring|
    ensures Picks(ring, p, |Scan(ring, p, steps)|) == Scan(ring, p, steps)
    decreases steps
  {
    if steps > 0 {
      var next, rest := Succ(|ring|, p), Scan(ring, Succ(|ring|, p), steps - 1);
      PicksAreScan(ring, next, steps - 1);
      if ring[p] < 0 {
        assert Scan(ring, p, steps) == rest;
        assert Seek(ring, p) == Seek(ring, next);
      }
    }
  }

  lemma {:induction false} HitsAppend(a: seq<int>, b: seq<int>)
    ensures Hits(a + b) == Hits(a) + Hits(b)
    decreases |a|
  {
    if a == [] {
      assert a + b == b;
    } else {
      var s, head := a + b, if a[0] >= 0 then [a[0]] else [];
      HitsAppend(a[1..], b);
      assert s[1..] == a[1..] + b;
      assert Hits(s) == head + Hits(s[1..]);
      assert Hits(a) == head + Hits(a[1..]);
    }
  }

  lemma {:induction false} HitsCount(a: seq<int>, tag: int)
    requires tag >= 0
    ensures Count(Hits(a), tag) == Count(a, tag)
  {
    if a != [] {
      HitsCount(a[1..], tag);
      assert a == [a[0]] + a[1..];
      CountAppend([a[0]], a[1..], tag);
      CountAppend(if a[0] >= 0 then [a[0]] else [], Hits(a[1..]), tag);
    }
  }

  /** Probing without wrapping reads a slice. */
  lemma {:induction false} ScanSlice(ring: seq<int>, p: nat, slice: seq<int>)
    requires p < |ring| && p + |slice| <= |ring|
    requires forall i | 0 <= i < |slice| :: slice[i] == ring[p + i]
    ensures Scan(ring, p, |slice|) == Hits(slice)
    decreases |slice|
  {
    if |slice| == 1 {
      assert Scan(ring, Succ(|ring|, p), 0) == [] == Hits(slice[1..]);
    } else if |slice| > 1 {
      ScanSlice(ring, p + 1, slice[1..]);
    }
  }

  lemma {:induction false} ScanSplit(ring: seq<int>, p: nat, steps: nat, more: nat)
    requires p < |ring| && p + steps == |ring|
    ensures Scan(ring, p, steps + more) == Scan(ring, p, steps) + Scan(ring, 0, more)
    decreases steps
  {
    if steps > 1 {
      ScanSplit(ring, p + 1, steps - 1, more);
    } else {
      assert Scan(ring, Succ(|ring|, p), 0) == [];
    }
  }

  lemma ScanTail(ring: seq<int>, p: nat, tail: seq<int>)
    requires p < |ring| && tail == ring[p..]
    ensures Scan(ring, p, |ring| - p) == Hits(tail)
  {
    ScanSlice(ring, p, tail);
  }

  lemma ScanHead(ring: seq<int>, p: nat, head: seq<int>)
    requires p < |ring| && head == ring[..p]
    ensures Scan(ring, 0, p) == Hits(head)
  {
    ScanSlice(ring, 0, head);
  }

  lemma ScanTurn(ring: seq<int>, p: nat, head: seq<int>, tail: seq<int>)
    requires p < |ring| && tail == ring[p..] && head == ring[..p]
    ensures Scan(ring, p, |ring|) == Hits(tail) + Hits(head)
  {
    var steps: nat := |ring| - p;
    assert steps + p == |ring|;
    ScanTail(ring, p, tail);
    ScanHead(ring, p, head);
    ScanSplit(ring, p, steps, p);
  }

  lemma HitsTurned(ring: seq<int>, p: nat)
    requires p < |ring|
    ensures |Hits(ring[p..]) + Hits(ring[..p])| == |Hits(ring)|
  {
    HitsAppend(ring[..p], ring[p..]);
    assert ring[..p] + ring[p..] == ring;
  }

  /** One full turn from any cursor picks every qualifying slot once, in cyclic order. */
  lemma FullTurn(ring: seq<int>, p: nat)
    requires Live(ring) && p < |ring|
    ensures Picks(ring, p, |Hits(ring)|) == Hits(ring[p..]) + Hits(ring[..p])
  {
    HitsTurned(ring, p);
    ScanTurn(ring, p, ring[..p], ring[p..]);
    PicksAreScan(ring, p, |ring|);
  }

  lemma {:induction false} PicksSplit(ring: seq<int>, p: nat, a: nat, b: nat)
    requires Live(ring) && p < |ring|
    ensures Picks(ring, p, a + b) == Picks(ring, p, a) + Picks(ring, Cursor(ring, p, a), b)
    decreases a
  {
    if a > 0 {
      PicksSplit(ring, Succ(|ring|, Seek(ring, p)), a - 1, b);
    } else {
      assert Picks(ring, p, 0) + Picks(ring, p, b) == Picks(ring, p, b);
    }
  }

  lemma LiveHasHits(ring: seq<int>)
    requires Live(ring)
    ensures |Hits(ring)| >= 1
  {
    var p :| 0 <= p < |ring| && ring[p] >= 0;
    CountMember(ring, ring[p]);
    HitsCount(ring, ring[p]);
  }

  /** How often one label is picked. */
  ghost function Times(ring: seq<int>, p: nat, k: nat, tag: int): nat
    requires Live(ring) && p < |ring|
  {
    Count(Picks(ring, p, k), tag)
  }

  lemma TimesSplit(ring: seq<int>, p: nat, a: nat, b: nat, tag: int)
    requires Live(ring) && p < |ring|
    ensures Times(ring, p, a + b, tag) == Times(ring, p, a, tag) + Times(ring, Cursor(ring, p, a), b, tag)
  {
    PicksSplit(ring, p, a, b);
    CountAppend(Picks(ring, p, a), Picks(ring, Cursor(ring, p, a), b), tag);
  }

  lemma TimesTurn(ring: seq<int>, p: nat, tag: int)
    requires Live(ring) && p < |ring| && tag >= 0
    ensures Times(ring, p, |Hits(ring)|, tag) == Count(ring, tag)
  {
    FullTurn(ring, p);
    CountAppend(Hits(ring[p..]), Hits(ring[..p]), tag);
    HitsCount(ring[p..], tag);
    HitsCount(ring[..p], tag);
    CountAppend(ring[..p], ring[p..], tag);
    assert ring[..p] + ring[p..] == ring;
  }

  lemma WithinTurn(ring: seq<int>, p: nat, k: nat, tag: int)
    requires Live(ring) && p < |ring| && tag >= 0 && k <= |Hits(ring)|
    ensures Times(ring, p, k, tag) <= Count(ring, tag)
  {
    var rest: nat := |Hits(ring)| - k;
    TimesTurn(ring, p, tag);
    TimesSplit(ring, p, k, rest, tag);
    assert k + rest == |Hits(ring)|;
  }

  lemma PastTurn(ring: seq<int>, p: nat, k: nat, tag: int)
    requires Live(ring) && p < |ring| && tag >= 0 && k >= |Hits(ring)|
    ensures var turn := |Hits(ring)|;
            Times(ring, p, k, tag) == Count(ring, tag) + Times(ring, Cursor(ring, p, turn), k - turn, tag)
  {
    var rest: nat := k - |Hits(ring)|;
    TimesTurn(ring, p, tag);
    TimesSplit(ring, p, |Hits(ring)|, rest, tag);
    assert |Hits(ring)| + rest == k;
  }

  /**
   Balance in any window: two labels that qualify equally often in the ring are picked, in
   any number of consecutive picks from any cursor, numbers of times that differ by at most
   their multiplicity (one, when each label has one slot).
   */
  lemma {:induction false} Balanced(ring: seq<int>, p: nat, k: nat, i: int, j: int)
    requires Live(ring) && p < |ring| && i >= 0 && j >= 0
    requires Count(ring, i) == Count(ring, j)
    ensures Times(ring, p, k, i) <= Times(ring, p, k, j) + Count(ring, i)
    decreases k
  {
    var turn := |Hits(ring)|;
    LiveHasHits(ring);
    if k < turn {
      WithinTurn(ring, p, k, i);
    } else {
      PastTurn(ring, p, k, i);
      PastTurn(ring, p, k, j);
      Balanced(ring, Cursor(ring, p, turn), k - turn, i, j);
    }
  }

  /** Every position qualifies. */
  function FullRing(n: nat): (ring: seq<int>)
    ensures |ring| == n
  {
    seq(n, i => i)
  }

  lemma {:induction false} HitsOfFull(slots: seq<int>)
    requires forall i | 0 <= i < |slots| :: slots[i] >= 0
    ensures Hits(slots) == slots
  {
    if slots != [] {
      HitsOfFull(slots[1..]);
    }
  }

  /** The plain cursor is the all-healthy scan: n calls serve the n clients once each, in cyclic order. */
  lemma CursorServesAll(n: nat, cursor: nat)
    requires cursor < n
    ensures Live(FullRing(n))
    ensures Picks(FullRing(n), cursor, n) == FullRing(n)[cursor..] + FullRing(n)[..cursor]
  {
    var ring := FullRing(n);
    assert ring[cursor] == cursor;
    FullTurn(ring, cursor);
    HitsOfFull(ring);
    HitsOfFull(ring[cursor..]);
    HitsOfFull(ring[..cursor]);
  }

  /** And in any number of calls no client is served more than once more than another. */
  lemma CursorIsFair(n: nat, cursor: nat, calls: nat, i: nat, j: nat)
    requires cursor < n && i < n && j < n
    ensures Live(FullRing(n))
    ensures Times(FullRing(n), cursor, calls, i) <= Times(FullRing(n), cursor, calls, j) + 1
  {
    var ring := FullRing(n);
    assert ring[cursor] == cursor;
    OneSlotEach(ring, i);
    OneSlotEach(ring, j);
    Balanced(ring, cursor, calls, i, j);
  }
}
