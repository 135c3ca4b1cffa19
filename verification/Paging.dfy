/** The paging arithmetic of the in-memory repositories, in int32 as the source computes it. */
module Paging {

  const MAX_INT32: int := 0x7FFF_FFFF
  const TWO_TO_32: int := 0x1_0000_0000

  /** int32 arithmetic: the representative of x modulo 2^32 in -2^31 .. 2^31 - 1. */
  function Wrap32(x: int): (w: int)
    ensures -MAX_INT32 - 1 <= w <= MAX_INT32
    ensures -MAX_INT32 - 1 <= x <= MAX_INT32 ==> w == x
  {
    (x + MAX_INT32 + 1) % TWO_TO_32 - MAX_INT32 - 1
  }

  /** A page, or the run-time panic of a slice with bad bounds. */
  datatype Slice<+T> = Page(items: seq<T>) | Panic

  function Start(page: int, size: int): int {
    Wrap32(Wrap32(page - 1) * size)
  }

  /** Where the page starts: the int32 that equals (page - 1) * size modulo 2^32. */
  lemma StartWraps(page: int, size: int)
    ensures -0x8000_0000 <= Start(page, size) <= 0x7FFF_FFFF
    ensures (Start(page, size) - (page - 1) * size) % 0x1_0000_0000 == 0
  {
    var w := Wrap32(page - 1);
    WrapsAway(page - 1);
    var k := (page - 1 - w) / TWO_TO_32;
    assert page - 1 == w + k * TWO_TO_32;
    WrapsAway(w * size);
    var j := (w * size - Wrap32(w * size)) / TWO_TO_32;
    assert w * size == Wrap32(w * size) + j * TWO_TO_32;
    assert (page - 1) * size == w * size + k * size * TWO_TO_32;
    assert Start(page, size) - (page - 1) * size == -(j + k * size) * TWO_TO_32;
    MultipleOf(-(j + k * size), TWO_TO_32);
  }

  lemma WrapsAway(x: int)
    ensures (x - Wrap32(x)) % TWO_TO_32 == 0
  {
  }

  lemma MultipleOf(k: int, m: int)
    requires m > 0
    ensures k * m % m == 0
  {
    var q, r := k * m / m, k * m % m;
    assert k * m == q * m + r;
    assert (k - q) * m == r;
    assert k - q >= 1 ==> (k - q) * m >= m;
    assert q - k >= 1 ==> (q - k) * m >= m;
  }

  /** The page as the source cuts it out of the filtered list. */
  function Cut<T>(items: seq<T>, page: int, size: int): Slice<T> {
    var total := Wrap32(|items|);
    var start := Start(page, size);
    var end := Wrap32(start + size);
    if start >= total then Page([])
    else
      var end' := if end > total then total else end;
      if 0 <= start <= end' <= |items| then Page(items[start..end']) else Panic
  }

  /** The lines that end both repositories' `List`. */
  method CutPage<T>(filtered: seq<T>, page: int, pageSize: int) returns (r: Slice<T>, total: int)
    ensures total == Wrap32(|filtered|) && r == Cut(filtered, page, pageSize)
  {
    total := Wrap32(|filtered|);
    var start := Wrap32(Wrap32(page - 1) * pageSize);
    var end := Wrap32(start + pageSize);
    if start >= total {
      return Page([]), total;
    }
    if end > total {
      end := total;
    }
    r := if 0 <= start <= end <= |filtered| then Page(filtered[start..end]) else Panic;
  }

  function Min(a: int, b: int): int {
    if a < b then a else b
  }

  /** The page a caller asked for: `size` items after skipping page - 1 full pages. */
  function Asked<T>(items: seq<T>, page: int, size: int): seq<T>
    requires page >= 1 && size >= 1
  {
    assert (page - 1) * size >= 0 && page * size == (page - 1) * size + size;
    items[Min((page - 1) * size, |items|)..Min(page * size, |items|)]
  }

  /**
   Where paging is right. For a positive page and size, and a list that int32 can count, the
   source cuts the page that was asked for if and only if the start it computes is past the
   end or page * size does not overflow int32. `PanicsExactly` says which of the others panic.
   */
  lemma CutIsAsked<T>(items: seq<T>, page: int, size: int)
    requires 1 <= page <= MAX_INT32 && 1 <= size <= MAX_INT32 && |items| <= MAX_INT32
    ensures Cut(items, page, size) == Page(Asked(items, page, size))
            <==> Start(page, size) >= |items| || page * size <= MAX_INT32
  {
    var skip := (page - 1) * size;
    assert skip >= 0 && page * size == skip + size;
    var start := Start(page, size);
    if skip <= MAX_INT32 {
      assert start == skip;
      if page * size <= MAX_INT32 {
        assert Wrap32(start + size) == page * size;
      } else {
        assert Wrap32(start + size) == start + size - TWO_TO_32 < 0;
      }
    } else {
      assert Asked(items, page, size) == [];
    }
  }

  /** For any int32 page and size: the slice is taken with bad bounds, and the call panics. */
  lemma PanicsExactly<T>(items: seq<T>, page: int, size: int)
    requires -MAX_INT32 - 1 <= page <= MAX_INT32 && -MAX_INT32 - 1 <= size <= MAX_INT32 && |items| <= MAX_INT32
    ensures Cut(items, page, size) == Panic
            <==> || Start(page, size) < 0
                 || (Start(page, size) < |items| && (size < 0 || Start(page, size) + size > MAX_INT32))
  {
    var end := Start(page, size) + size;
    if end > MAX_INT32 {
      assert Wrap32(end) == end - TWO_TO_32 < 0;
    }
  }

  /** A large page number the services accept crashes the call, whatever the list holds, even nothing. */
  lemma LargePagePanics<T>(items: seq<T>)
    requires |items| <= MAX_INT32
    ensures Cut(items, 30000000, 100) == Panic
  {
    assert 29999999 * 100 == 2999999900;
    PanicsExactly(items, 30000000, 100);
  }

  /** Well within the page sizes the services accept, a large page number wraps around to a wrong page. */
  lemma LargePageWraps(items: seq<int>)
    requires 4 < |items| <= MAX_INT32
    ensures Start(42949674, 100) == 4
    ensures Cut(items, 42949674, 100) != Page(Asked(items, 42949674, 100))
  {
    assert 42949673 * 100 == 4294967300 == TWO_TO_32 + 4;
    CutIsAsked(items, 42949674, 100);
  }

  // ---- Pages partition the list ------------------------------------------------------

  /** The first `n` pages, one after the other. */
  function FirstPages<T>(items: seq<T>, size: int, n: nat): seq<T>
    requires size >= 1
  {
    if n == 0 then []
    else FirstPages(items, size, n - 1) + Asked(items, n, size)
  }

  lemma {:induction false} PagesArePrefix<T>(items: seq<T>, size: int, n: nat)
    requires size >= 1
    ensures n * size >= 0 && FirstPages(items, size, n) == items[..Min(n * size, |items|)]
  {
    if n > 0 {
      PagesArePrefix(items, size, n - 1);
      var skip := (n - 1) * size;
      assert n * size == skip + size;
      assert Asked(items, n, size) == items[Min(skip, |items|)..Min(skip + size, |items|)];
    }
  }

  function PageCount(total: nat, size: int): nat
    requires size >= 1
  {
    (total + size - 1) / size
  }

  lemma PageCountCovers(total: nat, size: int)
    requires size >= 1
    ensures PageCount(total, size) * size >= total
    ensures total > 0 ==> (PageCount(total, size) - 1) * size < total
  {
    var n := PageCount(total, size);
    assert n * size + (total + size - 1) % size == total + size - 1;
    assert (n - 1) * size == n * size - size;
  }

  lemma PageFits(page: int, n: int, size: int)
    requires 1 <= page <= n && size >= 1 && n * size <= MAX_INT32
    ensures page * size <= MAX_INT32 && page <= MAX_INT32 && size <= MAX_INT32
  {
    assert (n - page) * size >= 0;
    assert page * size == n * size - (n - page) * size;
    assert (page - 1) * size >= 0 && page * (size - 1) >= 0;
    assert page * size == (page - 1) * size + size == page * (size - 1) + page;
  }

  /**
   Paging partitions: while the last page stays within int32, pages 1 .. ceil(total / size)
   are each cut as asked and together give the list back, with no gap and no overlap.
   */
  lemma PagesPartition<T>(items: seq<T>, size: int)
    requires size >= 1 && PageCount(|items|, size) * size <= MAX_INT32
    ensures forall page | 1 <= page <= PageCount(|items|, size) ::
              Cut(items, page, size) == Page(Asked(items, page, size))
    ensures FirstPages(items, size, PageCount(|items|, size)) == items
  {
    var n := PageCount(|items|, size);
    PageCountCovers(|items|, size);
    PagesArePrefix(items, size, n);
    assert items[..Min(n * size, |items|)] == items;
    forall page | 1 <= page <= n ensures Cut(items, page, size) == Page(Asked(items, page, size)) {
      PageFits(page, n, size);
      CutIsAsked(items, page, size);
    }
  }

  // ---- Each call ranges over the map anew --------------------------------------------

  predicate Distinct<T(==)>(items: seq<T>) {
    forall i, j | 0 <= i < j < |items| :: items[i] != items[j]
  }

  /** One enumeration of the same items for each page: every call may see another order. */
  ghost predicate Reordered<T>(orders: seq<seq<T>>, items: seq<T>, n: nat) {
    |orders| == n && forall k | 0 <= k < n :: multiset(orders[k]) == multiset(items)
  }

  function ItemsOf<T>(r: Slice<T>): seq<T> {
    if r.Page? then r.items else []
  }

  /** What a caller collects over pages 1, 2, .. when call k ranges over the map in order `orders[k]`. */
  function Collected<T>(orders: seq<seq<T>>, size: int): seq<T> {
    if orders == [] then []
    else
      var n := |orders| - 1;
      Collected(orders[..n], size) + ItemsOf(Cut(orders[n], n + 1, size))
  }

  lemma {:induction false} CollectedKeeps<T>(orders: seq<seq<T>>, size: int, k: nat)
    requires k <= |orders|
    ensures multiset(Collected(orders[..k], size)) <= multiset(Collected(orders, size))
  {
    if k < |orders| {
      assert orders[..|orders| - 1][..k] == orders[..k];
      CollectedKeeps(orders[..|orders| - 1], size, k);
    } else {
      assert orders[..k] == orders;
    }
  }

  lemma {:induction false} TwoPages<T>(first: seq<T>, second: seq<T>, size: int)
    ensures Collected([first, second], size) == ItemsOf(Cut(first, 1, size)) + ItemsOf(Cut(second, 2, size))
  {
    assert [first, second][..1] == [first] && [first][..0] == [];
    assert Collected([first], size) == Collected([first][..0], size) + ItemsOf(Cut(first, 1, size));
  }

  lemma OnceEach<T>(items: seq<T>)
    requires Distinct(items) && items != []
    ensures multiset(items)[items[0]] == 1
  {
    assert items == [items[0]] + items[1..];
    assert forall i | 0 <= i < |items[1..]| :: items[1..][i] == items[i + 1];
    assert items[0] !in items[1..];
  }

  function Swapped<T>(items: seq<T>, k: nat): seq<T>
    requires 0 < k < |items|
  {
    items[0 := items[k]][k := items[0]]
  }

  lemma SwappedReorders<T>(items: seq<T>, k: nat)
    requires 0 < k < |items|
    ensures multiset(Swapped(items, k)) == multiset(items)
  {
    var a, mid, b, rest := [items[0]], items[1..k], [items[k]], items[k + 1..];
    assert items == a + mid + b + rest;
    assert Swapped(items, k) == b + mid + a + rest;
  }

  lemma SmallPagesFit(total: nat, size: int)
    requires size >= 1 && PageCount(total, size) * size <= MAX_INT32 && size < total
    ensures PageCount(total, size) >= 2 && 2 * size <= MAX_INT32 && total <= MAX_INT32
  {
    PageCountCovers(total, size);
    var n := PageCount(total, size);
    assert n <= 1 ==> n * size <= size;
    PageFits(2, n, size);
  }

  lemma HeadCounts<T>(a: seq<T>, b: seq<T>, item: T)
    requires a != [] && b != [] && a[0] == item && b[0] == item
    ensures multiset(a + b)[item] >= 2
  {
    assert a + b == [item] + a[1..] + [item] + b[1..];
  }

  /** With the first item swapped to the head of page 2, both pages hold it. */
  lemma SwapRepeats<T>(items: seq<T>, size: int)
    requires 1 <= size < |items| <= MAX_INT32 && 2 * size <= MAX_INT32
    ensures multiset(Collected([items, Swapped(items, size)], size))[items[0]] >= 2
  {
    var swapped := Swapped(items, size);
    TwoPages(items, swapped, size);
    CutIsAsked(items, 1, size);
    CutIsAsked(swapped, 2, size);
    HeadCounts(Asked(items, 1, size), Asked(swapped, 2, size), items[0]);
  }

  lemma OnePage<T>(order: seq<T>, size: int)
    requires 1 <= size <= MAX_INT32 && |order| <= size
    ensures Collected([order], size) == order
  {
    CutIsAsked(order, 1, size);
    assert Asked(order, 1, size) == order;
    assert [order][..0] == [];
  }

  lemma OnePageCount(total: nat, size: int)
    requires size >= 1 && total <= size
    ensures PageCount(total, size) == if total == 0 then 0 else 1
  {
    PageCountCovers(total, size);
  }

  lemma AnyOrderFitsOnePage<T>(items: seq<T>, orders: seq<seq<T>>, size: int)
    requires size >= 1 && PageCount(|items|, size) * size <= MAX_INT32
    requires |items| <= size && Reordered(orders, items, PageCount(|items|, size))
    ensures multiset(Collected(orders, size)) == multiset(items)
  {
    OnePageCount(|items|, size);
    if items != [] {
      var order := orders[0];
      assert |order| == |multiset(order)| == |multiset(items)| == |items|;
      OnePage(order, size);
      assert orders == [order];
    }
  }

  lemma SomeReordered<T>(items: seq<T>, other: seq<T>, n: nat)
    requires n >= 2 && multiset(other) == multiset(items)
    ensures Reordered([items, other] + seq(n - 2, _ => items), items, n)
    ensures ([items, other] + seq(n - 2, _ => items))[..2] == [items, other]
  {
  }

  /** Past one page, some choice of orders makes page 2 repeat an item of page 1. */
  lemma SomeOrdersRepeat<T>(items: seq<T>, size: int, n: nat) returns (orders: seq<seq<T>>)
    requires Distinct(items) && n >= 2
    requires 1 <= size < |items| <= MAX_INT32 && 2 * size <= MAX_INT32
    ensures Reordered(orders, items, n)
    ensures multiset(Collected(orders, size)) != multiset(items)
  {
    orders := [items, Swapped(items, size)] + seq(n - 2, _ => items);
    SwappedReorders(items, size);
    SomeReordered(items, Swapped(items, size), n);
    SwapRepeats(items, size);
    CollectedKeeps(orders, size, 2);
    OnceEach(items);
  }

  /**
   The partition needs one order for all calls, and each call ranges over a map anew. Whatever
   orders the calls meet, the pages together hold each item exactly once, if and only if all
   items fit one page, which a caller can see from `total`.
   */
  lemma OrdersMustAgree<T(!new)>(items: seq<T>, size: int)
    requires Distinct(items) && size >= 1 && PageCount(|items|, size) * size <= MAX_INT32
    ensures (forall orders: seq<seq<T>> | Reordered(orders, items, PageCount(|items|, size)) ::
               multiset(Collected(orders, size)) == multiset(items))
            <==> |items| <= size
  {
    var n := PageCount(|items|, size);
    if |items| <= size {
      forall orders: seq<seq<T>> | Reordered(orders, items, n)
        ensures multiset(Collected(orders, size)) == multiset(items)
      {
        AnyOrderFitsOnePage(items, orders, size);
      }
    } else {
      SmallPagesFit(|items|, size);
      var orders := SomeOrdersRepeat(items, size, n);
    }
  }
}
