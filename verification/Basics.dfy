/** A value that may be absent, and a value or the error that took its place. */
module Wrappers {
  datatype Option<+T> = None | Some(value: T)

  datatype Result<+T, +E> = Ok(value: T) | Err(error: E)
}

/** What a history says of one field: the last writer wins. */
module Histories {
  import opened Wrappers

  /** The last value that an operation of the history gave, or `first` if none gave one. */
  function LastSaid<O, T>(ops: seq<O>, said: O -> Option<T>, first: T): T {
    if ops == [] then first
    else
      match said(ops[|ops| - 1])
      case Some(value) => value
      case None => LastSaid(ops[..|ops| - 1], said, first)
  }
}

/** Ranging over a finite set in any order. */
module Sets {

  /** A set still to be visited has a member to visit. */
  lemma SomeMember(s: set<int>)
    requires s != {}
    ensures exists x :: x in s
  {
    if forall x :: x !in s {
      assert false;
    }
  }
}

/** Multiplication by repeated addition, for counting arguments. */
module Arithmetic {

  /** `n` lots of `x`: multiplication as repeated addition. */
  ghost function Lots(n: nat, x: int): int {
    if n == 0 then 0 else Lots(n - 1, x) + x
  }

  lemma {:induction false} LotsIsProduct(n: nat, x: int)
    ensures Lots(n, x) == n * x
  {
    if n > 0 {
      LotsIsProduct(n - 1, x);
      assert n * x == (n - 1) * x + x;
    }
  }

  lemma {:induction false} LotsGrow(n: nat, m: nat, x: nat)
    requires n <= m
    ensures Lots(n, x) <= Lots(m, x)
  {
    if n < m {
      LotsGrow(n, m - 1, x);
    }
  }
}

/** How often something occurs in a sequence. */
module Counting {

  /** How often `t` occurs in `s`. */
  function Count<T(==)>(s: seq<T>, t: T): nat {
    if s == [] then 0
    else Count(s[..|s| - 1], t) + if s[|s| - 1] == t then 1 else 0
  }

  lemma {:induction false} CountAppend<T>(a: seq<T>, b: seq<T>, t: T)
    ensures Count(a + b, t) == Count(a, t) + Count(b, t)
    decreases |b|
  {
    if b == [] {
      assert a + b == a;
    } else {
      var n := |b| - 1;
      assert (a + b)[..|a| + n] == a + b[..n] && (a + b)[|a| + n] == b[n];
      CountAppend(a, b[..n], t);
    }
  }

  lemma {:induction false} CountMember<T>(s: seq<T>, t: T)
    ensures t in s <==> Count(s, t) > 0
  {
    if s != [] {
      CountMember(s[..|s| - 1], t);
    }
  }
}
