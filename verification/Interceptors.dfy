/**
 Chaining unary server interceptors. An interceptor is given by what it does: seeing the
 request and the answers its continuation gave so far, it replies or calls the continuation
 again, up to a limit of its own. So the laws need no assumption on how interceptors treat
 the functions they are handed. A request stands for context and request together.
 */
module Interceptors {
  import opened Arithmetic
  import opened Counting

  type Request = int
  type Response = int

  datatype Move = Reply(response: Response) | Call(request: Request)

  datatype Interceptor = Interceptor(
    maxCalls: nat,
    next: (Request, seq<Response>) -> Move,       // while calls are left
    last: (Request, seq<Response>) -> Response)   // once they are used up

  datatype Event = Enter(depth: nat) | Handled | Exit(depth: nat)

  /** A response and the events on the way to it. */
  datatype Answer = Answer(response: Response, trace: seq<Event>)

  type Handler = Request -> Answer

  /** The interceptor at work: what follows once its continuation has answered `got`. */
  function Perform(i: Interceptor, request: Request, got: seq<Response>, continuation: Handler): Answer
    decreases i.maxCalls - |got|
  {
    if |got| >= i.maxCalls then Answer(i.last(request, got), [])
    else
      match i.next(request, got)
      case Reply(response) => Answer(response, [])
      case Call(r) =>
        var inner := continuation(r);
        var rest := Perform(i, request, got + [inner.response], continuation);
        Answer(rest.response, inner.trace + rest.trace)
  }

  /** One interceptor at a depth, with its entry and exit marked. */
  function Around(i: Interceptor, depth: nat, request: Request, continuation: Handler): Answer {
    var inner := Perform(i, request, [], continuation);
    Answer(inner.response, [Enter(depth)] + inner.trace + [Exit(depth)])
  }

  /** The chain as the recursion runs it; `depth` is the position of its first interceptor. */
  function Chain(interceptors: seq<Interceptor>, depth: nat, request: Request, handler: Handler): Answer
    decreases |interceptors|
  {
    if |interceptors| == 0 then handler(request)
    else
      Around(interceptors[0], depth, request, r =>
        if |interceptors| == 1 then handler(r)
        else Chain(interceptors[1..], depth + 1, r, handler))
  }

  /** Each interceptor wrapped around everything after it, the first one outermost. */
  function Folded(interceptors: seq<Interceptor>, depth: nat, handler: Handler): Handler
    decreases |interceptors|
  {
    if |interceptors| == 0 then handler
    else
      var inner := Folded(interceptors[1..], depth + 1, handler);
      r => Around(interceptors[0], depth, r, inner)
  }

  /** Interceptors cannot tell apart continuations that answer alike. */
  lemma {:induction false} PerformSame(i: Interceptor, request: Request, got: seq<Response>, f: Handler, g: Handler)
    requires forall r :: f(r) == g(r)
    ensures Perform(i, request, got, f) == Perform(i, request, got, g)
    decreases i.maxCalls - |got|
  {
    if |got| < i.maxCalls {
      match i.next(request, got)
      case Reply(_) =>
      case Call(r) =>
        assert f(r) == g(r);
        PerformSame(i, request, got + [f(r).response], f, g);
    }
  }

  /** The chain is the right fold of the interceptors over the handler. */
  lemma {:induction false} ChainIsFold(interceptors: seq<Interceptor>, depth: nat, request: Request,
                                       handler: Handler)
    ensures Chain(interceptors, depth, request, handler) == Folded(interceptors, depth, handler)(request)
    decreases |interceptors|
  {
    if |interceptors| > 0 {
      var rest := interceptors[1..];
      var continuation: Handler := r =>
        if |interceptors| == 1 then handler(r) else Chain(interceptors[1..], depth + 1, r, handler);
      var inner := Folded(rest, depth + 1, handler);
      forall r ensures continuation(r) == inner(r) {
        ChainIsFold(rest, depth + 1, r, handler);
      }
      PerformSame(interceptors[0], request, [], continuation, inner);
    }
  }

  lemma {:induction false} FoldAppend(xs: seq<Interceptor>, ys: seq<Interceptor>, depth: nat, request: Request,
                                      handler: Handler)
    ensures Folded(xs + ys, depth, handler)(request)
         == Folded(xs, depth, Folded(ys, depth + |xs|, handler))(request)
    decreases |xs|
  {
    if xs == [] {
      assert xs + ys == ys;
    } else {
      var rest, tail := xs[1..], Folded(ys, depth + |xs|, handler);
      assert (xs + ys)[0] == xs[0] && (xs + ys)[1..] == rest + ys;
      var f, g := Folded(rest + ys, depth + 1, handler), Folded(rest, depth + 1, tail);
      forall r ensures f(r) == g(r) {
        FoldAppend(rest, ys, depth + 1, r, handler);
      }
      PerformSame(xs[0], request, [], f, g);
    }
  }

  lemma {:induction false} FoldSame(xs: seq<Interceptor>, depth: nat, request: Request, f: Handler, g: Handler)
    requires forall r :: f(r) == g(r)
    ensures Folded(xs, depth, f)(request) == Folded(xs, depth, g)(request)
    decreases |xs|
  {
    if xs != [] {
      var f', g' := Folded(xs[1..], depth + 1, f), Folded(xs[1..], depth + 1, g);
      forall r ensures f'(r) == g'(r) {
        FoldSame(xs[1..], depth + 1, r, f, g);
      }
      PerformSame(xs[0], request, [], f', g');
    }
  }

  /** Chaining xs + ys is chaining xs around the chain of ys. */
  lemma ChainAppend(xs: seq<Interceptor>, ys: seq<Interceptor>, depth: nat, request: Request, handler: Handler)
    ensures Chain(xs + ys, depth, request, handler)
         == Chain(xs, depth, request, r => Chain(ys, depth + |xs|, r, handler))
  {
    var around: Handler := r => Chain(ys, depth + |xs|, r, handler);
    var tail := Folded(ys, depth + |xs|, handler);
    forall r ensures around(r) == tail(r) {
      ChainIsFold(ys, depth + |xs|, r, handler);
    }
    ChainIsFold(xs + ys, depth, request, handler);
    FoldAppend(xs, ys, depth, request, handler);
    FoldSame(xs, depth, request, tail, around);
    ChainIsFold(xs, depth, request, around);
  }

  // ---- The response ------------------------------------------------------------------

  /**
   What an interceptor did with a request: it called its continuation with the requests
   `passed`, one after the other, was answered `got`, and then gave its own response.
   */
  ghost predicate Conversation(i: Interceptor, request: Request, passed: seq<Request>, got: seq<Response>,
                               response: Response)
  {
    && |passed| == |got| <= i.maxCalls
    && (forall k | 0 <= k < |got| :: i.next(request, got[..k]) == Call(passed[k]))
    && (if |got| == i.maxCalls then response == i.last(request, got) else i.next(request, got) == Reply(response))
  }

  lemma {:induction false} PerformConverses(i: Interceptor, request: Request, soFar: seq<Request>, got: seq<Response>,
                                            continuation: Handler)
    returns (passed: seq<Request>, answers: seq<Response>)
    requires |soFar| == |got| <= i.maxCalls
    requires forall k | 0 <= k < |got| :: i.next(request, got[..k]) == Call(soFar[k])
    requires forall k | 0 <= k < |got| :: got[k] == continuation(soFar[k]).response
    ensures Conversation(i, request, passed, answers, Perform(i, request, got, continuation).response)
    ensures forall k | 0 <= k < |answers| :: answers[k] == continuation(passed[k]).response
    decreases i.maxCalls - |got|
  {
    if |got| == i.maxCalls || i.next(request, got).Reply? {
      passed, answers := soFar, got;
    } else {
      var r := i.next(request, got).request;
      var more := got + [continuation(r).response];
      assert more[..|got|] == got && forall k | 0 <= k < |got| :: more[..k] == got[..k];
      passed, answers := PerformConverses(i, request, soFar + [r], more, continuation);
    }
  }

  /**
   The response of a chain, exactly: without interceptors it is the handler's; otherwise it is
   the first interceptor's own, each of whose calls was answered by the chain of the rest.
   */
  lemma ChainResponds(xs: seq<Interceptor>, depth: nat, request: Request, handler: Handler)
    returns (passed: seq<Request>, answers: seq<Response>)
    ensures xs == [] ==> Chain(xs, depth, request, handler).response == handler(request).response
    ensures xs != [] ==>
              && Conversation(xs[0], request, passed, answers, Chain(xs, depth, request, handler).response)
              && forall k | 0 <= k < |answers| ::
                   answers[k] == Chain(xs[1..], depth + 1, passed[k], handler).response
  {
    passed, answers := [], [];
    if xs != [] {
      var continuation: Handler := r => if |xs| == 1 then handler(r) else Chain(xs[1..], depth + 1, r, handler);
      forall r ensures continuation(r) == Chain(xs[1..], depth + 1, r, handler) {
        assert |xs| == 1 ==> xs[1..] == [];
      }
      passed, answers := PerformConverses(xs[0], request, [], [], continuation);
    }
  }

  /** An interceptor that rewrites the request, calls once, and rewrites the response. */
  ghost predicate Rewrites(i: Interceptor, f: Request -> Request, g: Response -> Response) {
    && i.maxCalls == 1
    && (forall r :: i.next(r, []) == Call(f(r)))
    && (forall r, x :: i.last(r, [x]) == g(x))
  }

  /** The request that reaches the handler: rewritten by the first interceptor first. */
  function Inward(fs: seq<Request -> Request>, request: Request): Request {
    if fs == [] then request else fs[|fs| - 1](Inward(fs[..|fs| - 1], request))
  }

  /** The response that reaches the caller: rewritten by the first interceptor last. */
  function Outward(gs: seq<Response -> Response>, response: Response): Response {
    if gs == [] then response else gs[0](Outward(gs[1..], response))
  }

  lemma {:induction false} InwardFirst(fs: seq<Request -> Request>, request: Request)
    requires fs != []
    ensures Inward(fs, request) == Inward(fs[1..], fs[0](request))
  {
    if |fs| > 1 {
      InwardFirst(fs[..|fs| - 1], request);
      assert fs[..|fs| - 1][1..] == fs[1..][..|fs[1..]| - 1];
    } else {
      assert fs[..0] == [] && fs[1..] == [];
      assert Inward(fs[..0], request) == request;
    }
  }

  /** With interceptors that call once, the chain answers g1(.. gn(handler(fn(.. f1(request))))). */
  lemma {:induction false} ResponseComposes(xs: seq<Interceptor>, fs: seq<Request -> Request>,
                                            gs: seq<Response -> Response>, depth: nat, request: Request,
                                            handler: Handler)
    requires |fs| == |gs| == |xs| && forall k | 0 <= k < |xs| :: Rewrites(xs[k], fs[k], gs[k])
    ensures Chain(xs, depth, request, handler).response
         == Outward(gs, handler(Inward(fs, request)).response)
    decreases |xs|
  {
    if xs != [] {
      var passed, answers := ChainResponds(xs, depth, request, handler);
      assert Rewrites(xs[0], fs[0], gs[0]);
      assert answers[..0] == [];
      assert answers == [answers[0]] && passed[0] == fs[0](request);
      ResponseComposes(xs[1..], fs[1..], gs[1..], depth + 1, passed[0], handler);
      InwardFirst(fs, request);
    }
  }

  // ---- The order of events -----------------------------------------------------------

  /** A handler that marks its own run and nothing else. */
  ghost predicate Marks(handler: Handler) {
    forall r :: handler(r).trace == [Handled]
  }

  /**
   How many interceptors are open after the events, when `open` were before, or -1 if an event
   came out of order: depth k is entered only with exactly depths 0 .. k - 1 open, left only
   as the innermost one, and the handler runs only with all n open.
   */
  function Walk(trace: seq<Event>, open: int, n: nat): int {
    if trace == [] then open
    else
      var now := Walk(trace[..|trace| - 1], open, n);
      match trace[|trace| - 1]
      case Enter(depth) => if now == depth < n then depth + 1 else -1
      case Exit(depth) => if now == depth + 1 then depth else -1
      case Handled => if now == n then n else -1
  }

  lemma {:induction false} WalkAppend(a: seq<Event>, b: seq<Event>, open: int, n: nat)
    ensures Walk(a + b, open, n) == Walk(b, Walk(a, open, n), n)
    decreases |b|
  {
    if b == [] {
      assert a + b == a;
    } else {
      var k := |b| - 1;
      assert (a + b)[..|a| + k] == a + b[..k] && (a + b)[|a| + k] == b[k];
      WalkAppend(a, b[..k], open, n);
    }
  }

  /** However often an interceptor calls a continuation that opens and closes evenly, so does the whole. */
  lemma {:induction false} PerformWalks(i: Interceptor, request: Request, got: seq<Response>,
                                        continuation: Handler, open: int, n: nat)
    requires forall r :: Walk(continuation(r).trace, open, n) == open
    ensures Walk(Perform(i, request, got, continuation).trace, open, n) == open
    decreases i.maxCalls - |got|
  {
    if |got| < i.maxCalls && i.next(request, got).Call? {
      var inner := continuation(i.next(request, got).request);
      var again := got + [inner.response];
      PerformWalks(i, request, again, continuation, open, n);
      WalkAppend(inner.trace, Perform(i, request, again, continuation).trace, open, n);
    }
  }

  lemma WalkOne(event: Event, open: int, n: nat)
    ensures Walk([event], open, n)
         == match event
            case Enter(depth) => if open == depth < n then depth + 1 else -1
            case Exit(depth) => if open == depth + 1 then depth else -1
            case Handled => if open == n then n else -1
  {
    assert [event][..0] == [];
  }

  lemma AroundWalks(i: Interceptor, depth: nat, request: Request, continuation: Handler, n: nat)
    requires depth < n && forall r :: Walk(continuation(r).trace, depth + 1, n) == depth + 1
    ensures Walk(Around(i, depth, request, continuation).trace, depth, n) == depth
  {
    PerformWalks(i, request, [], continuation, depth + 1, n);
    var trace := Perform(i, request, [], continuation).trace;
    WalkOne(Enter(depth), depth, n);
    WalkAppend([Enter(depth)], trace, depth, n);
    WalkAppend([Enter(depth)] + trace, [Exit(depth)], depth, n);
    WalkOne(Exit(depth), depth + 1, n);
  }

  lemma {:induction false} FoldWalks(xs: seq<Interceptor>, depth: nat, request: Request, handler: Handler, n: nat)
    requires Marks(handler) && n == depth + |xs|
    ensures Walk(Folded(xs, depth, handler)(request).trace, depth, n) == depth
    decreases |xs|, 0
  {
    if xs == [] {
      assert handler(request).trace == [Handled];
      WalkOne(Handled, depth, depth);
    } else {
      var inner := Folded(xs[1..], depth + 1, handler);
      FoldsWalk(xs[1..], depth + 1, handler, n);
      AroundWalks(xs[0], depth, request, inner, n);
      assert Folded(xs, depth, handler)(request) == Around(xs[0], depth, request, inner);
    }
  }

  lemma {:induction false} FoldsWalk(xs: seq<Interceptor>, depth: nat, handler: Handler, n: nat)
    requires Marks(handler) && n == depth + |xs|
    ensures forall r :: Walk(Folded(xs, depth, handler)(r).trace, depth, n) == depth
    decreases |xs|, 1
  {
    forall r ensures Walk(Folded(xs, depth, handler)(r).trace, depth, n) == depth {
      FoldWalks(xs, depth, r, handler, n);
    }
  }

  /**
   However often each interceptor calls its continuation, a run of the chain is well nested: it
   enters and leaves depths innermost first, and runs the handler only inside all of them.
   */
  lemma AlwaysNested(xs: seq<Interceptor>, request: Request, handler: Handler)
    requires Marks(handler)
    ensures Walk(Chain(xs, 0, request, handler).trace, 0, |xs|) == 0
  {
    ChainIsFold(xs, 0, request, handler);
    FoldWalks(xs, 0, request, handler, |xs|);
  }

  /** How often the handler can run at most: the product of the interceptors' limits. */
  ghost function MaxRuns(xs: seq<Interceptor>): nat {
    if xs == [] then 1
    else
      var inner := MaxRuns(xs[1..]);
      LotsGrow(0, xs[0].maxCalls, inner);
      Lots(xs[0].maxCalls, inner)
  }

  lemma {:induction false} PerformRuns(i: Interceptor, request: Request, got: seq<Response>,
                                       continuation: Handler, each: nat)
    requires |got| <= i.maxCalls && forall r :: Count(continuation(r).trace, Handled) <= each
    ensures Count(Perform(i, request, got, continuation).trace, Handled) <= Lots(i.maxCalls - |got|, each)
    decreases i.maxCalls - |got|
  {
    LotsGrow(0, i.maxCalls - |got|, each);
    if |got| < i.maxCalls && i.next(request, got).Call? {
      var inner := continuation(i.next(request, got).request);
      var again := got + [inner.response];
      PerformRuns(i, request, again, continuation, each);
      CountAppend(inner.trace, Perform(i, request, again, continuation).trace, Handled);
    }
  }

  lemma {:induction false} FoldRuns(xs: seq<Interceptor>, depth: nat, request: Request, handler: Handler)
    requires Marks(handler)
    ensures Count(Folded(xs, depth, handler)(request).trace, Handled) <= MaxRuns(xs)
    decreases |xs|
  {
    if xs == [] {
      assert handler(request).trace == [Handled];
      assert [Handled][..0] == [];
    } else {
      var inner := Folded(xs[1..], depth + 1, handler);
      forall r ensures Count(inner(r).trace, Handled) <= MaxRuns(xs[1..]) {
        FoldRuns(xs[1..], depth + 1, r, handler);
      }
      PerformRuns(xs[0], request, [], inner, MaxRuns(xs[1..]));
      var trace := Perform(xs[0], request, [], inner).trace;
      CountAppend([Enter(depth)], trace, Handled);
      CountAppend([Enter(depth)] + trace, [Exit(depth)], Handled);
      assert [Enter(depth)][..0] == [] && [Exit(depth)][..0] == [];
    }
  }

  /** The handler runs at most as often as the product of the limits: at most once if each calls at most once. */
  lemma HandlerRunsAtMost(xs: seq<Interceptor>, request: Request, handler: Handler)
    requires Marks(handler)
    ensures Count(Chain(xs, 0, request, handler).trace, Handled) <= MaxRuns(xs)
  {
    ChainIsFold(xs, 0, request, handler);
    FoldRuns(xs, 0, request, handler);
  }

  /**
   `entered` interceptors in a row, from the given depth, each around the next, the innermost
   around the handler's own events when the handler was reached.
   */
  function Nest(depth: nat, entered: nat, core: seq<Event>): seq<Event>
    decreases entered
  {
    if entered == 0 then core
    else [Enter(depth)] + Nest(depth + 1, entered - 1, core) + [Exit(depth)]
  }

  function Entries(depth: nat, n: nat): (events: seq<Event>)
    ensures |events| == n
  {
    seq(n, i requires 0 <= i => Enter(depth + i))
  }

  function Exits(depth: nat, n: nat): (events: seq<Event>)
    ensures |events| == n
  {
    seq(n, i requires 0 <= i < n => Exit(depth + n - 1 - i))
  }

  lemma {:induction false} NestIsLinear(depth: nat, n: nat, core: seq<Event>)
    ensures Nest(depth, n, core) == Entries(depth, n) + core + Exits(depth, n)
    decreases n
  {
    if n > 0 {
      NestIsLinear(depth + 1, n - 1, core);
      assert Entries(depth, n) == [Enter(depth)] + Entries(depth + 1, n - 1);
      assert Exits(depth, n) == Exits(depth + 1, n - 1) + [Exit(depth)];
    }
  }

  /** What one pass around an interceptor that calls at most once looks like. */
  lemma AroundOnce(i: Interceptor, depth: nat, request: Request, continuation: Handler)
    requires i.maxCalls <= 1
    ensures var trace := Around(i, depth, request, continuation).trace;
            || trace == [Enter(depth), Exit(depth)]
            || exists r :: trace == [Enter(depth)] + continuation(r).trace + [Exit(depth)]
  {
    if i.maxCalls == 1 && i.next(request, []).Call? {
      var r := i.next(request, []).request;
      var inner := continuation(r);
      assert Perform(i, request, [inner.response], continuation).trace == [];
      assert Perform(i, request, [], continuation).trace == inner.trace + [];
    }
  }

  /** How deep a run of the chain gets: k interceptors entered, the handler reached or not. */
  ghost predicate Shaped(trace: seq<Event>, depth: nat, k: nat, n: nat) {
    k <= n && (trace == Nest(depth, k, []) || (k == n && trace == Nest(depth, k, [Handled])))
  }

  lemma {:induction false} FoldShape(xs: seq<Interceptor>, depth: nat, request: Request, handler: Handler)
    returns (k: nat)
    requires Marks(handler) && forall i | 0 <= i < |xs| :: xs[i].maxCalls <= 1
    ensures Shaped(Folded(xs, depth, handler)(request).trace, depth, k, |xs|)
    ensures k == 0 ==> xs == []
    decreases |xs|
  {
    if xs == [] {
      k := 0;
      assert Folded(xs, depth, handler)(request).trace == [Handled];
    } else {
      var inner := Folded(xs[1..], depth + 1, handler);
      var trace := Folded(xs, depth, handler)(request).trace;
      AroundOnce(xs[0], depth, request, inner);
      if trace == [Enter(depth), Exit(depth)] {
        k := 1;
        assert Nest(depth + 1, 0, []) == [];
      } else {
        var r :| trace == [Enter(depth)] + inner(r).trace + [Exit(depth)];
        var k' := FoldShape(xs[1..], depth + 1, r, handler);
        k := k' + 1;
      }
    }
  }

  /**
   If each interceptor calls its continuation at most once, a run enters a prefix of the list
   in order, exits exactly those in reverse, and reaches the handler at most once, and then
   only through all of them.
   */
  lemma EntriesThenExits(xs: seq<Interceptor>, request: Request, handler: Handler)
    requires Marks(handler) && forall i | 0 <= i < |xs| :: xs[i].maxCalls <= 1
    ensures exists k: nat, core ::
              && k <= |xs|
              && (core == [] || (core == [Handled] && k == |xs|))
              && Chain(xs, 0, request, handler).trace == Entries(0, k) + core + Exits(0, k)
  {
    var k := FoldShape(xs, 0, request, handler);
    ChainIsFold(xs, 0, request, handler);
    NestIsLinear(0, k, []);
    NestIsLinear(0, k, [Handled]);
    var trace := Chain(xs, 0, request, handler).trace;
    assert trace == Entries(0, k) + [] + Exits(0, k) || trace == Entries(0, k) + [Handled] + Exits(0, k);
  }
}
