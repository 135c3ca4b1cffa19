/**
 The asynchronous processor: submitters, a stopper and workers around one bounded channel,
 each lock-protected call or channel operation being one atomic step. The client's and the
 server's processors are the same code.
 */
module AsyncProcessor {

  datatype Task = Task(id: string, kind: string)

  datatype Worker = Idle | Busy(task: Task) | Gone

  datatype Processor = Processor(
    workerCount: nat, capacity: nat,
    running: bool,
    closed: bool, queue: seq<Task>,       // the channel
    workers: seq<Worker>,                 // the goroutines started so far
    accepted: seq<Task>, taken: seq<Task>, // history: what entered and what left the channel
    panicked: bool)                       // a send on, or a close of, a closed channel

  datatype Action = Start | Stop | Submit(task: Task) | Take(worker: nat) | Finish(worker: nat)

  function Created(workerCount: nat, capacity: nat): Processor {
    Processor(workerCount, capacity, false, false, [], [], [], [], false)
  }

  function Step(p: Processor, a: Action): Processor {
    if p.panicked then p
    else
      match a
      case Start =>
        if p.running then p
        else p.(running := true, workers := p.workers + seq(p.workerCount, i => Idle))
      case Stop =>
        if !p.running then p
        else if p.closed then p.(running := false, panicked := true)
        else p.(running := false, closed := true)
      case Submit(task) =>
        if !p.running then p
        else if p.closed then p.(panicked := true)
        else if |p.queue| < p.capacity then p.(queue := p.queue + [task], accepted := p.accepted + [task])
        else p
      case Take(w) =>
        if w >= |p.workers| || p.workers[w] != Idle then p
        else if p.queue != [] then
          p.(queue := p.queue[1..], taken := p.taken + [p.queue[0]], workers := p.workers[w := Busy(p.queue[0])])
        else if p.closed then p.(workers := p.workers[w := Gone])
        else p
      case Finish(w) =>
        if w < |p.workers| && p.workers[w].Busy? then p.(workers := p.workers[w := Idle]) else p
  }

  /** The error a submitter sees, if any. */
  predicate Accepts(p: Processor) {
    !p.panicked && p.running && !p.closed && |p.queue| < p.capacity
  }

  function Run(p: Processor, actions: seq<Action>): Processor {
    if actions == [] then p
    else Step(Run(p, actions[..|actions| - 1]), actions[|actions| - 1])
  }

  // ---- Safety over every interleaving ------------------------------------------------

  ghost predicate Sound(p: Processor) {
    && |p.queue| <= p.capacity
    && p.accepted == p.taken + p.queue                                    // FIFO, each taken once
    && (forall w | 0 <= w < |p.workers| && p.workers[w].Busy? :: p.workers[w].task in p.taken)
    && (forall w | 0 <= w < |p.workers| && p.workers[w].Gone? :: p.closed && p.queue == [])
    && (p.running || p.closed ==> |p.workers| >= p.workerCount)
  }

  lemma StepSound(p: Processor, a: Action)
    requires Sound(p)
    ensures Sound(Step(p, a))
    ensures Step(p, a).workerCount == p.workerCount && Step(p, a).capacity == p.capacity
  {
    match a
    case Start =>
    case Stop =>
    case Submit(task) => assert p.taken + (p.queue + [task]) == (p.taken + p.queue) + [task];
    case Take(w) =>
      if p.queue != [] {
        assert (p.taken + [p.queue[0]]) + p.queue[1..] == p.taken + p.queue;
      }
    case Finish(w) =>
  }

  /**
   Over every interleaving, restarts and panics included: the queue stays within capacity,
   and what was accepted is what was taken followed by the queue.
   */
  lemma {:induction false} AlwaysSound(workerCount: nat, capacity: nat, actions: seq<Action>)
    ensures var p := Run(Created(workerCount, capacity), actions);
            Sound(p) && p.workerCount == workerCount && p.capacity == capacity
  {
    if actions != [] {
      AlwaysSound(workerCount, capacity, actions[..|actions| - 1]);
      StepSound(Run(Created(workerCount, capacity), actions[..|actions| - 1]), actions[|actions| - 1]);
    }
  }

  // ---- When the channel is misused ---------------------------------------------------

  /** How much of the pattern Start, Stop, Start, (Stop or Submit) has been seen, in order. */
  function Phase(actions: seq<Action>): (n: nat)
    ensures n <= 4
  {
    if actions == [] then 0
    else
      var n := Phase(actions[..|actions| - 1]);
      if n < 4 && Advances(actions[|actions| - 1], n) then n + 1 else n
  }

  predicate Advances(a: Action, n: nat) {
    if n == 0 || n == 2 then a == Start
    else if n == 1 then a == Stop
    else n == 3 && (a == Stop || a.Submit?)
  }

  lemma {:induction false} PhaseIsState(workerCount: nat, capacity: nat, actions: seq<Action>)
    ensures var p, n := Run(Created(workerCount, capacity), actions), Phase(actions);
            && (p.panicked <==> n == 4)
            && (n < 4 ==> (p.running <==> n == 1 || n == 3) && (p.closed <==> n >= 2))
  {
    if actions != [] {
      PhaseIsState(workerCount, capacity, actions[..|actions| - 1]);
    }
  }

  lemma {:induction false} PhaseGrows(actions: seq<Action>, m: nat)
    requires m <= |actions|
    ensures Phase(actions[..m]) <= Phase(actions)
    decreases |actions|
  {
    if m < |actions| {
      var before := actions[..|actions| - 1];
      PhaseGrows(before, m);
      assert before[..m] == actions[..m];
    } else {
      assert actions[..m] == actions;
    }
  }

  /** An action that fits the next phase, anywhere after phase n was reached, takes it past n. */
  lemma PhasePast(actions: seq<Action>, m: nat, i: nat, n: nat)
    requires m <= i < |actions| && n < 4 && Phase(actions[..m]) >= n && Advances(actions[i], n)
    ensures Phase(actions[..i + 1]) >= n + 1
  {
    PhaseGrows(actions[..i], m);
    assert actions[..i][..m] == actions[..m];
    assert actions[..i + 1][..i] == actions[..i];
  }

  lemma {:induction false} PhaseWitness(actions: seq<Action>) returns (at: seq<nat>)
    ensures |at| == Phase(actions)
    ensures forall q | 0 <= q < |at| :: at[q] < |actions| && Advances(actions[at[q]], q)
    ensures forall q, r | 0 <= q < r < |at| :: at[q] < at[r]
  {
    if actions == [] {
      at := [];
    } else {
      var before := actions[..|actions| - 1];
      at := PhaseWitness(before);
      assert forall q | 0 <= q < |at| :: before[at[q]] == actions[at[q]];
      if Phase(actions) > Phase(before) {
        at := at + [|actions| - 1];
      }
    }
  }

  /** Start, then Stop, then Start again, then another Stop or a Submit. */
  ghost predicate PatternAt(actions: seq<Action>, i: nat, j: nat, k: nat, l: nat) {
    && i < j < k < l < |actions|
    && actions[i] == Start && actions[j] == Stop && actions[k] == Start
    && (actions[l] == Stop || actions[l].Submit?)
  }

  ghost predicate UsedAfterRestart(actions: seq<Action>) {
    exists i, j, k, l :: PatternAt(actions, i, j, k, l)
  }

  lemma PatternReachesPanic(actions: seq<Action>, i: nat, j: nat, k: nat, l: nat)
    requires PatternAt(actions, i, j, k, l)
    ensures Phase(actions) == 4
  {
    PhasePast(actions, 0, i, 0);
    PhasePast(actions, i + 1, j, 1);
    PhasePast(actions, j + 1, k, 2);
    PhasePast(actions, k + 1, l, 3);
    PhaseGrows(actions, l + 1);
  }

  lemma PanicNeedsPattern(actions: seq<Action>)
    requires Phase(actions) == 4
    ensures UsedAfterRestart(actions)
  {
    var at := PhaseWitness(actions);
    assert PatternAt(actions, at[0], at[1], at[2], at[3]);
  }

  /**
   A run sends on, or closes, a closed channel if and only if the processor was restarted
   after a stop and then used or stopped again. Without a Start after a Stop it never does.
   */
  lemma PanicsExactly(workerCount: nat, capacity: nat, actions: seq<Action>)
    ensures Run(Created(workerCount, capacity), actions).panicked <==> UsedAfterRestart(actions)
  {
    PhaseIsState(workerCount, capacity, actions);
    if UsedAfterRestart(actions) {
      var i, j, k, l :| PatternAt(actions, i, j, k, l);
      PatternReachesPanic(actions, i, j, k, l);
    }
    if Phase(actions) == 4 {
      PanicNeedsPattern(actions);
    }
  }

  // ---- What submitters and workers see -----------------------------------------------

  /** The tasks whose submitters were told that they were accepted, in the order of the calls. */
  function Granted(start: Processor, actions: seq<Action>): seq<Task> {
    if actions == [] then []
    else
      var before, last := actions[..|actions| - 1], actions[|actions| - 1];
      Granted(start, before) + if last.Submit? && Accepts(Run(start, before)) then [last.task] else []
  }

  /** The tasks that workers were seen to begin, in the order in which they began. */
  function Begun(start: Processor, actions: seq<Action>): seq<Task> {
    if actions == [] then []
    else
      var before, last := actions[..|actions| - 1], actions[|actions| - 1];
      Begun(start, before) + if last.Take? then Begins(Run(start, before), Run(start, actions), last.worker) else []
  }

  /** What worker `w` holds after a step that it did not hold before. */
  function Begins(p: Processor, p': Processor, w: nat): seq<Task> {
    if w < |p'.workers| && p'.workers[w].Busy? && !(w < |p.workers| && p.workers[w].Busy?) then [p'.workers[w].task]
    else []
  }

  /** Started, and not stopped since the first start. */
  ghost predicate Operating(actions: seq<Action>) {
    && Start in actions
    && forall i, j | 0 <= i < j < |actions| && actions[i] == Start :: actions[j] != Stop
  }

  lemma StartedMeans(actions: seq<Action>)
    ensures Start in actions <==> exists i :: 0 <= i < |actions| && actions[i] == Start
  {
  }

  lemma OperatingStep(before: seq<Action>, last: Action)
    ensures Start in before + [last] <==> Start in before || last == Start
    ensures Operating(before + [last]) <==>
            if last == Stop then false else if last == Start then Start !in before || Operating(before)
            else Operating(before)
  {
    var all := before + [last];
    assert all[|before|] == last && forall i | 0 <= i < |before| :: all[i] == before[i];
    if Operating(all) && Start in before {
      var i :| 0 <= i < |before| && before[i] == Start;
      assert all[i] == Start;
    }
  }

  /** Phase 0 is before the first start, phase 1 is operating. */
  lemma {:induction false} PhaseIsOperating(actions: seq<Action>)
    ensures Phase(actions) == 0 <==> Start !in actions
    ensures Phase(actions) == 1 <==> Operating(actions)
  {
    if actions != [] {
      var before, last := actions[..|actions| - 1], actions[|actions| - 1];
      PhaseIsOperating(before);
      assert actions == before + [last];
      OperatingStep(before, last);
    }
  }

  lemma ChannelStep(p: Processor, a: Action, granted: seq<Task>, begun: seq<Task>)
    requires p.accepted == granted == begun + p.queue && p.taken == begun
    ensures var p' := Step(p, a);
            && p'.accepted == granted + (if a.Submit? && Accepts(p) then [a.task] else [])
            && p'.taken == begun + (if a.Take? then Begins(p, p', a.worker) else [])
            && p'.accepted == p'.taken + p'.queue
  {
    match a
    case Submit(task) => assert begun + (p.queue + [task]) == (begun + p.queue) + [task];
    case Take(w) =>
      if p.queue != [] {
        assert (begun + [p.queue[0]]) + p.queue[1..] == begun + p.queue;
      }
    case _ =>
  }

  /**
   Nothing is lost, invented or reordered between submitters and workers. Over every run, what
   the workers have begun and what the channel still holds are together exactly the tasks whose
   submitters were told that they were accepted, in the order of those calls.
   */
  lemma {:induction false} GrantedIsKept(workerCount: nat, capacity: nat, actions: seq<Action>)
    ensures var start := Created(workerCount, capacity);
            var p := Run(start, actions);
            && Granted(start, actions) == Begun(start, actions) + p.queue
            && p.accepted == Granted(start, actions) && p.taken == Begun(start, actions)
  {
    var start := Created(workerCount, capacity);
    if actions == [] {
      assert start.accepted == [] && start.taken + start.queue == [];
    } else {
      var before, last := actions[..|actions| - 1], actions[|actions| - 1];
      GrantedIsKept(workerCount, capacity, before);
      ChannelStep(Run(start, before), last, Granted(start, before), Begun(start, before));
    }
  }

  /**
   When a submitter is told yes, after any run: if and only if the processor has been started
   and not stopped since, and fewer tasks wait, accepted and not yet begun, than the channel holds.
   */
  lemma SubmitExactly(workerCount: nat, capacity: nat, actions: seq<Action>)
    ensures var start := Created(workerCount, capacity);
            Accepts(Run(start, actions)) <==>
              Operating(actions) && |Granted(start, actions)| - |Begun(start, actions)| < capacity
  {
    AlwaysSound(workerCount, capacity, actions);
    GrantedIsKept(workerCount, capacity, actions);
    PhaseIsState(workerCount, capacity, actions);
    PhaseIsOperating(actions);
  }

  /**
   What an idle worker's receive does, after any run that has not panicked: it begins the oldest
   waiting task if there is one, ends if there is none and the processor was stopped, and waits otherwise.
   */
  lemma ReceiveExactly(workerCount: nat, capacity: nat, actions: seq<Action>, w: nat)
    requires var p := Run(Created(workerCount, capacity), actions);
             !p.panicked && w < |p.workers| && p.workers[w] == Idle
    ensures var start := Created(workerCount, capacity);
            var granted, begun := Granted(start, actions), Begun(start, actions);
            var p' := Step(Run(start, actions), Take(w));
            && |p'.workers| == |Run(start, actions).workers|
            && p'.workers[w] == if |begun| < |granted| then Busy(granted[|begun|])
                                else if Operating(actions) then Idle else Gone
  {
    var start := Created(workerCount, capacity);
    GrantedIsKept(workerCount, capacity, actions);
    PhaseIsState(workerCount, capacity, actions);
    PhaseIsOperating(actions);
    WorkersSpawned(workerCount, capacity, actions);
  }

  /** How many workers there are: none before the first start, and one lot for each start that was not idle. */
  lemma {:induction false} WorkersSpawned(workerCount: nat, capacity: nat, actions: seq<Action>)
    ensures var n, lots := |Run(Created(workerCount, capacity), actions).workers|, Phase(actions);
            n == if lots == 0 then 0 else if lots <= 2 then workerCount else workerCount + workerCount
    ensures Start !in actions ==> Run(Created(workerCount, capacity), actions).workers == []
    ensures Operating(actions) ==> |Run(Created(workerCount, capacity), actions).workers| == workerCount
  {
    PhaseIsOperating(actions);
    if actions != [] {
      var before := actions[..|actions| - 1];
      WorkersSpawned(workerCount, capacity, before);
      PhaseIsState(workerCount, capacity, before);
      AlwaysSound(workerCount, capacity, before);
    }
  }

  // ---- Draining after a stop ---------------------------------------------------------

  ghost predicate Stopped(p: Processor) {
    Sound(p) && p.closed && !p.running && !p.panicked
  }

  function Load(w: Worker): nat {
    match w case Idle => 1 case Busy(_) => 2 case Gone => 0
  }

  function Loads(ws: seq<Worker>): nat {
    if ws == [] then 0 else Loads(ws[..|ws| - 1]) + Load(ws[|ws| - 1])
  }

  /** Worker steps still possible, at most. */
  function Work(p: Processor): nat {
    3 * |p.queue| + Loads(p.workers)
  }

  lemma {:induction false} LoadsUpdate(ws: seq<Worker>, w: nat, to: Worker)
    requires w < |ws|
    ensures Loads(ws[w := to]) == Loads(ws) - Load(ws[w]) + Load(to)
  {
    var n := |ws| - 1;
    if w < n {
      LoadsUpdate(ws[..n], w, to);
      assert ws[w := to][..n] == ws[..n][w := to];
    } else {
      assert ws[w := to][..n] == ws[..n];
    }
  }

  /** After a stop no action but a restart changes anything without using up some work. */
  lemma WorkDecreases(p: Processor, a: Action)
    requires Stopped(p) && a != Start
    ensures Stopped(Step(p, a)) && Step(p, a).accepted == p.accepted
    ensures Step(p, a) == p || Work(Step(p, a)) < Work(p)
  {
    StepSound(p, a);
    match a
    case Take(w) =>
      if w < |p.workers| {
        LoadsUpdate(p.workers, w, Gone);
        if p.queue != [] {
          LoadsUpdate(p.workers, w, Busy(p.queue[0]));
        }
      }
    case Finish(w) =>
      if w < |p.workers| {
        LoadsUpdate(p.workers, w, Idle);
      }
    case _ =>
  }

  /** How many actions of a run changed the state. */
  function Effective(p: Processor, actions: seq<Action>): nat {
    if actions == [] then 0
    else
      var before := actions[..|actions| - 1];
      Effective(p, before) + if Run(p, actions) != Run(p, before) then 1 else 0
  }

  lemma {:induction false} DrainIsBounded(p: Processor, actions: seq<Action>)
    requires Stopped(p) && Start !in actions
    ensures var q := Run(p, actions);
            && Stopped(q) && q.accepted == p.accepted && q.workerCount == p.workerCount
            && Effective(p, actions) + Work(q) <= Work(p)
  {
    if actions != [] {
      var before := actions[..|actions| - 1];
      DrainIsBounded(p, before);
      WorkDecreases(Run(p, before), actions[|actions| - 1]);
      StepSound(Run(p, before), actions[|actions| - 1]);
    }
  }

  /** No worker can move. */
  ghost predicate Quiescent(p: Processor) {
    forall w: nat :: Step(p, Take(w)) == p && Step(p, Finish(w)) == p
  }

  lemma LiveWorkerCanMove(p: Processor, w: nat)
    requires Stopped(p) && w < |p.workers| && p.workers[w] != Gone
    ensures Step(p, Take(w)) != p || Step(p, Finish(w)) != p
  {
    if p.workers[w] == Idle {
      assert Step(p, Take(w)).workers[w] != Idle;
    } else {
      assert Step(p, Finish(w)).workers[w] == Idle;
    }
  }

  lemma QuiescentIsDrained(p: Processor)
    requires Stopped(p) && p.workerCount >= 1 && Quiescent(p)
    ensures p.queue == [] && p.taken == p.accepted
    ensures forall w | 0 <= w < |p.workers| :: p.workers[w] == Gone
  {
    forall w: nat | w < |p.workers| ensures p.workers[w] == Gone {
      if p.workers[w] != Gone {
        LiveWorkerCanMove(p, w);
      }
    }
    assert p.workers[0] == Gone;
    assert p.taken + [] == p.taken;
  }

  /**
   After a stop, with at least one worker and no restart, every accepted task is taken: the
   workers can make only finitely many moves, in any order and mixed with any late submits,
   and when none is left to make nothing accepted is left in the queue.
   */
  lemma EveryAcceptedTaskIsTaken(workerCount: nat, capacity: nat, before: seq<Action>, after: seq<Action>)
    requires workerCount >= 1 && Start !in after
    requires var p := Run(Created(workerCount, capacity), before); p.closed && !p.running && !p.panicked
    ensures var p := Run(Created(workerCount, capacity), before);
            && Effective(p, after) <= Work(p)
            && !Run(p, after).panicked && Run(p, after).accepted == p.accepted
            && (Quiescent(Run(p, after)) ==> Run(p, after).queue == [] && Run(p, after).taken == p.accepted)
  {
    var p := Run(Created(workerCount, capacity), before);
    AlwaysSound(workerCount, capacity, before);
    DrainIsBounded(p, after);
    if Quiescent(Run(p, after)) {
      QuiescentIsDrained(Run(p, after));
    }
  }

  // ---- The processor as it runs ------------------------------------------------------

  class Queue {
    const workerCount: nat
    const capacity: nat
    var running: bool
    var closed: bool
    var queue: seq<Task>
    var workers: seq<Worker>
    var panicked: bool
    ghost var accepted: seq<Task>
    ghost var taken: seq<Task>

    ghost function State(): Processor
      reads this
    {
      Processor(workerCount, capacity, running, closed, queue, workers, accepted, taken, panicked)
    }

    constructor (workerCount: nat, capacity: nat)
      requires capacity >= 1
      ensures State() == Created(workerCount, capacity)
    {
      this.workerCount, this.capacity := workerCount, capacity;
      running, closed, panicked := false, false, false;
      queue, workers, accepted, taken := [], [], [], [];
    }

    method Start()
      requires !panicked
      modifies this
      ensures State() == Step(old(State()), Action.Start)
    {
      if running {
        return;
      }
      running := true;
      for i := 0 to workerCount
        invariant workers == old(workers) + seq(i, j => Idle)
        invariant State() == old(State()).(running := true, workers := workers)
      {
        workers := workers + [Idle];
      }
    }

    method Stop()
      requires !panicked
      modifies this
      ensures State() == Step(old(State()), Action.Stop)
    {
      if !running {
        return;
      }
      running := false;
      if closed {
        panicked := true;
      }
      closed := true;
    }

    method SubmitTask(task: Task) returns (ok: bool)
      requires !panicked
      modifies this
      ensures ok == Accepts(old(State()))
      ensures State() == Step(old(State()), Submit(task))
    {
      if !running {
        return false;
      }
      if closed {
        panicked := true;
        return false;
      }
      if |queue| < capacity {
        queue, accepted := queue + [task], accepted + [task];
        return true;
      }
      return false;
    }

    /** One turn of a worker's receive loop: a task, the end of the loop, or a wait. */
    method Receive(worker: nat)
      requires !panicked
      modifies this
      ensures State() == Step(old(State()), Take(worker))
    {
      if worker >= |workers| || workers[worker] != Idle {
        return;
      }
      if |queue| > 0 {
        workers := workers[worker := Busy(queue[0])];
        queue, taken := queue[1..], taken + [queue[0]];
      } else if closed {
        workers := workers[worker := Gone];
      }
    }

    /** The handler of a worker's task returns. */
    method HandlerReturns(worker: nat)
      requires !panicked
      modifies this`workers
      ensures State() == Step(old(State()), Finish(worker))
    {
      if worker < |workers| && workers[worker].Busy? {
        workers := workers[worker := Idle];
      }
    }
  }
}
