/**
 The worker pool of obs/bulktasks.py as a transition system.

 The clients of the pool and its workers run concurrently; a step is one atomic
 action on what they share: a put, a get, a call of a task's function, the locked
 completion of a future, and the single statements of `shutdown`.  A run is any
 sequence of enabled steps, so a theorem over runs speaks of every interleaving.
 */
module ThreadPool {

  /**
   A submitted task.  `future` tells submit from execute; `raises` whether its function
   raises, which a task with a future records and one without passes on; `callbackRaises`
   whether the callback that its future calls on the worker raises.
   */
  datatype Task = Task(id: nat, future: bool, raises: bool, callbackRaises: bool) {
    /** An exception leaves `_run`, and its thread ends. */
    predicate Kills() {
      if future then callbackRaises else raises
    }
  }

  datatype Item = Job(task: Task) | Sentinel

  /** Where a worker thread stands in `_run`. */
  datatype Worker =
    | Waiting                    // in _task_queue.get()
    | Running(task: Task)        // about to call the function
    | Finishing(task: Task)      // about to complete the future and call its callback
    | Exited                     // it has taken a sentinel
    | Died                       // an exception has left _run
  {
    predicate Ended() {
      Exited? || Died?
    }
  }

  /** The first k threads have ended. */
  predicate EndedBefore(workers: seq<Worker>, k: nat) {
    forall w {:trigger workers[w]} :: 0 <= w < k && w < |workers| ==> workers[w].Ended()
  }

  /** Where the one caller of `shutdown` stands. */
  datatype Phase =
    | Open                       // shutdown not yet called
    | Putting                    // at the head of the while loop
    | Decrementing               // between the put and the decrement
    | Joining(next: nat)         // about to join thread number next
    | Returned

  /** The ghost components `ran` and `completed` record what has happened. */
  datatype Pool = Pool(
    capacity: int, wait: bool, alive: nat,
    queue: seq<Item>, workers: seq<Worker>, phase: Phase,
    pending: set<Task>, ran: multiset<Task>, completed: set<Task>
  ) {
    /** queue.Queue blocks when full; a capacity of 0 or less is unbounded. */
    predicate Full() {
      0 < capacity <= |queue|
    }

    predicate AllEnded() {
      EndedBefore(workers, |workers|)
    }
  }

  datatype Step =
    | Put(task: Task)            // the put of an execute or a submit
    | Get(w: nat)
    | Call(w: nat)
    | Complete(w: nat)
    | BeginShutdown
    | PutSentinel
    | Decrement
    | BeginJoin
    | Join

  /** A pool as constructed, with the tasks its clients are going to put. */
  function Init(threadSize: nat, capacity: int, wait: bool, tasks: set<Task>): Pool {
    Pool(capacity, wait, threadSize, [], seq(threadSize, _ => Waiting), Open, tasks, multiset{}, {})
  }

  predicate Enabled(p: Pool, s: Step) {
    match s
    case Put(t) => t in p.pending && !p.Full()
    case Get(w) => w < |p.workers| && p.workers[w].Waiting? && p.queue != []
    case Call(w) => w < |p.workers| && p.workers[w].Running?
    case Complete(w) => w < |p.workers| && p.workers[w].Finishing?
    case BeginShutdown => p.phase.Open? && p.pending == {}
    case PutSentinel => p.phase.Putting? && p.alive > 0 && !p.Full()
    case Decrement => p.phase.Decrementing? && p.alive > 0
    case BeginJoin => p.phase.Putting? && p.alive == 0
    case Join => p.phase.Joining? && p.phase.next < |p.workers| && p.workers[p.phase.next].Ended()
  }

  /** Joining(n) with every thread joined is a return. */
  function JoinAt(n: nat, threads: nat): Phase {
    if n == threads then Returned else Joining(n)
  }

  function Next(p: Pool, s: Step): Pool
    requires Enabled(p, s)
  {
    match s
    case Put(t) => p.(pending := p.pending - {t}, queue := p.queue + [Job(t)])
    case Get(w) =>
      var taken := match p.queue[0] case Job(t) => Running(t) case Sentinel => Exited;
      p.(queue := p.queue[1..], workers := p.workers[w := taken])
    case Call(w) =>
      var t := p.workers[w].task;
      var after := if t.future then Finishing(t) else if t.raises then Died else Waiting;
      p.(workers := p.workers[w := after], ran := p.ran + multiset{t})
    case Complete(w) =>
      var t := p.workers[w].task;
      p.(workers := p.workers[w := if t.callbackRaises then Died else Waiting], completed := p.completed + {t})
    case BeginShutdown => p.(phase := Putting)
    case PutSentinel => p.(queue := p.queue + [Sentinel], phase := Decrementing)
    case Decrement => p.(alive := p.alive - 1, phase := Putting)
    case BeginJoin => p.(phase := if p.wait then JoinAt(0, |p.workers|) else Returned)
    case Join => p.(phase := JoinAt(p.phase.next + 1, |p.workers|))
  }

  // -------------------------------------------------------------------- runs

  predicate IsRun(p: Pool, steps: seq<Step>)
    decreases |steps|
  {
    steps == [] || (Enabled(p, steps[0]) && IsRun(Next(p, steps[0]), steps[1..]))
  }

  function After(p: Pool, steps: seq<Step>): Pool
    requires IsRun(p, steps)
    decreases |steps|
  {
    if steps == [] then p else After(Next(p, steps[0]), steps[1..])
  }

  /** Nothing can happen any more. */
  ghost predicate Stopped(p: Pool) {
    forall s :: !Enabled(p, s)
  }

  // --------------------------------------------------- what can happen at once

  /** The queue has room for one item more. */
  predicate HasRoom(p: Pool) {
    p.capacity <= 0 || |p.queue| < p.capacity
  }

  /**
   What can happen in a state, whoever else is doing what.  A client can put any of its
   tasks as long as the queue has room; every waiting thread can take the head of the
   queue; every busy one can go on, and all this next to a caller of shutdown.
   */
  lemma Possible(p: Pool)
    ensures forall t :: IsRun(p, [Put(t)]) <==> t in p.pending && HasRoom(p)
    ensures forall w: nat :: IsRun(p, [Get(w)]) <==> w < |p.workers| && p.workers[w] == Waiting && |p.queue| > 0
    ensures forall w: nat :: IsRun(p, [Call(w)]) <==> w < |p.workers| && p.workers[w].Running?
    ensures forall w: nat :: IsRun(p, [Complete(w)]) <==> w < |p.workers| && p.workers[w].Finishing?
    ensures IsRun(p, [BeginShutdown]) <==> p.phase == Open && p.pending == {}
    ensures IsRun(p, [PutSentinel]) <==> p.phase == Putting && p.alive > 0 && HasRoom(p)
    ensures IsRun(p, [Decrement]) <==> p.phase == Decrementing && p.alive > 0
    ensures IsRun(p, [BeginJoin]) <==> p.phase == Putting && p.alive == 0
    ensures IsRun(p, [Join]) <==>
              && p.phase.Joining? && p.phase.next < |p.workers|
              && (p.workers[p.phase.next] == Exited || p.workers[p.phase.next] == Died)
  {
    forall s ensures IsRun(p, [s]) <==> Enabled(p, s) { OneStep(p, s); }
  }

  lemma OneStep(p: Pool, s: Step)
    ensures IsRun(p, [s]) <==> Enabled(p, s)
    ensures Enabled(p, s) ==> After(p, [s]) == Next(p, s)
  {
    if Enabled(p, s) { assert IsRun(Next(p, s), [s][1..]); }
  }

  /** Two threads take one item each, whichever is first. */
  lemma TwoGets(p: Pool, v: nat, w: nat)
    requires v < |p.workers| && w < |p.workers| && v != w && |p.queue| >= 2
    requires p.workers[v] == Waiting && p.workers[w] == Waiting
    ensures IsRun(p, [Get(v), Get(w)])
  {
    OneStep(Next(p, Get(v)), Get(w));
    assert [Get(v), Get(w)][1..] == [Get(w)];
  }

  /** Two threads call their functions at the same time: both orders are runs, with one outcome. */
  lemma TwoCalls(p: Pool, v: nat, w: nat)
    requires v < |p.workers| && w < |p.workers| && v != w
    requires p.workers[v].Running? && p.workers[w].Running?
    ensures IsRun(p, [Call(v), Call(w)]) && IsRun(p, [Call(w), Call(v)])
    ensures After(p, [Call(v), Call(w)]) == After(p, [Call(w), Call(v)])
  {
    var pv, pw := Next(p, Call(v)), Next(p, Call(w));
    OneStep(pv, Call(w));
    OneStep(pw, Call(v));
    assert [Call(v), Call(w)][1..] == [Call(w)] && [Call(w), Call(v)][1..] == [Call(v)];
    assert Next(pv, Call(w)).workers == Next(pw, Call(v)).workers;
    assert Next(pv, Call(w)).ran == Next(pw, Call(v)).ran;
  }

  /** The first k threads hold the first k of some tasks, and the others wait. */
  ghost predicate Holding(p: Pool, n: nat, ts: seq<Task>, k: nat) {
    && k <= |ts| && |p.workers| == n && p.queue == []
    && (forall w: nat :: w < n ==> p.workers[w] == if w < k then Running(ts[w]) else Waiting)
    && (forall i: nat :: k <= i < |ts| ==> ts[i] in p.pending)
  }

  /** The clients have put some tasks, and the caller of shutdown has not moved. */
  ghost predicate TakenFrom(p: Pool, q: Pool, ts: seq<Task>) {
    && q.phase == p.phase && q.alive == p.alive && q.wait == p.wait && q.capacity == p.capacity
    && (forall t :: t in q.pending <==> t in p.pending && t !in ts)
  }

  /** One more is put and taken. */
  lemma HoldOne(p: Pool, n: nat, ts: seq<Task>, k: nat)
    requires Holding(p, n, ts, k) && k < |ts| <= n
    requires forall i, j :: 0 <= i < j < |ts| ==> ts[i] != ts[j]
    ensures Enabled(p, Put(ts[k])) && Enabled(Next(p, Put(ts[k])), Get(k))
    ensures var p2 := Next(Next(p, Put(ts[k])), Get(k));
            Holding(p2, n, ts, k + 1) && TakenFrom(p, p2, [ts[k]])
  {
    assert Next(p, Put(ts[k])).queue == [Job(ts[k])];
  }

  lemma {:induction false} HoldMore(p: Pool, n: nat, ts: seq<Task>, k: nat) returns (steps: seq<Step>)
    requires Holding(p, n, ts, k) && |ts| <= n
    requires forall i, j :: 0 <= i < j < |ts| ==> ts[i] != ts[j]
    ensures IsRun(p, steps) && Holding(After(p, steps), n, ts, |ts|) && TakenFrom(p, After(p, steps), ts[k..])
    decreases |ts| - k
  {
    steps := [];
    if k < |ts| {
      HoldOne(p, n, ts, k);
      var p2 := Next(Next(p, Put(ts[k])), Get(k));
      var rest := HoldMore(p2, n, ts, k + 1);
      assert ts[k..] == [ts[k]] + ts[k + 1..];
      assert ([Put(ts[k]), Get(k)] + rest)[1..] == [Get(k)] + rest;
      assert ([Get(k)] + rest)[1..] == rest;
      steps := [Put(ts[k]), Get(k)] + rest;
    }
  }

  /** All threads busy at once: thread w holds the w-th of any list of different tasks. */
  lemma AllBusy(n: nat, capacity: int, wait: bool, tasks: set<Task>, ts: seq<Task>) returns (steps: seq<Step>)
    requires |ts| == n && forall i :: 0 <= i < n ==> ts[i] in tasks
    requires forall i, j :: 0 <= i < j < n ==> ts[i] != ts[j]
    ensures var p := Init(n, capacity, wait, tasks);
            IsRun(p, steps) && After(p, steps).workers == seq(n, w requires 0 <= w < n => Running(ts[w]))
  {
    steps := HoldMore(Init(n, capacity, wait, tasks), n, ts, 0);
  }

  // --------------------------------------------------------------- invariant

  function Count<T(==)>(s: seq<T>, x: T): nat {
    multiset(s)[x]
  }

  /** No task is queued behind a sentinel. */
  ghost predicate JobsFirst(queue: seq<Item>) {
    forall i, j :: 0 <= i < j < |queue| && queue[i].Sentinel? ==> queue[j].Sentinel?
  }

  /** Every task is in exactly one place: not yet put, queued, taken, or called once. */
  ghost predicate Conserved(p: Pool, tasks: set<Task>) {
    forall t :: (if t in p.pending then 1 else 0) + Count(p.queue, Job(t))
                + Count(p.workers, Running(t)) + p.ran[t] == if t in tasks then 1 else 0
  }

  /** A called task with a future is completed, or else one worker is just about to. */
  ghost predicate FuturesServed(p: Pool) {
    forall t :: Count(p.workers, Finishing(t)) + (if t in p.completed then 1 else 0)
                == if t.future then p.ran[t] else 0
  }

  /** The bookkeeping of shutdown, and where its caller can be. */
  ghost predicate Protocol(p: Pool, threadSize: nat) {
    && |p.workers| == threadSize
    // threads not yet told to stop, sentinels on their way, and threads that took one
    && p.alive + Count(p.queue, Sentinel) + Count(p.workers, Exited)
       == threadSize + (if p.phase.Decrementing? then 1 else 0)
    && (p.phase.Decrementing? ==> p.alive > 0)
    && (p.phase.Joining? || p.phase.Returned? ==> p.alive == 0)
    && (p.phase.Joining? ==> p.phase.next < threadSize)
    && (p.phase.Open? ==> p.alive == threadSize)
    && (!p.phase.Open? ==> p.pending == {})
    // only threads that have ended are passed, and a return comes after all of them
    && (p.phase.Joining? ==> EndedBefore(p.workers, p.phase.next))
    && (p.phase.Returned? && p.wait ==> p.AllEnded())
  }

  /** The shape of the queue: jobs before sentinels, and none once a thread has exited. */
  ghost predicate QueueShape(p: Pool) {
    && JobsFirst(p.queue)
    && (Exited in p.workers ==> forall t :: Job(t) !in p.queue)
    && (0 < p.capacity ==> |p.queue| <= p.capacity)
  }

  ghost predicate Inv(p: Pool, threadSize: nat, tasks: set<Task>) {
    Protocol(p, threadSize) && QueueShape(p) && Conserved(p, tasks) && FuturesServed(p)
  }

  lemma InitInv(threadSize: nat, capacity: int, wait: bool, tasks: set<Task>)
    ensures Inv(Init(threadSize, capacity, wait, tasks), threadSize, tasks)
  {
    var p := Init(threadSize, capacity, wait, tasks);
    assert forall x: Worker :: x in p.workers ==> x == Waiting;
  }

  // ---------------------------------------------- each step keeps the invariant

  /** Replacing one element of a sequence in terms of counts. */
  lemma CountUpdate<T>(s: seq<T>, i: nat, v: T, x: T)
    requires i < |s|
    ensures Count(s[i := v], x) + (if s[i] == x then 1 else 0) == Count(s, x) + (if v == x then 1 else 0)
  {}

  lemma CountAppend<T>(s: seq<T>, v: T, x: T)
    ensures Count(s + [v], x) == Count(s, x) + if v == x then 1 else 0
  {}

  lemma CountTail<T>(s: seq<T>, x: T)
    requires s != []
    ensures Count(s, x) == Count(s[1..], x) + if s[0] == x then 1 else 0
  {
    assert s == [s[0]] + s[1..];
  }

  lemma PutInv(p: Pool, n: nat, tasks: set<Task>, t: Task)
    requires Inv(p, n, tasks) && Enabled(p, Put(t))
    ensures Inv(Next(p, Put(t)), n, tasks)
  {
    var p' := Next(p, Put(t));
    CountAppend(p.queue, Job(t), Sentinel);
    assert Count(p.queue, Sentinel) == 0;
    assert Sentinel !in p.queue;
    forall u ensures Count(p'.queue, Job(u)) == Count(p.queue, Job(u)) + if u == t then 1 else 0 {
      CountAppend(p.queue, Job(t), Job(u));
    }
  }

  lemma GetConserved(p: Pool, tasks: set<Task>, w: nat)
    requires Conserved(p, tasks) && Enabled(p, Get(w))
    ensures Conserved(Next(p, Get(w)), tasks)
  {
    var p', item := Next(p, Get(w)), p.queue[0];
    forall u
      ensures Count(p.queue, Job(u)) == Count(p'.queue, Job(u)) + if item == Job(u) then 1 else 0
      ensures Count(p'.workers, Running(u)) == Count(p.workers, Running(u)) + if item == Job(u) then 1 else 0
    {
      CountTail(p.queue, Job(u));
      CountUpdate(p.workers, w, p'.workers[w], Running(u));
    }
  }

  lemma GetInv(p: Pool, n: nat, tasks: set<Task>, w: nat)
    requires Inv(p, n, tasks) && Enabled(p, Get(w))
    ensures Inv(Next(p, Get(w)), n, tasks)
  {
    var p' := Next(p, Get(w));
    CountTail(p.queue, Sentinel);
    CountUpdate(p.workers, w, p'.workers[w], Exited);
    GetConserved(p, tasks, w);
    assert FuturesServed(p') by {
      forall t ensures Count(p'.workers, Finishing(t)) == Count(p.workers, Finishing(t)) {
        CountUpdate(p.workers, w, p'.workers[w], Finishing(t));
      }
    }
  }

  lemma CallConserved(p: Pool, tasks: set<Task>, w: nat)
    requires Conserved(p, tasks) && Enabled(p, Call(w))
    ensures Conserved(Next(p, Call(w)), tasks)
  {
    var p', t := Next(p, Call(w)), p.workers[w].task;
    forall u
      ensures Count(p'.workers, Running(u)) + (if u == t then 1 else 0) == Count(p.workers, Running(u))
    {
      CountUpdate(p.workers, w, p'.workers[w], Running(u));
    }
  }

  lemma CallServed(p: Pool, w: nat)
    requires FuturesServed(p) && Enabled(p, Call(w))
    ensures FuturesServed(Next(p, Call(w)))
  {
    var p', t := Next(p, Call(w)), p.workers[w].task;
    forall u
      ensures Count(p'.workers, Finishing(u))
              == Count(p.workers, Finishing(u)) + if u == t && t.future then 1 else 0
    {
      CountUpdate(p.workers, w, p'.workers[w], Finishing(u));
    }
  }

  lemma CallInv(p: Pool, n: nat, tasks: set<Task>, w: nat)
    requires Inv(p, n, tasks) && Enabled(p, Call(w))
    ensures Inv(Next(p, Call(w)), n, tasks)
  {
    CallConserved(p, tasks, w);
    CallServed(p, w);
    CountUpdate(p.workers, w, Next(p, Call(w)).workers[w], Exited);
  }

  lemma CompleteServed(p: Pool, tasks: set<Task>, w: nat)
    requires Conserved(p, tasks) && FuturesServed(p) && Enabled(p, Complete(w))
    ensures p.workers[w].task in tasks && p.workers[w].task.future && p.workers[w].task !in p.completed
    ensures FuturesServed(Next(p, Complete(w)))
  {
    var p', t := Next(p, Complete(w)), p.workers[w].task;
    assert p.workers[w] in p.workers;
    assert Count(p.workers, Finishing(t)) > 0 && p.ran[t] <= 1;
    forall u
      ensures Count(p'.workers, Finishing(u)) + (if u == t then 1 else 0) == Count(p.workers, Finishing(u))
    {
      CountUpdate(p.workers, w, p'.workers[w], Finishing(u));
    }
  }

  lemma CompleteInv(p: Pool, n: nat, tasks: set<Task>, w: nat)
    requires Inv(p, n, tasks) && Enabled(p, Complete(w))
    ensures Inv(Next(p, Complete(w)), n, tasks)
  {
    var p' := Next(p, Complete(w));
    CompleteServed(p, tasks, w);
    CountUpdate(p.workers, w, p'.workers[w], Exited);
    forall u ensures Count(p'.workers, Running(u)) == Count(p.workers, Running(u)) {
      CountUpdate(p.workers, w, p'.workers[w], Running(u));
    }
  }

  lemma PutSentinelInv(p: Pool, n: nat, tasks: set<Task>)
    requires Inv(p, n, tasks) && Enabled(p, PutSentinel)
    ensures Inv(Next(p, PutSentinel), n, tasks)
  {
    var p' := Next(p, PutSentinel);
    CountAppend(p.queue, Sentinel, Sentinel);
    assert Conserved(p', tasks) by {
      forall u ensures Count(p'.queue, Job(u)) == Count(p.queue, Job(u)) {
        CountAppend(p.queue, Sentinel, Job(u));
      }
    }
  }

  lemma ShutdownInv(p: Pool, n: nat, tasks: set<Task>, s: Step)
    requires Inv(p, n, tasks) && Enabled(p, s)
    requires s.BeginShutdown? || s.Decrement? || s.BeginJoin? || s.Join?
    ensures Inv(Next(p, s), n, tasks)
  {
    var p' := Next(p, s);
    assert p'.queue == p.queue && p'.workers == p.workers && p'.pending == p.pending;
    assert p'.ran == p.ran && p'.completed == p.completed;
  }

  lemma StepInv(p: Pool, n: nat, tasks: set<Task>, s: Step)
    requires Inv(p, n, tasks) && Enabled(p, s)
    ensures Inv(Next(p, s), n, tasks)
  {
    match s
    case Put(t) => PutInv(p, n, tasks, t);
    case Get(w) => GetInv(p, n, tasks, w);
    case Call(w) => CallInv(p, n, tasks, w);
    case Complete(w) => CompleteInv(p, n, tasks, w);
    case PutSentinel => PutSentinelInv(p, n, tasks);
    case _ => ShutdownInv(p, n, tasks, s);
  }

  lemma {:induction false} RunInv(p: Pool, n: nat, tasks: set<Task>, steps: seq<Step>)
    requires Inv(p, n, tasks) && IsRun(p, steps)
    ensures Inv(After(p, steps), n, tasks)
    decreases |steps|
  {
    if steps != [] {
      StepInv(p, n, tasks, steps[0]);
      RunInv(Next(p, steps[0]), n, tasks, steps[1..]);
    }
  }

  // ----------------------------------------------------------- every run ends

  function ItemWeight(i: Item): nat {
    if i.Job? then 3 else 1
  }

  function WorkerWeight(w: Worker): nat {
    if w.Running? then 2 else if w.Finishing? then 1 else 0
  }

  function QueueWeight(q: seq<Item>): nat {
    if q == [] then 0 else ItemWeight(q[0]) + QueueWeight(q[1..])
  }

  function WorkersWeight(ws: seq<Worker>): nat {
    if ws == [] then 0 else WorkerWeight(ws[0]) + WorkersWeight(ws[1..])
  }

  function PhaseWeight(phase: Phase, n: nat): nat {
    match phase
    case Open => n + 4
    case Putting => n + 3
    case Decrementing => n + 1
    case Joining(i) => if i < n then n - i else 0
    case Returned => 0
  }

  /** What is left to do: puts, queued items, busy workers, and the rest of shutdown. */
  function Measure(p: Pool): nat {
    4 * |p.pending| + QueueWeight(p.queue) + WorkersWeight(p.workers)
    + 3 * p.alive + PhaseWeight(p.phase, |p.workers|)
  }

  lemma {:induction false} QueueWeightAppend(q: seq<Item>, i: Item)
    ensures QueueWeight(q + [i]) == QueueWeight(q) + ItemWeight(i)
  {
    if q == [] {
      assert q + [i] == [i];
    } else {
      assert (q + [i])[1..] == q[1..] + [i];
      QueueWeightAppend(q[1..], i);
    }
  }

  lemma {:induction false} WorkersWeightUpdate(ws: seq<Worker>, w: nat, v: Worker)
    requires w < |ws|
    ensures WorkersWeight(ws[w := v]) + WorkerWeight(ws[w]) == WorkersWeight(ws) + WorkerWeight(v)
  {
    if w == 0 {
      assert ws[0 := v][1..] == ws[1..];
    } else {
      assert ws[w := v][1..] == ws[1..][w - 1 := v];
      WorkersWeightUpdate(ws[1..], w - 1, v);
    }
  }

  lemma StepDecreases(p: Pool, s: Step)
    requires Enabled(p, s)
    ensures Measure(Next(p, s)) < Measure(p)
  {
    match s
    case Put(t) =>
      QueueWeightAppend(p.queue, Job(t));
    case Get(w) => WorkersWeightUpdate(p.workers, w, Next(p, s).workers[w]);
    case Call(w) => WorkersWeightUpdate(p.workers, w, Next(p, s).workers[w]);
    case Complete(w) => WorkersWeightUpdate(p.workers, w, Next(p, s).workers[w]);
    case PutSentinel => QueueWeightAppend(p.queue, Sentinel);
    case _ =>
  }

  /** No interleaving goes on for ever. */
  lemma {:induction false} RunLength(p: Pool, steps: seq<Step>)
    requires IsRun(p, steps)
    ensures |steps| + Measure(After(p, steps)) <= Measure(p)
    decreases |steps|
  {
    if steps != [] {
      StepDecreases(p, steps[0]);
      RunLength(Next(p, steps[0]), steps[1..]);
    }
  }

  lemma {:induction false} RunAppend(p: Pool, a: seq<Step>, b: seq<Step>)
    requires IsRun(p, a) && IsRun(After(p, a), b)
    ensures IsRun(p, a + b) && After(p, a + b) == After(After(p, a), b)
    decreases |a|
  {
    if a == [] {
      assert a + b == b;
    } else {
      assert (a + b)[1..] == a[1..] + b;
      RunAppend(Next(p, a[0]), a[1..], b);
    }
  }

  /** Every run can be continued until nothing is enabled. */
  lemma RunToEnd(p: Pool) returns (steps: seq<Step>)
    ensures IsRun(p, steps) && Stopped(After(p, steps))
    decreases Measure(p)
  {
    steps := [];
    if !Stopped(p) {
      var s :| Enabled(p, s);
      StepDecreases(p, s);
      var rest := RunToEnd(Next(p, s));
      steps := [s] + rest;
    }
  }

  // ---------------------------------------------------------- threads that die

  function Killers(tasks: set<Task>): set<Task> {
    set t | t in tasks && t.Kills()
  }

  /** The killers that have ended their thread. */
  ghost function Spent(p: Pool, tasks: set<Task>): set<Task> {
    set t | t in Killers(tasks) && (if t.future then t in p.completed else t in p.ran)
  }

  /** Every dead thread has met its own killer. */
  ghost predicate Deaths(p: Pool, tasks: set<Task>) {
    Count(p.workers, Died) == |Spent(p, tasks)|
  }

  /** A task that a worker holds has not been called before. */
  lemma HeldNotRan(p: Pool, n: nat, tasks: set<Task>, w: nat)
    requires Inv(p, n, tasks) && w < |p.workers| && p.workers[w].Running?
    ensures p.workers[w].task in tasks && p.workers[w].task !in p.ran
  {
    assert p.workers[w] in p.workers;
    assert Count(p.workers, Running(p.workers[w].task)) > 0;
  }

  lemma CallDeaths(p: Pool, tasks: set<Task>, w: nat)
    requires Deaths(p, tasks) && Enabled(p, Call(w))
    requires p.workers[w].task in tasks && p.workers[w].task !in p.ran
    ensures Deaths(Next(p, Call(w)), tasks)
  {
    var p', t := Next(p, Call(w)), p.workers[w].task;
    var before, after := Spent(p, tasks), Spent(p', tasks);
    CountUpdate(p.workers, w, p'.workers[w], Died);
    forall u ensures u in after <==> u in before || (u == t && t.raises && !t.future) {
      assert u in p'.ran <==> u == t || u in p.ran;
    }
    assert after == if t.raises && !t.future then before + {t} else before;
  }

  lemma CompleteDeaths(p: Pool, tasks: set<Task>, w: nat)
    requires Deaths(p, tasks) && Enabled(p, Complete(w))
    requires p.workers[w].task in tasks && p.workers[w].task.future
    requires p.workers[w].task !in p.completed
    ensures Deaths(Next(p, Complete(w)), tasks)
  {
    var p', t := Next(p, Complete(w)), p.workers[w].task;
    var before, after := Spent(p, tasks), Spent(p', tasks);
    CountUpdate(p.workers, w, p'.workers[w], Died);
    forall u ensures u in after <==> u in before || (u == t && t.callbackRaises) {
      assert u in p'.completed <==> u == t || u in p.completed;
    }
    assert after == if t.callbackRaises then before + {t} else before;
  }

  lemma StepDeaths(p: Pool, n: nat, tasks: set<Task>, s: Step)
    requires Inv(p, n, tasks) && Deaths(p, tasks) && Enabled(p, s)
    ensures Deaths(Next(p, s), tasks)
    ensures Count(Next(p, s).workers, Died) >= Count(p.workers, Died)
  {
    if s.Call? {
      HeldNotRan(p, n, tasks, s.w);
      CallDeaths(p, tasks, s.w);
    } else if s.Complete? {
      CompleteServed(p, tasks, s.w);
      CompleteDeaths(p, tasks, s.w);
    } else {
      OtherDeaths(p, tasks, s);
    }
    DeathsGrow(p, s);
  }

  lemma DeathsGrow(p: Pool, s: Step)
    requires Enabled(p, s)
    ensures Count(Next(p, s).workers, Died) >= Count(p.workers, Died)
  {
    if s.Get? || s.Call? || s.Complete? { CountUpdate(p.workers, s.w, Next(p, s).workers[s.w], Died); }
  }

  lemma OtherDeaths(p: Pool, tasks: set<Task>, s: Step)
    requires Deaths(p, tasks) && Enabled(p, s) && !s.Call? && !s.Complete?
    ensures Deaths(Next(p, s), tasks)
  {
    if s.Get? { CountUpdate(p.workers, s.w, Next(p, s).workers[s.w], Died); }
    assert Spent(Next(p, s), tasks) == Spent(p, tasks);
  }

  lemma {:induction false} RunDeaths(p: Pool, n: nat, tasks: set<Task>, steps: seq<Step>)
    requires Inv(p, n, tasks) && Deaths(p, tasks) && IsRun(p, steps)
    ensures Deaths(After(p, steps), tasks)
    ensures Count(After(p, steps).workers, Died) >= Count(p.workers, Died)
    decreases |steps|
  {
    if steps != [] {
      StepInv(p, n, tasks, steps[0]);
      StepDeaths(p, n, tasks, steps[0]);
      RunDeaths(Next(p, steps[0]), n, tasks, steps[1..]);
    }
  }

  /** With every thread dead no further task is called. */
  lemma {:induction false} NobodyLeft(p: Pool, steps: seq<Step>)
    requires IsRun(p, steps) && forall w :: w in p.workers ==> w.Died?
    ensures After(p, steps).ran == p.ran
    decreases |steps|
  {
    if steps != [] {
      assert forall w: nat :: w < |p.workers| ==> p.workers[w] in p.workers;
      NobodyLeft(Next(p, steps[0]), steps[1..]);
    }
  }

  // ------------------------------------------------------------ the main result

  /** Shutdown has returned, every thread has ended, and every task was called once. */
  ghost predicate EndsWell(p: Pool, tasks: set<Task>) {
    && p.phase.Returned? && p.AllEnded()
    && p.ran == multiset(tasks)
    && forall t :: t in tasks && t.future ==> t in p.completed
  }

  function Min(a: nat, b: nat): nat {
    if a < b then a else b
  }

  /**
   The condition on a pool and its tasks: fewer killers than threads (or the tasks are
   all killers, one for each thread), and room in the queue for the sentinels that the
   dead threads will not take.
   */
  predicate Safe(threadSize: nat, capacity: int, tasks: set<Task>) {
    var killers := |Killers(tasks)|;
    && (killers < threadSize || |tasks| == threadSize)
    && (capacity <= 0 || Min(killers, threadSize) <= capacity)
  }

  lemma {:induction false} CountAll<T>(s: seq<T>, x: T)
    ensures Count(s, x) <= |s|
    ensures Count(s, x) == |s| <==> forall y :: y in s ==> y == x
  {
    if s != [] {
      assert s == [s[0]] + s[1..];
      assert s[0] in s && forall y :: y in s <==> y == s[0] || y in s[1..];
      CountTail(s, x);
      CountAll(s[1..], x);
    } else {
      assert multiset(s) == multiset{};
    }
  }

  lemma {:induction false} CountTwo<T>(s: seq<T>, x: T, y: T)
    requires x != y
    ensures Count(s, x) + Count(s, y) <= |s|
    ensures (forall z :: z in s ==> z == x || z == y) ==> Count(s, x) + Count(s, y) == |s|
  {
    if s != [] {
      assert s[0] in s && forall z :: z in s[1..] ==> z in s;
      CountTail(s, x);
      CountTail(s, y);
      CountTwo(s[1..], x, y);
    } else {
      assert multiset(s) == multiset{};
    }
  }

  lemma SubsetSize<T>(a: set<T>, b: set<T>)
    requires a <= b
    ensures |a| <= |b|
    ensures |a| == |b| ==> a == b
  {
    if a != b {
      var x :| x in b && x !in a;
      SubsetSize(a, b - {x});
    }
  }

  /** In a stopped state no worker is busy, and a waiting worker has nothing to get. */
  lemma StoppedWorkers(p: Pool, n: nat, tasks: set<Task>)
    requires Inv(p, n, tasks) && Stopped(p)
    ensures forall w :: w in p.workers ==> w.Waiting? || w.Ended()
    ensures Waiting in p.workers ==> p.queue == []
  {
    forall i: nat | i < |p.workers| ensures p.workers[i].Waiting? || p.workers[i].Ended()
      ensures p.workers[i].Waiting? ==> p.queue == []
    {
      assert !Enabled(p, Get(i)) && !Enabled(p, Call(i)) && !Enabled(p, Complete(i));
    }
  }

  /** In a stopped state the caller of shutdown is blocked in a put or has returned. */
  lemma StoppedCaller(p: Pool, n: nat, tasks: set<Task>)
    requires Inv(p, n, tasks) && Stopped(p)
    ensures p.pending != {} ==> p.Full()
    ensures p.phase.Open? ==> p.pending != {}
    ensures !p.phase.Decrementing?
    ensures p.phase.Putting? ==> p.alive > 0 && p.Full()
    ensures p.phase.Joining? ==> Waiting in p.workers
  {
    assert !Enabled(p, BeginShutdown) && !Enabled(p, PutSentinel) && !Enabled(p, Decrement);
    assert !Enabled(p, BeginJoin) && !Enabled(p, Join);
    if p.pending != {} {
      var t :| t in p.pending;
      assert !Enabled(p, Put(t));
    }
    StoppedWorkers(p, n, tasks);
    if p.phase.Joining? {
      assert p.workers[p.phase.next] in p.workers;
    }
  }

  /** No thread is left waiting in a stopped state. */
  lemma StoppedAllEnded(p: Pool, n: nat, tasks: set<Task>)
    requires Inv(p, n, tasks) && Stopped(p)
    ensures p.AllEnded() && !p.phase.Joining?
  {
    StoppedWorkers(p, n, tasks);
    StoppedCaller(p, n, tasks);
    if Waiting in p.workers {
      assert p.alive == 0;
      CountAll(p.workers, Exited);
      assert false;
    }
  }

  /** Under the condition, every run that cannot go on has ended well. */
  lemma SafeRunsEndWell(p: Pool, n: nat, tasks: set<Task>)
    requires Inv(p, n, tasks) && Deaths(p, tasks) && Stopped(p) && Safe(n, p.capacity, tasks)
    ensures EndsWell(p, tasks)
  {
    StoppedAllEnded(p, n, tasks);
    StoppedCaller(p, n, tasks);
    var dead := Spent(p, tasks);
    SubsetSize(dead, Killers(tasks));
    SubsetSize(Killers(tasks), tasks);
    CountTwo(p.workers, Exited, Died);
    assert Count(p.workers, Exited) + Count(p.workers, Died) == n;
    AllTasksCalled(p, n, tasks);
    if p.phase.Putting? {
      CountAll(p.queue, Sentinel);
      assert false;
    }
    assert p.ran == multiset(tasks);
  }

  /** Under the condition, nothing is left in front of the threads when they have ended. */
  lemma AllTasksCalled(p: Pool, n: nat, tasks: set<Task>)
    requires Inv(p, n, tasks) && Deaths(p, tasks) && Stopped(p) && Safe(n, p.capacity, tasks)
    requires Count(p.workers, Exited) + Count(p.workers, Died) == n && p.AllEnded()
    ensures p.pending == {}
    ensures forall t :: Job(t) !in p.queue && (t in tasks <==> p.ran[t] == 1)
  {
    var dead := Spent(p, tasks);
    SubsetSize(dead, Killers(tasks));
    SubsetSize(Killers(tasks), tasks);
    forall t ensures Count(p.workers, Running(t)) == 0 {
      assert Running(t) !in p.workers;
    }
    if Count(p.workers, Exited) == 0 {
      assert |dead| == n == |tasks|;
      SubsetSize(dead, tasks);
      assert dead == tasks;
    }
  }

  // --------------------------------------------------- the condition is needed

  /** The first k threads have each died of a killer, and nothing else has happened. */
  ghost predicate Depleted(p: Pool, n: nat, capacity: int, wait: bool, tasks: set<Task>, k: nat) {
    && k <= n && p.phase.Open? && p.queue == [] && p.capacity == capacity
    && |p.workers| == n
    && (forall w: nat :: w < n ==> p.workers[w] == if w < k then Died else Waiting)
    && p.pending <= tasks && p.ran == multiset(tasks - p.pending)
    && |tasks - p.pending| == k && tasks - p.pending <= Killers(tasks)
  }

  /** One more killer is put, taken and called. */
  lemma KillOne(p: Pool, n: nat, capacity: int, wait: bool, tasks: set<Task>, k: nat)
    returns (steps: seq<Step>)
    requires Depleted(p, n, capacity, wait, tasks, k) && k < n && k < |Killers(tasks)|
    ensures IsRun(p, steps) && Depleted(After(p, steps), n, capacity, wait, tasks, k + 1)
  {
    var gone := tasks - p.pending;
    assert exists t :: t in Killers(tasks) && t !in gone by {
      if forall t :: t in Killers(tasks) ==> t in gone { SubsetSize(Killers(tasks), gone); }
    }
    var t :| t in Killers(tasks) && t !in gone;
    PutGetCall(p, n, capacity, wait, tasks, k, t);
    var p1 := Next(p, Put(t));
    var p2 := Next(p1, Get(k));
    RunOne(p, Put(t));
    RunOne(p1, Get(k));
    RunOne(p2, Call(k));
    RunAppend(p, [Put(t)], [Get(k)]);
    RunAppend(p, [Put(t)] + [Get(k)], [Call(k)]);
    steps := [Put(t)] + [Get(k)] + [Call(k)];
    if t.future {
      RunOne(Next(p2, Call(k)), Complete(k));
      RunAppend(p, steps, [Complete(k)]);
      steps := steps + [Complete(k)];
    }
  }

  lemma PutGetCall(p: Pool, n: nat, capacity: int, wait: bool, tasks: set<Task>, k: nat, t: Task)
    requires Depleted(p, n, capacity, wait, tasks, k) && k < n
    requires t in Killers(tasks) && t in p.pending
    ensures Enabled(p, Put(t)) && Enabled(Next(p, Put(t)), Get(k))
    ensures var p2 := Next(Next(p, Put(t)), Get(k));
            && Enabled(p2, Call(k))
            && if t.future then
                 && Enabled(Next(p2, Call(k)), Complete(k))
                 && Depleted(Next(Next(p2, Call(k)), Complete(k)), n, capacity, wait, tasks, k + 1)
               else Depleted(Next(p2, Call(k)), n, capacity, wait, tasks, k + 1)
  {
    var p1 := Next(p, Put(t));
    assert p1.queue == [Job(t)];
    var p3 := Next(Next(p1, Get(k)), Call(k));
    assert p3.workers == p.workers[k := if t.future then Finishing(t) else Died];
    OneMoreDead(p, if t.future then Next(p3, Complete(k)) else p3, n, capacity, wait, tasks, k, t);
  }

  lemma OneMoreDead(p: Pool, q: Pool, n: nat, capacity: int, wait: bool, tasks: set<Task>, k: nat, t: Task)
    requires Depleted(p, n, capacity, wait, tasks, k) && k < n && t in Killers(tasks) && t in p.pending
    requires q.phase == p.phase && q.capacity == p.capacity && q.queue == []
    requires q.workers == p.workers[k := Died]
    requires q.pending == p.pending - {t} && q.ran == p.ran + multiset{t}
    ensures Depleted(q, n, capacity, wait, tasks, k + 1)
  {
    var gone := tasks - p.pending;
    assert tasks - q.pending == gone + {t};
    assert q.ran == multiset(gone + {t});
  }

  lemma RunOne(p: Pool, s: Step)
    requires Enabled(p, s)
    ensures IsRun(p, [s]) && After(p, [s]) == Next(p, s)
  {
    assert IsRun(Next(p, s), [s][1..]);
  }

  lemma {:induction false} KillMany(p: Pool, n: nat, capacity: int, wait: bool, tasks: set<Task>, k: nat, goal: nat)
    returns (steps: seq<Step>)
    requires Depleted(p, n, capacity, wait, tasks, k) && k <= goal <= n && goal <= |Killers(tasks)|
    ensures IsRun(p, steps) && Depleted(After(p, steps), n, capacity, wait, tasks, goal)
    decreases goal - k
  {
    steps := [];
    if k < goal {
      var first := KillOne(p, n, capacity, wait, tasks, k);
      var rest := KillMany(After(p, first), n, capacity, wait, tasks, k + 1, goal);
      RunAppend(p, first, rest);
      steps := first + rest;
    }
  }

  /** A run after which as many threads as the killers suffice for are dead. */
  lemma KillAll(n: nat, capacity: int, wait: bool, tasks: set<Task>, k: nat) returns (steps: seq<Step>)
    requires k == Min(|Killers(tasks)|, n)
    ensures var p := Init(n, capacity, wait, tasks);
            && IsRun(p, steps) && Depleted(After(p, steps), n, capacity, wait, tasks, k)
            && Inv(After(p, steps), n, tasks) && Deaths(After(p, steps), tasks)
  {
    var p := Init(n, capacity, wait, tasks);
    InitInv(n, capacity, wait, tasks);
    InitDeaths(n, capacity, wait, tasks);
    assert tasks - tasks == {};
    steps := KillMany(p, n, capacity, wait, tasks, 0, k);
    RunInv(p, n, tasks, steps);
    RunDeaths(p, n, tasks, steps);
  }

  lemma DepletedDead(q: Pool, n: nat, capacity: int, wait: bool, tasks: set<Task>, k: nat)
    requires Depleted(q, n, capacity, wait, tasks, k)
    ensures Count(q.workers, Died) >= k
    ensures k == n ==> forall w :: w in q.workers ==> w.Died?
    ensures q.capacity == capacity && q.pending <= tasks
    ensures q.ran == multiset(tasks - q.pending) && |tasks - q.pending| == k
  {
    DeadCount(q.workers, k);
  }

  /** However such a run is continued to its end, it ends badly. */
  lemma KilledEnding(q: Pool, n: nat, capacity: int, wait: bool, tasks: set<Task>, k: nat, rest: seq<Step>)
    requires Depleted(q, n, capacity, wait, tasks, k) && Inv(q, n, tasks) && Deaths(q, tasks)
    requires k == Min(|Killers(tasks)|, n) && !Safe(n, capacity, tasks) && IsRun(q, rest)
    ensures !EndsWell(After(q, rest), tasks)
  {
    RunInv(q, n, tasks, rest);
    RunDeaths(q, n, tasks, rest);
    RunKeepsCapacity(q, rest);
    DepletedDead(q, n, capacity, wait, tasks, k);
    if k == n { NobodyLeft(q, rest); }
    BadEnding(After(q, rest), n, tasks, k, if k == n then q.pending else {});
  }

  /** Where the condition fails, some run ends badly: deadlocked, or with tasks not called. */
  lemma UnsafeRun(n: nat, capacity: int, wait: bool, tasks: set<Task>) returns (steps: seq<Step>)
    requires !Safe(n, capacity, tasks)
    ensures var p := Init(n, capacity, wait, tasks);
            IsRun(p, steps) && Stopped(After(p, steps)) && !EndsWell(After(p, steps), tasks)
  {
    var p, k := Init(n, capacity, wait, tasks), Min(|Killers(tasks)|, n);
    var first := KillAll(n, capacity, wait, tasks, k);
    var rest := RunToEnd(After(p, first));
    KilledEnding(After(p, first), n, capacity, wait, tasks, k, rest);
    RunAppend(p, first, rest);
    steps := first + rest;
  }

  /** A pool that has lost too many threads cannot end well. */
  lemma BadEnding(r: Pool, n: nat, tasks: set<Task>, k: nat, left: set<Task>)
    requires Inv(r, n, tasks) && Count(r.workers, Died) >= k == Min(|Killers(tasks)|, n)
    requires !Safe(n, r.capacity, tasks) && left <= tasks
    requires k == n ==> r.ran == multiset(tasks - left) && |tasks - left| == n
    ensures !EndsWell(r, tasks)
  {
    if EndsWell(r, tasks) {
      CountTwo(r.workers, Exited, Died);
      CountAll(r.queue, Sentinel);
      SubsetSize(Killers(tasks), tasks);
      assert false;
    }
  }

  lemma {:induction false} DeadCount(ws: seq<Worker>, k: nat)
    requires k <= |ws| && forall w: nat :: w < k ==> ws[w] == Died
    ensures Count(ws, Died) >= k
  {
    if k > 0 {
      CountTail(ws, Died);
      DeadCount(ws[1..], k - 1);
    }
  }

  lemma {:induction false} RunKeepsCapacity(p: Pool, steps: seq<Step>)
    requires IsRun(p, steps)
    ensures After(p, steps).capacity == p.capacity && After(p, steps).wait == p.wait
    decreases |steps|
  {
    if steps != [] { RunKeepsCapacity(Next(p, steps[0]), steps[1..]); }
  }

  lemma InitDeaths(n: nat, capacity: int, wait: bool, tasks: set<Task>)
    ensures Deaths(Init(n, capacity, wait, tasks), tasks)
  {
    var p := Init(n, capacity, wait, tasks);
    assert forall x: Worker :: x in p.workers ==> x == Waiting;
    assert Spent(p, tasks) == {};
  }

  lemma SafeMeans(n: nat, capacity: int, tasks: set<Task>)
    ensures Safe(n, capacity, tasks) <==>
              var killers := set t | t in tasks && (if t.future then t.callbackRaises else t.raises);
              && (|killers| < n || |tasks| == n)
              && (capacity <= 0 || |killers| <= capacity || n <= capacity)
  {
    assert Killers(tasks) == set t | t in tasks && (if t.future then t.callbackRaises else t.raises);
  }

  lemma EndsWellMeans(p: Pool, tasks: set<Task>)
    ensures EndsWell(p, tasks) <==>
              && p.phase == Returned && (forall w :: w in p.workers ==> w == Exited || w == Died)
              && p.ran == multiset(tasks) && (forall t :: t in tasks && t.future ==> t in p.completed)
  {
    if forall w :: w in p.workers ==> w == Exited || w == Died {
      assert forall i: nat :: i < |p.workers| ==> p.workers[i] in p.workers;
    }
  }

  /**
   The main result.  Every run of a pool stops within Measure steps, and all of them
   stop with shutdown returned, every thread ended, every task called exactly once and
   every future completed, if and only if the pool and its tasks meet the condition.  The
   last two clauses write out the condition and that end.
   */
  lemma EveryRunEndsWell(n: nat, capacity: int, wait: bool, tasks: set<Task>)
    ensures var p := Init(n, capacity, wait, tasks);
            (forall steps :: IsRun(p, steps) && Stopped(After(p, steps)) ==> EndsWell(After(p, steps), tasks))
            <==> Safe(n, capacity, tasks)
    ensures var p := Init(n, capacity, wait, tasks);
            forall steps :: IsRun(p, steps) ==> |steps| <= Measure(p)
    ensures Safe(n, capacity, tasks) <==>
              var killers := set t | t in tasks && (if t.future then t.callbackRaises else t.raises);
              && (|killers| < n || |tasks| == n)
              && (capacity <= 0 || |killers| <= capacity || n <= capacity)
    ensures forall p :: EndsWell(p, tasks) <==>
              && p.phase == Returned && (forall w :: w in p.workers ==> w == Exited || w == Died)
              && p.ran == multiset(tasks) && (forall t :: t in tasks && t.future ==> t in p.completed)
  {
    SafeMeans(n, capacity, tasks);
    forall p { EndsWellMeans(p, tasks); }
    var p := Init(n, capacity, wait, tasks);
    InitInv(n, capacity, wait, tasks);
    InitDeaths(n, capacity, wait, tasks);
    forall steps | IsRun(p, steps)
      ensures |steps| <= Measure(p)
      ensures Safe(n, capacity, tasks) && Stopped(After(p, steps)) ==> EndsWell(After(p, steps), tasks)
    {
      RunLength(p, steps);
      RunInv(p, n, tasks, steps);
      RunDeaths(p, n, tasks, steps);
      RunKeepsCapacity(p, steps);
      if Safe(n, capacity, tasks) && Stopped(After(p, steps)) {
        SafeRunsEndWell(After(p, steps), n, tasks);
      }
    }
    if !Safe(n, capacity, tasks) {
      var bad := UnsafeRun(n, capacity, wait, tasks);
    }
  }

  /** A pool whose tasks never leave an exception to the thread needs only one thread. */
  lemma NoKillersSafe(n: nat, capacity: int, tasks: set<Task>)
    requires forall t :: t in tasks ==> !t.Kills()
    ensures Safe(n, capacity, tasks) <==> n > 0 || tasks == {}
  {
    assert Killers(tasks) == {};
  }

  /** After a waited return of shutdown the pool has nothing left to do. */
  lemma ReturnedPool(p: Pool, n: nat, tasks: set<Task>)
    requires Inv(p, n, tasks) && p.phase.Returned? && p.wait
    ensures Stopped(p) && forall w :: w in p.workers ==> w == Exited || w == Died
  {
    assert forall w: nat :: w < |p.workers| ==> p.workers[w].Ended();
  }

  /**
   When `shutdown(wait=True)` has returned, in whatever interleaving, every thread has
   ended; under the condition every task was called exactly once and every future that
   submit handed out is completed.
   */
  lemma WaitedReturn(n: nat, capacity: int, tasks: set<Task>, steps: seq<Step>)
    requires IsRun(Init(n, capacity, true, tasks), steps)
    requires After(Init(n, capacity, true, tasks), steps).phase.Returned?
    ensures var p := After(Init(n, capacity, true, tasks), steps);
            && |p.workers| == n && (forall w :: w in p.workers ==> w == Exited || w == Died)
            && (Safe(n, capacity, tasks) ==> EndsWell(p, tasks))
  {
    var p := Init(n, capacity, true, tasks);
    var q := After(p, steps);
    InitInv(n, capacity, true, tasks);
    InitDeaths(n, capacity, true, tasks);
    RunInv(p, n, tasks, steps);
    RunDeaths(p, n, tasks, steps);
    RunKeepsCapacity(p, steps);
    ReturnedPool(q, n, tasks);
    if Safe(n, capacity, tasks) { SafeRunsEndWell(q, n, tasks); }
  }

  /** The caller of shutdown on its own: sentinels for all threads, and it has returned. */
  lemma {:induction false} GoOn(p: Pool, n: nat) returns (steps: seq<Step>)
    requires p.phase == Putting && !p.wait && p.alive == n && (p.capacity <= 0 || |p.queue| + n <= p.capacity)
    ensures IsRun(p, steps) && After(p, steps).phase == Returned && After(p, steps).workers == p.workers
    decreases n
  {
    if n == 0 {
      OneStep(p, BeginJoin);
      return [BeginJoin];
    }
    var q := Next(p, PutSentinel);
    var r := Next(q, Decrement);
    var rest := GoOn(r, n - 1);
    assert ([PutSentinel, Decrement] + rest)[1..] == [Decrement] + rest;
    assert ([Decrement] + rest)[1..] == rest;
    steps := [PutSentinel, Decrement] + rest;
  }

  /** The other half: `shutdown(wait=False)` can return with every thread still at its task. */
  lemma UnwaitedReturn(n: nat, capacity: int, tasks: set<Task>, ts: seq<Task>) returns (steps: seq<Step>)
    requires |ts| == n && (forall t :: t in tasks <==> t in ts) && (capacity <= 0 || n <= capacity)
    requires forall i, j :: 0 <= i < j < n ==> ts[i] != ts[j]
    ensures var p := Init(n, capacity, false, tasks);
            && IsRun(p, steps) && After(p, steps).phase == Returned
            && After(p, steps).workers == seq(n, w requires 0 <= w < n => Running(ts[w]))
  {
    var p := Init(n, capacity, false, tasks);
    var busy := HoldMore(p, n, ts, 0);
    var q := After(p, busy);
    assert ts[0..] == ts && q.pending == {};
    var rest := GoOn(Next(q, BeginShutdown), n);
    assert ([BeginShutdown] + rest)[1..] == rest;
    RunAppend(p, busy, [BeginShutdown] + rest);
    steps := busy + ([BeginShutdown] + rest);
  }
}
