/**
 The bulk download of obs/extension.py: a loop that handles each listed object itself
 or hands it to the pool, workers that count outcomes in `_task_wrap`, and a shutdown
 that waits.  The pool is the transition system of module ThreadPool; this module adds
 the loop and the two counters.
 */
module BulkJob {
  import opened ThreadPool

  /** What `func(**kwargs)` does: it raises, or returns a response with a status. */
  datatype Response = Raises | Returns(status: int)

  /** A listed object, with everything the job will find out about it. */
  datatype Object = Object(
    illegalPath: bool, mkdirFails: bool, directory: bool, size: nat,
    small: Response, large: Response,   // getObject, _downloadFileWithNotifier
    callbackRaises: bool,               // taskCallback(key, res) in the try block
    handlerRaises: bool,                // taskCallback(key, e) in the except block
    loopCallbackRaises: bool            // taskCallback(objectKey, ...) in the loop
  ) {
    /** The object goes to the pool. */
    predicate IsTask() {
      !illegalPath && !mkdirFails && !directory
    }

    /** The loop itself counts a failure, and the callback it then calls ends it. */
    predicate StopsLoop() {
      (illegalPath || mkdirFails) && loopCallbackRaises
    }

    function Download(threshold: nat): Response {
      if size < threshold then small else large
    }
  }

  /** The counters of ExecuteProgress. */
  class ExecuteProgress {
    var successfulTasks: nat
    var failedTasks: nat

    constructor ()
      ensures Counts() == Score(0, 0)
    {
      successfulTasks, failedTasks := 0, 0;
    }

    function Counts(): Score
      reads this
    {
      Score(successfulTasks, failedTasks)
    }

    /** _successful_increment, all of it under its lock */
    method SuccessfulIncrement() returns (n: nat)
      modifies this
      ensures Counts() == old(Counts()).Plus(Score(1, 0)) && n == successfulTasks
    {
      successfulTasks := successfulTasks + 1;
      n := successfulTasks;
    }

    /** _failed_increment, all of it under its lock */
    method FailedIncrement() returns (n: nat)
      modifies this
      ensures Counts() == old(Counts()).Plus(Score(0, 1)) && n == failedTasks
    {
      failedTasks := failedTasks + 1;
      n := failedTasks;
    }
  }

  datatype Score = Score(successful: nat, failed: nat) {
    function Plus(other: Score): Score {
      Score(successful + other.successful, failed + other.failed)
    }
  }

  /** What a task adds to the counters first: it is one of them, once. */
  function FirstScore(o: Object, threshold: nat): Score {
    match o.Download(threshold)
    case Raises => Score(0, 1)
    case Returns(status) => if status < 300 then Score(1, 0) else Score(0, 1)
  }

  /** A response is delivered to a callback that raises: the task is counted again, as a failure. */
  predicate CountedTwice(o: Object, threshold: nat) {
    o.IsTask() && o.Download(threshold).Returns? && o.callbackRaises
  }

  /** An exception leaves _task_wrap: its except block is entered and raises itself. */
  predicate TaskRaises(o: Object, threshold: nat) {
    (o.Download(threshold).Raises? || o.callbackRaises) && o.handlerRaises
  }

  /** What the loop adds for an object that is not a task. */
  function LoopScore(o: Object): Score {
    if o.illegalPath || o.mkdirFails then Score(0, 1) else Score(1, 0)
  }

  /** _task_wrap, with `raised` for an exception that leaves it; the size chooses the download. */
  method TaskWrap(o: Object, threshold: nat, state: ExecuteProgress) returns (raised: bool)
    modifies state
    ensures var res, was := if o.size < threshold then o.small else o.large, old(state.Counts());
            && (res.Raises? ==> state.Counts() == was.Plus(Score(0, 1)))
            && (res.Returns? && res.status < 300 && !o.callbackRaises ==> state.Counts() == was.Plus(Score(1, 0)))
            && (res.Returns? && res.status < 300 && o.callbackRaises ==> state.Counts() == was.Plus(Score(1, 1)))
            && (res.Returns? && res.status >= 300 && !o.callbackRaises ==> state.Counts() == was.Plus(Score(0, 1)))
            && (res.Returns? && res.status >= 300 && o.callbackRaises ==> state.Counts() == was.Plus(Score(0, 2)))
            && (raised <==> (res.Raises? || o.callbackRaises) && o.handlerRaises)
  {
    var res := o.Download(threshold);
    var caught := res.Raises?;
    if !caught {
      if res.status < 300 {
        var n := state.SuccessfulIncrement();
      } else {
        var n := state.FailedIncrement();
      }
      caught := o.callbackRaises;
    }
    if caught {
      var n := state.FailedIncrement();
      return o.handlerRaises;
    }
    return false;
  }

  // ------------------------------------------------------ the loop and the pool

  /** The pool task of object number i: executed without a future. */
  function TaskOf(objects: seq<Object>, threshold: nat, i: nat): Task
    requires i < |objects|
  {
    Task(i, false, TaskRaises(objects[i], threshold), false)
  }

  /** The tasks of the objects from number k on. */
  function TasksFrom(objects: seq<Object>, threshold: nat, k: nat): set<Task> {
    set i: nat | k <= i < |objects| && objects[i].IsTask() :: TaskOf(objects, threshold, i)
  }

  /**
   `next` is the object the loop is at, and `raised` says that an exception has ended it.
   The ghost set `done` holds the objects handled and the tasks called, and `once` those
   with the first of two counts.
   */
  datatype Bulk = Bulk(pool: Pool, next: nat, raised: bool, score: Score, once: set<nat>, done: set<nat>)

  datatype Move =
    | Handle                 // the loop counts an object itself, and calls the callback
    | FirstOfTwo(w: nat)     // a task that will be counted twice is counted the first time
    | PoolStep(step: Step)   // Call is the end of a task, with its last count

  function Start(objects: seq<Object>, threshold: nat, taskNum: nat, queueSize: int): Bulk {
    Bulk(Init(taskNum, queueSize, true, TasksFrom(objects, threshold, 0)), 0, false, Score(0, 0), {}, {})
  }

  /** The object a worker is busy with. */
  predicate Holds(p: Pool, w: nat, n: nat) {
    w < |p.workers| && p.workers[w].Running? && p.workers[w].task.id < n
  }

  predicate CanMove(objects: seq<Object>, threshold: nat, j: Bulk, m: Move) {
    match m
    case Handle => j.pool.phase.Open? && !j.raised && j.next < |objects| && !objects[j.next].IsTask()
    case FirstOfTwo(w) =>
      && Holds(j.pool, w, |objects|)
      && var i := j.pool.workers[w].task.id;
         CountedTwice(objects[i], threshold) && i !in j.once
    case PoolStep(s) =>
      && Enabled(j.pool, s)
      && (s.Put? ==> !j.raised && j.next < |objects| && objects[j.next].IsTask()
                     && s.task == TaskOf(objects, threshold, j.next))
      && (s.BeginShutdown? ==> j.raised || j.next == |objects|)
      && (s.Call? ==> Holds(j.pool, s.w, |objects|)  // always so, by HeldTask
                      && var i := j.pool.workers[s.w].task.id;
                         CountedTwice(objects[i], threshold) ==> i in j.once)
  }

  function Moved(objects: seq<Object>, threshold: nat, j: Bulk, m: Move): Bulk
    requires CanMove(objects, threshold, j, m)
  {
    match m
    case Handle =>
      var o := objects[j.next];
      j.(next := j.next + 1, done := j.done + {j.next}, score := j.score.Plus(LoopScore(o)),
         raised := o.StopsLoop(),
         pool := if o.StopsLoop() then j.pool.(pending := {}) else j.pool)
    case FirstOfTwo(w) =>
      var i := j.pool.workers[w].task.id;
      j.(once := j.once + {i}, score := j.score.Plus(FirstScore(objects[i], threshold)))
    case PoolStep(s) =>
      if s.Put? then
        j.(pool := ThreadPool.Next(j.pool, s), next := j.next + 1)
      else if s.Call? then
        var i := j.pool.workers[s.w].task.id;
        j.(pool := ThreadPool.Next(j.pool, s), done := j.done + {i},
           score := j.score.Plus(if i in j.once then Score(0, 1) else FirstScore(objects[i], threshold)))
      else
        j.(pool := ThreadPool.Next(j.pool, s))
  }

  predicate IsJobRun(objects: seq<Object>, threshold: nat, j: Bulk, moves: seq<Move>)
    decreases |moves|
  {
    moves == [] ||
    (CanMove(objects, threshold, j, moves[0])
     && IsJobRun(objects, threshold, Moved(objects, threshold, j, moves[0]), moves[1..]))
  }

  function JobAfter(objects: seq<Object>, threshold: nat, j: Bulk, moves: seq<Move>): Bulk
    requires IsJobRun(objects, threshold, j, moves)
    decreases |moves|
  {
    if moves == [] then j
    else JobAfter(objects, threshold, Moved(objects, threshold, j, moves[0]), moves[1..])
  }

  // --------------------------------------------------- what can happen at once

  lemma OneMove(objects: seq<Object>, threshold: nat, j: Bulk, m: Move)
    ensures IsJobRun(objects, threshold, j, [m]) <==> CanMove(objects, threshold, j, m)
    ensures CanMove(objects, threshold, j, m) ==>
              JobAfter(objects, threshold, j, [m]) == Moved(objects, threshold, j, m)
  {
    if CanMove(objects, threshold, j, m) {
      assert IsJobRun(objects, threshold, Moved(objects, threshold, j, m), [m][1..]);
    }
  }

  /** What the loop can do: it depends on the object it is at, never on what the threads do. */
  lemma LoopCan(objects: seq<Object>, threshold: nat, j: Bulk)
    ensures IsJobRun(objects, threshold, j, [Handle]) <==>
              && j.pool.phase == Open && !j.raised && j.next < |objects|
              && (objects[j.next].illegalPath || objects[j.next].mkdirFails || objects[j.next].directory)
    ensures IsJobRun(objects, threshold, j, [Handle]) ==>
              var o, j' := objects[j.next], JobAfter(objects, threshold, j, [Handle]);
              var fails := o.illegalPath || o.mkdirFails;
              && j'.score == j.score.Plus(if fails then Score(0, 1) else Score(1, 0))
              && (j'.raised <==> fails && o.loopCallbackRaises)
    ensures forall t :: IsJobRun(objects, threshold, j, [PoolStep(Put(t))]) <==>
              && t in j.pool.pending && HasRoom(j.pool) && !j.raised && j.next < |objects|
              && var o := objects[j.next];
                 var res := if o.size < threshold then o.small else o.large;
                 && !o.illegalPath && !o.mkdirFails && !o.directory
                 && t == Task(j.next, false, (res == Raises || o.callbackRaises) && o.handlerRaises, false)
  {
    OneMove(objects, threshold, j, Handle);
    forall t { OneMove(objects, threshold, j, PoolStep(Put(t))); }
  }

  /** What the threads can do, each whatever the loop and the others are at. */
  lemma ThreadsCan(objects: seq<Object>, threshold: nat, j: Bulk, w: nat)
    ensures IsJobRun(objects, threshold, j, [PoolStep(Get(w))]) <==>
              w < |j.pool.workers| && j.pool.workers[w] == Waiting && |j.pool.queue| > 0
    ensures IsJobRun(objects, threshold, j, [PoolStep(Complete(w))]) <==>
              w < |j.pool.workers| && j.pool.workers[w].Finishing?
  {
    OneMove(objects, threshold, j, PoolStep(Get(w)));
    OneMove(objects, threshold, j, PoolStep(Complete(w)));
  }

  /**
   A thread with an object's task counts it and ends it, in two moves if it counts twice;
   together they add to the counters what TaskWrap does.
   */
  lemma BusyThreadCan(objects: seq<Object>, threshold: nat, j: Bulk, w: nat)
    requires w < |j.pool.workers| && j.pool.workers[w].Running? && j.pool.workers[w].task.id < |objects|
    requires objects[j.pool.workers[w].task.id].IsTask()
    ensures var i := j.pool.workers[w].task.id;
            var res := if objects[i].size < threshold then objects[i].small else objects[i].large;
            var twice := res != Raises && objects[i].callbackRaises;
            var first, last := [FirstOfTwo(w)], [PoolStep(Call(w))];
            var one := if res.Returns? && res.status < 300 then Score(1, 0) else Score(0, 1);
            && (IsJobRun(objects, threshold, j, first) <==> twice && i !in j.once)
            && (IsJobRun(objects, threshold, j, last) <==> (twice ==> i in j.once))
            && (twice && i !in j.once ==> JobAfter(objects, threshold, j, first).score == j.score.Plus(one))
            && (twice && i in j.once ==> JobAfter(objects, threshold, j, last).score == j.score.Plus(Score(0, 1)))
            && (!twice && i !in j.once ==> JobAfter(objects, threshold, j, last).score == j.score.Plus(one))
  {
    OneMove(objects, threshold, j, FirstOfTwo(w));
    OneMove(objects, threshold, j, PoolStep(Call(w)));
  }

  /** The caller's way through shutdown, once the loop has ended. */
  lemma ShutdownCan(objects: seq<Object>, threshold: nat, j: Bulk)
    ensures IsJobRun(objects, threshold, j, [PoolStep(BeginShutdown)]) <==>
              j.pool.phase == Open && j.pool.pending == {} && (j.raised || j.next == |objects|)
    ensures IsJobRun(objects, threshold, j, [PoolStep(PutSentinel)]) <==>
              j.pool.phase == Putting && j.pool.alive > 0 && HasRoom(j.pool)
    ensures IsJobRun(objects, threshold, j, [PoolStep(Decrement)]) <==>
              j.pool.phase == Decrementing && j.pool.alive > 0
    ensures IsJobRun(objects, threshold, j, [PoolStep(BeginJoin)]) <==>
              j.pool.phase == Putting && j.pool.alive == 0
    ensures IsJobRun(objects, threshold, j, [PoolStep(Join)]) <==>
              && j.pool.phase.Joining? && j.pool.phase.next < |j.pool.workers|
              && (j.pool.workers[j.pool.phase.next] == Exited || j.pool.workers[j.pool.phase.next] == Died)
  {
    forall s { OneMove(objects, threshold, j, PoolStep(s)); }
  }

  /** The first k threads hold a task each, the others wait, and the rest is to be listed. */
  ghost predicate Busy(objects: seq<Object>, threshold: nat, n: nat, j: Bulk, k: nat) {
    && k <= n && |j.pool.workers| == n && j.pool.queue == [] && j.pool.phase.Open? && !j.raised
    && j.next <= |objects| && j.pool.pending == TasksFrom(objects, threshold, j.next)
    && (forall w: nat :: w < n ==> if w < k then j.pool.workers[w].Running? else j.pool.workers[w].Waiting?)
  }

  lemma PutAndTake(objects: seq<Object>, threshold: nat, n: nat, j: Bulk, k: nat) returns (moves: seq<Move>)
    requires Busy(objects, threshold, n, j, k) && k < n && j.next < |objects| && objects[j.next].IsTask()
    ensures IsJobRun(objects, threshold, j, moves)
    ensures var j' := JobAfter(objects, threshold, j, moves);
            Busy(objects, threshold, n, j', k + 1) && j'.next == j.next + 1
  {
    var t := TaskOf(objects, threshold, j.next);
    var put, get := PoolStep(Put(t)), PoolStep(Get(k));
    TasksFromNext(objects, threshold, j.next);
    var j1 := Moved(objects, threshold, j, put);
    assert j1.pool.queue == [Job(t)];
    OneMove(objects, threshold, j, put);
    OneMove(objects, threshold, j1, get);
    JobRunAppend(objects, threshold, j, [put], [get]);
    moves := [put] + [get];
  }

  lemma FillThreads(objects: seq<Object>, threshold: nat, n: nat, j: Bulk, k: nat) returns (moves: seq<Move>)
    requires Busy(objects, threshold, n, j, k)
    requires |TasksFrom(objects, threshold, j.next)| >= n - k
    requires forall i: nat :: i < |objects| ==> !objects[i].StopsLoop()
    ensures IsJobRun(objects, threshold, j, moves)
    ensures Busy(objects, threshold, n, JobAfter(objects, threshold, j, moves), n)
    decreases |objects| - j.next
  {
    moves := [];
    if k < n {
      assert j.next < |objects|;
      TasksFromNext(objects, threshold, j.next);
      var first := [Handle];
      if objects[j.next].IsTask() {
        first := PutAndTake(objects, threshold, n, j, k);
      } else {
        OneMove(objects, threshold, j, Handle);
      }
      var j' := JobAfter(objects, threshold, j, first);
      var rest := FillThreads(objects, threshold, n, j', if objects[j.next].IsTask() then k + 1 else k);
      JobRunAppend(objects, threshold, j, first, rest);
      moves := first + rest;
    }
  }

  /** All threads download at once, in any job with as many tasks as threads. */
  lemma AllThreadsBusy(objects: seq<Object>, threshold: nat, n: nat, queueSize: int) returns (moves: seq<Move>)
    requires |TasksFrom(objects, threshold, 0)| >= n
    requires forall i: nat :: i < |objects| ==> !objects[i].StopsLoop()
    ensures var start := Start(objects, threshold, n, queueSize);
            && IsJobRun(objects, threshold, start, moves)
            && var p := JobAfter(objects, threshold, start, moves).pool;
               |p.workers| == n && forall w :: w in p.workers ==> w.Running?
  {
    moves := FillThreads(objects, threshold, n, Start(objects, threshold, n, queueSize), 0);
  }

  // --------------------------------------------------------------- the account

  /** An object is counted once the loop has handled it or a worker has called its task. */
  ghost predicate Counted(objects: seq<Object>, threshold: nat, next: nat, ran: multiset<Task>, done: set<nat>) {
    && (forall i :: i in done ==> i < |objects|)
    && (forall i: nat :: i < |objects| ==>
          (i in done <==> if objects[i].IsTask() then TaskOf(objects, threshold, i) in ran else i < next))
  }

  /** The loop and the pool agree on what is still to be put. */
  ghost predicate InStep(objects: seq<Object>, threshold: nat, j: Bulk) {
    && j.next <= |objects|
    && j.pool.pending == (if j.raised then {} else TasksFrom(objects, threshold, j.next))
    && (!j.pool.phase.Open? ==> j.raised || j.next == |objects|)
  }

  /** The loop has been stopped exactly if the last object it handled stops it. */
  ghost predicate StoppedByLast(objects: seq<Object>, j: Bulk) {
    && (j.raised ==> 0 < j.next <= |objects| && objects[j.next - 1].StopsLoop())
    && (forall i: nat {:trigger objects[i]} :: i < j.next && i < |objects| && objects[i].StopsLoop() ==> j.raised)
  }

  /** The tasks that have been put or will be. */
  function Due(objects: seq<Object>, threshold: nat, j: Bulk): set<Task> {
    set t | t in TasksFrom(objects, threshold, 0) && (j.raised ==> t.id < j.next)
  }

  /** A task that has left the queue for a worker. */
  predicate Taken(p: Pool, t: Task) {
    t in p.ran || Running(t) in p.workers
  }

  /** Tasks are put in listing order and taken in that order: taken, then queued, then to come. */
  ghost predicate InOrder(p: Pool, next: nat) {
    && (forall a, b :: 0 <= a < b < |p.queue| && p.queue[a].Job? && p.queue[b].Job? ==>
          p.queue[a].task.id < p.queue[b].task.id)
    && (forall a :: 0 <= a < |p.queue| && p.queue[a].Job? ==> p.queue[a].task.id < next)
    && (forall t, a :: Taken(p, t) && 0 <= a < |p.queue| && p.queue[a].Job? ==> t.id < p.queue[a].task.id)
    && (forall t :: Taken(p, t) ==> t.id < next)
  }

  /** The object was downloaded with a good status, or is a directory that now exists. */
  predicate Succeeds(o: Object, threshold: nat) {
    var res := if o.size < threshold then o.small else o.large;
    !o.illegalPath && !o.mkdirFails && (o.directory || (res.Returns? && res.status < 300))
  }

  /** Those of a set of objects that succeed. */
  function Succeeded(objects: seq<Object>, threshold: nat, done: set<nat>): set<nat> {
    set i | i in done && i < |objects| && Succeeds(objects[i], threshold)
  }

  /** Those of a set of objects that are counted twice. */
  function Doubled(objects: seq<Object>, threshold: nat, done: set<nat>): set<nat> {
    set i | i in done && i < |objects| && CountedTwice(objects[i], threshold)
  }

  /**
   The account: `successful` counts the objects that succeed among those done or counted
   once, and both counters together count all of those, once more for each that is done
   and counted twice.
   */
  ghost predicate Accounts(objects: seq<Object>, threshold: nat, score: Score, once: set<nat>, done: set<nat>) {
    && score.successful == |Succeeded(objects, threshold, done + once)|
    && score.successful + score.failed == |done + once| + |Doubled(objects, threshold, done)|
  }

  /** Only tasks counted twice are counted a first time, and before they are done. */
  ghost predicate OnceBefore(objects: seq<Object>, threshold: nat, once: set<nat>, done: set<nat>) {
    && (forall i :: i in once ==> i < |objects| && CountedTwice(objects[i], threshold))
    && (forall i :: i in done && i < |objects| && CountedTwice(objects[i], threshold) ==> i in once)
  }

  /** The pool and the loop. */
  ghost predicate PoolInv(objects: seq<Object>, threshold: nat, n: nat, j: Bulk) {
    && Inv(j.pool, n, Due(objects, threshold, j)) && Deaths(j.pool, Due(objects, threshold, j))
    && InStep(objects, threshold, j) && StoppedByLast(objects, j) && InOrder(j.pool, j.next)
  }

  /** What has been counted. */
  ghost predicate CountInv(objects: seq<Object>, threshold: nat, j: Bulk) {
    && Counted(objects, threshold, j.next, j.pool.ran, j.done)
    && OnceBefore(objects, threshold, j.once, j.done)
    && Accounts(objects, threshold, j.score, j.once, j.done)
  }

  ghost predicate JobInv(objects: seq<Object>, threshold: nat, n: nat, j: Bulk) {
    PoolInv(objects, threshold, n, j) && CountInv(objects, threshold, j)
  }

  lemma TasksFromNext(objects: seq<Object>, threshold: nat, k: nat)
    requires k < |objects|
    ensures objects[k].IsTask() ==>
              && TaskOf(objects, threshold, k) in TasksFrom(objects, threshold, k)
              && TasksFrom(objects, threshold, k + 1)
                 == TasksFrom(objects, threshold, k) - {TaskOf(objects, threshold, k)}
    ensures !objects[k].IsTask() ==> TasksFrom(objects, threshold, k + 1) == TasksFrom(objects, threshold, k)
  {}

  lemma OneMore(a: set<nat>, b: set<nat>, n: nat, more: bool)
    requires n !in a && forall i :: i in b <==> i in a || (more && i == n)
    ensures |b| == |a| + if more then 1 else 0
  {
    assert b == if more then a + {n} else a;
  }

  /** An object counted for the first time. */
  lemma CountFirst(objects: seq<Object>, threshold: nat, score: Score, one: Score,
                   once: set<nat>, done: set<nat>, once': set<nat>, done': set<nat>, i: nat)
    requires i < |objects| && i !in done + once && Accounts(objects, threshold, score, once, done)
    requires one == if Succeeds(objects[i], threshold) then Score(1, 0) else Score(0, 1)
    requires done' + once' == done + once + {i}
    requires forall k :: k in done' && k !in done ==> k == i && !CountedTwice(objects[i], threshold)
    requires done <= done'
    ensures Accounts(objects, threshold, score.Plus(one), once', done')
  {
    OneMore(done + once, done' + once', i, true);
    OneMore(Succeeded(objects, threshold, done + once), Succeeded(objects, threshold, done' + once'), i,
            Succeeds(objects[i], threshold));
    assert Doubled(objects, threshold, done') == Doubled(objects, threshold, done);
  }

  /** An object counted the second time. */
  lemma CountSecond(objects: seq<Object>, threshold: nat, score: Score, once: set<nat>, done: set<nat>, i: nat)
    requires i < |objects| && i in once && i !in done && CountedTwice(objects[i], threshold)
    requires Accounts(objects, threshold, score, once, done)
    ensures Accounts(objects, threshold, score.Plus(Score(0, 1)), once, done + {i})
  {
    assert (done + {i}) + once == done + once;
    OneMore(Doubled(objects, threshold, done), Doubled(objects, threshold, done + {i}), i, true);
  }

  /** What is left to be put can be dropped: the other tasks stay where they are. */
  lemma Dropped(p: Pool, n: nat, tasks: set<Task>, rest: set<Task>)
    requires Inv(p, n, tasks) && Deaths(p, tasks) && rest == tasks - p.pending
    ensures Inv(p.(pending := {}), n, rest) && Deaths(p.(pending := {}), rest)
  {
    var p' := p.(pending := {});
    assert ThreadPool.Conserved(p', rest);
    assert Spent(p', rest) == Spent(p, tasks) by {
      forall t | t in Spent(p, tasks) ensures t in p.ran {
        if t.future { assert p.ran[t] >= 1; }
      }
    }
  }

  lemma HandleInv(objects: seq<Object>, threshold: nat, n: nat, j: Bulk)
    requires JobInv(objects, threshold, n, j) && CanMove(objects, threshold, j, Handle)
    ensures JobInv(objects, threshold, n, Moved(objects, threshold, j, Handle))
  {
    HandlePool(objects, threshold, n, j);
    HandleCount(objects, threshold, j);
  }

  lemma HandlePool(objects: seq<Object>, threshold: nat, n: nat, j: Bulk)
    requires PoolInv(objects, threshold, n, j) && CanMove(objects, threshold, j, Handle)
    ensures PoolInv(objects, threshold, n, Moved(objects, threshold, j, Handle))
  {
    HandleDue(objects, threshold, n, j);
    HandleInStep(objects, threshold, j);
  }

  lemma HandleInStep(objects: seq<Object>, threshold: nat, j: Bulk)
    requires InStep(objects, threshold, j) && StoppedByLast(objects, j) && InOrder(j.pool, j.next)
    requires CanMove(objects, threshold, j, Handle)
    ensures var j' := Moved(objects, threshold, j, Handle);
            InStep(objects, threshold, j') && StoppedByLast(objects, j') && InOrder(j'.pool, j'.next)
  {
    TasksFromNext(objects, threshold, j.next);
  }

  lemma HandleCount(objects: seq<Object>, threshold: nat, j: Bulk)
    requires CountInv(objects, threshold, j) && CanMove(objects, threshold, j, Handle)
    ensures CountInv(objects, threshold, Moved(objects, threshold, j, Handle))
  {
    var j' := Moved(objects, threshold, j, Handle);
    HandleCounted(objects, threshold, j.next, j.pool.ran, j.done);
    CountFirst(objects, threshold, j.score, LoopScore(objects[j.next]), j.once, j.done, j'.once, j'.done, j.next);
  }

  lemma HandleDue(objects: seq<Object>, threshold: nat, n: nat, j: Bulk)
    requires Inv(j.pool, n, Due(objects, threshold, j)) && Deaths(j.pool, Due(objects, threshold, j))
    requires InStep(objects, threshold, j) && CanMove(objects, threshold, j, Handle)
    ensures var j' := Moved(objects, threshold, j, Handle);
            Inv(j'.pool, n, Due(objects, threshold, j')) && Deaths(j'.pool, Due(objects, threshold, j'))
  {
    var j' := Moved(objects, threshold, j, Handle);
    if j'.raised {
      assert Due(objects, threshold, j') == Due(objects, threshold, j) - j.pool.pending;
      Dropped(j.pool, n, Due(objects, threshold, j), Due(objects, threshold, j'));
    } else {
      assert Due(objects, threshold, j') == Due(objects, threshold, j);
    }
  }

  lemma HandleCounted(objects: seq<Object>, threshold: nat, next: nat, ran: multiset<Task>, done: set<nat>)
    requires Counted(objects, threshold, next, ran, done)
    requires next < |objects| && !objects[next].IsTask()
    ensures Counted(objects, threshold, next + 1, ran, done + {next})
  {}

  /** A task that a worker holds belongs to an object not yet done. */
  lemma HeldTask(objects: seq<Object>, threshold: nat, n: nat, j: Bulk, w: nat)
    requires JobInv(objects, threshold, n, j) && w < |j.pool.workers| && j.pool.workers[w].Running?
    ensures var t := j.pool.workers[w].task;
            && t.id < |objects| && objects[t.id].IsTask() && t == TaskOf(objects, threshold, t.id)
            && t.id !in j.done
  {
    HeldNotRan(j.pool, n, Due(objects, threshold, j), w);
  }

  lemma FirstOfTwoInv(objects: seq<Object>, threshold: nat, n: nat, j: Bulk, w: nat)
    requires JobInv(objects, threshold, n, j) && CanMove(objects, threshold, j, FirstOfTwo(w))
    ensures JobInv(objects, threshold, n, Moved(objects, threshold, j, FirstOfTwo(w)))
  {
    HeldTask(objects, threshold, n, j, w);
    FirstCount(objects, threshold, j, w);
    SamePool(objects, threshold, n, j, Moved(objects, threshold, j, FirstOfTwo(w)));
  }

  lemma SamePool(objects: seq<Object>, threshold: nat, n: nat, j: Bulk, j': Bulk)
    requires PoolInv(objects, threshold, n, j)
    requires j'.pool == j.pool && j'.next == j.next && j'.raised == j.raised
    ensures PoolInv(objects, threshold, n, j')
  {
    assert Due(objects, threshold, j') == Due(objects, threshold, j);
  }

  lemma FirstCount(objects: seq<Object>, threshold: nat, j: Bulk, w: nat)
    requires CountInv(objects, threshold, j) && CanMove(objects, threshold, j, FirstOfTwo(w))
    requires j.pool.workers[w].task.id !in j.done
    ensures CountInv(objects, threshold, Moved(objects, threshold, j, FirstOfTwo(w)))
  {
    var j', i := Moved(objects, threshold, j, FirstOfTwo(w)), j.pool.workers[w].task.id;
    CountFirst(objects, threshold, j.score, FirstScore(objects[i], threshold), j.once, j.done, j'.once, j'.done, i);
  }

  lemma CallCounted(objects: seq<Object>, threshold: nat, next: nat, ran: multiset<Task>, done: set<nat>, t: Task)
    requires Counted(objects, threshold, next, ran, done) && t.id < |objects|
    requires objects[t.id].IsTask() && t == TaskOf(objects, threshold, t.id)
    ensures Counted(objects, threshold, next, ran + multiset{t}, done + {t.id})
  {
    assert forall u :: u in ran + multiset{t} <==> u == t || u in ran;
  }

  lemma PutCounted(objects: seq<Object>, threshold: nat, next: nat, ran: multiset<Task>, done: set<nat>)
    requires Counted(objects, threshold, next, ran, done)
    requires next < |objects| && objects[next].IsTask()
    ensures Counted(objects, threshold, next + 1, ran, done)
  {}

  lemma PoolInStep(objects: seq<Object>, threshold: nat, j: Bulk, s: Step)
    requires InStep(objects, threshold, j) && CanMove(objects, threshold, j, PoolStep(s))
    ensures InStep(objects, threshold, Moved(objects, threshold, j, PoolStep(s)))
  {
    if s.Put? { TasksFromNext(objects, threshold, j.next); }
  }

  /** The worker that moves on holds at most one task more, taken from the head of the queue. */
  lemma TakenNext(p: Pool, s: Step, t: Task)
    requires Enabled(p, s) && Taken(ThreadPool.Next(p, s), t)
    ensures Taken(p, t) || (s.Get? && p.queue[0] == Job(t))
  {
    var p' := ThreadPool.Next(p, s);
    if s.Call? {
      assert p.workers[s.w] in p.workers;
    }
    if Running(t) in p'.workers && (s.Get? || s.Call? || s.Complete?) {
      var i :| 0 <= i < |p'.workers| && p'.workers[i] == Running(t);
      if i != s.w { assert p.workers[i] in p.workers; }
    }
  }

  lemma OrderKept(p: Pool, next: nat, next': nat, s: Step)
    requires InOrder(p, next) && Enabled(p, s)
    requires if s.Put? then s.task.id == next < next' else next <= next'
    ensures InOrder(ThreadPool.Next(p, s), next')
  {
    var p' := ThreadPool.Next(p, s);
    forall t | Taken(p', t) ensures Taken(p, t) || (s.Get? && p.queue[0] == Job(t)) {
      TakenNext(p, s, t);
    }
    if s.Get? {
      HeadTaken(p, p', next);
    } else {
      assert forall t :: Taken(p', t) ==> Taken(p, t);
      assert p.queue <= p'.queue;
    }
  }

  lemma HeadTaken(p: Pool, p': Pool, next: nat)
    requires InOrder(p, next) && p.queue != [] && p'.queue == p.queue[1..]
    requires forall t :: Taken(p', t) ==> Taken(p, t) || p.queue[0] == Job(t)
    ensures InOrder(p', next)
  {
    assert forall a :: 0 <= a < |p'.queue| ==> p'.queue[a] == p.queue[a + 1];
  }

  lemma CallCount(objects: seq<Object>, threshold: nat, j: Bulk, w: nat)
    requires CountInv(objects, threshold, j) && CanMove(objects, threshold, j, PoolStep(Call(w)))
    requires var t := j.pool.workers[w].task;
             objects[t.id].IsTask() && t == TaskOf(objects, threshold, t.id) && t.id !in j.done
    ensures CountInv(objects, threshold, Moved(objects, threshold, j, PoolStep(Call(w))))
  {
    var j', t := Moved(objects, threshold, j, PoolStep(Call(w))), j.pool.workers[w].task;
    var i := t.id;
    CallCounted(objects, threshold, j.next, j.pool.ran, j.done, t);
    if i in j.once {
      CountSecond(objects, threshold, j.score, j.once, j.done, i);
    } else {
      CountFirst(objects, threshold, j.score, FirstScore(objects[i], threshold), j.once, j.done, j'.once, j'.done, i);
    }
  }

  /** The pool's steps leave the loop alone, but for a put. */
  lemma PoolMoveLoop(objects: seq<Object>, threshold: nat, j: Bulk, s: Step)
    requires StoppedByLast(objects, j) && CanMove(objects, threshold, j, PoolStep(s))
    ensures var j' := Moved(objects, threshold, j, PoolStep(s));
            && j'.pool == ThreadPool.Next(j.pool, s) && j'.raised == j.raised
            && j'.next == (if s.Put? then j.next + 1 else j.next) && (s.Put? ==> s.task.id == j.next)
            && StoppedByLast(objects, j') && Due(objects, threshold, j') == Due(objects, threshold, j)
  {
    var j' := Moved(objects, threshold, j, PoolStep(s));
    assert s.Put? ==> !objects[j.next].StopsLoop();
  }

  lemma PoolMovePool(objects: seq<Object>, threshold: nat, n: nat, j: Bulk, s: Step)
    requires PoolInv(objects, threshold, n, j) && CanMove(objects, threshold, j, PoolStep(s))
    ensures PoolInv(objects, threshold, n, Moved(objects, threshold, j, PoolStep(s)))
  {
    var tasks, next := Due(objects, threshold, j), Moved(objects, threshold, j, PoolStep(s)).next;
    PoolMoveLoop(objects, threshold, j, s);
    StepInv(j.pool, n, tasks, s);
    StepDeaths(j.pool, n, tasks, s);
    PoolInStep(objects, threshold, j, s);
    OrderKept(j.pool, j.next, next, s);
  }

  lemma PoolMoveInv(objects: seq<Object>, threshold: nat, n: nat, j: Bulk, s: Step)
    requires JobInv(objects, threshold, n, j) && CanMove(objects, threshold, j, PoolStep(s))
    ensures JobInv(objects, threshold, n, Moved(objects, threshold, j, PoolStep(s)))
  {
    PoolMovePool(objects, threshold, n, j, s);
    if s.Call? {
      HeldTask(objects, threshold, n, j, s.w);
      CallCount(objects, threshold, j, s.w);
    } else if s.Put? {
      PutCounted(objects, threshold, j.next, j.pool.ran, j.done);
    } else {
      assert Moved(objects, threshold, j, PoolStep(s)).pool.ran == j.pool.ran;
    }
  }

  lemma MoveInv(objects: seq<Object>, threshold: nat, n: nat, j: Bulk, m: Move)
    requires JobInv(objects, threshold, n, j) && CanMove(objects, threshold, j, m)
    ensures JobInv(objects, threshold, n, Moved(objects, threshold, j, m))
  {
    match m
    case Handle => HandleInv(objects, threshold, n, j);
    case FirstOfTwo(w) => FirstOfTwoInv(objects, threshold, n, j, w);
    case PoolStep(s) => PoolMoveInv(objects, threshold, n, j, s);
  }

  lemma {:induction false} JobRunInv(objects: seq<Object>, threshold: nat, n: nat, j: Bulk, moves: seq<Move>)
    requires JobInv(objects, threshold, n, j) && IsJobRun(objects, threshold, j, moves)
    ensures JobInv(objects, threshold, n, JobAfter(objects, threshold, j, moves))
    decreases |moves|
  {
    if moves != [] {
      MoveInv(objects, threshold, n, j, moves[0]);
      JobRunInv(objects, threshold, n, Moved(objects, threshold, j, moves[0]), moves[1..]);
    }
  }

  lemma StartInv(objects: seq<Object>, threshold: nat, taskNum: nat, queueSize: int)
    ensures JobInv(objects, threshold, taskNum, Start(objects, threshold, taskNum, queueSize))
  {
    var start, tasks := Start(objects, threshold, taskNum, queueSize), TasksFrom(objects, threshold, 0);
    InitInv(taskNum, queueSize, true, tasks);
    InitDeaths(taskNum, queueSize, true, tasks);
    assert Due(objects, threshold, start) == tasks;
    assert start.done + start.once == {} && Succeeded(objects, threshold, {}) == {};
    assert Doubled(objects, threshold, start.done) == {};
  }

  // ------------------------------------------------------------------- the runs

  /**
   The account of every job, after every step of every run and whatever raises: nothing is
   assumed of threads, queue or callbacks.
   */
  lemma JobAccounts(objects: seq<Object>, threshold: nat, taskNum: nat, queueSize: int, moves: seq<Move>)
    requires IsJobRun(objects, threshold, Start(objects, threshold, taskNum, queueSize), moves)
    ensures var j := JobAfter(objects, threshold, Start(objects, threshold, taskNum, queueSize), moves);
            Accounts(objects, threshold, j.score, j.once, j.done)
  {
    StartInv(objects, threshold, taskNum, queueSize);
    JobRunInv(objects, threshold, taskNum, Start(objects, threshold, taskNum, queueSize), moves);
  }

  ghost predicate JobStopped(objects: seq<Object>, threshold: nat, j: Bulk) {
    forall m :: !CanMove(objects, threshold, j, m)
  }

  /** A run of the job that nothing can follow. */
  ghost predicate IsCompleteRun(objects: seq<Object>, threshold: nat, start: Bulk, moves: seq<Move>) {
    && IsJobRun(objects, threshold, start, moves)
    && JobStopped(objects, threshold, JobAfter(objects, threshold, start, moves))
  }

  lemma {:induction false} KeepsPool(objects: seq<Object>, threshold: nat, j: Bulk, moves: seq<Move>)
    requires IsJobRun(objects, threshold, j, moves)
    ensures JobAfter(objects, threshold, j, moves).pool.wait == j.pool.wait
    ensures JobAfter(objects, threshold, j, moves).pool.capacity == j.pool.capacity
    decreases |moves|
  {
    if moves != [] {
      KeepsPool(objects, threshold, Moved(objects, threshold, j, moves[0]), moves[1..]);
    }
  }

  /** The numbers below n. */
  function UpTo(n: nat): (s: set<nat>)
    ensures |s| == n && forall i: nat :: i in s <==> i < n
  {
    if n == 0 then {} else UpTo(n - 1) + {n - 1}
  }

  /** What the job has left to do: objects to list, first counts to make, and the pool's own work. */
  function JobMeasure(objects: seq<Object>, j: Bulk): int {
    Measure(j.pool) + |objects| - j.next + |objects| - |j.once|
  }

  /** The sets and numbers that the measure counts are within bounds. */
  ghost predicate Bounded(objects: seq<Object>, j: Bulk) {
    j.next <= |objects| && j.once <= UpTo(|objects|)
  }

  lemma MoveDecreases(objects: seq<Object>, threshold: nat, j: Bulk, m: Move)
    requires Bounded(objects, j) && CanMove(objects, threshold, j, m)
    ensures Bounded(objects, Moved(objects, threshold, j, m))
    ensures 0 <= JobMeasure(objects, Moved(objects, threshold, j, m)) < JobMeasure(objects, j)
  {
    if m.PoolStep? { StepDecreases(j.pool, m.step); }
    SubsetSize(j.once, UpTo(|objects|));
    SubsetSize(Moved(objects, threshold, j, m).once, UpTo(|objects|));
  }

  /** No interleaving of the loop and the workers goes on for ever. */
  lemma {:induction false} JobRunLength(objects: seq<Object>, threshold: nat, j: Bulk, moves: seq<Move>)
    requires IsJobRun(objects, threshold, j, moves) && Bounded(objects, j)
    ensures |moves| <= JobMeasure(objects, j) && Bounded(objects, JobAfter(objects, threshold, j, moves))
    decreases |moves|
  {
    if moves == [] {
      SubsetSize(j.once, UpTo(|objects|));
    } else {
      MoveDecreases(objects, threshold, j, moves[0]);
      JobRunLength(objects, threshold, Moved(objects, threshold, j, moves[0]), moves[1..]);
    }
  }

  /** Every job can be continued until nothing moves. */
  lemma JobRunToEnd(objects: seq<Object>, threshold: nat, j: Bulk) returns (moves: seq<Move>)
    requires Bounded(objects, j)
    ensures IsJobRun(objects, threshold, j, moves)
    ensures JobStopped(objects, threshold, JobAfter(objects, threshold, j, moves))
    decreases JobMeasure(objects, j)
  {
    moves := [];
    if !JobStopped(objects, threshold, j) {
      var m :| CanMove(objects, threshold, j, m);
      MoveDecreases(objects, threshold, j, m);
      var rest := JobRunToEnd(objects, threshold, Moved(objects, threshold, j, m));
      moves := [m] + rest;
    }
  }

  lemma {:induction false} JobRunAppend(objects: seq<Object>, threshold: nat, j: Bulk, a: seq<Move>, b: seq<Move>)
    requires IsJobRun(objects, threshold, j, a)
    requires IsJobRun(objects, threshold, JobAfter(objects, threshold, j, a), b)
    ensures IsJobRun(objects, threshold, j, a + b)
    ensures JobAfter(objects, threshold, j, a + b)
            == JobAfter(objects, threshold, JobAfter(objects, threshold, j, a), b)
    decreases |a|
  {
    if a == [] {
      assert a + b == b;
    } else {
      assert (a + b)[1..] == a[1..] + b;
      JobRunAppend(objects, threshold, Moved(objects, threshold, j, a[0]), a[1..], b);
    }
  }


}
