/**
 How bulk downloads end.  Which of them count every listed object exactly once in all
 interleavings is decided by a condition on the objects, the threads and the queue; the
 first half of the module proves it sufficient, the second half necessary.
 */
module BulkOutcome {
  import opened ThreadPool
  import opened BulkJob

  // ------------------------------------------------------- which jobs end well

  /** How many of the first k objects end the thread that downloads them. */
  function Raising(objects: seq<Object>, threshold: nat, k: nat): nat
    requires k <= |objects|
  {
    if k == 0 then 0
    else Raising(objects, threshold, k - 1)
         + if objects[k - 1].IsTask() && TaskRaises(objects[k - 1], threshold) then 1 else 0
  }

  /**
   The condition on a job: each download finds a thread that no earlier one has ended, and
   the sentinels that ended threads will not take fit into the queue.
   */
  predicate JobSafe(objects: seq<Object>, threshold: nat, taskNum: nat, queueSize: int) {
    && (forall i: nat {:trigger objects[i]} :: i < |objects| && objects[i].IsTask() ==>
          Raising(objects, threshold, i) < taskNum)
    && (queueSize <= 0 || Raising(objects, threshold, |objects|) <= queueSize)
  }

  /** No object that the loop itself fails has a callback that raises there. */
  predicate LoopQuiet(objects: seq<Object>) {
    forall i: nat {:trigger objects[i]} :: i < |objects| ==> !objects[i].StopsLoop()
  }

  /** Shutdown has returned, and every object that the loop got to was handled or its task called. */
  ghost predicate JobEnds(objects: seq<Object>, j: Bulk) {
    && j.pool.phase.Returned? && (j.raised || j.next == |objects|)
    && forall i: nat :: i < j.next ==> i in j.done
  }

  /** The download has returned, and every object was handled or its task called. */
  ghost predicate JobEndsWell(objects: seq<Object>, j: Bulk) {
    && j.pool.phase.Returned? && !j.raised
    && forall i: nat :: i < |objects| ==> i in j.done
  }

  /** The tasks among the first k objects that end their thread. */
  function Raisers(objects: seq<Object>, threshold: nat, k: nat): set<Task>
    requires k <= |objects|
  {
    set t | t in TasksFrom(objects, threshold, 0) && t.id < k && t.raises
  }

  lemma {:induction false} RaisersCount(objects: seq<Object>, threshold: nat, k: nat)
    requires k <= |objects|
    ensures |Raisers(objects, threshold, k)| == Raising(objects, threshold, k)
  {
    if k == 0 {
      assert Raisers(objects, threshold, k) == {};
    } else {
      RaisersCount(objects, threshold, k - 1);
      RaisersNext(objects, threshold, k - 1);
    }
  }

  lemma RaisersNext(objects: seq<Object>, threshold: nat, k: nat)
    requires k < |objects|
    ensures var before, t := Raisers(objects, threshold, k), TaskOf(objects, threshold, k);
            && t !in before
            && Raisers(objects, threshold, k + 1) == if objects[k].IsTask() && t.raises then before + {t} else before
  {
    var before, t := Raisers(objects, threshold, k), TaskOf(objects, threshold, k);
    var after := Raisers(objects, threshold, k + 1);
    forall u ensures u in after <==> u in before || (u == t && objects[k].IsTask() && t.raises) {
      assert u in TasksFrom(objects, threshold, 0) && u.id == k ==> u == t;
    }
    assert after == if objects[k].IsTask() && t.raises then before + {t} else before;
  }

  /** As many threads have died as there are raising tasks called. */
  lemma DeadAreRaisers(objects: seq<Object>, threshold: nat, n: nat, j: Bulk, k: nat)
    requires JobInv(objects, threshold, n, j) && k <= |objects|
    ensures (forall t :: t in j.pool.ran ==> t.id < k) ==>
              Count(j.pool.workers, Died) <= Raising(objects, threshold, k)
    ensures (forall t :: t in TasksFrom(objects, threshold, 0) ==> t in j.pool.ran) ==>
              Count(j.pool.workers, Died) >= Raising(objects, threshold, k)
  {
    var dead, raisers := Spent(j.pool, Due(objects, threshold, j)), Raisers(objects, threshold, k);
    RaisersCount(objects, threshold, k);
    if forall t :: t in j.pool.ran ==> t.id < k { SubsetSize(dead, raisers); }
    if forall t :: t in TasksFrom(objects, threshold, 0) ==> t in j.pool.ran {
      forall t | t in raisers ensures t in dead {
        assert j.pool.ran[t] > 0;
      }
      SubsetSize(raisers, dead);
    }
  }

  /** A task that is neither called nor held by a worker is queued or still to be put. */
  lemma NotTaken(p: Pool, tasks: set<Task>, t: Task)
    requires ThreadPool.Conserved(p, tasks) && t in tasks && !Taken(p, t)
    ensures t in p.pending || Job(t) in p.queue
  {
    assert Count(p.workers, Running(t)) == 0;
    assert t !in p.pending ==> Count(p.queue, Job(t)) == 1;
  }

  /** All tasks called before one that is queued or to come are earlier ones. */
  lemma CalledAreEarlier(objects: seq<Object>, threshold: nat, j: Bulk, t: Task)
    requires InOrder(j.pool, j.next) && InStep(objects, threshold, j)
    requires t in j.pool.pending || Job(t) in j.pool.queue
    ensures forall u :: u in j.pool.ran ==> u.id < t.id
  {
    if Job(t) in j.pool.queue {
      var a :| 0 <= a < |j.pool.queue| && j.pool.queue[a] == Job(t);
      forall u | u in j.pool.ran ensures u.id < t.id {
        assert Taken(j.pool, u);
      }
    } else {
      assert t.id >= j.next;
      forall u | u in j.pool.ran ensures u.id < t.id {
        assert Taken(j.pool, u);
      }
    }
  }

  /** With all threads ended, a task is left over only if all of them have died. */
  lemma LeftOverAllDied(p: Pool, n: nat, tasks: set<Task>, t: Task)
    requires Inv(p, n, tasks) && p.AllEnded() && (t in p.pending || Job(t) in p.queue)
    ensures Count(p.workers, Died) == n
  {
    CountTwo(p.workers, Exited, Died);
    assert forall w :: w in p.workers ==> w == Exited || w == Died;
    assert Count(p.workers, Exited) > 0 ==> Exited in p.workers && p.alive < n;
  }

  /** Under the condition every task that was due has been called when nothing more can happen. */
  lemma StoppedAllCalled(objects: seq<Object>, threshold: nat, n: nat, j: Bulk, t: Task)
    requires JobInv(objects, threshold, n, j) && Stopped(j.pool)
    requires t in Due(objects, threshold, j) && Raising(objects, threshold, t.id) < n
    ensures t in j.pool.ran
  {
    var tasks := Due(objects, threshold, j);
    StoppedAllEnded(j.pool, n, tasks);
    if t !in j.pool.ran {
      assert Running(t) !in j.pool.workers;
      NotTaken(j.pool, tasks, t);
      CalledAreEarlier(objects, threshold, j, t);
      DeadAreRaisers(objects, threshold, n, j, t.id);
      LeftOverAllDied(j.pool, n, tasks, t);
      assert false;
    }
  }

  lemma StoppedSafeReturned(objects: seq<Object>, threshold: nat, n: nat, j: Bulk)
    requires JobInv(objects, threshold, n, j) && Stopped(j.pool)
    requires JobSafe(objects, threshold, n, j.pool.capacity)
    ensures JobEnds(objects, j)
  {
    DueCalled(objects, threshold, n, j);
    DeadAreRaisers(objects, threshold, n, j, |objects|);
    CalledAllReturned(j.pool, n, Due(objects, threshold, j));
    DueDone(objects, threshold, j);
  }

  lemma DueDone(objects: seq<Object>, threshold: nat, j: Bulk)
    requires CountInv(objects, threshold, j) && InStep(objects, threshold, j)
    requires forall t :: t in Due(objects, threshold, j) ==> t in j.pool.ran
    ensures forall i: nat :: i < j.next ==> i in j.done
  {
    forall i: nat | i < j.next && objects[i].IsTask() ensures i in j.done {
      assert TaskOf(objects, threshold, i) in Due(objects, threshold, j);
    }
  }

  lemma DueCalled(objects: seq<Object>, threshold: nat, n: nat, j: Bulk)
    requires JobInv(objects, threshold, n, j) && Stopped(j.pool)
    requires JobSafe(objects, threshold, n, j.pool.capacity)
    ensures forall t :: t in Due(objects, threshold, j) ==> t in j.pool.ran
    ensures forall t :: t in j.pool.ran ==> t.id < |objects|
  {
    forall t | t in Due(objects, threshold, j) ensures t in j.pool.ran {
      assert objects[t.id].IsTask();
      StoppedAllCalled(objects, threshold, n, j, t);
    }
    forall t | t in j.pool.ran ensures t.id < |objects| {
      assert Taken(j.pool, t);
    }
  }

  /** With every task called, only a queue too small for the sentinels can keep shutdown. */
  lemma CalledAllReturned(p: Pool, n: nat, tasks: set<Task>)
    requires Inv(p, n, tasks) && Stopped(p) && forall t :: t in tasks ==> t in p.ran
    requires p.capacity <= 0 || Count(p.workers, Died) <= p.capacity
    ensures p.phase.Returned?
  {
    assert forall t :: t !in p.pending;
    StoppedAllEnded(p, n, tasks);
    StoppedCaller(p, n, tasks);
    if p.phase.Putting? {
      CountTwo(p.workers, Exited, Died);
      NoJobsQueued(p, tasks);
      CountAll(p.queue, Sentinel);
      assert false;
    }
  }

  /** Tasks that have been called are no longer queued. */
  lemma NoJobsQueued(p: Pool, tasks: set<Task>)
    requires ThreadPool.Conserved(p, tasks) && forall t :: t in tasks ==> t in p.ran
    ensures forall i :: i in p.queue ==> i == Sentinel
  {
    forall t ensures Job(t) !in p.queue {
      assert Count(p.queue, Job(t)) == 0;
    }
  }

  /** What the loop can do as long as it has something to put. */
  lemma PendingMoves(objects: seq<Object>, threshold: nat, j: Bulk) returns (m: Move)
    requires InStep(objects, threshold, j) && j.pool.phase.Open? && !j.raised && j.next < |objects|
    requires objects[j.next].IsTask() ==> !j.pool.Full()
    ensures CanMove(objects, threshold, j, m)
  {
    if objects[j.next].IsTask() {
      TasksFromNext(objects, threshold, j.next);
      m := PoolStep(Put(TaskOf(objects, threshold, j.next)));
    } else {
      m := Handle;
    }
  }

  /** Where the pool can do something the job can, although not always the same. */
  lemma EnabledMoves(objects: seq<Object>, threshold: nat, n: nat, j: Bulk, s: Step) returns (m: Move)
    requires JobInv(objects, threshold, n, j) && Enabled(j.pool, s)
    ensures CanMove(objects, threshold, j, m)
  {
    m := PoolStep(s);
    if s.Put? {
      assert !j.raised && j.next < |objects|;
      m := PendingMoves(objects, threshold, j);
    } else if s.BeginShutdown? && !j.raised && j.next < |objects| {
      TasksFromNext(objects, threshold, j.next);
      m := PendingMoves(objects, threshold, j);
    } else if s.Call? {
      HeldTask(objects, threshold, n, j, s.w);
      var i := j.pool.workers[s.w].task.id;
      if CountedTwice(objects[i], threshold) && i !in j.once { m := FirstOfTwo(s.w); }
    }
  }

  /** A job that cannot move leaves its pool nothing to do either. */
  lemma StoppedPool(objects: seq<Object>, threshold: nat, n: nat, j: Bulk)
    requires JobInv(objects, threshold, n, j) && JobStopped(objects, threshold, j)
    ensures Stopped(j.pool)
  {
    forall s ensures !Enabled(j.pool, s) {
      if Enabled(j.pool, s) { var m := EnabledMoves(objects, threshold, n, j, s); }
    }
  }

  /** A waited return is the end of a job: nothing happens any more. */
  lemma ReturnedJobStopped(objects: seq<Object>, threshold: nat, n: nat, j: Bulk)
    requires JobInv(objects, threshold, n, j) && j.pool.phase.Returned? && j.pool.wait
    ensures JobStopped(objects, threshold, j)
  {
    ReturnedPool(j.pool, n, Due(objects, threshold, j));
    forall m ensures !CanMove(objects, threshold, j, m) {
      NoMove(objects, threshold, j, m);
    }
  }

  lemma NoMove(objects: seq<Object>, threshold: nat, j: Bulk, m: Move)
    requires Stopped(j.pool) && !j.pool.phase.Open?
    requires forall w :: w in j.pool.workers ==> !w.Running?
    ensures !CanMove(objects, threshold, j, m)
  {
    match m
    case Handle =>
    case FirstOfTwo(w) => assert w < |j.pool.workers| ==> j.pool.workers[w] in j.pool.workers;
    case PoolStep(s) => assert !Enabled(j.pool, s);
  }

  // --------------------------------------------------- the condition is needed

  /** The objects before `next` were handled one by one, and every raising one ended a thread. */
  ghost predicate InTurn(objects: seq<Object>, threshold: nat, n: nat, j: Bulk) {
    && j.next <= |objects| && Raising(objects, threshold, j.next) <= n && !j.raised
    && j.pool.pending == TasksFrom(objects, threshold, j.next)
    && j.pool.phase.Open? && j.pool.queue == [] && |j.pool.workers| == n
    && (forall i :: i in j.once ==> i < j.next)
    && forall w: nat :: w < n ==>
         j.pool.workers[w] == if w < Raising(objects, threshold, j.next) then Died else Waiting
  }

  lemma OneInTurn(objects: seq<Object>, threshold: nat, n: nat, j: Bulk) returns (moves: seq<Move>)
    requires InTurn(objects, threshold, n, j) && j.next < |objects| && Raising(objects, threshold, j.next) < n
    requires !objects[j.next].StopsLoop()
    ensures IsJobRun(objects, threshold, j, moves)
    ensures InTurn(objects, threshold, n, JobAfter(objects, threshold, j, moves))
    ensures JobAfter(objects, threshold, j, moves).next == j.next + 1
  {
    if objects[j.next].IsTask() {
      moves := HoldInTurn(objects, threshold, n, j, Raising(objects, threshold, j.next));
      var held := JobAfter(objects, threshold, j, moves);
      var last := CallInTurn(objects, threshold, n, held, Raising(objects, threshold, j.next));
      JobRunAppend(objects, threshold, j, moves, last);
      moves := moves + last;
    } else {
      moves := [Handle];
      TasksFromNext(objects, threshold, j.next);
      OneMove(objects, threshold, j, Handle);
    }
  }

  /** The task just put is held by the first thread left. */
  ghost predicate HeldInTurn(objects: seq<Object>, threshold: nat, n: nat, j: Bulk, k: nat) {
    && 0 < j.next <= |objects| && k == Raising(objects, threshold, j.next - 1) < n && !j.raised
    && j.pool.pending == TasksFrom(objects, threshold, j.next)
    && j.pool.phase.Open? && j.pool.queue == [] && |j.pool.workers| == n
    && objects[j.next - 1].IsTask()
    && j.pool.workers[k] == Running(TaskOf(objects, threshold, j.next - 1))
    && (forall w: nat :: w < n && w != k ==> j.pool.workers[w] == if w < k then Died else Waiting)
    && (forall i :: i in j.once ==> i < j.next)
  }

  lemma HoldInTurn(objects: seq<Object>, threshold: nat, n: nat, j: Bulk, k: nat) returns (moves: seq<Move>)
    requires InTurn(objects, threshold, n, j) && j.next < |objects| && objects[j.next].IsTask()
    requires k == Raising(objects, threshold, j.next) < n
    ensures IsJobRun(objects, threshold, j, moves)
    ensures HeldInTurn(objects, threshold, n, JobAfter(objects, threshold, j, moves), k)
    ensures JobAfter(objects, threshold, j, moves).next == j.next + 1
  {
    var put, get := PoolStep(Put(TaskOf(objects, threshold, j.next))), PoolStep(Get(k));
    TasksFromNext(objects, threshold, j.next);
    var j1 := Moved(objects, threshold, j, put);
    assert j1.pool.queue == [Job(TaskOf(objects, threshold, j.next))];
    OneMove(objects, threshold, j, put);
    OneMove(objects, threshold, j1, get);
    JobRunAppend(objects, threshold, j, [put], [get]);
    moves := [put] + [get];
  }

  /** It is counted a first time if it will be counted twice, and called. */
  lemma CallInTurn(objects: seq<Object>, threshold: nat, n: nat, j: Bulk, k: nat) returns (moves: seq<Move>)
    requires HeldInTurn(objects, threshold, n, j, k)
    ensures IsJobRun(objects, threshold, j, moves)
    ensures InTurn(objects, threshold, n, JobAfter(objects, threshold, j, moves))
    ensures JobAfter(objects, threshold, j, moves).next == j.next
  {
    var i := j.next - 1;
    if CountedTwice(objects[i], threshold) && i !in j.once {
      var first := FirstOfTwo(k);
      var j1 := Moved(objects, threshold, j, first);
      OneMove(objects, threshold, j, first);
      LastInTurn(objects, threshold, n, j1, k);
      OneMove(objects, threshold, j1, PoolStep(Call(k)));
      JobRunAppend(objects, threshold, j, [first], [PoolStep(Call(k))]);
      moves := [first] + [PoolStep(Call(k))];
    } else {
      LastInTurn(objects, threshold, n, j, k);
      OneMove(objects, threshold, j, PoolStep(Call(k)));
      moves := [PoolStep(Call(k))];
    }
  }

  lemma LastInTurn(objects: seq<Object>, threshold: nat, n: nat, j: Bulk, k: nat)
    requires HeldInTurn(objects, threshold, n, j, k)
    requires CountedTwice(objects[j.next - 1], threshold) ==> j.next - 1 in j.once
    ensures CanMove(objects, threshold, j, PoolStep(Call(k)))
    ensures var j' := Moved(objects, threshold, j, PoolStep(Call(k)));
            InTurn(objects, threshold, n, j') && j'.next == j.next
  {
    var t := TaskOf(objects, threshold, j.next - 1);
    var j' := Moved(objects, threshold, j, PoolStep(Call(k)));
    assert j'.pool.workers == j.pool.workers[k := if t.raises then Died else Waiting];
    assert Raising(objects, threshold, j.next) == k + if t.raises then 1 else 0;
  }

  /** In listing order, one object after the other, until every thread has ended. */
  lemma {:induction false} AllInTurn(objects: seq<Object>, threshold: nat, n: nat, j: Bulk, i: nat)
    returns (moves: seq<Move>)
    requires InTurn(objects, threshold, n, j) && j.next <= i <= |objects| && Raising(objects, threshold, i) >= n
    requires LoopQuiet(objects)
    ensures IsJobRun(objects, threshold, j, moves)
    ensures var j' := JobAfter(objects, threshold, j, moves);
            InTurn(objects, threshold, n, j') && j'.next <= i && Raising(objects, threshold, j'.next) == n
    decreases i - j.next
  {
    moves := [];
    if Raising(objects, threshold, j.next) < n {
      var first := OneInTurn(objects, threshold, n, j);
      var j1 := JobAfter(objects, threshold, j, first);
      var rest := AllInTurn(objects, threshold, n, j1, i);
      JobRunAppend(objects, threshold, j, first, rest);
      moves := first + rest;
    }
  }

  /** With every thread dead no object is downloaded any more. */
  lemma {:induction false} NoThreadLeft(objects: seq<Object>, threshold: nat, j: Bulk, moves: seq<Move>)
    requires IsJobRun(objects, threshold, j, moves) && forall w :: w in j.pool.workers ==> w.Died?
    ensures JobAfter(objects, threshold, j, moves).pool.ran == j.pool.ran
    decreases |moves|
  {
    if moves != [] {
      assert forall w: nat :: w < |j.pool.workers| ==> j.pool.workers[w] in j.pool.workers;
      NoThreadLeft(objects, threshold, Moved(objects, threshold, j, moves[0]), moves[1..]);
    }
  }

  /** Too few threads: the job ends without having called task number i. */
  lemma TooFewThreads(objects: seq<Object>, threshold: nat, n: nat, queueSize: int, i: nat)
    returns (moves: seq<Move>)
    requires i < |objects| && objects[i].IsTask() && Raising(objects, threshold, i) >= n && LoopQuiet(objects)
    ensures var start := Start(objects, threshold, n, queueSize);
            && IsCompleteRun(objects, threshold, start, moves)
            && i !in JobAfter(objects, threshold, start, moves).done
  {
    var start := Start(objects, threshold, n, queueSize);
    var first := AllDead(objects, threshold, n, queueSize, i);
    var j := JobAfter(objects, threshold, start, first);
    var rest := JobRunToEnd(objects, threshold, j);
    NeverCalled(objects, threshold, n, j, i, rest);
    JobRunAppend(objects, threshold, start, first, rest);
    moves := first + rest;
  }

  /** A run after which no thread is left, with task number i still to be put. */
  lemma AllDead(objects: seq<Object>, threshold: nat, n: nat, queueSize: int, i: nat)
    returns (moves: seq<Move>)
    requires i < |objects| && objects[i].IsTask() && Raising(objects, threshold, i) >= n && LoopQuiet(objects)
    ensures var start := Start(objects, threshold, n, queueSize);
            && IsJobRun(objects, threshold, start, moves)
            && var j := JobAfter(objects, threshold, start, moves);
            && JobInv(objects, threshold, n, j) && j.next <= i && !j.raised && Bounded(objects, j)
            && forall w :: w in j.pool.workers ==> w.Died?
  {
    var start := Start(objects, threshold, n, queueSize);
    StartInv(objects, threshold, n, queueSize);
    moves := AllInTurn(objects, threshold, n, start, i);
    JobRunInv(objects, threshold, n, start, moves);
    JobRunLength(objects, threshold, start, moves);
  }

  lemma NeverCalled(objects: seq<Object>, threshold: nat, n: nat, j: Bulk, i: nat, rest: seq<Move>)
    requires JobInv(objects, threshold, n, j) && IsJobRun(objects, threshold, j, rest)
    requires forall w :: w in j.pool.workers ==> w.Died?
    requires j.next <= i < |objects| && objects[i].IsTask() && !j.raised
    ensures i !in JobAfter(objects, threshold, j, rest).done
  {
    var t := TaskOf(objects, threshold, i);
    JobRunInv(objects, threshold, n, j, rest);
    NoThreadLeft(objects, threshold, j, rest);
    assert t in j.pool.pending;
    assert j.pool.ran[t] == 0;
  }

  /** Too small a queue: with all tasks called, the dead threads' sentinels do not fit. */
  lemma TooSmallQueue(objects: seq<Object>, threshold: nat, n: nat, j: Bulk)
    requires JobInv(objects, threshold, n, j) && j.pool.wait
    requires 0 < j.pool.capacity < Raising(objects, threshold, |objects|)
    ensures !JobEndsWell(objects, j)
  {
    if JobEndsWell(objects, j) {
      var p := j.pool;
      forall t | t in TasksFrom(objects, threshold, 0) ensures t in p.ran {
        assert t == TaskOf(objects, threshold, t.id) && t.id in j.done;
      }
      DeadAreRaisers(objects, threshold, n, j, |objects|);
      CountTwo(p.workers, Exited, Died);
      CountAll(p.queue, Sentinel);
      assert false;
    }
  }

  /** A loop that is stopped ends no job well. */
  lemma StoppedLoop(objects: seq<Object>, threshold: nat, n: nat, j: Bulk)
    requires JobInv(objects, threshold, n, j) && !LoopQuiet(objects)
    ensures !JobEndsWell(objects, j)
  {
    var i: nat :| i < |objects| && objects[i].StopsLoop();
    assert i in j.done <==> i < j.next;
  }

  /** Where the condition fails, some run ends badly. */
  lemma UnsafeJobRun(objects: seq<Object>, threshold: nat, taskNum: nat, queueSize: int)
    returns (moves: seq<Move>)
    requires !JobSafe(objects, threshold, taskNum, queueSize) || !LoopQuiet(objects)
    ensures var start := Start(objects, threshold, taskNum, queueSize);
            && IsCompleteRun(objects, threshold, start, moves)
            && !JobEndsWell(objects, JobAfter(objects, threshold, start, moves))
  {
    var start := Start(objects, threshold, taskNum, queueSize);
    if i: nat :| LoopQuiet(objects) && i < |objects| && objects[i].IsTask()
                 && Raising(objects, threshold, i) >= taskNum {
      moves := TooFewThreads(objects, threshold, taskNum, queueSize, i);
    } else {
      moves := JobRunToEnd(objects, threshold, start);
      var j := JobAfter(objects, threshold, start, moves);
      StartInv(objects, threshold, taskNum, queueSize);
      JobRunInv(objects, threshold, taskNum, start, moves);
      KeepsPool(objects, threshold, start, moves);
      if LoopQuiet(objects) {
        TooSmallQueue(objects, threshold, taskNum, j);
      } else {
        StoppedLoop(objects, threshold, taskNum, j);
      }
    }
  }

  // ------------------------------------------------------------ the main results

  /**
   Under the condition on threads and queue a complete run has ended, returned or raised,
   with every object done that the loop got to.
   */
  lemma CompleteRunEnds(objects: seq<Object>, threshold: nat, taskNum: nat, queueSize: int, moves: seq<Move>)
    requires IsCompleteRun(objects, threshold, Start(objects, threshold, taskNum, queueSize), moves)
    requires JobSafe(objects, threshold, taskNum, queueSize)
    ensures var j := JobAfter(objects, threshold, Start(objects, threshold, taskNum, queueSize), moves);
            JobEnds(objects, j) && (LoopQuiet(objects) ==> JobEndsWell(objects, j))
  {
    var start := Start(objects, threshold, taskNum, queueSize);
    var j := JobAfter(objects, threshold, start, moves);
    StartInv(objects, threshold, taskNum, queueSize);
    JobRunInv(objects, threshold, taskNum, start, moves);
    KeepsPool(objects, threshold, start, moves);
    StoppedPool(objects, threshold, taskNum, j);
    StoppedSafeReturned(objects, threshold, taskNum, j);
    assert j.raised ==> objects[j.next - 1].StopsLoop();
  }

  /** All runs of a job end well if and only if the job meets the condition. */
  lemma EveryJobEndsWell(objects: seq<Object>, threshold: nat, taskNum: nat, queueSize: int)
    ensures var start := Start(objects, threshold, taskNum, queueSize);
            (forall moves :: IsCompleteRun(objects, threshold, start, moves)
                             ==> JobEndsWell(objects, JobAfter(objects, threshold, start, moves)))
            <==> JobSafe(objects, threshold, taskNum, queueSize) && LoopQuiet(objects)
  {
    var start := Start(objects, threshold, taskNum, queueSize);
    if JobSafe(objects, threshold, taskNum, queueSize) && LoopQuiet(objects) {
      forall moves | IsCompleteRun(objects, threshold, start, moves)
        ensures JobEndsWell(objects, JobAfter(objects, threshold, start, moves))
      {
        CompleteRunEnds(objects, threshold, taskNum, queueSize, moves);
      }
    } else {
      var bad := UnsafeJobRun(objects, threshold, taskNum, queueSize);
      assert IsCompleteRun(objects, threshold, start, bad);
    }
  }

  /** Ended well, with every object counted once: as a success, or as a failure. */
  ghost predicate CountsRight(objects: seq<Object>, threshold: nat, j: Bulk) {
    var succeeded := |Succeeded(objects, threshold, UpTo(|objects|))|;
    JobEndsWell(objects, j) && succeeded <= |objects| && j.score == Score(succeeded, |objects| - succeeded)
  }

  /** A job that has ended well has counted right unless an object was counted twice. */
  lemma EndedCounts(objects: seq<Object>, threshold: nat, taskNum: nat, queueSize: int, moves: seq<Move>)
    requires IsJobRun(objects, threshold, Start(objects, threshold, taskNum, queueSize), moves)
    requires JobEndsWell(objects, JobAfter(objects, threshold, Start(objects, threshold, taskNum, queueSize), moves))
    ensures CountsRight(objects, threshold,
                        JobAfter(objects, threshold, Start(objects, threshold, taskNum, queueSize), moves))
            <==> forall i: nat :: i < |objects| ==> !CountedTwice(objects[i], threshold)
  {
    var start := Start(objects, threshold, taskNum, queueSize);
    StartInv(objects, threshold, taskNum, queueSize);
    JobRunInv(objects, threshold, taskNum, start, moves);
    AllDoneCounts(objects, threshold, JobAfter(objects, threshold, start, moves));
  }

  lemma AllDoneCounts(objects: seq<Object>, threshold: nat, j: Bulk)
    requires CountInv(objects, threshold, j) && JobEndsWell(objects, j)
    ensures CountsRight(objects, threshold, j)
            <==> forall i: nat :: i < |objects| ==> !CountedTwice(objects[i], threshold)
  {
    assert j.done == UpTo(|objects|) && j.done + j.once == j.done;
    AllCounts(objects, threshold);
  }

  lemma AllCounts(objects: seq<Object>, threshold: nat)
    ensures var all := UpTo(|objects|);
            && |Succeeded(objects, threshold, all)| <= |objects|
            && (|Doubled(objects, threshold, all)| == 0
                <==> forall i: nat :: i < |objects| ==> !CountedTwice(objects[i], threshold))
  {
    var all := UpTo(|objects|);
    var doubled := Doubled(objects, threshold, all);
    assert forall i: nat :: i < |objects| ==> (i in doubled <==> CountedTwice(objects[i], threshold));
    SubsetSize(Succeeded(objects, threshold, all), all);
  }

  lemma ConditionMeans(objects: seq<Object>, threshold: nat)
    ensures LoopQuiet(objects) <==>
              forall o :: o in objects && (o.illegalPath || o.mkdirFails) ==> !o.loopCallbackRaises
    ensures (forall i: nat :: i < |objects| ==> !CountedTwice(objects[i], threshold)) <==>
              forall o :: o in objects && !o.illegalPath && !o.mkdirFails && !o.directory && o.callbackRaises ==>
                (if o.size < threshold then o.small else o.large) == Raises
  {
    assert forall i: nat :: i < |objects| ==> objects[i] in objects;
  }

  lemma CountsRightMeans(objects: seq<Object>, threshold: nat, j: Bulk)
    ensures CountsRight(objects, threshold, j) <==>
              var good := set i: nat | i < |objects|
                && var o := objects[i];
                   var res := if o.size < threshold then o.small else o.large;
                   !o.illegalPath && !o.mkdirFails && (o.directory || (res != Raises && res.status < 300));
              && j.pool.phase == Returned && !j.raised && (forall i: nat :: i < |objects| ==> i in j.done)
              && j.score.successful == |good| && j.score.successful + j.score.failed == |objects|
  {
    var good := set i: nat | i < |objects|
      && var o := objects[i];
         var res := if o.size < threshold then o.small else o.large;
         !o.illegalPath && !o.mkdirFails && (o.directory || (res != Raises && res.status < 300));
    assert good == Succeeded(objects, threshold, UpTo(|objects|));
  }

  /**
   Conservation: in all runs the download returns with every listed object counted exactly
   once, if and only if each download finds a thread, the queue has room for the sentinels
   of the ended threads, no callback stops the loop, and none raises on a delivered response.
   The last three clauses write out the conditions on callbacks and what counting right is.
   */
  lemma DownloadConserves(objects: seq<Object>, threshold: nat, taskNum: nat, queueSize: int)
    ensures var start := Start(objects, threshold, taskNum, queueSize);
            (forall moves :: IsCompleteRun(objects, threshold, start, moves)
                             ==> CountsRight(objects, threshold, JobAfter(objects, threshold, start, moves)))
            <==> (JobSafe(objects, threshold, taskNum, queueSize) && LoopQuiet(objects)
                  && forall i: nat :: i < |objects| ==> !CountedTwice(objects[i], threshold))
    ensures LoopQuiet(objects) <==>
              forall o :: o in objects && (o.illegalPath || o.mkdirFails) ==> !o.loopCallbackRaises
    ensures (forall i: nat :: i < |objects| ==> !CountedTwice(objects[i], threshold)) <==>
              forall o :: o in objects && !o.illegalPath && !o.mkdirFails && !o.directory && o.callbackRaises ==>
                (if o.size < threshold then o.small else o.large) == Raises
    ensures forall j :: CountsRight(objects, threshold, j) <==>
              var good := set i: nat | i < |objects|
                && var o := objects[i];
                   var res := if o.size < threshold then o.small else o.large;
                   !o.illegalPath && !o.mkdirFails && (o.directory || (res != Raises && res.status < 300));
              && j.pool.phase == Returned && !j.raised && (forall i: nat :: i < |objects| ==> i in j.done)
              && j.score.successful == |good| && j.score.successful + j.score.failed == |objects|
  {
    ConditionMeans(objects, threshold);
    forall j { CountsRightMeans(objects, threshold, j); }
    var start := Start(objects, threshold, taskNum, queueSize);
    var once := forall i: nat :: i < |objects| ==> !CountedTwice(objects[i], threshold);
    EveryJobEndsWell(objects, threshold, taskNum, queueSize);
    forall moves | IsCompleteRun(objects, threshold, start, moves)
      ensures CountsRight(objects, threshold, JobAfter(objects, threshold, start, moves))
              <==> JobEndsWell(objects, JobAfter(objects, threshold, start, moves)) && once
    {
      if JobEndsWell(objects, JobAfter(objects, threshold, start, moves)) {
        EndedCounts(objects, threshold, taskNum, queueSize, moves);
      }
    }
    var some := JobRunToEnd(objects, threshold, start);
    assert IsCompleteRun(objects, threshold, start, some);
  }

  /** And where shutdown has returned the run is complete: nothing can follow. */
  lemma ReturnedDownload(objects: seq<Object>, threshold: nat, taskNum: nat, queueSize: int, moves: seq<Move>)
    requires IsJobRun(objects, threshold, Start(objects, threshold, taskNum, queueSize), moves)
    requires JobAfter(objects, threshold, Start(objects, threshold, taskNum, queueSize), moves).pool.phase.Returned?
    ensures IsCompleteRun(objects, threshold, Start(objects, threshold, taskNum, queueSize), moves)
  {
    var start := Start(objects, threshold, taskNum, queueSize);
    StartInv(objects, threshold, taskNum, queueSize);
    JobRunInv(objects, threshold, taskNum, start, moves);
    KeepsPool(objects, threshold, start, moves);
    ReturnedJobStopped(objects, threshold, taskNum, JobAfter(objects, threshold, start, moves));
  }

  // ----------------------------------------------------------- three small jobs

  /** A download that fails with a callback that raises, one without fault, and an illegal path. */
  const BAD := Object(false, false, false, 0, Raises, Raises, false, true, false)
  const GOOD := Object(false, false, false, 0, Returns(200), Returns(200), false, false, false)
  const ILLEGAL := Object(true, false, false, 0, Raises, Raises, false, false, true)

  /**
   Two bad downloads on one thread: the second is never called, although the download
   returns; one failure is counted for two objects, none of them counted twice.
   */
  lemma LostObject(threshold: nat) returns (moves: seq<Move>)
    ensures var objects := [BAD, BAD];
            var start := Start(objects, threshold, 1, DEFAULT_TASK_QUEUE_SIZE);
            && !JobSafe(objects, threshold, 1, DEFAULT_TASK_QUEUE_SIZE)
            && LoopQuiet(objects) && !CountedTwice(BAD, threshold)
            && IsJobRun(objects, threshold, start, moves)
            && var j := JobAfter(objects, threshold, start, moves);
               j.pool.phase.Returned? && !j.raised && j.score == Score(0, 1)
  {
    var objects := [BAD, BAD];
    var start := Start(objects, threshold, 1, DEFAULT_TASK_QUEUE_SIZE);
    assert !JobSafe(objects, threshold, 1, DEFAULT_TASK_QUEUE_SIZE) by {
      assert Raising(objects, threshold, 0) == 0 && Raising(objects, threshold, 1) == 1;
      assert objects[1].IsTask();
    }
    var first := OneBad(objects, threshold, start);
    var j := JobAfter(objects, threshold, start, first);
    var rest := ShutDownDead(objects, threshold, j);
    JobRunAppend(objects, threshold, start, first, rest);
    moves := first + rest;
  }

  /**
   With a good download first every run counts right, although as a mere set of tasks they
   could end badly: the loop puts in listing order, and the queue keeps it.
   */
  lemma OrderMatters(threshold: nat)
    ensures var objects := [GOOD, BAD];
            var start := Start(objects, threshold, 1, DEFAULT_TASK_QUEUE_SIZE);
            && !Safe(1, DEFAULT_TASK_QUEUE_SIZE, TasksFrom(objects, threshold, 0))
            && JobSafe(objects, threshold, 1, DEFAULT_TASK_QUEUE_SIZE) && LoopQuiet(objects)
            && forall moves :: IsCompleteRun(objects, threshold, start, moves)
                               ==> CountsRight(objects, threshold, JobAfter(objects, threshold, start, moves))
  {
    var objects := [GOOD, BAD];
    var tasks := TasksFrom(objects, threshold, 0);
    assert Raising(objects, threshold, 0) == Raising(objects, threshold, 1) == 0;
    assert Raising(objects, threshold, 2) == 1;
    var good, bad := TaskOf(objects, threshold, 0), TaskOf(objects, threshold, 1);
    assert tasks == {good, bad};
    assert Killers(tasks) == {bad};
    DownloadConserves(objects, threshold, 1, DEFAULT_TASK_QUEUE_SIZE);
  }

  /**
   An illegal path whose callback raises, in front of a good download: in every run, with
   any number of threads, the loop ends with that exception, the good object is never
   downloaded, and one failure is counted for two objects.
   */
  lemma LoopStopped(threshold: nat, taskNum: nat, moves: seq<Move>)
    requires taskNum > 0
    requires IsCompleteRun([ILLEGAL, GOOD], threshold,
                           Start([ILLEGAL, GOOD], threshold, taskNum, DEFAULT_TASK_QUEUE_SIZE), moves)
    ensures var objects := [ILLEGAL, GOOD];
            var j := JobAfter(objects, threshold, Start(objects, threshold, taskNum, DEFAULT_TASK_QUEUE_SIZE), moves);
            && JobSafe(objects, threshold, taskNum, DEFAULT_TASK_QUEUE_SIZE)
            && !CountedTwice(ILLEGAL, threshold) && !CountedTwice(GOOD, threshold)
            && j.pool.phase.Returned? && j.raised && 1 !in j.done && j.score == Score(0, 1)
  {
    var objects := [ILLEGAL, GOOD];
    var start := Start(objects, threshold, taskNum, DEFAULT_TASK_QUEUE_SIZE);
    var j := JobAfter(objects, threshold, start, moves);
    assert Raising(objects, threshold, 0) == Raising(objects, threshold, 1) == 0;
    assert Raising(objects, threshold, 2) == 0;
    CompleteRunEnds(objects, threshold, taskNum, DEFAULT_TASK_QUEUE_SIZE, moves);
    StartInv(objects, threshold, taskNum, DEFAULT_TASK_QUEUE_SIZE);
    JobRunInv(objects, threshold, taskNum, start, moves);
    assert objects[0].StopsLoop() && !objects[1].StopsLoop();
    assert j.raised && j.next == 1;
    OnlyFirstDone(objects, threshold, j);
  }

  lemma OnlyFirstDone(objects: seq<Object>, threshold: nat, j: Bulk)
    requires objects == [ILLEGAL, GOOD] && j.next == 1 && 0 in j.done
    requires InOrder(j.pool, j.next) && CountInv(objects, threshold, j)
    ensures 1 !in j.done && j.score == Score(0, 1)
  {
    var later := TaskOf(objects, threshold, 1);
    assert later in j.pool.ran ==> Taken(j.pool, later) && later.id < j.next;
    OnlyFirstCounted(objects, threshold, j.score, j.once, j.done);
  }

  lemma OnlyFirstCounted(objects: seq<Object>, threshold: nat, score: Score, once: set<nat>, done: set<nat>)
    requires objects == [ILLEGAL, GOOD] && 0 in done && 1 !in done && forall i :: i in done ==> i < 2
    requires OnceBefore(objects, threshold, once, done) && Accounts(objects, threshold, score, once, done)
    ensures score == Score(0, 1)
  {
    assert !CountedTwice(objects[0], threshold) && !CountedTwice(objects[1], threshold);
    assert once == {} && done == {0} && done + once == {0};
    assert Succeeded(objects, threshold, done + once) == {} && Doubled(objects, threshold, done) == {};
  }

  /** The first of two bad downloads ends the only thread, and the second is put. */
  lemma OneBad(objects: seq<Object>, threshold: nat, start: Bulk) returns (moves: seq<Move>)
    requires objects == [BAD, BAD] && start == Start(objects, threshold, 1, DEFAULT_TASK_QUEUE_SIZE)
    ensures IsJobRun(objects, threshold, start, moves)
    ensures var j := JobAfter(objects, threshold, start, moves);
            && j.next == 2 && !j.raised && j.score == Score(0, 1)
            && j.pool.pending == {} && j.pool.phase.Open?
            && j.pool.workers == [Died] && |j.pool.queue| == 1 && j.pool.alive == 1
            && j.pool.wait && j.pool.capacity == DEFAULT_TASK_QUEUE_SIZE
  {
    var t0, t1 := TaskOf(objects, threshold, 0), TaskOf(objects, threshold, 1);
    assert start.pool.pending == {t0, t1};
    var m0, m1, m2, m3 := PoolStep(Put(t0)), PoolStep(Get(0)), PoolStep(Call(0)), PoolStep(Put(t1));
    assert start.pool.workers == [Waiting];
    var j1 := Moved(objects, threshold, start, m0);
    assert j1.pool.queue == [Job(t0)];
    var j2 := Moved(objects, threshold, j1, m1);
    assert j2.pool.workers == [Running(t0)] && j2.pool.queue == [];
    var j3 := Moved(objects, threshold, j2, m2);
    assert j3.pool.workers == [Died] && j3.score == Score(0, 1);
    var j4 := Moved(objects, threshold, j3, m3);
    assert j4.pool.queue == [Job(t1)] && j4.pool.pending == {};
    OneMove(objects, threshold, start, m0);
    OneMove(objects, threshold, j1, m1);
    OneMove(objects, threshold, j2, m2);
    OneMove(objects, threshold, j3, m3);
    JobRunAppend(objects, threshold, start, [m0], [m1]);
    JobRunAppend(objects, threshold, start, [m0] + [m1], [m2]);
    JobRunAppend(objects, threshold, start, [m0] + [m1] + [m2], [m3]);
    moves := [m0] + [m1] + [m2] + [m3];
  }

  /** With its only thread dead, shutdown puts its sentinel, joins and returns. */
  lemma ShutDownDead(objects: seq<Object>, threshold: nat, j: Bulk) returns (moves: seq<Move>)
    requires j.next == |objects| && !j.raised && j.pool.pending == {} && j.pool.phase.Open?
    requires j.pool.workers == [Died] && |j.pool.queue| == 1 && j.pool.alive == 1
    requires j.pool.wait && j.pool.capacity == DEFAULT_TASK_QUEUE_SIZE
    ensures IsJobRun(objects, threshold, j, moves)
    ensures JobAfter(objects, threshold, j, moves).pool.phase.Returned?
    ensures JobAfter(objects, threshold, j, moves).score == j.score && !JobAfter(objects, threshold, j, moves).raised
  {
    var m0, m1, m2, m3, m4 := PoolStep(BeginShutdown), PoolStep(PutSentinel), PoolStep(Decrement),
      PoolStep(BeginJoin), PoolStep(Join);
    var j1 := Moved(objects, threshold, j, m0);
    var j2 := Moved(objects, threshold, j1, m1);
    var j3 := Moved(objects, threshold, j2, m2);
    var j4 := Moved(objects, threshold, j3, m3);
    OneMove(objects, threshold, j, m0);
    OneMove(objects, threshold, j1, m1);
    OneMove(objects, threshold, j2, m2);
    OneMove(objects, threshold, j3, m3);
    OneMove(objects, threshold, j4, m4);
    JobRunAppend(objects, threshold, j, [m0], [m1]);
    JobRunAppend(objects, threshold, j, [m0] + [m1], [m2]);
    JobRunAppend(objects, threshold, j, [m0] + [m1] + [m2], [m3]);
    JobRunAppend(objects, threshold, j, [m0] + [m1] + [m2] + [m3], [m4]);
    moves := [m0] + [m1] + [m2] + [m3] + [m4];
  }

  /** _checkBulkTasksPara: a missing or non-positive parameter becomes its default. */
  function Positive(given: int, default: nat): (n: nat)
    requires default > 0
    ensures n > 0 && n == (if given > 0 then given else default)
  {
    if given <= 0 then default else given
  }

  const DEFAULT_TASK_NUM := 8
  const DEFAULT_TASK_QUEUE_SIZE := 20000

  /** With the parameters so checked, callbacks that never raise keep the job within its condition. */
  lemma QuietCallbacksSafe(objects: seq<Object>, threshold: nat, taskNum: int, queueSize: int)
    requires forall i: nat :: i < |objects| ==> !objects[i].handlerRaises
    ensures JobSafe(objects, threshold, Positive(taskNum, DEFAULT_TASK_NUM),
                    Positive(queueSize, DEFAULT_TASK_QUEUE_SIZE))
  {
    forall k: nat | k <= |objects| ensures Raising(objects, threshold, k) == 0 {
      NothingRaises(objects, threshold, k);
    }
  }

  lemma {:induction false} NothingRaises(objects: seq<Object>, threshold: nat, k: nat)
    requires k <= |objects| && forall i: nat :: i < |objects| ==> !objects[i].handlerRaises
    ensures Raising(objects, threshold, k) == 0
  {
    if k > 0 { NothingRaises(objects, threshold, k - 1); }
  }
}
