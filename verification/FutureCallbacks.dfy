/**
 Future callbacks of obs/bulktasks.py: one completion (set_result or set_exception)
 interleaved with any number of set_callback calls.  The locked sections are atomic
 steps; what set_result does after releasing the lock, and the direct call of a late
 callback, are steps of their own.
 */
module FutureCallbacks {
  import opened Basics

  /** Where one set_callback call stands. */
  datatype Registrar = Fresh | Stored | Late | Called

  /** Where the completing thread stands. */
  datatype Completer = Before | Completed | Calling | After

  /**
   Registration number i registers its own callback i.  The ghost components `stored`
   and `fired` record, in order, the callbacks stored and, counted, those called.
   */
  datatype Future = Future(
    pending: bool, callback: Option<nat>, completer: Completer,
    registrars: seq<Registrar>, stored: seq<nat>, fired: multiset<nat>
  )

  datatype Step =
    | Complete            // the locked section of set_result
    | Test                // if self._callback
    | Fire                // self._callback(self)
    | Register(i: nat)    // the locked section of set_callback
    | FireLate(i: nat)    // callback(self)

  function Init(n: nat): Future {
    Future(true, None, Before, seq(n, _ => Fresh), [], multiset{})
  }

  predicate Enabled(f: Future, s: Step) {
    match s
    case Complete => f.completer.Before?
    case Test => f.completer.Completed?
    case Fire => f.completer.Calling? && f.callback.Some?
    case Register(i) => i < |f.registrars| && f.registrars[i].Fresh?
    case FireLate(i) => i < |f.registrars| && f.registrars[i].Late?
  }

  function Next(f: Future, s: Step): Future
    requires Enabled(f, s)
  {
    match s
    case Complete => f.(pending := false, completer := Completed)
    case Test => f.(completer := if f.callback.Some? then Calling else After)
    case Fire => f.(completer := After, fired := f.fired + multiset{f.callback.value})
    case Register(i) =>
      if f.pending then
        f.(callback := Some(i), registrars := f.registrars[i := Stored], stored := f.stored + [i])
      else
        f.(registrars := f.registrars[i := Late])
    case FireLate(i) => f.(registrars := f.registrars[i := Called], fired := f.fired + multiset{i})
  }

  predicate IsRun(f: Future, steps: seq<Step>)
    decreases |steps|
  {
    steps == [] || (Enabled(f, steps[0]) && IsRun(Next(f, steps[0]), steps[1..]))
  }

  function Run(f: Future, steps: seq<Step>): Future
    requires IsRun(f, steps)
    decreases |steps|
  {
    if steps == [] then f else Run(Next(f, steps[0]), steps[1..])
  }

  ghost predicate Stopped(f: Future) {
    forall s :: !Enabled(f, s)
  }

  /** The registration the completing thread will call, or has called. */
  predicate IsLastStored(f: Future, i: nat) {
    f.stored != [] && f.stored[|f.stored| - 1] == i
  }

  ghost predicate Inv(f: Future, n: nat) {
    && |f.registrars| == n
    && (f.pending <==> f.completer.Before?)
    && f.callback == (if f.stored == [] then None else Some(f.stored[|f.stored| - 1]))
    && (f.completer.Calling? ==> f.callback.Some?)
    && (forall i: nat :: i in f.stored <==> i < n && f.registrars[i].Stored?)
    && (forall i: nat :: i < n && f.pending ==> f.registrars[i].Fresh? || f.registrars[i].Stored?)
    && (forall i: nat :: f.fired[i] ==
          if (i < n && f.registrars[i].Called?) || (f.completer.After? && IsLastStored(f, i)) then 1 else 0)
  }

  lemma StepInv(f: Future, n: nat, s: Step)
    requires Inv(f, n) && Enabled(f, s)
    ensures Inv(Next(f, s), n)
  {
    var f' := Next(f, s);
    if s.Register? && f.pending {
      assert f'.stored[|f'.stored| - 1] == s.i;
      assert forall i :: i in f'.stored <==> i in f.stored || i == s.i;
    }
    if s.Fire? {
      assert f.callback.value in f.stored;
    }
  }

  lemma {:induction false} RunInv(f: Future, n: nat, steps: seq<Step>)
    requires Inv(f, n) && IsRun(f, steps)
    ensures Inv(Run(f, steps), n)
    decreases |steps|
  {
    if steps != [] {
      StepInv(f, n, steps[0]);
      RunInv(Next(f, steps[0]), n, steps[1..]);
    }
  }

  /** At every moment of every run: at most one call each, and none before completion. */
  lemma FiresAtMostOnce(n: nat, steps: seq<Step>, i: nat)
    requires IsRun(Init(n), steps)
    ensures var f := Run(Init(n), steps);
            f.fired[i] <= 1 && (f.pending ==> f.fired[i] == 0)
  {
    RunInv(Init(n), n, steps);
  }

  /**
   When nothing is left to happen, a registration has been called exactly when it came
   after the completion or was the last one before it.
   */
  lemma FiresExactly(n: nat, steps: seq<Step>, i: nat)
    requires IsRun(Init(n), steps) && Stopped(Run(Init(n), steps)) && i < n
    ensures var f := Run(Init(n), steps);
            && !f.pending
            && f.fired[i] == (if i in f.stored && !IsLastStored(f, i) then 0 else 1)
  {
    var f := Run(Init(n), steps);
    RunInv(Init(n), n, steps);
    assert !Enabled(f, Complete) && !Enabled(f, Test) && !Enabled(f, Fire);
    assert !Enabled(f, Register(i)) && !Enabled(f, FireLate(i));
  }

  /** What `stored` means: the registrations made before the completion, in their order. */
  lemma {:induction false} StoredBefore(f: Future, steps: seq<Step>)
    requires IsRun(f, steps)
    ensures Run(f, steps).stored == f.stored + (if f.pending then RegistersBefore(steps) else [])
    decreases |steps|
  {
    if steps == [] {
      assert f.stored + [] == f.stored;
    } else {
      var s, rest := steps[0], steps[1..];
      StoredBefore(Next(f, s), rest);
      if f.pending && s.Register? {
        assert (f.stored + [s.i]) + RegistersBefore(rest) == f.stored + ([s.i] + RegistersBefore(rest));
      }
    }
  }

  /** The registrations in a run up to its completion. */
  function RegistersBefore(steps: seq<Step>): seq<nat> {
    if steps == [] || steps[0].Complete? then []
    else if steps[0].Register? then [steps[0].i] + RegistersBefore(steps[1..])
    else RegistersBefore(steps[1..])
  }

  /** The outcome of every complete run, read off the run itself. */
  lemma LastBeforeAndAllAfter(n: nat, steps: seq<Step>, i: nat)
    requires IsRun(Init(n), steps) && Stopped(Run(Init(n), steps)) && i < n
    ensures var early := RegistersBefore(steps);
            Run(Init(n), steps).fired[i]
            == if i in early && early[|early| - 1] != i then 0 else 1
  {
    FiresExactly(n, steps, i);
    StoredBefore(Init(n), steps);
    assert [] + RegistersBefore(steps) == RegistersBefore(steps);
  }

  // --------------------------------------------------- what can happen at once

  lemma OneStep(f: Future, s: Step)
    ensures IsRun(f, [s]) <==> Enabled(f, s)
  {
    if Enabled(f, s) { assert IsRun(Next(f, s), [s][1..]); }
  }

  /** Each caller and the completing thread can go on whatever the others have done so far. */
  lemma Possible(f: Future)
    ensures IsRun(f, [Complete]) <==> f.completer == Before
    ensures IsRun(f, [Test]) <==> f.completer == Completed
    ensures IsRun(f, [Fire]) <==> f.completer == Calling && f.callback != None
    ensures forall i: nat :: IsRun(f, [Register(i)]) <==> i < |f.registrars| && f.registrars[i] == Fresh
    ensures forall i: nat :: IsRun(f, [FireLate(i)]) <==> i < |f.registrars| && f.registrars[i] == Late
  {
    forall s ensures IsRun(f, [s]) <==> Enabled(f, s) { OneStep(f, s); }
  }

  function Registers(order: seq<nat>): seq<Step> {
    if order == [] then [] else [Register(order[0])] + Registers(order[1..])
  }

  /** Registrations not yet made can be made in any order, and others stay to be made. */
  lemma {:induction false} RegistersRun(f: Future, order: seq<nat>)
    requires forall i :: 0 <= i < |order| ==> order[i] < |f.registrars| && f.registrars[order[i]] == Fresh
    requires forall i, j :: 0 <= i < j < |order| ==> order[i] != order[j]
    ensures IsRun(f, Registers(order))
    ensures var g := Run(f, Registers(order));
            && |g.registrars| == |f.registrars| && g.completer == f.completer && g.pending == f.pending
            && forall k: nat :: k < |f.registrars| && k !in order ==> g.registrars[k] == f.registrars[k]
    decreases |order|
  {
    if order != [] {
      var rest := order[1..];
      assert forall i :: 0 <= i < |rest| ==> rest[i] == order[i + 1];
      RegistersRun(Next(f, Register(order[0])), rest);
      assert Registers(order)[1..] == Registers(rest);
    }
  }

  lemma {:induction false} RunAppend(f: Future, a: seq<Step>, b: seq<Step>)
    requires IsRun(f, a) && IsRun(Run(f, a), b)
    ensures IsRun(f, a + b) && Run(f, a + b) == Run(Run(f, a), b)
    decreases |a|
  {
    if a == [] {
      assert a + b == b;
    } else {
      assert (a + b)[1..] == a[1..] + b;
      RunAppend(Next(f, a[0]), a[1..], b);
    }
  }

  /** The completion can come between any of the registrations, in any order of these. */
  lemma AnyOrder(n: nat, early: seq<nat>, late: seq<nat>)
    requires Distinct(early, n) && Distinct(late, n) && forall k :: k in early ==> k !in late
    ensures IsRun(Init(n), Registers(early) + [Complete] + Registers(late))
  {
    var f := Init(n);
    RegistersRun(f, early);
    var g := Run(f, Registers(early));
    ThenComplete(g, late);
    RunAppend(f, Registers(early), [Complete] + Registers(late));
    assert Registers(early) + [Complete] + Registers(late) == Registers(early) + ([Complete] + Registers(late));
  }

  /** Different registrations among the first n. */
  ghost predicate Distinct(order: seq<nat>, n: nat) {
    && (forall i :: 0 <= i < |order| ==> order[i] < n)
    && (forall i, j :: 0 <= i < j < |order| ==> order[i] != order[j])
  }

  lemma ThenComplete(g: Future, late: seq<nat>)
    requires g.completer.Before? && Distinct(late, |g.registrars|)
    requires forall i :: 0 <= i < |late| ==> g.registrars[late[i]].Fresh?
    ensures IsRun(g, [Complete] + Registers(late))
  {
    RegistersRun(Next(g, Complete), late);
    assert ([Complete] + Registers(late))[1..] == Registers(late);
  }
}
