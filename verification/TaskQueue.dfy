/** A task queue with its mutex, its condition variable and N workers. The HTTP task queue and the WebSocket
    task queue are both of this kind. A run is any interleaving of the steps below. */
module TaskQueue {
  import opened Bytes
  import opened Wrappers

  /** Where a worker is: it wants the mutex, holds it at the test, sleeps in `pthread_cond_wait`, has been
      woken and wants the mutex back, holds it again, or works on a task. */
  datatype Worker<T> = Wants | Tests | Parked | Woken | Retries | Busy(task: T)

  /** Who holds the mutex: nobody, a worker, or a pusher before or after its push. */
  datatype Mutex<T> = Unlocked | HeldBy(w: nat) | Pushing(task: T) | Pushed

  datatype State<T> = State(queue: seq<T>, workers: seq<Worker<T>>, mutex: Mutex<T>)

  datatype Action<T> =
    | Lock(w: nat)            // a worker enters the critical section
    | Test(w: nat)            // it pops a task and leaves, or finds none and waits
    | Spurious(w: nat)        // a waiting worker wakes up without a signal
    | Relock(w: nat)          // a woken worker gets the mutex back
    | Unlock(w: nat)          // and leaves, to try again
    | Finish(w: nat)          // a task is done
    | PushLock(task: T)       // some thread enters `TaskPush`
    | Push(signalled: set<nat>) // pushes, and signals: at least one waiting worker wakes, if there is one
    | PushUnlock

  predicate Is<T(==)>(s: State<T>, w: nat, pc: Worker<T>) { w < |s.workers| && s.workers[w] == pc }

  predicate Enabled<T(==)>(s: State<T>, a: Action<T>) {
    match a
    case Lock(w) => Is(s, w, Wants) && s.mutex.Unlocked?
    case Test(w) => Is(s, w, Tests) && s.mutex == HeldBy(w)
    case Spurious(w) => Is(s, w, Parked)
    case Relock(w) => Is(s, w, Woken) && s.mutex.Unlocked?
    case Unlock(w) => Is(s, w, Retries) && s.mutex == HeldBy(w)
    case Finish(w) => w < |s.workers| && s.workers[w].Busy?
    case PushLock(t) => s.mutex.Unlocked?
    case Push(signalled) =>
      && s.mutex.Pushing? && (forall w | w in signalled :: Is(s, w, Parked))
      && (signalled == {} ==> Parked !in s.workers)
    case PushUnlock => s.mutex.Pushed?
  }

  function Go<T>(s: State<T>, w: nat, pc: Worker<T>): State<T>
    requires w < |s.workers|
  {
    s.(workers := s.workers[w := pc])
  }

  /** Wake the workers of a set that are before `n`. */
  function Wake<T>(workers: seq<Worker<T>>, signalled: set<nat>, n: nat): (r: seq<Worker<T>>)
    requires n <= |workers|
    ensures |r| == |workers|
    ensures forall i | 0 <= i < |r| :: r[i] == if i < n && i in signalled then Woken else workers[i]
  {
    if n == 0 then workers
    else if n - 1 in signalled then Wake(workers, signalled, n - 1)[n - 1 := Woken]
    else Wake(workers, signalled, n - 1)
  }

  function Step<T>(s: State<T>, a: Action<T>): State<T>
    requires Enabled(s, a)
  {
    match a
    case Lock(w) => Go(s, w, Tests).(mutex := HeldBy(w))
    case Test(w) =>
      if s.queue == [] then Go(s, w, Parked).(mutex := Unlocked)
      else Go(s, w, Busy(s.queue[0])).(mutex := Unlocked, queue := s.queue[1..])
    case Spurious(w) => Go(s, w, Woken)
    case Relock(w) => Go(s, w, Retries).(mutex := HeldBy(w))
    case Unlock(w) => Go(s, w, Wants).(mutex := Unlocked)
    case Finish(w) => Go(s, w, Wants)
    case PushLock(t) => s.(mutex := Pushing(t))
    case Push(signalled) =>
      s.(mutex := Pushed, queue := s.queue + [s.mutex.task], workers := Wake(s.workers, signalled, |s.workers|))
    case PushUnlock => s.(mutex := Unlocked)
  }

  /** A worker that is awake and has no task. */
  predicate Ready<T>(pc: Worker<T>) { !pc.Parked? && !pc.Busy? }

  function Count<T>(workers: seq<Worker<T>>): (n: nat)
  {
    if workers == [] then 0
    else Count(workers[..|workers| - 1]) + if Ready(workers[|workers| - 1]) then 1 else 0
  }

  lemma {:induction false} CountUpdate<T>(workers: seq<Worker<T>>, w: nat, pc: Worker<T>)
    requires w < |workers|
    ensures Count(workers[w := pc]) + (if Ready(workers[w]) then 1 else 0) ==
            Count(workers) + (if Ready(pc) then 1 else 0)
    decreases |workers|
  {
    var n := |workers| - 1;
    if w == n {
      assert workers[w := pc][..n] == workers[..n];
    } else {
      assert workers[w := pc][..n] == workers[..n][w := pc];
      CountUpdate(workers[..n], w, pc);
    }
  }

  lemma {:induction false} CountWake<T>(workers: seq<Worker<T>>, signalled: set<nat>, n: nat)
    requires n <= |workers| && forall w | w in signalled :: w < |workers| && workers[w].Parked?
    ensures Count(Wake(workers, signalled, n)) >=
              Count(workers) + if exists w | w in signalled :: w < n then 1 else 0
    decreases n
  {
    if n > 0 {
      CountWake(workers, signalled, n - 1);
      if n - 1 in signalled {
        CountUpdate(Wake(workers, signalled, n - 1), n - 1, Woken);
      }
    }
  }

  lemma {:induction false} SomeReady<T>(workers: seq<Worker<T>>)
    requires Count(workers) > 0
    ensures exists w: nat :: w < |workers| && Ready(workers[w])
    decreases |workers|
  {
    var n := |workers| - 1;
    if !Ready(workers[n]) {
      SomeReady(workers[..n]);
      var w: nat :| w < n && Ready(workers[..n][w]);
      assert Ready(workers[w]);
    }
  }

  // ---- The invariant -----------------------------------------------------------------------

  /** While a worker waits, the awake workers without a task are as many as the tasks in the queue. */
  predicate NoLostWakeup<T(==)>(s: State<T>) { Parked in s.workers ==> Count(s.workers) >= |s.queue| }

  /** The mutex excludes: a worker is in the critical section just when it holds the mutex. */
  predicate Exclusive<T(==)>(s: State<T>) {
    forall w: nat | w < |s.workers| :: s.mutex == HeldBy(w) <==> s.workers[w].Tests? || s.workers[w].Retries?
  }

  predicate Inv<T(==)>(s: State<T>) {
    NoLostWakeup(s) && Exclusive(s) && (s.mutex.HeldBy? ==> s.mutex.w < |s.workers|)
  }

  function Init<T>(n: nat): State<T> { State([], seq(n, _ => Wants), Unlocked) }

  lemma PushKeeps<T>(s: State<T>, signalled: set<nat>)
    requires Inv(s) && Enabled(s, Push(signalled))
    ensures Inv(Step(s, Push(signalled)))
  {
    var s' := Step(s, Push(signalled));
    CountWake(s.workers, signalled, |s.workers|);
    if signalled == {} {
      assert s'.workers == s.workers;
    } else {
      var w :| w in signalled;
      assert w < |s.workers| && s.workers[w] == Parked;
    }
  }

  lemma WorkerKeepsCount<T>(s: State<T>, a: Action<T>)
    requires Inv(s) && Enabled(s, a) && !a.PushLock? && !a.Push? && !a.PushUnlock?
    ensures NoLostWakeup(Step(s, a))
  {
    var s', w := Step(s, a), a.w;
    CountUpdate(s.workers, w, s'.workers[w]);
    if Parked in s'.workers && s'.workers[w] != Parked {
      var v :| 0 <= v < |s'.workers| && s'.workers[v] == Parked;
      assert s.workers[v] == Parked;
    }
  }

  lemma WorkerKeeps<T>(s: State<T>, a: Action<T>)
    requires Inv(s) && Enabled(s, a) && !a.PushLock? && !a.Push? && !a.PushUnlock?
    ensures Inv(Step(s, a))
    ensures a.Test? && s.queue != [] ==> Step(s, a).workers[a.w] == Busy(s.queue[0])
  {
    WorkerKeepsCount(s, a);
  }

  lemma StepKeepsInv<T>(s: State<T>, a: Action<T>)
    requires Inv(s) && Enabled(s, a)
    ensures Inv(Step(s, a))
  {
    if a.Push? {
      PushKeeps(s, a.signalled);
    } else if !a.PushLock? && !a.PushUnlock? {
      WorkerKeeps(s, a);
    }
  }

  predicate Possible<T(==)>(s: State<T>, run: seq<Action<T>>)
    decreases |run|
  {
    run == [] || (Enabled(s, run[0]) && Possible(Step(s, run[0]), run[1..]))
  }

  function After<T>(s: State<T>, run: seq<Action<T>>): State<T>
    requires Possible(s, run)
    decreases |run|
  {
    if run == [] then s else After(Step(s, run[0]), run[1..])
  }

  lemma {:induction false} RunKeepsInv<T>(s: State<T>, run: seq<Action<T>>)
    requires Inv(s) && Possible(s, run)
    ensures Inv(After(s, run))
    decreases |run|
  {
    if run != [] {
      StepKeepsInv(s, run[0]);
      RunKeepsInv(Step(s, run[0]), run[1..]);
    }
  }

  lemma InitInv<T>(n: nat)
    ensures Inv(Init<T>(n))
  {
    assert Parked !in Init<T>(n).workers;
  }

  // ---- Where the tasks go ------------------------------------------------------------------

  /** The tasks that a run submits, in order: those of its `PushLock` steps whose `Push` has happened. `held`
      is the task of a pusher that is between the two when the run begins. */
  function Submitted<T>(run: seq<Action<T>>, held: Option<T>): seq<T>
    decreases |run|
  {
    if run == [] then []
    else match run[0]
      case PushLock(task) => Submitted(run[1..], Some(task))
      case Push(_) => (if held.Some? then [held.value] else []) + Submitted(run[1..], None)
      case _ => Submitted(run[1..], held)
  }

  /** The tasks with which workers leave the queue, in the order in which they do. */
  function Served<T(==)>(s: State<T>, run: seq<Action<T>>): seq<T>
    requires Possible(s, run)
    decreases |run|
  {
    if run == [] then []
    else
      var s' := Step(s, run[0]);
      (if run[0].Test? && s'.workers[run[0].w].Busy? then [s'.workers[run[0].w].task] else []) + Served(s', run[1..])
  }

  function Held<T>(mutex: Mutex<T>): Option<T> { if mutex.Pushing? then Some(mutex.task) else None }

  /** First in, first out, each once: what workers have been given, then what is queued, is what was queued and
      what has been submitted. */
  lemma {:induction false} TasksConserved<T>(s: State<T>, run: seq<Action<T>>)
    requires Possible(s, run)
    ensures Served(s, run) + After(s, run).queue == s.queue + Submitted(run, Held(s.mutex))
    decreases |run|
  {
    if run == [] {
      assert [] + s.queue == s.queue + [];
    } else {
      var s', a, more := Step(s, run[0]), run[0], run[1..];
      TasksConserved(s', more);
      match a
      case Test(w) =>
        if s.queue == [] {
          assert [] + Served(s', more) == Served(s', more);
        } else {
          var first, rest := [s.queue[0]], s.queue[1..];
          assert s.queue == first + rest;
          Associate(first, Served(s', more), After(s', more).queue);
          Associate(first, rest, Submitted(more, Held(s'.mutex)));
        }
      case Push(signalled) =>
        assert [] + Served(s', more) == Served(s', more);
        Associate(s.queue, [s.mutex.task], Submitted(more, None));
      case _ =>
        assert [] + Served(s', more) == Served(s', more);
    }
  }

  /** In every reachable state: no wakeup is lost, and the tasks that workers were given, followed by the queue,
      are exactly the tasks submitted, in order. A task never waits while every worker that is not busy sleeps. */
  lemma Reachable<T>(n: nat, run: seq<Action<T>>)
    requires Possible(Init(n), run)
    ensures var s := After(Init(n), run);
            && NoLostWakeup(s) && Exclusive(s)
            && Served(Init(n), run) + s.queue == Submitted(run, None)
            && (s.queue != [] && Parked in s.workers ==>
                  exists w: nat :: w < |s.workers| && Ready(s.workers[w]))
  {
    InitInv<T>(n);
    RunKeepsInv(Init(n), run);
    TasksConserved(Init(n), run);
    assert [] + Submitted(run, None) == Submitted(run, None);
    var s := After(Init(n), run);
    if s.queue != [] && Parked in s.workers {
      SomeReady(s.workers);
    }
  }
}
