/** The thread pool: a task queue under a mutex and a condition variable, filled by any number of
    appenders and emptied by any number of workers.

    `Pool` is the whole system and `Next` its steps, interleaved at will; the class has the fields and
    the critical sections of the program.  A worker runs its task while it holds the mutex. */
module ThreadPool {
  import opened Options
  import opened Sums

  const TASK_NUM := 100
  const MAX_THREAD_NUM := 16

  /** How many workers a pool of `threadNum` threads gets, if the system is able to create `created`. */
  function Started(threadNum: nat, created: nat): nat {
    if threadNum > MAX_THREAD_NUM then 0 else if created < threadNum then created else threadNum
  }

  /** A worker before it locks the mutex (at the top of its loop, or woken inside `Wait`), asleep in
      `Wait`, or running a task with the mutex locked. */
  datatype Worker<T> = Ready | Waiting | Running(task: T)

  /** An appender outside `Append`, past the unlocked size check, holding the mutex, or past the
      unlock and before the signal. */
  datatype Appender<T> = Idle | Checked(task: T) | Holding(task: T) | Pushed

  datatype Owner = Free | ByWorker(w: nat) | ByAppender(a: nat)

  /** `pushed` and `done` record what went into the queue and which tasks have finished. */
  datatype Pool<T> = Pool(queue: seq<T>, owner: Owner, workers: seq<Worker<T>>, appenders: seq<Appender<T>>,
                          pushed: seq<T>, done: seq<T>)

  datatype Step<T> =
    | Check(a: nat, task: T)    // Append: the size test without the mutex
    | Lock(a: nat)              // Append: the mutex is locked
    | Push(a: nat)              // Append: push and unlock
    | Signal(a: nat, w: nat)    // Append: wakes worker w if any worker waits
    | Acquire(w: nat)           // Work: locks, then waits on an empty queue or takes the front
    | Finish(w: nat)            // Work: the task returns, unlock
    | Wake(w: nat)              // a spurious wake-up

  function Init<T>(workers: nat, appenders: nat): Pool<T> {
    Pool([], Free, seq(workers, _ => Ready), seq(appenders, _ => Idle), [], [])
  }

  predicate NoneWaits<T>(workers: seq<Worker<T>>) {
    forall w :: 0 <= w < |workers| ==> !workers[w].Waiting?
  }

  predicate Enabled<T>(p: Pool<T>, s: Step<T>) {
    match s
    case Check(a, _) => a < |p.appenders| && p.appenders[a].Idle?
    case Lock(a) => a < |p.appenders| && p.appenders[a].Checked? && p.owner == Free
    case Push(a) => a < |p.appenders| && p.appenders[a].Holding?
    case Signal(a, w) =>
      && a < |p.appenders| && p.appenders[a].Pushed?
      && (NoneWaits(p.workers) || (w < |p.workers| && p.workers[w].Waiting?))
    case Acquire(w) => w < |p.workers| && p.workers[w].Ready? && p.owner == Free
    case Finish(w) => w < |p.workers| && p.workers[w].Running?
    case Wake(w) => w < |p.workers| && p.workers[w].Waiting?
  }

  function Next<T>(p: Pool<T>, s: Step<T>): Pool<T>
    requires Enabled(p, s)
  {
    match s
    case Check(a, task) =>
      if |p.queue| >= TASK_NUM then p else p.(appenders := p.appenders[a := Checked(task)])
    case Lock(a) =>
      p.(owner := ByAppender(a), appenders := p.appenders[a := Holding(p.appenders[a].task)])
    case Push(a) =>
      var task := p.appenders[a].task;
      p.(queue := p.queue + [task], pushed := p.pushed + [task], owner := Free,
         appenders := p.appenders[a := Pushed])
    case Signal(a, w) =>
      p.(appenders := p.appenders[a := Idle],
         workers := if NoneWaits(p.workers) then p.workers else p.workers[w := Ready])
    case Acquire(w) =>
      if p.queue == [] then p.(workers := p.workers[w := Waiting])
      else p.(queue := p.queue[1..], owner := ByWorker(w), workers := p.workers[w := Running(p.queue[0])])
    case Finish(w) =>
      p.(done := p.done + [p.workers[w].task], owner := Free, workers := p.workers[w := Ready])
    case Wake(w) =>
      p.(workers := p.workers[w := Ready])
  }

  // ---------------------------------------------------------------- sums over the threads

  /** Appenders that have passed the size check and not yet pushed. */
  function InFlight<T>(appenders: seq<Appender<T>>): seq<nat> {
    seq(|appenders|, i requires 0 <= i < |appenders| =>
      if appenders[i].Checked? || appenders[i].Holding? then 1 else 0)
  }

  function AppenderLoads<T>(appenders: seq<Appender<T>>): seq<nat> {
    seq(|appenders|, i requires 0 <= i < |appenders| => AppenderLoad(appenders[i]))
  }

  function WorkerLoads<T>(workers: seq<Worker<T>>): seq<nat> {
    seq(|workers|, i requires 0 <= i < |workers| => WorkerLoad(workers[i]))
  }

  function AppenderLoad<T>(a: Appender<T>): nat {
    match a
    case Idle => 0
    case Checked(_) => 6
    case Holding(_) => 5
    case Pushed => 2
  }

  function WorkerLoad<T>(w: Worker<T>): nat {
    match w
    case Waiting => 0
    case Ready => 1
    case Running(_) => 2
  }

  lemma InFlightUpdate<T>(appenders: seq<Appender<T>>, i: nat, a: Appender<T>)
    requires i < |appenders|
    ensures Total(InFlight(appenders[i := a])) ==
            Total(InFlight(appenders)) - InFlight(appenders)[i] + (if a.Checked? || a.Holding? then 1 else 0)
  {
    var load := if a.Checked? || a.Holding? then 1 else 0;
    TotalUpdate(InFlight(appenders), i, load);
    assert InFlight(appenders[i := a]) == InFlight(appenders)[i := load];
  }

  lemma AppenderUpdate<T>(appenders: seq<Appender<T>>, i: nat, a: Appender<T>)
    requires i < |appenders|
    ensures Total(AppenderLoads(appenders[i := a])) ==
            Total(AppenderLoads(appenders)) - AppenderLoad(appenders[i]) + AppenderLoad(a)
  {
    TotalUpdate(AppenderLoads(appenders), i, AppenderLoad(a));
    assert AppenderLoads(appenders[i := a]) == AppenderLoads(appenders)[i := AppenderLoad(a)];
  }

  lemma WorkerUpdate<T>(workers: seq<Worker<T>>, i: nat, w: Worker<T>)
    requires i < |workers|
    ensures Total(WorkerLoads(workers[i := w])) ==
            Total(WorkerLoads(workers)) - WorkerLoad(workers[i]) + WorkerLoad(w)
  {
    TotalUpdate(WorkerLoads(workers), i, WorkerLoad(w));
    assert WorkerLoads(workers[i := w]) == WorkerLoads(workers)[i := WorkerLoad(w)];
  }

  // ---------------------------------------------------------------- the invariant

  /** Mutual exclusion: a thread is inside a critical section exactly while it owns the mutex. */
  ghost predicate Exclusive<T>(p: Pool<T>) {
    && (forall w: nat :: w < |p.workers| ==> (p.workers[w].Running? <==> p.owner == ByWorker(w)))
    && (forall a: nat :: a < |p.appenders| ==> (p.appenders[a].Holding? <==> p.owner == ByAppender(a)))
    && (p.owner.ByWorker? ==> p.owner.w < |p.workers|)
    && (p.owner.ByAppender? ==> p.owner.a < |p.appenders|)
  }

  /** The task being run, if any. */
  function Current<T>(p: Pool<T>): seq<T> {
    if p.owner.ByWorker? && p.owner.w < |p.workers| && p.workers[p.owner.w].Running?
    then [p.workers[p.owner.w].task] else []
  }

  /** What was pushed: run to the end, then running, then waiting in the queue, in this order. */
  ghost predicate Ledger<T>(p: Pool<T>) {
    p.done + Current(p) + p.queue == p.pushed
  }

  ghost predicate SomeoneAwake<T>(p: Pool<T>) {
    || (exists w :: 0 <= w < |p.workers| && !p.workers[w].Waiting?)
    || (exists a :: 0 <= a < |p.appenders| && p.appenders[a].Pushed?)
  }

  /** No task is stranded: with work in the queue some worker is on its way to it, or some appender
      still has its signal to send. */
  ghost predicate NotStranded<T>(p: Pool<T>) {
    p.queue != [] && p.workers != [] ==> SomeoneAwake(p)
  }

  ghost predicate Bounded<T>(p: Pool<T>) {
    |p.queue| + Total(InFlight(p.appenders)) < TASK_NUM + |p.appenders|
  }

  ghost predicate Inv<T>(p: Pool<T>) {
    Exclusive(p) && Ledger(p) && NotStranded(p) && Bounded(p)
  }

  lemma {:induction false} NoneInFlight<T>(n: nat)
    ensures Total(InFlight<T>(seq(n, _ => Idle))) == 0
  {
    var loads := InFlight<T>(seq(n, _ => Idle));
    if n > 0 {
      NoneInFlight<T>(n - 1);
      assert loads[..n - 1] == InFlight<T>(seq(n - 1, _ => Idle));
    }
  }

  lemma InitInv<T>(workers: nat, appenders: nat)
    ensures Inv(Init<T>(workers, appenders))
  {
    NoneInFlight<T>(appenders);
  }

  lemma StepKeepsLedger<T>(p: Pool<T>, s: Step<T>)
    requires Exclusive(p) && Ledger(p) && Enabled(p, s)
    ensures Exclusive(Next(p, s)) && Ledger(Next(p, s))
  {
    var q := Next(p, s);
    match s
    case Push(a) =>
      assert q.done + Current(q) + q.queue == p.done + Current(p) + p.queue + [p.appenders[a].task];
    case Acquire(w) =>
      if p.queue != [] { assert p.queue == [p.queue[0]] + p.queue[1..]; }
    case Finish(w) =>
      assert Current(p) == [p.workers[w].task];
    case _ =>
  }

  lemma StepStrandsNothing<T>(p: Pool<T>, s: Step<T>)
    requires NotStranded(p) && Enabled(p, s)
    ensures NotStranded(Next(p, s))
  {
    var q := Next(p, s);
    if q.queue != [] && q.workers != [] {
      match s
      case Push(a) => assert q.appenders[a].Pushed?;
      case Signal(a, w) =>
        if NoneWaits(p.workers) { assert !q.workers[0].Waiting?; } else { assert !q.workers[w].Waiting?; }
      case Acquire(w) => assert !q.workers[w].Waiting?;
      case Finish(w) => assert !q.workers[w].Waiting?;
      case Wake(w) => assert !q.workers[w].Waiting?;
      case Check(a, _) => KeepsAwake(p, q, a);
      case Lock(a) => KeepsAwake(p, q, a);
    }
  }

  /** An appender that was not between its push and its signal changes nothing about who is awake. */
  lemma KeepsAwake<T>(p: Pool<T>, q: Pool<T>, a: nat)
    requires SomeoneAwake(p) && p.workers == q.workers && a < |p.appenders| == |q.appenders|
    requires !p.appenders[a].Pushed?
        && forall b :: 0 <= b < |p.appenders| && b != a ==> p.appenders[b] == q.appenders[b]
    ensures SomeoneAwake(q)
  {
    if b :| 0 <= b < |p.appenders| && p.appenders[b].Pushed? { assert q.appenders[b].Pushed?; }
  }

  lemma StepKeepsBound<T>(p: Pool<T>, s: Step<T>)
    requires Bounded(p) && Enabled(p, s)
    ensures Bounded(Next(p, s))
  {
    match s
    case Check(a, task) =>
      if |p.queue| < TASK_NUM {
        InFlightUpdate(p.appenders, a, Checked(task));
        TotalAtMost(InFlight(p.appenders[a := Checked(task)]), a);
      }
    case Lock(a) => InFlightUpdate(p.appenders, a, Holding(p.appenders[a].task));
    case Push(a) => InFlightUpdate(p.appenders, a, Pushed);
    case Signal(a, w) => InFlightUpdate(p.appenders, a, Idle);
    case _ =>
  }

  lemma StepKeepsInv<T>(p: Pool<T>, s: Step<T>)
    requires Inv(p) && Enabled(p, s)
    ensures Inv(Next(p, s))
  {
    StepKeepsLedger(p, s);
    StepStrandsNothing(p, s);
    StepKeepsBound(p, s);
  }

  // ---------------------------------------------------------------- runs

  ghost predicate IsRun<T>(p: Pool<T>, steps: seq<Step<T>>)
    decreases |steps|, 0
  {
    steps == [] || (IsRun(p, steps[..|steps| - 1]) && Enabled(After(p, steps[..|steps| - 1]), steps[|steps| - 1]))
  }

  ghost function After<T>(p: Pool<T>, steps: seq<Step<T>>): Pool<T>
    requires IsRun(p, steps)
    decreases |steps|, 1
  {
    if steps == [] then p else Next(After(p, steps[..|steps| - 1]), steps[|steps| - 1])
  }

  lemma {:induction false} RunKeepsInv<T>(p: Pool<T>, steps: seq<Step<T>>)
    requires Inv(p) && IsRun(p, steps)
    ensures var q := After(p, steps);
            Inv(q) && |q.workers| == |p.workers| && |q.appenders| == |p.appenders|
    decreases |steps|
  {
    if steps != [] {
      var last := |steps| - 1;
      RunKeepsInv(p, steps[..last]);
      StepKeepsInv(After(p, steps[..last]), steps[last]);
    }
  }

  /** Over every interleaving: tasks run in the order they were pushed, each once and one at a time. */
  lemma RunsInOrderOnce<T>(workers: nat, appenders: nat, steps: seq<Step<T>>)
    requires IsRun(Init<T>(workers, appenders), steps)
    ensures var p := After(Init<T>(workers, appenders), steps);
            p.done + Current(p) + p.queue == p.pushed && |Current(p)| <= 1
    ensures var p := After(Init<T>(workers, appenders), steps);
            forall v, w :: 0 <= v < w < |p.workers| ==> !(p.workers[v].Running? && p.workers[w].Running?)
  {
    InitInv<T>(workers, appenders);
    RunKeepsInv(Init<T>(workers, appenders), steps);
  }

  /** Over every interleaving no task is stranded: with work in the queue some worker is awake, or some
      appender still has its signal to send. */
  lemma NoTaskStranded<T>(workers: nat, appenders: nat, steps: seq<Step<T>>)
    requires IsRun(Init<T>(workers, appenders), steps) && 0 < workers
    ensures var p := After(Init<T>(workers, appenders), steps); p.queue != [] ==> SomeoneAwake(p)
  {
    InitInv<T>(workers, appenders);
    RunKeepsInv(Init<T>(workers, appenders), steps);
  }

  /** The unlocked size check still bounds the queue. */
  lemma QueueBound<T>(workers: nat, appenders: nat, steps: seq<Step<T>>)
    requires IsRun(Init<T>(workers, appenders), steps)
    ensures |After(Init<T>(workers, appenders), steps).queue| < 100 + appenders
  {
    InitInv<T>(workers, appenders);
    RunKeepsInv(Init<T>(workers, appenders), steps);
  }

  lemma RunSnoc<T>(p: Pool<T>, steps: seq<Step<T>>, s: Step<T>)
    requires IsRun(p, steps) && Enabled(After(p, steps), s)
    ensures IsRun(p, steps + [s]) && After(p, steps + [s]) == Next(After(p, steps), s)
  {
    assert (steps + [s])[..|steps|] == steps;
  }

  /** The pool after `pushes` tasks by appender 0, with nobody else having moved. */
  lemma {:induction false} Fill<T>(workers: nat, appenders: nat, task: T, pushes: nat) returns (steps: seq<Step<T>>)
    requires appenders > 0 && pushes < TASK_NUM
    ensures IsRun(Init<T>(workers, appenders), steps)
    ensures var p, q := Init<T>(workers, appenders), After(Init<T>(workers, appenders), steps);
            |q.queue| == pushes && q.owner == Free && q.workers == p.workers && q.appenders == p.appenders
  {
    steps := [];
    var p := Init<T>(workers, appenders);
    for i := 0 to pushes
      invariant IsRun(p, steps)
      invariant var q := After(p, steps);
                |q.queue| == i && q.owner == Free && q.workers == p.workers && q.appenders == p.appenders
    {
      var tail := [Check(0, task), Lock(0), Push(0), Signal(0, 0)];
      for j := 0 to 4
        invariant IsRun(p, steps)
        invariant var q := After(p, steps);
                  && q.workers == p.workers && |q.queue| == (if j < 3 then i else i + 1)
                  && q.owner == (if j == 2 then ByAppender(0) else Free)
                  && q.appenders == p.appenders[0 := [Idle, Checked(task), Holding(task), Pushed, Idle][j]]
      {
        RunSnoc(p, steps, tail[j]);
        steps := steps + [tail[j]];
      }
    }
  }

  /** The bound is reached: every appender can pass the check before any of them pushes. */
  lemma {:induction false} QueueBoundIsReached<T>(workers: nat, appenders: nat, task: T) returns (steps: seq<Step<T>>)
    requires appenders > 0
    ensures IsRun(Init<T>(workers, appenders), steps)
    ensures |After(Init<T>(workers, appenders), steps).queue| == 100 + appenders - 1
  {
    var p := Init<T>(workers, appenders);
    steps := Fill(workers, appenders, task, TASK_NUM - 1);
    for i := 0 to appenders
      invariant IsRun(p, steps)
      invariant var q := After(p, steps);
                && |q.queue| == TASK_NUM - 1 && q.owner == Free && |q.appenders| == appenders
                && forall b :: 0 <= b < appenders ==> q.appenders[b] == if b < i then Checked(task) else Idle
    {
      RunSnoc(p, steps, Check(i, task));
      steps := steps + [Check(i, task)];
    }
    for i := 0 to appenders
      invariant IsRun(p, steps)
      invariant var q := After(p, steps);
                && |q.queue| == TASK_NUM - 1 + i && q.owner == Free && |q.appenders| == appenders
                && forall b :: 0 <= b < appenders ==> q.appenders[b] == if b < i then Pushed else Checked(task)
    {
      RunSnoc(p, steps, Lock(i));
      steps := steps + [Lock(i)];
      RunSnoc(p, steps, Push(i));
      steps := steps + [Push(i)];
    }
  }

  // ---------------------------------------------------------------- progress

  /** The steps the pool takes by itself: no new call of Append, no spurious wake-up. */
  predicate Inner<T>(s: Step<T>) {
    !s.Check? && !s.Wake?
  }

  function Pending<T>(p: Pool<T>): nat {
    Total(AppenderLoads(p.appenders)) + 2 * |p.queue| + Total(WorkerLoads(p.workers))
  }

  lemma StepMakesProgress<T>(p: Pool<T>, s: Step<T>)
    requires Enabled(p, s) && Inner(s)
    ensures Pending(Next(p, s)) < Pending(p)
  {
    match s
    case Lock(a) => AppenderUpdate(p.appenders, a, Holding(p.appenders[a].task));
    case Push(a) => AppenderUpdate(p.appenders, a, Pushed);
    case Signal(a, w) =>
      AppenderUpdate(p.appenders, a, Idle);
      if !NoneWaits(p.workers) { WorkerUpdate(p.workers, w, Ready); }
    case Acquire(w) =>
      WorkerUpdate(p.workers, w, if p.queue == [] then Waiting else Running(p.queue[0]));
    case Finish(w) => WorkerUpdate(p.workers, w, Ready);
  }

  /** Left to itself the pool comes to rest, whatever the scheduler does. */
  lemma {:induction false} InnerRunsEnd<T>(p: Pool<T>, steps: seq<Step<T>>)
    requires IsRun(p, steps) && forall i :: 0 <= i < |steps| ==> Inner(steps[i])
    ensures Pending(After(p, steps)) + |steps| <= Pending(p)
    decreases |steps|
  {
    if steps != [] {
      var last := |steps| - 1;
      InnerRunsEnd(p, steps[..last]);
      StepMakesProgress(After(p, steps[..last]), steps[last]);
    }
  }

  ghost predicate AtRest<T>(p: Pool<T>) {
    && (forall a: nat :: !Enabled(p, Lock(a)) && !Enabled(p, Push(a)))
    && (forall a: nat, w: nat :: !Enabled(p, Signal(a, w)))
    && (forall w: nat :: !Enabled(p, Acquire(w)) && !Enabled(p, Finish(w)))
  }

  /** At rest nobody holds the mutex, no call of Append is under way, and every worker sleeps. */
  lemma AtRestAllSleep<T>(p: Pool<T>)
    requires Exclusive(p) && AtRest(p)
    ensures p.owner == Free && (forall a :: 0 <= a < |p.appenders| ==> p.appenders[a].Idle?)
    ensures forall w :: 0 <= w < |p.workers| ==> p.workers[w].Waiting?
  {
    assert p.owner == Free by {
      assert forall w: nat :: !Enabled(p, Finish(w)) && w < |p.workers| ==> !p.workers[w].Running?;
      assert forall a: nat :: !Enabled(p, Push(a)) && a < |p.appenders| ==> !p.appenders[a].Holding?;
    }
    forall w: nat | w < |p.workers| ensures p.workers[w].Waiting? {
      assert !Enabled(p, Acquire(w)) && !Enabled(p, Finish(w));
    }
    forall a: nat | a < |p.appenders| ensures p.appenders[a].Idle? {
      assert !Enabled(p, Lock(a)) && !Enabled(p, Push(a));
      if p.appenders[a].Pushed? {
        assert NoneWaits(p.workers) ==> Enabled(p, Signal(a, 0));
        var w: nat :| w < |p.workers| && p.workers[w].Waiting?;
        assert Enabled(p, Signal(a, w));
      }
    }
  }

  lemma {:induction false} NoWorkersNoneDone<T>(p: Pool<T>, steps: seq<Step<T>>)
    requires IsRun(p, steps) && p.workers == []
    ensures After(p, steps).workers == [] && After(p, steps).done == p.done
    decreases |steps|
  {
    if steps != [] { NoWorkersNoneDone(p, steps[..|steps| - 1]); }
  }

  lemma {:induction false} AtRestAllDone<T>(workers: nat, appenders: nat, steps: seq<Step<T>>)
    requires IsRun(Init<T>(workers, appenders), steps)
    requires AtRest(After(Init<T>(workers, appenders), steps)) && workers > 0
    ensures var p := After(Init<T>(workers, appenders), steps); p.done == p.pushed
  {
    InitInv<T>(workers, appenders);
    RunKeepsInv(Init<T>(workers, appenders), steps);
    var p := After(Init<T>(workers, appenders), steps);
    AtRestAllSleep(p);
    assert p.queue == [] && Current(p) == [];
  }

  /** A pool that has come to rest has run every task that was pushed, in order, exactly when some
      thread could be created and not more than 16 were asked for, or nothing was pushed. */
  lemma {:induction false} AtRestAllDoneIff<T>(threadNum: nat, created: nat, appenders: nat, steps: seq<Step<T>>)
    requires var p := Init<T>(Started(threadNum, created), appenders); IsRun(p, steps) && AtRest(After(p, steps))
    ensures var p := After(Init<T>(Started(threadNum, created), appenders), steps);
      p.done == p.pushed <==> (1 <= threadNum <= 16 && 1 <= created) || p.pushed == []
  {
    var workers := Started(threadNum, created);
    if workers > 0 {
      AtRestAllDone(workers, appenders, steps);
    } else {
      NoWorkersNoneDone(Init<T>(workers, appenders), steps);
    }
  }

  /** Seventeen threads: none starts, a task is accepted all the same, and is never run. */
  lemma {:induction false} SeventeenThreads<T>(created: nat, task: T) returns (steps: seq<Step<T>>)
    ensures var p := Init<T>(Started(17, created), 1);
      && IsRun(p, steps) && AtRest(After(p, steps))
      && After(p, steps).pushed == [task] && After(p, steps).done == []
  {
    var p := Init<T>(Started(17, created), 1);
    steps := [];
    var tail := [Check(0, task), Lock(0), Push(0), Signal(0, 0)];
    for j := 0 to 4
      invariant IsRun(p, steps)
      invariant After(p, steps) == Pool(if j < 3 then [] else [task], if j == 2 then ByAppender(0) else Free, [],
                                        [[Idle, Checked(task), Holding(task), Pushed, Idle][j]],
                                        if j < 3 then [] else [task], [])
    {
      RunSnoc(p, steps, tail[j]);
      steps := steps + [tail[j]];
    }
  }

  // ---------------------------------------------------------------- the program

  class ThreadPool<T> {
    var tasks: seq<T>
    var mutex: Owner
    var waiters: set<nat>
    var threads: nat              // how many were created
    ghost var pool: Pool<T>

    ghost predicate Valid()
      reads this
    {
      && tasks == pool.queue && mutex == pool.owner
      && (forall w: nat :: w in waiters <==> w < |pool.workers| && pool.workers[w].Waiting?)
      && Inv(pool)
    }

    /** Starts the threads one after the other, as long as the system can create them. */
    constructor (threadNum: nat, created: nat, appenders: nat)
      ensures Valid() && pool == Init<T>(threads, appenders) && threads == Started(threadNum, created)
      ensures threadNum <= 16 ==> threads <= threadNum && threads <= created && threads in {threadNum, created}
      ensures threadNum > 16 ==> threads == 0
    {
      tasks, mutex, waiters := [], Free, {};
      threads := 0;
      new;
      if threadNum <= MAX_THREAD_NUM {
        while threads < threadNum && threads < created
          invariant threads <= threadNum && threads <= created
          invariant tasks == [] && mutex == Free && waiters == {}
        {
          threads := threads + 1;
        }
      }
      pool := Init<T>(threads, appenders);
      InitInv<T>(threads, appenders);
    }

    /** Append up to the lock: false when the queue looks full, and then the call is over. */
    method HasRoom(ghost a: nat, task: T) returns (room: bool)
      requires Valid() && Enabled(pool, Check(a, task))
      modifies this
      ensures Valid() && pool == Next(old(pool), Check(a, task)) && tasks == old(tasks)
      ensures room == (|old(tasks)| < 100) == (pool.appenders[a] == Checked(task))
    {
      StepKeepsInv(pool, Check(a, task));
      pool := Next(pool, Check(a, task));
      room := |tasks| < TASK_NUM;
    }

    method LockToPush(a: nat)
      requires Valid() && Enabled(pool, Lock(a))
      modifies this
      ensures Valid() && pool == Next(old(pool), Lock(a)) && mutex == ByAppender(a) && tasks == old(tasks)
    {
      StepKeepsInv(pool, Lock(a));
      pool := Next(pool, Lock(a));
      mutex := ByAppender(a);
    }

    method PushAndUnlock(ghost a: nat, task: T)
      requires Valid() && Enabled(pool, Push(a)) && pool.appenders[a].task == task
      modifies this
      ensures Valid() && pool == Next(old(pool), Push(a)) && mutex == Free && tasks == old(tasks) + [task]
    {
      StepKeepsInv(pool, Push(a));
      pool := Next(pool, Push(a));
      tasks := tasks + [task];
      mutex := Free;
    }

    /** The signal after the unlock: one of the waiting workers wakes, if there is one. */
    method SignalOne(ghost a: nat)
      requires Valid() && a < |pool.appenders| && pool.appenders[a].Pushed?
      modifies this
      ensures Valid() && exists w: nat :: Enabled(old(pool), Signal(a, w)) && pool == Next(old(pool), Signal(a, w))
      ensures tasks == old(tasks) && waiters <= old(waiters) && (waiters == old(waiters) ==> waiters == {})
    {
      if waiters == {} {
        assert Enabled(pool, Signal(a, 0));
        StepKeepsInv(pool, Signal(a, 0));
        pool := Next(pool, Signal(a, 0));
      } else {
        var w: nat :| w in waiters;
        assert Enabled(pool, Signal(a, w));
        assert !NoneWaits(pool.workers);
        StepKeepsInv(pool, Signal(a, w));
        pool := Next(pool, Signal(a, w));
        waiters := waiters - {w};
        assert w !in waiters;
      }
    }

    /** One turn of the wait loop: the front task, with the mutex kept, or back to sleep. */
    method TakeOrWait(w: nat) returns (task: Option<T>)
      requires Valid() && Enabled(pool, Acquire(w))
      modifies this
      ensures Valid() && pool == Next(old(pool), Acquire(w))
      ensures if old(tasks) == [] then task == None && w in waiters && mutex == Free
              else task == Some(old(tasks)[0]) && mutex == ByWorker(w) && tasks == old(tasks)[1..]
    {
      StepKeepsInv(pool, Acquire(w));
      pool := Next(pool, Acquire(w));
      if tasks == [] {
        waiters := waiters + {w};
        task := None;
      } else {
        task := Some(tasks[0]);
        tasks := tasks[1..];
        mutex := ByWorker(w);
      }
    }

    /** The task has returned; the mutex is given back. */
    method FinishAndUnlock(ghost w: nat)
      requires Valid() && Enabled(pool, Finish(w))
      modifies this
      ensures Valid() && pool == Next(old(pool), Finish(w)) && mutex == Free && tasks == old(tasks)
    {
      StepKeepsInv(pool, Finish(w));
      pool := Next(pool, Finish(w));
      mutex := Free;
    }
  }
}
