/**
 The thread pool as interleaved steps of its workers, of any number of threads that enqueue jobs, and
 of its destructor. A step is what one thread does between two points at which another may run.
 */
module ThreadPool {
  type Job = int

  /** Who holds the mutex. */
  datatype Owner = Free | WorkerHolds(i: nat) | ProducerHolds(p: nat) | DestructorHolds

  /**
   A worker is about to lock the mutex, holds it and evaluates the wait predicate, sleeps on the
   condition variable, was woken and must lock again, holds it with the wait over, runs a job, or is gone.
   */
  datatype Worker = Locking | Checking | Asleep | Woken | Ready | Running(job: Job) | Exited

  /** A thread inside `Enqueue`: wants the lock, holds it, has pushed and still has to notify. */
  datatype Producer = Idle | Wanting(job: Job) | Holding(job: Job) | Notifying

  datatype Destructor = NotStarted | WantsLock | HoldsLock | NotifiesAll | Joining(next: nat) | Destroyed

  /** The pool, with the jobs pushed, popped and finished so far as history. */
  datatype Pool = Pool(
    queue: seq<Job>, mutex: Owner, workers: seq<Worker>, producers: seq<Producer>, destructor: Destructor,
    deconstructing: bool, enqueued: seq<Job>, dequeued: seq<Job>, finished: multiset<Job>)

  /** The pool as constructed, with `n` threads that may not have begun yet and `m` potential callers. */
  function Constructed(n: nat, m: nat): Pool {
    Pool([], Free, seq(n, _ => Locking), seq(m, _ => Idle), NotStarted, false, [], [], multiset{})
  }

  datatype Action =
    | Lock(i: nat)                         // a worker acquires the mutex, first or again after waking
    | Check(i: nat)                        // evaluates the wait predicate: goes on, or releases and sleeps
    | Proceed(i: nat)                      // returns if deconstructing, else pops a job; releases the mutex
    | Finish(i: nat)                       // the job returns
    | SpuriousWake(i: nat)
    | CallEnqueue(p: nat, job: Job)
    | ProducerLock(p: nat)
    | Push(p: nat)                         // pushes and releases the mutex
    | NotifyOne(p: nat, wakes: nat)        // wakes the given sleeper, if anyone sleeps
    | Destroy
    | DestructorLock
    | SetFlag                              // sets _deconstructing and releases the mutex
    | NotifyAll
    | Join                                 // the next join returns

  predicate WorkerIs(s: Pool, i: nat, w: Worker) {
    i < |s.workers| && s.workers[i] == w
  }

  predicate SomeoneAsleep(ws: seq<Worker>) {
    exists i :: 0 <= i < |ws| && ws[i] == Asleep
  }

  predicate Enabled(s: Pool, a: Action) {
    match a
    case Lock(i) => (WorkerIs(s, i, Locking) || WorkerIs(s, i, Woken)) && s.mutex == Free
    case Check(i) => WorkerIs(s, i, Checking)
    case Proceed(i) => WorkerIs(s, i, Ready) && (s.deconstructing || s.queue != [])
    case Finish(i) => i < |s.workers| && s.workers[i].Running?
    case SpuriousWake(i) => WorkerIs(s, i, Asleep)
    case CallEnqueue(p, _) => p < |s.producers| && s.producers[p] == Idle && s.destructor == NotStarted
    case ProducerLock(p) => p < |s.producers| && s.producers[p].Wanting? && s.mutex == Free
    case Push(p) => p < |s.producers| && s.producers[p].Holding?
    case NotifyOne(p, wakes) =>
      p < |s.producers| && s.producers[p] == Notifying && (SomeoneAsleep(s.workers) ==> WorkerIs(s, wakes, Asleep))
    case Destroy => s.destructor == NotStarted
    case DestructorLock => s.destructor == WantsLock && s.mutex == Free
    case SetFlag => s.destructor == HoldsLock
    case NotifyAll => s.destructor == NotifiesAll
    case Join => s.destructor.Joining? && (s.destructor.next < |s.workers| ==> s.workers[s.destructor.next] == Exited)
  }

  function WakeAll(ws: seq<Worker>): seq<Worker> {
    seq(|ws|, i requires 0 <= i < |ws| => if ws[i] == Asleep then Woken else ws[i])
  }

  function Next(s: Pool, a: Action): Pool
    requires Enabled(s, a)
  {
    match a
    case Lock(i) => s.(workers := s.workers[i := Checking], mutex := WorkerHolds(i))
    case Check(i) =>
      if s.queue != [] || s.deconstructing then s.(workers := s.workers[i := Ready])
      else s.(workers := s.workers[i := Asleep], mutex := Free)
    case Proceed(i) =>
      if s.deconstructing then
        s.(workers := s.workers[i := Exited], mutex := Free)
      else
        var job := s.queue[0];
        s.(workers := s.workers[i := Running(job)], mutex := Free,
           queue := s.queue[1..], dequeued := s.dequeued + [job])
    case Finish(i) =>
      s.(workers := s.workers[i := Locking], finished := s.finished + multiset{s.workers[i].job})
    case SpuriousWake(i) => s.(workers := s.workers[i := Woken])
    case CallEnqueue(p, job) => s.(producers := s.producers[p := Wanting(job)])
    case ProducerLock(p) => s.(producers := s.producers[p := Holding(s.producers[p].job)], mutex := ProducerHolds(p))
    case Push(p) =>
      var job := s.producers[p].job;
      s.(producers := s.producers[p := Notifying], mutex := Free,
         queue := s.queue + [job], enqueued := s.enqueued + [job])
    case NotifyOne(p, wakes) =>
      s.(producers := s.producers[p := Idle],
         workers := if SomeoneAsleep(s.workers) then s.workers[wakes := Woken] else s.workers)
    case Destroy => s.(destructor := WantsLock)
    case DestructorLock => s.(destructor := HoldsLock, mutex := DestructorHolds)
    case SetFlag => s.(destructor := NotifiesAll, deconstructing := true, mutex := Free)
    case NotifyAll => s.(destructor := Joining(0), workers := WakeAll(s.workers))
    case Join =>
      s.(destructor := if s.destructor.next < |s.workers| then Joining(s.destructor.next + 1) else Destroyed)
  }

  // ---------- Counting over the threads ----------

  function Total<T>(xs: seq<T>, weight: T -> nat): nat {
    if xs == [] then 0 else weight(xs[0]) + Total(xs[1..], weight)
  }

  lemma {:induction false} TotalUpdate<T>(xs: seq<T>, i: nat, x: T, weight: T -> nat)
    requires i < |xs|
    ensures Total(xs[i := x], weight) + weight(xs[i]) == Total(xs, weight) + weight(x)
  {
    if i == 0 {
      assert xs[i := x][1..] == xs[1..];
    } else {
      TotalUpdate(xs[1..], i - 1, x, weight);
      assert xs[i := x][1..] == xs[1..][i - 1 := x];
    }
  }

  lemma {:induction false} TotalPointwise<T>(xs: seq<T>, ys: seq<T>, weight: T -> nat)
    requires |xs| == |ys| && forall i :: 0 <= i < |xs| ==> weight(xs[i]) <= weight(ys[i])
    ensures Total(xs, weight) <= Total(ys, weight)
  {
    if xs != [] {
      assert forall i :: 0 <= i < |xs| - 1 ==> xs[1..][i] == xs[i + 1] && ys[1..][i] == ys[i + 1];
      TotalPointwise(xs[1..], ys[1..], weight);
    }
  }

  lemma {:induction false} TotalIsZero<T>(xs: seq<T>, weight: T -> nat)
    ensures Total(xs, weight) == 0 <==> forall i :: 0 <= i < |xs| ==> weight(xs[i]) == 0
  {
    if xs != [] {
      TotalIsZero(xs[1..], weight);
      assert forall i :: 1 <= i < |xs| ==> xs[i] == xs[1..][i - 1];
    }
  }

  /** The jobs being run. */
  function RunningJobs(ws: seq<Worker>): multiset<Job> {
    if ws == [] then multiset{} else JobOf(ws[0]) + RunningJobs(ws[1..])
  }

  function JobOf(w: Worker): multiset<Job> {
    if w.Running? then multiset{w.job} else multiset{}
  }

  lemma {:induction false} RunningUpdate(ws: seq<Worker>, i: nat, w: Worker, job: Job)
    requires i < |ws|
    ensures RunningJobs(ws[i := w])[job] + JobOf(ws[i])[job] == RunningJobs(ws)[job] + JobOf(w)[job]
  {
    hide JobOf;
    if i == 0 {
      assert ws[i := w][1..] == ws[1..];
    } else {
      RunningUpdate(ws[1..], i - 1, w, job);
      assert ws[i := w][1..] == ws[1..][i - 1 := w];
    }
  }

  /** Beginning a job adds it to those being run, ending it takes it away, and no other move matters. */
  lemma OneWorkerMoves(ws: seq<Worker>, i: nat, w: Worker)
    requires i < |ws|
    ensures !ws[i].Running? && !w.Running? ==> RunningJobs(ws[i := w]) == RunningJobs(ws)
    ensures !ws[i].Running? && w.Running? ==> RunningJobs(ws[i := w]) == RunningJobs(ws) + multiset{w.job}
    ensures ws[i].Running? && !w.Running? ==> RunningJobs(ws[i := w]) + multiset{ws[i].job} == RunningJobs(ws)
  {
    hide RunningJobs;
    forall job
      ensures RunningJobs(ws[i := w])[job] + JobOf(ws[i])[job] == RunningJobs(ws)[job] + JobOf(w)[job]
    {
      RunningUpdate(ws, i, w, job);
    }
  }

  lemma {:induction false} WakingRunsNothing(ws: seq<Worker>)
    ensures RunningJobs(WakeAll(ws)) == RunningJobs(ws)
  {
    if ws != [] {
      WakingRunsNothing(ws[1..]);
      assert WakeAll(ws)[1..] == WakeAll(ws[1..]);
    }
  }

  // ---------- The invariant ----------

  /** The mutex is held by exactly the thread whose state says so. */
  ghost predicate Mutual(s: Pool) {
    && (forall i :: 0 <= i < |s.workers| ==>
          (s.workers[i] == Checking || s.workers[i] == Ready <==> s.mutex == WorkerHolds(i)))
    && (forall p :: 0 <= p < |s.producers| ==> (s.producers[p].Holding? <==> s.mutex == ProducerHolds(p)))
    && (s.destructor == HoldsLock <==> s.mutex == DestructorHolds)
    && (s.mutex.WorkerHolds? ==> s.mutex.i < |s.workers|)
    && (s.mutex.ProducerHolds? ==> s.mutex.p < |s.producers|)
  }

  /** How far the destruction has come, seen from both sides. */
  ghost predicate Phases(s: Pool) {
    && (s.deconstructing <==> s.destructor.NotifiesAll? || s.destructor.Joining? || s.destructor.Destroyed?)
    && (forall i :: 0 <= i < |s.workers| ==>
          && (s.workers[i] == Ready ==> s.queue != [] || s.deconstructing)
          && (s.workers[i] == Exited ==> s.deconstructing)
          && (s.workers[i] == Asleep ==> !s.destructor.Joining? && !s.destructor.Destroyed?)
          && (s.destructor.Joining? && i < s.destructor.next ==> s.workers[i] == Exited)
          && (s.destructor.Destroyed? ==> s.workers[i] == Exited))
    && (s.destructor.Joining? ==> s.destructor.next <= |s.workers|)
  }

  function AwakeWeight(w: Worker): nat {
    if w.Asleep? || w.Running? || w.Exited? then 0 else 1
  }

  function NotifyWeight(p: Producer): nat {
    if p.Notifying? then 1 else 0
  }

  /** No wakeup is lost: if a worker sleeps, every queued job is matched by a notify to come or a worker awake. */
  ghost predicate NoLostWakeup(s: Pool) {
    s.deconstructing || !SomeoneAsleep(s.workers)
    || |s.queue| <= Total(s.producers, NotifyWeight) + Total(s.workers, AwakeWeight)
  }

  /** Jobs leave the queue in the order in which they entered, and each is run once. */
  ghost predicate Conserved(s: Pool) {
    && s.enqueued == s.dequeued + s.queue
    && multiset(s.dequeued) == s.finished + RunningJobs(s.workers)
  }

  ghost predicate Inv(s: Pool) {
    Mutual(s) && Phases(s) && NoLostWakeup(s) && Conserved(s)
  }

  lemma ConstructedInv(n: nat, m: nat)
    ensures Inv(Constructed(n, m))
  {
    NothingRuns(n);
  }

  lemma {:induction false} NothingRuns(n: nat)
    ensures RunningJobs(seq(n, _ => Locking)) == multiset{}
  {
    if n > 0 {
      NothingRuns(n - 1);
      assert seq(n, _ => Locking)[1..] == seq(n - 1, _ => Locking);
    }
  }

  predicate WorkerStep(a: Action) {
    a.Lock? || a.Check? || a.Proceed? || a.Finish? || a.SpuriousWake?
  }

  predicate ProducerStep(a: Action) {
    a.CallEnqueue? || a.ProducerLock? || a.Push? || a.NotifyOne?
  }

  lemma WorkerKeepsMutual(s: Pool, a: Action)
    requires Mutual(s) && Enabled(s, a) && WorkerStep(a)
    ensures Mutual(Next(s, a))
  {
  }

  lemma ProducerKeepsMutual(s: Pool, a: Action)
    requires Mutual(s) && Enabled(s, a) && ProducerStep(a)
    ensures Mutual(Next(s, a))
  {
    hide SomeoneAsleep;
  }

  lemma NextMutual(s: Pool, a: Action)
    requires Mutual(s) && Enabled(s, a)
    ensures Mutual(Next(s, a))
  {
    if WorkerStep(a) {
      hide Mutual, Enabled, Next;
      WorkerKeepsMutual(s, a);
    } else if ProducerStep(a) {
      hide Mutual, Enabled, Next;
      ProducerKeepsMutual(s, a);
    }
  }

  lemma NextPhases(s: Pool, a: Action)
    requires Mutual(s) && Phases(s) && Enabled(s, a)
    ensures Phases(Next(s, a))
  {
  }

  lemma WorkerLosesNoWakeup(s: Pool, a: Action)
    requires Phases(s) && NoLostWakeup(s) && Enabled(s, a) && WorkerStep(a)
    ensures NoLostWakeup(Next(s, a))
  {
    var s' := Next(s, a);
    TotalUpdate(s.workers, a.i, s'.workers[a.i], AwakeWeight);
    hide Total;
    if s'.deconstructing || (a.Check? && s'.workers[a.i] == Asleep) {
    } else if j :| 0 <= j < |s'.workers| && s'.workers[j] == Asleep {
      assert s.workers[j] == Asleep;
    }
  }

  lemma ProducerLosesNoWakeup(s: Pool, a: Action)
    requires NoLostWakeup(s) && Enabled(s, a)
    requires ProducerStep(a)
    ensures NoLostWakeup(Next(s, a))
  {
    TotalUpdate(s.producers, a.p, Next(s, a).producers[a.p], NotifyWeight);
    hide Total, SomeoneAsleep;
    if a.NotifyOne? && SomeoneAsleep(s.workers) {
      TotalUpdate(s.workers, a.wakes, Woken, AwakeWeight);
    }
  }

  lemma NextNoLostWakeup(s: Pool, a: Action)
    requires Phases(s) && NoLostWakeup(s) && Enabled(s, a)
    ensures NoLostWakeup(Next(s, a))
  {
    if WorkerStep(a) {
      hide Next, Enabled, Phases, NoLostWakeup;
      WorkerLosesNoWakeup(s, a);
    } else if ProducerStep(a) {
      hide Next, Enabled, NoLostWakeup;
      ProducerLosesNoWakeup(s, a);
    } else {
      hide Total, SomeoneAsleep;
    }
  }

  lemma NextInOrder(s: Pool, a: Action)
    requires s.enqueued == s.dequeued + s.queue && Enabled(s, a)
    ensures Next(s, a).enqueued == Next(s, a).dequeued + Next(s, a).queue
  {
    hide SomeoneAsleep, WakeAll;
    if a.Proceed? && !s.deconstructing {
      assert s.queue == [s.queue[0]] + s.queue[1..];
    }
  }

  /** What a step makes of the jobs being run. */
  ghost predicate Runs(s: Pool, a: Action, s': Pool) {
    if a.Proceed? && !s.deconstructing && s.queue != [] then
      RunningJobs(s'.workers) == RunningJobs(s.workers) + multiset{s.queue[0]}
    else if a.Finish? && a.i < |s.workers| && s.workers[a.i].Running? then
      RunningJobs(s'.workers) + multiset{s.workers[a.i].job} == RunningJobs(s.workers)
    else
      RunningJobs(s'.workers) == RunningJobs(s.workers)
  }

  lemma WorkerRuns(s: Pool, a: Action)
    requires Enabled(s, a) && WorkerStep(a)
    ensures Runs(s, a, Next(s, a))
  {
    hide RunningJobs;
    OneWorkerMoves(s.workers, a.i, Next(s, a).workers[a.i]);
  }

  lemma NextRuns(s: Pool, a: Action)
    requires Enabled(s, a)
    ensures Runs(s, a, Next(s, a))
  {
    hide RunningJobs, SomeoneAsleep, WakeAll;
    if WorkerStep(a) {
      WorkerRuns(s, a);
    } else if a.NotifyOne? && SomeoneAsleep(s.workers) {
      OneWorkerMoves(s.workers, a.wakes, Woken);
    } else if a.NotifyAll? {
      WakingRunsNothing(s.workers);
    }
  }

  lemma NextHistory(s: Pool, a: Action)
    requires Enabled(s, a)
    ensures Next(s, a).dequeued == if a.Proceed? && !s.deconstructing then s.dequeued + [s.queue[0]] else s.dequeued
    ensures Next(s, a).finished == if a.Finish? then s.finished + multiset{s.workers[a.i].job} else s.finished
  {
    hide SomeoneAsleep, WakeAll;
  }

  lemma NextConserved(s: Pool, a: Action)
    requires Conserved(s) && Enabled(s, a)
    ensures Conserved(Next(s, a))
  {
    NextInOrder(s, a);
    NextRuns(s, a);
    NextHistory(s, a);
    hide RunningJobs, Next;
  }

  lemma NextInv(s: Pool, a: Action)
    requires Inv(s) && Enabled(s, a)
    ensures Inv(Next(s, a))
  {
    hide Next, Enabled, Mutual, Phases, NoLostWakeup, Conserved;
    NextMutual(s, a);
    NextPhases(s, a);
    NextNoLostWakeup(s, a);
    NextConserved(s, a);
  }

  // ---------- Every reachable state ----------

  /** The actions can be taken one after the other. */
  ghost predicate Executable(s: Pool, actions: seq<Action>)
    decreases |actions|
  {
    actions != [] ==> Enabled(s, actions[0]) && Executable(Next(s, actions[0]), actions[1..])
  }

  ghost function After(s: Pool, actions: seq<Action>): Pool
    requires Executable(s, actions)
    decreases |actions|
  {
    if actions == [] then s else After(Next(s, actions[0]), actions[1..])
  }

  lemma NextKeepsThreads(s: Pool, a: Action)
    requires Enabled(s, a)
    ensures |Next(s, a).workers| == |s.workers|
  {
    hide SomeoneAsleep;
  }

  lemma {:induction false} EveryStateInv(s: Pool, actions: seq<Action>)
    requires Inv(s) && Executable(s, actions)
    ensures Inv(After(s, actions)) && |After(s, actions).workers| == |s.workers|
    decreases |actions|
  {
    if actions != [] {
      var a := actions[0];
      hide Inv, Next, Enabled;
      NextInv(s, a);
      NextKeepsThreads(s, a);
      EveryStateInv(Next(s, a), actions[1..]);
    }
  }

  /** In every reachable state the jobs pushed are the jobs popped, in order, then the queue; each is run once. */
  lemma JobsConserved(n: nat, m: nat, actions: seq<Action>)
    requires Executable(Constructed(n, m), actions)
    ensures var s := After(Constructed(n, m), actions);
            && s.enqueued == s.dequeued + s.queue
            && multiset(s.dequeued) == s.finished + RunningJobs(s.workers)
  {
    ConstructedInv(n, m);
    EveryStateInv(Constructed(n, m), actions);
  }

  /**
   In every reachable state before shutdown, if a worker sleeps, the queue is no longer than the number
   of notifies still to come and workers awake outside a job; so a nonempty queue never coexists with
   all workers asleep and no notify to come.
   */
  lemma NoWakeupIsLost(n: nat, m: nat, actions: seq<Action>)
    requires Executable(Constructed(n, m), actions)
    requires var s := After(Constructed(n, m), actions); !s.deconstructing && n > 0
    ensures var s := After(Constructed(n, m), actions);
            && (SomeoneAsleep(s.workers)
                ==> |s.queue| <= Total(s.producers, NotifyWeight) + Total(s.workers, AwakeWeight))
            && (s.queue != [] && (forall i :: 0 <= i < n ==> WorkerIs(s, i, Asleep))
                ==> exists p :: 0 <= p < |s.producers| && s.producers[p] == Notifying)
  {
    ConstructedInv(n, m);
    EveryStateInv(Constructed(n, m), actions);
    var s := After(Constructed(n, m), actions);
    assert |s.workers| == n;
    hide Executable, After, Constructed, Mutual, Phases, Conserved;
    if s.queue != [] && forall i :: 0 <= i < n ==> WorkerIs(s, i, Asleep) {
      AllAsleep(s);
    }
  }

  lemma AllAsleep(s: Pool)
    requires NoLostWakeup(s) && !s.deconstructing && s.workers != [] && s.queue != []
    requires forall i :: 0 <= i < |s.workers| ==> WorkerIs(s, i, Asleep)
    ensures exists p :: 0 <= p < |s.producers| && s.producers[p] == Notifying
  {
    TotalIsZero(s.producers, NotifyWeight);
    TotalIsZero(s.workers, AwakeWeight);
    hide Total;
    assert forall i :: 0 <= i < |s.workers| ==> WorkerIs(s, i, Asleep) && s.workers[i] == Asleep;
    assert SomeoneAsleep(s.workers) by {
      assert s.workers[0] == Asleep;
    }
  }

  /** The steps that are a thread's own next step; the others may or may not ever happen. */
  predicate OwnStep(a: Action) {
    !a.SpuriousWake? && !a.CallEnqueue? && !a.Destroy?
  }

  /** Whoever holds the mutex can take its next step. */
  lemma HolderCanStep(s: Pool)
    requires Mutual(s) && Phases(s) && s.mutex != Free
    ensures exists a :: OwnStep(a) && Enabled(s, a)
  {
    match s.mutex
    case WorkerHolds(i) =>
      assert Enabled(s, Check(i)) || Enabled(s, Proceed(i));
    case ProducerHolds(p) =>
      assert Enabled(s, Push(p));
    case DestructorHolds =>
      assert Enabled(s, SetFlag);
  }

  /** A queued job never waits for a spurious wakeup or another call: some thread can take its own next step. */
  lemma QueuedJobsProgress(s: Pool)
    requires Inv(s) && !s.deconstructing && s.workers != [] && s.queue != []
    ensures exists a :: OwnStep(a) && Enabled(s, a)
  {
    if s.mutex != Free {
      HolderCanStep(s);
    } else {
      TotalIsZero(s.producers, NotifyWeight);
      TotalIsZero(s.workers, AwakeWeight);
      hide Conserved, Total;
      if p :| 0 <= p < |s.producers| && s.producers[p] == Notifying {
        NotifierCanStep(s, p);
      } else if i :| 0 <= i < |s.workers| && AwakeWeight(s.workers[i]) != 0 {
        assert Enabled(s, Lock(i));
      } else {
        assert s.workers[0].Running?;
        assert Enabled(s, Finish(0));
      }
    }
  }

  lemma NotifierCanStep(s: Pool, p: nat)
    requires p < |s.producers| && s.producers[p] == Notifying
    ensures exists a :: OwnStep(a) && Enabled(s, a)
  {
    if i :| 0 <= i < |s.workers| && s.workers[i] == Asleep {
      assert Enabled(s, NotifyOne(p, i));
    } else {
      assert Enabled(s, NotifyOne(p, 0));
    }
  }

  // ---------- The jobs handed to Enqueue ----------

  /** The jobs handed in by the calls of `Enqueue` among some actions, in order. */
  function Calls(actions: seq<Action>): seq<Job> {
    if actions == [] then []
    else (if actions[0].CallEnqueue? then [actions[0].job] else []) + Calls(actions[1..])
  }

  /** The same for the calls made by the thread `p` alone. */
  function CallsBy(actions: seq<Action>, p: nat): seq<Job> {
    if actions == [] then []
    else (if actions[0].CallEnqueue? && actions[0].p == p then [actions[0].job] else []) + CallsBy(actions[1..], p)
  }

  /** The job that a thread inside `Enqueue` has not pushed yet. */
  function InHand(p: Producer): (jobs: seq<Job>)
    ensures |jobs| <= 1
  {
    if p.Wanting? || p.Holding? then [p.job] else []
  }

  function HasInHand(job: Job): Producer -> nat {
    p => if InHand(p) == [job] then 1 else 0
  }

  /** What a step adds to the jobs ever queued. */
  function Pushed(s: Pool, a: Action): seq<Job>
    requires Enabled(s, a)
  {
    if a.Push? then Next(s, a).enqueued[|s.enqueued|..] else []
  }

  /** What the thread `p` added to the jobs ever queued, in order. */
  ghost function PushedBy(s: Pool, actions: seq<Action>, p: nat): seq<Job>
    requires Executable(s, actions)
    decreases |actions|
  {
    if actions == [] then []
    else
      (if actions[0].Push? && actions[0].p == p then Pushed(s, actions[0]) else [])
      + PushedBy(Next(s, actions[0]), actions[1..], p)
  }

  lemma NextPushes(s: Pool, a: Action)
    requires Enabled(s, a)
    ensures Next(s, a).enqueued == s.enqueued + Pushed(s, a)
  {
    hide SomeoneAsleep, WakeAll;
  }

  lemma OneJob(a: Action)
    ensures Calls([a]) == if a.CallEnqueue? then [a.job] else []
  {
    assert [a][1..] == [] && Calls([]) == [];
  }

  lemma PushedOne(s: Pool, a: Action)
    requires Enabled(s, a)
    ensures Pushed(s, a) == if a.Push? then [s.producers[a.p].job] else []
    ensures ProducerStep(a) ==> a.p < |s.producers| == |Next(s, a).producers|
    ensures ProducerStep(a) ==> Next(s, a).producers == s.producers[a.p := Next(s, a).producers[a.p]]
    ensures !ProducerStep(a) ==> Next(s, a).producers == s.producers
    ensures ProducerStep(a)
        ==> (InHand(s.producers[a.p]) + (if a.CallEnqueue? then [a.job] else [])
             == (if a.Push? then [s.producers[a.p].job] else []) + InHand(Next(s, a).producers[a.p]))
  {
    hide SomeoneAsleep, WakeAll;
  }

  lemma CountOne(hand: seq<Job>, call: seq<Job>, push: seq<Job>, hand': seq<Job>, job: Job)
    requires hand + call == push + hand' && |hand| <= 1 && |call| <= 1 && |push| <= 1 && |hand'| <= 1
    ensures multiset(call)[job] + (if hand == [job] then 1 else 0)
         == multiset(push)[job] + (if hand' == [job] then 1 else 0)
  {
    CountShort(hand, job);
    CountShort(hand', job);
    assert multiset(hand + call)[job] == multiset(push + hand')[job];
  }

  lemma CountShort(xs: seq<Job>, job: Job)
    requires |xs| <= 1
    ensures multiset(xs)[job] == if xs == [job] then 1 else 0
  {
    if xs != [] {
      assert xs == [xs[0]];
    }
  }

  /** A step of one thread neither loses a job between its call and its push nor makes one up. */
  lemma NextHandsOver(s: Pool, a: Action, job: Job)
    requires Enabled(s, a)
    ensures multiset(Calls([a]))[job] + Total(s.producers, HasInHand(job))
         == multiset(Pushed(s, a))[job] + Total(Next(s, a).producers, HasInHand(job))
  {
    OneJob(a);
    PushedOne(s, a);
    hide Total, Next, Enabled, Calls, Pushed;
    if ProducerStep(a) {
      TotalUpdate(s.producers, a.p, Next(s, a).producers[a.p], HasInHand(job));
      hide InHand;
      CountOne(InHand(s.producers[a.p]), Calls([a]), Pushed(s, a), InHand(Next(s, a).producers[a.p]), job);
    }
  }

  /** The jobs handed in by calls are those queued since and those still in a caller's hand, as often as handed in. */
  lemma {:induction false} CallsAreQueued(s: Pool, actions: seq<Action>, job: Job)
    requires Executable(s, actions)
    ensures multiset(Calls(actions))[job] + multiset(s.enqueued)[job] + Total(s.producers, HasInHand(job))
         == multiset(After(s, actions).enqueued)[job] + Total(After(s, actions).producers, HasInHand(job))
    decreases |actions|
  {
    if actions != [] {
      var a := actions[0];
      assert Calls(actions) == Calls([a]) + Calls(actions[1..]) by {
        assert [a][1..] == [] && Calls([]) == [];
      }
      hide Next, Enabled, HasInHand, Pushed, Calls, Total;
      NextPushes(s, a);
      NextHandsOver(s, a, job);
      CallsAreQueued(Next(s, a), actions[1..], job);
    }
  }

  lemma NextHandsOverInOrder(s: Pool, a: Action, p: nat)
    requires Enabled(s, a) && p < |s.producers|
    ensures p < |Next(s, a).producers|
    ensures InHand(s.producers[p]) + CallsBy([a], p)
         == (if a.Push? && a.p == p then Pushed(s, a) else []) + InHand(Next(s, a).producers[p])
  {
    assert [a][1..] == [] && CallsBy([], p) == [];
    hide SomeoneAsleep, WakeAll;
  }

  /** The jobs that one thread hands in are queued in the order of its calls. */
  lemma {:induction false} CallsKeepOrder(s: Pool, actions: seq<Action>, p: nat)
    requires Executable(s, actions) && p < |s.producers|
    ensures p < |After(s, actions).producers|
    ensures InHand(s.producers[p]) + CallsBy(actions, p)
         == PushedBy(s, actions, p) + InHand(After(s, actions).producers[p])
    decreases |actions|
  {
    if actions != [] {
      var a, s' := actions[0], Next(s, actions[0]);
      var own := if a.Push? && a.p == p then Pushed(s, a) else [];
      assert CallsBy([a], p) == if a.CallEnqueue? && a.p == p then [a.job] else [] by {
        assert [a][1..] == [] && CallsBy([], p) == [];
      }
      assert CallsBy(actions, p) == CallsBy([a], p) + CallsBy(actions[1..], p);
      assert PushedBy(s, actions, p) == own + PushedBy(s', actions[1..], p);
      assert After(s, actions) == After(s', actions[1..]);
      NextHandsOverInOrder(s, a, p);
      CallsKeepOrder(s', actions[1..], p);
      hide *;
      Regroup(InHand(s.producers[p]), CallsBy([a], p), CallsBy(actions[1..], p), own, InHand(s'.producers[p]),
              PushedBy(s', actions[1..], p), InHand(After(s, actions).producers[p]));
    }
  }

  lemma Regroup(hand: seq<Job>, call: seq<Job>, calls: seq<Job>, push: seq<Job>, hand': seq<Job>, pushes: seq<Job>,
      left: seq<Job>)
    requires hand + call == push + hand' && hand' + calls == pushes + left
    ensures hand + (call + calls) == (push + pushes) + left
  {
    assert hand + (call + calls) == (hand + call) + calls == push + (hand' + calls) == push + (pushes + left);
  }

  // ---------- Every job is run ----------

  function WorkerWork(w: Worker): nat {
    match w
    case Asleep => 0
    case Exited => 0
    case Ready => 1
    case Checking => 2
    case Locking => 3
    case Woken => 3
    case Running(_) => 4
  }

  function ProducerWork(p: Producer): nat {
    match p
    case Idle => 0
    case Notifying => 4
    case Holding(_) => 9
    case Wanting(_) => 10
  }

  /** A bound on the steps that the threads can still take by themselves. */
  function Work(s: Pool): nat {
    4 * |s.queue| + Total(s.workers, WorkerWork) + Total(s.producers, ProducerWork)
  }

  /** The work that a step brings in from outside. */
  function Brought(a: Action): nat {
    if a.SpuriousWake? then 3 else if a.CallEnqueue? then 10 else 0
  }

  function OwnSteps(actions: seq<Action>): nat {
    if actions == [] then 0 else (if OwnStep(actions[0]) then 1 else 0) + OwnSteps(actions[1..])
  }

  function AllBrought(actions: seq<Action>): nat {
    if actions == [] then 0 else Brought(actions[0]) + AllBrought(actions[1..])
  }

  lemma WorkerStepWorks(s: Pool, a: Action)
    requires !s.deconstructing && Enabled(s, a) && WorkerStep(a)
    ensures Work(Next(s, a)) + (if OwnStep(a) then 1 else 0) <= Work(s) + Brought(a)
  {
    hide Total;
    TotalUpdate(s.workers, a.i, Next(s, a).workers[a.i], WorkerWork);
  }

  lemma ProducerStepWorks(s: Pool, a: Action)
    requires Enabled(s, a) && ProducerStep(a)
    ensures Work(Next(s, a)) + (if OwnStep(a) then 1 else 0) <= Work(s) + Brought(a)
  {
    hide Total, SomeoneAsleep;
    TotalUpdate(s.producers, a.p, Next(s, a).producers[a.p], ProducerWork);
    if a.NotifyOne? && SomeoneAsleep(s.workers) {
      TotalUpdate(s.workers, a.wakes, Woken, WorkerWork);
    }
  }

  /** Before shutdown every own step uses up work. */
  lemma StepWorks(s: Pool, a: Action)
    requires Phases(s) && s.destructor == NotStarted && Enabled(s, a) && a != Destroy
    ensures Work(Next(s, a)) + (if OwnStep(a) then 1 else 0) <= Work(s) + Brought(a)
    ensures Next(s, a).destructor == NotStarted
  {
    assert WorkerStep(a) || ProducerStep(a);
    hide Phases, Work, SomeoneAsleep;
    if WorkerStep(a) {
      WorkerStepWorks(s, a);
    } else {
      ProducerStepWorks(s, a);
    }
  }

  lemma {:induction false} NoneRunning(ws: seq<Worker>)
    requires forall i :: 0 <= i < |ws| ==> !ws[i].Running?
    ensures RunningJobs(ws) == multiset{}
  {
    if ws != [] {
      NoneRunning(ws[1..]);
    }
  }

  /** Nothing is queued, every job pushed has been run to its end, and every call of `Enqueue` has returned. */
  ghost predicate AllDone(s: Pool) {
    && s.queue == [] && s.finished == multiset(s.enqueued)
    && forall p :: 0 <= p < |s.producers| ==> s.producers[p] == Idle
  }

  /** Where no thread can take its own next step. */
  lemma StuckIsDone(s: Pool)
    requires Inv(s) && !s.deconstructing && s.workers != []
    requires forall a :: Enabled(s, a) ==> !OwnStep(a)
    ensures AllDone(s)
  {
    if s.mutex != Free {
      HolderCanStep(s);
    }
    if s.queue != [] {
      QueuedJobsProgress(s);
    }
    forall i | 0 <= i < |s.workers|
      ensures !s.workers[i].Running?
    {
      assert !Enabled(s, Finish(i));
    }
    NoneRunning(s.workers);
    assert s.enqueued == s.dequeued;
    forall p | 0 <= p < |s.producers|
      ensures s.producers[p] == Idle
    {
      assert !Enabled(s, ProducerLock(p));
      if s.producers[p] == Notifying {
        NotifierCanStep(s, p);
      }
    }
  }

  /**
   Before shutdown the threads can take only a bounded number of steps by themselves, and when they can
   take no more, every job pushed has been run.
   */
  lemma {:induction false} JobsGetDone(s: Pool, actions: seq<Action>)
    requires Inv(s) && s.destructor == NotStarted && s.workers != []
    requires Executable(s, actions) && Destroy !in actions
    ensures OwnSteps(actions) + Work(After(s, actions)) <= Work(s) + AllBrought(actions)
    ensures (forall a :: Enabled(After(s, actions), a) ==> !OwnStep(a)) ==> AllDone(After(s, actions))
    decreases |actions|
  {
    if actions == [] {
      if forall a :: Enabled(s, a) ==> !OwnStep(a) {
        StuckIsDone(s);
      }
    } else {
      var a := actions[0];
      StepWorks(s, a);
      NextInv(s, a);
      NextKeepsThreads(s, a);
      hide Inv, Work, Enabled, Next, OwnStep, AllDone, Brought;
      JobsGetDone(Next(s, a), actions[1..]);
    }
  }

  /** Where all is done, the jobs run are those handed in. */
  lemma DoneIsHandedIn(n: nat, m: nat, actions: seq<Action>)
    requires Executable(Constructed(n, m), actions) && AllDone(After(Constructed(n, m), actions))
    ensures After(Constructed(n, m), actions).finished == multiset(Calls(actions))
  {
    var s0, s := Constructed(n, m), After(Constructed(n, m), actions);
    forall job
      ensures s.finished[job] == multiset(Calls(actions))[job]
    {
      CallsAreQueued(s0, actions, job);
      TotalIsZero(s0.producers, HasInHand(job));
      TotalIsZero(s.producers, HasInHand(job));
      hide Total, After, Executable, Calls;
    }
  }

  lemma {:induction false} RunOn(s: Pool, before: seq<Action>, after: seq<Action>)
    requires Executable(s, before) && Executable(After(s, before), after)
    ensures Executable(s, before + after) && After(s, before + after) == After(After(s, before), after)
    decreases |before|
  {
    if before == [] {
      assert before + after == after;
    } else {
      assert (before + after)[1..] == before[1..] + after;
      hide Next, Enabled;
      RunOn(Next(s, before[0]), before[1..], after);
    }
  }

  /**
   From construction on, in every run before shutdown: from any state `s` reached, the threads take at
   most `Work(s)` own steps, not counting what spurious wakeups and further calls bring in; and when they
   can take no more, the queue is empty and the jobs run are exactly those handed to `Enqueue`, each as
   often as it was handed in.
   */
  lemma EveryJobIsRun(n: nat, m: nat, before: seq<Action>, after: seq<Action>)
    requires n > 0 && Executable(Constructed(n, m), before)
    requires After(Constructed(n, m), before).destructor == NotStarted
    requires Executable(After(Constructed(n, m), before), after) && Destroy !in after
    ensures var s := After(Constructed(n, m), before);
            var s' := After(s, after);
            && OwnSteps(after) + Work(s') <= Work(s) + AllBrought(after)
            && ((forall a :: Enabled(s', a) ==> !OwnStep(a))
                ==> s'.queue == [] && s'.finished == multiset(Calls(before + after)))
  {
    ConstructedInv(n, m);
    EveryStateInv(Constructed(n, m), before);
    JobsGetDone(After(Constructed(n, m), before), after);
    RunOn(Constructed(n, m), before, after);
    hide Inv, Executable, After, Enabled, Work, OwnStep, Calls;
    if AllDone(After(Constructed(n, m), before + after)) {
      DoneIsHandedIn(n, m, before + after);
    }
  }

  /**
   In every run: the jobs handed to `Enqueue` are those ever queued and those still in a caller's hand, each
   as often as it was handed in; and one thread's jobs are queued in the order of its calls.
   */
  lemma JobsHandedIn(n: nat, m: nat, actions: seq<Action>)
    requires Executable(Constructed(n, m), actions)
    ensures var s := After(Constructed(n, m), actions);
            && |s.producers| == m
            && (forall job :: multiset(Calls(actions))[job]
                           == multiset(s.enqueued)[job] + Total(s.producers, HasInHand(job)))
            && (forall p :: 0 <= p < m ==>
                  CallsBy(actions, p) == PushedBy(Constructed(n, m), actions, p) + InHand(s.producers[p]))
  {
    var s0, s := Constructed(n, m), After(Constructed(n, m), actions);
    EveryProducerStays(s0, actions);
    forall job
      ensures multiset(Calls(actions))[job] == multiset(s.enqueued)[job] + Total(s.producers, HasInHand(job))
    {
      CallsAreQueued(s0, actions, job);
      TotalIsZero(s0.producers, HasInHand(job));
      hide Total, After, Executable, Calls;
    }
    forall p | 0 <= p < m
      ensures CallsBy(actions, p) == PushedBy(s0, actions, p) + InHand(s.producers[p])
    {
      CallsKeepOrder(s0, actions, p);
      hide PushedBy, After, Executable, CallsBy;
      assert InHand(s0.producers[p]) + CallsBy(actions, p) == CallsBy(actions, p);
    }
  }

  lemma {:induction false} EveryProducerStays(s: Pool, actions: seq<Action>)
    requires Executable(s, actions)
    ensures |After(s, actions).producers| == |s.producers|
    decreases |actions|
  {
    if actions != [] {
      EveryProducerStays(Next(s, actions[0]), actions[1..]);
      hide SomeoneAsleep, WakeAll, After;
    }
  }

  // ---------- Shutdown ----------

  /** Once the flag is set, no job is popped and no worker goes to sleep. */
  lemma {:induction false} NothingStartsAfterFlag(s: Pool, actions: seq<Action>)
    requires Inv(s) && s.deconstructing && Executable(s, actions)
    ensures var s' := After(s, actions);
            && s'.deconstructing && s'.dequeued == s.dequeued && |s'.workers| == |s.workers|
            && forall i :: WorkerIs(s', i, Asleep) ==> WorkerIs(s, i, Asleep)
    decreases |actions|
  {
    if actions != [] {
      var a := actions[0];
      StepAfterFlag(s, a);
      hide Inv, Next, Enabled, WorkerIs;
      NextInv(s, a);
      NothingStartsAfterFlag(Next(s, a), actions[1..]);
    }
  }

  lemma StepAfterFlag(s: Pool, a: Action)
    requires Phases(s) && s.deconstructing && Enabled(s, a)
    ensures var s' := Next(s, a);
            && s'.deconstructing && s'.dequeued == s.dequeued && |s'.workers| == |s.workers|
            && forall i :: WorkerIs(s', i, Asleep) ==> WorkerIs(s, i, Asleep)
  {
  }

  function WorkerRank(w: Worker): nat {
    match w
    case Exited => 0
    case Ready => 1
    case Checking => 2
    case Locking => 3
    case Woken => 3
    case Running(_) => 4
    case Asleep => 4
  }

  function ProducerRank(p: Producer): nat {
    match p
    case Idle => 0
    case Notifying => 1
    case Holding(_) => 2
    case Wanting(_) => 3
  }

  /** The steps the destructor still has to take once it has set the flag. */
  function DestructorRank(s: Pool): nat {
    match s.destructor
    case NotifiesAll => |s.workers| + 2
    case Joining(next) => if next <= |s.workers| then |s.workers| - next + 1 else 0
    case _ => 0
  }

  /** A bound on the number of steps that all threads together can still take. */
  function StepsLeft(s: Pool): nat {
    Total(s.workers, WorkerRank) + Total(s.producers, ProducerRank) + DestructorRank(s)
  }

  lemma WorkerStepCounts(s: Pool, a: Action)
    requires s.deconstructing && Enabled(s, a)
    requires WorkerStep(a)
    ensures StepsLeft(Next(s, a)) < StepsLeft(s)
  {
    hide Total;
    TotalUpdate(s.workers, a.i, Next(s, a).workers[a.i], WorkerRank);
  }

  lemma ProducerStepCounts(s: Pool, a: Action)
    requires Enabled(s, a)
    requires a.ProducerLock? || a.Push? || a.NotifyOne?
    ensures StepsLeft(Next(s, a)) < StepsLeft(s)
  {
    hide Total, SomeoneAsleep;
    TotalUpdate(s.producers, a.p, Next(s, a).producers[a.p], ProducerRank);
    if a.NotifyOne? && SomeoneAsleep(s.workers) {
      TotalUpdate(s.workers, a.wakes, Woken, WorkerRank);
    }
  }

  lemma DestructorStepCounts(s: Pool, a: Action)
    requires Phases(s) && s.deconstructing && Enabled(s, a)
    requires a.NotifyAll? || a.Join?
    ensures StepsLeft(Next(s, a)) < StepsLeft(s)
  {
    hide Total;
    if a.NotifyAll? {
      TotalPointwise(WakeAll(s.workers), s.workers, WorkerRank);
    }
  }

  /** Once the flag is set, every step of any thread uses up one of the steps left. */
  lemma EveryStepCounts(s: Pool, a: Action)
    requires Phases(s) && s.deconstructing && Enabled(s, a)
    ensures StepsLeft(Next(s, a)) < StepsLeft(s)
  {
    assert !a.CallEnqueue? && !a.Destroy? && !a.DestructorLock? && !a.SetFlag?;
    hide Phases, Enabled, Next, StepsLeft;
    if a.NotifyAll? || a.Join? {
      DestructorStepCounts(s, a);
    } else if a.ProducerLock? || a.Push? || a.NotifyOne? {
      ProducerStepCounts(s, a);
    } else {
      WorkerStepCounts(s, a);
    }
  }

  /** Until the pool is destroyed, some thread can take its own next step. */
  lemma ShutdownProgress(s: Pool)
    requires Inv(s) && s.deconstructing && s.destructor != Destroyed
    ensures exists a :: OwnStep(a) && Enabled(s, a)
  {
    if s.mutex != Free {
      HolderCanStep(s);
    } else if s.destructor == NotifiesAll {
      assert Enabled(s, NotifyAll);
    } else {
      var k := s.destructor.next;
      if k == |s.workers| || s.workers[k] == Exited {
        assert Enabled(s, Join);
      } else if s.workers[k].Running? {
        assert Enabled(s, Finish(k));
      } else {
        assert Enabled(s, Lock(k));
      }
    }
  }

  /**
   Once the destructor has set the flag, the threads can take only a bounded number of further steps,
   and they can go on until every join has returned: a run that cannot go on has destroyed the pool and
   ended all workers.
   */
  lemma {:induction false} ShutdownTerminates(s: Pool, actions: seq<Action>)
    requires Inv(s) && s.deconstructing && Executable(s, actions)
    ensures |actions| + StepsLeft(After(s, actions)) <= StepsLeft(s)
    ensures var s' := After(s, actions);
            (forall a :: Enabled(s', a) ==> !OwnStep(a))
            ==> s'.destructor == Destroyed && forall i :: 0 <= i < |s'.workers| ==> s'.workers[i] == Exited
    decreases |actions|
  {
    if actions == [] {
      hide NoLostWakeup, Conserved;
      if s.destructor != Destroyed {
        ShutdownProgress(s);
      }
    } else {
      var a := actions[0];
      EveryStepCounts(s, a);
      NextInv(s, a);
      StepAfterFlag(s, a);
      hide Inv, StepsLeft, Enabled, Next, WorkerIs;
      ShutdownTerminates(Next(s, a), actions[1..]);
    }
  }

  /** Where all workers have ended, every job popped has been run to its end. */
  lemma PoppedJobsAreDone(s: Pool)
    requires Conserved(s) && forall i :: 0 <= i < |s.workers| ==> s.workers[i] == Exited
    ensures s.finished == multiset(s.dequeued)
  {
    NoneRunning(s.workers);
  }

  /**
   From construction on: whatever ran before the flag was set, every shutdown ends with all workers joined,
   and with exactly the jobs popped before the flag run to their end.
   */
  lemma EveryShutdownEnds(n: nat, m: nat, before: seq<Action>, after: seq<Action>)
    requires Executable(Constructed(n, m), before)
    requires After(Constructed(n, m), before).deconstructing
    requires Executable(After(Constructed(n, m), before), after)
    ensures var s := After(Constructed(n, m), before);
            var s' := After(s, after);
            && |after| <= StepsLeft(s) && s'.dequeued == s.dequeued
            && ((forall a :: Enabled(s', a) ==> !OwnStep(a))
                ==> && s'.destructor == Destroyed && (forall i: nat :: i < n ==> WorkerIs(s', i, Exited))
                    && s'.finished == multiset(s.dequeued))
  {
    ConstructedInv(n, m);
    EveryStateInv(Constructed(n, m), before);
    var s := After(Constructed(n, m), before);
    NothingStartsAfterFlag(s, after);
    ShutdownTerminates(s, after);
    EveryStateInv(s, after);
    var s' := After(s, after);
    assert Conserved(s');
    hide Inv, Executable, After, Enabled, StepsLeft, OwnStep, Conserved;
    if forall i :: 0 <= i < |s'.workers| ==> s'.workers[i] == Exited {
      PoppedJobsAreDone(s');
    }
  }
}
