/** threadpool.cpp as a transition system: workers and producers over one queue, one mutex and one condition variable. */
module ThreadPool {
  /** A function pointer and its argument. */
  datatype Job = Job(f: nat, arg: nat)

  /** Where a worker is in work(). */
  datatype Worker =
    | Locking             // about to lock the mutex at the head of the loop
    | Testing             // holds the mutex, about to test queue.empty()
    | Waiting             // asleep in pthread_cond_wait, mutex released
    | Woken               // awake in pthread_cond_wait, about to lock the mutex again
    | Taking              // holds the mutex, has seen a non-empty queue
    | Holding(job: Job)   // holds the mutex, has popped
    | Running(job: Job)

  /** Where a producer is in threadpool_produce(). */
  datatype Producer =
    | Idle
    | Calling(job: Job)   // about to lock the mutex
    | Pushing(job: Job)   // holds the mutex
    | Signalling          // holds the mutex, has pushed
    | Unlocking           // holds the mutex, has signalled

  datatype Thread = W(i: nat) | P(i: nat) | Nobody

  /** The pool, with the history of what was produced, taken out and finished. */
  datatype State = State(
    workers: seq<Worker>,
    producers: seq<Producer>,
    queue: seq<Job>,
    mutex: Thread,
    produced: seq<Job>,
    dequeued: seq<Job>,
    finished: seq<Job>)

  datatype Step =
    | Lock(i: nat) | Test(i: nat) | Take(i: nat) | Release(i: nat) | Finish(i: nat) | Spurious(i: nat)
    | Call(i: nat, job: Job) | LockP(i: nat) | Push(i: nat) | Signal(i: nat, woken: set<nat>) | Unlock(i: nat)

  ghost predicate Init(s: State) {
    (forall i :: 0 <= i < |s.workers| ==> s.workers[i] == Locking) &&
    (forall i :: 0 <= i < |s.producers| ==> s.producers[i] == Idle) &&
    s.queue == [] && s.mutex == Nobody && s.produced == [] && s.dequeued == [] && s.finished == []
  }

  predicate OnWorker(t: Step) { t.Lock? || t.Test? || t.Take? || t.Release? || t.Finish? || t.Spurious? }

  /** pthread_cond_signal wakes at least one of the waiting workers, if there is one. */
  ghost predicate Wakes(ws: seq<Worker>, woken: set<nat>) {
    (forall i :: i in woken ==> i < |ws| && ws[i] == Waiting) &&
    ((exists i :: 0 <= i < |ws| && ws[i] == Waiting) ==> woken != {})
  }

  ghost predicate Enabled(s: State, t: Step) {
    if OnWorker(t) then
      t.i < |s.workers| &&
      var w := s.workers[t.i];
      match t
      case Lock(_) => (w == Locking || w == Woken) && s.mutex == Nobody
      case Test(_) => w == Testing
      case Take(_) => w == Taking && s.queue != []
      case Release(_) => w.Holding?
      case Finish(_) => w.Running?
      case _ => w == Waiting
    else
      t.i < |s.producers| &&
      var p := s.producers[t.i];
      match t
      case Call(_, _) => p == Idle
      case LockP(_) => p.Calling? && s.mutex == Nobody
      case Push(_) => p.Pushing?
      case Signal(_, woken) => p == Signalling && Wakes(s.workers, woken)
      case _ => p == Unlocking
  }

  ghost function Wake(ws: seq<Worker>, woken: set<nat>): (r: seq<Worker>)
    ensures |r| == |ws|
  {
    seq(|ws|, i requires 0 <= i < |ws| => if i in woken then Woken else ws[i])
  }

  ghost function Do(s: State, t: Step): State
    requires Enabled(s, t)
  {
    match t
    case Lock(i) => s.(workers := s.workers[i := Testing], mutex := W(i))
    case Test(i) =>
      if s.queue == [] then s.(workers := s.workers[i := Waiting], mutex := Nobody)
      else s.(workers := s.workers[i := Taking])
    case Take(i) =>
      s.(workers := s.workers[i := Holding(s.queue[0])], queue := s.queue[1..], dequeued := s.dequeued + [s.queue[0]])
    case Release(i) => s.(workers := s.workers[i := Running(s.workers[i].job)], mutex := Nobody)
    case Finish(i) =>
      s.(workers := s.workers[i := Locking], finished := s.finished + [s.workers[i].job])
    case Spurious(i) => s.(workers := s.workers[i := Woken])
    case Call(i, job) => s.(producers := s.producers[i := Calling(job)])
    case LockP(i) => s.(producers := s.producers[i := Pushing(s.producers[i].job)], mutex := P(i))
    case Push(i) =>
      var job := s.producers[i].job;
      s.(producers := s.producers[i := Signalling], queue := s.queue + [job], produced := s.produced + [job])
    case Signal(i, woken) => s.(producers := s.producers[i := Unlocking], workers := Wake(s.workers, woken))
    case Unlock(i) => s.(producers := s.producers[i := Idle], mutex := Nobody)
  }

  /** The steps of a run, each of which can be taken where it is. */
  ghost predicate Legal(s: State, run: seq<Step>)
    decreases |run|
  {
    run == [] || (Enabled(s, run[0]) && Legal(Do(s, run[0]), run[1..]))
  }

  ghost function Exec(s: State, run: seq<Step>): State
    requires Legal(s, run)
    decreases |run|
  {
    if run == [] then s else Exec(Do(s, run[0]), run[1..])
  }

  // Counting.

  ghost function Sum<T>(s: seq<T>, f: T -> int): int {
    if s == [] then 0 else Sum(s[..|s| - 1], f) + f(s[|s| - 1])
  }

  lemma {:induction false} SumUpdate<T>(s: seq<T>, f: T -> int, i: nat, x: T)
    requires i < |s|
    ensures Sum(s[i := x], f) == Sum(s, f) - f(s[i]) + f(x)
  {
    var n := |s| - 1;
    if i == n {
      assert s[i := x][..n] == s[..n];
    } else {
      assert s[i := x][..n] == s[..n][i := x];
      SumUpdate(s[..n], f, i, x);
    }
  }

  lemma {:induction false} SumAtLeast<T>(s: seq<T>, f: T -> int, i: nat)
    requires i < |s| && forall j :: 0 <= j < |s| ==> f(s[j]) >= 0
    ensures Sum(s, f) >= f(s[i])
  {
    var n := |s| - 1;
    if i < n {
      SumAtLeast(s[..n], f, i);
    } else if n > 0 {
      SumAtLeast(s[..n], f, 0);
    }
  }

  lemma {:induction false} SumPositive<T>(s: seq<T>, f: T -> int) returns (i: nat)
    requires Sum(s, f) > 0
    ensures i < |s| && f(s[i]) > 0
  {
    var n := |s| - 1;
    if f(s[n]) > 0 {
      i := n;
    } else {
      i := SumPositive(s[..n], f);
    }
  }

  // Awake and about to check: on the way to the test, or between it and the pop.

  function Awake(w: Worker): int { if w == Locking || w == Woken || w == Testing || w == Taking then 1 else 0 }

  function Unsignalled(p: Producer): int { if p == Signalling then 1 else 0 }

  ghost predicate SomeWaiting(ws: seq<Worker>) { exists i :: 0 <= i < |ws| && ws[i] == Waiting }

  /**
   If any worker waits, the queue is no longer than the number of workers about to check it, not counting a push that
   has not been signalled.
   */
  ghost predicate NoLostWakeup(s: State) {
    SomeWaiting(s.workers) ==> |s.queue| <= Sum(s.workers, Awake) + Sum(s.producers, Unsignalled)
  }

  predicate WorkerLocks(w: Worker) { w == Testing || w == Taking || w.Holding? }

  predicate ProducerLocks(p: Producer) { p.Pushing? || p == Signalling || p == Unlocking }

  /** The mutex is held by exactly the thread that is between lock and unlock. */
  ghost predicate Exclusive(s: State) {
    (forall i :: 0 <= i < |s.workers| ==> (WorkerLocks(s.workers[i]) <==> s.mutex == W(i))) &&
    (forall i :: 0 <= i < |s.producers| ==> (ProducerLocks(s.producers[i]) <==> s.mutex == P(i))) &&
    (s.mutex.W? ==> s.mutex.i < |s.workers|) && (s.mutex.P? ==> s.mutex.i < |s.producers|)
  }

  ghost predicate Guarded(s: State) {
    forall i :: 0 <= i < |s.workers| && s.workers[i] == Taking ==> s.queue != []
  }

  /** One for a worker that has `job` in hand. */
  function Holds(job: Job): Worker -> int {
    (w: Worker) => if (w.Holding? || w.Running?) && w.job == job then 1 else 0
  }

  /** How often `job` occurs. */
  ghost function Times(jobs: seq<Job>, job: Job): nat { multiset(jobs)[job] }

  lemma TimesConcat(a: seq<Job>, b: seq<Job>, job: Job)
    ensures Times(a + b, job) == Times(a, job) + Times(b, job)
  {
  }

  lemma TimesAppend(jobs: seq<Job>, x: Job, job: Job)
    ensures Times(jobs + [x], job) == Times(jobs, job) + if x == job then 1 else 0
  {
  }

  /** Jobs leave the queue in the order they entered it, and none is lost or doubled. */
  ghost predicate Conserved(s: State) {
    s.produced == s.dequeued + s.queue && forall job :: Accounted(s, job)
  }

  /** Every time a job was taken out, some worker has it in hand or has finished it. */
  ghost predicate Accounted(s: State, job: Job) {
    Times(s.dequeued, job) == Sum(s.workers, Holds(job)) + Times(s.finished, job)
  }

  ghost predicate Inv(s: State) {
    Exclusive(s) && Guarded(s) && Conserved(s) && NoLostWakeup(s)
  }

  // Every step keeps the invariant.

  lemma KeepsExclusive(s: State, t: Step)
    requires Exclusive(s) && Enabled(s, t)
    ensures Exclusive(Do(s, t))
  {
  }

  lemma KeepsGuarded(s: State, t: Step)
    requires Exclusive(s) && Guarded(s) && Enabled(s, t)
    ensures Guarded(Do(s, t))
  {
  }

  lemma {:induction false} HoldsWake(ws: seq<Worker>, woken: set<nat>, job: Job)
    requires forall i :: i in woken && i < |ws| ==> ws[i] == Waiting
    ensures Sum(Wake(ws, woken), Holds(job)) == Sum(ws, Holds(job))
  {
    if ws != [] {
      var n := |ws| - 1;
      assert Wake(ws, woken)[..n] == Wake(ws[..n], woken);
      HoldsWake(ws[..n], woken, job);
    }
  }

  lemma KeepsAccounted(s: State, t: Step, job: Job)
    requires Accounted(s, job) && Enabled(s, t)
    ensures Accounted(Do(s, t), job)
  {
    if OnWorker(t) {
      SumUpdate(s.workers, Holds(job), t.i, Do(s, t).workers[t.i]);
      if t.Take? {
        TimesAppend(s.dequeued, s.queue[0], job);
      } else if t.Finish? {
        TimesAppend(s.finished, s.workers[t.i].job, job);
      }
    } else if t.Signal? {
      HoldsWake(s.workers, t.woken, job);
    }
  }

  lemma KeepsConserved(s: State, t: Step)
    requires Conserved(s) && Enabled(s, t)
    ensures Conserved(Do(s, t))
  {
    forall job: Job
      ensures Accounted(Do(s, t), job)
    {
      KeepsAccounted(s, t, job);
    }
    if t.Take? {
      assert s.queue == [s.queue[0]] + s.queue[1..];
    }
  }

  /** Waking adds as many awake workers as are woken: at least one, if any. */
  lemma {:induction false} SumWake(ws: seq<Worker>, woken: set<nat>)
    requires forall i :: i in woken && i < |ws| ==> ws[i] == Waiting
    ensures Sum(Wake(ws, woken), Awake) >= Sum(ws, Awake)
    ensures (exists i :: i in woken && i < |ws|) ==> Sum(Wake(ws, woken), Awake) > Sum(ws, Awake)
  {
    if ws != [] {
      var n := |ws| - 1;
      assert Wake(ws, woken)[..n] == Wake(ws[..n], woken);
      SumWake(ws[..n], woken);
    }
  }

  lemma KeepsWakeup(s: State, t: Step)
    requires NoLostWakeup(s) && Enabled(s, t)
    ensures NoLostWakeup(Do(s, t))
  {
    if t.Test? && s.queue == [] {
      AwakeNonnegative(Do(s, t));
    } else if OnWorker(t) {
      WorkerWakeup(s, t);
    } else {
      ProducerWakeup(s, t);
    }
  }

  lemma WorkerWakeup(s: State, t: Step)
    requires NoLostWakeup(s) && Enabled(s, t) && OnWorker(t) && (t.Test? ==> s.queue != [])
    ensures NoLostWakeup(Do(s, t))
  {
    var ws, ws' := s.workers, Do(s, t).workers;
    SumUpdate(ws, Awake, t.i, ws'[t.i]);
    if SomeWaiting(ws') {
      var i :| 0 <= i < |ws'| && ws'[i] == Waiting;
      assert ws[i] == Waiting;
    }
  }

  lemma ProducerWakeup(s: State, t: Step)
    requires NoLostWakeup(s) && Enabled(s, t) && !OnWorker(t)
    ensures NoLostWakeup(Do(s, t))
  {
    var s' := Do(s, t);
    SumUpdate(s.producers, Unsignalled, t.i, s'.producers[t.i]);
    if t.Signal? && SomeWaiting(s'.workers) {
      SumWake(s.workers, t.woken);
      var i :| 0 <= i < |s'.workers| && s'.workers[i] == Waiting;
      assert s.workers[i] == Waiting;
      var j :| j in t.woken;
      assert j < |s.workers|;
    }
  }

  lemma {:induction false} SumNonnegative<T>(s: seq<T>, f: T -> int)
    requires forall x :: f(x) >= 0
    ensures Sum(s, f) >= 0
  {
    if s != [] {
      SumNonnegative(s[..|s| - 1], f);
    }
  }

  lemma AwakeNonnegative(s: State)
    ensures Sum(s.workers, Awake) >= 0 && Sum(s.producers, Unsignalled) >= 0
  {
    SumNonnegative(s.workers, Awake);
    SumNonnegative(s.producers, Unsignalled);
  }

  lemma StepKeepsInv(s: State, t: Step)
    requires Inv(s) && Enabled(s, t)
    ensures Inv(Do(s, t))
  {
    KeepsExclusive(s, t);
    KeepsGuarded(s, t);
    KeepsConserved(s, t);
    KeepsWakeup(s, t);
  }

  lemma {:induction false} NothingInHand(ws: seq<Worker>, job: Job)
    requires forall i :: 0 <= i < |ws| ==> !ws[i].Holding? && !ws[i].Running?
    ensures Sum(ws, Holds(job)) == 0
  {
    if ws != [] {
      NothingInHand(ws[..|ws| - 1], job);
    }
  }

  lemma InitInv(s: State)
    requires Init(s)
    ensures Inv(s)
  {
    forall job: Job
      ensures Accounted(s, job)
    {
      NothingInHand(s.workers, job);
    }
  }

  /** Safety on every interleaving from the start, spurious wakeups included. */
  lemma {:induction false} RunSafe(s: State, run: seq<Step>)
    requires Inv(s) && Legal(s, run)
    ensures Inv(Exec(s, run))
    decreases |run|
  {
    if run != [] {
      StepKeepsInv(s, run[0]);
      RunSafe(Do(s, run[0]), run[1..]);
    }
  }

  /**
   What that means from the start: every job produced is queued, in hand or finished, jobs were taken in the order they
   were produced, and whenever the mutex is free and a worker waits, enough others are about to check the queue.
   */
  lemma Safety(s: State, run: seq<Step>)
    requires Init(s) && Legal(s, run)
    ensures var e := Exec(s, run);
      (forall job :: Times(e.produced, job) == Times(e.queue, job) + Sum(e.workers, Holds(job)) + Times(e.finished, job)) &&
      e.dequeued <= e.produced &&
      (SomeWaiting(e.workers) && e.mutex == Nobody ==> |e.queue| <= Sum(e.workers, Awake))
  {
    InitInv(s);
    RunSafe(s, run);
    var e := Exec(s, run);
    forall job: Job
      ensures Times(e.produced, job) == Times(e.queue, job) + Sum(e.workers, Holds(job)) + Times(e.finished, job)
    {
      assert Accounted(e, job);
      TimesConcat(e.dequeued, e.queue, job);
    }
    if e.mutex == Nobody && Sum(e.producers, Unsignalled) > 0 {
      var i := SumPositive(e.producers, Unsignalled);
      assert false;
    }
  }

  // From the calls to the queue.

  /** How often a run calls threadpool_produce for `job`. */
  ghost function Calls(run: seq<Step>, job: Job): nat {
    if run == [] then 0 else (if run[0].Call? && run[0].job == job then 1 else 0) + Calls(run[1..], job)
  }

  /** One for a producer that has been called for `job` and has not pushed it. */
  function Carries(job: Job): Producer -> int {
    (p: Producer) => if (p.Calling? || p.Pushing?) && p.job == job then 1 else 0
  }

  /** What has been asked for, as far as the state shows: pushed, or on its way in a producer. */
  ghost function Asked(s: State, job: Job): int { Times(s.produced, job) + Sum(s.producers, Carries(job)) }

  lemma StepAsks(s: State, t: Step, job: Job)
    requires Enabled(s, t)
    ensures Asked(Do(s, t), job) == Asked(s, job) + if t.Call? && t.job == job then 1 else 0
  {
    if !OnWorker(t) {
      SumUpdate(s.producers, Carries(job), t.i, Do(s, t).producers[t.i]);
      if t.Push? {
        TimesAppend(s.produced, s.producers[t.i].job, job);
      }
    }
  }

  lemma {:induction false} RunAsks(s: State, run: seq<Step>, job: Job)
    requires Legal(s, run)
    ensures Asked(Exec(s, run), job) == Asked(s, job) + Calls(run, job)
    decreases |run|
  {
    if run != [] {
      StepAsks(s, run[0], job);
      RunAsks(Do(s, run[0]), run[1..], job);
    }
  }

  lemma {:induction false} NothingCarried(ps: seq<Producer>, job: Job)
    requires forall i :: 0 <= i < |ps| ==> ps[i] == Idle
    ensures Sum(ps, Carries(job)) == 0
  {
    if ps != [] {
      NothingCarried(ps[..|ps| - 1], job);
    }
  }

  /** On every run from the start, a job has been pushed as often as it was called for, but for the calls on their way. */
  lemma CallsArePushed(s: State, run: seq<Step>, job: Job)
    requires Init(s) && Legal(s, run)
    ensures Calls(run, job) == Times(Exec(s, run).produced, job) + Sum(Exec(s, run).producers, Carries(job))
  {
    NothingCarried(s.producers, job);
    RunAsks(s, run, job);
  }

  /** Where everything is done, every job has been finished exactly as often as it was called for. */
  lemma CallsAreFinished(s: State, run: seq<Step>, job: Job)
    requires Init(s) && Legal(s, run) && AllDone(Exec(s, run))
    ensures Times(Exec(s, run).finished, job) == Calls(run, job)
  {
    CallsArePushed(s, run, job);
    NothingCarried(Exec(s, run).producers, job);
  }

  // No run gets stuck, and none goes on for ever without new calls or spurious wakeups.

  predicate Quiet(t: Step) { !t.Call? && !t.Spurious? }

  ghost predicate AllDone(s: State) {
    s.queue == [] && (forall job :: Times(s.finished, job) == Times(s.produced, job)) &&
    (forall i :: 0 <= i < |s.workers| ==> s.workers[i] == Waiting) &&
    (forall i :: 0 <= i < |s.producers| ==> s.producers[i] == Idle)
  }

  /** As long as there is work or a thread on its way, some thread can go on. */
  lemma SomeStep(s: State) returns (t: Step)
    requires Inv(s) && s.workers != [] && !AllDone(s)
    ensures Quiet(t) && Enabled(s, t)
  {
    match s.mutex
    case W(i) =>
      t := if s.workers[i] == Testing then Test(i) else if s.workers[i] == Taking then Take(i) else Release(i);
    case P(i) =>
      t := ProducerStep(s, i);
    case Nobody =>
      if i :| 0 <= i < |s.workers| && s.workers[i] != Waiting {
        t := if s.workers[i].Running? then Finish(i) else Lock(i);
      } else if i :| 0 <= i < |s.producers| && s.producers[i] != Idle {
        t := LockP(i);
      } else {
        AsleepMeansDone(s);
        assert false;
      }
  }

  lemma ProducerStep(s: State, i: nat) returns (t: Step)
    requires i < |s.producers| && ProducerLocks(s.producers[i])
    ensures Quiet(t) && Enabled(s, t)
  {
    if s.producers[i].Pushing? {
      t := Push(i);
    } else if s.producers[i] == Signalling {
      var woken := set j | 0 <= j < |s.workers| && s.workers[j] == Waiting;
      if k :| 0 <= k < |s.workers| && s.workers[k] == Waiting {
        assert k in woken;
      }
      t := Signal(i, woken);
    } else {
      t := Unlock(i);
    }
  }

  /** Everyone asleep: nothing is queued, and everything produced is finished. */
  lemma AsleepMeansDone(s: State)
    requires Inv(s) && s.workers != []
    requires forall i :: 0 <= i < |s.workers| ==> s.workers[i] == Waiting
    requires forall i :: 0 <= i < |s.producers| ==> s.producers[i] == Idle
    ensures AllDone(s)
  {
    assert s.workers[0] == Waiting;
    if Sum(s.workers, Awake) > 0 {
      var i := SumPositive(s.workers, Awake);
      assert false;
    }
    if Sum(s.producers, Unsignalled) > 0 {
      var i := SumPositive(s.producers, Unsignalled);
      assert false;
    }
    assert s.produced == s.dequeued;
    forall job: Job
      ensures Times(s.finished, job) == Times(s.produced, job)
    {
      assert Accounted(s, job);
      NothingInHand(s.workers, job);
    }
  }

  // A measure that every quiet step lowers.

  function WorkerRank(w: Worker): int {
    match w
    case Waiting => 0
    case Taking => 0
    case Testing => 1
    case Locking => 2
    case Woken => 2
    case Running(_) => 3
    case Holding(_) => 4
  }

  /** A signal may wake all n workers. */
  function ProducerRank(n: nat): Producer -> int {
    (p: Producer) =>
      match p
      case Idle => 0
      case Unlocking => 1
      case Signalling => 2 * n + 2
      case Pushing(_) => 2 * n + 8
      case Calling(_) => 2 * n + 9
  }

  ghost function Measure(s: State): int {
    5 * |s.queue| + Sum(s.workers, WorkerRank) + Sum(s.producers, ProducerRank(|s.workers|))
  }

  lemma MeasureNonnegative(s: State)
    ensures Measure(s) >= 0
  {
    SumNonnegative(s.workers, WorkerRank);
    SumNonnegative(s.producers, ProducerRank(|s.workers|));
  }

  lemma {:induction false} RankWake(ws: seq<Worker>, woken: set<nat>)
    requires forall i :: i in woken && i < |ws| ==> ws[i] == Waiting
    ensures Sum(Wake(ws, woken), WorkerRank) <= Sum(ws, WorkerRank) + 2 * |ws|
  {
    if ws != [] {
      var n := |ws| - 1;
      assert Wake(ws, woken)[..n] == Wake(ws[..n], woken);
      RankWake(ws[..n], woken);
    }
  }

  lemma QuietStepDescends(s: State, t: Step)
    requires Enabled(s, t) && Quiet(t)
    ensures Measure(Do(s, t)) < Measure(s)
  {
    var s' := Do(s, t);
    if OnWorker(t) {
      SumUpdate(s.workers, WorkerRank, t.i, s'.workers[t.i]);
    } else {
      SumUpdate(s.producers, ProducerRank(|s.workers|), t.i, s'.producers[t.i]);
      if t.Signal? {
        RankWake(s.workers, t.woken);
      }
    }
  }

  /**
   Without new calls and spurious wakeups a run is bounded, and where it cannot go on every job ever produced is finished.
   */
  lemma {:induction false} QuietRunFinishes(s: State, run: seq<Step>)
    requires Inv(s) && s.workers != [] && Legal(s, run) && forall i :: 0 <= i < |run| ==> Quiet(run[i])
    ensures |run| <= Measure(s)
    ensures (forall t :: Quiet(t) ==> !Enabled(Exec(s, run), t)) ==> AllDone(Exec(s, run))
    decreases |run|
  {
    if run == [] {
      MeasureNonnegative(s);
      if !AllDone(s) {
        var t := SomeStep(s);
      }
    } else {
      assert Quiet(run[0]);
      StepKeepsInv(s, run[0]);
      QuietStepDescends(s, run[0]);
      assert forall i :: 0 <= i < |run[1..]| ==> run[1..][i] == run[i + 1];
      QuietRunFinishes(Do(s, run[0]), run[1..]);
    }
  }
}
