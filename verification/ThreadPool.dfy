/**
 * The thread pool (ext/ThreadPool.hpp): N workers around one blocking queue, clients that submit tasks, and a destroyer.
 * Steps of the threads interleave in any order. Tasks are numbered in the order in which they were pushed.
 */
module ThreadPool {
  import opened Options
  import opened ThreadSafeQueue

  type Task = nat

  // Where a worker is: about to test m_done, about to enter waitPop, inside m_condition.wait, running a task, or gone.
  datatype Pc = LoopTest | Entering | Waiting | Executing(task: Task) | Exited

  datatype Pool = Pool(
    queue: State<Task>,
    done: bool,
    workers: seq<Pc>,
    // what happened so far: how many tasks were pushed, which ones were popped (in order), which ended, which clear dropped
    pushed: nat,
    popped: seq<Task>,
    taken: set<Task>,
    finished: set<Task>,
    dropped: set<Task>)

  datatype Step =
    // worker w tests m_done; takes or retakes the mutex in waitPop; ends its task
    | Test(w: Thread)
    | Enter(w: Thread)
    | Resume(w: Thread)
    | Finish(w: Thread)
    // worker w wakes up without being notified
    | Spurious(w: Thread)
    // a client submits a task, and notify_one wakes `wakes`; another client of the queue calls tryPop or clear
    | Submit(wakes: Option<Thread>)
    | TryPop
    | Clear
    // the two steps of destroy before it joins the workers
    | SetDone
    | Invalidate

  function Initial(n: nat): Pool {
    Pool(State([], true, {}, {}), false, seq(n, _ => LoopTest), 0, [], {}, {}, {})
  }

  predicate Is(s: Pool, w: Thread, pc: Pc) {
    w < |s.workers| && s.workers[w] == pc
  }

  predicate Enabled(s: Pool, step: Step) {
    match step
    case Test(w) => Is(s, w, LoopTest)
    case Enter(w) => Is(s, w, Entering)
    case Resume(w) => Is(s, w, Waiting) && w in s.queue.woken
    case Finish(w) => w < |s.workers| && s.workers[w].Executing?
    case Spurious(w) => Is(s, w, Waiting) && w in s.queue.asleep
    case Submit(wakes) => CanNotify(s.queue, wakes)
    case TryPop => true
    case Clear => true
    case SetDone => !s.done
    case Invalidate => s.done && s.queue.valid
  }

  // while(!m_done)
  function TestDone(s: Pool, w: Thread): Pool
    requires w < |s.workers|
  {
    s.(workers := s.workers[w := if s.done then Exited else Entering])
  }

  // One look at the predicate of waitPop, and the call of execute() or the next turn of the loop.
  function WaitPop(s: Pool, w: Thread): Pool
    requires w < |s.workers|
  {
    var (queue, outcome) := WaitPopStep(s.queue, w);
    match outcome
    case Waits => s.(queue := queue, workers := s.workers[w := Waiting])
    case Fails => s.(queue := queue, workers := s.workers[w := LoopTest])
    case Gets(task) => s.(queue := queue, workers := s.workers[w := Executing(task)], popped := s.popped + [task])
  }

  function Next(s: Pool, step: Step): Pool
    requires Enabled(s, step)
  {
    match step
    case Test(w) => TestDone(s, w)
    case Enter(w) => WaitPop(s, w)
    case Resume(w) => WaitPop(s, w)
    case Finish(w) =>
      s.(workers := s.workers[w := LoopTest], finished := s.finished + {s.workers[w].task})
    case Spurious(w) => s.(queue := Woken(s.queue, w))
    case Submit(wakes) => s.(queue := PushStep(s.queue, s.pushed, wakes), pushed := s.pushed + 1)
    case TryPop =>
      var (queue, out) := TryPopStep(s.queue);
      (match out
       case None => s.(queue := queue)
       case Some(task) => s.(queue := queue, popped := s.popped + [task], taken := s.taken + {task}))
    case Clear => s.(queue := ClearStep(s.queue), dropped := s.dropped + set t | t in s.queue.items)
    case SetDone => s.(done := true)
    case Invalidate => s.(queue := InvalidateStep(s.queue))
  }

  // Nothing is ruled out: clients and spurious wakeups may come at any time, notify_one may pick any sleeper, and a worker
  // that does not sleep can go on. Only a sleeper must be woken first, and one that left stays away.
  lemma AnyTime(s: Pool, w: Thread)
    requires w < |s.workers|
    ensures Enabled(s, TryPop) && Enabled(s, Clear)
    ensures s.queue.asleep == {} ==> Enabled(s, Submit(None))
    ensures w in s.queue.asleep ==> Enabled(s, Submit(Some(w)))
    ensures s.workers[w] == LoopTest ==> Enabled(s, Test(w))
    ensures s.workers[w] == Entering ==> Enabled(s, Enter(w))
    ensures s.workers[w] == Waiting ==> (Enabled(s, Resume(w)) <==> w in s.queue.woken)
    ensures s.workers[w] == Waiting ==> (Enabled(s, Spurious(w)) <==> w in s.queue.asleep)
    ensures s.workers[w].Executing? ==> Enabled(s, Finish(w))
    ensures s.workers[w] == Exited ==> forall step :: Enabled(s, step) ==> Next(s, step).workers[w] == Exited
  {
  }

  // The steps lead from s to t.
  ghost predicate Run(s: Pool, steps: seq<Step>, t: Pool)
    decreases |steps|
  {
    if steps == [] then s == t else Enabled(s, steps[0]) && Run(Next(s, steps[0]), steps[1..], t)
  }

  // ---------- what every step keeps ----------

  function WaitingOnes(workers: seq<Pc>): set<Thread> {
    set w | 0 <= w < |workers| && workers[w] == Waiting
  }

  predicate SomeLeft(workers: seq<Pc>) {
    exists w | 0 <= w < |workers| :: workers[w] == Exited
  }

  // The workers inside m_condition.wait are exactly the queue's waiting threads, nobody's wakeup is lost, and an
  // invalidated queue means that m_done is set (and, by NoLostWakeup, that nobody sleeps); nobody leaves before that.
  ghost predicate Waiters(s: Pool) {
    && NoLostWakeup(s.queue)
    && Blocked(s.queue) == WaitingOnes(s.workers)
    && (!s.queue.valid ==> s.done)
    && (SomeLeft(s.workers) ==> s.done)
  }

  lemma OneWorkerMoves(workers: seq<Pc>, w: Thread, pc: Pc)
    requires w < |workers|
    ensures WaitingOnes(workers[w := pc]) == WaitingOnes(workers) - {w} + if pc == Waiting then {w} else {}
    ensures pc != Exited && SomeLeft(workers[w := pc]) ==> SomeLeft(workers)
  {
  }

  lemma WaitersAfterWaitPop(s: Pool, w: Thread)
    requires Waiters(s) && w < |s.workers| && w !in s.queue.asleep
    ensures Waiters(WaitPop(s, w))
  {
    WaitPopKeeps(s.queue, w);
    WaitPopBlocked(s.queue, w);
    OneWorkerMoves(s.workers, w, WaitPop(s, w).workers[w]);
    assert WaitPopStep(s.queue, w).0.valid == s.queue.valid;
    hide NoLostWakeup, WaitingOnes, Blocked, WaitPopStep, SomeLeft;
  }

  lemma WaitersKept(s: Pool, step: Step)
    requires Waiters(s) && Enabled(s, step)
    ensures Waiters(Next(s, step))
  {
    hide NoLostWakeup, WaitingOnes, WaitPop, SomeLeft;
    match step
    case Enter(w) =>
      NotWaiting(s, w);
      WaitersAfterWaitPop(s, w);
    case Resume(w) =>
      NotWaiting(s, w);
      WaitersAfterWaitPop(s, w);
    case Test(w) =>
      NotWaiting(s, w);
      OneWorkerMoves(s.workers, w, Next(s, step).workers[w]);
    case Finish(w) =>
      NotWaiting(s, w);
      OneWorkerMoves(s.workers, w, LoopTest);
    case SetDone =>
    case _ =>
      QueueStepKeeps(s, step);
  }

  lemma NotWaiting(s: Pool, w: Thread)
    requires Waiters(s) && w < |s.workers|
    ensures w in s.queue.asleep || w in s.queue.woken <==> s.workers[w] == Waiting
    ensures !(w in s.queue.asleep && w in s.queue.woken)
  {
  }

  lemma QueueStepKeeps(s: Pool, step: Step)
    requires Waiters(s) && Enabled(s, step)
    requires step.Spurious? || step.Submit? || step.TryPop? || step.Clear? || step.Invalidate?
    ensures Waiters(Next(s, step))
  {
    hide NoLostWakeup, WaitingOnes, SomeLeft;
    match step
    case Spurious(w) =>
      OthersKeep(s.queue, w);
      NotifyBlocked(s.queue, w);
    case Submit(wakes) =>
      PushKeeps(s.queue, s.pushed, wakes);
      if wakes.Some? {
        NotifyBlocked(s.queue, wakes.value);
      }
    case TryPop =>
      OthersKeep(s.queue, 0);
    case Clear =>
      OthersKeep(s.queue, 0);
      AllBlocked(s.queue);
    case Invalidate =>
      OthersKeep(s.queue, 0);
      AllBlocked(s.queue);
    case _ =>
  }

  // ---------- where the tasks are ----------

  // The tasks from..to, in order.
  function Range(from: nat, to: nat): (r: seq<Task>)
    requires from <= to
    ensures |r| == to - from && forall i | 0 <= i < |r| :: r[i] == from + i
  {
    seq(to - from, i => from + i)
  }

  function Held(workers: seq<Pc>): set<Task> {
    set w | 0 <= w < |workers| && workers[w].Executing? :: workers[w].task
  }

  // No task is run by two workers.
  ghost predicate HeldOnce(workers: seq<Pc>) {
    forall v, w | 0 <= v < w < |workers| && workers[v].Executing? && workers[w].Executing? ::
      workers[v].task != workers[w].task
  }

  ghost predicate Ascending(tasks: seq<Task>) {
    forall i, j | 0 <= i < j < |tasks| :: tasks[i] < tasks[j]
  }

  // The first task that is still queued, or the next one to come.
  function Front(s: Pool): int {
    s.pushed - |s.queue.items|
  }

  // The tasks below n, each in exactly one of the four places.
  ghost predicate Partition(n: nat, held: set<Task>, taken: set<Task>, finished: set<Task>, dropped: set<Task>) {
    && held !! taken !! finished !! dropped
    && forall t: Task :: t < n <==> t in held || t in taken || t in finished || t in dropped
  }

  // The queue holds the newest tasks in order; each older one is run by one worker, or was taken by tryPop, or is
  // finished, or was dropped by clear, and only one of these; tasks were popped in the order of submission, so each at
  // most once; without clear none was passed over.
  ghost predicate Tasks(s: Pool) {
    && Front(s) >= 0 && s.queue.items == Range(Front(s), s.pushed)
    && Partition(Front(s), Held(s.workers), s.taken, s.finished, s.dropped)
    && HeldOnce(s.workers)
    && Ascending(s.popped) && (forall i | 0 <= i < |s.popped| :: s.popped[i] < Front(s))
    && (forall t :: t in s.popped <==> t in Held(s.workers) || t in s.taken || t in s.finished)
    && (s.dropped == {} ==> s.popped + s.queue.items == Range(0, s.pushed))
  }

  lemma WorkerTakes(workers: seq<Pc>, w: Thread, task: Task)
    requires w < |workers| && HeldOnce(workers) && !workers[w].Executing? && task !in Held(workers)
    ensures Held(workers[w := Executing(task)]) == Held(workers) + {task} && HeldOnce(workers[w := Executing(task)])
  {
    var after := workers[w := Executing(task)];
    assert forall v | 0 <= v < |workers| && v != w :: after[v] == workers[v];
    assert forall v | 0 <= v < |workers| && workers[v].Executing? :: workers[v].task in Held(workers);
    forall t | t in Held(workers) + {task} ensures t in Held(after) {
      if t == task {
        assert after[w].task == t;
      } else {
        var v :| 0 <= v < |workers| && workers[v].Executing? && workers[v].task == t;
        assert after[v].task == t;
      }
    }
  }

  lemma WorkerDrops(workers: seq<Pc>, w: Thread, pc: Pc)
    requires w < |workers| && HeldOnce(workers) && !pc.Executing?
    ensures HeldOnce(workers[w := pc])
    ensures Held(workers[w := pc]) == Held(workers) - if workers[w].Executing? then {workers[w].task} else {}
    ensures workers[w].Executing? ==> workers[w].task in Held(workers)
  {
    var after := workers[w := pc];
    assert forall v | 0 <= v < |workers| && v != w :: after[v] == workers[v];
    forall t | t in Held(workers) && (workers[w].Executing? ==> t != workers[w].task) ensures t in Held(after) {
      var v :| 0 <= v < |workers| && workers[v].Executing? && workers[v].task == t;
      assert after[v].task == t;
    }
  }

  // The front task leaves the queue and goes to a worker or to a client.
  lemma FrontPopped(s: Pool, after: Pool)
    requires Tasks(s) && s.queue.items != []
    requires after.queue.items == s.queue.items[1..] && after.pushed == s.pushed
    requires after.popped == s.popped + [Front(s)] && HeldOnce(after.workers)
    requires after.finished == s.finished && after.dropped == s.dropped
    requires || (Held(after.workers) == Held(s.workers) + {Front(s)} && after.taken == s.taken)
             || (after.workers == s.workers && after.taken == s.taken + {Front(s)})
    ensures Tasks(after)
  {
  }

  lemma PopKeeps(s: Pool, w: Thread)
    requires Tasks(s) && w < |s.workers| && !s.workers[w].Executing?
    ensures Tasks(WaitPop(s, w))
  {
    var after := WaitPop(s, w);
    if WaitPopStep(s.queue, w).1.Gets? {
      assert s.queue.items[0] == Front(s);
      WorkerTakes(s.workers, w, Front(s));
      FrontPopped(s, after);
    } else {
      WorkerDrops(s.workers, w, after.workers[w]);
    }
  }

  lemma ClearKeeps(s: Pool)
    requires Tasks(s)
    ensures Tasks(Next(s, Clear))
  {
    hide HeldOnce, Held;
    forall t: Task | Front(s) <= t < s.pushed ensures t in s.queue.items {
      assert s.queue.items[t - Front(s)] == t;
    }
    if s.queue.items != [] {
      assert s.queue.items[0] in Next(s, Clear).dropped;
    }
  }

  lemma TasksKept(s: Pool, step: Step)
    requires Tasks(s) && Enabled(s, step)
    ensures Tasks(Next(s, step))
  {
    var after := Next(s, step);
    match step
    case Test(w) =>
      WorkerDrops(s.workers, w, after.workers[w]);
    case Enter(w) =>
      PopKeeps(s, w);
    case Resume(w) =>
      PopKeeps(s, w);
    case Finish(w) =>
      WorkerDrops(s.workers, w, LoopTest);
    case Submit(wakes) =>
      assert after.popped + after.queue.items == s.popped + s.queue.items + [s.pushed];
    case TryPop =>
      if s.queue.items != [] && s.queue.valid {
        assert s.queue.items[0] == Front(s);
        FrontPopped(s, after);
      }
    case Clear =>
      ClearKeeps(s);
    case _ =>
  }

  // ---------- all runs ----------

  ghost predicate Invariant(s: Pool) {
    Waiters(s) && Tasks(s)
  }

  // In every interleaving of workers, clients and destroyer, from the start of the pool on, no wakeup is lost and no task
  // is lost, repeated or reordered.
  lemma AlwaysInvariant(n: nat, steps: seq<Step>, t: Pool)
    requires Run(Initial(n), steps, t)
    ensures Invariant(t) && |t.workers| == n
  {
    var s := Initial(n);
    assert Blocked(s.queue) == WaitingOnes(s.workers);
    assert Held(s.workers) == {};
    assert s.popped + s.queue.items == Range(0, 0);
    RunKeeps(s, steps, t);
  }

  lemma {:induction false} RunKeeps(s: Pool, steps: seq<Step>, t: Pool)
    requires Invariant(s) && Run(s, steps, t)
    ensures Invariant(t) && |t.workers| == |s.workers|
    decreases |steps|
  {
    hide Waiters, Tasks;
    if steps != [] {
      WaitersKept(s, steps[0]);
      TasksKept(s, steps[0]);
      RunKeeps(Next(s, steps[0]), steps[1..], t);
    }
  }

  // The step worker w can take by itself. (A running task can end: tasks are assumed to terminate.)
  function Turn(s: Pool, w: Thread): (step: Option<Step>)
    requires w < |s.workers|
    ensures step.Some? ==> Enabled(s, step.value) && ByWorker(step.value)
  {
    match s.workers[w]
    case LoopTest => Some(Test(w))
    case Entering => Some(Enter(w))
    case Waiting => if w in s.queue.woken then Some(Resume(w)) else None
    case Executing(_) => Some(Finish(w))
    case Exited => None
  }

  predicate ByWorker(step: Step) {
    step.Test? || step.Enter? || step.Resume? || step.Finish?
  }

  ghost predicate Stuck(s: Pool) {
    forall w | 0 <= w < |s.workers| :: Turn(s, w) == None
  }

  // While tasks are queued the workers cannot all be waiting for a notification: when none can move, all have left, which
  // they do only after m_done was set.
  lemma QueuedTasksGetWorkers(s: Pool)
    requires Invariant(s) && Stuck(s) && s.queue.items != []
    ensures forall w | 0 <= w < |s.workers| :: s.workers[w] == Exited
    ensures s.done || s.workers == []
  {
    if w :| w in s.queue.woken {
      WokenCanMove(s, w);
    }
    forall w | 0 <= w < |s.workers| ensures s.workers[w] == Exited {
      assert Turn(s, w) == None;
      NotWaiting(s, w);
    }
    if s.workers != [] {
      assert s.workers[0] == Exited;
    }
  }

  lemma WokenCanMove(s: Pool, w: Thread)
    requires Waiters(s) && w in s.queue.woken
    ensures w < |s.workers| && Turn(s, w) == Some(Resume(w))
  {
  }

  // ---------- shutdown ----------

  function Sum(workers: seq<Pc>, rank: Pc -> nat): nat {
    if workers == [] then 0 else Sum(workers[..|workers| - 1], rank) + rank(workers[|workers| - 1])
  }

  lemma {:induction false} SumMoves(workers: seq<Pc>, w: Thread, pc: Pc, rank: Pc -> nat)
    requires w < |workers|
    ensures Sum(workers[w := pc], rank) + rank(workers[w]) == Sum(workers, rank) + rank(pc)
  {
    var n := |workers| - 1;
    if w == n {
      assert workers[w := pc][..n] == workers[..n];
    } else {
      assert workers[w := pc][..n] == workers[..n][w := pc];
      SumMoves(workers[..n], w, pc, rank);
    }
  }

  // The steps a worker has left once the queue is invalid: leave waitPop or end the task, then test m_done.
  function StepsLeft(pc: Pc): nat {
    match pc
    case Exited => 0
    case LoopTest => 1
    case _ => 2
  }

  function Remaining(s: Pool): nat {
    Sum(s.workers, StepsLeft)
  }

  lemma {:induction false} RemainingBounds(workers: seq<Pc>)
    ensures Sum(workers, StepsLeft) <= 2 * |workers|
    ensures Sum(workers, StepsLeft) == 0 <==> forall w | 0 <= w < |workers| :: workers[w] == Exited
  {
    if workers != [] {
      var front := workers[..|workers| - 1];
      RemainingBounds(front);
      assert forall w | 0 <= w < |front| :: front[w] == workers[w];
    }
  }

  lemma WaitPopFails(s: Pool, w: Thread)
    requires !s.queue.valid && w < |s.workers| && StepsLeft(s.workers[w]) == 2
    ensures var t := WaitPop(s, w);
            !t.queue.valid && t.popped == s.popped && |t.workers| == |s.workers| && Remaining(t) + 1 == Remaining(s)
  {
    SumMoves(s.workers, w, LoopTest, StepsLeft);
  }

  lemma ShutdownStep(s: Pool, step: Step)
    requires Waiters(s) && !s.queue.valid && Enabled(s, step)
    ensures var t := Next(s, step);
            && Waiters(t) && !t.queue.valid && t.popped == s.popped && |t.workers| == |s.workers|
            && Remaining(t) + (if ByWorker(step) then 1 else 0) == Remaining(s)
  {
    WaitersKept(s, step);
    assert s.queue.asleep == {} && s.done;
    hide NoLostWakeup, WaitingOnes, Blocked, SomeLeft, WaitPop, Waiters, Sum;
    match step
    case Test(w) =>
      SumMoves(s.workers, w, Exited, StepsLeft);
    case Enter(w) =>
      WaitPopFails(s, w);
    case Resume(w) =>
      WaitPopFails(s, w);
    case Finish(w) =>
      SumMoves(s.workers, w, LoopTest, StepsLeft);
    case _ =>
  }

  function WorkerSteps(steps: seq<Step>): nat {
    if steps == [] then 0 else (if ByWorker(steps[0]) then 1 else 0) + WorkerSteps(steps[1..])
  }

  // Once the queue is invalid nobody is or falls asleep and no task is popped; every worker step uses up one of at most
  // two per worker; while steps are left some worker can take one, and when none is left all have returned: join ends.
  lemma {:induction false} ShutdownTerminates(s: Pool, steps: seq<Step>, t: Pool)
    requires Waiters(s) && !s.queue.valid && Run(s, steps, t)
    ensures t.queue.asleep == {} && t.popped == s.popped
    ensures WorkerSteps(steps) + Remaining(t) == Remaining(s) <= 2 * |s.workers|
    ensures Stuck(t) <==> Remaining(t) == 0
    ensures Remaining(t) == 0 <==> forall w | 0 <= w < |t.workers| :: t.workers[w] == Exited
    decreases |steps|
  {
    RemainingBounds(s.workers);
    if steps == [] {
      forall w | 0 <= w < |t.workers| ensures Turn(t, w) == None <==> t.workers[w] == Exited {
        NotWaiting(t, w);
      }
    } else {
      ShutdownStep(s, steps[0]);
      ShutdownTerminates(Next(s, steps[0]), steps[1..], t);
    }
  }

  // destroy can always run: in every reachable pool whose m_done is not set it can be set, and then the queue invalidated,
  // which wakes everybody and changes no worker and no task.
  lemma DestroyStarts(n: nat, steps: seq<Step>, s: Pool)
    requires Run(Initial(n), steps, s) && !s.done
    ensures Enabled(s, SetDone)
    ensures var d := Next(s, SetDone);
            && d == s.(done := true) && Enabled(d, Invalidate)
            && var t := Next(d, Invalidate);
               !t.queue.valid && t.queue.asleep == {} && t.queue.items == s.queue.items && t.workers == s.workers && t.done
  {
    AlwaysInvariant(n, steps, s);
    hide Run, Tasks, NoLostWakeup, WaitingOnes;
  }

  // Whatever happens between the two steps, m_done stays set and the queue can still be invalidated.
  lemma {:induction false} DestroyGoesOn(s: Pool, steps: seq<Step>, t: Pool)
    requires Waiters(s) && s.done && Run(s, steps, t)
    ensures Waiters(t) && t.done
    ensures t.queue.valid ==> Enabled(t, Invalidate) && !Next(t, Invalidate).queue.valid && Next(t, Invalidate).queue.asleep == {}
    decreases |steps|
  {
    if steps != [] {
      WaitersKept(s, steps[0]);
      DoneStays(s, steps[0]);
      hide Next, Enabled, Waiters;
      DestroyGoesOn(Next(s, steps[0]), steps[1..], t);
    }
  }

  lemma DoneStays(s: Pool, step: Step)
    requires s.done && Enabled(s, step)
    ensures Next(s, step).done
  {
  }

  // step makes worker w start a task.
  predicate Starts(s: Pool, step: Step, w: Thread) {
    (step == Enter(w) || step == Resume(w)) && WaitPopStep(s.queue, w).1.Gets?
  }

  ghost function StartCount(s: Pool, steps: seq<Step>, t: Pool, w: Thread): nat
    requires Run(s, steps, t)
    decreases |steps|
  {
    if steps == [] then 0
    else (if Starts(s, steps[0], w) then 1 else 0) + StartCount(Next(s, steps[0]), steps[1..], t, w)
  }

  // After m_done is set a worker starts at most one more task, and none unless it is already past its last test.
  lemma {:induction false} OneMoreTask(s: Pool, steps: seq<Step>, t: Pool, w: Thread)
    requires Run(s, steps, t) && s.done && w < |s.workers|
    ensures StartCount(s, steps, t, w) <= if s.workers[w] == Entering || s.workers[w] == Waiting then 1 else 0
    decreases |steps|
  {
    if steps != [] {
      OneMoreTask(Next(s, steps[0]), steps[1..], t, w);
    }
  }

  // ---------- the work gets done ----------

  // The steps a worker will take before it waits again, when no task comes in.
  function StepsToWait(pc: Pc): nat {
    match pc
    case Executing(_) => 3
    case LoopTest => 2
    case Entering => 1
    case _ => 0
  }

  // Each queued task costs its worker three steps more.
  function Work(s: Pool): nat {
    3 * |s.queue.items| + Sum(s.workers, StepsToWait) + |s.queue.woken|
  }

  predicate Undisturbed(steps: seq<Step>) {
    forall i | 0 <= i < |steps| :: ByWorker(steps[i]) || steps[i].Spurious?
  }

  lemma WorkStep(s: Pool, step: Step)
    requires Waiters(s) && !s.done && Enabled(s, step) && (ByWorker(step) || step.Spurious?)
    ensures var t := Next(s, step);
            Waiters(t) && !t.done && |t.workers| == |s.workers| && Work(t) == Work(s) + if step.Spurious? then 1 else -1
  {
    WaitersKept(s, step);
    hide NoLostWakeup, WaitingOnes, Blocked, SomeLeft, WaitPop, Sum;
    match step
    case Test(w) =>
      SumMoves(s.workers, w, Entering, StepsToWait);
    case Finish(w) =>
      SumMoves(s.workers, w, LoopTest, StepsToWait);
    case Spurious(w) =>
      NotWaiting(s, w);
      assert |s.queue.woken + {w}| == |s.queue.woken| + 1;
    case Enter(w) =>
      NotWaiting(s, w);
      WorkOfWaitPop(s, w);
    case Resume(w) =>
      NotWaiting(s, w);
      WorkOfWaitPop(s, w);
    case _ =>
  }

  lemma WorkOfWaitPop(s: Pool, w: Thread)
    requires s.queue.valid && w < |s.workers|
    requires s.workers[w] == if w in s.queue.woken then Waiting else Entering
    ensures Work(WaitPop(s, w)) == Work(s) - 1 && WaitPop(s, w).done == s.done && |WaitPop(s, w).workers| == |s.workers|
  {
    SumMoves(s.workers, w, WaitPop(s, w).workers[w], StepsToWait);
    if w in s.queue.woken {
      assert |s.queue.woken - {w}| == |s.queue.woken| - 1;
    } else {
      assert s.queue.woken - {w} == s.queue.woken;
    }
  }

  // Left alone, a pool that is not shutting down comes to rest after Work(s) worker steps, plus one for each spurious
  // wakeup; and at rest every task ever submitted is finished, unless tryPop or clear took it from the queue.
  lemma {:induction false} WorkGetsDone(s: Pool, steps: seq<Step>, t: Pool)
    requires Invariant(s) && !s.done && |s.workers| > 0 && Undisturbed(steps) && Run(s, steps, t)
    ensures WorkerSteps(steps) + Work(t) == Work(s) + (|steps| - WorkerSteps(steps))
    ensures Work(t) == 0 <==> Stuck(t)
    ensures Stuck(t) ==> forall task: Task | task < t.pushed :: task in t.finished || task in t.taken || task in t.dropped
    decreases |steps|
  {
    hide Tasks, Waiters, Work, Next, Stuck;
    if steps == [] {
      AtRest(s);
    } else {
      assert ByWorker(steps[0]) || steps[0].Spurious?;
      assert forall i | 0 <= i < |steps[1..]| :: steps[1..][i] == steps[i + 1];
      WorkStep(s, steps[0]);
      TasksKept(s, steps[0]);
      WorkGetsDone(Next(s, steps[0]), steps[1..], t);
    }
  }

  lemma {:induction false} NothingToDo(workers: seq<Pc>)
    ensures Sum(workers, StepsToWait) == 0 <==> forall w | 0 <= w < |workers| :: workers[w] == Waiting || workers[w] == Exited
  {
    if workers != [] {
      var front := workers[..|workers| - 1];
      NothingToDo(front);
      assert forall w | 0 <= w < |front| :: front[w] == workers[w];
    }
  }

  // A worker cannot move exactly when it sleeps or has left.
  lemma StuckWorkers(s: Pool)
    requires Waiters(s)
    ensures Stuck(s) <==> s.queue.woken == {} && Sum(s.workers, StepsToWait) == 0
  {
    NothingToDo(s.workers);
    if w :| w in s.queue.woken {
      WokenCanMove(s, w);
    }
    forall w | 0 <= w < |s.workers|
      ensures Turn(s, w) == None <==> w !in s.queue.woken && (s.workers[w] == Waiting || s.workers[w] == Exited)
    {
      NotWaiting(s, w);
    }
  }

  lemma AtRest(s: Pool)
    requires Invariant(s) && !s.done && |s.workers| > 0
    ensures Work(s) == 0 <==> Stuck(s)
    ensures Stuck(s) ==> forall task: Task | task < s.pushed :: task in s.finished || task in s.taken || task in s.dropped
  {
    StuckWorkers(s);
    if Stuck(s) {
      if s.queue.items != [] {
        QueuedTasksGetWorkers(s);
      }
      NothingToDo(s.workers);
      assert Held(s.workers) == {};
    }
  }
}
