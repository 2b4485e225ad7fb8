/** What the pool gets done: tasks that wait are taken and executed. */
module PoolProgress {
  import opened WorkerPool

  /** A step of a worker of its own accord, or the signal for the task just
      appended: no new task, no spurious wakeup, nothing of the shutdown. */
  predicate OnItsOwn(s: Step) {
    (OfWorker(s) && !s.WakeUp?) || s.SignalNobody?
  }

  ghost predicate Undisturbed(steps: seq<Step>) {
    forall s | s in steps :: OnItsOwn(s)
  }

  predicate NoNewTask(s: Step) {
    !s.Enqueue? && !s.WakeUp?
  }

  // ----- one task ---------------------------------------------------------------------

  /** A worker that finds a task under the mutex has it in hand two steps later,
      and has executed it and is back at the lock after a third. */
  lemma {:induction false} TakesFirst(p: Pool, w: nat)
    requires At(p, w, Checking) && p.flag && p.queue != []
    ensures Enabled(p, Check(w)) && Enabled(Next(p, Check(w)), Take(w))
    ensures var r := Next(Next(p, Check(w)), Take(w));
            && At(r, w, Running(p.queue[0])) && r.queue == p.queue[1..] && r.executed == p.executed
            && r.enqueued == p.enqueued && r.main == p.main && Enabled(r, Execute(w))
            && At(Next(r, Execute(w)), w, AtLock)
            && Next(r, Execute(w)).executed == p.executed + [p.queue[0]]
  {
  }

  /** A worker that finds none goes to sleep, and is woken by the signal for the
      next one, or spuriously, to look again. */
  lemma {:induction false} SleepsAndWakes(p: Pool, w: nat)
    requires At(p, w, Checking) && p.flag && p.queue == []
    ensures Enabled(p, Check(w)) && Enabled(Next(p, Check(w)), Sleep(w))
    ensures var r := Next(Next(p, Check(w)), Sleep(w));
            && At(r, w, Asleep) && r.queue == [] && r.executed == p.executed && r.main == p.main
            && (forall q: Pool | At(q, w, Asleep) && q.main.SignalDue? ::
                  Enabled(q, Signal(w)) && At(Next(q, Signal(w)), w, AtLock))
            && (forall q: Pool | At(q, w, Asleep) :: Enabled(q, WakeUp(w)) && At(Next(q, WakeUp(w)), w, AtLock))
  {
  }

  /** Nothing holds a worker back but the mutex in other hands, or sleep, from
      which it can wake by itself: a step of its own takes it elsewhere and
      changes no other worker. */
  lemma {:induction false} WorkerGoesOn(p: Pool, w: nat) returns (s: Step)
    requires w < |p.workers| && !p.workers[w].Exited? && !p.workers[w].Crashed?
    requires p.workers[w].AtLock? ==> MutexFree(p.workers)
    ensures Enabled(p, s) && OfWorker(s) && s.w == w && !s.Signal?
    ensures var ws := Next(p, s).workers;
            |ws| == |p.workers| && ws[w] != p.workers[w] && forall i | 0 <= i < |ws| && i != w :: ws[i] == p.workers[i]
  {
    match p.workers[w]
    case AtLock => s := Lock(w);
    case Checking => s := Check(w);
    case Committed => s := Sleep(w);
    case Asleep => s := WakeUp(w);
    case Passed => s := Take(w);
    case Running(_) => s := Execute(w);
  }

  /** Nothing holds the main thread back, whatever the workers do, but a mutex in
      their hands before it appends, a task in the queue before it lowers the
      flag, and workers yet to exit before the joins return: after a signal it
      serves on, and from step to step it comes to the end of the shutdown. */
  lemma {:induction false} MainGoesOn(p: Pool) returns (s: Step)
    requires !p.main.Stopped? && (p.main.Draining? ==> p.queue == [])
    requires p.main.Joining? ==> forall i | 0 <= i < |p.workers| :: p.workers[i].Exited?
    ensures Enabled(p, s) && !s.WakeUp? && Next(p, s).queue == p.queue && Next(p, s).enqueued == p.enqueued
    ensures Next(p, s).main == match p.main
                               case SignalDue => Serving
                               case Serving => Draining
                               case Draining => SawEmpty
                               case SawEmpty => FlagDown
                               case FlagDown => Joining
                               case Joining => Stopped
    ensures p.main.Serving? && MutexFree(p.workers) ==> forall t :: Enabled(p, Enqueue(t))
  {
    match p.main
    case SignalDue =>
      if w: nat :| w < |p.workers| && p.workers[w].Asleep? {
        s := Signal(w);
      } else {
        s := SignalNobody;
      }
    case Serving => s := BeginStop;
    case Draining => s := SeeEmpty;
    case SawEmpty => s := LowerFlag;
    case FlagDown => s := Broadcast;
    case Joining => s := JoinAll;
  }

  // ----- every run is short -----------------------------------------------------------

  function Weight(w: Worker): nat {
    match w
    case AtLock => 3
    case Checking => 2
    case Committed => 1
    case Passed => 1
    case Running(_) => 4
    case _ => 0
  }

  function Weights(ws: seq<Worker>): nat {
    if ws == [] then 0 else Weight(ws[0]) + Weights(ws[1..])
  }

  function Ahead(m: Main, n: nat): nat {
    match m
    case SignalDue => 3 * n + 9
    case Serving => 3 * n + 5
    case Draining => 3 * n + 4
    case SawEmpty => 3 * n + 3
    case FlagDown => 3 * n + 2
    case Joining => 1
    case Stopped => 0
  }

  /** Steps the pool has left at most. */
  function Work(p: Pool): nat {
    4 * |p.queue| + Weights(p.workers) + Ahead(p.main, |p.workers|)
  }

  lemma {:induction false} OneWeight(ws: seq<Worker>, w: nat, pc: Worker)
    requires w < |ws|
    ensures Weights(ws[w := pc]) + Weight(ws[w]) == Weights(ws) + Weight(pc)
  {
    if w == 0 {
      assert ws[0 := pc][1..] == ws[1..];
    } else {
      OneWeight(ws[1..], w - 1, pc);
      assert ws[w := pc][1..] == ws[1..][w - 1 := pc];
    }
  }

  lemma {:induction false} WokenWeights(ws: seq<Worker>)
    ensures Weights(AllWoken(ws)) <= Weights(ws) + 3 * |ws|
  {
    if ws != [] {
      WokenWeights(ws[1..]);
      assert AllWoken(ws)[1..] == AllWoken(ws[1..]);
    }
  }

  /** Without new tasks and spurious wakeups every step uses work up. */
  lemma {:induction false} StepUsesWork(p: Pool, s: Step)
    requires Enabled(p, s) && NoNewTask(s)
    ensures Work(Next(p, s)) < Work(p) && |Next(p, s).workers| == |p.workers|
  {
    if OfWorker(s) {
      OneWeight(p.workers, s.w, Next(p, s).workers[s.w]);
    } else if s.Broadcast? {
      WokenWeights(p.workers);
    }
  }

  /** So every such run, the shutdown included, is bounded. */
  lemma {:induction false} WorkIsBounded(p: Pool, steps: seq<Step>, r: Pool)
    requires Run(p, steps, r) && forall s | s in steps :: NoNewTask(s)
    ensures |steps| + Work(r) <= Work(p)
    decreases |steps|
  {
    hide Enabled, Next, Work;
    if steps != [] {
      assert steps[0] in steps && forall s | s in steps[1..] :: s in steps;
      StepUsesWork(p, steps[0]);
      WorkIsBounded(Next(p, steps[0]), steps[1..], r);
    }
  }

  lemma {:induction false} WorkBound(p: Pool)
    ensures Work(p) <= 4 * |p.queue| + 7 * |p.workers| + 9
  {
    WeightsBound(p.workers);
  }

  lemma {:induction false} WeightsBound(ws: seq<Worker>)
    ensures Weights(ws) <= 4 * |ws|
  {
    if ws != [] {
      WeightsBound(ws[1..]);
    }
  }

  // ----- nothing is left waiting --------------------------------------------------------

  ghost predicate AllDone(p: Pool) {
    p.queue == [] && multiset(p.executed) == multiset(p.enqueued)
  }

  /** Before the shutdown somebody can go on as long as a task waits or is in
      somebody's hands. */
  lemma {:induction false} SomebodyGoesOn(p: Pool) returns (s: Step)
    requires Inv(p) && p.flag && 0 < |p.workers| && !AllDone(p)
    ensures Enabled(p, s) && OnItsOwn(s)
  {
    if w: nat :| w < |p.workers| && Inside(p.workers[w]) {
      s := if p.workers[w].Checking? then Check(w) else if p.workers[w].Committed? then Sleep(w) else Take(w);
    } else if w: nat :| w < |p.workers| && !p.workers[w].Asleep? {
      assert WorkerOk(p, w);
      s := if p.workers[w].Running? then Execute(w) else Lock(w);
    } else {
      SleepersAreDone(p);
      s := Signal(0);
    }
  }

  /** With everybody asleep all is done, unless a signal is due. */
  lemma {:induction false} SleepersAreDone(p: Pool)
    requires Inv(p) && p.flag && 0 < |p.workers| && forall i | 0 <= i < |p.workers| :: p.workers[i].Asleep?
    ensures AllDone(p) || p.main.SignalDue?
  {
    if !p.main.SignalDue? {
      assert p.workers[0].Asleep?;
      NobodyLooks(p.workers, 0);
      assert p.dequeued + [] == p.dequeued;
      forall t ensures multiset(p.executed)[t] == multiset(p.enqueued)[t] {
        assert Accounted(p, t);
        NobodyLooks(p.workers, t);
      }
    }
  }

  lemma {:induction false} StaysUp(p: Pool, s: Step)
    requires Inv(p) && Enabled(p, s) && OnItsOwn(s)
    ensures Inv(Next(p, s)) && Next(p, s).flag == p.flag && |Next(p, s).workers| == |p.workers|
    ensures Next(p, s).enqueued == p.enqueued
  {
    StepKeepsWorkers(p, s);
    StepHandsOut(p, s);
    StepAttends(p, s);
  }

  lemma {:induction false} DrainRun(p: Pool) returns (steps: seq<Step>, r: Pool)
    requires Inv(p) && p.flag && 0 < |p.workers|
    ensures Run(p, steps, r) && Undisturbed(steps) && AllDone(r) && r.enqueued == p.enqueued
    decreases Work(p)
  {
    hide Inv, Enabled, Next, AllDone, OnItsOwn, Work;
    if AllDone(p) {
      steps, r := [], p;
    } else {
      var s := SomebodyGoesOn(p);
      StaysUp(p, s);
      IsNoNewTask(s);
      StepUsesWork(p, s);
      steps, r := DrainRun(Next(p, s));
      RunFrom(p, s, steps, [s] + steps, r);
      steps := [s] + steps;
    }
  }

  lemma {:induction false} IsNoNewTask(s: Step)
    requires OnItsOwn(s)
    ensures NoNewTask(s)
  {
  }

  /** From every state a pool with workers can reach before the flag goes down,
      the workers can execute everything that was ever enqueued, without new
      tasks, luck or the shutdown. */
  lemma {:induction false} TasksGetDone(n: nat, before: seq<Step>, p: Pool) returns (steps: seq<Step>, r: Pool)
    requires 0 < n && Run(Start(n), before, p) && p.flag
    ensures Run(p, steps, r) && Undisturbed(steps)
    ensures r.queue == [] && multiset(r.executed) == multiset(p.enqueued)
  {
    hide Inv, Run;
    StartInv(n);
    RunsKeepInv(Start(n), before, p);
    steps, r := DrainRun(p);
  }

  /** And they do, whatever they do: such a run has a bounded number of steps, and
      where nobody can go on all that was enqueued has been executed. */
  lemma {:induction false} TasksDoGetDone(n: nat, before: seq<Step>, p: Pool, steps: seq<Step>, r: Pool)
    requires 0 < n && Run(Start(n), before, p) && p.flag
    requires Undisturbed(steps) && Run(p, steps, r)
    ensures |steps| <= 4 * |p.queue| + 7 * n + 9
    ensures (exists s :: Enabled(r, s) && OnItsOwn(s))
            || (r.queue == [] && multiset(r.executed) == multiset(p.enqueued))
  {
    hide Inv, Enabled, Next, OnItsOwn, Work, Run;
    StartInv(n);
    RunsKeepInv(Start(n), before, p);
    forall s | s in steps ensures NoNewTask(s) {
      IsNoNewTask(s);
    }
    WorkIsBounded(p, steps, r);
    WorkBound(p);
    RunStaysUp(p, steps, r);
    if !AllDone(r) {
      var s := SomebodyGoesOn(r);
    }
  }

  lemma {:induction false} RunStaysUp(p: Pool, steps: seq<Step>, r: Pool)
    requires Inv(p) && Undisturbed(steps) && Run(p, steps, r)
    ensures Inv(r) && r.flag == p.flag && |r.workers| == |p.workers| && r.enqueued == p.enqueued
    decreases |steps|
  {
    hide Inv, Enabled, Next, OnItsOwn;
    if steps != [] {
      assert steps[0] in steps && forall s | s in steps[1..] :: s in steps;
      StaysUp(p, steps[0]);
      RunStaysUp(Next(p, steps[0]), steps[1..], r);
    }
  }

  // ----- a whole life -------------------------------------------------------------------

  /** All done, everybody asleep, and no signal due. */
  ghost predicate Idle(p: Pool) {
    && Inv(p) && p.flag && !p.main.SignalDue? && AllDone(p)
    && forall i | 0 <= i < |p.workers| :: p.workers[i].Asleep?
  }

  /** Somebody can go on as long as somebody is awake or a signal is due. */
  lemma {:induction false} NotIdleYet(p: Pool) returns (s: Step)
    requires Inv(p) && p.flag && 0 < |p.workers| && !Idle(p)
    ensures Enabled(p, s) && OnItsOwn(s)
  {
    if !AllDone(p) {
      s := SomebodyGoesOn(p);
    } else if w: nat :| w < |p.workers| && Inside(p.workers[w]) {
      s := if p.workers[w].Checking? then Check(w) else if p.workers[w].Committed? then Sleep(w) else Take(w);
    } else if w: nat :| w < |p.workers| && !p.workers[w].Asleep? {
      assert WorkerOk(p, w);
      s := if p.workers[w].Running? then Execute(w) else Lock(w);
    } else {
      s := Signal(0);
    }
  }

  lemma {:induction false} MainStays(p: Pool, s: Step)
    requires Enabled(p, s) && OnItsOwn(s)
    ensures Next(p, s).main == if p.main.SignalDue? && (s.Signal? || s.SignalNobody?) then Serving else p.main
  {
  }

  lemma {:induction false} IdleRun(p: Pool) returns (steps: seq<Step>, r: Pool)
    requires Inv(p) && p.flag && 0 < |p.workers|
    ensures Run(p, steps, r) && Undisturbed(steps) && Idle(r)
    ensures r.enqueued == p.enqueued && |r.workers| == |p.workers|
    ensures r.main == if p.main.SignalDue? then Serving else p.main
    decreases Work(p)
  {
    hide Inv, Enabled, Next, AllDone, OnItsOwn, Work;
    if Idle(p) {
      steps, r := [], p;
    } else {
      var s := NotIdleYet(p);
      StaysUp(p, s);
      MainStays(p, s);
      IsNoNewTask(s);
      StepUsesWork(p, s);
      steps, r := IdleRun(Next(p, s));
      RunFrom(p, s, steps, [s] + steps, r);
      steps := [s] + steps;
    }
  }

  lemma {:induction false} RunsJoin(p: Pool, a: seq<Step>, q: Pool, b: seq<Step>, r: Pool)
    requires Run(p, a, q) && Run(q, b, r)
    ensures Run(p, a + b, r)
    decreases |a|
  {
    hide Enabled, Next;
    if a == [] {
      assert a + b == b;
    } else {
      RunsJoin(Next(p, a[0]), a[1..], q, b, r);
      assert (a + b)[1..] == a[1..] + b;
    }
  }

  lemma {:induction false} AcceptsTask(p: Pool, t: TaskId) returns (r: Pool)
    requires Inv(p) && p.flag && p.main.Serving? && MutexFree(p.workers)
    ensures Enabled(p, Enqueue(t)) && r == Next(p, Enqueue(t))
    ensures Inv(r) && r.flag && r.main.SignalDue? && r.workers == p.workers
    ensures r.enqueued == p.enqueued + [t] && r.queue == p.queue + [t]
  {
    r := Next(p, Enqueue(t));
    StepKeepsWorkers(p, Enqueue(t));
    StepHandsOut(p, Enqueue(t));
    StepAttends(p, Enqueue(t));
  }

  /** Without spurious wakeups an idle pool can be given any tasks one by one,
      execute them and be idle again. */
  lemma {:induction false} ServesAll(p: Pool, tasks: seq<TaskId>) returns (steps: seq<Step>, r: Pool)
    requires Idle(p) && p.main.Serving? && 0 < |p.workers|
    ensures Run(p, steps, r) && Quiet(steps) && Idle(r) && r.main.Serving?
    ensures r.enqueued == p.enqueued + tasks && |r.workers| == |p.workers|
    decreases |tasks|
  {
    hide Idle, Inv, Enabled, Next, Run;
    if tasks == [] {
      steps, r := [], p;
      NoSteps(p);
    } else {
      IdleIsFree(p);
      var q := AcceptsTask(p, tasks[0]);
      var own, i := IdleRun(q);
      var rest;
      rest, r := ServesAll(i, tasks[1..]);
      RunsJoin(q, own, i, rest, r);
      RunFrom(p, Enqueue(tasks[0]), own + rest, [Enqueue(tasks[0])] + (own + rest), r);
      steps := [Enqueue(tasks[0])] + (own + rest);
      assert forall s | s in own :: OnItsOwn(s);
      assert p.enqueued + [tasks[0]] + tasks[1..] == p.enqueued + tasks;
    }
  }

  lemma {:induction false} NoSteps(p: Pool)
    ensures Run(p, [], p)
  {
  }

  lemma {:induction false} IdleIsFree(p: Pool)
    requires Idle(p)
    ensures Inv(p) && p.flag && MutexFree(p.workers)
  {
  }

  /** Any number of tasks can wait at once: with all workers awake but none at the
      queue, the main thread appends one after the other. */
  lemma {:induction false} QueuesUp(p: Pool, tasks: seq<TaskId>) returns (steps: seq<Step>, r: Pool)
    requires Inv(p) && p.flag && p.main.Serving? && forall i | 0 <= i < |p.workers| :: p.workers[i].AtLock?
    ensures Run(p, steps, r) && Quiet(steps) && Inv(r) && r.flag && r.main.Serving? && r.workers == p.workers
    ensures r.queue == p.queue + tasks && r.enqueued == p.enqueued + tasks
    decreases |tasks|
  {
    hide Inv, Enabled, Next, Run;
    if tasks == [] {
      steps, r := [], p;
      NoSteps(p);
    } else {
      var t := tasks[0];
      var q := AcceptsTask(p, t);
      var s := SignalToNobody(q);
      var rest;
      rest, r := QueuesUp(s, tasks[1..]);
      RunFrom(q, SignalNobody, rest, [SignalNobody] + rest, r);
      RunFrom(p, Enqueue(t), [SignalNobody] + rest, [Enqueue(t)] + ([SignalNobody] + rest), r);
      steps := [Enqueue(t)] + ([SignalNobody] + rest);
      assert p.enqueued + [t] + tasks[1..] == p.enqueued + tasks;
      assert p.queue + [t] + tasks[1..] == p.queue + tasks;
    }
  }

  lemma {:induction false} SignalToNobody(p: Pool) returns (r: Pool)
    requires Inv(p) && p.main.SignalDue? && forall i | 0 <= i < |p.workers| :: p.workers[i].AtLock?
    ensures Enabled(p, SignalNobody) && r == Next(p, SignalNobody) && r == p.(main := Serving) && Inv(r)
  {
    r := Next(p, SignalNobody);
    StaysUp(p, SignalNobody);
  }

  lemma {:induction false} BeginsStop(p: Pool) returns (r: Pool)
    requires Inv(p) && p.flag && p.main.Serving?
    ensures Enabled(p, BeginStop) && r == Next(p, BeginStop)
    ensures Inv(r) && r.flag && r.main.Draining? && r.workers == p.workers && r.enqueued == p.enqueued
  {
    r := Next(p, BeginStop);
    StepKeepsWorkers(p, BeginStop);
    StepHandsOut(p, BeginStop);
    StepAttends(p, BeginStop);
  }

  lemma {:induction false} LowersFlag(p: Pool) returns (sawEmpty: Pool, down: Pool)
    requires Idle(p) && p.main.Draining?
    ensures Enabled(p, SeeEmpty) && sawEmpty == Next(p, SeeEmpty)
    ensures Enabled(sawEmpty, LowerFlag) && down == Next(sawEmpty, LowerFlag)
    ensures down == p.(main := FlagDown, flag := false) && WorkersOk(down)
  {
    sawEmpty, down := p.(main := SawEmpty), p.(main := FlagDown, flag := false);
    StepKeepsWorkers(p, SeeEmpty);
    StepKeepsWorkers(sawEmpty, LowerFlag);
  }

  lemma {:induction false} StopsWhenIdle(p: Pool) returns (steps: seq<Step>, r: Pool)
    requires Idle(p) && p.main.Draining?
    ensures Run(p, steps, r) && Quiet(steps) && r.main.Stopped? && r.enqueued == p.enqueued
  {
    hide Run, Inv, WorkersOk;
    var sawEmpty, down := LowersFlag(p);
    AfterBroadcast(down);
    var b := BroadcastJoins(down);
    hide Next, Enabled;
    steps, r := ShutdownRun(b);
    ShutdownKeeps(b, steps, r);
    BroadcastAdds(down);
    RunFrom(down, Broadcast, steps, [Broadcast] + steps, r);
    steps := [Broadcast] + steps;
    RunFrom(sawEmpty, LowerFlag, steps, [LowerFlag] + steps, r);
    steps := [LowerFlag] + steps;
    RunFrom(p, SeeEmpty, steps, [SeeEmpty] + steps, r);
    steps := [SeeEmpty] + steps;
  }

  lemma {:induction false} BroadcastAdds(p: Pool)
    requires p.main.FlagDown?
    ensures Next(p, Broadcast).enqueued == p.enqueued
  {
  }

  lemma {:induction false} ShutdownKeeps(p: Pool, steps: seq<Step>, r: Pool)
    requires Run(p, steps, r) && (p.main.Joining? || p.main.Stopped?)
    ensures r.enqueued == p.enqueued
    decreases |steps|
  {
    if steps != [] {
      ShutdownKeeps(Next(p, steps[0]), steps[1..], r);
    }
  }

  /** The stop may begin at any time between two tasks: whatever waits then can
      still be executed, and the pool come to its end. */
  lemma {:induction false} StopRun(p: Pool) returns (steps: seq<Step>, r: Pool)
    requires Inv(p) && p.flag && p.main.Serving? && 0 < |p.workers|
    ensures Run(p, steps, r) && Quiet(steps) && r.main.Stopped? && r.enqueued == p.enqueued
  {
    hide Idle, Inv, Run, Next, Enabled;
    var b := BeginsStop(p);
    var own, i := IdleRun(b);
    var rest;
    rest, r := StopsWhenIdle(i);
    RunsJoin(b, own, i, rest, r);
    RunFrom(p, BeginStop, own + rest, [BeginStop] + (own + rest), r);
    steps := [BeginStop] + (own + rest);
    assert forall s | s in own :: OnItsOwn(s);
  }

  lemma {:induction false} CanAlwaysStop(n: nat, before: seq<Step>, p: Pool) returns (steps: seq<Step>, r: Pool)
    requires 0 < n && Run(Start(n), before, p) && p.main.Serving?
    ensures Run(p, steps, r) && Quiet(steps) && r.main.Stopped?
    ensures r.enqueued == p.enqueued && multiset(r.executed) == multiset(p.enqueued)
  {
    StartInv(n);
    RunsKeepInv(Start(n), before, p);
    ServingIsUp(p);
    hide Inv, Run, Start;
    steps, r := StopRun(p);
    RunsJoin(Start(n), before, p, steps, r);
    StoppedMeansDone(n, before + steps, r);
  }

  lemma {:induction false} ServingIsUp(p: Pool)
    requires Inv(p) && p.main.Serving?
    ensures p.flag
  {
  }

  /** A pool of any size serves any sequence of tasks, whether they come one by
      one or all at once: some run from its start to its stop, without spurious
      wakeups, enqueues exactly these, in this order, and executes each once. */
  lemma {:induction false} WholeLife(n: nat, first: seq<TaskId>, tasks: seq<TaskId>)
    returns (steps: seq<Step>, full: Pool, r: Pool)
    requires 0 < n
    ensures Run(Start(n), steps, r) && Quiet(steps) && r.main.Stopped?
    ensures r.enqueued == first + tasks && multiset(r.executed) == multiset(first + tasks)
    ensures exists k :: 0 <= k <= |steps| && Run(Start(n), steps[..k], full) && full.queue == first
  {
    StartServes(n);
    hide Idle, Inv, Run, Start;
    var fill, own, work, stop, i, j;
    fill, full := QueuesUp(Start(n), first);
    own, i := IdleRun(full);
    work, j := ServesAll(i, tasks);
    IdleIsFree(j);
    stop, r := StopRun(j);
    RunsJoin(Start(n), fill, full, own, i);
    RunsJoin(Start(n), fill + own, i, work, j);
    RunsJoin(Start(n), fill + own + work, j, stop, r);
    steps := fill + own + work + stop;
    assert steps[..|fill|] == fill;
    assert forall s | s in own :: OnItsOwn(s);
    assert [] + first == first;
    StoppedMeansDone(n, steps, r);
  }

  lemma {:induction false} StartServes(n: nat)
    ensures var p := Start(n);
            && Inv(p) && p.flag && p.main.Serving? && |p.workers| == n && p.enqueued == [] && p.queue == []
            && forall i | 0 <= i < n :: p.workers[i].AtLock?
  {
    StartInv(n);
  }
}
