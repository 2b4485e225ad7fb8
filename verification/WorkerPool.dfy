/** The main thread and its workers around the queue of tasks, one step of one
    thread at a time. A step is what happens between two points where another
    thread can come in: the mutex, the condition variable, and the flag that
    shutdown lowers without the mutex. */
module WorkerPool {
  type TaskId = nat

  /** Where a worker is. Between `Checking` and the end of `taskDeque` it holds
      the mutex; `Committed` has decided to wait and does not wait yet. */
  datatype Worker =
    | AtLock
    | Checking
    | Committed
    | Asleep
    | Passed
    | Running(task: TaskId)
    | Exited
    | Crashed

  /** Where the main thread is: between tasks, about to signal for the one just
      appended, or at a point of the shutdown. */
  datatype Main = Serving | SignalDue | Draining | SawEmpty | FlagDown | Joining | Stopped

  /** The queue and the flag, the threads, and what has happened so far. */
  datatype Pool = Pool(queue: seq<TaskId>, flag: bool, workers: seq<Worker>, main: Main,
                       enqueued: seq<TaskId>, dequeued: seq<TaskId>, executed: seq<TaskId>)

  datatype Step =
    | Lock(w: nat)
    | Check(w: nat)
    | Sleep(w: nat)
    | Take(w: nat)
    | Execute(w: nat)
    | WakeUp(w: nat)         // spuriously
    | Enqueue(task: TaskId)
    | Signal(w: nat)
    | SignalNobody
    | BeginStop
    | SeeEmpty
    | LowerFlag
    | Broadcast
    | JoinAll

  predicate Inside(w: Worker) {
    w.Checking? || w.Committed? || w.Passed?
  }

  predicate MutexFree(ws: seq<Worker>) {
    forall i | 0 <= i < |ws| :: !Inside(ws[i])
  }

  predicate At(p: Pool, w: nat, pc: Worker) {
    w < |p.workers| && p.workers[w] == pc
  }

  predicate Enabled(p: Pool, s: Step) {
    match s
    case Lock(w) => At(p, w, AtLock) && MutexFree(p.workers)
    case Check(w) => At(p, w, Checking)
    case Sleep(w) => At(p, w, Committed)
    case Take(w) => At(p, w, Passed)
    case Execute(w) => w < |p.workers| && p.workers[w].Running?
    case WakeUp(w) => At(p, w, Asleep)
    case Enqueue(_) => p.main.Serving? && MutexFree(p.workers)
    case Signal(w) => p.main.SignalDue? && At(p, w, Asleep)
    case SignalNobody => p.main.SignalDue? && forall i | 0 <= i < |p.workers| :: !p.workers[i].Asleep?
    case BeginStop => p.main.Serving?
    case SeeEmpty => p.main.Draining? && p.queue == []
    case LowerFlag => p.main.SawEmpty?
    case Broadcast => p.main.FlagDown?
    case JoinAll => p.main.Joining? && forall i | 0 <= i < |p.workers| :: p.workers[i].Exited?
  }

  function Become(p: Pool, w: nat, pc: Worker): Pool
    requires w < |p.workers|
  {
    p.(workers := p.workers[w := pc])
  }

  function AllWoken(ws: seq<Worker>): (r: seq<Worker>)
    ensures |r| == |ws|
  {
    if ws == [] then [] else [if ws[0].Asleep? then AtLock else ws[0]] + AllWoken(ws[1..])
  }

  function Next(p: Pool, s: Step): Pool
    requires Enabled(p, s)
  {
    match s
    case Lock(w) => Become(p, w, Checking)
    case Check(w) => Become(p, w, if p.flag && p.queue == [] then Committed else Passed)
    case Sleep(w) => Become(p, w, Asleep)
    case Take(w) =>
      if !p.flag then Become(p, w, Exited)
      else if p.queue == [] then Become(p, w, Crashed)
      else Become(p, w, Running(p.queue[0])).(queue := p.queue[1..], dequeued := p.dequeued + [p.queue[0]])
    case Execute(w) => Become(p, w, AtLock).(executed := p.executed + [p.workers[w].task])
    case WakeUp(w) => Become(p, w, AtLock)
    case Enqueue(t) => p.(queue := p.queue + [t], enqueued := p.enqueued + [t], main := SignalDue)
    case Signal(w) => Become(p, w, AtLock).(main := Serving)
    case SignalNobody => p.(main := Serving)
    case BeginStop => p.(main := Draining)
    case SeeEmpty => p.(main := SawEmpty)
    case LowerFlag => p.(flag := false, main := FlagDown)
    case Broadcast => p.(workers := AllWoken(p.workers), main := Joining)
    case JoinAll => p.(main := Stopped)
  }

  function Start(n: nat): Pool {
    Pool([], true, seq(n, _ => AtLock), Serving, [], [], [])
  }

  ghost predicate Run(p: Pool, steps: seq<Step>, r: Pool)
    decreases |steps|
  {
    if steps == [] then r == p else Enabled(p, steps[0]) && Run(Next(p, steps[0]), steps[1..], r)
  }

  // ----- counting workers -------------------------------------------------------

  /** Will look at the queue again before it sleeps. */
  predicate WillLook(w: Worker) {
    w.AtLock? || w.Checking? || w.Passed? || w.Running?
  }

  function Looking(ws: seq<Worker>): nat {
    if ws == [] then 0 else (if WillLook(ws[0]) then 1 else 0) + Looking(ws[1..])
  }

  /** The number of workers with task `t` in hand. */
  function Holding(ws: seq<Worker>, t: TaskId): nat {
    if ws == [] then 0 else (if ws[0] == Running(t) then 1 else 0) + Holding(ws[1..], t)
  }

  lemma {:induction false} OneMoves(ws: seq<Worker>, w: nat, pc: Worker)
    requires w < |ws|
    ensures Looking(ws[w := pc]) + (if WillLook(ws[w]) then 1 else 0) == Looking(ws) + (if WillLook(pc) then 1 else 0)
  {
    if w == 0 {
      assert ws[0 := pc][1..] == ws[1..];
    } else {
      OneMoves(ws[1..], w - 1, pc);
      assert ws[w := pc][1..] == ws[1..][w - 1 := pc];
    }
  }

  lemma {:induction false} OneHandMoves(ws: seq<Worker>, w: nat, pc: Worker, t: TaskId)
    requires w < |ws|
    ensures Holding(ws[w := pc], t) + (if ws[w] == Running(t) then 1 else 0)
            == Holding(ws, t) + (if pc == Running(t) then 1 else 0)
  {
    if w == 0 {
      assert ws[0 := pc][1..] == ws[1..];
    } else {
      OneHandMoves(ws[1..], w - 1, pc, t);
      assert ws[w := pc][1..] == ws[1..][w - 1 := pc];
    }
  }

  lemma {:induction false} AllWokenAt(ws: seq<Worker>, i: nat)
    requires i < |ws|
    ensures AllWoken(ws)[i] == if ws[i].Asleep? then AtLock else ws[i]
  {
    if i > 0 {
      AllWokenAt(ws[1..], i - 1);
    }
  }

  lemma {:induction false} WakingHoldsNothing(ws: seq<Worker>, t: TaskId)
    ensures Holding(AllWoken(ws), t) == Holding(ws, t)
  {
    if ws != [] {
      WakingHoldsNothing(ws[1..], t);
      assert AllWoken(ws)[1..] == AllWoken(ws[1..]);
    }
  }

  lemma {:induction false} NobodyLooks(ws: seq<Worker>, t: TaskId)
    requires forall i | 0 <= i < |ws| :: ws[i].Asleep? || ws[i].Exited?
    ensures Looking(ws) == 0 && Holding(ws, t) == 0
  {
    if ws != [] {
      NobodyLooks(ws[1..], t);
    }
  }

  // ----- the invariant ----------------------------------------------------------

  predicate Stopping(m: Main) {
    m.SawEmpty? || m.FlagDown? || m.Joining? || m.Stopped?
  }

  ghost predicate WorkerOk(p: Pool, i: nat)
    requires i < |p.workers|
  {
    var w := p.workers[i];
    && !w.Crashed?
    && (w.Committed? ==> p.queue == [])
    && (w.Passed? ==> !p.flag || p.queue != [])
    && (w.Exited? ==> !p.flag)
    && (p.main.Stopped? ==> w.Exited?)
  }

  /** At most one thread has the mutex. */
  predicate OneInside(ws: seq<Worker>) {
    forall i, j | 0 <= i < j < |ws| :: !(Inside(ws[i]) && Inside(ws[j]))
  }

  ghost predicate WorkersOk(p: Pool) {
    && OneInside(p.workers)
    && (forall i | 0 <= i < |p.workers| :: WorkerOk(p, i))
    && (Stopping(p.main) ==> p.queue == [])
    && (p.flag <==> !(p.main.FlagDown? || p.main.Joining? || p.main.Stopped?))
  }

  /** Handed out means executed, or in hand. */
  ghost predicate Accounted(p: Pool, t: TaskId) {
    multiset(p.dequeued)[t] == multiset(p.executed)[t] + Holding(p.workers, t)
  }

  /** Tasks are handed out in order, each of them to one worker. */
  ghost predicate HandedOut(p: Pool) {
    && p.enqueued == p.dequeued + p.queue
    && forall t :: Accounted(p, t)
  }

  predicate SomeAsleep(ws: seq<Worker>) {
    exists i :: 0 <= i < |ws| && ws[i].Asleep?
  }

  /** While somebody sleeps, no more tasks wait than there are workers awake, or
      a signal due, to look at them. */
  predicate Attended(p: Pool) {
    p.flag && SomeAsleep(p.workers) ==> |p.queue| <= Looking(p.workers) + if p.main.SignalDue? then 1 else 0
  }

  ghost predicate Inv(p: Pool) {
    WorkersOk(p) && HandedOut(p) && Attended(p)
  }

  lemma {:induction false} StepKeepsWorkers(p: Pool, s: Step)
    requires WorkersOk(p) && Enabled(p, s)
    ensures WorkersOk(Next(p, s))
  {
    if s.Broadcast? {
      BroadcastKeepsWorkers(p);
    } else {
      var n := Next(p, s);
      forall i | 0 <= i < |n.workers| ensures WorkerOk(n, i) {
        assert WorkerOk(p, i);
      }
    }
  }

  lemma {:induction false} BroadcastKeepsWorkers(p: Pool)
    requires WorkersOk(p) && p.main.FlagDown?
    ensures WorkersOk(Next(p, Broadcast))
  {
    var n := Next(p, Broadcast);
    forall i | 0 <= i < |p.workers|
      ensures n.workers[i] == (if p.workers[i].Asleep? then AtLock else p.workers[i]) && WorkerOk(n, i)
    {
      AllWokenAt(p.workers, i);
      assert WorkerOk(p, i);
    }
  }

  lemma {:induction false} StepHandsOut(p: Pool, s: Step)
    requires WorkersOk(p) && HandedOut(p) && Enabled(p, s)
    ensures HandedOut(Next(p, s))
  {
    StepInOrder(p, s);
    forall t ensures Accounted(Next(p, s), t) {
      assert Accounted(p, t);
      StepAccounts(p, s, t);
    }
  }

  lemma {:induction false} StepInOrder(p: Pool, s: Step)
    requires WorkersOk(p) && p.enqueued == p.dequeued + p.queue && Enabled(p, s)
    ensures Next(p, s).enqueued == Next(p, s).dequeued + Next(p, s).queue
  {
    if s.Enqueue? {
      assert p.enqueued + [s.task] == p.dequeued + (p.queue + [s.task]);
    }
  }

  /** A step of one worker. */
  predicate OfWorker(s: Step) {
    s.Lock? || s.Check? || s.Sleep? || s.Take? || s.Execute? || s.WakeUp? || s.Signal?
  }

  lemma {:induction false} StepAccounts(p: Pool, s: Step, t: TaskId)
    requires Accounted(p, t) && Enabled(p, s)
    ensures Accounted(Next(p, s), t)
  {
    var n := Next(p, s);
    if OfWorker(s) {
      OneHandMoves(p.workers, s.w, n.workers[s.w], t);
    } else if s.Broadcast? {
      WakingHoldsNothing(p.workers, t);
    }
  }

  lemma {:induction false} StepAttends(p: Pool, s: Step)
    requires WorkersOk(p) && Attended(p) && Enabled(p, s)
    ensures Attended(Next(p, s))
  {
    var n := Next(p, s);
    if OfWorker(s) {
      assert WorkerOk(p, s.w);
      OneMoves(p.workers, s.w, n.workers[s.w]);
      assert forall i | 0 <= i < |n.workers| && i != s.w :: n.workers[i] == p.workers[i];
    }
  }

  lemma {:induction false} StartInv(n: nat)
    ensures Inv(Start(n))
  {
    forall t ensures Accounted(Start(n), t) {
      StartHoldsNothing(n, t);
    }
  }

  lemma {:induction false} StartHoldsNothing(n: nat, t: TaskId)
    ensures Holding(Start(n).workers, t) == 0
    decreases n
  {
    if n > 0 {
      StartHoldsNothing(n - 1, t);
      assert Start(n).workers[1..] == Start(n - 1).workers;
    }
  }

  /** The invariant holds in every state a pool of any size can reach. */
  lemma {:induction false} RunsKeepInv(p: Pool, steps: seq<Step>, r: Pool)
    requires Inv(p) && Run(p, steps, r)
    ensures Inv(r) && |r.workers| == |p.workers|
    decreases |steps|
  {
    if steps != [] {
      StepKeepsWorkers(p, steps[0]);
      StepHandsOut(p, steps[0]);
      StepAttends(p, steps[0]);
      RunsKeepInv(Next(p, steps[0]), steps[1..], r);
    }
  }

  // ----- what follows -----------------------------------------------------------

  /** No lost wakeup: before shutdown, with all workers asleep and no signal due,
      the queue is empty. */
  lemma {:induction false} NoLostWakeup(n: nat, steps: seq<Step>, r: Pool)
    requires n > 0 && Run(Start(n), steps, r)
    requires r.flag && !r.main.SignalDue? && forall i | 0 <= i < |r.workers| :: r.workers[i].Asleep?
    ensures r.queue == []
  {
    StartInv(n);
    RunsKeepInv(Start(n), steps, r);
    NobodyLooks(r.workers, 0);
    assert r.workers[0].Asleep?;
  }

  /** Tasks leave the queue in the order they came, no worker ever takes from an
      empty queue, and what has left it is executed or in the hands of one
      worker. */
  lemma {:induction false} ExactlyOnceInOrder(n: nat, steps: seq<Step>, r: Pool)
    requires Run(Start(n), steps, r)
    ensures r.enqueued == r.dequeued + r.queue
    ensures forall t :: multiset(r.dequeued)[t] == multiset(r.executed)[t] + Holding(r.workers, t)
    ensures forall i | 0 <= i < |r.workers| :: !r.workers[i].Crashed?
  {
    StartInv(n);
    RunsKeepInv(Start(n), steps, r);
    forall i | 0 <= i < |r.workers| ensures !r.workers[i].Crashed? {
      assert WorkerOk(r, i);
    }
    forall t ensures multiset(r.dequeued)[t] == multiset(r.executed)[t] + Holding(r.workers, t) {
      assert Accounted(r, t);
    }
  }

  /** Once the joins have returned, every task there ever was has been executed. */
  lemma {:induction false} StoppedMeansDone(n: nat, steps: seq<Step>, r: Pool)
    requires Run(Start(n), steps, r) && r.main.Stopped?
    ensures r.queue == [] && multiset(r.executed) == multiset(r.enqueued)
  {
    StartInv(n);
    RunsKeepInv(Start(n), steps, r);
    forall i | 0 <= i < |r.workers| ensures r.workers[i].Exited? {
      assert WorkerOk(r, i);
    }
    forall t ensures multiset(r.executed)[t] == multiset(r.enqueued)[t] {
      assert Accounted(r, t);
      NobodyLooks(r.workers, t);
      assert r.dequeued + [] == r.dequeued;
    }
  }

  // ----- shutdown ---------------------------------------------------------------

  /** No spurious wakeups: after the broadcast nobody signals any more. */
  predicate Quiet(steps: seq<Step>) {
    forall s | s in steps :: !s.WakeUp?
  }

  predicate Waits(w: Worker) {
    w.Committed? || w.Asleep?
  }

  predicate NobodyWaits(ws: seq<Worker>) {
    forall i | 0 <= i < |ws| :: !Waits(ws[i])
  }

  /** Steps a worker has left once the flag is down. */
  function StepsLeft(w: Worker): nat {
    if w.Running? then 4 else if w.AtLock? then 3 else if w.Checking? then 2 else if w.Passed? then 1 else 0
  }

  function AllStepsLeft(ws: seq<Worker>): nat {
    if ws == [] then 0 else StepsLeft(ws[0]) + AllStepsLeft(ws[1..])
  }

  lemma {:induction false} OneStepLess(ws: seq<Worker>, w: nat, pc: Worker)
    requires w < |ws|
    ensures AllStepsLeft(ws[w := pc]) + StepsLeft(ws[w]) == AllStepsLeft(ws) + StepsLeft(pc)
  {
    if w == 0 {
      assert ws[0 := pc][1..] == ws[1..];
    } else {
      OneStepLess(ws[1..], w - 1, pc);
      assert ws[w := pc][1..] == ws[1..][w - 1 := pc];
    }
  }

  /** With the flag down a worker's step brings it nearer to its end, and nobody
      begins to wait. */
  lemma {:induction false} StepTowardsExit(p: Pool, s: Step)
    requires WorkersOk(p) && p.main.Joining? && NobodyWaits(p.workers) && Enabled(p, s) && !s.WakeUp?
    ensures NobodyWaits(Next(p, s).workers) && WorkersOk(Next(p, s))
    ensures if s.JoinAll? then Next(p, s).main.Stopped?
            else Next(p, s).main.Joining? && AllStepsLeft(Next(p, s).workers) < AllStepsLeft(p.workers)
  {
    StepKeepsWorkers(p, s);
    if !s.JoinAll? {
      assert WorkerOk(p, s.w);
      OneStepLess(p.workers, s.w, Next(p, s).workers[s.w]);
    }
  }

  /** Somebody can go on, or the join returns. */
  lemma {:induction false} SomeStep(p: Pool) returns (s: Step)
    requires WorkersOk(p) && p.main.Joining? && NobodyWaits(p.workers)
    ensures Enabled(p, s) && !s.WakeUp?
  {
    if w: nat :| w < |p.workers| && Inside(p.workers[w]) {
      s := if p.workers[w].Checking? then Check(w) else Take(w);
    } else if w: nat :| w < |p.workers| && !p.workers[w].Exited? {
      assert WorkerOk(p, w);
      s := if p.workers[w].Running? then Execute(w) else Lock(w);
    } else {
      s := JoinAll;
    }
  }

  lemma {:induction false} ShutdownRun(p: Pool) returns (steps: seq<Step>, r: Pool)
    requires WorkersOk(p) && p.main.Joining? && NobodyWaits(p.workers)
    ensures Run(p, steps, r) && Quiet(steps) && r.main.Stopped?
    decreases AllStepsLeft(p.workers)
  {
    var s := SomeStep(p);
    StepTowardsExit(p, s);
    var n := Next(p, s);
    if s.JoinAll? {
      steps, r := [], n;
      assert Run(n, steps, r);
    } else {
      steps, r := ShutdownRun(n);
    }
    var whole := [s] + steps;
    assert whole[1..] == steps;
    steps := whole;
  }

  /** A worker that waits at the broadcast's back is never woken. */
  lemma {:induction false} WaitsForEver(p: Pool, w: nat, steps: seq<Step>, r: Pool)
    requires p.main.Joining? && w < |p.workers| && Waits(p.workers[w]) && Quiet(steps) && Run(p, steps, r)
    ensures r.main.Joining? && w < |r.workers| && Waits(r.workers[w])
    decreases |steps|
  {
    if steps != [] {
      assert steps[0] in steps && forall s | s in steps[1..] :: s in steps;
      WaitsForEver(Next(p, steps[0]), w, steps[1..], r);
    }
  }

  /** Every quiet run from the broadcast on is short. */
  lemma {:induction false} ShutdownIsBounded(p: Pool, steps: seq<Step>, r: Pool)
    requires WorkersOk(p) && p.main.Joining? && NobodyWaits(p.workers) && Quiet(steps) && Run(p, steps, r)
    ensures |steps| <= AllStepsLeft(p.workers) + 1
    decreases |steps|
  {
    if steps != [] {
      assert steps[0] in steps && forall s | s in steps[1..] :: s in steps;
      StepTowardsExit(p, steps[0]);
      var n := Next(p, steps[0]);
      if n.main.Joining? {
        ShutdownIsBounded(n, steps[1..], r);
      } else {
        AfterStop(n, steps[1..], r);
      }
    }
  }

  lemma {:induction false} AfterStop(p: Pool, steps: seq<Step>, r: Pool)
    requires WorkersOk(p) && p.main.Stopped? && Run(p, steps, r)
    ensures steps == []
  {
    if steps != [] {
      forall i | 0 <= i < |p.workers| ensures p.workers[i].Exited? {
        assert WorkerOk(p, i);
      }
    }
  }

  lemma {:induction false} AfterBroadcast(p: Pool)
    requires WorkersOk(p) && p.main.FlagDown?
    ensures WorkersOk(Next(p, Broadcast)) && |Next(p, Broadcast).workers| == |p.workers|
    ensures forall i | 0 <= i < |p.workers| ::
              Next(p, Broadcast).workers[i] == if p.workers[i].Asleep? then AtLock else p.workers[i]
  {
    StepKeepsWorkers(p, Broadcast);
    forall i | 0 <= i < |p.workers|
      ensures Next(p, Broadcast).workers[i] == if p.workers[i].Asleep? then AtLock else p.workers[i]
    {
      AllWokenAt(p.workers, i);
    }
  }

  lemma {:induction false} InvWorkers(p: Pool)
    requires Inv(p)
    ensures WorkersOk(p)
  {
  }

  lemma {:induction false} BroadcastJoins(p: Pool) returns (b: Pool)
    requires p.main.FlagDown?
    ensures Enabled(p, Broadcast) && b == Next(p, Broadcast) && b.main.Joining?
  {
    b := Next(p, Broadcast);
  }

  /** The shutdown can end, without luck, exactly when no worker is between its
      decision to wait and its waiting at the moment of the broadcast. */
  lemma {:induction false} ShutdownEndsExactly(n: nat, before: seq<Step>, p: Pool)
    requires Run(Start(n), before, p) && p.main.FlagDown?
    ensures (exists steps, r :: Quiet(steps) && Run(Next(p, Broadcast), steps, r) && r.main.Stopped?)
            <==> forall i | 0 <= i < |p.workers| :: !p.workers[i].Committed?
  {
    hide Inv, HandedOut, Attended, Start, Run, Next;
    StartInv(n);
    RunsKeepInv(Start(n), before, p);
    InvWorkers(p);
    AfterBroadcast(p);
    var b := BroadcastJoins(p);
    if w: nat :| w < |p.workers| && p.workers[w].Committed? {
      forall steps, r | Quiet(steps) && Run(b, steps, r) ensures !r.main.Stopped? {
        WaitsForEver(b, w, steps, r);
      }
    } else {
      var steps, r := ShutdownRun(b);
    }
  }

  /** And then it does end: whatever the workers do, after a bounded number of
      steps nothing but the return of the joins is left. */
  lemma {:induction false} ShutdownDoesEnd(n: nat, before: seq<Step>, p: Pool, steps: seq<Step>, r: Pool)
    requires Run(Start(n), before, p) && p.main.FlagDown? && forall i | 0 <= i < |p.workers| :: !p.workers[i].Committed?
    requires Quiet(steps) && Run(Next(p, Broadcast), steps, r)
    ensures |steps| <= 4 * n + 1
    ensures !r.main.Stopped? ==> exists s :: Enabled(r, s) && !s.WakeUp?
  {
    StartInv(n);
    RunsKeepInv(Start(n), before, p);
    AfterBroadcast(p);
    var b := Next(p, Broadcast);
    ShutdownIsBounded(b, steps, r);
    FourEach(b.workers);
    StaysOnItsWay(b, steps, r);
    if !r.main.Stopped? {
      var s := SomeStep(r);
    }
  }

  lemma {:induction false} FourEach(ws: seq<Worker>)
    ensures AllStepsLeft(ws) <= 4 * |ws|
  {
    if ws != [] {
      FourEach(ws[1..]);
    }
  }

  lemma {:induction false} StaysOnItsWay(p: Pool, steps: seq<Step>, r: Pool)
    requires WorkersOk(p) && p.main.Joining? && NobodyWaits(p.workers) && Quiet(steps) && Run(p, steps, r)
    ensures WorkersOk(r) && NobodyWaits(r.workers) && (r.main.Joining? || r.main.Stopped?)
    decreases |steps|
  {
    if steps != [] {
      assert steps[0] in steps && forall s | s in steps[1..] :: s in steps;
      StepTowardsExit(p, steps[0]);
      var n := Next(p, steps[0]);
      if n.main.Joining? {
        StaysOnItsWay(n, steps[1..], r);
      } else {
        AfterStop(n, steps[1..], r);
      }
    }
  }

  /** One worker, who has just found the queue empty. */
  lemma {:induction false} CaughtDeciding() returns (p: Pool)
    ensures Run(Start(1), [Lock(0), Check(0), BeginStop, SeeEmpty, LowerFlag], p)
    ensures p.main.FlagDown? && p.workers == [Committed]
  {
    var p0, p1, p2 := Deciding();
    var p3 := p2.(main := Draining);
    var p4 := p2.(main := SawEmpty);
    p := p2.(main := FlagDown, flag := false);
    assert Next(p2, BeginStop) == p3 && Next(p3, SeeEmpty) == p4 && Next(p4, LowerFlag) == p;
    hide Run, Next;
    OneStepRun(p4, LowerFlag);
    RunFrom(p3, SeeEmpty, [LowerFlag], [SeeEmpty, LowerFlag], p);
    RunFrom(p2, BeginStop, [SeeEmpty, LowerFlag], [BeginStop, SeeEmpty, LowerFlag], p);
    RunFrom(p1, Check(0), [BeginStop, SeeEmpty, LowerFlag], [Check(0), BeginStop, SeeEmpty, LowerFlag], p);
    RunFrom(p0, Lock(0), [Check(0), BeginStop, SeeEmpty, LowerFlag],
            [Lock(0), Check(0), BeginStop, SeeEmpty, LowerFlag], p);
  }

  lemma {:induction false} Deciding() returns (p0: Pool, p1: Pool, p2: Pool)
    ensures p0 == Start(1) && Enabled(p0, Lock(0)) && p1 == Next(p0, Lock(0))
    ensures Enabled(p1, Check(0)) && p2 == Next(p1, Check(0))
    ensures p2 == Pool([], true, [Committed], Serving, [], [], [])
  {
    p0 := Start(1);
    p1 := Next(p0, Lock(0));
    p2 := Next(p1, Check(0));
    assert p2.workers == [Committed];
  }

  lemma {:induction false} OneStepRun(p: Pool, s: Step)
    requires Enabled(p, s)
    ensures Run(p, [s], Next(p, s))
  {
    hide Enabled, Next;
    assert [s][1..] == [];
    assert Run(Next(p, s), [], Next(p, s));
  }

  lemma {:induction false} RunFrom(p: Pool, s: Step, rest: seq<Step>, steps: seq<Step>, r: Pool)
    requires Enabled(p, s) && Run(Next(p, s), rest, r) && steps == [s] + rest
    ensures Run(p, steps, r)
  {
    hide Enabled, Next;
    assert steps[1..] == rest;
  }

  /** That is enough for the shutdown to hang. */
  lemma {:induction false} ShutdownCanHang() returns (p: Pool)
    ensures Run(Start(1), [Lock(0), Check(0), BeginStop, SeeEmpty, LowerFlag], p) && p.main.FlagDown?
    ensures forall steps, r | Quiet(steps) && Run(Next(p, Broadcast), steps, r) :: !r.main.Stopped?
  {
    p := CaughtDeciding();
    assert p.workers[0].Committed?;
    ShutdownEndsExactly(1, [Lock(0), Check(0), BeginStop, SeeEmpty, LowerFlag], p);
  }
}
