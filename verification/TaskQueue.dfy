/** The queue of tasks between the main thread and the workers: a linked list
    with a front and a rear, changed in the critical sections of a monitor. */
module TaskQueues {
  import WorkerPool

  class Task {
    const peerfd: nat
    const kind: int
    const data: seq<int>
    var pNext: Task?
    /** The task in the steps of the pool. */
    ghost const id: WorkerPool.TaskId

    constructor (peerfd: nat, kind: int, data: seq<int>, ghost id: WorkerPool.TaskId)
      ensures this.peerfd == peerfd && this.kind == kind && this.data == data && this.id == id
    {
      this.peerfd, this.kind, this.data, this.id, pNext := peerfd, kind, data, id, null;
    }
  }

  ghost function Ids(tasks: seq<Task>): (ids: seq<WorkerPool.TaskId>)
    ensures |ids| == |tasks| && forall k | 0 <= k < |tasks| :: ids[k] == tasks[k].id
  {
    if tasks == [] then [] else [tasks[0].id] + Ids(tasks[1..])
  }

  lemma {:induction false} IdsParts(tasks: seq<Task>, task: Task)
    ensures Ids(tasks + [task]) == Ids(tasks) + [task.id]
    ensures tasks != [] ==> Ids(tasks)[1..] == Ids(tasks[1..])
  {
    assert forall k | 0 <= k < |tasks| :: (tasks + [task])[k] == tasks[k];
  }

  /** What taking does to a pool that shows the queue. */
  lemma {:induction false} TakenInPool(ids: seq<WorkerPool.TaskId>, flag: bool)
    requires flag ==> ids != []
    ensures forall p: WorkerPool.Pool, w: nat
              | p.queue == ids && p.flag == flag && WorkerPool.Enabled(p, WorkerPool.Take(w)) ::
              var n := WorkerPool.Next(p, WorkerPool.Take(w));
              && n.flag == flag && n.queue == (if flag then ids[1..] else ids) && w < |n.workers|
              && n.workers[w] == if flag then WorkerPool.Running(ids[0]) else WorkerPool.Exited
  {
  }

  class TaskQueue {
    var pFront: Task?
    var pRear: Task?
    var queSize: nat
    var flag: bool

    /** The tasks from front to rear. */
    ghost var tasks: seq<Task>

    ghost predicate Valid()
      reads this, tasks
    {
      && queSize == |tasks|
      && (forall j, k | 0 <= j < k < |tasks| :: tasks[j] != tasks[k])
      && (tasks == [] ==> pFront == null && pRear == null)
      && (tasks != [] ==> pFront == tasks[0] && pRear == tasks[|tasks| - 1])
      && (forall k | 0 <= k < |tasks| - 1 :: tasks[k].pNext == tasks[k + 1])
    }

    constructor ()
      ensures Valid() && tasks == [] && flag
    {
      pFront, pRear, queSize, flag, tasks := null, null, 0, true, [];
    }

    /** The queue is that of the pool `p`. */
    ghost predicate Shows(p: WorkerPool.Pool)
      reads this
    {
      p.queue == Ids(tasks) && p.flag == flag
    }

    predicate IsEmpty()
      reads this
    {
      queSize == 0
    }

    /** The critical section of `taskEnque`. */
    method Append(task: Task)
      requires Valid() && task !in tasks
      modifies this, tasks
      ensures Valid() && tasks == old(tasks) + [task] && flag == old(flag)
      ensures forall p | old(Shows(p)) && WorkerPool.Enabled(p, WorkerPool.Enqueue(task.id)) ::
                Shows(WorkerPool.Next(p, WorkerPool.Enqueue(task.id)))
    {
      IdsParts(tasks, task);
      if IsEmpty() {
        pFront, pRear := task, task;
      } else {
        pRear.pNext := task;
        pRear := task;
      }
      queSize := queSize + 1;
      tasks := tasks + [task];
    }

    /** The critical section of `taskDeque` behind its waiting loop, which lets
        nobody through who finds the queue empty and the flag up. */
    method TakeFirst() returns (task: Task?)
      requires Valid() && (flag ==> !IsEmpty())
      modifies this
      ensures Valid() && flag == old(flag)
      ensures if flag then tasks != old(tasks) && [task] + tasks == old(tasks) else task == null && tasks == old(tasks)
      ensures forall p, w: nat | old(Shows(p)) && WorkerPool.Enabled(p, WorkerPool.Take(w)) ::
                var n := WorkerPool.Next(p, WorkerPool.Take(w));
                Shows(n) && n.workers[w] == if task == null then WorkerPool.Exited else WorkerPool.Running(task.id)
    {
      hide WorkerPool.Next, WorkerPool.Enabled;
      TakenInPool(Ids(tasks), flag);
      if flag {
        IdsParts(tasks, tasks[0]);
        task := pFront;
        if queSize == 1 {
          pFront, pRear := null, null;
        } else {
          pFront := pFront.pNext;
        }
        queSize := queSize - 1;
        tasks := tasks[1..];
      } else {
        task := null;
      }
    }

    method LowerFlag()
      requires Valid()
      modifies this`flag
      ensures Valid() && !flag
      ensures forall p | old(Shows(p)) && WorkerPool.Enabled(p, WorkerPool.LowerFlag) ::
                Shows(WorkerPool.Next(p, WorkerPool.LowerFlag))
    {
      flag := false;
    }
  }
}
