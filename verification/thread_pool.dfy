/** The operations of `ThreadPool`, one pure function per critical section.
    Blocking on a condition variable becomes an enabling precondition: a
    transition that would wait is simply not yet enabled. Thread creation,
    `join`, notifications and the task's own `Run` are not part of the state. */
module ThreadPool {
  import opened Errors
  import opened PoolState

  /** The pool after an operation, with what the caller observes. */
  datatype Reply = Reply(pool: Pool, outcome: Outcome)

  /** The constructor: rejects a non-positive thread count, otherwise starts
      `numThreads` workers on an empty, running pool. */
  function Create(numThreads: int): (r: Result<Pool>)
    ensures r.Err? <==> numThreads <= 0
    ensures r.Err? ==> r.error == InvalidConfiguration
    ensures r.Ok? ==>
      && |r.value.workers| == numThreads
      && (forall w | 0 <= w < numThreads :: r.value.workers[w] == Idle)
      && !r.value.stopping && r.value.queue == [] && r.value.tasks == map[]
      && r.value.owned == {} && r.value.released == multiset{}
  {
    if numThreads <= 0 then Err(InvalidConfiguration) else Ok(Initial(numThreads))
  }

  /** `SubmitTask`. The null check happens before the lock is taken; a
      stopping pool ignores the call and leaves the task with the caller; a
      live duplicate name makes the pool delete the task and throw; otherwise
      a queued record is registered and the name appended to the queue. */
  function Submit(p: Pool, name: Name, task: TaskId): (r: Reply)
    requires task != NullPtr ==> CallerOwns(p, task)
    ensures task == NullPtr ==> r == Reply(p, Fail(NullTask))
    ensures task != NullPtr && p.stopping ==> r == Reply(p, Pass)
    ensures task != NullPtr && !p.stopping && name in p.tasks ==>
      && r.outcome == Fail(DuplicateTaskName)
      && r.pool.tasks == p.tasks && r.pool.queue == p.queue
      && r.pool.owned == p.owned
      && r.pool.released == p.released + multiset{task}
      && r.pool.received == p.received + {task}
      && r.pool.log == p.log
    ensures task != NullPtr && !p.stopping && name !in p.tasks ==>
      && r.outcome == Pass
      && r.pool.tasks.Keys == p.tasks.Keys + {name}
      && r.pool.tasks[name] == NewTaskInfo(task)
      && (forall n | n in p.tasks :: r.pool.tasks[n] == p.tasks[n])
      && r.pool.queue == p.queue + [name]
      && r.pool.log == p.log + [name]
      && r.pool.owned == p.owned + {task}
      && r.pool.received == p.received + {task}
      && r.pool.released == p.released
    ensures r.pool.stopping == p.stopping && r.pool.workers == p.workers
    ensures r.pool.taken == p.taken
  {
    if task == NullPtr then
      Reply(p, Fail(NullTask))
    else if p.stopping then
      Reply(p, Pass)
    else if name in p.tasks then
      Reply(p.(released := p.released + multiset{task}, received := p.received + {task}),
            Fail(DuplicateTaskName))
    else
      Reply(p.(tasks := p.tasks[name := NewTaskInfo(task)],
               queue := p.queue + [name],
               owned := p.owned + {task},
               received := p.received + {task},
               log := p.log + [name]),
            Pass)
  }

  /** What `tasks_[name]` yields: the registry maps names to
      `shared_ptr<TaskInfo>`, so the value is either a pointer to a record or
      the null `shared_ptr` that `operator[]` stores on a miss. */
  datatype Slot = NullInfo | Info(info: TaskInfo)

  /** `tasks_[name]` with `operator[]`: a hit returns the stored record and
      leaves the map alone; a miss yields a null pointer. The null entry it
      inserts is not kept, because the very next statement dereferences it. */
  function Subscript(m: map<Name, TaskInfo>, k: Name): (r: Slot)
    ensures r.Info? <==> k in m
    ensures r.Info? ==> r.info == m[k]
  {
    if k in m then Info(m[k]) else NullInfo
  }

  /** A worker may leave its wait on `cv_queue_` once the pool is stopping or
      the queue is non-empty. */
  predicate CanTake(p: Pool, w: int)
  {
    0 <= w < |p.workers| && p.workers[w] == Idle && (p.stopping || p.queue != [])
  }

  /** The first critical section of `WorkerLoop`: exit when stopping with an
      empty queue, otherwise pop the front name, look its record up and mark it
      started. Had the lookup missed, `info->started = true` would dereference
      a null pointer; the worker is then `Faulted` and the registry is left as
      it was. */
  function WorkerTake(p: Pool, w: int): (r: Pool)
    requires CanTake(p, w)
    ensures |r.workers| == |p.workers|
    ensures forall v | 0 <= v < |p.workers| && v != w :: r.workers[v] == p.workers[v]
    ensures r.workers[w].Exited? <==> p.stopping && p.queue == []
    ensures r.workers[w].Exited? ==> r == p.(workers := r.workers)
    ensures !r.workers[w].Exited? ==>
      && r.queue == p.queue[1..]
      && r.taken == p.taken + [p.queue[0]]
    ensures p.queue != [] && p.queue[0] !in p.tasks ==>
      r.workers[w] == Faulted(p.queue[0]) && r.tasks == p.tasks
    ensures p.queue != [] && p.queue[0] in p.tasks ==>
      && r.workers[w] == Busy(p.queue[0], p.tasks[p.queue[0]].task)
      && r.tasks.Keys == p.tasks.Keys
      && r.tasks[p.queue[0]] == p.tasks[p.queue[0]].(started := true)
      && (forall n | n in p.tasks && n != p.queue[0] :: r.tasks[n] == p.tasks[n])
    ensures r.stopping == p.stopping && r.log == p.log
    ensures r.owned == p.owned && r.received == p.received && r.released == p.released
  {
    if p.stopping && p.queue == [] then
      p.(workers := p.workers[w := Exited])
    else
      var name := p.queue[0];
      match Subscript(p.tasks, name)
      case NullInfo =>
        p.(queue := p.queue[1..],
           workers := p.workers[w := Faulted(name)],
           taken := p.taken + [name])
      case Info(info) =>
        p.(queue := p.queue[1..],
           tasks := p.tasks[name := info.(started := true)],
           workers := p.workers[w := Busy(name, info.task)],
           taken := p.taken + [name])
  }

  /** The second critical section of `WorkerLoop`, after `Run` returned or
      threw: set `finished` on the record the worker holds. The worker writes
      through its own pointer, so the registry changes only if the record
      stored under the name is still that one. */
  function WorkerFinish(p: Pool, w: int): (r: Pool)
    requires 0 <= w < |p.workers| && p.workers[w].Busy?
    ensures r.workers == p.workers[w := Idle]
    ensures var n := p.workers[w].name;
      n in p.tasks && p.tasks[n].task == p.workers[w].task ==>
        r.tasks == p.tasks[n := p.tasks[n].(finished := true)]
    ensures var n := p.workers[w].name;
      !(n in p.tasks && p.tasks[n].task == p.workers[w].task) ==> r.tasks == p.tasks
    ensures r.tasks.Keys == p.tasks.Keys
    ensures r == p.(tasks := r.tasks, workers := r.workers)
  {
    var n := p.workers[w].name;
    var tasks' :=
      if n in p.tasks && p.tasks[n].task == p.workers[w].task
      then p.tasks[n := p.tasks[n].(finished := true)]
      else p.tasks;
    p.(tasks := tasks', workers := p.workers[w := Idle])
  }

  /** The part of `WaitForTask` before it blocks: look the name up, fail on a
      miss, otherwise mark the record as waited on. The caller contract allows
      one waiter per submitted task. */
  function WaitBegin(p: Pool, name: Name): (r: Reply)
    requires name in p.tasks ==> !p.tasks[name].waited
    ensures r.outcome == Fail(UnknownTaskName) <==> name !in p.tasks
    ensures r.outcome.Pass? <==> name in p.tasks
    ensures name !in p.tasks ==> r.pool == p
    ensures name in p.tasks ==>
      && r.pool.tasks.Keys == p.tasks.Keys
      && r.pool.tasks[name] == p.tasks[name].(waited := true)
      && (forall n | n in p.tasks && n != name :: r.pool.tasks[n] == p.tasks[n])
      && r.pool == p.(tasks := r.pool.tasks)
  {
    if name !in p.tasks then
      Reply(p, Fail(UnknownTaskName))
    else
      Reply(p.(tasks := p.tasks[name := p.tasks[name].(waited := true)]), Pass)
  }

  /** The part of `WaitForTask` after `info->cv` reports `finished`: erase the
      record and delete its task. */
  function WaitComplete(p: Pool, name: Name): (r: Pool)
    requires name in p.tasks && p.tasks[name].waited && p.tasks[name].finished
    ensures r.tasks.Keys == p.tasks.Keys - {name}
    ensures forall n | n in r.tasks :: r.tasks[n] == p.tasks[n]
    ensures r.owned == p.owned - {p.tasks[name].task}
    ensures r.released == p.released + multiset{p.tasks[name].task}
    ensures r == p.(tasks := r.tasks, owned := r.owned, released := r.released)
  {
    var t := p.tasks[name].task;
    p.(tasks := p.tasks - {name}, owned := p.owned - {t}, released := p.released + multiset{t})
  }

  /** The locked part of `Stop`: set `stopping_`, or return at once if it is
      already set. Waking and joining the workers is not state. */
  function Stop(p: Pool): (r: Pool)
    ensures r.stopping
    ensures p.stopping ==> r == p
    ensures r == p.(stopping := true)
  {
    if p.stopping then p else p.(stopping := true)
  }

  /** The task pointers the destructor deletes, one per record, in the
      iteration order `order`. */
  function Deletions(tasks: map<Name, TaskInfo>, order: seq<Name>): (d: seq<TaskId>)
    requires forall i | 0 <= i < |order| :: order[i] in tasks
    ensures |d| == |order|
    ensures forall i | 0 <= i < |order| :: d[i] == tasks[order[i]].task
  {
    if order == [] then [] else [tasks[order[0]].task] + Deletions(tasks, order[1..])
  }

  /** The destructor, after its implicit `Stop` has flagged and joined every
      worker: walk the registry in its iteration order `order`, delete the
      task of every record, and clear the registry. */
  function Teardown(p: Pool, order: seq<Name>): (r: Pool)
    requires p.stopping && AllExited(p)
    requires Enumerates(order, p.tasks)
    ensures r.tasks == map[]
    ensures r.owned == p.owned - TaskIds(p.tasks)
    ensures r.released == p.released + multiset(Deletions(p.tasks, order))
    ensures |r.released| == |p.released| + |order|
    ensures forall n | n in p.tasks :: r.released[p.tasks[n].task] > p.released[p.tasks[n].task]
    ensures forall t | t in r.released :: t in p.released || t in TaskIds(p.tasks)
    ensures r == p.(tasks := r.tasks, owned := r.owned, released := r.released)
  {
    var d := Deletions(p.tasks, order);
    assert forall n | n in p.tasks :: p.tasks[n].task in multiset(d) by {
      forall n | n in p.tasks ensures p.tasks[n].task in multiset(d) {
        var i :| 0 <= i < |order| && order[i] == n;
        assert d[i] == p.tasks[n].task;
      }
    }
    assert forall t | t in multiset(d) :: t in TaskIds(p.tasks) by {
      forall t | t in multiset(d) ensures t in TaskIds(p.tasks) {
        assert t in d;
        var i :| 0 <= i < |d| && d[i] == t;
        assert order[i] in p.tasks;
      }
    }
    p.(tasks := map[], owned := p.owned - TaskIds(p.tasks), released := p.released + multiset(d))
  }
}
