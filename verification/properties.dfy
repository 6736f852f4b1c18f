/** Properties of single transitions of the pool that follow from the
    invariant: the registry lookup in the worker never misses, dispatch takes
    the oldest submit, workers exit only on a drained pool, and every task the
    pool receives is deleted exactly once. */
module Properties {
  import opened Errors
  import opened PoolState
  import opened ThreadPool
  import opened Invariant

  /** The `operator[]` lookup a worker performs on the name it popped always
      finds the registered record, so it never yields the null pointer whose
      dereference would be undefined behaviour: the worker ends up running a
      non-null task and the registry keeps its keys. */
  lemma TakeLookupHits(p: Pool, w: int)
    requires Inv(p)
    requires CanTake(p, w) && !(p.stopping && p.queue == [])
    ensures p.queue[0] in p.tasks
    ensures Subscript(p.tasks, p.queue[0]) == Info(p.tasks[p.queue[0]])
    ensures WorkerTake(p, w).workers[w].Busy?
    ensures WorkerTake(p, w).tasks.Keys == p.tasks.Keys
    ensures WorkerTake(p, w).workers[w].task != NullPtr
  {
    assert p.tasks[p.queue[0]].task in TaskIds(p.tasks);
  }

  /** A worker that takes work takes the oldest accepted submit that has not
      been dispatched yet, and that name leaves the queue for good: its record
      is started, so it cannot be queued again while it stays registered. */
  lemma TakeDispatchesOldest(p: Pool, w: int)
    requires Inv(p)
    requires CanTake(p, w) && !(p.stopping && p.queue == [])
    ensures |p.taken| < |p.log|
    ensures WorkerTake(p, w).workers[w].name == p.log[|p.taken|]
    ensures p.queue[0] !in WorkerTake(p, w).queue
  {
    var r := WorkerTake(p, w);
    TakePreserves(p, w);
    assert p.log[|p.taken|] == p.queue[0];
    assert r.tasks[p.queue[0]].started;
  }

  /** While anything is queued no worker can exit, even on a stopping pool:
      the queue is drained before any worker leaves. A corollary of the
      contract of `WorkerTake`, stated on its own as the promise of `Stop`. */
  lemma NoExitWhileQueued(p: Pool, w: int)
    requires CanTake(p, w) && p.queue != []
    ensures !WorkerTake(p, w).workers[w].Exited?
    ensures |WorkerTake(p, w).queue| == |p.queue| - 1
  {
  }

  /** `Stop` is idempotent: a second call changes nothing. A corollary of the
      contract of `Stop`. */
  lemma StopIdempotent(p: Pool)
    ensures Stop(Stop(p)) == Stop(p)
    ensures Stop(p).stopping
  {
  }

  /** Once stopping, a non-null submit changes no state: no record, no queue
      entry, and the pool does not take the task. */
  lemma SubmitAfterStopIgnored(p: Pool, name: Name, task: TaskId)
    requires Inv(p) && CallerOwns(p, task)
    ensures Submit(Stop(p), name, task) == Reply(Stop(p), Pass)
    ensures task !in Submit(Stop(p), name, task).pool.owned + ReleasedSet(Submit(Stop(p), name, task).pool)
  {
    assert ReleasedSet(Stop(p)) == ReleasedSet(p);
  }

  /** A task rejected for a duplicate name is deleted exactly once and never
      owned by the pool. */
  lemma DuplicateReleasedOnce(p: Pool, name: Name, task: TaskId)
    requires Inv(p)
    requires CallerOwns(p, task) && !p.stopping && name in p.tasks
    ensures Submit(p, name, task).outcome == Fail(DuplicateTaskName)
    ensures Submit(p, name, task).pool.released[task] == 1
    ensures task !in Submit(p, name, task).pool.owned
  {
    assert task !in ReleasedSet(p);
  }

  /** A completed wait erases the record, so a second wait on the same name
      fails with `UnknownTaskName`, and the task is deleted exactly once. */
  lemma SecondWaitFails(p: Pool, name: Name)
    requires Inv(p)
    requires name in p.tasks && p.tasks[name].waited && p.tasks[name].finished
    ensures var r := WaitComplete(p, name);
      && WaitBegin(r, name).outcome == Fail(UnknownTaskName)
      && WaitBegin(r, name).pool == r
      && r.released[p.tasks[name].task] == 1
      && p.tasks[name].task !in r.owned
  {
    var t := p.tasks[name].task;
    assert t in p.owned;
    assert t !in ReleasedSet(p);
    assert t !in WaitComplete(p, name).owned;
  }

  /** When every worker has exited the queue is empty and every registered
      record has finished: the destructor discards no task that was never
      run, because its `Stop` drains the queue first. */
  lemma ExitedMeansAllFinished(p: Pool)
    requires Inv(p) && AllExited(p)
    ensures p.queue == []
    ensures forall n | n in p.tasks :: p.tasks[n].started && p.tasks[n].finished
  {
    assert p.workers[0].Exited?;
    assert Running(p) == {};
    forall n | n in p.tasks ensures p.tasks[n].started && p.tasks[n].finished {
      assert n !in p.queue;
    }
  }

  /** After teardown the pool owns nothing, and every task it ever received
      has been deleted exactly once. */
  lemma TeardownReleasesEverything(p: Pool, order: seq<Name>)
    requires Inv(p) && p.stopping && AllExited(p) && Enumerates(order, p.tasks)
    ensures Teardown(p, order).owned == {}
    ensures ReleasedSet(Teardown(p, order)) == p.received
    ensures forall t | t in Teardown(p, order).released :: Teardown(p, order).released[t] == 1
  {
    TeardownPreserves(p, order);
  }
}
