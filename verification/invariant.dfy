/** The inductive invariant of the pool's bookkeeping, and one lemma per
    transition showing that the transition preserves it. */
module Invariant {
  import opened Errors
  import opened PoolState
  import opened ThreadPool

  /** A name is queued exactly when it is registered and not yet started. */
  ghost predicate QueueIsUnstarted(p: Pool)
  {
    && (forall i | 0 <= i < |p.queue| :: p.queue[i] in p.tasks && !p.tasks[p.queue[i]].started)
    && (forall n | n in p.tasks && !p.tasks[n].started :: n in p.queue)
  }

  ghost predicate NoDuplicates(q: seq<Name>)
  {
    forall i, j | 0 <= i < j < |q| :: q[i] != q[j]
  }

  /** A record only finishes after it has started. */
  ghost predicate FlagsOrdered(p: Pool)
  {
    forall n | n in p.tasks :: p.tasks[n].finished ==> p.tasks[n].started
  }

  /** A busy worker holds a registered, started, unfinished record, and the
      pointer it holds is the one stored in the registry. */
  ghost predicate BusyConsistent(p: Pool)
  {
    forall w | 0 <= w < |p.workers| && p.workers[w].Busy? ::
      && p.workers[w].name in p.tasks
      && p.tasks[p.workers[w].name].task == p.workers[w].task
      && p.tasks[p.workers[w].name].started
      && !p.tasks[p.workers[w].name].finished
  }

  /** No two workers run the same name. */
  ghost predicate BusyDistinct(p: Pool)
  {
    forall v, w | 0 <= v < |p.workers| && 0 <= w < |p.workers| && p.workers[v].Busy? && p.workers[w].Busy? ::
      p.workers[v].name == p.workers[w].name ==> v == w
  }

  /** Every started, unfinished record is being run by some worker. */
  ghost predicate RunningCovered(p: Pool)
  {
    forall n | n in p.tasks && p.tasks[n].started && !p.tasks[n].finished :: n in Running(p)
  }

  /** A worker has exited only once the pool is stopping and drained. */
  ghost predicate ExitedDrained(p: Pool)
  {
    forall w | 0 <= w < |p.workers| && p.workers[w].Exited? :: p.stopping && p.queue == []
  }

  /** No worker has dereferenced a null registry entry. */
  ghost predicate NoneFaulted(p: Pool)
  {
    forall w | 0 <= w < |p.workers| :: !p.workers[w].Faulted?
  }

  /** Each registered record owns a distinct non-null task; the pool owns
      exactly those; every task ever handed over is owned or deleted but not
      both, and none is deleted twice. */
  ghost predicate Ownership(p: Pool)
  {
    && p.owned == TaskIds(p.tasks)
    && (forall m, n | m in p.tasks && n in p.tasks :: p.tasks[m].task == p.tasks[n].task ==> m == n)
    && NullPtr !in p.received
    && p.received == p.owned + ReleasedSet(p)
    && p.owned !! ReleasedSet(p)
    && (forall t | t in p.released :: p.released[t] == 1)
  }

  /** Dispatch order: the names handed out so far followed by the queue are
      the accepted submits in order. */
  ghost predicate History(p: Pool)
  {
    p.log == p.taken + p.queue
  }

  ghost predicate Inv(p: Pool)
  {
    && |p.workers| > 0
    && QueueIsUnstarted(p)
    && NoDuplicates(p.queue)
    && FlagsOrdered(p)
    && BusyConsistent(p)
    && BusyDistinct(p)
    && RunningCovered(p)
    && ExitedDrained(p)
    && NoneFaulted(p)
    && Ownership(p)
    && History(p)
  }

  lemma CreateEstablishes(numThreads: int)
    requires Create(numThreads).Ok?
    ensures Inv(Create(numThreads).value)
  {
  }

  lemma SubmitPreserves(p: Pool, name: Name, task: TaskId)
    requires Inv(p)
    requires task != NullPtr ==> CallerOwns(p, task)
    ensures Inv(Submit(p, name, task).pool)
  {
    var r := Submit(p, name, task).pool;
    if task != NullPtr && !p.stopping {
      assert task !in ReleasedSet(p) && task !in p.owned;
      if name in p.tasks {
        assert ReleasedSet(r) == ReleasedSet(p) + {task};
      } else {
        assert name !in p.queue;
        assert TaskIds(r.tasks) == TaskIds(p.tasks) + {task};
        assert Running(r) == Running(p);
        assert r.log == r.taken + r.queue;
      }
    }
  }

  lemma TakePreserves(p: Pool, w: int)
    requires Inv(p)
    requires CanTake(p, w)
    ensures Inv(WorkerTake(p, w))
  {
    var r := WorkerTake(p, w);
    if !(p.stopping && p.queue == []) {
      var n := p.queue[0];
      var t := p.tasks[n].task;
      assert r == p.(queue := p.queue[1..], tasks := p.tasks[n := p.tasks[n].(started := true)],
                     workers := p.workers[w := Busy(n, t)], taken := p.taken + [n]);
      TakeKeepsQueue(p, n, r);
      TakeKeepsWorkers(p, w, n, r);
      assert TaskIds(r.tasks) == TaskIds(p.tasks);
    }
  }

  /** The queue half of `TakePreserves`: popping the front and starting its
      record keeps the queue equal to the unstarted records, duplicate-free,
      and in submit order. */
  lemma TakeKeepsQueue(p: Pool, n: Name, r: Pool)
    requires QueueIsUnstarted(p) && NoDuplicates(p.queue) && History(p)
    requires p.queue != [] && n == p.queue[0]
    requires r.queue == p.queue[1..] && r.tasks == p.tasks[n := p.tasks[n].(started := true)]
    requires r.log == p.log && r.taken == p.taken + [n]
    ensures QueueIsUnstarted(r) && NoDuplicates(r.queue) && History(r)
  {
    PopKeepsUnstarted(p.queue, p.tasks, r.tasks);
    PopKeepsNoDuplicates(p.queue);
    PopKeepsOrder(p.log, p.taken, p.queue);
  }

  lemma PopKeepsOrder(log: seq<Name>, taken: seq<Name>, q: seq<Name>)
    requires q != [] && log == taken + q
    ensures log == (taken + [q[0]]) + q[1..]
  {
    assert q == [q[0]] + q[1..];
  }

  lemma PopKeepsNoDuplicates(q: seq<Name>)
    requires q != [] && NoDuplicates(q)
    ensures NoDuplicates(q[1..])
  {
    forall i, j | 0 <= i < j < |q[1..]| ensures q[1..][i] != q[1..][j] {
      assert q[1..][i] == q[i + 1] && q[1..][j] == q[j + 1];
    }
  }

  /** Popping the front `q[0]` of a duplicate-free queue of exactly the
      unstarted names, and starting its record, leaves `q[1..]` as exactly the
      unstarted names. */
  lemma PopKeepsUnstarted(q: seq<Name>, tasks: map<Name, TaskInfo>, tasks': map<Name, TaskInfo>)
    requires q != [] && NoDuplicates(q)
    requires forall i | 0 <= i < |q| :: q[i] in tasks && !tasks[q[i]].started
    requires forall n | n in tasks && !tasks[n].started :: n in q
    requires tasks' == tasks[q[0] := tasks[q[0]].(started := true)]
    ensures forall i | 0 <= i < |q[1..]| :: q[1..][i] in tasks' && !tasks'[q[1..][i]].started
    ensures forall n | n in tasks' && !tasks'[n].started :: n in q[1..]
  {
    forall i | 0 <= i < |q[1..]| ensures q[1..][i] in tasks' && !tasks'[q[1..][i]].started {
      assert q[1..][i] == q[i + 1] && q[0] != q[i + 1];
    }
    forall m | m in tasks' && !tasks'[m].started ensures m in q[1..] {
      var i :| 0 <= i < |q| && q[i] == m;
      assert i > 0 && q[1..][i - 1] == m;
    }
  }

  /** The worker half of `TakePreserves`: worker `w` now runs `n`, which no
      other worker held, and no worker had exited while the queue was
      non-empty. */
  lemma TakeKeepsWorkers(p: Pool, w: int, n: Name, r: Pool)
    requires QueueIsUnstarted(p) && FlagsOrdered(p) && BusyConsistent(p) && BusyDistinct(p)
    requires RunningCovered(p) && ExitedDrained(p) && NoneFaulted(p)
    requires 0 <= w < |p.workers| && p.workers[w] == Idle
    requires p.queue != [] && n == p.queue[0]
    requires r.queue == p.queue[1..] && r.tasks == p.tasks[n := p.tasks[n].(started := true)]
    requires r.workers == p.workers[w := Busy(n, p.tasks[n].task)] && r.stopping == p.stopping
    ensures BusyConsistent(r) && BusyDistinct(r) && RunningCovered(r) && ExitedDrained(r)
    ensures NoneFaulted(r)
  {
    assert n in p.tasks && !p.tasks[n].started;
    forall v | 0 <= v < |r.workers| && r.workers[v].Busy? && v != w
      ensures r.workers[v].name != n && r.tasks[r.workers[v].name] == p.tasks[p.workers[v].name]
    {
      assert r.workers[v] == p.workers[v];
    }
    forall m | m in r.tasks && r.tasks[m].started && !r.tasks[m].finished ensures m in Running(r) {
      if m == n {
        assert r.workers[w].name == n;
      } else {
        assert m in Running(p);
        var v :| 0 <= v < |p.workers| && p.workers[v].Busy? && p.workers[v].name == m;
        assert v != w && r.workers[v] == p.workers[v];
      }
    }
  }

  lemma FinishPreserves(p: Pool, w: int)
    requires Inv(p)
    requires 0 <= w < |p.workers| && p.workers[w].Busy?
    ensures Inv(WorkerFinish(p, w))
  {
    var r := WorkerFinish(p, w);
    var n := p.workers[w].name;
    assert n in p.tasks && p.tasks[n].task == p.workers[w].task;
    forall m | m in r.tasks && r.tasks[m].started && !r.tasks[m].finished ensures m in Running(r) {
      assert m != n && m in Running(p);
      var v :| 0 <= v < |p.workers| && p.workers[v].Busy? && p.workers[v].name == m;
      assert v != w && r.workers[v] == p.workers[v];
    }
    assert TaskIds(r.tasks) == TaskIds(p.tasks);
  }

  lemma WaitBeginPreserves(p: Pool, name: Name)
    requires Inv(p)
    requires name in p.tasks ==> !p.tasks[name].waited
    ensures Inv(WaitBegin(p, name).pool)
  {
    var r := WaitBegin(p, name).pool;
    assert Running(r) == Running(p);
    assert TaskIds(r.tasks) == TaskIds(p.tasks);
  }

  lemma WaitCompletePreserves(p: Pool, name: Name)
    requires Inv(p)
    requires name in p.tasks && p.tasks[name].waited && p.tasks[name].finished
    ensures Inv(WaitComplete(p, name))
  {
    var r := WaitComplete(p, name);
    var t := p.tasks[name].task;
    assert Running(r) == Running(p);
    assert TaskIds(r.tasks) == TaskIds(p.tasks) - {t};
    assert ReleasedSet(r) == ReleasedSet(p) + {t};
  }

  lemma StopPreserves(p: Pool)
    requires Inv(p)
    ensures Inv(Stop(p))
  {
    assert Running(Stop(p)) == Running(p);
  }

  lemma TeardownPreserves(p: Pool, order: seq<Name>)
    requires Inv(p)
    requires p.stopping && AllExited(p) && Enumerates(order, p.tasks)
    ensures Inv(Teardown(p, order))
  {
    var r := Teardown(p, order);
    assert p.workers[0].Exited?;
    assert Running(r) == {};
    TeardownKeepsOwnership(p, order);
  }

  /** The ownership half of `TeardownPreserves`: every remaining record's task
      moves from owned to deleted, each exactly once. */
  lemma TeardownKeepsOwnership(p: Pool, order: seq<Name>)
    requires Ownership(p)
    requires p.stopping && AllExited(p) && Enumerates(order, p.tasks)
    ensures Ownership(Teardown(p, order))
  {
    OwnedDeletions(p, order);
    ReleaseAllOwned(p, Teardown(p, order));
  }

  lemma ReleaseAllOwned(p: Pool, r: Pool)
    requires Ownership(p)
    requires r.tasks == map[] && r.owned == {} && r.received == p.received
    requires r.released == p.released + multiset(p.owned)
    ensures Ownership(r)
  {
    ReleaseCounts(p, r.released);
    assert ReleasedSet(r) == ReleasedSet(p) + p.owned;
    assert TaskIds(r.tasks) == {};
  }

  /** Deleting the owned tasks, none of which was deleted before, keeps every
      deletion count at one. */
  lemma ReleaseCounts(p: Pool, released: multiset<TaskId>)
    requires Ownership(p)
    requires released == p.released + multiset(p.owned)
    ensures forall t | t in released :: released[t] == 1
  {
    forall t | t in released ensures released[t] == 1 {
      if t in p.owned {
        assert t !in ReleasedSet(p);
      }
    }
  }

  /** Under the ownership invariant, the destructor's per-record deletions
      are exactly the owned tasks, each once. */
  lemma OwnedDeletions(p: Pool, order: seq<Name>)
    requires Ownership(p) && Enumerates(order, p.tasks)
    ensures multiset(Deletions(p.tasks, order)) == multiset(p.owned)
  {
    DistinctDeletions(p.tasks, order);
  }

  /** When every record holds a distinct task pointer, deleting once per
      record (the destructor's loop) deletes each pointer exactly once. */
  lemma {:induction false} DistinctDeletions(tasks: map<Name, TaskInfo>, order: seq<Name>)
    requires Enumerates(order, tasks)
    requires forall m, n | m in tasks && n in tasks :: tasks[m].task == tasks[n].task ==> m == n
    ensures multiset(Deletions(tasks, order)) == multiset(TaskIds(tasks))
    decreases |order|
  {
    if order == [] {
      assert TaskIds(tasks) == {};
    } else {
      var n := order[0];
      var t := tasks[n].task;
      var rest := tasks - {n};
      EnumeratesRest(tasks, order);
      DistinctDeletions(rest, order[1..]);
      DeletionsAgree(tasks, rest, order[1..]);
      assert Deletions(tasks, order) == [t] + Deletions(rest, order[1..]);
      TaskIdsRemove(tasks, n);
      MultisetAddFresh(TaskIds(rest), t);
    }
  }

  lemma EnumeratesRest(tasks: map<Name, TaskInfo>, order: seq<Name>)
    requires order != [] && Enumerates(order, tasks)
    ensures Enumerates(order[1..], tasks - {order[0]})
  {
    forall m | m in tasks - {order[0]} ensures m in order[1..] {
      var i :| 0 <= i < |order| && order[i] == m;
      assert i != 0 && order[1..][i - 1] == m;
    }
  }

  lemma DeletionsAgree(tasks: map<Name, TaskInfo>, rest: map<Name, TaskInfo>, order: seq<Name>)
    requires forall i | 0 <= i < |order| :: order[i] in rest
    requires forall m | m in rest :: m in tasks && tasks[m] == rest[m]
    ensures Deletions(tasks, order) == Deletions(rest, order)
  {
  }

  lemma TaskIdsRemove(tasks: map<Name, TaskInfo>, n: Name)
    requires n in tasks
    requires forall m, k | m in tasks && k in tasks :: tasks[m].task == tasks[k].task ==> m == k
    ensures TaskIds(tasks) == TaskIds(tasks - {n}) + {tasks[n].task}
    ensures tasks[n].task !in TaskIds(tasks - {n})
  {
    forall x | x in TaskIds(tasks) ensures x in TaskIds(tasks - {n}) + {tasks[n].task} {
      var m :| m in tasks && tasks[m].task == x;
      if m != n {
        assert m in tasks - {n};
      }
    }
  }

  lemma MultisetAddFresh(a: set<TaskId>, t: TaskId)
    requires t !in a
    ensures multiset(a + {t}) == multiset(a) + multiset{t}
  {
  }
}
