/** Concrete runs of the pool. `OneWorkerRun` ends with the submit after
    `Stop` of pool-test.cc:54-57 and includes a wait on a finished task as in
    pool_extra_tests.cc:59-65; its other steps (bad thread counts, a duplicate
    name, a second wait) exercise error paths the drivers do not. */
module Scenarios {
  import opened Errors
  import opened PoolState
  import opened ThreadPool

  /** One worker; "a" is submitted, a second "a" is rejected and its task
      deleted; the worker runs "a"; the caller waits on "a", after which a
      second wait fails; after `Stop` a further submit is ignored and the
      worker exits on the drained queue. */
  lemma OneWorkerRun()
    ensures Create(0) == Err(InvalidConfiguration)
    ensures Create(-1) == Err(InvalidConfiguration)
    ensures var p0 := Create(1).value;
      var s1 := Submit(p0, "a", 1);
      var s2 := Submit(s1.pool, "a", 2);
      var p3 := WorkerTake(s2.pool, 0);
      var p4 := WorkerFinish(p3, 0);
      var w5 := WaitBegin(p4, "a");
      var p6 := WaitComplete(w5.pool, "a");
      var w7 := WaitBegin(p6, "a");
      var p8 := Stop(p6);
      var s9 := Submit(p8, "after-stop", 3);
      var p10 := WorkerTake(s9.pool, 0);
      && s1.outcome == Pass && s2.outcome == Fail(DuplicateTaskName)
      && w5.outcome == Pass && w7.outcome == Fail(UnknownTaskName)
      && s9 == Reply(p8, Pass)
      && p10.workers[0] == Exited
      && p10.tasks == map[] && p10.owned == {}
      && p10.released == multiset{1, 2}
      && p10.taken == ["a"]
  {
    var p0 := Create(1).value;
    assert p0.workers == [Idle];
    var s1 := Submit(p0, "a", 1);
    assert s1.pool.queue == ["a"] && s1.pool.tasks == map["a" := NewTaskInfo(1)];
    var s2 := Submit(s1.pool, "a", 2);
    var p3 := WorkerTake(s2.pool, 0);
    assert p3.queue == [] && p3.workers == [Busy("a", 1)];
    assert p3.tasks == map["a" := TaskInfo(1, true, false, false)];
    var p4 := WorkerFinish(p3, 0);
    assert p4.tasks == map["a" := TaskInfo(1, true, true, false)];
    var w5 := WaitBegin(p4, "a");
    var p6 := WaitComplete(w5.pool, "a");
    assert p6.tasks == map[];
  }

  /** The destructor deletes once per record, not once per pointer: were two
      records to share a task, that task would be deleted twice. The
      invariant's distinct-task clause is what rules this out in a real run. */
  lemma SharedTaskDeletedTwice()
    ensures var p := Pool(true, [], map["a" := TaskInfo(5, true, true, false), "b" := TaskInfo(5, true, true, false)],
                          [Exited], {5}, {5}, multiset{}, ["a", "b"], ["a", "b"]);
      && Enumerates(["a", "b"], p.tasks)
      && Teardown(p, ["a", "b"]).released[5] == 2
  {
    var p := Pool(true, [], map["a" := TaskInfo(5, true, true, false), "b" := TaskInfo(5, true, true, false)],
                  [Exited], {5}, {5}, multiset{}, ["a", "b"], ["a", "b"]);
    assert Deletions(p.tasks, ["a", "b"]) == [5, 5];
  }
}
