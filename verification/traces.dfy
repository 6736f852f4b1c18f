/** Runs of the pool: sequences of atomic steps, each enabled in the state it
    is taken from. Every state reachable from a successfully constructed pool
    satisfies the invariant, records only move forward, and dispatch follows
    submit order. */
module Traces {
  import opened Errors
  import opened PoolState
  import opened ThreadPool
  import opened Invariant

  /** One critical section of the pool, by whichever thread runs it. */
  datatype Step =
    | SubmitStep(name: Name, task: TaskId)
    | TakeStep(w: int)
    | FinishStep(w: int)
    | WaitBeginStep(name: Name)
    | WaitCompleteStep(name: Name)
    | StopStep
    | TeardownStep(order: seq<Name>)

  /** A step may run when its thread is not blocked and the caller respects
      the documented contracts. */
  predicate Enabled(p: Pool, s: Step)
  {
    match s
    case SubmitStep(name, task) => task != NullPtr ==> CallerOwns(p, task)
    case TakeStep(w) => CanTake(p, w)
    case FinishStep(w) => 0 <= w < |p.workers| && p.workers[w].Busy?
    case WaitBeginStep(name) => name in p.tasks ==> !p.tasks[name].waited
    case WaitCompleteStep(name) => name in p.tasks && p.tasks[name].waited && p.tasks[name].finished
    case StopStep => true
    case TeardownStep(order) => p.stopping && AllExited(p) && Enumerates(order, p.tasks)
  }

  function Apply(p: Pool, s: Step): Pool
    requires Enabled(p, s)
  {
    match s
    case SubmitStep(name, task) => Submit(p, name, task).pool
    case TakeStep(w) => WorkerTake(p, w)
    case FinishStep(w) => WorkerFinish(p, w)
    case WaitBeginStep(name) => WaitBegin(p, name).pool
    case WaitCompleteStep(name) => WaitComplete(p, name)
    case StopStep => Stop(p)
    case TeardownStep(order) => Teardown(p, order)
  }

  predicate ValidRun(p: Pool, steps: seq<Step>)
    decreases |steps|
  {
    steps == [] || (Enabled(p, steps[0]) && ValidRun(Apply(p, steps[0]), steps[1..]))
  }

  function Final(p: Pool, steps: seq<Step>): Pool
    requires ValidRun(p, steps)
    decreases |steps|
  {
    if steps == [] then p else Final(Apply(p, steps[0]), steps[1..])
  }

  lemma StepPreserves(p: Pool, s: Step)
    requires Inv(p) && Enabled(p, s)
    ensures Inv(Apply(p, s))
  {
    match s
    case SubmitStep(name, task) => SubmitPreserves(p, name, task);
    case TakeStep(w) => TakePreserves(p, w);
    case FinishStep(w) => FinishPreserves(p, w);
    case WaitBeginStep(name) => WaitBeginPreserves(p, name);
    case WaitCompleteStep(name) => WaitCompletePreserves(p, name);
    case StopStep => StopPreserves(p);
    case TeardownStep(order) => TeardownPreserves(p, order);
  }

  lemma {:induction false} RunPreserves(p: Pool, steps: seq<Step>)
    requires Inv(p) && ValidRun(p, steps)
    ensures Inv(Final(p, steps))
    decreases |steps|
  {
    if steps != [] {
      StepPreserves(p, steps[0]);
      RunPreserves(Apply(p, steps[0]), steps[1..]);
    }
  }

  /** Every state reachable from a constructed pool satisfies the invariant:
      queue and registry agree, the queue has no duplicates, flags are
      ordered, running names are exactly the started unfinished records, and
      no task is owned twice or deleted twice. */
  lemma ReachableInv(numThreads: int, steps: seq<Step>)
    requires Create(numThreads).Ok? && ValidRun(Create(numThreads).value, steps)
    ensures Inv(Final(Create(numThreads).value, steps))
  {
    CreateEstablishes(numThreads);
    RunPreserves(Create(numThreads).value, steps);
  }

  /** In every reachable state the names dispatched so far are a prefix of the
      accepted submits, in the same order: the i-th dispatch is the i-th
      accepted submit, so each registration is dispatched at most once. */
  lemma DispatchFollowsSubmitOrder(numThreads: int, steps: seq<Step>)
    requires Create(numThreads).Ok? && ValidRun(Create(numThreads).value, steps)
    ensures var q := Final(Create(numThreads).value, steps);
      |q.taken| <= |q.log| && q.taken == q.log[..|q.taken|]
  {
    ReachableInv(numThreads, steps);
  }

  /** In every reachable state each task the pool received is either still
      owned by exactly one record or has been deleted, and no task has been
      deleted more than once. */
  lemma ReachableDeletesOnce(numThreads: int, steps: seq<Step>)
    requires Create(numThreads).Ok? && ValidRun(Create(numThreads).value, steps)
    ensures var q := Final(Create(numThreads).value, steps);
      && q.owned == TaskIds(q.tasks)
      && (forall t | t in q.received :: (t in q.owned) != (t in q.released))
      && (forall t | t in q.released :: q.released[t] == 1)
      && (forall m, n | m in q.tasks && n in q.tasks && q.tasks[m].task == q.tasks[n].task :: m == n)
  {
    ReachableInv(numThreads, steps);
  }

  /** A record keeps its task and moves forward by at most one stage per
      step (queued, then started, then finished); `waited` is never cleared. */
  ghost predicate Advances(a: TaskInfo, b: TaskInfo)
  {
    a.task == b.task && Stage(a) <= Stage(b) <= Stage(a) + 1 && (a.waited ==> b.waited)
  }

  lemma StepAdvances(p: Pool, s: Step)
    requires Inv(p) && Enabled(p, s)
    ensures forall n | n in p.tasks && n in Apply(p, s).tasks :: Advances(p.tasks[n], Apply(p, s).tasks[n])
  {
    match s
    case TakeStep(w) =>
      if p.queue != [] {
        assert p.queue[0] in p.tasks && !p.tasks[p.queue[0]].started;
      }
    case FinishStep(w) =>
      assert p.workers[w].name in p.tasks && p.tasks[p.workers[w].name].started;
    case _ =>
  }
}
