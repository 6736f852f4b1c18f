/** The state guarded by the pool's single mutex: the `stopping_` flag, the FIFO
    `queue_` of task names and the `tasks_` registry of per-task records, together
    with the worker threads' positions and the bookkeeping that tracks who owns
    each `Task` object. Every access to this state happens under one lock, so the
    pool evolves by atomic transitions, one per critical section. */
module PoolState {

  type Name = string

  /** A `Task*` pointer, abstracted to an identity. `NullPtr` plays `nullptr`;
      every `new Task` the caller makes is a fresh non-null id. */
  type TaskId = nat

  const NullPtr: TaskId := 0

  /** One record of the registry (`TaskInfo`). The condition variable it carries
      is not state: waiting on it is modelled as an enabling condition. */
  datatype TaskInfo = TaskInfo(task: TaskId, started: bool, finished: bool, waited: bool)

  /** Where a record is in its life: 0 queued, 1 started, 2 finished. */
  function Stage(info: TaskInfo): nat
  {
    if info.finished then 2 else if info.started then 1 else 0
  }

  /** A freshly made record, as `make_shared<TaskInfo>()` builds it before the
      task pointer is stored. */
  function NewTaskInfo(task: TaskId): (info: TaskInfo)
    ensures info.task == task && Stage(info) == 0 && !info.waited
  {
    TaskInfo(task, false, false, false)
  }

  /** What a worker thread is doing: blocked waiting for work (or between
      critical sections), running the task it took under `name`, or gone.
      `Faulted` is a worker that dereferenced the null entry a missed
      registry lookup produced: undefined behaviour, after which the model
      says nothing more about that worker. */
  datatype Worker = Idle | Busy(name: Name, task: TaskId) | Exited | Faulted(name: Name)

  /** The pool. The fields after `workers` are bookkeeping that the C++ object
      does not store but whose values its behaviour determines:
      - `owned`: tasks whose `delete` the pool is currently responsible for;
      - `received`: every task whose ownership was ever handed to the pool;
      - `released`: the pool's `delete`s, counted with multiplicity;
      - `log`: the names of accepted submits, in order;
      - `taken`: the names handed to workers, in order. */
  datatype Pool = Pool(
    stopping: bool,
    queue: seq<Name>,
    tasks: map<Name, TaskInfo>,
    workers: seq<Worker>,
    owned: set<TaskId>,
    received: set<TaskId>,
    released: multiset<TaskId>,
    log: seq<Name>,
    taken: seq<Name>)

  /** The names that some worker holds between taking and finishing them. */
  function Running(p: Pool): set<Name>
  {
    set w | 0 <= w < |p.workers| && p.workers[w].Busy? :: p.workers[w].name
  }

  /** The task pointers stored in a registry. */
  function TaskIds(tasks: map<Name, TaskInfo>): set<TaskId>
  {
    set n | n in tasks :: tasks[n].task
  }

  /** The tasks the pool has deleted at least once. */
  function ReleasedSet(p: Pool): set<TaskId>
  {
    set t | t in p.released
  }

  /** Every worker thread has left its loop (what `join` waits for). */
  predicate AllExited(p: Pool)
  {
    forall w | 0 <= w < |p.workers| :: p.workers[w].Exited?
  }

  /** `order` lists every key of `tasks` exactly once: an iteration order of
      the `unordered_map`, which the C++ library leaves unspecified. */
  predicate Enumerates(order: seq<Name>, tasks: map<Name, TaskInfo>)
  {
    && (forall i, j | 0 <= i < j < |order| :: order[i] != order[j])
    && (forall i | 0 <= i < |order| :: order[i] in tasks)
    && (forall n | n in tasks :: n in order)
  }

  /** `task` is a live task owned by the caller: non-null and never handed to
      this pool before. */
  predicate CallerOwns(p: Pool, task: TaskId)
  {
    task != NullPtr && task !in p.received
  }

  /** The state right after the constructor: `n` workers blocked on an empty
      queue, `stopping_` false, no records. */
  function Initial(n: nat): (p: Pool)
    ensures |p.workers| == n && !p.stopping && p.queue == [] && p.tasks == map[]
  {
    Pool(false, [], map[], seq(n, _ => Idle), {}, {}, multiset{}, [], [])
  }
}
