# ThreadPool bookkeeping, as a state machine

This project models the bookkeeping of the C++ `ThreadPool` (`pool.h`, `pool.cc`): a fixed set of
worker threads that run caller-supplied `Task` objects, each submitted under a unique name, and
let any thread wait until a named task has finished.

Every access to pool state happens while holding the single mutex `mtx_`, so the pool evolves by
atomic transitions, one per critical section. The model is an immutable `Pool` value (module
`PoolState`) holding:

- the `stopping_` flag;
- the FIFO `queue_` of names;
- the `tasks_` registry of `TaskInfo` records `{task, started, finished, waited}`;
- the position of each worker: `Idle`, `Busy(name, task)`, `Exited`, or `Faulted` after a null dereference.

It also holds bookkeeping that the C++ object does not store but that its behaviour determines:

- which tasks the pool owns;
- which tasks it ever received;
- which tasks it deleted, counted with multiplicity;
- the order of accepted submits and of dispatches.

Module `ThreadPool` has one pure function per critical section:

- `Create`: the constructor.
- `Submit`: `SubmitTask`.
- `WorkerTake` and `WorkerFinish`: the two critical sections of `WorkerLoop`.
- `WaitBegin` and `WaitComplete`: the two halves of `WaitForTask`, on either side of its wait.
- `Stop`: the locked part of `Stop`.
- `Teardown`: the destructor's cleanup.

A transition that would block on a condition variable is simply not enabled yet:

- `WorkerTake` needs `stopping || queue != []`.
- `WaitComplete` needs `finished`.
- `Teardown` needs every worker to have exited, which is what `Stop`'s `join` waits for.

Task pointers are abstract ids, with `0` playing `nullptr`. Two caller contracts become
preconditions:

- a submitted task is a live task the caller owns and has not handed to this pool before. The pool
  takes over its deletion (`pool.cc:26`, `pool.cc:44`, `pool.cc:68`), and it leaves the task with the
  caller only when stopping (`pool.cc:37-38`);
- a task is waited on by at most one caller (`pool.h:29`).

Module `Invariant` defines the inductive invariant `Inv`:

- a name is queued exactly when it is registered and not started;
- the queue has no duplicates;
- `finished` implies `started`;
- a busy worker holds a registered, started, unfinished record, and the registry stores the same task pointer;
- no two workers run the same name;
- every started, unfinished record is held by some worker;
- a worker has exited only on a stopping, drained pool;
- no worker has dereferenced a null registry entry;
- the pool owns exactly the tasks of its records, each record a distinct one;
- every task handed to the pool is owned or deleted, never both, and never deleted twice;
- dispatched names followed by the queue are the accepted submits, in order;
- the pool has at least one worker.

`Invariant` proves that every transition preserves `Inv`. Module `Traces` lifts this to every run
of a constructed pool. Module `Properties` derives the consequences:

- the `operator[]` lookup at `pool.cc:83` never misses;
- dispatch is FIFO;
- no worker exits while work is queued;
- `Stop` is idempotent;
- a second wait fails;
- every task the pool receives is deleted exactly once.

The destructor calls `Stop` before it deletes anything (`pool.cc:20-21`), and `Stop` lets the workers
drain the queue. So queued tasks are run before teardown; they are not discarded.
`Properties.ExitedMeansAllFinished` proves that by the time `Teardown` is enabled, every
registered record has finished.

## Model

| member | source | states |
|---|---|---|
| ThreadPool.Create | pool.cc:8-16 | fails with `InvalidConfiguration` exactly when `num_threads <= 0`; otherwise `num_threads` idle workers, not stopping, empty queue and registry, nothing owned |
| ThreadPool.Submit | pool.cc:31-53 | null task fails first; a stopping pool returns with no state change and does not take the task; a live name fails with `DuplicateTaskName`, leaves queue and registry alone and deletes the task once; otherwise a fresh queued record is added under the name, the name goes to the back of the queue, and no other record changes |
| ThreadPool.Subscript | pool.cc:83 | `tasks_[name]` yields the stored record exactly when the name is registered, and otherwise the null `shared_ptr` that `operator[]` stores on a miss |
| ThreadPool.WorkerTake | pool.cc:76-86 | the worker exits exactly when the pool is stopping and the queue is empty; otherwise it pops the queue front; if the name is registered it runs that record's task and marks it started, and if not, the null dereference at line 84 leaves the worker `Faulted`; other records and workers are unchanged |
| ThreadPool.WorkerFinish | pool.cc:94-98 | the worker goes back to waiting, and the record it holds is marked finished if it is still the one registered under its name |
| ThreadPool.WaitBegin | pool.cc:56-62 | an unknown name fails with `UnknownTaskName` and changes nothing; a known name gets `waited` set and nothing else changes |
| ThreadPool.WaitComplete | pool.cc:63-68 | once the record is finished, it is erased and its task is deleted once; other records are unchanged |
| ThreadPool.Stop | pool.cc:102-107 | the pool is stopping afterwards; a call on an already stopping pool changes nothing |
| ThreadPool.Deletions | pool.cc:25-27 | the destructor's loop deletes one task per record, the task of the i-th record in iteration order |
| ThreadPool.Teardown | pool.cc:18-29 | after all workers exited, the registry is cleared and the task of each record is deleted, one deletion per record in the map's iteration order; every record's task is among the deletions and nothing else is deleted |
| PoolState.Initial | pool.h:47-49 | the pool's field defaults: `stopping_` false, empty queue, empty registry, with the requested number of workers |
| PoolState.NewTaskInfo | pool.h:35-39 | a new record holds its task, is in the queued stage (not started, not finished) and not waited on |
| Invariant.CreateEstablishes | pool.h:47-49 | a newly constructed pool satisfies the invariant |
| Invariant.SubmitPreserves | pool.cc:42-50 | every outcome of a submit preserves the invariant |
| Invariant.TakePreserves | pool.cc:76-86 | a worker's take or exit preserves the invariant |
| Invariant.TakeKeepsQueue | pool.cc:81-84 | popping the front and starting its record keeps the queue equal to the unstarted records, duplicate-free, and in submit order |
| Invariant.TakeKeepsWorkers | pool.cc:81-84 | after a take, busy workers still hold distinct, started, unfinished registered records, and every such record is held |
| Invariant.FinishPreserves | pool.cc:94-98 | marking the held record finished preserves the invariant |
| Invariant.WaitBeginPreserves | pool.cc:56-62 | setting `waited` preserves the invariant |
| Invariant.WaitCompletePreserves | pool.cc:63-68 | erasing a finished record and deleting its task preserves the invariant |
| Invariant.StopPreserves | pool.cc:104-106 | setting `stopping_` preserves the invariant |
| Invariant.TeardownPreserves | pool.cc:23-28 | clearing the registry and deleting the remaining tasks preserves the invariant |
| Invariant.TeardownKeepsOwnership | pool.cc:25-28 | after teardown the pool owns nothing, and every task it received has been deleted exactly once |
| Invariant.DistinctDeletions | pool.cc:25-27 | when records hold distinct task pointers, deleting once per record deletes each pointer exactly once |
| Properties.TakeLookupHits | pool.cc:81-84 | under the invariant, the `tasks_[name]` lookup on the popped name always finds a record, so the null dereference never happens, the registry keeps its keys, and the worker runs a non-null task |
| Properties.TakeDispatchesOldest | pool.cc:81-82 | a take dispatches the oldest accepted submit not yet dispatched, and that name is no longer queued afterwards |
| Properties.NoExitWhileQueued | pool.cc:77-79 | while the queue is non-empty a worker always takes work, even on a stopping pool |
| Properties.StopIdempotent | pool.cc:104-106 | a second `Stop` changes no state |
| Properties.SubmitAfterStopIgnored | pool.cc:36-41 | after `Stop`, a submit changes no state and the pool neither owns nor deletes the task |
| Properties.DuplicateReleasedOnce | pool.cc:42-45 | a task rejected for a duplicate name is deleted exactly once and never owned |
| Properties.SecondWaitFails | pool.cc:57-68 | after a completed wait, a second wait on that name fails with `UnknownTaskName`, and the task was deleted exactly once |
| Properties.ExitedMeansAllFinished | pool.cc:77-79 | once every worker has exited, the queue is empty and every registered record has started and finished, so teardown discards no unrun task |
| Properties.TeardownReleasesEverything | pool.cc:23-28 | after teardown the pool owns nothing, and every task it ever received has been deleted exactly once |
| Traces.StepPreserves | pool.h:45 | each atomic step under the mutex preserves the invariant |
| Traces.RunPreserves | pool.h:45 | every run of enabled steps from an invariant state ends in an invariant state |
| Traces.ReachableInv | pool.h:45-49 | every state reachable from a constructed pool satisfies the invariant |
| Traces.DispatchFollowsSubmitOrder | pool.h:48 | in every reachable state the dispatched names are a prefix of the accepted submits, so dispatch is FIFO and each registration is dispatched at most once |
| Traces.ReachableDeletesOnce | pool.cc:23-28 | in every reachable state each task the pool received is owned by exactly one record or deleted, never both, and none is deleted twice |
| Traces.StepAdvances | pool.h:37-39 | within one step a record keeps its task, moves forward by at most one stage (queued, started, finished), and never loses `waited` |
| Scenarios.SharedTaskDeletedTwice | pool.cc:25-27 | a concrete state: if two records shared one task pointer, the destructor would delete it twice; the distinct-task clause of the invariant is what excludes this |
| Scenarios.OneWorkerRun | pool-test.cc:54-57 | a concrete run: constructor rejects 0 and -1; a duplicate name is rejected and deleted; a second wait fails; a submit after `Stop` is ignored; the worker then exits and each task was deleted once |

## Left out

- Thread creation and `join` (`pool.cc:12-15`, `pool.cc:109-111`) are not modelled. Their effect appears only as the precondition of `Teardown`: every worker has exited.
- Condition-variable notification (`notify_one`, `notify_all`) is not modelled. Waiting becomes an enabling precondition. Lost wake-ups, deadlock freedom, and "a wait eventually returns" are liveness claims outside this model.
- The body of `Task::Run` and the exception swallowing around it (`pool.cc:88-92`) are not modelled. Running a task is the opaque gap between `WorkerTake` and `WorkerFinish`, and it always reaches `WorkerFinish`.
- `Task::name` (`pool.h:19`) is not used by the pool and is left out.
- `shared_ptr` lifetimes and raw `delete` are not modelled as memory. Tasks are abstract ids, and ownership is tracked with sets and a multiset of deletions. A freed address that the allocator reuses shows up as a fresh id.
- `WaitForTask` is split into `WaitBegin` and `WaitComplete`. When the record is already finished, the C++ call does both under one lock hold. The model allows the same steps with nothing in between, so it covers that case.
- `WaitComplete` erases by key. The C++ code erases through an `unordered_map` iterator that it keeps across `cv.wait`, while the lock is released. The C++ standard lets a concurrent insert that rehashes invalidate that iterator. Iterator validity is not modelled.
- The destructor's unlocked read of `stopping_` (`pool.cc:20`) is not modelled.
- Two concurrent `Stop` calls are not modelled: the second one returns before the workers are joined.
- ThreadPool.Teardown: requires the state after `Stop` has joined the workers, rather than performing the implicit `Stop` itself. The implicit `Stop` is the `Stop` step, and the workers' exits are `WorkerTake` steps taken before `Teardown`. The `unordered_map` iteration order, which the C++ library leaves unspecified, is a parameter.
- ThreadPool.Subscript: on a miss, `operator[]` also stores a null `shared_ptr` under the name. The model does not keep that entry, because line 84 dereferences it at once. That is undefined behaviour, and the model records it only as the worker becoming `Faulted`. The invariant shows the miss never happens.
- ThreadPool.WaitBegin: a second waiter on the same task is excluded by a precondition, as the caller contract requires. What the C++ code would do then is not modelled: a stale iterator and a double `delete`.
- ThreadPool.Submit: passing a task the pool already owns or has deleted is excluded by a precondition, as the caller contract requires. What the C++ code would do then is not modelled. It accepts the same pointer under a second live name. It then deletes it twice: once for each record, at `pool.cc:68` or `pool.cc:26`. It may also run a task that was already deleted.
