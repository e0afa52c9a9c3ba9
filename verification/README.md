# ThreadDispatcher bookkeeping, in Dafny

ThreadDispatcher is a fixed-size pool of worker threads. `dispatch` hands each
job an id from a 32-bit counter, counts it as in progress and appends it to a
FIFO queue. A worker takes the front job, runs it outside the lock, then
appends the job's id to the completion list (`workDone`) and decrements the
in-progress counter. Callers then ask `finished()`, `finished(id)` or
`finished(ids)`. They can also `wait` for ids, which consumes them from the
completion list, or `clearFinished` it. `shutdown` raises a quit flag.

This project models that bookkeeping state as a Dafny class,
`ThreadDispatcher.Dispatcher<J>`. `J` is the opaque job body. Each critical
section of the source is one atomic method. Ghost fields record what the
source does not keep:
- `issued`: every id handed out, in order;
- `taken`: how many jobs left the queue;
- `executing`: the ids currently running;
- `completed`: every id ever completed.

The invariant `Valid()` ties the ghost fields to the real ones:
- the k-th id is `k mod 2^32`;
- the queue holds the untaken jobs in dispatch order;
- every taken job is executing or completed, never lost;
- the completion list holds only completed ids;
- `workInProgress == (|workQueue| + |executing|) mod 2^32`.

Modules:
- `Uint32`: `uint32_t` increment and decrement, with wrap-around.
- `Lists`: `std::find`, `std::list::remove`, and the consumption done by `wait(ids)`.
- `ThreadDispatcher`: the state and its operations.

Where the code does less than its API suggests (unique ids, `finished()` meaning drained, a draining `shutdown`), the model follows the code:
- Ids are strictly increasing only until the counter wraps after 2^32 dispatches. After that they repeat (`IdsRepeatAfterWrap`).
- `finished()` tests the 32-bit in-progress counter against 0. This means "nothing queued or executing" only while fewer than 2^32 jobs are pending (`Dispatcher.Finished`).
- `wait()` returns as soon as the queue is empty, even while jobs are still executing (`WaitDoesNotMeanFinished`).
- Workers stop taking jobs as soon as the quit flag is set. Jobs still queued at `shutdown` are never run; the queue is not drained (`NoTakeAfterShutdown`).
- Until the counter wraps, `wait(ids)` blocks forever if an id is listed twice. The first wait consumes every occurrence of that id, so the second wait never finds it (`Lists.WaitAllEnabledIff`). This holds even while workers keep completing jobs during the call: a completed id is never executing or queued again (`CompletedIdsAreRetired`).

## Model

| member | source | states |
|---|---|---|
| Uint32.Inc | ThreadDispatcher/src/ThreadDispatcher.cpp:28-29 | `++` on a `uint32_t` gives one more, except that 2^32-1 wraps to 0 |
| Uint32.Dec | ThreadDispatcher/src/ThreadDispatcher.cpp:137 | `--` on a `uint32_t` gives one less, except that 0 wraps to 2^32-1 |
| Uint32.DecInc | ThreadDispatcher/src/ThreadDispatcher.cpp:29 | a decrement undoes an increment of the counter, wrap-around included |
| Lists.Find | ThreadDispatcher/src/ThreadDispatcher.cpp:71 | `std::find` returns the position of the first occurrence, or the end exactly when the value is absent |
| Lists.RemoveAll | ThreadDispatcher/src/ThreadDispatcher.cpp:48 | `list::remove` leaves no occurrence of the id, never lengthens the list and adds no value |
| Lists.RemoveAllCount | ThreadDispatcher/src/ThreadDispatcher.cpp:48 | `list::remove` deletes every occurrence of the id and keeps every other value as often as before |
| Lists.RemoveAllAppend | ThreadDispatcher/src/ThreadDispatcher.cpp:48 | removal distributes over concatenation, so the surviving entries keep their relative order |
| Lists.RemoveAllAbsent | ThreadDispatcher/src/ThreadDispatcher.cpp:48 | removing an id that is not in the list leaves the list unchanged |
| Lists.ConsumeAll | ThreadDispatcher/src/ThreadDispatcher.cpp:53-61 | consuming `ids` one at a time leaves none of them, never lengthens the list and adds no value |
| Lists.WaitAllEnabled | ThreadDispatcher/src/ThreadDispatcher.cpp:54-58 | each spin of `wait(ids)` exits only on an id present at its turn, so every id must be in the completion list |
| Lists.ConsumeAllCount | ThreadDispatcher/src/ThreadDispatcher.cpp:51-62 | after `wait(ids)`, none of the ids remain; every other entry remains exactly as often as before |
| Lists.WaitAllEnabledIff | ThreadDispatcher/src/ThreadDispatcher.cpp:51-62 | `wait(ids)` gets past every spin iff each id is in the completion list and no id is listed twice |
| ThreadDispatcher.Dispatcher.constructor | ThreadDispatcher/src/ThreadDispatcher.cpp:5-12 | the zero-initialised static state: counters 0, queue and completion list empty, quit flag false; the invariant holds |
| ThreadDispatcher.Dispatcher.Init | ThreadDispatcher/src/ThreadDispatcher.cpp:14-22 | resets only the in-progress counter and keeps the invariant when nothing is queued or executing |
| ThreadDispatcher.Dispatcher.Dispatch | ThreadDispatcher/src/ThreadDispatcher.cpp:24-33 | returns the old `workID`; `workID` and `workInProgress` each go up by one modulo 2^32; `(id, body)` is appended at the back of the queue; the completion list and the quit flag are unchanged |
| ThreadDispatcher.Dispatcher.TryTake | ThreadDispatcher/src/ThreadDispatcher.cpp:114-128 | a take happens iff the quit flag is clear and the queue is non-empty; it removes exactly the front job, the rest keeps its order, and the job starts executing; otherwise nothing changes |
| ThreadDispatcher.Dispatcher.Complete | ThreadDispatcher/src/ThreadDispatcher.cpp:135-137 | the executed job's id is appended at the end of the completion list, the counter goes down by one modulo 2^32, and the job stops executing |
| ThreadDispatcher.CompletionKeepsCounts | ThreadDispatcher/src/ThreadDispatcher.cpp:136-137 | moving an id from executing to completed keeps the taken-jobs conservation, and the completion list stays within the completions |
| ThreadDispatcher.Dispatcher.Finished | ThreadDispatcher/src/ThreadDispatcher.cpp:64-67 | true iff the counter is 0, iff queued plus executing jobs are a multiple of 2^32; below 2^32 pending jobs, iff nothing is queued or executing |
| ThreadDispatcher.Dispatcher.FinishedId | ThreadDispatcher/src/ThreadDispatcher.cpp:69-75 | true iff the id is in the completion list; no state changes |
| ThreadDispatcher.Dispatcher.FinishedAll | ThreadDispatcher/src/ThreadDispatcher.cpp:77-85 | true iff every listed id is in the completion list, so true for no ids; no state changes |
| ThreadDispatcher.Dispatcher.WaitCanReturn | ThreadDispatcher/src/ThreadDispatcher.cpp:35-38 | `wait()` returns iff the queue is empty; the counter then counts exactly the jobs still executing |
| ThreadDispatcher.Dispatcher.WaitOne | ThreadDispatcher/src/ThreadDispatcher.cpp:40-49 | once the id is in the completion list, every occurrence is removed and the rest keeps its order; the id is then no longer finished; nothing else changes |
| ThreadDispatcher.Dispatcher.WaitAll | ThreadDispatcher/src/ThreadDispatcher.cpp:51-62 | consumes the ids one at a time, each present at its turn; afterwards none of them is in the completion list; nothing else changes |
| ThreadDispatcher.Dispatcher.ClearFinished | ThreadDispatcher/src/ThreadDispatcher.cpp:87-91 | empties the completion list and touches nothing else |
| ThreadDispatcher.Dispatcher.Shutdown | ThreadDispatcher/src/ThreadDispatcher.cpp:93-112 | sets the quit flag and ends with an empty completion list; queue, counters and executing jobs are unchanged |
| ThreadDispatcher.IdsIncreaseUntilWrap | ThreadDispatcher/src/ThreadDispatcher.cpp:28 | until 2^32 dispatches, the ids handed out are strictly increasing (hence distinct), and so are the ids in the queue from front to back |
| ThreadDispatcher.IdsRepeatAfterWrap | ThreadDispatcher/src/ThreadDispatcher.cpp:11 | the id of dispatch number 2^32 equals the first id: the `uint32_t` counter wrapped |
| ThreadDispatcher.CompletedIdsAreRetired | ThreadDispatcher/src/ThreadDispatcher.cpp:40-62 | until the counter wraps, a completed id completed exactly once and is neither executing nor queued, so once consumed it never reappears and a second `wait(id)` never returns |
| ThreadDispatcher.DoneIdsWereDispatched | ThreadDispatcher/src/ThreadDispatcher.cpp:136 | every id in the completion list and every executing id was handed out by a dispatch |
| ThreadDispatcher.WaitDoesNotMeanFinished | ThreadDispatcher/src/ThreadDispatcher.cpp:35-38 | after one dispatch and one take, `wait()` may return while `finished()` is false; after completion, `finished(id)` holds until `wait(id)` consumes the id, and not after |
| ThreadDispatcher.NoTakeAfterShutdown | ThreadDispatcher/src/ThreadDispatcher.cpp:118-139 | after `shutdown`, a job is still queued, yet a worker's take step yields nothing |

## Left out

- Thread creation in `init` and the joins in `shutdown` are not modelled. Neither are the mutex, the condition variable and its notifications. Each critical section is one atomic method instead.
- The busy-spin loops of `wait()`, `wait(id)` and `wait(ids)` are not modelled as loops. Their exit conditions appear as `WaitCanReturn` and as preconditions of `WaitOne` and `WaitAll`. The unsynchronised reads these spins make are concurrency hazards and are not modelled.
- Running a job body (`op.second()`) is not modelled: bodies are the opaque type `J`. A job body that throws is not modelled either.
- Console output (`std::cout`, `printf`) is not modelled.
- ThreadDispatcher/src/ThreadTest.cpp, the demo program, is not part of this model.
- The worker loop's exit (`while (!shouldQuit)`) is not a step of its own. After the quit flag is set, `TryTake` never takes a job, which is what the exit means for the state.
- Dispatcher.Init: requires that nothing is queued or executing. If `init` ran while jobs were pending, its reset would break the link between the counter and the pending jobs, which the invariant states.
- Dispatcher.Shutdown: the model does not run the joins that happen between raising the flag and clearing the list. In the source, jobs still executing complete during those joins, before the list is cleared. In the model, a `Complete` after `Shutdown` appends to the already cleared list.
- Dispatcher.WaitAll: runs `wait(ids)` as one atomic step, so its precondition is checked against the completion list as it stands when the call starts. In the source, workers append ids while `wait(ids)` spins. The model does not capture completions that arrive during the call. Such a run is a sequence of `WaitOne` steps with `Complete` steps between them; `CompletedIdsAreRetired` shows that those completions never bring back an id already consumed.
