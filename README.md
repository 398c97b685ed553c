# Initiator scheduler, modelled in Dafny

This project models the bookkeeping of the Android startup scheduler
`Initiator` (`com.yu1tiao.initiator.Initiator`). Tasks are registered one
at a time. Registration records each task under every prerequisite class
it declares (the dependents map), appends the task and its class to two
index-aligned lists, and counts the tasks the UI thread must wait for.
`start()` checks the calling thread and dispatches the sorted tasks,
refusing main-process-only tasks outside the main process. It then
decides whether to block on the completion latch. `markTaskDone` keeps
the finished list, the wait list, the latch and the counter.
`satisfyChildren` sends one `satisfy()` to each dependent of a finished task.

Files:

- `Wrappers.dfy`: `Option`, `Result` and `Outcome`. These stand for Java's null and for thrown exceptions.
- `Tasks.dfy`: the task contract the scheduler consumes. A task has a class identity, its declared dependencies, a thread mode and two flags.
- `Bookkeeping.dfy`: the scheduler's rules as functions on values, with their lemmas:
  - the dependents map that registration builds (`AddDependents`, `DependentsOf`);
  - the wait set (`IfNeedWait`, `WaitTasks`);
  - the prerequisites already finished at registration (`CountFinished`);
  - `List.remove(Object)` (`RemoveFirst`);
  - how far dispatch gets (`FirstRestricted`).
- `Initiator.dfy`: the process-wide static state (class `Process`), `create()`, and the scheduler (class `Initiator`). Each method that mutates a field in the source mutates the same field here, with the source's loops.

The scheduler's effects on collaborators are kept as ghost logs on the scheduler:

- each `satisfy()` call appends the receiving task to `satisfyLog`, so a task's satisfy count is its multiplicity there;
- each executor submission appends to `submitted`;
- each `setSent(true)` adds the task to `sent`.

The error paths follow the code:

- `create()` before `init` returns `Failure(NotInitialized)`.
- `start()` off the UI thread returns `Fail(NotOnUiThread)` and changes nothing.
- A main-process-only task outside the main process returns `Fail(OnlyInMainProcess(t))`. The tasks sorted before it have already been submitted and marked sent.
- `new CountDownLatch(n)` with a negative counter returns `Fail(NegativeLatchCount)`. The counter is an `AtomicInteger` and can go negative when a wait task is marked done twice.
- `markTaskDone` on a wait task before `start()` created the latch returns `Fail(NullLatch)`. This is the `NullPointerException` that `countDown()` throws. By then the class has been appended to the finished list and the task removed from the wait list, but the counter is unchanged.
- `countDown()` never takes the latch below zero (`CountDown`).

Behaviour of the code worth noting:

- A process-restricted task fails only when the dispatch loop reaches it, not before any task runs.
- `addTask` after `start()` is not refused. A task that satisfies `IfNeedWait` registered then still increments the wait counter, but the latch has already been created and does not change.
- `mAllTaskCls` keeps registration order after `mAllTasks` is replaced by the sorted list. `Valid()` therefore aligns the class list with the registration order (`registered`), and `Aligned()` holds only until `start`.

## Model

| member | source | states |
|---|---|---|
| `Initiator.Process.Init` | initiator/src/main/java/com/yu1tiao/initiator/Initiator.java:45-51 | a null context leaves the static state unchanged; otherwise the context and its process role are stored and the init flag is set |
| `Initiator.Create` | initiator/src/main/java/com/yu1tiao/initiator/Initiator.java:58-63 | fails with the initialisation error exactly when `init` has not succeeded; otherwise returns a fresh scheduler bound to the process state, empty and valid |
| `Initiator.Process.constructor` | initiator/src/main/java/com/yu1tiao/initiator/Initiator.java:29-31 | before `init`, the static state has no context, is not the main process and is not initialised, so `create()` fails until `init` succeeds |
| `Initiator.Initiator.constructor` | initiator/src/main/java/com/yu1tiao/initiator/Initiator.java:32-43 | a new scheduler has empty lists, an empty dependents map, no latch and a counter of 0 |
| `Initiator.Initiator.AddTask` | initiator/src/main/java/com/yu1tiao/initiator/Initiator.java:65-77 | null changes nothing; otherwise the task and its class are appended, the map grows by the task's dependencies, the task receives one satisfy per finished dependency, and the wait list and counter grow exactly when `IfNeedWait`; alignment of the two lists, counter = wait-list length, and wait list = wait tasks of the registered ones are all preserved |
| `Initiator.Initiator.CollectDepends` | initiator/src/main/java/com/yu1tiao/initiator/Initiator.java:117-129 | the map becomes `AddDependents` of the old map, and the satisfy log gains the task once per declared class already in the finished list |
| `Initiator.Initiator.SatisfyChildren` | initiator/src/main/java/com/yu1tiao/initiator/Initiator.java:155-162 | the satisfy log gains exactly the dependents list of the finished class, in order (nothing for an absent key); a task's count rises iff it is registered and declared that class |
| `Initiator.Initiator.MarkTaskDone` | initiator/src/main/java/com/yu1tiao/initiator/Initiator.java:169-176 | the class is appended to the finished list (earlier entries kept); only a wait task leaves the wait list (first occurrence) and counts latch and counter down by one; before the latch exists that count-down fails with the counter unchanged; counter = list length is preserved when the task was on the list and the latch exists |
| `Initiator.Initiator.Await` | initiator/src/main/java/com/yu1tiao/initiator/Initiator.java:182-197 | the driver blocks iff the counter is positive; while the counter equals the wait list's length and the wait list is the wait tasks of the registered ones (from registration until the first completion), that is iff some registered task is a wait task (non-MAIN and `needWait`) |
| `Initiator.Initiator.Start` | initiator/src/main/java/com/yu1tiao/initiator/Initiator.java:80-105 | off the UI thread it fails and changes nothing; with no tasks it does nothing; otherwise the list becomes the sorted one, the latch starts at the counter, exactly the sorted tasks before the first process-restricted one are submitted and marked sent in order, that task fails the call, and when none does the call blocks iff the counter is positive, which, while counter and wait list track the registered wait tasks, is iff some registered task is a wait task |
| `Bookkeeping.AddDependentsAt` | initiator/src/main/java/com/yu1tiao/initiator/Initiator.java:117-123 | registering a task creates the missing keys of its declared classes, appends the task to each declared class's list once per declaration, and leaves every other key's list unchanged |
| `Bookkeeping.DependentsOfMember` | initiator/src/main/java/com/yu1tiao/initiator/Initiator.java:117-123 | in the map built by registering a list of tasks, a task is under class `c` iff it was registered and declared `c` |
| `Bookkeeping.CountFinishedBounds` | initiator/src/main/java/com/yu1tiao/initiator/Initiator.java:124-126 | the registration-time satisfy count is at most one per declared dependency, zero iff no declared class has finished, and full iff all have |
| `Bookkeeping.WaitTasksNonEmpty` | initiator/src/main/java/com/yu1tiao/initiator/Initiator.java:71-74 | the wait list that registration builds is non-empty iff some registered task is a wait task |
| `Bookkeeping.WaitTasksCount` | initiator/src/main/java/com/yu1tiao/initiator/Initiator.java:131-133 | with `IfNeedWait` the predicate of lines 131-133 as written (thread mode not MAIN and `needWait`), the wait list that registration builds holds each registered `IfNeedWait` task as often as it was registered, and no other task |
| `Bookkeeping.RemoveFirstCut` | initiator/src/main/java/com/yu1tiao/initiator/Initiator.java:172 | removal cuts out exactly the first occurrence and keeps the order of the rest |
| `Bookkeeping.RemoveFirstSpec` | initiator/src/main/java/com/yu1tiao/initiator/Initiator.java:172 | removal drops one copy of a present task, shortening the list by one, and changes nothing for an absent one |
| `Bookkeeping.FirstRestricted` | initiator/src/main/java/com/yu1tiao/initiator/Initiator.java:92-95 | the index where dispatch stops: every earlier sorted task may run in this process, and the task at that index (if any) may not |

## Left out

- `TaskSortUtil.getSortResult` (line 88) is not part of this model. `Start` receives the sorted order as a parameter. The topological sort, its stability and cycle detection are not modelled.
- `Initiator.Initiator.Start` requires the sorted order to be a permutation of the task list when the list is non-empty. This assumes what the sorter delivers instead of deriving it.
- `InitiatorExecutor` dispatch to the UI thread, the pool or a dedicated thread is recorded only as the `submitted` log. A MAIN task runs synchronously inside `submit`, and so may call `markTaskDone` during the dispatch loop. The model does not interleave such completions: completions are separate, sequential calls.
- `cancel()` (lines 107-109) only forwards to the executor, which is not part of this model.
- `CountDownLatch.await` with its 10,000 ms timeout, and the swallowed `InterruptedException` (lines 183-196), are real-time blocking. Only the decision to block is modelled.
- The `Looper` thread check is the boolean `onUiThread`. `Utils.isMainProcess` is what the `Context` value reports. `getApplicationContext()` is represented by the context's handle.
- The getters `getContext` and `isMainProcess` (lines 199-205) only read the `Process` fields.
- `addTask` returning `this` for chaining is not modelled: `AddTask` returns nothing.
- `Initiator.Initiator.AddTask`, `Initiator.Initiator.MarkTaskDone`, `Initiator.Initiator.Start`: `needWaitCount` and the latch count are unbounded integers here, while `AtomicInteger` and the `CountDownLatch` count (lines 35, 89) are 32-bit Java `int`s. The wrap-around after 2^31 - 1 wait tasks is not modelled.
- Logging is left out: `printDependedMsg`, `InitiatorLog` calls, and timing with `System.currentTimeMillis`.
- Concurrent `markTaskDone` and `satisfyChildren` calls from worker threads are left out, along with the `volatile`/atomic semantics of the finished list and the counter. Calls are sequential.
- The `Task` class's own handling of `satisfy()` counts and of its sent flag is not part of this model. Only the calls it receives are recorded.
- Task identity is a datatype value carrying an instance id. This stands for Java reference identity in `List.remove(Object)`.
