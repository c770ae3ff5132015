# hazeltask local dispatch core in Dafny

This project models three pieces of the per-node dispatch engine of hazeltask and proves properties of them.

- **`GroupedQueue`** (`grouped_queue.dfy`, module `Grouped`) is a queue made of one FIFO sub-queue per group key.
  - `offer` creates a group's queue lazily and registers the key in the append-only `groups` list at that moment.
  - `poll` and `peek` serve the sub-queue the router picks.
  - `size` and `getOldestQueueTime` are accumulator loops over the sub-queues.
  - The two `drainTo` overloads move items out of one named group, in order.
  - The class keeps two ghost logs: every item offered, and every item taken out. Its invariant `Valid()` (`QueueInv`) states:
    - there is one queue per key;
    - the key registry is duplicate-free and equals the map's key set;
    - every item sits in the queue of its own group;
    - the items held plus the items taken out are exactly the items offered;
    - per group, the items taken out followed by the items still queued are the group's offers in order (FIFO).
- **One cycle of `TaskRecoveryTimerTask.execute`** (`task_recovery.dfy`, module `Recovery`).
  - The minimum over the members' reported oldest times gives a staleness cutoff: that minimum minus 5000, or the clock minus 10000 when no member reports a time. Both use Java's wrapping `long` subtraction.
  - The cycle queries for the node's pending tasks created strictly before the cutoff and resubmits each once, flagged as recovered.
  - It reports whether anything was recovered.
  - The cluster call, the store, the clock and the failing call (if any) are inputs. The executor's submit, the meter, the histogram and the timer are recorded as logs and counters.
- **`LocalWorkExecutorService`** (`local_executor.dfy`, module `LocalExecutor`):
  - the once-only `start`;
  - `execute` and `getQueueSize` delegating to the grouped queue;
  - the `QueueSyncRunnable` loop. It polls the queue and hands items to the pool. While the queue is empty it sleeps with an interval that starts at 100, doubles up to 10000, resets on work, and stays unchanged when a sleep is interrupted.

`common.dfy` (module `Common`) holds Java's `long`, nullable values, work items, and the `Long.MAX_VALUE`-seeded minimum accumulator. Both `getOldestQueueTime` and the recovery cycle run that accumulator.

Where the code's own comments and its behaviour differ, the model follows the behaviour:

- `TaskRecoveryTimerTask.execute` returns `true` from its `catch (Throwable)` block (`TaskRecoveryTimerTask.java:104-107`). That line's comment reads `//backoff`, but the backoff framework reads `true` as "did work", so a failing cycle is not treated as idle. `Recovery.TaskRecoveryTimerTask.Execute` returns true on every fault.
- The javadoc of `QueueSyncRunnable` (`LocalWorkExecutorService.java:65-66`) says the loop waits and backs off exponentially. In the code the multiplication sits inside the `try` after `Thread.sleep` (`LocalWorkExecutorService.java:88-93`), so an interrupted sleep leaves the interval unchanged.
- The catch block re-sets the thread's interrupt flag, so every later sleep of the loop is interrupted at once and the interval is frozen from then on. The field `syncInterrupted` models this sticky flag.
- The same javadoc says the backoff grows "up to 15 seconds". The code's ceiling is 10000 ms (`LocalWorkExecutorService.java:76`).
- A member time equal to `Long.MAX_VALUE` cannot be told apart from the accumulator's start value, so it counts as absent (`Recovery.Reported`). A sub-queue head stamped `Long.MAX_VALUE` is likewise invisible to `getOldestQueueTime`.

## Model

Source paths are relative to the repository root.

| member | source | states |
|---|---|---|
| Common.SubLong | hazeltask-core/src/main/java/com/hazeltask/executor/task/TaskRecoveryTimerTask.java:71-73 | Java `long` subtraction: the result is a `long` that agrees with `a - b` modulo 2^64, and is `a - b` itself when that fits |
| Common.SubLongUnique | hazeltask-core/src/main/java/com/hazeltask/executor/task/TaskRecoveryTimerTask.java:71-73 | no other `long` agrees with `a - b` modulo 2^64, so the result is exactly Java's two's-complement difference |
| Common.MinPresent | hazeltask-core/src/main/java/com/hazeltask/executor/task/TaskRecoveryTimerTask.java:62-67 | the accumulator is at most every non-null value, and is either `Long.MAX_VALUE` or one of the values |
| Common.MinPresentStep | hazeltask-core/src/main/java/com/hazeltask/executor/task/TaskRecoveryTimerTask.java:63-66 | one loop iteration replaces the accumulator exactly when the next value is non-null and smaller |
| Common.MinPresentAbsent | hazeltask-core/src/main/java/com/hazeltask/executor/task/TaskRecoveryTimerTask.java:62-70 | the accumulator stays at `Long.MAX_VALUE` iff every non-null value is `Long.MAX_VALUE` |
| Grouped.SumSizesIsItemCount | src/main/java/com/succinctllc/core/concurrent/collections/grouped/GroupedQueue.java:189-195 | the summed sub-queue sizes equal the number of items held |
| Grouped.SumSizesZero | src/main/java/com/succinctllc/core/concurrent/collections/grouped/GroupedQueue.java:189-195 | the size is zero iff every registered sub-queue is empty |
| Grouped.ItemsReplace | src/main/java/com/succinctllc/core/concurrent/collections/grouped/GroupedQueue.java:189-195 | replacing one registered group's queue swaps exactly that queue's items and leaves the other groups' items alone |
| Grouped.WellFormedAdd | src/main/java/com/succinctllc/core/concurrent/collections/grouped/GroupedQueue.java:64-68 | registering a new key with an empty queue keeps the registry duplicate-free and equal to the key set |
| Grouped.HeadTimesCover | src/main/java/com/succinctllc/core/concurrent/collections/grouped/GroupedQueue.java:176-180 | every non-empty sub-queue's head time is among the times the loop visits |
| Grouped.OldestHead | src/main/java/com/succinctllc/core/concurrent/collections/grouped/GroupedQueue.java:174-186 | the minimum over the head times is at most every non-empty queue's head time; it is `Long.MAX_VALUE` iff every head is stamped `Long.MAX_VALUE`, and otherwise is some queue's head time |
| Grouped.OldestHeadAbsentIffEmpty | src/main/java/com/succinctllc/core/concurrent/collections/grouped/GroupedQueue.java:174-186 | when no head is stamped `Long.MAX_VALUE`, the oldest time is absent iff the total size is zero |
| Grouped.SizeAccounts | src/main/java/com/succinctllc/core/concurrent/collections/grouped/GroupedQueue.java:189-195 | the live size equals the number of offers minus the number of items taken out |
| Grouped.InvRegister | src/main/java/com/succinctllc/core/concurrent/collections/grouped/GroupedQueue.java:62-74 | registering a new group keeps shape and item accounting and leaves the size unchanged |
| Grouped.InvAppend | src/main/java/com/succinctllc/core/concurrent/collections/grouped/GroupedQueue.java:76-81 | appending an item to its group's queue keeps shape, counts the item as offered, and grows the size by one |
| Grouped.InvTake | src/main/java/com/succinctllc/core/concurrent/collections/grouped/GroupedQueue.java:197-217 | taking a prefix of one queue keeps shape, counts exactly that prefix as taken out, and shrinks the size by its length |
| Grouped.FifoRegister | src/main/java/com/succinctllc/core/concurrent/collections/grouped/GroupedQueue.java:64-68 | a newly registered empty queue keeps every group's order |
| Grouped.FifoAppend | src/main/java/com/succinctllc/core/concurrent/collections/grouped/GroupedQueue.java:76-81 | an offer appended at the back of its group's queue keeps, for every group, "taken out + still queued = offered, in order" |
| Grouped.FifoTake | src/main/java/com/succinctllc/core/concurrent/collections/grouped/GroupedQueue.java:94-100 | taking the front of one queue into the removal log keeps that order for every group |
| Grouped.HeadIsOldestOffered | src/main/java/com/succinctllc/core/concurrent/collections/grouped/GroupedQueue.java:94-100 | a group's head is the earliest item of that group offered and not yet taken out |
| Grouped.TakenInOrder | src/main/java/com/succinctllc/core/concurrent/collections/grouped/GroupedQueue.java:94-100 | between two valid states with the same offers, the items of a group taken out in between are the front of its old queue, in order, and its queue now holds the rest |
| Grouped.QueueRegister | src/main/java/com/succinctllc/core/concurrent/collections/grouped/GroupedQueue.java:62-74 | registering a new group keeps the full invariant (shape, accounting, FIFO) and the size |
| Grouped.QueueAppend | src/main/java/com/succinctllc/core/concurrent/collections/grouped/GroupedQueue.java:76-81 | appending keeps the full invariant, logs the offer, and grows the size by one |
| Grouped.QueueTake | src/main/java/com/succinctllc/core/concurrent/collections/grouped/GroupedQueue.java:197-217 | taking a prefix keeps the full invariant, logs that prefix in order, and shrinks the size by its length |
| Grouped.GroupedQueue.constructor | src/main/java/com/succinctllc/core/concurrent/collections/grouped/GroupedQueue.java:30-40 | a new queue has no groups, no items, empty logs, and is valid |
| Grouped.GroupedQueue.GetOrCreateGroupQueue | src/main/java/com/succinctllc/core/concurrent/collections/grouped/GroupedQueue.java:62-74 | returns the group's queue; a new key gets an empty queue and is appended to `groups` exactly then; a known key changes nothing; the size is unchanged |
| Grouped.GroupedQueue.Offer | src/main/java/com/succinctllc/core/concurrent/collections/grouped/GroupedQueue.java:76-81 | the item's group queue becomes its old contents plus the item, every other group is unchanged, the key is registered iff it was new, the size grows by one, and the call reports true |
| Grouped.GroupedQueue.AppendToGroup | src/main/java/com/succinctllc/core/concurrent/collections/grouped/GroupedQueue.java:79 | the sub-queue offer: appends to an existing group's queue and keeps the invariant |
| Grouped.GroupedQueue.Peek | src/main/java/com/succinctllc/core/concurrent/collections/grouped/GroupedQueue.java:85-91 | null when the router yields no queue or the queue is empty, otherwise that queue's head; nothing changes |
| Grouped.GroupedQueue.Poll | src/main/java/com/succinctllc/core/concurrent/collections/grouped/GroupedQueue.java:94-100 | null, with nothing changed, iff the router yields no queue or that queue is empty; otherwise removes and returns the head, which is the group's earliest offer not yet taken out; the size drops by one |
| Grouped.GroupedQueue.Size | src/main/java/com/succinctllc/core/concurrent/collections/grouped/GroupedQueue.java:188-195 | the accumulated size equals the number of items held |
| Grouped.GroupedQueue.GetOldestQueueTime | src/main/java/com/succinctllc/core/concurrent/collections/grouped/GroupedQueue.java:174-186 | null iff every non-empty queue's head is stamped `Long.MAX_VALUE`; otherwise the smallest head time, which some queue's head has; null iff empty when no head is stamped `Long.MAX_VALUE` |
| Grouped.GroupedQueue.DrainTo | src/main/java/com/succinctllc/core/concurrent/collections/grouped/GroupedQueue.java:197-206 | returns the old length of the named group's queue, appends all its items in FIFO order to the collection, empties that queue only, and logs the items as taken out |
| Grouped.GroupedQueue.DrainToAtMost | src/main/java/com/succinctllc/core/concurrent/collections/grouped/GroupedQueue.java:208-217 | moves and returns `min(max, length)` items (none when `max <= 0`) from the front of the named group's queue to the end of the collection, in order; the rest stays queued |
| Grouped.GroupedQueue.PollAll | src/main/java/com/succinctllc/core/concurrent/collections/grouped/GroupedQueue.java:198-205 | the drain loop moves the whole queue, in order, and counts its length |
| Grouped.GroupedQueue.PollAtMost | src/main/java/com/succinctllc/core/concurrent/collections/grouped/GroupedQueue.java:209-216 | the bounded drain loop stops after `max` items or when the queue is empty and moves exactly that prefix |
| Recovery.Cutoff | hazeltask-core/src/main/java/com/hazeltask/executor/task/TaskRecoveryTimerTask.java:62-74 | with no reported time below `Long.MAX_VALUE` the cutoff is the clock minus the empty buffer; otherwise it is the smallest reported time minus the expire buffer, with Java's wrapping subtraction |
| Recovery.OldestReported | hazeltask-core/src/main/java/com/hazeltask/executor/task/TaskRecoveryTimerTask.java:62-70 | the accumulator stays at `Long.MAX_VALUE` iff no member reports a usable time, and otherwise equals the smallest reported time |
| Recovery.CutoffDefault | hazeltask-core/src/main/java/com/hazeltask/executor/task/TaskRecoveryTimerTask.java:26-27 | with the default buffers and no underflow the cutoff is exactly `now - 10000` or `min - 5000` |
| Recovery.CutoffExample | hazeltask-core/src/main/java/com/hazeltask/executor/task/TaskRecoveryTimerTask.java:72-73 | times {100, 200, null} with a 5 ms buffer give cutoff 95 |
| Recovery.CutoffAllAbsent | hazeltask-core/src/main/java/com/hazeltask/executor/task/TaskRecoveryTimerTask.java:70-71 | all-null responses give the clock minus the empty buffer |
| Recovery.LocalPendingTasks | hazeltask-core/src/main/java/com/hazeltask/executor/task/TaskRecoveryTimerTask.java:82 | the query result holds every stored task with `createdAt < cutoff`, as many times as it is stored, and nothing else |
| Recovery.RecoveredAreStale | hazeltask-core/src/main/java/com/hazeltask/executor/task/TaskRecoveryTimerTask.java:69-82 | every recovered task was created more than the expire buffer before every reported time |
| Recovery.SelectedIffStale | hazeltask-core/src/main/java/com/hazeltask/executor/task/TaskRecoveryTimerTask.java:69-74 | the strict `createdAtMillis <` comparison selects a task exactly when it was created more than the expire buffer before every reported time, or, when no member reports one, more than the empty buffer before the clock (both directions, without wrap-around) |
| Recovery.SubmittedCount | hazeltask-core/src/main/java/com/hazeltask/executor/task/TaskRecoveryTimerTask.java:90-92 | the resubmission loop stops short of the end iff a submission throws before the end |
| Recovery.TaskRecoveryTimerTask.constructor | hazeltask-core/src/main/java/com/hazeltask/executor/task/TaskRecoveryTimerTask.java:33-39 | default buffers 5000/10000 and empty metric logs |
| Recovery.TaskRecoveryTimerTask.Execute | hazeltask-core/src/main/java/com/hazeltask/executor/task/TaskRecoveryTimerTask.java:41-109 | the timer runs once per cycle; a failed cluster call or query returns true with nothing recorded; otherwise it returns true iff tasks matched, marks the meter once iff tasks matched, submits the matching tasks in order as recovered up to the failing one, and updates the histogram with the count iff all submissions succeeded |
| Recovery.TaskRecoveryTimerTask.StaleQuery | hazeltask-core/src/main/java/com/hazeltask/executor/task/TaskRecoveryTimerTask.java:60-74 | builds exactly the query `createdAt < Cutoff(...)` |
| Recovery.TaskRecoveryTimerTask.OldestTimestamp | hazeltask-core/src/main/java/com/hazeltask/executor/task/TaskRecoveryTimerTask.java:62-67 | the loop computes the minimum accumulator over the responses |
| Recovery.TaskRecoveryTimerTask.ResubmitAll | hazeltask-core/src/main/java/com/hazeltask/executor/task/TaskRecoveryTimerTask.java:90-92 | submits each task once, in order, flagged as recovered, until a submission throws; reports whether all went through |
| LocalExecutor.IntervalAfter | src/main/java/com/succinctllc/hazelcast/work/executor/LocalWorkExecutorService.java:73-90 | the interval always stays between 100 and 10000 |
| LocalExecutor.NextInterval | src/main/java/com/succinctllc/hazelcast/work/executor/LocalWorkExecutorService.java:80-93 | one update of the interval: it stays within 100..10000, and a completed sleep below the ceiling strictly grows it |
| LocalExecutor.IntervalAfterStep | src/main/java/com/succinctllc/hazelcast/work/executor/LocalWorkExecutorService.java:80-93 | one more pass applies exactly one step of the interval update |
| LocalExecutor.ResetOnWork | src/main/java/com/succinctllc/hazelcast/work/executor/LocalWorkExecutorService.java:81-82 | a pass that finds work resets the interval to 100 whatever came before |
| LocalExecutor.InterruptKeepsInterval | src/main/java/com/succinctllc/hazelcast/work/executor/LocalWorkExecutorService.java:88-93 | an interrupted sleep leaves the interval unchanged |
| LocalExecutor.IdleGrows | src/main/java/com/succinctllc/hazelcast/work/executor/LocalWorkExecutorService.java:89-90 | a completed sleep never shrinks the interval and strictly grows it below the ceiling |
| LocalExecutor.IdleClosedForm | src/main/java/com/succinctllc/hazelcast/work/executor/LocalWorkExecutorService.java:73-90 | after a reset, k completed sleeps in a row give `min(10000, 100 * 2^k)` |
| LocalExecutor.InterruptedRunFreezes | src/main/java/com/succinctllc/hazelcast/work/executor/LocalWorkExecutorService.java:88-93 | any run of interrupted sleeps leaves the interval where it was |
| LocalExecutor.WorkCount | src/main/java/com/succinctllc/hazelcast/work/executor/LocalWorkExecutorService.java:81-83 | counts the passes that hand work to the pool: at most all passes, and none exactly when every pass was idle |
| LocalExecutor.Run | src/main/java/com/succinctllc/hazelcast/work/executor/LocalWorkExecutorService.java:78-95 | the reference run of the loop over a schedule: at most one pass per tick, and the passes already made are kept |
| LocalExecutor.RunStops | src/main/java/com/succinctllc/hazelcast/work/executor/LocalWorkExecutorService.java:78 | no pass once the pool is shut down; otherwise the run stops right after the first pass whose loop test sees the pool shut down, and runs the whole schedule only if none does |
| LocalExecutor.RunAccounts | src/main/java/com/succinctllc/hazelcast/work/executor/LocalWorkExecutorService.java:80-90 | along a run the interval is the step function over the passes, and exactly one item is handed over per pass that found work |
| LocalExecutor.RunInterruptStatus | src/main/java/com/succinctllc/hazelcast/work/executor/LocalWorkExecutorService.java:88-93 | the thread ends a run interrupted exactly when it started interrupted or some sleep of the run was interrupted |
| LocalExecutor.RunInterrupts | src/main/java/com/succinctllc/hazelcast/work/executor/LocalWorkExecutorService.java:88-93 | an idle pass's sleep is interrupted exactly when the thread was interrupted on entry, an interrupt arrives during it, or an earlier sleep of the run was interrupted, so an interrupt caught once cuts every later sleep short |
| LocalExecutor.EmptyStays | src/main/java/com/succinctllc/hazelcast/work/executor/LocalWorkExecutorService.java:80 | the loop itself never adds to a sub-queue: with no offer in between the passes of a run, an empty sub-queue stays empty |
| LocalExecutor.RunRouting | src/main/java/com/succinctllc/hazelcast/work/executor/LocalWorkExecutorService.java:80-87 | a pass finds work only when the router yields a queue, and the loop itself never refills a group whose routed poll came up empty: with no offer in between, it stays empty to the end of the run |
| LocalExecutor.RunSummary | src/main/java/com/succinctllc/hazelcast/work/executor/LocalWorkExecutorService.java:71-97 | a run from the sync thread's start state keeps every promise of the loop listed in `SyncPromises` (stopping, interval, hand-over count, routing, interrupts) |
| LocalExecutor.LocalWorkExecutorService.constructor | src/main/java/com/succinctllc/hazelcast/work/executor/LocalWorkExecutorService.java:25-28 | a fresh empty grouped queue, not started, no pool |
| LocalExecutor.LocalWorkExecutorService.Start | src/main/java/com/succinctllc/hazelcast/work/executor/LocalWorkExecutorService.java:30-50 | the first call builds the pool (0 core, 10 max threads, 60 s keep-alive, queue of 20) and one sync thread; later calls change nothing |
| LocalExecutor.LocalWorkExecutorService.Execute | src/main/java/com/succinctllc/hazelcast/work/executor/LocalWorkExecutorService.java:114-117 | the item is appended to its group's queue in the grouped queue, its key is appended to the registry exactly when it is new, the item is logged as offered, and the size grows by one |
| LocalExecutor.LocalWorkExecutorService.GetQueueSize | src/main/java/com/succinctllc/hazelcast/work/executor/LocalWorkExecutorService.java:110-112 | returns the grouped queue's size, which is the number of items it holds |
| LocalExecutor.LocalWorkExecutorService.Shutdown | src/main/java/com/succinctllc/hazelcast/work/executor/LocalWorkExecutorService.java:119-121 | the pool is shut down and nothing else changes |
| LocalExecutor.LocalWorkExecutorService.IsShutdown | src/main/java/com/succinctllc/hazelcast/work/executor/LocalWorkExecutorService.java:127-129 | reports the pool's shutdown state |
| LocalExecutor.LocalWorkExecutorService.RunQueueSync | src/main/java/com/succinctllc/hazelcast/work/executor/LocalWorkExecutorService.java:71-97 | the started flag, the pool and the sync-thread count stay as they were; the service ends in the state the reference run computes from the old queue, shutdown flag and interrupt status, and that state keeps `SyncPromises`: no pass once shut down, a stop right after the first shutdown, interval = step function over the passes, one item handed per pass that found work, work only from a routed queue, a group found empty is not refilled by the loop itself, interrupts sticky. The items handed to the pool are logged as taken out, are appended to `submitted`, and are, per group, the front of its old queue in order, with the rest still queued |
| LocalExecutor.LocalWorkExecutorService.SyncLoop | src/main/java/com/succinctllc/hazelcast/work/executor/LocalWorkExecutorService.java:78-95 | the `while (!isShutdown())` loop ends with the sub-queues, interval, interrupt status, shutdown flag, passes and handed items that the reference run `Run` computes from the start state, keeps the grouped queue valid, and logs exactly the handed items as taken out |
| LocalExecutor.LocalWorkExecutorService.SyncPass | src/main/java/com/succinctllc/hazelcast/work/executor/LocalWorkExecutorService.java:80-93 | one pass finds work iff the router yields a queue and that queue is non-empty; then its head is handed to the pool, the queue loses exactly its head, and the interval resets; otherwise nothing is handed, the queues are unchanged, and the sleep is interrupted iff the thread already was or an interrupt arrives; the interval follows `NextInterval`, and the interrupt status is sticky |

## Left out

- The router (`GroupedQueueRouter`, `InOrderRouter`) is not part of this model. `Peek` and `Poll` take its choice as a parameter: a registered group, or none.
- `TrackedQueue` is not part of this model. Each sub-queue is a sequence of items, and its oldest item time is the creation time of its head.
- `iterator()` and `FastPartitionedQueueIterator` are not modelled. Their order follows the hash map's iteration order and their `remove` depends on iterators not shown.
- The accessors `getQueuesByGroup`, `getQueueByGroup` and `getGroups` are not modelled as methods. The model's fields are readable directly.
- Concurrency is not modelled: `ConcurrentHashMap`, `CopyOnWriteArrayList`, `AtomicBoolean.compareAndSet`, the sync thread. Every operation runs as one sequential step. The `putIfAbsent`-lost branch of `getOrCreateGroupQueue` (lines 69-71) can only happen under a race, so it does not occur in the model.
- Grouped.GroupedQueue.Size and Grouped.GroupedQueue.GetOldestQueueTime loop over the `groups` registry rather than the map's values. `Valid()` makes the two one-to-one, and a sum or a minimum does not depend on the order.
- Grouped.GroupedQueue.Size: Java's 32-bit `int` overflow of the sum is not modelled. The size is an unbounded integer.
- Grouped.GroupedQueue.Offer: the sub-queue's own `offer` is assumed to always succeed, as an unbounded linked queue does. `TrackedQueue` is not shown.
- Grouped.GroupedQueue.DrainTo and Grouped.GroupedQueue.DrainToAtMost require the group to exist. The source dereferences a null queue for an unknown group.
- LocalExecutor.LocalWorkExecutorService.Shutdown and LocalExecutor.LocalWorkExecutorService.IsShutdown require a started service. Before `start` the pool is null in the source.
- `BoundedThreadPoolExecutorService` is not part of this model. The pool is its constructor settings, a log of the items submitted to it and a shutdown flag. Saturation, rejection and the execution of items are not modelled.
- `shutdownNow`, `isTerminated` and `getOldestWorkCreatedTime` are not modelled. They delegate to the pool and to `HazelcastWorkGroupedQueue`, which are not part of this model.
- LocalExecutor.LocalWorkExecutorService.RunQueueSync runs the non-terminating loop over a finite schedule of passes. Each pass records:
  - the router's choice;
  - whether an interrupt arrives during the sleep;
  - whether the pool is shut down before the next loop test.
  The length of the sleeps, thread names and the daemon flag are not modelled. The returned future is ignored, as in the source.
- LocalExecutor.EmptyStays and LocalExecutor.RunRouting (and the matching clause of `SyncPromises`, `RunSummary` and `RunQueueSync`) hold only because no offer interleaves with a modelled run. In the program, `execute` (`LocalWorkExecutorService.java:114-116`) offers items while the sync thread sleeps, so a group found empty can be refilled before a later pass. These properties say only that the loop itself never adds to a sub-queue.
- LocalExecutor.LocalWorkExecutorService.RunQueueSync is one call for the whole life of the sync thread. Calling it again would restart the interval at 100, which the source's single endless `run()` never does. No run-once guard is modelled.
- The recovery cycle's inputs are parameters, and failures are a `Fault` input:
  - the cluster call `getOldestTaskTimestamps` (a sequence of nullable times);
  - the clock;
  - the local pending-task store;
  - which call throws, if any.
- `getLocalPendingTasks` is modelled as an order-preserving filter over the node's local store. The SQL string is modelled as the `Query` value it denotes; the string formatting and the Hazelcast map query are not modelled.
- Recovery.SelectedIffStale and Recovery.RecoveredAreStale are stated only for inputs where the cutoff subtraction does not wrap around. Across a wrap the comparison selects by the wrapped value, which `Recovery.Cutoff` models exactly.
- The Yammer timer, meter and histogram are modelled as counters and a log of histogram values. The logger is not modelled.
- `HazelcastTopologyService.java`, `SubmitTaskTask.java`, `GetLocalQueueSizesOp.java`, `HazeltaskConfig.java`, `LocalFuturesWaitingGauge.java`, `ITopologyService.java`, `Task.java` and `PreventDuplicatesTest.java` are not part of this model: they cover network RPC, cluster operations, configuration, metrics and interfaces outside the local core.
