# Xinu priority ready queue and dispatcher, in Dafny

This project models two parts of a Xinu-style teaching kernel and proves
properties about them.

- **The priority queue** (`include/queue.h`, `system/queue.c`,
  `system/newqueue.c`) is an intrusive doubly-linked list of `qentry`
  records that carry a pid and a key. A `queue` header holds `head`, `tail`
  and `size`.
  - `enqueue` keeps the list in descending key order, with FIFO order among
    equal keys.
  - `dequeue` and `getfirst` pop the head, and `getlast` removes the tail's pid.
  - `remove` unlinks the first entry that carries a pid, and `getbypid` finds it.
  - Failures come back as sentinel results: `SYSERR` for a full queue or a
    missing pid, and `EMPTY` (-1) for an empty queue.
- **The dispatcher** (`system/resched.c`) covers `resched` up to the context
  switch, and `sched_age`.
  - `resched` honours the defer counter.
  - It puts a still-current process back on the ready queue at its priority.
  - It makes the head of the ready queue current.
  - It optionally ages the processes that are left in the queue.

The model has three modules.

- `QueueSpec` (`qspec.dfy`) defines the abstract value of a queue. That value
  is the sequence of `(pid, key)` entries that a walk from `head` visits. The
  module also gives the meaning of each queue operation on that sequence and
  the lemmas about order, placement, permutation and round trips.
- `Queues` (`queue.dfy`) has the `Node` and `Queue` classes. The queue
  functions are methods that relink nodes in place.
  - A ghost `nodes` sequence is the list a walk from `head` visits, and
    `contents` is its `(pid, key)` projection.
  - `Valid()` ties these to the links. `size` counts the nodes. `head` and
    `tail` are null exactly when the list is empty, and otherwise they are its
    ends. `next` and `prev` agree and are null at the ends. No node occurs
    twice.
  - A ghost `Repr` set holds the header and every node it links. The
    methods change only objects in `Repr` (and the node they splice in).
  - Each method is specified against `contents`.
- `Resched` (`resched.dfy`) has a `Kernel` class. It holds:
  - `currpid`, plus `ndefers` and `attempt` for the defer record;
  - the process table, as an array of `(state, prio)`;
  - the ready queue;
  - an `aging` flag in place of the compile-time `AGING`.

  The decision `resched` makes is given as a pure function,
  `DispatchOutcome`. The `Resched` method is proved to produce it, and
  lemmas state what it means. Each context switch is recorded as a ghost
  `(old pid, new pid)` event.

Sortedness is not part of `Queue.Valid()`. `sched_age` bumps keys in place
without re-sorting, so it can break the order (`Resched.AgingCanUnsort`).
Order is therefore proved as a property that `enqueue` and `remove` preserve
(`InsertKeepsSorted`, `RemoveKeepsSorted`).

The model follows the code, including these behaviours a reader might not
expect:
- `enqueue` checks only capacity. It does not reject an invalid or duplicate
  pid.
- A full queue and a missing pid both return `SYSERR`. There are no distinct
  "full" and "not found" results.
- `remove` on an empty queue returns `EMPTY`.
- `resched` ignores the result of its `enqueue`.

## Model

| member | source | states |
|---|---|---|
| `QueueSpec.EmptyIsNoProcId` | include/queue.h:12 | `EMPTY` never coincides with a valid process id. |
| `QueueSpec.InsertPos` | system/queue.c:80-82 | The enqueue scan passes every entry whose key is `>=` the new key and stops at the first smaller one, or at the end. |
| `QueueSpec.InsertPosUnique` | system/queue.c:80-82 | The index where the scan stops is the only index with those two stopping properties. |
| `QueueSpec.Insert` | system/queue.c:80-103 | Definition of a successful enqueue on the abstract queue: the entry `(pid, key)` is spliced in at the position where the scan stops, with every other entry kept in order. |
| `QueueSpec.FirstIndex` | system/queue.c:158-160 | The first index that carries the pid. Every earlier entry carries another pid. The index equals the length exactly when the pid is absent. |
| `QueueSpec.RemoveAt` | system/queue.c:216-229 | Unlinking position i keeps the entries before i and shifts the entries after i down by one. |
| `QueueSpec.RemovePid` | system/queue.c:210-233 | Definition of a successful `remove`: the first entry that carries the pid is unlinked. It applies only when the pid is present. |
| `QueueSpec.InsertIsPermutation` | system/queue.c:62-106 | A successful enqueue adds exactly the new entry and drops nothing (multiset). |
| `QueueSpec.InsertPlacement` | system/queue.c:80-103 | On a sorted queue, the new entry comes after every entry with key `>=` its key and before every entry with a smaller key. All other entries stay in place. |
| `QueueSpec.InsertKeepsSorted` | system/queue.c:57-106 | Enqueue keeps a descending-sorted queue sorted. |
| `QueueSpec.InsertPids` | system/queue.c:89-103 | The pid order after an enqueue is the old pid order with the new pid spliced in at the scan position. |
| `QueueSpec.RemoveKeepsSorted` | system/queue.c:201-240 | Removing one entry keeps a sorted queue sorted. |
| `QueueSpec.RemoveIsPermutation` | system/queue.c:216-233 | Removing one entry loses exactly that entry (multiset). |
| `QueueSpec.InsertThenRemove` | system/queue.c:201-233 | Round trip: enqueue a pid that is absent, then remove it by pid, and the original queue comes back. |
| `QueueSpec.FirstIndexUnique` | system/queue.c:210-236 | A scan that has passed only other pids and stands on the pid has found its first occurrence. |
| `QueueSpec.RemoveTailPid` | system/queue.c:185-193 | With unique pids, removing the tail's pid removes the tail entry. |
| `QueueSpec.RemoveTailPidDuplicate` | system/queue.c:192 | With duplicate pids, removing the tail's pid removes an earlier entry, not the tail. |
| `QueueSpec.FifoAmongEqualKeys` | system/queue.c:80-103 | Three entries with equal keys end up in the order they were enqueued. |
| `QueueSpec.MixedKeysScenario` | system/queue.c:62-240 | Enqueue (1,5), (2,9), (3,5) and the order is 2, 1, 3. The head is 2. Removing 1 from the rest leaves [(3,5)]. |
| `Queues.Node.constructor` | system/queue.c:70-74 | A new entry has the given pid and key and null links. |
| `Queues.Queue.constructor` | system/newqueue.c:10-19 | `newqueue`: a fresh, well-formed queue with null head and tail, size 0 and empty contents. |
| `Queues.Queue.Valid` | include/queue.h:15-29 | The invariant of a `queue` header over its `qentry` list. `size` counts the nodes and is at most NPROC. `head` and `tail` are null exactly when the list is empty, and otherwise they are its first and last nodes. Each `next` is the following node and each `prev` the preceding one, null at the ends. No node occurs twice. `contents` is the `(pid, key)` of each node in list order. The header and every node are in `Repr`. |
| `Queues.Queue.IsEmpty` | system/queue.c:31-34 | `isempty` holds exactly when the contents are empty, and exactly when head and tail are null. |
| `Queues.Queue.Nonempty` | system/queue.c:41-44 | `nonempty` holds exactly when the contents are not empty. |
| `Queues.Queue.IsFull` | system/queue.c:51-54 | `isfull` holds exactly when the queue holds NPROC entries. |
| `Queues.Queue.Enqueue` | system/queue.c:62-106 | On a full queue: SYSERR and no change. Otherwise: OK, size plus one, contents are the sorted insertion of (pid, key), and one fresh node is spliced in at the scan position. |
| `Queues.Queue.Splice` | system/queue.c:89-103 | Links the new node between its neighbours and moves head or tail when it lands at an end. The queue stays well formed and contents gain the entry at that position. |
| `Queues.LinkBetween` | system/queue.c:90-96 | After the four pointer writes, the list with the new entry at position i is linked end to end: each `next` is the successor, each `prev` the predecessor, and both ends are null. Only `next`/`prev` fields change. |
| `Queues.Queue.Attach` | system/queue.c:98-103 | Once the pointers are set, head or tail moves to the new entry when it lands at an end and size grows by one. The queue is well formed, with `(pid, key)` inserted into the contents at position i. |
| `Queues.SplicedLinks` | system/queue.c:90-96 | After the splice, every `next`/`prev` link and both ends are consistent again. |
| `Queues.Queue.Dequeue` | system/queue.c:113-145 | On an empty queue: EMPTY and no change. Otherwise: the head's pid, contents and nodes lose their first element, and size drops by one. |
| `Queues.Queue.GetByPid` | system/queue.c:153-163 | Null exactly when no entry carries the pid (including the empty queue). Otherwise the node at the first occurrence. Reads only. |
| `Queues.Queue.GetFirst` | system/queue.c:170-178 | The same result and state change as `dequeue`. |
| `Queues.Queue.Remove` | system/queue.c:201-240 | On an empty queue: EMPTY. When the pid is absent: SYSERR and no change. Otherwise: the pid, only its first entry is gone, every other entry keeps its order, and size drops by one. |
| `Queues.Queue.Unlink` | system/queue.c:216-230 | Links the node's neighbours to each other and moves head or tail off it. The queue stays well formed and contents lose that position. |
| `Queues.Bypass` | system/queue.c:219-222 | After the two pointer writes, the list without position i is linked end to end: each `next` is the successor, each `prev` the predecessor, and both ends are null. |
| `Queues.Queue.Detach` | system/queue.c:225-230 | Once the neighbours point at each other, head or tail moves off the node and size drops by one. The queue is well formed and the contents lose position i. |
| `Queues.UnlinkedLinks` | system/queue.c:219-222 | After the unlink, every `next`/`prev` link and both ends are consistent again. |
| `Queues.Queue.GetLast` | system/queue.c:185-193 | On an empty queue: EMPTY. Otherwise: the tail's pid, with the first entry carrying that pid removed. With unique pids, the contents lose their last entry. |
| `Queues.Queue.IncrementKey` | system/resched.c:62 | `curr->key++`: only that entry's key grows by one, and the links and the well-formedness stay. |
| `Resched.Switched` | system/resched.c:24-33 | The new pid becomes current. A preempted old pid that lost the processor becomes ready. Priorities and every other slot are unchanged. |
| `Resched.Requeued` | system/resched.c:24-28 | Definition of the put-back: a process still current is enqueued with its priority as key when the queue has room, and otherwise the ready queue is unchanged. |
| `Resched.DispatchOutcome` | system/resched.c:22-37 | Definition of a non-deferred dispatch. The old process is put back (`Requeued`). The head of the resulting queue becomes the new pid, and the states change as in `Switched`. The rest of the queue is what remains ready. With aging on, that rest and its processes' priorities are aged (`Aged`, `AgedTable`). |
| `Resched.AgedEntry` | system/resched.c:60-63 | Definition of one aging step on an entry: its key grows by one unless its pid is 0, the old pid or the new pid. |
| `Resched.Aged` | system/resched.c:56-65 | Definition of the aged ready queue: each entry aged by `AgedEntry`, with the same length and order. |
| `Resched.AgedProc` | system/resched.c:60-63 | Definition of one aging step on the process table: the entry's process gains one priority under the same condition as `AgedEntry`, and the table is otherwise unchanged. |
| `Resched.AgedTable` | system/resched.c:56-65 | Definition of the process table after an aging pass: `AgedProc` applied for each entry, head to tail. The table keeps its length. |
| `Resched.AgedTableEffect` | system/resched.c:56-65 | Aging never changes a process state. It raises an aging process's priority by the number of its entries in the queue, and leaves pid 0, the old pid and the new pid alone. |
| `Resched.RequeuedPids` | system/resched.c:24-31 | Putting the old process back keeps every ready pid in range. The queue is non-empty at the dequeue whenever it was non-empty before or the process was current. |
| `Resched.DispatchReadySize` | system/resched.c:24-31 | The ready queue keeps its size when the old process was current and fitted back, and is one smaller otherwise. |
| `Resched.DispatchStates` | system/resched.c:22-33 | After a dispatch the new pid is current. A preempted old process that lost the processor is ready. Every other process keeps its state, with or without aging. |
| `Resched.NotCurrentNotRequeued` | system/resched.c:24-33 | A process that is no longer current and is not ready is not put back. The old head runs, and the old pid is not in the ready queue afterwards. |
| `Resched.DispatchPicksMaximum` | system/resched.c:27-33 | On a sorted ready queue the process that runs next has the largest key among all ready entries, the put-back one included. Without aging, the remaining queue is still sorted. |
| `Resched.PreemptedRunsAgainIff` | system/resched.c:24-33 | A preempted process runs again exactly when every ready entry's key is below its priority. A peer of equal priority goes first. |
| `Resched.AgingInStep` | system/resched.c:52-68 | With unique pids, aging keeps the pid order and moves each entry's key and its process's priority by the same amount: 1, or 0 for pid 0, the old pid and the new pid. Processes not in the queue are untouched. |
| `Resched.AgingCanUnsort` | system/resched.c:54-67 | Aging does not re-sort: a sorted queue [(1,5),(3,5)] aged with old pid 1 becomes the unsorted [(1,5),(3,6)]. |
| `Resched.Kernel.Valid` | system/resched.c:22-33 | The kernel invariant. The ready queue is well formed, and the kernel object and the process table lie outside its footprint. The table has NPROC slots. `currpid` and every ready pid index the table, as `proctab[currpid]` and `proctab[dequeue(...)]` require. |
| `Resched.Kernel.Resched` | system/resched.c:9-44 | When deferred: `attempt` is set and nothing else changes. Otherwise: the current pid, process table and ready queue are exactly `DispatchOutcome` of the old ones, and one (old, new) switch is recorded. The kernel state stays well formed. |
| `Resched.Kernel.SwitchTo` | system/resched.c:31 | `currpid` becomes the chosen pid, and exactly one (old, new) switch is appended to the log. |
| `Resched.Kernel.Dispatch` | system/resched.c:21-37 | The non-deferred path up to the switch: the returned pid, the new process table and the new ready queue are exactly `DispatchOutcome` of the old state. |
| `Resched.Kernel.PutBack` | system/resched.c:22-28 | A process still current is marked ready and enqueued with its priority as key (if the queue has room). A process not current is not put back. |
| `Resched.Kernel.TakeNext` | system/resched.c:31-33 | Returns the pid at the head of the ready queue. The queue loses exactly its head, that process's state becomes current, and no other table slot changes. |
| `Resched.Kernel.SchedAge` | system/resched.c:52-68 | The nodes are unchanged. Each entry's key and its process's priority grow by one, except for pid 0, the old pid and the new pid. An empty queue is left alone. |
| `Resched.Kernel.AgeAll` | system/resched.c:56-65 | The walk from head to tail visits every node once: the contents become the aged contents and the process table the aged table, and the nodes stay as they were. |
| `Resched.Kernel.AgeEntry` | system/resched.c:60-64 | One loop iteration: the entry at position i gains one on its key, and its process one on its priority, unless its pid is 0, the old pid or the new pid. Every other entry and table slot is unchanged. |
| `Resched.AgedPids` | system/resched.c:56-65 | Aging changes keys only: the pid sequence of the queue is unchanged, so pids stay valid process ids. |

## Left out

- `ctxsw` and the resumption of the old process (system/resched.c:39-43) are a register-level context switch. A ghost `switches` log records each (old pid, new pid) decision instead.
- `printqueue` (system/queue.c:10-24) is diagnostic console output only.
- `malloc` and `free` are not modelled, so allocation failure is left out. A new entry is a fresh `Node`, and a removed or dequeued entry is only unlinked.
- `NQENT` (include/queue.h:8-10) is a leftover of an array-based queue and is not used by the linked queue.
- `nonempty(NULL)` returning true (system/queue.c:43) is left out: the model always has a queue object.
- Interrupt masking, timer-driven preemption and concurrency are left out: the model is sequential.
- Integer widths are not modelled. Keys and priorities are unbounded integers, so the int32 overflow of `key++` and `prprio++` under repeated aging is not captured, and `size` (uint32) is a natural number.
- The value of `NPROC` comes from `conf.h`, and the numeric values of `OK` and `SYSERR` come from `kernel.h`. Neither file is part of this model. `NPROC` is a positive constant (8). The results `OK`, `SYSERR`, `EMPTY` and a pid are distinct constructors of `Pid32`.
- `sched_age` is modelled only on the kernel's ready queue, which is the only queue `resched` passes to it. `Resched.Kernel.SchedAge` therefore takes no queue argument.
- Resched.Kernel.Resched: requires that the dispatch has something to run. This means `ndefers > 0`, or a non-empty ready queue, or a still-current old process. The code does not check this, and on an empty ready queue `dequeue` would return `EMPTY` and index the process table with -1.
- Resched.Kernel.Valid requires ready-queue pids to index the process table, but it does not require them to be unique. Properties that need unique pids take that as a hypothesis instead.
- system/clkinit.c, system/mutex.c, system/main.c and system/bak/insert.c are not part of this model. They are hardware set-up, empty stubs, a demo driver and a stale backup.
- `enqueue`, `remove`, `resched` and `sched_age` are split into smaller methods that run the same statements in the same order. The splice of `enqueue` is `Splice`, made of `LinkBetween` for the pointer writes and `Attach` for the header. The unlink of `remove` is `Unlink`, made of `Bypass` and `Detach`. `resched` is `PutBack`, `TakeNext`, `Dispatch` and `SwitchTo`. `sched_age` is `SchedAge`, `AgeAll`, `AgeEntry` and `IncrementKey`.
- The source assigns `currpid` before it calls `sched_age`; the model assigns it afterwards, in `SwitchTo`. `sched_age` gets both pids as arguments and does not read `currpid`, so the outcome is the same.
