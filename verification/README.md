# EventBus dispatch engine in Dafny

A model of the dispatch engine of the C EventBus component (`src/eventbus.c`). The component is built from four parts:

- A fixed-capacity ring of events. Producers push events with `eventbus_publish`.
- A fixed arena of subscriber slots. The used slots are threaded into a doubly linked list, sorted by priority.
- A worker thread. It pops one event at a time and calls, in list order, every subscriber whose event type matches. Category 0 and id 0 act as wildcards on the subscriber side.
- A status word. `eventbus_stop` uses it to make the worker drain the queue and exit.

The model uses immutable values. The modules are:

- `Types`: event types, inputs and events.
- `EventQueue`: the ring. `Contents` is its FIFO abstraction.
- `Registry`: the slot arena and its list. The abstract list is a ghost sequence `order` of slot indices. `Linked` ties the `head`, `prev` and `next` fields and the free status to `order`. `Sorted` states the priority order.
- `Dispatch`: `sub_next` and `process_event`. Each callback invocation is recorded as the index of the slot whose callback ran. `MatchingSlots` is the reference definition of who must be called.
- `Bus`: init, publish, subscribe, unsubscribe, the stop request and one turn of the worker loop.

Three things from outside the model enter as parameters:

- The uninitialised fields of freshly allocated arrays are `Init`'s `blankEvents` and `blankSubs`.
- A stop request from another thread becomes visible to a dispatching worker at an environment-chosen callback count. This is `stopAfter` (`Some(n)` or `None`).
- Heap buffers owned by events are identified by numbers. "Freeing" one means reporting its number.

## Model

| member | source | states |
|---|---|---|
| EventQueue.Count | src/eventbus.c:83-97 | The number of held events is the forward distance from head to tail. It never exceeds the ring size minus one, and it is 0 exactly when head equals tail. |
| EventQueue.Contents | src/eventbus.c:105-117 | The FIFO abstraction of the ring: the `Count` records from head onwards, oldest first, wrapping modulo the ring size, in the order `queue_pop` hands them out. |
| EventQueue.Push | src/eventbus.c:83-97 | `queue_push` returns -1 exactly when the ring already holds size-1 events, and then leaves it unchanged. Otherwise it returns 0 and the contents become the old contents followed by the event. |
| EventQueue.Pop | src/eventbus.c:105-117 | `queue_pop` fails exactly on an empty queue. Otherwise the popped event followed by the new contents equals the old contents. |
| EventQueue.PushThenPop | src/eventbus.c:83-117 | FIFO: after a successful push, the next pop returns the oldest earlier event, or the pushed one if the queue was empty. |
| Dispatch.WildcardRule | src/eventbus.c:137-143 | `Dispatch.Matches` is the break test of the scan. For a publishable type: category 0 matches every event whatever its id, a full type matches only itself, and id 0 matches the whole category. |
| Dispatch.MatchingSlotsMembers | src/eventbus.c:128-146 | A slot is dispatched to exactly when it is listed and its subscription matches. |
| Dispatch.MatchingSlotsSorted | src/eventbus.c:162-179 | Dispatch visits matches in list order, so on a sorted list in non-decreasing priority. |
| Dispatch.SubNext | src/eventbus.c:121-148 | `sub_next` returns -1 for -1. From -2 it scans from the head; from a slot it first sets that slot back to used (`Dispatch.Restored`, line 129) and scans from its successor. It returns the first matching slot after that point, marked in-work, or -1 with no slot marked when none remains. |
| Dispatch.Released | src/eventbus.c:180-185 | After dispatch the event's input is released: `direct` is null, and the size is 0 when a buffer was held. |
| Dispatch.ProcessEvent | src/eventbus.c:162-186 | The callbacks run are exactly the matching slots in list order, cut off after the first callback following which a stop is seen. Without a stop the registry comes back unchanged. After a stop only the last called slot is left in-work. The input buffer is released in both cases. |
| Registry.InsertPos | src/eventbus.c:378-384 | The insertion point is the first list position whose priority exceeds p, or the end of the list. Every slot before it has priority at most p. |
| Registry.FindFreeSlot | src/eventbus.c:404-414 | `sub_finde_free_slot` returns the lowest free index, or -1 exactly when no slot is free. |
| Registry.InsertSubscriber | src/eventbus.c:367-402 | `insert_subscriber` changes only link fields. The new links thread exactly the old list with the slot spliced in at `InsertPos`. On a sorted list that is after all incumbents of equal or lower priority (`Registry.InsertKeepsSorted`). |
| Registry.SpliceFront | src/eventbus.c:385-392 | Relinking at the head (`Registry.LinkFront`) gives the old list with the slot in front. No data field changes. |
| Registry.SpliceAfter | src/eventbus.c:393-401 | Relinking between `prev` and `cur`, or at the tail (`Registry.LinkAfter`), gives the old list with the slot at that position. No data field changes. |
| Registry.InsertKeepsSorted | src/eventbus.c:367-402 | Splicing at the insertion point keeps the list sorted. Every earlier slot has priority at most p and every later one has greater priority, so insertion is stable. |
| Registry.RemoveUnlinks | src/eventbus.c:343-357 | `remove_subscriber`, modelled by `Registry.RemoveSubscriber`, of a listed slot leaves exactly the list without that slot, still sorted. The slot becomes free with null links. Every other slot keeps its data. |
| Registry.SubAdd | src/eventbus.c:416-434 | `sub_add` fails, changing nothing, exactly when no slot is free. Otherwise it fills the lowest free slot and links it at its priority position, keeping the list well formed and sorted. |
| Bus.Init | src/eventbus.c:241-266 | `eventbus_init` produces an unstarted bus with an empty queue. The list is empty and every slot is free with null links. Queue records hold no buffer. |
| Bus.Publish | src/eventbus.c:503-513 | `eventbus_publish` returns -1, changing nothing, exactly when the type has a 0 field or the queue is full. Otherwise the event joins the back of the queue and nothing else changes. |
| Bus.Subscribe | src/eventbus.c:447-459 | `eventbus_subscribe` fails exactly when every slot is taken. Otherwise the subscriber gets the lowest free slot and every other slot keeps its data. The list gains the slot at its priority position and stays well linked and sorted, and a registry with no slot in-work keeps none. |
| Bus.Unsubscribe | src/eventbus.c:469-491 | `eventbus_unsubscribe` returns -1, changing nothing, exactly for a null handle or a free slot. Otherwise it returns 0 and changes only the registry. |
| Bus.UnsubscribeRemoves | src/eventbus.c:469-491 | Unsubscribing a listed, used slot succeeds and frees the slot. The list is the old one without that slot, stays well linked and sorted, and other slots keep their data. A registry with no slot in-work keeps none. |
| Bus.InWorkBlocksUnsubscribe | src/eventbus.c:479-482 | A slot left in-work cannot be unsubscribed: the wait for it to leave in-work has no end in the model either. |
| Bus.IdleListed | src/eventbus.c:197-227 | Between events every listed slot is in use, as `process_event` expects. |
| Bus.RequestStop | src/eventbus.c:317-320 | `eventbus_stop` first sets the status to stopping and touches nothing else. |
| Bus.Drain | src/eventbus.c:204-215 | The stopping worker empties the queue and frees exactly the buffers of the queued events, in queue order. |
| Bus.WorkerStep | src/eventbus.c:197-227 | A stopping worker drains and stops without calling anyone. A working worker with an empty queue changes nothing. Otherwise it pops the oldest event, dispatches it as `process_event` does and frees its buffer, then keeps working unless a stop was seen during dispatch. |
| Bus.StartAsWritten | src/eventbus.c:200 | The worker's first statement sets the status to working whatever it was. |
| Bus.StopLostAsWritten | src/eventbus.c:200 | A stop requested before the worker first runs is overwritten by working. |
| Bus.WorkerStart | src/eventbus.c:197-200 | Corrected start: only an unstarted bus becomes working, and any other status is kept. |
| Bus.StopKept | src/eventbus.c:197-200 | With the corrected start, a stop requested at any time survives the worker's start. |

## Left out

- Threads, mutexes and `TASK_DELAY`:
  - Every operation is one atomic step.
  - A stop racing with a dispatch is the `stopAfter` parameter.
  - The worker's idle delay is a step that changes nothing.
- Interleavings of `eventbus_unsubscribe` with a dispatch are not modelled. Its busy wait is modelled by a precondition: a slot being removed is used, not in-work. In the C code the wait runs outside the lock, so the worker can mark the slot in-work again before the removal. The model does not cover that window.
- Allocation failure in `eventbus_init` (the -1 paths) and `eventbus_create` are left out: they are memory management only. `eventbus_default_config` is left out too.
- `eventbus_stop` past its first statement is left out. Waiting for the stopped status and freeing the arrays is the concurrency and memory management above. `RequestStop` models the status change.
- Callbacks are foreign code and are recorded only as the slot whose callback ran. A callback that publishes, subscribes or unsubscribes re-entrantly is not modelled. So is a callback that writes to the event.
- Thread creation is platform-specific. On the Unix branch `eventbus_init` creates no thread at all. The model treats the worker as an independent step function.
- Init: a queue size of 0 is excluded, because `queue_push` would then divide by zero.
- Integer widths: the `size_t` to `int` conversion of slot indices and the 8-bit event types are kept as unbounded integers, limited to their ranges by `u8`.
- Callback and context pointers, and the result sink, are opaque numbers.
- Queue capacity: a ring of N records holds at most N-1 events, because `queue_push` keeps one record unused (src/eventbus.c:86-87). The model keeps this as it is.
- A second `eventbus_stop` is not detected (src/eventbus.c:317-319); `RequestStop` on a stopping or stopped bus just sets stopping again.
- Bus.Subscribe: requires the list well linked and sorted. `insert_subscriber` relies on both without checking them, and every operation of the model keeps them.
- Bus.Unsubscribe: its precondition assumes the wait at src/eventbus.c:479-482 has ended. That wait does not always end. When a stop cuts a dispatch short (src/eventbus.c:173-174), the last called slot stays in-work, because the `sub_next` that would restore it (line 129) never runs. `eventbus_unsubscribe` on that slot then spins until the arrays are freed. The same happens on the worker thread when a callback unsubscribes its own slot. The precondition excludes these hangs, and `Bus.InWorkBlocksUnsubscribe` states that such a slot cannot be unsubscribed.
- Bus.Unsubscribe: a handle is a slot index. The C pointer arithmetic on a pointer not handed out by `eventbus_subscribe` is undefined behaviour and is not modelled.

## Findings

| source | as written | input that shows it | evidently intended | confidence | as-written member | corrected member |
|---|---|---|---|---|---|---|
| src/eventbus.c:200 | The worker thread starts by setting the status to working unconditionally. | `eventbus_stop` is called after `eventbus_init` created the thread but before the thread ran its first statement. The stopping status is overwritten, the worker never stops, and `eventbus_stop` waits forever. | The worker starts working only from the unstarted status, so a stop requested earlier is kept and the first turn drains and stops. | medium, not executed | Bus.StopLostAsWritten | Bus.WorkerStart |
