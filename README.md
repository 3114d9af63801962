# GAS engine model

A Dafny model of GAS, the Generic ASync framework of this fio fork (`engines/gas.c`). GAS lets
fio drive blocking request types through fio's asynchronous ioengine interface:

- `queue` puts io_us on a bounded submission queue;
- `commit` hands them to a thread pool;
- each pool thread runs `perform_work` and pushes its request onto a bounded completion ("done")
  queue;
- `getevents(min, max)` polls that queue into a scratch array;
- `event(i)` reads the scratch array.

The project has three modules:

- `RingSpec` (ring.dfy): the queue of pointers (`qop`) as a value. It has the slot sequence,
  `head` (the next write index) and `used`. It defines the push and pop arithmetic of gas.c,
  the view of the queued elements oldest first, and a reference bounded FIFO. Lemmas show
  that after any legal sequence of pushes and pops the ring behaves exactly like the
  reference FIFO, and that `used` is the start count plus the pushes minus the pops.
- `QueueOfPointers` (qop.dfy): `qop` as a class over an `array`, written in place. Each method
  is proved against the `RingSpec` function of the same name and keeps a ghost `Contents`
  (oldest first) in step with the slots.
- `Gas` (gas.dfy): the engine. It holds the two qops, the `last_done_gas_ios` scratch array,
  `last_done_used`, and the requests dispatched to the pool but not yet finished (`pool`).
  The thread pool is modelled sequentially:
  - `PerformWork(k)` is the environment step in which a pool thread finishes `pool[k]`. Any
    `k` may be chosen, so completions can arrive in any order.
  - The sleep between passes of getevents is `AwaitCompletion`. During it the pool finishes a
    nondeterministic, non-empty batch of requests.

Where the prose description of the system and the code differ, the model follows the code:

- gas.c's `perform_work` only sleeps and pushes onto the done queue. It calls no backend, so the
  model's work step leaves the io_u's error unchanged.
- A BUSY answer from `queue` ends once `commit` drains the submission queue, not when
  completions are retrieved. `CommitTwo` shows the submission queue empty again after commit.

## Model

| member | source | states |
|---|---|---|
| RingSpec.SlotOf | engines/gas.c:66 | the slot of the k-th oldest element, the one pop reads for k = 0, is a valid slot index |
| RingSpec.View | engines/gas.c:28-33 | the queued elements, oldest first, number exactly `used` |
| RingSpec.Push | engines/gas.c:53-59 | push keeps `0 <= head < capacity` and `0 <= used <= capacity`, keeps the capacity and adds one to `used` |
| RingSpec.Pop | engines/gas.c:61-70 | pop keeps the queue invariant and the capacity and takes one from `used` |
| RingSpec.PushAppends | engines/gas.c:53-59 | after a push, the queue is the old queue with the new pointer appended as the youngest element, and no queued element moves |
| RingSpec.PopTakesOldest | engines/gas.c:61-70 | pop returns the oldest element and leaves the rest in the same order |
| RingSpec.Run | engines/gas.c:53-70 | a sequence of pushes and pops either trips an assert (None) or leaves a valid queue of the same capacity |
| RingSpec.RunIsFifo | engines/gas.c:53-70 | the ring trips an assert on exactly the call sequences where a bounded FIFO of the same capacity overflows or underflows; otherwise it pops the same values and ends with the same contents |
| RingSpec.FifoOrder | engines/gas.c:53-70 | for the bounded FIFO, popped values followed by what remains equal the initial contents followed by everything pushed, and the sizes add up |
| RingSpec.RunFifoOrder | engines/gas.c:53-70 | over any legal push/pop sequence the qop is FIFO, and `used` is the initial count plus pushes minus pops |
| QueueOfPointers.Qop.ContentsIsView | engines/gas.c:28-33 | the ghost contents are the ring's view of the slot array |
| QueueOfPointers.Qop.State | engines/gas.c:28-33 | the fields, read as a ring value, satisfy the ring invariant with the same capacity |
| QueueOfPointers.Qop.constructor | engines/gas.c:39-51 | qop_new needs a positive capacity and gives an empty queue with `head == 0` and `used == 0` |
| QueueOfPointers.Qop.Push | engines/gas.c:53-59 | qop_push needs a free slot; the new state is `RingSpec.Push` of the old one (only slot `head` is written) and the pointer becomes the youngest element |
| QueueOfPointers.Qop.Pop | engines/gas.c:61-70 | qop_pop needs an element; state and result are `RingSpec.Pop` of the old state, the result is the oldest element and the rest stay in order |
| QueueOfPointers.Qop.Available | engines/gas.c:72-75 | qop_available is capacity minus the number queued, and zero exactly when the queue is full |
| QueueOfPointers.Qop.Used | engines/gas.c:77-80 | qop_used is the number queued, and zero exactly when the queue is empty |
| Gas.IoU.constructor | engines/gas.c:170-172 | a new io_u has no request record yet |
| Gas.GasIo.constructor | engines/gas.c:176-183 | a request record is bound to its io_u |
| Gas.Dispatched | engines/gas.c:281-284 | the records commit hands to the pool are, position by position, the records of the submitted io_us |
| Gas.Take | engines/gas.c:311-313 | one pass pops no more than the done queue holds and never takes events past max; it takes the whole done queue unless that would pass max |
| Gas.Engine.constructor | engines/gas.c:138-165 | init builds both queues with capacity depth and a scratch array of depth slots, all empty, with `last_done_used == 0` and nothing in the pool |
| Gas.Engine.Queue | engines/gas.c:196-223 | BUSY exactly when the submission queue is full, and then nothing changes; otherwise the io_u is appended to the submission queue and the answer is QUEUED; the request-record asserts apply only on the second path |
| Gas.Engine.Commit | engines/gas.c:274-292 | the submission queue ends empty, and the pool gains the records of all submitted io_us, in FIFO order, each once; the done queue and scratch array are untouched |
| Gas.Engine.DispatchOldest | engines/gas.c:281-284 | one pass of the commit loop pops the oldest submitted io_u and hands its record to the pool |
| Gas.Engine.PerformWork | engines/gas.c:250-269 | a pool thread finishing request k pushes it onto the done queue (which needs a free slot) and it leaves the pool |
| Gas.Engine.Collect | engines/gas.c:309-321 | a locked pass pops `Take(...)` done entries, appends them in FIFO order to the scratch array after the events already collected, and sets `last_done_used` to the new count |
| Gas.Engine.PopIntoBatch | engines/gas.c:314-318 | one step of the inner loop moves the oldest done entry into scratch slot `events` |
| Gas.Engine.GetEvents | engines/gas.c:295-331 | returns `min <= events <= max` with `last_done_used == events`; the scratch array's first `events` entries followed by the done queue are the old done queue followed by the requests that finished meanwhile, in FIFO order; every pass takes all it can, so a return below max leaves the done queue empty; when `min` were already done there is no wait and the count is the done count capped at max |
| Gas.Engine.KeepPolling | engines/gas.c:306-327 | the later passes of the do-while: sleep and collect until at least min, never past max, keeping the scratch array in FIFO order; a return below max leaves the done queue empty |
| Gas.Engine.WaitRound | engines/gas.c:309-327 | one sleep followed by one locked pass adds at least one event, without passing max |
| Gas.Engine.AwaitCompletion | engines/gas.c:322-326 | while getevents sleeps, the pool finishes a non-empty batch of dispatched requests, in any order, and they fill the empty done queue in finish order |
| Gas.Engine.Event | engines/gas.c:335-346 | needs `0 <= i < last_done_used`; returns the io_u of scratch entry i with its error set to 0 and changes nothing else |
| Gas.NewRequest | engines/gas.c:170-183 | a fresh io_u and request record linked both ways, as prep leaves them |
| Gas.SubmitUntilBusy | engines/gas.c:205-222 | from an empty submission queue, the first depth submissions are QUEUED (each needs its request record), the next one is BUSY whatever it is, and the queue holds the first depth io_us |
| Gas.BusyAtDepthOne | engines/gas.c:205-222 | with depth 1, A is QUEUED and B, submitted before any commit, is BUSY |
| Gas.CommitTwo | engines/gas.c:196-292 | with depth 2, after queueing A and B and committing, the pool holds A's and then B's record, and the submission and done queues are empty |
| Gas.RetrieveOne | engines/gas.c:295-346 | with exactly one finished request, getevents(1, max) returns 1 event and event(0) gives that request's io_u with error 0 |
| Gas.CompletionOrderScenario | engines/gas.c:250-346 | with depth 2, A and B committed and B finishing first, getevents(1, 2) returns 1 event, B; after A finishes, getevents(1, 1) returns A |

## Left out

- Thread pool, mutex and sleeps (`thpool_init`, `thpool_add_work`, `pthread_mutex_*`, `usleep`): no concurrency is modelled. The pool is a sequence of pending requests and completion is the sequential environment step `PerformWork`.
- `perform_work`'s `pr` tracing and its `usleep(123)`: console output and timing only.
- `fio_gas_queued` and `io_u_mark_submit` in commit: they record timestamps and statistics in fio's harness.
- `fio_ro_check` and the `log_err` warnings about the data direction in prep and queue: they only log and do not change control flow.
- The options table (`timeout`) and `register_ioengine`/`unregister_ioengine`: configuration glue with no logic.
- `fio_gas_prep` is not modelled as an operation; `NewRequest` builds the io_u and request record link that prep leaves behind. The `gas_data` back-pointer of `gas_io` is left out, because there is one engine per model.
- The backends (engines/gas-direct-io.c, engines/gas-silly-io.c, engines/s3.c, engines/s3_worker.cpp): file and network I/O and foreign calls. Their `offset & ~(BLKSIZE)` mask clears a single bit and does not round to a block boundary.
- The `worker` and `backend_data` fields of engines/gas.h, and `gas_init_async`/`gas_register_async`: their definitions are not part of this model. A backend that sets the io_u's error is therefore not modelled. `Event` overwrites the error whatever it held.
- Cancel and cleanup: they are commented out of the ops table, so there is nothing to model.
- C `int` overflow of `head + capacity - used` and of the counters: integers are unbounded, and the values stay below `2 * depth`.
- Gas.Engine.GetEvents: requires `min <= |done| + |pool|`, meaning enough dispatched work is outstanding to reach min. Without it the source polls forever, which has no terminating model.
- Gas.Engine.GetEvents: requires `max <= depth`. The source does not check this, but with `max > depth` it can write past the `depth` slots of `last_done_gas_ios`. fio never asks for more than its iodepth.
- Gas.Engine.PerformWork: requires a free slot in the done queue, the assert of qop_push. The model does not prove that fio keeps at most depth requests in flight; the caller must meet this. `AwaitCompletion` meets it by finishing no more requests than the done queue holds.
- Gas.Engine.Event: the `pr` trace of the event index is left out.
