# PtPlus scheduler core in Dafny

PtPlus is a small cooperative scheduler on top of protothreads. Its tasks are
statically allocated items (`pt_item_t`) linked into one intrusive circular
doubly-linked list, `pt_pool`. `pt_task_schedule` walks that pool in passes:

- It resumes each item, ORs the returned statuses, and unlinks the first item
  that reports `PT_EXITED` or `PT_ENDED`, ending the pass there.
- It repeats passes until one of them aggregates to `PT_WAITING`.

`pt_task_idle_time` reports how long the host may sleep: the smallest remaining
time of the items' timers, capped at 1000. A set of macros registers tasks,
delays them, waits on semaphores with a timeout, and spawns sub-tasks
(`PT_INVOK`).

The project has three modules, one per source file.

- `list.dfy` (module `IntrusiveList`) models `list.h`.
  - The nodes live in an arena: `prev` and `next` are arrays of node indices, node
    0 is the sentinel (the list head) and -1 is the null pointer.
  - A ghost sequence `Elems` gives the ring order after the sentinel.
  - `IsRing` states that following `next` from the sentinel visits `Elems` in
    order and comes back, and that following `prev` visits it backwards. So every
    linked node n has `n->next->prev == n` and `n->prev->next == n`.
  - Every mutating operation is a method of the class `Ring` that keeps `IsRing`
    and states the new `Elems`.
- `cycle.dfy` (module `Cycle`) is the specification of one call of
  `pt_task_schedule`, on sequences.
  - A pass (`Pass`, `PassFrom`) resumes the pool in order, stops at the first
    finished status and removes that item (`Remaining`).
  - A call (`Schedule`, `CycleFrom`) is the list of its passes, the pool it leaves
    and whether it ended on a quiescent pass.
  - The lemmas state what the code promises about passes and calls.
- `pt_plus.dfy` (module `PtPlus`) models `pt_plus.c` and the macros of
  `pt_plus.h` as methods of a class `Scheduler`.
  - The scheduler owns the pool's `Ring`, an array of items (task function,
    continuation, timer) and the array of `pt_anchor` flags, one per `PT_INVOK`
    site.
  - `Scheduler.Schedule` is the do/while loop of `pt_task_schedule`.
    `Scheduler.RunPass` is its inner `list_for_each_entry` loop, which unlinks
    through `Ring.Delete`. Both are proved against `Cycle.Schedule` and
    `Cycle.Pass`.

A task body is not code here. Resuming an item is a call of an oracle
`resume(item, pass)`, which gives the status the item returns in that pass of the
call. Statuses are the protothread values `PT_WAITING` 0, `PT_YIELDED` 1,
`PT_EXITED` 2 and `PT_ENDED` 3, and the code combines them with `|`.

Timers come from a timer library that is not part of this model. So
`timer_expired` and `timer_remaining` are function-valued parameters.
`timer_set(t, ms)` records the current tick `now` and the interval `ms`.

Two details of the code that the model keeps as written:

- `pt_task_idle_time` calls `timer_remaining` on every pooled item, whether its
  timer is armed or not (pt_plus.c:65-72), and so does `Scheduler.IdleTime`.
- The parent sets `pt_anchor = 1` (pt_plus.h:238) before the spawn can be
  resumed. So the spawn's first resumption already runs the body
  (`Scheduler.InvokThenResume`), and a body that completes after N resumptions
  is resumed N times.

## Model

| member | source | states |
|---|---|---|
| IntrusiveList.Ring.constructor | list.h:24-26 | `LIST_HEAD`: the new list is a valid ring with no linked node. |
| IntrusiveList.Ring.Initialize | list.h:28-31 | `list_initialize`: afterwards the list is a valid, empty ring. Pointers of nodes that were linked are left as they were. |
| IntrusiveList.Ring.AddHead | list.h:33-39 | `list_add_head`: `item` becomes the first node and the old nodes follow in their old order. So the length grows by one and the ring invariant still holds. Unlinked nodes other than `item` keep their pointers. |
| IntrusiveList.Ring.AddTail | list.h:41-47 | `list_add_tail`: `item` becomes the last node, after the old nodes in their old order. The ring invariant still holds. Unlinked nodes other than `item` keep their pointers. |
| IntrusiveList.Ring.Delete | list.h:49-54 | `list_delete`: exactly `item` leaves the ring, the others keep their relative order, the ring invariant still holds, and `item`'s `prev` and `next` become null. Unlinked nodes other than `item` keep their pointers. |
| IntrusiveList.Ring.Next | list.h:56-62 | `list_next`: the node after `item` in ring order, or null when `item` is the last node. From the head it is the first node, or null on an empty list. |
| IntrusiveList.Ring.IsEmpty | list.h:74-77 | `list_is_empty`: returns 1 when no node is linked and 0 otherwise. |
| IntrusiveList.Ring.Length | list.h:79-89 | `list_length`: the count of nodes met by `list_for_every` from the head back to the head is the number of linked nodes. |
| IntrusiveList.RingAddHead | list.h:33-39 | Rewriting the four pointers of `list_add_head` turns a ring with order `e` into a ring with order `[item] + e`. |
| IntrusiveList.RingAddTail | list.h:41-47 | Rewriting the four pointers of `list_add_tail` turns a ring with order `e` into a ring with order `e + [item]`. |
| IntrusiveList.RingDelete | list.h:49-54 | Bypassing `item`, as `list_delete` does, turns a ring with order `e` into a ring with order `e` without `item`, whatever is then stored in `item`'s own pointers. |
| IntrusiveList.WithoutSpec | list.h:49-54 | Removing a node from a list without repetitions removes exactly that node. The list is one shorter, and the other nodes stay, still without repetitions. |
| Cycle.Or | pt_plus.c:43 | `overall_state \|= state` on statuses: the result is `PT_WAITING` only when both are. It is at least each operand, and it is finished (at least `PT_EXITED`) exactly when one operand is. |
| Cycle.PassFrom | pt_plus.c:40-49 | The inner loop stops after at least the items already resumed and at most the whole pool. It stops early only with `exited` set, by breaking on a finished item, and it goes through the whole pool otherwise. |
| Cycle.StopsAtFirstExit | pt_plus.c:40-48 | From any point of a pass: if the pass broke off, the last item resumed reported a finished status and no item before it (from that point on) did; if it did not break off, no item from that point on reported one. |
| Cycle.PassOrder | pt_plus.c:39-48 | A pass resumes items from the head in list order, up to and including the first that reports a finished status. No later item is resumed, and without such an item it resumes all of them. |
| Cycle.PassAggregate | pt_plus.c:39-43 | A pass aggregates to `PT_WAITING` exactly when every item it resumed returned `PT_WAITING`. |
| Cycle.ExitForcesAnotherPass | pt_plus.c:43-56 | A pass that unlinks an item never aggregates to `PT_WAITING`, so the do/while goes round again. |
| Cycle.RemainingSpec | pt_plus.c:44-47 | After a pass, the pool has lost exactly the item that reported a finished status (if any), and the other items keep their order. It is one item shorter in that case, has no repetitions, and holds nothing new. |
| Cycle.HeadExitUnlinked | pt_plus.c:40-47 | An item at the head of the pool that reports a finished status is the only item the pass resumes. The pass unlinks it and leaves the rest of the pool as it was. |
| Cycle.CycleFrom | pt_plus.c:36-56 | A call with a budget of `fuel` further passes runs at least one pass and at most `fuel + 1`. |
| Cycle.StepAt | pt_plus.c:36-56 | Pass k of a call is numbered k and is a pass over the pool it starts from; the first starts from the given pool. A pass that is not the last aggregated to non-`PT_WAITING` and hands the pool it left to the next one. |
| Cycle.CycleEnd | pt_plus.c:46-56 | The pool a call leaves is the pool its last pass left. |
| Cycle.CycleQuiesced | pt_plus.c:56 | A call ends quiescent exactly when its last pass aggregated to `PT_WAITING`. A call that did not quiesce used its whole budget. |
| Cycle.ScheduleStep | pt_plus.c:36-56 | After pass k, the loop test either starts pass k + 1 over the pool pass k left (non-`PT_WAITING` aggregate, budget left) or ends the call with that pool, quiescent exactly when the aggregate was `PT_WAITING`. |
| Cycle.QuiescentLastPass | pt_plus.c:36-56 | A quiescent call ends with a pass that resumed every item of its pool, each returning `PT_WAITING`, and unlinked nothing. |
| Cycle.ExitNeverEndsCycle | pt_plus.c:43-56 | A pass that unlinks an item is never the last pass of a call that quiesced. |
| Cycle.PoolShrinks | pt_plus.c:44-47 | Over a whole call, the pool only loses items, one per pass that unlinked an item. It stays without repetitions. |
| Cycle.EmptyPool | pt_plus.c:36-56 | On an empty pool, `pt_task_schedule` runs one empty, quiescent pass and returns. |
| PtPlus.SemTake | pt_plus.h:303-311 | With a positive count, it takes exactly one (never going below zero) and reports 0. With a zero count, it reports 1 and leaves the count. |
| PtPlus.Semaphore.SignalFromIsr | pt_plus.h:243 | `PT_SEM_SIGNAL_FROM_ISR`: the count grows by exactly one and nothing else changes. |
| PtPlus.Scheduler.constructor | pt_plus.c:30 | `LIST_HEAD(pt_pool)`: an empty pool. Every item slot starts zeroed, with its anchor clear. |
| PtPlus.Scheduler.Schedule | pt_plus.c:32-57 | `pt_task_schedule`: the pool afterwards, whether the last pass was quiescent, and the number of passes are exactly those of `Cycle.Schedule` on the old pool. The ring invariant still holds. |
| PtPlus.Scheduler.CyclePass | pt_plus.c:36-56 | One iteration of the do/while, given the pool that pass `round` of the call starts from. After it, the pool is the one pass `round + 1` starts from, or the call ends here with the pool, the pass count and the quiescence the specification gives. |
| PtPlus.Scheduler.RunPass | pt_plus.c:38-49 | The inner `list_for_each_entry` loop: the aggregate status is that of `Cycle.Pass` on the old pool, and the pool afterwards is the old pool less the item that pass unlinks. |
| PtPlus.Scheduler.IdleTime | pt_plus.c:60-74 | `pt_task_idle_time`: the result is at most 1000 and at most the remaining time of every pooled item's timer. It is 1000 or one item's remaining time, so exactly 1000 on an empty pool. It changes nothing. |
| PtPlus.Scheduler.TaskNums | pt_plus.h:172 | `PT_TASK_NUMS`: the number of items in the pool. |
| PtPlus.Scheduler.TaskRun | pt_plus.h:124-131 | `PT_TASK_RUN`: the item gets `func` as its task and a fresh continuation, keeps its timer, and is linked at the head of the pool. So the pool grows by one and no other item changes. |
| PtPlus.Scheduler.TaskDelayBegin | pt_plus.h:160-166 | `PT_TASK_DELAY`: arms only the calling item's own timer with `ms` from `now` and records the wait point. The task goes on exactly when that timer has expired. |
| PtPlus.Scheduler.TaskDelayResume | pt_plus.h:164-165 | At a later resumption at the wait point of `PT_TASK_DELAY`, the task goes on exactly when its timer has expired. |
| PtPlus.Scheduler.SemWaitTimeoutBegin | pt_plus.h:297-312 | `PT_SEM_WAIT_TIMEOUT`: arms only the calling item's timer and records the wait point. The task stays blocked, with the count untouched, unless the count is positive or the timer has expired. Then it takes one count and reports 0, or reports 1 on a timeout. The semaphore wins when both hold. |
| PtPlus.Scheduler.SemWaitTimeoutResume | pt_plus.h:301-311 | At a later resumption at the wait point, the same test and the same outcome, without re-arming the timer. |
| PtPlus.Scheduler.Invok | pt_plus.h:223-239 | `PT_INVOK` as the parent runs it: the site's item takes the parent's task function and the site as its continuation, and is linked at the head of the pool. The body is skipped and the site's anchor is left set. |
| PtPlus.Scheduler.InvokResume | pt_plus.h:232-238 | The spawn resumed at the `LC_SET` point: with the anchor set, it runs the body. A body that completes reaches `PT_EXIT`, resets the continuation and reports `PT_EXITED`. With the anchor clear, it only sets the anchor. |
| PtPlus.Scheduler.InvokThenResume | pt_plus.h:226-238 | After `PT_INVOK`, the spawn's first resumption already runs the body. If the body completes in it, the spawn reports `PT_EXITED`. The pass that first resumes it then unlinks it (`Cycle.PassOrder`, `Cycle.RemainingSpec`). When the spawn is still at the head of the pool at that pass, it is the only item that pass resumes (`Cycle.HeadExitUnlinked`). |

## Left out

- Continuations (`PT_BEGIN`, `LC_SET`, `PT_WAIT_UNTIL` and the jump into a task body) are in `pt.h`, which is not part of this model. A task body is the oracle `resume(item, pass)`. The wait macros are modelled as a first call at the macro (`…Begin`) and a call for each later resumption at its wait point (`…Resume`).
- A task body that changes the pool while `pt_task_schedule` is running it, such as a `PT_INVOK` or `PT_TASK_RUN` inside a resumed task, is not part of `Scheduler.Schedule`. There the pool changes only by the scheduler's own unlinking. The macros are modelled as separate methods on the scheduler's state.
- Scheduler.Schedule: whether the do/while terminates depends on the tasks, so the model bounds it with a budget of `fuel` further passes. When the budget runs out, the call ends with `quiesced` false.
- `timer_set`, `timer_expired` and `timer_remaining` are in `timer.h`, which is not part of this model. Their results are parameters, and so is the clock. The tick wrap-around of `clock_time` (clock-arch.c) is left out with them.
- Scheduler.IdleTime: `remaining` is one function for the whole query, so the clock is taken not to advance between two `timer_remaining` calls of one query.
- `containerof`/`offsetof` (list.h:13-17) and `PT_LINK` (pt_plus.h:52-53) become explicit item handles. The static item of a task function or a `PT_INVOK` site is a handle chosen by the caller.
- Registering an item that is already linked corrupts the ring. `TaskRun` and `Invok` therefore require that the item is not linked.
- Semaphore.SignalFromIsr: the count is an unbounded natural number. The width of `count` is set in `pt-sem.h`, which is not part of this model, so its wrap-around is not modelled. Interrupt atomicity is a concurrency matter and is left out too.
- `PT_SEM_INIT`, `PT_SEM_WAIT` and `PT_SEM_SIGNAL` are in `pt-sem.h`, which is not part of this model. The `Semaphore` constructor only stands in for initialising a count.
- `PT_THREAD_DECL` (pt_plus.h:189-190) is a syntactic wrapper that adds a first yield to a task body. It is not modelled.
- `PT_TASK_DELAY` passes the literal name `pt` rather than its parameter `pt_p` to `PT_WAIT_UNTIL` (pt_plus.h:164). Items are handles here, so the model cannot tell the two apart.
- Statuses are the integers 0 to 3. Only `PT_WAITING` being 0 and the test `>= PT_EXITED` matter to the code.
- test.c, which wires up demo tasks, and the platform clock in clock-arch.c are left out.
