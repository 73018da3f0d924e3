# Timeout driver model

A Dafny model of the software timeout scheduler of `src/timeout.c`. The
scheduler shares one 16-bit hardware counter, TCA0, between any number of
caller-owned timers. The longest load of the counter is 65535 ticks. Each
timer has an absolute deadline and sits in at most one of two lists, which
share its `next` field:

- **The pending list** (`TIMER_0_list_head`) is kept sorted by deadline.
  - A *watermark* (`TIMER_0_absolute_time_of_last_timeout`) records the deadline that fired last.
  - A deadline that has wrapped below the watermark makes the list *rebase* on its head.
  - When the head is more than one load away, the driver's own *dummy* timer is put in front of it, one load after the watermark. The wait is then chained in steps of one load.
- **The execute queue** (`TIMER_0_execute_queue_head`) is a FIFO of expired timers. Their callbacks run later, outside the interrupt.

The model has four modules.

- `Ticks` (`ticks.dfy`): absolute times as 32-bit unsigned words, and their
  wrapping arithmetic.
- `TimerLists` (`lists.dfy`): timer identities, and a list as the sequence of
  the timers it links. It defines sortedness, absence of repeats, the insert
  walk, the rebase and the unlink.
- `Transitions` (`transitions.dfy`): the driver's globals and the TCA0
  registers it uses, as one value `Sched`.
  - Every routine is a function from the state before it to the state after it.
  - `Valid` is the driver's invariant:
    - the pending list is sorted and no timer is linked twice or into both lists;
    - the dummy can only be the head and never enters the queue;
    - the scheduler is running, with the overflow interrupt enabled, exactly when a timer is pending;
    - an empty pending list has watermark 0;
    - otherwise the last load is 65535 less the distance from the watermark to the head, so that distance is at most one load.
  - The `...Facts` lemmas state what each routine promises and that every public routine and the overflow handler keep `Valid`.
- `Timeout` (`scheduler.dfy`): class `Scheduler`, which holds the same globals
  as fields that its methods update in place.
  - The list walks of the C code are loops: the rebase, the sorted insert, the delete search and the walk to the queue's tail.
  - Every method is proved to move the object exactly as the matching `Transitions` function moves the state, and the public methods and `Overflow` keep `Valid()`.

The model follows the code except in two places, both described under
"## Findings":

- Line 152: the class and the functions it is proved against rebase a
  wrapped deadline with the list. The line as written is kept as
  `Transitions.CorrectedAsWritten`.
- Lines 86-89: the scheduler starts from `Transitions.Init`, with the
  overflow interrupt off, rather than from the state init leaves, which
  enables it with nothing pending. That state is kept as
  `Transitions.InitAsWritten`.

Two behaviours of the code as written are modelled and stated, not changed:

- `Transitions.CreateAtHeadRestartsCount` and
  `Transitions.DeleteHeadRestartsCount`: start-at-head (lines 191-202)
  reloads the counter with the distance from the unchanged watermark. It
  does this when a new timer becomes the head of a running scheduler
  (lines 165-172, 291-292) and when the head is deleted (lines 223-225).
  The ticks counted since the last load are then counted again:
  - the new head fires that many ticks late;
  - the time that `TIMER_0_make_absolute` reads falls back by them, while no deadline moves.
- A stopwatch never causes this itself (`Transitions.StopwatchReadsZero`).
  Its deadline is half the range away, and the head of a running
  scheduler is at most one load away, so it never becomes the head while
  the counter runs.
- `Transitions.ShortTimerLinkedLast`: the insert walk (lines 156-163)
  compares deadlines by value (line 157). After a rebase (lines 118-130)
  the watermark lies a wrapped distance before the head, so every pending
  deadline can lie below it in value. A new timer whose deadline then does
  not wrap is linked behind all of them, however soon it is due. Line 152,
  as written or corrected, plays no part.
- `Transitions.ShortTimerAfterRebaseExample` reaches that case from the
  state of the stopwatch example:
  - the stopwatch rebases the list, so the watermark is 0xFFFF_FFF0 and the head 16 ticks on;
  - a 5-tick timer is then linked last, behind the head and the stopwatch;
  - when the head fires, the watermark becomes 0 and a dummy goes in front of the stopwatch, 2^31 ticks on;
  - the 5-tick timer then lies 0xFFFF_FFF5 ticks after the watermark (`Transitions.ShortTimerFiresLateAt`).

## Model

| member | source | states |
|---|---|---|
| Ticks.SubRebased | src/timeout.c:118-130 | subtracting one base from two absolute times keeps their wrapped difference |
| Ticks.ChainFits | src/timeout.c:194-200 | a dummy deadline one load after the watermark comes no later than a head that is more than one load away |
| Ticks.WrapShift | src/timeout.c:152 | the deadline line 152 as written gives a timer that fell below the watermark: 65535 - base + 1 added to it |
| Ticks.WrapShiftOffset | src/timeout.c:151-154 | as written, the corrected deadline lands exactly 65536 ticks after the deadline rebased like the rest of the list |
| Ticks.WrapShiftDistance | src/timeout.c:151-154 | as written, the corrected deadline lies 65536 ticks further from the rebased watermark than the deadline lay from the watermark |
| Ticks.HalfLessRemaining | src/timeout.c:328-340 | half the range less the time still to run to a deadline set half the range after start is the time since start |
| Ticks.AddSubComm | src/timeout.c:110-130 | helper identity of wrapped arithmetic: rebasing the watermark before or after adding elapsed ticks gives the same time |
| Ticks.SubAfter | src/timeout.c:110-116 | helper identity of wrapped arithmetic: going back from e ticks after a time to that time takes 0 - e ticks |
| TimerLists.InsertIndex | src/timeout.c:156-163 | the insert walk stops before the first deadline strictly later than the new one, so every deadline before it is not later |
| TimerLists.Shifted | src/timeout.c:123-126 | the rebase walk changes the deadlines of listed timers only and keeps which timers have deadlines |
| TimerLists.ShiftedKeepsOrder | src/timeout.c:118-130 | rebasing a sorted list on its head puts the head at 0 and keeps the order and every pairwise difference |
| TimerLists.ShiftedStep | src/timeout.c:123-126 | one step of the rebase walk shifts exactly one more timer |
| TimerLists.Splice | src/timeout.c:170-177 | linking a timer at position k keeps the timers before and after it in order |
| TimerLists.SpliceMembers | src/timeout.c:170-177 | linking a timer into a list adds exactly that timer and loses none |
| TimerLists.SpliceSorted | src/timeout.c:156-177 | a timer linked where the insert walk stops keeps the list sorted |
| TimerLists.SpliceDistinct | src/timeout.c:170-177 | linking an unlisted timer adds exactly that timer and no repeat |
| TimerLists.Without | src/timeout.c:229-236 | unlinking keeps every other timer, adds none, and changes nothing when the timer is absent |
| TimerLists.WithoutAt | src/timeout.c:229-236 | unlinking at the first position holding the timer is what the search loop does |
| TimerLists.WithoutSorted | src/timeout.c:229-236 | unlinking keeps the list sorted |
| TimerLists.WithoutDistinct | src/timeout.c:229-236 | unlinking leaves no repeats and no copy of the timer |
| TimerLists.WithoutSplice | src/timeout.c:175-177 | unlinking a timer just linked in restores the list |
| TimerLists.ConsSorted | src/timeout.c:170-171 | a timer no later than the head may be linked in front of it |
| TimerLists.ConsDistinct | src/timeout.c:170-171 | linking an unlisted timer in front adds no repeat |
| TimerLists.TailFacts | src/timeout.c:302-310 | unlinking the head leaves a sorted list without repeats holding every other timer |
| TimerLists.SnocDistinct | src/timeout.c:252-257 | linking an unlisted timer behind the tail adds no repeat |
| Transitions.Init | src/timeout.c:52-58 | the statics before the first call: both lists empty, watermark, last load and running cleared, the interrupt off |
| Transitions.InitAsWritten | src/timeout.c:86-89 | the state init leaves as written: the statics with the overflow interrupt enabled |
| Transitions.HeadPeriod | src/timeout.c:191-192 | the ticks from the watermark to the head's deadline, the period start-at-head loads |
| Transitions.Valid | src/timeout.c:181-206 | the driver's invariant: lists well formed, running and the interrupt exactly while a timer is pending, watermark 0 when none is, last load 65535 less the distance to the head |
| Transitions.Idle | src/timeout.c:284-297 | a timer its caller may create: a caller's timer in neither list |
| Transitions.StopTimeouts | src/timeout.c:97-102 | the interrupt is masked, the watermark cleared and the scheduler stopped |
| Transitions.SetTimerDuration | src/timeout.c:104-108 | the last load becomes 65535 less the duration and the 16-bit counter gets that value |
| Transitions.Elapsed | src/timeout.c:113 | the ticks counted since the last load while running, CNT less the last load; 0 while stopped |
| Transitions.MakeAbsolute | src/timeout.c:110-116 | the deadline lies timeout plus the ticks elapsed since the last load after the watermark, and just timeout after it while stopped |
| Transitions.MakeAbsoluteShift | src/timeout.c:110-116 | a timeout of x ticks lies x ticks after a timeout of 0 |
| Transitions.InitValid | src/timeout.c:52-58 | the statics with the interrupt off satisfy the invariant |
| Transitions.InitAsWrittenArmsEmptyList | src/timeout.c:86-89 | init as written enables the overflow interrupt on an empty pending list, which breaks the invariant |
| Transitions.Rebase | src/timeout.c:118-130 | every pending deadline and the watermark lose the head's deadline; the list and which timers have deadlines are kept |
| Transitions.RebaseKeepsOrder | src/timeout.c:118-130 | rebase keeps the list sorted, puts the head at 0, keeps all pairwise differences and the distance from the watermark to the head |
| Transitions.Rebased | src/timeout.c:151-154 | the list rebased on its head and the new timer given a deadline; the list is kept and only that timer gains a deadline |
| Transitions.RebasedFacts | src/timeout.c:151-154 | rebasing and giving the new timer any deadline keeps the list sorted, puts the head at 0 and keeps the head's distance from the watermark |
| Transitions.Corrected | src/timeout.c:151-154 | corrected line 152: a deadline below the watermark is rebased with the list; any other leaves the state alone; the list and which timers have deadlines are kept |
| Transitions.CorrectedAsWritten | src/timeout.c:151-154 | line 152 as written: after the rebase the deadline is moved by 65535 - base + 1; the list and which timers have deadlines are kept |
| Transitions.CorrectedFacts | src/timeout.c:151-154 | the correction rebases and gives the timer its rebased deadline, keeping the list sorted and the head's distance; a deadline not below the watermark changes nothing |
| Transitions.DropDummy | src/timeout.c:170 | the list a new head is linked in front of: without a dummy head |
| Transitions.DropDummyFacts | src/timeout.c:170 | a dummy head displaced by a new head is dropped and no other timer is lost |
| Transitions.Link | src/timeout.c:156-178 | the walk and the link: t goes behind every timer not later than it, and at the head a full period is loaded; deadlines are kept |
| Transitions.InsertAtHeadFacts | src/timeout.c:165-172 | a new head goes in front of the old list, less a dummy, sorted and without repeats |
| Transitions.InsertBehindFacts | src/timeout.c:173-177 | a timer linked behind the head keeps the list sorted and without repeats, keeps the head and adds exactly t |
| Transitions.LinkFacts | src/timeout.c:156-178 | the walk and link keep the lists well formed, add exactly t, make t the head iff the old head is strictly later, and load a full period only then |
| Transitions.SortedInsert | src/timeout.c:143-179 | sorted insert with the corrected line 152: the correction, then the walk and the link, and whether t became the head |
| Transitions.SortedInsertAsWritten | src/timeout.c:143-179 | sorted insert with line 152 as written |
| Transitions.SortedInsertFacts | src/timeout.c:143-179 | insert keeps the lists well formed, adds exactly t, returns true iff t became the head, never puts a wrapped deadline at the head, loads a full period only at the head |
| Transitions.StartTimerAtHead | src/timeout.c:181-206 | mask the interrupt; stop on an empty list; else load the distance to the head, or one load behind a dummy put in front when it is further; no timer loses its deadline |
| Transitions.StartTimerAtHeadFacts | src/timeout.c:181-206 | restoring the invariant: with nothing pending it stops with watermark 0; otherwise it loads the distance to the head, putting the dummy in front iff that exceeds one load |
| Transitions.Stamped | src/timeout.c:286-288 | create masks the interrupt and gives the timer its make-absolute deadline |
| Transitions.Restarted | src/timeout.c:291-296 | after the insert, restart at the head, or re-enable the interrupt if running; no timer loses its deadline |
| Transitions.Create | src/timeout.c:284-297 | create with the corrected line 152: stamp, insert and restart; the timer has a deadline afterwards |
| Transitions.CreateAsWritten | src/timeout.c:284-297 | create with line 152 as written; the timer has a deadline afterwards |
| Transitions.CreateRebasesPending | src/timeout.c:118-130 | when the new deadline wraps below the watermark, create rebases every pending timer onto the head: each keeps its distance from the head |
| Transitions.CreateFacts | src/timeout.c:284-297 | create keeps the invariant, makes t pending timeout plus the elapsed ticks after the watermark (rebased with the list when it wrapped), loses no timer, keeps every other deadline or rebases each pending one onto the head, and reloads the hardware only when t became the head |
| Transitions.FlushAll | src/timeout.c:208-212 | stop the scheduler and empty the pending list |
| Transitions.FlushAllFacts | src/timeout.c:208-212 | flush keeps the invariant, empties the pending list, stops the scheduler and leaves the queue |
| Transitions.Delete | src/timeout.c:214-239 | an empty list is left alone; the head is unlinked and the hardware restarted; any other timer is unlinked if found and the interrupt re-enabled |
| Transitions.DeleteHeadFacts | src/timeout.c:222-225 | deleting the head restarts at the next timer, keeps every other timer and deadline, and reloads the counter without moving the watermark |
| Transitions.DeleteBehindHeadFacts | src/timeout.c:226-238 | deleting a timer behind the head unlinks it and keeps the head and the invariant |
| Transitions.DeleteFacts | src/timeout.c:214-239 | delete keeps the invariant and the queue; a timer not pending leaves the state unchanged; otherwise exactly that timer is unlinked, restarting only for the head |
| Transitions.EnqueueCallback | src/timeout.c:241-258 | the timer is appended at the tail of the queue |
| Transitions.Fired | src/timeout.c:302-310 | the handler's first part: the head's deadline becomes the watermark, the last load 0, the head leaves the list and joins the queue unless it is the dummy |
| Transitions.Overflow | src/timeout.c:300-315 | the handler: fire the head, then start at the new head |
| Transitions.OverflowFacts | src/timeout.c:300-315 | the handler keeps the invariant, removes exactly the head, appends it to the queue unless it is the dummy, moves the watermark to its deadline, leaves the rest of the list in order behind at most a new dummy, and keeps every caller's deadline |
| Transitions.FiredFacts | src/timeout.c:302-310 | firing the head unlinks exactly it, queues it unless it is the dummy, keeps the lists well formed and sets the watermark to its deadline |
| Transitions.CallNextCallback | src/timeout.c:260-282 | an empty queue is left alone; else its head leaves it and is created again with the callback's non-zero result |
| Transitions.DequeueFacts | src/timeout.c:263-274 | taking the queue's head keeps the invariant and leaves that timer in neither list |
| Transitions.CallNextCallbackFacts | src/timeout.c:260-282 | an empty queue changes nothing; otherwise exactly the queue's head leaves it and is pending again iff its callback returned non-zero, then that value plus the elapsed ticks after the watermark; no pending timer is lost |
| Transitions.StartTimer | src/timeout.c:321-325 | create the timer half the range away |
| Transitions.StopTimer | src/timeout.c:328-340 | read the time, delete the timer and return half the range less the ticks its deadline was still away |
| Transitions.StopTimerReadsElapsed | src/timeout.c:328-340 | a stopwatch set half the range after start reads the ticks from start to now |
| Transitions.HeadInsertCloser | src/timeout.c:156-172 | a timer goes to the head of a running scheduler only when its deadline did not wrap and lies closer to the watermark than the head's |
| Transitions.StopwatchReadsZero | src/timeout.c:321-340 | a stopwatch started and stopped at once reads 0, whether or not its deadline wrapped below the watermark; while running it never becomes the head |
| Transitions.NowAtReload | src/timeout.c:110-116 | right after a load no tick has elapsed and the time read is the watermark |
| Transitions.CreateAtHeadRestartsCount | src/timeout.c:191-202 | a timer created at the head of a running scheduler gets a load of timeout plus the elapsed ticks, and the time read falls back to the watermark, by the elapsed ticks |
| Transitions.DeleteHeadRestartsCount | src/timeout.c:222-225 | deleting the head of a longer list makes the time read fall back to the watermark, by the elapsed ticks |
| Transitions.CreateAsWrittenWrapFacts | src/timeout.c:151-154 | as written, a timer whose deadline wrapped keeps the invariant but lies 65536 ticks further from the watermark than timeout plus the elapsed ticks |
| Transitions.StopwatchWrapAsWritten | src/timeout.c:151-154 | as written, a stopwatch whose deadline wrapped, started and stopped at once, reads 0 - 65536 |
| Transitions.ShortTimerLinkedLast | src/timeout.c:156-163 | when every pending deadline lies below the watermark and the new one does not, create, corrected or as written, links the new timer after every pending timer |
| Transitions.RebasedExampleState | src/timeout.c:118-130 | from watermark 0xF000_0000 with a timer 16 ticks ahead, a stopwatch rebases the list: watermark 0xFFFF_FFF0, old head at 0, stopwatch at 0x7FFF_FFEF |
| Transitions.ShortTimerLinkedLastAt | src/timeout.c:156-172 | in that rebased state a 5-tick timer, due before the 16-tick head, is linked last rather than at the head, and the invariant holds |
| Transitions.ShortTimerFiresLateAt | src/timeout.c:300-315 | when the head of that list fires, the watermark becomes 0, a dummy goes in front, and the 5-tick timer lies 0xFFFF_FFF5 ticks after the watermark |
| Transitions.ShortTimerAfterRebaseExample | src/timeout.c:151-172 | the sequence from the stopwatch example's state: the state stays valid, the 5-tick timer due before the head is linked last, and the next overflow leaves dummy, stopwatch, 5-tick timer with watermark 0 |
| Transitions.StopwatchWrapExample | src/timeout.c:151-154 | a valid state with watermark 0xF000_0000 and a timer 16 ticks ahead reaches the wrap case: as written the stopwatch reads 0xFFFF_0000, corrected it reads 0 |
| Transitions.StopTimerIgnoresRebase | src/timeout.c:328-340 | a rebase between start and stop does not change what the stopwatch reads |
| Transitions.DeleteUndoesCreate | src/timeout.c:214-239 | deleting a timer just created behind the head restores the lists and the hardware |
| Timeout.Scheduler.constructor | src/timeout.c:52-58 | the globals start as the initial state, which satisfies the invariant |
| Timeout.Scheduler.StopTimeouts | src/timeout.c:97-102 | masks the interrupt, zeroes the watermark and stops |
| Timeout.Scheduler.SetTimerDuration | src/timeout.c:104-108 | the last load is 65535 less the duration, and the counter gets its low 16 bits |
| Timeout.Scheduler.Rebase | src/timeout.c:118-130 | the loop subtracts the head's deadline from every pending deadline and the watermark and returns that base |
| Timeout.Scheduler.CorrectDeadline | src/timeout.c:151-154 | corrected line 152: a deadline below the watermark rebases the list and is rebased with it; returns the deadline the walk inserts by |
| Timeout.Scheduler.InsertPosition | src/timeout.c:156-163 | the walk stops at the position before the first deadline strictly later than x |
| Timeout.Scheduler.SortedInsert | src/timeout.c:143-179 | the walk and the link give the state and head flag of the sorted-insert transition |
| Timeout.Scheduler.StartTimerAtHead | src/timeout.c:181-206 | moves the object as the start-at-head transition |
| Timeout.Scheduler.FlushAll | src/timeout.c:208-212 | moves the object as flush and keeps the invariant |
| Timeout.Scheduler.Delete | src/timeout.c:214-239 | the search loop unlinks as the delete transition does and keeps the invariant |
| Timeout.Scheduler.EnqueueCallback | src/timeout.c:241-258 | the walk to the tail appends the timer to the queue |
| Timeout.Scheduler.CallNextCallback | src/timeout.c:260-282 | moves the object as call-next-callback and keeps the invariant |
| Timeout.Scheduler.Create | src/timeout.c:284-297 | moves the object as create and keeps the invariant |
| Timeout.Scheduler.Overflow | src/timeout.c:300-315 | runs only with the interrupt enabled, moves the object as the handler and keeps the invariant |
| Timeout.Scheduler.StartTimer | src/timeout.c:321-325 | creates the timer half the range away and keeps the invariant |
| Timeout.Scheduler.StopTimer | src/timeout.c:328-340 | deletes the timer and returns half the range less its remaining ticks, keeping the invariant |

## Left out

- `absolutetime_t` is declared in `timeout.h`, which is not part of this model. It is taken to be a 32-bit unsigned integer (`Ticks.Modulus`). The finding at line 152 depends on that width: for a 16-bit type the line as written would be exact.
- The register setup of `TIMER_0_timeout_init` (src/timeout.c:60-95) is I/O. Only the interrupt it enables is modelled, as `Transitions.InitAsWritten`. The scheduler starts from `Transitions.Init`, with the interrupt off.
- `TIMER_0_print_list` (src/timeout.c:132-140) only prints.
- Interrupt preemption, `ENTER_CRITICAL`/`EXIT_CRITICAL` and `volatile`: every public routine and the overflow handler are one atomic step. Interleavings are not modelled.
- The counting of TCA0 is an input. `Timeout.Scheduler.CounterAdvanced` lets the environment set the count. The writes to `INTFLAGS` (lines 168, 314) only acknowledge the flag and are not modelled.
- Callback bodies and payloads are an oracle `Id -> Word` that gives the value a timer's callback returns. A callback that itself creates or deletes timers is not modelled.
- `TIMER_0_dummy_handler` (lines 41-44) is never called: `Transitions.OverflowFacts` shows the dummy never enters the queue.
- A timer's other fields (callback pointer, payload) are not modelled. A timer is an `Id` with an entry in the deadline map.
- Timeout.Scheduler.Create: requires the timer to be in neither list and not to be the dummy. Creating a timer that is still linked corrupts the C lists, and that behaviour is not modelled. The same holds for Transitions.CreateFacts, Timeout.Scheduler.StartTimer and the stopwatch lemmas.
- Timeout.Scheduler.StopTimer: requires a timer that has a deadline. Stopping a timer that was never started reads an uninitialised field.
- Timeout.Scheduler.Overflow: requires the invariant and an enabled interrupt. The handler as written on an empty list is the finding below.
- Timeout.Scheduler.CorrectDeadline: computes the corrected line 152, as do `Transitions.Corrected` and everything built on it. Line 152 as written is modelled only as `Transitions.CorrectedAsWritten`, `SortedInsertAsWritten` and `CreateAsWritten`, which the class does not run.
- Transitions.Create, Timeout.Scheduler.Create: keep the code's order by value (line 157). After a rebase a timer that does not wrap is therefore linked last (`Transitions.ShortTimerLinkedLast`). An insert walk by distance from the watermark, which the scheduler evidently needs, is not modelled: it would replace the order by value that `Valid` and every lemma about the lists rely on.
- `include/atmel_start_pins.h`, `include/board.h` and `src/adc_basic.old.c` are not part of this model. They hold register forwarders, declarations and ADC I/O.

## Findings

| source | as written | input that shows it | evidently intended | confidence | as-written member | corrected member |
|---|---|---|---|---|---|---|
| src/timeout.c:86-89 | init enables the overflow interrupt and starts TCA0 while the pending list is empty; the handler then reads `TIMER_0_list_head->next` (line 302) through a NULL head | call `TIMER_0_timeout_init` and let TCA0 overflow before the first `TIMER_0_timeout_create` | the interrupt is enabled only while a timer is pending, as every other routine ensures | medium; not executed | Transitions.InitAsWrittenArmsEmptyList | Transitions.InitValid |
| src/timeout.c:151-154 | a deadline that wrapped below the watermark is moved by 65535 - base + 1 once the list is rebased on base; with a 32-bit `absolutetime_t` that is 65536 ticks more than the rebase gives every other deadline, so the timer fires 65536 ticks late | watermark 0xF000_0000, one timer 16 ticks ahead and just loaded; `TIMER_0_timeout_start_timer` then `TIMER_0_timeout_stop_timer` at once returns 0xFFFF_0000 instead of 0 | the wrapped deadline is rebased by the same base as the list and the watermark, keeping its distance of timeout plus the elapsed ticks from the watermark | medium (depends on the width of `absolutetime_t`); not executed | Transitions.StopwatchWrapAsWritten | Transitions.StopwatchReadsZero |
