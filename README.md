# RTOS scheduler and AI priority adjuster, modelled in Dafny

The repository simulates a tick-driven priority scheduler in C and couples it
with an external "AI" priority adjuster written in Python. The two exchange
two CSV files:

- every tick the scheduler appends one line per task to `metrics.csv`;
- the adjuster reads the rows of the latest tick, computes a new priority per
  task, and publishes a batch to `new_priorities.csv`;
- at the start of the next tick the scheduler reads that batch back and applies
  the rows for the current tick.

This project models that core:

- **The scheduler** (`Scheduler`, `ReadyQueue`, `DirectiveFile`, `Metrics`) is a
  class over the task table and the ready queue:
  - the ready queue is ordered by (priority, id), and the model covers its
    insertion, pop, length and "higher priority available" queries;
  - admission, arrivals and the per-tick step (reselect, run one cycle, age
    the waiting tasks, record completion, log metrics);
  - the rule by which priorities from `new_priorities.csv` are applied, read
    through a model of `sscanf("%d,%d,%d")`.
- **The two adjuster forks** are `AiAdjuster` (tools/) and `SimAdjuster`
  (rtos-sim/tools/). Each has four parts:
  - snapshot selection;
  - the per-task heuristic, on exact reals with Python's round-half-even;
  - the rows of the published batch;
  - the poll loop's state, as a class.
- **The file protocol** (`Protocol`) is proved in both directions:
  - a batch either adjuster writes is read back by the scheduler as exactly
    its rows;
  - a logged metrics line is read by each adjuster as the figures the
    scheduler logged;
  - an applied batch sets each listed task's priority and leaves the other
    tasks alone.
- **The kernel structures:**
  - `Ipc` is the message queue, a linked list of heap nodes with a tail-walking
    send;
  - `Timers` is the fixed array of countdown timers.
- **The two audit scripts** (`CheckApplied`, `CheckAppliedShift`) compare
  logged priorities with published ones, at the same tick or one tick back.

Python's `int()`, `float()` and `str.isdigit()` on DictReader values are
modelled in `Csv` and `Numerals` for plain decimal text: surrounding blanks,
an optional sign, ASCII digits and, for `float()`, one decimal point. A
DictReader row is a `map<string, Option<string>>`, where `None` is the value
of a column missing from a short line. Python's `round` is
`PyMath.RoundHalfEven`, and `clamp` is `PyMath.Clamp`.

Facts about the code that the model makes precise:

- **Tick of application.** The scheduler applies a directive row only when its
  tick equals the scheduler's own current tick (src/scheduler.c:165).
  `Protocol.BatchIgnoredAtOtherTicks` shows that a batch is never applied at
  any other tick, including its `valid_until` tick. `check_applied_shift.py`
  compares each metrics row with the directive one tick earlier
  (tools/check_applied_shift.py:13), so it assumes a one-tick lag that the
  scheduler does not have.
- **Malformed fields.** Only the tools fork falls back to defaults: its
  `parse_int`/`parse_float` catch the conversion error
  (tools/ai_adjuster.py:62-72). The rtos-sim fork converts with a bare
  `int()`/`float()`, so one bad field aborts the whole poll
  (`SimAdjuster.AdjustedOkIff`).
- **Aging.** In the rtos-sim fork aging is one more additive term of the delta
  (rtos-sim/tools/ai_adjuster.py:66-67). The model proves that the priority
  never increases with waiting time (`SimAdjuster.NonIncreasingInWaiting`).

## Model

| member | source | states |
|---|---|---|
| ReadyQueue.SortedInsert | src/scheduler.c:39-67 | the list after linking a node in sorted place refers to valid tasks and is exactly one longer |
| ReadyQueue.InsertPosition | src/scheduler.c:53-59 | the walk stops at the first entry the new task precedes in (priority, id) order; it does not precede any entry before that |
| ReadyQueue.SortedInsertSplits | src/scheduler.c:53-66 | linking the node in at any such stopping point gives the sorted insertion: the old entries before it, the new index, then the rest, in their old order |
| ReadyQueue.SortedInsertAtPosition | src/scheduler.c:39-67 | the sorted insertion is the old queue with the new index spliced in at the walk's stopping point |
| ReadyQueue.SortedInsertAddsOne | src/scheduler.c:39-67 | as a multiset, the new queue is the old queue plus the inserted index |
| ReadyQueue.SortedInsertKeepsSorted | src/scheduler.c:39-67 | inserting into a queue sorted by (priority, id) keeps it sorted |
| ReadyQueue.SortedInsertKeepsDistinct | src/scheduler.c:39-67 | inserting an index not yet queued keeps every index queued at most once |
| ReadyQueue.SpliceSorted | src/scheduler.c:60-66 | splicing at the walk's stopping point keeps a sorted queue sorted |
| ReadyQueue.SpliceMultiset | src/scheduler.c:60-66 | the splice adds exactly the new index to the queue's multiset |
| ReadyQueue.SpliceDistinct | src/scheduler.c:60-66 | splicing in an absent index keeps the queue free of duplicates |
| ReadyQueue.SortedInsertSameKeys | src/scheduler.c:53-59 | insertion depends only on the tasks' priorities and ids |
| ReadyQueue.SortedSameKeys | src/scheduler.c:53-59 | whether a queue is sorted depends only on the tasks' priorities and ids |
| Scheduler.HigherPriorityAvailable | src/scheduler.c:85-93 | false on an empty queue; with no current task, true exactly when the queue is not empty |
| Scheduler.HigherPriorityAvailableIffSomeQueuedPrecedes | src/scheduler.c:85-93 | on a sorted queue, the head check reports a higher-priority task exactly when some queued task precedes the current one |
| Scheduler.OnlyFlagsKeepSorted | src/scheduler.c:225-240 | table updates that keep priorities and ids (remaining, waiting, completion, enqueued) keep a sorted queue sorted |
| Scheduler.PushArrivalOk | src/scheduler.c:136-139 | pushing an arriving task and marking it enqueued adds exactly that index, keeps the queue free of duplicates and of finished tasks, and keeps it sorted |
| Scheduler.RequeueOk | src/scheduler.c:212-214 | re-queuing the preempted task keeps the queue well formed and sorted |
| Scheduler.PopOk | src/scheduler.c:215 | the popped head is dispatched and out of the queue; on a sorted queue no task left behind precedes it |
| Scheduler.Sched.constructor | src/scheduler.c:29-34 | the globals at program load: no tasks, capacity 0, empty queue, time 0, last_applied_tick -1 |
| Scheduler.Sched.Init | src/scheduler.c:96-114 | the queue and the table are emptied, time is 0, capacity is maxTasks or 0 when that is not positive; last_applied_tick keeps its value |
| Scheduler.Sched.AddTask | src/scheduler.c:116-130 | -1 and no change when the table is full or the burst is not positive; otherwise the old task_count is returned and a task with remaining=burst, completion=-1, not enqueued, waiting 0 is appended |
| Scheduler.Sched.ReadyPushSorted | src/scheduler.c:39-67 | the queue becomes the sorted insertion of the index, whose properties the ReadyQueue lemmas give |
| Scheduler.Sched.ReadyPopFront | src/scheduler.c:69-76 | -1 and an unchanged empty queue, or the head, with the queue becoming its tail |
| Scheduler.Sched.ReadyQueueLength | src/scheduler.c:78-83 | the count of nodes walked equals the queue's length |
| Scheduler.Sched.AllFinished | src/scheduler.c:143-148 | true exactly when no task has remaining time |
| Scheduler.Sched.EnqueueArrivals | src/scheduler.c:133-141 | exactly the tasks not enqueued, arrived by sim_time and with work left are marked enqueued; the new queue is ArrivalQueue of the old one, each arriving task inserted in table order; nothing else changes, and a sorted queue stays sorted |
| Scheduler.ArrivalQueueMembers | src/scheduler.c:133-141 | the queue after the arrivals among the first n tasks holds exactly the old entries and those arriving tasks |
| Scheduler.ArrivalsOutcome | src/scheduler.c:133-141 | after the whole table every arriving task is flagged and queued, every other task is unchanged, and a sorted queue is still sorted |
| Scheduler.ArrivalQueueSorted | src/scheduler.c:133-141 | arrivals keep a queue sorted by (priority, id) sorted |
| Scheduler.Sched.Arrive | src/scheduler.c:136-139 | one arrival: the task is marked enqueued and the new queue is the sorted insertion of its index into the old one |
| Scheduler.Sched.FindTask | src/scheduler.c:166-176 | the scan returns the first table index carrying the id, or -1 when none does |
| Scheduler.Sched.ApplyRow | src/scheduler.c:165-177 | an eligible row rewrites the priority of the first task with its id and sets the applied flag; any other row changes nothing; the freshest tick rises to an eligible row's tick |
| Scheduler.Sched.ApplyScanned | src/scheduler.c:164-182 | a line that does not scan as three integers changes nothing; one that does acts as one more row of the batch |
| Scheduler.Sched.ApplyAiPrioritiesForTick | src/scheduler.c:153-187 | the table and the return value are those of applying the file's scanned rows in order (no file or no header: nothing); only priorities change; last_applied_tick moves to the current tick exactly when something was applied |
| Scheduler.Sched.WaitForDirectives | src/scheduler.c:203-208 | with the file unchanged between tries, the ten tries act exactly like one application |
| Scheduler.Sched.Reselect | src/scheduler.c:210-217 | reselection happens iff no task runs, the queue head precedes the current task, or the quantum of 2 is used; the current task then goes back in sorted place before the head is taken; on a sorted queue the new task is not preceded by any queued task |
| Scheduler.Sched.RunCycle | src/scheduler.c:220-240 | the running task loses one unit of work; every other enqueued task with work gains one waiting tick and nothing else; a task reaching 0 completes at sim_time+1 and is dropped, otherwise the quantum grows by one |
| Scheduler.Sched.Prepare | src/scheduler.c:199-208 | arrivals and the wait keep the queue well formed and the current task dispatched |
| Scheduler.Sched.Dispatch | src/scheduler.c:210-243 | reselection and one cycle keep the queue well formed and leave a dispatched task or -1 |
| Scheduler.Sched.Tick | src/scheduler.c:198-254 | one loop iteration keeps the queue well formed, advances time by one, and logs one line per task with the running id, the queue length and cpu 1 or 0 |
| Scheduler.Sched.LogMetrics | src/scheduler.c:246-251 | the logged lines are the task table's, in order, with is_running set by id and cpu_usage 1 exactly when the running task's id is non-negative |
| Scheduler.Sched.Run | src/scheduler.c:189-255 | the loop keeps the queue well formed and, when it stops before the supplied file contents run out, every task is finished |
| DirectiveFile.ScanDigitsOf | src/scheduler.c:164 | a run of digits followed by a non-digit scans as its value, leaving the rest |
| DirectiveFile.ScanIntOfDigits | src/scheduler.c:164 | "%d" reads an unsigned run of digits as its value |
| DirectiveFile.ScanIntNegative | src/scheduler.c:164 | "%d" reads a minus sign and digits as the negated value |
| DirectiveFile.ScanIntOfIntToString | src/scheduler.c:164 | "%d" reads back any integer written in decimal, leaving what follows untouched |
| DirectiveFile.ScanDirective | src/scheduler.c:164 | no leading integer, no row; a row's tick is the leading integer, followed by a comma and the task id |
| DirectiveFile.ScanDirectiveOfScans | src/scheduler.c:164 | three integers separated by commas scan as one row |
| DirectiveFile.ScanDirectiveOfLine | src/scheduler.c:164 | a written line "a,b,c" followed by any non-digit text scans as the row (a, b, c) |
| DirectiveFile.KeptAllScanned | src/scheduler.c:163-164 | when every line scans, the rows are exactly the scans, in order |
| DirectiveFile.FirstWithId | src/scheduler.c:166-176 | the index found carries the id and no earlier task does, or -1 when no task carries it |
| DirectiveFile.FirstWithIdSameIds | src/scheduler.c:166-169 | rewriting priorities does not change which task a later row finds |
| DirectiveFile.ApplyDirectives | src/scheduler.c:163-183 | applying the rows changes only task priorities |
| DirectiveFile.ApplyDirectivesSnoc | src/scheduler.c:163-183 | one more row acts on the table reached so far: an eligible row naming a task rewrites that task's priority and sets the flag |
| DirectiveFile.AppliedIffSomeRowNamesATask | src/scheduler.c:165-186 | the function returns 1 exactly when some row is for the current tick, past last_applied_tick, and names a task in the table |
| DirectiveFile.NotAppliedMeansUnchanged | src/scheduler.c:165-186 | when it returns 0 the task table is unchanged |
| DirectiveFile.CaughtUpAppliesNothing | src/scheduler.c:165 | once last_applied_tick has reached the current tick, nothing is applied |
| DirectiveFile.ReapplyIsNoOp | src/scheduler.c:165-185 | a second call at the same tick with the same rows applies nothing and changes nothing |
| DirectiveFile.OtherTicksIgnored | src/scheduler.c:165 | rows for any other tick are ignored |
| DirectiveFile.LastNamingRowWins | src/scheduler.c:166-175 | a task no eligible row names keeps its record; a task named by several eligible rows ends with the last one's priority |
| DirectiveFile.ApplyKeepsSortedIfQueueUntouched | src/scheduler.c:169 | when no eligible row names a queued task, the queue stays sorted |
| DirectiveFile.SortednessCanBreak | src/scheduler.c:169 | one applied row can leave the queue out of (priority, id) order, since the queue is not re-sorted |
| Metrics.IntColumn | src/metrics.c:54-62 | an integer written with %d is read back by int() as itself |
| Metrics.RecordTaskId | src/metrics.c:54-62 | the task_id column of a logged line reads back as the task's id |
| Metrics.RecordCurrentPriority | src/metrics.c:54-62 | the current_priority column reads back as the task's priority |
| Metrics.RecordRemainingTime | src/metrics.c:54-62 | the remaining_time column reads back as the task's remaining time |
| Metrics.RecordWaitingTime | src/metrics.c:54-62 | the waiting_time column reads back as the task's waiting time |
| Metrics.PyFloatOfWhole | src/metrics.c:54-61 | a whole cpu_usage written with %.2f is read back by float() as that number |
| Metrics.RecordCpuField | src/metrics.c:54-62 | the cpu_usage column reads back as the logged cpu usage |
| Batch.BatchRows | tools/ai_adjuster.py:111-113 | one row per computed task, each with the batch tick and the task's own priority |
| Batch.BatchRowIds | tools/ai_adjuster.py:112 | the rows follow sorted(prios) |
| Batch.BatchRowsOrderedAndComplete | rtos-sim/tools/ai_adjuster.py:78-79 | the rows are in strictly ascending task id and every computed task has a row |
| AiAdjuster.MaxDigitTick | tools/ai_adjuster.py:55-58 | None exactly when no row has an all-digit tick; otherwise the largest all-digit tick, which some row carries |
| AiAdjuster.RowsAtTick | tools/ai_adjuster.py:59 | exactly the rows whose all-digit tick equals the given one |
| AiAdjuster.RowsAtTickSingle | tools/ai_adjuster.py:59 | a single row is kept exactly when its tick is all digits and equal to the given one |
| AiAdjuster.RowsAtTickAppend | tools/ai_adjuster.py:59 | the filter distributes over concatenation, so kept rows stay in file order with their repeats |
| AiAdjuster.LatestTickRows | tools/ai_adjuster.py:52-60 | (None, []) for no rows or no all-digit tick; an error exactly when some tick is missing from a short line; otherwise the maximum all-digit tick and its rows, non-empty, in file order with repeats, ignoring non-digit ticks |
| AiAdjuster.NewPriority | tools/ai_adjuster.py:86-99 | the rounded and clamped priority always lies in [0, 10] |
| AiAdjuster.Priorities | tools/ai_adjuster.py:74-103 | every key is a non-negative task id and every priority lies in [0, 10] |
| AiAdjuster.ComputePriorities | tools/ai_adjuster.py:74-103 | the dict the loop fills is the per-row fold Priorities |
| AiAdjuster.TaskIds | tools/ai_adjuster.py:77 | each row's id is its task_id when that converts with int(), and -1 otherwise |
| AiAdjuster.RemainingFallback | tools/ai_adjuster.py:80 | remaining is remaining_time when it converts, else remaining_burst when that converts, else 0 |
| AiAdjuster.RowPriorityDefaults | tools/ai_adjuster.py:81-82 | a row whose current_priority and waiting_time do not convert is priced as priority 5 that waited 0 |
| AiAdjuster.PrioritiesKeys | tools/ai_adjuster.py:77-100 | a task gets a priority exactly when some row carries it as a non-negative id; rows with id -1 or below are skipped |
| AiAdjuster.PrioritiesLastWins | tools/ai_adjuster.py:100 | a task's priority is the one computed from the last row with its id |
| AiAdjuster.AgingNeverRaises | tools/ai_adjuster.py:88-89 | with the other figures equal, a task that waited 5 or more never gets a larger number than one that waited less |
| AiAdjuster.HalfwayRoundsToEven | tools/ai_adjuster.py:86-99 | waiting 6, remaining 10, priority 5 gives 5 - 1 + 0.5 = 4.5, which rounds to 4 |
| AiAdjuster.QueueLenAndCpuIgnored | tools/ai_adjuster.py:83-84 | queue_len and cpu_usage do not affect a row's task id or priority |
| AiAdjuster.BatchLines | tools/ai_adjuster.py:111-113 | the header tick,task_id,new_priority, then one line per computed task |
| AiAdjuster.ToPublish | tools/ai_adjuster.py:127-128 | a poll publishes only a tick greater than the last one, and only with a non-empty snapshot |
| AiAdjuster.SnapshotWithTickNonEmpty | tools/ai_adjuster.py:128 | a readable snapshot with a newer tick is always published, because a snapshot with a tick is never empty |
| AiAdjuster.NoRepublish | tools/ai_adjuster.py:128-131 | after a publish, a poll of the same metrics publishes nothing |
| AiAdjuster.Poller.constructor | tools/ai_adjuster.py:123 | last starts at -1, nothing has been published, and the output file is as found |
| AiAdjuster.Poller.Publish | tools/ai_adjuster.py:130-131 | the batch becomes the output and last becomes its tick, which extends the increasing list of published ticks |
| AiAdjuster.Poller.Poll | tools/ai_adjuster.py:124-134 | it writes iff there is something to publish and the write succeeds; then output is that batch and last its tick; otherwise last, output and the published ticks are unchanged |
| SimAdjuster.MaxTick | rtos-sim/tools/ai_adjuster.py:33 | the largest tick of a non-empty snapshot, which some row carries |
| SimAdjuster.RowsAtTick | rtos-sim/tools/ai_adjuster.py:34 | exactly the rows at the given tick |
| SimAdjuster.RowsAtTickSingle | rtos-sim/tools/ai_adjuster.py:34 | a single row is kept exactly when it is at the given tick |
| SimAdjuster.RowsAtTickAppend | rtos-sim/tools/ai_adjuster.py:34 | the filter distributes over concatenation, so kept rows stay in file order with their repeats |
| SimAdjuster.ReadLastTick | rtos-sim/tools/ai_adjuster.py:30-35 | (None, []) on empty input; an error exactly when some tick is not an integer; otherwise the maximum tick and its rows, in file order with repeats |
| SimAdjuster.CpuAggregate | rtos-sim/tools/ai_adjuster.py:44-49 | (0.0, 0) for an empty snapshot; otherwise cpu_usage and queue_len of the first row only, and an error exactly when either does not convert |
| SimAdjuster.NewPriority | rtos-sim/tools/ai_adjuster.py:60-70 | the rounded and clamped priority always lies in [0, 10] |
| SimAdjuster.Adjusted | rtos-sim/tools/ai_adjuster.py:54-71 | every computed priority lies in [0, 10] |
| SimAdjuster.AdjustPrioritiesLoop | rtos-sim/tools/ai_adjuster.py:51-72 | the loop computes AdjustPriorities, stopping at the first row that raises |
| SimAdjuster.ErrStaysErr | rtos-sim/tools/ai_adjuster.py:55-58 | once a row raises, the whole adjustment fails |
| SimAdjuster.AdjustedOkIff | rtos-sim/tools/ai_adjuster.py:55-58 | the adjustment succeeds exactly when every row's four integer fields convert |
| SimAdjuster.LastRowWithSharedTerms | rtos-sim/tools/ai_adjuster.py:52-71 | a task's priority is computed from its last row's own figures and the snapshot's shared queue_len and cpu_usage |
| SimAdjuster.NonIncreasingInWaiting | rtos-sim/tools/ai_adjuster.py:60-67 | with everything else fixed, the new priority never increases with waiting time |
| SimAdjuster.SameOwnFiguresSamePriority | rtos-sim/tools/ai_adjuster.py:52-64 | two tasks of one snapshot with the same priority, remaining and waiting get the same new priority, since the congestion and CPU terms are shared |
| SimAdjuster.BatchLines | rtos-sim/tools/ai_adjuster.py:77-79 | the header tick,task_id,new_priority,valid_until, then one line per computed task |
| SimAdjuster.ToPublish | rtos-sim/tools/ai_adjuster.py:98-100 | a poll publishes only a tick greater than the last processed one |
| SimAdjuster.Poller.constructor | rtos-sim/tools/ai_adjuster.py:93 | last_processed_tick starts at -1, nothing has been published, and the output file is as found |
| SimAdjuster.Poller.Select | rtos-sim/tools/ai_adjuster.py:97-100 | the poll's choice is ToPublish of the rows and last_processed_tick |
| SimAdjuster.Poller.Publish | rtos-sim/tools/ai_adjuster.py:101-102 | the batch becomes the output and last_processed_tick becomes its tick, extending the increasing list of published ticks |
| SimAdjuster.Poller.Poll | rtos-sim/tools/ai_adjuster.py:95-105 | it advances iff there is something to publish and the file is replaced; a failed write keeps last_processed_tick; a removal before a failed rename leaves no file |
| Protocol.ToolsRowReadBack | tools/ai_adjuster.py:113 | sscanf reads a written row back as that row |
| Protocol.SimRowReadBack | rtos-sim/tools/ai_adjuster.py:79 | sscanf reads a written row back as that row; valid_until is left unread |
| Protocol.ToolsRowReadBackTerminated | tools/ai_adjuster.py:113 | a written row still reads back with csv.writer's "\r\n" after it |
| Protocol.SimRowReadBackTerminated | rtos-sim/tools/ai_adjuster.py:79 | a written row still reads back with csv.writer's "\r\n" after it |
| Protocol.SimRowExtendsToolsRow | rtos-sim/tools/ai_adjuster.py:79 | a sim-fork line is the tools-fork line for the same row plus a comma and the valid_until value |
| Protocol.SimRowsExtendToolsRows | rtos-sim/tools/ai_adjuster.py:77-79 | every data line of a sim-fork batch is the tools-fork line plus "," and tick + 1 |
| Protocol.SimLinesExtendToolsLines | rtos-sim/tools/ai_adjuster.py:77-79 | the sim-fork batch has the tools-fork header plus valid_until, and each data line ends in valid_until = tick + 1, which int() reads back as tick + 1 |
| Protocol.ToolsBatchReadBack | tools/ai_adjuster.py:111-113 | the scheduler reads the published file back as exactly the batch rows, in order |
| Protocol.SimBatchReadBack | rtos-sim/tools/ai_adjuster.py:77-79 | the scheduler reads the published file back as exactly the batch rows, in order |
| Protocol.BatchIgnoredAtOtherTicks | src/scheduler.c:165 | a batch from either fork changes nothing at any tick but its own, including its valid_until tick |
| Protocol.BatchSetsListedTasks | src/scheduler.c:165-175 | at its tick, a batch sets the first task carrying each listed id to its computed priority and leaves such a task unchanged when its id is not listed |
| Protocol.BatchSetsListedTask | src/scheduler.c:165-175 | a listed task gets exactly its computed priority |
| Protocol.BatchLeavesUnlistedTask | src/scheduler.c:165-175 | a task without a row keeps its record |
| Protocol.ToolsReadsLoggedLine | tools/ai_adjuster.py:77-82 | the tools fork reads a logged line as its task and computes from its logged priority, waiting and remaining time |
| Protocol.ToolsReadsLoggedTick | tools/ai_adjuster.py:55 | a logged tick is always readable and counts as all-digit exactly when it is non-negative |
| Protocol.SimReadsLoggedTick | rtos-sim/tools/ai_adjuster.py:33 | the rtos-sim fork reads a logged tick as itself |
| Protocol.SimReadsLoggedFields | rtos-sim/tools/ai_adjuster.py:55-58 | the rtos-sim fork reads a logged line's four fields as logged |
| Protocol.SimReadsLoggedCpu | rtos-sim/tools/ai_adjuster.py:47-48 | the snapshot's cpu_usage and queue_len are those logged on its first line |
| Ipc.Sent | src/ipc.c:19-31 | sending appends at the tail: one longer, old messages in their order, the new one last |
| Ipc.Received | src/ipc.c:34-45 | (-1, empty) for an empty queue; otherwise the front value and the rest of the queue |
| Ipc.EmptyIsAmbiguous | src/ipc.c:36-41 | the result is -1 exactly when the queue is empty or its front message is -1 |
| Ipc.SendAllAppends | src/ipc.c:13-32 | a series of sends appends the messages in order |
| Ipc.ReceiveNTakesFront | src/ipc.c:34-45 | n receives give the first n messages in order, then -1 for each receive past the end |
| Ipc.Fifo | src/ipc.c:13-45 | sends into an empty queue followed by as many receives give the messages back in send order |
| Ipc.Message.constructor | src/ipc.c:19-20 | a new node holds the message and has no successor |
| Ipc.MessageQueue.constructor | src/ipc.c:11 | the queue starts empty |
| Ipc.MessageQueue.Send | src/ipc.c:13-32 | the tail walk links a fresh node at the end, so the contents become Sent of the old contents |
| Ipc.MessageQueue.Receive | src/ipc.c:34-45 | the returned value and the new contents are Received of the old contents |
| Timers.SetSlot | src/timers.c:19-24 | an out-of-range id changes nothing; a valid one sets exactly its slot |
| Timers.Check | src/timers.c:28-33 | 1 exactly when the id is in range and its slot is 0 or less, otherwise 0 |
| Timers.TickAllSlots | src/timers.c:37-43 | each positive slot drops by one and every other slot is unchanged, so no slot at or above 0 goes negative |
| Timers.TicksSlot | src/timers.c:37-43 | n ticks take a non-negative slot down by n, stopping at 0 |
| Timers.ExpiresAfterItsTicks | src/timers.c:19-43 | after set_timer(id, n) and n ticks, check_timer(id) is 1 |
| Timers.RunningBeforeItsTicks | src/timers.c:19-43 | after set_timer(id, n) and fewer than n ticks, check_timer(id) is 0 |
| Timers.TimerTable.constructor | src/timers.c:16 | all MAX_TASKS slots start at 0 |
| Timers.TimerTable.SetTimer | src/timers.c:19-24 | the array becomes SetSlot of its old contents |
| Timers.TimerTable.CheckTimer | src/timers.c:28-33 | the result is Check of the array |
| Timers.TimerTable.Tick | src/timers.c:37-43 | the loop leaves the array as TickAll of its old contents |
| CheckApplied.DirectiveMapOkIff | tools/check_applied.py:8 | building pp raises exactly when some directive row does not convert |
| CheckApplied.DirectiveMapKeys | tools/check_applied.py:8 | pp's keys are exactly the (tick, task_id) pairs of the directive rows |
| CheckApplied.DirectiveMapLastWins | tools/check_applied.py:8 | for a repeated key pp holds the last row's priority |
| CheckApplied.CurrentPriority | tools/check_applied.py:14 | a missing current_priority column reads as 5; a present one is converted as it stands |
| CheckApplied.MissingColumnIsDefault | tools/check_applied.py:14 | metrics without the current_priority column are audited as priority 5 |
| CheckApplied.ShortLineRaises | tools/check_applied.py:14 | a short line whose current_priority is None is not defaulted: int(None) raises |
| CheckApplied.AuditOf | tools/check_applied.py:10-18 | the mismatches are never more than the metrics rows |
| CheckApplied.AuditOfSingle | tools/check_applied.py:10-16 | one row raises if it does not convert, and otherwise reports exactly one mismatch when pp has its key with a different priority |
| CheckApplied.AuditOfAppend | tools/check_applied.py:10-18 | the audit distributes over concatenation: one mismatch per reporting row, in row order |
| CheckApplied.AuditOkIff | tools/check_applied.py:11-14 | the audit raises exactly when some metrics row does not convert |
| CheckApplied.AuditReportsIff | tools/check_applied.py:15-18 | a mismatch is reported exactly when a row has a directive for its key and its priority differs from it |
| CheckApplied.AuditErrStaysErr | tools/check_applied.py:11-14 | once a row raises, the whole audit fails |
| CheckApplied.CountMismatches | tools/check_applied.py:10-18 | the loop's errors counter equals the number of reported mismatches, at most the number of rows |
| CheckApplied.CheckApplied | tools/check_applied.py:8-18 | the script reports the same-tick audit of the metrics against pp, with errors as its count |
| CheckAppliedShift.CheckAppliedShifted | tools/check_applied_shift.py:6-16 | the script reports the audit against the directive one tick back, with errors as its count |
| CheckAppliedShift.ShiftedIsSameTickOneBack | tools/check_applied_shift.py:10-14 | the shifted audit equals the same-tick audit of the entries with their ticks moved back by one, tick for tick |
| CheckAppliedShift.EarlierRowEntry | tools/check_applied_shift.py:10-13 | moving a row's tick back by one moves its entry's tick back by one |
| CheckAppliedShift.ShiftedCountIsSameTickCountOneBack | tools/check_applied_shift.py:8-16 | the shifted count equals the same-tick count on metrics with every tick decremented, and one raises exactly when the other does |
| PyMath.Clamp | tools/ai_adjuster.py:43-44 | the result lies in [lo, hi] when lo <= hi, and equals val when val is already in range |
| PyMath.ClampMonotone | rtos-sim/tools/ai_adjuster.py:27-28 | clamping preserves order |
| PyMath.RoundHalfEven | tools/ai_adjuster.py:98 | round() is within 1/2 of its argument and, on a tie, is even |
| PyMath.RoundIsNearest | tools/ai_adjuster.py:98 | no integer is nearer to the argument than round() |
| PyMath.RoundMonotone | rtos-sim/tools/ai_adjuster.py:69 | round() preserves order |
| Csv.IntOr | tools/ai_adjuster.py:62-66 | parse_int gives the converted value when int() succeeds, and the default when the column is missing, None or not an integer |
| Csv.PyIntOfIntToString | tools/ai_adjuster.py:62-66 | int() reads any integer written in decimal as itself |
| Csv.PyIntOfDigitText | tools/ai_adjuster.py:55 | a text that passes isdigit() converts to its decimal value |
| Csv.PyFloatOfFixed | rtos-sim/tools/ai_adjuster.py:47 | float() reads a fixed-point decimal as its exact value |
| Csv.SortedKeys | tools/ai_adjuster.py:112 | sorted() of the keys is strictly increasing and holds exactly the keys |
| Numerals.NatToDigitsValue | src/metrics.c:54-62 | the decimal digits written for a number read back as that number |

## Left out

- **File I/O.** The model does not open, read or write files:
  - `fopen`/`fgets`/`fclose` become an `Option<seq<string>>` of lines, and the 256-byte `fgets` buffer is not modelled (src/scheduler.c:154-158);
  - `csv.DictReader` becomes the given rows, so line splitting and quoting are not modelled;
  - `load_rows`/`load_metrics` returning `[]` for a missing file is the caller passing no rows.
- **Writing the batch file.** `os.replace`, `fsync`, and the remove-then-rename fallback are filesystem guarantees. For the rtos-sim fork they appear only as the three outcomes of `WriteOutcome`.
- **Loops and diagnostics.** `time.sleep` polling and the endless `while True` are left out: each `Poll` call is one iteration. The `dbg`/`print` lines and the `AI_DEBUG` switch are not modelled either.
- **Allocation failure.** `malloc`/`calloc` failure paths are not modelled: src/scheduler.c:41 and :112, src/ipc.c:16-18.
- **Machine arithmetic.** C `int` overflow, overflow inside `sscanf` and 32-bit wrap-around are not modelled; integers are unbounded.
- **Floating point.** Python floats are exact reals, so divergence from IEEE 754 near .5 ties is not captured.
- Csv.PyInt: accepts plain decimal text only. Python's `int()` also accepts underscores between digits ("1_0" is 10) and non-ASCII Unicode digits; those read as not convertible here, and `str.isdigit` is likewise modelled on ASCII digits.
- Csv.PyFloat: accepts plain decimal text only. Python's `float()` also accepts exponents ("1e2" is 100.0), underscores, `inf`/`infinity` and `nan`; those read as not convertible here.
- **Metrics output.** `src/metrics.c` file handling and `%.2f` formatting are not modelled beyond the column order and the two-decimal rendering of the whole cpu_usage values the scheduler logs.
- **Other files.** src/main.c, src/util.c, tests/test_producer_consumer.c, `scheduler_print_stats` and the cleanup code are not part of this model.
- **Audit output.** The audit scripts' hard-coded Windows paths and their `print` lines are not modelled; the result is the list of mismatches, and its length is the `errors` count.
- **Concurrency.** ipc.c has no synchronization, and the model treats its queue as single-threaded.
- Scheduler.Sched.WaitForDirectives: gives every try the same file content, because a concurrent writer is not modelled; with an unchanged file the ten tries are one application.
- Scheduler.Sched.Run: is bounded by the number of supplied file contents, one per tick, instead of running until every task finishes. Its contract states the loop's invariant and the stopping condition; the per-tick content of the log is stated by Scheduler.Sched.Tick.
- Scheduler.Sched.Prepare: states only the invariant it keeps; its effect is stated by EnqueueArrivals and WaitForDirectives, which it calls in order.
- Scheduler.Sched.Dispatch: states only the invariant it keeps; its effect is stated by Reselect and RunCycle, which it calls in order.
- Scheduler.Sched.Tick: states the invariant, the clock and the logged lines, but not the table change, which its parts state.
- **valid_until.** The rtos-sim fork writes `valid_until`, but the scheduler never reads it. The model writes it and proves that it is ignored.
