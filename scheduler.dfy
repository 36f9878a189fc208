/**
 * The tick-driven priority scheduler: a task table, a ready queue ordered by
 * (priority, id), admission, arrivals, the application of externally
 * computed priorities, and the per-tick step of start_scheduler.
 */
module Scheduler {
  import opened Wrappers
  import opened Rtos
  import opened ReadyQueue
  import opened DirectiveFile
  import opened Metrics

  /** Cycles a task may run before the scheduler reselects. */
  const QUANTUM := 2

  /** The waiting loop polls at most this long, in steps of TRY_STEP_MS. */
  const WAIT_LIMIT_MS := 100
  const TRY_STEP_MS := 10

  /** The record scheduler_add_task fills in for a new task. */
  function Admitted(id: int, priority: int, arrivalTime: int, burstTime: int): RtosTask {
    RtosTask(id, priority, arrivalTime, burstTime, burstTime, -1, false, 0)
  }

  /** enqueue_arrivals picks a task that has not been queued, has arrived and still has work. */
  predicate Arrives(t: RtosTask, now: int) {
    !t.enqueued && t.arrivalTime <= now && t.remainingTime > 0
  }

  /** Every task has run out its burst. */
  predicate AllDone(tasks: seq<RtosTask>) {
    forall i :: 0 <= i < |tasks| ==> tasks[i].remainingTime <= 0
  }

  /**
   * The queue refers to tasks in the table, holds each at most once, and
   * only holds tasks that are marked enqueued and still have work; no task
   * has negative remaining time.
   */
  predicate QueueOk(tasks: seq<RtosTask>, ready: seq<int>) {
    IndicesIn(ready, |tasks|) && Distinct(ready)
    && (forall k :: 0 <= k < |ready| ==> tasks[ready[k]].enqueued && tasks[ready[k]].remainingTime > 0)
    && (forall i :: 0 <= i < |tasks| ==> tasks[i].remainingTime >= 0)
  }

  /**
   * The queue enqueue_arrivals leaves behind: the tasks among the first n
   * that arrive by now, taken in table order, each inserted in sorted place.
   */
  function ArrivalQueue(q: seq<int>, tasks: seq<RtosTask>, now: int, n: nat): (r: seq<int>)
    requires IndicesIn(q, |tasks|) && n <= |tasks|
    ensures IndicesIn(r, |tasks|)
    decreases n
  {
    if n == 0 then q
    else
      var front := ArrivalQueue(q, tasks, now, n - 1);
      if Arrives(tasks[n - 1], now) then SortedInsert(front, tasks, n - 1) else front
  }

  /** The queue holds exactly the old entries and the tasks among the first n that arrive. */
  lemma {:induction false} ArrivalQueueMembers(q: seq<int>, tasks: seq<RtosTask>, now: int, n: nat)
    requires IndicesIn(q, |tasks|) && n <= |tasks|
    ensures forall j :: j in ArrivalQueue(q, tasks, now, n) <==> j in q || (0 <= j < n && Arrives(tasks[j], now))
    decreases n
  {
    if n > 0 {
      var front := ArrivalQueue(q, tasks, now, n - 1);
      ArrivalQueueMembers(q, tasks, now, n - 1);
      if Arrives(tasks[n - 1], now) {
        SortedInsertMembers(front, tasks, n - 1);
      }
    }
  }

  /** The table once enqueue_arrivals has passed the first n tasks: those that arrived by now are marked enqueued. */
  function Flagged(tasks: seq<RtosTask>, now: int, n: int): (r: seq<RtosTask>)
    ensures |r| == |tasks|
  {
    seq(|tasks|, j requires 0 <= j < |tasks| => if j < n && Arrives(tasks[j], now) then tasks[j].(enqueued := true) else tasks[j])
  }

  /** Passing one more task flags it exactly when it arrives. */
  lemma FlaggedNext(tasks: seq<RtosTask>, now: int, i: int)
    requires 0 <= i < |tasks|
    ensures Flagged(tasks, now, i)[i] == tasks[i]
    ensures Flagged(tasks, now, i + 1) ==
              if Arrives(tasks[i], now) then Flagged(tasks, now, i)[i := tasks[i].(enqueued := true)]
              else Flagged(tasks, now, i)
  {
  }

  /** After the whole table: each arriving task flagged and queued, and a sorted queue still sorted. */
  lemma ArrivalsOutcome(q: seq<int>, tasks: seq<RtosTask>, now: int)
    requires IndicesIn(q, |tasks|)
    ensures forall i :: 0 <= i < |tasks| ==>
              Flagged(tasks, now, |tasks|)[i] == if Arrives(tasks[i], now) then tasks[i].(enqueued := true) else tasks[i]
    ensures forall i :: 0 <= i < |tasks| ==> (i in ArrivalQueue(q, tasks, now, |tasks|) <==> i in q || Arrives(tasks[i], now))
    ensures Sorted(q, tasks) ==> Sorted(ArrivalQueue(q, tasks, now, |tasks|), Flagged(tasks, now, |tasks|))
  {
    ArrivalQueueMembers(q, tasks, now, |tasks|);
    if Sorted(q, tasks) {
      ArrivalQueueSorted(q, tasks, now, |tasks|);
      var flagged := Flagged(tasks, now, |tasks|);
      assert forall j :: 0 <= j < |tasks| ==> SameKey(flagged[j], tasks[j]);
      SortedSameKeys(ArrivalQueue(q, tasks, now, |tasks|), flagged, tasks);
    }
  }

  /** A sorted queue stays sorted however many tasks arrive. */
  lemma {:induction false} ArrivalQueueSorted(q: seq<int>, tasks: seq<RtosTask>, now: int, n: nat)
    requires IndicesIn(q, |tasks|) && n <= |tasks| && Sorted(q, tasks)
    ensures Sorted(ArrivalQueue(q, tasks, now, n), tasks)
    decreases n
  {
    if n > 0 {
      var front := ArrivalQueue(q, tasks, now, n - 1);
      ArrivalQueueSorted(q, tasks, now, n - 1);
      if Arrives(tasks[n - 1], now) {
        SortedInsertKeepsSorted(front, tasks, n - 1);
      }
    }
  }

  /** current is -1 or a dispatched task: in the table, enqueued, with work left, and not in the queue. */
  predicate Dispatched(tasks: seq<RtosTask>, ready: seq<int>, current: int) {
    current == -1
    || (0 <= current < |tasks| && current !in ready
        && tasks[current].enqueued && tasks[current].remainingTime > 0)
  }

  /** higher_priority_available: the queue's head would run before the current task. */
  function HigherPriorityAvailable(tasks: seq<RtosTask>, ready: seq<int>, current: int): (b: bool)
    requires IndicesIn(ready, |tasks|) && current < |tasks|
    ensures ready == [] ==> !b
    ensures current < 0 ==> (b <==> ready != [])
  {
    if ready == [] then false
    else if current < 0 then true
    else Precedes(tasks[ready[0]], tasks[current])
  }

  /**
   * On a sorted queue, looking at the head is enough: it reports a
   * higher-priority task exactly when some queued task precedes the current one.
   */
  lemma HigherPriorityAvailableIffSomeQueuedPrecedes(tasks: seq<RtosTask>, ready: seq<int>, current: int)
    requires IndicesIn(ready, |tasks|) && Sorted(ready, tasks) && 0 <= current < |tasks|
    ensures HigherPriorityAvailable(tasks, ready, current) <==>
            exists k :: 0 <= k < |ready| && Precedes(tasks[ready[k]], tasks[current])
  {
    if exists k :: 0 <= k < |ready| && Precedes(tasks[ready[k]], tasks[current]) {
      var k :| 0 <= k < |ready| && Precedes(tasks[ready[k]], tasks[current]);
      if k > 0 {
        assert !Precedes(tasks[ready[k]], tasks[ready[0]]);
      }
    }
  }

  /** A table change that keeps every task's priority and id keeps a sorted queue sorted. */
  lemma OnlyFlagsKeepSorted(t1: seq<RtosTask>, t2: seq<RtosTask>, ready: seq<int>)
    requires |t1| == |t2| && forall i :: 0 <= i < |t1| ==> SameKey(t1[i], t2[i])
    requires IndicesIn(ready, |t1|)
    ensures Sorted(ready, t1) ==> Sorted(ready, t2)
  {
    SortedSameKeys(ready, t1, t2);
  }

  /**
   * Pushing an arriving task and marking it enqueued keeps the queue well
   * formed, adds exactly that index, and keeps a sorted queue sorted.
   */
  lemma PushArrivalOk(tasks: seq<RtosTask>, q: seq<int>, i: int, now: int)
    requires QueueOk(tasks, q) && 0 <= i < |tasks| && Arrives(tasks[i], now)
    ensures var r := SortedInsert(q, tasks, i);
            var t2 := tasks[i := tasks[i].(enqueued := true)];
            QueueOk(t2, r)
            && (forall j :: j in r <==> j in q || j == i)
            && (Sorted(q, tasks) ==> Sorted(r, t2))
  {
    var r := SortedInsert(q, tasks, i);
    var t2 := tasks[i := tasks[i].(enqueued := true)];
    assert i !in q;
    SortedInsertAddsOne(q, tasks, i);
    assert forall j :: j in r <==> j in multiset(r);
    SortedInsertKeepsDistinct(q, tasks, i);
    forall k | 0 <= k < |r|
      ensures t2[r[k]].enqueued && t2[r[k]].remainingTime > 0
    {
      assert r[k] in r;
    }
    if Sorted(q, tasks) {
      SortedInsertKeepsSorted(q, tasks, i);
      OnlyFlagsKeepSorted(tasks, t2, r);
    }
  }

  /** Putting the dispatched task back keeps the queue well formed and sorted. */
  lemma RequeueOk(tasks: seq<RtosTask>, q: seq<int>, current: int)
    requires QueueOk(tasks, q) && Dispatched(tasks, q, current) && current >= 0
    ensures var r := SortedInsert(q, tasks, current);
            QueueOk(tasks, r) && (Sorted(q, tasks) ==> Sorted(r, tasks))
  {
    var r := SortedInsert(q, tasks, current);
    SortedInsertAddsOne(q, tasks, current);
    assert forall j :: j in r <==> j in multiset(r);
    SortedInsertKeepsDistinct(q, tasks, current);
    forall k | 0 <= k < |r|
      ensures tasks[r[k]].enqueued && tasks[r[k]].remainingTime > 0
    {
      assert r[k] in r;
    }
    if Sorted(q, tasks) {
      SortedInsertKeepsSorted(q, tasks, current);
    }
  }

  /**
   * Taking the head of a well-formed queue dispatches it; on a sorted queue
   * no task left behind precedes it.
   */
  lemma PopOk(tasks: seq<RtosTask>, q: seq<int>)
    requires QueueOk(tasks, q) && q != []
    ensures QueueOk(tasks, q[1..]) && Dispatched(tasks, q[1..], q[0])
    ensures Sorted(q, tasks) ==>
              Sorted(q[1..], tasks) && forall k :: 0 <= k < |q| - 1 ==> !Precedes(tasks[q[1..][k]], tasks[q[0]])
  {
    assert forall k :: 0 <= k < |q| - 1 ==> q[1..][k] == q[k + 1];
  }

  /** The scheduler's globals: task_table and task_count, task_capacity, ready_head, sim_time, last_applied_tick. */
  class Sched {
    var tasks: seq<RtosTask>
    var capacity: int
    var ready: seq<int>
    var simTime: int
    var lastAppliedTick: int

    predicate Valid()
      reads this
    {
      |tasks| <= capacity && 0 <= simTime && -1 <= lastAppliedTick && QueueOk(tasks, ready)
    }

    /** The globals as the program starts: no table, time 0, nothing applied yet. */
    constructor()
      ensures tasks == [] && capacity == 0 && ready == [] && simTime == 0 && lastAppliedTick == -1
      ensures Valid()
    {
      tasks := [];
      capacity := 0;
      ready := [];
      simTime := 0;
      lastAppliedTick := -1;
    }

    /** scheduler_init: drop the queue and the table, set the capacity; last_applied_tick is not reset. */
    method Init(maxTasks: int)
      requires Valid()
      modifies this
      ensures capacity == (if maxTasks > 0 then maxTasks else 0)
      ensures tasks == [] && ready == [] && simTime == 0
      ensures lastAppliedTick == old(lastAppliedTick)
      ensures Valid()
    {
      ready := [];
      tasks := [];
      capacity := if maxTasks > 0 then maxTasks else 0;
      simTime := 0;
    }

    /**
     * scheduler_add_task: refused with -1 and no change when the table is
     * full (or absent, capacity 0) or the burst is not positive; otherwise
     * the new task goes at index task_count, which is returned.
     */
    method AddTask(id: int, priority: int, arrivalTime: int, burstTime: int) returns (r: int)
      requires Valid()
      modifies this`tasks
      ensures Valid()
      ensures |old(tasks)| >= capacity || burstTime <= 0 ==> r == -1 && tasks == old(tasks)
      ensures |old(tasks)| < capacity && burstTime > 0 ==>
                r == |old(tasks)| && tasks == old(tasks) + [Admitted(id, priority, arrivalTime, burstTime)]
    {
      if |tasks| >= capacity {
        return -1;
      }
      if burstTime <= 0 {
        return -1;
      }
      r := |tasks|;
      tasks := tasks + [Admitted(id, priority, arrivalTime, burstTime)];
    }

    /** ready_push_sorted: walk past every entry the new index does not precede, and link it in there. */
    method ReadyPushSorted(idx: int)
      requires IndicesIn(ready, |tasks|) && 0 <= idx < |tasks|
      modifies this`ready
      ensures ready == SortedInsert(old(ready), tasks, idx)
    {
      var p := 0;
      while p < |ready| && !Precedes(tasks[idx], tasks[ready[p]])
        invariant 0 <= p <= |ready|
        invariant forall j :: 0 <= j < p ==> !Precedes(tasks[idx], tasks[ready[j]])
      {
        p := p + 1;
      }
      SortedInsertSplits(ready, tasks, idx, p);
      ready := ready[..p] + [idx] + ready[p..];
    }

    /** ready_pop_front: -1 on an empty queue, otherwise the head, which leaves the queue. */
    method ReadyPopFront() returns (idx: int)
      modifies this`ready
      ensures old(ready) == [] ==> idx == -1 && ready == []
      ensures old(ready) != [] ==> idx == old(ready)[0] && ready == old(ready)[1..]
    {
      if ready == [] {
        return -1;
      }
      idx := ready[0];
      ready := ready[1..];
    }

    /** ready_queue_length: counts the nodes by walking the list. */
    method ReadyQueueLength() returns (n: int)
      ensures n == |ready|
    {
      n := 0;
      var rest := ready;
      while rest != []
        invariant n + |rest| == |ready|
        decreases |rest|
      {
        n := n + 1;
        rest := rest[1..];
      }
    }

    /** all_finished: no task has remaining time. */
    method AllFinished() returns (b: bool)
      ensures b <==> AllDone(tasks)
    {
      var i := 0;
      while i < |tasks|
        invariant 0 <= i <= |tasks|
        invariant forall j :: 0 <= j < i ==> tasks[j].remainingTime <= 0
      {
        if tasks[i].remainingTime > 0 {
          return false;
        }
        i := i + 1;
      }
      return true;
    }

    /**
     * enqueue_arrivals: every task that arrives by sim_time is pushed in
     * sorted place and marked enqueued; nothing else changes.
     */
    method EnqueueArrivals()
      requires Valid()
      modifies this`tasks, this`ready
      ensures Valid()
      ensures |tasks| == |old(tasks)|
      ensures forall i :: 0 <= i < |tasks| ==>
                tasks[i] == if Arrives(old(tasks)[i], simTime) then old(tasks)[i].(enqueued := true) else old(tasks)[i]
      ensures forall i :: 0 <= i < |tasks| ==> (i in ready <==> i in old(ready) || Arrives(old(tasks)[i], simTime))
      ensures Sorted(old(ready), old(tasks)) ==> Sorted(ready, tasks)
      ensures ready == ArrivalQueue(old(ready), old(tasks), simTime, |tasks|)
    {
      var i := 0;
      while i < |tasks|
        invariant 0 <= i <= |tasks| == |old(tasks)|
        invariant Valid()
        invariant tasks == Flagged(old(tasks), simTime, i)
        invariant ready == ArrivalQueue(old(ready), old(tasks), simTime, i)
      {
        FlaggedNext(old(tasks), simTime, i);
        if Arrives(tasks[i], simTime) {
          assert forall j :: 0 <= j < |tasks| ==> SameKey(tasks[j], old(tasks)[j]);
          SortedInsertSameKeys(ready, tasks, old(tasks), i);
          Arrive(i);
        }
        i := i + 1;
      }
      ArrivalsOutcome(old(ready), old(tasks), simTime);
    }

    /** One arrival of enqueue_arrivals: the task goes into the queue in sorted place and is marked enqueued. */
    method Arrive(i: int)
      requires Valid() && 0 <= i < |tasks| && Arrives(tasks[i], simTime)
      modifies this`tasks, this`ready
      ensures Valid()
      ensures tasks == old(tasks)[i := old(tasks)[i].(enqueued := true)]
      ensures forall j :: j in ready <==> j in old(ready) || j == i
      ensures ready == SortedInsert(old(ready), old(tasks), i)
      ensures Sorted(old(ready), old(tasks)) ==> Sorted(ready, tasks)
    {
      PushArrivalOk(tasks, ready, i, simTime);
      ReadyPushSorted(i);
      tasks := tasks[i := tasks[i].(enqueued := true)];
    }

    /** The scan for the first task with a given id, as apply_ai_priorities_for_tick does it; -1 if none. */
    method FindTask(id: int) returns (k: int)
      ensures k == FirstWithId(tasks, id)
    {
      k := 0;
      while k < |tasks|
        invariant 0 <= k <= |tasks|
        invariant forall j :: 0 <= j < k ==> tasks[j].id != id
      {
        if tasks[k].id == id {
          return;
        }
        k := k + 1;
      }
      k := -1;
    }

    /** One scanned row of apply_ai_priorities_for_tick's loop, with the running flag and freshest tick. */
    method ApplyRow(d: Directive, currentTick: int, applied: bool, freshest: int) returns (applied': bool, freshest': int)
      modifies this`tasks
      ensures var k := FirstWithId(old(tasks), d.taskId);
              (tasks, applied') ==
                if Eligible(d, currentTick, lastAppliedTick) && k >= 0 then (old(tasks)[k := old(tasks)[k].(priority := d.newPrio)], true)
                else (old(tasks), applied)
      ensures freshest' == if Eligible(d, currentTick, lastAppliedTick) && d.tick > freshest then d.tick else freshest
    {
      applied', freshest' := applied, freshest;
      if d.tick == currentTick && d.tick > lastAppliedTick {
        var i := FindTask(d.taskId);
        if i >= 0 {
          tasks := tasks[i := tasks[i].(priority := d.newPrio)];
          applied' := true;
        }
        if d.tick > freshest {
          freshest' := d.tick;
        }
      }
    }

    /** One line of apply_ai_priorities_for_tick's loop: a line that did not scan changes nothing. */
    method ApplyScanned(scanned: Option<Directive>, currentTick: int, applied: bool, freshest: int,
                        ghost t0: seq<RtosTask>, ghost rows: seq<Directive>)
      returns (applied': bool, freshest': int)
      requires (tasks, applied) == ApplyDirectives(t0, rows, currentTick, lastAppliedTick)
      requires freshest == -1 || (freshest == currentTick && currentTick >= 0)
      requires applied && currentTick >= 0 ==> freshest == currentTick
      modifies this`tasks
      ensures (tasks, applied') == ApplyDirectives(t0, rows + RowOf(scanned), currentTick, lastAppliedTick)
      ensures freshest' == -1 || (freshest' == currentTick && currentTick >= 0)
      ensures applied' && currentTick >= 0 ==> freshest' == currentTick
    {
      if scanned.Some? {
        var d := scanned.value;
        ApplyDirectivesSnoc(t0, rows, d, currentTick, lastAppliedTick);
        applied', freshest' := ApplyRow(d, currentTick, applied, freshest);
      } else {
        assert rows + RowOf(scanned) == rows;
        applied', freshest' := applied, freshest;
      }
    }

    /**
     * apply_ai_priorities_for_tick over the lines of new_priorities.csv
     * (None when it cannot be opened): the header is skipped, every later
     * line that scans as three integers is a row, and a row for this tick
     * past the last applied tick rewrites the priority of the first task
     * with its id. Returns whether any priority was assigned; only then does
     * last_applied_tick move to this tick.
     */
    method ApplyAiPrioritiesForTick(currentTick: int, file: Option<seq<string>>) returns (applied: bool)
      modifies this`tasks, this`lastAppliedTick
      ensures (tasks, applied) == ApplyDirectives(old(tasks), Directives(file), currentTick, old(lastAppliedTick))
      ensures lastAppliedTick == if applied && currentTick >= 0 then currentTick else old(lastAppliedTick)
      ensures OnlyPriorities(old(tasks), tasks)
    {
      applied := false;
      if file.None? || file.value == [] {
        return;
      }
      var lines := file.value[1..];
      var freshest := -1;
      ghost var rows: seq<Directive> := [];
      var n := 0;
      while n < |lines|
        invariant 0 <= n <= |lines|
        invariant rows == ScanLines(lines[..n])
        invariant (tasks, applied) == ApplyDirectives(old(tasks), rows, currentTick, lastAppliedTick)
        invariant lastAppliedTick == old(lastAppliedTick)
        invariant freshest == -1 || (freshest == currentTick && currentTick >= 0)
        invariant applied && currentTick >= 0 ==> freshest == currentTick
      {
        ScanLinesSnoc(lines, n);
        var scanned := ScanDirective(lines[n]);
        applied, freshest := ApplyScanned(scanned, currentTick, applied, freshest, old(tasks), rows);
        rows := rows + RowOf(scanned);
        n := n + 1;
      }
      assert lines[..n] == lines;
      if applied && freshest >= 0 {
        lastAppliedTick := freshest;
      }
    }

    /**
     * The wait at the start of a tick: up to WAIT_LIMIT_MS / TRY_STEP_MS
     * attempts, stopping at the first that applies something. With the file
     * unchanged between attempts, it acts exactly like a single attempt.
     */
    method WaitForDirectives(file: Option<seq<string>>) returns (applied: bool)
      requires -1 <= lastAppliedTick && 0 <= simTime
      modifies this`tasks, this`lastAppliedTick
      ensures (tasks, applied) == ApplyDirectives(old(tasks), Directives(file), simTime, old(lastAppliedTick))
      ensures lastAppliedTick == if applied then simTime else old(lastAppliedTick)
      ensures OnlyPriorities(old(tasks), tasks)
    {
      var waitedMs := 0;
      applied := false;
      NotAppliedMeansUnchanged(tasks, Directives(file), simTime, lastAppliedTick);
      while waitedMs < WAIT_LIMIT_MS
        invariant !applied ==> tasks == old(tasks) && lastAppliedTick == old(lastAppliedTick)
        invariant !applied && waitedMs > 0 ==>
                    ApplyDirectives(old(tasks), Directives(file), simTime, old(lastAppliedTick)) == (old(tasks), false)
        invariant applied ==>
                    ApplyDirectives(old(tasks), Directives(file), simTime, old(lastAppliedTick)) == (tasks, true)
                    && lastAppliedTick == simTime
        decreases WAIT_LIMIT_MS - waitedMs
      {
        applied := ApplyAiPrioritiesForTick(simTime, file);
        if applied {
          break;
        }
        waitedMs := waitedMs + TRY_STEP_MS;
      }
    }

    /**
     * Step 3 of a tick: reselect when no task runs, a higher-priority task
     * is ready, or the quantum is used up. The current task, if it has work
     * left, goes back in sorted place before the head is taken.
     */
    method Reselect(current: int, quantum: int) returns (next: int, nextQuantum: int)
      requires Valid() && Dispatched(tasks, ready, current)
      modifies this`ready
      ensures Valid() && Dispatched(tasks, ready, next)
      ensures var reselect := current < 0 || HigherPriorityAvailable(tasks, old(ready), current) || quantum >= QUANTUM;
              var q := if current >= 0 then SortedInsert(old(ready), tasks, current) else old(ready);
              if reselect then
                nextQuantum == 0
                && (q == [] ==> next == -1 && ready == [])
                && (q != [] ==> next == q[0] && ready == q[1..])
                && (Sorted(old(ready), tasks) && next >= 0 ==>
                      forall k :: 0 <= k < |ready| ==> !Precedes(tasks[ready[k]], tasks[next]))
              else
                next == current && nextQuantum == quantum && ready == old(ready)
      ensures Sorted(old(ready), tasks) ==> Sorted(ready, tasks)
    {
      if current < 0 || HigherPriorityAvailable(tasks, ready, current) || quantum >= QUANTUM {
        if current >= 0 && tasks[current].remainingTime > 0 {
          RequeueOk(tasks, ready, current);
          ReadyPushSorted(current);
        }
        if ready != [] {
          PopOk(tasks, ready);
        }
        next := ReadyPopFront();
        nextQuantum := 0;
      } else {
        next := current;
        nextQuantum := quantum;
      }
    }

    /**
     * Step 4 of a tick with a dispatched task: it loses one unit of work,
     * every other enqueued task with work ages by one waiting tick, and a
     * task that runs out completes at sim_time + 1 and is dropped.
     */
    method RunCycle(current: int, quantum: int) returns (next: int, nextQuantum: int)
      requires Valid() && Dispatched(tasks, ready, current) && current >= 0
      modifies this`tasks
      ensures Valid() && Dispatched(tasks, ready, next)
      ensures |tasks| == |old(tasks)|
      ensures var t := old(tasks)[current];
              var left := t.remainingTime - 1;
              tasks[current] == t.(remainingTime := left, completionTime := if left <= 0 then simTime + 1 else t.completionTime)
      ensures forall i :: 0 <= i < |tasks| && i != current ==>
                tasks[i] == if old(tasks)[i].enqueued && old(tasks)[i].remainingTime > 0
                            then old(tasks)[i].(waitingTime := old(tasks)[i].waitingTime + 1)
                            else old(tasks)[i]
      ensures old(tasks)[current].remainingTime <= 1 ==> next == -1 && nextQuantum == 0
      ensures old(tasks)[current].remainingTime > 1 ==> next == current && nextQuantum == quantum + 1
      ensures Sorted(ready, old(tasks)) ==> Sorted(ready, tasks)
    {
      ghost var before := tasks;
      tasks := tasks[current := tasks[current].(remainingTime := tasks[current].remainingTime - 1)];
      next, nextQuantum := current, quantum + 1;
      var i := 0;
      while i < |tasks|
        invariant 0 <= i <= |tasks| == |before|
        invariant tasks[current] == before[current].(remainingTime := before[current].remainingTime - 1)
        invariant forall j :: 0 <= j < |tasks| && j != current ==>
                    tasks[j] == if j < i && before[j].enqueued && before[j].remainingTime > 0
                                then before[j].(waitingTime := before[j].waitingTime + 1)
                                else before[j]
      {
        if i != current && tasks[i].enqueued && tasks[i].remainingTime > 0 {
          tasks := tasks[i := tasks[i].(waitingTime := tasks[i].waitingTime + 1)];
        }
        i := i + 1;
      }
      if tasks[current].remainingTime <= 0 {
        tasks := tasks[current := tasks[current].(completionTime := simTime + 1)];
        next, nextQuantum := -1, 0;
      }
      OnlyFlagsKeepSorted(before, tasks, ready);
    }

    /** Steps 1 and 2 of a tick: arrivals, then the wait for this tick's priorities. */
    method Prepare(ghost current: int, file: Option<seq<string>>)
      requires Valid() && Dispatched(tasks, ready, current)
      modifies this`tasks, this`ready, this`lastAppliedTick
      ensures Valid() && Dispatched(tasks, ready, current)
      ensures |tasks| == |old(tasks)|
    {
      EnqueueArrivals();
      assert Dispatched(tasks, ready, current);
      ghost var before := tasks;
      var _ := WaitForDirectives(file);
      assert OnlyPriorities(before, tasks);
    }

    /** Steps 3 and 4 of a tick: reselection, then one cycle of the task picked, if any. */
    method Dispatch(current: int, quantum: int) returns (next: int, nextQuantum: int)
      requires Valid() && Dispatched(tasks, ready, current)
      modifies this`tasks, this`ready
      ensures Valid() && Dispatched(tasks, ready, next)
      ensures |tasks| == |old(tasks)|
    {
      next, nextQuantum := Reselect(current, quantum);
      if next >= 0 {
        next, nextQuantum := RunCycle(next, nextQuantum);
      }
    }

    /**
     * One iteration of start_scheduler's loop: arrivals, the wait for
     * priorities, reselection, one cycle, the metrics lines of this tick,
     * and the clock moving on by one.
     */
    method Tick(current: int, quantum: int, file: Option<seq<string>>)
      returns (next: int, nextQuantum: int, rows: seq<MetricsRow>)
      requires Valid() && Dispatched(tasks, ready, current)
      modifies this`tasks, this`ready, this`simTime, this`lastAppliedTick
      ensures Valid() && Dispatched(tasks, ready, next)
      ensures simTime == old(simTime) + 1
      ensures |tasks| == |old(tasks)|
      ensures var runningId := if next >= 0 then tasks[next].id else -1;
              rows == TickRows(old(simTime), tasks, runningId, |ready|, if runningId >= 0 then 1 else 0)
    {
      Prepare(current, file);
      next, nextQuantum := Dispatch(current, quantum);
      rows := LogMetrics(next);
      simTime := simTime + 1;
    }

    /** log_metrics for this tick: one line per task, with the running task's id, the queue length and cpu_usage. */
    method LogMetrics(running: int) returns (rows: seq<MetricsRow>)
      requires running < |tasks|
      ensures var runningId := if running >= 0 then tasks[running].id else -1;
              rows == TickRows(simTime, tasks, runningId, |ready|, if runningId >= 0 then 1 else 0)
    {
      var runningId := if running >= 0 then tasks[running].id else -1;
      var cpuUsage := if runningId >= 0 then 1 else 0;
      var queueLen := ReadyQueueLength();
      rows := TickRows(simTime, tasks, runningId, queueLen, cpuUsage);
    }

    /**
     * start_scheduler's loop from a fresh dispatch state, one file content
     * per tick: it ticks until every task is finished, or until the given
     * contents run out, and returns the metrics lines in order.
     */
    method Run(files: seq<Option<seq<string>>>) returns (log: seq<MetricsRow>, ticks: nat)
      requires Valid()
      modifies this`tasks, this`ready, this`simTime, this`lastAppliedTick
      ensures Valid()
      ensures ticks <= |files| && simTime == old(simTime) + ticks
      ensures |tasks| == |old(tasks)|
      ensures ticks < |files| ==> AllDone(tasks)
    {
      var current, quantum := -1, 0;
      log, ticks := [], 0;
      var done := AllFinished();
      while !done && ticks < |files|
        invariant Valid() && Dispatched(tasks, ready, current)
        invariant ticks <= |files| && simTime == old(simTime) + ticks
        invariant |tasks| == |old(tasks)|
        invariant done <==> AllDone(tasks)
      {
        var rows;
        current, quantum, rows := Tick(current, quantum, files[ticks]);
        log := log + rows;
        ticks := ticks + 1;
        done := AllFinished();
      }
    }
  }
}
