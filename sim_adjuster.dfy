/**
 * The weighted priority adjuster of rtos-sim/tools/: every row of the
 * latest tick gets a new priority from its waiting and remaining time and
 * from the congestion and CPU figures of the snapshot; any field that does
 * not parse aborts the whole poll.
 */
module SimAdjuster {
  import opened Wrappers
  import opened Numerals
  import opened Csv
  import opened PyMath
  import opened DirectiveFile
  import opened Batch

  const MIN_PRIO := 0
  const MAX_PRIO := 10

  const W_WAIT: real := -0.2
  const W_REMAIN: real := 0.05
  const W_CONGEST: real := -0.5
  const W_CPU: real := 0.2

  /** Aging applies from this waiting time on, by AGING_BOOST. */
  const AGING_WAIT_THRESHOLD := 5
  const AGING_BOOST := -1

  const HEADER := "tick,task_id,new_priority,valid_until"

  // ---------- Snapshot selection ----------

  /** int(r["tick"]) does not raise. */
  predicate TickReadable(r: Row) {
    IntField(r, "tick").Some?
  }

  function TickOf(r: Row): int
    requires TickReadable(r)
  {
    IntField(r, "tick").value
  }

  /** max(int(r["tick"]) for r in rows) */
  function MaxTick(rows: seq<Row>): (t: int)
    requires rows != [] && forall i :: 0 <= i < |rows| ==> TickReadable(rows[i])
    ensures forall i :: 0 <= i < |rows| ==> TickOf(rows[i]) <= t
    ensures exists i :: 0 <= i < |rows| && TickOf(rows[i]) == t
    decreases |rows|
  {
    if |rows| == 1 then TickOf(rows[0])
    else
      var m := MaxTick(rows[..|rows| - 1]);
      var last := TickOf(rows[|rows| - 1]);
      assert forall i :: 0 <= i < |rows| - 1 ==> rows[..|rows| - 1][i] == rows[i];
      if last > m then last else m
  }

  /** The rows at tick t, in file order. */
  function RowsAtTick(rows: seq<Row>, t: int): (latest: seq<Row>)
    requires forall i :: 0 <= i < |rows| ==> TickReadable(rows[i])
    ensures forall x :: x in latest <==> x in rows && TickOf(x) == t
    decreases |rows|
  {
    if rows == [] then []
    else
      var r := rows[|rows| - 1];
      var front := RowsAtTick(rows[..|rows| - 1], t);
      assert forall x :: x in rows <==> x in rows[..|rows| - 1] || x == r by {
        assert rows == rows[..|rows| - 1] + [r];
      }
      if TickOf(r) == t then front + [r] else front
  }

  /** A single row is kept exactly when it is at tick t. */
  lemma RowsAtTickSingle(r: Row, t: int)
    requires TickReadable(r)
    ensures RowsAtTick([r], t) == if TickOf(r) == t then [r] else []
  {
    assert [r][..0] == [];
  }

  /**
   * Filtering by tick distributes over concatenation: the kept rows stay in
   * file order, repeats included, so a later row is never moved ahead.
   */
  lemma {:induction false} RowsAtTickAppend(a: seq<Row>, b: seq<Row>, t: int)
    requires forall i :: 0 <= i < |a| ==> TickReadable(a[i])
    requires forall i :: 0 <= i < |b| ==> TickReadable(b[i])
    ensures RowsAtTick(a + b, t) == RowsAtTick(a, t) + RowsAtTick(b, t)
    decreases |b|
  {
    if b == [] {
      assert a + b == a;
    } else {
      var b' := b[..|b| - 1];
      assert (a + b)[..|a + b| - 1] == a + b';
      assert (a + b)[|a + b| - 1] == b[|b| - 1];
      assert forall i :: 0 <= i < |a + b'| ==> (a + b')[i] == (a + b)[i];
      RowsAtTickAppend(a, b', t);
    }
  }

  datatype Snapshot = Snapshot(tick: Option<int>, rows: seq<Row>)

  /**
   * read_last_tick: (None, []) for no rows; Err as soon as some tick does
   * not convert with int(), where the tools fork would have skipped the row;
   * otherwise the largest tick and every row at it.
   */
  function ReadLastTick(rows: seq<Row>): (r: Result<Snapshot>)
    ensures rows == [] ==> r == Ok(Snapshot(None, []))
    ensures r.Err? <==> exists i :: 0 <= i < |rows| && !TickReadable(rows[i])
    ensures r.Ok? && rows != [] ==>
              r.value.tick.Some? && r.value.rows != []
              && (forall i :: 0 <= i < |rows| ==> TickReadable(rows[i]) && TickOf(rows[i]) <= r.value.tick.value)
              && (forall x :: x in r.value.rows <==> x in rows && TickOf(x) == r.value.tick.value)
              && r.value.rows == RowsAtTick(rows, r.value.tick.value)
  {
    if rows == [] then Ok(Snapshot(None, []))
    else if exists i :: 0 <= i < |rows| && !TickReadable(rows[i]) then Err
    else
      var t := MaxTick(rows);
      var latest := RowsAtTick(rows, t);
      var i :| 0 <= i < |rows| && TickOf(rows[i]) == t;
      assert rows[i] in latest;
      Ok(Snapshot(Some(t), latest))
  }

  // ---------- Heuristic ----------

  /** compute_cpu_aggregate: (0.0, 0) for no rows, else cpu_usage and queue_len of the first row only. */
  function CpuAggregate(rows: seq<Row>): (r: Result<(real, int)>)
    ensures rows == [] ==> r == Ok((0.0, 0))
    ensures rows != [] ==>
              (r.Ok? <==> FloatField(rows[0], "cpu_usage").Some? && IntField(rows[0], "queue_len").Some?)
    ensures rows != [] && r.Ok? ==>
              r.value == (FloatField(rows[0], "cpu_usage").value, IntField(rows[0], "queue_len").value)
  {
    if rows == [] then Ok((0.0, 0))
    else
      var cpu := FloatField(rows[0], "cpu_usage");
      var queueLen := IntField(rows[0], "queue_len");
      if cpu.None? || queueLen.None? then Err else Ok((cpu.value, queueLen.value))
  }

  /** The weighted sum of the four figures, and the aging boost once waiting reaches the threshold. */
  function Delta(waiting: int, remaining: int, queueLen: int, cpuUsage: real): real {
    W_WAIT * waiting as real + W_REMAIN * remaining as real + W_CONGEST * queueLen as real + W_CPU * cpuUsage
    + (if waiting >= AGING_WAIT_THRESHOLD then AGING_BOOST as real else 0.0)
  }

  /** clamp(int(round(cur_prio + delta)), MIN_PRIO, MAX_PRIO) */
  function NewPriority(current: int, waiting: int, remaining: int, queueLen: int, cpuUsage: real): (p: int)
    ensures MIN_PRIO <= p <= MAX_PRIO
  {
    Clamp(RoundHalfEven(current as real + Delta(waiting, remaining, queueLen, cpuUsage)), MIN_PRIO, MAX_PRIO)
  }

  /** The four per-row fields, all required. */
  datatype TaskFields = TaskFields(taskId: int, current: int, remaining: int, waiting: int)

  function Fields(r: Row): Option<TaskFields> {
    var id := IntField(r, "task_id");
    var cur := IntField(r, "current_priority");
    var rem := IntField(r, "remaining_time");
    var w := IntField(r, "waiting_time");
    if id.None? || cur.None? || rem.None? || w.None? then None
    else Some(TaskFields(id.value, cur.value, rem.value, w.value))
  }

  /** The loop of adjust_priorities with the snapshot's figures; Err at the first row that does not parse. */
  function Adjusted(rows: seq<Row>, queueLen: int, cpuUsage: real): (r: Result<map<int, int>>)
    ensures r.Ok? ==> forall k :: k in r.value ==> MIN_PRIO <= r.value[k] <= MAX_PRIO
    decreases |rows|
  {
    if rows == [] then Ok(map[])
    else
      var front := Adjusted(rows[..|rows| - 1], queueLen, cpuUsage);
      var f := Fields(rows[|rows| - 1]);
      if front.Err? || f.None? then Err
      else
        var t := f.value;
        Ok(front.value[t.taskId := NewPriority(t.current, t.waiting, t.remaining, queueLen, cpuUsage)])
  }

  /** adjust_priorities */
  function AdjustPriorities(rows: seq<Row>): Result<map<int, int>> {
    match CpuAggregate(rows)
    case Err => Err
    case Ok((cpuUsage, queueLen)) => Adjusted(rows, queueLen, cpuUsage)
  }

  /** adjust_priorities with its loop. */
  method AdjustPrioritiesLoop(rows: seq<Row>) returns (r: Result<map<int, int>>)
    ensures r == AdjustPriorities(rows)
  {
    var aggregate := CpuAggregate(rows);
    if aggregate.Err? {
      return Err;
    }
    var (cpuUsage, queueLen) := aggregate.value;
    var prios: map<int, int> := map[];
    var i := 0;
    while i < |rows|
      invariant 0 <= i <= |rows|
      invariant Adjusted(rows[..i], queueLen, cpuUsage) == Ok(prios)
    {
      assert rows[..i + 1][..i] == rows[..i];
      var f := Fields(rows[i]);
      if f.None? {
        ErrStaysErr(rows, i + 1, queueLen, cpuUsage);
        return Err;
      }
      var t := f.value;
      prios := prios[t.taskId := NewPriority(t.current, t.waiting, t.remaining, queueLen, cpuUsage)];
      i := i + 1;
    }
    assert rows[..i] == rows;
    r := Ok(prios);
  }

  /** Once a prefix fails, so does every longer one. */
  lemma {:induction false} ErrStaysErr(rows: seq<Row>, n: int, queueLen: int, cpuUsage: real)
    requires 0 <= n <= |rows| && Adjusted(rows[..n], queueLen, cpuUsage).Err?
    ensures Adjusted(rows, queueLen, cpuUsage).Err?
    decreases |rows| - n
  {
    if n < |rows| {
      assert rows[..n + 1][..n] == rows[..n];
      ErrStaysErr(rows, n + 1, queueLen, cpuUsage);
    } else {
      assert rows[..n] == rows;
    }
  }

  /** The four integer figures of each row, None where int() raises, in row order. */
  function RowFields(rows: seq<Row>): (fs: seq<Option<TaskFields>>)
    ensures |fs| == |rows|
  {
    seq(|rows|, i requires 0 <= i < |rows| => Fields(rows[i]))
  }

  /** The loop succeeds exactly when no row lacks one of its four integer figures. */
  lemma {:induction false} AdjustedOkIff(rows: seq<Row>, queueLen: int, cpuUsage: real)
    ensures Adjusted(rows, queueLen, cpuUsage).Ok? <==> None !in RowFields(rows)
    decreases |rows|
  {
    if rows != [] {
      var front := rows[..|rows| - 1];
      AdjustedOkIff(front, queueLen, cpuUsage);
      AdjustedOkStep(rows, queueLen, cpuUsage);
      assert RowFields(rows) == RowFields(front) + [Fields(rows[|rows| - 1])];
    }
  }

  lemma AdjustedOkStep(rows: seq<Row>, queueLen: int, cpuUsage: real)
    requires rows != []
    ensures Adjusted(rows, queueLen, cpuUsage).Ok? <==>
              Adjusted(rows[..|rows| - 1], queueLen, cpuUsage).Ok? && Fields(rows[|rows| - 1]).Some?
  {
  }

  /** Row i parses and no later row names the same task. */
  predicate LastOfItsTask(rows: seq<Row>, i: int)
    requires 0 <= i < |rows|
  {
    Fields(rows[i]).Some?
    && forall j :: i < j < |rows| ==> Fields(rows[j]).Some? ==> Fields(rows[j]).value.taskId != Fields(rows[i]).value.taskId
  }

  /**
   * Every task of the snapshot gets the priority of its last row, computed
   * with the queue length and CPU usage of the first row: the congestion and
   * CPU terms are the same for all tasks of one snapshot.
   */
  lemma {:induction false} LastRowWithSharedTerms(rows: seq<Row>, queueLen: int, cpuUsage: real, i: int)
    requires Adjusted(rows, queueLen, cpuUsage).Ok?
    requires 0 <= i < |rows| && LastOfItsTask(rows, i)
    ensures var t := Fields(rows[i]).value;
            var m := Adjusted(rows, queueLen, cpuUsage).value;
            t.taskId in m && m[t.taskId] == NewPriority(t.current, t.waiting, t.remaining, queueLen, cpuUsage)
    decreases |rows|
  {
    var front := rows[..|rows| - 1];
    if i < |rows| - 1 {
      assert front[i] == rows[i];
      forall j | i < j < |front|
        ensures Fields(front[j]).Some? ==> Fields(front[j]).value.taskId != Fields(front[i]).value.taskId
      {
        assert front[j] == rows[j];
      }
      assert LastOfItsTask(front, i);
      LastRowWithSharedTerms(front, queueLen, cpuUsage, i);
    }
  }

  /** With everything else fixed, more waiting never gives a larger number. */
  lemma NonIncreasingInWaiting(current: int, w1: int, w2: int, remaining: int, queueLen: int, cpuUsage: real)
    requires w1 <= w2
    ensures NewPriority(current, w2, remaining, queueLen, cpuUsage) <= NewPriority(current, w1, remaining, queueLen, cpuUsage)
  {
    var x := current as real + Delta(w2, remaining, queueLen, cpuUsage);
    var y := current as real + Delta(w1, remaining, queueLen, cpuUsage);
    assert W_WAIT * w2 as real <= W_WAIT * w1 as real;
    assert x <= y;
    RoundMonotone(x, y);
    ClampMonotone(RoundHalfEven(x), RoundHalfEven(y), MIN_PRIO, MAX_PRIO);
  }

  /** Tasks of one snapshot that agree on their own figures get the same priority. */
  lemma SameOwnFiguresSamePriority(rows: seq<Row>, queueLen: int, cpuUsage: real, i: int, j: int)
    requires Adjusted(rows, queueLen, cpuUsage).Ok?
    requires 0 <= i < |rows| && 0 <= j < |rows|
    requires LastOfItsTask(rows, i) && LastOfItsTask(rows, j)
    requires Fields(rows[i]).value.(taskId := 0) == Fields(rows[j]).value.(taskId := 0)
    ensures var m := Adjusted(rows, queueLen, cpuUsage).value;
            var a, b := Fields(rows[i]).value.taskId, Fields(rows[j]).value.taskId;
            a in m && b in m && m[a] == m[b]
  {
    LastRowWithSharedTerms(rows, queueLen, cpuUsage, i);
    LastRowWithSharedTerms(rows, queueLen, cpuUsage, j);
  }

  // ---------- Output ----------

  /** One csv.writer line: tick,task_id,new_priority,valid_until. */
  function RowLine(d: Directive, validUntil: int): string {
    Join([IntToString(d.tick), IntToString(d.taskId), IntToString(d.newPrio), IntToString(validUntil)])
  }

  /** The lines of new_priorities.csv for a batch: the header, then one row per task, valid until tick + 1. */
  function BatchLines(tick: int, prios: map<int, int>): (lines: seq<string>)
    ensures |lines| == |prios| + 1 && lines[0] == HEADER
  {
    var ds := BatchRows(tick, prios);
    [HEADER] + seq(|ds|, i requires 0 <= i < |ds| => RowLine(ds[i], tick + 1))
  }

  // ---------- Poll step ----------

  /** How atomic_write_priorities ended: the new file in place, the old file left, or the old file removed before a failed rename. */
  datatype WriteOutcome = Written | NotWritten | Removed

  /** What a poll publishes: a new tick whose rows all parse. */
  function ToPublish(rows: seq<Row>, last: int): (p: Option<(int, map<int, int>)>)
    ensures p.Some? ==> p.value.0 > last
  {
    match ReadLastTick(rows)
    case Err => None
    case Ok(Snapshot(t, latest)) =>
      if t.Some? && t.value > last && latest != [] then
        match AdjustPriorities(latest)
        case Err => None
        case Ok(prios) => Some((t.value, prios))
      else None
  }

  /** main's loop state: last_processed_tick and the published file (None when absent). */
  class Poller {
    var last: int
    var output: Option<seq<string>>
    ghost var published: seq<int>

    /** Published ticks strictly increase, and last is the latest of them (-1 before the first). */
    ghost predicate Valid()
      reads this
    {
      StrictlyIncreasing(published)
      && last == (if published == [] then -1 else published[|published| - 1])
    }

    constructor(existing: Option<seq<string>>)
      ensures last == -1 && output == existing && published == []
      ensures Valid()
    {
      last := -1;
      output := existing;
      published := [];
    }

    /** The snapshot selection and the adjustment of one pass, with the adjustment loop. */
    method Select(rows: seq<Row>) returns (p: Option<(int, map<int, int>)>)
      ensures p == ToPublish(rows, last)
    {
      p := None;
      var snapshot := ReadLastTick(rows);
      if snapshot.Err? {
        return;
      }
      var t, latest := snapshot.value.tick, snapshot.value.rows;
      if t.Some? && t.value > last && latest != [] {
        var prios := AdjustPrioritiesLoop(latest);
        if prios.Ok? {
          p := Some((t.value, prios.value));
        }
      }
    }

    /** Records a written batch: the file now holds lines and tick is the latest published. */
    method Publish(tick: int, lines: seq<string>)
      requires Valid() && tick > last
      modifies this
      ensures Valid() && last == tick && published == old(published) + [tick] && output == Some(lines)
    {
      AppendLarger(published, tick);
      output := Some(lines);
      last := tick;
      published := published + [tick];
    }

    /**
     * One pass of main's loop. A new tick is published when its rows parse;
     * last moves only when the write went through. A failed rename after
     * the old file was removed leaves no file, and last unchanged.
     */
    method Poll(rows: seq<Row>, outcome: WriteOutcome) returns (wrote: bool)
      requires Valid()
      modifies this
      ensures Valid()
      ensures wrote == (ToPublish(rows, old(last)).Some? && outcome == Written)
      ensures wrote ==> var (t, prios) := ToPublish(rows, old(last)).value;
                        last == t && published == old(published) + [t] && output == Some(BatchLines(t, prios))
      ensures !wrote ==> last == old(last) && published == old(published)
      ensures ToPublish(rows, old(last)).None? || outcome == NotWritten ==> output == old(output)
      ensures ToPublish(rows, old(last)).Some? && outcome == Removed ==> output == None
    {
      wrote := false;
      var p := Select(rows);
      if p.None? {
        return;
      }
      var (t, prios) := p.value;
      match outcome
      case Written =>
        Publish(t, BatchLines(t, prios));
        wrote := true;
      case NotWritten =>
      case Removed =>
        output := None;
    }
  }
}
