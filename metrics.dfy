/**
 * The rows metrics_log_tick appends to metrics.csv, one per task and tick,
 * under the header tick,task_id,current_priority,remaining_time,
 * waiting_time,queue_len,cpu_usage,is_running; and the csv.DictReader row
 * the Python tools see for such a line.
 */
module Metrics {
  import opened Wrappers
  import opened Numerals
  import opened Csv
  import opened Rtos

  /**
   * One logged line. The scheduler only ever logs a cpu_usage of 1.0 or 0.0,
   * so it is kept in whole units and written with two zero decimals.
   */
  datatype MetricsRow = MetricsRow(
    tick: int,
    taskId: int,
    currentPriority: int,
    remainingTime: int,
    waitingTime: int,
    queueLen: int,
    cpuUsage: nat,
    isRunning: int)

  /** The line logged for task t; is_running compares ids, not indices. */
  function TaskRow(tick: int, t: RtosTask, runningId: int, queueLen: int, cpuUsage: nat): MetricsRow {
    MetricsRow(tick, t.id, t.priority, t.remainingTime, t.waitingTime, queueLen, cpuUsage,
               if t.id == runningId then 1 else 0)
  }

  /** The lines of one metrics_log_tick call, in task-table order. */
  function TickRows(tick: int, tasks: seq<RtosTask>, runningId: int, queueLen: int, cpuUsage: nat): seq<MetricsRow> {
    seq(|tasks|, i requires 0 <= i < |tasks| => TaskRow(tick, tasks[i], runningId, queueLen, cpuUsage))
  }

  /** The DictReader row for a logged line: each column's text under its header name. */
  function Record(m: MetricsRow): Row {
    map[
      "tick" := Some(IntToString(m.tick)),
      "task_id" := Some(IntToString(m.taskId)),
      "current_priority" := Some(IntToString(m.currentPriority)),
      "remaining_time" := Some(IntToString(m.remainingTime)),
      "waiting_time" := Some(IntToString(m.waitingTime)),
      "queue_len" := Some(IntToString(m.queueLen)),
      "cpu_usage" := Some(NatToDigits(m.cpuUsage) + ".00"),
      "is_running" := Some(IntToString(m.isRunning))]
  }

  lemma IntColumn(r: Row, key: string, n: int)
    requires key in r && r[key] == Some(IntToString(n))
    ensures IntField(r, key) == Some(n)
  {
    PyIntOfIntToString(n);
  }

  /** The task_id column of a logged line reads back through int() as the id logged. */
  lemma RecordTaskId(m: MetricsRow)
    ensures IntField(Record(m), "task_id") == Some(m.taskId)
  {
    IntColumn(Record(m), "task_id", m.taskId);
  }

  /** The current_priority column of a logged line reads back as the priority logged. */
  lemma RecordCurrentPriority(m: MetricsRow)
    ensures IntField(Record(m), "current_priority") == Some(m.currentPriority)
  {
    IntColumn(Record(m), "current_priority", m.currentPriority);
  }

  /** The remaining_time column of a logged line reads back as the remaining time logged. */
  lemma RecordRemainingTime(m: MetricsRow)
    ensures IntField(Record(m), "remaining_time") == Some(m.remainingTime)
  {
    IntColumn(Record(m), "remaining_time", m.remainingTime);
  }

  /** The waiting_time column of a logged line reads back as the waiting time logged. */
  lemma RecordWaitingTime(m: MetricsRow)
    ensures IntField(Record(m), "waiting_time") == Some(m.waitingTime)
  {
    IntColumn(Record(m), "waiting_time", m.waitingTime);
  }

  /** "%.2f" of a whole number reads back through float() as that number. */
  lemma PyFloatOfWhole(a: nat)
    ensures PyFloat(NatToDigits(a) + ".00") == Some(a as real)
  {
    PyFloatOfFixed(a, "00");
    assert DigitsValue("00") == 0 by {
      assert "00"[..1] == "0";
    }
    assert Fraction("00") == 0.0;
    assert NatToDigits(a) + "." + "00" == NatToDigits(a) + ".00";
  }

  /** The "%.2f" cpu_usage column reads back through float() as the value logged. */
  lemma RecordCpuField(m: MetricsRow)
    ensures FloatField(Record(m), "cpu_usage") == Some(m.cpuUsage as real)
  {
    var r := Record(m);
    assert r["cpu_usage"] == Some(NatToDigits(m.cpuUsage) + ".00");
    PyFloatOfWhole(m.cpuUsage);
  }
}
