/**
 * The rules-based priority adjuster of tools/: it takes the metrics rows of
 * the latest tick, computes a new priority per task from its waiting and
 * remaining time, and publishes one batch per new tick as
 * new_priorities.csv.
 */
module AiAdjuster {
  import opened Wrappers
  import opened Numerals
  import opened Csv
  import opened PyMath
  import opened DirectiveFile
  import opened Batch

  const MIN_PRIO := 0
  const MAX_PRIO := 10
  /** A task that has waited this long is boosted by WAIT_BOOST. */
  const WAIT_TOO_LONG := 5
  const WAIT_BOOST := -1
  /** Penalty per unit of remaining time. */
  const REMAINING_WEIGHT: real := 0.05

  const HEADER := "tick,task_id,new_priority"

  // ---------- Snapshot selection ----------

  /** r.get("tick", ""): "" when there is no tick column, None for a short line. */
  function TickText(r: Row): Option<string> {
    Get(r, "tick", "")
  }

  /** .isdigit() on the tick raises: the field is None. */
  predicate TickUnreadable(r: Row) {
    TickText(r).None?
  }

  predicate HasDigitTick(r: Row) {
    TickText(r).Some? && IsDigitText(TickText(r).value)
  }

  /** int(r["tick"]) for a row whose tick is all digits. */
  function DigitTick(r: Row): nat
    requires HasDigitTick(r)
  {
    DigitsValue(TickText(r).value)
  }

  /** max of the all-digit ticks, None when there are none. */
  function MaxDigitTick(rows: seq<Row>): (m: Option<nat>)
    ensures m.None? <==> forall i :: 0 <= i < |rows| ==> !HasDigitTick(rows[i])
    ensures m.Some? ==> forall i :: 0 <= i < |rows| && HasDigitTick(rows[i]) ==> DigitTick(rows[i]) <= m.value
    ensures m.Some? ==> exists i :: 0 <= i < |rows| && HasDigitTick(rows[i]) && DigitTick(rows[i]) == m.value
    decreases |rows|
  {
    if rows == [] then None
    else
      var m := MaxDigitTick(rows[..|rows| - 1]);
      var r := rows[|rows| - 1];
      if !HasDigitTick(r) then m
      else if m.None? || m.value < DigitTick(r) then Some(DigitTick(r))
      else m
  }

  /** The rows whose tick is all digits and equal to t, in file order. */
  function RowsAtTick(rows: seq<Row>, t: nat): (latest: seq<Row>)
    ensures forall x :: x in latest <==> x in rows && HasDigitTick(x) && DigitTick(x) == t
    ensures |latest| <= |rows|
    decreases |rows|
  {
    if rows == [] then []
    else
      var front := RowsAtTick(rows[..|rows| - 1], t);
      var r := rows[|rows| - 1];
      assert forall x :: x in rows <==> x in rows[..|rows| - 1] || x == r by {
        assert rows == rows[..|rows| - 1] + [r];
      }
      if HasDigitTick(r) && DigitTick(r) == t then front + [r] else front
  }

  /** A single row is kept exactly when it is at tick t. */
  lemma RowsAtTickSingle(r: Row, t: nat)
    ensures RowsAtTick([r], t) == if HasDigitTick(r) && DigitTick(r) == t then [r] else []
  {
    assert [r][..0] == [];
  }

  /**
   * Filtering by tick distributes over concatenation: the kept rows stay in
   * file order, repeats included, so a later row is never moved ahead.
   */
  lemma {:induction false} RowsAtTickAppend(a: seq<Row>, b: seq<Row>, t: nat)
    ensures RowsAtTick(a + b, t) == RowsAtTick(a, t) + RowsAtTick(b, t)
    decreases |b|
  {
    if b == [] {
      assert a + b == a;
    } else {
      var b' := b[..|b| - 1];
      assert (a + b)[..|a + b| - 1] == a + b';
      assert (a + b)[|a + b| - 1] == b[|b| - 1];
      assert forall i :: 0 <= i < |a + b'| ==> (a + b')[i] == (a + b)[i];
      RowsAtTickAppend(a, b', t);
    }
  }

  /** The latest tick seen in metrics.csv and its rows. */
  datatype Snapshot = Snapshot(tick: Option<int>, rows: seq<Row>)

  /**
   * latest_tick_rows: (None, []) for no rows or no all-digit tick; Err when
   * a short line leaves some tick as None, where .isdigit() raises;
   * otherwise the largest all-digit tick and exactly the rows carrying it.
   */
  function LatestTickRows(rows: seq<Row>): (r: Result<Snapshot>)
    ensures rows == [] ==> r == Ok(Snapshot(None, []))
    ensures r.Err? <==> rows != [] && exists i :: 0 <= i < |rows| && TickUnreadable(rows[i])
    ensures r.Ok? && r.value.tick.None? ==>
              r.value.rows == [] && forall i :: 0 <= i < |rows| ==> !HasDigitTick(rows[i])
    ensures r.Ok? && r.value.tick.Some? ==>
              var t := r.value.tick.value;
              (forall i :: 0 <= i < |rows| && HasDigitTick(rows[i]) ==> DigitTick(rows[i]) <= t)
              && r.value.rows != []
              && (forall x :: x in r.value.rows <==> x in rows && HasDigitTick(x) && DigitTick(x) == t)
              && t >= 0 && r.value.rows == RowsAtTick(rows, t)
  {
    if rows == [] then Ok(Snapshot(None, []))
    else if exists i :: 0 <= i < |rows| && TickUnreadable(rows[i]) then Err
    else match MaxDigitTick(rows)
      case None => Ok(Snapshot(None, []))
      case Some(t) =>
        var latest := RowsAtTick(rows, t);
        assert exists i :: 0 <= i < |rows| && HasDigitTick(rows[i]) && DigitTick(rows[i]) == t;
        var i :| 0 <= i < |rows| && HasDigitTick(rows[i]) && DigitTick(rows[i]) == t;
        assert rows[i] in latest;
        Ok(Snapshot(Some(t), latest))
  }

  // ---------- Per-task heuristic ----------

  /** remaining_time, else remaining_burst, else 0. */
  function Remaining(r: Row): int {
    IntOr(r, "remaining_time", IntOr(r, "remaining_burst", 0))
  }

  /** The aging boost when the task has waited too long, plus the remaining-time penalty. */
  function Delta(waiting: int, remaining: int): real {
    (if waiting >= WAIT_TOO_LONG then WAIT_BOOST as real else 0.0) + REMAINING_WEIGHT * remaining as real
  }

  /** clamp(int(round(current + delta)), MIN_PRIO, MAX_PRIO) */
  function NewPriority(current: int, waiting: int, remaining: int): (p: int)
    ensures MIN_PRIO <= p <= MAX_PRIO
  {
    Clamp(RoundHalfEven(current as real + Delta(waiting, remaining)), MIN_PRIO, MAX_PRIO)
  }

  /** The task a row is about; -1 when task_id is missing or not an integer. */
  function TaskIdOf(r: Row): int {
    IntOr(r, "task_id", -1)
  }

  /** The new priority for one row; current_priority defaults to 5, waiting_time to 0. */
  function RowPriority(r: Row): int {
    NewPriority(IntOr(r, "current_priority", 5), IntOr(r, "waiting_time", 0), Remaining(r))
  }

  /** remaining_time when it converts, else remaining_burst when that converts, else 0. */
  lemma RemainingFallback(r: Row)
    ensures IntField(r, "remaining_time").Some? ==> Remaining(r) == IntField(r, "remaining_time").value
    ensures IntField(r, "remaining_time").None? && IntField(r, "remaining_burst").Some? ==>
              Remaining(r) == IntField(r, "remaining_burst").value
    ensures IntField(r, "remaining_time").None? && IntField(r, "remaining_burst").None? ==> Remaining(r) == 0
  {
  }

  /** A row whose figures do not convert is still priced, as priority 5 that waited 0. */
  lemma RowPriorityDefaults(r: Row)
    requires IntField(r, "current_priority").None? && IntField(r, "waiting_time").None?
    ensures RowPriority(r) == NewPriority(5, 0, Remaining(r))
  {
  }

  /** compute_priorities: rows with a negative task id are skipped; a later row for a task overwrites an earlier one. */
  function Priorities(rows: seq<Row>): (m: map<int, int>)
    ensures forall k :: k in m ==> k >= 0 && MIN_PRIO <= m[k] <= MAX_PRIO
    decreases |rows|
  {
    if rows == [] then map[]
    else
      var m := Priorities(rows[..|rows| - 1]);
      var r := rows[|rows| - 1];
      if TaskIdOf(r) < 0 then m else m[TaskIdOf(r) := RowPriority(r)]
  }

  /** compute_priorities' loop filling the dict. */
  method ComputePriorities(rows: seq<Row>) returns (prios: map<int, int>)
    ensures prios == Priorities(rows)
  {
    prios := map[];
    var i := 0;
    while i < |rows|
      invariant 0 <= i <= |rows|
      invariant prios == Priorities(rows[..i])
    {
      assert rows[..i + 1][..i] == rows[..i];
      var tid := TaskIdOf(rows[i]);
      if tid >= 0 {
        prios := prios[tid := RowPriority(rows[i])];
      }
      i := i + 1;
    }
    assert rows[..i] == rows;
  }

  /** The task id each row is read as, in row order. */
  function TaskIds(rows: seq<Row>): (ids: seq<int>)
    ensures |ids| == |rows| && forall i :: 0 <= i < |rows| ==> ids[i] == TaskIdOf(rows[i])
    ensures forall i :: 0 <= i < |rows| ==>
              ids[i] == if IntField(rows[i], "task_id").Some? then IntField(rows[i], "task_id").value else -1
  {
    seq(|rows|, i requires 0 <= i < |rows| => TaskIdOf(rows[i]))
  }

  /** A task gets a priority exactly when some row names it with a non-negative id. */
  lemma {:induction false} PrioritiesKeys(rows: seq<Row>, k: int)
    ensures k in Priorities(rows) <==> k >= 0 && k in TaskIds(rows)
    decreases |rows|
  {
    if rows != [] {
      var front := rows[..|rows| - 1];
      PrioritiesKeys(front, k);
      assert TaskIds(rows) == TaskIds(front) + [TaskIdOf(rows[|rows| - 1])];
    }
  }

  /** The priority kept for a task is the one computed from the last row naming it. */
  lemma {:induction false} PrioritiesLastWins(rows: seq<Row>, i: int)
    requires 0 <= i < |rows| && TaskIdOf(rows[i]) >= 0
    requires forall j :: i < j < |rows| ==> TaskIdOf(rows[j]) != TaskIdOf(rows[i])
    ensures TaskIdOf(rows[i]) in Priorities(rows)
    ensures Priorities(rows)[TaskIdOf(rows[i])] == RowPriority(rows[i])
    decreases |rows|
  {
    if i < |rows| - 1 {
      var front := rows[..|rows| - 1];
      assert front[i] == rows[i];
      forall j | i < j < |front|
        ensures TaskIdOf(front[j]) != TaskIdOf(front[i])
      {
        assert front[j] == rows[j];
      }
      PrioritiesLastWins(front, i);
    }
  }

  /** Having waited too long never gives a larger number than the same row without the wait. */
  lemma AgingNeverRaises(current: int, waited: int, recent: int, remaining: int)
    requires waited >= WAIT_TOO_LONG > recent
    ensures NewPriority(current, waited, remaining) <= NewPriority(current, recent, remaining)
  {
    var x := current as real + Delta(waited, remaining);
    var y := current as real + Delta(recent, remaining);
    assert x == y - 1.0;
    RoundMonotone(x, y);
    ClampMonotone(RoundHalfEven(x), RoundHalfEven(y), MIN_PRIO, MAX_PRIO);
  }

  /** waiting 6, remaining 10, priority 5: 5 - 1 + 0.5 = 4.5, which rounds to the even 4. */
  lemma HalfwayRoundsToEven()
    ensures NewPriority(5, 6, 10) == 4
  {
    assert Delta(6, 10) == -0.5;
    assert (4.5).Floor == 4;
  }

  /** queue_len and cpu_usage are read but play no part. */
  lemma QueueLenAndCpuIgnored(r: Row, q: Option<string>, c: Option<string>)
    ensures RowPriority(r["queue_len" := q]["cpu_usage" := c]) == RowPriority(r)
    ensures TaskIdOf(r["queue_len" := q]["cpu_usage" := c]) == TaskIdOf(r)
  {
    var r2 := r["queue_len" := q]["cpu_usage" := c];
    assert forall key :: key != "queue_len" && key != "cpu_usage" ==> (key in r2 <==> key in r);
    assert forall key :: key != "queue_len" && key != "cpu_usage" && key in r ==> r2[key] == r[key];
    assert IntOr(r2, "current_priority", 5) == IntOr(r, "current_priority", 5);
    assert IntOr(r2, "waiting_time", 0) == IntOr(r, "waiting_time", 0);
    assert Remaining(r2) == Remaining(r);
  }

  // ---------- Output ----------

  /** One csv.writer line: tick,task_id,new_priority. */
  function RowLine(d: Directive): string {
    Join([IntToString(d.tick), IntToString(d.taskId), IntToString(d.newPrio)])
  }

  /** The lines of new_priorities.csv for a batch: the header, then the rows. */
  function BatchLines(tick: int, prios: map<int, int>): (lines: seq<string>)
    ensures |lines| == |prios| + 1 && lines[0] == HEADER
  {
    var ds := BatchRows(tick, prios);
    [HEADER] + seq(|ds|, i requires 0 <= i < |ds| => RowLine(ds[i]))
  }

  // ---------- Poll step ----------

  /** What a poll publishes: the tick and its rows when the tick is new and its snapshot non-empty. */
  function ToPublish(rows: seq<Row>, last: int): (p: Option<(int, seq<Row>)>)
    ensures p.Some? ==> p.value.0 > last && p.value.1 != []
  {
    match LatestTickRows(rows)
    case Err => None
    case Ok(Snapshot(t, latest)) =>
      if t.Some? && t.value > last && latest != [] then Some((t.value, latest)) else None
  }

  /** A snapshot with a tick is never empty, so the emptiness test of main never decides anything. */
  lemma SnapshotWithTickNonEmpty(rows: seq<Row>, last: int)
    requires LatestTickRows(rows).Ok? && LatestTickRows(rows).value.tick.Some?
    requires LatestTickRows(rows).value.tick.value > last
    ensures ToPublish(rows, last).Some?
  {
  }

  /** A poll at an unchanged tick publishes nothing. */
  lemma NoRepublish(rows: seq<Row>, last: int)
    requires ToPublish(rows, last).Some?
    ensures ToPublish(rows, ToPublish(rows, last).value.0).None?
  {
  }

  /** main's loop state: the last published tick and the published file. */
  class Poller {
    var last: int
    var output: Option<seq<string>>
    ghost var published: seq<int>

    /** Published ticks strictly increase, and last is the latest of them (-1 before the first). */
    ghost predicate Valid()
      reads this
    {
      StrictlyIncreasing(published)
      && last == (if published == [] then -1 else published[|published| - 1])
    }

    constructor(existing: Option<seq<string>>)
      ensures last == -1 && output == existing && published == []
      ensures Valid()
    {
      last := -1;
      output := existing;
      published := [];
    }

    /** Records a written batch: the file now holds lines and tick is the latest published. */
    method Publish(tick: int, lines: seq<string>)
      requires Valid() && tick > last
      modifies this
      ensures Valid() && last == tick && published == old(published) + [tick] && output == Some(lines)
    {
      AppendLarger(published, tick);
      output := Some(lines);
      last := tick;
      published := published + [tick];
    }

    /**
     * One pass of main's loop over the rows read from metrics.csv. The
     * batch is published when there is a new tick; writeOk says whether
     * the write and replace went through. last moves only after a
     * successful write; on any failure nothing changes.
     */
    method Poll(rows: seq<Row>, writeOk: bool) returns (wrote: bool)
      requires Valid()
      modifies this
      ensures Valid()
      ensures var p := ToPublish(rows, old(last));
              wrote == (p.Some? && writeOk)
              && (wrote ==> last == p.value.0 && published == old(published) + [p.value.0]
                            && output == Some(BatchLines(p.value.0, Priorities(p.value.1))))
              && (!wrote ==> last == old(last) && published == old(published) && output == old(output))
    {
      wrote := false;
      var p := ToPublish(rows, last);
      if p.None? || !writeOk {
        return;
      }
      var (t, latest) := p.value;
      var prios := ComputePriorities(latest);
      Publish(t, BatchLines(t, prios));
      wrote := true;
    }
  }
}
