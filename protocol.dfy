/**
 * The file protocol between the scheduler and the adjusters: what the
 * scheduler reads back from a batch either adjuster publishes, what the
 * adjusters read from the metrics lines the scheduler logs, and what an
 * applied batch does to the task table.
 */
module Protocol {
  import opened Wrappers
  import opened Numerals
  import opened Csv
  import opened Rtos
  import opened DirectiveFile
  import opened Metrics
  import opened Batch
  import Tools = AiAdjuster
  import Sim = SimAdjuster

  // ---------- Batch lines read back by the scheduler ----------

  lemma JoinThree(x: string, y: string, z: string)
    ensures Join([x, y, z]) == x + "," + y + "," + z + ""
  {
    assert [y, z][1..] == [z];
    assert Join([y, z]) == y + "," + z;
    assert [x, y, z][1..] == [y, z];
    assert Join([x, y, z]) == x + "," + (y + "," + z);
    assert x + "," + y + "," + z + "" == x + "," + (y + "," + z);
  }

  lemma JoinFour(x: string, y: string, z: string, w: string)
    ensures Join([x, y, z, w]) == x + "," + y + "," + z + ("," + w)
  {
    assert [x, y, z, w][1..] == [y, z, w];
    JoinThree(y, z, w);
  }

  /** A tools-fork row line scans back, by "%d,%d,%d", as the row written. */
  lemma ToolsRowReadBack(d: Directive)
    ensures ScanDirective(Tools.RowLine(d)) == Some(d)
  {
    JoinThree(IntToString(d.tick), IntToString(d.taskId), IntToString(d.newPrio));
    ScanDirectiveOfLine(d.tick, d.taskId, d.newPrio, "");
  }

  /** A sim-fork row line scans back as the row written; the valid_until column is not read. */
  lemma SimRowReadBack(d: Directive, validUntil: int)
    ensures ScanDirective(Sim.RowLine(d, validUntil)) == Some(d)
  {
    JoinFour(IntToString(d.tick), IntToString(d.taskId), IntToString(d.newPrio), IntToString(validUntil));
    ScanDirectiveOfLine(d.tick, d.taskId, d.newPrio, "," + IntToString(validUntil));
  }

  /** csv.writer ends each row with "\r\n"; sscanf stops before it, so the line still scans back. */
  lemma ToolsRowReadBackTerminated(d: Directive)
    ensures ScanDirective(Tools.RowLine(d) + "\r\n") == Some(d)
  {
    var x, y, z := IntToString(d.tick), IntToString(d.taskId), IntToString(d.newPrio);
    JoinThree(x, y, z);
    assert Tools.RowLine(d) + "\r\n" == x + "," + y + "," + z + "\r\n";
    ScanDirectiveOfLine(d.tick, d.taskId, d.newPrio, "\r\n");
  }

  /** The same for a terminated sim-fork row line. */
  lemma SimRowReadBackTerminated(d: Directive, validUntil: int)
    ensures ScanDirective(Sim.RowLine(d, validUntil) + "\r\n") == Some(d)
  {
    JoinFour(IntToString(d.tick), IntToString(d.taskId), IntToString(d.newPrio), IntToString(validUntil));
    assert Sim.RowLine(d, validUntil) + "\r\n"
        == IntToString(d.tick) + "," + IntToString(d.taskId) + "," + IntToString(d.newPrio) + ("," + IntToString(validUntil) + "\r\n");
    ScanDirectiveOfLine(d.tick, d.taskId, d.newPrio, "," + IntToString(validUntil) + "\r\n");
  }

  /**
   * The sim fork writes the tools fork's lines with one more column,
   * valid_until, holding tick + 1, which int() reads back as tick + 1.
   */
  lemma SimLinesExtendToolsLines(tick: int, prios: map<int, int>)
    ensures |Sim.BatchLines(tick, prios)| == |Tools.BatchLines(tick, prios)|
    ensures Sim.HEADER == Tools.HEADER + ",valid_until"
    ensures forall i :: 1 <= i < |Sim.BatchLines(tick, prios)| ==>
              Sim.BatchLines(tick, prios)[i] == Tools.BatchLines(tick, prios)[i] + "," + IntToString(tick + 1)
    ensures PyInt(IntToString(tick + 1)) == Some(tick + 1)
  {
    PyIntOfIntToString(tick + 1);
    SimRowsExtendToolsRows(tick, prios);
  }

  lemma SimRowsExtendToolsRows(tick: int, prios: map<int, int>)
    ensures forall i :: 1 <= i < |Sim.BatchLines(tick, prios)| ==>
              Sim.BatchLines(tick, prios)[i] == Tools.BatchLines(tick, prios)[i] + "," + IntToString(tick + 1)
  {
    var ds := BatchRows(tick, prios);
    var sim, tools := Sim.BatchLines(tick, prios), Tools.BatchLines(tick, prios);
    forall i | 1 <= i < |sim|
      ensures sim[i] == tools[i] + "," + IntToString(tick + 1)
    {
      SimLineAt(tick, prios, i);
      ToolsLineAt(tick, prios, i);
      SimRowExtendsToolsRow(ds[i - 1], tick + 1);
    }
  }

  lemma ToolsLineAt(tick: int, prios: map<int, int>, i: int)
    requires 1 <= i < |Tools.BatchLines(tick, prios)|
    ensures Tools.BatchLines(tick, prios)[i] == Tools.RowLine(BatchRows(tick, prios)[i - 1])
  {
    var ds := BatchRows(tick, prios);
    var lines := Tools.BatchLines(tick, prios);
    assert lines[1..][i - 1] == Tools.RowLine(ds[i - 1]);
  }

  lemma SimLineAt(tick: int, prios: map<int, int>, i: int)
    requires 1 <= i < |Sim.BatchLines(tick, prios)|
    ensures Sim.BatchLines(tick, prios)[i] == Sim.RowLine(BatchRows(tick, prios)[i - 1], tick + 1)
  {
    var ds := BatchRows(tick, prios);
    var lines := Sim.BatchLines(tick, prios);
    assert lines[1..][i - 1] == Sim.RowLine(ds[i - 1], tick + 1);
  }

  lemma SimRowExtendsToolsRow(d: Directive, validUntil: int)
    ensures Sim.RowLine(d, validUntil) == Tools.RowLine(d) + "," + IntToString(validUntil)
  {
    var x, y, z, w := IntToString(d.tick), IntToString(d.taskId), IntToString(d.newPrio), IntToString(validUntil);
    JoinThree(x, y, z);
    JoinFour(x, y, z, w);
    assert x + "," + y + "," + z + ("," + w) == (x + "," + y + "," + z + "") + "," + w;
  }

  lemma ScanLinesEach(lines: seq<string>, ds: seq<Directive>)
    requires |lines| == |ds|
    requires forall i :: 0 <= i < |lines| ==> ScanDirective(lines[i]) == Some(ds[i])
    ensures ScanLines(lines) == ds
  {
    KeptAllScanned(Scans(lines), ds);
  }

  /** The scheduler reads a tools-fork batch back as the batch's rows, in order. */
  lemma ToolsBatchReadBack(tick: int, prios: map<int, int>)
    ensures Directives(Some(Tools.BatchLines(tick, prios))) == BatchRows(tick, prios)
  {
    var lines := Tools.BatchLines(tick, prios);
    var ds := BatchRows(tick, prios);
    forall i | 0 <= i < |ds|
      ensures ScanDirective(lines[1..][i]) == Some(ds[i])
    {
      ToolsRowReadBack(ds[i]);
    }
    ScanLinesEach(lines[1..], ds);
  }

  /** The scheduler reads a sim-fork batch back as the batch's rows, in order. */
  lemma SimBatchReadBack(tick: int, prios: map<int, int>)
    ensures Directives(Some(Sim.BatchLines(tick, prios))) == BatchRows(tick, prios)
  {
    var lines := Sim.BatchLines(tick, prios);
    var ds := BatchRows(tick, prios);
    forall i | 0 <= i < |ds|
      ensures ScanDirective(lines[1..][i]) == Some(ds[i])
    {
      SimRowReadBack(ds[i], tick + 1);
    }
    ScanLinesEach(lines[1..], ds);
  }

  // ---------- What an applied batch does ----------

  /**
   * A batch for one tick changes nothing at any other tick: in particular
   * the sim fork's batch is not applied at its valid_until tick.
   */
  lemma BatchIgnoredAtOtherTicks(tasks: seq<RtosTask>, tick: int, prios: map<int, int>, now: int, lastApplied: int)
    requires now != tick
    ensures ApplyDirectives(tasks, Directives(Some(Tools.BatchLines(tick, prios))), now, lastApplied) == (tasks, false)
    ensures ApplyDirectives(tasks, Directives(Some(Sim.BatchLines(tick, prios))), now, lastApplied) == (tasks, false)
  {
    ToolsBatchReadBack(tick, prios);
    SimBatchReadBack(tick, prios);
    OtherTicksIgnored(tasks, BatchRows(tick, prios), now, lastApplied);
  }

  /**
   * Applied at its own tick, before that tick was applied, a batch gives
   * each task the batch's priority for its id, and leaves the tasks it does
   * not list alone. (Of tasks sharing an id only the first is changed.)
   */
  lemma BatchSetsListedTasks(tasks: seq<RtosTask>, tick: int, prios: map<int, int>, lastApplied: int, i: int)
    requires lastApplied < tick && 0 <= i < |tasks| && FirstWithId(tasks, tasks[i].id) == i
    ensures var r := ApplyDirectives(tasks, BatchRows(tick, prios), tick, lastApplied).0;
            if tasks[i].id in prios then r[i].priority == prios[tasks[i].id] else r[i] == tasks[i]
  {
    if tasks[i].id in prios {
      BatchSetsListedTask(tasks, tick, prios, lastApplied, i);
    } else {
      BatchLeavesUnlistedTask(tasks, tick, prios, lastApplied, i);
    }
  }

  /** A listed task has exactly one row in the batch. */
  lemma OnlyRowFor(tick: int, prios: map<int, int>, id: int) returns (n: int)
    requires id in prios
    ensures var ds := BatchRows(tick, prios);
            0 <= n < |ds| && ds[n].taskId == id && forall m :: n < m < |ds| ==> ds[m].taskId != id
  {
    var ds := BatchRows(tick, prios);
    BatchRowsOrderedAndComplete(tick, prios);
    n :| 0 <= n < |ds| && ds[n].taskId == id;
  }

  lemma NamingRowWins(tasks: seq<RtosTask>, ds: seq<Directive>, tick: int, lastApplied: int, i: int, n: int)
    requires 0 <= i < |tasks| && 0 <= n < |ds| && Eligible(ds[n], tick, lastApplied) && FirstWithId(tasks, ds[n].taskId) == i
    requires forall m :: n < m < |ds| && Eligible(ds[m], tick, lastApplied) ==> FirstWithId(tasks, ds[m].taskId) != i
    ensures ApplyDirectives(tasks, ds, tick, lastApplied).0[i].priority == ds[n].newPrio
  {
    LastNamingRowWins(tasks, ds, tick, lastApplied, i);
  }

  lemma BatchSetsListedTask(tasks: seq<RtosTask>, tick: int, prios: map<int, int>, lastApplied: int, i: int)
    requires lastApplied < tick && 0 <= i < |tasks| && FirstWithId(tasks, tasks[i].id) == i
    requires tasks[i].id in prios
    ensures ApplyDirectives(tasks, BatchRows(tick, prios), tick, lastApplied).0[i].priority == prios[tasks[i].id]
  {
    var ds := BatchRows(tick, prios);
    var id := tasks[i].id;
    var n := OnlyRowFor(tick, prios, id);
    forall m | n < m < |ds| && Eligible(ds[m], tick, lastApplied)
      ensures FirstWithId(tasks, ds[m].taskId) != i
    {
      assert ds[m].taskId != id;
    }
    NamingRowWins(tasks, ds, tick, lastApplied, i, n);
  }

  lemma BatchLeavesUnlistedTask(tasks: seq<RtosTask>, tick: int, prios: map<int, int>, lastApplied: int, i: int)
    requires 0 <= i < |tasks| && FirstWithId(tasks, tasks[i].id) == i
    requires tasks[i].id !in prios
    ensures ApplyDirectives(tasks, BatchRows(tick, prios), tick, lastApplied).0[i] == tasks[i]
  {
    var ds := BatchRows(tick, prios);
    LastNamingRowWins(tasks, ds, tick, lastApplied, i);
    forall n | 0 <= n < |ds| && Eligible(ds[n], tick, lastApplied)
      ensures FirstWithId(tasks, ds[n].taskId) != i
    {
      assert ds[n].taskId in prios;
    }
  }

  // ---------- Metrics lines read by the adjusters ----------

  /** The tools fork computes, for a logged line, the heuristic of the task's own logged figures. */
  lemma ToolsReadsLoggedLine(m: MetricsRow)
    ensures Tools.TaskIdOf(Record(m)) == m.taskId
    ensures Tools.RowPriority(Record(m)) == Tools.NewPriority(m.currentPriority, m.waitingTime, m.remainingTime)
  {
    var r := Record(m);
    RecordTaskId(m);
    RecordCurrentPriority(m);
    RecordWaitingTime(m);
    RecordRemainingTime(m);
  }

  /** The tools fork takes a logged line's tick as its own exactly when it is not negative. */
  lemma ToolsReadsLoggedTick(m: MetricsRow)
    ensures !Tools.TickUnreadable(Record(m))
    ensures Tools.HasDigitTick(Record(m)) <==> m.tick >= 0
    ensures m.tick >= 0 ==> Tools.DigitTick(Record(m)) == m.tick
  {
    var r := Record(m);
    assert Tools.TickText(r) == Some(IntToString(m.tick));
    if m.tick >= 0 {
      NatToDigitsValue(m.tick);
    } else {
      assert IntToString(m.tick)[0] == '-';
    }
  }

  /** The sim fork reads a logged line's tick as logged. */
  lemma SimReadsLoggedTick(m: MetricsRow)
    ensures Sim.TickReadable(Record(m)) && Sim.TickOf(Record(m)) == m.tick
  {
    IntColumn(Record(m), "tick", m.tick);
  }

  lemma SimFieldsOfColumns(r: Row, id: int, cur: int, rem: int, w: int)
    requires IntField(r, "task_id") == Some(id) && IntField(r, "current_priority") == Some(cur)
    requires IntField(r, "remaining_time") == Some(rem) && IntField(r, "waiting_time") == Some(w)
    ensures Sim.Fields(r) == Some(Sim.TaskFields(id, cur, rem, w))
  {
  }

  /** The sim fork reads a logged line's task figures as logged. */
  lemma SimReadsLoggedFields(m: MetricsRow)
    ensures Sim.Fields(Record(m)) == Some(Sim.TaskFields(m.taskId, m.currentPriority, m.remainingTime, m.waitingTime))
  {
    RecordTaskId(m);
    RecordCurrentPriority(m);
    RecordRemainingTime(m);
    RecordWaitingTime(m);
    SimFieldsOfColumns(Record(m), m.taskId, m.currentPriority, m.remainingTime, m.waitingTime);
  }

  /** The sim fork takes the CPU usage and queue length of a snapshot from its first line, as logged. */
  lemma SimReadsLoggedCpu(m: MetricsRow, rest: seq<Row>)
    ensures Sim.CpuAggregate([Record(m)] + rest) == Ok((m.cpuUsage as real, m.queueLen))
  {
    IntColumn(Record(m), "queue_len", m.queueLen);
    RecordCpuField(m);
  }
}
