/**
 * The audit of tools/check_applied.py: the published directives are
 * gathered into a map keyed by (tick, task_id), and every metrics row
 * whose key has a directive and whose current_priority differs from it is
 * reported as a mismatch. The lag parameter is the distance between the
 * metrics tick and the directive tick looked up: 0 here, 1 in the shifted
 * audit.
 */
module CheckApplied {
  import opened Wrappers
  import opened Csv

  /** current_priority when the metrics have no such column. */
  const DEFAULT_PRIORITY := 5

  // ---------- The directive map ----------

  /** (int(r["tick"]), int(r["task_id"])) and int(r["new_priority"]) of one directive row. */
  function DirectiveEntry(r: Row): Option<((int, int), int)> {
    var tick := IntField(r, "tick");
    var id := IntField(r, "task_id");
    var prio := IntField(r, "new_priority");
    if tick.None? || id.None? || prio.None? then None
    else Some(((tick.value, id.value), prio.value))
  }

  type DirectiveKey = (int, int)

  /** The converted directive rows, None for a row whose conversion raises. */
  function DirectiveEntries(p: seq<Row>): (es: seq<Option<(DirectiveKey, int)>>)
    ensures |es| == |p| && forall i :: 0 <= i < |p| ==> es[i] == DirectiveEntry(p[i])
  {
    seq(|p|, i requires 0 <= i < |p| => DirectiveEntry(p[i]))
  }

  /** The dict comprehension over converted rows: a later row overwrites an earlier one with its key. */
  function DirectiveMapOf(es: seq<Option<(DirectiveKey, int)>>): Result<map<DirectiveKey, int>>
    decreases |es|
  {
    if es == [] then Ok(map[])
    else
      var front := DirectiveMapOf(es[..|es| - 1]);
      var e := es[|es| - 1];
      if front.Err? || e.None? then Err
      else Ok(front.value[e.value.0 := e.value.1])
  }

  /** pp of check_applied.py, Err where int() raises on some directive row. */
  function DirectiveMap(p: seq<Row>): Result<map<DirectiveKey, int>> {
    DirectiveMapOf(DirectiveEntries(p))
  }

  /** Building the map fails exactly when some directive row does not convert. */
  lemma {:induction false} DirectiveMapOkIff(es: seq<Option<(DirectiveKey, int)>>)
    ensures DirectiveMapOf(es).Ok? <==> forall i :: 0 <= i < |es| ==> es[i].Some?
    decreases |es|
  {
    if es != [] {
      var front := es[..|es| - 1];
      DirectiveMapOkIff(front);
      if DirectiveMapOf(es).Ok? {
        forall i | 0 <= i < |es|
          ensures es[i].Some?
        {
          if i < |front| {
            assert front[i] == es[i];
          }
        }
      } else if DirectiveMapOf(front).Err? {
        var i :| 0 <= i < |front| && front[i].None?;
        assert es[i] == front[i];
      }
    }
  }

  /** The keys of the map are exactly the keys of the rows. */
  lemma {:induction false} DirectiveMapKeys(es: seq<Option<(DirectiveKey, int)>>, key: DirectiveKey)
    requires DirectiveMapOf(es).Ok?
    ensures key in DirectiveMapOf(es).value <==> exists i :: 0 <= i < |es| && es[i].Some? && es[i].value.0 == key
    decreases |es|
  {
    if es != [] {
      var front := es[..|es| - 1];
      DirectiveMapKeys(front, key);
      if exists i :: 0 <= i < |front| && front[i].Some? && front[i].value.0 == key {
        var i :| 0 <= i < |front| && front[i].Some? && front[i].value.0 == key;
        assert es[i] == front[i];
      }
      if exists i :: 0 <= i < |es| && es[i].Some? && es[i].value.0 == key {
        var i :| 0 <= i < |es| && es[i].Some? && es[i].value.0 == key;
        if i < |front| {
          assert front[i] == es[i];
        }
      }
    }
  }

  /** Row i converts and no later row has its key. */
  predicate LastWithItsKey(es: seq<Option<(DirectiveKey, int)>>, i: int)
    requires 0 <= i < |es|
  {
    es[i].Some? && forall j :: i < j < |es| ==> es[j].Some? ==> es[j].value.0 != es[i].value.0
  }

  /** The map holds, for each key, the priority of the last row with that key. */
  lemma {:induction false} DirectiveMapLastWins(es: seq<Option<(DirectiveKey, int)>>, i: int)
    requires DirectiveMapOf(es).Ok?
    requires 0 <= i < |es| && LastWithItsKey(es, i)
    ensures es[i].value.0 in DirectiveMapOf(es).value && DirectiveMapOf(es).value[es[i].value.0] == es[i].value.1
    decreases |es|
  {
    var front := es[..|es| - 1];
    if i < |es| - 1 {
      assert front[i] == es[i];
      forall j | i < j < |front|
        ensures front[j].Some? ==> front[j].value.0 != front[i].value.0
      {
        assert front[j] == es[j];
      }
      assert LastWithItsKey(front, i);
      DirectiveMapLastWins(front, i);
    }
  }

  // ---------- The metrics pass ----------

  /** int(r.get("current_priority", 5)): the default is used only when the column is absent. */
  function CurrentPriority(r: Row): (cur: Option<int>)
    ensures "current_priority" !in r ==> cur == Some(DEFAULT_PRIORITY)
    ensures "current_priority" in r ==> cur == IntField(r, "current_priority")
  {
    if "current_priority" !in r then Some(DEFAULT_PRIORITY) else IntField(r, "current_priority")
  }

  /** The tick, task id and current priority of one metrics row, None where a conversion raises. */
  function MetricsEntry(r: Row): Option<(int, int, int)> {
    var tick := IntField(r, "tick");
    var id := IntField(r, "task_id");
    var cur := CurrentPriority(r);
    if tick.None? || id.None? || cur.None? then None
    else Some((tick.value, id.value, cur.value))
  }

  /** Metrics without a current_priority column are audited as if every task had priority 5. */
  lemma MissingColumnIsDefault(r: Row, t: int, id: int)
    requires "current_priority" !in r
    requires IntField(r, "tick") == Some(t) && IntField(r, "task_id") == Some(id)
    ensures MetricsEntry(r) == Some((t, id, DEFAULT_PRIORITY))
  {
  }

  /** A short line, whose current_priority is None, is not defaulted: int(None) raises. */
  lemma ShortLineRaises(r: Row)
    requires "current_priority" in r && r["current_priority"].None?
    ensures MetricsEntry(r).None?
  {
  }

  /** One reported line: the metrics tick, the task, its priority and the directive's. */
  datatype Mismatch = Mismatch(tick: int, taskId: int, current: int, want: int)

  type MetricsEntryValue = (int, int, int)

  /** The converted metrics rows, None for a row whose conversion raises. */
  function MetricsEntries(m: seq<Row>): (es: seq<Option<MetricsEntryValue>>)
    ensures |es| == |m| && forall i :: 0 <= i < |m| ==> es[i] == MetricsEntry(m[i])
  {
    seq(|m|, i requires 0 <= i < |m| => MetricsEntry(m[i]))
  }

  /** Entry e is reported as x: a directive exists for its key, lag ticks back, and differs. */
  predicate Reports(e: Option<MetricsEntryValue>, pp: map<DirectiveKey, int>, lag: int, x: Mismatch) {
    e == Some((x.tick, x.taskId, x.current))
    && (x.tick - lag, x.taskId) in pp
    && pp[(x.tick - lag, x.taskId)] == x.want
    && x.want != x.current
  }

  /** The loop over converted metrics rows: the mismatches in row order, Err where a conversion raised. */
  function AuditOf(es: seq<Option<MetricsEntryValue>>, pp: map<DirectiveKey, int>, lag: int): (r: Result<seq<Mismatch>>)
    ensures r.Ok? ==> |r.value| <= |es|
    decreases |es|
  {
    if es == [] then Ok([])
    else
      var front := AuditOf(es[..|es| - 1], pp, lag);
      var e := es[|es| - 1];
      if front.Err? || e.None? then Err
      else
        var (t, tid, cur) := e.value;
        var key := (t - lag, tid);
        if key in pp && pp[key] != cur then Ok(front.value + [Mismatch(t, tid, cur, pp[key])])
        else front
  }

  /** One converted row: Err if it did not convert, else its mismatch when it reports one. */
  lemma AuditOfSingle(e: Option<MetricsEntryValue>, pp: map<DirectiveKey, int>, lag: int)
    ensures AuditOf([e], pp, lag) ==
              if e.None? then Err
              else
                var key := (e.value.0 - lag, e.value.1);
                if key in pp && pp[key] != e.value.2 then Ok([Mismatch(e.value.0, e.value.1, e.value.2, pp[key])])
                else Ok([])
  {
    assert [e][..0] == [];
    assert AuditOf([], pp, lag) == Ok([]);
    if e.Some? {
      var (t, tid, cur) := e.value;
      var key := (t - lag, tid);
      if key in pp && pp[key] != cur {
        assert [] + [Mismatch(t, tid, cur, pp[key])] == [Mismatch(t, tid, cur, pp[key])];
      }
    }
  }

  /**
   * The audit distributes over concatenation: the mismatches of a file are
   * those of its first part followed by those of the rest, one per
   * reporting row, in row order.
   */
  lemma {:induction false} AuditOfAppend(a: seq<Option<MetricsEntryValue>>, b: seq<Option<MetricsEntryValue>>,
                                        pp: map<DirectiveKey, int>, lag: int)
    ensures AuditOf(a + b, pp, lag) ==
              if AuditOf(a, pp, lag).Ok? && AuditOf(b, pp, lag).Ok?
              then Ok(AuditOf(a, pp, lag).value + AuditOf(b, pp, lag).value)
              else Err
    decreases |b|
  {
    if b == [] {
      assert a + b == a;
      assert AuditOf(b, pp, lag) == Ok([]);
      if AuditOf(a, pp, lag).Ok? {
        assert AuditOf(a, pp, lag).value + [] == AuditOf(a, pp, lag).value;
      }
    } else {
      var b' := b[..|b| - 1];
      assert (a + b)[..|a + b| - 1] == a + b';
      assert (a + b)[|a + b| - 1] == b[|b| - 1];
      AuditOfAppend(a, b', pp, lag);
      var front := AuditOf(a + b', pp, lag);
      var e := b[|b| - 1];
      if front.Ok? && e.Some? {
        var (t, tid, cur) := e.value;
        var key := (t - lag, tid);
        if key in pp && pp[key] != cur {
          var m := Mismatch(t, tid, cur, pp[key]);
          assert AuditOf(a, pp, lag).value + AuditOf(b', pp, lag).value + [m]
              == AuditOf(a, pp, lag).value + (AuditOf(b', pp, lag).value + [m]);
        }
      }
    }
  }

  /** The for loop over the metrics rows. */
  function Audit(m: seq<Row>, pp: map<DirectiveKey, int>, lag: int): Result<seq<Mismatch>> {
    AuditOf(MetricsEntries(m), pp, lag)
  }

  /** The audit fails exactly when some metrics row does not convert. */
  lemma {:induction false} AuditOkIff(es: seq<Option<MetricsEntryValue>>, pp: map<DirectiveKey, int>, lag: int)
    ensures AuditOf(es, pp, lag).Ok? <==> forall i :: 0 <= i < |es| ==> es[i].Some?
    decreases |es|
  {
    if es != [] {
      var front := es[..|es| - 1];
      AuditOkIff(front, pp, lag);
      if AuditOf(es, pp, lag).Ok? {
        forall i | 0 <= i < |es|
          ensures es[i].Some?
        {
          if i < |front| {
            assert front[i] == es[i];
          }
        }
      } else if AuditOf(front, pp, lag).Err? {
        var i :| 0 <= i < |front| && front[i].None?;
        assert es[i] == front[i];
      }
    }
  }

  /** A mismatch is reported exactly when some row has a differing directive for its key. */
  lemma {:induction false} AuditReportsIff(es: seq<Option<MetricsEntryValue>>, pp: map<DirectiveKey, int>, lag: int, x: Mismatch)
    requires AuditOf(es, pp, lag).Ok?
    ensures x in AuditOf(es, pp, lag).value <==> exists i :: 0 <= i < |es| && Reports(es[i], pp, lag, x)
    decreases |es|
  {
    if es != [] {
      var front := es[..|es| - 1];
      AuditReportsIff(front, pp, lag, x);
      var (t, tid, cur) := es[|es| - 1].value;
      if (t - lag, tid) in pp && pp[(t - lag, tid)] != cur {
        var y := Mismatch(t, tid, cur, pp[(t - lag, tid)]);
        assert AuditOf(es, pp, lag).value == AuditOf(front, pp, lag).value + [y];
        assert Reports(es[|es| - 1], pp, lag, x) <==> x == y;
      } else {
        assert AuditOf(es, pp, lag) == AuditOf(front, pp, lag);
        assert !Reports(es[|es| - 1], pp, lag, x);
      }
      if exists i :: 0 <= i < |front| && Reports(front[i], pp, lag, x) {
        var i :| 0 <= i < |front| && Reports(front[i], pp, lag, x);
        assert es[i] == front[i];
      }
      if exists i :: 0 <= i < |es| && Reports(es[i], pp, lag, x) {
        var i :| 0 <= i < |es| && Reports(es[i], pp, lag, x);
        if i < |front| {
          assert front[i] == es[i];
        }
      }
    }
  }

  /** What the script reports for metrics rows m and directive rows p. */
  function Report(m: seq<Row>, p: seq<Row>, lag: int): Result<seq<Mismatch>> {
    match DirectiveMap(p)
    case Err => Err
    case Ok(pp) => Audit(m, pp, lag)
  }

  /** The for loop of check_applied.py with its errors counter. */
  method CountMismatches(m: seq<Row>, pp: map<DirectiveKey, int>, lag: int) returns (found: Result<seq<Mismatch>>, errors: int)
    ensures found == Audit(m, pp, lag)
    ensures found.Ok? ==> errors == |found.value| && errors <= |m|
  {
    ghost var es := MetricsEntries(m);
    var reported: seq<Mismatch> := [];
    errors := 0;
    var i := 0;
    while i < |m|
      invariant 0 <= i <= |m|
      invariant AuditOf(es[..i], pp, lag) == Ok(reported) && errors == |reported|
    {
      var e := MetricsEntry(m[i]);
      AuditOfSnoc(es, i, pp, lag);
      if e.None? {
        AuditErrStaysErr(es, i + 1, pp, lag);
        return Err, errors;
      }
      var (t, tid, cur) := e.value;
      var key := (t - lag, tid);
      if key in pp && pp[key] != cur {
        reported := reported + [Mismatch(t, tid, cur, pp[key])];
        errors := errors + 1;
      }
      i := i + 1;
    }
    assert es[..i] == es;
    found := Ok(reported);
  }

  /** One more row of the loop. */
  lemma AuditOfSnoc(es: seq<Option<MetricsEntryValue>>, n: int, pp: map<DirectiveKey, int>, lag: int)
    requires 0 <= n < |es|
    ensures AuditOf(es[..n + 1], pp, lag) ==
              var front := AuditOf(es[..n], pp, lag);
              if front.Err? || es[n].None? then Err
              else
                var (t, tid, cur) := es[n].value;
                if (t - lag, tid) in pp && pp[(t - lag, tid)] != cur
                then Ok(front.value + [Mismatch(t, tid, cur, pp[(t - lag, tid)])])
                else front
  {
    assert es[..n + 1][..n] == es[..n];
  }

  /** Once a prefix of the metrics fails, so does every longer one. */
  lemma {:induction false} AuditErrStaysErr(es: seq<Option<MetricsEntryValue>>, n: int, pp: map<DirectiveKey, int>, lag: int)
    requires 0 <= n <= |es| && AuditOf(es[..n], pp, lag).Err?
    ensures AuditOf(es, pp, lag).Err?
    decreases |es| - n
  {
    if n < |es| {
      assert es[..n + 1][..n] == es[..n];
      AuditErrStaysErr(es, n + 1, pp, lag);
    } else {
      assert es[..n] == es;
    }
  }

  /** check_applied.py: the same-tick audit. */
  method CheckApplied(m: seq<Row>, p: seq<Row>) returns (found: Result<seq<Mismatch>>, errors: int)
    ensures found == Report(m, p, 0)
    ensures found.Ok? ==> errors == |found.value|
  {
    var pp := DirectiveMap(p);
    if pp.Err? {
      return Err, 0;
    }
    found, errors := CountMismatches(m, pp.value, 0);
  }
}
