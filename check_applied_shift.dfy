/**
 * The audit of tools/check_applied_shift.py: the same directive map, but a
 * metrics row at tick t is compared with the directive published for tick
 * t - 1. This is the same-tick audit of metrics whose ticks are all one
 * less.
 */
module CheckAppliedShift {
  import opened Wrappers
  import opened Numerals
  import opened Csv
  import opened CheckApplied

  /** The lag between the metrics tick and the directive tick it is compared with. */
  const LAG := 1

  /** check_applied_shift.py: each metrics row against the directive of the tick before. */
  method CheckAppliedShifted(m: seq<Row>, p: seq<Row>) returns (found: Result<seq<Mismatch>>, errors: int)
    ensures found == Report(m, p, LAG)
    ensures found.Ok? ==> errors == |found.value| && errors <= |m|
  {
    var pp := DirectiveMap(p);
    if pp.Err? {
      return Err, 0;
    }
    found, errors := CountMismatches(m, pp.value, LAG);
  }

  // ---------- The shifted audit is the same-tick audit one tick back ----------

  /** A converted metrics row with its tick one less. */
  function EarlierEntry(e: Option<MetricsEntryValue>): Option<MetricsEntryValue> {
    if e.None? then None else Some((e.value.0 - 1, e.value.1, e.value.2))
  }

  function EarlierEntries(es: seq<Option<MetricsEntryValue>>): (r: seq<Option<MetricsEntryValue>>)
    ensures |r| == |es|
  {
    seq(|es|, i requires 0 <= i < |es| => EarlierEntry(es[i]))
  }

  /** The mismatches with their ticks one less. */
  function Backdated(r: Result<seq<Mismatch>>): Result<seq<Mismatch>> {
    if r.Err? then Err
    else Ok(seq(|r.value|, i requires 0 <= i < |r.value| => r.value[i].(tick := r.value[i].tick - 1)))
  }

  lemma BackdatedSnoc(ms: seq<Mismatch>, x: Mismatch)
    ensures Backdated(Ok(ms + [x])) == Ok(Backdated(Ok(ms)).value + [x.(tick := x.tick - 1)])
  {
    assert Backdated(Ok(ms + [x])).value == Backdated(Ok(ms)).value + [x.(tick := x.tick - 1)];
  }

  /** On converted rows: the lag-one audit reports what the same-tick audit reports on the rows one tick back. */
  lemma {:induction false} ShiftedIsSameTickOneBack(es: seq<Option<MetricsEntryValue>>, pp: map<DirectiveKey, int>)
    ensures AuditOf(EarlierEntries(es), pp, 0) == Backdated(AuditOf(es, pp, LAG))
    decreases |es|
  {
    if es != [] {
      var n := |es| - 1;
      var front := es[..n];
      ShiftedIsSameTickOneBack(front, pp);
      assert EarlierEntries(es)[..n] == EarlierEntries(front);
      assert EarlierEntries(es)[n] == EarlierEntry(es[n]);
      var a := AuditOf(front, pp, LAG);
      if a.Ok? && es[n].Some? {
        var (t, tid, cur) := es[n].value;
        if (t - LAG, tid) in pp && pp[(t - LAG, tid)] != cur {
          var x := Mismatch(t, tid, cur, pp[(t - LAG, tid)]);
          assert AuditOf(es, pp, LAG) == Ok(a.value + [x]);
          BackdatedSnoc(a.value, x);
        } else {
          assert AuditOf(es, pp, LAG) == a;
        }
      }
    } else {
      assert EarlierEntries(es) == [];
      assert Backdated(Ok([])).value == [];
    }
  }

  /** A metrics row with its tick field rewritten one tick back; rows whose tick does not convert stay. */
  function EarlierRow(r: Row): Row {
    var t := IntField(r, "tick");
    if t.None? then r else r["tick" := Some(IntToString(t.value - 1))]
  }

  /** Rewriting one column leaves the conversion of every other column as it was. */
  lemma IntFieldOtherKey(r: Row, k: string, v: Option<string>, key: string)
    requires key != k
    ensures IntField(r[k := v], key) == IntField(r, key)
  {
    assert (key in r[k := v]) == (key in r);
    if key in r {
      assert r[k := v][key] == r[key];
    }
  }

  /** Rewriting the tick changes the converted row only in its tick. */
  lemma EarlierRowEntry(r: Row)
    ensures MetricsEntry(EarlierRow(r)) == EarlierEntry(MetricsEntry(r))
  {
    var t := IntField(r, "tick");
    if t.Some? {
      var v := Some(IntToString(t.value - 1));
      PyIntOfIntToString(t.value - 1);
      assert IntField(r["tick" := v], "tick") == Some(t.value - 1);
      IntFieldOtherKey(r, "tick", v, "task_id");
      IntFieldOtherKey(r, "tick", v, "current_priority");
      assert ("current_priority" in r["tick" := v]) == ("current_priority" in r);
    }
  }

  function EarlierRows(m: seq<Row>): (r: seq<Row>)
    ensures |r| == |m|
  {
    seq(|m|, i requires 0 <= i < |m| => EarlierRow(m[i]))
  }

  /**
   * The mismatches of check_applied_shift.py are those of check_applied.py
   * on the metrics with every tick one less, each mismatch reported
   * with its tick one less: in particular both fail together and count
   * the same number.
   */
  lemma ShiftedCountIsSameTickCountOneBack(m: seq<Row>, pp: map<DirectiveKey, int>)
    ensures Audit(EarlierRows(m), pp, 0) == Backdated(Audit(m, pp, LAG))
    ensures Audit(EarlierRows(m), pp, 0).Err? <==> Audit(m, pp, LAG).Err?
    ensures Audit(m, pp, LAG).Ok? ==> |Audit(EarlierRows(m), pp, 0).value| == |Audit(m, pp, LAG).value|
  {
    var es := MetricsEntries(m);
    forall i | 0 <= i < |m|
      ensures MetricsEntries(EarlierRows(m))[i] == EarlierEntries(es)[i]
    {
      EarlierRowEntry(m[i]);
    }
    assert MetricsEntries(EarlierRows(m)) == EarlierEntries(es);
    ShiftedIsSameTickOneBack(es, pp);
  }
}
