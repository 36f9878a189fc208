/**
 * The scheduler's side of new_priorities.csv: each line after the header is
 * read with sscanf(line, "%d,%d,%d", ...), and the rows of the current tick
 * rewrite the priority of the first task with the named id.
 */
module DirectiveFile {
  import opened Wrappers
  import opened Numerals
  import opened Rtos
  import opened ReadyQueue

  /** One (tick, task_id, new_priority) row that sscanf read in full. */
  datatype Directive = Directive(tick: int, taskId: int, newPrio: int)

  /** Leading digits: their value and the text after them. */
  function ScanDigits(u: string): Option<(nat, string)> {
    var k := DigitPrefixLen(u);
    if k == 0 then None else Some((DigitsValue(u[..k]), u[k..]))
  }

  /** A "%d" conversion: skip blanks, an optional sign, at least one digit; the value and the text after it. */
  function ScanInt(s: string): Option<(int, string)> {
    ScanSigned(TrimStart(s))
  }

  /** An optional sign and then digits, at the very start of t. */
  function ScanSigned(t: string): Option<(int, string)> {
    if |t| > 0 && t[0] == '-' then
      var digits := ScanDigits(t[1..]);
      if digits.None? then None else Some((-(digits.value.0 as int), digits.value.1))
    else
      var digits := ScanDigits(if |t| > 0 && t[0] == '+' then t[1..] else t);
      if digits.None? then None else Some((digits.value.0 as int, digits.value.1))
  }

  /** sscanf(line, "%d,%d,%d", ...) == 3: three conversions separated by literal commas. */
  function ScanDirective(line: string): (r: Option<Directive>)
    ensures ScanInt(line).None? ==> r.None?
    ensures r.Some? ==>
              var (tick, rest) := ScanInt(line).value;
              r.value.tick == tick && rest != [] && rest[0] == ',' && ScanInt(rest[1..]).Some?
              && r.value.taskId == ScanInt(rest[1..]).value.0
  {
    match ScanInt(line)
    case None => None
    case Some((tick, r1)) =>
      if r1 == [] || r1[0] != ',' then None
      else match ScanInt(r1[1..])
        case None => None
        case Some((taskId, r2)) =>
          if r2 == [] || r2[0] != ',' then None
          else match ScanInt(r2[1..])
            case None => None
            case Some((newPrio, _)) => Some(Directive(tick, taskId, newPrio))
  }

  lemma ScanDigitsOf(d: string, rest: string)
    requires |d| > 0 && AllDigits(d)
    requires rest == [] || !IsDigit(rest[0])
    ensures ScanDigits(d + rest) == Some((DigitsValue(d), rest))
  {
    DigitPrefixLenOfDigits(d, rest);
    assert (d + rest)[..|d|] == d;
    assert (d + rest)[|d|..] == rest;
  }

  lemma ScanIntOfDigits(d: string, rest: string)
    requires |d| > 0 && AllDigits(d)
    requires rest == [] || !IsDigit(rest[0])
    ensures ScanInt(d + rest) == Some((DigitsValue(d) as int, rest))
  {
    var s := d + rest;
    assert IsDigit(s[0]);
    assert TrimStart(s) == s;
    ScanDigitsOf(d, rest);
  }

  lemma ScanIntNegative(u: string, v: nat, rest: string)
    requires ScanDigits(u) == Some((v, rest))
    ensures ScanInt("-" + u) == Some((-(v as int), rest))
  {
    var s := "-" + u;
    assert s[0] == '-';
    assert TrimStart(s) == s;
    assert s[1..] == u;
  }

  lemma ScanIntOfNatToDigits(m: nat, rest: string)
    requires rest == [] || !IsDigit(rest[0])
    ensures ScanInt(NatToDigits(m) + rest) == Some((m, rest))
  {
    NatToDigitsValue(m);
    ScanIntOfDigits(NatToDigits(m), rest);
  }

  lemma ScanIntOfNegative(m: nat, rest: string)
    requires rest == [] || !IsDigit(rest[0])
    ensures ScanInt("-" + NatToDigits(m) + rest) == Some((-(m as int), rest))
  {
    var d := NatToDigits(m);
    NatToDigitsValue(m);
    ScanDigitsOf(d, rest);
    ScanIntNegative(d + rest, m, rest);
    assert "-" + d + rest == "-" + (d + rest);
  }

  /** The integer a writer put before rest is read back by "%d", rest untouched. */
  lemma ScanIntOfIntToString(n: int, rest: string)
    requires rest == [] || !IsDigit(rest[0])
    ensures ScanInt(IntToString(n) + rest) == Some((n, rest))
  {
    if n < 0 {
      ScanIntOfNegative(-n, rest);
    } else {
      ScanIntOfNatToDigits(n, rest);
    }
  }

  /**
   * A line "a,b,c" as a writer formats it, possibly followed by more text
   * that does not continue the last number, scans back to Directive(a, b, c).
   */
  lemma ScanDirectiveOfScans(line: string, a: int, r1: string, b: int, r2: string, c: int, r3: string)
    requires ScanInt(line) == Some((a, r1))
    requires |r1| > 0 && r1[0] == ',' && ScanInt(r1[1..]) == Some((b, r2))
    requires |r2| > 0 && r2[0] == ',' && ScanInt(r2[1..]) == Some((c, r3))
    ensures ScanDirective(line) == Some(Directive(a, b, c))
  {
  }

  lemma ScanDirectiveOfLine(a: int, b: int, c: int, suffix: string)
    requires suffix == [] || !IsDigit(suffix[0])
    ensures ScanDirective(IntToString(a) + "," + IntToString(b) + "," + IntToString(c) + suffix) == Some(Directive(a, b, c))
  {
    var sa, sb, sc := IntToString(a), IntToString(b), IntToString(c);
    var r2 := "," + (sc + suffix);
    var r1 := "," + (sb + r2);
    ScanIntOfIntToString(a, r1);
    assert r1[1..] == sb + r2;
    ScanIntOfIntToString(b, r2);
    assert r2[1..] == sc + suffix;
    ScanIntOfIntToString(c, suffix);
    ScanDirectiveOfScans(sa + r1, a, r1, b, r2, c, suffix);
    CommaJoinAssoc(sa, sb, sc, suffix);
  }

  lemma CommaJoinAssoc(x: string, y: string, z: string, w: string)
    ensures x + "," + y + "," + z + w == x + ("," + (y + ("," + (z + w))))
  {
  }

  /** What sscanf makes of each line. */
  function Scans(lines: seq<string>): (r: seq<Option<Directive>>)
    ensures |r| == |lines|
  {
    seq(|lines|, i requires 0 <= i < |lines| => ScanDirective(lines[i]))
  }

  /** The row a scanned line contributes: none when it did not scan. */
  function RowOf(scan: Option<Directive>): seq<Directive> {
    match scan case Some(d) => [d] case None => []
  }

  /** The rows of the lines that scanned, in order. */
  function Kept(scans: seq<Option<Directive>>): seq<Directive>
    decreases |scans|
  {
    if scans == [] then [] else Kept(scans[..|scans| - 1]) + RowOf(scans[|scans| - 1])
  }

  /** The lines after the header that scan as directives, in file order. */
  function ScanLines(lines: seq<string>): seq<Directive> {
    Kept(Scans(lines))
  }

  /** When every line scans, the rows are exactly the scans, in order. */
  lemma {:induction false} KeptAllScanned(scans: seq<Option<Directive>>, ds: seq<Directive>)
    requires |scans| == |ds| && forall i :: 0 <= i < |ds| ==> scans[i] == Some(ds[i])
    ensures Kept(scans) == ds
    decreases |ds|
  {
    if ds != [] {
      var n := |ds| - 1;
      KeptAllScanned(scans[..n], ds[..n]);
      assert ds == ds[..n] + [ds[n]];
    }
  }

  /**
   * The directives the scheduler reads from the file: none when fopen fails
   * (None) or there is no header line; otherwise every later line that scans.
   */
  function Directives(file: Option<seq<string>>): seq<Directive> {
    if file.None? || file.value == [] then [] else ScanLines(file.value[1..])
  }

  /** Index of the first task with the given id, or -1. */
  function FirstWithId(tasks: seq<RtosTask>, id: int): (k: int)
    ensures -1 <= k < |tasks|
    ensures k >= 0 ==> tasks[k].id == id && forall j :: 0 <= j < k ==> tasks[j].id != id
    ensures k < 0 ==> forall j :: 0 <= j < |tasks| ==> tasks[j].id != id
    decreases |tasks|
  {
    if tasks == [] then -1
    else if tasks[0].id == id then 0
    else
      var k := FirstWithId(tasks[1..], id);
      if k < 0 then -1 else k + 1
  }

  predicate SameIds(t1: seq<RtosTask>, t2: seq<RtosTask>) {
    |t1| == |t2| && forall i :: 0 <= i < |t1| ==> t1[i].id == t2[i].id
  }

  lemma FirstWithIdSameIds(t1: seq<RtosTask>, t2: seq<RtosTask>, id: int)
    requires SameIds(t1, t2)
    ensures FirstWithId(t1, id) == FirstWithId(t2, id)
  {
  }

  /** A row is acted on only for the current tick and only past the last tick applied. */
  predicate Eligible(d: Directive, tick: int, lastApplied: int) {
    d.tick == tick && d.tick > lastApplied
  }

  /** Only the priority of a task may change. */
  predicate OnlyPriorities(t1: seq<RtosTask>, t2: seq<RtosTask>) {
    |t1| == |t2| && forall i :: 0 <= i < |t1| ==> t2[i] == t1[i].(priority := t2[i].priority)
  }

  /**
   * The task table and the "applied any" flag after the rows ds have been
   * read in order, as apply_ai_priorities_for_tick does.
   */
  function ApplyDirectives(tasks: seq<RtosTask>, ds: seq<Directive>, tick: int, lastApplied: int): (r: (seq<RtosTask>, bool))
    ensures OnlyPriorities(tasks, r.0)
    decreases |ds|
  {
    if ds == [] then (tasks, false)
    else
      var (t, applied) := ApplyDirectives(tasks, ds[..|ds| - 1], tick, lastApplied);
      var d := ds[|ds| - 1];
      if Eligible(d, tick, lastApplied) then
        var k := FirstWithId(t, d.taskId);
        if k < 0 then (t, applied) else (t[k := t[k].(priority := d.newPrio)], true)
      else (t, applied)
  }

  /** One more line: the rows so far, then the new line's row if it scans. */
  lemma ScanLinesSnoc(lines: seq<string>, n: int)
    requires 0 <= n < |lines|
    ensures ScanLines(lines[..n + 1]) == ScanLines(lines[..n]) + RowOf(ScanDirective(lines[n]))
  {
    var s := Scans(lines[..n + 1]);
    assert s[..n] == Scans(lines[..n]);
    assert s[n] == ScanDirective(lines[n]);
  }

  /** One more row: its effect on the table and flag reached so far. */
  lemma ApplyDirectivesSnoc(tasks: seq<RtosTask>, ds: seq<Directive>, d: Directive, tick: int, lastApplied: int)
    ensures var (t, applied) := ApplyDirectives(tasks, ds, tick, lastApplied);
            var k := FirstWithId(t, d.taskId);
            ApplyDirectives(tasks, ds + [d], tick, lastApplied) ==
              if Eligible(d, tick, lastApplied) && k >= 0 then (t[k := t[k].(priority := d.newPrio)], true)
              else (t, applied)
  {
    assert (ds + [d])[..|ds|] == ds;
  }

  /** A row names a task when it is eligible and some task carries its id. */
  predicate Names(tasks: seq<RtosTask>, d: Directive, tick: int, lastApplied: int) {
    Eligible(d, tick, lastApplied) && FirstWithId(tasks, d.taskId) >= 0
  }

  /** Something is applied exactly when some row names a task. */
  lemma {:induction false} AppliedIffSomeRowNamesATask(tasks: seq<RtosTask>, ds: seq<Directive>, tick: int, lastApplied: int)
    ensures ApplyDirectives(tasks, ds, tick, lastApplied).1 <==>
            exists n :: 0 <= n < |ds| && Names(tasks, ds[n], tick, lastApplied)
    decreases |ds|
  {
    if ds != [] {
      var front := ds[..|ds| - 1];
      AppliedIffSomeRowNamesATask(tasks, front, tick, lastApplied);
      var t := ApplyDirectives(tasks, front, tick, lastApplied).0;
      FirstWithIdSameIds(tasks, t, ds[|ds| - 1].taskId);
      if exists n :: 0 <= n < |front| && Names(tasks, front[n], tick, lastApplied) {
        var n :| 0 <= n < |front| && Names(tasks, front[n], tick, lastApplied);
        assert ds[n] == front[n];
      }
      if exists n :: 0 <= n < |ds| && Names(tasks, ds[n], tick, lastApplied) {
        var n :| 0 <= n < |ds| && Names(tasks, ds[n], tick, lastApplied);
        if n < |front| {
          assert front[n] == ds[n];
        }
      }
    }
  }

  /** When nothing is applied the table is unchanged. */
  lemma {:induction false} NotAppliedMeansUnchanged(tasks: seq<RtosTask>, ds: seq<Directive>, tick: int, lastApplied: int)
    ensures !ApplyDirectives(tasks, ds, tick, lastApplied).1 ==> ApplyDirectives(tasks, ds, tick, lastApplied).0 == tasks
    decreases |ds|
  {
    if ds != [] {
      var front := ds[..|ds| - 1];
      NotAppliedMeansUnchanged(tasks, front, tick, lastApplied);
    }
  }

  /**
   * Once the tick has been applied (lastApplied has reached it), reading the
   * same rows again for that tick changes nothing and reports nothing.
   */
  lemma {:induction false} CaughtUpAppliesNothing(tasks: seq<RtosTask>, ds: seq<Directive>, tick: int, lastApplied: int)
    requires lastApplied >= tick
    ensures ApplyDirectives(tasks, ds, tick, lastApplied) == (tasks, false)
    decreases |ds|
  {
    if ds != [] {
      CaughtUpAppliesNothing(tasks, ds[..|ds| - 1], tick, lastApplied);
    }
  }

  /**
   * The state after one apply, with last_applied_tick moved as the scheduler
   * moves it, makes a second apply of the same rows for the same tick a no-op.
   */
  lemma ReapplyIsNoOp(tasks: seq<RtosTask>, ds: seq<Directive>, tick: int, lastApplied: int)
    requires lastApplied >= -1
    ensures var (t1, applied) := ApplyDirectives(tasks, ds, tick, lastApplied);
            var last1 := if applied && tick >= 0 then tick else lastApplied;
            ApplyDirectives(t1, ds, tick, last1) == (t1, false)
  {
    var (t1, applied) := ApplyDirectives(tasks, ds, tick, lastApplied);
    if applied && tick >= 0 {
      CaughtUpAppliesNothing(t1, ds, tick, tick);
    } else if tick < 0 {
      CaughtUpAppliesNothing(t1, ds, tick, lastApplied);
    } else {
      NotAppliedMeansUnchanged(tasks, ds, tick, lastApplied);
    }
  }

  /** Rows for any tick other than the current one are ignored. */
  lemma {:induction false} OtherTicksIgnored(tasks: seq<RtosTask>, ds: seq<Directive>, tick: int, lastApplied: int)
    requires forall n :: 0 <= n < |ds| ==> ds[n].tick != tick
    ensures ApplyDirectives(tasks, ds, tick, lastApplied) == (tasks, false)
    decreases |ds|
  {
    if ds != [] {
      OtherTicksIgnored(tasks, ds[..|ds| - 1], tick, lastApplied);
    }
  }

  /**
   * A task's priority changes only through a row that names it, i.e. an
   * eligible row whose id is first carried by that task; the last such row wins.
   */
  lemma {:induction false} LastNamingRowWins(tasks: seq<RtosTask>, ds: seq<Directive>, tick: int, lastApplied: int, i: int)
    requires 0 <= i < |tasks|
    ensures var r := ApplyDirectives(tasks, ds, tick, lastApplied).0;
            (forall n :: 0 <= n < |ds| && Eligible(ds[n], tick, lastApplied) ==> FirstWithId(tasks, ds[n].taskId) != i) ==> r[i] == tasks[i]
    ensures var r := ApplyDirectives(tasks, ds, tick, lastApplied).0;
            forall n :: 0 <= n < |ds| && Eligible(ds[n], tick, lastApplied) && FirstWithId(tasks, ds[n].taskId) == i &&
              (forall m :: n < m < |ds| && Eligible(ds[m], tick, lastApplied) ==> FirstWithId(tasks, ds[m].taskId) != i)
              ==> r[i].priority == ds[n].newPrio
    decreases |ds|
  {
    if ds != [] {
      var front := ds[..|ds| - 1];
      LastNamingRowWins(tasks, front, tick, lastApplied, i);
      var t := ApplyDirectives(tasks, front, tick, lastApplied).0;
      FirstWithIdSameIds(tasks, t, ds[|ds| - 1].taskId);
      forall n | 0 <= n < |front|
        ensures front[n] == ds[n]
      {
      }
    }
  }

  /**
   * The ready queue stays sorted across an apply step when no row that is
   * acted on names a queued task. Otherwise it may not: see SortednessCanBreak.
   */
  lemma ApplyKeepsSortedIfQueueUntouched(tasks: seq<RtosTask>, ds: seq<Directive>, tick: int, lastApplied: int, q: seq<int>)
    requires IndicesIn(q, |tasks|) && Sorted(q, tasks)
    requires forall n, k :: 0 <= n < |ds| && 0 <= k < |q| && Eligible(ds[n], tick, lastApplied) ==> ds[n].taskId != tasks[q[k]].id
    ensures Sorted(q, ApplyDirectives(tasks, ds, tick, lastApplied).0)
  {
    var r := ApplyDirectives(tasks, ds, tick, lastApplied).0;
    forall k | 0 <= k < |q|
      ensures r[q[k]] == tasks[q[k]]
    {
      LastNamingRowWins(tasks, ds, tick, lastApplied, q[k]);
    }
  }

  /**
   * A directive for a task already in the queue rewrites its priority in
   * place and the queue is not re-sorted, so the queue's order can break.
   */
  lemma SortednessCanBreak()
    ensures var tasks := [RtosTask(1, 1, 0, 3, 3, -1, true, 0), RtosTask(2, 5, 0, 3, 3, -1, true, 0)];
            var q := [0, 1];
            var r := ApplyDirectives(tasks, [Directive(4, 2, 0)], 4, -1);
            Sorted(q, tasks) && r.1 && !Sorted(q, r.0)
  {
    var tasks := [RtosTask(1, 1, 0, 3, 3, -1, true, 0), RtosTask(2, 5, 0, 3, 3, -1, true, 0)];
    var ds := [Directive(4, 2, 0)];
    assert ds[..0] == [];
    assert FirstWithId(tasks, 2) == 1;
    var r := ApplyDirectives(tasks, ds, 4, -1).0;
    assert r[1].priority == 0 && r[0] == tasks[0];
    assert Precedes(r[[0, 1][1]], r[[0, 1][0]]);
  }
}
