/** The task record of the scheduler's task table. */
module Rtos {

  /** One entry of task_table. Lower priority values are scheduled first. */
  datatype RtosTask = RtosTask(
    id: int,
    priority: int,
    arrivalTime: int,
    burstTime: int,
    remainingTime: int,
    completionTime: int,
    enqueued: bool,
    waitingTime: int)

  /** a is ordered strictly before b by (priority, id). */
  predicate Precedes(a: RtosTask, b: RtosTask) {
    a.priority < b.priority || (a.priority == b.priority && a.id < b.id)
  }

  /** Two tasks with the same priority and id take the same places in the ready queue. */
  predicate SameKey(a: RtosTask, b: RtosTask) {
    a.priority == b.priority && a.id == b.id
  }
}

/**
 * The ready queue as a sequence of task-table indices, head first, and the
 * order in which ready_push_sorted places a new index.
 */
module ReadyQueue {
  import opened Rtos

  predicate IndicesIn(q: seq<int>, n: int) {
    forall k :: 0 <= k < |q| ==> 0 <= q[k] < n
  }

  predicate Distinct(q: seq<int>) {
    forall i, j :: 0 <= i < j < |q| ==> q[i] != q[j]
  }

  /** Ordered by (priority, id) ascending, as the tasks stand now. */
  predicate Sorted(q: seq<int>, tasks: seq<RtosTask>)
    requires IndicesIn(q, |tasks|)
  {
    forall i, j :: 0 <= i < j < |q| ==> !Precedes(tasks[q[j]], tasks[q[i]])
  }

  /** The queue after inserting idx before the first entry it precedes. */
  function SortedInsert(q: seq<int>, tasks: seq<RtosTask>, idx: int): (r: seq<int>)
    requires IndicesIn(q, |tasks|) && 0 <= idx < |tasks|
    ensures IndicesIn(r, |tasks|)
    ensures |r| == |q| + 1
    decreases |q|
  {
    if q == [] then [idx]
    else if Precedes(tasks[idx], tasks[q[0]]) then [idx] + q
    else [q[0]] + SortedInsert(q[1..], tasks, idx)
  }

  /** The position at which idx goes: past every entry it does not precede. */
  function InsertPosition(q: seq<int>, tasks: seq<RtosTask>, idx: int): (p: nat)
    requires IndicesIn(q, |tasks|) && 0 <= idx < |tasks|
    ensures p <= |q|
    ensures forall j :: 0 <= j < p ==> !Precedes(tasks[idx], tasks[q[j]])
    ensures p < |q| ==> Precedes(tasks[idx], tasks[q[p]])
    decreases |q|
  {
    if q == [] || Precedes(tasks[idx], tasks[q[0]]) then 0
    else 1 + InsertPosition(q[1..], tasks, idx)
  }

  /**
   * Inserting places idx at its position and keeps every other entry in
   * its relative order.
   */
  lemma {:induction false} SortedInsertSplits(q: seq<int>, tasks: seq<RtosTask>, idx: int, p: int)
    requires IndicesIn(q, |tasks|) && 0 <= idx < |tasks|
    requires 0 <= p <= |q|
    requires forall j :: 0 <= j < p ==> !Precedes(tasks[idx], tasks[q[j]])
    requires p < |q| ==> Precedes(tasks[idx], tasks[q[p]])
    ensures SortedInsert(q, tasks, idx) == Splice(q, p, idx)
    decreases |q|
  {
    if p == 0 {
      assert q[..0] + [idx] + q[0..] == [idx] + q;
    } else {
      var t := q[1..];
      assert !Precedes(tasks[idx], tasks[q[0]]);
      assert forall j :: 0 <= j < |t| ==> t[j] == q[j + 1];
      SortedInsertSplits(t, tasks, idx, p - 1);
      assert q[..p] == [q[0]] + t[..p - 1];
      assert q[p..] == t[p - 1..];
    }
  }

  /** q with x placed at position p. */
  function Splice(q: seq<int>, p: int, x: int): seq<int>
    requires 0 <= p <= |q|
  {
    q[..p] + [x] + q[p..]
  }

  lemma SpliceAt(q: seq<int>, p: int, x: int)
    requires 0 <= p <= |q|
    ensures |Splice(q, p, x)| == |q| + 1
    ensures forall k :: 0 <= k < |q| + 1 ==> Splice(q, p, x)[k] == if k < p then q[k] else if k == p then x else q[k - 1]
  {
  }

  lemma SpliceMultiset(q: seq<int>, p: int, x: int)
    requires 0 <= p <= |q|
    ensures multiset(Splice(q, p, x)) == multiset(q) + multiset{x}
  {
    assert q == q[..p] + q[p..];
  }

  lemma SpliceDistinct(q: seq<int>, p: int, x: int)
    requires 0 <= p <= |q| && Distinct(q) && x !in q
    ensures Distinct(Splice(q, p, x))
  {
    var r := Splice(q, p, x);
    SpliceAt(q, p, x);
    forall i, j | 0 <= i < j < |r|
      ensures r[i] != r[j]
    {
      if i < p && j == p {
        assert q[i] in q;
      } else if i == p {
        assert q[j - 1] in q;
      }
    }
  }

  lemma SortedInsertAtPosition(q: seq<int>, tasks: seq<RtosTask>, idx: int)
    requires IndicesIn(q, |tasks|) && 0 <= idx < |tasks|
    ensures SortedInsert(q, tasks, idx) == Splice(q, InsertPosition(q, tasks, idx), idx)
  {
    SortedInsertSplits(q, tasks, idx, InsertPosition(q, tasks, idx));
  }

  /** Inserting adds exactly one occurrence of idx and removes nothing. */
  lemma SortedInsertAddsOne(q: seq<int>, tasks: seq<RtosTask>, idx: int)
    requires IndicesIn(q, |tasks|) && 0 <= idx < |tasks|
    ensures multiset(SortedInsert(q, tasks, idx)) == multiset(q) + multiset{idx}
  {
    SortedInsertAtPosition(q, tasks, idx);
    SpliceMultiset(q, InsertPosition(q, tasks, idx), idx);
  }

  /** Placing idx past every entry it does not precede and before one it does keeps a sorted queue sorted. */
  lemma SpliceSorted(q: seq<int>, tasks: seq<RtosTask>, idx: int, p: int)
    requires IndicesIn(q, |tasks|) && 0 <= idx < |tasks| && Sorted(q, tasks)
    requires 0 <= p <= |q|
    requires forall j :: 0 <= j < p ==> !Precedes(tasks[idx], tasks[q[j]])
    requires p < |q| ==> Precedes(tasks[idx], tasks[q[p]])
    ensures IndicesIn(Splice(q, p, idx), |tasks|) && Sorted(Splice(q, p, idx), tasks)
  {
    var r := Splice(q, p, idx);
    SpliceAt(q, p, idx);
    forall i, j | 0 <= i < j < |r|
      ensures !Precedes(tasks[r[j]], tasks[r[i]])
    {
      if i == p && j - 1 != p {
        assert !Precedes(tasks[q[j - 1]], tasks[q[p]]);
      }
    }
  }

  /** Inserting adds the new index and keeps every old one. */
  lemma SortedInsertMembers(q: seq<int>, tasks: seq<RtosTask>, idx: int)
    requires IndicesIn(q, |tasks|) && 0 <= idx < |tasks|
    ensures forall j :: j in SortedInsert(q, tasks, idx) <==> j in q || j == idx
  {
    SortedInsertAddsOne(q, tasks, idx);
    forall j ensures j in SortedInsert(q, tasks, idx) <==> j in q || j == idx {
      assert j in SortedInsert(q, tasks, idx) <==> j in multiset(SortedInsert(q, tasks, idx));
      assert j in q <==> j in multiset(q);
    }
  }

  /** Inserting into a sorted queue gives a sorted queue. */
  lemma SortedInsertKeepsSorted(q: seq<int>, tasks: seq<RtosTask>, idx: int)
    requires IndicesIn(q, |tasks|) && 0 <= idx < |tasks|
    requires Sorted(q, tasks)
    ensures Sorted(SortedInsert(q, tasks, idx), tasks)
  {
    SortedInsertAtPosition(q, tasks, idx);
    SpliceSorted(q, tasks, idx, InsertPosition(q, tasks, idx));
  }

  /** Inserting an index not yet present keeps the queue free of repeats. */
  lemma SortedInsertKeepsDistinct(q: seq<int>, tasks: seq<RtosTask>, idx: int)
    requires IndicesIn(q, |tasks|) && 0 <= idx < |tasks|
    requires Distinct(q) && idx !in q
    ensures Distinct(SortedInsert(q, tasks, idx))
  {
    SortedInsertAtPosition(q, tasks, idx);
    SpliceDistinct(q, InsertPosition(q, tasks, idx), idx);
  }

  /** The insertion depends only on priorities and ids. */
  lemma {:induction false} SortedInsertSameKeys(q: seq<int>, t1: seq<RtosTask>, t2: seq<RtosTask>, idx: int)
    requires |t1| == |t2| && forall i :: 0 <= i < |t1| ==> SameKey(t1[i], t2[i])
    requires IndicesIn(q, |t1|) && 0 <= idx < |t1|
    ensures SortedInsert(q, t1, idx) == SortedInsert(q, t2, idx)
    decreases |q|
  {
    if q != [] {
      SortedInsertSameKeys(q[1..], t1, t2, idx);
    }
  }

  /** Sortedness depends only on priorities and ids. */
  lemma SortedSameKeys(q: seq<int>, t1: seq<RtosTask>, t2: seq<RtosTask>)
    requires |t1| == |t2| && forall i :: 0 <= i < |t1| ==> SameKey(t1[i], t2[i])
    requires IndicesIn(q, |t1|)
    ensures Sorted(q, t1) <==> Sorted(q, t2)
  {
  }
}
