/**
 * The rows both priority adjusters write for one tick: one per task of the
 * computed dict, in ascending task id, all carrying that tick.
 */
module Batch {
  import opened Csv
  import opened DirectiveFile

  /** One row per key, in the keys' order. */
  function RowsForKeys(tick: int, keys: seq<int>, prios: map<int, int>): (ds: seq<Directive>)
    requires forall i :: 0 <= i < |keys| ==> keys[i] in prios
    ensures |ds| == |keys|
    ensures forall i :: 0 <= i < |ds| ==> ds[i] == Directive(tick, keys[i], prios[keys[i]])
  {
    seq(|keys|, i requires 0 <= i < |keys| => Directive(tick, keys[i], prios[keys[i]]))
  }

  /** One row per task, in ascending task id as sorted() orders the dict, all for one tick. */
  function BatchRows(tick: int, prios: map<int, int>): (ds: seq<Directive>)
    ensures |ds| == |prios|
    ensures forall i :: 0 <= i < |ds| ==>
              ds[i].tick == tick && ds[i].taskId in prios && ds[i].newPrio == prios[ds[i].taskId]
  {
    var keys := SortedKeys(prios.Keys);
    assert |prios.Keys| == |prios|;
    RowsForKeys(tick, keys, prios)
  }

  /** The batch's task ids are the dict's keys, sorted. */
  lemma BatchRowIds(tick: int, prios: map<int, int>)
    ensures var ds := BatchRows(tick, prios);
            var keys := SortedKeys(prios.Keys);
            |ds| == |keys| && forall i :: 0 <= i < |ds| ==> ds[i].taskId == keys[i]
  {
    assert |prios.Keys| == |prios|;
  }

  /** The batch lists the tasks in strictly ascending id, and every task of prios appears. */
  lemma BatchRowsOrderedAndComplete(tick: int, prios: map<int, int>)
    ensures var ds := BatchRows(tick, prios);
            (forall i, j :: 0 <= i < j < |ds| ==> ds[i].taskId < ds[j].taskId)
            && forall k :: k in prios ==> exists i :: 0 <= i < |ds| && ds[i].taskId == k
  {
    var keys := SortedKeys(prios.Keys);
    var ds := BatchRows(tick, prios);
    BatchRowIds(tick, prios);
    forall k | k in prios
      ensures exists i :: 0 <= i < |ds| && ds[i].taskId == k
    {
      assert k in keys;
      var i :| 0 <= i < |keys| && keys[i] == k;
      assert ds[i].taskId == k;
    }
  }
}
