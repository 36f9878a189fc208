/**
 * The message queue of src/ipc.c: a singly linked list of int messages,
 * appended at the tail by send_message and popped at the head by
 * receive_message, which answers -1 when the list is empty.
 */
module Ipc {

  /** receive_message's answer for an empty queue. */
  const EMPTY := -1

  // ---------- The queue as a value ----------

  /** send_message on the queue's contents: the message goes last. */
  function Sent(q: seq<int>, m: int): (r: seq<int>)
    ensures |r| == |q| + 1 && r[..|q|] == q && r[|q|] == m
  {
    q + [m]
  }

  /** receive_message on the queue's contents: the answer and what is left. */
  function Received(q: seq<int>): (r: (int, seq<int>))
    ensures q == [] ==> r == (EMPTY, [])
    ensures q != [] ==> [r.0] + r.1 == q
  {
    if q == [] then (EMPTY, []) else (q[0], q[1..])
  }

  /** The answer alone cannot tell an empty queue from a queued -1. */
  lemma EmptyIsAmbiguous(q: seq<int>)
    ensures Received(q).0 == EMPTY <==> q == [] || q[0] == EMPTY
  {
  }

  /** Several send_message calls in a row. */
  function SendAll(q: seq<int>, ms: seq<int>): seq<int>
    decreases |ms|
  {
    if ms == [] then q else SendAll(Sent(q, ms[0]), ms[1..])
  }

  /** The answers of n receive_message calls in a row. */
  function ReceiveN(q: seq<int>, n: nat): seq<int>
    decreases n
  {
    if n == 0 then [] else [Received(q).0] + ReceiveN(Received(q).1, n - 1)
  }

  /** Sending appends the messages in order. */
  lemma {:induction false} SendAllAppends(q: seq<int>, ms: seq<int>)
    ensures SendAll(q, ms) == q + ms
    decreases |ms|
  {
    if ms != [] {
      SendAllAppends(q + [ms[0]], ms[1..]);
      assert q + [ms[0]] + ms[1..] == q + ms;
    }
  }

  /** Receiving n times yields the first n messages, then -1 for each call past the end. */
  lemma {:induction false} ReceiveNTakesFront(q: seq<int>, n: nat)
    ensures |ReceiveN(q, n)| == n
    ensures forall i :: 0 <= i < n ==> ReceiveN(q, n)[i] == if i < |q| then q[i] else EMPTY
    decreases n
  {
    if n > 0 {
      var rest := Received(q).1;
      ReceiveNTakesFront(rest, n - 1);
      forall i | 0 <= i < n
        ensures ReceiveN(q, n)[i] == if i < |q| then q[i] else EMPTY
      {
        if i > 0 && q != [] {
          assert ReceiveN(q, n)[i] == ReceiveN(rest, n - 1)[i - 1];
          assert i - 1 < |rest| ==> rest[i - 1] == q[i];
        }
      }
    }
  }

  /** FIFO: sends into an empty queue followed by as many receives give the messages back in send order. */
  lemma Fifo(ms: seq<int>)
    ensures ReceiveN(SendAll([], ms), |ms|) == ms
  {
    SendAllAppends([], ms);
    assert [] + ms == ms;
    ReceiveNTakesFront(ms, |ms|);
  }

  // ---------- The linked list ----------

  /** One list node. */
  class Message {
    var msg: int
    var next: Message?

    constructor(m: int)
      ensures msg == m && next == null
    {
      msg := m;
      next := null;
    }
  }

  /** msg_queue and the nodes reachable from it. */
  class MessageQueue {
    var head: Message?
    ghost var nodes: seq<Message>
    ghost var contents: seq<int>
    ghost var Repr: set<Message>

    /** nodes is the chain from head, ending in null, and contents its messages. */
    ghost predicate Valid()
      reads this, Repr
    {
      (forall i :: 0 <= i < |nodes| ==> nodes[i] in Repr)
      && |contents| == |nodes|
      && (forall i, j :: 0 <= i < j < |nodes| ==> nodes[i] != nodes[j])
      && head == (if nodes == [] then null else nodes[0])
      && (forall i :: 0 <= i < |nodes| ==> nodes[i].msg == contents[i])
      && (forall i :: 0 <= i < |nodes| - 1 ==> nodes[i].next != null && nodes[i].next == nodes[i + 1])
      && (nodes != [] ==> nodes[|nodes| - 1].next == null)
    }

    /** The empty queue msg_queue starts as. */
    constructor()
      ensures Valid() && contents == []
    {
      head := null;
      nodes := [];
      contents := [];
      Repr := {};
    }

    /** send_message: walks to the tail and links a new node after it. */
    method Send(m: int)
      requires Valid()
      modifies this, Repr
      ensures Valid() && contents == Sent(old(contents), m)
      ensures fresh(Repr - old(Repr))
    {
      if head == null {
        var node := new Message(m);
        head := node;
        nodes := [node];
        contents := [m];
        Repr := Repr + {node};
        return;
      }
      var tail := head;
      ghost var k := 0;
      while tail.next != null
        invariant Valid() && 0 <= k < |nodes| && tail == nodes[k]
        decreases |nodes| - k
      {
        tail := tail.next;
        k := k + 1;
      }
      assert k == |nodes| - 1;
      var node := new Message(m);
      tail.next := node;
      nodes := nodes + [node];
      contents := contents + [m];
      Repr := Repr + {node};
    }

    /** receive_message: -1 on an empty queue, otherwise the head's message, with the head unlinked. */
    method Receive() returns (v: int)
      requires Valid()
      modifies this
      ensures Valid() && (v, contents) == Received(old(contents))
      ensures Repr <= old(Repr)
    {
      if head == null {
        return EMPTY;
      }
      var front := head;
      v := front.msg;
      head := front.next;
      nodes := nodes[1..];
      contents := contents[1..];
      Repr := Repr - {front};
    }
  }
}
