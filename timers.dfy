/**
 * The countdown timers of src/timers.c: one int slot per task id in a
 * fixed table of MAX_TASKS entries; set_timer writes a slot, check_timer
 * reports whether it has run down, and tick counts every positive slot down
 * by one.
 */
module Timers {

  const MAX_TASKS := 16

  predicate InRange(id: int) {
    0 <= id < MAX_TASKS
  }

  // ---------- The table as a value ----------

  /** set_timer on the slots: out-of-range ids are ignored. */
  function SetSlot(s: seq<int>, id: int, ticks: int): (r: seq<int>)
    ensures |r| == |s|
    ensures |s| == MAX_TASKS ==> forall i :: 0 <= i < |s| ==> r[i] == if i == id then ticks else s[i]
  {
    if InRange(id) && id < |s| then s[id := ticks] else s
  }

  /** check_timer on the slots: 0 out of range, else 1 when the slot has run down to zero or below. */
  function Check(s: seq<int>, id: int): (r: int)
    requires |s| == MAX_TASKS
    ensures r == 0 || r == 1
    ensures r == 1 <==> InRange(id) && s[id] <= 0
  {
    if !InRange(id) then 0 else if s[id] <= 0 then 1 else 0
  }

  /** One slot after tick. */
  function Down(v: int): int {
    if v > 0 then v - 1 else v
  }

  /** tick on the slots. */
  function TickAll(s: seq<int>): (r: seq<int>)
    ensures |r| == |s|
  {
    seq(|s|, i requires 0 <= i < |s| => Down(s[i]))
  }

  /** tick decrements exactly the positive slots, so no slot that was at least zero goes negative. */
  lemma TickAllSlots(s: seq<int>)
    ensures forall i :: 0 <= i < |s| ==>
              (s[i] > 0 ==> TickAll(s)[i] == s[i] - 1) && (s[i] <= 0 ==> TickAll(s)[i] == s[i])
    ensures forall i :: 0 <= i < |s| ==> (s[i] >= 0 ==> TickAll(s)[i] >= 0)
  {
  }

  /** n calls to tick. */
  function Ticks(s: seq<int>, n: nat): (r: seq<int>)
    ensures |r| == |s|
    decreases n
  {
    if n == 0 then s else Ticks(TickAll(s), n - 1)
  }

  /** After n ticks a slot that started at v >= 0 holds max(v - n, 0). */
  lemma {:induction false} TicksSlot(s: seq<int>, n: nat, id: int)
    requires 0 <= id < |s| && s[id] >= 0
    ensures Ticks(s, n)[id] == if s[id] >= n then s[id] - n else 0
    decreases n
  {
    if n > 0 {
      assert TickAll(s)[id] == Down(s[id]);
      TicksSlot(TickAll(s), n - 1, id);
    }
  }

  /** A timer set to n >= 0 has expired after n ticks. */
  lemma ExpiresAfterItsTicks(s: seq<int>, id: int, n: nat)
    requires |s| == MAX_TASKS && InRange(id)
    ensures Check(Ticks(SetSlot(s, id, n), n), id) == 1
  {
    TicksSlot(SetSlot(s, id, n), n, id);
  }

  /** ... and not a tick earlier. */
  lemma RunningBeforeItsTicks(s: seq<int>, id: int, n: nat, k: nat)
    requires |s| == MAX_TASKS && InRange(id) && k < n
    ensures Check(Ticks(SetSlot(s, id, n), k), id) == 0
  {
    TicksSlot(SetSlot(s, id, n), k, id);
  }

  // ---------- The table ----------

  /** The static timers array, zero-initialised. */
  class TimerTable {
    const slots: array<int>

    ghost predicate Valid()
      reads this
    {
      slots.Length == MAX_TASKS
    }

    constructor()
      ensures Valid() && fresh(slots)
      ensures forall i :: 0 <= i < MAX_TASKS ==> slots[i] == 0
    {
      slots := new int[MAX_TASKS](_ => 0);
    }

    /** set_timer */
    method SetTimer(id: int, ticks: int)
      requires Valid()
      modifies slots
      ensures slots[..] == SetSlot(old(slots[..]), id, ticks)
    {
      if id < 0 || id >= MAX_TASKS {
        return;
      }
      slots[id] := ticks;
    }

    /** check_timer */
    method CheckTimer(id: int) returns (r: int)
      requires Valid()
      ensures r == Check(slots[..], id)
    {
      if id < 0 || id >= MAX_TASKS {
        return 0;
      }
      r := if slots[id] <= 0 then 1 else 0;
    }

    /** tick: one pass over the table. */
    method Tick()
      requires Valid()
      modifies slots
      ensures slots[..] == TickAll(old(slots[..]))
    {
      for i := 0 to MAX_TASKS
        invariant forall j :: 0 <= j < i ==> slots[j] == Down(old(slots[j]))
        invariant forall j :: i <= j < MAX_TASKS ==> slots[j] == old(slots[j])
      {
        if slots[i] > 0 {
          slots[i] := slots[i] - 1;
        }
      }
    }
  }
}
