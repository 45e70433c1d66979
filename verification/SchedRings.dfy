/** The two 64-slot rings of the submit scheduler, as arrays written in place
    under their spin locks, and the sequences they stand for. One slot always
    stays empty, so each holds at most 63 entries. */
module SchedRings {
  import opened Wrappers

  type U32 = x: int | 0 <= x < 0x1_0000_0000

  const DEPTH: nat := 64
  const CAPACITY: nat := 63

  /** An entry of SubmitQueue: a submission or an in-order preempt marker. */
  datatype Job = Job(fence: U32, node: U32, engine: U32, isPreempt: bool)
  /** An entry of FenceQueue; last is LastCompletedFenceId. */
  datatype Notice = Notice(job: Job, last: U32)

  // Sequence forms, used by the transition system of module Sched.

  predicate HasRoom<T>(q: seq<T>) { |q| < CAPACITY }

  /** Keep the newest 63. */
  function PushNewest<T>(q: seq<T>, x: T): seq<T> {
    if HasRoom(q) then q + [x] else q[1..] + [x]
  }

  /** The 64th entry pushes the oldest out. */
  lemma {:induction false} PushNewestIs<T>(q: seq<T>, x: T)
    ensures PushNewest(q, x) == (if |q| < 63 then q else q[1..]) + [x]
  {
  }

  function NextSlot(i: nat): (n: nat)
    requires i < DEPTH
    ensures n == if i == DEPTH - 1 then 0 else i + 1
  {
    (i + 1) % DEPTH
  }

  class Ring<T(0)> {
    var slots: array<T>
    var head: nat
    var tail: nat

    ghost predicate Valid()
      reads this
    {
      slots.Length == DEPTH && head < DEPTH && tail < DEPTH
    }

    /** Oldest first. */
    ghost function Contents(): (q: seq<T>)
      reads this, slots
      requires Valid()
      ensures |q| <= CAPACITY
    {
      if head <= tail then slots[head..tail] else slots[head..] + slots[..tail]
    }

    constructor ()
      ensures Valid() && Contents() == [] && fresh(slots)
    {
      slots := new T[DEPTH];
      head, tail := 0, 0;
    }

    /** The lock section of WinMaliSchedEnqueue_ */
    method Enqueue(x: T) returns (queued: bool)
      requires Valid()
      modifies this`tail, slots
      ensures Valid() && (queued <==> |old(Contents())| < 63)
      ensures Contents() == if queued then old(Contents()) + [x] else old(Contents())
    {
      hide NextSlot;
      var next := NextSlot(tail);
      queued := next != head;
      if queued {
        slots[tail] := x;
        tail := next;
      }
    }

    /** The lock section of the worker, of ResetEngine and of the DPC */
    method Dequeue() returns (x: Option<T>)
      requires Valid()
      modifies this`head
      ensures Valid()
      ensures old(Contents()) == [] ==> x == None && Contents() == []
      ensures old(Contents()) != [] ==> x == Some(old(Contents())[0]) && Contents() == old(Contents())[1..]
    {
      if head == tail {
        return None;
      }
      hide NextSlot;
      x := Some(slots[head]);
      head := NextSlot(head);
    }

    /** The lock section of WinMaliSchedPushFence_: a full ring drops its oldest entry. */
    method Push(x: T)
      requires Valid()
      modifies this`head, this`tail, slots
      ensures Valid() && Contents() == PushNewest(old(Contents()), x)
      ensures Contents() == (if |old(Contents())| < 63 then old(Contents()) else old(Contents())[1..]) + [x]
    {
      hide NextSlot;
      ghost var was := Contents();
      PushNewestIs(was, x);
      hide PushNewest;
      var next := NextSlot(tail);
      if next == head {
        head := NextSlot(head);
        assert Contents() == was[1..];
      }
      slots[tail] := x;
      tail := next;
    }
  }
}
