/**
 * The wake-up-call bookkeeping of hotel.c, taken as plain sequential
 * operations: the global heap of wake-up times with its two counters,
 * pendingAlarms and expiredAlarms.  A guest registers a time, the waiter
 * consumes the earliest one, and the interrupt handler clears the pending
 * count just before the process ends.
 */
module AlarmDesk {
  import opened HeapIndex
  import opened MinHeap

  class Desk {
    /** Every wake-up time ever registered, in order of registration. */
    ghost var Registered: seq<int>
    /** Every wake-up time delivered by the waiter, in order of delivery. */
    ghost var Delivered: seq<int>

    const heap: Heap
    var pendingAlarms: int
    var expiredAlarms: int

    /**
     * The bookkeeping that holds at every point: the heap is well formed,
     * one expired alarm counts each delivery, and every registered time is
     * either still in the heap or delivered, each exactly once.
     */
    ghost predicate Tracked()
      reads this, heap, heap.data
    {
      heap.Valid() &&
      expiredAlarms == |Delivered| &&
      multiset(Registered) == multiset(heap.Contents) + multiset(Delivered)
    }

    /** Tracked, and the pending count is the number of times in the heap. */
    ghost predicate Valid()
      reads this, heap, heap.data
    {
      Tracked() && pendingAlarms == heap.size
    }

    /** The pending count is the number of registered times not yet delivered. */
    lemma PendingIsOutstanding()
      requires Valid()
      ensures pendingAlarms == |Registered| - |Delivered|
      ensures pendingAlarms >= 0
    {
      assert |multiset(Registered)| == |multiset(heap.Contents)| + |multiset(Delivered)|;
    }

    /** The state at program start: an empty heap and both counters zero. */
    constructor ()
      ensures Valid() && fresh(heap) && fresh(heap.data)
      ensures pendingAlarms == 0 && expiredAlarms == 0 && heap.Contents == []
      ensures Registered == [] && Delivered == []
    {
      heap := new Heap();
      pendingAlarms := 0;
      expiredAlarms := 0;
      Registered := [];
      Delivered := [];
    }

    /** A guest's critical section: insert the wake-up time, then count it as pending. */
    method Register(d: int)
      requires Valid()
      requires heap.size < MaxHeap - 1
      modifies this, heap, heap.data
      ensures Valid() && heap.data == old(heap.data)
      ensures pendingAlarms == old(pendingAlarms) + 1
      ensures expiredAlarms == old(expiredAlarms)
      ensures multiset(heap.Contents) == multiset(old(heap.Contents)) + multiset{d}
      ensures Registered == old(Registered) + [d] && Delivered == old(Delivered)
    {
      heap.Insert(d);
      pendingAlarms := pendingAlarms + 1;
      Registered := Registered + [d];
    }

    /**
     * The waiter's critical section once its wait has timed out: count one
     * more expired and one fewer pending alarm, then take the earliest time.
     */
    method Consume() returns (wakeup: int)
      requires Valid()
      requires pendingAlarms > 0
      modifies this, heap, heap.data
      ensures Valid() && heap.data == old(heap.data)
      ensures expiredAlarms == old(expiredAlarms) + 1
      ensures pendingAlarms == old(pendingAlarms) - 1
      ensures wakeup in multiset(old(heap.Contents))
      ensures forall x :: x in multiset(old(heap.Contents)) ==> wakeup <= x
      ensures multiset(heap.Contents) == multiset(old(heap.Contents)) - multiset{wakeup}
      ensures Delivered == old(Delivered) + [wakeup] && Registered == old(Registered)
    {
      expiredAlarms := expiredAlarms + 1;
      pendingAlarms := pendingAlarms - 1;
      wakeup := heap.GetTop();
      Delivered := Delivered + [wakeup];
    }

    /** The interrupt handler's bookkeeping: the pending count is cleared; the heap is not drained. */
    method Reset()
      requires Valid()
      modifies this
      ensures Tracked()
      ensures pendingAlarms == 0
      ensures expiredAlarms == old(expiredAlarms)
      ensures heap.size == old(heap.size) && heap.Contents == old(heap.Contents)
      ensures Registered == old(Registered) && Delivered == old(Delivered)
    {
      pendingAlarms := 0;
    }
  }

  /**
   * A guest registers 150; a later guest registers the earlier time 110.
   * The waiter delivers 110 first, and after the interrupt handler no alarm
   * is reported pending.  Consume's own contract states the general fact:
   * the time delivered is the least of those stored.
   */
  method EarlierTimeFirst() returns (wakeup: int, pending: int, expired: int, pendingAtExit: int)
    ensures wakeup == 110 && pending == 1 && expired == 1 && pendingAtExit == 0
  {
    var desk := new Desk();
    desk.Register(150);
    desk.Register(110);
    wakeup := desk.Consume();
    assert 110 in multiset{150, 110};
    pending, expired := desk.pendingAlarms, desk.expiredAlarms;
    desk.Reset();
    pendingAtExit := desk.pendingAlarms;
  }
}
