# Wake-up-call heap of the thread hotel

This project models the core of `hotel.c`, the wake-up-call service of the thread hotel, and proves properties about the model. Guests register wake-up times. A waiter delivers the earliest one.

The times are kept in an array-backed binary min-heap. The array has 100 slots and slot 0 is never used. Node `i` has its children at `2i` and `2i+1` and its parent at `i/2`. Beside the global heap, two global counters `pendingAlarms` and `expiredAlarms` track the wake-up calls (hotel.c:214, 227-228); the model's `Desk` groups the three.

The model has three modules, one per layer of the source:

- `HeapIndex` (`heap_index.dfy`): the pure index helpers `parent`, `left`, `right` and the three-way `compare`. They are pure functions of the index and the heap size.
- `MinHeap` (`min_heap.dfy`): the heap as a class.
  - It holds an `array<int>` of `MAXHEAP = 100` slots and a `size` field.
  - `Insert` and `GetTop` move a hole through the array in place, exactly as `insert` and `getTop` do.
  - A ghost sequence `Contents` lists the stored values in slot order. Through it, every method states how the stored multiset changes.
  - The heap order `data[i/2] <= data[i]` is part of the class invariant `Valid()`.
- `AlarmDesk` (`alarm_desk.dfy`): the counter bookkeeping done in the critical sections of the guest thread, the waiter thread and the interrupt handler, taken as plain sequential operations:
  - register is `insert` followed by `pendingAlarms++`;
  - consume is `expiredAlarms++`, `pendingAlarms--`, then `getTop`;
  - reset is `pendingAlarms = 0`.
  - Two ghost logs, `Registered` and `Delivered`, record every time that went in and every time that came out. They are used to state that no time is lost or delivered twice.

A call the C code ends with `exit(1)` is a precondition here:
- an index outside `1..size` handed to `parent`, `left` or `right`;
- `getTop` on an empty heap.

`insert` does not check capacity. It writes slot `size + 1`, which is only inside the 100-slot array while `size < 99`. That bound is therefore a precondition of `Insert`.

## Model

| member | source | states |
|---|---|---|
| HeapIndex.Parent | hotel.c:29-42 | the result is 0 exactly for the root; otherwise it is the node whose left or right child is `i`, and it lies above `i` |
| HeapIndex.Left | hotel.c:59-73 | the result is 0 exactly when `2i > size`; otherwise it is an even node in `i+1..size` whose parent is `i` |
| HeapIndex.Right | hotel.c:76-90 | the result is 0 exactly when `2i+1 > size`; otherwise it is an odd node in `i+1..size` whose parent is `i` |
| HeapIndex.Compare | hotel.c:44-56 | the result is -1, 0 or 1, and it is negative, zero or positive exactly when `a` is below, equal to or above `b` |
| HeapIndex.RightImpliesLeft | hotel.c:59-90 | a node with a right child also has a left child, directly before it, as `getTop` assumes when it tests `j && k`, then `j` alone |
| MinHeap.RootIsMinimum | hotel.c:136-147 | in a heap-ordered array, slot 1 is no larger than any stored slot |
| MinHeap.RootBoundsContents | hotel.c:136-147 | the value `getTop` returns is among the stored values and no larger than any of them |
| MinHeap.Heap.constructor | hotel.c:214 | a fresh heap is valid, of size 0, holding nothing |
| MinHeap.Heap.Insert | hotel.c:93-133 | on a valid heap with `size < 99`, size grows by one, the stored multiset gains exactly `d`, and heap order holds again; a slot whose value was at most `d` keeps its value, so equal parents are never displaced |
| MinHeap.Heap.SiftUp | hotel.c:105-131 | the hole-moving loop of `insert` ends with a heap-ordered array holding the same values as before plus `d`, and moves only values strictly larger than `d` |
| MinHeap.UpStep | hotel.c:129-130 | moving a parent larger than `d` down into the hole keeps heap order around the new hole and keeps the stored multiset |
| MinHeap.UpFill | hotel.c:115-126 | filling the hole with `d` once it has reached the root, or a parent no larger than `d`, restores heap order |
| MinHeap.UpHoleStart | hotel.c:105-107 | a hole opened at the new bottom slot of a heap-ordered array satisfies the loop invariant of `insert` |
| MinHeap.UpHoleStep | hotel.c:129-130 | moving the parent down keeps the invariant of `insert`, one level higher |
| MinHeap.UpHoleFill | hotel.c:115-126 | both exits of the loop of `insert` leave a heap-ordered array once `d` is written |
| MinHeap.UndisplacedStep | hotel.c:123-130 | a parent moved down was larger than `d` from the start, and the slot it overwrites held no value at most `d` |
| MinHeap.UndisplacedFill | hotel.c:118-125 | writing `d` into the hole overwrites no slot that held a value at most `d` |
| MinHeap.Heap.GetTop | hotel.c:136-207 | on a valid non-empty heap, it returns the old root, which is the minimum of the stored values; size drops by one, exactly one copy of the result leaves the stored multiset, and heap order holds again, including for one node and for a node with only a left child |
| MinHeap.Heap.SiftDown | hotel.c:157-204 | the loop that re-places the last node ends with a heap-ordered array holding the same values |
| MinHeap.DownStep | hotel.c:168-197 | moving up into the hole a child no larger than `last` and no larger than its sibling keeps heap order around the new hole and keeps the stored multiset |
| MinHeap.DownHoleStart | hotel.c:157-159 | after the last node is unlinked, a hole at the root satisfies the invariant of the loop of `getTop` |
| MinHeap.DownHoleStep | hotel.c:168-197 | moving a child no larger than `last` and no larger than its sibling up keeps that invariant one level lower |
| MinHeap.DownHoleFill | hotel.c:170-204 | when every child of the hole is larger than `last`, writing `last` into it restores heap order |
| MinHeap.OpenBottom | hotel.c:105-107 | a new hole at slot `size` leaves the other slots listing the old values |
| MinHeap.OpenRoot | hotel.c:147-158 | unlinking the last node and opening a hole at the root removes exactly the old root from the stored multiset |
| MinHeap.MoveHole | hotel.c:175-196 | copying a slot into the hole moves the hole to that slot and keeps the stored multiset |
| MinHeap.FillHole | hotel.c:204 | writing the missing value into the hole leaves the array listing the stored values |
| MinHeap.TakeSmallest | hotel.c:136-207 | appending the least stored value to a sorted run no larger than any stored value keeps the run sorted and still no larger than what remains |
| MinHeap.Drain | hotel.c:136-207 | taking the root until the heap is empty yields the stored values in non-decreasing order, and exactly the stored multiset |
| MinHeap.ConsecutiveTops | hotel.c:136-207 | two values taken out of the root one after the other come out in non-decreasing order |
| MinHeap.ExampleHeap | hotel.c:93-133 | inserting 105, 101, 110, 102 into an empty heap gives a valid heap of four nodes holding those values |
| MinHeap.DrainExample | hotel.c:136-207 | taking the root four times from that heap yields 101, 102, 105, 110 and empties it |
| MinHeap.ExtractionOrder | hotel.c:93-207 | insert 105, 101, 110, 102 into an empty heap, then take the root four times: the results are 101, 102, 105, 110 |
| AlarmDesk.Desk.constructor | hotel.c:214-228 | at start the heap is empty and both counters are 0 |
| AlarmDesk.Desk.PendingIsOutstanding | hotel.c:227-228 | under the invariant, `pendingAlarms` equals the number of registered times not yet delivered |
| AlarmDesk.Desk.Register | hotel.c:255-262 | insert, then one more pending alarm; `pendingAlarms == heap.size` is kept, `expiredAlarms` is unchanged, and the time joins the heap and the registration log |
| AlarmDesk.Desk.Consume | hotel.c:302-306 | one more expired and one fewer pending alarm, then the earliest stored time is taken out and logged as delivered; `pendingAlarms == heap.size` is kept and `expiredAlarms` counts the deliveries |
| AlarmDesk.Desk.Reset | hotel.c:341-342 | `pendingAlarms` becomes 0; the heap, `expiredAlarms` and both logs are unchanged |
| AlarmDesk.EarlierTimeFirst | hotel.c:255-342 | times registered as 150, then 110: the waiter delivers 110 first, leaving one pending and one expired alarm, and none pending after the interrupt handler |

## Left out

- Threads, the mutex, the condition variable, cancel state and type, and the cleanup stack (hotel.c:237-245, 265-271, 279-325). They exist for concurrency. Each critical section is modelled as one sequential operation. The cleanup handler `free(&mutex)` is not modelled.
- Time: `time(NULL)`, `pthread_cond_timedwait` and the `ETIMEOUT` test. Consume is modelled as happening once the wait has timed out. Also not modelled: the deadline of the wait is `generatedTime`, the most recently generated time, rather than the heap's minimum.
- `srand`/`rand`. A registered time is a parameter of `Register`.
- Output through `printf`, `ctime` and `sleep`.
- Signal installation, process exit and the `main` loop: process plumbing.
- `hotel.c` has no operation that reads the root without removing it; none is modelled.
- Capacity overflow: `insert` has no capacity check. Inserting at `size == 99` would write outside the array. `Insert` therefore requires `size < 99`; with no check in the source, no capacity error is modelled.
- `Desk.Register`, `Desk.Consume`: the counters are C `int`s. With the heap holding at most 99 values, `pendingAlarms` stays in range. Wrap-around of `expiredAlarms` after 2^31 - 1 deliveries is not modelled.
- Heap values are unbounded integers. The truncating cast of a `time_t` to `DATA`, which is `int`, is not modelled.
- `Desk.Reset` leaves `pendingAlarms` different from `heap.size` whenever the heap is not empty. In the source, the process ends right after. `Reset` therefore keeps only the bookkeeping without that equation (`Tracked`), not the full `Valid`.
- Ties in `getTop`: the re-placed node also moves down when it equals the chosen child, and stops only when it is strictly smaller than every child (hotel.c:171, 191). The model does the same; the result is a heap either way.
