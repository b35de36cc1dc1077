/**
 * Index arithmetic and comparison of the array-backed binary min-heap in hotel.c.
 *
 * Nodes are numbered from 1 (slot 0 of the array is never used); node i has
 * its children at 2i and 2i+1 and its parent at i/2.  The value 0 stands for
 * "no such node".  Asking about an index outside 1..size ends the process in
 * the source, so here it is a precondition.
 */
module HeapIndex {

  /** Number of slots in the backing array; as slot 0 is unused, at most MaxHeap - 1 values fit. */
  const MaxHeap: nat := 100

  /** The parent of node i in a heap of `size` nodes, or 0 when i is the root. */
  function Parent(size: nat, i: nat): (r: nat)
    requires 1 <= i <= size
    ensures r == 0 <==> i == 1
    ensures r != 0 ==> 1 <= r < i && (i == 2 * r || i == 2 * r + 1)
  {
    if i == 1 then 0 else i / 2
  }

  /** The left child of node i, or 0 when node i has no left child. */
  function Left(size: nat, i: nat): (r: nat)
    requires 1 <= i <= size
    ensures r == 0 <==> size < 2 * i
    ensures r != 0 ==> i < r <= size && r % 2 == 0 && Parent(size, r) == i
  {
    if i * 2 > size then 0 else i * 2
  }

  /** The right child of node i, or 0 when node i has no right child. */
  function Right(size: nat, i: nat): (r: nat)
    requires 1 <= i <= size
    ensures r == 0 <==> size < 2 * i + 1
    ensures r != 0 ==> i < r <= size && r % 2 == 1 && Parent(size, r) == i
  {
    if i * 2 + 1 > size then 0 else i * 2 + 1
  }

  /** Three-way comparison: negative, zero or positive as a is below, equal to or above b. */
  function Compare(a: int, b: int): (r: int)
    ensures -1 <= r <= 1
    ensures r < 0 <==> a < b
    ensures r == 0 <==> a == b
    ensures r > 0 <==> a > b
  {
    if a < b then -1 else if a == b then 0 else 1
  }

  /** A node has a right child only if it has a left child, and the two are siblings. */
  lemma RightImpliesLeft(size: nat, i: nat)
    requires 1 <= i <= size
    ensures Right(size, i) != 0 ==> Left(size, i) != 0 && Right(size, i) == Left(size, i) + 1
  {
  }
}
