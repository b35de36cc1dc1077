/**
 * The array-backed binary min-heap of hotel.c: a fixed array of MaxHeap
 * timestamps and an explicit node count, with insertion that moves a hole
 * up from the bottom and removal of the root that moves a hole down.
 */
module MinHeap {
  import opened HeapIndex

  /** Heap order on slots 1..n of `a`: no node is smaller than its parent. */
  ghost predicate HeapOrdered(a: seq<int>, n: nat)
    requires n < |a|
  {
    forall p, c :: 1 <= p < c <= n && c / 2 == p ==> a[p] <= a[c]
  }

  /** Under heap order the root is no larger than any node. */
  lemma {:induction false} RootIsMinimum(a: seq<int>, n: nat, k: nat)
    requires n < |a| && HeapOrdered(a, n)
    requires 1 <= k <= n
    ensures a[1] <= a[k]
  {
    if k > 1 {
      RootIsMinimum(a, n, k / 2);
    }
  }

  /** Under heap order the root is no larger than any stored value. */
  lemma RootBoundsContents(a: seq<int>, n: nat, c: seq<int>)
    requires n < |a| && HeapOrdered(a, n) && 1 <= n
    requires Holds(a, n, c)
    ensures a[1] in multiset(c)
    ensures forall x :: x in multiset(c) ==> a[1] <= x
  {
    assert c[0] == a[1];
    forall x | x in multiset(c)
      ensures a[1] <= x
    {
      assert x in c;
      var j :| 0 <= j < n && c[j] == x;
      assert c[(j + 1) - 1] == a[j + 1];
      RootIsMinimum(a, n, j + 1);
    }
  }

  /**
   * The state of the upward hole walk of Insert: slots 1..n hold a heap
   * with a hole at h that the value d is to fill.  Apart from the hole,
   * nodes are ordered; the hole's children are no smaller than d nor than
   * the hole's parent.
   */
  ghost predicate UpHole(a: seq<int>, n: nat, h: nat, d: int)
    requires n < |a|
  {
    1 <= h <= n &&
    (forall p, c :: 1 <= p < c <= n && c / 2 == p && c != h && p != h ==> a[p] <= a[c]) &&
    (forall m :: 2 <= m <= n && m / 2 == h ==> d <= a[m]) &&
    (h >= 2 ==> forall m :: 2 <= m <= n && m / 2 == h ==> a[h / 2] <= a[m])
  }

  /** A hole opened in the new last slot below a heap starts the walk. */
  lemma UpHoleStart(a: seq<int>, n: nat, d: int)
    requires 1 <= n < |a| && HeapOrdered(a, n - 1)
    ensures UpHole(a, n, n, d)
  {
  }

  /** Moving the parent's value down into the hole, the hole goes up one level. */
  lemma UpHoleStep(a: seq<int>, n: nat, h: nat, d: int)
    requires n < |a| && UpHole(a, n, h, d)
    requires h >= 2 && d < a[h / 2]
    ensures UpHole(a[h := a[h / 2]], n, h / 2, d)
  {
  }

  /** Once the hole is the root or d is no smaller than its parent, filling it gives a heap. */
  lemma UpHoleFill(a: seq<int>, n: nat, h: nat, d: int)
    requires n < |a| && UpHole(a, n, h, d)
    requires h == 1 || a[h / 2] <= d
    ensures HeapOrdered(a[h := d], n)
  {
  }

  /**
   * The state of the downward hole walk of GetTop: slots 1..n hold a heap
   * with a hole at h that the value v is to fill.  Apart from the hole,
   * nodes are ordered; the hole's parent is no larger than v nor than the
   * hole's children.
   */
  ghost predicate DownHole(a: seq<int>, n: nat, h: nat, v: int)
    requires n < |a|
  {
    1 <= h <= n &&
    (forall p, c :: 1 <= p < c <= n && c / 2 == p && c != h && p != h ==> a[p] <= a[c]) &&
    (h >= 2 ==> a[h / 2] <= v) &&
    (h >= 2 ==> forall m :: 2 <= m <= n && m / 2 == h ==> a[h / 2] <= a[m])
  }

  /** A hole at the root of a heap starts the walk. */
  lemma DownHoleStart(a: seq<int>, n: nat, v: int)
    requires 1 <= n && n + 1 < |a| && HeapOrdered(a, n + 1)
    ensures DownHole(a, n, 1, v)
  {
  }

  /**
   * Moving the value of child c up into the hole, the hole goes down to c,
   * provided c is the smaller child (the only one, or either of two equal
   * ones) and v is no smaller than it.
   */
  lemma DownHoleStep(a: seq<int>, n: nat, h: nat, c: nat, v: int)
    requires n < |a| && DownHole(a, n, h, v)
    requires c != 0 && (c == Left(n, h) || c == Right(n, h)) && a[c] <= v
    requires Left(n, h) != 0 ==> a[c] <= a[Left(n, h)]
    requires Right(n, h) != 0 ==> a[c] <= a[Right(n, h)]
    ensures DownHole(a[h := a[c]], n, c, v)
  {
  }

  /** Once v is below all of the hole's children, filling it gives a heap. */
  lemma DownHoleFill(a: seq<int>, n: nat, h: nat, v: int)
    requires n < |a| && DownHole(a, n, h, v)
    requires Left(n, h) != 0 ==> v < a[Left(n, h)]
    requires Right(n, h) != 0 ==> v < a[Right(n, h)]
    ensures HeapOrdered(a[h := v], n)
  {
  }

  /**
   * The sequence s lists slots 1..n of a, except possibly slot h, the hole
   * (h == 0: no hole).
   */
  ghost predicate HoldsBut(a: seq<int>, n: nat, h: nat, s: seq<int>)
    requires n < |a|
  {
    |s| == n && forall k :: 1 <= k <= n && k != h ==> s[k - 1] == a[k]
  }

  /** The sequence s lists slots 1..n of a. */
  ghost predicate Holds(a: seq<int>, n: nat, s: seq<int>)
    requires n < |a|
  {
    HoldsBut(a, n, 0, s)
  }

  /** Opening a hole just after the n - 1 listed slots, for the value d. */
  lemma OpenBottom(a: seq<int>, n: nat, s: seq<int>, d: int)
    requires 1 <= n < |a| && Holds(a, n - 1, s)
    ensures HoldsBut(a, n, n, s + [d])
  {
  }

  /**
   * Taking the last of n + 1 listed slots as the value for a hole at the
   * root, the n slots left list the old values less the root's.
   */
  lemma OpenRoot(a: seq<int>, n: nat, s: seq<int>)
    requires 1 <= n && n + 1 < |a| && Holds(a, n + 1, s)
    ensures s[0] == a[1] && s[n] == a[n + 1]
    ensures HoldsBut(a, n, 1, [s[n]] + s[1..n])
    ensures multiset([s[n]] + s[1..n]) == multiset(s) - multiset{s[0]}
  {
    assert s == [s[0]] + s[1..n] + [s[n]];
  }

  /**
   * Copying the value of slot c into the hole h moves the hole to c; the
   * listed values swap places, so none is lost or gained.
   */
  lemma MoveHole(a: seq<int>, n: nat, h: nat, c: nat, s: seq<int>)
    requires n < |a| && 1 <= h <= n && 1 <= c <= n && h != c
    requires HoldsBut(a, n, h, s)
    ensures HoldsBut(a[h := a[c]], n, c, s[h - 1 := s[c - 1]][c - 1 := s[h - 1]])
    ensures multiset(s[h - 1 := s[c - 1]][c - 1 := s[h - 1]]) == multiset(s)
  {
  }

  /** Writing the listed value into the hole leaves no hole. */
  lemma FillHole(a: seq<int>, n: nat, h: nat, s: seq<int>)
    requires n < |a| && 1 <= h <= n && HoldsBut(a, n, h, s)
    ensures Holds(a[h := s[h - 1]], n, s)
  {
  }

  class Heap {
    /** The stored timestamps in slot order: the public view of the heap. */
    ghost var Contents: seq<int>

    var data: array<int>
    /** Number of nodes; they occupy data[1..size]. */
    var size: nat

    /** Capacity, heap order, and the public view tied to slots 1..size. */
    ghost predicate Valid()
      reads this, data
    {
      data.Length == MaxHeap && size < MaxHeap && HeapOrdered(data[..], size) &&
      Holds(data[..], size, Contents)
    }

    /** A heap as the program's static storage starts: no nodes. */
    constructor ()
      ensures Valid() && fresh(data)
      ensures size == 0 && Contents == []
    {
      data := new int[MaxHeap];
      size := 0;
      Contents := [];
    }

    /** Adds d, moving a hole from the new last slot towards the root. */
    method Insert(d: int)
      requires Valid()
      requires size < MaxHeap - 1
      modifies this, data
      ensures Valid() && data == old(data)
      ensures size == old(size) + 1
      ensures multiset(Contents) == multiset(old(Contents)) + multiset{d}
      // only values strictly larger than d move, so a value equal to d stays where it was
      ensures forall k :: 1 <= k <= old(size) && old(data[k]) <= d ==> data[k] == old(data[k])
    {
      if size == 0 {
        size := size + 1;
        data[1] := d;
        Contents := [d];
        return;
      }
      size := size + 1;
      // the values once the hole is filled with d, in slot order
      ghost var vals := Contents + [d];
      UpHoleStart(data[..], size, d);
      OpenBottom(data[..], size, Contents, d);
      vals := SiftUp(d, vals);
      Contents := vals;
    }

    /**
     * The hole-moving loop of Insert: starting from the new bottom slot,
     * moves each parent larger than d one level down until the hole reaches
     * the root or a parent no larger than d, and then fills it with d.
     * `vals0` lists the slots with the hole filled; so does `vals` afterwards.
     */
    method SiftUp(d: int, ghost vals0: seq<int>) returns (ghost vals: seq<int>)
      requires data.Length == MaxHeap && 1 <= size < MaxHeap
      requires UpHole(data[..], size, size, d)
      requires HoldsBut(data[..], size, size, vals0) && vals0[size - 1] == d
      modifies data
      ensures HeapOrdered(data[..], size) && Holds(data[..], size, vals)
      ensures multiset(vals) == multiset(vals0)
      ensures Undisplaced(old(data[..]), data[..], size, d)
    {
      vals := vals0;
      var i := size;
      var j := i;
      ghost var before := data[..];
      while true
        invariant UpHole(data[..], size, i, d)
        invariant HoldsBut(data[..], size, i, vals) && vals[i - 1] == d
        invariant multiset(vals) == multiset(vals0)
        invariant before == old(data[..])
        invariant i == size || before[i] > d
        invariant Undisplaced(before, data[..], size, d)
        decreases i
      {
        j := i;
        i := Parent(size, i);
        if i == 0 {
          break;
        }
        if Compare(d, data[i]) >= 0 {
          break;
        }
        ghost var a := data[..];
        vals := UpStep(a, size, j, d, vals, before);
        data[j] := data[i];
        assert data[..] == a[j := a[i]];
      }
      // the hole j has reached the root or a parent no larger than d
      ghost var a := data[..];
      UpFill(a, size, j, d, vals, before);
      data[j] := d;
      assert data[..] == a[j := d];
    }

    /** Removes and returns the root, re-placing the last node by moving a hole down from the root. */
    method GetTop() returns (top: int)
      requires Valid()
      requires size > 0
      modifies this, data
      ensures Valid() && data == old(data)
      ensures size == old(size) - 1
      ensures top == old(data[1])
      ensures top in multiset(old(Contents))
      ensures forall x :: x in multiset(old(Contents)) ==> top <= x
      ensures multiset(Contents) == multiset(old(Contents)) - multiset{top}
    {
      top := data[1];
      RootBoundsContents(data[..], size, Contents);
      if size == 1 {
        size := size - 1;
        Contents := [];
        return;
      }
      var last := data[size];
      size := size - 1;
      OpenRoot(data[..], size, Contents);
      // the values once the hole is filled with last, in slot order
      ghost var vals := [last] + Contents[1..size];
      DownHoleStart(data[..], size, last);
      vals := SiftDown(last, vals);
      Contents := vals;
    }

    /**
     * The rearranging loop of GetTop: with a hole at the root that `last` is
     * to fill, moves the hole down past every child no larger than `last`
     * (the smaller of two, the left one on a tie) and then fills it.
     * `vals0` lists the slots with the hole filled; so does `vals` afterwards.
     */
    method SiftDown(last: int, ghost vals0: seq<int>) returns (ghost vals: seq<int>)
      requires data.Length == MaxHeap && 1 <= size < MaxHeap
      requires DownHole(data[..], size, 1, last)
      requires HoldsBut(data[..], size, 1, vals0) && vals0[0] == last
      modifies data
      ensures HeapOrdered(data[..], size) && Holds(data[..], size, vals)
      ensures multiset(vals) == multiset(vals0)
    {
      vals := vals0;
      var i := 1;
      while true
        invariant DownHole(data[..], size, i, last)
        invariant HoldsBut(data[..], size, i, vals) && vals[i - 1] == last
        invariant multiset(vals) == multiset(vals0)
        decreases size - i
      {
        var j := Left(size, i);
        var k := Right(size, i);
        // a right child comes with a left child, so the cases below are all the cases
        RightImpliesLeft(size, i);
        // the child whose value moves up into the hole, or 0 when the hole stays
        var c := 0;
        if j != 0 && k != 0 {
          if Compare(last, data[j]) < 0 && Compare(last, data[k]) < 0 {
            c := 0;
          } else if Compare(data[j], data[k]) <= 0 {
            c := j;
          } else {
            c := k;
          }
        } else if j != 0 {
          if Compare(last, data[j]) < 0 {
            c := 0;
          } else {
            c := j;
          }
        }
        if c == 0 {
          DownHoleFill(data[..], size, i, last);
          break;
        }
        ghost var a := data[..];
        vals := DownStep(a, size, i, c, last, vals);
        data[i] := data[c];
        assert data[..] == a[i := a[c]];
        i := c;
      }
      // the hole has reached a node whose children are all above last
      ghost var a := data[..];
      FillHole(a, size, i, vals);
      data[i] := last;
      assert data[..] == a[i := last];
    }
  }

  /** Two roots taken one after the other come out in non-decreasing order. */
  method ConsecutiveTops(h: Heap) returns (first: int, second: int)
    requires h.Valid() && h.size >= 2
    modifies h, h.data
    ensures h.Valid() && h.size == old(h.size) - 2
    ensures first <= second
  {
    first := h.GetTop();
    second := h.GetTop();
  }

  /** The values are in non-decreasing order. */
  ghost predicate Sorted(s: seq<int>)
  {
    forall i, j :: 0 <= i < j < |s| ==> s[i] <= s[j]
  }

  /**
   * Appending the least of the values still stored to a sorted prefix no
   * larger than any of them keeps both facts.
   */
  lemma TakeSmallest(tops: seq<int>, rest: multiset<int>, t: int, rest': multiset<int>)
    requires Sorted(tops) && (forall x, y :: x in tops && y in rest ==> x <= y)
    requires t in rest && (forall y :: y in rest ==> t <= y) && rest' == rest - multiset{t}
    ensures Sorted(tops + [t])
    ensures forall x, y :: x in tops + [t] && y in rest' ==> x <= y
  {
    var s := tops + [t];
    forall i, j | 0 <= i < j < |s|
      ensures s[i] <= s[j]
    {
      if j == |tops| {
        assert s[i] in tops;
      }
    }
    forall x, y | x in s && y in rest'
      ensures x <= y
    {
      assert y in rest;
    }
  }

  /**
   * Takes the root until the heap is empty: the values come out in
   * non-decreasing order, and they are exactly the values that were stored.
   */
  method Drain(h: Heap) returns (tops: seq<int>)
    requires h.Valid()
    modifies h, h.data
    ensures h.Valid() && h.size == 0
    ensures Sorted(tops) && multiset(tops) == multiset(old(h.Contents))
  {
    tops := [];
    while h.size > 0
      invariant h.Valid() && h.data == old(h.data)
      invariant multiset(tops) + multiset(h.Contents) == multiset(old(h.Contents))
      invariant Sorted(tops)
      invariant forall x, y :: x in tops && y in multiset(h.Contents) ==> x <= y
      decreases h.size
    {
      ghost var rest := h.Contents;
      var t := h.GetTop();
      TakeSmallest(tops, multiset(rest), t, multiset(h.Contents));
      tops := tops + [t];
    }
  }

  /**
   * Every slot below `n` whose value in `before` is at most d still holds
   * that value in `a`.
   */
  ghost predicate Undisplaced(before: seq<int>, a: seq<int>, n: nat, d: int)
    requires n <= |before| && n <= |a|
  {
    forall k :: 1 <= k < n && before[k] <= d ==> a[k] == before[k]
  }

  /**
   * Moving the parent i of the hole j down: the hole held no value at most
   * d, and a parent larger than d had been larger from the start.
   */
  lemma UndisplacedStep(before: seq<int>, a: seq<int>, n: nat, j: nat, i: nat, d: int)
    requires n < |before| && n < |a| && 1 <= i < j <= n
    requires Undisplaced(before, a, n, d) && (j == n || before[j] > d) && a[i] > d
    ensures Undisplaced(before, a[j := a[i]], n, d) && before[i] > d
  {
  }

  /** Filling the hole j with d changes no slot that held a value at most d. */
  lemma UndisplacedFill(before: seq<int>, a: seq<int>, n: nat, j: nat, d: int)
    requires n < |before| && n < |a| && 1 <= j <= n
    requires Undisplaced(before, a, n, d) && (j == n || before[j] > d)
    ensures Undisplaced(before, a[j := d], n, d)
  {
  }

  /** One step of the loop of SiftUp: the hole j moves to its parent, which is larger than d. */
  lemma UpStep(a: seq<int>, n: nat, j: nat, d: int, vals: seq<int>, before: seq<int>) returns (vals': seq<int>)
    requires n < |a| && n < |before|
    requires UpHole(a, n, j, d) && j >= 2 && d < a[j / 2]
    requires HoldsBut(a, n, j, vals) && vals[j - 1] == d
    requires Undisplaced(before, a, n, d) && (j == n || before[j] > d)
    ensures UpHole(a[j := a[j / 2]], n, j / 2, d)
    ensures HoldsBut(a[j := a[j / 2]], n, j / 2, vals') && vals'[j / 2 - 1] == d
    ensures multiset(vals') == multiset(vals)
    ensures Undisplaced(before, a[j := a[j / 2]], n, d) && before[j / 2] > d
  {
    UpHoleStep(a, n, j, d);
    MoveHole(a, n, j, j / 2, vals);
    UndisplacedStep(before, a, n, j, j / 2, d);
    vals' := vals[j - 1 := vals[j / 2 - 1]][j / 2 - 1 := vals[j - 1]];
  }

  /** The end of SiftUp: filling the hole j with d leaves a heap holding `vals`. */
  lemma UpFill(a: seq<int>, n: nat, j: nat, d: int, vals: seq<int>, before: seq<int>)
    requires n < |a| && n < |before|
    requires UpHole(a, n, j, d) && (j == 1 || a[j / 2] <= d)
    requires HoldsBut(a, n, j, vals) && vals[j - 1] == d
    requires Undisplaced(before, a, n, d) && (j == n || before[j] > d)
    ensures HeapOrdered(a[j := d], n) && Holds(a[j := d], n, vals)
    ensures Undisplaced(before, a[j := d], n, d)
  {
    UpHoleFill(a, n, j, d);
    FillHole(a, n, j, vals);
    UndisplacedFill(before, a, n, j, d);
  }

  /** One step of the loop of SiftDown: the hole i moves to its child c, which is no larger than last. */
  lemma DownStep(a: seq<int>, n: nat, i: nat, c: nat, last: int, vals: seq<int>) returns (vals': seq<int>)
    requires n < |a|
    requires DownHole(a, n, i, last)
    requires c != 0 && (c == Left(n, i) || c == Right(n, i)) && a[c] <= last
    requires Left(n, i) != 0 ==> a[c] <= a[Left(n, i)]
    requires Right(n, i) != 0 ==> a[c] <= a[Right(n, i)]
    requires HoldsBut(a, n, i, vals) && vals[i - 1] == last
    ensures DownHole(a[i := a[c]], n, c, last)
    ensures HoldsBut(a[i := a[c]], n, c, vals') && vals'[c - 1] == last
    ensures multiset(vals') == multiset(vals)
  {
    DownHoleStep(a, n, i, c, last);
    MoveHole(a, n, i, c, vals);
    vals' := vals[i - 1 := vals[c - 1]][c - 1 := vals[i - 1]];
  }

  /** The heap of the example: 105, 101, 110 and 102 inserted, in that order, into an empty heap. */
  method ExampleHeap() returns (h: Heap)
    ensures fresh(h) && fresh(h.data) && h.Valid()
    ensures h.size == 4 && multiset(h.Contents) == multiset{101, 102, 105, 110}
  {
    h := new Heap();
    h.Insert(105);
    h.Insert(101);
    h.Insert(110);
    h.Insert(102);
  }

  /** Taking the root four times out of the example heap. */
  method DrainExample(h: Heap) returns (tops: seq<int>)
    requires h.Valid() && h.size == 4 && multiset(h.Contents) == multiset{101, 102, 105, 110}
    modifies h, h.data
    ensures tops == [101, 102, 105, 110] && h.size == 0
  {
    var a := h.GetTop();
    assert a == 101 by {
      assert 101 in multiset{101, 102, 105, 110};
    }
    var b := h.GetTop();
    assert b == 102 by {
      assert 102 in multiset{102, 105, 110};
    }
    var c := h.GetTop();
    assert c == 105 by {
      assert 105 in multiset{105, 110};
    }
    var d := h.GetTop();
    tops := [a, b, c, d];
  }

  /** Four timestamps inserted out of order into an empty heap come back smallest first. */
  method ExtractionOrder() returns (tops: seq<int>)
    ensures tops == [101, 102, 105, 110]
  {
    var h := ExampleHeap();
    tops := DrainExample(h);
  }
}
