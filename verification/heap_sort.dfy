/** `HeapSort.Sort<T>(T[], Comparison<T>)`: build a max-heap in place, then repeatedly swap the
    root to the end of the shrinking heap and sift the new root down. Position `k > 0` of the
    heap has its parent at `(k - 1) / 2`; the children of `i` are `2i + 1` and `2i + 2`. */
module HeapSort {
  import opened Order

  /** The heap order holds for every child whose parent is at index `lo` or later, within the
      first `size` positions. `lo = 0` makes the whole prefix a max-heap. */
  ghost predicate HeapFrom<T>(cmp: (T, T) -> int, a: seq<T>, size: int, lo: int)
    requires size <= |a|
  {
    forall p, k :: 0 <= lo <= p && k < size && (k == 2 * p + 1 || k == 2 * p + 2) ==> Leq(cmp, a[k], a[p])
  }

  /** `HeapFrom` with the possible exception of the children of `i`. */
  ghost predicate HeapExcept<T>(cmp: (T, T) -> int, a: seq<T>, size: int, lo: int, i: int)
    requires size <= |a|
  {
    forall p, k :: 0 <= lo <= p && p != i && k < size && (k == 2 * p + 1 || k == 2 * p + 2) ==> Leq(cmp, a[k], a[p])
  }

  /** The children of `i` do not exceed the parent of `i` (when that parent is in the heap part). */
  ghost predicate BelowGrandparent<T>(cmp: (T, T) -> int, a: seq<T>, size: int, lo: int, i: int)
    requires size <= |a|
  {
    1 <= i && lo <= (i - 1) / 2 ==>
      forall k :: k < size && (k == 2 * i + 1 || k == 2 * i + 2) ==> Leq(cmp, a[k], a[(i - 1) / 2])
  }

  /** `Heapify(array, heapSize, i)`: sift the element at `i` down until it is not smaller than
      either child. If the subtrees below `i` are heaps (everything from `lo` on is, except
      possibly at `i`), the whole part from `lo` is a heap afterwards. Only positions in
      `[i, heapSize)` move. The ghost `lo` is 0 in the extraction phase and `i` itself in the
      build phase. */
  method Heapify<T(!new)>(a: seq<T>, heapSize: int, i: int, cmp: (T, T) -> int, ghost lo: int)
    returns (r: seq<T>)
    requires TotalPreorder(cmp)
    requires 0 <= lo <= i && heapSize <= |a|
    requires HeapExcept(cmp, a, heapSize, lo, i) && BelowGrandparent(cmp, a, heapSize, lo, i)
    ensures |r| == |a| && HeapFrom(cmp, r, heapSize, lo)
    ensures multiset(r) == multiset(a)
    ensures forall k :: 0 <= k < |a| && !(i <= k < heapSize) ==> r[k] == a[k]
    decreases heapSize - i
  {
    var largest := i;
    var left := 2 * i + 1;
    var right := 2 * i + 2;
    if left < heapSize && !Leq(cmp, a[left], a[largest]) {
      largest := left;
    }
    if right < heapSize && !Leq(cmp, a[right], a[largest]) {
      largest := right;
    }
    if largest != i {
      var s := Swap(a, i, largest);
      SiftStep(cmp, a, heapSize, lo, i, largest);
      r := Heapify(s, heapSize, largest, cmp, lo);
    } else {
      r := a;
      StaysPut(cmp, a, heapSize, lo, i);
    }
  }

  /** When neither child beats the element at `i`, nothing is out of order. */
  lemma StaysPut<T(!new)>(cmp: (T, T) -> int, a: seq<T>, size: int, lo: int, i: int)
    requires 0 <= lo <= i && size <= |a|
    requires HeapExcept(cmp, a, size, lo, i)
    requires 2 * i + 1 < size ==> Leq(cmp, a[2 * i + 1], a[i])
    requires 2 * i + 2 < size ==> Leq(cmp, a[2 * i + 2], a[i])
    ensures HeapFrom(cmp, a, size, lo)
  {
    forall p, k | lo <= p && k < size && (k == 2 * p + 1 || k == 2 * p + 2)
      ensures Leq(cmp, a[k], a[p])
    {
    }
  }

  /** Swapping `i` with its larger child `c` repairs the order at `i`, leaving only the children
      of `c` possibly out of order, and they do not exceed the new element at `i`. */
  lemma SiftStep<T(!new)>(cmp: (T, T) -> int, a: seq<T>, size: int, lo: int, i: int, c: int)
    requires TotalPreorder(cmp)
    requires 0 <= lo <= i && size <= |a|
    requires HeapExcept(cmp, a, size, lo, i) && BelowGrandparent(cmp, a, size, lo, i)
    requires (c == 2 * i + 1 || c == 2 * i + 2) && c < size && !Leq(cmp, a[c], a[i])
    requires 2 * i + 1 < size ==> Leq(cmp, a[2 * i + 1], a[c])
    requires 2 * i + 2 < size ==> Leq(cmp, a[2 * i + 2], a[c])
    ensures HeapExcept(cmp, Swap(a, i, c), size, lo, c)
    ensures BelowGrandparent(cmp, Swap(a, i, c), size, lo, c)
  {
    var s := Swap(a, i, c);
    forall p, k | lo <= p && p != c && k < size && (k == 2 * p + 1 || k == 2 * p + 2)
      ensures Leq(cmp, s[k], s[p])
    {
      if k == c {
        assert Leq(cmp, a[i], a[c]);
      } else if p == i {
        assert Leq(cmp, a[k], a[c]);
      } else if k == i {
        assert (i - 1) / 2 == p;
        assert Leq(cmp, a[c], a[p]);
      }
    }
    assert (c - 1) / 2 == i;
    forall k | k < size && (k == 2 * c + 1 || k == 2 * c + 2)
      ensures Leq(cmp, s[k], s[i])
    {
      assert k != i && k != c && s[k] == a[k];
      assert Leq(cmp, a[k], a[c]);
    }
  }

  /** The root of a max-heap is not smaller than any element of the heap. */
  lemma {:induction false} RootIsMax<T(!new)>(cmp: (T, T) -> int, a: seq<T>, size: int, k: int)
    requires TotalPreorder(cmp)
    requires size <= |a| && HeapFrom(cmp, a, size, 0) && 0 <= k < size
    ensures Leq(cmp, a[k], a[0])
    decreases k
  {
    if k > 0 {
      var p := (k - 1) / 2;
      assert k == 2 * p + 1 || k == 2 * p + 2;
      RootIsMax(cmp, a, size, p);
      assert Leq(cmp, a[k], a[p]);
    }
  }

  /** The build phase: heapifying from the last parent `n / 2 - 1` down to the root turns the
      array into a max-heap, without changing its contents. */
  method BuildHeap<T(!new)>(a: seq<T>, cmp: (T, T) -> int) returns (r: seq<T>)
    requires TotalPreorder(cmp)
    ensures |r| == |a| && HeapFrom(cmp, r, |r|, 0)
    ensures multiset(r) == multiset(a)
  {
    var n := |a|;
    r := a;
    var i := n / 2 - 1;
    while i >= 0
      invariant -1 <= i <= n / 2 - 1 || (n < 2 && i == n / 2 - 1)
      invariant |r| == n && multiset(r) == multiset(a)
      invariant HeapFrom(cmp, r, n, i + 1)
    {
      r := Heapify(r, n, i, cmp, i);
      i := i - 1;
    }
  }

  /** One step of the extraction phase: with a max-heap on `[0, i]` whose elements are not greater
      than the sorted suffix after `i`, moving the root to `i` and sifting down keeps all three
      facts for the heap `[0, i)` and the suffix from `i`. */
  method Extract<T(!new)>(a: seq<T>, i: int, cmp: (T, T) -> int) returns (r: seq<T>)
    requires TotalPreorder(cmp)
    requires 0 < i < |a| && HeapFrom(cmp, a, i + 1, 0)
    requires SortedBy(cmp, a[i + 1..])
    requires forall p, q :: 0 <= p <= i < q < |a| ==> Leq(cmp, a[p], a[q])
    ensures |r| == |a| && multiset(r) == multiset(a)
    ensures HeapFrom(cmp, r, i, 0) && SortedBy(cmp, r[i..])
    ensures forall p, q :: 0 <= p < i <= q < |r| ==> Leq(cmp, r[p], r[q])
  {
    var s := Swap(a, 0, i);
    RootToEnd(cmp, a, i);
    r := Heapify(s, i, 0, cmp, 0);
    SiftKeepsSuffix(cmp, s, r, i);
  }

  /** Swapping the root of the heap `[0, i]` with position `i` extends the sorted suffix by one,
      keeps everything before it not greater, and leaves a heap below the new root. */
  lemma RootToEnd<T(!new)>(cmp: (T, T) -> int, a: seq<T>, i: int)
    requires TotalPreorder(cmp)
    requires 0 < i < |a| && HeapFrom(cmp, a, i + 1, 0)
    requires SortedBy(cmp, a[i + 1..])
    requires forall p, q :: 0 <= p <= i < q < |a| ==> Leq(cmp, a[p], a[q])
    ensures HeapExcept(cmp, Swap(a, 0, i), i, 0, 0) && BelowGrandparent(cmp, Swap(a, 0, i), i, 0, 0)
    ensures SortedBy(cmp, Swap(a, 0, i)[i..])
    ensures forall p, q :: 0 <= p < i <= q < |a| ==> Leq(cmp, Swap(a, 0, i)[p], Swap(a, 0, i)[q])
  {
    var s := Swap(a, 0, i);
    forall k | 0 <= k <= i
      ensures Leq(cmp, a[k], a[0])
    {
      RootIsMax(cmp, a, i + 1, k);
    }
    forall p, q | 0 <= p < q < |s| - i
      ensures Leq(cmp, s[i..][p], s[i..][q])
    {
      if p > 0 {
        assert a[i + 1..][p - 1] == a[i + p] && a[i + 1..][q - 1] == a[i + q];
      }
    }
  }

  /** Sifting down inside `[0, i)` only permutes that prefix, so the suffix from `i` and its
      bound over the prefix survive. */
  lemma SiftKeepsSuffix<T>(cmp: (T, T) -> int, s: seq<T>, r: seq<T>, i: int)
    requires 0 < i < |s| == |r| && multiset(r) == multiset(s)
    requires forall k :: 0 <= k < |s| && !(0 <= k < i) ==> r[k] == s[k]
    requires SortedBy(cmp, s[i..])
    requires forall p, q :: 0 <= p < i <= q < |s| ==> Leq(cmp, s[p], s[q])
    ensures SortedBy(cmp, r[i..])
    ensures forall p, q :: 0 <= p < i <= q < |r| ==> Leq(cmp, r[p], r[q])
  {
    SameSlice(s, r, i, |s|);
    assert s[i..] == s[i..|s|] && r[i..] == r[i..|r|];
    SliceMultiset(s, r, 0, i);
    forall q | i <= q < |r|
      ensures forall p :: 0 <= p < i ==> Leq(cmp, r[p], r[q])
    {
      assert forall p :: 0 <= p < i ==> s[..i][p] == s[p];
      assert s[0..i] == s[..i] && r[0..i] == r[..i];
      UpperBoundCarries(cmp, s[..i], r[..i], r[q]);
      assert forall p :: 0 <= p < i ==> r[..i][p] == r[p];
    }
  }

  /** The whole routine: for arrays of length 0 or 1 nothing happens; otherwise the array ends as
      a sorted permutation of itself (heap sort is not stable, and the model claims no stability). */
  method Sort<T(!new)>(a: seq<T>, cmp: (T, T) -> int) returns (r: seq<T>)
    requires TotalPreorder(cmp)
    ensures SortedBy(cmp, r) && multiset(r) == multiset(a)
    ensures |a| <= 1 ==> r == a
  {
    r := a;
    if |r| <= 1 {
      return;
    }
    var n := |r|;
    r := BuildHeap(r, cmp);
    var i := n - 1;
    while i > 0
      invariant 0 <= i < n == |r| && multiset(r) == multiset(a)
      invariant HeapFrom(cmp, r, i + 1, 0) && SortedBy(cmp, r[i + 1..])
      invariant forall p, q :: 0 <= p <= i < q < n ==> Leq(cmp, r[p], r[q])
    {
      r := Extract(r, i, cmp);
      i := i - 1;
    }
    forall p, q | 0 <= p < q < n
      ensures Leq(cmp, r[p], r[q])
    {
      if p > 0 {
        assert r[1..][p - 1] == r[p] && r[1..][q - 1] == r[q];
      }
    }
  }
}
