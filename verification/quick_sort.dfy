/** `QuickSort.Sort<T>(T[], left, right, Comparison<T>)`: Lomuto partition around the last element
    of the range, then recursion on both sides of the pivot. */
module QuickSort {
  import opened Order

  /** The Lomuto partition of `[left, right]` around `pivot = a[right]`: the returned index holds
      the pivot, everything before it (within the range) compares `<= 0` against it, everything
      after it compares `> 0`, and only the range is permuted. */
  method Partition<T>(a: seq<T>, left: int, right: int, cmp: (T, T) -> int) returns (r: seq<T>, p: int)
    requires 0 <= left <= right < |a|
    ensures left <= p <= right && |r| == |a| && r[p] == a[right]
    ensures forall k :: left <= k < p ==> Leq(cmp, r[k], r[p])
    ensures forall k :: p < k <= right ==> !Leq(cmp, r[k], r[p])
    ensures forall k :: 0 <= k < |a| && !(left <= k <= right) ==> r[k] == a[k]
    ensures multiset(r[left..right + 1]) == multiset(a[left..right + 1])
  {
    var pivot := a[right];
    var i := left - 1;
    var j := left;
    r := a;
    while j < right
      invariant Partitioning(cmp, a, r, left, right, i, j)
    {
      PartitionStep(cmp, a, r, left, right, i, j);
      if Leq(cmp, r[j], pivot) {
        i := i + 1;
        r := Swap(r, i, j);
      }
      j := j + 1;
    }
    r, p := PlacePivot(cmp, a, r, left, right, i);
  }

  /** The state of the partition loop once `j` has reached the scan position: `[left, i]` holds
      elements not above the pivot `a[right]`, `(i, j)` elements above it, the pivot has not
      moved, and only `[left, right)` has been permuted. */
  ghost predicate Partitioning<T>(cmp: (T, T) -> int, a: seq<T>, r: seq<T>, left: int, right: int,
                                  i: int, j: int)
    requires 0 <= left <= right < |a|
  {
    && left - 1 <= i < j <= right && |r| == |a| && multiset(r) == multiset(a)
    && (forall k {:trigger r[k]} :: 0 <= k < |a| && !(left <= k < right) ==> r[k] == a[k])
    && (forall k {:trigger r[k]} :: left <= k <= i ==> Leq(cmp, r[k], a[right]))
    && (forall k {:trigger r[k]} :: i < k < j ==> !Leq(cmp, r[k], a[right]))
  }

  /** One iteration: an element not above the pivot is swapped to the end of the low part,
      any other one joins the high part where it is. */
  lemma PartitionStep<T>(cmp: (T, T) -> int, a: seq<T>, r: seq<T>, left: int, right: int,
                         i: int, j: int)
    requires 0 <= left <= right < |a| && j < right
    requires Partitioning(cmp, a, r, left, right, i, j)
    ensures Leq(cmp, r[j], a[right]) ==>
              Partitioning(cmp, a, Swap(r, i + 1, j), left, right, i + 1, j + 1)
    ensures !Leq(cmp, r[j], a[right]) ==> Partitioning(cmp, a, r, left, right, i, j + 1)
  {
  }

  /** After the loop, `array[i + 1]` and `array[right]` are swapped: the pivot lands between
      the two parts, which meets the contract of `Partition`. */
  method PlacePivot<T>(cmp: (T, T) -> int, a: seq<T>, r: seq<T>, left: int, right: int, i: int)
    returns (r': seq<T>, p: int)
    requires 0 <= left <= right < |a|
    requires Partitioning(cmp, a, r, left, right, i, right)
    ensures left <= p <= right && |r'| == |a| && r'[p] == a[right]
    ensures forall k :: left <= k < p ==> Leq(cmp, r'[k], r'[p])
    ensures forall k :: p < k <= right ==> !Leq(cmp, r'[k], r'[p])
    ensures forall k :: 0 <= k < |a| && !(left <= k <= right) ==> r'[k] == a[k]
    ensures multiset(r'[left..right + 1]) == multiset(a[left..right + 1])
  {
    r' := Swap(r, i + 1, right);
    p := i + 1;
    assert r'[..left] == a[..left] && r'[right + 1..] == a[right + 1..];
    SliceMultiset(r', a, left, right + 1);
  }

  /** A sorted slice `[lo, p)` of elements not above `s[p]`, followed by `s[p]` and a sorted
      slice `(p, hi)` of elements not below it, is a sorted slice `[lo, hi)`. */
  lemma AroundPivot<T(!new)>(cmp: (T, T) -> int, s: seq<T>, lo: int, p: int, hi: int)
    requires TotalPreorder(cmp)
    requires 0 <= lo <= p < hi <= |s|
    requires SortedBy(cmp, s[lo..p]) && SortedBy(cmp, s[p + 1..hi])
    requires forall k :: lo <= k < p ==> Leq(cmp, s[k], s[p])
    requires forall k :: p < k < hi ==> Leq(cmp, s[p], s[k])
    ensures SortedBy(cmp, s[lo..hi])
  {
    forall x, y | lo <= x < y < hi
      ensures Leq(cmp, s[x], s[y])
    {
      if y < p {
        assert s[lo..p][x - lo] == s[x] && s[lo..p][y - lo] == s[y];
      } else if p < x {
        assert s[p + 1..hi][x - p - 1] == s[x] && s[p + 1..hi][y - p - 1] == s[y];
      }
    }
  }

  /** The three stages of one call (partition, left recursion, right recursion) compose into a
      sort of the slice `[left, right]`. */
  lemma Assemble<T(!new)>(cmp: (T, T) -> int, a: seq<T>, r1: seq<T>, r2: seq<T>, r3: seq<T>,
                         left: int, p: int, right: int)
    requires TotalPreorder(cmp)
    requires 0 <= left <= p <= right < |a| == |r1|
    requires forall k :: left <= k < p ==> Leq(cmp, r1[k], r1[p])
    requires forall k :: p < k <= right ==> !Leq(cmp, r1[k], r1[p])
    requires forall k :: 0 <= k < |a| && !(left <= k <= right) ==> r1[k] == a[k]
    requires multiset(r1[left..right + 1]) == multiset(a[left..right + 1])
    requires SortsSlice(cmp, r1, r2, left, p)
    requires SortsSlice(cmp, r2, r3, p + 1, right + 1)
    ensures SortsSlice(cmp, a, r3, left, right + 1)
  {
    assert r3[left..p] == r2[left..p];
    assert r2[p + 1..right + 1] == r1[p + 1..right + 1];
    AssembleSorted(cmp, r1, r2[left..p], r3, left, p, right);
    AssembleBag(r1, r3, left, p, right);
  }

  /** The permutation half of `Assemble`: the slice is the same bag before and after, taken as
      left part, pivot and right part. */
  lemma AssembleBag<T>(r1: seq<T>, r3: seq<T>, left: int, p: int, right: int)
    requires 0 <= left <= p <= right < |r1| == |r3| && r3[p] == r1[p]
    requires multiset(r3[left..p]) == multiset(r1[left..p])
    requires multiset(r3[p + 1..right + 1]) == multiset(r1[p + 1..right + 1])
    ensures multiset(r3[left..right + 1]) == multiset(r1[left..right + 1])
  {
    SplitAt(r3, left, p, right + 1);
    SplitAt(r1, left, p, right + 1);
  }

  /** The sortedness half of `Assemble`: both sides keep their bound against the pivot through
      their own sort, and the pivot sits between them. */
  lemma AssembleSorted<T(!new)>(cmp: (T, T) -> int, r1: seq<T>, mid: seq<T>, r3: seq<T>,
                               left: int, p: int, right: int)
    requires TotalPreorder(cmp)
    requires 0 <= left <= p <= right < |r1| == |r3| && r3[p] == r1[p]
    requires forall k :: left <= k < p ==> Leq(cmp, r1[k], r1[p])
    requires forall k :: p < k <= right ==> !Leq(cmp, r1[k], r1[p])
    requires mid == r3[left..p] && multiset(mid) == multiset(r1[left..p]) && SortedBy(cmp, mid)
    requires multiset(r3[p + 1..right + 1]) == multiset(r1[p + 1..right + 1])
    requires SortedBy(cmp, r3[p + 1..right + 1])
    ensures SortedBy(cmp, r3[left..right + 1])
  {
    assert forall k :: left <= k < p ==> r1[left..p][k - left] == r1[k];
    UpperBoundCarries(cmp, r1[left..p], mid, r1[p]);
    assert forall k :: left <= k < p ==> mid[k - left] == r3[k];
    forall k | p < k <= right
      ensures Leq(cmp, r1[p], r1[k])
    {
      assert !Leq(cmp, r1[k], r1[p]);
    }
    assert forall k :: p < k <= right ==> r1[p + 1..right + 1][k - p - 1] == r1[k];
    LowerBoundCarries(cmp, r1[p + 1..right + 1], r3[p + 1..right + 1], r1[p]);
    assert forall k :: p < k <= right ==> r3[p + 1..right + 1][k - p - 1] == r3[k];
    AroundPivot(cmp, r3, left, p, right + 1);
  }

  /** The whole routine over `[left, right]`. Nothing happens for arrays of length 0 or 1 or
      when `left >= right`; otherwise the range becomes a sorted permutation of itself and the
      rest of the array is untouched. */
  method Sort<T(!new)>(a: seq<T>, left: int, right: int, cmp: (T, T) -> int) returns (r: seq<T>)
    requires TotalPreorder(cmp)
    requires 1 < |a| && left < right ==> 0 <= left && right < |a|
    ensures |a| <= 1 || right <= left ==> r == a
    ensures 0 <= left <= right + 1 <= |a| ==> SortsSlice(cmp, a, r, left, right + 1)
    decreases right - left
  {
    r := a;
    if |r| <= 1 {
      return;
    }
    if left < right {
      var p;
      var r1 := r;
      r1, p := Partition(r, left, right, cmp);
      var r2 := Sort(r1, left, p - 1, cmp);
      r := Sort(r2, p + 1, right, cmp);
      Assemble(cmp, a, r1, r2, r, left, p, right);
    }
  }
}
