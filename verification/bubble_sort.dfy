/** `BubbleSort.Sort<T>(T[], Comparison<T>)`: passes of neighbour exchanges over a shrinking
    prefix, stopping early after a pass that exchanges nothing. */
module BubbleSort {
  import opened Order

  /** One pass of the inner loop over the prefix `[0, m)` (the C# `m = n - i`). Neighbours are
      exchanged only when they compare `> 0`, so a greatest element of the prefix ends at
      `m - 1`, equal elements never cross, and a pass without an exchange changes nothing and
      has seen a sorted prefix. */
  method Pass<T(!new)>(a: seq<T>, m: int, cmp: (T, T) -> int) returns (r: seq<T>, swapped: bool)
    requires TotalPreorder(cmp)
    requires 1 <= m <= |a|
    ensures |r| == |a| && r[m..] == a[m..]
    ensures multiset(r[..m]) == multiset(a[..m]) && Stable(cmp, a, r)
    ensures forall k :: 0 <= k < m ==> Leq(cmp, r[k], r[m - 1])
    ensures !swapped ==> r == a && SortedBy(cmp, a[..m])
  {
    r := a;
    swapped := false;
    var j := 0;
    while j < m - 1
      invariant Bubbling(cmp, a, m, r, j, swapped)
    {
      r, swapped := Compare(cmp, a, m, r, j, swapped);
      j := j + 1;
    }
    EndPass(cmp, a, m, r, swapped);
  }

  /** The state of a pass after comparing the neighbours up to `j`: the prefix holds a
      greatest element of `[0, j]` at `j`, the array is a stable permutation of the input that
      differs from it only inside `[0, m)`, and until the first exchange the input is untouched
      and sorted up to `j`. */
  ghost predicate Bubbling<T(!new)>(cmp: (T, T) -> int, a: seq<T>, m: int, r: seq<T>, j: int, swapped: bool) {
    && 1 <= m <= |a| && 0 <= j <= m - 1
    && |r| == |a| && r[m..] == a[m..]
    && multiset(r) == multiset(a) && Stable(cmp, a, r)
    && (forall k {:trigger r[k]} :: 0 <= k <= j ==> Leq(cmp, r[k], r[j]))
    && (!swapped ==> r == a)
    && (!swapped ==> forall p, q {:trigger a[p], a[q]} :: 0 <= p < q <= j ==> Leq(cmp, a[p], a[q]))
  }

  /** One iteration of the inner loop: `array[j]` and `array[j + 1]` are exchanged when they
      compare `> 0`. */
  method Compare<T(!new)>(cmp: (T, T) -> int, a: seq<T>, m: int, r: seq<T>, j: int, swapped: bool)
    returns (r': seq<T>, swapped': bool)
    requires TotalPreorder(cmp) && Bubbling(cmp, a, m, r, j, swapped) && j < m - 1
    ensures Bubbling(cmp, a, m, r', j + 1, swapped')
  {
    if !Leq(cmp, r[j], r[j + 1]) {
      SwapNeighboursStable(cmp, r, j);
      StableTrans(cmp, a, r, Swap(r, j, j + 1));
      r' := Swap(r, j, j + 1);
      swapped' := true;
    } else {
      r', swapped' := r, swapped;
    }
  }

  /** The end of a pass: what `Pass` promises. */
  lemma EndPass<T(!new)>(cmp: (T, T) -> int, a: seq<T>, m: int, r: seq<T>, swapped: bool)
    requires Bubbling(cmp, a, m, r, m - 1, swapped)
    ensures |r| == |a| && r[m..] == a[m..]
    ensures multiset(r[..m]) == multiset(a[..m]) && Stable(cmp, a, r)
    ensures forall k :: 0 <= k < m ==> Leq(cmp, r[k], r[m - 1])
    ensures !swapped ==> r == a && SortedBy(cmp, a[..m])
  {
    SliceMultiset(r, a, 0, m);
    if !swapped {
      assert forall p :: 0 <= p < m ==> a[..m][p] == a[p];
    }
  }

  /** A sorted prefix, a sorted suffix, and every prefix element in order with every suffix
      element: the whole sequence is sorted. */
  lemma JoinSorted<T>(cmp: (T, T) -> int, s: seq<T>, m: int)
    requires 0 <= m <= |s|
    requires SortedBy(cmp, s[..m]) && SortedBy(cmp, s[m..])
    requires forall p, q :: 0 <= p < m <= q < |s| ==> Leq(cmp, s[p], s[q])
    ensures SortedBy(cmp, s)
  {
    forall p, q | 0 <= p < q < |s|
      ensures Leq(cmp, s[p], s[q])
    {
      if q < m {
        assert s[..m][p] == s[p] && s[..m][q] == s[q];
      } else if m <= p {
        assert s[m..][p - m] == s[p] && s[m..][q - m] == s[q];
      }
    }
  }

  /** The whole routine: a stable sorted permutation; arrays of length 0 or 1 are returned as
      they are. After `i` passes the last `i` positions hold the largest elements in order. */
  method Sort<T(!new)>(a: seq<T>, cmp: (T, T) -> int) returns (r: seq<T>)
    requires TotalPreorder(cmp)
    ensures SortedBy(cmp, r) && multiset(r) == multiset(a) && Stable(cmp, a, r)
    ensures |a| <= 1 ==> r == a
  {
    r := a;
    if |r| <= 1 {
      return;
    }
    var n := |r|;
    var i := 0;
    while i < n - 1
      invariant 0 <= i <= n - 1 && |r| == n
      invariant multiset(r) == multiset(a) && Stable(cmp, a, r)
      invariant SortedBy(cmp, r[n - i..])
      invariant forall p, q :: 0 <= p < n - i <= q < n ==> Leq(cmp, r[p], r[q])
    {
      var m := n - i;
      ghost var before := r;
      var swapped;
      r, swapped := Pass(r, m, cmp);
      StableTrans(cmp, a, before, r);
      SliceMultiset(before, r, 0, m);
      if !swapped {
        JoinSorted(cmp, r, m);
        break;
      }
      forall q | m <= q < n
        ensures forall p :: 0 <= p < m ==> Leq(cmp, r[p], r[q])
      {
        assert forall p :: 0 <= p < m ==> Leq(cmp, before[..m][p], before[q]);
        UpperBoundCarries(cmp, before[..m], r[..m], r[q]);
        assert forall p :: 0 <= p < m ==> r[..m][p] == r[p];
      }
      assert r[m - 1..] == [r[m - 1]] + r[m..];
      i := i + 1;
    }
    if i == n - 1 {
      JoinSorted(cmp, r, 1);
    }
  }
}
