/** `SelectionSort.Sort(int[])`: for each position `i`, the least element of the unsorted suffix
    `array[i..]` is found and swapped into position `i`. */
module SelectionSort {
  import opened Order

  /** The inner loop: the index of the first least element of `a[i..]`. The strict `<` keeps the
      earliest of several equal minima. */
  method MinIndex(a: seq<int>, i: int) returns (m: int)
    requires 0 <= i < |a|
    ensures i <= m < |a|
    ensures forall k :: i <= k < |a| ==> a[m] <= a[k]
    ensures forall k :: i <= k < m ==> a[m] < a[k]
  {
    m := i;
    var j := i + 1;
    while j < |a|
      invariant i <= m < j <= |a|
      invariant forall k :: i <= k < j ==> a[m] <= a[k]
      invariant forall k :: i <= k < m ==> a[m] < a[k]
    {
      if a[j] < a[m] {
        m := j;
      }
      j := j + 1;
    }
  }

  /** The whole routine. After step `i` the prefix `[0, i]` holds the `i + 1` least elements in
      order; the last position then needs no step of its own. */
  method Sort(a: seq<int>) returns (r: seq<int>)
    ensures Sorted(r) && multiset(r) == multiset(a)
    ensures |a| <= 1 ==> r == a
  {
    r := a;
    var n := |r|;
    var i := 0;
    while i < n - 1
      invariant 0 <= i <= n == |r|
      invariant multiset(r) == multiset(a)
      invariant forall p, q :: 0 <= p < i && p < q < n ==> r[p] <= r[q]
      invariant n <= 1 ==> r == a
    {
      var m := MinIndex(r, i);
      if m != i {
        r := Swap(r, i, m);
      }
      i := i + 1;
    }
  }
}
