/** `InsertionSort.Sort(int[])`: every key `array[i]`, for `i` from 1, is moved left past the
    strictly larger keys in front of it. The array is modelled by its contents; each method
    returns the contents after the writes the C# code performs. */
module InsertionSort {
  import opened Order

  /** One step of the outer loop: `key = array[i]` shifts left while its predecessor is strictly
      greater, then lands at `pos` (the C# `j + 1`). The key lands behind every element that is
      not greater than it, which is why equal keys never overtake one another. */
  method InsertKey(a: seq<int>, i: int) returns (r: seq<int>, pos: int)
    requires 0 < i < |a| && Sorted(a[..i])
    ensures 0 <= pos <= i && |r| == |a| && r[pos] == a[i]
    ensures Sorted(r[..i + 1])
    ensures multiset(r) == multiset(a)
    ensures r[i + 1..] == a[i + 1..]
    ensures forall k :: 0 <= k < pos ==> r[k] <= a[i]
    ensures forall k :: pos < k <= i ==> r[k] > a[i]
  {
    var key := a[i];
    var j := i - 1;
    r := a;
    ghost var h := a;  // the contents with `key` put back into the hole at `j + 1`
    while j >= 0 && r[j] > key
      invariant Shifting(a, i, r, h, j)
      decreases j
    {
      ShiftStep(a, i, r, h, j);
      h := Swap(h, j, j + 1);
      r := r[j + 1 := r[j]];
      j := j - 1;
    }
    Land(a, i, r, h, j);
    r := r[j + 1 := key];
    pos := j + 1;
  }

  /** The state of the shifting loop: `[0, j]` is untouched, the elements of `[j + 2, i]` are
      the strictly greater keys moved one place right, and `h` is `r` with the key put back into
      the hole at `j + 1`, a permutation of the input. */
  ghost predicate Shifting(a: seq<int>, i: int, r: seq<int>, h: seq<int>, j: int) {
    && 0 < i < |a| && -1 <= j <= i - 1 && |r| == |a| == |h|
    && (forall k {:trigger r[k]} :: 0 <= k <= j ==> r[k] == a[k])
    && (forall k {:trigger r[k]} :: j + 2 <= k <= i ==> r[k] == a[k - 1] && r[k] > a[i])
    && (forall k {:trigger r[k]} :: i < k < |r| ==> r[k] == a[k])
    && h[j + 1] == a[i]
    && (forall k {:trigger h[k]} :: 0 <= k < |h| && k != j + 1 ==> r[k] == h[k])
    && multiset(h) == multiset(a)
  }

  /** One shift `array[j + 1] = array[j]` past a strictly greater key. */
  lemma ShiftStep(a: seq<int>, i: int, r: seq<int>, h: seq<int>, j: int)
    requires Shifting(a, i, r, h, j) && 0 <= j && r[j] > a[i]
    ensures Shifting(a, i, r[j + 1 := r[j]], Swap(h, j, j + 1), j - 1)
  {
  }

  /** The landing `array[j + 1] = key` once the predecessor is not greater (or there is none):
      the outcome `InsertKey` promises. */
  lemma Land(a: seq<int>, i: int, r: seq<int>, h: seq<int>, j: int)
    requires Shifting(a, i, r, h, j) && Sorted(a[..i]) && (j < 0 || r[j] <= a[i])
    ensures var r', pos := r[j + 1 := a[i]], j + 1;
      && 0 <= pos <= i && |r'| == |a| && r'[pos] == a[i]
      && Sorted(r'[..i + 1])
      && multiset(r') == multiset(a)
      && r'[i + 1..] == a[i + 1..]
      && (forall k :: 0 <= k < pos ==> r'[k] <= a[i])
      && (forall k :: pos < k <= i ==> r'[k] > a[i])
  {
    var r', pos := r[j + 1 := a[i]], j + 1;
    assert r' == h;
    assert r'[i + 1..] == a[i + 1..];
    InsertedSorted(a, r', i, pos);
  }

  /** Placing the key at `pos`, behind the prefix elements not greater than it and in front of
      the shifted ones, leaves `[0, i]` sorted. */
  lemma InsertedSorted(a: seq<int>, r: seq<int>, i: int, pos: int)
    requires 0 <= pos <= i < |a| == |r| && Sorted(a[..i]) && r[pos] == a[i]
    requires forall k :: 0 <= k < pos ==> r[k] == a[k]
    requires forall k :: pos < k <= i ==> r[k] == a[k - 1] && r[k] > a[i]
    requires 0 < pos ==> a[pos - 1] <= a[i]
    ensures forall k :: 0 <= k < pos ==> r[k] <= a[i]
    ensures Sorted(r[..i + 1])
  {
    forall k | 0 <= k < pos
      ensures r[k] <= a[i]
    {
      assert a[..i][k] <= a[..i][pos - 1];
    }
    forall p, q | 0 <= p < q <= i
      ensures r[p] <= r[q]
    {
      if q < pos {
        assert a[..i][p] <= a[..i][q];
      } else if pos < p {
        assert a[..i][p - 1] <= a[..i][q - 1];
      }
    }
  }

  /** The whole routine: a sorted permutation of the input; arrays of length 0 or 1 are left as
      they are (the loop body never runs). */
  method Sort(a: seq<int>) returns (r: seq<int>)
    ensures Sorted(r) && multiset(r) == multiset(a)
    ensures |a| <= 1 ==> r == a
  {
    r := a;
    var i := 1;
    while i < |r|
      invariant |r| == |a| && multiset(r) == multiset(a)
      invariant 0 < |r| ==> i <= |r| && Sorted(r[..i])
      invariant |a| <= 1 ==> r == a
    {
      var pos;
      r, pos := InsertKey(r, i);
      i := i + 1;
    }
    if 0 < |r| {
      assert r[..i] == r;
    }
  }
}
