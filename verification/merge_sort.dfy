/** `MergeSort.Sort<T>(T[], left, right, Comparison<T>)`: top-down merge sort of the range
    `[left, right]`, merging the two sorted halves through scratch copies. */
module MergeSort {
  import opened Order

  /** The merge of two runs as a value: repeatedly take the smaller head, the left one on a tie.
      This is the reference the in-place `Merge` is proved equal to. */
  function MergeSeq<T>(cmp: (T, T) -> int, xs: seq<T>, ys: seq<T>): (r: seq<T>)
    ensures |r| == |xs| + |ys|
    decreases |xs| + |ys|
  {
    if |xs| == 0 then ys
    else if |ys| == 0 then xs
    else if Leq(cmp, xs[0], ys[0]) then [xs[0]] + MergeSeq(cmp, xs[1..], ys)
    else [ys[0]] + MergeSeq(cmp, xs, ys[1..])
  }

  /** The merge holds exactly the elements of both runs. */
  lemma {:induction false} MergeBag<T>(cmp: (T, T) -> int, xs: seq<T>, ys: seq<T>)
    ensures multiset(MergeSeq(cmp, xs, ys)) == multiset(xs) + multiset(ys)
    decreases |xs| + |ys|
  {
    if |xs| == 0 || |ys| == 0 {
    } else if Leq(cmp, xs[0], ys[0]) {
      MergeBag(cmp, xs[1..], ys);
      BagCons(xs[0], MergeSeq(cmp, xs[1..], ys));
      BagHead(xs);
    } else {
      MergeBag(cmp, xs, ys[1..]);
      BagCons(ys[0], MergeSeq(cmp, xs, ys[1..]));
      BagHead(ys);
    }
  }

  lemma TailSorted<T>(cmp: (T, T) -> int, s: seq<T>)
    requires |s| > 0 && SortedBy(cmp, s)
    ensures SortedBy(cmp, s[1..])
    ensures forall i :: 0 <= i < |s[1..]| ==> Leq(cmp, s[0], s[1..][i])
  {
  }

  /** Merging two sorted runs gives a sorted run. */
  lemma {:induction false} MergeSorted<T(!new)>(cmp: (T, T) -> int, xs: seq<T>, ys: seq<T>)
    requires TotalPreorder(cmp) && SortedBy(cmp, xs) && SortedBy(cmp, ys)
    ensures SortedBy(cmp, MergeSeq(cmp, xs, ys))
    decreases |xs| + |ys|
  {
    if |xs| == 0 || |ys| == 0 {
    } else if Leq(cmp, xs[0], ys[0]) {
      TailSorted(cmp, xs);
      MergeSorted(cmp, xs[1..], ys);
      MergeBag(cmp, xs[1..], ys);
      var rest := xs[1..] + ys;
      forall i | 0 <= i < |rest|
        ensures Leq(cmp, xs[0], rest[i])
      {
        if i >= |xs| - 1 {
          assert rest[i] == ys[i - |xs| + 1];
        }
      }
      LowerBoundCarries(cmp, rest, MergeSeq(cmp, xs[1..], ys), xs[0]);
      ConsSorted(cmp, xs[0], MergeSeq(cmp, xs[1..], ys));
    } else {
      TailSorted(cmp, ys);
      MergeSorted(cmp, xs, ys[1..]);
      MergeBag(cmp, xs, ys[1..]);
      var rest := xs + ys[1..];
      forall i | 0 <= i < |rest|
        ensures Leq(cmp, ys[0], rest[i])
      {
        if i < |xs| {
          assert rest[i] == xs[i];
        } else {
          assert rest[i] == ys[i - |xs| + 1];
        }
      }
      LowerBoundCarries(cmp, rest, MergeSeq(cmp, xs, ys[1..]), ys[0]);
      ConsSorted(cmp, ys[0], MergeSeq(cmp, xs, ys[1..]));
    }
  }

  /** Stability of the merge: on a tie the left head is taken first, so for every key the
      equivalent elements of the left run come out before those of the right run, each in
      their original order. */
  lemma {:induction false} MergeStable<T(!new)>(cmp: (T, T) -> int, xs: seq<T>, ys: seq<T>, k: T)
    requires TotalPreorder(cmp) && SortedBy(cmp, xs) && SortedBy(cmp, ys)
    ensures Class(cmp, MergeSeq(cmp, xs, ys), k) == Class(cmp, xs, k) + Class(cmp, ys, k)
    decreases |xs| + |ys|
  {
    if |xs| == 0 {
      assert Class(cmp, xs, k) == [];
    } else if |ys| == 0 {
      assert Class(cmp, ys, k) == [];
    } else if Leq(cmp, xs[0], ys[0]) {
      TailSorted(cmp, xs);
      MergeStable(cmp, xs[1..], ys, k);
      TakeLeftClass(cmp, xs, ys, k);
    } else {
      TailSorted(cmp, ys);
      MergeStable(cmp, xs, ys[1..], k);
      TakeRightClass(cmp, xs, ys, k);
    }
  }

  /** Taking the left head keeps the classes in order: it comes first among its class. */
  lemma TakeLeftClass<T>(cmp: (T, T) -> int, xs: seq<T>, ys: seq<T>, k: T)
    requires |xs| > 0 && |ys| > 0 && Leq(cmp, xs[0], ys[0])
    requires Class(cmp, MergeSeq(cmp, xs[1..], ys), k) == Class(cmp, xs[1..], k) + Class(cmp, ys, k)
    ensures Class(cmp, MergeSeq(cmp, xs, ys), k) == Class(cmp, xs, k) + Class(cmp, ys, k)
  {
    var m := MergeSeq(cmp, xs[1..], ys);
    assert MergeSeq(cmp, xs, ys) == [xs[0]] + m;
    ClassCons(cmp, xs[0], m, k);
    ClassCons(cmp, xs[0], xs[1..], k);
    assert [xs[0]] + xs[1..] == xs;
    ConcatLaws(if Equivalent(cmp, xs[0], k) then [xs[0]] else [], Class(cmp, xs[1..], k), Class(cmp, ys, k));
  }

  /** Taking the right head, strictly smaller than every left element, keeps the classes in
      order: no left element shares its class. */
  lemma TakeRightClass<T(!new)>(cmp: (T, T) -> int, xs: seq<T>, ys: seq<T>, k: T)
    requires TotalPreorder(cmp) && SortedBy(cmp, xs)
    requires |xs| > 0 && |ys| > 0 && !Leq(cmp, xs[0], ys[0])
    requires Class(cmp, MergeSeq(cmp, xs, ys[1..]), k) == Class(cmp, xs, k) + Class(cmp, ys[1..], k)
    ensures Class(cmp, MergeSeq(cmp, xs, ys), k) == Class(cmp, xs, k) + Class(cmp, ys, k)
  {
    var m := MergeSeq(cmp, xs, ys[1..]);
    assert MergeSeq(cmp, xs, ys) == [ys[0]] + m;
    ClassCons(cmp, ys[0], m, k);
    ClassCons(cmp, ys[0], ys[1..], k);
    assert [ys[0]] + ys[1..] == ys;
    if Equivalent(cmp, ys[0], k) {
      forall i | 0 <= i < |xs|
        ensures !Equivalent(cmp, xs[i], k)
      {
        assert Leq(cmp, xs[0], xs[i]);
      }
      NoClass(cmp, xs, k);
      ConcatLaws([], Class(cmp, ys[1..], k), []);
      ConcatLaws([], [ys[0]] + Class(cmp, ys[1..], k), []);
    } else {
      ConcatLaws([], m, []);
      ConcatLaws([], Class(cmp, ys[1..], k), []);
    }
  }

  /** The midpoint `(left + right) / 2` of a range of at least two indices splits it into two
      strictly shorter non-empty halves `[left, mid]` and `[mid + 1, right]`. */
  function Mid(left: int, right: int): (mid: int)
    requires 0 <= left < right
    ensures left <= mid < right
  {
    (left + right) / 2
  }

  /** The next element the merge takes from `xs` and `ys` when at least one is non-empty:
      the left head unless the right head is strictly smaller or the left run is used up. */
  lemma MergeTake<T>(cmp: (T, T) -> int, xs: seq<T>, ys: seq<T>)
    requires |xs| > 0 || |ys| > 0
    ensures |ys| == 0 || (|xs| > 0 && Leq(cmp, xs[0], ys[0])) ==>
              MergeSeq(cmp, xs, ys) == [xs[0]] + MergeSeq(cmp, xs[1..], ys)
    ensures |xs| == 0 || (|ys| > 0 && !Leq(cmp, xs[0], ys[0])) ==>
              MergeSeq(cmp, xs, ys) == [ys[0]] + MergeSeq(cmp, xs, ys[1..])
  {
    if |ys| == 0 {
      assert MergeSeq(cmp, xs[1..], ys) == xs[1..];
      assert xs == [xs[0]] + xs[1..];
    } else if |xs| == 0 {
      assert MergeSeq(cmp, xs, ys[1..]) == ys[1..];
      assert ys == [ys[0]] + ys[1..];
    }
  }

  /** The first loop of `Merge`: while both runs have elements left, the smaller head is
      written at `k` (the left one on a tie). It stops with one run used up, the written range
      holding the start of the merge, and the rest of the merge still to come. */
  method MergeHeads<T>(a: seq<T>, left: int, leftArray: seq<T>, rightArray: seq<T>, cmp: (T, T) -> int,
                       ghost merged: seq<T>)
    returns (r: seq<T>, i: int, j: int)
    requires 0 <= left && left + |leftArray| + |rightArray| <= |a|
    requires merged == MergeSeq(cmp, leftArray, rightArray)
    ensures i == |leftArray| || j == |rightArray|
    ensures Remaining(cmp, leftArray, rightArray, i, j, merged)
    ensures Written(a, r, left, left + i + j, merged)
  {
    var leftSize, rightSize := |leftArray|, |rightArray|;
    var k := left;
    i, j := 0, 0;
    r := a;
    while i < leftSize && j < rightSize
      invariant k == left + i + j
      invariant Written(a, r, left, k, merged)
      invariant Remaining(cmp, leftArray, rightArray, i, j, merged)
      decreases leftSize + rightSize - i - j
    {
      r, i, j := TakeHead(a, r, left, leftArray, rightArray, i, j, cmp, merged);
      k := k + 1;
    }
  }

  /** One iteration of the first loop of `Merge`: the smaller head (the left one on a tie) is
      written at `k = left + i + j` and its run advances by one. */
  method TakeHead<T>(a: seq<T>, r: seq<T>, left: int, xs: seq<T>, ys: seq<T>, i: int, j: int,
                     cmp: (T, T) -> int, ghost merged: seq<T>)
    returns (r': seq<T>, i': int, j': int)
    requires 0 <= left && left + |xs| + |ys| <= |a|
    requires Remaining(cmp, xs, ys, i, j, merged) && i < |xs| && j < |ys|
    requires Written(a, r, left, left + i + j, merged)
    ensures Leq(cmp, xs[i], ys[j]) ==> i' == i + 1 && j' == j
    ensures !Leq(cmp, xs[i], ys[j]) ==> i' == i && j' == j + 1
    ensures Remaining(cmp, xs, ys, i', j', merged)
    ensures Written(a, r', left, left + i' + j', merged)
  {
    var k := left + i + j;
    Advance(cmp, xs, ys, i, j, merged);
    Put(a, r, left, k, merged);
    if Leq(cmp, xs[i], ys[j]) {
      r' := r[k := xs[i]];
      i', j' := i + 1, j;
    } else {
      r' := r[k := ys[j]];
      i', j' := i, j + 1;
    }
  }

  /** `Merge(array, left, mid, right)`: the two runs are copied out and merged back into
      `[left, right]`; exactly `leftSize + rightSize` positions are written, in order from
      `left`, and nothing outside the range changes. */
  method Merge<T>(a: seq<T>, left: int, mid: int, right: int, cmp: (T, T) -> int) returns (r: seq<T>)
    requires 0 <= left <= mid < right < |a|
    ensures |r| == |a|
    ensures forall k :: 0 <= k < |a| && !(left <= k <= right) ==> r[k] == a[k]
    ensures r[left..right + 1] == MergeSeq(cmp, a[left..mid + 1], a[mid + 1..right + 1])
  {
    var leftSize := mid - left + 1;
    var rightSize := right - mid;
    var leftArray := a[left..mid + 1];
    var rightArray := a[mid + 1..right + 1];
    ghost var merged := MergeSeq(cmp, leftArray, rightArray);
    var i, j;
    r, i, j := MergeHeads(a, left, leftArray, rightArray, cmp, merged);
    Drained(cmp, leftArray, rightArray, i, j, merged);
    r := CopyRest(a, r, left, leftArray, i, j, merged);
    r := CopyRest(a, r, left, rightArray, j, leftSize, merged);
    assert forall p :: left <= p <= right ==> r[left..right + 1][p - left] == r[p];
  }

  /** The second and the third loop of `Merge`: once one run is used up, the rest of the other
      run, `src[from..]`, is copied to the positions after the written range. `off` is the
      number of elements taken from the used-up run. */
  method CopyRest<T>(a: seq<T>, r: seq<T>, left: int, src: seq<T>, from: int, off: int, ghost merged: seq<T>)
    returns (r': seq<T>)
    requires 0 <= left && 0 <= from <= |src| && 0 <= off
    requires left + |src| + off <= |a| && |src| + off <= |merged|
    requires Written(a, r, left, left + from + off, merged)
    requires forall q :: from <= q < |src| ==> merged[q + off] == src[q]
    ensures Written(a, r', left, left + |src| + off, merged)
  {
    r' := r;
    var i := from;
    var k := left + from + off;
    while i < |src|
      invariant from <= i <= |src| && k == left + i + off
      invariant Written(a, r', left, k, merged)
    {
      Put(a, r', left, k, merged);
      r' := r'[k := src[i]];
      i := i + 1;
      k := k + 1;
    }
  }

  /** What is left to merge, `xs[i..]` against `ys[j..]`, merges into the rest of `merged`. */
  ghost predicate Remaining<T>(cmp: (T, T) -> int, xs: seq<T>, ys: seq<T>, i: int, j: int, merged: seq<T>) {
    && 0 <= i <= |xs| && 0 <= j <= |ys| && |merged| == |xs| + |ys|
    && MergeSeq(cmp, xs[i..], ys[j..]) == merged[i + j..]
  }

  /** One step of the first loop: the element written next is the merge's next element, and
      what remains is again the merge of what remains. */
  lemma Advance<T>(cmp: (T, T) -> int, xs: seq<T>, ys: seq<T>, i: int, j: int, merged: seq<T>)
    requires Remaining(cmp, xs, ys, i, j, merged) && i < |xs| && j < |ys|
    ensures Leq(cmp, xs[i], ys[j]) ==> merged[i + j] == xs[i] && Remaining(cmp, xs, ys, i + 1, j, merged)
    ensures !Leq(cmp, xs[i], ys[j]) ==> merged[i + j] == ys[j] && Remaining(cmp, xs, ys, i, j + 1, merged)
  {
    MergeTake(cmp, xs[i..], ys[j..]);
    assert xs[i..][1..] == xs[i + 1..];
    assert ys[j..][1..] == ys[j + 1..];
    assert merged[i + j..][1..] == merged[i + j + 1..];
  }

  /** Once one run is used up, the rest of the merge is the rest of the other run. */
  lemma Drained<T>(cmp: (T, T) -> int, xs: seq<T>, ys: seq<T>, i: int, j: int, merged: seq<T>)
    requires Remaining(cmp, xs, ys, i, j, merged) && (i == |xs| || j == |ys|)
    ensures j == |ys| ==> forall q :: i <= q < |xs| ==> merged[q + j] == xs[q]
    ensures i == |xs| ==> forall q :: j <= q < |ys| ==> merged[q + i] == ys[q]
  {
    if j == |ys| {
      assert MergeSeq(cmp, xs[i..], ys[j..]) == xs[i..];
      forall q | i <= q < |xs|
        ensures merged[q + j] == xs[q]
      {
        assert merged[q + j] == merged[i + j..][q - i];
      }
    } else {
      assert MergeSeq(cmp, xs[i..], ys[j..]) == ys[j..];
      forall q | j <= q < |ys|
        ensures merged[q + i] == ys[q]
      {
        assert merged[q + i] == merged[i + j..][q - j];
      }
    }
  }

  /** The output `r` agrees with `a` outside `[left, k)` and holds the first `k - left` elements
      of `merged` inside it. */
  ghost predicate Written<T>(a: seq<T>, r: seq<T>, left: int, k: int, merged: seq<T>)
    requires 0 <= left <= k
  {
    && |r| == |a| && k <= |a|
    && k - left <= |merged|
    && (forall p :: 0 <= p < |a| && !(left <= p < k) ==> r[p] == a[p])
    && (forall p :: left <= p < k ==> r[p] == merged[p - left])
  }

  /** Writing the next element of `merged` at `k` extends the written range by one. */
  lemma Put<T>(a: seq<T>, r: seq<T>, left: int, k: int, merged: seq<T>)
    requires 0 <= left <= k < |a| && k - left < |merged| && Written(a, r, left, k, merged)
    ensures Written(a, r[k := merged[k - left]], left, k + 1, merged)
  {
  }

  /** One call's three stages (sort left half, sort right half, merge) compose into a stable
      sort of the range. */
  lemma Assemble<T(!new)>(cmp: (T, T) -> int, a: seq<T>, r1: seq<T>, r2: seq<T>, r3: seq<T>,
                         left: int, mid: int, right: int)
    requires TotalPreorder(cmp)
    requires 0 <= left <= mid < right < |a|
    requires SortsSlice(cmp, a, r1, left, mid + 1) && Stable(cmp, a[left..mid + 1], r1[left..mid + 1])
    requires SortsSlice(cmp, r1, r2, mid + 1, right + 1)
    requires Stable(cmp, r1[mid + 1..right + 1], r2[mid + 1..right + 1])
    requires |r3| == |a| && forall k :: 0 <= k < |a| && !(left <= k <= right) ==> r3[k] == r2[k]
    requires r3[left..right + 1] == MergeSeq(cmp, r2[left..mid + 1], r2[mid + 1..right + 1])
    ensures SortsSlice(cmp, a, r3, left, right + 1)
    ensures Stable(cmp, a[left..right + 1], r3[left..right + 1])
  {
    AssembleSlice(cmp, a, r1, r2, r3, left, mid, right);
    forall k | 0 <= k < |a| && !(left <= k <= right)
      ensures r3[k] == a[k]
    {
      assert r3[k] == r2[k] == r1[k];
    }
  }

  /** The slice half of `Assemble`: the range of `r3` is a stable sorted permutation of the
      range of `a`. */
  lemma AssembleSlice<T(!new)>(cmp: (T, T) -> int, a: seq<T>, r1: seq<T>, r2: seq<T>, r3: seq<T>,
                              left: int, mid: int, right: int)
    requires TotalPreorder(cmp)
    requires 0 <= left <= mid < right < |a|
    requires SortsSlice(cmp, a, r1, left, mid + 1) && Stable(cmp, a[left..mid + 1], r1[left..mid + 1])
    requires SortsSlice(cmp, r1, r2, mid + 1, right + 1)
    requires Stable(cmp, r1[mid + 1..right + 1], r2[mid + 1..right + 1])
    requires |r3| == |a| && r3[left..right + 1] == MergeSeq(cmp, r2[left..mid + 1], r2[mid + 1..right + 1])
    ensures multiset(r3[left..right + 1]) == multiset(a[left..right + 1])
    ensures SortedBy(cmp, r3[left..right + 1])
    ensures Stable(cmp, a[left..right + 1], r3[left..right + 1])
  {
    Halves(cmp, a, r1, r2, left, mid, right);
    AssembleMerge(cmp, a[left..mid + 1], a[mid + 1..right + 1], r1[left..mid + 1],
                  r2[mid + 1..right + 1], r3[left..right + 1]);
  }

  /** What each half's sort leaves of the other half: the left half is not touched by the
      right sort, and the right half was not touched by the left sort. */
  lemma Halves<T>(cmp: (T, T) -> int, a: seq<T>, r1: seq<T>, r2: seq<T>, left: int, mid: int,
                  right: int)
    requires 0 <= left <= mid < right < |a|
    requires SortsSlice(cmp, a, r1, left, mid + 1) && SortsSlice(cmp, r1, r2, mid + 1, right + 1)
    ensures r2[left..mid + 1] == r1[left..mid + 1] && r1[mid + 1..right + 1] == a[mid + 1..right + 1]
    ensures a[left..right + 1] == a[left..mid + 1] + a[mid + 1..right + 1]
  {
    SameSlice(r2, r1, left, mid + 1);
    SameSlice(r1, a, mid + 1, right + 1);
    assert a[left..right + 1] == a[left..mid + 1] + a[mid + 1..right + 1];
  }

  /** The merge of a stable sort `xs'` of `xs` and a stable sort `ys'` of `ys` is a stable sort
      of `xs + ys`. */
  lemma AssembleMerge<T(!new)>(cmp: (T, T) -> int, xs: seq<T>, ys: seq<T>, xs': seq<T>, ys': seq<T>,
                               m: seq<T>)
    requires TotalPreorder(cmp)
    requires SortedBy(cmp, xs') && multiset(xs') == multiset(xs) && Stable(cmp, xs, xs')
    requires SortedBy(cmp, ys') && multiset(ys') == multiset(ys) && Stable(cmp, ys, ys')
    requires m == MergeSeq(cmp, xs', ys')
    ensures SortedBy(cmp, m) && multiset(m) == multiset(xs + ys) && Stable(cmp, xs + ys, m)
  {
    MergeSorted(cmp, xs', ys');
    MergeBag(cmp, xs', ys');
    forall k
      ensures Class(cmp, m, k) == Class(cmp, xs + ys, k)
    {
      MergeStable(cmp, xs', ys', k);
      ClassAppend(cmp, xs, ys, k);
    }
  }

  /** The whole routine over `[left, right]`. Nothing happens for arrays of length 0 or 1 or
      when `left >= right`; otherwise the range becomes a stable sorted permutation of itself
      and the rest of the array is untouched. */
  method Sort<T(!new)>(a: seq<T>, left: int, right: int, cmp: (T, T) -> int) returns (r: seq<T>)
    requires TotalPreorder(cmp)
    requires 1 < |a| && left < right ==> 0 <= left && right < |a|
    ensures |a| <= 1 || right <= left ==> r == a
    ensures 0 <= left <= right + 1 <= |a| ==> SortsSlice(cmp, a, r, left, right + 1)
    ensures 0 <= left <= right + 1 <= |a| ==> Stable(cmp, a[left..right + 1], r[left..right + 1])
    decreases right - left
  {
    r := a;
    if |r| <= 1 {
      return;
    }
    if left < right {
      var mid := Mid(left, right);
      var r1 := Sort(r, left, mid, cmp);
      var r2 := Sort(r1, mid + 1, right, cmp);
      r := Merge(r2, left, mid, right, cmp);
      Assemble(cmp, a, r1, r2, r, left, mid, right);
    }
  }
}
