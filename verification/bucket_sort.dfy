/** `BucketSort.Sort(int[], int bucketCount = 10)`: the value range `[minValue, maxValue]` is cut
    into `bucketCount` slices, every element is appended to the list of its slice, and the lists
    are sorted one by one and written back in slice order.

    The C# code computes the bucket of an element in 32-bit `int` arithmetic, where
    `(array[i] - minValue) * (bucketCount - 1)` overflows as soon as the values spread over more
    than about `int.MaxValue / (bucketCount - 1)`. `Sort` models the routine with the index
    computed exactly, as intended; `SortAsWritten` models the wrapped arithmetic, and
    `WitnessMisordered` shows an input on which it returns an unsorted array. */
module BucketSort {
  import opened Order
  import opened Runtime
  import opened Distribution
  import InsertionSort

  /** The bucket of `x` for the value range `[lo, hi]`:
      `(x - minValue) * (bucketCount - 1) / range` with `range = maxValue - minValue + 1`,
      computed without overflow. */
  function Index(x: int, lo: int, hi: int, bucketCount: int): int
    requires lo <= hi
  {
    Quot((x - lo) * (bucketCount - 1), hi - lo + 1)
  }

  /** `Index` for a fixed range and bucket count, as a value. */
  function IndexOf(lo: int, hi: int, bucketCount: int): (idx: int -> int)
    requires lo <= hi
    ensures forall x :: idx(x) == Index(x, lo, hi, bucketCount)
  {
    x => Index(x, lo, hi, bucketCount)
  }

  /** With at least one bucket, every value of the range has a bucket. */
  lemma IndexInRange(x: int, lo: int, hi: int, bucketCount: int)
    requires lo <= x <= hi && bucketCount >= 1
    ensures 0 <= Index(x, lo, hi, bucketCount) < bucketCount
  {
    var d, range := x - lo, hi - lo + 1;
    if bucketCount == 1 {
      assert d * (bucketCount - 1) == 0;
      QuotUnique(0, range, 0);
    } else {
      ProductBelow(d, range, bucketCount - 1);
      assert range * (bucketCount - 1) == (bucketCount - 1) * range;
      QuotBelow(d * (bucketCount - 1), range, bucketCount - 1);
    }
  }

  /** With no bucket at all, every value of the range is sent to bucket 0, which does not
      exist. */
  lemma IndexZero(x: int, lo: int, hi: int)
    requires lo <= x <= hi
    ensures Index(x, lo, hi, 0) == 0
  {
    QuotUnique((x - lo) * (0 - 1), hi - lo + 1, 0);
  }

  /** The two cases the distribution loop meets: some bucket when there are buckets, the
      missing bucket 0 when there are none. */
  lemma IndexBounds(x: int, lo: int, hi: int, bucketCount: int)
    requires lo <= x <= hi && bucketCount >= 0
    ensures bucketCount > 0 ==> 0 <= Index(x, lo, hi, bucketCount) < bucketCount
    ensures bucketCount == 0 ==> Index(x, lo, hi, bucketCount) == 0
  {
    if bucketCount > 0 {
      IndexInRange(x, lo, hi, bucketCount);
    } else {
      IndexZero(x, lo, hi);
    }
  }

  /** A greater value never goes to an earlier bucket. */
  lemma IndexMonotone(x: int, y: int, lo: int, hi: int, bucketCount: int)
    requires lo <= x <= y <= hi && bucketCount >= 1
    ensures Index(x, lo, hi, bucketCount) <= Index(y, lo, hi, bucketCount)
  {
    if bucketCount > 1 {
      MultipleAwayFromZero(y - x, bucketCount - 1);
      Distribute(y - lo, x - lo, bucketCount - 1);
    }
    QuotMonotone((x - lo) * (bucketCount - 1), (y - lo) * (bucketCount - 1), hi - lo + 1);
  }

  /** The bucket index as the C# code computes it: every `int` operation wraps around modulo
      2^32, a zero `range` raises `DivideByZeroException`, and `int.MinValue / -1` raises
      `OverflowException`. */
  function Index32(x: int, lo: int, hi: int, bucketCount: int): (r: Outcome<int>)
    ensures r.Thrown? ==> r.error in {DivideByZero, Overflow}
  {
    var range := Wrap32(Wrap32(hi - lo) + 1);
    var product := Wrap32(Wrap32(x - lo) * Wrap32(bucketCount - 1));
    if range == 0 then Thrown(DivideByZero)
    else if product == MinInt && range == -1 then Thrown(Overflow)
    else Done(Quot(product, range))
  }

  /** Where no intermediate result leaves the `int` range, the wrapped computation is the exact
      one. */
  lemma Index32Exact(x: int, lo: int, hi: int, bucketCount: int)
    requires IsInt32(lo) && IsInt32(hi) && IsInt32(bucketCount)
    requires lo <= x <= hi && bucketCount >= 1
    requires hi - lo + 1 <= MaxInt && (x - lo) * (bucketCount - 1) <= MaxInt
    ensures Index32(x, lo, hi, bucketCount) == Done(Index(x, lo, hi, bucketCount))
  {
    if bucketCount > 1 {
      MultipleAwayFromZero(x - lo, bucketCount - 1);
    }
  }

  /** The bucket the C# code picks for `x`, as a value; -1 where the computation fails. */
  function SlotOf32(lo: int, hi: int, bucketCount: int): (idx: int -> int)
    ensures forall x :: Index32(x, lo, hi, bucketCount).Done? ==>
                          idx(x) == Index32(x, lo, hi, bucketCount).value
  {
    Slot(Indexer32(lo, hi, bucketCount))
  }

  /** `Index32` for fixed bounds and bucket count, as a function of the element. */
  function Indexer32(lo: int, hi: int, bucketCount: int): int -> Outcome<int> {
    x => Index32(x, lo, hi, bucketCount)
  }

  /** The bucket a fallible index computation picks, as a value; -1 where it fails. */
  function Slot(index: int -> Outcome<int>): (idx: int -> int)
    ensures forall x :: index(x).Done? ==> idx(x) == index(x).value
  {
    x => if index(x).Done? then index(x).value else -1
  }

  /** The C# code finds a bucket for every element of `a`: no exception in the index
      computation, and an index within the bucket array. */
  ghost predicate Placeable32(a: seq<int>, bucketCount: int)
    requires |a| > 0
  {
    forall k :: 0 <= k < |a| ==>
      var v := Index32(a[k], Least(a), Greatest(a), bucketCount);
      v.Done? && 0 <= v.value < bucketCount
  }

  /** The index computation succeeds for `x` and names a bucket of the array. */
  predicate Placed(index: int -> Outcome<int>, bucketCount: int, x: int)
  {
    index(x).Done? && 0 <= index(x).value < bucketCount
  }

  /** The exception raised for an element that gets no bucket: the exception of its index
      computation, or `IndexOutOfRangeException` from `buckets[bucketIndex]`. */
  function Failure(index: int -> Outcome<int>, x: int): Exception
  {
    if index(x).Thrown? then index(x).error else IndexOutOfRange
  }

  /** The exception of the first element from position `j` on that gets no bucket (or
      `IndexOutOfRangeException` where every one gets a bucket). */
  function FirstFailure(a: seq<int>, index: int -> Outcome<int>, bucketCount: int, j: int): Exception
    requires 0 <= j <= |a|
    decreases |a| - j
  {
    if j == |a| then IndexOutOfRange
    else if !Placed(index, bucketCount, a[j]) then Failure(index, a[j])
    else FirstFailure(a, index, bucketCount, j + 1)
  }

  /** When element `i` is the first from `j` on without a bucket, its exception is the first
      failure. */
  lemma {:induction false} FirstFailureAt(a: seq<int>, index: int -> Outcome<int>, bucketCount: int,
                                          j: int, i: int)
    requires 0 <= j <= i < |a|
    requires forall k :: j <= k < i ==> Placed(index, bucketCount, a[k])
    requires !Placed(index, bucketCount, a[i])
    ensures FirstFailure(a, index, bucketCount, j) == Failure(index, a[i])
    decreases i - j
  {
    if j < i {
      assert Placed(index, bucketCount, a[j]);
      FirstFailureAt(a, index, bucketCount, j + 1, i);
    }
  }

  /** After the distribution loop has seen the first `i` elements: bucket `b` holds those whose
      index is `b`, in their order in `a`, and each of them had a bucket. */
  ghost predicate Distributed(a: seq<int>, idx: int -> int, buckets: seq<seq<int>>, i: int)
    requires 0 <= i <= |a|
  {
    && (forall b {:trigger buckets[b]} :: 0 <= b < |buckets| ==> buckets[b] == Picked(a, idx, b, i))
    && (forall k :: 0 <= k < i ==> 0 <= idx(a[k]) < |buckets|)
  }

  /** `buckets[b].Add(array[i])` extends the distribution by one element. */
  lemma DistributeStep(a: seq<int>, idx: int -> int, buckets: seq<seq<int>>, i: int)
    requires 0 <= i < |a| && 0 <= idx(a[i]) < |buckets| && Distributed(a, idx, buckets, i)
    ensures Distributed(a, idx, buckets[idx(a[i]) := buckets[idx(a[i])] + [a[i]]], i + 1)
  {
    var b := idx(a[i]);
    var next := buckets[b := buckets[b] + [a[i]]];
    forall c | 0 <= c < |next|
      ensures next[c] == Picked(a, idx, c, i + 1)
    {
    }
  }

  /** Empty buckets hold the distribution of no element. */
  lemma NoneDistributed(a: seq<int>, idx: int -> int, buckets: seq<seq<int>>)
    requires forall b :: 0 <= b < |buckets| ==> buckets[b] == []
    ensures Distributed(a, idx, buckets, 0)
  {
  }

  /** The distribution loop for a given bucket index: `buckets[idx(array[i])].Add(array[i])`
      for every element in turn. The loop fails at the first element whose index is outside the
      bucket array, so it succeeds exactly when every element has a bucket. */
  method DistributeBy(a: seq<int>, idx: int -> int, bucketCount: int)
    returns (result: Outcome<seq<seq<int>>>)
    requires bucketCount >= 0
    ensures result.Done? <==> forall k :: 0 <= k < |a| ==> 0 <= idx(a[k]) < bucketCount
    ensures result.Thrown? ==> result.error == IndexOutOfRange
    ensures result.Done? ==> |result.value| == bucketCount &&
                             Distributed(a, idx, result.value, |a|)
  {
    var buckets, i := DistributeUntil(a, idx, bucketCount);
    if i < |a| {
      return Thrown(IndexOutOfRange);
    }
    return Done(buckets);
  }

  /** The loop of `DistributeBy` up to its exit: it stops at the end of the array or at the
      first element `i` without a bucket, the elements before it being distributed. */
  method DistributeUntil(a: seq<int>, idx: int -> int, bucketCount: int)
    returns (buckets: seq<seq<int>>, i: int)
    requires bucketCount >= 0
    ensures 0 <= i <= |a| && |buckets| == bucketCount && Distributed(a, idx, buckets, i)
    ensures i < |a| ==> !(0 <= idx(a[i]) < bucketCount)
  {
    buckets := seq(bucketCount, _ => []);
    NoneDistributed(a, idx, buckets);
    i := 0;
    while i < |a|
      invariant 0 <= i <= |a| && |buckets| == bucketCount
      invariant Distributed(a, idx, buckets, i)
    {
      var b := idx(a[i]);
      if b < 0 || b >= |buckets| {
        return;
      }
      DistributeStep(a, idx, buckets, i);
      buckets := buckets[b := buckets[b] + [a[i]]];
      i := i + 1;
    }
  }

  /** Every element of the range has a bucket when there are buckets, and none has one when
      there are none. */
  lemma AllIndexed(a: seq<int>, lo: int, hi: int, bucketCount: int)
    requires |a| > 0 && lo <= hi && bucketCount >= 0
    requires forall k :: 0 <= k < |a| ==> lo <= a[k] <= hi
    ensures (forall k :: 0 <= k < |a| ==> 0 <= IndexOf(lo, hi, bucketCount)(a[k]) < bucketCount)
            <==> bucketCount > 0
  {
    var idx := IndexOf(lo, hi, bucketCount);
    if bucketCount > 0 {
      forall k | 0 <= k < |a|
        ensures 0 <= idx(a[k]) < bucketCount
      {
        IndexInRange(a[k], lo, hi, bucketCount);
      }
    } else {
      assert !(0 <= idx(a[0]) < bucketCount);
    }
  }

  /** The distribution loop with the exact index. Without buckets, the very first element has
      none, and the access `buckets[0]` fails. */
  method DistributeExact(a: seq<int>, lo: int, hi: int, bucketCount: int)
    returns (result: Outcome<seq<seq<int>>>)
    requires |a| > 0 && lo <= hi && bucketCount >= 0
    requires forall k :: 0 <= k < |a| ==> lo <= a[k] <= hi
    ensures bucketCount == 0 ==> result == Thrown(IndexOutOfRange)
    ensures bucketCount > 0 ==> result.Done? && |result.value| == bucketCount &&
                                Distributed(a, IndexOf(lo, hi, bucketCount), result.value, |a|)
  {
    AllIndexed(a, lo, hi, bucketCount);
    result := DistributeBy(a, IndexOf(lo, hi, bucketCount), bucketCount);
  }

  /** The distribution loop with the index computed in wrapped `int` arithmetic: it fails at
      the first element whose index computation throws or whose index is outside the bucket
      array, with that element's exception. */
  method DistributeWrapped(a: seq<int>, lo: int, hi: int, bucketCount: int)
    returns (result: Outcome<seq<seq<int>>>)
    requires |a| > 0 && lo == Least(a) && hi == Greatest(a) && bucketCount >= 0
    ensures result.Done? <==> Placeable32(a, bucketCount)
    ensures result.Thrown? ==> result.error == FirstFailure(a, Indexer32(lo, hi, bucketCount), bucketCount, 0)
    ensures result.Done? ==> |result.value| == bucketCount &&
                             Distributed(a, SlotOf32(lo, hi, bucketCount), result.value, |a|)
  {
    var buckets, i, error := DistributeTry(a, Indexer32(lo, hi, bucketCount), bucketCount);
    if i < |a| {
      FirstFailureAt(a, Indexer32(lo, hi, bucketCount), bucketCount, 0, i);
      return Thrown(error);
    }
    return Done(buckets);
  }

  /** The distribution loop with a fallible index computation, up to its exit: it stops at the
      end of the array, or at the first element `i` whose index computation throws (its
      exception is `error`) or whose index has no bucket (`error` is `IndexOutOfRange`). The
      elements before `i` are distributed. */
  method DistributeTry(a: seq<int>, index: int -> Outcome<int>, bucketCount: int)
    returns (buckets: seq<seq<int>>, i: int, error: Exception)
    requires bucketCount >= 0
    ensures 0 <= i <= |a| && |buckets| == bucketCount
    ensures Distributed(a, Slot(index), buckets, i)
    ensures forall k :: 0 <= k < i ==> index(a[k]).Done? && 0 <= index(a[k]).value < bucketCount
    ensures i < |a| ==> !(index(a[i]).Done? && 0 <= index(a[i]).value < bucketCount)
    ensures i < |a| ==> error == if index(a[i]).Thrown? then index(a[i]).error else IndexOutOfRange
  {
    ghost var idx := Slot(index);
    buckets := seq(bucketCount, _ => []);
    NoneDistributed(a, idx, buckets);
    i, error := 0, IndexOutOfRange;
    while i < |a|
      invariant 0 <= i <= |a| && |buckets| == bucketCount
      invariant Distributed(a, idx, buckets, i)
      invariant forall k :: 0 <= k < i ==> index(a[k]).Done? && 0 <= index(a[k]).value < bucketCount
    {
      var v := index(a[i]);
      if v.Thrown? {
        error := v.error;
        return;
      }
      var b := v.value;
      if b < 0 || b >= |buckets| {
        return;
      }
      DistributeStep(a, idx, buckets, i);
      buckets := buckets[b := buckets[b] + [a[i]]];
      i := i + 1;
    }
  }

  /** The inner `foreach`: the values of one sorted bucket are written from `index` on. */
  method WriteBlock(r: seq<int>, index: int, block: seq<int>) returns (r': seq<int>, index': int)
    requires 0 <= index && index + |block| <= |r|
    ensures |r'| == |r| && index' == index + |block|
    ensures r'[..index'] == r[..index] + block
  {
    r' := r;
    index' := index;
    var k := 0;
    while k < |block|
      invariant 0 <= k <= |block| && index' == index + k && |r'| == |r|
      invariant forall p :: 0 <= p < index ==> r'[p] == r[p]
      invariant forall p :: 0 <= p < k ==> r'[index + p] == block[p]
    {
      r' := r'[index' := block[k]];
      index' := index' + 1;
      k := k + 1;
    }
    assert forall p :: 0 <= p < index' ==> r'[..index'][p] == (r[..index] + block)[p];
  }

  /** A sorted block whose elements all belong to bucket `b`, appended behind elements of the
      earlier buckets in bucket-then-value order, keeps that order. */
  lemma LexAppend(out: seq<int>, block: seq<int>, idx: int -> int, b: int)
    requires LexSorted(out, idx, Itself()) && forall k :: 0 <= k < |out| ==> idx(out[k]) < b
    requires Sorted(block) && forall k :: 0 <= k < |block| ==> idx(block[k]) == b
    ensures LexSorted(out + block, idx, Itself())
    ensures forall k :: 0 <= k < |out + block| ==> idx((out + block)[k]) < b + 1
  {
    var s := out + block;
    forall p, q | 0 <= p < q < |s|
      ensures idx(s[p]) < idx(s[q]) || (idx(s[p]) == idx(s[q]) && s[p] <= s[q])
    {
      if q < |out| {
        assert s[p] == out[p] && s[q] == out[q];
      } else if p < |out| {
        assert s[p] == out[p] && s[q] == block[q - |out|];
      } else {
        assert s[p] == block[p - |out|] && s[q] == block[q - |out|];
      }
    }
  }

  /** The sorted copy of bucket `b` still holds only elements of bucket `b`. */
  lemma SortedBucket(a: seq<int>, idx: int -> int, b: int, sorted: seq<int>)
    requires multiset(sorted) == multiset(Bucket(a, idx, b))
    ensures forall k :: 0 <= k < |sorted| ==> idx(sorted[k]) == b
  {
    PickedDigits(a, idx, b, |a|);
    forall k | 0 <= k < |sorted|
      ensures idx(sorted[k]) == b
    {
      assert sorted[k] in multiset(Bucket(a, idx, b));
    }
  }

  /** After the first `b` buckets have been written back: `out` holds their elements, in
      bucket-then-value order. */
  ghost predicate Gathered(a: seq<int>, idx: int -> int, out: seq<int>, b: int)
  {
    GatheredBag(a, idx, out, b) && GatheredOrder(idx, out, b)
  }

  /** `out` holds the elements of the first `b` buckets. */
  ghost predicate GatheredBag(a: seq<int>, idx: int -> int, out: seq<int>, b: int)
  {
    multiset(out) == multiset(Buckets(a, idx, b)) && |out| == |Buckets(a, idx, b)|
  }

  /** `out` is in bucket-then-value order and holds only elements of buckets below `b`. */
  ghost predicate GatheredOrder(idx: int -> int, out: seq<int>, b: int)
  {
    LexSorted(out, idx, Itself()) && forall k :: 0 <= k < |out| ==> idx(out[k]) < b
  }

  /** Writing the sorted bucket `b` behind the first `b` extends the gathered prefix by one
      bucket. */
  lemma GatherStep(a: seq<int>, idx: int -> int, out: seq<int>, b: int, sorted: seq<int>)
    requires 0 <= b && Gathered(a, idx, out, b)
    requires Sorted(sorted) && multiset(sorted) == multiset(Bucket(a, idx, b))
    ensures Gathered(a, idx, out + sorted, b + 1)
  {
    GatherBagStep(a, idx, out, b, sorted);
    GatherOrderStep(a, idx, out, b, sorted);
  }

  /** The elements after bucket `b` is written back. */
  lemma GatherBagStep(a: seq<int>, idx: int -> int, out: seq<int>, b: int, sorted: seq<int>)
    requires 0 <= b && GatheredBag(a, idx, out, b)
    requires multiset(sorted) == multiset(Bucket(a, idx, b))
    ensures GatheredBag(a, idx, out + sorted, b + 1)
  {
    BagAppend(out, sorted, Buckets(a, idx, b), Bucket(a, idx, b));
    assert Buckets(a, idx, b + 1) == Buckets(a, idx, b) + Bucket(a, idx, b);
  }

  /** Appending runs with the same elements gives runs with the same elements. */
  lemma BagAppend(s: seq<int>, t: seq<int>, s': seq<int>, t': seq<int>)
    requires multiset(s) == multiset(s') && multiset(t) == multiset(t')
    ensures multiset(s + t) == multiset(s' + t') && |s + t| == |s' + t'|
  {
    assert |multiset(s)| == |multiset(s')| && |multiset(t)| == |multiset(t')|;
  }

  /** The order after bucket `b` is written back. */
  lemma GatherOrderStep(a: seq<int>, idx: int -> int, out: seq<int>, b: int, sorted: seq<int>)
    requires GatheredOrder(idx, out, b)
    requires Sorted(sorted) && multiset(sorted) == multiset(Bucket(a, idx, b))
    ensures GatheredOrder(idx, out + sorted, b + 1)
  {
    SortedBucket(a, idx, b, sorted);
    LexAppend(out, sorted, idx, b);
  }

  /** The `foreach` over the buckets: each is sorted (the built-in `List<int>.Sort`, here the
      insertion sort of this library, which yields the same sorted list) and written back. The
      array ends up in bucket-then-value order, a permutation of the input. */
  method Gather(a: seq<int>, idx: int -> int, buckets: seq<seq<int>>) returns (r: seq<int>)
    requires Distributed(a, idx, buckets, |a|)
    ensures |r| == |a| && multiset(r) == multiset(a)
    ensures LexSorted(r, idx, Itself())
  {
    var n := |buckets|;
    DistributedAll(a, idx, buckets);
    r := a;
    var index := 0;
    ghost var out: seq<int> := [];
    var b := 0;
    while b < n
      invariant 0 <= b <= n && |r| == |a|
      invariant index == |out| <= |r| && out == r[..index]
      invariant Gathered(a, idx, out, b)
    {
      var sorted := InsertionSort.Sort(buckets[b]);
      GatherStep(a, idx, out, b, sorted);
      BucketsPrefixDigits(a, idx, b + 1, n);
      r, index := WriteBlock(r, index, sorted);
      out := out + sorted;
      b := b + 1;
    }
    GatheredAll(a, idx, out, n);
    assert r[..index] == r;
  }

  /** When the distribution loop has seen all of `a`, the buckets are those of `a` and hold
      exactly its elements. */
  lemma DistributedAll(a: seq<int>, idx: int -> int, buckets: seq<seq<int>>)
    requires Distributed(a, idx, buckets, |a|)
    ensures forall b :: 0 <= b < |buckets| ==> buckets[b] == Bucket(a, idx, b)
    ensures multiset(Buckets(a, idx, |buckets|)) == multiset(a)
    ensures |Buckets(a, idx, |buckets|)| == |a|
  {
    BucketsBag(a, idx, |buckets|);
  }

  /** Once every bucket is written back, the gathered elements are those of `a`. */
  lemma GatheredAll(a: seq<int>, idx: int -> int, out: seq<int>, n: int)
    requires Gathered(a, idx, out, n)
    requires multiset(Buckets(a, idx, n)) == multiset(a) && |Buckets(a, idx, n)| == |a|
    ensures |out| == |a| && multiset(out) == multiset(a) && LexSorted(out, idx, Itself())
  {
  }

  /** Bucket-then-value order under the exact index is value order, because the index only grows
      with the value. */
  lemma IndexOrderSorted(r: seq<int>, lo: int, hi: int, bucketCount: int)
    requires lo <= hi && bucketCount >= 1
    requires forall k :: 0 <= k < |r| ==> lo <= r[k] <= hi
    requires LexSorted(r, IndexOf(lo, hi, bucketCount), Itself())
    ensures Sorted(r)
  {
    forall p, q | 0 <= p < q < |r|
      ensures r[p] <= r[q]
    {
      if r[q] < r[p] {
        IndexMonotone(r[q], r[p], lo, hi, bucketCount);
      }
    }
  }

  /** The whole routine with the bucket index computed exactly. Arrays of length 0 or 1 are
      returned at once; a negative bucket count fails when the bucket array is created; zero
      buckets fail at the first element. */
  method Sort(a: seq<int>, bucketCount: int) returns (result: Outcome<seq<int>>)
    requires AllInt32(a) && IsInt32(bucketCount)
    ensures |a| <= 1 ==> result == Done(a)
    ensures |a| > 1 && bucketCount < 0 ==> result == Thrown(Overflow)
    ensures |a| > 1 && bucketCount == 0 ==> result == Thrown(IndexOutOfRange)
    ensures |a| > 1 && bucketCount > 0 ==> result.Done?
    ensures result.Done? ==> Sorted(result.value) && multiset(result.value) == multiset(a)
  {
    if |a| <= 1 {
      return Done(a);
    }
    var min, max := Extremes(a);
    if bucketCount < 0 {
      return Thrown(Overflow);
    }
    var distributed := DistributeExact(a, min, max, bucketCount);
    if distributed.Thrown? {
      return Thrown(distributed.error);
    }
    var r := Gather(a, IndexOf(min, max, bucketCount), distributed.value);
    forall k | 0 <= k < |r|
      ensures min <= r[k] <= max
    {
      assert r[k] in multiset(a);
    }
    IndexOrderSorted(r, min, max, bucketCount);
    return Done(r);
  }

  /** The whole routine as written, with the bucket index in wrapped `int` arithmetic. It
      returns a permutation of the input in bucket-then-value order under the wrapped index,
      which is not value order once the index computation overflows. */
  method SortAsWritten(a: seq<int>, bucketCount: int) returns (result: Outcome<seq<int>>)
    requires AllInt32(a) && IsInt32(bucketCount)
    ensures |a| <= 1 ==> result == Done(a)
    ensures |a| > 1 && bucketCount < 0 ==> result == Thrown(Overflow)
    ensures |a| > 1 && bucketCount >= 0 ==> (result.Done? <==> Placeable32(a, bucketCount))
    ensures |a| > 1 && bucketCount >= 0 && result.Thrown? ==>
              result.error == FirstFailure(a, Indexer32(Least(a), Greatest(a), bucketCount), bucketCount, 0)
    ensures |a| > 1 && result.Done? ==>
              multiset(result.value) == multiset(a) &&
              LexSorted(result.value, SlotOf32(Least(a), Greatest(a), bucketCount), Itself())
  {
    if |a| <= 1 {
      return Done(a);
    }
    var min, max := Extremes(a);
    LeastGreatest(a, min, max);
    if bucketCount < 0 {
      return Thrown(Overflow);
    }
    var distributed := DistributeWrapped(a, min, max, bucketCount);
    if distributed.Thrown? {
      return Thrown(distributed.error);
    }
    var r := Gather(a, SlotOf32(min, max, bucketCount), distributed.value);
    return Done(r);
  }

  /** The least and greatest elements the scan finds are `Least(a)` and `Greatest(a)`. */
  lemma LeastGreatest(a: seq<int>, min: int, max: int)
    requires min in a && max in a && forall i :: 0 <= i < |a| ==> min <= a[i] <= max
    ensures min == Least(a) && max == Greatest(a)
  {
  }

  /** An input on which the wrapped index misorders: with 10 buckets and the range
      `[0, 2000000000]`, `238609294 * 9 = 2147483646` still fits and gives bucket 1, while
      `2000000000 * 9` wraps around to 820130816 and gives bucket 0. */
  const Witness: seq<int> := [0, 238609294, 2000000000]

  /** The range of `Witness` is `[0, 2000000000]`. */
  lemma WitnessRange()
    ensures Least(Witness) == 0 && Greatest(Witness) == 2000000000
  {
    LeastGreatest(Witness, 0, 2000000000);
  }

  /** The wrapped index of each element of `Witness`: the product for 2000000000 wraps around
      and sends it to bucket 0, in front of the smaller 238609294 in bucket 1. */
  lemma WitnessIndices()
    ensures Index32(0, 0, 2000000000, 10) == Done(0)
    ensures Index32(238609294, 0, 2000000000, 10) == Done(1)
    ensures Index32(2000000000, 0, 2000000000, 10) == Done(0)
  {
    assert Wrap32(Wrap32(2000000000 - 0) + 1) == 2000000001;
    assert Wrap32(Wrap32(238609294 - 0) * Wrap32(10 - 1)) == 2147483646;
    assert Wrap32(Wrap32(2000000000 - 0) * Wrap32(10 - 1)) == 820130816;
    QuotUnique(2147483646, 2000000001, 1);
    QuotUnique(820130816, 2000000001, 0);
    QuotUnique(0, 2000000001, 0);
  }

  /** The C# code finds a bucket for every element of `Witness`. */
  lemma WitnessPlaceable()
    ensures Least(Witness) == 0 && Greatest(Witness) == 2000000000
    ensures Placeable32(Witness, 10)
    ensures Index32(238609294, 0, 2000000000, 10) == Done(1)
    ensures Index32(2000000000, 0, 2000000000, 10) == Done(0)
  {
    WitnessRange();
    WitnessIndices();
  }

  /** Every permutation of `Witness` in the order the as-written routine produces puts
      2000000000 in front of 238609294, so it is not sorted. */
  lemma WitnessMisordered(r: seq<int>)
    requires multiset(r) == multiset(Witness)
    requires LexSorted(r, SlotOf32(0, 2000000000, 10), Itself())
    ensures !Sorted(r)
  {
    WitnessPlaceable();
    var idx := SlotOf32(0, 2000000000, 10);
    assert idx(2000000000) == 0 && idx(238609294) == 1;
    assert 2000000000 in multiset(r) && 238609294 in multiset(r);
    var p :| 0 <= p < |r| && r[p] == 2000000000;
    var q :| 0 <= q < |r| && r[q] == 238609294;
    LowerBucketFirst(r, idx, p, q);
  }

  /** In bucket-then-value order, an element of a lower bucket comes first. */
  lemma LowerBucketFirst(r: seq<int>, idx: int -> int, p: int, q: int)
    requires LexSorted(r, idx, Itself())
    requires 0 <= p < |r| && 0 <= q < |r| && idx(r[p]) < idx(r[q])
    ensures p < q
  {
  }

  /** The as-written routine on `Witness` with 10 buckets: it finds a bucket for every element
      and returns an array that is not sorted. */
  method WitnessRun() returns (result: Outcome<seq<int>>)
    ensures result.Done? && !Sorted(result.value)
  {
    result := SortAsWritten(Witness, 10);
    WitnessPlaceable();
    WitnessMisordered(result.value);
  }

  /** On `[0, 300000000]` with 10 buckets the product `300000000 * 9` wraps around to
      -1594967296, so the index is -5 and `buckets[bucketIndex]` throws. */
  method NegativeIndexRun() returns (result: Outcome<seq<int>>)
    ensures result == Thrown(IndexOutOfRange)
  {
    var a := [0, 300000000];
    LeastGreatest(a, 0, 300000000);
    assert Wrap32(Wrap32(300000000 - 0) * Wrap32(10 - 1)) == -1594967296;
    QuotUnique(-1594967296, 300000001, -5);
    QuotUnique(0, 300000001, 0);
    assert Index32(0, 0, 300000000, 10) == Done(0);
    assert Index32(300000000, 0, 300000000, 10) == Done(-5);
    result := SortAsWritten(a, 10);
    assert !Placeable32(a, 10) by {
      assert Index32(a[1], Least(a), Greatest(a), 10) == Done(-5);
    }
    var index := Indexer32(0, 300000000, 10);
    assert Placed(index, 10, a[0]) && !Placed(index, 10, a[1]);
    FirstFailureAt(a, index, 10, 0, 1);
  }

  /** On `[int.MinValue, int.MaxValue]` the wrapped `range` is 0, so the first index computation
      divides by zero. */
  method ZeroRangeRun() returns (result: Outcome<seq<int>>)
    ensures result == Thrown(DivideByZero)
  {
    var a := [MinInt, MaxInt];
    LeastGreatest(a, MinInt, MaxInt);
    assert Wrap32(Wrap32(MaxInt - MinInt) + 1) == 0;
    assert Index32(MinInt, MinInt, MaxInt, 10) == Thrown(DivideByZero);
    result := SortAsWritten(a, 10);
    assert !Placeable32(a, 10) by {
      assert Index32(a[0], Least(a), Greatest(a), 10) == Thrown(DivideByZero);
    }
    var index := Indexer32(MinInt, MaxInt, 10);
    assert !Placed(index, 10, a[0]);
    FirstFailureAt(a, index, 10, 0, 0);
  }
}
