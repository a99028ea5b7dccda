/** `CountingSort.Sort(int[])`: count how often each value occurs, then rewrite the array value by
    value. Only non-negative values are accepted. */
module CountingSort {
  import opened Order
  import opened Runtime

  /** The counting loop: `count[v]` is the number of occurrences of `v` in the array, for every
      `v` the count array covers. */
  method CountOccurrences(a: seq<int>, size: nat) returns (count: seq<int>)
    requires forall i :: 0 <= i < |a| ==> 0 <= a[i] < size
    ensures |count| == size
    ensures forall v :: 0 <= v < size ==> count[v] == multiset(a)[v]
  {
    count := seq(size, _ => 0);
    var i := 0;
    while i < |a|
      invariant 0 <= i <= |a| && |count| == size
      invariant forall v :: 0 <= v < size ==> count[v] == multiset(a[..i])[v]
    {
      assert a[..i + 1] == a[..i] + [a[i]];
      count := count[a[i] := count[a[i]] + 1];
      i := i + 1;
    }
    assert a[..i] == a;
  }

  /** The rewrite loops: every value `v` in increasing order is written `count[v]` times from the
      front of the array. With exact counts this produces the sorted permutation of the array. */
  method Overwrite(a: seq<int>, counts: seq<int>) returns (r: seq<int>)
    requires forall i :: 0 <= i < |a| ==> 0 <= a[i] < |counts|
    requires forall v :: 0 <= v < |counts| ==> counts[v] == multiset(a)[v]
    ensures Sorted(r) && multiset(r) == multiset(a)
  {
    r := a;
    var index := 0;
    var count := counts;
    var value := 0;
    ghost var out: seq<int> := [];
    while value < |count|
      invariant 0 <= value <= |count| == |counts| && 0 <= index <= |r| == |a|
      invariant out == r[..index] && Written(a, out, value)
      invariant forall v :: value <= v < |count| ==> count[v] == multiset(a)[v]
    {
      ghost var before := count;
      r, index, count, out := WriteCopies(a, r, index, count, value, out);
      assert forall v :: value < v < |count| ==> count[v] == before[v];
      value := value + 1;
    }
    AllWritten(a, out, value);
    assert r[..index] == r;
  }

  /** The inner loop for one `value`: it is written `count[value]` times, after which every copy
      of it in `a` is in the written prefix. */
  method WriteCopies(a: seq<int>, r: seq<int>, index: int, count: seq<int>, value: int, ghost out: seq<int>)
    returns (r': seq<int>, index': int, count': seq<int>, ghost out': seq<int>)
    requires 0 <= value < |count| && 0 <= index <= |r| == |a|
    requires out == r[..index] && Written(a, out, value)
    requires count[value] == multiset(a)[value]
    ensures 0 <= index' <= |r'| == |a| && out' == r'[..index'] && Written(a, out', value + 1)
    ensures |count'| == |count| && forall v :: 0 <= v < |count| && v != value ==> count'[v] == count[v]
  {
    r', index', count', out' := r, index, count, out;
    while count'[value] > 0
      invariant 0 <= index' <= |r'| == |a| && |count'| == |count|
      invariant out' == r'[..index'] && WrittenUpTo(a, out', value)
      invariant count'[value] == multiset(a)[value] - multiset(out')[value]
      invariant forall v :: 0 <= v < |count| && v != value ==> count'[v] == count[v]
      decreases count'[value]
    {
      Append(a, out', value);
      assert r'[index' := value][..index' + 1] == out' + [value];
      out' := out' + [value];
      r' := r'[index' := value];
      index' := index' + 1;
      count' := count'[value := count'[value] - 1];
    }
    Next(a, out', value);
  }

  /** The written prefix `out` is sorted, takes nothing from `a` that `a` does not have, holds
      every copy of each value below `value`, and nothing at or above `value`. */
  ghost predicate Written(a: seq<int>, out: seq<int>, value: int) {
    && Sorted(out)
    && multiset(out) <= multiset(a)
    && (forall k :: 0 <= k < |out| ==> out[k] < value)
    && (forall v :: 0 <= v < value ==> multiset(out)[v] == multiset(a)[v])
  }

  /** The state inside the inner loop for `value`: as `Written`, but copies of `value` itself
      may already have been written. */
  ghost predicate WrittenUpTo(a: seq<int>, out: seq<int>, value: int) {
    && Sorted(out)
    && multiset(out) <= multiset(a)
    && (forall k :: 0 <= k < |out| ==> out[k] <= value)
    && (forall v :: 0 <= v < value ==> multiset(out)[v] == multiset(a)[v])
  }

  /** Writing one more copy of `value`, while `a` still has an unwritten one, keeps the state. */
  lemma Append(a: seq<int>, out: seq<int>, value: int)
    requires WrittenUpTo(a, out, value) && multiset(out)[value] < multiset(a)[value]
    ensures |out| < |a|
    ensures WrittenUpTo(a, out + [value], value)
    ensures multiset(out + [value])[value] == multiset(out)[value] + 1
  {
    var s := out + [value];
    SortedSnoc(out, value);
    assert multiset(s) == multiset(out) + multiset{value};
    assert multiset(s) <= multiset(a);
    assert |multiset(a)| == |multiset(s)| + |multiset(a) - multiset(s)| by {
      assert multiset(a) == multiset(s) + (multiset(a) - multiset(s));
    }
  }

  /** Appending a value at least every element of a sorted sequence keeps it sorted and
      bounded by that value. */
  lemma SortedSnoc(out: seq<int>, value: int)
    requires Sorted(out) && forall k :: 0 <= k < |out| ==> out[k] <= value
    ensures Sorted(out + [value])
    ensures forall k :: 0 <= k < |out + [value]| ==> (out + [value])[k] <= value
  {
    var s := out + [value];
    forall p, q | 0 <= p < q < |s|
      ensures s[p] <= s[q]
    {
      if q == |out| {
        assert s[p] == out[p];
      } else {
        assert s[p] == out[p] && s[q] == out[q];
      }
    }
  }

  /** Once every copy of `value` is written, the state moves on to `value + 1`. */
  lemma Next(a: seq<int>, out: seq<int>, value: int)
    requires 0 <= value
    requires WrittenUpTo(a, out, value) && multiset(out)[value] == multiset(a)[value]
    ensures Written(a, out, value + 1)
  {
  }

  /** After the last value, the written prefix is all of `a`, sorted. */
  lemma AllWritten(a: seq<int>, out: seq<int>, size: int)
    requires forall i :: 0 <= i < |a| ==> 0 <= a[i] < size
    requires Written(a, out, size)
    ensures Sorted(out) && multiset(out) == multiset(a) && |out| == |a|
  {
    forall v
      ensures multiset(out)[v] == multiset(a)[v]
    {
      if !(0 <= v < size) {
        assert v !in a;
        assert multiset(a)[v] == 0;
      }
    }
    assert multiset(out) == multiset(a);
    assert |multiset(out)| == |multiset(a)|;
  }

  /** The whole routine. An empty array is left alone; a negative element raises
      `InvalidOperationException` before anything is written; a maximum of `int.MaxValue` makes
      the unchecked `max + 1` a negative count-array length, which raises `OverflowException`;
      otherwise the array ends sorted, a permutation of what it held. */
  method Sort(a: seq<int>) returns (result: Outcome<seq<int>>)
    requires AllInt32(a)
    ensures |a| == 0 ==> result == Done(a)
    ensures result == Thrown(InvalidOperation) <==> exists i :: 0 <= i < |a| && a[i] < 0
    ensures result == Thrown(Overflow) <==>
              (forall i :: 0 <= i < |a| ==> a[i] >= 0) && exists i :: 0 <= i < |a| && a[i] == MaxInt
    ensures result.Thrown? ==> result.error in {InvalidOperation, Overflow}
    ensures result.Done? ==> Sorted(result.value) && multiset(result.value) == multiset(a)
  {
    if |a| == 0 {
      return Done(a);
    }
    var min, max := Extremes(a);
    if min < 0 {
      return Thrown(InvalidOperation);
    }
    var size := Wrap32(max + 1);
    if size < 0 {
      return Thrown(Overflow);
    }
    var count := CountOccurrences(a, size);
    var r := Overwrite(a, count);
    return Done(r);
  }
}
