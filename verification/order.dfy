/** Notions shared by every routine of the sorting library: sortedness under the natural order of
    integers and under a comparison delegate, permutation of a slice, the exchange of two
    positions, and stability (equal-comparing elements keep their relative order). */
module Order {

  /** Non-decreasing under the natural order of `int`: the goal of every `int[]` routine. */
  ghost predicate Sorted(s: seq<int>) {
    forall i, j :: 0 <= i < j < |s| ==> s[i] <= s[j]
  }

  /** A `Comparison<T>` delegate is only ever inspected through the sign of its result:
      `x` may stay in front of `y` exactly when `cmp(x, y) <= 0`. */
  predicate Leq<T>(cmp: (T, T) -> int, x: T, y: T) {
    cmp(x, y) <= 0
  }

  /** What the library expects of a comparison: any two elements are ordered one way or the
      other, and the order is transitive. Ties between distinct values are allowed. */
  ghost predicate TotalPreorder<T(!new)>(cmp: (T, T) -> int) {
    && (forall x, y :: Leq(cmp, x, y) || Leq(cmp, y, x))
    && (forall x, y, z :: Leq(cmp, x, y) && Leq(cmp, y, z) ==> Leq(cmp, x, z))
  }

  /** Every pair `i < j` is in order under `cmp`. */
  ghost predicate SortedBy<T>(cmp: (T, T) -> int, s: seq<T>) {
    forall i, j :: 0 <= i < j < |s| ==> Leq(cmp, s[i], s[j])
  }

  /** `x` and `y` compare as equal. */
  predicate Equivalent<T>(cmp: (T, T) -> int, x: T, y: T) {
    Leq(cmp, x, y) && Leq(cmp, y, x)
  }

  /** The elements of `s` that compare equal to `k`, in the order they have in `s`. */
  function Class<T>(cmp: (T, T) -> int, s: seq<T>, k: T): seq<T>
  {
    if |s| == 0 then []
    else (if Equivalent(cmp, s[0], k) then [s[0]] else []) + Class(cmp, s[1..], k)
  }

  /** The class of a sequence with one more element in front. */
  lemma ClassCons<T>(cmp: (T, T) -> int, x: T, s: seq<T>, k: T)
    ensures Class(cmp, [x] + s, k) == (if Equivalent(cmp, x, k) then [x] else []) + Class(cmp, s, k)
  {
    assert ([x] + s)[1..] == s;
  }

  /** Stability of `r` against the input `a`: for every key, the elements equivalent to it
      appear in `r` in exactly the order they had in `a`. */
  ghost predicate Stable<T(!new)>(cmp: (T, T) -> int, a: seq<T>, r: seq<T>) {
    forall k :: Class(cmp, r, k) == Class(cmp, a, k)
  }

  /** The tuple assignment `(s[i], s[j]) = (s[j], s[i])`. */
  function Swap<T>(s: seq<T>, i: int, j: int): (r: seq<T>)
    requires 0 <= i < |s| && 0 <= j < |s|
    ensures |r| == |s| && r[i] == s[j] && r[j] == s[i]
    ensures forall k :: 0 <= k < |s| && k != i && k != j ==> r[k] == s[k]
    ensures multiset(r) == multiset(s)
  {
    s[i := s[j]][j := s[i]]
  }

  /** Two sequences that agree outside `[lo, hi)` are permutations of each other exactly when
      their `[lo, hi)` slices are. */
  lemma SliceMultiset<T>(a: seq<T>, b: seq<T>, lo: int, hi: int)
    requires 0 <= lo <= hi <= |a| == |b|
    requires a[..lo] == b[..lo] && a[hi..] == b[hi..]
    ensures multiset(a[lo..hi]) == multiset(b[lo..hi]) <==> multiset(a) == multiset(b)
  {
    assert a == a[..lo] + a[lo..hi] + a[hi..];
    assert b == b[..lo] + b[lo..hi] + b[hi..];
    assert multiset(a) == multiset(a[..lo]) + multiset(a[lo..hi]) + multiset(a[hi..]);
    assert multiset(b) == multiset(a[..lo]) + multiset(b[lo..hi]) + multiset(a[hi..]);
    if multiset(a) == multiset(b) {
      assert multiset(a[lo..hi]) == multiset(a) - multiset(a[..lo]) - multiset(a[hi..]);
      assert multiset(b[lo..hi]) == multiset(b) - multiset(a[..lo]) - multiset(a[hi..]);
    }
  }

  /** The class of a concatenation is the concatenation of the classes. */
  lemma {:induction false} ClassAppend<T>(cmp: (T, T) -> int, s: seq<T>, t: seq<T>, k: T)
    ensures Class(cmp, s + t, k) == Class(cmp, s, k) + Class(cmp, t, k)
  {
    if |s| == 0 {
      assert s + t == t;
    } else {
      assert (s + t)[1..] == s[1..] + t;
      ClassAppend(cmp, s[1..], t, k);
      ConcatLaws(if Equivalent(cmp, s[0], k) then [s[0]] else [], Class(cmp, s[1..], k), Class(cmp, t, k));
    }
  }

  /** Concatenation is associative; `[]` is its unit. */
  lemma ConcatLaws<T>(h: seq<T>, u: seq<T>, v: seq<T>)
    ensures h + (u + v) == (h + u) + v
    ensures [] + u == u && u + [] == u
  {
  }

  /** Exchanging two neighbours that do not compare as equal keeps every class in place: the
      reason a sort that only swaps strictly out-of-order neighbours is stable. */
  lemma SwapNeighboursStable<T(!new)>(cmp: (T, T) -> int, s: seq<T>, j: int)
    requires TotalPreorder(cmp)
    requires 0 <= j && j + 1 < |s|
    requires !Leq(cmp, s[j], s[j + 1])
    ensures Stable(cmp, s, Swap(s, j, j + 1))
  {
    var r := Swap(s, j, j + 1);
    var p, x, y, q := s[..j], s[j], s[j + 1], s[j + 2..];
    assert s == p + ([x] + [y]) + q;
    assert r == p + ([y] + [x]) + q;
    forall k
      ensures Class(cmp, r, k) == Class(cmp, s, k)
    {
      PairClass(cmp, p, x, y, q, k);
    }
  }

  /** Exchanging two neighbours `x` and `y` that are not both equivalent to `k` keeps the class
      of `k`: at most one of them belongs to it. */
  lemma PairClass<T>(cmp: (T, T) -> int, p: seq<T>, x: T, y: T, q: seq<T>, k: T)
    requires !(Equivalent(cmp, x, k) && Equivalent(cmp, y, k))
    ensures Class(cmp, p + ([y] + [x]) + q, k) == Class(cmp, p + ([x] + [y]) + q, k)
  {
    ClassAppend(cmp, p + ([x] + [y]), q, k);
    ClassAppend(cmp, p, [x] + [y], k);
    ClassAppend(cmp, p + ([y] + [x]), q, k);
    ClassAppend(cmp, p, [y] + [x], k);
    ClassAppend(cmp, [x], [y], k);
    ClassAppend(cmp, [y], [x], k);
  }

  /** Stability is an equivalence: it is transitive along a chain of steps. */
  lemma StableTrans<T(!new)>(cmp: (T, T) -> int, a: seq<T>, b: seq<T>, c: seq<T>)
    requires Stable(cmp, a, b) && Stable(cmp, b, c)
    ensures Stable(cmp, a, c)
  {
  }

  lemma SortedHeadIsLeast(a: seq<int>, x: int)
    requires Sorted(a) && x in multiset(a)
    ensures a[0] <= x
  {
    var i :| 0 <= i < |a| && a[i] == x;
  }

  /** A sorted permutation is unique: any two routines that sort the same `int[]` agree, and
      sorting an already sorted array leaves it as it is (idempotence). */
  lemma {:induction false} SortedPermutationUnique(a: seq<int>, b: seq<int>)
    requires Sorted(a) && Sorted(b) && multiset(a) == multiset(b)
    ensures a == b
  {
    if |a| == 0 {
      assert |multiset(b)| == 0;
    } else {
      SameHead(a, b);
      SortedPermutationUnique(a[1..], b[1..]);
      assert a == [a[0]] + a[1..];
      assert b == [b[0]] + b[1..];
    }
  }

  /** Two sorted permutations of a non-empty bag start with its least element and continue with
      sorted permutations of the rest. */
  lemma SameHead(a: seq<int>, b: seq<int>)
    requires Sorted(a) && Sorted(b) && multiset(a) == multiset(b) && |a| > 0
    ensures |b| > 0 && a[0] == b[0]
    ensures Sorted(a[1..]) && Sorted(b[1..]) && multiset(a[1..]) == multiset(b[1..])
  {
    assert |multiset(b)| == |multiset(a)|;
    assert a[0] in multiset(a) && b[0] in multiset(b);
    SortedHeadIsLeast(a, b[0]);
    SortedHeadIsLeast(b, a[0]);
    DropHead(a);
    DropHead(b);
  }

  lemma DropHead(a: seq<int>)
    requires |a| > 0 && Sorted(a)
    ensures Sorted(a[1..]) && multiset(a[1..]) == multiset(a) - multiset{a[0]}
  {
    assert a == [a[0]] + a[1..];
  }

  /** An upper bound of every element of `s` bounds every element of a permutation of `s`. */
  lemma UpperBoundCarries<T>(cmp: (T, T) -> int, s: seq<T>, t: seq<T>, y: T)
    requires multiset(s) == multiset(t)
    requires forall i :: 0 <= i < |s| ==> Leq(cmp, s[i], y)
    ensures forall i :: 0 <= i < |t| ==> Leq(cmp, t[i], y)
  {
    forall i | 0 <= i < |t|
      ensures Leq(cmp, t[i], y)
    {
      assert t[i] in multiset(s);
      var k :| 0 <= k < |s| && s[k] == t[i];
    }
  }

  /** A lower bound of every element of `s` bounds every element of a permutation of `s`. */
  lemma LowerBoundCarries<T>(cmp: (T, T) -> int, s: seq<T>, t: seq<T>, y: T)
    requires multiset(s) == multiset(t)
    requires forall i :: 0 <= i < |s| ==> Leq(cmp, y, s[i])
    ensures forall i :: 0 <= i < |t| ==> Leq(cmp, y, t[i])
  {
    forall i | 0 <= i < |t|
      ensures Leq(cmp, y, t[i])
    {
      assert t[i] in multiset(s);
      var k :| 0 <= k < |s| && s[k] == t[i];
    }
  }

  /** `r` is `a` with the slice `[lo, hi)` replaced by a sorted permutation of itself and every
      position outside the slice untouched: what a sort of a sub-range promises. */
  ghost predicate SortsSlice<T>(cmp: (T, T) -> int, a: seq<T>, r: seq<T>, lo: int, hi: int)
    requires 0 <= lo <= hi <= |a|
  {
    && |r| == |a|
    && (forall k :: 0 <= k < |a| && !(lo <= k < hi) ==> r[k] == a[k])
    && multiset(r[lo..hi]) == multiset(a[lo..hi])
    && SortedBy(cmp, r[lo..hi])
  }

  /** A slice is its part before `p`, the element at `p`, and its part after `p`. */
  lemma SplitAt<T>(s: seq<T>, lo: int, p: int, hi: int)
    requires 0 <= lo <= p < hi <= |s|
    ensures s[lo..hi] == s[lo..p] + [s[p]] + s[p + 1..hi]
    ensures multiset(s[lo..hi]) == multiset(s[lo..p]) + multiset{s[p]} + multiset(s[p + 1..hi])
  {
    assert s[lo..hi] == s[lo..p] + [s[p]] + s[p + 1..hi];
  }

  /** A sequence with no element equivalent to `k` has an empty class for `k`. */
  lemma {:induction false} NoClass<T>(cmp: (T, T) -> int, s: seq<T>, k: T)
    requires forall i :: 0 <= i < |s| ==> !Equivalent(cmp, s[i], k)
    ensures Class(cmp, s, k) == []
  {
    if |s| > 0 {
      NoClass(cmp, s[1..], k);
    }
  }

  /** Putting an element in front of a sorted sequence it does not exceed keeps it sorted. */
  lemma ConsSorted<T>(cmp: (T, T) -> int, x: T, t: seq<T>)
    requires SortedBy(cmp, t)
    requires forall i :: 0 <= i < |t| ==> Leq(cmp, x, t[i])
    ensures SortedBy(cmp, [x] + t)
  {
    var s := [x] + t;
    forall p, q | 0 <= p < q < |s|
      ensures Leq(cmp, s[p], s[q])
    {
      if p > 0 {
        assert s[p] == t[p - 1] && s[q] == t[q - 1];
      }
    }
  }

  /** Two sequences that agree at every index of `[lo, hi)` have equal slices there. */
  lemma SameSlice<T>(a: seq<T>, b: seq<T>, lo: int, hi: int)
    requires 0 <= lo <= hi <= |a| && hi <= |b|
    requires forall k :: lo <= k < hi ==> a[k] == b[k]
    ensures a[lo..hi] == b[lo..hi]
  {
    assert forall k :: 0 <= k < hi - lo ==> a[lo..hi][k] == a[lo + k] && b[lo..hi][k] == b[lo + k];
  }

  /** The range scan of `CountingSort.Sort` and `BucketSort.Sort`: starting from `array[0]`, the
      least and the greatest element of a non-empty array. */
  method Extremes(a: seq<int>) returns (min: int, max: int)
    requires |a| > 0
    ensures min in a && max in a
    ensures forall i :: 0 <= i < |a| ==> min <= a[i] <= max
  {
    min, max := a[0], a[0];
    var i := 1;
    while i < |a|
      invariant 1 <= i <= |a|
      invariant min in a[..i] && max in a[..i]
      invariant forall k :: 0 <= k < i ==> min <= a[k] <= max
    {
      if a[i] < min {
        min := a[i];
      }
      if a[i] > max {
        max := a[i];
      }
      assert a[..i + 1] == a[..i] + [a[i]];
      i := i + 1;
    }
    assert a[..i] == a;
  }

  /** The least element of a non-empty sequence. */
  function Least(s: seq<int>): (m: int)
    requires |s| > 0
    ensures m in s && forall i :: 0 <= i < |s| ==> m <= s[i]
  {
    if |s| == 1 then s[0]
    else
      var t := Least(s[1..]);
      assert t in s;
      if s[0] <= t then s[0] else t
  }

  /** The greatest element of a non-empty sequence. */
  function Greatest(s: seq<int>): (m: int)
    requires |s| > 0
    ensures m in s && forall i :: 0 <= i < |s| ==> s[i] <= m
  {
    if |s| == 1 then s[0]
    else
      var t := Greatest(s[1..]);
      assert t in s;
      if s[0] >= t then s[0] else t
  }

  /** The elements of `[x] + s` are `x` and those of `s`. */
  lemma BagCons<T>(x: T, s: seq<T>)
    ensures multiset([x] + s) == multiset{x} + multiset(s)
  {
  }

  /** The elements of a non-empty sequence are its head and those of its tail. */
  lemma BagHead<T>(s: seq<T>)
    requires |s| > 0
    ensures multiset(s) == multiset{s[0]} + multiset(s[1..])
  {
    assert s == [s[0]] + s[1..];
  }

  /** Growing a prefix by one element adds that element to its bag. */
  lemma BagPrefix<T>(s: seq<T>, i: int)
    requires 0 <= i < |s|
    ensures multiset(s[..i + 1]) == multiset(s[..i]) + multiset{s[i]}
  {
    assert s[..i + 1] == s[..i] + [s[i]];
  }

  /** An element-by-element copy loop, `array[i] = values[i]` for every index of the array:
      the array ends up equal to `values`. */
  method CopyInto<T>(a: seq<T>, values: seq<T>) returns (r: seq<T>)
    requires |values| == |a|
    ensures r == values
  {
    r := a;
    var i := 0;
    while i < |a|
      invariant 0 <= i <= |a| && |r| == |a|
      invariant forall k :: 0 <= k < i ==> r[k] == values[k]
    {
      r := r[i := values[i]];
      i := i + 1;
    }
  }
}
