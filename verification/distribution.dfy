/** Stable distribution of a sequence of integers into numbered buckets, as radix sort and bucket
    sort perform it: `dig` gives every element its bucket (a digit in radix sort, a slice of the
    value range in bucket sort), and each bucket keeps the elements in their original order. */
module Distribution {
  /** The elements among the first `n` of `s` whose digit under `dig` is `d`, in their order in
      `s`. Built from the back, like the scan that places them. */
  function Picked(s: seq<int>, dig: int -> int, d: int, n: int): (r: seq<int>)
    requires 0 <= n <= |s|
    ensures |r| <= n
  {
    if n == 0 then []
    else Picked(s, dig, d, n - 1) + (if dig(s[n - 1]) == d then [s[n - 1]] else [])
  }

  /** Bucket `d`: the elements of `s` whose digit is `d`, in their order in `s`. */
  function Bucket(s: seq<int>, dig: int -> int, d: int): seq<int>
  {
    Picked(s, dig, d, |s|)
  }

  /** Buckets `0` to `d - 1` of the first `n` elements of `s`, one after the other. */
  function Spread(s: seq<int>, dig: int -> int, d: int, n: int): seq<int>
    requires 0 <= n <= |s|
  {
    if d <= 0 then [] else Spread(s, dig, d - 1, n) + Picked(s, dig, d - 1, n)
  }

  /** The stable distribution of `s` into the buckets `0` to `d - 1`. */
  function Buckets(s: seq<int>, dig: int -> int, d: int): seq<int>
  {
    Spread(s, dig, d, |s|)
  }

  /** The elements picked for digit `d` all have digit `d`. */
  lemma {:induction false} PickedDigits(s: seq<int>, dig: int -> int, d: int, n: int)
    requires 0 <= n <= |s|
    ensures forall k :: 0 <= k < |Picked(s, dig, d, n)| ==> dig(Picked(s, dig, d, n)[k]) == d
  {
    if n > 0 {
      PickedDigits(s, dig, d, n - 1);
    }
  }

  /** The first `d` buckets hold only elements whose digit lies in `[0, d)`. */
  lemma {:induction false} BucketsDigits(s: seq<int>, dig: int -> int, d: int)
    ensures forall k :: 0 <= k < |Buckets(s, dig, d)| ==> 0 <= dig(Buckets(s, dig, d)[k]) < d
  {
    if d > 0 {
      BucketsDigits(s, dig, d - 1);
      PickedDigits(s, dig, d - 1, |s|);
      var low, top := Buckets(s, dig, d - 1), Bucket(s, dig, d - 1);
      assert Buckets(s, dig, d) == low + top;
      forall k | 0 <= k < |low + top|
        ensures 0 <= dig((low + top)[k]) < d
      {
        if k >= |low| {
          assert (low + top)[k] == top[k - |low|];
        }
      }
    }
  }

  /** Taking one more element of `s` into account adds it to the buckets below its digit. */
  lemma {:induction false} SpreadGrow(s: seq<int>, dig: int -> int, d: int, n: int)
    requires 0 < n <= |s|
    ensures multiset(Spread(s, dig, d, n)) ==
              multiset(Spread(s, dig, d, n - 1)) + Extra(s[n - 1], dig, 0, d)
  {
    var x := s[n - 1];
    if d <= 0 {
      assert Spread(s, dig, d, n) == [] == Spread(s, dig, d, n - 1);
    } else {
      SpreadGrow(s, dig, d - 1, n);
      var low, low' := Spread(s, dig, d - 1, n), Spread(s, dig, d - 1, n - 1);
      var top, top' := Picked(s, dig, d - 1, n), Picked(s, dig, d - 1, n - 1);
      assert Spread(s, dig, d, n) == low + top && Spread(s, dig, d, n - 1) == low' + top';
      assert multiset(top) == multiset(top') + Extra(x, dig, d - 1, d) by {
        assert top == top' + (if dig(x) == d - 1 then [x] else []);
      }
      Combine(low, low', top, top', Extra(x, dig, 0, d - 1), Extra(x, dig, d - 1, d));
      assert Extra(x, dig, 0, d - 1) + Extra(x, dig, d - 1, d) == Extra(x, dig, 0, d);
    }
  }

  /** `{x}` when the digit of `x` lies in `[lo, hi)`, empty otherwise. */
  function Extra(x: int, dig: int -> int, lo: int, hi: int): multiset<int>
  {
    if lo <= dig(x) < hi then multiset{x} else multiset{}
  }

  /** Two blocks of a concatenation that each grow by `e` and `f` grow the whole by `e + f`. */
  lemma Combine(low: seq<int>, low': seq<int>, top: seq<int>, top': seq<int>,
                e: multiset<int>, f: multiset<int>)
    requires multiset(low) == multiset(low') + e && multiset(top) == multiset(top') + f
    ensures multiset(low + top) == multiset(low' + top') + (e + f)
  {
  }

  /** Nothing is spread from no elements. */
  lemma {:induction false} SpreadEmpty(s: seq<int>, dig: int -> int, d: int)
    ensures Spread(s, dig, d, 0) == []
  {
    if d > 0 {
      SpreadEmpty(s, dig, d - 1);
    }
  }

  /** The first `n` elements of `s` whose digit lies in `[0, nb)`, as a bag. */
  function Caught(s: seq<int>, dig: int -> int, nb: int, n: int): multiset<int>
    requires 0 <= n <= |s|
  {
    if n == 0 then multiset{} else Caught(s, dig, nb, n - 1) + Extra(s[n - 1], dig, 0, nb)
  }

  /** Spreading the first `n` elements over `nb` buckets keeps exactly those whose digit names
      one of the buckets. */
  lemma {:induction false} SpreadBag(s: seq<int>, dig: int -> int, nb: int, n: int)
    requires 0 <= n <= |s|
    ensures multiset(Spread(s, dig, nb, n)) == Caught(s, dig, nb, n)
  {
    if n == 0 {
      SpreadEmpty(s, dig, nb);
    } else {
      SpreadBag(s, dig, nb, n - 1);
      SpreadGrow(s, dig, nb, n);
    }
  }

  /** The first `n` elements of `s`, as a bag. */
  function Front(s: seq<int>, n: int): multiset<int>
    requires 0 <= n <= |s|
  {
    if n == 0 then multiset{} else Front(s, n - 1) + multiset{s[n - 1]}
  }

  /** The front of `n` elements is the bag of the prefix of length `n`. */
  lemma {:induction false} FrontPrefix(s: seq<int>, n: int)
    requires 0 <= n <= |s|
    ensures Front(s, n) == multiset(s[..n])
  {
    if n > 0 {
      FrontPrefix(s, n - 1);
      assert s[..n] == s[..n - 1] + [s[n - 1]];
    }
  }

  /** When every digit names a bucket, every element is caught. */
  lemma {:induction false} CaughtAll(s: seq<int>, dig: int -> int, nb: int, n: int)
    requires 0 <= n <= |s|
    requires forall k :: 0 <= k < |s| ==> 0 <= dig(s[k]) < nb
    ensures Caught(s, dig, nb, n) == Front(s, n)
  {
    if n > 0 {
      CaughtAll(s, dig, nb, n - 1);
      var x := s[n - 1];
      assert 0 <= dig(x) < nb;
    }
  }

  /** Distribution only rearranges: when every element has one of the buckets `0` to `n - 1`,
      the buckets together hold exactly the elements of `s`. */
  lemma BucketsBag(s: seq<int>, dig: int -> int, n: int)
    requires forall k :: 0 <= k < |s| ==> 0 <= dig(s[k]) < n
    ensures multiset(Buckets(s, dig, n)) == multiset(s)
    ensures |Buckets(s, dig, n)| == |s|
  {
    SpreadBag(s, dig, n, |s|);
    CaughtAll(s, dig, n, |s|);
    FrontPrefix(s, |s|);
    assert s[..|s|] == s;
    assert |multiset(Buckets(s, dig, n))| == |multiset(s)|;
  }

  /** Element `k` of bucket `d` sits at position `|Buckets(s, dig, d)| + k` of every longer run of
      buckets. */
  lemma {:induction false} BucketsAt(s: seq<int>, dig: int -> int, d: int, e: int, k: int)
    requires 0 <= d < e && 0 <= k < |Bucket(s, dig, d)|
    ensures |Buckets(s, dig, d)| + k < |Buckets(s, dig, e)|
    ensures Buckets(s, dig, e)[|Buckets(s, dig, d)| + k] == Bucket(s, dig, d)[k]
    decreases e
  {
    if e > d + 1 {
      BucketsAt(s, dig, d, e - 1, k);
      InLeft(Buckets(s, dig, e - 1), Bucket(s, dig, e - 1), |Buckets(s, dig, d)| + k);
    } else {
      InRight(Buckets(s, dig, d), Bucket(s, dig, d), k);
    }
  }

  /** Indexing the left part of a concatenation. */
  lemma InLeft(low: seq<int>, top: seq<int>, i: int)
    requires 0 <= i < |low|
    ensures i < |low + top| && (low + top)[i] == low[i]
  {
  }

  /** Indexing the right part of a concatenation. */
  lemma InRight(low: seq<int>, top: seq<int>, k: int)
    requires 0 <= k < |top|
    ensures |low| + k < |low + top| && (low + top)[|low| + k] == top[k]
  {
  }

  /** Element `i` of `s` is the element of its bucket that follows the earlier elements with its
      digit. */
  lemma {:induction false} PickedAt(s: seq<int>, dig: int -> int, i: int, n: int)
    requires 0 <= i < n <= |s|
    ensures |Picked(s, dig, dig(s[i]), i)| < |Picked(s, dig, dig(s[i]), n)|
    ensures Picked(s, dig, dig(s[i]), n)[|Picked(s, dig, dig(s[i]), i)|] == s[i]
    decreases n
  {
    if n > i + 1 {
      PickedAt(s, dig, i, n - 1);
    }
  }

  /** The first `d` buckets come first among the first `e`, and hold only digits below `d`. */
  lemma {:induction false} BucketsPrefixDigits(s: seq<int>, dig: int -> int, d: int, e: int)
    requires 0 <= d <= e
    ensures |Buckets(s, dig, d)| <= |Buckets(s, dig, e)|
    ensures forall p :: 0 <= p < |Buckets(s, dig, d)| ==> dig(Buckets(s, dig, e)[p]) < d
    decreases e
  {
    if d < e {
      BucketsPrefixDigits(s, dig, d, e - 1);
      var low, top := Buckets(s, dig, e - 1), Bucket(s, dig, e - 1);
      assert Buckets(s, dig, e) == low + top;
      forall p | 0 <= p < |Buckets(s, dig, d)|
        ensures dig((low + top)[p]) < d
      {
        assert (low + top)[p] == low[p];
      }
    } else {
      BucketsDigits(s, dig, d);
    }
  }

  /** `s` is in order by `key`. */
  ghost predicate KeySorted(s: seq<int>, key: int -> int)
  {
    forall p, q :: 0 <= p < q < |s| ==> key(s[p]) <= key(s[q])
  }

  /** `s` is in order by digit first and by `key` among equal digits. */
  ghost predicate LexSorted(s: seq<int>, dig: int -> int, key: int -> int)
  {
    forall p, q :: 0 <= p < q < |s| ==>
      dig(s[p]) < dig(s[q]) || (dig(s[p]) == dig(s[q]) && key(s[p]) <= key(s[q]))
  }

  /** When the first `n` elements of `s` have keys at most `bound`, so do the ones picked. */
  lemma {:induction false} PickedBelow(s: seq<int>, dig: int -> int, key: int -> int, d: int, n: int,
                                       bound: int)
    requires 0 <= n <= |s|
    requires forall p :: 0 <= p < n ==> key(s[p]) <= bound
    ensures forall k :: 0 <= k < |Picked(s, dig, d, n)| ==> key(Picked(s, dig, d, n)[k]) <= bound
  {
    if n > 0 {
      PickedBelow(s, dig, key, d, n - 1, bound);
    }
  }

  /** A bucket keeps the order of `s`: picking from a sequence in key order gives one in key
      order. */
  lemma {:induction false} PickedSorted(s: seq<int>, dig: int -> int, key: int -> int, d: int, n: int)
    requires 0 <= n <= |s| && KeySorted(s, key)
    ensures KeySorted(Picked(s, dig, d, n), key)
  {
    if n > 0 {
      PickedSorted(s, dig, key, d, n - 1);
      PickedBelow(s, dig, key, d, n - 1, key(s[n - 1]));
    }
  }

  /** The first `d` buckets of a sequence in key order are in digit-then-key order. */
  lemma {:induction false} BucketsLex(s: seq<int>, dig: int -> int, key: int -> int, d: int)
    requires KeySorted(s, key)
    ensures LexSorted(Buckets(s, dig, d), dig, key)
  {
    if d > 0 {
      BucketsLex(s, dig, key, d - 1);
      PickedSorted(s, dig, key, d - 1, |s|);
      BucketsDigits(s, dig, d - 1);
      PickedDigits(s, dig, d - 1, |s|);
      LexJoin(Buckets(s, dig, d - 1), Bucket(s, dig, d - 1), dig, key, d - 1);
    }
  }

  /** A run in digit-then-key order, followed by a run in key order whose digits all equal `d`
      and exceed those of the first run, is in digit-then-key order. */
  lemma LexJoin(low: seq<int>, top: seq<int>, dig: int -> int, key: int -> int, d: int)
    requires LexSorted(low, dig, key) && KeySorted(top, key)
    requires forall k :: 0 <= k < |low| ==> 0 <= dig(low[k]) < d
    requires forall k :: 0 <= k < |top| ==> dig(top[k]) == d
    ensures LexSorted(low + top, dig, key)
  {
    forall p, q | 0 <= p < q < |low + top|
      ensures dig((low + top)[p]) < dig((low + top)[q]) ||
              (dig((low + top)[p]) == dig((low + top)[q]) && key((low + top)[p]) <= key((low + top)[q]))
    {
      if q < |low| {
        assert (low + top)[p] == low[p] && (low + top)[q] == low[q];
      } else if p < |low| {
        assert (low + top)[p] == low[p] && (low + top)[q] == top[q - |low|];
      } else {
        assert (low + top)[p] == top[p - |low|] && (low + top)[q] == top[q - |low|];
      }
    }
  }

  /** The identity key: order by the numbers themselves. */
  function Itself(): (key: int -> int)
    ensures forall x :: key(x) == x
  {
    x => x
  }

  /** Past the first `e` buckets come only elements whose digit is at least `e`. */
  lemma {:induction false} BucketsSuffixDigits(s: seq<int>, dig: int -> int, e: int, f: int)
    requires 0 <= e <= f
    ensures |Buckets(s, dig, e)| <= |Buckets(s, dig, f)|
    ensures forall p :: |Buckets(s, dig, e)| <= p < |Buckets(s, dig, f)| ==> e <= dig(Buckets(s, dig, f)[p])
  {
    if e < f {
      BucketsSuffixDigits(s, dig, e, f - 1);
      PickedDigits(s, dig, f - 1, |s|);
      var low, top := Buckets(s, dig, f - 1), Bucket(s, dig, f - 1);
      assert Buckets(s, dig, f) == low + top;
      forall p | |Buckets(s, dig, e)| <= p < |low + top|
        ensures e <= dig((low + top)[p])
      {
        if p >= |low| {
          assert (low + top)[p] == top[p - |low|];
        }
      }
    }
  }
}
