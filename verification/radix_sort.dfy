/** `RadixSort.Sort(int[])`: least-significant-digit radix sort. Each pass is a stable counting
    sort on one decimal digit `(x / exp) % 10`, shifted by 9 into 19 buckets so that the
    truncated digits of negative numbers (-9 to -1) sort before those of non-negative ones. */
module RadixSort {
  import opened Order
  import opened Runtime
  import opened Distribution

  /** The bucket of `x` in the pass with divisor `exp`. */
  function Digit(x: int, exp: int): (d: int)
    requires exp > 0
    ensures 0 <= d < 19
    ensures x >= 0 ==> 9 <= d
    ensures x < 0 ==> d <= 9
  {
    Rem(Quot(x, exp), 10) + 9
  }

  /** The part of `x` below the divisor `e`, with the sign of `x`: after the passes with divisors
      `1, 10, ..., e / 10` the array is ordered by this key. */
  function Key(x: int, e: int): (k: int)
    requires e > 0
    ensures x >= 0 ==> 0 <= k < e
    ensures x < 0 ==> -e < k <= 0
  {
    Rem(x, e)
  }

  /** A number smaller in magnitude than `e` is its own key. */
  lemma KeyOfSmall(x: int, e: int)
    requires e > 0 && -e < x < e
    ensures Key(x, e) == x
  {
    QuotUnique(x, e, 0);
  }

  /** The key one decimal place up is the digit at `e` followed by the key below `e`. */
  lemma KeyDecompose(x: int, e: int)
    requires e > 0
    ensures Key(x, 10 * e) == (Digit(x, e) - 9) * e + Key(x, e)
  {
    var q := Quot(x, e);
    var big := Quot(q, 10);
    var d := Rem(q, 10);
    var low := d * e + Key(x, e);
    Regroup(x, e, q, big, d, Key(x, e));
    LowBounds(x, e, d, Key(x, e));
    QuotUnique(x, 10 * e, big);
  }

  /** `x = q e + k` and `q = 10 big + d` give `x = big (10 e) + (d e + k)`. */
  lemma Regroup(x: int, e: int, q: int, big: int, d: int, k: int)
    requires x == q * e + k && q == big * 10 + d
    ensures x == big * (10 * e) + (d * e + k)
  {
    Distribute(big * 10, d, e);
    assert big * 10 * e == big * (10 * e);
  }

  /** A digit `d` and a key `k` below `e` of the same sign as `x` make up a key below `10 e`. */
  lemma LowBounds(x: int, e: int, d: int, k: int)
    requires e > 0
    requires x >= 0 ==> 0 <= d < 10 && 0 <= k < e
    requires x < 0 ==> -10 < d <= 0 && -e < k <= 0
    ensures x >= 0 ==> 0 <= d * e + k < 10 * e
    ensures x < 0 ==> -10 * e < d * e + k <= 0
  {
    if x >= 0 {
      MultipleAwayFromZero(9 - d, e);
      Distribute(9, -d, e);
      MultipleAwayFromZero(d, e);
    } else {
      MultipleAwayFromZero(-9 - d, e);
      Distribute(-9, -d, e);
      MultipleAwayFromZero(d, e);
    }
  }

  /** One pass turns order by the key below `e` into order by the key below `10 e`: two numbers
      are in key order at `10 e` exactly when their digits at `e` are in order, or are equal and
      their keys below `e` are in order. */
  lemma KeyStep(x: int, y: int, e: int)
    requires e > 0
    ensures Key(x, 10 * e) <= Key(y, 10 * e) <==>
              Digit(x, e) < Digit(y, e) || (Digit(x, e) == Digit(y, e) && Key(x, e) <= Key(y, e))
  {
    KeyDecompose(x, e);
    KeyDecompose(y, e);
    var dx, dy := Digit(x, e) - 9, Digit(y, e) - 9;
    if dx < dy {
      DigitGap(x, y, e);
    } else if dy < dx {
      DigitGap(y, x, e);
    }
  }

  /** A smaller digit at `e` means a strictly smaller key at `10 e`. */
  lemma DigitGap(x: int, y: int, e: int)
    requires e > 0 && Digit(x, e) < Digit(y, e)
    ensures (Digit(x, e) - 9) * e + Key(x, e) < (Digit(y, e) - 9) * e + Key(y, e)
  {
    var dx, dy := Digit(x, e) - 9, Digit(y, e) - 9;
    MultipleAwayFromZero(dy - dx, e);
    Distribute(dy, dx, e);
    if dx >= 0 {
      assert y >= 0;
    } else {
      assert x < 0;
    }
  }

  /** When every number is less than `10 exp` in magnitude, the digit at `exp` is the whole
      truncated quotient, so bucket order agrees with numeric order. */
  lemma DigitMonotone(x: int, y: int, exp: int)
    requires exp > 0 && x <= y
    requires -10 * exp < x && y < 10 * exp
    ensures Digit(x, exp) <= Digit(y, exp)
  {
    QuotMonotone(x, y, exp);
    SmallQuot(x, exp);
    SmallQuot(y, exp);
  }

  lemma SmallQuot(x: int, exp: int)
    requires exp > 0 && -10 * exp < x < 10 * exp
    ensures Rem(Quot(x, exp), 10) == Quot(x, exp)
  {
    var q := Quot(x, exp);
    MultipleAwayFromZero(q - 10, exp);
    Distribute(q, -10, exp);
    MultipleAwayFromZero(q + 10, exp);
    Distribute(q, 10, exp);
    QuotUnique(q, 10, 0);
  }

  /** The number of buckets of a pass: digits -9 to 9. */
  const Radix: nat := 19

  /** The digit function of the pass with divisor `exp`, as a value. */
  function DigitOf(exp: int): (dig: int -> int)
    requires exp > 0
    ensures forall x :: dig(x) == Digit(x, exp)
    ensures forall x :: 0 <= dig(x) < Radix
  {
    x => Digit(x, exp)
  }

  /** Every position of the pass result lies at or after the start of its own digit's bucket. */
  lemma AfterBucketStart(s: seq<int>, dig: int -> int, p: int)
    requires forall x :: 0 <= dig(x) < Radix
    requires 0 <= p < |Buckets(s, dig, Radix)|
    ensures p >= |Buckets(s, dig, dig(Buckets(s, dig, Radix)[p]))|
  {
    var t := Buckets(s, dig, Radix);
    var y := t[p];
    var d := dig(y);
    assert 0 <= dig(y) < Radix;
    BucketsPrefixDigits(s, dig, d, Radix);
  }

  /** Where the backward scan puts `a[i]`: in the pass result it sits at the start of the bucket
      of its digit plus the number of earlier elements with that digit. */
  lemma Place(a: seq<int>, dig: int -> int, i: int)
    requires 0 <= i < |a| && 0 <= dig(a[i]) < Radix
    ensures |Buckets(a, dig, dig(a[i]))| + |Picked(a, dig, dig(a[i]), i)| < |Buckets(a, dig, Radix)|
    ensures Buckets(a, dig, Radix)[|Buckets(a, dig, dig(a[i]))| + |Picked(a, dig, dig(a[i]), i)|] == a[i]
  {
    var d := dig(a[i]);
    var m := |Picked(a, dig, d, i)|;
    PickedAt(a, dig, i, |a|);
    BucketsAt(a, dig, d, Radix, m);
  }

  /** The key below `e`, as a value. */
  function KeyOf(e: int): (key: int -> int)
    requires e > 0
    ensures forall x :: key(x) == Key(x, e)
  {
    x => Key(x, e)
  }

  /** One pass with divisor `e` over an array in order by the key below `e` leaves it in order by
      the key below `10 e`. */
  lemma PassKeySorted(s: seq<int>, e: int)
    requires e > 0 && KeySorted(s, KeyOf(e))
    ensures KeySorted(Buckets(s, DigitOf(e), Radix), KeyOf(10 * e))
  {
    var t := Buckets(s, DigitOf(e), Radix);
    BucketsLex(s, DigitOf(e), KeyOf(e), Radix);
    forall p, q | 0 <= p < q < |t|
      ensures Key(t[p], 10 * e) <= Key(t[q], 10 * e)
    {
      KeyStep(t[p], t[q], e);
    }
  }

  /** A pass whose divisor is more than a tenth of every magnitude keeps a sorted array sorted:
      there the digit only grows with the number. */
  lemma PassKeepsSorted(s: seq<int>, exp: int)
    requires exp > 0 && KeySorted(s, Itself())
    requires forall k :: 0 <= k < |s| ==> -10 * exp < s[k] < 10 * exp
    ensures KeySorted(Buckets(s, DigitOf(exp), Radix), Itself())
  {
    var dig := DigitOf(exp);
    var t := Buckets(s, dig, Radix);
    BucketsLex(s, dig, Itself(), Radix);
    BucketsBag(s, dig, Radix);
    forall p, q | 0 <= p < q < |t|
      ensures t[p] <= t[q]
    {
      assert t[p] in multiset(s) && t[q] in multiset(s);
      LexToSorted(t[p], t[q], exp);
    }
  }

  /** Digit-then-value order between two numbers below `10 exp` in magnitude is value order. */
  lemma LexToSorted(x: int, y: int, exp: int)
    requires exp > 0 && -10 * exp < x < 10 * exp && -10 * exp < y < 10 * exp
    requires Digit(x, exp) < Digit(y, exp) || (Digit(x, exp) == Digit(y, exp) && x <= y)
    ensures x <= y
  {
    if y < x {
      DigitMonotone(y, x, exp);
    }
  }

  /** `count[d]` is the number of elements of `a[..i]` with digit `d`. */
  ghost predicate Tallied(a: seq<int>, dig: int -> int, count: seq<int>, i: int)
    requires 0 <= i <= |a|
  {
    |count| == Radix &&
    forall d {:trigger count[d]} :: 0 <= d < Radix ==> count[d] == |Picked(a, dig, d, i)|
  }

  /** During the backward scan, with `a[..i]` still to place: `count[d]` is the start of bucket
      `d` in the pass result plus the number of elements of `a[..i]` with digit `d`. */
  ghost predicate Pending(a: seq<int>, dig: int -> int, count: seq<int>, i: int)
    requires 0 <= i <= |a|
  {
    |count| == Radix &&
    forall d {:trigger count[d]} ::
      0 <= d < Radix ==> count[d] == |Buckets(a, dig, d)| + |Picked(a, dig, d, i)|
  }

  /** During the backward scan, with `a[..i]` still to place: position `p` of the pass result
      lies past the slots of its bucket kept for those elements. */
  ghost predicate Settled(a: seq<int>, dig: int -> int, i: int, p: int)
    requires 0 <= i <= |a| && 0 <= p < |Buckets(a, dig, Radix)|
  {
    var d := dig(Buckets(a, dig, Radix)[p]);
    p - |Buckets(a, dig, d)| >= |Picked(a, dig, d, i)|
  }

  /** During the backward scan, with `a[..i]` still to place: every settled position already
      holds its final value. */
  ghost predicate Filled(a: seq<int>, dig: int -> int, output: seq<int>, i: int)
    requires 0 <= i <= |a|
  {
    var t := Buckets(a, dig, Radix);
    |output| == |t| &&
    forall p {:trigger Settled(a, dig, i, p)} :: 0 <= p < |t| && Settled(a, dig, i, p) ==> output[p] == t[p]
  }

  /** Before the backward scan nothing is placed yet, and no position claims to be filled. */
  lemma FilledStart(a: seq<int>, dig: int -> int, output: seq<int>)
    requires forall x :: 0 <= dig(x) < Radix
    requires |output| == |Buckets(a, dig, Radix)|
    ensures Filled(a, dig, output, |a|)
  {
    var t := Buckets(a, dig, Radix);
    forall p | 0 <= p < |t|
      ensures !Settled(a, dig, |a|, p)
    {
      BeforeBucketEnd(a, dig, p);
    }
  }

  /** Every position of the pass result lies before the end of its own digit's bucket. */
  lemma BeforeBucketEnd(s: seq<int>, dig: int -> int, p: int)
    requires forall x :: 0 <= dig(x) < Radix
    requires 0 <= p < |Buckets(s, dig, Radix)|
    ensures p < |Buckets(s, dig, dig(Buckets(s, dig, Radix)[p]))| +
                |Bucket(s, dig, dig(Buckets(s, dig, Radix)[p]))|
  {
    var t := Buckets(s, dig, Radix);
    var y := t[p];
    var d := dig(y);
    assert 0 <= dig(y) < Radix;
    assert Buckets(s, dig, d + 1) == Buckets(s, dig, d) + Bucket(s, dig, d);
    BucketsSuffixDigits(s, dig, d + 1, Radix);
  }

  /** Once every element is placed, every position is settled: the output is the pass result. */
  lemma FilledEnd(a: seq<int>, dig: int -> int, output: seq<int>)
    requires forall x :: 0 <= dig(x) < Radix
    requires Filled(a, dig, output, 0)
    ensures output == Buckets(a, dig, Radix)
  {
    var t := Buckets(a, dig, Radix);
    forall p | 0 <= p < |t|
      ensures output[p] == t[p]
    {
      AfterBucketStart(a, dig, p);
      assert Settled(a, dig, 0, p);
    }
  }

  /** The count loop: one digit per element. */
  method Tally(a: seq<int>, exp: int) returns (count: seq<int>)
    requires exp > 0
    ensures Tallied(a, DigitOf(exp), count, |a|)
  {
    ghost var dig := DigitOf(exp);
    count := seq(Radix, _ => 0);
    var i := 0;
    while i < |a|
      invariant 0 <= i <= |a| && Tallied(a, dig, count, i)
    {
      var digit := Rem(Quot(a[i], exp), 10) + 9;
      assert digit == dig(a[i]);
      count := count[digit := count[digit] + 1];
      i := i + 1;
    }
  }

  /** The prefix-sum loop: `count[d]` becomes the end of bucket `d` in the pass result. */
  method PrefixSums(a: seq<int>, dig: int -> int, count: seq<int>) returns (ends: seq<int>)
    requires Tallied(a, dig, count, |a|)
    ensures Pending(a, dig, ends, |a|)
  {
    ends := count;
    assert Buckets(a, dig, 1) == Buckets(a, dig, 0) + Bucket(a, dig, 0);
    var i := 1;
    while i < Radix
      invariant 1 <= i <= Radix && |ends| == Radix
      invariant forall d :: 0 <= d < i ==> ends[d] == |Buckets(a, dig, d + 1)|
      invariant forall d :: i <= d < Radix ==> ends[d] == |Bucket(a, dig, d)|
    {
      assert Buckets(a, dig, i + 1) == Buckets(a, dig, i) + Bucket(a, dig, i);
      ends := ends[i := ends[i] + ends[i - 1]];
      i := i + 1;
    }
    forall d | 0 <= d < Radix
      ensures ends[d] == |Buckets(a, dig, d)| + |Picked(a, dig, d, |a|)|
    {
      assert Buckets(a, dig, d + 1) == Buckets(a, dig, d) + Bucket(a, dig, d);
    }
  }

  /** One step of the backward scan, with the first `n` elements still to place: `a[n - 1]`,
      whose digit is `digit`, goes to the last free slot of its bucket. */
  method PlaceOne(a: seq<int>, dig: int -> int, digit: int, count: seq<int>, output: seq<int>, n: int)
    returns (count': seq<int>, output': seq<int>)
    requires 0 < n <= |a| && digit == dig(a[n - 1]) && 0 <= digit < Radix
    requires Pending(a, dig, count, n) && Filled(a, dig, output, n)
    ensures Pending(a, dig, count', n - 1) && Filled(a, dig, output', n - 1)
  {
    PendingStep(a, dig, count, n);
    Place(a, dig, n - 1);
    FilledStep(a, dig, output, n, count[digit] - 1);
    output' := output[count[digit] - 1 := a[n - 1]];
    count' := count[digit := count[digit] - 1];
  }

  /** Placing `a[n - 1]` takes one slot from the count of its digit, which then points at it. */
  lemma PendingStep(a: seq<int>, dig: int -> int, count: seq<int>, n: int)
    requires 0 < n <= |a| && 0 <= dig(a[n - 1]) < Radix && Pending(a, dig, count, n)
    ensures count[dig(a[n - 1])] - 1 == |Buckets(a, dig, dig(a[n - 1]))| + |Picked(a, dig, dig(a[n - 1]), n - 1)|
    ensures Pending(a, dig, count[dig(a[n - 1]) := count[dig(a[n - 1])] - 1], n - 1)
  {
  }

  /** Writing `a[n - 1]` at its slot `pos` extends the filled part of its bucket by one
      position. */
  lemma FilledStep(a: seq<int>, dig: int -> int, output: seq<int>, n: int, pos: int)
    requires 0 < n <= |a| && 0 <= dig(a[n - 1]) < Radix && Filled(a, dig, output, n)
    requires pos == |Buckets(a, dig, dig(a[n - 1]))| + |Picked(a, dig, dig(a[n - 1]), n - 1)|
    requires 0 <= pos < |output| && Buckets(a, dig, Radix)[pos] == a[n - 1]
    ensures Filled(a, dig, output[pos := a[n - 1]], n - 1)
  {
    SettledBefore(a, dig, n);
  }

  /** Apart from the slot of `a[n - 1]`, the positions settled once it is placed were settled
      before. */
  lemma SettledBefore(a: seq<int>, dig: int -> int, n: int)
    requires 0 < n <= |a|
    ensures forall p {:trigger Settled(a, dig, n - 1, p)} ::
              0 <= p < |Buckets(a, dig, Radix)| && Settled(a, dig, n - 1, p) &&
                p != |Buckets(a, dig, dig(a[n - 1]))| + |Picked(a, dig, dig(a[n - 1]), n - 1)| ==>
                  Settled(a, dig, n, p)
  {
  }

  /** `CountingSortByDigit(array, exp)`: the stable distribution of the array by its digit at
      `exp`, written back over the array. */
  method CountingSortByDigit(a: seq<int>, exp: int) returns (r: seq<int>)
    requires exp > 0
    ensures r == Buckets(a, DigitOf(exp), Radix)
    ensures multiset(r) == multiset(a)
  {
    var count := Tally(a, exp);
    count := PrefixSums(a, DigitOf(exp), count);
    var output := Scatter(a, exp, count);
    BucketsBag(a, DigitOf(exp), Radix);
    r := CopyInto(a, output);
  }

  /** The backward loop: every element, from the last, goes to the last free slot of its
      bucket, which yields the stable distribution. */
  method Scatter(a: seq<int>, exp: int, count: seq<int>) returns (output: seq<int>)
    requires exp > 0 && Pending(a, DigitOf(exp), count, |a|)
    ensures output == Buckets(a, DigitOf(exp), Radix)
  {
    output := ScatterBy(a, DigitOf(exp), count);
  }

  /** A pass keeps the length of the array: every digit names one of the buckets. */
  lemma PassLength(a: seq<int>, dig: int -> int)
    requires forall x :: 0 <= dig(x) < Radix
    ensures |Buckets(a, dig, Radix)| == |a|
  {
    forall k | 0 <= k < |a|
      ensures 0 <= dig(a[k]) < Radix
    {
      var y := a[k];
      assert 0 <= dig(y) < Radix;
    }
    BucketsBag(a, dig, Radix);
  }

  /** The backward loop for a given digit function. */
  method ScatterBy(a: seq<int>, dig: int -> int, count: seq<int>) returns (output: seq<int>)
    requires forall x :: 0 <= dig(x) < Radix
    requires Pending(a, dig, count, |a|)
    ensures output == Buckets(a, dig, Radix)
  {
    PassLength(a, dig);
    var blank := seq(|a|, _ => 0);
    FilledStart(a, dig, blank);
    output := ScanDown(a, dig, count, blank);
    FilledEnd(a, dig, output);
  }

  /** The loop itself, from the last element down to the first. */
  method ScanDown(a: seq<int>, dig: int -> int, count: seq<int>, blank: seq<int>)
    returns (output: seq<int>)
    requires forall x :: 0 <= dig(x) < Radix
    requires Pending(a, dig, count, |a|) && Filled(a, dig, blank, |a|)
    ensures Filled(a, dig, output, 0)
  {
    output := blank;
    var count := count;
    var n := |a|;
    while n > 0
      invariant 0 <= n <= |a|
      invariant Pending(a, dig, count, n) && Filled(a, dig, output, n)
    {
      var x := a[n - 1];
      var digit := dig(x);
      assert 0 <= dig(x) < Radix;
      count, output := PlaceOne(a, dig, digit, count, output, n);
      n := n - 1;
    }
  }

  /** The loop over `Math.Abs(array[i])`: the largest magnitude in the array. `array[0]` is read
      first, so an empty array fails, and `Math.Abs(int.MinValue)` overflows. */
  method MaxMagnitude(a: seq<int>) returns (result: Outcome<int>)
    requires AllInt32(a)
    ensures |a| == 0 ==> result == Thrown(IndexOutOfRange)
    ensures |a| > 0 ==> (result.Thrown? <==> MinInt in a)
    ensures |a| > 0 && result.Thrown? ==> result.error == Overflow
    ensures result.Done? ==> 0 <= result.value <= MaxInt
    ensures result.Done? ==> exists k :: 0 <= k < |a| && (a[k] == result.value || a[k] == -result.value)
    ensures result.Done? ==> forall k :: 0 <= k < |a| ==> -result.value <= a[k] <= result.value
  {
    if |a| == 0 {
      return Thrown(IndexOutOfRange);
    }
    var first := Abs(a[0]);
    if first.Thrown? {
      return first;
    }
    var max := first.value;
    ghost var at := 0;
    var i := 1;
    while i < |a|
      invariant 1 <= i <= |a| && 0 <= at < i
      invariant MinInt !in a[..i]
      invariant 0 <= max <= MaxInt && (a[at] == max || a[at] == -max)
      invariant forall k :: 0 <= k < i ==> -max <= a[k] <= max
    {
      var v := Abs(a[i]);
      if v.Thrown? {
        return v;
      }
      if v.value > max {
        max, at := v.value, i;
      }
      assert a[..i + 1] == a[..i] + [a[i]];
      i := i + 1;
    }
    assert a[..i] == a;
    return Done(max);
  }

  /** `10^j`. */
  function Pow10(j: nat): (r: nat)
    ensures r > 0
  {
    if j == 0 then 1 else 10 * Pow10(j - 1)
  }

  /** Below `10^9`, one more factor of ten still fits in an `int`. */
  lemma {:induction false} Pow10Small(j: nat)
    requires j <= 9
    ensures Pow10(j) <= 1_000_000_000
    decreases 9 - j
  {
    if j < 9 {
      Pow10Small(j + 1);
    } else {
      assert Pow10(9) == 1_000_000_000;
    }
  }

  /** Every number is equivalent under the key below 1: nothing is ordered yet. */
  lemma KeyOfOne(s: seq<int>)
    ensures KeySorted(s, KeyOf(1))
  {
    forall p, q | 0 <= p < q < |s|
      ensures Key(s[p], 1) <= Key(s[q], 1)
    {
    }
  }

  /** Numbers below `e` in magnitude in order by their key below `e` are in order. */
  lemma SortedOfKeySorted(s: seq<int>, e: int)
    requires e > 0 && KeySorted(s, KeyOf(e))
    requires forall k :: 0 <= k < |s| ==> -e < s[k] < e
    ensures Sorted(s)
  {
    forall p, q | 0 <= p < q < |s|
      ensures s[p] <= s[q]
    {
      KeyOfSmall(s[p], e);
      KeyOfSmall(s[q], e);
    }
  }

  /** The whole routine: the largest magnitude, then the passes. */
  method Sort(a: seq<int>) returns (result: Outcome<seq<int>>)
    requires AllInt32(a)
    ensures result == Thrown(IndexOutOfRange) <==> |a| == 0
    ensures result == Thrown(Overflow) <==> MinInt in a
    ensures result.Done? <==> |a| > 0 && MinInt !in a
    ensures result.Done? ==> Sorted(result.value) && multiset(result.value) == multiset(a)
  {
    var m := MaxMagnitude(a);
    if m.Thrown? {
      return Thrown(m.error);
    }
    var r := Passes(a, m.value);
    return Done(r);
  }

  /** The `exp` loop. The divisor `exp` is an `int` that is multiplied by ten until the quotient
      `max / exp` is 0; past `10^9` the multiplication wraps around, to 1410065408, then
      1215752192, then the negative -727379968, where the quotient stops the loop. The passes at
      the two wrapped divisors see numbers below ten times the divisor, and keep the array
      sorted. */
  method Passes(a: seq<int>, max: int) returns (r: seq<int>)
    requires 0 <= max <= MaxInt
    requires forall k :: 0 <= k < |a| ==> -max <= a[k] <= max
    ensures Sorted(r) && multiset(r) == multiset(a)
  {
    r := a;
    var exp := 1;
    ghost var j := 0;
    KeyOfOne(r);
    while Quot(max, exp) > 0
      invariant 0 <= j <= 12 && Divisor(j, exp)
      invariant multiset(r) == multiset(a)
      invariant forall k :: 0 <= k < |r| ==> -max <= r[k] <= max
      invariant PassesDone(r, j)
      decreases 12 - j
    {
      ghost var before := r;
      r := CountingSortByDigit(r, exp);
      Magnitudes(before, r, max);
      PassStep(before, r, exp, j, max);
      NextDivisor(j, exp);
      exp := Wrap32(exp * 10);
      j := j + 1;
    }
    Finish(r, exp, j, max);
  }

  /** The divisor after `j` multiplications by ten in 32-bit arithmetic. */
  ghost predicate Divisor(j: int, exp: int) {
    && (0 <= j <= 9 ==> exp == Pow10(j))
    && (j == 10 ==> exp == 1410065408)
    && (j == 11 ==> exp == 1215752192)
    && (j == 12 ==> exp == -727379968)
  }

  /** What the first `j` passes achieve: order by the key below `10^j`, and once `10^j` exceeds
      every `int`, plain order. */
  ghost predicate PassesDone(r: seq<int>, j: int) {
    && (0 <= j <= 10 ==> KeySorted(r, KeyOf(Pow10(j))))
    && (j >= 10 ==> Sorted(r))
  }

  /** The wrapped multiplication `exp *= 10` moves from one divisor to the next. */
  lemma NextDivisor(j: int, exp: int)
    requires 0 <= j < 12 && Divisor(j, exp)
    ensures Divisor(j + 1, Wrap32(exp * 10))
  {
    if j <= 8 {
      Pow10Small(j + 1);
    }
  }

  /** The pass with the `j`-th divisor extends the order reached by the earlier passes. */
  lemma PassStep(before: seq<int>, r: seq<int>, exp: int, j: int, max: int)
    requires 0 <= j < 12 && Divisor(j, exp) && exp > 0 && PassesDone(before, j)
    requires r == Buckets(before, DigitOf(exp), Radix)
    requires 0 <= max <= MaxInt
    requires forall k :: 0 <= k < |before| ==> -max <= before[k] <= max
    requires forall k :: 0 <= k < |r| ==> -max <= r[k] <= max
    ensures PassesDone(r, j + 1)
  {
    if j <= 9 {
      PassKeySorted(before, exp);
      if j == 9 {
        assert Pow10(10) == 10_000_000_000;
        SortedOfKeySorted(r, Pow10(10));
      }
    } else {
      SortedIsKeySorted(before);
      PassKeepsSorted(before, exp);
      SortedIsKeySorted(r);
    }
  }

  /** When the loop stops, either `10^j` exceeds `max`, or the wrapped passes have run. */
  lemma Finish(r: seq<int>, exp: int, j: int, max: int)
    requires 0 <= j <= 12 && Divisor(j, exp) && PassesDone(r, j)
    requires 0 <= max <= MaxInt && !(Quot(max, exp) > 0)
    requires forall k :: 0 <= k < |r| ==> -max <= r[k] <= max
    ensures Sorted(r)
  {
    if j <= 9 {
      SortedOfKeySorted(r, Pow10(j));
    } else if j == 10 {
      assert Pow10(10) == 10_000_000_000;
      SortedOfKeySorted(r, Pow10(10));
    }
  }

  /** A pass keeps every element within `max` in magnitude: it only rearranges. */
  lemma Magnitudes(s: seq<int>, t: seq<int>, max: int)
    requires multiset(t) == multiset(s)
    requires forall k :: 0 <= k < |s| ==> -max <= s[k] <= max
    ensures forall k :: 0 <= k < |t| ==> -max <= t[k] <= max
  {
    forall k | 0 <= k < |t|
      ensures -max <= t[k] <= max
    {
      assert t[k] in multiset(s);
    }
  }

  lemma SortedIsKeySorted(s: seq<int>)
    ensures Sorted(s) <==> KeySorted(s, Itself())
  {
  }
}
