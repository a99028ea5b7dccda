/** What the routines inherit from the .NET runtime: the exceptions they can end with, 32-bit
    `int` arithmetic, and C#'s integer division and remainder, which truncate toward zero. */
module Runtime {

  /** The exceptions a routine of the library can raise on some input. */
  datatype Exception =
    | InvalidOperation   // `InvalidOperationException`, thrown explicitly
    | IndexOutOfRange    // `IndexOutOfRangeException`, an array access past the end
    | Overflow           // `OverflowException`, from `Math.Abs` or a negative array size
    | DivideByZero       // `DivideByZeroException`, an integer division by zero

  /** How a call ends: normally with the final contents of the array, or with an exception. */
  datatype Outcome<T> = Done(value: T) | Thrown(error: Exception)

  const MinInt: int := -0x8000_0000
  const MaxInt: int := 0x7fff_ffff

  /** A value of C#'s `int`. */
  predicate IsInt32(x: int) {
    MinInt <= x <= MaxInt
  }

  /** The contents of an `int[]`: every element is an `int`. */
  ghost predicate AllInt32(s: seq<int>) {
    forall i :: 0 <= i < |s| ==> IsInt32(s[i])
  }

  /** Unchecked 32-bit arithmetic: the result of an `int` operation wraps around modulo 2^32. */
  function Wrap32(x: int): (r: int)
    ensures IsInt32(r)
    ensures (r - x) % 0x1_0000_0000 == 0
    ensures IsInt32(x) ==> r == x
  {
    (x - MinInt) % 0x1_0000_0000 + MinInt
  }

  /** `Math.Abs` on an `int`: the magnitude, except that `int.MinValue` has none that fits and
      raises `OverflowException`. */
  function Abs(x: int): (r: Outcome<int>)
    requires IsInt32(x)
    ensures r.Thrown? <==> x == MinInt
    ensures r.Thrown? ==> r.error == Overflow
    ensures r.Done? ==> IsInt32(r.value) && 0 <= r.value && (r.value == x || r.value == -x)
  {
    if x == MinInt then Thrown(Overflow) else if x < 0 then Done(-x) else Done(x)
  }

  /** C#'s `x / m`: the quotient truncated toward zero. For a positive divisor, `q * m` is the
      multiple of `m` nearest to `x` on the side of zero; a negative divisor flips the sign. */
  function Quot(x: int, m: int): (q: int)
    requires m != 0
    ensures m > 0 && x >= 0 ==> 0 <= q && q * m <= x < q * m + m
    ensures m > 0 && x < 0 ==> q <= 0 && q * m - m < x <= q * m
    ensures m < 0 && x >= 0 ==> q <= 0
    decreases if m < 0 then 1 else 0
  {
    if m < 0 then -Quot(x, -m)
    else if x >= 0 then
      DivBounds(x, m);
      x / m
    else
      DivBounds(-x, m);
      NegateProduct((-x) / m, m);
      -((-x) / m)
  }

  /** Euclidean division of a non-negative number: the quotient times the divisor is at most the
      dividend, and less than one divisor below it. */
  lemma DivBounds(y: int, m: int)
    requires y >= 0 && m > 0
    ensures 0 <= y / m && (y / m) * m <= y < (y / m) * m + m
  {
  }

  lemma NegateProduct(d: int, m: int)
    ensures (-d) * m == -(d * m)
  {
  }

  /** C#'s `x % m` for a positive divisor: the remainder takes the sign of `x`. */
  function Rem(x: int, m: int): (r: int)
    requires m > 0
    ensures x == Quot(x, m) * m + r
    ensures x >= 0 ==> 0 <= r < m
    ensures x < 0 ==> -m < r <= 0
  {
    x - Quot(x, m) * m
  }

  /** A multiple `k * m` of a positive `m` is at least `m` away from zero unless `k` is zero. */
  lemma MultipleAwayFromZero(k: int, m: int)
    requires m > 0
    ensures k >= 1 ==> k * m >= m
    ensures k <= -1 ==> k * m <= -m
  {
  }

  /** The truncated quotient is the only `k` whose multiple `k * m` brackets `x` from the side
      of zero. */
  lemma QuotUnique(x: int, m: int, k: int)
    requires m > 0
    requires x >= 0 ==> k * m <= x < k * m + m
    requires x < 0 ==> k * m - m < x <= k * m
    ensures Quot(x, m) == k
  {
    var q := Quot(x, m);
    MultipleAwayFromZero(q - k, m);
    assert (q - k) * m == q * m - k * m;
  }

  /** Truncated division by a positive number is monotone. */
  lemma QuotMonotone(x: int, y: int, m: int)
    requires m > 0 && x <= y
    ensures Quot(x, m) <= Quot(y, m)
  {
    var qx, qy := Quot(x, m), Quot(y, m);
    MultipleAwayFromZero(qx - qy, m);
    Distribute(qx, qy, m);
  }

  /** A multiple of a positive `m` below `k * m` has a truncated quotient below `k`. */
  lemma QuotBelow(n: int, m: int, k: int)
    requires m > 0 && 0 <= n < k * m
    ensures 0 <= Quot(n, m) < k
  {
    var q := Quot(n, m);
    MultipleAwayFromZero(q - k + 1, m);
    assert (q - k + 1) * m == q * m - k * m + m;
  }

  /** Multiplying `0 <= d < r` by a positive `m` keeps the order. */
  lemma ProductBelow(d: int, r: int, m: int)
    requires 0 <= d < r && m > 0
    ensures 0 <= d * m < r * m
  {
    MultipleAwayFromZero(r - d, m);
    assert (r - d) * m == r * m - d * m;
  }

  lemma Distribute(a: int, b: int, m: int)
    ensures (a + b) * m == a * m + b * m
    ensures (a - b) * m == a * m - b * m
  {
  }
}
