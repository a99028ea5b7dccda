/** `ShellSort.Sort(int[])`: gapped insertion sort with the gaps `n/2, n/4, ..., 1`. */
module ShellSort {
  import opened Order

  /** Every chain of positions `gap` apart is in order on the prefix `[0, hi)`. */
  ghost predicate GapSorted(s: seq<int>, gap: int, hi: int)
    requires 1 <= gap && 0 <= hi <= |s|
  {
    forall p, q :: 0 <= p < q < hi && q - p == gap ==> s[p] <= s[q]
  }

  /** The gaps the outer loop visits when it starts from `g`: `g, g/2, g/4, ...` while positive. */
  function Halvings(g: int): seq<int>
    decreases if g > 0 then g else 0
  {
    if g <= 0 then [] else [g] + Halvings(g / 2)
  }

  /** The gaps are positive and strictly decreasing; they start at `g` and, unless there are
      none, end with 1. */
  lemma {:induction false} HalvingsShape(g: int)
    ensures forall k :: 0 <= k < |Halvings(g)| ==> Halvings(g)[k] > 0
    ensures forall k :: 0 < k < |Halvings(g)| ==> Halvings(g)[k] < Halvings(g)[k - 1]
    ensures |Halvings(g)| > 0 <==> g > 0
    ensures |Halvings(g)| > 0 ==> Halvings(g)[0] == g && Halvings(g)[|Halvings(g)| - 1] == 1
    decreases if g > 0 then g else 0
  {
    if g > 0 {
      HalvingsShape(g / 2);
    }
  }

  /** One step of a gap pass: `temp = array[i]` moves down its chain past strictly greater
      elements, and every chain is then in order on `[0, i]`. Positions after `i` are untouched. */
  method GapInsert(a: seq<int>, gap: int, i: int) returns (r: seq<int>)
    requires 1 <= gap <= i < |a| && GapSorted(a, gap, i)
    ensures |r| == |a| && GapSorted(r, gap, i + 1)
    ensures multiset(r) == multiset(a)
    ensures forall k :: i < k < |a| ==> r[k] == a[k]
  {
    var temp := a[i];
    var j := i;
    r := a;
    ghost var h := a;  // the contents with `temp` put back into the hole at `j`
    while j >= gap && r[j - gap] > temp
      invariant 0 <= j <= i && |r| == |a| == |h|
      invariant Hole(r, gap, i, j, temp)
      invariant h[j] == temp && forall k :: 0 <= k < |r| && k != j ==> r[k] == h[k]
      invariant multiset(h) == multiset(a)
      invariant forall k :: i < k < |r| ==> r[k] == a[k]
      decreases j
    {
      HoleStep(r, gap, i, j, temp);
      h := Swap(h, j - gap, j);
      r := r[j := r[j - gap]];
      j := j - gap;
    }
    r := r[j := temp];
    assert r == h;
    ChainPlaced(r, gap, i, j);
  }

  /** While `temp` is moving down its chain, the hole is at `j`: all chain pairs not ending at
      the hole are in order, the pair bridging the hole is in order, and the element one gap
      above the hole is strictly greater than `temp`. */
  ghost predicate Hole(r: seq<int>, gap: int, i: int, j: int, temp: int)
    requires 1 <= gap && 0 <= j <= i < |r|
  {
    && (forall p, q :: 0 <= p < q <= i && q - p == gap && q != j ==> r[p] <= r[q])
    && (gap <= j && j + gap <= i ==> r[j - gap] <= r[j + gap])
    && (j + gap <= i ==> temp < r[j + gap])
  }

  /** Shifting the greater element `r[j - gap]` up into the hole moves the hole down one gap. */
  lemma HoleStep(r: seq<int>, gap: int, i: int, j: int, temp: int)
    requires 1 <= gap <= j <= i < |r| && Hole(r, gap, i, j, temp) && r[j - gap] > temp
    ensures Hole(r[j := r[j - gap]], gap, i, j - gap, temp)
  {
  }

  /** Once `temp` sits at `j`, with a not-greater element one gap below it and a strictly greater
      one a gap above it, every chain is in order on `[0, i]`. */
  lemma ChainPlaced(r: seq<int>, gap: int, i: int, j: int)
    requires 1 <= gap && 0 <= j <= i < |r|
    requires forall p, q :: 0 <= p < q <= i && q - p == gap && q != j && p != j ==> r[p] <= r[q]
    requires gap <= j ==> r[j - gap] <= r[j]
    requires j + gap <= i ==> r[j] < r[j + gap]
    ensures GapSorted(r, gap, i + 1)
  {
  }

  /** One pass with a fixed gap: afterwards every chain `gap` apart is in order. */
  method GapPass(a: seq<int>, gap: int) returns (r: seq<int>)
    requires 1 <= gap
    ensures |r| == |a| && GapSorted(r, gap, |r|)
    ensures multiset(r) == multiset(a)
    ensures |a| <= gap ==> r == a
  {
    r := a;
    var i := gap;
    while i < |r|
      invariant |r| == |a| && multiset(r) == multiset(a)
      invariant gap <= i && (i <= |r| || |r| < gap)
      invariant i <= |r| ==> GapSorted(r, gap, i)
      invariant |a| <= gap ==> r == a
    {
      r := GapInsert(r, gap, i);
      i := i + 1;
    }
  }

  /** Chains one apart in order is plain sortedness. */
  lemma {:induction false} OneSorted(s: seq<int>)
    requires GapSorted(s, 1, |s|)
    ensures Sorted(s)
  {
    if |s| > 1 {
      OneSorted(s[..|s| - 1]);
      forall p | 0 <= p < |s| - 1
        ensures s[p] <= s[|s| - 1]
      {
        assert s[..|s| - 1][p] <= s[..|s| - 1][|s| - 2];
      }
      forall p, q | 0 <= p < q < |s|
        ensures s[p] <= s[q]
      {
        if q < |s| - 1 {
          assert s[..|s| - 1][p] <= s[..|s| - 1][q];
        }
      }
    }
  }

  /** After the pass with `gap`, the gaps still to come are those from `gap / 2`. */
  lemma NextGap(gaps: seq<int>, gap: int, all: seq<int>)
    requires gap > 0 && gaps + Halvings(gap) == all
    ensures (gaps + [gap]) + Halvings(gap / 2) == all
  {
    assert Halvings(gap) == [gap] + Halvings(gap / 2);
    assert gaps + ([gap] + Halvings(gap / 2)) == (gaps + [gap]) + Halvings(gap / 2);
  }

  /** The whole routine: the passes run over exactly the gaps `Halvings(n / 2)`; for `n >= 2`
      the last of them is 1, an ordinary insertion sort, which leaves the array sorted. */
  method Sort(a: seq<int>) returns (r: seq<int>, ghost gaps: seq<int>)
    ensures Sorted(r) && multiset(r) == multiset(a)
    ensures |a| < 2 ==> r == a
    ensures gaps == Halvings(|a| / 2)
  {
    var n := |a|;
    r := a;
    gaps := [];
    var gap := n / 2;
    while gap > 0
      invariant |r| == n && multiset(r) == multiset(a)
      invariant 0 <= gap
      invariant gaps + Halvings(gap) == Halvings(n / 2)
      invariant gap > 0 || n < 2 || Sorted(r)
      invariant n < 2 ==> r == a
      decreases gap
    {
      r := GapPass(r, gap);
      if gap == 1 {
        OneSorted(r);
      }
      NextGap(gaps, gap, Halvings(n / 2));
      gaps := gaps + [gap];
      gap := gap / 2;
    }
    if n < 2 {
      assert Sorted(r);
    }
  }
}
