/**
 * The LCP table of the older class in the root `suffixArray.cpp`.  Its
 * recursive fill starts from the interval `(-1, n-1)`, whose lower end is
 * a virtual rank below every suffix: `LCP[0]` is 0 and stands for the
 * common prefix of that rank with rank 0, so every interval starting at
 * -1 stores 0, and the search starting from -1 reads those entries.
 */
module LegacyLcp {
  import opened Lex
  import opened SaisSpec
  import opened LcpTable

  /** `(a, b)` is one of the intervals the fill of the whole table of `s` from `(-1, |s|-1)` visits. */
  ghost predicate LegacyVisits(s: seq<int>, a: int, b: int) {
    Visits(-1, |s| - 1, a, b)
  }

  /**
   * The table of the older class: neighbouring common prefixes in
   * `1 .. n-1`, 0 in entry 0, and for each interval of two or more the
   * fill visits from `(-1, n-1)` the common prefix of its end suffixes at
   * `n + mid`, or 0 when it starts at the virtual rank -1.
   */
  ghost predicate IsLegacyLcpTable(s: seq<int>, sa: seq<int>, L: seq<int>)
    requires |sa| == |s| && forall r :: 0 <= r < |sa| ==> 0 <= sa[r] < |s|
  {
    var holds :=
      && |L| == 2 * |s| - 1 && |s| > 0 && L[0] == 0
      && AdjacentLcps(s, sa, L)
      && forall a, b :: LegacyVisits(s, a, b) && b - a >= 2 ==>
           && -1 <= a < b < |s| && |s| + (a + b) / 2 < |L|
           && L[|s| + (a + b) / 2] == (if a < 0 then 0 else Lcp(SufAt(s, sa, a), SufAt(s, sa, b)));
    holds
  }

  /** An interval starting at the virtual rank covers entry 0, so its minimum over common prefixes is 0. */
  lemma FromVirtualRank(s: seq<int>, sa: seq<int>, L: seq<int>, b: int)
    requires 0 <= b < |s| && IsSuffixArray(s, sa) && AdjacentLcps(s, sa, L) && L[0] == 0
    ensures RangeMin(L, -1, b) == 0
  {
    RangeMinAtMost(L, -1, b, 0);
    forall x | -1 < x <= b
      ensures L[x] >= 0
    {
      if x > 0 {
        assert L[x] == Lcp(SufAt(s, sa, x - 1), SufAt(s, sa, x));
      }
    }
    RangeMinAtLeast(L, -1, b, 0);
  }

  /**
   * Adjacent entries with entry 0 cleared, and every interval the fill
   * from `(-1, n-1)` visits holding its minimum at its midpoint, make the
   * table of the older class.
   */
  lemma LegacyTableFromFill(s: seq<int>, sa: seq<int>, L0: seq<int>, L: seq<int>)
    requires IsSuffixArray(s, sa) && AdjacentLcps(s, sa, L0) && |L0| == 2 * |s| - 1 && L0[0] == 0
    requires if |s| == 1 then L == L0 else Filled(L0, L, |s|, -1, |s| - 1)
    ensures IsLegacyLcpTable(s, sa, L)
  {
    assert |L| == |L0| && forall x :: 0 <= x < |s| ==> L[x] == L0[x];
    assert AdjacentLcps(s, sa, L) && L[0] == 0;
    forall a, b | LegacyVisits(s, a, b) && b - a >= 2
      ensures && -1 <= a < b < |s| && |s| + (a + b) / 2 < |L|
              && L[|s| + (a + b) / 2] == (if a < 0 then 0 else Lcp(SufAt(s, sa, a), SufAt(s, sa, b)))
    {
      VisitsInside(-1, |s| - 1, a, b);
      assert |s| > 1;
      assert L[|s| + (a + b) / 2] == RangeMin(L0, a, b);
      if a < 0 {
        FromVirtualRank(s, sa, L0, b);
      } else {
        RangeMinIsLcp(s, sa, L0, a, b);
      }
    }
  }

  /**
   * Kasai's scan over all suffixes, entry 0 cleared and the fill from the
   * virtual rank done make the table of the older class.
   */
  lemma LegacyKasaiDone(s: seq<int>, sa: seq<int>, rank: seq<int>, Lk: seq<int>, L: seq<int>)
    requires |sa| == |s| && Ranks(sa, rank) && |Lk| == 2 * |s| - 1 && |s| > 0
    requires IsSuffixArray(s, sa) ==>
               forall p {:trigger NextLcp(s, sa, rank, p)} :: 0 <= p < |s| && rank[p] < |s| - 1 ==> Lk[rank[p] + 1] == NextLcp(s, sa, rank, p)
    requires if |s| == 1 then L == Lk[0 := 0] else Filled(Lk[0 := 0], L, |s|, -1, |s| - 1)
    ensures IsSuffixArray(s, sa) ==> IsLegacyLcpTable(s, sa, L)
  {
    if IsSuffixArray(s, sa) {
      AdjacentFromNext(s, sa, rank, Lk[0 := 0]);
      LegacyTableFromFill(s, sa, Lk[0 := 0], L);
    }
  }

  /** C++ division by 2 of a signed integer: the quotient is truncated toward zero. */
  function Half(x: int): (h: int)
    ensures x >= 0 ==> h == x / 2
    ensures 2 * h == x || 2 * h == x + (if x < 0 then 1 else -1)
  {
    if x < 0 then -((-x) / 2) else x / 2
  }

  /**
   * The recursive calls the older fill makes on `(i, j)` as written: the
   * upper three for three neighbours, none for two, and the halves
   * otherwise, one neighbour included, since that width is not tested.
   */
  function LegacyRecCalls(i: int, j: int): (calls: seq<(int, int)>)
    requires -1 <= i <= j
    ensures j - i >= 2 ==> forall c :: c in calls ==> i <= c.0 < c.1 <= j && c.1 - c.0 < j - i
  {
    var mid := Half(i + j);
    if j - i == 2 then []
    else if j - i == 3 then [(i + 1, j)]
    else [(i, mid), (mid, j)]
  }

  /**
   * For the empty text the whole-table call is `(-1, 0)`, one neighbour
   * wide, and its first call repeats it, so the fill never ends.
   */
  lemma OneNeighbourRecursesForever()
    ensures LegacyRecCalls(-1, 0)[0] == (-1, 0)
  {
  }
}
