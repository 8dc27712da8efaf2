/**
 * The LCP table: the common prefix of neighbouring suffixes in the suffix
 * array, and the interval minima the recursive fill memoises behind them,
 * one per interval the halving visits, stored at `n + mid`.
 */
module LcpTable {
  import opened Lex
  import opened SaisSpec

  /**
   * The smallest of `L[i+1] .. L[j]`.  The interval may start at -1, the
   * virtual rank below every suffix the older class searches from; its
   * first entry is then `L[0]`.
   */
  function RangeMin(L: seq<int>, i: int, j: int): int
    requires -1 <= i < j < |L|
    decreases j - i
  {
    if j == i + 1 then L[j] else Min(RangeMin(L, i, j - 1), L[j])
  }

  /** The minimum over an interval is the smaller of the minima over its two halves. */
  lemma {:induction false} RangeMinSplit(L: seq<int>, i: int, m: int, j: int)
    requires -1 <= i < m < j < |L|
    ensures RangeMin(L, i, j) == Min(RangeMin(L, i, m), RangeMin(L, m, j))
    decreases j - m
  {
    if j > m + 1 {
      RangeMinSplit(L, i, m, j - 1);
    }
  }

  /** The minimum over `i .. j` reads only `L[i+1] .. L[j]`. */
  lemma {:induction false} RangeMinFrame(L: seq<int>, L': seq<int>, i: int, j: int)
    requires -1 <= i < j < |L| && j < |L'|
    requires forall x :: i < x <= j ==> L[x] == L'[x]
    ensures RangeMin(L, i, j) == RangeMin(L', i, j)
    decreases j - i
  {
    if j > i + 1 {
      RangeMinFrame(L, L', i, j - 1);
    }
  }

  /** The minimum is no larger than any entry it covers. */
  lemma {:induction false} RangeMinAtMost(L: seq<int>, i: int, j: int, x: int)
    requires -1 <= i < x <= j < |L|
    ensures RangeMin(L, i, j) <= L[x]
    decreases j - i
  {
    if j > i + 1 && x < j {
      RangeMinAtMost(L, i, j - 1, x);
    }
  }

  /** The minimum reaches a bound every entry it covers reaches. */
  lemma {:induction false} RangeMinAtLeast(L: seq<int>, i: int, j: int, v: int)
    requires -1 <= i < j < |L|
    requires forall x :: i < x <= j ==> L[x] >= v
    ensures RangeMin(L, i, j) >= v
    decreases j - i
  {
    if j > i + 1 {
      RangeMinAtLeast(L, i, j - 1, v);
    }
  }

  /**
   * `(a, b)` is one of the intervals the recursive fill visits from
   * `(i, j)`: the interval itself, then for three neighbours the upper
   * two, and for more the two halves at the midpoint.
   */
  ghost predicate Visits(i: int, j: int, a: int, b: int)
    decreases j - i
  {
    && i < j
    && (|| (a == i && b == j)
        || (j - i == 3 && Visits(i + 1, j, a, b))
        || (j - i > 3 && (Visits(i, (i + j) / 2, a, b) || Visits((i + j) / 2, j, a, b))))
  }

  /**
   * The recursive calls the fill makes on `(i, j)` as the source writes
   * it, with the width `j - i` compared against 1, 2 and 3 only: none for
   * one or two neighbours, the upper two for three, the halves otherwise.
   */
  function LcpRecCalls(i: int, j: int): (calls: seq<(int, int)>)
    requires 0 <= i <= j
    ensures i < j ==> forall c :: c in calls ==> i <= c.0 < c.1 <= j && c.1 - c.0 < j - i
  {
    var mid := (i + j) / 2;
    if j - i == 1 || j - i == 2 then []
    else if j - i == 3 then [(i + 1, j)]
    else [(i, mid), (mid, j)]
  }

  /**
   * On an empty interval, which the whole-table call `(0, n - 1)` is for the
   * text made of the sentinel alone, the first call repeats itself, so the
   * recursion never ends.
   */
  lemma EmptyIntervalRecursesForever(i: int)
    requires 0 <= i
    ensures LcpRecCalls(i, i)[0] == (i, i)
  {
  }

  /** The midpoints the recursive fill from `(i, j)` writes. */
  ghost function Written(i: int, j: int): set<int>
    decreases j - i
  {
    if j - i < 2 then {}
    else if j - i == 2 then {(i + j) / 2}
    else if j - i == 3 then {(i + j) / 2} + Written(i + 1, j)
    else {(i + j) / 2} + Written(i, (i + j) / 2) + Written((i + j) / 2, j)
  }

  /** Every written midpoint lies strictly inside the interval. */
  lemma {:induction false} WrittenInside(i: int, j: int, x: int)
    requires x in Written(i, j)
    ensures i < x < j
    decreases j - i
  {
    var mid := (i + j) / 2;
    if j - i == 3 && x != mid {
      WrittenInside(i + 1, j, x);
    } else if j - i > 3 && x != mid {
      if x in Written(i, mid) {
        WrittenInside(i, mid, x);
      } else {
        WrittenInside(mid, j, x);
      }
    }
  }

  /** A visited interval lies inside the first one, and its midpoint is written when it is two or more long. */
  lemma {:induction false} VisitsInside(i: int, j: int, a: int, b: int)
    requires Visits(i, j, a, b)
    ensures i <= a < b <= j
    ensures b - a >= 2 ==> (a + b) / 2 in Written(i, j)
    decreases j - i
  {
    var mid := (i + j) / 2;
    if a == i && b == j {
    } else if j - i == 3 {
      VisitsInside(i + 1, j, a, b);
    } else if Visits(i, mid, a, b) {
      VisitsInside(i, mid, a, b);
    } else {
      VisitsInside(mid, j, a, b);
    }
  }

  /**
   * The halves of a visited interval are visited too, except a half of
   * length one; for three neighbours that is the lower half.
   */
  lemma {:induction false} VisitsHalves(i: int, j: int, a: int, b: int)
    requires Visits(i, j, a, b) && b - a >= 2
    ensures (a + b) / 2 - a >= 2 ==> Visits(i, j, a, (a + b) / 2)
    ensures b - (a + b) / 2 >= 2 ==> Visits(i, j, (a + b) / 2, b)
    decreases j - i
  {
    var mid := (i + j) / 2;
    if a == i && b == j {
      if j - i == 3 {
        assert Visits(i + 1, j, i + 1, j);
      } else if j - i > 3 {
        assert Visits(i, mid, i, mid);
        assert Visits(mid, j, mid, j);
      }
    } else if j - i == 3 {
      VisitsInside(i + 1, j, a, b);
    } else if Visits(i, mid, a, b) {
      VisitsHalves(i, mid, a, b);
    } else {
      VisitsHalves(mid, j, a, b);
    }
  }

  /**
   * `L` is `L0` after the recursive fill from `(i, j)` over a text of
   * length `n`: the adjacent half and every cell the fill does not write
   * are kept, and each visited interval of two or more holds its minimum
   * at `n + mid`.
   */
  ghost predicate Filled(L0: seq<int>, L: seq<int>, n: int, i: int, j: int)
    requires -1 <= i < j < n && |L0| == 2 * n - 1
  {
    var holds :=
      && |L| == |L0|
      && (forall x :: 0 <= x < n ==> L[x] == L0[x])
      && (forall x :: n <= x < |L| && x - n !in Written(i, j) ==> L[x] == L0[x])
      && (forall a, b :: Visits(i, j, a, b) && i <= a && b <= j && b - a >= 2 ==>
            L[n + (a + b) / 2] == RangeMin(L0, a, b));
    holds
  }

  /** An interval of one is only read. */
  lemma FilledOne(L0: seq<int>, n: int, i: int, j: int)
    requires -1 <= i && j == i + 1 && j < n && |L0| == 2 * n - 1
    ensures Filled(L0, L0, n, i, j)
  {
  }

  /** An interval of two stores the smaller of its two entries. */
  lemma FilledTwo(L0: seq<int>, n: int, i: int, j: int)
    requires -1 <= i && j == i + 2 && j < n && |L0| == 2 * n - 1
    ensures RangeMin(L0, i, j) == Min(L0[i + 1], L0[j])
    ensures Filled(L0, L0[n + (i + j) / 2 := Min(L0[i + 1], L0[j])], n, i, j)
  {
    var L := L0[n + (i + j) / 2 := Min(L0[i + 1], L0[j])];
    forall a, b | Visits(i, j, a, b) && i <= a && b <= j && b - a >= 2
      ensures L[n + (a + b) / 2] == RangeMin(L0, a, b)
    {
      assert a == i && b == j;
    }
  }

  /** An interval of three fills its upper two and stores the smaller of its first entry and theirs. */
  lemma FilledThree(L0: seq<int>, L1: seq<int>, n: int, i: int, j: int, r: int)
    requires -1 <= i && j == i + 3 && j < n && |L0| == 2 * n - 1
    requires Filled(L0, L1, n, i + 1, j) && r == RangeMin(L0, i + 1, j)
    ensures Min(L1[i + 1], r) == RangeMin(L0, i, j)
    ensures Filled(L0, L1[n + (i + j) / 2 := Min(L1[i + 1], r)], n, i, j)
  {
    RangeMinSplit(L0, i, i + 1, j);
    var v := Min(L1[i + 1], r);
    var L := L1[n + (i + j) / 2 := v];
    forall x | n <= x < |L| && x - n !in Written(i, j)
      ensures L[x] == L0[x]
    {
    }
    forall a, b | Visits(i, j, a, b) && i <= a && b <= j && b - a >= 2
      ensures L[n + (a + b) / 2] == RangeMin(L0, a, b)
    {
      if !(a == i && b == j) {
        assert Visits(i + 1, j, a, b);
        VisitsInside(i + 1, j, a, b);
      }
    }
  }

  /** A cell the lower half of a long interval stores survives the upper half's fill and is not the midpoint. */
  lemma LowerKept(L0: seq<int>, L1: seq<int>, L2: seq<int>, n: int, i: int, j: int, a: int, b: int)
    requires -1 <= i && j - i > 3 && j < n && |L0| == 2 * n - 1
    requires Filled(L0, L1, n, i, (i + j) / 2) && Filled(L1, L2, n, (i + j) / 2, j)
    requires Visits(i, (i + j) / 2, a, b) && i <= a && b <= (i + j) / 2 && b - a >= 2
    ensures i < (a + b) / 2 < (i + j) / 2
    ensures L2[n + (a + b) / 2] == RangeMin(L0, a, b)
  {
    var mid, c := (i + j) / 2, (a + b) / 2;
    VisitsInside(i, mid, a, b);
    WrittenInside(i, mid, c);
    assert c !in Written(mid, j) by {
      if c in Written(mid, j) {
        WrittenInside(mid, j, c);
      }
    }
  }

  /** A cell the upper half of a long interval stores lies above the midpoint and holds the minimum over the original entries. */
  lemma UpperKept(L0: seq<int>, L1: seq<int>, L2: seq<int>, n: int, i: int, j: int, a: int, b: int)
    requires -1 <= i && j - i > 3 && j < n && |L0| == 2 * n - 1
    requires Filled(L0, L1, n, i, (i + j) / 2) && Filled(L1, L2, n, (i + j) / 2, j)
    requires Visits((i + j) / 2, j, a, b) && (i + j) / 2 <= a && b <= j && b - a >= 2
    ensures (i + j) / 2 < (a + b) / 2 < j
    ensures L2[n + (a + b) / 2] == RangeMin(L0, a, b)
  {
    var mid, c := (i + j) / 2, (a + b) / 2;
    VisitsInside(mid, j, a, b);
    WrittenInside(mid, j, c);
    RangeMinFrame(L0, L1, a, b);
  }

  /** Outside the midpoints the fill of a longer interval writes, the entries are the original ones. */
  lemma HalvesUnwritten(L0: seq<int>, L1: seq<int>, L2: seq<int>, n: int, i: int, j: int, v: int)
    requires -1 <= i && j - i > 3 && j < n && |L0| == 2 * n - 1
    requires Filled(L0, L1, n, i, (i + j) / 2) && Filled(L1, L2, n, (i + j) / 2, j)
    ensures forall x :: n <= x < |L2| && x - n !in Written(i, j) ==> L2[n + (i + j) / 2 := v][x] == L0[x]
  {
    forall x | n <= x < |L2| && x - n !in Written(i, j)
      ensures L2[n + (i + j) / 2 := v][x] == L0[x]
    {
      HalvesKeep(L0, L1, L2, n, i, j, x);
    }
  }

  /** One cell outside the midpoints the fill of a longer interval writes. */
  lemma HalvesKeep(L0: seq<int>, L1: seq<int>, L2: seq<int>, n: int, i: int, j: int, x: int)
    requires -1 <= i && j - i > 3 && j < n && |L0| == 2 * n - 1
    requires Filled(L0, L1, n, i, (i + j) / 2) && Filled(L1, L2, n, (i + j) / 2, j)
    requires n <= x < |L2| && x - n !in Written(i, j)
    ensures x != n + (i + j) / 2 && L2[x] == L0[x]
  {
    var mid := (i + j) / 2;
    assert Written(i, j) == {mid} + Written(i, mid) + Written(mid, j);
    assert L2[x] == L1[x];
  }

  /** Every interval the fill of a longer interval visits holds its minimum once the midpoint is stored. */
  lemma HalvesVisited(L0: seq<int>, L1: seq<int>, L2: seq<int>, n: int, i: int, j: int, v: int)
    requires -1 <= i && j - i > 3 && j < n && |L0| == 2 * n - 1
    requires Filled(L0, L1, n, i, (i + j) / 2) && Filled(L1, L2, n, (i + j) / 2, j)
    requires v == RangeMin(L0, i, j)
    ensures forall a, b :: Visits(i, j, a, b) && i <= a && b <= j && b - a >= 2 ==>
              L2[n + (i + j) / 2 := v][n + (a + b) / 2] == RangeMin(L0, a, b)
  {
    var mid := (i + j) / 2;
    var L := L2[n + mid := v];
    forall a, b | Visits(i, j, a, b) && i <= a && b <= j && b - a >= 2
      ensures L[n + (a + b) / 2] == RangeMin(L0, a, b)
    {
      if !(a == i && b == j) {
        if Visits(i, mid, a, b) {
          VisitsInside(i, mid, a, b);
          LowerKept(L0, L1, L2, n, i, j, a, b);
        } else {
          VisitsInside(mid, j, a, b);
          UpperKept(L0, L1, L2, n, i, j, a, b);
        }
      }
    }
  }

  /** A longer interval fills both halves, then stores its own minimum at the midpoint. */
  lemma FilledHalves(L0: seq<int>, L1: seq<int>, L2: seq<int>, n: int, i: int, j: int, r1: int, r2: int)
    requires -1 <= i && j - i > 3 && j < n && |L0| == 2 * n - 1
    requires Filled(L0, L1, n, i, (i + j) / 2) && Filled(L1, L2, n, (i + j) / 2, j)
    requires r1 == RangeMin(L0, i, (i + j) / 2) && r2 == RangeMin(L1, (i + j) / 2, j)
    ensures Min(r1, r2) == RangeMin(L0, i, j)
    ensures Filled(L0, L2[n + (i + j) / 2 := Min(r1, r2)], n, i, j)
  {
    var mid := (i + j) / 2;
    RangeMinFrame(L0, L1, mid, j);
    RangeMinSplit(L0, i, mid, j);
    HalvesUnwritten(L0, L1, L2, n, i, j, Min(r1, r2));
    HalvesVisited(L0, L1, L2, n, i, j, Min(r1, r2));
  }

  /** `rank` is the inverse of the permutation `sa`. */
  ghost predicate Ranks(sa: seq<int>, rank: seq<int>) {
    && |rank| == |sa|
    && (forall r :: 0 <= r < |sa| ==> 0 <= sa[r] < |sa| && rank[sa[r]] == r)
    && (forall p :: 0 <= p < |sa| ==> 0 <= rank[p] < |sa| && sa[rank[p]] == p)
  }

  /** Writing each rank at the position it sorts inverts a permutation. */
  lemma RanksOf(sa: seq<int>, rank: seq<int>)
    requires IsPermutation(sa) && |rank| == |sa|
    requires forall r :: 0 <= r < |sa| ==> rank[sa[r]] == r
    ensures Ranks(sa, rank)
  {
    forall p | 0 <= p < |sa|
      ensures 0 <= rank[p] < |sa| && sa[rank[p]] == p
    {
      assert p in sa;
      var r :| 0 <= r < |sa| && sa[r] == p;
    }
  }

  /** The common prefix of suffix `p` with the one after it in the suffix array. */
  ghost function NextLcp(s: seq<int>, sa: seq<int>, rank: seq<int>, p: int): nat
    requires |sa| == |s| && Ranks(sa, rank) && 0 <= p < |s| && rank[p] < |s| - 1
  {
    Lcp(s[p..], s[sa[rank[p] + 1]..])
  }

  /** Ranks follow the order of the suffixes. */
  lemma RankOrder(s: seq<int>, sa: seq<int>, a: int, c: int, p: int, q: int)
    requires IsSuffixArray(s, sa) && 0 <= a < |sa| && 0 <= c < |sa|
    requires sa[a] == p && sa[c] == q && Less(s[p..], s[q..])
    ensures a < c
  {
    if c < a {
      SortedPairs(s, sa, c, a);
      LessAsymmetric(s[sa[c]..], s[sa[a]..]);
    } else if c == a {
      LessIrreflexive(s[sa[a]..]);
    }
  }

  /**
   * Dropping the shared first character of two ordered suffixes keeps
   * them in order, one character shorter in common.
   */
  lemma DropShared(s: seq<int>, i: int, j: int)
    requires WellFormed(s) && 0 <= i < |s| && 0 <= j < |s| && i != j
    requires Less(s[i..], s[j..]) && Lcp(s[i..], s[j..]) > 0
    ensures i + 1 < |s| && j + 1 < |s|
    ensures Less(s[i + 1..], s[j + 1..]) && Lcp(s[i + 1..], s[j + 1..]) == Lcp(s[i..], s[j..]) - 1
  {
    SuffixesDiffer(s, i, j);
    LcpTail(s[i..], s[j..]);
    assert s[i..][1..] == s[i + 1..] && s[j..][1..] == s[j + 1..];
    LessTail(s[i..], s[j..]);
  }

  /**
   * Neighbours at ranks `r` and `r + 1` that share a first character stay
   * in order, one character shorter in common, once it is dropped.
   */
  lemma NeighbourTails(s: seq<int>, sa: seq<int>, r: int)
    requires WellFormed(s) && IsSuffixArray(s, sa) && 0 <= r < |sa| - 1
    requires Lcp(s[sa[r]..], s[sa[r + 1]..]) > 0
    ensures sa[r] + 1 < |s| && sa[r + 1] + 1 < |s|
    ensures Less(s[sa[r] + 1..], s[sa[r + 1] + 1..])
    ensures Lcp(s[sa[r] + 1..], s[sa[r + 1] + 1..]) == Lcp(s[sa[r]..], s[sa[r + 1]..]) - 1
  {
    SortedPairs(s, sa, r, r + 1);
    DropShared(s, sa[r], sa[r + 1]);
  }

  /** A suffix shares at least as much with its successor as with any suffix ranked later. */
  lemma NarrowAt(s: seq<int>, sa: seq<int>, a: int, c: int, p: int, q: int, t: int)
    requires IsSuffixArray(s, sa) && 0 <= a < c < |sa|
    requires sa[a] == p && sa[a + 1] == t && sa[c] == q
    ensures Lcp(s[p..], s[q..]) <= Lcp(s[p..], s[t..])
  {
    LcpNarrows(s, sa, a, a + 1, c);
  }

  /**
   * The pair behind Kasai's observation, by position: suffixes `i` and `j`
   * at ranks `r` and `r + 1` share a first character; then suffix `i + 1`
   * ranks below suffix `j + 1`, and so shares at least one character less
   * with its own successor.
   */
  lemma KasaiPair(s: seq<int>, sa: seq<int>, r: int, a: int, c: int, i: int, j: int)
    requires WellFormed(s) && IsSuffixArray(s, sa) && 0 <= r < |sa| - 1 && 0 <= a < |sa| && 0 <= c < |sa|
    requires sa[r] == i && sa[r + 1] == j && sa[a] == i + 1 && sa[c] == j + 1
    requires Lcp(s[i..], s[j..]) > 0
    ensures a < c
    ensures Lcp(s[i + 1..], s[sa[a + 1]..]) >= Lcp(s[i..], s[j..]) - 1
  {
    SortedPairs(s, sa, r, r + 1);
    DropShared(s, i, j);
    RankOrder(s, sa, a, c, i + 1, j + 1);
    NarrowAt(s, sa, a, c, i + 1, j + 1, sa[a + 1]);
  }

  /**
   * Kasai's observation: when suffix `i` shares `h > 0` characters with its
   * successor, suffix `i + 1` has a successor and shares at least `h - 1`
   * characters with it.
   */
  lemma KasaiStep(s: seq<int>, sa: seq<int>, rank: seq<int>, i: int)
    requires WellFormed(s) && IsSuffixArray(s, sa) && Ranks(sa, rank)
    requires 0 <= i < |s| && rank[i] < |s| - 1 && NextLcp(s, sa, rank, i) > 0
    ensures i + 1 < |s| && rank[i + 1] < |s| - 1
    ensures NextLcp(s, sa, rank, i + 1) >= NextLcp(s, sa, rank, i) - 1
  {
    var r := rank[i];
    var j := sa[r + 1];
    assert sa[r] == i && rank[j] == r + 1;
    SuffixesDiffer(s, i, j);
    var a, c := rank[i + 1], rank[j + 1];
    KasaiPair(s, sa, r, a, c, i, j);
  }

  /**
   * Kasai's scan after suffixes `0 .. i-1` over a suffix array: their
   * entries hold their common prefix with their successor, and the carried
   * length `k` does not exceed that of suffix `i`.
   */
  ghost predicate KasaiInv(s: seq<int>, sa: seq<int>, rank: seq<int>, L: seq<int>, i: int, k: int)
    requires |sa| == |s| && Ranks(sa, rank) && |L| >= |s| && 0 <= i <= |s|
  {
    var holds := IsSuffixArray(s, sa) ==>
      && (i < |s| && rank[i] < |s| - 1 ==> k <= NextLcp(s, sa, rank, i))
      && (forall p {:trigger NextLcp(s, sa, rank, p)} :: 0 <= p < i && rank[p] < |s| - 1 ==> L[rank[p] + 1] == NextLcp(s, sa, rank, p));
    holds
  }

  lemma KasaiStart(s: seq<int>, sa: seq<int>, rank: seq<int>, L: seq<int>)
    requires |sa| == |s| && Ranks(sa, rank) && |L| >= |s|
    ensures KasaiInv(s, sa, rank, L, 0, 0)
  {
  }

  /** At the end of the scan every suffix with a successor has its entry. */
  lemma KasaiFinal(s: seq<int>, sa: seq<int>, rank: seq<int>, L: seq<int>, k: int)
    requires |sa| == |s| && Ranks(sa, rank) && |L| >= |s|
    requires KasaiInv(s, sa, rank, L, |s|, k)
    ensures IsSuffixArray(s, sa) ==>
              forall p {:trigger NextLcp(s, sa, rank, p)} :: 0 <= p < |s| && rank[p] < |s| - 1 ==> L[rank[p] + 1] == NextLcp(s, sa, rank, p)
  {
  }

  /** The suffix ranked last has no successor: its entry is skipped and the carry restarts. */
  lemma KasaiSkip(s: seq<int>, sa: seq<int>, rank: seq<int>, L: seq<int>, i: int, k: int)
    requires |sa| == |s| && Ranks(sa, rank) && |L| >= |s| && 0 <= i < |s|
    requires KasaiInv(s, sa, rank, L, i, k) && rank[i] == |s| - 1
    ensures KasaiInv(s, sa, rank, L, i + 1, 0)
  {
    if IsSuffixArray(s, sa) && i + 1 < |s| && rank[i + 1] < |s| - 1 {
      assert 0 <= NextLcp(s, sa, rank, i + 1);
    }
  }

  /**
   * Storing the common prefix of suffix `i` with its successor and carrying
   * it over, less one, keeps the scan's invariant.
   */
  lemma KasaiStore(s: seq<int>, sa: seq<int>, rank: seq<int>, L: seq<int>, i: int, k0: int, k: int)
    requires WellFormed(s) && |sa| == |s| && Ranks(sa, rank) && |L| >= |s| && 0 <= i < |s|
    requires KasaiInv(s, sa, rank, L, i, k0) && rank[i] < |s| - 1 && k >= 0
    requires k0 <= Lcp(s[i..], s[sa[rank[i] + 1]..]) ==> k == Lcp(s[i..], s[sa[rank[i] + 1]..])
    ensures KasaiInv(s, sa, rank, L[rank[i] + 1 := k], i + 1, if k > 0 then k - 1 else 0)
  {
    if IsSuffixArray(s, sa) {
      var L' := L[rank[i] + 1 := k];
      forall p | 0 <= p < i + 1 && rank[p] < |s| - 1
        ensures L'[rank[p] + 1] == NextLcp(s, sa, rank, p)
      {
        if p != i {
          assert sa[rank[p]] == p && sa[rank[i]] == i;
        }
      }
      if k > 0 {
        KasaiStep(s, sa, rank, i);
      }
    }
  }

  /** The adjacent entries of `L` hold the common prefixes of neighbouring suffixes. */
  ghost predicate AdjacentLcps(s: seq<int>, sa: seq<int>, L: seq<int>)
    requires |sa| == |s| && forall r :: 0 <= r < |sa| ==> 0 <= sa[r] < |s|
  {
    |L| >= |s| && forall r :: 0 < r < |s| ==> L[r] == Lcp(SufAt(s, sa, r - 1), SufAt(s, sa, r))
  }

  /** Over a suffix array the common prefix of two suffixes is the smaller of theirs with any suffix ranked between. */
  lemma LcpThrough(s: seq<int>, sa: seq<int>, a: int, m: int, b: int)
    requires IsSuffixArray(s, sa) && 0 <= a < m < b < |sa|
    ensures Lcp(SufAt(s, sa, a), SufAt(s, sa, b)) == Min(Lcp(SufAt(s, sa, a), SufAt(s, sa, m)), Lcp(SufAt(s, sa, m), SufAt(s, sa, b)))
  {
    SortedPairs(s, sa, a, m);
    SortedPairs(s, sa, m, b);
    LcpOfSorted(SufAt(s, sa, a), SufAt(s, sa, m), SufAt(s, sa, b));
  }

  /** Over a suffix array, the minimum of the adjacent entries between two ranks is their common prefix. */
  lemma {:induction false} RangeMinIsLcp(s: seq<int>, sa: seq<int>, L: seq<int>, a: int, b: int)
    requires IsSuffixArray(s, sa) && AdjacentLcps(s, sa, L) && 0 <= a < b < |s|
    ensures RangeMin(L, a, b) == Lcp(SufAt(s, sa, a), SufAt(s, sa, b))
    decreases b - a
  {
    if b > a + 1 {
      RangeMinIsLcp(s, sa, L, a, b - 1);
      LcpThrough(s, sa, a, b - 1, b);
    }
  }

  /** `(a, b)` is one of the intervals the fill of the whole table of `s`, from `(0, |s|-1)`, visits. */
  ghost predicate TableVisits(s: seq<int>, a: int, b: int) {
    Visits(0, |s| - 1, a, b)
  }

  /** Each interval of two or more the fill visits has the common prefix of its end suffixes at `n + mid`. */
  ghost predicate VisitedLcps(s: seq<int>, sa: seq<int>, L: seq<int>)
    requires |sa| == |s| && forall r :: 0 <= r < |sa| ==> 0 <= sa[r] < |s|
  {
    forall a, b :: TableVisits(s, a, b) && b - a >= 2 ==>
      0 <= a < b < |s| && |s| + (a + b) / 2 < |L| && L[|s| + (a + b) / 2] == Lcp(SufAt(s, sa, a), SufAt(s, sa, b))
  }

  /**
   * The whole table: neighbouring common prefixes in `1 .. n-1`, and for
   * each interval of two or more the fill visits from `(0, n-1)` the common
   * prefix of its end suffixes at `n + mid`.
   */
  ghost predicate IsLcpTable(s: seq<int>, sa: seq<int>, L: seq<int>)
    requires |sa| == |s| && forall r :: 0 <= r < |sa| ==> 0 <= sa[r] < |s|
  {
    var holds := |L| == 2 * |s| - 1 && AdjacentLcps(s, sa, L) && VisitedLcps(s, sa, L);
    holds
  }

  /** Kasai's entries, one per suffix that has a successor, are the adjacent common prefixes. */
  lemma AdjacentFromNext(s: seq<int>, sa: seq<int>, rank: seq<int>, L: seq<int>)
    requires IsSuffixArray(s, sa) && Ranks(sa, rank) && |L| >= |s|
    requires forall p {:trigger NextLcp(s, sa, rank, p)} :: 0 <= p < |s| && rank[p] < |s| - 1 ==> L[rank[p] + 1] == NextLcp(s, sa, rank, p)
    ensures AdjacentLcps(s, sa, L)
  {
    forall r | 0 < r < |s|
      ensures L[r] == Lcp(SufAt(s, sa, r - 1), SufAt(s, sa, r))
    {
      var p := sa[r - 1];
      assert rank[p] == r - 1;
      assert L[r] == NextLcp(s, sa, rank, p);
    }
  }

  /**
   * Adjacent entries kept and every visited interval's minimum stored at
   * its midpoint make the whole table.
   */
  lemma LcpTableFromFill(s: seq<int>, sa: seq<int>, L0: seq<int>, L: seq<int>)
    requires IsSuffixArray(s, sa) && AdjacentLcps(s, sa, L0) && |L0| == 2 * |s| - 1
    requires if |s| == 1 then L == L0 else Filled(L0, L, |s|, 0, |s| - 1)
    ensures IsLcpTable(s, sa, L)
  {
    assert |L| == |L0| && forall x :: 0 <= x < |s| ==> L[x] == L0[x];
    assert AdjacentLcps(s, sa, L);
    forall a, b | TableVisits(s, a, b) && b - a >= 2
      ensures 0 <= a < b < |s| && |s| + (a + b) / 2 < |L| && L[|s| + (a + b) / 2] == Lcp(SufAt(s, sa, a), SufAt(s, sa, b))
    {
      VisitsInside(0, |s| - 1, a, b);
      RangeMinIsLcp(s, sa, L0, a, b);
    }
  }

  /**
   * Kasai's scan over all suffixes, entry 0 cleared and the recursive fill
   * done make the LCP table of a suffix array.
   */
  lemma KasaiDone(s: seq<int>, sa: seq<int>, rank: seq<int>, Lk: seq<int>, L: seq<int>)
    requires |sa| == |s| && Ranks(sa, rank) && |Lk| == 2 * |s| - 1 && |s| > 0
    requires IsSuffixArray(s, sa) ==>
               forall p {:trigger NextLcp(s, sa, rank, p)} :: 0 <= p < |s| && rank[p] < |s| - 1 ==> Lk[rank[p] + 1] == NextLcp(s, sa, rank, p)
    requires if |s| == 1 then L == Lk[0 := 0] else Filled(Lk[0 := 0], L, |s|, 0, |s| - 1)
    ensures IsSuffixArray(s, sa) ==> IsLcpTable(s, sa, L)
  {
    if IsSuffixArray(s, sa) {
      AdjacentFromNext(s, sa, rank, Lk[0 := 0]);
      LcpTableFromFill(s, sa, Lk[0 := 0], L);
    }
  }
}
