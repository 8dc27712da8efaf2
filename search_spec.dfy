/**
 * What the LCP-accelerated binary search of `SuffixArray.search` keeps
 * true from step to step, and why what it returns is exactly the set of
 * positions where the pattern occurs.
 *
 * The search keeps two ranks `low < high` of the suffix array, with the
 * lengths `lowMatches` and `highMatches` the pattern shares with their
 * suffixes.  Every suffix that starts with the pattern lies strictly
 * between them, and `(low, high)` is one of the intervals whose common
 * prefix the LCP table stores, so the halving can read the common prefix
 * of `mid` with either end instead of comparing characters.  The legacy
 * search starts its lower end at the virtual rank -1, below every suffix;
 * the step lemmas allow that end wherever they do not read its suffix.
 */
module SearchSpec {
  import opened Lex
  import opened LcpTable

  /** Every code of `p` is above the sentinel that ends `s`, so no match runs past it. */
  ghost predicate AboveSentinel(s: seq<int>, p: seq<int>)
    requires |s| > 0
  {
    forall k :: 0 <= k < |p| ==> p[k] > s[|s| - 1]
  }

  /** The suffix of rank `r` starts with `p`. */
  ghost predicate Prefixed(s: seq<int>, sa: seq<int>, p: seq<int>, r: int)
    requires 0 <= r < |sa| && 0 <= sa[r] <= |s|
  {
    Lcp(p, SufAt(s, sa, r)) == |p|
  }

  /** No value appears twice. */
  predicate NoRepeats(xs: seq<int>) {
    forall a, b :: 0 <= a < b < |xs| ==> xs[a] != xs[b]
  }

  /** A pattern above the sentinel parts from every suffix before the suffix ends. */
  lemma PatternStops(s: seq<int>, p: seq<int>, i: int)
    requires |s| > 0 && AboveSentinel(s, p) && 0 <= i < |s|
    ensures Lcp(p, s[i..]) < |s| - i
  {
    LcpMeaning(p, s[i..]);
    var j := |s| - i - 1;
    if j < |p| {
      assert p[j] > s[i..][j] == s[|s| - 1];
    }
  }

  /**
   * A scan that starts inside the common prefix, finds `p` and `t` equal up
   * to `k`, and stops at the end of `p` or at a mismatch, has found the
   * common prefix.
   */
  lemma MatchedIsLcp(p: seq<int>, t: seq<int>, start: int, k: int)
    requires 0 <= start <= k <= |p| && k <= |t| && start <= Lcp(p, t)
    requires forall x :: start <= x < k ==> p[x] == t[x]
    requires k < |p| ==> k < |t| && p[k] != t[k]
    ensures k == Lcp(p, t)
  {
    LcpMeaning(p, t);
  }

  /** `sa[lo..hi]` from the top down. */
  function Downward(sa: seq<int>, lo: int, hi: int): (d: seq<int>)
    requires 0 <= lo <= hi <= |sa|
    ensures |d| == hi - lo
    ensures forall x :: 0 <= x < |d| ==> d[x] == sa[hi - 1 - x]
    decreases hi - lo
  {
    if lo == hi then [] else Downward(sa, lo + 1, hi) + [sa[lo]]
  }

  /**
   * What the search knows about its two ends: `low <= high` are ranks, or
   * `low` is -1, a virtual rank below every suffix that shares nothing with
   * the pattern; the match lengths are exact and short of the whole
   * pattern; and every suffix that starts with the pattern is ranked
   * strictly between.
   */
  ghost predicate Bracket(s: seq<int>, sa: seq<int>, p: seq<int>, low: int, high: int, lowMatches: int, highMatches: int)
    requires |sa| == |s| && forall r :: 0 <= r < |sa| ==> 0 <= sa[r] < |s|
  {
    var holds :=
      && -1 <= low <= high < |s| && 0 <= high
      && lowMatches == (if low < 0 then 0 else Lcp(p, SufAt(s, sa, low))) && lowMatches < |p|
      && highMatches == Lcp(p, SufAt(s, sa, high)) < |p|
      && forall r :: 0 <= r < |s| && Prefixed(s, sa, p, r) ==> low < r < high;
    holds
  }

  /**
   * The first and last suffixes, neither starting with the pattern,
   * bracket every suffix that does.
   */
  lemma SearchStart(s: seq<int>, sa: seq<int>, p: seq<int>, lowMatches: int, highMatches: int)
    requires |s| > 0 && |sa| == |s| && forall r :: 0 <= r < |sa| ==> 0 <= sa[r] < |s|
    requires lowMatches == Lcp(p, SufAt(s, sa, 0)) < |p|
    requires highMatches == Lcp(p, SufAt(s, sa, |s| - 1)) < |p|
    ensures Bracket(s, sa, p, 0, |s| - 1, lowMatches, highMatches)
    ensures Window(s, 0, 0, |s| - 1)
  {
    assert !Prefixed(s, sa, p, 0) && !Prefixed(s, sa, p, |s| - 1);
    if |s| > 2 {
      assert Visits(0, |s| - 1, 0, |s| - 1);
    }
  }

  /**
   * The search interval `(low, high)` of a fill of the LCP table from
   * `(root, |s|-1)`: adjacent ranks, or an interval the fill visits, so
   * its midpoint's entry holds the common prefix of its ends.
   */
  ghost predicate Window(s: seq<int>, root: int, low: int, high: int) {
    root <= low && (low + 1 >= high || Visits(root, |s| - 1, low, high))
  }

  /** The halves of a search interval the fill visits are search intervals too. */
  lemma Halves(s: seq<int>, root: int, low: int, high: int)
    requires low + 1 < high && Window(s, root, low, high)
    ensures low < (low + high) / 2 < high
    ensures Window(s, root, low, (low + high) / 2) && Window(s, root, (low + high) / 2, high)
  {
    VisitsHalves(root, |s| - 1, low, high);
  }

  /**
   * `mid` parts from `high` before the pattern does: the pattern, and every
   * suffix starting with it, lies above `mid`.
   */
  lemma StepUp(s: seq<int>, sa: seq<int>, p: seq<int>, low: int, mid: int, high: int,
               lowMatches: int, highMatches: int, lcpHigh: int)
    requires IsSuffixArray(s, sa) && Bracket(s, sa, p, low, high, lowMatches, highMatches)
    requires low < mid < high
    requires lcpHigh == Lcp(SufAt(s, sa, mid), SufAt(s, sa, high)) && lcpHigh < highMatches
    ensures Bracket(s, sa, p, mid, high, lcpHigh, highMatches)
  {
    var m, h := SufAt(s, sa, mid), SufAt(s, sa, high);
    SortedPairs(s, sa, mid, high);
    LcpSymmetric(p, h);
    LessThrough(m, h, p);
    LcpSymmetric(p, m);
    forall r | 0 <= r < |s| && Prefixed(s, sa, p, r)
      ensures mid < r
    {
      LessThrough(m, p, SufAt(s, sa, r));
      RankOrder(s, sa, mid, r, sa[mid], sa[r]);
    }
  }

  /**
   * `mid` shares more with `high` than the pattern does: the pattern parts
   * from `mid` where it parts from `high`, and every suffix starting with
   * it lies below `mid`.
   */
  lemma StepDownKeep(s: seq<int>, sa: seq<int>, p: seq<int>, low: int, mid: int, high: int,
                     lowMatches: int, highMatches: int, lcpHigh: int)
    requires IsSuffixArray(s, sa) && Bracket(s, sa, p, low, high, lowMatches, highMatches)
    requires low < mid < high
    requires lcpHigh == Lcp(SufAt(s, sa, mid), SufAt(s, sa, high)) && highMatches < lcpHigh
    ensures Bracket(s, sa, p, low, mid, lowMatches, highMatches)
  {
    var m, h := SufAt(s, sa, mid), SufAt(s, sa, high);
    LcpSymmetric(m, h);
    LcpTriangle(p, h, m);
    forall r | 0 <= r < |s| && Prefixed(s, sa, p, r)
      ensures r < mid
    {
      var t := SufAt(s, sa, r);
      SortedPairs(s, sa, r, high);
      LcpSymmetric(t, p);
      LcpTriangle(t, p, h);
      LessThrough(t, h, m);
      RankOrder(s, sa, r, mid, sa[r], sa[mid]);
    }
  }

  /**
   * `mid` parts from `low` before the pattern does: the pattern, and every
   * suffix starting with it, lies below `mid`.
   */
  lemma StepDown(s: seq<int>, sa: seq<int>, p: seq<int>, low: int, mid: int, high: int,
                 lowMatches: int, highMatches: int, lcpLow: int)
    requires IsSuffixArray(s, sa) && Bracket(s, sa, p, low, high, lowMatches, highMatches)
    requires 0 <= low < mid < high
    requires lcpLow == Lcp(SufAt(s, sa, low), SufAt(s, sa, mid)) && lcpLow < lowMatches
    ensures Bracket(s, sa, p, low, mid, lowMatches, lcpLow)
  {
    var l, m := SufAt(s, sa, low), SufAt(s, sa, mid);
    SortedPairs(s, sa, low, mid);
    LessBefore(p, l, m);
    forall r | 0 <= r < |s| && Prefixed(s, sa, p, r)
      ensures r < mid
    {
      var t := SufAt(s, sa, r);
      LcpSymmetric(t, p);
      LessBefore(t, p, m);
      RankOrder(s, sa, r, mid, sa[r], sa[mid]);
    }
  }

  /**
   * `mid` shares more with `low` than the pattern does: the pattern parts
   * from `mid` where it parts from `low`, and every suffix starting with it
   * lies above `mid`.
   */
  lemma StepUpKeep(s: seq<int>, sa: seq<int>, p: seq<int>, low: int, mid: int, high: int,
                   lowMatches: int, highMatches: int, lcpLow: int)
    requires IsSuffixArray(s, sa) && Bracket(s, sa, p, low, high, lowMatches, highMatches)
    requires 0 <= low < mid < high
    requires lcpLow == Lcp(SufAt(s, sa, low), SufAt(s, sa, mid)) && lowMatches < lcpLow
    ensures Bracket(s, sa, p, mid, high, lowMatches, highMatches)
  {
    var l, m := SufAt(s, sa, low), SufAt(s, sa, mid);
    LcpTriangle(p, l, m);
    LcpSymmetric(m, l);
    forall r | 0 <= r < |s| && Prefixed(s, sa, p, r)
      ensures mid < r
    {
      var t := SufAt(s, sa, r);
      SortedPairs(s, sa, low, r);
      LcpSymmetric(l, p);
      LcpTriangle(l, p, t);
      LessBefore(m, l, t);
      RankOrder(s, sa, mid, r, sa[mid], sa[r]);
    }
  }

  /**
   * When none of the four shortcuts applies, `mid` shares at least the
   * longer of the two known match lengths with the pattern, so comparing
   * characters may start there.
   */
  lemma StepCompareFrom(s: seq<int>, sa: seq<int>, p: seq<int>, low: int, mid: int, high: int,
                        lowMatches: int, highMatches: int, lcpLow: int, lcpHigh: int)
    requires IsSuffixArray(s, sa) && Bracket(s, sa, p, low, high, lowMatches, highMatches)
    requires low < mid < high
    requires lcpLow == if low < 0 then 0 else Lcp(SufAt(s, sa, low), SufAt(s, sa, mid))
    requires lcpHigh == Lcp(SufAt(s, sa, mid), SufAt(s, sa, high))
    requires !(lowMatches <= lcpHigh < highMatches) && !(lowMatches <= highMatches < lcpHigh)
    requires !(highMatches <= lcpLow < lowMatches) && !(highMatches <= lowMatches < lcpLow)
    ensures Max(lowMatches, highMatches) <= Lcp(p, SufAt(s, sa, mid))
  {
    var m, h := SufAt(s, sa, mid), SufAt(s, sa, high);
    if low < 0 {
      LcpSymmetric(m, h);
      LcpTriangle(p, h, m);
    } else {
      var l := SufAt(s, sa, low);
      LcpNarrows(s, sa, low, mid, high);
      LcpSymmetric(l, p);
      LcpTriangle(l, p, h);
      if lowMatches <= highMatches {
        LcpSymmetric(m, h);
        LcpTriangle(p, h, m);
      } else {
        LcpTriangle(p, l, m);
      }
    }
  }

  /** The pattern is above `mid` where they part: it and its occurrences lie above `mid`. */
  lemma StepCompareLess(s: seq<int>, sa: seq<int>, p: seq<int>, low: int, mid: int, high: int,
                        lowMatches: int, highMatches: int, k: int)
    requires IsSuffixArray(s, sa) && Bracket(s, sa, p, low, high, lowMatches, highMatches)
    requires low < mid < high
    requires k == Lcp(p, SufAt(s, sa, mid)) < |p| && sa[mid] + k < |s| && s[sa[mid] + k] < p[k]
    ensures Bracket(s, sa, p, mid, high, k, highMatches)
  {
    var m := SufAt(s, sa, mid);
    LcpSymmetric(p, m);
    assert m[k] == s[sa[mid] + k];
    assert Less(m, p);
    forall r | 0 <= r < |s| && Prefixed(s, sa, p, r)
      ensures mid < r
    {
      LessThrough(m, p, SufAt(s, sa, r));
      RankOrder(s, sa, mid, r, sa[mid], sa[r]);
    }
  }

  /** The pattern is below `mid` where they part: it and its occurrences lie below `mid`. */
  lemma StepCompareMore(s: seq<int>, sa: seq<int>, p: seq<int>, low: int, mid: int, high: int,
                        lowMatches: int, highMatches: int, k: int)
    requires IsSuffixArray(s, sa) && Bracket(s, sa, p, low, high, lowMatches, highMatches)
    requires low < mid < high
    requires k == Lcp(p, SufAt(s, sa, mid)) < |p| && sa[mid] + k < |s| && s[sa[mid] + k] >= p[k]
    ensures Bracket(s, sa, p, low, mid, lowMatches, k)
  {
    var m := SufAt(s, sa, mid);
    LcpMeaning(p, m);
    assert m[k] == s[sa[mid] + k];
    assert Less(p, m);
    forall r | 0 <= r < |s| && Prefixed(s, sa, p, r)
      ensures r < mid
    {
      var t := SufAt(s, sa, r);
      LcpSymmetric(t, p);
      LessBefore(t, p, m);
      RankOrder(s, sa, r, mid, sa[r], sa[mid]);
    }
  }

  /** A pattern that starts no suffix of the array occurs nowhere in the text. */
  lemma NoMatchAnywhere(s: seq<int>, sa: seq<int>, p: seq<int>)
    requires IsSuffixArray(s, sa) && |p| > 0
    requires forall r :: 0 <= r < |s| ==> !Prefixed(s, sa, p, r)
    ensures forall q :: !MatchAt(s, p, q)
  {
    forall q
      ensures !MatchAt(s, p, q)
    {
      if 0 <= q < |s| {
        assert q in sa;
        var r :| 0 <= r < |sa| && sa[r] == q;
        assert !Prefixed(s, sa, p, r);
        MatchAtIsLcp(s, p, q);
      }
    }
  }

  /** Above a suffix that starts with `p`, a run of adjacent entries at least `|p|` long keeps starting with `p`, and the first shorter entry stops it. */
  lemma RunAbove(s: seq<int>, sa: seq<int>, L: seq<int>, p: seq<int>, idx: int, hi: int, r: int)
    requires IsSuffixArray(s, sa) && AdjacentLcps(s, sa, L) && 0 <= idx < r < |s| && idx < hi <= |s|
    requires Prefixed(s, sa, p, idx)
    requires forall x :: idx < x < hi ==> L[x] >= |p|
    requires hi == |s| || L[hi] < |p|
    ensures Prefixed(s, sa, p, r) <==> r < hi
  {
    var a, b := SufAt(s, sa, idx), SufAt(s, sa, r);
    RangeMinIsLcp(s, sa, L, idx, r);
    LcpSymmetric(p, a);
    if r < hi {
      RangeMinAtLeast(L, idx, r, |p|);
      LcpTriangle(p, a, b);
    } else {
      RangeMinAtMost(L, idx, r, hi);
      LcpTriangle(a, p, b);
    }
  }

  /** Below a suffix that starts with `p`, likewise down to the first entry shorter than `|p|`. */
  lemma RunBelow(s: seq<int>, sa: seq<int>, L: seq<int>, p: seq<int>, lo: int, idx: int, r: int)
    requires IsSuffixArray(s, sa) && AdjacentLcps(s, sa, L) && 0 <= r < idx < |s| && 0 <= lo <= idx
    requires Prefixed(s, sa, p, idx)
    requires forall x :: lo < x <= idx ==> L[x] >= |p|
    requires lo == 0 || L[lo] < |p|
    ensures Prefixed(s, sa, p, r) <==> lo <= r
  {
    var a, b := SufAt(s, sa, r), SufAt(s, sa, idx);
    RangeMinIsLcp(s, sa, L, r, idx);
    if lo <= r {
      RangeMinAtLeast(L, r, idx, |p|);
      LcpSymmetric(a, b);
      LcpTriangle(p, b, a);
    } else {
      RangeMinAtMost(L, r, idx, lo);
      LcpSymmetric(p, a);
      LcpTriangle(a, p, b);
    }
  }

  /**
   * The ranks whose suffixes start with a pattern form one run around any
   * rank that does, bounded where the adjacent common prefix drops below
   * the pattern's length.
   */
  lemma RunIsOccurrences(s: seq<int>, sa: seq<int>, L: seq<int>, p: seq<int>, lo: int, idx: int, hi: int)
    requires IsSuffixArray(s, sa) && AdjacentLcps(s, sa, L) && 0 <= lo <= idx < hi <= |s|
    requires Prefixed(s, sa, p, idx)
    requires forall x :: lo < x <= idx ==> L[x] >= |p|
    requires lo == 0 || L[lo] < |p|
    requires forall x :: idx < x < hi ==> L[x] >= |p|
    requires hi == |s| || L[hi] < |p|
    ensures forall r :: 0 <= r < |s| ==> (Prefixed(s, sa, p, r) <==> lo <= r < hi)
  {
    forall r | 0 <= r < |s|
      ensures Prefixed(s, sa, p, r) <==> lo <= r < hi
    {
      if r < idx {
        RunBelow(s, sa, L, p, lo, idx, r);
      } else if idx < r {
        RunAbove(s, sa, L, p, idx, hi, r);
      }
    }
  }

  /** The rank whose entry the `x`-th element of a run listed from `idx`, down to `lo`, then up, holds. */
  function RunRank(lo: int, idx: int, x: int): int {
    if x == 0 then idx else if x <= idx - lo then idx - x else x + lo
  }

  /** A run as the search lists it: the found rank, then down to `lo`, then up to `hi - 1`. */
  lemma RunAt(sa: seq<int>, lo: int, idx: int, hi: int)
    requires 0 <= lo <= idx < hi <= |sa|
    ensures var run := [sa[idx]] + Downward(sa, lo, idx) + sa[idx + 1..hi];
      && |run| == hi - lo
      && forall x :: 0 <= x < |run| ==> lo <= RunRank(lo, idx, x) < hi && run[x] == sa[RunRank(lo, idx, x)]
  {
  }

  /** Listed that way, a run of a permutation names no position twice. */
  lemma RunDistinct(sa: seq<int>, lo: int, idx: int, hi: int)
    requires 0 <= lo <= idx < hi <= |sa|
    requires forall r, r' :: 0 <= r < r' < |sa| ==> sa[r] != sa[r']
    ensures NoRepeats([sa[idx]] + Downward(sa, lo, idx) + sa[idx + 1..hi])
  {
    var run := [sa[idx]] + Downward(sa, lo, idx) + sa[idx + 1..hi];
    RunAt(sa, lo, idx, hi);
    forall a, b | 0 <= a < b < |run|
      ensures run[a] != run[b]
    {
      var ra, rb := RunRank(lo, idx, a), RunRank(lo, idx, b);
      if ra < rb {
        assert sa[ra] != sa[rb];
      } else {
        assert sa[rb] != sa[ra];
      }
    }
  }

  /** Listed that way, a run names each entry of `sa[lo..hi]`, and nothing else. */
  lemma RunMembers(sa: seq<int>, lo: int, idx: int, hi: int)
    requires 0 <= lo <= idx < hi <= |sa|
    ensures forall q :: q in [sa[idx]] + Downward(sa, lo, idx) + sa[idx + 1..hi] <==> q in sa[lo..hi]
  {
    var run := [sa[idx]] + Downward(sa, lo, idx) + sa[idx + 1..hi];
    RunAt(sa, lo, idx, hi);
    forall q | q in run
      ensures q in sa[lo..hi]
    {
      var x :| 0 <= x < |run| && run[x] == q;
      assert sa[lo..hi][RunRank(lo, idx, x) - lo] == q;
    }
    forall q | q in sa[lo..hi]
      ensures q in run
    {
      var y :| 0 <= y < hi - lo && sa[lo..hi][y] == q;
      var x := if y + lo == idx then 0 else if y + lo < idx then idx - y - lo else y;
      assert RunRank(lo, idx, x) == y + lo;
      assert run[x] == q;
    }
  }

  /** The entries of the ranks whose suffixes start with `p` are exactly the occurrences of `p`. */
  lemma RankedOccurrences(s: seq<int>, sa: seq<int>, p: seq<int>, lo: int, hi: int)
    requires IsSuffixArray(s, sa) && 0 <= lo <= hi <= |s| && |p| > 0
    requires forall r :: 0 <= r < |s| ==> (Prefixed(s, sa, p, r) <==> lo <= r < hi)
    ensures forall q :: q in sa[lo..hi] <==> MatchAt(s, p, q)
  {
    forall q
      ensures q in sa[lo..hi] <==> MatchAt(s, p, q)
    {
      if q in sa[lo..hi] {
        var y :| 0 <= y < hi - lo && sa[lo..hi][y] == q;
        assert Prefixed(s, sa, p, y + lo);
        MatchAtIsLcp(s, p, q);
      }
      if 0 <= q < |s| {
        assert q in sa;
        var r :| 0 <= r < |sa| && sa[r] == q;
        MatchAtIsLcp(s, p, q);
        if MatchAt(s, p, q) {
          assert Prefixed(s, sa, p, r);
          assert sa[lo..hi][r - lo] == q;
        }
      }
    }
  }

  /**
   * A run around a rank whose suffix starts with `p`, listed as the search
   * lists it, is exactly the occurrences of `p`, each once.
   */
  lemma FoundAll(s: seq<int>, sa: seq<int>, L: seq<int>, p: seq<int>, lo: int, idx: int, hi: int, found: seq<int>)
    requires IsSuffixArray(s, sa) && AdjacentLcps(s, sa, L) && 0 <= lo <= idx < hi <= |s| && |p| > 0
    requires Prefixed(s, sa, p, idx)
    requires forall x :: lo < x <= idx ==> L[x] >= |p|
    requires lo == 0 || L[lo] < |p|
    requires forall x :: idx < x < hi ==> L[x] >= |p|
    requires hi == |s| || L[hi] < |p|
    requires found == [sa[idx]] + Downward(sa, lo, idx) + sa[idx + 1..hi]
    ensures NoRepeats(found)
    ensures forall q :: q in found <==> MatchAt(s, p, q)
  {
    RunIsOccurrences(s, sa, L, p, lo, idx, hi);
    RankedOccurrences(s, sa, p, lo, hi);
    RunDistinct(sa, lo, idx, hi);
    RunMembers(sa, lo, idx, hi);
  }
}
