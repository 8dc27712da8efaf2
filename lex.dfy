/**
 * Lexicographic order, longest common prefixes and suffix arrays over
 * sequences of integer character codes.  Everything the suffix array
 * promises about sortedness, LCP values and pattern occurrences is stated
 * in terms of the definitions in this module.
 */
module Lex {

  /** Length of the longest common prefix of `a` and `b`. */
  function Lcp(a: seq<int>, b: seq<int>): (k: nat)
    ensures k <= |a| && k <= |b|
  {
    if |a| == 0 || |b| == 0 || a[0] != b[0] then 0
    else 1 + Lcp(a[1..], b[1..])
  }

  /**
   * `Lcp(a, b)` is a common prefix, and the sequences differ right after
   * it unless one of them ends there.
   */
  lemma {:induction false} LcpMeaning(a: seq<int>, b: seq<int>)
    ensures a[..Lcp(a, b)] == b[..Lcp(a, b)]
    ensures Lcp(a, b) < |a| && Lcp(a, b) < |b| ==> a[Lcp(a, b)] != b[Lcp(a, b)]
  {
    if |a| > 0 && |b| > 0 && a[0] == b[0] {
      var k := Lcp(a[1..], b[1..]);
      LcpMeaning(a[1..], b[1..]);
      assert a[..k + 1] == [a[0]] + a[1..][..k];
      assert b[..k + 1] == [b[0]] + b[1..][..k];
    }
  }

  /** Any common prefix is no longer than the longest one. */
  lemma LcpAtLeast(a: seq<int>, b: seq<int>, m: nat)
    requires m <= |a| && m <= |b| && a[..m] == b[..m]
    ensures Lcp(a, b) >= m
  {
    LcpMeaning(a, b);
    forall j | 0 <= j < m
      ensures a[j] == b[j]
    {
      assert a[j] == a[..m][j] && b[j] == b[..m][j];
    }
  }

  lemma LcpSymmetric(a: seq<int>, b: seq<int>)
    ensures Lcp(a, b) == Lcp(b, a)
  {
    LcpMeaning(a, b);
    LcpMeaning(b, a);
    LcpAtLeast(a, b, Lcp(b, a));
    LcpAtLeast(b, a, Lcp(a, b));
  }

  /** Dropping a shared first character shortens the common prefix by one. */
  lemma LcpTail(a: seq<int>, b: seq<int>)
    requires Lcp(a, b) > 0
    ensures a[0] == b[0] && Lcp(a[1..], b[1..]) == Lcp(a, b) - 1
  {
  }

  /**
   * Comparing suffixes `i` and `j` of `s` from a length `k` they are known
   * to share: the next characters exist and agree exactly when they share more.
   */
  lemma ScanCompare(s: seq<int>, i: int, j: int, k: int)
    requires 0 <= i <= |s| && 0 <= j <= |s| && 0 <= k <= Lcp(s[i..], s[j..])
    ensures (i + k < |s| && j + k < |s| && s[i + k] == s[j + k]) <==> k < Lcp(s[i..], s[j..])
  {
    LcpMeaning(s[i..], s[j..]);
    var m := Lcp(s[i..], s[j..]);
    if k < m {
      assert s[i..][..m][k] == s[i + k] && s[j..][..m][k] == s[j + k];
    }
  }

  /** Strict lexicographic order; a proper prefix is smaller. */
  predicate Less(a: seq<int>, b: seq<int>) {
    var k := Lcp(a, b);
    k < |b| && (k == |a| || a[k] < b[k])
  }

  /**
   * The common prefix of `a` and `c` is at least as long as the shorter
   * of the ones through `b`, and exactly that long when those differ.
   */
  lemma LcpTriangle(a: seq<int>, b: seq<int>, c: seq<int>)
    ensures Lcp(a, c) >= Min(Lcp(a, b), Lcp(b, c))
    ensures Lcp(a, b) != Lcp(b, c) ==> Lcp(a, c) == Min(Lcp(a, b), Lcp(b, c))
  {
    LcpMeaning(a, b);
    LcpMeaning(b, c);
    LcpMeaning(a, c);
    var k1, k2 := Lcp(a, b), Lcp(b, c);
    var m := Min(k1, k2);
    assert a[..m] == a[..k1][..m] == b[..k1][..m] == b[..m];
    assert b[..m] == b[..k2][..m] == c[..k2][..m] == c[..m];
    LcpAtLeast(a, c, m);
    if k1 < k2 && k1 < |a| {
      assert b[k1] == c[k1] by { assert b[..k2][k1] == c[..k2][k1]; }
    } else if k2 < k1 && k2 < |c| {
      assert a[k2] == b[k2] by { assert a[..k1][k2] == b[..k1][k2]; }
    }
  }

  function Min(x: int, y: int): int { if x <= y then x else y }

  function Max(x: int, y: int): int { if x >= y then x else y }

  /**
   * `a < b`, and `c` agrees with `b` past the place where `a` leaves `b`:
   * then `a < c`, and `a` leaves `c` at the same place.
   */
  lemma LessThrough(a: seq<int>, b: seq<int>, c: seq<int>)
    requires Less(a, b) && Lcp(a, b) < Lcp(b, c)
    ensures Less(a, c) && Lcp(a, c) == Lcp(a, b)
  {
    LcpTriangle(a, b, c);
    LcpMeaning(b, c);
    var k := Lcp(a, b);
    assert b[k] == c[k] by { assert b[..Lcp(b, c)][k] == c[..Lcp(b, c)][k]; }
  }

  /**
   * `b < c`, and `a` agrees with `b` past the place where `b` leaves `c`:
   * then `a < c`, and `a` leaves `c` at the same place.
   */
  lemma LessBefore(a: seq<int>, b: seq<int>, c: seq<int>)
    requires Less(b, c) && Lcp(b, c) < Lcp(a, b)
    ensures Less(a, c) && Lcp(a, c) == Lcp(b, c)
  {
    LcpTriangle(a, b, c);
    LcpMeaning(a, b);
    var k := Lcp(b, c);
    assert a[k] == b[k] by { assert a[..Lcp(a, b)][k] == b[..Lcp(a, b)][k]; }
  }

  lemma LessIrreflexive(a: seq<int>)
    ensures !Less(a, a)
  {
    LcpAtLeast(a, a, |a|);
  }

  lemma LessAsymmetric(a: seq<int>, b: seq<int>)
    requires Less(a, b)
    ensures !Less(b, a)
  {
    LcpSymmetric(a, b);
  }

  lemma LessTransitive(a: seq<int>, b: seq<int>, c: seq<int>)
    requires Less(a, b) && Less(b, c)
    ensures Less(a, c)
  {
    LcpTriangle(a, b, c);
    LcpMeaning(a, b);
    LcpMeaning(b, c);
    LcpMeaning(a, c);
    var k1, k2 := Lcp(a, b), Lcp(b, c);
    if k1 < k2 {
      assert b[k1] == c[k1] by { assert b[..k2][k1] == c[..k2][k1]; }
    } else if k2 < k1 {
      assert a[k2] == b[k2] by { assert a[..k1][k2] == b[..k1][k2]; }
    } else {
      if k1 < |a| {
        assert a[k1] != c[k1];
      }
    }
  }

  /** Two different sequences are ordered one way or the other. */
  lemma LessTotal(a: seq<int>, b: seq<int>)
    requires a != b
    ensures Less(a, b) || Less(b, a)
  {
    LcpSymmetric(a, b);
    LcpMeaning(a, b);
    assert a == a[..|a|] && b == b[..|b|];
  }

  /**
   * For `a < b < c` the common prefix of the outer two is the shorter of the
   * common prefixes of neighbours: nothing between them can stray further.
   */
  lemma LcpOfSorted(a: seq<int>, b: seq<int>, c: seq<int>)
    requires Less(a, b) && Less(b, c)
    ensures Lcp(a, c) == Min(Lcp(a, b), Lcp(b, c))
  {
    LcpTriangle(a, b, c);
    var k := Lcp(a, b);
    if k == Lcp(b, c) && k < |a| {
      assert a[k] < b[k] < c[k];
    }
  }

  /** `p` occurs in `s` at position `i`. */
  predicate MatchAt<T(==)>(s: seq<T>, p: seq<T>, i: int) {
    0 <= i && i + |p| <= |s| && s[i..i + |p|] == p
  }

  lemma MatchAtIsLcp(s: seq<int>, p: seq<int>, i: nat)
    requires i <= |s|
    ensures MatchAt(s, p, i) <==> Lcp(p, s[i..]) == |p|
  {
    if MatchAt(s, p, i) {
      assert p == s[i..][..|p|];
      LcpAtLeast(p, s[i..], |p|);
    }
    if Lcp(p, s[i..]) == |p| {
      LcpMeaning(p, s[i..]);
      assert s[i..][..|p|] == s[i..i + |p|];
    }
  }

  /**
   * A well-formed text ends with a sentinel strictly smaller than every
   * other code, so no suffix is a proper prefix of another.
   */
  ghost predicate WellFormed(s: seq<int>) {
    |s| > 0 && forall i :: 0 <= i < |s| - 1 ==> s[i] > s[|s| - 1]
  }

  /** Distinct suffixes of a well-formed text differ before either ends. */
  lemma SuffixesDiffer(s: seq<int>, i: nat, j: nat)
    requires WellFormed(s) && i < |s| && j < |s| && i != j
    ensures Lcp(s[i..], s[j..]) < |s| - i && Lcp(s[i..], s[j..]) < |s| - j
  {
    var k := Lcp(s[i..], s[j..]);
    LcpMeaning(s[i..], s[j..]);
    if k > 0 {
      assert s[i + k - 1] == s[j + k - 1] by {
        assert s[i..][..k][k - 1] == s[j..][..k][k - 1];
      }
    }
  }

  /** `sa` lists every position below `|sa|` exactly once. */
  ghost predicate IsPermutation(sa: seq<int>) {
    && (forall r :: 0 <= r < |sa| ==> 0 <= sa[r] < |sa|)
    && (forall r, r' :: 0 <= r < r' < |sa| ==> sa[r] != sa[r'])
    && (forall p :: 0 <= p < |sa| ==> p in sa)
  }

  /** Consecutive entries of `sa` name strictly increasing suffixes of `s`. */
  ghost predicate SortedSuffixes(s: seq<int>, sa: seq<int>)
    requires forall r :: 0 <= r < |sa| ==> 0 <= sa[r] <= |s|
  {
    forall r :: 0 < r < |sa| ==> Less(s[sa[r - 1]..], s[sa[r]..])
  }

  /** `sa` is the suffix array of `s`. */
  ghost predicate IsSuffixArray(s: seq<int>, sa: seq<int>) {
    |sa| == |s| && IsPermutation(sa) && SortedSuffixes(s, sa)
  }

  /** In a suffix array every earlier entry names a smaller suffix. */
  lemma {:induction false} SortedPairs(s: seq<int>, sa: seq<int>, r: nat, r': nat)
    requires IsSuffixArray(s, sa) && r < r' < |sa|
    ensures Less(s[sa[r]..], s[sa[r']..])
    decreases r' - r
  {
    if r + 1 < r' {
      SortedPairs(s, sa, r, r' - 1);
      LessTransitive(s[sa[r]..], s[sa[r' - 1]..], s[sa[r']..]);
    }
  }

  /** Two suffix arrays of the same text agree on their first `r` ranks. */
  lemma {:induction false} SuffixArraysAgree(s: seq<int>, sa: seq<int>, sa': seq<int>, r: nat)
    requires IsSuffixArray(s, sa) && IsSuffixArray(s, sa') && r <= |sa|
    ensures forall i :: 0 <= i < r ==> sa[i] == sa'[i]
  {
    if r > 0 {
      var k := r - 1;
      SuffixArraysAgree(s, sa, sa', k);
      var p, q := sa[k], sa'[k];
      if p != q {
        // q sits after rank k in sa and p after rank k in sa', since the
        // ranks before k hold the same positions in both
        assert q in sa && p in sa';
        var j :| 0 <= j < |sa| && sa[j] == q;
        var j' :| 0 <= j' < |sa'| && sa'[j'] == p;
        assert k < j && k < j';
        SortedPairs(s, sa, k, j);
        SortedPairs(s, sa', k, j');
        LessAsymmetric(s[p..], s[q..]);
      }
    }
  }

  /** A text has only one suffix array. */
  lemma SuffixArrayUnique(s: seq<int>, sa: seq<int>, sa': seq<int>)
    requires IsSuffixArray(s, sa) && IsSuffixArray(s, sa')
    ensures sa == sa'
  {
    SuffixArraysAgree(s, sa, sa', |sa|);
  }

  /** Suffix at rank `r` of `sa`. */
  function SufAt(s: seq<int>, sa: seq<int>, r: nat): seq<int>
    requires r < |sa| && 0 <= sa[r] <= |s|
  {
    s[sa[r]..]
  }

  /**
   * Between ranks `a <= b <= c` of a suffix array, the common prefix of the
   * outer suffixes is no longer than either inner one.
   */
  lemma LcpNarrows(s: seq<int>, sa: seq<int>, a: nat, b: nat, c: nat)
    requires IsSuffixArray(s, sa) && a <= b <= c < |sa|
    ensures Lcp(SufAt(s, sa, a), SufAt(s, sa, c)) <= Lcp(SufAt(s, sa, a), SufAt(s, sa, b))
    ensures Lcp(SufAt(s, sa, a), SufAt(s, sa, c)) <= Lcp(SufAt(s, sa, b), SufAt(s, sa, c))
  {
    if a < b < c {
      SortedPairs(s, sa, a, b);
      SortedPairs(s, sa, b, c);
      LcpOfSorted(SufAt(s, sa, a), SufAt(s, sa, b), SufAt(s, sa, c));
    } else {
      LcpAtLeast(SufAt(s, sa, b), SufAt(s, sa, b), |SufAt(s, sa, b)|);
      LcpAtLeast(SufAt(s, sa, a), SufAt(s, sa, a), |SufAt(s, sa, a)|);
      LcpAtLeast(SufAt(s, sa, c), SufAt(s, sa, c), |SufAt(s, sa, c)|);
    }
  }
}
