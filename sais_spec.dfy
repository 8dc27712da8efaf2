/**
 * Definitions shared by both versions of the induced-sorting construction
 * (Nong, Zhang and Chan, "Linear Suffix Array Construction by Almost Pure
 * Induced-Sorting", 2009): suffix types, leftmost-S positions, character
 * counts and the bucket layout.
 */
module SaisSpec {
  import opened Lex

  /**
   * Suffix `i` is S-type ("smaller") when it sorts before suffix `i+1`;
   * the last suffix is S-type by convention.  This is the right-to-left
   * recurrence both versions compute.
   */
  predicate SType(s: seq<int>, i: nat)
    requires i < |s|
    decreases |s| - i
  {
    i == |s| - 1 || s[i] < s[i + 1] || (s[i] == s[i + 1] && SType(s, i + 1))
  }

  /** `t` is the type array of `s`: true for S-type, false for L-type. */
  ghost predicate IsTypeArray(s: seq<int>, t: seq<bool>) {
    |t| == |s| && forall i :: 0 <= i < |s| ==> t[i] == SType(s, i)
  }

  /** Two sequences with the same first element compare as their tails do. */
  lemma LessTail(a: seq<int>, b: seq<int>)
    requires |a| > 0 && |b| > 0 && a[0] == b[0]
    ensures Less(a, b) <==> Less(a[1..], b[1..])
  {
  }

  /**
   * In a well-formed text the recurrence agrees with its meaning: suffix
   * `i` is S-type exactly when it is smaller than suffix `i+1`.
   */
  lemma {:induction false} STypeMeansSmaller(s: seq<int>, i: nat)
    requires WellFormed(s) && i < |s| - 1
    ensures SType(s, i) <==> Less(s[i..], s[i + 1..])
    decreases |s| - i
  {
    if s[i] == s[i + 1] {
      assert i + 1 < |s| - 1;
      STypeMeansSmaller(s, i + 1);
      assert s[i..][1..] == s[i + 1..] && s[i + 1..][1..] == s[i + 2..];
      LessTail(s[i..], s[i + 1..]);
    } else if s[i] > s[i + 1] {
      assert Lcp(s[i + 1..], s[i..]) == 0;
      LessAsymmetric(s[i + 1..], s[i..]);
    }
  }

  /**
   * Position `p` is a sample (leftmost-S) position: S-type and either the
   * first position or preceded by an L-type one.  Unlike the usual
   * definition, position 0 counts when it is S-type.
   */
  predicate IsLms(t: seq<bool>, p: int) {
    0 <= p < |t| && t[p] && (p == 0 || !t[p - 1])
  }

  predicate StrictlyIncreasing(xs: seq<int>) {
    forall a, b :: 0 <= a < b < |xs| ==> xs[a] < xs[b]
  }

  /** `spa` lists exactly the sample positions of `t`, in text order. */
  ghost predicate IsLmsList(t: seq<bool>, spa: seq<int>) {
    StrictlyIncreasing(spa) && forall p: int :: p in spa <==> IsLms(t, p)
  }

  /** The last position (the sentinel) is always the last sample position. */
  lemma LastLmsIsSentinel(s: seq<int>, t: seq<bool>, spa: seq<int>)
    requires WellFormed(s) && IsTypeArray(s, t) && IsLmsList(t, spa)
    ensures |spa| > 0 && spa[|spa| - 1] == |s| - 1
  {
    var n := |s|;
    assert IsLms(t, n - 1) by {
      if n > 1 {
        assert s[n - 2] > s[n - 1];
      }
    }
    assert n - 1 in spa;
    var k :| 0 <= k < |spa| && spa[k] == n - 1;
    assert spa[|spa| - 1] in spa;
  }

  /** No two sample positions are adjacent: an S before an S is never sampled. */
  lemma LmsNotAdjacent(t: seq<bool>, spa: seq<int>, k: nat)
    requires IsLmsList(t, spa) && k + 1 < |spa|
    ensures spa[k + 1] >= spa[k] + 2
  {
    assert spa[k] in spa && spa[k + 1] in spa;
    assert spa[k] < spa[k + 1];
  }

  /** Sample positions are at least two apart, so there are at most (n+1)/2. */
  lemma {:induction false} LmsSpread(t: seq<bool>, spa: seq<int>, k: nat)
    requires IsLmsList(t, spa) && k < |spa|
    ensures spa[k] >= 2 * k
  {
    if k > 0 {
      LmsSpread(t, spa, k - 1);
      LmsNotAdjacent(t, spa, k - 1);
    } else {
      assert spa[0] in spa;
    }
  }

  /** The reduced string is strictly shorter than any text of length two or more. */
  lemma LmsFewer(s: seq<int>, t: seq<bool>, spa: seq<int>)
    requires WellFormed(s) && IsTypeArray(s, t) && IsLmsList(t, spa)
    ensures 2 * |spa| <= |s| + 1
    ensures |s| >= 2 ==> |spa| < |s|
  {
    LastLmsIsSentinel(s, t, spa);
    LmsSpread(t, spa, |spa| - 1);
  }

  /** Positions of `s` holding exactly `c`. */
  ghost function Positions(s: seq<int>, c: int): set<int> {
    set p | 0 <= p < |s| && s[p] == c
  }

  /** Positions of `s` holding a code smaller than `c`. */
  ghost function Below(s: seq<int>, c: int): set<int> {
    set p | 0 <= p < |s| && s[p] < c
  }

  lemma {:induction false} PositionsCount(s: seq<int>, c: int)
    ensures |Positions(s, c)| == multiset(s)[c]
    decreases |s|
  {
    if |s| > 0 {
      var s' := s[..|s| - 1];
      PositionsCount(s', c);
      assert s == s' + [s[|s| - 1]];
      if s[|s| - 1] == c {
        assert Positions(s, c) == Positions(s', c) + {|s| - 1};
      } else {
        assert Positions(s, c) == Positions(s', c);
      }
    }
  }

  /** Number of occurrences of `c` in `s`. */
  function Count(s: seq<int>, c: int): nat {
    multiset(s)[c]
  }

  /** First slot of the bucket of `c`: the number of codes smaller than `c`. */
  ghost function Start(s: seq<int>, c: int): int {
    |Below(s, c)|
  }

  /** L-type positions holding `c`. */
  ghost function LTypes(s: seq<int>, c: int): set<int> {
    set q | 0 <= q < |s| && s[q] == c && !SType(s, q)
  }

  /** S-type positions holding `c`. */
  ghost function STypes(s: seq<int>, c: int): set<int> {
    set q | 0 <= q < |s| && s[q] == c && SType(s, q)
  }

  /** First slot of the S-part of the bucket of `c`: its L-type suffixes come first. */
  ghost function Mid(s: seq<int>, c: int): int {
    Start(s, c) + |LTypes(s, c)|
  }

  /** Last slot of the bucket of `c`. */
  ghost function End(s: seq<int>, c: int): int {
    Start(s, c) + Count(s, c) - 1
  }

  lemma TypesSplit(s: seq<int>, c: int)
    ensures |LTypes(s, c)| + |STypes(s, c)| == Count(s, c)
  {
    assert LTypes(s, c) + STypes(s, c) == Positions(s, c);
    assert LTypes(s, c) * STypes(s, c) == {};
    PositionsCount(s, c);
  }

  /**
   * Character counts kept the way an ordered map keeps them: a list of
   * (code, count) pairs in increasing order of code.
   */
  type CharCounts = seq<(int, int)>

  predicate KeysIncreasing(cc: CharCounts) {
    forall a, b :: 0 <= a < b < |cc| ==> cc[a].0 < cc[b].0
  }

  predicate HasKey(cc: CharCounts, c: int) {
    exists k :: 0 <= k < |cc| && cc[k].0 == c
  }

  /** The count stored for `c`, or zero when `c` is absent (as `operator[]` reads it). */
  function CountOf(cc: CharCounts, c: int): int {
    if |cc| == 0 then 0
    else if cc[0].0 == c then cc[0].1
    else CountOf(cc[1..], c)
  }

  lemma HasKeyCons(x: (int, int), cc: CharCounts, d: int)
    ensures HasKey([x] + cc, d) <==> x.0 == d || HasKey(cc, d)
  {
    var r := [x] + cc;
    if HasKey(cc, d) {
      var k :| 0 <= k < |cc| && cc[k].0 == d;
      assert r[k + 1].0 == d;
    }
    if HasKey(r, d) && x.0 != d {
      var k :| 0 <= k < |r| && r[k].0 == d;
      assert cc[k - 1].0 == d;
    }
    assert r[0] == x;
  }

  /** `charCounts[c]++` on an ordered map: insert `c` with count one or bump its count. */
  function Bump(cc: CharCounts, c: int): CharCounts {
    if |cc| == 0 || c < cc[0].0 then [(c, 1)] + cc
    else if c == cc[0].0 then [(c, cc[0].1 + 1)] + cc[1..]
    else [cc[0]] + Bump(cc[1..], c)
  }

  /** Bumping adds `c` as a key if it was missing and no other key. */
  lemma {:induction false} BumpKeys(cc: CharCounts, c: int)
    ensures forall d :: HasKey(Bump(cc, c), d) <==> HasKey(cc, d) || d == c
  {
    var r := Bump(cc, c);
    if |cc| == 0 || c < cc[0].0 {
      forall d ensures HasKey(r, d) <==> HasKey(cc, d) || d == c {
        HasKeyCons((c, 1), cc, d);
      }
    } else {
      assert cc == [cc[0]] + cc[1..];
      if c == cc[0].0 {
        forall d ensures HasKey(r, d) <==> HasKey(cc, d) || d == c {
          HasKeyCons((c, cc[0].1 + 1), cc[1..], d);
          HasKeyCons(cc[0], cc[1..], d);
        }
      } else {
        BumpKeys(cc[1..], c);
        forall d ensures HasKey(r, d) <==> HasKey(cc, d) || d == c {
          HasKeyCons(cc[0], Bump(cc[1..], c), d);
          HasKeyCons(cc[0], cc[1..], d);
        }
      }
    }
  }

  /** Bumping keeps the keys in increasing order. */
  lemma {:induction false} BumpOrder(cc: CharCounts, c: int)
    requires KeysIncreasing(cc)
    ensures KeysIncreasing(Bump(cc, c))
  {
    if |cc| > 0 && c > cc[0].0 {
      var rest := Bump(cc[1..], c);
      BumpOrder(cc[1..], c);
      BumpKeys(cc[1..], c);
      forall k | 0 <= k < |rest|
        ensures cc[0].0 < rest[k].0
      {
        assert HasKey(rest, rest[k].0);
        if rest[k].0 != c {
          var j :| 0 <= j < |cc[1..]| && cc[1..][j].0 == rest[k].0;
          assert cc[1..][j] == cc[j + 1];
        }
      }
    }
  }

  /** Bumping raises the count of `c` by one and leaves every other count alone. */
  lemma {:induction false} BumpCounts(cc: CharCounts, c: int)
    requires KeysIncreasing(cc)
    ensures forall d :: CountOf(Bump(cc, c), d) == CountOf(cc, d) + (if d == c then 1 else 0)
    ensures |Bump(cc, c)| == |cc| + (if HasKey(cc, c) then 0 else 1)
  {
    if |cc| == 0 || c < cc[0].0 {
      forall k | 0 <= k < |cc| ensures cc[k].0 != c {
        if k > 0 {
          assert cc[0].0 < cc[k].0;
        }
      }
      CountOfAbsent(cc, c);
    } else {
      assert cc == [cc[0]] + cc[1..];
      HasKeyCons(cc[0], cc[1..], c);
      if c != cc[0].0 {
        BumpCounts(cc[1..], c);
        assert ([cc[0]] + Bump(cc[1..], c))[1..] == Bump(cc[1..], c);
      }
    }
  }

  /** `cc` holds, in order, every code of `s` with its number of occurrences. */
  ghost predicate CountsOf(cc: CharCounts, s: seq<int>) {
    && KeysIncreasing(cc)
    && (forall c :: HasKey(cc, c) <==> c in s)
    && (forall k :: 0 <= k < |cc| ==> cc[k].1 == Count(s, cc[k].0))
  }

  /** Counting each code of a sequence one after the other yields its counts. */
  lemma CountsOfStep(cc: CharCounts, s: seq<int>, c: int)
    requires CountsOf(cc, s)
    ensures CountsOf(Bump(cc, c), s + [c])
  {
    var r := Bump(cc, c);
    BumpKeys(cc, c);
    BumpOrder(cc, c);
    BumpCounts(cc, c);
    assert multiset(s + [c]) == multiset(s) + multiset{c};
    forall k | 0 <= k < |r|
      ensures r[k].1 == Count(s + [c], r[k].0)
    {
      CountOfAt(r, k);
      var d := r[k].0;
      if HasKey(cc, d) {
        var j :| 0 <= j < |cc| && cc[j].0 == d;
        CountOfAt(cc, j);
      } else {
        CountOfAbsent(cc, d);
      }
    }
  }

  /** In a list with increasing keys, `CountOf` finds the entry of its key. */
  lemma CountOfAt(cc: CharCounts, k: nat)
    requires KeysIncreasing(cc) && k < |cc|
    ensures CountOf(cc, cc[k].0) == cc[k].1
  {
    if k > 0 {
      assert cc[1..][k - 1] == cc[k];
      CountOfAt(cc[1..], k - 1);
    }
  }

  lemma CountOfAbsent(cc: CharCounts, c: int)
    requires !HasKey(cc, c)
    ensures CountOf(cc, c) == 0
  {
    if |cc| > 0 {
      forall k | 0 <= k < |cc[1..]|
        ensures cc[1..][k].0 != c
      {
        assert cc[1..][k] == cc[k + 1];
      }
      CountOfAbsent(cc[1..], c);
    }
  }

  /**
   * The bucket layout of `s`: bucket `k` belongs to the `k`-th smallest code
   * of `s`, `charToBucket` numbers the codes, and bucket `k` starts at the
   * number of codes smaller than its own.
   */
  ghost predicate BucketLayout(s: seq<int>, cc: CharCounts, buckets: seq<int>, charToBucket: map<int, int>) {
    && CountsOf(cc, s)
    && |buckets| == |cc|
    && (forall c :: c in charToBucket <==> c in s)
    && (forall c :: c in charToBucket ==> 0 <= charToBucket[c] < |cc| && cc[charToBucket[c]].0 == c)
    && (forall k :: 0 <= k < |cc| ==> buckets[k] == Start(s, cc[k].0))
  }

  /** Positions below the next code are those below `c` plus those holding `c`. */
  lemma BelowStep(s: seq<int>, c: int, d: int)
    requires c < d && forall p :: 0 <= p < |s| ==> !(c < s[p] < d)
    ensures Below(s, d) == Below(s, c) + Positions(s, c)
    ensures Start(s, d) == Start(s, c) + Count(s, c)
  {
    assert Below(s, c) * Positions(s, c) == {};
    PositionsCount(s, c);
  }

  /** Consecutive buckets abut: the next bucket starts right after this one ends. */
  lemma NextBucket(s: seq<int>, cc: CharCounts, k: nat)
    requires CountsOf(cc, s) && k + 1 < |cc|
    ensures Start(s, cc[k + 1].0) == Start(s, cc[k].0) + Count(s, cc[k].0)
  {
    forall p | 0 <= p < |s|
      ensures !(cc[k].0 < s[p] < cc[k + 1].0)
    {
      assert HasKey(cc, s[p]);
      var j :| 0 <= j < |cc| && cc[j].0 == s[p];
    }
    BelowStep(s, cc[k].0, cc[k + 1].0);
  }

  /** The first bucket starts at slot zero and the last ends at the last slot. */
  lemma OuterBuckets(s: seq<int>, cc: CharCounts)
    requires CountsOf(cc, s) && |cc| > 0
    ensures Start(s, cc[0].0) == 0
    ensures Start(s, cc[|cc| - 1].0) + Count(s, cc[|cc| - 1].0) == |s|
  {
    var first, last := cc[0].0, cc[|cc| - 1].0;
    forall p | 0 <= p < |s|
      ensures first <= s[p] <= last
    {
      assert HasKey(cc, s[p]);
      var j :| 0 <= j < |cc| && cc[j].0 == s[p];
    }
    assert Below(s, first) == {};
    BelowStep(s, last, last + 1);
    AllBelow(s, last + 1);
  }

  /** When every code is below `c`, every position is. */
  lemma {:induction false} AllBelow(s: seq<int>, c: int)
    requires forall p :: 0 <= p < |s| ==> s[p] < c
    ensures |Below(s, c)| == |s|
    decreases |s|
  {
    if |s| > 0 {
      var s' := s[..|s| - 1];
      AllBelow(s', c);
      assert Below(s, c) == Below(s', c) + {|s| - 1};
    }
  }

  /** A code with a larger code in the text has its whole bucket before that one. */
  lemma BucketsOrdered(s: seq<int>, c: int, d: int)
    ensures c < d ==> Start(s, c) + Count(s, c) <= Start(s, d)
  {
    if c < d {
      BucketsBefore(s, c, d);
    }
  }

  lemma BucketsBefore(s: seq<int>, c: int, d: int)
    requires c < d
    ensures Start(s, c) + Count(s, c) <= Start(s, d)
  {
    assert Below(s, c) + Positions(s, c) <= Below(s, d);
    assert Below(s, c) * Positions(s, c) == {};
    PositionsCount(s, c);
    SubsetCard(Below(s, c) + Positions(s, c), Below(s, d));
  }

  /** A sample position read off the text itself rather than its type array. */
  predicate LmsPos(s: seq<int>, p: int) {
    0 <= p < |s| && SType(s, p) && (p == 0 || !SType(s, p - 1))
  }

  lemma IsLmsIff(s: seq<int>, t: seq<bool>, p: int)
    requires IsTypeArray(s, t)
    ensures IsLms(t, p) <==> LmsPos(s, p)
  {
  }

  lemma {:induction false} UpperBound(s: seq<int>) returns (m: int)
    ensures forall p :: 0 <= p < |s| ==> s[p] < m
  {
    if |s| == 0 {
      m := 0;
    } else {
      var m' := UpperBound(s[1..]);
      m := if s[0] < m' then m' else s[0] + 1;
      forall p | 0 < p < |s|
        ensures s[p] < m
      {
        assert s[p] == s[1..][p - 1];
      }
    }
  }

  /** The bucket of a code of `s` is a nonempty run of slots inside the array. */
  lemma BucketBounds(s: seq<int>, c: int)
    requires c in s
    ensures 0 <= Start(s, c) <= Mid(s, c) <= End(s, c) + 1 && Count(s, c) >= 1 && End(s, c) < |s|
  {
    var m := UpperBound(s);
    BucketsOrdered(s, c, m + 1);
    assert m > c;
    AllBelow(s, m + 1);
    TypesSplit(s, c);
  }

  /** The bucket of the code at position `q`. */
  lemma PosBucket(s: seq<int>, q: int)
    requires 0 <= q < |s|
    ensures 0 <= Start(s, s[q]) <= Mid(s, s[q]) <= End(s, s[q]) + 1 && End(s, s[q]) < |s|
    ensures Start(s, s[q]) <= End(s, s[q])
  {
    BucketBounds(s, s[q]);
  }

  /** Buckets of different codes share no slot. */
  lemma SameBucket(s: seq<int>, c: int, d: int, r: int)
    ensures Start(s, c) <= r <= End(s, c) && Start(s, d) <= r <= End(s, d) ==> c == d
  {
    BucketsOrdered(s, c, d);
    BucketsOrdered(s, d, c);
  }

  /** A code occurring once pins down its position. */
  lemma UniqueCode(s: seq<int>, q: int, q': int)
    requires 0 <= q < |s| && 0 <= q' < |s|
    ensures s[q] == s[q'] && Count(s, s[q]) == 1 ==> q == q'
  {
    PositionsCount(s, s[q]);
    if s[q] == s[q'] {
      SubsetCard({q, q'}, Positions(s, s[q]));
    }
  }

  /**
   * In a well-formed text the sentinel has a bucket of its own at slot 0,
   * and every other bucket comes after it.
   */
  lemma SentinelBucket(s: seq<int>)
    requires WellFormed(s)
    ensures Start(s, s[|s| - 1]) == 0 && Count(s, s[|s| - 1]) == 1
    ensures forall q :: 0 <= q < |s| - 1 ==> Start(s, s[q]) >= 1
  {
    var z := s[|s| - 1];
    assert Below(s, z) == {};
    assert Positions(s, z) == {|s| - 1};
    PositionsCount(s, z);
    forall q | 0 <= q < |s| - 1
      ensures Start(s, s[q]) >= 1
    {
      assert |s| - 1 in Below(s, s[q]);
    }
  }

  /** An S-type position followed by an equal code is followed by an S-type one. */
  lemma STypeRun(s: seq<int>, p: int)
    requires 0 <= p < |s| - 1 && s[p] == s[p + 1]
    ensures SType(s, p) <==> SType(s, p + 1)
  {
  }

  /** A subset is no larger than its superset, and a proper one is smaller. */
  lemma SubsetCard<T>(a: set<T>, b: set<T>)
    requires a <= b
    ensures |a| <= |b|
    ensures a != b ==> |a| < |b|
  {
    assert b == a + (b - a);
    assert a * (b - a) == {};
    if a != b {
      assert b - a != {} by {
        assert !(b <= a);
      }
    }
  }
}
