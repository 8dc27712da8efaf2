/**
 * The reduction step of induced sorting: when the names of the reduced
 * string order the sample suffixes and equal names stand for equal sample
 * substrings, the order of the reduced suffixes is the order of the sample
 * suffixes they stand for.
 */
module ReducedOrder {
  import opened Lex
  import opened Keys
  import opened Reduce

  /** A smaller name means a smaller sample suffix. */
  ghost predicate NamesOrderSuffixes(s: seq<int>, spa: seq<int>, S1: seq<int>)
    requires SampleList(spa, |s|)
  {
    forall k, k' :: 0 <= k < |S1| && 0 <= k' < |S1| && |S1| == |spa| && S1[k] < S1[k'] ==> Less(s[spa[k]..], s[spa[k']..])
  }

  /** Equal names mean equal sample substrings. */
  ghost predicate NamesShareSubstrings(s: seq<int>, spa: seq<int>, S1: seq<int>)
    requires SampleList(spa, |s|)
  {
    forall k, k' :: 0 <= k < |S1| && 0 <= k' < |S1| && |S1| == |spa| && S1[k] == S1[k'] ==> LmsSubstring(s, spa, k) == LmsSubstring(s, spa, k')
  }

  /** Two samples other than the sentinel with equal sample substrings agree up to their next samples. */
  lemma SameSubstringPrefix(s: seq<int>, spa: seq<int>, k: int, k': int)
    requires SampleList(spa, |s|) && 0 <= k < |spa| - 1 && 0 <= k' < |spa| - 1
    requires LmsSubstring(s, spa, k) == LmsSubstring(s, spa, k')
    ensures spa[k + 1] - spa[k] == spa[k' + 1] - spa[k']
    ensures s[spa[k]..spa[k + 1]] == s[spa[k']..spa[k' + 1]]
  {
    var u := LmsSubstring(s, spa, k);
    assert u == s[spa[k]..spa[k + 1] + 1];
    assert u == s[spa[k']..spa[k' + 1] + 1];
    assert u[..|u| - 1] == s[spa[k]..spa[k + 1]];
    assert u[..|u| - 1] == s[spa[k']..spa[k' + 1]];
  }

  /** Two samples other than the sentinel with equal sample substrings compare as their next samples. */
  lemma SameSubstringShift(s: seq<int>, spa: seq<int>, k: int, k': int)
    requires SampleList(spa, |s|) && 0 <= k < |spa| - 1 && 0 <= k' < |spa| - 1
    requires LmsSubstring(s, spa, k) == LmsSubstring(s, spa, k')
    ensures Less(s[spa[k]..], s[spa[k']..]) <==> Less(s[spa[k + 1]..], s[spa[k' + 1]..])
  {
    SameSubstringPrefix(s, spa, k, k');
    var d := spa[k + 1] - spa[k];
    ShiftLess(s, spa[k], spa[k'], d);
  }

  /** Reduced suffixes starting with the same name compare as the suffixes after it. */
  lemma SameNameTail(S1: seq<int>, k: int, k': int)
    requires WellFormed(S1) && 0 <= k < |S1| && 0 <= k' < |S1| && k != k' && S1[k] == S1[k']
    requires Less(S1[k..], S1[k'..])
    ensures k < |S1| - 1 && k' < |S1| - 1
    ensures Less(S1[k + 1..], S1[k' + 1..])
  {
    assert S1[k..] == [S1[k]] + S1[k + 1..] && S1[k'..] == [S1[k']] + S1[k' + 1..];
    KeyTail(S1[k..], S1[k'..], S1[k], S1[k + 1..], S1[k' + 1..]);
  }

  /** A reduced string for the samples `spa` of `s`, named in suffix order. */
  ghost predicate Reduction(s: seq<int>, spa: seq<int>, S1: seq<int>) {
    && SampleList(spa, |s|) && |S1| == |spa| && WellFormed(S1)
    && NamesOrderSuffixes(s, spa, S1) && NamesShareSubstrings(s, spa, S1)
  }

  /** Of two suffixes in increasing order, the first does not start with the larger name. */
  lemma HeadsOfLess(S1: seq<int>, k: int, k': int)
    requires 0 <= k < |S1| && 0 <= k' < |S1| && Less(S1[k..], S1[k'..])
    ensures k != k' && S1[k] <= S1[k']
  {
    if k == k' {
      LessIrreflexive(S1[k..]);
    }
  }

  /**
   * Names that order the sample suffixes and are equal only on equal
   * sample substrings carry the order of the reduced suffixes back to the
   * sample suffixes.
   */
  lemma {:induction false} ReducedLess(s: seq<int>, spa: seq<int>, S1: seq<int>, k: int, k': int)
    requires Reduction(s, spa, S1)
    requires 0 <= k < |S1| && 0 <= k' < |S1| && Less(S1[k..], S1[k'..])
    ensures Less(s[spa[k]..], s[spa[k']..])
    decreases |S1| - k, 1
  {
    HeadsOfLess(S1, k, k');
    if S1[k] == S1[k'] {
      SameNameLess(s, spa, S1, k, k');
    }
  }

  /** Reduced suffixes starting with the same name compare as the sample suffixes after their sample substrings. */
  lemma {:induction false} SameNameLess(s: seq<int>, spa: seq<int>, S1: seq<int>, k: int, k': int)
    requires Reduction(s, spa, S1)
    requires 0 <= k < |S1| && 0 <= k' < |S1| && k != k' && S1[k] == S1[k'] && Less(S1[k..], S1[k'..])
    ensures Less(s[spa[k]..], s[spa[k']..])
    decreases |S1| - k, 0
  {
    SameNameTail(S1, k, k');
    ReducedLess(s, spa, S1, k + 1, k' + 1);
    SameSubstringShift(s, spa, k, k');
  }

  /** The sample suffixes, listed in the order of `SA1`, increase. */
  ghost predicate SamplesRanked(s: seq<int>, spa: seq<int>, SA1: seq<int>)
    requires SampleList(spa, |s|)
  {
    forall r, r' :: 0 <= r < r' < |SA1| && 0 <= SA1[r] < |spa| && 0 <= SA1[r'] < |spa| ==>
      Less(s[spa[SA1[r]]..], s[spa[SA1[r']]..])
  }

  /** The suffix array of a reduced string named in suffix order ranks the sample suffixes. */
  lemma ReducedRanked(s: seq<int>, spa: seq<int>, S1: seq<int>, SA1: seq<int>)
    requires Reduction(s, spa, S1) && IsSuffixArray(S1, SA1)
    ensures SamplesRanked(s, spa, SA1)
  {
    forall r, r' | 0 <= r < r' < |SA1| && 0 <= SA1[r] < |spa| && 0 <= SA1[r'] < |spa|
      ensures Less(s[spa[SA1[r]]..], s[spa[SA1[r']]..])
    {
      SortedPairs(S1, SA1, r, r');
      ReducedLess(s, spa, S1, SA1[r], SA1[r']);
    }
  }
}
