/**
 * Naming the sample (LMS) substrings: the reduced string `S1` gives each
 * sample position a name, a new one whenever its substring differs from
 * the one found just before it in the same bucket of the suffix array.
 * This module holds the ghost state of that scan and the lemmas for its
 * three kinds of step.
 */
module Reduce {
  import opened Lex
  import opened SaisSpec
  import opened InduceS

  /** `spa` lists positions of a text of length `n` in increasing order, ending with the sentinel. */
  predicate SampleList(spa: seq<int>, n: int) {
    && |spa| > 0
    && StrictlyIncreasing(spa)
    && (forall k :: 0 <= k < |spa| ==> 0 <= spa[k] < n)
    && spa[|spa| - 1] == n - 1
  }

  /** The sample positions of a well-formed text form a sample list. */
  lemma SampleListOf(s: seq<int>, t: seq<bool>, spa: seq<int>)
    requires WellFormed(s) && IsTypeArray(s, t) && IsLmsList(t, spa)
    ensures SampleList(spa, |s|)
  {
    LastLmsIsSentinel(s, t, spa);
    forall k | 0 <= k < |spa|
      ensures 0 <= spa[k] < |s|
    {
      assert spa[k] in spa;
    }
  }

  /**
   * `buckets` starts at slot 0, increases strictly, stays inside the text,
   * and its first bucket is slot 0 alone.
   */
  predicate BucketStarts(buckets: seq<int>, n: int) {
    && |buckets| > 0
    && buckets[0] == 0
    && StrictlyIncreasing(buckets)
    && buckets[|buckets| - 1] < n
    && (if |buckets| > 1 then buckets[1] else n) == 1
  }

  /** The buckets of a well-formed text start as `BucketStarts` says: the sentinel's bucket is slot 0 alone. */
  lemma LayoutStarts(s: seq<int>, cc: CharCounts, buckets: seq<int>, c2b: map<int, int>)
    requires WellFormed(s) && BucketLayout(s, cc, buckets, c2b)
    ensures BucketStarts(buckets, |s|)
  {
    var n := |s|;
    assert s[n - 1] in s;
    assert HasKey(cc, s[n - 1]);
    OuterBuckets(s, cc);
    forall a, b | 0 <= a < b < |buckets|
      ensures buckets[a] < buckets[b]
    {
      StartsIncrease(s, cc, a, b);
    }
    var last := |cc| - 1;
    assert HasKey(cc, cc[last].0);
    BucketBounds(s, cc[last].0);
    SentinelBucket(s);
    assert HasKey(cc, cc[0].0);
    if |buckets| > 1 {
      NextBucket(s, cc, 0);
    } else {
      assert Start(s, cc[0].0) + Count(s, cc[0].0) == n;
    }
  }

  /** Bucket starts increase strictly with the code. */
  lemma {:induction false} StartsIncrease(s: seq<int>, cc: CharCounts, a: nat, b: nat)
    requires CountsOf(cc, s) && a < b < |cc|
    ensures Start(s, cc[a].0) < Start(s, cc[b].0)
    decreases b - a
  {
    assert HasKey(cc, cc[a].0);
    BucketBounds(s, cc[a].0);
    NextBucket(s, cc, a);
    if a + 1 < b {
      StartsIncrease(s, cc, a + 1, b);
    }
  }

  /** The first slot of bucket `b`, or `n` past the last bucket. */
  function BucketFirst(buckets: seq<int>, b: int, n: int): int
    requires 0 <= b <= |buckets|
  {
    if b < |buckets| then buckets[b] else n
  }

  /** Where the sample substring of sample `k` ends: just past the next sample position, or at the end `n`. */
  function LmsEnd(spa: seq<int>, n: int, k: int): (r: int)
    requires SampleList(spa, n) && 0 <= k < |spa|
    ensures spa[k] < r <= n
  {
    if k == |spa| - 1 then n else spa[k + 1] + 1
  }

  /** The sample substring of sample `k`: from its position through the next sample position, or to the end. */
  function LmsSubstring(s: seq<int>, spa: seq<int>, k: int): seq<int>
    requires SampleList(spa, |s|) && 0 <= k < |spa|
  {
    s[spa[k] .. LmsEnd(spa, |s|, k)]
  }

  /** No two entries of `xs` are equal. */
  predicate AllDistinct(xs: seq<int>) {
    forall k, k' :: 0 <= k < k' < |xs| ==> xs[k] != xs[k']
  }

  /** `rev` maps each sample position to its index in `spa`. */
  ghost predicate RevMap(rev: map<int, int>, spa: seq<int>) {
    && (forall p :: p in rev <==> p in spa)
    && (forall p :: p in rev ==> 0 <= rev[p] < |spa| && spa[rev[p]] == p)
  }

  /** What the scan reads: the samples, a suffix array with the sentinel first, and the reverse map. */
  ghost predicate Scanning(s: seq<int>, sa: seq<int>, spa: seq<int>, rev: map<int, int>) {
    && SampleList(spa, |s|)
    && |sa| == |s| && IsPermutation(sa) && sa[0] == |s| - 1
    && RevMap(rev, spa)
  }

  /** `named` holds the indexes of the samples among the positions in slots `0 .. j-1`. */
  ghost predicate Found(sa: seq<int>, spa: seq<int>, named: set<int>, j: int) {
    && 0 <= j <= |sa|
    && (forall k :: k in named ==> 0 <= k < |spa|)
    && (forall k :: 0 <= k < |spa| ==> (k in named <==> spa[k] in sa[..j]))
  }

  /**
   * The names given so far are below `cur`, there are no more of them than
   * samples named, and the sentinel, found in slot 0, is the only sample
   * named 0.
   */
  ghost predicate Names(spa: seq<int>, S1: seq<int>, named: set<int>, cur: int, j: int) {
    && |S1| == |spa| && |spa| > 0
    && (forall k :: k in named ==> 0 <= k < |S1| && 0 <= S1[k] < cur)
    && 0 <= cur <= |named|
    && (j == 0 ==> cur == 0)
    && (j > 0 ==> cur >= 1 && |spa| - 1 in named && S1[|spa| - 1] == 0)
    && (forall k :: k in named && k != |spa| - 1 && 0 <= k < |S1| ==> S1[k] >= 1)
  }

  /** Samples named alike have equal substrings. */
  ghost predicate SameNames(s: seq<int>, spa: seq<int>, S1: seq<int>, named: set<int>)
    requires SampleList(spa, |s|)
  {
    forall k, k' :: k in named && k' in named && 0 <= k < |spa| && 0 <= k' < |spa| && |S1| == |spa| && S1[k] == S1[k'] ==>
      LmsSubstring(s, spa, k) == LmsSubstring(s, spa, k')
  }

  /** `reused` says whether two samples named so far share a name. */
  ghost predicate Reused(S1: seq<int>, named: set<int>, reused: bool) {
    && (!reused ==> forall k, k' :: k in named && k' in named && k != k' && 0 <= k < |S1| && 0 <= k' < |S1| ==> S1[k] != S1[k'])
    && (reused ==> exists k, k' :: k in named && k' in named && k != k' && 0 <= k < |S1| && 0 <= k' < |S1| && S1[k] == S1[k'])
  }

  /** The state of the scan after slots `0 .. j-1`. */
  ghost predicate Naming(s: seq<int>, sa: seq<int>, spa: seq<int>, S1: seq<int>, named: set<int>, cur: int, reused: bool, j: int)
    requires SampleList(spa, |s|)
  {
    && j <= |s|
    && Found(sa, spa, named, j)
    && Names(spa, S1, named, cur, j)
    && SameNames(s, spa, S1, named)
    && Reused(S1, named, reused)
  }

  /** Before the scan nothing is named. */
  lemma NamingStart(s: seq<int>, sa: seq<int>, spa: seq<int>, S1: seq<int>)
    requires SampleList(spa, |s|) && |S1| == |spa|
    ensures Naming(s, sa, spa, S1, {}, 0, false, 0)
  {
  }

  /** A slot whose position is no sample leaves the state as it is. */
  lemma NamingSkip(s: seq<int>, sa: seq<int>, spa: seq<int>, rev: map<int, int>, S1: seq<int>, named: set<int>, cur: int, reused: bool, j: int)
    requires Scanning(s, sa, spa, rev) && Naming(s, sa, spa, S1, named, cur, reused, j)
    requires j < |s| && sa[j] !in rev
    ensures Naming(s, sa, spa, S1, named, cur, reused, j + 1)
  {
    assert sa[..j + 1] == sa[..j] + [sa[j]];
    forall k | 0 <= k < |spa|
      ensures k in named <==> spa[k] in sa[..j + 1]
    {
      assert spa[k] in spa;
    }
  }

  /** The sample found at slot `j` was not found before, and is found now. */
  lemma FoundOnce(s: seq<int>, sa: seq<int>, spa: seq<int>, rev: map<int, int>, named: set<int>, j: int)
    requires Scanning(s, sa, spa, rev) && Found(sa, spa, named, j)
    requires j < |s| && sa[j] in rev
    ensures rev[sa[j]] !in named
    ensures Found(sa, spa, named + {rev[sa[j]]}, j + 1)
    ensures |named + {rev[sa[j]]}| == |named| + 1
  {
    var k := rev[sa[j]];
    assert sa[..j + 1] == sa[..j] + [sa[j]];
    forall k' | 0 <= k' < |spa|
      ensures k' in named + {k} <==> spa[k'] in sa[..j + 1]
    {
    }
  }

  /** Giving the fresh name `cur` to the sample `k` keeps the names apart as they were. */
  lemma FreshName(S1: seq<int>, named: set<int>, reused: bool, cur: int, k: int)
    requires Reused(S1, named, reused) && k !in named && 0 <= k < |S1|
    requires forall x :: x in named ==> 0 <= x < |S1| && S1[x] < cur
    ensures Reused(S1[k := cur], named + {k}, reused)
  {
    var S1' := S1[k := cur];
    if reused {
      var a, b :| a in named && b in named && a != b && 0 <= a < |S1| && 0 <= b < |S1| && S1[a] == S1[b];
      assert S1'[a] == S1[a] && S1'[b] == S1[b];
    } else {
      forall a, b | a in named + {k} && b in named + {k} && a != b && 0 <= a < |S1'| && 0 <= b < |S1'|
        ensures S1'[a] != S1'[b]
      {
        if a == k {
          assert S1'[b] == S1[b];
        } else if b == k {
          assert S1'[a] == S1[a];
        } else {
          assert S1'[a] == S1[a] && S1'[b] == S1[b];
        }
      }
    }
  }

  /** A sample given the new name `cur`. */
  lemma NamingNew(s: seq<int>, sa: seq<int>, spa: seq<int>, rev: map<int, int>, S1: seq<int>, named: set<int>, cur: int, reused: bool, j: int, k: int)
    requires Scanning(s, sa, spa, rev) && Naming(s, sa, spa, S1, named, cur, reused, j)
    requires j < |s| && sa[j] in rev && k == rev[sa[j]]
    ensures k !in named
    ensures Naming(s, sa, spa, S1[k := cur], named + {k}, cur + 1, reused, j + 1)
  {
    FoundOnce(s, sa, spa, rev, named, j);
    var S1', named' := S1[k := cur], named + {k};
    if j == 0 {
      assert k == |spa| - 1;
    } else {
      assert sa[j] != sa[0];
      assert k != |spa| - 1;
    }
    assert Names(spa, S1', named', cur + 1, j + 1);
    forall a, b | a in named' && b in named' && 0 <= a < |spa| && 0 <= b < |spa| && S1'[a] == S1'[b]
      ensures LmsSubstring(s, spa, a) == LmsSubstring(s, spa, b)
    {
      if a != b {
        assert a != k && b != k;
      }
    }
    FreshName(S1, named, reused, cur, k);
  }

  /** A sample given the latest name again, because its substring equals that of sample `kp`, which holds that name. */
  lemma NamingReuse(s: seq<int>, sa: seq<int>, spa: seq<int>, rev: map<int, int>, S1: seq<int>, named: set<int>, cur: int, reused: bool, j: int, k: int, kp: int)
    requires Scanning(s, sa, spa, rev) && Naming(s, sa, spa, S1, named, cur, reused, j)
    requires j < |s| && sa[j] in rev && k == rev[sa[j]]
    requires kp in named && kp != |spa| - 1 && S1[kp] == cur - 1
    requires LmsSubstring(s, spa, kp) == LmsSubstring(s, spa, k)
    ensures k !in named
    ensures Naming(s, sa, spa, S1[k := cur - 1], named + {k}, cur, true, j + 1)
  {
    FoundOnce(s, sa, spa, rev, named, j);
    var S1', named' := S1[k := cur - 1], named + {k};
    assert j > 0;
    assert sa[j] != sa[0];
    assert k != |spa| - 1;
    assert Names(spa, S1', named', cur, j + 1);
    forall a, b | a in named' && b in named' && 0 <= a < |spa| && 0 <= b < |spa| && S1'[a] == S1'[b]
      ensures LmsSubstring(s, spa, a) == LmsSubstring(s, spa, b)
    {
      if a == k && b != k {
        assert S1[b] == S1[kp];
      } else if b == k && a != k {
        assert S1[a] == S1[kp];
      }
    }
    assert kp in named' && k in named' && kp != k && S1'[kp] == S1'[k];
  }

  /**
   * After the last slot every sample is named: names are below the number
   * of samples, equal names mean equal substrings, the names are distinct
   * exactly when no name was given twice, and the sentinel alone is named 0.
   */
  lemma NamingDone(s: seq<int>, sa: seq<int>, spa: seq<int>, rev: map<int, int>, S1: seq<int>, named: set<int>, cur: int, reused: bool)
    requires Scanning(s, sa, spa, rev) && Naming(s, sa, spa, S1, named, cur, reused, |s|)
    ensures |S1| == |spa|
    ensures forall k :: 0 <= k < |S1| ==> 0 <= S1[k] < |S1|
    ensures forall k, k' :: 0 <= k < |S1| && 0 <= k' < |S1| && S1[k] == S1[k'] ==> LmsSubstring(s, spa, k) == LmsSubstring(s, spa, k')
    ensures AllDistinct(S1) <==> !reused
    ensures WellFormed(S1)
  {
    assert sa[..|s|] == sa;
    forall k | 0 <= k < |spa|
      ensures k in named
    {
      assert spa[k] in sa;
    }
    RangeCard(|spa|);
    forall x | x in named
      ensures x in Range(|spa|)
    {
    }
    assert named == Range(|spa|);
    if reused {
      var a, b :| a in named && b in named && a != b && S1[a] == S1[b];
      if a < b {
        assert !AllDistinct(S1);
      } else {
        assert S1[b] == S1[a];
      }
    }
  }

  /**
   * What the scan remembers of the last newly named sample in the current
   * bucket: its slot `prev` in `sa`, its name `cur - 1` and the length
   * `len` of its sample substring, read off the text.
   */
  ghost predicate PrevFound(s: seq<int>, sa: seq<int>, spa: seq<int>, rev: map<int, int>, S1: seq<int>, named: set<int>,
                            cur: int, lo: int, prev: int, len: int, j: int)
  {
    && SampleList(spa, |s|) && |S1| == |spa|
    && 0 <= lo <= prev < j && prev < |sa|
    && sa[prev] in rev && 0 <= rev[sa[prev]] < |spa|
    && rev[sa[prev]] in named && S1[rev[sa[prev]]] == cur - 1
    && spa[rev[sa[prev]]] == sa[prev] && sa[prev] + len == LmsEnd(spa, |s|, rev[sa[prev]])
  }

  lemma PrevFoundSkip(s: seq<int>, sa: seq<int>, spa: seq<int>, rev: map<int, int>, S1: seq<int>, named: set<int>,
                      cur: int, lo: int, prev: int, len: int, j: int)
    requires PrevFound(s, sa, spa, rev, S1, named, cur, lo, prev, len, j)
    ensures PrevFound(s, sa, spa, rev, S1, named, cur, lo, prev, len, j + 1)
  {
  }

  /** A sample that reuses the previous name keeps the remembered sample as it is. */
  lemma PrevFoundReuse(s: seq<int>, sa: seq<int>, spa: seq<int>, rev: map<int, int>, S1: seq<int>, named: set<int>,
                       cur: int, lo: int, prev: int, len: int, j: int, k: int)
    requires PrevFound(s, sa, spa, rev, S1, named, cur, lo, prev, len, j) && 0 <= k < |S1|
    ensures PrevFound(s, sa, spa, rev, S1[k := cur - 1], named + {k}, cur, lo, prev, len, j + 1)
  {
  }

  /** A sample that gets the fresh name `cur` becomes the remembered one. */
  lemma PrevFoundNew(s: seq<int>, sa: seq<int>, spa: seq<int>, rev: map<int, int>, S1: seq<int>, named: set<int>,
                     cur: int, lo: int, len: int, j: int, k: int)
    requires SampleList(spa, |s|) && |S1| == |spa| && 0 <= lo <= j < |sa|
    requires sa[j] in rev && k == rev[sa[j]] && 0 <= k < |spa|
    requires spa[k] == sa[j] && spa[k] + len == LmsEnd(spa, |s|, k)
    ensures PrevFound(s, sa, spa, rev, S1[k := cur], named + {k}, cur + 1, lo, j, len, j + 1)
  {
  }

  /** Equal text under the remembered sample and the current one means equal sample substrings. */
  lemma PrevFoundSame(s: seq<int>, sa: seq<int>, spa: seq<int>, rev: map<int, int>, S1: seq<int>, named: set<int>,
                      cur: int, lo: int, prev: int, len: int, j: int, k: int, len': int)
    requires PrevFound(s, sa, spa, rev, S1, named, cur, lo, prev, len, j) && 0 <= k < |spa| && j < |sa|
    requires spa[k] == sa[j] && spa[k] + len' == LmsEnd(spa, |s|, k)
    requires len' == len && s[sa[prev] .. sa[prev] + len'] == s[sa[j] .. sa[j] + len']
    ensures LmsSubstring(s, spa, rev[sa[prev]]) == LmsSubstring(s, spa, k)
  {
  }

  /** `m` distinct entries take `m` distinct values. */
  lemma {:induction false} ImageCard(xs: seq<int>, m: int)
    requires AllDistinct(xs) && 0 <= m <= |xs|
    ensures |SlotValues(xs, 0, m)| == m
    decreases m
  {
    if m > 0 {
      ImageCard(xs, m - 1);
      assert SlotValues(xs, 0, m) == SlotValues(xs, 0, m - 1) + {xs[m - 1]};
      assert xs[m - 1] !in SlotValues(xs, 0, m - 1);
    } else {
      assert SlotValues(xs, 0, m) == {};
    }
  }

  /** Distinct names below the number of samples use up every name. */
  lemma NamesArePermutation(xs: seq<int>)
    requires AllDistinct(xs) && forall k :: 0 <= k < |xs| ==> 0 <= xs[k] < |xs|
    ensures IsPermutation(xs)
  {
    var n := |xs|;
    ImageCard(xs, n);
    RangeCard(n);
    assert SlotValues(xs, 0, n) <= Range(n);
    SubsetCard(SlotValues(xs, 0, n), Range(n));
    forall p | 0 <= p < n
      ensures p in xs
    {
      assert p in SlotValues(xs, 0, n);
    }
  }

  /**
   * The suffix array of a reduced string whose names are all distinct: the
   * sample named `r` goes to rank `r`, since the first letters already
   * order the suffixes.
   */
  method InvertNames(S1: seq<int>) returns (SA1: seq<int>)
    requires AllDistinct(S1) && forall k :: 0 <= k < |S1| ==> 0 <= S1[k] < |S1|
    ensures |SA1| == |S1| && forall k :: 0 <= k < |S1| ==> SA1[S1[k]] == k
    ensures IsSuffixArray(S1, SA1)
  {
    SA1 := seq(|S1|, _ => 0);
    for i := 0 to |S1|
      invariant |SA1| == |S1|
      invariant forall k :: 0 <= k < i ==> SA1[S1[k]] == k
    {
      SA1 := SA1[S1[i] := i];
    }
    NamesArePermutation(S1);
    forall r | 0 <= r < |S1|
      ensures 0 <= SA1[r] < |S1| && S1[SA1[r]] == r
    {
      assert r in S1;
      var k :| 0 <= k < |S1| && S1[k] == r;
    }
    forall r, r' | 0 <= r < r' < |S1|
      ensures SA1[r] != SA1[r']
    {
      assert S1[SA1[r]] != S1[SA1[r']];
    }
    forall p | 0 <= p < |S1|
      ensures p in SA1
    {
      assert SA1[S1[p]] == p;
    }
    forall r | 0 < r < |S1|
      ensures Less(S1[SA1[r - 1]..], S1[SA1[r]..])
    {
      assert S1[SA1[r - 1]..][0] == r - 1 && S1[SA1[r]..][0] == r;
    }
  }
}
