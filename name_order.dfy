/**
 * Why the names of the reduced string order the sample suffixes.
 *
 * After the first induced sort the sample positions appear in `sa` in the
 * order of their keys up to the next sample position (`Keys.Beyond`).  The
 * naming scan walks `sa` and gives a fresh, larger name whenever the sample
 * substring changes, so a smaller name always means a smaller key, and a
 * smaller key means a smaller suffix.  The reduction then carries the order
 * of the reduced suffixes back to the sample suffixes of the text.
 */
module NameOrder {
  import opened Lex
  import opened SaisSpec
  import opened Induce
  import opened InduceS
  import opened InducedSort
  import opened Keys
  import opened InducedOrder
  import opened Reduce
  import opened ReducedOrder

  /** What the naming scan reads after the first induced sort: samples, and slots sorted by bucket and by key. */
  ghost predicate SortedScan(s: seq<int>, sa: seq<int>, spa: seq<int>) {
    && WellFormed(s) && SampleList(spa, |s|) && SeedOrder(s, spa)
    && BucketSorted(s, sa) && KeySorted(s, sa, Beyond)
  }

  /** The key of sample `k`: its sample substring, coded with the types of its characters. */
  ghost function SampleKey(s: seq<int>, spa: seq<int>, k: int): seq<int>
    requires SampleList(spa, |s|) && 0 <= k < |spa|
  {
    Key(s, spa[k], Beyond)
  }

  /** Samples with smaller names have smaller keys. */
  ghost predicate Ranked(s: seq<int>, spa: seq<int>, S1: seq<int>, named: set<int>)
    requires SampleList(spa, |s|)
  {
    forall k, k' :: k in named && k' in named && 0 <= k < |spa| && 0 <= k' < |spa| && |S1| == |spa| && S1[k] < S1[k'] ==>
      Less(SampleKey(s, spa, k), SampleKey(s, spa, k'))
  }

  /** The key of a sample ends where its sample substring ends. */
  lemma KeyEndsAtNext(s: seq<int>, spa: seq<int>, k: int)
    requires WellFormed(s) && SampleList(spa, |s|) && SeedOrder(s, spa) && 0 <= k < |spa|
    ensures KeyEnd(s, spa[k], Beyond) + 1 == LmsEnd(spa, |s|, k)
  {
    var p := spa[k];
    if k < |spa| - 1 {
      assert p < spa[k + 1] <= |s| - 1;
      var e := Reach(s, p + 1);
      assert spa[k + 1] in spa;
      assert LmsPos(s, spa[k + 1]);
      assert e <= spa[k + 1];
      if e != |s| - 1 {
        assert LmsPos(s, e);
      } else {
        SentinelLms(s);
      }
      assert e in spa;
      var i :| 0 <= i < |spa| && spa[i] == e;
      assert k < i;
      assert spa[k + 1] <= e;
    }
  }

  /** Samples with equal keys have equal sample substrings. */
  lemma SameKeySubstring(s: seq<int>, spa: seq<int>, k: int, k': int)
    requires WellFormed(s) && SampleList(spa, |s|) && SeedOrder(s, spa) && 0 <= k < |spa| && 0 <= k' < |spa|
    requires SampleKey(s, spa, k) == SampleKey(s, spa, k')
    ensures LmsSubstring(s, spa, k) == LmsSubstring(s, spa, k')
  {
    KeyEndsAtNext(s, spa, k);
    KeyEndsAtNext(s, spa, k');
    var u, v := LmsSubstring(s, spa, k), LmsSubstring(s, spa, k');
    var key := SampleKey(s, spa, k);
    assert |u| == |key| == |v|;
    forall j | 0 <= j < |u|
      ensures u[j] == v[j]
    {
      assert key[j] == Enc(s, spa[k] + j) == Enc(s, spa[k'] + j);
      EncSame(s, spa[k] + j, spa[k'] + j);
    }
  }

  /** Of two samples in slots `r < j`, the later one does not have the smaller key. */
  lemma SlotKeys(s: seq<int>, sa: seq<int>, r: int, j: int)
    requires BucketSorted(s, sa) && KeySorted(s, sa, Beyond) && 0 <= r < j < |sa|
    ensures 0 <= sa[r] < |s| && 0 <= sa[j] < |s| && !Less(Key(s, sa[j], Beyond), Key(s, sa[r], Beyond))
  {
    assert InBuckets(s, sa);
    SlotOrder(s, sa, Beyond, r, j, sa[r], sa[j]);
  }

  /**
   * A sample found before the head `lo` of the bucket that slot `j` is in
   * has a code different from the position in slot `j`.
   */
  lemma EarlierBucket(s: seq<int>, sa: seq<int>, r: int, lo: int, j: int)
    requires BucketSorted(s, sa) && 0 <= r < lo <= j < |sa| && lo == Start(s, s[sa[lo]])
    ensures s[sa[r]] != s[sa[j]]
  {
    var c := s[sa[j]];
    if s[sa[r]] == c {
      SameBucket(s, c, s[sa[lo]], lo);
      assert false;
    }
  }

  /** Equal keys mean equal codes. */
  lemma KeyHead(s: seq<int>, x: int, y: int)
    requires 0 <= x < |s| && 0 <= y < |s| && Key(s, x, Beyond) == Key(s, y, Beyond)
    ensures s[x] == s[y]
  {
    assert Key(s, x, Beyond)[0] == Enc(s, x) && Key(s, y, Beyond)[0] == Enc(s, y);
    EncSame(s, x, y);
  }

  /**
   * The scan in slot `j` gives a fresh name: every sample named so far has
   * a smaller key.  Before the first fresh name of the bucket all of them
   * lie in earlier buckets; after it, the remembered sample has the largest
   * name and a sample substring different from the current one.
   */
  lemma FreshAbove(s: seq<int>, sa: seq<int>, spa: seq<int>, rev: map<int, int>, S1: seq<int>, named: set<int>,
                   cur: int, reused: bool, j: int, k: int, lo: int, found: bool, prev: int, len: int, a: int)
    requires Scanning(s, sa, spa, rev) && SortedScan(s, sa, spa) && Naming(s, sa, spa, S1, named, cur, reused, j)
    requires j < |s| && sa[j] in rev && k == rev[sa[j]]
    requires 0 <= lo <= j && lo == Start(s, s[sa[lo]])
    requires Ranked(s, spa, S1, named)
    requires !found ==> Found(sa, spa, named, lo)
    requires found ==> PrevFound(s, sa, spa, rev, S1, named, cur, lo, prev, len, j)
    requires found ==> LmsSubstring(s, spa, rev[sa[prev]]) != LmsSubstring(s, spa, k)
    requires a in named
    ensures Less(SampleKey(s, spa, a), SampleKey(s, spa, k))
  {
    var x, y := spa[a], sa[j];
    assert spa[a] in sa[..j];
    var r :| 0 <= r < j && sa[r] == x;
    SlotKeys(s, sa, r, j);
    var kx, ky := SampleKey(s, spa, a), SampleKey(s, spa, k);
    if kx == ky {
      KeyHead(s, x, y);
      if !found {
        assert spa[a] in sa[..lo];
        var r' :| 0 <= r' < lo && sa[r'] == x;
        EarlierBucket(s, sa, r', lo, j);
        assert false;
      }
      var kp := rev[sa[prev]];
      SameKeySubstring(s, spa, a, k);
      if S1[a] == cur - 1 {
        assert false;
      }
      assert Less(kx, SampleKey(s, spa, kp));
      SlotKeys(s, sa, prev, j);
      assert false;
    }
    LessTotal(kx, ky);
  }

  /** Naming sample `k` freshly with `cur`, above every name so far, keeps names in key order. */
  lemma RankedFresh(s: seq<int>, spa: seq<int>, S1: seq<int>, named: set<int>, cur: int, k: int)
    requires SampleList(spa, |s|) && |S1| == |spa| && 0 <= k < |spa| && k !in named
    requires Ranked(s, spa, S1, named)
    requires forall a :: a in named ==> 0 <= a < |spa| && S1[a] < cur && Less(SampleKey(s, spa, a), SampleKey(s, spa, k))
    ensures Ranked(s, spa, S1[k := cur], named + {k})
  {
  }

  /**
   * Naming sample `k` with the name `cur - 1` of the remembered sample keeps
   * names in key order, when every sample with a smaller name has a
   * smaller key than `k`.
   */
  lemma RankedReused(s: seq<int>, spa: seq<int>, S1: seq<int>, named: set<int>, cur: int, k: int)
    requires SampleList(spa, |s|) && |S1| == |spa| && 0 <= k < |spa| && k !in named
    requires Ranked(s, spa, S1, named)
    requires forall a :: a in named ==> 0 <= a < |spa| && S1[a] < cur
    requires forall a :: a in named && S1[a] < cur - 1 ==> Less(SampleKey(s, spa, a), SampleKey(s, spa, k))
    ensures Ranked(s, spa, S1[k := cur - 1], named + {k})
  {
  }

  /** A fresh name in slot `j` keeps the names in key order. */
  lemma RankFresh(s: seq<int>, sa: seq<int>, spa: seq<int>, rev: map<int, int>, S1: seq<int>, named: set<int>,
                  cur: int, reused: bool, j: int, k: int, lo: int, found: bool, prev: int, len: int)
    requires Scanning(s, sa, spa, rev) && SortedScan(s, sa, spa) && Naming(s, sa, spa, S1, named, cur, reused, j)
    requires j < |s| && sa[j] in rev && k == rev[sa[j]]
    requires 0 <= lo <= j && lo == Start(s, s[sa[lo]])
    requires Ranked(s, spa, S1, named)
    requires !found ==> Found(sa, spa, named, lo)
    requires found ==> PrevFound(s, sa, spa, rev, S1, named, cur, lo, prev, len, j)
    requires found ==> LmsSubstring(s, spa, rev[sa[prev]]) != LmsSubstring(s, spa, k)
    ensures Ranked(s, spa, S1[k := cur], named + {k})
  {
    FoundOnce(s, sa, spa, rev, named, j);
    forall a | a in named
      ensures Less(SampleKey(s, spa, a), SampleKey(s, spa, k))
    {
      FreshAbove(s, sa, spa, rev, S1, named, cur, reused, j, k, lo, found, prev, len, a);
    }
    RankedFresh(s, spa, S1, named, cur, k);
  }

  /** Reusing the remembered name in slot `j` keeps the names in key order. */
  lemma RankReuse(s: seq<int>, sa: seq<int>, spa: seq<int>, rev: map<int, int>, S1: seq<int>, named: set<int>,
                  cur: int, reused: bool, j: int, k: int, lo: int, prev: int, len: int)
    requires Scanning(s, sa, spa, rev) && SortedScan(s, sa, spa) && Naming(s, sa, spa, S1, named, cur, reused, j)
    requires j < |s| && sa[j] in rev && k == rev[sa[j]]
    requires Ranked(s, spa, S1, named)
    requires PrevFound(s, sa, spa, rev, S1, named, cur, lo, prev, len, j)
    ensures Ranked(s, spa, S1[k := cur - 1], named + {k})
  {
    FoundOnce(s, sa, spa, rev, named, j);
    var kp := rev[sa[prev]];
    var key := SampleKey(s, spa, k);
    SlotKeys(s, sa, prev, j);
    forall a | a in named && S1[a] < cur - 1
      ensures Less(SampleKey(s, spa, a), key)
    {
      assert Less(SampleKey(s, spa, a), SampleKey(s, spa, kp));
      if SampleKey(s, spa, kp) != key {
        LessTotal(SampleKey(s, spa, kp), key);
        LessTransitive(SampleKey(s, spa, a), SampleKey(s, spa, kp), key);
      }
    }
    RankedReused(s, spa, S1, named, cur, k);
  }

  /** Once the scan has passed every slot, every sample is named. */
  lemma AllNamed(sa: seq<int>, spa: seq<int>, named: set<int>, k: int)
    requires IsPermutation(sa) && Found(sa, spa, named, |sa|) && 0 <= k < |spa| && 0 <= spa[k] < |sa|
    ensures k in named
  {
    assert sa[..|sa|] == sa;
    assert spa[k] in sa;
  }

  /** Once every sample is named, a smaller name means a smaller sample suffix. */
  lemma RankedSuffixes(s: seq<int>, sa: seq<int>, spa: seq<int>, S1: seq<int>, named: set<int>)
    requires WellFormed(s) && SampleList(spa, |s|) && |S1| == |spa| && |sa| == |s|
    requires IsPermutation(sa) && Found(sa, spa, named, |sa|) && Ranked(s, spa, S1, named)
    ensures NamesOrderSuffixes(s, spa, S1)
  {
    forall k, k' | 0 <= k < |S1| && 0 <= k' < |S1| && S1[k] < S1[k']
      ensures Less(s[spa[k]..], s[spa[k']..])
    {
      AllNamed(sa, spa, named, k);
      AllNamed(sa, spa, named, k');
      KeyOrder(s, spa[k], spa[k'], Beyond);
    }
  }

  /** Each bucket starts at the first slot of the bucket of the code whose position fills that slot. */
  ghost predicate BucketHeads(s: seq<int>, sa: seq<int>, buckets: seq<int>) {
    forall b :: 0 <= b < |buckets| ==>
      0 <= buckets[b] < |sa| && 0 <= sa[buckets[b]] < |s| && buckets[b] == Start(s, s[sa[buckets[b]]])
  }

  /** In a picture sorted into buckets, the bucket starts of the layout are bucket heads. */
  lemma HeadsOfBuckets(s: seq<int>, cc: CharCounts, buckets: seq<int>, c2b: map<int, int>, sa: seq<int>)
    requires BucketLayout(s, cc, buckets, c2b) && BucketStarts(buckets, |s|) && BucketSorted(s, sa)
    ensures BucketHeads(s, sa, buckets)
  {
    forall b | 0 <= b < |buckets|
      ensures 0 <= buckets[b] < |sa| && 0 <= sa[buckets[b]] < |s| && buckets[b] == Start(s, s[sa[buckets[b]]])
    {
      var c, r := cc[b].0, buckets[b];
      assert HasKey(cc, c);
      assert c in s;
      assert r < |s|;
      SameBucket(s, c, s[sa[r]], r);
    }
  }

  /** A remembered sample whose sample substring equals the current one passes the scan's comparison. */
  lemma PrevSubstringEqual(s: seq<int>, sa: seq<int>, spa: seq<int>, rev: map<int, int>, S1: seq<int>, named: set<int>,
                           cur: int, lo: int, prev: int, len: int, j: int, k: int, len': int)
    requires PrevFound(s, sa, spa, rev, S1, named, cur, lo, prev, len, j) && 0 <= k < |spa| && j < |sa|
    requires spa[k] == sa[j] && spa[k] + len' == LmsEnd(spa, |s|, k)
    requires LmsSubstring(s, spa, rev[sa[prev]]) == LmsSubstring(s, spa, k)
    ensures len' == len && s[sa[prev] .. sa[prev] + len'] == s[sa[j] .. sa[j] + len']
  {
  }
}
