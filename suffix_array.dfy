/**
 * The suffix array class of `src/suffixArray.cpp`: the text as a sequence
 * of codes ending in the sentinel 0, the suffix array built by induced
 * sorting, and the LCP array used to speed up search.
 *
 * Every loop of the construction is proved against the ghost runs of
 * `InducedSort`: each step of the program performs one step of a run, so
 * what is proved about the runs (every position lands in exactly one slot,
 * sorted into buckets, sentinel first) holds of the array the program builds.
 */
module SuffixArrays {
  import opened Lex
  import opened SaisSpec
  import opened Induce
  import opened InduceS
  import opened InducedSort
  import opened Reduce
  import opened Keys
  import opened InducedOrder
  import opened ReducedOrder
  import opened NameOrder
  import opened LcpTable
  import opened SearchSpec

  /** The code of each character of `str`. */
  function Codes(str: string): seq<int> {
    seq(|str|, i requires 0 <= i < |str| => str[i] as int)
  }

  /** `str` holds no NUL character, so the sentinel 0 stays strictly smallest. */
  predicate NoNul(str: string) {
    forall i :: 0 <= i < |str| ==> str[i] != '\0'
  }

  /** The text of a string without NUL characters, with the sentinel appended, is well formed. */
  lemma CodesWellFormed(str: string)
    requires NoNul(str)
    ensures WellFormed(Codes(str) + [0])
    ensures forall i :: 0 <= i < |str| ==> (Codes(str) + [0])[i] > 0
  {
  }

  /**
   * Over the coded text with its sentinel, a non-empty pattern without NUL
   * characters occurs exactly where it occurs in the string, which is what
   * the naive matcher of the tests reports.
   */
  lemma CodedMatchAt(text: string, pattern: string, q: int)
    requires NoNul(pattern) && |pattern| > 0
    ensures MatchAt(Codes(text) + [0], Codes(pattern), q) <==> MatchAt(text, pattern, q)
  {
    var c, m := Codes(text) + [0], |pattern|;
    if MatchAt(text, pattern, q) {
      forall k | 0 <= k < m
        ensures c[q..q + m][k] == Codes(pattern)[k]
      {
        assert text[q..q + m][k] == pattern[k];
      }
    }
    if MatchAt(c, Codes(pattern), q) {
      assert c[q..q + m][m - 1] == Codes(pattern)[m - 1];
      forall k | 0 <= k < m
        ensures text[q..q + m][k] == pattern[k]
      {
        assert c[q..q + m][k] == Codes(pattern)[k];
      }
    }
  }

  /** The sum of the counts of the first `k` codes. */
  ghost function CountsBefore(cc: CharCounts, k: nat): int
    requires k <= |cc|
  {
    if k == 0 then 0 else CountsBefore(cc, k - 1) + cc[k - 1].1
  }

  /** For the counts of `s`, the sum of the counts of smaller codes is where the bucket of a code starts. */
  lemma {:induction false} CountsBeforeIsStart(s: seq<int>, cc: CharCounts, k: nat)
    requires CountsOf(cc, s) && k < |cc|
    ensures CountsBefore(cc, k) == Start(s, cc[k].0)
  {
    if k == 0 {
      OuterBuckets(s, cc);
    } else {
      CountsBeforeIsStart(s, cc, k - 1);
      NextBucket(s, cc, k - 1);
    }
  }

  /** Buckets starting at the running sums of the counts of `s`, numbered in order of code, are the bucket layout of `s`. */
  lemma PrefixSumLayout(s: seq<int>, cc: CharCounts, buckets: seq<int>, c2b: map<int, int>)
    requires CountsOf(cc, s) && |buckets| == |cc|
    requires forall k {:trigger buckets[k]} :: 0 <= k < |buckets| ==> buckets[k] == CountsBefore(cc, k)
    requires forall c :: c in c2b <==> HasKey(cc, c)
    requires forall c :: c in c2b ==> 0 <= c2b[c] < |cc| && cc[c2b[c]].0 == c
    ensures BucketLayout(s, cc, buckets, c2b)
  {
    forall k | 0 <= k < |cc|
      ensures buckets[k] == Start(s, cc[k].0)
    {
      CountsBeforeIsStart(s, cc, k);
    }
  }

  /** A nonempty text has at least one bucket. */
  lemma SomeBucket(s: seq<int>, cc: CharCounts)
    requires CountsOf(cc, s) && |s| > 0
    ensures |cc| > 0
  {
    assert s[0] in s;
    assert HasKey(cc, s[0]);
  }

  /** The sample positions, in text order, are a valid seeding order. */
  lemma SampleSeedOrder(s: seq<int>, t: seq<bool>, spa: seq<int>)
    requires IsTypeArray(s, t) && IsLmsList(t, spa)
    ensures SeedOrder(s, spa)
  {
    forall k | 0 <= k < |spa|
      ensures LmsPos(s, spa[k])
    {
      assert spa[k] in spa;
      IsLmsIff(s, t, spa[k]);
    }
    forall q | LmsPos(s, q)
      ensures q in spa
    {
      IsLmsIff(s, t, q);
    }
  }

  /** The order the reduced suffix array `SA1` seeds in: `SA1` read from its last entry to its first. */
  function ReducedSeeds(spa: seq<int>, SA1: seq<int>): seq<int>
    requires forall r :: 0 <= r < |SA1| ==> 0 <= SA1[r] < |spa|
  {
    seq(|SA1|, k requires 0 <= k < |SA1| => spa[SA1[|SA1| - 1 - k]])
  }

  /**
   * Any permutation of the sample indexes gives a valid seeding order, so
   * the reduced suffix array (or anything else that lists each sample
   * position once) may seed the final sort.
   */
  lemma ReducedSeedOrder(s: seq<int>, t: seq<bool>, spa: seq<int>, SA1: seq<int>)
    requires IsTypeArray(s, t) && IsLmsList(t, spa) && |SA1| == |spa| && IsPermutation(SA1)
    ensures SeedOrder(s, ReducedSeeds(spa, SA1))
  {
    var seeds := ReducedSeeds(spa, SA1);
    var m := |SA1|;
    forall k | 0 <= k < m
      ensures LmsPos(s, seeds[k])
    {
      assert spa[SA1[m - 1 - k]] in spa;
      IsLmsIff(s, t, seeds[k]);
    }
    forall k, k' | 0 <= k < k' < m
      ensures seeds[k] != seeds[k']
    {
      var a, b := SA1[m - 1 - k], SA1[m - 1 - k'];
      assert a != b;
      if a < b {
        assert spa[a] < spa[b];
      } else {
        assert spa[b] < spa[a];
      }
    }
    forall q | LmsPos(s, q)
      ensures q in seeds
    {
      IsLmsIff(s, t, q);
      assert q in spa;
      var j :| 0 <= j < |spa| && spa[j] == q;
      assert j in SA1;
      var r :| 0 <= r < m && SA1[r] == j;
      assert seeds[m - 1 - r] == q;
    }
  }

  /** A reduced suffix array that ranks the sample suffixes seeds them in descending order. */
  lemma RankedSeedsDescend(s: seq<int>, spa: seq<int>, SA1: seq<int>)
    requires SampleList(spa, |s|) && forall r :: 0 <= r < |SA1| ==> 0 <= SA1[r] < |spa|
    requires SamplesRanked(s, spa, SA1)
    ensures SeedsDescending(s, ReducedSeeds(spa, SA1))
  {
    var seeds, m := ReducedSeeds(spa, SA1), |SA1|;
    forall j, k | 0 <= j < k < |seeds| && 0 <= seeds[j] < |s| && 0 <= seeds[k] < |s|
      ensures Less(s[seeds[k]..], s[seeds[j]..])
    {
      assert seeds[k] == spa[SA1[m - 1 - k]] && seeds[j] == spa[SA1[m - 1 - j]];
    }
  }

  /**
   * After the first induced sort the naming scan has what it reads: the
   * sample list, the bucket starts, and slots sorted by bucket and by key.
   */
  lemma ScanReady(s: seq<int>, sa: seq<int>, t: seq<bool>, spa: seq<int>, cc: CharCounts, buckets: seq<int>, c2b: map<int, int>)
    requires Setting(s, cc, buckets, c2b) && IsTypeArray(s, t) && IsLmsList(t, spa)
    requires IsPermutation(sa) && BucketSorted(s, sa) && KeySorted(s, sa, Beyond)
    ensures SampleList(spa, |s|) && BucketStarts(buckets, |s|)
    ensures SortedScan(s, sa, spa) && BucketHeads(s, sa, buckets)
    ensures 2 * |spa| <= |s| + 1 && (|s| >= 2 ==> |spa| < |s|)
  {
    SampleListOf(s, t, spa);
    LayoutStarts(s, cc, buckets, c2b);
    LmsFewer(s, t, spa);
    SampleSeedOrder(s, t, spa);
    HeadsOfBuckets(s, cc, buckets, c2b, sa);
  }

  /** The map from each sample position back to its index in the sample list, built by one pass over the list. */
  method ReverseMap(spa: seq<int>) returns (spaReverseMap: map<int, int>)
    ensures RevMap(spaReverseMap, spa)
  {
    spaReverseMap := map[];
    for i := 0 to |spa|
      invariant forall k :: 0 <= k < i ==> spa[k] in spaReverseMap
      invariant forall p :: p in spaReverseMap ==> 0 <= spaReverseMap[p] < i && spa[spaReverseMap[p]] == p
    {
      spaReverseMap := spaReverseMap[spa[i] := i];
    }
  }

  /** The rank array of `constructLCPArray`: the position of each suffix in `sa`. */
  method RankArray(sa: seq<int>) returns (rank: seq<int>)
    requires IsPermutation(sa)
    ensures Ranks(sa, rank)
  {
    rank := seq(|sa|, _ => 0);
    var i := 0;
    while i < |sa|
      invariant 0 <= i <= |sa| && |rank| == |sa|
      invariant forall r :: 0 <= r < i ==> rank[sa[r]] == r
    {
      rank := rank[sa[i] := i];
      i := i + 1;
    }
    RanksOf(sa, rank);
  }

  /**
   * The inner loop of Kasai's scan: extends a match of suffixes `i` and
   * `j` of `s` from length `k0` while the next characters exist and agree.
   * From a length they are known to share, it stops at their common prefix.
   */
  method ExtendMatch(s: seq<int>, i: int, j: int, k0: nat) returns (k: nat)
    requires 0 <= i < |s| && 0 <= j < |s|
    ensures k >= k0
    ensures k0 <= Lcp(s[i..], s[j..]) ==> k == Lcp(s[i..], s[j..])
  {
    k := k0;
    ghost var known := k0 <= Lcp(s[i..], s[j..]);
    while i + k < |s| && j + k < |s| && s[i + k] == s[j + k]
      invariant k >= k0
      invariant known ==> k <= Lcp(s[i..], s[j..])
      decreases |s| - i - k
    {
      if known {
        ScanCompare(s, i, j, k);
      }
      k := k + 1;
    }
    if known {
      ScanCompare(s, i, j, k);
    }
  }

  /**
   * Kasai's scan of `constructLCPArray`: visits the suffixes in text order
   * and stores at the rank of each suffix's successor the common prefix of
   * the two, starting each comparison from the previous length less one.
   * Over a suffix array every entry it writes is exact; the other entries
   * are left as they were.
   */
  method KasaiScan(s: seq<int>, sa: seq<int>, rank: seq<int>, lcp0: seq<int>) returns (lcp: seq<int>)
    requires WellFormed(s) && |sa| == |s| && Ranks(sa, rank) && |lcp0| == 2 * |s| - 1
    ensures |lcp| == |lcp0|
    ensures forall x :: 0 <= x < |lcp| && (x == 0 || x >= |s|) ==> lcp[x] == lcp0[x]
    ensures IsSuffixArray(s, sa) ==>
              forall p {:trigger NextLcp(s, sa, rank, p)} :: 0 <= p < |s| && rank[p] < |s| - 1 ==> lcp[rank[p] + 1] == NextLcp(s, sa, rank, p)
  {
    var n := |s|;
    lcp := lcp0;
    var k := 0;
    var i := 0;
    KasaiStart(s, sa, rank, lcp);
    while i < n
      invariant 0 <= i <= n && |lcp| == 2 * n - 1
      invariant forall x :: 0 <= x < |lcp| && (x == 0 || x >= n) ==> lcp[x] == lcp0[x]
      invariant KasaiInv(s, sa, rank, lcp, i, k) && k >= 0
    {
      lcp, k := KasaiVisit(s, sa, rank, lcp, i, k);
      i := i + 1;
    }
    KasaiFinal(s, sa, rank, lcp, k);
  }

  /**
   * One step of Kasai's scan, at the suffix starting at `i` with the carried
   * length `k`: store the common prefix with its successor in rank order, if
   * it has one, and carry that length less one to the next suffix.
   */
  method KasaiVisit(s: seq<int>, sa: seq<int>, rank: seq<int>, lcp0: seq<int>, i: int, k0: int) returns (lcp: seq<int>, k: int)
    requires WellFormed(s) && |sa| == |s| && Ranks(sa, rank) && |lcp0| == 2 * |s| - 1 && 0 <= i < |s| && k0 >= 0
    requires KasaiInv(s, sa, rank, lcp0, i, k0)
    ensures |lcp| == |lcp0| && k >= 0
    ensures forall x :: 0 <= x < |lcp| && (x == 0 || x >= |s|) ==> lcp[x] == lcp0[x]
    ensures KasaiInv(s, sa, rank, lcp, i + 1, k)
  {
    var n := |s|;
    lcp, k := lcp0, k0;
    if rank[i] == n - 1 {
      KasaiSkip(s, sa, rank, lcp, i, k);
      k := 0;
    } else {
      var j := sa[rank[i] + 1];
      k := ExtendMatch(s, i, j, k);
      KasaiStore(s, sa, rank, lcp, i, k0, k);
      lcp := lcp[rank[i] + 1 := k];
    }
    if k > 0 {
      k := k - 1;
    }
  }

  class SuffixArray {
    /** The text as codes, ending with the sentinel. */
    var S: seq<int>
    /** The suffix array: `SA[r]` is the position of the suffix of rank `r`. */
    var SA: seq<int>
    /** `LCP[r]` for `1 <= r < |S|` compares ranks `r-1` and `r`; the upper half memoises interval minima. */
    var LCP: seq<int>

    /** Appends the codes of `str` and the sentinel 0 to the text. */
    method ConstructS(str: string)
      modifies this
      ensures S == old(S) + Codes(str) + [0]
      ensures SA == old(SA) && LCP == old(LCP)
    {
      S := S + Codes(str) + [0];
    }

    /** The number of occurrences of each code of the text, in increasing order of code. */
    method CalcCharCounts() returns (charCounts: CharCounts)
      ensures CountsOf(charCounts, S)
    {
      charCounts := [];
      for i := 0 to |S|
        invariant CountsOf(charCounts, S[..i])
      {
        CountsOfStep(charCounts, S[..i], S[i]);
        assert S[..i + 1] == S[..i] + [S[i]];
        charCounts := Bump(charCounts, S[i]);
      }
      assert S[..|S|] == S;
    }

    /**
     * The start of each bucket, as the running sum of the counts, and the
     * bucket number of each code.  For the counts of the text these are the
     * bucket layout of the text.
     */
    method InitBuckets(charCounts: CharCounts) returns (buckets: seq<int>, charToBucket: map<int, int>)
      requires KeysIncreasing(charCounts)
      ensures |buckets| == |charCounts|
      ensures forall k {:trigger buckets[k]} :: 0 <= k < |buckets| ==> buckets[k] == CountsBefore(charCounts, k)
      ensures forall c :: c in charToBucket <==> HasKey(charCounts, c)
      ensures forall c :: c in charToBucket ==> 0 <= charToBucket[c] < |charCounts| && charCounts[charToBucket[c]].0 == c
      ensures CountsOf(charCounts, S) ==> BucketLayout(S, charCounts, buckets, charToBucket)
    {
      var curIndex := 0;
      buckets := [];
      charToBucket := map[];
      for k := 0 to |charCounts|
        invariant |buckets| == k && curIndex == CountsBefore(charCounts, k)
        invariant forall j {:trigger buckets[j]} :: 0 <= j < k ==> buckets[j] == CountsBefore(charCounts, j)
        invariant forall c :: c in charToBucket ==> 0 <= charToBucket[c] < k && charCounts[charToBucket[c]].0 == c
        invariant forall j :: 0 <= j < k ==> charCounts[j].0 in charToBucket
      {
        charToBucket := charToBucket[charCounts[k].0 := |buckets|];
        buckets := buckets + [curIndex];
        curIndex := curIndex + charCounts[k].1;
      }
      forall c | HasKey(charCounts, c)
        ensures c in charToBucket
      {
        var j :| 0 <= j < |charCounts| && charCounts[j].0 == c;
      }
      if CountsOf(charCounts, S) {
        PrefixSumLayout(S, charCounts, buckets, charToBucket);
      }
    }

    /** The type of every suffix, computed right to left: true for S-type, false for L-type. */
    method ConstructTTypeArray() returns (typeTArray: seq<bool>)
      requires |S| > 0
      ensures IsTypeArray(S, typeTArray)
    {
      if |S| == 1 {
        return [true];
      }
      typeTArray := seq(|S|, _ => false);
      typeTArray := typeTArray[|S| - 1 := true];
      var i := |S| - 2;
      while true
        invariant 0 <= i <= |S| - 2 && |typeTArray| == |S|
        invariant forall k :: i < k < |S| ==> typeTArray[k] == SType(S, k)
        decreases i
      {
        typeTArray := typeTArray[i := S[i] < S[i + 1] || (S[i] == S[i + 1] && typeTArray[i + 1])];
        if i == 0 {
          break;
        }
        i := i - 1;
      }
    }

    /** The sample (leftmost-S) positions in text order. */
    method ConstructSamplePointerArray(typeTArray: seq<bool>) returns (samplePointerArray: seq<int>)
      requires |typeTArray| == |S| && |S| > 0
      ensures IsLmsList(typeTArray, samplePointerArray)
    {
      samplePointerArray := [];
      if typeTArray[0] {
        samplePointerArray := [0];
      }
      for i := 1 to |S|
        invariant StrictlyIncreasing(samplePointerArray)
        invariant forall a :: 0 <= a < |samplePointerArray| ==> samplePointerArray[a] < i
        invariant forall p: int :: p in samplePointerArray <==> IsLms(typeTArray, p) && p < i
      {
        if typeTArray[i] && !typeTArray[i - 1] {
          samplePointerArray := samplePointerArray + [i];
        }
      }
    }

    /** The last slot of each bucket. */
    method InitTails(buckets: seq<int>) returns (tails: seq<int>)
      requires |buckets| > 0
      ensures IsInitTails(buckets, |S|, tails)
    {
      tails := seq(|buckets|, _ => 0);
      for i := 1 to |buckets|
        invariant |tails| == |buckets|
        invariant forall k :: 0 <= k < i - 1 ==> tails[k] == buckets[k + 1] - 1
      {
        tails := tails[i - 1 := buckets[i] - 1];
      }
      tails := tails[|buckets| - 1 := |S| - 1];
    }

    /** Clears the suffix array and puts each code that occurs once at the head of its bucket. */
    method InducedSortCommon(charCounts: CharCounts, buckets: seq<int>, charToBucket: map<int, int>)
      modifies this
      requires Setting(S, charCounts, buckets, charToBucket)
      requires |SA| == 0 || |SA| == |S|
      ensures SA == Concrete(PreRun(S, |S|))
      ensures S == old(S) && LCP == old(LCP)
    {
      if |SA| != 0 {
        SA := seq(|SA|, _ => 0);
      } else {
        SA := seq(|S|, _ => 0);
      }
      ConcreteBlanks(|S|);
      PreRunSteps(S, charCounts, buckets, charToBucket);
      for i := 0 to |S|
        invariant S == old(S) && LCP == old(LCP)
        invariant SA == Concrete(PreRun(S, i))
      {
        assert PreRunStep(S, charCounts, buckets, charToBucket, i);
        if CountOf(charCounts, S[i]) == 1 {
          SA := SA[buckets[charToBucket[S[i]]] := i];
        }
      }
    }

    /**
     * The left-to-right scan of `induceSuffixes`: each slot holding a
     * position whose predecessor is L-type puts that predecessor at the
     * head of its bucket, and the head moves up.
     */
    method InduceLTypes(heads0: seq<int>, typeTArray: seq<bool>, charToBucket: map<int, int>, ghost G0: seq<int>)
      modifies this
      requires IsTypeArray(S, typeTArray) && SA == Concrete(G0)
      requires forall i :: 0 <= i < |S| ==> LScanStep(S, charToBucket, heads0, G0, i)
      ensures SA == Concrete(LRunSlots(S, charToBucket, heads0, G0, |S|))
      ensures S == old(S) && LCP == old(LCP)
    {
      var heads := heads0;
      for i := 0 to |S|
        invariant S == old(S) && LCP == old(LCP)
        invariant SA == Concrete(LRunSlots(S, charToBucket, heads0, G0, i))
        invariant heads == LRunHeads(S, charToBucket, heads0, G0, i)
      {
        assert LScanStep(S, charToBucket, heads0, G0, i);
        if SA[i] != 0 && !typeTArray[SA[i] - 1] {
          var v := SA[i] - 1;
          var b := charToBucket[S[v]];
          SA := SA[heads[b] := v];
          heads := heads[b := heads[b] + 1];
        }
      }
    }

    /**
     * The right-to-left scan of `induceSuffixes`: each slot holding a
     * position whose predecessor is S-type puts that predecessor at the
     * tail of its bucket, and the tail moves down.
     */
    method InduceSTypes(tails0: seq<int>, typeTArray: seq<bool>, charToBucket: map<int, int>, ghost G1: seq<int>)
      modifies this
      requires IsTypeArray(S, typeTArray) && SA == Concrete(G1)
      requires forall i :: 0 <= i < |S| ==> SScanStep(S, charToBucket, tails0, G1, i)
      ensures SA == Concrete(SRunSlots(S, charToBucket, tails0, G1, 0))
      ensures S == old(S) && LCP == old(LCP)
    {
      var tails := tails0;
      var i := |S|;
      while i > 0
        invariant 0 <= i <= |S|
        invariant S == old(S) && LCP == old(LCP)
        invariant SA == Concrete(SRunSlots(S, charToBucket, tails0, G1, i))
        invariant tails == SRunTails(S, charToBucket, tails0, G1, i)
      {
        i := i - 1;
        assert SScanStep(S, charToBucket, tails0, G1, i);
        if SA[i] != 0 && typeTArray[SA[i] - 1] {
          var v := SA[i] - 1;
          var b := charToBucket[S[v]];
          SA := SA[tails[b] := v];
          tails := tails[b := tails[b] - 1];
        }
      }
    }

    /**
     * Both induction scans.  Whatever order the sample positions were
     * seeded in, every position ends up in exactly one slot, sorted into
     * buckets, with the sentinel first.
     */
    method InduceSuffixes(buckets: seq<int>, typeTArray: seq<bool>, charToBucket: map<int, int>,
                          ghost charCounts: CharCounts, ghost tails0: seq<int>, ghost seeds: seq<int>)
      modifies this
      requires Inputs(S, charCounts, buckets, charToBucket, tails0) && SeedOrder(S, seeds) && IsTypeArray(S, typeTArray)
      requires SA == Concrete(Seeded(S, charToBucket, tails0, seeds))
      ensures S == old(S) && LCP == old(LCP)
      ensures SA == Induced(S, charToBucket, buckets, tails0, seeds)
      ensures IsPermutation(SA) && BucketSorted(S, SA) && SA[0] == |S| - 1
      ensures KeySorted(S, SA, Beyond)
      ensures SeedsDescending(S, seeds) ==> IsSuffixArray(S, SA)
    {
      SomeBucket(S, charCounts);
      ScanSteps(S, charCounts, buckets, charToBucket, tails0, seeds);
      var heads := buckets;
      var tails := InitTails(buckets);
      assert tails == tails0;
      InduceLTypes(heads, typeTArray, charToBucket, Seeded(S, charToBucket, tails0, seeds));
      InduceSTypes(tails, typeTArray, charToBucket, LScanned(S, charToBucket, buckets, tails0, seeds));
      InducedSortResult(S, charCounts, buckets, charToBucket, tails0, seeds);
      FirstPass(S, charCounts, buckets, charToBucket, tails0, seeds);
      if SeedsDescending(S, seeds) {
        FinalPass(S, charCounts, buckets, charToBucket, tails0, seeds);
      }
    }

    /** Puts the seeds at the tails of their buckets, in the order `SA1` lists them from its last entry to its first. */
    method SeedReduced(SA1: seq<int>, samplePointerArray: seq<int>, tails0: seq<int>, charToBucket: map<int, int>)
      modifies this
      requires forall r :: 0 <= r < |SA1| ==> 0 <= SA1[r] < |samplePointerArray|
      requires forall k :: 0 <= k < |SA1| ==> SeedProgramStep(S, charToBucket, tails0, ReducedSeeds(samplePointerArray, SA1), k)
      requires SA == Concrete(PreRun(S, |S|))
      ensures SA == Concrete(Seeded(S, charToBucket, tails0, ReducedSeeds(samplePointerArray, SA1)))
      ensures S == old(S) && LCP == old(LCP)
    {
      ghost var seeds := ReducedSeeds(samplePointerArray, SA1);
      var tails := tails0;
      var i := |SA1|;
      while i > 0
        invariant 0 <= i <= |SA1|
        invariant S == old(S) && LCP == old(LCP)
        invariant SA == Concrete(SeedRunSlots(S, charToBucket, tails0, PreRun(S, |S|), seeds, |SA1| - i))
        invariant tails == SeedRunTails(S, charToBucket, tails0, seeds, |SA1| - i)
      {
        i := i - 1;
        assert SeedProgramStep(S, charToBucket, tails0, seeds, |SA1| - 1 - i);
        var indexToLoad := samplePointerArray[SA1[i]];
        assert indexToLoad == seeds[|SA1| - 1 - i];
        var b := charToBucket[S[indexToLoad]];
        SA := SA[tails[b] := indexToLoad];
        tails := tails[b := tails[b] - 1];
      }
    }

    /** Puts the sample positions at the tails of their buckets, in text order. */
    method SeedSample(samplePointerArray: seq<int>, tails0: seq<int>, charToBucket: map<int, int>)
      modifies this
      requires forall k :: 0 <= k < |samplePointerArray| ==> SeedProgramStep(S, charToBucket, tails0, samplePointerArray, k)
      requires SA == Concrete(PreRun(S, |S|))
      ensures SA == Concrete(Seeded(S, charToBucket, tails0, samplePointerArray))
      ensures S == old(S) && LCP == old(LCP)
    {
      var tails := tails0;
      for i := 0 to |samplePointerArray|
        invariant S == old(S) && LCP == old(LCP)
        invariant SA == Concrete(SeedRunSlots(S, charToBucket, tails0, PreRun(S, |S|), samplePointerArray, i))
        invariant tails == SeedRunTails(S, charToBucket, tails0, samplePointerArray, i)
      {
        assert SeedProgramStep(S, charToBucket, tails0, samplePointerArray, i);
        var indexToLoad := samplePointerArray[i];
        var b := charToBucket[S[indexToLoad]];
        SA := SA[tails[b] := indexToLoad];
        tails := tails[b := tails[b] - 1];
      }
    }

    /**
     * Induced sorting seeded by the reduced suffix array: the sample
     * positions go to the tails of their buckets in the order `SA1` lists
     * them, read from its last entry to its first.
     */
    method InducedSortReduced(SA1: seq<int>, samplePointerArray: seq<int>, charCounts: CharCounts,
                              buckets: seq<int>, charToBucket: map<int, int>, typeTArray: seq<bool>)
      modifies this
      requires Setting(S, charCounts, buckets, charToBucket) && IsTypeArray(S, typeTArray)
      requires IsLmsList(typeTArray, samplePointerArray)
      requires |SA1| == |samplePointerArray| && IsPermutation(SA1)
      requires |SA| == 0 || |SA| == |S|
      ensures S == old(S) && LCP == old(LCP)
      ensures IsPermutation(SA) && BucketSorted(S, SA) && SA[0] == |S| - 1
      ensures SampleList(samplePointerArray, |S|) && (SamplesRanked(S, samplePointerArray, SA1) ==> IsSuffixArray(S, SA))
    {
      SampleListOf(S, typeTArray, samplePointerArray);
      InducedSortCommon(charCounts, buckets, charToBucket);
      SomeBucket(S, charCounts);
      var tails := InitTails(buckets);
      ReducedSeedOrder(S, typeTArray, samplePointerArray, SA1);
      SeedSteps(S, charCounts, buckets, charToBucket, tails, ReducedSeeds(samplePointerArray, SA1));
      SeedReduced(SA1, samplePointerArray, tails, charToBucket);
      if SamplesRanked(S, samplePointerArray, SA1) {
        RankedSeedsDescend(S, samplePointerArray, SA1);
      }
      InduceSuffixes(buckets, typeTArray, charToBucket, charCounts, tails, ReducedSeeds(samplePointerArray, SA1));
    }

    /**
     * Induced sorting seeded by the sample positions in text order: this
     * sorts the positions by their text up to and including the next sample
     * position, read together with the types of its characters, and so
     * sorts the sample substrings.
     */
    method InducedSort(samplePointerArray: seq<int>, charCounts: CharCounts,
                       buckets: seq<int>, charToBucket: map<int, int>, typeTArray: seq<bool>)
      modifies this
      requires Setting(S, charCounts, buckets, charToBucket) && IsTypeArray(S, typeTArray)
      requires IsLmsList(typeTArray, samplePointerArray)
      requires |SA| == 0 || |SA| == |S|
      ensures S == old(S) && LCP == old(LCP)
      ensures IsPermutation(SA) && BucketSorted(S, SA) && SA[0] == |S| - 1
      ensures KeySorted(S, SA, Beyond)
    {
      InducedSortCommon(charCounts, buckets, charToBucket);
      SomeBucket(S, charCounts);
      var tails := InitTails(buckets);
      SampleSeedOrder(S, typeTArray, samplePointerArray);
      SeedSteps(S, charCounts, buckets, charToBucket, tails, samplePointerArray);
      SeedSample(samplePointerArray, tails, charToBucket);
      InduceSuffixes(buckets, typeTArray, charToBucket, charCounts, tails, samplePointerArray);
    }

    /** The length of the sample substring of sample `SPAIndex`: through the next sample position, or to the end of the text. */
    function GetLMSSubstrLen(SPAIndex: int, samplePointerArray: seq<int>): (r: int)
      reads this
      requires SampleList(samplePointerArray, |S|) && 0 <= SPAIndex < |samplePointerArray|
      ensures r >= 1 && samplePointerArray[SPAIndex] + r == LmsEnd(samplePointerArray, |S|, SPAIndex)
      ensures S[samplePointerArray[SPAIndex] .. samplePointerArray[SPAIndex] + r] == LmsSubstring(S, samplePointerArray, SPAIndex)
    {
      if SPAIndex == |samplePointerArray| - 1 then |S| - samplePointerArray[SPAIndex]
      else samplePointerArray[SPAIndex + 1] - samplePointerArray[SPAIndex] + 1
    }

    /**
     * One slot `j` of the naming scan within the bucket starting at slot
     * `bucketStart`: a slot holding no sample changes nothing; a sample
     * gets the previous name again when a sample was already found, one
     * was found in this bucket and its substring equals that sample's, and
     * the next name otherwise.
     */
    method NameSlot(samplePointerArray: seq<int>, spaReverseMap: map<int, int>, bucketStart: int, j: int,
                    S1_0: seq<int>, cur0: int, prev0: int, prevLen0: int, unique0: bool, firstFound0: bool, found0: bool,
                    ghost named0: set<int>, ghost reused0: bool, ghost areAllLettersUnique0: bool)
      returns (S1: seq<int>, curBucketIndex: int, prevFoundLMSCharIndex: int, prevSubstrLen: int,
               areAllLettersUnique: bool, firstFound: bool, foundInBucket: bool, ghost named: set<int>, ghost reused: bool)
      requires Scanning(S, SA, samplePointerArray, spaReverseMap)
      requires 0 <= bucketStart <= j < |S| && (bucketStart == 0 ==> j == 0)
      requires Naming(S, SA, samplePointerArray, S1_0, named0, cur0, reused0, j)
      requires unique0 == (areAllLettersUnique0 && !reused0)
      requires firstFound0 <==> j > 0
      requires found0 ==> PrevFound(S, SA, samplePointerArray, spaReverseMap, S1_0, named0, cur0, bucketStart, prev0, prevLen0, j)
      requires SortedScan(S, SA, samplePointerArray) && bucketStart == Start(S, S[SA[bucketStart]])
      requires Ranked(S, samplePointerArray, S1_0, named0)
      requires !found0 ==> Found(SA, samplePointerArray, named0, bucketStart)
      ensures Naming(S, SA, samplePointerArray, S1, named, curBucketIndex, reused, j + 1)
      ensures areAllLettersUnique == (areAllLettersUnique0 && !reused)
      ensures firstFound
      ensures foundInBucket ==> PrevFound(S, SA, samplePointerArray, spaReverseMap, S1, named, curBucketIndex,
                                          bucketStart, prevFoundLMSCharIndex, prevSubstrLen, j + 1)
      ensures Ranked(S, samplePointerArray, S1, named)
      ensures !foundInBucket ==> Found(SA, samplePointerArray, named, bucketStart)
    {
      S1, curBucketIndex, prevFoundLMSCharIndex, prevSubstrLen := S1_0, cur0, prev0, prevLen0;
      areAllLettersUnique, firstFound, foundInBucket, named, reused := unique0, firstFound0, found0, named0, reused0;
      var s, sa := S, SA;
      if sa[j] !in spaReverseMap {
        NamingSkip(s, sa, samplePointerArray, spaReverseMap, S1, named, curBucketIndex, reused, j);
        if foundInBucket {
          PrevFoundSkip(s, sa, samplePointerArray, spaReverseMap, S1, named, curBucketIndex,
                        bucketStart, prevFoundLMSCharIndex, prevSubstrLen, j);
        }
        return;
      }
      var it := spaReverseMap[sa[j]];
      var curSubstrLen := GetLMSSubstrLen(it, samplePointerArray);
      assert samplePointerArray[it] == sa[j];
      if firstFound && foundInBucket && curSubstrLen == prevSubstrLen
         && s[sa[prevFoundLMSCharIndex] .. sa[prevFoundLMSCharIndex] + curSubstrLen] == s[sa[j] .. sa[j] + curSubstrLen]
      {
        ghost var kp := spaReverseMap[sa[prevFoundLMSCharIndex]];
        assert prevFoundLMSCharIndex >= 1;
        assert kp != |samplePointerArray| - 1 by {
          assert sa[prevFoundLMSCharIndex] != sa[0];
        }
        PrevFoundSame(s, sa, samplePointerArray, spaReverseMap, S1, named, curBucketIndex,
                      bucketStart, prevFoundLMSCharIndex, prevSubstrLen, j, it, curSubstrLen);
        RankReuse(s, sa, samplePointerArray, spaReverseMap, S1, named, curBucketIndex, reused, j, it,
                  bucketStart, prevFoundLMSCharIndex, prevSubstrLen);
        NamingReuse(s, sa, samplePointerArray, spaReverseMap, S1, named, curBucketIndex, reused, j, it, kp);
        PrevFoundReuse(s, sa, samplePointerArray, spaReverseMap, S1, named, curBucketIndex,
                       bucketStart, prevFoundLMSCharIndex, prevSubstrLen, j, it);
        areAllLettersUnique := false;
        S1 := S1[it := curBucketIndex - 1];
        named := named + {it};
        reused := true;
        return;
      }
      if foundInBucket && LmsSubstring(s, samplePointerArray, spaReverseMap[sa[prevFoundLMSCharIndex]]) == LmsSubstring(s, samplePointerArray, it) {
        PrevSubstringEqual(s, sa, samplePointerArray, spaReverseMap, S1, named, curBucketIndex,
                           bucketStart, prevFoundLMSCharIndex, prevSubstrLen, j, it, curSubstrLen);
        assert false;
      }
      RankFresh(s, sa, samplePointerArray, spaReverseMap, S1, named, curBucketIndex, reused, j, it,
                bucketStart, foundInBucket, prevFoundLMSCharIndex, prevSubstrLen);
      NamingNew(s, sa, samplePointerArray, spaReverseMap, S1, named, curBucketIndex, reused, j, it);
      PrevFoundNew(s, sa, samplePointerArray, spaReverseMap, S1, named, curBucketIndex, bucketStart, curSubstrLen, j, it);
      prevFoundLMSCharIndex := j;
      prevSubstrLen := curSubstrLen;
      S1 := S1[it := curBucketIndex];
      curBucketIndex := curBucketIndex + 1;
      named := named + {it};
      foundInBucket := true;
      firstFound := true;
    }

    /** Bucket `bucketIdx` of the naming scan: its slots from its head to the slot before the next head. */
    method NameBucket(samplePointerArray: seq<int>, spaReverseMap: map<int, int>, buckets: seq<int>, bucketIdx: int,
                      S1_0: seq<int>, cur0: int, prev0: int, prevLen0: int, unique0: bool, firstFound0: bool,
                      ghost named0: set<int>, ghost reused0: bool, ghost areAllLettersUnique0: bool)
      returns (S1: seq<int>, curBucketIndex: int, prevFoundLMSCharIndex: int, prevSubstrLen: int,
               areAllLettersUnique: bool, firstFound: bool, ghost named: set<int>, ghost reused: bool)
      requires Scanning(S, SA, samplePointerArray, spaReverseMap)
      requires BucketStarts(buckets, |S|) && 0 <= bucketIdx < |buckets|
      requires Naming(S, SA, samplePointerArray, S1_0, named0, cur0, reused0, BucketFirst(buckets, bucketIdx, |S|))
      requires unique0 == (areAllLettersUnique0 && !reused0)
      requires firstFound0 <==> BucketFirst(buckets, bucketIdx, |S|) > 0
      requires SortedScan(S, SA, samplePointerArray) && buckets[bucketIdx] == Start(S, S[SA[buckets[bucketIdx]]])
      requires Ranked(S, samplePointerArray, S1_0, named0)
      ensures Naming(S, SA, samplePointerArray, S1, named, curBucketIndex, reused, BucketFirst(buckets, bucketIdx + 1, |S|))
      ensures areAllLettersUnique == (areAllLettersUnique0 && !reused)
      ensures firstFound <==> BucketFirst(buckets, bucketIdx + 1, |S|) > 0
      ensures Ranked(S, samplePointerArray, S1, named)
    {
      var bucketStart := buckets[bucketIdx];
      var bucketEnd := if bucketIdx + 1 == |buckets| then |S| - 1 else buckets[bucketIdx + 1] - 1;
      assert bucketEnd + 1 == BucketFirst(buckets, bucketIdx + 1, |S|);
      assert bucketIdx == 0 ==> bucketEnd == 0;
      S1, curBucketIndex, prevFoundLMSCharIndex, prevSubstrLen, areAllLettersUnique, firstFound, named, reused :=
        NameSlots(samplePointerArray, spaReverseMap, bucketStart, bucketEnd, S1_0, cur0, prev0, prevLen0,
                  unique0, firstFound0, named0, reused0, areAllLettersUnique0);
    }

    /** One bucket of the naming scan: the slots `bucketStart .. bucketEnd` of the sorted samples, slot by slot. */
    method NameSlots(samplePointerArray: seq<int>, spaReverseMap: map<int, int>, bucketStart: int, bucketEnd: int,
                      S1_0: seq<int>, cur0: int, prev0: int, prevLen0: int, unique0: bool, firstFound0: bool,
                      ghost named0: set<int>, ghost reused0: bool, ghost areAllLettersUnique0: bool)
      returns (S1: seq<int>, curBucketIndex: int, prevFoundLMSCharIndex: int, prevSubstrLen: int,
               areAllLettersUnique: bool, firstFound: bool, ghost named: set<int>, ghost reused: bool)
      requires Scanning(S, SA, samplePointerArray, spaReverseMap)
      requires 0 <= bucketStart <= bucketEnd + 1 <= |S| && (bucketStart == 0 ==> bucketEnd == 0)
      requires Naming(S, SA, samplePointerArray, S1_0, named0, cur0, reused0, bucketStart)
      requires unique0 == (areAllLettersUnique0 && !reused0)
      requires firstFound0 <==> bucketStart > 0
      requires SortedScan(S, SA, samplePointerArray) && bucketStart < |S| && bucketStart == Start(S, S[SA[bucketStart]])
      requires Ranked(S, samplePointerArray, S1_0, named0)
      ensures Naming(S, SA, samplePointerArray, S1, named, curBucketIndex, reused, bucketEnd + 1)
      ensures areAllLettersUnique == (areAllLettersUnique0 && !reused)
      ensures firstFound <==> bucketEnd + 1 > 0
      ensures Ranked(S, samplePointerArray, S1, named)
    {
      S1, curBucketIndex, prevFoundLMSCharIndex, prevSubstrLen := S1_0, cur0, prev0, prevLen0;
      areAllLettersUnique, firstFound, named, reused := unique0, firstFound0, named0, reused0;
      var foundInBucket := false;
      for j := bucketStart to bucketEnd + 1
        invariant Naming(S, SA, samplePointerArray, S1, named, curBucketIndex, reused, j)
        invariant areAllLettersUnique == (areAllLettersUnique0 && !reused)
        invariant firstFound <==> j > 0
        invariant foundInBucket ==> PrevFound(S, SA, samplePointerArray, spaReverseMap, S1, named, curBucketIndex,
                                              bucketStart, prevFoundLMSCharIndex, prevSubstrLen, j)
        invariant Ranked(S, samplePointerArray, S1, named)
        invariant !foundInBucket ==> Found(SA, samplePointerArray, named, bucketStart)
      {
        S1, curBucketIndex, prevFoundLMSCharIndex, prevSubstrLen, areAllLettersUnique, firstFound, foundInBucket, named, reused :=
          NameSlot(samplePointerArray, spaReverseMap, bucketStart, j, S1, curBucketIndex, prevFoundLMSCharIndex,
                   prevSubstrLen, areAllLettersUnique, firstFound, foundInBucket, named, reused, areAllLettersUnique0);
      }
    }

    /**
     * The reduced string: scanning the sorted sample substrings bucket by
     * bucket, each sample gets a new name unless its substring equals that
     * of the sample found just before it in the same bucket.  Equal names
     * mean equal substrings, the sentinel alone is named 0, and the flag
     * stays set exactly when it was set and all names are distinct.
     */
    method ConstructS1AndCheckAllUniqueLetters(samplePointerArray: seq<int>, buckets: seq<int>, areAllLettersUnique0: bool)
      returns (S1: seq<int>, areAllLettersUnique: bool)
      requires SampleList(samplePointerArray, |S|) && BucketStarts(buckets, |S|)
      requires |SA| == |S| && IsPermutation(SA) && SA[0] == |S| - 1
      requires SortedScan(S, SA, samplePointerArray) && BucketHeads(S, SA, buckets)
      ensures |S1| == |samplePointerArray|
      ensures forall k :: 0 <= k < |S1| ==> 0 <= S1[k] < |S1|
      ensures forall k, k' :: 0 <= k < |S1| && 0 <= k' < |S1| && S1[k] == S1[k'] ==>
        LmsSubstring(S, samplePointerArray, k) == LmsSubstring(S, samplePointerArray, k')
      ensures areAllLettersUnique <==> areAllLettersUnique0 && AllDistinct(S1)
      ensures WellFormed(S1)
      ensures NamesOrderSuffixes(S, samplePointerArray, S1)
    {
      S1 := seq(|samplePointerArray|, _ => 0);
      var spaReverseMap := ReverseMap(samplePointerArray);
      var curBucketIndex;
      ghost var named, reused;
      S1, curBucketIndex, areAllLettersUnique, named, reused :=
        NameBuckets(samplePointerArray, spaReverseMap, buckets, S1, areAllLettersUnique0);
      NamingDone(S, SA, samplePointerArray, spaReverseMap, S1, named, curBucketIndex, reused);
      RankedSuffixes(S, SA, samplePointerArray, S1, named);
    }

    /** The naming scan of `constructS1AndCheckAllUniqueLetters`, bucket by bucket over the whole suffix array. */
    method NameBuckets(samplePointerArray: seq<int>, spaReverseMap: map<int, int>, buckets: seq<int>,
                       S1_0: seq<int>, areAllLettersUnique0: bool)
      returns (S1: seq<int>, curBucketIndex: int, areAllLettersUnique: bool, ghost named: set<int>, ghost reused: bool)
      requires Scanning(S, SA, samplePointerArray, spaReverseMap)
      requires BucketStarts(buckets, |S|) && |S1_0| == |samplePointerArray|
      requires SortedScan(S, SA, samplePointerArray) && BucketHeads(S, SA, buckets)
      ensures Naming(S, SA, samplePointerArray, S1, named, curBucketIndex, reused, |S|)
      ensures areAllLettersUnique == (areAllLettersUnique0 && !reused)
      ensures Ranked(S, samplePointerArray, S1, named)
    {
      S1, areAllLettersUnique := S1_0, areAllLettersUnique0;
      var prevFoundLMSCharIndex, prevSubstrLen := 0, 0;
      curBucketIndex := 0;
      var firstFound := false;
      named, reused := {}, false;
      NamingStart(S, SA, samplePointerArray, S1);
      for bucketIdx := 0 to |buckets|
        invariant Naming(S, SA, samplePointerArray, S1, named, curBucketIndex, reused, BucketFirst(buckets, bucketIdx, |S|))
        invariant areAllLettersUnique == (areAllLettersUnique0 && !reused)
        invariant firstFound <==> BucketFirst(buckets, bucketIdx, |S|) > 0
        invariant Ranked(S, samplePointerArray, S1, named)
      {
        S1, curBucketIndex, prevFoundLMSCharIndex, prevSubstrLen, areAllLettersUnique, firstFound, named, reused :=
          NameBucket(samplePointerArray, spaReverseMap, buckets, bucketIdx, S1, curBucketIndex, prevFoundLMSCharIndex,
                     prevSubstrLen, areAllLettersUnique, firstFound, named, reused, areAllLettersUnique0);
      }
    }

    /**
     * The construction shared by both constructors: classify, sample,
     * bucket, sort the sample substrings, name them, sort the reduced string
     * (directly when its names are distinct, otherwise recursively), and
     * induce the final order from it.  A distinct reduced string is sorted
     * by inverting its names.
     */
    method SortSuffixes(areAllLettersUnique0: bool)
      modifies this
      requires WellFormed(S) && (|SA| == 0 || |SA| == |S|)
      ensures S == old(S) && LCP == old(LCP)
      ensures IsSuffixArray(S, SA) && BucketSorted(S, SA) && SA[0] == |S| - 1
      decreases |S|, if areAllLettersUnique0 then 1 else 3
    {
      var typeTArray := ConstructTTypeArray();
      var samplePointerArray := ConstructSamplePointerArray(typeTArray);
      var charCounts := CalcCharCounts();
      var buckets, charToBucket := InitBuckets(charCounts);
      InducedSort(samplePointerArray, charCounts, buckets, charToBucket, typeTArray);
      ScanReady(S, SA, typeTArray, samplePointerArray, charCounts, buckets, charToBucket);
      var S1, areAllLettersUnique := ConstructS1AndCheckAllUniqueLetters(samplePointerArray, buckets, areAllLettersUnique0);
      if areAllLettersUnique {
        var SA1 := InvertNames(S1);
        ReducedRanked(S, samplePointerArray, S1, SA1);
        InducedSortReduced(SA1, samplePointerArray, charCounts, buckets, charToBucket, typeTArray);
      } else {
        assert |S1| < |S| || !areAllLettersUnique0 by {
          if |S| < 2 {
            assert AllDistinct(S1);
          }
        }
        var suffixArray := new SuffixArray.FromCodes(S1);
        ReducedRanked(S, samplePointerArray, S1, suffixArray.SA);
        InducedSortReduced(suffixArray.SA, samplePointerArray, charCounts, buckets, charToBucket, typeTArray);
      }
    }

    /** The same construction as the source writes it: a distinct reduced string is passed on as its own suffix array. */
    method SortSuffixesAsWritten(areAllLettersUnique0: bool)
      modifies this
      requires WellFormed(S) && (|SA| == 0 || |SA| == |S|)
      ensures S == old(S) && LCP == old(LCP)
      ensures IsPermutation(SA) && BucketSorted(S, SA) && SA[0] == |S| - 1
      decreases |S|, if areAllLettersUnique0 then 1 else 3
    {
      var typeTArray := ConstructTTypeArray();
      var samplePointerArray := ConstructSamplePointerArray(typeTArray);
      var charCounts := CalcCharCounts();
      var buckets, charToBucket := InitBuckets(charCounts);
      InducedSort(samplePointerArray, charCounts, buckets, charToBucket, typeTArray);
      ScanReady(S, SA, typeTArray, samplePointerArray, charCounts, buckets, charToBucket);
      var S1, areAllLettersUnique := ConstructS1AndCheckAllUniqueLetters(samplePointerArray, buckets, areAllLettersUnique0);
      if areAllLettersUnique {
        NamesArePermutation(S1);
        InducedSortReduced(S1, samplePointerArray, charCounts, buckets, charToBucket, typeTArray);
      } else {
        var suffixArray := new SuffixArray.FromCodes(S1);
        InducedSortReduced(suffixArray.SA, samplePointerArray, charCounts, buckets, charToBucket, typeTArray);
      }
    }

    /**
     * Builds the suffix array of a string without NUL characters: the codes
     * and sentinel, the induced sort, and the LCP table used by search.
     */
    constructor (input_string: string)
      requires NoNul(input_string)
      ensures S == Codes(input_string) + [0]
      ensures IsSuffixArray(S, SA) && BucketSorted(S, SA) && SA[0] == |S| - 1
      ensures |LCP| == 2 * |S| - 1 && LCP[0] == 0
      ensures IsLcpTable(S, SA, LCP)
    {
      S, SA, LCP := [], [], [];
      new;
      ConstructS(input_string);
      CodesWellFormed(input_string);
      SortSuffixes(true);
      ConstructLCPArray();
    }

    /** The recursive constructor: sorts the suffixes of an already coded, well-formed text, without an LCP array. */
    constructor FromCodes(S0: seq<int>)
      requires WellFormed(S0)
      ensures S == S0 && LCP == []
      ensures IsSuffixArray(S, SA) && BucketSorted(S, SA) && SA[0] == |S| - 1
      decreases |S0|, 2
    {
      S, SA, LCP := S0, [], [];
      new;
      SortSuffixes(true);
    }

    /**
     * Builds the LCP table of a sorted text: the rank array inverts `SA`,
     * Kasai's scan fills the adjacent entries `1 .. n-1` (carrying the
     * match length over from suffix `i` to suffix `i + 1`, less one), entry
     * 0 is zero, and the recursive fill stores the interval minima in the
     * upper half.
     */
    method ConstructLCPArray()
      modifies this
      requires WellFormed(S) && |SA| == |S| && IsPermutation(SA)
      ensures S == old(S) && SA == old(SA)
      ensures |LCP| == 2 * |S| - 1 && LCP[0] == 0
      ensures IsSuffixArray(S, SA) ==> IsLcpTable(S, SA, LCP)
    {
      var s, sa := S, SA;
      var n := |s|;
      var rank := RankArray(sa);
      var resized := if |LCP| >= 2 * n - 1 then LCP[..2 * n - 1] else LCP + seq(2 * n - 1 - |LCP|, _ => 0);
      var lcp := KasaiScan(s, sa, rank, resized);
      LCP := lcp[0 := 0];
      if n > 1 {
        var whole := LCPRec(0, n - 1);
      }
      assert S == s && SA == sa;
      KasaiDone(s, sa, rank, lcp, LCP);
    }

    /**
     * Returns the smallest adjacent entry `LCP[i+1] .. LCP[j]` and stores
     * it at `n + mid` for `(i, j)` and every interval the halving visits
     * inside it; an interval of one is read, not stored.
     */
    method LCPRec(i: int, j: int) returns (res: int)
      modifies this
      requires 0 <= i < j < |S| && |LCP| == 2 * |S| - 1
      ensures S == old(S) && SA == old(SA)
      ensures res == RangeMin(old(LCP), i, j)
      ensures Filled(old(LCP), LCP, old(|S|), i, j)
      decreases j - i
    {
      var n := |S|;
      var mid := (i + j) / 2;
      if j - i == 1 {
        FilledOne(LCP, n, i, j);
        return LCP[j];
      }
      ghost var L0 := LCP;
      if j - i == 2 {
        res := Min(LCP[i + 1], LCP[j]);
        FilledTwo(L0, n, i, j);
        LCP := LCP[n + mid := res];
      } else if j - i == 3 {
        var r := LCPRec(i + 1, j);
        res := Min(LCP[i + 1], r);
        FilledThree(L0, LCP, n, i, j, r);
        LCP := LCP[n + mid := res];
      } else {
        var r1 := LCPRec(i, mid);
        ghost var L1 := LCP;
        var r2 := LCPRec(mid, j);
        res := Min(r1, r2);
        FilledHalves(L0, L1, LCP, n, i, j, r1, r2);
        LCP := LCP[n + mid := res];
      }
    }

    /**
     * The common prefix of the suffixes ranked `index1 < index2`, read off
     * the table: the adjacent entry for neighbours, otherwise the minimum
     * stored at `n + mid` for an interval the fill visits.
     */
    function GetLCP(index1: int, index2: int): (r: int)
      reads this
      requires 0 <= index1 < index2 < |S| && |LCP| == 2 * |S| - 1
      ensures (IsSuffixArray(S, SA) && IsLcpTable(S, SA, LCP) && (index1 + 1 == index2 || TableVisits(S, index1, index2)))
        ==> r == Lcp(SufAt(S, SA, index1), SufAt(S, SA, index2))
    {
      if index1 + 1 == index2 then LCP[index2] else LCP[|S| + (index1 + index2) / 2]
    }

    /**
     * Compares `pattern[..patternLength]` with the suffix at `stringIndex`
     * from `startIndex` on, and returns where they first differ or the end
     * of the pattern; started inside their common prefix, that is the
     * common prefix.
     */
    method CountMatches(pattern: seq<int>, startIndex: int, patternLength: int, stringIndex: int) returns (matches: int)
      requires 0 <= startIndex <= patternLength <= |pattern|
      requires 0 <= stringIndex && stringIndex + startIndex < |S| && AboveSentinel(S, pattern)
      ensures startIndex <= matches <= patternLength && stringIndex + matches < |S|
      ensures forall x :: startIndex <= x < matches ==> S[stringIndex + x] == pattern[x]
      ensures matches < patternLength ==> S[stringIndex + matches] != pattern[matches]
      ensures startIndex <= Lcp(pattern[..patternLength], S[stringIndex..]) ==> matches == Lcp(pattern[..patternLength], S[stringIndex..])
    {
      var s := S;
      matches := startIndex;
      while matches < patternLength
        invariant startIndex <= matches <= patternLength && stringIndex + matches < |s|
        invariant forall x :: startIndex <= x < matches ==> s[stringIndex + x] == pattern[x]
      {
        if s[stringIndex + matches] != pattern[matches] {
          break;
        }
        matches := matches + 1;
      }
      if startIndex <= Lcp(pattern[..patternLength], s[stringIndex..]) {
        MatchedIsLcp(pattern[..patternLength], s[stringIndex..], startIndex, matches);
      }
    }

    /**
     * Every position whose suffix starts with a pattern of length
     * `patternLength`, given a rank whose suffix does: that rank's entry,
     * then the entries below it while the adjacent common prefix covers the
     * pattern, then those above it likewise.
     */
    method FindAllOccurances(suffixArrayMatchIndex: int, patternLength: int) returns (matches: seq<int>, ghost lo: int, ghost hi: int)
      requires 0 <= suffixArrayMatchIndex < |S| && |SA| == |S| && |LCP| >= |S|
      ensures 0 <= lo <= suffixArrayMatchIndex < hi <= |S|
      ensures matches == [SA[suffixArrayMatchIndex]] + Downward(SA, lo, suffixArrayMatchIndex) + SA[suffixArrayMatchIndex + 1..hi]
      ensures forall x :: lo < x <= suffixArrayMatchIndex ==> LCP[x] >= patternLength
      ensures lo == 0 || LCP[lo] < patternLength
      ensures forall x :: suffixArrayMatchIndex < x < hi ==> LCP[x] >= patternLength
      ensures hi == |S| || LCP[hi] < patternLength
    {
      var sa, lcp, n := SA, LCP, |S|;
      var idx := suffixArrayMatchIndex;
      matches := [sa[idx]];
      var suffixArrayIndex := idx;
      while true
        invariant 0 <= suffixArrayIndex <= idx
        invariant matches == [sa[idx]] + Downward(sa, suffixArrayIndex, idx)
        invariant forall x :: suffixArrayIndex < x <= idx ==> lcp[x] >= patternLength
        decreases suffixArrayIndex
      {
        if suffixArrayIndex == 0 {
          break;
        }
        if lcp[suffixArrayIndex] >= patternLength {
          matches := matches + [sa[suffixArrayIndex - 1]];
        } else {
          break;
        }
        suffixArrayIndex := suffixArrayIndex - 1;
      }
      lo := suffixArrayIndex;
      var up := idx + 1;
      while up < n
        invariant idx < up <= n
        invariant matches == [sa[idx]] + Downward(sa, lo, idx) + sa[idx + 1..up]
        invariant forall x :: idx < x < up ==> lcp[x] >= patternLength
      {
        if lcp[up] >= patternLength {
          assert sa[idx + 1..up + 1] == sa[idx + 1..up] + [sa[up]];
          matches := matches + [sa[up]];
        } else {
          break;
        }
        up := up + 1;
      }
      hi := up;
    }

    /** All occurrences of a pattern that the suffix at rank `idx` starts with, collected around that rank. */
    method ReportMatches(pattern: seq<int>, idx: int) returns (result: seq<int>)
      requires IsSuffixArray(S, SA) && IsLcpTable(S, SA, LCP)
      requires 0 <= idx < |S| && |pattern| > 0 && Prefixed(S, SA, pattern, idx)
      ensures NoRepeats(result)
      ensures forall q :: q in result <==> MatchAt(S, pattern, q)
    {
      ghost var lo, hi;
      result, lo, hi := FindAllOccurances(idx, |pattern|);
      FoundAll(S, SA, LCP, pattern, lo, idx, hi, result);
    }

    /**
     * The comparison at rank `mid` when the LCP entries decide nothing:
     * counting resumes after the longer of the two known prefixes and
     * yields the pattern's common prefix with the suffix at `mid`, which
     * stops before the sentinel.
     */
    method MatchesAtMid(pattern: seq<int>, low: int, mid: int, high: int, lowMatches: int, highMatches: int,
                        lcpLow: int, lcpHigh: int) returns (maxMatches: int)
      requires |S| > 0 && |pattern| > 0 && AboveSentinel(S, pattern) && IsSuffixArray(S, SA)
      requires Bracket(S, SA, pattern, low, high, lowMatches, highMatches) && low < mid < high
      requires lcpLow == if low < 0 then 0 else Lcp(SufAt(S, SA, low), SufAt(S, SA, mid))
      requires lcpHigh == Lcp(SufAt(S, SA, mid), SufAt(S, SA, high))
      requires !(lowMatches <= lcpHigh < highMatches) && !(lowMatches <= highMatches < lcpHigh)
      requires !(highMatches <= lcpLow < lowMatches) && !(highMatches <= lowMatches < lcpLow)
      ensures maxMatches == Lcp(pattern, SufAt(S, SA, mid)) && SA[mid] + maxMatches < |S|
    {
      StepCompareFrom(S, SA, pattern, low, mid, high, lowMatches, highMatches, lcpLow, lcpHigh);
      PatternStops(S, pattern, SA[mid]);
      assert pattern[..|pattern|] == pattern;
      maxMatches := Max(lowMatches, highMatches);
      maxMatches := CountMatches(pattern, maxMatches, |pattern|, SA[mid]);
    }

    /**
     * The binary search over the suffix array for a non-empty pattern above
     * the sentinel: it returns the positions where the pattern occurs, each
     * once, or nothing when it occurs nowhere.
     */
    method SearchPrivate(pattern: seq<int>) returns (result: seq<int>)
      requires |S| > 0 && |pattern| > 0 && AboveSentinel(S, pattern)
      requires IsSuffixArray(S, SA) && IsLcpTable(S, SA, LCP)
      ensures NoRepeats(result)
      ensures forall q :: q in result <==> MatchAt(S, pattern, q)
    {
      var s, sa := S, SA;
      var n, m := |s|, |pattern|;
      assert pattern[..m] == pattern;
      var low, high := 0, n - 1;
      var lowMatches := CountMatches(pattern, 0, m, sa[low]);
      var highMatches := CountMatches(pattern, 0, m, sa[high]);
      if highMatches == m {
        result := ReportMatches(pattern, high);
        return;
      }
      if lowMatches == m {
        result := ReportMatches(pattern, low);
        return;
      }
      SearchStart(s, sa, pattern, lowMatches, highMatches);
      result := Narrow(pattern, low, high, lowMatches, highMatches);
    }

    /**
     * The binary search of `searchPrivate` from a bracket of two slots whose
     * suffixes the pattern does not prefix: halve the bracket, keeping the
     * pattern's place between its ends, until a slot it prefixes turns up or
     * the bracket closes.
     */
    method Narrow(pattern: seq<int>, low0: int, high0: int, lowMatches0: int, highMatches0: int) returns (result: seq<int>)
      requires |S| > 0 && |pattern| > 0 && AboveSentinel(S, pattern)
      requires IsSuffixArray(S, SA) && IsLcpTable(S, SA, LCP)
      requires Bracket(S, SA, pattern, low0, high0, lowMatches0, highMatches0) && Window(S, 0, low0, high0)
      ensures NoRepeats(result)
      ensures forall q :: q in result <==> MatchAt(S, pattern, q)
    {
      var s, sa := S, SA;
      var m := |pattern|;
      var low, high, lowMatches, highMatches := low0, high0, lowMatches0, highMatches0;
      while low + 1 < high
        invariant Bracket(s, sa, pattern, low, high, lowMatches, highMatches)
        invariant Window(s, 0, low, high)
        decreases high - low
      {
        var mid := (low + high) / 2;
        Halves(s, 0, low, high);
        var lcpHigh := GetLCP(mid, high);
        var lcpLow := GetLCP(low, mid);
        if lowMatches <= lcpHigh && lcpHigh < highMatches {
          StepUp(s, sa, pattern, low, mid, high, lowMatches, highMatches, lcpHigh);
          low := mid;
          lowMatches := lcpHigh;
        } else if lowMatches <= highMatches && highMatches < lcpHigh {
          StepDownKeep(s, sa, pattern, low, mid, high, lowMatches, highMatches, lcpHigh);
          high := mid;
        } else if highMatches <= lcpLow && lcpLow < lowMatches {
          StepDown(s, sa, pattern, low, mid, high, lowMatches, highMatches, lcpLow);
          high := mid;
          highMatches := lcpLow;
        } else if highMatches <= lowMatches && lowMatches < lcpLow {
          StepUpKeep(s, sa, pattern, low, mid, high, lowMatches, highMatches, lcpLow);
          low := mid;
        } else {
          var maxMatches := MatchesAtMid(pattern, low, mid, high, lowMatches, highMatches, lcpLow, lcpHigh);
          if maxMatches == m {
            result := ReportMatches(pattern, mid);
            return;
          } else if s[sa[mid] + maxMatches] < pattern[maxMatches] {
            StepCompareLess(s, sa, pattern, low, mid, high, lowMatches, highMatches, maxMatches);
            low := mid;
            lowMatches := maxMatches;
          } else {
            StepCompareMore(s, sa, pattern, low, mid, high, lowMatches, highMatches, maxMatches);
            high := mid;
            highMatches := maxMatches;
          }
        }
      }
      NoMatchAnywhere(s, sa, pattern);
      result := [];
    }

    /**
     * The positions where `pattern` occurs in the text, each once; an empty
     * pattern finds nothing.
     */
    method Search(pattern: string) returns (result: seq<int>)
      requires NoNul(pattern) && |S| > 0 && S[|S| - 1] == 0
      requires IsSuffixArray(S, SA) && IsLcpTable(S, SA, LCP)
      ensures NoRepeats(result)
      ensures |pattern| == 0 ==> result == []
      ensures |pattern| > 0 ==> forall q :: q in result <==> MatchAt(S, Codes(pattern), q)
    {
      if |pattern| == 0 {
        return [];
      }
      var patternInt := Codes(pattern);
      result := SearchPrivate(patternInt);
    }
  }

  /** The suffixes of "abcd" after the sentinel's, in text order, each smaller than the next. */
  lemma AbcdSuffixOrder(s: seq<int>)
    requires s == [97, 98, 99, 100, 0]
    ensures Less(s[4..], s[0..]) && Less(s[0..], s[1..]) && Less(s[1..], s[2..]) && Less(s[2..], s[3..])
  {
    assert s[4..] == [0] && s[0..] == s && s[1..] == [98, 99, 100, 0] && s[2..] == [99, 100, 0] && s[3..] == [100, 0];
  }

  /** 4, 0, 1, 2, 3 lists every position of "abcd" with its sentinel once, in suffix order. */
  lemma AbcdSorted(s: seq<int>)
    requires s == [97, 98, 99, 100, 0]
    ensures IsSuffixArray(s, [4, 0, 1, 2, 3])
  {
    var sa := [4, 0, 1, 2, 3];
    forall p | 0 <= p < |sa| ensures p in sa {
      assert sa[[1, 2, 3, 4, 0][p]] == p;
    }
    AbcdSuffixOrder(s);
    forall r | 0 < r < |sa| ensures Less(s[sa[r - 1]..], s[sa[r]..]) {
      assert r == 1 || r == 2 || r == 3 || r == 4;
    }
  }

  /** The suffix array of "abcd" is 4, 0, 1, 2, 3: the sentinel, then the suffixes in text order. */
  lemma AbcdSuffixArray(sa: seq<int>)
    requires IsSuffixArray(Codes("abcd") + [0], sa)
    ensures sa == [4, 0, 1, 2, 3]
  {
    var s := Codes("abcd") + [0];
    assert s == [97, 98, 99, 100, 0];
    AbcdSorted(s);
    SuffixArrayUnique(s, sa, [4, 0, 1, 2, 3]);
  }

  /** "aa" occurs in "aaaa" at positions 0, 1 and 2: what a search that finds every occurrence reports. */
  lemma AaInAaaa(result: seq<int>)
    requires forall q :: q in result <==> MatchAt(Codes("aaaa") + [0], Codes("aa"), q)
    ensures forall q :: q in result <==> 0 <= q <= 2
  {
    var s, p := Codes("aaaa") + [0], Codes("aa");
    assert s == [97, 97, 97, 97, 0] && p == [97, 97];
    forall q ensures MatchAt(s, p, q) <==> 0 <= q <= 2 {
      if 0 <= q && q + 2 <= |s| {
        assert s[q..q + 2] == [s[q], s[q + 1]];
        assert q == 0 || q == 1 || q == 2 || q == 3;
      }
    }
  }
}
