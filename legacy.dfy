/**
 * The older suffix array class of the root `suffixArray.cpp`.  It keeps
 * every intermediate array in a field, codes each character as its
 * distance from 'A' with INT_MIN as the sentinel, marks an empty slot of
 * the suffix array with -1, and starts both the LCP fill and the search
 * from the virtual rank -1.
 */
module Legacy {
  import opened Lex
  import opened SaisSpec
  import opened Induce
  import opened InduceS
  import opened InducedSort
  import opened Reduce
  import opened Keys
  import opened InducedOrder
  import opened ReducedOrder
  import opened NameOrder
  import opened LcpTable
  import opened SearchSpec
  import opened LegacySort
  import opened LegacyLcp
  import Current = SuffixArrays

  /** The sentinel: the smallest 32-bit integer. */
  const IntMin: int := -0x8000_0000

  /** The code of each character of `str`: its distance from 'A'. */
  function LegacyCodes(str: string): seq<int> {
    seq(|str|, i requires 0 <= i < |str| => str[i] as int - 'A' as int)
  }

  /** Every code is above the sentinel, so any string with the sentinel appended is a well-formed text. */
  lemma LegacyCodesWellFormed(str: string)
    ensures WellFormed(LegacyCodes(str) + [IntMin])
    ensures forall i :: 0 <= i < |str| ==> (LegacyCodes(str) + [IntMin])[i] > IntMin
  {
  }

  /**
   * Over the coded text with its sentinel, a non-empty pattern occurs
   * exactly where it occurs in the string.
   */
  lemma LegacyCodedMatchAt(text: string, pattern: string, q: int)
    requires |pattern| > 0
    ensures MatchAt(LegacyCodes(text) + [IntMin], LegacyCodes(pattern), q) <==> MatchAt(text, pattern, q)
  {
    var c, m := LegacyCodes(text) + [IntMin], |pattern|;
    if MatchAt(text, pattern, q) {
      forall k | 0 <= k < m
        ensures c[q..q + m][k] == LegacyCodes(pattern)[k]
      {
        assert text[q..q + m][k] == pattern[k];
      }
    }
    if MatchAt(c, LegacyCodes(pattern), q) {
      assert c[q..q + m][m - 1] == LegacyCodes(pattern)[m - 1];
      forall k | 0 <= k < m
        ensures text[q..q + m][k] == pattern[k]
      {
        assert c[q..q + m][k] == LegacyCodes(pattern)[k];
      }
    }
  }

  /** The counts `cc` with one more occurrence of each code of `s`, added in order. */
  function BumpAll(cc: CharCounts, s: seq<int>): CharCounts
    decreases |s|
  {
    if |s| == 0 then cc else Bump(BumpAll(cc, s[..|s| - 1]), s[|s| - 1])
  }

  /** Adding the codes of `s` to the counts of `x` gives the counts of `x + s`. */
  lemma {:induction false} BumpAllCounts(cc: CharCounts, x: seq<int>, s: seq<int>)
    requires CountsOf(cc, x)
    ensures CountsOf(BumpAll(cc, s), x + s)
    decreases |s|
  {
    if |s| == 0 {
      assert x + s == x;
    } else {
      var init := s[..|s| - 1];
      BumpAllCounts(cc, x, init);
      CountsOfStep(BumpAll(cc, init), x + init, s[|s| - 1]);
      assert x + init + [s[|s| - 1]] == x + s;
    }
  }

  /** `bs` holds, for each code of `cc` in order, the sum of the counts of the codes before it. */
  ghost predicate PrefixSums(bs: seq<int>, cc: CharCounts) {
    |bs| == |cc| && forall k {:trigger bs[k]} :: 0 <= k < |bs| ==> bs[k] == Current.CountsBefore(cc, k)
  }

  /** Buckets at the prefix sums of the counts of `s`, with each code numbered by its place among the counts, are the bucket layout of `s`. */
  lemma NumberedLayout(s: seq<int>, cc: CharCounts, buckets: seq<int>, c2b: map<int, int>)
    requires CountsOf(cc, s) && PrefixSums(buckets, cc)
    requires forall k :: 0 <= k < |cc| ==> cc[k].0 in c2b && c2b[cc[k].0] == k
    requires forall c :: c in c2b ==> HasKey(cc, c)
    ensures BucketLayout(s, cc, buckets, c2b)
  {
    forall c | c in c2b
      ensures 0 <= c2b[c] < |cc| && cc[c2b[c]].0 == c
    {
      var j :| 0 <= j < |cc| && cc[j].0 == c;
    }
    forall c | HasKey(cc, c)
      ensures c in c2b
    {
      var j :| 0 <= j < |cc| && cc[j].0 == c;
    }
    Current.PrefixSumLayout(s, cc, buckets, c2b);
  }

  /** The index of each sample position in the sample list. */
  method ReverseMap(spa: seq<int>) returns (spaReverseMap: map<int, int>)
    ensures RevMap(spaReverseMap, spa)
  {
    spaReverseMap := map[];
    for i := 0 to |spa|
      invariant forall k :: 0 <= k < i ==> spa[k] in spaReverseMap
      invariant forall p :: p in spaReverseMap ==> 0 <= spaReverseMap[p] < i && spa[spaReverseMap[p]] == p
    {
      spaReverseMap := spaReverseMap[spa[i] := i];
    }
  }

  /** The first sample of the search: the virtual rank -1 and the last rank bracket every match. */
  lemma LegacySearchStart(s: seq<int>, sa: seq<int>, p: seq<int>, highMatches: int)
    requires |s| > 0 && |sa| == |s| && (forall r :: 0 <= r < |sa| ==> 0 <= sa[r] < |s|) && |p| > 0
    requires highMatches == Lcp(p, SufAt(s, sa, |s| - 1)) < |p|
    ensures Bracket(s, sa, p, -1, |s| - 1, 0, highMatches)
    ensures Window(s, -1, -1, |s| - 1)
  {
    forall r | 0 <= r < |s| && Prefixed(s, sa, p, r)
      ensures r < |s| - 1
    {
    }
    if |s| > 1 {
      assert Visits(-1, |s| - 1, -1, |s| - 1);
    }
  }

  /** The codes of "mmiissiissiippii" with its sentinel. */
  lemma MississippiCodes() returns (s: seq<int>)
    ensures s == LegacyCodes("mmiissiissiippii") + [IntMin]
    ensures s == [44, 44, 40, 40, 50, 50, 40, 40, 50, 50, 40, 40, 47, 47, 40, 40, IntMin]
  {
    s := LegacyCodes("mmiissiissiippii") + [IntMin];
  }

  /**
   * The types of "mmiissiissiippii" with its sentinel: S-type exactly
   * where the rendered type string `LLSSLLSSLLSSLLLLS` shows 'S'.
   */
  lemma MississippiTypes(t: seq<bool>)
    requires IsTypeArray(LegacyCodes("mmiissiissiippii") + [IntMin], t)
    ensures t == [false, false, true, true, false, false, true, true, false, false, true, true, false, false, false, false, true]
  {
    var s := MississippiCodes();
    assert SType(s, 16) && !SType(s, 15) && !SType(s, 14) && !SType(s, 13) && !SType(s, 12);
    assert SType(s, 11) && SType(s, 10) && !SType(s, 9) && !SType(s, 8);
    assert SType(s, 7) && SType(s, 6) && !SType(s, 5) && !SType(s, 4);
    assert SType(s, 3) && SType(s, 2) && !SType(s, 1) && !SType(s, 0);
  }

  /**
   * The types of "swiss_miss" with its sentinel render to `SLSLLSLSLLS`,
   * and its sample positions are 0, 2, 5, 7 and 10: position 0 counts
   * because it is S-type.
   */
  lemma SwissMissSamples(t: seq<bool>)
    requires IsTypeArray(LegacyCodes("swiss_miss") + [IntMin], t)
    ensures t == [true, false, true, false, false, true, false, true, false, false, true]
    ensures IsLmsList(t, [0, 2, 5, 7, 10])
  {
    var s := LegacyCodes("swiss_miss") + [IntMin];
    assert s == [50, 54, 40, 50, 50, 30, 44, 40, 50, 50, IntMin];
    assert SType(s, 10) && !SType(s, 9) && !SType(s, 8) && SType(s, 7) && !SType(s, 6);
    assert SType(s, 5) && !SType(s, 4) && !SType(s, 3) && SType(s, 2) && !SType(s, 1) && SType(s, 0);
    assert t == [true, false, true, false, false, true, false, true, false, false, true];
    forall p: int
      ensures p in [0, 2, 5, 7, 10] <==> IsLms(t, p)
    {
    }
  }

  class SuffixArray {
    /** The type of each suffix: true for S-type. */
    var typeTArray: seq<bool>
    /** The sample (leftmost-S) positions in text order. */
    var samplePointerArray: seq<int>
    /** The suffix array; -1 marks an empty slot while it is built. */
    var SA: seq<int>
    /** The text as codes, ending with the sentinel INT_MIN. */
    var S: seq<int>
    /** The reduced string: the name of each sample substring. */
    var S1: seq<int>
    /** `LCP[r]` for `1 <= r < |S|` compares ranks `r-1` and `r`; the upper half memoises interval minima. */
    var LCP: seq<int>
    /** The first slot of each bucket, in order of code. */
    var buckets: seq<int>
    /** The number of occurrences of each code, in order of code. */
    var charCounts: CharCounts
    /** The bucket number of each code. */
    var charToBucket: map<int, int>
    /** The number of buckets. */
    var bucketsLen: int

    /** Appends the codes of `str` and the sentinel to the text. */
    method ConstructS(str: string)
      modifies this`S
      ensures S == old(S) + LegacyCodes(str) + [IntMin]
    {
      S := S + LegacyCodes(str) + [IntMin];
    }

    /** Counts each code of the text into the counts already held; from no counts, these are the counts of the text. */
    method CalcCharCounts()
      modifies this`charCounts
      ensures charCounts == BumpAll(old(charCounts), S)
      ensures old(charCounts) == [] ==> CountsOf(charCounts, S)
    {
      var s := S;
      for i := 0 to |s|
        invariant charCounts == BumpAll(old(charCounts), s[..i])
      {
        assert s[..i + 1][..i] == s[..i];
        charCounts := Bump(charCounts, s[i]);
      }
      assert s[..|s|] == s;
      if old(charCounts) == [] {
        BumpAllCounts([], [], s);
        assert [] + s == s;
      }
    }

    /**
     * Appends the start of each bucket, the running sum of the counts, and
     * numbers the codes in order.  From empty buckets and the counts of the
     * text, these are the bucket layout of the text.
     */
    method InitBuckets()
      modifies this`buckets, this`charToBucket, this`bucketsLen
      requires KeysIncreasing(charCounts)
      ensures bucketsLen == |charCounts|
      ensures |buckets| >= |old(buckets)| && buckets[..|old(buckets)|] == old(buckets)
      ensures PrefixSums(buckets[|old(buckets)|..], charCounts)
      ensures forall k :: 0 <= k < |charCounts| ==> charCounts[k].0 in charToBucket && charToBucket[charCounts[k].0] == k
      ensures forall c :: c in charToBucket ==> c in old(charToBucket) || HasKey(charCounts, c)
      ensures old(buckets) == [] && old(charToBucket) == map[] && CountsOf(charCounts, S) ==>
                BucketLayout(S, charCounts, buckets, charToBucket)
    {
      var cc := charCounts;
      ghost var b0, m0 := buckets, charToBucket;
      ghost var added: seq<int> := [];
      var curIndex := 0;
      bucketsLen := 0;
      for k := 0 to |cc|
        invariant bucketsLen == k && curIndex == Current.CountsBefore(cc, k)
        invariant buckets == b0 + added && |added| == k
        invariant forall j {:trigger added[j]} :: 0 <= j < k ==> added[j] == Current.CountsBefore(cc, j)
        invariant forall j :: 0 <= j < k ==> cc[j].0 in charToBucket && charToBucket[cc[j].0] == j
        invariant forall c :: c in charToBucket ==> c in m0 || HasKey(cc, c)
      {
        assert HasKey(cc, cc[k].0);
        buckets := buckets + [curIndex];
        added := added + [curIndex];
        charToBucket := charToBucket[cc[k].0 := bucketsLen];
        bucketsLen := bucketsLen + 1;
        curIndex := curIndex + cc[k].1;
      }
      assert buckets[|b0|..] == added;
      if b0 == [] && m0 == map[] && CountsOf(cc, S) {
        assert buckets == added;
        NumberedLayout(S, cc, buckets, charToBucket);
      }
    }

    /** The type of every suffix, computed right to left from the last, which is S-type. */
    method ConstructTTypeArray()
      modifies this`typeTArray
      requires |S| > 0
      ensures IsTypeArray(S, typeTArray)
    {
      var s := S;
      var n := |s|;
      typeTArray := if |typeTArray| >= n then typeTArray[..n] else typeTArray + seq(n - |typeTArray|, _ => false);
      typeTArray := typeTArray[n - 1 := true];
      var i := n - 2;
      while i >= 0
        invariant -1 <= i <= n - 2 && |typeTArray| == n
        invariant forall k :: i < k < n ==> typeTArray[k] == SType(s, k)
      {
        typeTArray := typeTArray[i := s[i] < s[i + 1] || (s[i] == s[i + 1] && typeTArray[i + 1])];
        i := i - 1;
      }
    }

    /** Appends the sample positions, in text order, to those already held. */
    method ConstructSamplePointerArray()
      modifies this`samplePointerArray
      requires |typeTArray| == |S| && |S| > 0
      ensures |samplePointerArray| >= |old(samplePointerArray)|
      ensures samplePointerArray[..|old(samplePointerArray)|] == old(samplePointerArray)
      ensures IsLmsList(typeTArray, samplePointerArray[|old(samplePointerArray)|..])
    {
      var t := typeTArray;
      ghost var p0 := samplePointerArray;
      ghost var added: seq<int> := [];
      if t[0] {
        samplePointerArray := samplePointerArray + [0];
        added := [0];
      }
      for i := 1 to |t|
        invariant samplePointerArray == p0 + added
        invariant StrictlyIncreasing(added)
        invariant forall a :: 0 <= a < |added| ==> added[a] < i
        invariant forall p: int :: p in added <==> IsLms(t, p) && p < i
      {
        if t[i] && !t[i - 1] {
          samplePointerArray := samplePointerArray + [i];
          added := added + [i];
        }
      }
      assert samplePointerArray[|p0|..] == added;
    }

    /** The type array as letters: 'S' exactly at the S-type suffixes, 'L' at the others. */
    method GetTypeArrayString() returns (t: string)
      ensures |t| == |typeTArray|
      ensures forall i :: 0 <= i < |t| ==> t[i] == if typeTArray[i] then 'S' else 'L'
      ensures IsTypeArray(S, typeTArray) ==> forall i :: 0 <= i < |t| ==> (t[i] == 'S' <==> SType(S, i))
    {
      var types := typeTArray;
      var tLen := |types|;
      t := seq(tLen, _ => ' ');
      for i := 0 to tLen
        invariant |t| == tLen
        invariant forall k :: 0 <= k < i ==> t[k] == if types[k] then 'S' else 'L'
      {
        t := t[i := if types[i] then 'S' else 'L'];
      }
    }

    /** The last slot of each bucket, as `inducedSort` builds and restores it. */
    method InitTails() returns (tails: seq<int>)
      requires bucketsLen == |buckets| && bucketsLen > 0
      ensures IsInitTails(buckets, |S|, tails)
    {
      var bk := buckets;
      tails := seq(bucketsLen, _ => 0);
      for i := 1 to bucketsLen
        invariant |tails| == |bk|
        invariant forall k :: 0 <= k < i - 1 ==> tails[k] == bk[k + 1] - 1
      {
        tails := tails[i - 1 := bk[i] - 1];
      }
      tails := tails[bucketsLen - 1 := |S| - 1];
    }

    /** Empties every slot and puts each code that occurs once at the head of its bucket. */
    method ClearAndPreload()
      modifies this`SA
      requires Setting(S, charCounts, buckets, charToBucket)
      ensures SA == PreRun(S, |S|)
    {
      var s, cc, bk, c2b := S, charCounts, buckets, charToBucket;
      SA := Blanks(|s|);
      PreSteps(s, cc, bk, c2b);
      for i := 0 to |s|
        invariant SA == PreRun(s, i)
      {
        assert PreStep(s, cc, bk, c2b, i);
        if CountOf(cc, s[i]) == 1 {
          SA := SA[bk[c2b[s[i]]] := i];
        }
      }
    }

    /** Puts the sample positions at the tails of their buckets, in text order. */
    method SeedSample(arrToLoad: seq<int>, tails0: seq<int>)
      modifies this`SA
      requires forall k :: 0 <= k < |arrToLoad| ==> RawSeedStep(S, charToBucket, tails0, arrToLoad, k)
      requires SA == PreRun(S, |S|)
      ensures SA == Seeded(S, charToBucket, tails0, arrToLoad)
    {
      var s, c2b := S, charToBucket;
      var tails := tails0;
      for i := 0 to |arrToLoad|
        invariant SA == SeedRunSlots(s, c2b, tails0, PreRun(s, |s|), arrToLoad, i)
        invariant tails == SeedRunTails(s, c2b, tails0, arrToLoad, i)
      {
        assert RawSeedStep(s, c2b, tails0, arrToLoad, i);
        var indexToLoad := arrToLoad[i];
        var b := c2b[s[indexToLoad]];
        SA := SA[tails[b] := indexToLoad];
        tails := tails[b := tails[b] - 1];
      }
    }

    /** Puts the sample positions at the tails of their buckets in the order `arrToLoad` ranks them, from its last entry to its first. */
    method SeedReduced(arrToLoad: seq<int>, tails0: seq<int>)
      modifies this`SA
      requires forall r :: 0 <= r < |arrToLoad| ==> 0 <= arrToLoad[r] < |samplePointerArray|
      requires forall k :: 0 <= k < |arrToLoad| ==>
                 RawSeedStep(S, charToBucket, tails0, Current.ReducedSeeds(samplePointerArray, arrToLoad), k)
      requires SA == PreRun(S, |S|)
      ensures SA == Seeded(S, charToBucket, tails0, Current.ReducedSeeds(samplePointerArray, arrToLoad))
    {
      var s, c2b, spa := S, charToBucket, samplePointerArray;
      ghost var seeds := Current.ReducedSeeds(spa, arrToLoad);
      var tails := tails0;
      var i := |arrToLoad| - 1;
      while i >= 0
        invariant -1 <= i < |arrToLoad|
        invariant SA == SeedRunSlots(s, c2b, tails0, PreRun(s, |s|), seeds, |arrToLoad| - 1 - i)
        invariant tails == SeedRunTails(s, c2b, tails0, seeds, |arrToLoad| - 1 - i)
      {
        ghost var k := |arrToLoad| - 1 - i;
        assert RawSeedStep(s, c2b, tails0, seeds, k);
        var indexToLoad := spa[arrToLoad[i]];
        assert indexToLoad == seeds[k];
        var b := c2b[s[indexToLoad]];
        SA := SA[tails[b] := indexToLoad];
        tails := tails[b := tails[b] - 1];
        i := i - 1;
        assert |arrToLoad| - 1 - i == k + 1;
      }
    }

    /**
     * The left-to-right scan: each slot holding a position other than 0
     * whose predecessor is L-type puts that predecessor at the head of its
     * bucket, and the head moves up; empty slots are skipped.
     */
    method InduceLTypes(heads0: seq<int>, ghost G0: seq<int>)
      modifies this`SA
      requires SA == G0 && IsTypeArray(S, typeTArray)
      requires forall i :: 0 <= i < |S| ==> LStepRaw(S, charToBucket, heads0, G0, i)
      ensures SA == LRunSlots(S, charToBucket, heads0, G0, |S|)
    {
      var s, c2b, t := S, charToBucket, typeTArray;
      var heads := heads0;
      for i := 0 to |s|
        invariant SA == LRunSlots(s, c2b, heads0, G0, i)
        invariant heads == LRunHeads(s, c2b, heads0, G0, i)
      {
        assert LStepRaw(s, c2b, heads0, G0, i);
        if SA[i] == -1 {
          continue;
        }
        if SA[i] == 0 {
          continue;
        }
        if !t[SA[i] - 1] {
          var v := SA[i] - 1;
          var b := c2b[s[v]];
          SA := SA[heads[b] := v];
          heads := heads[b := heads[b] + 1];
        }
      }
    }

    /**
     * The right-to-left scan: each slot holding a position other than 0
     * whose predecessor is S-type puts that predecessor at the tail of its
     * bucket, and the tail moves down; empty slots are skipped.
     */
    method InduceSTypes(tails0: seq<int>, ghost G1: seq<int>)
      modifies this`SA
      requires SA == G1 && IsTypeArray(S, typeTArray)
      requires forall i :: 0 <= i < |S| ==> SStepRaw(S, charToBucket, tails0, G1, i)
      ensures SA == SRunSlots(S, charToBucket, tails0, G1, 0)
    {
      var s, c2b, t := S, charToBucket, typeTArray;
      var tails := tails0;
      var i := |s| - 1;
      while i >= 0
        invariant -1 <= i < |s|
        invariant SA == SRunSlots(s, c2b, tails0, G1, i + 1)
        invariant tails == SRunTails(s, c2b, tails0, G1, i + 1)
      {
        assert SStepRaw(s, c2b, tails0, G1, i);
        if SA[i] != -1 && SA[i] != 0 && t[SA[i] - 1] {
          var v := SA[i] - 1;
          var b := c2b[s[v]];
          SA := SA[tails[b] := v];
          tails := tails[b := tails[b] - 1];
        }
        i := i - 1;
      }
    }

    /**
     * The induced sort.  With `LMSInduction` the positions of
     * `arrToLoad`, any listing of the sample positions, are seeded in
     * order; without it `arrToLoad` ranks the samples and they are seeded
     * from its last entry to its first.  Either way every position ends up
     * in exactly one slot, sorted into buckets, with the sentinel first.
     */
    method InducedSort(arrToLoad: seq<int>, LMSInduction: bool)
      modifies this`SA
      requires Setting(S, charCounts, buckets, charToBucket) && bucketsLen == |buckets|
      requires IsTypeArray(S, typeTArray) && IsLmsList(typeTArray, samplePointerArray)
      requires LMSInduction ==> SeedOrder(S, arrToLoad)
      requires !LMSInduction ==> |arrToLoad| == |samplePointerArray| && IsPermutation(arrToLoad)
      ensures IsPermutation(SA) && BucketSorted(S, SA) && SA[0] == |S| - 1
      ensures KeySorted(S, SA, Beyond)
      ensures LMSInduction && SeedsDescending(S, arrToLoad) ==> IsSuffixArray(S, SA)
      ensures SampleList(samplePointerArray, |S|)
      ensures !LMSInduction && SamplesRanked(S, samplePointerArray, arrToLoad) ==> IsSuffixArray(S, SA)
    {
      var s, bk, c2b := S, buckets, charToBucket;
      ghost var cc := charCounts;
      ClearAndPreload();
      Current.SomeBucket(s, cc);
      var tails := InitTails();
      ghost var tails0 := tails;
      ghost var seeds := if LMSInduction then arrToLoad else Current.ReducedSeeds(samplePointerArray, arrToLoad);
      if !LMSInduction {
        Current.ReducedSeedOrder(s, typeTArray, samplePointerArray, arrToLoad);
      }
      SeedStepsRaw(s, cc, bk, c2b, tails, seeds);
      if !LMSInduction {
        SeedReduced(arrToLoad, tails);
      } else {
        SeedSample(arrToLoad, tails);
      }
      tails := InitTails();
      assert tails == tails0;
      var heads := seq(bucketsLen, _ => 0);
      for i := 0 to bucketsLen
        invariant |heads| == |bk|
        invariant forall k :: 0 <= k < i ==> heads[k] == bk[k]
      {
        heads := heads[i := bk[i]];
      }
      assert heads == bk;
      ScanStepsRaw(s, cc, bk, c2b, tails, seeds);
      InduceLTypes(heads, Seeded(s, c2b, tails, seeds));
      InduceSTypes(tails, LScanned(s, c2b, bk, tails, seeds));
      InducedSortResult(s, cc, bk, c2b, tails, seeds);
      FirstPass(s, cc, bk, c2b, tails, seeds);
      SampleListOf(s, typeTArray, samplePointerArray);
      if !LMSInduction && SamplesRanked(s, samplePointerArray, arrToLoad) {
        Current.RankedSeedsDescend(s, samplePointerArray, arrToLoad);
      }
      if SeedsDescending(s, seeds) {
        FinalPass(s, cc, bk, c2b, tails, seeds);
      }
    }

    /** The length of the sample substring of sample `SPAIndex`: through the next sample position, or to the end of the text. */
    function GetLMSSubstrLen(SPAIndex: int): (r: int)
      reads this
      requires SampleList(samplePointerArray, |S|) && 0 <= SPAIndex < |samplePointerArray|
      ensures r >= 1 && samplePointerArray[SPAIndex] + r == LmsEnd(samplePointerArray, |S|, SPAIndex)
      ensures S[samplePointerArray[SPAIndex] .. samplePointerArray[SPAIndex] + r] == LmsSubstring(S, samplePointerArray, SPAIndex)
    {
      if SPAIndex == |samplePointerArray| - 1 then |S| - samplePointerArray[SPAIndex]
      else samplePointerArray[SPAIndex + 1] - samplePointerArray[SPAIndex] + 1
    }

    /**
     * One slot `j` of the naming scan within the bucket starting at slot
     * `bucketStart`: a slot holding no sample changes nothing; a sample
     * gets the last name again when its substring equals that of the
     * sample last named in this bucket, and the next name otherwise.
     * `curBucketIndex` is the last name given, -1 before the first, and
     * the ghost `cur` is the number of names given.
     */
    method NameSlot(spaReverseMap: map<int, int>, bucketStart: int, j: int,
                    names0: seq<int>, cur0: int, prev0: int, prevLen0: int, unique0: bool, found0: bool,
                    ghost named0: set<int>, ghost reused0: bool, ghost next0: int)
      returns (names: seq<int>, curBucketIndex: int, prevFoundLMSCharIndex: int, prevSubstrLen: int,
               allUniqueLetters: bool, foundInBucket: bool, ghost named: set<int>, ghost reused: bool, ghost next: int)
      requires Scanning(S, SA, samplePointerArray, spaReverseMap)
      requires 0 <= bucketStart <= j < |S| && (bucketStart == 0 ==> j == 0)
      requires Naming(S, SA, samplePointerArray, names0, named0, next0, reused0, j)
      requires unique0 == !reused0 && next0 == cur0 + 1
      requires found0 ==> PrevFound(S, SA, samplePointerArray, spaReverseMap, names0, named0, next0, bucketStart, prev0, prevLen0, j)
      requires SortedScan(S, SA, samplePointerArray) && bucketStart == Start(S, S[SA[bucketStart]])
      requires Ranked(S, samplePointerArray, names0, named0)
      requires !found0 ==> Found(SA, samplePointerArray, named0, bucketStart)
      ensures Naming(S, SA, samplePointerArray, names, named, next, reused, j + 1)
      ensures allUniqueLetters == !reused && next == curBucketIndex + 1
      ensures foundInBucket ==> PrevFound(S, SA, samplePointerArray, spaReverseMap, names, named, next, bucketStart,
                                          prevFoundLMSCharIndex, prevSubstrLen, j + 1)
      ensures Ranked(S, samplePointerArray, names, named)
      ensures !foundInBucket ==> Found(SA, samplePointerArray, named, bucketStart)
    {
      names, curBucketIndex, prevFoundLMSCharIndex, prevSubstrLen := names0, cur0, prev0, prevLen0;
      allUniqueLetters, foundInBucket, named, reused, next := unique0, found0, named0, reused0, next0;
      var s, sa, spa := S, SA, samplePointerArray;
      if sa[j] !in spaReverseMap {
        NamingSkip(s, sa, spa, spaReverseMap, names, named, next, reused, j);
        if foundInBucket {
          PrevFoundSkip(s, sa, spa, spaReverseMap, names, named, next,
                        bucketStart, prevFoundLMSCharIndex, prevSubstrLen, j);
        }
        return;
      }
      var it := spaReverseMap[sa[j]];
      var curSubstrLen := GetLMSSubstrLen(it);
      assert spa[it] == sa[j];
      if foundInBucket {
        if curSubstrLen == prevSubstrLen
           && s[sa[prevFoundLMSCharIndex] .. sa[prevFoundLMSCharIndex] + curSubstrLen] == s[sa[j] .. sa[j] + curSubstrLen]
        {
          ghost var kp := spaReverseMap[sa[prevFoundLMSCharIndex]];
          assert prevFoundLMSCharIndex >= 1;
          assert kp != |spa| - 1 by {
            assert sa[prevFoundLMSCharIndex] != sa[0];
          }
          PrevFoundSame(s, sa, spa, spaReverseMap, names, named, next,
                        bucketStart, prevFoundLMSCharIndex, prevSubstrLen, j, it, curSubstrLen);
          RankReuse(s, sa, spa, spaReverseMap, names, named, next, reused, j, it,
                    bucketStart, prevFoundLMSCharIndex, prevSubstrLen);
          NamingReuse(s, sa, spa, spaReverseMap, names, named, next, reused, j, it, kp);
          PrevFoundReuse(s, sa, spa, spaReverseMap, names, named, next,
                         bucketStart, prevFoundLMSCharIndex, prevSubstrLen, j, it);
          allUniqueLetters := false;
          names := names[it := curBucketIndex];
          named := named + {it};
          reused := true;
          assert Naming(s, sa, spa, names, named, next, reused, j + 1);
          return;
        }
      }
      if foundInBucket && LmsSubstring(s, spa, spaReverseMap[sa[prevFoundLMSCharIndex]]) == LmsSubstring(s, spa, it) {
        PrevSubstringEqual(s, sa, spa, spaReverseMap, names, named, next,
                           bucketStart, prevFoundLMSCharIndex, prevSubstrLen, j, it, curSubstrLen);
        assert false;
      }
      RankFresh(s, sa, spa, spaReverseMap, names, named, next, reused, j, it,
                bucketStart, foundInBucket, prevFoundLMSCharIndex, prevSubstrLen);
      NamingNew(s, sa, spa, spaReverseMap, names, named, next, reused, j, it);
      PrevFoundNew(s, sa, spa, spaReverseMap, names, named, next, bucketStart, curSubstrLen, j, it);
      prevFoundLMSCharIndex := j;
      prevSubstrLen := curSubstrLen;
      curBucketIndex := curBucketIndex + 1;
      assert curBucketIndex == next;
      names := names[it := curBucketIndex];
      next := curBucketIndex + 1;
      named := named + {it};
      foundInBucket := true;
      assert Naming(s, sa, spa, names, named, next, reused, j + 1);
    }

    /** Bucket `bucketIdx` of the naming scan: its slots from its head to the slot before the next head, slot by slot. */
    method NameBucket(spaReverseMap: map<int, int>, bucketIdx: int,
                      names0: seq<int>, cur0: int, prev0: int, prevLen0: int, unique0: bool,
                      ghost named0: set<int>, ghost reused0: bool, ghost next0: int)
      returns (names: seq<int>, curBucketIndex: int, prevFoundLMSCharIndex: int, prevSubstrLen: int,
               allUniqueLetters: bool, ghost named: set<int>, ghost reused: bool, ghost next: int)
      requires Scanning(S, SA, samplePointerArray, spaReverseMap)
      requires BucketStarts(buckets, |S|) && bucketsLen == |buckets| && 0 <= bucketIdx < bucketsLen
      requires Naming(S, SA, samplePointerArray, names0, named0, next0, reused0, BucketFirst(buckets, bucketIdx, |S|))
      requires unique0 == !reused0 && next0 == cur0 + 1
      requires SortedScan(S, SA, samplePointerArray) && buckets[bucketIdx] == Start(S, S[SA[buckets[bucketIdx]]])
      requires Ranked(S, samplePointerArray, names0, named0)
      ensures Naming(S, SA, samplePointerArray, names, named, next, reused, BucketFirst(buckets, bucketIdx + 1, |S|))
      ensures allUniqueLetters == !reused && next == curBucketIndex + 1
      ensures Ranked(S, samplePointerArray, names, named)
    {
      var bucketStart := buckets[bucketIdx];
      var bucketEnd := if bucketIdx + 1 == bucketsLen then |S| - 1 else buckets[bucketIdx + 1] - 1;
      assert bucketEnd + 1 == BucketFirst(buckets, bucketIdx + 1, |S|);
      assert bucketIdx == 0 ==> bucketEnd == 0;
      names, curBucketIndex, prevFoundLMSCharIndex, prevSubstrLen, allUniqueLetters, named, reused, next :=
        NameSlots(spaReverseMap, bucketStart, bucketEnd, names0, cur0, prev0, prevLen0, unique0, named0, reused0, next0);
    }

    /** The slots `bucketStart .. bucketEnd` of one bucket of the naming scan, slot by slot. */
    method NameSlots(spaReverseMap: map<int, int>, bucketStart: int, bucketEnd: int,
                     names0: seq<int>, cur0: int, prev0: int, prevLen0: int, unique0: bool,
                     ghost named0: set<int>, ghost reused0: bool, ghost next0: int)
      returns (names: seq<int>, curBucketIndex: int, prevFoundLMSCharIndex: int, prevSubstrLen: int,
               allUniqueLetters: bool, ghost named: set<int>, ghost reused: bool, ghost next: int)
      requires Scanning(S, SA, samplePointerArray, spaReverseMap)
      requires 0 <= bucketStart <= bucketEnd + 1 <= |S| && (bucketStart == 0 ==> bucketEnd == 0)
      requires Naming(S, SA, samplePointerArray, names0, named0, next0, reused0, bucketStart)
      requires unique0 == !reused0 && next0 == cur0 + 1
      requires SortedScan(S, SA, samplePointerArray) && bucketStart < |S| && bucketStart == Start(S, S[SA[bucketStart]])
      requires Ranked(S, samplePointerArray, names0, named0)
      ensures Naming(S, SA, samplePointerArray, names, named, next, reused, bucketEnd + 1)
      ensures allUniqueLetters == !reused && next == curBucketIndex + 1
      ensures Ranked(S, samplePointerArray, names, named)
    {
      names, curBucketIndex, prevFoundLMSCharIndex, prevSubstrLen := names0, cur0, prev0, prevLen0;
      allUniqueLetters, named, reused, next := unique0, named0, reused0, next0;
      var foundInBucket := false;
      for j := bucketStart to bucketEnd + 1
        invariant Naming(S, SA, samplePointerArray, names, named, next, reused, j)
        invariant allUniqueLetters == !reused && next == curBucketIndex + 1
        invariant foundInBucket ==> PrevFound(S, SA, samplePointerArray, spaReverseMap, names, named, next,
                                              bucketStart, prevFoundLMSCharIndex, prevSubstrLen, j)
        invariant Ranked(S, samplePointerArray, names, named)
        invariant !foundInBucket ==> Found(SA, samplePointerArray, named, bucketStart)
      {
        names, curBucketIndex, prevFoundLMSCharIndex, prevSubstrLen, allUniqueLetters, foundInBucket, named, reused, next :=
          NameSlot(spaReverseMap, bucketStart, j, names, curBucketIndex, prevFoundLMSCharIndex, prevSubstrLen,
                   allUniqueLetters, foundInBucket, named, reused, next);
      }
    }

    /**
     * The names of the samples: scanning the sorted sample substrings
     * bucket by bucket, each sample gets a new name unless its substring
     * equals that of the sample named just before it in the same bucket.
     * Equal names mean equal substrings, the sentinel alone is named 0,
     * and the flag says whether all names are distinct.  The names are
     * written over the old reduced string, cut or padded to the number of
     * samples.
     */
    method NameSamples() returns (names: seq<int>, allUniqueLetters: bool)
      requires SampleList(samplePointerArray, |S|) && BucketStarts(buckets, |S|) && bucketsLen == |buckets|
      requires |SA| == |S| && IsPermutation(SA) && SA[0] == |S| - 1
      requires SortedScan(S, SA, samplePointerArray) && BucketHeads(S, SA, buckets)
      ensures |names| == |samplePointerArray|
      ensures forall k :: 0 <= k < |names| ==> 0 <= names[k] < |names|
      ensures forall k, k' :: 0 <= k < |names| && 0 <= k' < |names| && names[k] == names[k'] ==>
        LmsSubstring(S, samplePointerArray, k) == LmsSubstring(S, samplePointerArray, k')
      ensures allUniqueLetters <==> AllDistinct(names)
      ensures WellFormed(names)
      ensures NamesOrderSuffixes(S, samplePointerArray, names)
    {
      var sampleSize := |samplePointerArray|;
      var names0 := if |S1| >= sampleSize then S1[..sampleSize] else S1 + seq(sampleSize - |S1|, _ => 0);
      var spaReverseMap := ReverseMap(samplePointerArray);
      ghost var named, reused, next;
      names, allUniqueLetters, named, reused, next := NameBuckets(spaReverseMap, names0);
      NamingDone(S, SA, samplePointerArray, spaReverseMap, names, named, next, reused);
      RankedSuffixes(S, SA, samplePointerArray, names, named);
    }

    /** The scan over all buckets, from the first name on, keeping the naming invariant to the end of `SA`. */
    method NameBuckets(spaReverseMap: map<int, int>, names0: seq<int>)
      returns (names: seq<int>, allUniqueLetters: bool, ghost named: set<int>, ghost reused: bool, ghost next: int)
      requires Scanning(S, SA, samplePointerArray, spaReverseMap)
      requires BucketStarts(buckets, |S|) && bucketsLen == |buckets| && |names0| == |samplePointerArray|
      requires SortedScan(S, SA, samplePointerArray) && BucketHeads(S, SA, buckets)
      ensures Naming(S, SA, samplePointerArray, names, named, next, reused, |S|)
      ensures allUniqueLetters == !reused
      ensures Ranked(S, samplePointerArray, names, named)
    {
      names := names0;
      allUniqueLetters := true;
      var curBucketIndex, prevFoundLMSCharIndex, prevSubstrLen := -1, -1, 0;
      named, reused, next := {}, false, 0;
      NamingStart(S, SA, samplePointerArray, names);
      for bucketIdx := 0 to bucketsLen
        invariant Naming(S, SA, samplePointerArray, names, named, next, reused, BucketFirst(buckets, bucketIdx, |S|))
        invariant allUniqueLetters == !reused && next == curBucketIndex + 1
        invariant Ranked(S, samplePointerArray, names, named)
      {
        names, curBucketIndex, prevFoundLMSCharIndex, prevSubstrLen, allUniqueLetters, named, reused, next :=
          NameBucket(spaReverseMap, bucketIdx, names, curBucketIndex, prevFoundLMSCharIndex,
                     prevSubstrLen, allUniqueLetters, named, reused, next);
      }
    }

    /** The reduced string: the names of the samples, stored in `S1`, and whether they are all distinct. */
    method ConstructS1AndCheckAllUniqueLetters() returns (allUniqueLetters: bool)
      modifies this`S1
      requires SampleList(samplePointerArray, |S|) && BucketStarts(buckets, |S|) && bucketsLen == |buckets|
      requires |SA| == |S| && IsPermutation(SA) && SA[0] == |S| - 1
      requires SortedScan(S, SA, samplePointerArray) && BucketHeads(S, SA, buckets)
      ensures |S1| == |samplePointerArray|
      ensures forall k :: 0 <= k < |S1| ==> 0 <= S1[k] < |S1|
      ensures forall k, k' :: 0 <= k < |S1| && 0 <= k' < |S1| && S1[k] == S1[k'] ==>
        LmsSubstring(S, samplePointerArray, k) == LmsSubstring(S, samplePointerArray, k')
      ensures allUniqueLetters <==> AllDistinct(S1)
      ensures WellFormed(S1)
      ensures NamesOrderSuffixes(S, samplePointerArray, S1)
    {
      S1, allUniqueLetters := NameSamples();
    }

    /**
     * The preparation of a round: count the codes, lay out their buckets,
     * classify every position and list the sample positions.
     */
    method Prepare()
      modifies this`typeTArray, this`samplePointerArray
      modifies this`buckets, this`charCounts, this`charToBucket, this`bucketsLen
      requires WellFormed(S) && charCounts == [] && buckets == [] && charToBucket == map[] && samplePointerArray == []
      ensures Setting(S, charCounts, buckets, charToBucket) && bucketsLen == |buckets|
      ensures IsTypeArray(S, typeTArray) && IsLmsList(typeTArray, samplePointerArray)
    {
      CalcCharCounts();
      InitBuckets();
      assert buckets[0..] == buckets;
      ghost var cc, bk, c2b := charCounts, buckets, charToBucket;
      assert Setting(S, cc, bk, c2b) && bucketsLen == |bk|;
      ConstructTTypeArray();
      ghost var t := typeTArray;
      assert IsTypeArray(S, t);
      ConstructSamplePointerArray();
      assert samplePointerArray[0..] == samplePointerArray;
    }

    /**
     * The first round of the construction shared by both constructors:
     * prepare, sort the sample substrings and name them.  The buckets,
     * types and samples stay in place for the second round, and `S1` holds
     * the reduced string.
     */
    method SortSample() returns (allUnique: bool)
      modifies this`typeTArray, this`samplePointerArray, this`SA, this`S1
      modifies this`buckets, this`charCounts, this`charToBucket, this`bucketsLen
      requires WellFormed(S) && charCounts == [] && buckets == [] && charToBucket == map[] && samplePointerArray == []
      ensures Setting(S, charCounts, buckets, charToBucket) && bucketsLen == |buckets|
      ensures IsTypeArray(S, typeTArray) && IsLmsList(typeTArray, samplePointerArray)
      ensures |S1| == |samplePointerArray| && 2 * |S1| <= |S| + 1
      ensures forall k :: 0 <= k < |S1| ==> 0 <= S1[k] < |S1|
      ensures allUnique <==> AllDistinct(S1)
      ensures Reduction(S, samplePointerArray, S1)
    {
      SortSubstrings();
      allUnique := ConstructS1AndCheckAllUniqueLetters();
    }

    /**
     * The preparation and the induced sort of the first round, after which
     * the suffix array holds every position ordered by its text up to the
     * next sample position, ready for naming.
     */
    method SortSubstrings()
      modifies this`typeTArray, this`samplePointerArray, this`SA
      modifies this`buckets, this`charCounts, this`charToBucket, this`bucketsLen
      requires WellFormed(S) && charCounts == [] && buckets == [] && charToBucket == map[] && samplePointerArray == []
      ensures Setting(S, charCounts, buckets, charToBucket) && bucketsLen == |buckets|
      ensures IsTypeArray(S, typeTArray) && IsLmsList(typeTArray, samplePointerArray)
      ensures SampleList(samplePointerArray, |S|) && BucketStarts(buckets, |S|)
      ensures |SA| == |S| && IsPermutation(SA) && SA[0] == |S| - 1
      ensures SortedScan(S, SA, samplePointerArray) && BucketHeads(S, SA, buckets)
      ensures 2 * |samplePointerArray| <= |S| + 1
    {
      Prepare();
      var spa := samplePointerArray;
      Current.SampleSeedOrder(S, typeTArray, spa);
      InducedSort(spa, true);
      Current.ScanReady(S, SA, typeTArray, spa, charCounts, buckets, charToBucket);
    }

    /**
     * The construction shared by both constructors: the first round, then
     * the reduced string sorted (directly when its names are distinct,
     * otherwise recursively), and the final order induced from it.  A
     * distinct reduced string is sorted by inverting its names.
     */
    method SortSuffixes()
      modifies this`typeTArray, this`samplePointerArray, this`SA, this`S1
      modifies this`buckets, this`charCounts, this`charToBucket, this`bucketsLen
      requires WellFormed(S) && charCounts == [] && buckets == [] && charToBucket == map[] && samplePointerArray == []
      ensures IsSuffixArray(S, SA) && BucketSorted(S, SA) && SA[0] == |S| - 1
      decreases |S|, 1
    {
      var allUnique := SortSample();
      if allUnique {
        var SA1 := InvertNames(S1);
        ReducedRanked(S, samplePointerArray, S1, SA1);
        InducedSort(SA1, false);
      } else {
        var suffixArray := new SuffixArray.FromCodes(S1);
        ReducedRanked(S, samplePointerArray, S1, suffixArray.SA);
        InducedSort(suffixArray.SA, false);
      }
    }

    /** The same construction as the source writes it: a distinct reduced string is passed on as its own suffix array. */
    method SortSuffixesAsWritten()
      modifies this`typeTArray, this`samplePointerArray, this`SA, this`S1
      modifies this`buckets, this`charCounts, this`charToBucket, this`bucketsLen
      requires WellFormed(S) && charCounts == [] && buckets == [] && charToBucket == map[] && samplePointerArray == []
      ensures IsPermutation(SA) && BucketSorted(S, SA) && SA[0] == |S| - 1
      decreases |S|, 1
    {
      var allUnique := SortSample();
      if allUnique {
        NamesArePermutation(S1);
        InducedSort(S1, false);
      } else {
        var suffixArray := new SuffixArray.FromCodes(S1);
        InducedSort(suffixArray.SA, false);
      }
    }

    /**
     * Builds the suffix array of a string: the codes and sentinel, the
     * induced sort, and the LCP table used by search.
     */
    constructor (input_string: string)
      ensures S == LegacyCodes(input_string) + [IntMin]
      ensures IsSuffixArray(S, SA) && BucketSorted(S, SA) && SA[0] == |S| - 1
      ensures |LCP| == 2 * |S| - 1 && LCP[0] == 0
      ensures IsLegacyLcpTable(S, SA, LCP)
    {
      typeTArray, samplePointerArray, SA, S, S1, LCP := [], [], [], [], [], [];
      buckets, charCounts, charToBucket, bucketsLen := [], [], map[], 0;
      new;
      ConstructS(input_string);
      LegacyCodesWellFormed(input_string);
      ghost var codes := S;
      SortSuffixes();
      assert S == codes;
      ConstructLCPArray();
      assert S == codes;
    }

    /** The recursive constructor: sorts the suffixes of an already coded, well-formed text, without an LCP array. */
    constructor FromCodes(S0: seq<int>)
      requires WellFormed(S0)
      ensures S == S0
      ensures IsSuffixArray(S, SA) && BucketSorted(S, SA) && SA[0] == |S| - 1
      decreases |S0|, 2
    {
      typeTArray, samplePointerArray, SA, S, S1, LCP := [], [], [], S0, [], [];
      buckets, charCounts, charToBucket, bucketsLen := [], [], map[], 0;
      new;
      SortSuffixes();
    }

    /**
     * Builds the LCP table of a sorted text: the rank array inverts `SA`,
     * Kasai's scan fills the adjacent entries `1 .. n-1`, entry 0 is zero,
     * and the recursive fill from the virtual rank -1 stores the interval
     * minima in the upper half.  The fill runs only when the text has a
     * character besides the sentinel.
     */
    method ConstructLCPArray()
      modifies this`LCP
      requires WellFormed(S) && |SA| == |S| && IsPermutation(SA)
      ensures |LCP| == 2 * |S| - 1 && LCP[0] == 0
      ensures IsSuffixArray(S, SA) ==> IsLegacyLcpTable(S, SA, LCP)
    {
      var s, sa := S, SA;
      var n := |s|;
      var rank := Current.RankArray(sa);
      var resized := if |LCP| >= 2 * n - 1 then LCP[..2 * n - 1] else LCP + seq(2 * n - 1 - |LCP|, _ => 0);
      var lcp := Current.KasaiScan(s, sa, rank, resized);
      LCP := lcp[0 := 0];
      if n > 1 {
        var whole := LCPRec(-1, n - 1);
      }
      assert S == s && SA == sa;
      LegacyKasaiDone(s, sa, rank, lcp, LCP);
    }

    /**
     * Returns the smallest adjacent entry `LCP[i+1] .. LCP[j]` and stores
     * it at `n + mid` for `(i, j)` and every interval the halving visits
     * inside it.
     */
    method LCPRec(i: int, j: int) returns (res: int)
      modifies this`LCP
      requires -1 <= i && j - i >= 2 && j < |S| && |LCP| == 2 * |S| - 1
      ensures res == RangeMin(old(LCP), i, j)
      ensures Filled(old(LCP), LCP, |S|, i, j)
      decreases j - i
    {
      var n := |S|;
      var mid := (i + j) / 2;
      ghost var L0 := LCP;
      if j - i == 2 {
        res := Min(LCP[i + 1], LCP[j]);
        FilledTwo(L0, n, i, j);
      } else if j - i == 3 {
        var r := LCPRec(i + 1, j);
        res := Min(LCP[i + 1], r);
        FilledThree(L0, LCP, n, i, j, r);
      } else {
        var r1 := LCPRec(i, mid);
        ghost var L1 := LCP;
        var r2 := LCPRec(mid, j);
        res := Min(r1, r2);
        FilledHalves(L0, L1, LCP, n, i, j, r1, r2);
      }
      LCP := LCP[n + mid := res];
    }

    /**
     * The common prefix of the suffixes ranked `index1 < index2`, read off
     * the table: the adjacent entry for neighbours, otherwise the minimum
     * stored at `n + mid` for an interval the fill visits; 0 from the
     * virtual rank -1.
     */
    function GetLCP(index1: int, index2: int): (r: int)
      reads this
      requires -1 <= index1 < index2 < |S| && |LCP| == 2 * |S| - 1
      ensures (IsSuffixArray(S, SA) && IsLegacyLcpTable(S, SA, LCP) && (index1 + 1 == index2 || LegacyVisits(S, index1, index2)))
        ==> r == if index1 < 0 then 0 else Lcp(SufAt(S, SA, index1), SufAt(S, SA, index2))
    {
      if index1 + 1 == index2 then LCP[index2] else LCP[|S| + (index1 + index2) / 2]
    }

    /**
     * Compares `pattern[..patternLength]` with the suffix at `stringIndex`
     * from `startIndex` on, and returns where they first differ or the end
     * of the pattern; started inside their common prefix, that is the
     * common prefix.
     */
    method CountMatches(pattern: seq<int>, startIndex: int, patternLength: int, stringIndex: int) returns (matches: int)
      requires 0 <= startIndex <= patternLength <= |pattern|
      requires 0 <= stringIndex && stringIndex + startIndex < |S| && AboveSentinel(S, pattern)
      ensures startIndex <= matches <= patternLength && stringIndex + matches < |S|
      ensures forall x :: startIndex <= x < matches ==> S[stringIndex + x] == pattern[x]
      ensures matches < patternLength ==> S[stringIndex + matches] != pattern[matches]
      ensures startIndex <= Lcp(pattern[..patternLength], S[stringIndex..]) ==> matches == Lcp(pattern[..patternLength], S[stringIndex..])
    {
      var s := S;
      matches := startIndex;
      while matches < patternLength
        invariant startIndex <= matches <= patternLength && stringIndex + matches < |s|
        invariant forall x :: startIndex <= x < matches ==> s[stringIndex + x] == pattern[x]
      {
        if s[stringIndex + matches] != pattern[matches] {
          break;
        }
        matches := matches + 1;
      }
      if startIndex <= Lcp(pattern[..patternLength], s[stringIndex..]) {
        MatchedIsLcp(pattern[..patternLength], s[stringIndex..], startIndex, matches);
      }
    }

    /**
     * Every position whose suffix starts with a pattern of length
     * `patternLength`, given a rank whose suffix does: that rank's entry,
     * then the entries below it while the adjacent common prefix covers the
     * pattern, then those above it likewise.  Entry 0 of the table, shorter
     * than the pattern, stops the downward scan before it reads below
     * rank 0.
     */
    method FindAllOccurances(suffixArrayMatchIndex: int, patternLength: int) returns (matches: seq<int>, ghost lo: int, ghost hi: int)
      requires 0 <= suffixArrayMatchIndex < |S| && |SA| == |S| && |LCP| >= |S| && LCP[0] < patternLength
      ensures 0 <= lo <= suffixArrayMatchIndex < hi <= |S|
      ensures matches == [SA[suffixArrayMatchIndex]] + Downward(SA, lo, suffixArrayMatchIndex) + SA[suffixArrayMatchIndex + 1..hi]
      ensures forall x :: lo < x <= suffixArrayMatchIndex ==> LCP[x] >= patternLength
      ensures LCP[lo] < patternLength
      ensures forall x :: suffixArrayMatchIndex < x < hi ==> LCP[x] >= patternLength
      ensures hi == |S| || LCP[hi] < patternLength
    {
      var sa, lcp, n := SA, LCP, |S|;
      var idx := suffixArrayMatchIndex;
      matches := [sa[idx]];
      var suffixArrayIndex := idx;
      while suffixArrayIndex >= 0
        invariant 0 <= suffixArrayIndex <= idx
        invariant matches == [sa[idx]] + Downward(sa, suffixArrayIndex, idx)
        invariant forall x :: suffixArrayIndex < x <= idx ==> lcp[x] >= patternLength
        decreases suffixArrayIndex
      {
        if lcp[suffixArrayIndex] >= patternLength {
          matches := matches + [sa[suffixArrayIndex - 1]];
        } else {
          break;
        }
        suffixArrayIndex := suffixArrayIndex - 1;
      }
      lo := suffixArrayIndex;
      var up := idx + 1;
      while up < n
        invariant idx < up <= n
        invariant matches == [sa[idx]] + Downward(sa, lo, idx) + sa[idx + 1..up]
        invariant forall x :: idx < x < up ==> lcp[x] >= patternLength
      {
        if lcp[up] >= patternLength {
          assert sa[idx + 1..up + 1] == sa[idx + 1..up] + [sa[up]];
          matches := matches + [sa[up]];
        } else {
          break;
        }
        up := up + 1;
      }
      hi := up;
    }

    /** All occurrences of a pattern that the suffix at rank `idx` starts with, collected around that rank. */
    method ReportMatches(pattern: seq<int>, idx: int) returns (result: seq<int>)
      requires IsSuffixArray(S, SA) && IsLegacyLcpTable(S, SA, LCP)
      requires 0 <= idx < |S| && |pattern| > 0 && Prefixed(S, SA, pattern, idx)
      ensures NoRepeats(result)
      ensures forall q :: q in result <==> MatchAt(S, pattern, q)
    {
      ghost var lo, hi;
      result, lo, hi := FindAllOccurances(idx, |pattern|);
      FoundAll(S, SA, LCP, pattern, lo, idx, hi, result);
    }

    /**
     * The comparison at rank `mid` when the LCP entries decide nothing:
     * neither end of the interval shares more with the suffix at `mid`
     * than with the pattern, so counting resumes after the longer of the
     * two known prefixes and yields the pattern's common prefix with that
     * suffix, which stops before the sentinel.
     */
    method MatchesAtMid(pattern: seq<int>, low: int, mid: int, high: int, lowMatches: int, highMatches: int,
                        lcpLow: int, lcpHigh: int) returns (maxMatches: int)
      requires |S| > 0 && |pattern| > 0 && AboveSentinel(S, pattern) && IsSuffixArray(S, SA)
      requires Bracket(S, SA, pattern, low, high, lowMatches, highMatches) && low < mid < high
      requires lcpLow == if low < 0 then 0 else Lcp(SufAt(S, SA, low), SufAt(S, SA, mid))
      requires lcpHigh == Lcp(SufAt(S, SA, mid), SufAt(S, SA, high))
      requires !(lowMatches <= lcpHigh < highMatches) && !(lowMatches <= highMatches < lcpHigh)
      requires !(highMatches <= lcpLow < lowMatches) && !(highMatches <= lowMatches < lcpLow)
      ensures maxMatches == Lcp(pattern, SufAt(S, SA, mid)) && SA[mid] + maxMatches < |S|
    {
      StepCompareFrom(S, SA, pattern, low, mid, high, lowMatches, highMatches, lcpLow, lcpHigh);
      PatternStops(S, pattern, SA[mid]);
      assert pattern[..|pattern|] == pattern;
      maxMatches := Max(lowMatches, highMatches);
      maxMatches := CountMatches(pattern, maxMatches, |pattern|, SA[mid]);
    }

    /**
     * The binary search over the suffix array for a non-empty pattern above
     * the sentinel, from the virtual rank -1 to the last rank: it returns
     * the positions where the pattern occurs, each once, or nothing when it
     * occurs nowhere.
     */
    method SearchPrivate(pattern: seq<int>) returns (result: seq<int>)
      requires |S| > 0 && |pattern| > 0 && AboveSentinel(S, pattern)
      requires IsSuffixArray(S, SA) && IsLegacyLcpTable(S, SA, LCP)
      ensures NoRepeats(result)
      ensures forall q :: q in result <==> MatchAt(S, pattern, q)
    {
      var s, sa := S, SA;
      var n, m := |s|, |pattern|;
      assert pattern[..m] == pattern;
      var low, lowMatches := -1, 0;
      var high := n - 1;
      var highMatches := CountMatches(pattern, 0, m, sa[high]);
      if highMatches == m {
        result := ReportMatches(pattern, high);
        return;
      }
      LegacySearchStart(s, sa, pattern, highMatches);
      while low + 1 < high
        invariant Bracket(s, sa, pattern, low, high, lowMatches, highMatches)
        invariant Window(s, -1, low, high)
        decreases high - low
      {
        var mid := (low + high) / 2;
        Halves(s, -1, low, high);
        assert LegacyVisits(s, mid, high) || mid + 1 == high;
        assert LegacyVisits(s, low, mid) || low + 1 == mid;
        var lcpHigh := GetLCP(mid, high);
        var lcpLow := GetLCP(low, mid);
        if lowMatches <= lcpHigh && lcpHigh < highMatches {
          StepUp(s, sa, pattern, low, mid, high, lowMatches, highMatches, lcpHigh);
          low := mid;
          lowMatches := lcpHigh;
        } else if lowMatches <= highMatches && highMatches < lcpHigh {
          StepDownKeep(s, sa, pattern, low, mid, high, lowMatches, highMatches, lcpHigh);
          high := mid;
        } else if highMatches <= lcpLow && lcpLow < lowMatches {
          assert 0 <= low;
          StepDown(s, sa, pattern, low, mid, high, lowMatches, highMatches, lcpLow);
          high := mid;
          highMatches := lcpLow;
        } else if highMatches <= lowMatches && lowMatches < lcpLow {
          assert 0 <= low;
          StepUpKeep(s, sa, pattern, low, mid, high, lowMatches, highMatches, lcpLow);
          low := mid;
        } else {
          var maxMatches := MatchesAtMid(pattern, low, mid, high, lowMatches, highMatches, lcpLow, lcpHigh);
          if maxMatches == m {
            result := ReportMatches(pattern, mid);
            return;
          } else if s[sa[mid] + maxMatches] < pattern[maxMatches] {
            StepCompareLess(s, sa, pattern, low, mid, high, lowMatches, highMatches, maxMatches);
            low := mid;
            lowMatches := maxMatches;
          } else {
            StepCompareMore(s, sa, pattern, low, mid, high, lowMatches, highMatches, maxMatches);
            high := mid;
            highMatches := maxMatches;
          }
        }
      }
      NoMatchAnywhere(s, sa, pattern);
      result := [];
    }

    /**
     * The positions where `pattern` occurs in the text, each once; an empty
     * pattern finds nothing.
     */
    method Search(pattern: string) returns (result: seq<int>)
      requires |S| > 0 && S[|S| - 1] == IntMin
      requires IsSuffixArray(S, SA) && IsLegacyLcpTable(S, SA, LCP)
      ensures NoRepeats(result)
      ensures |pattern| == 0 ==> result == []
      ensures |pattern| > 0 ==> forall q :: q in result <==> MatchAt(S, LegacyCodes(pattern), q)
    {
      if |pattern| == 0 {
        return [];
      }
      var patternInt := seq(|pattern|, _ => 0);
      for i := 0 to |pattern|
        invariant |patternInt| == |pattern|
        invariant forall k :: 0 <= k < i ==> patternInt[k] == LegacyCodes(pattern)[k]
      {
        patternInt := patternInt[i := pattern[i] as int - 'A' as int];
      }
      assert patternInt == LegacyCodes(pattern);
      result := SearchPrivate(patternInt);
    }
  }
}
