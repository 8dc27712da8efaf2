/**
 * A worked example of the seeding order of the last round of the
 * construction.  For the text "babac" (codes 98 97 98 97 99, then the
 * sentinel 0) the sample positions are 1, 3 and 5 and the reduced string
 * is [1, 2, 0].  Its names are distinct, so the construction does not
 * recurse.  Seeding the last round with the reduced string itself, as the
 * program does, induces an array that is not the suffix array; seeding
 * with the inverse of the names induces the suffix array.
 */
module SeedFinding {
  import opened Lex
  import opened SaisSpec
  import opened Induce
  import opened InduceS
  import opened InducedSort
  import opened InducedOrder
  import opened Reduce
  import opened ReducedOrder
  import SuffixArrays

  /** "babac" and its sentinel, as codes. */
  const Babac: seq<int> := [98, 97, 98, 97, 99, 0]

  /** The types of "babac": L S L S L S. */
  lemma BabacTypes(s: seq<int>)
    requires s == Babac
    ensures SType(s, 5) && !SType(s, 4) && SType(s, 3) && !SType(s, 2) && SType(s, 1) && !SType(s, 0)
  {
  }

  /** The codes occurring in "babac". */
  lemma BabacCodes(s: seq<int>, c: int)
    requires s == Babac
    ensures c in s <==> c == 0 || c == 97 || c == 98 || c == 99
  {
    if c in s {
      var i :| 0 <= i < |s| && s[i] == c;
    }
    assert s[5] == 0 && s[1] == 97 && s[0] == 98 && s[4] == 99;
  }

  /** The code counts `getCharCounts` yields for "babac". */
  lemma BabacCounts(s: seq<int>, cc: CharCounts)
    requires s == Babac && cc == [(0, 1), (97, 2), (98, 2), (99, 1)]
    ensures CountsOf(cc, s)
  {
    assert multiset(s)[0] == 1 && multiset(s)[97] == 2 && multiset(s)[98] == 2 && multiset(s)[99] == 1;
    forall c ensures HasKey(cc, c) <==> c in s {
      BabacCodes(s, c);
      if HasKey(cc, c) {
        var k :| 0 <= k < |cc| && cc[k].0 == c;
      }
      if c == 0 { assert cc[0].0 == c; }
      if c == 97 { assert cc[1].0 == c; }
      if c == 98 { assert cc[2].0 == c; }
      if c == 99 { assert cc[3].0 == c; }
    }
  }

  /** The first slot of each bucket of "babac". */
  lemma BabacStarts(s: seq<int>)
    requires s == Babac
    ensures Start(s, 0) == 0 && Start(s, 97) == 1 && Start(s, 98) == 3 && Start(s, 99) == 5
  {
    assert Below(s, 0) == {};
    assert Below(s, 97) == {5};
    assert Below(s, 98) == {1, 3, 5};
    assert Below(s, 99) == {0, 1, 2, 3, 5};
  }

  /** The buckets, bucket map and tails the program builds for "babac" are the inputs of its induced sort. */
  lemma BabacSetting(s: seq<int>, cc: CharCounts, buckets: seq<int>, c2b: map<int, int>, tails: seq<int>)
    requires s == Babac && cc == [(0, 1), (97, 2), (98, 2), (99, 1)] && buckets == [0, 1, 3, 5]
    requires c2b == map[0 := 0, 97 := 1, 98 := 2, 99 := 3] && tails == [0, 2, 4, 5]
    ensures Inputs(s, cc, buckets, c2b, tails)
  {
    BabacCounts(s, cc);
    BabacStarts(s);
    forall c ensures c in c2b <==> c in s {
      BabacCodes(s, c);
    }
    forall c | c in c2b ensures 0 <= c2b[c] < |cc| && cc[c2b[c]].0 == c {
      assert c == 0 || c == 97 || c == 98 || c == 99;
    }
    forall k | 0 <= k < |cc| ensures buckets[k] == Start(s, cc[k].0) {
      assert k == 0 || k == 1 || k == 2 || k == 3;
    }
    assert WellFormed(s);
    assert BucketLayout(s, cc, buckets, c2b);
    assert IsInitTails(buckets, |s|, tails);
  }

  /** The type array and the sample positions of "babac". */
  lemma BabacSamples(s: seq<int>, t: seq<bool>, spa: seq<int>)
    requires s == Babac && t == [false, true, false, true, false, true] && spa == [1, 3, 5]
    ensures IsTypeArray(s, t) && IsLmsList(t, spa)
  {
    BabacTypes(s);
  }

  /** How often each code occurs in "babac". */
  lemma BabacCountValues(s: seq<int>)
    requires s == Babac
    ensures Count(s, 0) == 1 && Count(s, 97) == 2 && Count(s, 98) == 2 && Count(s, 99) == 1
  {
    assert multiset(s)[98] == 2 && multiset(s)[97] == 2 && multiset(s)[99] == 1 && multiset(s)[0] == 1;
  }

  /** Phase 1 skips the first four positions, whose codes occur twice. */
  lemma BabacPreRunEarly(s: seq<int>)
    requires s == Babac
    ensures PreRun(s, 4) == [Blank, Blank, Blank, Blank, Blank, Blank]
  {
    BabacCountValues(s);
    assert PreRun(s, 1) == PreRun(s, 0);
    assert PreRun(s, 2) == PreRun(s, 1);
    assert PreRun(s, 3) == PreRun(s, 2);
    assert PreRun(s, 4) == PreRun(s, 3);
    assert Blanks(6) == [Blank, Blank, Blank, Blank, Blank, Blank];
  }

  /** Phase 1 places the two codes that occur once: the sentinel in slot 0 and "c" in slot 5. */
  lemma BabacPreRun(s: seq<int>)
    requires s == Babac
    ensures PreRun(s, |s|) == [5, Blank, Blank, Blank, Blank, 4]
  {
    BabacPreRunEarly(s);
    BabacCountValues(s);
    BabacStarts(s);
    assert PreRun(s, 5) == [Blank, Blank, Blank, Blank, Blank, 4];
  }

  /** Seeding 1, 5, 3 from the bucket tails. */
  lemma BabacSeededAsWritten(s: seq<int>, c2b: map<int, int>, tails: seq<int>)
    requires s == Babac && c2b == map[0 := 0, 97 := 1, 98 := 2, 99 := 3] && tails == [0, 2, 4, 5]
    ensures Seeded(s, c2b, tails, [1, 5, 3]) == [5, 3, 1, Blank, Blank, 4]
  {
    BabacPreRun(s);
    var seeds := [1, 5, 3];
    assert SeedRunTails(s, c2b, tails, seeds, 1) == [0, 1, 4, 5];
    assert SeedRunTails(s, c2b, tails, seeds, 2) == [-1, 1, 4, 5];
    assert SeedRunSlots(s, c2b, tails, PreRun(s, 6), seeds, 1) == [5, Blank, 1, Blank, Blank, 4];
    assert SeedRunSlots(s, c2b, tails, PreRun(s, 6), seeds, 2) == [5, Blank, 1, Blank, Blank, 4];
  }

  /** Seeding 3, 1, 5 from the bucket tails. */
  lemma BabacSeededCorrected(s: seq<int>, c2b: map<int, int>, tails: seq<int>)
    requires s == Babac && c2b == map[0 := 0, 97 := 1, 98 := 2, 99 := 3] && tails == [0, 2, 4, 5]
    ensures Seeded(s, c2b, tails, [3, 1, 5]) == [5, 1, 3, Blank, Blank, 4]
  {
    BabacPreRun(s);
    var seeds := [3, 1, 5];
    assert SeedRunTails(s, c2b, tails, seeds, 1) == [0, 1, 4, 5];
    assert SeedRunTails(s, c2b, tails, seeds, 2) == [0, 0, 4, 5];
    assert SeedRunSlots(s, c2b, tails, PreRun(s, 6), seeds, 1) == [5, Blank, 3, Blank, Blank, 4];
    assert SeedRunSlots(s, c2b, tails, PreRun(s, 6), seeds, 2) == [5, 1, 3, Blank, Blank, 4];
  }

  /** The L-type scan after seeding 1, 5, 3. */
  lemma BabacLScanAsWritten(s: seq<int>, c2b: map<int, int>, buckets: seq<int>)
    requires s == Babac && c2b == map[0 := 0, 97 := 1, 98 := 2, 99 := 3] && buckets == [0, 1, 3, 5]
    ensures LRunSlots(s, c2b, buckets, [5, 3, 1, Blank, Blank, 4], |s|) == [5, 3, 1, 2, 0, 4]
  {
    BabacTypes(s);
    var G := [5, 3, 1, Blank, Blank, 4];
    assert LRunHeads(s, c2b, buckets, G, 1) == [0, 1, 3, 6];
    assert LRunSlots(s, c2b, buckets, G, 1) == G;
    assert LRunHeads(s, c2b, buckets, G, 2) == [0, 1, 4, 6];
    assert LRunSlots(s, c2b, buckets, G, 2) == [5, 3, 1, 2, Blank, 4];
    assert LRunHeads(s, c2b, buckets, G, 3) == [0, 1, 5, 6];
    assert LRunSlots(s, c2b, buckets, G, 3) == [5, 3, 1, 2, 0, 4];
    assert LRunHeads(s, c2b, buckets, G, 4) == [0, 1, 5, 6];
    assert LRunSlots(s, c2b, buckets, G, 4) == [5, 3, 1, 2, 0, 4];
    assert LRunHeads(s, c2b, buckets, G, 5) == [0, 1, 5, 6];
    assert LRunSlots(s, c2b, buckets, G, 5) == [5, 3, 1, 2, 0, 4];
  }

  /** The L-type scan after seeding 3, 1, 5. */
  lemma BabacLScanCorrected(s: seq<int>, c2b: map<int, int>, buckets: seq<int>)
    requires s == Babac && c2b == map[0 := 0, 97 := 1, 98 := 2, 99 := 3] && buckets == [0, 1, 3, 5]
    ensures LRunSlots(s, c2b, buckets, [5, 1, 3, Blank, Blank, 4], |s|) == [5, 1, 3, 0, 2, 4]
  {
    BabacTypes(s);
    var G := [5, 1, 3, Blank, Blank, 4];
    assert LRunHeads(s, c2b, buckets, G, 1) == [0, 1, 3, 6];
    assert LRunSlots(s, c2b, buckets, G, 1) == G;
    assert LRunHeads(s, c2b, buckets, G, 2) == [0, 1, 4, 6];
    assert LRunSlots(s, c2b, buckets, G, 2) == [5, 1, 3, 0, Blank, 4];
    assert LRunHeads(s, c2b, buckets, G, 3) == [0, 1, 5, 6];
    assert LRunSlots(s, c2b, buckets, G, 3) == [5, 1, 3, 0, 2, 4];
    assert LRunHeads(s, c2b, buckets, G, 4) == [0, 1, 5, 6];
    assert LRunSlots(s, c2b, buckets, G, 4) == [5, 1, 3, 0, 2, 4];
    assert LRunHeads(s, c2b, buckets, G, 5) == [0, 1, 5, 6];
    assert LRunSlots(s, c2b, buckets, G, 5) == [5, 1, 3, 0, 2, 4];
  }

  /** The S-type scan after seeding 1, 5, 3. */
  lemma BabacSScanAsWritten(s: seq<int>, c2b: map<int, int>, tails: seq<int>)
    requires s == Babac && c2b == map[0 := 0, 97 := 1, 98 := 2, 99 := 3] && tails == [0, 2, 4, 5]
    ensures SRunSlots(s, c2b, tails, [5, 3, 1, 2, 0, 4], 0) == [5, 1, 3, 2, 0, 4]
  {
    BabacTypes(s);
    var G := [5, 3, 1, 2, 0, 4];
    assert SRunTails(s, c2b, tails, G, 5) == [0, 1, 4, 5];
    assert SRunSlots(s, c2b, tails, G, 5) == [5, 3, 3, 2, 0, 4];
    assert SRunTails(s, c2b, tails, G, 4) == [0, 1, 4, 5];
    assert SRunSlots(s, c2b, tails, G, 4) == [5, 3, 3, 2, 0, 4];
    assert SRunTails(s, c2b, tails, G, 3) == [0, 0, 4, 5];
    assert SRunSlots(s, c2b, tails, G, 3) == [5, 1, 3, 2, 0, 4];
    assert SRunTails(s, c2b, tails, G, 2) == [0, 0, 4, 5];
    assert SRunSlots(s, c2b, tails, G, 2) == [5, 1, 3, 2, 0, 4];
    assert SRunTails(s, c2b, tails, G, 1) == [0, 0, 4, 5];
    assert SRunSlots(s, c2b, tails, G, 1) == [5, 1, 3, 2, 0, 4];
  }

  /** The S-type scan after seeding 3, 1, 5. */
  lemma BabacSScanCorrected(s: seq<int>, c2b: map<int, int>, tails: seq<int>)
    requires s == Babac && c2b == map[0 := 0, 97 := 1, 98 := 2, 99 := 3] && tails == [0, 2, 4, 5]
    ensures SRunSlots(s, c2b, tails, [5, 1, 3, 0, 2, 4], 0) == [5, 1, 3, 0, 2, 4]
  {
    BabacTypes(s);
    var G := [5, 1, 3, 0, 2, 4];
    assert SRunTails(s, c2b, tails, G, 5) == [0, 1, 4, 5];
    assert SRunSlots(s, c2b, tails, G, 5) == [5, 1, 3, 0, 2, 4];
    assert SRunTails(s, c2b, tails, G, 4) == [0, 0, 4, 5];
    assert SRunSlots(s, c2b, tails, G, 4) == [5, 1, 3, 0, 2, 4];
    assert SRunTails(s, c2b, tails, G, 3) == [0, 0, 4, 5];
    assert SRunSlots(s, c2b, tails, G, 3) == [5, 1, 3, 0, 2, 4];
    assert SRunTails(s, c2b, tails, G, 2) == [0, 0, 4, 5];
    assert SRunSlots(s, c2b, tails, G, 2) == [5, 1, 3, 0, 2, 4];
    assert SRunTails(s, c2b, tails, G, 1) == [0, 0, 4, 5];
    assert SRunSlots(s, c2b, tails, G, 1) == [5, 1, 3, 0, 2, 4];
  }

  /** The suffixes of "babac" in increasing order: 5, 1, 3, 0, 2, 4. */
  lemma BabacSuffixOrder(s: seq<int>)
    requires s == Babac
    ensures Less(s[5..], s[1..]) && Less(s[1..], s[3..]) && Less(s[3..], s[0..])
    ensures Less(s[0..], s[2..]) && Less(s[2..], s[4..])
  {
    assert s[0..] == s && s[1..] == [97, 98, 97, 99, 0] && s[2..] == [98, 97, 99, 0];
    assert s[3..] == [97, 99, 0] && s[4..] == [99, 0] && s[5..] == [0];
    assert Lcp(s[0..], s[2..]) == 2 && Lcp(s[1..], s[3..]) == 1;
    assert Lcp(s[5..], s[1..]) == 0 && Lcp(s[3..], s[0..]) == 0 && Lcp(s[2..], s[4..]) == 0;
  }

  /** The reduced string of "babac" names its three sample suffixes in order, with distinct names. */
  lemma BabacReduced(s: seq<int>, spa: seq<int>, S1: seq<int>)
    requires s == Babac && spa == [1, 3, 5] && S1 == [1, 2, 0]
    ensures Reduction(s, spa, S1) && AllDistinct(S1)
  {
    BabacSuffixOrder(s);
    LessTransitive(s[5..], s[1..], s[3..]);
    forall k, k' | 0 <= k < |S1| && 0 <= k' < |S1| && S1[k] < S1[k']
      ensures Less(s[spa[k]..], s[spa[k']..])
    {
      assert (k == 0 && k' == 1) || (k == 2 && k' == 0) || (k == 2 && k' == 1);
    }
    forall k, k' | 0 <= k < |S1| && 0 <= k' < |S1| && S1[k] == S1[k']
      ensures LmsSubstring(s, spa, k) == LmsSubstring(s, spa, k')
    {
      assert k == k';
    }
  }

  /** The reduced string of "babac" is not its own suffix array: the inverse of its names is. */
  lemma BabacReducedOrder(S1: seq<int>)
    requires S1 == [1, 2, 0]
    ensures !IsSuffixArray(S1, S1) && IsSuffixArray(S1, [2, 0, 1])
  {
    assert S1[1..] == [2, 0] && S1[2..] == [0] && S1[0..] == S1;
    assert Lcp([2, 0], [0]) == 0 && Lcp([0], S1) == 0 && Lcp(S1, [2, 0]) == 0;
  }

  /** Seeding with the reduced string itself leaves the suffix "bac" before "babac": no suffix array. */
  lemma BabacAsWrittenUnsorted(s: seq<int>)
    requires s == Babac
    ensures !IsSuffixArray(s, [5, 1, 3, 2, 0, 4])
  {
    BabacSuffixOrder(s);
    LessAsymmetric(s[0..], s[2..]);
    var sa := [5, 1, 3, 2, 0, 4];
    assert !Less(s[sa[3]..], s[sa[4]..]);
  }

  /** The corrected output lists every position of "babac" once. */
  lemma BabacPermutation(sa: seq<int>)
    requires sa == [5, 1, 3, 0, 2, 4]
    ensures IsPermutation(sa)
  {
    forall p | 0 <= p < |sa| ensures p in sa {
      assert sa[[3, 1, 4, 2, 5, 0][p]] == p;
    }
  }

  /** Seeding with the inverse of the names gives the suffix array of "babac". */
  lemma BabacCorrectedSorted(s: seq<int>)
    requires s == Babac
    ensures IsSuffixArray(s, [5, 1, 3, 0, 2, 4])
  {
    var sa := [5, 1, 3, 0, 2, 4];
    BabacPermutation(sa);
    BabacSuffixOrder(s);
    forall r | 0 < r < |sa| ensures Less(s[sa[r - 1]..], s[sa[r]..]) {
      assert r == 1 || r == 2 || r == 3 || r == 4 || r == 5;
    }
  }

  /**
   * As the program writes it: the names of "babac" are distinct, so the
   * reduced string [1, 2, 0] itself is used as its suffix array; the seeds
   * it gives are 1, 5, 3, and the induced sort then leaves "bac" (position
   * 2) before "babac" (position 0).
   */
  lemma BabacAsWritten()
    ensures var s, cc, buckets := Babac, [(0, 1), (97, 2), (98, 2), (99, 1)], [0, 1, 3, 5];
      var c2b, tails := map[0 := 0, 97 := 1, 98 := 2, 99 := 3], [0, 2, 4, 5];
      var t, spa, S1 := [false, true, false, true, false, true], [1, 3, 5], [1, 2, 0];
      && Inputs(s, cc, buckets, c2b, tails) && IsTypeArray(s, t) && IsLmsList(t, spa)
      && Reduction(s, spa, S1) && AllDistinct(S1) && !IsSuffixArray(S1, S1)
      && SuffixArrays.ReducedSeeds(spa, S1) == [1, 5, 3]
      && Induced(s, c2b, buckets, tails, SuffixArrays.ReducedSeeds(spa, S1)) == [5, 1, 3, 2, 0, 4]
      && !IsSuffixArray(s, [5, 1, 3, 2, 0, 4])
  {
    var s, cc, buckets := Babac, [(0, 1), (97, 2), (98, 2), (99, 1)], [0, 1, 3, 5];
    var c2b, tails := map[0 := 0, 97 := 1, 98 := 2, 99 := 3], [0, 2, 4, 5];
    var t, spa, S1 := [false, true, false, true, false, true], [1, 3, 5], [1, 2, 0];
    BabacSetting(s, cc, buckets, c2b, tails);
    BabacSamples(s, t, spa);
    BabacReduced(s, spa, S1);
    BabacReducedOrder(S1);
    assert SuffixArrays.ReducedSeeds(spa, S1) == [1, 5, 3];
    BabacSeededAsWritten(s, c2b, tails);
    BabacLScanAsWritten(s, c2b, buckets);
    BabacSScanAsWritten(s, c2b, tails);
    BabacAsWrittenUnsorted(s);
  }

  /**
   * Corrected: the suffix array of the reduced string is the inverse of its
   * names, [2, 0, 1]; the seeds it gives are 3, 1, 5, and the induced sort
   * yields the suffix array of "babac".
   */
  lemma BabacCorrected()
    ensures var s, buckets := Babac, [0, 1, 3, 5];
      var c2b, tails := map[0 := 0, 97 := 1, 98 := 2, 99 := 3], [0, 2, 4, 5];
      var spa, S1, SA1 := [1, 3, 5], [1, 2, 0], [2, 0, 1];
      && IsSuffixArray(S1, SA1)
      && SuffixArrays.ReducedSeeds(spa, SA1) == [3, 1, 5]
      && Induced(s, c2b, buckets, tails, SuffixArrays.ReducedSeeds(spa, SA1)) == [5, 1, 3, 0, 2, 4]
      && IsSuffixArray(s, [5, 1, 3, 0, 2, 4])
  {
    var s, buckets := Babac, [0, 1, 3, 5];
    var c2b, tails := map[0 := 0, 97 := 1, 98 := 2, 99 := 3], [0, 2, 4, 5];
    var spa, S1, SA1 := [1, 3, 5], [1, 2, 0], [2, 0, 1];
    BabacReducedOrder(S1);
    assert SuffixArrays.ReducedSeeds(spa, SA1) == [3, 1, 5];
    BabacSeededCorrected(s, c2b, tails);
    BabacLScanCorrected(s, c2b, buckets);
    BabacSScanCorrected(s, c2b, tails);
    BabacCorrectedSorted(s);
  }
}
