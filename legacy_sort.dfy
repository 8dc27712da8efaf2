/**
 * The induced sort of the legacy class marks an empty slot with -1, the
 * `Blank` of the ghost runs, and so keeps it apart from position 0.  Its
 * steps are therefore the steps of the runs themselves rather than of
 * their picture with blanks read as 0.  This module restates each step of
 * `InducedSort` on the runs' own slots.
 */
module LegacySort {
  import opened SaisSpec
  import opened Induce
  import opened InduceS
  import opened InducedSort

  /** From a bucket layout, every step of phase 1 on the runs' slots. */
  lemma PreSteps(s: seq<int>, cc: CharCounts, buckets: seq<int>, c2b: map<int, int>)
    requires Setting(s, cc, buckets, c2b)
    ensures forall i :: 0 <= i < |s| ==> PreStep(s, cc, buckets, c2b, i)
  {
    forall i | 0 <= i < |s|
      ensures PreStep(s, cc, buckets, c2b, i)
    {
      PreStepAt(s, cc, buckets, c2b, i, i + 1);
    }
  }

  /** Seeding `seeds[k]` on the runs' slots: the seed goes to the tail of its bucket, which moves down. */
  ghost predicate RawSeedStep(s: seq<int>, c2b: map<int, int>, tails: seq<int>, seeds: seq<int>, k: int) {
    && 0 <= k < |seeds|
    && var x := seeds[k];
       var T := SeedRunTails(s, c2b, tails, seeds, k);
       var G := SeedRunSlots(s, c2b, tails, PreRun(s, |s|), seeds, k);
       && 0 <= x < |s| && s[x] in c2b && 0 <= c2b[s[x]] < |T| && 0 <= T[c2b[s[x]]] < |G| == |s|
       && SeedRunTails(s, c2b, tails, seeds, k + 1) == T[c2b[s[x]] := T[c2b[s[x]]] - 1]
       && SeedRunSlots(s, c2b, tails, PreRun(s, |s|), seeds, k + 1) == G[T[c2b[s[x]]] := x]
  }

  /** From a bucket layout, every seeding step, in any seeding order, on the runs' slots. */
  lemma SeedStepsRaw(s: seq<int>, cc: CharCounts, buckets: seq<int>, c2b: map<int, int>, tails: seq<int>, seeds: seq<int>)
    requires Inputs(s, cc, buckets, c2b, tails) && SeedOrder(s, seeds)
    ensures forall k :: 0 <= k < |seeds| ==> RawSeedStep(s, c2b, tails, seeds, k)
  {
    SeedSteps(s, cc, buckets, c2b, tails, seeds);
    forall k | 0 <= k < |seeds|
      ensures RawSeedStep(s, c2b, tails, seeds, k)
    {
      assert SeedProgramStep(s, c2b, tails, seeds, k);
      SeedRunNext(s, c2b, tails, PreRun(s, |s|), seeds, k, k + 1);
    }
  }

  /**
   * One step of a scan on the runs' slots `G` with pointers `P`: when slot
   * `i` holds a position other than 0 whose predecessor `v` has the type
   * this scan induces, `v` is written where the pointer of its bucket
   * points and that pointer moves on; a blank, a 0 or a predecessor of the
   * other type changes nothing.
   */
  ghost predicate RawStep(s: seq<int>, c2b: map<int, int>, P: seq<int>, G: seq<int>, i: int,
                          P': seq<int>, G': seq<int>, lscan: bool) {
    && |G| == |s| && 0 <= i < |s| && (G[i] == Blank || 0 <= G[i] < |s|)
    && if G[i] != Blank && G[i] != 0 && SType(s, G[i] - 1) != lscan then
         var v := G[i] - 1;
         && s[v] in c2b && 0 <= c2b[s[v]] < |P| && 0 <= P[c2b[s[v]]] < |s|
         && P' == P[c2b[s[v]] := P[c2b[s[v]]] + (if lscan then 1 else -1)]
         && G' == G[P[c2b[s[v]]] := v]
       else
         P' == P && G' == G
  }

  /** Step `i` of the L-type scan from `G0` on the runs' slots. */
  ghost predicate LStepRaw(s: seq<int>, c2b: map<int, int>, buckets: seq<int>, G0: seq<int>, i: int) {
    && 0 <= i < |s|
    && RawStep(s, c2b, LRunHeads(s, c2b, buckets, G0, i), LRunSlots(s, c2b, buckets, G0, i), i,
               LRunHeads(s, c2b, buckets, G0, i + 1), LRunSlots(s, c2b, buckets, G0, i + 1), true)
  }

  /** Step `i` of the S-type scan from `G1` on the runs' slots. */
  ghost predicate SStepRaw(s: seq<int>, c2b: map<int, int>, tails: seq<int>, G1: seq<int>, i: int) {
    && 0 <= i < |s|
    && RawStep(s, c2b, SRunTails(s, c2b, tails, G1, i + 1), SRunSlots(s, c2b, tails, G1, i + 1), i,
               SRunTails(s, c2b, tails, G1, i), SRunSlots(s, c2b, tails, G1, i), false)
  }

  /** A program step of the L-type scan is a step on the runs' slots. */
  lemma LStepFromProgram(s: seq<int>, c2b: map<int, int>, buckets: seq<int>, G0: seq<int>, i: nat, k: nat)
    requires LScanStep(s, c2b, buckets, G0, i) && k == i + 1
    ensures LStepRaw(s, c2b, buckets, G0, i)
  {
    LRunNext(s, c2b, buckets, G0, i, k);
    var G := LRunSlots(s, c2b, buckets, G0, i);
    assert Concrete(G)[i] == if G[i] == Blank then 0 else G[i];
  }

  /** A program step of the S-type scan is a step on the runs' slots. */
  lemma SStepFromProgram(s: seq<int>, c2b: map<int, int>, tails: seq<int>, G1: seq<int>, i: nat, k: nat)
    requires SScanStep(s, c2b, tails, G1, i) && k == i + 1
    ensures SStepRaw(s, c2b, tails, G1, i)
  {
    SRunNext(s, c2b, tails, G1, i, k);
    var G := SRunSlots(s, c2b, tails, G1, k);
    assert Concrete(G)[i] == if G[i] == Blank then 0 else G[i];
  }

  /** From a bucket layout and a seeding, every step of both scans on the runs' slots. */
  lemma ScanStepsRaw(s: seq<int>, cc: CharCounts, buckets: seq<int>, c2b: map<int, int>, tails: seq<int>, seeds: seq<int>)
    requires Inputs(s, cc, buckets, c2b, tails) && SeedOrder(s, seeds)
    ensures forall i :: 0 <= i < |s| ==> LStepRaw(s, c2b, buckets, Seeded(s, c2b, tails, seeds), i)
    ensures forall i :: 0 <= i < |s| ==> SStepRaw(s, c2b, tails, LScanned(s, c2b, buckets, tails, seeds), i)
  {
    ScanSteps(s, cc, buckets, c2b, tails, seeds);
    forall i | 0 <= i < |s|
      ensures LStepRaw(s, c2b, buckets, Seeded(s, c2b, tails, seeds), i)
      ensures SStepRaw(s, c2b, tails, LScanned(s, c2b, buckets, tails, seeds), i)
    {
      LStepFromProgram(s, c2b, buckets, Seeded(s, c2b, tails, seeds), i, i + 1);
      SStepFromProgram(s, c2b, tails, LScanned(s, c2b, buckets, tails, seeds), i, i + 1);
    }
  }
}
