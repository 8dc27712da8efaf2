/**
 * The whole of `inducedSort` as ghost runs: positions whose code occurs once
 * are placed, the sample positions are seeded at the bucket tails in some
 * order, then the two scans induce the rest.  `InducedSortResult` puts the
 * phases together, and the `...Safe` lemmas give the loops of the program
 * what they need to know at each step: that every pointer they follow and
 * every slot they write is in range.
 *
 * The program marks an empty slot with 0, which is also a position; the
 * ghost runs use `Blank`, and `Concrete` maps one picture to the other.
 */
module InducedSort {
  import opened Lex
  import opened SaisSpec
  import opened Induce
  import opened InduceS

  /** The array as the program holds it: an empty slot reads as 0. */
  function Concrete(G: seq<int>): seq<int> {
    seq(|G|, r requires 0 <= r < |G| => if G[r] == Blank then 0 else G[r])
  }

  /** `n` empty slots. */
  function Blanks(n: nat): seq<int> {
    seq(n, _ => Blank)
  }

  /** `tails` is what `initTails` builds from `buckets`: each entry is the last slot of its bucket. */
  predicate IsInitTails(buckets: seq<int>, n: int, tails: seq<int>) {
    && |tails| == |buckets|
    && forall k :: 0 <= k < |tails| ==> tails[k] == if k + 1 < |buckets| then buckets[k + 1] - 1 else n - 1
  }

  /** The inputs every phase works from: the bucket layout of `s` and the tails built from it. */
  ghost predicate Inputs(s: seq<int>, cc: CharCounts, buckets: seq<int>, c2b: map<int, int>, tails: seq<int>) {
    Setting(s, cc, buckets, c2b) && IsInitTails(buckets, |s|, tails)
  }

  /** Each tail built by `initTails` is the last slot of its bucket. */
  lemma InitTailsEnd(s: seq<int>, cc: CharCounts, buckets: seq<int>, c2b: map<int, int>, tails: seq<int>)
    requires Inputs(s, cc, buckets, c2b, tails)
    ensures Numbering(s, c2b, tails)
    ensures forall c {:trigger Ptr(tails, c2b, c)} :: c in c2b ==> Ptr(tails, c2b, c) == End(s, c)
  {
    NumberingOf(s, cc, buckets, c2b, tails);
    forall c | c in c2b
      ensures Ptr(tails, c2b, c) == End(s, c)
    {
      var k := c2b[c];
      if k + 1 < |buckets| {
        NextBucket(s, cc, k);
      } else {
        OuterBuckets(s, cc);
      }
    }
  }

  // ---------------------------------------------------------------------------
  // Phase 1: `inducedSortCommon`.

  /** The slots after positions `0 .. i-1` have been looked at. */
  ghost function PreRun(s: seq<int>, i: nat): seq<int> {
    if i == 0 then Blanks(|s|)
    else
      var G := PreRun(s, i - 1);
      if i - 1 < |s| && Count(s, s[i - 1]) == 1 && 0 <= Start(s, s[i - 1]) < |G| then G[Start(s, s[i - 1]) := i - 1] else G
  }

  lemma {:induction false} PreRunPlaced(s: seq<int>, i: nat)
    requires i <= |s|
    ensures PrePlaced(s, PreRun(s, i), i)
  {
    if i == 0 {
      PrePlaceInit(s);
    } else {
      var j := i - 1;
      PreRunPlaced(s, j);
      PrePlaceStep(s, PreRun(s, j), j);
    }
  }

  // ---------------------------------------------------------------------------
  // Phase 2: seeding the sample positions, in the order `seeds` lists them.

  /** The seeds are distinct sample positions and include every sample position. */
  ghost predicate SeedOrder(s: seq<int>, seeds: seq<int>) {
    && (forall k :: 0 <= k < |seeds| ==> LmsPos(s, seeds[k]))
    && (forall k, k' :: 0 <= k < k' < |seeds| ==> seeds[k] != seeds[k'])
    && (forall q :: LmsPos(s, q) ==> q in seeds)
  }

  /** The slot a seed `x` goes to: the tail of its bucket, or -1 when that pointer does not exist. */
  ghost function SeedTarget(s: seq<int>, c2b: map<int, int>, tails: seq<int>, x: int): int {
    if 0 <= x < |s| && s[x] in c2b && 0 <= c2b[s[x]] < |tails| then tails[c2b[s[x]]] else -1
  }

  /** The tails after seeding `x`. */
  ghost function SeedStepTails(s: seq<int>, c2b: map<int, int>, tails: seq<int>, x: int): seq<int> {
    var h := SeedTarget(s, c2b, tails, x);
    if h < 0 then tails else tails[c2b[s[x]] := h - 1]
  }

  /** The slots after seeding `x`. */
  ghost function SeedStepSlots(s: seq<int>, c2b: map<int, int>, tails: seq<int>, G: seq<int>, x: int): seq<int> {
    var h := SeedTarget(s, c2b, tails, x);
    if 0 <= h < |G| then G[h := x] else G
  }

  /** The tails after seeding `seeds[..k]`. */
  ghost function SeedRunTails(s: seq<int>, c2b: map<int, int>, tails: seq<int>, seeds: seq<int>, k: nat): seq<int> {
    if k == 0 || k > |seeds| then tails
    else SeedStepTails(s, c2b, SeedRunTails(s, c2b, tails, seeds, k - 1), seeds[k - 1])
  }

  /** The slots after seeding `seeds[..k]`. */
  ghost function SeedRunSlots(s: seq<int>, c2b: map<int, int>, tails: seq<int>, G: seq<int>, seeds: seq<int>, k: nat): seq<int> {
    if k == 0 || k > |seeds| then G
    else SeedStepSlots(s, c2b, SeedRunTails(s, c2b, tails, seeds, k - 1), SeedRunSlots(s, c2b, tails, G, seeds, k - 1), seeds[k - 1])
  }

  /** The seeds placed so far. */
  ghost function SeedSet(seeds: seq<int>, k: int): set<int> {
    set j | 0 <= j < k && j < |seeds| :: seeds[j]
  }

  /** The run after `k = i + 1` seeds is one step on from the run after `i`. */
  lemma SeedRunNext(s: seq<int>, c2b: map<int, int>, tails: seq<int>, G: seq<int>, seeds: seq<int>, i: nat, k: nat)
    requires k == i + 1 && i < |seeds|
    ensures SeedRunTails(s, c2b, tails, seeds, k) == SeedStepTails(s, c2b, SeedRunTails(s, c2b, tails, seeds, i), seeds[i])
    ensures SeedRunSlots(s, c2b, tails, G, seeds, k)
         == SeedStepSlots(s, c2b, SeedRunTails(s, c2b, tails, seeds, i), SeedRunSlots(s, c2b, tails, G, seeds, i), seeds[i])
    ensures SeedSet(seeds, k) == SeedSet(seeds, i) + {seeds[i]}
  {
  }

  /** Seeding `x` at the tail `h` of its bucket. */
  lemma SeedStepWrites(s: seq<int>, c2b: map<int, int>, tails: seq<int>, G: seq<int>, x: int, h: int)
    requires Numbering(s, c2b, tails) && 0 <= x < |s| && h == Ptr(tails, c2b, s[x]) && 0 <= h < |G|
    ensures SeedTarget(s, c2b, tails, x) == h && s[x] in c2b
    ensures SeedStepTails(s, c2b, tails, x) == tails[c2b[s[x]] := h - 1]
    ensures SeedStepSlots(s, c2b, tails, G, x) == G[h := x]
  {
    assert s[x] in s;
  }

  /** One seed more keeps the seeding state; the seed's slot lies in its bucket. */
  lemma SeedRunStep(s: seq<int>, c2b: map<int, int>, tails: seq<int>, G: seq<int>, seeds: seq<int>, i: nat, k: nat)
    requires k == i + 1 && i < |seeds| && SeedOrder(s, seeds)
    requires Seeding(s, c2b, SeedRunTails(s, c2b, tails, seeds, i), SeedRunSlots(s, c2b, tails, G, seeds, i), SeedSet(seeds, i))
    ensures Seeding(s, c2b, SeedRunTails(s, c2b, tails, seeds, k), SeedRunSlots(s, c2b, tails, G, seeds, k), SeedSet(seeds, k))
    ensures 0 <= SeedTarget(s, c2b, SeedRunTails(s, c2b, tails, seeds, i), seeds[i]) < |s|
  {
    var T := SeedRunTails(s, c2b, tails, seeds, i);
    var G0 := SeedRunSlots(s, c2b, tails, G, seeds, i);
    var P := SeedSet(seeds, i);
    var x := seeds[i];
    assert x !in P;
    var h := Ptr(T, c2b, s[x]);
    SeedSlot(s, c2b, T, G0, P, x);
    SeedStep(s, c2b, T, G0, P, x, h);
    SeedStepWrites(s, c2b, T, G0, x, h);
    SeedRunNext(s, c2b, tails, G, seeds, i, k);
  }

  /** Seeding `seeds[..k]` keeps the seeding state. */
  lemma {:induction false} SeedRunSeeding(s: seq<int>, c2b: map<int, int>, tails: seq<int>, G: seq<int>, seeds: seq<int>, k: nat)
    requires Seeding(s, c2b, tails, G, {}) && SeedOrder(s, seeds) && k <= |seeds|
    ensures Seeding(s, c2b, SeedRunTails(s, c2b, tails, seeds, k), SeedRunSlots(s, c2b, tails, G, seeds, k), SeedSet(seeds, k))
  {
    if k == 0 {
      assert SeedSet(seeds, 0) == {};
    } else {
      var i := k - 1;
      assert i + 1 == k;
      SeedRunSeeding(s, c2b, tails, G, seeds, i);
      SeedRunStep(s, c2b, tails, G, seeds, i, k);
    }
  }

  /** All seeds placed: every sample position has been seeded. */
  lemma SeedSetAll(s: seq<int>, seeds: seq<int>)
    requires SeedOrder(s, seeds)
    ensures SeedSet(seeds, |seeds|) == LmsSet(s)
  {
    forall q | q in LmsSet(s)
      ensures q in SeedSet(seeds, |seeds|)
    {
      assert q in seeds;
    }
  }

  // ---------------------------------------------------------------------------
  // The phases together.

  /** The slots after phase 1 and seeding, with `tails` the tails built by `initTails`. */
  ghost function Seeded(s: seq<int>, c2b: map<int, int>, tails: seq<int>, seeds: seq<int>): seq<int> {
    SeedRunSlots(s, c2b, tails, PreRun(s, |s|), seeds, |seeds|)
  }

  /** The slots after the L-type scan, which starts with the heads at `buckets`. */
  ghost function LScanned(s: seq<int>, c2b: map<int, int>, buckets: seq<int>, tails: seq<int>, seeds: seq<int>): seq<int> {
    LRunSlots(s, c2b, buckets, Seeded(s, c2b, tails, seeds), |s|)
  }

  /** The slots after the S-type scan, which starts with fresh tails. */
  ghost function Induced(s: seq<int>, c2b: map<int, int>, buckets: seq<int>, tails: seq<int>, seeds: seq<int>): seq<int> {
    SRunSlots(s, c2b, tails, LScanned(s, c2b, buckets, tails, seeds), 0)
  }

  /** The seeding phase starts from the output of phase 1 and the fresh tails. */
  lemma SeedingStart(s: seq<int>, cc: CharCounts, buckets: seq<int>, c2b: map<int, int>, tails: seq<int>)
    requires Inputs(s, cc, buckets, c2b, tails)
    ensures Seeding(s, c2b, tails, PreRun(s, |s|), {})
  {
    PreRunPlaced(s, |s|);
    InitTailsEnd(s, cc, buckets, c2b, tails);
    SeedingInit(s, cc, buckets, c2b, tails, PreRun(s, |s|));
  }

  /** After seeding, the L-type scan starts with the heads at the bucket starts. */
  lemma LScanStart(s: seq<int>, cc: CharCounts, buckets: seq<int>, c2b: map<int, int>, tails: seq<int>, seeds: seq<int>)
    requires Inputs(s, cc, buckets, c2b, tails) && SeedOrder(s, seeds)
    ensures LPass(s, c2b, buckets, Seeded(s, c2b, tails, seeds), 0, {})
  {
    SeedingStart(s, cc, buckets, c2b, tails);
    SeedRunSeeding(s, c2b, tails, PreRun(s, |s|), seeds, |seeds|);
    SeedSetAll(s, seeds);
    NumberingOf(s, cc, buckets, c2b, buckets);
    LPassInit(s, c2b, SeedRunTails(s, c2b, tails, seeds, |seeds|), buckets, Seeded(s, c2b, tails, seeds));
  }

  /**
   * Whatever order the sample positions are seeded in, `inducedSort` leaves
   * every position in exactly one slot, sorted into buckets with the L-type
   * positions of each bucket first, and the sentinel in slot 0.
   */
  lemma InducedSortResult(s: seq<int>, cc: CharCounts, buckets: seq<int>, c2b: map<int, int>, tails: seq<int>, seeds: seq<int>)
    requires Inputs(s, cc, buckets, c2b, tails) && SeedOrder(s, seeds)
    ensures var R := Induced(s, c2b, buckets, tails, seeds);
      IsPermutation(R) && BucketSorted(s, R) && R[0] == |s| - 1 && Concrete(R) == R
  {
    var G := Seeded(s, c2b, tails, seeds);
    LScanStart(s, cc, buckets, c2b, tails, seeds);
    var WL := LRunPass(s, c2b, buckets, G, |s|);
    InitTailsEnd(s, cc, buckets, c2b, tails);
    SScanResult(s, c2b, LRunHeads(s, c2b, buckets, G, |s|), LRunSlots(s, c2b, buckets, G, |s|), WL, tails);
  }

  // ---------------------------------------------------------------------------
  // What the loops of the program need at each step.

  /** Writing a position (never a blank) commutes with reading empty slots as 0. */
  lemma ConcreteWrite(G: seq<int>, h: int, x: int)
    requires 0 <= h < |G| && 0 <= x
    ensures Concrete(G[h := x]) == Concrete(G)[h := x]
  {
  }

  /** Empty slots read as 0 in the program's picture. */
  lemma ConcreteBlanks(n: nat)
    ensures Concrete(Blanks(n)) == seq(n, _ => 0)
  {
  }

  /** Step `i` of phase 1 on the runs' slots: a code occurring once goes to the head of its bucket. */
  ghost predicate PreStep(s: seq<int>, cc: CharCounts, buckets: seq<int>, c2b: map<int, int>, i: int) {
    && 0 <= i < |s|
    && var G := PreRun(s, i);
       && |G| == |s| && s[i] in c2b && 0 <= c2b[s[i]] < |buckets| && 0 <= buckets[c2b[s[i]]] < |s|
       && PreRun(s, i + 1) == if CountOf(cc, s[i]) == 1 then G[buckets[c2b[s[i]]] := i] else G
  }

  /** Step `i` of phase 1, with `k = i + 1`. */
  lemma PreStepAt(s: seq<int>, cc: CharCounts, buckets: seq<int>, c2b: map<int, int>, i: nat, k: nat)
    requires Setting(s, cc, buckets, c2b) && k == i + 1 && i < |s|
    ensures PreStep(s, cc, buckets, c2b, i)
  {
    PreRunPlaced(s, i);
    assert s[i] in s;
    var j := c2b[s[i]];
    CountOfAt(cc, j);
    PosBucket(s, i);
    assert buckets[j] == Start(s, s[i]);
  }

  /** Step `i` of phase 1 as the program performs it: a code occurring once goes to the head of its bucket. */
  lemma PreRunSafe(s: seq<int>, cc: CharCounts, buckets: seq<int>, c2b: map<int, int>, i: nat, k: nat)
    requires Setting(s, cc, buckets, c2b) && k == i + 1 && i < |s|
    ensures var C := Concrete(PreRun(s, i));
      && |C| == |s| && s[i] in c2b && 0 <= c2b[s[i]] < |buckets| && 0 <= buckets[c2b[s[i]]] < |s|
      && (CountOf(cc, s[i]) == 1 ==> Concrete(PreRun(s, k)) == C[buckets[c2b[s[i]]] := i])
      && (CountOf(cc, s[i]) != 1 ==> Concrete(PreRun(s, k)) == C)
  {
    PreStepAt(s, cc, buckets, c2b, i, k);
    if CountOf(cc, s[i]) == 1 {
      ConcreteWrite(PreRun(s, i), buckets[c2b[s[i]]], i);
    }
  }

  /** Step `i` of seeding as the program performs it: `seeds[i]` goes to the tail of its bucket, which moves down. */
  lemma SeedSafe(s: seq<int>, cc: CharCounts, buckets: seq<int>, c2b: map<int, int>, tails: seq<int>, seeds: seq<int>, i: nat, k: nat)
    requires Inputs(s, cc, buckets, c2b, tails) && SeedOrder(s, seeds) && k == i + 1 && i < |seeds|
    ensures var x := seeds[i];
      var T := SeedRunTails(s, c2b, tails, seeds, i);
      var C := Concrete(SeedRunSlots(s, c2b, tails, PreRun(s, |s|), seeds, i));
      && 0 <= x < |s| && s[x] in c2b && 0 <= c2b[s[x]] < |T| && 0 <= T[c2b[s[x]]] < |C| == |s|
      && SeedRunTails(s, c2b, tails, seeds, k) == T[c2b[s[x]] := T[c2b[s[x]]] - 1]
      && Concrete(SeedRunSlots(s, c2b, tails, PreRun(s, |s|), seeds, k)) == C[T[c2b[s[x]]] := x]
  {
    var G := PreRun(s, |s|);
    SeedingStart(s, cc, buckets, c2b, tails);
    SeedRunSeeding(s, c2b, tails, G, seeds, i);
    SeedRunStep(s, c2b, tails, G, seeds, i, k);
    SeedRunNext(s, c2b, tails, G, seeds, i, k);
    var T := SeedRunTails(s, c2b, tails, seeds, i);
    var G0 := SeedRunSlots(s, c2b, tails, G, seeds, i);
    var x := seeds[i];
    assert |G0| == |s|;
    ConcreteWrite(G0, T[c2b[s[x]]], x);
  }

  /**
   * One step of a scan as the program performs it on its own picture `C`
   * with pointers `P`: when slot `i` holds a position whose predecessor `v`
   * has the type this scan induces (L for the left-to-right scan, S for the
   * right-to-left one), `v` is written where the pointer of its bucket
   * points, and that pointer moves on; otherwise nothing changes.
   */
  ghost predicate ProgramStep(s: seq<int>, c2b: map<int, int>, P: seq<int>, C: seq<int>, i: int,
                              P': seq<int>, C': seq<int>, lscan: bool) {
    && |C| == |s| && 0 <= i < |s| && 0 <= C[i] < |s|
    && if C[i] != 0 && SType(s, C[i] - 1) != lscan then
         var v := C[i] - 1;
         && s[v] in c2b && 0 <= c2b[s[v]] < |P| && 0 <= P[c2b[s[v]]] < |s|
         && P' == P[c2b[s[v]] := P[c2b[s[v]]] + (if lscan then 1 else -1)]
         && C' == C[P[c2b[s[v]]] := v]
       else
         P' == P && C' == C
  }

  /** The L-type step that writes, in the program's picture. */
  lemma LWriteProgram(s: seq<int>, c2b: map<int, int>, H: seq<int>, G: seq<int>, i: nat, WL: set<int>, v: int, h: int)
    requires Numbering(s, c2b, H) && LWriteAt(s, c2b, H, G, i, WL, v, h) && |G| == |s|
    ensures ProgramStep(s, c2b, H, Concrete(G), i, LStepHeads(s, c2b, H, G, i), Concrete(LStepSlots(s, c2b, H, G, i)), true)
  {
    LStepWrites(s, c2b, H, G, i, WL, v, h);
    ConcreteWrite(G, h, v);
  }

  /** A step that reads a blank, a 0 or a position with a predecessor of the other type, in the program's picture. */
  lemma SkipProgram(s: seq<int>, c2b: map<int, int>, P: seq<int>, G: seq<int>, i: nat, lscan: bool)
    requires |G| == |s| && i < |s| && (G[i] == Blank || 0 <= G[i] < |s|)
    requires !(0 < G[i] < |s| && SType(s, G[i] - 1) != lscan)
    ensures ProgramStep(s, c2b, P, Concrete(G), i, P, Concrete(G), lscan)
  {
  }

  /** One step of the L-type scan from a state that keeps `LPass`, in the program's picture. */
  lemma LStepSafe(s: seq<int>, c2b: map<int, int>, H: seq<int>, G: seq<int>, i: nat, WL: set<int>)
    requires LPass(s, c2b, H, G, i, WL) && i < |s|
    ensures ProgramStep(s, c2b, H, Concrete(G), i, LStepHeads(s, c2b, H, G, i), Concrete(LStepSlots(s, c2b, H, G, i)), true)
  {
    assert |G| == |s| && (G[i] == Blank || 0 <= G[i] < |s|);
    if 0 < G[i] < |s| && !SType(s, G[i] - 1) {
      var v, h := LWriteSlot(s, c2b, H, G, i, WL);
      LWriteProgram(s, c2b, H, G, i, WL, v, h);
    } else {
      LStepSkips(s, c2b, H, G, i);
      SkipProgram(s, c2b, H, G, i, true);
    }
  }

  /** The L-type run after `k = i + 1` slots is one step on from the run after `i`. */
  lemma LRunNext(s: seq<int>, c2b: map<int, int>, heads: seq<int>, G: seq<int>, i: nat, k: nat)
    requires k == i + 1
    ensures LRunHeads(s, c2b, heads, G, k) == LStepHeads(s, c2b, LRunHeads(s, c2b, heads, G, i), LRunSlots(s, c2b, heads, G, i), i)
    ensures LRunSlots(s, c2b, heads, G, k) == LStepSlots(s, c2b, LRunHeads(s, c2b, heads, G, i), LRunSlots(s, c2b, heads, G, i), i)
  {
  }

  /** The L-type scan keeps its state up to slot `i`. */
  lemma LScanAt(s: seq<int>, cc: CharCounts, buckets: seq<int>, c2b: map<int, int>, tails: seq<int>, seeds: seq<int>, i: nat)
    returns (WL: set<int>)
    requires Inputs(s, cc, buckets, c2b, tails) && SeedOrder(s, seeds) && i <= |s|
    ensures var G0 := Seeded(s, c2b, tails, seeds);
      LPass(s, c2b, LRunHeads(s, c2b, buckets, G0, i), LRunSlots(s, c2b, buckets, G0, i), i, WL)
  {
    LScanStart(s, cc, buckets, c2b, tails, seeds);
    WL := LRunPass(s, c2b, buckets, Seeded(s, c2b, tails, seeds), i);
  }

  /** Step `i` of the L-type scan as the program performs it. */
  lemma LScanSafe(s: seq<int>, cc: CharCounts, buckets: seq<int>, c2b: map<int, int>, tails: seq<int>, seeds: seq<int>, i: nat, k: nat)
    requires Inputs(s, cc, buckets, c2b, tails) && SeedOrder(s, seeds) && k == i + 1 && i < |s|
    ensures var G0 := Seeded(s, c2b, tails, seeds);
      ProgramStep(s, c2b, LRunHeads(s, c2b, buckets, G0, i), Concrete(LRunSlots(s, c2b, buckets, G0, i)), i,
                  LRunHeads(s, c2b, buckets, G0, k), Concrete(LRunSlots(s, c2b, buckets, G0, k)), true)
  {
    var G0 := Seeded(s, c2b, tails, seeds);
    var WL := LScanAt(s, cc, buckets, c2b, tails, seeds, i);
    LStepSafe(s, c2b, LRunHeads(s, c2b, buckets, G0, i), LRunSlots(s, c2b, buckets, G0, i), i, WL);
    LRunNext(s, c2b, buckets, G0, i, k);
  }

  /** The S-type step that writes, in the program's picture of the slots the L-type scan left. */
  lemma SWriteProgram(s: seq<int>, c2b: map<int, int>, T: seq<int>, G: seq<int>, Gq: seq<int>, i: nat, WS: set<int>, v: int, t: int)
    requires Numbering(s, c2b, T) && SWriteAt(s, c2b, T, Gq, i, WS, v, t) && SAgree(s, G, Gq) && |G| == |s|
    ensures ProgramStep(s, c2b, T, Concrete(G), i, SStepTails(s, c2b, T, G, i), Concrete(SStepSlots(s, c2b, T, G, i)), false)
  {
    SStepWrites(s, c2b, T, Gq, i, WS, v, t);
    SAgreeStep(s, c2b, T, G, Gq, i);
    assert G[i] == Gq[i];
    ConcreteWrite(G, t, v);
  }

  /** Where the two pictures differ, `G` holds a sample position, which induces nothing. */
  lemma SAgreeSlot(s: seq<int>, G: seq<int>, Gq: seq<int>, i: nat)
    requires SAgree(s, G, Gq) && InBuckets(s, Gq) && i < |s|
    ensures |G| == |s| && (G[i] == Blank || 0 <= G[i] < |s|)
    ensures 0 < G[i] < |s| && SType(s, G[i] - 1) ==> G[i] == Gq[i]
  {
  }

  /** The S-type step that writes, from a state that keeps `SPass`. */
  lemma SStepWriteSafe(s: seq<int>, c2b: map<int, int>, T: seq<int>, G: seq<int>, Gq: seq<int>, i: nat, k: nat, WS: set<int>)
    requires k == i + 1 && i < |s| && SPass(s, c2b, T, Gq, k, WS) && SAgree(s, G, Gq) && |G| == |s|
    requires 0 < G[i] < |s| && SType(s, G[i] - 1) && G[i] == Gq[i]
    ensures ProgramStep(s, c2b, T, Concrete(G), i, SStepTails(s, c2b, T, G, i), Concrete(SStepSlots(s, c2b, T, G, i)), false)
  {
    var v, t := SWriteSlot(s, c2b, T, Gq, i, WS);
    SWriteProgram(s, c2b, T, G, Gq, i, WS, v, t);
  }

  /** One step of the S-type scan, reading the slots `G` that agree with a picture `Gq` keeping `SPass`. */
  lemma SStepSafe(s: seq<int>, c2b: map<int, int>, T: seq<int>, G: seq<int>, Gq: seq<int>, i: nat, k: nat, WS: set<int>)
    requires k == i + 1 && i < |s| && SPass(s, c2b, T, Gq, k, WS) && SAgree(s, G, Gq)
    ensures ProgramStep(s, c2b, T, Concrete(G), i, SStepTails(s, c2b, T, G, i), Concrete(SStepSlots(s, c2b, T, G, i)), false)
  {
    SAgreeSlot(s, G, Gq, i);
    if 0 < G[i] < |s| && SType(s, G[i] - 1) {
      SStepWriteSafe(s, c2b, T, G, Gq, i, k, WS);
    } else {
      SStepSkips(s, c2b, T, G, i);
      SkipProgram(s, c2b, T, G, i, false);
    }
  }

  /** The S-type run after `i` is one step on from the run after `k = i + 1`. */
  lemma SRunNext(s: seq<int>, c2b: map<int, int>, tails: seq<int>, G: seq<int>, i: nat, k: nat)
    requires k == i + 1 && i < |s|
    ensures SRunTails(s, c2b, tails, G, i) == SStepTails(s, c2b, SRunTails(s, c2b, tails, G, k), SRunSlots(s, c2b, tails, G, k), i)
    ensures SRunSlots(s, c2b, tails, G, i) == SStepSlots(s, c2b, SRunTails(s, c2b, tails, G, k), SRunSlots(s, c2b, tails, G, k), i)
  {
  }

  /**
   * The S-type scan over the slots the L-type scan left, down to slot `k`,
   * agrees with the scan over the cleared picture, which keeps `SPass`.
   */
  lemma SScanAt(s: seq<int>, cc: CharCounts, buckets: seq<int>, c2b: map<int, int>, tails: seq<int>, seeds: seq<int>, k: nat)
    returns (WS: set<int>)
    requires Inputs(s, cc, buckets, c2b, tails) && SeedOrder(s, seeds) && k <= |s|
    ensures var G1 := LScanned(s, c2b, buckets, tails, seeds);
      var Gp := Project(s, G1);
      && SPass(s, c2b, SRunTails(s, c2b, tails, Gp, k), SRunSlots(s, c2b, tails, Gp, k), k, WS)
      && SRunTails(s, c2b, tails, G1, k) == SRunTails(s, c2b, tails, Gp, k)
      && SAgree(s, SRunSlots(s, c2b, tails, G1, k), SRunSlots(s, c2b, tails, Gp, k))
  {
    var G0 := Seeded(s, c2b, tails, seeds);
    var G1 := LScanned(s, c2b, buckets, tails, seeds);
    var WL := LScanAt(s, cc, buckets, c2b, tails, seeds, |s|);
    InitTailsEnd(s, cc, buckets, c2b, tails);
    var Gp := Project(s, G1);
    SPassInit(s, c2b, LRunHeads(s, c2b, buckets, G0, |s|), G1, WL, tails);
    WS := SRunPass(s, c2b, tails, Gp, k);
    ProjectAgrees(s, c2b, LRunHeads(s, c2b, buckets, G0, |s|), G1, WL);
    SRunAgree(s, c2b, tails, G1, Gp, k);
  }

  /** Step `i` of the S-type scan as the program performs it, with `k = i + 1` slots above already read. */
  lemma SScanSafe(s: seq<int>, cc: CharCounts, buckets: seq<int>, c2b: map<int, int>, tails: seq<int>, seeds: seq<int>, i: nat, k: nat)
    requires Inputs(s, cc, buckets, c2b, tails) && SeedOrder(s, seeds) && k == i + 1 && i < |s|
    ensures var G1 := LScanned(s, c2b, buckets, tails, seeds);
      ProgramStep(s, c2b, SRunTails(s, c2b, tails, G1, k), Concrete(SRunSlots(s, c2b, tails, G1, k)), i,
                  SRunTails(s, c2b, tails, G1, i), Concrete(SRunSlots(s, c2b, tails, G1, i)), false)
  {
    var G1 := LScanned(s, c2b, buckets, tails, seeds);
    var Gp := Project(s, G1);
    var WS := SScanAt(s, cc, buckets, c2b, tails, seeds, k);
    SStepSafe(s, c2b, SRunTails(s, c2b, tails, Gp, k), SRunSlots(s, c2b, tails, G1, k), SRunSlots(s, c2b, tails, Gp, k), i, k, WS);
    SRunNext(s, c2b, tails, G1, i, k);
  }

  /** Seeding `seeds[k]` is the program's step: the seed goes to the tail of its bucket, which moves down. */
  ghost predicate SeedProgramStep(s: seq<int>, c2b: map<int, int>, tails: seq<int>, seeds: seq<int>, k: int) {
    && 0 <= k < |seeds|
    && var x := seeds[k];
       var T := SeedRunTails(s, c2b, tails, seeds, k);
       var C := Concrete(SeedRunSlots(s, c2b, tails, PreRun(s, |s|), seeds, k));
       && 0 <= x < |s| && s[x] in c2b && 0 <= c2b[s[x]] < |T| && 0 <= T[c2b[s[x]]] < |C| == |s|
       && SeedRunTails(s, c2b, tails, seeds, k + 1) == T[c2b[s[x]] := T[c2b[s[x]]] - 1]
       && Concrete(SeedRunSlots(s, c2b, tails, PreRun(s, |s|), seeds, k + 1)) == C[T[c2b[s[x]]] := x]
  }

  /** Step `i` of the L-type scan from `G0` is the program's step. */
  ghost predicate LScanStep(s: seq<int>, c2b: map<int, int>, buckets: seq<int>, G0: seq<int>, i: int) {
    && 0 <= i < |s|
    && ProgramStep(s, c2b, LRunHeads(s, c2b, buckets, G0, i), Concrete(LRunSlots(s, c2b, buckets, G0, i)), i,
                   LRunHeads(s, c2b, buckets, G0, i + 1), Concrete(LRunSlots(s, c2b, buckets, G0, i + 1)), true)
  }

  /** Step `i` of the S-type scan from `G1` is the program's step. */
  ghost predicate SScanStep(s: seq<int>, c2b: map<int, int>, tails: seq<int>, G1: seq<int>, i: int) {
    && 0 <= i < |s|
    && ProgramStep(s, c2b, SRunTails(s, c2b, tails, G1, i + 1), Concrete(SRunSlots(s, c2b, tails, G1, i + 1)), i,
                   SRunTails(s, c2b, tails, G1, i), Concrete(SRunSlots(s, c2b, tails, G1, i)), false)
  }

  /** From a bucket layout, every seeding step, in any seeding order, is a program step. */
  lemma SeedSteps(s: seq<int>, cc: CharCounts, buckets: seq<int>, c2b: map<int, int>, tails: seq<int>, seeds: seq<int>)
    requires Inputs(s, cc, buckets, c2b, tails) && SeedOrder(s, seeds)
    ensures forall k :: 0 <= k < |seeds| ==> SeedProgramStep(s, c2b, tails, seeds, k)
  {
    forall k | 0 <= k < |seeds|
      ensures SeedProgramStep(s, c2b, tails, seeds, k)
    {
      SeedSafe(s, cc, buckets, c2b, tails, seeds, k, k + 1);
    }
  }

  /** From a bucket layout and a seeding, every step of both scans is a program step. */
  lemma ScanSteps(s: seq<int>, cc: CharCounts, buckets: seq<int>, c2b: map<int, int>, tails: seq<int>, seeds: seq<int>)
    requires Inputs(s, cc, buckets, c2b, tails) && SeedOrder(s, seeds)
    ensures forall i :: 0 <= i < |s| ==> LScanStep(s, c2b, buckets, Seeded(s, c2b, tails, seeds), i)
    ensures forall i :: 0 <= i < |s| ==> SScanStep(s, c2b, tails, LScanned(s, c2b, buckets, tails, seeds), i)
  {
    forall i | 0 <= i < |s|
      ensures LScanStep(s, c2b, buckets, Seeded(s, c2b, tails, seeds), i)
      ensures SScanStep(s, c2b, tails, LScanned(s, c2b, buckets, tails, seeds), i)
    {
      LScanSafe(s, cc, buckets, c2b, tails, seeds, i, i + 1);
      SScanSafe(s, cc, buckets, c2b, tails, seeds, i, i + 1);
    }
  }

  /** Step `i` of phase 1 is the program's step. */
  ghost predicate PreRunStep(s: seq<int>, cc: CharCounts, buckets: seq<int>, c2b: map<int, int>, i: int) {
    && 0 <= i < |s|
    && var C := Concrete(PreRun(s, i));
       && |C| == |s| && s[i] in c2b && 0 <= c2b[s[i]] < |buckets| && 0 <= buckets[c2b[s[i]]] < |s|
       && (CountOf(cc, s[i]) == 1 ==> Concrete(PreRun(s, i + 1)) == C[buckets[c2b[s[i]]] := i])
       && (CountOf(cc, s[i]) != 1 ==> Concrete(PreRun(s, i + 1)) == C)
  }

  /** From a bucket layout, every step of phase 1 is a program step. */
  lemma PreRunSteps(s: seq<int>, cc: CharCounts, buckets: seq<int>, c2b: map<int, int>)
    requires Setting(s, cc, buckets, c2b)
    ensures forall i :: 0 <= i < |s| ==> PreRunStep(s, cc, buckets, c2b, i)
  {
    forall i | 0 <= i < |s|
      ensures PreRunStep(s, cc, buckets, c2b, i)
    {
      PreRunSafe(s, cc, buckets, c2b, i, i + 1);
    }
  }
}
