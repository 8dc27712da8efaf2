/**
 * The induced-sorting passes, seen through a ghost picture `G` of the
 * suffix array in which an empty slot holds `Blank`.  Each phase of
 * `inducedSort` has a state predicate and a step lemma:
 *
 *   1. positions whose code occurs once go straight to their one-slot bucket;
 *   2. the sample positions are pushed onto the tails of their buckets;
 *   3. a left-to-right scan puts the L-type predecessor of every suffix it
 *      meets at the head of that predecessor's bucket;
 *   4. a right-to-left scan puts S-type predecessors at the tails.
 *
 * The invariants show that no pointer leaves its bucket, and that at the end
 * every position sits in exactly one slot.  That holds whatever order the
 * sample positions are seeded in.
 */
module Induce {
  import opened Lex
  import opened SaisSpec

  /** An empty slot. */
  const Blank: int := -1

  /** The head or tail pointer kept for the bucket of code `c`. */
  function Ptr(ptrs: seq<int>, charToBucket: map<int, int>, c: int): int {
    if c in charToBucket && 0 <= charToBucket[c] < |ptrs| then ptrs[charToBucket[c]] else 0
  }

  ghost predicate Setting(s: seq<int>, cc: CharCounts, buckets: seq<int>, charToBucket: map<int, int>) {
    WellFormed(s) && BucketLayout(s, cc, buckets, charToBucket)
  }

  /**
   * `charToBucket` numbers the codes of a well-formed `s` with distinct
   * indexes of `ptrs`: what the scans need of the bucket layout.
   */
  ghost predicate Numbering(s: seq<int>, charToBucket: map<int, int>, ptrs: seq<int>) {
    var holds :=
      && WellFormed(s)
      && (forall c :: c in charToBucket <==> c in s)
      && (forall c :: c in charToBucket ==> 0 <= charToBucket[c] < |ptrs|)
      && (forall c, d :: c in charToBucket && d in charToBucket && c != d ==> charToBucket[c] != charToBucket[d]);
    holds
  }

  /** The bucket layout numbers the codes, one pointer per bucket. */
  lemma NumberingOf(s: seq<int>, cc: CharCounts, buckets: seq<int>, c2b: map<int, int>, ptrs: seq<int>)
    requires Setting(s, cc, buckets, c2b) && |ptrs| == |cc|
    ensures Numbering(s, c2b, ptrs)
  {
    forall c, d | c in c2b && d in c2b && c != d
      ensures c2b[c] != c2b[d]
    {
      assert cc[c2b[c]].0 == c && cc[c2b[d]].0 == d;
    }
  }

  /** Every filled slot holds a position whose code owns the bucket the slot lies in. */
  ghost predicate InBuckets(s: seq<int>, G: seq<int>) {
    var holds :=
      && |G| == |s|
      && forall r :: 0 <= r < |G| && G[r] != Blank ==>
           0 <= G[r] < |s| && Start(s, s[G[r]]) <= r <= End(s, s[G[r]]);
    holds
  }

  /** Slot `r` of `G`; naming the lookup keeps `Distinct` from firing on every pair of slots. */
  function At(G: seq<int>, r: int): int
    requires 0 <= r < |G|
  {
    G[r]
  }

  /** No position fills two slots. */
  ghost predicate Distinct(G: seq<int>) {
    var holds :=
      forall r, r' {:trigger At(G, r), At(G, r')} ::
        0 <= r < r' < |G| && At(G, r) != Blank ==> At(G, r) != At(G, r');
    holds
  }

  lemma DistinctAt(G: seq<int>, r: int, r': int)
    requires Distinct(G) && 0 <= r < |G| && 0 <= r' < |G| && r != r' && G[r] != Blank
    ensures G[r] != G[r']
  {
    assert At(G, r) == G[r] && At(G, r') == G[r'];
  }

  /** `ptrs'` is `ptrs` with the pointer of code `c` set to `x`. */
  ghost predicate Bumped(ptrs: seq<int>, ptrs': seq<int>, charToBucket: map<int, int>, c: int, x: int) {
    var holds := forall d {:trigger Ptr(ptrs', charToBucket, d)} ::
      Ptr(ptrs', charToBucket, d) == if d == c then x else Ptr(ptrs, charToBucket, d);
    holds
  }

  /** Updating the pointer of one bucket leaves the others alone. */
  lemma PtrUpdate(s: seq<int>, c2b: map<int, int>,
                   ptrs: seq<int>, c: int, k: int, x: int)
    requires Numbering(s, c2b, ptrs) && c in c2b && k == c2b[c]
    ensures 0 <= k < |ptrs| && Bumped(ptrs, ptrs[k := x], c2b, c, x)
  {
  }

  // ---------------------------------------------------------------------------
  // Phase 1: positions whose code occurs once.

  /**
   * After looking at positions `0 .. i-1`: every filled slot holds a position
   * whose code occurs once, at the first (and only) slot of its bucket, and
   * every such position seen so far has been placed.
   */
  ghost predicate PrePlaced(s: seq<int>, G: seq<int>, i: int) {
    var holds :=
      && InBuckets(s, G)
      && 0 <= i <= |s|
      && (forall r :: 0 <= r < |G| && G[r] != Blank ==>
            Count(s, s[G[r]]) == 1 && G[r] < i && r == Start(s, s[G[r]]))
      && (forall q :: 0 <= q < i && Count(s, s[q]) == 1 ==>
            0 <= Start(s, s[q]) < |G| && G[Start(s, s[q])] == q);
    holds
  }

  lemma PrePlaceInit(s: seq<int>)
    ensures PrePlaced(s, seq(|s|, _ => Blank), 0)
  {
  }

  /** Placing position `i` when its code occurs once keeps the picture consistent. */
  lemma PrePlaceStep(s: seq<int>, G: seq<int>, i: int)
    requires PrePlaced(s, G, i) && i < |s|
    ensures 0 <= Start(s, s[i]) < |s|
    ensures Count(s, s[i]) == 1 ==> PrePlaced(s, G[Start(s, s[i]) := i], i + 1)
    ensures Count(s, s[i]) != 1 ==> PrePlaced(s, G, i + 1)
  {
    PosBucket(s, i);
    var h := Start(s, s[i]);
    if Count(s, s[i]) == 1 {
      var G' := G[h := i];
      forall r | 0 <= r < |G'| && G'[r] != Blank
        ensures 0 <= G'[r] < |s| && Start(s, s[G'[r]]) <= r <= End(s, s[G'[r]])
        ensures Count(s, s[G'[r]]) == 1 && G'[r] < i + 1 && r == Start(s, s[G'[r]])
      {
      }
      forall q | 0 <= q < i + 1 && Count(s, s[q]) == 1
        ensures 0 <= Start(s, s[q]) < |G'| && G'[Start(s, s[q])] == q
      {
        PosBucket(s, q);
        UniqueCode(s, q, i);
        SameBucket(s, s[q], s[i], h);
      }
    }
  }

  // ---------------------------------------------------------------------------
  // Phase 2: seeding the sample positions at the bucket tails.

  /**
   * Each filled slot holds either a seed placed past its bucket's tail, or a
   * position whose code occurs once, at its bucket's first slot.
   */
  ghost predicate SeedSlots(s: seq<int>, c2b: map<int, int>, tails: seq<int>, G: seq<int>, P: set<int>)
    requires InBuckets(s, G)
  {
    var holds :=
      forall r :: 0 <= r < |G| && G[r] != Blank ==>
        || (G[r] in P && Ptr(tails, c2b, s[G[r]]) < r)
        || (Count(s, s[G[r]]) == 1 && r == Start(s, s[G[r]]));
    holds
  }

  /** The tail of each bucket has moved down once per seed of that code. */
  ghost predicate TailsBySeeds(s: seq<int>, c2b: map<int, int>, tails: seq<int>, P: set<int>) {
    var holds :=
      forall c {:trigger Ptr(tails, c2b, c)} :: c in c2b ==> Ptr(tails, c2b, c) == End(s, c) - |P * STypes(s, c)|;
    holds
  }

  ghost predicate SeedsPresent(s: seq<int>, G: seq<int>, P: set<int>) {
    var holds :=
      forall q {:trigger q in P} :: q in P ==> LmsPos(s, q) && q in G;
    holds
  }

  /** `P` holds the sample positions seeded so far. */
  ghost predicate Seeding(s: seq<int>, c2b: map<int, int>,
                          tails: seq<int>, G: seq<int>, P: set<int>) {
    var holds :=
      && Numbering(s, c2b, tails)
      && InBuckets(s, G)
      && Distinct(G)
      && G[0] == |s| - 1
      && TailsBySeeds(s, c2b, tails, P)
      && SeedsPresent(s, G, P)
      && SeedSlots(s, c2b, tails, G, P);
    holds
  }

  /** With every tail at its bucket's end, the pre-placed picture is a seeding state. */
  lemma SeedingInit(s: seq<int>, cc: CharCounts, buckets: seq<int>, c2b: map<int, int>, tails: seq<int>, G: seq<int>)
    requires Setting(s, cc, buckets, c2b) && PrePlaced(s, G, |s|) && |tails| == |cc|
    requires forall c {:trigger Ptr(tails, c2b, c)} :: c in c2b ==> Ptr(tails, c2b, c) == End(s, c)
    ensures Seeding(s, c2b, tails, G, {})
  {
    NumberingOf(s, cc, buckets, c2b, tails);
    SentinelBucket(s);
    assert G[0] == |s| - 1;
    forall c | c in c2b
      ensures Ptr(tails, c2b, c) == End(s, c) - |{} * STypes(s, c)|
    {
      assert {} * STypes(s, c) == {};
    }
  }

  /** A seed can always be placed: its bucket still has a free S-slot. */
  lemma SeedRoom(s: seq<int>, P: set<int>, x: int)
    requires 0 <= x < |s| && SType(s, x) && x !in P
    ensures |P * STypes(s, s[x])| < |STypes(s, s[x])|
  {
    SubsetCard(P * STypes(s, s[x]) + {x}, STypes(s, s[x]));
  }

  /** Adding `x` to a written set grows its share of exactly one type class. */
  lemma ShareGrows(W: set<int>, x: int, A: set<int>)
    requires x !in W
    ensures |(W + {x}) * A| == |W * A| + (if x in A then 1 else 0)
  {
    if x in A {
      assert (W + {x}) * A == W * A + {x};
    } else {
      assert (W + {x}) * A == W * A;
    }
  }

  /** The tail of the seed's bucket lies in its S-part, on a free slot or on the seed itself. */
  lemma SeedSlot(s: seq<int>, c2b: map<int, int>,
                 tails: seq<int>, G: seq<int>, P: set<int>, x: int)
    requires Seeding(s, c2b, tails, G, P) && LmsPos(s, x) && x !in P
    ensures var h := Ptr(tails, c2b, s[x]);
      && Mid(s, s[x]) <= h <= End(s, s[x]) && 0 <= h < |s|
      && (G[h] == Blank || G[h] == x)
      && OnlyAt(G, h, x)
  {
    var c := s[x];
    var h := Ptr(tails, c2b, c);
    PosBucket(s, x);
    TypesSplit(s, c);
    SeedRoom(s, P, x);
    if G[h] != Blank {
      SameBucket(s, s[G[h]], c, h);
      UniqueCode(s, G[h], x);
    }
    forall r | 0 <= r < |G| && r != h
      ensures G[r] != x
    {
    }
    assert OnlyAt(G, h, x);
  }

  /** Writing a position into a slot of its own bucket keeps every slot in its bucket. */
  lemma InBucketsWrite(s: seq<int>, G: seq<int>, h: int, x: int)
    requires InBuckets(s, G) && 0 <= x < |s| && Start(s, s[x]) <= h <= End(s, s[x]) && 0 <= h < |G|
    ensures InBuckets(s, G[h := x])
  {
  }

  /** `x` fills no slot other than `h`. */
  ghost predicate OnlyAt(G: seq<int>, h: int, x: int) {
    var holds :=
      forall r :: 0 <= r < |G| && r != h ==> G[r] != x;
    holds
  }

  /** Writing a position found in no other slot keeps the slots distinct. */
  lemma DistinctWrite(G: seq<int>, h: int, x: int)
    requires Distinct(G) && 0 <= h < |G| && x != Blank && OnlyAt(G, h, x)
    ensures Distinct(G[h := x])
  {
    var G' := G[h := x];
    forall r, r' | 0 <= r < r' < |G'| && At(G', r) != Blank
      ensures At(G', r) != At(G', r')
    {
      if r != h && r' != h {
        DistinctAt(G, r, r');
      }
    }
  }

  lemma SeedStepSlots(s: seq<int>, c2b: map<int, int>, tails: seq<int>, G: seq<int>, P: set<int>, x: int, h: int, k: int)
    requires InBuckets(s, G) && SeedSlots(s, c2b, tails, G, P)
    requires 0 <= x < |s| && Start(s, s[x]) <= h <= End(s, s[x]) && 0 <= h < |G|
    requires s[x] in c2b && k == c2b[s[x]] && 0 <= k < |tails| && Ptr(tails, c2b, s[x]) == h
    requires Bumped(tails, tails[k := h - 1], c2b, s[x], h - 1)
    ensures InBuckets(s, G[h := x]) && SeedSlots(s, c2b, tails[k := h - 1], G[h := x], P + {x})
  {
    InBucketsWrite(s, G, h, x);
    var G' := G[h := x];
    forall r | 0 <= r < |G'| && G'[r] != Blank
      ensures || (G'[r] in P + {x} && Ptr(tails[k := h - 1], c2b, s[G'[r]]) < r)
              || (Count(s, s[G'[r]]) == 1 && r == Start(s, s[G'[r]]))
    {
      if r != h {
        assert G'[r] == G[r];
      }
    }
  }

  lemma SeedStepTails(s: seq<int>, c2b: map<int, int>, tails: seq<int>, tails': seq<int>, P: set<int>, x: int, h: int)
    requires TailsBySeeds(s, c2b, tails, P) && x !in P && 0 <= x < |s| && SType(s, x)
    requires h == Ptr(tails, c2b, s[x]) && Bumped(tails, tails', c2b, s[x], h - 1)
    ensures TailsBySeeds(s, c2b, tails', P + {x})
  {
    forall d | d in c2b
      ensures Ptr(tails', c2b, d) == End(s, d) - |(P + {x}) * STypes(s, d)|
    {
      ShareGrows(P, x, STypes(s, d));
    }
  }

  lemma SeedStepMembers(s: seq<int>, G: seq<int>, P: set<int>, x: int, h: int)
    requires SeedsPresent(s, G, P)
    requires LmsPos(s, x) && 0 <= h < |G| && (G[h] == Blank || G[h] == x)
    ensures SeedsPresent(s, G[h := x], P + {x})
  {
    var G' := G[h := x];
    forall q | q in P + {x}
      ensures LmsPos(s, q) && q in G'
    {
      if q == x {
        assert G'[h] == x;
      } else {
        var r :| 0 <= r < |G| && G[r] == q;
        assert G'[r] == q;
      }
    }
  }

  /**
   * Seeding sample position `x` at the tail `h` of its bucket (a free slot or
   * the seed itself, as `SeedSlot` shows), after which the tail moves down.
   */
  lemma SeedStep(s: seq<int>, c2b: map<int, int>,
                 tails: seq<int>, G: seq<int>, P: set<int>, x: int, h: int)
    requires Seeding(s, c2b, tails, G, P) && LmsPos(s, x) && x !in P
    requires h == Ptr(tails, c2b, s[x]) && Mid(s, s[x]) <= h <= End(s, s[x]) && 0 <= h < |s|
    requires (G[h] == Blank || G[h] == x) && OnlyAt(G, h, x)
    ensures s[x] in c2b && 0 <= c2b[s[x]] < |tails|
    ensures Seeding(s, c2b, tails[c2b[s[x]] := h - 1], G[h := x], P + {x})
  {
    SeedStepTailsAt(s, c2b, tails, G, P, x, h);
    SeedStepSlotsAt(s, c2b, tails, G, P, x, h);
    SeedStepMembers(s, G, P, x, h);
    DistinctWrite(G, h, x);
  }

  /** The tail part of `SeedStep`. */
  lemma SeedStepTailsAt(s: seq<int>, c2b: map<int, int>,
                        tails: seq<int>, G: seq<int>, P: set<int>, x: int, h: int)
    requires Seeding(s, c2b, tails, G, P) && LmsPos(s, x) && x !in P
    requires h == Ptr(tails, c2b, s[x]) && Mid(s, s[x]) <= h <= End(s, s[x]) && 0 <= h < |s|
    ensures s[x] in c2b && 0 <= c2b[s[x]] < |tails|
    ensures Numbering(s, c2b, tails[c2b[s[x]] := h - 1]) && G[h := x][0] == |s| - 1
    ensures TailsBySeeds(s, c2b, tails[c2b[s[x]] := h - 1], P + {x})
  {
    var c := s[x];
    PosBucket(s, x);
    var k := c2b[c];
    SentinelBucket(s);
    PtrUpdate(s, c2b, tails, c, k, h - 1);
    SeedStepTails(s, c2b, tails, tails[k := h - 1], P, x, h);
  }

  /** The slot part of `SeedStep`. */
  lemma SeedStepSlotsAt(s: seq<int>, c2b: map<int, int>,
                        tails: seq<int>, G: seq<int>, P: set<int>, x: int, h: int)
    requires Seeding(s, c2b, tails, G, P) && LmsPos(s, x) && x !in P
    requires h == Ptr(tails, c2b, s[x]) && Mid(s, s[x]) <= h <= End(s, s[x]) && 0 <= h < |s|
    ensures s[x] in c2b && 0 <= c2b[s[x]] < |tails|
    ensures InBuckets(s, G[h := x]) && SeedSlots(s, c2b, tails[c2b[s[x]] := h - 1], G[h := x], P + {x})
  {
    var c := s[x];
    PosBucket(s, x);
    var k := c2b[c];
    PtrUpdate(s, c2b, tails, c, k, h - 1);
    SeedStepSlots(s, c2b, tails, G, P, x, h, k);
  }

  /** Every sample position of `s`. */
  ghost function LmsSet(s: seq<int>): set<int> {
    set q | 0 <= q < |s| && LmsPos(s, q)
  }

  // ---------------------------------------------------------------------------
  // Phase 3: the left-to-right scan that induces L-type suffixes.

  /**
   * S-type positions sit in the S-part of their bucket and are sample
   * positions or codes that occur once; L-type positions sit in the L-part,
   * before the head if induced, or alone in their bucket if not.
   */
  ghost predicate LSlots(s: seq<int>, c2b: map<int, int>, heads: seq<int>, G: seq<int>, WL: set<int>)
    requires InBuckets(s, G)
  {
    var holds :=
      forall r :: 0 <= r < |G| && G[r] != Blank ==>
        if SType(s, G[r]) then
          Mid(s, s[G[r]]) <= r && (LmsPos(s, G[r]) || Count(s, s[G[r]]) == 1)
        else
          && r < Mid(s, s[G[r]])
          && ((G[r] in WL && r < Ptr(heads, c2b, s[G[r]])) ||
              (G[r] !in WL && Count(s, s[G[r]]) == 1 && r == Start(s, s[G[r]])));
    holds
  }

  /** An L-type position has been induced exactly when the scan has passed its successor. */
  ghost predicate WLChar(s: seq<int>, G: seq<int>, i: int, WL: set<int>)
    requires 0 <= i <= |G|
  {
    var holds :=
      forall q {:trigger q in WL} :: q in WL <==> 0 <= q < |s| && !SType(s, q) && q + 1 in G[..i];
    holds
  }

  ghost predicate HeadsByWritten(s: seq<int>, c2b: map<int, int>, heads: seq<int>, WL: set<int>) {
    var holds :=
      forall c {:trigger Ptr(heads, c2b, c)} :: c in c2b ==> Ptr(heads, c2b, c) == Start(s, c) + |WL * LTypes(s, c)|;
    holds
  }

  ghost predicate LmsPresent(s: seq<int>, G: seq<int>) {
    var holds :=
      forall q {:trigger LmsPos(s, q)} :: LmsPos(s, q) ==> q in G;
    holds
  }

  ghost predicate Present(G: seq<int>, W: set<int>) {
    var holds :=
      forall q {:trigger q in W} :: q in W ==> q in G;
    holds
  }

  /** What the scan needs to know to keep its heads ahead of it. */
  ghost predicate LScan(s: seq<int>, c2b: map<int, int>, heads: seq<int>, G: seq<int>, i: int, WL: set<int>) {
    var holds :=
      && (forall c :: c in c2b <==> c in s)
      && InBuckets(s, G)
      && Distinct(G)
      && 0 <= i <= |s|
      && LmsPresent(s, G)
      && Present(G, WL)
      && HeadsByWritten(s, c2b, heads, WL)
      && WLChar(s, G, i, WL);
    holds
  }

  /** The state of the L-type scan before it reads slot `i`. */
  ghost predicate LPass(s: seq<int>, c2b: map<int, int>,
                        heads: seq<int>, G: seq<int>, i: int, WL: set<int>) {
    var holds :=
      && Numbering(s, c2b, heads)
      && LScan(s, c2b, heads, G, i, WL)
      && G[0] == |s| - 1
      && LSlots(s, c2b, heads, G, WL);
    holds
  }

  /** A slot of a lower bucket lies before every slot of a higher one. */
  lemma Precedes(s: seq<int>, q: int, q': int, r: int)
    requires 0 <= q < |s| && 0 <= q' < |s| && s[q] < s[q'] && r <= End(s, s[q])
    ensures r < Start(s, s[q'])
  {
    BucketsOrdered(s, s[q], s[q']);
  }

  /** With all sample positions seeded and the heads at the bucket starts, the L-type scan can begin. */
  lemma LPassInit(s: seq<int>, c2b: map<int, int>,
                  tails: seq<int>, heads: seq<int>, G: seq<int>)
    requires Seeding(s, c2b, tails, G, LmsSet(s))
    requires Numbering(s, c2b, heads) && forall c {:trigger Ptr(heads, c2b, c)} :: c in c2b ==> Ptr(heads, c2b, c) == Start(s, c)
    ensures LPass(s, c2b, heads, G, 0, {})
  {
    LScanInit(s, c2b, tails, heads, G);
    LSlotsInit(s, c2b, tails, heads, G);
  }

  /** The scan part of the starting state: nothing induced yet, heads at the bucket starts. */
  lemma LScanInit(s: seq<int>, c2b: map<int, int>,
                  tails: seq<int>, heads: seq<int>, G: seq<int>)
    requires Seeding(s, c2b, tails, G, LmsSet(s))
    requires Numbering(s, c2b, heads) && forall c {:trigger Ptr(heads, c2b, c)} :: c in c2b ==> Ptr(heads, c2b, c) == Start(s, c)
    ensures Numbering(s, c2b, heads) && LScan(s, c2b, heads, G, 0, {})
  {
    forall q | LmsPos(s, q)
      ensures q in G
    {
      assert q in LmsSet(s);
    }
    forall c | c in c2b
      ensures Ptr(heads, c2b, c) == Start(s, c) + |{} * LTypes(s, c)|
    {
      assert {} * LTypes(s, c) == {};
    }
  }

  /** The slot part of the starting state: every filled slot was placed by seeding. */
  lemma LSlotsInit(s: seq<int>, c2b: map<int, int>,
                   tails: seq<int>, heads: seq<int>, G: seq<int>)
    requires Seeding(s, c2b, tails, G, LmsSet(s))
    ensures LSlots(s, c2b, heads, G, {})
  {
    forall r | 0 <= r < |G| && G[r] != Blank
      ensures SType(s, G[r]) ==> Mid(s, s[G[r]]) <= r && (LmsPos(s, G[r]) || Count(s, s[G[r]]) == 1)
      ensures !SType(s, G[r]) ==> r < Mid(s, s[G[r]]) && Count(s, s[G[r]]) == 1 && r == Start(s, s[G[r]])
    {
      SeedPlacement(s, c2b, tails, G, r);
    }
  }

  /** Where a slot filled during seeding lies in its bucket. */
  lemma SeedPlacement(s: seq<int>, c2b: map<int, int>, tails: seq<int>, G: seq<int>, r: int)
    requires InBuckets(s, G) && SeedSlots(s, c2b, tails, G, LmsSet(s)) && TailsBySeeds(s, c2b, tails, LmsSet(s))
    requires forall c :: c in c2b <==> c in s
    requires 0 <= r < |G| && G[r] != Blank
    ensures SType(s, G[r]) ==> Mid(s, s[G[r]]) <= r && (LmsPos(s, G[r]) || Count(s, s[G[r]]) == 1)
    ensures !SType(s, G[r]) ==> r < Mid(s, s[G[r]]) && Count(s, s[G[r]]) == 1 && r == Start(s, s[G[r]])
  {
    var x := G[r];
    var c := s[x];
    TypesSplit(s, c);
    assert Ptr(tails, c2b, c) == End(s, c) - |LmsSet(s) * STypes(s, c)|;
    SubsetCard(LmsSet(s) * STypes(s, c), STypes(s, c));
    if SType(s, x) {
      assert x in STypes(s, c);
      SubsetCard({x}, STypes(s, c));
    } else {
      assert x in LTypes(s, c);
      SubsetCard({x}, LTypes(s, c));
    }
  }

  /** Reading a slot that induces nothing: blank, position 0, or an S-type predecessor. */
  lemma LSkip(s: seq<int>, c2b: map<int, int>,
              heads: seq<int>, G: seq<int>, i: int, WL: set<int>)
    requires LPass(s, c2b, heads, G, i, WL) && i < |s|
    requires G[i] == Blank || G[i] == 0 || (0 < G[i] < |s| && SType(s, G[i] - 1))
    ensures LPass(s, c2b, heads, G, i + 1, WL)
  {
    WLCharNext(s, G, i, WL, -1);
  }

  /**
   * Moving the scan past slot `i` adds to the induced set exactly the
   * predecessor of the position read there, when that is an L-type position
   * (`v` is that predecessor, or -1 when nothing is induced).
   */
  lemma WLCharNext(s: seq<int>, G: seq<int>, i: int, WL: set<int>, v: int)
    requires 0 <= i < |G| && WLChar(s, G, i, WL)
    requires v == -1 ==> G[i] == Blank || G[i] == 0 || (0 < G[i] < |s| && SType(s, G[i] - 1))
    requires v != -1 ==> 0 <= v < |s| && v + 1 == G[i] && !SType(s, v)
    ensures WLChar(s, G, i + 1, if v == -1 then WL else WL + {v})
  {
    var WL' := if v == -1 then WL else WL + {v};
    assert G[..i + 1] == G[..i] + [G[i]];
    forall q
      ensures q in WL' <==> 0 <= q < |s| && !SType(s, q) && q + 1 in G[..i + 1]
    {
      assert q in WL <==> 0 <= q < |s| && !SType(s, q) && q + 1 in G[..i];
    }
  }

  /** The predecessor of the position read at slot `i` has not been induced yet. */
  lemma LWriteFresh(s: seq<int>, G: seq<int>, i: int, WL: set<int>, v: int)
    requires 0 <= i < |G| && Distinct(G) && WLChar(s, G, i, WL) && 0 < G[i] && v == G[i] - 1
    ensures v !in WL
  {
    forall j | 0 <= j < i
      ensures G[..i][j] != G[i]
    {
      DistinctAt(G, i, j);
    }
  }

  /** The head of a bucket with an L-type position not yet induced is inside its L-part. */
  lemma LWriteBelowMid(s: seq<int>, c2b: map<int, int>, heads: seq<int>, WL: set<int>, v: int)
    requires HeadsByWritten(s, c2b, heads, WL)
    requires 0 <= v < |s| && !SType(s, v) && v !in WL && s[v] in c2b
    ensures Start(s, s[v]) <= Ptr(heads, c2b, s[v]) < Mid(s, s[v])
  {
    assert Ptr(heads, c2b, s[v]) == Start(s, s[v]) + |WL * LTypes(s, s[v])|;
    assert v in LTypes(s, s[v]);
    SubsetCard(WL * LTypes(s, s[v]), LTypes(s, s[v]));
  }

  /** An L-type position is followed by a code no larger, and by an L-type one when equal. */
  lemma LTypeNext(s: seq<int>, v: int)
    requires 0 <= v < |s| && !SType(s, v)
    ensures v < |s| - 1 && s[v] >= s[v + 1] && (s[v] == s[v + 1] ==> !SType(s, v + 1))
  {
  }

  /**
   * The head of the predecessor's bucket is past the slot being read: that
   * bucket lies above the slot, or the slot holds an induced L-type position
   * of the same bucket, which sits before the head.
   */
  lemma LWriteAhead(s: seq<int>, c2b: map<int, int>, heads: seq<int>, G: seq<int>, i: int, WL: set<int>, v: int)
    requires LScan(s, c2b, heads, G, i, WL) && LSlots(s, c2b, heads, G, WL) && i < |s|
    requires 0 < G[i] < |s| && v == G[i] - 1 && !SType(s, v)
    ensures i < Ptr(heads, c2b, s[v])
  {
    assert s[v] in c2b by {
      assert s[v] in s;
    }
    assert Ptr(heads, c2b, s[v]) == Start(s, s[v]) + |WL * LTypes(s, s[v])|;
    LTypeNext(s, v);
    if s[v] != s[v + 1] {
      Precedes(s, v + 1, v, i);
    } else {
      UniqueCode(s, v, v + 1);
    }
  }

  /** The head slot is free or already holds `v`, and `v` fills no other slot. */
  lemma LWriteFree(s: seq<int>, c2b: map<int, int>, heads: seq<int>, G: seq<int>, WL: set<int>, v: int, h: int)
    requires InBuckets(s, G) && LSlots(s, c2b, heads, G, WL)
    requires 0 <= v < |s| && !SType(s, v) && v !in WL
    requires h == Ptr(heads, c2b, s[v]) && Start(s, s[v]) <= h < Mid(s, s[v]) && 0 <= h < |G|
    ensures (G[h] == Blank || G[h] == v) && OnlyAt(G, h, v)
  {
    var c := s[v];
    TypesSplit(s, c);
    if G[h] != Blank {
      SameBucket(s, s[G[h]], c, h);
      UniqueCode(s, G[h], v);
    }
    forall r | 0 <= r < |G| && r != h
      ensures G[r] != v
    {
    }
  }

  /** The L-type predecessor of the position at slot `i`, by name. */
  lemma Predecessor(s: seq<int>, G: seq<int>, i: int) returns (v: int)
    requires 0 <= i < |G| && 0 < G[i] < |s| && !SType(s, G[i] - 1)
    ensures v == G[i] - 1 && 0 <= v < |s| && !SType(s, v)
  {
    v := G[i] - 1;
  }

  /**
   * Reading a position at slot `i` whose predecessor `v` is L-type: the
   * head `h` of `v`'s bucket lies past the scan and inside the L-part, on a
   * free slot or on `v` itself, and `v` has not been induced before.
   */
  lemma LWriteSlot(s: seq<int>, c2b: map<int, int>,
                   heads: seq<int>, G: seq<int>, i: int, WL: set<int>) returns (v: int, h: int)
    requires LPass(s, c2b, heads, G, i, WL) && i < |s|
    requires 0 < G[i] < |s| && !SType(s, G[i] - 1)
    ensures LWriteAt(s, c2b, heads, G, i, WL, v, h)
  {
    v := Predecessor(s, G, i);
    LWriteFresh(s, G, i, WL, v);
    assert s[v] in c2b by {
      assert s[v] in s;
    }
    LWriteBelowMid(s, c2b, heads, WL, v);
    PosBucket(s, v);
    assert !SType(s, G[i]) ==> i < Mid(s, s[G[i]]);
    LWriteAhead(s, c2b, heads, G, i, WL, v);
    h := Ptr(heads, c2b, s[v]);
    LWriteFree(s, c2b, heads, G, WL, v, h);
  }

  /** Filling a free slot with a new L-type position loses no position already present. */
  lemma LWritePresent(s: seq<int>, G: seq<int>, WL: set<int>, v: int, h: int)
    requires LmsPresent(s, G) && Present(G, WL) && Blank !in WL
    requires 0 <= v < |s| && !SType(s, v) && v !in WL
    requires 0 <= h < |G| && (G[h] == Blank || G[h] == v)
    ensures LmsPresent(s, G[h := v]) && Present(G[h := v], WL + {v})
  {
    var G' := G[h := v];
    forall q | LmsPos(s, q)
      ensures q in G'
    {
      assert q in G && q != v;
      var r :| 0 <= r < |G| && G[r] == q;
      assert G'[r] == q;
    }
    forall q | q in WL + {v}
      ensures q in G'
    {
      if q == v {
        assert G'[h] == v;
      } else {
        assert q in G;
        var r :| 0 <= r < |G| && G[r] == q;
        assert G'[r] == q;
      }
    }
  }

  /** Moving the head of `v`'s bucket one slot on counts `v` as induced. */
  lemma LWriteHeads(s: seq<int>, c2b: map<int, int>, heads: seq<int>, heads': seq<int>, WL: set<int>, v: int, h: int)
    requires HeadsByWritten(s, c2b, heads, WL) && 0 <= v < |s| && !SType(s, v) && v !in WL
    requires h == Ptr(heads, c2b, s[v]) && Bumped(heads, heads', c2b, s[v], h + 1)
    ensures HeadsByWritten(s, c2b, heads', WL + {v})
  {
    forall d | d in c2b
      ensures Ptr(heads', c2b, d) == Start(s, d) + |(WL + {v}) * LTypes(s, d)|
    {
      assert Ptr(heads, c2b, d) == Start(s, d) + |WL * LTypes(s, d)|;
      ShareGrows(WL, v, LTypes(s, d));
    }
  }

  /** Every slot keeps its place in its bucket's L- or S-part. */
  lemma LWriteSlots(s: seq<int>, c2b: map<int, int>, heads: seq<int>, heads': seq<int>,
                    G: seq<int>, WL: set<int>, v: int, h: int)
    requires InBuckets(s, G) && LSlots(s, c2b, heads, G, WL)
    requires 0 <= v < |s| && !SType(s, v) && OnlyAt(G, h, v)
    requires h == Ptr(heads, c2b, s[v]) && Start(s, s[v]) <= h < Mid(s, s[v]) && 0 <= h < |G|
    requires Bumped(heads, heads', c2b, s[v], h + 1)
    ensures InBuckets(s, G[h := v]) && LSlots(s, c2b, heads', G[h := v], WL + {v})
  {
    PosBucket(s, v);
    InBucketsWrite(s, G, h, v);
    var G' := G[h := v];
    var WL' := WL + {v};
    forall r | 0 <= r < |G'| && G'[r] != Blank
      ensures if SType(s, G'[r]) then
          Mid(s, s[G'[r]]) <= r && (LmsPos(s, G'[r]) || Count(s, s[G'[r]]) == 1)
        else
          && r < Mid(s, s[G'[r]])
          && ((G'[r] in WL' && r < Ptr(heads', c2b, s[G'[r]])) ||
              (G'[r] !in WL' && Count(s, s[G'[r]]) == 1 && r == Start(s, s[G'[r]])))
    {
      if r != h {
        assert G'[r] == G[r] && G[r] != v;
        assert Ptr(heads', c2b, s[G[r]]) >= Ptr(heads, c2b, s[G[r]]);
      }
    }
  }

  /**
   * The write the L-type scan makes at slot `i`: `v`, the L-type predecessor
   * of the position read there, goes to the head `h` of its bucket, which
   * lies past the scan inside the bucket's L-part, on a free slot or on `v`
   * itself; `v` has not been induced before and fills no other slot.
   */
  ghost predicate LWriteAt(s: seq<int>, c2b: map<int, int>, heads: seq<int>, G: seq<int>,
                           i: int, WL: set<int>, v: int, h: int) {
    var holds :=
      && 0 <= i < |G| && 0 < G[i] < |s| && v == G[i] - 1 && !SType(s, v)
      && s[v] in c2b && h == Ptr(heads, c2b, s[v])
      && Start(s, s[v]) <= h < Mid(s, s[v]) && i < h < |s| && h < |G|
      && v !in WL && (G[h] == Blank || G[h] == v) && OnlyAt(G, h, v);
    holds
  }

  /** After the write, every slot is still in place and no position is lost or doubled. */
  lemma LWriteGrid(s: seq<int>, c2b: map<int, int>, heads: seq<int>, heads': seq<int>,
                   G: seq<int>, i: int, WL: set<int>, v: int, h: int)
    requires LWriteAt(s, c2b, heads, G, i, WL, v, h) && Bumped(heads, heads', c2b, s[v], h + 1)
    requires InBuckets(s, G) && Distinct(G) && LmsPresent(s, G) && Present(G, WL)
    requires LSlots(s, c2b, heads, G, WL) && WLChar(s, G, i, WL)
    ensures InBuckets(s, G[h := v]) && LSlots(s, c2b, heads', G[h := v], WL + {v})
    ensures Distinct(G[h := v]) && LmsPresent(s, G[h := v]) && Present(G[h := v], WL + {v})
    ensures WLChar(s, G[h := v], i + 1, WL + {v})
  {
    LWriteSlots(s, c2b, heads, heads', G, WL, v, h);
    assert Blank !in WL;
    LWritePresent(s, G, WL, v, h);
    DistinctWrite(G, h, v);
    WLCharNext(s, G, i, WL, v);
    assert G[h := v][..i + 1] == G[..i + 1];
  }

  /**
   * Inducing `v`, the L-type predecessor of the position read at slot `i`,
   * at the head `h` of its bucket, after which that head moves one slot on:
   * the state after one step of the scan.
   */
  lemma LWriteState(s: seq<int>, c2b: map<int, int>,
                    heads: seq<int>, G: seq<int>, i: int, WL: set<int>, v: int, h: int)
    requires LPass(s, c2b, heads, G, i, WL) && LWriteAt(s, c2b, heads, G, i, WL, v, h)
    ensures LPass(s, c2b, LStepHeads(s, c2b, heads, G, i), LStepSlots(s, c2b, heads, G, i), i + 1, WL + {v})
  {
    LWriteScan(s, c2b, heads, G, i, WL, v, h);
    LStepWrites(s, c2b, heads, G, i, WL, v, h);
    LPassIntro(s, c2b, LStepHeads(s, c2b, heads, G, i), LStepSlots(s, c2b, heads, G, i), i + 1, WL + {v});
  }

  lemma LPassIntro(s: seq<int>, c2b: map<int, int>,
                   heads: seq<int>, G: seq<int>, i: int, WL: set<int>)
    requires Numbering(s, c2b, heads)
    requires LScan(s, c2b, heads, G, i, WL) && 0 < |G| && G[0] == |s| - 1
    requires LSlots(s, c2b, heads, G, WL)
    ensures LPass(s, c2b, heads, G, i, WL)
  {
  }

  /** The scan state after the write, from the scan state before it; `k` is the bucket of `v`. */
  lemma LWriteScan(s: seq<int>, c2b: map<int, int>,
                   heads: seq<int>, G: seq<int>, i: int, WL: set<int>, v: int, h: int)
    requires Numbering(s, c2b, heads)
    requires LScan(s, c2b, heads, G, i, WL) && LSlots(s, c2b, heads, G, WL)
    requires LWriteAt(s, c2b, heads, G, i, WL, v, h)
    ensures 0 <= c2b[s[v]] < |heads| && 0 < h < |G| && InBuckets(s, G[h := v])
    ensures LScan(s, c2b, heads[c2b[s[v]] := h + 1], G[h := v], i + 1, WL + {v})
    ensures LSlots(s, c2b, heads[c2b[s[v]] := h + 1], G[h := v], WL + {v})
  {
    var k := c2b[s[v]];
    PtrUpdate(s, c2b, heads, s[v], k, h + 1);
    var heads' := heads[k := h + 1];
    LWriteHeads(s, c2b, heads, heads', WL, v, h);
    LWriteGrid(s, c2b, heads, heads', G, i, WL, v, h);
  }

  // ---------------------------------------------------------------------------
  // The L-type scan as a function of its starting pointers and slots.

  /**
   * The position the L-type scan induces when it reads slot `i`: the
   * predecessor of the position found there, when that predecessor is
   * L-type and the head of its bucket is a slot; -1 when nothing is induced.
   */
  ghost function LTarget(s: seq<int>, c2b: map<int, int>, heads: seq<int>, G: seq<int>, i: int): int {
    if 0 <= i < |G| && 0 < G[i] < |s| && !SType(s, G[i] - 1) then
      var v := G[i] - 1;
      if s[v] in c2b && 0 <= c2b[s[v]] < |heads| && 0 <= heads[c2b[s[v]]] < |G| then v else -1
    else
      -1
  }

  /** The heads after reading slot `i`. */
  ghost function LStepHeads(s: seq<int>, c2b: map<int, int>, heads: seq<int>, G: seq<int>, i: int): seq<int> {
    var v := LTarget(s, c2b, heads, G, i);
    if v < 0 then heads else heads[c2b[s[v]] := heads[c2b[s[v]]] + 1]
  }

  /** The slots after reading slot `i`. */
  ghost function LStepSlots(s: seq<int>, c2b: map<int, int>, heads: seq<int>, G: seq<int>, i: int): seq<int> {
    var v := LTarget(s, c2b, heads, G, i);
    if v < 0 then G else G[heads[c2b[s[v]]] := v]
  }

  /** The heads after the L-type scan has read slots `0 .. i-1`. */
  ghost function LRunHeads(s: seq<int>, c2b: map<int, int>, heads: seq<int>, G: seq<int>, i: nat): seq<int> {
    if i == 0 then heads
    else LStepHeads(s, c2b, LRunHeads(s, c2b, heads, G, i - 1), LRunSlots(s, c2b, heads, G, i - 1), i - 1)
  }

  /** The slots after the L-type scan has read slots `0 .. i-1`. */
  ghost function LRunSlots(s: seq<int>, c2b: map<int, int>, heads: seq<int>, G: seq<int>, i: nat): seq<int> {
    if i == 0 then G
    else LStepSlots(s, c2b, LRunHeads(s, c2b, heads, G, i - 1), LRunSlots(s, c2b, heads, G, i - 1), i - 1)
  }

  /** Reading a slot that induces `v`, the predecessor of the position found there. */
  lemma LStepWrite(s: seq<int>, c2b: map<int, int>, heads: seq<int>, G: seq<int>, i: int, WL: set<int>)
    returns (WL': set<int>)
    requires LPass(s, c2b, heads, G, i, WL) && i < |s|
    requires 0 < G[i] < |s| && !SType(s, G[i] - 1)
    ensures LPass(s, c2b, LStepHeads(s, c2b, heads, G, i), LStepSlots(s, c2b, heads, G, i), i + 1, WL')
  {
    var v, h := LWriteSlot(s, c2b, heads, G, i, WL);
    LWriteState(s, c2b, heads, G, i, WL, v, h);
    WL' := WL + {v};
  }

  /** Reading one slot keeps the L-type scan state; `WL'` is the new set of induced positions. */
  lemma LStepPass(s: seq<int>, c2b: map<int, int>, heads: seq<int>, G: seq<int>, i: int, WL: set<int>)
    returns (WL': set<int>)
    requires LPass(s, c2b, heads, G, i, WL) && i < |s|
    ensures LPass(s, c2b, LStepHeads(s, c2b, heads, G, i), LStepSlots(s, c2b, heads, G, i), i + 1, WL')
  {
    if 0 < G[i] < |s| && !SType(s, G[i] - 1) {
      WL' := LStepWrite(s, c2b, heads, G, i, WL);
    } else {
      LSkip(s, c2b, heads, G, i, WL);
      LStepSkips(s, c2b, heads, G, i);
      WL' := WL;
    }
  }

  /** Every prefix of the L-type scan keeps its state. */
  lemma {:induction false} LRunPass(s: seq<int>, c2b: map<int, int>, heads: seq<int>, G: seq<int>, i: nat)
    returns (WL: set<int>)
    requires LPass(s, c2b, heads, G, 0, {}) && i <= |s|
    ensures LPass(s, c2b, LRunHeads(s, c2b, heads, G, i), LRunSlots(s, c2b, heads, G, i), i, WL)
  {
    if i == 0 {
      WL := {};
    } else {
      var j := i - 1;
      assert j + 1 == i;
      var WL0 := LRunPass(s, c2b, heads, G, j);
      WL := LRunStep(s, c2b, heads, G, j, WL0);
    }
  }

  /** One more slot of the scan keeps its state. */
  lemma LRunStep(s: seq<int>, c2b: map<int, int>, heads: seq<int>, G: seq<int>, i: nat, WL: set<int>)
    returns (WL': set<int>)
    requires LPass(s, c2b, LRunHeads(s, c2b, heads, G, i), LRunSlots(s, c2b, heads, G, i), i, WL) && i < |s|
    ensures LPass(s, c2b, LRunHeads(s, c2b, heads, G, i + 1), LRunSlots(s, c2b, heads, G, i + 1), i + 1, WL')
  {
    WL' := LStepPass(s, c2b, LRunHeads(s, c2b, heads, G, i), LRunSlots(s, c2b, heads, G, i), i, WL);
  }

  /** When slot `i` induces a position whose head `h` is a slot, the step writes it there. */
  lemma LStepWrites(s: seq<int>, c2b: map<int, int>, heads: seq<int>, G: seq<int>, i: int, WL: set<int>, v: int, h: int)
    requires Numbering(s, c2b, heads) && LWriteAt(s, c2b, heads, G, i, WL, v, h)
    ensures LTarget(s, c2b, heads, G, i) == v
    ensures LStepHeads(s, c2b, heads, G, i) == heads[c2b[s[v]] := h + 1]
    ensures LStepSlots(s, c2b, heads, G, i) == G[h := v]
  {
  }

  /** A slot whose position has no L-type predecessor induces nothing. */
  lemma LStepSkips(s: seq<int>, c2b: map<int, int>, heads: seq<int>, G: seq<int>, i: int)
    requires 0 <= i < |G| && !(0 < G[i] < |s| && !SType(s, G[i] - 1))
    ensures LStepHeads(s, c2b, heads, G, i) == heads && LStepSlots(s, c2b, heads, G, i) == G
  {
  }
}
