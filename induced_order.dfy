/**
 * The order `inducedSort` leaves the suffixes in within each bucket.
 *
 * `KeySorted(s, G, sc)` says that of two positions with the same code, the
 * one in the later slot never has the smaller key of scope `sc`.  Every
 * phase of the ghost runs keeps it: phase 1 places no two positions of the
 * same code, seeding keeps it when the seeds of each bucket come in the
 * order of their keys, and the two scans keep it because each position
 * they place is compared by the key of the position after it, which the
 * scan has already read in order.
 *
 * With keys reaching to the next sample position (`FirstPass`) this sorts
 * the sample substrings; with keys reaching to the end of the text, from
 * seeds in descending suffix order (`FinalPass`), it sorts the suffixes.
 */
module InducedOrder {
  import opened Lex
  import opened SaisSpec
  import opened Induce
  import opened InduceS
  import opened InducedSort
  import opened Keys

  /** Position `y`, in a later slot than `x`, does not have the smaller key when both hold the same code. */
  ghost predicate NotAfter(s: seq<int>, sc: Scope, x: int, y: int) {
    0 <= x < |s| && 0 <= y < |s| && s[x] == s[y] ==> !Less(Key(s, y, sc), Key(s, x, sc))
  }

  /** Within each bucket, the positions of `G` come in non-decreasing order of their keys. */
  ghost predicate KeySorted(s: seq<int>, G: seq<int>, sc: Scope) {
    var holds :=
      forall a, b {:trigger At(G, a), At(G, b)} :: 0 <= a < b < |G| ==> NotAfter(s, sc, At(G, a), At(G, b));
    holds
  }

  lemma SortedAt(s: seq<int>, G: seq<int>, sc: Scope, a: int, b: int)
    requires KeySorted(s, G, sc) && 0 <= a < b < |G|
    ensures NotAfter(s, sc, G[a], G[b])
  {
    assert At(G, a) == G[a] && At(G, b) == G[b];
  }

  /**
   * Of two positions in slots `a < b` of a bucket-sorted picture, the later
   * one does not have the smaller key, whatever their codes.
   */
  lemma SlotOrder(s: seq<int>, G: seq<int>, sc: Scope, a: int, b: int, p: int, q: int)
    requires InBuckets(s, G) && KeySorted(s, G, sc) && 0 <= a < b < |G| && G[a] == p && G[b] == q
    requires p != Blank && q != Blank
    ensures 0 <= p < |s| && 0 <= q < |s| && !Less(Key(s, q, sc), Key(s, p, sc))
  {
    SortedAt(s, G, sc, a, b);
    if s[p] != s[q] {
      if s[q] < s[p] {
        Precedes(s, q, p, b);
        assert false;
      }
      EncLess(s, p, q);
      KeyFirst(s, p, q, sc, sc);
    }
  }

  /** Writing `x` into slot `h` keeps the order when `x` fits between the slots before and after it. */
  lemma SortedWrite(s: seq<int>, G: seq<int>, sc: Scope, h: int, x: int)
    requires KeySorted(s, G, sc) && 0 <= h < |G|
    requires forall a :: 0 <= a < h ==> NotAfter(s, sc, G[a], x)
    requires forall b :: h < b < |G| ==> NotAfter(s, sc, x, G[b])
    ensures KeySorted(s, G[h := x], sc)
  {
    var G' := G[h := x];
    forall a, b | 0 <= a < b < |G'|
      ensures NotAfter(s, sc, At(G', a), At(G', b))
    {
      if a != h && b != h {
        SortedAt(s, G, sc, a, b);
      }
    }
  }

  // ---------------------------------------------------------------------------
  // Phase 1 and seeding.

  /** No two positions placed by phase 1 share a code. */
  lemma PreRunOrder(s: seq<int>, sc: Scope)
    ensures KeySorted(s, PreRun(s, |s|), sc)
  {
    var G := PreRun(s, |s|);
    PreRunPlaced(s, |s|);
    forall a, b | 0 <= a < b < |G|
      ensures NotAfter(s, sc, At(G, a), At(G, b))
    {
      var x, y := G[a], G[b];
      if 0 <= x < |s| && 0 <= y < |s| && s[x] == s[y] {
        assert x != Blank;
        UniqueCode(s, x, y);
        assert false;
      }
    }
  }

  /** Of two seeds of the same bucket, the earlier never has the smaller key. */
  ghost predicate SeedsSorted(s: seq<int>, seeds: seq<int>, sc: Scope) {
    forall j, k :: 0 <= j < k < |seeds| && 0 <= seeds[j] < |s| && 0 <= seeds[k] < |s| && s[seeds[j]] == s[seeds[k]] ==>
      !Less(Key(s, seeds[j], sc), Key(s, seeds[k], sc))
  }

  /** Keys that stop at the first sample position do not tell sample positions of one bucket apart. */
  lemma ThroughSeedsSorted(s: seq<int>, seeds: seq<int>)
    requires SeedOrder(s, seeds)
    ensures SeedsSorted(s, seeds, Through)
  {
    forall j, k | 0 <= j < k < |seeds| && 0 <= seeds[j] < |s| && 0 <= seeds[k] < |s| && s[seeds[j]] == s[seeds[k]]
      ensures !Less(Key(s, seeds[j], Through), Key(s, seeds[k], Through))
    {
      var x, y := seeds[j], seeds[k];
      assert LmsPos(s, x) && LmsPos(s, y);
      EncSame(s, x, y);
      assert Key(s, x, Through) == [Enc(s, x)] == [Enc(s, y)] == Key(s, y, Through);
      LessIrreflexive(Key(s, x, Through));
    }
  }

  /** Seeding `x` at the tail `h` of its bucket, after the seeds `P` of larger key. */
  lemma SeedWriteOrder(s: seq<int>, c2b: map<int, int>, tails: seq<int>, G: seq<int>, P: set<int>, x: int, h: int, sc: Scope)
    requires Seeding(s, c2b, tails, G, P) && LmsPos(s, x) && x !in P && KeySorted(s, G, sc)
    requires forall w :: w in P && 0 <= w < |s| && s[w] == s[x] ==> !Less(Key(s, w, sc), Key(s, x, sc))
    requires h == Ptr(tails, c2b, s[x]) && 0 <= h < |G|
    ensures KeySorted(s, G[h := x], sc)
  {
    SeedSlot(s, c2b, tails, G, P, x);
    forall a | 0 <= a < h
      ensures NotAfter(s, sc, G[a], x)
    {
      var u := G[a];
      if 0 <= u < |s| && s[u] == s[x] {
        assert u != x;
        UniqueCode(s, u, x);
        assert false;
      }
    }
    forall b | h < b < |G|
      ensures NotAfter(s, sc, x, G[b])
    {
      var w := G[b];
      if 0 <= w < |s| && s[w] == s[x] {
        UniqueCode(s, w, x);
      }
    }
    SortedWrite(s, G, sc, h, x);
  }

  /** One seed more keeps the order. */
  lemma SeedRunOrderStep(s: seq<int>, c2b: map<int, int>, tails: seq<int>, G: seq<int>, seeds: seq<int>, i: nat, k: nat, sc: Scope)
    requires k == i + 1 && i < |seeds| && SeedOrder(s, seeds) && SeedsSorted(s, seeds, sc)
    requires Seeding(s, c2b, SeedRunTails(s, c2b, tails, seeds, i), SeedRunSlots(s, c2b, tails, G, seeds, i), SeedSet(seeds, i))
    requires KeySorted(s, SeedRunSlots(s, c2b, tails, G, seeds, i), sc)
    ensures KeySorted(s, SeedRunSlots(s, c2b, tails, G, seeds, k), sc)
  {
    var T := SeedRunTails(s, c2b, tails, seeds, i);
    var G0 := SeedRunSlots(s, c2b, tails, G, seeds, i);
    var P := SeedSet(seeds, i);
    var x := seeds[i];
    assert x !in P;
    forall w | w in P && 0 <= w < |s| && s[w] == s[x]
      ensures !Less(Key(s, w, sc), Key(s, x, sc))
    {
      var j :| 0 <= j < i && j < |seeds| && seeds[j] == w;
    }
    var h := Ptr(T, c2b, s[x]);
    SeedSlot(s, c2b, T, G0, P, x);
    SeedWriteOrder(s, c2b, T, G0, P, x, h, sc);
    SeedStepWrites(s, c2b, T, G0, x, h);
    SeedRunNext(s, c2b, tails, G, seeds, i, k);
  }

  /** Seeding `seeds[..k]` keeps the order. */
  lemma {:induction false} SeedRunOrder(s: seq<int>, c2b: map<int, int>, tails: seq<int>, G: seq<int>, seeds: seq<int>, k: nat, sc: Scope)
    requires Seeding(s, c2b, tails, G, {}) && SeedOrder(s, seeds) && SeedsSorted(s, seeds, sc) && k <= |seeds|
    requires KeySorted(s, G, sc)
    ensures KeySorted(s, SeedRunSlots(s, c2b, tails, G, seeds, k), sc)
  {
    if k > 0 {
      var i := k - 1;
      assert i + 1 == k;
      SeedRunOrder(s, c2b, tails, G, seeds, i, sc);
      SeedRunSeeding(s, c2b, tails, G, seeds, i);
      SeedRunOrderStep(s, c2b, tails, G, seeds, i, k, sc);
    }
  }

  /** Positions alike in code and type, whose keys continue with their successors', are ordered as those successors. */
  lemma PredOrder(s: seq<int>, sc: Scope, u: int, v: int)
    requires 0 <= u && 0 <= v && u + 1 < |s| && v + 1 < |s| && Enc(s, u) == Enc(s, v)
    requires Key(s, u, sc) == [Enc(s, u)] + Key(s, u + 1, sc) && Key(s, v, sc) == [Enc(s, v)] + Key(s, v + 1, sc)
    requires !Less(Key(s, v + 1, sc), Key(s, u + 1, sc))
    ensures !Less(Key(s, v, sc), Key(s, u, sc))
  {
    KeyTail(Key(s, v, sc), Key(s, u, sc), Enc(s, v), Key(s, v + 1, sc), Key(s, u + 1, sc));
  }

  // ---------------------------------------------------------------------------
  // The L-type scan.

  /** An induced L-type position below the head comes after an earlier-read successor. */
  lemma LBelowOrder(s: seq<int>, c2b: map<int, int>, heads: seq<int>, G: seq<int>, i: int, WL: set<int>,
                    v: int, h: int, a: int, sc: Scope)
    requires LPass(s, c2b, heads, G, i, WL) && LWriteAt(s, c2b, heads, G, i, WL, v, h)
    requires LScope(sc) && KeySorted(s, G, sc) && 0 <= a < h
    ensures NotAfter(s, sc, G[a], v)
  {
    var u := G[a];
    if 0 <= u < |s| && s[u] == s[v] {
      LBelowInduced(s, c2b, heads, G, i, WL, v, h, a);
      var a' := LBelowRead(s, G, i, WL, u);
      LCompare(s, G, sc, a', i, u, v);
    }
  }

  /** An induced L-type position has its successor in a slot the scan has read. */
  lemma LBelowRead(s: seq<int>, G: seq<int>, i: int, WL: set<int>, u: int) returns (a': int)
    requires 0 <= i <= |G| && WLChar(s, G, i, WL) && u in WL
    ensures 0 <= a' < i && G[a'] == u + 1
  {
    assert u + 1 in G[..i];
    a' := InPrefix(G, i, u + 1);
  }

  /** Where a value of a prefix of `G` sits. */
  lemma InPrefix(G: seq<int>, i: int, x: int) returns (a: int)
    requires 0 <= i <= |G| && x in G[..i]
    ensures 0 <= a < i && G[a] == x
  {
    a :| 0 <= a < i && G[..i][a] == x;
  }

  /** A position of `v`'s code below the head is an induced L-type position. */
  lemma LBelowInduced(s: seq<int>, c2b: map<int, int>, heads: seq<int>, G: seq<int>, i: int, WL: set<int>,
                      v: int, h: int, a: int)
    requires LPass(s, c2b, heads, G, i, WL) && LWriteAt(s, c2b, heads, G, i, WL, v, h)
    requires 0 <= a < h && 0 <= G[a] < |s| && s[G[a]] == s[v]
    ensures !SType(s, G[a]) && G[a] in WL
  {
    var u := G[a];
    assert u != v;
    if SType(s, u) || u !in WL {
      UniqueCode(s, u, v);
      assert false;
    }
  }

  /** Two L-type positions of one code are ordered as their successors, read at `a' < i`. */
  lemma LCompare(s: seq<int>, G: seq<int>, sc: Scope, a': int, i: int, u: int, v: int)
    requires InBuckets(s, G) && KeySorted(s, G, sc) && LScope(sc) && 0 <= a' < i < |G|
    requires 0 <= u < |s| && 0 <= v < |s| && G[a'] == u + 1 && G[i] == v + 1
    requires !SType(s, u) && !SType(s, v) && s[u] == s[v]
    ensures !Less(Key(s, v, sc), Key(s, u, sc))
  {
    SlotOrder(s, G, sc, a', i, u + 1, v + 1);
    LKey(s, u, sc);
    LKey(s, v, sc);
    EncSame(s, u, v);
    PredOrder(s, sc, u, v);
  }

  /** Past the head of its bucket there is no L-type position of `v`'s code. */
  lemma LAboveOrder(s: seq<int>, c2b: map<int, int>, heads: seq<int>, G: seq<int>, i: int, WL: set<int>,
                    v: int, h: int, b: int, sc: Scope)
    requires LPass(s, c2b, heads, G, i, WL) && LWriteAt(s, c2b, heads, G, i, WL, v, h)
    requires h < b < |G|
    ensures NotAfter(s, sc, v, G[b])
  {
    var w := G[b];
    if 0 <= w < |s| && s[w] == s[v] {
      assert w != v;
      if !SType(s, w) {
        UniqueCode(s, w, v);
      }
      EncLess(s, v, w);
      KeyFirst(s, v, w, sc, sc);
    }
  }

  /** One write of the L-type scan keeps the order. */
  lemma LWriteOrder(s: seq<int>, c2b: map<int, int>, heads: seq<int>, G: seq<int>, i: int, WL: set<int>,
                    v: int, h: int, sc: Scope)
    requires LPass(s, c2b, heads, G, i, WL) && LWriteAt(s, c2b, heads, G, i, WL, v, h)
    requires LScope(sc) && KeySorted(s, G, sc)
    ensures KeySorted(s, G[h := v], sc)
  {
    forall a | 0 <= a < h
      ensures NotAfter(s, sc, G[a], v)
    {
      LBelowOrder(s, c2b, heads, G, i, WL, v, h, a, sc);
    }
    forall b | h < b < |G|
      ensures NotAfter(s, sc, v, G[b])
    {
      LAboveOrder(s, c2b, heads, G, i, WL, v, h, b, sc);
    }
    SortedWrite(s, G, sc, h, v);
  }

  /** One slot of the L-type scan keeps the order. */
  lemma LStepOrder(s: seq<int>, c2b: map<int, int>, heads: seq<int>, G: seq<int>, i: int, WL: set<int>, sc: Scope)
    requires LPass(s, c2b, heads, G, i, WL) && i < |s| && LScope(sc) && KeySorted(s, G, sc)
    ensures KeySorted(s, LStepSlots(s, c2b, heads, G, i), sc)
  {
    if 0 < G[i] < |s| && !SType(s, G[i] - 1) {
      var v, h := LWriteSlot(s, c2b, heads, G, i, WL);
      LWriteOrder(s, c2b, heads, G, i, WL, v, h, sc);
      LStepWrites(s, c2b, heads, G, i, WL, v, h);
    } else {
      LStepSkips(s, c2b, heads, G, i);
    }
  }

  /** Every prefix of the L-type scan keeps the order. */
  lemma {:induction false} LRunOrder(s: seq<int>, c2b: map<int, int>, heads: seq<int>, G: seq<int>, i: nat, sc: Scope)
    requires LPass(s, c2b, heads, G, 0, {}) && i <= |s| && LScope(sc) && KeySorted(s, G, sc)
    ensures KeySorted(s, LRunSlots(s, c2b, heads, G, i), sc)
  {
    if i > 0 {
      var j := i - 1;
      LRunOrder(s, c2b, heads, G, j, sc);
      var WL := LRunPass(s, c2b, heads, G, j);
      LRunOrderStep(s, c2b, heads, G, j, i, WL, sc);
    }
  }

  /** One more slot of the L-type scan keeps the order. */
  lemma LRunOrderStep(s: seq<int>, c2b: map<int, int>, heads: seq<int>, G: seq<int>, j: nat, i: nat, WL: set<int>, sc: Scope)
    requires i == j + 1 && j < |s| && LScope(sc)
    requires LPass(s, c2b, LRunHeads(s, c2b, heads, G, j), LRunSlots(s, c2b, heads, G, j), j, WL)
    requires KeySorted(s, LRunSlots(s, c2b, heads, G, j), sc)
    ensures KeySorted(s, LRunSlots(s, c2b, heads, G, i), sc)
  {
    LStepOrder(s, c2b, LRunHeads(s, c2b, heads, G, j), LRunSlots(s, c2b, heads, G, j), j, WL, sc);
  }

  // ---------------------------------------------------------------------------
  // The S-type scan.

  /** The scope the S-type scan orders by, after an L-type scan that ordered by `sc`. */
  function Later(sc: Scope): Scope {
    if sc == Through then Beyond else sc
  }

  /**
   * Clearing the seeds keeps the order; the positions left in a shared
   * bucket are L-type, whose keys are the same in both scopes.
   */
  lemma ProjectOrder(s: seq<int>, c2b: map<int, int>, heads: seq<int>, G: seq<int>, WL: set<int>, sc: Scope)
    requires LPass(s, c2b, heads, G, |s|, WL) && KeySorted(s, G, sc)
    ensures KeySorted(s, Project(s, G), Later(sc))
  {
    var Gp := Project(s, G);
    forall a, b | 0 <= a < b < |Gp|
      ensures NotAfter(s, Later(sc), At(Gp, a), At(Gp, b))
    {
      var x, y := Gp[a], Gp[b];
      if 0 <= x < |s| && 0 <= y < |s| && s[x] == s[y] {
        assert x == G[a] && y == G[b];
        DistinctAt(G, a, b);
        SortedAt(s, G, sc, a, b);
        if SType(s, x) || SType(s, y) {
          UniqueCode(s, x, y);
          assert false;
        }
        BeyondThrough(s, x);
        BeyondThrough(s, y);
      }
    }
  }

  /** Below the tail of its bucket there is no S-type position of `v`'s code. */
  lemma SBelowOrder(s: seq<int>, c2b: map<int, int>, tails: seq<int>, G: seq<int>, i: int, WS: set<int>,
                    v: int, t: int, a: int, sc: Scope)
    requires SPass(s, c2b, tails, G, i + 1, WS) && SWriteAt(s, c2b, tails, G, i, WS, v, t)
    requires 0 <= a < t
    ensures NotAfter(s, sc, G[a], v)
  {
    var u := G[a];
    if 0 <= u < |s| && s[u] == s[v] {
      assert u != v;
      if SType(s, u) {
        UniqueCode(s, u, v);
      }
      EncLess(s, u, v);
      KeyFirst(s, u, v, sc, sc);
    }
  }

  /** An induced S-type position above the tail comes before a later-read successor. */
  lemma SAboveOrder(s: seq<int>, c2b: map<int, int>, tails: seq<int>, G: seq<int>, i: int, WS: set<int>,
                    v: int, t: int, b: int, sc: Scope)
    requires SPass(s, c2b, tails, G, i + 1, WS) && SWriteAt(s, c2b, tails, G, i, WS, v, t)
    requires SScope(sc) && KeySorted(s, G, sc) && t < b < |G|
    ensures NotAfter(s, sc, v, G[b])
  {
    var w := G[b];
    if 0 <= w < |s| && s[w] == s[v] {
      var b' := SAboveRead(s, c2b, tails, G, i, WS, v, t, b);
      SCompare(s, G, sc, i, b', v, w);
    }
  }

  /** A position of `v`'s code above the tail is an induced S-type position, whose successor was read at `b'`. */
  lemma SAboveRead(s: seq<int>, c2b: map<int, int>, tails: seq<int>, G: seq<int>, i: int, WS: set<int>,
                   v: int, t: int, b: int) returns (b': int)
    requires SPass(s, c2b, tails, G, i + 1, WS) && SWriteAt(s, c2b, tails, G, i, WS, v, t)
    requires t < b < |G| && 0 <= G[b] < |s| && s[G[b]] == s[v]
    ensures i < b' < |G| && G[b'] == G[b] + 1 && SType(s, G[b])
  {
    var w := G[b];
    assert w != v;
    if !SType(s, w) || w !in WS {
      UniqueCode(s, w, v);
      assert false;
    }
    assert w + 1 in G[i + 1..];
    b' := InSuffix(G, i + 1, w + 1);
  }

  /** Where a value of a suffix of `G` sits. */
  lemma InSuffix(G: seq<int>, j: int, x: int) returns (b: int)
    requires 0 <= j <= |G| && x in G[j..]
    ensures j <= b < |G| && G[b] == x
  {
    var d :| 0 <= d < |G| - j && G[j..][d] == x;
    b := j + d;
  }

  /** Two S-type positions of one code are ordered as their successors, read at `i < b'`. */
  lemma SCompare(s: seq<int>, G: seq<int>, sc: Scope, i: int, b': int, v: int, w: int)
    requires InBuckets(s, G) && KeySorted(s, G, sc) && SScope(sc) && 0 <= i < b' < |G|
    requires 0 <= v < |s| && 0 <= w < |s| && G[i] == v + 1 && G[b'] == w + 1
    requires SType(s, v) && SType(s, w) && s[v] == s[w]
    ensures !Less(Key(s, w, sc), Key(s, v, sc))
  {
    SlotOrder(s, G, sc, i, b', v + 1, w + 1);
    SKey(s, w, sc);
    SKey(s, v, sc);
    EncSame(s, w, v);
    PredOrder(s, sc, v, w);
  }

  /** One write of the S-type scan keeps the order. */
  lemma SWriteOrder(s: seq<int>, c2b: map<int, int>, tails: seq<int>, G: seq<int>, i: int, WS: set<int>,
                    v: int, t: int, sc: Scope)
    requires SPass(s, c2b, tails, G, i + 1, WS) && SWriteAt(s, c2b, tails, G, i, WS, v, t)
    requires SScope(sc) && KeySorted(s, G, sc)
    ensures KeySorted(s, G[t := v], sc)
  {
    forall a | 0 <= a < t
      ensures NotAfter(s, sc, G[a], v)
    {
      SBelowOrder(s, c2b, tails, G, i, WS, v, t, a, sc);
    }
    forall b | t < b < |G|
      ensures NotAfter(s, sc, v, G[b])
    {
      SAboveOrder(s, c2b, tails, G, i, WS, v, t, b, sc);
    }
    SortedWrite(s, G, sc, t, v);
  }

  /** One slot of the S-type scan keeps the order. */
  lemma SStepOrder(s: seq<int>, c2b: map<int, int>, tails: seq<int>, G: seq<int>, i: int, WS: set<int>, sc: Scope)
    requires SPass(s, c2b, tails, G, i + 1, WS) && 0 <= i < |s| && SScope(sc) && KeySorted(s, G, sc)
    ensures KeySorted(s, SStepSlots(s, c2b, tails, G, i), sc)
  {
    if 0 < G[i] < |s| && SType(s, G[i] - 1) {
      var v, t := SWriteSlot(s, c2b, tails, G, i, WS);
      SWriteOrder(s, c2b, tails, G, i, WS, v, t, sc);
      SStepWrites(s, c2b, tails, G, i, WS, v, t);
    } else {
      SStepSkips(s, c2b, tails, G, i);
    }
  }

  /** Every suffix of the S-type scan keeps the order. */
  lemma {:induction false} SRunOrder(s: seq<int>, c2b: map<int, int>, tails: seq<int>, G: seq<int>, j: nat, sc: Scope)
    requires SPass(s, c2b, tails, G, |s|, {}) && j <= |s| && SScope(sc) && KeySorted(s, G, sc)
    ensures KeySorted(s, SRunSlots(s, c2b, tails, G, j), sc)
    decreases |s| - j
  {
    if j < |s| {
      var k := j + 1;
      SRunOrder(s, c2b, tails, G, k, sc);
      var WS := SRunPass(s, c2b, tails, G, k);
      SRunOrderStep(s, c2b, tails, G, j, k, WS, sc);
    }
  }

  /** One more slot of the S-type scan keeps the order. */
  lemma SRunOrderStep(s: seq<int>, c2b: map<int, int>, tails: seq<int>, G: seq<int>, j: nat, k: nat, WS: set<int>, sc: Scope)
    requires k == j + 1 && j < |s| && SScope(sc)
    requires SPass(s, c2b, SRunTails(s, c2b, tails, G, k), SRunSlots(s, c2b, tails, G, k), k, WS)
    requires KeySorted(s, SRunSlots(s, c2b, tails, G, k), sc)
    ensures KeySorted(s, SRunSlots(s, c2b, tails, G, j), sc)
  {
    SStepOrder(s, c2b, SRunTails(s, c2b, tails, G, k), SRunSlots(s, c2b, tails, G, k), j, WS, sc);
  }

  // ---------------------------------------------------------------------------
  // The whole induced sort.

  /**
   * `inducedSort` from seeds whose keys of scope `sc` come in order within
   * each bucket leaves every bucket ordered by the keys of scope `Later(sc)`.
   */
  lemma PassOrder(s: seq<int>, cc: CharCounts, buckets: seq<int>, c2b: map<int, int>, tails: seq<int>, seeds: seq<int>, sc: Scope)
    requires Inputs(s, cc, buckets, c2b, tails) && SeedOrder(s, seeds) && LScope(sc) && SeedsSorted(s, seeds, sc)
    ensures KeySorted(s, Induced(s, c2b, buckets, tails, seeds), Later(sc))
  {
    SeedingStart(s, cc, buckets, c2b, tails);
    PreRunOrder(s, sc);
    SeedRunOrder(s, c2b, tails, PreRun(s, |s|), seeds, |seeds|, sc);
    var G := Seeded(s, c2b, tails, seeds);
    LScanStart(s, cc, buckets, c2b, tails, seeds);
    LRunOrder(s, c2b, buckets, G, |s|, sc);
    var WL := LRunPass(s, c2b, buckets, G, |s|);
    var G1 := LRunSlots(s, c2b, buckets, G, |s|);
    var H := LRunHeads(s, c2b, buckets, G, |s|);
    ProjectOrder(s, c2b, H, G1, WL, sc);
    InitTailsEnd(s, cc, buckets, c2b, tails);
    var Gp := Project(s, G1);
    SPassInit(s, c2b, H, G1, WL, tails);
    SRunOrder(s, c2b, tails, Gp, 0, Later(sc));
    var WS := SRunPass(s, c2b, tails, Gp, 0);
    SPassEnd(s, c2b, SRunTails(s, c2b, tails, Gp, 0), SRunSlots(s, c2b, tails, Gp, 0), WS);
    ProjectAgrees(s, c2b, H, G1, WL);
    SRunAgree(s, c2b, tails, G1, Gp, 0);
    SAgreeFull(s, SRunSlots(s, c2b, tails, G1, 0), SRunSlots(s, c2b, tails, Gp, 0));
  }

  /**
   * Seeded in any order, `inducedSort` orders each bucket by the keys that
   * reach to the next sample position: at the sample positions, by their
   * sample substrings.
   */
  lemma FirstPass(s: seq<int>, cc: CharCounts, buckets: seq<int>, c2b: map<int, int>, tails: seq<int>, seeds: seq<int>)
    requires Inputs(s, cc, buckets, c2b, tails) && SeedOrder(s, seeds)
    ensures KeySorted(s, Induced(s, c2b, buckets, tails, seeds), Beyond)
  {
    ThroughSeedsSorted(s, seeds);
    PassOrder(s, cc, buckets, c2b, tails, seeds, Through);
  }

  /** The seeds come in descending order of their suffixes. */
  ghost predicate SeedsDescending(s: seq<int>, seeds: seq<int>) {
    forall j, k :: 0 <= j < k < |seeds| && 0 <= seeds[j] < |s| && 0 <= seeds[k] < |s| ==>
      Less(s[seeds[k]..], s[seeds[j]..])
  }

  /** Seeds in descending suffix order are in order of their whole keys. */
  lemma DescendingSorted(s: seq<int>, seeds: seq<int>)
    requires WellFormed(s) && SeedsDescending(s, seeds)
    ensures SeedsSorted(s, seeds, Whole)
  {
    forall j, k | 0 <= j < k < |seeds| && 0 <= seeds[j] < |s| && 0 <= seeds[k] < |s| && s[seeds[j]] == s[seeds[k]]
      ensures !Less(Key(s, seeds[j], Whole), Key(s, seeds[k], Whole))
    {
      WholeFromSuffix(s, seeds[k], seeds[j]);
    }
  }

  /** Whole keys in order within each bucket, and buckets in order, make a suffix array. */
  lemma WholeSorted(s: seq<int>, R: seq<int>)
    requires WellFormed(s) && IsPermutation(R) && BucketSorted(s, R) && KeySorted(s, R, Whole)
    ensures IsSuffixArray(s, R)
  {
    forall r | 0 < r < |R|
      ensures Less(s[R[r - 1]..], s[R[r]..])
    {
      var x, y := R[r - 1], R[r];
      if s[x] != s[y] {
        if s[y] < s[x] {
          Precedes(s, y, x, r);
          assert false;
        }
        FirstLess(s, x, y);
      } else {
        SortedAt(s, R, Whole, r - 1, r);
        WholeKeysDiffer(s, x, y);
        LessTotal(Key(s, x, Whole), Key(s, y, Whole));
        KeyOrder(s, x, y, Whole);
      }
    }
  }

  /**
   * Seeded with the sample positions in descending suffix order,
   * `inducedSort` leaves the suffix array of `s`.
   */
  lemma FinalPass(s: seq<int>, cc: CharCounts, buckets: seq<int>, c2b: map<int, int>, tails: seq<int>, seeds: seq<int>)
    requires Inputs(s, cc, buckets, c2b, tails) && SeedOrder(s, seeds) && SeedsDescending(s, seeds)
    ensures IsSuffixArray(s, Induced(s, c2b, buckets, tails, seeds))
  {
    DescendingSorted(s, seeds);
    PassOrder(s, cc, buckets, c2b, tails, seeds, Whole);
    InducedSortResult(s, cc, buckets, c2b, tails, seeds);
    WholeSorted(s, Induced(s, c2b, buckets, tails, seeds));
  }
}
