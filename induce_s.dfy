/**
 * The end of the L-type scan and the right-to-left scan that follows it,
 * which puts the S-type predecessor of every suffix it meets at the tail
 * of that predecessor's bucket (`induceSuffixes`, second loop).
 *
 * The scan runs over the slots the L-type scan left behind, which still
 * hold the seeded sample positions.  Those are overwritten as the scan
 * reaches their buckets; until then they only ever induce nothing.  The
 * invariants are therefore stated for the picture with the seeds cleared
 * (`Project`), and `SRunAgree` shows the scan ends the same either way.
 */
module InduceS {
  import opened Lex
  import opened SaisSpec
  import opened Induce

  // ---------------------------------------------------------------------------
  // The end of the L-type scan.

  /** Once the L-type scan has read every slot, every L-type position has been induced. */
  lemma {:induction false} LInduced(s: seq<int>, G: seq<int>, WL: set<int>, q: int)
    requires |G| == |s| && WLChar(s, G, |s|, WL) && LmsPresent(s, G) && Present(G, WL)
    requires 0 <= q < |s| && !SType(s, q)
    ensures q in WL
    decreases |s| - q
  {
    LTypeNext(s, q);
    if SType(s, q + 1) {
      assert LmsPos(s, q + 1);
    } else {
      LInduced(s, G, WL, q + 1);
    }
    assert G[..|s|] == G;
  }

  /** Every L-type position fills a slot. */
  ghost predicate LDone(s: seq<int>, G: seq<int>) {
    var holds :=
      forall q :: 0 <= q < |s| && !SType(s, q) ==> q in G;
    holds
  }

  /** The output of the L-type scan with the seeded positions of shared buckets cleared. */
  ghost function Project(s: seq<int>, G: seq<int>): seq<int> {
    seq(|G|, r requires 0 <= r < |G| =>
      if 0 <= G[r] < |s| && SType(s, G[r]) && Count(s, s[G[r]]) != 1 then Blank else G[r])
  }

  // ---------------------------------------------------------------------------
  // The state of the S-type scan.

  /** An S-type position has been induced exactly when the scan has passed its successor. */
  ghost predicate WSChar(s: seq<int>, G: seq<int>, j: int, WS: set<int>)
    requires 0 <= j <= |G|
  {
    var holds :=
      forall q {:trigger q in WS} :: q in WS <==> 0 <= q < |s| && SType(s, q) && q + 1 in G[j..];
    holds
  }

  /**
   * L-type positions sit in the L-part of their bucket; S-type positions sit
   * in the S-part, past the tail if induced, or alone in their bucket if not.
   */
  ghost predicate SSlots(s: seq<int>, c2b: map<int, int>, tails: seq<int>, G: seq<int>, WS: set<int>)
    requires InBuckets(s, G)
  {
    var holds :=
      forall r :: 0 <= r < |G| && G[r] != Blank ==>
        if SType(s, G[r]) then
          && Mid(s, s[G[r]]) <= r
          && ((G[r] in WS && Ptr(tails, c2b, s[G[r]]) < r) ||
              (G[r] !in WS && Count(s, s[G[r]]) == 1 && r == Start(s, s[G[r]])))
        else
          r < Mid(s, s[G[r]]);
    holds
  }

  /**
   * What the scan needs to keep its tails behind it; the tails move down
   * once per induced position, as they did once per seed in `TailsBySeeds`.
   */
  ghost predicate SScan(s: seq<int>, c2b: map<int, int>, tails: seq<int>, G: seq<int>, j: int, WS: set<int>) {
    var holds :=
      && (forall c :: c in c2b <==> c in s)
      && InBuckets(s, G)
      && Distinct(G)
      && 0 <= j <= |s|
      && LDone(s, G)
      && Present(G, WS)
      && TailsBySeeds(s, c2b, tails, WS)
      && WSChar(s, G, j, WS);
    holds
  }

  /** The state of the S-type scan once it has read slots `j .. |s|-1`. */
  ghost predicate SPass(s: seq<int>, c2b: map<int, int>,
                        tails: seq<int>, G: seq<int>, j: int, WS: set<int>) {
    var holds :=
      && Numbering(s, c2b, tails)
      && SScan(s, c2b, tails, G, j, WS)
      && G[0] == |s| - 1
      && SSlots(s, c2b, tails, G, WS);
    holds
  }

  lemma SPassIntro(s: seq<int>, c2b: map<int, int>,
                   tails: seq<int>, G: seq<int>, j: int, WS: set<int>)
    requires Numbering(s, c2b, tails)
    requires SScan(s, c2b, tails, G, j, WS) && 0 < |G| && G[0] == |s| - 1
    requires SSlots(s, c2b, tails, G, WS)
    ensures SPass(s, c2b, tails, G, j, WS)
  {
  }

  /**
   * With every L-type position induced and the tails back at the bucket
   * ends, the cleared picture is a starting state of the S-type scan.
   */
  lemma SPassInit(s: seq<int>, c2b: map<int, int>, heads: seq<int>, G: seq<int>, WL: set<int>, tails: seq<int>)
    requires LPass(s, c2b, heads, G, |s|, WL)
    requires Numbering(s, c2b, tails) && forall c {:trigger Ptr(tails, c2b, c)} :: c in c2b ==> Ptr(tails, c2b, c) == End(s, c)
    ensures SPass(s, c2b, tails, Project(s, G), |s|, {})
  {
    SScanInit(s, c2b, heads, G, WL, tails);
    SSlotsInit(s, c2b, heads, G, WL, tails);
    SentinelBucket(s);
    SPassIntro(s, c2b, tails, Project(s, G), |s|, {});
  }

  /** The scan part of the starting state. */
  lemma SScanInit(s: seq<int>, c2b: map<int, int>, heads: seq<int>, G: seq<int>, WL: set<int>, tails: seq<int>)
    requires LPass(s, c2b, heads, G, |s|, WL)
    requires Numbering(s, c2b, tails) && forall c {:trigger Ptr(tails, c2b, c)} :: c in c2b ==> Ptr(tails, c2b, c) == End(s, c)
    ensures Numbering(s, c2b, tails) && SScan(s, c2b, tails, Project(s, G), |s|, {})
  {
    var Gp := Project(s, G);
    forall r, r' | 0 <= r < r' < |Gp| && At(Gp, r) != Blank
      ensures At(Gp, r) != At(Gp, r')
    {
      DistinctAt(G, r, r');
    }
    forall q | 0 <= q < |s| && !SType(s, q)
      ensures q in Gp
    {
      LInduced(s, G, WL, q);
      var r :| 0 <= r < |G| && G[r] == q;
      assert Gp[r] == q;
    }
    forall c | c in c2b
      ensures Ptr(tails, c2b, c) == End(s, c) - |{} * STypes(s, c)|
    {
      assert {} * STypes(s, c) == {};
    }
    assert Gp[|s|..] == [];
  }

  /** The slot part of the starting state: only S-type positions alone in their bucket are left. */
  lemma SSlotsInit(s: seq<int>, c2b: map<int, int>, heads: seq<int>, G: seq<int>, WL: set<int>, tails: seq<int>)
    requires LPass(s, c2b, heads, G, |s|, WL)
    ensures InBuckets(s, Project(s, G)) && SSlots(s, c2b, tails, Project(s, G), {})
  {
    var Gp := Project(s, G);
    forall r | 0 <= r < |Gp| && Gp[r] != Blank && SType(s, Gp[r])
      ensures Count(s, s[Gp[r]]) == 1 && r == Start(s, s[Gp[r]])
    {
      PosBucket(s, Gp[r]);
    }
  }

  // ---------------------------------------------------------------------------
  // One step of the S-type scan.

  /** The S-type predecessor of the position at slot `i`, by name. */
  lemma SPredecessor(s: seq<int>, G: seq<int>, i: int) returns (v: int)
    requires 0 <= i < |G| && 0 < G[i] < |s| && SType(s, G[i] - 1)
    ensures v == G[i] - 1 && 0 <= v < |s| && SType(s, v)
  {
    v := G[i] - 1;
  }

  /** The predecessor of the position read at slot `i` has not been induced yet. */
  lemma SWriteFresh(s: seq<int>, G: seq<int>, i: int, WS: set<int>, v: int)
    requires 0 <= i < |G| && Distinct(G) && WSChar(s, G, i + 1, WS) && 0 < G[i] && v == G[i] - 1
    ensures v !in WS
  {
    forall j | i < j < |G|
      ensures G[j] != G[i]
    {
      DistinctAt(G, i, j);
    }
  }

  /** The tail of a bucket with an S-type position not yet induced is inside its S-part. */
  lemma SWriteAboveMid(s: seq<int>, c2b: map<int, int>, tails: seq<int>, WS: set<int>, v: int)
    requires TailsBySeeds(s, c2b, tails, WS)
    requires 0 <= v < |s| && SType(s, v) && v !in WS && s[v] in c2b
    ensures Mid(s, s[v]) <= Ptr(tails, c2b, s[v]) <= End(s, s[v])
  {
    assert Ptr(tails, c2b, s[v]) == End(s, s[v]) - |WS * STypes(s, s[v])|;
    assert v in STypes(s, s[v]);
    SubsetCard(WS * STypes(s, s[v]), STypes(s, s[v]));
    TypesSplit(s, s[v]);
  }

  /** An S-type position other than the last is followed by a code no smaller, and by an S-type one when equal. */
  lemma STypeNext(s: seq<int>, v: int)
    requires 0 <= v < |s| - 1 && SType(s, v)
    ensures s[v] <= s[v + 1] && (s[v] == s[v + 1] ==> SType(s, v + 1))
  {
  }

  /**
   * The tail of the predecessor's bucket is behind the slot being read: that
   * bucket lies below the slot, or the slot holds an induced S-type position
   * of the same bucket, which sits past the tail.
   */
  lemma SWriteBehind(s: seq<int>, c2b: map<int, int>, tails: seq<int>, G: seq<int>, i: int, WS: set<int>, v: int)
    requires InBuckets(s, G) && SSlots(s, c2b, tails, G, WS) && TailsBySeeds(s, c2b, tails, WS)
    requires 0 <= i < |G| && 0 < G[i] < |s| && v == G[i] - 1 && SType(s, v) && s[v] in c2b
    ensures Ptr(tails, c2b, s[v]) < i
  {
    var x := G[i];
    assert x == v + 1;
    var t := Ptr(tails, c2b, s[v]);
    assert t == End(s, s[v]) - |WS * STypes(s, s[v])|;
    STypeNext(s, v);
    assert Start(s, s[x]) <= i;
    if s[v] != s[x] {
      Precedes(s, v, x, t);
    } else {
      UniqueCode(s, v, x);
      assert x in WS && Ptr(tails, c2b, s[x]) < i;
    }
  }

  /** The tail slot is free or already holds `v`, and `v` fills no other slot. */
  lemma SWriteFree(s: seq<int>, c2b: map<int, int>, tails: seq<int>, G: seq<int>, WS: set<int>, v: int, t: int)
    requires InBuckets(s, G) && SSlots(s, c2b, tails, G, WS)
    requires 0 <= v < |s| && SType(s, v) && v !in WS
    requires t == Ptr(tails, c2b, s[v]) && Mid(s, s[v]) <= t <= End(s, s[v]) && 0 <= t < |G|
    ensures (G[t] == Blank || G[t] == v) && OnlyAt(G, t, v)
  {
    var c := s[v];
    if G[t] != Blank {
      SameBucket(s, s[G[t]], c, t);
      UniqueCode(s, G[t], v);
    }
    forall r | 0 <= r < |G| && r != t
      ensures G[r] != v
    {
    }
  }

  /**
   * The write the S-type scan makes at slot `i`: `v`, the S-type predecessor
   * of the position read there, goes to the tail `t` of its bucket, which
   * lies behind the scan inside the bucket's S-part, on a free slot or on `v`
   * itself; `v` has not been induced before and fills no other slot.
   */
  ghost predicate SWriteAt(s: seq<int>, c2b: map<int, int>, tails: seq<int>, G: seq<int>,
                           i: int, WS: set<int>, v: int, t: int) {
    var holds :=
      && 0 <= i < |G| && 0 < G[i] < |s| && v == G[i] - 1 && SType(s, v) && v < |s| - 1
      && s[v] in c2b && t == Ptr(tails, c2b, s[v])
      && Mid(s, s[v]) <= t <= End(s, s[v]) && 0 < t < i
      && v !in WS && (G[t] == Blank || G[t] == v) && OnlyAt(G, t, v);
    holds
  }

  /** Reading a position at slot `i` whose predecessor `v` is S-type: where `v` goes. */
  lemma SWriteSlot(s: seq<int>, c2b: map<int, int>,
                   tails: seq<int>, G: seq<int>, i: int, WS: set<int>) returns (v: int, t: int)
    requires SPass(s, c2b, tails, G, i + 1, WS) && 0 <= i < |s|
    requires 0 < G[i] < |s| && SType(s, G[i] - 1)
    ensures SWriteAt(s, c2b, tails, G, i, WS, v, t)
  {
    v := SPredecessor(s, G, i);
    SWriteFresh(s, G, i, WS, v);
    assert s[v] in c2b by {
      assert s[v] in s;
    }
    SWriteAboveMid(s, c2b, tails, WS, v);
    SWriteBehind(s, c2b, tails, G, i, WS, v);
    t := Ptr(tails, c2b, s[v]);
    SWriteFree(s, c2b, tails, G, WS, v, t);
    SentinelBucket(s);
    PosBucket(s, v);
  }

  /** Filling a free slot with a new S-type position loses no position already present. */
  lemma SWritePresent(s: seq<int>, G: seq<int>, WS: set<int>, v: int, t: int)
    requires LDone(s, G) && Present(G, WS) && Blank !in WS
    requires 0 <= v < |s| && SType(s, v)
    requires 0 <= t < |G| && (G[t] == Blank || G[t] == v)
    ensures LDone(s, G[t := v]) && Present(G[t := v], WS + {v})
  {
    var G' := G[t := v];
    forall q | 0 <= q < |s| && !SType(s, q)
      ensures q in G'
    {
      var r :| 0 <= r < |G| && G[r] == q;
      assert G'[r] == q;
    }
    forall q | q in WS + {v}
      ensures q in G'
    {
      if q == v {
        assert G'[t] == v;
      } else {
        assert q in G;
        var r :| 0 <= r < |G| && G[r] == q;
        assert G'[r] == q;
      }
    }
  }

  /** Every slot keeps its place in its bucket's L- or S-part. */
  lemma SWriteSlots(s: seq<int>, c2b: map<int, int>, tails: seq<int>, tails': seq<int>,
                    G: seq<int>, WS: set<int>, v: int, t: int)
    requires InBuckets(s, G) && SSlots(s, c2b, tails, G, WS)
    requires 0 <= v < |s| && SType(s, v) && OnlyAt(G, t, v)
    requires t == Ptr(tails, c2b, s[v]) && Mid(s, s[v]) <= t <= End(s, s[v]) && 0 <= t < |G|
    requires Bumped(tails, tails', c2b, s[v], t - 1)
    ensures InBuckets(s, G[t := v]) && SSlots(s, c2b, tails', G[t := v], WS + {v})
  {
    PosBucket(s, v);
    InBucketsWrite(s, G, t, v);
    var G' := G[t := v];
    var WS' := WS + {v};
    forall r | 0 <= r < |G'| && G'[r] != Blank
      ensures if SType(s, G'[r]) then
          && Mid(s, s[G'[r]]) <= r
          && ((G'[r] in WS' && Ptr(tails', c2b, s[G'[r]]) < r) ||
              (G'[r] !in WS' && Count(s, s[G'[r]]) == 1 && r == Start(s, s[G'[r]])))
        else
          r < Mid(s, s[G'[r]])
    {
      if r != t {
        assert G'[r] == G[r] && G[r] != v;
        assert Ptr(tails', c2b, s[G[r]]) <= Ptr(tails, c2b, s[G[r]]);
      }
    }
  }

  /**
   * Moving the scan past slot `i` adds to the induced set exactly the
   * predecessor of the position read there, when that is an S-type position
   * (`v` is that predecessor, or -1 when nothing is induced).
   */
  lemma WSCharNext(s: seq<int>, G: seq<int>, i: int, WS: set<int>, v: int)
    requires 0 <= i < |G| && WSChar(s, G, i + 1, WS)
    requires v == -1 ==> G[i] == Blank || G[i] == 0 || (0 < G[i] < |s| && !SType(s, G[i] - 1))
    requires v != -1 ==> 0 <= v < |s| && v + 1 == G[i] && SType(s, v)
    ensures WSChar(s, G, i, if v == -1 then WS else WS + {v})
  {
    var WS' := if v == -1 then WS else WS + {v};
    assert G[i..] == [G[i]] + G[i + 1..];
    forall q
      ensures q in WS' <==> 0 <= q < |s| && SType(s, q) && q + 1 in G[i..]
    {
      assert q in WS <==> 0 <= q < |s| && SType(s, q) && q + 1 in G[i + 1..];
    }
  }

  /** After the write, every slot is still in place and no position is lost or doubled. */
  lemma SWriteGrid(s: seq<int>, c2b: map<int, int>, tails: seq<int>, tails': seq<int>,
                   G: seq<int>, i: int, WS: set<int>, v: int, t: int)
    requires SWriteAt(s, c2b, tails, G, i, WS, v, t) && Bumped(tails, tails', c2b, s[v], t - 1)
    requires InBuckets(s, G) && Distinct(G) && LDone(s, G) && Present(G, WS)
    requires SSlots(s, c2b, tails, G, WS) && WSChar(s, G, i + 1, WS)
    ensures InBuckets(s, G[t := v]) && SSlots(s, c2b, tails', G[t := v], WS + {v})
    ensures Distinct(G[t := v]) && LDone(s, G[t := v]) && Present(G[t := v], WS + {v})
    ensures WSChar(s, G[t := v], i, WS + {v})
  {
    SWriteSlots(s, c2b, tails, tails', G, WS, v, t);
    assert Blank !in WS;
    SWritePresent(s, G, WS, v, t);
    DistinctWrite(G, t, v);
    WSCharNext(s, G, i, WS, v);
    assert G[t := v][i..] == G[i..];
  }

  /** The scan state after the write, from the scan state before it. */
  lemma SWriteScan(s: seq<int>, c2b: map<int, int>,
                   tails: seq<int>, G: seq<int>, i: int, WS: set<int>, v: int, t: int)
    requires Numbering(s, c2b, tails)
    requires SScan(s, c2b, tails, G, i + 1, WS) && SSlots(s, c2b, tails, G, WS)
    requires SWriteAt(s, c2b, tails, G, i, WS, v, t)
    ensures 0 <= c2b[s[v]] < |tails| && 0 < t < |G| && InBuckets(s, G[t := v])
    ensures SScan(s, c2b, tails[c2b[s[v]] := t - 1], G[t := v], i, WS + {v})
    ensures SSlots(s, c2b, tails[c2b[s[v]] := t - 1], G[t := v], WS + {v})
  {
    var k := c2b[s[v]];
    PtrUpdate(s, c2b, tails, s[v], k, t - 1);
    var tails' := tails[k := t - 1];
    SeedStepTails(s, c2b, tails, tails', WS, v, t);
    SWriteGrid(s, c2b, tails, tails', G, i, WS, v, t);
  }

  /**
   * Inducing `v`, the S-type predecessor of the position read at slot `i`,
   * at the tail `t` of its bucket, after which that tail moves one slot down:
   * the state after one step of the scan.
   */
  lemma SWriteState(s: seq<int>, c2b: map<int, int>,
                    tails: seq<int>, G: seq<int>, i: int, WS: set<int>, v: int, t: int)
    requires SPass(s, c2b, tails, G, i + 1, WS) && SWriteAt(s, c2b, tails, G, i, WS, v, t)
    ensures SPass(s, c2b, SStepTails(s, c2b, tails, G, i), SStepSlots(s, c2b, tails, G, i), i, WS + {v})
  {
    SWriteScan(s, c2b, tails, G, i, WS, v, t);
    SStepWrites(s, c2b, tails, G, i, WS, v, t);
    SPassIntro(s, c2b, SStepTails(s, c2b, tails, G, i), SStepSlots(s, c2b, tails, G, i), i, WS + {v});
  }

  /** Reading a slot that induces nothing: blank, position 0, or an L-type predecessor. */
  lemma SSkip(s: seq<int>, c2b: map<int, int>,
              tails: seq<int>, G: seq<int>, i: int, WS: set<int>)
    requires SPass(s, c2b, tails, G, i + 1, WS) && 0 <= i < |s|
    requires G[i] == Blank || G[i] == 0 || (0 < G[i] < |s| && !SType(s, G[i] - 1))
    ensures SPass(s, c2b, tails, G, i, WS)
  {
    WSCharNext(s, G, i, WS, -1);
  }

  // ---------------------------------------------------------------------------
  // The S-type scan as a function of its starting pointers and slots.

  /**
   * The position the S-type scan induces when it reads slot `i`: the
   * predecessor of the position found there, when that predecessor is
   * S-type and the tail of its bucket is a slot; -1 when nothing is induced.
   */
  ghost function STarget(s: seq<int>, c2b: map<int, int>, tails: seq<int>, G: seq<int>, i: int): int {
    if 0 <= i < |G| && 0 < G[i] < |s| && SType(s, G[i] - 1) then
      var v := G[i] - 1;
      if s[v] in c2b && 0 <= c2b[s[v]] < |tails| && 0 <= tails[c2b[s[v]]] < |G| then v else -1
    else
      -1
  }

  /** The tails after reading slot `i`. */
  ghost function SStepTails(s: seq<int>, c2b: map<int, int>, tails: seq<int>, G: seq<int>, i: int): seq<int> {
    var v := STarget(s, c2b, tails, G, i);
    if v < 0 then tails else tails[c2b[s[v]] := tails[c2b[s[v]]] - 1]
  }

  /** The slots after reading slot `i`. */
  ghost function SStepSlots(s: seq<int>, c2b: map<int, int>, tails: seq<int>, G: seq<int>, i: int): seq<int> {
    var v := STarget(s, c2b, tails, G, i);
    if v < 0 then G else G[tails[c2b[s[v]]] := v]
  }

  /** The tails after the S-type scan has read slots `j .. |s|-1`, from the last down. */
  ghost function SRunTails(s: seq<int>, c2b: map<int, int>, tails: seq<int>, G: seq<int>, j: nat): seq<int>
    decreases |s| - j
  {
    if j >= |s| then tails
    else SStepTails(s, c2b, SRunTails(s, c2b, tails, G, j + 1), SRunSlots(s, c2b, tails, G, j + 1), j)
  }

  /** The slots after the S-type scan has read slots `j .. |s|-1`, from the last down. */
  ghost function SRunSlots(s: seq<int>, c2b: map<int, int>, tails: seq<int>, G: seq<int>, j: nat): seq<int>
    decreases |s| - j
  {
    if j >= |s| then G
    else SStepSlots(s, c2b, SRunTails(s, c2b, tails, G, j + 1), SRunSlots(s, c2b, tails, G, j + 1), j)
  }

  /** When slot `i` induces a position whose tail `t` is a slot, the step writes it there. */
  lemma SStepWrites(s: seq<int>, c2b: map<int, int>, tails: seq<int>, G: seq<int>, i: int, WS: set<int>, v: int, t: int)
    requires Numbering(s, c2b, tails) && SWriteAt(s, c2b, tails, G, i, WS, v, t)
    ensures STarget(s, c2b, tails, G, i) == v
    ensures SStepTails(s, c2b, tails, G, i) == tails[c2b[s[v]] := t - 1]
    ensures SStepSlots(s, c2b, tails, G, i) == G[t := v]
  {
  }

  /** A slot whose position has no S-type predecessor induces nothing. */
  lemma SStepSkips(s: seq<int>, c2b: map<int, int>, tails: seq<int>, G: seq<int>, i: int)
    requires 0 <= i < |G| && !(0 < G[i] < |s| && SType(s, G[i] - 1))
    ensures SStepTails(s, c2b, tails, G, i) == tails && SStepSlots(s, c2b, tails, G, i) == G
  {
  }

  /** Reading a slot that induces `v`, the predecessor of the position found there. */
  lemma SStepWrite(s: seq<int>, c2b: map<int, int>, tails: seq<int>, G: seq<int>, i: int, WS: set<int>)
    returns (WS': set<int>)
    requires SPass(s, c2b, tails, G, i + 1, WS) && 0 <= i < |s|
    requires 0 < G[i] < |s| && SType(s, G[i] - 1)
    ensures SPass(s, c2b, SStepTails(s, c2b, tails, G, i), SStepSlots(s, c2b, tails, G, i), i, WS')
  {
    var v, t := SWriteSlot(s, c2b, tails, G, i, WS);
    SWriteState(s, c2b, tails, G, i, WS, v, t);
    WS' := WS + {v};
  }

  /** Reading one slot keeps the S-type scan state; `WS'` is the new set of induced positions. */
  lemma SStepPass(s: seq<int>, c2b: map<int, int>, tails: seq<int>, G: seq<int>, i: int, WS: set<int>)
    returns (WS': set<int>)
    requires SPass(s, c2b, tails, G, i + 1, WS) && 0 <= i < |s|
    ensures SPass(s, c2b, SStepTails(s, c2b, tails, G, i), SStepSlots(s, c2b, tails, G, i), i, WS')
  {
    if 0 < G[i] < |s| && SType(s, G[i] - 1) {
      WS' := SStepWrite(s, c2b, tails, G, i, WS);
    } else {
      SSkip(s, c2b, tails, G, i, WS);
      SStepSkips(s, c2b, tails, G, i);
      WS' := WS;
    }
  }

  /** One more slot of the scan keeps its state. */
  lemma SRunStep(s: seq<int>, c2b: map<int, int>, tails: seq<int>, G: seq<int>, i: nat, k: nat, WS: set<int>)
    returns (WS': set<int>)
    requires k == i + 1 && i < |s|
    requires SPass(s, c2b, SRunTails(s, c2b, tails, G, k), SRunSlots(s, c2b, tails, G, k), k, WS)
    ensures SPass(s, c2b, SRunTails(s, c2b, tails, G, i), SRunSlots(s, c2b, tails, G, i), i, WS')
  {
    WS' := SStepPass(s, c2b, SRunTails(s, c2b, tails, G, k), SRunSlots(s, c2b, tails, G, k), i, WS);
  }

  /** Every suffix of the S-type scan keeps its state. */
  lemma {:induction false} SRunPass(s: seq<int>, c2b: map<int, int>, tails: seq<int>, G: seq<int>, j: nat)
    returns (WS: set<int>)
    requires SPass(s, c2b, tails, G, |s|, {}) && j <= |s|
    ensures SPass(s, c2b, SRunTails(s, c2b, tails, G, j), SRunSlots(s, c2b, tails, G, j), j, WS)
    decreases |s| - j
  {
    if j == |s| {
      WS := {};
    } else {
      var k := j + 1;
      var WS0 := SRunPass(s, c2b, tails, G, k);
      WS := SRunStep(s, c2b, tails, G, j, k, WS0);
    }
  }

  // ---------------------------------------------------------------------------
  // The end of the S-type scan.

  /** Once the S-type scan has read every slot, every S-type position but the last has been induced. */
  lemma {:induction false} SInduced(s: seq<int>, G: seq<int>, WS: set<int>, q: int)
    requires |G| == |s| && 0 < |G| && G[0] == |s| - 1 && WSChar(s, G, 0, WS) && LDone(s, G) && Present(G, WS)
    requires 0 <= q < |s| - 1 && SType(s, q)
    ensures q in WS
    decreases |s| - q
  {
    var p := q + 1;
    if p == |s| - 1 {
      assert G[0] == p;
    } else if SType(s, p) {
      SInduced(s, G, WS, p);
    }
    assert G[0..] == G;
  }

  /** The values of slots `lo .. hi-1`. */
  ghost function SlotValues(G: seq<int>, lo: int, hi: int): set<int>
    requires 0 <= lo <= hi <= |G|
  {
    set r | lo <= r < hi :: G[r]
  }

  /** `n` slots hold at most `n` values. */
  lemma {:induction false} SlotValuesBound(G: seq<int>, lo: int, hi: int)
    requires 0 <= lo <= hi <= |G|
    ensures |SlotValues(G, lo, hi)| <= hi - lo
    decreases hi - lo
  {
    if lo < hi {
      SlotValuesBound(G, lo, hi - 1);
      assert SlotValues(G, lo, hi) == SlotValues(G, lo, hi - 1) + {G[hi - 1]};
    } else {
      assert SlotValues(G, lo, hi) == {};
    }
  }

  /** The positions `0 .. n-1`. */
  ghost function Range(n: nat): set<int> {
    if n == 0 then {} else Range(n - 1) + {n - 1}
  }

  lemma {:induction false} RangeCard(n: nat)
    ensures |Range(n)| == n && forall q {:trigger q in Range(n)} :: q in Range(n) <==> 0 <= q < n
  {
    if n > 0 {
      RangeCard(n - 1);
      assert n - 1 !in Range(n - 1);
    }
  }

  /** Distinct slots that hold every position have no room left for a blank. */
  lemma FullSlots(s: seq<int>, G: seq<int>)
    requires InBuckets(s, G) && Distinct(G)
    requires forall q :: 0 <= q < |s| ==> q in G
    ensures IsPermutation(G)
  {
    forall r | 0 <= r < |G|
      ensures G[r] != Blank
    {
      if G[r] == Blank {
        RangeCard(|s|);
        var U := Range(|s|) + {Blank};
        forall q | q in U
          ensures q in SlotValues(G, 0, |G|)
        {
          if q != Blank {
            assert 0 <= q < |s|;
            assert q in G;
            var r' :| 0 <= r' < |G| && G[r'] == q;
          }
        }
        assert Blank !in Range(|s|);
        assert |U| == |s| + 1;
        SlotValuesBound(G, 0, |G|);
        SubsetCard(U, SlotValues(G, 0, |G|));
        assert false;
      }
    }
    forall r, r' | 0 <= r < r' < |G|
      ensures G[r] != G[r']
    {
      DistinctAt(G, r, r');
    }
  }

  /**
   * Every position sits in the bucket of its code, the L-type positions of
   * a bucket in its first part and the S-type ones after them.
   */
  ghost predicate BucketSorted(s: seq<int>, G: seq<int>) {
    && |G| == |s|
    && forall r :: 0 <= r < |G| ==>
         && 0 <= G[r] < |s|
         && Start(s, s[G[r]]) <= r <= End(s, s[G[r]])
         && (SType(s, G[r]) <==> Mid(s, s[G[r]]) <= r)
  }

  /**
   * When the S-type scan has read every slot, the slots hold every position
   * exactly once, sorted into buckets, with the sentinel first.
   */
  lemma SPassEnd(s: seq<int>, c2b: map<int, int>, tails: seq<int>, G: seq<int>, WS: set<int>)
    requires SPass(s, c2b, tails, G, 0, WS)
    ensures IsPermutation(G) && BucketSorted(s, G) && G[0] == |s| - 1
  {
    forall q | 0 <= q < |s|
      ensures q in G
    {
      if q == |s| - 1 {
        assert G[0] == q;
      } else if SType(s, q) {
        SInduced(s, G, WS, q);
      }
    }
    FullSlots(s, G);
  }

  // ---------------------------------------------------------------------------
  // The scan over the slots as the L-type scan left them.

  /** `G` is `Gp` except where `Gp` is blank and `G` holds a sample position. */
  ghost predicate SAgree(s: seq<int>, G: seq<int>, Gp: seq<int>) {
    && |G| == |Gp|
    && forall r :: 0 <= r < |G| ==> G[r] == Gp[r] || (Gp[r] == Blank && LmsPos(s, G[r]))
  }

  /** The positions the clearing removes are seeded sample positions. */
  lemma ProjectAgrees(s: seq<int>, c2b: map<int, int>, heads: seq<int>, G: seq<int>, WL: set<int>)
    requires LPass(s, c2b, heads, G, |s|, WL)
    ensures SAgree(s, G, Project(s, G))
  {
  }

  /**
   * A sample position induces nothing, so a step reads the same target from
   * both pictures and writes it to the same slot.
   */
  lemma SAgreeStep(s: seq<int>, c2b: map<int, int>, tails: seq<int>, G: seq<int>, Gp: seq<int>, i: int)
    requires SAgree(s, G, Gp)
    ensures STarget(s, c2b, tails, G, i) == STarget(s, c2b, tails, Gp, i)
    ensures SStepTails(s, c2b, tails, G, i) == SStepTails(s, c2b, tails, Gp, i)
    ensures SAgree(s, SStepSlots(s, c2b, tails, G, i), SStepSlots(s, c2b, tails, Gp, i))
  {
    if 0 <= i < |G| && G[i] != Gp[i] {
      assert LmsPos(s, G[i]);
    }
    var v := STarget(s, c2b, tails, Gp, i);
    if v >= 0 {
      var t := tails[c2b[s[v]]];
      var G', Gp' := G[t := v], Gp[t := v];
      forall r | 0 <= r < |G'|
        ensures G'[r] == Gp'[r] || (Gp'[r] == Blank && LmsPos(s, G'[r]))
      {
      }
    }
  }

  /** Both pictures go through the same tails, and keep agreeing. */
  lemma {:induction false} SRunAgree(s: seq<int>, c2b: map<int, int>, tails: seq<int>, G: seq<int>, Gp: seq<int>, j: nat)
    requires SAgree(s, G, Gp)
    ensures SRunTails(s, c2b, tails, G, j) == SRunTails(s, c2b, tails, Gp, j)
    ensures SAgree(s, SRunSlots(s, c2b, tails, G, j), SRunSlots(s, c2b, tails, Gp, j))
    decreases |s| - j
  {
    if j < |s| {
      var k := j + 1;
      SRunAgree(s, c2b, tails, G, Gp, k);
      SAgreeStep(s, c2b, SRunTails(s, c2b, tails, G, k), SRunSlots(s, c2b, tails, G, k), SRunSlots(s, c2b, tails, Gp, k), j);
    }
  }

  /** Pictures that agree, one without blanks, are equal. */
  lemma SAgreeFull(s: seq<int>, G: seq<int>, Gp: seq<int>)
    requires SAgree(s, G, Gp) && forall r :: 0 <= r < |Gp| ==> Gp[r] != Blank
    ensures G == Gp
  {
  }

  /**
   * The S-type scan over the slots as the L-type scan left them, with the
   * tails back at the bucket ends, leaves every position in exactly one
   * slot, sorted into buckets, with the sentinel first.
   */
  lemma SScanResult(s: seq<int>, c2b: map<int, int>, heads: seq<int>, G: seq<int>, WL: set<int>, tails: seq<int>)
    requires LPass(s, c2b, heads, G, |s|, WL)
    requires Numbering(s, c2b, tails) && forall c {:trigger Ptr(tails, c2b, c)} :: c in c2b ==> Ptr(tails, c2b, c) == End(s, c)
    ensures var R := SRunSlots(s, c2b, tails, G, 0);
      IsPermutation(R) && BucketSorted(s, R) && R[0] == |s| - 1
  {
    var Gp := Project(s, G);
    SPassInit(s, c2b, heads, G, WL, tails);
    var WS := SRunPass(s, c2b, tails, Gp, 0);
    SPassEnd(s, c2b, SRunTails(s, c2b, tails, Gp, 0), SRunSlots(s, c2b, tails, Gp, 0), WS);
    ProjectAgrees(s, c2b, heads, G, WL);
    SRunAgree(s, c2b, tails, G, Gp, 0);
    SAgreeFull(s, SRunSlots(s, c2b, tails, G, 0), SRunSlots(s, c2b, tails, Gp, 0));
  }
}
