/**
 * The keys the induced sort orders suffixes by.  Each position is read as
 * its code together with its type (`Enc`), and a suffix is compared on a
 * prefix of these: up to the first sample position (`Through`), up to the
 * first sample position after its first character (`Beyond`, the sample
 * substring when the suffix starts at a sample position), or to the end of
 * the text (`Whole`).
 *
 * The lemmas here relate the keys to each other, and show that on
 * `Beyond` and `Whole` keys a smaller key means a smaller suffix.
 */
module Keys {
  import opened Lex
  import opened SaisSpec

  /** Position `p` as its code and type: twice the code, plus one when S-type; 0 outside the text. */
  function Enc(s: seq<int>, p: int): int {
    if 0 <= p < |s| then 2 * s[p] + (if SType(s, p) then 1 else 0) else 0
  }

  /** Equal codes and types, and nothing else, give equal `Enc`. */
  lemma EncSame(s: seq<int>, p: int, q: int)
    requires 0 <= p < |s| && 0 <= q < |s|
    ensures Enc(s, p) == Enc(s, q) <==> s[p] == s[q] && (SType(s, p) <==> SType(s, q))
  {
  }

  /** `Enc` orders by code first, and puts an L-type position before an S-type one of the same code. */
  lemma EncLess(s: seq<int>, p: int, q: int)
    requires 0 <= p < |s| && 0 <= q < |s|
    ensures Enc(s, p) < Enc(s, q) <==> s[p] < s[q] || (s[p] == s[q] && !SType(s, p) && SType(s, q))
  {
  }

  /** The last position of a well-formed text is a sample position. */
  lemma SentinelLms(s: seq<int>)
    requires WellFormed(s)
    ensures LmsPos(s, |s| - 1)
  {
    if |s| > 1 {
      assert s[|s| - 2] > s[|s| - 1];
    }
  }

  /** The first sample position at or after `p`, or the last position. */
  function Reach(s: seq<int>, p: nat): (e: nat)
    requires p < |s|
    ensures p <= e < |s|
    ensures e == |s| - 1 || LmsPos(s, e)
    ensures forall q {:trigger LmsPos(s, q)} :: p <= q < e ==> !LmsPos(s, q)
    decreases |s| - p
  {
    if p == |s| - 1 || LmsPos(s, p) then p else Reach(s, p + 1)
  }

  /** How far a key reaches. */
  datatype Scope = Through | Beyond | Whole

  /** The last position a key starting at `p` covers. */
  function KeyEnd(s: seq<int>, p: nat, sc: Scope): (e: nat)
    requires p < |s|
    ensures p <= e < |s|
  {
    match sc
    case Through => Reach(s, p)
    case Beyond => if p == |s| - 1 then p else Reach(s, p + 1)
    case Whole => |s| - 1
  }

  /** The key of suffix `p`: `Enc` of the positions `p .. KeyEnd(s, p, sc)`. */
  function Key(s: seq<int>, p: nat, sc: Scope): (k: seq<int>)
    requires p < |s|
    ensures |k| == KeyEnd(s, p, sc) - p + 1
    ensures forall j :: 0 <= j < |k| ==> k[j] == Enc(s, p + j)
  {
    seq(KeyEnd(s, p, sc) - p + 1, j requires 0 <= j => Enc(s, p + j))
  }

  /** A key that reaches past its first position is that position followed by the next key. */
  lemma KeyStep(s: seq<int>, p: nat, sc: Scope, sc': Scope)
    requires p + 1 < |s| && p < KeyEnd(s, p, sc) && KeyEnd(s, p, sc) == KeyEnd(s, p + 1, sc')
    ensures Key(s, p, sc) == [Enc(s, p)] + Key(s, p + 1, sc')
  {
    var k, k' := Key(s, p, sc), Key(s, p + 1, sc');
    assert |k| == |k'| + 1;
    forall j | 0 <= j < |k|
      ensures k[j] == ([Enc(s, p)] + k')[j]
    {
      if j > 0 {
        assert k'[j - 1] == Enc(s, p + 1 + (j - 1));
      }
    }
  }

  /** The scopes the left-to-right scan works with: it reads L-type keys through the next sample position. */
  predicate LScope(sc: Scope) {
    sc == Through || sc == Whole
  }

  /** The scopes the right-to-left scan works with. */
  predicate SScope(sc: Scope) {
    sc == Beyond || sc == Whole
  }

  /** The key of an L-type position continues with the key of the next position. */
  lemma LKey(s: seq<int>, p: nat, sc: Scope)
    requires p < |s| && !SType(s, p) && LScope(sc)
    ensures p + 1 < |s| && Key(s, p, sc) == [Enc(s, p)] + Key(s, p + 1, sc)
  {
    assert !LmsPos(s, p);
    KeyStep(s, p, sc, sc);
  }

  /** The key of an S-type position other than the last continues with the key of the next position. */
  lemma SKey(s: seq<int>, p: nat, sc: Scope)
    requires p + 1 < |s| && SType(s, p) && SScope(sc)
    ensures Key(s, p, sc) == [Enc(s, p)] + Key(s, p + 1, sc)
  {
    assert !LmsPos(s, p + 1);
    KeyStep(s, p, sc, sc);
  }

  /** Away from sample positions the two shorter scopes agree. */
  lemma BeyondThrough(s: seq<int>, p: nat)
    requires p < |s| && !LmsPos(s, p)
    ensures Key(s, p, Beyond) == Key(s, p, Through)
  {
  }

  /** A smaller first position makes a smaller key, whatever the scope. */
  lemma KeyFirst(s: seq<int>, p: nat, q: nat, sc: Scope, sc': Scope)
    requires p < |s| && q < |s| && Enc(s, p) < Enc(s, q)
    ensures Less(Key(s, p, sc), Key(s, q, sc')) && !Less(Key(s, q, sc'), Key(s, p, sc))
  {
    var a, b := Key(s, p, sc), Key(s, q, sc');
    assert a[0] == Enc(s, p) && b[0] == Enc(s, q);
    assert Lcp(a, b) == 0 && Lcp(b, a) == 0;
  }

  /** Keys that start alike compare as the keys after their first position. */
  lemma KeyTail(a: seq<int>, b: seq<int>, e: int, a': seq<int>, b': seq<int>)
    requires a == [e] + a' && b == [e] + b'
    ensures Less(a, b) <==> Less(a', b')
  {
    assert a[1..] == a' && b[1..] == b';
    LessTail(a, b);
  }

  // ---------------------------------------------------------------------------
  // From keys to suffixes.

  /** Sequences that agree on their first `m` elements compare as what follows them. */
  lemma {:induction false} PrefixLess(a: seq<int>, b: seq<int>, m: nat)
    requires m <= |a| && m <= |b| && a[..m] == b[..m]
    ensures Less(a, b) <==> Less(a[m..], b[m..])
    decreases m
  {
    if m > 0 {
      assert a[0] == a[..m][0] == b[..m][0] == b[0];
      LessTail(a, b);
      var a', b' := a[1..], b[1..];
      assert a'[..m - 1] == a[..m][1..] == b[..m][1..] == b'[..m - 1];
      PrefixLess(a', b', m - 1);
      assert a'[m - 1..] == a[m..] && b'[m - 1..] == b[m..];
    }
  }

  /** Suffixes that agree on their first `m` codes compare as the suffixes after them. */
  lemma ShiftLess(s: seq<int>, p: nat, q: nat, m: nat)
    requires p + m <= |s| && q + m <= |s| && s[p .. p + m] == s[q .. q + m]
    ensures Less(s[p..], s[q..]) <==> Less(s[p + m..], s[q + m..])
  {
    var a, b := s[p..], s[q..];
    assert a[..m] == s[p .. p + m] && b[..m] == s[q .. q + m];
    PrefixLess(a, b, m);
    assert a[m..] == s[p + m..] && b[m..] == s[q + m..];
  }

  /** A suffix whose first code is smaller is the smaller suffix. */
  lemma FirstLess(s: seq<int>, p: nat, q: nat)
    requires p < |s| && q < |s| && s[p] < s[q]
    ensures Less(s[p..], s[q..])
  {
    assert Lcp(s[p..], s[q..]) == 0;
  }

  /** Of two suffixes starting with the same code, the L-type one is smaller. */
  lemma {:induction false} LessLS(s: seq<int>, p: nat, q: nat)
    requires WellFormed(s) && p < |s| && q < |s| && s[p] == s[q] && !SType(s, p) && SType(s, q)
    ensures Less(s[p..], s[q..])
    decreases |s| - p
  {
    assert p < |s| - 1;
    assert q < |s| - 1;
    assert s[p..][1..] == s[p + 1..] && s[q..][1..] == s[q + 1..];
    LessTail(s[p..], s[q..]);
    if s[p + 1] < s[q + 1] {
      FirstLess(s, p + 1, q + 1);
    } else {
      assert s[p + 1] == s[p] == s[q + 1];
      LessLS(s, p + 1, q + 1);
    }
  }

  /** A smaller `Enc` at the first position means a smaller suffix. */
  lemma EncOrder(s: seq<int>, p: nat, q: nat)
    requires WellFormed(s) && p < |s| && q < |s| && Enc(s, p) < Enc(s, q)
    ensures Less(s[p..], s[q..])
  {
    EncLess(s, p, q);
    if s[p] < s[q] {
      FirstLess(s, p, q);
    } else {
      LessLS(s, p, q);
    }
  }

  /**
   * A `Beyond` or `Whole` key is never a proper prefix of another key of
   * the same scope: where the shorter one ends, the longer one ends too.
   */
  lemma KeyClosed(s: seq<int>, x: nat, y: nat, sc: Scope)
    requires WellFormed(s) && x < |s| && y < |s| && SScope(sc)
    requires |Key(s, x, sc)| <= |Key(s, y, sc)| && Key(s, x, sc) == Key(s, y, sc)[..|Key(s, x, sc)|]
    ensures |Key(s, x, sc)| == |Key(s, y, sc)|
  {
    var kx, ky := Key(s, x, sc), Key(s, y, sc);
    var d := |kx| - 1;
    assert kx[d] == ky[d];
    assert Enc(s, x + d) == Enc(s, y + d);
    EncSame(s, x + d, y + d);
    if x == |s| - 1 || sc == Whole {
      assert x + d == |s| - 1;
      assert y + d == |s| - 1;
    } else if y < |s| - 1 {
      var e := x + d;
      SentinelLms(s);
      assert LmsPos(s, e);
      assert kx[d - 1] == ky[d - 1];
      assert Enc(s, e - 1) == Enc(s, y + d - 1);
      EncSame(s, e - 1, y + d - 1);
      assert LmsPos(s, y + d);
    }
  }

  /**
   * On `Beyond` and `Whole` keys a smaller key means a smaller suffix: the
   * first position where the keys differ orders the suffixes, and neither
   * key can stop short of the other.
   */
  lemma KeyOrder(s: seq<int>, x: nat, y: nat, sc: Scope)
    requires WellFormed(s) && x < |s| && y < |s| && SScope(sc)
    requires Less(Key(s, x, sc), Key(s, y, sc))
    ensures Less(s[x..], s[y..])
  {
    var m := KeyDiffer(s, x, y, sc);
    EncOrder(s, x + m, y + m);
    ShiftLess(s, x, y, m);
  }

  /** Where two keys of the same scope first differ, the suffixes agree before it and differ by `Enc` at it. */
  lemma KeyDiffer(s: seq<int>, x: nat, y: nat, sc: Scope) returns (m: nat)
    requires WellFormed(s) && x < |s| && y < |s| && SScope(sc)
    requires Less(Key(s, x, sc), Key(s, y, sc))
    ensures x + m < |s| && y + m < |s| && s[x .. x + m] == s[y .. y + m]
    ensures Enc(s, x + m) < Enc(s, y + m)
  {
    var kx, ky := Key(s, x, sc), Key(s, y, sc);
    m := Lcp(kx, ky);
    LcpMeaning(kx, ky);
    if m == |kx| {
      assert kx == ky[..|kx|];
      KeyClosed(s, x, y, sc);
      assert false;
    }
    assert kx[m] < ky[m];
    var sx, sy := s[x .. x + m], s[y .. y + m];
    forall j | 0 <= j < m
      ensures sx[j] == sy[j]
    {
      assert kx[j] == kx[..m][j] == ky[..m][j] == ky[j];
      EncSame(s, x + j, y + j);
    }
    assert sx == sy;
  }

  /** Whole keys of different positions differ. */
  lemma WholeKeysDiffer(s: seq<int>, x: nat, y: nat)
    requires x < |s| && y < |s| && x != y
    ensures Key(s, x, Whole) != Key(s, y, Whole)
  {
    assert |Key(s, x, Whole)| != |Key(s, y, Whole)|;
  }

  /** A smaller suffix has a whole key that is not larger. */
  lemma WholeFromSuffix(s: seq<int>, x: nat, y: nat)
    requires WellFormed(s) && x < |s| && y < |s| && Less(s[x..], s[y..])
    ensures !Less(Key(s, y, Whole), Key(s, x, Whole))
  {
    if Less(Key(s, y, Whole), Key(s, x, Whole)) {
      KeyOrder(s, y, x, Whole);
      LessAsymmetric(s[x..], s[y..]);
    }
  }
}
