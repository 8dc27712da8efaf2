/**
 * The naive matcher used by the test suite as the reference for
 * `SuffixArray.search`: it tries every start position and compares the
 * pattern character by character.
 */
module BruteForceMatcher {
  import opened Lex

  class BruteForce {
    /** The text being searched; `search` never changes it. */
    const text: string

    constructor (inputString: string)
      ensures text == inputString
    {
      text := inputString;
    }

    /**
     * Every position where `pattern` occurs, in ascending order.  An empty
     * pattern occurs at each of the |text|+1 positions, a pattern longer
     * than the text nowhere.
     */
    method Search(pattern: string) returns (matchIndexes: seq<nat>)
      ensures forall i: int :: i in matchIndexes <==> MatchAt(text, pattern, i)
      ensures forall a, b :: 0 <= a < b < |matchIndexes| ==> matchIndexes[a] < matchIndexes[b]
      ensures |pattern| == 0 ==> matchIndexes == seq(|text| + 1, k => k)
      ensures |pattern| > |text| ==> matchIndexes == []
    {
      matchIndexes := [];
      var i: nat := 0;
      while i + |pattern| <= |text|
        invariant i <= |text| + 1
        invariant forall k: int :: k in matchIndexes <==> k < i && MatchAt(text, pattern, k)
        invariant forall a, b :: 0 <= a < b < |matchIndexes| ==> matchIndexes[a] < matchIndexes[b]
        invariant forall a :: 0 <= a < |matchIndexes| ==> matchIndexes[a] < i
        invariant |pattern| == 0 ==> matchIndexes == seq(i, k => k)
        invariant |pattern| > |text| ==> matchIndexes == []
        decreases |text| + 1 - i
      {
        var j := 0;
        while j < |pattern|
          invariant j <= |pattern|
          invariant text[i..i + j] == pattern[..j]
        {
          if text[i + j] != pattern[j] {
            break;
          }
          j := j + 1;
        }
        if j == |pattern| {
          matchIndexes := matchIndexes + [i];
        } else {
          assert text[i..i + |pattern|][j] != pattern[j];
        }
        i := i + 1;
      }
    }
  }
}
