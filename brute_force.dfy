/**
 * Main.java: the naive scanner. At every offset it compares the pattern
 * with the text from right to left, records the offset on a full match,
 * and always moves on by one. Besides the list of matched offsets it keeps
 * a flag telling whether anything matched.
 */
module BruteForce {
  import opened Matching

  /**
   * patternSearch: matchedIndex is exactly the list of occurrences, in
   * ascending order, and matched says whether the pattern occurs at all.
   */
  method PatternSearch(text: seq<char>, pattern: seq<char>) returns (matchedIndex: seq<int>, matched: bool)
    ensures matchedIndex == Occurrences(text, pattern)
    ensures matched <==> exists o :: MatchesAt(text, pattern, o)
  {
    matchedIndex := [];
    matched := false;
    var i := 0;
    while i <= |text| - |pattern|
      invariant 0 <= i
      invariant matchedIndex + OccurrencesFrom(text, pattern, i) == Occurrences(text, pattern)
      invariant matched <==> |matchedIndex| > 0
      decreases |text| - |pattern| + 1 - i
    {
      ghost var reported := matchedIndex;
      var j := CompareFromRight(text, pattern, i);
      MismatchMeaning(text, pattern, i);
      AdvanceKeepsOccurrences(text, pattern, i, 1);
      ExtendReported(reported, i, j < 0, OccurrencesFrom(text, pattern, i + 1), OccurrencesFrom(text, pattern, i));
      if j < 0 {
        matchedIndex := matchedIndex + [i];
        i := i + 1;
        matched := true;
      } else {
        i := i + 1;
      }
    }
    MatchedMeansOccurs(text, pattern);
  }

  /** Some offset holds the pattern exactly when the list of occurrences is non-empty. */
  lemma MatchedMeansOccurs(text: seq<char>, p: seq<char>)
    ensures |Occurrences(text, p)| > 0 <==> exists o :: MatchesAt(text, p, o)
  {
    OccurrencesExact(text, p);
    if |Occurrences(text, p)| > 0 {
      assert Occurrences(text, p)[0] in Occurrences(text, p);
    }
  }
}
