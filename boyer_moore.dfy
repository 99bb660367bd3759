/**
 * BoyerMoore.java: Boyer–Moore with a one-dimensional bad-character table.
 * The table holds, for every symbol below 256, the distance from its
 * rightmost occurrence in p[..|p|-1] to the last pattern index (|p| when
 * it does not occur there). The scan subtracts that distance from the
 * mismatch index as if it were an index, so it can pass over an
 * occurrence: it reports only genuine occurrences, in ascending order, but
 * not necessarily all of them.
 */
module BoyerMoore {
  import opened Matching
  import opened Borders
  import opened GoodSuffixTable

  /** NO_OF_CHARS: the size of the bad-character table. */
  const AlphabetSize := 256

  /**
   * The pattern symbols preprocessBadCharacter uses as table indices, all
   * but the last, are below 256.
   */
  predicate TableSymbols(p: seq<char>)
  {
    forall t :: 0 <= t < |p| - 1 ==> p[t] as int < AlphabetSize
  }

  /**
   * |p| - 1 - t for the rightmost t <= k with p[t] == c, or |p| when
   * there is none.
   */
  function DistanceToEnd(p: seq<char>, c: char, k: int): int
    requires k < |p|
  {
    var l := LastIndexIn(p, c, 0, k);
    if l < 0 then |p| else |p| - 1 - l
  }

  /**
   * badCharacter[c]: the distance from the rightmost occurrence of c in
   * p[..|p|-1] to the last index of the pattern, or |p| when c does not
   * occur there.
   */
  function BadCharShift(p: seq<char>, c: char): (r: int)
    ensures |p| >= 1 ==> 1 <= r <= |p|
    ensures r < |p| ==> 0 <= |p| - 1 - r < |p| - 1 && p[|p| - 1 - r] == c
  {
    DistanceToEnd(p, c, |p| - 2)
  }

  /**
   * The entry is |p| exactly when c does not occur in p[..|p|-1];
   * otherwise no index between |p| - 1 - entry and |p| - 1 holds c.
   */
  lemma BadCharShiftRightmost(p: seq<char>, c: char)
    ensures BadCharShift(p, c) == |p| <==> forall t :: 0 <= t < |p| - 1 ==> p[t] != c
    ensures forall t :: |p| - 1 - BadCharShift(p, c) < t < |p| - 1 ==> p[t] != c
  {
    LastIndexInRightmost(p, c, 0, |p| - 2);
  }

  /**
   * preprocessBadCharacter: every entry starts at |p|; then, for i from 0
   * up to |p| - 2, the entry of p[i] becomes |p| - 1 - i, so that later
   * occurrences overwrite earlier ones.
   */
  method PreprocessBadCharacter(p: seq<char>) returns (badCharacter: array<int>)
    requires TableSymbols(p)
    ensures badCharacter.Length == AlphabetSize
    ensures forall c :: 0 <= c < AlphabetSize ==> badCharacter[c] == BadCharShift(p, c as char)
  {
    badCharacter := new int[AlphabetSize];
    for c := 0 to AlphabetSize
      invariant forall c' :: 0 <= c' < c ==> badCharacter[c'] == |p|
    {
      badCharacter[c] := |p|;
    }
    var i := 0;
    while i < |p| - 1
      invariant 0 <= i <= Max(|p| - 1, 0)
      invariant forall c :: 0 <= c < AlphabetSize ==> badCharacter[c] == DistanceToEnd(p, c as char, i - 1)
    {
      var currentChar := p[i];
      var shiftValue := |p| - 1 - i;
      badCharacter[currentChar as int] := shiftValue;
      i := i + 1;
    }
    forall c | 0 <= c < AlphabetSize ensures badCharacter[c] == BadCharShift(p, c as char) {
      if |p| == 0 {
        assert LastIndexIn(p, c as char, 0, -1) == -1 == LastIndexIn(p, c as char, 0, -2);
      }
    }
  }

  /**
   * How far the scan advances at offset o: shift[0] after a full match;
   * after a mismatch at index j, the larger of Max(1, j - badCharacter[c])
   * for the mismatched text symbol c and shift[j + 1].
   */
  function Advance(text: seq<char>, p: seq<char>, o: nat): (s: int)
    requires o + |p| <= |text|
    ensures 1 <= s
  {
    var j := Mismatch(text, p, o);
    if j < 0 then GoodSuffixShift(p, 0)
    else Max(Max(1, j - BadCharShift(p, text[o + j])), GoodSuffixShift(p, j + 1))
  }

  /** The offsets the scan reports once it has reached offset o. */
  function ScanFrom(text: seq<char>, p: seq<char>, o: nat): seq<int>
    decreases |text| + 1 - o
  {
    if o + |p| > |text| then []
    else (if Mismatch(text, p, o) < 0 then [o] else []) + ScanFrom(text, p, o + Advance(text, p, o))
  }

  /** The offsets boyerMoore reports. */
  function Scan(text: seq<char>, p: seq<char>): seq<int>
  {
    ScanFrom(text, p, 0)
  }

  /** Every offset the scan reports from o on is an occurrence at or after o, in ascending order. */
  lemma {:induction false} ScanFromSound(text: seq<char>, p: seq<char>, o: nat)
    ensures forall x :: x in ScanFrom(text, p, o) ==> o <= x && MatchesAt(text, p, x)
    ensures StrictlyAscending(ScanFrom(text, p, o))
    decreases |text| + 1 - o
  {
    if o + |p| <= |text| {
      MismatchMeaning(text, p, o);
      var next := o + Advance(text, p, o);
      ScanFromSound(text, p, next);
      ScanFromStep(text, p, o);
      PrependOffset(o, Mismatch(text, p, o) < 0, ScanFrom(text, p, next), ScanFrom(text, p, o));
    }
  }

  /** The scan reports only occurrences, each once and in ascending order. */
  lemma ScanSound(text: seq<char>, p: seq<char>)
    ensures forall x :: x in Scan(text, p) ==> MatchesAt(text, p, x)
    ensures StrictlyAscending(Scan(text, p))
  {
    ScanFromSound(text, p, 0);
  }

  /** An empty pattern is reported at every offset from o to |text|. */
  lemma {:induction false} ScanFromEmpty(text: seq<char>, o: nat)
    requires o <= |text| + 1
    ensures ScanFrom(text, [], o) == seq(|text| + 1 - o, k => o + k)
    decreases |text| + 1 - o
  {
    if o <= |text| {
      assert GoodSuffixShift([], 0) == 1;
      ScanFromEmpty(text, o + 1);
    }
  }

  /**
   * A pattern longer than the text is never reported, and the empty
   * pattern is reported at every offset 0..|text|, as Occurrences does.
   */
  lemma ScanEdgeCases(text: seq<char>, p: seq<char>)
    ensures |p| > |text| ==> Scan(text, p) == []
    ensures Scan(text, []) == seq(|text| + 1, k => k) == Occurrences(text, [])
  {
    ScanFromEmpty(text, 0);
    OccurrencesOfEmpty(text, 0);
  }

  /**
   * The scan as written misses an occurrence: in "QXYccZ" the pattern
   * "XYccZ" occurs at offset 1, but at offset 0 the mismatch at index 4
   * against 'c' advances by 4 - badCharacter['c'] == 3.
   */
  lemma ScanMissesOccurrence()
    ensures Occurrences("QXYccZ", "XYccZ") == [1]
    ensures Scan("QXYccZ", "XYccZ") == []
  {
    var text, p := "QXYccZ", "XYccZ";
    MismatchMeaning(text, p, 0);
    assert Mismatch(text, p, 0) == 4;
    assert BadCharShift(p, 'c') == 1;
    assert Compatible(p, 5, 1);
    assert GoodSuffixShift(p, 5) == 1;
    assert Advance(text, p, 0) == 3;
    assert !MatchesAt(text, p, 0);
    assert MatchesAt(text, p, 1);
    assert OccurrencesFrom(text, p, 2) == [];
  }

  /**
   * A run of offsets at each of which the scan mismatches and moves on by
   * one reports nothing.
   */
  lemma {:induction false} ScanFromSkipsRun(text: seq<char>, p: seq<char>, lo: nat, hi: nat)
    requires lo <= hi && hi + |p| <= |text| + 1
    requires forall o :: lo <= o < hi ==> Mismatch(text, p, o) >= 0 && Advance(text, p, o) == 1
    ensures ScanFrom(text, p, lo) == ScanFrom(text, p, hi)
    decreases hi - lo
  {
    if lo < hi {
      ScanFromSkipsRun(text, p, lo + 1, hi);
      ScanFromStep(text, p, lo);
    }
  }

  /**
   * For a pattern of at most three symbols the bad-character candidate
   * j - badchar[c] is at most 1, so a mismatch at j moves the scan on by
   * shift[j + 1].
   */
  lemma ShortPatternStep(text: seq<char>, p: seq<char>, o: nat, j: int, next: nat)
    requires |p| <= 3 && o + |p| <= |text| && 0 <= j == Mismatch(text, p, o)
    requires next == o + GoodSuffixShift(p, j + 1)
    ensures ScanFrom(text, p, o) == ScanFrom(text, p, next)
  {
    ScanFromStep(text, p, o);
  }

  /**
   * A three-symbol pattern with shift[3] == 1 that mismatches at its last
   * index at every offset in [lo, hi) moves on by one at each of them and
   * reports nothing there.
   */
  lemma ShortPatternSkips(text: seq<char>, p: seq<char>, lo: nat, hi: nat)
    requires |p| == 3 && GoodSuffixShift(p, 3) == 1 && lo <= hi && hi + 3 <= |text| + 1
    requires forall o :: lo <= o < hi ==> Mismatch(text, p, o) == 2
    ensures ScanFrom(text, p, lo) == ScanFrom(text, p, hi)
  {
    forall o | lo <= o < hi ensures Mismatch(text, p, o) >= 0 && Advance(text, p, o) == 1 {
    }
    ScanFromSkipsRun(text, p, lo, hi);
  }

  /** A full match at o is reported, and the scan goes on at o + shift[0]. */
  lemma MatchStep(text: seq<char>, p: seq<char>, o: nat)
    requires MatchesAt(text, p, o)
    ensures ScanFrom(text, p, o) == [o] + ScanFrom(text, p, o + GoodSuffixShift(p, 0))
  {
    MismatchMeaning(text, p, o);
    ScanFromStep(text, p, o);
  }

  /**
   * boyerMoore as written: the reported offsets are those of Scan, hence
   * genuine occurrences in ascending order.
   */
  method Search(text: seq<char>, pattern: seq<char>) returns (occurrences: seq<int>)
    requires IsByteString(text) && TableSymbols(pattern)
    ensures occurrences == Scan(text, pattern)
    ensures forall x :: x in occurrences ==> MatchesAt(text, pattern, x)
    ensures StrictlyAscending(occurrences)
  {
    var n := |text|;
    var m := |pattern|;
    var badCharacter := PreprocessBadCharacter(pattern);
    var goodSuffixShift := PreprocessGoodSuffixShift(pattern);
    occurrences := [];
    var i := 0;
    while i <= n - m
      invariant 0 <= i
      invariant occurrences + ScanFrom(text, pattern, i) == Scan(text, pattern)
      modifies {}
      decreases n - m + 1 - i
    {
      ghost var reported := occurrences;
      var j := CompareFromRight(text, pattern, i);
      var advance;
      if j < 0 {
        occurrences := occurrences + [i];
        advance := goodSuffixShift[0];
      } else {
        var badCharShift := Max(1, j - badCharacter[text[i + j] as int]);
        var goodSuffixShiftValue := goodSuffixShift[j + 1];
        advance := Max(badCharShift, goodSuffixShiftValue);
      }
      ScanStep(text, pattern, i, j, advance, reported);
      i := i + advance;
    }
    ScanSound(text, pattern);
  }

  /** One iteration of the scan loop follows ScanFrom. */
  lemma ScanStep(text: seq<char>, p: seq<char>, o: nat, j: int, advance: int, reported: seq<int>)
    requires o + |p| <= |text| && j == Mismatch(text, p, o)
    requires j < 0 ==> advance == GoodSuffixShift(p, 0)
    requires j >= 0 ==> advance == Max(Max(1, j - BadCharShift(p, text[o + j])), GoodSuffixShift(p, j + 1))
    ensures advance == Advance(text, p, o)
    ensures reported + ScanFrom(text, p, o) ==
      (if j < 0 then reported + [o] else reported) + ScanFrom(text, p, o + advance)
  {
    assert advance == Advance(text, p, o);
    ScanFromStep(text, p, o);
    ExtendReported(reported, o, j < 0, ScanFrom(text, p, o + advance), ScanFrom(text, p, o));
  }

  lemma ScanFromStep(text: seq<char>, p: seq<char>, o: nat)
    requires o + |p| <= |text|
    ensures ScanFrom(text, p, o) ==
      (if Mismatch(text, p, o) < 0 then [o] else []) + ScanFrom(text, p, o + Advance(text, p, o))
  {
  }

  /**
   * boyerMooreMultiPattern: one entry per supplied pattern, holding what
   * boyerMoore reports for that pattern.
   */
  method MultiPattern(text: seq<char>, patterns: seq<seq<char>>) returns (result: map<seq<char>, seq<int>>)
    requires IsByteString(text) && forall q :: q in patterns ==> TableSymbols(q)
    ensures forall q :: q in result <==> q in patterns
    ensures forall q :: q in result ==> result[q] == Scan(text, q)
  {
    result := map[];
    for n := 0 to |patterns|
      invariant forall q :: q in result <==> q in patterns[..n]
      invariant forall q :: q in result ==> result[q] == Scan(text, q)
    {
      var occurrences := Search(text, patterns[n]);
      result := result[patterns[n] := occurrences];
    }
    assert patterns[..|patterns|] == patterns;
  }

  /**
   * The scan with the bad-character rule the table supports: the table
   * entry d of the mismatched symbol stands for index |p| - 1 - d, so the
   * shift is Max(1, j - (|p| - 1 - d)). It reports every occurrence.
   */
  method CorrectedSearch(text: seq<char>, pattern: seq<char>) returns (occurrences: seq<int>)
    requires IsByteString(text) && TableSymbols(pattern)
    ensures occurrences == Occurrences(text, pattern)
  {
    var n := |text|;
    var m := |pattern|;
    var badCharacter := PreprocessBadCharacter(pattern);
    var goodSuffixShift := PreprocessGoodSuffixShift(pattern);
    occurrences := [];
    var i := 0;
    while i <= n - m
      invariant 0 <= i
      invariant occurrences + OccurrencesFrom(text, pattern, i) == Occurrences(text, pattern)
      modifies {}
      decreases n - m + 1 - i
    {
      ghost var reported := occurrences;
      var j := CompareFromRight(text, pattern, i);
      var advance;
      if j < 0 {
        occurrences := occurrences + [i];
        advance := goodSuffixShift[0];
      } else {
        var badCharShift := Max(1, j - (m - 1 - badCharacter[text[i + j] as int]));
        advance := Max(badCharShift, goodSuffixShift[j + 1]);
      }
      CorrectedStepIsSafe(text, pattern, i, j, advance, reported);
      i := i + advance;
    }
  }

  /** The advance of CorrectedSearch at offset o skips no occurrence. */
  lemma CorrectedStepIsSafe(text: seq<char>, p: seq<char>, o: nat, j: int, advance: int, reported: seq<int>)
    requires o + |p| <= |text| && j == Mismatch(text, p, o)
    requires j < 0 ==> advance == GoodSuffixShift(p, 0)
    requires j >= 0 ==> advance == Max(Max(1, j - (|p| - 1 - BadCharShift(p, text[o + j]))), GoodSuffixShift(p, j + 1))
    ensures 1 <= advance
    ensures reported + OccurrencesFrom(text, p, o) ==
      (if j < 0 then reported + [o] else reported) + OccurrencesFrom(text, p, o + advance)
  {
    MismatchMeaning(text, p, o);
    if j >= 0 {
      BadCharShiftRightmost(p, text[o + j]);
      BadCharacterSkipIsSafe(text, p, o, j, |p| - 1 - BadCharShift(p, text[o + j]));
    }
    GoodSuffixSkipIsSafe(text, p, o, j + 1, GoodSuffixShift(p, j + 1));
    AdvanceKeepsOccurrences(text, p, o, advance);
    ExtendReported(reported, o, j < 0, OccurrencesFrom(text, p, o + advance), OccurrencesFrom(text, p, o));
  }
}
