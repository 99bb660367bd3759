/**
 * GoodSuffix.java: a scanner driven by the good-suffix tables alone. It
 * builds the same bpos and shift arrays as the other two scanners
 * (shift has NO_OF_CHARS == 256 entries, so the pattern must be shorter
 * than that), advances by shift[0] after a full match, and after a
 * mismatch at index j by the larger of j + 1 - bpos[j + 1] and
 * Max(|p| - bpos[j + 1], 1). The first candidate is never positive and
 * the second is not a safe shift, so the scan reports genuine
 * occurrences in ascending order but can pass over some of them.
 */
module GoodSuffix {
  import opened Matching
  import opened Borders
  import opened GoodSuffixTable

  /** NO_OF_CHARS: the length of the shift array searchPattern allocates. */
  const AlphabetSize := 256

  /**
   * How far searchPattern advances at offset o: shift[0] after a full
   * match; after a mismatch at j, the larger of shift1 == j + 1 - bpos[j + 1]
   * and shift2, which is Max(|p| - bpos[j + 1], 1) when shift[j + 1] is
   * non-zero and 1 otherwise.
   */
  function Advance(text: seq<char>, p: seq<char>, o: nat): (s: int)
    requires o + |p| <= |text|
    ensures 1 <= s
  {
    var j := Mismatch(text, p, o);
    if j < 0 then GoodSuffixShift(p, 0)
    else
      var shift1 := j + 1 - WidestBorderStart(p, j + 1);
      var shift2 := if GoodSuffixShift(p, j + 1) != 0 then Max(|p| - WidestBorderStart(p, j + 1), 1) else 1;
      Max(shift1, shift2)
  }

  /**
   * After a mismatch, shift1 is negative (the widest border of p[j + 1..]
   * starts after j + 1), the table entry is never 0, and so the advance is
   * the length of the widest border of p[j + 1..] subtracted from |p|,
   * but at least 1.
   */
  lemma AdvanceAfterMismatch(text: seq<char>, p: seq<char>, o: nat)
    requires o + |p| <= |text| && 0 <= Mismatch(text, p, o)
    ensures var j := Mismatch(text, p, o);
      j + 1 - WidestBorderStart(p, j + 1) < 0 &&
      GoodSuffixShift(p, j + 1) != 0 &&
      Advance(text, p, o) == Max(|p| - WidestBorderStart(p, j + 1), 1)
  {
  }

  /** The offsets searchPattern reports once it has reached offset o. */
  function ScanFrom(text: seq<char>, p: seq<char>, o: nat): seq<int>
    decreases |text| + 1 - o
  {
    if o + |p| > |text| then []
    else (if Mismatch(text, p, o) < 0 then [o] else []) + ScanFrom(text, p, o + Advance(text, p, o))
  }

  /** The offsets searchPattern reports. */
  function Scan(text: seq<char>, p: seq<char>): seq<int>
  {
    ScanFrom(text, p, 0)
  }

  lemma ScanFromStep(text: seq<char>, p: seq<char>, o: nat)
    requires o + |p| <= |text|
    ensures ScanFrom(text, p, o) ==
      (if Mismatch(text, p, o) < 0 then [o] else []) + ScanFrom(text, p, o + Advance(text, p, o))
  {
  }

  /** Every offset the scan reports from o on is an occurrence at or after o, in ascending order. */
  lemma {:induction false} ScanFromSound(text: seq<char>, p: seq<char>, o: nat)
    ensures forall x :: x in ScanFrom(text, p, o) ==> o <= x && MatchesAt(text, p, x)
    ensures StrictlyAscending(ScanFrom(text, p, o))
    decreases |text| + 1 - o
  {
    if o + |p| <= |text| {
      MismatchMeaning(text, p, o);
      var next := o + Advance(text, p, o);
      ScanFromSound(text, p, next);
      ScanFromStep(text, p, o);
      PrependOffset(o, Mismatch(text, p, o) < 0, ScanFrom(text, p, next), ScanFrom(text, p, o));
    }
  }

  /** The scan reports only occurrences, each once and in ascending order. */
  lemma ScanSound(text: seq<char>, p: seq<char>)
    ensures forall x :: x in Scan(text, p) ==> MatchesAt(text, p, x)
    ensures StrictlyAscending(Scan(text, p))
  {
    ScanFromSound(text, p, 0);
  }

  /** An empty pattern is reported at every offset from o to |text|. */
  lemma {:induction false} ScanFromEmpty(text: seq<char>, o: nat)
    requires o <= |text| + 1
    ensures ScanFrom(text, [], o) == seq(|text| + 1 - o, k => o + k)
    decreases |text| + 1 - o
  {
    if o <= |text| {
      assert GoodSuffixShift([], 0) == 1;
      ScanFromEmpty(text, o + 1);
    }
  }

  /**
   * A pattern longer than the text is never reported, and the empty
   * pattern is reported at every offset 0..|text|, as Occurrences does.
   */
  lemma ScanEdgeCases(text: seq<char>, p: seq<char>)
    ensures |p| > |text| ==> Scan(text, p) == []
    ensures Scan(text, []) == seq(|text| + 1, k => k) == Occurrences(text, [])
  {
    ScanFromEmpty(text, 0);
    OccurrencesOfEmpty(text, 0);
  }

  /**
   * For a pattern of at most three symbols the widest border of p[j + 1..]
   * starts at 2 or later, so every mismatch moves the scan on by one: a
   * stretch of offsets without a match is passed one by one and reports
   * nothing.
   */
  lemma {:induction false} ShortPatternSkips(text: seq<char>, p: seq<char>, lo: nat, hi: nat)
    requires |p| <= 3 && lo <= hi && hi + |p| <= |text| + 1 && NoMatchBetween(text, p, lo, hi)
    ensures ScanFrom(text, p, lo) == ScanFrom(text, p, hi)
    decreases hi - lo
  {
    if lo < hi {
      MismatchMeaning(text, p, lo);
      AdvanceAfterMismatch(text, p, lo);
      ShortPatternSkips(text, p, lo + 1, hi);
      ScanFromStep(text, p, lo);
    }
  }

  /** A full match at o is reported, and the scan goes on at o + shift[0]. */
  lemma MatchStep(text: seq<char>, p: seq<char>, o: nat)
    requires MatchesAt(text, p, o)
    ensures ScanFrom(text, p, o) == [o] + ScanFrom(text, p, o + GoodSuffixShift(p, 0))
  {
    MismatchMeaning(text, p, o);
    ScanFromStep(text, p, o);
  }

  /**
   * The scan as written misses an occurrence: "AAAA" occurs in "BAAAA" at
   * offset 1, but at offset 0 the mismatch at index 0 advances by
   * |p| - bpos[1] == 4 - 2 == 2.
   */
  lemma ScanMissesOccurrence()
    ensures Occurrences("BAAAA", "AAAA") == [1]
    ensures Scan("BAAAA", "AAAA") == []
  {
    var text, p := "BAAAA", "AAAA";
    MismatchMeaning(text, p, 0);
    assert text[0] != p[0];
    assert Mismatch(text, p, 0) == 0;
    assert IsBorderStart(p, 1, 2);
    WidestBorderStartIsWidest(p, 1);
    assert WidestBorderStart(p, 1) == 2;
    AdvanceAfterMismatch(text, p, 0);
    assert Advance(text, p, 0) == 2;
    assert MatchesAt(text, p, 1);
    assert OccurrencesFrom(text, p, 2) == [];
  }

  /**
   * The set-up of searchPattern: bpos gets |p| + 1 entries and shift 256,
   * the first |p| + 1 entries of shift are cleared, and the two good-suffix
   * passes fill them.
   */
  method PrepareTables(pattern: seq<char>) returns (bpos: array<int>, shift: array<int>)
    requires |pattern| < AlphabetSize
    ensures bpos.Length == |pattern| + 1 && shift.Length == AlphabetSize
    ensures forall i :: 0 <= i <= |pattern| ==> bpos[i] == WidestBorderStart(pattern, i)
    ensures forall k :: 0 <= k <= |pattern| ==> shift[k] == GoodSuffixShift(pattern, k)
  {
    var m := |pattern|;
    bpos := new int[m + 1];
    shift := new int[AlphabetSize];
    for i := 0 to m + 1
      invariant forall k :: 0 <= k < i ==> shift[k] == 0
    {
      shift[i] := 0;
    }
    PreprocessStrongSuffix(shift, bpos, pattern);
    PreprocessCase2(shift, bpos, pattern);
  }

  /**
   * searchPattern as written: the offsets it reports ("Pattern occurs at
   * shift = s") are those of Scan, hence genuine occurrences in ascending
   * order. The pattern must be shorter than the 256-entry shift array.
   */
  method SearchPattern(text: seq<char>, pattern: seq<char>) returns (shifts: seq<int>)
    requires |pattern| < AlphabetSize
    ensures shifts == Scan(text, pattern)
    ensures forall x :: x in shifts ==> MatchesAt(text, pattern, x)
    ensures StrictlyAscending(shifts)
  {
    var n := |text|;
    var m := |pattern|;
    var bpos, shift := PrepareTables(pattern);
    shifts := [];
    var s := 0;
    while s <= n - m
      invariant 0 <= s
      invariant shifts + ScanFrom(text, pattern, s) == Scan(text, pattern)
      modifies {}
      decreases n - m + 1 - s
    {
      ghost var reported := shifts;
      var j := CompareFromRight(text, pattern, s);
      var advance;
      if j < 0 {
        shifts := shifts + [s];
        advance := shift[0];
      } else {
        var shift1 := j + 1 - bpos[j + 1];
        var shift2 := 1;
        if shift[j + 1] != 0 {
          shift2 := Max(m - bpos[j + 1], 1);
        }
        advance := Max(shift1, shift2);
      }
      ScanStep(text, pattern, s, j, advance, reported);
      s := s + advance;
    }
    ScanSound(text, pattern);
  }

  /** One iteration of the scan loop of searchPattern follows ScanFrom. */
  lemma ScanStep(text: seq<char>, p: seq<char>, o: nat, j: int, advance: int, reported: seq<int>)
    requires o + |p| <= |text| && j == Mismatch(text, p, o)
    requires j < 0 ==> advance == GoodSuffixShift(p, 0)
    requires j >= 0 ==> advance == Max(j + 1 - WidestBorderStart(p, j + 1),
      if GoodSuffixShift(p, j + 1) != 0 then Max(|p| - WidestBorderStart(p, j + 1), 1) else 1)
    ensures advance == Advance(text, p, o)
    ensures reported + ScanFrom(text, p, o) ==
      (if j < 0 then reported + [o] else reported) + ScanFrom(text, p, o + advance)
  {
    assert advance == Advance(text, p, o);
    ScanFromStep(text, p, o);
    ExtendReported(reported, o, j < 0, ScanFrom(text, p, o + advance), ScanFrom(text, p, o));
  }

  /**
   * searchPattern with the good-suffix rule the table was built for: after
   * a mismatch at j the scan advances by shift[j + 1]. It reports every
   * occurrence.
   */
  method CorrectedSearchPattern(text: seq<char>, pattern: seq<char>) returns (shifts: seq<int>)
    requires |pattern| < AlphabetSize
    ensures shifts == Occurrences(text, pattern)
  {
    var n := |text|;
    var m := |pattern|;
    var bpos, shift := PrepareTables(pattern);
    shifts := [];
    var s := 0;
    while s <= n - m
      invariant 0 <= s
      invariant shifts + OccurrencesFrom(text, pattern, s) == Occurrences(text, pattern)
      modifies {}
      decreases n - m + 1 - s
    {
      ghost var reported := shifts;
      var j := CompareFromRight(text, pattern, s);
      var advance;
      if j < 0 {
        shifts := shifts + [s];
        advance := shift[0];
      } else {
        advance := shift[j + 1];
      }
      CorrectedStepIsSafe(text, pattern, s, j, advance, reported);
      s := s + advance;
    }
  }

  /** The advance of CorrectedSearchPattern at offset o skips no occurrence. */
  lemma CorrectedStepIsSafe(text: seq<char>, p: seq<char>, o: nat, j: int, advance: int, reported: seq<int>)
    requires o + |p| <= |text| && j == Mismatch(text, p, o)
    requires advance == GoodSuffixShift(p, j + 1)
    ensures 1 <= advance
    ensures reported + OccurrencesFrom(text, p, o) ==
      (if j < 0 then reported + [o] else reported) + OccurrencesFrom(text, p, o + advance)
  {
    MismatchMeaning(text, p, o);
    GoodSuffixSkipIsSafe(text, p, o, j + 1, advance);
    AdvanceKeepsOccurrences(text, p, o, advance);
    ExtendReported(reported, o, j < 0, OccurrencesFrom(text, p, o + advance), OccurrencesFrom(text, p, o));
  }
}
