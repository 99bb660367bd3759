/**
 * BoyerMoore3.java: Boyer–Moore with a per-position bad-character matrix.
 * For every symbol c below 256 and pattern column k the matrix records one
 * more than the rightmost index at or before k that holds c, or -1 when
 * there is none. The scan combines that rule with the strong good-suffix
 * table and reports exactly the occurrences of the pattern.
 */
module BoyerMoore3 {
  import opened Matching
  import opened Borders
  import opened GoodSuffixTable

  /**
   * The matrix entry for symbol c and column k when only columns lo and
   * above have been filled in.
   */
  function PartialEntry(p: seq<char>, c: int, lo: nat, k: int): int
    requires 0 <= c < 256 && k < |p|
  {
    var r := LastIndexIn(p, c as char, lo, k);
    if r < 0 then -1 else r + 1
  }

  /**
   * badCharacterMatrix[c][k]: one more than the rightmost index t <= k
   * with p[t] == c, or -1 when p[..k+1] does not hold c.
   */
  function BadCharEntry(p: seq<char>, c: int, k: int): (e: int)
    requires 0 <= c < 256 && k < |p|
    ensures e == -1 || (1 <= e <= k + 1 && p[e - 1] == c as char)
  {
    PartialEntry(p, c, 0, k)
  }

  /** Columns from the entry up to k do not hold c; with -1, no column up to k does. */
  lemma BadCharEntryRightmost(p: seq<char>, c: int, k: int)
    requires 0 <= c < 256 && k < |p|
    ensures forall t :: Max(0, BadCharEntry(p, c, k)) <= t <= k ==> p[t] != c as char
  {
    LastIndexInRightmost(p, c as char, 0, k);
  }

  /**
   * preprocessBadCharacter: every entry starts at -1; then the columns are
   * visited from right to left, and column i of row p[i] is set to i + 1
   * and carried rightwards over the entries that are still -1.
   */
  method PreprocessBadCharacter(p: seq<char>) returns (matrix: array2<int>)
    requires IsByteString(p)
    ensures matrix.Length0 == 256 && matrix.Length1 == |p|
    ensures forall c, k :: 0 <= c < 256 && 0 <= k < |p| ==> matrix[c, k] == BadCharEntry(p, c, k)
  {
    var m := |p|;
    matrix := new int[256, m];
    for c := 0 to 256
      invariant forall c', k :: 0 <= c' < c && 0 <= k < m ==> matrix[c', k] == -1
    {
      for k := 0 to m
        invariant forall c', k' :: 0 <= c' < c && 0 <= k' < m ==> matrix[c', k'] == -1
        invariant forall k' :: 0 <= k' < k ==> matrix[c, k'] == -1
      {
        matrix[c, k] := -1;
      }
    }
    var i := m - 1;
    while i >= 0
      invariant -1 <= i < m
      invariant forall c, k :: 0 <= c < 256 && 0 <= k < m ==> matrix[c, k] == PartialEntry(p, c, i + 1, k)
    {
      var ch := p[i];
      var c := ch as int;
      matrix[c, i] := i + 1;
      var j := i;
      while j < m - 1 && matrix[c, j + 1] == -1
        invariant i <= j < m
        invariant forall k :: i <= k <= j ==> matrix[c, k] == i + 1
        invariant forall t :: i < t <= j ==> p[t] != ch
        invariant forall c', k :: 0 <= c' < 256 && 0 <= k < m && (c' != c || k < i || j < k) ==>
                    matrix[c', k] == PartialEntry(p, c', i + 1, k)
      {
        LastIndexInRightmost(p, ch, i + 1, j + 1);
        matrix[c, j + 1] := i + 1;
        j := j + 1;
      }
      ColumnFilled(p, c, i, j);
      i := i - 1;
    }
  }

  /**
   * Filling column i of row p[i] and carrying it right up to column j
   * turns the entries for columns above i into those for columns i and up.
   */
  lemma ColumnFilled(p: seq<char>, c: int, i: nat, j: int)
    requires IsByteString(p) && i <= j < |p| && c == p[i] as int
    requires forall t :: i < t <= j ==> p[t] != p[i]
    requires j < |p| - 1 ==> PartialEntry(p, c, i + 1, j + 1) != -1
    ensures forall k :: i <= k <= j ==> PartialEntry(p, c, i, k) == i + 1
    ensures forall c', k :: 0 <= c' < 256 && 0 <= k < |p| && (c' != c || k < i || j < k) ==>
              PartialEntry(p, c', i, k) == PartialEntry(p, c', i + 1, k)
  {
    assert c as char == p[i];
    forall c', k | 0 <= c' < 256 && 0 <= k < |p| ensures
      PartialEntry(p, c', i, k) == if c' == c && i <= k <= j then i + 1 else PartialEntry(p, c', i + 1, k)
    {
      LastIndexInLowered(p, c' as char, i, k);
      assert (c' == c) == (c' as char == p[i]);
      if c' == c && j < k {
        var r := LastIndexIn(p, p[i], i + 1, j + 1);
        assert i + 1 <= r <= j + 1 && p[r] == p[i];
        LastIndexInRightmost(p, p[i], i + 1, k);
      }
    }
  }

  /** Admitting index lo changes the rightmost index only when nothing above lo holds c. */
  lemma LastIndexInLowered(p: seq<char>, c: char, lo: nat, k: int)
    requires k < |p|
    ensures LastIndexIn(p, c, lo, k) ==
      if LastIndexIn(p, c, lo + 1, k) >= 0 then LastIndexIn(p, c, lo + 1, k)
      else if lo <= k && p[lo] == c then lo else -1
  {
    LastIndexInRightmost(p, c, lo, k);
    LastIndexInRightmost(p, c, lo + 1, k);
  }

  /**
   * boyerMoore: offset i is reported after a full match, and the scan
   * advances by shift[0]; after a mismatch at index j it advances by the
   * larger of Max(1, j - matrix[text[i + j]][j]) and shift[j + 1]. The
   * result is exactly the list of occurrences, in ascending order.
   */
  method Search(text: seq<char>, pattern: seq<char>) returns (occurrences: seq<int>)
    requires IsByteString(text) && IsByteString(pattern)
    ensures occurrences == Occurrences(text, pattern)
  {
    var badCharacter := PreprocessBadCharacter(pattern);
    var goodSuffixShift := PreprocessGoodSuffixShift(pattern);
    occurrences := [];
    var i := 0;
    while i <= |text| - |pattern|
      invariant 0 <= i
      invariant occurrences + OccurrencesFrom(text, pattern, i) == Occurrences(text, pattern)
      modifies {}
      decreases |text| - |pattern| + 1 - i
    {
      ghost var reported := occurrences;
      var j := CompareFromRight(text, pattern, i);
      var advance;
      if j < 0 {
        occurrences := occurrences + [i];
        advance := goodSuffixShift[0];
      } else {
        var badCharShift := Max(1, j - badCharacter[text[j + i] as int, j]);
        var goodSuffixShiftValue := goodSuffixShift[j + 1];
        advance := Max(badCharShift, goodSuffixShiftValue);
      }
      StepIsSafe(text, pattern, i, j, advance, reported);
      i := i + advance;
    }
  }

  /**
   * The advance the scan makes at offset o, given the mismatch index j
   * found there, skips no occurrence: the offsets reported so far, then o
   * if it matches, then the occurrences from o + advance on, are exactly
   * the offsets reported so far followed by the occurrences from o on.
   */
  lemma StepIsSafe(text: seq<char>, p: seq<char>, o: nat, j: int, advance: int, reported: seq<int>)
    requires IsByteString(text) && o + |p| <= |text| && j == Mismatch(text, p, o)
    requires j < 0 ==> advance == GoodSuffixShift(p, 0)
    requires j >= 0 ==> advance == Max(Max(1, j - BadCharEntry(p, text[j + o] as int, j)), GoodSuffixShift(p, j + 1))
    ensures 1 <= advance
    ensures reported + OccurrencesFrom(text, p, o) ==
      (if j < 0 then reported + [o] else reported) + OccurrencesFrom(text, p, o + advance)
  {
    MismatchMeaning(text, p, o);
    if j >= 0 {
      BadCharEntryRightmost(p, text[j + o] as int, j);
      BadCharacterSkipIsSafe(text, p, o, j, BadCharEntry(p, text[j + o] as int, j));
    }
    GoodSuffixSkipIsSafe(text, p, o, j + 1, GoodSuffixShift(p, j + 1));
    AdvanceKeepsOccurrences(text, p, o, advance);
    ExtendReported(reported, o, j < 0, OccurrencesFrom(text, p, o + advance), OccurrencesFrom(text, p, o));
  }

  /**
   * boyerMooreMultiPattern: one entry per supplied pattern, holding the
   * occurrences of that pattern in the text.
   */
  method MultiPattern(text: seq<char>, patterns: seq<seq<char>>) returns (result: map<seq<char>, seq<int>>)
    requires IsByteString(text) && forall q :: q in patterns ==> IsByteString(q)
    ensures forall q :: q in result <==> q in patterns
    ensures forall q :: q in result ==> result[q] == Occurrences(text, q)
  {
    result := map[];
    for n := 0 to |patterns|
      invariant forall q :: q in result <==> q in patterns[..n]
      invariant forall q :: q in result ==> result[q] == Occurrences(text, q)
    {
      var occurrences := Search(text, patterns[n]);
      result := result[patterns[n] := occurrences];
    }
    assert patterns[..|patterns|] == patterns;
  }
}
