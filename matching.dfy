/**
 * The exact-matching specification every scanner is measured against:
 * which offsets of a text hold a pattern, the right-to-left comparison
 * that every scanner performs at one offset, and the rightmost occurrence
 * of a symbol that the bad-character tables record.
 */
module Matching {

  /** Every symbol is below 256, so it can index a 256-wide table. */
  predicate IsByteString(s: seq<char>)
  {
    forall t :: 0 <= t < |s| ==> s[t] as int < 256
  }

  function Max(a: int, b: int): int
  {
    if a >= b then a else b
  }

  /** The pattern lies in the text starting at offset o. */
  predicate MatchesAt(text: seq<char>, p: seq<char>, o: int)
  {
    0 <= o && o + |p| <= |text| && forall t :: 0 <= t < |p| ==> text[o + t] == p[t]
  }

  predicate NoMatchBetween(text: seq<char>, p: seq<char>, lo: int, hi: int)
  {
    forall o :: lo <= o < hi ==> !MatchesAt(text, p, o)
  }

  predicate StrictlyAscending(s: seq<int>)
  {
    forall a, b :: 0 <= a < b < |s| ==> s[a] < s[b]
  }

  /** The offsets o >= start at which the pattern occurs, in ascending order. */
  function OccurrencesFrom(text: seq<char>, p: seq<char>, start: nat): seq<int>
    decreases |text| + 1 - start
  {
    if start + |p| > |text| then []
    else (if MatchesAt(text, p, start) then [start] else []) + OccurrencesFrom(text, p, start + 1)
  }

  /** The reference answer: every offset of the text at which the pattern occurs. */
  function Occurrences(text: seq<char>, p: seq<char>): seq<int>
  {
    OccurrencesFrom(text, p, 0)
  }

  lemma {:induction false} OccurrencesFromExact(text: seq<char>, p: seq<char>, start: nat)
    ensures forall x :: x in OccurrencesFrom(text, p, start) <==> start <= x && MatchesAt(text, p, x)
    ensures StrictlyAscending(OccurrencesFrom(text, p, start))
    decreases |text| + 1 - start
  {
    if start + |p| <= |text| {
      OccurrencesFromExact(text, p, start + 1);
      var rest := OccurrencesFrom(text, p, start + 1);
      assert OccurrencesFrom(text, p, start) == (if MatchesAt(text, p, start) then [start] else []) + rest;
      PrependOffset(start, MatchesAt(text, p, start), rest, OccurrencesFrom(text, p, start));
    }
  }

  /** Occurrences holds exactly the matching offsets, each once, in ascending order. */
  lemma OccurrencesExact(text: seq<char>, p: seq<char>)
    ensures forall x :: x in Occurrences(text, p) <==> MatchesAt(text, p, x)
    ensures StrictlyAscending(Occurrences(text, p))
    ensures |p| > |text| ==> Occurrences(text, p) == []
  {
    OccurrencesFromExact(text, p, 0);
  }

  /** Advancing the start past offsets that are not occurrences loses nothing. */
  lemma {:induction false} SkipNonMatches(text: seq<char>, p: seq<char>, lo: nat, hi: nat)
    requires lo <= hi
    requires NoMatchBetween(text, p, lo, hi)
    ensures OccurrencesFrom(text, p, lo) == OccurrencesFrom(text, p, hi)
    decreases hi - lo
  {
    if lo < hi {
      SkipNonMatches(text, p, lo + 1, hi);
      assert !MatchesAt(text, p, lo);
    }
  }

  /**
   * No window starting in [lo, hi) holds the pattern when the pattern's
   * symbol at index t is absent from the text between lo + t and hi + t.
   */
  lemma AbsentSymbol(text: seq<char>, p: seq<char>, lo: nat, hi: nat, t: nat)
    requires t < |p|
    requires forall k :: lo + t <= k < hi + t && k < |text| ==> text[k] != p[t]
    ensures NoMatchBetween(text, p, lo, hi)
  {
    forall o | lo <= o < hi ensures !MatchesAt(text, p, o) {
      if o + |p| <= |text| {
        assert text[o + t] != p[t];
      }
    }
  }

  /** A pattern that matches nowhere before |text| + 1 has no occurrences. */
  lemma OccursNowhere(text: seq<char>, p: seq<char>)
    requires NoMatchBetween(text, p, 0, |text| + 1)
    ensures Occurrences(text, p) == []
  {
    SkipNonMatches(text, p, 0, |text| + 1);
  }

  /** A pattern that matches at x and nowhere else occurs exactly at x. */
  lemma OccursOnceAt(text: seq<char>, p: seq<char>, x: nat)
    requires NoMatchBetween(text, p, 0, x) && MatchesAt(text, p, x) && NoMatchBetween(text, p, x + 1, |text| + 1)
    ensures Occurrences(text, p) == [x]
  {
    SkipNonMatches(text, p, 0, x);
    SkipNonMatches(text, p, x + 1, |text| + 1);
  }

  /** A pattern that matches at x < y and nowhere else occurs exactly at x and y. */
  lemma OccursTwiceAt(text: seq<char>, p: seq<char>, x: nat, y: nat)
    requires x < y
    requires NoMatchBetween(text, p, 0, x) && MatchesAt(text, p, x) && NoMatchBetween(text, p, x + 1, y)
    requires MatchesAt(text, p, y) && NoMatchBetween(text, p, y + 1, |text| + 1)
    ensures Occurrences(text, p) == [x, y]
  {
    SkipNonMatches(text, p, 0, x);
    SkipNonMatches(text, p, x + 1, y);
    SkipNonMatches(text, p, y + 1, |text| + 1);
  }

  /** The empty pattern occurs at every offset 0..|text|. */
  lemma {:induction false} OccurrencesOfEmpty(text: seq<char>, start: nat)
    requires start <= |text| + 1
    ensures OccurrencesFrom(text, [], start) == seq(|text| + 1 - start, k => start + k)
    decreases |text| + 1 - start
  {
    if start <= |text| {
      OccurrencesOfEmpty(text, start + 1);
      assert MatchesAt(text, [], start);
    }
  }

  /**
   * The rightmost index t <= j with p[t] != text[o + t], or -1 when
   * p[..j+1] agrees with the text there: the right-to-left comparison loop.
   */
  function RightmostMismatch(text: seq<char>, p: seq<char>, o: nat, j: int): (r: int)
    requires o + |p| <= |text| && -1 <= j < |p|
    ensures -1 <= r <= j
    decreases j + 1
  {
    if j < 0 then -1
    else if p[j] != text[o + j] then j
    else RightmostMismatch(text, p, o, j - 1)
  }

  lemma {:induction false} RightmostMismatchMeaning(text: seq<char>, p: seq<char>, o: nat, j: int)
    requires o + |p| <= |text| && -1 <= j < |p|
    ensures var r := RightmostMismatch(text, p, o, j);
      (forall t :: r < t <= j ==> p[t] == text[o + t]) && (r >= 0 ==> p[r] != text[o + r])
    decreases j + 1
  {
    if j >= 0 && p[j] == text[o + j] {
      RightmostMismatchMeaning(text, p, o, j - 1);
    }
  }

  /** The mismatch index a right-to-left comparison of the whole pattern finds at offset o. */
  function Mismatch(text: seq<char>, p: seq<char>, o: nat): (r: int)
    requires o + |p| <= |text|
    ensures -1 <= r < |p|
  {
    RightmostMismatch(text, p, o, |p| - 1)
  }

  /**
   * The comparison stops below 0 exactly when the window matches;
   * otherwise it stops at the rightmost index where the pattern and the
   * window differ.
   */
  lemma MismatchMeaning(text: seq<char>, p: seq<char>, o: nat)
    requires o + |p| <= |text|
    ensures var r := Mismatch(text, p, o);
      (r < 0 <==> MatchesAt(text, p, o)) &&
      (forall t :: r < t < |p| ==> p[t] == text[o + t]) &&
      (r >= 0 ==> p[r] != text[o + r])
  {
    RightmostMismatchMeaning(text, p, o, |p| - 1);
  }

  /**
   * The comparison at offset o stops at j when the symbols above j agree
   * with the text and (for j >= 0) the one at j does not.
   */
  lemma MismatchIs(text: seq<char>, p: seq<char>, o: nat, j: int)
    requires o + |p| <= |text| && -1 <= j < |p|
    requires forall t :: j < t < |p| ==> p[t] == text[o + t]
    requires j >= 0 ==> p[j] != text[o + j]
    ensures Mismatch(text, p, o) == j
  {
    MismatchMeaning(text, p, o);
  }

  /**
   * The rightmost index t in [lo, k] with p[t] == c, or -1 if there is none.
   */
  function LastIndexIn(p: seq<char>, c: char, lo: nat, k: int): (r: int)
    requires k < |p|
    ensures r == -1 || (lo <= r <= k && p[r] == c)
    decreases k + 1
  {
    if k < lo then -1
    else if p[k] == c then k
    else LastIndexIn(p, c, lo, k - 1)
  }

  /** No index above LastIndexIn, up to k, holds c. */
  lemma {:induction false} LastIndexInRightmost(p: seq<char>, c: char, lo: nat, k: int)
    requires k < |p|
    ensures forall t :: Max(lo, LastIndexIn(p, c, lo, k) + 1) <= t <= k ==> p[t] != c
    decreases k + 1
  {
    if lo <= k && p[k] != c {
      LastIndexInRightmost(p, c, lo, k - 1);
    }
  }

  /**
   * The right-to-left comparison of the pattern with the window at offset
   * o that every scanner performs: j starts at the last pattern index and
   * moves left while the symbols agree.
   */
  method CompareFromRight(text: seq<char>, p: seq<char>, o: nat) returns (j: int)
    requires o + |p| <= |text|
    ensures j == Mismatch(text, p, o)
  {
    j := |p| - 1;
    while j >= 0 && p[j] == text[o + j]
      invariant -1 <= j < |p|
      invariant RightmostMismatch(text, p, o, j) == Mismatch(text, p, o)
      decreases j
    {
      j := j - 1;
    }
  }

  /**
   * The bad-character rule: after a mismatch at index j, when no index t
   * with l < t < j holds the mismatched text symbol, no occurrence starts
   * at the next Max(1, j - l) - 1 offsets.
   */
  lemma BadCharacterSkipIsSafe(text: seq<char>, p: seq<char>, o: nat, j: int, l: int)
    requires o + |p| <= |text| && 0 <= j < |p| && -1 <= l
    requires forall t :: l < t < j ==> p[t] != text[o + j]
    ensures NoMatchBetween(text, p, o + 1, o + Max(1, j - l))
  {
    forall o' | o + 1 <= o' < o + Max(1, j - l) ensures !MatchesAt(text, p, o') {
      var d := o' - o;
      assert l < j - d < j;
      assert p[j - d] != text[o' + (j - d)];
    }
  }

  /**
   * One step of a scanner that reports offset o exactly when it matches
   * and then advances by s past offsets that hold no occurrence.
   */
  lemma AdvanceKeepsOccurrences(text: seq<char>, p: seq<char>, o: nat, s: int)
    requires o + |p| <= |text| && 1 <= s
    requires NoMatchBetween(text, p, o + 1, o + s)
    ensures OccurrencesFrom(text, p, o) ==
      (if MatchesAt(text, p, o) then [o] else []) + OccurrencesFrom(text, p, o + s)
  {
    SkipNonMatches(text, p, o + 1, o + s);
    var here := if MatchesAt(text, p, o) then [o] else [];
    assert OccurrencesFrom(text, p, o) == here + OccurrencesFrom(text, p, o + 1);
  }

  /**
   * Appending the offsets reported at one step: the reported prefix
   * followed by what remains equals the longer prefix followed by the rest.
   */
  lemma ExtendReported(reported: seq<int>, o: int, matched: bool, rest: seq<int>, whole: seq<int>)
    requires whole == (if matched then [o] else []) + rest
    ensures reported + whole == (if matched then reported + [o] else reported) + rest
  {
    if matched {
      assert reported + ([o] + rest) == (reported + [o]) + rest;
    } else {
      assert [] + rest == rest;
    }
  }

  /**
   * Putting o, when it is reported, in front of ascending offsets above o
   * keeps them ascending and adds exactly o.
   */
  lemma PrependOffset(o: int, matched: bool, rest: seq<int>, whole: seq<int>)
    requires whole == (if matched then [o] else []) + rest
    requires StrictlyAscending(rest) && forall x :: x in rest ==> o < x
    ensures StrictlyAscending(whole)
    ensures forall x :: x in whole <==> (matched && x == o) || x in rest
  {
    if matched {
      forall a, b | 0 <= a < b < |whole| ensures whole[a] < whole[b] {
        assert whole[b] == rest[b - 1] && rest[b - 1] in rest;
        if a > 0 {
          assert whole[a] == rest[a - 1];
        }
      }
    }
  }
}
