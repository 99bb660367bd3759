/**
 * Borders of the suffixes of a pattern, and the strong good-suffix rule of
 * Boyer-Moore stated independently of any table: the shift after having
 * matched the suffix p[k..] (and, for k >= 1, mismatched at k - 1) is the
 * smallest shift that is consistent with what the comparison saw.
 */
module Borders {
  import opened Matching

  /**
   * b starts a border of the suffix p[i..]: the suffix p[b..] equals the
   * prefix of p[i..] of the same length. b == |p| (the empty border) always
   * qualifies when i < |p|.
   */
  predicate IsBorderStart(p: seq<char>, i: int, b: int)
  {
    0 <= i < b <= |p| && forall q :: b <= q < |p| ==> p[q] == p[q - (b - i)]
  }

  /**
   * b starts the widest proper border of p[i..], i.e. it is the smallest
   * border start above i; for the empty suffix (i == |p|) the convention
   * is |p| + 1.
   */
  predicate IsWidestBorderStart(p: seq<char>, i: int, b: int)
  {
    0 <= i <= |p| &&
    if i == |p| then b == |p| + 1
    else IsBorderStart(p, i, b) && forall c :: i < c < b ==> !IsBorderStart(p, i, c)
  }

  /** The first border start of p[i..] at or above c. */
  function FirstBorderStartFrom(p: seq<char>, i: nat, c: nat): (b: int)
    requires i < c <= |p|
    ensures c <= b <= |p|
    decreases |p| - c
  {
    if IsBorderStart(p, i, c) then c
    else FirstBorderStartFrom(p, i, c + 1)
  }

  /** The start of the widest proper border of p[i..]: bpos[i] of the strong-suffix pass. */
  function WidestBorderStart(p: seq<char>, i: nat): (b: int)
    requires i <= |p|
    ensures i < b <= |p| + 1 && (i < |p| ==> b <= |p|)
  {
    if i == |p| then |p| + 1 else FirstBorderStartFrom(p, i, i + 1)
  }

  lemma {:induction false} FirstBorderStartFromIsWidest(p: seq<char>, i: nat, c: nat)
    requires i < c <= |p|
    requires forall c' :: i < c' < c ==> !IsBorderStart(p, i, c')
    ensures IsWidestBorderStart(p, i, FirstBorderStartFrom(p, i, c))
    decreases |p| - c
  {
    if !IsBorderStart(p, i, c) {
      FirstBorderStartFromIsWidest(p, i, c + 1);
    }
  }

  /** WidestBorderStart(p, i) is the smallest border start of p[i..] above i. */
  lemma WidestBorderStartIsWidest(p: seq<char>, i: nat)
    requires i <= |p|
    ensures IsWidestBorderStart(p, i, WidestBorderStart(p, i))
  {
    if i < |p| {
      FirstBorderStartFromIsWidest(p, i, i + 1);
    }
  }

  /** A widest border start is unique. */
  lemma WidestBorderStartUnique(p: seq<char>, i: int, b: int, b': int)
    requires IsWidestBorderStart(p, i, b) && IsWidestBorderStart(p, i, b')
    ensures b == b'
  {
  }

  /** A border of a border of p[i..] is a border of p[i..]. */
  lemma BorderOfBorder(p: seq<char>, i: int, b: int, c: int)
    requires IsBorderStart(p, i, b) && IsBorderStart(p, b, c)
    ensures IsBorderStart(p, i, c)
  {
    forall q | c <= q < |p| ensures p[q] == p[q - (c - i)] {
      assert p[q] == p[q - (c - b)];
      assert p[q - (c - b)] == p[q - (c - b) - (b - i)];
    }
  }

  /** Of two borders of p[i..], the narrower one is a border of the wider one. */
  lemma BordersNest(p: seq<char>, i: int, b: int, c: int)
    requires IsBorderStart(p, i, b) && IsBorderStart(p, i, c) && b < c
    ensures IsBorderStart(p, b, c)
  {
    forall q | c <= q < |p| ensures p[q] == p[q - (c - b)] {
      assert p[q] == p[q - (c - i)];
      assert q - (c - b) >= b;
      assert p[q - (c - b)] == p[q - (c - b) - (b - i)];
    }
  }

  /**
   * Chasing bpos: if j starts a border of p[i..] and w starts the widest
   * border of p[j..], then w is the next border start of p[i..] after j.
   */
  lemma {:induction false} NextBorderStart(p: seq<char>, i: int, j: int, w: int)
    requires IsBorderStart(p, i, j) && IsWidestBorderStart(p, j, w)
    ensures j < w
    ensures w == |p| + 1 || IsBorderStart(p, i, w)
    ensures forall c :: j < c < w ==> !IsBorderStart(p, i, c)
  {
    if j < |p| {
      BorderOfBorder(p, i, j, w);
      forall c | j < c < w ensures !IsBorderStart(p, i, c) {
        if IsBorderStart(p, i, c) {
          BordersNest(p, i, j, c);
          assert false;
        }
      }
    }
  }

  /**
   * Extending a border to the left: if j is the first border start of
   * p[i..] (or |p| + 1 when none qualifies) whose preceding symbol equals
   * p[i - 1], then j - 1 starts the widest border of p[i - 1..].
   */
  lemma {:induction false} ExtendBorder(p: seq<char>, i: int, j: int)
    requires 1 <= i <= |p| && i < j <= |p| + 1
    requires j == |p| + 1 || (IsBorderStart(p, i, j) && p[j - 1] == p[i - 1])
    requires forall b :: i < b < j && IsBorderStart(p, i, b) ==> p[b - 1] != p[i - 1]
    ensures IsWidestBorderStart(p, i - 1, j - 1)
  {
    if j <= |p| {
      forall q | j - 1 <= q < |p| ensures p[q] == p[q - (j - i)] {
        if q >= j {
          assert p[q] == p[q - (j - i)];
        }
      }
    }
    var h := i - 1;
    forall c | h < c < j - 1 ensures !IsBorderStart(p, h, c) {
      ShrinkBorder(p, i, c);
    }
  }

  /** Dropping the first symbol of a border of p[i - 1..] gives a border of p[i..]. */
  lemma ShrinkBorder(p: seq<char>, i: int, c: int)
    requires 1 <= i <= c < |p|
    ensures IsBorderStart(p, i - 1, c) ==> p[c] == p[i - 1] && IsBorderStart(p, i, c + 1)
  {
    if IsBorderStart(p, i - 1, c) {
      forall q | c + 1 <= q < |p| ensures p[q] == p[q - (c + 1 - i)] {
        assert p[q] == p[q - (c - (i - 1))];
      }
    }
  }

  // ---------------------------------------------------------------------
  // The strong good-suffix rule.

  /**
   * Shifting the pattern right by e is consistent with having matched
   * p[k..] against the text and, when k >= 1, having seen a symbol that
   * differs from p[k - 1] just before it: the shifted pattern agrees with
   * p[k..] where they overlap, and puts a symbol other than p[k - 1] at
   * the mismatch position.
   */
  predicate Compatible(p: seq<char>, k: int, e: int)
  {
    0 <= k <= |p| && 1 <= e &&
    (forall q :: k <= q < |p| && e <= q ==> p[q - e] == p[q]) &&
    (e < k ==> p[k - 1 - e] != p[k - 1])
  }

  /** s is the smallest shift consistent with matching p[k..]: the strong good-suffix shift. */
  predicate IsMinimalShift(p: seq<char>, k: int, s: int)
  {
    Compatible(p, k, s) && forall e :: 1 <= e < s ==> !Compatible(p, k, e)
  }

  /** Every shift of at least |p| (and at least 1) is consistent with anything. */
  lemma CompatibleBeyond(p: seq<char>, k: int, e: int)
    requires 0 <= k <= |p| && e >= |p| && e >= 1
    ensures Compatible(p, k, e)
  {
  }

  /** The first consistent shift at or above e. */
  function MinimalShiftFrom(p: seq<char>, k: nat, e: nat): (s: int)
    requires k <= |p| && 1 <= e
    ensures e <= s <= Max(e, |p|)
    decreases |p| - e
  {
    if e >= |p| || Compatible(p, k, e) then e
    else MinimalShiftFrom(p, k, e + 1)
  }

  /** The strong good-suffix shift after matching p[k..]; k == 0 is a full match. */
  function GoodSuffixShift(p: seq<char>, k: nat): (s: int)
    requires k <= |p|
    ensures 1 <= s <= Max(|p|, 1)
  {
    MinimalShiftFrom(p, k, 1)
  }

  lemma {:induction false} MinimalShiftFromIsMinimal(p: seq<char>, k: nat, e: nat)
    requires k <= |p| && 1 <= e
    requires forall e' :: 1 <= e' < e ==> !Compatible(p, k, e')
    ensures IsMinimalShift(p, k, MinimalShiftFrom(p, k, e))
    decreases |p| - e
  {
    if e >= |p| {
      CompatibleBeyond(p, k, e);
    } else if !Compatible(p, k, e) {
      MinimalShiftFromIsMinimal(p, k, e + 1);
    }
  }

  /** GoodSuffixShift(p, k) is the smallest shift consistent with having matched p[k..]. */
  lemma GoodSuffixShiftIsMinimal(p: seq<char>, k: nat)
    requires k <= |p|
    ensures IsMinimalShift(p, k, GoodSuffixShift(p, k))
  {
    MinimalShiftFromIsMinimal(p, k, 1);
  }

  /** The minimal consistent shift is unique. */
  lemma MinimalShiftUnique(p: seq<char>, k: int, s: int, s': int)
    requires IsMinimalShift(p, k, s) && IsMinimalShift(p, k, s')
    ensures s == s'
  {
  }

  /**
   * shift[0] is |p| minus the length of the widest proper border: 1 for
   * "AAA" (border "AA") and 4 for "ABCD" (no non-empty border).
   */
  lemma FullMatchShiftExamples()
    ensures GoodSuffixShift("AAA", 0) == 1
    ensures GoodSuffixShift("ABCD", 0) == 4
  {
    var p := "ABCD";
    assert !Compatible(p, 0, 1) by { assert p[0] != p[1]; }
    assert !Compatible(p, 0, 2) by { assert p[0] != p[2]; }
    assert !Compatible(p, 0, 3) by { assert p[0] != p[3]; }
    assert MinimalShiftFrom(p, 0, 3) == 4;
  }

  /**
   * After a full match the shift is the start of the widest proper border
   * of the whole pattern: |p| minus the length of that border.
   */
  lemma {:induction false} FullMatchShiftIsWidestBorderStart(p: seq<char>)
    ensures GoodSuffixShift(p, 0) == WidestBorderStart(p, 0)
  {
    var w := WidestBorderStart(p, 0);
    WidestBorderStartIsWidest(p, 0);
    CompatibleAbove(p, 0, w);
    forall e | 1 <= e < w ensures !Compatible(p, 0, e) {
      CompatibleAbove(p, 0, e);
    }
    GoodSuffixShiftIsMinimal(p, 0);
    MinimalShiftUnique(p, 0, w, GoodSuffixShift(p, 0));
  }

  /**
   * i is a strong-suffix alignment for k: the matched suffix p[k..] occurs
   * again at i, preceded there by a symbol different from p[k - 1]. The
   * strong-suffix pass records the shift k - i for such pairs.
   */
  predicate StrongAlignment(p: seq<char>, k: int, i: int)
  {
    1 <= i < k <= |p| && IsBorderStart(p, i, k) && p[i - 1] != p[k - 1]
  }

  /**
   * The shift the strong-suffix pass has recorded for k once it has
   * processed the positions lo, lo + 1, .., |p|: the shift k - i for the
   * largest strong alignment i >= lo, or 0 when there is none.
   */
  function StrongShift(p: seq<char>, k: int, lo: int): (s: int)
    requires 1 <= lo && 0 <= k <= |p|
    decreases k - lo
  {
    if lo >= k then 0
    else
      var s := StrongShift(p, k, lo + 1);
      if s != 0 then s
      else if StrongAlignment(p, k, lo) then k - lo
      else 0
  }

  /**
   * StrongShift(p, k, lo) is 0 exactly when no strong alignment for k lies
   * in [lo, k); otherwise it is k - i for the largest such alignment i.
   */
  lemma {:induction false} StrongShiftMeaning(p: seq<char>, k: int, lo: int)
    requires 1 <= lo && 0 <= k <= |p|
    ensures StrongShift(p, k, lo) == 0 <==> forall i :: lo <= i < k ==> !StrongAlignment(p, k, i)
    ensures StrongShift(p, k, lo) != 0 ==>
              var s := StrongShift(p, k, lo);
              lo <= k - s < k && StrongAlignment(p, k, k - s) &&
              forall i :: k - s < i < k ==> !StrongAlignment(p, k, i)
    decreases k - lo
  {
    if lo < k {
      StrongShiftMeaning(p, k, lo + 1);
    }
  }

  /** A shift below k is consistent exactly when it comes from a strong alignment. */
  lemma CompatibleBelow(p: seq<char>, k: int, e: int)
    requires 0 <= k <= |p| && 1 <= e < k
    ensures Compatible(p, k, e) <==> StrongAlignment(p, k, k - e)
  {
    if Compatible(p, k, e) {
      forall q | k <= q < |p| ensures p[q] == p[q - (k - (k - e))] {
        assert p[q - e] == p[q];
      }
    }
    if StrongAlignment(p, k, k - e) {
      forall q | k <= q < |p| && e <= q ensures p[q - e] == p[q] {
        assert p[q] == p[q - (k - (k - e))];
      }
    }
  }

  /** A shift of at least k (and at least 1) is consistent exactly when it is a period of p. */
  lemma CompatibleAbove(p: seq<char>, k: int, e: int)
    requires 0 <= k <= |p| && 1 <= e && k <= e
    ensures Compatible(p, k, e) <==> e >= |p| || IsBorderStart(p, 0, e)
  {
    if Compatible(p, k, e) && e < |p| {
      forall q | e <= q < |p| ensures p[q] == p[q - (e - 0)] {
        assert p[q - e] == p[q];
      }
    }
    if e < |p| && IsBorderStart(p, 0, e) {
      forall q | k <= q < |p| && e <= q ensures p[q - e] == p[q] {
        assert p[q] == p[q - (e - 0)];
      }
    }
  }

  /** A recorded strong-suffix shift is the minimal consistent shift. */
  lemma StrongShiftIsMinimal(p: seq<char>, k: int)
    requires 0 <= k <= |p| && StrongShift(p, k, 1) != 0
    ensures IsMinimalShift(p, k, StrongShift(p, k, 1))
  {
    var s := StrongShift(p, k, 1);
    StrongShiftMeaning(p, k, 1);
    CompatibleBelow(p, k, s);
    forall e | 1 <= e < s ensures !Compatible(p, k, e) {
      CompatibleBelow(p, k, e);
    }
  }

  /**
   * Without a strong alignment, the minimal consistent shift for k is the
   * first border start of the whole pattern at or above k (or |p| + 1).
   */
  lemma CaseTwoShiftIsMinimal(p: seq<char>, k: int, j: int)
    requires 0 <= k <= |p| && StrongShift(p, k, 1) == 0
    requires k <= j && 1 <= j && (j == |p| + 1 || IsBorderStart(p, 0, j))
    requires forall b :: k <= b < j ==> !IsBorderStart(p, 0, b)
    ensures IsMinimalShift(p, k, j)
  {
    StrongShiftMeaning(p, k, 1);
    CompatibleAbove(p, k, j);
    forall e | 1 <= e < j ensures !Compatible(p, k, e) {
      if e < k {
        CompatibleBelow(p, k, e);
      } else {
        CompatibleAbove(p, k, e);
        if e >= |p| {
          assert IsBorderStart(p, 0, |p|);
        }
      }
    }
  }

  /** A strong alignment at or above lo guarantees that a shift has been recorded. */
  lemma StrongShiftRecorded(p: seq<char>, k: int, lo: int, i: int)
    requires 1 <= lo <= i && 0 <= k <= |p| && StrongAlignment(p, k, i)
    ensures StrongShift(p, k, lo) != 0
  {
    StrongShiftMeaning(p, k, lo);
  }

  // ---------------------------------------------------------------------
  // What a good-suffix shift guarantees to a scanner.

  /**
   * If the scanner has matched p[k..] at offset o and (for k >= 1) seen a
   * mismatch at k - 1, an occurrence at offset o + e makes e consistent.
   */
  lemma OccurrenceIsCompatible(text: seq<char>, p: seq<char>, o: int, k: int, e: int)
    requires 0 <= o && 0 <= k <= |p| && 1 <= e
    requires o + |p| <= |text|
    requires forall t :: k <= t < |p| ==> p[t] == text[o + t]
    requires k >= 1 ==> p[k - 1] != text[o + k - 1]
    requires MatchesAt(text, p, o + e)
    ensures Compatible(p, k, e)
  {
    forall q | k <= q < |p| && e <= q ensures p[q - e] == p[q] {
      assert text[o + e + (q - e)] == p[q - e];
    }
    if e < k {
      assert text[o + e + (k - 1 - e)] == p[k - 1 - e];
    }
  }

  /** Advancing by a minimal consistent shift skips no occurrence. */
  lemma GoodSuffixSkipIsSafe(text: seq<char>, p: seq<char>, o: int, k: int, s: int)
    requires 0 <= o && 0 <= k <= |p|
    requires o + |p| <= |text|
    requires forall t :: k <= t < |p| ==> p[t] == text[o + t]
    requires k >= 1 ==> p[k - 1] != text[o + k - 1]
    requires s == GoodSuffixShift(p, k)
    ensures NoMatchBetween(text, p, o + 1, o + s)
  {
    GoodSuffixShiftIsMinimal(p, k);
    forall o' | o + 1 <= o' < o + s ensures !MatchesAt(text, p, o') {
      if MatchesAt(text, p, o') {
        OccurrenceIsCompatible(text, p, o, k, o' - o);
      }
    }
  }
}
