/**
 * The good-suffix preprocessing shared, statement for statement up to
 * names, by BoyerMoore3.java, BoyerMoore.java and GoodSuffix.java: the
 * strong-suffix pass fills the border array bpos and the strong-suffix
 * entries of shift, and the case-2 pass fills the remaining entries from
 * the borders of the whole pattern. Both passes update the caller's arrays in place.
 */
module GoodSuffixTable {
  import opened Matching
  import opened Borders

  /**
   * preprocessStrongSuffix. Afterwards bpos[i] is the start of the widest
   * border of p[i..] (bpos[|p|] == |p| + 1), and shift[k] holds the strong
   * good-suffix shift for k when one exists, 0 otherwise. Entries of shift
   * beyond |p| are not touched.
   */
  method PreprocessStrongSuffix(shift: array<int>, bpos: array<int>, p: seq<char>)
    requires bpos.Length == |p| + 1 && |p| < shift.Length && shift != bpos
    requires forall k :: 0 <= k <= |p| ==> shift[k] == 0
    modifies shift, bpos
    ensures forall i :: 0 <= i <= |p| ==> bpos[i] == WidestBorderStart(p, i)
    ensures forall k :: 0 <= k <= |p| ==> shift[k] == StrongShift(p, k, 1)
    ensures forall k :: |p| < k < shift.Length ==> shift[k] == old(shift[k])
  {
    var m := |p|;
    var i, j := m, m + 1;
    bpos[i] := j;
    while i > 0
      invariant 0 <= i <= m && j == bpos[i]
      invariant forall t :: i <= t <= m ==> bpos[t] == WidestBorderStart(p, t)
      invariant forall k :: 0 <= k <= m ==> shift[k] == StrongShift(p, k, i + 1)
      invariant forall k :: m < k < shift.Length ==> shift[k] == old(shift[k])
    {
      j := ChaseBorders(shift, bpos, p, i, j);
      i := i - 1;
      j := j - 1;
      bpos[i] := j;
    }
  }

  /**
   * One round of the outer loop of preprocessStrongSuffix, at position i
   * starting from j == bpos[i]: follow bpos through the border starts j of
   * p[i..] while p[j - 1] differs from p[i - 1], recording the shift j - i
   * in every entry that is still 0. The chase stops at the border start
   * one past the widest border start of p[i - 1..] (or at |p| + 1).
   */
  method ChaseBorders(shift: array<int>, bpos: array<int>, p: seq<char>, i: int, j0: int) returns (j: int)
    requires bpos.Length == |p| + 1 && |p| < shift.Length && shift != bpos
    requires 1 <= i <= |p| && j0 == bpos[i]
    requires forall t :: i <= t <= |p| ==> bpos[t] == WidestBorderStart(p, t)
    requires forall k :: 0 <= k <= |p| ==> shift[k] == StrongShift(p, k, i + 1)
    modifies shift
    ensures WidestBorderStart(p, i - 1) == j - 1
    ensures forall k :: 0 <= k <= |p| ==> shift[k] == StrongShift(p, k, i)
    ensures forall k :: |p| < k < shift.Length ==> shift[k] == old(shift[k])
  {
    var m := |p|;
    j := j0;
    ChaseStart(p, i, j, shift);
    while j <= m && p[i - 1] != p[j - 1]
      invariant i < j <= m + 1
      invariant j == m + 1 || IsBorderStart(p, i, j)
      invariant forall b :: i < b < j && IsBorderStart(p, i, b) ==> p[b - 1] != p[i - 1]
      invariant forall k :: 0 <= k <= m ==> shift[k] == ChaseEntry(p, i, j, k)
      invariant forall k :: m < k < shift.Length ==> shift[k] == old(shift[k])
      decreases m + 1 - j
    {
      var w := bpos[j];
      ChaseAdvance(p, i, j, w);
      if shift[j] == 0 {
        shift[j] := j - i;
      }
      j := w;
    }
    ChaseFinish(p, i, j, shift);
  }

  /**
   * The value of shift[k] while the chase at position i is at j: entries
   * at border starts of p[i..] below j have been visited and hold their
   * value for position i, all others their value for position i + 1.
   */
  ghost function ChaseEntry(p: seq<char>, i: int, j: int, k: int): int
    requires 1 <= i && 0 <= k <= |p|
  {
    if i < k < j && IsBorderStart(p, i, k) then StrongShift(p, k, i) else StrongShift(p, k, i + 1)
  }

  /** Before the chase at position i, no entry has its value for i yet. */
  lemma ChaseStart(p: seq<char>, i: int, j: int, shift: array<int>)
    requires 1 <= i <= |p| && j == WidestBorderStart(p, i) && |p| < shift.Length
    requires forall k :: 0 <= k <= |p| ==> shift[k] == StrongShift(p, k, i + 1)
    ensures i < j <= |p| + 1
    ensures j == |p| + 1 || IsBorderStart(p, i, j)
    ensures forall b :: i < b < j ==> !IsBorderStart(p, i, b)
    ensures forall k :: 0 <= k <= |p| ==> shift[k] == ChaseEntry(p, i, j, k)
  {
    WidestBorderStartIsWidest(p, i);
  }

  /** Visiting the border start j and moving on to the next one, w. */
  lemma ChaseAdvance(p: seq<char>, i: int, j: int, w: int)
    requires 1 <= i < j <= |p| && IsBorderStart(p, i, j) && p[i - 1] != p[j - 1]
    requires forall b :: i < b < j && IsBorderStart(p, i, b) ==> p[b - 1] != p[i - 1]
    requires w == WidestBorderStart(p, j)
    ensures j < w <= |p| + 1
    ensures w == |p| + 1 || IsBorderStart(p, i, w)
    ensures forall b :: i < b < w && IsBorderStart(p, i, b) ==> p[b - 1] != p[i - 1]
    ensures ChaseEntry(p, i, j, j) == StrongShift(p, j, i + 1)
    ensures ChaseEntry(p, i, w, j) == if StrongShift(p, j, i + 1) == 0 then j - i else StrongShift(p, j, i + 1)
    ensures forall k :: 0 <= k <= |p| && k != j ==> ChaseEntry(p, i, w, k) == ChaseEntry(p, i, j, k)
  {
    WidestBorderStartIsWidest(p, j);
    NextBorderStart(p, i, j, w);
  }

  /**
   * When the chase at position i stops at j (j == |p| + 1, or p[j - 1]
   * equals p[i - 1]), every entry holds its value for position i, and
   * j - 1 is the widest border start for position i - 1.
   */
  lemma ChaseFinish(p: seq<char>, i: int, j: int, shift: array<int>)
    requires 1 <= i < j <= |p| + 1 && |p| < shift.Length
    requires j == |p| + 1 || (IsBorderStart(p, i, j) && p[i - 1] == p[j - 1])
    requires forall b :: i < b < j && IsBorderStart(p, i, b) ==> p[b - 1] != p[i - 1]
    requires forall k :: 0 <= k <= |p| ==> shift[k] == ChaseEntry(p, i, j, k)
    ensures forall k :: 0 <= k <= |p| ==> shift[k] == StrongShift(p, k, i)
    ensures WidestBorderStart(p, i - 1) == j - 1
  {
    ChaseRecorded(p, i, j);
    ExtendBorder(p, i, j);
    WidestBorderStartIsWidest(p, i - 1);
    WidestBorderStartUnique(p, i - 1, j - 1, WidestBorderStart(p, i - 1));
  }

  lemma ChaseRecorded(p: seq<char>, i: int, j: int)
    requires 1 <= i < j <= |p| + 1
    requires j == |p| + 1 || (IsBorderStart(p, i, j) && p[i - 1] == p[j - 1])
    ensures forall k :: 0 <= k <= |p| ==> ChaseEntry(p, i, j, k) == StrongShift(p, k, i)
  {
    forall k | 0 <= k <= |p| ensures ChaseEntry(p, i, j, k) == StrongShift(p, k, i) {
      if StrongAlignment(p, k, i) && k >= j {
        BordersNest(p, i, j, k);
        StrongShiftRecorded(p, k, i + 1, j);
      }
    }
  }

  /**
   * preprocessCase2. Every entry of shift that the strong-suffix pass left
   * at 0 receives the first border start of the whole pattern at or above
   * its index; afterwards every shift[k], 0 <= k <= |p|, is the strong
   * good-suffix shift for k, and shift[0] == bpos[0].
   */
  method PreprocessCase2(shift: array<int>, bpos: array<int>, p: seq<char>)
    requires bpos.Length == |p| + 1 && |p| < shift.Length && shift != bpos
    requires forall i :: 0 <= i <= |p| ==> bpos[i] == WidestBorderStart(p, i)
    requires forall k :: 0 <= k <= |p| ==> shift[k] == StrongShift(p, k, 1)
    modifies shift
    ensures forall k :: 0 <= k <= |p| ==> shift[k] == GoodSuffixShift(p, k)
    ensures shift[0] == bpos[0]
    ensures forall k :: |p| < k < shift.Length ==> shift[k] == old(shift[k])
  {
    var m := |p|;
    var j := bpos[0];
    WidestBorderStartIsWidest(p, 0);
    for i := 0 to m + 1
      invariant 1 <= j <= m + 1 && i <= j
      invariant j == m + 1 || IsBorderStart(p, 0, j)
      invariant forall b :: i <= b < j ==> !IsBorderStart(p, 0, b)
      invariant i > 0 ==> shift[0] == bpos[0]
      invariant forall k :: 0 <= k < i ==> shift[k] == GoodSuffixShift(p, k)
      invariant forall k :: i <= k <= m ==> shift[k] == StrongShift(p, k, 1)
      invariant forall k :: m < k < shift.Length ==> shift[k] == old(shift[k])
    {
      FillStep(p, i, j);
      if shift[i] == 0 {
        shift[i] := j;
      }
      assert shift[i] == GoodSuffixShift(p, i);
      if i == j {
        WidestBorderStartIsWidest(p, j);
        NextBorderStart(p, 0, j, bpos[j]);
        j := bpos[j];
      }
    }
  }

  /** The value preprocessCase2 leaves in shift[k] is the good-suffix shift. */
  lemma FillStep(p: seq<char>, k: int, j: int)
    requires 0 <= k <= |p| && 1 <= j && k <= j
    requires j == |p| + 1 || IsBorderStart(p, 0, j)
    requires forall b :: k <= b < j ==> !IsBorderStart(p, 0, b)
    ensures GoodSuffixShift(p, k) == if StrongShift(p, k, 1) == 0 then j else StrongShift(p, k, 1)
  {
    GoodSuffixShiftIsMinimal(p, k);
    if StrongShift(p, k, 1) == 0 {
      CaseTwoShiftIsMinimal(p, k, j);
      MinimalShiftUnique(p, k, j, GoodSuffixShift(p, k));
    } else {
      StrongShiftIsMinimal(p, k);
      MinimalShiftUnique(p, k, StrongShift(p, k, 1), GoodSuffixShift(p, k));
    }
  }

  /**
   * preprocessGoodSuffixShift: a table of |p| + 1 entries holding
   * the strong good-suffix shift for every k, built by the two passes.
   */
  method PreprocessGoodSuffixShift(p: seq<char>) returns (shift: array<int>)
    ensures shift.Length == |p| + 1
    ensures forall k :: 0 <= k <= |p| ==> shift[k] == GoodSuffixShift(p, k)
  {
    var bpos := new int[|p| + 1];
    shift := new int[|p| + 1];
    for k := 0 to |p| + 1
      invariant forall t :: 0 <= t < k ==> shift[t] == 0
    {
      shift[k] := 0;
    }
    PreprocessStrongSuffix(shift, bpos, p);
    PreprocessCase2(shift, bpos, p);
  }
}
