# Boyer–Moore exact string matching, modelled and proved in Dafny

The repository implements the Boyer–Moore exact-matching algorithm three
times (`BoyerMoore3.java`, `BoyerMoore.java`, `GoodSuffix.java`) next to a
naive right-to-left scanner (`Main.java`). Each Boyer–Moore variant builds
the border array `bpos` and the strong good-suffix table `shift` with the
same two in-place passes (`preprocessStrongSuffix`, `preprocessCase2`) and
scans the text, comparing the pattern with the current window from right to
left. BoyerMoore3.java and BoyerMoore.java each add their own bad-character
table; GoodSuffix.java has none.

The Dafny model keeps the source's form. Every table is an `array` (the
256 × m bad-character matrix of `BoyerMoore3.java` is an `array2`), the
preprocessing passes update the caller's arrays in place, and every loop is
a `while` or `for` loop whose invariants tie it to a specification
function. The modules are:

- `Matching` (`matching.dfy`) holds the reference answer. `Occurrences(text, p)` lists every offset at which the
  pattern occurs, in ascending order. The module also has the right-to-left comparison shared by all scanners
  (`CompareFromRight`, specified by `Mismatch`) and the rightmost-occurrence search behind the bad-character
  tables (`LastIndexIn`).
- `Borders` (`borders.dfy`) states the strong good-suffix rule without any table. A shift is consistent
  (`Compatible`) with having matched `p[k..]` and mismatched at `k - 1`. `GoodSuffixShift(p, k)` is the smallest
  consistent shift. `WidestBorderStart(p, i)` is the start of the widest proper border of `p[i..]`.
- `GoodSuffixTable` (`good_suffix_table.dfy`) models the two preprocessing passes. They are the same, statement for statement up to names, in all three
  Boyer–Moore files, so one model covers them. The model proves that afterwards `bpos[i] == WidestBorderStart(p, i)`
  and `shift[k] == GoodSuffixShift(p, k)`.
- `BoyerMoore3` (`boyer_moore3.dfy`) covers the matrix variant. Its scan is proved to report exactly
  `Occurrences(text, pattern)`.
- `BoyerMoore` (`boyer_moore.dfy`) covers the one-dimensional-table variant. Its scan, `Scan`, is proved sound and
  ascending, and shown to miss an occurrence.
- `GoodSuffix` (`good_suffix.dfy`) covers `searchPattern`. Its scan, `Scan`, is proved sound and ascending, and
  shown to miss an occurrence.
- `BruteForce` (`brute_force.dfy`) covers `Main.patternSearch`. It is proved to return exactly the occurrences.

Console output is replaced by returned values: the list of reported offsets
(and, for `patternSearch`, the `matched` flag).

## Model

| member | source | states |
|---|---|---|
| Matching.OccurrencesExact | Main.java:14-27 | an offset is in `Occurrences(text, p)` exactly when the pattern lies in the text there; the list is strictly ascending, and empty when the pattern is longer than the text |
| Matching.OccurrencesFromExact | Main.java:14-27 | the occurrences from `start` on are exactly the matching offsets `>= start`, strictly ascending |
| Matching.OccurrencesOfEmpty | Main.java:14-20 | the empty pattern occurs at every offset `start..|text|` |
| Matching.SkipNonMatches | BoyerMoore3.java:49-50 | moving the scan start past offsets that hold no occurrence loses no occurrence |
| Matching.RightmostMismatch | Main.java:15-18 | the comparison from index `j` downwards stops at an index in `-1..j` |
| Matching.RightmostMismatchMeaning | Main.java:15-18 | every index above the stopping point agrees with the text, and the stopping index (when `>= 0`) disagrees |
| Matching.Mismatch | BoyerMoore3.java:30-34 | the comparison of the whole window stops at an index in `-1..|p|-1` |
| Matching.MismatchMeaning | BoyerMoore3.java:30-36 | the comparison stops below 0 exactly when the window matches; otherwise at the rightmost index where pattern and text differ |
| Matching.CompareFromRight | BoyerMoore3.java:30-34 | the loop `while (j >= 0 && p[j] == text[i + j]) j--` returns `Mismatch(text, p, i)` |
| Matching.LastIndexIn | BoyerMoore3.java:70-82 | the result is -1 or an index in `[lo, k]` that holds `c` |
| Matching.LastIndexInRightmost | BoyerMoore3.java:70-82 | no index above the result, up to `k`, holds `c` (with -1: none in `[lo, k]` does) |
| Matching.BadCharacterSkipIsSafe | BoyerMoore3.java:47 | after a mismatch at `j` against symbol `c`, if no index strictly between `l` and `j` holds `c`, then no occurrence starts in the next `Max(1, j - l) - 1` offsets |
| Matching.AdvanceKeepsOccurrences | BoyerMoore3.java:36-51 | reporting `o` when it matches and then advancing by a safe `s >= 1` yields exactly the occurrences from `o` on |
| Borders.WidestBorderStart | BoyerMoore3.java:101-115 | `bpos[i]` lies in `(i, |p| + 1]`, and is at most `|p|` for `i < |p|`; `bpos[|p|] == |p| + 1` |
| Borders.WidestBorderStartIsWidest | BoyerMoore3.java:101-115 | `WidestBorderStart(p, i)` is a border start of `p[i..]` with no border start between `i` and it |
| Borders.WidestBorderStartUnique | BoyerMoore3.java:113-115 | the widest border start is unique |
| Borders.BorderOfBorder | BoyerMoore3.java:111 | a border of a border of `p[i..]` is a border of `p[i..]` |
| Borders.BordersNest | BoyerMoore3.java:111 | of two borders of `p[i..]`, the narrower is a border of the wider |
| Borders.NextBorderStart | BoyerMoore3.java:111 | following `bpos[j]` from a border start `j` of `p[i..]` reaches the next border start of `p[i..]`, skipping none |
| Borders.ExtendBorder | BoyerMoore3.java:106-115 | the first border start `j` of `p[i..]` with `p[j - 1] == p[i - 1]` (or `|p| + 1`) gives `bpos[i - 1] == j - 1` |
| Borders.ShrinkBorder | BoyerMoore3.java:113-115 | dropping the first symbol of a border of `p[i - 1..]` gives a border of `p[i..]` |
| Borders.GoodSuffixShift | BoyerMoore3.java:88-97 | every good-suffix shift lies in `[1, Max(|p|, 1)]`, so the scan always advances |
| Borders.GoodSuffixShiftIsMinimal | BoyerMoore3.java:88-97 | `GoodSuffixShift(p, k)` is consistent with having matched `p[k..]` and no smaller shift is |
| Borders.MinimalShiftUnique | BoyerMoore3.java:88-97 | the smallest consistent shift is unique |
| Borders.CompatibleBeyond | BoyerMoore3.java:121-131 | every shift of at least `|p|` is consistent |
| Borders.FullMatchShiftIsWidestBorderStart | BoyerMoore3.java:121-127 | after a full match the shift is `bpos[0]`: `|p|` minus the length of the widest proper border |
| Borders.FullMatchShiftExamples | BoyerMoore3.java:121-127 | `shift[0]` is 1 for "AAA" and 4 for "ABCD" |
| Borders.StrongShiftMeaning | BoyerMoore3.java:106-110 | the strong-suffix entry for `k` is 0 exactly when no strong alignment for `k` exists at or above `lo`; otherwise it comes from the largest one |
| Borders.CompatibleBelow | BoyerMoore3.java:106-110 | a shift below `k` is consistent exactly when it comes from a strong alignment |
| Borders.CompatibleAbove | BoyerMoore3.java:121-131 | a shift of at least `k` is consistent exactly when it is at least `|p|` or starts a border of the whole pattern |
| Borders.StrongShiftIsMinimal | BoyerMoore3.java:108-110 | a non-zero strong-suffix entry is the smallest consistent shift |
| Borders.CaseTwoShiftIsMinimal | BoyerMoore3.java:121-131 | when the strong-suffix entry is 0, the first border start of the whole pattern at or above `k` is the smallest consistent shift |
| Borders.StrongShiftRecorded | BoyerMoore3.java:108-110 | a strong alignment at or above `lo` guarantees a non-zero entry |
| Borders.OccurrenceIsCompatible | BoyerMoore3.java:48-50 | an occurrence at offset `o + e` after the comparison at `o` makes `e` consistent |
| Borders.GoodSuffixSkipIsSafe | BoyerMoore3.java:48-50 | after matching `p[k..]` and mismatching at `k - 1`, no occurrence starts in the next `GoodSuffixShift(p, k) - 1` offsets |
| GoodSuffixTable.PreprocessStrongSuffix | BoyerMoore3.java:99-117 | afterwards `bpos[i]` is the widest border start of `p[i..]` for every `i`, `shift[k]` is the strong-suffix shift (0 when none exists), and entries beyond `|p|` are unchanged (the pass at BoyerMoore.java:91-108 and GoodSuffix.java:5-20 is the same, statement for statement, up to names) |
| GoodSuffixTable.ChaseBorders | BoyerMoore3.java:106-112 | one round of the inner chase at position `i`: it records `j - i` in the still-zero entries along the chase and stops at `bpos[i - 1] + 1` |
| GoodSuffixTable.ChaseStart | BoyerMoore3.java:104-106 | before the chase at `i`, `j == bpos[i]` is the first border start of `p[i..]` |
| GoodSuffixTable.ChaseAdvance | BoyerMoore3.java:106-111 | one chase step: only `shift[j]` changes, and it gets its value for position `i` |
| GoodSuffixTable.ChaseFinish | BoyerMoore3.java:113-115 | when the chase stops, every entry holds its value for position `i`, and `j - 1` is the widest border start of `p[i - 1..]` |
| GoodSuffixTable.ChaseRecorded | BoyerMoore3.java:106-110 | entries beyond the stopping point already had a non-zero strong shift whenever they could get one at `i` |
| GoodSuffixTable.PreprocessCase2 | BoyerMoore3.java:119-132 | afterwards every `shift[k]`, `0 <= k <= |p|`, is the good-suffix shift, `shift[0] == bpos[0]`, and entries beyond `|p|` are unchanged (the pass at BoyerMoore.java:111-124 and GoodSuffix.java:22-32 is the same) |
| GoodSuffixTable.FillStep | BoyerMoore3.java:124-130 | the value left in `shift[k]` (the strong entry, or `j` when that is 0) is the good-suffix shift |
| GoodSuffixTable.PreprocessGoodSuffixShift | BoyerMoore3.java:88-97 | returns a `|p| + 1`-entry table with `shift[k] == GoodSuffixShift(p, k)` (the same set-up as BoyerMoore.java:77-89) |
| BoyerMoore3.BadCharEntry | BoyerMoore3.java:60-86 | a matrix entry is -1 or `t + 1` for an index `t <= k` holding `c` |
| BoyerMoore3.BadCharEntryRightmost | BoyerMoore3.java:60-86 | no column from the entry up to `k` holds `c`; with -1, no column up to `k` does |
| BoyerMoore3.PreprocessBadCharacter | BoyerMoore3.java:60-86 | returns a 256 × `|p|` matrix whose entry `[c, k]` is one more than the rightmost index `<= k` holding `c`, or -1 |
| BoyerMoore3.ColumnFilled | BoyerMoore3.java:74-82 | setting column `i` of row `p[i]` and carrying it right over the -1 entries turns the entries for columns above `i` into those for columns `i` and above |
| BoyerMoore3.LastIndexInLowered | BoyerMoore3.java:70-82 | admitting index `lo` changes the rightmost index only when nothing above `lo` holds `c` |
| BoyerMoore3.Search | BoyerMoore3.java:20-56 | the reported offsets are exactly `Occurrences(text, pattern)`: sound, complete, ascending |
| BoyerMoore3.StepIsSafe | BoyerMoore3.java:36-51 | each advance is at least 1 and skips no occurrence |
| BoyerMoore3.MultiPattern | BoyerMoore3.java:6-17 | the keys are exactly the supplied patterns, each mapped to its occurrences |
| BoyerMoore.BadCharShift | BoyerMoore.java:58-74 | for a non-empty pattern every entry is in `[1, |p|]`; an entry below `|p|` is the distance from an occurrence of `c` in `p[..|p|-1]` to the last index |
| BoyerMoore.BadCharShiftRightmost | BoyerMoore.java:67-72 | the entry is `|p|` exactly when `c` does not occur in `p[..|p|-1]`, and it comes from the rightmost occurrence there |
| BoyerMoore.PreprocessBadCharacter | BoyerMoore.java:58-74 | returns a 256-entry table with `badCharacter[c] == BadCharShift(p, c)` |
| BoyerMoore.Advance | BoyerMoore.java:38-51 | the scan always advances by at least 1 |
| BoyerMoore.ScanFromSound | BoyerMoore.java:31-52 | every offset reported from `o` on is an occurrence at or after `o`, strictly ascending |
| BoyerMoore.ScanSound | BoyerMoore.java:31-52 | every offset the scan reports is an occurrence; strictly ascending |
| BoyerMoore.ScanFromEmpty | BoyerMoore.java:31-43 | with the empty pattern every offset from `o` to `|text|` is reported |
| BoyerMoore.ScanEdgeCases | BoyerMoore.java:31-43 | a pattern longer than the text gives `[]`; the empty pattern gives every offset `0..|text|`, as `Occurrences` does |
| BoyerMoore.ScanMissesOccurrence | BoyerMoore.java:47 | in "QXYccZ" the pattern "XYccZ" occurs at 1, but the scan as written reports nothing |
| BoyerMoore.Search | BoyerMoore.java:21-55 | the reported offsets are those of `Scan`, hence genuine occurrences in ascending order |
| BoyerMoore.ScanStep | BoyerMoore.java:38-51 | one loop iteration follows `ScanFrom` |
| BoyerMoore.MultiPattern | BoyerMoore.java:7-18 | the keys are exactly the supplied patterns, each mapped to what `boyerMoore` reports |
| BoyerMoore.CorrectedSearch | BoyerMoore.java:44-51 | with the bad-character shift `Max(1, j - (m - 1 - badCharacter[c]))` the scan reports exactly the occurrences |
| BoyerMoore.CorrectedStepIsSafe | BoyerMoore.java:44-51 | each corrected advance is at least 1 and skips no occurrence |
| BoyerMoore.MatchStep | BoyerMoore.java:38-43 | after a full match at `o` the scan reports `o` and goes on at `o + shift[0]` |
| BoyerMoore.ShortPatternSkips | BoyerMoore.java:44-51 | a three-symbol pattern with `shift[3] == 1` that mismatches at its last index at every offset of a stretch moves on by one there and reports nothing |
| BoyerMoore.ShortPatternStep | BoyerMoore.java:44-51 | for a pattern of at most three symbols the bad-character candidate never exceeds `shift[j + 1]`, so a mismatch at `j` advances by `shift[j + 1]` |
| GoodSuffix.Advance | GoodSuffix.java:52-60 | the scan always advances by at least 1 |
| GoodSuffix.AdvanceAfterMismatch | GoodSuffix.java:56-59 | after a mismatch `shift1` is negative, `shift[j + 1]` is non-zero, and the advance is `Max(|p| - bpos[j + 1], 1)` |
| GoodSuffix.ScanFromSound | GoodSuffix.java:48-62 | every offset reported from `o` on is an occurrence at or after `o`, strictly ascending |
| GoodSuffix.ScanSound | GoodSuffix.java:48-62 | every reported shift is an occurrence; strictly ascending |
| GoodSuffix.ScanFromEmpty | GoodSuffix.java:48-54 | with the empty pattern every offset from `o` to `|text|` is reported |
| GoodSuffix.ScanEdgeCases | GoodSuffix.java:48-54 | a pattern longer than the text gives `[]`; the empty pattern gives every offset `0..|text|` |
| GoodSuffix.ScanMissesOccurrence | GoodSuffix.java:56-60 | in "BAAAA" the pattern "AAAA" occurs at 1, but the scan as written reports nothing |
| GoodSuffix.PrepareTables | GoodSuffix.java:39-46 | `bpos` has `|p| + 1` entries and `shift` 256; `bpos[i]` is the widest border start and `shift[k]` the good-suffix shift for `k <= |p|` |
| GoodSuffix.SearchPattern | GoodSuffix.java:34-63 | the reported shifts are those of `Scan`, hence genuine occurrences in ascending order |
| GoodSuffix.ScanStep | GoodSuffix.java:52-60 | one loop iteration follows `ScanFrom` |
| GoodSuffix.CorrectedSearchPattern | GoodSuffix.java:55-60 | advancing by `shift[j + 1]` after a mismatch, the scan reports exactly the occurrences |
| GoodSuffix.CorrectedStepIsSafe | GoodSuffix.java:52-60 | each corrected advance is at least 1 and skips no occurrence |
| GoodSuffix.MatchStep | GoodSuffix.java:52-54 | after a full match at `o` the scan reports `o` and goes on at `o + shift[0]` |
| GoodSuffix.ShortPatternSkips | GoodSuffix.java:55-60 | for a pattern of at most three symbols every mismatch advances by one, so a stretch without a match reports nothing |
| BruteForce.PatternSearch | Main.java:5-27 | `matchedIndex` is exactly `Occurrences(text, pattern)`, and `matched` holds exactly when the pattern occurs somewhere |
| BruteForce.MatchedMeansOccurs | Main.java:10-28 | the list of occurrences is non-empty exactly when some offset holds the pattern |
| Demos.BoyerMooreABA | BoyerMoore.java:128-129 | `boyerMoore("ABA AAA BAACAACD", "ABA")` reports `[0]` |
| Demos.BoyerMooreAAC | BoyerMoore.java:128-129 | `boyerMoore("ABA AAA BAACAACD", "AAC")` reports `[9, 12]` |
| Demos.BoyerMooreACD | BoyerMoore.java:128-129 | `boyerMoore("ABA AAA BAACAACD", "ACD")` reports `[13]` |
| Demos.BoyerMooreDCD | BoyerMoore.java:128-129 | `boyerMoore("ABA AAA BAACAACD", "DCD")` reports nothing |
| Demos.GoodSuffixABA | GoodSuffix.java:66-67 | `searchPattern` on "ABA AAA BAACAACD" reports "ABA" at shift 0 only |
| Demos.GoodSuffixAAC | GoodSuffix.java:66-67 | `searchPattern` on "ABA AAA BAACAACD" reports "AAC" at shifts 9 and 12 |
| Demos.BoyerMoore3ADAADA | BoyerMoore3.java:136-138 | "ADAADA" does not occur in the 95-symbol sample text, so `boyerMoore` reports nothing |
| Demos.BoyerMoore3NEBNE | BoyerMoore3.java:136-138 | "NEBNE" occurs in the sample text at 35 only |
| Demos.BoyerMoore3DAB | BoyerMoore3.java:136-138 | "DAB" occurs in the sample text at 5 and 23 only |
| Demos.BoyerMoore3Data | BoyerMoore3.java:139-140 | "data" occurs in "I love data structures & algorithms" at 7 only |
| Demos.BoyerMoore3Algorithms | BoyerMoore3.java:139-140 | "algorithms" occurs in that phrase at 25 only |
| Demos.BoyerMoore3Hate | BoyerMoore3.java:139-140 | "hate" does not occur in that phrase |

## Left out

- `main` and all console output are left out (BoyerMoore3.java:42 and 135-159, BoyerMoore.java:127-147, GoodSuffix.java:53 and 65-75, Main.java:28-35 and 45-54). The scanners return what they would print. What the `main` methods of BoyerMoore.java, GoodSuffix.java and BoyerMoore3.java search for and find is stated as lemmas in `Demos`. The single call at Main.java:52 is not restated, since `BruteForce.PatternSearch` returns `Occurrences` for every input.
- The `Scanner` input of Main.java:46 is I/O, and the `numshift` counter (BoyerMoore3.java:28 and 51) only feeds the printout. Both are left out.
- The iteration order of `HashMap` is not modelled. `MultiPattern` returns a Dafny `map`, which has no order.
- Java strings are sequences of UTF-16 code units; the model uses Dafny `char`. Only equality of symbols and the bound below 256 matter here.
- `int[256][m]` becomes an `array2` in BoyerMoore3.java. The source updates a row through an alias (`character`), which the model writes as `matrix[c, k]`.
- Java's 32-bit `int` is not modelled. Every index, shift and table entry lies between `-max(|p|, 1)` and `max(|text|, |p|) + 1`. With the empty pattern the comparison index starts at `m - 1 == -1`. The tables are built before the scan loop, so `bpos[m] == m + 1` and shift entries up to `m` arise even when the pattern is longer than the text. `shift1` in GoodSuffix.java:56 is negative. With the empty pattern the offset reaches `|text| + 1`. So nothing wraps while `|text| + 1` and `|p| + 1` fit in an `int`.
- An index out of bounds raises an exception in Java; the model turns each such case into a precondition.
  - BoyerMoore3.Search requires every text symbol below 256. Java indexes the matrix only with symbols found at a mismatch, so this asks more than the source needs.
  - The same holds for BoyerMoore3.MultiPattern, BoyerMoore.Search, BoyerMoore.CorrectedSearch and BoyerMoore.MultiPattern.
  - BoyerMoore.PreprocessBadCharacter requires only the symbols it uses as indices, all but the last of the pattern, to be below 256.
  - GoodSuffix.SearchPattern requires `|pattern| < 256`, because `shift` has `NO_OF_CHARS` entries (GoodSuffix.java:40-43).
- BoyerMoore.Search: its result is not claimed to contain every occurrence, because it does not (see Findings).
- GoodSuffix.SearchPattern: its result is not claimed to contain every occurrence, because it does not (see Findings).
- The empty pattern: none of the four scanners special-cases it. With `m == 0`, `shift[0] == 1` and every offset `0..|text|` is reported (`ScanEdgeCases`, `OccurrencesOfEmpty`).
- BoyerMoore3.Search: its bad-character shift is one less than the classic rule allows when the mismatched symbol occurs left of `j`, because the matrix then stores its index + 1. When the symbol does not occur there, the entry is -1 and the shift `j + 1` equals the classic rule. It stays safe, and the model proves it complete as written.

## Findings

| source | as written | input that shows it | evidently intended | confidence | as-written member | corrected member |
|---|---|---|---|---|---|---|
| BoyerMoore.java:47 | the bad-character shift is `Max(1, j - badCharacter[c])`, but the table entry (line 70) is the distance `m - 1 - t` of the rightmost `c` from the end, not its index `t` | text "QXYccZ", pattern "XYccZ": at offset 0 the mismatch at `j = 4` against 'c' (entry 1) advances by 3 and skips the occurrence at 1 | use the index the entry stands for: `Max(1, j - (m - 1 - badCharacter[c]))` | high; not executed | BoyerMoore.ScanMissesOccurrence | BoyerMoore.CorrectedSearch |
| GoodSuffix.java:56-60 | after a mismatch the advance is the larger of `j + 1 - bpos[j + 1]` (always negative) and `Max(m - bpos[j + 1], 1)`, which does not come from the good-suffix table | text "BAAAA", pattern "AAAA": the mismatch at `j = 0` at offset 0 advances by `4 - bpos[1] = 2` and skips the occurrence at 1 | advance by the good-suffix entry `shift[j + 1]` | high; not executed | GoodSuffix.ScanMissesOccurrence | GoodSuffix.CorrectedSearchPattern |
