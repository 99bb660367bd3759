/**
 * The demonstration runs in the main methods of BoyerMoore.java,
 * GoodSuffix.java and BoyerMoore3.java, stated about the model: what each
 * scan reports for the sample texts and patterns those methods search.
 * The results of the two incomplete scans are given by their Scan
 * functions; BoyerMoore3.Search returns Occurrences, so its results are
 * given by Occurrences.
 */
module Demos {
  import opened Matching
  import opened Borders
  import BoyerMoore
  import GoodSuffix

  /** The text of the demonstration runs of BoyerMoore.java and GoodSuffix.java. */
  const SampleText := "ABA AAA BAACAACD"

  /** The good-suffix shifts of "AAC": 1 after a mismatch at its last index, 3 after a match. */
  lemma TablesAAC()
    ensures GoodSuffixShift("AAC", 3) == 1 && GoodSuffixShift("AAC", 0) == 3
  {
    var p := "AAC";
    assert Compatible(p, 3, 1);
    assert !Compatible(p, 0, 1) by { assert p[1] != p[2]; }
    assert !Compatible(p, 0, 2) by { assert p[0] != p[2]; }
  }

  /** The good-suffix shifts of "ABA": 1 after a mismatch at its last index, 2 otherwise. */
  lemma TablesABA()
    ensures GoodSuffixShift("ABA", 3) == 1
    ensures GoodSuffixShift("ABA", 0) == 2 && GoodSuffixShift("ABA", 1) == 2 && GoodSuffixShift("ABA", 2) == 2
  {
    var p := "ABA";
    assert Compatible(p, 3, 1);
    assert !Compatible(p, 0, 1) && !Compatible(p, 1, 1) by { assert p[0] != p[1]; }
    assert !Compatible(p, 2, 1) by { assert p[1] != p[2]; }
    assert Compatible(p, 0, 2) && Compatible(p, 1, 2) && Compatible(p, 2, 2);
  }

  /** "ACD" and "DCD" move on by one after a mismatch at their last index. */
  lemma TablesLastIndex()
    ensures GoodSuffixShift("ACD", 3) == 1 && GoodSuffixShift("DCD", 3) == 1
  {
    assert Compatible("ACD", 3, 1) && Compatible("DCD", 3, 1);
  }

  /** Below hi, every window of the sample text ends in a symbol other than p's last. */
  lemma SampleLastMismatches(p: seq<char>, hi: nat)
    requires |p| == 3 && hi <= 13
    requires forall t :: 2 <= t < hi + 2 ==> p[2] != SampleText[t]
    ensures forall o :: 0 <= o < hi ==> Mismatch(SampleText, p, o) == 2
  {
    forall o | 0 <= o < hi ensures Mismatch(SampleText, p, o) == 2 {
      MismatchIs(SampleText, p, o, 2);
    }
  }

  /** The windows of the sample text that hold one of the searched patterns. */
  lemma SampleWindows()
    ensures MatchesAt(SampleText, "AAC", 9) && MatchesAt(SampleText, "AAC", 12)
    ensures MatchesAt(SampleText, "ABA", 0) && MatchesAt(SampleText, "ACD", 13)
  {
  }

  /** Where the comparison stops in the windows the BoyerMoore.java run of "ABA" visits. */
  lemma SampleMismatchesABA()
    ensures Mismatch(SampleText, "ABA", 2) == 1 && Mismatch(SampleText, "ABA", 4) == 1
    ensures Mismatch(SampleText, "ABA", 6) == 2 && Mismatch(SampleText, "ABA", 7) == 0
    ensures Mismatch(SampleText, "ABA", 9) == 2 && Mismatch(SampleText, "ABA", 10) == 1
    ensures Mismatch(SampleText, "ABA", 12) == 2 && Mismatch(SampleText, "ABA", 13) == 2
  {
    MismatchIs(SampleText, "ABA", 2, 1);
    MismatchIs(SampleText, "ABA", 4, 1);
    MismatchIs(SampleText, "ABA", 6, 2);
    MismatchIs(SampleText, "ABA", 7, 0);
    MismatchIs(SampleText, "ABA", 9, 2);
    MismatchIs(SampleText, "ABA", 10, 1);
    MismatchIs(SampleText, "ABA", 12, 2);
    MismatchIs(SampleText, "ABA", 13, 2);
  }

  /** The boyerMoore run of "AAC" over a 16-symbol text with the windows of the sample text. */
  lemma BoyerMooreRunAAC(text: seq<char>, p: seq<char>)
    requires |text| == 16 && |p| == 3 && GoodSuffixShift(p, 3) == 1 && GoodSuffixShift(p, 0) == 3
    requires forall o :: 0 <= o < 9 ==> Mismatch(text, p, o) == 2
    requires MatchesAt(text, p, 9) && MatchesAt(text, p, 12)
    ensures BoyerMoore.Scan(text, p) == [9, 12]
  {
    BoyerMoore.ShortPatternSkips(text, p, 0, 9);
    BoyerMoore.MatchStep(text, p, 9);
    BoyerMoore.MatchStep(text, p, 12);
  }

  /**
   * The BoyerMoore.java demonstration run: "AAC" is reported at 9 and 12.
   * Up to offset 9 every window mismatches at its last index and the scan
   * moves on by one; each match moves it on by shift[0] == 3.
   */
  lemma BoyerMooreAAC()
    ensures BoyerMoore.Scan(SampleText, "AAC") == [9, 12]
  {
    TablesAAC();
    SampleLastMismatches("AAC", 9);
    SampleWindows();
    BoyerMooreRunAAC(SampleText, "AAC");
  }

  /** The boyerMoore run of "ABA" from offset 2 to offset 9, given where its comparisons stop. */
  lemma BoyerMooreRunABALow(text: seq<char>, p: seq<char>)
    requires |p| == 3 && |text| == 16
    requires GoodSuffixShift(p, 1) == 2 && GoodSuffixShift(p, 2) == 2 && GoodSuffixShift(p, 3) == 1
    requires Mismatch(text, p, 2) == 1 && Mismatch(text, p, 4) == 1
    requires Mismatch(text, p, 6) == 2 && Mismatch(text, p, 7) == 0
    ensures BoyerMoore.ScanFrom(text, p, 2) == BoyerMoore.ScanFrom(text, p, 9)
  {
    BoyerMoore.ShortPatternStep(text, p, 2, 1, 4);
    BoyerMoore.ShortPatternStep(text, p, 4, 1, 6);
    BoyerMoore.ShortPatternStep(text, p, 6, 2, 7);
    BoyerMoore.ShortPatternStep(text, p, 7, 0, 9);
  }

  /** The boyerMoore run of "ABA" from offset 9 to the end, given where its comparisons stop. */
  lemma BoyerMooreRunABAHigh(text: seq<char>, p: seq<char>)
    requires |p| == 3 && |text| == 16
    requires GoodSuffixShift(p, 2) == 2 && GoodSuffixShift(p, 3) == 1
    requires Mismatch(text, p, 9) == 2 && Mismatch(text, p, 10) == 1
    requires Mismatch(text, p, 12) == 2 && Mismatch(text, p, 13) == 2
    ensures BoyerMoore.ScanFrom(text, p, 9) == []
  {
    BoyerMoore.ShortPatternStep(text, p, 9, 2, 10);
    BoyerMoore.ShortPatternStep(text, p, 10, 1, 12);
    BoyerMoore.ShortPatternStep(text, p, 12, 2, 13);
    BoyerMoore.ShortPatternStep(text, p, 13, 2, 14);
  }

  /**
   * The BoyerMoore.java demonstration run: "ABA" is reported at 0 only.
   * After the match the scan visits 2, 4, 6, 7, 9, 10, 12 and 13,
   * mismatching at each.
   */
  lemma BoyerMooreABA()
    ensures BoyerMoore.Scan(SampleText, "ABA") == [0]
  {
    TablesABA();
    SampleWindows();
    SampleMismatchesABA();
    BoyerMoore.MatchStep(SampleText, "ABA", 0);
    BoyerMooreRunABALow(SampleText, "ABA");
    BoyerMooreRunABAHigh(SampleText, "ABA");
  }

  /** The boyerMoore run of a three-symbol pattern that mismatches last below 13 and matches at 13. */
  lemma BoyerMooreRunACD(text: seq<char>, p: seq<char>)
    requires |text| == 16 && |p| == 3 && GoodSuffixShift(p, 3) == 1
    requires forall o :: 0 <= o < 13 ==> Mismatch(text, p, o) == 2
    requires MatchesAt(text, p, 13)
    ensures BoyerMoore.Scan(text, p) == [13]
  {
    BoyerMoore.ShortPatternSkips(text, p, 0, 13);
    BoyerMoore.MatchStep(text, p, 13);
  }

  /**
   * The BoyerMoore.java demonstration run: "ACD" is reported at 13 only;
   * every earlier window mismatches at its last index.
   */
  lemma BoyerMooreACD()
    ensures BoyerMoore.Scan(SampleText, "ACD") == [13]
  {
    TablesLastIndex();
    SampleLastMismatches("ACD", 13);
    SampleWindows();
    BoyerMooreRunACD(SampleText, "ACD");
  }

  /** The boyerMoore run of a three-symbol pattern that mismatches last below 13 and not at 13. */
  lemma BoyerMooreRunDCD(text: seq<char>, p: seq<char>)
    requires |text| == 16 && |p| == 3 && GoodSuffixShift(p, 3) == 1
    requires forall o :: 0 <= o < 13 ==> Mismatch(text, p, o) == 2
    requires Mismatch(text, p, 13) >= 0
    ensures BoyerMoore.Scan(text, p) == []
  {
    BoyerMoore.ShortPatternSkips(text, p, 0, 13);
    BoyerMoore.ScanFromStep(text, p, 13);
  }

  /**
   * The BoyerMoore.java demonstration run: "DCD" is not reported; the
   * last window, at 13, mismatches at index 0.
   */
  lemma BoyerMooreDCD()
    ensures BoyerMoore.Scan(SampleText, "DCD") == []
  {
    TablesLastIndex();
    SampleLastMismatches("DCD", 13);
    MismatchIs(SampleText, "DCD", 13, 0);
    BoyerMooreRunDCD(SampleText, "DCD");
  }

  /** The gaps between the occurrences of "ABA" and "AAC" in the sample text. */
  lemma SampleGaps()
    ensures NoMatchBetween(SampleText, "ABA", 2, 14) && NoMatchBetween(SampleText, "AAC", 0, 9)
  {
    AbsentSymbol(SampleText, "ABA", 2, 7, 1);
    AbsentSymbol(SampleText, "ABA", 7, 8, 0);
    AbsentSymbol(SampleText, "ABA", 8, 14, 1);
    AbsentSymbol(SampleText, "AAC", 0, 9, 2);
  }

  /** The searchPattern run of "ABA" over a text that holds it at 0 and nowhere in [2, 14). */
  lemma GoodSuffixRunABA(text: seq<char>, p: seq<char>)
    requires |text| == 16 && |p| == 3 && GoodSuffixShift(p, 0) == 2
    requires MatchesAt(text, p, 0) && NoMatchBetween(text, p, 2, 14)
    ensures GoodSuffix.Scan(text, p) == [0]
  {
    GoodSuffix.MatchStep(text, p, 0);
    GoodSuffix.ShortPatternSkips(text, p, 2, 14);
  }

  /**
   * The GoodSuffix.java demonstration run: "ABA" is reported at 0 only;
   * after the match every mismatch moves the scan on by one.
   */
  lemma GoodSuffixABA()
    ensures GoodSuffix.Scan(SampleText, "ABA") == [0]
  {
    TablesABA();
    SampleWindows();
    SampleGaps();
    GoodSuffixRunABA(SampleText, "ABA");
  }

  /** The searchPattern run of "AAC" over a text that holds it at 9 and 12 and nowhere before 9. */
  lemma GoodSuffixRunAAC(text: seq<char>, p: seq<char>)
    requires |text| == 16 && |p| == 3 && GoodSuffixShift(p, 0) == 3
    requires NoMatchBetween(text, p, 0, 9) && MatchesAt(text, p, 9) && MatchesAt(text, p, 12)
    ensures GoodSuffix.Scan(text, p) == [9, 12]
  {
    GoodSuffix.ShortPatternSkips(text, p, 0, 9);
    GoodSuffix.MatchStep(text, p, 9);
    GoodSuffix.MatchStep(text, p, 12);
  }

  /**
   * The GoodSuffix.java demonstration run: "AAC" is reported at 9 and 12;
   * each match moves the scan on by shift[0] == 3.
   */
  lemma GoodSuffixAAC()
    ensures GoodSuffix.Scan(SampleText, "AAC") == [9, 12]
  {
    TablesAAC();
    SampleWindows();
    SampleGaps();
    GoodSuffixRunAAC(SampleText, "AAC");
  }

  /** The text of the demonstration run left commented out in BoyerMoore3.java. */
  const PhraseText := "I love data " + "structures & " + "algorithms"

  /** Where "data", "algorithms" and "hate" occur in the phrase, and the gaps between. */
  lemma PhraseFacts()
    ensures NoMatchBetween(PhraseText, "data", 0, 7) && MatchesAt(PhraseText, "data", 7)
    ensures NoMatchBetween(PhraseText, "data", 8, 36)
    ensures NoMatchBetween(PhraseText, "algorithms", 0, 25) && MatchesAt(PhraseText, "algorithms", 25)
    ensures NoMatchBetween(PhraseText, "algorithms", 26, 36)
    ensures NoMatchBetween(PhraseText, "hate", 0, 36)
  {
    AbsentSymbol(PhraseText, "data", 0, 7, 0);
    AbsentSymbol(PhraseText, "data", 8, 32, 0);
    AbsentSymbol(PhraseText, "algorithms", 0, 25, 2);
    AbsentSymbol(PhraseText, "hate", 0, 32, 0);
  }

  /** "data" occurs in the phrase at 7 only, as BoyerMoore3.Search reports. */
  lemma BoyerMoore3Data()
    ensures Occurrences(PhraseText, "data") == [7]
  {
    PhraseFacts();
    OccursOnceAt(PhraseText, "data", 7);
  }

  /** "algorithms" occurs in the phrase at 25 only, as BoyerMoore3.Search reports. */
  lemma BoyerMoore3Algorithms()
    ensures Occurrences(PhraseText, "algorithms") == [25]
  {
    PhraseFacts();
    OccursOnceAt(PhraseText, "algorithms", 25);
  }

  /** "hate" does not occur in the phrase, as BoyerMoore3.Search reports. */
  lemma BoyerMoore3Hate()
    ensures Occurrences(PhraseText, "hate") == []
  {
    PhraseFacts();
    OccursNowhere(PhraseText, "hate");
  }

  /** The text of the demonstration run of BoyerMoore3.java, in pieces of 16 symbols. */
  const LetterText :=
    "BANNNDABNDDDANAN" +
    "DADNANDDABDNENAN" +
    "RDDNEBNEDBNRNERN" +
    "ENENRNENRNENBNDA" +
    "NBAADNERNAADDSSA" +
    "DADADANABNAAANA"

  /** No window of the letter text starting in [0, 15) holds "ADAADA". */
  lemma LetterGapsADAADA1()
    ensures NoMatchBetween(LetterText, "ADAADA", 0, 15)
  {
    AbsentSymbol(LetterText, "ADAADA", 0, 4, 1);
    AbsentSymbol(LetterText, "ADAADA", 4, 9, 3);
    AbsentSymbol(LetterText, "ADAADA", 9, 12, 0);
    AbsentSymbol(LetterText, "ADAADA", 12, 15, 1);
  }

  /** No window of the letter text starting in [15, 30) holds "ADAADA". */
  lemma LetterGapsADAADA2()
    ensures NoMatchBetween(LetterText, "ADAADA", 15, 30)
  {
    AbsentSymbol(LetterText, "ADAADA", 15, 18, 4);
    AbsentSymbol(LetterText, "ADAADA", 18, 21, 1);
    AbsentSymbol(LetterText, "ADAADA", 21, 25, 5);
    AbsentSymbol(LetterText, "ADAADA", 25, 30, 0);
  }

  /** No window of the letter text starting in [30, 74) holds "ADAADA". */
  lemma LetterGapsADAADA3()
    ensures NoMatchBetween(LetterText, "ADAADA", 30, 74)
  {
    AbsentSymbol(LetterText, "ADAADA", 30, 61, 2);
    AbsentSymbol(LetterText, "ADAADA", 61, 64, 4);
    AbsentSymbol(LetterText, "ADAADA", 64, 68, 5);
    AbsentSymbol(LetterText, "ADAADA", 68, 74, 1);
  }

  /** No window of the letter text starting in [74, 81) holds "ADAADA". */
  lemma LetterGapsADAADA4()
    ensures NoMatchBetween(LetterText, "ADAADA", 74, 81)
  {
    AbsentSymbol(LetterText, "ADAADA", 74, 77, 2);
    AbsentSymbol(LetterText, "ADAADA", 77, 79, 0);
    AbsentSymbol(LetterText, "ADAADA", 79, 80, 3);
    AbsentSymbol(LetterText, "ADAADA", 80, 81, 0);
  }

  /** No window of the letter text starting in [81, 96) holds "ADAADA". */
  lemma LetterGapsADAADA5()
    ensures NoMatchBetween(LetterText, "ADAADA", 81, 96)
  {
    AbsentSymbol(LetterText, "ADAADA", 81, 90, 4);
  }

  /** No window of the letter text starting in [0, 35) holds "NEBNE". */
  lemma LetterGapsNEBNE1()
    ensures NoMatchBetween(LetterText, "NEBNE", 0, 35)
  {
    AbsentSymbol(LetterText, "NEBNE", 0, 27, 1);
    AbsentSymbol(LetterText, "NEBNE", 27, 35, 2);
  }

  /** No window of the letter text starting in [36, 96) holds "NEBNE". */
  lemma LetterGapsNEBNE2()
    ensures NoMatchBetween(LetterText, "NEBNE", 36, 96)
  {
    AbsentSymbol(LetterText, "NEBNE", 36, 41, 4);
    AbsentSymbol(LetterText, "NEBNE", 41, 58, 2);
    AbsentSymbol(LetterText, "NEBNE", 58, 69, 1);
    AbsentSymbol(LetterText, "NEBNE", 69, 91, 4);
  }

  /** No window of the letter text starting in [0, 5) holds "DAB". */
  lemma LetterGapsDAB1()
    ensures NoMatchBetween(LetterText, "DAB", 0, 5)
  {
    AbsentSymbol(LetterText, "DAB", 0, 5, 0);
  }

  /** No window of the letter text starting in [6, 23) holds "DAB". */
  lemma LetterGapsDAB2()
    ensures NoMatchBetween(LetterText, "DAB", 6, 23)
  {
    AbsentSymbol(LetterText, "DAB", 6, 23, 2);
  }

  /** No window of the letter text starting in [24, 68) holds "DAB". */
  lemma LetterGapsDAB3()
    ensures NoMatchBetween(LetterText, "DAB", 24, 68)
  {
    AbsentSymbol(LetterText, "DAB", 24, 35, 2);
    AbsentSymbol(LetterText, "DAB", 35, 62, 1);
    AbsentSymbol(LetterText, "DAB", 62, 63, 2);
    AbsentSymbol(LetterText, "DAB", 63, 68, 0);
  }

  /** No window of the letter text starting in [68, 96) holds "DAB". */
  lemma LetterGapsDAB4()
    ensures NoMatchBetween(LetterText, "DAB", 68, 96)
  {
    AbsentSymbol(LetterText, "DAB", 68, 86, 2);
    AbsentSymbol(LetterText, "DAB", 86, 93, 0);
  }

  /** "ADAADA" does not occur in the letter text, as BoyerMoore3.Search reports. */
  lemma BoyerMoore3ADAADA()
    ensures Occurrences(LetterText, "ADAADA") == []
  {
    LetterGapsADAADA1();
    LetterGapsADAADA2();
    LetterGapsADAADA3();
    LetterGapsADAADA4();
    LetterGapsADAADA5();
    OccursNowhere(LetterText, "ADAADA");
  }

  /** "NEBNE" occurs in the letter text at 35 only, as BoyerMoore3.Search reports. */
  lemma BoyerMoore3NEBNE()
    ensures Occurrences(LetterText, "NEBNE") == [35]
  {
    LetterGapsNEBNE1();
    LetterGapsNEBNE2();
    assert MatchesAt(LetterText, "NEBNE", 35);
    OccursOnceAt(LetterText, "NEBNE", 35);
  }

  /** "DAB" occurs in the letter text at 5 and 23 only, as BoyerMoore3.Search reports. */
  lemma BoyerMoore3DAB()
    ensures Occurrences(LetterText, "DAB") == [5, 23]
  {
    LetterGapsDAB1();
    LetterGapsDAB2();
    LetterGapsDAB3();
    LetterGapsDAB4();
    assert MatchesAt(LetterText, "DAB", 5) && MatchesAt(LetterText, "DAB", 23);
    OccursTwiceAt(LetterText, "DAB", 5, 23);
  }
}
