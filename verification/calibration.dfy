/** Day 1 of Advent of Code 2023: calibration values.

    Part 1 reads each line's digit characters and forms the two-digit
    number of the first and the last; Part 2 first rewrites the spelled-out
    numbers "nine" .. "one" with `str.replace`, each into its first letter,
    its digit and its last letter, so that words sharing a letter
    ("eightwo") both keep their digit. Both parts add the line's value to a
    running total, and a line without any digit stops the run. */
module Calibration {
  import opened Text
  import opened Results

  // ---------------------------------------------------------------------
  // Part 1: the calibration value of one line
  // ---------------------------------------------------------------------

  /** Index of the leftmost digit of the line. */
  function FirstDigitIndex(line: string): (i: nat)
    requires HasDigit(line)
    ensures i < |line| && IsDigit(line[i])
    ensures forall k :: 0 <= k < i ==> !IsDigit(line[k])
    decreases |line|
  {
    if IsDigit(line[0]) then 0
    else
      assert HasDigit(line[1..]) by {
        var i :| 0 <= i < |line| && IsDigit(line[i]);
        assert line[1..][i - 1] == line[i];
      }
      1 + FirstDigitIndex(line[1..])
  }

  /** Index of the rightmost digit of the line. */
  function LastDigitIndex(line: string): (j: nat)
    requires HasDigit(line)
    ensures j < |line| && IsDigit(line[j])
    ensures forall k :: j < k < |line| ==> !IsDigit(line[k])
    decreases |line|
  {
    var n := |line| - 1;
    if IsDigit(line[n]) then n
    else
      assert HasDigit(line[..n]) by {
        var i :| 0 <= i < |line| && IsDigit(line[i]);
        assert line[..n][i] == line[i];
      }
      LastDigitIndex(line[..n])
  }

  /** The first of the extracted digits is the leftmost digit of the line. */
  lemma DigitCharsFirst(line: string)
    requires HasDigit(line)
    ensures DigitChars(line)[0] == line[FirstDigitIndex(line)]
  {
    var i := FirstDigitIndex(line);
    DigitCharsAt(line, i);
    assert forall k :: 0 <= k < i ==> line[..i][k] == line[k];
    DigitCharsOfDigitFree(line[..i]);
  }

  /** The last of the extracted digits is the rightmost digit of the line. */
  lemma DigitCharsLast(line: string)
    requires HasDigit(line)
    ensures var ds := DigitChars(line); ds[|ds| - 1] == line[LastDigitIndex(line)]
  {
    var j := LastDigitIndex(line);
    var after := line[j + 1..];
    DigitCharsAt(line, j);
    assert forall k :: 0 <= k < |after| ==> after[k] == line[j + 1 + k];
    DigitCharsOfDigitFree(after);
  }

  lemma DigitCharsEnds(line: string)
    requires HasDigit(line)
    ensures var ds := DigitChars(line);
      && ds[0] == line[FirstDigitIndex(line)]
      && ds[|ds| - 1] == line[LastDigitIndex(line)]
  {
    DigitCharsFirst(line);
    DigitCharsLast(line);
  }

  /** `int(digits[0] + digits[-1])`: ten times the leftmost digit plus the
      rightmost one; with a single digit d both ends are d. */
  function CalibrationValue(line: string): (v: nat)
    requires HasDigit(line)
    ensures v <= 99
    ensures v == 10 * DigitValue(line[FirstDigitIndex(line)]) + DigitValue(line[LastDigitIndex(line)])
  {
    var ds := DigitChars(line);
    DigitCharsEnds(line);
    DecimalValueOfTwo(ds[0], ds[|ds| - 1]);
    DecimalValue([ds[0], ds[|ds| - 1]])
  }

  /** The same value read off the extracted digit list. */
  lemma CalibrationOfDigits(line: string)
    requires HasDigit(line)
    ensures var ds := DigitChars(line);
      CalibrationValue(line) == 10 * DigitValue(ds[0]) + DigitValue(ds[|ds| - 1])
  {
    DigitCharsEnds(line);
  }

  /** A line holding exactly one digit d has calibration value 11 * d. */
  lemma SingleDigit(line: string, i: nat)
    requires i < |line| && IsDigit(line[i])
    requires forall k :: 0 <= k < |line| && k != i ==> !IsDigit(line[k])
    ensures HasDigit(line) && CalibrationValue(line) == 11 * DigitValue(line[i])
  {
  }

  /** `day1_part1_extract_numbers_in_string`: adds the line's calibration
      value to the running total, or fails on a line without digits. */
  function Part1Step(total: int, line: string): (r: Result<int>)
    ensures r.Ok? <==> HasDigit(line)
    ensures r.Err? ==> r.error == NoDigits(line)
    ensures r.Ok? ==> r.value == total + 10 * DigitValue(line[FirstDigitIndex(line)])
                                       + DigitValue(line[LastDigitIndex(line)])
    ensures r.Ok? ==> total <= r.value <= total + 99
  {
    var ds := DigitChars(line);
    if |ds| == 0 then Err(NoDigits(line)) else Ok(total + CalibrationValue(line))
  }

  // ---------------------------------------------------------------------
  // Part 2: spelled-out numbers
  // ---------------------------------------------------------------------

  /** One entry of the word table: a spelled-out number and its
      replacement text. */
  datatype NumWord = NumWord(word: string, replacement: string)

  /** `num_dict`, in its insertion order, which is the order the words
      are replaced in. */
  const NumWords: seq<NumWord> := [
    NumWord("nine", "n9e"),
    NumWord("eight", "e8t"),
    NumWord("seven", "s7n"),
    NumWord("six", "s6x"),
    NumWord("five", "f5e"),
    NumWord("four", "f4r"),
    NumWord("three", "t3e"),
    NumWord("two", "t2o"),
    NumWord("one", "o1e")
  ]

  /** The shape every table entry has: a word of at least three letters,
      no digits, different first and last letters, replaced by its first
      letter, one digit and its last letter. */
  predicate GoodEntry(e: NumWord) {
    && |e.word| >= 3
    && !HasDigit(e.word)
    && e.word[0] != e.word[|e.word| - 1]
    && |e.replacement| == 3
    && e.replacement[0] == e.word[0]
    && IsDigit(e.replacement[1])
    && e.replacement[2] == e.word[|e.word| - 1]
  }

  predicate GoodEntries(table: seq<NumWord>) {
    forall k :: 0 <= k < |table| ==> GoodEntry(table[k])
  }

  lemma GoodNine() ensures GoodEntry(NumWord("nine", "n9e")) {
    assert DigitChars("nine") == [];
  }
  lemma GoodEight() ensures GoodEntry(NumWord("eight", "e8t")) {
    assert DigitChars("eight") == [];
  }
  lemma GoodSeven() ensures GoodEntry(NumWord("seven", "s7n")) {
    assert DigitChars("seven") == [];
  }
  lemma GoodSix() ensures GoodEntry(NumWord("six", "s6x")) {
    assert DigitChars("six") == [];
  }
  lemma GoodFive() ensures GoodEntry(NumWord("five", "f5e")) {
    assert DigitChars("five") == [];
  }
  lemma GoodFour() ensures GoodEntry(NumWord("four", "f4r")) {
    assert DigitChars("four") == [];
  }
  lemma GoodThree() ensures GoodEntry(NumWord("three", "t3e")) {
    assert DigitChars("three") == [];
  }
  lemma GoodTwo() ensures GoodEntry(NumWord("two", "t2o")) {
    assert DigitChars("two") == [];
  }
  lemma GoodOne() ensures GoodEntry(NumWord("one", "o1e")) {
    assert DigitChars("one") == [];
  }

  /** Every replacement keeps the word's first and last letters and puts
      between them the digit of the number the word spells: entry k of
      the table stands for 9 - k. */
  lemma NumWordsShape()
    ensures |NumWords| == 9
    ensures GoodEntries(NumWords)
    ensures forall k :: 0 <= k < |NumWords| ==> NumWords[k].replacement[1] == DigitChar(9 - k)
  {
    GoodNine(); GoodEight(); GoodSeven(); GoodSix(); GoodFive();
    GoodFour(); GoodThree(); GoodTwo(); GoodOne();
  }

  /** One pass of the loop: `if word in line: line = line.replace(word, replacement)`. */
  function ReplaceWord(line: string, e: NumWord): string
    requires |e.word| > 0
  {
    if Contains(line, e.word) then ReplaceAll(line, e.word, e.replacement) else line
  }

  /** The membership test in front of the replacement never changes the
      outcome: a pass is exactly `line.replace(word, replacement)`. */
  lemma ReplaceWordIsReplace(line: string, e: NumWord)
    requires |e.word| > 0
    ensures ReplaceWord(line, e) == ReplaceAll(line, e.word, e.replacement)
  {
    if !Contains(line, e.word) {
      ReplaceAbsent(line, e.word, e.replacement);
    }
  }

  /** The loop over the table, in table order. */
  function ReplaceWords(line: string, table: seq<NumWord>): string
    requires GoodEntries(table)
    decreases |table|
  {
    if |table| == 0 then line
    else ReplaceWords(ReplaceWord(line, table[0]), table[1..])
  }

  /** The line as Part 2 hands it to Part 1. */
  function Normalize(line: string): string {
    NumWordsShape();
    ReplaceWords(line, NumWords)
  }

  /** `day1_part2_replace_numeric_words_with_numbers`. */
  function Part2Step(total: int, line: string): Result<int> {
    Part1Step(total, Normalize(line))
  }

  /** Replacing a digit-free word keeps every digit already in the line,
      in order. */
  lemma {:induction false} ReplaceKeepsDigits(s: string, w: string, r: string)
    requires |w| > 0 && !HasDigit(w)
    ensures IsSubsequence(DigitChars(s), DigitChars(ReplaceAll(s, w, r)))
    decreases |s|
  {
    if |s| == 0 {
    } else if StartsWith(s, w) {
      var rest := s[|w|..];
      ReplaceKeepsDigits(rest, w, r);
      assert s == w + rest;
      assert ReplaceAll(s, w, r) == r + ReplaceAll(rest, w, r);
      DigitCharsAppend(w, rest);
      DigitCharsAppend(r, ReplaceAll(rest, w, r));
      assert DigitChars(w) == [];
      assert DigitChars(s) == DigitChars(rest);
      assert DigitChars(ReplaceAll(s, w, r)) == DigitChars(r) + DigitChars(ReplaceAll(rest, w, r));
      SubsequencePrepend(DigitChars(rest), DigitChars(ReplaceAll(rest, w, r)), DigitChars(r));
    } else {
      ReplaceKeepsDigits(s[1..], w, r);
      var a := DigitChars(s[1..]);
      var b := DigitChars(ReplaceAll(s[1..], w, r));
      var out := [s[0]] + ReplaceAll(s[1..], w, r);
      assert out[1..] == ReplaceAll(s[1..], w, r);
      if IsDigit(s[0]) {
        SubsequenceCons(s[0], a, b);
      } else {
        assert DigitChars(s) == a;
        assert DigitChars(out) == b;
      }
    }
  }

  lemma {:induction false} ReplaceWordsKeepsDigits(line: string, table: seq<NumWord>)
    requires GoodEntries(table)
    ensures IsSubsequence(DigitChars(line), DigitChars(ReplaceWords(line, table)))
    decreases |table|
  {
    if |table| == 0 {
      SubsequenceRefl(DigitChars(line));
    } else {
      var next := ReplaceWord(line, table[0]);
      ReplaceWordIsReplace(line, table[0]);
      ReplaceKeepsDigits(line, table[0].word, table[0].replacement);
      ReplaceWordsKeepsDigits(next, table[1..]);
      SubsequenceTrans(DigitChars(line), DigitChars(next), DigitChars(ReplaceWords(next, table[1..])));
    }
  }

  /** Part 2's rewriting never removes or reorders a digit of the line;
      so a line Part 1 accepts, Part 2 accepts too. */
  lemma NormalizeKeepsDigits(line: string)
    ensures IsSubsequence(DigitChars(line), DigitChars(Normalize(line)))
    ensures HasDigit(line) ==> HasDigit(Normalize(line))
  {
    NumWordsShape();
    ReplaceWordsKeepsDigits(line, NumWords);
    if HasDigit(line) {
      SubsequenceNonEmpty(DigitChars(line), DigitChars(Normalize(line)));
    }
  }

  lemma SubsequenceNonEmpty(x: string, y: string)
    requires IsSubsequence(x, y) && |x| > 0
    ensures |y| > 0
  {
  }

  lemma {:induction false} ReplaceWordsAbsent(line: string, table: seq<NumWord>)
    requires GoodEntries(table)
    requires forall k :: 0 <= k < |table| ==> !Contains(line, table[k].word)
    ensures ReplaceWords(line, table) == line
    decreases |table|
  {
    if |table| > 0 {
      ReplaceWordsAbsent(line, table[1..]);
    }
  }

  /** A line containing none of the nine words is not rewritten, so
      Part 2 gives it the same value (or the same error) as Part 1. */
  lemma NoWordsSameAsPart1(total: int, line: string)
    requires forall k :: 0 <= k < |NumWords| ==> !Contains(line, NumWords[k].word)
    ensures Normalize(line) == line
    ensures Part2Step(total, line) == Part1Step(total, line)
  {
    NumWordsShape();
    ReplaceWordsAbsent(line, NumWords);
  }

  /** Rewriting a line made only of digits changes nothing. */
  lemma AllDigitsUnchanged(line: string)
    requires AllDigits(line)
    ensures Normalize(line) == line
  {
    NumWordsShape();
    forall k | 0 <= k < |NumWords|
      ensures !Contains(line, NumWords[k].word)
    {
      var w := NumWords[k].word;
      assert !IsDigit(w[0]);
      NotContainsWithoutFirstChar(line, w);
    }
    ReplaceWordsAbsent(line, NumWords);
  }

  // ---------------------------------------------------------------------
  // Whole document
  // ---------------------------------------------------------------------

  /** The `for` loop of `main`: feeds every line, in order, through a step
      that adds to the running total; the first failing line stops it. */
  function Accumulate(step: (int, string) -> Result<int>, total: int, lines: seq<string>): Result<int>
    decreases |lines|
  {
    if |lines| == 0 then Ok(total)
    else
      match step(total, lines[0])
      case Err(e) => Err(e)
      case Ok(t) => Accumulate(step, t, lines[1..])
  }

  function Part1Total(lines: seq<string>): Result<int> {
    Accumulate(Part1Step, 0, lines)
  }

  function Part2Total(lines: seq<string>): Result<int> {
    Accumulate(Part2Step, 0, lines)
  }

  predicate AllHaveDigits(lines: seq<string>) {
    forall i :: 0 <= i < |lines| ==> HasDigit(lines[i])
  }

  /** Reference sum of the calibration values. */
  function SumValues(lines: seq<string>): nat
    requires AllHaveDigits(lines)
    decreases |lines|
  {
    if |lines| == 0 then 0 else CalibrationValue(lines[0]) + SumValues(lines[1..])
  }

  /** Part 1 over a document: the sum of all calibration values when every
      line has a digit, otherwise the error of the first line without one. */
  lemma {:induction false} Part1Accumulates(total: int, lines: seq<string>)
    ensures var r := Accumulate(Part1Step, total, lines);
      && (r.Ok? <==> AllHaveDigits(lines))
      && (r.Ok? ==> r.value == total + SumValues(lines))
      && (r.Err? ==> exists i :: 0 <= i < |lines| && !HasDigit(lines[i])
                       && AllHaveDigits(lines[..i]) && r.error == NoDigits(lines[i]))
    decreases |lines|
  {
    if |lines| > 0 {
      var tail := lines[1..];
      assert forall i :: 0 <= i < |tail| ==> tail[i] == lines[i + 1];
      if HasDigit(lines[0]) {
        Part1Accumulates(total + CalibrationValue(lines[0]), tail);
        var r := Accumulate(Part1Step, total, lines);
        if r.Err? {
          var i :| 0 <= i < |tail| && !HasDigit(tail[i])
                   && AllHaveDigits(tail[..i]) && r.error == NoDigits(tail[i]);
          assert lines[..i + 1] == [lines[0]] + tail[..i];
        }
      } else {
        assert lines[..0] == [];
      }
    }
  }

  lemma Part1TotalIsSum(lines: seq<string>)
    ensures Part1Total(lines).Ok? <==> AllHaveDigits(lines)
    ensures Part1Total(lines).Ok? ==> Part1Total(lines).value == SumValues(lines)
  {
    Part1Accumulates(0, lines);
  }

  /** Every line of the document after Part 2's rewriting. */
  function NormalizeAll(lines: seq<string>): (out: seq<string>)
    ensures |out| == |lines|
    ensures forall i :: 0 <= i < |lines| ==> out[i] == Normalize(lines[i])
  {
    seq(|lines|, i requires 0 <= i < |lines| => Normalize(lines[i]))
  }

  /** Part 2 over a document is Part 1 over the rewritten document: the
      same total, or the same first failing line. */
  lemma {:induction false} Part2AccumulatesNormalized(total: int, lines: seq<string>)
    ensures Accumulate(Part2Step, total, lines) == Accumulate(Part1Step, total, NormalizeAll(lines))
    decreases |lines|
  {
    if |lines| > 0 {
      assert NormalizeAll(lines)[0] == Normalize(lines[0]);
      assert NormalizeAll(lines)[1..] == NormalizeAll(lines[1..]);
      match Part2Step(total, lines[0])
      case Err(_) =>
      case Ok(t) => Part2AccumulatesNormalized(t, lines[1..]);
    }
  }

  /** Part 2 succeeds exactly when every rewritten line has a digit, and
      then sums the calibration values of the rewritten lines. */
  lemma Part2TotalIsSum(lines: seq<string>)
    ensures Part2Total(lines).Ok? <==> AllHaveDigits(NormalizeAll(lines))
    ensures Part2Total(lines).Ok? ==> Part2Total(lines).value == SumValues(NormalizeAll(lines))
  {
    Part2AccumulatesNormalized(0, lines);
    Part1Accumulates(0, NormalizeAll(lines));
  }

  lemma {:induction false} SumValuesAppend(a: seq<string>, b: seq<string>)
    requires AllHaveDigits(a) && AllHaveDigits(b)
    ensures AllHaveDigits(a + b)
    ensures SumValues(a + b) == SumValues(a) + SumValues(b)
    decreases |a|
  {
    if |a| == 0 {
      assert a + b == b;
    } else {
      assert (a + b)[1..] == a[1..] + b;
      SumValuesAppend(a[1..], b);
    }
  }

  /** The lines without the `k`-th one. */
  lemma DropLine(b: seq<string>, k: nat)
    requires k < |b|
    ensures AllHaveDigits(b) ==> AllHaveDigits(b[..k] + b[k + 1..])
    ensures k == 0 ==> b[..k] + b[k + 1..] == b[1..]
    ensures k > 0 ==> b[..k] + b[k + 1..] == [b[0]] + (b[1..][..k - 1] + b[1..][k..])
  {
    var rest := b[..k] + b[k + 1..];
    assert forall i :: 0 <= i < |rest| ==> rest[i] == (if i < k then b[i] else b[i + 1]);
    if k > 0 {
      assert [b[0]] + b[1..][..k - 1] == b[..k];
    }
  }

  /** Taking one line out of the sum. */
  lemma {:induction false} SumValuesRemove(b: seq<string>, k: nat)
    requires AllHaveDigits(b) && k < |b|
    ensures AllHaveDigits(b[..k] + b[k + 1..])
    ensures SumValues(b) == CalibrationValue(b[k]) + SumValues(b[..k] + b[k + 1..])
    decreases k
  {
    DropLine(b, k);
    if k > 0 {
      var t := b[1..];
      SumValuesRemove(t, k - 1);
      var rest := [b[0]] + (t[..k - 1] + t[k..]);
      assert rest[0] == b[0] && rest[1..] == t[..k - 1] + t[k..];
    }
  }

  lemma AllHaveDigitsOfPermutation(a: seq<string>, b: seq<string>)
    requires AllHaveDigits(a) && multiset(a) == multiset(b)
    ensures AllHaveDigits(b)
  {
    forall i | 0 <= i < |b|
      ensures HasDigit(b[i])
    {
      assert b[i] in multiset(a);
      var j :| 0 <= j < |a| && a[j] == b[i];
    }
  }

  lemma MultisetRemoveMatching(a: seq<string>, b: seq<string>, k: nat)
    requires multiset(a) == multiset(b) && |a| > 0 && k < |b| && b[k] == a[0]
    ensures multiset(a[1..]) == multiset(b[..k] + b[k + 1..])
  {
    assert b == b[..k] + [b[k]] + b[k + 1..];
    assert multiset(b) == multiset(b[..k]) + multiset{b[k]} + multiset(b[k + 1..]);
    assert a == [a[0]] + a[1..];
    assert multiset(a) == multiset{a[0]} + multiset(a[1..]);
    assert multiset(b[..k] + b[k + 1..]) == multiset(b[..k]) + multiset(b[k + 1..]);
    assert multiset(a[1..]) == multiset(a) - multiset{a[0]};
    assert multiset(b[..k]) + multiset(b[k + 1..]) == multiset(b) - multiset{b[k]};
  }

  /** The total does not depend on the order of the lines. */
  lemma {:induction false} SumValuesPermutation(a: seq<string>, b: seq<string>)
    requires AllHaveDigits(a) && multiset(a) == multiset(b)
    ensures AllHaveDigits(b)
    ensures SumValues(a) == SumValues(b)
    decreases |a|
  {
    AllHaveDigitsOfPermutation(a, b);
    if |a| > 0 {
      assert a[0] in multiset(b);
      var k :| 0 <= k < |b| && b[k] == a[0];
      SumValuesRemove(b, k);
      MultisetRemoveMatching(a, b, k);
      SumValuesPermutation(a[1..], b[..k] + b[k + 1..]);
    } else {
      assert |b| == |multiset(b)| == 0;
    }
  }

  // ---------------------------------------------------------------------
  // Worked examples
  // ---------------------------------------------------------------------

  lemma ExampleSeven()
    ensures Part1Step(0, "7") == Ok(77)
  {
    SingleDigit("7", 0);
  }
}
