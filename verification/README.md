# Advent of Code 2023, days 1 and 2, in Dafny

A model of the string and arithmetic core of two puzzle scripts. It leaves out the file loading and printing.

**Day 1, calibration.**
- Part 1 takes the digit characters of a line. It forms a two-digit value from the first and the last of them and adds that value to a running total. A line with no digit is an error.
- Part 2 first rewrites the nine number words with `str.replace`, in the order of the `num_dict` table (nine, eight, …, one). Each word becomes its first letter, its digit and its last letter ("eight" → "e8t"). The rewritten line then goes through Part 1.
- The model proves that this rewriting leaves exactly the digits a left-to-right reader finds. At every position that reader takes a digit character, or the digit of a number word starting there. The proof is in `word_scan.dfy`.

**Day 2, cube game.**
- A game row is split at `:` into a label and a results text.
- The id is the number formed by all digits of the label.
- The results text becomes a list of entries: `;` is replaced by `,`, then the text is split at `", "`.
- For each of red, green and blue, the colour's maximum is the largest number among the entries whose text contains the colour name.
- Part 1 filters the games by the limits (12 red, 13 green, 14 blue) and sums the ids that remain.
- Part 2 sums `red_max * green_max * blue_max` over all games.

Files:
- `results.dfy`: the error kinds, and the `Result` type that takes the place of raised exceptions.
- `text.dfy`: the Python string primitives both scripts use, each on literal (non-regex) arguments:
  - the digit filter;
  - `int` on a digit string;
  - `str.find` and `in`;
  - `str.replace`, `str.split` and `str.join`.
- `calibration.dfy`: Day 1, meaning both parts, the word table and the document-wide sums.
- `word_scan.dfy`: the reference left-to-right reading of Day 1 Part 2, and the theorem that the replace-based rewriting agrees with it.
- `cube_game.dfy`: Day 2, meaning number extraction, entry splitting, colour maxima, cleaning, and both parts (module `CubeGame`), and the first game of the puzzle text worked through the model (module `CubeGameExample`).

Behaviours of the code that the model keeps exactly:
- **Missing colour.** A colour that appears in no entry of a game makes `max` fail on an empty list (Day 2, lines 73-74). There is no default of 0: cleaning stops with an error.
- **Number words.** Day 1 Part 2 rewrites the whole line with one `str.replace` per table word, in table order (lines 70-72). `WordScan.NormalizeIsScan` shows that the rewritten line still holds exactly the digits a left-to-right reader finds, overlapping words such as "eightwo" included.
- **Entries without a count.** An entry that does not mention a colour is ignored for that colour. An entry that does mention it but holds no digit is an error (`int("")`).

## Model

| member | source | states |
|---|---|---|
| Text.DigitChars | Advent_of_Code_2023_Day_1_Solutions.py:35 | The digit filter keeps only digits, is no longer than the line, and is empty exactly when the line holds no digit. |
| Text.DigitCharsAppend | Advent_of_Code_2023_Day_1_Solutions.py:35 | Filtering a concatenation is the concatenation of the filtered parts. |
| Text.DigitCharsAt | Advent_of_Code_2023_Day_1_Solutions.py:35 | The digit filter of a line is the filter before a position, then the character there if it is a digit, then the filter after it. |
| Text.DecimalValueOfTwo | Advent_of_Code_2023_Day_1_Solutions.py:38 | `int` of a two-digit string is ten times the first digit plus the second. |
| Text.DecimalValueOfShow | Advent_of_Code_2023_Day_2_Solutions.py:31 | Parsing the decimal spelling of a number gives the number back. |
| Text.Find | Advent_of_Code_2023_Day_2_Solutions.py:74 | `str.find` returns an index where the word occurs with no earlier occurrence, or -1 when it occurs nowhere. |
| Text.ContainsIffOccurs | Advent_of_Code_2023_Day_1_Solutions.py:71 | `w in s` holds exactly when `w` starts at some index of `s`. |
| Text.NotContainsWithoutFirstChar | Advent_of_Code_2023_Day_1_Solutions.py:71 | A word whose first letter is absent from the line is not in it. |
| Text.NotContainsWithoutChar | Advent_of_Code_2023_Day_2_Solutions.py:74 | A word with some character missing from the text is not in it. |
| Text.ContainsAt | Advent_of_Code_2023_Day_2_Solutions.py:74 | A word that starts at some index of the text is in it. |
| Text.ReplaceAbsent | Advent_of_Code_2023_Day_1_Solutions.py:71-72 | Replacing a word that does not occur leaves the line unchanged. |
| Text.ReplaceAtFirst | Advent_of_Code_2023_Day_1_Solutions.py:72 | `str.replace` keeps everything before the first occurrence, writes the replacement there, and continues after the occurrence. |
| Text.ReplaceBySelf | Advent_of_Code_2023_Day_1_Solutions.py:72 | Replacing a word by itself changes nothing. |
| Text.ReplaceIsJoinOfSplit | Advent_of_Code_2023_Day_1_Solutions.py:72 | `s.replace(w, r)` equals `r.join(s.split(w))`. |
| Text.SplitJoinRoundTrip | Advent_of_Code_2023_Day_2_Solutions.py:69 | Joining the parts of a split with the same separator gives the text back. |
| Text.ReplaceCharAppend | Advent_of_Code_2023_Day_2_Solutions.py:69 | Replacing a single character distributes over concatenation. |
| Text.SplitAround | Advent_of_Code_2023_Day_2_Solutions.py:69 | Assume a two-character separator with distinct characters, placed between two texts. Then the split breaks exactly there. |
| Text.SplitAbsent | Advent_of_Code_2023_Day_2_Solutions.py:69 | A text without the separator splits into itself alone. |
| Text.SplitFirstPart | Advent_of_Code_2023_Day_2_Solutions.py:69 | The first part of a split is a prefix of the text in which the separator does not occur. |
| Text.SplitPartsFree | Advent_of_Code_2023_Day_2_Solutions.py:69 | No part of a split contains the separator. |
| Calibration.FirstDigitIndex | Advent_of_Code_2023_Day_1_Solutions.py:35-38 | Index of a digit with no digit before it. |
| Calibration.LastDigitIndex | Advent_of_Code_2023_Day_1_Solutions.py:35-38 | Index of a digit with no digit after it. |
| Calibration.DigitCharsFirst | Advent_of_Code_2023_Day_1_Solutions.py:35-38 | Element 0 of the digit list is the character at the first digit index. |
| Calibration.DigitCharsLast | Advent_of_Code_2023_Day_1_Solutions.py:35-38 | Element -1 of the digit list is the character at the last digit index. |
| Calibration.DigitCharsEnds | Advent_of_Code_2023_Day_1_Solutions.py:35-38 | Element 0 of the digit list is the line's first digit. Element -1 is its last digit. |
| Calibration.CalibrationValue | Advent_of_Code_2023_Day_1_Solutions.py:38 | The value is 10 × first digit + last digit, and at most 99. |
| Calibration.CalibrationOfDigits | Advent_of_Code_2023_Day_1_Solutions.py:35-38 | The value is 10 × element 0 of the digit list plus element -1, as `int(extracted_numbers[0] + extracted_numbers[-1])` reads them. |
| Calibration.SingleDigit | Advent_of_Code_2023_Day_1_Solutions.py:38 | A line with exactly one digit `d` yields `11·d`. |
| Calibration.Part1Step | Advent_of_Code_2023_Day_1_Solutions.py:35-43 | Succeeds exactly when the line has a digit. It returns the previous total plus 10 × first + last, so never less than the total and at most 99 more. A line without a digit gives the no-digit error. |
| Calibration.ExampleSeven | Advent_of_Code_2023_Day_1_Solutions.py:35-43 | A line holding only "7" adds 77. |
| Calibration.NumWordsShape | Advent_of_Code_2023_Day_1_Solutions.py:107-116 | The table has nine entries. Each replacement is the word's first letter, a digit, and its last letter. Entry `k` carries digit `9 - k`. |
| Calibration.ReplaceWordIsReplace | Advent_of_Code_2023_Day_1_Solutions.py:71-72 | The `in` guard before `str.replace` changes nothing: the guarded step equals an unguarded replace. |
| Calibration.ReplaceKeepsDigits | Advent_of_Code_2023_Day_1_Solutions.py:72 | Replacing a digit-free word keeps every digit already in the line, in order. |
| Calibration.ReplaceWordsKeepsDigits | Advent_of_Code_2023_Day_1_Solutions.py:70-72 | The whole replacement loop keeps every original digit, in order. |
| Calibration.NormalizeKeepsDigits | Advent_of_Code_2023_Day_1_Solutions.py:70-72 | Part 2's rewriting keeps the original digits in order. A line with a digit keeps having one. |
| Calibration.ReplaceWordsAbsent | Advent_of_Code_2023_Day_1_Solutions.py:70-72 | A line containing none of the table's words comes out of the loop unchanged. |
| Calibration.NoWordsSameAsPart1 | Advent_of_Code_2023_Day_1_Solutions.py:70-75 | With none of the nine words in the line, Part 2 gives exactly Part 1's result. |
| Calibration.AllDigitsUnchanged | Advent_of_Code_2023_Day_1_Solutions.py:70-72 | A line made only of digits is not rewritten. |
| Calibration.Part1Accumulates | Advent_of_Code_2023_Day_1_Solutions.py:92-95 | The Part 1 loop succeeds exactly when every line has a digit, and then adds the sum of the calibration values. Otherwise it stops at the first line without a digit. |
| Calibration.Part1TotalIsSum | Advent_of_Code_2023_Day_1_Solutions.py:92-95 | Part 1 of a document is the sum of its calibration values. |
| Calibration.Part2AccumulatesNormalized | Advent_of_Code_2023_Day_1_Solutions.py:117-119 | Part 2 of a document is Part 1 of the rewritten document, with the same total or the same first error. |
| Calibration.Part2TotalIsSum | Advent_of_Code_2023_Day_1_Solutions.py:117-119 | Part 2 succeeds exactly when every rewritten line has a digit, and then sums their calibration values. |
| Calibration.SumValuesAppend | Advent_of_Code_2023_Day_1_Solutions.py:92-95 | The document sum splits over concatenation. |
| Calibration.SumValuesRemove | Advent_of_Code_2023_Day_1_Solutions.py:92-95 | Taking one line out of a document lowers the sum by exactly that line's calibration value. |
| Calibration.SumValuesPermutation | Advent_of_Code_2023_Day_1_Solutions.py:92-95 | Reordering the lines does not change the sum. |
| WordScan.ScanDigits | Advent_of_Code_2023_Day_1_Solutions.py:107-116 | The left-to-right reading yields only digits, at most one per character of the line. |
| WordScan.EmitAtWord | Advent_of_Code_2023_Day_1_Solutions.py:107-116 | At an occurrence of a table word, that word is the only one starting there. The scan reads its digit. |
| WordScan.ScanOriginalAtWord | Advent_of_Code_2023_Day_1_Solutions.py:107-116 | Where a table word starts, the scan reads its digit and continues at the word's last letter. |
| WordScan.ScanRewrittenAtWord | Advent_of_Code_2023_Day_1_Solutions.py:72 | Where the replaced word starts, the rewritten line reads the word's digit and continues with the rewriting from the word's last letter. |
| WordScan.ScanOffWord | Advent_of_Code_2023_Day_1_Solutions.py:72 | Where the replaced word does not start, the rewritten line reads what the original reads at the front and continues with the rewriting of the rest. |
| WordScan.ReplaceShift | Advent_of_Code_2023_Day_1_Solutions.py:107-116 | At an occurrence, the replacement puts the word's first letter and digit first. It keeps the word's last letter, so later words may start from that letter. |
| WordScan.NewStart | Advent_of_Code_2023_Day_1_Solutions.py:72 | A replacement never makes a digit-free word start at the front where it did not start before. |
| WordScan.ReplaceKeepsPrefix | Advent_of_Code_2023_Day_1_Solutions.py:72 | `str.replace` leaves the line unchanged up to and including the first letter of the first occurrence. |
| WordScan.StartKept | Advent_of_Code_2023_Day_1_Solutions.py:107-116 | A table word at the front survives the replacement of another word that does not start there. |
| WordScan.ScanPreserved | Advent_of_Code_2023_Day_1_Solutions.py:72 | One `str.replace` pass of a table word leaves the scanned digits unchanged. |
| WordScan.ScanOfReplaceWords | Advent_of_Code_2023_Day_1_Solutions.py:70-72 | The whole replacement loop leaves the scanned digits unchanged. |
| WordScan.AbsentAfterReplace | Advent_of_Code_2023_Day_1_Solutions.py:72 | After a pass, the replaced word occurs nowhere, and a word that was absent stays absent. |
| WordScan.ReplaceWordsClears | Advent_of_Code_2023_Day_1_Solutions.py:70-72 | After the loop, no table word occurs in the line. |
| WordScan.ScanOfWordFree | Advent_of_Code_2023_Day_1_Solutions.py:35 | On a line without table words, the scan reads exactly the digit characters. |
| WordScan.WellFormedOfHeads | Advent_of_Code_2023_Day_1_Solutions.py:107-116 | A table whose words have distinct first-two-letter heads, none of which occurs inside a word, is well formed. |
| WordScan.NumHeadsDistinct | Advent_of_Code_2023_Day_1_Solutions.py:107-116 | The first two letters of the nine words are pairwise distinct. |
| WordScan.NumWordsHeads | Advent_of_Code_2023_Day_1_Solutions.py:107-116 | Each of the nine words has at least two letters, and its first two letters are the listed head. |
| WordScan.NumWordsInteriorsClear | Advent_of_Code_2023_Day_1_Solutions.py:107-116 | No head of the nine words occurs strictly inside any of them. |
| WordScan.NumWordsWellFormed | Advent_of_Code_2023_Day_1_Solutions.py:107-116 | No two of the nine words share their first two letters. No word's first two letters occur strictly inside a word. |
| WordScan.ReplaceWordsIsScan | Advent_of_Code_2023_Day_1_Solutions.py:70-72 | For any table of that shape, the digits left after the loop are the scan's digits. |
| WordScan.NormalizeIsScan | Advent_of_Code_2023_Day_1_Solutions.py:70-75 | Part 2's rewriting leaves exactly the digits and number words a left-to-right scan reads, overlaps included. |
| WordScan.Part2IsScan | Advent_of_Code_2023_Day_1_Solutions.py:70-75 | Part 2 succeeds exactly when the scan reads something. It adds 10 × the first item read plus the last. |
| WordScan.ScanSkip | Advent_of_Code_2023_Day_1_Solutions.py:107-116 | A stretch holding no digit and no first two letters of a number word adds nothing to the scan. |
| WordScan.ExampleEightwo | Advent_of_Code_2023_Day_1_Solutions.py:107-116 | "eightwo" adds 82: the overlapping words both count. |
| WordScan.ScanEightwo | Advent_of_Code_2023_Day_1_Solutions.py:107-116 | Over any well-formed table with the nine words' heads and the entries for eight and two, "eightwo" reads "82". |
| WordScan.ExampleTwoOneNine | Advent_of_Code_2023_Day_1_Solutions.py:107-116 | "two1nine" adds 29. |
| WordScan.ScanTwoOneNine | Advent_of_Code_2023_Day_1_Solutions.py:107-116 | Over any such table with the entries for two and nine, "two1nine" reads "219". |
| CubeGame.ExtractNumber | Advent_of_Code_2023_Day_2_Solutions.py:31 | Succeeds exactly when the text has a digit; otherwise it is the no-digit error. |
| CubeGame.ExtractShown | Advent_of_Code_2023_Day_2_Solutions.py:31 | A number written between two digit-free texts is read back. |
| CubeGame.ExtractBetween | Advent_of_Code_2023_Day_2_Solutions.py:31 | A digit string between two digit-free texts is read as its decimal value. |
| CubeGame.ExtractJoinsDigits | Advent_of_Code_2023_Day_2_Solutions.py:31 | Digits anywhere in the text are concatenated: "1 2" reads as 12. |
| CubeGame.ExtractCount | Advent_of_Code_2023_Day_2_Solutions.py:31 | " 14 blue" reads as 14. |
| CubeGame.ExtractId | Advent_of_Code_2023_Day_2_Solutions.py:31 | "Game 7" reads as 7. |
| CubeGame.ExtractNoDigit | Advent_of_Code_2023_Day_2_Solutions.py:31 | " blue" is the no-digit error. |
| CubeGame.DrawBoundaries | Advent_of_Code_2023_Day_2_Solutions.py:69 | `;` and `,` split alike. The entries of a whole game are the entries of its draws, in order. |
| CubeGame.EntriesSingle | Advent_of_Code_2023_Day_2_Solutions.py:69 | A piece holding neither `;` nor `,` is a single entry. |
| CubeGame.EntriesHoldNoSeparator | Advent_of_Code_2023_Day_2_Solutions.py:69 | No entry holds the separator ", ". |
| CubeGame.ColorMaxAcrossDraws | Advent_of_Code_2023_Day_2_Solutions.py:69-75 | A colour's maximum does not depend on where the draw boundaries lie. |
| CubeGame.CountsOk | Advent_of_Code_2023_Day_2_Solutions.py:74 | The count list of a game exists exactly when every entry mentioning the colour holds a digit. An error names a mentioning entry without a digit. |
| CubeGame.CountsComplete | Advent_of_Code_2023_Day_2_Solutions.py:74 | Every entry mentioning the colour has its count in the list. |
| CubeGame.CountsSound | Advent_of_Code_2023_Day_2_Solutions.py:74 | Every number in the list is the count of some entry mentioning the colour. |
| CubeGame.CountsEmpty | Advent_of_Code_2023_Day_2_Solutions.py:74 | The list is empty exactly when no entry mentions the colour. |
| CubeGame.ReadEntry | Advent_of_Code_2023_Day_2_Solutions.py:72-75 | An entry "n colour" reads as n, and it mentions its own colour and no other. |
| CubeGame.CountsOfRead | Advent_of_Code_2023_Day_2_Solutions.py:74 | When every entry reads as a known number and mentions exactly a known colour, a colour's count list is the numbers paired with that colour, in order. |
| CubeGame.ReadShownList | Advent_of_Code_2023_Day_2_Solutions.py:72-75 | A list of entries written "n colour" has, for each colour, the count list of the numbers written with it. |
| CubeGame.MaxOf | Advent_of_Code_2023_Day_2_Solutions.py:73 | The maximum is an element of the list and bounds every element. |
| CubeGame.ColorMaxSpec | Advent_of_Code_2023_Day_2_Solutions.py:72-75 | The maximum exists exactly when some entry mentions the colour and all such entries hold a digit. It is ≥ every such entry's count and equals one of them. With readable entries, the only error is that no entry mentions the colour. |
| CubeGame.MaxWithinIffAll | Advent_of_Code_2023_Day_2_Solutions.py:72-75 | A colour's maximum is within a limit exactly when every entry mentioning the colour is. |
| CubeGame.Column | Advent_of_Code_2023_Day_2_Solutions.py:66-75 | A column built entry by entry succeeds exactly when every entry does, and then holds their values. An error is the first failing entry's. |
| CubeGame.IdColumn | Advent_of_Code_2023_Day_2_Solutions.py:66-67 | The id column succeeds exactly when every label has a digit, and holds each label's number. |
| CubeGame.MaxColumn | Advent_of_Code_2023_Day_2_Solutions.py:72-75 | A colour's column succeeds exactly when every game has that colour's maximum, and holds those maxima. |
| CubeGame.CleanDataSpec | Advent_of_Code_2023_Day_2_Solutions.py:64-76 | Cleaning succeeds exactly when every row has a numbered label and all three colour maxima. Record `i` then holds row `i`'s id, entries and maxima. |
| CubeGame.FilterColor | Advent_of_Code_2023_Day_2_Solutions.py:107-108 | One filter keeps exactly the games whose maximum of the colour is within the limit, never more than it was given. |
| CubeGame.FilterCommute | Advent_of_Code_2023_Day_2_Solutions.py:106-108 | Any two colour filters give the same games in either order. |
| CubeGame.PossibleGamesIsKeepPossible | Advent_of_Code_2023_Day_2_Solutions.py:105-108 | The red, green and blue filters together equal one pass keeping the possible games, in order. |
| CubeGame.PossibleGamesMembers | Advent_of_Code_2023_Day_2_Solutions.py:105-108 | A game is kept exactly when all three maxima are within their limits. |
| CubeGame.KeepPossibleBound | Advent_of_Code_2023_Day_2_Solutions.py:105-111 | Keeping only the possible games never raises the sum of ids. |
| CubeGame.PossibleSumBound | Advent_of_Code_2023_Day_2_Solutions.py:105-111 | The Part 1 sum never exceeds the sum of all ids. |
| CubeGame.KeepPossibleMonotone | Advent_of_Code_2023_Day_2_Solutions.py:105-111 | With limits no tighter, the kept games' id sum is no smaller. |
| CubeGame.PossibleSumMonotone | Advent_of_Code_2023_Day_2_Solutions.py:105-111 | Raising limits never lowers the Part 1 sum. |
| CubeGame.PowerSumAppend | Advent_of_Code_2023_Day_2_Solutions.py:141 | The sum of powers splits over concatenation. |
| CubeGame.SumPower | Advent_of_Code_2023_Day_2_Solutions.py:138-141 | The column of powers, summed front to back, equals the sum of `red_max*green_max*blue_max` over all games. |
| CubeGameExample.EntriesFront | Advent_of_Code_2023_Day_2_Solutions.py:69 | An entry without separators in front of a text, after "; " or ", ", is split off as the first entry, followed by the text's own entries. |
| CubeGameExample.EntriesOfThreeDraws | Advent_of_Code_2023_Day_2_Solutions.py:69 | Six entries without separators, written as draws of two, three and one entries, split back into exactly those six entries. |
| CubeGameExample.GameOneEntries | Advent_of_Code_2023_Day_2_Solutions.py:69 | The first game's text " 3 blue, 4 red; 1 red, 2 green, 6 blue; 2 green" has those six entries, in order. |
| CubeGameExample.GameOneCounts | Advent_of_Code_2023_Day_2_Solutions.py:72-75 | In the first game, each colour's count list is the counts written with that colour, in order. |
| CubeGameExample.GameOneRed | Advent_of_Code_2023_Day_2_Solutions.py:72-75 | The first game's red maximum is 4. |
| CubeGameExample.GameOneGreen | Advent_of_Code_2023_Day_2_Solutions.py:72-75 | The first game's green maximum is 2. |
| CubeGameExample.GameOneBlue | Advent_of_Code_2023_Day_2_Solutions.py:72-75 | The first game's blue maximum is 6. |
| CubeGameExample.ExtractGameOne | Advent_of_Code_2023_Day_2_Solutions.py:31 | "Game 1" reads as 1. |
| CubeGameExample.CleanSingle | Advent_of_Code_2023_Day_2_Solutions.py:64-76 | A single row whose label and three maxima read cleanly is cleaned to the record of that id, entries and maxima. |
| CubeGameExample.ExampleGameOne | Advent_of_Code_2023_Day_2_Solutions.py:64-76 | The row ("Game 1", " 3 blue, 4 red; 1 red, 2 green, 6 blue; 2 green") cleans to the record with id 1 and maxima 4 red, 2 green, 6 blue. |
| CubeGameExample.GameOneScore | Advent_of_Code_2023_Day_2_Solutions.py:105-141 | That record has power 48, is possible within 12 red, 13 green and 14 blue, and a document of that game alone has Part 1 sum 1. |

## Left out

- File loading (`pd.read_csv`), the `USERNAME`-based input path, and `print`. These are I/O. Day 1 input is a sequence of lines. Day 2 input is a sequence of rows already split at `:` into label and results.
- The Day 1 document is loaded with `pd.read_csv(..., header=None)`. The model's lines are the column-0 values that load yields. Blank lines are already dropped (pandas skips them), and no line holds a comma or a text pandas reads as missing ("NA", "null"). A load that fails, for example a later line with more commas than the first, is not modelled.
- pandas DataFrame mechanics (`rename`, column assignment, boolean indexing). These become a sequence of `GameRecord`s, column functions, and sequence filters.
- Unicode-wide `str.isdigit`. Digits are ASCII '0'..'9' only.
- pandas stores ids, maxima and powers as 64-bit integers that could wrap around. Python's `int` is unbounded. The model uses unbounded integers throughout.
- `str.replace` and `str.split` with an empty pattern. Neither script uses them, so `ReplaceAll` and `Split` require a non-empty pattern.
- The constraint dictionary is fixed to red, green and blue in that order, as in `main`. Other colour sets are not modelled.
- The text of the printed results.
