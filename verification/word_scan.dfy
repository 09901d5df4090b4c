/** What Part 2 of Day 1 computes, stated without `str.replace`.

    The puzzle asks for the first and last "digit" of a line, where a digit
    is either a digit character or a spelled-out number starting at that
    position, and spelled-out numbers may share letters ("eightwo" holds
    both 8 and 2). `ScanDigits` reads a line that way, left to right,
    looking at every position. The main theorem, `NormalizeIsScan`, shows
    that the replace-based rewriting of `Calibration.Normalize` leaves
    exactly the digits this scan finds; so Part 2's value is the scan's
    first and last digit (`Part2IsScan`).

    The proof holds for any word table of the shape `WellFormed` describes,
    and `NumWordsWellFormed` shows the nine-word table has that shape. */
module WordScan {
  import opened Text
  import opened Results
  import opened Calibration

  // ---------------------------------------------------------------------
  // Tables the rewriting trick works for
  // ---------------------------------------------------------------------

  /** The first two letters of `w` stand at index `i` of `x`. */
  predicate HeadAt(x: string, i: nat, w: string) {
    i + 1 < |x| && 2 <= |w| && x[i] == w[0] && x[i + 1] == w[1]
  }

  /** Every entry has the shape of `GoodEntry`; no two words begin with the
      same two letters; and no word's first two letters appear strictly
      inside a word (away from its first and last letter). The last two
      conditions mean two occurrences of words can overlap in at most one
      letter, which the replacement keeps. */
  predicate WellFormed(table: seq<NumWord>) {
    && GoodEntries(table)
    && (forall k, l :: 0 <= k < |table| && 0 <= l < |table| && k != l ==>
          !HeadAt(table[k].word, 0, table[l].word))
    && (forall k, l, i :: 0 <= k < |table| && 0 <= l < |table| && 1 <= i <= |table[k].word| - 2 ==>
          !HeadAt(table[k].word, i, table[l].word))
  }

  // ---------------------------------------------------------------------
  // The reference scan
  // ---------------------------------------------------------------------

  /** The digit of the first table word that starts `t`, if any. */
  function WordDigit(t: string, table: seq<NumWord>): (r: string)
    requires GoodEntries(table)
    ensures |r| <= 1 && AllDigits(r)
    decreases |table|
  {
    if |table| == 0 then []
    else if StartsWith(t, table[0].word) then [table[0].replacement[1]]
    else WordDigit(t, table[1..])
  }

  /** What the reader takes from the front of `t`: a digit character, or
      the digit of a spelled-out number starting there, or nothing. */
  function Emit(t: string, table: seq<NumWord>): (r: string)
    requires GoodEntries(table)
    ensures |r| <= 1 && AllDigits(r)
  {
    if |t| == 0 then []
    else if IsDigit(t[0]) then [t[0]]
    else WordDigit(t, table)
  }

  /** The digits read at every position of `t`, left to right. */
  function ScanDigits(t: string, table: seq<NumWord>): (r: string)
    requires GoodEntries(table)
    ensures AllDigits(r)
    ensures |r| <= |t|
    decreases |t|
  {
    if |t| == 0 then [] else Emit(t, table) + ScanDigits(t[1..], table)
  }

  // ---------------------------------------------------------------------
  // Facts about one position
  // ---------------------------------------------------------------------

  lemma {:induction false} WordDigitNone(t: string, table: seq<NumWord>)
    requires GoodEntries(table)
    requires forall l :: 0 <= l < |table| ==> !StartsWith(t, table[l].word)
    ensures WordDigit(t, table) == []
    decreases |table|
  {
    if |table| > 0 {
      assert !StartsWith(t, table[0].word);
      WordDigitNone(t, table[1..]);
    }
  }

  lemma {:induction false} WordDigitAt(t: string, table: seq<NumWord>, k: nat)
    requires GoodEntries(table) && k < |table|
    requires StartsWith(t, table[k].word)
    requires forall l :: 0 <= l < k ==> !StartsWith(t, table[l].word)
    ensures WordDigit(t, table) == [table[k].replacement[1]]
    decreases k
  {
    if k > 0 {
      assert !StartsWith(t, table[0].word);
      WordDigitAt(t, table[1..], k - 1);
    }
  }

  lemma {:induction false} WordDigitSame(t: string, u: string, table: seq<NumWord>)
    requires GoodEntries(table)
    requires forall l :: 0 <= l < |table| ==> (StartsWith(t, table[l].word) <==> StartsWith(u, table[l].word))
    ensures WordDigit(t, table) == WordDigit(u, table)
    decreases |table|
  {
    if |table| > 0 {
      assert StartsWith(t, table[0].word) <==> StartsWith(u, table[0].word);
      WordDigitSame(t, u, table[1..]);
    }
  }

  /** `hs` lists the first two letters of every word of the table, in
      table order. */
  predicate HeadsOf(table: seq<NumWord>, hs: seq<(char, char)>) {
    && |hs| == |table|
    && forall l :: 0 <= l < |table| ==> 2 <= |table[l].word| && hs[l] == (table[l].word[0], table[l].word[1])
  }

  /** No word starts at `t` when `t` is shorter than two letters or its
      first two letters begin no word. */
  lemma WordDigitOffHead(t: string, table: seq<NumWord>, hs: seq<(char, char)>)
    requires GoodEntries(table) && HeadsOf(table, hs)
    requires |t| < 2 || (t[0], t[1]) !in hs
    ensures WordDigit(t, table) == []
  {
    forall l | 0 <= l < |table|
      ensures !StartsWith(t, table[l].word)
    {
      var w := table[l].word;
      if |w| <= |t| {
        assert t[..|w|][0] == t[0] && t[..|w|][1] == t[1];
      }
    }
    WordDigitNone(t, table);
  }

  /** A word starting at `t` is the only table word starting there, so the
      scan reads its digit. */
  lemma EmitAtWord(t: string, table: seq<NumWord>, a: nat)
    requires WellFormed(table) && a < |table|
    requires StartsWith(t, table[a].word)
    ensures Emit(t, table) == [table[a].replacement[1]]
  {
    var A := table[a].word;
    forall l | 0 <= l < |table|
      ensures StartsWith(t, table[l].word) ==> l == a
    {
      var B := table[l].word;
      assert StartsWith(t, B) ==> HeadAt(A, 0, B);
    }
    assert !IsDigit(A[0]);
    WordDigitAt(t, table, a);
  }

  /** Strictly inside an occurrence of a word the scan reads nothing. */
  lemma EmitInsideWord(t: string, table: seq<NumWord>, a: nat, i: nat)
    requires WellFormed(table) && a < |table|
    requires StartsWith(t, table[a].word)
    requires 1 <= i <= |table[a].word| - 2
    ensures Emit(t[i..], table) == []
  {
    var A := table[a].word;
    var x := t[i..];
    assert x[0] == A[i] && x[1] == A[i + 1];
    forall l | 0 <= l < |table|
      ensures !StartsWith(x, table[l].word)
    {
      var B := table[l].word;
      assert StartsWith(x, B) ==> HeadAt(A, i, B);
    }
    assert !IsDigit(A[i]);
    WordDigitNone(x, table);
  }

  /** Reading across the inside of a word contributes nothing. */
  lemma {:induction false} ScanSkipsInside(t: string, table: seq<NumWord>, a: nat, m: nat)
    requires WellFormed(table) && a < |table|
    requires StartsWith(t, table[a].word)
    requires 1 <= m <= |table[a].word| - 1
    ensures ScanDigits(t[1..], table) == ScanDigits(t[m..], table)
    decreases m
  {
    if m > 1 {
      ScanSkipsInside(t, table, a, m - 1);
      EmitInsideWord(t, table, a, m - 1);
      assert t[m - 1..][1..] == t[m..];
    }
  }

  // ---------------------------------------------------------------------
  // How one `str.replace` pass changes the front of a line
  // ---------------------------------------------------------------------

  /** At an occurrence, the replacement's first letter and digit come
      first, and its last letter is the occurrence's last letter, after
      which replacing continues as it would from that letter. */
  lemma ReplaceShift(t: string, e: NumWord)
    requires GoodEntry(e) && StartsWith(t, e.word)
    ensures ReplaceAll(t, e.word, e.replacement)
         == [e.word[0], e.replacement[1]] + ReplaceAll(t[|e.word| - 1..], e.word, e.replacement)
  {
    var A, r := e.word, e.replacement;
    var u := t[|A| - 1..];
    assert u[0] == A[|A| - 1];
    assert u[1..] == t[|A|..];
    assert ReplaceAll(u, A, r) == [u[0]] + ReplaceAll(t[|A|..], A, r);
    assert r == [A[0], r[1]] + [u[0]];
  }

  /** Splicing `r` in at index `j` keeps the first `n` characters when
      `r` starts with the character it displaces and `n` reaches at most
      one past `j`. */
  lemma PrefixBeforeSplice(t: string, j: nat, r: string, y: string, n: nat)
    requires j < |t| && n <= j + 1 && 0 < |r| && r[0] == t[j]
    ensures n <= |t[..j] + r + y| && (t[..j] + r + y)[..n] == t[..n]
  {
    var x := t[..j] + r + y;
    forall i | 0 <= i < n
      ensures x[i] == t[i]
    {
      if i < j {
        assert x[i] == t[..j][i];
      } else {
        assert (t[..j] + r)[j] == r[0];
      }
    }
  }

  /** A replacement pass keeps the first `n` characters when no occurrence
      starts before index `n - 1`. */
  lemma ReplaceKeepsPrefix(t: string, e: NumWord, n: nat)
    requires GoodEntry(e) && n <= |t|
    requires Contains(t, e.word) ==> n <= Find(t, e.word) + 1
    ensures n <= |ReplaceAll(t, e.word, e.replacement)|
    ensures ReplaceAll(t, e.word, e.replacement)[..n] == t[..n]
  {
    var A, r := e.word, e.replacement;
    if Contains(t, A) {
      var j := Find(t, A);
      ReplaceAtFirst(t, A, r, j);
      assert t[j..][0] == A[0];
      PrefixBeforeSplice(t, j, r, ReplaceAll(t[j + |A|..], A, r), n);
    } else {
      ReplaceAbsent(t, A, r);
    }
  }

  /** A word without digits that starts a text with `r` spliced in at `j`
      ends before `r`'s digit. */
  lemma DigitBlocksStart(t: string, j: nat, r: string, y: string, B: string)
    requires j <= |t| && |r| >= 2 && IsDigit(r[1]) && !HasDigit(B)
    ensures StartsWith(t[..j] + r + y, B) ==> |B| <= j + 1
  {
    var x := t[..j] + r + y;
    assert x[j + 1] == r[1];
    if j + 1 < |B| <= |x| {
      assert IsDigit(x[..|B|][j + 1]);
    }
  }

  /** A replacement pass never makes a word start where none started:
      the inserted digit cannot be part of a word, and everything before
      it is unchanged. */
  lemma NewStart(t: string, e: NumWord, B: string)
    requires GoodEntry(e)
    requires |B| >= 2 && !HasDigit(B)
    ensures StartsWith(ReplaceAll(t, e.word, e.replacement), B) ==> StartsWith(t, B)
  {
    var A, r := e.word, e.replacement;
    var x := ReplaceAll(t, A, r);
    if Contains(t, A) {
      var j := Find(t, A);
      ReplaceAtFirst(t, A, r, j);
      DigitBlocksStart(t, j, r, ReplaceAll(t[j + |A|..], A, r), B);
      if StartsWith(x, B) {
        ReplaceKeepsPrefix(t, e, |B|);
      }
    } else {
      ReplaceAbsent(t, A, r);
    }
  }

  /** A word starting at `t` still starts there after replacing another
      table word that does not start at `t`. */
  lemma StartKept(t: string, table: seq<NumWord>, a: nat, l: nat)
    requires WellFormed(table) && a < |table| && l < |table|
    requires !StartsWith(t, table[a].word)
    ensures StartsWith(t, table[l].word) ==>
              StartsWith(ReplaceAll(t, table[a].word, table[a].replacement), table[l].word)
  {
    var A, B := table[a].word, table[l].word;
    if Contains(t, A) && StartsWith(t, B) {
      var j := Find(t, A);
      assert t[0..] == t;
      assert t[j..][0] == A[0] && t[j..][1] == A[1];
      assert j <= |B| - 2 ==> HeadAt(B, j, A);
      ReplaceKeepsPrefix(t, table[a], |B|);
    } else if StartsWith(t, B) {
      ReplaceKeepsPrefix(t, table[a], |B|);
    }
  }

  // ---------------------------------------------------------------------
  // One pass preserves the scan
  // ---------------------------------------------------------------------

  lemma TwoCons<T>(a: T, b: T, u: seq<T>)
    ensures ([a, b] + u)[0] == a && ([a, b] + u)[1] == b
    ensures ([a, b] + u)[1..] == [b] + u && ([b] + u)[1..] == u
  {
  }

  /** At an occurrence of a table word, the rewriting reads the word's
      digit and then continues from the word's last letter. */
  lemma ScanRewrittenAtWord(t: string, table: seq<NumWord>, a: nat)
    requires WellFormed(table) && a < |table|
    requires StartsWith(t, table[a].word)
    ensures var A, r := table[a].word, table[a].replacement;
      ScanDigits(ReplaceAll(t, A, r), table) == [r[1]] + ScanDigits(ReplaceAll(t[|A| - 1..], A, r), table)
  {
    var A, r := table[a].word, table[a].replacement;
    var x := ReplaceAll(t, A, r);
    var ru := ReplaceAll(t[|A| - 1..], A, r);
    ReplaceShift(t, table[a]);
    TwoCons(A[0], r[1], ru);
    forall l | 0 <= l < |table|
      ensures !StartsWith(x, table[l].word)
    {
      var B := table[l].word;
      assert !IsDigit(B[1]);
      if |B| <= |x| {
        assert x[..|B|][1] == x[1];
      }
    }
    WordDigitNone(x, table);
  }

  /** At an occurrence of a table word, the line reads the word's digit
      and then continues from the word's last letter. */
  lemma ScanOriginalAtWord(t: string, table: seq<NumWord>, a: nat)
    requires WellFormed(table) && a < |table|
    requires StartsWith(t, table[a].word)
    ensures ScanDigits(t, table) == [table[a].replacement[1]] + ScanDigits(t[|table[a].word| - 1..], table)
  {
    var n := |table[a].word| - 1;
    EmitAtWord(t, table, a);
    ScanSkipsInside(t, table, a, n);
    assert ScanDigits(t, table) == Emit(t, table) + ScanDigits(t[1..], table);
  }

  /** Where the replaced word does not start, the rewriting reads the same
      at the front and continues with the rewriting of the rest. */
  lemma ScanOffWord(t: string, table: seq<NumWord>, a: nat)
    requires WellFormed(table) && a < |table|
    requires |t| > 0 && !StartsWith(t, table[a].word)
    ensures var A, r := table[a].word, table[a].replacement;
      ScanDigits(ReplaceAll(t, A, r), table) == Emit(t, table) + ScanDigits(ReplaceAll(t[1..], A, r), table)
  {
    var A, r := table[a].word, table[a].replacement;
    var x := ReplaceAll(t, A, r);
    assert x == [t[0]] + ReplaceAll(t[1..], A, r);
    forall l | 0 <= l < |table|
      ensures StartsWith(x, table[l].word) <==> StartsWith(t, table[l].word)
    {
      NewStart(t, table[a], table[l].word);
      StartKept(t, table, a, l);
    }
    WordDigitSame(x, t, table);
    assert x[1..] == ReplaceAll(t[1..], A, r);
  }

  /** Replacing one table word leaves the scanned digits unchanged. */
  lemma {:induction false} ScanPreserved(t: string, table: seq<NumWord>, a: nat)
    requires WellFormed(table) && a < |table|
    ensures ScanDigits(ReplaceAll(t, table[a].word, table[a].replacement), table) == ScanDigits(t, table)
    decreases |t|
  {
    var A := table[a].word;
    if |t| == 0 {
    } else if StartsWith(t, A) {
      ScanPreserved(t[|A| - 1..], table, a);
      ScanRewrittenAtWord(t, table, a);
      ScanOriginalAtWord(t, table, a);
    } else {
      ScanPreserved(t[1..], table, a);
      ScanOffWord(t, table, a);
    }
  }

  /** The whole replacement loop preserves the scan. */
  lemma {:induction false} ScanOfReplaceWords(t: string, table: seq<NumWord>, m: nat)
    requires WellFormed(table) && m <= |table|
    ensures ScanDigits(ReplaceWords(t, table[m..]), table) == ScanDigits(t, table)
    decreases |table| - m
  {
    if m < |table| {
      var y := ReplaceWord(t, table[m]);
      ReplaceWordIsReplace(t, table[m]);
      ScanPreserved(t, table, m);
      assert table[m..][0] == table[m];
      assert table[m..][1..] == table[m + 1..];
      ScanOfReplaceWords(y, table, m + 1);
    }
  }

  // ---------------------------------------------------------------------
  // After the loop no word is left
  // ---------------------------------------------------------------------

  /** `w` starts nowhere in `x`. */
  predicate Absent(x: string, w: string) {
    forall p :: 0 <= p <= |x| ==> !StartsWith(x[p..], w)
  }

  lemma AbsentCons(c: char, y: string, w: string)
    requires !StartsWith([c] + y, w) && Absent(y, w)
    ensures Absent([c] + y, w)
  {
    forall p | 1 <= p <= |y| + 1
      ensures ([c] + y)[p..] == y[p - 1..]
    {
    }
    assert ([c] + y)[0..] == [c] + y;
  }

  lemma AbsentSuffix(x: string, w: string, k: nat)
    requires Absent(x, w) && k <= |x|
    ensures Absent(x[k..], w)
  {
    forall p | 0 <= p <= |x| - k
      ensures x[k..][p..] == x[k + p..]
    {
    }
  }

  /** A word with no digit in its first two letters cannot start at a
      digit or just before one. */
  lemma AbsentBeforeDigit(a: char, d: char, y: string, B: string)
    requires IsDigit(d) && |B| >= 2 && !IsDigit(B[0]) && !IsDigit(B[1])
    requires Absent(y, B)
    ensures Absent([a, d] + y, B)
  {
    var s1 := [d] + y;
    assert !StartsWith(s1, B) by {
      if |B| <= |s1| {
        assert s1[..|B|][0] == d;
      }
    }
    AbsentCons(d, y, B);
    var s0 := [a] + s1;
    assert !StartsWith(s0, B) by {
      if |B| <= |s0| {
        assert s0[..|B|][1] == d;
      }
    }
    AbsentCons(a, s1, B);
    assert [a, d] + y == s0;
  }

  /** After a pass replacing `e.word`, that word is gone, and a word that
      was absent stays absent. */
  lemma {:induction false} AbsentAfterReplace(t: string, e: NumWord, B: string)
    requires GoodEntry(e) && |B| >= 2 && !HasDigit(B)
    requires B == e.word || Absent(t, B)
    ensures Absent(ReplaceAll(t, e.word, e.replacement), B)
    decreases |t|
  {
    var A, r := e.word, e.replacement;
    var x := ReplaceAll(t, A, r);
    assert !IsDigit(B[0]) && !IsDigit(B[1]);
    if |t| == 0 {
      assert x[0..] == [];
    } else if StartsWith(t, A) {
      var u := t[|A| - 1..];
      var ru := ReplaceAll(u, A, r);
      ReplaceShift(t, e);
      if B != A {
        AbsentSuffix(t, B, |A| - 1);
      }
      AbsentAfterReplace(u, e, B);
      AbsentBeforeDigit(A[0], r[1], ru, B);
    } else {
      if B != A {
        AbsentSuffix(t, B, 1);
        assert t[0..] == t;
      }
      AbsentAfterReplace(t[1..], e, B);
      NewStart(t, e, B);
      assert x == [t[0]] + ReplaceAll(t[1..], A, r);
      AbsentCons(t[0], ReplaceAll(t[1..], A, r), B);
    }
  }

  /** After passes for the words from `m` on, over a line where the words
      before `m` are already absent, no table word is left. */
  lemma {:induction false} ReplaceWordsClears(x: string, table: seq<NumWord>, m: nat)
    requires WellFormed(table) && m <= |table|
    requires forall l :: 0 <= l < m ==> Absent(x, table[l].word)
    ensures forall l :: 0 <= l < |table| ==> Absent(ReplaceWords(x, table[m..]), table[l].word)
    decreases |table| - m
  {
    if m < |table| {
      var y := ReplaceWord(x, table[m]);
      ReplaceWordIsReplace(x, table[m]);
      forall l | 0 <= l <= m
        ensures Absent(y, table[l].word)
      {
        AbsentAfterReplace(x, table[m], table[l].word);
      }
      assert table[m..][0] == table[m];
      assert table[m..][1..] == table[m + 1..];
      ReplaceWordsClears(y, table, m + 1);
    } else {
      assert table[m..] == [];
    }
  }

  /** On a line with no table word, the scan reads just the digit
      characters. */
  lemma {:induction false} ScanOfWordFree(x: string, table: seq<NumWord>)
    requires GoodEntries(table)
    requires forall l :: 0 <= l < |table| ==> Absent(x, table[l].word)
    ensures ScanDigits(x, table) == DigitChars(x)
    decreases |x|
  {
    if |x| > 0 {
      assert x[0..] == x;
      WordDigitNone(x, table);
      forall l | 0 <= l < |table|
        ensures Absent(x[1..], table[l].word)
      {
        AbsentSuffix(x, table[l].word, 1);
      }
      ScanOfWordFree(x[1..], table);
    }
  }

  // ---------------------------------------------------------------------
  // The nine-word table
  // ---------------------------------------------------------------------

  /** The first two letters of the nine words, in table order. */
  const NumHeads: seq<(char, char)> :=
    [('n', 'i'), ('e', 'i'), ('s', 'e'), ('s', 'i'), ('f', 'i'), ('f', 'o'), ('t', 'h'), ('t', 'w'), ('o', 'n')]

  lemma NumWordsHeads()
    ensures GoodEntries(NumWords) && HeadsOf(NumWords, NumHeads)
  {
    NumWordsShape();
    forall l | 0 <= l < |NumWords|
      ensures 2 <= |NumWords[l].word| && NumHeads[l] == (NumWords[l].word[0], NumWords[l].word[1])
    {
    }
  }

  /** No index of `x` from `i` up to the one before its last letter
      starts a pair of letters listed in `hs`. */
  predicate InteriorClear(x: string, i: nat, hs: seq<(char, char)>)
    decreases |x| - i
  {
    i + 2 > |x| || ((x[i], x[i + 1]) !in hs && InteriorClear(x, i + 1, hs))
  }

  lemma {:induction false} InteriorClearAll(x: string, i0: nat, hs: seq<(char, char)>)
    requires InteriorClear(x, i0, hs)
    ensures forall i :: i0 <= i <= |x| - 2 ==> (x[i], x[i + 1]) !in hs
    decreases |x| - i0
  {
    if i0 + 2 <= |x| {
      InteriorClearAll(x, i0 + 1, hs);
    }
  }

  lemma ClearNine() ensures InteriorClear("nine", 1, NumHeads) {}
  lemma ClearEight() ensures InteriorClear("eight", 1, NumHeads) {}
  lemma ClearSeven() ensures InteriorClear("seven", 1, NumHeads) {}
  lemma ClearSix() ensures InteriorClear("six", 1, NumHeads) {}
  lemma ClearFive() ensures InteriorClear("five", 1, NumHeads) {}
  lemma ClearFour() ensures InteriorClear("four", 1, NumHeads) {}
  lemma ClearThree() ensures InteriorClear("three", 1, NumHeads) {}
  lemma ClearTwo() ensures InteriorClear("two", 1, NumHeads) {}
  lemma ClearOne() ensures InteriorClear("one", 1, NumHeads) {}

  lemma NumWordsInteriorsClear()
    ensures forall k :: 0 <= k < |NumWords| ==> InteriorClear(NumWords[k].word, 1, NumHeads)
  {
    forall k | 0 <= k < |NumWords|
      ensures InteriorClear(NumWords[k].word, 1, NumHeads)
    {
      if k == 0 { ClearNine(); }
      else if k == 1 { ClearEight(); }
      else if k == 2 { ClearSeven(); }
      else if k == 3 { ClearSix(); }
      else if k == 4 { ClearFive(); }
      else if k == 5 { ClearFour(); }
      else if k == 6 { ClearThree(); }
      else if k == 7 { ClearTwo(); }
      else { ClearOne(); }
    }
  }

  /** Where a pair of letters stands in `NumHeads`, read off its letters. */
  function HeadIndex(a: char, b: char): int {
    if a == 'n' then 0 else if a == 'e' then 1
    else if a == 's' then (if b == 'e' then 2 else 3)
    else if a == 'f' then (if b == 'i' then 4 else 5)
    else if a == 't' then (if b == 'h' then 6 else 7)
    else 8
  }

  /** No two heads of the nine words are equal: `HeadIndex` recovers
      each one's position. */
  lemma NumHeadsDistinct()
    ensures forall k, l :: 0 <= k < l < |NumHeads| ==> NumHeads[k] != NumHeads[l]
  {
    forall k | 0 <= k < |NumHeads|
      ensures HeadIndex(NumHeads[k].0, NumHeads[k].1) == k
    {
    }
  }

  /** A table whose entries have the shape of `GoodEntry`, whose heads
      are distinct and whose words hold no head inside is well formed. */
  lemma WellFormedOfHeads(table: seq<NumWord>, hs: seq<(char, char)>)
    requires GoodEntries(table) && HeadsOf(table, hs)
    requires forall k, l :: 0 <= k < l < |hs| ==> hs[k] != hs[l]
    requires forall k :: 0 <= k < |table| ==> InteriorClear(table[k].word, 1, hs)
    ensures WellFormed(table)
  {
    forall k, l | 0 <= k < |table| && 0 <= l < |table| && k != l
      ensures !HeadAt(table[k].word, 0, table[l].word)
    {
      if k < l {
        assert hs[k] != hs[l];
      } else {
        assert hs[l] != hs[k];
      }
    }
    forall k, l, i | 0 <= k < |table| && 0 <= l < |table| && 1 <= i <= |table[k].word| - 2
      ensures !HeadAt(table[k].word, i, table[l].word)
    {
      InteriorClearAll(table[k].word, 1, hs);
      assert (table[k].word[i], table[k].word[i + 1]) !in hs;
      assert hs[l] == (table[l].word[0], table[l].word[1]);
    }
  }

  /** The nine-word table satisfies the conditions of the main theorem. */
  lemma NumWordsWellFormed()
    ensures WellFormed(NumWords)
  {
    NumWordsHeads();
    NumHeadsDistinct();
    NumWordsInteriorsClear();
    WellFormedOfHeads(NumWords, NumHeads);
  }

  // ---------------------------------------------------------------------
  // Main theorem
  // ---------------------------------------------------------------------

  /** For any well-formed table, the digits left after the replacement
      loop are the digits the scan finds. */
  lemma ReplaceWordsIsScan(line: string, table: seq<NumWord>)
    requires WellFormed(table)
    ensures DigitChars(ReplaceWords(line, table)) == ScanDigits(line, table)
  {
    assert table[0..] == table;
    ScanOfReplaceWords(line, table, 0);
    ReplaceWordsClears(line, table, 0);
    ScanOfWordFree(ReplaceWords(line, table), table);
  }

  /** The scan over the nine-word table. */
  function NumberScan(line: string): (ds: string)
    ensures AllDigits(ds)
  {
    NumWordsShape();
    ScanDigits(line, NumWords)
  }

  /** The digits left after Part 2's rewriting are exactly the digits a
      left-to-right scan for digits and spelled-out numbers finds,
      overlapping words included. */
  lemma NormalizeIsScan(line: string)
    ensures DigitChars(Normalize(line)) == NumberScan(line)
  {
    NumWordsWellFormed();
    ReplaceWordsIsScan(line, NumWords);
  }

  /** Part 2 of a line succeeds exactly when the scan finds a digit or a
      spelled-out number, and then adds ten times the first one found
      plus the last one found. */
  lemma Part2IsScan(total: int, line: string)
    ensures Part2Step(total, line).Ok? <==> |NumberScan(line)| > 0
    ensures Part2Step(total, line).Ok? ==>
      var ds := NumberScan(line);
      Part2Step(total, line).value == total + 10 * DigitValue(ds[0]) + DigitValue(ds[|ds| - 1])
    ensures Part2Step(total, line).Err? ==> Part2Step(total, line).error == NoDigits(Normalize(line))
  {
    NormalizeIsScan(line);
    var out := Normalize(line);
    if HasDigit(out) {
      CalibrationOfDigits(out);
    }
  }

  // ---------------------------------------------------------------------
  // Worked examples from the puzzle text
  // ---------------------------------------------------------------------

  /** The heads of the nine words, as a test on two letters. */
  predicate IsNumHead(a: char, b: char) {
    || (a == 'n' && b == 'i')
    || (a == 'e' && b == 'i')
    || (a == 's' && (b == 'e' || b == 'i'))
    || (a == 'f' && (b == 'i' || b == 'o'))
    || (a == 't' && (b == 'h' || b == 'w'))
    || (a == 'o' && b == 'n')
  }

  lemma NumHeadsMembers(a: char, b: char)
    ensures (a, b) in NumHeads <==> IsNumHead(a, b)
  {
    if (a, b) in NumHeads {
      var i :| 0 <= i < |NumHeads| && NumHeads[i] == (a, b);
      assert IsNumHead(NumHeads[i].0, NumHeads[i].1);
    }
    if IsNumHead(a, b) {
      var i := HeadIndex(a, b);
      assert NumHeads[i] == (a, b);
    }
  }

  /** What the examples use of a table: it is well formed and its heads
      are those of the nine words. The nine-word table is one. */
  predicate ExampleTable(table: seq<NumWord>) {
    WellFormed(table) && HeadsOf(table, NumHeads)
  }

  lemma NumWordsExampleTable()
    ensures ExampleTable(NumWords)
    ensures NumWords[0] == NumWord("nine", "n9e")
    ensures NumWords[1] == NumWord("eight", "e8t")
    ensures NumWords[7] == NumWord("two", "t2o")
  {
    NumWordsWellFormed();
    NumWordsHeads();
  }

  /** Where the examples' lines start with a word, and what follows it. */
  lemma SliceTwo()
    ensures "two"[1..] == "wo" + [] && "two"[..3] == "two"
    ensures "t2o"[1] == '2' && ['2'] + [] == "2"
  {
  }

  lemma SliceEightwo()
    ensures "eightwo"[1..] == "igh" + "two" && "eightwo"[..5] == "eight"
    ensures "e8t"[1] == '8' && ['8'] + "2" == "82"
  {
  }

  lemma SliceNine()
    ensures "nine"[1..] == "ine" + [] && "nine"[..4] == "nine"
    ensures "n9e"[1] == '9' && ['9'] + [] == "9"
  {
  }

  lemma SliceTwoOneNine()
    ensures "two1nine"[1..] == "wo" + "1nine" && "two1nine"[..3] == "two"
    ensures "t2o"[1] == '2' && ['2'] + "19" == "219"
  {
  }

  lemma SliceOneNine()
    ensures "1nine"[1..] == "nine" && "1nine"[0] == '1' && ['1'] + "9" == "19"
  {
  }

  /** A position that is neither a digit nor the start of a word adds
      nothing to the scan. */
  lemma ScanOff(t: string, table: seq<NumWord>, rest: string)
    requires ExampleTable(table)
    requires |t| > 0 && !IsDigit(t[0]) && (|t| < 2 || !IsNumHead(t[0], t[1]))
    requires ScanDigits(t[1..], table) == rest
    ensures ScanDigits(t, table) == rest
  {
    if |t| >= 2 {
      NumHeadsMembers(t[0], t[1]);
    }
    WordDigitOffHead(t, table, NumHeads);
  }

  /** A position where the `k`-th word starts adds that word's digit. */
  lemma ScanAt(t: string, table: seq<NumWord>, k: nat, d: char, rest: string)
    requires ExampleTable(table) && k < |table| && StartsWith(t, table[k].word)
    requires table[k].replacement[1] == d && ScanDigits(t[1..], table) == rest
    ensures ScanDigits(t, table) == [d] + rest
  {
    EmitAtWord(t, table, k);
  }

  /** A digit character adds itself. */
  lemma ScanDigitChar(t: string, table: seq<NumWord>, rest: string)
    requires ExampleTable(table)
    requires |t| > 0 && IsDigit(t[0]) && ScanDigits(t[1..], table) == rest
    ensures ScanDigits(t, table) == [t[0]] + rest
  {
  }

  /** No position of `p`, read in front of `t`, is a digit or the head of
      a number word. */
  predicate Quiet(p: string, t: string) {
    forall i :: 0 <= i < |p| ==>
      !IsDigit(p[i]) && (i + 1 < |p + t| ==> !IsNumHead((p + t)[i], (p + t)[i + 1]))
  }

  /** A stretch with no digit and no word head adds nothing to the scan. */
  lemma {:induction false} ScanSkip(p: string, t: string, table: seq<NumWord>, rest: string)
    requires ExampleTable(table) && Quiet(p, t)
    requires ScanDigits(t, table) == rest
    ensures ScanDigits(p + t, table) == rest
    decreases |p|
  {
    if |p| > 0 {
      var x := p + t;
      assert x[1..] == p[1..] + t;
      assert Quiet(p[1..], t) by {
        forall i | 0 <= i < |p[1..]|
          ensures !IsDigit(p[1..][i]) && (i + 1 < |p[1..] + t| ==> !IsNumHead((p[1..] + t)[i], (p[1..] + t)[i + 1]))
        {
          assert p[1..][i] == p[i + 1];
          if i + 1 < |p[1..] + t| {
            assert (p[1..] + t)[i] == x[i + 1] && (p[1..] + t)[i + 1] == x[i + 2];
          }
        }
      }
      ScanSkip(p[1..], t, table, rest);
      assert ScanDigits(x[1..], table) == rest;
      assert !IsDigit(x[0]) && (|x| < 2 || !IsNumHead(x[0], x[1])) by {
        assert x[0] == p[0];
        if |x| >= 2 {
          assert 0 + 1 < |p + t|;
        }
      }
      ScanOff(x, table, rest);
    } else {
      assert p + t == t;
    }
  }

  /** The stretches the examples skip: no digit and no word head. */
  lemma QuietWo()
    ensures Quiet("wo", []) && Quiet("wo", "1nine")
  {
    assert "wo" + [] == "wo";
    assert "wo" + "1nine" == "wo1nine";
  }

  lemma QuietIgh()
    ensures Quiet("igh", "two")
  {
    assert "igh" + "two" == "ightwo";
  }

  lemma QuietIne()
    ensures Quiet("ine", [])
  {
    assert "ine" + [] == "ine";
  }

  /** The tail "two" of "eightwo" reads 2. */
  lemma ScanTwo(table: seq<NumWord>)
    requires ExampleTable(table)
    requires table[7] == NumWord("two", "t2o")
    ensures GoodEntries(table) && ScanDigits("two", table) == "2"
  {
    SliceTwo();
    QuietWo();
    ScanSkip("wo", [], table, []);
    ScanAt("two", table, 7, '2', []);
  }

  /** In "eightwo" the words share their "t": the scan reads 8 then 2. */
  lemma ScanEightwo(table: seq<NumWord>)
    requires ExampleTable(table)
    requires table[7] == NumWord("two", "t2o")
    requires table[1] == NumWord("eight", "e8t")
    ensures GoodEntries(table) && ScanDigits("eightwo", table) == "82"
  {
    ScanTwo(table);
    SliceEightwo();
    QuietIgh();
    ScanSkip("igh", "two", table, "2");
    ScanAt("eightwo", table, 1, '8', "2");
  }

  lemma ExampleEightwo()
    ensures Part2Step(0, "eightwo") == Ok(82)
  {
    NumWordsExampleTable();
    ScanEightwo(NumWords);
    assert NumberScan("eightwo") == "82";
    Part2IsScan(0, "eightwo");
    assert DigitValue('8') == 8 && DigitValue('2') == 2;
  }

  lemma ScanNine(table: seq<NumWord>)
    requires ExampleTable(table)
    requires table[0] == NumWord("nine", "n9e")
    ensures GoodEntries(table) && ScanDigits("nine", table) == "9"
  {
    SliceNine();
    QuietIne();
    ScanSkip("ine", [], table, []);
    ScanAt("nine", table, 0, '9', []);
  }

  /** A digit character between words reads as itself. */
  lemma ScanOneNine(table: seq<NumWord>)
    requires ExampleTable(table)
    requires table[0] == NumWord("nine", "n9e")
    ensures GoodEntries(table) && ScanDigits("1nine", table) == "19"
  {
    ScanNine(table);
    SliceOneNine();
    ScanDigitChar("1nine", table, "9");
  }

  /** "two1nine" mixes words and a digit character: 2, 1, 9. */
  lemma ScanTwoOneNine(table: seq<NumWord>)
    requires ExampleTable(table)
    requires table[0] == NumWord("nine", "n9e")
    requires table[7] == NumWord("two", "t2o")
    ensures GoodEntries(table) && ScanDigits("two1nine", table) == "219"
  {
    ScanOneNine(table);
    SliceTwoOneNine();
    QuietWo();
    ScanSkip("wo", "1nine", table, "19");
    ScanAt("two1nine", table, 7, '2', "19");
  }

  lemma ExampleTwoOneNine()
    ensures Part2Step(0, "two1nine") == Ok(29)
  {
    NumWordsExampleTable();
    ScanTwoOneNine(NumWords);
    assert NumberScan("two1nine") == "219";
    Part2IsScan(0, "two1nine");
    assert DigitValue('2') == 2 && DigitValue('9') == 9;
  }
}
