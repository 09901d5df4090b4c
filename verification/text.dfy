/** Character and string primitives shared by both puzzle scripts: the
    digit filter both days use, decimal parsing as Python's `int` does it on
    a digit string, and Python's `str.find`, `str.replace`, `str.split` and
    `str.join` on literal (non-regex) arguments. */
module Text {

  // ---------------------------------------------------------------------
  // Digits
  // ---------------------------------------------------------------------

  /** An ASCII decimal digit. */
  predicate IsDigit(c: char) {
    '0' <= c <= '9'
  }

  function DigitValue(c: char): (v: nat)
    requires IsDigit(c)
    ensures v <= 9
  {
    (c as int - '0' as int) as nat
  }

  function DigitChar(v: nat): (c: char)
    requires v <= 9
    ensures IsDigit(c) && DigitValue(c) == v
  {
    ('0' as int + v) as char
  }

  predicate HasDigit(s: string) {
    exists i :: 0 <= i < |s| && IsDigit(s[i])
  }

  predicate AllDigits(s: string) {
    forall i :: 0 <= i < |s| ==> IsDigit(s[i])
  }

  /** No character of `s` is a digit. */
  predicate DigitFree(s: string) {
    forall i :: 0 <= i < |s| ==> !IsDigit(s[i])
  }

  /** The digit characters of `s`, in order: the list comprehension
      `[c for c in s if c.isdigit()]`. */
  function DigitChars(s: string): (ds: string)
    ensures |ds| <= |s|
    ensures AllDigits(ds)
    ensures |ds| == 0 <==> !HasDigit(s)
    decreases |s|
  {
    if |s| == 0 then []
    else
      var rest := DigitChars(s[1..]);
      assert HasDigit(s[1..]) ==> HasDigit(s) by {
        if HasDigit(s[1..]) {
          var i :| 0 <= i < |s[1..]| && IsDigit(s[1..][i]);
          assert IsDigit(s[i + 1]);
        }
      }
      (if IsDigit(s[0]) then [s[0]] else []) + rest
  }

  lemma {:induction false} DigitCharsAppend(a: string, b: string)
    ensures DigitChars(a + b) == DigitChars(a) + DigitChars(b)
    decreases |a|
  {
    if |a| == 0 {
      assert a + b == b;
    } else {
      var s := a + b;
      assert s[0] == a[0];
      assert s[1..] == a[1..] + b;
      DigitCharsAppend(a[1..], b);
      var h := if IsDigit(a[0]) then [a[0]] else [];
      assert DigitChars(s) == h + (DigitChars(a[1..]) + DigitChars(b));
      assert DigitChars(a) == h + DigitChars(a[1..]);
    }
  }

  lemma AppendAssoc<T>(a: seq<T>, b: seq<T>, c: seq<T>)
    ensures a + (b + c) == a + b + c
  {
  }

  /** The digits of `s` are those before index `j`, the one at `j` if it
      is a digit, and those after it. */
  lemma DigitCharsAt(s: string, j: nat)
    requires j < |s|
    ensures DigitChars(s) == DigitChars(s[..j]) + (if IsDigit(s[j]) then [s[j]] else []) + DigitChars(s[j + 1..])
  {
    var u := s[j..];
    var h := if IsDigit(s[j]) then [s[j]] else [];
    assert s == s[..j] + u;
    DigitCharsAppend(s[..j], u);
    assert u[0] == s[j] && u[1..] == s[j + 1..];
    var a, b := DigitChars(s[..j]), DigitChars(s[j + 1..]);
    assert DigitChars(u) == h + b;
    AppendAssoc(a, h, b);
  }

  lemma DigitCharsOfDigitFree(s: string)
    requires DigitFree(s)
    ensures DigitChars(s) == []
  {
  }

  lemma {:induction false} DigitCharsOfAllDigits(s: string)
    requires AllDigits(s)
    ensures DigitChars(s) == s
    decreases |s|
  {
    if |s| > 0 {
      DigitCharsOfAllDigits(s[1..]);
    }
  }

  // ---------------------------------------------------------------------
  // Subsequences
  // ---------------------------------------------------------------------

  /** `x` is what is left of `y` after deleting some of its characters:
      same characters, same order. */
  predicate IsSubsequence(x: string, y: string)
    decreases |y|
  {
    if |x| == 0 then true
    else if |y| == 0 then false
    else (x[0] == y[0] && IsSubsequence(x[1..], y[1..])) || IsSubsequence(x, y[1..])
  }

  lemma {:induction false} SubsequenceRefl(x: string)
    ensures IsSubsequence(x, x)
    decreases |x|
  {
    if |x| > 0 {
      SubsequenceRefl(x[1..]);
    }
  }

  lemma {:induction false} SubsequencePrepend(x: string, y: string, z: string)
    requires IsSubsequence(x, y)
    ensures IsSubsequence(x, z + y)
    decreases |z|
  {
    if |z| == 0 {
      assert z + y == y;
    } else if |x| > 0 {
      assert (z + y)[1..] == z[1..] + y;
      SubsequencePrepend(x, y, z[1..]);
    }
  }

  lemma SubsequenceCons(c: char, x: string, y: string)
    requires IsSubsequence(x, y)
    ensures IsSubsequence([c] + x, [c] + y)
  {
    assert ([c] + x)[1..] == x;
    assert ([c] + y)[1..] == y;
  }

  lemma {:induction false} SubsequenceTrans(x: string, y: string, z: string)
    requires IsSubsequence(x, y) && IsSubsequence(y, z)
    ensures IsSubsequence(x, z)
    decreases |z|, |y|
  {
    if |x| > 0 {
      // y and z are non-empty since x is.
      if y[0] == z[0] && IsSubsequence(y[1..], z[1..]) {
        if x[0] == y[0] && IsSubsequence(x[1..], y[1..]) {
          SubsequenceTrans(x[1..], y[1..], z[1..]);
        } else {
          SubsequenceTrans(x, y[1..], z[1..]);
        }
      } else {
        SubsequenceTrans(x, y, z[1..]);
      }
    }
  }

  // ---------------------------------------------------------------------
  // Decimal numbers
  // ---------------------------------------------------------------------

  /** Python's `int(ds)` on a non-empty string of ASCII digits (leading
      zeros allowed); on "" Python raises, so callers test for that first. */
  function DecimalValue(ds: string): nat
    requires AllDigits(ds)
    decreases |ds|
  {
    if |ds| == 0 then 0
    else 10 * DecimalValue(ds[..|ds| - 1]) + DigitValue(ds[|ds| - 1])
  }

  /** The decimal spelling of `n` without leading zeros, as `str(n)`. */
  function Show(n: nat): (s: string)
    ensures |s| >= 1 && AllDigits(s)
    ensures n >= 10 ==> s[0] != '0'
  {
    if n < 10 then [DigitChar(n)] else Show(n / 10) + [DigitChar(n % 10)]
  }

  /** Parsing the spelling of a number gives the number back. */
  lemma {:induction false} DecimalValueOfShow(n: nat)
    ensures DecimalValue(Show(n)) == n
  {
    var s := Show(n);
    if n < 10 {
      assert s[..0] == [];
    } else {
      assert s[..|s| - 1] == Show(n / 10);
      DecimalValueOfShow(n / 10);
    }
  }

  /** A two-character digit string reads as ten times its first digit
      plus its second. */
  lemma DecimalValueOfTwo(a: char, b: char)
    requires IsDigit(a) && IsDigit(b)
    ensures DecimalValue([a, b]) == 10 * DigitValue(a) + DigitValue(b)
  {
    assert [a, b][..1] == [a];
    assert [a][..0] == [];
    assert DecimalValue([a]) == DigitValue(a);
  }

  // ---------------------------------------------------------------------
  // Searching
  // ---------------------------------------------------------------------

  /** `w` occurs at the very start of `s`. */
  predicate StartsWith(s: string, w: string) {
    |w| <= |s| && s[..|w|] == w
  }

  /** Python's `s.find(w)`: the first index at which `w` occurs, or -1. */
  function Find(s: string, w: string): (r: int)
    ensures -1 <= r <= |s|
    ensures r >= 0 ==> StartsWith(s[r..], w)
    ensures r >= 0 ==> forall i :: 0 <= i < r ==> !StartsWith(s[i..], w)
    ensures r == -1 ==> forall i :: 0 <= i <= |s| ==> !StartsWith(s[i..], w)
    decreases |s|
  {
    if StartsWith(s, w) then 0
    else if |s| == 0 then -1
    else
      var k := Find(s[1..], w);
      if k == -1 then
        NoStartShift(s, w, |s| + 1);
        -1
      else
        NoStartShift(s, w, k + 1);
        assert s[1..][k..] == s[k + 1..];
        k + 1
  }

  /** Occurrences in `s[1..]` are those in `s` one index later. */
  lemma NoStartShift(s: string, w: string, n: nat)
    requires 0 < |s| && !StartsWith(s, w) && n <= |s| + 1
    requires forall i :: 0 <= i < n - 1 ==> !StartsWith(s[1..][i..], w)
    ensures forall i :: 0 <= i < n && i <= |s| ==> !StartsWith(s[i..], w)
  {
    forall i | 0 <= i < n && i <= |s|
      ensures !StartsWith(s[i..], w)
    {
      if i == 0 {
        assert s[0..] == s;
      } else {
        assert s[1..][i - 1..] == s[i..];
      }
    }
  }

  /** Python's `w in s`. */
  predicate Contains(s: string, w: string) {
    Find(s, w) >= 0
  }

  /** `w` occurs in `s` exactly when it starts at some index of `s`. */
  lemma ContainsIffOccurs(s: string, w: string)
    ensures Contains(s, w) <==> exists i :: 0 <= i <= |s| && StartsWith(s[i..], w)
  {
  }

  /** A word whose first character does not appear in `s` does not occur
      in `s`. */
  lemma {:induction false} NotContainsWithoutFirstChar(s: string, w: string)
    requires |w| > 0 && w[0] !in s
    ensures !Contains(s, w)
  {
    forall i | 0 <= i <= |s|
      ensures !StartsWith(s[i..], w)
    {
      if i < |s| {
        assert s[i] in s;
      }
    }
  }

  // ---------------------------------------------------------------------
  // Replacing, splitting, joining
  // ---------------------------------------------------------------------

  /** Python's `s.replace(w, r)` for a non-empty `w`: every occurrence of
      `w`, found left to right and never overlapping a previous one, is
      replaced by `r`. */
  function ReplaceAll(s: string, w: string, r: string): string
    requires |w| > 0
    decreases |s|
  {
    if |s| == 0 then []
    else if StartsWith(s, w) then r + ReplaceAll(s[|w|..], w, r)
    else [s[0]] + ReplaceAll(s[1..], w, r)
  }

  /** Python's `s.split(sep)` for a non-empty `sep`. */
  function Split(s: string, sep: string): (parts: seq<string>)
    requires |sep| > 0
    ensures |parts| >= 1
    decreases |s|
  {
    if |s| == 0 then [""]
    else if StartsWith(s, sep) then [""] + Split(s[|sep|..], sep)
    else Cons(s[0], Split(s[1..], sep))
  }

  /** Prepends `c` to the first of a non-empty list of parts. */
  function Cons(c: char, parts: seq<string>): (r: seq<string>)
    requires |parts| >= 1
    ensures |r| == |parts| && r[0] == [c] + parts[0] && r[1..] == parts[1..]
  {
    [[c] + parts[0]] + parts[1..]
  }

  /** Python's `sep.join(parts)`. */
  function Join(parts: seq<string>, sep: string): string
    decreases |parts|
  {
    if |parts| == 0 then ""
    else if |parts| == 1 then parts[0]
    else parts[0] + sep + Join(parts[1..], sep)
  }

  lemma JoinCons(c: char, parts: seq<string>, sep: string)
    requires |parts| >= 1
    ensures Join(Cons(c, parts), sep) == [c] + Join(parts, sep)
  {
  }

  /** `s.replace(w, r)` is `r.join(s.split(w))`. */
  lemma {:induction false} ReplaceIsJoinOfSplit(s: string, w: string, r: string)
    requires |w| > 0
    ensures ReplaceAll(s, w, r) == Join(Split(s, w), r)
    decreases |s|
  {
    if |s| == 0 {
    } else if StartsWith(s, w) {
      ReplaceIsJoinOfSplit(s[|w|..], w, r);
    } else {
      ReplaceIsJoinOfSplit(s[1..], w, r);
      JoinCons(s[0], Split(s[1..], w), r);
    }
  }

  /** Replacing a word by itself changes nothing. */
  lemma {:induction false} ReplaceBySelf(s: string, w: string)
    requires |w| > 0
    ensures ReplaceAll(s, w, w) == s
    decreases |s|
  {
    if |s| == 0 {
    } else if StartsWith(s, w) {
      ReplaceBySelf(s[|w|..], w);
      assert s == s[..|w|] + s[|w|..];
    } else {
      ReplaceBySelf(s[1..], w);
      assert s == [s[0]] + s[1..];
    }
  }

  /** Splitting and joining back with the same separator gives the
      original string: `sep.join(s.split(sep)) == s`. */
  lemma SplitJoinRoundTrip(s: string, sep: string)
    requires |sep| > 0
    ensures Join(Split(s, sep), sep) == s
  {
    ReplaceIsJoinOfSplit(s, sep, sep);
    ReplaceBySelf(s, sep);
  }

  /** Replacing a word that does not occur leaves the string unchanged. */
  lemma {:induction false} ReplaceAbsent(s: string, w: string, r: string)
    requires |w| > 0 && !Contains(s, w)
    ensures ReplaceAll(s, w, r) == s
    decreases |s|
  {
    if |s| > 0 {
      assert !StartsWith(s[0..], w);
      assert s[0..] == s;
      forall i | 0 <= i <= |s[1..]|
        ensures !StartsWith(s[1..][i..], w)
      {
        assert s[1..][i..] == s[i + 1..];
      }
      ReplaceAbsent(s[1..], w, r);
    }
  }

  /** A text without the separator splits into itself alone:
      `s.split(sep) == [s]`. */
  lemma {:induction false} SplitAbsent(s: string, sep: string)
    requires |sep| > 0 && !Contains(s, sep)
    ensures Split(s, sep) == [s]
    decreases |s|
  {
    if |s| > 0 {
      assert !StartsWith(s[0..], sep);
      assert s[0..] == s;
      forall i | 0 <= i <= |s[1..]|
        ensures !StartsWith(s[1..][i..], sep)
      {
        assert s[1..][i..] == s[i + 1..];
      }
      SplitAbsent(s[1..], sep);
      assert [s[0]] + s[1..] == s;
    }
  }

  /** The first part of a split is a prefix of the text holding no
      occurrence of the separator. */
  lemma {:induction false} SplitFirstPart(s: string, sep: string)
    requires |sep| > 0
    ensures var p := Split(s, sep)[0];
      |p| <= |s| && s[..|p|] == p && forall i :: 0 <= i <= |p| ==> !StartsWith(p[i..], sep)
    decreases |s|
  {
    if |s| > 0 && !StartsWith(s, sep) {
      var q := Split(s[1..], sep)[0];
      SplitFirstPart(s[1..], sep);
      var p := [s[0]] + q;
      assert Split(s, sep)[0] == p;
      assert s[..|p|] == p by {
        assert s[1..][..|q|] == q;
      }
      forall i | 0 <= i <= |p|
        ensures !StartsWith(p[i..], sep)
      {
        if i == 0 {
          if |sep| <= |p| {
            assert s[..|sep|] == p[..|sep|];
          }
        } else {
          assert p[i..] == q[i - 1..];
        }
      }
    }
  }

  /** No part of `s.split(sep)` contains `sep`. */
  lemma {:induction false} SplitPartsFree(s: string, sep: string)
    requires |sep| > 0
    ensures forall k :: 0 <= k < |Split(s, sep)| ==> !Contains(Split(s, sep)[k], sep)
    decreases |s|
  {
    var parts := Split(s, sep);
    if |s| == 0 {
      assert !StartsWith(""[0..], sep);
    } else if StartsWith(s, sep) {
      var rest := Split(s[|sep|..], sep);
      SplitPartsFree(s[|sep|..], sep);
      assert !StartsWith(""[0..], sep);
      assert forall k :: 1 <= k < |parts| ==> parts[k] == rest[k - 1];
    } else {
      var rest := Split(s[1..], sep);
      SplitPartsFree(s[1..], sep);
      SplitFirstPart(s, sep);
      assert forall k :: 1 <= k < |parts| ==> parts[k] == rest[k];
    }
  }

  /** A word one of whose characters is missing from `s` does not occur
      in `s`. */
  lemma NotContainsWithoutChar(s: string, w: string, k: nat)
    requires k < |w| && w[k] !in s
    ensures !Contains(s, w)
  {
    forall i | 0 <= i <= |s|
      ensures !StartsWith(s[i..], w)
    {
      if |w| <= |s[i..]| {
        assert s[i..][..|w|][k] == s[i + k];
      }
    }
  }

  /** A word that starts at some index of `s` is in `s`. */
  lemma ContainsAt(s: string, w: string, i: nat)
    requires i <= |s| && StartsWith(s[i..], w)
    ensures Contains(s, w)
  {
  }

  /** If `w` starts nowhere before index `j` of `s`, it starts nowhere
      before index `j - 1` of `s[1..]`. */
  lemma NoneBeforeInTail(s: string, w: string, j: nat)
    requires 0 < j <= |s|
    requires forall i :: 0 <= i < j ==> !StartsWith(s[i..], w)
    ensures forall i :: 0 <= i < j - 1 ==> !StartsWith(s[1..][i..], w)
  {
    forall i | 0 <= i < j - 1
      ensures !StartsWith(s[1..][i..], w)
    {
      assert s[1..][i..] == s[i + 1..];
    }
  }

  /** Putting the first character back in front of a split of the tail. */
  lemma ConsSplit(s: string, j: nat, m: nat, r: string, y: string)
    requires 0 < j && j + m <= |s|
    ensures s[1..][j - 1..] == s[j..]
    ensures s[1..][j - 1 + m..] == s[j + m..]
    ensures [s[0]] + (s[1..][..j - 1] + r + y) == s[..j] + r + y
  {
    assert [s[0]] + s[1..][..j - 1] == s[..j];
  }

  /** Replacement leaves everything before the first occurrence alone,
      puts `r` in place of that occurrence, and carries on after it. */
  lemma {:induction false} ReplaceAtFirst(s: string, w: string, r: string, j: nat)
    requires |w| > 0 && j <= |s| && StartsWith(s[j..], w)
    requires forall i :: 0 <= i < j ==> !StartsWith(s[i..], w)
    ensures ReplaceAll(s, w, r) == s[..j] + r + ReplaceAll(s[j + |w|..], w, r)
    decreases j
  {
    var y := ReplaceAll(s[j + |w|..], w, r);
    if j == 0 {
      assert s[0..] == s;
      assert s[..0] == [];
      assert ReplaceAll(s, w, r) == r + y;
    } else {
      assert !StartsWith(s, w) by {
        assert s[0..] == s;
        assert !StartsWith(s[0..], w);
      }
      assert ReplaceAll(s[1..], w, r) == s[1..][..j - 1] + r + y by {
        NoneBeforeInTail(s, w, j);
        ConsSplit(s, j, |w|, r, y);
        ReplaceAtFirst(s[1..], w, r, j - 1);
      }
      ConsSplit(s, j, |w|, r, y);
      assert ReplaceAll(s, w, r) == [s[0]] + ReplaceAll(s[1..], w, r);
    }
  }

  /** For a one-character word, replacement distributes over
      concatenation: no occurrence can straddle the seam. */
  lemma {:induction false} ReplaceCharAppend(a: string, b: string, w: string, r: string)
    requires |w| == 1
    ensures ReplaceAll(a + b, w, r) == ReplaceAll(a, w, r) + ReplaceAll(b, w, r)
    decreases |a|
  {
    if |a| == 0 {
      assert a + b == b;
    } else {
      var s := a + b;
      assert s[..1] == a[..1];
      assert s[1..] == a[1..] + b;
      ReplaceCharAppend(a[1..], b, w, r);
      var x, y := ReplaceAll(a[1..], w, r), ReplaceAll(b, w, r);
      assert ReplaceAll(s, w, r) == (if StartsWith(a, w) then r else [a[0]]) + (x + y);
      assert ReplaceAll(a, w, r) == (if StartsWith(a, w) then r else [a[0]]) + x;
    }
  }

  /** Splitting on a two-character separator whose characters differ:
      a separator placed between two strings splits exactly there. */
  lemma {:induction false} SplitAround(a: string, b: string, sep: string)
    requires |sep| == 2 && sep[0] != sep[1]
    ensures Split(a + sep + b, sep) == Split(a, sep) + Split(b, sep)
    decreases |a|
  {
    var s := a + sep + b;
    if |a| == 0 {
      assert s == sep + b;
      assert s[..2] == sep;
      assert s[2..] == b;
    } else if StartsWith(s, sep) {
      if |a| == 1 {
        assert false;
      }
      assert a[..2] == s[..2];
      assert s[2..] == a[2..] + sep + b;
      SplitAround(a[2..], b, sep);
    } else {
      assert s[1..] == a[1..] + sep + b;
      if |a| >= 2 {
        assert s[..2] == a[..2];
      }
      SplitAround(a[1..], b, sep);
      if |a| == 1 {
        assert a[1..] == "";
      }
    }
  }
}
