/** Day 2, the cube game. Each input row is a game label ("Game 7") and
    the text of its draws (" 3 blue, 4 red; 1 red, 2 green"). Cleaning
    turns a row into a record holding the game id and, for each of the
    three colours, the largest count shown in any draw. Part 1 sums the
    ids of the games whose maxima are all within the limits; Part 2 sums
    the products of the three maxima. */
module CubeGame {
  import opened Text
  import opened Results

  // ---------------------------------------------------------------------
  // Numbers inside text
  // ---------------------------------------------------------------------

  /** The number written by all the digit characters of `s`, read together
      in order ("Game 7" is 7, " 14 blue" is 14). */
  function Count(s: string): nat
    requires HasDigit(s)
  {
    DecimalValue(DigitChars(s))
  }

  /** `extract_number_from_string`: parsing an empty digit string is an
      error. */
  function ExtractNumber(s: string): (r: Result<nat>)
    ensures r.Ok? <==> HasDigit(s)
    ensures r.Err? ==> r.error == NoDigits(s)
    ensures r.Ok? ==> r.value == Count(s)
  {
    if |DigitChars(s)| == 0 then Err(NoDigits(s)) else Ok(DecimalValue(DigitChars(s)))
  }

  /** A run of digits between two digit-free texts is read as that run. */
  lemma ExtractBetween(p: string, ds: string, q: string)
    requires DigitFree(p) && AllDigits(ds) && |ds| > 0 && DigitFree(q)
    ensures ExtractNumber(p + ds + q) == Ok(DecimalValue(ds))
  {
    DigitCharsAppend(p, ds);
    DigitCharsAppend(p + ds, q);
    DigitCharsOfDigitFree(p);
    DigitCharsOfDigitFree(q);
    DigitCharsOfAllDigits(ds);
    assert DigitChars(p + ds) == ds;
    assert DigitChars(p + ds + q) == ds;
  }

  /** A number written between two digit-free texts is read back. */
  lemma ExtractShown(p: string, n: nat, q: string)
    requires DigitFree(p) && DigitFree(q)
    ensures ExtractNumber(p + Show(n) + q) == Ok(n)
  {
    ExtractBetween(p, Show(n), q);
    DecimalValueOfShow(n);
  }

  /** Digits in different places of the text run together: "1 2" reads
      as 12, not as 1 or 2. */
  lemma ExtractJoinsDigits()
    ensures ExtractNumber("1 2") == Ok(12)
  {
    assert DigitChars("1 2") == "12";
    assert DecimalValue("1") == 1;
  }

  lemma ExtractCount()
    ensures ExtractNumber(" 14 blue") == Ok(14)
  {
    assert " " + "14" + " blue" == " 14 blue";
    ExtractBetween(" ", "14", " blue");
    DecimalValueOfTwo('1', '4');
  }

  lemma ExtractId()
    ensures ExtractNumber("Game 7") == Ok(7)
  {
    assert "Game " + "7" + "" == "Game 7";
    ExtractBetween("Game ", "7", "");
    assert "7"[..0] == [];
  }

  lemma ExtractNoDigit()
    ensures ExtractNumber(" blue") == Err(NoDigits(" blue"))
  {
    assert DigitChars(" blue") == [];
  }

  // ---------------------------------------------------------------------
  // Splitting a game into entries
  // ---------------------------------------------------------------------

  /** The entries of a game's text: every ";" becomes ",", then the text
      is split at each ", ". */
  function Entries(results: string): (es: seq<string>)
    ensures |es| >= 1
  {
    Split(ReplaceAll(results, ";", ","), ", ")
  }

  /** The end of a draw and the end of an entry within a draw are the
      same to the splitter: entries of the whole game are the entries of
      its pieces, one after the other. */
  lemma DrawBoundaries(a: string, b: string)
    ensures Entries(a + "; " + b) == Entries(a + ", " + b) == Entries(a) + Entries(b)
  {
    var a', b' := ReplaceAll(a, ";", ","), ReplaceAll(b, ";", ",");
    assert ReplaceAll("; ", ";", ",") == ", " by {
      assert "; "[1..] == " ";
      assert ReplaceAll(" ", ";", ",") == " " by {
        assert " "[1..] == "";
      }
    }
    assert ReplaceAll(", ", ";", ",") == ", " by {
      assert ", "[1..] == " ";
      assert ReplaceAll(" ", ";", ",") == " " by {
        assert " "[1..] == "";
      }
    }
    ReplaceCharAppend(a, "; " + b, ";", ",");
    ReplaceCharAppend("; ", b, ";", ",");
    assert a + "; " + b == a + ("; " + b);
    ReplaceCharAppend(a, ", " + b, ";", ",");
    ReplaceCharAppend(", ", b, ";", ",");
    assert a + ", " + b == a + (", " + b);
    assert a' + (", " + b') == a' + ", " + b';
    SplitAround(a', b', ", ");
  }

  /** A piece holding neither ';' nor ',' is a single entry. */
  lemma EntriesSingle(e: string)
    requires ';' !in e && ',' !in e
    ensures Entries(e) == [e]
  {
    NotContainsWithoutChar(e, ";", 0);
    ReplaceAbsent(e, ";", ",");
    NotContainsWithoutChar(e, ", ", 0);
    SplitAbsent(e, ", ");
  }

  /** No entry holds the separator ", " it was split at. */
  lemma EntriesHoldNoSeparator(results: string)
    ensures forall k :: 0 <= k < |Entries(results)| ==> !Contains(Entries(results)[k], ", ")
  {
    SplitPartsFree(ReplaceAll(results, ";", ","), ", ");
  }

  // ---------------------------------------------------------------------
  // Colours and their maxima
  // ---------------------------------------------------------------------

  datatype Color = Red | Green | Blue

  function Name(c: Color): string {
    match c
    case Red => "red"
    case Green => "green"
    case Blue => "blue"
  }

  /** The test `result.find(color) > -1`. */
  predicate Mentions(entry: string, c: Color) {
    Find(entry, Name(c)) > -1
  }

  /** Every entry that mentions the colour holds a digit. */
  predicate CountsReadable(entries: seq<string>, c: Color) {
    forall i :: 0 <= i < |entries| && Mentions(entries[i], c) ==> HasDigit(entries[i])
  }

  /** The numbers of the entries that mention the colour, in order; the
      first such entry without a digit stops the list with an error. */
  function Counts(entries: seq<string>, c: Color): Result<seq<nat>>
    decreases |entries|
  {
    if |entries| == 0 then Ok([])
    else
      var rest := Counts(entries[1..], c);
      if !Mentions(entries[0], c) then
        rest
      else
        match ExtractNumber(entries[0])
        case Err(e) => Err(e)
        case Ok(n) =>
          match rest
          case Err(e) => Err(e)
          case Ok(ns) => Ok([n] + ns)
  }

  /** Readability of a list is readability of its first entry and of the
      rest. */
  lemma CountsReadableCons(entries: seq<string>, c: Color)
    requires |entries| > 0
    ensures CountsReadable(entries, c) <==>
              (Mentions(entries[0], c) ==> HasDigit(entries[0])) && CountsReadable(entries[1..], c)
  {
    var tail := entries[1..];
    assert forall i :: 0 <= i < |tail| ==> tail[i] == entries[i + 1];
  }

  /** The list exists exactly when every entry mentioning the colour
      holds a digit; an error names a mentioning entry without one. */
  lemma {:induction false} CountsOk(entries: seq<string>, c: Color)
    ensures Counts(entries, c).Ok? <==> CountsReadable(entries, c)
    ensures Counts(entries, c).Err? ==>
              exists i :: 0 <= i < |entries| && Mentions(entries[i], c) && !HasDigit(entries[i])
                          && Counts(entries, c).error == NoDigits(entries[i])
    decreases |entries|
  {
    if |entries| > 0 {
      var tail := entries[1..];
      CountsOk(tail, c);
      CountsReadableCons(entries, c);
      if Counts(tail, c).Err? && (!Mentions(entries[0], c) || HasDigit(entries[0])) {
        var i :| 0 <= i < |tail| && Mentions(tail[i], c) && !HasDigit(tail[i])
                 && Counts(tail, c).error == NoDigits(tail[i]);
        assert entries[i + 1] == tail[i];
      }
    }
  }

  /** The list holds the count of every entry mentioning the colour. */
  lemma {:induction false} CountsComplete(entries: seq<string>, c: Color)
    requires Counts(entries, c).Ok?
    ensures CountsReadable(entries, c)
    ensures forall i :: 0 <= i < |entries| && Mentions(entries[i], c) ==> Count(entries[i]) in Counts(entries, c).value
    decreases |entries|
  {
    CountsOk(entries, c);
    if |entries| > 0 {
      var tail := entries[1..];
      assert Counts(tail, c).Ok?;
      CountsComplete(tail, c);
      assert forall i :: 0 <= i < |tail| ==> tail[i] == entries[i + 1];
    }
  }

  /** Every number in the list is the count of an entry mentioning the
      colour. */
  lemma {:induction false} CountsSound(entries: seq<string>, c: Color)
    requires Counts(entries, c).Ok?
    ensures CountsReadable(entries, c)
    ensures forall x :: x in Counts(entries, c).value ==>
              exists i :: 0 <= i < |entries| && Mentions(entries[i], c) && Count(entries[i]) == x
    decreases |entries|
  {
    CountsOk(entries, c);
    if |entries| > 0 {
      var tail := entries[1..];
      assert Counts(tail, c).Ok?;
      CountsSound(tail, c);
      forall x | x in Counts(entries, c).value
        ensures exists i :: 0 <= i < |entries| && Mentions(entries[i], c) && Count(entries[i]) == x
      {
        if x in Counts(tail, c).value {
          var i :| 0 <= i < |tail| && Mentions(tail[i], c) && Count(tail[i]) == x;
          assert entries[i + 1] == tail[i];
        } else {
          assert Mentions(entries[0], c) && x == Count(entries[0]);
        }
      }
    }
  }

  /** The list is empty exactly when no entry mentions the colour. */
  lemma {:induction false} CountsEmpty(entries: seq<string>, c: Color)
    requires Counts(entries, c).Ok?
    ensures |Counts(entries, c).value| == 0 <==> forall i :: 0 <= i < |entries| ==> !Mentions(entries[i], c)
    decreases |entries|
  {
    CountsOk(entries, c);
    if |entries| > 0 {
      var tail := entries[1..];
      assert Counts(tail, c).Ok?;
      CountsEmpty(tail, c);
      assert forall i :: 0 <= i < |tail| ==> tail[i] == entries[i + 1];
    }
  }

  /** The text of one entry as the puzzle writes it: a count, a space and
      a colour name, after some leading spaces. */
  function Shown(lead: string, n: nat, c: Color): string {
    lead + Show(n) + " " + Name(c)
  }

  /** The letters of every colour name. */
  lemma NameLetters(c: Color)
    ensures |Name(c)| >= 3 && DigitFree(Name(c)) && ' ' !in Name(c)
    ensures c != Red ==> 'd' !in Name(c)
    ensures c != Green ==> 'g' !in Name(c)
    ensures c != Blue ==> 'b' !in Name(c)
  {
  }

  /** A letter of `Name(c)` that no other colour name and no count holds. */
  function Mark(c: Color): (k: nat)
    ensures k < |Name(c)|
  {
    NameLetters(c);
    if c == Red then 2 else 0
  }

  /** An entry "n colour" reads as `n` and mentions its own colour and no
      other. */
  lemma ReadEntry(lead: string, n: nat, named: Color, c: Color)
    requires forall i :: 0 <= i < |lead| ==> lead[i] == ' '
    ensures ExtractNumber(Shown(lead, n, named)) == Ok(n)
    ensures Mentions(Shown(lead, n, named), c) <==> named == c
  {
    ReadCount(lead, n, named);
    if named == c {
      ReadOwnColour(lead, n, c);
    } else {
      ReadOtherColour(lead, n, named, c);
    }
  }

  lemma ReadCount(lead: string, n: nat, named: Color)
    requires forall i :: 0 <= i < |lead| ==> lead[i] == ' '
    ensures ExtractNumber(Shown(lead, n, named)) == Ok(n)
  {
    var tail := " " + Name(named);
    NameLetters(named);
    assert Shown(lead, n, named) == lead + Show(n) + tail;
    assert DigitFree(tail) by {
      assert forall i :: 1 <= i < |tail| ==> tail[i] == Name(named)[i - 1];
    }
    ExtractShown(lead, n, tail);
  }

  lemma ReadOwnColour(lead: string, n: nat, c: Color)
    ensures Mentions(Shown(lead, n, c), c)
  {
    var e := Shown(lead, n, c);
    assert e[|e| - |Name(c)|..] == Name(c);
    ContainsAt(e, Name(c), |e| - |Name(c)|);
  }

  lemma ReadOtherColour(lead: string, n: nat, named: Color, c: Color)
    requires forall i :: 0 <= i < |lead| ==> lead[i] == ' '
    requires named != c
    ensures !Mentions(Shown(lead, n, named), c)
  {
    var ch := Name(c)[Mark(c)];
    NameLetters(named);
    NameLetters(c);
    assert ch != ' ' && !IsDigit(ch) && ch !in Name(named);
    assert ch !in lead;
    assert ch !in Show(n);
    assert ch !in Shown(lead, n, named);
    NotContainsWithoutChar(Shown(lead, n, named), Name(c), Mark(c));
  }

  /** The numbers of a list paired with colours, keeping those of `c`. */
  function Matching(ns: seq<nat>, cs: seq<Color>, c: Color): (r: seq<nat>)
    requires |ns| == |cs|
    decreases |ns|
  {
    if |ns| == 0 then []
    else (if cs[0] == c then [ns[0]] else []) + Matching(ns[1..], cs[1..], c)
  }

  /** When entry `i` reads as `ns[i]` and mentions exactly colour `cs[i]`,
      the count list of `c` is the numbers paired with `c`, in order. */
  lemma {:induction false} CountsOfRead(entries: seq<string>, ns: seq<nat>, cs: seq<Color>, c: Color)
    requires |ns| == |entries| && |cs| == |entries|
    requires forall i :: 0 <= i < |entries| ==> ExtractNumber(entries[i]) == Ok(ns[i])
    requires forall i :: 0 <= i < |entries| ==> (Mentions(entries[i], c) <==> cs[i] == c)
    ensures Counts(entries, c) == Ok(Matching(ns, cs, c))
    decreases |entries|
  {
    if |entries| > 0 {
      var tail, ns', cs' := entries[1..], ns[1..], cs[1..];
      forall i | 0 <= i < |tail|
        ensures ExtractNumber(tail[i]) == Ok(ns'[i]) && (Mentions(tail[i], c) <==> cs'[i] == c)
      {
        assert tail[i] == entries[i + 1] && ns'[i] == ns[i + 1] && cs'[i] == cs[i + 1];
      }
      CountsOfRead(tail, ns', cs', c);
      assert ExtractNumber(entries[0]) == Ok(ns[0]);
      assert Mentions(entries[0], c) <==> cs[0] == c;
      var m := Matching(ns', cs', c);
      if cs[0] == c {
        assert Matching(ns, cs, c) == [ns[0]] + m;
      } else {
        assert Matching(ns, cs, c) == [] + m == m;
      }
    }
  }

  /** A list of entry texts, entry `i` reading `ns[i]` of colour `cs[i]`. */
  function ShownList(leads: seq<string>, ns: seq<nat>, cs: seq<Color>): (es: seq<string>)
    requires |leads| == |ns| == |cs|
    ensures |es| == |ns| && forall i :: 0 <= i < |ns| ==> es[i] == Shown(leads[i], ns[i], cs[i])
  {
    seq(|ns|, i requires 0 <= i < |ns| => Shown(leads[i], ns[i], cs[i]))
  }

  /** The count list of `c` over entries written "n colour" is the numbers
      written with `c`, in order. */
  lemma ReadShownList(leads: seq<string>, ns: seq<nat>, cs: seq<Color>, c: Color)
    requires |leads| == |ns| == |cs|
    requires forall k, i :: 0 <= k < |leads| && 0 <= i < |leads[k]| ==> leads[k][i] == ' '
    ensures Counts(ShownList(leads, ns, cs), c) == Ok(Matching(ns, cs, c))
  {
    var es := ShownList(leads, ns, cs);
    forall i | 0 <= i < |es|
      ensures ExtractNumber(es[i]) == Ok(ns[i]) && (Mentions(es[i], c) <==> cs[i] == c)
    {
      ReadEntry(leads[i], ns[i], cs[i], c);
    }
    CountsOfRead(es, ns, cs, c);
  }

  /** The largest element of a non-empty list. */
  function MaxOf(xs: seq<nat>): (m: nat)
    requires |xs| > 0
    ensures m in xs
    ensures forall x :: x in xs ==> x <= m
    decreases |xs|
  {
    if |xs| == 1 then xs[0]
    else
      var m' := MaxOf(xs[1..]);
      assert forall x :: x in xs ==> x == xs[0] || x in xs[1..];
      if xs[0] >= m' then xs[0] else m'
  }

  /** `max(...)` over the counts of the colour: an error when no entry
      mentions it, or when one that mentions it holds no digit. */
  function ColorMax(entries: seq<string>, c: Color): Result<nat> {
    match Counts(entries, c)
    case Err(e) => Err(e)
    case Ok(ns) => if |ns| == 0 then Err(NoMatchingEntry(Name(c))) else Ok(MaxOf(ns))
  }

  /** The maximum exists exactly when some entry mentions the colour and
      every such entry holds a digit; it bounds every such entry's count
      and is one of them. With readable entries, the only error is that
      none mentions the colour. */
  lemma ColorMaxSpec(entries: seq<string>, c: Color)
    ensures var r := ColorMax(entries, c);
      && (r.Ok? <==> CountsReadable(entries, c) && exists i :: 0 <= i < |entries| && Mentions(entries[i], c))
      && (r.Ok? ==> forall i :: 0 <= i < |entries| && Mentions(entries[i], c) ==> Count(entries[i]) <= r.value)
      && (r.Ok? ==> exists i :: 0 <= i < |entries| && Mentions(entries[i], c) && Count(entries[i]) == r.value)
      && (r.Err? && CountsReadable(entries, c) ==> r.error == NoMatchingEntry(Name(c)))
  {
    CountsOk(entries, c);
    if Counts(entries, c).Ok? {
      CountsComplete(entries, c);
      CountsSound(entries, c);
      CountsEmpty(entries, c);
    }
  }

  /** A colour's maximum stays within a limit exactly when every entry
      mentioning it does. */
  lemma MaxWithinIffAll(entries: seq<string>, c: Color, limit: int)
    requires CountsReadable(entries, c) && exists i :: 0 <= i < |entries| && Mentions(entries[i], c)
    ensures ColorMax(entries, c).Ok?
    ensures ColorMax(entries, c).value <= limit <==>
            forall i :: 0 <= i < |entries| && Mentions(entries[i], c) ==> Count(entries[i]) <= limit
  {
    ColorMaxSpec(entries, c);
  }

  /** Draw boundaries do not matter to a colour's maximum. */
  lemma ColorMaxAcrossDraws(a: string, b: string, c: Color)
    ensures ColorMax(Entries(a + "; " + b), c) == ColorMax(Entries(a + ", " + b), c)
  {
    DrawBoundaries(a, b);
  }

  // ---------------------------------------------------------------------
  // Cleaning
  // ---------------------------------------------------------------------

  /** One cleaned row: the game id, its entries and the three maxima. */
  datatype GameRecord = GameRecord(id: nat, entries: seq<string>, redMax: nat, greenMax: nat, blueMax: nat)

  function MaxFor(g: GameRecord, c: Color): nat {
    match c
    case Red => g.redMax
    case Green => g.greenMax
    case Blue => g.blueMax
  }

  /** A row of the input, already split at the ':' into label and draws. */
  datatype Row = Row(header: string, results: string)

  /** A column built entry by entry, as `list(map(...))` does: the
      first failing entry stops it with that entry's error. */
  function Column(rs: seq<Result<nat>>): (r: Result<seq<nat>>)
    ensures r.Ok? <==> forall i :: 0 <= i < |rs| ==> rs[i].Ok?
    ensures r.Ok? ==> |r.value| == |rs| && forall i :: 0 <= i < |rs| ==> r.value[i] == rs[i].value
    ensures r.Err? ==> exists i :: 0 <= i < |rs| && rs[i] == Err(r.error) && forall j :: 0 <= j < i ==> rs[j].Ok?
    decreases |rs|
  {
    if |rs| == 0 then Ok([])
    else
      match rs[0]
      case Err(e) => Err(e)
      case Ok(n) =>
        var rest := Column(rs[1..]);
        assert forall i :: 1 <= i < |rs| ==> rs[i] == rs[1..][i - 1];
        match rest
        case Err(e) => Err(e)
        case Ok(ns) => Ok([n] + ns)
  }

  /** The `game_number` column. */
  function IdColumn(rows: seq<Row>): (r: Result<seq<nat>>)
    ensures r.Ok? <==> forall i :: 0 <= i < |rows| ==> HasDigit(rows[i].header)
    ensures r.Ok? ==> |r.value| == |rows| && forall i :: 0 <= i < |rows| ==> r.value[i] == Count(rows[i].header)
    ensures r.Err? ==> exists i :: 0 <= i < |rows| && !HasDigit(rows[i].header) && r.error == NoDigits(rows[i].header)
  {
    var rs := seq(|rows|, i requires 0 <= i < |rows| => ExtractNumber(rows[i].header));
    assert forall i :: 0 <= i < |rows| ==> rs[i] == ExtractNumber(rows[i].header);
    Column(rs)
  }

  /** A `<colour>_max` column. */
  function MaxColumn(games: seq<seq<string>>, c: Color): (r: Result<seq<nat>>)
    ensures r.Ok? <==> forall i :: 0 <= i < |games| ==> ColorMax(games[i], c).Ok?
    ensures r.Ok? ==> |r.value| == |games| && forall i :: 0 <= i < |games| ==> r.value[i] == ColorMax(games[i], c).value
    ensures r.Err? ==> exists i :: 0 <= i < |games| && ColorMax(games[i], c) == Err(r.error)
  {
    var rs := seq(|games|, i requires 0 <= i < |games| => ColorMax(games[i], c));
    assert forall i :: 0 <= i < |games| ==> rs[i] == ColorMax(games[i], c);
    Column(rs)
  }

  function EntriesOf(rows: seq<Row>): (gs: seq<seq<string>>)
    ensures |gs| == |rows| && forall i :: 0 <= i < |rows| ==> gs[i] == Entries(rows[i].results)
  {
    seq(|rows|, i requires 0 <= i < |rows| => Entries(rows[i].results))
  }

  /** Every row can be cleaned: its label holds a digit, and each colour
      has a readable maximum among its entries. */
  predicate Cleanable(row: Row) {
    && HasDigit(row.header)
    && ColorMax(Entries(row.results), Red).Ok?
    && ColorMax(Entries(row.results), Green).Ok?
    && ColorMax(Entries(row.results), Blue).Ok?
  }

  /** `g` is the cleaned form of `row`. */
  predicate Cleaned(g: GameRecord, row: Row)
    requires HasDigit(row.header)
  {
    && g.id == Count(row.header)
    && g.entries == Entries(row.results)
    && ColorMax(g.entries, Red) == Ok(g.redMax)
    && ColorMax(g.entries, Green) == Ok(g.greenMax)
    && ColorMax(g.entries, Blue) == Ok(g.blueMax)
  }

  /** `clean_data` with the colours red, green, blue in that order. The
      columns are built one after the other, so the first error is the
      first bad label, else the first failing red maximum, and so on. */
  function CleanData(rows: seq<Row>): (r: Result<seq<GameRecord>>)
    ensures r.Ok? ==> |r.value| == |rows|
  {
    var games := EntriesOf(rows);
    match IdColumn(rows)
    case Err(e) => Err(e)
    case Ok(ids) =>
      match MaxColumn(games, Red)
      case Err(e) => Err(e)
      case Ok(reds) =>
        match MaxColumn(games, Green)
        case Err(e) => Err(e)
        case Ok(greens) =>
          match MaxColumn(games, Blue)
          case Err(e) => Err(e)
          case Ok(blues) =>
            Ok(seq(|rows|, i requires 0 <= i < |rows| =>
                 GameRecord(ids[i], games[i], reds[i], greens[i], blues[i])))
  }

  /** Cleaning succeeds exactly when every row can be cleaned, and then
      yields each row's cleaned form, in order. */
  lemma CleanDataSpec(rows: seq<Row>)
    ensures CleanData(rows).Ok? <==> forall i :: 0 <= i < |rows| ==> Cleanable(rows[i])
    ensures CleanData(rows).Ok? ==> forall i :: 0 <= i < |rows| ==> Cleanable(rows[i]) && Cleaned(CleanData(rows).value[i], rows[i])
  {
    var games := EntriesOf(rows);
    var ids, reds := IdColumn(rows), MaxColumn(games, Red);
    var greens, blues := MaxColumn(games, Green), MaxColumn(games, Blue);
    var allOk := ids.Ok? && reds.Ok? && greens.Ok? && blues.Ok?;
    assert CleanData(rows).Ok? <==> allOk;
    if allOk {
      var out := CleanData(rows).value;
      forall i | 0 <= i < |rows|
        ensures Cleanable(rows[i]) && Cleaned(out[i], rows[i])
      {
        assert out[i] == GameRecord(ids.value[i], games[i], reds.value[i], greens.value[i], blues.value[i]);
        assert HasDigit(rows[i].header);
        assert games[i] == Entries(rows[i].results);
      }
    }
  }

  // ---------------------------------------------------------------------
  // Part 1
  // ---------------------------------------------------------------------

  /** The most cubes of each colour the bag may hold. */
  datatype Limits = Limits(red: int, green: int, blue: int)

  const PuzzleLimits := Limits(12, 13, 14)

  function LimitFor(limits: Limits, c: Color): int {
    match c
    case Red => limits.red
    case Green => limits.green
    case Blue => limits.blue
  }

  predicate Possible(g: GameRecord, limits: Limits) {
    forall c: Color :: MaxFor(g, c) <= LimitFor(limits, c)
  }

  /** One boolean-index filter: the games whose maximum of `c` is within
      `limit`, in their original order. */
  function FilterColor(games: seq<GameRecord>, c: Color, limit: int): (kept: seq<GameRecord>)
    ensures |kept| <= |games|
    ensures forall g :: g in kept <==> g in games && MaxFor(g, c) <= limit
    decreases |games|
  {
    if |games| == 0 then []
    else if MaxFor(games[0], c) <= limit then [games[0]] + FilterColor(games[1..], c, limit)
    else FilterColor(games[1..], c, limit)
  }

  /** The filters applied in the order of the limits table: red, green,
      blue. */
  function PossibleGames(games: seq<GameRecord>, limits: Limits): seq<GameRecord> {
    FilterColor(FilterColor(FilterColor(games, Red, limits.red), Green, limits.green), Blue, limits.blue)
  }

  /** The reference: one pass keeping the possible games. */
  function KeepPossible(games: seq<GameRecord>, limits: Limits): (kept: seq<GameRecord>)
    decreases |games|
  {
    if |games| == 0 then []
    else if Possible(games[0], limits) then [games[0]] + KeepPossible(games[1..], limits)
    else KeepPossible(games[1..], limits)
  }

  /** Filtering a list with a known first game. */
  lemma FilterOfCons(g: GameRecord, rest: seq<GameRecord>, c: Color, l: int)
    ensures FilterColor([g] + rest, c, l) == (if MaxFor(g, c) <= l then [g] else []) + FilterColor(rest, c, l)
  {
    assert ([g] + rest)[0] == g && ([g] + rest)[1..] == rest;
  }

  /** Two filters commute. */
  lemma {:induction false} FilterCommute(games: seq<GameRecord>, c: Color, l: int, d: Color, m: int)
    ensures FilterColor(FilterColor(games, c, l), d, m) == FilterColor(FilterColor(games, d, m), c, l)
    decreases |games|
  {
    if |games| > 0 {
      var g, rest := games[0], games[1..];
      assert games == [g] + rest;
      FilterCommute(rest, c, l, d, m);
      FilterOfCons(g, rest, c, l);
      FilterOfCons(g, rest, d, m);
      if MaxFor(g, c) <= l {
        FilterOfCons(g, FilterColor(rest, c, l), d, m);
      }
      if MaxFor(g, d) <= m {
        FilterOfCons(g, FilterColor(rest, d, m), c, l);
      }
    }
  }

  /** The three filters together keep exactly the possible games, in
      order, whatever order they are applied in. */
  lemma {:induction false} PossibleGamesIsKeepPossible(games: seq<GameRecord>, limits: Limits)
    ensures PossibleGames(games, limits) == KeepPossible(games, limits)
    decreases |games|
  {
    if |games| > 0 {
      var g, rest := games[0], games[1..];
      PossibleGamesIsKeepPossible(rest, limits);
      var r1 := FilterColor(games, Red, limits.red);
      if g.redMax <= limits.red {
        assert r1[1..] == FilterColor(rest, Red, limits.red);
        var r2 := FilterColor(r1, Green, limits.green);
        if g.greenMax <= limits.green {
          assert r2[1..] == FilterColor(r1[1..], Green, limits.green);
          var r3 := FilterColor(r2, Blue, limits.blue);
          if g.blueMax <= limits.blue {
            assert r3[1..] == FilterColor(r2[1..], Blue, limits.blue);
            assert Possible(g, limits) by {
              forall c: Color ensures MaxFor(g, c) <= LimitFor(limits, c) {
              }
            }
          } else {
            assert !(MaxFor(g, Blue) <= LimitFor(limits, Blue));
          }
        } else {
          assert !(MaxFor(g, Green) <= LimitFor(limits, Green));
        }
      } else {
        assert !(MaxFor(g, Red) <= LimitFor(limits, Red));
      }
    }
  }

  function SumIds(games: seq<GameRecord>): nat
    decreases |games|
  {
    if |games| == 0 then 0 else games[0].id + SumIds(games[1..])
  }

  /** `day2_part1_sum_possible_games`. */
  function PossibleSum(games: seq<GameRecord>, limits: Limits): nat {
    SumIds(PossibleGames(games, limits))
  }

  /** Membership in Part 1: a game counts exactly when all three of its
      maxima are within their limits. */
  lemma PossibleGamesMembers(games: seq<GameRecord>, limits: Limits, g: GameRecord)
    ensures g in PossibleGames(games, limits) <==>
              g in games && g.redMax <= limits.red && g.greenMax <= limits.green && g.blueMax <= limits.blue
  {
  }

  lemma {:induction false} KeepPossibleBound(games: seq<GameRecord>, limits: Limits)
    ensures SumIds(KeepPossible(games, limits)) <= SumIds(games)
    decreases |games|
  {
    if |games| > 0 {
      KeepPossibleBound(games[1..], limits);
    }
  }

  /** The Part 1 sum never exceeds the sum of all ids. */
  lemma PossibleSumBound(games: seq<GameRecord>, limits: Limits)
    ensures PossibleSum(games, limits) <= SumIds(games)
  {
    PossibleGamesIsKeepPossible(games, limits);
    KeepPossibleBound(games, limits);
  }

  predicate NoTighter(lo: Limits, hi: Limits) {
    lo.red <= hi.red && lo.green <= hi.green && lo.blue <= hi.blue
  }

  lemma {:induction false} KeepPossibleMonotone(games: seq<GameRecord>, lo: Limits, hi: Limits)
    requires NoTighter(lo, hi)
    ensures SumIds(KeepPossible(games, lo)) <= SumIds(KeepPossible(games, hi))
    decreases |games|
  {
    if |games| > 0 {
      KeepPossibleMonotone(games[1..], lo, hi);
      assert Possible(games[0], lo) ==> Possible(games[0], hi);
    }
  }

  /** Raising limits never lowers the Part 1 sum. */
  lemma PossibleSumMonotone(games: seq<GameRecord>, lo: Limits, hi: Limits)
    requires NoTighter(lo, hi)
    ensures PossibleSum(games, lo) <= PossibleSum(games, hi)
  {
    PossibleGamesIsKeepPossible(games, lo);
    PossibleGamesIsKeepPossible(games, hi);
    KeepPossibleMonotone(games, lo, hi);
  }

  // ---------------------------------------------------------------------
  // Part 2
  // ---------------------------------------------------------------------

  /** The power of a game: the product of its three maxima. */
  function Power(g: GameRecord): nat {
    g.redMax * g.greenMax * g.blueMax
  }

  function PowerSum(games: seq<GameRecord>): nat
    decreases |games|
  {
    if |games| == 0 then 0 else Power(games[0]) + PowerSum(games[1..])
  }

  lemma {:induction false} PowerSumAppend(a: seq<GameRecord>, b: seq<GameRecord>)
    ensures PowerSum(a + b) == PowerSum(a) + PowerSum(b)
    decreases |a|
  {
    if |a| == 0 {
      assert a + b == b;
    } else {
      assert (a + b)[0] == a[0];
      assert (a + b)[1..] == a[1..] + b;
      PowerSumAppend(a[1..], b);
    }
  }

  /** `day2_part2_sum_power`: the column of powers, summed front to back. */
  method SumPower(games: seq<GameRecord>) returns (total: nat)
    ensures total == PowerSum(games)
  {
    total := 0;
    var i := 0;
    while i < |games|
      invariant 0 <= i <= |games|
      invariant total == PowerSum(games[..i])
    {
      PowerSumAppend(games[..i], [games[i]]);
      assert games[..i + 1] == games[..i] + [games[i]];
      total := total + Power(games[i]);
      i := i + 1;
    }
    assert games[..i] == games;
  }
}

/** The first game of the puzzle text, cleaned and scored through the
    model: its row is read into entries, each entry into a count and a
    colour, and the maxima, power and possibility follow. */
module CubeGameExample {
  import opened Text
  import opened Results
  import opened CubeGame

  /** The first game's text, " 3 blue, 4 red; 1 red, 2 green, 6 blue;
      2 green", written entry by entry as `Shown` pieces. */
  const GameOneText := Shown(" ", 3, Blue) + ", " + (Shown("", 4, Red) + "; " + (Shown("", 1, Red) + ", "
    + (Shown("", 2, Green) + ", " + (Shown("", 6, Blue) + "; " + Shown("", 2, Green)))))

  /** The entries of the first game, in order. */
  const GameOneList := ShownList([" ", "", "", "", "", ""], [3, 4, 1, 2, 6, 2], [Blue, Red, Red, Green, Blue, Green])

  /** An entry text holds no separator. */
  lemma ShownPlain(lead: string, n: nat, c: Color)
    requires forall i :: 0 <= i < |lead| ==> lead[i] == ' '
    ensures ';' !in Shown(lead, n, c) && ',' !in Shown(lead, n, c)
  {
    NameLetters(c);
    assert forall i :: 0 <= i < |Show(n)| ==> Show(n)[i] != ';' && Show(n)[i] != ',';
    assert ';' !in Name(c) && ',' !in Name(c) by {
      match c
      case Red =>
      case Green =>
      case Blue =>
    }
  }

  /** An entry without separators in front of a text, after either kind
      of boundary, is split off as the first entry. */
  lemma EntriesFront(a: string, b: string, es: seq<string>)
    requires ';' !in a && ',' !in a && Entries(b) == es
    ensures Entries(a + ", " + b) == [a] + es
    ensures Entries(a + "; " + b) == [a] + es
  {
    DrawBoundaries(a, b);
    EntriesSingle(a);
  }

  /** Six single-element lists in front of one another. */
  lemma SixCons<T>(a: T, b: T, c: T, d: T, e: T, f: T)
    ensures [a] + ([b] + ([c] + ([d] + [e, f]))) == [a, b, c, d, e, f]
  {
  }

  /** A list of six is the display of its elements. */
  lemma SixElements<T>(s: seq<T>)
    requires |s| == 6
    ensures [s[0], s[1], s[2], s[3], s[4], s[5]] == s
  {
  }

  /** Six separator-free entries written as three draws (two entries,
      three entries, one entry) are split back into those six entries. */
  lemma EntriesOfThreeDraws(e: seq<string>)
    requires |e| == 6 && forall i :: 0 <= i < 6 ==> ';' !in e[i] && ',' !in e[i]
    ensures Entries(e[0] + ", " + (e[1] + "; " + (e[2] + ", " + (e[3] + ", " + (e[4] + "; " + e[5]))))) == e
  {
    var t4 := e[4] + "; " + e[5];
    var t3 := e[3] + ", " + t4;
    var t2 := e[2] + ", " + t3;
    var t1 := e[1] + "; " + t2;
    var l4 := [e[4], e[5]];
    var l3 := [e[3]] + l4;
    var l2 := [e[2]] + l3;
    var l1 := [e[1]] + l2;
    assert Entries(t4) == l4 by {
      EntriesSingle(e[5]);
      EntriesFront(e[4], e[5], [e[5]]);
    }
    assert Entries(t3) == l3 by { EntriesFront(e[3], t4, l4); }
    assert Entries(t2) == l2 by { EntriesFront(e[2], t3, l3); }
    assert Entries(t1) == l1 by { EntriesFront(e[1], t2, l2); }
    EntriesFront(e[0], t1, l1);
    SixCons(e[0], e[1], e[2], e[3], e[4], e[5]);
    SixElements(e);
  }

  /** The entries of the first game: its draws' entries, one after the
      other. */
  lemma GameOneEntries()
    ensures Entries(GameOneText) == GameOneList
  {
    var leads := [" ", "", "", "", "", ""];
    var ns: seq<nat> := [3, 4, 1, 2, 6, 2];
    var cs := [Blue, Red, Red, Green, Blue, Green];
    var e := GameOneList;
    forall i | 0 <= i < 6
      ensures ';' !in e[i] && ',' !in e[i]
    {
      ShownPlain(leads[i], ns[i], cs[i]);
    }
    EntriesOfThreeDraws(e);
  }

  /** Each colour's count list in the first game. */
  lemma GameOneCounts(c: Color)
    ensures Counts(Entries(GameOneText), c) == Ok(Matching([3, 4, 1, 2, 6, 2], [Blue, Red, Red, Green, Blue, Green], c))
  {
    GameOneEntries();
    ReadShownList([" ", "", "", "", "", ""], [3, 4, 1, 2, 6, 2], [Blue, Red, Red, Green, Blue, Green], c);
  }

  /** The first game's largest red count is 4, of the counts 4 and 1. */
  lemma GameOneRed()
    ensures ColorMax(Entries(GameOneText), Red) == Ok(4)
  {
    GameOneCounts(Red);
    assert Matching([3, 4, 1, 2, 6, 2], [Blue, Red, Red, Green, Blue, Green], Red) == [4, 1];
  }

  /** The first game's largest green count is 2, of the counts 2 and 2. */
  lemma GameOneGreen()
    ensures ColorMax(Entries(GameOneText), Green) == Ok(2)
  {
    GameOneCounts(Green);
    assert Matching([3, 4, 1, 2, 6, 2], [Blue, Red, Red, Green, Blue, Green], Green) == [2, 2];
  }

  /** The first game's largest blue count is 6, of the counts 3 and 6. */
  lemma GameOneBlue()
    ensures ColorMax(Entries(GameOneText), Blue) == Ok(6)
  {
    GameOneCounts(Blue);
    assert Matching([3, 4, 1, 2, 6, 2], [Blue, Red, Red, Green, Blue, Green], Blue) == [3, 6];
  }

  lemma ExtractGameOne()
    ensures ExtractNumber("Game 1") == Ok(1)
  {
    assert "Game " + "1" + "" == "Game 1";
    ExtractBetween("Game ", "1", "");
    assert "1"[..0] == [];
  }

  /** Cleaning a single row that can be cleaned yields its record. */
  lemma CleanSingle(row: Row, id: nat, r: nat, g: nat, b: nat)
    requires ExtractNumber(row.header) == Ok(id)
    requires ColorMax(Entries(row.results), Red) == Ok(r)
    requires ColorMax(Entries(row.results), Green) == Ok(g)
    requires ColorMax(Entries(row.results), Blue) == Ok(b)
    ensures CleanData([row]) == Ok([GameRecord(id, Entries(row.results), r, g, b)])
  {
    assert Cleanable(row);
    CleanDataSpec([row]);
    var out := CleanData([row]).value;
    assert Cleaned(out[0], row);
    assert out[0] == GameRecord(id, Entries(row.results), r, g, b);
    assert out == [out[0]];
  }

  /** The first game's record: id 1, maxima 4 red, 2 green and 6 blue. */
  const GameOneRecord := GameRecord(1, Entries(GameOneText), 4, 2, 6)

  /** The first game's row cleans to its record. */
  lemma ExampleGameOne()
    ensures CleanData([Row("Game 1", GameOneText)]) == Ok([GameOneRecord])
  {
    GameOneRed();
    GameOneGreen();
    GameOneBlue();
    ExtractGameOne();
    CleanSingle(Row("Game 1", GameOneText), 1, 4, 2, 6);
  }

  /** The first game has power 48 and is possible within the limits 12,
      13 and 14. */
  lemma GameOneScore()
    ensures Power(GameOneRecord) == 48
    ensures Possible(GameOneRecord, PuzzleLimits)
    ensures PossibleSum([GameOneRecord], PuzzleLimits) == 1
  {
    var g := GameOneRecord;
    assert Possible(g, PuzzleLimits) by {
      assert forall c: Color :: MaxFor(g, c) <= LimitFor(PuzzleLimits, c);
    }
    PossibleGamesIsKeepPossible([g], PuzzleLimits);
    assert [g][1..] == [];
    assert KeepPossible([g], PuzzleLimits) == [g];
    assert SumIds([g]) == g.id + SumIds([]);
  }
}
