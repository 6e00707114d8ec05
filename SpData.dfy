/** `transform_sp_data`: the S&P 500 minute export carries its dates as
    `YYYYMMDD`; every cell of the `Date` column is read with
    `datetime.strptime(str(cell), '%Y%m%d')` and written back as
    `date.isoformat()`, `YYYY-MM-DD`, in place, row by row. The first cell
    strptime refuses raises ValueError and ends the function. */
module SpData {
  import opened Wrappers
  import opened Calendar
  import opened Tables

  // ---------------------------------------------------------------------------
  // datetime.strptime(s, '%Y%m%d')
  // ---------------------------------------------------------------------------

  /** Why strptime refuses a string: the pattern does not match its start,
      characters are left over after the match, or the matched numbers are no
      date (`datetime.date` raises). All three are ValueError in Python. */
  datatype StrptimeError = NoMatch | UnconvertedData | DateOutOfRange

  /** The `%m` alternatives `1[0-2]` and `0[1-9]`, which take two
      characters, match at position 4. */
  predicate TwoDigitMonth(s: string) {
    |s| >= 6 && ((s[4] == '1' && '0' <= s[5] <= '2') || (s[4] == '0' && '1' <= s[5] <= '9'))
  }

  /** The last `%m` alternative, `[1-9]`, matches at position 4. */
  predicate OneDigitMonth(s: string) {
    |s| >= 5 && '1' <= s[4] <= '9'
  }

  /** The two-character `%d` alternatives `3[01]`, `[12]\d` and `0[1-9]`
      match `s` at `i`. */
  predicate TwoDigitDay(s: string, i: nat) {
    i + 2 <= |s| && ((s[i] == '3' && (s[i + 1] == '0' || s[i + 1] == '1'))
                     || ((s[i] == '1' || s[i] == '2') && IsDigit(s[i + 1]))
                     || (s[i] == '0' && '1' <= s[i + 1] <= '9'))
  }

  /** The `%d` alternative `[1-9]` matches `s` at `i`. */
  predicate OneDigitDay(s: string, i: nat) {
    i + 1 <= |s| && '1' <= s[i] <= '9'
  }

  /** The last `%d` alternative, ` [1-9]` (a blank, then a digit), matches
      `s` at `i`. */
  predicate BlankDay(s: string, i: nat) {
    i + 2 <= |s| && s[i] == ' ' && '1' <= s[i + 1] <= '9'
  }

  /** The length of the first alternative of the `%d` pattern
      `3[01]|[12]\d|0[1-9]|[1-9]| [1-9]` that matches `s` at `i`. */
  function DayAt(s: string, i: nat): (r: Option<nat>)
    ensures r.None? <==> !TwoDigitDay(s, i) && !OneDigitDay(s, i) && !BlankDay(s, i)
    ensures TwoDigitDay(s, i) ==> r == Some(2)
    ensures !TwoDigitDay(s, i) && OneDigitDay(s, i) ==> r == Some(1)
    ensures !TwoDigitDay(s, i) && !OneDigitDay(s, i) && BlankDay(s, i) ==> r == Some(2)
    ensures r.Some? ==> 1 <= r.value <= 2 && i + r.value <= |s|
  {
    if TwoDigitDay(s, i) then Some(2)
    else if OneDigitDay(s, i) then Some(1)
    else if BlankDay(s, i) then Some(2)
    else None
  }

  /** `re.match` of the compiled `%Y%m%d` pattern: four digits, then the
      month and day lengths of the first way, in backtracking order, in which
      `%m%d` matches. The match is not anchored at the end of the string. */
  function MatchYmd(s: string): (r: Option<(nat, nat)>)
    ensures r.Some? ==> 4 + r.value.0 + r.value.1 <= |s| && AllDigits(s[..4])
    ensures r.Some? ==> (r.value.0 == 2 && TwoDigitMonth(s)) || (r.value.0 == 1 && OneDigitMonth(s))
    ensures r.Some? ==> DayAt(s, 4 + r.value.0) == Some(r.value.1)
    ensures r.None? <==>
      || |s| < 4 || !AllDigits(s[..4])
      || (!(TwoDigitMonth(s) && DayAt(s, 6).Some?) && !(OneDigitMonth(s) && DayAt(s, 5).Some?))
    ensures |s| >= 4 && AllDigits(s[..4]) && TwoDigitMonth(s) && DayAt(s, 6).Some? ==>
      r == Some((2, DayAt(s, 6).value))
    ensures |s| >= 4 && AllDigits(s[..4]) && !(TwoDigitMonth(s) && DayAt(s, 6).Some?)
            && OneDigitMonth(s) && DayAt(s, 5).Some? ==>
      r == Some((1, DayAt(s, 5).value))
  {
    if |s| < 4 || !AllDigits(s[..4]) then None
    else if TwoDigitMonth(s) && DayAt(s, 6).Some? then Some((2, DayAt(s, 6).value))
    else if OneDigitMonth(s) && DayAt(s, 5).Some? then Some((1, DayAt(s, 5).value))
    else None
  }

  /** `int()` of the matched day text; `int` ignores the leading blank of
      the ` [1-9]` alternative. */
  function DayValue(s: string, i: nat): (d: nat)
    requires DayAt(s, i).Some?
    ensures 1 <= d <= 39
    ensures s[i] != ' ' ==> AllDigits(s[i..i + DayAt(s, i).value]) && d == ParseNat(s[i..i + DayAt(s, i).value])
    ensures s[i] == ' ' ==> AllDigits(s[i + 1..i + 2]) && d == ParseNat(s[i + 1..i + 2])
  {
    if s[i] == ' ' then
      ParseShort(s[i + 1..i + 2]);
      DigitValue(s[i + 1])
    else if DayAt(s, i) == Some(1) then
      ParseShort(s[i..i + 1]);
      DigitValue(s[i])
    else
      ParseShort(s[i..i + 2]);
      10 * DigitValue(s[i]) + DigitValue(s[i + 1])
  }

  /** The value of a one- or two-digit string. */
  lemma ParseShort(t: string)
    requires 1 <= |t| <= 2 && AllDigits(t)
    ensures ParseNat(t) == if |t| == 1 then DigitValue(t[0]) else 10 * DigitValue(t[0]) + DigitValue(t[1])
  {
    assert t[..0] == [] && t[..|t| - 1][..0] == [];
  }

  /** `datetime.strptime(s, '%Y%m%d').date()`. */
  function Strptime(s: string): (r: Result<Date, StrptimeError>)
    ensures r.Success? ==> ValidDate(r.value)
  {
    match MatchYmd(s)
    case None => Failure(NoMatch)
    case Some((m, dl)) =>
      if 4 + m + dl != |s| then Failure(UnconvertedData)
      else
        var month := if m == 1 then DigitValue(s[4]) else 10 * DigitValue(s[4]) + DigitValue(s[5]);
        var date := Date(ParseNat(s[..4]), month, DayValue(s, 4 + m));
        if ValidDate(date) then Success(date) else Failure(DateOutOfRange)
  }

  /** The loop body's conversion: strptime, then `isoformat()`. */
  function Reformat(s: string): (r: Result<string, StrptimeError>)
    ensures r.Success? ==> |r.value| == 10 && r.value[4] == '-' && r.value[7] == '-'
  {
    var d :- Strptime(s);
    Success(IsoDate(d))
  }

  // ---------------------------------------------------------------------------
  // What the conversion does
  // ---------------------------------------------------------------------------

  /** The plain split of an eight-character `YYYYMMDD` string. */
  function SplitYmd(s: string): (d: Date)
    requires |s| == 8 && AllDigits(s)
    ensures d.year < 10000 && d.month < 100 && d.day < 100
  {
    DigitsSlice(s, 0, 4);
    DigitsSlice(s, 4, 6);
    DigitsSlice(s, 6, 8);
    Date(ParseNat(s[..4]), ParseNat(s[4..6]), ParseNat(s[6..]))
  }

  /** On eight digits strptime reads exactly the `YYYY`/`MM`/`DD` split: it
      succeeds precisely when that split is a date, and then returns it. */
  lemma StrptimeEightDigits(s: string)
    requires |s| == 8 && AllDigits(s)
    ensures Strptime(s).Success? <==> ValidDate(SplitYmd(s))
    ensures Strptime(s).Success? ==> Strptime(s).value == SplitYmd(s)
  {
    var d := SplitYmd(s);
    DigitsSlice(s, 4, 6);
    DigitsSlice(s, 6, 8);
    ParseShort(s[4..6]);
    ParseShort(s[6..]);
    assert d.month == 10 * DigitValue(s[4]) + DigitValue(s[5]);
    assert d.day == 10 * DigitValue(s[6]) + DigitValue(s[7]);
    if ValidDate(d) {
      assert MatchYmd(s) == Some((2, 2));
    }
  }

  /** The digits of an ISO date with its dashes removed. */
  function Undashed(s: string): (r: string)
    ensures |r| <= |s|
  {
    if |s| == 0 then []
    else if s[0] == '-' then Undashed(s[1..])
    else [s[0]] + Undashed(s[1..])
  }

  lemma {:induction false} UndashedConcat(a: string, b: string)
    ensures Undashed(a + b) == Undashed(a) + Undashed(b)
  {
    if |a| == 0 {
      assert a + b == b;
    } else {
      assert (a + b)[1..] == a[1..] + b;
      UndashedConcat(a[1..], b);
    }
  }

  lemma {:induction false} UndashedDigits(s: string)
    requires AllDigits(s)
    ensures Undashed(s) == s
  {
    if |s| > 0 {
      UndashedDigits(s[1..]);
    }
  }

  /** The ISO form of the split of eight digits is those digits with
      dashes after the year and the month. */
  lemma IsoOfSplit(s: string)
    requires |s| == 8 && AllDigits(s) && ValidDate(SplitYmd(s))
    ensures IsoDate(SplitYmd(s)) == s[..4] + "-" + s[4..6] + "-" + s[6..]
  {
    var d := SplitYmd(s);
    DigitsSlice(s, 0, 4);
    DigitsSlice(s, 4, 6);
    DigitsSlice(s, 6, 8);
    assert FormatNat(d.year, 4) == s[..4] by { FormatParseNat(s[..4]); }
    assert FormatNat(d.month, 2) == s[4..6] by { FormatParseNat(s[4..6]); }
    assert FormatNat(d.day, 2) == s[6..] by { FormatParseNat(s[6..]); }
  }

  lemma UndashedDash(x: string)
    ensures Undashed("-" + x) == Undashed(x)
  {
    assert ("-" + x)[0] == '-' && ("-" + x)[1..] == x;
  }

  /** Removing the dashes of `y-m-d` leaves the digits of its parts. */
  lemma UndashedIso(y: string, m: string, d: string)
    requires AllDigits(y) && AllDigits(m) && AllDigits(d)
    ensures Undashed(y + "-" + m + "-" + d) == y + m + d
  {
    var ym := y + "-" + m;
    assert y + "-" + m + "-" + d == ym + ("-" + d);
    assert ym == y + ("-" + m);
    UndashedConcat(ym, "-" + d);
    UndashedConcat(y, "-" + m);
    UndashedDash(m);
    UndashedDash(d);
    UndashedDigits(y);
    UndashedDigits(m);
    UndashedDigits(d);
  }

  /** Every eight-digit date strptime accepts is rewritten as its own digits
      with dashes after the year and the month; removing the dashes gives the
      cell back. */
  lemma ReformatEightDigits(s: string)
    requires |s| == 8 && AllDigits(s)
    ensures Reformat(s).Success? <==> ValidDate(SplitYmd(s))
    ensures Reformat(s).Success? ==> Reformat(s).value == s[..4] + "-" + s[4..6] + "-" + s[6..]
    ensures Reformat(s).Success? ==> Undashed(Reformat(s).value) == s
  {
    StrptimeEightDigits(s);
    if ValidDate(SplitYmd(s)) {
      IsoOfSplit(s);
      DigitsSlice(s, 0, 4);
      DigitsSlice(s, 4, 6);
      DigitsSlice(s, 6, 8);
      UndashedIso(s[..4], s[4..6], s[6..]);
      assert s[..4] + s[4..6] + s[6..] == s;
    }
  }

  /** strptime reads the year from the first four characters. */
  lemma StrptimeYear(s: string)
    requires Strptime(s).Success?
    ensures |s| >= 4 && AllDigits(s[..4]) && Strptime(s).value.year == ParseNat(s[..4])
  {
  }

  /** The ISO form of a date whose year is read from four digits starts with
      those digits. */
  lemma IsoYear(y: string, d: Date)
    requires |y| == 4 && AllDigits(y) && ValidDate(d) && d.year == ParseNat(y)
    ensures IsoDate(d)[..4] == y
  {
    FormatParseNat(y);
    FormatParseNat(IsoDate(d)[..4]);
  }

  /** Every accepted cell keeps its four year digits in front. */
  lemma ReformatKeepsYear(s: string)
    requires Reformat(s).Success?
    ensures Reformat(s).value[..4] == s[..4]
  {
    StrptimeYear(s);
    IsoYear(s[..4], Strptime(s).value);
  }

  lemma YearDigits()
    ensures ParseNat("2021") == 2021
  {
    assert "2021"[..3] == "202" && "202"[..2] == "20" && "20"[..1] == "2";
  }

  /** strptime's lenient reading of short forms: one-digit months and days
      are accepted, so a seven-character cell becomes a full ISO date. */
  lemma ShortFormAccepted()
    ensures Reformat("2021611") == Success("2021-06-11")
  {
    ShortFormParsed();
    IsoOfShortForm();
  }

  lemma ShortFormParsed()
    ensures Strptime("2021611") == Success(Date(2021, 6, 11))
  {
    assert MatchYmd("2021611") == Some((1, 2));
    assert "2021611"[..4] == "2021";
    YearDigits();
  }

  lemma IsoOfShortForm()
    ensures IsoDate(Date(2021, 6, 11)) == "2021-06-11"
  {
    YearWritten();
    MonthDayWritten();
  }

  lemma YearWritten()
    ensures FormatNat(2021, 4) == "2021"
  {
    YearDigits();
    FormatParseNat("2021");
  }

  lemma MonthDayWritten()
    ensures FormatNat(6, 2) == "06" && FormatNat(11, 2) == "11"
  {
    MonthWritten();
    DayWritten();
  }

  lemma MonthWritten()
    ensures FormatNat(6, 2) == "06"
  {
    ParseShort("06");
    FormatParseNat("06");
  }

  lemma DayWritten()
    ensures FormatNat(11, 2) == "11"
  {
    ParseShort("11");
    FormatParseNat("11");
  }

  /** A day the month does not have is refused. */
  lemma MissingDayRefused()
    ensures Reformat("20210230") == Failure(DateOutOfRange)
  {
    var s := "20210230";
    assert MatchYmd(s) == Some((2, 2));
    assert DigitValue(s[4]) == 0 && DigitValue(s[5]) == 2 && DayValue(s, 6) == 30;
    NoThirtiethOfFebruary(ParseNat(s[..4]));
  }

  lemma NoThirtiethOfFebruary(year: nat)
    ensures !ValidDate(Date(year, 2, 30))
  {
  }

  /** A character after a complete match is refused. */
  lemma TrailingCharacterRefused()
    ensures Reformat("202101011") == Failure(UnconvertedData)
  {
    assert MatchYmd("202101011") == Some((2, 2));
  }

  /** A date that is already in ISO form does not match `%Y%m%d`. */
  lemma IsoFormRefused()
    ensures Reformat("2021-06-01") == Failure(NoMatch)
  {
    assert "2021-06-01"[4] == '-';
  }

  /** Whatever strptime accepted came from six to eight characters: four
      year digits, a month of one or two and a day of one or two. */
  lemma AcceptedLength(s: string)
    requires Strptime(s).Success?
    ensures 6 <= |s| <= 8
  {
  }

  // ---------------------------------------------------------------------------
  // The loop over the `Date` column
  // ---------------------------------------------------------------------------

  /** Why `transform_sp_data` stops: the table has no `Date` column
      (AttributeError on `data_df.Date`), or the cell of row `row` is refused
      by strptime (ValueError). */
  datatype SpError = NoDateColumn | BadDate(row: nat, cell: string, reason: StrptimeError)

  /** What the loop does to one cell: strptime and `isoformat()` in this
      model, any converter in the row-level lemmas. */
  type Converter = string -> Result<string, StrptimeError>

  /** Row `row` with its cell `k` rewritten. */
  function RewriteRow(row: seq<string>, k: nat, conv: Converter): (r: seq<string>)
    requires k < |row| && conv(row[k]).Success?
    ensures |r| == |row| && r[k] == conv(row[k]).value
    ensures forall c :: 0 <= c < |row| && c != k ==> r[c] == row[c]
  {
    row[k := conv(row[k]).value]
  }

  /** The rows after the loop: every cell `k` rewritten, or the error for the
      first row (counting from `base`) whose cell the converter refuses. */
  function ConvertRows(rows: seq<seq<string>>, k: nat, base: nat, conv: Converter): (r: Result<seq<seq<string>>, SpError>)
    requires forall j :: 0 <= j < |rows| ==> k < |rows[j]|
    ensures r.Success? ==> |r.value| == |rows|
    ensures r.Failure? ==>
      && r.error.BadDate? && base <= r.error.row < base + |rows|
      && r.error.cell == rows[r.error.row - base][k] && conv(r.error.cell) == Failure(r.error.reason)
    decreases |rows|
  {
    if |rows| == 0 then Success([])
    else match conv(rows[0][k])
      case Failure(why) => Failure(BadDate(base, rows[0][k], why))
      case Success(_) =>
        var rest :- ConvertRows(rows[1..], k, base + 1, conv);
        Success([RewriteRow(rows[0], k, conv)] + rest)
  }

  /** The loop succeeds exactly when every cell `k` is accepted; then each
      row has that cell rewritten, its other cells and the number of rows
      unchanged. */
  lemma {:induction false} ConvertRowsSuccess(rows: seq<seq<string>>, k: nat, base: nat, conv: Converter)
    requires forall j :: 0 <= j < |rows| ==> k < |rows[j]|
    ensures ConvertRows(rows, k, base, conv).Success? <==>
      forall j :: 0 <= j < |rows| ==> conv(rows[j][k]).Success?
    ensures ConvertRows(rows, k, base, conv).Success? ==>
      var out := ConvertRows(rows, k, base, conv).value;
      && |out| == |rows|
      && forall j :: 0 <= j < |rows| ==> out[j] == RewriteRow(rows[j], k, conv)
    decreases |rows|
  {
    if |rows| > 0 {
      ConvertRowsSuccess(rows[1..], k, base + 1, conv);
      assert forall j :: 1 <= j < |rows| ==> rows[1..][j - 1] == rows[j];
      if conv(rows[0][k]).Success? && ConvertRows(rows[1..], k, base + 1, conv).Success? {
        var out := ConvertRows(rows, k, base, conv).value;
        assert forall j :: 1 <= j < |rows| ==> out[j] == ConvertRows(rows[1..], k, base + 1, conv).value[j - 1];
      }
    }
  }

  /** The loop stops at the first refused cell, and the error names that
      row, the cell and the converter's reason. */
  lemma {:induction false} ConvertRowsFirstBad(rows: seq<seq<string>>, k: nat, base: nat, conv: Converter, i: nat)
    requires forall j :: 0 <= j < |rows| ==> k < |rows[j]|
    requires i < |rows| && conv(rows[i][k]).Failure?
    requires forall j :: 0 <= j < i ==> conv(rows[j][k]).Success?
    ensures ConvertRows(rows, k, base, conv) == Failure(BadDate(base + i, rows[i][k], conv(rows[i][k]).error))
    decreases i
  {
    if i > 0 {
      assert forall j :: 0 <= j < i - 1 ==> rows[1..][j] == rows[j + 1];
      ConvertRowsFirstBad(rows[1..], k, base + 1, conv, i - 1);
    }
  }

  /** `transform_sp_data` minus the file I/O and the progress print: find the
      `Date` column, then rewrite its cells. */
  method TransformSpData(header: seq<string>, rows: array<seq<string>>) returns (r: Result<(), SpError>)
    requires forall j :: 0 <= j < rows.Length ==> |rows[j]| == |header|
    modifies rows
    ensures "Date" !in header ==> r == Failure(NoDateColumn) && rows[..] == old(rows[..])
    ensures "Date" in header ==>
      var k := IndexOf(header, "Date").value;
      && (r.Success? <==> ConvertRows(old(rows[..]), k, 0, Reformat).Success?)
      && (r.Success? ==> rows[..] == ConvertRows(old(rows[..]), k, 0, Reformat).value)
      && (r.Failure? ==> r.error == ConvertRows(old(rows[..]), k, 0, Reformat).error)
  {
    var col := IndexOf(header, "Date");
    if col.None? {
      return Failure(NoDateColumn);
    }
    r := ReformatColumn(rows, col.value, Reformat);
  }

  /** The loop over the `Date` column (index `k`), with the cell conversion
      `conv`: rewrite the cells from the first row on. On an error the rows
      before the refused one have already been rewritten, the rest are
      untouched. */
  method ReformatColumn(rows: array<seq<string>>, k: nat, conv: Converter) returns (r: Result<(), SpError>)
    requires forall j :: 0 <= j < rows.Length ==> k < |rows[j]|
    modifies rows
    ensures r.Success? <==> ConvertRows(old(rows[..]), k, 0, conv).Success?
    ensures r.Success? ==> rows[..] == ConvertRows(old(rows[..]), k, 0, conv).value
    ensures r.Failure? ==>
      && r.error == ConvertRows(old(rows[..]), k, 0, conv).error
      && r.error.BadDate? && r.error.row < rows.Length
      && (forall j :: 0 <= j < r.error.row ==>
            conv(old(rows[j])[k]).Success? && rows[j] == RewriteRow(old(rows[j]), k, conv))
      && (forall j :: r.error.row <= j < rows.Length ==> rows[j] == old(rows[j]))
  {
    ghost var before := rows[..];
    var i := 0;
    while i < rows.Length
      invariant 0 <= i <= rows.Length
      invariant forall j :: 0 <= j < i ==> conv(before[j][k]).Success? && rows[j] == RewriteRow(before[j], k, conv)
      invariant forall j :: i <= j < rows.Length ==> rows[j] == before[j]
    {
      var cell := rows[i][k];
      var iso := conv(cell);
      if iso.Failure? {
        ConvertRowsFirstBad(before, k, 0, conv, i);
        return Failure(BadDate(i, cell, iso.error));
      }
      rows[i] := rows[i][k := iso.value];
      i := i + 1;
    }
    ConvertRowsSuccess(before, k, 0, conv);
    assert rows[..] == ConvertRows(before, k, 0, conv).value;
    r := Success(());
  }
}
