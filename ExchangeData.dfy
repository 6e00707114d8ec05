/** `transform_exchange_data`: a vendor minute-candle export
    (`unix, date, symbol, open, high, low, close, Volume <base>, Volume USDT,
    tradecount`, newest row first) becomes the backtest feed layout
    (`Date, Time, open, high, low, close, Volume <base>`, oldest row first).
    Reading and writing the CSV files is not modelled: the transform is a
    function from the table pandas reads to the table it writes, or to the
    exception that stops it. */
module ExchangeData {
  import opened Wrappers
  import opened Calendar
  import opened Tables

  // ---------------------------------------------------------------------------
  // Timestamps, as `pd.to_datetime` reads the combined `date` cell
  // ---------------------------------------------------------------------------

  datatype Timestamp = Timestamp(date: Date, hour: nat, minute: nat, second: nat)

  /** Chronological order of timestamps. */
  predicate Earlier(a: Timestamp, b: Timestamp) {
    if a.date.year != b.date.year then a.date.year < b.date.year
    else if a.date.month != b.date.month then a.date.month < b.date.month
    else if a.date.day != b.date.day then a.date.day < b.date.day
    else if a.hour != b.hour then a.hour < b.hour
    else if a.minute != b.minute then a.minute < b.minute
    else a.second < b.second
  }

  /** The first and last whole seconds a pandas Timestamp (64-bit nanoseconds
      since 1970) can hold: 1677-09-21 00:12:43.145224193 and
      2262-04-11 23:47:16.854775807, rounded inwards. */
  const FirstStamp := Timestamp(Date(1677, 9, 21), 0, 12, 44)
  const LastStamp := Timestamp(Date(2262, 4, 11), 23, 47, 16)

  predicate ValidTimestamp(ts: Timestamp) {
    && ValidDate(ts.date) && ts.hour < 24 && ts.minute < 60 && ts.second < 60
    && !Earlier(ts, FirstStamp) && !Earlier(LastStamp, ts)
  }

  /** `YYYY-MM-DD HH:MM:SS`, the layout of the vendor's `date` cells. */
  predicate StampLayout(s: string) {
    && |s| == 19 && s[4] == '-' && s[7] == '-' && s[10] == ' ' && s[13] == ':' && s[16] == ':'
    && AllDigits(s[..4]) && AllDigits(s[5..7]) && AllDigits(s[8..10])
    && AllDigits(s[11..13]) && AllDigits(s[14..16]) && AllDigits(s[17..])
  }

  /** The timestamp a `date` cell denotes, or None where `pd.to_datetime`
      raises: a malformed cell, a day the calendar lacks, a time of day out of
      range, or an instant outside the pandas Timestamp range. */
  function ParseTimestamp(s: string): (r: Option<Timestamp>)
    ensures r.Some? <==> StampLayout(s) && ValidTimestamp(Timestamp(
      Date(ParseNat(s[..4]), ParseNat(s[5..7]), ParseNat(s[8..10])),
      ParseNat(s[11..13]), ParseNat(s[14..16]), ParseNat(s[17..])))
    ensures r.Some? ==> ValidTimestamp(r.value)
  {
    if !StampLayout(s) then None
    else
      var ts := Timestamp(Date(ParseNat(s[..4]), ParseNat(s[5..7]), ParseNat(s[8..10])),
                          ParseNat(s[11..13]), ParseNat(s[14..16]), ParseNat(s[17..]));
      if ValidTimestamp(ts) then Some(ts) else None
  }

  /** The `Date` cell written for a timestamp: `str(ts.date())`. */
  function DateCell(ts: Timestamp): (s: string)
    requires ValidTimestamp(ts)
    ensures |s| == 10 && s[4] == '-' && s[7] == '-'
    ensures AllDigits(s[..4]) && AllDigits(s[5..7]) && AllDigits(s[8..])
    ensures ParseNat(s[..4]) == ts.date.year && ParseNat(s[5..7]) == ts.date.month && ParseNat(s[8..]) == ts.date.day
  {
    IsoDate(ts.date)
  }

  /** The `Time` cell written for a timestamp: `str(ts.time())`, `HH:MM:SS`. */
  function TimeCell(ts: Timestamp): (s: string)
    requires ValidTimestamp(ts)
    ensures |s| == 8 && s[2] == ':' && s[5] == ':'
    ensures AllDigits(s[..2]) && AllDigits(s[3..5]) && AllDigits(s[6..])
    ensures ParseNat(s[..2]) == ts.hour && ParseNat(s[3..5]) == ts.minute && ParseNat(s[6..]) == ts.second
  {
    var h, m, sec := FormatNat(ts.hour, 2), FormatNat(ts.minute, 2), FormatNat(ts.second, 2);
    var s := h + ":" + m + ":" + sec;
    assert s[..2] == h && s[3..5] == m && s[6..] == sec;
    s
  }

  /** A digit string is determined by its width and its value. */
  lemma DigitsDetermined(a: string, b: string)
    requires AllDigits(a) && AllDigits(b) && |a| == |b| && ParseNat(a) == ParseNat(b)
    ensures a == b
  {
    FormatParseNat(a);
    FormatParseNat(b);
  }

  /** Splitting a well-formed `date` cell into its `Date` and `Time` cells
      loses nothing: joined with a space they give the cell back. */
  lemma SplitRoundTrip(s: string)
    requires ParseTimestamp(s).Some?
    ensures DateCell(ParseTimestamp(s).value) + " " + TimeCell(ParseTimestamp(s).value) == s
  {
    var ts := ParseTimestamp(s).value;
    var d, t := DateCell(ts), TimeCell(ts);
    DigitsDetermined(d[..4], s[..4]);
    DigitsDetermined(d[5..7], s[5..7]);
    DigitsDetermined(d[8..], s[8..10]);
    DigitsDetermined(t[..2], s[11..13]);
    DigitsDetermined(t[3..5], s[14..16]);
    DigitsDetermined(t[6..], s[17..]);
    var j := d + " " + t;
    forall k | 0 <= k < 19 ensures j[k] == s[k] {
      if k < 10 {
        assert j[k] == d[k];
        if k < 4 { assert d[k] == d[..4][k]; }
        else if 5 <= k < 7 { assert d[k] == d[5..7][k - 5]; }
        else if 8 <= k { assert d[k] == d[8..][k - 8]; }
      } else if k > 10 {
        assert j[k] == t[k - 11];
        if k < 13 { assert t[k - 11] == t[..2][k - 11]; }
        else if 14 <= k < 16 { assert t[k - 11] == t[3..5][k - 14]; }
        else if 17 <= k { assert t[k - 11] == t[6..][k - 17]; }
      }
    }
  }

  /** Parsing the joined `Date` and `Time` cells gives the same timestamp back. */
  lemma SplitReparses(s: string)
    requires ParseTimestamp(s).Some?
    ensures ParseTimestamp(DateCell(ParseTimestamp(s).value) + " " + TimeCell(ParseTimestamp(s).value)) == ParseTimestamp(s)
  {
    SplitRoundTrip(s);
  }

  /** `pd.to_datetime` over a whole column: every cell's timestamp, or the
      error for the first cell (counting from row `base`) that does not parse. */
  function ParseColumn(cells: seq<string>, base: nat): (r: Result<seq<Timestamp>, Error>)
    ensures r.Success? <==> forall i :: 0 <= i < |cells| ==> ParseTimestamp(cells[i]).Some?
    ensures r.Success? ==> |r.value| == |cells|
    ensures r.Success? ==> forall i :: 0 <= i < |cells| ==> Some(r.value[i]) == ParseTimestamp(cells[i])
    ensures r.Failure? ==>
      (exists i :: 0 <= i < |cells| && r.error == Unparseable(base + i, cells[i])
         && ParseTimestamp(cells[i]).None? && forall k :: 0 <= k < i ==> ParseTimestamp(cells[k]).Some?)
    decreases |cells|
  {
    if |cells| == 0 then Success([])
    else match ParseTimestamp(cells[0])
      case None => Failure(Unparseable(base, cells[0]))
      case Some(ts) =>
        match ParseColumn(cells[1..], base + 1)
        case Failure(e) =>
          ghost var j :| 0 <= j < |cells| - 1 && e == Unparseable(base + 1 + j, cells[1..][j])
            && ParseTimestamp(cells[1..][j]).None? && forall k :: 0 <= k < j ==> ParseTimestamp(cells[1..][k]).Some?;
          ParsesShifted(cells, j);
          assert e == Unparseable(base + (j + 1), cells[j + 1]);
          Failure(e)
        case Success(rest) =>
          ParsesShifted(cells, |cells| - 1);
          Success([ts] + rest)
  }

  /** Every parsed timestamp is a valid one. */
  lemma ParsedValid(cells: seq<string>, base: nat)
    requires ParseColumn(cells, base).Success?
    ensures forall i :: 0 <= i < |ParseColumn(cells, base).value| ==> ValidTimestamp(ParseColumn(cells, base).value[i])
  {
    var stamps := ParseColumn(cells, base).value;
    forall i | 0 <= i < |stamps| ensures ValidTimestamp(stamps[i]) {
      assert Some(stamps[i]) == ParseTimestamp(cells[i]);
    }
  }

  /** Cell 0 parses and the first j cells after it parse: so do the first
      j + 1 cells. */
  lemma ParsesShifted(cells: seq<string>, j: nat)
    requires j < |cells| && ParseTimestamp(cells[0]).Some?
    requires forall k :: 0 <= k < j ==> ParseTimestamp(cells[1..][k]).Some?
    ensures forall k :: 0 <= k < j + 1 ==> ParseTimestamp(cells[k]).Some?
  {
    forall k | 0 <= k < j + 1 ensures ParseTimestamp(cells[k]).Some? {
      if k > 0 { assert cells[k] == cells[1..][k - 1]; }
    }
  }

  // ---------------------------------------------------------------------------
  // The transform
  // ---------------------------------------------------------------------------

  /** The vendor columns the feed does not use. */
  const DroppedColumns: seq<string> := ["unix", "symbol", "Volume USDT", "tradecount"]

  /** Inserting x at position 0 and then y at position 1 puts the pair in
      front. */
  lemma InsertedPair<T>(s: seq<T>, once: seq<T>, twice: seq<T>, x: T, y: T)
    requires |once| == |s| + 1 && once[0] == x && once[1..] == s
    requires |twice| == |once| + 1 && twice[..1] == once[..1] && twice[1] == y && twice[2..] == once[1..]
    ensures twice == [x, y] + s
  {
    assert twice[0] == once[0];
  }

  /** The two `insert` calls: `Date` at position 0, then `Time` at position 1,
      each failing if the table already has a column of that name. */
  function InsertDateTime(t: Table, stamps: seq<Timestamp>): (r: Result<Table, Error>)
    requires WellFormed(t) && |stamps| == |t.rows|
    requires forall i :: 0 <= i < |stamps| ==> ValidTimestamp(stamps[i])
    ensures r.Failure? <==> "Date" in t.header || "Time" in t.header
    ensures r.Success? ==> WellFormed(r.value) && r.value.header == ["Date", "Time"] + t.header
    ensures r.Success? ==> |r.value.rows| == |t.rows| && forall i :: 0 <= i < |t.rows| ==>
      r.value.rows[i] == [DateCell(stamps[i]), TimeCell(stamps[i])] + t.rows[i]
  {
    var dates := seq(|stamps|, i requires 0 <= i < |stamps| => DateCell(stamps[i]));
    var withDate :- InsertColumn(t, 0, "Date", dates);
    var times := seq(|stamps|, i requires 0 <= i < |stamps| => TimeCell(stamps[i]));
    var withTime :- InsertColumn(withDate, 1, "Time", times);
    InsertedPair(t.header, withDate.header, withTime.header, "Date", "Time");
    forall i | 0 <= i < |t.rows| ensures withTime.rows[i] == [dates[i], times[i]] + t.rows[i] {
      InsertedPair(t.rows[i], withDate.rows[i], withTime.rows[i], dates[i], times[i]);
    }
    Success(withTime)
  }

  /** The steps after parsing: insert `Date` and `Time` in front, drop
      `date`, reverse the rows. */
  function SplitAndReverse(kept: Table, stamps: seq<Timestamp>): (r: Result<Table, Error>)
    requires WellFormed(kept) && "date" in kept.header && |stamps| == |kept.rows|
    requires forall i :: 0 <= i < |stamps| ==> ValidTimestamp(stamps[i])
    ensures r.Failure? <==> "Date" in kept.header || "Time" in kept.header
    ensures r.Failure? ==> r.error.AlreadyExists?
    ensures r.Success? ==> WellFormed(r.value) && |r.value.rows| == |kept.rows| && |r.value.header| >= 2
  {
    var withDateTime :- InsertDateTime(kept, stamps);
    // `date` is a column here, so this drop cannot fail
    DropDateLeaves(withDateTime);
    Success(ReverseRows(DropColumns(withDateTime, ["date"]).value))
  }

  /** Dropping `date` from a table led by `Date` and `Time` succeeds and
      leaves at least those two columns. */
  lemma DropDateLeaves(w: Table)
    requires WellFormed(w) && "date" in w.header
    requires |w.header| >= 2 && w.header[0] == "Date" && w.header[1] == "Time"
    ensures DropColumns(w, ["date"]).Success? && |DropColumns(w, ["date"]).value.header| >= 2
  {
    DropKeepsLeading(w, ["date"], 2);
  }

  /** The table SplitAndReverse reverses: the one with `Date` and `Time` in
      front and without `date`. */
  lemma SplitUnfold(kept: Table, stamps: seq<Timestamp>)
    requires WellFormed(kept) && "date" in kept.header && |stamps| == |kept.rows|
    requires forall i :: 0 <= i < |stamps| ==> ValidTimestamp(stamps[i])
    requires SplitAndReverse(kept, stamps).Success?
    ensures InsertDateTime(kept, stamps).Success?
    ensures DropColumns(InsertDateTime(kept, stamps).value, ["date"]).Success?
    ensures SplitAndReverse(kept, stamps).value ==
      ReverseRows(DropColumns(InsertDateTime(kept, stamps).value, ["date"]).value)
  {
  }

  /** Dropping `date` from a table that starts with `Date` and `Time` keeps
      those two in front, with their cells. */
  lemma DropDateKeepsFront(w: Table)
    requires WellFormed(w) && "date" in w.header
    requires |w.header| >= 2 && w.header[0] == "Date" && w.header[1] == "Time"
    ensures DropColumns(w, ["date"]).Success?
    ensures DropColumns(w, ["date"]).value.header[..2] == ["Date", "Time"]
    ensures forall j :: 0 <= j < |w.rows| ==>
      DropColumns(w, ["date"]).value.rows[j][..2] == w.rows[j][..2]
    ensures forall x :: x in DropColumns(w, ["date"]).value.header <==> x in w.header && x != "date"
  {
    DropKeepsLeading(w, ["date"], 2);
    DropColumnsMembers(w, ["date"]);
    var d := DropColumns(w, ["date"]).value;
    forall j | 0 <= j < |w.rows| ensures d.rows[j][..2] == w.rows[j][..2] {
      assert d.header[0] == w.header[0] && d.header[1] == w.header[1];
      assert d.rows[j][0] == w.rows[j][0] && d.rows[j][1] == w.rows[j][1];
    }
  }

  /** After the split, `Date` and `Time` lead and the other columns are the
      earlier ones except `date`. */
  lemma SplitHeader(kept: Table, stamps: seq<Timestamp>)
    requires WellFormed(kept) && "date" in kept.header && |stamps| == |kept.rows|
    requires forall i :: 0 <= i < |stamps| ==> ValidTimestamp(stamps[i])
    requires SplitAndReverse(kept, stamps).Success?
    ensures SplitAndReverse(kept, stamps).value.header[..2] == ["Date", "Time"]
    ensures forall x :: x in SplitAndReverse(kept, stamps).value.header[2..] <==> x in kept.header && x != "date"
  {
    SplitUnfold(kept, stamps);
    SplitHeaderOf(InsertDateTime(kept, stamps).value, kept.header, SplitAndReverse(kept, stamps).value);
  }

  /** Dropping `date` from `["Date", "Time"] + kh` and reversing leaves
      `Date` and `Time` in front of the names of kh other than `date`. */
  lemma SplitHeaderOf(w: Table, kh: seq<string>, o: Table)
    requires WellFormed(w) && "date" in w.header && w.header == ["Date", "Time"] + kh
    requires DropColumns(w, ["date"]).Success? && o == ReverseRows(DropColumns(w, ["date"]).value)
    ensures |o.header| >= 2 && o.header[..2] == ["Date", "Time"]
    ensures forall x :: x in o.header[2..] <==> x in kh && x != "date"
  {
    DropDateKeepsFront(w);
    var h := o.header;
    assert WellFormed(o);
    AfterFirstTwo(h, "Date", "Time");
    assert w.header[2..] == kh;
    assert "Date" !in kh && "Time" !in kh by {
      AfterFirstTwo(w.header, "Date", "Time");
    }
    forall x ensures x in h[2..] <==> x in kh && x != "date" {
      assert x in w.header <==> x == "Date" || x == "Time" || x in kh;
    }
  }

  /** Output row i begins with the `Date` and `Time` cells of the timestamp
      of input row n-1-i. */
  lemma SplitLeadingCells(kept: Table, stamps: seq<Timestamp>, i: nat)
    requires WellFormed(kept) && "date" in kept.header && |stamps| == |kept.rows|
    requires forall i :: 0 <= i < |stamps| ==> ValidTimestamp(stamps[i])
    requires SplitAndReverse(kept, stamps).Success? && i < |kept.rows|
    ensures SplitAndReverse(kept, stamps).value.rows[i][0] == DateCell(stamps[|kept.rows| - 1 - i])
    ensures SplitAndReverse(kept, stamps).value.rows[i][1] == TimeCell(stamps[|kept.rows| - 1 - i])
  {
    SplitUnfold(kept, stamps);
    var w := InsertDateTime(kept, stamps).value;
    var j := |kept.rows| - 1 - i;
    var x, y := DateCell(stamps[j]), TimeCell(stamps[j]);
    assert |w.rows[j]| >= 2 && w.rows[j][0] == x && w.rows[j][1] == y by {
      PairFront(w.rows[j], x, y, kept.rows[j]);
    }
    DropFront(w, j, x, y);
    var d := DropColumns(w, ["date"]).value;
    assert |d.rows| == |kept.rows|;
    ReversedLeading(d, SplitAndReverse(kept, stamps).value, i, j, x, y);
  }

  /** A row `[x, y] + rest` starts with x and y. */
  lemma PairFront(r: seq<string>, x: string, y: string, rest: seq<string>)
    requires r == [x, y] + rest
    ensures |r| >= 2 && r[0] == x && r[1] == y
  {
  }

  /** Row i of the reversed table starts like row n-1-i of the table. */
  lemma ReversedLeading(t: Table, o: Table, i: nat, j: nat, x: string, y: string)
    requires o == ReverseRows(t) && i < |t.rows| && j == |t.rows| - 1 - i && |t.rows[j]| >= 2
    requires t.rows[j][0] == x && t.rows[j][1] == y
    ensures o.rows[i][0] == x && o.rows[i][1] == y
  {
  }

  /** Dropping `date` from a table led by `Date` and `Time` keeps the first
      two cells of every row. */
  lemma DropFront(w: Table, j: nat, x: string, y: string)
    requires WellFormed(w) && "date" in w.header
    requires |w.header| >= 2 && w.header[0] == "Date" && w.header[1] == "Time"
    requires j < |w.rows| && |w.rows[j]| >= 2 && w.rows[j][0] == x && w.rows[j][1] == y
    ensures DropColumns(w, ["date"]).Success?
    ensures |DropColumns(w, ["date"]).value.rows| == |w.rows| && |DropColumns(w, ["date"]).value.rows[j]| >= 2
    ensures DropColumns(w, ["date"]).value.rows[j][0] == x && DropColumns(w, ["date"]).value.rows[j][1] == y
  {
    DropDateKeepsFront(w);
    var d := DropColumns(w, ["date"]).value;
    assert d.rows[j][..2] == w.rows[j][..2];
    assert d.rows[j][0] == d.rows[j][..2][0] && d.rows[j][1] == d.rows[j][..2][1];
  }

  /** The two inserted columns are new, so every earlier column keeps its
      cells. */
  lemma InsertDateTimeCarries(t: Table, stamps: seq<Timestamp>)
    requires WellFormed(t) && |stamps| == |t.rows|
    requires forall i :: 0 <= i < |stamps| ==> ValidTimestamp(stamps[i])
    requires InsertDateTime(t, stamps).Success?
    ensures CarriesColumns(t, InsertDateTime(t, stamps).value)
  {
    PrependCarries(t, InsertDateTime(t, stamps).value, "Date", "Time");
  }

  /** Every column kept through the split holds, in output row i, the cell of
      row n-1-i. */
  lemma SplitMirrors(kept: Table, stamps: seq<Timestamp>)
    requires WellFormed(kept) && "date" in kept.header && |stamps| == |kept.rows|
    requires forall i :: 0 <= i < |stamps| ==> ValidTimestamp(stamps[i])
    requires SplitAndReverse(kept, stamps).Success?
    ensures MirrorsColumns(kept, SplitAndReverse(kept, stamps).value)
  {
    SplitUnfold(kept, stamps);
    var w := InsertDateTime(kept, stamps).value;
    var split := DropColumns(w, ["date"]).value;
    InsertDateTimeCarries(kept, stamps);
    DropColumnsMembers(w, ["date"]);
    DropColumnsKeeps(w, ["date"]);
    CarriesTransitive(kept, w, split);
    ReverseMirrors(kept, split);
  }

  /** `transform_exchange_data` minus the file I/O: drop the unused columns,
      split `date` into a leading `Date` and `Time`, drop `date`, and reverse
      the rows so the oldest candle comes first. */
  function TransformExchange(t: Table): (r: Result<Table, Error>)
    requires WellFormed(t)
    ensures r.Success? ==> WellFormed(r.value) && |r.value.rows| == |t.rows| && |r.value.header| >= 2
  {
    var kept :- DropColumns(t, DroppedColumns);
    var cells :- Column(kept, "date");
    var stamps :- ParseColumn(cells, 0);
    ParsedValid(cells, 0);
    SplitAndReverse(kept, stamps)
  }

  // ---------------------------------------------------------------------------
  // What the transform does
  // ---------------------------------------------------------------------------

  /** The table has the columns the transform names: the four it drops and
      the combined `date`. */
  predicate HasVendorColumns(t: Table) {
    (forall x :: x in DroppedColumns ==> x in t.header) && "date" in t.header
  }

  function DateIndex(t: Table): (k: nat)
    requires "date" in t.header
    ensures k < |t.header| && t.header[k] == "date"
  {
    IndexOf(t.header, "date").value
  }

  /** Every row's `date` cell is a timestamp pandas accepts. */
  predicate StampsParse(t: Table)
    requires Rectangular(t) && "date" in t.header
  {
    forall i :: 0 <= i < |t.rows| ==> ParseTimestamp(t.rows[i][DateIndex(t)]).Some?
  }

  /** The cells the transform parses are the input's `date` cells. */
  lemma DateColumnCells(t: Table)
    requires WellFormed(t) && HasVendorColumns(t)
    ensures DropColumns(t, DroppedColumns).Success?
    ensures Column(DropColumns(t, DroppedColumns).value, "date").Success?
    ensures forall i :: 0 <= i < |t.rows| ==>
      Column(DropColumns(t, DroppedColumns).value, "date").value[i] == t.rows[i][DateIndex(t)]
  {
    DropColumnsMembers(t, DroppedColumns);
    DropColumnsKeeps(t, DroppedColumns);
    ColumnCarried(t, DropColumns(t, DroppedColumns).value, "date");
  }

  /** A missing dropped column stops the transform with a KeyError naming it. */
  lemma MissingDroppedColumn(t: Table)
    requires WellFormed(t) && exists x :: x in DroppedColumns && x !in t.header
    ensures TransformExchange(t).Failure? && TransformExchange(t).error.KeyNotFound?
    ensures TransformExchange(t).error.name in DroppedColumns && TransformExchange(t).error.name !in t.header
  {
  }

  /** Without a `date` column the transform stops with a KeyError for it. */
  lemma MissingDateColumn(t: Table)
    requires WellFormed(t) && forall x :: x in DroppedColumns ==> x in t.header
    requires "date" !in t.header
    ensures TransformExchange(t) == Failure(KeyNotFound("date"))
  {
    DropColumnsMembers(t, DroppedColumns);
    var kept := DropColumns(t, DroppedColumns).value;
    assert "date" !in kept.header;
  }

  /** Parsing a column fails at its first unparseable cell. */
  lemma ParseColumnFirstBad(cells: seq<string>, i: nat)
    requires i < |cells| && ParseTimestamp(cells[i]).None?
    requires forall k :: 0 <= k < i ==> ParseTimestamp(cells[k]).Some?
    ensures ParseColumn(cells, 0) == Failure(Unparseable(i, cells[i]))
  {
    var parsed := ParseColumn(cells, 0);
    var i' :| 0 <= i' < |cells| && parsed.error == Unparseable(i', cells[i'])
      && ParseTimestamp(cells[i']).None? && forall k :: 0 <= k < i' ==> ParseTimestamp(cells[k]).Some?;
    assert i' <= i;
    assert i <= i';
  }

  /** The first `date` cell pandas cannot parse stops the transform, and the
      error names that row. */
  lemma UnparseableStamp(t: Table, i: nat)
    requires WellFormed(t) && HasVendorColumns(t)
    requires i < |t.rows| && ParseTimestamp(t.rows[i][DateIndex(t)]).None?
    requires forall j :: 0 <= j < i ==> ParseTimestamp(t.rows[j][DateIndex(t)]).Some?
    ensures TransformExchange(t) == Failure(Unparseable(i, t.rows[i][DateIndex(t)]))
  {
    DateColumnCells(t);
    var kept := DropColumns(t, DroppedColumns).value;
    var cells := Column(kept, "date").value;
    assert forall k :: 0 <= k < i ==> ParseTimestamp(cells[k]).Some?;
    ParseColumnFirstBad(cells, i);
  }

  /** Once every column is there and every `date` cell parses, the transform
      fails only if `Date` or `Time` is already a column (ValueError from
      `insert`). */
  lemma TransformSucceeds(t: Table)
    requires WellFormed(t) && HasVendorColumns(t) && StampsParse(t)
    ensures TransformExchange(t).Success? <==> "Date" !in t.header && "Time" !in t.header
    ensures TransformExchange(t).Failure? ==> TransformExchange(t).error.AlreadyExists?
  {
    TransformIs(t);
    var kept := KeptOf(t);
    NewNamesNotDropped();
    assert ("Date" in kept.header <==> "Date" in t.header) && ("Time" in kept.header <==> "Time" in t.header);
  }

  /** The names the split adds are not among the dropped ones. */
  lemma NewNamesNotDropped()
    ensures "Date" !in DroppedColumns && "Time" !in DroppedColumns
  {
  }

  /** With the vendor columns present and every `date` cell parsed, the
      transform is the split-and-reverse of the kept table and the stamps. */
  lemma TransformIs(t: Table)
    requires WellFormed(t) && HasVendorColumns(t) && StampsParse(t)
    ensures TransformExchange(t) == SplitAndReverse(KeptOf(t), StampsOf(t))
  {
    DateColumnCells(t);
    var kept := DropColumns(t, DroppedColumns).value;
    assert kept == KeptOf(t);
    var cells := Column(kept, "date").value;
    assert ParseColumn(cells, 0).Success?;
    assert ParseColumn(cells, 0).value == StampsOf(t);
  }

  /** The table after the four unused columns are dropped. */
  function KeptOf(t: Table): (kept: Table)
    requires WellFormed(t) && HasVendorColumns(t)
    ensures WellFormed(kept) && "date" in kept.header && |kept.rows| == |t.rows|
    ensures forall x :: x in kept.header <==> x in t.header && x !in DroppedColumns
  {
    DropColumnsMembers(t, DroppedColumns);
    DropColumns(t, DroppedColumns).value
  }

  /** The parsed `date` column. */
  function StampsOf(t: Table): (stamps: seq<Timestamp>)
    requires WellFormed(t) && HasVendorColumns(t) && StampsParse(t)
    ensures |stamps| == |t.rows|
    ensures forall i :: 0 <= i < |t.rows| ==> Some(stamps[i]) == ParseTimestamp(t.rows[i][DateIndex(t)])
    ensures forall i :: 0 <= i < |stamps| ==> ValidTimestamp(stamps[i])
  {
    DateColumnCells(t);
    var cells := Column(KeptOf(t), "date").value;
    assert ParseColumn(cells, 0).Success?;
    var stamps := ParseColumn(cells, 0).value;
    ParsedValid(cells, 0);
    stamps
  }

  /** A successful transform found every vendor column. */
  lemma SuccessHasVendorColumns(t: Table)
    requires WellFormed(t) && TransformExchange(t).Success?
    ensures HasVendorColumns(t)
  {
    assert DropColumns(t, DroppedColumns).Success?;
    DropColumnsMembers(t, DroppedColumns);
  }

  /** A successful transform parsed every `date` cell. */
  lemma SuccessStampsParse(t: Table)
    requires WellFormed(t) && HasVendorColumns(t) && TransformExchange(t).Success?
    ensures StampsParse(t)
  {
    DateColumnCells(t);
    var cells := Column(DropColumns(t, DroppedColumns).value, "date").value;
    assert ParseColumn(cells, 0).Success?;
  }

  /** A successful transform is the split-and-reverse of the parsed table. */
  lemma TransformUnfold(t: Table)
    requires WellFormed(t) && TransformExchange(t).Success?
    ensures HasVendorColumns(t) && StampsParse(t)
    ensures TransformExchange(t) == SplitAndReverse(KeptOf(t), StampsOf(t))
  {
    SuccessHasVendorColumns(t);
    SuccessStampsParse(t);
    TransformIs(t);
  }

  /** Row i of the split-and-reversed table begins with the split of the
      `date` cell of input row n-1-i. */
  lemma SplitRow(t: Table, i: nat)
    requires WellFormed(t) && HasVendorColumns(t) && StampsParse(t) && i < |t.rows|
    requires SplitAndReverse(KeptOf(t), StampsOf(t)).Success?
    ensures var o, src := SplitAndReverse(KeptOf(t), StampsOf(t)).value, t.rows[|t.rows| - 1 - i];
      && ParseTimestamp(src[DateIndex(t)]).Some?
      && o.rows[i][0] == DateCell(ParseTimestamp(src[DateIndex(t)]).value)
      && o.rows[i][1] == TimeCell(ParseTimestamp(src[DateIndex(t)]).value)
      && o.rows[i][0] + " " + o.rows[i][1] == src[DateIndex(t)]
  {
    var kept, stamps := KeptOf(t), StampsOf(t);
    var n := |t.rows|;
    var src := t.rows[n - 1 - i];
    assert Some(stamps[n - 1 - i]) == ParseTimestamp(src[DateIndex(t)]);
    SplitLeadingCells(kept, stamps, i);
    SplitRoundTrip(src[DateIndex(t)]);
  }

  /** Every input column that survives the drop and the split holds, in
      output row i, the cell of input row n-1-i. */
  lemma DropSplitMirrors(t: Table, kept: Table, stamps: seq<Timestamp>)
    requires WellFormed(t) && DropColumns(t, DroppedColumns) == Success(kept)
    requires "date" in kept.header && |stamps| == |kept.rows|
    requires forall i :: 0 <= i < |stamps| ==> ValidTimestamp(stamps[i])
    requires SplitAndReverse(kept, stamps).Success?
    ensures MirrorsColumns(t, SplitAndReverse(kept, stamps).value)
  {
    var o := SplitAndReverse(kept, stamps).value;
    assert CarriesColumns(t, kept) by {
      DropColumnsKeeps(t, DroppedColumns);
    }
    assert MirrorsColumns(kept, o) by {
      SplitMirrors(kept, stamps);
    }
    assert forall x :: x in o.header && x in t.header ==> x in kept.header by {
      DropColumnsMembers(t, DroppedColumns);
      SplitHeader(kept, stamps);
      SharedColumnsKept(t.header, kept.header, o.header);
    }
    CarriesThenMirrors(t, kept, o);
  }

  /** A column both in the input and in the output was kept by the drop:
      `Date` and `Time` are new, and every other output column came through
      the kept table. */
  lemma SharedColumnsKept(th: seq<string>, kh: seq<string>, oh: seq<string>)
    requires forall x :: x in kh <==> x in th && x !in DroppedColumns
    requires "Date" !in kh && "Time" !in kh
    requires |oh| >= 2 && oh[..2] == ["Date", "Time"]
    requires forall x :: x in oh[2..] <==> x in kh && x != "date"
    ensures forall x :: x in oh && x in th ==> x in kh
  {
    NewNamesNotDropped();
    forall x | x in oh && x in th ensures x in kh {
      var p :| 0 <= p < |oh| && oh[p] == x;
      assert x != oh[..2][0] && x != oh[..2][1];
      assert x == oh[2..][p - 2];
    }
  }

  /** Every input column that reaches the output holds, in output row i, the
      cell of input row n-1-i. */
  lemma TransformMirrors(t: Table)
    requires WellFormed(t) && TransformExchange(t).Success?
    ensures MirrorsColumns(t, TransformExchange(t).value)
  {
    TransformUnfold(t);
    DropSplitMirrors(t, KeptOf(t), StampsOf(t));
  }

  /** The header after the split: `Date`, `Time`, then the kept columns
      without `date`, in their order. */
  lemma SplitHeaderExact(kept: Table, stamps: seq<Timestamp>)
    requires WellFormed(kept) && "date" in kept.header && |stamps| == |kept.rows|
    requires forall i :: 0 <= i < |stamps| ==> ValidTimestamp(stamps[i])
    requires SplitAndReverse(kept, stamps).Success?
    ensures SplitAndReverse(kept, stamps).value.header == ["Date", "Time"] + Without(kept.header, ["date"])
  {
    SplitUnfold(kept, stamps);
    var w := InsertDateTime(kept, stamps).value;
    DropColumnsHeader(w, ["date"]);
    FrontSurvivesDateDrop(kept.header);
  }

  /** Filtering `date` out leaves a leading `Date` and `Time` in front. */
  lemma FrontSurvivesDateDrop(k: seq<string>)
    ensures Without(["Date", "Time"] + k, ["date"]) == ["Date", "Time"] + Without(k, ["date"])
  {
    var h := ["Date", "Time"] + k;
    WithoutFrom(h, ["date"], 0);
    WithoutFrom(h, ["date"], 1);
    assert h[0..] == h && h[2..] == k;
  }

  /** The output header: `Date` and `Time`, then the input columns other than
      the four dropped ones and `date`, in their input order. */
  lemma TransformHeader(t: Table)
    requires WellFormed(t) && TransformExchange(t).Success?
    ensures TransformExchange(t).value.header ==
      ["Date", "Time"] + Without(Without(t.header, DroppedColumns), ["date"])
  {
    TransformUnfold(t);
    assert KeptOf(t).header == Without(t.header, DroppedColumns) by {
      DropColumnsHeader(t, DroppedColumns);
    }
    SplitHeaderExact(KeptOf(t), StampsOf(t));
  }

  /** Output row i begins with the split of input row n-1-i's `date` cell:
      its `Date` and `Time` cells join back to that cell. (The other columns
      of that row are the subject of TransformMirrors.) */
  lemma TransformRow(t: Table, i: nat)
    requires WellFormed(t) && TransformExchange(t).Success? && i < |t.rows|
    ensures HasVendorColumns(t)
    ensures var o, src := TransformExchange(t).value, t.rows[|t.rows| - 1 - i];
      && ParseTimestamp(src[DateIndex(t)]).Some?
      && o.rows[i][0] == DateCell(ParseTimestamp(src[DateIndex(t)]).value)
      && o.rows[i][1] == TimeCell(ParseTimestamp(src[DateIndex(t)]).value)
      && o.rows[i][0] + " " + o.rows[i][1] == src[DateIndex(t)]
  {
    TransformUnfold(t);
    SplitRow(t, i);
  }

  /** A `date` cell pandas cannot parse stops the transform with a parse
      error. */
  lemma BadStampFails(t: Table)
    requires WellFormed(t) && HasVendorColumns(t) && !StampsParse(t)
    ensures TransformExchange(t).Failure? && TransformExchange(t).error.Unparseable?
  {
    DateColumnCells(t);
    var cells := Column(DropColumns(t, DroppedColumns).value, "date").value;
    var i :| 0 <= i < |t.rows| && ParseTimestamp(t.rows[i][DateIndex(t)]).None?;
    assert ParseTimestamp(cells[i]).None?;
  }

  /** The timestamp of input row k's `date` cell. */
  function StampAt(t: Table, k: nat): (ts: Timestamp)
    requires Rectangular(t) && "date" in t.header && StampsParse(t) && k < |t.rows|
    ensures ValidTimestamp(ts) && ParseTimestamp(t.rows[k][DateIndex(t)]) == Some(ts)
  {
    ParseTimestamp(t.rows[k][DateIndex(t)]).value
  }

  /** What the transform makes of a table whose columns and `date` cells it
      accepts: `Date`, `Time` and the surviving columns in their order; row i
      holds the split timestamp and the cells of input row n-1-i. */
  predicate ExchangeOutput(t: Table, o: Table)
    requires WellFormed(t) && HasVendorColumns(t) && StampsParse(t)
  {
    && WellFormed(o) && |o.rows| == |t.rows|
    && o.header == ["Date", "Time"] + Without(Without(t.header, DroppedColumns), ["date"])
    && MirrorsColumns(t, o)
    && forall i :: 0 <= i < |o.rows| ==>
         && o.rows[i][0] == DateCell(StampAt(t, |t.rows| - 1 - i))
         && o.rows[i][1] == TimeCell(StampAt(t, |t.rows| - 1 - i))
  }

  /** Output row i of a successful transform starts with the split
      timestamp of input row n-1-i. */
  lemma TransformRowStamp(t: Table, i: nat)
    requires WellFormed(t) && TransformExchange(t).Success? && i < |t.rows|
    ensures HasVendorColumns(t) && StampsParse(t)
    ensures var o := TransformExchange(t).value;
      && o.rows[i][0] == DateCell(StampAt(t, |t.rows| - 1 - i))
      && o.rows[i][1] == TimeCell(StampAt(t, |t.rows| - 1 - i))
  {
    TransformUnfold(t);
    TransformRow(t, i);
  }

  /** A successful transform produces the table ExchangeOutput describes. */
  lemma TransformOutput(t: Table)
    requires WellFormed(t) && TransformExchange(t).Success?
    ensures HasVendorColumns(t) && StampsParse(t)
    ensures ExchangeOutput(t, TransformExchange(t).value)
  {
    var o := TransformExchange(t).value;
    SuccessHasVendorColumns(t);
    SuccessStampsParse(t);
    TransformHeader(t);
    TransformMirrors(t);
    forall i | 0 <= i < |o.rows|
      ensures o.rows[i][0] == DateCell(StampAt(t, |t.rows| - 1 - i))
      ensures o.rows[i][1] == TimeCell(StampAt(t, |t.rows| - 1 - i))
    {
      TransformRowStamp(t, i);
    }
  }

  /** Reading each row's first two cells back as one timestamp gives a
      strictly increasing sequence: the rows run oldest first. */
  predicate AscendingStamps(o: Table)
    requires Rectangular(o) && |o.header| >= 2
  {
    forall i, j :: 0 <= i < j < |o.rows| ==>
      && ParseTimestamp(o.rows[i][0] + " " + o.rows[i][1]).Some?
      && ParseTimestamp(o.rows[j][0] + " " + o.rows[j][1]).Some?
      && Earlier(ParseTimestamp(o.rows[i][0] + " " + o.rows[i][1]).value,
                 ParseTimestamp(o.rows[j][0] + " " + o.rows[j][1]).value)
  }

  /** Input rows newest first (strictly) come out oldest first. */
  lemma TransformChronological(t: Table)
    requires WellFormed(t) && TransformExchange(t).Success?
    requires HasVendorColumns(t) && StampsParse(t)
    requires forall i, j :: 0 <= i < j < |t.rows| ==> Earlier(StampAt(t, j), StampAt(t, i))
    ensures AscendingStamps(TransformExchange(t).value)
  {
    TransformOutput(t);
    OutputChronological(t, TransformExchange(t).value);
  }

  /** Reading a described output row's `Date` and `Time` back as one
      timestamp gives the stamp of the mirrored input row. */
  lemma OutputRowStamp(t: Table, o: Table, i: nat)
    requires WellFormed(t) && HasVendorColumns(t) && StampsParse(t) && ExchangeOutput(t, o)
    requires i < |o.rows|
    ensures ParseTimestamp(o.rows[i][0] + " " + o.rows[i][1]) == Some(StampAt(t, |t.rows| - 1 - i))
  {
    SplitReparses(t.rows[|t.rows| - 1 - i][DateIndex(t)]);
  }

  /** The row-order half of TransformChronological, on the described output. */
  lemma OutputChronological(t: Table, o: Table)
    requires WellFormed(t) && HasVendorColumns(t) && StampsParse(t) && ExchangeOutput(t, o)
    requires forall i, j :: 0 <= i < j < |t.rows| ==> Earlier(StampAt(t, j), StampAt(t, i))
    ensures AscendingStamps(o)
  {
    forall i | 0 <= i < |o.rows|
      ensures ParseTimestamp(o.rows[i][0] + " " + o.rows[i][1]) == Some(StampAt(t, |t.rows| - 1 - i))
    {
      OutputRowStamp(t, o, i);
    }
  }

  // ---------------------------------------------------------------------------
  // The vendor's export layout
  // ---------------------------------------------------------------------------

  /** The columns of the vendor's minute export for the pair `base`/USDT. */
  function VendorHeader(base: string): (h: seq<string>)
    ensures |h| == 10 && h[1] == "date"
  {
    ["unix", "date", "symbol", "open", "high", "low", "close", "Volume " + base, "Volume USDT", "tradecount"]
  }

  /** The base volume column differs from every other vendor column unless
      the base asset is USDT itself. */
  lemma VendorHeaderDistinct(base: string)
    requires base != "USDT"
    ensures DistinctLabels(VendorHeader(base))
  {
    var v := "Volume " + base;
    assert v[0] == 'V' && v[7..] == base && "Volume USDT"[7..] == "USDT";
    assert v != "unix" && v != "date" && v != "symbol" && v != "open" && v != "high";
    assert v != "low" && v != "close" && v != "Volume USDT" && v != "tradecount";
  }

  /** The fixed vendor columns before the base volume, after the drop. */
  lemma VendorFrontKept()
    ensures Without(["unix", "date", "symbol", "open", "high", "low", "close"], DroppedColumns)
      == ["date", "open", "high", "low", "close"]
  {
    var ids, prices := ["unix", "date", "symbol"], ["open", "high", "low", "close"];
    assert ["unix", "date", "symbol", "open", "high", "low", "close"] == ids + prices;
    VendorIdsKept();
    VendorPricesKept();
    WithoutConcat(ids, prices, DroppedColumns);
  }

  /** Of the identifying vendor columns only `date` survives the drop. */
  lemma VendorIdsKept()
    ensures Without(["unix", "date", "symbol"], DroppedColumns) == ["date"]
  {
  }

  /** The price columns survive the drop. */
  lemma VendorPricesKept()
    ensures Without(["open", "high", "low", "close"], DroppedColumns) == ["open", "high", "low", "close"]
  {
  }

  /** The fixed vendor columns after the base volume are all dropped. */
  lemma VendorBackDropped()
    ensures Without(["Volume USDT", "tradecount"], DroppedColumns) == []
  {
  }

  /** The kept front columns without `date`. */
  lemma VendorFrontSplit()
    ensures Without(["date", "open", "high", "low", "close"], ["date"]) == ["open", "high", "low", "close"]
  {
  }

  /** The vendor columns that reach the output, in order. */
  lemma VendorColumnsKept(base: string)
    requires base != "USDT"
    ensures Without(Without(VendorHeader(base), DroppedColumns), ["date"]) ==
      ["open", "high", "low", "close", "Volume " + base]
  {
    var v := "Volume " + base;
    assert v !in DroppedColumns && v != "date" by {
      assert v[0] == 'V' && v[7..] == base && "Volume USDT"[7..] == "USDT";
    }
    var front := ["unix", "date", "symbol", "open", "high", "low", "close"];
    var back := ["Volume USDT", "tradecount"];
    var kept := ["date", "open", "high", "low", "close"];
    assert VendorHeader(base) == front + [v] + back;
    VendorFrontKept();
    VendorBackDropped();
    VendorFrontSplit();
    WithoutConcat(front + [v], back, DroppedColumns);
    WithoutConcat(front, [v], DroppedColumns);
    assert Without([v], DroppedColumns) == [v];
    assert Without(front + [v], DroppedColumns) == kept + [v];
    assert Without(VendorHeader(base), DroppedColumns) == kept + [v] + [];
    assert kept + [v] + [] == kept + [v];
    WithoutConcat(kept, [v], ["date"]);
    assert Without([v], ["date"]) == [v];
    assert Without(kept + [v], ["date"]) == ["open", "high", "low", "close"] + [v];
  }

  /** A vendor export with one cell per column, as pandas reads it: a table
      the transform accepts as far as its columns go, whose `date` column is
      the second. */
  function VendorTable(base: string, rows: seq<seq<string>>): (t: Table)
    requires base != "USDT" && forall i :: 0 <= i < |rows| ==> |rows[i]| == 10
    ensures t.header == VendorHeader(base) && t.rows == rows
    ensures WellFormed(t) && HasVendorColumns(t) && DateIndex(t) == 1
    ensures "Date" !in t.header && "Time" !in t.header
  {
    var t := Table(VendorHeader(base), rows);
    VendorHeaderDistinct(base);
    var v := "Volume " + base;
    assert v[0] == 'V';
    assert v != "Date" && v != "Time";
    assert t.header[DateIndex(t)] == t.header[1];
    t
  }

  /** The vendor export is converted exactly when every `date` cell parses;
      the result has the backtest feed layout, oldest row first, each row the
      split `date` cell and the four prices and base volume of the mirrored
      input row. */
  lemma VendorExport(base: string, rows: seq<seq<string>>)
    requires base != "USDT" && forall i :: 0 <= i < |rows| ==> |rows[i]| == 10
    ensures var r := TransformExchange(VendorTable(base, rows));
      r.Success? <==> forall i :: 0 <= i < |rows| ==> ParseTimestamp(rows[i][1]).Some?
    ensures var r := TransformExchange(VendorTable(base, rows));
      r.Success? ==> r.value.header == ["Date", "Time", "open", "high", "low", "close", "Volume " + base]
    ensures var r := TransformExchange(VendorTable(base, rows));
      r.Success? ==> forall i :: 0 <= i < |rows| ==>
        var src := rows[|rows| - 1 - i];
        && ParseTimestamp(src[1]).Some?
        && r.value.rows[i] ==
             [DateCell(ParseTimestamp(src[1]).value), TimeCell(ParseTimestamp(src[1]).value)] + src[3..8]
  {
    var t := VendorTable(base, rows);
    if StampsParse(t) {
      TransformSucceeds(t);
      TransformOutput(t);
      VendorOutput(base, rows, TransformExchange(t).value);
    } else {
      BadStampFails(t);
    }
  }

  /** The described output of a vendor export: header and rows. */
  lemma VendorOutput(base: string, rows: seq<seq<string>>, o: Table)
    requires base != "USDT" && forall i :: 0 <= i < |rows| ==> |rows[i]| == 10
    requires StampsParse(VendorTable(base, rows)) && ExchangeOutput(VendorTable(base, rows), o)
    ensures o.header == ["Date", "Time", "open", "high", "low", "close", "Volume " + base]
    ensures forall i :: 0 <= i < |rows| ==>
      var src := rows[|rows| - 1 - i];
      && ParseTimestamp(src[1]).Some?
      && o.rows[i] == [DateCell(ParseTimestamp(src[1]).value), TimeCell(ParseTimestamp(src[1]).value)] + src[3..8]
  {
    assert o.header == ["Date", "Time", "open", "high", "low", "close", "Volume " + base] by {
      VendorColumnsKept(base);
    }
    forall i | 0 <= i < |rows|
      ensures var src := rows[|rows| - 1 - i];
        && ParseTimestamp(src[1]).Some?
        && o.rows[i] == [DateCell(ParseTimestamp(src[1]).value), TimeCell(ParseTimestamp(src[1]).value)] + src[3..8]
    {
      VendorOutputRow(base, rows, o, i);
    }
  }

  /** Output columns 2 to 6 of the vendor layout are input columns 3 to 7. */
  lemma VendorAligned(base: string)
    ensures forall k :: 2 <= k < 7 ==>
      ["Date", "Time", "open", "high", "low", "close", "Volume " + base][k] == VendorHeader(base)[k + 1]
  {
  }

  /** One output row of a vendor export. */
  lemma VendorOutputRow(base: string, rows: seq<seq<string>>, o: Table, i: nat)
    requires base != "USDT" && forall i :: 0 <= i < |rows| ==> |rows[i]| == 10
    requires StampsParse(VendorTable(base, rows)) && ExchangeOutput(VendorTable(base, rows), o)
    requires o.header == ["Date", "Time", "open", "high", "low", "close", "Volume " + base]
    requires i < |rows|
    ensures var src := rows[|rows| - 1 - i];
      && ParseTimestamp(src[1]).Some?
      && o.rows[i] == [DateCell(ParseTimestamp(src[1]).value), TimeCell(ParseTimestamp(src[1]).value)] + src[3..8]
  {
    var src := rows[|rows| - 1 - i];
    VendorOutputPrices(base, rows, o, i);
    VendorOutputStamp(base, rows, o, i);
    var ts := ParseTimestamp(src[1]).value;
    VendorRowCells(o.rows[i], src, DateCell(ts), TimeCell(ts));
  }

  /** The price and volume cells of one vendor output row. */
  lemma VendorOutputPrices(base: string, rows: seq<seq<string>>, o: Table, i: nat)
    requires base != "USDT" && forall i :: 0 <= i < |rows| ==> |rows[i]| == 10
    requires StampsParse(VendorTable(base, rows)) && ExchangeOutput(VendorTable(base, rows), o)
    requires o.header == ["Date", "Time", "open", "high", "low", "close", "Volume " + base]
    requires i < |rows|
    ensures |o.rows[i]| == 7
    ensures forall k :: 2 <= k < 7 ==> o.rows[i][k] == rows[|rows| - 1 - i][k + 1]
  {
    VendorAligned(base);
    MirroredRun(VendorTable(base, rows), o, i, 2, 7, 1);
  }

  /** The `Date` and `Time` cells of one vendor output row. */
  lemma VendorOutputStamp(base: string, rows: seq<seq<string>>, o: Table, i: nat)
    requires base != "USDT" && forall i :: 0 <= i < |rows| ==> |rows[i]| == 10
    requires StampsParse(VendorTable(base, rows)) && ExchangeOutput(VendorTable(base, rows), o)
    requires i < |rows|
    ensures var src := rows[|rows| - 1 - i];
      && ParseTimestamp(src[1]).Some?
      && o.rows[i][0] == DateCell(ParseTimestamp(src[1]).value)
      && o.rows[i][1] == TimeCell(ParseTimestamp(src[1]).value)
  {
    var ts := StampAt(VendorTable(base, rows), |rows| - 1 - i);
  }

  /** A row of seven cells whose first two are the split timestamp and whose
      other five are cells 3 to 7 of the source row. */
  lemma VendorRowCells(r: seq<string>, src: seq<string>, dateCell: string, timeCell: string)
    requires |r| == 7 && |src| == 10 && r[0] == dateCell && r[1] == timeCell
    requires forall k :: 2 <= k < 7 ==> r[k] == src[k + 1]
    ensures r == [dateCell, timeCell] + src[3..8]
  {
  }
}
