/** `analysis.py`: the issue date parsed to a year, the frame restricted to
    the rows whose date parses, the three KPIs, hours per year and hours per
    skill sorted by hours. */
module Analysis {
  import opened Rows
  import opened Seqs
  import opened Order
  import Utils

  // ---------------------------------------------------------------------
  // `datetime.strptime(date_string, '%d/%m/%Y')`
  // ---------------------------------------------------------------------

  datatype Date = Date(day: int, month: int, year: int)

  predicate IsDigit(c: char)
  {
    '0' <= c <= '9'
  }

  predicate IsNonZeroDigit(c: char)
  {
    '1' <= c <= '9'
  }

  function DigitValue(c: char): (v: int)
    requires IsDigit(c)
    ensures 0 <= v <= 9
  {
    c as int - '0' as int
  }

  /** The `%d` field, which strptime matches with the alternatives
      `3[01]`, `[12]\d`, `0[1-9]`, `[1-9]` and ` [1-9]`, read with `int`
      (which ignores the leading blank). */
  function DayField(t: string): (d: Option<int>)
    ensures d.Some? ==> 1 <= d.value <= 31
  {
    if |t| == 2 && t[0] == '3' && (t[1] == '0' || t[1] == '1') then Some(30 + DigitValue(t[1]))
    else if |t| == 2 && (t[0] == '1' || t[0] == '2') && IsDigit(t[1]) then Some(10 * DigitValue(t[0]) + DigitValue(t[1]))
    else if |t| == 2 && t[0] == '0' && IsNonZeroDigit(t[1]) then Some(DigitValue(t[1]))
    else if |t| == 1 && IsNonZeroDigit(t[0]) then Some(DigitValue(t[0]))
    else if |t| == 2 && t[0] == ' ' && IsNonZeroDigit(t[1]) then Some(DigitValue(t[1]))
    else None
  }

  /** The `%m` field: `1[0-2]`, `0[1-9]` or `[1-9]`. */
  function MonthField(t: string): (m: Option<int>)
    ensures m.Some? ==> 1 <= m.value <= 12
  {
    if |t| == 2 && t[0] == '1' && '0' <= t[1] <= '2' then Some(10 + DigitValue(t[1]))
    else if |t| == 2 && t[0] == '0' && IsNonZeroDigit(t[1]) then Some(DigitValue(t[1]))
    else if |t| == 1 && IsNonZeroDigit(t[0]) then Some(DigitValue(t[0]))
    else None
  }

  /** The `%Y` field: exactly four digits (anything after them is
      "unconverted data" and fails the parse). */
  function YearField(t: string): (y: Option<int>)
    ensures y.Some? ==> 0 <= y.value <= 9999
  {
    if |t| == 4 && IsDigit(t[0]) && IsDigit(t[1]) && IsDigit(t[2]) && IsDigit(t[3])
    then Some(1000 * DigitValue(t[0]) + 100 * DigitValue(t[1]) + 10 * DigitValue(t[2]) + DigitValue(t[3]))
    else None
  }

  predicate IsLeapYear(y: int)
  {
    y % 4 == 0 && (y % 100 != 0 || y % 400 == 0)
  }

  function DaysInMonth(m: int, y: int): (n: int)
    requires 1 <= m <= 12
    ensures 28 <= n <= 31
    ensures m == 2 ==> (n == 29 <==> IsLeapYear(y))
    ensures m != 2 ==> n >= 30
  {
    if m == 2 then (if IsLeapYear(y) then 29 else 28)
    else if m == 4 || m == 6 || m == 9 || m == 11 then 30
    else 31
  }

  /** A date the `datetime` constructor accepts (years 1 to 9999). */
  predicate ValidDate(dt: Date)
  {
    && 1 <= dt.year <= 9999
    && 1 <= dt.month <= 12
    && 1 <= dt.day <= DaysInMonth(dt.month, dt.year)
  }

  /** The position of the first `c` in `s`, or `|s|` when there is none. */
  function FirstIndex(s: string, c: char): (k: nat)
    ensures k <= |s|
    ensures k < |s| ==> s[k] == c
    ensures forall i :: 0 <= i < k ==> s[i] != c
  {
    if s == [] then 0
    else if s[0] == c then 0
    else 1 + FirstIndex(s[1..], c)
  }

  /** `strptime(s, '%d/%m/%Y')`: `None` where Python raises `ValueError`. No
      field pattern matches a `/`, so the day field is everything before the
      first `/`, the month field everything between the first and the second,
      and the year field everything after the second; the whole string must
      be consumed and the date must exist. */
  function Strptime(s: string): (r: Option<Date>)
    ensures r.Some? ==> ValidDate(r.value)
  {
    var i := FirstIndex(s, '/');
    if i == |s| then None
    else
      var rest := s[i + 1..];
      var j := FirstIndex(rest, '/');
      if j == |rest| then None
      else
        var d, m, y := DayField(s[..i]), MonthField(rest[..j]), YearField(rest[j + 1..]);
        if d.None? || m.None? || y.None? then None
        else if y.value < 1 || d.value > DaysInMonth(m.value, y.value) then None
        else Some(Date(d.value, m.value, y.value))
  }

  /** `extract_year`: the parsed year, or `None` when the parse fails. */
  function ExtractYear(s: string): (y: Option<int>)
    ensures y.Some? ==> 1 <= y.value <= 9999
  {
    var r := Strptime(s);
    if r.Some? then Some(r.value.year) else None
  }

  // The fields as `strftime('%d/%m/%Y')` writes them.

  function DigitChar(n: int): (c: char)
    requires 0 <= n <= 9
    ensures IsDigit(c) && DigitValue(c) == n
  {
    ('0' as int + n) as char
  }

  function TwoDigits(n: int): (t: string)
    requires 0 <= n <= 99
    ensures |t| == 2 && '/' !in t
  {
    [DigitChar(n / 10), DigitChar(n % 10)]
  }

  function FourDigits(n: int): (t: string)
    requires 0 <= n <= 9999
    ensures |t| == 4
  {
    TwoDigits(n / 100) + TwoDigits(n % 100)
  }

  /** `dd/mm/yyyy` with every field zero-padded. */
  function Format(d: int, m: int, y: int): string
    requires 0 <= d <= 99 && 0 <= m <= 99 && 0 <= y <= 9999
  {
    TwoDigits(d) + "/" + TwoDigits(m) + "/" + FourDigits(y)
  }

  /** The three fields of a string made of a day text, a month text and a
      year text without `/` in the first two. */
  lemma {:induction false} FieldsOf(a: string, b: string, c: string)
    requires '/' !in a && '/' !in b
    ensures FirstIndex(a + "/" + b + "/" + c, '/') == |a|
    ensures (a + "/" + b + "/" + c)[..|a|] == a
    ensures (a + "/" + b + "/" + c)[|a| + 1..] == b + "/" + c
    ensures FirstIndex(b + "/" + c, '/') == |b|
    ensures (b + "/" + c)[..|b|] == b
    ensures (b + "/" + c)[|b| + 1..] == c
  {
    FirstIndexAfter(a, "/" + b + "/" + c);
    FirstIndexAfter(b, "/" + c);
    assert a + "/" + b + "/" + c == a + ("/" + b + "/" + c);
    assert b + "/" + c == b + ("/" + c);
  }

  lemma {:induction false} FirstIndexAfter(a: string, b: string)
    requires '/' !in a && b != [] && b[0] == '/'
    ensures FirstIndex(a + b, '/') == |a|
    decreases |a|
  {
    if a != [] {
      assert (a + b)[1..] == a[1..] + b;
      FirstIndexAfter(a[1..], b);
    }
  }

  lemma {:induction false} TwoDigitsValue(n: int)
    requires 0 <= n <= 99
    ensures DigitValue(TwoDigits(n)[0]) == n / 10 && DigitValue(TwoDigits(n)[1]) == n % 10
  {
  }

  /** The padded day field reads back as the day, for every day 1..31, and
      is rejected for 0 and 32..99. */
  lemma {:induction false} DayFieldOfTwoDigits(d: int)
    requires 0 <= d <= 99
    ensures DayField(TwoDigits(d)) == if 1 <= d <= 31 then Some(d) else None
  {
    TwoDigitsValue(d);
  }

  lemma {:induction false} MonthFieldOfTwoDigits(m: int)
    requires 0 <= m <= 99
    ensures MonthField(TwoDigits(m)) == if 1 <= m <= 12 then Some(m) else None
  {
    TwoDigitsValue(m);
  }

  lemma {:induction false} YearFieldOfFourDigits(y: int)
    requires 0 <= y <= 9999
    ensures YearField(FourDigits(y)) == Some(y)
  {
    var hi, lo := y / 100, y % 100;
    TwoDigitsValue(hi);
    TwoDigitsValue(lo);
    var t := FourDigits(y);
    assert t[0] == TwoDigits(hi)[0] && t[1] == TwoDigits(hi)[1];
    assert t[2] == TwoDigits(lo)[0] && t[3] == TwoDigits(lo)[1];
    assert hi == 10 * (hi / 10) + hi % 10;
    assert lo == 10 * (lo / 10) + lo % 10;
  }

  /** Round trip: a padded `dd/mm/yyyy` string parses back to its date exactly
      when that date exists; a month outside 1..12, a day 0 or past the end of
      its month, or year 0 gives `None`. */
  lemma {:induction false} StrptimeOfFormat(d: int, m: int, y: int)
    requires 0 <= d <= 99 && 0 <= m <= 99 && 0 <= y <= 9999
    ensures Strptime(Format(d, m, y)) == if ValidDate(Date(d, m, y)) then Some(Date(d, m, y)) else None
  {
    FieldsOf(TwoDigits(d), TwoDigits(m), FourDigits(y));
    DayFieldOfTwoDigits(d);
    MonthFieldOfTwoDigits(m);
    YearFieldOfFourDigits(y);
  }

  /** `extract_year` returns the `yyyy` field of a calendar-valid date. */
  lemma {:induction false} ExtractYearOfValidDate(d: int, m: int, y: int)
    requires ValidDate(Date(d, m, y)) && d <= 99
    ensures ExtractYear(Format(d, m, y)) == Some(y)
  {
    StrptimeOfFormat(d, m, y);
  }

  /** The single-digit forms `d/m/yyyy` and ` d/m/yyyy` parse too. */
  lemma {:induction false} StrptimeUnpadded(d: int, m: int, y: int)
    requires 1 <= d <= 9 && 1 <= m <= 9 && 1 <= y <= 9999
    ensures Strptime([DigitChar(d)] + "/" + [DigitChar(m)] + "/" + FourDigits(y)) == Some(Date(d, m, y))
    ensures Strptime([' ', DigitChar(d)] + "/" + [DigitChar(m)] + "/" + FourDigits(y)) == Some(Date(d, m, y))
  {
    FieldsOf([DigitChar(d)], [DigitChar(m)], FourDigits(y));
    FieldsOf([' ', DigitChar(d)], [DigitChar(m)], FourDigits(y));
    YearFieldOfFourDigits(y);
  }

  /** Whatever parses, the year is the four characters after the last `/`. */
  lemma {:induction false} ExtractYearIsYearField(s: string)
    requires ExtractYear(s).Some?
    ensures |s| >= 8 && s[|s| - 5] == '/'
    ensures YearField(s[|s| - 4..]) == ExtractYear(s)
    ensures 1 <= ExtractYear(s).value <= 9999
  {
    var i := FirstIndex(s, '/');
    var rest := s[i + 1..];
    var j := FirstIndex(rest, '/');
    assert rest[j + 1..] == s[|s| - 4..];
  }

  /** Trailing text is rejected: once a string parses, no longer string
      beginning with it does. */
  lemma {:induction false} ExtractYearRejectsTrailing(s: string, t: string)
    requires ExtractYear(s).Some? && t != []
    ensures ExtractYear(s + t) == None
  {
    ParsedYearText(s);
    var i := FirstIndex(s, '/');
    var rest := s[i + 1..];
    var j := FirstIndex(rest, '/');
    FirstIndexPrefix(s, t, '/');
    assert (s + t)[i + 1..] == rest + t;
    FirstIndexPrefix(rest, t, '/');
    assert (rest + t)[j + 1..] == rest[j + 1..] + t;
    assert YearField(rest[j + 1..] + t) == None;
    YearFieldFails(s + t);
  }

  /** In a string that parses, both `/` are found and four characters follow
      the second. */
  lemma {:induction false} ParsedYearText(s: string)
    requires ExtractYear(s).Some?
    ensures FirstIndex(s, '/') < |s|
    ensures FirstIndex(s[FirstIndex(s, '/') + 1..], '/') < |s[FirstIndex(s, '/') + 1..]|
    ensures |s[FirstIndex(s, '/') + 1..][FirstIndex(s[FirstIndex(s, '/') + 1..], '/') + 1..]| == 4
  {
  }

  /** A string whose text after the second `/` is not a year field does not
      parse. */
  lemma {:induction false} YearFieldFails(u: string)
    requires FirstIndex(u, '/') < |u|
    requires FirstIndex(u[FirstIndex(u, '/') + 1..], '/') < |u[FirstIndex(u, '/') + 1..]|
    requires YearField(u[FirstIndex(u, '/') + 1..][FirstIndex(u[FirstIndex(u, '/') + 1..], '/') + 1..]) == None
    ensures ExtractYear(u) == None
  {
  }

  /** A `c` found in `s` is found at the same place in `s + t`. */
  lemma {:induction false} FirstIndexPrefix(s: string, t: string, c: char)
    requires FirstIndex(s, c) < |s|
    ensures FirstIndex(s + t, c) == FirstIndex(s, c)
    decreases |s|
  {
    if s[0] != c {
      assert (s + t)[1..] == s[1..] + t;
      FirstIndexPrefix(s[1..], t, c);
    }
  }

  // ---------------------------------------------------------------------
  // `prepare_data`
  // ---------------------------------------------------------------------

  /** A table held by reference: `prepare_data` writes its `year` column. */
  class Frame {
    var rows: seq<Row>
    /** The `year` column, absent until `prepare_data` adds it. */
    var years: Option<seq<Option<int>>>

    constructor (rows: seq<Row>)
      ensures this.rows == rows && years == None
    {
      this.rows := rows;
      years := None;
    }
  }

  /** `df['certificate_issue_date'].apply(extract_year)`. */
  function YearColumn(rows: seq<Row>): (col: seq<Option<int>>)
    ensures |col| == |rows|
  {
    seq(|rows|, i requires 0 <= i < |rows| => ExtractYear(rows[i].date))
  }

  /** The rows together with their new `year` cells. */
  function WithYears(rows: seq<Row>): (frame: seq<YearRow>)
    ensures |frame| == |rows|
    ensures forall i :: 0 <= i < |rows| ==> frame[i] == YearRow(rows[i], ExtractYear(rows[i].date))
  {
    seq(|rows|, i requires 0 <= i < |rows| => YearRow(rows[i], ExtractYear(rows[i].date)))
  }

  /** `dropna(subset=['year'])` after the column is added. */
  function Prepared(rows: seq<Row>): seq<YearRow>
  {
    Filter(WithYears(rows), Utils.HasYear)
  }

  predicate DateParses(r: Row)
  {
    ExtractYear(r.date).Some?
  }

  /** `prepare_data`: writes the `year` column into the frame and returns
      the rows that have a year, in order. */
  method PrepareData(df: Frame) returns (prepared: seq<YearRow>)
    modifies df
    ensures df.rows == old(df.rows)
    ensures df.years == Some(YearColumn(df.rows))
    ensures prepared == Prepared(df.rows)
  {
    df.years := Some(YearColumn(df.rows));
    prepared := Filter(WithYears(df.rows), Utils.HasYear);
  }

  /** The prepared rows are exactly the rows whose date parses, in their
      order, each with the year of its date. */
  lemma {:induction false} PreparedRows(rows: seq<Row>)
    ensures RowsOf(Prepared(rows)) == Filter(rows, DateParses)
    ensures forall i :: 0 <= i < |Prepared(rows)| ==>
              Prepared(rows)[i].year == ExtractYear(Prepared(rows)[i].row.date)
              && Prepared(rows)[i].year.Some?
  {
    PreparedRowsInOrder(rows);
    PreparedCells(rows);
  }

  lemma {:induction false} PreparedRowsInOrder(rows: seq<Row>)
    ensures RowsOf(Prepared(rows)) == Filter(rows, DateParses)
  {
    if rows != [] {
      var n := |rows| - 1;
      PreparedRowsInOrder(rows[..n]);
      var w := WithYears(rows);
      assert w[..n] == WithYears(rows[..n]);
      var tail := if Utils.HasYear(w[n]) then [w[n]] else [];
      assert Prepared(rows) == Prepared(rows[..n]) + tail;
      assert Filter(rows, DateParses)
             == Filter(rows[..n], DateParses) + (if DateParses(rows[n]) then [rows[n]] else []);
      assert RowsOf(tail) == if DateParses(rows[n]) then [rows[n]] else [];
      RowsOfAppend(Prepared(rows[..n]), tail);
    }
  }

  lemma {:induction false} RowsOfAppend(a: seq<YearRow>, b: seq<YearRow>)
    ensures RowsOf(a + b) == RowsOf(a) + RowsOf(b)
  {
  }

  /** Every prepared row carries the year of its own date. */
  lemma {:induction false} PreparedCells(rows: seq<Row>)
    ensures forall i :: 0 <= i < |Prepared(rows)| ==>
              Prepared(rows)[i].year == ExtractYear(Prepared(rows)[i].row.date)
              && Prepared(rows)[i].year.Some?
  {
    FilterMembers(WithYears(rows), Utils.HasYear);
    forall i | 0 <= i < |Prepared(rows)|
      ensures Prepared(rows)[i].year == ExtractYear(Prepared(rows)[i].row.date)
    {
      assert Prepared(rows)[i] in WithYears(rows);
    }
  }

  // ---------------------------------------------------------------------
  // `display_kpis`
  // ---------------------------------------------------------------------

  /** The three metrics: the number of kept rows, their summed workload
      (missing workloads skipped) and the hours per year of the span from the
      first to the last year; on an empty frame pandas yields NaN for the
      span and the average, here `None`. */
  datatype Kpis = Kpis(count: nat, totalHours: real, averagePerYear: Option<real>)

  function MinOf(ys: seq<int>): (m: int)
    requires ys != []
    ensures m in ys && forall i :: 0 <= i < |ys| ==> m <= ys[i]
  {
    if |ys| == 1 then ys[0]
    else
      var m := MinOf(ys[..|ys| - 1]);
      assert forall i :: 0 <= i < |ys| - 1 ==> ys[..|ys| - 1][i] == ys[i];
      if ys[|ys| - 1] < m then ys[|ys| - 1] else m
  }

  function MaxOf(ys: seq<int>): (m: int)
    requires ys != []
    ensures m in ys && forall i :: 0 <= i < |ys| ==> ys[i] <= m
  {
    if |ys| == 1 then ys[0]
    else
      var m := MaxOf(ys[..|ys| - 1]);
      assert forall i :: 0 <= i < |ys| - 1 ==> ys[..|ys| - 1][i] == ys[i];
      if ys[|ys| - 1] > m then ys[|ys| - 1] else m
  }

  /** `max() - min() + 1` of the year column of a non-empty prepared frame. */
  function YearSpan(prepared: seq<YearRow>): int
    requires Utils.PresentYears(prepared) != []
  {
    MaxOf(Utils.PresentYears(prepared)) - MinOf(Utils.PresentYears(prepared)) + 1
  }

  function KpisOf(prepared: seq<YearRow>): Kpis
  {
    var total := TotalHours(RowsOf(prepared));
    var years := Utils.PresentYears(prepared);
    Kpis(|prepared|, total,
         if years == [] then None
         else Some(total / (MaxOf(years) - MinOf(years) + 1) as real))
  }

  /** `display_kpis`: prepares the frame (writing its `year` column) and
      computes the three metrics that it displays. */
  method DisplayKpis(df: Frame) returns (kpis: Kpis)
    modifies df
    ensures df.rows == old(df.rows) && df.years == Some(YearColumn(df.rows))
    ensures kpis == KpisOf(Prepared(df.rows))
  {
    var prepared := PrepareData(df);
    var count := |prepared|;
    var totalHours := TotalHours(RowsOf(prepared));
    var years := Utils.PresentYears(prepared);
    var average := None;
    if years != [] {
      var span := MaxOf(years) - MinOf(years) + 1;
      average := Some(totalHours / span as real);
    }
    kpis := Kpis(count, totalHours, average);
  }

  /** Every prepared row has a year, so the year column has one value per row. */
  lemma {:induction false} PreparedYears(rows: seq<Row>)
    ensures |Utils.PresentYears(Prepared(rows))| == |Prepared(rows)|
    ensures forall i :: 0 <= i < |Prepared(rows)| ==>
              Utils.PresentYears(Prepared(rows))[i] == Prepared(rows)[i].year.value
  {
    AllYearsPresent(Prepared(rows));
  }

  lemma {:induction false} AllYearsPresent(frame: seq<YearRow>)
    requires forall i :: 0 <= i < |frame| ==> frame[i].year.Some?
    ensures |Utils.PresentYears(frame)| == |frame|
    ensures forall i :: 0 <= i < |frame| ==> Utils.PresentYears(frame)[i] == frame[i].year.value
  {
    if frame != [] {
      var n := |frame| - 1;
      AllYearsPresent(frame[..n]);
      assert Utils.PresentYears(frame) == Utils.PresentYears(frame[..n]) + [frame[n].year.value];
    }
  }

  /** The count is the number of rows whose date parses and the total is
      their summed workload. */
  lemma {:induction false} KpiCountAndTotal(rows: seq<Row>)
    ensures KpisOf(Prepared(rows)).count == |Filter(rows, DateParses)|
    ensures KpisOf(Prepared(rows)).totalHours == TotalHours(Filter(rows, DateParses))
  {
    PreparedRows(rows);
  }

  /** On a prepared frame (every row has a year): with at least one row the
      span is at least one year and covers every row's year, and the average
      spreads the total over it; with none there is no average. */
  lemma {:induction false} KpiAverage(p: seq<YearRow>)
    requires forall i :: 0 <= i < |p| ==> p[i].year.Some?
    ensures KpisOf(p).averagePerYear.None? <==> p == []
    ensures p != [] ==>
              && Utils.PresentYears(p) != []
              && YearSpan(p) >= 1
              && (forall i :: 0 <= i < |p| ==>
                    MinOf(Utils.PresentYears(p)) <= p[i].year.value <= MaxOf(Utils.PresentYears(p)))
              && KpisOf(p).averagePerYear == Some(KpisOf(p).totalHours / YearSpan(p) as real)
  {
    AllYearsPresent(p);
    if p != [] {
      assert |Utils.PresentYears(p)| == |p|;
    }
  }

  // ---------------------------------------------------------------------
  // `calculate_hours_per_year`
  // ---------------------------------------------------------------------

  /** `calculate_hours_per_year`: prepares the frame, then groups its rows by
      year. */
  method CalculateHoursPerYear(df: Frame) returns (table: seq<Utils.YearHours>)
    modifies df
    ensures df.rows == old(df.rows) && df.years == Some(YearColumn(df.rows))
    ensures table == Utils.HoursPerYear(Prepared(df.rows))
  {
    var prepared := PrepareData(df);
    table := Utils.HoursPerYear(prepared);
  }

  /** The hours per year add up to the KPI total, and the table has one entry
      per year some date parses to, in ascending order. */
  lemma {:induction false} HoursPerYearMatchesKpis(rows: seq<Row>, y: int)
    ensures Utils.TableHours(Utils.HoursPerYear(Prepared(rows))) == KpisOf(Prepared(rows)).totalHours
    ensures forall i, j :: 0 <= i < j < |Utils.HoursPerYear(Prepared(rows))| ==>
              Utils.HoursPerYear(Prepared(rows))[i].year < Utils.HoursPerYear(Prepared(rows))[j].year
    ensures (exists k :: 0 <= k < |Utils.HoursPerYear(Prepared(rows))| && Utils.HoursPerYear(Prepared(rows))[k].year == y)
        <==> (exists i :: 0 <= i < |rows| && ExtractYear(rows[i].date) == Some(y))
  {
    var p := Prepared(rows);
    Utils.HoursPerYearConserves(p);
    FilterAll(p);
    Utils.HoursPerYearKeys(p, y);
    PreparedYearMembers(rows, y);
  }

  /** Filtering the prepared rows on having a year keeps them all. */
  lemma {:induction false} FilterAll(p: seq<YearRow>)
    requires forall i :: 0 <= i < |p| ==> Utils.HasYear(p[i])
    ensures Filter(p, Utils.HasYear) == p
  {
    if p != [] {
      var n := |p| - 1;
      FilterAll(p[..n]);
      assert p == p[..n] + [p[n]];
    }
  }

  /** A year appears among the prepared rows exactly when some date parses to it. */
  lemma {:induction false} PreparedYearMembers(rows: seq<Row>, y: int)
    ensures (exists i :: 0 <= i < |Prepared(rows)| && Prepared(rows)[i].year == Some(y))
        <==> (exists i :: 0 <= i < |rows| && ExtractYear(rows[i].date) == Some(y))
  {
    if exists i :: 0 <= i < |rows| && ExtractYear(rows[i].date) == Some(y) {
      var i :| 0 <= i < |rows| && ExtractYear(rows[i].date) == Some(y);
      PreparedHas(rows, i);
    }
    if exists i :: 0 <= i < |Prepared(rows)| && Prepared(rows)[i].year == Some(y) {
      var i :| 0 <= i < |Prepared(rows)| && Prepared(rows)[i].year == Some(y);
      PreparedFrom(rows, i);
    }
  }

  /** A row whose date parses is among the prepared rows. */
  lemma {:induction false} PreparedHas(rows: seq<Row>, i: int)
    requires 0 <= i < |rows| && ExtractYear(rows[i].date).Some?
    ensures exists k :: 0 <= k < |Prepared(rows)| && Prepared(rows)[k] == YearRow(rows[i], ExtractYear(rows[i].date))
  {
    var e := YearRow(rows[i], ExtractYear(rows[i].date));
    assert WithYears(rows)[i] == e;
    FilterMembers(WithYears(rows), Utils.HasYear);
    assert e in Prepared(rows);
  }

  /** Every prepared row is a row of the input with the year of its date. */
  lemma {:induction false} PreparedFrom(rows: seq<Row>, k: int)
    requires 0 <= k < |Prepared(rows)|
    ensures exists i :: 0 <= i < |rows| && Prepared(rows)[k] == YearRow(rows[i], ExtractYear(rows[i].date))
  {
    FilterMembers(WithYears(rows), Utils.HasYear);
    assert Prepared(rows)[k] in WithYears(rows);
  }

  // ---------------------------------------------------------------------
  // `calculate_hours_per_skill`
  // ---------------------------------------------------------------------

  /** One row of the `(skill, hours)` table. */
  datatype SkillHours = SkillHours(skill: string, hours: Option<real>)

  /** `list(skill_hours.items())`: the entries in key insertion order. */
  function Items(d: Utils.SkillDict): (items: seq<SkillHours>)
    requires forall i :: 0 <= i < |d.keys| ==> d.keys[i] in d.hours
    ensures |items| == |d.keys|
    ensures forall i :: 0 <= i < |items| ==> items[i] == SkillHours(d.keys[i], d.hours[d.keys[i]])
  {
    seq(|d.keys|, i requires 0 <= i < |d.keys| => SkillHours(d.keys[i], d.hours[d.keys[i]]))
  }

  /** The table rows are exactly the dictionary's entries, and a dictionary's
      keys being distinct, no skill appears twice. */
  lemma {:induction false} ItemsAreEntries(d: Utils.SkillDict)
    requires forall i :: 0 <= i < |d.keys| ==> d.keys[i] in d.hours
    ensures forall e :: e in Items(d) <==> e.skill in d.keys && e.skill in d.hours && e.hours == d.hours[e.skill]
    ensures NoDup(d.keys) ==> forall i, j :: 0 <= i < j < |Items(d)| ==> Items(d)[i].skill != Items(d)[j].skill
  {
    forall e: SkillHours | e.skill in d.keys && e.skill in d.hours && e.hours == d.hours[e.skill]
      ensures e in Items(d)
    {
      var i :| 0 <= i < |d.keys| && d.keys[i] == e.skill;
      assert Items(d)[i] == e;
    }
  }

  /** `a` may precede `b` in `sort_values('hours', ascending=False)`: more
      hours first, NaN (`None`) last. */
  predicate HoursFirst(a: SkillHours, b: SkillHours)
  {
    b.hours.None? || (a.hours.Some? && a.hours.value >= b.hours.value)
  }

  lemma {:induction false} HoursFirstIsTotalPreorder()
    ensures TotalPreorder(HoursFirst)
  {
  }

  /** `calculate_hours_per_skill` of `analysis.py`: the dictionary loop of
      `utils.py`, then its items sorted by hours, descending, NaN last. */
  method CalculateHoursPerSkill(df: seq<Row>) returns (table: seq<SkillHours>)
    ensures multiset(table) == multiset(Items(Utils.DictAfter(Utils.Visits(df))))
    ensures forall i, j :: 0 <= i < j < |table| ==> HoursFirst(table[i], table[j])
  {
    var skillHours := Utils.CalculateHoursPerSkill(df);
    HoursFirstIsTotalPreorder();
    table := SortBy(Items(skillHours), HoursFirst);
  }

  /** Each row of the table is an entry of the dictionary. */
  lemma {:induction false} SkillTableEntries(d: Utils.SkillDict, table: seq<SkillHours>)
    requires forall i :: 0 <= i < |d.keys| ==> d.keys[i] in d.hours
    requires multiset(table) == multiset(Items(d))
    ensures forall e :: e in table ==> e.skill in d.hours && e.hours == d.hours[e.skill]
  {
    forall e | e in table
      ensures e.skill in d.hours && e.hours == d.hours[e.skill]
    {
      assert e in multiset(Items(d));
    }
  }

  /** No skill is listed twice. */
  lemma {:induction false} SkillTableDistinct(d: Utils.SkillDict, table: seq<SkillHours>)
    requires forall i :: 0 <= i < |d.keys| ==> d.keys[i] in d.hours
    requires NoDup(d.keys)
    requires multiset(table) == multiset(Items(d))
    ensures forall i, j :: 0 <= i < j < |table| ==> table[i].skill != table[j].skill
  {
    SkillTableEntries(d, table);
    forall i, j | 0 <= i < j < |table|
      ensures table[i].skill != table[j].skill
    {
      if table[i].skill == table[j].skill {
        assert table[i] in table && table[j] in table;
        assert table[i] == table[j];
        SameElementTwice(table, i, j);
        assert table[i] in multiset(Items(d));
        var k :| 0 <= k < |Items(d)| && Items(d)[k] == table[i];
        OnlyOnce(d, k);
      }
    }
  }

  /** Every key of the dictionary has a row. */
  lemma {:induction false} SkillTableCovers(d: Utils.SkillDict, table: seq<SkillHours>, k: string)
    requires forall i :: 0 <= i < |d.keys| ==> d.keys[i] in d.hours
    requires multiset(table) == multiset(Items(d))
    requires k in d.keys
    ensures exists i :: 0 <= i < |table| && table[i].skill == k
  {
    var i :| 0 <= i < |d.keys| && d.keys[i] == k;
    assert Items(d)[i] in multiset(table);
    assert Items(d)[i] in table;
  }

  /** The table lists each skill of the text-skills rows exactly once, with
      its dictionary total, and nothing else. */
  lemma {:induction false} SkillTableContents(df: seq<Row>, table: seq<SkillHours>, k: string)
    requires multiset(table) == multiset(Items(Utils.DictAfter(Utils.Visits(df))))
    ensures forall i, j :: 0 <= i < j < |table| ==> table[i].skill != table[j].skill
    ensures forall e :: e in table ==>
              e.skill in Utils.DictAfter(Utils.Visits(df)).hours
              && e.hours == Utils.DictAfter(Utils.Visits(df)).hours[e.skill]
    ensures (exists i :: 0 <= i < |table| && table[i].skill == k)
        <==> (exists i :: 0 <= i < |df| && k in TextSkills(df[i]))
  {
    var d := Utils.DictAfter(Utils.Visits(df));
    Utils.HoursPerSkillKeys(df);
    SkillTableEntries(d, table);
    SkillTableDistinct(d, table);
    if exists i :: 0 <= i < |df| && k in TextSkills(df[i]) {
      assert k in d.hours;
      Utils.DictAfterEntry(Utils.Visits(df), k);
      SkillTableCovers(d, table, k);
    }
    if exists i :: 0 <= i < |table| && table[i].skill == k {
      var i :| 0 <= i < |table| && table[i].skill == k;
      assert table[i] in table;
    }
  }

  /** An element at two positions occurs twice. */
  lemma {:induction false} SameElementTwice<T>(s: seq<T>, i: int, j: int)
    requires 0 <= i < j < |s| && s[i] == s[j]
    ensures multiset(s)[s[i]] >= 2
  {
    assert s == s[..i] + [s[i]] + s[i + 1..j] + [s[j]] + s[j + 1..];
  }

  /** Every entry of the dictionary's item list occurs once. */
  lemma {:induction false} OnlyOnce(d: Utils.SkillDict, k: int)
    requires forall i :: 0 <= i < |d.keys| ==> d.keys[i] in d.hours
    requires NoDup(d.keys) && 0 <= k < |d.keys|
    ensures multiset(Items(d))[Items(d)[k]] == 1
  {
    var items := Items(d);
    assert NoDup(items) by {
      forall i, j | 0 <= i < j < |items| ensures items[i] != items[j] {
        assert items[i].skill == d.keys[i];
      }
    }
    NoDupMultiset(items);
    assert items[k] in multiset(items);
  }
}
