/**
 * The date operations the rest of the engine calls: `YYYY-MM-DD` parsing and
 * printing, day arithmetic, ISO weekdays and weeks, and inclusive ranges.
 */
module Dates {
  import opened Errors
  import opened Text
  import opened Calendar

  /** Years whose zero-padded four-wide rendering is exactly four characters, so it parses back. */
  predicate Representable(y: int) {
    -999 <= y <= 9999
  }

  /** Rust's four-wide zero-padded format on an `i32`: the sign counts toward the width. */
  function PadYear(y: int): string {
    if y >= 0 then ZeroPad(y, 4) else "-" + ZeroPad(-y, 3)
  }

  /** `fmt_date`. */
  function FormatDate(dt: Date): string
    requires Valid(dt)
  {
    PadYear(dt.y) + "-" + ZeroPad(dt.m, 2) + "-" + ZeroPad(dt.d, 2)
  }

  /** The three numeric fields of a trimmed candidate, or `NoNumber` where one does not parse. */
  function Fields(ss: string): (Parsed, Parsed, Parsed)
    requires |ss| == 10
  {
    (ParseSigned(ss[..4]), ParseUnsigned(ss[5..7]), ParseUnsigned(ss[8..]))
  }

  /**
   * `parse_date`: after trimming, exactly ten characters with '-' at offsets 4
   * and 7, an `i32` year field, `u32` month and day fields, and a valid date.
   * Every failure is a usage error.
   */
  function ParseDate(s: string): (r: Result<Date>)
    ensures r.Ok? ==> Valid(r.value) && Representable(r.value.y)
    ensures r.Err? ==> r.error == Usage
    ensures r.Ok? ==> |Trim(s)| == 10 && Trim(s)[4] == '-' && Trim(s)[7] == '-'
  {
    var ss := Trim(s);
    if |ss| != 10 || ss[4] != '-' || ss[7] != '-' then Err(Usage)
    else
      YearFieldRange(ss[..4]);
      DateOfFields(Fields(ss))
  }

  /** The date the three parsed fields name, when all three parsed and they form a valid date. */
  function DateOfFields(f: (Parsed, Parsed, Parsed)): (r: Result<Date>)
    requires f.0.Number? ==> Representable(f.0.value)
    ensures r.Ok? ==> Valid(r.value) && Representable(r.value.y)
    ensures r.Err? ==> r.error == Usage
  {
    if f.0.Number? && f.1.Number? && f.2.Number? && IsValidDate(f.0.value, f.1.value, f.2.value) then
      Ok(Date(f.0.value, f.1.value, f.2.value))
    else Err(Usage)
  }

  lemma YearFieldRange(f: string)
    requires |f| == 4
    ensures ParseSigned(f).Number? ==> Representable(ParseSigned(f).value)
  {
    if f[0] == '-' || f[0] == '+' {
      if AllDigits(f[1..]) { DigitsBound(f[1..]); }
    } else if AllDigits(f) {
      DigitsBound(f);
    }
  }

  lemma PadYearShape(y: int)
    requires Representable(y)
    ensures |PadYear(y)| == 4
    ensures ParseSigned(PadYear(y)) == Number(y)
    ensures !IsWhitespace(PadYear(y)[0])
  {
    if y >= 0 {
      PadNonNegativeYear(y);
    } else {
      PadNegativeYear(y);
    }
  }

  lemma PadNonNegativeYear(y: int)
    requires 0 <= y <= 9999
    ensures |ZeroPad(y, 4)| == 4 && ParseSigned(ZeroPad(y, 4)) == Number(y) && IsDigit(ZeroPad(y, 4)[0])
  {
    DecimalLength(y);
  }

  lemma PadNegativeYear(y: int)
    requires -999 <= y < 0
    ensures var p := "-" + ZeroPad(-y, 3); |p| == 4 && ParseSigned(p) == Number(y) && p[0] == '-'
  {
    DecimalLength(-y);
    var p := "-" + ZeroPad(-y, 3);
    assert p[1..] == ZeroPad(-y, 3);
  }

  lemma PadTwo(n: nat)
    requires n < 100
    ensures |ZeroPad(n, 2)| == 2
    ensures ParseUnsigned(ZeroPad(n, 2)) == Number(n)
  {
    DecimalLength(n);
  }

  /** The printed layout trims to itself and splits back into its three fields. */
  lemma PrintedFields(py: string, pm: string, pd: string)
    requires |py| == 4 && |pm| == 2 && |pd| == 2 && !IsWhitespace(py[0]) && ParseUnsigned(pd).Number?
    ensures var s := py + "-" + pm + "-" + pd;
      |s| == 10 && s[4] == '-' && s[7] == '-' && Trim(s) == s && Fields(s) == (ParseSigned(py), ParseUnsigned(pm), ParseUnsigned(pd))
  {
    var s := py + "-" + pm + "-" + pd;
    Layout(py, pm, pd);
    assert !IsWhitespace(s[0]) && !IsWhitespace(s[9]);
    TrimNoop(s);
  }

  lemma Layout(py: string, pm: string, pd: string)
    requires |py| == 4 && |pm| == 2 && |pd| == 2
    ensures var s := py + "-" + pm + "-" + pd;
      && |s| == 10 && s[0] == py[0] && s[4] == '-' && s[7] == '-' && s[9] == pd[1]
      && s[..4] == py && s[5..7] == pm && s[8..] == pd
  {
    var s := py + "-" + pm + "-" + pd;
    assert s[..4] == py;
    assert s[5..7] == pm;
    assert s[8..] == pd;
  }

  /** Printing a date and parsing it back gives the same date, for every year that prints in four characters. */
  lemma ParseFormatRoundTrip(dt: Date)
    requires Valid(dt) && Representable(dt.y)
    ensures ParseDate(FormatDate(dt)) == Ok(dt)
  {
    var s := FormatDate(dt);
    var py, pm, pd := PadYear(dt.y), ZeroPad(dt.m, 2), ZeroPad(dt.d, 2);
    assert |py| == 4 && ParseSigned(py) == Number(dt.y) && !IsWhitespace(py[0]) by {
      PadYearShape(dt.y);
    }
    assert |pm| == 2 && ParseUnsigned(pm) == Number(dt.m) by {
      PadTwo(dt.m);
    }
    assert |pd| == 2 && ParseUnsigned(pd) == Number(dt.d) by {
      PadTwo(dt.d);
    }
    PrintedFields(py, pm, pd);
    ParseDateShape(s);
    DateOfFieldsOk(s, dt);
  }

  /** A year outside -999..9999 prints in five or more characters. */
  lemma PadYearLong(y: int)
    requires !Representable(y)
    ensures |PadYear(y)| >= 5
    ensures PadYear(y)[0] == '-' || IsDigit(PadYear(y)[0])
  {
    var n: nat := if y >= 0 then y else -y;
    DigitsBound(Decimal(n));
  }

  /** The printed form of a date whose year does not print in four characters does not parse. */
  lemma ParseFormatLongYear(dt: Date)
    requires Valid(dt) && !Representable(dt.y)
    ensures ParseDate(FormatDate(dt)).Err?
  {
    PadYearLong(dt.y);
    PadTwo(dt.m);
    PadTwo(dt.d);
    LongPrintedNoParse(PadYear(dt.y), ZeroPad(dt.m, 2), ZeroPad(dt.d, 2));
  }

  /** A printed date whose year field is five or more characters long does not parse. */
  lemma LongPrintedNoParse(py: string, pm: string, pd: string)
    requires |py| >= 5 && (py[0] == '-' || IsDigit(py[0])) && |pm| == 2 && |pd| == 2 && AllDigits(pd)
    ensures ParseDate(py + "-" + pm + "-" + pd).Err?
  {
    var s := py + "-" + pm + "-" + pd;
    assert |s| >= 11 && s[0] == py[0] && s[|s| - 1] == pd[1];
    TrimNoop(s);
  }

  /**
   * Parsing a date the engine printed itself: the source prints computed
   * dates and parses them again, which fails exactly when the year does not
   * print in four characters.
   */
  function Reparse(dt: Date): (r: Result<Date>)
    requires Valid(dt)
    ensures r == ParseDate(FormatDate(dt))
  {
    if Representable(dt.y) then
      ParseFormatRoundTrip(dt);
      Ok(dt)
    else
      ParseFormatLongYear(dt);
      Err(Usage)
  }

  /** Once the layout check passes, parsing is deciding the three fields. */
  lemma ParseDateShape(s: string)
    requires var ss := Trim(s); |ss| == 10 && ss[4] == '-' && ss[7] == '-'
    ensures ParseDate(s) == (YearFieldRange(Trim(s)[..4]); DateOfFields(Fields(Trim(s))))
  {
  }

  lemma DateOfFieldsOk(s: string, dt: Date)
    requires |s| == 10
    requires Fields(s) == (Number(dt.y), Number(dt.m), Number(dt.d)) && Valid(dt) && Representable(dt.y)
    ensures DateOfFields(Fields(s)) == Ok(dt)
  {
  }

  lemma ConcatEq(a: string, b: string, c: string, d: string)
    requires |a| == |c|
    ensures (a + b == c + d) <==> (a == c && b == d)
  {
    if a + b == c + d {
      assert a == (a + b)[..|a|] && c == (c + d)[..|c|];
      assert b == (a + b)[|a|..] && d == (c + d)[|c|..];
    }
  }

  /** Comparing `-<digits><rest>` strings whose digit fields have equal width. */
  lemma DashField(x: string, rx: string, y: string, ry: string)
    requires AllDigits(x) && AllDigits(y) && |x| == |y|
    ensures LexLess("-" + x + rx, "-" + y + ry)
      <==> DigitsValue(x) < DigitsValue(y) || (DigitsValue(x) == DigitsValue(y) && LexLess(rx, ry))
    ensures ("-" + x + rx == "-" + y + ry) <==> (DigitsValue(x) == DigitsValue(y) && rx == ry)
  {
    DigitOrder(x, y);
    assert "-" + x + rx == "-" + (x + rx);
    assert "-" + y + ry == "-" + (y + ry);
    LexLessConcat("-", x + rx, "-", y + ry);
    LexLessIrreflexive("-");
    LexLessConcat(x, rx, y, ry);
    ConcatEq("-", x + rx, "-", y + ry);
    ConcatEq(x, rx, y, ry);
  }

  /** The `-MM-DD` tail of printed dates orders like (month, day). */
  lemma MonthDayOrder(a: Date, b: Date)
    requires Valid(a) && Valid(b)
    ensures var ra, rb := "-" + ZeroPad(a.m, 2) + "-" + ZeroPad(a.d, 2), "-" + ZeroPad(b.m, 2) + "-" + ZeroPad(b.d, 2);
      && (LexLess(ra, rb) <==> a.m < b.m || (a.m == b.m && a.d < b.d))
      && (ra == rb <==> a.m == b.m && a.d == b.d)
  {
    PadTwo(a.m);
    PadTwo(b.m);
    PadTwo(a.d);
    PadTwo(b.d);
    DashPair(ZeroPad(a.m, 2), ZeroPad(a.d, 2), ZeroPad(b.m, 2), ZeroPad(b.d, 2));
  }

  /** Two `-MM-DD` tails order like their (month, day) values. */
  lemma DashPair(ma: string, da: string, mb: string, db: string)
    requires AllDigits(ma) && AllDigits(mb) && |ma| == |mb|
    requires AllDigits(da) && AllDigits(db) && |da| == |db|
    ensures var ra, rb := "-" + ma + "-" + da, "-" + mb + "-" + db;
      && (LexLess(ra, rb) <==> DigitsValue(ma) < DigitsValue(mb) || (DigitsValue(ma) == DigitsValue(mb) && DigitsValue(da) < DigitsValue(db)))
      && (ra == rb <==> DigitsValue(ma) == DigitsValue(mb) && DigitsValue(da) == DigitsValue(db))
  {
    DashField(da, [], db, []);
    AppendNil("-" + da);
    AppendNil("-" + db);
    DashField(ma, "-" + da, mb, "-" + db);
    AppendAssoc("-" + ma, "-", da);
    AppendAssoc("-" + mb, "-", db);
  }

  lemma FormatSplit(dt: Date)
    requires Valid(dt)
    ensures FormatDate(dt) == PadYear(dt.y) + ("-" + ZeroPad(dt.m, 2) + "-" + ZeroPad(dt.d, 2))
  {
    DashAssoc(PadYear(dt.y), ZeroPad(dt.m, 2), ZeroPad(dt.d, 2));
  }

  lemma DashAssoc(y: string, m: string, d: string)
    ensures y + "-" + m + "-" + d == y + ("-" + m + "-" + d)
  {
  }

  /** For years 0..9999, comparing printed dates as strings is comparing the dates. */
  lemma FormatOrder(a: Date, b: Date)
    requires Valid(a) && Valid(b) && 0 <= a.y <= 9999 && 0 <= b.y <= 9999
    ensures LexLess(FormatDate(a), FormatDate(b)) <==> DateLt(a, b)
    ensures FormatDate(a) == FormatDate(b) <==> a == b
  {
    PadYearShape(a.y);
    PadYearShape(b.y);
    var ya, yb := ZeroPad(a.y, 4), ZeroPad(b.y, 4);
    var ra, rb := "-" + ZeroPad(a.m, 2) + "-" + ZeroPad(a.d, 2), "-" + ZeroPad(b.m, 2) + "-" + ZeroPad(b.d, 2);
    FormatSplit(a);
    FormatSplit(b);
    DigitOrder(ya, yb);
    MonthDayOrder(a, b);
    LexLessConcat(ya, ra, yb, rb);
    ConcatEq(ya, ra, yb, rb);
  }

  /** For years 0..9999, "printed `a` is not before printed `b`" is "`b` is on or before `a`". */
  lemma FormatNotBefore(a: Date, b: Date)
    requires Valid(a) && Valid(b) && 0 <= a.y <= 9999 && 0 <= b.y <= 9999
    ensures !LexLess(FormatDate(a), FormatDate(b)) <==> DateLe(b, a)
  {
    FormatOrder(a, b);
  }

  /** The source's validation examples: a leap day parses in a leap year ... */
  lemma ParseLeapDayTest(s: string)
    requires s == "2024-02-29"
    ensures ParseDate(s) == Ok(Date(2024, 2, 29))
  {
    TrimNoop(s);
    ParseDateShape(s);
    LeapYearFields(s);
    DateOfFieldsOk(s, Date(2024, 2, 29));
  }

  lemma LeapYearFields(s: string)
    requires s == "2024-02-29"
    ensures Fields(s) == (Number(2024), Number(2), Number(29))
  {
    assert s[..4] == "2024" && s[5..7] == "02" && s[8..] == "29";
    FourDigits(s[..4]);
    TwoDigits(s[5..7]);
    TwoDigits(s[8..]);
  }

  /** ... and is rejected in a common year ... */
  lemma ParseRejectsLeapDay(s: string)
    requires s == "2026-02-29"
    ensures ParseDate(s).Err?
  {
    TrimNoop(s);
    ParseDateShape(s);
    LeapDayFields(s);
    assert !IsValidDate(2026, 2, 29);
  }

  lemma LeapDayFields(s: string)
    requires s == "2026-02-29"
    ensures Fields(s) == (Number(2026), Number(2), Number(29))
  {
    assert s[..4] == "2026" && s[5..7] == "02" && s[8..] == "29";
    FourDigits(s[..4]);
    TwoDigits(s[5..7]);
    TwoDigits(s[8..]);
  }

  /** The value of a two-digit field. */
  lemma TwoDigits(s: string)
    requires |s| == 2 && AllDigits(s)
    ensures DigitsValue(s) == (s[0] as int - '0' as int) * 10 + (s[1] as int - '0' as int)
  {
    var h := s[..1];
    assert h[..0] == [] && h[0] == s[0];
    assert DigitsValue(h) == s[0] as int - '0' as int;
    assert s[..|s| - 1] == h;
  }

  /** The value of a four-digit field. */
  lemma FourDigits(s: string)
    requires |s| == 4 && AllDigits(s)
    ensures DigitsValue(s) == (s[0] as int - '0' as int) * 1000 + (s[1] as int - '0' as int) * 100
                              + (s[2] as int - '0' as int) * 10 + (s[3] as int - '0' as int)
  {
    assert s[..3][..2] == s[..2];
    TwoDigits(s[..2]);
  }

  /** ... as is month 13. */
  lemma ParseRejectsMonth13(s: string)
    requires s == "2026-13-01"
    ensures ParseDate(s).Err?
  {
    TrimNoop(s);
    ParseDateShape(s);
    assert s[5..7] == "13" == Decimal(13);
    assert ParseUnsigned(s[5..7]) == Number(13);
  }

  /**
   * How the source orders two dates: by comparing their `YYYY-MM-DD` strings
   * as text. `FormatOrder` shows this is date order for years 0..9999.
   */
  predicate TextBefore(a: Date, b: Date)
    requires Valid(a) && Valid(b)
  {
    LexLess(FormatDate(a), FormatDate(b))
  }

  lemma ZeroPadTests()
    ensures ZeroPad(1, 2) == "01" && ZeroPad(2, 2) == "02"
    ensures ZeroPad(1, 3) == "001" && ZeroPad(2, 3) == "002"
  {
    assert Decimal(1) == "1" && Decimal(2) == "2";
    assert Zeros(1) == "0" && Zeros(2) == "00";
  }

  lemma PadTests()
    ensures PadYear(2026) == "2026"
    ensures ZeroPad(1, 2) == "01" && ZeroPad(2, 2) == "02"
    ensures ZeroPad(25, 2) == "25" && ZeroPad(31, 2) == "31"
  {
    DecimalTests();
    ZeroPadTests();
    assert ZeroPad(25, 2) == Decimal(25);
    assert ZeroPad(31, 2) == Decimal(31);
    assert PadYear(2026) == Decimal(2026);
  }

  lemma DecimalTests()
    ensures Decimal(2026) == "2026" && Decimal(31) == "31" && Decimal(25) == "25"
  {
    assert Decimal(20) == "20";
    assert Decimal(202) == "202";
    assert Decimal(3) == "3" && Decimal(5) == "5";
  }

  lemma FormatYearMinusOne()
    ensures FormatDate(Date(-1, 1, 1)) == "-001-01-01"
  {
    ZeroPadTests();
  }

  lemma FormatYearMinusTwo()
    ensures FormatDate(Date(-2, 1, 1)) == "-002-01-01"
  {
    ZeroPadTests();
  }

  /**
   * For years before 0, which `ParseDate` accepts, text order is not date
   * order: "-002-01-01" is the earlier date but the later string.
   */
  lemma TextOrderNegativeYears()
    ensures DateLt(Date(-2, 1, 1), Date(-1, 1, 1))
    ensures TextBefore(Date(-1, 1, 1), Date(-2, 1, 1))
  {
    FormatYearMinusOne();
    FormatYearMinusTwo();
    NegativeYearTexts();
  }

  lemma NegativeYearTexts()
    ensures LexLess("-001-01-01", "-002-01-01")
  {
    assert "-001-01-01" == "-00" + "1-01-01" && "-002-01-01" == "-00" + "2-01-01";
    assert "1-01-01" == ['1'] + "-01-01" && "2-01-01" == ['2'] + "-01-01";
    LexLessHead("-01-01", "-01-01", '1', '2');
    LexLessCommonPrefix("-00", "1-01-01", "2-01-01");
  }

  lemma ParseNegativeYear()
    ensures ParseDate("-002-01-01") == Ok(Date(-2, 1, 1))
  {
    FormatYearMinusTwo();
    ParseFormatRoundTrip(Date(-2, 1, 1));
  }

  // ---------------------------------------------------------------------------
  // Day arithmetic and ISO weeks
  // ---------------------------------------------------------------------------

  /** `add_days`: the date `k` days later (earlier for negative `k`). */
  function AddDays(dt: Date, k: int): (r: Date)
    requires Valid(dt)
    ensures Valid(r) && DayNumber(r) == DayNumber(dt) + k
  {
    var z := DayNumber(dt) + k;
    DaysRoundTrip(z);
    CivilFromDays(z)
  }

  lemma AddDaysInverse(dt: Date, k: int)
    requires Valid(dt)
    ensures AddDays(AddDays(dt, k), -k) == dt
  {
    var back := AddDays(AddDays(dt, k), -k);
    DateOrderIsDayOrder(back, dt);
  }

  lemma AddDaysZero(dt: Date)
    requires Valid(dt)
    ensures AddDays(dt, 0) == dt
  {
    DateOrderIsDayOrder(AddDays(dt, 0), dt);
  }

  /** Day number 0 is 1970-01-01. */
  lemma Epoch()
    ensures CivilFromDays(0) == Date(1970, 1, 1)
    ensures DayNumber(Date(1970, 1, 1)) == 0
  {
    EpochCivil();
    DaysRoundTrip(0);
  }

  lemma EpochCivil()
    ensures CivilFromDays(0) == Date(1970, 1, 1)
  {
    assert Quot(719468, 146097) == 4;
    assert YearOfEra(135080) == 369;
    assert (5 * 306 + 2) / 153 == 10;
  }

  /** `iso_weekday`: Monday = 1 ... Sunday = 7. */
  function IsoWeekday(dt: Date): (w: int)
    requires Valid(dt)
    ensures 1 <= w <= 7
  {
    WeekdayOfDay(DayNumber(dt))
  }

  /** Weekday of a day number, Monday = 1; day 0 (1970-01-01) was a Thursday. */
  function WeekdayOfDay(z: int): (w: int)
    ensures 1 <= w <= 7
  {
    (z + 3) % 7 + 1
  }

  lemma WeekdayOfDayStep(z: int)
    ensures WeekdayOfDay(z + 1) == WeekdayOfDay(z) % 7 + 1
  {
  }

  lemma WeekdayOfDayPeriod(a: int, b: int)
    ensures WeekdayOfDay(a) == WeekdayOfDay(b) <==> (b - a) % 7 == 0
  {
  }

  lemma WeekdayOfDayMonday(z: int, k: int)
    requires k == -(WeekdayOfDay(z) - 1)
    ensures WeekdayOfDay(z + k) == 1 && -6 <= k <= 0
  {
  }

  lemma WeekdayOfDayThursday(z: int)
    ensures WeekdayOfDay(z + (4 - WeekdayOfDay(z))) == 4
  {
  }

  lemma WeekdayOfDayThursdayBack(z: int)
    requires WeekdayOfDay(z) == 4
    ensures WeekdayOfDay(z - 3) == 1
  {
  }

  lemma WeekdayOfDaySunday(z: int)
    requires WeekdayOfDay(z) == 1
    ensures WeekdayOfDay(z + 6) == 7
  {
  }

  /** The weekday advances by one each day, wrapping from Sunday to Monday. */
  lemma IsoWeekdayNext(dt: Date)
    requires Valid(dt)
    ensures IsoWeekday(AddDays(dt, 1)) == IsoWeekday(dt) % 7 + 1
  {
    NextWeekdayAt(dt, AddDays(dt, 1));
  }

  lemma NextWeekdayAt(dt: Date, next: Date)
    requires Valid(dt) && Valid(next) && DayNumber(next) == DayNumber(dt) + 1
    ensures IsoWeekday(next) == IsoWeekday(dt) % 7 + 1
  {
    WeekdayOfDayStep(DayNumber(dt));
  }

  /** Two dates share a weekday exactly when their day numbers differ by a multiple of seven. */
  lemma IsoWeekdayPeriod(a: Date, b: Date)
    requires Valid(a) && Valid(b)
    ensures IsoWeekday(a) == IsoWeekday(b) <==> (DayNumber(b) - DayNumber(a)) % 7 == 0
  {
    WeekdayOfDayPeriod(DayNumber(a), DayNumber(b));
  }

  /** `iso_week_start`: the Monday on or before the date. */
  function IsoWeekStart(dt: Date): (r: Date)
    requires Valid(dt)
    ensures Valid(r) && IsoWeekday(r) == 1
    ensures DayNumber(r) <= DayNumber(dt) < DayNumber(r) + 7
  {
    var k := -(IsoWeekday(dt) - 1);
    WeekdayOfDayMonday(DayNumber(dt), k);
    AddDays(dt, k)
  }

  /** `iso_week_end`: six days after the week start, the Sunday on or after the date. */
  function IsoWeekEnd(dt: Date): (r: Date)
    requires Valid(dt)
    ensures Valid(r) && IsoWeekday(r) == 7
    ensures DayNumber(r) == DayNumber(IsoWeekStart(dt)) + 6
    ensures DayNumber(dt) <= DayNumber(r)
  {
    var ws := IsoWeekStart(dt);
    var r := AddDays(ws, 6);
    SixDaysAfterMonday(ws, r);
    r
  }

  lemma SixDaysAfterMonday(ws: Date, r: Date)
    requires Valid(ws) && Valid(r) && IsoWeekday(ws) == 1 && DayNumber(r) == DayNumber(ws) + 6
    ensures IsoWeekday(r) == 7
  {
    WeekdayOfDaySunday(DayNumber(ws));
  }

  lemma SameWeekArith(x: int, y: int, z: int)
    requires x <= z < x + 7 && y <= z < y + 7 && (y - x) % 7 == 0
    ensures x == y
  {
  }

  /** All dates of one ISO week share its start. */
  lemma IsoWeekStartSame(a: Date, b: Date)
    requires Valid(a) && Valid(b)
    requires DayNumber(IsoWeekStart(a)) <= DayNumber(b) <= DayNumber(IsoWeekEnd(a))
    ensures IsoWeekStart(b) == IsoWeekStart(a)
  {
    MondaysOfOneDay(IsoWeekStart(a), IsoWeekStart(b), b);
  }

  /** Two Mondays within the six days before one date are the same date. */
  lemma MondaysOfOneDay(sa: Date, sb: Date, b: Date)
    requires Valid(sa) && Valid(sb) && Valid(b) && IsoWeekday(sa) == 1 && IsoWeekday(sb) == 1
    requires DayNumber(sa) <= DayNumber(b) < DayNumber(sa) + 7
    requires DayNumber(sb) <= DayNumber(b) < DayNumber(sb) + 7
    ensures sa == sb
  {
    IsoWeekdayPeriod(sa, sb);
    SameWeekArith(DayNumber(sa), DayNumber(sb), DayNumber(b));
    DateOrderIsDayOrder(sa, sb);
  }

  /** A week start lies in its own week: it is its own week start and has the same week end. */
  lemma WeekOfWeekStart(dt: Date)
    requires Valid(dt)
    ensures IsoWeekStart(IsoWeekStart(dt)) == IsoWeekStart(dt)
    ensures IsoWeekEnd(IsoWeekStart(dt)) == IsoWeekEnd(dt)
  {
    IsoWeekStartSame(dt, IsoWeekStart(dt));
  }

  lemma DayNumberTests()
    ensures DayNumber(Date(2026, 1, 31)) == 20484
    ensures DayNumber(Date(2026, 1, 26)) == 20479
    ensures DayNumber(Date(2026, 2, 1)) == 20485
    ensures DayNumber(Date(2026, 1, 2)) == 20455
    ensures DayNumber(Date(2026, 1, 25)) == 20478
  {
  }

  lemma WeekTests()
    ensures IsoWeekday(Date(2026, 1, 31)) == 6
    ensures IsoWeekStart(Date(2026, 1, 31)) == Date(2026, 1, 26)
    ensures IsoWeekEnd(Date(2026, 1, 31)) == Date(2026, 2, 1)
  {
    DayNumberTests();
    WeekStartIs(Date(2026, 1, 31), Date(2026, 1, 26));
    SameDayNumber(IsoWeekEnd(Date(2026, 1, 31)), Date(2026, 2, 1));
  }

  /** A Monday among the seven days ending at a date is that date's week start. */
  lemma WeekStartIs(dt: Date, monday: Date)
    requires Valid(dt) && Valid(monday) && IsoWeekday(monday) == 1
    requires DayNumber(monday) <= DayNumber(dt) < DayNumber(monday) + 7
    ensures IsoWeekStart(dt) == monday
  {
    MondaysOfOneDay(IsoWeekStart(dt), monday, dt);
  }

  lemma SameDayNumber(a: Date, b: Date)
    requires Valid(a) && Valid(b) && DayNumber(a) == DayNumber(b)
    ensures a == b
  {
    DateOrderIsDayOrder(a, b);
  }

  /** The ISO week label `YYYY-Www`. */
  datatype WeekId = WeekId(year: int, week: int)

  function FormatWeekId(w: WeekId): string
    requires w.week >= 0
  {
    PadYear(w.year) + "-W" + ZeroPad(w.week, 2)
  }

  /**
   * `iso_week_id`: the week belongs to the year of its Thursday, and its number
   * counts weeks from the Monday of the week holding January 4 of that year.
   * The source re-parses three dates it printed; each fails when its year does
   * not print in four characters.
   */
  function IsoWeekId(weekStart: Date): (r: Result<WeekId>)
    requires Valid(weekStart)
    ensures r.Ok? ==> r.value.year == AddDays(IsoWeekStart(weekStart), 3).y
    ensures r.Ok? ==> 1 <= r.value.week <= 53
    ensures r.Err? ==> r.error == Usage
  {
    var thursday := AddDays(weekStart, 4 - IsoWeekday(weekStart));
    var weekYear := thursday.y;
    if !Representable(weekYear) then Err(Usage)
    else
      var week1Monday := IsoWeekStart(Date(weekYear, 1, 4));
      var ws := IsoWeekStart(weekStart);
      if !Representable(ws.y) || !Representable(week1Monday.y) then Err(Usage)
      else
        ThursdayOfWeek(weekStart);
        WeekNumberRange(thursday, ws, week1Monday);
        Ok(WeekId(weekYear, 1 + (DayNumber(ws) - DayNumber(week1Monday)) / 7))
  }

  /** January 4 is three days after January 1, and December 31 at most 365 days after it. */
  lemma YearSpan(y: int)
    ensures DayNumber(Date(y, 1, 4)) == DayNumber(Date(y, 1, 1)) + 3
    ensures DayNumber(Date(y, 12, 31)) <= DayNumber(Date(y, 1, 1)) + 365
  {
    SameMonthShift(y, 1, 1, 4);
    YearEndSpan(y);
  }

  /** Within one month, day numbers advance with the day of the month. */
  lemma SameMonthShift(y: int, m: int, d1: int, d2: int)
    requires 1 <= m <= 12 && 1 <= d1 && 1 <= d2
    ensures DaysFromCivil(y, m, d2) == DaysFromCivil(y, m, d1) + (d2 - d1)
  {
  }

  lemma YearEndSpan(y: int)
    ensures DaysFromCivil(y, 12, 31) <= DaysFromCivil(y, 1, 1) + 365
  {
    DaysFromCivilClosedForm(y, 1, 1);
    DaysFromCivilClosedForm(y, 12, 31);
    assert DayOfYear(1, 1) == 306 && DayOfYear(12, 31) == 305;
    LeapDaysStep(y);
  }

  lemma WeekNumberArith(t: int, j1: int, dec31: int, w1: int, ws: int)
    requires j1 <= t <= dec31 <= j1 + 365
    requires w1 <= j1 + 3 < w1 + 7
    requires ws == t - 3 && WeekdayOfDay(ws) == 1 && WeekdayOfDay(w1) == 1
    ensures WeekOffset(ws - w1)
  {
    WeekdayOfDayPeriod(w1, ws);
  }

  /** A whole number of weeks, fewer than 53, between two Mondays. */
  predicate WeekOffset(days: int) {
    0 <= days <= 364 && days % 7 == 0
  }

  /** The Thursday the source computes from any day of a week is three days after the week start. */
  lemma ThursdayOfWeek(weekStart: Date)
    requires Valid(weekStart)
    ensures AddDays(weekStart, 4 - IsoWeekday(weekStart)) == AddDays(IsoWeekStart(weekStart), 3)
    ensures IsoWeekday(AddDays(weekStart, 4 - IsoWeekday(weekStart))) == 4
  {
    var th := AddDays(weekStart, 4 - IsoWeekday(weekStart));
    ThursdayAt(weekStart, th);
    DateOrderIsDayOrder(th, AddDays(IsoWeekStart(weekStart), 3));
  }

  lemma ThursdayAt(dt: Date, th: Date)
    requires Valid(dt) && Valid(th) && DayNumber(th) == DayNumber(dt) + (4 - IsoWeekday(dt))
    ensures IsoWeekday(th) == 4
  {
    WeekdayOfDayThursday(DayNumber(dt));
  }

  /**
   * The Thursday of a week lies in the year it is numbered in, which bounds
   * the week number: the week's Monday lies a whole number of weeks, fewer
   * than 53, after the Monday of that year's week 1.
   */
  lemma WeekNumberRange(thursday: Date, ws: Date, monday1: Date)
    requires Valid(thursday) && IsoWeekday(thursday) == 4
    requires Valid(ws) && DayNumber(ws) == DayNumber(thursday) - 3
    requires Valid(monday1) && IsoWeekday(monday1) == 1
    requires DayNumber(monday1) <= DayNumber(Date(thursday.y, 1, 4)) < DayNumber(monday1) + 7
    ensures WeekOffset(DayNumber(ws) - DayNumber(monday1))
  {
    var y := thursday.y;
    var t := DayNumber(thursday);
    var j1, dec31 := DayNumber(Date(y, 1, 1)), DayNumber(Date(y, 12, 31));
    assert j1 <= t <= dec31 <= j1 + 365 && DayNumber(Date(y, 1, 4)) == j1 + 3 by {
      WithinItsYear(thursday);
      YearSpan(y);
    }
    assert WeekdayOfDay(DayNumber(ws)) == 1 by {
      WeekdayOfDayThursdayBack(t);
    }
    WeekNumberArith(t, j1, dec31, DayNumber(monday1), DayNumber(ws));
  }

  /** A valid date lies between January 1 and December 31 of its year. */
  lemma WithinItsYear(dt: Date)
    requires Valid(dt)
    ensures DayNumber(Date(dt.y, 1, 1)) <= DayNumber(dt) <= DayNumber(Date(dt.y, 12, 31))
  {
    DateOrderIsDayOrder(Date(dt.y, 1, 1), dt);
    DateOrderIsDayOrder(dt, Date(dt.y, 12, 31));
  }

  /** `IsoWeekId` in terms of the three dates it computes, when all three print in four characters. */
  lemma IsoWeekIdOk(weekStart: Date, thursday: Date, week1Monday: Date, ws: Date)
    requires Valid(weekStart)
    requires thursday == AddDays(weekStart, 4 - IsoWeekday(weekStart)) && Representable(thursday.y)
    requires week1Monday == IsoWeekStart(Date(thursday.y, 1, 4)) && Representable(week1Monday.y)
    requires ws == IsoWeekStart(weekStart) && Representable(ws.y)
    ensures IsoWeekId(weekStart).Ok?
    ensures IsoWeekId(weekStart).value.year == thursday.y
    ensures IsoWeekId(weekStart).value.week == 1 + (DayNumber(ws) - DayNumber(week1Monday)) / 7
  {
  }

  /** The Thursday of the week holding January 4 falls within January 1..7 of the same year. */
  lemma January4Thursday(y: int)
    ensures AddDays(IsoWeekStart(Date(y, 1, 4)), 3).y == y
  {
    var thursday := AddDays(IsoWeekStart(Date(y, 1, 4)), 3);
    YearSpan(y);
    DaysFromCivilClosedForm(y, 1, 7);
    DaysFromCivilClosedForm(y, 1, 4);
    assert DayOfYear(1, 7) == DayOfYear(1, 4) + 3;
    DateOrderIsDayOrder(Date(y, 1, 1), thursday);
    DateOrderIsDayOrder(thursday, Date(y, 1, 7));
  }

  /** The Monday of the week holding January 4 falls on December 29 of the year before at the earliest. */
  lemma January4Monday(y: int)
    ensures y - 1 <= IsoWeekStart(Date(y, 1, 4)).y
  {
    MondayNearJanuary4(y, IsoWeekStart(Date(y, 1, 4)));
  }

  lemma MondayNearJanuary4(y: int, ws: Date)
    requires Valid(ws) && DayNumber(ws) <= DayNumber(Date(y, 1, 4)) < DayNumber(ws) + 7
    ensures y - 1 <= ws.y
  {
    AcrossNewYear(y, 29, 4);
    DateOrderIsDayOrder(Date(y - 1, 12, 29), ws);
  }

  /** January of one year follows December of the year before without a gap. */
  lemma AcrossNewYear(y: int, d1: int, d2: int)
    requires 1 <= d1 && 1 <= d2
    ensures DaysFromCivil(y, 1, d2) == DaysFromCivil(y - 1, 12, d1) + (d2 + 31 - d1)
  {
  }

  /** A week start is never later than the dates of its week, so never in a later year. */
  lemma WeekStartYear(dt: Date)
    requires Valid(dt)
    ensures IsoWeekStart(dt).y <= dt.y
  {
    DateOrderIsDayOrder(IsoWeekStart(dt), dt);
  }

  /** Week 1 of a year is the week holding its January 4. */
  lemma WeekOneHoldsJanuary4(y: int)
    requires -998 <= y <= 9999
    ensures IsoWeekId(IsoWeekStart(Date(y, 1, 4))) == Ok(WeekId(y, 1))
  {
    var ws := IsoWeekStart(Date(y, 1, 4));
    January4Thursday(y);
    January4Monday(y);
    WeekStartYear(Date(y, 1, 4));
    ThursdayOfWeek(ws);
    IsoWeekStartSame(Date(y, 1, 4), ws);
    var thursday := AddDays(ws, 3);
    assert thursday == AddDays(ws, 4 - IsoWeekday(ws));
    assert thursday.y == y;
    IsoWeekIdOk(ws, thursday, ws, ws);
  }

  lemma WeekLabelTest()
    ensures FormatWeekId(WeekId(2026, 5)) == "2026-W05"
  {
    assert Decimal(5) == "5";
    assert Decimal(2026) == "2026";
  }

  // ---------------------------------------------------------------------------
  // The same operations on date text, as the store-facing code calls them
  // ---------------------------------------------------------------------------

  /** `add_days` on text: parse, move, print. */
  function AddDaysText(s: string, k: int): (r: Result<string>)
    ensures r.Ok? <==> ParseDate(s).Ok?
    ensures r.Err? ==> r.error == Usage
    ensures r.Ok? ==> r.value == FormatDate(AddDays(ParseDate(s).value, k))
  {
    var dt :- ParseDate(s);
    Ok(FormatDate(AddDays(dt, k)))
  }

  /** `iso_week_start` on text: the printed Monday of the date's week. */
  function IsoWeekStartText(s: string): (r: Result<string>)
    ensures r.Ok? <==> ParseDate(s).Ok?
    ensures r.Ok? ==> r.value == FormatDate(IsoWeekStart(ParseDate(s).value))
  {
    var dt :- ParseDate(s);
    var wd := IsoWeekday(dt);
    AddDaysText(s, -(wd - 1))
  }

  /**
   * `iso_week_end` on text: the printed Sunday of the date's week. The
   * Monday is printed and parsed again first, so a week starting in year
   * -1000 is a usage error.
   */
  function IsoWeekEndText(s: string): (r: Result<string>)
    ensures r.Ok? <==> ParseDate(s).Ok? && Representable(IsoWeekStart(ParseDate(s).value).y)
    ensures r.Err? ==> r.error == Usage
    ensures r.Ok? ==> r.value == FormatDate(IsoWeekEnd(ParseDate(s).value))
  {
    var start :- IsoWeekStartText(s);
    ghost var dt := ParseDate(s).value;
    assert ParseDate(start) == Reparse(IsoWeekStart(dt));
    AddDaysText(start, 6)
  }

  // ---------------------------------------------------------------------------
  // Inclusive date ranges
  // ---------------------------------------------------------------------------

  /** The `n` consecutive dates starting at `start`. */
  function DaysFrom(start: Date, n: nat): (r: seq<Date>)
    requires Valid(start)
    ensures |r| == n && AllValid(r)
    ensures forall i :: 0 <= i < n ==> r[i] == AddDays(start, i)
  {
    seq(n, i requires 0 <= i < n => AddDays(start, i))
  }

  lemma DaysFromSnoc(start: Date, n: nat)
    requires Valid(start)
    ensures DaysFrom(start, n + 1) == DaysFrom(start, n) + [AddDays(start, n)]
  {
    var a, b := DaysFrom(start, n + 1), DaysFrom(start, n);
    forall i | 0 <= i < n
      ensures a[i] == b[i]
    {
      DaysFromAgree(start, n + 1, n, i);
    }
    SnocAt(a, b, AddDays(start, n));
  }

  lemma DaysFromAgree(start: Date, n: nat, m: nat, i: nat)
    requires Valid(start) && i < n && i < m
    ensures DaysFrom(start, n)[i] == DaysFrom(start, m)[i]
  {
  }

  lemma DaysFromIndex(start: Date, n: nat, d: Date)
    requires Valid(start) && Valid(d)
    ensures d in DaysFrom(start, n) <==> DayNumber(start) <= DayNumber(d) < DayNumber(start) + n
  {
    var r := DaysFrom(start, n);
    if d in r {
      var i :| 0 <= i < |r| && r[i] == d;
      assert r[i] == AddDays(start, i);
    }
    if DayNumber(start) <= DayNumber(d) < DayNumber(start) + n {
      var i := DayNumber(d) - DayNumber(start);
      assert r[i] == AddDays(start, i);
      DateOrderIsDayOrder(r[i], d);
    }
  }

  /**
   * The dates from `from` to `to`, both included, one day apart: the loop
   * `while cur <= end` over day numbers, so none when `to` is the earlier
   * date.
   */
  function DatesBetween(from: Date, to: Date): (r: seq<Date>)
    requires Valid(from) && Valid(to)
    ensures AllValid(r)
  {
    if DayNumber(to) < DayNumber(from) then [] else DaysFrom(from, DayNumber(to) - DayNumber(from) + 1)
  }

  /** A date lies in the range exactly when it is between its ends. */
  lemma DatesBetweenMembers(from: Date, to: Date, d: Date)
    requires Valid(from) && Valid(to) && Valid(d)
    ensures d in DatesBetween(from, to) <==> DateLe(from, d) && DateLe(d, to)
  {
    DateOrderIsDayOrder(from, d);
    DateOrderIsDayOrder(d, to);
    if DayNumber(from) <= DayNumber(to) {
      DaysFromIndex(from, DayNumber(to) - DayNumber(from) + 1, d);
    }
  }

  /** The range is strictly increasing, one day per step. */
  lemma DaysFromAscending(start: Date, n: nat, i: int, j: int)
    requires Valid(start) && 0 <= i < j < n
    ensures DateLt(DaysFrom(start, n)[i], DaysFrom(start, n)[j])
    ensures DaysFrom(start, n)[i + 1] == AddDays(DaysFrom(start, n)[i], 1)
  {
    var r := DaysFrom(start, n);
    DateOrderIsDayOrder(r[i], r[j]);
    DateOrderIsDayOrder(r[i + 1], AddDays(r[i], 1));
  }

  /**
   * `date_range_inclusive` as written: both texts must parse, and `from`
   * must not sort after `to` as text, byte by byte; then the dates from the
   * one to the other. Text order is not date order for negative years, and
   * a space or sign that parsing trims away still takes part in the
   * comparison.
   */
  function TextRange(from: string, to: string): (r: Result<seq<Date>>)
    ensures r.Err? <==> ParseDate(from).Err? || ParseDate(to).Err? || LexLess(to, from)
    ensures r.Err? ==> r.error == Usage
    ensures r.Ok? ==> AllValid(r.value)
  {
    var f :- ParseDate(from);
    var t :- ParseDate(to);
    if LexLess(to, from) then Err(Usage) else Ok(DatesBetween(f, t))
  }

  /** A successful range holds exactly the dates between the parsed ends. */
  lemma TextRangeMembers(from: string, to: string, d: Date)
    requires TextRange(from, to).Ok? && Valid(d)
    ensures d in TextRange(from, to).value <==> DateLe(ParseDate(from).value, d) && DateLe(d, ParseDate(to).value)
  {
    DatesBetweenMembers(ParseDate(from).value, ParseDate(to).value, d);
  }

  /** The range as evidently intended: a usage error exactly when `to` is the earlier date. */
  function DayRange(from: Date, to: Date): (r: Result<seq<Date>>)
    requires Valid(from) && Valid(to)
    ensures r.Err? <==> DateLt(to, from)
    ensures r.Err? ==> r.error == Usage
  {
    if DateLt(to, from) then Err(Usage) else Ok(DatesBetween(from, to))
  }

  /** For years 0 to 9999 the two agree: the range of two printed dates is the range of the dates. */
  lemma TextRangePrinted(a: Date, b: Date)
    requires Valid(a) && Valid(b) && 0 <= a.y <= 9999 && 0 <= b.y <= 9999
    ensures TextRange(FormatDate(a), FormatDate(b)) == DayRange(a, b)
  {
    ParseFormatRoundTrip(a);
    ParseFormatRoundTrip(b);
    FormatOrder(b, a);
  }

  lemma ParseYearMinusOne()
    ensures ParseDate("-001-01-01") == Ok(Date(-1, 1, 1))
  {
    FormatYearMinusOne();
    ParseFormatRoundTrip(Date(-1, 1, 1));
  }

  /**
   * Both texts parse and year -2 comes first, yet the text range refuses
   * them, because "-001-01-01" sorts before "-002-01-01".
   */
  lemma TextRangeNegativeYears()
    ensures ParseDate("-002-01-01") == Ok(Date(-2, 1, 1)) && ParseDate("-001-01-01") == Ok(Date(-1, 1, 1))
    ensures TextRange("-002-01-01", "-001-01-01") == Err(Usage)
    ensures DayRange(Date(-2, 1, 1), Date(-1, 1, 1)).Ok?
  {
    ParseNegativeYear();
    ParseYearMinusOne();
    NegativeYearTexts();
  }

  lemma January25Text()
    ensures FormatDate(Date(2026, 1, 25)) == "2026-01-25"
  {
    PadTests();
    assert "2026" + "-" + "01" + "-" + "25" == "2026-01-25";
  }

  /**
   * A date text with a space appended parses to the same date, since
   * parsing trims, yet the text range from it to the bare text is refused:
   * the shorter text sorts first. The calendar range of the two is one day.
   */
  lemma TextRangeTrailingSpace(s: string)
    requires s != [] && !IsWhitespace(s[0]) && !IsWhitespace(s[|s| - 1]) && ParseDate(s).Ok?
    ensures ParseDate(s + " ") == ParseDate(s)
    ensures TextRange(s + " ", s) == Err(Usage)
    ensures DayRange(ParseDate(s).value, ParseDate(s).value) == Ok([ParseDate(s).value])
  {
    var d := ParseDate(s).value;
    TrimNoop(s);
    TrimTrailingSpace(s);
    LexLessExtension(s, " ");
    assert DayNumber(d) - DayNumber(d) + 1 == 1;
    assert DaysFrom(d, 1) == [d] by {
      AddDaysZero(d);
    }
  }

  /** When both texts parse and are in text order, the range is the dates between them. */
  lemma TextRangeOk(from: string, to: string, f: Date, t: Date)
    requires ParseDate(from) == Ok(f) && ParseDate(to) == Ok(t) && !LexLess(to, from)
    ensures TextRange(from, to) == Ok(DatesBetween(f, t))
  {
  }

  /** `date_range_inclusive`: the method computes `TextRange`. */
  method DateRangeInclusive(from: string, to: string) returns (r: Result<seq<Date>>)
    ensures r == TextRange(from, to)
  {
    var f, t := ParseDate(from), ParseDate(to);
    if f.Err? || t.Err? || LexLess(to, from) {
      return Err(Usage);
    }
    TextRangeOk(from, to, f.value, t.value);
    var n: nat := if DayNumber(t.value) < DayNumber(f.value) then 0 else DayNumber(t.value) - DayNumber(f.value) + 1;
    var out := DaysLoop(f.value, n);
    return Ok(out);
  }

  /**
   * The loop of `date_range_inclusive`: day number `cur` runs from the first
   * day for `n` days, each turned back into a calendar date.
   */
  method DaysLoop(from: Date, n: nat) returns (out: seq<Date>)
    requires Valid(from)
    ensures out == DaysFrom(from, n)
  {
    var k := 0;
    out := [];
    while k < n
      invariant 0 <= k <= n
      invariant out == DaysFrom(from, k)
    {
      DaysFromSnoc(from, k);
      // `civil_from_days(cur)` with `cur` the day number of `from` plus `k`
      out := out + [AddDays(from, k)];
      k := k + 1;
    }
  }
}
