/**
 * The recap: for each habit, the share of the eligible periods of a range
 * (the year so far, the last 30 days or the last 7 days) in which the
 * target was reached. A daily habit is scored on its scheduled days, a
 * weekly habit on the ISO weeks touching the range; only check-ins that
 * count (declared ones, for a habit that needs a declaration) are summed.
 * The rows come out ordered by that share, highest first.
 */
module Recap {
  import opened Errors
  import opened Text
  import opened Calendar
  import opened Dates
  import opened Sorting
  import opened Store
  import opened Habits
  import opened Checkins
  import opened Declarations
  import opened Completion
  import Stats
  import Status
  import Due

  // ---------------------------------------------------------------------------
  // The range
  // ---------------------------------------------------------------------------

  datatype RecapRange = Ytd | Month | Week

  function RangeName(range: RecapRange): string {
    match range
    case Ytd => "ytd"
    case Month => "month"
    case Week => "week"
  }

  /** How many days before today a rolling range starts: today and the 29 (or 6) days before it. */
  function Lookback(range: RecapRange): int
    requires !range.Ytd?
  {
    if range.Month? then 29 else 6
  }

  /**
   * `compute_range_dates`: the year so far takes the first four characters
   * of `today` as the year (the source slices `today[0..4]`, which panics on
   * a shorter text); a rolling range steps back from today, which must parse.
   * The range always ends on `today` as given.
   */
  function RangeDates(range: RecapRange, today: string): (r: Result<(string, string)>)
    requires range.Ytd? ==> |today| >= 4
    ensures r.Ok? ==> r.value.1 == today
    ensures r.Err? ==> r.error == Usage
    ensures range.Ytd? ==> r.Ok? && |r.value.0| == 10 && r.value.0[..4] == today[..4] && r.value.0[4..] == "-01-01"
    ensures !range.Ytd? ==> (r.Ok? <==> ParseDate(today).Ok?)
  {
    match range
    case Ytd => Ok((today[..4] + "-01-01", today))
    case _ =>
      var from :- AddDaysText(today, -Lookback(range));
      Ok((from, today))
  }

  /** For a printed date, the year so far starts on the first of January of that year. */
  lemma YtdStartsJanuaryFirst(dt: Date)
    requires Valid(dt) && Representable(dt.y)
    ensures RangeDates(Ytd, FormatDate(dt)) == Ok((FormatDate(Date(dt.y, 1, 1)), FormatDate(dt)))
  {
    var py := PadYear(dt.y);
    PadYearShape(dt.y);
    PadTwo(dt.m);
    PadTwo(dt.d);
    Layout(py, ZeroPad(dt.m, 2), ZeroPad(dt.d, 2));
    ZeroPadTests();
    AppendAssoc(py, "-", "01");
    AppendAssoc(py, "-" + "01", "-");
    AppendAssoc(py, "-" + "01" + "-", "01");
    JanuaryFirstSuffix();
  }

  lemma JanuaryFirstSuffix()
    ensures "-" + "01" + "-" + "01" == "-01-01"
  {
    var x := "-" + "01" + "-" + "01";
    assert |x| == 6 && x[0] == '-' && x[1] == '0' && x[2] == '1' && x[3] == '-' && x[4] == '0' && x[5] == '1';
  }

  /**
   * A rolling range over a printed date holds exactly 30 (month) or 7 (week)
   * days, ending on that date.
   */
  lemma RollingRangeLength(range: RecapRange, dt: Date)
    requires !range.Ytd? && Valid(dt) && Representable(dt.y)
    ensures var f := AddDays(dt, -Lookback(range));
      && RangeDates(range, FormatDate(dt)) == Ok((FormatDate(f), FormatDate(dt)))
      && DayNumber(dt) - DayNumber(f) + 1 == (if range.Month? then 30 else 7)
  {
    ParseFormatRoundTrip(dt);
  }

  /** The source's own examples for the three ranges: the year so far ... */
  lemma YtdRangeTest()
    ensures RangeDates(Ytd, "2026-03-15") == Ok(("2026-01-01", "2026-03-15"))
  {
    assert "2026-03-15"[..4] == "2026";
    assert "2026" + "-01-01" == "2026-01-01";
  }

  /** ... the last 30 days ... */
  lemma MonthRangeTest()
    ensures RangeDates(Month, "2026-01-31") == Ok(("2026-01-02", "2026-01-31"))
  {
    var today, from := Date(2026, 1, 31), Date(2026, 1, 2);
    RangeTestDates();
    DayNumberTests();
    var f := AddDays(today, -29);
    assert DayNumber(f) == 20455;
    DateOrderIsDayOrder(f, from);
    assert f == from;
    RollingRangeLength(Month, today);
  }

  /** ... and the last 7 days. */
  lemma WeekRangeTest()
    ensures RangeDates(Week, "2026-01-31") == Ok(("2026-01-25", "2026-01-31"))
  {
    var today, from := Date(2026, 1, 31), Date(2026, 1, 25);
    RangeTestDates();
    DayNumberTests();
    var f := AddDays(today, -6);
    assert DayNumber(f) == 20478;
    DateOrderIsDayOrder(f, from);
    assert f == from;
    RollingRangeLength(Week, today);
  }

  lemma RangeTestDates()
    ensures FormatDate(Date(2026, 1, 31)) == "2026-01-31"
    ensures FormatDate(Date(2026, 1, 2)) == "2026-01-02"
    ensures FormatDate(Date(2026, 1, 25)) == "2026-01-25"
  {
    PadTests();
    January25Text();
    assert "2026" + "-" + "01" + "-" + "31" == "2026-01-31";
    assert "2026" + "-" + "01" + "-" + "02" == "2026-01-02";
  }

  // ---------------------------------------------------------------------------
  // Rows
  // ---------------------------------------------------------------------------

  /**
   * `(successes / eligible * 100).round()`, computed exactly: the integer
   * nearest to the percentage, a half rounding up; none when nothing was
   * eligible.
   */
  function Percent(successes: nat, eligible: nat): (p: Option<nat>)
    ensures p.None? <==> eligible == 0
  {
    if eligible == 0 then None else Some((200 * successes + eligible) / (2 * eligible))
  }

  /** The percent is the integer nearest to `100 * successes / eligible`, a half rounding up. */
  lemma PercentRounds(successes: nat, eligible: nat)
    requires eligible > 0
    ensures var p := Percent(successes, eligible).value;
      2 * eligible * p <= 200 * successes + eligible < 2 * eligible * p + 2 * eligible
  {
    DivBounds(200 * successes + eligible, 2 * eligible);
  }

  lemma DivBounds(n: nat, d: nat)
    requires d > 0
    ensures d * (n / d) <= n < d * (n / d) + d
  {
  }

  /** A share of at most all the periods is a percentage from 0 to 100, and the extremes are exact. */
  lemma PercentBounds(successes: nat, eligible: nat)
    requires 0 < eligible && successes <= eligible
    ensures Percent(successes, eligible).Some?
    ensures Percent(successes, eligible).value <= 100
    ensures successes == eligible ==> Percent(successes, eligible).value == 100
    ensures successes == 0 ==> Percent(successes, eligible).value == 0
  {
    PercentRounds(successes, eligible);
    var p := Percent(successes, eligible).value;
    var e2 := 2 * eligible;
    assert e2 * p <= 200 * successes + eligible < e2 * p + e2;
    MulCancel(e2, p, 101);
    if successes == eligible {
      MulCancel(e2, 99, p);
    }
    if successes == 0 {
      MulCancel(e2, p, 1);
    }
  }

  /** `e * a < e * b` forces `a < b` when `e` is positive. */
  lemma MulCancel(e: nat, a: int, b: int)
    requires e > 0 && e * a < e * b
    ensures a < b
  {
  }

  /** Ten days out of thirty are 33 percent; two out of three are 67; one half of 25 rounds up to 13. */
  lemma PercentTests()
    ensures Percent(10, 30) == Some(33)
    ensures Percent(2, 3) == Some(67)
    ensures Percent(1, 8) == Some(13)
    ensures Percent(0, 0) == None
  {
  }

  /** The target as shown: the quantity and the period, `1/day` for a single one. */
  function TargetLabel(quantity: U32, unit: string): (shown: string)
    ensures shown == Decimal(quantity) + "/" + unit
  {
    if quantity == 1 then
      assert Decimal(1) == "1";
      "1/" + unit
    else Decimal(quantity) + "/" + unit
  }

  /** `RecapRow` with its `RecapRangeInfo` flattened; the rate is kept as the two counts. */
  datatype RecapRow = RecapRow(
    habitId: string,
    name: string,
    period: string,
    targetLabel: string,
    target: U32,
    successes: nat,
    eligible: nat,
    percent: Option<nat>,
    kind: string,
    from: string,
    to: string)

  function RowOf(h: Habit, unit: string, successes: nat, eligible: nat, range: RecapRange, w: Stats.Window): RecapRow {
    RecapRow(h.id, h.name, unit, TargetLabel(h.target.quantity, unit), h.target.quantity,
      successes, eligible, Percent(successes, eligible), RangeName(range), w.from, w.to)
  }

  // ---------------------------------------------------------------------------
  // Daily habits
  // ---------------------------------------------------------------------------

  /** A day reaches the target when the quantity that counts toward it does. */
  predicate DayMet(cs: seq<Checkin>, ds: seq<Declaration>, h: Habit, day: Stats.Day) {
    CountedQuantity(cs, ds, h, day.text) >= h.target.quantity
  }

  function MetOn(cs: seq<Checkin>, ds: seq<Declaration>, h: Habit): Stats.Day -> bool {
    (day: Stats.Day) => DayMet(cs, ds, h, day)
  }

  function DailyRow(cs: seq<Checkin>, ds: seq<Declaration>, h: Habit, range: RecapRange, w: Stats.Window, days: seq<Stats.Day>): RecapRow {
    var eligible := Filter(days, Stats.OnSchedule(h));
    RowOf(h, "day", |Filter(eligible, MetOn(cs, ds, h))|, |eligible|, range, w)
  }

  /**
   * `compute_daily_recap`: both ends must parse and the text `from` must not
   * sort after the text `to`, as `date_range_inclusive` checks; the eligible days are the scheduled days of the range, and a
   * success is an eligible day whose counted quantity reaches the target.
   */
  function DailyRecap(cs: seq<Checkin>, ds: seq<Declaration>, h: Habit, range: RecapRange, w: Stats.Window): (r: Result<RecapRow>)
    requires Stats.WellParsed(w)
    ensures r.Err? <==> w.start.Err? || w.end.Err? || LexLess(w.to, w.from)
    ensures r.Err? ==> r.error == Usage
    ensures r.Ok? ==> r.value.habitId == h.id && r.value.name == h.name && r.value.period == "day"
    ensures r.Ok? ==> r.value.successes <= r.value.eligible && r.value.from == w.from && r.value.to == w.to
    ensures r.Ok? ==> r.value.kind == RangeName(range)
    ensures r.Ok? ==> (r.value.percent.None? <==> r.value.eligible == 0)
  {
    if w.start.Err? then Err(w.start.error)
    else if w.end.Err? then Err(w.end.error)
    else
      var f, t := w.start.value, w.end.value;
      if LexLess(w.to, w.from) then Err(Usage)
      else Ok(DailyRow(cs, ds, h, range, w, Stats.Printed(DatesBetween(f, t))))
  }

  /**
   * A day is a success of the daily recap exactly when it lies in the range,
   * is scheduled and on or after the creation date, and its counted quantity
   * reaches the target.
   */
  lemma DailySuccessMeaning(cs: seq<Checkin>, ds: seq<Declaration>, h: Habit, f: Date, t: Date, d: Date)
    requires Valid(f) && Valid(t) && Valid(d)
    ensures var days := Stats.Printed(DatesBetween(f, t));
      var day := Stats.Day(FormatDate(d), d);
      day in Filter(Filter(days, Stats.OnSchedule(h)), MetOn(cs, ds, h))
      <==> DateLe(f, d) && DateLe(d, t) && Stats.ScheduledDay(h, day) && CountedQuantity(cs, ds, h, day.text) >= h.target.quantity
  {
    Stats.DailyEligibleMeaning(h, f, t, d);
  }

  /** For a habit that needs no declaration, counting the days that reach the target is counting the day outcomes of the statistics. */
  lemma UngatedDayCount(cs: seq<Checkin>, ds: seq<Declaration>, h: Habit, days: seq<Stats.Day>)
    requires !h.needsDeclaration
    ensures |Filter(days, MetOn(cs, ds, h))| == Stats.CountTrue(Stats.DayOutcomes(cs, h, days))
  {
    Stats.CountFilter(days, MetOn(cs, ds, h), Stats.DayOutcomes(cs, h, days));
  }

  /** Over the same days, a habit that needs no declaration gets the same counts from both rows. */
  lemma DailyRowAgrees(cs: seq<Checkin>, ds: seq<Declaration>, h: Habit, range: RecapRange, w: Stats.Window, days: seq<Stats.Day>)
    requires !h.needsDeclaration
    ensures DailyRow(cs, ds, h, range, w, days).eligible == Stats.DailyRow(cs, h, w, days).eligible
    ensures DailyRow(cs, ds, h, range, w, days).successes == Stats.DailyRow(cs, h, w, days).successes
  {
    UngatedDayCount(cs, ds, h, Filter(days, Stats.OnSchedule(h)));
  }

  /**
   * For a habit that needs no declaration the daily recap agrees with the
   * daily statistics over the same window: it fails in the same cases and
   * counts the same eligible days and successes.
   */
  lemma DailyAgreesWithStats(cs: seq<Checkin>, ds: seq<Declaration>, h: Habit, range: RecapRange, w: Stats.Window)
    requires Stats.WellParsed(w) && !h.needsDeclaration
    ensures DailyRecap(cs, ds, h, range, w).Ok? <==> Stats.DailyStats(cs, h, w).Ok?
    ensures DailyRecap(cs, ds, h, range, w).Ok? ==>
      && DailyRecap(cs, ds, h, range, w).value.eligible == Stats.DailyStats(cs, h, w).value.eligible
      && DailyRecap(cs, ds, h, range, w).value.successes == Stats.DailyStats(cs, h, w).value.successes
  {
    if w.start.Ok? && w.end.Ok? && !LexLess(w.to, w.from) {
      var f, t := w.start.value, w.end.value;
      var dates := DatesBetween(f, t);
      var days := Stats.Printed(dates);
      DailyRecapOk(cs, ds, h, range, w, dates, DailyRow(cs, ds, h, range, w, days));
      Stats.DailyStatsOk(cs, h, w, dates, Stats.DailyRow(cs, h, w, days));
      DailyRowAgrees(cs, ds, h, range, w, days);
    }
  }

  /** The loop behind `.filter(..).count()` over the eligible days. */
  method CountDaysMet(cs: seq<Checkin>, ds: seq<Declaration>, h: Habit, days: seq<Stats.Day>) returns (n: nat)
    ensures n == |Filter(days, MetOn(cs, ds, h))|
  {
    n := 0;
    for i := 0 to |days|
      invariant n == |Filter(days[..i], MetOn(cs, ds, h))|
    {
      FilterPrefixStep(days, i, MetOn(cs, ds, h));
      if CountedQuantity(cs, ds, h, days[i].text) >= h.target.quantity {
        n := n + 1;
      }
    }
    assert days[..|days|] == days;
  }

  method DailyRowFor(cs: seq<Checkin>, ds: seq<Declaration>, h: Habit, range: RecapRange, w: Stats.Window, days: seq<Stats.Day>) returns (row: RecapRow)
    ensures row == DailyRow(cs, ds, h, range, w, days)
  {
    var scheduled := Stats.ScheduledDays(h, days);
    var successes := CountDaysMet(cs, ds, h, scheduled);
    row := RowOf(h, "day", successes, |scheduled|, range, w);
  }

  /** `compute_daily_recap`. */
  method ComputeDailyRecap(cs: seq<Checkin>, ds: seq<Declaration>, h: Habit, range: RecapRange, w: Stats.Window) returns (r: Result<RecapRow>)
    requires Stats.WellParsed(w) && Stats.ParsedFrom(w)
    ensures r == DailyRecap(cs, ds, h, range, w)
  {
    var days := DateRangeInclusive(w.from, w.to);
    DailyRecapByRange(cs, ds, h, range, w, days);
    if days.Err? {
      return Err(Usage);
    }
    var row := DailyRowFor(cs, ds, h, range, w, Stats.Printed(days.value));
    return Ok(row);
  }

  /** The range `date_range_inclusive` gives for the window's texts decides the recap: an error fails it, and dates give the row over those days. */
  lemma DailyRecapByRange(cs: seq<Checkin>, ds: seq<Declaration>, h: Habit, range: RecapRange, w: Stats.Window, days: Result<seq<Date>>)
    requires Stats.WellParsed(w) && Stats.ParsedFrom(w) && days == TextRange(w.from, w.to)
    ensures days.Err? ==> DailyRecap(cs, ds, h, range, w) == Err(Usage)
    ensures days.Ok? ==> DailyRecap(cs, ds, h, range, w) == Ok(DailyRow(cs, ds, h, range, w, Stats.Printed(days.value)))
  {
    if days.Ok? {
      TextRangeOk(w.from, w.to, w.start.value, w.end.value);
    }
  }

  /** The row built from the days of the range is the recap's row. */
  lemma DailyRecapOk(cs: seq<Checkin>, ds: seq<Declaration>, h: Habit, range: RecapRange, w: Stats.Window, days: seq<Date>, row: RecapRow)
    requires Stats.WellParsed(w) && w.start.Ok? && w.end.Ok? && !LexLess(w.to, w.from)
    requires days == DatesBetween(w.start.value, w.end.value)
    requires row == DailyRow(cs, ds, h, range, w, Stats.Printed(days))
    ensures DailyRecap(cs, ds, h, range, w) == Ok(row)
  {
  }

  // ---------------------------------------------------------------------------
  // Weekly habits
  // ---------------------------------------------------------------------------

  /**
   * A week reaches the target when its counted sum does. A week whose sum
   * cannot be computed counts as missed rather than failing the recap.
   */
  predicate WeekMet(cs: seq<Checkin>, ds: seq<Declaration>, h: Habit, wk: Stats.Week) {
    var sum := Due.CountedWeekSum(cs, ds, h, wk);
    sum.Ok? && sum.value >= h.target.quantity
  }

  function WeekMetOn(cs: seq<Checkin>, ds: seq<Declaration>, h: Habit): Stats.Week -> bool {
    (wk: Stats.Week) => WeekMet(cs, ds, h, wk)
  }

  function WeeklyRow(cs: seq<Checkin>, ds: seq<Declaration>, h: Habit, range: RecapRange, w: Stats.Window, weeks: seq<Stats.Week>): RecapRow {
    var eligible := Filter(weeks, Stats.EndsAfterCreation(h));
    RowOf(h, "week", |Filter(eligible, WeekMetOn(cs, ds, h))|, |eligible|, range, w)
  }

  /**
   * `compute_weekly_recap`: both ends must parse; the weeks run from the
   * Monday of `from`'s week to the Monday of `to`'s week, the eligible ones
   * end on or after the creation date, and a success is an eligible week
   * whose counted sum reaches the target. Only the range of weeks can fail:
   * a week sum that fails is a miss.
   */
  function WeeklyRecap(cs: seq<Checkin>, ds: seq<Declaration>, h: Habit, range: RecapRange, w: Stats.Window): (r: Result<RecapRow>)
    requires Stats.WellParsed(w)
    ensures r.Err? ==> r.error == Usage
    ensures w.start.Err? || w.end.Err? ==> r.Err?
    ensures r.Ok? ==> r.value.habitId == h.id && r.value.name == h.name && r.value.period == "week"
    ensures r.Ok? ==> r.value.successes <= r.value.eligible && r.value.from == w.from && r.value.to == w.to
    ensures r.Ok? ==> r.value.kind == RangeName(range)
    ensures r.Ok? ==> (r.value.percent.None? <==> r.value.eligible == 0)
  {
    var f :- w.start;
    var t :- w.end;
    var starts :- Stats.WindowWeeks(f, t);
    Ok(WeeklyRow(cs, ds, h, range, w, Stats.Weeks(starts)))
  }

  /**
   * Only the range of weeks can make the weekly recap fail: a week whose sum
   * fails is counted as a miss, where the weekly statistics fail on it.
   */
  lemma WeeklyRecapFailsOnlyOnRange(cs: seq<Checkin>, ds: seq<Declaration>, h: Habit, range: RecapRange, w: Stats.Window)
    requires Stats.WellParsed(w) && w.start.Ok? && w.end.Ok?
    ensures WeeklyRecap(cs, ds, h, range, w).Ok? <==> Stats.WindowWeeks(w.start.value, w.end.value).Ok?
  {
    var starts := Stats.WindowWeeks(w.start.value, w.end.value);
    if starts.Ok? {
      assert WeeklyRecap(cs, ds, h, range, w) == Ok(WeeklyRow(cs, ds, h, range, w, Stats.Weeks(starts.value)));
    }
  }

  /**
   * On a week start of the range, `iso_week_end` succeeds, so the
   * `unwrap_or(false)` of the eligibility filter never applies: a week is
   * eligible exactly when its printed end is not before the creation date.
   */
  lemma WeekEligibleAgrees(h: Habit, ws: Date)
    requires Valid(ws) && IsoWeekday(ws) == 1 && Representable(ws.y)
    ensures IsoWeekEndText(FormatDate(ws)).Ok?
    ensures !LexLess(IsoWeekEndText(FormatDate(ws)).value, h.createdDate) <==> Stats.EndsAfterCreation(h)(Stats.WeekOf(ws))
  {
    Stats.WeekEndOfWeekStart(ws);
  }

  /**
   * A week whose end prints is a success exactly when its counted total
   * reaches the target; a week whose end does not print is a miss.
   */
  lemma WeekMetMeaning(cs: seq<Checkin>, ds: seq<Declaration>, h: Habit, ws: Date)
    requires Valid(ws) && Representable(ws.y) && IsoWeekday(ws) == 1
    ensures Stats.DaysListed(Stats.WeekOf(ws)) ==>
      (WeekMet(cs, ds, h, Stats.WeekOf(ws)) <==> Status.CountedTotal(cs, ds, h, Stats.WeekOf(ws).days) >= h.target.quantity)
    ensures !Stats.DaysListed(Stats.WeekOf(ws)) ==> !WeekMet(cs, ds, h, Stats.WeekOf(ws))
  {
    var wk := Stats.WeekOf(ws);
    if Stats.DaysListed(wk) {
      Stats.WeekSumMeaning(cs, h, ws);
      WeekMetSummed(cs, ds, h, wk);
    } else {
      assert Stats.WeekSum(cs, h, wk).Err?;
      WeekMetSummed(cs, ds, h, wk);
    }
  }

  /** A week whose sum is computed is met when its counted total reaches the target; one whose sum fails is missed. */
  lemma WeekMetSummed(cs: seq<Checkin>, ds: seq<Declaration>, h: Habit, wk: Stats.Week)
    ensures Stats.WeekSum(cs, h, wk).Ok? ==> (WeekMet(cs, ds, h, wk) <==> Status.CountedTotal(cs, ds, h, wk.days) >= h.target.quantity)
    ensures Stats.WeekSum(cs, h, wk).Err? ==> !WeekMet(cs, ds, h, wk)
  {
  }

  /** The loop behind `.filter(..).count()` over the eligible weeks, each summed by `week_sum_for_habit`. */
  method CountWeeksMet(cs: seq<Checkin>, ds: seq<Declaration>, h: Habit, weeks: seq<Stats.Week>) returns (n: nat)
    ensures n == |Filter(weeks, WeekMetOn(cs, ds, h))|
  {
    n := 0;
    for i := 0 to |weeks|
      invariant n == |Filter(weeks[..i], WeekMetOn(cs, ds, h))|
    {
      FilterPrefixStep(weeks, i, WeekMetOn(cs, ds, h));
      var sum := Due.WeekSumForHabit(cs, ds, h, weeks[i]);
      if sum.Ok? && sum.value >= h.target.quantity {
        n := n + 1;
      }
    }
    assert weeks[..|weeks|] == weeks;
  }

  method WeeklyRowFor(cs: seq<Checkin>, ds: seq<Declaration>, h: Habit, range: RecapRange, w: Stats.Window, weeks: seq<Stats.Week>) returns (row: RecapRow)
    ensures row == WeeklyRow(cs, ds, h, range, w, weeks)
  {
    var eligible := Stats.EligibleWeeks(h, weeks);
    var successes := CountWeeksMet(cs, ds, h, eligible);
    row := RowOf(h, "week", successes, |eligible|, range, w);
  }

  /** `compute_weekly_recap`. */
  method ComputeWeeklyRecap(cs: seq<Checkin>, ds: seq<Declaration>, h: Habit, range: RecapRange, w: Stats.Window) returns (r: Result<RecapRow>)
    requires Stats.WellParsed(w)
    ensures r == WeeklyRecap(cs, ds, h, range, w)
  {
    if w.start.Err? {
      return Err(w.start.error);
    }
    if w.end.Err? {
      return Err(w.end.error);
    }
    var starts := Stats.WindowWeekStarts(w.start.value, w.end.value);
    if starts.Err? {
      return Err(starts.error);
    }
    var row := WeeklyRowFor(cs, ds, h, range, w, Stats.Weeks(starts.value));
    return Ok(row);
  }

  // ---------------------------------------------------------------------------
  // All habits
  // ---------------------------------------------------------------------------

  /** A daily target is scored by day; any other period by ISO week. */
  function HabitRecap(cs: seq<Checkin>, ds: seq<Declaration>, h: Habit, range: RecapRange, w: Stats.Window): (r: Result<RecapRow>)
    requires Stats.WellParsed(w)
    ensures r.Ok? ==> r.value.habitId == h.id && r.value.name == h.name
    ensures r.Ok? ==> r.value.period == if h.target.period == "day" then "day" else "week"
    ensures r.Ok? ==> r.value.successes <= r.value.eligible && r.value.from == w.from && r.value.to == w.to
    ensures r.Ok? ==> r.value.kind == RangeName(range)
    ensures r.Err? ==> r.error == Usage
  {
    if h.target.period == "day" then DailyRecap(cs, ds, h, range, w) else WeeklyRecap(cs, ds, h, range, w)
  }

  /** One row per habit in order; the first habit whose row fails fails the whole. */
  function RecapRows(cs: seq<Checkin>, ds: seq<Declaration>, hs: seq<Habit>, range: RecapRange, w: Stats.Window): (r: Result<seq<RecapRow>>)
    requires Stats.WellParsed(w)
    ensures r.Ok? <==> forall i :: 0 <= i < |hs| ==> HabitRecap(cs, ds, hs[i], range, w).Ok?
    ensures r.Ok? ==> |r.value| == |hs| && forall i :: 0 <= i < |hs| ==> r.value[i] == HabitRecap(cs, ds, hs[i], range, w).value
    ensures r.Err? ==> r.error == Usage
  {
    CollectAll(hs, HabitRecapOf(cs, ds, range, w))
  }

  function HabitRecapOf(cs: seq<Checkin>, ds: seq<Declaration>, range: RecapRange, w: Stats.Window): (f: Habit --> Result<RecapRow>)
    requires Stats.WellParsed(w)
    ensures forall h :: f.requires(h) && f(h) == HabitRecap(cs, ds, h, range, w)
  {
    h requires Stats.WellParsed(w) => HabitRecap(cs, ds, h, range, w)
  }

  /** The body of the loop of `build_recap`: the row of one habit. */
  method ComputeHabitRecap(cs: seq<Checkin>, ds: seq<Declaration>, h: Habit, range: RecapRange, w: Stats.Window) returns (r: Result<RecapRow>)
    requires Stats.WellParsed(w) && Stats.ParsedFrom(w)
    ensures r == HabitRecap(cs, ds, h, range, w)
  {
    if h.target.period == "day" {
      r := ComputeDailyRecap(cs, ds, h, range, w);
    } else {
      r := ComputeWeeklyRecap(cs, ds, h, range, w);
    }
  }

  /** The loop of `build_recap` over the sorted habits. */
  method RecapLoop(cs: seq<Checkin>, ds: seq<Declaration>, sorted: seq<Habit>, range: RecapRange, w: Stats.Window) returns (r: Result<seq<RecapRow>>)
    requires Stats.WellParsed(w) && Stats.ParsedFrom(w)
    ensures r == RecapRows(cs, ds, sorted, range, w)
  {
    var rows: seq<RecapRow> := [];
    for i := 0 to |sorted|
      invariant RecapRows(cs, ds, sorted[..i], range, w) == Ok(rows)
    {
      var row := ComputeHabitRecap(cs, ds, sorted[i], range, w);
      if row.Err? {
        RecapRowsFirstError(cs, ds, sorted, range, w, i);
        return Err(row.error);
      }
      RecapRowsSnoc(cs, ds, sorted, range, w, i);
      rows := rows + [row.value];
    }
    assert sorted[..|sorted|] == sorted;
    return Ok(rows);
  }

  /** The first habit whose row fails, after rows that succeed, fails the whole. */
  lemma RecapRowsFirstError(cs: seq<Checkin>, ds: seq<Declaration>, hs: seq<Habit>, range: RecapRange, w: Stats.Window, i: int)
    requires Stats.WellParsed(w) && 0 <= i < |hs| && RecapRows(cs, ds, hs[..i], range, w).Ok?
    requires HabitRecap(cs, ds, hs[i], range, w).Err?
    ensures RecapRows(cs, ds, hs, range, w) == Err(HabitRecap(cs, ds, hs[i], range, w).error)
  {
  }

  /** A habit whose row succeeds after rows that succeed adds its row. */
  lemma RecapRowsSnoc(cs: seq<Checkin>, ds: seq<Declaration>, hs: seq<Habit>, range: RecapRange, w: Stats.Window, i: int)
    requires Stats.WellParsed(w) && 0 <= i < |hs| && RecapRows(cs, ds, hs[..i], range, w).Ok?
    requires HabitRecap(cs, ds, hs[i], range, w).Ok?
    ensures RecapRows(cs, ds, hs[..i + 1], range, w)
      == Ok(RecapRows(cs, ds, hs[..i], range, w).value + [HabitRecap(cs, ds, hs[i], range, w).value])
  {
    CollectAllSnoc(hs, HabitRecapOf(cs, ds, range, w), i);
  }

  // ---------------------------------------------------------------------------
  // Order
  // ---------------------------------------------------------------------------

  /**
   * The comparator of the final `sort_by`: a higher percentage first, a row
   * with a percentage before one without, and two rows without one by their
   * lower-cased names.
   */
  predicate Before(a: RecapRow, b: RecapRow) {
    match (a.percent, b.percent)
    case (Some(ap), Some(bp)) => bp < ap
    case (Some(_), None) => true
    case (None, Some(_)) => false
    case (None, None) => LexLess(Lower(a.name), Lower(b.name))
  }

  function RecapLt(): (RecapRow, RecapRow) -> bool {
    (a, b) => Before(a, b)
  }

  lemma RecapLtOrder()
    ensures StrictWeakOrder(RecapLt())
  {
    var lt := RecapLt();
    forall a ensures !lt(a, a) {
      LexLessIrreflexive(Lower(a.name));
    }
    forall a, b, c | lt(a, b) && lt(b, c) ensures lt(a, c) {
      if a.percent.None? {
        LexLessTransitive(Lower(a.name), Lower(b.name), Lower(c.name));
      }
    }
    forall a, b, c | lt(a, c) ensures lt(a, b) || lt(b, c) {
      if a.percent.None? && b.percent.None? && c.percent.None? {
        var na, nb, nc := Lower(a.name), Lower(b.name), Lower(c.name);
        LexLessTotal(na, nb);
        LexLessTotal(nb, nc);
        if !LexLess(na, nb) && !LexLess(nb, nc) {
          if LexLess(nb, na) && LexLess(nc, nb) {
            LexLessTransitive(nc, nb, na);
            LexLessAsymmetric(na, nc);
          } else if LexLess(nb, na) {
            LexLessAsymmetric(na, nc);
          } else if LexLess(nc, nb) {
            LexLessAsymmetric(na, nc);
          } else {
            LexLessIrreflexive(na);
          }
        }
      }
    }
  }

  /** The order the rows are built in: the listing order of their habits. */
  function RowKey(row: RecapRow): seq<string> {
    [Lower(row.name), row.habitId]
  }

  /**
   * The final `sort_by`: the rows rearranged into the comparator's order;
   * rows the comparator does not separate keep the order they were built in.
   */
  function Ranked(rows: seq<RecapRow>): (r: seq<RecapRow>)
    ensures multiset(r) == multiset(rows)
    ensures Sorted(r, RecapLt())
    ensures Sorted(rows, ByKey(RowKey)) ==> Sorted(r, Lex(RecapLt(), ByKey(RowKey)))
  {
    RecapLtOrder();
    SortBySorted(rows, RecapLt());
    SortByPermutes(rows, RecapLt());
    if Sorted(rows, ByKey(RowKey)) then
      SortByStable(rows, RecapLt(), ByKey(RowKey));
      SortBy(rows, RecapLt())
    else SortBy(rows, RecapLt())
  }

  /**
   * In the ranked rows a percentage never rises: rows with one come first,
   * highest first, and the rows without one follow by lower-cased name.
   */
  lemma RankedOrder(rows: seq<RecapRow>, i: int, j: int)
    requires 0 <= i < j < |Ranked(rows)|
    ensures var r := Ranked(rows);
      && (r[j].percent.Some? ==> r[i].percent.Some? && r[j].percent.value <= r[i].percent.value)
      && (r[i].percent.None? ==> r[j].percent.None? && !LexLess(Lower(r[j].name), Lower(r[i].name)))
  {
    var r := Ranked(rows);
    assert !RecapLt()(r[j], r[i]);
  }

  /** Rows built from habits in listing order are in the order of their keys. */
  lemma RowsInListingOrder(cs: seq<Checkin>, ds: seq<Declaration>, hs: seq<Habit>, range: RecapRange, w: Stats.Window)
    requires Stats.WellParsed(w) && Sorted(hs, HabitLt())
    requires RecapRows(cs, ds, hs, range, w).Ok?
    ensures Sorted(RecapRows(cs, ds, hs, range, w).value, ByKey(RowKey))
  {
    var rows := RecapRows(cs, ds, hs, range, w).value;
    forall i, j | 0 <= i < j < |rows| ensures !ByKey(RowKey)(rows[j], rows[i]) {
      assert RowKey(rows[i]) == HabitKey(hs[i]) && RowKey(rows[j]) == HabitKey(hs[j]);
      assert !HabitLt()(hs[j], hs[i]);
    }
  }

  /**
   * The rows of `build_recap` once the range is known: one row per habit in
   * listing order, then ranked by percentage. Rows of equal rank stay in the
   * listing order of their habits.
   */
  function RecapFor(cs: seq<Checkin>, ds: seq<Declaration>, habits: seq<Habit>, range: RecapRange, w: Stats.Window): (r: Result<seq<RecapRow>>)
    requires Stats.WellParsed(w)
    ensures r.Err? ==> r.error == Usage
    ensures r.Ok? ==> |r.value| == |habits|
    ensures r.Ok? ==> Sorted(r.value, Lex(RecapLt(), ByKey(RowKey)))
    ensures r.Ok? ==> forall row :: row in r.value ==> RowOfWindow(row, range, w)
  {
    HabitLtOrder();
    SortBySorted(habits, HabitLt());
    var sorted := SortBy(habits, HabitLt());
    var rows :- RecapRows(cs, ds, sorted, range, w);
    RowsInListingOrder(cs, ds, sorted, range, w);
    RowsOfWindow(cs, ds, sorted, range, w);
    var ranked := Ranked(rows);
    assert forall row :: row in ranked ==> row in multiset(rows);
    Ok(ranked)
  }

  /** A row covers the window it was asked for, and counts no more successes than eligible periods. */
  predicate RowOfWindow(row: RecapRow, range: RecapRange, w: Stats.Window) {
    row.from == w.from && row.to == w.to && row.kind == RangeName(range) && row.successes <= row.eligible
  }

  lemma RowsOfWindow(cs: seq<Checkin>, ds: seq<Declaration>, hs: seq<Habit>, range: RecapRange, w: Stats.Window)
    requires Stats.WellParsed(w) && RecapRows(cs, ds, hs, range, w).Ok?
    ensures forall row :: row in RecapRows(cs, ds, hs, range, w).value ==> RowOfWindow(row, range, w)
  {
    var rows := RecapRows(cs, ds, hs, range, w).value;
    forall row | row in rows ensures RowOfWindow(row, range, w) {
      var k :| 0 <= k < |rows| && rows[k] == row;
      assert row == HabitRecap(cs, ds, hs[k], range, w).value;
    }
  }

  /** Every habit has a row of its own in the recap. */
  lemma RecapMembers(cs: seq<Checkin>, ds: seq<Declaration>, habits: seq<Habit>, range: RecapRange, w: Stats.Window, h: Habit)
    requires Stats.WellParsed(w)
    requires RecapFor(cs, ds, habits, range, w).Ok? && h in habits
    ensures exists row :: row in RecapFor(cs, ds, habits, range, w).value && row.habitId == h.id && row.name == h.name
  {
    var sorted := SortBy(habits, HabitLt());
    SortByMembers(habits, HabitLt(), h);
    var k :| 0 <= k < |sorted| && sorted[k] == h;
    var rows := RecapRows(cs, ds, sorted, range, w).value;
    var row := rows[k];
    assert row in multiset(rows);
    assert row in RecapFor(cs, ds, habits, range, w).value;
  }

  /** `build_recap`: the range, then the rows over it. */
  function RecapOf(cs: seq<Checkin>, ds: seq<Declaration>, habits: seq<Habit>, range: RecapRange, today: string): (r: Result<seq<RecapRow>>)
    requires range.Ytd? ==> |today| >= 4
    ensures r.Err? ==> r.error == Usage
    ensures r.Ok? ==> forall row :: row in r.value ==> row.to == today && row.kind == RangeName(range)
  {
    var span :- RangeDates(range, today);
    RecapFor(cs, ds, habits, range, Stats.WindowOf(span.0, span.1))
  }

  /** `build_recap` over the store's check-ins and declarations. */
  method BuildRecap(db: Db, habits: seq<Habit>, range: RecapRange, today: string) returns (r: Result<seq<RecapRow>>)
    requires range.Ytd? ==> |today| >= 4
    ensures r == RecapOf(db.checkins, db.declarations, habits, range, today)
  {
    var span := RangeDates(range, today);
    if span.Err? {
      return Err(span.error);
    }
    var w := Stats.WindowOf(span.value.0, span.value.1);
    var sorted := SortBy(habits, HabitLt());
    var rows := RecapLoop(db.checkins, db.declarations, sorted, range, w);
    if rows.Err? {
      return Err(rows.error);
    }
    return Ok(Ranked(rows.value));
  }
}
