/**
 * Statistics over a window of dates: for a daily habit, the scheduled days
 * in the window; for a weekly habit, the ISO weeks touching the window that
 * end on or after its creation. Each eligible day or week either reaches
 * the target or not, and the row reports the successes, the eligible count,
 * their ratio, the current streak (ending at the last eligible item) and
 * the longest streak.
 */
module Stats {
  import opened Errors
  import opened Text
  import opened Calendar
  import opened Dates
  import opened Sorting
  import opened Store
  import opened Habits
  import opened Checkins

  // ---------------------------------------------------------------------------
  // Rows
  // ---------------------------------------------------------------------------

  /** `successes / eligible`, kept as the two counts rather than a floating-point value. */
  datatype Rate = Rate(successes: nat, eligible: nat)

  /** `StatsRow` with its `Window` and `SuccessRate` flattened. */
  datatype StatsRow = StatsRow(
    habitId: string,
    name: string,
    period: string,
    target: U32,
    from: string,
    to: string,
    currentStreak: nat,
    longestStreak: nat,
    successes: nat,
    eligible: nat,
    rate: Option<Rate>)

  // ---------------------------------------------------------------------------
  // Streaks over a sequence of outcomes
  // ---------------------------------------------------------------------------

  /** How many items reached the target. */
  function CountTrue(oks: seq<bool>): (n: nat)
    ensures n <= |oks|
  {
    if oks == [] then 0
    else CountTrue(oks[..|oks| - 1]) + if oks[|oks| - 1] then 1 else 0
  }

  /** Counting the successes of a sequence of outcomes is counting the items a filter keeps, when the two agree item by item. */
  lemma {:induction false} CountFilter<T(!new)>(s: seq<T>, keep: T -> bool, oks: seq<bool>)
    requires |oks| == |s| && forall i :: 0 <= i < |s| ==> (keep(s[i]) <==> oks[i])
    ensures |Filter(s, keep)| == CountTrue(oks)
    decreases |s|
  {
    if s != [] {
      CountFilter(s[..|s| - 1], keep, oks[..|oks| - 1]);
      FilterLast(s, keep);
    }
  }

  /** The length of the run of successes that ends with the last item. */
  function TrailingRun(oks: seq<bool>): (n: nat)
    ensures n <= |oks|
  {
    if oks == [] || !oks[|oks| - 1] then 0
    else TrailingRun(oks[..|oks| - 1]) + 1
  }

  function MaxNat(a: nat, b: nat): nat { if a >= b then a else b }

  /** The length of the longest run of successes anywhere in the sequence. */
  function LongestRun(oks: seq<bool>): (n: nat)
    ensures TrailingRun(oks) <= n <= |oks|
  {
    if oks == [] then 0
    else MaxNat(LongestRun(oks[..|oks| - 1]), TrailingRun(oks))
  }

  /** Every item in `oks[i..j]` reached the target. */
  predicate AllTrue(oks: seq<bool>, i: int, j: int)
    requires 0 <= i <= j <= |oks|
  {
    forall k :: i <= k < j ==> oks[k]
  }

  lemma {:induction false} TrailingRunAtMostCount(oks: seq<bool>)
    ensures TrailingRun(oks) <= CountTrue(oks)
  {
    if oks != [] && oks[|oks| - 1] {
      TrailingRunAtMostCount(oks[..|oks| - 1]);
    }
  }

  /** current <= longest <= successes <= eligible, for every sequence of outcomes. */
  lemma {:induction false} StreakBounds(oks: seq<bool>)
    ensures TrailingRun(oks) <= LongestRun(oks) <= CountTrue(oks) <= |oks|
  {
    if oks != [] {
      StreakBounds(oks[..|oks| - 1]);
      TrailingRunAtMostCount(oks);
    }
  }

  /** The current streak is a run of successes right at the end, preceded by a miss or by the start. */
  lemma {:induction false} TrailingRunMeaning(oks: seq<bool>)
    ensures AllTrue(oks, |oks| - TrailingRun(oks), |oks|)
    ensures TrailingRun(oks) < |oks| ==> !oks[|oks| - TrailingRun(oks) - 1]
  {
    if oks != [] && oks[|oks| - 1] {
      var front := oks[..|oks| - 1];
      TrailingRunMeaning(front);
      assert forall k :: 0 <= k < |front| ==> front[k] == oks[k];
    }
  }

  /** A run of successes reaching the end is no longer than the current streak. */
  lemma {:induction false} RunAtEndBound(oks: seq<bool>, i: int)
    requires 0 <= i <= |oks| && AllTrue(oks, i, |oks|)
    ensures |oks| - i <= TrailingRun(oks)
  {
    if i < |oks| {
      var front := oks[..|oks| - 1];
      assert AllTrue(front, i, |front|) by {
        forall k | i <= k < |front| ensures front[k] {
          assert front[k] == oks[k];
        }
      }
      RunAtEndBound(front, i);
    }
  }

  /** `oks` holds a run of `len` successes starting at `i`. */
  predicate RunAt(oks: seq<bool>, i: int, len: nat) {
    0 <= i && i + len <= |oks| && AllTrue(oks, i, i + len)
  }

  /**
   * The longest streak is the length of some run of successes, and no run of
   * successes is longer.
   */
  lemma {:induction false} LongestRunMeaning(oks: seq<bool>)
    ensures exists i :: RunAt(oks, i, LongestRun(oks))
    ensures forall i, j :: 0 <= i <= j <= |oks| && AllTrue(oks, i, j) ==> j - i <= LongestRun(oks)
  {
    if oks == [] {
      assert RunAt(oks, 0, LongestRun(oks));
    } else {
      var n := |oks|;
      var front := oks[..n - 1];
      LongestRunMeaning(front);
      TrailingRunMeaning(oks);
      assert forall k :: 0 <= k < n - 1 ==> front[k] == oks[k];
      var L := LongestRun(oks);
      if L == TrailingRun(oks) {
        assert RunAt(oks, n - L, L);
      } else {
        var i :| RunAt(front, i, L);
        assert RunAt(oks, i, L);
      }
      forall i, j | 0 <= i <= j <= n && AllTrue(oks, i, j)
        ensures j - i <= L
      {
        if j == n {
          RunAtEndBound(oks, i);
        } else {
          assert AllTrue(front, i, j);
        }
      }
    }
  }

  /** A row for `oks`: the counts, the ratio when there is something to divide by, and both streaks. */
  function RowOf(h: Habit, period: string, from: string, to: string, oks: seq<bool>): (row: StatsRow)
    ensures row.habitId == h.id && row.name == h.name && row.period == period && row.target == h.target.quantity
    ensures row.from == from && row.to == to && row.eligible == |oks|
    ensures row.currentStreak <= row.longestStreak <= row.successes <= row.eligible
    ensures row.rate.None? <==> row.eligible == 0
    ensures row.rate.Some? ==> row.rate.value == Rate(row.successes, row.eligible)
  {
    StreakBounds(oks);
    var successes := CountTrue(oks);
    StatsRow(h.id, h.name, period, h.target.quantity, from, to,
      TrailingRun(oks), LongestRun(oks), successes, |oks|,
      if |oks| == 0 then None else Some(Rate(successes, |oks|)))
  }

  /** The successes loop: one count per item that reached the target. */
  method CountSuccesses(oks: seq<bool>) returns (successes: nat)
    ensures successes == CountTrue(oks)
  {
    successes := 0;
    for i := 0 to |oks|
      invariant successes == CountTrue(oks[..i])
    {
      assert oks[..i + 1][..i] == oks[..i];
      if oks[i] {
        successes := successes + 1;
      }
    }
    assert oks[..|oks|] == oks;
  }

  /** The current-streak loop: walk back from the last item and stop at the first miss. */
  method CurrentStreak(oks: seq<bool>) returns (current: nat)
    ensures current == TrailingRun(oks)
  {
    current := 0;
    var i := |oks|;
    assert oks[..i] == oks;
    while i > 0
      invariant 0 <= i <= |oks|
      invariant current + TrailingRun(oks[..i]) == TrailingRun(oks)
    {
      assert oks[..i][..i - 1] == oks[..i - 1];
      if !oks[i - 1] {
        break;
      }
      current := current + 1;
      i := i - 1;
    }
  }

  /** The longest-streak loop: a running streak reset at each miss, and its maximum so far. */
  method LongestStreak(oks: seq<bool>) returns (longest: nat)
    ensures longest == LongestRun(oks)
  {
    longest := 0;
    var run: nat := 0;
    for i := 0 to |oks|
      invariant run == TrailingRun(oks[..i])
      invariant longest == LongestRun(oks[..i])
    {
      assert oks[..i + 1][..i] == oks[..i];
      if oks[i] {
        run := run + 1;
        longest := MaxNat(longest, run);
      } else {
        run := 0;
      }
    }
    assert oks[..|oks|] == oks;
  }

  /** The three loops together, for the outcomes of the eligible items. */
  method RowFor(h: Habit, period: string, from: string, to: string, oks: seq<bool>) returns (row: StatsRow)
    ensures row == RowOf(h, period, from, to, oks)
  {
    var successes := CountSuccesses(oks);
    var eligible := |oks|;
    var rate := if eligible == 0 then None else Some(Rate(successes, eligible));
    var current := CurrentStreak(oks);
    var longest := LongestStreak(oks);
    row := StatsRow(h.id, h.name, period, h.target.quantity, from, to, current, longest, successes, eligible, rate);
  }

  // ---------------------------------------------------------------------------
  // Dates as the source handles them
  // ---------------------------------------------------------------------------

  /**
   * A date as the statistics handle it: the printed `YYYY-MM-DD` text the
   * source passes around, kept with the date it names.
   */
  datatype Day = Day(text: string, date: Date)

  function Printed(ds: seq<Date>): (r: seq<Day>)
    requires AllValid(ds)
    ensures |r| == |ds|
    ensures forall i :: 0 <= i < |ds| ==> r[i] == Day(FormatDate(ds[i]), ds[i])
  {
    seq(|ds|, i requires 0 <= i < |ds| => Day(FormatDate(ds[i]), ds[i]))
  }

  /** A date's printed form is in the printed list exactly when the date is in the list. */
  lemma PrintedMembers(ds: seq<Date>, d: Date)
    requires AllValid(ds) && Valid(d)
    ensures Day(FormatDate(d), d) in Printed(ds) <==> d in ds
  {
    var p := Printed(ds);
    if d in ds {
      var i :| 0 <= i < |ds| && ds[i] == d;
      assert p[i] == Day(FormatDate(d), d);
    }
  }

  /** The window of a statistics request: both ends as given, and as parsed. */
  datatype Window = Window(from: string, to: string, start: Result<Date>, end: Result<Date>)

  predicate WellParsed(w: Window) {
    && (w.start.Ok? ==> Valid(w.start.value) && Representable(w.start.value.y))
    && (w.end.Ok? ==> Valid(w.end.value) && Representable(w.end.value.y))
    && (w.start.Err? ==> w.start.error == Usage)
    && (w.end.Err? ==> w.end.error == Usage)
  }

  /** The window's parses are those of its texts, as the commands compute them. */
  predicate ParsedFrom(w: Window) {
    w.start == ParseDate(w.from) && w.end == ParseDate(w.to)
  }

  function WindowOf(from: string, to: string): (w: Window)
    ensures WellParsed(w) && ParsedFrom(w) && w.from == from && w.to == to
  {
    Window(from, to, ParseDate(from), ParseDate(to))
  }

  // ---------------------------------------------------------------------------
  // Daily habits
  // ---------------------------------------------------------------------------

  /**
   * `is_scheduled_on` on a printed day: not before the creation date
   * (compared as text), and on one of the scheduled weekdays.
   */
  predicate ScheduledDay(h: Habit, day: Day) {
    !LexLess(day.text, h.createdDate) && Valid(day.date) && IsoWeekday(day.date) in h.schedule.days
  }

  function OnSchedule(h: Habit): Day -> bool {
    (day: Day) => ScheduledDay(h, day)
  }

  /** On every day of a range between two parsed dates, `is_scheduled_on` succeeds and agrees with `ScheduledDay`. */
  lemma ScheduledDayAgrees(h: Habit, from: Date, to: Date, d: Date)
    requires Valid(from) && Valid(to) && Valid(d) && Representable(from.y) && Representable(to.y)
    requires d in DatesBetween(from, to)
    ensures IsScheduledOn(h, FormatDate(d)) == Ok(ScheduledDay(h, Day(FormatDate(d), d)))
  {
    DatesBetweenMembers(from, to, d);
    ScheduledOnPrinted(h, d);
  }

  /** The loop that keeps the scheduled days of the range. */
  method ScheduledDays(h: Habit, days: seq<Day>) returns (scheduled: seq<Day>)
    ensures scheduled == Filter(days, OnSchedule(h))
  {
    scheduled := [];
    for i := 0 to |days|
      invariant scheduled == Filter(days[..i], OnSchedule(h))
    {
      FilterPrefixStep(days, i, OnSchedule(h));
      if ScheduledDay(h, days[i]) {
        scheduled := scheduled + [days[i]];
      }
    }
    assert days[..|days|] == days;
  }

  /** Whether the quantity checked in on each day reaches the target. */
  function DayOutcomes(cs: seq<Checkin>, h: Habit, days: seq<Day>): (oks: seq<bool>)
    ensures |oks| == |days|
    ensures forall i :: 0 <= i < |days| ==> (oks[i] <==> GetQuantity(cs, h.id, days[i].text) >= h.target.quantity)
  {
    seq(|days|, i requires 0 <= i < |days| => GetQuantity(cs, h.id, days[i].text) >= h.target.quantity)
  }

  /** The daily row for the days of a range. */
  function DailyRow(cs: seq<Checkin>, h: Habit, w: Window, days: seq<Day>): (row: StatsRow)
    ensures row.habitId == h.id && row.period == "day" && row.eligible == |Filter(days, OnSchedule(h))|
  {
    RowOf(h, "day", w.from, w.to, DayOutcomes(cs, h, Filter(days, OnSchedule(h))))
  }

  /**
   * `compute_daily_stats`: both ends must parse and the text `from` must not
   * sort after the text `to`, as `date_range_inclusive` checks; the row then
   * covers the scheduled days of the range.
   */
  function DailyStats(cs: seq<Checkin>, h: Habit, w: Window): (r: Result<StatsRow>)
    requires WellParsed(w)
    ensures r.Err? <==> w.start.Err? || w.end.Err? || LexLess(w.to, w.from)
    ensures r.Err? ==> r.error == Usage
    ensures r.Ok? ==> r.value.habitId == h.id && r.value.period == "day" && r.value.from == w.from && r.value.to == w.to
  {
    var f :- w.start;
    var t :- w.end;
    if LexLess(w.to, w.from) then Err(Usage)
    else Ok(DailyRow(cs, h, w, Printed(DatesBetween(f, t))))
  }

  /** For two printed dates of years 0 to 9999, the daily statistics fail exactly when `to` is the earlier date. */
  lemma DailyStatsPrinted(cs: seq<Checkin>, h: Habit, a: Date, b: Date)
    requires Valid(a) && Valid(b) && 0 <= a.y <= 9999 && 0 <= b.y <= 9999
    ensures DailyStats(cs, h, WindowOf(FormatDate(a), FormatDate(b))).Err? <==> DateLt(b, a)
  {
    ParseFormatRoundTrip(a);
    ParseFormatRoundTrip(b);
    FormatOrder(b, a);
  }

  /**
   * The days a daily row counts are exactly the scheduled days between the
   * two dates; a success is such a day whose quantity reaches the target.
   */
  lemma DailyEligibleMeaning(h: Habit, f: Date, t: Date, d: Date)
    requires Valid(f) && Valid(t) && Valid(d)
    ensures var days := Printed(DatesBetween(f, t));
      Day(FormatDate(d), d) in Filter(days, OnSchedule(h))
      <==> DateLe(f, d) && DateLe(d, t) && ScheduledDay(h, Day(FormatDate(d), d))
  {
    DatesBetweenMembers(f, t, d);
    PrintedMembers(DatesBetween(f, t), d);
  }

  method DailyRowFor(cs: seq<Checkin>, h: Habit, w: Window, days: seq<Day>) returns (row: StatsRow)
    ensures row == DailyRow(cs, h, w, days)
  {
    var scheduled := ScheduledDays(h, days);
    row := RowFor(h, "day", w.from, w.to, DayOutcomes(cs, h, scheduled));
  }

  /** `compute_daily_stats`. */
  method ComputeDailyStats(cs: seq<Checkin>, h: Habit, w: Window) returns (r: Result<StatsRow>)
    requires WellParsed(w) && ParsedFrom(w)
    ensures r == DailyStats(cs, h, w)
  {
    var days := DateRangeInclusive(w.from, w.to);
    DailyStatsByRange(cs, h, w, days);
    if days.Err? {
      return Err(Usage);
    }
    var row := DailyRowFor(cs, h, w, Printed(days.value));
    return Ok(row);
  }

  /** The range `date_range_inclusive` gives for the window's texts decides the statistics: an error fails them, and dates give the row over those days. */
  lemma DailyStatsByRange(cs: seq<Checkin>, h: Habit, w: Window, days: Result<seq<Date>>)
    requires WellParsed(w) && ParsedFrom(w) && days == TextRange(w.from, w.to)
    ensures days.Err? ==> DailyStats(cs, h, w) == Err(Usage)
    ensures days.Ok? ==> DailyStats(cs, h, w) == Ok(DailyRow(cs, h, w, Printed(days.value)))
  {
    if days.Ok? {
      TextRangeOk(w.from, w.to, w.start.value, w.end.value);
    }
  }

  /** The row built from the days of the window is the statistics' row. */
  lemma DailyStatsOk(cs: seq<Checkin>, h: Habit, w: Window, dates: seq<Date>, row: StatsRow)
    requires WellParsed(w) && w.start.Ok? && w.end.Ok? && !LexLess(w.to, w.from)
    requires dates == DatesBetween(w.start.value, w.end.value)
    requires row == DailyRow(cs, h, w, Printed(dates))
    ensures DailyStats(cs, h, w) == Ok(row)
  {
  }

  // ---------------------------------------------------------------------------
  // Weekly habits
  // ---------------------------------------------------------------------------

  /** A day's quantity as a week's sum counts it: nothing before the creation date (compared as text). */
  function QuantityFromCreation(cs: seq<Checkin>, h: Habit, day: Day): (q: U32)
    ensures LexLess(day.text, h.createdDate) ==> q == 0
    ensures !LexLess(day.text, h.createdDate) ==> q == GetQuantity(cs, h.id, day.text)
  {
    if LexLess(day.text, h.createdDate) then 0 else GetQuantity(cs, h.id, day.text)
  }

  /** The saturating sum of the counted quantities, in order. */
  function DaysTotal(cs: seq<Checkin>, h: Habit, days: seq<Day>): U32 {
    if days == [] then 0
    else SatAdd(DaysTotal(cs, h, days[..|days| - 1]), QuantityFromCreation(cs, h, days[|days| - 1]))
  }

  /** The exact sum of the counted quantities. */
  function RawTotal(cs: seq<Checkin>, h: Habit, days: seq<Day>): nat {
    if days == [] then 0
    else RawTotal(cs, h, days[..|days| - 1]) + QuantityFromCreation(cs, h, days[|days| - 1])
  }

  /** Adding with saturation at every step is the exact sum capped at `u32::MAX`. */
  lemma {:induction false} DaysTotalCapped(cs: seq<Checkin>, h: Habit, days: seq<Day>)
    ensures DaysTotal(cs, h, days) == if RawTotal(cs, h, days) <= U32Max then RawTotal(cs, h, days) else U32Max
  {
    if days != [] {
      DaysTotalCapped(cs, h, days[..|days| - 1]);
    }
  }

  /** The summing loop of `week_sum_for_habit`. */
  method SumDays(cs: seq<Checkin>, h: Habit, days: seq<Day>) returns (sum: U32)
    ensures sum == DaysTotal(cs, h, days)
  {
    sum := 0;
    for i := 0 to |days|
      invariant sum == DaysTotal(cs, h, days[..i])
    {
      assert days[..i + 1][..i] == days[..i];
      if LexLess(days[i].text, h.createdDate) {
        continue;
      }
      sum := SatAdd(sum, GetQuantity(cs, h.id, days[i].text));
    }
    assert days[..|days| ] == days;
  }

  /** The days from a week start through its ISO week end. */
  function WeekDays(ws: Date): (days: seq<Date>)
    requires Valid(ws)
    ensures (forall i :: 0 <= i < |days| ==> Valid(days[i])) && 1 <= |days| <= 7
  {
    DaysFrom(ws, DayNumber(IsoWeekEnd(ws)) - DayNumber(ws) + 1)
  }

  /**
   * A week as the statistics handle it: its printed start, the Monday of the
   * start's ISO week (from which the end is recomputed), its printed ISO week
   * end, and its printed days.
   */
  datatype Week = Week(start: Day, monday: Date, end: Day, days: seq<Day>)

  function WeekOf(ws: Date): (w: Week)
    requires Valid(ws)
    ensures w.start.date == ws && w.monday == IsoWeekStart(ws) && w.end.date == IsoWeekEnd(ws)
    ensures w.start.text == FormatDate(ws) && w.end.text == FormatDate(IsoWeekEnd(ws))
  {
    Week(Day(FormatDate(ws), ws), IsoWeekStart(ws), Day(FormatDate(IsoWeekEnd(ws)), IsoWeekEnd(ws)), Printed(WeekDays(ws)))
  }

  function Weeks(ws: seq<Date>): (r: seq<Week>)
    requires AllValid(ws)
    ensures |r| == |ws| && forall i :: 0 <= i < |ws| ==> r[i] == WeekOf(ws[i])
  {
    seq(|ws|, i requires 0 <= i < |ws| => WeekOf(ws[i]))
  }

  /**
   * `date_range_inclusive(week_start, end)` lists a week's days: its printed
   * end parses again and does not sort before its printed start as text.
   */
  predicate DaysListed(w: Week) {
    Representable(w.end.date.y) && !LexLess(w.end.text, w.start.text)
  }

  /** From year 0 on, a week whose end prints has its days listed; text order only breaks for negative years. */
  lemma DaysListedFromYearZero(ws: Date)
    requires Valid(ws) && 0 <= ws.y && Representable(IsoWeekEnd(ws).y)
    ensures DaysListed(WeekOf(ws))
  {
    var e := IsoWeekEnd(ws);
    DateOrderIsDayOrder(e, ws);
    FormatNotBefore(e, ws);
  }

  /**
   * `week_sum_for_habit`: the week's end is printed and both ends are parsed
   * again, so a week whose start, Monday or end has a year that does not
   * print in four characters is a usage error, and so is a week whose end
   * sorts before its start as text; otherwise the saturating sum of the
   * week's counted quantities.
   */
  function WeekSum(cs: seq<Checkin>, h: Habit, w: Week): (r: Result<U32>)
    ensures r.Err? <==> !Representable(w.start.date.y) || !Representable(w.monday.y) || !DaysListed(w)
    ensures r.Err? ==> r.error == Usage
  {
    if !Representable(w.start.date.y) || !Representable(w.monday.y) || !DaysListed(w) then
      Err(Usage)
    else Ok(DaysTotal(cs, h, w.days))
  }

  method WeekSumForHabit(cs: seq<Checkin>, h: Habit, w: Week) returns (r: Result<U32>)
    ensures r == WeekSum(cs, h, w)
  {
    if !Representable(w.start.date.y) || !Representable(w.monday.y) || !DaysListed(w) {
      return Err(Usage);
    }
    var sum := SumDays(cs, h, w.days);
    return Ok(sum);
  }

  /** A week of the range: its sum is capped at `u32::MAX`, and never counts a day before creation. */
  lemma WeekSumMeaning(cs: seq<Checkin>, h: Habit, ws: Date)
    requires Valid(ws) && Representable(ws.y) && IsoWeekday(ws) == 1 && DaysListed(WeekOf(ws))
    ensures WeekSum(cs, h, WeekOf(ws)).Ok?
    ensures var raw := RawTotal(cs, h, Printed(WeekDays(ws)));
      WeekSum(cs, h, WeekOf(ws)).value == if raw <= U32Max then raw else U32Max
  {
    DateOrderIsDayOrder(IsoWeekStart(ws), ws);
    DaysTotalCapped(cs, h, Printed(WeekDays(ws)));
  }

  /** How many steps of seven fit from 0 to `gap` inclusive. */
  function WeekSteps(gap: int): (n: nat)
    ensures gap < 0 ==> n == 0
    ensures gap >= 0 ==> 7 * (n - 1) <= gap < 7 * n
    decreases gap
  {
    if gap < 0 then 0 else WeekSteps(gap - 7) + 1
  }

  /** The `n` dates seven days apart starting at `start`. */
  function WeeksFrom(start: Date, n: nat): (r: seq<Date>)
    requires Valid(start)
    ensures |r| == n && forall i :: 0 <= i < |r| ==> Valid(r[i])
    ensures forall i :: 0 <= i < n ==> r[i] == AddDays(start, 7 * i)
  {
    seq(n, i requires 0 <= i < n => AddDays(start, 7 * i))
  }

  predicate AllRepresentable(ws: seq<Date>) {
    forall i :: 0 <= i < |ws| ==> Representable(ws[i].y)
  }

  /**
   * The week range as evidently intended: the dates from `start` in steps of
   * seven while not after `end` in calendar order. Each one is printed and
   * parsed again to take the next step, so one whose year does not print in
   * four characters is a usage error.
   */
  function WeekRange(start: Date, end: Date): (r: Result<seq<Date>>)
    requires Valid(start) && Valid(end)
    ensures r.Err? ==> r.error == Usage
    ensures r.Ok? ==> (forall i :: 0 <= i < |r.value| ==> Valid(r.value[i])) && AllRepresentable(r.value)
  {
    var weeks := WeeksFrom(start, WeekSteps(DayNumber(end) - DayNumber(start)));
    if AllRepresentable(weeks) then Ok(weeks) else Err(Usage)
  }

  lemma StepWithinGap(gap: int, i: int)
    requires 0 <= i < WeekSteps(gap)
    ensures 0 <= 7 * i <= gap && (7 * i) % 7 == 0
  {
  }

  lemma GapWithinSteps(gap: int, delta: int)
    requires 0 <= delta <= gap && delta % 7 == 0
    ensures 0 <= delta / 7 < WeekSteps(gap) && 7 * (delta / 7) == delta
  {
  }

  lemma WeekdayOfDayShift(z: int, i: int)
    ensures WeekdayOfDay(z + 7 * i) == WeekdayOfDay(z)
  {
  }

  /** Seven days on, the same weekday. */
  lemma WeekStep(start: Date, i: int)
    requires Valid(start)
    ensures DayNumber(AddDays(start, 7 * i)) == DayNumber(start) + 7 * i
    ensures IsoWeekday(AddDays(start, 7 * i)) == IsoWeekday(start)
  {
    WeekdayOfDayShift(DayNumber(start), i);
  }

  lemma WeekNotBefore(start: Date, i: int)
    requires Valid(start) && 0 <= i
    ensures DateLe(start, AddDays(start, 7 * i))
  {
    WeekStep(start, i);
    DateOrderIsDayOrder(start, AddDays(start, 7 * i));
  }

  lemma WeekNotAfter(start: Date, end: Date, i: int)
    requires Valid(start) && Valid(end) && 0 <= i && 7 * i <= DayNumber(end) - DayNumber(start)
    ensures DateLe(AddDays(start, 7 * i), end)
  {
    WeekStep(start, i);
    DateOrderIsDayOrder(AddDays(start, 7 * i), end);
  }

  lemma WeekRangeOnlyMondays(start: Date, end: Date, n: nat, i: int)
    requires Valid(start) && Valid(end) && IsoWeekday(start) == 1
    requires n == WeekSteps(DayNumber(end) - DayNumber(start)) && 0 <= i < n
    ensures var w := WeeksFrom(start, n)[i];
      DateLe(start, w) && DateLe(w, end) && IsoWeekday(w) == 1
  {
    StepWithinGap(DayNumber(end) - DayNumber(start), i);
    WeekStep(start, i);
    WeekNotBefore(start, i);
    WeekNotAfter(start, end, i);
  }

  /** The number of whole weeks from one Monday to a later one. */
  lemma MondaysApart(start: Date, end: Date, w: Date) returns (i: nat)
    requires Valid(start) && Valid(end) && Valid(w) && IsoWeekday(start) == 1
    requires DateLe(start, w) && DateLe(w, end) && IsoWeekday(w) == 1
    ensures i < WeekSteps(DayNumber(end) - DayNumber(start))
    ensures DayNumber(w) == DayNumber(start) + 7 * i
  {
    DateOrderIsDayOrder(start, w);
    DateOrderIsDayOrder(w, end);
    IsoWeekdayPeriod(start, w);
    var delta := DayNumber(w) - DayNumber(start);
    GapWithinSteps(DayNumber(end) - DayNumber(start), delta);
    i := delta / 7;
  }

  lemma WeekRangeAllMondays(start: Date, end: Date, n: nat, w: Date)
    requires Valid(start) && Valid(end) && Valid(w) && IsoWeekday(start) == 1
    requires n == WeekSteps(DayNumber(end) - DayNumber(start))
    requires DateLe(start, w) && DateLe(w, end) && IsoWeekday(w) == 1
    ensures w in WeeksFrom(start, n)
  {
    var i := MondaysApart(start, end, w);
    WeekStep(start, i);
    SameDayNumber(WeeksFrom(start, n)[i], w);
  }

  /** The week starts of the range are exactly the Mondays from `start` through `end`. */
  lemma WeekRangeMembers(start: Date, end: Date, w: Date)
    requires Valid(start) && Valid(end) && Valid(w) && IsoWeekday(start) == 1
    ensures w in WeeksFrom(start, WeekSteps(DayNumber(end) - DayNumber(start)))
      <==> DateLe(start, w) && DateLe(w, end) && IsoWeekday(w) == 1
  {
    var n := WeekSteps(DayNumber(end) - DayNumber(start));
    var weeks := WeeksFrom(start, n);
    if w in weeks {
      var i :| 0 <= i < |weeks| && weeks[i] == w;
      WeekRangeOnlyMondays(start, end, n, i);
    }
    if DateLe(start, w) && DateLe(w, end) && IsoWeekday(w) == 1 {
      WeekRangeAllMondays(start, end, n, w);
    }
  }

  /** A result with `p` in front of its value; an error stays as it is. */
  function Prepend(p: seq<Date>, r: Result<seq<Date>>): Result<seq<Date>> {
    if r.Ok? then Ok(p + r.value) else r
  }

  lemma PrependTwice(p: seq<Date>, d: Date, r: Result<seq<Date>>)
    ensures Prepend(p, Prepend([d], r)) == Prepend(p + [d], r)
  {
    if r.Ok? {
      assert p + ([d] + r.value) == (p + [d]) + r.value;
    }
  }

  lemma PrependNothing(r: Result<seq<Date>>)
    ensures Prepend([], r) == r
  {
    if r.Ok? {
      assert [] + r.value == r.value;
    }
  }

  /** The day number of January 1, 10000, the first day whose year does not print in four characters. */
  const YearTenThousandDay := 2932897

  /** A date's year is at most 9999 exactly when it comes before year 10000. */
  lemma YearTenThousand(d: Date)
    requires Valid(d)
    ensures d.y <= 9999 <==> DayNumber(d) < YearTenThousandDay
  {
    assert DayNumber(Date(10000, 1, 1)) == YearTenThousandDay;
    DateOrderIsDayOrder(d, Date(10000, 1, 1));
  }

  /**
   * `week_range_inclusive` as written: from `cur`, while its printed text
   * does not sort after the text `to`, keep it and step seven days on. The
   * step parses `cur` again, so a kept date whose year does not print in
   * four characters is a usage error. The comparison is on text, so a year
   * of five digits still sorts before "9999-…".
   */
  function WeekStarts(cur: Date, to: string): (r: Result<seq<Date>>)
    requires Valid(cur)
    ensures r.Err? ==> r.error == Usage
    ensures r.Ok? ==> forall d :: d in r.value ==> Valid(d) && Representable(d.y) && !LexLess(to, FormatDate(d))
    decreases YearTenThousandDay + 7 - DayNumber(cur)
  {
    if LexLess(to, FormatDate(cur)) then Ok([])
    else if !Representable(cur.y) then Err(Usage)
    else
      YearTenThousand(cur);
      Prepend([cur], WeekStarts(AddDays(cur, 7), to))
  }

  /** One more week: the first `k + 1` steps from `start` are `start` and then the first `k` steps from a week later. */
  lemma WeeksFromCons(start: Date, k: nat)
    requires Valid(start)
    ensures WeeksFrom(start, k + 1) == [start] + WeeksFrom(AddDays(start, 7), k)
  {
    var a, b := WeeksFrom(start, k + 1), [start] + WeeksFrom(AddDays(start, 7), k);
    forall i | 0 <= i < k + 1
      ensures a[i] == b[i]
    {
      WeeksFromConsAt(start, k, i);
    }
  }

  lemma WeeksFromConsAt(start: Date, k: nat, i: int)
    requires Valid(start) && 0 <= i < k + 1
    ensures WeeksFrom(start, k + 1)[i] == ([start] + WeeksFrom(AddDays(start, 7), k))[i]
  {
    var next := AddDays(start, 7);
    var rest := WeeksFrom(next, k);
    if i == 0 {
      AddDaysZero(start);
    } else {
      assert ([start] + rest)[i] == rest[i - 1] == AddDays(next, 7 * (i - 1));
      WeekLater(start, i);
    }
  }

  /** `i` weeks after `start` is `i - 1` weeks after the week after it. */
  lemma WeekLater(start: Date, i: int)
    requires Valid(start)
    ensures AddDays(start, 7 * i) == AddDays(AddDays(start, 7), 7 * (i - 1))
  {
    SameDayNumber(AddDays(start, 7 * i), AddDays(AddDays(start, 7), 7 * (i - 1)));
  }

  /** The calendar range from a date not after the end is that date, then the range from a week later. */
  lemma WeekRangeCons(cur: Date, end: Date)
    requires Valid(cur) && Valid(end) && DayNumber(cur) <= DayNumber(end) && Representable(cur.y)
    ensures WeekRange(cur, end) == Prepend([cur], WeekRange(AddDays(cur, 7), end))
  {
    var next := AddDays(cur, 7);
    var k := WeekSteps(DayNumber(end) - DayNumber(next));
    WeeksFromCons(cur, k);
    WeekRangeStep(cur, next, end, k);
  }

  lemma WeekRangeStep(cur: Date, next: Date, end: Date, k: nat)
    requires Valid(cur) && Valid(next) && Valid(end) && Representable(cur.y)
    requires DayNumber(cur) <= DayNumber(end) && DayNumber(next) == DayNumber(cur) + 7
    requires k == WeekSteps(DayNumber(end) - DayNumber(next))
    requires WeeksFrom(cur, k + 1) == [cur] + WeeksFrom(next, k)
    ensures WeekRange(cur, end) == Prepend([cur], WeekRange(next, end))
  {
    var rest := WeeksFrom(next, k);
    assert WeekSteps(DayNumber(end) - DayNumber(cur)) == k + 1;
    AllRepresentableCons(cur, rest);
    WeekRangeUnfold(cur, end, k + 1);
    WeekRangeUnfold(next, end, k);
  }

  lemma WeekRangeUnfold(start: Date, end: Date, n: nat)
    requires Valid(start) && Valid(end) && n == WeekSteps(DayNumber(end) - DayNumber(start))
    ensures WeekRange(start, end) == if AllRepresentable(WeeksFrom(start, n)) then Ok(WeeksFrom(start, n)) else Err(Usage)
  {
    var weeks := WeeksFrom(start, n);
    assert WeeksFrom(start, WeekSteps(DayNumber(end) - DayNumber(start))) == weeks;
  }

  lemma AllRepresentableCons(d: Date, ws: seq<Date>)
    ensures AllRepresentable([d] + ws) <==> Representable(d.y) && AllRepresentable(ws)
  {
    if Representable(d.y) && AllRepresentable(ws) {
      forall i | 0 <= i < |[d] + ws|
        ensures Representable(([d] + ws)[i].y)
      {
        if i > 0 {
          assert ([d] + ws)[i] == ws[i - 1];
        }
      }
    }
    if AllRepresentable([d] + ws) {
      assert ([d] + ws)[0] == d;
      forall i | 0 <= i < |ws|
        ensures Representable(ws[i].y)
      {
        assert ([d] + ws)[i + 1] == ws[i];
      }
    }
  }

  /**
   * For years 0 to 9999, and an end more than a week before year 10000, the
   * loop as written gives the calendar range: there, text order is date
   * order.
   */
  lemma {:induction false} WeekStartsPrinted(cur: Date, end: Date)
    requires Valid(cur) && Valid(end) && 0 <= cur.y <= 9999 && 0 <= end.y
    requires DayNumber(end) + 7 < YearTenThousandDay
    ensures WeekStarts(cur, FormatDate(end)) == WeekRange(cur, end)
    decreases YearTenThousandDay - DayNumber(cur)
  {
    YearTenThousand(end);
    YearTenThousand(cur);
    FormatOrder(end, cur);
    DateOrderIsDayOrder(end, cur);
    if DayNumber(cur) <= DayNumber(end) {
      var next := AddDays(cur, 7);
      YearTenThousand(next);
      DateOrderIsDayOrder(cur, next);
      WeekStartsPrinted(next, end);
      WeekRangeCons(cur, end);
    }
  }

  /**
   * In the last week of year 9999 the loop as written steps from
   * "9999-12-27" to "10000-01-03", which still sorts before "9999-12-27";
   * the next step cannot parse it and fails.
   */
  lemma WeekStartsLastWeek()
    ensures WeekStarts(Date(9999, 12, 27), "9999-12-27") == Err(Usage)
  {
    var last, next := Date(9999, 12, 27), Date(10000, 1, 3);
    LastWeekTexts();
    LexLessIrreflexive("9999-12-27");
    LastWeekDays();
    SameDayNumber(AddDays(last, 7), next);
    assert WeekStarts(next, "9999-12-27") == Err(Usage);
  }

  lemma LastWeekDays()
    ensures DayNumber(Date(9999, 12, 27)) + 7 == DayNumber(Date(10000, 1, 3))
  {
    assert DayNumber(Date(9999, 12, 27)) == 2932892;
    assert DayNumber(Date(10000, 1, 3)) == 2932899;
  }

  /** The calendar range of that week holds its one Monday. */
  lemma WeekRangeLastWeek()
    ensures WeekRange(Date(9999, 12, 27), Date(9999, 12, 27)) == Ok([Date(9999, 12, 27)])
  {
    var last := Date(9999, 12, 27);
    assert WeekSteps(DayNumber(last) - DayNumber(last)) == 1;
    SameDayNumber(WeeksFrom(last, 1)[0], last);
    assert WeeksFrom(last, 1) == [last];
  }

  lemma LastWeekTexts()
    ensures FormatDate(Date(9999, 12, 27)) == "9999-12-27"
    ensures FormatDate(Date(10000, 1, 3)) == "10000-01-03"
    ensures !LexLess("9999-12-27", "10000-01-03")
  {
    LastMondayText();
    YearTenThousandText();
    LexLessHead("999-12-27", "0000-01-03", '9', '1');
  }

  lemma LastMondayText()
    ensures FormatDate(Date(9999, 12, 27)) == "9999-12-27"
  {
    LastMondayFields();
    FormatSplit(Date(9999, 12, 27));
  }

  lemma LastMondayFields()
    ensures PadYear(9999) == "9999" && ZeroPad(12, 2) == "12" && ZeroPad(27, 2) == "27"
  {
    assert Decimal(9) == "9" && Decimal(99) == "99" && Decimal(999) == "999";
    assert Decimal(12) == "12" && Decimal(27) == "27";
  }

  lemma YearTenThousandText()
    ensures FormatDate(Date(10000, 1, 3)) == "10000-01-03"
  {
    YearTenThousandFields();
    FormatSplit(Date(10000, 1, 3));
  }

  lemma YearTenThousandFields()
    ensures PadYear(10000) == "10000" && ZeroPad(1, 2) == "01" && ZeroPad(3, 2) == "03"
  {
    FiveDigitYear();
    ZeroPadTests();
    assert Decimal(3) == "3" && Zeros(1) == "0";
  }

  lemma FiveDigitYear()
    ensures PadYear(10000) == "10000"
  {
    assert Decimal(1) == "1" && Decimal(10) == "10" && Decimal(100) == "100";
    assert Decimal(1000) == "1000" && Decimal(10000) == "10000";
    assert ZeroPad(10000, 4) == Decimal(10000);
  }

  /** `week_range_inclusive`: the method computes `WeekStarts`. */
  method WeekRangeInclusive(start: Date, to: string) returns (r: Result<seq<Date>>)
    requires Valid(start)
    ensures r == WeekStarts(start, to)
  {
    var weeks: seq<Date> := [];
    var cur := start;
    PrependNothing(WeekStarts(start, to));
    while !LexLess(to, FormatDate(cur))
      invariant Valid(cur)
      invariant WeekStarts(start, to) == Prepend(weeks, WeekStarts(cur, to))
      decreases YearTenThousandDay + 7 - DayNumber(cur)
    {
      if !Representable(cur.y) {
        return Err(Usage);
      }
      YearTenThousand(cur);
      PrependTwice(weeks, cur, WeekStarts(AddDays(cur, 7), to));
      weeks := weeks + [cur];
      cur := AddDays(cur, 7);
    }
    assert weeks + [] == weeks;
    return Ok(weeks);
  }

  /** For a Monday that prints and parses back, `iso_week_end` succeeds and prints the week's Sunday. */
  lemma WeekEndOfWeekStart(ws: Date)
    requires Valid(ws) && IsoWeekday(ws) == 1 && Representable(ws.y)
    ensures IsoWeekStart(ws) == ws
    ensures IsoWeekEndText(FormatDate(ws)) == Ok(WeekOf(ws).end.text)
  {
    DateOrderIsDayOrder(IsoWeekStart(ws), ws);
    ParseFormatRoundTrip(ws);
  }

  /** A week is eligible when its printed end is not before the creation date (compared as text). */
  function EndsAfterCreation(h: Habit): Week -> bool {
    (w: Week) => !LexLess(w.end.text, h.createdDate)
  }

  /** The loop that keeps the eligible weeks. */
  method EligibleWeeks(h: Habit, weeks: seq<Week>) returns (eligible: seq<Week>)
    ensures eligible == Filter(weeks, EndsAfterCreation(h))
  {
    eligible := [];
    for i := 0 to |weeks|
      invariant eligible == Filter(weeks[..i], EndsAfterCreation(h))
    {
      FilterPrefixStep(weeks, i, EndsAfterCreation(h));
      if !LexLess(weeks[i].end.text, h.createdDate) {
        eligible := eligible + [weeks[i]];
      }
    }
    assert weeks[..|weeks|] == weeks;
  }

  /** The sums of the eligible weeks, in order; the first week whose sum fails fails the whole. */
  function WeekSums(cs: seq<Checkin>, h: Habit, weeks: seq<Week>): (r: Result<seq<U32>>)
    ensures r.Ok? <==> forall i :: 0 <= i < |weeks| ==> WeekSum(cs, h, weeks[i]).Ok?
    ensures r.Ok? ==> |r.value| == |weeks| && forall i :: 0 <= i < |weeks| ==> r.value[i] == WeekSum(cs, h, weeks[i]).value
    ensures r.Err? ==> r.error == Usage
  {
    CollectAll(weeks, w => WeekSum(cs, h, w))
  }

  /** The successes loop of the weekly statistics, which is where a failing week sum surfaces. */
  method SumWeeks(cs: seq<Checkin>, h: Habit, weeks: seq<Week>) returns (r: Result<seq<U32>>)
    ensures r == WeekSums(cs, h, weeks)
  {
    var sums: seq<U32> := [];
    for i := 0 to |weeks|
      invariant WeekSums(cs, h, weeks[..i]) == Ok(sums)
    {
      assert weeks[..i + 1][..i] == weeks[..i];
      var s := WeekSumForHabit(cs, h, weeks[i]);
      if s.Err? {
        return Err(s.error);
      }
      sums := sums + [s.value];
    }
    assert weeks[..|weeks|] == weeks;
    return Ok(sums);
  }

  /** Whether each week's sum reaches the target. */
  function Reached(sums: seq<U32>, target: U32): (oks: seq<bool>)
    ensures |oks| == |sums|
    ensures forall i :: 0 <= i < |sums| ==> (oks[i] <==> sums[i] >= target)
  {
    seq(|sums|, i requires 0 <= i < |sums| => sums[i] >= target)
  }

  /** The weekly row for the weeks of a range. */
  function WeeklyRow(cs: seq<Checkin>, h: Habit, w: Window, weeks: seq<Week>): (r: Result<StatsRow>)
    ensures r.Err? ==> r.error == Usage
    ensures r.Ok? ==> r.value.period == "week" && r.value.eligible == |Filter(weeks, EndsAfterCreation(h))|
    ensures r.Ok? ==> r.value.habitId == h.id && r.value.from == w.from && r.value.to == w.to
  {
    var sums :- WeekSums(cs, h, Filter(weeks, EndsAfterCreation(h)));
    Ok(RowOf(h, "week", w.from, w.to, Reached(sums, h.target.quantity)))
  }

  /**
   * The week starts of a window: `week_range_inclusive` from the Monday of
   * `from`'s week up to the printed Monday of `to`'s week.
   */
  function WindowWeeks(f: Date, t: Date): (r: Result<seq<Date>>)
    requires Valid(f) && Valid(t)
    ensures r.Err? ==> r.error == Usage
    ensures r.Ok? ==> AllValid(r.value)
  {
    var r := WeekStarts(IsoWeekStart(f), FormatDate(IsoWeekStart(t)));
    if r.Ok? then (MembersValid(r.value); r) else r
  }

  lemma MembersValid(ws: seq<Date>)
    requires forall d :: d in ws ==> Valid(d)
    ensures AllValid(ws)
  {
    forall i | 0 <= i < |ws|
      ensures Valid(ws[i])
    {
      assert ws[i] in ws;
    }
  }

  /** The loop over a window's weeks computes `WindowWeeks`. */
  method WindowWeekStarts(f: Date, t: Date) returns (r: Result<seq<Date>>)
    requires Valid(f) && Valid(t)
    ensures r == WindowWeeks(f, t)
  {
    var first, last := IsoWeekStart(f), IsoWeekStart(t);
    r := WeekRangeInclusive(first, FormatDate(last));
  }

  /**
   * `compute_weekly_stats`: both ends must parse; the weeks run from the
   * Monday of `from`'s week to the Monday of `to`'s week (none when that is
   * earlier), and the eligible ones are scored by their sums.
   */
  function WeeklyStats(cs: seq<Checkin>, h: Habit, w: Window): (r: Result<StatsRow>)
    requires WellParsed(w)
    ensures r.Err? ==> r.error == Usage
    ensures w.start.Err? || w.end.Err? ==> r.Err?
    ensures r.Ok? ==> r.value.habitId == h.id && r.value.period == "week" && r.value.from == w.from && r.value.to == w.to
  {
    var f :- w.start;
    var t :- w.end;
    var starts :- WindowWeeks(f, t);
    WeeklyRow(cs, h, w, Weeks(starts))
  }

  method WeeklyRowFor(cs: seq<Checkin>, h: Habit, w: Window, weeks: seq<Week>) returns (r: Result<StatsRow>)
    ensures r == WeeklyRow(cs, h, w, weeks)
  {
    var eligible := EligibleWeeks(h, weeks);
    var sums := SumWeeks(cs, h, eligible);
    if sums.Err? {
      return Err(sums.error);
    }
    var row := RowFor(h, "week", w.from, w.to, Reached(sums.value, h.target.quantity));
    return Ok(row);
  }

  /** `compute_weekly_stats`. */
  method ComputeWeeklyStats(cs: seq<Checkin>, h: Habit, w: Window) returns (r: Result<StatsRow>)
    requires WellParsed(w)
    ensures r == WeeklyStats(cs, h, w)
  {
    if w.start.Err? {
      return Err(w.start.error);
    }
    if w.end.Err? {
      return Err(w.end.error);
    }
    var starts := WindowWeekStarts(w.start.value, w.end.value);
    if starts.Err? {
      return Err(starts.error);
    }
    r := WeeklyRowFor(cs, h, w, Weeks(starts.value));
  }

  // ---------------------------------------------------------------------------
  // All habits
  // ---------------------------------------------------------------------------

  /** A daily target is scored by day; any other period by ISO week. */
  function HabitStats(cs: seq<Checkin>, h: Habit, w: Window): (r: Result<StatsRow>)
    requires WellParsed(w)
    ensures r.Ok? ==> r.value.habitId == h.id && r.value.from == w.from && r.value.to == w.to
    ensures r.Ok? ==> r.value.period == if h.target.period == "day" then "day" else "week"
    ensures r.Err? ==> r.error == Usage
  {
    if h.target.period == "day" then DailyStats(cs, h, w) else WeeklyStats(cs, h, w)
  }

  /** One row per habit in order; the first habit whose row fails fails the whole. */
  function StatsRows(cs: seq<Checkin>, hs: seq<Habit>, w: Window): (r: Result<seq<StatsRow>>)
    requires WellParsed(w)
    ensures r.Ok? <==> forall i :: 0 <= i < |hs| ==> HabitStats(cs, hs[i], w).Ok?
    ensures r.Ok? ==> |r.value| == |hs| && forall i :: 0 <= i < |hs| ==> r.value[i] == HabitStats(cs, hs[i], w).value
    ensures r.Err? ==> r.error == Usage
  {
    CollectAll(hs, StatsOf(cs, w))
  }

  /** The row of one habit, as the function `StatsRows` applies to each. */
  function StatsOf(cs: seq<Checkin>, w: Window): (f: Habit --> Result<StatsRow>)
    requires WellParsed(w)
    ensures forall h :: f.requires(h) && f(h) == HabitStats(cs, h, w)
  {
    h requires WellParsed(w) => HabitStats(cs, h, w)
  }

  /** The loop of `build_stats` over the sorted habits. */
  method StatsLoop(cs: seq<Checkin>, sorted: seq<Habit>, w: Window) returns (r: Result<seq<StatsRow>>)
    requires WellParsed(w) && ParsedFrom(w)
    ensures r == StatsRows(cs, sorted, w)
  {
    var rows: seq<StatsRow> := [];
    for i := 0 to |sorted|
      invariant StatsRows(cs, sorted[..i], w) == Ok(rows)
    {
      var row: Result<StatsRow>;
      if sorted[i].target.period == "day" {
        row := ComputeDailyStats(cs, sorted[i], w);
      } else {
        row := ComputeWeeklyStats(cs, sorted[i], w);
      }
      if row.Err? {
        StatsRowsFirstError(cs, sorted, w, i);
        return Err(row.error);
      }
      StatsRowsSnoc(cs, sorted, w, i);
      rows := rows + [row.value];
    }
    assert sorted[..|sorted|] == sorted;
    return Ok(rows);
  }

  /** A habit whose row fails after rows that succeed fails the whole. */
  lemma StatsRowsFirstError(cs: seq<Checkin>, hs: seq<Habit>, w: Window, i: int)
    requires WellParsed(w) && 0 <= i < |hs| && StatsRows(cs, hs[..i], w).Ok? && HabitStats(cs, hs[i], w).Err?
    ensures StatsRows(cs, hs, w) == Err(HabitStats(cs, hs[i], w).error)
  {
  }

  /** A habit whose row succeeds after rows that succeed adds its row. */
  lemma StatsRowsSnoc(cs: seq<Checkin>, hs: seq<Habit>, w: Window, i: int)
    requires WellParsed(w) && 0 <= i < |hs| && StatsRows(cs, hs[..i], w).Ok? && HabitStats(cs, hs[i], w).Ok?
    ensures StatsRows(cs, hs[..i + 1], w) == Ok(StatsRows(cs, hs[..i], w).value + [HabitStats(cs, hs[i], w).value])
  {
    CollectAllSnoc(hs, StatsOf(cs, w), i);
  }

  /**
   * `build_stats`: the habits in listing order, one row each. The rows come
   * out in that order, one row for every habit.
   */
  method BuildStats(db: Db, habits: seq<Habit>, from: string, to: string) returns (r: Result<seq<StatsRow>>)
    ensures r == StatsRows(db.checkins, SortBy(habits, HabitLt()), WindowOf(from, to))
    ensures r.Ok? ==> |r.value| == |habits| && Sorted(SortBy(habits, HabitLt()), HabitLt())
    ensures r.Ok? ==> forall i :: 0 <= i < |habits| ==> r.value[i].habitId == SortBy(habits, HabitLt())[i].id
  {
    HabitLtOrder();
    SortBySorted(habits, HabitLt());
    var sorted := SortBy(habits, HabitLt());
    r := StatsLoop(db.checkins, sorted, WindowOf(from, to));
  }
}
