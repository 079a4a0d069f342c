/**
 * The status report: for one date, the visible habits scheduled that day
 * with their progress (the day's counted quantity for a daily habit, the
 * week's counted total for a weekly one), and for the ISO week of that date
 * (or of a chosen anchor date) one row per visible habit: the scheduled and
 * completed days of a daily habit, the week's totals of a weekly one.
 */
module Status {
  import opened Errors
  import opened Text
  import opened Calendar
  import opened Dates
  import opened Sorting
  import opened Store
  import opened Habits
  import opened Checkins
  import opened Declarations
  import opened Completion
  import Stats

  /** A habit of the today section. */
  datatype TodayRow = TodayRow(
    id: string,
    name: string,
    period: string,
    target: U32,
    quantity: U32,
    rawQuantity: U32,
    done: bool,
    needsDeclaration: bool,
    declared: bool)

  /** A habit of the week section: a day count for a daily habit, the totals for a weekly one. */
  datatype WeekRow =
    | DayRow(id: string, name: string, period: string, scheduledDays: nat, doneScheduledDays: nat, needsDeclaration: bool)
    | WeekTotalRow(id: string, name: string, period: string, target: U32, quantity: U32, rawQuantity: U32, needsDeclaration: bool)

  datatype Report = Report(
    date: string,
    today: seq<TodayRow>,
    weekId: string,
    weekStart: string,
    weekEnd: string,
    week: seq<WeekRow>)

  // ---------------------------------------------------------------------------
  // Week sums
  // ---------------------------------------------------------------------------

  /** The counted quantity of a day of the week, or nothing before the habit's creation (compared as text). */
  function CountedOn(cs: seq<Checkin>, ds: seq<Declaration>, h: Habit, day: Stats.Day): (q: U32)
    ensures q <= Stats.QuantityFromCreation(cs, h, day)
    ensures IsDeclared(ds, h, day.text) ==> q == Stats.QuantityFromCreation(cs, h, day)
    ensures !IsDeclared(ds, h, day.text) ==> q == 0
  {
    if LexLess(day.text, h.createdDate) then 0 else CountedQuantity(cs, ds, h, day.text)
  }

  /** The saturating sum of the counted quantities of the days, in order. */
  function CountedTotal(cs: seq<Checkin>, ds: seq<Declaration>, h: Habit, days: seq<Stats.Day>): U32 {
    if days == [] then 0
    else SatAdd(CountedTotal(cs, ds, h, days[..|days| - 1]), CountedOn(cs, ds, h, days[|days| - 1]))
  }

  /** The counted total never exceeds the raw total over the same days. */
  lemma {:induction false} CountedAtMostRaw(cs: seq<Checkin>, ds: seq<Declaration>, h: Habit, days: seq<Stats.Day>)
    ensures CountedTotal(cs, ds, h, days) <= Stats.DaysTotal(cs, h, days)
  {
    if days != [] {
      CountedAtMostRaw(cs, ds, h, days[..|days| - 1]);
    }
  }

  /** For a habit that needs no declaration, every check-in counts: the two totals agree. */
  lemma {:induction false} UngatedTotalsAgree(cs: seq<Checkin>, ds: seq<Declaration>, h: Habit, days: seq<Stats.Day>)
    requires !h.needsDeclaration
    ensures CountedTotal(cs, ds, h, days) == Stats.DaysTotal(cs, h, days)
  {
    if days != [] {
      UngatedTotalsAgree(cs, ds, h, days[..|days| - 1]);
    }
  }

  /**
   * `week_sum_for_habit` of the status report: the raw and the counted
   * totals of the week, which fails exactly when the week's end cannot be
   * computed and parsed again.
   */
  function WeekTotals(cs: seq<Checkin>, ds: seq<Declaration>, h: Habit, w: Stats.Week): (r: Result<(U32, U32)>)
    ensures r.Err? <==> Stats.WeekSum(cs, h, w).Err?
    ensures r.Err? ==> r.error == Usage
    ensures r.Ok? ==> r.value.0 == Stats.WeekSum(cs, h, w).value
    ensures r.Ok? ==> r.value.1 <= r.value.0
  {
    var raw :- Stats.WeekSum(cs, h, w);
    CountedAtMostRaw(cs, ds, h, w.days);
    Ok((raw, CountedTotal(cs, ds, h, w.days)))
  }

  /** The summing loop over the days of the week. */
  method WeekSumForHabit(cs: seq<Checkin>, ds: seq<Declaration>, h: Habit, w: Stats.Week) returns (r: Result<(U32, U32)>)
    ensures r == WeekTotals(cs, ds, h, w)
  {
    if !Representable(w.start.date.y) || !Representable(w.monday.y) || !Stats.DaysListed(w) {
      return Err(Usage);
    }
    var days := w.days;
    var rawSum: U32 := 0;
    var countedSum: U32 := 0;
    for i := 0 to |days|
      invariant rawSum == Stats.DaysTotal(cs, h, days[..i])
      invariant countedSum == CountedTotal(cs, ds, h, days[..i])
    {
      assert days[..i + 1][..i] == days[..i];
      if LexLess(days[i].text, h.createdDate) {
        continue;
      }
      rawSum := SatAdd(rawSum, GetQuantity(cs, h.id, days[i].text));
      countedSum := SatAdd(countedSum, CountedQuantity(cs, ds, h, days[i].text));
    }
    assert days[..|days|] == days;
    return Ok((rawSum, countedSum));
  }

  // ---------------------------------------------------------------------------
  // The week reported
  // ---------------------------------------------------------------------------

  /** What `ParseDate` promises of its result. */
  predicate ParsedWell(parsed: Result<Date>) {
    && (parsed.Ok? ==> Valid(parsed.value))
    && (parsed.Err? ==> parsed.error == Usage)
  }

  /** The week of the report: its days and its printed `YYYY-Www` label. */
  datatype Frame = Frame(week: Stats.Week, id: string)

  /**
   * `iso_week_start`, `iso_week_end` and `iso_week_id` of the anchor date,
   * on the parse of the anchor: the week start and the week label are
   * computed from the printed start, which must parse again.
   */
  function StatusWeek(anchor: Result<Date>): (r: Result<Frame>)
    requires ParsedWell(anchor)
    ensures r.Err? ==> r.error == Usage
    ensures r.Ok? ==> anchor.Ok? && r.value.week == Stats.WeekOf(IsoWeekStart(anchor.value))
  {
    var dt :- anchor;
    var monday := IsoWeekStart(dt);
    if !Representable(monday.y) then Err(Usage)
    else
      var id :- IsoWeekId(monday);
      Ok(Frame(Stats.WeekOf(monday), FormatWeekId(id)))
  }

  /** The three text operations of the source, in their order: start, end, label. */
  function StatusWeekText(anchor: string): (r: Result<(string, string, string)>) {
    var start :- IsoWeekStartText(anchor);
    var end :- IsoWeekEndText(start);
    // `iso_week_id` parses the start once more, which cannot fail once its end was computed
    var monday := ParseDate(start).value;
    var id :- IsoWeekId(monday);
    Ok((start, end, FormatWeekId(id)))
  }

  /** The week of a date's Monday: seven days, Monday to Sunday. */
  lemma WeekOfAnchor(dt: Date)
    requires Valid(dt)
    ensures var m := IsoWeekStart(dt); var w := Stats.WeekOf(m);
      && w.monday == m && w.end.date == IsoWeekEnd(dt)
      && DayNumber(w.end.date) == DayNumber(m) + 6 && |w.days| == 7
  {
    WeekOfWeekStart(dt);
  }

  /** On the anchor's parse, the frame yields the same start, end and label as the text operations. */
  lemma StatusWeekTextAgrees(anchor: string)
    ensures StatusWeekText(anchor).Ok? <==> StatusWeek(ParseDate(anchor)).Ok?
    ensures StatusWeek(ParseDate(anchor)).Ok? ==>
      var f := StatusWeek(ParseDate(anchor)).value;
      StatusWeekText(anchor).value == (f.week.start.text, f.week.end.text, f.id)
  {
    var p := ParseDate(anchor);
    if p.Ok? {
      var m := IsoWeekStart(p.value);
      var start := FormatDate(m);
      assert IsoWeekStartText(anchor) == Ok(start);
      assert ParseDate(start) == Reparse(m);
      if Representable(m.y) {
        WeekOfAnchor(p.value);
        var end := FormatDate(IsoWeekEnd(p.value));
        assert IsoWeekEndText(start) == Ok(end);
        if IsoWeekId(m).Ok? {
          var id := FormatWeekId(IsoWeekId(m).value);
          assert StatusWeekText(anchor) == Ok((start, end, id));
          assert StatusWeek(p) == Ok(Frame(Stats.WeekOf(m), id));
        } else {
          assert StatusWeekText(anchor).Err?;
          assert StatusWeek(p).Err?;
        }
      } else {
        assert IsoWeekEndText(start).Err?;
      }
    }
  }

  /**
   * The week reported runs from the Monday on or before the anchor date to
   * the Sunday six days later, covers the anchor date, has seven days, and
   * is labelled with the ISO week of its Monday.
   */
  lemma StatusWeekMeaning(anchor: Result<Date>)
    requires ParsedWell(anchor) && StatusWeek(anchor).Ok?
    ensures var f := StatusWeek(anchor).value; var w := f.week; var dt := anchor.value;
      && IsoWeekday(w.start.date) == 1 && IsoWeekday(w.end.date) == 7
      && DayNumber(w.end.date) == DayNumber(w.start.date) + 6
      && DayNumber(w.start.date) <= DayNumber(dt) <= DayNumber(w.end.date)
      && |w.days| == 7
      && w.start.text == FormatDate(w.start.date) && w.end.text == FormatDate(w.end.date)
      && IsoWeekId(w.start.date).Ok? && f.id == FormatWeekId(IsoWeekId(w.start.date).value)
  {
    var m := IsoWeekStart(anchor.value);
    assert Representable(m.y) && IsoWeekId(m).Ok?;
    assert StatusWeek(anchor) == Ok(Frame(Stats.WeekOf(m), FormatWeekId(IsoWeekId(m).value)));
    WeekOfAnchor(anchor.value);
  }

  // ---------------------------------------------------------------------------
  // Today
  // ---------------------------------------------------------------------------

  /**
   * `is_scheduled_on(h, date)`, given the parse of `date`: never before the
   * creation date (compared as text), otherwise on the scheduled weekdays.
   */
  function ScheduledToday(h: Habit, date: string, parsed: Result<Date>): (r: Result<bool>)
    requires ParsedWell(parsed)
    ensures LexLess(date, h.createdDate) ==> r == Ok(false)
    ensures r.Err? ==> parsed.Err? && r.error == parsed.error
  {
    if LexLess(date, h.createdDate) then Ok(false)
    else
      var dt :- parsed;
      Ok(IsoWeekday(dt) in h.schedule.days)
  }

  /** Given the date's own parse, it is `IsScheduledOn`. */
  lemma ScheduledTodayAgrees(h: Habit, date: string)
    ensures ScheduledToday(h, date, ParseDate(date)) == IsScheduledOn(h, date)
  {
  }

  /** The row of a habit scheduled today. */
  function TodayRowOf(cs: seq<Checkin>, ds: seq<Declaration>, h: Habit, date: string, w: Stats.Week): (row: TodayRow)
    ensures row.id == h.id && row.name == h.name && row.target == h.target.quantity
    ensures row.needsDeclaration == h.needsDeclaration && row.declared == IsDeclared(ds, h, date)
    ensures h.target.period == "day" ==>
      && row.period == "day"
      && row.quantity == CountedQuantity(cs, ds, h, date) && row.rawQuantity == GetQuantity(cs, h.id, date)
      && (row.done <==> IsDeclared(ds, h, date) && row.quantity >= h.target.quantity)
    ensures h.target.period != "day" ==>
      && row.period == "week"
      && row.rawQuantity == Stats.DaysTotal(cs, h, w.days) && row.quantity == CountedTotal(cs, ds, h, w.days)
      && (row.done <==> row.quantity >= h.target.quantity)
    ensures row.quantity <= row.rawQuantity
  {
    var declared := IsDeclared(ds, h, date);
    if h.target.period == "day" then
      var counted := CountedQuantity(cs, ds, h, date);
      TodayRow(h.id, h.name, "day", h.target.quantity, counted, GetQuantity(cs, h.id, date),
        declared && counted >= h.target.quantity, h.needsDeclaration, declared)
    else
      CountedAtMostRaw(cs, ds, h, w.days);
      var counted := CountedTotal(cs, ds, h, w.days);
      TodayRow(h.id, h.name, "week", h.target.quantity, counted, Stats.DaysTotal(cs, h, w.days),
        counted >= h.target.quantity, h.needsDeclaration, declared)
  }

  /** A daily habit with a positive target is done today exactly when `is_done_for_date` says so. */
  lemma TodayDoneIsDone(cs: seq<Checkin>, ds: seq<Declaration>, h: Habit, date: string, w: Stats.Week)
    requires h.target.period == "day" && h.target.quantity >= 1
    ensures TodayRowOf(cs, ds, h, date, w).done <==> IsDoneForDate(cs, ds, h, date)
  {
    DeclaredAndDone(cs, ds, h, date);
  }

  /** One habit of the today loop: skipped when not scheduled, its row otherwise. */
  function TodayEntry(cs: seq<Checkin>, ds: seq<Declaration>, h: Habit, date: string, parsed: Result<Date>, w: Stats.Week): Result<Option<TodayRow>>
    requires ParsedWell(parsed)
  {
    var scheduled :- ScheduledToday(h, date, parsed);
    if !scheduled then Ok(None)
    else if h.target.period == "day" then Ok(Some(TodayRowOf(cs, ds, h, date, w)))
    else
      var _ :- WeekTotals(cs, ds, h, w);
      Ok(Some(TodayRowOf(cs, ds, h, date, w)))
  }

  function TodayStep(cs: seq<Checkin>, ds: seq<Declaration>, date: string, parsed: Result<Date>, w: Stats.Week): Habit -> Result<Option<TodayRow>>
    requires ParsedWell(parsed)
  {
    (h: Habit) => TodayEntry(cs, ds, h, date, parsed, w)
  }

  function ScheduledFor(date: string, parsed: Result<Date>): Habit -> bool
    requires ParsedWell(parsed)
  {
    (h: Habit) => ScheduledToday(h, date, parsed) == Ok(true)
  }

  function TodayRowFn(cs: seq<Checkin>, ds: seq<Declaration>, date: string, w: Stats.Week): Habit -> TodayRow {
    (h: Habit) => TodayRowOf(cs, ds, h, date, w)
  }

  /**
   * The today section: the habits scheduled on the date, in the given
   * order, each with its row. It fails when the date does not parse (and
   * some habit was created on or before it as text), or when a scheduled
   * weekly habit's week cannot be summed.
   */
  function TodayRows(cs: seq<Checkin>, ds: seq<Declaration>, hs: seq<Habit>, date: string, parsed: Result<Date>, w: Stats.Week): (r: Result<seq<TodayRow>>)
    requires ParsedWell(parsed)
    ensures r.Err? ==> r.error == Usage
    ensures r.Ok? <==> forall i :: 0 <= i < |hs| ==>
      && ScheduledToday(hs[i], date, parsed).Ok?
      && (ScheduledToday(hs[i], date, parsed).value && hs[i].target.period != "day" ==> Stats.WeekSum(cs, hs[i], w).Ok?)
    ensures r.Ok? ==> r.value == MapSeq(Filter(hs, ScheduledFor(date, parsed)), TodayRowFn(cs, ds, date, w))
  {
    var step := TodayStep(cs, ds, date, parsed, w);
    var rows := CollectSome(hs, step);
    if rows.Err? then rows
    else
      CollectSomeFilter(hs, step, ScheduledFor(date, parsed), TodayRowFn(cs, ds, date, w));
      rows
  }

  /** The today loop. */
  method TodayLoop(cs: seq<Checkin>, ds: seq<Declaration>, hs: seq<Habit>, date: string, parsed: Result<Date>, w: Stats.Week)
    returns (r: Result<seq<TodayRow>>)
    requires ParsedWell(parsed)
    ensures r == TodayRows(cs, ds, hs, date, parsed, w)
  {
    var rows: seq<TodayRow> := [];
    for i := 0 to |hs|
      invariant CollectSome(hs[..i], TodayStep(cs, ds, date, parsed, w)) == Ok(rows)
    {
      var h := hs[i];
      CollectSomeSnoc(hs, TodayStep(cs, ds, date, parsed, w), i, rows);
      var scheduled := ScheduledToday(h, date, parsed);
      if scheduled.Err? {
        assert TodayStep(cs, ds, date, parsed, w)(hs[i]).Err?;
        return Err(scheduled.error);
      }
      if !scheduled.value {
        continue;
      }
      if h.target.period == "day" {
        rows := rows + [TodayRowOf(cs, ds, h, date, w)];
      } else {
        var sums := WeekSumForHabit(cs, ds, h, w);
        if sums.Err? {
          assert TodayStep(cs, ds, date, parsed, w)(hs[i]).Err?;
          return Err(sums.error);
        }
        rows := rows + [TodayRowOf(cs, ds, h, date, w)];
      }
    }
    assert hs[..|hs|] == hs;
    return Ok(rows);
  }

  // ---------------------------------------------------------------------------
  // The week
  // ---------------------------------------------------------------------------

  /** A scheduled day counts as done when it is declared and its counted quantity reaches the target. */
  predicate DoneOn(cs: seq<Checkin>, ds: seq<Declaration>, h: Habit, day: Stats.Day) {
    IsDeclared(ds, h, day.text) && CountedQuantity(cs, ds, h, day.text) >= h.target.quantity
  }

  /** How many of the days the habit is scheduled on. */
  function ScheduledCount(h: Habit, days: seq<Stats.Day>): nat {
    if days == [] then 0
    else ScheduledCount(h, days[..|days| - 1]) + (if Stats.ScheduledDay(h, days[|days| - 1]) then 1 else 0)
  }

  /** How many of the days the habit is scheduled on and done. */
  function DoneCount(cs: seq<Checkin>, ds: seq<Declaration>, h: Habit, days: seq<Stats.Day>): nat {
    if days == [] then 0
    else
      var day := days[|days| - 1];
      DoneCount(cs, ds, h, days[..|days| - 1]) + (if Stats.ScheduledDay(h, day) && DoneOn(cs, ds, h, day) then 1 else 0)
  }

  /** The scheduled count is the number of scheduled days; at most all of them are done. */
  lemma {:induction false} CountsMeaning(cs: seq<Checkin>, ds: seq<Declaration>, h: Habit, days: seq<Stats.Day>)
    ensures ScheduledCount(h, days) == |Filter(days, Stats.OnSchedule(h))|
    ensures DoneCount(cs, ds, h, days) <= ScheduledCount(h, days) <= |days|
  {
    ScheduledCountFilter(h, days);
    DoneCountAtMost(cs, ds, h, days);
  }

  lemma {:induction false} ScheduledCountFilter(h: Habit, days: seq<Stats.Day>)
    ensures ScheduledCount(h, days) == |Filter(days, Stats.OnSchedule(h))| <= |days|
  {
    if days != [] {
      ScheduledCountFilter(h, days[..|days| - 1]);
      FilterLast(days, Stats.OnSchedule(h));
    }
  }

  lemma {:induction false} DoneCountAtMost(cs: seq<Checkin>, ds: seq<Declaration>, h: Habit, days: seq<Stats.Day>)
    ensures DoneCount(cs, ds, h, days) <= ScheduledCount(h, days)
  {
    if days != [] {
      DoneCountAtMost(cs, ds, h, days[..|days| - 1]);
    }
  }

  /** A day is counted as done only if it is one of the days, scheduled, declared and reaching the target. */
  lemma {:induction false} DoneCountWitness(cs: seq<Checkin>, ds: seq<Declaration>, h: Habit, days: seq<Stats.Day>)
    requires DoneCount(cs, ds, h, days) > 0
    ensures exists day :: day in days && Stats.ScheduledDay(h, day) && DoneOn(cs, ds, h, day)
  {
    var front, day := days[..|days| - 1], days[|days| - 1];
    if !(Stats.ScheduledDay(h, day) && DoneOn(cs, ds, h, day)) {
      DoneCountWitness(cs, ds, h, front);
      var x :| x in front && Stats.ScheduledDay(h, x) && DoneOn(cs, ds, h, x);
      assert x in days;
    }
  }

  /** The row of a habit in the week section. */
  function WeekRowOf(cs: seq<Checkin>, ds: seq<Declaration>, h: Habit, w: Stats.Week): (row: WeekRow)
    ensures row.id == h.id && row.name == h.name && row.needsDeclaration == h.needsDeclaration
    ensures h.target.period == "day" ==>
      && row.DayRow? && row.period == "day"
      && row.scheduledDays == |Filter(w.days, Stats.OnSchedule(h))|
      && row.doneScheduledDays <= row.scheduledDays <= |w.days|
    ensures h.target.period != "day" ==>
      && row.WeekTotalRow? && row.period == "week" && row.target == h.target.quantity
      && row.rawQuantity == Stats.DaysTotal(cs, h, w.days) && row.quantity <= row.rawQuantity
  {
    if h.target.period == "day" then
      CountsMeaning(cs, ds, h, w.days);
      DayRow(h.id, h.name, "day", ScheduledCount(h, w.days), DoneCount(cs, ds, h, w.days), h.needsDeclaration)
    else
      CountedAtMostRaw(cs, ds, h, w.days);
      WeekTotalRow(h.id, h.name, "week", h.target.quantity, CountedTotal(cs, ds, h, w.days),
        Stats.DaysTotal(cs, h, w.days), h.needsDeclaration)
  }

  /** The loop over the week's days of a daily habit. */
  method CountDays(cs: seq<Checkin>, ds: seq<Declaration>, h: Habit, days: seq<Stats.Day>) returns (scheduled: nat, doneDays: nat)
    ensures scheduled == ScheduledCount(h, days) && doneDays == DoneCount(cs, ds, h, days)
  {
    scheduled, doneDays := 0, 0;
    for i := 0 to |days|
      invariant scheduled == ScheduledCount(h, days[..i])
      invariant doneDays == DoneCount(cs, ds, h, days[..i])
    {
      assert days[..i + 1][..i] == days[..i];
      if !Stats.ScheduledDay(h, days[i]) {
        continue;
      }
      scheduled := scheduled + 1;
      var counted := CountedQuantity(cs, ds, h, days[i].text);
      var declared := IsDeclared(ds, h, days[i].text);
      if declared && counted >= h.target.quantity {
        doneDays := doneDays + 1;
      }
    }
    assert days[..|days|] == days;
  }

  /** One habit of the week loop: a weekly habit's row needs its week summed. */
  function WeekEntry(cs: seq<Checkin>, ds: seq<Declaration>, h: Habit, w: Stats.Week): Result<WeekRow> {
    if h.target.period == "day" then Ok(WeekRowOf(cs, ds, h, w))
    else
      var _ :- WeekTotals(cs, ds, h, w);
      Ok(WeekRowOf(cs, ds, h, w))
  }

  /** The week section: one row per habit, in the given order. */
  function WeekRows(cs: seq<Checkin>, ds: seq<Declaration>, hs: seq<Habit>, w: Stats.Week): (r: Result<seq<WeekRow>>)
    ensures r.Err? ==> r.error == Usage
    ensures r.Ok? <==> forall i :: 0 <= i < |hs| ==> hs[i].target.period == "day" || Stats.WeekSum(cs, hs[i], w).Ok?
    ensures r.Ok? ==> |r.value| == |hs| && forall i :: 0 <= i < |hs| ==> r.value[i] == WeekRowOf(cs, ds, hs[i], w)
  {
    CollectAll(hs, (h: Habit) => WeekEntry(cs, ds, h, w))
  }

  /** The week loop. */
  method WeekLoop(cs: seq<Checkin>, ds: seq<Declaration>, hs: seq<Habit>, w: Stats.Week) returns (r: Result<seq<WeekRow>>)
    ensures r == WeekRows(cs, ds, hs, w)
  {
    var rows: seq<WeekRow> := [];
    for i := 0 to |hs|
      invariant |rows| == i && forall j :: 0 <= j < i ==> rows[j] == WeekRowOf(cs, ds, hs[j], w)
      invariant forall j :: 0 <= j < i ==> hs[j].target.period == "day" || Stats.WeekSum(cs, hs[j], w).Ok?
    {
      var h := hs[i];
      if h.target.period == "day" {
        var scheduled, doneDays := CountDays(cs, ds, h, w.days);
        rows := rows + [DayRow(h.id, h.name, "day", scheduled, doneDays, h.needsDeclaration)];
      } else {
        var sums := WeekSumForHabit(cs, ds, h, w);
        if sums.Err? {
          return Err(sums.error);
        }
        var (rawSum, countedSum) := sums.value;
        rows := rows + [WeekTotalRow(h.id, h.name, "week", h.target.quantity, countedSum, rawSum, h.needsDeclaration)];
      }
    }
    ghost var spec := WeekRows(cs, ds, hs, w);
    assert spec.Ok? && |spec.value| == |rows|;
    assert forall i :: 0 <= i < |rows| ==> spec.value[i] == rows[i];
    assert spec.value == rows;
    return Ok(rows);
  }

  // ---------------------------------------------------------------------------
  // The report
  // ---------------------------------------------------------------------------

  /**
   * The report once its week is known: the today section, then the week
   * section once the week's days are listed again, which parses the week's
   * end once more and compares the two ends as text.
   */
  function ReportFor(hs: seq<Habit>, cs: seq<Checkin>, ds: seq<Declaration>, date: string, parsed: Result<Date>, frame: Frame): (r: Result<Report>)
    requires ParsedWell(parsed)
    ensures r.Err? ==> r.error == Usage
    ensures r.Ok? ==>
      && r.value.date == date && r.value.weekId == frame.id
      && r.value.weekStart == frame.week.start.text && r.value.weekEnd == frame.week.end.text
      && r.value.today == MapSeq(Filter(hs, ScheduledFor(date, parsed)), TodayRowFn(cs, ds, date, frame.week))
      && |r.value.week| == |hs| && forall i :: 0 <= i < |hs| ==> r.value.week[i] == WeekRowOf(cs, ds, hs[i], frame.week)
  {
    var w := frame.week;
    var today :- TodayRows(cs, ds, hs, date, parsed, w);
    if !Stats.DaysListed(w) then Err(Usage)
    else
      var week :- WeekRows(cs, ds, hs, w);
      Ok(Report(date, today, frame.id, w.start.text, w.end.text, week))
  }

  /** `build_status`: the week of the anchor (`weekOf`, or the date itself), then the visible habits in listing order. */
  function StatusOf(habits: seq<Habit>, cs: seq<Checkin>, ds: seq<Declaration>, date: string, weekOf: Option<string>, includeArchived: bool): (r: Result<Report>)
    ensures r.Err? ==> r.error == Usage
  {
    var frame :- StatusWeek(ParseDate(if weekOf.Some? then weekOf.value else date));
    ReportFor(ListHabits(habits, includeArchived), cs, ds, date, ParseDate(date), frame)
  }

  method BuildStatus(db: Db, date: string, weekOf: Option<string>, includeArchived: bool) returns (r: Result<Report>)
    ensures r == StatusOf(db.habits, db.checkins, db.declarations, date, weekOf, includeArchived)
  {
    var frame := StatusWeek(ParseDate(if weekOf.Some? then weekOf.value else date));
    if frame.Err? {
      return Err(frame.error);
    }
    var habits := ListHabits(db.habits, includeArchived);
    r := BuildReport(habits, db.checkins, db.declarations, date, ParseDate(date), frame.value);
  }

  /** The today section, then the week section, of one week's report. */
  method BuildReport(hs: seq<Habit>, cs: seq<Checkin>, ds: seq<Declaration>, date: string, parsed: Result<Date>, frame: Frame) returns (r: Result<Report>)
    requires ParsedWell(parsed)
    ensures r == ReportFor(hs, cs, ds, date, parsed, frame)
  {
    var w := frame.week;
    var today := TodayLoop(cs, ds, hs, date, parsed, w);
    if today.Err? {
      return Err(today.error);
    }
    if !Stats.DaysListed(w) {
      return Err(Usage);
    }
    var week := WeekLoop(cs, ds, hs, w);
    if week.Err? {
      return Err(week.error);
    }
    return Ok(Report(date, today.value, frame.id, w.start.text, w.end.text, week.value));
  }

  /** A successful report is the report for the anchor's week. */
  lemma StatusOfFrame(habits: seq<Habit>, cs: seq<Checkin>, ds: seq<Declaration>, date: string, weekOf: Option<string>, includeArchived: bool)
    requires StatusOf(habits, cs, ds, date, weekOf, includeArchived).Ok?
    ensures var anchor := ParseDate(if weekOf.Some? then weekOf.value else date);
      && StatusWeek(anchor).Ok?
      && StatusOf(habits, cs, ds, date, weekOf, includeArchived)
         == ReportFor(ListHabits(habits, includeArchived), cs, ds, date, ParseDate(date), StatusWeek(anchor).value)
  {
  }

  /** Against the date's own parse, the habits shown today are those `is_scheduled_on` it. */
  lemma ScheduledForMembers(hs: seq<Habit>, date: string)
    ensures forall h :: h in Filter(hs, ScheduledFor(date, ParseDate(date))) <==> h in hs && IsScheduledOn(h, date) == Ok(true)
  {
    forall h ensures ScheduledToday(h, date, ParseDate(date)) == IsScheduledOn(h, date) {
      ScheduledTodayAgrees(h, date);
    }
  }

  /**
   * The today section lists, in listing order, exactly the visible habits
   * that `is_scheduled_on` the date.
   */
  lemma TodayMembers(habits: seq<Habit>, cs: seq<Checkin>, ds: seq<Declaration>, date: string, weekOf: Option<string>, includeArchived: bool)
    requires StatusOf(habits, cs, ds, date, weekOf, includeArchived).Ok?
    ensures var report := StatusOf(habits, cs, ds, date, weekOf, includeArchived).value;
      var shown := Filter(ListHabits(habits, includeArchived), ScheduledFor(date, ParseDate(date)));
      && |report.today| == |shown|
      && (forall i :: 0 <= i < |shown| ==> report.today[i].id == shown[i].id)
      && Sorted(shown, HabitLt())
      && (forall h :: h in shown <==> h in habits && (includeArchived || !h.archived) && IsScheduledOn(h, date) == Ok(true))
  {
    var hs := ListHabits(habits, includeArchived);
    StatusOfFrame(habits, cs, ds, date, weekOf, includeArchived);
    ReportTodayIds(hs, cs, ds, date, StatusWeek(ParseDate(if weekOf.Some? then weekOf.value else date)).value);
    FilterSorted(hs, ScheduledFor(date, ParseDate(date)), HabitLt());
    ScheduledForMembers(hs, date);
  }

  /** A built report's today rows carry, one for one, the ids of the habits scheduled on the date. */
  lemma ReportTodayIds(hs: seq<Habit>, cs: seq<Checkin>, ds: seq<Declaration>, date: string, frame: Frame)
    requires ReportFor(hs, cs, ds, date, ParseDate(date), frame).Ok?
    ensures var today := ReportFor(hs, cs, ds, date, ParseDate(date), frame).value.today;
      var shown := Filter(hs, ScheduledFor(date, ParseDate(date)));
      |today| == |shown| && forall i :: 0 <= i < |shown| ==> today[i].id == shown[i].id
  {
    var shown := Filter(hs, ScheduledFor(date, ParseDate(date)));
    var today := ReportFor(hs, cs, ds, date, ParseDate(date), frame).value.today;
    assert today == MapSeq(shown, TodayRowFn(cs, ds, date, frame.week));
    forall i | 0 <= i < |shown| ensures today[i].id == shown[i].id {
      assert today[i] == TodayRowOf(cs, ds, shown[i], date, frame.week);
    }
  }

  /**
   * The week section has one row per visible habit, in listing order; a
   * daily habit's row counts at most seven scheduled days, of which at most
   * all are done; a weekly habit's counted total never exceeds its raw total.
   */
  lemma WeekSectionBounds(habits: seq<Habit>, cs: seq<Checkin>, ds: seq<Declaration>, date: string, weekOf: Option<string>, includeArchived: bool)
    requires StatusOf(habits, cs, ds, date, weekOf, includeArchived).Ok?
    ensures var report := StatusOf(habits, cs, ds, date, weekOf, includeArchived).value;
      var hs := ListHabits(habits, includeArchived);
      && |report.week| == |hs|
      && forall i :: 0 <= i < |hs| ==>
        && report.week[i].id == hs[i].id
        && (report.week[i].DayRow? <==> hs[i].target.period == "day")
        && (report.week[i].DayRow? ==> report.week[i].doneScheduledDays <= report.week[i].scheduledDays <= 7)
        && (report.week[i].WeekTotalRow? ==> report.week[i].quantity <= report.week[i].rawQuantity)
  {
    StatusOfFrame(habits, cs, ds, date, weekOf, includeArchived);
    StatusWeekMeaning(ParseDate(if weekOf.Some? then weekOf.value else date));
  }

  /** The report's week runs Monday to Sunday around the anchor. */
  lemma ReportWeek(habits: seq<Habit>, cs: seq<Checkin>, ds: seq<Declaration>, date: string, weekOf: Option<string>, includeArchived: bool)
    requires StatusOf(habits, cs, ds, date, weekOf, includeArchived).Ok?
    ensures var report := StatusOf(habits, cs, ds, date, weekOf, includeArchived).value;
      var anchor := ParseDate(if weekOf.Some? then weekOf.value else date).value;
      var monday := IsoWeekStart(anchor);
      && report.date == date
      && report.weekStart == FormatDate(monday) && report.weekEnd == FormatDate(IsoWeekEnd(anchor))
      && IsoWeekday(monday) == 1 && DayNumber(monday) <= DayNumber(anchor) < DayNumber(monday) + 7
  {
    StatusOfFrame(habits, cs, ds, date, weekOf, includeArchived);
    var anchor := ParseDate(if weekOf.Some? then weekOf.value else date);
    var f := StatusWeek(anchor).value;
    var report := StatusOf(habits, cs, ds, date, weekOf, includeArchived).value;
    assert report.weekStart == f.week.start.text && report.weekEnd == f.week.end.text;
    WeekOfAnchor(anchor.value);
  }

  /** The report's week is labelled with the ISO week of its Monday. */
  lemma ReportWeekLabel(habits: seq<Habit>, cs: seq<Checkin>, ds: seq<Declaration>, date: string, weekOf: Option<string>, includeArchived: bool)
    requires StatusOf(habits, cs, ds, date, weekOf, includeArchived).Ok?
    ensures var report := StatusOf(habits, cs, ds, date, weekOf, includeArchived).value;
      var monday := IsoWeekStart(ParseDate(if weekOf.Some? then weekOf.value else date).value);
      IsoWeekId(monday).Ok? && report.weekId == FormatWeekId(IsoWeekId(monday).value)
  {
    StatusOfFrame(habits, cs, ds, date, weekOf, includeArchived);
    var anchor := ParseDate(if weekOf.Some? then weekOf.value else date);
    var f := StatusWeek(anchor).value;
    var report := StatusOf(habits, cs, ds, date, weekOf, includeArchived).value;
    assert report.weekId == f.id;
    StatusWeekMeaning(anchor);
  }
}
