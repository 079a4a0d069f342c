/**
 * The due list: for one date, the visible habits scheduled that day that
 * are not yet done, each with its counted progress and what remains to
 * reach the target (for a weekly habit, the counted total of the date's
 * ISO week).
 */
module Due {
  import opened Errors
  import opened Text
  import opened Calendar
  import opened Dates
  import opened Sorting
  import opened Store
  import opened Habits
  import opened Checkins
  import opened Declarations
  import opened Completion
  import Stats
  import Status

  datatype DueRow = DueRow(
    id: string,
    name: string,
    period: string,
    target: U32,
    quantity: U32,
    remaining: U32,
    scheduled: bool,
    done: bool)

  /** The list and its length as `u32`. */
  datatype DueOutput = DueOutput(date: string, due: seq<DueRow>, count: U32)

  /**
   * `week_sum_for_habit` of the due list: the counted total of the week,
   * which fails exactly when the week's end cannot be computed and parsed
   * again; it never exceeds the raw total.
   */
  function CountedWeekSum(cs: seq<Checkin>, ds: seq<Declaration>, h: Habit, w: Stats.Week): (r: Result<U32>)
    ensures r.Err? <==> Stats.WeekSum(cs, h, w).Err?
    ensures r.Err? ==> r.error == Usage
    ensures r.Ok? ==> r.value == Status.CountedTotal(cs, ds, h, w.days) && r.value <= Stats.WeekSum(cs, h, w).value
  {
    var totals :- Status.WeekTotals(cs, ds, h, w);
    Status.CountedAtMostRaw(cs, ds, h, w.days);
    Ok(totals.1)
  }

  /** The summing loop over the days of the week. */
  method WeekSumForHabit(cs: seq<Checkin>, ds: seq<Declaration>, h: Habit, w: Stats.Week) returns (r: Result<U32>)
    ensures r == CountedWeekSum(cs, ds, h, w)
  {
    if !Representable(w.start.date.y) || !Representable(w.monday.y) || !Stats.DaysListed(w) {
      return Err(Usage);
    }
    var days := w.days;
    var countedSum: U32 := 0;
    for i := 0 to |days|
      invariant countedSum == Status.CountedTotal(cs, ds, h, days[..i])
    {
      assert days[..i + 1][..i] == days[..i];
      if LexLess(days[i].text, h.createdDate) {
        continue;
      }
      countedSum := SatAdd(countedSum, CountedQuantity(cs, ds, h, days[i].text));
    }
    assert days[..|days|] == days;
    return Ok(countedSum);
  }

  /**
   * The counted progress of a habit scheduled on the date: the day's
   * counted quantity for a daily habit, the week's counted total otherwise.
   */
  function Progress(cs: seq<Checkin>, ds: seq<Declaration>, h: Habit, date: string, w: Stats.Week): U32 {
    if h.target.period == "day" then CountedQuantity(cs, ds, h, date) else Status.CountedTotal(cs, ds, h, w.days)
  }

  /**
   * Whether a scheduled habit is done: a daily habit when declared and its
   * counted quantity reaches the target, a weekly one when its counted week
   * total reaches the target.
   */
  predicate Done(cs: seq<Checkin>, ds: seq<Declaration>, h: Habit, date: string, w: Stats.Week) {
    if h.target.period == "day" then IsDeclared(ds, h, date) && CountedQuantity(cs, ds, h, date) >= h.target.quantity
    else Status.CountedTotal(cs, ds, h, w.days) >= h.target.quantity
  }

  /** The row of a habit that is due. */
  function RowOf(cs: seq<Checkin>, ds: seq<Declaration>, h: Habit, date: string, w: Stats.Week): (row: DueRow)
    ensures row.id == h.id && row.name == h.name && row.target == h.target.quantity
    ensures row.period == (if h.target.period == "day" then "day" else "week")
    ensures row.quantity == Progress(cs, ds, h, date, w) && row.scheduled && !row.done
    ensures row.remaining == if row.quantity <= row.target then row.target - row.quantity else 0
  {
    var quantity := Progress(cs, ds, h, date, w);
    DueRow(h.id, h.name, if h.target.period == "day" then "day" else "week", h.target.quantity, quantity,
      SatSub(h.target.quantity, quantity), true, false)
  }

  /** One habit of the loop: skipped unless scheduled and not done; a weekly habit's week must be summed. */
  function DueEntry(cs: seq<Checkin>, ds: seq<Declaration>, h: Habit, date: string, dt: Date, w: Stats.Week): Result<Option<DueRow>>
    requires Valid(dt)
  {
    if !Status.ScheduledToday(h, date, Ok(dt)).value then Ok(None)
    else if h.target.period == "day" then
      Ok(if Done(cs, ds, h, date, w) then None else Some(RowOf(cs, ds, h, date, w)))
    else
      var _ :- CountedWeekSum(cs, ds, h, w);
      Ok(if Done(cs, ds, h, date, w) then None else Some(RowOf(cs, ds, h, date, w)))
  }

  function DueStep(cs: seq<Checkin>, ds: seq<Declaration>, date: string, dt: Date, w: Stats.Week): Habit -> Result<Option<DueRow>>
    requires Valid(dt)
  {
    (h: Habit) => DueEntry(cs, ds, h, date, dt, w)
  }

  /** Whether a habit is listed: scheduled on the date and not done. */
  function IsDue(cs: seq<Checkin>, ds: seq<Declaration>, date: string, dt: Date, w: Stats.Week): Habit -> bool
    requires Valid(dt)
  {
    (h: Habit) => Status.ScheduledToday(h, date, Ok(dt)) == Ok(true) && !Done(cs, ds, h, date, w)
  }

  function RowFn(cs: seq<Checkin>, ds: seq<Declaration>, date: string, w: Stats.Week): Habit -> DueRow {
    (h: Habit) => RowOf(cs, ds, h, date, w)
  }

  /**
   * The due rows: the habits scheduled and not done, in the given order,
   * each with its row. It fails exactly when a scheduled weekly habit's
   * week cannot be summed.
   */
  function DueRows(cs: seq<Checkin>, ds: seq<Declaration>, hs: seq<Habit>, date: string, dt: Date, w: Stats.Week): (r: Result<seq<DueRow>>)
    requires Valid(dt)
    ensures r.Err? ==> r.error == Usage
    ensures r.Ok? <==> forall i :: 0 <= i < |hs| ==>
      Status.ScheduledToday(hs[i], date, Ok(dt)) == Ok(true) && hs[i].target.period != "day" ==> Stats.WeekSum(cs, hs[i], w).Ok?
    ensures r.Ok? ==> r.value == MapSeq(Filter(hs, IsDue(cs, ds, date, dt, w)), RowFn(cs, ds, date, w))
  {
    var step := DueStep(cs, ds, date, dt, w);
    var rows := CollectSome(hs, step);
    if rows.Err? then rows
    else
      CollectSomeFilter(hs, step, IsDue(cs, ds, date, dt, w), RowFn(cs, ds, date, w));
      rows
  }

  /** The loop over the habits. */
  method DueLoop(cs: seq<Checkin>, ds: seq<Declaration>, hs: seq<Habit>, date: string, dt: Date, w: Stats.Week)
    returns (r: Result<seq<DueRow>>)
    requires Valid(dt)
    ensures r == DueRows(cs, ds, hs, date, dt, w)
  {
    var rows: seq<DueRow> := [];
    for i := 0 to |hs|
      invariant CollectSome(hs[..i], DueStep(cs, ds, date, dt, w)) == Ok(rows)
    {
      var h := hs[i];
      assert hs[..i + 1][..i] == hs[..i] && hs[..i + 1][i] == h;
      var scheduled := Status.ScheduledToday(h, date, Ok(dt)).value;
      if !scheduled {
        continue;
      }
      if h.target.period == "day" {
        var counted := CountedQuantity(cs, ds, h, date);
        var declared := IsDeclared(ds, h, date);
        var done := declared && counted >= h.target.quantity;
        if !done {
          var remaining := SatSub(h.target.quantity, counted);
          rows := rows + [DueRow(h.id, h.name, "day", h.target.quantity, counted, remaining, true, false)];
        }
      } else {
        var sum := WeekSumForHabit(cs, ds, h, w);
        if sum.Err? {
          assert DueStep(cs, ds, date, dt, w)(hs[i]).Err?;
          return Err(sum.error);
        }
        var countedSum := sum.value;
        var done := countedSum >= h.target.quantity;
        if !done {
          var remaining := SatSub(h.target.quantity, countedSum);
          rows := rows + [DueRow(h.id, h.name, "week", h.target.quantity, countedSum, remaining, true, false)];
        }
      }
    }
    assert hs[..|hs|] == hs;
    return Ok(rows);
  }

  /** The list once the date is parsed and its week known. */
  function DueFor(hs: seq<Habit>, cs: seq<Checkin>, ds: seq<Declaration>, date: string, dt: Date, w: Stats.Week): (r: Result<DueOutput>)
    requires Valid(dt)
    ensures r.Err? ==> r.error == Usage
    ensures r.Ok? ==> r.value.date == date && (|r.value.due| <= U32Max ==> r.value.count == |r.value.due|)
  {
    var rows :- DueRows(cs, ds, hs, date, dt, w);
    Ok(DueOutput(date, rows, WrapU32(|rows|)))
  }

  /**
   * `build_due`: the date must parse (its ISO week start is computed
   * first), then the visible habits in listing order.
   */
  function DueOf(habits: seq<Habit>, cs: seq<Checkin>, ds: seq<Declaration>, date: string, includeArchived: bool): (r: Result<DueOutput>)
    ensures r.Err? ==> r.error == Usage
    ensures ParseDate(date).Err? ==> r.Err?
  {
    var dt :- ParseDate(date);
    DueFor(ListHabits(habits, includeArchived), cs, ds, date, dt, Stats.WeekOf(IsoWeekStart(dt)))
  }

  method BuildDue(db: Db, date: string, includeArchived: bool) returns (r: Result<DueOutput>)
    ensures r == DueOf(db.habits, db.checkins, db.declarations, date, includeArchived)
  {
    var parsed := ParseDate(date);
    if parsed.Err? {
      return Err(parsed.error);
    }
    var dt := parsed.value;
    var w := Stats.WeekOf(IsoWeekStart(dt));
    var habits := ListHabits(db.habits, includeArchived);
    var rows := DueLoop(db.checkins, db.declarations, habits, date, dt, w);
    if rows.Err? {
      return Err(rows.error);
    }
    return Ok(DueOutput(date, rows.value, WrapU32(|rows.value|)));
  }

  /**
   * Every listed row is scheduled and not done, its quantity has not
   * reached the target and quantity plus remaining is the target; nothing
   * remains only for a daily habit with target 0 that is still undeclared.
   */
  lemma {:induction false} RowsRemaining(cs: seq<Checkin>, ds: seq<Declaration>, hs: seq<Habit>, date: string, dt: Date, w: Stats.Week)
    requires Valid(dt) && DueRows(cs, ds, hs, date, dt, w).Ok?
    ensures var rows := DueRows(cs, ds, hs, date, dt, w).value;
      forall row :: row in rows ==>
        && row.scheduled && !row.done
        && row.quantity <= row.target && row.quantity + row.remaining == row.target
        && (row.remaining == 0 ==> row.period == "day" && row.target == 0)
  {
    var shown := Filter(hs, IsDue(cs, ds, date, dt, w));
    var rows := DueRows(cs, ds, hs, date, dt, w).value;
    forall row | row in rows
      ensures row.scheduled && !row.done
      ensures row.quantity <= row.target && row.quantity + row.remaining == row.target
      ensures row.remaining == 0 ==> row.period == "day" && row.target == 0
    {
      var k :| 0 <= k < |rows| && rows[k] == row;
      var h := shown[k];
      assert row == RowOf(cs, ds, h, date, w);
      assert !Done(cs, ds, h, date, w);
    }
  }

  /** The rows of a successful list follow the listed habits of a sorted list, in order. */
  lemma DueForRows(hs: seq<Habit>, cs: seq<Checkin>, ds: seq<Declaration>, date: string, dt: Date, w: Stats.Week)
    requires Valid(dt) && Sorted(hs, HabitLt()) && DueFor(hs, cs, ds, date, dt, w).Ok?
    ensures var out := DueFor(hs, cs, ds, date, dt, w).value;
      var listed := Filter(hs, IsDue(cs, ds, date, dt, w));
      && |out.due| == |listed|
      && (forall i :: 0 <= i < |listed| ==> out.due[i].id == listed[i].id)
      && Sorted(listed, HabitLt())
  {
    var listed := Filter(hs, IsDue(cs, ds, date, dt, w));
    var due := DueFor(hs, cs, ds, date, dt, w).value.due;
    assert due == MapSeq(listed, RowFn(cs, ds, date, w));
    assert forall i :: 0 <= i < |listed| ==> due[i] == RowOf(cs, ds, listed[i], date, w);
    FilterSorted(hs, IsDue(cs, ds, date, dt, w), HabitLt());
  }

  /** Against the date's own parse, a habit is listed exactly when `is_scheduled_on` the date and not done. */
  lemma DueListed(hs: seq<Habit>, cs: seq<Checkin>, ds: seq<Declaration>, date: string, w: Stats.Week)
    requires ParseDate(date).Ok?
    ensures forall h :: h in Filter(hs, IsDue(cs, ds, date, ParseDate(date).value, w)) <==>
      h in hs && IsScheduledOn(h, date) == Ok(true) && !Done(cs, ds, h, date, w)
  {
    forall h ensures Status.ScheduledToday(h, date, ParseDate(date)) == IsScheduledOn(h, date) {
      Status.ScheduledTodayAgrees(h, date);
    }
  }

  /**
   * The listed habits are, in listing order, exactly the visible habits
   * `is_scheduled_on` the date that are not done.
   */
  lemma DueMembers(habits: seq<Habit>, cs: seq<Checkin>, ds: seq<Declaration>, date: string, includeArchived: bool)
    requires DueOf(habits, cs, ds, date, includeArchived).Ok?
    ensures var out := DueOf(habits, cs, ds, date, includeArchived).value;
      var dt := ParseDate(date).value;
      var w := Stats.WeekOf(IsoWeekStart(dt));
      var listed := Filter(ListHabits(habits, includeArchived), IsDue(cs, ds, date, dt, w));
      && |out.due| == |listed|
      && (forall i :: 0 <= i < |listed| ==> out.due[i].id == listed[i].id)
      && Sorted(listed, HabitLt())
      && (forall h :: h in listed <==>
            && h in habits && (includeArchived || !h.archived)
            && IsScheduledOn(h, date) == Ok(true) && !Done(cs, ds, h, date, w))
  {
    var dt := ParseDate(date).value;
    var w := Stats.WeekOf(IsoWeekStart(dt));
    var hs := ListHabits(habits, includeArchived);
    assert DueOf(habits, cs, ds, date, includeArchived) == DueFor(hs, cs, ds, date, dt, w);
    DueForRows(hs, cs, ds, date, dt, w);
    DueListed(hs, cs, ds, date, w);
  }

  /** For a daily habit with a positive target, "not done" is "not `is_done_for_date`". */
  lemma DailyDoneIsDone(cs: seq<Checkin>, ds: seq<Declaration>, h: Habit, date: string, w: Stats.Week)
    requires h.target.period == "day" && h.target.quantity >= 1
    ensures Done(cs, ds, h, date, w) <==> IsDoneForDate(cs, ds, h, date)
  {
    DeclaredAndDone(cs, ds, h, date);
  }
}
