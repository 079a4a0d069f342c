/**
 * Habit records: numbering, the listing order, selection by id or name
 * prefix, creation, archiving, and whether a habit is scheduled on a date.
 */
module Habits {
  import opened Errors
  import opened Text
  import opened Calendar
  import opened Dates
  import opened Sorting
  import opened Schedules
  import opened Store

  // ---------------------------------------------------------------------------
  // Ids
  // ---------------------------------------------------------------------------

  /** `h` followed by the counter padded to four digits. */
  function HabitId(n: nat): string {
    NumberedId("h", n, 4)
  }

  /** `next_habit_id`: hands out the current number and advances the counter by one. */
  method NextHabitId(db: Db) returns (id: string)
    modifies db`nextHabitNumber
    ensures old(db.ValidShape()) ==> db.ValidShape()
    ensures id == HabitId(old(db.nextHabitNumber))
    ensures db.nextHabitNumber == old(db.nextHabitNumber) + 1
  {
    var n := db.nextHabitNumber;
    id := HabitId(n);
    db.nextHabitNumber := n + 1;
  }

  /** Two calls never hand out the same id: ids of different numbers differ. */
  lemma HabitIdsDistinct(a: nat, b: nat)
    ensures HabitId(a) == HabitId(b) <==> a == b
  {
    NumberedIdInjective("h", a, b, 4);
  }

  /** The first two habits of a fresh store are h0001 and h0002. */
  lemma FirstHabitIds()
    ensures HabitId(1) == "h0001" && HabitId(2) == "h0002"
  {
    assert Decimal(1) == "1" && Decimal(2) == "2";
    assert Zeros(3) == "000";
  }

  // ---------------------------------------------------------------------------
  // Order and listing
  // ---------------------------------------------------------------------------

  /** `stable_habit_sort` compares lower-cased names, then ids. */
  function HabitKey(h: Habit): seq<string> {
    [Lower(h.name), h.id]
  }

  function HabitLt(): (Habit, Habit) -> bool {
    ByKey(HabitKey)
  }

  lemma HabitLtOrder()
    ensures StrictWeakOrder(HabitLt())
  {
    ByKeyOrder(HabitKey);
  }

  /** `a` comes before `b` in the listing order exactly when its lower-cased name is smaller, or equal with a smaller id. */
  lemma HabitLtMeaning(a: Habit, b: Habit)
    ensures HabitLt()(a, b) <==>
      LexLess(Lower(a.name), Lower(b.name))
      || (Lower(a.name) == Lower(b.name) && LexLess(a.id, b.id))
  {
    var ka, kb := HabitKey(a), HabitKey(b);
    assert ka[1..] == [a.id] && kb[1..] == [b.id];
    assert [a.id][1..] == [] && [b.id][1..] == [];
    assert !KeysLess([], []);
    assert KeysLess([a.id], [b.id]) <==> LexLess(a.id, b.id);
    assert KeysLess(ka, kb) <==> LexLess(ka[0], kb[0]) || (ka[0] == kb[0] && KeysLess([a.id], [b.id]));
  }

  /** The habits the archived filter lets through, in store order. */
  function Visible(habits: seq<Habit>, includeArchived: bool): (r: seq<Habit>)
    ensures |r| <= |habits|
    ensures forall h :: h in r <==> h in habits && (includeArchived || !h.archived)
  {
    if habits == [] then []
    else
      var rest := Visible(habits[1..], includeArchived);
      assert forall h :: h in habits <==> h == habits[0] || h in habits[1..];
      if includeArchived || !habits[0].archived then [habits[0]] + rest else rest
  }

  /** `list_habits`: the visible habits, sorted by `stable_habit_sort`. */
  function ListHabits(habits: seq<Habit>, includeArchived: bool): (r: seq<Habit>)
    ensures Sorted(r, HabitLt())
    ensures multiset(r) == multiset(Visible(habits, includeArchived))
    ensures forall h :: h in r <==> h in habits && (includeArchived || !h.archived)
  {
    var v := Visible(habits, includeArchived);
    HabitLtOrder();
    SortBySorted(v, HabitLt());
    SortByPermutes(v, HabitLt());
    forall h ensures h in SortBy(v, HabitLt()) <==> h in v {
      SortByMembers(v, HabitLt(), h);
    }
    SortBy(v, HabitLt())
  }

  // ---------------------------------------------------------------------------
  // Selection
  // ---------------------------------------------------------------------------

  /** Exactly `h` and four ASCII digits. */
  predicate IdShaped(s: string) {
    |s| == 5 && s[0] == 'h' && AllDigits(s[1..])
  }

  predicate StartsWith(s: string, prefix: string) {
    |prefix| <= |s| && s[..|prefix|] == prefix
  }

  /** `position` of the first habit with this id. */
  function FirstWithId(habits: seq<Habit>, id: string): (r: Option<nat>)
    ensures r.Some? ==> r.value < |habits| && habits[r.value].id == id
    ensures r.Some? ==> forall j :: 0 <= j < r.value ==> habits[j].id != id
    ensures r.None? ==> forall j :: 0 <= j < |habits| ==> habits[j].id != id
  {
    if habits == [] then None
    else if habits[0].id == id then Some(0)
    else
      match FirstWithId(habits[1..], id)
      case None => None
      case Some(i) => Some(i + 1)
  }

  /** A habit the name-prefix search accepts. */
  predicate NameMatch(h: Habit, prefix: string, includeArchived: bool) {
    (includeArchived || !h.archived) && StartsWith(Lower(h.name), prefix)
  }

  /** The enumerated habits the name-prefix search accepts, in store order. */
  function PrefixMatches(habits: seq<Habit>, prefix: string, includeArchived: bool): (r: seq<(nat, Habit)>)
    ensures |r| <= |habits|
    ensures forall k :: 0 <= k < |r| ==> r[k].0 < |habits| && r[k].1 == habits[r[k].0]
    ensures forall k :: 0 <= k < |r| ==> NameMatch(r[k].1, prefix, includeArchived)
    ensures forall k, l :: 0 <= k < l < |r| ==> r[k].0 < r[l].0
    ensures forall i :: 0 <= i < |habits| && NameMatch(habits[i], prefix, includeArchived) ==> (i, habits[i]) in r
  {
    if habits == [] then []
    else
      var n := |habits| - 1;
      var front := PrefixMatches(habits[..n], prefix, includeArchived);
      if NameMatch(habits[n], prefix, includeArchived) then front + [(n, habits[n])] else front
  }

  /** The order of the match list: by the habits' listing order. */
  function MatchLt(): ((nat, Habit), (nat, Habit)) -> bool {
    (a: (nat, Habit), b: (nat, Habit)) => HabitLt()(a.1, b.1)
  }

  /** The `<id> <name>` entry of an ambiguity message. */
  function Candidates(ms: seq<(nat, Habit)>): (r: seq<string>)
    ensures |r| == |ms|
  {
    if ms == [] then [] else [ms[0].1.id + " " + ms[0].1.name] + Candidates(ms[1..])
  }

  /**
   * `select_habit_index`. A blank selector is a usage error. A selector shaped
   * like an id matches by id only; otherwise it is a case-insensitive prefix of
   * the name of exactly one visible habit, or the lookup fails.
   */
  function SelectHabitIndex(habits: seq<Habit>, selector: string, includeArchived: bool): (r: Result<nat>)
    ensures Trim(selector) == [] ==> r == Err(Usage)
    ensures Trim(selector) != [] && IdShaped(Trim(selector)) ==> r == SelectById(habits, Trim(selector), includeArchived)
    ensures Trim(selector) != [] && !IdShaped(Trim(selector)) ==>
      r == SelectByName(habits, Lower(Trim(selector)), includeArchived)
  {
    var s := Trim(selector);
    if s == [] then Err(Usage)
    else if IdShaped(s) then SelectById(habits, s, includeArchived)
    else SelectByName(habits, Lower(s), includeArchived)
  }

  /** By id: the first habit carrying the id, unless it is archived and archived habits are hidden. */
  function SelectById(habits: seq<Habit>, id: string, includeArchived: bool): (r: Result<nat>)
    ensures r.Ok? ==>
      && r.value < |habits| && habits[r.value].id == id && (includeArchived || !habits[r.value].archived)
      && forall j :: 0 <= j < r.value ==> habits[j].id != id
    ensures r.Err? ==> r.error == NotFound
    ensures r.Err? ==> forall j :: 0 <= j < |habits| && habits[j].id == id ==>
      exists k :: 0 <= k <= j && habits[k].id == id && !includeArchived && habits[k].archived
  {
    match FirstWithId(habits, id)
    case None => Err(NotFound)
    case Some(i) => if !includeArchived && habits[i].archived then Err(NotFound) else Ok(i)
  }

  /** By name: exactly one visible habit's lower-cased name starts with the lower-cased selector. */
  function SelectByName(habits: seq<Habit>, p: string, includeArchived: bool): (r: Result<nat>)
    ensures r.Ok? ==>
      && r.value < |habits| && NameMatch(habits[r.value], p, includeArchived)
      && forall j :: 0 <= j < |habits| && j != r.value ==> !NameMatch(habits[j], p, includeArchived)
    ensures r.Err? ==> r.error.NotFound? || r.error.Ambiguous?
    ensures r == Err(NotFound) ==> forall j :: 0 <= j < |habits| ==> !NameMatch(habits[j], p, includeArchived)
    ensures r.Err? && r.error.Ambiguous? ==>
      && |r.error.candidates| >= 2
      && exists i, j :: 0 <= i < j < |habits| && NameMatch(habits[i], p, includeArchived)
                                              && NameMatch(habits[j], p, includeArchived)
  {
    var found := PrefixMatches(habits, p, includeArchived);
    var matches := SortBy(found, MatchLt());
    MatchCount(habits, p, includeArchived);
    if matches == [] then Err(NotFound)
    else if |matches| > 1 then Err(Ambiguous(Candidates(matches)))
    else
      assert matches[0] in multiset(found);
      Ok(matches[0].0)
  }

  /** What the number of matches says about the habits. */
  lemma MatchCount(habits: seq<Habit>, p: string, includeArchived: bool)
    ensures var found := PrefixMatches(habits, p, includeArchived);
      && (found == [] ==> forall j :: 0 <= j < |habits| ==> !NameMatch(habits[j], p, includeArchived))
      && (|found| >= 2 ==> exists i, j :: 0 <= i < j < |habits| && NameMatch(habits[i], p, includeArchived)
                                                              && NameMatch(habits[j], p, includeArchived))
      && (|found| == 1 ==> forall j :: 0 <= j < |habits| && NameMatch(habits[j], p, includeArchived) ==> j == found[0].0)
  {
    var found := PrefixMatches(habits, p, includeArchived);
    forall j | 0 <= j < |habits| && NameMatch(habits[j], p, includeArchived)
      ensures (j, habits[j]) in found
    {
    }
    if |found| >= 2 {
      var i, j := found[0].0, found[1].0;
      assert 0 <= i < j < |habits| && NameMatch(habits[i], p, includeArchived) && NameMatch(habits[j], p, includeArchived);
    }
  }

  lemma MatchLtOrder()
    ensures StrictWeakOrder(MatchLt())
  {
    HabitLtOrder();
    var lt, hlt := MatchLt(), HabitLt();
    forall a ensures !lt(a, a) {
      assert !hlt(a.1, a.1);
    }
    forall a, b, c | lt(a, b) && lt(b, c) ensures lt(a, c) {
      assert hlt(a.1, b.1) && hlt(b.1, c.1);
    }
    forall a, b, c | lt(a, c) ensures lt(a, b) || lt(b, c) {
      assert hlt(a.1, c.1);
      assert hlt(a.1, b.1) || hlt(b.1, c.1);
    }
  }

  /** The ambiguity message lists every match, in the listing order. */
  lemma AmbiguousCandidatesSorted(habits: seq<Habit>, p: string, includeArchived: bool)
    requires SelectByName(habits, p, includeArchived).Err?
    requires SelectByName(habits, p, includeArchived).error.Ambiguous?
    ensures var ms := SortBy(PrefixMatches(habits, p, includeArchived), MatchLt());
      && SelectByName(habits, p, includeArchived).error.candidates == Candidates(ms)
      && Sorted(ms, MatchLt())
      && multiset(ms) == multiset(PrefixMatches(habits, p, includeArchived))
  {
    MatchLtOrder();
    SortBySorted(PrefixMatches(habits, p, includeArchived), MatchLt());
    SortByPermutes(PrefixMatches(habits, p, includeArchived), MatchLt());
  }

  // ---------------------------------------------------------------------------
  // Creation
  // ---------------------------------------------------------------------------

  /** `validate_habit_name`: the trimmed name, which must not be empty. */
  function ValidateHabitName(name: string): (r: Result<string>)
    ensures r.Ok? <==> Trim(name) != []
    ensures r.Ok? ==> r.value == Trim(name)
    ensures r.Err? ==> r.error == Usage
  {
    var n := Trim(name);
    if n == [] then Err(Usage)
    else
      Ok(n)
  }

  /** The two periods a target may count over. */
  predicate ValidPeriod(period: string) {
    period == "day" || period == "week"
  }

  /**
   * `make_habit`, with the two flags the command passes through. The new
   * habit is active, has no archive date, and was created on `today`.
   */
  function MakeHabit(
    id: string, name: string, pattern: string, period: string, target: U32,
    notes: Option<string>, today: string, needsDeclaration: bool, quota: U32): (r: Result<Habit>)
    ensures r.Ok? <==> Trim(name) != [] && ParsePattern(pattern).Ok? && ValidPeriod(period) && target >= 1
    ensures r.Err? ==> r.error == Usage
    ensures r.Ok? ==>
      && r.value.id == id && r.value.name == Trim(name) && r.value.schedule == ParsePattern(pattern).value
      && r.value.target == Target(period, target) && r.value.notes == notes
      && !r.value.archived && r.value.archivedDate == None && r.value.createdDate == today
      && r.value.needsDeclaration == needsDeclaration && r.value.excuseQuotaPerWeek == quota
  {
    var habitName :- ValidateHabitName(name);
    var schedule :- ParsePattern(pattern);
    ParsedScheduleValid(pattern);
    CheckedHabit(id, habitName, schedule, period, target, notes, today, needsDeclaration, quota)
  }

  /** The checks `make_habit` makes after parsing the schedule, and the habit it then builds. */
  function CheckedHabit(
    id: string, name: string, schedule: Schedule, period: string, target: U32,
    notes: Option<string>, today: string, needsDeclaration: bool, quota: U32): (r: Result<Habit>)
    ensures r.Ok? <==> ValidateSchedule(schedule).Pass? && ValidPeriod(period) && target >= 1
    ensures r.Err? ==> r.error == Usage
    ensures r.Ok? ==> r.value == Habit(id, name, schedule, Target(period, target), notes, false, today, None, needsDeclaration, quota)
  {
    match ValidateSchedule(schedule)
    case Fail(e) => Err(e)
    case Pass =>
      if !ValidPeriod(period) then Err(Usage)
      else if target < 1 then Err(Usage)
      else Ok(Habit(id, name, schedule, Target(period, target), notes, false, today, None, needsDeclaration, quota))
  }

  /**
   * The add command: number a new habit, build it, and append it. The
   * command runs inside `update_db`, which writes nothing back when the
   * command fails, so a rejected habit leaves the counter where it was.
   */
  method AddHabit(
    db: Db, name: string, pattern: string, period: string, target: U32,
    notes: Option<string>, today: string, needsDeclaration: bool, quota: U32) returns (r: Result<Habit>)
    modifies db`nextHabitNumber, db`habits
    ensures old(db.ValidShape()) ==> db.ValidShape()
    ensures r == MakeHabit(HabitId(old(db.nextHabitNumber)), name, pattern, period, target, notes, today, needsDeclaration, quota)
    ensures r.Ok? ==> db.nextHabitNumber == old(db.nextHabitNumber) + 1 && db.habits == old(db.habits) + [r.value]
    ensures r.Err? ==> db.nextHabitNumber == old(db.nextHabitNumber) && db.habits == old(db.habits)
  {
    r := MakeHabit(HabitId(db.nextHabitNumber), name, pattern, period, target, notes, today, needsDeclaration, quota);
    if r.Ok? {
      StoreHabit(db, r.value);
    }
  }

  /** The successful tail of the add command: advance the counter and append the habit. */
  method StoreHabit(db: Db, h: Habit)
    modifies db`nextHabitNumber, db`habits
    ensures old(db.ValidShape()) ==> db.ValidShape()
    ensures db.nextHabitNumber == old(db.nextHabitNumber) + 1
    ensures db.habits == old(db.habits) + [h]
  {
    var id := NextHabitId(db);
    db.habits := db.habits + [h];
  }

  // ---------------------------------------------------------------------------
  // Archiving
  // ---------------------------------------------------------------------------

  /** Archiving marks the habit and records the first archive date only. */
  function Archived(h: Habit, today: string): (r: Habit)
    ensures r.archived
    ensures h.archivedDate.Some? ==> r.archivedDate == h.archivedDate
    ensures h.archivedDate.None? ==> r.archivedDate == Some(today)
    ensures r.(archived := h.archived, archivedDate := h.archivedDate) == h
  {
    h.(archived := true, archivedDate := if h.archivedDate.None? then Some(today) else h.archivedDate)
  }

  /** Unarchiving clears both the flag and the date. */
  function Unarchived(h: Habit): (r: Habit)
    ensures !r.archived && r.archivedDate == None
    ensures r.(archived := h.archived, archivedDate := h.archivedDate) == h
  {
    h.(archived := false, archivedDate := None)
  }

  /** Archiving twice keeps the first date. */
  lemma ArchiveIdempotent(h: Habit, t1: string, t2: string)
    ensures Archived(Archived(h, t1), t2) == Archived(h, t1)
  {
  }

  /** Archiving after unarchiving records the new date. */
  lemma ArchiveAfterUnarchive(h: Habit, t: string)
    ensures Archived(Unarchived(h), t).archivedDate == Some(t)
  {
  }

  /** The archive command: select among all habits, then archive that one in place. */
  method Archive(db: Db, selector: string, today: string) returns (r: Result<Habit>)
    modifies db`habits
    ensures var sel := SelectHabitIndex(old(db.habits), selector, true);
      && (sel.Err? ==> r == Err(sel.error) && db.habits == old(db.habits))
      && (sel.Ok? ==> r == Ok(Archived(old(db.habits)[sel.value], today))
                      && db.habits == old(db.habits)[sel.value := r.value])
  {
    var sel := SelectHabitIndex(db.habits, selector, true);
    if sel.Err? {
      return Err(sel.error);
    }
    var h := Archived(db.habits[sel.value], today);
    db.habits := db.habits[sel.value := h];
    return Ok(h);
  }

  /** The unarchive command. */
  method Unarchive(db: Db, selector: string) returns (r: Result<Habit>)
    modifies db`habits
    ensures var sel := SelectHabitIndex(old(db.habits), selector, true);
      && (sel.Err? ==> r == Err(sel.error) && db.habits == old(db.habits))
      && (sel.Ok? ==> r == Ok(Unarchived(old(db.habits)[sel.value]))
                      && db.habits == old(db.habits)[sel.value := r.value])
  {
    var sel := SelectHabitIndex(db.habits, selector, true);
    if sel.Err? {
      return Err(sel.error);
    }
    var h := Unarchived(db.habits[sel.value]);
    db.habits := db.habits[sel.value := h];
    return Ok(h);
  }

  // ---------------------------------------------------------------------------
  // Scheduling
  // ---------------------------------------------------------------------------

  /**
   * `is_scheduled_on`: never before the creation date (compared as text);
   * otherwise the date's ISO weekday must be one of the scheduled days. A
   * date that does not parse is a usage error.
   */
  function IsScheduledOn(h: Habit, date: string): (r: Result<bool>)
    ensures r.Err? ==> r.error == Usage && ParseDate(date).Err?
    ensures LexLess(date, h.createdDate) ==> r == Ok(false)
  {
    if LexLess(date, h.createdDate) then Ok(false)
    else
      var dt :- ParseDate(date);
      Ok(IsoWeekday(dt) in h.schedule.days)
  }

  /** On a printed date of a representable year the test never fails, and decides creation and weekday. */
  lemma ScheduledOnPrinted(h: Habit, d: Date)
    requires Valid(d) && Representable(d.y)
    ensures IsScheduledOn(h, FormatDate(d)) ==
      Ok(!LexLess(FormatDate(d), h.createdDate) && IsoWeekday(d) in h.schedule.days)
  {
    ParseFormatRoundTrip(d);
  }

  /** A habit is never scheduled on a day before the day it was created (years 0..9999, canonical dates). */
  lemma NotScheduledBeforeCreation(h: Habit, d: Date, created: Date)
    requires Valid(d) && Valid(created) && 0 <= d.y <= 9999 && 0 <= created.y <= 9999
    requires h.createdDate == FormatDate(created)
    requires DateLt(d, created)
    ensures IsScheduledOn(h, FormatDate(d)) == Ok(false)
  {
    FormatOrder(d, created);
  }

  /** After creation, being scheduled repeats every seven days (years 0..9999). */
  lemma ScheduledWeekly(h: Habit, d: Date)
    requires Valid(d) && 0 <= d.y && AddDays(d, 7).y <= 9999
    requires !LexLess(FormatDate(d), h.createdDate)
    ensures IsScheduledOn(h, FormatDate(AddDays(d, 7))) == IsScheduledOn(h, FormatDate(d))
  {
    var d7 := AddDays(d, 7);
    assert DateLt(d, d7) && 0 <= d7.y <= 9999 by {
      DateOrderIsDayOrder(d, d7);
    }
    assert LexLess(FormatDate(d), FormatDate(d7)) by {
      FormatOrder(d, d7);
    }
    assert IsoWeekday(d) == IsoWeekday(d7) by {
      IsoWeekdayPeriod(d, d7);
    }
    assert !LexLess(FormatDate(d7), h.createdDate) by {
      if LexLess(FormatDate(d7), h.createdDate) {
        LexLessTransitive(FormatDate(d), FormatDate(d7), h.createdDate);
      }
    }
    ScheduledSameWeekday(h, d, d7);
  }

  /** Two printed days after creation with the same weekday are both scheduled or both not. */
  lemma ScheduledSameWeekday(h: Habit, d: Date, e: Date)
    requires Valid(d) && Valid(e) && Representable(d.y) && Representable(e.y)
    requires !LexLess(FormatDate(d), h.createdDate) && !LexLess(FormatDate(e), h.createdDate)
    requires IsoWeekday(d) == IsoWeekday(e)
    ensures IsScheduledOn(h, FormatDate(e)) == IsScheduledOn(h, FormatDate(d))
  {
    ScheduledOnPrinted(h, d);
    ScheduledOnPrinted(h, e);
  }
}
