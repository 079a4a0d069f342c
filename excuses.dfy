/**
 * Excuses: append-only records that a scheduled day was excused, with a
 * weekly quota of allowed excuses per habit. A requested allowed excuse
 * beyond the quota is recorded as denied.
 */
module Excuses {
  import opened Errors
  import opened Text
  import opened Calendar
  import opened Dates
  import opened Store

  /** `e` followed by the counter padded to six digits. */
  function ExcuseId(n: nat): string {
    NumberedId("e", n, 6)
  }

  /** `next_excuse_id`. */
  method NextExcuseId(db: Db) returns (id: string)
    modifies db`nextExcuseNumber
    ensures old(db.ValidShape()) ==> db.ValidShape()
    ensures id == ExcuseId(old(db.nextExcuseNumber))
    ensures db.nextExcuseNumber == old(db.nextExcuseNumber) + 1
  {
    var n := db.nextExcuseNumber;
    id := ExcuseId(n);
    db.nextExcuseNumber := n + 1;
  }

  lemma ExcuseIdsDistinct(a: nat, b: nat)
    ensures ExcuseId(a) == ExcuseId(b) <==> a == b
  {
    NumberedIdInjective("e", a, b, 6);
  }

  // ---------------------------------------------------------------------------
  // Counting allowed excuses in a week
  // ---------------------------------------------------------------------------

  /** An allowed excuse of the habit whose stored date lies between `lo` and `hi`, compared as text. */
  predicate CountsToward(e: Excuse, habitId: string, lo: string, hi: string) {
    e.habitId == habitId && e.kind == Allowed && !LexLess(e.date, lo) && !LexLess(hi, e.date)
  }

  /** How many excuses count toward the habit's window. */
  function AllowedIn(es: seq<Excuse>, habitId: string, lo: string, hi: string): (n: nat)
    ensures n <= |es|
    ensures n == 0 <==> forall i :: 0 <= i < |es| ==> !CountsToward(es[i], habitId, lo, hi)
  {
    if es == [] then 0
    else
      var k := |es| - 1;
      var front := AllowedIn(es[..k], habitId, lo, hi);
      assert forall i :: 0 <= i < k ==> es[..k][i] == es[i];
      front + if CountsToward(es[k], habitId, lo, hi) then 1 else 0
  }

  /** Appending one excuse adds one to the count exactly when that excuse counts. */
  lemma AllowedInSnoc(es: seq<Excuse>, e: Excuse, habitId: string, lo: string, hi: string)
    ensures AllowedIn(es + [e], habitId, lo, hi) ==
      AllowedIn(es, habitId, lo, hi) + if CountsToward(e, habitId, lo, hi) then 1 else 0
  {
    assert (es + [e])[..|es|] == es;
  }

  /**
   * `allowed_excuses_used_in_week`: the week end is recomputed from the week
   * start text, which fails when that text does not parse or its week ends
   * outside the printable years; the count is cast to `u32`.
   */
  function AllowedExcusesUsedInWeek(es: seq<Excuse>, habitId: string, weekStart: string): (r: Result<U32>)
    ensures r.Ok? <==> ParseDate(weekStart).Ok? && Representable(IsoWeekStart(ParseDate(weekStart).value).y)
    ensures r.Err? ==> r.error == Usage
    ensures r.Ok? ==>
      r.value == WrapU32(AllowedIn(es, habitId, weekStart, FormatDate(IsoWeekEnd(ParseDate(weekStart).value))))
  {
    var weekEnd :- IsoWeekEndText(weekStart);
    Ok(WrapU32(AllowedIn(es, habitId, weekStart, weekEnd)))
  }

  /** The window of the ISO week holding `dt`, as printed dates. */
  function WeekCount(es: seq<Excuse>, habitId: string, dt: Date): nat
    requires Valid(dt)
  {
    AllowedIn(es, habitId, FormatDate(IsoWeekStart(dt)), FormatDate(IsoWeekEnd(dt)))
  }

  /** Counting from the printed start of `dt`'s week fails only when that start is not printable, and else counts `dt`'s week. */
  lemma UsedInWeekOf(es: seq<Excuse>, habitId: string, dt: Date)
    requires Valid(dt)
    ensures var r := AllowedExcusesUsedInWeek(es, habitId, FormatDate(IsoWeekStart(dt)));
      && (r.Ok? <==> Representable(IsoWeekStart(dt).y))
      && (r.Ok? ==> r.value == WrapU32(WeekCount(es, habitId, dt)))
  {
    var s := IsoWeekStart(dt);
    assert ParseDate(FormatDate(s)) == Reparse(s);
    WeekOfWeekStart(dt);
  }

  /** For canonical dates of years 0..9999, the text window is the calendar window. */
  lemma CountsTowardDates(e: Excuse, habitId: string, lo: Date, hi: Date, d: Date)
    requires Valid(lo) && Valid(hi) && Valid(d) && e.date == FormatDate(d)
    requires 0 <= lo.y <= 9999 && 0 <= hi.y <= 9999 && 0 <= d.y <= 9999
    ensures CountsToward(e, habitId, FormatDate(lo), FormatDate(hi)) <==>
      e.habitId == habitId && e.kind == Allowed && DateLe(lo, d) && DateLe(d, hi)
  {
    FormatNotBefore(d, lo);
    FormatNotBefore(hi, d);
  }

  /** A date lies between the start and the end of `x`'s ISO week exactly when it has the same week start. */
  lemma InWeekOf(x: Date, d: Date)
    requires Valid(x) && Valid(d)
    ensures DateLe(IsoWeekStart(x), d) && DateLe(d, IsoWeekEnd(x)) <==> IsoWeekStart(d) == IsoWeekStart(x)
  {
    var s, t, sd := IsoWeekStart(x), IsoWeekEnd(x), IsoWeekStart(d);
    DateOrderIsDayOrder(s, d);
    DateOrderIsDayOrder(d, t);
    if DayNumber(s) <= DayNumber(d) <= DayNumber(t) {
      IsoWeekStartSame(x, d);
    }
    if sd == s {
      assert DayNumber(sd) <= DayNumber(d) < DayNumber(sd) + 7;
    }
  }

  /**
   * For canonical dates of years 0..9999, an excuse counts toward the week
   * holding `x` exactly when it is an allowed excuse of the habit dated in
   * that ISO week.
   */
  lemma CountsTowardWeek(e: Excuse, habitId: string, x: Date, d: Date)
    requires Valid(x) && Valid(d) && e.date == FormatDate(d)
    requires 0 <= IsoWeekStart(x).y && IsoWeekEnd(x).y <= 9999 && 0 <= d.y <= 9999
    ensures CountsToward(e, habitId, FormatDate(IsoWeekStart(x)), FormatDate(IsoWeekEnd(x))) <==>
      e.habitId == habitId && e.kind == Allowed && IsoWeekStart(d) == IsoWeekStart(x)
  {
    var s, t := IsoWeekStart(x), IsoWeekEnd(x);
    assert s.y <= t.y by {
      DateOrderIsDayOrder(t, s);
    }
    CountsTowardDates(e, habitId, s, t, d);
    InWeekOf(x, d);
  }

  // ---------------------------------------------------------------------------
  // Recording an excuse
  // ---------------------------------------------------------------------------

  /** The quota policy: an allowed excuse is recorded as such only while the week's quota is not used up. */
  function RecordedKind(requested: ExcuseKind, quota: U32, used: U32): (k: ExcuseKind)
    ensures k == Allowed <==> requested == Allowed && used < quota
  {
    if requested == Allowed && SatSub(quota, used) == 0 then Denied else requested
  }

  /**
   * What `excuse` records under number `n` and reports back, once `used`
   * allowed excuses of the week are known: the excuse, the allowed excuses
   * used in its week including it, and the quota left.
   */
  function Outcome(
    n: nat, habitId: string, date: string, ts: string, requested: ExcuseKind, reason: string,
    quota: U32, used: U32): (r: (Excuse, U32, U32))
    ensures r.0 == Excuse(ExcuseId(n), habitId, date, ts, RecordedKind(requested, quota, used), reason)
    ensures r.1 == (if r.0.kind == Allowed then used + 1 else used)
    ensures r.2 == SatSub(quota, r.1)
    ensures r.0.kind == Allowed ==> r.1 <= quota
  {
    var kind := RecordedKind(requested, quota, used);
    var used2: U32 := if kind == Allowed then used + 1 else used;
    (Excuse(ExcuseId(n), habitId, date, ts, kind, reason), used2, SatSub(quota, used2))
  }

  /** The part of `excuse` after validation, for the parsed date `dt`: count the week's allowed excuses, then decide. */
  function ExcuseInWeek(
    es: seq<Excuse>, n: nat, habitId: string, date: string, dt: Date, ts: string, requested: ExcuseKind,
    reason: string, quota: U32): (r: Result<(Excuse, U32, U32)>)
    requires Valid(dt)
    ensures r.Ok? <==> Representable(IsoWeekStart(dt).y)
    ensures r.Err? ==> r.error == Usage
    ensures r.Ok? ==> r.value == Outcome(n, habitId, date, ts, requested, reason, quota, WrapU32(WeekCount(es, habitId, dt)))
  {
    UsedInWeekOf(es, habitId, dt);
    var used :- AllowedExcusesUsedInWeek(es, habitId, FormatDate(IsoWeekStart(dt)));
    Ok(Outcome(n, habitId, date, ts, requested, reason, quota, used))
  }

  /**
   * `excuse` under number `n`: the date must parse, the timestamp must be
   * valid RFC 3339 (`tsValid`), the trimmed reason must not be empty, and the
   * week start of the date must print as a date that parses again.
   */
  function NewExcuse(
    es: seq<Excuse>, n: nat, habitId: string, date: string, ts: string, requested: ExcuseKind,
    reason: string, quota: U32, tsValid: string -> bool): (r: Result<(Excuse, U32, U32)>)
    ensures ParseDate(date).Err? || !tsValid(ts) || Trim(reason) == [] ==> r == Err(Usage)
    ensures ParseDate(date).Ok? && tsValid(ts) && Trim(reason) != [] ==>
      r == ExcuseInWeek(es, n, habitId, date, ParseDate(date).value, Trim(ts), requested, Trim(reason), quota)
  {
    if ParseDate(date).Err? || !tsValid(ts) then Err(Usage)
    else
      var why := Trim(reason);
      if why == [] then Err(Usage)
      else
        var dt := ParseDate(date).value;
        ExcuseInWeek(es, n, habitId, date, dt, Trim(ts), requested, why, quota)
  }

  /** `excuse`: on success exactly one excuse is appended under the next number; on failure nothing changes. */
  method RecordExcuse(
    db: Db, habitId: string, date: string, ts: string, requested: ExcuseKind,
    reason: string, quota: U32, tsValid: string -> bool) returns (r: Result<(Excuse, U32, U32)>)
    modifies db`excuses, db`nextExcuseNumber
    ensures old(db.ValidShape()) ==> db.ValidShape()
    ensures r == NewExcuse(old(db.excuses), old(db.nextExcuseNumber), habitId, date, ts, requested, reason, quota, tsValid)
    ensures r.Err? ==> db.excuses == old(db.excuses) && db.nextExcuseNumber == old(db.nextExcuseNumber)
    ensures r.Ok? ==> db.excuses == old(db.excuses) + [r.value.0]
    ensures r.Ok? ==> db.nextExcuseNumber == old(db.nextExcuseNumber) + 1
  {
    r := NewExcuse(db.excuses, db.nextExcuseNumber, habitId, date, ts, requested, reason, quota, tsValid);
    if r.Ok? {
      StoreExcuse(db, r.value.0);
    }
  }

  /** The successful tail of `excuse`: advance the counter and append the excuse. */
  method StoreExcuse(db: Db, e: Excuse)
    modifies db`excuses, db`nextExcuseNumber
    ensures old(db.ValidShape()) ==> db.ValidShape()
    ensures db.nextExcuseNumber == old(db.nextExcuseNumber) + 1
    ensures db.excuses == old(db.excuses) + [e]
  {
    var id := NextExcuseId(db);
    db.excuses := db.excuses + [e];
  }

  /**
   * The quota holds across a call: afterwards the habit's allowed excuses in
   * the week of `dt` are at most the quota or, if the week was already over
   * it, no more than before (while the count fits the `u32` it is cast to).
   */
  lemma QuotaRespected(
    es: seq<Excuse>, n: nat, habitId: string, date: string, dt: Date, ts: string, requested: ExcuseKind,
    reason: string, quota: U32)
    requires Valid(dt)
    requires ExcuseInWeek(es, n, habitId, date, dt, ts, requested, reason, quota).Ok?
    requires WeekCount(es, habitId, dt) <= U32Max
    ensures var before := WeekCount(es, habitId, dt);
      var after := WeekCount(es + [ExcuseInWeek(es, n, habitId, date, dt, ts, requested, reason, quota).value.0], habitId, dt);
      after <= quota || after <= before
  {
    var ex := ExcuseInWeek(es, n, habitId, date, dt, ts, requested, reason, quota).value.0;
    AllowedInSnoc(es, ex, habitId, FormatDate(IsoWeekStart(dt)), FormatDate(IsoWeekEnd(dt)));
  }

  /** `has_allowed_excuse`: an allowed excuse exists for exactly this habit and date. */
  function HasAllowedExcuse(es: seq<Excuse>, habitId: string, date: string): (b: bool)
    ensures b <==> exists i :: 0 <= i < |es| && es[i].habitId == habitId && es[i].date == date && es[i].kind == Allowed
  {
    if es == [] then false
    else
      (es[0].habitId == habitId && es[0].date == date && es[0].kind == Allowed)
      || (assert forall i :: 1 <= i < |es| ==> es[i] == es[1..][i - 1]; HasAllowedExcuse(es[1..], habitId, date))
  }

  /** Once an allowed excuse is recorded, its habit and date are excused. */
  lemma ExcusedAfterAllowed(es: seq<Excuse>, e: Excuse)
    requires e.kind == Allowed
    ensures HasAllowedExcuse(es + [e], e.habitId, e.date)
  {
    assert (es + [e])[|es|] == e;
  }

  /** A denied excuse excuses nothing: recording it leaves every habit and date as it was. */
  lemma DeniedExcusesNothing(es: seq<Excuse>, e: Excuse, habitId: string, date: string)
    requires e.kind == Denied
    ensures HasAllowedExcuse(es + [e], habitId, date) == HasAllowedExcuse(es, habitId, date)
  {
    if HasAllowedExcuse(es + [e], habitId, date) {
      var i :| 0 <= i < |es| + 1 && (es + [e])[i].habitId == habitId && (es + [e])[i].date == date && (es + [e])[i].kind == Allowed;
      assert i < |es| && es[i] == (es + [e])[i];
    }
    if HasAllowedExcuse(es, habitId, date) {
      var i :| 0 <= i < |es| && es[i].habitId == habitId && es[i].date == date && es[i].kind == Allowed;
      assert (es + [e])[i] == es[i];
    }
  }
}
