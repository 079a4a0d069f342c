/**
 * The completion policy: a check-in counts toward a gated habit's target
 * only once the habit has been declared for that date.
 */
module Completion {
  import opened Errors
  import opened Store
  import opened Checkins
  import opened Declarations

  /** `is_declared`: ungated habits are always declared. */
  function IsDeclared(ds: seq<Declaration>, h: Habit, date: string): (b: bool)
    ensures b <==> !h.needsDeclaration || HasDeclaration(ds, h.id, date)
  {
    if !h.needsDeclaration then true else HasDeclaration(ds, h.id, date)
  }

  /** `counted_quantity`: the recorded quantity, or 0 for a gated habit not yet declared. */
  function CountedQuantity(cs: seq<Checkin>, ds: seq<Declaration>, h: Habit, date: string): (q: U32)
    ensures q <= GetQuantity(cs, h.id, date)
    ensures IsDeclared(ds, h, date) ==> q == GetQuantity(cs, h.id, date)
    ensures !IsDeclared(ds, h, date) ==> q == 0
  {
    var raw := GetQuantity(cs, h.id, date);
    if h.needsDeclaration && !HasDeclaration(ds, h.id, date) then 0 else raw
  }

  /** `is_done_for_date`: the counted quantity reaches the target. */
  function IsDoneForDate(cs: seq<Checkin>, ds: seq<Declaration>, h: Habit, date: string): (b: bool)
    ensures b <==> CountedQuantity(cs, ds, h, date) >= h.target.quantity
    ensures b && h.target.quantity >= 1 ==> IsDeclared(ds, h, date)
  {
    CountedQuantity(cs, ds, h, date) >= h.target.quantity
  }

  /** With a target of at least 1, "declared and counted reaches target" is just "counted reaches target". */
  lemma DeclaredAndDone(cs: seq<Checkin>, ds: seq<Declaration>, h: Habit, date: string)
    requires h.target.quantity >= 1
    ensures (IsDeclared(ds, h, date) && CountedQuantity(cs, ds, h, date) >= h.target.quantity)
      <==> IsDoneForDate(cs, ds, h, date)
  {
  }

  /**
   * The gated-habit scenario: one unit checked in without a declaration
   * counts 0 and is not done; after declaring, the same check-in counts
   * 1 and is done, with no new check-in.
   */
  lemma GatedHabitScenario(cs: seq<Checkin>, ds: seq<Declaration>, h: Habit, date: string, d: Declaration)
    requires h.needsDeclaration && h.target.quantity == 1
    requires UniqueKeys(cs) && Checkin(h.id, date, 1) in cs
    requires !HasDeclaration(ds, h.id, date)
    requires d.habitId == h.id && d.date == date
    ensures GetQuantity(cs, h.id, date) == 1
    ensures CountedQuantity(cs, ds, h, date) == 0 && !IsDoneForDate(cs, ds, h, date)
    ensures CountedQuantity(cs, ds + [d], h, date) == 1 && IsDoneForDate(cs, ds + [d], h, date)
  {
    var i :| 0 <= i < |cs| && cs[i] == Checkin(h.id, date, 1);
    assert IsKey(cs[i], h.id, date);
    DeclaredAfterDeclare(ds, d);
  }
}
