/**
 * Penalties: one rule per habit arms it; a daily tick turns a missed
 * scheduled day into a debt due the next day, carrying forward an unpaid
 * debt that falls due that day; an action resolves or voids a debt.
 */
module Penalty {
  import opened Errors
  import opened Text
  import opened Calendar
  import opened Dates
  import opened Sorting
  import opened Store
  import opened Habits
  import opened Checkins
  import opened Declarations
  import opened Completion
  import opened Excuses

  // ---------------------------------------------------------------------------
  // Ids
  // ---------------------------------------------------------------------------

  /** `compact_date`: the date text with every '-' removed. */
  function CompactDate(s: string): (r: string)
    ensures |r| <= |s|
    ensures forall i :: 0 <= i < |r| ==> r[i] != '-'
    ensures (forall i :: 0 <= i < |s| ==> s[i] != '-') ==> r == s
  {
    if s == [] then []
    else
      assert forall i :: 1 <= i < |s| ==> s[1..][i - 1] == s[i];
      (if s[0] == '-' then [] else [s[0]]) + CompactDate(s[1..])
  }

  lemma {:induction false} CompactConcat(a: string, b: string)
    ensures CompactDate(a + b) == CompactDate(a) + CompactDate(b)
  {
    if a == [] {
      assert a + b == b;
    } else {
      assert (a + b)[1..] == a[1..] + b;
      CompactConcat(a[1..], b);
    }
  }

  lemma CompactAfterHyphen(s: string)
    ensures CompactDate("-" + s) == CompactDate(s)
  {
    assert ("-" + s)[0] == '-' && ("-" + s)[1..] == s;
  }

  lemma CompactDigits(s: string)
    requires AllDigits(s)
    ensures CompactDate(s) == s
  {
  }

  /** Removing hyphens from `y-m-d` with digit-only parts joins the parts. */
  lemma CompactParts(y: string, m: string, d: string)
    requires AllDigits(y) && AllDigits(m) && AllDigits(d)
    ensures CompactDate(y + "-" + m + "-" + d) == y + m + d
  {
    var t := "-" + d;
    assert CompactDate(t) == d by {
      CompactDigits(d);
      CompactAfterHyphen(d);
    }
    assert CompactDate(m + t) == m + d by {
      CompactDigits(m);
      CompactConcat(m, t);
    }
    var u := "-" + (m + t);
    assert CompactDate(u) == m + d by {
      CompactAfterHyphen(m + t);
    }
    assert CompactDate(y + u) == y + (m + d) by {
      CompactDigits(y);
      CompactConcat(y, u);
    }
    AppendAssoc(y + "-" + m, "-", d);
    AppendAssoc(y + "-", m, t);
    AppendAssoc(y, "-", m + t);
  }

  /** A printed date of years 0..9999 compacts to its eight digits. */
  lemma CompactFormat(d: Date)
    requires Valid(d) && 0 <= d.y <= 9999
    ensures CompactDate(FormatDate(d)) == ZeroPad(d.y, 4) + ZeroPad(d.m, 2) + ZeroPad(d.d, 2)
    ensures |ZeroPad(d.y, 4)| == 4 && |ZeroPad(d.m, 2)| == 2 && |ZeroPad(d.d, 2)| == 2
  {
    PadYearShape(d.y);
    PadTwo(d.m);
    PadTwo(d.d);
    assert PadYear(d.y) == ZeroPad(d.y, 4);
    CompactParts(ZeroPad(d.y, 4), ZeroPad(d.m, 2), ZeroPad(d.d, 2));
  }

  /** `debt_id_for`: `pd_<habit>_<date without hyphens>`. */
  function DebtIdFor(habitId: string, triggerDate: string): (r: string)
    ensures |r| > 3 + |habitId| && r[..3] == "pd_" && r[3..3 + |habitId|] == habitId
  {
    "pd_" + habitId + "_" + CompactDate(triggerDate)
  }

  /** Habit ids of one length and printed dates of years 0..9999 give distinct debt ids to distinct (habit, day) pairs. */
  lemma DebtIdsDistinct(h1: string, d1: Date, h2: string, d2: Date)
    requires |h1| == |h2|
    requires Valid(d1) && Valid(d2) && 0 <= d1.y <= 9999 && 0 <= d2.y <= 9999
    ensures DebtIdFor(h1, FormatDate(d1)) == DebtIdFor(h2, FormatDate(d2)) <==> h1 == h2 && d1 == d2
  {
    CompactFormat(d1);
    CompactFormat(d2);
    var c1, c2 := CompactDate(FormatDate(d1)), CompactDate(FormatDate(d2));
    if DebtIdFor(h1, FormatDate(d1)) == DebtIdFor(h2, FormatDate(d2)) {
      ConcatEq("pd_" + h1 + "_", c1, "pd_" + h2 + "_", c2);
      assert h1 == ("pd_" + h1 + "_")[3..3 + |h1|];
      assert h2 == ("pd_" + h2 + "_")[3..3 + |h2|];
      var y1, m1, e1 := ZeroPad(d1.y, 4), ZeroPad(d1.m, 2), ZeroPad(d1.d, 2);
      var y2, m2, e2 := ZeroPad(d2.y, 4), ZeroPad(d2.m, 2), ZeroPad(d2.d, 2);
      AppendAssoc(y1, m1, e1);
      AppendAssoc(y2, m2, e2);
      ConcatEq(y1, m1 + e1, y2, m2 + e2);
      ConcatEq(m1, e1, m2, e2);
      FormatOrder(d1, d2);
    }
  }

  function ActionKindName(kind: PenaltyActionKind): string {
    match kind
    case Resolve => "resolve"
    case Void => "void"
  }

  /** `action_id_for`: `pa_<debt>_resolve` or `pa_<debt>_void`. */
  function ActionIdFor(debtId: string, kind: PenaltyActionKind): (r: string)
    ensures |r| > 3 + |debtId| && r[..3] == "pa_" && r[3..3 + |debtId|] == debtId
  {
    "pa_" + debtId + "_" + ActionKindName(kind)
  }

  /** An action id names its debt and its kind: distinct pairs give distinct ids. */
  lemma ActionIdsDistinct(x: string, k1: PenaltyActionKind, y: string, k2: PenaltyActionKind)
    ensures ActionIdFor(x, k1) == ActionIdFor(y, k2) <==> x == y && k1 == k2
  {
    var a, b := ActionIdFor(x, k1), ActionIdFor(y, k2);
    if a == b {
      assert a[|a| - 1] == ActionKindName(k1)[|ActionKindName(k1)| - 1];
      assert b[|b| - 1] == ActionKindName(k2)[|ActionKindName(k2)| - 1];
      assert k1 == k2;
      var s := "_" + ActionKindName(k1);
      assert a == ("pa_" + x) + s && b == ("pa_" + y) + s;
      assert "pa_" + x == a[..|a| - |s|] && "pa_" + y == b[..|b| - |s|];
      assert x == ("pa_" + x)[3..] && y == ("pa_" + y)[3..];
    }
  }

  // ---------------------------------------------------------------------------
  // Rules
  // ---------------------------------------------------------------------------

  /** `pr` followed by the counter padded to six digits. */
  function RuleId(n: nat): string {
    NumberedId("pr", n, 6)
  }

  /** `next_penalty_rule_id`. */
  method NextPenaltyRuleId(db: Db) returns (id: string)
    modifies db`nextPenaltyRuleNumber
    ensures old(db.ValidShape()) ==> db.ValidShape()
    ensures id == RuleId(old(db.nextPenaltyRuleNumber))
    ensures db.nextPenaltyRuleNumber == old(db.nextPenaltyRuleNumber) + 1
  {
    var n := db.nextPenaltyRuleNumber;
    id := RuleId(n);
    db.nextPenaltyRuleNumber := n + 1;
  }

  lemma RuleIdsDistinct(a: nat, b: nat)
    ensures RuleId(a) == RuleId(b) <==> a == b
  {
    NumberedIdInjective("pr", a, b, 6);
  }

  /** `rule_map`: rules keyed by habit, a later rule for the same habit replacing an earlier one. */
  function RuleFor(rules: seq<PenaltyRule>, habitId: string): (r: Option<PenaltyRule>)
    ensures r.Some? ==> exists i :: (0 <= i < |rules| && rules[i] == r.value && r.value.habitId == habitId
                                     && forall j :: i < j < |rules| ==> rules[j].habitId != habitId)
    ensures r.None? <==> forall j :: 0 <= j < |rules| ==> rules[j].habitId != habitId
  {
    if rules == [] then None
    else
      var k := |rules| - 1;
      if rules[k].habitId == habitId then Some(rules[k])
      else
        var r := RuleFor(rules[..k], habitId);
        RuleForPast(rules, habitId, r);
        r
  }

  /** A last rule of another habit leaves the answer for the rules before it standing. */
  lemma RuleForPast(rules: seq<PenaltyRule>, habitId: string, r: Option<PenaltyRule>)
    requires rules != [] && rules[|rules| - 1].habitId != habitId
    requires var front := rules[..|rules| - 1];
      && (r.Some? ==> exists i :: (0 <= i < |front| && front[i] == r.value && r.value.habitId == habitId
                                   && forall j :: i < j < |front| ==> front[j].habitId != habitId))
      && (r.None? <==> forall j :: 0 <= j < |front| ==> front[j].habitId != habitId)
    ensures r.Some? ==> exists i :: (0 <= i < |rules| && rules[i] == r.value && r.value.habitId == habitId
                                     && forall j :: i < j < |rules| ==> rules[j].habitId != habitId)
    ensures r.None? <==> forall j :: 0 <= j < |rules| ==> rules[j].habitId != habitId
  {
    var k := |rules| - 1;
    assert forall j :: 0 <= j < k ==> rules[..k][j] == rules[j];
    if r.Some? {
      var i :| 0 <= i < k && rules[..k][i] == r.value && r.value.habitId == habitId
               && forall j :: i < j < k ==> rules[..k][j].habitId != habitId;
      assert forall j :: i < j < |rules| ==> rules[j].habitId != habitId;
    }
  }

  /** At most one rule per habit: the shape `upsert_rule` keeps. */
  predicate OneRulePerHabit(rules: seq<PenaltyRule>) {
    forall i, j :: 0 <= i < j < |rules| ==> rules[i].habitId != rules[j].habitId
  }

  function RuleOf(habitId: string): PenaltyRule -> bool {
    (r: PenaltyRule) => r.habitId == habitId
  }

  /** The rule `upsert_rule` stores: the habit's first rule with new settings and its id kept, or a new rule numbered `n`. */
  function ArmedRule(
    rules: seq<PenaltyRule>, n: nat, habitId: string, multiplier: U32, cap: U32, deadlineDays: U32,
    armedDate: string, armedTs: string): (r: PenaltyRule)
    ensures r.habitId == habitId && r.multiplier == multiplier && r.cap == cap
    ensures r.deadlineDays == deadlineDays && r.armedDate == armedDate && r.armedTs == armedTs
    ensures var i := FirstWhere(rules, RuleOf(habitId)); i.Some? ==> r.id == rules[i.value].id
    ensures FirstWhere(rules, RuleOf(habitId)).None? ==> r.id == RuleId(n)
  {
    match FirstWhere(rules, RuleOf(habitId))
    case Some(i) =>
      rules[i].(multiplier := multiplier, cap := cap, deadlineDays := deadlineDays, armedDate := armedDate, armedTs := armedTs)
    case None =>
      PenaltyRule(RuleId(n), habitId, multiplier, cap, deadlineDays, armedDate, armedTs)
  }

  /** The rule table after `upsert_rule`: the first rule of the habit overwritten in place, or the new rule appended. */
  function RulesAfterUpsert(rules: seq<PenaltyRule>, rule: PenaltyRule): (r: seq<PenaltyRule>)
    ensures var i := FirstWhere(rules, RuleOf(rule.habitId)); i.Some? ==> r == rules[i.value := rule]
    ensures FirstWhere(rules, RuleOf(rule.habitId)).None? ==> r == rules + [rule]
  {
    match FirstWhere(rules, RuleOf(rule.habitId))
    case Some(i) => rules[i := rule]
    case None => rules + [rule]
  }

  /**
   * The outcome of `upsert_rule`: the date must parse, the timestamp must be
   * valid, and the multiplier and cap must be at least 1; then the armed rule.
   */
  function NewRule(
    rules: seq<PenaltyRule>, n: nat, habitId: string, armedDate: string, armedTs: string,
    multiplier: U32, cap: U32, deadlineDays: U32, tsValid: string -> bool): (r: Result<PenaltyRule>)
    ensures r.Err? <==> ParseDate(armedDate).Err? || !tsValid(armedTs) || multiplier < 1 || cap < 1
    ensures r.Err? ==> r.error == Usage
    ensures r.Ok? ==> r.value == ArmedRule(rules, n, habitId, multiplier, cap, deadlineDays, armedDate, Trim(armedTs))
  {
    if ParseDate(armedDate).Err? || !tsValid(armedTs) || multiplier < 1 || cap < 1 then Err(Usage)
    else Ok(ArmedRule(rules, n, habitId, multiplier, cap, deadlineDays, armedDate, Trim(armedTs)))
  }

  /** `upsert_rule`: stores the armed rule; the counter moves only when a rule is appended. */
  method UpsertRule(
    db: Db, habitId: string, armedDate: string, armedTs: string, multiplier: U32, cap: U32,
    deadlineDays: U32, tsValid: string -> bool) returns (r: Result<PenaltyRule>)
    modifies db`penaltyRules, db`nextPenaltyRuleNumber
    ensures old(db.ValidShape()) ==> db.ValidShape()
    ensures r == NewRule(old(db.penaltyRules), old(db.nextPenaltyRuleNumber), habitId, armedDate, armedTs,
                         multiplier, cap, deadlineDays, tsValid)
    ensures db.penaltyRules == if r.Ok? then RulesAfterUpsert(old(db.penaltyRules), r.value) else old(db.penaltyRules)
    ensures db.nextPenaltyRuleNumber ==
      old(db.nextPenaltyRuleNumber) + if r.Ok? && FirstWhere(old(db.penaltyRules), RuleOf(habitId)).None? then 1 else 0
  {
    if ParseDate(armedDate).Err? || !tsValid(armedTs) || multiplier < 1 || cap < 1 {
      return Err(Usage);
    }
    var rule := StoreRule(db, habitId, multiplier, cap, deadlineDays, armedDate, Trim(armedTs));
    r := Ok(rule);
  }

  /** The storing half of `upsert_rule`: overwrite the habit's first rule in place, or number and push a new one. */
  method StoreRule(
    db: Db, habitId: string, multiplier: U32, cap: U32, deadlineDays: U32, armedDate: string, armedTs: string)
    returns (rule: PenaltyRule)
    modifies db`penaltyRules, db`nextPenaltyRuleNumber
    ensures old(db.ValidShape()) ==> db.ValidShape()
    ensures rule == ArmedRule(old(db.penaltyRules), old(db.nextPenaltyRuleNumber), habitId, multiplier, cap,
                              deadlineDays, armedDate, armedTs)
    ensures db.penaltyRules == RulesAfterUpsert(old(db.penaltyRules), rule)
    ensures db.nextPenaltyRuleNumber ==
      old(db.nextPenaltyRuleNumber) + if FirstWhere(old(db.penaltyRules), RuleOf(habitId)).None? then 1 else 0
  {
    match FirstWhere(db.penaltyRules, RuleOf(habitId))
    case Some(i) =>
      rule := db.penaltyRules[i].(multiplier := multiplier, cap := cap, deadlineDays := deadlineDays,
                                  armedDate := armedDate, armedTs := armedTs);
      db.penaltyRules := db.penaltyRules[i := rule];
    case None =>
      var id := NextPenaltyRuleId(db);
      rule := PenaltyRule(id, habitId, multiplier, cap, deadlineDays, armedDate, armedTs);
      db.penaltyRules := db.penaltyRules + [rule];
  }

  /** Upserting keeps at most one rule per habit. */
  lemma UpsertKeepsOneRule(rules: seq<PenaltyRule>, rule: PenaltyRule)
    requires OneRulePerHabit(rules)
    ensures OneRulePerHabit(RulesAfterUpsert(rules, rule))
  {
    var after := RulesAfterUpsert(rules, rule);
    match FirstWhere(rules, RuleOf(rule.habitId))
    case Some(i) =>
      forall a, b | 0 <= a < b < |after| ensures after[a].habitId != after[b].habitId {
        if a == i {
          assert rules[i].habitId == rule.habitId;
        } else if b == i {
          assert rules[i].habitId == rule.habitId;
        }
      }
    case None =>
  }

  /** With one rule per habit, the tick's lookup finds the upserted rule, and every other habit's rule is unchanged. */
  lemma UpsertThenLookup(rules: seq<PenaltyRule>, rule: PenaltyRule, other: string)
    requires OneRulePerHabit(rules)
    ensures RuleFor(RulesAfterUpsert(rules, rule), rule.habitId) == Some(rule)
    ensures other != rule.habitId ==> RuleFor(RulesAfterUpsert(rules, rule), other) == RuleFor(rules, other)
  {
    var after := RulesAfterUpsert(rules, rule);
    UpsertKeepsOneRule(rules, rule);
    var found := RuleFor(after, rule.habitId);
    assert exists i :: 0 <= i < |after| && after[i] == rule by {
      match FirstWhere(rules, RuleOf(rule.habitId))
      case Some(i) => assert after[i] == rule;
      case None => assert after[|rules|] == rule;
    }
    var i :| 0 <= i < |after| && after[i] == rule;
    var j :| 0 <= j < |after| && after[j] == found.value && found.value.habitId == rule.habitId;
    assert i == j;
    if other != rule.habitId {
      RuleForOthers(rules, rule, other);
    }
  }

  lemma RuleForOthers(rules: seq<PenaltyRule>, rule: PenaltyRule, other: string)
    requires OneRulePerHabit(rules) && other != rule.habitId
    ensures RuleFor(RulesAfterUpsert(rules, rule), other) == RuleFor(rules, other)
  {
    var after := RulesAfterUpsert(rules, rule);
    UpsertKeepsOneRule(rules, rule);
    UpsertOtherSlots(rules, rule, other);
    if b :| 0 <= b < |rules| && rules[b].habitId == other {
      RuleForUnique(rules, other, b);
      RuleForUnique(after, other, b);
    } else {
      assert RuleFor(rules, other).None?;
      assert forall k :: 0 <= k < |after| ==> after[k].habitId != other;
    }
  }

  /** Upserting changes no slot that holds another habit's rule, and adds none. */
  lemma UpsertOtherSlots(rules: seq<PenaltyRule>, rule: PenaltyRule, other: string)
    requires other != rule.habitId
    ensures var after := RulesAfterUpsert(rules, rule);
      forall k :: 0 <= k < |after| && after[k].habitId == other ==> k < |rules| && after[k] == rules[k]
    ensures var after := RulesAfterUpsert(rules, rule);
      forall k :: 0 <= k < |rules| && rules[k].habitId == other ==> k < |after| && after[k] == rules[k]
  {
    match FirstWhere(rules, RuleOf(rule.habitId))
    case Some(i) =>
    case None =>
  }

  /** With one rule per habit, the lookup returns the habit's only rule. */
  lemma RuleForUnique(rules: seq<PenaltyRule>, habitId: string, k: int)
    requires OneRulePerHabit(rules) && 0 <= k < |rules| && rules[k].habitId == habitId
    ensures RuleFor(rules, habitId) == Some(rules[k])
  {
    var r := RuleFor(rules, habitId);
    assert r.Some?;
    var i :| 0 <= i < |rules| && rules[i] == r.value && r.value.habitId == habitId;
    assert i == k;
  }

  // ---------------------------------------------------------------------------
  // Debts
  // ---------------------------------------------------------------------------

  function ActionOn(debtId: string): PenaltyAction -> bool {
    (a: PenaltyAction) => a.debtId == debtId
  }

  /** `debt_closed_map` membership: some action, resolve or void, names the debt. */
  function DebtClosed(actions: seq<PenaltyAction>, debtId: string): (b: bool)
    ensures b <==> exists i :: 0 <= i < |actions| && actions[i].debtId == debtId
  {
    var i := FirstWhere(actions, ActionOn(debtId));
    assert i.Some? ==> ActionOn(debtId)(actions[i.value]);
    i.Some?
  }

  /** Some stored debt carries this id. */
  predicate HasDebtId(debts: seq<PenaltyDebt>, id: string) {
    exists i :: 0 <= i < |debts| && debts[i].id == id
  }

  /** An unclosed debt of the habit that falls due on `date`. */
  predicate DueOn(d: PenaltyDebt, actions: seq<PenaltyAction>, habitId: string, date: string) {
    d.habitId == habitId && d.dueDate == date && !DebtClosed(actions, d.id)
  }

  /**
   * The carry-in of `tick`: the largest quantity among the habit's unclosed
   * debts due on `date` (`max_by` on quantity; only the quantity is used).
   */
  function DueTodayMax(debts: seq<PenaltyDebt>, actions: seq<PenaltyAction>, habitId: string, date: string): (r: Option<U32>)
    ensures r.None? <==> forall i :: 0 <= i < |debts| ==> !DueOn(debts[i], actions, habitId, date)
    ensures r.Some? ==> exists i :: 0 <= i < |debts| && DueOn(debts[i], actions, habitId, date) && debts[i].quantity == r.value
    ensures r.Some? ==> forall i :: 0 <= i < |debts| && DueOn(debts[i], actions, habitId, date) ==> debts[i].quantity <= r.value
  {
    if debts == [] then None
    else
      var k := |debts| - 1;
      assert forall i :: 0 <= i < k ==> debts[..k][i] == debts[i];
      var rest := DueTodayMax(debts[..k], actions, habitId, date);
      if !DueOn(debts[k], actions, habitId, date) then rest
      else if rest.Some? && rest.value > debts[k].quantity then rest
      else Some(debts[k].quantity)
  }

  /** Debts falling due on other days do not change the carry-in. */
  lemma DueTodayIgnoresOtherDays(debts: seq<PenaltyDebt>, more: seq<PenaltyDebt>, actions: seq<PenaltyAction>, habitId: string, date: string)
    requires forall k :: 0 <= k < |more| ==> more[k].dueDate != date
    ensures DueTodayMax(debts + more, actions, habitId, date) == DueTodayMax(debts, actions, habitId, date)
  {
    var all := debts + more;
    forall i | 0 <= i < |all|
      ensures DueOn(all[i], actions, habitId, date) <==> i < |debts| && DueOn(debts[i], actions, habitId, date)
    {
      if i < |debts| {
        assert all[i] == debts[i];
      } else {
        assert all[i] == more[i - |debts|];
      }
    }
    var a, b := DueTodayMax(all, actions, habitId, date), DueTodayMax(debts, actions, habitId, date);
    if b.Some? {
      var j :| 0 <= j < |debts| && DueOn(debts[j], actions, habitId, date) && debts[j].quantity == b.value;
      assert DueOn(all[j], actions, habitId, date) && all[j].quantity == b.value;
      assert a.Some? && b.value <= a.value;
      var i :| 0 <= i < |all| && DueOn(all[i], actions, habitId, date) && all[i].quantity == a.value;
      assert DueOn(debts[i], actions, habitId, date) && debts[i].quantity == a.value;
      assert a.value <= b.value;
    } else {
      forall i | 0 <= i < |all| ensures !DueOn(all[i], actions, habitId, date) {
        if i < |debts| {
          assert !DueOn(debts[i], actions, habitId, date);
        }
      }
    }
  }

  // ---------------------------------------------------------------------------
  // The daily tick
  // ---------------------------------------------------------------------------

  /**
   * Everything one `tick` reads besides the growing debt table: the date as
   * given, as parsed and the printed day after it, the trimmed timestamp, and
   * the other tables.
   */
  datatype TickView = TickView(
    date: string,
    day: Date,
    tomorrow: string,
    ts: string,
    includeArchived: bool,
    rules: seq<PenaltyRule>,
    actions: seq<PenaltyAction>,
    checkins: seq<Checkin>,
    declarations: seq<Declaration>,
    excuses: seq<Excuse>)

  function View(db: Db, date: string, day: Date, ts: string, includeArchived: bool): TickView
    requires Valid(day)
    reads db
  {
    TickView(date, day, FormatDate(AddDays(day, 1)), Trim(ts), includeArchived, db.penaltyRules, db.penaltyActions, db.checkins, db.declarations, db.excuses)
  }

  /**
   * The habits `tick` looks at: not archived (unless archived ones are
   * included), day-period, armed with a rule, scheduled on the date, and not
   * excused by an allowed excuse for it.
   */
  predicate Eligible(h: Habit, v: TickView) {
    && (v.includeArchived || !h.archived)
    && h.target.period == "day"
    && RuleFor(v.rules, h.id).Some?
    && ScheduledOnDay(h, v)
    && !HasAllowedExcuse(v.excuses, h.id, v.date)
  }

  /** `is_scheduled_on` for the tick's date, parsed once up front. */
  predicate ScheduledOnDay(h: Habit, v: TickView) {
    !LexLess(v.date, h.createdDate) && Valid(v.day) && IsoWeekday(v.day) in h.schedule.days
  }

  /** On the tick's own date, the schedule test cannot fail and agrees with `is_scheduled_on`. */
  lemma ScheduledOnDayAgrees(h: Habit, v: TickView)
    requires ViewOf(v)
    ensures IsScheduledOn(h, v.date) == Ok(ScheduledOnDay(h, v))
  {
  }

  /** Declared and the counted quantity reaches the target. */
  predicate Done(h: Habit, v: TickView) {
    IsDeclared(v.declarations, h, v.date) && CountedQuantity(v.checkins, v.declarations, h, v.date) >= h.target.quantity
  }

  /** The view of a tick on a date that parsed to `day`. */
  predicate ViewOf(v: TickView) {
    Valid(v.day) && ParseDate(v.date) == Ok(v.day) && v.tomorrow == FormatDate(AddDays(v.day, 1))
  }

  /** The quantity a charge multiplies: the target, raised to the largest carried quantity due today. */
  function ChargeBase(h: Habit, debts: seq<PenaltyDebt>, v: TickView): (b: U32)
    ensures b >= h.target.quantity
    ensures DueTodayMax(debts, v.actions, h.id, v.date).Some? ==> b >= DueTodayMax(debts, v.actions, h.id, v.date).value
    ensures b == h.target.quantity || DueTodayMax(debts, v.actions, h.id, v.date) == Some(b)
  {
    var carry := DueTodayMax(debts, v.actions, h.id, v.date);
    if carry.Some? then Max(carry.value, h.target.quantity) else h.target.quantity
  }

  /**
   * What one habit's turn in the `tick` loop appends, if anything. An eligible
   * habit that was missed, or that has an unclosed debt falling due today,
   * is charged unless its debt for today already exists. The base is the
   * target, raised to the carried-in quantity; it is multiplied (saturating)
   * and capped by the habit's rule.
   */
  function Charge(h: Habit, debts: seq<PenaltyDebt>, v: TickView): (r: Option<PenaltyDebt>)
    ensures r.Some? <==>
      Eligible(h, v) && (!Done(h, v) || DueTodayMax(debts, v.actions, h.id, v.date).Some?)
      && !HasDebtId(debts, DebtIdFor(h.id, v.date))
    ensures r.Some? ==> r.value.id == DebtIdFor(h.id, v.date) && r.value.habitId == h.id
    ensures r.Some? ==> r.value.triggerDate == v.date && r.value.createdDate == v.date && r.value.createdTs == v.ts
    ensures r.Some? ==> r.value.dueDate == v.tomorrow && r.value.ruleId == RuleFor(v.rules, h.id).value.id
    ensures r.Some? ==> r.value.quantity <= RuleFor(v.rules, h.id).value.cap
    ensures r.Some? ==>
      r.value.quantity == Min(SatMul(ChargeBase(h, debts, v), RuleFor(v.rules, h.id).value.multiplier), RuleFor(v.rules, h.id).value.cap)
    ensures r.Some? && RuleFor(v.rules, h.id).value.multiplier >= 1 ==>
      r.value.quantity >= Min(h.target.quantity, RuleFor(v.rules, h.id).value.cap)
    ensures r.Some? && RuleFor(v.rules, h.id).value.multiplier >= 1 && DueTodayMax(debts, v.actions, h.id, v.date).Some? ==>
      r.value.quantity >= Min(DueTodayMax(debts, v.actions, h.id, v.date).value, RuleFor(v.rules, h.id).value.cap)
  {
    if !Eligible(h, v) then None
    else
      var rule := RuleFor(v.rules, h.id).value;
      var carry := DueTodayMax(debts, v.actions, h.id, v.date);
      if Done(h, v) && carry.None? then None
      else
        var id := DebtIdFor(h.id, v.date);
        if HasDebtId(debts, id) then None
        else
          var base := ChargeBase(h, debts, v);
          var qty := Min(SatMul(base, rule.multiplier), rule.cap);
          SatMulGrows(base, rule.multiplier);
          Some(PenaltyDebt(id, h.id, v.date, v.tomorrow, qty, rule.id, v.date, v.ts))
  }

  /** Multiplying by at least 1 never shrinks, saturating or not. */
  lemma SatMulGrows(a: U32, b: U32)
    ensures b >= 1 ==> SatMul(a, b) >= a
  {
    if b >= 1 && a * b <= U32Max {
      assert a * b == a + a * (b - 1);
    }
  }

  /** With penalty rules of multiplier and cap at least 1 and a target of at least 1, a charge is between 1 and the cap. */
  lemma ChargeBounds(h: Habit, debts: seq<PenaltyDebt>, v: TickView)
    requires Charge(h, debts, v).Some?
    requires h.target.quantity >= 1
    requires RuleFor(v.rules, h.id).value.multiplier >= 1 && RuleFor(v.rules, h.id).value.cap >= 1
    ensures 1 <= Charge(h, debts, v).value.quantity <= RuleFor(v.rules, h.id).value.cap
  {
  }

  /** The debts the `tick` loop appends for `hs`, each habit's turn seeing the debts appended before it. */
  function Charges(hs: seq<Habit>, debts: seq<PenaltyDebt>, v: TickView): (created: seq<PenaltyDebt>)
    ensures |created| <= |hs|
  {
    if hs == [] then []
    else
      var front := Charges(hs[..|hs| - 1], debts, v);
      match Charge(hs[|hs| - 1], debts + front, v)
      case None => front
      case Some(d) => front + [d]
  }

  /** Every appended debt is due the day after the tick's date, charged for that date. */
  lemma {:induction false} ChargesShape(hs: seq<Habit>, debts: seq<PenaltyDebt>, v: TickView)
    ensures forall d :: d in Charges(hs, debts, v) ==>
      d.dueDate == v.tomorrow && d.triggerDate == v.date && d.id == DebtIdFor(d.habitId, v.date)
  {
    if hs != [] {
      ChargesShape(hs[..|hs| - 1], debts, v);
    }
  }

  /** No two debts share an id. */
  predicate UniqueDebtIds(debts: seq<PenaltyDebt>) {
    forall i, j :: 0 <= i < j < |debts| ==> debts[i].id != debts[j].id
  }

  /** A tick never appends a debt whose id is already taken, so ids stay unique. */
  lemma {:induction false} TickKeepsIdsUnique(hs: seq<Habit>, debts: seq<PenaltyDebt>, v: TickView)
    requires UniqueDebtIds(debts)
    ensures UniqueDebtIds(debts + Charges(hs, debts, v))
  {
    if hs != [] {
      var front := Charges(hs[..|hs| - 1], debts, v);
      TickKeepsIdsUnique(hs[..|hs| - 1], debts, v);
      var c := Charge(hs[|hs| - 1], debts + front, v);
      if c.Some? {
        var all := debts + front + [c.value];
        assert debts + Charges(hs, debts, v) == all;
        forall i, j | 0 <= i < j < |all| ensures all[i].id != all[j].id {
          if j == |all| - 1 {
            assert all[i] == (debts + front)[i];
          } else {
            assert all[i] == (debts + front)[i] && all[j] == (debts + front)[j];
          }
        }
      }
    }
  }

  /** The date `tick` was given is never the day after itself, so its own debts never fall due that day. */
  lemma NextDayDiffers(date: string, day: Date)
    requires ParseDate(date) == Ok(day)
    ensures FormatDate(AddDays(day, 1)) != date
  {
    var next := AddDays(day, 1);
    assert next != day;
    PrintedOtherDay(date, day, next);
  }

  /** A date text that parses to one day is not the printing of another. */
  lemma PrintedOtherDay(date: string, day: Date, other: Date)
    requires ParseDate(date) == Ok(day) && Valid(other) && other != day
    ensures FormatDate(other) != date
  {
    assert ParseDate(FormatDate(other)) == Reparse(other);
  }

  /** One habit's turn charges nothing once its earlier charge, or any debt it would see, is among `more`. */
  lemma ChargeCovered(h: Habit, debts: seq<PenaltyDebt>, front: seq<PenaltyDebt>, more: seq<PenaltyDebt>, v: TickView)
    requires forall k :: 0 <= k < |more| ==> more[k].dueDate != v.date
    requires forall k :: 0 <= k < |front| ==> front[k] in more
    requires Charge(h, debts + front, v).Some? ==> Charge(h, debts + front, v).value in more
    ensures Charge(h, debts + more, v).None?
  {
    assert forall k :: 0 <= k < |front| ==> front[k].dueDate != v.date;
    DueTodayIgnoresOtherDays(debts, front, v.actions, h.id, v.date);
    DueTodayIgnoresOtherDays(debts, more, v.actions, h.id, v.date);
    var id := DebtIdFor(h.id, v.date);
    var c := Charge(h, debts + front, v);
    if c.Some? {
      var k :| 0 <= k < |more| && more[k] == c.value;
      assert (debts + more)[|debts| + k].id == id;
    } else if HasDebtId(debts + front, id) {
      var k :| 0 <= k < |debts + front| && (debts + front)[k].id == id;
      if k < |debts| {
        assert (debts + more)[k] == debts[k];
      } else {
        var m :| 0 <= m < |more| && more[m] == front[k - |debts|];
        assert (debts + more)[|debts| + m].id == id;
      }
    }
  }

  /**
   * Ticking again over debts that already hold this tick's charges, plus any
   * debts falling due on other days, charges nothing.
   */
  lemma {:induction false} ChargesCovered(hs: seq<Habit>, debts: seq<PenaltyDebt>, more: seq<PenaltyDebt>, v: TickView)
    requires forall k :: 0 <= k < |more| ==> more[k].dueDate != v.date
    requires forall d :: d in Charges(hs, debts, v) ==> d in more
    ensures Charges(hs, debts + more, v) == []
  {
    if hs != [] {
      var init, h := hs[..|hs| - 1], hs[|hs| - 1];
      var front := Charges(init, debts, v);
      assert forall d :: d in front ==> d in Charges(hs, debts, v);
      ChargesCovered(init, debts, more, v);
      assert debts + more + [] == debts + more;
      ChargeCovered(h, debts, front, more, v);
    }
  }

  /** A second tick on the same date, after the first, creates no debt. */
  lemma TickTwice(hs: seq<Habit>, debts: seq<PenaltyDebt>, v: TickView)
    requires ViewOf(v)
    ensures Charges(hs, debts + Charges(hs, debts, v), v) == []
  {
    var created := Charges(hs, debts, v);
    TomorrowDiffers(v);
    CreatedNotDueToday(hs, debts, v);
    ChargesCovered(hs, debts, created, v);
  }

  /** The view's next day is printed differently from its own date. */
  lemma TomorrowDiffers(v: TickView)
    requires ViewOf(v)
    ensures v.tomorrow != v.date
  {
    NextDayDiffers(v.date, v.day);
  }

  /** When the next day differs from the tick's date, none of the tick's own debts falls due that date. */
  lemma CreatedNotDueToday(hs: seq<Habit>, debts: seq<PenaltyDebt>, v: TickView)
    requires v.tomorrow != v.date
    ensures forall k :: 0 <= k < |Charges(hs, debts, v)| ==> Charges(hs, debts, v)[k].dueDate != v.date
  {
    var created := Charges(hs, debts, v);
    ChargesShape(hs, debts, v);
    assert forall k :: 0 <= k < |created| ==> created[k] in created;
  }

  /** The order of `tick`'s result: by debt id. */
  function DebtIdLt(): (PenaltyDebt, PenaltyDebt) -> bool {
    ByKey((d: PenaltyDebt) => [d.id])
  }

  /** The result of `tick` holds exactly the appended debts, in debt-id order. */
  lemma TickResult(created: seq<PenaltyDebt>)
    ensures multiset(SortBy(created, DebtIdLt())) == multiset(created)
    ensures Sorted(SortBy(created, DebtIdLt()), DebtIdLt())
  {
    ByKeyOrder((d: PenaltyDebt) => [d.id]);
    SortBySorted(created, DebtIdLt());
    SortByPermutes(created, DebtIdLt());
  }

  /** The date must parse and the timestamp be valid before a tick starts. */
  function TickDay(date: string, ts: string, tsValid: string -> bool): (r: Result<Date>)
    ensures r.Ok? <==> ParseDate(date).Ok? && tsValid(ts)
    ensures r.Err? ==> r.error == Usage
    ensures r.Ok? ==> ParseDate(date) == Ok(r.value) && Valid(r.value)
  {
    var day :- ParseDate(date);
    if tsValid(ts) then Ok(day) else Err(Usage)
  }

  /**
   * `tick`: on a date that parses and a valid timestamp, runs the habit loop
   * and returns the appended debts sorted by id.
   */
  method Tick(db: Db, date: string, ts: string, includeArchived: bool, tsValid: string -> bool)
    returns (r: Result<seq<PenaltyDebt>>)
    modifies db`penaltyDebts
    ensures r.Err? <==> TickDay(date, ts, tsValid).Err?
    ensures r.Err? ==> r.error == Usage && db.penaltyDebts == old(db.penaltyDebts)
    ensures r.Ok? ==>
      var created := Charges(db.habits, old(db.penaltyDebts), old(View(db, date, TickDay(date, ts, tsValid).value, ts, includeArchived)));
      db.penaltyDebts == old(db.penaltyDebts) + created && r.value == SortBy(created, DebtIdLt())
  {
    var day := TickDay(date, ts, tsValid);
    if day.Err? {
      return Err(day.error);
    }
    var v := View(db, date, day.value, ts, includeArchived);
    var created := ChargeHabits(db, v);
    r := Ok(SortBy(created, DebtIdLt()));
  }

  /** The habit loop of `tick`: each habit's charge is appended to the debt table as it is made. */
  method ChargeHabits(db: Db, v: TickView) returns (created: seq<PenaltyDebt>)
    modifies db`penaltyDebts
    ensures created == Charges(db.habits, old(db.penaltyDebts), v)
    ensures db.penaltyDebts == old(db.penaltyDebts) + created
  {
    var debts0 := db.penaltyDebts;
    created := [];
    for i := 0 to |db.habits|
      invariant created == Charges(db.habits[..i], debts0, v)
      invariant db.penaltyDebts == debts0 + created
    {
      assert db.habits[..i + 1][..i] == db.habits[..i];
      var c := Charge(db.habits[i], db.penaltyDebts, v);
      if c.Some? {
        db.penaltyDebts := db.penaltyDebts + [c.value];
        created := created + [c.value];
      }
    }
    assert db.habits[..|db.habits|] == db.habits;
  }

  /** The view `tick` builds is the view of its own date. */
  lemma TickViewOf(db: Db, date: string, ts: string, includeArchived: bool, tsValid: string -> bool)
    requires TickDay(date, ts, tsValid).Ok?
    ensures ViewOf(View(db, date, TickDay(date, ts, tsValid).value, ts, includeArchived))
  {
  }

  // ---------------------------------------------------------------------------
  // Outstanding debts
  // ---------------------------------------------------------------------------

  /** Unclosed and due on or before `date`, comparing the date texts. */
  predicate Outstanding(d: PenaltyDebt, actions: seq<PenaltyAction>, date: string) {
    !DebtClosed(actions, d.id) && LexLeq(d.dueDate, date)
  }

  /** The order of the outstanding list: due date, then habit, then debt id. */
  function OutstandingLt(): (PenaltyDebt, PenaltyDebt) -> bool {
    ByKey((d: PenaltyDebt) => [d.dueDate, d.habitId, d.id])
  }

  /** `outstanding_debts_as_of`: the date must parse; then the outstanding debts, sorted. */
  function OutstandingDebtsAsOf(debts: seq<PenaltyDebt>, actions: seq<PenaltyAction>, date: string): (r: Result<seq<PenaltyDebt>>)
    ensures r.Err? <==> ParseDate(date).Err?
    ensures r.Err? ==> r.error == Usage
    ensures r.Ok? ==> |r.value| <= |debts|
  {
    var day :- ParseDate(date);
    Ok(SortBy(Filter(debts, (d: PenaltyDebt) => Outstanding(d, actions, date)), OutstandingLt()))
  }

  /** The outstanding list holds exactly the unclosed debts due by the date, each as often as stored, in (due date, habit, id) order. */
  lemma OutstandingMeaning(debts: seq<PenaltyDebt>, actions: seq<PenaltyAction>, date: string, d: PenaltyDebt)
    requires OutstandingDebtsAsOf(debts, actions, date).Ok?
    ensures d in OutstandingDebtsAsOf(debts, actions, date).value <==> d in debts && Outstanding(d, actions, date)
    ensures multiset(OutstandingDebtsAsOf(debts, actions, date).value)[d] ==
      if Outstanding(d, actions, date) then multiset(debts)[d] else 0
    ensures Sorted(OutstandingDebtsAsOf(debts, actions, date).value, OutstandingLt())
  {
    var kept := Filter(debts, (d: PenaltyDebt) => Outstanding(d, actions, date));
    SortByPermutes(kept, OutstandingLt());
    FilterCount(debts, (d: PenaltyDebt) => Outstanding(d, actions, date), d);
    SortByMembers(kept, OutstandingLt(), d);
    ByKeyOrder((d: PenaltyDebt) => [d.dueDate, d.habitId, d.id]);
    SortBySorted(kept, OutstandingLt());
  }

  // ---------------------------------------------------------------------------
  // Resolving and voiding
  // ---------------------------------------------------------------------------

  function ActionWithId(id: string): PenaltyAction -> bool {
    (a: PenaltyAction) => a.id == id
  }

  /**
   * The outcome of `resolve_or_void` once its inputs are valid, with whether
   * an action is appended. The debt must exist (not found otherwise). An
   * action already stored under this action id, or else any action already
   * stored for the debt, is returned as it is; otherwise a new action.
   */
  function ActionLookup(
    debts: seq<PenaltyDebt>, actions: seq<PenaltyAction>, debtId: string, kind: PenaltyActionKind,
    date: string, ts: string, reason: string): (r: Result<(PenaltyAction, bool)>)
    ensures r.Err? <==> !HasDebtId(debts, debtId)
    ensures r.Err? ==> r.error == NotFound
    ensures r.Ok? && !r.value.1 ==> r.value.0 in actions
    ensures r.Ok? && r.value.1 ==> r.value.0 == PenaltyAction(ActionIdFor(debtId, kind), debtId, kind, date, ts, reason)
    ensures r.Ok? ==> (r.value.1 <==> !DebtClosed(actions, debtId) && FirstWhere(actions, ActionWithId(ActionIdFor(debtId, kind))).None?)
  {
    if !HasDebtId(debts, debtId) then Err(NotFound)
    else
      match FirstWhere(actions, ActionWithId(ActionIdFor(debtId, kind)))
      case Some(i) => Ok((actions[i], false))
      case None =>
        match FirstWhere(actions, ActionOn(debtId))
        case Some(j) => Ok((actions[j], false))
        case None => Ok((PenaltyAction(ActionIdFor(debtId, kind), debtId, kind, date, ts, reason), true))
  }

  /**
   * `resolve_or_void`'s outcome: the date must parse, the timestamp be valid
   * and the trimmed reason be non-empty (usage errors); then the lookup, with
   * the timestamp and reason trimmed.
   */
  function ActionFor(
    debts: seq<PenaltyDebt>, actions: seq<PenaltyAction>, debtId: string, kind: PenaltyActionKind,
    date: string, ts: string, reason: string, tsValid: string -> bool): (r: Result<(PenaltyAction, bool)>)
    ensures ParseDate(date).Err? || !tsValid(ts) || Trim(reason) == [] ==> r == Err(Usage)
    ensures ParseDate(date).Ok? && tsValid(ts) && Trim(reason) != [] ==>
      r == ActionLookup(debts, actions, debtId, kind, date, Trim(ts), Trim(reason))
  {
    if ParseDate(date).Err? || !tsValid(ts) || Trim(reason) == [] then Err(Usage)
    else ActionLookup(debts, actions, debtId, kind, date, Trim(ts), Trim(reason))
  }

  /** The action table after `resolve_or_void`. */
  function ActionsAfter(actions: seq<PenaltyAction>, r: Result<(PenaltyAction, bool)>): seq<PenaltyAction> {
    if r.Ok? && r.value.1 then actions + [r.value.0] else actions
  }

  /** `resolve_or_void`: appends at most one action and returns the action that closes the debt. */
  method ResolveOrVoid(
    db: Db, debtId: string, kind: PenaltyActionKind, date: string, ts: string, reason: string,
    tsValid: string -> bool) returns (r: Result<PenaltyAction>)
    modifies db`penaltyActions
    ensures var o := ActionFor(old(db.penaltyDebts), old(db.penaltyActions), debtId, kind, date, ts, reason, tsValid);
      r == (if o.Ok? then Ok(o.value.0) else Err(o.error))
    ensures db.penaltyActions ==
      ActionsAfter(old(db.penaltyActions), ActionFor(old(db.penaltyDebts), old(db.penaltyActions), debtId, kind, date, ts, reason, tsValid))
  {
    var o := ActionFor(db.penaltyDebts, db.penaltyActions, debtId, kind, date, ts, reason, tsValid);
    db.penaltyActions := ActionsAfter(db.penaltyActions, o);
    r := if o.Ok? then Ok(o.value.0) else Err(o.error);
  }

  /** Every stored action carries the id `action_id_for` gives its debt and kind. */
  predicate ActionsWellFormed(actions: seq<PenaltyAction>) {
    forall i :: 0 <= i < |actions| ==> actions[i].id == ActionIdFor(actions[i].debtId, actions[i].kind)
  }

  /** No debt has two actions. */
  predicate OneActionPerDebt(actions: seq<PenaltyAction>) {
    forall i, j :: 0 <= i < j < |actions| ==> actions[i].debtId != actions[j].debtId
  }

  /** On a well-formed table, the action returned is about the requested debt, and afterwards that debt is closed. */
  lemma ResolveCloses(
    debts: seq<PenaltyDebt>, actions: seq<PenaltyAction>, debtId: string, kind: PenaltyActionKind,
    date: string, ts: string, reason: string)
    requires ActionsWellFormed(actions)
    requires ActionLookup(debts, actions, debtId, kind, date, ts, reason).Ok?
    ensures ActionLookup(debts, actions, debtId, kind, date, ts, reason).value.0.debtId == debtId
    ensures DebtClosed(ActionsAfter(actions, ActionLookup(debts, actions, debtId, kind, date, ts, reason)), debtId)
  {
    var r := ActionLookup(debts, actions, debtId, kind, date, ts, reason);
    var after := ActionsAfter(actions, r);
    var a := r.value.0;
    if r.value.1 {
      assert after[|actions|] == a;
    } else {
      var i :| 0 <= i < |actions| && actions[i] == a;
      if a.debtId != debtId {
        assert a.id == ActionIdFor(debtId, kind);
        ActionIdsDistinct(a.debtId, a.kind, debtId, kind);
      }
      assert after[i] == a;
    }
  }

  /** `resolve_or_void` keeps actions well formed and at most one per debt. */
  lemma ResolveKeepsShape(
    debts: seq<PenaltyDebt>, actions: seq<PenaltyAction>, debtId: string, kind: PenaltyActionKind,
    date: string, ts: string, reason: string)
    requires ActionsWellFormed(actions) && OneActionPerDebt(actions)
    ensures var after := ActionsAfter(actions, ActionLookup(debts, actions, debtId, kind, date, ts, reason));
      ActionsWellFormed(after) && OneActionPerDebt(after)
  {
    var r := ActionLookup(debts, actions, debtId, kind, date, ts, reason);
    if r.Ok? && r.value.1 {
      var after := actions + [r.value.0];
      forall i, j | 0 <= i < j < |after| ensures after[i].debtId != after[j].debtId {
        if j == |actions| {
          assert after[i] == actions[i];
        } else {
          assert after[i] == actions[i] && after[j] == actions[j];
        }
      }
    }
  }

  /** Resolving or voiding again, with either kind, returns the same action and appends nothing. */
  lemma ResolveIdempotent(
    debts: seq<PenaltyDebt>, actions: seq<PenaltyAction>, debtId: string, kind: PenaltyActionKind,
    date: string, ts: string, reason: string,
    kind2: PenaltyActionKind, date2: string, ts2: string, reason2: string)
    requires ActionsWellFormed(actions) && OneActionPerDebt(actions)
    requires ActionLookup(debts, actions, debtId, kind, date, ts, reason).Ok?
    ensures var first := ActionLookup(debts, actions, debtId, kind, date, ts, reason);
      ActionLookup(debts, ActionsAfter(actions, first), debtId, kind2, date2, ts2, reason2) == Ok((first.value.0, false))
  {
    var first := ActionLookup(debts, actions, debtId, kind, date, ts, reason);
    var after := ActionsAfter(actions, first);
    ResolveCloses(debts, actions, debtId, kind, date, ts, reason);
    ResolveKeepsShape(debts, actions, debtId, kind, date, ts, reason);
    var a := first.value.0;
    assert a in after;
    var second := ActionLookup(debts, after, debtId, kind2, date2, ts2, reason2);
    assert second.Ok? && !second.value.1;
    ResolveCloses(debts, after, debtId, kind2, date2, ts2, reason2);
    ActionOfDebtUnique(after, a, second.value.0);
  }

  /** With at most one action per debt, two stored actions on the same debt are the same action. */
  lemma ActionOfDebtUnique(actions: seq<PenaltyAction>, a: PenaltyAction, b: PenaltyAction)
    requires OneActionPerDebt(actions) && a in actions && b in actions && a.debtId == b.debtId
    ensures a == b
  {
    var k :| 0 <= k < |actions| && actions[k] == a;
    var m :| 0 <= m < |actions| && actions[m] == b;
    assert k == m;
  }

  /** Once resolved or voided, a debt is never outstanding again. */
  lemma ResolvedNotOutstanding(
    debts: seq<PenaltyDebt>, actions: seq<PenaltyAction>, debtId: string, kind: PenaltyActionKind,
    date: string, ts: string, reason: string, asOf: string, d: PenaltyDebt)
    requires ActionsWellFormed(actions)
    requires ActionLookup(debts, actions, debtId, kind, date, ts, reason).Ok?
    requires d.id == debtId
    requires OutstandingDebtsAsOf(debts, ActionsAfter(actions, ActionLookup(debts, actions, debtId, kind, date, ts, reason)), asOf).Ok?
    ensures d !in OutstandingDebtsAsOf(debts, ActionsAfter(actions, ActionLookup(debts, actions, debtId, kind, date, ts, reason)), asOf).value
  {
    var after := ActionsAfter(actions, ActionLookup(debts, actions, debtId, kind, date, ts, reason));
    ResolveCloses(debts, actions, debtId, kind, date, ts, reason);
    OutstandingMeaning(debts, after, asOf, d);
  }
}
