/**
 * The store record every command loads, changes in place and writes back:
 * habits, check-ins, declarations, excuses and the penalty tables, plus the
 * counters that number new records. Dates inside records are kept as the
 * text the user gave, exactly as the program stores them.
 */
module Store {
  import opened Errors
  import opened Text
  import opened Schedules

  const U32Max: int := 4294967295

  /** Rust's `u32`. */
  type U32 = n: int | 0 <= n <= U32Max

  /** `u32::saturating_add`. */
  function SatAdd(a: U32, b: U32): (r: U32)
    ensures a + b <= U32Max ==> r == a + b
    ensures a + b > U32Max ==> r == U32Max
  {
    if a + b <= U32Max then a + b else U32Max
  }

  /** `u32::saturating_sub`. */
  function SatSub(a: U32, b: U32): (r: U32)
    ensures b <= a ==> r == a - b
    ensures a < b ==> r == 0
  {
    if b <= a then a - b else 0
  }

  /** `u32::saturating_mul`. */
  function SatMul(a: U32, b: U32): (r: U32)
    ensures a * b <= U32Max ==> r == a * b
    ensures a * b > U32Max ==> r == U32Max
  {
    if a * b <= U32Max then a * b else U32Max
  }

  /** `as u32` on a count: wraps around modulo 2^32. */
  function WrapU32(n: nat): (r: U32)
    ensures n <= U32Max ==> r == n
  {
    if n <= U32Max then n else WrapU32(n - (U32Max + 1))
  }

  /** The wrap is the remainder modulo 2^32. */
  lemma {:induction false} WrapU32Mod(n: nat)
    ensures WrapU32(n) == n % (U32Max + 1)
  {
    if n > U32Max {
      WrapU32Mod(n - (U32Max + 1));
    }
  }

  function Max(a: U32, b: U32): U32 { if a >= b then a else b }
  function Min(a: U32, b: U32): U32 { if a <= b then a else b }

  /** A habit's goal: `quantity` per "day" or per "week". */
  datatype Target = Target(period: string, quantity: U32)

  datatype Habit = Habit(
    id: string,
    name: string,
    schedule: Schedule,
    target: Target,
    notes: Option<string>,
    archived: bool,
    createdDate: string,
    archivedDate: Option<string>,
    needsDeclaration: bool,
    excuseQuotaPerWeek: U32)

  datatype Checkin = Checkin(habitId: string, date: string, quantity: U32)

  datatype Declaration = Declaration(id: string, habitId: string, date: string, ts: string, text: string)

  datatype ExcuseKind = Allowed | Denied

  datatype Excuse = Excuse(id: string, habitId: string, date: string, ts: string, kind: ExcuseKind, reason: string)

  datatype PenaltyRule = PenaltyRule(
    id: string,
    habitId: string,
    multiplier: U32,
    cap: U32,
    deadlineDays: U32,
    armedDate: string,
    armedTs: string)

  datatype PenaltyDebt = PenaltyDebt(
    id: string,
    habitId: string,
    triggerDate: string,
    dueDate: string,
    quantity: U32,
    ruleId: string,
    createdDate: string,
    createdTs: string)

  datatype PenaltyActionKind = Resolve | Void

  datatype PenaltyAction = PenaltyAction(
    id: string,
    debtId: string,
    kind: PenaltyActionKind,
    date: string,
    ts: string,
    reason: string)

  /** The store. Commands change its tables and counters in place. */
  class Db {
    var version: int
    var nextHabitNumber: nat
    var nextDeclarationNumber: nat
    var nextExcuseNumber: nat
    var nextPenaltyRuleNumber: nat
    var habits: seq<Habit>
    var checkins: seq<Checkin>
    var declarations: seq<Declaration>
    var excuses: seq<Excuse>
    var penaltyRules: seq<PenaltyRule>
    var penaltyDebts: seq<PenaltyDebt>
    var penaltyActions: seq<PenaltyAction>

    /** The shape check a store must pass when it is read and before it is written back. */
    predicate ValidShape()
      reads this`version, this`nextHabitNumber, this`nextDeclarationNumber
      reads this`nextExcuseNumber, this`nextPenaltyRuleNumber
    {
      && version == 1
      && nextHabitNumber >= 1
      && nextDeclarationNumber >= 1
      && nextExcuseNumber >= 1
      && nextPenaltyRuleNumber >= 1
    }

    /** The empty store a first command starts from. */
    constructor ()
      ensures ValidShape()
      ensures nextHabitNumber == 1 && nextDeclarationNumber == 1
      ensures nextExcuseNumber == 1 && nextPenaltyRuleNumber == 1
      ensures habits == [] && checkins == [] && declarations == [] && excuses == []
      ensures penaltyRules == [] && penaltyDebts == [] && penaltyActions == []
    {
      version := 1;
      nextHabitNumber := 1;
      nextDeclarationNumber := 1;
      nextExcuseNumber := 1;
      nextPenaltyRuleNumber := 1;
      habits := [];
      checkins := [];
      declarations := [];
      excuses := [];
      penaltyRules := [];
      penaltyDebts := [];
      penaltyActions := [];
    }
  }

  /** A record id: a letter prefix and a counter zero-padded to `width` digits. */
  function NumberedId(prefix: string, n: nat, width: nat): string {
    prefix + ZeroPad(n, width)
  }

  /** Distinct counters give distinct ids under one prefix. */
  lemma NumberedIdInjective(prefix: string, a: nat, b: nat, width: nat)
    ensures NumberedId(prefix, a, width) == NumberedId(prefix, b, width) <==> a == b
  {
    var x, y := NumberedId(prefix, a, width), NumberedId(prefix, b, width);
    if x == y {
      assert ZeroPad(a, width) == x[|prefix|..] == y[|prefix|..] == ZeroPad(b, width);
    }
  }
}
