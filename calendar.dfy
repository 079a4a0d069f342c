/**
 * Calendar engine: proleptic Gregorian dates, Howard Hinnant's day-number
 * conversion, ISO weekdays and ISO weeks.
 *
 * Rust's `/` on `i32` truncates toward zero; Dafny's `/` is Euclidean. The
 * conversions below spell the source's operator out as `Quot`, and the lemmas
 * relate it to Euclidean division where that is what the algorithm relies on.
 */
module Calendar {

  datatype Date = Date(y: int, m: int, d: int)

  /** Rust's truncating integer division for a positive divisor. */
  function Quot(a: int, b: int): (q: int)
    requires b > 0
    ensures a >= 0 ==> q == a / b
    ensures a < 0 ==> q == -((-a) / b)
  {
    if a >= 0 then a / b else -((-a) / b)
  }

  predicate IsLeapYear(y: int) {
    (y % 4 == 0 && y % 100 != 0) || y % 400 == 0
  }

  /** Rust's `%` on `i32` for a positive divisor: the remainder of truncating division, with the sign of `a`. */
  function Rem(a: int, b: int): (r: int)
    requires b > 0
    ensures -b < r < b && (a >= 0 ==> r >= 0) && (a < 0 ==> r <= 0)
  {
    if a >= 0 then a % b else -((-a) % b)
  }

  /**
   * The leap rule as `is_valid_date` writes it, with Rust's truncating `%`,
   * is `IsLeapYear` for every year, negative ones included.
   */
  lemma LeapYearAsWritten(y: int)
    ensures IsLeapYear(y) <==> (Rem(y, 4) == 0 && Rem(y, 100) != 0) || Rem(y, 400) == 0
  {
    RemZero4(y);
    RemZero100(y);
    RemZero400(y);
  }

  lemma RemZero4(a: int) ensures Rem(a, 4) == 0 <==> a % 4 == 0 {
    if a < 0 { NegatedMultiple(a, 4); }
  }
  lemma RemZero100(a: int) ensures Rem(a, 100) == 0 <==> a % 100 == 0 {
    if a < 0 { NegatedMultiple(a, 100); }
  }
  lemma RemZero400(a: int) ensures Rem(a, 400) == 0 <==> a % 400 == 0 {
    if a < 0 { NegatedMultiple(a, 400); }
  }

  /** A number is a multiple of `b` exactly when its negation is. */
  lemma NegatedMultiple(a: int, b: int)
    requires b > 0
    ensures (-a) % b == 0 <==> a % b == 0
  {
    if a % b == 0 {
      var k := a / b;
      assert a == b * k;
      assert -a == b * (-k);
      DivisibleBy(-a, b, -k);
    }
    if (-a) % b == 0 {
      var k := (-a) / b;
      assert -a == b * k;
      assert a == b * (-k);
      DivisibleBy(a, b, -k);
    }
  }

  lemma DivisibleBy(x: int, b: int, k: int)
    requires b > 0 && x == b * k
    ensures x % b == 0
  {
    var q, r := x / b, x % b;
    assert x == b * q + r && 0 <= r < b;
    assert b * (k - q) == r;
    if k - q >= 1 {
      assert false;
    } else if k - q <= -1 {
      assert false;
    }
  }

  function DaysInMonth(y: int, m: int): (n: int)
    requires 1 <= m <= 12
    ensures 28 <= n <= 31
    ensures m == 2 ==> (n == 29 <==> IsLeapYear(y))
  {
    if m == 1 || m == 3 || m == 5 || m == 7 || m == 8 || m == 10 || m == 12 then 31
    else if m == 4 || m == 6 || m == 9 || m == 11 then 30
    else if IsLeapYear(y) then 29 else 28
  }

  /** `is_valid_date`: month 1..12, day 1..days-in-month. */
  predicate IsValidDate(y: int, m: int, d: int) {
    1 <= m <= 12 && 1 <= d && d <= DaysInMonth(y, m)
  }

  predicate Valid(dt: Date) {
    IsValidDate(dt.y, dt.m, dt.d)
  }

  predicate AllValid(ds: seq<Date>) {
    forall i :: 0 <= i < |ds| ==> Valid(ds[i])
  }

  // ---------------------------------------------------------------------------
  // Hinnant's algorithm, as written in the source (day 0 = 1970-01-01)
  // ---------------------------------------------------------------------------

  /**
   * Day of the March-based year (March 1 is day 0) for month `m`, day `d`.
   * For a month in 1..12 and a positive day every operand is non-negative, so
   * Rust's division and Dafny's agree here.
   */
  function DayOfYear(m: int, d: int): int
    requires 1 <= m <= 12 && 1 <= d
  {
    var mp := m + (if m > 2 then -3 else 9);
    (153 * mp + 2) / 5 + d - 1
  }

  /** `days_from_civil`: days since 1970-01-01. Its callers pass only parsed, valid dates. */
  function DaysFromCivil(y0: int, m: int, d: int): int
    requires 1 <= m <= 12 && 1 <= d
  {
    var y := y0 - (if m <= 2 then 1 else 0);
    var era := Quot(if y >= 0 then y else y - 399, 400);
    var yoe := y - era * 400;
    var doy := DayOfYear(m, d);
    var doe := yoe * 365 + yoe / 4 - yoe / 100 + doy;
    era * 146097 + doe - 719468
  }

  /** Year of the era recovered from a day of the era (`doe` lies in [0, 146096]). */
  function YearOfEra(doe: int): int {
    (doe - doe / 1460 + doe / 36524 - doe / 146096) / 365
  }

  /**
   * `civil_from_days`. Only the era division can see a negative operand;
   * every later division works on a day of era in [0, 146096] and quantities
   * derived from it, all non-negative.
   */
  function CivilFromDays(z0: int): Date {
    var z := z0 + 719468;
    var era := Quot(if z >= 0 then z else z - 146096, 146097);
    var doe := z - era * 146097;
    var yoe := YearOfEra(doe);
    var y := yoe + era * 400;
    var doy := doe - (365 * yoe + yoe / 4 - yoe / 100);
    var mp := (5 * doy + 2) / 153;
    var d := doy - (153 * mp + 2) / 5 + 1;
    var m := mp + (if mp < 10 then 3 else -9);
    Date(y + (if m <= 2 then 1 else 0), m, d)
  }

  function DayNumber(dt: Date): int
    requires Valid(dt)
  {
    DaysFromCivil(dt.y, dt.m, dt.d)
  }

  // ---------------------------------------------------------------------------
  // Proof of the conversion identities
  // ---------------------------------------------------------------------------

  /** Days in the March-based year of era-year `yoe`: its February is in year yoe + 1. */
  function MarchYearLength(yoe: int): int {
    if IsLeapYear(yoe + 1) then 366 else 365
  }

  function DayOfEra(yoe: int, doy: int): int {
    365 * yoe + yoe / 4 - yoe / 100 + doy
  }

  /** The source's floor-division idiom `(if a >= 0 { a } else { a - (b-1) }) / b` is floor division. */
  lemma FloorIdiom(a: int, b: int)
    requires b == 400 || b == 146097
    ensures Quot(if a >= 0 then a else a - (b - 1), b) == a / b
  {
    if a < 0 {
      var q := a / b;
      var r := a % b;
      assert a == q * b + r && 0 <= r < b;
      assert -(a - (b - 1)) == (-q) * b + (b - 1 - r);
      assert (-(a - (b - 1))) / b == -q;
    }
  }

  /** Within one 400-year era, the day of era determines the year of era and the day of year. */
  lemma YearOfEraInverse(yoe: int, doy: int)
    requires 0 <= yoe <= 399 && 0 <= doy < MarchYearLength(yoe)
    ensures 0 <= DayOfEra(yoe, doy) <= 146096
    ensures YearOfEra(DayOfEra(yoe, doy)) == yoe
  {
    var c := yoe / 100;
    var q := (yoe % 100) / 4;
    var r := yoe % 4;
    YearOfEraSplit(yoe, c, q, r);
    EraQuotients(DayOfEra(yoe, doy), c, q, r, doy);
  }

  /** A year of era is centuries, four-year cycles and a remainder; its March-based year is leap in the last year of a cycle, except at the end of a century other than the fourth. */
  lemma YearOfEraSplit(yoe: int, c: int, q: int, r: int)
    requires 0 <= yoe <= 399 && c == yoe / 100 && q == (yoe % 100) / 4 && r == yoe % 4
    ensures 0 <= c <= 3 && 0 <= q <= 24 && 0 <= r <= 3
    ensures yoe == 100 * c + 4 * q + r && yoe / 4 == 25 * c + q && yoe / 100 == c
    ensures IsLeapYear(yoe + 1) <==> r == 3 && (q < 24 || c == 3)
  {
    LeapOfParts(c, q, r);
  }

  /** The year after `100 c + 4 q + r` is a leap year exactly at the end of a four-year cycle that does not close a plain century. */
  lemma LeapOfParts(c: int, q: int, r: int)
    requires 0 <= c <= 3 && 0 <= q <= 24 && 0 <= r <= 3
    ensures IsLeapYear(100 * c + 4 * q + r + 1) <==> r == 3 && (q < 24 || c == 3)
  {
    var y := 100 * c + 4 * q + r + 1;
    if r < 3 {
      assert y == 4 * (25 * c + q) + (r + 1);
      assert y % 4 == r + 1;
    } else if q < 24 {
      assert y == 100 * c + 4 * (q + 1);
      assert y % 100 == 4 * (q + 1);
      assert y % 4 == 0;
    } else {
      assert y == 100 * (c + 1);
      assert y % 400 == 0 <==> c == 3;
    }
  }

  /** The quotients `YearOfEra` takes of a day of era, written through its centuries, cycles and years. */
  lemma EraQuotients(doe: int, c: int, q: int, r: int, doy: int)
    requires 0 <= c <= 3 && 0 <= q <= 24 && 0 <= r <= 3
    requires 0 <= doy < (if r == 3 && (q < 24 || c == 3) then 366 else 365)
    requires doe == 36524 * c + 1461 * q + 365 * r + doy
    ensures 0 <= doe <= 146096
    ensures YearOfEra(doe) == 100 * c + 4 * q + r
  {
    var rest := 24 * c + q + 365 * r + doy;
    assert doe == 1460 * (25 * c + q) + rest;
    assert doe / 1460 == 25 * c + q + (if rest >= 1460 then 1 else 0);
    assert doe / 36524 == (if doe == 146096 then 4 else c);
    assert doe / 146096 == (if doe == 146096 then 1 else 0);
  }

  /** Every day of an era is reached by some (year of era, day of year). */
  lemma DayOfEraSurjective(doe: int) returns (yoe: int, doy: int)
    requires 0 <= doe <= 146096
    ensures 0 <= yoe <= 399 && 0 <= doy < MarchYearLength(yoe)
    ensures doe == DayOfEra(yoe, doy)
  {
    if doe == 146096 {
      yoe, doy := 399, 365;
    } else {
      var c := doe / 36524;
      var e := doe % 36524;
      var q := e / 1461;
      var g := e % 1461;
      var r := if g / 365 > 3 then 3 else g / 365;
      doy := g - 365 * r;
      yoe := 100 * c + 4 * q + r;
      assert yoe / 4 == 25 * c + q;
      assert yoe / 100 == c;
      LeapOfParts(c, q, r);
    }
  }

  /** The month part: March-based month index and day are recovered from the day of year. */
  lemma MonthInverse(m: int, d: int, leap: bool)
    requires 1 <= m <= 12 && 1 <= d
    requires d <= (if m == 2 then (if leap then 29 else 28) else DaysInMonth(2001, m))
    ensures var doy := DayOfYear(m, d);
      && 0 <= doy < (if leap then 366 else 365)
      && (m <= 2 ==> doy >= 306)
      && (m > 2 ==> doy < 306)
      && var mp := (5 * doy + 2) / 153;
      && mp == m + (if m > 2 then -3 else 9)
      && doy - (153 * mp + 2) / 5 + 1 == d
  {
  }

  lemma MonthSurjective(doy: int, leap: bool)
    requires 0 <= doy < (if leap then 366 else 365)
    ensures var mp := (5 * doy + 2) / 153;
      && 0 <= mp <= 11
      && var m := mp + (if mp < 10 then 3 else -9);
      && var d := doy - (153 * mp + 2) / 5 + 1;
      && 1 <= m <= 12 && 1 <= d
      && d <= (if m == 2 then (if leap then 29 else 28) else DaysInMonth(2001, m))
      && DayOfYear(m, d) == doy
  {
  }

  lemma ModShift4(x: int, j: int) ensures (x + 4 * j) % 4 == x % 4 {}
  lemma ModShift100(x: int, j: int) ensures (x + 100 * j) % 100 == x % 100 {}
  lemma ModShift400(x: int, j: int) ensures (x + 400 * j) % 400 == x % 400 {}
  lemma DivShift400(x: int, j: int) requires 0 <= x < 400 ensures (x + 400 * j) / 400 == j {}
  lemma DivShiftEra(x: int, j: int) requires 0 <= x < 146097 ensures (x + 146097 * j) / 146097 == j {}

  /** Leap years repeat every 400 years. */
  lemma LeapPeriodic(y: int, k: int)
    ensures IsLeapYear(y + 400 * k) == IsLeapYear(y)
  {
    assert 400 * k == 4 * (100 * k) == 100 * (4 * k);
    ModShift4(y, 100 * k);
    ModShift100(y, 4 * k);
    ModShift400(y, k);
  }

  /** The date `civil_from_days` assembles from era, year of era and day of year. */
  ghost function DateOfEraDay(era: int, yoe: int, doy: int): Date {
    var mp := (5 * doy + 2) / 153;
    var m := mp + (if mp < 10 then 3 else -9);
    Date(yoe + era * 400 + (if m <= 2 then 1 else 0), m, doy - (153 * mp + 2) / 5 + 1)
  }

  /** `civil_from_days` on the day `doe` of era `era`, with year of era and day of year known. */
  lemma CivilOfEraDay(z0: int, era: int, yoe: int, doy: int)
    requires 0 <= yoe <= 399 && 0 <= doy < MarchYearLength(yoe)
    requires z0 == era * 146097 + DayOfEra(yoe, doy) - 719468
    ensures CivilFromDays(z0) == DateOfEraDay(era, yoe, doy)
  {
    var doe := DayOfEra(yoe, doy);
    YearOfEraInverse(yoe, doy);
    DivShiftEra(doe, era);
    var z := z0 + 719468;
    assert z / 146097 == era && z % 146097 == doe;
    CivilParts(z0);
  }

  /** `civil_from_days` splits its day into the floor era and the day of that era. */
  lemma CivilParts(z0: int)
    ensures var z := z0 + 719468;
      var yoe := YearOfEra(z % 146097);
      CivilFromDays(z0) == DateOfEraDay(z / 146097, yoe, z % 146097 - (365 * yoe + yoe / 4 - yoe / 100))
  {
    FloorIdiom(z0 + 719468, 146097);
  }

  /** `days_from_civil` of a date whose March-based year is `yoe` of era `era`. */
  lemma DaysOfEraYear(era: int, yoe: int, m: int, d: int)
    requires 0 <= yoe <= 399 && 1 <= m <= 12 && 1 <= d
    ensures DaysFromCivil(yoe + era * 400 + (if m <= 2 then 1 else 0), m, d)
      == era * 146097 + DayOfEra(yoe, DayOfYear(m, d)) - 719468
  {
    var y := yoe + era * 400;
    FloorIdiom(y, 400);
    DivShift400(yoe, era);
  }

  /** The assembled date is valid and `days_from_civil` maps it back to its day number. */
  lemma EraDayDateValid(era: int, yoe: int, doy: int)
    requires 0 <= yoe <= 399 && 0 <= doy < MarchYearLength(yoe)
    ensures Valid(DateOfEraDay(era, yoe, doy))
    ensures DayNumber(DateOfEraDay(era, yoe, doy)) == era * 146097 + DayOfEra(yoe, doy) - 719468
  {
    var leap := IsLeapYear(yoe + 1);
    MonthSurjective(doy, leap);
    var dt := DateOfEraDay(era, yoe, doy);
    LeapPeriodic(yoe + 1, era);
    assert Valid(dt);
    DaysOfEraYear(era, yoe, dt.m, dt.d);
  }

  /** A valid date splits into era, year of era and day of year, from which it is reassembled. */
  lemma EraDecompose(dt: Date) returns (era: int, yoe: int)
    requires Valid(dt)
    ensures 0 <= yoe <= 399
    ensures dt.y == yoe + era * 400 + (if dt.m <= 2 then 1 else 0)
    ensures 0 <= DayOfYear(dt.m, dt.d) < MarchYearLength(yoe)
    ensures DateOfEraDay(era, yoe, DayOfYear(dt.m, dt.d)) == dt
  {
    var Date(y0, m, d) := dt;
    var y := y0 - (if m <= 2 then 1 else 0);
    era := y / 400;
    yoe := y % 400;
    LeapPeriodic(yoe + 1, era);
    var leap := IsLeapYear(yoe + 1);
    assert m <= 2 ==> (IsLeapYear(y0) <==> leap);
    MonthInverse(m, d, leap);
  }

  /** `days_from_civil` then `civil_from_days` gives back every valid date. */
  lemma CivilRoundTrip(dt: Date)
    requires Valid(dt)
    ensures CivilFromDays(DayNumber(dt)) == dt
  {
    var era, yoe := EraDecompose(dt);
    DaysOfEraYear(era, yoe, dt.m, dt.d);
    CivilOfEraDay(DayNumber(dt), era, yoe, DayOfYear(dt.m, dt.d));
  }

  /** `civil_from_days` yields a valid date, and `days_from_civil` maps it back to the same day number. */
  lemma DaysRoundTrip(z0: int)
    ensures Valid(CivilFromDays(z0))
    ensures DayNumber(CivilFromDays(z0)) == z0
  {
    var z := z0 + 719468;
    var era := z / 146097;
    var doe := z % 146097;
    var yoe, doy := DayOfEraSurjective(doe);
    assert z0 == era * 146097 + DayOfEra(yoe, doy) - 719468;
    CivilOfEraDay(z0, era, yoe, doy);
    EraDayDateValid(era, yoe, doy);
  }

  // ---------------------------------------------------------------------------
  // Closed form of the day number and chronological order
  // ---------------------------------------------------------------------------

  /** Leap days from year 1 up to and including year `x` (shifted by a constant for negative years). */
  function LeapDays(x: int): int {
    x / 4 - x / 100 + x / 400
  }

  lemma DivStep4(y: int) ensures y / 4 - (y - 1) / 4 == if y % 4 == 0 then 1 else 0 {}
  lemma DivStep100(y: int) ensures y / 100 - (y - 1) / 100 == if y % 100 == 0 then 1 else 0 {}
  lemma DivStep400(y: int) ensures y / 400 - (y - 1) / 400 == if y % 400 == 0 then 1 else 0 {}
  lemma ModNest(y: int) ensures y % 400 == 0 ==> y % 100 == 0 ensures y % 100 == 0 ==> y % 4 == 0 {}

  /** Each year adds one leap day exactly when it is a leap year. */
  lemma LeapDaysStep(y: int)
    ensures LeapDays(y) - LeapDays(y - 1) == if IsLeapYear(y) then 1 else 0
  {
    DivStep4(y);
    DivStep100(y);
    DivStep400(y);
    ModNest(y);
  }

  lemma EraSplit(era: int, yoe: int)
    requires 0 <= yoe < 400
    ensures (400 * era + yoe) / 4 == 100 * era + yoe / 4
    ensures (400 * era + yoe) / 100 == 4 * era + yoe / 100
    ensures (400 * era + yoe) / 400 == era
  {
  }

  /** `days_from_civil` in closed form: 365 days a year plus the leap days before the March-based year. */
  lemma DaysFromCivilClosedForm(y0: int, m: int, d: int)
    requires 1 <= m <= 12 && 1 <= d
    ensures var y := y0 - (if m <= 2 then 1 else 0);
      DaysFromCivil(y0, m, d) == 365 * y + LeapDays(y) + DayOfYear(m, d) - 719468
  {
    var y := y0 - (if m <= 2 then 1 else 0);
    FloorIdiom(y, 400);
    var era := y / 400;
    var yoe := y % 400;
    assert y == 400 * era + yoe;
    EraSplit(era, yoe);
  }

  lemma DayOfYearStep(y: int, m: int)
    requires 1 <= m <= 11 && m != 2
    ensures DayOfYear(m + 1, 1) == DayOfYear(m, 1) + DaysInMonth(y, m)
  {
  }

  /** The first day of the next month is `DaysInMonth` days after the first of this one. */
  lemma MonthStep(y: int, m: int)
    requires 1 <= m <= 11
    ensures DaysFromCivil(y, m + 1, 1) == DaysFromCivil(y, m, 1) + DaysInMonth(y, m)
  {
    if m == 2 {
      FebruaryStep(y);
    } else {
      var yy := if m == 1 then y - 1 else y;
      DaysFromCivilClosedForm(y, m, 1);
      DaysFromCivilClosedForm(y, m + 1, 1);
      DayOfYearStep(y, m);
      assert DaysFromCivil(y, m, 1) == 365 * yy + LeapDays(yy) + DayOfYear(m, 1) - 719468;
      assert DaysFromCivil(y, m + 1, 1) == 365 * yy + LeapDays(yy) + DayOfYear(m + 1, 1) - 719468;
    }
  }

  /** March 1 follows February 1 by the length of February. */
  lemma FebruaryStep(y: int)
    ensures DaysFromCivil(y, 3, 1) == DaysFromCivil(y, 2, 1) + DaysInMonth(y, 2)
  {
    DaysFromCivilClosedForm(y, 2, 1);
    DaysFromCivilClosedForm(y, 3, 1);
    LeapDaysStep(y);
    assert DayOfYear(2, 1) == 337 && DayOfYear(3, 1) == 0;
  }

  lemma YearStep(y: int)
    ensures DaysFromCivil(y + 1, 1, 1) == DaysFromCivil(y, 12, 1) + 31
  {
    DaysFromCivilClosedForm(y, 12, 1);
    DaysFromCivilClosedForm(y + 1, 1, 1);
    assert DayOfYear(12, 1) == 275 && DayOfYear(1, 1) == 306;
  }

  /** Day number of the first day of month index `k = 12 * year + (month - 1)`. */
  function MonthStart(k: int): int {
    DaysFromCivil(k / 12, k % 12 + 1, 1)
  }

  lemma MonthStartStep(k: int)
    ensures MonthStart(k + 1) == MonthStart(k) + DaysInMonth(k / 12, k % 12 + 1)
  {
    if k % 12 == 11 {
      assert (k + 1) / 12 == k / 12 + 1 && (k + 1) % 12 == 0;
      YearStep(k / 12);
    } else {
      assert (k + 1) / 12 == k / 12 && (k + 1) % 12 == k % 12 + 1;
      MonthStep(k / 12, k % 12 + 1);
    }
  }

  /** A sequence that grows by at least `step` at every index grows by `step * n` over `n` indices. */
  lemma {:induction false} SteadyGrowth(f: int -> int, step: int, k: int, n: nat)
    requires forall j :: f(j + 1) >= f(j) + step
    ensures f(k + n) >= f(k) + step * n
  {
    if n > 0 {
      SteadyGrowth(f, step, k, n - 1);
      assert f(k + n) >= f(k + n - 1) + step;
    }
  }

  /** Months are at least 28 days long, so month starts grow with the month index. */
  lemma MonthStartGrowth(k: int, n: nat)
    ensures MonthStart(k + n) >= MonthStart(k) + 28 * n
  {
    forall j ensures MonthStart(j + 1) >= MonthStart(j) + 28 {
      MonthStartStep(j);
    }
    SteadyGrowth(MonthStart, 28, k, n);
  }

  lemma DayNumberInMonth(dt: Date)
    requires Valid(dt)
    ensures DayNumber(dt) == MonthStart(12 * dt.y + dt.m - 1) + dt.d - 1
  {
    var k := 12 * dt.y + dt.m - 1;
    assert k / 12 == dt.y && k % 12 + 1 == dt.m;
    DaysFromCivilClosedForm(dt.y, dt.m, dt.d);
    DaysFromCivilClosedForm(dt.y, dt.m, 1);
  }

  /** Calendar order: by year, then month, then day. */
  predicate DateLt(a: Date, b: Date) {
    a.y < b.y || (a.y == b.y && (a.m < b.m || (a.m == b.m && a.d < b.d)))
  }

  predicate DateLe(a: Date, b: Date) {
    a == b || DateLt(a, b)
  }

  /** A later month starts after every day of an earlier month. */
  lemma MonthStartAfter(ka: int, kb: int)
    requires ka < kb
    ensures MonthStart(kb) >= MonthStart(ka) + DaysInMonth(ka / 12, ka % 12 + 1)
  {
    MonthStartStep(ka);
    forall j ensures MonthStart(j + 1) >= MonthStart(j) + 28 {
      MonthStartStep(j);
    }
    StepThenGrow(MonthStart, DaysInMonth(ka / 12, ka % 12 + 1), ka, kb);
  }

  /** One step of `d`, then steps of at least 28, add up to at least `d`. */
  lemma StepThenGrow(f: int -> int, d: int, ka: int, kb: int)
    requires ka < kb
    requires f(ka + 1) == f(ka) + d
    requires forall j :: f(j + 1) >= f(j) + 28
    ensures f(kb) >= f(ka) + d
  {
    SteadyGrowth(f, 28, ka + 1, kb - ka - 1);
  }

  lemma DateLtDayNumberForward(a: Date, b: Date)
    requires Valid(a) && Valid(b) && DateLt(a, b)
    ensures DayNumber(a) < DayNumber(b)
  {
    if a.y == b.y && a.m == b.m {
      DayLtSameMonth(a, b);
    } else {
      DayLtLaterMonth(a, b);
    }
  }

  lemma DayLtSameMonth(a: Date, b: Date)
    requires Valid(a) && Valid(b) && a.y == b.y && a.m == b.m && a.d < b.d
    ensures DayNumber(a) < DayNumber(b)
  {
    DayNumberInMonth(a);
    DayNumberInMonth(b);
  }

  lemma DayLtLaterMonth(a: Date, b: Date)
    requires Valid(a) && Valid(b)
    requires a.y < b.y || (a.y == b.y && a.m < b.m)
    ensures DayNumber(a) < DayNumber(b)
  {
    var ka, kb := 12 * a.y + a.m - 1, 12 * b.y + b.m - 1;
    assert ka < kb;
    DayBeforeMonthStart(a, kb);
    MonthStartAtMost(b, kb);
    Between(DayNumber(a), MonthStart(kb), DayNumber(b));
  }

  lemma Between(x: int, y: int, z: int)
    requires x < y <= z
    ensures x < z
  {
  }

  lemma DayBeforeMonthStart(a: Date, kb: int)
    requires Valid(a) && 12 * a.y + a.m - 1 < kb
    ensures DayNumber(a) < MonthStart(kb)
  {
    DayNumberInMonth(a);
    MonthEndsBefore(a.y, a.m, kb);
  }

  lemma MonthStartAtMost(b: Date, kb: int)
    requires Valid(b) && kb == 12 * b.y + b.m - 1
    ensures MonthStart(kb) <= DayNumber(b)
  {
    DayNumberInMonth(b);
  }

  /** The month after month `m` of year `y`, or any later one, starts after all its days. */
  lemma MonthEndsBefore(y: int, m: int, kb: int)
    requires 1 <= m <= 12 && 12 * y + m - 1 < kb
    ensures MonthStart(kb) >= MonthStart(12 * y + m - 1) + DaysInMonth(y, m)
  {
    var ka := 12 * y + m - 1;
    assert DaysInMonth(ka / 12, ka % 12 + 1) == DaysInMonth(y, m) by {
      MonthIndexParts(y, m, ka);
    }
    MonthStartAfter(ka, kb);
  }

  lemma MonthIndexParts(y: int, m: int, k: int)
    requires 1 <= m <= 12 && k == 12 * y + m - 1
    ensures k / 12 == y && k % 12 + 1 == m
  {
  }

  /** On valid dates calendar order is day-number order, and equal day numbers mean equal dates. */
  lemma DateOrderIsDayOrder(a: Date, b: Date)
    requires Valid(a) && Valid(b)
    ensures DateLt(a, b) <==> DayNumber(a) < DayNumber(b)
    ensures a == b <==> DayNumber(a) == DayNumber(b)
  {
    if DateLt(a, b) {
      DateLtDayNumberForward(a, b);
    } else if DateLt(b, a) {
      DateLtDayNumberForward(b, a);
    } else {
      assert a == b;
    }
  }
}
