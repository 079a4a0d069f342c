# Habit tracker rules engine, in Dafny

This project models the rules engine of a command-line habit tracker, whose
state lives in one JSON store. The model covers these parts of the engine:

- **Dates and weeks.** Proleptic-Gregorian date arithmetic on `YYYY-MM-DD`
  texts, ISO weekdays, ISO week start, end and label, and inclusive date ranges.
- **Schedules.** Weekday patterns: the keywords `everyday`, `weekdays` and
  `weekends`, or comma-separated day names.
- **Habits.** Creation, listing, selection by id or by name prefix, archiving,
  and the "scheduled on" test.
- **Check-ins.** Quantities per habit and day.
- **Declarations.** A gated habit counts a day only after a declaration for
  that day.
- **Excuses.** A weekly quota of allowed excuses.
- **Penalties.** Rules, the daily tick that charges debts, and
  resolving or voiding a debt.
- **Reports.** Streaks and success counts per day or per ISO week, the
  status and due views, and the ranked recap.
- **Export.** CSV escaping and the export's header and record lines.

Every module is one file, and the files follow the source modules:

| module | file | models |
|---|---|---|
| `Errors` | errors.dfy | error kinds and exit codes, `Result` and `Outcome` |
| `Text` | text.dfy | trimming, lowercasing, splitting and joining, decimal printing and parsing, byte-wise string order |
| `Calendar` | calendar.dfy | the civil-day algorithms and calendar order |
| `Dates` | dates.dfy | parsing and printing dates, day arithmetic, ISO weeks, ranges |
| `Sorting` | sorting.dfy | one stable sort, used wherever the source calls `sort_by` |
| `Schedules` | schedule.dfy | parsing, printing and validating schedules |
| `Store` | store.dfy | the store object (`class Db`) and the `u32` operations |
| `Habits`, `Checkins`, `Declarations`, `Completion`, `Excuses`, `Penalty`, `Stats`, `Status`, `Due`, `Recap`, `Export` | one file each | the module of the same name |

State changes in place, as in the source. `Store.Db` has one `seq` field per
table and the four id counters. Every command that writes is a method over a
`Db` that modifies only the fields it writes. Its `ensures` ties the new state to a
pure function of the old state, and lemmas about that function carry the
meaning.

Loops stay loops: stats streaks, week sums, week ranges, the loops of
status, due and recap, the penalty tick and the export lines are methods
with `for` or `while` loops and their invariants.

Date texts are compared as the source compares them. `date_range_inclusive`,
`week_range_inclusive`, the week sums and the creation-date checks compare
the raw texts byte by byte (`Text.LexLess`), after checking that the texts
parse. The commands pass the texts on as typed, so a text with surrounding
spaces, a `+` sign or a negative year takes part in the comparison as it is.
The calendar order (`Calendar.DateLt`) is modelled beside it as the intended
behaviour, and lemmas connect the two:

- `Dates.TextRange` is the range as written and `Dates.DayRange` the range as
  intended. `Dates.TextRangePrinted` proves that they agree on printed dates
  of years 0 to 9999. `Dates.TextRangeNegativeYears` and
  `Dates.TextRangeTrailingSpace` show inputs where they part.
- `Stats.WeekStarts` is the week loop as written and `Stats.WeekRange` the
  intended range. `Stats.WeekStartsPrinted` proves that they agree for years
  0 to 9999 away from the last week of 9999, and `Stats.WeekStartsLastWeek`
  shows that last week.

Rust's truncating `/` and `%` are modelled explicitly (`Calendar.Quot`,
`Calendar.Rem`). Rust's saturating `u32` operations and its `as u32`
wrap-around are modelled in `Store`.

## Model

| member | source | states |
|---|---|---|
| Errors.ExitCode | src/error.rs:10-24 | usage, not-found, ambiguous and I/O errors exit with 2, 3, 4 and 5, and each code belongs to exactly one kind |
| Errors.CollectAll | src/stats.rs:203-212 | a loop that stops at the first `?` error succeeds iff every element succeeds, and then holds each element's value in order |
| Text.Trim | src/date.rs:69 | `str::trim`: never longer than its input, neither starts nor ends with whitespace, and is empty exactly when the input is all whitespace |
| Text.TrimInfix | src/date.rs:69 | what trimming keeps is a contiguous part of the input with only whitespace before and after it |
| Text.TrimIdempotent | src/schedule.rs:34 | trimming twice is trimming once |
| Text.LowerChar | src/schedule.rs:34 | `to_lowercase` on one character: A to Z move to a to z, the KELVIN SIGN becomes 'k', and every other character is kept |
| Text.Lower | src/schedule.rs:34 | lowercasing keeps the length and lowercases each character in place |
| Text.LowerIdempotent | src/habits.rs:28 | lowercasing twice is lowercasing once |
| Text.LexLessIrreflexive | src/date.rs:116 | no text sorts before itself |
| Text.LexLessTransitive | src/date.rs:116 | text order is transitive |
| Text.LexLessTotal | src/date.rs:116 | of two different texts, one sorts before the other |
| Text.LexLessAsymmetric | src/date.rs:116 | two texts never sort before each other |
| Text.LexLessExtension | src/date.rs:116 | a text sorts before every longer text it begins |
| Text.TrimTrailingSpace | src/date.rs:69 | a trailing space is trimmed away from a text without surrounding whitespace |
| Calendar.DaysInMonth | src/date.rs:19-27 | every month has 28 to 31 days, and February has 29 exactly in a leap year |
| Calendar.Rem | src/date.rs:23 | Rust's truncating `%`: the remainder lies strictly between `-b` and `b` and has the sign of the dividend |
| Calendar.LeapYearAsWritten | src/date.rs:23 | the leap-year test with Rust's `%` agrees with the model's test for every year, negative ones included |
| Calendar.Quot | src/date.rs:37 | Rust division truncates toward zero: floor division for non-negative operands, negated floor of the negation otherwise |
| Calendar.FloorIdiom | src/date.rs:37 | the source's `if y >= 0 { y } else { y - 399 } / 400` idiom, and the era idiom of `civil_from_days`, compute floor division |
| Calendar.CivilRoundTrip | src/date.rs:33-62 | `civil_from_days(days_from_civil(d))` gives back every valid date |
| Calendar.DaysRoundTrip | src/date.rs:33-62 | `civil_from_days` yields a valid date for every day number, and `days_from_civil` maps it back to the same number |
| Calendar.DaysFromCivilClosedForm | src/date.rs:33-43 | `days_from_civil` counts 365 days per year plus the leap days before the date's March-based year |
| Calendar.MonthStep | src/date.rs:33-43 | the first of the next month is `DaysInMonth` days after the first of this month |
| Calendar.LeapDaysStep | src/date.rs:23 | the leap-day count grows by one exactly at the leap years |
| Calendar.LeapOfParts | src/date.rs:23 | within an era, the year after `100 c + 4 q + r` is a leap year exactly when r = 3 and the cycle does not close a plain century |
| Calendar.DateOrderIsDayOrder | src/date.rs:4-9 | on valid dates, (year, month, day) order is day-number order, and equal day numbers mean equal dates |
| Dates.ParseDate | src/date.rs:68-93 | a successful parse is a valid date with a four-character year, read from a trimmed 10-character text with '-' at positions 4 and 7; every failure is a usage error |
| Dates.ParseFormatRoundTrip | src/date.rs:64-93 | parsing the printed form of a date with a year from -999 to 9999 gives back the date |
| Dates.ParseFormatLongYear | src/date.rs:64-93 | a date whose year prints in more than four characters does not parse back |
| Dates.LongPrintedNoParse | src/date.rs:64-93 | text laid out as a date whose year field has five or more characters never parses |
| Dates.FormatOrder | src/date.rs:64-66 | for years 0 to 9999, comparing printed dates as texts is comparing the dates, and equal texts are equal dates |
| Dates.FormatNotBefore | src/date.rs:116 | for years 0 to 9999, "printed `a` is not before printed `b`" means `b` is on or before `a` |
| Dates.ParseLeapDayTest | src/date.rs:182 | "2024-02-29" parses to February 29, 2024 |
| Dates.ParseRejectsLeapDay | src/date.rs:181 | "2026-02-29" is rejected |
| Dates.ParseRejectsMonth13 | src/date.rs:183 | "2026-13-01" is rejected |
| Dates.TextOrderNegativeYears | src/date.rs:116 | the printed text of year -1 sorts before that of year -2, although year -2 is earlier |
| Dates.ParseNegativeYear | src/date.rs:78-80 | the parser accepts "-002-01-01" as January 1 of year -2 |
| Dates.AddDays | src/date.rs:100-104 | the result is a valid date exactly `k` day numbers later |
| Dates.AddDaysInverse | src/date.rs:100-104 | moving by `k` days and then by `-k` days returns to the start |
| Dates.AddDaysZero | src/date.rs:100-104 | moving by zero days changes nothing |
| Dates.Epoch | src/date.rs:32-62 | day number 0 is 1970-01-01 |
| Dates.IsoWeekday | src/date.rs:106-111 | the weekday is between 1 (Monday) and 7 (Sunday) |
| Dates.IsoWeekdayNext | src/date.rs:107-111 | the next day has the next weekday, and Sunday is followed by Monday |
| Dates.IsoWeekdayPeriod | src/date.rs:107-111 | two dates share a weekday iff their day numbers differ by a multiple of seven |
| Dates.IsoWeekStart | src/date.rs:134-137 | the week start is a Monday, on or at most six days before the date |
| Dates.IsoWeekEnd | src/date.rs:139-142 | the week end is the Sunday six days after the week start, on or after the date |
| Dates.IsoWeekStartSame | src/date.rs:134-137 | every date of one ISO week has the same week start |
| Dates.WeekOfWeekStart | src/date.rs:134-142 | a week start is its own week start and has the same week end as the date |
| Dates.WeekTests | src/date.rs:187-191 | 2026-01-31 is a Saturday, in the week from 2026-01-26 to 2026-02-01 |
| Dates.DayNumberTests | src/date.rs:187-191 | the day numbers of 2026-01-31, 2026-01-26 and 2026-02-01 are 20484, 20479 and 20485 |
| Dates.IsoWeekId | src/date.rs:144-163 | the week-year is the year of the week's Thursday, the week number is between 1 and 53, and failures are usage errors |
| Dates.IsoWeekIdOk | src/date.rs:146-162 | when every date the computation prints has a four-character year, the label is the Thursday's year and one plus the whole weeks since week 1's Monday |
| Dates.WeekNumberRange | src/date.rs:161 | a Thursday's week lies less than 53 whole weeks after the Monday of its year's week 1 |
| Dates.WithinItsYear | src/date.rs:148-161 | a valid date lies between January 1 and December 31 of its year |
| Dates.WeekOneHoldsJanuary4 | src/date.rs:151-152 | the week holding January 4 is week 1 of its year |
| Dates.WeekLabelTest | src/date.rs:191 | week 5 of 2026 is labelled "2026-W05" |
| Dates.AddDaysText | src/date.rs:100-104 | on text, `add_days` succeeds iff the date parses, and then prints the moved date |
| Dates.IsoWeekStartText | src/date.rs:134-137 | on text, `iso_week_start` succeeds iff the date parses, and then prints the Monday of its week |
| Dates.IsoWeekEndText | src/date.rs:139-142 | on text, `iso_week_end` succeeds iff the date parses and its week start prints in four characters, and then prints the Sunday |
| Dates.DaysFrom | src/date.rs:126-130 | the `n` consecutive dates from `start`: the `i`-th one is `i` days after `start` |
| Dates.DatesBetweenMembers | src/date.rs:119-131 | a date is among the days counted from `from` to `to` iff it lies between them in calendar order |
| Dates.DaysFromAscending | src/date.rs:127-130 | the range is strictly increasing, one day per step |
| Dates.DateRangeInclusive | src/date.rs:113-132 | the method with its day loop computes `TextRange` |
| Dates.DaysLoop | src/date.rs:124-131 | the day-by-day loop builds the `n` consecutive dates from its start |
| Dates.TextRange | src/date.rs:113-132 | `date_range_inclusive` as written: fails with a usage error iff a text does not parse or `to` sorts before `from` as text; otherwise holds only valid dates |
| Dates.TextRangeMembers | src/date.rs:113-132 | a successful range holds exactly the dates between the two parsed dates |
| Dates.DayRange | src/date.rs:116 | the intended check: a usage error exactly when `to` is the earlier date |
| Dates.TextRangePrinted | src/date.rs:113-132 | for printed dates of years 0 to 9999 the text range is the calendar range |
| Dates.TextRangeNegativeYears | src/date.rs:116 | "-002-01-01" and "-001-01-01" parse to years -2 and -1, yet the text range between them fails, while the calendar range succeeds |
| Dates.TextRangeTrailingSpace | src/date.rs:113-116 | a date text with a space appended parses to the same date, yet the text range from it to the bare text fails, while the calendar range is that one day |
| Schedules.DayNameInverse | src/schedule.rs:3-24 | the name-to-day table and the day-to-name function are inverse on days 1 to 7, and every name is three lower-case letters |
| Schedules.CollectDays | src/schedule.rs:54-64 | the token loop fails iff some token is not a day name; otherwise it keeps each named day once, with no duplicates |
| Schedules.CollectDaysMembers | src/schedule.rs:54-64 | adding one token's day, unless already kept, keeps the kept days exactly those the tokens name |
| Schedules.CollectDayList | src/schedule.rs:54-64 | the loop over the tokens computes `CollectDays` |
| Schedules.ParsePattern | src/schedule.rs:33-75 | a parsed schedule is a non-empty, strictly ascending list of days 1 to 7; every failure is a usage error |
| Schedules.ParseNormalized | src/schedule.rs:35-75 | the same guarantees for the trimmed, lower-cased pattern |
| Schedules.SortedSchedule | src/schedule.rs:65-74 | sorting the collected days gives a strictly ascending list with the same members |
| Schedules.ParseSchedulePattern | src/schedule.rs:33-75 | the method with its token loop computes `ParsePattern` |
| Schedules.ParseNormalizedPattern | src/schedule.rs:35-75 | the method with its token loop computes `ParseNormalized` |
| Schedules.ValidateSchedule | src/schedule.rs:101-114 | a schedule passes only with at least one day, and failures are usage errors |
| Schedules.ParsedScheduleValid | src/schedule.rs:33-114 | every schedule the parser returns passes validation |
| Schedules.KeywordSchedules | src/schedule.rs:39-44 | `everyday`, `weekdays` and `weekends` give days 1-7, 1-5 and 6-7 |
| Schedules.DayListPattern | src/schedule.rs:46-66 | a pattern that is not a keyword parses iff its non-empty trimmed tokens are day names, and then to the days they name |
| Schedules.PrintedKeyword | src/schedule.rs:77-93 | the three keyword day sets print as their keywords |
| Schedules.ScheduleRoundTrip | src/schedule.rs:33-99 | printing any ascending set of days from 1 to 7 and parsing the text back gives the same schedule |
| Schedules.NamesMembership | src/schedule.rs:95-98 | a weekday's name is in the printed list iff the day is in the schedule |
| Schedules.KeywordRoundTripTest | src/schedule.rs:122-124 | "everyday", "weekdays" and "weekends" print back unchanged after parsing |
| Schedules.ListRoundTripTest | src/schedule.rs:125 | "mon,wed,fri" prints back unchanged after parsing |
| Schedules.SameNormalForm | src/schedule.rs:34 | two patterns with the same trimmed lowercase parse alike |
| Schedules.KelvinKeywordTest | src/schedule.rs:34 | "WEE\u{212A}DAYS", spelled with the KELVIN SIGN, parses as `weekdays`, because `to_lowercase` maps that sign to 'k' |
| Store.SatAdd | src/checkins.rs:50 | `u32::saturating_add`: the exact sum, or `u32::MAX` when the sum is larger |
| Store.SatSub | src/excuses.rs:47 | `u32::saturating_sub`: the exact difference, or 0 when it would be negative |
| Store.SatMul | src/penalty.rs:181 | `u32::saturating_mul`: the exact product, or `u32::MAX` when the product is larger |
| Store.WrapU32Mod | src/excuses.rs:25 | a count cast `as u32` is the count modulo 2^32 |
| Store.NumberedIdInjective | src/habits.rs:18-23 | ids built from one prefix and zero-padded counters are equal iff the counters are equal |
| Store.Db.constructor | src/model.rs:41-50 | the empty store: every table empty and every counter at 1 |
| Habits.NextHabitId | src/habits.rs:18-23 | returns `h` and the current counter padded to four digits, and increments the counter |
| Habits.HabitIdsDistinct | src/habits.rs:18-23 | two habit numbers give the same id iff they are equal |
| Habits.FirstHabitIds | src/habits.rs:20 | the first two habits of a fresh store are `h0001` and `h0002` |
| Habits.HabitLtOrder | src/habits.rs:25-32 | the listing comparison is a strict weak order, so the stable sort is well defined |
| Habits.HabitLtMeaning | src/habits.rs:25-32 | `a` lists before `b` iff its lower-cased name is smaller, or the names are equal and its id is smaller |
| Habits.Visible | src/habits.rs:35-40 | the filtered habits are exactly the stored ones that are not archived, unless archived habits are included |
| Habits.ListHabits | src/habits.rs:34-43 | the listing is sorted, is a permutation of the visible habits, and holds exactly the visible habits |
| Habits.FirstWithId | src/habits.rs:56 | the position of the first habit with the id, or none when no habit carries it |
| Habits.PrefixMatches | src/habits.rs:76-84 | the matches are, in store order, exactly the visible habits whose lower-cased name starts with the lower-cased selector, each with its index |
| Habits.SelectHabitIndex | src/habits.rs:45-108 | an empty trimmed selector is a usage error; an `h`+four-digit selector selects by id, any other by name prefix |
| Habits.SelectById | src/habits.rs:55-74 | returns the first habit with the id unless that habit is archived and archived habits are hidden; otherwise not found |
| Habits.SelectByName | src/habits.rs:76-107 | succeeds with the single matching habit; no match is not found; several matches are ambiguous, listing each candidate |
| Habits.MatchCount | src/habits.rs:88-107 | no matches, one match and several matches lead to not found, the single index and ambiguity respectively |
| Habits.AmbiguousCandidatesSorted | src/habits.rs:86-104 | the ambiguity message lists every match once, in the listing order |
| Habits.ValidateHabitName | src/habits.rs:6-16 | succeeds iff the trimmed name is not empty, and returns the trimmed name; failure is a usage error |
| Habits.MakeHabit | src/habits.rs:110-146 | succeeds iff the name is non-blank, the schedule parses, the period is `day` or `week` and the target is at least 1; the habit is unarchived and created today |
| Habits.CheckedHabit | src/habits.rs:121-145 | after the schedule parses, succeeds iff it validates, the period is valid and the target is at least 1, and builds the habit from the given fields |
| Habits.AddHabit | src/main.rs:449-464 | builds the habit under the next id; on success appends it and increments the counter; on failure neither the table nor the counter changes; the store keeps its shape |
| Habits.StoreHabit | src/habits.rs:18-23 | appends the habit and increments the counter, keeping the store's shape |
| Habits.Archived | src/main.rs:581-584 | archiving sets the flag, keeps an existing archive date or records today, and changes nothing else |
| Habits.Unarchived | src/main.rs:609-610 | unarchiving clears the flag and the date and changes nothing else |
| Habits.ArchiveIdempotent | src/main.rs:582-584 | archiving twice keeps the first archive date |
| Habits.ArchiveAfterUnarchive | src/main.rs:582-610 | archiving after unarchiving records the new date |
| Habits.Archive | src/main.rs:574-588 | selects among all habits; on success only that habit changes, to its archived form; on failure nothing changes |
| Habits.Unarchive | src/main.rs:602-613 | selects among all habits; on success only that habit changes, to its unarchived form; on failure nothing changes |
| Habits.IsScheduledOn | src/habits.rs:148-154 | a date before creation (as text) is not scheduled; otherwise a failure means the date does not parse |
| Habits.ScheduledOnPrinted | src/habits.rs:148-154 | on a printed date the test cannot fail: scheduled iff not before creation and the weekday is in the schedule |
| Habits.NotScheduledBeforeCreation | src/habits.rs:149-151 | for years 0 to 9999, a habit is never scheduled on a date before its creation date |
| Habits.ScheduledWeekly | src/habits.rs:152-153 | from the creation date on, being scheduled repeats every seven days |
| Habits.ScheduledSameWeekday | src/habits.rs:152-153 | two dates after creation with the same weekday are both scheduled or both not |
| Checkins.FindCheckin | src/checkins.rs:6-10 | the index of the first record with the habit and date, or none when no record has that key |
| Checkins.FindCheckinAt | src/checkins.rs:6-10 | the search returns `i` when record `i` is the first with the key |
| Checkins.Upsert | src/checkins.rs:19-41 | setting 0 removes at most one record; any other quantity adds at most one record and leaves a record with that key and quantity |
| Checkins.GetQuantity | src/checkins.rs:12-17 | 0 when no record has the key; with unique keys, the quantity of the record that has it |
| Checkins.UpsertGet | src/checkins.rs:19-41 | after setting a quantity, the key reads back that quantity (0 after a delete) |
| Checkins.UpsertOthers | src/checkins.rs:19-41 | records of other keys are kept, and no record of another key appears |
| Checkins.UpsertGetOthers | src/checkins.rs:19-41 | every other key reads back what it read before |
| Checkins.GetAfterAppend | src/checkins.rs:31-35 | pushing a check-in for another key leaves the quantity read for a key unchanged |
| Checkins.GetAfterRemove | src/checkins.rs:24-29 | removing another key's check-in leaves the quantity read for a key unchanged |
| Checkins.GetAfterOverwrite | src/checkins.rs:36 | overwriting another key's check-in leaves the quantity read for a key unchanged |
| Checkins.UpsertUnique | src/checkins.rs:19-41 | setting a quantity keeps at most one record per key |
| Checkins.DeleteRemovesKey | src/checkins.rs:24-29 | setting 0 leaves no record for the key |
| Checkins.DeleteOnlyCheckin | src/checkins.rs:24-29 | deleting the only check-in leaves the table empty |
| Checkins.SetQuantity | src/checkins.rs:19-41 | fails with a usage error and changes nothing iff the date does not parse; otherwise the table becomes the upsert |
| Checkins.AddQuantity | src/checkins.rs:43-53 | succeeds iff the date parses and the increment is at least 1; the new total is the saturating sum and is stored |
| Checkins.AddQuantityGrows | src/checkins.rs:49-52 | the total never falls, and grows by the whole increment unless it saturates at `u32::MAX` |
| Checkins.DefaultThenAddTest | src/checkins.rs:43-53 | a check-in of 1 followed by adding 2 reads back 3 |
| Checkins.ListCheckinsForHabit | src/checkins.rs:55-72 | the habit's records, as a permutation of the filtered table, sorted by date text and then habit id |
| Checkins.ListCheckinsInRange | src/checkins.rs:74-113 | the records within the optional habit set and date bounds, as a permutation of the filtered table, in the same order |
| Declarations.NextDeclarationId | src/declarations.rs:6-11 | returns `d` and the counter padded to six digits, and increments the counter |
| Declarations.NewDeclaration | src/declarations.rs:19-35 | succeeds iff the date parses, the timestamp is valid and the trimmed text is not empty; stores the trimmed timestamp and text |
| Declarations.Declare | src/declarations.rs:13-38 | on success appends exactly one declaration under the next number; on failure neither the table nor the counter changes |
| Declarations.Append | src/declarations.rs:28-37 | numbers the declaration, pushes it and increments the counter |
| Declarations.HasDeclaration | src/declarations.rs:40-44 | true iff some declaration names the habit and the date |
| Declarations.HasDeclarationMonotone | src/declarations.rs:36-44 | appending declarations never hides an existing one |
| Declarations.DeclaredAfterDeclare | src/declarations.rs:36-44 | after a declaration is appended, its habit is declared for its date |
| Completion.IsDeclared | src/completion.rs:5-10 | a habit that needs no declaration is always declared; a gated habit iff it has a declaration for the date |
| Completion.CountedQuantity | src/completion.rs:13-20 | the recorded quantity when declared, and 0 otherwise; never more than recorded |
| Completion.IsDoneForDate | src/completion.rs:22-24 | done iff the counted quantity reaches the target; with a target of at least 1, done implies declared |
| Completion.DeclaredAndDone | src/penalty.rs:151-153 | with a target of at least 1, "declared and counted reaches target" is `is_done_for_date` |
| Completion.GatedHabitScenario | src/completion.rs:5-24 | a gated habit with a check-in of 1 is not done until declared, and done once declared |
| Excuses.NextExcuseId | src/excuses.rs:6-11 | returns `e` and the counter padded to six digits, and increments the counter |
| Excuses.ExcuseIdsDistinct | src/excuses.rs:6-11 | two excuse numbers give the same id iff they are equal |
| Excuses.AllowedIn | src/excuses.rs:19-25 | the count of the habit's allowed excuses whose date text lies in the window; 0 iff none does |
| Excuses.AllowedInSnoc | src/excuses.rs:19-25 | appending an excuse adds one to the count exactly when that excuse counts |
| Excuses.AllowedExcusesUsedInWeek | src/excuses.rs:13-26 | succeeds iff the week start parses and its week start prints in four characters; counts the allowed excuses of that week, cast to `u32` |
| Excuses.UsedInWeekOf | src/excuses.rs:45-46 | counting from the printed week start of a date counts that date's week |
| Excuses.CountsTowardDates | src/excuses.rs:24 | for years 0 to 9999, the text window is the calendar window |
| Excuses.InWeekOf | src/excuses.rs:18-24 | a date lies between the start and the end of a week iff it has that week start |
| Excuses.CountsTowardWeek | src/excuses.rs:18-24 | an allowed excuse counts toward a week iff its date falls in that ISO week |
| Excuses.RecordedKind | src/excuses.rs:47-54 | an excuse is recorded as allowed iff allowed was requested and the week's quota is not used up |
| Excuses.Outcome | src/excuses.rs:56-75 | the recorded excuse, the used count (one more when recorded allowed) and the remaining quota; an allowed excuse never exceeds the quota |
| Excuses.ExcuseInWeek | src/excuses.rs:45-75 | for a parsed date, fails only when its week start does not print in four characters, and otherwise applies the policy to the week's count |
| Excuses.NewExcuse | src/excuses.rs:28-76 | a bad date, timestamp or blank reason is a usage error; otherwise the week's count decides the recorded kind |
| Excuses.RecordExcuse | src/excuses.rs:28-76 | on success appends exactly one excuse under the next number; on failure nothing changes |
| Excuses.StoreExcuse | src/excuses.rs:6-11 | appends the excuse and increments the counter, keeping the store's shape |
| Excuses.QuotaRespected | src/excuses.rs:45-75 | after recording, the week's allowed excuses never exceed the quota unless they already did |
| Excuses.HasAllowedExcuse | src/excuses.rs:78-82 | true iff an allowed excuse names exactly this habit and date |
| Excuses.ExcusedAfterAllowed | src/excuses.rs:78-82 | once an allowed excuse is recorded, its habit and date are excused |
| Excuses.DeniedExcusesNothing | src/excuses.rs:78-82 | recording a denied excuse leaves every habit and date as excused as before |
| Penalty.CompactDate | src/penalty.rs:10-12 | no '-' is left, and a text without '-' is unchanged |
| Penalty.CompactParts | src/penalty.rs:10-12 | removing the hyphens of `y-m-d` with digit-only parts concatenates the parts |
| Penalty.CompactFormat | src/penalty.rs:10-12 | a printed date of years 0 to 9999 compacts to its eight digits |
| Penalty.DebtIdFor | src/penalty.rs:62-64 | a debt id is `pd_`, then the habit id, then more |
| Penalty.ActionIdFor | src/penalty.rs:66-72 | an action id is `pa_`, then the debt id, then more |
| Penalty.DebtIdsDistinct | src/penalty.rs:62-64 | for habit ids of equal length and dates of years 0-9999, debt ids are equal iff the habit and the date are equal |
| Penalty.ActionIdsDistinct | src/penalty.rs:66-72 | action ids are equal iff the debt id and the kind are equal |
| Penalty.NextPenaltyRuleId | src/penalty.rs:14-19 | returns `pr` and the counter padded to six digits, and increments the counter |
| Penalty.RuleIdsDistinct | src/penalty.rs:14-19 | two rule numbers give the same id iff they are equal |
| Penalty.RuleFor | src/penalty.rs:107-113 | the last rule stored for the habit, or none iff no rule names it |
| Penalty.ArmedRule | src/penalty.rs:40-57 | the stored rule carries the new settings, and keeps the first existing rule's id or takes the next id |
| Penalty.RulesAfterUpsert | src/penalty.rs:40-58 | the first rule of the habit is overwritten in place, or the rule is appended |
| Penalty.NewRule | src/penalty.rs:30-38 | fails with a usage error iff the date does not parse, the timestamp is invalid, or the multiplier or cap is below 1 |
| Penalty.UpsertRule | src/penalty.rs:21-60 | stores the armed rule; the counter moves only when a rule is appended, and a failure changes nothing |
| Penalty.StoreRule | src/penalty.rs:40-59 | the storing half: overwrite in place or number and push |
| Penalty.UpsertKeepsOneRule | src/penalty.rs:21-60 | upserting keeps at most one rule per habit |
| Penalty.UpsertThenLookup | src/penalty.rs:21-60 | after an upsert the tick's rule lookup finds the new rule, and other habits' rules are unchanged |
| Penalty.RuleForOthers | src/penalty.rs:107-113 | an upsert for one habit never changes another habit's rule |
| Penalty.RuleForUnique | src/penalty.rs:107-113 | when each habit has at most one rule, the lookup returns the habit's rule wherever it is stored |
| Penalty.DebtClosed | src/penalty.rs:74-80 | a debt is closed iff some action names it |
| Penalty.DueTodayMax | src/penalty.rs:156-163 | none iff no unclosed debt of the habit falls due that day; otherwise the largest such quantity |
| Penalty.ChargeBase | src/penalty.rs:176-179 | at least the target and at least the largest carried quantity due today, and equal to one of them: the larger of the two, or the target when nothing is carried |
| Penalty.DueTodayIgnoresOtherDays | src/penalty.rs:156-163 | debts falling due on other days do not change the carry-in |
| Penalty.ScheduledOnDayAgrees | src/penalty.rs:143 | on the tick's own date the schedule test cannot fail and agrees with `is_scheduled_on` |
| Penalty.Charge | src/penalty.rs:129-195 | charges iff the habit is eligible (visible, daily, with a rule, scheduled, not excused), is missed or carries a debt due today, and has no stored debt of that id; the debt is due tomorrow and its quantity is min(base × multiplier saturating at u32, cap), where the base is max(largest carried quantity due today, target) or, with nothing carried, the target; with a multiplier of at least 1 it is at least min(target, cap) and min(carried quantity, cap) |
| Penalty.SatMulGrows | src/penalty.rs:181 | multiplying by at least 1 never shrinks, saturating or not |
| Penalty.ChargeBounds | src/penalty.rs:176-182 | with a multiplier, cap and target of at least 1, a charge is between 1 and the cap |
| Penalty.Charges | src/penalty.rs:129-198 | at most one debt per habit, each habit's turn seeing the debts appended before it |
| Penalty.ChargesShape | src/penalty.rs:184-194 | every appended debt is triggered on the tick's date and due the next day |
| Penalty.TickKeepsIdsUnique | src/penalty.rs:170-174 | a tick keeps debt ids unique |
| Penalty.NextDayDiffers | src/penalty.rs:184 | the due date, printed, is never the tick's date text |
| Penalty.ChargeCovered | src/penalty.rs:170-174 | a habit's turn charges nothing once its debt for the date is stored |
| Penalty.ChargesCovered | src/penalty.rs:170-174 | with every debt of the first run stored, a second run charges nothing |
| Penalty.TickTwice | src/penalty.rs:170-174 | a second tick on the same date creates no debt |
| Penalty.TomorrowDiffers | src/penalty.rs:184 | the next day of a tick prints differently from the tick's own date |
| Penalty.CreatedNotDueToday | src/penalty.rs:184-194 | no debt a tick creates falls due on the tick's date |
| Penalty.TickResult | src/penalty.rs:200-203 | the returned debts are a permutation of those created, sorted by debt id |
| Penalty.TickDay | src/penalty.rs:121-122 | a tick starts iff the date parses and the timestamp is valid |
| Penalty.Tick | src/penalty.rs:115-204 | fails with a usage error and changes nothing iff the date or timestamp is bad; otherwise appends exactly the charges and returns them sorted |
| Penalty.ChargeHabits | src/penalty.rs:129-198 | the habit loop appends each habit's charge as it is made |
| Penalty.TickViewOf | src/penalty.rs:121-125 | the view the tick builds is the view of its own date |
| Penalty.OutstandingDebtsAsOf | src/penalty.rs:82-105 | fails iff the date does not parse; otherwise never lists more debts than are stored |
| Penalty.OutstandingMeaning | src/penalty.rs:82-105 | lists exactly the unclosed debts due by the date, each as often as stored (the count of every debt in the list is its count in the table, or 0 when not outstanding), in (due date, habit, id) order |
| Penalty.ActionLookup | src/penalty.rs:222-248 | an unknown debt is not found; an existing action for the debt is returned; otherwise a new action with the derived id is made |
| Penalty.ActionFor | src/penalty.rs:214-248 | a bad date, timestamp or blank reason is a usage error; otherwise the lookup decides |
| Penalty.ResolveOrVoid | src/penalty.rs:206-249 | appends an action only when a new one is made; otherwise the table is unchanged |
| Penalty.ResolveCloses | src/penalty.rs:206-249 | the action returned is about the requested debt, and afterwards that debt is closed |
| Penalty.ResolveKeepsShape | src/penalty.rs:229-247 | the action table stays well formed, with at most one action per debt |
| Penalty.ResolveIdempotent | src/penalty.rs:230-237 | resolving or voiding again, with either kind, returns the same action and appends nothing |
| Penalty.ActionOfDebtUnique | src/penalty.rs:234-237 | when each debt has at most one action, two actions for the same debt are the same action |
| Penalty.ResolvedNotOutstanding | src/penalty.rs:82-105 | once resolved or voided, a debt is never outstanding again |
| Stats.CountTrue | src/stats.rs:42-47 | the success count never exceeds the number of eligible items |
| Stats.TrailingRun | src/stats.rs:56-63 | the current streak never exceeds the number of items |
| Stats.LongestRun | src/stats.rs:65-75 | the longest streak lies between the current streak and the number of items |
| Stats.TrailingRunAtMostCount | src/stats.rs:42-63 | the current streak never exceeds the success count |
| Stats.StreakBounds | src/stats.rs:42-75 | current streak <= longest streak <= successes <= eligible |
| Stats.TrailingRunMeaning | src/stats.rs:56-63 | the current streak is a run of successes ending at the last item, preceded by a miss or by the start |
| Stats.RunAtEndBound | src/stats.rs:56-63 | no run of successes reaching the end is longer than the current streak |
| Stats.LongestRunMeaning | src/stats.rs:65-75 | the longest streak is the length of some run of successes, and no run is longer |
| Stats.RowOf | src/stats.rs:77-93 | the row carries the habit, period, window and counts; the rate is absent iff nothing is eligible, and otherwise successes over eligible |
| Stats.CountSuccesses | src/stats.rs:42-47 | the successes loop computes `CountTrue` |
| Stats.CurrentStreak | src/stats.rs:56-63 | the backward loop that stops at the first miss computes `TrailingRun` |
| Stats.LongestStreak | src/stats.rs:65-75 | the run-and-reset loop computes `LongestRun` |
| Stats.RowFor | src/stats.rs:42-93 | the three loops together build `RowOf` |
| Stats.Printed | src/date.rs:128 | each date of a range is paired with its printed text |
| Stats.PrintedMembers | src/date.rs:128 | a printed date is in the printed list iff the date is in the list |
| Stats.WindowOf | src/stats.rs:32-33 | the window keeps both ends as given, with their parses |
| Stats.ScheduledDayAgrees | src/stats.rs:37 | on every day of a parsed range, `is_scheduled_on` succeeds and agrees with the model's day test |
| Stats.ScheduledDays | src/stats.rs:35-40 | the loop keeps exactly the scheduled days, in order |
| Stats.DayOutcomes | src/stats.rs:44 | a day reaches the target iff its checked-in quantity is at least the target |
| Stats.DailyRow | src/stats.rs:41-93 | a daily row's eligible count is the number of scheduled days of the range |
| Stats.DailyStats | src/stats.rs:32-94 | fails with a usage error iff an end does not parse or the text `to` sorts before the text `from`; the row keeps the window as given |
| Stats.DailyStatsPrinted | src/stats.rs:32-33 | for printed dates of years 0 to 9999, the daily statistics fail exactly when `to` is the earlier date |
| Stats.DailyStatsByRange | src/stats.rs:33 | whatever `date_range_inclusive` returns for the window's texts decides the statistics: an error fails them, dates give the row over those days |
| Stats.DailyEligibleMeaning | src/stats.rs:32-40 | a date is eligible iff it lies in the window, on or after creation, on a scheduled weekday |
| Stats.DailyRowFor | src/stats.rs:35-93 | the scheduled-days loop and the row loops build `DailyRow` |
| Stats.ComputeDailyStats | src/stats.rs:32-94 | the method computes `DailyStats` |
| Stats.QuantityFromCreation | src/stats.rs:101-105 | a day before creation (as text) counts 0; any other day counts its recorded quantity |
| Stats.DaysTotalCapped | src/stats.rs:100-106 | saturating at every step gives the exact sum capped at `u32::MAX` |
| Stats.SumDays | src/stats.rs:100-106 | the summing loop computes the saturating total |
| Stats.WeekDays | src/stats.rs:97-98 | a week is one to seven valid days from the week start through its ISO week end |
| Stats.WeekOf | src/stats.rs:96-98 | a week carries its start, its Monday and its ISO week end, as dates and as printed texts |
| Stats.Weeks | src/stats.rs:131 | one week per week start, in order |
| Stats.WeekSum | src/stats.rs:96-108 | fails with a usage error iff the start, its Monday or its end has a year that does not print in four characters, or the printed end sorts before the printed start |
| Stats.DaysListedFromYearZero | src/stats.rs:98 | from year 0 on, a week whose end prints has its days listed; only negative years break the text order |
| Stats.WeekSumForHabit | src/stats.rs:96-108 | the method with its loop computes `WeekSum` |
| Stats.WeekSumMeaning | src/stats.rs:96-108 | a week's sum is its quantities from the creation date on, capped at `u32::MAX` |
| Stats.WeekSteps | src/stats.rs:114-120 | the number of seven-day steps from 0 through `gap` |
| Stats.WeeksFrom | src/stats.rs:114-120 | `n` valid dates, the `i`-th one `7*i` days after the start |
| Stats.WeekRange | src/stats.rs:110-121 | the range as intended, in calendar order: a successful range holds only valid dates whose years print in four characters; failures are usage errors |
| Stats.WeekRangeMembers | src/stats.rs:110-121 | in the intended range from a Monday, the week starts are exactly the Mondays through the end |
| Stats.WeekRangeInclusive | src/stats.rs:110-121 | the loop comparing texts and stepping seven days computes `WeekStarts` |
| Stats.WeekStarts | src/stats.rs:110-121 | `week_range_inclusive` as written: every kept date is valid, prints in four year characters and does not sort after `to` as text; failures are usage errors |
| Stats.WeekStartsPrinted | src/stats.rs:110-121 | from years 0 to 9999, and an end more than a week before year 10000, the loop as written gives the calendar range |
| Stats.WeekStartsLastWeek | src/stats.rs:116-118 | from "9999-12-27" to itself the loop as written fails: "10000-01-03" still sorts before "9999-12-27" |
| Stats.WeekRangeLastWeek | src/stats.rs:110-121 | the calendar range of that same week is its one Monday |
| Stats.YearTenThousand | src/date.rs:64-66 | a date's year is at most 9999 exactly when its day number is before that of year 10000 |
| Stats.WeeksFromCons | src/stats.rs:116-118 | the first `k + 1` weeks from a date are that date followed by the first `k` weeks from a week later |
| Stats.WeekRangeCons | src/stats.rs:116-118 | the calendar range from a date not after the end is that date, then the range from a week later |
| Stats.WindowWeeks | src/stats.rs:129-131 | the weeks of a window run, as written, from the Monday of `from`'s week to the printed Monday of `to`'s week; failures are usage errors and successes hold valid dates |
| Stats.WindowWeekStarts | src/stats.rs:129-131 | the method computes `WindowWeeks` |
| Stats.WeekEndOfWeekStart | src/stats.rs:135 | for a printable Monday, `iso_week_end` succeeds and prints that week's Sunday |
| Stats.EligibleWeeks | src/stats.rs:133-138 | the loop keeps the weeks whose printed end is not before the creation date |
| Stats.WeekSums | src/stats.rs:140-145 | succeeds iff every week's sum succeeds, and then holds each week's sum in order |
| Stats.SumWeeks | src/stats.rs:140-145 | the loop over the eligible weeks computes `WeekSums` |
| Stats.Reached | src/stats.rs:142 | a week reaches the target iff its sum is at least the target |
| Stats.WeeklyRow | src/stats.rs:140-191 | a weekly row's eligible count is the number of weeks ending on or after creation |
| Stats.WeeklyStats | src/stats.rs:123-192 | an end that does not parse fails the row; the weeks are `WindowWeeks`; a successful row has period `week` and keeps the window as given |
| Stats.WeeklyRowFor | src/stats.rs:133-191 | the loops build `WeeklyRow` |
| Stats.ComputeWeeklyStats | src/stats.rs:123-192 | the method computes `WeeklyStats` |
| Stats.HabitStats | src/stats.rs:205-209 | a daily target is scored per day and any other target per ISO week |
| Stats.StatsRows | src/stats.rs:203-212 | one row per habit in order; the first failing habit fails the whole |
| Stats.StatsLoop | src/stats.rs:203-212 | the loop over the sorted habits computes `StatsRows` |
| Stats.BuildStats | src/stats.rs:194-213 | the rows follow the habits in listing order, one row per habit |
| Status.CountedOn | src/status.rs:92-97 | a day counts its declared quantity from creation on, and 0 when undeclared; never more than the raw quantity |
| Status.CountedAtMostRaw | src/status.rs:96-97 | the counted sum never exceeds the raw sum |
| Status.UngatedTotalsAgree | src/status.rs:96-97 | for a habit that needs no declaration, the counted and raw sums agree |
| Status.WeekTotals | src/status.rs:83-100 | the pair of sums fails iff the raw week sum fails; the raw sum is the statistics' week sum and the counted sum is at most it |
| Status.WeekSumForHabit | src/status.rs:83-100 | the loop computes both sums |
| Status.StatusWeek | src/status.rs:109-111 | the frame is the week of the anchor's week start |
| Status.WeekOfAnchor | src/status.rs:109-111 | the frame's week runs from the anchor's Monday to its Sunday |
| Status.StatusWeekTextAgrees | src/status.rs:109-111 | the model's frame succeeds iff the source's three text operations do, and gives the same start, end and label |
| Status.StatusWeekMeaning | src/status.rs:109-111 | the frame's week starts on a Monday at most six days before the anchor and is labelled with that Monday's ISO week |
| Status.ScheduledToday | src/status.rs:123 | a date before creation is not scheduled; an error means the date failed to parse |
| Status.ScheduledTodayAgrees | src/status.rs:123 | given the date's own parse, the test is `is_scheduled_on` |
| Status.TodayRowOf | src/status.rs:126-155 | a daily row shows today's counted and raw quantities; a weekly row shows the week's sums; counted never exceeds raw |
| Status.TodayDoneIsDone | src/status.rs:126-141 | a daily habit with a positive target is done today iff `is_done_for_date` |
| Status.TodayRows | src/status.rs:121-157 | the today section holds the rows of the scheduled habits, in listing order |
| Status.TodayLoop | src/status.rs:121-157 | the today loop computes `TodayRows` |
| Status.CountsMeaning | src/status.rs:164-176 | the scheduled count is the number of scheduled days of the week, done days <= scheduled days <= days |
| Status.ScheduledCountFilter | src/status.rs:164-176 | the scheduled count equals the number of days the schedule keeps, at most all days |
| Status.DoneCountAtMost | src/status.rs:164-176 | no more days are counted done than are scheduled |
| Status.DoneCountWitness | src/status.rs:166-175 | a positive done count has a scheduled, declared day of the week that reaches the target |
| Status.WeekRowOf | src/status.rs:163-196 | a daily habit's week row counts scheduled and done days; a weekly one carries the week's sums |
| Status.CountDays | src/status.rs:164-176 | the loop over the week's days computes both counts |
| Status.WeekRows | src/status.rs:161-197 | the week section holds one row per visible habit, in listing order |
| Status.WeekLoop | src/status.rs:161-197 | the week loop computes `WeekRows` |
| Status.ReportFor | src/status.rs:121-210 | the report holds the given date, the today rows and the week rows of the frame's week |
| Status.StatusOf | src/status.rs:102-211 | failures are usage errors (its content is stated by Status.StatusOfFrame, Status.TodayMembers and Status.WeekSectionBounds) |
| Status.BuildStatus | src/status.rs:102-211 | the method computes `StatusOf` over the store |
| Status.BuildReport | src/status.rs:120-211 | the today loop, the week loop and the report they build compute `ReportFor` for the week |
| Status.StatusOfFrame | src/status.rs:108-111 | a successful report uses the frame of the anchor's parse |
| Status.ScheduledForMembers | src/status.rs:122-125 | the habits shown today are exactly those `is_scheduled_on` the date |
| Status.TodayMembers | src/status.rs:113-157 | the today section lists, in the sorted listing order, exactly the visible habits `is_scheduled_on` the date |
| Status.WeekSectionBounds | src/status.rs:161-197 | the week section has one row per visible habit in order; day rows exactly for daily habits, with done <= scheduled <= 7; weekly rows count no more than the raw sum |
| Status.ReportWeek | src/status.rs:109-110 | the report's week runs from Monday to Sunday around the anchor |
| Status.ReportWeekLabel | src/status.rs:111 | the report's week is labelled with the ISO week of its Monday |
| Due.CountedWeekSum | src/due.rs:31-46 | fails iff the week's raw sum fails; otherwise the counted sum, at most the raw one |
| Due.WeekSumForHabit | src/due.rs:31-46 | the loop computes `CountedWeekSum` |
| Due.RowOf | src/due.rs:72-110 | a due row is scheduled and not done, and its remaining quantity is the target minus the quantity, or 0 |
| Due.DueRows | src/due.rs:64-111 | the rows of the habits scheduled on the date and not done, in order; failures are usage errors |
| Due.DueLoop | src/due.rs:64-111 | the loop computes `DueRows` |
| Due.DueFor | src/due.rs:64-119 | the output holds the date as given and, when it fits a `u32`, the number of rows as its count |
| Due.DueOf | src/due.rs:48-120 | a date that does not parse fails with a usage error |
| Due.BuildDue | src/due.rs:48-120 | the method computes `DueOf` over the store |
| Due.RowsRemaining | src/due.rs:79-98 | every row is scheduled and not done, its quantity plus remaining is the target, and nothing remains only for a daily habit of target 0 |
| Due.DueForRows | src/due.rs:64-111 | the rows follow the listed habits of a sorted list, in order |
| Due.DueListed | src/due.rs:66-110 | a habit is listed iff it is `is_scheduled_on` the date and not done |
| Due.DueMembers | src/due.rs:53-111 | the rows list, in the sorted listing order, exactly the visible habits scheduled on the date and not done |
| Due.DailyDoneIsDone | src/due.rs:72-75 | for a daily habit with a positive target, "done" is `is_done_for_date` |
| Recap.RangeDates | src/recap.rs:67-86 | the range ends on today as given; the year so far starts on January 1 of today's year; a rolling range succeeds iff today parses |
| Recap.YtdStartsJanuaryFirst | src/recap.rs:69-73 | for a printed date, the year so far runs from January 1 of its year to the date |
| Recap.RollingRangeLength | src/recap.rs:75-84 | the last 30 and the last 7 days are 30 and 7 dates long, ending today |
| Recap.YtdRangeTest | src/recap.rs:284-289 | the year so far of 2026-03-15 is 2026-01-01 to 2026-03-15 |
| Recap.MonthRangeTest | src/recap.rs:291-296 | the month of 2026-01-31 is 2026-01-02 to 2026-01-31 |
| Recap.WeekRangeTest | src/recap.rs:298-303 | the week of 2026-01-31 is 2026-01-25 to 2026-01-31 |
| Recap.Percent | src/recap.rs:113-119 | no percent iff nothing is eligible |
| Recap.PercentRounds | src/recap.rs:113-119 | with something eligible, the percent is 100 * successes / eligible rounded half away from zero |
| Recap.PercentBounds | src/recap.rs:113-119 | a percent is between 0 and 100, exactly 100 when all succeed and 0 when none does |
| Recap.PercentTests | src/recap.rs:113-119 | 10/30 gives 33, 2/3 gives 67, 1/8 gives 13 and 0/0 gives none |
| Recap.TargetLabel | src/recap.rs:121-125 | the label is the quantity, '/', and the period unit |
| Recap.DailyRecap | src/recap.rs:89-143 | fails iff an end does not parse or the text `to` sorts before the text `from`; a row has period `day`, successes <= eligible, and a percent iff something is eligible |
| Recap.DailyRecapByRange | src/recap.rs:96 | whatever `date_range_inclusive` returns for the window's texts decides the recap: an error fails it, dates give the row over those days |
| Recap.DailySuccessMeaning | src/recap.rs:99-111 | a date counts as a success iff it is eligible and its counted quantity reaches the target |
| Recap.UngatedDayCount | src/recap.rs:108-111 | for an ungated habit the day successes are the statistics' day successes |
| Recap.DailyRowAgrees | src/recap.rs:99-111 | for an ungated habit, the recap and the statistics count the same eligible days and successes |
| Recap.DailyAgreesWithStats | src/recap.rs:89-143 | for an ungated habit, the daily recap succeeds iff the daily statistics do, with the same counts |
| Recap.CountDaysMet | src/recap.rs:108-111 | the counting loop counts the days that reach the target |
| Recap.DailyRowFor | src/recap.rs:99-142 | the loop builds the daily row |
| Recap.ComputeDailyRecap | src/recap.rs:89-143 | the method computes `DailyRecap` |
| Recap.WeeklyRecap | src/recap.rs:172-229 | an end that does not parse fails; a row has period `week`, successes <= eligible, and a percent iff something is eligible |
| Recap.WeeklyRecapFailsOnlyOnRange | src/recap.rs:179-181 | once both ends parse, the weekly recap fails exactly when the window's week range (`WindowWeeks`) fails |
| Recap.WeekEligibleAgrees | src/recap.rs:186 | for a printable Monday, `iso_week_end` succeeds, and the week is eligible iff it ends on or after creation |
| Recap.WeekMetMeaning | src/recap.rs:192-196 | a week succeeds iff its counted sum reaches the target; a week whose end does not print never succeeds |
| Recap.CountWeeksMet | src/recap.rs:190-197 | the counting loop counts the weeks that reach the target |
| Recap.WeeklyRowFor | src/recap.rs:184-228 | the loop builds the weekly row |
| Recap.ComputeWeeklyRecap | src/recap.rs:172-229 | the method computes `WeeklyRecap` |
| Recap.HabitRecap | src/recap.rs:245-249 | a daily target is scored per day, any other per ISO week; the row carries the habit and range |
| Recap.RecapRows | src/recap.rs:243-251 | one row per habit in order; the first failing habit fails the whole |
| Recap.ComputeHabitRecap | src/recap.rs:245-249 | the body of the loop computes `HabitRecap` |
| Recap.RecapLoop | src/recap.rs:243-251 | the loop computes `RecapRows` |
| Recap.RecapLtOrder | src/recap.rs:254-261 | the ranking comparison is a strict weak order |
| Recap.Ranked | src/recap.rs:254-261 | the ranked rows are a permutation, sorted by percent descending with no percent last, then lower-cased name; ties keep their build order |
| Recap.RankedOrder | src/recap.rs:254-261 | a ranked row never has a lower percent than a later one, rows with a percent come before rows without, and rows without one ascend by lower-cased name |
| Recap.RowsInListingOrder | src/recap.rs:240-251 | rows built from habits in listing order are in the habits' order |
| Recap.RecapFor | src/recap.rs:240-263 | one ranked row per habit, in ranking then listing order, each covering the requested window |
| Recap.RowsOfWindow | src/recap.rs:243-251 | every built row covers the window, names the range, and counts no more successes than eligible periods |
| Recap.RecapMembers | src/recap.rs:240-263 | every habit has a row of its own in the recap |
| Recap.RecapOf | src/recap.rs:232-264 | every row ends on today and names the requested range |
| Recap.BuildRecap | src/recap.rs:232-264 | the method computes `RecapOf` over the store |
| Export.HasSpecialMeaning | src/export.rs:12 | a value needs quoting iff it holds a newline, carriage return, double quote or comma |
| Export.DoubleQuotes | src/export.rs:13 | doubling quotes never shortens a value |
| Export.CsvEscape | src/export.rs:11-17 | the escaped value is the value itself iff it needs no quoting; otherwise it is wrapped in quotes |
| Export.ReadQuotedDoubled | src/export.rs:13 | reading a doubled-quote body up to its closing quote gives back the value and leaves the rest |
| Export.FieldRoundTrip | src/export.rs:11-17 | an escaped field followed by a comma or the end of the line reads back as the value, as RFC 4180 reads it |
| Export.QuotedFieldRoundTrip | src/export.rs:12-13 | a field with a comma, quote or line break is quoted with inner quotes doubled, and reads back as the value |
| Export.PlainFieldRoundTrip | src/export.rs:14-15 | a field without those characters is kept as it is, and reads back as the value |
| Export.RecordRoundTrip | src/export.rs:19-21 | a line of escaped fields reads back as the fields |
| Export.ToCsvLine | src/export.rs:19-21 | when no field needs quoting, the line is the fields joined by commas |
| Export.PlainRecord | src/export.rs:19-21 | such a line has one comma fewer than fields and splits back into them |
| Export.HabitsHeaderLine | src/export.rs:32-48 | the habits header has nine columns and eight commas, and splits back into them |
| Export.HabitsHeaderOpening | src/export.rs:32-48 | the habits header begins with `id,name,schedule,` |
| Export.HabitsHeaderPlain | src/export.rs:32-45 | no habits column name needs quoting |
| Export.CheckinsHeaderLine | src/export.rs:63-69 | the check-ins header line is `habit_id,date,quantity` |
| Export.CheckinsHeaderPlain | src/export.rs:63-66 | no check-ins column name needs quoting |
| Export.CheckinsHeaderJoin | src/export.rs:63-66 | the check-ins column names joined by commas are `habit_id,date,quantity` |
| Export.HabitRecord | src/export.rs:50-60 | a habit's record has one field per habits column, beginning with its id and name |
| Export.CheckinRecord | src/export.rs:71-75 | a check-in's record has one field per check-ins column, beginning with its habit id and its date |
| Export.HabitLinesReadBack | src/export.rs:47-61 | `habits.csv` has one line per habit after the header, each reading back as the habit's fields with its id first |
| Export.CheckinLinesReadBack | src/export.rs:68-76 | `checkins.csv` has one line per check-in after the header, each reading back as its habit id, date and quantity |
| Export.HabitLinesLoop | src/export.rs:47-61 | the loop builds the lines of `habits.csv` |
| Export.CheckinLinesLoop | src/export.rs:68-76 | the loop builds the lines of `checkins.csv` |

## Left out

- File I/O, the store's JSON encoding, the write lock and atomic replacement in src/db.rs are not modelled. Each command's method changes the `Db` object as one step, and a command that fails leaves it unchanged, as `update_db` then writes nothing back. `Store.Db.ValidShape` states what `validate_db_shape` checks; the constructor establishes it and every method that moves a counter keeps it. The check that runs before each write is not modelled.
- RFC 3339 timestamp validation in src/ts.rs calls into chrono. The model takes it as a parameter `tsValid`. The trimming around it is modelled.
- The system clock (`system_today_utc`), environment variables and the `--today` option are not modelled. Every operation receives today's date as a parameter.
- Stats.RowOf: the floating-point rate `successes / eligible` is kept as the two counts; no `f64` is modelled.
- Recap.Percent: the model rounds the exact ratio. The source multiplies an `f64` by 100 and rounds. The two can differ at exact halves: 29 out of 200 gives 14 in `f64` but 15 exactly.
- Recap.TargetLabel: the source's special case for a quantity of 1 prints the same text as the general case, so it is folded into one rule.
- Recap.RangeDates: a `today` shorter than four characters makes the source's `today[0..4]` panic; the model requires at least four characters. A slice that splits a multi-byte character also panics in the source and is not modelled.
- `render_progress_bar`, all text and JSON output (src/output.rs, src/stable_json.rs) and the JavaScript port (the .js files) are not part of this model.
- The `--behind-first` ordering and the wiring of `due` into the command line in src/main.rs are not modelled.
- The arguments of `make_habit` follow its call in src/main.rs:450-461, which passes a declaration flag and a weekly excuse quota as well. The definition at src/habits.rs:110-118 takes seven arguments.
- src/model.rs lists only habits, check-ins and one counter. The store's other tables and counters come from their uses in the other modules.
- Dates.DaysFrom, Calendar.DaysFromCivil: the source computes in `i32`. Day numbers and years far enough out to overflow it are not modelled; the model's integers are unbounded.
- Stats.RowOf: the source's `u32` success, eligible and streak counters cannot overflow on a date range of years 0 to 9999, so the model counts in `nat`.
- Habits.NextHabitId: the counter is an unbounded `nat`. The source's `u32` `n + 1` at src/habits.rs:21 overflows when a stored counter is `u32::MAX`; a debug build panics, and a release build wraps to 0 and the next write fails the shape check.
- Declarations.NextDeclarationId: the counter is unbounded; the same `u32` overflow at src/declarations.rs:9 is not modelled.
- Excuses.NextExcuseId: the counter is unbounded; the same `u32` overflow at src/excuses.rs:9 is not modelled.
- Penalty.NextPenaltyRuleId: the counter is unbounded; the same `u32` overflow at src/penalty.rs:17 is not modelled.
- Excuses.AllowedExcusesUsedInWeek: the `as u32` wrap of the count is modelled; `used + 1` cannot overflow because an allowed excuse needs `used < quota`.
- Text.Lower: lowercasing covers A to Z and the KELVIN SIGN, the only characters whose lowercase is plain ASCII. Schedule patterns are therefore parsed exactly, since their keywords and day names are ASCII. Habit names with other non-ASCII capitals (as in `Habits.HabitLtMeaning`, `Habits.PrefixMatches` and `Recap.Ranked`) are compared with those letters left as they are, where Rust's `to_lowercase` would lower them.
- A target's period is kept as the stored text, as in the source; `MakeHabit` accepts only `day` and `week`.
- Checkin flag conflicts and other command-line parsing in src/main.rs are not modelled.

## Findings

| source | as written | input that shows it | evidently intended | confidence | as-written member | corrected member |
|---|---|---|---|---|---|---|
| src/date.rs:116 | `date_range_inclusive` checks that both texts parse, then rejects `from > to` by comparing the raw texts byte by byte, although parsing trims them and accepts signed years | from "-002-01-01", to "-001-01-01": year -2 is earlier, but "-001-…" sorts before "-002-…", so the range is rejected; from "2026-01-25 " (with a trailing space), to "2026-01-25": the same day, but the longer text sorts after the shorter one | compare the parsed dates, as the day numbers computed next to it do | not executed | Dates.TextRangeNegativeYears, Dates.TextRangeTrailingSpace | Dates.DayRange, Dates.TextRangePrinted |
| src/stats.rs:116 | `week_range_inclusive` steps while the printed week start does not sort after the end as text, and a year of five digits sorts before "9999-…" | from "9999-12-27" to "9999-12-27" (weekly statistics or recap over the last days of year 9999): the loop keeps 9999-12-27, steps to "10000-01-03", keeps it too because it sorts first, and the next step cannot parse it, so the command fails | stop at the last week start not after the end in calendar order | not executed | Stats.WeekStartsLastWeek | Stats.WeekRangeLastWeek, Stats.WeekRangeMembers |

The statistics, the recap and the week sums follow the source as written
(`Dates.TextRange`, `Stats.WeekStarts`). The corrected definitions are
modelled beside them, and `Dates.TextRangePrinted`, `Stats.DailyStatsPrinted`
and `Stats.WeekStartsPrinted` prove that the two agree on printed dates of
years 0 to 9999 away from year 10000. The same text comparison decides
whether a habit is scheduled before its creation date (`Habits.IsScheduledOn`)
and which weeks are eligible (`Stats.EligibleWeeks`).
