/**
 * The CSV export: one line per record, the fields joined by commas. A
 * field is written as it is unless it holds a comma, a quote or a line
 * break; then it is enclosed in quotes with each quote doubled, as section 2
 * (rules 6 and 7) of RFC 4180 prescribes. Reading a record back by those
 * rules gives the fields that were written.
 */
module Export {
  import opened Errors
  import opened Text
  import opened Sorting
  import opened Schedules
  import opened Store

  // ---------------------------------------------------------------------------
  // Fields
  // ---------------------------------------------------------------------------

  /** The characters that force a field into quotes. */
  predicate Special(c: char) {
    c == '\n' || c == '\r' || c == '"' || c == ','
  }

  /** `value.contains(['\n', '\r', '"', ','])`. */
  predicate HasSpecial(value: string) {
    value != [] && (Special(value[0]) || HasSpecial(value[1..]))
  }

  lemma {:induction false} HasSpecialMeaning(value: string)
    ensures HasSpecial(value) <==> exists i :: 0 <= i < |value| && Special(value[i])
  {
    if value != [] {
      HasSpecialMeaning(value[1..]);
      if HasSpecial(value[1..]) {
        var i :| 0 <= i < |value[1..]| && Special(value[1..][i]);
        assert Special(value[i + 1]);
      }
      if exists i :: 0 <= i < |value| && Special(value[i]) {
        var i :| 0 <= i < |value| && Special(value[i]);
        if i > 0 {
          assert Special(value[1..][i - 1]);
        }
      }
    }
  }

  /** `value.replace('"', "\"\"")`. */
  function DoubleQuotes(value: string): (r: string)
    ensures |r| >= |value|
  {
    if value == [] then []
    else (if value[0] == '"' then "\"\"" else [value[0]]) + DoubleQuotes(value[1..])
  }

  /**
   * `csv_escape`: the value itself when it holds none of the special
   * characters; otherwise the value in quotes, longer by at least the two
   * enclosing quotes.
   */
  function CsvEscape(value: string): (r: string)
    ensures r == value <==> !HasSpecial(value)
    ensures HasSpecial(value) ==> |r| >= |value| + 2 && r[0] == '"' && r[|r| - 1] == '"'
  {
    if HasSpecial(value) then "\"" + DoubleQuotes(value) + "\"" else value
  }

  // ---------------------------------------------------------------------------
  // Reading a record back
  // ---------------------------------------------------------------------------

  /**
   * The contents of a quoted field, read after its opening quote: a doubled
   * quote stands for one quote, a single quote closes the field. Yields the
   * contents and what follows the closing quote; none when it never closes.
   */
  function ReadQuoted(s: string): (r: Option<(string, string)>)
    ensures r.Some? ==> |r.value.1| < |s|
    decreases |s|
  {
    if s == [] then None
    else if s[0] == '"' then
      if |s| >= 2 && s[1] == '"' then
        match ReadQuoted(s[2..])
        case None => None
        case Some((c, rest)) => Some(("\"" + c, rest))
      else Some(([], s[1..]))
    else
      match ReadQuoted(s[1..])
      case None => None
      case Some((c, rest)) => Some(([s[0]] + c, rest))
  }

  /** One field: quoted when it opens with a quote, otherwise everything up to the next comma. */
  function ReadField(s: string): (r: Option<(string, string)>)
    ensures r.Some? ==> |r.value.1| <= |s|
  {
    if s != [] && s[0] == '"' then ReadQuoted(s[1..])
    else if ',' in s then
      var i := IndexOf(s, ',');
      Some((s[..i], s[i..]))
    else Some((s, []))
  }

  /** The fields of a record as RFC 4180 reads them; none when a field is malformed. */
  function ParseRecord(s: string): (r: Option<seq<string>>)
    ensures r.Some? ==> |r.value| >= 1
    decreases |s|
  {
    match ReadField(s)
    case None => None
    case Some((field, rest)) =>
      if rest == [] then Some([field])
      else if rest[0] != ',' then None
      else
        match ParseRecord(rest[1..])
        case None => None
        case Some(fields) => Some([field] + fields)
  }

  /** Reading the doubled contents and the closing quote gives back the value and leaves the rest. */
  lemma {:induction false} ReadQuotedDoubled(v: string, tail: string)
    requires tail == [] || tail[0] == ','
    ensures ReadQuoted(DoubleQuotes(v) + "\"" + tail) == Some((v, tail))
    decreases |v|
  {
    var s := DoubleQuotes(v) + "\"" + tail;
    if v == [] {
      assert s == "\"" + tail;
      assert s[1..] == tail;
    } else {
      var inner := DoubleQuotes(v[1..]) + "\"" + tail;
      ReadQuotedDoubled(v[1..], tail);
      if v[0] == '"' {
        assert s == "\"\"" + inner;
        assert s[2..] == inner;
        assert v == "\"" + v[1..];
      } else {
        assert s == [v[0]] + inner;
        assert s[1..] == inner;
        assert v == [v[0]] + v[1..];
      }
    }
  }

  /** An escaped field followed by a separator or the end of the line reads back as the value. */
  lemma FieldRoundTrip(v: string, tail: string)
    requires tail == [] || tail[0] == ','
    ensures ReadField(CsvEscape(v) + tail) == Some((v, tail))
  {
    if HasSpecial(v) {
      QuotedFieldRoundTrip(v, tail);
    } else {
      PlainFieldRoundTrip(v, tail);
    }
  }

  lemma QuotedFieldRoundTrip(v: string, tail: string)
    requires HasSpecial(v) && (tail == [] || tail[0] == ',')
    ensures ReadField(CsvEscape(v) + tail) == Some((v, tail))
  {
    var q, d := "\"", DoubleQuotes(v);
    var s := CsvEscape(v) + tail;
    AppendAssoc(q + d, q, tail);
    AppendAssoc(q, d, q + tail);
    AppendAssoc(d, q, tail);
    assert s == q + (d + q + tail);
    assert s[1..] == d + q + tail;
    ReadQuotedDoubled(v, tail);
  }

  lemma PlainFieldRoundTrip(v: string, tail: string)
    requires !HasSpecial(v) && (tail == [] || tail[0] == ',')
    ensures ReadField(CsvEscape(v) + tail) == Some((v, tail))
  {
    HasSpecialMeaning(v);
    assert ',' !in v;
    if v != [] {
      assert !Special(v[0]);
    }
    if tail == [] {
      AppendNil(v);
    } else {
      var rest := tail[1..];
      assert tail == [','] + rest;
      AppendAssoc(v, [','], rest);
      IndexOfAfter(v, ',', rest);
      assert (v + tail)[..|v|] == v && (v + tail)[|v|..] == tail;
    }
  }

  // ---------------------------------------------------------------------------
  // Records
  // ---------------------------------------------------------------------------

  /** `to_csv_line`: the escaped fields joined by commas. */
  function ToCsvLine(values: seq<string>): (r: string)
    ensures (forall i :: 0 <= i < |values| ==> !HasSpecial(values[i])) ==> r == Join(values, ",")
  {
    assert (forall i :: 0 <= i < |values| ==> !HasSpecial(values[i])) ==> MapSeq(values, CsvEscape) == values;
    Join(MapSeq(values, CsvEscape), ",")
  }

  /** A written record reads back as the fields it was written from. */
  lemma {:induction false} RecordRoundTrip(values: seq<string>)
    requires |values| >= 1
    ensures ParseRecord(ToCsvLine(values)) == Some(values)
    decreases |values|
  {
    if |values| == 1 {
      FieldRoundTrip(values[0], []);
      assert MapSeq(values, CsvEscape) == [CsvEscape(values[0])];
      assert ToCsvLine(values) == CsvEscape(values[0]) + [];
      assert values == [values[0]];
    } else {
      var rest := ToCsvLine(values[1..]);
      var tail := "," + rest;
      LineCons(values);
      FieldRoundTrip(values[0], tail);
      RecordRoundTrip(values[1..]);
      ParseCons(ToCsvLine(values), values[0], tail, values[1..]);
      assert values == [values[0]] + values[1..];
    }
  }

  /** A line of several fields is the first escaped field, a comma, and the line of the others. */
  lemma LineCons(values: seq<string>)
    requires |values| > 1
    ensures ToCsvLine(values) == CsvEscape(values[0]) + ("," + ToCsvLine(values[1..]))
  {
    var escaped := MapSeq(values, CsvEscape);
    assert MapSeq(values[1..], CsvEscape) == escaped[1..];
    assert Join(escaped, ",") == escaped[0] + "," + Join(escaped[1..], ",");
  }

  /** A field followed by a comma and a record reads as the field before the record's fields. */
  lemma ParseCons(line: string, field: string, tail: string, fields: seq<string>)
    requires ReadField(line) == Some((field, tail))
    requires tail != [] && tail[0] == ','
    requires ParseRecord(tail[1..]) == Some(fields)
    ensures ParseRecord(line) == Some([field] + fields)
  {
  }

  /** The number of commas in a text. */
  function Commas(s: string): nat {
    multiset(s)[',']
  }

  /**
   * A record none of whose fields needs quotes is written as its fields
   * joined by commas: the line has one comma fewer than fields, and
   * splitting it at the commas gives the fields back.
   */
  lemma {:induction false} PlainRecord(values: seq<string>)
    requires |values| >= 1
    requires forall i :: 0 <= i < |values| ==> !HasSpecial(values[i])
    ensures ToCsvLine(values) == Join(values, ",")
    ensures Commas(ToCsvLine(values)) == |values| - 1
    ensures Split(ToCsvLine(values), ',') == values
    decreases |values|
  {
    forall i | 0 <= i < |values| ensures ',' !in values[i] {
      HasSpecialMeaning(values[i]);
    }
    SplitJoin(values, ',');
    if |values| > 1 {
      PlainRecord(values[1..]);
      assert Join(values, ",") == values[0] + "," + Join(values[1..], ",");
      assert ',' !in multiset(values[0]);
    } else {
      assert ',' !in multiset(values[0]);
    }
  }

  // ---------------------------------------------------------------------------
  // The two files
  // ---------------------------------------------------------------------------

  const HabitsHeader: seq<string> :=
    ["id", "name", "schedule", "period", "target", "notes", "archived", "created_date", "archived_date"]

  const CheckinsHeader: seq<string> := ["habit_id", "date", "quantity"]

  /**
   * The header line of `habits.csv`: nine columns, none quoted, opening
   * with `id,name,schedule` ...
   */
  lemma HabitsHeaderLine()
    ensures Split(ToCsvLine(HabitsHeader), ',') == HabitsHeader && |HabitsHeader| == 9
    ensures Commas(ToCsvLine(HabitsHeader)) == 8
  {
    HabitsHeaderPlain();
    PlainRecord(HabitsHeader);
  }

  /** The first three columns are `id`, `name` and `schedule`. */
  lemma HabitsHeaderOpening()
    ensures ToCsvLine(HabitsHeader) == "id" + "," + "name" + "," + "schedule" + "," + Join(HabitsHeader[3..], ",")
  {
    HabitsHeaderPlain();
    JoinOpening(HabitsHeader);
  }

  /** Joining peels off the first three parts one at a time. */
  lemma JoinOpening(parts: seq<string>)
    requires |parts| > 3
    ensures Join(parts, ",") == parts[0] + "," + parts[1] + "," + parts[2] + "," + Join(parts[3..], ",")
  {
    assert parts[1..][1..] == parts[2..] && parts[2..][1..] == parts[3..];
    var a, b, c, rest := parts[0] + ",", parts[1] + ",", parts[2] + ",", Join(parts[3..], ",");
    assert Join(parts[2..], ",") == c + rest;
    assert Join(parts[1..], ",") == b + Join(parts[2..], ",");
    assert Join(parts, ",") == a + Join(parts[1..], ",");
    AppendAssoc(a, b, c + rest);
    AppendAssoc(a + b, c, rest);
    AppendAssoc(a, parts[1], ",");
    AppendAssoc(a + b, parts[2], ",");
  }

  lemma HabitsHeaderPlain()
    ensures forall i :: 0 <= i < |HabitsHeader| ==> !HasSpecial(HabitsHeader[i])
  {
    var h := HabitsHeader;
    forall i | 0 <= i < |h| ensures !HasSpecial(h[i]) {
      LowerWordNoSpecial(h[i]);
    }
  }

  /** One step of joining from the back: a word, a comma, and the join of what follows. */
  lemma JoinStep(parts: seq<string>, k: nat, word: string, rest: string, text: string)
    requires k + 1 < |parts| && parts[k] == word && Join(parts[k + 1..], ",") == rest
    requires text == word + "," + rest
    ensures Join(parts[k..], ",") == text
  {
    assert parts[k..][1..] == parts[k + 1..];
  }

  /** ... and that of `checkins.csv`. */
  lemma CheckinsHeaderLine()
    ensures ToCsvLine(CheckinsHeader) == "habit_id,date,quantity"
  {
    CheckinsHeaderPlain();
    CheckinsHeaderJoin();
  }

  lemma CheckinsHeaderPlain()
    ensures forall i :: 0 <= i < |CheckinsHeader| ==> !HasSpecial(CheckinsHeader[i])
  {
    var h := CheckinsHeader;
    forall i | 0 <= i < |h| ensures !HasSpecial(h[i]) {
      LowerWordNoSpecial(h[i]);
    }
  }

  lemma CheckinsHeaderJoin()
    ensures Join(CheckinsHeader, ",") == "habit_id,date,quantity"
  {
    var h := CheckinsHeader;
    assert h[2..] == ["quantity"];
    JoinStep(h, 1, "date", "quantity", "date,quantity");
    JoinStep(h, 0, "habit_id", "date,quantity", "habit_id,date,quantity");
    assert h[0..] == h;
  }

  /** A word of lower-case letters and underscores needs no quotes. */
  lemma LowerWordNoSpecial(s: string)
    requires forall i :: 0 <= i < |s| ==> 'a' <= s[i] <= 'z' || s[i] == '_'
    ensures !HasSpecial(s)
  {
    HasSpecialMeaning(s);
  }

  /** A habit's fields in header order; a missing note or archive date is an empty field. */
  function HabitRecord(h: Habit): (r: seq<string>)
    ensures |r| == |HabitsHeader| && r[0] == h.id && r[1] == h.name
  {
    [h.id, h.name, ScheduleToString(h.schedule), h.target.period, Decimal(h.target.quantity),
      if h.notes.Some? then h.notes.value else "",
      if h.archived then "true" else "false",
      h.createdDate,
      if h.archivedDate.Some? then h.archivedDate.value else ""]
  }

  /** A check-in's fields in header order. */
  function CheckinRecord(c: Checkin): (r: seq<string>)
    ensures |r| == |CheckinsHeader| && r[0] == c.habitId && r[1] == c.date
  {
    [c.habitId, c.date, Decimal(c.quantity)]
  }

  /** The lines of `habits.csv`: the header, then one line per habit in order. */
  function HabitLines(habits: seq<Habit>): (lines: seq<string>) {
    [ToCsvLine(HabitsHeader)] + MapSeq(habits, (h: Habit) => ToCsvLine(HabitRecord(h)))
  }

  /** The lines of `checkins.csv`: the header, then one line per check-in in order. */
  function CheckinLines(checkins: seq<Checkin>): (lines: seq<string>) {
    [ToCsvLine(CheckinsHeader)] + MapSeq(checkins, (c: Checkin) => ToCsvLine(CheckinRecord(c)))
  }

  /** Each line after the header of `habits.csv` reads back as the fields of its habit, whose id comes first. */
  lemma HabitLinesReadBack(habits: seq<Habit>, i: int)
    requires 0 <= i < |habits|
    ensures |HabitLines(habits)| == |habits| + 1
    ensures ParseRecord(HabitLines(habits)[i + 1]) == Some(HabitRecord(habits[i]))
    ensures ParseRecord(HabitLines(habits)[i + 1]).value[0] == habits[i].id
  {
    RecordRoundTrip(HabitRecord(habits[i]));
  }

  /** Each line after the header of `checkins.csv` reads back as its check-in's habit id, date and quantity. */
  lemma CheckinLinesReadBack(checkins: seq<Checkin>, i: int)
    requires 0 <= i < |checkins|
    ensures |CheckinLines(checkins)| == |checkins| + 1
    ensures ParseRecord(CheckinLines(checkins)[i + 1]) == Some([checkins[i].habitId, checkins[i].date, Decimal(checkins[i].quantity)])
  {
    RecordRoundTrip(CheckinRecord(checkins[i]));
  }

  /** The loop that builds the lines of `habits.csv`. */
  method HabitLinesLoop(habits: seq<Habit>) returns (lines: seq<string>)
    ensures lines == HabitLines(habits)
  {
    lines := [ToCsvLine(HabitsHeader)];
    for i := 0 to |habits|
      invariant |lines| == i + 1 && lines == HabitLines(habits[..i])
    {
      HabitLinesSnoc(habits, i);
      lines := lines + [ToCsvLine(HabitRecord(habits[i]))];
    }
    assert habits[..|habits|] == habits;
  }

  /** The loop that builds the lines of `checkins.csv`. */
  method CheckinLinesLoop(checkins: seq<Checkin>) returns (lines: seq<string>)
    ensures lines == CheckinLines(checkins)
  {
    lines := [ToCsvLine(CheckinsHeader)];
    for i := 0 to |checkins|
      invariant |lines| == i + 1 && lines == CheckinLines(checkins[..i])
    {
      CheckinLinesSnoc(checkins, i);
      lines := lines + [ToCsvLine(CheckinRecord(checkins[i]))];
    }
    assert checkins[..|checkins|] == checkins;
  }

  /** One more check-in adds its line at the end. */
  lemma CheckinLinesSnoc(checkins: seq<Checkin>, i: int)
    requires 0 <= i < |checkins|
    ensures CheckinLines(checkins[..i + 1]) == CheckinLines(checkins[..i]) + [ToCsvLine(CheckinRecord(checkins[i]))]
  {
    MapSeqSnoc([ToCsvLine(CheckinsHeader)], checkins, (c: Checkin) => ToCsvLine(CheckinRecord(c)), i);
  }

  /** One more habit adds its line at the end. */
  lemma HabitLinesSnoc(habits: seq<Habit>, i: int)
    requires 0 <= i < |habits|
    ensures HabitLines(habits[..i + 1]) == HabitLines(habits[..i]) + [ToCsvLine(HabitRecord(habits[i]))]
  {
    MapSeqSnoc([ToCsvLine(HabitsHeader)], habits, (h: Habit) => ToCsvLine(HabitRecord(h)), i);
  }
}
