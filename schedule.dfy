/**
 * Weekly schedules: a pattern ("everyday", "weekdays", "weekends" or a comma
 * list of three-letter day names) becomes a sorted set of ISO weekdays
 * (1 = Monday ... 7 = Sunday), and a set prints back as its pattern.
 */
module Schedules {
  import opened Errors
  import opened Text
  import opened Sorting

  /** The only schedule kind. */
  const DaysOfWeek: string := "days_of_week"

  datatype Schedule = Schedule(kind: string, days: seq<int>)

  /** The day-name table, name to ISO weekday. */
  function DayOfName(name: string): Option<int> {
    if name == "mon" then Some(1)
    else if name == "tue" then Some(2)
    else if name == "wed" then Some(3)
    else if name == "thu" then Some(4)
    else if name == "fri" then Some(5)
    else if name == "sat" then Some(6)
    else if name == "sun" then Some(7)
    else None
  }

  /** ISO weekday to day name. */
  function DayName(d: int): Option<string> {
    match d
    case 1 => Some("mon")
    case 2 => Some("tue")
    case 3 => Some("wed")
    case 4 => Some("thu")
    case 5 => Some("fri")
    case 6 => Some("sat")
    case 7 => Some("sun")
    case _ => None
  }

  /** The two tables are inverse to each other on the seven weekdays. */
  lemma DayNameInverse(d: int, name: string)
    ensures DayOfName(name) == Some(d) <==> 1 <= d <= 7 && DayName(d) == Some(name)
    ensures DayName(d).Some? <==> 1 <= d <= 7
    ensures DayName(d).Some? ==> |DayName(d).value| == 3 && ',' !in DayName(d).value && LowerWord(DayName(d).value)
  {
  }

  /** Only lower-case ASCII letters. */
  predicate LowerWord(n: string) {
    forall c :: c in n ==> 'a' <= c <= 'z'
  }

  /** Pieces of a split, trimmed, with the empty ones dropped. */
  function Tokens(parts: seq<string>): (r: seq<string>)
    ensures [] !in r
  {
    if parts == [] then []
    else
      var t := Trim(parts[0]);
      if t == [] then Tokens(parts[1..]) else [t] + Tokens(parts[1..])
  }

  /**
   * The day-collecting loop: each token is looked up, and its day is appended
   * unless already present. `None` when some token is not a day name.
   */
  function CollectDays(parts: seq<string>): (r: Option<seq<int>>)
    ensures r.Some? <==> forall i :: 0 <= i < |parts| ==> DayOfName(parts[i]).Some?
    ensures r.Some? ==> NoDuplicates(r.value)
    ensures r.Some? ==> forall d :: d in r.value <==> DayName(d).Some? && DayName(d).value in parts
  {
    if parts == [] then Some([])
    else
      var front, last := parts[..|parts| - 1], parts[|parts| - 1];
      assert parts == front + [last];
      match CollectDays(front)
      case None => None
      case Some(out) =>
        match DayOfName(last)
        case None => None
        case Some(d) =>
          var next := if d in out then out else out + [d];
          CollectDaysMembers(front, last, out, d, next);
          Some(next)
  }

  /** Appending the day of one more token keeps the collected days exactly those the tokens name. */
  lemma CollectDaysMembers(front: seq<string>, last: string, out: seq<int>, d: int, next: seq<int>)
    requires forall x :: x in out <==> DayName(x).Some? && DayName(x).value in front
    requires DayOfName(last) == Some(d) && next == if d in out then out else out + [d]
    ensures forall x :: x in next <==> DayName(x).Some? && DayName(x).value in front + [last]
  {
    forall x
      ensures x in next <==> DayName(x).Some? && DayName(x).value in front + [last]
    {
      DayNameInverse(x, last);
      DayNameInverse(d, last);
    }
  }

  /** What `parse_schedule_pattern` returns: the pattern is trimmed and lowercased first. */
  function ParsePattern(raw: string): (r: Result<Schedule>)
    ensures r.Err? ==> r.error == Usage
    ensures r.Ok? ==> r.value.kind == DaysOfWeek && r.value.days != [] && StrictlyAscending(r.value.days)
    ensures r.Ok? ==> forall d :: d in r.value.days ==> 1 <= d <= 7
  {
    ParseNormalized(Lower(Trim(raw)))
  }

  /** The rest of the parse, on the trimmed, lowercased pattern. */
  function ParseNormalized(pattern: string): (r: Result<Schedule>)
    ensures r.Err? ==> r.error == Usage
    ensures r.Ok? ==> r.value.kind == DaysOfWeek && r.value.days != [] && StrictlyAscending(r.value.days)
    ensures r.Ok? ==> forall d :: d in r.value.days ==> 1 <= d <= 7
  {
    if pattern == [] then Err(Usage)
    else if pattern == "everyday" then SortedSchedule([1, 2, 3, 4, 5, 6, 7])
    else if pattern == "weekdays" then SortedSchedule([1, 2, 3, 4, 5])
    else if pattern == "weekends" then SortedSchedule([6, 7])
    else
      var parts := Tokens(Split(pattern, ','));
      if parts == [] then Err(Usage)
      else
        match CollectDays(parts)
        case None => Err(Usage)
        case Some(out) =>
          CollectedSorted(parts);
          SortedSchedule(SortBy(out, IntLt()))
  }

  lemma CollectedSorted(parts: seq<string>)
    requires parts != [] && CollectDays(parts).Some?
    ensures var days := SortBy(CollectDays(parts).value, IntLt());
      days != [] && NoDuplicates(days) && (forall d :: d in days ==> 1 <= d <= 7)
  {
    var out := CollectDays(parts).value;
    var d := DayOfName(parts[0]).value;
    DayNameInverse(d, parts[0]);
    assert d in out;
    SortIntsAscending(out);
    forall d | d in out ensures 1 <= d <= 7 {
      DayNameInverse(d, "");
    }
  }

  /** The token loop of `parse_schedule_pattern`: look each token up, append its day unless present. */
  method CollectDayList(parts: seq<string>) returns (r: Option<seq<int>>)
    ensures r == CollectDays(parts)
  {
    var out: seq<int> := [];
    var i := 0;
    while i < |parts|
      invariant 0 <= i <= |parts|
      invariant CollectDays(parts[..i]) == Some(out)
    {
      var iso := DayOfName(parts[i]);
      CollectDaysStep(parts, i);
      if iso.None? {
        assert !DayOfName(parts[i]).Some?;
        return None;
      }
      if iso.value !in out {
        out := out + [iso.value];
      }
      i := i + 1;
    }
    assert parts[..i] == parts;
    return Some(out);
  }

  /** One more token: the collected days so far, then that token's day unless already present. */
  lemma CollectDaysStep(parts: seq<string>, i: int)
    requires 0 <= i < |parts|
    ensures CollectDays(parts[..i + 1]) ==
      match CollectDays(parts[..i])
      case None => None
      case Some(out) =>
        match DayOfName(parts[i])
        case None => None
        case Some(d) => if d in out then Some(out) else Some(out + [d])
  {
    var p := parts[..i + 1];
    assert p[..|p| - 1] == parts[..i];
  }

  /** The final `days.sort()` and the result record. */
  function SortedSchedule(days: seq<int>): (r: Result<Schedule>)
    requires days != [] && NoDuplicates(days)
    requires forall d :: d in days ==> 1 <= d <= 7
    ensures r.Ok? && r.value.kind == DaysOfWeek && r.value.days != []
    ensures StrictlyAscending(r.value.days)
    ensures forall d :: d in r.value.days <==> d in days
  {
    SortIntsAscending(days);
    Ok(Schedule(DaysOfWeek, SortBy(days, IntLt())))
  }

  /** `parse_schedule_pattern`. */
  method ParseSchedulePattern(raw: string) returns (r: Result<Schedule>)
    ensures r == ParsePattern(raw)
  {
    var pattern := Lower(Trim(raw));
    r := ParseNormalizedPattern(pattern);
  }

  /** The body of `parse_schedule_pattern` after normalising, with its token loop. */
  method ParseNormalizedPattern(pattern: string) returns (r: Result<Schedule>)
    ensures r == ParseNormalized(pattern)
  {
    if pattern == [] {
      return Err(Usage);
    }
    var days: seq<int>;
    if pattern == "everyday" {
      days := [1, 2, 3, 4, 5, 6, 7];
    } else if pattern == "weekdays" {
      days := [1, 2, 3, 4, 5];
    } else if pattern == "weekends" {
      days := [6, 7];
    } else {
      var parts := Tokens(Split(pattern, ','));
      if parts == [] {
        return Err(Usage);
      }
      var collected := CollectDayList(parts);
      if collected.None? {
        return Err(Usage);
      }
      CollectedSorted(parts);
      days := SortBy(collected.value, IntLt());
    }
    r := SortedSchedule(days);
  }

  /** The named days of an ascending day list; numbers outside 1..7 are skipped. */
  function DayNames(days: seq<int>): (names: seq<string>)
    ensures forall i :: 0 <= i < |names| ==> |names[i]| == 3 && ',' !in names[i] && LowerWord(names[i])
  {
    if days == [] then []
    else
      DayNameInverse(days[0], "");
      match DayName(days[0])
      case None => DayNames(days[1..])
      case Some(n) => [n] + DayNames(days[1..])
  }

  predicate CountsUpFromOne(days: seq<int>) {
    forall i :: 0 <= i < |days| ==> days[i] == i + 1
  }

  /** `schedule_to_string`. */
  function ScheduleToString(s: Schedule): string {
    var days := SortBy(s.days, IntLt());
    if |days| == 7 && CountsUpFromOne(days) then "everyday"
    else if |days| == 5 && CountsUpFromOne(days) then "weekdays"
    else if |days| == 2 && days[0] == 6 && days[1] == 7 then "weekends"
    else Join(DayNames(days), ",")
  }

  /** `validate_schedule`. */
  function ValidateSchedule(s: Schedule): (r: Outcome)
    ensures r.Fail? ==> r.error == Usage
    ensures r.Pass? ==> s.days != []
  {
    if s.kind != DaysOfWeek then Fail(Usage)
    else if s.days == [] then Fail(Usage)
    else if !(forall i :: 0 <= i < |s.days| ==> 1 <= s.days[i] <= 7) then Fail(Usage)
    else Pass
  }

  /** Every schedule the parser produces passes validation. */
  lemma ParsedScheduleValid(raw: string)
    requires ParsePattern(raw).Ok?
    ensures ValidateSchedule(ParsePattern(raw).value) == Pass
  {
    var s := ParsePattern(raw).value;
    forall i | 0 <= i < |s.days| ensures 1 <= s.days[i] <= 7 {
      assert s.days[i] in s.days;
    }
  }

  /** The three keywords give their fixed day sets. */
  lemma KeywordSchedules(pattern: string)
    requires pattern == "everyday" || pattern == "weekdays" || pattern == "weekends"
    ensures ParseNormalized(pattern).Ok?
    ensures var days := ParseNormalized(pattern).value.days;
      && (pattern == "everyday" ==> |days| == 7 && CountsUpFromOne(days))
      && (pattern == "weekdays" ==> |days| == 5 && CountsUpFromOne(days))
      && (pattern == "weekends" ==> days == [6, 7])
  {
    var days := ParseNormalized(pattern).value.days;
    if pattern == "everyday" {
      EverydayDays(days);
    } else if pattern == "weekdays" {
      WeekdaysDays(days);
    } else {
      WeekendsDays(days);
    }
  }

  lemma EverydayDays(days: seq<int>)
    requires days == SortedSchedule([1, 2, 3, 4, 5, 6, 7]).value.days
    ensures |days| == 7 && CountsUpFromOne(days)
  {
    var all := [1, 2, 3, 4, 5, 6, 7];
    AllDaysCountUp(all);
    AscendingUnique(days, all);
  }

  lemma WeekdaysDays(days: seq<int>)
    requires days == SortedSchedule([1, 2, 3, 4, 5]).value.days
    ensures |days| == 5 && CountsUpFromOne(days)
  {
    var work := [1, 2, 3, 4, 5];
    assert CountsUpFromOne(work);
    CountsUpAscending(work);
    AscendingUnique(days, work);
  }

  lemma WeekendsDays(days: seq<int>)
    requires days == SortedSchedule([6, 7]).value.days
    ensures days == [6, 7]
  {
    AscendingUnique(days, [6, 7]);
  }

  lemma AllDaysCountUp(all: seq<int>)
    requires all == [1, 2, 3, 4, 5, 6, 7]
    ensures CountsUpFromOne(all) && StrictlyAscending(all)
  {
    assert CountsUpFromOne(all);
  }

  lemma CountsUpAscending(days: seq<int>)
    requires CountsUpFromOne(days)
    ensures StrictlyAscending(days)
  {
  }

  /**
   * Any other non-blank pattern is a comma list: it parses iff some token is
   * left after trimming and dropping empty ones and every token is a day name;
   * the days are then exactly the named ones.
   */
  lemma DayListPattern(pattern: string)
    requires pattern != [] && pattern != "everyday" && pattern != "weekdays" && pattern != "weekends"
    ensures var tokens := Tokens(Split(pattern, ','));
      ParseNormalized(pattern).Ok? <==>
        tokens != [] && forall i :: 0 <= i < |tokens| ==> DayOfName(tokens[i]).Some?
    ensures var tokens := Tokens(Split(pattern, ','));
      ParseNormalized(pattern).Ok? ==>
        forall d :: d in ParseNormalized(pattern).value.days <==> DayName(d).Some? && DayName(d).value in tokens
  {
    var tokens := Tokens(Split(pattern, ','));
    if tokens != [] && CollectDays(tokens).Some? {
      var out := CollectDays(tokens).value;
      SortIntsAscending(out);
    }
  }

  // ---------------------------------------------------------------------------
  // Printing a schedule back
  // ---------------------------------------------------------------------------

  predicate WeekdaySet(days: seq<int>) {
    days != [] && StrictlyAscending(days) && forall d :: d in days ==> 1 <= d <= 7
  }

  lemma {:induction false} DayNamesOfWeekdays(days: seq<int>)
    requires forall d :: d in days ==> 1 <= d <= 7
    ensures |DayNames(days)| == |days|
    ensures forall i :: 0 <= i < |days| ==> DayName(days[i]) == Some(DayNames(days)[i])
    decreases |days|
  {
    if days != [] {
      assert days[0] in days;
      assert forall d :: d in days[1..] ==> d in days;
      DayNamesOfWeekdays(days[1..]);
    }
  }

  lemma {:induction false} JoinLowerCommas(names: seq<string>)
    requires forall i :: 0 <= i < |names| ==> LowerWord(names[i])
    ensures forall c :: c in Join(names, ",") ==> c == ',' || 'a' <= c <= 'z'
    decreases |names|
  {
    if |names| > 1 {
      JoinLowerCommas(names[1..]);
    }
  }

  lemma {:induction false} JoinLength(names: seq<string>)
    requires names != []
    requires forall i :: 0 <= i < |names| ==> |names[i]| == 3
    ensures |Join(names, ",")| == 4 * |names| - 1
    decreases |names|
  {
    if |names| > 1 {
      JoinLength(names[1..]);
    }
  }

  /** A piece that `Tokens` keeps as it is. */
  predicate IsToken(p: string) {
    p != [] && Trim(p) == p
  }

  lemma {:induction false} TokensNoop(parts: seq<string>)
    requires forall i :: 0 <= i < |parts| ==> IsToken(parts[i])
    ensures Tokens(parts) == parts
    decreases |parts|
  {
    if parts != [] {
      var rest := parts[1..];
      assert forall i :: 0 <= i < |rest| ==> rest[i] == parts[i + 1];
      TokensNoop(rest);
      TokensCons(parts);
      assert parts == [parts[0]] + rest;
    }
  }

  /** One step of `Tokens` on a piece that trimming leaves alone. */
  lemma TokensCons(parts: seq<string>)
    requires parts != [] && IsToken(parts[0])
    ensures Tokens(parts) == [parts[0]] + Tokens(parts[1..])
  {
  }

  lemma NameIsToken(n: string)
    requires |n| == 3 && LowerWord(n)
    ensures Trim(n) == n
  {
    assert n[0] in n && n[2] in n;
    TrimNoop(n);
  }

  /** The printed form of a list that is not a keyword set: ascending names joined by ','. */
  lemma PrintedDayList(days: seq<int>)
    requires WeekdaySet(days)
    requires !(|days| == 7 && CountsUpFromOne(days))
    requires !(|days| == 5 && CountsUpFromOne(days))
    requires !(|days| == 2 && days[0] == 6 && days[1] == 7)
    ensures ScheduleToString(Schedule(DaysOfWeek, days)) == Join(DayNames(days), ",")
  {
    IntLtOrder();
    SortBySortedNoop(days, IntLt());
  }

  /** A printed pattern needs no trimming or lowercasing. */
  lemma PrintedIsNormal(s: string)
    requires s != []
    requires forall c :: c in s ==> c == ',' || 'a' <= c <= 'z'
    requires s[0] != ',' && s[|s| - 1] != ','
    ensures ParsePattern(s) == ParseNormalized(s)
  {
    assert s[0] in s && s[|s| - 1] in s;
    TrimNoop(s);
    LowerNoop(s);
  }

  lemma AscendingSortNoop(days: seq<int>)
    requires StrictlyAscending(days)
    ensures SortBy(days, IntLt()) == days
  {
    IntLtOrder();
    assert Sorted(days, IntLt());
    SortBySortedNoop(days, IntLt());
  }

  /** The three keyword sets print as their keywords. */
  lemma PrintedKeyword(days: seq<int>)
    requires StrictlyAscending(days)
    ensures |days| == 7 && CountsUpFromOne(days) ==> ScheduleToString(Schedule(DaysOfWeek, days)) == "everyday"
    ensures |days| == 5 && CountsUpFromOne(days) ==> ScheduleToString(Schedule(DaysOfWeek, days)) == "weekdays"
    ensures |days| == 2 && days[0] == 6 && days[1] == 7 ==> ScheduleToString(Schedule(DaysOfWeek, days)) == "weekends"
  {
    AscendingSortNoop(days);
  }

  lemma CountsUpEqual(a: seq<int>, b: seq<int>)
    requires |a| == |b| && CountsUpFromOne(a) && CountsUpFromOne(b)
    ensures a == b
  {
  }

  /**
   * Round trip: printing a valid day set and parsing the printed pattern gives
   * the same schedule back.
   */
  lemma ScheduleRoundTrip(days: seq<int>)
    requires WeekdaySet(days)
    ensures ParsePattern(ScheduleToString(Schedule(DaysOfWeek, days))) == Ok(Schedule(DaysOfWeek, days))
  {
    var str := ScheduleToString(Schedule(DaysOfWeek, days));
    PrintedKeyword(days);
    if (|days| == 7 || |days| == 5) && CountsUpFromOne(days) {
      KeywordRoundTrip(str);
      CountsUpEqual(days, ParsePattern(str).value.days);
    } else if |days| == 2 && days[0] == 6 && days[1] == 7 {
      KeywordRoundTrip(str);
      assert days == [6, 7];
    } else {
      PrintedDayList(days);
      DayListRoundTrip(days);
    }
  }

  /** Each keyword parses to its set. */
  lemma KeywordRoundTrip(pattern: string)
    requires pattern == "everyday" || pattern == "weekdays" || pattern == "weekends"
    ensures ParsePattern(pattern).Ok? && ParsePattern(pattern).value.kind == DaysOfWeek
    ensures var days := ParsePattern(pattern).value.days;
      && (pattern == "everyday" ==> |days| == 7 && CountsUpFromOne(days))
      && (pattern == "weekdays" ==> |days| == 5 && CountsUpFromOne(days))
      && (pattern == "weekends" ==> days == [6, 7])
  {
    PrintedIsNormal(pattern);
    KeywordSchedules(pattern);
  }

  lemma DayListRoundTrip(days: seq<int>)
    requires WeekdaySet(days)
    ensures ParsePattern(Join(DayNames(days), ",")) == Ok(Schedule(DaysOfWeek, days))
  {
    var str := Join(DayNames(days), ",");
    PrintedList(days);
    DayListPattern(str);
    ParsedNames(str, days);
  }

  /** A printed day list is a normalised, non-keyword pattern whose tokens are the day names. */
  lemma PrintedList(days: seq<int>)
    requires WeekdaySet(days)
    ensures var str := Join(DayNames(days), ",");
      && ParsePattern(str) == ParseNormalized(str)
      && str != [] && str != "everyday" && str != "weekdays" && str != "weekends"
      && Tokens(Split(str, ',')) == DayNames(days)
  {
    var str := Join(DayNames(days), ",");
    assert ParsePattern(str) == ParseNormalized(str) && |str| % 4 == 3 by {
      PrintedListNormal(days);
    }
    assert Tokens(Split(str, ',')) == DayNames(days) by {
      PrintedListTokens(days);
    }
    NotKeyword(str);
  }

  /** A pattern of length 3 mod 4 is none of the keywords. */
  lemma NotKeyword(str: string)
    requires |str| % 4 == 3
    ensures str != [] && str != "everyday" && str != "weekdays" && str != "weekends"
  {
    assert |"everyday"| == |"weekdays"| == |"weekends"| == 8;
  }

  lemma PrintedListNormal(days: seq<int>)
    requires WeekdaySet(days)
    ensures var str := Join(DayNames(days), ",");
      ParsePattern(str) == ParseNormalized(str) && |str| % 4 == 3
  {
    var names := DayNames(days);
    var str := Join(names, ",");
    DayNamesOfWeekdays(days);
    JoinLowerCommas(names);
    JoinEnds(names);
    PrintedIsNormal(str);
    PrintedListLength(names);
  }

  lemma PrintedListLength(names: seq<string>)
    requires names != []
    requires forall i :: 0 <= i < |names| ==> |names[i]| == 3
    ensures |Join(names, ",")| % 4 == 3
  {
    JoinLength(names);
    var n := |names|;
    assert (4 * n - 1) % 4 == 3;
  }

  lemma PrintedListTokens(days: seq<int>)
    requires WeekdaySet(days)
    ensures Tokens(Split(Join(DayNames(days), ","), ',')) == DayNames(days)
  {
    var names := DayNames(days);
    DayNamesOfWeekdays(days);
    SplitJoin(names, ',');
    forall i | 0 <= i < |names| ensures IsToken(names[i]) {
      NameIsToken(names[i]);
    }
    TokensNoop(names);
  }

  lemma {:induction false} JoinEnds(names: seq<string>)
    requires names != []
    requires forall i :: 0 <= i < |names| ==> |names[i]| == 3 && ',' !in names[i]
    ensures var str := Join(names, ",");
      |str| > 0 && str[0] != ',' && str[|str| - 1] != ','
    decreases |names|
  {
    assert names[0][0] in names[0];
    if |names| > 1 {
      JoinEnds(names[1..]);
      JoinLength(names[1..]);
    } else {
      assert names[0][2] in names[0];
    }
  }

  /** Parsing the printed tokens yields the days again. */
  lemma ParsedNames(str: string, days: seq<int>)
    requires WeekdaySet(days)
    requires str != [] && str != "everyday" && str != "weekdays" && str != "weekends"
    requires Tokens(Split(str, ',')) == DayNames(days)
    ensures ParseNormalized(str) == Ok(Schedule(DaysOfWeek, days))
  {
    var names := DayNames(days);
    DayNamesOfWeekdays(days);
    forall i | 0 <= i < |names| ensures DayOfName(names[i]).Some? {
      assert days[i] in days;
      DayNameInverse(days[i], names[i]);
    }
    DayListPattern(str);
    var r := ParseNormalized(str).value;
    forall d ensures d in r.days <==> d in days {
      NamesMembership(days, d);
    }
    AscendingUnique(r.days, days);
  }

  /** A weekday is named in the printed list iff it is in the set. */
  lemma NamesMembership(days: seq<int>, d: int)
    requires forall x :: x in days ==> 1 <= x <= 7
    ensures (DayName(d).Some? && DayName(d).value in DayNames(days)) <==> d in days
  {
    var names := DayNames(days);
    DayNamesOfWeekdays(days);
    if d in days {
      var i :| 0 <= i < |days| && days[i] == d;
      assert names[i] in names;
    }
    if DayName(d).Some? && DayName(d).value in names {
      var i :| 0 <= i < |names| && names[i] == DayName(d).value;
      assert days[i] in days;
      DayNameInverse(days[i], names[i]);
      DayNameInverse(d, names[i]);
    }
  }

  /** The keyword patterns of the round-trip test print back unchanged. */
  lemma KeywordRoundTripTest(p: string)
    requires p == "everyday" || p == "weekdays" || p == "weekends"
    ensures ParsePattern(p).Ok? && ScheduleToString(ParsePattern(p).value) == p
  {
    KeywordRoundTrip(p);
    PrintedKeyword(ParsePattern(p).value.days);
  }

  /** "mon,wed,fri" prints back unchanged. */
  lemma ListRoundTripTest(p: string)
    requires p == "mon,wed,fri"
    ensures ParsePattern(p).Ok? && ScheduleToString(ParsePattern(p).value) == p
  {
    var days := [1, 3, 5];
    AscendingSortNoop(days);
    assert DayNames(days) == ["mon", "wed", "fri"] by {
      assert DayNames([5]) == ["fri"];
      assert DayNames([3, 5]) == ["wed", "fri"];
    }
    assert Join(["mon", "wed", "fri"], ",") == p by {
      assert Join(["fri"], ",") == "fri";
      assert Join(["wed", "fri"], ",") == "wed,fri";
    }
    PrintedDayList(days);
    DayListRoundTrip(days);
  }

  /** Patterns that trim and lowercase to the same text parse alike. */
  lemma SameNormalForm(a: string, b: string)
    requires Lower(Trim(a)) == Lower(Trim(b))
    ensures ParsePattern(a) == ParsePattern(b)
  {
  }

  /** A KELVIN SIGN lowercases to 'k', so "WEE\U{212A}DAYS" is the keyword `weekdays`. */
  lemma KelvinKeywordTest()
    ensures ParsePattern("WEE\U{212A}DAYS") == ParsePattern("weekdays")
  {
    KelvinTrimmed();
    WeekdaysTrimmed();
    KelvinLower();
    WeekdaysLower();
    SameNormalForm("WEE\U{212A}DAYS", "weekdays");
  }

  lemma KelvinTrimmed()
    ensures Trim("WEE\U{212A}DAYS") == "WEE\U{212A}DAYS"
  {
    TrimNoop("WEE\U{212A}DAYS");
  }

  lemma WeekdaysTrimmed()
    ensures Trim("weekdays") == "weekdays"
  {
    TrimNoop("weekdays");
  }

  lemma KelvinLower()
    ensures Lower("WEE\U{212A}DAYS") == "weekdays"
  {
  }

  lemma WeekdaysLower()
    ensures Lower("weekdays") == "weekdays"
  {
  }
}
