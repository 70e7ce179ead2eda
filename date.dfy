/**
 * Model of `Bytes\Helpers\DateTime\Date`. A wall-clock date-time is a
 * count of minutes since 1970-01-01 00:00 local time plus a second that
 * the helpers carry unchanged; days are 1440 minutes (no daylight-saving
 * transitions), so hour and day boundaries need no special handling.
 */
module Date {
  import opened Wrappers

  const MinutesPerHour: int := 60
  const MinutesPerDay: int := 1440
  const SecondsPerMinute: int := 60

  /** Day 0, 1970-01-01, was a Thursday (Sunday is 0, as PHP's format 'w'). */
  const EpochDayOfWeek: int := 4

  datatype LocalDateTime = LocalDateTime(minutes: int, second: int)

  /** PHP's format 'i' read back as an integer: the minute of the hour. */
  function MinuteOf(t: LocalDateTime): (r: int)
    ensures 0 <= r < MinutesPerHour
  {
    t.minutes % MinutesPerHour
  }

  /** PHP's format 'G' read back as an integer: the hour of the day. */
  function HourOf(t: LocalDateTime): (r: int)
    ensures 0 <= r < 24
  {
    (t.minutes % MinutesPerDay) / MinutesPerHour
  }

  /** The day number of `t`; Dafny's `/` rounds down, also before 1970. */
  function DayOf(t: LocalDateTime): int
  {
    t.minutes / MinutesPerDay
  }

  /** PHP's format 'w': 0 (Sunday) to 6 (Saturday). */
  function DayOfWeek(t: LocalDateTime): (r: int)
    ensures 0 <= r < 7
  {
    (DayOf(t) + EpochDayOfWeek) % 7
  }

  /** Seconds since the epoch: the order `DatePeriod` compares in. */
  function Instant(t: LocalDateTime): int
  {
    t.minutes * SecondsPerMinute + t.second
  }

  /** Day number of a proleptic Gregorian date (days since 1970-01-01). */
  function DaysFromCivil(year: int, month: int, day: int): int
  {
    var y := if month <= 2 then year - 1 else year;
    var era := y / 400;
    var yearOfEra := y - era * 400;
    var monthIndex := (month + 9) % 12;
    var dayOfYear := (153 * monthIndex + 2) / 5 + day - 1;
    var dayOfEra := yearOfEra * 365 + yearOfEra / 4 - yearOfEra / 100 + dayOfYear;
    era * 146097 + dayOfEra - 719468
  }

  /** The wall-clock time `year-month-day hour:minute:00`. */
  function At(year: int, month: int, day: int, hour: int, minute: int): LocalDateTime
  {
    LocalDateTime(DaysFromCivil(year, month, day) * MinutesPerDay + hour * MinutesPerHour + minute, 0)
  }

  lemma CalendarAnchor()
    ensures DaysFromCivil(1970, 1, 1) == 0
    ensures DaysFromCivil(2020, 3, 30) == 18351
    ensures DayOfWeek(At(2020, 3, 30, 0, 0)) == 1
  {
  }

  // ---------------------------------------------------------------------
  // Minute snapping: reduceMinutesNoTensToValue / increaseMinutesNoTensToValue

  /** The last digit of the minute of hour is `m % 10`, because 60 is a multiple of 10. */
  predicate DigitAllowed(m: int, allowedMinutes: set<int>)
  {
    m % 10 in allowedMinutes
  }

  /** The do-while loops only stop when some digit 0..9 is allowed. */
  predicate SomeDigitAllowed(allowedMinutes: set<int>)
  {
    exists d :: 0 <= d <= 9 && d in allowedMinutes
  }

  /**
   * `r` is `t` moved back by the least number of minutes (0 to 9) that
   * lands on an allowed last digit, with the second unchanged.
   */
  predicate IsReduction(t: LocalDateTime, allowedMinutes: set<int>, r: LocalDateTime)
  {
    && r.second == t.second
    && t.minutes - 9 <= r.minutes <= t.minutes
    && DigitAllowed(r.minutes, allowedMinutes)
    && forall m :: r.minutes < m <= t.minutes ==> !DigitAllowed(m, allowedMinutes)
  }

  /**
   * `r` is `t` moved forward by the least number of minutes (0 to 9) that
   * lands on an allowed last digit, with the second unchanged.
   */
  predicate IsIncrease(t: LocalDateTime, allowedMinutes: set<int>, r: LocalDateTime)
  {
    && r.second == t.second
    && t.minutes <= r.minutes <= t.minutes + 9
    && DigitAllowed(r.minutes, allowedMinutes)
    && forall m :: t.minutes <= m < r.minutes ==> !DigitAllowed(m, allowedMinutes)
  }

  lemma MinuteDigit(t: LocalDateTime)
    ensures 0 <= MinuteOf(t) % 10 <= 9
    ensures MinuteOf(t) % 10 == t.minutes % 10
  {
    var q := t.minutes / MinutesPerHour;
    assert t.minutes == 60 * q + MinuteOf(t);
    assert 60 * q == 10 * (6 * q);
  }

  /** Going back `j` minutes from `m` reaches last digit `d` when `j = (m - d) % 10`. */
  lemma DigitBack(m: int, d: int)
    requires 0 <= d <= 9
    ensures (m - (m - d) % 10) % 10 == d
  {
    var j := (m - d) % 10;
    var q := (m - d) / 10;
    assert m - d == 10 * q + j;
    assert m - j == 10 * q + d;
  }

  /** Going forward `j` minutes from `m` reaches last digit `d` when `j = (d - m) % 10`. */
  lemma DigitForward(m: int, d: int)
    requires 0 <= d <= 9
    ensures (m + (d - m) % 10) % 10 == d
  {
    var j := (d - m) % 10;
    var q := (d - m) / 10;
    assert d - m == 10 * q + j;
    assert m + j == d - 10 * q;
  }

  /** One step of the loop in reduce: the digit goes down by one, 0 wrapping to 9. */
  lemma DigitStepBack(m: int)
    ensures (m - 1) % 10 == if m % 10 == 0 then 9 else m % 10 - 1
  {
    var q := m / 10;
    assert m == 10 * q + m % 10;
    if m % 10 == 0 {
      assert m - 1 == 10 * (q - 1) + 9;
    } else {
      assert m - 1 == 10 * q + (m % 10 - 1);
    }
  }

  /** One step of the loop in increase: the digit goes up by one, 9 wrapping to 0. */
  lemma DigitStepForward(m: int)
    ensures (m + 1) % 10 == if m % 10 == 9 then 0 else m % 10 + 1
  {
    var q := m / 10;
    assert m == 10 * q + m % 10;
    if m % 10 == 9 {
      assert m + 1 == 10 * (q + 1);
    } else {
      assert m + 1 == 10 * q + (m % 10 + 1);
    }
  }

  method ReduceMinutesNoTensToValue(dateTime: LocalDateTime, allowedMinutes: set<int>) returns (r: LocalDateTime)
    requires SomeDigitAllowed(allowedMinutes)
    ensures IsReduction(dateTime, allowedMinutes, r)
    ensures DigitAllowed(dateTime.minutes, allowedMinutes) ==> r == dateTime
  {
    MinuteDigit(dateTime);
    var minute := MinuteOf(dateTime) % 10;
    if minute in allowedMinutes {
      return dateTime;
    }
    // the allowed digit that is reached first bounds the loop
    ghost var d :| 0 <= d <= 9 && d in allowedMinutes;
    ghost var bound := (dateTime.minutes - d) % 10;
    DigitBack(dateTime.minutes, d);
    var offset := 0;
    while true
      invariant 0 <= offset < bound
      invariant minute == (dateTime.minutes - offset) % 10
      invariant forall m :: dateTime.minutes - offset <= m <= dateTime.minutes ==> !DigitAllowed(m, allowedMinutes)
      decreases bound - offset
    {
      DigitStepBack(dateTime.minutes - offset);
      offset := offset + 1;
      minute := minute - 1;
      if minute < 0 {
        minute := 9;
      }
      if minute in allowedMinutes {
        break;
      }
    }
    r := dateTime.(minutes := dateTime.minutes - offset);
  }

  method IncreaseMinutesNoTensToValue(dateTime: LocalDateTime, allowedMinutes: set<int>) returns (r: LocalDateTime)
    requires SomeDigitAllowed(allowedMinutes)
    ensures IsIncrease(dateTime, allowedMinutes, r)
    ensures DigitAllowed(dateTime.minutes, allowedMinutes) ==> r == dateTime
  {
    MinuteDigit(dateTime);
    var minute := MinuteOf(dateTime) % 10;
    if minute in allowedMinutes {
      return dateTime;
    }
    ghost var d :| 0 <= d <= 9 && d in allowedMinutes;
    ghost var bound := (d - dateTime.minutes) % 10;
    DigitForward(dateTime.minutes, d);
    var offset := 0;
    while true
      invariant 0 <= offset < bound
      invariant minute == (dateTime.minutes + offset) % 10
      invariant forall m :: dateTime.minutes <= m <= dateTime.minutes + offset ==> !DigitAllowed(m, allowedMinutes)
      decreases bound - offset
    {
      DigitStepForward(dateTime.minutes + offset);
      offset := offset + 1;
      minute := minute + 1;
      if minute > 9 {
        minute := 0;
      }
      if minute in allowedMinutes {
        break;
      }
    }
    r := dateTime.(minutes := dateTime.minutes + offset);
  }

  /** The postcondition of reduce fixes the result: there is one nearest allowed minute below. */
  lemma ReductionUnique(t: LocalDateTime, allowedMinutes: set<int>, r1: LocalDateTime, r2: LocalDateTime)
    requires IsReduction(t, allowedMinutes, r1) && IsReduction(t, allowedMinutes, r2)
    ensures r1 == r2
  {
  }

  /** The postcondition of increase fixes the result: there is one nearest allowed minute above. */
  lemma IncreaseUnique(t: LocalDateTime, allowedMinutes: set<int>, r1: LocalDateTime, r2: LocalDateTime)
    requires IsIncrease(t, allowedMinutes, r1) && IsIncrease(t, allowedMinutes, r2)
    ensures r1 == r2
  {
  }

  /** Reducing a reduced time changes nothing (the second call returns its input). */
  lemma ReductionIdempotent(t: LocalDateTime, allowedMinutes: set<int>, r: LocalDateTime, rr: LocalDateTime)
    requires IsReduction(t, allowedMinutes, r) && IsReduction(r, allowedMinutes, rr)
    ensures rr == r
  {
    assert IsReduction(r, allowedMinutes, r);
    ReductionUnique(r, allowedMinutes, r, rr);
  }

  /** Increasing an increased time changes nothing (the second call returns its input). */
  lemma IncreaseIdempotent(t: LocalDateTime, allowedMinutes: set<int>, r: LocalDateTime, rr: LocalDateTime)
    requires IsIncrease(t, allowedMinutes, r) && IsIncrease(r, allowedMinutes, rr)
    ensures rr == r
  {
    assert IsIncrease(r, allowedMinutes, r);
    IncreaseUnique(r, allowedMinutes, r, rr);
  }

  /** The test suite's cases with allowed digits {5}, across hour and day boundaries. */
  lemma SnappingExamples()
    ensures IsReduction(At(2020, 3, 30, 16, 36), {5}, At(2020, 3, 30, 16, 35))
    ensures IsIncrease(At(2020, 3, 30, 16, 36), {5}, At(2020, 3, 30, 16, 45))
    ensures IsReduction(At(2020, 3, 30, 16, 1), {5}, At(2020, 3, 30, 15, 55))
    ensures IsIncrease(At(2020, 3, 30, 16, 1), {5}, At(2020, 3, 30, 16, 5))
    ensures IsReduction(At(2020, 3, 30, 0, 1), {5}, At(2020, 3, 29, 23, 55))
    ensures IsIncrease(At(2020, 3, 30, 0, 1), {5}, At(2020, 3, 30, 0, 5))
    ensures IsReduction(At(2020, 3, 29, 23, 59), {5}, At(2020, 3, 29, 23, 55))
    ensures IsIncrease(At(2020, 3, 29, 23, 59), {5}, At(2020, 3, 30, 0, 5))
  {
    CalendarAnchor();
    assert DaysFromCivil(2020, 3, 29) == 18350;
  }

  // ---------------------------------------------------------------------
  // countWeekdaysInRange

  /** One `DateInterval('1 day')` later, same time of day. */
  function NextDay(t: LocalDateTime): (r: LocalDateTime)
    ensures Instant(r) == Instant(t) + MinutesPerDay * SecondsPerMinute
    ensures r.second == t.second
  {
    t.(minutes := t.minutes + MinutesPerDay)
  }

  /** The instants `new DatePeriod($start, 1 day, $end)` visits: `start` and each day after it, while before `end`. */
  function Period(start: LocalDateTime, end: LocalDateTime): (r: seq<LocalDateTime>)
    ensures r == [] <==> Instant(end) <= Instant(start)
    ensures r != [] ==> r[0] == start
    decreases Instant(end) - Instant(start)
  {
    if Instant(start) < Instant(end) then [start] + Period(NextDay(start), end) else []
  }

  /** Monday (1) to Friday (5): any day number but Sunday (0) and Saturday (6). */
  predicate IsWeekdayNumber(d: int)
  {
    d != 0 && d != 6
  }

  predicate IsWeekday(t: LocalDateTime)
  {
    IsWeekdayNumber(DayOfWeek(t))
  }

  /** `count(Arr::where($days, fn => !in_array(dayOfWeek, [0, 6])))`. */
  function WeekdayCount(days: seq<LocalDateTime>): (r: nat)
    ensures r <= |days|
  {
    if days == [] then 0 else (if IsWeekday(days[0]) then 1 else 0) + WeekdayCount(days[1..])
  }

  method CountWeekdaysInRange(start: LocalDateTime, end: LocalDateTime) returns (count: nat)
    ensures count == WeekdayCount(Period(start, end))
    ensures Instant(end) <= Instant(start) ==> count == 0
  {
    count := 0;
    var current := start;
    while Instant(current) < Instant(end)
      invariant count + WeekdayCount(Period(current, end)) == WeekdayCount(Period(start, end))
      decreases Instant(end) - Instant(current)
    {
      if DayOfWeek(current) != 0 && DayOfWeek(current) != 6 {
        count := count + 1;
      }
      current := NextDay(current);
    }
  }

  /**
   * The period is half-open: the `k`-th instant is `start` plus `k` days,
   * every instant is before `end`, and one more day would reach `end`.
   */
  lemma {:induction false} PeriodShape(start: LocalDateTime, end: LocalDateTime)
    ensures forall k :: 0 <= k < |Period(start, end)| ==>
      Period(start, end)[k] == start.(minutes := start.minutes + k * MinutesPerDay) &&
      Instant(Period(start, end)[k]) < Instant(end)
    ensures Instant(start) < Instant(end) ==>
      Instant(end) <= Instant(start) + |Period(start, end)| * MinutesPerDay * SecondsPerMinute
    decreases Instant(end) - Instant(start)
  {
    if Instant(start) < Instant(end) {
      var rest := Period(NextDay(start), end);
      PeriodShape(NextDay(start), end);
      forall k | 0 <= k < |Period(start, end)|
        ensures Period(start, end)[k] == start.(minutes := start.minutes + k * MinutesPerDay)
      {
        if k > 0 {
          assert Period(start, end)[k] == rest[k - 1];
        }
      }
    }
  }

  lemma NextDayOfWeek(t: LocalDateTime)
    ensures DayOf(NextDay(t)) == DayOf(t) + 1
    ensures DayOfWeek(NextDay(t)) == if DayOfWeek(t) == 6 then 0 else DayOfWeek(t) + 1
  {
    var q := t.minutes / MinutesPerDay;
    assert t.minutes == MinutesPerDay * q + t.minutes % MinutesPerDay;
    assert NextDay(t).minutes == MinutesPerDay * (q + 1) + t.minutes % MinutesPerDay;
  }

  /** Counting a non-empty period: its first day, then the period from the next day. */
  lemma CountStep(start: LocalDateTime, end: LocalDateTime)
    requires Instant(start) < Instant(end)
    ensures WeekdayCount(Period(start, end)) ==
      (if IsWeekday(start) then 1 else 0) + WeekdayCount(Period(NextDay(start), end))
  {
    var p := Period(start, end);
    assert p == [start] + Period(NextDay(start), end);
    assert p[1..] == Period(NextDay(start), end);
  }

  /** Any seven consecutive days hold five weekdays, so each whole week of the range adds five. */
  lemma FullWeek(start: LocalDateTime, end: LocalDateTime)
    requires Instant(start) + 7 * MinutesPerDay * SecondsPerMinute <= Instant(end)
    ensures WeekdayCount(Period(start, end)) ==
      5 + WeekdayCount(Period(start.(minutes := start.minutes + 7 * MinutesPerDay), end))
  {
    var d0 := start;
    var d1 := NextDay(d0);
    var d2 := NextDay(d1);
    var d3 := NextDay(d2);
    var d4 := NextDay(d3);
    var d5 := NextDay(d4);
    var d6 := NextDay(d5);
    assert NextDay(d6) == start.(minutes := start.minutes + 7 * MinutesPerDay);
    CountStep(d0, end); CountStep(d1, end); CountStep(d2, end); CountStep(d3, end);
    CountStep(d4, end); CountStep(d5, end); CountStep(d6, end);
    NextDayOfWeek(d0); NextDayOfWeek(d1); NextDayOfWeek(d2); NextDayOfWeek(d3);
    NextDayOfWeek(d4); NextDayOfWeek(d5);
    var w := DayOfWeek(d0);
    if w == 0 {} else if w == 1 {} else if w == 2 {} else if w == 3 {} else if w == 4 {} else if w == 5 {} else {}
  }

  /** `w` whole weeks at the start of the range contribute `5 * w` weekdays. */
  lemma {:induction false} WholeWeeks(start: LocalDateTime, end: LocalDateTime, w: nat)
    requires Instant(start) + w * 7 * MinutesPerDay * SecondsPerMinute <= Instant(end)
    ensures WeekdayCount(Period(start, end)) ==
      5 * w + WeekdayCount(Period(start.(minutes := start.minutes + w * 7 * MinutesPerDay), end))
    decreases w
  {
    if w > 0 {
      FullWeek(start, end);
      var next := start.(minutes := start.minutes + 7 * MinutesPerDay);
      WholeWeeks(next, end, w - 1);
      assert next.(minutes := next.minutes + (w - 1) * 7 * MinutesPerDay)
        == start.(minutes := start.minutes + w * 7 * MinutesPerDay);
    }
  }

  /** Midnight at the start of day `n`. */
  function Midnight(n: int): LocalDateTime
  {
    LocalDateTime(n * MinutesPerDay, 0)
  }

  lemma MidnightDayOfWeek(n: int)
    ensures DayOf(Midnight(n)) == n
    ensures DayOfWeek(Midnight(n)) == (n + EpochDayOfWeek) % 7
  {
  }

  /** The last three days of the test month, 2020-04-27 (a Monday) to 2020-04-29, are weekdays. */
  lemma MonthTail()
    ensures WeekdayCount(Period(Midnight(18379), Midnight(18382))) == 3
  {
    var end := Midnight(18382);
    assert NextDay(Midnight(18379)) == Midnight(18380);
    assert NextDay(Midnight(18380)) == Midnight(18381);
    assert NextDay(Midnight(18381)) == end;
    MidnightDayOfWeek(18379);
    MidnightDayOfWeek(18380);
    MidnightDayOfWeek(18381);
    CountStep(Midnight(18379), end);
    CountStep(Midnight(18380), end);
    CountStep(Midnight(18381), end);
    assert Period(end, end) == [];
  }

  /** The test month's bounds are the midnights of days 18351 and 18382. */
  lemma MonthBounds()
    ensures At(2020, 3, 30, 0, 0) == Midnight(18351)
    ensures At(2020, 4, 30, 0, 0) == Midnight(18382)
  {
    assert DaysFromCivil(2020, 3, 30) == 18351;
    assert DaysFromCivil(2020, 4, 30) == 18382;
  }

  /** The test suite's month: 2020-03-30 (a Monday) to 2020-04-30 holds 23 weekdays. */
  lemma MonthExample()
    ensures WeekdayCount(Period(At(2020, 3, 30, 0, 0), At(2020, 4, 30, 0, 0))) == 23
  {
    MonthBounds();
    var end := Midnight(18382);
    WholeWeeks(Midnight(18351), end, 4);
    assert Midnight(18351).(minutes := Midnight(18351).minutes + 4 * 7 * MinutesPerDay) == Midnight(18379);
    MonthTail();
  }

  /** The test suite's short ranges around the weekend of 2020-03-28 and 2020-03-29. */
  lemma WeekendExamples()
    ensures WeekdayCount(Period(At(2020, 3, 28, 0, 0), At(2020, 3, 28, 0, 0))) == 0
    ensures WeekdayCount(Period(At(2020, 3, 28, 0, 0), At(2020, 3, 29, 0, 0))) == 0
    ensures WeekdayCount(Period(At(2020, 3, 28, 0, 0), At(2020, 3, 30, 0, 0))) == 0
    ensures WeekdayCount(Period(At(2020, 3, 28, 0, 0), At(2020, 3, 31, 0, 0))) == 1
    ensures WeekdayCount(Period(At(2020, 3, 29, 0, 0), At(2020, 3, 28, 0, 0))) == 0
  {
    assert DaysFromCivil(2020, 3, 28) == 18349;
    assert DaysFromCivil(2020, 3, 29) == 18350;
    assert DaysFromCivil(2020, 3, 30) == 18351;
    assert DaysFromCivil(2020, 3, 31) == 18352;
    assert At(2020, 3, 28, 0, 0) == Midnight(18349) && At(2020, 3, 29, 0, 0) == Midnight(18350);
    assert At(2020, 3, 30, 0, 0) == Midnight(18351) && At(2020, 3, 31, 0, 0) == Midnight(18352);
    MidnightDayOfWeek(18349);
    MidnightDayOfWeek(18350);
    MidnightDayOfWeek(18351);
    assert NextDay(Midnight(18349)) == Midnight(18350);
    assert NextDay(Midnight(18350)) == Midnight(18351);
    assert NextDay(Midnight(18351)) == Midnight(18352);
    CountStep(Midnight(18349), Midnight(18352)); CountStep(Midnight(18350), Midnight(18352));
    CountStep(Midnight(18351), Midnight(18352));
    CountStep(Midnight(18349), Midnight(18351)); CountStep(Midnight(18350), Midnight(18351));
    CountStep(Midnight(18349), Midnight(18350));
  }

  // ---------------------------------------------------------------------
  // convertTimeTypeToTimeType

  /** The characters Symfony String's `trim()` strips by default. */
  predicate IsTrimmed(c: char)
  {
    c == ' ' || c == '\t' || c == '\n' || c == '\r' || c == '\0' ||
    c == '\U{000B}' || c == '\U{000C}' || c == '\U{00A0}' || c == '\U{FEFF}'
  }

  /** Lower case of the letters that can name a unit. */
  function Lower(c: char): char
  {
    if 'A' <= c <= 'Z' then (c as int + 32) as char else c
  }

  /**
   * `u($type)->trim()->lower()->slice(0, 1)`: the lowered first character
   * that is not trimmed away, or nothing when the whole name is whitespace.
   */
  function UnitLetter(typeName: string): (r: Option<char>)
    ensures r.Some? ==> !IsTrimmed(r.value)
  {
    if typeName == [] then None
    else if IsTrimmed(typeName[0]) then UnitLetter(typeName[1..])
    else Some(Lower(typeName[0]))
  }

  /**
   * The letter is the lowered first character that is not trimmed away;
   * there is none exactly when every character is trimmed.
   */
  lemma {:induction false} UnitLetterIsFirstNonBlank(typeName: string)
    ensures UnitLetter(typeName).None? <==> forall i :: 0 <= i < |typeName| ==> IsTrimmed(typeName[i])
    ensures UnitLetter(typeName).Some? ==> exists i :: (0 <= i < |typeName| && !IsTrimmed(typeName[i]) &&
      UnitLetter(typeName).value == Lower(typeName[i]) && forall j :: 0 <= j < i ==> IsTrimmed(typeName[j]))
  {
    if typeName != [] && IsTrimmed(typeName[0]) {
      var rest := typeName[1..];
      UnitLetterIsFirstNonBlank(rest);
      assert forall i :: 0 < i < |typeName| ==> rest[i - 1] == typeName[i];
      if UnitLetter(rest).Some? {
        var i :| 0 <= i < |rest| && !IsTrimmed(rest[i]) &&
          UnitLetter(rest).value == Lower(rest[i]) && forall j :: 0 <= j < i ==> IsTrimmed(rest[j]);
        assert !IsTrimmed(typeName[i + 1]) && forall j :: 0 <= j < i + 1 ==> IsTrimmed(typeName[j]);
      }
    }
  }

  /** Seconds in the unit a type name stands for: day, hour, minute, second. */
  function UnitSeconds(typeName: string): (r: Option<int>)
    ensures r.Some? <==> UnitLetter(typeName).Some? && UnitLetter(typeName).value in {'d', 'h', 'm', 's'}
    ensures r.Some? ==> r.value in {86400, 3600, 60, 1}
  {
    match UnitLetter(typeName)
    case Some('d') => Some(24 * 3600)
    case Some('h') => Some(3600)
    case Some('m') => Some(60)
    case Some('s') => Some(1)
    case _ => None
  }

  function Abs(x: int): nat
  {
    if x < 0 then -x else x
  }

  /** `q` is `n / d` rounded to the nearest integer, halves away from zero (PHP's `round()`). */
  predicate IsRoundedQuotient(n: int, d: int, q: int)
    requires d > 0
  {
    && 2 * Abs(n - q * d) <= d
    && (2 * Abs(n - q * d) == d ==> if n >= 0 then q * d > n else q * d < n)
  }

  /** Round `n / d` half away from zero, exactly. */
  function RoundHalfAwayFromZero(n: int, d: int): (q: int)
    requires d > 0
    ensures IsRoundedQuotient(n, d, q)
  {
    if n >= 0 then
      var q := (2 * n + d) / (2 * d);
      RoundUpFromHalf(n, d, q);
      q
    else
      var q := (2 * -n + d) / (2 * d);
      RoundUpFromHalf(-n, d, q);
      assert -q * d == -(q * d);
      -q
  }

  lemma RoundUpFromHalf(n: int, d: int, q: int)
    requires n >= 0 && d > 0 && q == (2 * n + d) / (2 * d)
    ensures 2 * Abs(n - q * d) <= d
    ensures 2 * Abs(n - q * d) == d ==> q * d > n
  {
    var r := (2 * n + d) % (2 * d);
    assert 2 * n + d == q * (2 * d) + r && 0 <= r < 2 * d;
    assert q * (2 * d) == 2 * (q * d);
  }

  lemma MulAtLeast(k: int, d: int)
    requires k >= 1 && d > 0
    ensures k * d >= d
  {
    assert k * d == (k - 1) * d + d;
  }

  /** The rounded quotient is unique: two candidates differ by a whole `d`, and a tie goes one way. */
  lemma RoundedQuotientUnique(n: int, d: int, q1: int, q2: int)
    requires d > 0 && IsRoundedQuotient(n, d, q1) && IsRoundedQuotient(n, d, q2)
    ensures q1 == q2
  {
    if q1 != q2 {
      var lo, hi := if q1 < q2 then q1 else q2, if q1 < q2 then q2 else q1;
      var plo, phi := lo * d, hi * d;
      assert phi - plo == (hi - lo) * d;
      MulAtLeast(hi - lo, d);
    }
  }

  /** Scaling by `f / t` and then by `t` is scaling by `f`, when `t` divides `f`. */
  lemma ScaleExact(v: int, f: int, t: int)
    requires t > 0 && f % t == 0
    ensures (v * (f / t)) * t == v * f
  {
    var k := f / t;
    assert f == k * t;
    assert (v * k) * t == v * (k * t);
  }

  /** What `convertTimeTypeToTimeType` returns or throws. */
  function Converted(fromValue: int, fromType: string, toType: string): (r: Result<int>)
    ensures UnitSeconds(fromType).None? ==> r == Err(BadMethodCallException)
    ensures UnitSeconds(toType).None? ==> r == Err(BadMethodCallException)
    ensures UnitSeconds(fromType).Some? && UnitSeconds(toType).Some? ==>
      r.Ok? && IsRoundedQuotient(fromValue * UnitSeconds(fromType).value, UnitSeconds(toType).value, r.value)
  {
    match (UnitSeconds(fromType), UnitSeconds(toType))
    case (Some(f), Some(t)) => Ok(RoundHalfAwayFromZero(fromValue * f, t))
    case _ => Err(BadMethodCallException)
  }

  /**
   * The value is scaled to seconds by the first switch and divided by the
   * second; the quotient of PHP's `/=` is kept exact as `value / divisor`.
   */
  method ConvertTimeTypeToTimeType(fromValue: int, fromType: string, toType: string) returns (r: Result<int>)
    ensures r == Converted(fromValue, fromType, toType)
  {
    var value := fromValue;
    match UnitLetter(fromType) {
      case Some('d') => value := value * (24 * 3600);
      case Some('h') => value := value * 3600;
      case Some('m') => value := value * 60;
      case Some('s') =>
      case _ => return Err(BadMethodCallException);
    }

    var divisor := 1;
    match UnitLetter(toType) {
      case Some('d') => divisor := 24 * 3600;
      case Some('h') => divisor := 3600;
      case Some('m') => divisor := 60;
      case Some('s') =>
      case _ => return Err(BadMethodCallException);
    }

    r := Ok(RoundHalfAwayFromZero(value, divisor));
  }

  /** Converting to a unit that divides the source unit multiplies by the ratio, with no rounding. */
  lemma ConvertExact(v: int, fromType: string, toType: string)
    requires UnitSeconds(fromType).Some? && UnitSeconds(toType).Some?
    requires UnitSeconds(fromType).value % UnitSeconds(toType).value == 0
    ensures Converted(v, fromType, toType) == Ok(v * (UnitSeconds(fromType).value / UnitSeconds(toType).value))
  {
    var f, t := UnitSeconds(fromType).value, UnitSeconds(toType).value;
    var q := v * (f / t);
    ScaleExact(v, f, t);
    RoundedQuotientUnique(v * f, t, q, Converted(v, fromType, toType).value);
  }

  /** A unit converted to itself is unchanged. */
  lemma ConvertToSameUnit(v: int, fromType: string, toType: string)
    requires UnitSeconds(fromType).Some? && UnitSeconds(fromType) == UnitSeconds(toType)
    ensures Converted(v, fromType, toType) == Ok(v)
  {
    ConvertExact(v, fromType, toType);
  }

  /** Converting down to a smaller unit and back gives the original value. */
  lemma ConvertRoundTrip(v: int, fromType: string, toType: string)
    requires UnitSeconds(fromType).Some? && UnitSeconds(toType).Some?
    requires UnitSeconds(fromType).value % UnitSeconds(toType).value == 0
    ensures Converted(v, fromType, toType).Ok?
    ensures Converted(Converted(v, fromType, toType).value, toType, fromType) == Ok(v)
  {
    var f, t := UnitSeconds(fromType).value, UnitSeconds(toType).value;
    ConvertExact(v, fromType, toType);
    var w := v * (f / t);
    var back := Converted(w, toType, fromType).value;
    ScaleExact(v, f, t);
    assert IsRoundedQuotient(w * t, f, v);
    RoundedQuotientUnique(w * t, f, v, back);
  }

  /** Days to hours multiplies by 24. */
  lemma DaysToHours(v: int)
    ensures Converted(v, "days", "hours") == Ok(24 * v)
  {
    assert UnitLetter("days") == Some('d');
    assert UnitLetter("hours") == Some('h');
    ConvertExact(v, "days", "hours");
  }

  /** 90 seconds is 1.5 minutes, which rounds away from zero to 2 (and -90 to -2); 89 rounds to 1. */
  lemma RoundingExamples()
    ensures Converted(90, "seconds", "minutes") == Ok(2)
    ensures Converted(-90, " Seconds", "m") == Ok(-2)
    ensures Converted(89, "s", "minutes") == Ok(1)
  {
    assert Converted(90, "seconds", "minutes") == Ok(2) by {
      assert UnitLetter("seconds") == Some('s') && UnitLetter("minutes") == Some('m');
      assert RoundHalfAwayFromZero(90, 60) == 2;
    }
    assert Converted(-90, " Seconds", "m") == Ok(-2) by {
      assert UnitLetter(" Seconds") == UnitLetter("Seconds") == Some('s');
      assert UnitLetter("m") == Some('m');
      assert RoundHalfAwayFromZero(-90, 60) == -2;
    }
    assert Converted(89, "s", "minutes") == Ok(1) by {
      assert UnitLetter("s") == Some('s') && UnitLetter("minutes") == Some('m');
      assert RoundHalfAwayFromZero(89, 60) == 1;
    }
  }

  /** A name outside day, hour, minute, second, or an empty one, throws. */
  lemma UnknownUnitExamples()
    ensures Converted(1, "weeks", "days") == Err(BadMethodCallException)
    ensures Converted(1, "", "days") == Err(BadMethodCallException)
    ensures Converted(1, "days", "  ") == Err(BadMethodCallException)
  {
    assert UnitLetter("weeks") == Some('w');
    assert UnitLetter("  ") == None;
  }

  // ---------------------------------------------------------------------
  // __callStatic: getXFromDate

  /** The parts `getXFromDate` can read. */
  datatype Part = Year | Month | Day | Hour | Minute | Second | TimeZone | Weekday

  /** The date-time object the accessors read, field by field. */
  datatype CivilDateTime = CivilDateTime(
    year: int, month: int, day: int, hour: int, minute: int, second: int,
    dayOfWeek: int, utcOffsetSeconds: int)

  datatype PartValue = Number(n: int) | Text(s: string)

  /**
   * `date` shows the wall-clock time `t`: the calendar date of its day
   * number, and the hour, minute, second and weekday `t` has.
   */
  predicate Describes(date: CivilDateTime, t: LocalDateTime)
  {
    && 1 <= date.month <= 12 && 1 <= date.day <= 31
    && DaysFromCivil(date.year, date.month, date.day) == DayOf(t)
    && date.hour == HourOf(t) && date.minute == MinuteOf(t) && date.second == t.second
    && date.dayOfWeek == DayOfWeek(t)
  }

  /** The key `__callStatic` switches on, singular. */
  function PartKey(p: Part): string
  {
    match p
    case Year => "year"
    case Month => "month"
    case Day => "day"
    case Hour => "hour"
    case Minute => "minute"
    case Second => "second"
    case TimeZone => "timezone"
    case Weekday => "dayofweek"
  }

  /** The six numeric calendar parts also accept a plural key. */
  predicate HasPlural(p: Part)
  {
    p !in {TimeZone, Weekday}
  }

  /** The `switch ($getFromDatePart)`: the part a lower-cased key names, if any. */
  function PartOf(key: string): (r: Option<Part>)
    ensures r.Some? ==> key == PartKey(r.value) || (HasPlural(r.value) && key == PartKey(r.value) + "s")
  {
    match key
    case "year" => Some(Year)
    case "years" => Some(Year)
    case "month" => Some(Month)
    case "months" => Some(Month)
    case "day" => Some(Day)
    case "days" => Some(Day)
    case "hour" => Some(Hour)
    case "hours" => Some(Hour)
    case "minute" => Some(Minute)
    case "minutes" => Some(Minute)
    case "second" => Some(Second)
    case "seconds" => Some(Second)
    case "timezone" => Some(TimeZone)
    case "dayofweek" => Some(Weekday)
    case _ => None
  }

  /** Every part is reached by its key and, where it has one, by its plural. */
  lemma PartKeysRoundTrip(p: Part)
    ensures PartOf(PartKey(p)) == Some(p)
    ensures HasPlural(p) ==> PartOf(PartKey(p) + "s") == Some(p)
  {
    match p
    case Year => assert PartKey(p) + "s" == "years";
    case Month => assert PartKey(p) + "s" == "months";
    case Day => assert PartKey(p) + "s" == "days";
    case Hour => assert PartKey(p) + "s" == "hours";
    case Minute => assert PartKey(p) + "s" == "minutes";
    case Second => assert PartKey(p) + "s" == "seconds";
    case TimeZone =>
    case Weekday =>
  }

  /** Two decimal digits, as `%02d`. */
  function TwoDigits(n: nat): string
    requires n < 100
  {
    [('0' as int + n / 10) as char, ('0' as int + n % 10) as char]
  }

  /** PHP's format 'p': `Z` for a zero offset, otherwise `+hh:mm` or `-hh:mm`. */
  function OffsetText(offsetSeconds: int): (r: string)
    requires Abs(offsetSeconds) < 100 * 3600
    ensures r == "Z" <==> offsetSeconds == 0
  {
    if offsetSeconds == 0 then "Z"
    else
      var a := Abs(offsetSeconds);
      (if offsetSeconds < 0 then "-" else "+") + TwoDigits(a / 3600) + ":" + TwoDigits((a % 3600) / 60)
  }

  /** The integer in the format character's output for a numeric part. */
  function NumericField(date: CivilDateTime, p: Part): int
  {
    match p
    case Year => date.year
    case Month => date.month
    case Day => date.day
    case Hour => date.hour
    case Minute => date.minute
    case Second => date.second
    case Weekday => date.dayOfWeek
    case TimeZone => 0
  }

  /** `Date::getXFromDate($date)` for the lower-cased key `x`: an integer, the offset text, or null. */
  function GetFromDate(key: string, date: CivilDateTime): (r: Option<PartValue>)
    requires Abs(date.utcOffsetSeconds) < 100 * 3600
    ensures r.None? <==> PartOf(key).None?
    ensures PartOf(key) == Some(TimeZone) ==> r.Some? && r.value.Text?
    ensures PartOf(key).Some? && PartOf(key) != Some(TimeZone) ==> r.Some? && r.value.Number?
  {
    match PartOf(key)
    case None => None
    case Some(TimeZone) => Some(Text(OffsetText(date.utcOffsetSeconds)))
    case Some(p) => Some(Number(NumericField(date, p)))
  }

  /**
   * Each key reads its own field, the plural the same one as the singular:
   * 'Y', 'm', 'd', 'G', 'i', 's' and 'w' as integers, 'p' as text.
   */
  lemma AccessorFields(date: CivilDateTime)
    requires Abs(date.utcOffsetSeconds) < 100 * 3600
    ensures GetFromDate("year", date) == GetFromDate("years", date) == Some(Number(date.year))
    ensures GetFromDate("month", date) == GetFromDate("months", date) == Some(Number(date.month))
    ensures GetFromDate("day", date) == GetFromDate("days", date) == Some(Number(date.day))
    ensures GetFromDate("hour", date) == GetFromDate("hours", date) == Some(Number(date.hour))
    ensures GetFromDate("minute", date) == GetFromDate("minutes", date) == Some(Number(date.minute))
    ensures GetFromDate("second", date) == GetFromDate("seconds", date) == Some(Number(date.second))
    ensures GetFromDate("dayofweek", date) == Some(Number(date.dayOfWeek))
    ensures GetFromDate("timezone", date) == Some(Text(OffsetText(date.utcOffsetSeconds)))
  {
  }

  /** On a date that shows `t`, the time accessors read what the snapping and counting code works on. */
  lemma AccessorsOfLocalTime(date: CivilDateTime, t: LocalDateTime)
    requires Describes(date, t) && Abs(date.utcOffsetSeconds) < 100 * 3600
    ensures GetFromDate("hour", date) == Some(Number(HourOf(t)))
    ensures GetFromDate("minute", date) == Some(Number(MinuteOf(t)))
    ensures GetFromDate("second", date) == Some(Number(t.second))
    ensures GetFromDate("dayofweek", date) == Some(Number(DayOfWeek(t)))
  {
    AccessorFields(date);
  }

  /** The test suite's date shows midnight of 2020-03-30, so its weekday 1 follows from the calendar. */
  lemma TestDateDescribed()
    ensures Describes(CivilDateTime(2020, 3, 30, 0, 0, 0, 1, 0), At(2020, 3, 30, 0, 0))
  {
    CalendarAnchor();
  }

  /** The test suite's date, 2020-03-30 00:00:00 UTC, a Monday. */
  lemma PartsExample()
    ensures var date := CivilDateTime(2020, 3, 30, 0, 0, 0, 1, 0);
      && GetFromDate("year", date) == Some(Number(2020))
      && GetFromDate("month", date) == Some(Number(3))
      && GetFromDate("day", date) == Some(Number(30))
      && GetFromDate("hour", date) == Some(Number(0))
      && GetFromDate("minute", date) == Some(Number(0))
      && GetFromDate("second", date) == Some(Number(0))
      && GetFromDate("dayofweek", date) == Some(Number(1))
      && GetFromDate("timezone", date) == Some(Text("Z"))
      && GetFromDate("nonexistant", date) == None
  {
  }
}
