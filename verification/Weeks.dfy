/** Which week a moment belongs to, and which week's text window counts it. */
module Weeks {
  import opened Decimal
  import opened Timestamps

  // ----- the calendar -----

  datatype Date = Date(year: int, month: int, day: int)

  predicate Leap(year: int) {
    year % 4 == 0 && (year % 100 != 0 || year % 400 == 0)
  }

  function DaysIn(year: int, month: int): (days: int)
    ensures 28 <= days <= 31
  {
    if month == 2 then (if Leap(year) then 29 else 28) else if month in {4, 6, 9, 11} then 30 else 31
  }

  predicate RealDate(d: Date) {
    1 <= d.month <= 12 && 1 <= d.day <= DaysIn(d.year, d.month)
  }

  function Next(d: Date): Date {
    if d.day < DaysIn(d.year, d.month) then d.(day := d.day + 1)
    else if d.month < 12 then Date(d.year, d.month + 1, 1)
    else Date(d.year + 1, 1, 1)
  }

  function Previous(d: Date): Date {
    if d.day > 1 then d.(day := d.day - 1)
    else if d.month > 1 then Date(d.year, d.month - 1, DaysIn(d.year, d.month - 1))
    else Date(d.year - 1, 12, 31)
  }

  /** Days are counted from Thursday 1 January 1970, in both directions. */
  function DateOf(n: int): (d: Date)
    ensures RealDate(d)
    decreases if n < 0 then -n else n
  {
    if n == 0 then Date(1970, 1, 1) else if n > 0 then Next(DateOf(n - 1)) else Previous(DateOf(n + 1))
  }

  predicate DateLess(a: Date, b: Date) {
    a.year < b.year || (a.year == b.year && (a.month < b.month || (a.month == b.month && a.day < b.day)))
  }

  lemma NextDate(n: int)
    ensures DateOf(n + 1) == Next(DateOf(n))
  {
    if n < 0 { NextOfPrevious(DateOf(n + 1)); }
  }

  lemma NextOfPrevious(d: Date)
    requires RealDate(d)
    ensures Next(Previous(d)) == d
  {
  }

  /** Later days have later dates. */
  lemma {:induction false} DatesAscend(d: int, e: int)
    requires d < e
    ensures DateLess(DateOf(d), DateOf(e))
    decreases e - d
  {
    NextDate(e - 1);
    NextIsLater(DateOf(e - 1));
    if d < e - 1 { DatesAscend(d, e - 1); }
  }

  lemma NextIsLater(d: Date)
    requires RealDate(d)
    ensures DateLess(d, Next(d))
  {
  }

  // ----- which week a day belongs to -----

  /** Sunday is weekday 0. */
  function Weekday(day: int): int {
    (day + 4) % 7
  }

  function WeekStart(day: int): int {
    day - (Weekday(day) + 6) % 7
  }

  function WeekEnd(day: int): int {
    WeekStart(day) + 7
  }

  lemma WeekStartIsMultiple(day: int)
    ensures WeekStart(day) == 7 * ((day + 3) / 7) - 3
  {
    assert (Weekday(day) + 6) % 7 == (day + 3) % 7;
  }

  /** Weeks begin on Monday, contain the day they were computed from, and are the same week for all their days. */
  lemma WeekOfDay(day: int, other: int)
    ensures Weekday(WeekStart(day)) == 1 && WeekStart(day) <= day < WeekEnd(day)
    ensures WeekStart(day) <= other < WeekEnd(day) <==> WeekStart(other) == WeekStart(day)
    ensures Weekday(day) == 1 <==> WeekStart(day) == day
    ensures WeekEnd(day) == WeekStart(day + 7) && WeekStart(day) - 7 == WeekStart(day - 7)
  {
    WeekStartIsMultiple(day);
    WeekStartIsMultiple(other);
    AWeekOn(day);
    AWeekOn(day - 7);
  }

  lemma AWeekOn(day: int)
    ensures WeekStart(day + 7) == WeekStart(day) + 7
  {
    WeekStartIsMultiple(day);
    WeekStartIsMultiple(day + 7);
  }

  // ----- moments and the text windows of weeks -----

  datatype Clock = Clock(hour: nat, minute: nat, second: nat, nano: nat)

  const MIDNIGHT := Clock(0, 0, 0, 0)

  ghost predicate ValidClock(c: Clock) {
    c.hour < 24 && c.minute < 60 && c.second < 60 && c.nano < 1_000_000_000
  }

  /** The stored text writes years with four digits. */
  predicate Writable(day: int) {
    0 <= DateOf(day).year < 10000
  }

  function At(day: int, c: Clock): Instant
    requires Writable(day)
  {
    var d := DateOf(day);
    Instant(d.year, d.month, d.day, c.hour, c.minute, c.second, c.nano)
  }

  /** The bounds the current week's page asks for, computed from the day it is. */
  function WeekBegins(today: int): Instant
    requires Writable(WeekStart(today))
  {
    At(WeekStart(today), MIDNIGHT)
  }

  function WeekEnds(today: int): Instant
    requires Writable(WeekEnd(today))
  {
    At(WeekEnd(today), MIDNIGHT)
  }

  predicate FirstSecond(c: Clock) {
    c.hour == 0 && c.minute == 0 && c.second == 0 && c.nano > 0
  }

  /**
   * The week that counts a moment, by its first day: its own, or the one before strictly inside Monday's first
   * second.
   */
  function CountedIn(day: int, c: Clock): int {
    if Weekday(day) == 1 && FirstSecond(c) then WeekStart(day) - 7 else WeekStart(day)
  }

  /** A moment's seconds come before a midnight exactly when its day does. */
  lemma BeforeMidnight(day: int, c: Clock, bound: int)
    requires Writable(day) && Writable(bound) && ValidClock(c)
    ensures FieldsLess(SecondFields(At(day, c)), SecondFields(At(bound, MIDNIGHT))) <==> day < bound
    ensures InFirstSecondAfter(At(day, c), At(bound, MIDNIGHT)) <==> day == bound && FirstSecond(c)
  {
    var a, b := DateOf(day), DateOf(bound);
    if day < bound { DatesAscend(day, bound); }
    if bound < day { DatesAscend(bound, day); }
    SecondsLessIff(At(day, c), At(bound, MIDNIGHT));
  }

  lemma SecondsLessIff(t: Instant, m: Instant)
    requires m.hour == 0 && m.minute == 0 && m.second == 0
    ensures FieldsLess(SecondFields(t), SecondFields(m)) <==>
              DateLess(Date(t.year, t.month, t.day), Date(m.year, m.month, m.day))
    ensures SecondFields(t) == SecondFields(m) <==>
              t.year == m.year && t.month == m.month && t.day == m.day && t.hour == 0 && t.minute == 0 && t.second == 0
  {
    var a, b := [t.year, t.month, t.day], [m.year, m.month, m.day];
    var x, y := [t.hour, t.minute, t.second], [0, 0, 0];
    assert SecondFields(t) == a + x && SecondFields(m) == b + y;
    HeadFieldsDecide(a, b, x, y);
    ThreeFieldsLess(t.year, t.month, t.day, m.year, m.month, m.day);
    ThreeFieldsLess(t.hour, t.minute, t.second, 0, 0, 0);
    assert a == b <==> a[0] == b[0] && a[1] == b[1] && a[2] == b[2];
    assert SecondFields(t) == SecondFields(m) <==> forall i :: 0 <= i < 6 ==> SecondFields(t)[i] == SecondFields(m)[i];
    assert SecondFields(t)[3] == t.hour && SecondFields(t)[4] == t.minute && SecondFields(t)[5] == t.second;
  }

  lemma ThreeFieldsLess(a: nat, b: nat, c: nat, x: nat, y: nat, z: nat)
    ensures FieldsLess([a, b, c], [x, y, z]) <==> a < x || (a == x && (b < y || (b == y && c < z)))
  {
    assert [a, b, c][1..] == [b, c] && [x, y, z][1..] == [y, z];
    assert [b, c][1..] == [c] && [y, z][1..] == [z];
    assert FieldsLess([c], [z]) <==> c < z by { assert [c][1..] == [] && [z][1..] == []; }
    assert FieldsLess([b, c], [y, z]) <==> b < y || (b == y && FieldsLess([c], [z]));
  }

  lemma {:induction false} HeadFieldsDecide(p: seq<nat>, q: seq<nat>, x: seq<nat>, y: seq<nat>)
    requires |p| == |q|
    ensures FieldsLess(p + x, q + y) <==> FieldsLess(p, q) || (p == q && FieldsLess(x, y))
    decreases |p|
  {
    if p == [] {
      assert p + x == x && q + y == y;
    } else {
      assert (p + x)[1..] == p[1..] + x && (q + y)[1..] == q[1..] + y;
      HeadFieldsDecide(p[1..], q[1..], x, y);
      assert p == [p[0]] + p[1..] && q == [q[0]] + q[1..];
    }
  }

  /** A stored text is below a midnight exactly when its day is earlier, or it is in that midnight's first second. */
  lemma TextBeforeMidnight(day: int, c: Clock, bound: int)
    requires Writable(day) && Writable(bound) && ValidClock(c)
    ensures TextLess(Text(At(day, c)), Text(At(bound, MIDNIGHT))) <==> day < bound || (day == bound && FirstSecond(c))
  {
    TextBelowBound(At(day, c), At(bound, MIDNIGHT));
    BeforeMidnight(day, c, bound);
  }

  /**
   * Every moment is counted in the text window of exactly one week, whatever day the week is computed from: in its
   * own, except that the week before counts what is strictly inside Monday's first second.
   */
  lemma WeeksPartitionMoments(day: int, c: Clock, today: int)
    requires Writable(day) && ValidClock(c) && Writable(WeekStart(today)) && Writable(WeekEnd(today))
    ensures InTextWindow(Text(At(day, c)), Text(WeekBegins(today)), Text(WeekEnds(today)))
       <==> CountedIn(day, c) == WeekStart(today)
  {
    TextBeforeMidnight(day, c, WeekStart(today));
    TextBeforeMidnight(day, c, WeekEnd(today));
    WeekOfDay(today, day);
    WeekOfDay(today, day - 7);
    WeekOfDay(day, today);
  }

  /** The week a moment is counted in is a week, and no other week counts it. */
  lemma CountedOnce(day: int, c: Clock)
    ensures Weekday(CountedIn(day, c)) == 1 && CountedIn(day, c) == WeekStart(CountedIn(day, c))
    ensures CountedIn(day, c) <= day <= CountedIn(day, c) + 7
  {
    WeekOfDay(day, day);
    WeekOfDay(day - 7, day);
    WeekOfDay(CountedIn(day, c), day);
  }

  /** The true week is the one from Monday's midnight to the next. */
  lemma TrueWeek(day: int, c: Clock, today: int)
    requires Writable(day) && ValidClock(c) && Writable(WeekStart(today)) && Writable(WeekEnd(today))
    ensures InWindow(At(day, c), WeekBegins(today), WeekEnds(today)) <==> WeekStart(day) == WeekStart(today)
    ensures Earlier(WeekBegins(today), WeekEnds(today))
  {
    EarlierThanBound(At(day, c), WeekBegins(today));
    EarlierThanBound(At(day, c), WeekEnds(today));
    EarlierThanBound(WeekBegins(today), WeekEnds(today));
    BeforeMidnight(day, c, WeekStart(today));
    BeforeMidnight(day, c, WeekEnd(today));
    BeforeMidnight(WeekStart(today), MIDNIGHT, WeekEnd(today));
    WeekOfDay(today, day);
  }

  // ----- the key that names a week -----

  function DaysBefore(year: int, month: int): int
    decreases month
  {
    if month <= 1 then 0 else DaysBefore(year, month - 1) + DaysIn(year, month - 1)
  }

  /** The number of a date within its year, counted from 1. */
  function YearDay(d: Date): int {
    DaysBefore(d.year, d.month) + d.day
  }

  lemma YearDayRange(d: Date)
    requires RealDate(d)
    ensures 1 <= YearDay(d) <= 366
    ensures Next(d).year == d.year ==> YearDay(Next(d)) == YearDay(d) + 1
  {
    MonthsBefore(d.year);
  }

  lemma MonthsBefore(year: int)
    ensures var leap := if Leap(year) then 1 else 0;
            && DaysBefore(year, 1) == 0 && DaysBefore(year, 2) == 31 && DaysBefore(year, 3) == 59 + leap
            && DaysBefore(year, 4) == 90 + leap && DaysBefore(year, 5) == 120 + leap
            && DaysBefore(year, 6) == 151 + leap && DaysBefore(year, 7) == 181 + leap
            && DaysBefore(year, 8) == 212 + leap && DaysBefore(year, 9) == 243 + leap
            && DaysBefore(year, 10) == 273 + leap && DaysBefore(year, 11) == 304 + leap
            && DaysBefore(year, 12) == 334 + leap
  {
    assert DaysBefore(year, 3) == DaysBefore(year, 2) + DaysIn(year, 2);
    assert DaysBefore(year, 5) == DaysBefore(year, 4) + DaysIn(year, 4);
    assert DaysBefore(year, 7) == DaysBefore(year, 6) + DaysIn(year, 6);
    assert DaysBefore(year, 9) == DaysBefore(year, 8) + DaysIn(year, 8);
    assert DaysBefore(year, 11) == DaysBefore(year, 10) + DaysIn(year, 10);
  }

  /** Within a year, days are as far apart as their numbers. */
  lemma {:induction false} YearDaysApart(d: int, e: int)
    requires d <= e && DateOf(d).year == DateOf(e).year
    ensures YearDay(DateOf(e)) - YearDay(DateOf(d)) == e - d
    decreases e - d
  {
    if d < e {
      NextDate(e - 1);
      DatesAscend(e - 1, e);
      if d < e - 1 { DatesAscend(d, e - 1); }
      YearDaysApart(d, e - 1);
      YearDayRange(DateOf(e - 1));
    }
  }

  /** A week belongs to the year of its Thursday and is numbered among that year's Thursdays. */
  function WeekYear(day: int): int {
    DateOf(WeekStart(day) + 3).year
  }

  function WeekNumber(day: int): (n: int) {
    (YearDay(DateOf(WeekStart(day) + 3)) - 1) / 7 + 1
  }

  function WeekKey(day: int): string
    requires 0 <= WeekYear(day) && 0 <= WeekNumber(day)
  {
    Padded(WeekYear(day), 4) + ("-W" + Padded(WeekNumber(day), 2))
  }

  /** The key names the week: days have the same key exactly when they are days of the same week. */
  lemma WeekKeyNamesWeek(day: int, other: int)
    requires 0 <= WeekYear(day) < 10000 && 0 <= WeekYear(other) < 10000
    ensures 1 <= WeekNumber(day) <= 53 && 1 <= WeekNumber(other) <= 53
    ensures WeekKey(day) == WeekKey(other) <==> WeekStart(day) == WeekStart(other)
  {
    YearDayRange(DateOf(WeekStart(day) + 3));
    YearDayRange(DateOf(WeekStart(other) + 3));
    KeysEqualIff(WeekYear(day), WeekNumber(day), WeekYear(other), WeekNumber(other));
    if WeekYear(day) == WeekYear(other) && WeekNumber(day) == WeekNumber(other) {
      if WeekStart(day) <= WeekStart(other) { ThursdaysApart(day, other); } else { ThursdaysApart(other, day); }
    }
  }

  lemma KeysEqualIff(y: nat, n: nat, z: nat, k: nat)
    requires y < 10000 && z < 10000 && n < 100 && k < 100
    ensures Padded(y, 4) + ("-W" + Padded(n, 2)) == Padded(z, 4) + ("-W" + Padded(k, 2)) <==> y == z && n == k
  {
    assert Power10(2) == 100 && Power10(4) == 10000 by { assert Power10(1) == 10 && Power10(3) == 1000; }
    PaddedOrder(y, z, 4);
    PaddedOrder(n, k, 2);
    PaddedDenotes(y, 4);
    PaddedDenotes(z, 4);
    PaddedDenotes(n, 2);
    PaddedDenotes(k, 2);
    SameHeadSameTail(Padded(y, 4), Padded(z, 4), "-W", Padded(n, 2), Padded(k, 2));
  }

  /** Two Thursdays of a year with one week number are the same Thursday. */
  lemma ThursdaysApart(day: int, other: int)
    requires WeekStart(day) <= WeekStart(other)
    requires WeekYear(day) == WeekYear(other) && WeekNumber(day) == WeekNumber(other)
    ensures WeekStart(day) == WeekStart(other)
  {
    var d, e := WeekStart(day) + 3, WeekStart(other) + 3;
    YearDaysApart(d, e);
    WeekStartIsMultiple(day);
    WeekStartIsMultiple(other);
    SameSeventh(YearDay(DateOf(d)), YearDay(DateOf(e)), (other + 3) / 7 - (day + 3) / 7);
  }

  lemma SameSeventh(x: int, y: int, weeks: int)
    requires (x - 1) / 7 + 1 == (y - 1) / 7 + 1 && y - x == 7 * weeks
    ensures weeks == 0
  {
  }

  // ----- the calendar in closed form -----

  /** Leap years from year 1 to `year`, by the rule of four, hundred and four hundred. */
  function LeapYears(year: int): int {
    year / 4 - year / 100 + year / 400
  }

  /** The day number of the first of January. */
  function YearStart(year: int): int {
    365 * (year - 1970) + LeapYears(year - 1) - 477
  }

  function DayNumber(d: Date): int {
    YearStart(d.year) + YearDay(d) - 1
  }

  lemma OneYearOn(year: int)
    ensures YearStart(year + 1) == YearStart(year) + 365 + if Leap(year) then 1 else 0
  {
    Fours(year);
    Hundreds(year);
    FourHundreds(year);
    LeapParts(year);
  }

  lemma LeapParts(year: int)
    ensures year % 400 == 0 ==> year % 100 == 0
    ensures year % 100 == 0 ==> year % 4 == 0
  {
  }

  lemma Fours(year: int)
    ensures year / 4 == (year - 1) / 4 + if year % 4 == 0 then 1 else 0
  {
  }

  lemma Hundreds(year: int)
    ensures year / 100 == (year - 1) / 100 + if year % 100 == 0 then 1 else 0
  {
  }

  lemma FourHundreds(year: int)
    ensures year / 400 == (year - 1) / 400 + if year % 400 == 0 then 1 else 0
  {
  }

  lemma YearDayFits(d: Date)
    requires RealDate(d)
    ensures 1 <= YearDay(d) <= 365 + if Leap(d.year) then 1 else 0
    ensures Next(d).year == d.year + 1 ==> YearDay(d) == 365 + (if Leap(d.year) then 1 else 0) && YearDay(Next(d)) == 1
  {
    MonthsBefore(d.year);
    MonthsBefore(d.year + 1);
  }

  lemma NextDayNumber(d: Date)
    requires RealDate(d)
    ensures DayNumber(Next(d)) == DayNumber(d) + 1
  {
    YearDayRange(d);
    YearDayFits(d);
    OneYearOn(d.year);
  }

  lemma NewYear(year: int)
    ensures DayNumber(Date(year, 1, 1)) == YearStart(year) && (year == 1970 ==> YearStart(year) == 0)
  {
    MonthsBefore(year);
  }

  /** Counting day by day from 1970 gives each date its number. */
  lemma {:induction false} DayNumberOfDate(n: int)
    ensures DayNumber(DateOf(n)) == n
    decreases if n < 0 then -n else n
  {
    if n == 0 {
      NewYear(1970);
    } else if n > 0 {
      DayNumberOfDate(n - 1);
      NextDate(n - 1);
      NextDayNumber(DateOf(n - 1));
    } else {
      DayNumberOfDate(n + 1);
      NextDate(n);
      NextDayNumber(DateOf(n));
    }
  }

  lemma {:induction false} YearStartsAscend(a: int, b: int)
    requires a <= b
    ensures YearStart(a) <= YearStart(b)
    decreases b - a
  {
    if a < b {
      YearStartsAscend(a, b - 1);
      OneYearOn(b - 1);
    }
  }

  /** An earlier date has a smaller number. */
  lemma DayNumbersAscend(d: Date, e: Date)
    requires RealDate(d) && RealDate(e) && DateLess(d, e)
    ensures DayNumber(d) < DayNumber(e)
  {
    YearDayFits(d);
    YearDayFits(e);
    if d.year < e.year {
      OneYearOn(d.year);
      YearStartsAscend(d.year + 1, e.year);
    } else if d.month < e.month {
      MonthsAscend(d.year, d.month, e.month);
    }
  }

  lemma {:induction false} MonthsAscend(year: int, m: int, n: int)
    requires 1 <= m < n
    ensures DaysBefore(year, m) + DaysIn(year, m) <= DaysBefore(year, n)
    decreases n
  {
    if m + 1 < n { MonthsAscend(year, m, n - 1); }
  }

  /** Every date of the calendar is the date of its number. */
  lemma DateOfDayNumber(d: Date)
    requires RealDate(d)
    ensures DateOf(DayNumber(d)) == d
  {
    var e := DateOf(DayNumber(d));
    DayNumberOfDate(DayNumber(d));
    if DateLess(d, e) { DayNumbersAscend(d, e); }
    if DateLess(e, d) { DayNumbersAscend(e, d); }
  }

  /** 27 July 2026 is a Monday. */
  lemma AMondayInJuly(n: int)
    requires DateOf(n) == Date(2026, 7, 27)
    ensures Weekday(n) == 1
  {
    DayNumberOfDate(n);
    MondayNumber(n, DateOf(n));
  }

  lemma MondayNumber(n: int, d: Date)
    requires n == DayNumber(d) && d == Date(2026, 7, 27)
    ensures Weekday(n) == 1
  {
    JulyNumber(d);
  }

  lemma JulyNumber(d: Date)
    requires d.year == 2026 && d.month == 7
    ensures DayNumber(d) == 20634 + d.day
  {
    MonthsBefore(d.year);
    assert LeapYears(2025) == 491;
  }

  /** Week 1 is the week of a year's first Thursday, and each later Thursday of the year counts on by one. */
  lemma WeekNumbersCount(day: int)
    ensures WeekNumber(day) == 1 <==> DateOf(WeekStart(day) + 3).month == 1 && DateOf(WeekStart(day) + 3).day <= 7
    ensures WeekYear(day + 7) == WeekYear(day) ==> WeekNumber(day + 7) == WeekNumber(day) + 1
    ensures WeekYear(day + 7) != WeekYear(day) ==> WeekNumber(day + 7) == 1
  {
    var thursday := WeekStart(day) + 3;
    AWeekOn(day);
    FirstDays(DateOf(thursday));
    FirstDays(DateOf(thursday + 7));
    Sevenths(YearDay(DateOf(thursday)));
    Sevenths(YearDay(DateOf(thursday + 7)));
    if WeekYear(day + 7) == WeekYear(day) {
      YearDaysApart(thursday, thursday + 7);
    } else {
      NextYearsFirstWeek(thursday);
    }
  }

  lemma Sevenths(n: int)
    requires n >= 1
    ensures (n - 1) / 7 + 1 == 1 <==> n <= 7
    ensures (n + 7 - 1) / 7 + 1 == (n - 1) / 7 + 1 + 1
  {
  }

  lemma FirstDays(d: Date)
    requires RealDate(d)
    ensures YearDay(d) <= 7 <==> d.month == 1 && d.day <= 7
    ensures YearDay(d) >= 1
  {
    MonthsBefore(d.year);
  }

  lemma NextYearsFirstWeek(n: int)
    requires DateOf(n + 7).year != DateOf(n).year
    ensures 1 <= YearDay(DateOf(n + 7)) <= 7
  {
    DatesAscend(n, n + 7);
    DayNumberOfDate(n);
    DayNumberOfDate(n + 7);
    AcrossNewYear(DateOf(n), DateOf(n + 7));
  }

  lemma AcrossNewYear(d: Date, e: Date)
    requires RealDate(d) && RealDate(e) && DayNumber(e) == DayNumber(d) + 7 && d.year < e.year
    ensures 1 <= YearDay(e) <= 7
  {
    YearDayFits(d);
    YearDayFits(e);
    OneYearOn(d.year);
    YearStartsAscend(d.year + 1, e.year);
  }
}
