/** Civil time: seconds since 1970 and calendar dates, both ways, and weekdays. */
module Calendar {
  datatype Civil = Civil(year: int, month: int, day: int, hour: int, minute: int, second: int)

  predicate Leap(y: int) { (y % 4 == 0 && y % 100 != 0) || y % 400 == 0 }
  function LeapDay(y: int): int { if Leap(y) then 1 else 0 }
  function YearDays(y: int): int { 365 + LeapDay(y) }

  /** Days of a month in a common year. */
  function PlainDays(m: int): int {
    if m == 2 then 28 else if m == 4 || m == 6 || m == 9 || m == 11 then 30 else 31
  }

  function MonthDays(y: int, m: int): int {
    if 1 <= m <= 12 then PlainDays(m) + (if m == 2 then LeapDay(y) else 0) else 0
  }

  // ---- Dates to seconds ----

  function DaysBeforeYear(y: int): (d: int)
    ensures d >= 0
    decreases y - 1970
  {
    if y <= 1970 then 0 else DaysBeforeYear(y - 1) + YearDays(y - 1)
  }

  function DaysBeforeMonth(y: int, m: int): (d: int)
    requires m <= 13
    ensures d >= 0
    decreases m
  {
    if m <= 1 then 0 else DaysBeforeMonth(y, m - 1) + MonthDays(y, m - 1)
  }

  function DayNumber(y: int, m: int, d: int): int
    requires m <= 13
  {
    DaysBeforeYear(y) + DaysBeforeMonth(y, m) + d - 1
  }

  function UnixSeconds(t: Civil): int
    requires t.month <= 13
  {
    DayNumber(t.year, t.month, t.day) * 86400 + t.hour * 3600 + t.minute * 60 + t.second
  }

  /** A date of the calendar from 1970 on. */
  predicate Proper(t: Civil) {
    && t.year >= 1970 && 1 <= t.month <= 12 && 1 <= t.day <= MonthDays(t.year, t.month)
    && 0 <= t.hour < 24 && 0 <= t.minute < 60 && 0 <= t.second < 60
  }

  /** What the kernel accepts as a date. */
  predicate ValidCivil(t: Civil) { Proper(t) && t.year <= 2099 }

  predicate Before(a: Civil, b: Civil) {
    a.year < b.year || (a.year == b.year && (a.month < b.month || (a.month == b.month && (a.day < b.day || (a.day == b.day &&
      (a.hour < b.hour || (a.hour == b.hour && (a.minute < b.minute || (a.minute == b.minute && a.second < b.second)))))))))
  }

  lemma {:induction false} YearsGrow(a: int, b: int)
    requires 1970 <= a < b
    ensures DaysBeforeYear(a) + YearDays(a) <= DaysBeforeYear(b)
    decreases b - a
  {
    if a < b - 1 { YearsGrow(a, b - 1); }
  }

  lemma {:induction false} MonthsGrow(y: int, a: int, b: int)
    requires 1 <= a < b <= 13
    ensures DaysBeforeMonth(y, a) + MonthDays(y, a) <= DaysBeforeMonth(y, b)
    decreases b - a
  {
    if a < b - 1 { MonthsGrow(y, a, b - 1); }
  }

  /** Days before month `m` of a common year. */
  function Cumulative(m: int): int
    requires 1 <= m <= 13
  {
    if m == 1 then 0 else if m == 2 then 31 else if m == 3 then 59 else if m == 4 then 90 else if m == 5 then 120
    else if m == 6 then 151 else if m == 7 then 181 else if m == 8 then 212 else if m == 9 then 243
    else if m == 10 then 273 else if m == 11 then 304 else if m == 12 then 334 else 365
  }

  lemma {:induction false} MonthsAre(y: int, m: int)
    requires 1 <= m <= 13
    ensures DaysBeforeMonth(y, m) == Cumulative(m) + if m > 2 then LeapDay(y) else 0
    decreases m
  {
    if m > 1 { MonthsAre(y, m - 1); }
  }

  lemma YearLength(y: int, m: int, n: int)
    requires 1 <= m < n == 13
    ensures DaysBeforeMonth(y, m) + MonthDays(y, m) <= DaysBeforeMonth(y, n) == YearDays(y)
  {
    MonthsGrow(y, m, n);
    MonthsAre(y, n);
  }

  /** A date lies inside its year. */
  lemma DayInYear(y: int, m: int, d: int)
    requires 1 <= m <= 12 && 1 <= d <= MonthDays(y, m)
    ensures 0 <= DaysBeforeMonth(y, m) + d - 1 < YearDays(y)
  {
    YearLength(y, m, 13);
  }

  lemma DaysOrdered(y: int, m: int, d: int, y': int, m': int, d': int)
    requires 1970 <= y && 1 <= m <= 12 && 1 <= d <= MonthDays(y, m)
    requires 1 <= m' <= 12 && 1 <= d' <= MonthDays(y', m')
    requires y < y' || (y == y' && (m < m' || (m == m' && d < d')))
    ensures DayNumber(y, m, d) < DayNumber(y', m', d')
  {
    DayInYear(y, m, d);
    DayInYear(y', m', d');
    if y < y' {
      YearsGrow(y, y');
    } else if m < m' {
      MonthsGrow(y, m, m');
    }
  }

  function TimeOfDay(t: Civil): int { t.hour * 3600 + t.minute * 60 + t.second }

  /** Later dates have larger numbers of seconds. */
  lemma UnixMonotone(a: Civil, b: Civil)
    requires Proper(a) && Proper(b) && Before(a, b)
    ensures UnixSeconds(a) < UnixSeconds(b)
  {
    assert 0 <= TimeOfDay(a) < 86400 && 0 <= TimeOfDay(b) < 86400;
    if a.year == b.year && a.month == b.month && a.day == b.day {
      assert TimeOfDay(a) < TimeOfDay(b);
    } else {
      DaysOrdered(a.year, a.month, a.day, b.year, b.month, b.day);
    }
  }

  lemma UnixInjective(a: Civil, b: Civil)
    requires Proper(a) && Proper(b) && UnixSeconds(a) == UnixSeconds(b)
    ensures a == b
  {
    if Before(a, b) {
      UnixMonotone(a, b);
    } else if Before(b, a) {
      UnixMonotone(b, a);
    }
  }

  // ---- Seconds to dates ----

  predicate InYear(days: int, y: int) { y >= 1970 && DaysBeforeYear(y) <= days < DaysBeforeYear(y) + YearDays(y) }

  predicate InMonth(days: int, y: int, m: int) {
    1 <= m <= 12 && DaysBeforeMonth(y, m) <= days < DaysBeforeMonth(y, m) + MonthDays(y, m)
  }

  lemma {:induction false} YearExists(days: int, y: int)
    requires days >= DaysBeforeYear(y) && y >= 1970
    ensures exists r :: InYear(days, r)
    decreases days - DaysBeforeYear(y)
  {
    if days < DaysBeforeYear(y) + YearDays(y) { assert InYear(days, y); } else { YearExists(days, y + 1); }
  }

  lemma {:induction false} MonthExists(days: int, y: int, m: int)
    requires 1 <= m <= 12 && DaysBeforeMonth(y, m) <= days < YearDays(y)
    ensures exists r :: InMonth(days, y, r)
    decreases 12 - m
  {
    if days < DaysBeforeMonth(y, m) + MonthDays(y, m) {
      assert InMonth(days, y, m);
    } else {
      MonthsLeft(y, m, days);
      MonthExists(days, y, m + 1);
    }
  }

  lemma MonthsLeft(y: int, m: int, days: int)
    requires 1 <= m <= 12 && DaysBeforeMonth(y, m) + MonthDays(y, m) <= days < YearDays(y)
    ensures m < 12
  {
    MonthsAre(y, m + 1);
  }

  /** A day lies in one year, and a day of the year in one month, only. */
  lemma YearUnique(days: int, a: int, b: int)
    requires InYear(days, a) && InYear(days, b)
    ensures a == b
  {
    if a < b { YearsGrow(a, b); }
    if b < a { YearsGrow(b, a); }
  }

  lemma MonthUnique(days: int, y: int, a: int, b: int)
    requires InMonth(days, y, a) && InMonth(days, y, b)
    ensures a == b
  {
    if a < b { MonthsGrow(y, a, b); }
    if b < a { MonthsGrow(y, b, a); }
  }

  ghost function YearIn(days: int): (y: int)
    requires days >= 0
    ensures InYear(days, y)
  {
    YearExists(days, 1970);
    var y :| InYear(days, y);
    y
  }

  ghost function MonthIn(days: int, y: int): (m: int)
    requires 0 <= days < YearDays(y)
    ensures InMonth(days, y, m)
  {
    MonthExists(days, y, 1);
    var m :| InMonth(days, y, m);
    m
  }

  /** The date of a number of seconds; before 1970 the day of January 1970 that is not in the calendar. */
  ghost function YearOf(days: int): int { if days < 0 then 1970 else YearIn(days) }

  ghost function MonthOf(days: int, y: int): (m: int)
    requires y == YearOf(days)
    ensures m <= 12
  {
    if days < 0 then 1 else MonthIn(days - DaysBeforeYear(y), y)
  }

  ghost function ToCivil(s: int): (t: Civil)
    ensures t.month <= 12
  {
    var days, rem := s / 86400, s % 86400;
    var y := YearOf(days);
    var m := MonthOf(days, y);
    Civil(y, m, days - DaysBeforeYear(y) - DaysBeforeMonth(y, m) + 1, rem / 3600, rem / 60 % 60, rem % 60)
  }

  /** Going to the calendar and back loses nothing, for every number of seconds. */
  lemma SecondsRoundTrip(s: int)
    ensures UnixSeconds(ToCivil(s)) == s
  {
    var rem := s % 86400;
    assert rem / 3600 * 3600 + rem / 60 % 60 * 60 + rem % 60 == rem by { Clock(rem); }
  }

  lemma Clock(rem: int)
    requires 0 <= rem < 86400
    ensures rem / 3600 * 3600 + rem / 60 % 60 * 60 + rem % 60 == rem
    ensures 0 <= rem / 3600 < 24
  {
  }

  /** The date is one of the calendar exactly from 1970 on. */
  lemma ProperIff(s: int)
    ensures Proper(ToCivil(s)) <==> s >= 0
  {
    Clock(s % 86400);
  }

  /** The calendar date of a date's seconds is that date. */
  lemma CivilRoundTrip(t: Civil)
    requires Proper(t)
    ensures UnixSeconds(t) >= 0 && ToCivil(UnixSeconds(t)) == t
  {
    var s := UnixSeconds(t);
    SecondsRoundTrip(s);
    ProperIff(s);
    UnixInjective(t, ToCivil(s));
  }

  /** Conversion to dates is strictly monotone. */
  lemma CivilMonotone(a: int, b: int)
    requires 0 <= a < b
    ensures Before(ToCivil(a), ToCivil(b))
  {
    SecondsRoundTrip(a);
    SecondsRoundTrip(b);
    ProperIff(a);
    ProperIff(b);
    if Before(ToCivil(b), ToCivil(a)) { UnixMonotone(ToCivil(b), ToCivil(a)); }
  }

  /** Leap days up to and including year `y`. */
  function LeapsTo(y: int): int { y / 4 - y / 100 + y / 400 }

  lemma LeapsStep(y: int)
    requires y > 0
    ensures LeapsTo(y) == LeapsTo(y - 1) + LeapDay(y)
  {
    FourthStep(y);
    HundredthStep(y);
    FourHundredthStep(y);
    HundredIsFourths(y);
    FourHundredIsHundreds(y);
  }

  lemma HundredIsFourths(y: int)
    ensures y % 100 == 0 ==> y % 4 == 0
  {
    if y % 100 == 0 { assert y == 4 * (25 * (y / 100)); }
  }

  lemma FourHundredIsHundreds(y: int)
    ensures y % 400 == 0 ==> y % 100 == 0
  {
    if y % 400 == 0 { assert y == 100 * (4 * (y / 400)); }
  }

  lemma FourthStep(y: int)
    ensures y / 4 == (y - 1) / 4 + if y % 4 == 0 then 1 else 0
  {
  }

  lemma HundredthStep(y: int)
    ensures y / 100 == (y - 1) / 100 + if y % 100 == 0 then 1 else 0
  {
  }

  lemma FourHundredthStep(y: int)
    ensures y / 400 == (y - 1) / 400 + if y % 400 == 0 then 1 else 0
  {
  }

  lemma {:induction false} YearsAre(y: int)
    requires y >= 1970
    ensures DaysBeforeYear(y) == 365 * (y - 1970) + LeapsTo(y - 1) - 477
    decreases y
  {
    if y > 1970 {
      YearsAre(y - 1);
      LeapsStep(y - 1);
    }
  }

  lemma EndOfTime(y: int)
    requires y == 2100
    ensures UnixSeconds(Civil(y, 1, 1, 0, 0, 0)) == 4102444800
  {
    YearsAre(y);
  }

  /** The kernel accepts the date of `s` exactly from 1970 up to the end of 2099. */
  lemma ValidIff(s: int)
    ensures ValidCivil(ToCivil(s)) <==> 0 <= s < 4102444800
  {
    ProperIff(s);
    SecondsRoundTrip(s);
    if s >= 0 { BeforeTheEnd(ToCivil(s)); }
  }

  lemma BeforeTheEnd(t: Civil)
    requires Proper(t)
    ensures t.year <= 2099 <==> UnixSeconds(t) < 4102444800
  {
    var end := Civil(2100, 1, 1, 0, 0, 0);
    EndOfTime(2100);
    if t.year <= 2099 {
      UnixMonotone(t, end);
    } else if t != end {
      assert Before(end, t);
      UnixMonotone(end, t);
    }
  }

  // ---- The loops ----

  /** Division as the machine does it, towards zero. */
  function Quot(a: int, b: int): int
    requires b > 0
  {
    if a >= 0 then a / b else -((-a) / b)
  }

  method RtcUnixSeconds(t: Civil) returns (s: int)
    requires t.month <= 13
    ensures s == UnixSeconds(t)
  {
    var days := 0;
    var y := 1970;
    while y < t.year
      invariant 1970 <= y && (y <= t.year || y == 1970) && days == DaysBeforeYear(y)
    {
      days, y := days + YearDays(y), y + 1;
    }
    assert DaysBeforeYear(y) == DaysBeforeYear(t.year);
    var m := 1;
    ghost var base := days;
    while m < t.month
      invariant 1 <= m && (m <= t.month || m == 1) && days == base + DaysBeforeMonth(t.year, m)
    {
      days := days + PlainDays(m);
      if m == 2 && Leap(t.year) { days := days + 1; }
      m := m + 1;
    }
    assert DaysBeforeMonth(t.year, m) == DaysBeforeMonth(t.year, t.month);
    days := days + t.day - 1;
    s := days * 86400 + t.hour * 3600 + t.minute * 60 + t.second;
  }

  /** Counts years off a number of days. */
  method TakeYears(all: int) returns (year: int, days: int)
    ensures days == all - DaysBeforeYear(year)
    ensures if all < 0 then year == 1970 else InYear(all, year)
  {
    days, year := all, 1970;
    while days >= YearDays(year)
      invariant year >= 1970 && days == all - DaysBeforeYear(year)
      invariant if all < 0 then year == 1970 else days >= 0
    {
      days, year := days - YearDays(year), year + 1;
    }
  }

  /** Counts months off the days of a year; there are never more than twelve. */
  method TakeMonths(year: int, inYear: int) returns (month: int, days: int)
    requires inYear < YearDays(year)
    ensures 1 <= month <= 12 && days == inYear - DaysBeforeMonth(year, month)
    ensures if inYear < 0 then month == 1 else InMonth(inYear, year, month)
  {
    days, month := inYear, 1;
    while days >= MonthDays(year, month)
      invariant 1 <= month <= 12 && days == inYear - DaysBeforeMonth(year, month)
      invariant if inYear < 0 then month == 1 else days >= 0
      decreases 12 - month
    {
      MonthsLeft(year, month, inYear);
      days, month := days - MonthDays(year, month), month + 1;
    }
  }

  /** Days and seconds of the day, corrected after a division towards zero. */
  method SplitDays(seconds: int) returns (days: int, rem: int)
    ensures days == seconds / 86400 && rem == seconds % 86400
  {
    days := Quot(seconds, 86400);
    rem := seconds - 86400 * days;
    if rem < 0 { rem, days := rem + 86400, days - 1; }
  }

  method SecondsToCivil(seconds: int) returns (t: Civil)
    ensures t == ToCivil(seconds)
  {
    var days, rem := SplitDays(seconds);
    var year, inYear := TakeYears(days);
    var month, rest := TakeMonths(year, inYear);
    PlaceIs(days, inYear, year, month);
    t := Civil(year, month, rest + 1, rem / 3600, rem / 60 % 60, rem % 60);
  }

  /** Year and month of a day are determined by where it lies. */
  lemma PlaceIs(days: int, inYear: int, year: int, month: int)
    requires inYear == days - DaysBeforeYear(year)
    requires if days < 0 then year == 1970 && month == 1
             else InYear(days, year) && InMonth(inYear, year, month) && inYear < YearDays(year)
    ensures YearOf(days) == year && MonthOf(days, year) == month
  {
    if days >= 0 {
      YearIs(days, year);
      MonthIs(inYear, year, month);
    }
  }

  lemma YearIs(days: int, y: int)
    requires InYear(days, y)
    ensures days >= 0 && y == YearIn(days)
  {
    YearUnique(days, y, YearIn(days));
  }

  lemma MonthIs(days: int, y: int, m: int)
    requires InMonth(days, y, m) && days < YearDays(y)
    ensures days >= 0 && m == MonthIn(days, y)
  {
    MonthUnique(days, y, m, MonthIn(days, y));
  }

  // ---- Weekdays, Sunday being 0 ----

  predicate IsDate(y: int, m: int, d: int) { y >= 1970 && 1 <= m <= 12 && 1 <= d <= MonthDays(y, m) }

  function CivilWeekday(y: int, m: int, d: int): (w: int)
    requires m <= 13
  {
    (UnixSeconds(Civil(y, m, d, 0, 0, 0)) / 86400 + 4) % 7
  }

  function MonthKey(m: int): int
    requires 1 <= m <= 12
  {
    if m == 1 then 0 else if m == 2 then 3 else if m == 3 then 2 else if m == 4 then 5 else if m == 5 then 0
    else if m == 6 then 3 else if m == 7 then 5 else if m == 8 then 1 else if m == 9 then 4 else if m == 10 then 6
    else if m == 11 then 2 else 4
  }

  /** The desktop's closed formula. */
  function CalendarWeekday(y: int, m: int, d: int): int
    requires 1 <= m <= 12
  {
    var y' := if m < 3 then y - 1 else y;
    (y' + y' / 4 - y' / 100 + y' / 400 + MonthKey(m) + d) % 7
  }

  lemma WeekdayOfDays(y: int, m: int, d: int)
    requires m <= 13
    ensures CivilWeekday(y, m, d) == (DayNumber(y, m, d) + 4) % 7
  {
  }

  lemma SameModSeven(a: int, b: int, k: int)
    requires a == b + 7 * k
    ensures a % 7 == b % 7
  {
  }

  /** Month offsets and keys differ by whole weeks, counting the shifted year from March on. */
  lemma KeysFit(m: int)
    requires 1 <= m <= 12
    ensures (Cumulative(m) - MonthKey(m) - if m < 3 then 0 else 1) % 7 == 0
  {
  }

  /** The counted weekday and the closed formula agree on every date from 1970 on. */
  lemma WeekdaysAgree(y: int, m: int, d: int)
    requires IsDate(y, m, d)
    ensures CivilWeekday(y, m, d) == CalendarWeekday(y, m, d)
  {
    WeekdayOfDays(y, m, d);
    YearsAre(y);
    MonthsAre(y, m);
    LeapsStep(y);
    KeysFit(m);
    var extra := if m < 3 then 0 else 1;
    var weeks := (Cumulative(m) - MonthKey(m) - extra) / 7;
    var y' := if m < 3 then y - 1 else y;
    assert LeapsTo(y') == LeapsTo(y - 1) + if m < 3 then 0 else LeapDay(y);
    SameModSeven(DayNumber(y, m, d) + 4, y' + LeapsTo(y') + MonthKey(m) + d, 52 * y - 102789 + weeks);
  }

  lemma WeekdayShifts(y: int, m: int, d: int, k: int)
    requires 1 <= m <= 12
    ensures CivilWeekday(y, m, d + k) == (CivilWeekday(y, m, d) + k) % 7
  {
    WeekdayOfDays(y, m, d);
    WeekdayOfDays(y, m, d + k);
    var n := DayNumber(y, m, d) + 4;
    SameModSeven(n + k, n % 7 + k, n / 7);
  }

  function NthWeekday(y: int, m: int, w: int, n: int): int
    requires 1 <= m <= 12
  {
    var day := 1 + (w - CivilWeekday(y, m, 1) + 7) % 7 + 7 * (n - 1);
    if day <= MonthDays(y, m) then day else 0
  }

  function LastWeekday(y: int, m: int, w: int): int
    requires 1 <= m <= 12
  {
    var day := MonthDays(y, m);
    day - (CivilWeekday(y, m, day) - w + 7) % 7
  }

  /** How many of the first `k` days of the month fall on weekday `w`. */
  function WeekdayCount(y: int, m: int, w: int, k: nat): nat
    requires 1 <= m <= 12
  {
    if k == 0 then 0 else WeekdayCount(y, m, w, k - 1) + if CivilWeekday(y, m, k) == w then 1 else 0
  }

  function FirstDay(y: int, m: int, w: int): int
    requires 1 <= m <= 12
  {
    1 + (w - CivilWeekday(y, m, 1) + 7) % 7
  }

  lemma FallsOn(y: int, m: int, w: int, k: int)
    requires 1 <= m <= 12 && 0 <= w < 7
    ensures CivilWeekday(y, m, k) == w <==> (k - FirstDay(y, m, w)) % 7 == 0
  {
    var first := FirstDay(y, m, w);
    var a := CivilWeekday(y, m, 1);
    WeekdayShifts(y, m, 1, first - 1);
    FirstFits(a, w);
    WeekdayShifts(y, m, first, k - first);
    WholeWeeks(w, k - first);
  }

  lemma WholeWeeks(w: int, j: int)
    requires 0 <= w < 7
    ensures (w + j) % 7 == w <==> j % 7 == 0
  {
  }

  lemma FirstFits(a: int, w: int)
    requires 0 <= a < 7 && 0 <= w < 7
    ensures (a + (w - a + 7) % 7) % 7 == w
  {
  }

  lemma {:induction false} CountIs(y: int, m: int, w: int, k: nat)
    requires 1 <= m <= 12 && 0 <= w < 7
    ensures var f := FirstDay(y, m, w); WeekdayCount(y, m, w, k) == if k < f then 0 else (k - f) / 7 + 1
  {
    if k > 0 {
      CountIs(y, m, w, k - 1);
      FallsOn(y, m, w, k);
    }
  }

  /** The n-th such weekday of the month, or 0 exactly when the month has fewer. */
  lemma NthIsNth(y: int, m: int, w: int, n: int)
    requires y >= 1970 && 1 <= m <= 12 && 0 <= w < 7 && n >= 1
    ensures var r := NthWeekday(y, m, w, n);
      if WeekdayCount(y, m, w, MonthDays(y, m)) < n then r == 0
      else 1 <= r <= MonthDays(y, m) && CivilWeekday(y, m, r) == w && WeekdayCount(y, m, w, r) == n
  {
    var f := FirstDay(y, m, w);
    NthDay(y, m, w, n, f + 7 * (n - 1));
    CountIs(y, m, w, MonthDays(y, m));
  }

  lemma NthDay(y: int, m: int, w: int, n: int, day: int)
    requires 1 <= m <= 12 && 0 <= w < 7 && n >= 1 && day == FirstDay(y, m, w) + 7 * (n - 1)
    ensures day >= 1 && CivilWeekday(y, m, day) == w && WeekdayCount(y, m, w, day) == n
  {
    CountIs(y, m, w, day);
    FallsOn(y, m, w, day);
  }

  /** The last such weekday of the month: none comes after it. */
  lemma LastIsLast(y: int, m: int, w: int)
    requires y >= 1970 && 1 <= m <= 12 && 0 <= w < 7
    ensures var r := LastWeekday(y, m, w);
      1 <= r <= MonthDays(y, m) && CivilWeekday(y, m, r) == w
      && forall k | r < k <= MonthDays(y, m) :: CivilWeekday(y, m, k) != w
  {
    var day := MonthDays(y, m);
    var a := CivilWeekday(y, m, day);
    var back := (a - w + 7) % 7;
    LastFalls(y, m, w, day);
    forall k | day - back < k <= day ensures CivilWeekday(y, m, k) != w {
      NotWithinWeek(y, m, w, day - back, k);
    }
  }

  lemma NotWithinWeek(y: int, m: int, w: int, r: int, k: int)
    requires 1 <= m <= 12 && 0 <= w < 7 && CivilWeekday(y, m, r) == w && r < k < r + 7
    ensures CivilWeekday(y, m, k) != w
  {
    WeekdayShifts(y, m, r, k - r);
    WholeWeeks(w, k - r);
  }

  lemma LastFalls(y: int, m: int, w: int, day: int)
    requires 1 <= m <= 12 && 0 <= w < 7
    ensures CivilWeekday(y, m, day - (CivilWeekday(y, m, day) - w + 7) % 7) == w
  {
    var a := CivilWeekday(y, m, day);
    WeekdayShifts(y, m, day, -((a - w + 7) % 7));
    LastFits(a, w);
  }

  lemma LastFits(a: int, w: int)
    requires 0 <= a < 7 && 0 <= w < 7
    ensures (a - (a - w + 7) % 7) % 7 == w
  {
  }
}
