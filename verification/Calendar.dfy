/** gmtime, mktime and localtime on 32-bit times. */
module Calendar {

  import opened CInt

  // ---- the calendar, counted year by year and month by month ----

  predicate IsLeap(y: int) {
    y % 4 == 0
  }

  /** The rule of the Gregorian calendar. */
  predicate IsGregorianLeap(y: int) {
    y % 4 == 0 && (y % 100 != 0 || y % 400 == 0)
  }

  function YearDays(y: int): int {
    if IsLeap(y) then 366 else 365
  }

  const MONTH_DAYS := [31, 28, 31, 30, 31, 30, 31, 31, 30, 31, 30, 31]

  function MonthDays(y: int, mon: int): int
    requires 0 <= mon < 12
  {
    MONTH_DAYS[mon] + if mon == 1 && IsLeap(y) then 1 else 0
  }

  /** Days from 1 January 1970 to 1 January of year `y`. */
  function DaysToYear(y: int): int
    decreases if y < 1970 then 1970 - y else y - 1970
  {
    if y == 1970 then 0
    else if y > 1970 then DaysToYear(y - 1) + YearDays(y - 1)
    else DaysToYear(y + 1) - YearDays(y)
  }

  /** Days from 1 January to the first day of month `mon`, where month 12 is
      January of the next year. */
  function DaysToMonth(y: int, mon: int): int
    requires 0 <= mon <= 12
  {
    if mon == 0 then 0 else DaysToMonth(y, mon - 1) + MonthDays(y, mon - 1)
  }

  /** The fields of struct tm. */
  datatype Tm = Tm(sec: int, min: int, hour: int, mday: int, mon: int, year: int, wday: int, yday: int, isdst: int)

  predicate ValidDate(tm: Tm) {
    && 0 <= tm.mon < 12 && 1 <= tm.mday <= MonthDays(tm.year + 1900, tm.mon)
    && 0 <= tm.hour < 24 && 0 <= tm.min < 60 && 0 <= tm.sec < 60
  }

  /** The day since 1 January 1970. */
  function DayNumber(tm: Tm): int
    requires 0 <= tm.mon < 12
  {
    DaysToYear(tm.year + 1900) + DaysToMonth(tm.year + 1900, tm.mon) + tm.mday - 1
  }

  /** The second since 1 January 1970, UTC. */
  function SecondNumber(tm: Tm): int
    requires 0 <= tm.mon < 12
  {
    DayNumber(tm) * 86400 + tm.hour * 3600 + tm.min * 60 + tm.sec
  }

  /** Between 1901 and 2099 the simple rule is the rule of the calendar. */
  lemma LeapRule(y: int)
    requires 1901 <= y <= 2099
    ensures IsLeap(y) <==> IsGregorianLeap(y)
  {
  }

  lemma {:induction false} DaysToYearClosed(y: int)
    requires 1 <= y
    ensures DaysToYear(y) == 365 * (y - 1970) + (y - 1) / 4 - 492
    decreases if y < 1970 then 1970 - y else y - 1970
  {
    if y > 1970 { DaysToYearClosed(y - 1); }
    if y < 1970 { DaysToYearClosed(y + 1); }
  }

  lemma YearFollows(y: int)
    ensures DaysToYear(y + 1) == DaysToYear(y) + YearDays(y)
  {
  }

  lemma MonthFollows(y: int, mon: int)
    requires 0 <= mon < 12
    ensures DaysToMonth(y, mon + 1) == DaysToMonth(y, mon) + MonthDays(y, mon) && MonthDays(y, mon) > 0
  {
  }

  lemma YearStart(y: int)
    ensures DaysToMonth(y, 0) == 0 && DaysToMonth(y, 12) == YearDays(y) > 0
  {
    MonthTable(y);
  }

  lemma MonthTable(y: int)
    ensures var l := if IsLeap(y) then 1 else 0;
      && DaysToMonth(y, 1) == 31 && DaysToMonth(y, 2) == 59 + l && DaysToMonth(y, 3) == 90 + l
      && DaysToMonth(y, 4) == 120 + l && DaysToMonth(y, 5) == 151 + l && DaysToMonth(y, 6) == 181 + l
      && DaysToMonth(y, 7) == 212 + l && DaysToMonth(y, 8) == 243 + l && DaysToMonth(y, 9) == 273 + l
      && DaysToMonth(y, 10) == 304 + l && DaysToMonth(y, 11) == 334 + l && DaysToMonth(y, 12) == YearDays(y)
  {
  }

  // ---- mktime ----

  const MON_DAYS := [31, 59, 90, 120, 151, 181, 212, 243, 273, 304, 334, 365]

  /** The leap days that mktime counts in its closed form: those between 1970
      and the date, by the year and by whether the date lies behind February. */
  method CountLeaps(year: int, mon: int) returns (leaps: int)
    requires 0 <= mon < 12 && 1 <= year + 1900
    ensures (year - 70) * 365 + leaps == DaysToYear(year + 1900) + if mon > 1 && IsLeap(year + 1900) then 1 else 0
  {
    hide DaysToYear;
    var leapYear := (year + 1900) % 4 == 0;
    var tyears := year - 70;
    leaps := TruncDiv(tyears + 2, 4);
    if tyears < 0 {
      leaps := TruncDiv(tyears - 2, 4);
      if leapYear && mon > 1 {
        leaps := leaps + 1;
      }
    } else {
      leaps := TruncDiv(tyears + 2, 4);
      if leapYear && (mon == 0 || mon == 1) {
        leaps := leaps - 1;
      }
    }
    DaysToYearClosed(year + 1900);
  }

  lemma MonthsOfCommonYear(y: int, mon: int)
    requires 0 < mon < 12
    ensures MON_DAYS[mon - 1] == DaysToMonth(y, mon) - if mon > 1 && IsLeap(y) then 1 else 0
  {
  }

  /** The days that mktime counts. */
  method CountDays(tm: Tm) returns (tdays: int)
    requires 0 <= tm.mon < 12 && 1 <= tm.year + 1900
    ensures tdays == DayNumber(tm)
  {
    var leaps := CountLeaps(tm.year, tm.mon);
    tdays := if tm.mon > 0 then MON_DAYS[tm.mon - 1] else 0;
    if tm.mon > 0 { MonthsOfCommonYear(tm.year + 1900, tm.mon); }
    tdays := tdays + tm.mday - 1;
    tdays := tdays + (tm.year - 70) * 365 + leaps;
  }

  method Mktime(tm: Tm, timezone: int) returns (t: int)
    requires 0 <= tm.mon < 12 && 1 <= tm.year + 1900
    ensures t == Wrap32(SecondNumber(tm) + timezone)
  {
    var tdays := CountDays(tm);
    t := Wrap32(tdays * 86400);
    WrapAdd(tdays * 86400, tm.hour * 3600);
    t := Wrap32(t + tm.hour * 3600);
    WrapAdd(tdays * 86400 + tm.hour * 3600, tm.min * 60);
    t := Wrap32(t + tm.min * 60);
    WrapAdd(tdays * 86400 + tm.hour * 3600 + tm.min * 60, tm.sec);
    t := Wrap32(t + tm.sec);
    WrapAdd(tdays * 86400 + tm.hour * 3600 + tm.min * 60 + tm.sec, timezone);
    t := Wrap32(t + timezone);
  }

  // ---- gmtime ----

  /** The day that a time falls on. */
  function DayOf(t: int): int {
    t / 86400
  }

  /** 0 is Sunday; 1 January 1970 was a Thursday. */
  function Weekday(day: int): int {
    (day + 4) % 7
  }

  /** The time falls on 1 January of a year after 1970. */
  ghost predicate NewYearsDay(t: int) {
    exists y :: 1970 < y && DaysToYear(y) == DayOf(t)
  }

  lemma {:induction false} YearsGrow(y: int, z: int)
    requires y < z
    ensures DaysToYear(y) + YearDays(y) <= DaysToYear(z)
    decreases z - y
  {
    YearFollows(z - 1);
    if y >= z - 1 {
    } else {
      YearsGrow(y, z - 1);
    }
  }

  lemma YearBounds(y: int, time: int)
    requires LONG_MIN <= time <= LONG_MAX && DaysToYear(y) <= DayOf(time) < DaysToYear(y) + YearDays(y)
    ensures 1901 <= y <= 2038
  {
    DaysToYearClosed(1901);
    DaysToYearClosed(2039);
    if y < 1901 { YearsGrow(y, 1901); }
    if 2038 < y && y != 2039 { YearsGrow(2039, y); }
  }

  lemma {:induction false} MonthsGrow(y: int, m: int, n: int)
    requires 0 <= m < n <= 12
    ensures DaysToMonth(y, m) + MonthDays(y, m) <= DaysToMonth(y, n)
    decreases n - m
  {
    if m >= n - 1 {
    } else {
      MonthsGrow(y, m, n - 1);
    }
  }

  lemma DayInYear(tm: Tm)
    requires ValidDate(tm)
    ensures 0 <= DayNumber(tm) - DaysToYear(tm.year + 1900) < YearDays(tm.year + 1900)
  {
    MonthTable(tm.year + 1900);
    MonthsGrow(tm.year + 1900, tm.mon, 12);
    if tm.mon > 0 { MonthsGrow(tm.year + 1900, 0, tm.mon); }
  }

  ghost predicate Earlier(a: Tm, b: Tm) {
    || a.year < b.year
    || (a.year == b.year && (a.mon < b.mon
    || (a.mon == b.mon && (a.mday < b.mday
    || (a.mday == b.mday && (a.hour < b.hour
    || (a.hour == b.hour && (a.min < b.min
    || (a.min == b.min && a.sec < b.sec)))))))))
  }

  /** Of two dates one is earlier, or they agree in every field. */
  lemma EarlierOrSame(a: Tm, b: Tm)
    ensures Earlier(a, b) || Earlier(b, a) || (a.year == b.year && a.mon == b.mon && a.mday == b.mday
            && a.hour == b.hour && a.min == b.min && a.sec == b.sec)
  {
  }

  /** The order of dates is the order of their seconds. */
  lemma SecondsIncrease(a: Tm, b: Tm)
    requires ValidDate(a) && ValidDate(b) && Earlier(a, b)
    ensures SecondNumber(a) < SecondNumber(b)
  {
    DayInYear(a);
    DayInYear(b);
    if a.year < b.year { YearsGrow(a.year + 1900, b.year + 1900); }
    if a.year == b.year && a.mon < b.mon { MonthsGrow(a.year + 1900, a.mon, b.mon); }
  }

  /** A second has one date. */
  lemma DateUnique(a: Tm, b: Tm)
    requires ValidDate(a) && ValidDate(b) && SecondNumber(a) == SecondNumber(b)
    ensures a.year == b.year && a.mon == b.mon && a.mday == b.mday && a.hour == b.hour && a.min == b.min
    ensures a.sec == b.sec
  {
    hide Earlier;
    EarlierOrSame(a, b);
    if Earlier(a, b) { SecondsIncrease(a, b); }
    if Earlier(b, a) { SecondsIncrease(b, a); }
  }

  /** When gmtime overshoots the year: its time is on a New Year's Day. */
  lemma Overshoot(y: int, days: int, t: int)
    requires 1970 <= y && 0 <= days <= YearDays(y) && (1970 < y ==> 0 < days) && DayOf(t) == DaysToYear(y) + days
    ensures days == YearDays(y) <==> NewYearsDay(t)
  {
    YearFollows(y);
    if NewYearsDay(t) {
      var z :| 1970 < z && DaysToYear(z) == DayOf(t);
      if z < y { YearsGrow(z, y); }
      if y + 1 < z { YearsGrow(y + 1, z); }
    }
  }

  /** 1 January 1971 is such a day, and 30 December 1969 was a Tuesday. */
  lemma GmtimeFails()
    ensures NewYearsDay(31536000)
    ensures -86401 < 0 && Weekday(DayOf(-86401)) == 2
  {
    assert DaysToYear(1970) == 0;
    assert DaysToYear(1971) == 365 == DayOf(31536000);
  }

  /** The static struct tm that gmtime fills. */
  class Clock {
    var tm: Tm
    const timezone: int

    constructor (timezone: int)
      ensures this.timezone == timezone && tm == Tm(0, 0, 0, 0, 0, 0, 0, 0, 0)
    {
      this.timezone := timezone;
      tm := Tm(0, 0, 0, 0, 0, 0, 0, 0, 0);
    }

    /** Walks from 1970, or from 1969 backwards, to the year of day number `day`. */
    method WalkYears(neg: bool, days0: int, ghost day: int) returns (days: int)
      requires tm.year == (if neg then 1969 else 1970) && 0 <= days0 && day == (if neg then -days0 - 1 else days0)
      modifies this`tm
      ensures 0 <= days <= YearDays(tm.year) && (neg ==> days < YearDays(tm.year))
      ensures day == if neg then DaysToYear(tm.year + 1) - 1 - days else DaysToYear(tm.year) + days
      ensures tm.yday == day - DaysToYear(tm.year) && tm == old(tm).(year := tm.year, yday := tm.yday)
      ensures if neg then tm.year <= 1969 else 1970 <= tm.year
      ensures !neg && 1970 < tm.year ==> 0 < days
    {
      var step := if neg then -1 else 1;
      days := days0;
      while true
        invariant 0 <= days && (if neg then tm.year <= 1969 else 1970 <= tm.year)
        invariant day == if neg then DaysToYear(tm.year + 1) - 1 - days else DaysToYear(tm.year) + days
        invariant tm == old(tm).(year := tm.year) && (!neg && 1970 < tm.year ==> 0 < days)
        decreases days
      {
        var yeardays := if tm.year % 4 == 0 then 366 else 365;
        YearFollows(tm.year);
        if neg {
          if yeardays > days {
            tm := tm.(yday := yeardays - days - 1);
            break;
          }
        } else {
          if yeardays >= days {
            tm := tm.(yday := days);
            break;
          }
        }
        tm := tm.(year := tm.year + step);
        days := days - yeardays;
        YearFollows(tm.year);
      }
    }

    /** Walks from January, or from December backwards, to the month and the day
        of the month. A day number that WalkYears has left one too high leads
        into January of the next year. */
    method WalkMonths(neg: bool, days0: int, ghost day: int)
      requires 0 <= days0 <= YearDays(tm.year) && (neg ==> days0 < YearDays(tm.year))
      requires day == if neg then DaysToYear(tm.year + 1) - 1 - days0 else DaysToYear(tm.year) + days0
      modifies this`tm
      ensures 0 <= tm.mon < 12 && 1 <= tm.mday <= MonthDays(tm.year, tm.mon)
      ensures day == DaysToYear(tm.year) + DaysToMonth(tm.year, tm.mon) + tm.mday - 1
      ensures tm == old(tm).(year := tm.year, mon := tm.mon, mday := tm.mday)
      ensures tm.year == old(tm).year + if !neg && days0 == YearDays(old(tm).year) then 1 else 0
    {
      hide DaysToYear, DaysToMonth, YearDays;
      var step := if neg then -1 else 1;
      ghost var y := tm.year;
      var days := days0;
      tm := tm.(mon := if neg then 11 else 0);
      var leap := tm.year % 4 == 0;
      var monthdays;
      YearStart(y);
      YearStart(y + 1);
      YearFollows(y);
      while true
        invariant 0 <= tm.mon < 12 && 0 <= days && tm == old(tm).(year := tm.year, mon := tm.mon)
        invariant if neg then tm.year == y && day == DaysToYear(y) + DaysToMonth(y, tm.mon + 1) - 1 - days
          else day == DaysToYear(tm.year) + DaysToMonth(tm.year, tm.mon) + days
        invariant neg ==> days < DaysToMonth(y, tm.mon + 1)
        invariant !neg && tm.year == y ==> days <= YearDays(y) - DaysToMonth(y, tm.mon)
        invariant tm.year == y || (!neg && tm.year == y + 1 && tm.mon == 0 && days == 0 && days0 == YearDays(y))
        invariant !neg && tm.year == y && days0 == YearDays(y) ==> days == YearDays(y) - DaysToMonth(y, tm.mon)
        decreases if neg then tm.mon else if tm.year == y then 12 - tm.mon else 0
      {
        monthdays := MONTH_DAYS[tm.mon];
        if leap && tm.mon == 1 {
          monthdays := monthdays + 1;
        }
        MonthFollows(y, tm.mon);
        MonthsGrow(y, tm.mon, 12);
        if monthdays <= days {
          tm := tm.(mon := tm.mon + step);
          days := days - monthdays;
          if tm.mon == 12 {
            tm := tm.(mon := 0, year := tm.year + 1);
          }
        } else {
          tm := tm.(mday := if neg then monthdays else 1);
          break;
        }
      }
      tm := tm.(mday := tm.mday + step * days);
    }

    /** Breaks a time up into the fields of `tm`. */
    method Gmtime(time: int)
      requires LONG_MIN <= time <= LONG_MAX
      modifies this`tm
      ensures ValidDate(tm) && SecondNumber(tm) == time && 1 <= tm.year <= 138 && tm.isdst == -1
      ensures tm.yday == DayOf(time) - DaysToYear(tm.year + 1900) <==> !NewYearsDay(time)
      ensures NewYearsDay(time) ==> tm.yday == DayOf(time) - DaysToYear(tm.year + 1899)
      ensures tm.wday == Weekday(DayOf(time)) <==> 0 <= time || Weekday(DayOf(time)) == 3
      ensures time < 0 ==> tm.wday == (2 - DayOf(time)) % 7
    {
      hide DaysToYear, DaysToMonth, NewYearsDay, DayOf, MonthDays, Weekday;
      var neg, days, seconds := SplitDays(time);
      ghost var day := DayOf(time);
      days := WalkYears(neg, days, day);
      ghost var y, yday := tm.year, tm.yday;
      WalkMonths(neg, days, day);
      if neg { BeforeNewYear(time); } else { Overshoot(y, days, time); }
      YearsGrow(y, y + 1);
      SplitSeconds(seconds);
      tm := tm.(year := tm.year - 1900);
      tm := tm.(hour := seconds / 3600, min := seconds % 3600 / 60, sec := seconds % 60, isdst := -1);
      DayInYear(tm);
      YearBounds(tm.year + 1900, time);
    }

    /** The days and seconds of a time, counted away from 1970, and the day of the week. */
    method SplitDays(time: int) returns (neg: bool, days: int, seconds: int)
      requires LONG_MIN <= time <= LONG_MAX
      modifies this`tm
      ensures neg == (time < 0) && 0 <= days && DayOf(time) == if neg then -days - 1 else days
      ensures 0 <= seconds < 86400 && DayOf(time) * 86400 + seconds == time
      ensures tm.year == if neg then 1969 else 1970
      ensures tm.wday == Weekday(DayOf(time)) <==> 0 <= time || Weekday(DayOf(time)) == 3
      ensures time < 0 ==> tm.wday == (2 - DayOf(time)) % 7
    {
      var t := time;
      neg := t < 0;
      if neg {
        t := Wrap32(Wrap32(-t) - 1);
      }
      days := t / 86400;
      seconds := t % 86400;
      assert t == days * 86400 + seconds;
      WeekdayBackwards(days);
      if neg {
        tm := tm.(wday := (3 + days) % 7, year := 1969);
        seconds := 86399 - seconds;
      } else {
        tm := tm.(wday := (4 + days) % 7, year := 1970);
      }
      SplitTime(time, days, seconds);
    }

    /** The same in local time, which is a long. */
    method Localtime(time: int)
      requires LONG_MIN <= time <= LONG_MAX
      modifies this`tm
      ensures var local := Wrap32(time - timezone);
        && ValidDate(tm) && SecondNumber(tm) == local && 1 <= tm.year <= 138 && tm.isdst == -1
        && (tm.yday == DayOf(local) - DaysToYear(tm.year + 1900) <==> !NewYearsDay(local))
        && (NewYearsDay(local) ==> tm.yday == DayOf(local) - DaysToYear(tm.year + 1899))
        && (tm.wday == Weekday(DayOf(local)) <==> 0 <= local || Weekday(DayOf(local)) == 3)
        && (local < 0 ==> tm.wday == (2 - DayOf(local)) % 7)
    {
      Gmtime(Wrap32(time - timezone));
    }
  }

  /** There tm_yday is wrong, */
  method GmtimeOnNewYear(clock: Clock)
    modifies clock
    ensures ValidDate(clock.tm) && SecondNumber(clock.tm) == 31536000
    ensures clock.tm.yday != DayOf(31536000) - DaysToYear(clock.tm.year + 1900)
  {
    GmtimeFails();
    clock.Gmtime(31536000);
  }

  /** and tm_wday. */
  method GmtimeBefore1970(clock: Clock)
    modifies clock
    ensures ValidDate(clock.tm) && SecondNumber(clock.tm) == -86401
    ensures clock.tm.wday != Weekday(DayOf(-86401))
  {
    GmtimeFails();
    clock.Gmtime(-86401);
  }

  /** mktime undoes gmtime, for every time that a long can hold. */
  method MktimeAfterGmtime(clock: Clock, time: int) returns (t: int)
    requires LONG_MIN <= time <= LONG_MAX
    modifies clock
    ensures t == time
  {
    clock.Gmtime(time);
    t := Mktime(clock.tm, 0);
    WrapInRange(time);
  }

  /** mktime undoes localtime, whatever the time zone. */
  method MktimeAfterLocaltime(clock: Clock, time: int) returns (t: int)
    requires LONG_MIN <= time <= LONG_MAX
    modifies clock
    ensures t == time
  {
    clock.Localtime(time);
    t := Mktime(clock.tm, clock.timezone);
    WrapAdd(time - clock.timezone, clock.timezone);
    WrapInRange(time);
  }

  /** gmtime undoes mktime: a valid date comes back, field by field. */
  method GmtimeAfterMktime(clock: Clock, date: Tm)
    requires ValidDate(date) && 1 <= date.year + 1900 && LONG_MIN <= SecondNumber(date) <= LONG_MAX
    modifies clock
    ensures var tm := clock.tm;
      && tm.year == date.year && tm.mon == date.mon && tm.mday == date.mday
      && tm.hour == date.hour && tm.min == date.min && tm.sec == date.sec
  {
    var t := Mktime(date, 0);
    WrapInRange(SecondNumber(date));
    clock.Gmtime(t);
    DateUnique(clock.tm, date);
  }

  lemma BeforeNewYear(t: int)
    requires t < 0
    ensures !NewYearsDay(t)
  {
    forall y | 1970 < y ensures DaysToYear(y) != DayOf(t) { YearsGrow(1970, y); }
  }

  lemma SplitSeconds(s: int)
    requires 0 <= s < 86400
    ensures 0 <= s / 3600 < 24 && 0 <= s % 3600 / 60 < 60 && 0 <= s % 60 < 60
    ensures s / 3600 * 3600 + s % 3600 / 60 * 60 + s % 60 == s
  {
  }

  /** Before 1970 the day of the week is counted in the wrong direction. */
  lemma WeekdayBackwards(days: int)
    ensures (3 + days) % 7 == Weekday(-days - 1) <==> Weekday(-days - 1) == 3
  {
  }

  lemma SplitTime(time: int, days: int, seconds: int)
    requires LONG_MIN <= time <= LONG_MAX && 0 <= seconds < 86400
    requires time == (if time < 0 then (-days - 1) else days) * 86400 + seconds
    ensures DayOf(time) == if time < 0 then -days - 1 else days
  {
  }
}
