/**
 The proleptic Gregorian calendar of ISO 8601:2004 section 3.2.1, the broken-down time of the C library
 and the two conversions the time plans are written against: `mktime` as normalisation and `localtime_r`.
 Local time has a fixed offset, so a `time_t` is a number of seconds since 1970-01-01T00:00:00.
 */
module Gregorian {

  const DAYS_PER_MONTH: seq<int> := [31, 28, 31, 30, 31, 30, 31, 31, 30, 31, 30, 31]
  const DAYS_BEFORE_MONTH: seq<int> := [0, 31, 59, 90, 120, 151, 181, 212, 243, 273, 304, 334]
  const DAY_SECONDS := 86400

  /** 1970-01-01, counted in days from 0001-01-01. */
  const EPOCH_DAY := 719162

  predicate IsLeapYear(year: int) {
    year % 400 == 0 || (year % 4 == 0 && year % 100 != 0)
  }

  /** `alarm_timeplan::check_time` and `check_date`: true when the triple is accepted. */
  predicate CheckTime(h: int, m: int, s: int) {
    0 <= h < 24 && 0 <= m < 60 && 0 <= s < 60
  }

  predicate CheckDate(y: int, m: int, d: int) {
    1 <= m <= 12 && 1 <= d <= DAYS_PER_MONTH[m - 1] + (if m == 2 && IsLeapYear(y) then 1 else 0)
  }

  // ---------- months, numbered consecutively: month k is month k % 12 of year k / 12 ----------

  function DaysIn(k: int): (n: int)
    ensures 28 <= n <= 31
  {
    DAYS_PER_MONTH[k % 12] + (if k % 12 == 1 && IsLeapYear(k / 12) then 1 else 0)
  }

  function DaysBeforeYear(year: int): int {
    365 * (year - 1) + (year - 1) / 4 - (year - 1) / 100 + (year - 1) / 400
  }

  /** The day on which month k begins: the months from January of year 1 up to k, added up. */
  function MonthStart(k: int): int
    decreases if k < 12 then 12 - k else k - 12
  {
    if k == 12 then 0
    else if k > 12 then MonthStart(k - 1) + DaysIn(k - 1)
    else MonthStart(k + 1) - DaysIn(k)
  }

  lemma MonthStep(k: int)
    ensures MonthStart(k + 1) == MonthStart(k) + DaysIn(k)
  {
  }

  lemma {:induction false} MonthStartGrows(j: int, k: int)
    requires j <= k
    ensures MonthStart(j) + 28 * (k - j) <= MonthStart(k) <= MonthStart(j) + 31 * (k - j)
    decreases k - j
  {
    if j < k {
      MonthStep(j);
      MonthStartGrows(j + 1, k);
    }
  }

  /** The month a day lies in. */
  function MonthOf(day: int): (k: int)
    ensures MonthStart(k) <= day < MonthStart(k + 1)
  {
    MonthFrom(day, 12)
  }

  function MonthFrom(day: int, k: int): (r: int)
    ensures MonthStart(r) <= day < MonthStart(r + 1)
    decreases if day < MonthStart(k) then MonthStart(k) - day else 0,
              if day < MonthStart(k) then 0 else day - MonthStart(k)
  {
    MonthStep(k);
    if day < MonthStart(k) then
      MonthStep(k - 1);
      MonthFrom(day, k - 1)
    else if day < MonthStart(k + 1) then k
    else MonthFrom(day, k + 1)
  }

  lemma MonthOfUnique(day: int, k: int)
    requires MonthStart(k) <= day < MonthStart(k + 1)
    ensures MonthOf(day) == k
  {
    var m := MonthOf(day);
    if m < k {
      MonthStartGrows(m + 1, k);
    } else if k < m {
      MonthStartGrows(k + 1, m);
    }
  }

  lemma MonthOfMonotone(a: int, b: int)
    requires a <= b
    ensures MonthOf(a) <= MonthOf(b)
  {
    if MonthOf(b) < MonthOf(a) {
      MonthStartGrows(MonthOf(b) + 1, MonthOf(a));
    }
  }

  lemma YearStep(y: int)
    ensures DaysBeforeYear(y + 1) == DaysBeforeYear(y) + (if IsLeapYear(y) then 366 else 365)
  {
    assert y / 4 == (y - 1) / 4 + (if y % 4 == 0 then 1 else 0);
    assert y / 100 == (y - 1) / 100 + (if y % 100 == 0 then 1 else 0);
    assert y / 400 == (y - 1) / 400 + (if y % 400 == 0 then 1 else 0);
  }

  lemma {:induction false} MonthInYear(year: int, mon: int)
    requires 0 <= mon < 12
    ensures MonthStart(12 * year + mon)
         == MonthStart(12 * year) + DAYS_BEFORE_MONTH[mon] + (if mon > 1 && IsLeapYear(year) then 1 else 0)
  {
    if mon > 0 {
      var k := 12 * year + mon - 1;
      hide MonthStart;
      MonthInYear(year, mon - 1);
      MonthStep(k);
      assert k / 12 == year && k % 12 == mon - 1;
      assert DaysIn(k) == DAYS_PER_MONTH[mon - 1] + (if mon - 1 == 1 && IsLeapYear(year) then 1 else 0);
    }
  }

  lemma NextYear(year: int)
    ensures MonthStart(12 * (year + 1)) - MonthStart(12 * year) == DaysBeforeYear(year + 1) - DaysBeforeYear(year)
  {
    var k := 12 * year + 11;
    MonthInYear(year, 11);
    MonthStep(k);
    assert k / 12 == year && k % 12 == 11;
    YearStep(year);
  }

  /** The closed form of the sum: the days of the years before. */
  lemma {:induction false} MonthStartClosed(year: int)
    ensures MonthStart(12 * year) == DaysBeforeYear(year)
    decreases if year < 1 then 1 - year else year - 1
  {
    if year > 1 {
      MonthStartClosed(year - 1);
      NextYear(year - 1);
    } else if year < 1 {
      MonthStartClosed(year + 1);
      NextYear(year);
    }
  }

  lemma EpochMonth(year: int)
    requires year == 1970
    ensures MonthStart(12 * year) == EPOCH_DAY
  {
    MonthStartClosed(year);
  }

  // ---------- broken-down time ----------

  /** The fields of `::tm` the code uses; `year` counts from 1900 and `mon` from 0, `wday` 0 is Sunday. */
  datatype Tm = Tm(year: int, mon: int, mday: int, hour: int, min: int, sec: int, wday: int)
  {
    function Month(): int { 12 * (year + 1900) + mon }
    function Day(): int { MonthStart(Month()) + mday - 1 }
    function TimeOfDay(): int { 3600 * hour + 60 * min + sec }

    predicate IsDate() {
      0 <= mon < 12 && 1 <= mday <= DaysIn(Month()) && CheckTime(hour, min, sec)
    }
  }

  function DayOf(t: int): int { t / DAY_SECONDS + EPOCH_DAY }

  /** Day 0 is a Monday. */
  function Weekday(day: int): int { (day + 1) % 7 }

  /** `mktime`: any field may be out of its range. */
  function Mktime(tm: Tm): int {
    DAY_SECONDS * (tm.Day() - EPOCH_DAY) + tm.TimeOfDay()
  }

  function Localtime(t: int): Tm {
    var day := DayOf(t);
    var k := MonthOf(day);
    var s := t % DAY_SECONDS;
    Tm(k / 12 - 1900, k % 12, day - MonthStart(k) + 1, s / 3600, s % 3600 / 60, s % 60, Weekday(day))
  }

  /** What `mktime` leaves in its argument. */
  function Normalise(tm: Tm): Tm { Localtime(Mktime(tm)) }

  lemma LocaltimeFields(t: int)
    ensures Localtime(t).IsDate()
    ensures Localtime(t).Month() == MonthOf(DayOf(t))
    ensures Localtime(t).Day() == DayOf(t)
    ensures Localtime(t).TimeOfDay() == t % DAY_SECONDS
    ensures Localtime(t).wday == Weekday(DayOf(t))
  {
  }

  /** `mktime` undoes `localtime_r`. */
  lemma MktimeLocaltime(t: int)
    ensures Mktime(Localtime(t)) == t
  {
    LocaltimeFields(t);
  }

  lemma FieldsOfTime(tm: Tm)
    requires CheckTime(tm.hour, tm.min, tm.sec)
    ensures var s := tm.TimeOfDay(); s / 3600 == tm.hour && s % 3600 / 60 == tm.min && s % 60 == tm.sec
  {
  }

  /** `localtime_r` undoes `mktime` on every date with its fields in range. */
  lemma LocaltimeMktime(tm: Tm)
    requires tm.IsDate()
    ensures Normalise(tm) == tm.(wday := Weekday(tm.Day()))
  {
    hide MonthStart, MonthOf, DaysIn;
    var t := Mktime(tm);
    var s := tm.TimeOfDay();
    assert 0 <= s < DAY_SECONDS;
    assert DayOf(t) == tm.Day() && t % DAY_SECONDS == s;
    MonthStep(tm.Month());
    MonthOfUnique(tm.Day(), tm.Month());
    FieldsOfTime(tm);
    assert tm.Month() / 12 == tm.year + 1900 && tm.Month() % 12 == tm.mon;
  }

  // ---------- the calendar from day to day ----------

  /** January of year 1 is month 12, and months of 31 and 30 days alternate twice, up to July and from August on. */
  lemma MonthLengths(year: int, mon: int)
    requires 0 <= mon < 12
    ensures DaysIn(12 * year + mon) ==
              if mon != 1 then 31 - mon % 7 % 2
              else if year % 4 != 0 || (year % 100 == 0 && year % 400 != 0) then 28 else 29
  {
    assert (12 * year + mon) / 12 == year && (12 * year + mon) % 12 == mon;
  }

  /** A day later the clock shows the same, the weekday is the next one, and the date is that of the day after. */
  lemma NextDay(t: int)
    ensures var today, tomorrow := Localtime(t), Localtime(t + 86400);
            && tomorrow.hour == today.hour && tomorrow.min == today.min && tomorrow.sec == today.sec
            && tomorrow.wday == (if today.wday == 6 then 0 else today.wday + 1) && 0 <= today.wday <= 6
            && if today.mday < DaysIn(today.Month()) then
                 tomorrow.mday == today.mday + 1 && tomorrow.mon == today.mon && tomorrow.year == today.year
               else
                 && tomorrow.mday == 1 && tomorrow.mon == (if today.mon == 11 then 0 else today.mon + 1)
                 && tomorrow.year == today.year + if today.mon == 11 then 1 else 0
  {
    var day, k := DayOf(t), MonthOf(DayOf(t));
    hide MonthStart, DaysIn, MonthOf;
    MonthStep(k);
    MonthStep(k + 1);
    assert DayOf(t + 86400) == day + 1 && (t + 86400) % DAY_SECONDS == t % DAY_SECONDS;
    MonthOfUnique(day + 1, if day + 1 < MonthStart(k + 1) then k else k + 1);
  }

  /** A second later, unless that is the next day, the clock shows one second more of the same day. */
  lemma NextSecond(t: int)
    requires (t + 1) % 86400 != 0
    ensures var now, next := Localtime(t), Localtime(t + 1);
            && next.year == now.year && next.mon == now.mon && next.mday == now.mday && next.wday == now.wday
            && 3600 * next.hour + 60 * next.min + next.sec == 3600 * now.hour + 60 * now.min + now.sec + 1
  {
    hide MonthStart, DaysIn, MonthOf;
    assert DayOf(t + 1) == DayOf(t);
    LocaltimeFields(t);
    LocaltimeFields(t + 1);
  }

  lemma DateOf(tm: Tm, year: int)
    requires tm.IsDate() && year == tm.year + 1900
    ensures tm.Day() == DaysBeforeYear(year) + DAYS_BEFORE_MONTH[tm.mon] +
                        (if tm.mon > 1 && IsLeapYear(year) then 1 else 0) + tm.mday - 1
  {
    hide MonthStart, DaysIn;
    MonthStartClosed(year);
    MonthInYear(year, tm.mon);
  }

  lemma DateKnown(tm: Tm, year: int, t: int)
    requires tm.IsDate() && year == tm.year + 1900
    requires var day := DaysBeforeYear(year) + DAYS_BEFORE_MONTH[tm.mon] +
                        (if tm.mon > 1 && IsLeapYear(year) then 1 else 0) + tm.mday - 1;
             t == 86400 * (day - 719162) + 3600 * tm.hour + 60 * tm.min + tm.sec && Weekday(day) == tm.wday
    ensures Localtime(t) == tm && Mktime(tm) == t
  {
    DateOf(tm, year);
    LocaltimeMktime(tm);
    hide MonthStart, MonthOf, DaysIn, Localtime, Weekday;
  }

  /** The clock started on Thursday, 1 January 1970; 29 February 2000 was a Tuesday, and 13 April 2015 a Monday. */
  lemma KnownDates()
    ensures Localtime(0) == Tm(70, 0, 1, 0, 0, 0, 4)
    ensures Localtime(951782400) == Tm(100, 1, 29, 0, 0, 0, 2)
    ensures Localtime(1428926400) == Tm(115, 3, 13, 12, 0, 0, 1)
  {
    hide MonthStart, MonthOf, Localtime, Mktime;
    DateKnown(Tm(70, 0, 1, 0, 0, 0, 4), 1970, 0);
    DateKnown(Tm(100, 1, 29, 0, 0, 0, 2), 2000, 951782400);
    DateKnown(Tm(115, 3, 13, 12, 0, 0, 1), 2015, 1428926400);
  }

  // ---------- the lexicographic orders ----------

  /** `less_than` and `equal_to` of calendar_periodic_alarm_timeplan.cpp. */
  predicate LessThan(a: Tm, b: Tm) {
    if a.year != b.year then a.year < b.year
    else if a.mon != b.mon then a.mon < b.mon
    else if a.mday != b.mday then a.mday < b.mday
    else if a.hour != b.hour then a.hour < b.hour
    else if a.min != b.min then a.min < b.min
    else a.sec < b.sec
  }

  predicate EqualTo(a: Tm, b: Tm) {
    a.year == b.year && a.mon == b.mon && a.mday == b.mday && a.hour == b.hour && a.min == b.min && a.sec == b.sec
  }

  lemma EarlierMonth(a: Tm, b: Tm)
    requires a.IsDate() && b.IsDate() && a.Month() < b.Month()
    ensures a.Day() < b.Day()
  {
    MonthStep(a.Month());
    MonthStartGrows(a.Month() + 1, b.Month());
  }

  lemma LessThanImpliesEarlier(a: Tm, b: Tm)
    requires a.IsDate() && b.IsDate() && LessThan(a, b)
    ensures Mktime(a) < Mktime(b)
  {
    if a.Month() != b.Month() {
      EarlierMonth(a, b);
    }
  }

  /** Field by field comparison is the order of elapsed seconds, on all dates with fields in range. */
  lemma LessThanIsEarlier(a: Tm, b: Tm)
    requires a.IsDate() && b.IsDate()
    ensures LessThan(a, b) <==> Mktime(a) < Mktime(b)
    ensures EqualTo(a, b) <==> Mktime(a) == Mktime(b)
  {
    if LessThan(a, b) {
      LessThanImpliesEarlier(a, b);
    } else if LessThan(b, a) {
      LessThanImpliesEarlier(b, a);
    } else {
      assert a.year == b.year;
      assert EqualTo(a, b);
    }
  }
}
