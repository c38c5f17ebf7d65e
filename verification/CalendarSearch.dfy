/**
 `calendar_periodic_alarm_timeplan::get_next_timer_point`: the filter-and-jump search, proved against a scan that
 looks at every second in turn.
 */
module CalendarSearch {
  import opened Prelude
  import opened Gregorian
  import opened CalendarPlan

  // ---------- the search ----------

  /** What holds of the candidate at every turn of the search. */
  ghost predicate SearchState(p: Plan, origin: int, tm: Tm, t: int) {
    && origin <= t && tm == Localtime(t)
    && Clear(p, origin, origin, t)
    && (IsLeapCenturyDay(p, tm) ==> DayOf(t) == DayOf(origin))
  }

  method DxIncrementAdjustByMonth(tm0: Tm) returns (tm: Tm)
    requires 0 <= tm0.year && 0 <= tm0.mon < 12 && 1 <= tm0.mday <= 31
    ensures tm == tm0.(year := tm.year, mon := tm.mon) && 0 <= tm.mon < 12
    ensures tm.Month() == (if AcceptsDay(tm0.Month(), tm0.mday) then tm0.Month() else tm0.Month() + 1)
  {
    tm := tm0;
    MonthIndexFields(tm);
    if !AcceptsDay(tm0.Month(), tm0.mday) { AcceptsDayRefused(tm0.Month(), tm0.mday); }
    while !CheckDate(tm.year, tm.mon + 1, tm.mday)
      invariant tm == tm0.(year := tm.year, mon := tm.mon) && 0 <= tm.mon < 12
      invariant tm.Month() == tm0.Month() || (tm.Month() == tm0.Month() + 1 && !AcceptsDay(tm0.Month(), tm0.mday))
      decreases tm0.Month() + 1 - tm.Month()
    {
      MonthIndexFields(tm);
      var mon := tm.mon;
      tm := tm.(mon := mon + 1);
      if mon >= 11 { tm := tm.(year := tm.year + 1, mon := 0); }
      MonthIndexFields(tm);
    }
    MonthIndexFields(tm);
  }

  lemma MonthsUpTo(tm: Tm, u: Tm, mon: int)
    requires 0 <= tm.mon < 12 && 0 <= mon < 12 && tm.mon != mon
    requires u.mon == mon && u.year == (if tm.mon > mon then tm.year + 1 else tm.year)
    ensures tm.Month() < u.Month()
    ensures forall j | tm.Month() <= j < u.Month() :: j % 12 != mon
  {
  }

  /** The month filter: a jump when the month is another one. */
  method FilterMonth(p: Plan, ghost origin: int, tm0: Tm, time0: int) returns (tm: Tm, timeNext: int)
    requires p.Valid() && p.month != 0 && SearchState(p, origin, tm0, time0)
    ensures SearchState(p, origin, tm, timeNext)
    ensures tm.mon == p.month - 1
    ensures time0 <= timeNext && (tm0.mon == p.month - 1 ==> timeNext == time0)
  {
    tm, timeNext := tm0, time0;
    LocaltimeFields(time0);
    var m := p.month - 1;
    if tm.mon != m {
      if tm.mon > m { tm := tm.(year := tm.year + 1); }
      tm := tm.(mon := m, mday := 1, hour := 0, min := 0, sec := 0);
      MonthsUpTo(tm0, tm, m);
      MonthJump(p, origin, time0, tm.Month());
      FirstIsNot29(p, tm.Month());
      Landing(p, origin, time0, tm, MonthStart(tm.Month()));
      LocaltimeMktime(tm);
      timeNext := Mktime(tm);
      tm := Localtime(timeNext);
    }
  }

  /** The day-of-month filter. */
  method FilterDayOfMonth(p: Plan, ghost origin: int, tm0: Tm, time0: int) returns (jumped: bool, tm: Tm, timeNext: int)
    requires p.Valid() && p.dayOfMonth != 0 && SearchState(p, origin, tm0, time0) && 0 <= time0
    ensures SearchState(p, origin, tm, timeNext)
    ensures if jumped then time0 < timeNext else tm == tm0 && timeNext == time0 && tm.mday == p.dayOfMonth
  {
    jumped, tm, timeNext := false, tm0, time0;
    if tm.mday != p.dayOfMonth {
      LocaltimeFields(time0);
      YearFrom1970(time0);
      var incMonth := tm.mday > p.dayOfMonth;
      tm := tm.(mday := p.dayOfMonth);
      if incMonth {
        var mon := tm.mon;
        tm := tm.(mon := mon + 1);
        if mon >= 11 { tm := tm.(year := tm.year + 1, mon := 0); }
      }
      ghost var k := tm.Month();
      tm := DxIncrementAdjustByMonth(tm);
      tm := tm.(hour := 0, min := 0, sec := 0);
      DayOfMonthJump(p, origin, time0, k, tm.Month());
      Landing(p, origin, time0, tm, DayIn(tm.Month(), p.dayOfMonth));
      timeNext := Mktime(tm);
      tm := Localtime(timeNext);
      jumped := true;
    }
  }

  lemma YearFrom1970(t: int)
    requires 0 <= t
    ensures 70 <= Localtime(t).year
  {
    LocaltimeFields(t);
    var y, k := 1970, Localtime(t).Month();
    EpochMonth(y);
    if k < 12 * y {
      MonthStartGrows(k + 1, 12 * y);
    }
  }

  /** The weekday filter. */
  method FilterDayOfWeek(p: Plan, ghost origin: int, tm0: Tm, time0: int) returns (jumped: bool, tm: Tm, timeNext: int)
    requires p.Valid() && p.dayOfWeek != 0 && SearchState(p, origin, tm0, time0)
    requires p.dayOfMonth == 0 || tm0.mday == p.dayOfMonth
    ensures SearchState(p, origin, tm, timeNext)
    ensures if jumped then time0 < timeNext else tm == tm0 && timeNext == time0 && tm.wday == p.dayOfWeek % 7
  {
    var dow := if p.dayOfWeek != 7 then p.dayOfWeek else 0;
    MktimeLocaltime(time0);
    timeNext := Mktime(tm0);
    tm := Localtime(timeNext);
    jumped := false;
    if tm.wday != dow {
      if tm.wday > dow { dow := dow + 7; }
      var days := dow - tm.wday;
      tm := tm.(mday := tm.mday + days, hour := 0, min := 0, sec := 0);
      WeekdayLanding(p, origin, tm0, time0, tm, dow);
      timeNext := Mktime(tm);
      tm := Localtime(timeNext);
      jumped := true;
    }
  }

  /** A move to midnight of a later day lands in a search state when its jump is clear. */
  lemma Landing(p: Plan, origin: int, t: int, u: Tm, day: int)
    requires SearchState(p, origin, Localtime(t), t) && t < Midnight(day) && Clear(p, origin, t, Midnight(day))
    requires u.hour == u.min == u.sec == 0 && u.Day() == day && !IsLeapCenturyDay(p, Localtime(Midnight(day)))
    ensures t < Mktime(u) && SearchState(p, origin, Localtime(Mktime(u)), Mktime(u))
  {
  }

  lemma WeekdayLanding(p: Plan, origin: int, tm: Tm, t: int, u: Tm, dow: int)
    requires p.Valid() && p.dayOfWeek != 0 && SearchState(p, origin, tm, t)
    requires p.dayOfMonth == 0 || tm.mday == p.dayOfMonth
    requires tm.wday < dow <= tm.wday + 6 && dow % 7 == p.dayOfWeek % 7
    requires u == tm.(mday := tm.mday + dow - tm.wday, hour := 0, min := 0, sec := 0)
    ensures t < Mktime(u) && SearchState(p, origin, Localtime(Mktime(u)), Mktime(u))
  {
    LocaltimeFields(t);
    WeekdayAhead(DayOf(t), dow - tm.wday, dow);
    WeekdayJump(p, origin, t, dow - tm.wday);
    Landing(p, origin, t, u, DayOf(t) + dow - tm.wday);
  }

  lemma OccurrenceLanding(p: Plan, origin: int, tm: Tm, t: int, u: Tm, weeks: int)
    requires p.Valid() && p.occurrence != 0 && SearchState(p, origin, tm, t)
    requires 1 <= weeks <= 4 && tm.wday == p.dayOfWeek % 7 && (p.dayOfMonth == 0 || tm.mday == p.dayOfMonth)
    requires tm.mday + 7 * weeks <= DaysIn(tm.Month())
    requires p.occurrence < 5 ==> (tm.mday - 1) / 7 + 1 + weeks == p.occurrence
    requires u == tm.(mday := tm.mday + 7 * weeks, hour := 0, min := 0, sec := 0)
    ensures t < Mktime(u) && SearchState(p, origin, Localtime(Mktime(u)), Mktime(u))
  {
    LocaltimeFields(t);
    OccurrenceJump(p, origin, t, weeks);
    Landing(p, origin, t, u, DayOf(t) + 7 * weeks);
  }

  lemma WeekdayAhead(day: int, days: int, dow: int)
    requires Weekday(day) + days == dow
    ensures Weekday(day + days) == dow % 7
  {
  }

  /** The inner loop: forward by weeks to the last day of the month with this weekday. */
  method SeekLastWeek(mday0: int, lastDayOfMonth: int) returns (mday: int, ghost weeks: int)
    requires 1 <= mday0 && mday0 + 7 <= lastDayOfMonth
    ensures mday == mday0 + 7 * weeks && 1 <= weeks && mday <= lastDayOfMonth < mday + 7
  {
    mday, weeks := mday0 + 7, 1;
    while mday < lastDayOfMonth
      invariant 1 <= weeks && mday == mday0 + 7 * weeks && mday < lastDayOfMonth + 7
    {
      mday, weeks := mday + 7, weeks + 1;
    }
    if mday > lastDayOfMonth { mday, weeks := mday - 7, weeks - 1; }
  }

  /** The occurrence filter. */
  method FilterOccurrence(p: Plan, ghost origin: int, tm0: Tm, time0: int) returns (jumped: bool, tm: Tm, timeNext: int)
    requires p.Valid() && p.occurrence != 0 && SearchState(p, origin, tm0, time0)
    requires tm0.wday == p.dayOfWeek % 7
    requires p.dayOfMonth == 0 || tm0.mday == p.dayOfMonth
    ensures SearchState(p, origin, tm, timeNext)
    ensures if jumped then time0 < timeNext
            else tm == tm0 && timeNext == time0 && OnOccurrence(p.occurrence, tm.Month(), tm.mday)
  {
    hide MonthStart, MonthOf, Matches;
    jumped, tm, timeNext := false, tm0, time0;
    LocaltimeFields(time0);
    MonthIndexFields(tm);
    OnOccurrenceByNumber(p.occurrence, tm.Month(), tm.mday);
    var dowo := (tm.mday - 1) / 7 + 1;
    var leapDay := if tm.mon == 1 && IsLeapYear(tm.year + 1900) then 1 else 0;
    var lastDayOfMonth := DAYS_PER_MONTH[tm.mon] + leapDay;
    var isLast := tm.mday + 7 > DAYS_PER_MONTH[tm.mon] + leapDay;
    assert lastDayOfMonth == DaysIn(tm.Month());
    if dowo < p.occurrence {
      if !isLast {
        ghost var weeks;
        if p.occurrence < 5 {
          weeks := p.occurrence - dowo;
          tm := tm.(mday := tm.mday + 7 * (p.occurrence - dowo));
        } else {
          var mday;
          mday, weeks := SeekLastWeek(tm.mday, lastDayOfMonth);
          tm := tm.(mday := mday);
        }
        tm := tm.(hour := 0, min := 0, sec := 0);
        OccurrenceLanding(p, origin, tm0, time0, tm, weeks);
        timeNext := Mktime(tm);
        tm := Localtime(timeNext);
        jumped := true;
      }
    } else if dowo > p.occurrence {
      var mon := tm.mon;
      tm := tm.(mon := mon + 1);
      if mon >= 11 { tm := tm.(year := tm.year + 1, mon := 0); }
      tm := tm.(mday := 1, hour := 0, min := 0, sec := 0);
      NextMonthJump(p, origin, time0);
      Landing(p, origin, time0, tm, MonthStart(tm0.Month() + 1));
      timeNext := Mktime(tm);
      tm := Localtime(timeNext);
      jumped := true;
    }
  }

  method NextDay(tm0: Tm) returns (tm: Tm)
    requires tm0.IsDate()
    ensures tm.hour == tm.min == tm.sec == 0 && tm.Day() == tm0.Day() + 1
  {
    tm := tm0;
    MonthIndexFields(tm);
    var leapDay := if tm.mon == 1 && IsLeapYear(tm.year + 1900) then 1 else 0;
    var lastDayOfMonth := DAYS_PER_MONTH[tm.mon] + leapDay;
    var mday := tm.mday;
    tm := tm.(mday := mday + 1);
    if mday >= lastDayOfMonth {
      tm := tm.(mday := 1);
      var mon := tm.mon;
      tm := tm.(mon := mon + 1);
      if mon >= 11 { tm := tm.(year := tm.year + 1, mon := 0); }
    }
    tm := tm.(hour := 0, min := 0, sec := 0);
    MonthStep(tm0.Month());
  }

  /** The time of day: set it when it is still to come, otherwise go on to the next day. */
  method SetTime(p: Plan, ghost origin: int, tm0: Tm, time0: int)
    returns (changed: bool, nextDay: bool, tm: Tm, timeNext: int)
    requires p.Valid() && SearchState(p, origin, tm0, time0)
    requires p.dayOfMonth == 0 || tm0.mday == p.dayOfMonth
    ensures SearchState(p, origin, tm, timeNext)
    ensures if changed then time0 < timeNext else timeNext == time0
    ensures nextDay ==> changed
    ensures !nextDay ==> tm.TimeOfDay() == p.TimeOfDay() && DayOf(timeNext) == DayOf(time0)
  {
    changed, nextDay, tm, timeNext := false, false, tm0, time0;
    var target := tm0.(hour := p.hour, min := p.min, sec := p.sec);
    LocaltimeFields(time0);
    MktimeLocaltime(time0);
    LessThanIsEarlier(tm, target);
    if !EqualTo(tm, target) {
      changed := true;
      if LessThan(tm, target) {
        timeNext := Mktime(target);
        SameDay(tm0, time0, target);
        TimeJump(p, origin, time0, timeNext);
        ClearJoin(p, origin, origin, time0, timeNext);
        LocaltimeMktime(target);
        tm := Localtime(timeNext);
      } else {
        tm := NextDay(tm);
        NextDayJump(p, origin, time0);
        Landing(p, origin, time0, tm, DayOf(time0) + 1);
        timeNext := Mktime(tm);
        tm := Localtime(timeNext);
        nextDay := true;
      }
    }
  }

  lemma SameDay(tm: Tm, t: int, target: Tm)
    requires tm == Localtime(t) && CheckTime(target.hour, target.min, target.sec)
    requires target == tm.(hour := target.hour, min := target.min, sec := target.sec)
    ensures DayOf(Mktime(target)) == DayOf(t) && Mktime(target) % DAY_SECONDS == target.TimeOfDay()
    ensures target.IsDate()
  {
  }

  datatype Verdict = Found | Over | Again

  /** One turn of the search loop: the filters in their order, each jump followed by the test against the end. */
  method Turn(p: Plan, ghost origin: int, tm0: Tm, time0: int) returns (verdict: Verdict, tm: Tm, timeNext: int)
    requires p.Valid() && 0 <= time0 && SearchState(p, origin, tm0, time0)
    ensures SearchState(p, origin, tm, timeNext) && time0 <= timeNext
    ensures verdict.Found? ==> Visible(p, origin, timeNext)
    ensures verdict.Found? ==> timeNext <= p.EndTime() || (timeNext == time0 && p.month == 0)
    ensures verdict.Over? ==> p.EndTime() < timeNext && (p.month != 0 || time0 < timeNext)
    ensures verdict.Again? ==> time0 < timeNext <= p.EndTime()
  {
    tm, timeNext := tm0, time0;
    var jumped, over;
    if p.month != 0 {
      tm, timeNext := FilterMonth(p, origin, tm, timeNext);
      over := IsPastEnd(p, tm, timeNext);
      if over { return Over, tm, timeNext; }
    }
    if p.dayOfMonth != 0 {
      jumped, tm, timeNext := FilterDayOfMonth(p, origin, tm, timeNext);
      if jumped {
        over := IsPastEnd(p, tm, timeNext);
        return if over then Over else Again, tm, timeNext;
      }
    }
    if p.dayOfWeek != 0 {
      jumped, tm, timeNext := FilterDayOfWeek(p, origin, tm, timeNext);
      if jumped {
        over := IsPastEnd(p, tm, timeNext);
        return if over then Over else Again, tm, timeNext;
      }
    }
    if p.occurrence != 0 {
      jumped, tm, timeNext := FilterOccurrence(p, origin, tm, timeNext);
      if jumped {
        over := IsPastEnd(p, tm, timeNext);
        return if over then Over else Again, tm, timeNext;
      }
    }
    ghost var filtered, filteredTime := tm, timeNext;
    var changed;
    changed, jumped, tm, timeNext := SetTime(p, origin, tm, timeNext);
    if changed {
      over := IsPastEnd(p, tm, timeNext);
      if over { return Over, tm, timeNext; }
      if jumped { return Again, tm, timeNext; }
    }
    AllFilters(p, origin, filtered, filteredTime, tm, timeNext);
    verdict := Found;
  }

  method IsPastEnd(p: Plan, tm: Tm, t: int) returns (over: bool)
    requires p.Valid() && tm == Localtime(t)
    ensures over <==> p.EndTime() < t
  {
    LocaltimeFields(t);
    MktimeLocaltime(t);
    LessThanIsEarlier(p.end, tm);
    over := LessThan(p.end, tm);
  }

  /** The whole search, from an instant already rounded to seconds. */
  method Search(p: Plan, timeStart: int) returns (found: bool, timeNext: int)
    requires p.Valid() && 0 <= timeStart
    ensures timeStart <= timeNext && Clear(p, timeStart, timeStart, timeNext)
    ensures found ==> Visible(p, timeStart, timeNext)
    ensures found ==> timeNext <= p.EndTime() || (timeNext == timeStart && p.month == 0)
    ensures !found ==> p.EndTime() < timeNext && (p.month != 0 || timeStart < timeNext)
  {
    timeNext := timeStart;
    var tm := Localtime(timeNext);
    found := false;
    while !found
      invariant SearchState(p, timeStart, tm, timeNext)
      invariant timeNext == timeStart || timeNext <= p.EndTime()
      invariant found ==> Visible(p, timeStart, timeNext)
      invariant found ==> timeNext <= p.EndTime() || (timeNext == timeStart && p.month == 0)
      decreases !found, p.EndTime() - timeNext
    {
      var verdict;
      verdict, tm, timeNext := Turn(p, timeStart, tm, timeNext);
      if verdict.Over? { break; }
      found := verdict.Found?;
    }
    MktimeLocaltime(timeNext);
    timeNext := Mktime(tm);
  }

  /** The date filters hold of the candidate before its time of day was set, so they hold after. */
  lemma AllFilters(p: Plan, origin: int, a: Tm, s: int, b: Tm, t: int)
    requires p.Valid() && a == Localtime(s) && SearchState(p, origin, b, t) && DayOf(s) == DayOf(t)
    requires p.month == 0 || a.mon == p.month - 1
    requires p.dayOfMonth == 0 || a.mday == p.dayOfMonth
    requires p.dayOfWeek == 0 || a.wday == p.dayOfWeek % 7
    requires p.occurrence == 0 || OnOccurrence(p.occurrence, a.Month(), a.mday)
    requires b.TimeOfDay() == p.TimeOfDay()
    ensures Visible(p, origin, t)
  {
  }

  // ---------- the reference: look at every second ----------

  ghost function FirstMatch(p: Plan, from: int, end: int): Option<int> {
    FirstWhere(t => Matches(p, t), from, end)
  }

  ghost function FirstVisible(p: Plan, origin: int, from: int, end: int): Option<int> {
    FirstWhere(t => Visible(p, origin, t), from, end)
  }

  /** The point a search started at `s` finds, on all plans and instants. */
  ghost function NextPoint(p: Plan, s: int): Option<int> {
    if s <= p.EndTime() then FirstVisible(p, s, s, p.EndTime())
    else if p.month == 0 && Matches(p, s) then Some(s)
    else None
  }

  lemma FirstVisibleIsLeast(p: Plan, origin: int, from: int, end: int)
    ensures match FirstVisible(p, origin, from, end)
            case Some(t) => from <= t <= end && Visible(p, origin, t) && Clear(p, origin, from, t)
            case None => Clear(p, origin, from, end + 1)
  {
    var f := t => Visible(p, origin, t);
    FirstWhereIsLeast(f, from, end);
    forall u ensures f(u) == Visible(p, origin, u) {}
  }

  // ---------- the operation ----------

  function RoundToSecond(tv: int): int {
    tv / 1000000 + (if tv % 1000000 >= 500000 then 1 else 0)
  }

  /** The second is the nearest one; half a second counts up. */
  lemma RoundsToNearest(tv: int)
    ensures 1000000 * RoundToSecond(tv) - 500000 <= tv < 1000000 * RoundToSecond(tv) + 500000
  {
  }

  /** Where the search starts: the latest of the plan's start, the instant asked about and the clock. */
  function SearchStart(p: Plan, tvFrom: int, tvNow: int): int {
    var timeStart, timeFrom, timeNow := Mktime(p.start), RoundToSecond(tvFrom), RoundToSecond(tvNow);
    var timeNext := if timeStart <= timeFrom then timeFrom else timeStart;
    if timeNext < timeNow then timeNow else timeNext
  }

  /** Instants in microseconds, the result relative to `tvFrom`; `None` is ERR_NOT_FOUND. */
  method GetNextTimerPoint(p: Plan, tvFrom: int, tvNow: int) returns (relative: Option<int>)
    requires p.Valid() && 0 <= tvNow
    ensures relative == (match NextPoint(p, SearchStart(p, tvFrom, tvNow))
                         case Some(t) => Some(1000000 * t - tvFrom)
                         case None => None)
  {
    hide Mktime, Localtime, NextPoint, Clear, Visible, MonthStart, MonthOf;
    var timeNext := SearchStart(p, tvFrom, tvNow);
    assert 0 <= timeNext by { LaterThanNow(p, tvFrom, tvNow); }
    var found, timeFound := Search(p, timeNext);
    SearchFindsNextPoint(p, timeNext, found, timeFound);
    if found {
      relative := Some(1000000 * timeFound - tvFrom);
    } else {
      relative := None;
    }
  }

  /** The search starts at the start, at the second asked about or at that of the clock, and before none of them. */
  lemma StartsAtLatest(p: Plan, tvFrom: int, tvNow: int)
    ensures var s := SearchStart(p, tvFrom, tvNow);
            && Mktime(p.start) <= s && tvFrom < 1000000 * s + 500000 && tvNow < 1000000 * s + 500000
            && (s == Mktime(p.start) || 1000000 * s - 500000 <= tvFrom || 1000000 * s - 500000 <= tvNow)
  {
    hide Mktime;
  }

  lemma LaterThanNow(p: Plan, tvFrom: int, tvNow: int)
    requires 0 <= tvNow
    ensures 0 <= SearchStart(p, tvFrom, tvNow)
  {
  }

  /** Jumping and looking at every second agree. */
  lemma SearchFindsNextPoint(p: Plan, s: int, found: bool, t: int)
    requires s <= t && Clear(p, s, s, t)
    requires found ==> Visible(p, s, t) && (t <= p.EndTime() || (t == s && p.month == 0))
    requires !found ==> p.EndTime() < t && (p.month != 0 || s < t)
    ensures NextPoint(p, s) == if found then Some(t) else None
  {
    FirstVisibleIsLeast(p, s, s, p.EndTime());
    if s < t { assert !Visible(p, s, s); }
  }

  // ---------- what the plan is promised ----------

  /** Sound, least and complete, with the converse. */
  lemma NextPointCharacterised(p: Plan, s: int, t: int)
    requires s <= Mktime(p.end)
    ensures NextPoint(p, s) == Some(t) <==> s <= t <= Mktime(p.end) && Visible(p, s, t) && Clear(p, s, s, t)
    ensures NextPoint(p, s) == None <==> Clear(p, s, s, Mktime(p.end) + 1)
  {
    FirstVisibleIsLeast(p, s, s, p.EndTime());
  }

  /** The search gives the plan's first occurrence exactly when that is not a leap-century day it cannot land on. */
  lemma SearchMeetsPlan(p: Plan, s: int)
    requires s <= p.EndTime()
    ensures NextPoint(p, s) == FirstMatch(p, s, p.EndTime()) <==>
            !(FirstMatch(p, s, p.EndTime()).Some? && IsSkipped(p, s, FirstMatch(p, s, p.EndTime()).value))
  {
    FirstWhereExcept(t => Matches(p, t), t => IsSkipped(p, s, t), t => Visible(p, s, t), s, p.EndTime());
  }

  /** No occurrence is ever lost by a plan that does not ask for day 29, or that ends before the year 2400. */
  lemma SearchMeetsPlanWithinCentury(p: Plan, s: int)
    requires p.Valid() && 0 <= s <= p.EndTime()
    requires p.dayOfMonth != 29 || (2001 <= Localtime(s).year + 1900 && p.end.year + 1900 < 2400)
    ensures NextPoint(p, s) == FirstMatch(p, s, p.EndTime())
  {
    SearchMeetsPlan(p, s);
    FirstWhereInRange(t => Matches(p, t), s, p.EndTime());
    if FirstMatch(p, s, p.EndTime()).Some? {
      NoLeapCenturyDay(p, s, FirstMatch(p, s, p.EndTime()).value);
    }
  }

  lemma NoLeapCenturyDay(p: Plan, s: int, t: int)
    requires p.Valid() && s <= t <= p.EndTime()
    requires p.dayOfMonth != 29 || (2001 <= Localtime(s).year + 1900 && p.end.year + 1900 < 2400)
    ensures !IsSkipped(p, s, t)
  {
    hide MonthStart, MonthOf;
    YearsOrdered(s, t);
    YearsOrdered(t, p.EndTime());
    LocaltimeMktime(p.end);
  }

  lemma YearsOrdered(s: int, t: int)
    requires s <= t
    ensures Localtime(s).year <= Localtime(t).year
  {
    MonthOfMonotone(DayOf(s), DayOf(t));
  }

  /** How many days on a plan for a weekday, or for every day, has its time of day next. */
  function DaysUntil(dayOfWeek: int, wday: int, over: bool): int {
    if dayOfWeek == 0 then if over then 1 else 0
    else if dayOfWeek % 7 != wday then (dayOfWeek - wday) % 7
    else if over then 7 else 0
  }

  /** Without filters on months, days and occurrences, the point is on this weekday's next day, or today or tomorrow. */
  lemma WeeklyNext(p: Plan, s: int)
    requires p.Valid() && p.month == 0 && p.dayOfMonth == 0 && p.occurrence == 0 && s <= Mktime(p.end)
    ensures var time := 3600 * p.hour + 60 * p.min + p.sec;
            var days := DaysUntil(p.dayOfWeek, Localtime(s).wday, s % 86400 > time);
            var t := s - s % 86400 + 86400 * days + time;
            && NextPoint(p, s) == (if t <= Mktime(p.end) then Some(t) else None)
            && (p.dayOfWeek != 0 ==> Localtime(t).wday == p.dayOfWeek % 7)
  {
    hide Localtime, Mktime, DaysUntil, Visible, OnDay, Plan.Valid;
    LocaltimeFields(s);
    var days := DaysUntil(p.dayOfWeek, Weekday(DayOf(s)), s % 86400 > p.TimeOfDay());
    var t := s - s % 86400 + 86400 * days + p.TimeOfDay();
    LocaltimeFields(t);
    hide Weekday;
    FirstVisibleIsLeast(p, s, s, p.EndTime());
    OnThatDay(p, s, t, days);
    WeeklyVisible(p, s, t);
    forall u | s <= u < t ensures !Visible(p, s, u) {
      WeeklyVisible(p, s, u);
      NotSooner(p, s, u, days);
    }
  }

  predicate OnDay(p: Plan, u: int) {
    (p.dayOfWeek == 0 || Weekday(DayOf(u)) == p.dayOfWeek % 7) && u % 86400 == p.TimeOfDay()
  }

  lemma WeeklyVisible(p: Plan, s: int, u: int)
    requires p.month == 0 && p.dayOfMonth == 0 && p.occurrence == 0
    ensures Visible(p, s, u) <==> OnDay(p, u)
  {
    hide MonthStart, MonthOf, DaysIn;
    LocaltimeFields(u);
  }

  lemma OnThatDay(p: Plan, s: int, t: int, days: int)
    requires p.Valid() && t == s - s % 86400 + 86400 * days + p.TimeOfDay()
    requires days == DaysUntil(p.dayOfWeek, Weekday(DayOf(s)), s % 86400 > p.TimeOfDay())
    ensures s <= t && OnDay(p, t) && (p.dayOfWeek != 0 ==> Weekday(DayOf(t)) == p.dayOfWeek % 7)
  {
    ValidTime(p);
    WeekdayLater(DayOf(s), days);
    hide Mktime, Weekday, DayOf, Plan.Valid, Plan.TimeOfDay;
    DaysLater(s, p.TimeOfDay(), days);
  }

  lemma ValidTime(p: Plan)
    requires p.Valid()
    ensures 0 <= p.TimeOfDay() < 86400 && 0 <= p.dayOfWeek <= 7
  {
  }

  lemma DaysLater(s: int, time: int, days: int)
    requires 0 <= time < 86400 && days >= if s % 86400 > time then 1 else 0
    ensures var t := s - s % 86400 + 86400 * days + time; s <= t && t % 86400 == time && DayOf(t) == DayOf(s) + days
  {
  }

  lemma WeekdayLater(day: int, days: int)
    ensures 0 <= Weekday(day) < 7 && Weekday(day + days) == (Weekday(day) + days) % 7
  {
  }

  lemma NotSooner(p: Plan, s: int, u: int, days: int)
    requires p.Valid() && s <= u < s - s % 86400 + 86400 * days + p.TimeOfDay()
    requires days == DaysUntil(p.dayOfWeek, Weekday(DayOf(s)), s % 86400 > p.TimeOfDay())
    ensures !OnDay(p, u)
  {
    hide Mktime;
    if u % 86400 == p.TimeOfDay() {
      var k := DayOf(u) - DayOf(s);
      assert 0 <= k < days && (k == 0 ==> s % 86400 <= p.TimeOfDay());
      WeekdayLater(DayOf(s), k);
    }
  }

  /** A point after the end is returned exactly when the search starts after it, on an occurrence, with no month set. */
  lemma ReturnsPastEnd(p: Plan, s: int)
    ensures (NextPoint(p, s).Some? && p.EndTime() < NextPoint(p, s).value) <==>
            (p.EndTime() < s && p.month == 0 && Matches(p, s))
  {
    FirstVisibleIsLeast(p, s, s, p.EndTime());
  }

  /** The relative value may be negative, by the half second of rounding and no more. */
  lemma RelativeValueBound(p: Plan, tvFrom: int, tvNow: int)
    requires NextPoint(p, SearchStart(p, tvFrom, tvNow)).Some?
    ensures 1000000 * NextPoint(p, SearchStart(p, tvFrom, tvNow)).value - tvFrom >= -499999
  {
    var s := SearchStart(p, tvFrom, tvNow);
    FirstVisibleIsLeast(p, s, s, p.EndTime());
  }

  /** In every year divisible by 400, 29 February is lost to a plan that asks for day 29, from the eve of that day. */
  lemma LeapCenturyDayLost(p: Plan, eve: Tm, day: Tm)
    requires p.Valid() && p.month == 0 && p.dayOfMonth == 29 && p.dayOfWeek == 0 && p.TimeOfDay() == 0
    requires (eve.year + 1900) % 400 == 0 && eve.mon == 1 && eve.mday == 28 && eve.TimeOfDay() == DAY_SECONDS - 1
    requires CheckTime(eve.hour, eve.min, eve.sec)
    requires day == eve.(mday := 29, hour := 0, min := 0, sec := 0) && Mktime(day) <= p.EndTime()
    ensures FirstMatch(p, Mktime(eve), p.EndTime()) == Some(Mktime(day))
    ensures NextPoint(p, Mktime(eve)) != Some(Mktime(day))
  {
    var s, t := Mktime(eve), Mktime(day);
    MonthIndexFields(eve);
    assert t == s + 1;
    LocaltimeMktime(eve);
    LocaltimeMktime(day);
    assert !Matches(p, s) && Matches(p, t);
    FirstOnSecondLook(t => Matches(p, t), s, p.EndTime());
    FirstVisibleIsLeast(p, s, s, p.EndTime());
    LocaltimeFields(s);
    LocaltimeFields(t);
    assert IsSkipped(p, s, t);
  }

  lemma FirstOnSecondLook(f: int -> bool, s: int, end: int)
    requires s + 1 <= end && !f(s) && f(s + 1)
    ensures FirstWhere(f, s, end) == Some(s + 1)
  {
  }
}
