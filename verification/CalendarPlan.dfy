/**
 `calendar_periodic_alarm_timeplan`: a filter over months, days of the month, weekdays, occurrences of a weekday
 in its month and a time of day: what such a plan means, and why the jumps of the search pass over no occurrence.
 */
module CalendarPlan {
  import opened Gregorian

  /** The plan's fields; 0 stands for "all" in the four filters, weekday 7 and occurrence 5 for Sunday and last. */
  datatype Plan = Plan(start: Tm, end: Tm, hour: int, min: int, sec: int, month: int, dayOfMonth: int, dayOfWeek: int,
                       occurrence: int)
  {
    /** What the setters accept, and what `imm_object_hccalendar_event` enforces of the last two filters. */
    predicate Valid() {
      && start.IsDate() && end.IsDate() && CheckTime(hour, min, sec)
      && 0 <= month <= 12 && 0 <= dayOfMonth <= 31 && 0 <= dayOfWeek <= 7 && 0 <= occurrence <= 5
      && (occurrence != 0 ==> dayOfWeek != 0)
    }

    function TimeOfDay(): int { 3600 * hour + 60 * min + sec }
    function EndTime(): int { Mktime(end) }
  }

  // ---------- what a plan means ----------

  function DayIn(k: int, mday: int): int { MonthStart(k) + mday - 1 }

  /** How many of the first `mday` days of month k have weekday `w`. */
  function CountWeekday(k: int, w: int, mday: int): int
    decreases mday
  {
    if mday <= 0 then 0
    else CountWeekday(k, w, mday - 1) + (if Weekday(DayIn(k, mday)) == w then 1 else 0)
  }

  /** No later day of the month has the weekday of this one. */
  ghost predicate IsLastOfItsWeekday(k: int, mday: int) {
    forall d | mday < d <= DaysIn(k) :: Weekday(DayIn(k, d)) != Weekday(DayIn(k, mday))
  }

  ghost predicate OnOccurrence(occurrence: int, k: int, mday: int) {
    if occurrence == 0 then true
    else if occurrence == 5 then IsLastOfItsWeekday(k, mday)
    else CountWeekday(k, Weekday(DayIn(k, mday)), mday) == occurrence
  }

  ghost predicate Matches(p: Plan, t: int) {
    var tm := Localtime(t);
    && (p.month == 0 || tm.mon == p.month - 1)
    && (p.dayOfMonth == 0 || tm.mday == p.dayOfMonth)
    && (p.dayOfWeek == 0 || tm.wday == p.dayOfWeek % 7)
    && OnOccurrence(p.occurrence, tm.Month(), tm.mday)
    && tm.TimeOfDay() == p.TimeOfDay()
  }

  /** 29 February of a year divisible by 400, asked for by day of month. */
  predicate IsLeapCenturyDay(p: Plan, tm: Tm) {
    p.dayOfMonth == 29 && tm.mon == 1 && tm.mday == 29 && (tm.year + 1900) % 400 == 0
  }

  /** The instants the search cannot land on: it reaches such a day only by starting on it. */
  predicate IsSkipped(p: Plan, origin: int, t: int) {
    IsLeapCenturyDay(p, Localtime(t)) && DayOf(t) != DayOf(origin)
  }

  ghost predicate Visible(p: Plan, origin: int, t: int) {
    Matches(p, t) && !IsSkipped(p, origin, t)
  }

  /** Nothing visible in [a, b). */
  ghost predicate Clear(p: Plan, origin: int, a: int, b: int) {
    forall t | a <= t < b :: !Visible(p, origin, t)
  }

  // ---------- occurrences by arithmetic ----------

  lemma {:induction false} CountWeekdayIsWeekNumber(k: int, mday: int, e: int)
    requires 0 <= e < 7 && 1 <= mday
    ensures CountWeekday(k, Weekday(DayIn(k, mday)), mday + e) == (mday - 1) / 7 + 1
    decreases mday + e
  {
    hide MonthStart;
    var w := Weekday(DayIn(k, mday));
    if e > 0 {
      assert Weekday(DayIn(k, mday + e)) != w;
      CountWeekdayIsWeekNumber(k, mday, e - 1);
    } else if mday > 7 {
      assert Weekday(DayIn(k, mday - 7)) == w;
      CountWeekdayIsWeekNumber(k, mday - 7, 6);
    } else {
      FirstWeekday(k, w, mday - 1, mday);
    }
  }

  lemma {:induction false} FirstWeekday(k: int, w: int, d: int, mday: int)
    requires 0 <= d < mday <= 7 && w == Weekday(DayIn(k, mday))
    ensures CountWeekday(k, w, d) == 0
    decreases d
  {
    hide MonthStart;
    if d > 0 {
      assert Weekday(DayIn(k, d)) != w;
      FirstWeekday(k, w, d - 1, mday);
    }
  }

  lemma OnOccurrenceByNumber(occurrence: int, k: int, mday: int)
    requires 0 <= occurrence <= 5 && 1 <= mday <= DaysIn(k)
    ensures OnOccurrence(occurrence, k, mday) <==>
            (|| occurrence == 0 || (occurrence == 5 && mday + 7 > DaysIn(k))
             || (occurrence < 5 && (mday - 1) / 7 + 1 == occurrence))
  {
    CountWeekdayIsWeekNumber(k, mday, 0);
    LastIff(k, mday);
    hide Weekday, DayIn, CountWeekday, IsLastOfItsWeekday, DaysIn;
  }

  lemma LastIff(k: int, mday: int)
    requires 1 <= mday <= DaysIn(k)
    ensures IsLastOfItsWeekday(k, mday) <==> mday + 7 > DaysIn(k)
  {
    hide MonthStart, DaysIn;
    if mday + 7 <= DaysIn(k) {
      assert Weekday(DayIn(k, mday + 7)) == Weekday(DayIn(k, mday));
    }
  }

  /** Field by field: what a plan asks of a date and time, with Sunday as weekday 7. */
  lemma MatchesByFields(p: Plan, tm: Tm)
    requires p.Valid() && tm.IsDate()
    ensures Matches(p, Mktime(tm)) <==>
              && p.month in {0, tm.mon + 1} && p.dayOfMonth in {0, tm.mday}
              && p.dayOfWeek in {0, var wday := Localtime(Mktime(tm)).wday; if wday == 0 then 7 else wday}
              && (p.occurrence in {0, (tm.mday + 6) / 7} || (p.occurrence == 5 && DaysIn(tm.Month()) < tm.mday + 7))
              && tm.hour == p.hour && tm.min == p.min && tm.sec == p.sec
  {
    hide MonthStart, MonthOf, DaysIn, OnOccurrence;
    LocaltimeMktime(tm);
    OnOccurrenceByNumber(p.occurrence, tm.Month(), tm.mday);
    SameTime(p, tm);
  }

  lemma SameTime(p: Plan, tm: Tm)
    requires CheckTime(p.hour, p.min, p.sec) && CheckTime(tm.hour, tm.min, tm.sec)
    ensures tm.TimeOfDay() == p.TimeOfDay() <==> tm.hour == p.hour && tm.min == p.min && tm.sec == p.sec
  {
  }

  // ---------- instants and days ----------

  function Midnight(day: int): int { DAY_SECONDS * (day - EPOCH_DAY) }

  lemma MidnightDay(day: int)
    ensures DayOf(Midnight(day)) == day
    ensures Localtime(Midnight(day)).TimeOfDay() == 0
    ensures Localtime(Midnight(day)).Day() == day
  {
  }

  /** An instant from the day of c up to before a later midnight, in months and days. */
  lemma Between(c: int, t: int, day: int)
    requires c <= t < Midnight(day)
    ensures DayOf(c) <= DayOf(t) < day
    ensures Localtime(c).Month() <= Localtime(t).Month()
    ensures Localtime(t).Day() == DayOf(t)
    ensures Localtime(t).IsDate()
    ensures Localtime(t).wday == Weekday(DayOf(t))
  {
    LocaltimeFields(t);
    LocaltimeFields(c);
    MonthOfMonotone(DayOf(c), DayOf(t));
  }

  lemma MonthBound(t: int, k: int)
    requires DayOf(t) < MonthStart(k)
    ensures Localtime(t).Month() < k
  {
    LocaltimeFields(t);
    if k <= Localtime(t).Month() {
      MonthStartGrows(k, MonthOf(DayOf(t)));
    }
  }

  // ---------- the jumps: none of them passes over a visible instant ----------

  /** To the first day of the month asked for, in this year or the next. */
  lemma MonthJump(p: Plan, origin: int, c: int, k: int)
    requires p.month != 0 && Localtime(c).Month() < k
    requires forall j | Localtime(c).Month() <= j < k :: j % 12 != p.month - 1
    ensures c < Midnight(MonthStart(k))
    ensures Clear(p, origin, c, Midnight(MonthStart(k)))
  {
    LocaltimeFields(c);
    MonthStep(Localtime(c).Month());
    MonthStartGrows(Localtime(c).Month() + 1, k);
    forall t | c <= t < Midnight(MonthStart(k)) ensures !Visible(p, origin, t) {
      Between(c, t, MonthStart(k));
      MonthBound(t, k);
      assert Localtime(t).Month() % 12 != p.month - 1;
    }
  }

  /** The month `dx_increment_adjust_by_month` stops at: its leap rule is applied to years counted from 1900. */
  predicate AcceptsDay(k: int, mday: int) {
    CheckDate(k / 12 - 1900, k % 12 + 1, mday)
  }

  lemma AcceptsDayRefused(k: int, mday: int)
    requires 1 <= mday <= 31 && !AcceptsDay(k, mday)
    ensures AcceptsDay(k + 1, mday)
    ensures mday > DaysIn(k) || (k % 12 == 1 && mday == 29 && (k / 12) % 400 == 0)
  {
  }

  lemma AcceptsDayTaken(k: int, mday: int)
    requires AcceptsDay(k, mday)
    ensures mday <= DaysIn(k) || (mday == 29 && DaysIn(k) == 28)
    ensures !(k % 12 == 1 && mday == 29 && (k / 12) % 400 == 0)
  {
  }

  /** Applied to a year counted from 1900 the leap rule is right exactly outside the years 0 and 300 modulo 400. */
  lemma OffsetLeapRule(y: int)
    ensures (IsLeapYear(y - 1900) == IsLeapYear(y)) <==> (y % 400 != 0 && y % 400 != 300)
    ensures y % 400 == 0 ==> !IsLeapYear(y - 1900)
    ensures y % 400 == 300 ==> !IsLeapYear(y)
  {
    Offset4(y);
    Offset100(y);
    Offset400(y);
    Centuries(y);
    Centuries(y - 1900);
  }

  lemma Offset4(y: int)
    ensures (y - 1900) % 4 == y % 4
  {
  }

  lemma Offset100(y: int)
    ensures (y - 1900) % 100 == y % 100
  {
  }

  lemma Offset400(y: int)
    ensures (y - 1900) % 400 == (if y % 400 < 300 then y % 400 + 100 else y % 400 - 300)
  {
  }

  lemma Centuries(y: int)
    ensures y % 100 == 0 <==> y % 400 in {0, 100, 200, 300}
    ensures y % 100 == 0 ==> y % 4 == 0
  {
  }

  /** To the next day with the number asked for; `k` is the month it is looked for in first, `kk` where it is found. */
  lemma DayOfMonthJump(p: Plan, origin: int, c: int, k: int, kk: int)
    requires p.Valid() && p.dayOfMonth != 0 && origin <= c
    requires var tm := Localtime(c);
             tm.mday != p.dayOfMonth && k == (if tm.mday > p.dayOfMonth then tm.Month() + 1 else tm.Month())
    requires kk == (if AcceptsDay(k, p.dayOfMonth) then k else k + 1)
    ensures c < Midnight(DayIn(kk, p.dayOfMonth))
    ensures Clear(p, origin, c, Midnight(DayIn(kk, p.dayOfMonth)))
    ensures !IsLeapCenturyDay(p, Localtime(Midnight(DayIn(kk, p.dayOfMonth))))
  {
    hide MonthStart, MonthOf, Matches, AcceptsDay, IsSkipped;
    var tm, d := Localtime(c), p.dayOfMonth;
    var target := DayIn(kk, d);
    LocaltimeFields(c);
    MonthStep(tm.Month());
    MonthStep(k);
    if !AcceptsDay(k, d) { AcceptsDayRefused(k, d); }
    assert DayOf(c) < target;
    forall t | c <= t < Midnight(target) ensures !Visible(p, origin, t) {
      DayOfMonthPassed(p, origin, c, k, kk, t);
    }
    LandsOnAcceptedDay(p, kk);
  }

  lemma LandsOnAcceptedDay(p: Plan, k: int)
    requires 1 <= p.dayOfMonth <= 31 && AcceptsDay(k, p.dayOfMonth)
    ensures !IsLeapCenturyDay(p, Localtime(Midnight(DayIn(k, p.dayOfMonth))))
  {
    hide MonthStart, MonthOf, AcceptsDay;
    var d, target := p.dayOfMonth, DayIn(k, p.dayOfMonth);
    AcceptsDayTaken(k, d);
    MonthStep(k);
    MidnightDay(target);
    LocaltimeFields(Midnight(target));
    if d <= DaysIn(k) {
      MonthOfUnique(target, k);
    } else {
      MonthStep(k + 1);
      MonthOfUnique(target, k + 1);
    }
  }

  lemma DayOfMonthPassed(p: Plan, origin: int, c: int, k: int, kk: int, t: int)
    requires p.Valid() && p.dayOfMonth != 0 && origin <= c
    requires var tm := Localtime(c);
             tm.mday != p.dayOfMonth && k == (if tm.mday > p.dayOfMonth then tm.Month() + 1 else tm.Month())
    requires kk == (if AcceptsDay(k, p.dayOfMonth) then k else k + 1)
    requires c <= t < Midnight(DayIn(kk, p.dayOfMonth))
    ensures !Visible(p, origin, t)
  {
    hide MonthStart, MonthOf, OnOccurrence, AcceptsDay;
    var tm, d, tt := Localtime(c), p.dayOfMonth, Localtime(t);
    LocaltimeFields(c);
    Between(c, t, DayIn(kk, d));
    if tt.mday == d {
      EarlierSameNumber(tt.Month(), kk, d);
      if tt.Month() == k {
        AcceptsDayRefused(k, d);
        assert IsLeapCenturyDay(p, tt) by { MonthIndexFields(tt); }
        assert DayOf(origin) <= DayOf(c) < DayOf(t);
      }
    }
  }

  lemma EarlierSameNumber(j: int, k: int, mday: int)
    requires DayIn(j, mday) < DayIn(k, mday)
    ensures j < k && DayIn(j, mday) + 28 <= DayIn(k, mday)
  {
    if k <= j { MonthStartGrows(k, j); } else { MonthStartGrows(j, k); }
  }

  lemma MonthIndexFields(tm: Tm)
    requires 0 <= tm.mon < 12
    ensures tm.Month() / 12 == tm.year + 1900 && tm.Month() % 12 == tm.mon
  {
  }

  /** To the next day of the week asked for. */
  lemma WeekdayJump(p: Plan, origin: int, c: int, days: int)
    requires p.Valid() && p.dayOfWeek != 0 && 1 <= days <= 6
    requires Weekday(DayOf(c) + days) == p.dayOfWeek % 7
    requires p.dayOfMonth == 0 || Localtime(c).mday == p.dayOfMonth
    ensures c < Midnight(DayOf(c) + days)
    ensures Clear(p, origin, c, Midnight(DayOf(c) + days))
    ensures !IsLeapCenturyDay(p, Localtime(Midnight(DayOf(c) + days)))
  {
    forall t | c <= t < Midnight(DayOf(c) + days) ensures !Visible(p, origin, t) {
      Between(c, t, DayOf(c) + days);
      OtherWeekday(DayOf(c), DayOf(t) - DayOf(c), days);
    }
    assert c < Midnight(DayOf(c) + days);
    LaterDay(p, c, days);
  }

  lemma OtherWeekday(day: int, i: int, j: int)
    requires 0 <= i < j <= 6
    ensures Weekday(day + i) != Weekday(day + j)
  {
  }

  /** Leaving a day by less than four weeks never ends on the same day number. */
  lemma LaterDay(p: Plan, c: int, days: int)
    requires 1 <= days < 28
    requires p.dayOfMonth == 0 || Localtime(c).mday == p.dayOfMonth
    ensures !IsLeapCenturyDay(p, Localtime(Midnight(DayOf(c) + days)))
  {
    var a, b := Localtime(c), Localtime(Midnight(DayOf(c) + days));
    LocaltimeFields(c);
    MidnightDay(DayOf(c) + days);
    LocaltimeFields(Midnight(DayOf(c) + days));
    if a.mday == 29 && b.mday == 29 {
      EarlierSameNumber(a.Month(), b.Month(), 29);
    }
  }

  /** To a later week of the month, `weeks` ahead, the weekday being right already. */
  lemma OccurrenceJump(p: Plan, origin: int, c: int, weeks: int)
    requires p.Valid() && p.occurrence != 0 && 1 <= weeks <= 4
    requires var tm := Localtime(c);
             && tm.wday == p.dayOfWeek % 7
             && (p.dayOfMonth == 0 || tm.mday == p.dayOfMonth)
             && tm.mday + 7 * weeks <= DaysIn(tm.Month())
             && (p.occurrence < 5 ==> (tm.mday - 1) / 7 + 1 + weeks == p.occurrence)
    ensures c < Midnight(DayOf(c) + 7 * weeks)
    ensures Clear(p, origin, c, Midnight(DayOf(c) + 7 * weeks))
    ensures !IsLeapCenturyDay(p, Localtime(Midnight(DayOf(c) + 7 * weeks)))
  {
    hide MonthStart, MonthOf, DaysIn, OnOccurrence;
    var tm := Localtime(c);
    LocaltimeFields(c);
    MonthStep(tm.Month());
    forall t | c <= t < Midnight(DayOf(c) + 7 * weeks) ensures !Visible(p, origin, t) {
      Between(c, t, DayOf(c) + 7 * weeks);
      MonthBound(t, tm.Month() + 1);
      var tt := Localtime(t);
      assert tt.Month() == tm.Month();
      OnOccurrenceByNumber(p.occurrence, tt.Month(), tt.mday);
      if tt.wday == tm.wday {
        WholeWeeks(DayOf(c), DayOf(t), weeks);
        var w := (DayOf(t) - DayOf(c)) / 7;
        assert tt.mday == tm.mday + 7 * w && w < weeks;
      }
    }
    if p.dayOfMonth != 29 {
      LeapCenturyNeeds29(p, Midnight(DayOf(c) + 7 * weeks));
    }
  }

  lemma WholeWeeks(a: int, b: int, weeks: int)
    requires a <= b < a + 7 * weeks && Weekday(a) == Weekday(b)
    ensures b == a + 7 * ((b - a) / 7) && (b - a) / 7 < weeks
  {
  }

  lemma LeapCenturyNeeds29(p: Plan, t: int)
    requires p.dayOfMonth != 29
    ensures !IsLeapCenturyDay(p, Localtime(t))
  {
  }

  /** Past the occurrence asked for, so to the first day of the next month. */
  lemma NextMonthJump(p: Plan, origin: int, c: int)
    requires p.Valid() && p.occurrence != 0
    requires var tm := Localtime(c); (tm.mday - 1) / 7 + 1 > p.occurrence
    ensures var next := MonthStart(Localtime(c).Month() + 1);
            && c < Midnight(next)
            && Clear(p, origin, c, Midnight(next))
            && !IsLeapCenturyDay(p, Localtime(Midnight(next)))
  {
    hide MonthStart, MonthOf, DaysIn, OnOccurrence;
    var tm := Localtime(c);
    var next := MonthStart(tm.Month() + 1);
    LocaltimeFields(c);
    MonthStep(tm.Month());
    forall t | c <= t < Midnight(next) ensures !Visible(p, origin, t) {
      Between(c, t, next);
      MonthBound(t, tm.Month() + 1);
      var tt := Localtime(t);
      assert tt.Month() == tm.Month() && tm.mday <= tt.mday;
      OnOccurrenceByNumber(p.occurrence, tt.Month(), tt.mday);
    }
    FirstIsNot29(p, tm.Month() + 1);
  }

  lemma FirstIsNot29(p: Plan, k: int)
    ensures !IsLeapCenturyDay(p, Localtime(Midnight(MonthStart(k))))
  {
    MidnightDay(MonthStart(k));
    LocaltimeFields(Midnight(MonthStart(k)));
    MonthStep(k);
    MonthOfUnique(MonthStart(k), k);
  }

  /** The time of day is over, so to the next midnight. */
  lemma NextDayJump(p: Plan, origin: int, c: int)
    requires p.Valid() && Localtime(c).TimeOfDay() > p.TimeOfDay()
    requires p.dayOfMonth == 0 || Localtime(c).mday == p.dayOfMonth
    ensures c < Midnight(DayOf(c) + 1)
    ensures Clear(p, origin, c, Midnight(DayOf(c) + 1))
    ensures !IsLeapCenturyDay(p, Localtime(Midnight(DayOf(c) + 1)))
  {
    LocaltimeFields(c);
    forall t | c <= t < Midnight(DayOf(c) + 1) ensures !Visible(p, origin, t) {
      LocaltimeFields(t);
      assert DayOf(t) == DayOf(c);
    }
    LaterDay(p, c, 1);
  }

  /** Forward to the time of day on the same day. */
  lemma TimeJump(p: Plan, origin: int, c: int, cc: int)
    requires p.Valid() && DayOf(cc) == DayOf(c) && c < cc && cc % DAY_SECONDS == p.TimeOfDay()
    ensures Clear(p, origin, c, cc)
  {
    forall t | c <= t < cc ensures !Visible(p, origin, t) {
      LocaltimeFields(t);
      assert DayOf(t) == DayOf(c);
    }
  }

  lemma ClearJoin(p: Plan, origin: int, a: int, b: int, c: int)
    requires Clear(p, origin, a, b) && Clear(p, origin, b, c)
    ensures Clear(p, origin, a, c)
  {
  }
}
