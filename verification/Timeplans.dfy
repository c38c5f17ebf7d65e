/**
 `alarm_timeplan` with its three kinds of plan, asked for the next point from the instant the clock shows:
 `tvFrom` and "now" are one reading.
 */
module Timeplans {
  import opened Prelude
  import opened Gregorian
  import C = CalendarPlan
  import S = CalendarSearch
  import P = PeriodicPlan

  /** The largest `time_t`. */
  const TIME_T_MAX := 0x7fff_ffff_ffff_ffff

  datatype Timeplan = Oneshot(tm: Tm) | Periodic(periodic: P.Plan) | Calendar(calendar: C.Plan)
  {
    function LastPoint(): int {
      match this
      case Oneshot(tm) => Mktime(tm)
      case Periodic(p) => p.EndTime()
      case Calendar(p) => p.EndTime()
    }

    predicate Valid() {
      && LastPoint() < TIME_T_MAX - 1
      && (Periodic? ==> periodic.Valid())
      && (Calendar? ==> calendar.Valid() && Mktime(calendar.start) < TIME_T_MAX - 1)
    }
  }

  /** A clock reading in microseconds, past the first second of 1970. */
  predicate IsClock(now: int) { 1000000 <= now < 1000000 * (TIME_T_MAX - 2) }

  /** The point the plan names next. */
  ghost function NextPoint(plan: Timeplan, now: int): Option<int> {
    match plan
    case Oneshot(tm) => if now <= 1000000 * Mktime(tm) then Some(Mktime(tm)) else None
    case Periodic(p) => P.NextPoint(p, now)
    case Calendar(p) => S.NextPoint(p, S.SearchStart(p, now, now))
  }

  /** `get_next_timer_point` of the plan at hand; `None` is ERR_NOT_FOUND. */
  method GetNextTimerPoint(plan: Timeplan, tvFrom: int) returns (relative: Option<int>)
    requires plan.Valid() && IsClock(tvFrom)
    ensures relative == (match NextPoint(plan, tvFrom) case Some(t) => Some(1000000 * t - tvFrom) case None => None)
  {
    match plan {
      case Oneshot(tm) =>
        var myTv := 1000000 * Mktime(tm);
        relative := if myTv < tvFrom then None else Some(myTv - tvFrom);
      case Periodic(p) =>
        relative := P.GetNextTimerPoint(p, tvFrom);
      case Calendar(p) =>
        relative := S.GetNextTimerPoint(p, tvFrom, tvFrom);
    }
  }

  /** `get_next_datetime`: adding the relative value back and rounding gives the point itself. */
  method GetNextDatetime(plan: Timeplan, tvFrom: int) returns (tm: Option<Tm>)
    requires plan.Valid() && IsClock(tvFrom)
    ensures tm == (match NextPoint(plan, tvFrom) case Some(t) => Some(Localtime(t)) case None => None)
  {
    hide NextPoint, Localtime, Timeplan.Valid;
    var relative := GetNextTimerPoint(plan, tvFrom);
    match relative {
      case None => tm := None;
      case Some(r) =>
        var tvNext := tvFrom + r;
        tm := Some(Localtime(S.RoundToSecond(tvNext)));
    }
  }

  // ---------- the occurrences of a plan ----------

  /** The whole seconds the plan stands for; leap-century days asked for by number are not promised. */
  ghost predicate Occurs(plan: Timeplan, t: int) {
    match plan
    case Oneshot(tm) => t == Mktime(tm)
    case Periodic(p) => t <= p.EndTime() && P.Points(p)(t)
    case Calendar(p) =>
      Mktime(p.start) <= t <= p.EndTime() && C.Matches(p, t) && !C.IsLeapCenturyDay(p, Localtime(t))
  }

  /** The plan's time on the day of s. */
  function Today(p: C.Plan, s: int): int { DAY_SECONDS * (s / DAY_SECONDS) + p.TimeOfDay() }

  /**
   What makes a calendar plan name a point it does not stand for: asked after its end, with no month set, on a second
   that matches; or asked on a leap-century day it asks for, with the time of day still to come.
   */
  ghost predicate NamesStray(plan: Timeplan, now: int) {
    plan.Calendar? &&
    var p := plan.calendar;
    var s := S.SearchStart(p, now, now);
    var today := Today(p, s);
    if p.EndTime() < s then p.month == 0 && C.Matches(p, s)
    else s <= today <= p.EndTime() && C.Matches(p, today) && C.IsLeapCenturyDay(p, Localtime(today))
  }

  /**
   The next point is never more than half a second ago, no occurrence from now on comes before it, and it is an
   occurrence itself exactly if the plan is not asked where it names a stray one.
   */
  lemma NextPointIsNext(plan: Timeplan, now: int)
    requires plan.Valid() && IsClock(now)
    ensures match NextPoint(plan, now)
            case Some(t) => && S.RoundToSecond(now) <= t < TIME_T_MAX - 1
                            && (forall u | Occurs(plan, u) && now <= 1000000 * u :: t <= u)
                            && (Occurs(plan, t) <==> !NamesStray(plan, now))
            case None => !NamesStray(plan, now) && forall u | Occurs(plan, u) :: 1000000 * u < now
  {
    hide NamesStray;
    match plan {
      case Oneshot(tm) =>
      case Periodic(p) =>
        FirstWhereIsLeast(P.Points(p), P.CeilSecond(now), p.EndTime());
        forall u | Occurs(plan, u) && now <= 1000000 * u
          ensures P.Points(p)(u) && P.CeilSecond(now) <= u <= p.EndTime()
        {}
      case Calendar(p) =>
        CalendarNext(p, now);
    }
    StrayIff(plan, now);
  }

  /** A plan names a point that is no occurrence exactly if it is asked where it names a stray one. */
  lemma StrayIff(plan: Timeplan, now: int)
    requires IsClock(now)
    ensures NamesStray(plan, now) <==> NextPoint(plan, now).Some? && !Occurs(plan, NextPoint(plan, now).value)
  {
    match plan {
      case Oneshot(tm) =>
      case Periodic(p) => FirstWhereIsLeast(P.Points(p), P.CeilSecond(now), p.EndTime());
      case Calendar(p) => CalendarStray(p, now);
    }
  }

  lemma CalendarNext(p: C.Plan, now: int)
    requires Calendar(p).Valid() && IsClock(now)
    ensures match NextPoint(Calendar(p), now)
            case Some(t) => && S.RoundToSecond(now) <= t < TIME_T_MAX - 1
                            && (forall u | Occurs(Calendar(p), u) && now <= 1000000 * u :: t <= u)
            case None => forall u | Occurs(Calendar(p), u) :: 1000000 * u < now
  {
    hide C.Matches, C.IsLeapCenturyDay, Localtime, Mktime;
    var s := S.SearchStart(p, now, now);
    S.FirstVisibleIsLeast(p, s, s, p.EndTime());
    forall u | Occurs(Calendar(p), u) && now <= 1000000 * u ensures s <= u && C.Visible(p, s, u) {}
  }

  lemma CalendarStray(p: C.Plan, now: int)
    requires IsClock(now)
    ensures NamesStray(Calendar(p), now) <==>
              NextPoint(Calendar(p), now).Some? && !Occurs(Calendar(p), NextPoint(Calendar(p), now).value)
  {
    hide C.Matches, C.IsLeapCenturyDay, Localtime, Mktime, DayOf;
    var s := S.SearchStart(p, now, now);
    var today := Today(p, s);
    S.FirstVisibleIsLeast(p, s, s, p.EndTime());
    if C.Matches(p, today) { MatchOfTheDay(p, today, s); }
    assert C.Matches(p, today) ==> C.Visible(p, s, today);
    if s <= p.EndTime() && NextPoint(Calendar(p), now).Some? {
      var t := NextPoint(Calendar(p), now).value;
      MatchOfTheDay(p, t, s);
      if t <= today { DaysOrdered(s, t, today); }
    }
  }

  lemma MatchOfTheDay(p: C.Plan, t: int, s: int)
    requires C.Matches(p, t)
    ensures t == Today(p, s) <==> DayOf(t) == DayOf(s)
  {
    hide C.OnOccurrence, Mktime, Localtime;
    LocaltimeFields(t);
  }

  lemma DaysOrdered(a: int, b: int, c: int)
    requires a <= b <= c
    ensures DayOf(a) <= DayOf(b) <= DayOf(c)
  {
  }

  // ---------- points, occurrences or not, are far apart ----------

  ghost predicate IsPoint(plan: Timeplan, t: int) {
    match plan
    case Oneshot(tm) => t == Mktime(tm)
    case Periodic(p) => P.Points(p)(t)
    case Calendar(p) => C.Matches(p, t)
  }

  lemma NamedIsPoint(plan: Timeplan, now: int)
    ensures NextPoint(plan, now).Some? ==> IsPoint(plan, NextPoint(plan, now).value)
  {
    match plan {
      case Oneshot(tm) =>
      case Periodic(p) => FirstWhereIsLeast(P.Points(p), P.CeilSecond(now), p.EndTime());
      case Calendar(p) =>
        var s := S.SearchStart(p, now, now);
        S.FirstVisibleIsLeast(p, s, s, p.EndTime());
    }
  }

  lemma OccurrenceIsPoint(plan: Timeplan, t: int)
    requires Occurs(plan, t)
    ensures IsPoint(plan, t)
  {
  }

  /** Two points of one plan are a minute apart or more. */
  lemma PointsApart(plan: Timeplan, t: int, u: int)
    requires IsPoint(plan, t) && IsPoint(plan, u) && t < u
    ensures t + 60 <= u
  {
    match plan {
      case Oneshot(tm) =>
      case Periodic(p) => P.PointsApart(p, t, u);
      case Calendar(p) =>
        TimeOfMatch(p, t);
        TimeOfMatch(p, u);
        assert t / DAY_SECONDS < u / DAY_SECONDS;
    }
  }

  lemma TimeOfMatch(p: C.Plan, t: int)
    requires C.Matches(p, t)
    ensures t % DAY_SECONDS == p.TimeOfDay()
  {
    hide C.OnOccurrence, Mktime, Localtime;
    LocaltimeFields(t);
  }

  /** Asked around one of its occurrences, a plan names it exactly while its rounding does not step past it. */
  lemma NamesItAgainIff(plan: Timeplan, u: int, now: int)
    requires plan.Valid() && IsClock(now) && Occurs(plan, u) && 1000000 * u - 499999 <= now < 1000000 * (u + 1)
    ensures NextPoint(plan, now) == Some(u) <==>
              if plan.Calendar? then S.RoundToSecond(now) <= u else now <= 1000000 * u
  {
    match plan {
      case Oneshot(tm) =>
      case Periodic(p) => PeriodicAgain(p, u, now);
      case Calendar(p) => CalendarAgain(p, u, now);
    }
  }

  /** The instants from which on a plan has passed an occurrence: it names that, or an earlier point, no more. */
  predicate Passes(plan: Timeplan, u: int, now: int) {
    if plan.Calendar? then u < S.RoundToSecond(now) else 1000000 * u < now
  }

  lemma PassesIff(plan: Timeplan, u: int, now: int)
    requires plan.Valid() && IsClock(now) && Occurs(plan, u)
    ensures Passes(plan, u, now) <==> !(NextPoint(plan, now).Some? && NextPoint(plan, now).value <= u)
  {
    hide Occurs, NamesStray, P.Points, C.Matches, Mktime;
    NextPointIsNext(plan, now);
    if plan.Periodic? && NextPoint(plan, now).Some? {
      FirstWhereIsLeast(P.Points(plan.periodic), P.CeilSecond(now), plan.periodic.EndTime());
    }
    if !Passes(plan, u, now) && 1000000 * u < now { NamesItAgainIff(plan, u, now); }
    if plan.Oneshot? { OneshotPasses(plan, u, now); }
  }

  lemma OneshotPasses(plan: Timeplan, u: int, now: int)
    requires plan.Oneshot? && Occurs(plan, u)
    ensures NextPoint(plan, now) == if Passes(plan, u, now) then None else Some(u)
  {
  }

  lemma PassesStays(plan: Timeplan, u: int, now: int, later: int)
    requires Passes(plan, u, now) && now <= later
    ensures Passes(plan, u, later) && 1000000 * u < now
  {
  }

  lemma PeriodicAgain(p: P.Plan, u: int, now: int)
    requires u <= p.EndTime() && P.Points(p)(u) && 1000000 * u - 499999 <= now < 1000000 * (u + 1)
    ensures P.NextPoint(p, now) == Some(u) <==> now <= 1000000 * u
  {
    hide Mktime, P.Points;
    FirstWhereIsLeast(P.Points(p), P.CeilSecond(now), p.EndTime());
  }

  lemma CalendarAgain(p: C.Plan, u: int, now: int)
    requires IsClock(now) && Occurs(Calendar(p), u) && 1000000 * u - 499999 <= now < 1000000 * (u + 1)
    ensures NextPoint(Calendar(p), now) == Some(u) <==> S.RoundToSecond(now) <= u
  {
    hide C.Matches, C.IsLeapCenturyDay, Localtime, Mktime, DayOf;
    var s := S.SearchStart(p, now, now);
    S.FirstVisibleIsLeast(p, s, s, p.EndTime());
    assert C.Visible(p, s, u);
    if S.RoundToSecond(now) <= u { assert s == u; }
  }
}
