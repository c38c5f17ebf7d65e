/**
 `periodic_alarm_timeplan`: the points reached from a start instant by adding months, weeks, days, hours and minutes
 and letting `mktime` normalise the result.
 */
module PeriodicPlan {
  import opened Prelude
  import opened Gregorian

  datatype Plan = Plan(start: Tm, end: Tm, months: nat, weeks: nat, days: nat, hours: nat, minutes: nat)
  {
    predicate Valid() { start.IsDate() && end.IsDate() }

    /** The loop is entered only when some step is set. */
    predicate Moves() { months != 0 || weeks != 0 || days != 0 || hours != 0 || minutes != 0 }

    /** The step in seconds, months left out. */
    function StepSeconds(): nat { DAY_SECONDS * (7 * weeks + days) + 3600 * hours + 60 * minutes }

    function EndTime(): int { Mktime(end) }
  }

  // ---------- the orbit ----------

  function AddStep(p: Plan, tm: Tm): Tm {
    tm.(mon := tm.mon + p.months, mday := tm.mday + 7 * p.weeks + p.days,
        hour := tm.hour + p.hours, min := tm.min + p.minutes)
  }

  function Step(p: Plan, t: int): int { Mktime(AddStep(p, Localtime(t))) }

  ghost function Orbit(p: Plan, n: nat): int {
    Iterate(t => Step(p, t), Mktime(p.start), n)
  }

  /** The points of the plan. */
  ghost function Points(p: Plan): int -> bool {
    t => OnIterates(u => Step(p, u), Mktime(p.start), t)
  }

  /** A step is at least a minute, or none. */
  lemma StepForward(p: Plan, t: int)
    ensures if p.Moves() then t + 60 <= Step(p, t) else t == Step(p, t)
  {
    MktimeLocaltime(t);
    var k := Localtime(t).Month();
    MonthStartGrows(k, k + p.months);
    assert Step(p, t) - t == DAY_SECONDS * (MonthStart(k + p.months) - MonthStart(k)) + p.StepSeconds();
  }

  // ---------- the operation ----------

  /** The first whole second at or after an instant in microseconds. */
  function CeilSecond(tv: int): int { (tv + 999999) / 1000000 }

  ghost function NextPoint(p: Plan, tvFrom: int): Option<int> {
    FirstWhere(Points(p), CeilSecond(tvFrom), p.EndTime())
  }

  method GetNextTimerPoint(p: Plan, tvFrom: int) returns (relative: Option<int>)
    requires p.Valid()
    ensures relative == (match NextPoint(p, tvFrom) case Some(t) => Some(1000000 * t - tvFrom) case None => None)
  {
    hide Mktime, Localtime, NextPoint, Orbit;
    var timeEnd := Mktime(p.end);
    var timeCurrent := Mktime(p.start);
    var tm := Localtime(timeCurrent);
    ghost var n: nat := 0;
    OrbitStart(p);
    if p.Moves() {
      while 1000000 * timeCurrent < tvFrom && 1000000 * timeCurrent < 1000000 * timeEnd
        invariant timeCurrent == Orbit(p, n) && tm == Localtime(timeCurrent)
        invariant n > 0 ==> 1000000 * Orbit(p, n - 1) < tvFrom
        decreases tvFrom - 1000000 * timeCurrent
      {
        timeCurrent, tm := Add(p, tm, timeCurrent, n);
        n := n + 1;
      }
    }
    OrbitStop(p, tvFrom, n, timeCurrent);
    if 1000000 * timeCurrent < tvFrom || 1000000 * timeCurrent > 1000000 * timeEnd {
      relative := None;
    } else {
      relative := Some(1000000 * timeCurrent - tvFrom);
    }
  }

  lemma OrbitStart(p: Plan)
    ensures Orbit(p, 0) == Mktime(p.start)
  {
  }

  /** The loop's increment: the fields are added to and `mktime` is called on the sum. */
  method Add(p: Plan, tm0: Tm, ghost t: int, ghost n: nat) returns (timeCurrent: int, tm: Tm)
    requires t == Orbit(p, n) && tm0 == Localtime(t)
    ensures timeCurrent == Orbit(p, n + 1) && tm == Localtime(timeCurrent)
    ensures p.Moves() ==> t < timeCurrent
  {
    hide MonthStart, MonthOf, Localtime;
    StepForward(p, t);
    tm := tm0;
    tm := tm.(mon := tm.mon + p.months, mday := tm.mday + 7 * p.weeks + p.days);
    tm := tm.(hour := tm.hour + p.hours, min := tm.min + p.minutes);
    timeCurrent := Mktime(tm);
    tm := Normalise(tm);
  }

  /** Where the loop stops is the plan's next point, when it is in the interval at all. */
  lemma OrbitStop(p: Plan, tvFrom: int, n: nat, t: int)
    requires t == Orbit(p, n) && (n > 0 ==> 1000000 * Orbit(p, n - 1) < tvFrom)
    requires if p.Moves() then tvFrom <= 1000000 * t || p.EndTime() <= t else n == 0
    ensures NextPoint(p, tvFrom) == if tvFrom <= 1000000 * t && t <= p.EndTime() then Some(t) else None
  {
    var step := t => Step(p, t);
    forall u ensures if p.Moves() then u < step(u) else u == step(u) {
      StepForward(p, u);
    }
    FirstIterate(p.Moves(), step, Mktime(p.start), CeilSecond(tvFrom), p.EndTime(), n);
  }

  // ---------- one step, and the points of any plan ----------

  /** The days of the `months` months from month k on. */
  function DaysOfMonths(k: int, months: nat): int {
    if months == 0 then 0 else DaysOfMonths(k, months - 1) + DaysIn(k + months - 1)
  }

  lemma {:induction false} MonthsApart(k: int, months: nat)
    ensures MonthStart(k + months) - MonthStart(k) == DaysOfMonths(k, months)
  {
    hide MonthStart;
    if months > 0 {
      MonthsApart(k, months - 1);
      MonthStep(k + months - 1);
    }
  }

  /** A step is as long as the months that it passes together, counted from that of t, and all its other parts. */
  lemma StepSpelledOut(p: Plan, t: int)
    ensures Step(p, t) == t + 86400 * (DaysOfMonths(Localtime(t).Month(), p.months) + 7 * p.weeks + p.days) +
                          3600 * p.hours + 60 * p.minutes
  {
    hide MonthOf, DaysIn;
    MktimeLocaltime(t);
    MonthsApart(Localtime(t).Month(), p.months);
  }

  /** The other parts of a step come on top of the step of its months alone. */
  lemma StepOfParts(p: Plan, t: int)
    ensures Step(p, t) == Step(p.(weeks := 0, days := 0, hours := 0, minutes := 0), t) +
                          86400 * (7 * p.weeks + p.days) + 3600 * p.hours + 60 * p.minutes
  {
    hide Step, Localtime;
    StepSpelledOut(p, t);
    StepSpelledOut(p.(weeks := 0, days := 0, hours := 0, minutes := 0), t);
  }

  /** Any plan's next point: the start, if that is not over, and between two points the one a step after the other. */
  lemma NextPointBetween(p: Plan, t: int, tvFrom: int)
    requires p.Moves() && Points(p)(t)
    ensures tvFrom <= 1000000 * Mktime(p.start) ==>
              NextPoint(p, tvFrom) == if Mktime(p.start) <= Mktime(p.end) then Some(Mktime(p.start)) else None
    ensures var u := t + 86400 * (DaysOfMonths(Localtime(t).Month(), p.months) + 7 * p.weeks + p.days) +
                     3600 * p.hours + 60 * p.minutes;
            && Points(p)(u)
            && (1000000 * t < tvFrom <= 1000000 * u ==>
                  NextPoint(p, tvFrom) == if u <= Mktime(p.end) then Some(u) else None)
  {
    hide Step, Localtime, Mktime;
    var step := v => Step(p, v);
    var n: nat :| Iterate(step, Mktime(p.start), n) == t;
    assert Orbit(p, n) == t && Orbit(p, n + 1) == Step(p, t) == Iterate(step, Mktime(p.start), n + 1);
    StepSpelledOut(p, t);
    StepForward(p, t);
    OrbitStart(p);
    if tvFrom <= 1000000 * Mktime(p.start) { OrbitStop(p, tvFrom, 0, Mktime(p.start)); }
    if 1000000 * t < tvFrom <= 1000000 * Step(p, t) { OrbitStop(p, tvFrom, n + 1, Step(p, t)); }
  }

  /** A plan with no step set has its start as its only point. */
  lemma NextPointOfNoStep(p: Plan, tvFrom: int)
    requires p.months == 0 && p.weeks == 0 && p.days == 0 && p.hours == 0 && p.minutes == 0
    ensures var start := Mktime(p.start);
            NextPoint(p, tvFrom) == if tvFrom <= 1000000 * start && start <= Mktime(p.end) then Some(start) else None
  {
    hide Mktime;
    OrbitStart(p);
    OrbitStop(p, tvFrom, 0, Mktime(p.start));
  }

  // ---------- plans without months ----------

  function NextIndex(start: int, step: int, lo: int): nat
    requires 0 < step
  {
    if lo <= start then 0 else (lo - start + step - 1) / step
  }

  lemma StepWithoutMonths(p: Plan, t: int)
    requires p.months == 0
    ensures Step(p, t) == t + p.StepSeconds()
  {
  }

  lemma {:induction false} OrbitWithoutMonths(p: Plan, n: nat)
    requires p.months == 0
    ensures Orbit(p, n) == Mktime(p.start) + n * p.StepSeconds()
  {
    if n > 0 {
      OrbitWithoutMonths(p, n - 1);
      StepWithoutMonths(p, Orbit(p, n - 1));
      assert n * p.StepSeconds() == (n - 1) * p.StepSeconds() + p.StepSeconds();
    }
  }

  /** Without months the next point is the start plus a whole number of steps, rounded up. */
  lemma NextPointWithoutMonths(p: Plan, tvFrom: int)
    requires p.months == 0 && p.Moves()
    ensures var t :=
              Mktime(p.start) + NextIndex(Mktime(p.start), p.StepSeconds(), CeilSecond(tvFrom)) * p.StepSeconds();
            NextPoint(p, tvFrom) == if t <= p.EndTime() then Some(t) else None
  {
    var start, s, lo := Mktime(p.start), p.StepSeconds(), CeilSecond(tvFrom);
    var n := NextIndex(start, s, lo);
    RoundedUp(start, s, lo);
    OrbitWithoutMonths(p, n);
    if n > 0 { OrbitWithoutMonths(p, n - 1); }
    OrbitStop(p, tvFrom, n, Orbit(p, n));
  }

  lemma RoundedUp(start: int, step: int, lo: int)
    requires 0 < step
    ensures var n := NextIndex(start, step, lo); lo <= start + n * step && (n > 0 ==> start + (n - 1) * step < lo)
  {
  }

  // ---------- plans with months alone ----------

  ghost predicate MonthsOnly(p: Plan) {
    p.Valid() && p.weeks == p.days == p.hours == p.minutes == 0
  }

  function NthMonth(p: Plan, n: nat): int { p.start.Month() + n * p.months }

  /** Every month reached by then has the day asked for. */
  ghost predicate MonthsLongEnough(p: Plan, n: nat) {
    forall i: nat | i <= n :: p.start.mday <= DaysIn(NthMonth(p, i))
  }

  ghost function DayOfPoint(p: Plan, n: nat): int { Localtime(Orbit(p, n)).mday }

  ghost predicate SameDayOfMonth(p: Plan, n: nat) {
    forall i: nat | i <= n :: DayOfPoint(p, i) == p.start.mday
  }

  /** The point of the n-th month with the start's day and time. */
  function DayInMonth(p: Plan, n: nat): Tm {
    p.start.(year := NthMonth(p, n) / 12 - 1900, mon := NthMonth(p, n) % 12)
  }

  lemma DayInMonthStep(p: Plan, n: nat)
    requires MonthsOnly(p) && p.start.mday <= DaysIn(NthMonth(p, n))
    ensures DayInMonth(p, n).IsDate() && DayInMonth(p, n).Month() == NthMonth(p, n)
    ensures Step(p, Mktime(DayInMonth(p, n))) == Mktime(DayInMonth(p, n + 1))
  {
    hide MonthStart, MonthOf, DaysIn, NthMonth;
    MonthOfNth(p, n);
    MonthOfNth(p, n + 1);
    LocaltimeMktime(DayInMonth(p, n));
    NextNthMonth(p, n);
  }

  lemma MonthOfNth(p: Plan, n: nat)
    ensures DayInMonth(p, n).Month() == NthMonth(p, n) && 0 <= DayInMonth(p, n).mon < 12
  {
    hide NthMonth;
    var k := NthMonth(p, n);
    assert k == 12 * (k / 12) + k % 12;
  }

  lemma NextNthMonth(p: Plan, n: nat)
    ensures NthMonth(p, n + 1) == NthMonth(p, n) + p.months
  {
    assert (n + 1) * p.months == n * p.months + p.months;
  }

  /** While the months are long enough, each point is in its month on the start's day, at the start's time. */
  lemma {:induction false} OrbitOfMonths(p: Plan, n: nat)
    requires MonthsOnly(p) && (n > 0 ==> MonthsLongEnough(p, n - 1))
    ensures Orbit(p, n) == Mktime(DayInMonth(p, n))
  {
    if n == 0 {
      assert NthMonth(p, 0) == p.start.Month();
      assert DayInMonth(p, 0) == p.start;
    } else {
      OrbitOfMonths(p, n - 1);
      DayInMonthStep(p, n - 1);
    }
  }

  lemma DayKept(p: Plan, n: nat)
    requires MonthsOnly(p) && (n > 0 ==> MonthsLongEnough(p, n - 1))
    ensures DayOfPoint(p, n) == p.start.mday <==> p.start.mday <= DaysIn(NthMonth(p, n))
  {
    var tm, k := DayInMonth(p, n), NthMonth(p, n);
    hide MonthStart, MonthOf, Orbit;
    OrbitOfMonths(p, n);
    assert tm.Month() == k;
    if p.start.mday <= DaysIn(k) {
      LocaltimeMktime(tm);
    } else {
      var over := FirstDays(tm, p.start.mday - DaysIn(k));
      MonthStep(k);
      LocaltimeMktime(over);
    }
  }

  /** The days of a month that spill over into the next one. */
  function FirstDays(tm: Tm, mday: int): Tm {
    tm.(year := (tm.Month() + 1) / 12 - 1900, mon := (tm.Month() + 1) % 12, mday := mday)
  }

  /** A plan of months keeps its day of the month exactly as long as every month it reaches has that day. */
  lemma {:induction false} DayKeptIffMonthsLongEnough(p: Plan, n: nat)
    requires MonthsOnly(p)
    ensures SameDayOfMonth(p, n) <==> MonthsLongEnough(p, n)
  {
    hide DayOfPoint, DaysIn;
    if n > 0 {
      DayKeptIffMonthsLongEnough(p, n - 1);
    }
    if n == 0 || MonthsLongEnough(p, n - 1) {
      DayKept(p, n);
    }
  }

  /** So a start on day 28 or earlier never drifts. */
  lemma NoDriftUpTo28(p: Plan, n: nat)
    requires MonthsOnly(p) && p.start.mday <= 28
    ensures Localtime(Orbit(p, n)) == Normalise(DayInMonth(p, n)) && Localtime(Orbit(p, n)).mday == p.start.mday
    ensures Localtime(Orbit(p, n)).TimeOfDay() == p.start.TimeOfDay()
  {
    OrbitOfMonths(p, n);
    DayInMonthStep(p, n);
    LocaltimeMktime(DayInMonth(p, n));
  }

  /** Two points of a plan are a minute apart or more. */
  lemma PointsApart(p: Plan, t: int, u: int)
    requires Points(p)(t) && Points(p)(u) && t < u
    ensures t + 60 <= u
  {
    hide Step;
    var step, x := v => Step(p, v), Mktime(p.start);
    var m: nat :| Iterate(step, x, m) == t;
    var n: nat :| Iterate(step, x, n) == u;
    forall v ensures if p.Moves() then v + 60 <= step(v) else v == step(v) {
      StepForward(p, v);
    }
    if !p.Moves() {
      IterateRests(step, x, m);
      IterateRests(step, x, n);
    } else if n <= m {
      IterateForward(step, x, n, m);
    } else {
      IterateForward(step, x, m, n - 1);
    }
  }
}
