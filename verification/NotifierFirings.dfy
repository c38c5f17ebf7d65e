/**
 Firings that follow one another: what a settled timer is armed for, that from an activation on, while no plan is added,
 each occurrence is called exactly once and in order, and when a point is called for again.
 */
module NotifierFirings {
  import opened Prelude
  import opened Timeplans
  import opened AlarmNotifier
  import opened NotifierRuns

  // ---------- firings that follow one another ----------

  /** The timer is armed 750 ms after point m, in time. */
  predicate SettledAt(r: Run, m: int) {
    r.s.timer == Some(1000000 * m + TOLERANCE) && r.deadline == r.s.timer.value + LATENCY
  }

  function PointOf(r: Run): int
    requires r.s.timer.Some?
  {
    (r.s.timer.value - TOLERANCE) / 1000000
  }

  /** The timer is off, or settled with what is due at its point. */
  ghost predicate Settled(r: Run) {
    r.s.timer.Some? ==> SettledAt(r, PointOf(r)) && forall id | id in r.due :: r.due[id] == PointOf(r)
  }

  /** Whenever it is asked, an activation arms for a point not yet stepped past. */
  lemma ActivationSettles(s: State, from: int, r': Run)
    requires PlansValid(s.plans) && IsClock(from) && s.timer == None && ActivatedRun(s, from, r')
    ensures Settled(r') && (r'.s.timer.Some? ==> S.RoundToSecond(from) <= PointOf(r'))
  {
    hide Occurs, NextPoint, PlansValid, S.RoundToSecond, IsLeast, ArmedRun;
    if !(NoPoint(s.plans, from) && r'.s == s.(alarmed := multiset{}) && r'.due == map[]) {
      var m :| IsLeast(s.plans, from, m) && ArmedRun(s, from, m, r');
      LeastIsNotPast(s.plans, from, m);
      ArmedSettles(s, from, m, r');
    }
  }

  lemma LeastIsNotPast(plans: map<string, Entry>, from: int, m: int)
    requires PlansValid(plans) && IsClock(from) && IsLeast(plans, from, m)
    ensures S.RoundToSecond(from) <= m
  {
    hide Occurs, NextPoint, PlansValid, S.RoundToSecond;
    var id :| id in DueIds(plans, from, m);
    OneValid(plans, id);
    NextPointIsNext(plans[id].plan, from);
  }

  lemma ArmedSettles(s: State, from: int, m: int, r': Run)
    requires ArmedRun(s, from, m, r') && S.RoundToSecond(from) <= m
    ensures r'.s.timer.Some? && PointOf(r') == m && Settled(r')
  {
    hide NextPoint;
  }

  /** However late, a firing leaves the timer off or settled, even if it came at an exact point itself. */
  lemma FiringSettles(rs: seq<Run>, es: seq<Event>, k: nat)
    requires IsAnyRun(rs, es) && k < |es| && es[k].Fire?
    ensures Settled(rs[k + 1]) && (rs[k + 1].s.timer.Some? ==> es[k].at < rs[k + 1].s.timer.value)
  {
    AnyRunSane(rs, es, k);
    assert AnyStep(rs[k], es[k], rs[k + 1]);
    hide IsAnyRun, NextPoint, Occurs, PlansValid, ActivatedRun, Settled, S.RoundToSecond, RoomToFire;
    ActivationSettles(rs[k].s.(armed := 0, timer := None, ongoing := false), es[k].at, rs[k + 1]);
    if rs[k + 1].s.timer.Some? { PointAhead(rs[k + 1], es[k].at); }
  }

  ghost predicate NothingAfter(plans: map<string, Entry>, m: int) {
    forall id, u | id in plans && Occurs(plans[id].plan, u) :: u <= m
  }

  ghost predicate NothingBetween(plans: map<string, Entry>, m: int, n: int) {
    forall id, u | id in plans && Occurs(plans[id].plan, u) :: !(m < u < n)
  }

  /** What a plan answers after the firing for m. */
  ghost predicate AnswersAfter(plan: Timeplan, m: int, at: int) {
    match NextPoint(plan, at)
    case Some(p) =>
      && m < p && (forall u | Occurs(plan, u) && m < u :: p <= u)
      && (Occurs(plan, p) <==> !NamesStray(plan, at))
    case None => forall u | Occurs(plan, u) :: u <= m
  }

  ghost predicate AllAnswerAfter(plans: map<string, Entry>, m: int, at: int) {
    forall id | id in plans :: AnswersAfter(plans[id].plan, m, at)
  }

  /** Handled 750 ms after the point, a firing asks every plan for what follows the point. */
  lemma AskedAfterPoint(plan: Timeplan, m: int, at: int)
    requires plan.Valid() && IsClock(at) && 1000000 * m + TOLERANCE <= at < 1000000 * (m + 1)
    ensures AnswersAfter(plan, m, at)
  {
    hide NextPoint, Occurs, NamesStray;
    NextPointIsNext(plan, at);
  }

  /** All that occur at n are due then; what else is due is a stray point of its plan. */
  ghost predicate DueExactly(r: Run, n: int, at: int) {
    forall id | id in r.s.plans ::
      && (Occurs(r.s.plans[id].plan, n) ==> id in r.due)
      && (id in r.due ==> r.due[id] == n && (Occurs(r.s.plans[id].plan, n) <==> !NamesStray(r.s.plans[id].plan, at)))
  }

  /** From a settled timer, a firing arms for the next point of any plan, with all that occur then, and skips none. */
  lemma NextFiring(r: Run, m: int, at: int, r': Run)
    requires PlansValid(r.s.plans) && SettledAt(r, m) && Step(r, Fire(at), r')
    ensures r'.s.plans == r.s.plans && r'.calls == r.calls + CallsAt(r, at)
    ensures if r'.s.timer.None? then NothingAfter(r.s.plans, m)
            else
              var n := PointOf(r');
              m < n && SettledAt(r', n) && NothingBetween(r.s.plans, m, n) && DueExactly(r', n, at)
  {
    hide NextPoint, Occurs, NamesStray, Timeplan.Valid, IsLeast, ArmedRun, NoPoint, AnswersAfter, CallsAt, NothingAfter,
         NothingBetween, DueExactly, RoomToFire;
    var s := r.s.(armed := 0, timer := None, ongoing := false);
    assert AllAnswerAfter(s.plans, m, at) by {
      forall id | id in s.plans ensures AnswersAfter(s.plans[id].plan, m, at) {
        AskedAfterPoint(s.plans[id].plan, m, at);
      }
    }
    if NoPoint(s.plans, at) && r'.s == s.(alarmed := multiset{}) && r'.due == map[] {
      NoPointAfter(s.plans, m, at);
    } else {
      var n :| IsLeast(s.plans, at, n) && ArmedRun(s, at, n, r');
      LeastAfter(s.plans, m, at, n);
      ArmedAfter(s, at, m, n, r');
    }
  }

  lemma NoPointAfter(plans: map<string, Entry>, m: int, at: int)
    requires AllAnswerAfter(plans, m, at) && NoPoint(plans, at)
    ensures NothingAfter(plans, m)
  {
    hide NextPoint, Occurs, NamesStray;
  }

  lemma LeastAfter(plans: map<string, Entry>, m: int, at: int, n: int)
    requires AllAnswerAfter(plans, m, at) && IsLeast(plans, at, n)
    ensures m < n && NothingBetween(plans, m, n)
    ensures forall id | id in plans :: Occurs(plans[id].plan, n) ==> id in DueIds(plans, at, n)
    ensures forall id | id in DueIds(plans, at, n) :: Occurs(plans[id].plan, n) <==> !NamesStray(plans[id].plan, at)
  {
    hide NextPoint, Occurs, NamesStray;
    var first :| first in DueIds(plans, at, n);
    assert AnswersAfter(plans[first].plan, m, at);
    forall id, u | id in plans && Occurs(plans[id].plan, u) && m < u
      ensures n <= u && (u == n ==> id in DueIds(plans, at, n))
    {
      assert AnswersAfter(plans[id].plan, m, at);
    }
    forall id | id in DueIds(plans, at, n) ensures Occurs(plans[id].plan, n) <==> !NamesStray(plans[id].plan, at) {
      assert AnswersAfter(plans[id].plan, m, at);
    }
  }

  lemma ArmedAfter(s: State, at: int, m: int, n: int, r': Run)
    requires ArmedRun(s, at, n, r') && m < n && at < 1000000 * (m + 1)
    requires forall id | id in s.plans :: Occurs(s.plans[id].plan, n) ==> id in DueIds(s.plans, at, n)
    requires forall id | id in DueIds(s.plans, at, n) ::
               Occurs(s.plans[id].plan, n) <==> !NamesStray(s.plans[id].plan, at)
    ensures SettledAt(r', n) && PointOf(r') == n && DueExactly(r', n, at) && r'.s.plans == s.plans
  {
    hide NextPoint, Occurs, NamesStray;
  }

  // ---------- exactly once ----------

  /** The run as seen from an instant on: calls after it count, and occurrences from it on are promised. */
  ghost function Since(r: Run, from: int): Run {
    r.(registered := map id | id in r.registered :: from, calls := set c | c in r.calls && from < c.at)
  }

  /**
   The timer is settled, every call was made 750 ms after its point or later, and each later call is for a later point.
   */
  ghost predicate Orderly(r: Run, from: int) {
    && Settled(r)
    && (r.s.timer.Some? ==> from < r.s.timer.value)
    && (forall c | c in r.calls :: CalledLate(c) && c.at <= r.time && (r.s.timer.Some? ==> c.due < PointOf(r)))
    && (forall c, d | c in r.calls && d in r.calls :: InOrder(c, d))
  }

  predicate CalledLate(c: Call) { 1000000 * c.due + TOLERANCE <= c.at < 1000000 * (c.due + 1) }

  predicate InOrder(c: Call, d: Call) {
    (c.at < d.at <==> c.due < d.due) && (c.id == d.id && c.due == d.due ==> c == d)
  }

  /** What is asked for from then on is behind every call made. */
  lemma AskedAfterCall(c: Call, at: int)
    requires CalledLate(c) && c.at <= at
    ensures c.due < S.RoundToSecond(at)
  {
  }

  lemma FireOrderly(r: Run, from: int, at: int, r': Run)
    requires PlansValid(r.s.plans) && Orderly(r, from) && Step(r, Fire(at), r')
    ensures Orderly(r', from)
  {
    hide NextPoint, PlansValid, S.RoundToSecond, RoomToFire, ActivatedRun, InOrder, CalledLate, Settled;
    ActivationSettles(r.s.(armed := 0, timer := None, ongoing := false), at, r');
    forall c | c in r'.calls ensures CalledLate(c) && c.at <= at && (r'.s.timer.Some? ==> c.due < PointOf(r')) {
      if c in CallsAt(r, at) { NewCall(r, at, c); }
      AskedAfterCall(c, at);
    }
    forall c, d | c in r'.calls && d in r'.calls ensures InOrder(c, d) {
      if c in CallsAt(r, at) { NewCall(r, at, c); }
      if d in CallsAt(r, at) { NewCall(r, at, d); }
      if !(c in r.calls && d in r.calls) { NewInOrder(r, at, c, d); }
    }
    if r'.s.timer.Some? { PointAhead(r', at); }
  }

  lemma PointAhead(r: Run, at: int)
    requires r.s.timer.Some? && Settled(r) && S.RoundToSecond(at) <= PointOf(r)
    ensures at < r.s.timer.value
  {
  }

  lemma NewCall(r: Run, at: int, c: Call)
    requires Settled(r) && r.s.timer.Some? && r.s.timer.value <= at < r.deadline && c in CallsAt(r, at)
    ensures CalledLate(c) && c.at == at && c.due == PointOf(r) && c.id in r.due && c.id in r.s.plans
    ensures c == CallOf(r, c.id, at)
  {
  }

  lemma NewInOrder(r: Run, at: int, c: Call, d: Call)
    requires Settled(r) && r.s.timer.Some? && r.s.timer.value <= at < r.deadline
    requires forall x | x in {c, d} && x in CallsAt(r, at) ::
               && x.at == at && x.due == PointOf(r) && x.id in r.due
               && x.id in r.s.plans && x == CallOf(r, x.id, at)
    requires forall x | x in {c, d} && x !in CallsAt(r, at) :: CalledLate(x) && x.due < PointOf(r)
    requires c in CallsAt(r, at) || d in CallsAt(r, at)
    ensures InOrder(c, d)
  {
    hide CallsAt;
  }

  lemma RemoveOrderly(r: Run, from: int, id: string, at: int, r': Run)
    requires r.s.Valid() && Orderly(r, from) && from <= r.time && Step(r, Remove(id, at), r')
    ensures Orderly(r', from)
  {
    hide NextPoint, PlansValid, AlarmsValid, S.RoundToSecond, RoomToRemove, ActivatedRun, InOrder, CalledLate;
    var t := r.s.(plans := r.s.plans - {id}, alarmed := r.s.alarmed[id := 0]);
    if r.s.alarmed != multiset{} && t.alarmed == multiset{} {
      RemoveStepValid(r.s, id, t);
      ActivationSettles(t.(armed := 0, timer := None), at, r');
      forall c | c in r'.calls ensures c.at <= at && (r'.s.timer.Some? ==> c.due < PointOf(r')) {
        AskedAfterCall(c, at);
      }
      if r'.s.timer.Some? { PointAhead(r', at); }
    }
  }

  /** An activation starts such a run afresh: nothing called yet, and all occurrences from then on still ahead. */
  lemma SinceActivation(r: Run, e: Event, r': Run)
    requires Sane(r) && AnyStep(r, e, r') && Activates(r, e)
    ensures Inv(Since(r', e.at)) && Orderly(Since(r', e.at), e.at)
  {
    hide Inv, Orderly, Sane, ActivatedRun, RoomToFire, RoomToRemove, PlansValid, AlarmsValid;
    AnyStepSane(r, e, r');
    match e {
      case Fire(at) =>
        FiredBy(r, at, r');
        ActivatedSince(r.s.(armed := 0, timer := None, ongoing := false), at, r');
      case Remove(id, at) =>
        var t := r.s.(plans := r.s.plans - {id}, alarmed := r.s.alarmed[id := 0]);
        RemovedBy(r, id, at, r');
        ActivatedSince(t.(armed := 0, timer := None), at, r');
    }
  }

  lemma FiredBy(r: Run, at: int, r': Run)
    requires Sane(r) && AnyStep(r, Fire(at), r')
    ensures r.s.Valid() && r.s.isOpen
  {
    hide ActivatedRun, RoomToFire, PlansValid, AlarmsValid;
  }

  lemma RemovedBy(r: Run, id: string, at: int, r': Run)
    requires Sane(r) && AnyStep(r, Remove(id, at), r')
    ensures r.s.isOpen && !r.s.ongoing
    ensures r.s.(plans := r.s.plans - {id}, alarmed := r.s.alarmed[id := 0], armed := 0, timer := None).Valid()
  {
    hide ActivatedRun, RoomToRemove, PlansValid;
    RemoveStepValid(r.s, id,
                    r.s.(plans := r.s.plans - {id}, alarmed := r.s.alarmed[id := 0], armed := 0, timer := None));
  }

  lemma ActivatedSince(s: State, from: int, r': Run)
    requires Sane(r') && s.Valid() && s.isOpen && s.timer == None && !s.ongoing && IsClock(from)
    requires ActivatedRun(s, from, r') && r'.time == from
    ensures Inv(Since(r', from)) && Orderly(Since(r', from), from)
  {
    hide Occurs, NextPoint, AheadOfTimer, Armed, PlansValid, AlarmsValid, DueNear, RoomToFire, S.RoundToSecond,
         ActivatedRun, Settled;
    var since := Since(r', from);
    assert since.calls == {};
    ActivationSettles(s, from, r');
    SamePlans(s, from, r');
    SameActivation(s, from, r', since);
    ActivationShape(s, from, since);
    ActivationNamed(s, from, since);
    forall id, u | Promised(since, id, u) ensures AheadOfTimer(since.s, id, u) {
      AheadAfterActivation(s, from, since, id, u);
    }
    SettledSince(r', from);
    if since.s.timer.Some? { PointAhead(since, from); }
  }

  lemma SamePlans(s: State, from: int, r: Run)
    requires ActivatedRun(s, from, r)
    ensures r.s.plans == s.plans
  {
    hide NextPoint, IsLeast;
  }

  lemma SameActivation(s: State, from: int, r: Run, r': Run)
    requires ActivatedRun(s, from, r) && r'.s == r.s && r'.due == r.due && r'.deadline == r.deadline
    ensures ActivatedRun(s, from, r')
  {
    hide NextPoint, IsLeast;
    if !(NoPoint(s.plans, from) && r.s == s.(alarmed := multiset{}) && r.due == map[]) {
      var m :| IsLeast(s.plans, from, m) && ArmedRun(s, from, m, r);
      assert ArmedRun(s, from, m, r');
    }
  }

  lemma SettledSince(r: Run, from: int)
    ensures Settled(Since(r, from)) == Settled(r) && (r.s.timer.Some? ==> PointOf(Since(r, from)) == PointOf(r))
  {
  }

  /** It steps as the run does. */
  lemma SinceStep(r: Run, from: int, e: Event, r': Run)
    requires Step(r, e, r') && !e.Add? && (r.s.timer.Some? ==> from < r.s.timer.value)
    ensures Step(Since(r, from), e, Since(r', from))
  {
    hide RoomToFire, RoomToRemove, ActivatedRun, RemoveStatus, IsClock;
    var since, since' := Since(r, from), Since(r', from);
    match e {
      case Fire(at) =>
        assert CallsAt(since, at) == CallsAt(r, at);
        assert forall c | c in CallsAt(r, at) :: from < c.at;
        assert since'.calls == since.calls + CallsAt(since, at);
        SameActivation(r.s.(armed := 0, timer := None, ongoing := false), at, r', since');
      case Remove(id, at) =>
        assert since'.registered == since.registered - {id};
        var t := r.s.(plans := r.s.plans - {id}, alarmed := r.s.alarmed[id := 0]);
        if r.s.alarmed != multiset{} && t.alarmed == multiset{} {
          SameActivation(t.(armed := 0, timer := None), at, r', since');
        }
    }
  }

  /** A firing activates the timer anew, and so does the removal of the only alarmed plan. */
  predicate Activates(r: Run, e: Event) {
    e.Fire? || (e.Remove? && r.s.alarmed != multiset{} && r.s.alarmed[e.id := 0] == multiset{})
  }

  /** From the activation at k on, firings are in time, plans are removed but none is added, up to the state at j. */
  ghost predicate IsSuffix(rs: seq<Run>, es: seq<Event>, k: nat, j: nat) {
    && IsAnyRun(rs, es) && k < j < |rs| && Activates(rs[k], es[k])
    && forall i | k < i < j :: !es[i].Add? && OnTime(rs[i], es[i])
  }

  lemma {:induction false} SuffixInv(rs: seq<Run>, es: seq<Event>, k: nat, j: nat)
    requires IsSuffix(rs, es, k, j)
    ensures es[k].at <= rs[j].time && Inv(Since(rs[j], es[k].at)) && Orderly(Since(rs[j], es[k].at), es[k].at)
    decreases j
  {
    hide AnyStep, Inv, Orderly;
    var from := es[k].at;
    assert AnyStep(rs[j - 1], es[j - 1], rs[j]);
    StepTime(rs[j - 1], es[j - 1], rs[j]);
    if j == k + 1 {
      AnyRunSane(rs, es, k);
      SinceActivation(rs[k], es[k], rs[j]);
    } else {
      SuffixInv(rs, es, k, j - 1);
      OrderlyTimer(rs[j - 1], from);
      SinceStep(rs[j - 1], from, es[j - 1], rs[j]);
      StepKeeps(Since(rs[j - 1], from), es[j - 1], Since(rs[j], from));
      OrderlyKept(Since(rs[j - 1], from), from, es[j - 1], Since(rs[j], from));
    }
  }

  lemma StepTime(r: Run, e: Event, r': Run)
    requires AnyStep(r, e, r')
    ensures r.time <= r'.time == e.at
  {
  }

  lemma OrderlyTimer(r: Run, from: int)
    requires Orderly(Since(r, from), from)
    ensures r.s.timer.Some? ==> from < r.s.timer.value
  {
  }

  lemma OrderlyKept(r: Run, from: int, e: Event, r': Run)
    requires Inv(r) && Orderly(r, from) && from <= r.time && Step(r, e, r') && !e.Add?
    ensures Orderly(r', from)
  {
    hide Orderly, Step;
    match e {
      case Fire(at) => FireOrderly(r, from, at, r');
      case Remove(id, at) => RemoveOrderly(r, from, id, at, r');
    }
  }

  /**
   After an activation, whatever came before, and while no plan is added and firings are in time, calls are for later
   and later points, one call a plan and point.
   */
  lemma CallsInOrder(rs: seq<Run>, es: seq<Event>, k: nat, j: nat, c: Call, d: Call)
    requires IsSuffix(rs, es, k, j) && c in rs[j].calls && d in rs[j].calls && es[k].at < c.at && es[k].at < d.at
    ensures c.at < d.at <==> c.due < d.due
    ensures c.id == d.id && c.due == d.due ==> c == d
  {
    hide AnyStep, Start, Inv, Settled, CalledLate;
    SuffixInv(rs, es, k, j);
    var since := Since(rs[j], es[k].at);
    assert c in since.calls && d in since.calls;
    assert InOrder(c, d);
  }

  /**
   After an activation, whatever came before, and while no plan is added and firings are in time, each occurrence from
   then on of each plan still registered is called exactly once: once a second has passed, there is one call for it and
   no other.
   */
  lemma ExactlyOnce(rs: seq<Run>, es: seq<Event>, k: nat, j: nat, id: string, u: int)
    requires IsSuffix(rs, es, k, j) && id in rs[j].s.plans && Occurs(rs[j].s.plans[id].plan, u)
    requires es[k].at <= 1000000 * u && 1000000 * (u + 1) <= rs[j].time
    ensures exists c ::
              && c in rs[j].calls && es[k].at < c.at && c.id == id && c.plan == rs[j].s.plans[id].plan && c.due == u
              && InTime(c, u)
              && forall d | d in rs[j].calls && es[k].at < d.at && d.id == id && d.due == u :: d == c
  {
    hide AnyStep, Start, Inv, Orderly, Occurs, InTime;
    var since := Since(rs[j], es[k].at);
    SuffixInv(rs, es, k, j);
    CalledSince(since, id, u);
    var c :| Answers(since, id, u, c);
    forall d | d in rs[j].calls && es[k].at < d.at && d.id == id && d.due == u ensures d == c {
      CallsInOrder(rs, es, k, j, c, d);
    }
  }

  lemma CalledSince(r: Run, id: string, u: int)
    requires Inv(r) && id in r.s.plans && Occurs(r.s.plans[id].plan, u) && 1000000 * (u + 1) <= r.time
    requires forall i | i in r.registered :: r.registered[i] <= 1000000 * u
    ensures Answered(r, id, u)
  {
    assert Promised(r, id, u) by { hide Occurs; }
    hide Inv, Answered, AheadOfTimer, Occurs;
    AnsweredOrAhead(r, id, u);
    if !Answered(r, id, u) { AheadIsRecent(r, id, u); }
  }

  // ---------- naming a point again ----------

  /**
   In every run, a firing alarms the point that it calls for once more exactly if the plan's rounding does not step past
   it: a calendar plan's before half a second, another plan's not after the point itself.
   */
  lemma AlarmsItAgainIff(rs: seq<Run>, es: seq<Event>, k: nat, id: string)
    requires IsRun(rs, es) && k < |es| && es[k].Fire?
    requires id in rs[k].due && id in rs[k].s.plans && Occurs(rs[k].s.plans[id].plan, rs[k].due[id])
    ensures var u, at, again := rs[k].due[id], es[k].at, rs[k + 1].due;
            (id in again && again[id] == u) <==>
              if rs[k].s.plans[id].plan.Calendar? then S.RoundToSecond(at) <= u else at <= 1000000 * u
  {
    var r, u, at := rs[k], rs[k].due[id], es[k].at;
    RunInv(rs, es, k);
    assert Step(rs[k], es[k], rs[k + 1]);
    hide IsRun, Inv, Step, Occurs, NextPoint;
    NearIts(r, id, at, rs[k + 1]);
    var plan := r.s.plans[id].plan;
    NamesItAgainIff(plan, u, at);
    NamedAgainIsLeast(r, id, at, rs[k + 1]);
  }

  /** A firing comes from 250 ms before what is due to less than a second after it. */
  lemma NearIts(r: Run, id: string, at: int, r': Run)
    requires Inv(r) && Step(r, Fire(at), r') && id in r.due && id in r.s.plans
    ensures r.s.plans[id].plan.Valid() && IsClock(at) && 1000000 * r.due[id] - LATENCY <= at < 1000000 * (r.due[id] + 1)
  {
    hide FireRun, RoomToFire, NoneLost, DueNamed, CallsInTime, AlarmsValid, PlansValid, Near, Timeplan.Valid;
    OneValid(r.s.plans, id);
    assert Near(r.due[id], r.s.timer.value);
    NearInTime(r.due[id], r.s.timer.value, r.deadline, at);
  }

  lemma NearInTime(p: int, armed: int, deadline: int, at: int)
    requires Near(p, armed) && armed <= at < deadline
    requires deadline <= armed + LATENCY + if armed % 1000000 == 0 then 499999 else 0
    ensures 1000000 * p - LATENCY <= at < 1000000 * (p + 1)
  {
  }

  /** What is named again is the least that any plan names. */
  lemma NamedAgainIsLeast(r: Run, id: string, at: int, r': Run)
    requires Inv(r) && Step(r, Fire(at), r') && id in r.due && id in r.s.plans
    requires 1000000 * r.due[id] - LATENCY <= at
    ensures (id in r'.due && r'.due[id] == r.due[id]) <==> NextPoint(r.s.plans[id].plan, at) == Some(r.due[id])
  {
    hide NextPoint, RoomToFire, NoneLost, DueNamed, CallsInTime, AlarmsValid, PlansValid, Occurs, Armed, DueNear;
    var s := r.s.(armed := 0, timer := None, ongoing := false);
    if !(NoPoint(s.plans, at) && r'.s == s.(alarmed := multiset{}) && r'.due == map[]) {
      var m :| IsLeast(s.plans, at, m) && ArmedRun(s, at, m, r');
      LeastIsNotPast(s.plans, at, m);
    }
  }

  lemma OnePlan(plans: map<string, Entry>, id: string, e: Entry, from: int)
    requires plans == map[id := e]
    ensures RoomFor(plans, from) && DueIds(plans, from, 0) <= {id}
    ensures match NextPoint(e.plan, from)
            case Some(p) => IsLeast(plans, from, p) && DueIds(plans, from, p) == {id}
            case None => NoPoint(plans, from)
  {
    hide NextPoint;
    forall m ensures |DueIds(plans, from, m)| <= 1 {
      assert DueIds(plans, from, m) <= {id};
      SubsetSize(DueIds(plans, from, m), {id});
    }
    if NextPoint(e.plan, from).Some? { assert id in DueIds(plans, from, NextPoint(e.plan, from).value); }
  }

  /** What an activation for a single plan makes of the run, when the plan names the point or none. */
  function OneActivated(r: Run, id: string, next: Option<int>, at: int, calls: set<Call>): Run {
    match next
    case Some(p) =>
      var a := 1000000 * p + TOLERANCE;
      Run(State(true, r.s.plans, multiset{id}, false, a, Some(a)), at, r.registered, map[id := p], Deadline(a, at),
          calls)
    case None => Run(State(true, r.s.plans, multiset{}, false, 0, None), at, r.registered, map[], 0, calls)
  }

  lemma OneFires(r: Run, id: string, e: Entry, p: int, at: int, r': Run)
    requires r.s.plans == map[id := e] && r.s.isOpen && r.s.alarmed == multiset{id} && r.due == map[id := p]
    requires r.s.timer.Some? && r.s.timer.value <= at < r.deadline && r.time <= at && IsClock(at)
    requires r' == OneActivated(r, id, NextPoint(e.plan, at), at, r.calls + {Call(id, e.plan, e.handler, at, p)})
    ensures Step(r, Fire(at), r')
  {
    hide NextPoint, DueIds;
    OnePlan(r.s.plans, id, e, at);
    var s := r.s.(armed := 0, timer := None, ongoing := false);
    if NextPoint(e.plan, at).Some? {
      var q := NextPoint(e.plan, at).value;
      assert multiset(DueIds(r.s.plans, at, q)) == multiset{id};
      assert (map i | i in DueIds(r.s.plans, at, q) :: q) == map[id := q];
      assert ArmedRun(s, at, q, r');
    }
    OneCall(r, id, e, p, at);
  }

  lemma OneAdded(r: Run, id: string, e: Entry, at: int, p: int, r': Run)
    requires r == Run(State(true, map[], multiset{}, false, 0, None), at, map[], map[], 0, {})
    requires e.plan.Valid() && IsClock(at) && NextPoint(e.plan, at) == Some(p)
    requires var a := 1000000 * p;
             r' == Run(State(true, map[id := e], multiset{id}, false, a, Some(a)), at, map[id := at], map[id := p],
                       Deadline(a, at), {})
    ensures Step(r, Add(id, e.plan, e.handler, at), r')
  {
    hide NextPoint, Timeplan.Valid, IsClock;
  }

  lemma OneCall(r: Run, id: string, e: Entry, p: int, at: int)
    requires r.s.plans == map[id := e] && r.due == map[id := p]
    ensures CallsAt(r, at) == {Call(id, e.plan, e.handler, at, p)}
  {
    assert id in r.due && id in r.s.plans && CallOf(r, id, at) == Call(id, e.plan, e.handler, at, p);
  }

  /**
   It does happen: any plan added alone, before the occurrence that it names, is called for it at the exact point, the
   firing alarms it again, and 750 ms later it is called for it once more.
   */
  lemma CalledTwice(id: string, e: Entry, at: int, p: int) returns (rs: seq<Run>, es: seq<Event>)
    requires e.plan.Valid() && IsClock(at) && IsClock(1000000 * p + TOLERANCE) && at < 1000000 * p
    requires NextPoint(e.plan, at) == Some(p) && Occurs(e.plan, p)
    ensures es == [Add(id, e.plan, e.handler, at), Fire(1000000 * p), Fire(1000000 * p + TOLERANCE)] && IsRun(rs, es)
    ensures rs[3].calls == {Call(id, e.plan, e.handler, 1000000 * p, p),
                            Call(id, e.plan, e.handler, 1000000 * p + TOLERANCE, p)}
  {
    hide NextPoint, Occurs, Step;
    var a, b := 1000000 * p, 1000000 * p + TOLERANCE;
    var start := Run(State(true, map[], multiset{}, false, 0, None), at, map[], map[], 0, {});
    var added := Run(State(true, map[id := e], multiset{id}, false, a, Some(a)), at, map[id := at], map[id := p],
                     Deadline(a, at), {});
    var calls := {Call(id, e.plan, e.handler, a, p)};
    var fired := OneActivated(added, id, Some(p), a, calls);
    var last := OneActivated(fired, id, NextPoint(e.plan, b), b, calls + {Call(id, e.plan, e.handler, b, p)});
    OneAdded(start, id, e, at, p, added);
    NamesItAgainIff(e.plan, p, a);
    hide IsClock, Timeplan.Valid;
    OneFires(added, id, e, p, a, fired);
    OneFires(fired, id, e, p, b, last);
    rs, es := [start, added, fired, last], [Add(id, e.plan, e.handler, at), Fire(a), Fire(b)];
  }

  // ---------- order in every run ----------

  /** What is due, and every later call, was named after each call. */
  ghost predicate Behind(r: Run) {
    && (forall c, id | c in r.calls && id in r.due :: S.RoundToSecond(c.at) <= r.due[id])
    && (forall c, d | c in r.calls && d in r.calls && c.at < d.at :: S.RoundToSecond(c.at) <= d.due)
  }

  ghost predicate DueFrom(r: Run, at: int) { forall id | id in r.due :: S.RoundToSecond(at) <= r.due[id] }

  lemma RoundMonotone(a: int, b: int)
    requires a <= b
    ensures S.RoundToSecond(a) <= S.RoundToSecond(b)
  {
  }

  lemma ActivationDueFrom(s: State, from: int, r': Run)
    requires PlansValid(s.plans) && IsClock(from) && ActivatedRun(s, from, r')
    ensures DueFrom(r', from)
  {
    hide NextPoint, PlansValid, S.RoundToSecond, IsLeast;
    if !(NoPoint(s.plans, from) && r'.s == s.(alarmed := multiset{}) && r'.due == map[]) {
      var m :| IsLeast(s.plans, from, m) && ArmedRun(s, from, m, r');
      LeastIsNotPast(s.plans, from, m);
    }
  }

  lemma BehindFromNow(r: Run, at: int)
    requires DueFrom(r, at) && forall c | c in r.calls :: c.at <= at
    ensures forall c, id | c in r.calls && id in r.due :: S.RoundToSecond(c.at) <= r.due[id]
  {
    hide S.RoundToSecond;
    forall c, id | c in r.calls && id in r.due ensures S.RoundToSecond(c.at) <= r.due[id] {
      RoundMonotone(c.at, at);
    }
  }

  lemma FireBehind(r: Run, at: int, r': Run)
    requires Sane(r) && Behind(r) && AnyStep(r, Fire(at), r')
    ensures Behind(r')
  {
    hide NextPoint, PlansValid, AlarmsValid, S.RoundToSecond, ActivatedRun, RoomToFire;
    ActivationDueFrom(r.s.(armed := 0, timer := None, ongoing := false), at, r');
    BehindFromNow(r', at);
  }

  lemma AddBehind(r: Run, id: string, e: Entry, at: int, r': Run)
    requires Sane(r) && Behind(r) && AnyStep(r, Add(id, e.plan, e.handler, at), r')
    ensures Behind(r')
  {
    hide NextPoint, PlansValid, AlarmsValid, S.RoundToSecond, Rearms, Joins, AddStep, Occurs, NamesStray;
    NextPointIsNext(e.plan, at);
    forall c | c in r.calls ensures S.RoundToSecond(c.at) <= S.RoundToSecond(at) {
      RoundMonotone(c.at, at);
    }
  }

  lemma RemoveBehind(r: Run, id: string, at: int, r': Run)
    requires Sane(r) && Behind(r) && AnyStep(r, Remove(id, at), r')
    ensures Behind(r')
  {
    hide NextPoint, PlansValid, AlarmsValid, S.RoundToSecond, ActivatedRun, RoomToRemove;
    var t := r.s.(plans := r.s.plans - {id}, alarmed := r.s.alarmed[id := 0]);
    if r.s.alarmed != multiset{} && t.alarmed == multiset{} {
      RemoveStepValid(r.s, id, t);
      ActivationDueFrom(t.(armed := 0, timer := None), at, r');
      BehindFromNow(r', at);
    }
  }

  lemma {:induction false} RunBehind(rs: seq<Run>, es: seq<Event>, i: nat)
    requires IsAnyRun(rs, es) && i < |rs|
    ensures Behind(rs[i])
  {
    hide AnyStep, Sane;
    if i > 0 {
      RunBehind(rs, es, i - 1);
      AnyRunSane(rs, es, i - 1);
      assert AnyStep(rs[i - 1], es[i - 1], rs[i]);
      match es[i - 1] {
        case Add(id, plan, handler, at) => AddBehind(rs[i - 1], id, Entry(plan, handler), at, rs[i]);
        case Remove(id, at) => RemoveBehind(rs[i - 1], id, at, rs[i]);
        case Fire(at) => FireBehind(rs[i - 1], at, rs[i]);
      }
    }
  }

  /**
   In every run, of any timing and with any additions, a call that comes half a second after its point or later is
   followed only by calls for later points: only a call before that can be repeated.
   */
  lemma LateCallsInOrder(rs: seq<Run>, es: seq<Event>, i: nat, c: Call, d: Call)
    requires IsAnyRun(rs, es) && i < |rs| && c in rs[i].calls && d in rs[i].calls
    requires 1000000 * c.due + 500000 <= c.at < d.at
    ensures c.due < d.due
  {
    hide IsAnyRun;
    RunBehind(rs, es, i);
  }
}
