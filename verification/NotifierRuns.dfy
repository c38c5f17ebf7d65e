/**
 The notifier over whole runs of added and removed plans and timer firings. Time never goes back; in runs that are in
 time, a firing is handled less than 250 ms after it is due, and plans are added while the armed instant is to come.
 */
module NotifierRuns {
  import opened Prelude
  import opened Timeplans
  import opened AlarmNotifier

  const LATENCY := 250000

  /** One handler call: whose, when, and for which point of the plan the id had been alarmed. */
  datatype Call = Call(id: string, plan: Timeplan, handler: Handler, at: int, due: int)

  datatype Event =
    Add(id: string, plan: Timeplan, handler: Handler, at: int) | Remove(id: string, at: int) | Fire(at: int)

  /** The notifier's state with the history that the properties speak of. */
  datatype Run =
    Run(s: State, time: int, registered: map<string, int>, due: map<string, int>, deadline: int, calls: set<Call>)

  function Deadline(armed: int, now: int): int { (if armed < now then now else armed) + LATENCY }

  // ---------- runs ----------

  /** The operation is not refused, or the timer has expired. */
  ghost predicate Allowed(r: Run, e: Event) {
    && r.time <= e.at && IsClock(e.at)
    && match e
       case Add(id, plan, handler, at) => plan.Valid() && AddStatus(r.s, id, Some(handler)) == Ok
       case Remove(id, at) => RemoveStatus(r.s, id) == Ok && RoomToRemove(r.s, id, at)
       case Fire(at) => r.s.timer.Some? && r.s.timer.value <= at && RoomToFire(r.s, at)
  }

  /** No firing is handled too late, and plans are added while the armed instant is still to come. */
  predicate OnTime(r: Run, e: Event) {
    r.s.timer.Some? ==> e.at < r.deadline && (e.Add? ==> e.at < r.s.timer.value)
  }

  /** An activation, with the due points of the ids it alarms and the time by which its firing is handled. */
  ghost predicate ActivatedRun(s: State, from: int, r': Run) {
    || (NoPoint(s.plans, from) && r'.s == s.(alarmed := multiset{}) && r'.due == map[])
    || (exists m :: IsLeast(s.plans, from, m) && ArmedRun(s, from, m, r'))
  }

  ghost predicate ArmedRun(s: State, from: int, m: int, r': Run) {
    && r'.s == ArmedFor(s, from, m)
    && r'.due == (map id | id in DueIds(s.plans, from, m) :: m)
    && r'.deadline == Deadline(1000000 * m + TOLERANCE, from)
  }

  function CallOf(r: Run, id: string, at: int): Call
    requires id in r.due && id in r.s.plans
  {
    Call(id, r.s.plans[id].plan, r.s.plans[id].handler, at, r.due[id])
  }

  ghost function CallsAt(r: Run, at: int): set<Call> {
    set id | id in r.due && id in r.s.plans :: CallOf(r, id, at)
  }

  ghost predicate AddRun(r: Run, id: string, e: Entry, at: int, r': Run) {
    && r'.s == AddStep(r.s, id, e, at)
    && r'.registered == r.registered[id := at]
    && r'.calls == r.calls
    && match NextPoint(e.plan, at)
       case None => r'.due == r.due && r'.deadline == r.deadline
       case Some(p) =>
         if Rearms(r.s, p, at) then r'.due == map[id := p] && r'.deadline == Deadline(1000000 * p, at)
         else r'.deadline == r.deadline && r'.due == if Joins(r.s, p, at) then r.due[id := p] else r.due
  }

  ghost predicate RemoveRun(r: Run, id: string, at: int, r': Run) {
    var t := r.s.(plans := r.s.plans - {id}, alarmed := r.s.alarmed[id := 0]);
    && r'.registered == r.registered - {id}
    && r'.calls == r.calls
    && if r.s.alarmed != multiset{} && t.alarmed == multiset{} then ActivatedRun(t.(armed := 0, timer := None), at, r')
       else r'.s == t && r'.due == r.due - {id} && r'.deadline == r.deadline
  }

  ghost predicate FireRun(r: Run, at: int, r': Run) {
    && ActivatedRun(r.s.(armed := 0, timer := None, ongoing := false), at, r')
    && r'.registered == r.registered
    && r'.calls == r.calls + CallsAt(r, at)
  }

  /** What an operation or a firing does, whenever it comes. */
  ghost predicate AnyStep(r: Run, e: Event, r': Run) {
    && Allowed(r, e) && r'.time == e.at
    && match e
       case Add(id, plan, handler, at) => AddRun(r, id, Entry(plan, handler), at, r')
       case Remove(id, at) => RemoveRun(r, id, at, r')
       case Fire(at) => FireRun(r, at, r')
  }

  ghost predicate Step(r: Run, e: Event, r': Run) { AnyStep(r, e, r') && OnTime(r, e) }

  ghost predicate Start(r: Run) {
    r.s == State(true, map[], multiset{}, false, 0, None) && r.registered == map[] && r.due == map[] && r.calls == {}
  }

  /** A run of which no timing is asked but that the clock does not go back. */
  ghost predicate IsAnyRun(rs: seq<Run>, es: seq<Event>) {
    && |rs| == |es| + 1 && Start(rs[0])
    && forall i | 0 <= i < |es| :: AnyStep(rs[i], es[i], rs[i + 1])
  }

  ghost predicate IsRun(rs: seq<Run>, es: seq<Event>) {
    && |rs| == |es| + 1 && Start(rs[0])
    && forall i | 0 <= i < |es| :: Step(rs[i], es[i], rs[i + 1])
  }

  lemma ActivationStep(s: State, from: int, s': State, r: Run) returns (r': Run)
    requires Activated(s, from, s')
    ensures r' == r.(s := s', due := r'.due, deadline := r'.deadline) && ActivatedRun(s, from, r')
  {
    hide NextPoint;
    if NoPoint(s.plans, from) && s' == s.(alarmed := multiset{}) {
      r' := r.(s := s', due := map[]);
    } else {
      var m :| IsLeast(s.plans, from, m) && s' == ArmedFor(s, from, m);
      r' := r.(s := s', due := map id | id in DueIds(s.plans, from, m) :: m,
               deadline := Deadline(1000000 * m + TOLERANCE, from));
      assert ArmedRun(s, from, m, r');
    }
  }

  /** Every firing, and every removal and addition that is not refused, is a step of a run, in time or not. */
  lemma FiringIsStep(r: Run, at: int, s': State) returns (r': Run)
    requires Allowed(r, Fire(at)) && FireStep(r.s, at, s')
    ensures AnyStep(r, Fire(at), r') && r'.s == s'
  {
    hide Activated, ActivatedRun;
    r' := ActivationStep(r.s.(armed := 0, timer := None, ongoing := false), at, s',
                         r.(time := at, calls := r.calls + CallsAt(r, at)));
  }

  lemma RemovalIsStep(r: Run, id: string, at: int, s': State) returns (r': Run)
    requires Allowed(r, Remove(id, at)) && RemoveStep(r.s, id, at, s')
    ensures AnyStep(r, Remove(id, at), r') && r'.s == s'
  {
    hide Activated, ActivatedRun;
    var t := r.s.(plans := r.s.plans - {id}, alarmed := r.s.alarmed[id := 0]);
    r' := r.(time := at, registered := r.registered - {id});
    if r.s.alarmed != multiset{} && t.alarmed == multiset{} {
      r' := ActivationStep(t.(armed := 0, timer := None), at, s', r');
    } else {
      r' := r'.(s := t, due := r.due - {id});
    }
  }

  lemma AdditionIsStep(r: Run, id: string, e: Entry, at: int) returns (r': Run)
    requires Allowed(r, Add(id, e.plan, e.handler, at))
    ensures AnyStep(r, Add(id, e.plan, e.handler, at), r') && r'.s == AddStep(r.s, id, e, at)
  {
    hide NextPoint;
    r' := r.(s := AddStep(r.s, id, e, at), time := at, registered := r.registered[id := at]);
    match NextPoint(e.plan, at) {
      case None =>
      case Some(p) =>
        if Rearms(r.s, p, at) {
          r' := r'.(due := map[id := p], deadline := Deadline(1000000 * p, at));
        } else if Joins(r.s, p, at) {
          r' := r'.(due := r.due[id := p]);
        }
    }
  }

  // ---------- the invariant ----------

  /** The handler was called from 250 ms before the occurrence to less than a second after it. */
  predicate InTime(c: Call, point: int) {
    1000000 * point - LATENCY <= c.at < 1000000 * (point + 1)
  }

  /** The call is for this occurrence of the plan that is registered now. */
  predicate Answers(r: Run, id: string, u: int, c: Call) {
    && c in r.calls && c.id == id && c.due == u && InTime(c, u)
    && id in r.s.plans && c.plan == r.s.plans[id].plan && id in r.registered && r.registered[id] <= c.at
  }

  ghost predicate Answered(r: Run, id: string, u: int) { exists c :: Answers(r, id, u, c) }

  ghost predicate Shape(r: Run) {
    && r.s.Valid() && r.s.isOpen && !r.s.ongoing
    && r.registered.Keys == r.s.plans.Keys
    && (forall id | id in r.registered :: r.registered[id] <= r.time)
    && SameIds(r.due, r.s.alarmed)
    && (r.s.timer.None? ==> r.s.alarmed == multiset{})
  }

  ghost predicate SameIds(due: map<string, int>, alarmed: multiset<string>) {
    forall id :: id in due <==> id in alarmed
  }

  /** The armed instant is a point or 750 ms after one, and its firing has a deadline. */
  ghost predicate Armed(r: Run) {
    r.s.timer.Some? ==>
      var a := r.s.timer.value;
      && (a % 1000000 == 0 || a % 1000000 == TOLERANCE)
      && r.time < r.deadline <= a + LATENCY + (if a % 1000000 == 0 then 499999 else 0)
  }

  /** An alarmed id is due 750 ms before the armed instant, at it, or 250 ms after it. */
  ghost predicate DueNear(r: Run) { AllNear(r.due, r.s.timer) }

  ghost predicate AllNear(due: map<string, int>, timer: Option<int>) {
    forall id | id in due :: timer.Some? && Near(due[id], timer.value)
  }

  ghost predicate Near(p: int, armed: int) {
    1000000 * p - armed in {-TOLERANCE, 0, LATENCY}
  }

  /** The plan named the point when it was asked, not before `from` and not after `to`. */
  ghost predicate Named(plan: Timeplan, p: int, from: int, to: int) {
    exists t :: from <= t <= to && IsClock(t) && NextPoint(plan, t) == Some(p)
  }

  ghost predicate DueNamed(r: Run) {
    forall id | id in r.due && id in r.s.plans && id in r.registered ::
      Named(r.s.plans[id].plan, r.due[id], r.registered[id], r.time)
  }

  /** An occurrence of this plan that is not answered is still ahead of the timer, or is what the timer is armed for. */
  ghost predicate AheadOfTimer(s: State, id: string, u: int) {
    s.timer.Some? && (if id in s.alarmed then s.timer.value - TOLERANCE <= 1000000 * u else s.timer.value < 1000000 * u)
  }

  ghost predicate Promised(r: Run, id: string, u: int) {
    id in r.s.plans && id in r.registered && Occurs(r.s.plans[id].plan, u) && r.registered[id] <= 1000000 * u
  }

  ghost predicate NoneLost(r: Run) {
    forall id, u | Promised(r, id, u) :: Answered(r, id, u) || AheadOfTimer(r.s, id, u)
  }

  ghost predicate CallsInTime(r: Run) {
    forall c | c in r.calls :: c.at <= r.time && InTime(c, c.due) && Named(c.plan, c.due, 0, c.at)
  }

  ghost predicate Inv(r: Run) {
    Shape(r) && Armed(r) && DueNear(r) && DueNamed(r) && NoneLost(r) && CallsInTime(r)
  }

  // ---------- activations ----------

  /** After an activation every occurrence from then on is ahead of the timer. */
  lemma AheadAfterActivation(s: State, from: int, r': Run, id: string, u: int)
    requires PlansValid(s.plans) && IsClock(from) && ActivatedRun(s, from, r')
    requires id in s.plans && Occurs(s.plans[id].plan, u) && from <= 1000000 * u
    ensures AheadOfTimer(r'.s, id, u)
  {
    hide Occurs, NextPoint, IsLeast, ArmedRun, AheadOfTimer;
    NextPointIsNext(s.plans[id].plan, from);
    if !NoPoint(s.plans, from) {
      var m :| IsLeast(s.plans, from, m) && ArmedRun(s, from, m, r');
      AheadAfterArming(s, from, m, r', id, u);
    }
  }

  lemma AheadAfterArming(s: State, from: int, m: int, r': Run, id: string, u: int)
    requires PlansValid(s.plans) && IsClock(from) && IsLeast(s.plans, from, m) && ArmedRun(s, from, m, r')
    requires id in s.plans && Occurs(s.plans[id].plan, u) && from <= 1000000 * u
    ensures AheadOfTimer(r'.s, id, u)
  {
    hide Occurs, NextPoint, PlansValid;
    assert s.plans[id].plan.Valid() by { OneValid(s.plans, id); }
    NextPointIsNext(s.plans[id].plan, from);
    var p := NextPoint(s.plans[id].plan, from).value;
    assert m <= p <= u && (id in DueIds(s.plans, from, m) <==> p == m);
    assert r'.s.alarmed == multiset(DueIds(s.plans, from, m));
  }

  lemma OneValid(plans: map<string, Entry>, id: string)
    requires PlansValid(plans) && id in plans
    ensures plans[id].plan.Valid()
  {
  }

  lemma ActivationShape(s: State, from: int, r': Run)
    requires PlansValid(s.plans) && IsClock(from) && ActivatedRun(s, from, r')
    requires s.timer == None && s.isOpen && !s.ongoing && r'.time == from
    requires r'.registered.Keys == s.plans.Keys && (forall id | id in r'.registered :: r'.registered[id] <= from)
    ensures Shape(r') && Armed(r') && DueNear(r') && r'.s.plans == s.plans
  {
    hide Occurs, NextPoint, Timeplan.Valid, IsLeast, ArmedRun, PlansValid;
    if !(NoPoint(s.plans, from) && r'.s == s.(alarmed := multiset{}) && r'.due == map[]) {
      var m :| IsLeast(s.plans, from, m) && ArmedRun(s, from, m, r');
      ArmingShape(s, from, m, r');
      ArmingTimes(s, from, m, r');
    }
  }

  lemma ActivationNamed(s: State, from: int, r': Run)
    requires IsClock(from) && ActivatedRun(s, from, r') && r'.time == from
    requires forall id | id in r'.registered :: r'.registered[id] <= from
    ensures DueNamed(r')
  {
  }

  lemma ArmingShape(s: State, from: int, m: int, r': Run)
    requires PlansValid(s.plans) && ArmedRun(s, from, m, r')
    requires s.isOpen && !s.ongoing && r'.time == from
    requires r'.registered.Keys == s.plans.Keys && (forall id | id in r'.registered :: r'.registered[id] <= from)
    ensures Shape(r') && r'.s.plans == s.plans
  {
  }

  lemma ArmingTimes(s: State, from: int, m: int, r': Run)
    requires PlansValid(s.plans) && IsClock(from) && IsLeast(s.plans, from, m) && ArmedRun(s, from, m, r')
    requires r'.time == from
    ensures Armed(r') && DueNear(r')
  {
    hide Occurs, NextPoint, PlansValid, S.RoundToSecond;
    var id :| id in DueIds(s.plans, from, m);
    assert s.plans[id].plan.Valid() by { OneValid(s.plans, id); }
    NextPointIsNext(s.plans[id].plan, from);
    ArmedAtPoint(m, from);
  }

  // ---------- the steps keep the invariant ----------

  /** What is not ahead of the firing timer is answered by the firing. */
  lemma FiringAnswers(r: Run, at: int, id: string, u: int)
    requires Armed(r) && r.s.timer.Some? && r.s.timer.value <= at < r.deadline && AheadOfTimer(r.s, id, u)
    requires 1000000 * u < at || (id in r.s.alarmed && 1000000 * u <= r.s.timer.value + LATENCY)
    ensures id in r.s.alarmed && 1000000 * u - LATENCY <= at < 1000000 * (u + 1)
  {
  }

  lemma FireKeeps(r: Run, at: int, r': Run)
    requires Inv(r) && Step(r, Fire(at), r')
    ensures Inv(r')
  {
    hide Occurs, NextPoint, AheadOfTimer, Armed, PlansValid, AlarmsValid;
    var s := r.s.(armed := 0, timer := None, ongoing := false);
    ActivationShape(s, at, r');
    ActivationNamed(s, at, r');
    forall id, u | Promised(r', id, u) ensures Answered(r', id, u) || AheadOfTimer(r'.s, id, u) {
      FireAnswersOrKeeps(r, at, r', id, u);
    }
    forall c | c in r'.calls ensures c.at <= at && InTime(c, c.due) && Named(c.plan, c.due, 0, c.at) {
      if c !in r.calls { CallInTime(r, at, c); }
    }
  }

  lemma CallInTime(r: Run, at: int, c: Call)
    requires Inv(r) && r.s.timer.Some? && r.s.timer.value <= at < r.deadline && r.time <= at && c in CallsAt(r, at)
    ensures InTime(c, c.due) && Named(c.plan, c.due, 0, c.at)
  {
    hide NextPoint, NoneLost, CallsInTime, State.Valid;
    assert Near(c.due, r.s.timer.value);
  }

  lemma FireAnswersOrKeeps(r: Run, at: int, r': Run, id: string, u: int)
    requires Inv(r) && Step(r, Fire(at), r') && Promised(r', id, u) && r'.s.plans == r.s.plans
    ensures Answered(r', id, u) || AheadOfTimer(r'.s, id, u)
  {
    hide Occurs, NextPoint, PlansValid, AlarmsValid;
    assert Promised(r, id, u);
    if Answered(r, id, u) {
      var c :| Answers(r, id, u, c);
      assert Answers(r', id, u, c);
    } else if 1000000 * u < at || (id in r.s.alarmed && 1000000 * u <= r.s.timer.value + LATENCY) {
      FiringAnswers(r, at, id, u);
      assert Near(r.due[id], r.s.timer.value);
      SamePoint(r.s.plans[id].plan, r.due[id], u, r.registered[id], r.time);
      assert CallOf(r, id, at) in CallsAt(r, at);
      assert Answers(r', id, u, CallOf(r, id, at));
    } else {
      AheadAfterActivation(r.s.(armed := 0, timer := None, ongoing := false), at, r', id, u);
    }
  }

  /** A point that a plan named within a minute of one of its occurrences is that occurrence. */
  lemma SamePoint(plan: Timeplan, p: int, u: int, from: int, to: int)
    requires Named(plan, p, from, to) && Occurs(plan, u) && u - 60 < p < u + 60
    ensures p == u
  {
    hide NextPoint, Occurs, IsPoint;
    var now :| from <= now <= to && IsClock(now) && NextPoint(plan, now) == Some(p);
    NamedIsPoint(plan, now);
    OccurrenceIsPoint(plan, u);
    if p < u { PointsApart(plan, p, u); }
    if u < p { PointsApart(plan, u, p); }
  }

  lemma AddKeeps(r: Run, id: string, plan: Timeplan, handler: Handler, at: int, r': Run)
    requires Inv(r) && Step(r, Add(id, plan, handler, at), r')
    ensures Inv(r')
  {
    hide Occurs, NextPoint, AheadOfTimer, Armed, AddRun, Shape, DueNear;
    var e := Entry(plan, handler);
    AddShape(r, id, e, at, r');
    AddArmed(r, id, e, at, r');
    AddDueNear(r, id, e, at, r');
    AddNamed(r, id, e, at, r');
    forall i, u | Promised(r', i, u) ensures Answered(r', i, u) || AheadOfTimer(r'.s, i, u) {
      if i == id { NewPlanAhead(r, id, e, at, r', u); } else { AddKeepsOthers(r, id, e, at, r', i, u); }
    }
    assert r'.calls == r.calls by { SameCalls(r, id, e, at, r'); }
  }

  lemma SameCalls(r: Run, id: string, e: Entry, at: int, r': Run)
    requires AddRun(r, id, e, at, r')
    ensures r'.calls == r.calls
  {
  }

  lemma AddShape(r: Run, id: string, e: Entry, at: int, r': Run)
    requires Shape(r) && AnyStep(r, Add(id, e.plan, e.handler, at), r')
    ensures Shape(r')
  {
    hide Occurs, NextPoint, Timeplan.Valid, State.Valid, SameIds, IsClock, AddStep;
    AddStepValid(r.s, id, e, at);
    AddSameIds(r, id, e, at, r');
    AddFields(r.s, id, e, at);
  }

  lemma AddFields(s: State, id: string, e: Entry, at: int)
    requires s.timer.None? ==> s.alarmed == multiset{}
    ensures var t := AddStep(s, id, e, at);
            && t.isOpen == s.isOpen && t.ongoing == s.ongoing && t.plans == s.plans[id := e]
            && (t.timer.None? ==> t.alarmed == multiset{})
  {
    if NextPoint(e.plan, at).Some? && s.timer.None? { assert Rearms(s, NextPoint(e.plan, at).value, at); }
    hide NextPoint, Rearms, Joins;
  }

  lemma AddSameIds(r: Run, id: string, e: Entry, at: int, r': Run)
    requires SameIds(r.due, r.s.alarmed) && AddRun(r, id, e, at, r')
    ensures SameIds(r'.due, r'.s.alarmed)
  {
  }

  lemma AddArmed(r: Run, id: string, e: Entry, at: int, r': Run)
    requires Inv(r) && Step(r, Add(id, e.plan, e.handler, at), r')
    ensures Armed(r')
  {
    hide Occurs, NextPoint, PlansValid, AlarmsValid, NoneLost, DueNear, S.RoundToSecond;
    NextPointIsNext(e.plan, at);
    if NextPoint(e.plan, at).Some? {
      ArmedAtPoint(NextPoint(e.plan, at).value, at);
    }
  }

  /** A point named at `now` is at most half a second before. */
  lemma ArmedAtPoint(p: int, now: int)
    requires S.RoundToSecond(now) <= p
    ensures (1000000 * p) % 1000000 == 0 && (1000000 * p + TOLERANCE) % 1000000 == TOLERANCE
    ensures now - 499999 <= 1000000 * p
  {
  }

  lemma AddDueNear(r: Run, id: string, e: Entry, at: int, r': Run)
    requires Inv(r) && Step(r, Add(id, e.plan, e.handler, at), r')
    ensures DueNear(r')
  {
    hide Occurs, NextPoint, State.Valid, NoneLost, SameIds, AllNear, CallsInTime;
    if NextPoint(e.plan, at).Some? {
      var p := NextPoint(e.plan, at).value;
      AllNearMore(r.due, r.s.timer, id, p);
      if !Rearms(r.s, p, at) && Joins(r.s, p, at) { JoinsNear(r, p, at); }
    }
  }

  lemma AddNamed(r: Run, id: string, e: Entry, at: int, r': Run)
    requires Inv(r) && Step(r, Add(id, e.plan, e.handler, at), r')
    ensures DueNamed(r')
  {
    hide NextPoint, State.Valid, NoneLost, Rearms, Joins, Named, AlarmsValid, PlansValid, DueNear, Armed, CallsInTime;
    AddDue(r, id, e, at, r');
    assert id !in r.due by { if id in r.s.alarmed { AlarmedOnlyRegistered(r.s, id); } }
    forall i | i in r'.due && i in r'.s.plans && i in r'.registered
      ensures Named(r'.s.plans[i].plan, r'.due[i], r'.registered[i], r'.time)
    {
      if i != id {
        NamedLater(r.s.plans[i].plan, r.due[i], r.registered[i], r.time, at);
      } else {
        NamedNow(e.plan, r'.due[i], at);
      }
    }
  }

  lemma AddDue(r: Run, id: string, e: Entry, at: int, r': Run)
    requires AddRun(r, id, e, at, r')
    ensures r'.s.plans == r.s.plans[id := e]
    ensures forall i | i in r'.due ::
              if i == id && id !in r.due then NextPoint(e.plan, at) == Some(r'.due[i])
              else i in r.due && (i != id ==> r'.due[i] == r.due[i])
  {
  }

  lemma NamedLater(plan: Timeplan, p: int, from: int, to: int, later: int)
    requires Named(plan, p, from, to) && to <= later
    ensures Named(plan, p, from, later)
  {
  }

  lemma NamedNow(plan: Timeplan, p: int, now: int)
    requires IsClock(now) && NextPoint(plan, now) == Some(p)
    ensures Named(plan, p, now, now)
  {
  }

  lemma AlarmedOnlyRegistered(s: State, id: string)
    requires s.Valid() && id !in s.plans
    ensures id !in s.alarmed
  {
  }

  /** A plan that joins the armed alarms is due within 250 ms of the armed instant, or 750 ms before it. */
  lemma JoinsNear(r: Run, p: int, at: int)
    requires Armed(r) && !Rearms(r.s, p, at) && Joins(r.s, p, at)
    ensures r.s.timer.Some? && Near(p, r.s.timer.value)
  {
  }

  lemma AllNearMore(due: map<string, int>, timer: Option<int>, id: string, p: int)
    requires AllNear(due, timer)
    ensures timer.Some? && Near(p, timer.value) ==> AllNear(due[id := p], timer)
    ensures AllNear(map[id := p], Some(1000000 * p))
  {
  }

  lemma NewPlanAhead(r: Run, id: string, e: Entry, at: int, r': Run, u: int)
    requires Inv(r) && Step(r, Add(id, e.plan, e.handler, at), r') && Promised(r', id, u)
    ensures AheadOfTimer(r'.s, id, u)
  {
    hide Occurs, NextPoint, PlansValid, AlarmsValid, NoneLost;
    NextPointIsNext(e.plan, at);
  }

  lemma AddKeepsOthers(r: Run, id: string, e: Entry, at: int, r': Run, i: string, u: int)
    requires Inv(r) && Step(r, Add(id, e.plan, e.handler, at), r') && Promised(r', i, u) && i != id
    ensures Answered(r', i, u) || AheadOfTimer(r'.s, i, u)
  {
    hide Occurs, NextPoint, PlansValid, AlarmsValid;
    assert Promised(r, i, u);
    if Answered(r, i, u) {
      var c :| Answers(r, i, u, c);
      assert Answers(r', i, u, c);
    }
  }

  lemma RemoveKeeps(r: Run, id: string, at: int, r': Run)
    requires Inv(r) && Step(r, Remove(id, at), r')
    ensures Inv(r')
  {
    hide Occurs, NextPoint, AheadOfTimer, Armed, PlansValid, AlarmsValid, DueNear;
    RemoveShape(r, id, at, r');
    RemoveNamed(r, id, at, r');
    forall i, u | Promised(r', i, u) ensures Answered(r', i, u) || AheadOfTimer(r'.s, i, u) {
      RemoveKeepsOthers(r, id, at, r', i, u);
    }
  }

  lemma RemoveShape(r: Run, id: string, at: int, r': Run)
    requires Inv(r) && Step(r, Remove(id, at), r')
    ensures Shape(r') && Armed(r') && DueNear(r') && r'.s.plans == r.s.plans - {id}
  {
    hide Occurs, NextPoint, NoneLost, State.Valid, CallsInTime, DueNamed, ActivatedRun, AlarmsValid, PlansValid;
    var t := r.s.(plans := r.s.plans - {id}, alarmed := r.s.alarmed[id := 0]);
    RemoveStepValid(r.s, id, t);
    if r.s.alarmed != multiset{} && t.alarmed == multiset{} {
      ValidPlans(t);
      ActivationShape(t.(armed := 0, timer := None), at, r');
    } else {
      assert r'.s == t && r'.due == r.due - {id} && r'.deadline == r.deadline;
      AllNearFewer(r.due, r.s.timer, id);
      SameIdsFewer(r.due, r.s.alarmed, id);
    }
  }

  lemma AllNearFewer(due: map<string, int>, timer: Option<int>, id: string)
    requires AllNear(due, timer)
    ensures AllNear(due - {id}, timer)
  {
  }

  lemma SameIdsFewer(due: map<string, int>, alarmed: multiset<string>, id: string)
    requires SameIds(due, alarmed)
    ensures SameIds(due - {id}, alarmed[id := 0])
  {
  }

  lemma RemoveNamed(r: Run, id: string, at: int, r': Run)
    requires Inv(r) && Step(r, Remove(id, at), r')
    ensures DueNamed(r')
  {
    hide NextPoint, State.Valid, NoneLost, ActivatedRun;
    var t := r.s.(plans := r.s.plans - {id}, alarmed := r.s.alarmed[id := 0]);
    if r.s.alarmed != multiset{} && t.alarmed == multiset{} {
      ActivationNamed(t.(armed := 0, timer := None), at, r');
    } else {
      forall i | i in r'.due && i in r'.s.plans && i in r'.registered
        ensures Named(r'.s.plans[i].plan, r'.due[i], r'.registered[i], r'.time)
      {
        assert Named(r.s.plans[i].plan, r.due[i], r.registered[i], r.time);
      }
    }
  }

  lemma RemoveKeepsOthers(r: Run, id: string, at: int, r': Run, i: string, u: int)
    requires Inv(r) && Step(r, Remove(id, at), r') && Promised(r', i, u) && r'.s.plans == r.s.plans - {id}
    ensures Answered(r', i, u) || AheadOfTimer(r'.s, i, u)
  {
    hide Occurs, NextPoint, AlarmsValid;
    assert Promised(r, i, u);
    var t := r.s.(plans := r.s.plans - {id}, alarmed := r.s.alarmed[id := 0]);
    if Answered(r, i, u) {
      var c :| Answers(r, i, u, c);
      assert Answers(r', i, u, c);
    } else if r.s.alarmed != multiset{} && t.alarmed == multiset{} {
      assert t.alarmed[i] == r.s.alarmed[i];
      NotAlarmedAhead(r, at, i, u);
      AheadAfterActivation(t.(armed := 0, timer := None), at, r', i, u);
    }
  }

  /** Before the deadline, what is ahead of the timer and not alarmed is still to come. */
  lemma NotAlarmedAhead(r: Run, at: int, i: string, u: int)
    requires Armed(r) && at < r.deadline && i !in r.s.alarmed && AheadOfTimer(r.s, i, u)
    ensures at <= 1000000 * u
  {
  }

  lemma StartInv(r: Run)
    requires Start(r)
    ensures Inv(r)
  {
  }

  lemma StepKeeps(r: Run, e: Event, r': Run)
    requires Inv(r) && Step(r, e, r')
    ensures Inv(r')
  {
    match e {
      case Add(id, plan, handler, at) => AddKeeps(r, id, plan, handler, at, r');
      case Remove(id, at) => RemoveKeeps(r, id, at, r');
      case Fire(at) => FireKeeps(r, at, r');
    }
  }

  lemma {:induction false} RunInv(rs: seq<Run>, es: seq<Event>, i: nat)
    requires IsRun(rs, es) && i < |rs|
    ensures Inv(rs[i])
  {
    if i == 0 {
      StartInv(rs[0]);
    } else {
      RunInv(rs, es, i - 1);
      StepKeeps(rs[i - 1], es[i - 1], rs[i]);
    }
  }

  // ---------- runs of any timing ----------

  /** The index is in order, and no call is in the future. */
  ghost predicate Sane(r: Run) { Shape(r) && forall c | c in r.calls :: c.at <= r.time }

  lemma AnyStepSane(r: Run, e: Event, r': Run)
    requires Sane(r) && AnyStep(r, e, r')
    ensures Sane(r')
  {
    hide Occurs, NextPoint, Timeplan.Valid, State.Valid, SameIds, IsClock, AddStep, ActivatedRun, RoomToFire,
         RoomToRemove;
    match e {
      case Add(id, plan, handler, at) =>
        AddShape(r, id, Entry(plan, handler), at, r');
        SameCalls(r, id, Entry(plan, handler), at, r');
      case Remove(id, at) =>
        var t := r.s.(plans := r.s.plans - {id}, alarmed := r.s.alarmed[id := 0]);
        RemoveStepValid(r.s, id, t);
        if r.s.alarmed != multiset{} && t.alarmed == multiset{} {
          ValidPlans(t);
          ActivationShape(t.(armed := 0, timer := None), at, r');
        } else {
          assert r'.s == t && r'.due == r.due - {id};
          SameIdsFewer(r.due, r.s.alarmed, id);
          NoTimerNoAlarm(r.s.alarmed, id);
        }
      case Fire(at) =>
        ValidPlans(r.s);
        ActivationShape(r.s.(armed := 0, timer := None, ongoing := false), at, r');
    }
  }

  lemma NoTimerNoAlarm(alarmed: multiset<string>, id: string)
    ensures alarmed == multiset{} ==> alarmed[id := 0] == multiset{}
  {
  }

  lemma {:induction false} AnyRunSane(rs: seq<Run>, es: seq<Event>, i: nat)
    requires IsAnyRun(rs, es) && i < |rs|
    ensures Sane(rs[i])
  {
    hide Shape, AnyStep;
    if i == 0 {
      StartInv(rs[0]);
    } else {
      AnyRunSane(rs, es, i - 1);
      assert AnyStep(rs[i - 1], es[i - 1], rs[i]);
      AnyStepSane(rs[i - 1], es[i - 1], rs[i]);
    }
  }

  /** In every run the notifier is open and accepts just the additions of new ids and the removals of known ones. */
  lemma AnswersInRuns(rs: seq<Run>, es: seq<Event>, i: nat, id: string, handler: Option<Handler>)
    requires IsAnyRun(rs, es) && i < |rs|
    ensures AddStatus(rs[i].s, id, handler) ==
              if handler == None then NullArgument else if id in rs[i].registered then Found else Ok
    ensures RemoveStatus(rs[i].s, id) == if id in rs[i].registered then Ok else NotFound
  {
    AnyRunSane(rs, es, i);
  }

  /** In every run of no more than 128 plans, exactly these operations and firings can come, at any time from now on. */
  lemma AllowedIff(rs: seq<Run>, es: seq<Event>, i: nat, e: Event)
    requires IsAnyRun(rs, es) && i < |rs| && |rs[i].s.plans| <= 128
    ensures var r := rs[i];
            Allowed(r, e) <==>
              && r.time <= e.at && IsClock(e.at)
              && (e.Add? ==> e.plan.Valid() && e.id !in r.registered)
              && (e.Remove? ==> e.id in r.registered)
              && (e.Fire? ==> r.s.timer.Some? && r.s.timer.value <= e.at)
  {
    AnyRunSane(rs, es, i);
    hide IsAnyRun, RoomToFire, RoomToRemove, IsClock, PlansValid, AlarmsValid, Timeplan.Valid;
    FewSuffice(rs[i].s, if e.Remove? then e.id else "", e.at);
  }

  /** The notifier knows the instant that the timer is armed at. */
  ghost predicate KnowsArmed(r: Run) { r.s.isOpen && (r.s.timer.Some? ==> r.s.armed == r.s.timer.value) }

  lemma AnyStepKnowsArmed(r: Run, e: Event, r': Run)
    requires KnowsArmed(r) && AnyStep(r, e, r')
    ensures KnowsArmed(r')
  {
    hide NextPoint, IsLeast, RoomToFire, RoomToRemove, Rearms, Joins, IsClock;
  }

  lemma {:induction false} RunKnowsArmed(rs: seq<Run>, es: seq<Event>, i: nat)
    requires IsAnyRun(rs, es) && i < |rs|
    ensures KnowsArmed(rs[i])
  {
    hide AnyStep;
    if i > 0 {
      RunKnowsArmed(rs, es, i - 1);
      assert AnyStep(rs[i - 1], es[i - 1], rs[i]);
      AnyStepKnowsArmed(rs[i - 1], es[i - 1], rs[i]);
    }
  }

  /**
   In every run the handlers are told of an event in the past exactly if the firing is handled more than 314.159 ms
   after the timer has expired, and never in time if it was armed for an instant still to come.
   */
  lemma ToldPastIff(rs: seq<Run>, es: seq<Event>, k: nat)
    requires IsAnyRun(rs, es) && k < |es| && es[k].Fire?
    ensures rs[k].s.timer.Some?
    ensures IsInThePast(rs[k].s, es[k].at) <==> es[k].at - rs[k].s.timer.value >= 314160
    ensures OnTime(rs[k], es[k]) && rs[k].deadline == rs[k].s.timer.value + LATENCY ==> !IsInThePast(rs[k].s, es[k].at)
  {
    RunKnowsArmed(rs, es, k);
    assert AnyStep(rs[k], es[k], rs[k + 1]);
    hide IsAnyRun, FireRun;
  }

  lemma RunIsAny(rs: seq<Run>, es: seq<Event>)
    requires IsRun(rs, es)
    ensures IsAnyRun(rs, es)
  {
    hide AnyStep;
    forall i | 0 <= i < |es| ensures AnyStep(rs[i], es[i], rs[i + 1]) {
      assert Step(rs[i], es[i], rs[i + 1]);
    }
  }

  // ---------- what holds in every run ----------

  /** No occurrence of a registered plan is missed: within a second of it the handler has been called. */
  lemma NoMissedOccurrence(rs: seq<Run>, es: seq<Event>, i: nat, id: string, u: int)
    requires IsRun(rs, es) && i < |rs| && Promised(rs[i], id, u) && 1000000 * (u + 1) <= rs[i].time
    ensures Answered(rs[i], id, u)
  {
    hide IsRun, Inv, Answered, AheadOfTimer, Occurs;
    RunInv(rs, es, i);
    AnsweredOrAhead(rs[i], id, u);
    if !Answered(rs[i], id, u) {
      AheadIsRecent(rs[i], id, u);
    }
  }

  lemma AnsweredOrAhead(r: Run, id: string, u: int)
    requires Inv(r) && Promised(r, id, u)
    ensures Armed(r) && (Answered(r, id, u) || AheadOfTimer(r.s, id, u))
  {
  }

  /** What is ahead of the timer is less than a second old. */
  lemma AheadIsRecent(r: Run, id: string, u: int)
    requires Armed(r) && AheadOfTimer(r.s, id, u)
    ensures r.time < 1000000 * (u + 1)
  {
  }

  /** No handler is called more than 250 ms before its point or a second after it, and the plan did name the point. */
  lemma NoCallOutOfTime(rs: seq<Run>, es: seq<Event>, i: nat, c: Call)
    requires IsRun(rs, es) && i < |rs| && c in rs[i].calls
    ensures InTime(c, c.due) && Named(c.plan, c.due, 0, c.at)
  {
    RunInv(rs, es, i);
  }

  /** The index is right in every state: alarmed ids are registered, each once, and due around the armed instant. */
  lemma IndexError(rs: seq<Run>, es: seq<Event>, i: nat, id: string)
    requires IsRun(rs, es) && i < |rs| && id in rs[i].s.alarmed
    ensures id in rs[i].s.plans && rs[i].s.alarmed[id] == 1 && rs[i].s.timer.Some? && id in rs[i].due
    ensures Near(rs[i].due[id], rs[i].s.timer.value)
    ensures id in rs[i].registered && Named(rs[i].s.plans[id].plan, rs[i].due[id], rs[i].registered[id], rs[i].time)
  {
    hide IsRun;
    RunInv(rs, es, i);
  }

  /** Adding a plan keeps every pending alarm, or arms before it, exactly when the armed instant is still to come. */
  lemma PendingAlarmKept(r: Run, pending: string, id: string, e: Entry, at: int)
    requires Inv(r) && pending in r.s.alarmed && id !in r.s.plans && e.plan.Valid() && IsClock(at)
    requires NextPoint(e.plan, at).Some?
    ensures var s' := AddStep(r.s, id, e, at);
            (pending in s'.alarmed || s'.timer.value < 1000000 * r.due[pending]) <==> at < r.s.timer.value
  {
    hide NextPoint, Occurs, NoneLost, State.Valid, DueNamed, CallsInTime, S.RoundToSecond, Near;
    var p, a := NextPoint(e.plan, at).value, r.s.timer.value;
    NextPointIsNext(e.plan, at);
    ArmedAtPoint(p, at);
    assert Near(r.due[pending], a);
    assert pending != id by { AlarmedOnlyRegistered(r.s, id); }
    PendingOrSooner(p, a, r.due[pending], at);
  }

  lemma PendingOrSooner(p: int, a: int, due: int, at: int)
    requires a % 1000000 == 0 || a % 1000000 == TOLERANCE
    requires Near(due, a) && at - 499999 <= 1000000 * p
    ensures at < a && 1000000 * p - at < a - at - TOLERANCE ==> p < due
    ensures a <= at ==> due <= p
  {
  }

  // ---------- what the notifier calls ----------

  /**
   The handlers that a firing calls are, once each, those of the ids that are due, and the calls recorded are theirs.
   */
  lemma FiringCallsDue(r: Run, at: int, alarmed: seq<string>, called: seq<Handler>)
    requires Shape(r) && r.s.alarmed == multiset(alarmed) && |called| == |alarmed|
    requires forall i | 0 <= i < |called| :: alarmed[i] in r.s.plans && called[i] == r.s.plans[alarmed[i]].handler
    ensures forall i, j | 0 <= i < j < |alarmed| :: alarmed[i] != alarmed[j]
    ensures forall i | 0 <= i < |alarmed| :: alarmed[i] in r.due
    ensures forall id | id in r.due :: id in alarmed
    ensures CallsAt(r, at) ==
              set i | 0 <= i < |called| ::
                Call(alarmed[i], r.s.plans[alarmed[i]].plan, called[i], at, r.due[alarmed[i]])
  {
    hide PlansValid;
    assert forall id :: id in alarmed <==> id in r.s.alarmed;
    forall i, j | 0 <= i < j < |alarmed| ensures alarmed[i] != alarmed[j] {
      if alarmed[i] == alarmed[j] { CountedTwice(alarmed, i, j); }
    }
    forall c | c in CallsAt(r, at)
      ensures exists i | 0 <= i < |called| ::
                c == Call(alarmed[i], r.s.plans[alarmed[i]].plan, called[i], at, r.due[alarmed[i]])
    {
      assert c.id in alarmed;
    }
    forall i | 0 <= i < |called|
      ensures Call(alarmed[i], r.s.plans[alarmed[i]].plan, called[i], at, r.due[alarmed[i]]) in CallsAt(r, at)
    {
      assert CallOf(r, alarmed[i], at) in CallsAt(r, at);
    }
  }

  /** A call is for an occurrence of the plan exactly if the plan was not asked where it names a stray point. */
  lemma CallIsOccurrenceIff(rs: seq<Run>, es: seq<Event>, i: nat, c: Call)
    requires IsRun(rs, es) && i < |rs| && c in rs[i].calls
    ensures exists now: int | IsClock(now) && now <= c.at ::
              NextPoint(c.plan, now) == Some(c.due) && (Occurs(c.plan, c.due) <==> !NamesStray(c.plan, now))
  {
    hide IsRun, NextPoint, Occurs, NamesStray;
    NoCallOutOfTime(rs, es, i, c);
    var now :| 0 <= now <= c.at && IsClock(now) && NextPoint(c.plan, now) == Some(c.due);
    StrayIff(c.plan, now);
  }
}
