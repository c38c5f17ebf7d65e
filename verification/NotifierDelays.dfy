/** Firings of any delay: exactly which occurrences the notifier misses, and that it misses none if they are in time. */
module NotifierDelays {
  import opened Prelude
  import opened Timeplans
  import opened AlarmNotifier
  import opened NotifierRuns
  import opened NotifierFirings

  /** The handler has been called for this occurrence of the plan that is registered now. */
  ghost predicate Called(r: Run, id: string, u: int) {
    && id in r.s.plans && id in r.registered
    && exists c :: c in r.calls && CallsFor(c, id, r.s.plans[id].plan, r.registered[id], u)
  }

  predicate CallsFor(c: Call, id: string, plan: Timeplan, from: int, u: int) {
    c.id == id && c.plan == plan && c.due == u && from <= c.at
  }

  predicate IsDue(r: Run, id: string, u: int) { id in r.due && r.due[id] == u }

  /** The timer is activated when the plan has passed the occurrence already, and this is not what it fires for. */
  ghost predicate Loses(r: Run, e: Event, id: string, u: int) {
    && Promised(r, id, u) && !Called(r, id, u)
    && Activates(r, e) && Passes(r.s.plans[id].plan, u, e.at)
    && (if e.Fire? then !IsDue(r, id, u) else e.id != id)
  }

  /** An activation before i, since the plan has been registered, came after the plan had passed the occurrence. */
  ghost predicate PassedBefore(rs: seq<Run>, es: seq<Event>, i: nat, id: string, u: int)
    requires |rs| == |es| + 1 && i < |rs|
  {
    exists k: nat :: k < i && SameRegistration(rs[k], rs[i], id) && PassesAt(rs[k], es[k], id, u)
  }

  predicate SameRegistration(r: Run, t: Run, id: string) {
    id in r.registered && id in t.registered && r.registered[id] == t.registered[id]
  }

  predicate PassesAt(r: Run, e: Event, id: string, u: int) {
    && id in r.s.plans && Activates(r, e) && Passes(r.s.plans[id].plan, u, e.at) && (e.Remove? ==> e.id != id)
  }

  ghost predicate LostBefore(rs: seq<Run>, es: seq<Event>, i: nat, id: string, u: int)
    requires |rs| == |es| + 1 && i < |rs|
  {
    exists k: nat :: k < i && SameRegistration(rs[k], rs[i], id) && Loses(rs[k], es[k], id, u)
  }

  // ---------- what is lost stays lost ----------

  /** While the registration lasts, the occurrence is passed, not called for, and not due. */
  ghost predicate Gone(r: Run, id: string, u: int, from: int, t: int) {
    && from < t <= r.time
    && (id in r.registered && r.registered[id] == from ==>
          id in r.s.plans && Occurs(r.s.plans[id].plan, u) && Passes(r.s.plans[id].plan, u, t) && !Called(r, id, u) &&
          !IsDue(r, id, u))
  }

  lemma ActivationNotDue(s: State, at: int, r': Run, id: string, u: int, t: int)
    requires PlansValid(s.plans) && IsClock(at) && ActivatedRun(s, at, r') && id in s.plans && t <= at
    requires Occurs(s.plans[id].plan, u) && Passes(s.plans[id].plan, u, t)
    ensures !IsDue(r', id, u)
  {
    hide Occurs, NextPoint, Passes, PlansValid;
    OneValid(s.plans, id);
    PassesStays(s.plans[id].plan, u, t, at);
    PassesIff(s.plans[id].plan, u, at);
  }

  lemma NotCalledByFiring(r: Run, at: int, r': Run, id: string, u: int)
    requires Sane(r) && AnyStep(r, Fire(at), r') && !Called(r, id, u) && !IsDue(r, id, u)
    ensures !Called(r', id, u)
  {
    OthersStay(r, Fire(at), r', id);
    hide ActivatedRun, RoomToFire, Sane;
  }

  lemma NotCalledByOthers(r: Run, e: Event, r': Run, id: string, u: int)
    requires AnyStep(r, e, r') && !e.Fire? && !Called(r, id, u) && e.id != id && Sane(r)
    ensures !Called(r', id, u)
  {
    OthersStay(r, e, r', id);
  }

  /** An operation on another id leaves this one's plan and registration, and makes no call. */
  lemma OthersStay(r: Run, e: Event, r': Run, id: string)
    requires Sane(r) && AnyStep(r, e, r') && !(e.Add? && e.id == id) && !(e.Remove? && e.id == id)
    ensures id in r'.s.plans <==> id in r.s.plans
    ensures id in r.s.plans ==> r'.s.plans[id] == r.s.plans[id]
    ensures id in r'.registered <==> id in r.registered
    ensures id in r.registered ==> r'.registered[id] == r.registered[id]
    ensures r'.calls >= r.calls && (!e.Fire? ==> r'.calls == r.calls)
  {
    hide NextPoint, IsLeast, State.Valid, RoomToFire, RoomToRemove, Rearms, Joins;
    match e {
      case Add(x, plan, handler, at) => AddDue(r, x, Entry(plan, handler), at, r');
      case Remove(x, at) =>
        var t := r.s.(plans := r.s.plans - {x}, alarmed := r.s.alarmed[x := 0]);
        if Activates(r, e) { SamePlans(t.(armed := 0, timer := None), at, r'); }
      case Fire(at) => SamePlans(r.s.(armed := 0, timer := None, ongoing := false), at, r');
    }
  }

  lemma GoneStays(r: Run, e: Event, r': Run, id: string, u: int, from: int, t: int)
    requires Sane(r) && AnyStep(r, e, r') && Gone(r, id, u, from, t)
    ensures Gone(r', id, u, from, t)
  {
    hide Occurs, NextPoint, Passes, IsLeast, State.Valid, RoomToFire, RoomToRemove, Rearms, Joins, ActivatedRun, Called;
    StepTime(r, e, r');
    if e.Fire? || e.id != id {
      OthersStay(r, e, r', id);
      if id in r.registered && r.registered[id] == from {
        assert id in r.s.plans;
        NotDueAfter(r, e, r', id, u, t);
        if e.Fire? { NotCalledByFiring(r, e.at, r', id, u); } else { NotCalledByOthers(r, e, r', id, u); }
      }
    }
  }

  lemma NotDueAfter(r: Run, e: Event, r': Run, id: string, u: int, t: int)
    requires Sane(r) && AnyStep(r, e, r') && id in r.s.plans && t <= e.at && (!e.Fire? ==> e.id != id)
    requires Occurs(r.s.plans[id].plan, u) && Passes(r.s.plans[id].plan, u, t) && (Activates(r, e) || !IsDue(r, id, u))
    ensures !IsDue(r', id, u)
  {
    hide Occurs, NextPoint, Passes, IsLeast, AlarmsValid, PlansValid, RoomToFire, RoomToRemove, Rearms, Joins,
         ActivatedRun;
    match e {
      case Add(x, plan, handler, at) =>
      case Remove(x, at) =>
        var s := r.s.(plans := r.s.plans - {x}, alarmed := r.s.alarmed[x := 0]);
        RemoveStepValid(r.s, x, s);
        if Activates(r, e) { ActivationNotDue(s.(armed := 0, timer := None), at, r', id, u, t); }
      case Fire(at) =>
        ActivationNotDue(r.s.(armed := 0, timer := None, ongoing := false), at, r', id, u, t);
    }
  }

  lemma LossIsGone(r: Run, e: Event, r': Run, id: string, u: int)
    requires Sane(r) && AnyStep(r, e, r') && Loses(r, e, id, u)
    ensures Gone(r', id, u, r.registered[id], e.at)
  {
    hide Occurs, NextPoint, Passes, IsLeast, State.Valid, RoomToFire, RoomToRemove, Rearms, Joins, ActivatedRun, Called;
    StepTime(r, e, r');
    OthersStay(r, e, r', id);
    PassesStays(r.s.plans[id].plan, u, e.at, e.at);
    NotDueAfter(r, e, r', id, u, e.at);
    if e.Fire? { NotCalledByFiring(r, e.at, r', id, u); } else { NotCalledByOthers(r, e, r', id, u); }
  }

  lemma {:induction false} LostIsGone(rs: seq<Run>, es: seq<Event>, k: nat, i: nat, id: string, u: int, from: int)
    requires IsAnyRun(rs, es) && k < i < |rs| && Loses(rs[k], es[k], id, u) && rs[k].registered[id] == from
    ensures Gone(rs[i], id, u, from, es[k].at)
    decreases i
  {
    hide AnyStep, Sane, Gone, Loses, Start;
    AnyRunSane(rs, es, i - 1);
    assert AnyStep(rs[i - 1], es[i - 1], rs[i]);
    if i == k + 1 {
      LossIsGone(rs[k], es[k], rs[i], id, u);
    } else {
      LostIsGone(rs, es, k, i - 1, id, u, from);
      GoneStays(rs[i - 1], es[i - 1], rs[i], id, u, from, es[k].at);
    }
  }

  // ---------- nothing else is missed ----------

  /** Called for, lost, or not passed yet, with the timer running. */
  ghost predicate Accounted(rs: seq<Run>, es: seq<Event>, i: nat, id: string, u: int)
    requires |rs| == |es| + 1 && i < |rs|
  {
    || Called(rs[i], id, u) || LostBefore(rs, es, i, id, u)
    || (!PassedBefore(rs, es, i, id, u) && rs[i].s.timer.Some?)
  }

  lemma ActivationPending(s: State, at: int, r': Run, id: string, u: int)
    requires PlansValid(s.plans) && IsClock(at) && ActivatedRun(s, at, r') && id in s.plans
    requires Occurs(s.plans[id].plan, u) && !Passes(s.plans[id].plan, u, at)
    ensures r'.s.timer.Some?
  {
    hide Occurs, NextPoint, Passes, PlansValid, IsLeast;
    OneValid(s.plans, id);
    PassesIff(s.plans[id].plan, u, at);
  }

  /** The timer runs on, unless an activation comes when the plan has passed the occurrence. */
  lemma TimerStays(r: Run, e: Event, r': Run, id: string, u: int)
    requires Sane(r) && AnyStep(r, e, r') && id in r.s.plans && Occurs(r.s.plans[id].plan, u) && r.s.timer.Some?
    requires !PassesAt(r, e, id, u) && (!e.Fire? ==> e.id != id)
    ensures r'.s.timer.Some?
  {
    hide Occurs, NextPoint, Passes, IsLeast, AlarmsValid, PlansValid, RoomToFire, RoomToRemove, Rearms, Joins,
         ActivatedRun;
    match e {
      case Add(x, plan, handler, at) =>
      case Remove(x, at) =>
        var s := r.s.(plans := r.s.plans - {x}, alarmed := r.s.alarmed[x := 0]);
        RemoveStepValid(r.s, x, s);
        if Activates(r, e) { ActivationPending(s.(armed := 0, timer := None), at, r', id, u); }
      case Fire(at) => ActivationPending(r.s.(armed := 0, timer := None, ongoing := false), at, r', id, u);
    }
  }

  /** A plan added in time starts the timer, if it does not run. */
  lemma AddedPending(r: Run, e: Event, r': Run, u: int)
    requires Sane(r) && AnyStep(r, e, r') && e.Add? && Promised(r', e.id, u)
    ensures r'.s.timer.Some? && r'.registered[e.id] == e.at <= 1000000 * u
  {
    hide NextPoint, Occurs, IsLeast, AlarmsValid, PlansValid, NamesStray;
    NextPointIsNext(e.plan, e.at);
  }

  lemma {:induction false} TimeOrder(rs: seq<Run>, es: seq<Event>, k: nat, i: nat)
    requires IsAnyRun(rs, es) && k < i < |rs|
    ensures es[k].at <= rs[i].time
    decreases i
  {
    hide AnyStep;
    assert AnyStep(rs[i - 1], es[i - 1], rs[i]);
    StepTime(rs[i - 1], es[i - 1], rs[i]);
    if k < i - 1 { TimeOrder(rs, es, k, i - 1); }
  }

  lemma {:induction false} AlwaysAccounted(rs: seq<Run>, es: seq<Event>, i: nat, id: string, u: int)
    requires IsAnyRun(rs, es) && i < |rs| && Promised(rs[i], id, u)
    ensures Accounted(rs, es, i, id, u)
  {
    hide AnyStep, Sane, Occurs, Called, Loses, Accounted;
    if i == 0 {
      assert false;
    } else {
      var r, e, r' := rs[i - 1], es[i - 1], rs[i];
      assert AnyStep(r, e, r');
      AnyRunSane(rs, es, i - 1);
      if e.Add? && e.id == id {
        AddedAccounted(rs, es, i, u);
      } else {
        StillPromised(r, e, r', id, u);
        AlwaysAccounted(rs, es, i - 1, id, u);
        AccountedStays(rs, es, i - 1, id, u);
      }
    }
  }

  lemma StillPromised(r: Run, e: Event, r': Run, id: string, u: int)
    requires Sane(r) && AnyStep(r, e, r') && Promised(r', id, u) && !(e.Add? && e.id == id)
    ensures Promised(r, id, u) && r'.s.plans[id] == r.s.plans[id] && SameRegistration(r, r', id) && r.calls <= r'.calls
    ensures !e.Fire? ==> e.id != id
  {
    hide Occurs, NextPoint, ActivatedRun, AddStep;
    if !(e.Remove? && e.id == id) { OthersStay(r, e, r', id); }
  }

  lemma AddedAccounted(rs: seq<Run>, es: seq<Event>, i: nat, u: int)
    requires IsAnyRun(rs, es) && 0 < i < |rs| && es[i - 1].Add? && Promised(rs[i], es[i - 1].id, u)
    ensures Accounted(rs, es, i, es[i - 1].id, u)
  {
    hide AnyStep, Sane, Occurs, Called, Passes, Promised;
    var e := es[i - 1];
    assert AnyStep(rs[i - 1], e, rs[i]);
    AnyRunSane(rs, es, i - 1);
    AddedPending(rs[i - 1], e, rs[i], u);
    StepTime(rs[i - 1], e, rs[i]);
    forall k: nat | k < i && SameRegistration(rs[k], rs[i], e.id) ensures !PassesAt(rs[k], es[k], e.id, u) {
      TimeOrder(rs, es, k, i);
      if PassesAt(rs[k], es[k], e.id, u) { PassesStays(rs[k].s.plans[e.id].plan, u, es[k].at, es[k].at); }
    }
  }

  lemma AccountedStays(rs: seq<Run>, es: seq<Event>, i: nat, id: string, u: int)
    requires IsAnyRun(rs, es) && i + 1 < |rs| && Promised(rs[i], id, u) && Accounted(rs, es, i, id, u)
    requires Sane(rs[i]) && SameRegistration(rs[i], rs[i + 1], id) && rs[i].calls <= rs[i + 1].calls
    requires id in rs[i + 1].s.plans && rs[i + 1].s.plans[id] == rs[i].s.plans[id]
    requires !es[i].Fire? ==> es[i].id != id
    ensures Accounted(rs, es, i + 1, id, u)
  {
    hide AnyStep, Sane, Occurs, Passes;
    var r, e, r' := rs[i], es[i], rs[i + 1];
    assert AnyStep(r, e, r');
    if Called(r, id, u) {
      CalledStays(r, r', id, u);
    } else if LostBefore(rs, es, i, id, u) {
      LostStays(rs, es, i, id, u);
    } else if PassesAt(r, e, id, u) {
      if e.Fire? && IsDue(r, id, u) { CalledNow(r, e.at, r', id, u); } else { assert Loses(r, e, id, u); }
    } else {
      TimerStays(r, e, r', id, u);
      NotPassedYet(rs, es, i, id, u);
    }
  }

  lemma CalledStays(r: Run, r': Run, id: string, u: int)
    requires Called(r, id, u) && SameRegistration(r, r', id) && r.calls <= r'.calls
    requires id in r'.s.plans && r'.s.plans[id] == r.s.plans[id]
    ensures Called(r', id, u)
  {
  }

  lemma LostStays(rs: seq<Run>, es: seq<Event>, i: nat, id: string, u: int)
    requires |rs| == |es| + 1 && i + 1 < |rs| && LostBefore(rs, es, i, id, u) && SameRegistration(rs[i], rs[i + 1], id)
    ensures LostBefore(rs, es, i + 1, id, u)
  {
    hide Loses;
  }

  lemma NotPassedYet(rs: seq<Run>, es: seq<Event>, i: nat, id: string, u: int)
    requires |rs| == |es| + 1 && i + 1 < |rs| && !PassedBefore(rs, es, i, id, u) && !PassesAt(rs[i], es[i], id, u)
    requires SameRegistration(rs[i], rs[i + 1], id)
    ensures !PassedBefore(rs, es, i + 1, id, u)
  {
    hide PassesAt;
  }

  lemma CalledNow(r: Run, at: int, r': Run, id: string, u: int)
    requires Sane(r) && AnyStep(r, Fire(at), r') && Promised(r, id, u) && IsDue(r, id, u)
    ensures Called(r', id, u)
  {
    hide ActivatedRun, RoomToFire, Occurs;
    OthersStay(r, Fire(at), r', id);
    assert CallOf(r, id, at) in CallsAt(r, at);
    assert CallsFor(CallOf(r, id, at), id, r'.s.plans[id].plan, r'.registered[id], u);
  }

  // ---------- exactly what is missed ----------

  /**
   In every run, of any timing: once an activation has come after the plan has passed the occurrence, there is no call
   for it exactly if such an activation came before a call and was not the firing for it, and then there never will be
   one. Until then there is a call, or the timer is running.
   */
  lemma MissedIff(rs: seq<Run>, es: seq<Event>, i: nat, id: string, u: int)
    requires IsAnyRun(rs, es) && i < |rs| && Promised(rs[i], id, u)
    ensures PassedBefore(rs, es, i, id, u) ==> (!Called(rs[i], id, u) <==> LostBefore(rs, es, i, id, u))
    ensures !PassedBefore(rs, es, i, id, u) ==> Called(rs[i], id, u) || rs[i].s.timer.Some?
  {
    hide AnyStep, Occurs, Called;
    AlwaysAccounted(rs, es, i, id, u);
    if LostBefore(rs, es, i, id, u) {
      var k: nat :| k < i && SameRegistration(rs[k], rs[i], id) && Loses(rs[k], es[k], id, u);
      LostIsGone(rs, es, k, i, id, u, rs[k].registered[id]);
      assert PassesAt(rs[k], es[k], id, u);
    }
  }

  /** An event in time loses nothing. */
  lemma InTimeLosesNone(r: Run, e: Event, r': Run, id: string, u: int)
    requires Inv(r) && Step(r, e, r')
    ensures !Loses(r, e, id, u)
  {
    hide Occurs, NextPoint, PlansValid, AlarmsValid, ActivatedRun, RoomToFire, RoomToRemove;
    if Loses(r, e, id, u) {
      PassesStays(r.s.plans[id].plan, u, e.at, e.at);
      if Answered(r, id, u) { AnsweredIsCalled(r, id, u); }
      if e.Fire? {
        FiringAnswers(r, e.at, id, u);
        assert Near(r.due[id], r.s.timer.value);
        SamePoint(r.s.plans[id].plan, r.due[id], u, r.registered[id], r.time);
      } else {
        assert r.s.alarmed[e.id := 0][id] == r.s.alarmed[id];
        NotAlarmedAhead(r, e.at, id, u);
      }
    }
  }

  /**
   However late, a firing for point m loses exactly the occurrences after m that their plans have passed, of those
   promised and not called for.
   */
  lemma FiringLosesIff(r: Run, at: int, id: string, u: int)
    requires Inv(r) && Settled(r) && r.s.timer.Some? && Promised(r, id, u) && !Called(r, id, u)
    ensures Loses(r, Fire(at), id, u) <==> PointOf(r) < u && Passes(r.s.plans[id].plan, u, at)
  {
    hide Occurs, NextPoint, PlansValid, AlarmsValid, Called, Passes, DueNamed, CallsInTime;
    if Answered(r, id, u) { AnsweredIsCalled(r, id, u); }
    assert AheadOfTimer(r.s, id, u);
    assert id in r.due <==> id in r.s.alarmed;
  }

  lemma AnsweredIsCalled(r: Run, id: string, u: int)
    requires Answered(r, id, u)
    ensures Called(r, id, u)
  {
    var c :| Answers(r, id, u, c);
    assert CallsFor(c, id, r.s.plans[id].plan, r.registered[id], u);
  }
}
