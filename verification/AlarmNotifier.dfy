/**
 `clock_alarm_notifier`: many time plans on one kernel timer. The notifier keeps the instant the timer is armed at and
 the ids that are to be alarmed then. All instants are in microseconds; each operation reads the clock once.
 */
module AlarmNotifier {
  import opened Prelude
  import opened Timeplans

  const TOLERANCE := 750000      // the window of 750 ms on either side of an instant
  const IN_THE_PAST := 314159    // how late a firing counts as one in the past
  const MAX_ALARMS := 128        // the size of the selection buffer
  const MAX_HANDLERS := 256      // the size of the buffer of handlers
  const LONG_MAX := 0x7fff_ffff_ffff_ffff

  type Handler = int

  datatype Entry = Entry(plan: Timeplan, handler: Handler)
  datatype Status = Ok | NullArgument | InvalidOperation | AlreadyOpen | Found | NotFound

  /** The notifier as its callers see it: the order of the alarmed ids is not observable. */
  datatype State = State(
    isOpen: bool, plans: map<string, Entry>, alarmed: multiset<string>, ongoing: bool, armed: int, timer: Option<int>)
  {
    ghost predicate Valid() {
      PlansValid(plans) && AlarmsValid(plans.Keys, alarmed)
    }
  }

  ghost predicate PlansValid(plans: map<string, Entry>) {
    forall id | id in plans :: plans[id].plan.Valid()
  }

  /** Only registered ids are alarmed, and each of them once. */
  ghost predicate AlarmsValid(ids: set<string>, alarmed: multiset<string>) {
    forall id | id in alarmed :: id in ids && alarmed[id] == 1
  }

  // ---------- which alarms are next ----------

  ghost predicate NoPoint(plans: map<string, Entry>, from: int) {
    forall id | id in plans :: NextPoint(plans[id].plan, from) == None
  }

  /** The ids among `ids` whose next point is m. */
  ghost function DueAmong(plans: map<string, Entry>, ids: set<string>, from: int, m: int): set<string> {
    set id | id in ids && id in plans && NextPoint(plans[id].plan, from) == Some(m)
  }

  ghost function DueIds(plans: map<string, Entry>, from: int, m: int): set<string> {
    DueAmong(plans, plans.Keys, from, m)
  }

  /** m is the least next point of all plans. */
  ghost predicate IsLeast(plans: map<string, Entry>, from: int, m: int) {
    && DueIds(plans, from, m) != {}
    && (forall id | id in plans && NextPoint(plans[id].plan, from).Some? :: m <= NextPoint(plans[id].plan, from).value)
  }

  /** No point is due for more plans than the selection buffer holds. */
  ghost predicate RoomFor(plans: map<string, Entry>, from: int) {
    forall m :: |DueIds(plans, from, m)| <= MAX_ALARMS
  }

  /** What `activate_timer_for_next_alarms` makes of a state. */
  ghost predicate Activated(s: State, from: int, s': State) {
    || (NoPoint(s.plans, from) && s' == s.(alarmed := multiset{}))
    || (exists m :: IsLeast(s.plans, from, m) && s' == ArmedFor(s, from, m))
  }

  ghost function ArmedFor(s: State, from: int, m: int): State {
    var a := 1000000 * m + TOLERANCE;
    s.(alarmed := multiset(DueIds(s.plans, from, m)), armed := a, timer := Some(a))
  }

  /**
   The selection loop. Whatever the order in which the map is walked, clustering within 750 ms in a single pass
   finds exactly the ids with the least next point.
   */
  method SelectNextAlarms(plans: map<string, Entry>, from: int)
    returns (selected: seq<string>, least: Option<int>, ghost m: int)
    requires RoomFor(plans, from) && PlansValid(plans) && IsClock(from)
    ensures least.None? ==> NoPoint(plans, from) && selected == []
    ensures least.Some? ==> IsLeast(plans, from, m) && least.value == 1000000 * m - from
    ensures least.Some? ==> multiset(selected) == multiset(DueIds(plans, from, m))
  {
    hide NextPoint, Selecting;
    var toActivate := new string[MAX_ALARMS];
    var counter, min := 0, 1000000 * LONG_MAX;
    var todo := plans.Keys;
    m := 0;
    NothingSelected(plans, from, plans.Keys - todo, toActivate[..0], m);
    while todo != {}
      invariant todo <= plans.Keys && 0 <= counter <= MAX_ALARMS
      invariant Selecting(plans, plans.Keys - todo, from, toActivate[..counter], min, m)
      decreases todo
    {
      var id :| id in todo;
      ghost var done := plans.Keys - todo;
      todo := todo - {id};
      assert plans.Keys - todo == done + {id};
      counter, min, m := LookAt(plans, done, id, from, toActivate, counter, min, m);
    }
    assert plans.Keys - todo == plans.Keys;
    selected := toActivate[..counter];
    Selection(plans, from, selected, min, m);
    least := if counter == 0 then None else Some(min);
  }

  lemma NothingSelected(plans: map<string, Entry>, from: int, done: set<string>, buffer: seq<string>, m: int)
    requires done == {} && buffer == []
    ensures Selecting(plans, done, from, buffer, 1000000 * LONG_MAX, m)
  {
  }

  lemma Selection(plans: map<string, Entry>, from: int, buffer: seq<string>, min: int, m: int)
    requires Selecting(plans, plans.Keys, from, buffer, min, m)
    ensures if buffer == [] then NoPoint(plans, from)
            else
              && IsLeast(plans, from, m) && min == 1000000 * m - from
              && multiset(buffer) == multiset(DueIds(plans, from, m))
  {
    hide NextPoint;
    if buffer != [] { BufferSize(buffer, DueIds(plans, from, m)); }
  }

  /** The body of the selection loop. */
  method LookAt(plans: map<string, Entry>, ghost done: set<string>, id: string, from: int, toActivate: array<string>,
                counter0: nat, min0: int, ghost m0: int)
    returns (counter: nat, min: int, ghost m: int)
    requires RoomFor(plans, from) && toActivate.Length == MAX_ALARMS && id in plans && id !in done && done <= plans.Keys
    requires plans[id].plan.Valid() && IsClock(from) && counter0 <= MAX_ALARMS
    requires Selecting(plans, done, from, toActivate[..counter0], min0, m0)
    modifies toActivate
    ensures counter <= MAX_ALARMS && Selecting(plans, done + {id}, from, toActivate[..counter], min, m)
  {
    hide NextPoint;
    counter, min, m := counter0, min0, m0;
    var minLeft, minRight := min - TOLERANCE, min + TOLERANCE;
    NextPointIsNext(plans[id].plan, from);
    var relative := GetNextTimerPoint(plans[id].plan, from);
    LookedAt(plans, done, id, from, toActivate[..counter], min, m);
    if relative.Some? {
      if relative.value < minLeft {
        Put(toActivate, 0, id);
        counter := 1;
        min := relative.value;
        m := NextPoint(plans[id].plan, from).value;
      } else if relative.value < minRight {
        Counted(plans, done + {id}, from, toActivate[..counter] + [id], min, m);
        Put(toActivate, counter, id);
        counter := counter + 1;
      }
    }
  }

  method Put<T>(buffer: array<T>, at: nat, x: T)
    requires at < buffer.Length
    modifies buffer
    ensures buffer[..at + 1] == old(buffer[..at]) + [x]
  {
    buffer[at] := x;
  }

  /** The state of the selection loop after looking at `done`. */
  ghost predicate Selecting(plans: map<string, Entry>, done: set<string>, from: int, buffer: seq<string>, min: int,
                            m: int)
  {
    if buffer == [] then
      min == 1000000 * LONG_MAX && forall id | id in done && id in plans :: NextPoint(plans[id].plan, from) == None
    else
      && min == 1000000 * m - from
      && multiset(buffer) == multiset(DueAmong(plans, done, from, m))
      && forall id | id in done && id in plans && NextPoint(plans[id].plan, from).Some? ::
           m <= NextPoint(plans[id].plan, from).value
  }

  /** One plan more: it starts the selection afresh, joins it or is passed over. */
  lemma LookedAt(plans: map<string, Entry>, done: set<string>, id: string, from: int, buffer: seq<string>, min: int,
                 m: int)
    requires id in plans && id !in done && IsClock(from)
    requires Selecting(plans, done, from, buffer, min, m)
    requires NextPoint(plans[id].plan, from).Some? ==> NextPoint(plans[id].plan, from).value < TIME_T_MAX - 1
    ensures match NextPoint(plans[id].plan, from)
            case None => Selecting(plans, done + {id}, from, buffer, min, m)
            case Some(t) =>
              var r := 1000000 * t - from;
              if r < min - TOLERANCE then Selecting(plans, done + {id}, from, [id], r, t)
              else if r < min + TOLERANCE then Selecting(plans, done + {id}, from, buffer + [id], min, m)
              else Selecting(plans, done + {id}, from, buffer, min, m)
  {
  }

  /** The buffer cannot overflow: it holds distinct ids that are due at one point. */
  lemma Counted(plans: map<string, Entry>, done: set<string>, from: int, buffer: seq<string>, min: int, m: int)
    requires RoomFor(plans, from) && done <= plans.Keys && buffer != [] && Selecting(plans, done, from, buffer, min, m)
    ensures |buffer| <= MAX_ALARMS
  {
    hide NextPoint;
    BufferSize(buffer, DueAmong(plans, done, from, m));
    SubsetSize(DueAmong(plans, done, from, m), DueIds(plans, from, m));
  }

  lemma BufferSize(buffer: seq<string>, ids: set<string>)
    requires multiset(buffer) == multiset(ids)
    ensures |buffer| == |ids|
  {
    assert |buffer| == |multiset(buffer)| == |multiset(ids)| == |ids|;
  }

  lemma {:induction false} SubsetSize(a: set<string>, b: set<string>)
    requires a <= b
    ensures |a| <= |b|
  {
    if a != {} {
      var x :| x in a;
      SubsetSize(a - {x}, b - {x});
    }
  }

  /** The filtering loop of `remove_timeplan`: every occurrence is overwritten by the last element. */
  method EraseAll(v: seq<string>, id: string) returns (w: seq<string>)
    ensures multiset(w) == multiset(v)[id := 0]
  {
    w := v;
    var size, i := |w|, 0;
    assert w[..size] == v;
    while i < size
      invariant 0 <= i <= size <= |w| == |v|
      invariant id !in w[..size][..i]
      invariant multiset(w[..size])[id := 0] == multiset(v)[id := 0]
      decreases size - i
    {
      ghost var kept := w[..size];
      if w[i] == id {
        size := size - 1;
        if size > i { w := w[i := w[size]]; }
        DropAt(kept, i, w[..size]);
      } else {
        assert w[..size][..i + 1] == w[..size][..i] + [w[i]];
        i := i + 1;
      }
    }
    assert w[..size][..i] == w[..size];
    w := w[..size];
    AlreadyErased(w, id);
  }

  lemma AlreadyErased(w: seq<string>, id: string)
    requires id !in w
    ensures multiset(w)[id := 0] == multiset(w)
  {
  }

  lemma DropAt(a: seq<string>, i: nat, b: seq<string>)
    requires i < |a| && b == (if i < |a| - 1 then a[..|a| - 1][i := a[|a| - 1]] else a[..|a| - 1])
    ensures multiset(b)[a[i] := 0] == multiset(a)[a[i] := 0] && b[..i] == a[..i]
  {
    var last := |a| - 1;
    assert a == a[..last] + [a[last]];
    if i < last {
      var x, y := a[..i], a[i + 1..last];
      assert a == x + [a[i]] + y + [a[last]];
      assert b == x + [a[last]] + y && b[..i] == x;
      Removed(x, y, a[i], a[last]);
    } else {
      Removed(b, [], a[last], a[last]);
      assert b + [a[last]] + [] == a && b + [] == b;
    }
  }

  lemma Removed(x: seq<string>, y: seq<string>, gone: string, last: string)
    ensures multiset(x + [last] + y)[gone := 0] == multiset(x + [gone] + y + [last])[gone := 0]
    ensures multiset(x + y)[gone := 0] == multiset(x + [gone] + y)[gone := 0]
  {
  }

  // ---------- the operations on the state ----------

  /** `timerfd_gettime`: the time left, 0 when the timer is disarmed or has expired. */
  function Remaining(timer: Option<int>, now: int): int {
    match timer
    case Some(a) => if now < a then a - now else 0
    case None => 0
  }

  function AddStatus(s: State, id: string, handler: Option<Handler>): Status {
    if handler.None? then NullArgument
    else if !s.isOpen || s.ongoing then InvalidOperation
    else if id in s.plans then Found
    else Ok
  }

  /** The new point is before the window of the armed instant, or the timer is not running. */
  predicate Rearms(s: State, p: int, now: int) {
    var left := Remaining(s.timer, now);
    left == 0 || 1000000 * p - now < left - TOLERANCE
  }

  predicate Joins(s: State, p: int, now: int) {
    1000000 * p - now < Remaining(s.timer, now) + TOLERANCE
  }

  ghost function AddStep(s: State, id: string, e: Entry, now: int): State {
    var t := s.(plans := s.plans[id := e]);
    match NextPoint(e.plan, now)
    case None => t
    case Some(p) =>
      if Rearms(s, p, now) then t.(alarmed := multiset{id}, armed := 1000000 * p, timer := Some(1000000 * p))
      else if Joins(s, p, now) then t.(alarmed := s.alarmed + multiset{id})
      else t
  }

  function RemoveStatus(s: State, id: string): Status {
    if !s.isOpen || s.ongoing then InvalidOperation
    else if id !in s.plans then NotFound
    else Ok
  }

  /** An addition is accepted exactly if nothing stands against it, and what does is told by the first such thing. */
  lemma AdditionAnswered(s: State, id: string, handler: Option<Handler>)
    ensures var status := AddStatus(s, id, handler);
            && (status == Ok <==> handler != None && s.isOpen && !s.ongoing && id !in s.plans)
            && (status == NullArgument <==> handler == None)
            && (status == InvalidOperation <==> handler != None && (s.isOpen ==> s.ongoing))
            && (status == Found <==> handler != None && s.isOpen && !s.ongoing && id in s.plans)
  {
  }

  lemma RemovalAnswered(s: State, id: string)
    ensures var status := RemoveStatus(s, id);
            && (status == Ok <==> s.isOpen && !s.ongoing && id in s.plans)
            && (status == InvalidOperation <==> (s.isOpen ==> s.ongoing))
            && (status == NotFound <==> s.isOpen && !s.ongoing && id !in s.plans)
  {
  }

  /**
   While the timer runs, a plan is alarmed alone, together with those that are, or not yet, by whether its point lies
   before 750 ms on either side of the armed instant, within them, or after.
   */
  lemma AlarmedByAddition(s: State, id: string, e: Entry, now: int, a: int, p: int)
    requires s.timer == Some(a) && now < a && NextPoint(e.plan, now) == Some(p) && id !in s.alarmed
    ensures var t := AddStep(s, id, e, now);
            && (1000000 * p < a - 750000 <==>
                  t.alarmed == multiset{id} && t.timer == Some(1000000 * p) != s.timer && t.armed == 1000000 * p)
            && (a - 750000 <= 1000000 * p < a + 750000 <==>
                  t.alarmed == s.alarmed + multiset{id} && t.timer == s.timer && t.armed == s.armed)
            && (a + 750000 <= 1000000 * p <==> t.alarmed == s.alarmed && t.timer == s.timer && t.armed == s.armed)
  {
    hide NextPoint;
    assert (s.alarmed + multiset{id})[id] == 1 && s.alarmed[id] == 0;
  }

  /** A timer that does not run, or has expired, is armed for the point alone; a plan that is over is not alarmed. */
  lemma AlarmedAlone(s: State, id: string, e: Entry, now: int)
    requires s.timer.Some? && NextPoint(e.plan, now).Some? ==> s.timer.value <= now
    ensures AddStep(s, id, e, now) ==
              match NextPoint(e.plan, now)
              case Some(p) =>
                State(s.isOpen, s.plans[id := e], multiset{id}, s.ongoing, 1000000 * p, Some(1000000 * p))
              case None => State(s.isOpen, s.plans[id := e], s.alarmed, s.ongoing, s.armed, s.timer)
  {
    hide NextPoint;
  }

  /** Removing the last alarmed plan re-arms the timer for the plans that are left. */
  ghost predicate RemoveStep(s: State, id: string, now: int, s': State) {
    var t := s.(plans := s.plans - {id}, alarmed := s.alarmed[id := 0]);
    if s.alarmed != multiset{} && t.alarmed == multiset{} then Activated(t.(armed := 0, timer := None), now, s')
    else s' == t
  }

  /** The buffers suffice for the operation; they do when no more than 128 plans are registered. */
  ghost predicate RoomToRemove(s: State, id: string, now: int) {
    s.alarmed != multiset{} && s.alarmed[id := 0] == multiset{} ==> RoomFor(s.plans - {id}, now)
  }

  ghost predicate RoomToFire(s: State, now: int) {
    s.isOpen ==> RoomFor(s.plans, now) && |s.alarmed| <= MAX_HANDLERS
  }

  lemma FewSuffice(s: State, id: string, now: int)
    requires s.Valid() && |s.plans| <= MAX_ALARMS
    ensures RoomToRemove(s, id, now) && RoomToFire(s, now)
  {
    hide NextPoint;
    forall m ensures |DueIds(s.plans, now, m)| <= MAX_ALARMS && |DueIds(s.plans - {id}, now, m)| <= MAX_ALARMS {
      SubsetSize(DueIds(s.plans, now, m), s.plans.Keys);
      SubsetSize(DueIds(s.plans - {id}, now, m), s.plans.Keys);
    }
    var ids := set i | i in s.alarmed;
    assert s.alarmed == multiset(ids);
    SubsetSize(ids, s.plans.Keys);
  }

  /** What the handlers are told: the firing comes long after the armed instant. */
  predicate IsInThePast(s: State, now: int) { s.isOpen && now > s.armed + IN_THE_PAST }

  ghost predicate FireStep(s: State, now: int, s': State) {
    Activated(s.(armed := 0, timer := None, ongoing := false), now, s')
  }

  lemma ActivatedValid(s: State, from: int, s': State)
    requires PlansValid(s.plans) && Activated(s, from, s')
    ensures s'.Valid() && s'.plans == s.plans && s'.isOpen == s.isOpen && s'.ongoing == s.ongoing
  {
  }

  /** Whether handlers are being called makes no difference to the activation. */
  lemma OngoingOver(s: State, from: int, s': State)
    requires Activated(s, from, s')
    ensures Activated(s.(ongoing := false), from, s'.(ongoing := false))
  {
  }

  /** Saves the handlers of the alarmed ids into a buffer of fixed size. */
  method SaveHandlers(plans: map<string, Entry>, alarmed: seq<string>) returns (called: seq<Handler>)
    requires |alarmed| <= MAX_HANDLERS && (forall id | id in alarmed :: id in plans)
    ensures |called| == |alarmed| && forall i | 0 <= i < |called| :: called[i] == plans[alarmed[i]].handler
  {
    var cahPtrs := new Handler[MAX_HANDLERS];
    var cahCount := 0;
    for i := 0 to |alarmed|
      invariant cahCount == i
      invariant forall j | 0 <= j < i :: cahPtrs[j] == plans[alarmed[j]].handler
    {
      if alarmed[i] in plans {
        cahPtrs[cahCount] := plans[alarmed[i]].handler;
        cahCount := cahCount + 1;
      }
    }
    called := cahPtrs[..cahCount];
  }

  lemma RemoveStepValid(s: State, id: string, t: State)
    requires s.Valid()
    requires t == s.(plans := s.plans - {id}, alarmed := s.alarmed[id := 0], armed := t.armed, timer := t.timer)
    ensures t.Valid()
  {
  }

  lemma AddStepValid(s: State, id: string, e: Entry, now: int)
    requires s.Valid() && id !in s.plans && e.plan.Valid()
    ensures AddStep(s, id, e, now).Valid()
  {
    hide NextPoint, Rearms, Joins, PlansValid, AlarmsValid;
    PlansGrow(s.plans, id, e);
    AlarmsGrow(s.plans.Keys, s.alarmed, id, AddStep(s, id, e, now).alarmed);
  }

  lemma AlarmsGrow(ids: set<string>, alarmed: multiset<string>, id: string, more: multiset<string>)
    requires id !in ids && AlarmsValid(ids, alarmed)
    requires more == alarmed || more == multiset{id} || more == alarmed + multiset{id}
    ensures AlarmsValid(ids + {id}, more)
  {
  }

  lemma PlansGrow(plans: map<string, Entry>, id: string, e: Entry)
    requires id !in plans && e.plan.Valid() && PlansValid(plans)
    ensures PlansValid(plans[id := e]) && plans[id := e].Keys == plans.Keys + {id}
  {
  }

  lemma ValidPlans(s: State)
    requires s.Valid()
    ensures PlansValid(s.plans)
  {
  }

  class ClockAlarmNotifier {
    var timerOpen: bool
    var timeplanHandlerMap: map<string, Entry>
    var atpAlarmed: seq<string>
    var handleInputOngoing: bool
    var armedTimeval: int
    var kernelTimer: Option<int>

    ghost function View(): State
      reads this
    {
      State(timerOpen, timeplanHandlerMap, multiset(atpAlarmed), handleInputOngoing, armedTimeval, kernelTimer)
    }

    constructor ()
      ensures View() == State(false, map[], multiset{}, false, 0, None) && View().Valid()
    {
      timerOpen, timeplanHandlerMap, atpAlarmed := false, map[], [];
      handleInputOngoing, armedTimeval, kernelTimer := false, 0, None;
    }

    method Open() returns (status: Status)
      requires View().Valid()
      modifies this
      ensures status == (if old(timerOpen) then AlreadyOpen else Ok) && View().Valid()
      ensures View() == if old(timerOpen) then old(View())
                        else old(View()).(isOpen := true, plans := map[], alarmed := multiset{}, timer := None)
    {
      if timerOpen { return AlreadyOpen; }
      timeplanHandlerMap, atpAlarmed, timerOpen, kernelTimer := map[], [], true, None;
      status := Ok;
    }

    method Close() returns (status: Status)
      requires View().Valid()
      modifies this
      ensures status == (if old(handleInputOngoing) then InvalidOperation else Ok) && View().Valid()
      ensures View() == if old(handleInputOngoing || !timerOpen) then old(View())
                        else old(View()).(isOpen := false, plans := map[], alarmed := multiset{}, timer := None)
    {
      if handleInputOngoing { return InvalidOperation; }
      if timerOpen {
        atpAlarmed, timeplanHandlerMap, timerOpen, kernelTimer := [], map[], false, None;
      }
      status := Ok;
    }

    /** Finds the next alarms and arms the timer 750 ms after their point. */
    method ActivateTimerForNextAlarms(tvFrom: int)
      requires RoomFor(timeplanHandlerMap, tvFrom) && PlansValid(timeplanHandlerMap) && IsClock(tvFrom)
      modifies `kernelTimer, `armedTimeval, `atpAlarmed
      ensures Activated(old(View()), tvFrom, View()) && View().Valid()
    {
      hide NextPoint;
      ghost var before := View();
      var selected, least, m := SelectNextAlarms(timeplanHandlerMap, tvFrom);
      atpAlarmed := selected;
      if least.None? {
        assert View() == before.(alarmed := multiset{});
      } else {
        var res := least.value + TOLERANCE + tvFrom;
        kernelTimer := Some(res);
        armedTimeval := res;
        assert View() == ArmedFor(before, tvFrom, m);
      }
      ActivatedValid(before, tvFrom, View());
    }

    method AddTimeplan(id: string, plan: Timeplan, handler: Option<Handler>, tvNow: int) returns (status: Status)
      requires View().Valid() && plan.Valid() && IsClock(tvNow)
      modifies this
      ensures status == old(AddStatus(View(), id, handler)) && View().Valid()
      ensures View() == if status.Ok? then old(AddStep(View(), id, Entry(plan, handler.value), tvNow)) else old(View())
    {
      hide NextPoint, State.Valid;
      if handler.None? { return NullArgument; }
      if !timerOpen { return InvalidOperation; }
      if handleInputOngoing { return InvalidOperation; }
      if id in timeplanHandlerMap { return Found; }
      AddStepValid(View(), id, Entry(plan, handler.value), tvNow);
      var relative := GetNextTimerPoint(plan, tvNow);
      if relative.Some? {
        var current := Remaining(kernelTimer, tvNow);
        if current != 0 {
          if relative.value < current - TOLERANCE {
            ArmAlone(id, relative.value + tvNow);
          } else if relative.value < current + TOLERANCE {
            atpAlarmed := atpAlarmed + [id];
          }
        } else {
          ArmAlone(id, relative.value + tvNow);
        }
      }
      timeplanHandlerMap := timeplanHandlerMap[id := Entry(plan, handler.value)];
      status := Ok;
    }

    method ArmAlone(id: string, at: int)
      modifies `kernelTimer, `armedTimeval, `atpAlarmed
      ensures kernelTimer == Some(at) && armedTimeval == at && atpAlarmed == [id]
    {
      kernelTimer, armedTimeval, atpAlarmed := Some(at), at, [];
      atpAlarmed := atpAlarmed + [id];
    }

    method RemoveTimeplan(id: string, tvNow: int) returns (status: Status)
      requires View().Valid() && IsClock(tvNow) && RoomToRemove(View(), id, tvNow)
      modifies this
      ensures status == old(RemoveStatus(View(), id)) && View().Valid()
      ensures if status.Ok? then RemoveStep(old(View()), id, tvNow, View()) else View() == old(View())
    {
      hide Activated, NextPoint, State.Valid;
      if !timerOpen { return InvalidOperation; }
      if handleInputOngoing { return InvalidOperation; }
      if id !in timeplanHandlerMap { return NotFound; }
      ghost var before := View();
      timeplanHandlerMap := timeplanHandlerMap - {id};
      if |atpAlarmed| != 0 {
        var left := EraseAll(atpAlarmed, id);
        atpAlarmed := left;
        RemoveStepValid(before, id, View());
        if |left| == 0 {
          kernelTimer := None;
          armedTimeval := 0;
          RemoveStepValid(before, id, View());
          ValidPlans(View());
          ActivateTimerForNextAlarms(tvNow);
        }
      } else {
        AlreadyErased(atpAlarmed, id);
        RemoveStepValid(before, id, View());
      }
      status := Ok;
    }

    /** The timer has expired: re-arm it for the next alarms, then call the handlers of those alarmed until now. */
    method HandleInput(tvNow: int) returns (called: seq<Handler>, eventInThePast: bool)
      requires View().Valid() && IsClock(tvNow) && RoomToFire(View(), tvNow)
      modifies this
      ensures View().Valid()
      ensures if old(timerOpen) then FireStep(old(View()), tvNow, View()) else View() == old(View())
      ensures |called| == if old(timerOpen) then |old(atpAlarmed)| else 0
      ensures forall i | 0 <= i < |called| :: called[i] == old(timeplanHandlerMap)[old(atpAlarmed)[i]].handler
      ensures eventInThePast == old(IsInThePast(View(), tvNow))
    {
      hide Activated, NextPoint;
      called, eventInThePast := [], false;
      if !timerOpen { return; }
      assert |multiset(atpAlarmed)| == |atpAlarmed|;
      handleInputOngoing := true;
      if tvNow > armedTimeval + IN_THE_PAST { eventInThePast := true; }
      kernelTimer := None;
      armedTimeval := 0;
      var alarmed := atpAlarmed;
      ghost var before := View();
      ActivateTimerForNextAlarms(tvNow);
      ghost var activated := View();
      OngoingOver(before, tvNow, activated);
      called := SaveHandlers(timeplanHandlerMap, alarmed);
      handleInputOngoing := false;
    }
  }
}
