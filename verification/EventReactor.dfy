/**
 `epoll_event_reactor`: any number of threads share one event monitor under the leader/followers pattern. A critical
 section of the mutex is one step; so is each read of the state and each call on the condition made outside of it.
 */
module EventReactor {
  import opened Prelude

  /** Where a thread is; what the event monitor returned to the leader is carried along. */
  datatype Pc =
    | Outside | Entering | LoopTop | Waiting
    | LeadCheck | Polling | Polled(result: int) | Releasing(result: int)
    | Released(result: int) | Signalling(result: int) | Broadcasting | Dispatching | InCallback

  /** The bits of `_state`, the other fields, the threads, and whether a stop or a failed poll has happened. */
  datatype State = State(
    notLooping: bool, looping: bool, stopping: bool, leadership: bool,
    counter: int, wakeup: bool, stopBroadcasts: nat, threads: seq<Pc>, stopped: bool, failed: bool)

  datatype Event =
    | Run(t: nat) | Enter(t: nat) | Evaluate(t: nat) | CheckLooping(t: nat)
    | PollReturns(t: nat, result: int) | CheckWakeup(t: nat, pollFails: bool) | Release(t: nat)
    | CheckReleased(t: nat) | Signal(t: nat, woken: Option<nat>) | Broadcast(t: nat)
    | Dispatch(t: nat, found: bool) | CallbackReturns(t: nat) | WakeUp(t: nat)
    | Stop | StopBroadcast

  // ---------- the steps ----------

  function At(s: State, t: nat): Pc {
    if t < |s.threads| then s.threads[t] else Outside
  }

  predicate Enabled(s: State, e: Event) {
    match e
    case Run(t) => t < |s.threads| && At(s, t) == Outside
    case Enter(t) => At(s, t) == Entering
    case Evaluate(t) => At(s, t) == LoopTop
    case CheckLooping(t) => At(s, t) == LeadCheck
    case PollReturns(t, result) => At(s, t) == Polling
    case CheckWakeup(t, pollFails) => At(s, t).Polled?
    case Release(t) => At(s, t).Releasing?
    case CheckReleased(t) => At(s, t).Released?
    case Signal(t, woken) => At(s, t).Signalling? && CanWake(s, woken)
    case Broadcast(t) => At(s, t) == Broadcasting
    case Dispatch(t, found) => At(s, t) == Dispatching
    case CallbackReturns(t) => At(s, t) == InCallback
    case WakeUp(t) => At(s, t) == Waiting
    case Stop => true
    case StopBroadcast => s.stopBroadcasts > 0
  }

  /** A signal wakes a waiting thread if there is one. */
  predicate CanWake(s: State, woken: Option<nat>) {
    match woken
    case Some(w) => At(s, w) == Waiting
    case None => forall i | 0 <= i < |s.threads| :: s.threads[i] != Waiting
  }

  /** The top of the loop, under the mutex: leave, wait for the leadership or take it. */
  function TopMove(s: State): Pc {
    if !s.looping then Outside else if s.leadership then Waiting else LeadCheck
  }

  /** The last thread to leave a stopping reactor ends the stop. */
  function TopState(s: State): State {
    if !s.looping then
      var counter := s.counter - 1;
      var last := counter == 0 && s.stopping;
      s.(counter := counter, stopping := s.stopping && !last, notLooping := s.notLooping || last)
    else s.(leadership := true)
  }

  function Actor(e: Event): Option<nat> {
    if e.Stop? || e.StopBroadcast? then None else Some(e.t)
  }

  /** Where the acting thread goes. */
  function Move(s: State, e: Event): Pc
    requires Enabled(s, e) && Actor(e).Some?
  {
    match e
    case Run(t) => if s.stopping then Outside else Entering
    case Enter(t) => TopMove(s)
    case Evaluate(t) => TopMove(s)
    case CheckLooping(t) => if s.looping then Polling else Broadcasting
    case PollReturns(t, result) => Polled(result)
    case CheckWakeup(t, pollFails) => if pollFails || s.wakeup then Broadcasting else Releasing(At(s, t).result)
    case Release(t) => Released(At(s, t).result)
    case CheckReleased(t) => if s.looping then Signalling(At(s, t).result) else Broadcasting
    case Signal(t, woken) => if At(s, t).result > 0 then Dispatching else LoopTop
    case Broadcast(t) => LoopTop
    case Dispatch(t, found) => if s.looping && found then InCallback else LoopTop
    case CallbackReturns(t) => LoopTop
    case WakeUp(t) => LoopTop
  }

  /** Whether a thread waiting on the condition is woken. */
  predicate Wakes(s: State, e: Event, i: nat) {
    match e
    case Signal(t, woken) => woken == Some(i)
    case Broadcast(t) => true
    case Dispatch(t, found) => !s.looping
    case StopBroadcast => true
    case _ => false
  }

  function PcAfter(s: State, e: Event, i: nat): Pc
    requires Enabled(s, e) && i < |s.threads|
  {
    if Actor(e) == Some(i) then Move(s, e)
    else if s.threads[i] == Waiting && Wakes(s, e, i) then LoopTop
    else s.threads[i]
  }

  /** The effect on the state's bits and on the other fields. */
  function Effect(s: State, e: Event): State {
    match e
    case Run(t) => if s.stopping then s else s.(notLooping := false, looping := true)
    case Enter(t) => TopState(s.(counter := s.counter + 1))
    case Evaluate(t) => TopState(s)
    case CheckWakeup(t, pollFails) => if pollFails then s.(failed := true) else s.(wakeup := false)
    case Release(t) => s.(leadership := false)
    case Stop =>
      if s.looping then
        s.(looping := false, stopping := true, wakeup := true, stopBroadcasts := s.stopBroadcasts + 1, stopped := true)
      else s
    case StopBroadcast => if s.stopBroadcasts > 0 then s.(stopBroadcasts := s.stopBroadcasts - 1) else s
    case _ => s
  }

  function Next(s: State, e: Event): State
    requires Enabled(s, e)
  {
    Effect(s, e).(threads := seq(|s.threads|, i requires 0 <= i < |s.threads| => PcAfter(s, e, i)))
  }

  /** An opened reactor that no thread runs yet. */
  predicate Start(s: State) {
    && s.notLooping && !s.looping && !s.stopping && !s.leadership && !s.wakeup && !s.stopped && !s.failed
    && s.counter == 0 && s.stopBroadcasts == 0
    && forall i | 0 <= i < |s.threads| :: s.threads[i] == Outside
  }

  ghost predicate IsRun(ss: seq<State>, es: seq<Event>) {
    && |ss| == |es| + 1 && Start(ss[0])
    && forall i | 0 <= i < |es| :: Enabled(ss[i], es[i]) && ss[i + 1] == Next(ss[i], es[i])
  }

  // ---------- the invariant ----------

  /** From taking the leadership to releasing it. */
  predicate Leads(pc: Pc) { pc == LeadCheck || pc == Polling || pc.Polled? || pc.Releasing? }

  /** From releasing the leadership to the end of the callback. */
  predicate Serves(pc: Pc) { pc.Released? || pc.Signalling? || pc == Dispatching || pc == InCallback }

  function Inside(pc: Pc): int { if pc == Outside || pc == Entering then 0 else 1 }

  predicate OnePhase(s: State) {
    && (s.notLooping || s.looping || s.stopping)
    && !(s.notLooping && s.looping) && !(s.notLooping && s.stopping) && !(s.looping && s.stopping)
  }

  ghost predicate Counted(s: State) { s.counter == Sum(s.threads, Inside) }

  ghost predicate OneLeader(s: State) {
    && (forall i | 0 <= i < |s.threads| && Leads(s.threads[i]) :: s.leadership)
    && forall i, j | 0 <= i < |s.threads| && 0 <= j < |s.threads| && Leads(s.threads[i]) && Leads(s.threads[j]) ::
         i == j
  }

  predicate NoLeader(s: State) { forall i | 0 <= i < |s.threads| :: !Leads(s.threads[i]) }

  /** Only an occupied reactor loops or stops. */
  predicate Occupied(s: State) {
    if s.notLooping then s.counter == 0 else exists i | 0 <= i < |s.threads| :: s.threads[i] != Outside
  }

  /** While stopping, a leader on the monitor is about to be woken, and so are the waiting threads. */
  predicate StopReaches(s: State) {
    s.stopping ==>
      && s.stopped
      && (forall i | 0 <= i < |s.threads| && (s.threads[i] == Polling || s.threads[i].Polled?) :: s.wakeup)
      && (s.stopBroadcasts == 0 ==> forall i | 0 <= i < |s.threads| :: s.threads[i] != Waiting)
  }

  /** Once stopped, the wakeup handle is signalled or the leadership flag is set with nobody leading. */
  predicate Spent(s: State) {
    s.stopped ==>
      && (s.wakeup || (s.leadership && NoLeader(s)))
      && (s.looping ==> forall i | 0 <= i < |s.threads| :: !Serves(s.threads[i]) && !s.threads[i].Releasing?)
  }

  /** Before the first stop, and while no poll fails, the flag tells exactly whether there is a leader. */
  predicate FlagIsLeader(s: State) {
    !s.stopped && !s.failed ==> !s.wakeup && (s.leadership ==> !NoLeader(s))
  }

  /**
   If the leadership is free while threads wait for it, a thread that no callback holds up is about to pass or take it.
   */
  predicate Passed(s: State) {
    s.looping && !s.leadership && (exists i | 0 <= i < |s.threads| :: s.threads[i] == Waiting) ==>
      exists i | 0 <= i < |s.threads| :: Passes(s.threads[i])
  }

  predicate Passes(pc: Pc) { pc == LoopTop || pc.Released? || pc.Signalling? }

  ghost predicate Inv(s: State) {
    && OnePhase(s) && Counted(s) && OneLeader(s) && Occupied(s) && StopReaches(s) && Spent(s) && FlagIsLeader(s)
    && Passed(s)
  }

  lemma StartInv(s: State)
    requires Start(s)
    ensures Inv(s)
  {
    SumOfZeros(s.threads, Inside);
  }

  // ---------- each step keeps the invariant ----------

  /** A step moves its thread and may wake threads that wait. */
  lemma Others(s: State, e: Event)
    requires Enabled(s, e)
    ensures |Next(s, e).threads| == |s.threads| && Next(s, e) == Effect(s, e).(threads := Next(s, e).threads)
    ensures forall i: nat | i < |s.threads| && Actor(e) != Some(i) ::
              Next(s, e).threads[i] == s.threads[i] || (s.threads[i] == Waiting && Next(s, e).threads[i] == LoopTop)
    ensures Actor(e).Some? ==>
              Actor(e).value < |s.threads| && Next(s, e).threads[Actor(e).value] == Move(s, e)
  {
    hide Effect, Move, Wakes, CanWake;
  }

  lemma CountedKept(s: State, e: Event)
    requires Enabled(s, e) && Counted(s)
    ensures Counted(Next(s, e))
  {
    hide Next, Effect, Move, Enabled;
    var us := Next(s, e).threads;
    Others(s, e);
    SumChange(s.threads, us, Inside, Actor(e));
    SumChange(us, s.threads, Inside, Actor(e));
    InsideActor(s, e);
  }

  /** The counter moves with the acting thread. */
  lemma InsideActor(s: State, e: Event)
    requires Enabled(s, e)
    ensures Effect(s, e).counter - s.counter ==
              match Actor(e) case None => 0 case Some(t) => Inside(Move(s, e)) - Inside(At(s, t))
  {
    hide Sum, CanWake;
    match e {
      case Enter(t) => assert Effect(s, e).counter == s.counter + Inside(Move(s, e));
      case Evaluate(t) => assert Effect(s, e).counter == s.counter - 1 + Inside(Move(s, e));
      case _ => NotAtTop(s, e);
    }
  }

  lemma NotAtTop(s: State, e: Event)
    requires Enabled(s, e) && !e.Enter? && !e.Evaluate?
    ensures Effect(s, e).counter == s.counter
    ensures Actor(e).Some? ==> Inside(Move(s, e)) == Inside(At(s, Actor(e).value))
  {
    hide CanWake, TopState, TopMove, Effect;
    SameCounter(s, e);
  }

  lemma SameCounter(s: State, e: Event)
    requires !e.Enter? && !e.Evaluate?
    ensures Effect(s, e).counter == s.counter
  {
    hide TopState;
    match e {
      case Run(t) =>
      case CheckWakeup(t, pollFails) =>
      case Release(t) =>
      case Stop =>
      case StopBroadcast =>
      case _ =>
    }
  }

  /** Nobody is inside when the reactor is not looping. */
  lemma EmptyOutside(s: State)
    requires Counted(s)
    ensures s.counter == 0 <==> forall i | 0 <= i < |s.threads| :: s.threads[i] == Outside || s.threads[i] == Entering
    ensures 0 <= s.counter
  {
    SumOfZeros(s.threads, Inside);
    forall i | 0 <= i < |s.threads|
      ensures Inside(s.threads[i]) == 0 <==> s.threads[i] == Outside || s.threads[i] == Entering
    {}
  }

  lemma PhaseKept(s: State, e: Event)
    requires Enabled(s, e) && OnePhase(s) && Occupied(s) && Counted(s)
    ensures OnePhase(Next(s, e)) && Occupied(Next(s, e))
  {
    hide Next, Counted, Effect, Move, Enabled;
    Others(s, e);
    CountedKept(s, e);
    EmptyOutside(s);
    EmptyOutside(Next(s, e));
    PhaseEffect(s, e);
    OccupiedEffect(s, e);
    if !Next(s, e).notLooping && Next(s, e).counter == 0 && !s.notLooping {
      var i :| 0 <= i < |s.threads| && s.threads[i] != Outside;
      assert Next(s, e).threads[i] != Outside || Actor(e) == Some(i);
    }
  }

  /** A thread that goes out leaves a stopping reactor occupied, or ends the stop. */
  lemma PhaseEffect(s: State, e: Event)
    requires Enabled(s, e) && OnePhase(s)
    requires s.notLooping ==> forall i | 0 <= i < |s.threads| :: s.threads[i] == Outside || s.threads[i] == Entering
    ensures OnePhase(Effect(s, e))
    ensures Effect(s, e).notLooping && !s.notLooping ==> Effect(s, e).counter == 0
    ensures Effect(s, e).notLooping && s.notLooping ==> Effect(s, e).counter == s.counter
  {
  }

  lemma OccupiedEffect(s: State, e: Event)
    requires Enabled(s, e) && OnePhase(s)
    ensures !Effect(s, e).notLooping && s.notLooping ==> Actor(e).Some? && Move(s, e) == Entering
    ensures !Effect(s, e).notLooping && !s.notLooping && Actor(e).Some? && Move(s, e) == Outside && !e.Run? ==>
              Effect(s, e).counter != 0
    ensures e.Run? ==> At(s, e.t) == Outside
  {
    hide CanWake;
  }

  lemma LeaderKept(s: State, e: Event)
    requires Enabled(s, e) && OneLeader(s)
    ensures OneLeader(Next(s, e))
  {
    LeadersAfter(s, e);
    LeaderEffect(s, e);
    hide Next, Effect, Move, Enabled, Leads;
  }

  /** Only the acting thread can start to lead. */
  lemma LeadersAfter(s: State, e: Event)
    requires Enabled(s, e)
    ensures |Next(s, e).threads| == |s.threads| && Next(s, e).leadership == Effect(s, e).leadership
    ensures forall i: nat | i < |s.threads| && Leads(Next(s, e).threads[i]) ::
              if Actor(e) == Some(i) then Leads(Move(s, e)) else Leads(s.threads[i])
  {
    hide Next, Effect, Move, Enabled;
    Others(s, e);
  }

  /** The leadership is taken by the acting thread when it is free, and given back by the leader. */
  lemma LeaderEffect(s: State, e: Event)
    requires Enabled(s, e)
    ensures Actor(e).Some? && Leads(Move(s, e)) ==>
              || (Leads(At(s, Actor(e).value)) && Effect(s, e).leadership == s.leadership)
              || (!s.leadership && Effect(s, e).leadership)
    ensures s.leadership && !Effect(s, e).leadership ==>
              Actor(e).Some? && Leads(At(s, Actor(e).value)) && !Leads(Move(s, e))
  {
  }

  lemma StopReachesKept(s: State, e: Event)
    requires Enabled(s, e) && OnePhase(s) && OneLeader(s) && StopReaches(s)
    ensures StopReaches(Next(s, e))
  {
    hide Next, Effect, Move, Enabled;
    Others(s, e);
    StopEffect(s, e);
    WakeupEffect(s, e);
    if e.StopBroadcast? {
      StopBroadcastWakes(s, e);
    }
  }

  lemma StopEffect(s: State, e: Event)
    requires Enabled(s, e) && OnePhase(s)
    ensures Effect(s, e).stopping ==>
              s.stopping || (Effect(s, e).wakeup && Effect(s, e).stopped && Effect(s, e).stopBroadcasts > 0)
    ensures Effect(s, e).stopping && Actor(e).Some? ==> Move(s, e) != Waiting
    ensures Effect(s, e).stopping && Actor(e).Some? && (Move(s, e) == Polling || Move(s, e).Polled?) ==>
              At(s, Actor(e).value) == Polling
    ensures Effect(s, e).stopping && s.stopBroadcasts > 0 && Effect(s, e).stopBroadcasts == 0 ==> e.StopBroadcast?
  {
  }

  /** The wakeup handle is read by the leader alone, who then leaves the flag set. */
  lemma WakeupEffect(s: State, e: Event)
    requires Enabled(s, e)
    ensures s.stopped ==> Effect(s, e).stopped
    ensures s.wakeup && !Effect(s, e).wakeup ==>
              && Actor(e).Some? && Leads(At(s, Actor(e).value)) && Effect(s, e).leadership == s.leadership
              && Move(s, e) == Broadcasting
  {
  }

  lemma StopBroadcastWakes(s: State, e: Event)
    requires Enabled(s, e) && e.StopBroadcast?
    ensures forall i | 0 <= i < |s.threads| :: Next(s, e).threads[i] != Waiting
  {
  }

  lemma SpentKept(s: State, e: Event)
    requires Enabled(s, e) && OnePhase(s) && Counted(s) && OneLeader(s) && Occupied(s) && Spent(s)
    ensures Spent(Next(s, e))
  {
    hide Next, Effect, Move, Enabled, Counted, OneLeader, Occupied, OnePhase;
    SpentEffect(s, e);
    Others(s, e);
    if s.stopped {
      FlagSpent(s, e);
      if Next(s, e).looping { NoneServes(s, e); }
    }
  }

  lemma FlagSpent(s: State, e: Event)
    requires Enabled(s, e) && OneLeader(s) && (s.wakeup || (s.leadership && NoLeader(s))) && s.stopped
    ensures Next(s, e).stopped && (Next(s, e).wakeup || (Next(s, e).leadership && NoLeader(Next(s, e))))
  {
    hide Next, Effect, Move, Enabled;
    Others(s, e);
    LeaderEffect(s, e);
    WakeupEffect(s, e);
  }

  lemma NoneServes(s: State, e: Event)
    requires Enabled(s, e) && OnePhase(s) && Counted(s) && Occupied(s) && Spent(s) && s.stopped && Next(s, e).looping
    ensures forall i | 0 <= i < |s.threads| :: !Serves(Next(s, e).threads[i]) && !Next(s, e).threads[i].Releasing?
  {
    hide Next, Effect, Move, Enabled, Counted;
    Others(s, e);
    SpentEffect(s, e);
    ServesEffect(s, e);
    if s.notLooping { EmptyOutside(s); }
    forall i | 0 <= i < |s.threads| ensures !Serves(Next(s, e).threads[i]) && !Next(s, e).threads[i].Releasing? {
      assert !Serves(s.threads[i]) && !s.threads[i].Releasing?;
    }
  }

  lemma SpentEffect(s: State, e: Event)
    requires Enabled(s, e)
    ensures Effect(s, e).stopped && !s.stopped ==> Effect(s, e).wakeup && !Effect(s, e).looping
    ensures Effect(s, e).looping && !s.looping ==> !s.stopping && Move(s, e) == Entering
  {
  }

  lemma ServesEffect(s: State, e: Event)
    requires Enabled(s, e)
    ensures Actor(e).Some? && (Serves(Move(s, e)) || Move(s, e).Releasing?) ==>
              var pc := At(s, Actor(e).value); Serves(pc) || pc.Releasing? || (pc.Polled? && !s.wakeup)
  {
  }

  lemma FlagKept(s: State, e: Event)
    requires Enabled(s, e) && OnePhase(s) && Counted(s) && Occupied(s) && StopReaches(s) && FlagIsLeader(s)
    ensures FlagIsLeader(Next(s, e))
  {
    hide Next, Effect, Move, Enabled, Counted;
    Others(s, e);
    StopEffect(s, e);
    WakeupEffect(s, e);
    FlagEffect(s, e);
    if s.notLooping { EmptyOutside(s); }
    if s.leadership && !NoLeader(s) {
      var i :| 0 <= i < |s.threads| && Leads(s.threads[i]);
      assert Actor(e) == Some(i) || Leads(Next(s, e).threads[i]);
    }
  }

  /** A leader loses the leadership flag's sense only by a failed poll, the wakeup handle or the end of the loop. */
  lemma FlagEffect(s: State, e: Event)
    requires Enabled(s, e)
    ensures s.failed ==> Effect(s, e).failed
    ensures Effect(s, e).wakeup ==> s.wakeup || Effect(s, e).stopped
    ensures Effect(s, e).leadership && !s.leadership ==> Actor(e).Some? && Leads(Move(s, e))
    ensures Actor(e).Some? && Leads(At(s, Actor(e).value)) && Effect(s, e).leadership && !Leads(Move(s, e)) ==>
              Effect(s, e).failed || s.wakeup || !s.looping
  {
    hide CanWake;
  }

  lemma PassedKept(s: State, e: Event)
    requires Enabled(s, e) && OnePhase(s) && Counted(s) && Occupied(s) && Passed(s)
    ensures Passed(Next(s, e))
  {
    hide Next, Effect, Move, Enabled, Counted;
    Others(s, e);
    PassedEffect(s, e);
    var s' := Next(s, e);
    if s'.looping && !s'.leadership && exists i | 0 <= i < |s.threads| :: s'.threads[i] == Waiting {
      var w :| 0 <= w < |s.threads| && s'.threads[w] == Waiting;
      assert s.threads[w] == Waiting;
      if s.notLooping { EmptyOutside(s); }
      if s.leadership {
        assert Passes(s'.threads[Actor(e).value]);
      } else {
        var p :| 0 <= p < |s.threads| && Passes(s.threads[p]);
        if e.Signal? { SignalPasses(s, e, w); }
        assert Actor(e) == Some(p) || Passes(s'.threads[p]);
      }
    }
  }

  lemma PassedEffect(s: State, e: Event)
    requires Enabled(s, e)
    ensures Effect(s, e).looping && !s.looping ==> !s.stopping
    ensures Actor(e).Some? && Move(s, e) == Waiting ==> Effect(s, e).leadership
    ensures s.leadership && !Effect(s, e).leadership ==> Actor(e).Some? && Passes(Move(s, e))
    ensures Actor(e).Some? && Passes(At(s, Actor(e).value)) && !e.Signal? && s.looping && !Effect(s, e).leadership ==>
              Passes(Move(s, e))
  {
    hide CanWake;
  }

  lemma SignalPasses(s: State, e: Event, w: nat)
    requires Enabled(s, e) && e.Signal? && w < |s.threads| && s.threads[w] == Waiting
    ensures exists i | 0 <= i < |s.threads| :: Passes(Next(s, e).threads[i])
  {
    assert Passes(Next(s, e).threads[e.woken.value]);
  }

  lemma StepKeeps(s: State, e: Event)
    requires Enabled(s, e) && Inv(s)
    ensures Inv(Next(s, e))
  {
    hide OnePhase, Counted, OneLeader, Occupied, StopReaches, Spent, FlagIsLeader, Passed, Enabled, Next;
    CountedKept(s, e);
    PhaseKept(s, e);
    LeaderKept(s, e);
    StopReachesKept(s, e);
    SpentKept(s, e);
    FlagKept(s, e);
    PassedKept(s, e);
  }

  lemma {:induction false} RunInv(ss: seq<State>, es: seq<Event>, i: nat)
    requires IsRun(ss, es) && i < |ss|
    ensures Inv(ss[i])
  {
    if i == 0 {
      StartInv(ss[0]);
    } else {
      RunInv(ss, es, i - 1);
      StepKeeps(ss[i - 1], es[i - 1]);
    }
  }

  // ---------- what holds in every run ----------

  /** At most one thread is between taking the leadership and releasing it, and the flag is set for it. */
  lemma LeaderExclusion(ss: seq<State>, es: seq<Event>, i: nat, a: nat, b: nat)
    requires IsRun(ss, es) && i < |ss| && Leads(At(ss[i], a)) && Leads(At(ss[i], b))
    ensures a == b && ss[i].leadership
  {
    RunInv(ss, es, i);
  }

  /** One phase at a time; the counter counts the threads inside, and nobody is inside unless looping or stopping. */
  lemma PhaseAndCount(ss: seq<State>, es: seq<Event>, i: nat)
    requires IsRun(ss, es) && i < |ss|
    ensures OnePhase(ss[i]) && ss[i].counter == Sum(ss[i].threads, Inside) >= 0
    ensures ss[i].notLooping ==> forall t: nat :: At(ss[i], t) == Outside || At(ss[i], t) == Entering
    ensures !ss[i].notLooping ==> exists t: nat :: At(ss[i], t) != Outside
  {
    hide IsRun;
    RunInv(ss, es, i);
    EmptyOutside(ss[i]);
    var s := ss[i];
    if !s.notLooping {
      var t :| 0 <= t < |s.threads| && s.threads[t] != Outside;
      assert At(s, t) != Outside;
    }
  }

  lemma {:induction false} StoppedStays(ss: seq<State>, es: seq<Event>, i: nat, j: nat)
    requires IsRun(ss, es) && i <= j < |ss| && ss[i].stopped
    ensures ss[j].stopped
    decreases j
  {
    hide Enabled, Next, Effect, Move;
    if i < j {
      StoppedStays(ss, es, i, j - 1);
      Others(ss[j - 1], es[j - 1]);
      WakeupEffect(ss[j - 1], es[j - 1]);
    }
  }

  /** A callback starts only while looping, and after a stop never again, not even if the loop is run again. */
  lemma NoCallbackAfterStop(ss: seq<State>, es: seq<Event>, j: nat, t: nat)
    requires IsRun(ss, es) && j < |es| && At(ss[j], t) != InCallback && At(ss[j + 1], t) == InCallback
    ensures ss[j].looping && forall i | 0 <= i <= j :: !ss[i].stopped
  {
    RunInv(ss, es, j);
    Others(ss[j], es[j]);
    CallbackStart(ss[j], es[j], t);
    forall i | 0 <= i <= j ensures !ss[i].stopped {
      if ss[i].stopped { StoppedStays(ss, es, i, j); }
    }
  }

  lemma CallbackStart(s: State, e: Event, t: nat)
    requires Enabled(s, e) && At(s, t) != InCallback && At(Next(s, e), t) == InCallback
    ensures s.looping && At(s, t) == Dispatching
  {
  }

  /**
   Before a stop or a failed poll, threads that wait have a leader, or one that no callback holds up is about to lead.
   */
  lemma FollowerTakesOver(ss: seq<State>, es: seq<Event>, i: nat, w: nat)
    requires IsRun(ss, es) && i < |ss| && ss[i].looping && !ss[i].stopped && !ss[i].failed && At(ss[i], w) == Waiting
    ensures exists t: nat :: Leads(At(ss[i], t)) || Passes(At(ss[i], t))
  {
    hide IsRun;
    RunInv(ss, es, i);
    var s := ss[i];
    if s.leadership {
      var t :| 0 <= t < |s.threads| && Leads(s.threads[t]);
      assert Leads(At(s, t));
    } else {
      assert s.threads[w] == Waiting;
      var t :| 0 <= t < |s.threads| && Passes(s.threads[t]);
      assert Passes(At(s, t));
    }
  }

  // ---------- from a poll to its callback ----------

  /** What the thread's last poll has returned. */
  function LastPoll(es: seq<Event>, t: nat): Option<int> {
    if es == [] then None
    else
      var e := es[|es| - 1];
      if e.PollReturns? && e.t == t then Some(e.result) else LastPoll(es[..|es| - 1], t)
  }

  /** A thread that carries a result, or is about to call a handler, has it from its last poll. */
  predicate HasPolled(pc: Pc, last: Option<int>) {
    match pc
    case Polled(r) => last == Some(r)
    case Releasing(r) => last == Some(r)
    case Released(r) => last == Some(r)
    case Signalling(r) => last == Some(r)
    case Dispatching => last.Some? && last.value > 0
    case InCallback => last.Some? && last.value > 0
    case _ => true
  }

  lemma StepHasPolled(s: State, e: Event, t: nat, last: Option<int>)
    requires Enabled(s, e) && HasPolled(At(s, t), last)
    ensures HasPolled(At(Next(s, e), t), if e.PollReturns? && e.t == t then Some(e.result) else last)
  {
    hide Next, Effect, CanWake, TopState;
    Others(s, e);
  }

  lemma {:induction false} RunHasPolled(ss: seq<State>, es: seq<Event>, i: nat, t: nat)
    requires IsRun(ss, es) && i < |ss|
    ensures HasPolled(At(ss[i], t), LastPoll(es[..i], t))
  {
    hide Enabled, Next, HasPolled;
    if i == 0 {
      assert HasPolled(At(ss[0], t), None) by { StartsOutside(ss[0], t); }
    } else {
      RunHasPolled(ss, es, i - 1, t);
      StepHasPolled(ss[i - 1], es[i - 1], t, LastPoll(es[..i - 1], t));
      assert es[..i][..i - 1] == es[..i - 1];
    }
  }

  lemma StartsOutside(s: State, t: nat)
    requires Start(s)
    ensures At(s, t) == Outside && HasPolled(At(s, t), None)
  {
  }

  /** A callback starts exactly if its thread finds the handler while looping, after a poll that reported an event. */
  lemma CallbackIff(ss: seq<State>, es: seq<Event>, j: nat, t: nat)
    requires IsRun(ss, es) && j < |es| && At(ss[j], t) != InCallback
    ensures At(ss[j + 1], t) == InCallback <==> es[j] == Dispatch(t, true) && ss[j].looping
    ensures At(ss[j + 1], t) == InCallback ==> LastPoll(es[..j], t).Some? && LastPoll(es[..j], t).value > 0
  {
    hide CanWake, Next, Effect, TopState, LastPoll;
    Others(ss[j], es[j]);
    RunHasPolled(ss, es, j, t);
  }

  /** The event at j is the thread's next one from i on. */
  predicate IsNextOwn(es: seq<Event>, t: nat, i: nat, j: nat) {
    i <= j < |es| && Actor(es[j]) == Some(t) && forall m | i <= m < j :: Actor(es[m]) != Some(t)
  }

  /** Until then it stays where it is, unless it waits on the condition. */
  lemma {:induction false} StaysUntilOwn(ss: seq<State>, es: seq<Event>, t: nat, i: nat, j: nat)
    requires IsRun(ss, es) && i <= j <= |es| && t < |ss[i].threads| && ss[i].threads[t] != Waiting
    requires forall m | i <= m < j :: Actor(es[m]) != Some(t)
    ensures At(ss[j], t) == At(ss[i], t)
    decreases j
  {
    hide Enabled, Next, Actor;
    if i < j {
      StaysUntilOwn(ss, es, t, i, j - 1);
      Others(ss[j - 1], es[j - 1]);
    }
  }

  /** The thread's next own event, and what it makes of the thread. */
  lemma OwnMove(ss: seq<State>, es: seq<Event>, t: nat, i: nat, j: nat)
    requires IsRun(ss, es) && IsNextOwn(es, t, i, j) && t < |ss[i].threads| && ss[i].threads[t] != Waiting
    ensures Enabled(ss[j], es[j]) && At(ss[j], t) == At(ss[i], t)
    ensures t < |ss[j + 1].threads| && At(ss[j + 1], t) == Move(ss[j], es[j])
  {
    hide Enabled, Next, Actor, Move;
    StaysUntilOwn(ss, es, t, i, j);
    Others(ss[j], es[j]);
    SameThreads(ss, es, i, j);
  }

  lemma {:induction false} SameThreads(ss: seq<State>, es: seq<Event>, i: nat, j: nat)
    requires IsRun(ss, es) && i <= j <= |es|
    ensures |ss[j].threads| == |ss[i].threads|
    decreases j
  {
    hide Enabled, Next, Actor;
    if i < j {
      SameThreads(ss, es, i, j - 1);
      Others(ss[j - 1], es[j - 1]);
    }
  }

  /**
   What a thread does with the result v of its poll, by its next own steps, whatever the others do in between: it keeps
   the leadership if the wakeup handle is signalled or fails; else it gives the leadership back and tells all threads if
   the loop has ended and one if not; and then exactly an event whose handler is found while looping is called for.
   */
  lemma PollPath(ss: seq<State>, es: seq<Event>, t: nat, i: nat, a: nat, b: nat, c: nat, d: nat, e: nat, v: int)
    requires IsRun(ss, es) && i < |ss| && At(ss[i], t) == Polled(v)
    requires IsNextOwn(es, t, i, a) && IsNextOwn(es, t, a + 1, b) && IsNextOwn(es, t, b + 1, c)
    requires IsNextOwn(es, t, c + 1, d) && IsNextOwn(es, t, d + 1, e)
    ensures es[a].CheckWakeup?
    ensures es[a].pollFails || ss[a].wakeup ==>
              At(ss[a + 1], t) == Broadcasting && es[b] == Broadcast(t) && At(ss[b + 1], t) == LoopTop
    ensures !(es[a].pollFails || ss[a].wakeup) ==>
              && es[b] == Release(t) && !ss[b + 1].leadership && es[c] == CheckReleased(t)
              && if !ss[c].looping then es[d] == Broadcast(t) && At(ss[d + 1], t) == LoopTop
                 else
                   && es[d].Signal?
                   && if v <= 0 then At(ss[d + 1], t) == LoopTop
                      else
                        && es[e].Dispatch?
                        && At(ss[e + 1], t) == if ss[e].looping && es[e].found then InCallback else LoopTop
  {
    assert |ss| == |es| + 1;
    hide IsRun, Enabled, Move;
    OwnMove(ss, es, t, i, a);
    AfterPoll(ss[a], es[a], t);
    OwnMove(ss, es, t, a + 1, b);
    AfterPoll(ss[b], es[b], t);
    if !(es[a].pollFails || ss[a].wakeup) {
      ReleaseGivesBack(ss, es, b);
      OwnMove(ss, es, t, b + 1, c);
      AfterPoll(ss[c], es[c], t);
      OwnMove(ss, es, t, c + 1, d);
      AfterPoll(ss[d], es[d], t);
      if ss[c].looping && v > 0 {
        OwnMove(ss, es, t, d + 1, e);
        AfterPoll(ss[e], es[e], t);
      }
    }
  }

  /** From a poll on, what each own step can be and where it takes the thread. */
  lemma AfterPoll(s: State, e: Event, t: nat)
    requires Enabled(s, e) && Actor(e) == Some(t)
    ensures match At(s, t)
            case Polled(v) =>
              e.CheckWakeup? && Move(s, e) == if e.pollFails || s.wakeup then Broadcasting else Releasing(v)
            case Releasing(v) => e == Release(t) && Move(s, e) == Released(v)
            case Released(v) => e == CheckReleased(t) && Move(s, e) == if s.looping then Signalling(v) else Broadcasting
            case Signalling(v) => e.Signal? && Move(s, e) == if v > 0 then Dispatching else LoopTop
            case Broadcasting => e == Broadcast(t) && Move(s, e) == LoopTop
            case Dispatching => e.Dispatch? && Move(s, e) == if s.looping && e.found then InCallback else LoopTop
            case _ => true
  {
    hide CanWake, TopState, TopMove;
  }

  lemma ReleaseGivesBack(ss: seq<State>, es: seq<Event>, b: nat)
    requires IsRun(ss, es) && b < |es| && es[b].Release?
    ensures !ss[b + 1].leadership
  {
    hide Enabled, Next;
    Others(ss[b], es[b]);
  }

  /** A waiting thread is left waiting but by a broadcast, by the signal that is for it, and by a spurious wakeup. */
  lemma WokenIff(s: State, e: Event, w: nat)
    requires Enabled(s, e) && At(s, w) == Waiting
    ensures At(Next(s, e), w) == Waiting <==>
              && !e.Broadcast? && !e.StopBroadcast? && !(e.Dispatch? && !s.looping) && e != WakeUp(w)
              && (e.Signal? ==> e.woken.Some? && e.woken.value != w)
    ensures At(Next(s, e), w) in {Waiting, LoopTop}
  {
    hide Effect;
  }

  // ---------- where the leadership gets lost ----------

  /** Looping with the flag set and nobody leading. */
  predicate Wedged(s: State) { s.looping && s.leadership && NoLeader(s) }

  /** Only a stop ends it: no step but a stop makes a leader. */
  lemma WedgedStays(s: State, e: Event)
    requires Enabled(s, e) && Wedged(s) && !e.Stop?
    ensures Wedged(Next(s, e))
  {
    hide Next, Enabled;
    Others(s, e);
    LeaderEffect(s, e);
    LoopingEffect(s, e);
  }

  lemma LoopingEffect(s: State, e: Event)
    requires Enabled(s, e)
    ensures !e.Stop? && s.looping ==> Effect(s, e).looping
    ensures Effect(s, e).looping && !s.looping ==> e.Run? && !s.stopping && Effect(s, e).leadership == s.leadership
    ensures Actor(e).Some? && Leads(At(s, Actor(e).value)) && s.looping && Effect(s, e).leadership ==>
              (!Leads(Move(s, e)) <==> e.CheckWakeup? && (e.pollFails || s.wakeup))
    ensures e.CheckWakeup? ==>
              Leads(At(s, e.t)) && Effect(s, e).leadership == s.leadership && Effect(s, e).looping == s.looping
    ensures e.Run? && !s.stopping ==> Effect(s, e).looping && Effect(s, e).leadership == s.leadership
    ensures Effect(s, e).leadership && !s.leadership ==> Actor(e).Some? && Leads(Move(s, e))
  {
  }

  /**
   A step loses the leadership exactly when a leader sees a signalled or failing wakeup handle, or a flag left over is
   looped on.
   */
  lemma WedgedIff(s: State, e: Event)
    requires Enabled(s, e) && Inv(s) && !Wedged(s)
    ensures Wedged(Next(s, e)) <==>
              || (e.CheckWakeup? && s.looping && (e.pollFails || s.wakeup))
              || (e.Run? && s.notLooping && s.leadership)
  {
    hide Next, Enabled, Effect, Move, Counted, StopReaches, Spent, FlagIsLeader, Passed;
    Others(s, e);
    LeaderEffect(s, e);
    LoopingEffect(s, e);
    EmptyOutside(s);
    var s' := Next(s, e);
    if s.looping && s.leadership {
      var l :| 0 <= l < |s.threads| && Leads(s.threads[l]);
      assert Actor(e) == Some(l) || Leads(s'.threads[l]);
    }
    if e.Run? && s.notLooping && s.leadership {
      assert NoLeader(s');
    }
  }

  /** `close` then `open`: the stop bit and the leadership flag survive both, the wakeup handle is made anew. */
  function Reopened(s: State): State {
    var closed := if s.looping then Next(Next(s, Stop), StopBroadcast) else s;
    closed.(notLooping := true, wakeup := false)
  }

  /**
   Opened again, a reactor is in one phase exactly if nobody was looping, and it then loops exactly if no flag was
   left.
   */
  lemma ReopenedIff(s: State, t: nat)
    requires Inv(s)
    ensures OnePhase(Reopened(s)) <==> s.notLooping
    ensures Reopened(s).notLooping && !Reopened(s).wakeup && Reopened(s).leadership == s.leadership
    ensures s.notLooping && t < |s.threads| && At(s, t) == Outside ==>
              (Wedged(Next(Reopened(s), Run(t))) <==> s.leadership)
  {
    hide Counted, StopReaches, Spent, FlagIsLeader, Passed, Occupied, OneLeader, CanWake;
    if s.notLooping && t < |s.threads| && At(s, t) == Outside {
      hide Next;
      NobodyLeads(s);
      RunsAgain(Reopened(s), t);
    }
  }

  lemma NobodyLeads(s: State)
    requires Counted(s) && Occupied(s) && s.notLooping
    ensures NoLeader(s)
  {
    EmptyOutside(s);
  }

  lemma RunsAgain(s: State, t: nat)
    requires s.notLooping && !s.looping && NoLeader(s) && t < |s.threads| && At(s, t) == Outside
    ensures Wedged(Next(s, Run(t))) <==> !s.stopping && s.leadership
  {
    hide Next;
    Others(s, Run(t));
  }

  // ---------- the stop drains ----------

  /** How many steps a thread is from being outside of a stopping loop, at most. */
  function Rank(pc: Pc): int {
    match pc
    case Outside => 0
    case Entering => 1
    case LoopTop => 1
    case Waiting => 2
    case InCallback => 2
    case Dispatching => 2
    case Broadcasting => 2
    case Signalling(_) => 3
    case Released(_) => 4
    case Releasing(_) => 5
    case Polled(_) => 6
    case Polling => 7
    case LeadCheck => 8
  }

  ghost function Measure(s: State): int { Sum(s.threads, Rank) + s.stopBroadcasts }

  /** While stopping, another stop or run does nothing; every other step brings the end nearer. */
  lemma DrainStep(s: State, e: Event)
    requires Enabled(s, e) && s.stopping && !s.looping
    ensures if e.Stop? || e.Run? then Next(s, e) == s else Measure(Next(s, e)) < Measure(s)
  {
    hide Sum, CanWake;
    var us := Next(s, e).threads;
    if e.Stop? || e.Run? {
      assert us == s.threads;
    } else {
      Others(s, e);
      RankFalls(s, e);
      SumChange(s.threads, us, Rank, Actor(e));
    }
  }

  lemma RankFalls(s: State, e: Event)
    requires Enabled(s, e) && s.stopping && !s.looping && !e.Stop? && !e.Run?
    ensures Effect(s, e).stopBroadcasts <= s.stopBroadcasts
    ensures match Actor(e)
            case Some(t) => Rank(Move(s, e)) < Rank(At(s, t))
            case None => Effect(s, e).stopBroadcasts < s.stopBroadcasts
  {
    hide CanWake;
  }

  /**
   Steps that happen for sure: no spurious wakeup, no I/O but a signalled wakeup handle, no failing poll; callbacks
   return.
   */
  predicate Certain(s: State, e: Event) {
    && Enabled(s, e) && !e.Run? && !e.Stop? && !e.WakeUp?
    && (e.PollReturns? ==> s.wakeup) && (e.CheckWakeup? ==> !e.pollFails)
  }

  /** A stopping reactor is never stuck. */
  lemma DrainEnabled(s: State) returns (e: Event)
    requires Inv(s) && s.stopping
    ensures Certain(s, e) && Measure(Next(s, e)) < Measure(s)
  {
    hide Counted, OneLeader, Spent, FlagIsLeader, Passed, Sum, Next, Measure;
    if s.stopBroadcasts > 0 {
      e := StopBroadcast;
    } else {
      var t :| 0 <= t < |s.threads| && s.threads[t] != Outside;
      e := OwnStep(s, t);
    }
    DrainStep(s, e);
  }

  lemma OwnStep(s: State, t: nat) returns (e: Event)
    requires t < |s.threads| && s.threads[t] != Outside && s.threads[t] != Waiting
    requires s.threads[t] == Polling ==> s.wakeup
    ensures Certain(s, e) && Actor(e) == Some(t)
  {
    match s.threads[t] {
      case Entering => e := Enter(t);
      case LoopTop => e := Evaluate(t);
      case LeadCheck => e := CheckLooping(t);
      case Polling => e := PollReturns(t, 1);
      case Polled(_) => e := CheckWakeup(t, false);
      case Releasing(_) => e := Release(t);
      case Released(_) => e := CheckReleased(t);
      case Signalling(_) =>
        if w :| 0 <= w < |s.threads| && s.threads[w] == Waiting {
          e := Signal(t, Some(w));
        } else {
          e := Signal(t, None);
        }
      case Broadcasting => e := Broadcast(t);
      case Dispatching => e := Dispatch(t, true);
      case InCallback => e := CallbackReturns(t);
    }
  }

  /** Any steps from a stopping reactor on, but for rejected runs and repeated stops. */
  ghost predicate IsDrain(ss: seq<State>, es: seq<Event>) {
    && |ss| == |es| + 1 && Inv(ss[0]) && ss[0].stopping
    && forall i | 0 <= i < |es| ::
         Enabled(ss[i], es[i]) && ss[i + 1] == Next(ss[i], es[i]) && !es[i].Run? && !es[i].Stop?
  }

  /**
   Every interleaving drains: within the measure's number of steps the reactor is not looping and nobody is inside.
   */
  lemma {:induction false} StopDrains(ss: seq<State>, es: seq<Event>, n: nat)
    requires IsDrain(ss, es) && n < |ss|
    ensures Inv(ss[n])
    ensures (forall i | 0 <= i <= n :: ss[i].stopping) ==> n + Measure(ss[n]) <= Measure(ss[0])
    ensures !ss[n].looping && (!ss[n].stopping ==> ss[n].notLooping && ss[n].counter == 0)
  {
    hide Next, Measure, Sum, Enabled, Counted, OneLeader, StopReaches, Spent, FlagIsLeader, Passed;
    if n > 0 {
      StopDrains(ss, es, n - 1);
      var s, e := ss[n - 1], es[n - 1];
      StepKeeps(s, e);
      LoopingStays(s, e);
      if s.stopping { DrainStep(s, e); }
    }
  }

  lemma LoopingStays(s: State, e: Event)
    requires Enabled(s, e) && !s.looping && !e.Run?
    ensures !Next(s, e).looping
  {
    hide CanWake;
  }

  /** A stop of a looping reactor signals the wakeup handle and leaves one broadcast to make; another does nothing. */
  lemma StopOnce(ss: seq<State>, es: seq<Event>, i: nat)
    requires IsRun(ss, es) && i < |es| && es[i] == Stop
    ensures if ss[i].looping then
              ss[i + 1] == ss[i].(looping := false, stopping := true, wakeup := true, stopped := true,
                                  stopBroadcasts := ss[i + 1].stopBroadcasts) &&
              ss[i + 1].stopBroadcasts == ss[i].stopBroadcasts + 1
            else ss[i + 1] == ss[i]
  {
    assert ss[i + 1].threads == ss[i].threads;
  }

  /** So no more steps than the measure are taken while stopping. */
  lemma StopTakesAtMost(ss: seq<State>, es: seq<Event>)
    requires IsDrain(ss, es) && |es| > Measure(ss[0])
    ensures exists i | 0 <= i < |ss| :: ss[i].notLooping && ss[i].counter == 0
  {
    hide Next, Enabled, Inv, Sum;
    StopDrains(ss, es, |es|);
    SumOfZeros(ss[|es|].threads, Rank);
    if i :| 0 <= i <= |es| && !ss[i].stopping {
      StopDrains(ss, es, i);
    }
  }
}
