/**
 The condition on which `activate` waits. The caller tests the counter and falls asleep in one critical section; a
 thread that starts counts down in another, and signals after it.
 */
module ThreadSetWakeups {
  import opened Prelude
  import opened ThreadSet
  import opened ThreadSetRuns

  /** Whether the caller sleeps, and which threads have counted down and not signalled yet. */
  datatype Waiting = Waiting(s: State, asleep: bool, signalling: set<nat>)

  /** A step of the set, or one of the condition; waking up may be spurious. */
  datatype Move = Base(e: Event) | Sleep | WakeUp | Signal(t: nat)

  /** A thread that has started signals if it found at most two left to count, before it does anything else. */
  function SignalsAfter(s: State, e: Event, signalling: set<nat>): set<nat>
    requires Enabled(s, e) && InBounds(s, e)
  {
    if e.Start? && Next(s, e).f.counter <= 2 then signalling + {e.t} else signalling
  }

  predicate CanMove(w: Waiting, m: Move) {
    match m
    case Base(e) => Enabled(w.s, e) && (e == Finish ==> !w.asleep) && (e.End? ==> e.t !in w.signalling)
    case Sleep => w.s.call.Awaiting? && !w.asleep && w.s.f.counter > 1
    case WakeUp => w.asleep
    case Signal(t) => t in w.signalling
  }

  ghost predicate Moved(w: Waiting, m: Move, w': Waiting) {
    && CanMove(w, m)
    && match m
       case Base(e) => InBounds(w.s, e) ==> w' == Waiting(Next(w.s, e), w.asleep, SignalsAfter(w.s, e, w.signalling))
       case Sleep => w' == w.(asleep := true)
       case WakeUp => w' == w.(asleep := false)
       case Signal(t) => w' == w.(asleep := false, signalling := w.signalling - {t})
  }

  ghost predicate IsWaitingRun(ws: seq<Waiting>, ms: seq<Move>) {
    && |ws| == |ms| + 1
    && ws[0].s.f.Valid() && ws[0] == Waiting(State(Fields(ws[0].s.f.slots, 0, SLOTS, 0, false), Idle, []), false, {})
    && forall i | 0 <= i < |ms| :: Moved(ws[i], ms[i], ws[i + 1])
  }

  /** A caller that sleeps although it may return is about to be signalled. */
  ghost predicate WakesUp(w: Waiting) {
    && Inv(w.s)
    && (w.asleep ==> w.s.call.Awaiting? && (w.s.f.counter <= 1 ==> w.signalling != {}))
  }

  lemma MoveKeeps(w: Waiting, m: Move, w': Waiting)
    requires WakesUp(w) && Moved(w, m, w')
    ensures WakesUp(w')
  {
    hide Regions, Handshake, Started, Ended, InBounds;
    if m.Base? {
      InvKept(w.s, m.e);
      if w.asleep { CountedDown(w.s, m.e); }
    }
  }

  /** While the caller waits, only a thread that starts changes the counter, and it signals when that comes to one. */
  lemma CountedDown(s: State, e: Event)
    requires Enabled(s, e) && InBounds(s, e) && Inv(s) && s.call.Awaiting? && e != Finish
    ensures Next(s, e).call == s.call
    ensures Next(s, e).f.counter == if e.Start? then s.f.counter - 1 else s.f.counter
  {
  }

  lemma {:induction false} WaitingInv(ws: seq<Waiting>, ms: seq<Move>, i: nat)
    requires IsWaitingRun(ws, ms) && i < |ws|
    ensures WakesUp(ws[i])
  {
    hide Moved;
    if i > 0 {
      WaitingInv(ws, ms, i - 1);
      assert Moved(ws[i - 1], ms[i - 1], ws[i]);
      MoveKeeps(ws[i - 1], ms[i - 1], ws[i]);
    }
  }

  /** The caller has gone to sleep, and since then it has not been signalled or woken. */
  function SleepsSince(ms: seq<Move>): bool {
    if ms == [] then false
    else
      match ms[|ms| - 1]
      case Sleep => true
      case WakeUp => false
      case Signal(t) => false
      case Base(e) => SleepsSince(ms[..|ms| - 1])
  }

  ghost predicate HasSignalled(ms: seq<Move>, t: nat) { Signal(t) in ms }

  /** Only threads that have started signal, and none does so twice. */
  ghost predicate SignalsOnce(w: Waiting, ms: seq<Move>) {
    forall t: nat ::
      && (t in w.signalling ==> t < |w.s.threads| && w.s.threads[t] != Created && !HasSignalled(ms, t))
      && (HasSignalled(ms, t) ==> t < |w.s.threads| && w.s.threads[t] != Created)
  }

  /** The caller sleeps exactly from its going to sleep to a signal or spurious wakeup, and each thread signals once. */
  lemma {:induction false} SleepsIff(ws: seq<Waiting>, ms: seq<Move>, i: nat)
    requires IsWaitingRun(ws, ms) && i < |ws|
    ensures ws[i].asleep == SleepsSince(ms[..i]) && SignalsOnce(ws[i], ms[..i])
  {
    if i > 0 {
      SleepsIff(ws, ms, i - 1);
      WaitingInv(ws, ms, i - 1);
      assert Moved(ws[i - 1], ms[i - 1], ws[i]);
      assert ms[..i] == ms[..i - 1] + [ms[i - 1]] && ms[..i][..i - 1] == ms[..i - 1];
      hide IsWaitingRun, SignalsOnce;
      if ms[i - 1].Base? { StaysInBounds(ws[i - 1].s, ms[i - 1].e); }
      SignalsOnceMore(ws[i - 1], ms[i - 1], ws[i], ms[..i - 1], ms[..i]);
    }
  }

  lemma SignalsOnceMore(w: Waiting, m: Move, w': Waiting, before: seq<Move>, ms: seq<Move>)
    requires Moved(w, m, w') && ms == before + [m] && SignalsOnce(w, before) && (m.Base? ==> InBounds(w.s, m.e))
    ensures SignalsOnce(w', ms)
  {
    forall t: nat ensures HasSignalled(ms, t) <==> HasSignalled(before, t) || m == Signal(t) {}
    hide HasSignalled;
  }

  /** A thread that starts signals exactly if, after it, at most one request has neither failed nor started. */
  lemma SignalsIff(ws: seq<Waiting>, ms: seq<Move>, i: nat, t: nat)
    requires IsWaitingRun(ws, ms) && i < |ms| && ms[i] == Base(Start(t)) && ws[i].s.call.Awaiting?
    ensures t in ws[i + 1].signalling <==>
              t in ws[i].signalling ||
              var call := ws[i].s.call;
              call.n - call.failed - call.created + Sum(ws[i + 1].s.threads, Unstarted) <= 1
  {
    var w := ws[i];
    WaitingInv(ws, ms, i);
    assert Moved(w, ms[i], ws[i + 1]);
    InvKept(w.s, Start(t));
    CountedDown(w.s, Start(t));
  }

  /** The caller of `activate` may return: every thread has a slot and every request has been made. */
  predicate MayReturn(s: State) {
    s.call.Awaiting? && AllStarted(s) && s.call.created + s.call.failed == s.call.n
  }

  /**
   No wakeup is lost. In every interleaving, when the caller may return it does not sleep, or a thread is about to
   signal; awake, it can return at once. When it may not return, it goes to sleep again.
   */
  lemma NoLostWakeup(ws: seq<Waiting>, ms: seq<Move>, i: nat)
    requires IsWaitingRun(ws, ms) && i < |ws| && ws[i].s.call.Awaiting?
    ensures MayReturn(ws[i].s) && ws[i].asleep ==> exists t: nat :: CanMove(ws[i], Signal(t))
    ensures !ws[i].asleep ==> (CanMove(ws[i], Base(Finish)) <==> MayReturn(ws[i].s))
    ensures !ws[i].asleep ==> (CanMove(ws[i], Sleep) <==> !MayReturn(ws[i].s))
  {
    var w := ws[i];
    WaitingInv(ws, ms, i);
    CounterTells(w.s);
    if MayReturn(w.s) && w.asleep {
      var t :| t in w.signalling;
      assert CanMove(w, Signal(t));
    }
  }

  /** Once awake and allowed to, the caller stays so until it returns, whatever the other threads do. */
  lemma StaysAwake(ws: seq<Waiting>, ms: seq<Move>, i: nat)
    requires IsWaitingRun(ws, ms) && i < |ms| && MayReturn(ws[i].s) && ms[i] != Base(Finish)
    ensures MayReturn(ws[i + 1].s) && (!ws[i].asleep || ms[i].Signal? ==> !ws[i + 1].asleep)
  {
    var w, m := ws[i], ms[i];
    WaitingInv(ws, ms, i);
    assert Moved(w, m, ws[i + 1]);
    CounterTells(w.s);
    if m.Base? {
      InvKept(w.s, m.e);
      StillAllStarted(w.s, m.e);
    }
  }

  lemma StillAllStarted(s: State, e: Event)
    requires Enabled(s, e) && InBounds(s, e) && Inv(s) && MayReturn(s) && e != Finish
    ensures MayReturn(Next(s, e))
  {
  }
}
