/**
 The thread set over all interleavings: one caller creates threads, they start and end in any order, and joins come
 in between.
 */
module ThreadSetRuns {
  import opened Prelude
  import opened ThreadSet

  /** Where the record of a thread belongs once the thread has ended. */
  datatype Place = InFront | InBack | Dropped

  datatype Thread = Created | Running(index: nat) | Gone(place: Place)

  /** How far `activate` has come, with its local variables. */
  datatype Call =
    | Idle
    | Begun(n: int)
    | Creating(n: int, created: int, failed: int, index: int)
    | Awaiting(n: int, created: int, failed: int)

  datatype State = State(f: Fields, call: Call, threads: seq<Thread>)

  datatype Event =
    | Activate(n: int) | AttributesFail | ReadIndex | Create(ok: bool) | StopCreating | Finish
    | Start(t: nat) | End(t: nat, detached: bool) | BeginJoin | EndJoin

  // ---------- the steps ----------

  predicate Creates(s: State) {
    s.call.Creating? && s.call.created + s.call.failed < s.call.n && s.call.index < s.f.joinWait
  }

  predicate Enabled(s: State, e: Event) {
    match e
    case Activate(n) => ActivateStatus(s.f, n) == Ok
    case AttributesFail => s.call.Begun?
    case ReadIndex => s.call.Begun?
    case Create(ok) => Creates(s)
    case StopCreating => s.call.Creating? && !Creates(s)
    case Finish => s.call.Awaiting? && s.f.counter <= 1
    case Start(t) => t < |s.threads| && s.threads[t] == Created
    case End(t, detached) => t < |s.threads| && s.threads[t].Running?
    case BeginJoin => s.f.counter <= 0 && !s.f.joining
    case EndJoin => s.f.joining
  }

  /** The step stays within the array. */
  predicate InBounds(s: State, e: Event)
    requires Enabled(s, e)
  {
    && s.f.Valid()
    && (e.Start? ==> s.f.running < SLOTS)
    && (e.End? ==> s.threads[e.t].index < SLOTS && s.f.running > 0)
  }

  function Ending(joining: bool, detached: bool): Place {
    if joining then InFront else if detached then Dropped else InBack
  }

  function Next(s: State, e: Event): State
    requires Enabled(s, e) && InBounds(s, e)
  {
    match e
    case Activate(n) => s.(call := Begun(n), f := s.f.(counter := n + 1))
    case AttributesFail => s.(call := Idle, f := s.f.(counter := 0))
    case ReadIndex => s.(call := Creating(s.call.n, 0, 0, s.f.running))
    case Create(ok) =>
      var Creating(n, created, failed, index) := s.call;
      if ok then s.(call := Creating(n, created + 1, failed, index + 1), threads := s.threads + [Created])
      else s.(call := Creating(n, created, failed + 1, index), f := s.f.(counter := s.f.counter - 1))
    case StopCreating => s.(call := Awaiting(s.call.n, s.call.created, s.call.failed))
    case Finish => s.(call := Idle, f := s.f.(counter := 0))
    case Start(t) => s.(f := Started(s.f, t), threads := s.threads[t := Running(s.f.running)])
    case End(t, detached) =>
      s.(f := Ended(s.f, s.threads[t].index, detached), threads := s.threads[t := Gone(Ending(s.f.joining, detached))])
    case BeginJoin => s.(f := s.f.(joining := true))
    case EndJoin => s.(f := s.f.(joining := false))
  }

  /** Out of the array's bounds anything may happen. */
  ghost predicate Step(s: State, e: Event, s': State) {
    Enabled(s, e) && (InBounds(s, e) ==> s' == Next(s, e))
  }

  ghost predicate IsRun(ss: seq<State>, es: seq<Event>) {
    && |ss| == |es| + 1
    && ss[0].f.Valid() && ss[0] == State(Fields(ss[0].f.slots, 0, SLOTS, 0, false), Idle, [])
    && forall i | 0 <= i < |es| :: Step(ss[i], es[i], ss[i + 1])
  }

  // ---------- the regions and the handshake ----------

  function Unstarted(t: Thread): int { if t.Created? then 1 else 0 }
  function Live(t: Thread): int { if t.Running? then 1 else 0 }

  /** The threads created that have no slot yet fit between the regions, and every live thread has one. */
  ghost predicate Regions(s: State) {
    && s.f.Valid()
    && s.f.running + Sum(s.threads, Unstarted) <= s.f.joinWait
    && 0 <= Sum(s.threads, Live) <= s.f.running
    && forall t | 0 <= t < |s.threads| && s.threads[t].Running? :: s.threads[t].index < SLOTS
  }

  /** The counter is one more than the requests that neither failed nor started. */
  ghost predicate Handshake(s: State) {
    var u := Sum(s.threads, Unstarted);
    && 0 <= u
    && (s.f.joining ==> s.call.Idle?)
    && match s.call
       case Idle => s.f.counter == 0 && u == 0
       case Begun(n) => s.f.counter == n + 1 && u == 0 && n > 0
       case Creating(n, created, failed, index) =>
         && s.f.counter == 1 + n - failed - (created - u) && u <= created && 0 <= failed && created + failed <= n
         && s.f.running + u <= index
       case Awaiting(n, created, failed) =>
         s.f.counter == 1 + n - failed - (created - u) && u <= created && 0 <= failed && created + failed <= n
  }

  ghost predicate Inv(s: State) { Regions(s) && Handshake(s) }

  lemma SumsAfter(s: State, e: Event)
    requires Enabled(s, e) && InBounds(s, e)
    ensures Sum(Next(s, e).threads, Unstarted) ==
              Sum(s.threads, Unstarted) + (if e.Create? && e.ok then 1 else if e.Start? then -1 else 0)
    ensures Sum(Next(s, e).threads, Live) == Sum(s.threads, Live) + (if e.Start? then 1 else if e.End? then -1 else 0)
  {
    hide Sum, Started, Ended;
    match e {
      case Create(ok) => SumMore(s.threads, Unstarted, Created); SumMore(s.threads, Live, Created);
      case Start(t) =>
        SumUpdate(s.threads, Unstarted, t, Running(s.f.running));
        SumUpdate(s.threads, Live, t, Running(s.f.running));
      case End(t, detached) =>
        SumUpdate(s.threads, Unstarted, t, Gone(Ending(s.f.joining, detached)));
        SumUpdate(s.threads, Live, t, Gone(Ending(s.f.joining, detached)));
      case _ =>
    }
  }

  /** No step leaves the array. */
  lemma StaysInBounds(s: State, e: Event)
    requires Enabled(s, e) && Inv(s)
    ensures InBounds(s, e)
  {
    if e.Start? { Counts(s.threads, Unstarted, e.t); }
    if e.End? { Counts(s.threads, Live, e.t); }
  }

  lemma Counts(ts: seq<Thread>, w: Thread -> int, t: nat)
    requires t < |ts| && w(ts[t]) == 1 && forall x :: 0 <= w(x)
    ensures Sum(ts, w) > 0
  {
    SumOfZeros(ts, w);
  }

  lemma InvKept(s: State, e: Event)
    requires Enabled(s, e) && Inv(s)
    ensures InBounds(s, e) && Inv(Next(s, e))
  {
    hide Sum;
    StaysInBounds(s, e);
    SumsAfter(s, e);
    RegionsKept(s, e);
    HandshakeKept(s, e);
  }

  lemma RegionsKept(s: State, e: Event)
    requires Enabled(s, e) && InBounds(s, e) && Inv(s)
    ensures Regions(Next(s, e))
  {
    hide Sum;
    SumsAfter(s, e);
    SumOfZeros(s.threads, Live);
    SumOfZeros(s.threads, Unstarted);
    SumOfZeros(Next(s, e).threads, Live);
    if e.End? && !s.f.joining { ExitFront(s.f, s.threads[e.t].index, e.detached); }
  }

  lemma HandshakeKept(s: State, e: Event)
    requires Enabled(s, e) && InBounds(s, e) && Inv(s)
    ensures Handshake(Next(s, e))
  {
    hide Sum;
    SumsAfter(s, e);
    SumOfZeros(Next(s, e).threads, Unstarted);
  }

  lemma {:induction false} RunInv(ss: seq<State>, es: seq<Event>, i: nat)
    requires IsRun(ss, es) && i < |ss|
    ensures Inv(ss[i])
  {
    hide Enabled, Next;
    if i > 0 {
      RunInv(ss, es, i - 1);
      assert Step(ss[i - 1], es[i - 1], ss[i]);
      InvKept(ss[i - 1], es[i - 1]);
    }
  }

  // ---------- what holds in every run ----------

  /** The regions never overlap, not even counting the threads that have no slot yet, and no step leaves the array. */
  lemma RegionsNeverOverlap(ss: seq<State>, es: seq<Event>, i: nat)
    requires IsRun(ss, es) && i < |ss|
    ensures 0 <= ss[i].f.running <= ss[i].f.running + Sum(ss[i].threads, Unstarted) <= ss[i].f.joinWait <= SLOTS == 32
    ensures i < |es| ==> Step(ss[i], es[i], ss[i + 1]) && InBounds(ss[i], es[i]) && ss[i + 1] == Next(ss[i], es[i])
  {
    hide Next, Enabled;
    RunInv(ss, es, i);
    assert i < |es| ==> Step(ss[i], es[i], ss[i + 1]);
    SumOfZeros(ss[i].threads, Unstarted);
    if i < |es| { StaysInBounds(ss[i], es[i]); }
  }

  /** One caller at a time: while one activates, other activations and joins are turned away. */
  lemma OneActivation(ss: seq<State>, es: seq<Event>, i: nat, n: int)
    requires IsRun(ss, es) && i < |ss| && !ss[i].call.Idle?
    ensures !Enabled(ss[i], Activate(n)) && !Enabled(ss[i], BeginJoin)
  {
    RunInv(ss, es, i);
  }

  // ---------- what is under way, by what has happened ----------

  /** The requests since the last activation began, and how many of them have failed. */
  function Made(es: seq<Event>, ok: bool): nat {
    if es == [] || es[|es| - 1].Activate? then 0
    else Made(es[..|es| - 1], ok) + if es[|es| - 1] == Create(ok) then 1 else 0
  }

  /** How many threads the activation under way is to create: none, if it has failed or returned. */
  function Asked(es: seq<Event>): Option<int> {
    if es == [] then None
    else
      match es[|es| - 1]
      case Activate(n) => Some(n)
      case AttributesFail => None
      case Finish => None
      case _ => Asked(es[..|es| - 1])
  }

  function JoinsSince(es: seq<Event>): bool {
    if es == [] then false
    else
      match es[|es| - 1]
      case BeginJoin => true
      case EndJoin => false
      case _ => JoinsSince(es[..|es| - 1])
  }

  function ThreadsMade(es: seq<Event>): nat {
    if es == [] then 0 else ThreadsMade(es[..|es| - 1]) + if es[|es| - 1] == Create(true) then 1 else 0
  }

  ghost predicate Recalls(s: State, es: seq<Event>) {
    && (s.call.Idle? <==> Asked(es).None?) && (!s.call.Idle? ==> Asked(es) == Some(s.call.n))
    && (s.call.Begun? ==> Made(es, true) == Made(es, false) == 0)
    && (s.call.Creating? || s.call.Awaiting? ==> s.call.created == Made(es, true) && s.call.failed == Made(es, false))
    && s.f.joining == JoinsSince(es) && |s.threads| == ThreadsMade(es)
  }

  /** The set knows what has happened: the activation under way with its requests, the join under way, the threads. */
  lemma {:induction false} RecallsRun(ss: seq<State>, es: seq<Event>, i: nat)
    requires IsRun(ss, es) && i < |ss|
    ensures Recalls(ss[i], es[..i])
  {
    if i > 0 {
      RecallsRun(ss, es, i - 1);
      RegionsNeverOverlap(ss, es, i - 1);
      RunInv(ss, es, i - 1);
      assert es[..i][..i - 1] == es[..i - 1] && es[..i][i - 1] == es[i - 1];
      hide IsRun, InBounds, Made, Asked, JoinsSince, ThreadsMade;
      RecallsMore(ss[i - 1], es[i - 1], es[..i]);
    }
  }

  lemma RecallsMore(s: State, e: Event, es: seq<Event>)
    requires es != [] && es[|es| - 1] == e && Enabled(s, e) && InBounds(s, e) && Inv(s) && Recalls(s, es[..|es| - 1])
    ensures Recalls(Next(s, e), es)
  {
    hide Sum;
  }

  /**
   The caller of `activate` goes on: it reads the index, makes one request after the other until all are made or no slot
   is left by its count, and then waits.
   */
  lemma CallGoesOn(ss: seq<State>, es: seq<Event>, i: nat, ok: bool)
    requires IsRun(ss, es) && i < |ss|
    ensures var s := ss[i];
            && (Enabled(s, ReadIndex) <==> s.call.Begun?)
            && (Enabled(s, Create(ok)) <==>
                  && s.call.Creating? && s.call.index < s.f.joinWait
                  && Made(es[..i], true) + Made(es[..i], false) < s.call.n)
            && (Enabled(s, StopCreating) <==> s.call.Creating? && !Enabled(s, Create(ok)))
  {
    RecallsRun(ss, es, i);
    hide Made, Asked, JoinsSince, ThreadsMade, Recalls;
    RegionsNeverOverlap(ss, es, i);
  }

  /** What a request to activate n threads is answered in every run, and when a join is let in. */
  lemma RequestAnswered(ss: seq<State>, es: seq<Event>, i: nat, n: int)
    requires IsRun(ss, es) && i < |ss|
    ensures var s, status := ss[i], ActivateStatus(ss[i].f, n);
            && (status == InvalidArgument <==> n <= 0)
            && (status == InvalidOperation <==> n > 0 && (!s.call.Idle? || s.f.joining))
            && (status == NoResources <==> n > 0 && s.call.Idle? && !s.f.joining && s.f.running == s.f.joinWait)
            && (status == Ok <==> n > 0 && s.call.Idle? && !s.f.joining && s.f.running < s.f.joinWait)
            && (Enabled(s, BeginJoin) <==> s.call.Idle? && !s.f.joining)
  {
    hide Sum;
    RunInv(ss, es, i);
  }

  predicate AllStarted(s: State) { forall t | 0 <= t < |s.threads| :: s.threads[t] != Created }

  /** `activate` returns exactly when every thread has a slot and every request has been made. */
  lemma FinishIff(ss: seq<State>, es: seq<Event>, i: nat)
    requires IsRun(ss, es) && i < |ss| && ss[i].call.Awaiting?
    ensures Enabled(ss[i], Finish) <==> AllStarted(ss[i]) && ss[i].call.created + ss[i].call.failed == ss[i].call.n
  {
    RunInv(ss, es, i);
    CounterTells(ss[i]);
  }

  lemma CounterTells(s: State)
    requires Inv(s) && s.call.Awaiting?
    ensures s.f.counter <= 1 <==> AllStarted(s) && s.call.created + s.call.failed == s.call.n
  {
    SumOfZeros(s.threads, Unstarted);
    forall t | 0 <= t < |s.threads| ensures Unstarted(s.threads[t]) == 0 <==> s.threads[t] != Created {}
  }

  /** An activation that ran out of slots never returns. */
  lemma {:induction false} CutShortNeverReturns(ss: seq<State>, es: seq<Event>, i: nat, j: nat)
    requires IsRun(ss, es) && i <= j < |ss|
    requires ss[i].call.Awaiting? && ss[i].call.created + ss[i].call.failed < ss[i].call.n
    ensures ss[j].call == ss[i].call && !Enabled(ss[j], Finish)
    decreases j
  {
    hide Enabled, Next;
    if i < j {
      CutShortNeverReturns(ss, es, i, j - 1);
      RegionsNeverOverlap(ss, es, j - 1);
      RunInv(ss, es, j - 1);
      CallStays(ss[j - 1], es[j - 1]);
    }
    FinishIff(ss, es, j);
  }

  lemma CallStays(s: State, e: Event)
    requires Enabled(s, e) && InBounds(s, e) && Inv(s) && s.call.Awaiting? && e != Finish
    ensures Next(s, e).call == s.call
  {
  }

  // ---------- every record in its place ----------

  /** Every live thread holds the index of its own record. */
  ghost predicate AllRight(s: State) {
    forall t: nat | t < |s.threads| && s.threads[t].Running? ::
      s.threads[t].index < s.f.running <= |s.f.slots| && s.f.slots[s.threads[t].index] == t
  }

  function FrontCount(ts: seq<Thread>, t: nat): nat {
    if t < |ts| && (ts[t].Running? || ts[t] == Gone(InFront)) then 1 else 0
  }

  function BackCount(ts: seq<Thread>, t: nat): nat {
    if t < |ts| && ts[t] == Gone(InBack) then 1 else 0
  }

  /** Each record is once in the region where it belongs: `join` goes through every thread not dropped exactly once. */
  ghost predicate Conserved(s: State)
    requires s.f.Valid()
  {
    forall t: nat :: s.f.Front()[t] == FrontCount(s.threads, t) && s.f.Back()[t] == BackCount(s.threads, t)
  }

  lemma StartConserves(s: State, t: nat)
    requires Enabled(s, Start(t)) && Inv(s) && InBounds(s, Start(t)) && Next(s, Start(t)).f.Valid() && Conserved(s)
    ensures Conserved(Next(s, Start(t)))
  {
    hide Inv;
    StartMoves(s.f, t);
    hide Started, Fields.Front, Fields.Back;
    var s' := Next(s, Start(t));
    assert s'.threads[t].Running?;
    forall x: nat ensures s'.f.Front()[x] == FrontCount(s'.threads, x) && s'.f.Back()[x] == BackCount(s'.threads, x) {
      assert s.f.Front()[x] == FrontCount(s.threads, x) && s.f.Back()[x] == BackCount(s.threads, x);
    }
  }

  lemma StartMoves(f: Fields, me: Record)
    requires f.Valid() && f.running < SLOTS && Started(f, me).Valid()
    ensures Started(f, me).Front() == f.Front() + multiset{me} && Started(f, me).Back() == f.Back()
  {
    var g := Started(f, me);
    assert g.slots[..g.running] == f.slots[..f.running] + [me];
    assert g.slots[g.joinWait..] == f.slots[f.joinWait..];
  }

  lemma EndConservesIff(s: State, t: nat, detached: bool)
    requires Enabled(s, End(t, detached)) && Inv(s) && InBounds(s, End(t, detached)) && Conserved(s)
    ensures var my := s.threads[t].index;
            && Next(s, End(t, detached)).f.Valid()
            && (Conserved(Next(s, End(t, detached))) <==>
                  s.f.joining || (Taken(s.f, my) == t && (detached || Given(s.f, my) == t)))
  {
    hide Ended, Taken, Given, Fields.Front, Fields.Back, Inv;
    var my, s' := s.threads[t].index, Next(s, End(t, detached));
    if s.f.joining {
      assert s'.f == s.f by { JoiningKeeps(s.f, my, detached); }
    } else {
      EndCounts(s.f, my, detached);
      assert s'.f.Front()[t] == s.f.Front()[t] - if t == Taken(s.f, my) then 1 else 0;
      assert s'.f.Back()[t] == s.f.Back()[t] + if !detached && t == Given(s.f, my) then 1 else 0;
    }
  }

  /** What an exit does to the count of each record. */
  lemma EndCounts(f: Fields, my: nat, detached: bool)
    requires f.Valid() && my < SLOTS && f.running > 0 && !f.joining
    ensures Ended(f, my, detached).Valid()
    ensures forall x: nat ::
              && Ended(f, my, detached).Front()[x] == f.Front()[x] - (if x == Taken(f, my) then 1 else 0)
              && Ended(f, my, detached).Back()[x] == f.Back()[x] + if !detached && x == Given(f, my) then 1 else 0
  {
    hide Ended, Taken, Given, Fields.Front, Fields.Back;
    ExitMoves(f, my, detached);
  }

  lemma JoiningKeeps(f: Fields, my: nat, detached: bool)
    requires f.Valid() && my < SLOTS && f.running > 0 && f.joining
    ensures Ended(f, my, detached) == f
  {
  }

  /** Other steps move no record. */
  lemma OthersConserve(s: State, e: Event)
    requires Enabled(s, e) && Inv(s) && InBounds(s, e) && Conserved(s) && !e.Start? && !e.End?
    ensures Next(s, e).f.Valid() && Conserved(Next(s, e))
    ensures AllRight(s) ==> AllRight(Next(s, e))
  {
    hide Fields.Front, Fields.Back, Inv;
    var s' := Next(s, e);
    assert s'.f.Front() == s.f.Front() && s'.f.Back() == s.f.Back() by { SameRegions(s.f, s'.f); }
    forall x: nat
      ensures FrontCount(s'.threads, x) == FrontCount(s.threads, x)
      ensures BackCount(s'.threads, x) == BackCount(s.threads, x)
    {}
  }

  lemma SameRegions(f: Fields, g: Fields)
    requires f.Valid() && g == f.(counter := g.counter, joining := g.joining)
    ensures g.Valid() && g.Front() == f.Front() && g.Back() == f.Back()
  {
  }

  lemma StartKeepsRight(s: State, t: nat)
    requires Enabled(s, Start(t)) && Inv(s) && InBounds(s, Start(t)) && AllRight(s)
    ensures AllRight(Next(s, Start(t)))
  {
  }

  /** The thread is live and holds the index of the last running slot. */
  predicate HasLast(s: State, u: nat) {
    u < |s.threads| && s.threads[u].Running? && s.threads[u].index == s.f.running - 1
  }

  ghost predicate OnlyLast(s: State, t: nat) { forall u: nat | HasLast(s, u) :: u == t }

  /**
   Ending a thread keeps the other threads' indices right exactly when no live thread has the last slot, or only this
   one.
   */
  lemma EndKeepsRightIff(s: State, t: nat, detached: bool)
    requires Enabled(s, End(t, detached)) && Inv(s) && InBounds(s, End(t, detached)) && AllRight(s)
    ensures AllRight(Next(s, End(t, detached))) <==>
              s.f.joining || OnlyLast(s, t)
  {
    hide Inv;
    var my, s' := s.threads[t].index, Next(s, End(t, detached));
    if u: nat :| u < |s.threads| && HasLast(s, u) && u != t && !s.f.joining {
      assert s'.threads[u].Running? && s'.threads[u].index >= s'.f.running;
    } else {
      forall u: nat | u < |s'.threads| && s'.threads[u].Running?
        ensures s'.threads[u].index < s'.f.running <= |s'.f.slots| && s'.f.slots[s'.threads[u].index] == u
      {
        assert s.threads[u] == s'.threads[u] && u != t;
        assert s.f.joining || !HasLast(s, u);
        assert s.f.slots[s.threads[u].index] == u && s.f.slots[my] == t;
      }
    }
  }

  /** No thread ends while another live thread has the last running slot. */
  ghost predicate EndsLast(s: State, e: Event) {
    e.End? && !s.f.joining ==> OnlyLast(s, e.t)
  }

  /** While threads end in that order, in every interleaving of the rest, no record is lost, doubled or misplaced. */
  lemma {:induction false} RecordsConserved(ss: seq<State>, es: seq<Event>, i: nat)
    requires IsRun(ss, es) && i < |ss| && forall k | 0 <= k < i :: EndsLast(ss[k], es[k])
    ensures ss[i].f.Valid() && Conserved(ss[i]) && AllRight(ss[i])
  {
    hide Enabled, Next, Inv, EndsLast;
    if i > 0 {
      RecordsConserved(ss, es, i - 1);
      RegionsNeverOverlap(ss, es, i - 1);
      RunInv(ss, es, i - 1);
      RunInv(ss, es, i);
      StepConserves(ss[i - 1], es[i - 1]);
    }
  }

  lemma StepConserves(s: State, e: Event)
    requires Enabled(s, e) && Inv(s) && InBounds(s, e) && Conserved(s) && AllRight(s) && EndsLast(s, e)
    ensures Next(s, e).f.Valid() && Conserved(Next(s, e)) && AllRight(Next(s, e))
  {
    hide Conserved;
    InvKept(s, e);
    hide Inv, Ended, Started;
    match e {
      case Start(t) => StartConserves(s, t); StartKeepsRight(s, t);
      case End(t, detached) => EndConservesIff(s, t, detached); EndKeepsRightIff(s, t, detached);
      case _ => OthersConserve(s, e);
    }
  }

  /**
   A thread whose record an earlier exit has moved keeps its old index. When it ends, its own record is the one that is
   moved exactly if it is now the last in front; otherwise another live thread's record is taken.
   */
  lemma StaleIndex(s: State, t: nat, u: nat, detached: bool, uDetached: bool)
    requires Inv(s) && Conserved(s) && AllRight(s) && !s.f.joining && t != u
    requires t < |s.threads| && s.threads[t].Running? && HasLast(s, u)
    ensures InBounds(s, End(t, detached))
    ensures var s' := Next(s, End(t, detached));
            && Enabled(s', End(u, uDetached)) && InBounds(s', End(u, uDetached))
            && Next(s', End(u, uDetached)).f.Valid()
            && (Conserved(Next(s', End(u, uDetached))) <==> s.threads[t].index == s.f.running - 2)
  {
    hide Inv, Conserved, Ended, Taken, Given;
    InvKept(s, End(t, detached));
    EndConservesIff(s, t, detached);
    assert Taken(s.f, s.threads[t].index) == t && Given(s.f, s.threads[t].index) == t by { OwnRecord(s, t); }
    var s' := Next(s, End(t, detached));
    InvKept(s', End(u, uDetached));
    EndConservesIff(s', u, uDetached);
    FrontOnce(s, u);
    StaleTaken(s.f, s.threads[t].index, u, detached);
    assert !s'.f.joining by { JoiningSame(s.f, s.threads[t].index, detached); }
  }

  lemma JoiningSame(f: Fields, my: nat, detached: bool)
    requires f.Valid() && my < SLOTS && f.running > 0
    ensures Ended(f, my, detached).joining == f.joining
  {
  }

  lemma OwnRecord(s: State, t: nat)
    requires AllRight(s) && s.f.Valid() && t < |s.threads| && s.threads[t].Running?
    ensures s.threads[t].index < SLOTS && s.f.running > 0
    ensures Taken(s.f, s.threads[t].index) == t && Given(s.f, s.threads[t].index) == t
  {
  }

  /** In front, no other slot has the record of u. */
  lemma FrontOnce(s: State, u: nat)
    requires s.f.Valid() && Conserved(s) && AllRight(s) && HasLast(s, u)
    ensures forall i: nat | i < s.f.running - 1 :: s.f.slots[i] != u
  {
    assert s.f.Front()[u] == FrontCount(s.threads, u) <= 1;
    forall i: nat | i < s.f.running - 1 ensures s.f.slots[i] != u {
      if s.f.slots[i] == u {
        CountedTwice(s.f.slots[..s.f.running], i, s.f.running - 1);
      }
    }
  }

  lemma StaleTaken(f: Fields, my: nat, u: Record, detached: bool)
    requires f.Valid() && my < f.running - 1 && !f.joining && f.slots[f.running - 1] == u
    requires forall i: nat | i < f.running - 1 :: f.slots[i] != u
    ensures Ended(f, my, detached).Valid()
    ensures Taken(Ended(f, my, detached), f.running - 1) == u <==> my == f.running - 2
    ensures my == f.running - 2 ==> Given(Ended(f, my, detached), f.running - 1) == u
  {
  }
}
