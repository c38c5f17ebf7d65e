/**
 `thread_set`: a fixed array of thread records, the running ones in front and the ones waiting to be joined at the
 back, and the handshake by which `activate` waits for the threads it creates. A critical section is one step.
 */
module ThreadSet {
  const SLOTS := 32

  /** Stands for the record that a thread makes of itself: its number in the order of creation. */
  type Record = nat

  datatype Status = Ok | InvalidArgument | InvalidOperation | NoResources

  /** The fields of the set. */
  datatype Fields = Fields(slots: seq<Record>, running: int, joinWait: int, counter: int, joining: bool)
  {
    predicate Valid() { |slots| == SLOTS && 0 <= running <= joinWait <= SLOTS }

    function Front(): multiset<Record>
      requires Valid()
    {
      multiset(slots[..running])
    }

    function Back(): multiset<Record>
      requires Valid()
    {
      multiset(slots[joinWait..])
    }
  }

  // ---------- the critical sections ----------

  function ActivateStatus(f: Fields, n: int): Status {
    if n <= 0 then InvalidArgument
    else if f.counter > 0 || f.joining then InvalidOperation
    else if f.running >= f.joinWait then NoResources
    else Ok
  }

  /** A new thread takes the first free slot. */
  function Started(f: Fields, me: Record): Fields
    requires f.Valid() && f.running < SLOTS
  {
    f.(slots := f.slots[f.running := me], running := f.running + 1, counter := f.counter - 1)
  }

  /** A thread gives its slot back: to the last running record and, unless detached, its record to the back. */
  function Ended(f: Fields, my: nat, detached: bool): Fields
    requires f.Valid() && my < SLOTS && f.running > 0
  {
    var last := f.running - 1;
    if f.joining then f
    else if detached then
      f.(running := last, slots := if my < last then f.slots[my := f.slots[last]] else f.slots)
    else
      var back := f.joinWait - 1;
      f.(running := last, joinWait := back,
         slots := if my < last then f.slots[my := f.slots[last]][back := f.slots[my]]
                  else if back > my then f.slots[back := f.slots[my]] else f.slots)
  }

  // ---------- one exit ----------

  lemma FrontWithout(a: seq<Record>, n: nat, my: nat)
    requires my < n <= |a|
    ensures my < n - 1 ==> multiset(a[my := a[n - 1]][..n - 1]) == multiset(a[..n]) - multiset{a[my]}
    ensures my == n - 1 ==> multiset(a[..n - 1]) == multiset(a[..n]) - multiset{a[my]}
    ensures a[my] in multiset(a[..n])
  {
    assert a[..n] == a[..n - 1] + [a[n - 1]];
    if my < n - 1 {
      assert a[my := a[n - 1]][..n - 1] == a[..n - 1][my := a[n - 1]];
      assert a[..n - 1] == a[..my] + [a[my]] + a[my + 1..n - 1];
      assert a[..n - 1][my := a[n - 1]] == a[..my] + [a[n - 1]] + a[my + 1..n - 1];
    }
    assert a[..n][my] == a[my];
  }

  /** The record that an exit takes from the front, and the one it adds to the back. */
  function Taken(f: Fields, my: nat): Record
    requires f.Valid() && my < SLOTS && f.running > 0
  {
    f.slots[if my < f.running then my else f.running - 1]
  }

  function Given(f: Fields, my: nat): Record
    requires f.Valid() && my < SLOTS && f.running > 0
  {
    f.slots[if my < f.running || my < f.joinWait - 1 then my else f.joinWait - 1]
  }

  /**
   Whatever the index, an exit removes one record from the front and adds one to the back, even when the regions touch.
   */
  lemma ExitMoves(f: Fields, my: nat, detached: bool)
    requires f.Valid() && my < SLOTS && f.running > 0 && !f.joining
    ensures var g := Ended(f, my, detached);
            && g.Valid() && g.running == f.running - 1 && g.joinWait == f.joinWait - (if detached then 0 else 1)
            && g.Front() == f.Front() - multiset{Taken(f, my)} && Taken(f, my) in f.Front()
            && g.Back() == f.Back() + if detached then multiset{} else multiset{Given(f, my)}
  {
    hide Ended, Given, Taken, Fields.Front, Fields.Back;
    ExitFront(f, my, detached);
    FrontAfterExit(f, my, detached);
    BackAfterExit(f, my, detached);
  }

  lemma FrontAfterExit(f: Fields, my: nat, detached: bool)
    requires f.Valid() && my < SLOTS && f.running > 0 && !f.joining
    ensures var g := Ended(f, my, detached);
            g.Valid() && g.Front() == f.Front() - multiset{Taken(f, my)} && Taken(f, my) in f.Front()
  {
    hide Ended;
    FrontWithout(f.slots, f.running, if my < f.running then my else f.running - 1);
    ExitFront(f, my, detached);
  }

  lemma BackAfterExit(f: Fields, my: nat, detached: bool)
    requires f.Valid() && my < SLOTS && f.running > 0 && !f.joining
    ensures var g := Ended(f, my, detached);
            g.Valid() && g.Back() == f.Back() + if detached then multiset{} else multiset{Given(f, my)}
  {
    hide Ended, Given;
    var g, back := Ended(f, my, detached), f.slots[f.joinWait..];
    ExitFront(f, my, detached);
    ExitBack(f, my, detached);
    if !detached {
      assert g.slots[g.joinWait..] == [Given(f, my)] + back;
      OneMore(Given(f, my), back);
    }
  }

  lemma OneMore(x: Record, s: seq<Record>)
    ensures multiset([x] + s) == multiset{x} + multiset(s)
  {
  }

  lemma ExitFront(f: Fields, my: nat, detached: bool)
    requires f.Valid() && my < SLOTS && f.running > 0 && !f.joining
    ensures var g := Ended(f, my, detached);
            g.Valid() && g.running == f.running - 1 && g.joinWait == f.joinWait - if detached then 0 else 1
    ensures var last := f.running - 1;
            Ended(f, my, detached).slots[..last] ==
              if my < last then f.slots[my := f.slots[last]][..last] else f.slots[..last]
  {
  }

  lemma ExitBack(f: Fields, my: nat, detached: bool)
    requires f.Valid() && my < SLOTS && f.running > 0 && !f.joining
    ensures Ended(f, my, detached).slots[if detached then f.joinWait else f.joinWait - 1..] ==
              if detached then f.slots[f.joinWait..] else [Given(f, my)] + f.slots[f.joinWait..]
  {
  }

  /** The exit of `me` removes exactly its own record. */
  ghost predicate OwnExit(f: Fields, me: Record, detached: bool, g: Fields) {
    && f.Valid() && g.Valid() && me in f.Front() && g.Front() == f.Front() - multiset{me}
    && g.Back() == f.Back() + if detached then multiset{} else multiset{me}
  }

  /** A thread moves its own record exactly when the slot it kept the index of is still its own. */
  lemma ExitIsOwnIff(f: Fields, my: nat, me: Record, detached: bool)
    requires f.Valid() && my < SLOTS && f.running > 0 && !f.joining
    ensures OwnExit(f, me, detached, Ended(f, my, detached)) <==> Taken(f, my) == me && (detached || Given(f, my) == me)
  {
    hide Ended, Fields.Front, Fields.Back;
    ExitMoves(f, my, detached);
    var g := Ended(f, my, detached);
    if OwnExit(f, me, detached, g) {
      assert (f.Front() - multiset{me})[me] == f.Front()[me] - 1;
      assert (f.Front() - multiset{Taken(f, my)})[me] == f.Front()[me] - if Taken(f, my) == me then 1 else 0;
      if !detached {
        assert (f.Back() + multiset{me})[me] == f.Back()[me] + 1;
        assert (f.Back() + multiset{Given(f, my)})[me] == f.Back()[me] + if Given(f, my) == me then 1 else 0;
      }
    }
  }

  // ---------- the set as an object ----------

  class ThreadSet {
    var workerThreads: array<Record>
    var runningIndex: int
    var joinWaitIndex: int
    var activateOngoingCounter: int
    var joinOngoing: bool

    ghost function View(): Fields
      reads this, workerThreads
    {
      Fields(workerThreads[..], runningIndex, joinWaitIndex, activateOngoingCounter, joinOngoing)
    }

    constructor ()
      ensures fresh(workerThreads) && View().Valid()
      ensures runningIndex == 0 && joinWaitIndex == SLOTS && activateOngoingCounter == 0 && !joinOngoing
    {
      workerThreads := new Record[SLOTS];
      runningIndex, joinWaitIndex, activateOngoingCounter, joinOngoing := 0, SLOTS, 0, false;
    }

    /** The first critical section of `activate`. */
    method BeginActivate(n: int) returns (status: Status)
      requires View().Valid()
      modifies `activateOngoingCounter
      ensures status == ActivateStatus(old(View()), n)
      ensures View() == if status.Ok? then old(View()).(counter := n + 1) else old(View())
    {
      if n <= 0 { return InvalidArgument; }
      if activateOngoingCounter > 0 { return InvalidOperation; }
      if joinOngoing { return InvalidOperation; }
      if runningIndex >= joinWaitIndex { return NoResources; }
      activateOngoingCounter := n + 1;
      status := Ok;
    }

    /**
     The creation loop when no other thread interferes: it comes to all n requests exactly if those that do not fail
     fit between the regions.
     */
    method CreateThreads(n: nat, fails: seq<bool>) returns (created: nat, failed: nat)
      requires View().Valid() && |fails| == n
      modifies `activateOngoingCounter
      ensures View() == old(View()).(counter := old(activateOngoingCounter) - failed)
      ensures created + failed <= n && created <= joinWaitIndex - runningIndex
      ensures created + failed == n <==> n - failed <= joinWaitIndex - runningIndex
    {
      var left, index := n, runningIndex;
      created, failed := 0, 0;
      while left > 0 && index < joinWaitIndex
        invariant 0 <= left && left + created + failed == n && index == runningIndex + created <= joinWaitIndex
        invariant View() == old(View()).(counter := old(activateOngoingCounter) - failed)
      {
        if fails[n - left] {
          activateOngoingCounter := activateOngoingCounter - 1;
          failed := failed + 1;
        } else {
          created := created + 1;
          index := index + 1;
        }
        left := left - 1;
      }
    }

    /** What a new thread does first. */
    method StartThread(me: Record) returns (my: nat, last: bool)
      requires View().Valid() && runningIndex < SLOTS
      modifies workerThreads, `runningIndex, `activateOngoingCounter
      ensures my == old(runningIndex) && View() == old(Started(View(), me)) && last == (activateOngoingCounter <= 2)
    {
      my := runningIndex;
      runningIndex := runningIndex + 1;
      workerThreads[my] := me;
      activateOngoingCounter := activateOngoingCounter - 1;
      last := activateOngoingCounter <= 2;
    }

    /** What a thread does last. */
    method EndThread(my: nat, detached: bool)
      requires View().Valid() && my < SLOTS && runningIndex > 0
      modifies workerThreads, `runningIndex, `joinWaitIndex
      ensures View() == old(Ended(View(), my, detached))
    {
      if joinOngoing { return; }
      runningIndex := runningIndex - 1;
      if detached {
        if my < runningIndex { workerThreads[my] := workerThreads[runningIndex]; }
      } else if my < runningIndex {
        var tmp := workerThreads[my];
        workerThreads[my] := workerThreads[runningIndex];
        joinWaitIndex := joinWaitIndex - 1;
        workerThreads[joinWaitIndex] := tmp;
      } else {
        joinWaitIndex := joinWaitIndex - 1;
        if joinWaitIndex > my { workerThreads[joinWaitIndex] := workerThreads[my]; }
      }
    }

    /** The records that `join` goes through. */
    method JoinOrder() returns (joined: seq<Record>)
      requires View().Valid()
      ensures multiset(joined) == View().Front() + View().Back()
    {
      joined := [];
      for i := 0 to runningIndex
        invariant joined == workerThreads[..i]
      {
        joined := joined + [workerThreads[i]];
      }
      ghost var front := joined;
      for i := joinWaitIndex to SLOTS
        invariant joined == front + workerThreads[joinWaitIndex..i]
      {
        joined := joined + [workerThreads[i]];
      }
      assert workerThreads[joinWaitIndex..] == workerThreads[joinWaitIndex..SLOTS];
    }
  }
}
