/** The option type, the reference search and the sums shared by the modules. */
module Prelude {
  datatype Option<+T> = None | Some(value: T)

  /** The first number from `from` to `end` with the property, looked for one by one. */
  ghost function FirstWhere(f: int -> bool, from: int, end: int): Option<int>
    decreases end - from
  {
    if end < from then None
    else if f(from) then Some(from)
    else FirstWhere(f, from + 1, end)
  }

  lemma {:induction false} FirstWhereIsLeast(f: int -> bool, from: int, end: int)
    ensures match FirstWhere(f, from, end)
            case Some(t) => from <= t <= end && f(t) && (forall u | from <= u < t :: !f(u))
            case None => forall u | from <= u <= end :: !f(u)
    decreases end - from
  {
    if from <= end && !f(from) {
      FirstWhereIsLeast(f, from + 1, end);
    }
  }

  /** Leaving out some numbers changes the first one exactly when it is one of those left out. */
  lemma FirstWhereExcept(f: int -> bool, skip: int -> bool, g: int -> bool, from: int, end: int)
    requires forall t :: g(t) == (f(t) && !skip(t))
    ensures FirstWhere(g, from, end) == FirstWhere(f, from, end) <==>
            !(FirstWhere(f, from, end).Some? && skip(FirstWhere(f, from, end).value))
  {
    FirstWhereIsLeast(f, from, end);
    FirstWhereIsLeast(g, from, end);
  }

  lemma FirstWhereInRange(f: int -> bool, from: int, end: int)
    ensures FirstWhere(f, from, end).Some? ==> from <= FirstWhere(f, from, end).value <= end
  {
    FirstWhereIsLeast(f, from, end);
  }

  // ---------- iterates of a function that moves forward, or rests ----------

  ghost function Iterate(step: int -> int, x: int, n: nat): int {
    if n == 0 then x else step(Iterate(step, x, n - 1))
  }

  ghost predicate OnIterates(step: int -> int, x: int, t: int) {
    exists n: nat :: Iterate(step, x, n) == t
  }

  lemma {:induction false} IterateForward(step: int -> int, x: int, m: nat, n: nat)
    requires forall u :: u < step(u)
    requires m <= n
    ensures Iterate(step, x, m) + (n - m) <= Iterate(step, x, n)
    decreases n
  {
    if m < n {
      IterateForward(step, x, m, n - 1);
    }
  }

  lemma {:induction false} IterateRests(step: int -> int, x: int, n: nat)
    requires forall u :: u == step(u)
    ensures Iterate(step, x, n) == x
  {
    if n > 0 {
      IterateRests(step, x, n - 1);
    }
  }

  /** The first iterate from `lo` on, given by its number. */
  lemma FirstIterate(moves: bool, step: int -> int, x: int, lo: int, end: int, n: nat)
    requires forall u :: if moves then u < step(u) else u == step(u)
    requires n > 0 ==> Iterate(step, x, n - 1) < lo
    requires if moves then lo <= Iterate(step, x, n) || end <= Iterate(step, x, n) else n == 0
    ensures var t := Iterate(step, x, n);
            FirstWhere(u => OnIterates(step, x, u), lo, end) == if lo <= t <= end then Some(t) else None
  {
    var f, t := u => OnIterates(step, x, u), Iterate(step, x, n);
    FirstWhereIsLeast(f, lo, end);
    assert f(t);
    forall u | f(u) ensures u < lo || (moves && t < u) || u == t {
      var m: nat :| Iterate(step, x, m) == u;
      if !moves {
        IterateRests(step, x, m);
      } else if m < n {
        IterateForward(step, x, m, n - 1);
      } else {
        IterateForward(step, x, n, m);
      }
    }
  }

  // ---------- sums over the elements of a sequence ----------

  ghost function Sum<T>(ts: seq<T>, w: T -> int): int {
    if ts == [] then 0 else Sum(ts[..|ts| - 1], w) + w(ts[|ts| - 1])
  }

  /** Only the element at t may weigh more than before, if there is one. */
  lemma {:induction false} SumChange<T>(ts: seq<T>, us: seq<T>, w: T -> int, t: Option<nat>)
    requires |us| == |ts| && forall i | 0 <= i < |ts| && t != Some(i) :: w(us[i]) <= w(ts[i])
    ensures Sum(us, w) - Sum(ts, w) <= if t.Some? && t.value < |ts| then w(us[t.value]) - w(ts[t.value]) else 0
  {
    if ts != [] {
      SumChange(ts[..|ts| - 1], us[..|us| - 1], w, t);
    }
  }

  lemma SumUpdate<T>(ts: seq<T>, w: T -> int, t: nat, x: T)
    requires t < |ts|
    ensures Sum(ts[t := x], w) == Sum(ts, w) - w(ts[t]) + w(x)
  {
    SumChange(ts, ts[t := x], w, Some(t));
    SumChange(ts[t := x], ts, w, Some(t));
  }

  lemma SumMore<T>(ts: seq<T>, w: T -> int, x: T)
    ensures Sum(ts + [x], w) == Sum(ts, w) + w(x)
  {
  }

  lemma {:induction false} SumOfZeros<T>(ts: seq<T>, w: T -> int)
    requires forall x :: 0 <= w(x)
    ensures 0 <= Sum(ts, w)
    ensures Sum(ts, w) == 0 <==> forall i | 0 <= i < |ts| :: w(ts[i]) == 0
  {
    if ts != [] {
      SumOfZeros(ts[..|ts| - 1], w);
    }
  }

  lemma CountedTwice<T>(a: seq<T>, i: nat, j: nat)
    requires i < j < |a| && a[i] == a[j]
    ensures multiset(a)[a[i]] >= 2
  {
    assert a == a[..j] + a[j..];
    assert a[..j][i] == a[i] && a[j..][0] == a[i];
  }
}
