/** A lock-free maximum: concurrent calls that each swap their value into one cell until nothing larger comes back. */
module Bump {

  /** The shared cell, and for each call that has not returned the value that it will swap in next. */
  datatype State = State(cell: int, pending: seq<int>)

  /** One swap: the call goes on with the value it took out if that is larger, and returns otherwise. */
  function Swap(s: State, i: int): State
    requires 0 <= i < |s.pending|
  {
    var newVal, prev := s.pending[i], s.cell;
    if prev > newVal then State(newVal, s.pending[i := prev])
    else State(newVal, s.pending[..i] + s.pending[i + 1..])
  }

  /** m is the largest of the cell and all values on their way to it. */
  ghost predicate IsTop(m: int, s: State) {
    && s.cell <= m && (forall i :: 0 <= i < |s.pending| ==> s.pending[i] <= m)
    && (m == s.cell || exists i :: 0 <= i < |s.pending| && s.pending[i] == m)
  }

  lemma {:induction false} TopExists(cell: int, pending: seq<int>) returns (m: int)
    ensures IsTop(m, State(cell, pending))
  {
    if pending == [] {
      m := cell;
    } else {
      var n := |pending| - 1;
      m := TopExists(cell, pending[..n]);
      if m < pending[n] {
        m := pending[n];
      } else if m != cell {
        var i :| 0 <= i < n && pending[..n][i] == m;
        assert pending[i] == m;
      }
    }
  }

  /** No swap changes the largest value. */
  lemma SwapKeepsTop(s: State, i: int, m: int)
    requires 0 <= i < |s.pending| && IsTop(m, s)
    ensures IsTop(m, Swap(s, i))
  {
    var r := Swap(s, i);
    if m == s.cell {
      if m > s.pending[i] {
        assert r.pending[i] == m;
      }
    } else {
      var j :| 0 <= j < |s.pending| && s.pending[j] == m;
      if j < i {
        assert r.pending[j] == m;
      } else if i < j {
        assert s.cell > s.pending[i] ==> r.pending[j] == m;
        assert s.cell <= s.pending[i] ==> r.pending[j - 1] == m;
      }
    }
  }

  // ---------------------------------------------------------------------------------------------
  // Every interleaving.

  /** Which call makes each swap; it must be one that has not returned. */
  ghost predicate Schedules(s: State, order: seq<int>)
    decreases |order|
  {
    order == [] || (0 <= order[0] < |s.pending| && Schedules(Swap(s, order[0]), order[1..]))
  }

  ghost function Run(s: State, order: seq<int>): State
    requires Schedules(s, order)
    decreases |order|
  {
    if order == [] then s else Run(Swap(s, order[0]), order[1..])
  }

  /** The largest value stays the same throughout, and is in the cell once all calls have returned. */
  lemma {:induction false} CellIsMax(s: State, order: seq<int>, m: int)
    requires Schedules(s, order) && IsTop(m, s)
    ensures IsTop(m, Run(s, order))
    ensures Run(s, order).pending == [] ==> Run(s, order).cell == m
    decreases |order|
  {
    if order != [] {
      SwapKeepsTop(s, order[0], m);
      CellIsMax(Swap(s, order[0]), order[1..], m);
    }
  }

  /** How many of the values are below the bound. */
  function Below(pending: seq<int>, bound: int): nat {
    if pending == [] then 0
    else Below(pending[1..], bound) + if pending[0] < bound then 1 else 0
  }

  lemma {:induction false} BelowLength(pending: seq<int>, bound: int)
    ensures Below(pending, bound) <= |pending|
  {
    if pending != [] {
      BelowLength(pending[1..], bound);
    }
  }

  lemma {:induction false} BelowMonotone(pending: seq<int>, bound: int, bound': int)
    requires bound <= bound'
    ensures Below(pending, bound) <= Below(pending, bound')
  {
    if pending != [] {
      BelowMonotone(pending[1..], bound, bound');
    }
  }

  /** Replacing a value below the bound by one that is not leaves one fewer below it. */
  lemma {:induction false} BelowReplaced(pending: seq<int>, i: int, v: int, bound: int)
    requires 0 <= i < |pending| && pending[i] < bound <= v
    ensures Below(pending[i := v], bound) + 1 == Below(pending, bound)
  {
    if 0 < i {
      BelowReplaced(pending[1..], i - 1, v, bound);
      assert pending[i := v][1..] == pending[1..][i - 1 := v];
    } else {
      assert pending[i := v][1..] == pending[1..];
    }
  }

  /** Grows with the square of the calls that have not returned, and falls with every swap. */
  function Work(s: State): nat {
    Triangle(|s.pending|) + Below(s.pending, s.cell)
  }

  function Triangle(n: nat): nat {
    if n == 0 then 0 else Triangle(n - 1) + n
  }

  lemma SwapWorks(s: State, i: int)
    requires 0 <= i < |s.pending|
    ensures Work(Swap(s, i)) < Work(s)
  {
    var newVal, prev, r := s.pending[i], s.cell, Swap(s, i);
    if prev > newVal {
      BelowReplaced(s.pending, i, prev, prev);
      BelowMonotone(r.pending, newVal, prev);
    } else {
      BelowLength(r.pending, r.cell);
    }
  }

  lemma {:induction false} TriangleIs(n: nat)
    ensures Triangle(n) == n * (n + 1) / 2
  {
    if 0 < n {
      TriangleIs(n - 1);
    }
  }

  /** Every interleaving of n calls ends, after at most n (n + 1) / 2 + n swaps, whatever the values. */
  lemma {:induction false} SwapsBounded(s: State, order: seq<int>)
    requires Schedules(s, order)
    ensures |order| + Work(Run(s, order)) <= Work(s) <= |s.pending| * (|s.pending| + 1) / 2 + |s.pending|
    decreases |order|
  {
    BelowLength(s.pending, s.cell);
    TriangleIs(|s.pending|);
    if order != [] {
      SwapWorks(s, order[0]);
      SwapsBounded(Swap(s, order[0]), order[1..]);
    }
  }

  /** In between, the cell can hold less than before. */
  lemma BrieflyLower()
    ensures Swap(State(30, [10]), 0) == State(10, [30])
    ensures Swap(State(10, [30]), 0) == State(30, [])
  {
    assert [10][0 := 30] == [30];
    assert [30][..0] + [30][0 + 1..] == [];
  }

  // ---------------------------------------------------------------------------------------------
  // One call, while no other call is under way.

  class Cell {
    var value: int

    method Exchange(v: int) returns (prev: int)
      modifies this
      ensures prev == old(value) && value == v
    {
      prev := value;
      value := v;
    }
  }

  /** Each turn of the loop is one swap of the state machine; the cell ends up with the larger value. */
  method AtomicBump(loc: Cell, val: int)
    modifies loc
    ensures IsTop(loc.value, State(old(loc.value), [val]))
  {
    var newVal := val;
    ghost var s := State(loc.value, [val]);
    ghost var m := TopExists(loc.value, [val]);
    SwapKeepsTop(s, 0, m);
    var prev := loc.Exchange(newVal);
    s := Swap(s, 0);
    while prev > newVal
      invariant s == State(loc.value, if prev > newVal then [prev] else []) && IsTop(m, s)
      decreases Work(s)
    {
      SwapKeepsTop(s, 0, m);
      SwapWorks(s, 0);
      newVal := prev;
      prev := loc.Exchange(newVal);
      s := Swap(s, 0);
    }
  }
}
