/** Points of a time series, and the part of a series that falls in a time range. */
module Points {

  /** A float64 value, where Null stands for NaN and every other value is a real number. */
  datatype Value = Null | Num(v: real)

  datatype Point = Point(ts: int, val: Value)

  /** Strictly ascending in time. */
  ghost predicate Ascending(s: seq<Point>) {
    forall i, j :: 0 <= i < j < |s| ==> s[i].ts < s[j].ts
  }

  /** In time order, where several points may share a timestamp. */
  ghost predicate Sorted(s: seq<Point>) {
    forall i, j :: 0 <= i < j < |s| ==> s[i].ts <= s[j].ts
  }

  lemma AscendingSorted(s: seq<Point>)
    requires Ascending(s)
    ensures Sorted(s)
  {
  }

  /** The points with from <= ts < to, in their order. */
  function In(s: seq<Point>, from: int, to: int): (r: seq<Point>) {
    if s == [] then []
    else
      var p := s[|s| - 1];
      var rest := In(s[..|s| - 1], from, to);
      if from <= p.ts < to then rest + [p] else rest
  }

  lemma {:induction false} InMembers(s: seq<Point>, from: int, to: int)
    ensures forall p :: p in In(s, from, to) <==> p in s && from <= p.ts < to
  {
    if s != [] {
      InMembers(s[..|s| - 1], from, to);
      assert s == s[..|s| - 1] + [s[|s| - 1]];
    }
  }

  lemma {:induction false} InConcat(a: seq<Point>, b: seq<Point>, from: int, to: int)
    ensures In(a + b, from, to) == In(a, from, to) + In(b, from, to)
    decreases |b|
  {
    if b == [] {
      assert a + b == a;
    } else {
      assert (a + b)[..|a + b| - 1] == a + b[..|b| - 1];
      InConcat(a, b[..|b| - 1], from, to);
    }
  }

  /** A series wholly outside the range contributes nothing, one wholly inside contributes everything. */
  lemma {:induction false} InNone(s: seq<Point>, from: int, to: int)
    requires forall p :: p in s ==> !(from <= p.ts < to)
    ensures In(s, from, to) == []
  {
    if s != [] {
      InNone(s[..|s| - 1], from, to);
    }
  }

  lemma {:induction false} InAll(s: seq<Point>, from: int, to: int)
    requires forall p :: p in s ==> from <= p.ts < to
    ensures In(s, from, to) == s
  {
    if s != [] {
      InAll(s[..|s| - 1], from, to);
    }
  }

  /** Restricting twice is restricting to the overlap. */
  lemma {:induction false} InIn(s: seq<Point>, from: int, to: int, from': int, to': int)
    requires from <= from' && to' <= to
    ensures In(In(s, from, to), from', to') == In(s, from', to')
  {
    if s != [] {
      var init, p := s[..|s| - 1], s[|s| - 1];
      InIn(init, from, to, from', to');
      if from <= p.ts < to {
        assert In(s, from, to) == In(init, from, to) + [p];
        assert In(s, from, to)[..|In(init, from, to)|] == In(init, from, to);
      }
    }
  }

  /** A sorted series splits at any time. */
  lemma {:induction false} InSplit(s: seq<Point>, from: int, mid: int, to: int)
    requires Sorted(s) && from <= mid <= to
    ensures In(s, from, to) == In(s, from, mid) + In(s, mid, to)
  {
    if s != [] {
      var init, p := s[..|s| - 1], s[|s| - 1];
      InSplit(init, from, mid, to);
      if p.ts < mid {
        InNone(init, mid, to);
      }
    }
  }

  /** Leading points before the range can be dropped. */
  lemma InDrop(s: seq<Point>, k: int, from: int, to: int)
    requires 0 <= k <= |s| && forall i :: 0 <= i < k ==> s[i].ts < from
    ensures In(s[k..], from, to) == In(s, from, to)
  {
    assert s == s[..k] + s[k..];
    InConcat(s[..k], s[k..], from, to);
    InNone(s[..k], from, to);
  }

  /** Trailing points at or after the end of the range can be dropped. */
  lemma InTake(s: seq<Point>, k: int, from: int, to: int)
    requires 0 <= k <= |s| && forall i :: k <= i < |s| ==> to <= s[i].ts
    ensures In(s[..k], from, to) == In(s, from, to)
  {
    assert s == s[..k] + s[k..];
    InConcat(s[..k], s[k..], from, to);
    InNone(s[k..], from, to);
  }

  lemma {:induction false} InSorted(s: seq<Point>, from: int, to: int)
    requires Sorted(s)
    ensures Sorted(In(s, from, to))
  {
    if s != [] {
      InSorted(s[..|s| - 1], from, to);
      InMembers(s[..|s| - 1], from, to);
    }
  }

  lemma {:induction false} InAscending(s: seq<Point>, from: int, to: int)
    requires Ascending(s)
    ensures Ascending(In(s, from, to))
  {
    if s != [] {
      InAscending(s[..|s| - 1], from, to);
      InMembers(s[..|s| - 1], from, to);
    }
  }

  lemma AscendingConcat(a: seq<Point>, b: seq<Point>, bound: int)
    requires Ascending(a) && Ascending(b)
    requires forall p :: p in a ==> p.ts <= bound
    requires forall p :: p in b ==> bound < p.ts
    ensures Ascending(a + b)
  {
    forall i, j | 0 <= i < j < |a + b|
      ensures (a + b)[i].ts < (a + b)[j].ts
    {
      if i < |a| {
        assert (a + b)[i] in a;
      }
      if j >= |a| {
        assert (a + b)[j] in b;
      }
    }
  }
}
