/** Evenly spaced series, and the buckets that their groups of points make up. */
module Grids {
  import opened Arith
  import opened Batch
  import opened Consolidation
  import opened Points
  import opened Quantize
  import opened Seqs

  // ---------------------------------------------------------------------------------------------
  // Evenly spaced series.

  /** The time k intervals after t. */
  ghost function Tick(t: int, interval: int, k: nat): int
    decreases k
  {
    if k == 0 then t else Tick(t + interval, interval, k - 1)
  }

  lemma {:induction false} TickIs(t: int, interval: int, k: nat)
    ensures Tick(t, interval, k) == t + k * interval
    decreases k
  {
    if 0 < k {
      TickIs(t + interval, interval, k - 1);
      assert t + interval + (k - 1) * interval == t + k * interval;
    }
  }

  lemma {:induction false} TickShift(t: int, interval: int, k: nat, d: int)
    ensures Tick(t + d, interval, k) == Tick(t, interval, k) + d
    decreases k
  {
    if 0 < k {
      TickShift(t + interval, interval, k - 1, d);
      assert t + d + interval == t + interval + d;
    }
  }

  lemma {:induction false} TickAdd(t: int, interval: int, k: nat, m: nat)
    ensures Tick(t, interval, k + m) == Tick(Tick(t, interval, k), interval, m)
    decreases k
  {
    if 0 < k {
      TickAdd(t + interval, interval, k - 1, m);
    }
  }

  lemma {:induction false} TickGrows(t: int, interval: int, k: nat, m: nat)
    requires 0 < interval && k <= m
    ensures t <= Tick(t, interval, k) <= Tick(t, interval, m)
    ensures k < m ==> Tick(t, interval, k) + interval <= Tick(t, interval, m)
    decreases m
  {
    if 0 < k {
      TickGrows(t + interval, interval, k - 1, m - 1);
    } else if 0 < m {
      TickGrows(t + interval, interval, 0, m - 1);
    }
  }

  /** One point at each of t, t + interval, ... */
  ghost predicate Even(s: seq<Point>, t: int, interval: int) {
    forall i :: 0 <= i < |s| ==> s[i].ts == Tick(t, interval, i)
  }

  lemma EvenDrop(s: seq<Point>, t: int, interval: int, k: int)
    requires Even(s, t, interval) && 0 <= k <= |s|
    ensures Even(s[k..], Tick(t, interval, k), interval)
  {
    forall i | 0 <= i < |s[k..]|
      ensures s[k..][i].ts == Tick(Tick(t, interval, k), interval, i)
    {
      TickAdd(t, interval, k, i);
    }
  }

  /** The points before the k-th and those from the k-th on are apart. */
  lemma EvenSplit(s: seq<Point>, t: int, interval: int, k: nat)
    requires 0 < interval && Even(s, t, interval)
    ensures forall i :: 0 <= i < |s| && i < k ==> s[i].ts <= Tick(t, interval, k) - interval
    ensures forall i :: k <= i < |s| ==> Tick(t, interval, k) <= s[i].ts
  {
    forall i | 0 <= i < |s|
      ensures i < k ==> s[i].ts <= Tick(t, interval, k) - interval
      ensures k <= i ==> Tick(t, interval, k) <= s[i].ts
    {
      if i < k {
        TickGrows(t, interval, i, k);
      } else {
        TickGrows(t, interval, k, i);
      }
    }
  }

  /** The points of (lo, u] are those from the i-th up to the j-th. */
  lemma MiddleIn(s: seq<Point>, i: int, j: int, lo: int, u: int)
    requires 0 <= i <= j <= |s|
    requires forall x :: 0 <= x < i ==> s[x].ts <= lo
    requires forall x :: i <= x < j ==> lo < s[x].ts <= u
    requires forall x :: j <= x < |s| ==> u < s[x].ts
    ensures In(s, lo + 1, u + 1) == s[i..j]
  {
    InTake(s, j, lo + 1, u + 1);
    InDrop(s[..j], i, lo + 1, u + 1);
    TakeDrop(s, i, j);
    InAll(s[i..j], lo + 1, u + 1);
  }

  // ---------------------------------------------------------------------------------------------
  // Groups of an even series are the buckets of a coarser grid.

  /** The bucket that ends at t: all points of (t - span, t] aggregated. */
  function Cell(s: seq<Point>, t: int, span: int, c: Consolidator): Point {
    Point(t, Aggregate(c, In(s, t - span + 1, t + 1)))
  }

  /** Points before a bucket play no part in it. */
  lemma CellDrop(s: seq<Point>, k: int, t: int, span: int, c: Consolidator)
    requires 0 <= k <= |s| && forall i :: 0 <= i < k ==> s[i].ts <= t - span
    ensures Cell(s[k..], t, span, c) == Cell(s, t, span, c)
  {
    InDrop(s, k, t - span + 1, t + 1);
  }

  /** The group that starts at position i, whole or not. */
  function Group(s: seq<Point>, i: int, num: int, step: int, c: Consolidator): Point
    requires 0 <= i < |s| && 1 <= num
  {
    if i + num <= |s| then Point(s[i + num - 1].ts, Aggregate(c, s[i..i + num]))
    else Point(ExtendedTs(s[i].ts, num, step), Aggregate(c, s[i..]))
  }

  lemma GroupsStep(s: seq<Point>, num: int, step: int, c: Consolidator, k: nat)
    requires 1 <= num && 0 < k < |Groups(s, num, step, c)|
    ensures num <= |s| && k - 1 < |Groups(s[num..], num, step, c)|
    ensures Groups(s, num, step, c)[k] == Groups(s[num..], num, step, c)[k - 1]
  {
  }

  lemma GroupsFirst(s: seq<Point>, num: int, step: int, c: Consolidator)
    requires 1 <= num && s != []
    ensures Groups(s, num, step, c) != [] && Groups(s, num, step, c)[0] == Group(s, 0, num, step, c)
  {
    if num <= |s| {
      assert s[0..num] == s[..num];
    } else {
      assert s[0..] == s;
    }
  }

  /** The k-th point of the result is the group that starts at position i = k * num. */
  lemma {:induction false} GroupsAt(s: seq<Point>, num: int, step: int, c: Consolidator, k: nat, i: int)
    requires 1 <= num && k < |Groups(s, num, step, c)| && i == Tick(0, num, k)
    ensures 0 <= i < |s| && Groups(s, num, step, c)[k] == Group(s, i, num, step, c)
    decreases k
  {
    if k == 0 {
      GroupsFirst(s, num, step, c);
    } else {
      var j := i - num;
      TickShift(0, num, k - 1, num);
      GroupsStep(s, num, step, c, k);
      GroupsAt(s[num..], num, step, c, k - 1, j);
      GroupShift(s, num, j, num, step, c);
    }
  }

  lemma GroupShift(s: seq<Point>, d: int, i: int, num: int, step: int, c: Consolidator)
    requires 0 <= d && 0 <= i < |s| - d && 1 <= num
    ensures Group(s[d..], i, num, step, c) == Group(s, d + i, num, step, c)
  {
    if i + num <= |s| - d {
      DropSlice(s, d, i, i + num);
    } else {
      DropDrop(s, d, i);
    }
  }

  lemma LeftoverTs(ts: int, interval: int, num: int, span: int)
    requires 0 < interval && 2 <= num && Tick(0, interval, num) == span && 0 <= ts && ts + span <= U32
    ensures ExtendedTs(ts, num, interval) == ts - interval + span
  {
    TickIs(0, interval, num);
    assert (num - 1) * interval == span - interval;
    ProductApart(interval, num - 1);
    assert interval * (num - 1) == (num - 1) * interval;
  }

  /** The points around the group that starts at position i: u is the time of the first, v the time after the last. */
  lemma GroupBounds(s: seq<Point>, t: int, interval: int, num: nat, i: nat, u: int, v: int)
    requires 0 < interval && Even(s, t, interval) && i < |s| && u == s[i].ts && v == Tick(u, interval, num)
    ensures forall x :: 0 <= x < i ==> s[x].ts <= u - interval
    ensures forall x :: i <= x < |s| && x < i + num ==> u <= s[x].ts <= v - interval
    ensures forall x :: i + num <= x < |s| ==> v <= s[x].ts
  {
    EvenSplit(s, t, interval, i);
    TickAdd(t, interval, i, num);
    EvenSplit(s, t, interval, i + num);
  }

  lemma WholeCell(s: seq<Point>, t: int, interval: int, num: int, span: int, c: Consolidator, i: nat, u: int)
    requires 0 < interval && 1 <= num && i + num <= |s| && Even(s, t, interval)
    requires Tick(s[i].ts, interval, num) == s[i].ts + span && u == s[i].ts - interval + span
    ensures Group(s, i, num, interval, c) == Cell(s, u, span, c)
  {
    GroupBounds(s, t, interval, num, i, s[i].ts, s[i].ts + span);
    MiddleIn(s, i, i + num, u - span, u);
    GroupEnd(t, interval, i, num);
  }

  lemma GroupEnd(t: int, interval: int, i: nat, num: nat)
    requires 1 <= num
    ensures Tick(t, interval, i + num - 1) == Tick(Tick(t, interval, i), interval, num) - interval
  {
    TickAdd(t, interval, i, num);
    TickAdd(t, interval, i + num - 1, 1);
    assert Tick(Tick(t, interval, i + num - 1), interval, 1) == Tick(t, interval, i + num - 1) + interval;
  }

  lemma LeftoverIn(s: seq<Point>, t: int, interval: int, num: int, span: int, i: nat, u: int)
    requires 0 < interval && 2 <= num && Even(s, t, interval) && i < |s| < i + num
    requires Tick(s[i].ts, interval, num) == s[i].ts + span && u == s[i].ts - interval + span
    ensures In(s, u - span + 1, u + 1) == s[i..]
  {
    GroupBounds(s, t, interval, num, i, s[i].ts, s[i].ts + span);
    MiddleIn(s, i, |s|, u - span, u);
    assert s[i..|s|] == s[i..];
  }

  lemma LeftoverCell(s: seq<Point>, t: int, interval: int, num: int, span: int, c: Consolidator, i: nat, u: int)
    requires 0 < interval && 2 <= num && Tick(0, interval, num) == span && Even(s, t, interval)
    requires i < |s| < i + num && 0 <= s[i].ts && s[i].ts + span <= U32 && u == s[i].ts - interval + span
    ensures Group(s, i, num, interval, c) == Cell(s, u, span, c)
  {
    TickShift(0, interval, num, s[i].ts);
    LeftoverIn(s, t, interval, num, span, i, u);
    LeftoverTs(s[i].ts, interval, num, span);
  }

  /** A group of an even series is the bucket that starts with its first point and ends at u. */
  lemma GroupCell(s: seq<Point>, t: int, interval: int, num: int, span: int, c: Consolidator, i: nat, u: int)
    requires 0 < interval && 0 <= t && 1 <= num && Tick(0, interval, num) == span && Even(s, t, interval)
    requires i < |s| && s[i].ts + span <= U32 && u == s[i].ts - interval + span
    ensures Group(s, i, num, interval, c) == Cell(s, u, span, c)
  {
    if i + num <= |s| {
      TickShift(0, interval, num, s[i].ts);
      WholeCell(s, t, interval, num, span, c, i, u);
    } else {
      TickGrows(t, interval, 0, i);
      LeftoverCell(s, t, interval, num, span, c, i, u);
    }
  }

  lemma {:induction false} TickScale(t: int, interval: int, num: nat, span: int, k: nat, i: nat)
    requires Tick(0, interval, num) == span && i == Tick(0, num, k)
    ensures Tick(t, interval, i) == Tick(t, span, k)
    decreases k
  {
    if 0 < k {
      TickShift(0, num, k - 1, num);
      if 0 < num {
        TickGrows(0, num, 0, k - 1);
      } else {
        TickIs(0, num, k - 1);
      }
      TickAdd(t, interval, num, i - num);
      TickShift(0, interval, num, t);
      TickScale(t + span, interval, num, span, k - 1, i - num);
    }
  }

  /** The step that the last two points of an even series show. */
  lemma EvenStep(s: seq<Point>, t: int, interval: int)
    requires 2 <= |s| && 0 < interval < U32 && Even(s, t, interval)
    ensures LastStep(s) == interval
  {
    TickAdd(t, interval, |s| - 2, 1);
  }

  /** The time of the bucket that starts with the k-th group. */
  lemma GroupTime(s: seq<Point>, b: int, interval: int, num: int, span: int, k: nat, i: nat)
    requires 0 < interval && 1 <= num && Tick(0, interval, num) == span && Even(s, b + interval, interval)
    requires i == Tick(0, num, k) && i < |s|
    ensures s[i].ts - interval + span == Tick(b + span, span, k)
    ensures s[i].ts <= s[|s| - 1].ts
  {
    TickScale(b + interval, interval, num, span, k, i);
    TickShift(b + interval, span, k, span - interval);
    assert b + interval + (span - interval) == b + span;
    TickGrows(b + interval, interval, i, |s| - 1);
  }

  /** The k-th group of an even series is the k-th bucket, counted from its first point; it ends at u. */
  lemma ConsolidatedCell(s: seq<Point>, b: int, interval: int, num: int, span: int, c: Consolidator, k: nat, u: int)
    requires 0 < interval && 0 <= b + interval && 1 <= num && Tick(0, interval, num) == span
    requires Even(s, b + interval, interval) && s != [] && s[|s| - 1].ts + span <= U32
    requires k < |Groups(s, num, interval, c)| && u == Tick(b + span, span, k)
    ensures Groups(s, num, interval, c)[k] == Cell(s, u, span, c)
  {
    var i := Tick(0, num, k);
    GroupsAt(s, num, interval, c, k, i);
    GroupTime(s, b, interval, num, span, k, i);
    GroupCell(s, b + interval, interval, num, span, c, i, u);
  }

  lemma ConsolidatedAt(s: seq<Point>, b: int, interval: int, num: int, span: int, c: Consolidator, k: nat, u: int)
    requires 0 < interval < U32 && 0 <= b + interval && 1 <= num && Tick(0, interval, num) == span
    requires Even(s, b + interval, interval) && 2 <= |s| && s[|s| - 1].ts + span <= U32
    requires k < |Consolidated(s, num, c)| && u == Tick(b + span, span, k)
    ensures Consolidated(s, num, c)[k] == Cell(s, u, span, c)
  {
    EvenStep(s, b + interval, interval);
    ConsolidatedCell(s, b, interval, num, span, c, k, u);
  }

  /** Consolidating an evenly spaced series of two points or more gives an evenly spaced series. */
  lemma ConsolidatedEven(s: seq<Point>, b: int, interval: int, num: int, span: int, c: Consolidator)
    requires 0 < interval < U32 && 0 <= b + interval && 1 <= num && Tick(0, interval, num) == span
    requires Even(s, b + interval, interval) && 2 <= |s| && s[|s| - 1].ts + span <= U32
    ensures Even(Consolidated(s, num, c), b + span, span)
  {
    forall k | 0 <= k < |Consolidated(s, num, c)|
      ensures Consolidated(s, num, c)[k].ts == Tick(b + span, span, k)
    {
      ConsolidatedAt(s, b, interval, num, span, c, k, Tick(b + span, span, k));
    }
  }
}
