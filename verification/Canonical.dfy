/** The answer to a request is in canonical form: it depends on the request's grid, not on where the window starts. */
module Canonical {
  import opened Arith
  import opened Batch
  import opened Consolidation
  import opened Fixed
  import opened Grids
  import opened Points
  import opened Quantize
  import opened Requests

  // ---------------------------------------------------------------------------------------------
  // Slots of part of a series, and parts of a series of slots.

  /** Slots do not depend on points outside the fetched range, if that covers them. */
  lemma {:induction false} SlotsWithin(s: seq<Point>, from: int, to: int, t: int, last: int, interval: int)
    requires 0 < interval && from <= t - interval + 1 && last < to
    ensures Slots(In(s, from, to), t, last, interval) == Slots(s, t, last, interval)
    decreases last - t
  {
    if t <= last {
      InIn(s, from, to, t - interval + 1, t + 1);
      SlotsWithin(s, from, to, t + interval, last, interval);
    }
  }

  /** All points are at multiples of the interval, as those of a rollup series are. */
  ghost predicate Quantal(s: seq<Point>, interval: int)
    requires 0 < interval
  {
    forall p :: p in s ==> p.ts % interval == 0
  }

  lemma {:induction false} QuantalIn(s: seq<Point>, interval: int, t: int)
    requires 0 < interval && Quantal(s, interval) && t % interval == 0
    ensures In(s, t - interval + 1, t + 1) == In(s, t, t + 1)
  {
    if s != [] {
      QuantalIn(s[..|s| - 1], interval, t);
      var p := s[|s| - 1];
      if t - interval < p.ts < t {
        MultiplesApart(p.ts, t, interval);
      }
    }
  }

  lemma QuantalPart(s: seq<Point>, interval: int, from: int, to: int)
    requires 0 < interval && Quantal(s, interval)
    ensures Quantal(In(s, from, to), interval)
  {
    InMembers(s, from, to);
  }

  lemma {:induction false} QuantalSlots(s: seq<Point>, from: int, to: int, t: int, last: int, interval: int)
    requires 0 < interval && Quantal(s, interval) && t % interval == 0 && from <= t && last < to
    ensures Slots(In(s, from, to), t, last, interval) == Slots(s, t, last, interval)
    decreases last - t
  {
    if t <= last {
      QuantalPart(s, interval, from, to);
      QuantalIn(s, interval, t);
      QuantalIn(In(s, from, to), interval, t);
      InIn(s, from, to, t, t + 1);
      ModShift(t, interval, 1);
      assert t + 1 * interval == t + interval;
      QuantalSlots(s, from, to, t + interval, last, interval);
    }
  }

  lemma {:induction false} SlotsLater(s: seq<Point>, t: int, last: int, interval: int)
    requires 0 < interval
    ensures forall i :: 0 <= i < |Slots(s, t, last, interval)| ==> t <= Slots(s, t, last, interval)[i].ts
    decreases last - t
  {
    if t <= last {
      SlotsLater(s, t + interval, last, interval);
    }
  }

  lemma InNext(p: Point, rest: seq<Point>, from: int, to: int)
    ensures from <= p.ts < to ==> In([p] + rest, from, to) == [p] + In(rest, from, to)
    ensures !(from <= p.ts < to) ==> In([p] + rest, from, to) == In(rest, from, to)
  {
    InConcat([p], rest, from, to);
    assert [p][..0] == [];
  }

  lemma {:induction false} SlotsUntil(s: seq<Point>, t: int, last: int, interval: int, lo: int, hi: int)
    requires 0 < interval && lo < t && hi <= last
    ensures In(Slots(s, t, last, interval), lo + 1, hi + 1) == Slots(s, t, hi, interval)
    decreases last - t
  {
    if last < t {
    } else if hi < t {
      SlotsLater(s, t, last, interval);
      InNone(Slots(s, t, last, interval), lo + 1, hi + 1);
    } else {
      SlotsUntil(s, t + interval, last, interval, lo, hi);
      InNext(Slot(s, t, interval), Slots(s, t + interval, last, interval), lo + 1, hi + 1);
    }
  }

  /** The slots of a range, taken from more slots, are the slots computed for that range. */
  lemma {:induction false} SlotsIn(s: seq<Point>, t: int, last: int, interval: int, k: nat, lo: int, hi: int)
    requires 0 < interval && lo + interval == Tick(t, interval, k) && hi <= last
    ensures In(Slots(s, t, last, interval), lo + 1, hi + 1) == Slots(s, lo + interval, hi, interval)
    decreases k
  {
    if k == 0 {
      SlotsUntil(s, t, last, interval, lo, hi);
    } else {
      TickGrows(t + interval, interval, 0, k - 1);
      if last < t {
      } else {
        SlotsIn(s, t + interval, last, interval, k - 1, lo, hi);
        InNext(Slot(s, t, interval), Slots(s, t + interval, last, interval), lo + 1, hi + 1);
      }
    }
  }

  lemma {:induction false} SlotsEven(s: seq<Point>, t: int, last: int, interval: int)
    requires 0 < interval
    ensures Even(Slots(s, t, last, interval), t, interval)
    decreases last - t
  {
    if t <= last {
      SlotsEven(s, t + interval, last, interval);
    }
  }

  lemma {:induction false} SlotsCount(s: seq<Point>, t: int, interval: int, n: nat)
    requires 0 < interval
    ensures |Slots(s, t + interval, Tick(t, interval, n), interval)| == n
    decreases n
  {
    if 0 < n {
      TickGrows(t + interval, interval, 0, n - 1);
      SlotsCount(s, t + interval, interval, n - 1);
    }
  }

  // ---------------------------------------------------------------------------------------------
  // Fetching and fixing.

  /** The slots that a request needs, computed from everything that is stored. */
  function NeededSlots(stored: seq<Point>, r: Req): seq<Point>
    requires 0 <= r.from && 0 <= r.to < U32 && 0 < r.outInterval < U32 && 0 < r.archInterval
  {
    Slots(stored, r.Base() + r.archInterval, r.Last(), r.archInterval)
  }

  /** Snapping the fetched range to the grid gives back the slots it was made for. */
  lemma FixedRange(r: Req)
    requires r.Valid()
    ensures 0 <= r.Base() && 0 <= r.Last()
    ensures AlignForward(r.Base() + 1, r.archInterval)
            == r.Base() + r.archInterval
    ensures AlignBackward(r.Last() + 1, r.archInterval) == r.Last()
  {
    var b, l := r.Base(), r.Last();
    OutOnArch(r);
    ForwardPositive(r.from, r.outInterval);
    MultipleTransitive(r.First(), r.outInterval, r.archInterval);
    SumOfMultiples(r.First(), r.outInterval, r.archInterval);
    MultipleTransitive(l, r.outInterval, r.archInterval);
    NextGridTime(b, r.archInterval);
    ThisGridTime(l, r.archInterval);
  }

  lemma NextGridTime(b: int, interval: int)
    requires 0 <= b && 0 < interval && b % interval == 0 && b + 1 + interval <= U32
    ensures AlignForward(b + 1, interval) == b + interval
  {
    ModShift(b, interval, 1);
    assert b + 1 * interval == b + interval;
    CongruentClose(AlignForward(b + 1, interval), b + interval, interval);
  }

  lemma ThisGridTime(l: int, interval: int)
    requires 0 <= l && 0 < interval < U32 && l % interval == 0 && l + 1 < U32
    ensures AlignBackward(l + 1, interval) == l
  {
    CongruentClose(AlignBackward(l + 1, interval), l, interval);
  }

  /** What is stored can be asked for: raw points in time order, or rollup points at multiples of their span. */
  ghost predicate Readable(stored: seq<Point>, r: Req)
    requires r.Valid()
  {
    && Sorted(stored) && (forall p :: p in stored ==> 0 <= p.ts)
    && (r.archive != 0 ==> Quantal(stored, r.archInterval))
  }

  lemma WideSlots(stored: seq<Point>, r: Req, from: int, to: int)
    requires r.Valid() && Readable(stored, r) && from == r.Base() + 1 && to == r.Last() + 1
    requires r.archInterval < U32
    ensures 0 <= from && 1 <= to < U32 && Quantized(In(stored, from, to), from, to, r.archInterval)
                                         == NeededSlots(stored, r)
  {
    FixedRange(r);
    SlotsWithin(stored, from, to, from + r.archInterval - 1, r.Last(), r.archInterval);
  }

  lemma NarrowSlots(stored: seq<Point>, r: Req)
    requires r.Valid() && Readable(stored, r) && r.archive != 0 && r.aggNum == 1 && r.archInterval < U32
    ensures Quantized(In(stored, r.from, r.to), r.from, r.to, r.archInterval) == NeededSlots(stored, r)
  {
    assert r.outInterval == r.archInterval;
    QuantalSlots(stored, r.from, r.to, r.First(), r.Last(), r.archInterval);
  }

  lemma NoSlots(stored: seq<Point>, r: Req)
    requires r.Valid() && r.Last() + r.outInterval == r.First()
    ensures NeededSlots(stored, r) == []
  {
  }

  /** Fetches the points of a request and snaps them to the grid; the result has every slot that is needed. */
  method GetSeriesFixed(stored: seq<Point>, r: Req) returns (points: seq<Point>)
    requires r.Valid() && Readable(stored, r)
    ensures points == NeededSlots(stored, r)
  {
    AlwaysRewinds(r);
    OutOnArch(r);
    var rc := NewRequestContext(r);
    if r.archive == 0 || r.aggNum > 1 {
      ContextExact(r);
      WideSlots(stored, r, rc.from, rc.to);
    } else {
      NarrowSlots(stored, r);
    }
    if rc.from == rc.to {
      NoSlots(stored, r);
      return [];
    }
    var fetched := In(stored, rc.from, rc.to);
    InSorted(stored, rc.from, rc.to);
    InMembers(stored, rc.from, rc.to);
    points := Fix(fetched, rc.from, rc.to, r.archInterval);
  }

  // ---------------------------------------------------------------------------------------------
  // Grouping.

  /** The output point at time t: the slot itself, or the slots of (t - outInterval, t] aggregated. */
  function OutputPoint(stored: seq<Point>, r: Req, c: Consolidator, t: int): Point
    requires 0 < r.archInterval
  {
    if r.aggNum == 1 then Slot(stored, t, r.archInterval)
    else Point(t, Aggregate(c, Slots(stored, t - r.outInterval + r.archInterval, t, r.archInterval)))
  }

  /**
   * One point for each multiple of the output interval from the first to the last in [from, to), each of which
   * depends only on what is stored and on its own time.
   */
  ghost predicate IsCanonical(out: seq<Point>, stored: seq<Point>, r: Req, c: Consolidator)
    requires r.Valid()
  {
    && Tick(r.Base(), r.outInterval, |out|) == r.Last()
    && Even(out, r.Base() + r.outInterval, r.outInterval)
    && forall k :: 0 <= k < |out| ==> out[k] == OutputPoint(stored, r, c, out[k].ts)
  }

  /** How many output points there are. */
  lemma OutputCount(r: Req) returns (m: nat)
    requires r.Valid()
    ensures Tick(r.Base(), r.outInterval, m) == r.Last()
  {
    var b, out := r.Base(), r.outInterval;
    SomeOutputIs(r);
    SumOfMultiples(r.First(), out, out);
    SumOfMultiples(r.Last(), b, out);
    Multiple(r.Last() - b, out);
    DivMonotone(0, r.Last() - b, out);
    m := (r.Last() - b) / out;
    TickIs(b, out, m);
  }

  lemma {:induction false} SlotsAre(s: seq<Point>, t: int, last: int, interval: int, k: nat)
    requires 0 < interval && k < |Slots(s, t, last, interval)|
    ensures Slots(s, t, last, interval)[k] == Slot(s, Slots(s, t, last, interval)[k].ts, interval)
    decreases k
  {
    if 0 < k {
      SlotsAre(s, t + interval, last, interval, k - 1);
    }
  }

  lemma SingleCanonical(stored: seq<Point>, r: Req, c: Consolidator)
    requires r.Valid() && r.aggNum == 1
    ensures IsCanonical(NeededSlots(stored, r), stored, r, c)
  {
    assert r.outInterval == r.archInterval;
    var m := OutputCount(r);
    SlotsCount(stored, r.First() - r.archInterval, r.archInterval, m);
    SlotsEven(stored, r.First(), r.Last(), r.archInterval);
    forall k | 0 <= k < |NeededSlots(stored, r)|
      ensures NeededSlots(stored, r)[k] == Slot(stored, NeededSlots(stored, r)[k].ts, r.archInterval)
    {
      SlotsAre(stored, r.First(), r.Last(), r.archInterval, k);
    }
  }

  /** The needed slots come in whole groups. */
  lemma GroupsWhole(stored: seq<Point>, r: Req, m: nat)
    requires r.Valid() && Tick(r.Base(), r.outInterval, m) == r.Last()
    ensures Tick(0, r.archInterval, r.aggNum) == r.outInterval
    ensures |NeededSlots(stored, r)| == m * r.aggNum
    ensures Even(NeededSlots(stored, r), r.Base() + r.archInterval, r.archInterval)
  {
    var b := r.Base();
    TickIs(0, r.archInterval, r.aggNum);
    TickIs(0, r.aggNum, m);
    ProductMonotone(0, m, r.aggNum);
    TickScale(b, r.archInterval, r.aggNum, r.outInterval, m, m * r.aggNum);
    SlotsCount(stored, b, r.archInterval, m * r.aggNum);
    SlotsEven(stored, b + r.archInterval, r.Last(), r.archInterval);
  }

  lemma WholeCount(m: nat, num: int)
    requires 1 <= num
    ensures CeilDiv(m * num, num) == m
  {
    DivModUnique(m * num + num - 1, num, m, num - 1);
  }

  /** The slots of one group, taken from all needed slots. */
  lemma GroupSlots(stored: seq<Point>, r: Req, m: nat, k: nat, t: int)
    requires r.Valid() && Tick(r.Base(), r.outInterval, m) == r.Last() && k < m
    requires t == Tick(r.Base() + r.outInterval, r.outInterval, k)
    ensures In(NeededSlots(stored, r), t - r.outInterval + 1, t + 1)
            == Slots(stored, t - r.outInterval + r.archInterval, t, r.archInterval)
  {
    var b, i := r.Base(), r.archInterval;
    TickIs(0, i, r.aggNum);
    TickIs(0, r.aggNum, k);
    ProductMonotone(0, k, r.aggNum);
    TickScale(b + i, i, r.aggNum, r.outInterval, k, k * r.aggNum);
    TickShift(b + r.outInterval, r.outInterval, k, i - r.outInterval);
    assert b + r.outInterval + (i - r.outInterval) == b + i;
    TickGrows(b, r.outInterval, k + 1, m);
    SlotsIn(stored, b + i, r.Last(), i, k * r.aggNum, t - r.outInterval, t);
  }

  lemma SlotsBelow(stored: seq<Point>, r: Req)
    requires r.Valid() && NeededSlots(stored, r) != []
    ensures var slots := NeededSlots(stored, r); slots[|slots| - 1].ts <= r.Last()
  {
    LastSlot(stored, r.Base() + r.archInterval, r.Last(), r.archInterval);
  }

  lemma {:induction false} LastSlot(s: seq<Point>, t: int, last: int, interval: int)
    requires 0 < interval && Slots(s, t, last, interval) != []
    ensures Slots(s, t, last, interval)[|Slots(s, t, last, interval)| - 1].ts <= last
    decreases last - t
  {
    if t + interval <= last {
      LastSlot(s, t + interval, last, interval);
    }
  }

  lemma GroupsReady(stored: seq<Point>, r: Req, c: Consolidator, m: nat)
    requires r.Valid() && 2 <= r.aggNum && Tick(r.Base(), r.outInterval, m) == r.Last() && 0 < m
    ensures var slots := NeededSlots(stored, r); 2 <= |slots| && slots[|slots| - 1].ts + r.outInterval <= U32
    ensures |Consolidated(NeededSlots(stored, r), r.aggNum, c)| == m && r.archInterval < U32 && 0 <= r.Base()
  {
    var slots := NeededSlots(stored, r);
    OutOnArch(r);
    ForwardPositive(r.from, r.outInterval);
    GroupsWhole(stored, r, m);
    WholeCount(m, r.aggNum);
    GroupsCount(slots, r.aggNum, LastStep(slots), c);
    ProductMonotone(1, m, r.aggNum);
    SlotsBelow(stored, r);
  }

  lemma GroupIsCell(slots: seq<Point>, b: int, interval: int, num: int, out: int, c: Consolidator, k: nat, t: int)
    requires 0 < interval < U32 && 0 <= b && 1 <= num && Tick(0, interval, num) == out
    requires Even(slots, b + interval, interval) && 2 <= |slots| && slots[|slots| - 1].ts + out <= U32
    requires k < |Consolidated(slots, num, c)| && t == Tick(b + out, out, k)
    ensures Consolidated(slots, num, c)[k] == Point(t, Aggregate(c, In(slots, t - out + 1, t + 1)))
  {
    ConsolidatedAt(slots, b, interval, num, out, c, k, t);
  }

  /** Each group of needed slots makes the output point at its end. */
  lemma GroupOutput(stored: seq<Point>, r: Req, c: Consolidator, m: nat, k: nat, t: int)
    requires r.Valid() && 2 <= r.aggNum && Tick(r.Base(), r.outInterval, m) == r.Last() && k < m
    requires t == Tick(r.Base() + r.outInterval, r.outInterval, k)
    ensures k < |Consolidated(NeededSlots(stored, r), r.aggNum, c)|
    ensures Consolidated(NeededSlots(stored, r), r.aggNum, c)[k] == OutputPoint(stored, r, c, t)
  {
    var slots := NeededSlots(stored, r);
    GroupsReady(stored, r, c, m);
    GroupsWhole(stored, r, m);
    GroupSlots(stored, r, m, k, t);
    GroupIsCell(slots, r.Base(), r.archInterval, r.aggNum, r.outInterval, c, k, t);
  }

  /** The groups of the needed slots are in canonical form; there is never a partial group. */
  lemma GroupedCanonical(stored: seq<Point>, r: Req, c: Consolidator)
    requires r.Valid() && 2 <= r.aggNum
    ensures IsCanonical(Consolidated(NeededSlots(stored, r), r.aggNum, c), stored, r, c)
  {
    var slots, out := NeededSlots(stored, r), Consolidated(NeededSlots(stored, r), r.aggNum, c);
    var m := OutputCount(r);
    if m == 0 {
      SlotsCount(stored, r.Base(), r.archInterval, 0);
    } else {
      GroupsReady(stored, r, c, m);
    }
    forall k | 0 <= k < m
      ensures out[k] == OutputPoint(stored, r, c, Tick(r.Base() + r.outInterval, r.outInterval, k))
    {
      GroupOutput(stored, r, c, m, k, Tick(r.Base() + r.outInterval, r.outInterval, k));
    }
  }

  /** There is an output point at t exactly if t is a multiple of the output interval in [from, to). */
  lemma CanonicalTimes(out: seq<Point>, stored: seq<Point>, r: Req, c: Consolidator, t: int)
    requires r.Valid() && IsCanonical(out, stored, r, c)
    ensures OutputPoint(stored, r, c, t) in out <==> t % r.outInterval == 0 && r.from <= t < r.to
  {
    var first, last, o := r.Base() + r.outInterval, r.Last(), r.outInterval;
    if t % o == 0 && r.from <= t < r.to {
      AlignForwardLeast(r.from, o, t);
      AlignBackwardGreatest(r.to, o, t);
      SumOfMultiples(t, first, o);
      Multiple(t - first, o);
      DivMonotone(0, t - first, o);
      var k: nat := (t - first) / o;
      TickIs(first, o, k);
      TickShift(first, o, |out|, -o);
      if |out| <= k {
        TickGrows(first, o, |out|, k);
      }
      assert out[k] == OutputPoint(stored, r, c, t);
    }
    if OutputPoint(stored, r, c, t) in out {
      var k :| 0 <= k < |out| && out[k] == OutputPoint(stored, r, c, t);
      TickIs(first, o, k);
      ModShift(first, o, k);
      TickShift(first, o, |out|, -o);
      TickGrows(first, o, k, |out|);
    }
  }
}
