/** Snapping a series to a grid: one point per grid time, padded with nulls. */
module Fixed {
  import opened Arith
  import opened Points
  import opened Quantize
  import opened Seqs

  /** The series without its leading points at or before the bound. */
  function DropOld(s: seq<Point>, bound: int): (r: seq<Point>)
    ensures |r| <= |s| && (s != [] && s[0].ts <= bound ==> |r| < |s|)
  {
    if s == [] || bound < s[0].ts then s else DropOld(s[1..], bound)
  }

  lemma {:induction false} DropOldSuffix(s: seq<Point>, bound: int) returns (k: int)
    ensures 0 <= k <= |s| && DropOld(s, bound) == s[k..]
    ensures forall i :: 0 <= i < k ==> s[i].ts <= bound
  {
    if s == [] || bound < s[0].ts {
      k := 0;
    } else {
      k := DropOldSuffix(s[1..], bound);
      DropDrop(s, 1, k);
      k := k + 1;
    }
  }

  /** One point for each of t, t + interval, ... up to last, taking points from the series as they are met. */
  function Scan(s: seq<Point>, t: int, last: int, interval: int): seq<Point>
    requires 0 < interval
    decreases last - t, |s|
  {
    if last < t then []
    else if s == [] || t < s[0].ts then [Point(t, Null)] + Scan(s, t + interval, last, interval)
    else if t - interval < s[0].ts then [Point(t, s[0].val)] + Scan(s[1..], t + interval, last, interval)
    else Scan(DropOld(s, t - interval), t, last, interval)
  }

  function FirstValue(s: seq<Point>): Value {
    if s == [] then Null else s[0].val
  }

  /** The point a series has at the grid time t: the first value of (t - interval, t], moved to t. */
  function Slot(s: seq<Point>, t: int, interval: int): Point {
    Point(t, FirstValue(In(s, t - interval + 1, t + 1)))
  }

  function Slots(s: seq<Point>, t: int, last: int, interval: int): seq<Point>
    requires 0 < interval
    decreases last - t
  {
    if last < t then [] else [Slot(s, t, interval)] + Slots(s, t + interval, last, interval)
  }

  // ---------------------------------------------------------------------------------------------
  // On a sorted series the scan fills each slot as defined.

  lemma InFirst(s: seq<Point>, from: int, to: int)
    requires s != [] && from <= s[0].ts < to
    ensures In(s, from, to) != [] && In(s, from, to)[0] == s[0]
  {
    Split(s, 1);
    InConcat(s[..1], s[1..], from, to);
    assert s[..1][..0] == [];
  }

  /** Points at or before the previous grid time play no part in later slots. */
  lemma {:induction false} SlotsDrop(s: seq<Point>, k: int, t: int, last: int, interval: int)
    requires 0 < interval && 0 <= k <= |s| && forall i :: 0 <= i < k ==> s[i].ts <= t - interval
    ensures Slots(s[k..], t, last, interval) == Slots(s, t, last, interval)
    decreases last - t
  {
    if t <= last {
      InDrop(s, k, t - interval + 1, t + 1);
      SlotsDrop(s, k, t + interval, last, interval);
    }
  }

  lemma SortedDrop(s: seq<Point>, k: int)
    requires Sorted(s) && 0 <= k <= |s|
    ensures Sorted(s[k..])
  {
  }

  lemma SlotEmpty(s: seq<Point>, t: int, interval: int)
    requires 0 < interval && Sorted(s) && (s == [] || t < s[0].ts)
    ensures Slot(s, t, interval) == Point(t, Null)
  {
    InNone(s, t - interval + 1, t + 1);
  }

  lemma WaitStep(s: seq<Point>, t: int, last: int, interval: int)
    requires 0 < interval && Sorted(s) && t <= last && (s == [] || t < s[0].ts)
    requires Scan(s, t + interval, last, interval) == Slots(s, t + interval, last, interval)
    ensures Scan(s, t, last, interval) == Slots(s, t, last, interval)
  {
    SlotEmpty(s, t, interval);
  }

  lemma SlotTaken(s: seq<Point>, t: int, interval: int)
    requires 0 < interval && s != [] && t - interval < s[0].ts <= t
    ensures Slot(s, t, interval) == Point(t, s[0].val)
  {
    InFirst(s, t - interval + 1, t + 1);
  }

  lemma TakeStep(s: seq<Point>, t: int, last: int, interval: int)
    requires 0 < interval && t <= last && s != [] && t - interval < s[0].ts <= t
    requires Scan(s[1..], t + interval, last, interval) == Slots(s[1..], t + interval, last, interval)
    ensures Scan(s, t, last, interval) == Slots(s, t, last, interval)
  {
    SlotTaken(s, t, interval);
    SlotsDrop(s, 1, t + interval, last, interval);
  }

  /** Filling slots while scanning gives every slot its defined value. */
  lemma {:induction false} ScanSorted(s: seq<Point>, t: int, last: int, interval: int)
    requires 0 < interval && Sorted(s)
    ensures Scan(s, t, last, interval) == Slots(s, t, last, interval)
    decreases last - t, |s|
  {
    if last < t {
    } else if s == [] || t < s[0].ts {
      ScanSorted(s, t + interval, last, interval);
      WaitStep(s, t, last, interval);
    } else if t - interval < s[0].ts {
      SortedDrop(s, 1);
      ScanSorted(s[1..], t + interval, last, interval);
      TakeStep(s, t, last, interval);
    } else {
      var k := DropOldSuffix(s, t - interval);
      SortedDrop(s, k);
      ScanSorted(s[k..], t, last, interval);
      SlotsDrop(s, k, t, last, interval);
    }
  }

  // ---------------------------------------------------------------------------------------------
  // A series that is read twice over is scanned as if it were read once.

  lemma ScanDrop(s: seq<Point>, t: int, last: int, interval: int)
    requires 0 < interval
    ensures Scan(s, t, last, interval) == Scan(DropOld(s, t - interval), t, last, interval)
  {
  }

  /** A point that is too old for the slot at t can be passed over. */
  lemma SkipOne(s: seq<Point>, t: int, last: int, interval: int)
    requires 0 < interval && s != [] && s[0].ts <= t - interval
    ensures Scan(s, t, last, interval) == Scan(s[1..], t, last, interval)
  {
    ScanDrop(s, t, last, interval);
    ScanDrop(s[1..], t, last, interval);
  }

  lemma {:induction false} SkipMany(s: seq<Point>, i: int, t: int, last: int, interval: int)
    requires 0 < interval && 0 <= i <= |s| && forall k :: 0 <= k < i ==> s[k].ts <= t - interval
    ensures Scan(s, t, last, interval) == Scan(s[i..], t, last, interval)
    decreases i
  {
    if i == 0 {
      assert s[0..] == s;
    } else {
      SkipMany(s, i - 1, t, last, interval);
      SkipOne(s[i - 1..], t, last, interval);
      DropDrop(s, i - 1, 1);
    }
  }

  lemma AgainTakes(s: seq<Point>, i: int, m: int, t: int, last: int, interval: int)
    requires 0 < interval && 0 <= i < m <= |s| && t <= last && t - interval < s[i].ts
    requires t < s[i].ts ==>
               Scan(s[i..m] + s, t + interval, last, interval) == Scan(s[i..], t + interval, last, interval)
    requires s[i].ts <= t ==>
               Scan(s[i + 1..m] + s, t + interval, last, interval) == Scan(s[i + 1..], t + interval, last, interval)
    ensures Scan(s[i..m] + s, t, last, interval) == Scan(s[i..], t, last, interval)
  {
    var rest := s[i..m] + s;
    assert rest[0] == s[i] && s[i..][0] == s[i];
    assert rest[1..] == s[i + 1..m] + s && s[i..][1..] == s[i + 1..];
  }

  /** Scanning s[i..m] and then all of s again is scanning s[i..], once s[..i] is behind the previous grid time. */
  lemma {:induction false} ScanAgain(s: seq<Point>, i: int, m: int, t: int, last: int, interval: int)
    requires 0 < interval && 0 <= i <= m <= |s|
    requires forall k :: 0 <= k < i ==> s[k].ts <= t - interval
    ensures Scan(s[i..m] + s, t, last, interval) == Scan(s[i..], t, last, interval)
    decreases last - t, m - i
  {
    if last < t {
    } else if i == m {
      assert s[i..m] + s == s;
      SkipMany(s, i, t, last, interval);
    } else if s[i].ts <= t - interval {
      AgainDrops(s, i, m, t, last, interval);
    } else {
      if t < s[i].ts {
        ScanAgain(s, i, m, t + interval, last, interval);
      } else {
        ScanAgain(s, i + 1, m, t + interval, last, interval);
      }
      AgainTakes(s, i, m, t, last, interval);
    }
  }

  lemma AgainDrops(s: seq<Point>, i: int, m: int, t: int, last: int, interval: int)
    requires 0 < interval && 0 <= i < m <= |s| && t <= last && s[i].ts <= t - interval
    requires forall k :: 0 <= k < i ==> s[k].ts <= t - interval
    ensures Scan(s[i..m] + s, t, last, interval) == Scan(s[i..], t, last, interval)
    decreases last - t, m - i, 0
  {
    var rest := s[i..m] + s;
    assert rest[0] == s[i] && rest[1..] == s[i + 1..m] + s;
    SkipOne(rest, t, last, interval);
    DropDrop(s, i, 1);
    SkipOne(s[i..], t, last, interval);
    ScanAgain(s, i + 1, m, t, last, interval);
  }

  /** A series whose first points were read twice is scanned as if they were read once. */
  lemma ScanTwice(s: seq<Point>, m: int, t: int, last: int, interval: int)
    requires 0 < interval && 0 <= m <= |s|
    ensures Scan(s[..m] + s, t, last, interval) == Scan(s, t, last, interval)
  {
    ScanAgain(s, 0, m, t, last, interval);
    assert s[0..m] == s[..m] && s[0..] == s;
  }

  // ---------------------------------------------------------------------------------------------
  // The grid.

  /** The number of grid times from t to last. */
  function Times(t: int, last: int, interval: int): nat
    requires 0 < interval
    decreases last - t
  {
    if last < t then 0 else 1 + Times(t + interval, last, interval)
  }

  /** The length that is computed up front. */
  lemma {:induction false} TimesQuotient(t: int, last: int, interval: int)
    requires 0 < interval && t <= last
    ensures Times(t, last, interval) == (last - t) / interval + 1
    decreases last - t
  {
    if last < t + interval {
      DivModUnique(last - t, interval, 0, last - t);
    } else {
      TimesQuotient(t + interval, last, interval);
      ModShift(last - t - interval, interval, 1);
    }
  }

  lemma {:induction false} SlotsTimes(s: seq<Point>, t: int, last: int, interval: int)
    requires 0 < interval
    ensures |Slots(s, t, last, interval)| == Times(t, last, interval)
    decreases last - t
  {
    if t <= last {
      SlotsTimes(s, t + interval, last, interval);
    }
  }

  /** Every multiple of the interval from t to last has a slot. */
  lemma {:induction false} SlotsHit(s: seq<Point>, t: int, last: int, interval: int, u: int)
    requires 0 < interval && t % interval == 0 && u % interval == 0 && t <= u <= last
    ensures Slot(s, u, interval) in Slots(s, t, last, interval)
    decreases last - t
  {
    if t < u {
      MultiplesApart(t, u, interval);
      ModShift(t, interval, 1);
      assert t + 1 * interval == t + interval;
      SlotsHit(s, t + interval, last, interval, u);
    }
  }

  /** Every slot is at a multiple of the interval from t to last. */
  lemma {:induction false} SlotsOnly(s: seq<Point>, t: int, last: int, interval: int, p: Point)
    requires 0 < interval && t % interval == 0 && p in Slots(s, t, last, interval)
    ensures p.ts % interval == 0 && t <= p.ts <= last && p == Slot(s, p.ts, interval)
    decreases last - t
  {
    if p != Slot(s, t, interval) {
      ModShift(t, interval, 1);
      assert t + 1 * interval == t + interval;
      SlotsOnly(s, t + interval, last, interval, p);
    }
  }

  /** The series in quantized form: one point per multiple of the interval in [from, to). */
  function Quantized(s: seq<Point>, from: int, to: int, interval: int): seq<Point>
    requires 0 <= from && 1 <= to < U32 && 0 < interval < U32
  {
    Slots(s, AlignForward(from, interval), AlignBackward(to, interval), interval)
  }

  /** A point is in the quantized series exactly if it is the slot at a multiple of the interval in [from, to). */
  lemma QuantizedExactly(s: seq<Point>, from: int, to: int, interval: int, p: Point)
    requires 0 <= from && 1 <= to < U32 && 0 < interval && from + interval <= U32 && interval < U32
    ensures p in Quantized(s, from, to, interval)
            <==> p.ts % interval == 0 && from <= p.ts < to && p == Slot(s, p.ts, interval)
    ensures p in Quantized(s, from, to, interval) ==> IsSlot(p, s, p.ts, interval)
  {
    SlotExactly(s, p.ts, interval);
    var first, last := AlignForward(from, interval), AlignBackward(to, interval);
    if p in Quantized(s, from, to, interval) {
      SlotsOnly(s, first, last, interval, p);
    } else if p.ts % interval == 0 && from <= p.ts < to && p == Slot(s, p.ts, interval) {
      AlignForwardLeast(from, interval, p.ts);
      AlignBackwardGreatest(to, interval, p.ts);
      SlotsHit(s, first, last, interval, p.ts);
    }
  }

  /** The i-th point is the first of the series in (t - interval, t]. */
  ghost predicate IsFirstIn(s: seq<Point>, i: int, t: int, interval: int) {
    && 0 <= i < |s| && t - interval < s[i].ts <= t
    && forall j :: 0 <= j < i ==> !(t - interval < s[j].ts <= t)
  }

  /** A slot has the value of the first point of its interval, and none if there is no such point. */
  ghost predicate IsSlot(p: Point, s: seq<Point>, t: int, interval: int) {
    && p.ts == t
    && (forall i :: IsFirstIn(s, i, t, interval) ==> p.val == s[i].val)
    && ((forall i :: 0 <= i < |s| ==> !(t - interval < s[i].ts <= t)) ==> p.val == Null)
  }

  lemma {:induction false} FirstIn(s: seq<Point>, i: int, t: int, interval: int)
    requires IsFirstIn(s, i, t, interval)
    ensures var hits := In(s, t - interval + 1, t + 1); hits != [] && hits[0] == s[i]
  {
    var init := s[..|s| - 1];
    if i < |init| {
      assert forall j :: 0 <= j < |init| ==> init[j] == s[j];
      FirstIn(init, i, t, interval);
    } else {
      InNone(init, t - interval + 1, t + 1);
    }
  }

  lemma SlotExactly(s: seq<Point>, t: int, interval: int)
    ensures IsSlot(Slot(s, t, interval), s, t, interval)
  {
    var p := Slot(s, t, interval);
    forall i | IsFirstIn(s, i, t, interval)
      ensures p.val == s[i].val
    {
      FirstIn(s, i, t, interval);
    }
    if forall i :: 0 <= i < |s| ==> !(t - interval < s[i].ts <= t) {
      InNone(s, t - interval + 1, t + 1);
    }
  }

  /** A value never moves to an earlier time, and moves by less than one interval. */
  lemma NeverEarlier(s: seq<Point>, t: int, interval: int)
    requires 0 < interval && Slot(s, t, interval).val.Num?
    ensures exists p :: p in s && p.val == Slot(s, t, interval).val && p.ts <= t < p.ts + interval
  {
    var hits := In(s, t - interval + 1, t + 1);
    InMembers(s, t - interval + 1, t + 1);
    assert hits[0] in hits;
  }

  // ---------------------------------------------------------------------------------------------
  // The loop.

  /** Passes over points that are too old for the slot at t, as far as there are any. */
  method SkipOld(points: seq<Point>, start: int, bound: int) returns (i: int)
    requires 0 <= start < |points| && points[start].ts <= bound
    ensures start < i <= |points| && points[i..] == DropOld(points[start..], bound)
  {
    i := start;
    while points[i].ts <= bound && i < |points| - 1
      invariant start <= i < |points|
      invariant DropOld(points[i..], bound) == DropOld(points[start..], bound)
      decreases |points| - i
    {
      DropDrop(points, i, 1);
      i := i + 1;
    }
    DropDrop(points, i, 1);
    if points[i].ts <= bound {
      i := i + 1;
    }
  }

  /** What goes in the slot at t, with the next input to consider; no slot is filled if that input was too old. */
  method Consider(points: seq<Point>, i: int, t: int, ghost last: int, interval: int)
    returns (filled: bool, p: Point, next: int)
    requires 0 <= i <= |points| && 0 < interval && t <= last
    ensures i <= next <= |points| && (!filled ==> i < next && points[i].ts <= t - interval)
    ensures filled ==>
              Scan(points[i..], t, last, interval) == [p] + Scan(points[next..], t + interval, last, interval)
    ensures !filled ==> Scan(points[i..], t, last, interval) == Scan(points[next..], t, last, interval)
  {
    filled, p, next := true, Point(t, Null), i;
    if |points| <= i {
      return;
    }
    DropDrop(points, i, 1);
    if points[i].ts == t {
      p, next := points[i], i + 1;
    } else if t < points[i].ts {
    } else if t - interval < points[i].ts {
      p, next := Point(t, points[i].val), i + 1;
    } else {
      next := SkipOld(points, i, t - interval);
      filled := false;
    }
  }

  lemma Written(before: seq<Point>, after: seq<Point>, p: Point, rest: seq<Point>)
    requires after == before + [p]
    ensures after + rest == before + ([p] + rest)
  {
  }

  lemma TimesStep(t: int, last: int, interval: int)
    requires 0 < interval && t <= last
    ensures Times(t, last, interval) == 1 + Times(t + interval, last, interval)
  {
  }

  /** Fills the slots from first to last; the index steps back when no slot was filled. */
  method Fill(points: seq<Point>, first: int, last: int, interval: int, n: int) returns (r: seq<Point>)
    requires 0 < interval && first <= last && last + interval < U32 && n == Times(first, last, interval)
    requires forall p :: p in points ==> 0 <= p.ts
    ensures r == Scan(points, first, last, interval)
  {
    var out := new Point[n];
    var t, i, o := first, 0, -1;
    ghost var all, rest, left := Scan(points, first, last, interval), Scan(points, first, last, interval), n;
    assert points[0..] == points && out[..0] == [];
    while t <= last
      invariant first <= t && 0 <= i <= |points| && -1 <= o && o + 1 + left == n
      invariant left == Times(t, last, interval) && rest == Scan(points[i..], t, last, interval)
      invariant out[..o + 1] + rest == all
      decreases last - t, |points| - i
    {
      o := o + 1;
      var filled, p, next := Consider(points, i, t, last, interval);
      ghost var before := out[..o];
      if filled {
        TimesStep(t, last, interval);
        left, rest := left - 1, Scan(points[next..], t + interval, last, interval);
        out[o] := p;
        Written(before, out[..o + 1], p, rest);
      } else {
        assert interval <= t;
        t := t - interval;
        o := o - 1;
      }
      i := next;
      assert t + interval < U32;
      t := t + interval;
    }
    r := out[..];
  }

  method Fix(points: seq<Point>, from: int, to: int, interval: int) returns (r: seq<Point>)
    requires 0 <= from && 1 <= to && 0 < interval && from + interval <= U32 && to + interval <= U32
    requires forall p :: p in points ==> 0 <= p.ts
    ensures r == Scan(points, AlignForward(from, interval), AlignBackward(to, interval), interval)
    ensures Sorted(points) ==> r == Quantized(points, from, to, interval)
  {
    var first, last := AlignForward(from, interval), AlignBackward(to, interval);
    if Sorted(points) {
      ScanSorted(points, first, last, interval);
    }
    if last < first {
      return [];
    }
    TimesQuotient(first, last, interval);
    r := Fill(points, first, last, interval, (last - first) / interval + 1);
  }
}
