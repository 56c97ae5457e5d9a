/** Consolidating to a maximum number of points, with groups that stay put when the window moves. */
module Nudges {
  import opened Arith
  import opened Batch
  import opened Consolidation
  import opened Grids
  import opened Points
  import opened Quantize

  // ---------------------------------------------------------------------------------------------
  // The group size.

  /** How many points to aggregate together so that at most maxPoints remain. */
  function AggEvery(numPoints: int, maxPoints: int): int
    requires 1 <= maxPoints
  {
    if numPoints == 0 then 1 else Wrap32(numPoints + maxPoints - 1) / maxPoints
  }

  lemma CeilDivBound(n: int, g: int, m: int)
    requires 0 <= n && 1 <= g && 0 <= m
    ensures CeilDiv(n, g) <= m <==> n <= m * g
  {
    var q, r := (n + g - 1) / g, (n + g - 1) % g;
    assert n + g - 1 == q * g + r;
    if q <= m {
      ProductMonotone(q, m, g);
    } else {
      ProductMonotone(m + 1, q, g);
      assert (m + 1) * g == m * g + g;
    }
  }

  /** It is the least group size that leaves at most maxPoints points. */
  lemma AggEveryLeast(numPoints: int, maxPoints: int, g: int)
    requires 0 <= numPoints && 1 <= maxPoints && numPoints + maxPoints <= U32 && 1 <= g
    ensures 1 <= AggEvery(numPoints, maxPoints)
    ensures CeilDiv(numPoints, g) <= maxPoints <==> AggEvery(numPoints, maxPoints) <= g
  {
    CeilDivBound(numPoints, g, maxPoints);
    CeilDivBound(numPoints, maxPoints, g);
    assert maxPoints * g == g * maxPoints;
    if 0 < numPoints {
      CeilDivBound(numPoints, maxPoints, 0);
    }
  }

  // ---------------------------------------------------------------------------------------------
  // Nudging.

  /** How far to move the start up, and how many points to strip, so that a bucket starts with the first point. */
  function Nudge(start: int, interval: int, aggNum: int): (int, int)
    requires 0 < interval && 0 < Wrap32(interval * aggNum)
  {
    var span := Wrap32(interval * aggNum);
    var remainder := Wrap32(start - interval) % span;
    if remainder > 0 then (span - remainder, (span - remainder) / interval) else (0, 0)
  }

  /** After nudging, the series starts one interval after a multiple of the span; fewer than aggNum points are lost. */
  lemma NudgeAligns(start: int, interval: int, aggNum: int, span: int)
    requires 0 < interval <= start < U32 && start % interval == 0 && 1 <= aggNum && span == interval * aggNum < U32
    requires 0 < span
    ensures var (diff, num) := Nudge(start, interval, aggNum);
            && 0 <= num < aggNum && diff == num * interval
            && (start + diff - interval) % span == 0
            && start - interval <= start + diff - interval < start - interval + span
  {
    var x := start - interval;
    var r := x % span;
    RoundedDown(x, span);
    if r > 0 {
      var diff := span - r;
      ModShift(x - r, span, 1);
      assert x - r + 1 * span == x + diff;
      SumOfMultiples(start, interval, interval);
      MultipleOf(aggNum, interval);
      assert span == aggNum * interval;
      MultipleTransitive(x - r + span, span, interval);
      SumOfMultiples(x + diff, x, interval);
      Multiple(diff, interval);
      if aggNum <= diff / interval {
        ProductMonotone(aggNum, diff / interval, interval);
      }
      DivMonotone(0, diff, interval);
    }
  }

  lemma NudgeFew(start: int, interval: int, aggNum: int)
    requires 0 < interval && 1 <= aggNum && 0 < Wrap32(interval * aggNum)
    ensures 0 <= Nudge(start, interval, aggNum).1 < aggNum
  {
    var span := Wrap32(interval * aggNum);
    var remainder := Wrap32(start - interval) % span;
    if remainder > 0 {
      ProductApart(interval, aggNum);
      WrapDown(interval * aggNum);
      FewSteps(span - remainder, interval, aggNum);
    }
  }

  lemma FewSteps(d: int, interval: int, n: int)
    requires 0 < interval && 0 <= d < interval * n
    ensures 0 <= d / interval < n
  {
    QuotientsOrdered(interval, 0, 0, d, d / interval);
    assert interval * (n - 1) + interval == interval * n;
    QuotientsOrdered(interval, d, d / interval, d, n - 1);
  }

  lemma WrapDown(x: int)
    requires 0 <= x
    ensures Wrap32(x) <= x
  {
    RoundedDown(x, U32);
  }

  predicate Nudgeable(s: seq<Point>, interval: int, aggNum: int) {
    |s| > Wrap32(2 * aggNum) ==> s != [] && 0 < Wrap32(interval * aggNum)
  }

  /** How many points are stripped: none if there are not many. */
  function Strip(s: seq<Point>, interval: int, aggNum: int): (n: int)
    requires 0 < interval && 1 <= aggNum && Nudgeable(s, interval, aggNum)
    ensures 0 <= n < aggNum
  {
    if |s| > Wrap32(2 * aggNum) then
      NudgeFew(s[0].ts, interval, aggNum);
      Nudge(s[0].ts, interval, aggNum).1
    else 0
  }

  function Nudged(s: seq<Point>, interval: int, aggNum: int, c: Consolidator): seq<Point>
    requires 0 < interval && 1 <= aggNum && (s != [] ==> aggNum <= |s|) && Nudgeable(s, interval, aggNum)
  {
    Consolidated(s[Strip(s, interval, aggNum)..], aggNum, c)
  }

  /** The result never has more than the maximum number of points. */
  lemma NudgedBounded(s: seq<Point>, interval: int, maxPoints: int, c: Consolidator)
    requires 0 < interval && 1 <= maxPoints && |s| + maxPoints <= U32
    requires Nudgeable(s, interval, AggEvery(|s|, maxPoints))
    ensures 1 <= AggEvery(|s|, maxPoints) && (s != [] ==> AggEvery(|s|, maxPoints) <= |s|)
    ensures |Nudged(s, interval, AggEvery(|s|, maxPoints), c)| <= maxPoints
  {
    var g := AggEvery(|s|, maxPoints);
    if s != [] {
      AggEveryLeast(|s|, maxPoints, |s|);
      CeilDivBound(|s|, |s|, maxPoints);
      ProductApart(|s|, maxPoints);
      assert maxPoints * |s| == |s| * maxPoints;
    }
    AggEveryLeast(|s|, maxPoints, g);
    CeilDivBound(|s|, g, maxPoints);
    var rest := s[Strip(s, interval, g)..];
    CeilDivBound(|rest|, g, maxPoints);
    GroupsCount(rest, g, LastStep(rest), c);
  }

  /** Nothing is stripped of a series that is not much longer than a group, so a maximum of one point takes them all. */
  lemma FewKept(s: seq<Point>, interval: int, aggNum: int, c: Consolidator)
    requires 0 < interval && 1 <= aggNum <= |s| <= 2 * aggNum < U32
    ensures Nudgeable(s, interval, aggNum) && Nudged(s, interval, aggNum, c) == Consolidated(s, aggNum, c)
    ensures aggNum == |s| == AggEvery(|s|, 1) ==>
              |Nudged(s, interval, aggNum, c)| == 1 && IsGroup(Nudged(s, interval, aggNum, c)[0], s, 0, |s|, c)
  {
    assert s[0..] == s;
    if aggNum == |s| {
      CeilDivSteps(|s|, aggNum);
      GroupsCount(s, aggNum, LastStep(s), c);
      assert 0 * aggNum == 0;
      WholeGroup(s, aggNum, c, 0);
    }
  }

  /** A quantized series that is long enough for nudging: more than two spans' worth of points. */
  ghost predicate Long(s: seq<Point>, t: int, interval: int, aggNum: int, span: int) {
    && 0 < interval <= t && OnGrid(t, interval) && 1 <= aggNum && Even(s, t, interval) && 2 * aggNum < |s| < U32
    && Tick(0, interval, aggNum) == span && s[|s| - 1].ts + span <= U32
  }

  ghost predicate OnGrid(t: int, interval: int) {
    exists k: nat :: t == Tick(0, interval, k)
  }

  lemma OnGridIs(t: int, interval: int)
    requires 0 < interval && OnGrid(t, interval)
    ensures t % interval == 0
  {
    var k: nat :| t == Tick(0, interval, k);
    TickIs(0, interval, k);
    MultipleOf(k, interval);
  }

  lemma LongSpan(s: seq<Point>, t: int, interval: int, aggNum: int, span: int)
    requires Long(s, t, interval, aggNum, span)
    ensures 0 < interval <= span < U32 && t < U32 && interval * aggNum == span
    ensures Nudgeable(s, interval, aggNum) && |s| > Wrap32(2 * aggNum)
  {
    TickIs(0, interval, aggNum);
    TickGrows(t, interval, 0, |s| - 1);
    ProductApart(interval, aggNum);
    assert aggNum * interval == span;
  }

  /** What nudging leaves: an even series that starts one interval after a multiple b of the span. */
  ghost predicate Aligned(s: seq<Point>, t: int, interval: int, aggNum: int, span: int, n: int, b: int) {
    && 0 < interval <= span < U32 && 1 <= aggNum && Tick(0, interval, aggNum) == span
    && 0 <= n && n + 2 <= |s| && s[|s| - 1].ts + span <= U32 && Even(s[n..], b + interval, interval)
    && 0 <= b && OnGrid(b, span) && t - interval <= b < t - interval + span
    && forall i :: 0 <= i < n ==> s[i].ts <= b
  }

  lemma StripAligns(s: seq<Point>, t: int, interval: int, aggNum: int, span: int) returns (n: nat, b: int)
    requires Long(s, t, interval, aggNum, span)
    ensures Nudgeable(s, interval, aggNum) && n == Strip(s, interval, aggNum)
    ensures Aligned(s, t, interval, aggNum, span, n, b)
  {
    LongSpan(s, t, interval, aggNum, span);
    OnGridIs(t, interval);
    n := Strip(s, interval, aggNum);
    assert s[0].ts == t;
    NudgeAligns(t, interval, aggNum, span);
    TickIs(t, interval, n);
    EvenDrop(s, t, interval, n);
    EvenSplit(s, t, interval, n);
    b := t + n * interval - interval;
    GridFrom(b, span);
  }

  lemma GridFrom(b: int, span: int)
    requires 0 < span && 0 <= b && b % span == 0
    ensures OnGrid(b, span)
  {
    Multiple(b, span);
    DivMonotone(0, b, span);
    TickIs(0, span, b / span);
  }

  /** The result of nudging and consolidating a long series. */
  lemma NudgedAligned(s: seq<Point>, t: int, interval: int, aggNum: int, span: int, c: Consolidator)
    returns (n: nat, b: int)
    requires Long(s, t, interval, aggNum, span)
    ensures Aligned(s, t, interval, aggNum, span, n, b)
    ensures Nudgeable(s, interval, aggNum) && Nudged(s, interval, aggNum, c) == Consolidated(s[n..], aggNum, c)
  {
    n, b := StripAligns(s, t, interval, aggNum, span);
  }

  lemma StripCell(s: seq<Point>, n: nat, b: int, span: int, c: Consolidator, k: nat)
    requires n <= |s| && 0 < span && forall i :: 0 <= i < n ==> s[i].ts <= b
    ensures Cell(s[n..], Tick(b + span, span, k), span, c) == Cell(s, Tick(b + span, span, k), span, c)
  {
    TickGrows(b + span, span, 0, k);
    CellDrop(s, n, Tick(b + span, span, k), span, c);
  }

  lemma NudgedAt(s: seq<Point>, t: int, interval: int, aggNum: int, span: int, c: Consolidator, n: nat, b: int, k: nat)
    requires Aligned(s, t, interval, aggNum, span, n, b) && k < |Consolidated(s[n..], aggNum, c)|
    ensures Consolidated(s[n..], aggNum, c)[k] == Cell(s, Tick(b + span, span, k), span, c)
  {
    ConsolidatedAt(s[n..], b, interval, aggNum, span, c, k, Tick(b + span, span, k));
    StripCell(s, n, b, span, c, k);
  }

  lemma TickOnGrid(b: int, span: int, k: nat)
    requires 0 < span && OnGrid(b, span)
    ensures Tick(b + span, span, k) % span == 0
  {
    OnGridIs(b, span);
    TickIs(b + span, span, k);
    ModShift(b, span, k + 1);
    assert b + (k + 1) * span == b + span + k * span;
  }

  /** Each point of the result is at a multiple of the span and aggregates all points of its bucket. */
  lemma NudgedBuckets(s: seq<Point>, t: int, interval: int, aggNum: int, span: int, c: Consolidator, k: nat,
                      p: Point)
    requires Long(s, t, interval, aggNum, span) && Nudgeable(s, interval, aggNum)
    requires k < |Nudged(s, interval, aggNum, c)| && p == Nudged(s, interval, aggNum, c)[k]
    ensures 0 < span && p.ts % span == 0 && p == Cell(s, p.ts, span, c)
  {
    var n, b := NudgedAligned(s, t, interval, aggNum, span, c);
    NudgedAt(s, t, interval, aggNum, span, c, n, b, k);
    TickOnGrid(b, span, k);
  }

  /** The index of the bucket that ends at u. */
  lemma BucketIndex(b: int, span: int, u: int) returns (k: nat)
    requires 0 < span && b % span == 0 && u % span == 0 && b + span <= u
    ensures u == Tick(b + span, span, k)
  {
    SumOfMultiples(u, b, span);
    Multiple(u - b, span);
    var q := (u - b) / span;
    if q <= 0 {
      ProductMonotone(q, 0, span);
    }
    k := q - 1;
    TickIs(b + span, span, k);
    assert q * span == k * span + span;
  }

  /** There are enough groups for every bucket up to the last point. */
  lemma EnoughGroups(s: seq<Point>, b: int, interval: int, num: int, span: int, c: Consolidator, k: nat)
    requires 0 < interval <= span && 1 <= num && Tick(0, interval, num) == span && s != []
    requires Even(s, b + interval, interval) && Tick(b + span, span, k) <= s[|s| - 1].ts
    ensures k < |Consolidated(s, num, c)|
  {
    TickIs(0, num, k);
    ProductMonotone(0, k, num);
    var i: nat := k * num;
    TickScale(b + interval, interval, num, span, k, i);
    TickShift(b + span, span, k, interval - span);
    if |s| <= i {
      TickGrows(b + interval, interval, |s| - 1, i);
    }
    CeilDivBound(|s|, num, k);
    GroupsCount(s, num, LastStep(s), c);
  }

  /** The bucket that ends at u lies wholly in the window. */
  ghost predicate Whole(s: seq<Point>, t: int, interval: int, span: int, u: int) {
    0 < span && u % span == 0 && t <= u - span + interval && s != [] && u <= s[|s| - 1].ts
  }

  lemma AlignedHit(s: seq<Point>, t: int, interval: int, aggNum: int, span: int, c: Consolidator, n: nat, b: int, u: int)
    requires Aligned(s, t, interval, aggNum, span, n, b) && Whole(s, t, interval, span, u)
    ensures Cell(s, u, span, c) in Consolidated(s[n..], aggNum, c)
  {
    OnGridIs(b, span);
    if u < b + span {
      ModShift(b, span, 1);
      assert b + 1 * span == b + span;
      MultiplesApart(u, b + span, span);
    }
    var k := BucketIndex(b, span, u);
    EnoughGroups(s[n..], b, interval, aggNum, span, c, k);
    NudgedAt(s, t, interval, aggNum, span, c, n, b, k);
  }

  /** Every bucket that lies wholly in the window is in the result. */
  lemma NudgedHit(s: seq<Point>, t: int, interval: int, aggNum: int, span: int, c: Consolidator, u: int)
    requires Long(s, t, interval, aggNum, span) && Whole(s, t, interval, span, u)
    ensures Nudgeable(s, interval, aggNum) && Cell(s, u, span, c) in Nudged(s, interval, aggNum, c)
  {
    var n, b := NudgedAligned(s, t, interval, aggNum, span, c);
    AlignedHit(s, t, interval, aggNum, span, c, n, b, u);
  }

  /** Two windows of one series, with the same group size, have the same point for every bucket complete in both. */
  lemma NudgedStable(s: seq<Point>, t: int, s': seq<Point>, t': int, interval: int, aggNum: int, span: int,
                     c: Consolidator, u: int)
    returns (p: Point)
    requires Long(s, t, interval, aggNum, span) && Whole(s, t, interval, span, u)
    requires Long(s', t', interval, aggNum, span) && Whole(s', t', interval, span, u)
    requires In(s, u - span + 1, u + 1) == In(s', u - span + 1, u + 1)
    ensures p.ts == u
    ensures Nudgeable(s, interval, aggNum) && p in Nudged(s, interval, aggNum, c)
    ensures Nudgeable(s', interval, aggNum) && p in Nudged(s', interval, aggNum, c)
  {
    p := Cell(s, u, span, c);
    NudgedHit(s, t, interval, aggNum, span, c, u);
    NudgedHit(s', t', interval, aggNum, span, c, u);
  }

  /** Consolidates the points of an array to at most the given number; the result is a part of the array. */
  method ConsolidateNudged(a: array<Point>, interval: int, maxDataPoints: int, c: Consolidator)
    returns (start: int, outLen: int, outInterval: int)
    requires 0 < interval && 1 <= maxDataPoints && a.Length + maxDataPoints <= U32
    requires Nudgeable(a[..], interval, AggEvery(a.Length, maxDataPoints))
    requires forall k :: 0 <= k < a.Length ==> 0 <= a[k].ts < U32
    modifies a
    ensures 1 <= AggEvery(a.Length, maxDataPoints) && (0 < a.Length ==> AggEvery(a.Length, maxDataPoints) <= a.Length)
    ensures 0 <= start && 0 <= outLen <= maxDataPoints && start + outLen <= a.Length
    ensures a[start..start + outLen] == Nudged(old(a[..]), interval, AggEvery(a.Length, maxDataPoints), c)
    ensures outInterval == Wrap32(interval * AggEvery(a.Length, maxDataPoints))
  {
    ghost var was := a[..];
    NudgedBounded(was, interval, maxDataPoints, c);
    var aggNum := AggEvery(a.Length, maxDataPoints);
    start := 0;
    if a.Length > Wrap32(2 * aggNum) {
      NudgeFew(a[0].ts, interval, aggNum);
      start := Nudge(a[0].ts, interval, aggNum).1;
    }
    assert start == Strip(was, interval, aggNum) && a[start..] == was[start..];
    outLen := Consolidate(a, start, aggNum, c);
    outInterval := Wrap32(interval * aggNum);
  }
}
