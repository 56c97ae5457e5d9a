/** A rollup series is stored as a metric of its own, from which requests for rollups are answered. */
module RollupMetrics {
  import opened Arith
  import opened Batch
  import opened Buckets
  import opened Canonical
  import opened Fetch
  import opened Fixed
  import opened Grids
  import opened Lifetimes
  import opened MetricAnswers
  import opened MetricRuns
  import opened Metrics
  import opened Points
  import opened Quantize
  import opened RawAnswers
  import Rob = ReorderBuffer
  import opened RollupAnswers
  import opened Requests
  import opened Rollups
  import Runs = TankRuns
  import opened Saves
  import opened TankQuery
  import opened Tanks
  import opened Targets

  lemma FedPurged(start: Metric, arrivals: seq<Arrival>)
    requires New(start) && Arriving(arrivals, start.rob.value.interval) && start.ingestFromT0 <= 0
    ensures var m := MetricRuns.Run(start, arrivals);
            m.fed == Flat(m.tank.hist) == Windowed(start, arrivals).purged
  {
    var m, h := MetricRuns.Run(start, arrivals), Windowed(start, arrivals);
    assert MetricRuns.InStep(m, h) && FedInOrder(m) && SameLimits(start, m);
  }

  lemma PurgedStream(h: Rob.History, span: int)
    requires h.Valid() && 0 < span < U32 && forall p :: p in h.purged ==> p.ts + span <= U32
    ensures Stream(h.purged, span)
  {
    Rob.ListingAscending(h.accepted, h.window.interval, 1, h.window.newest - h.window.size + 1);
  }

  /** What a metric passes on to its aggregators is its chunk points, a stream in strict time order. */
  lemma FedStream(start: Metric, arrivals: seq<Arrival>, span: int)
    requires New(start) && Arriving(arrivals, start.rob.value.interval) && start.ingestFromT0 <= 0
    requires 0 < span < U32 && forall p :: p in MetricRuns.Run(start, arrivals).fed ==> p.ts + span <= U32
    ensures var m := MetricRuns.Run(start, arrivals); m.fed == Flat(m.tank.hist) && Stream(m.fed, span)
  {
    var m, h := MetricRuns.Run(start, arrivals), Windowed(start, arrivals);
    assert MetricRuns.InStep(m, h);
    FedPurged(start, arrivals);
    PurgedStream(h, span);
  }

  /** The metric of a rollup series has no reorder window and starts out without chunks. */
  ghost predicate NewRollup(m: Metric) {
    m.Valid() && m.rob.None? && m.tank == Tanks.Fresh(m.tank.cap, m.tank.span, false)
  }

  /** It is written to by a node that is the primary all along, and hears of its own saves. */
  ghost predicate FedByPrimary(start: Metric, steps: seq<Lifetimes.Step>) {
    && NewRollup(start) && (forall s :: s in steps ==> Lifetimes.Takes(start, s) && !s.Collect?)
    && AllByPrimary(start, steps)
  }

  lemma FedPrefix(start: Metric, steps: seq<Lifetimes.Step>)
    requires FedByPrimary(start, steps) && steps != []
    ensures var init, s := steps[..|steps| - 1], steps[|steps| - 1];
            && FedByPrimary(start, init) && !s.Collect? && Lifetimes.Takes(Life(start, init), s)
            && ByPrimary(Life(start, init), s) && Life(start, steps) == Do(Life(start, init), s)
  {
    var init, s := steps[..|steps| - 1], steps[|steps| - 1];
    assert s in steps;
    StillTakes(start, Life(start, init), s);
  }

  /** The metric as it is after taking up these points. */
  ghost predicate TookUp(start: Metric, m: Metric, pts: seq<Point>) {
    Open(m.tank) && Flat(m.tank.hist) == pts && m.rob.None? && SameLimits(start, m)
  }

  /** A point that passes the checks on age and future time is taken up, and others change nothing in the chunks. */
  lemma AddTakesUp(start: Metric, m: Metric, pts: seq<Point>, a: Arrival)
    requires TookUp(start, m, pts) && m.Ingestible(a.p) && (Passes(start, a) ==> Ascending(pts + [a.p]))
    ensures TookUp(start, m.Add(a.p, a.clock, a.enforceFuture, a.primary), pts + if Passes(start, a) then [a.p] else [])
  {
    if Passes(start, a) {
      OrderedApart(pts, [a.p]);
      assert a.p in [a.p];
      TakeLater(m, a.p, a.clock, a.primary);
      TakeOne(m, a.p, a.clock, a.primary);
    } else {
      AddStopped(m, a);
      assert pts + [] == pts;
    }
  }

  lemma PassedNext(start: Metric, arrivals: seq<Arrival>, a: Arrival)
    ensures Passed(start, arrivals + [a]) == Passed(start, arrivals) + if Passes(start, a) then [a.p] else []
  {
    assert (arrivals + [a])[..|arrivals|] == arrivals;
  }

  lemma AscendingFront(s: seq<Point>, rest: seq<Point>)
    requires Ascending(s + rest)
    ensures Ascending(s)
  {
    assert forall i :: 0 <= i < |s| ==> (s + rest)[i] == s[i];
  }

  /** The chunks take up exactly the points that were handed over and that pass the checks on age and future time. */
  lemma {:induction false} RollupTakesUp(start: Metric, steps: seq<Lifetimes.Step>)
    requires FedByPrimary(start, steps) && Ascending(Passed(start, Arrivals(steps)))
    ensures TookUp(start, Life(start, steps), Passed(start, Arrivals(steps)))
    decreases |steps|
  {
    if steps != [] {
      var init, s := steps[..|steps| - 1], steps[|steps| - 1];
      FedPrefix(start, steps);
      if s.Write? {
        PassedNext(start, Arrivals(init), s.a);
        AscendingFront(Passed(start, Arrivals(init)), if Passes(start, s.a) then [s.a.p] else []);
        RollupTakesUp(start, init);
        AddTakesUp(start, Life(start, init), Passed(start, Arrivals(init)), s.a);
      } else {
        assert Arrivals(steps) == Arrivals(init);
        RollupTakesUp(start, init);
      }
    }
  }

  /** What the store has of the chunks is a prefix. */
  lemma RollupKept(start: Metric, steps: seq<Lifetimes.Step>) returns (k: int)
    requires FedByPrimary(start, steps) && Ascending(Passed(start, Arrivals(steps)))
    ensures var t := Life(start, steps).tank;
            && t.Valid() && t.span == start.tank.span && Runs.SavedUpTo(t, k)
            && Flat(t.hist) == Passed(start, Arrivals(steps))
  {
    RollupTakesUp(start, steps);
    var events := LifeDrives(start, steps, true);
    k := Runs.RunSaved(start.tank.cap, start.tank.span, events);
  }

  /** When a bucket is flushed twice, the metric refuses the second point, and with it what that point stands for. */
  lemma RepeatRefused(t: Tank, p: Point, primary: bool)
    requires t.Valid() && t.hist != [] && t.Last().LastTs() == p.ts
    ensures !t.Accepts(p) && t.Add(p, primary) == t
  {
    ChainAt(t.hist, t.span, |t.hist| - 1);
    var points := t.Last().points;
    assert points[|points| - 1] in points;
    StartExact(t, p.ts);
    if t.Last().t0 < t.StartOf(p.ts) {
      MultiplesApart(t.Last().t0, t.StartOf(p.ts), t.span);
    }
  }

  /** No chunk at time 0 was evicted; such a chunk is never saved. */
  predicate FirstKept(t: Tank) {
    Runs.Skipped(t) == 0 || t.evicted == 0
  }

  /** Snapping what is read of a range to the grid, for rollups. */
  lemma RollupSlots(t: Tank, k: int, r: Req, from: int, to: int)
    requires t.Valid() && Runs.SavedUpTo(t, k) && FirstKept(t) && r.Valid() && Readable(Flat(t.hist), r)
    requires r.archive != 0 && r.archInterval < U32 && r.outInterval < U32 && NewRequestContext(r) == Range(from, to)
    requires from < to
    ensures 0 <= from && 1 <= to < U32
    ensures Scan(Fetched(t, from, to), AlignForward(from, r.archInterval), AlignBackward(to, r.archInterval),
                 r.archInterval) == NeededSlots(Flat(t.hist), r)
  {
    if r.aggNum > 1 {
      ContextExact(r);
      WideSlots(Flat(t.hist), r, from, to);
    } else {
      NarrowSlots(Flat(t.hist), r);
    }
    FixHidesRepeats(t, k, from, to, AlignForward(from, r.archInterval), AlignBackward(to, r.archInterval),
                    r.archInterval);
  }

  lemma FetchedPositive(t: Tank, from: int, to: int)
    requires 0 <= t.evicted <= |t.hist| && 0 <= from
    ensures forall p :: p in Fetched(t, from, to) ==> 0 <= p.ts
  {
    var a := Query(t, from, to);
    InMembers(Flat(a.iters), from, to);
    InMembers(Flat(StoreSearch(t.sent, t.span, from, Fetch.Min(a.oldest, to)) + a.iters), from, to);
  }

  /** Reads and fixes the points of a rollup series that a request needs. */
  method RollupFixed(t: Tank, r: Req, ghost k: int) returns (points: seq<Point>)
    requires t.Valid() && Runs.SavedUpTo(t, k) && FirstKept(t) && r.Valid() && Readable(Flat(t.hist), r)
    requires r.archive != 0
    ensures points == NeededSlots(Flat(t.hist), r)
  {
    EmptyFetch(r);
    OutOnArch(r);
    var rc := NewRequestContext(r);
    if rc.from == rc.to {
      NoOutput(r, Flat(t.hist));
      return [];
    }
    RangeFits(r, rc.from, rc.to);
    FetchedPositive(t, rc.from, rc.to);
    RollupSlots(t, k, r, rc.from, rc.to);
    points := Fix(Fetched(t, rc.from, rc.to), rc.from, rc.to, r.archInterval);
  }

  lemma RangeFits(r: Req, from: int, to: int)
    requires r.Valid() && r.archive != 0 && r.archInterval < U32 && r.outInterval < U32
    requires NewRequestContext(r) == Range(from, to) && from != to
    ensures 0 <= from < to && to + r.archInterval <= U32 && from + r.archInterval <= U32
  {
    OutOnArch(r);
    if r.aggNum > 1 {
      ContextExact(r);
      SomeOutputIs(r);
    }
  }

  /** An output point at a time whose buckets are complete is the statistic of the raw points. */
  ghost predicate IsRawStatistic(out: seq<Point>, g: Progress, raw: seq<Point>, r: Req, c: Consolidator)
    requires r.Valid()
  {
    forall k :: 0 <= k < |out| && Settled(g, raw, r, out[k].ts) ==>
                  IsStatistic(c, out[k].val, In(raw, out[k].ts - r.outInterval + 1, out[k].ts + 1))
  }

  lemma EvenTime(out: seq<Point>, r: Req, k: nat)
    requires r.Valid() && Even(out, r.Base() + r.outInterval, r.outInterval) && k < |out|
    ensures out[k].ts % r.outInterval == 0
  {
    var first, o := r.Base() + r.outInterval, r.outInterval;
    TickIs(first, o, k);
    ModShift(first, o, k);
  }

  lemma CanonicalAggregates(out: seq<Point>, g: Progress, raw: seq<Point>, r: Req, c: Consolidator)
    requires r.Valid() && r.archive != 0 && !c.Cnt? && !c.Avg? && IsCanonical(out, Series(c, g.done), r, c)
    ensures IsRawStatistic(out, g, raw, r, c)
  {
    forall k | 0 <= k < |out| && Settled(g, raw, r, out[k].ts)
      ensures IsStatistic(c, out[k].val, In(raw, out[k].ts - r.outInterval + 1, out[k].ts + 1))
    {
      EvenTime(out, r, k);
      RollupAnswer(g, raw, r, c, out[k].ts);
    }
  }

  /** The metric that the series was handed to by a primary; all its points pass the checks on age and future time. */
  ghost predicate Holds(t: Tank, series: seq<Point>, start: Metric, steps: seq<Lifetimes.Step>) {
    && FedByPrimary(start, steps) && Passed(start, Arrivals(steps)) == series
    && t == Life(start, steps).tank && FirstKept(t)
  }

  /** The aggregator got the raw points in time order, and was garbage collected at any time but reopened no bucket. */
  ghost predicate Aggregated(g: Progress, raw: seq<Point>, steps: seq<Buckets.Step>) {
    && 0 < g.span < U32 && AllProper(steps) && g == Buckets.Run(Buckets.Fresh(g.span), steps)
    && raw == PointsOf(steps) && Stream(raw, g.span) && NeverReopens(Buckets.Fresh(g.span), steps)
  }

  lemma RollupHeld(t: Tank, c: Consolidator, r: Req, g: Progress, raw: seq<Point>, start: Metric,
                   steps: seq<Lifetimes.Step>)
    returns (k: int)
    requires r.Valid() && r.archive != 0 && 0 < g.span < U32 && g.span == r.archInterval && !c.Avg? && Steady(g, raw)
    requires Holds(t, Series(c, g.done), start, steps)
    ensures t.Valid() && Flat(t.hist) == Series(c, g.done) && Readable(Flat(t.hist), r)
    ensures Runs.SavedUpTo(t, k)
  {
    SeriesTimes(c, g.done, g.span);
    k := RollupKept(start, steps);
    RollupReadable(g, raw, r, c);
  }

  /** The series of one statistic, grouped. */
  method GetRollup(t: Tank, c: Consolidator, grouping: Consolidator, r: Req, ghost g: Progress, ghost raw: seq<Point>,
                   ghost start: Metric, ghost steps: seq<Lifetimes.Step>)
    returns (out: seq<Point>)
    requires r.Valid() && r.archive != 0 && 0 < g.span < U32 && g.span == r.archInterval && !c.Avg? && Steady(g, raw)
    requires Holds(t, Series(c, g.done), start, steps)
    ensures IsCanonical(out, Series(c, g.done), r, grouping)
  {
    ghost var k := RollupHeld(t, c, r, g, raw, start, steps);
    out := RollupFixed(t, r, k);
    out := GroupSeries(out, r, grouping, Series(c, g.done));
  }

  /**
   * Main result. A request for rollups is answered in canonical form from the rollup series, read from memory and
   * the store, and each of its points is the aggregate of the raw points of its interval once these are complete.
   * No request reads the series of counts for itself: it only serves to make averages.
   */
  method AnswerRollup(t: Tank, r: Req, c: Consolidator, ghost g: Progress, ghost raw: seq<Point>,
                      ghost fed: seq<Buckets.Step>, ghost start: Metric, ghost steps: seq<Lifetimes.Step>)
    returns (out: seq<Point>)
    requires r.Valid() && r.archive != 0 && !c.Cnt? && !c.Avg? && Aggregated(g, raw, fed) && g.span == r.archInterval
    requires Holds(t, Series(c, g.done), start, steps)
    ensures IsCanonical(out, Series(c, g.done), r, c) && IsRawStatistic(out, g, raw, r, c)
  {
    RunSteady(g.span, fed);
    out := GetRollup(t, c, c, r, g, raw, start, steps);
    CanonicalAggregates(out, g, raw, r, c);
  }

  /** Averages are made from the metrics of the sums and of the counts. */
  method AnswerAverage(sums: Tank, cnts: Tank, r: Req, ghost g: Progress, ghost raw: seq<Point>,
                       ghost fed: seq<Buckets.Step>, ghost sumStart: Metric, ghost sumSteps: seq<Lifetimes.Step>,
                       ghost cntStart: Metric, ghost cntSteps: seq<Lifetimes.Step>)
    returns (out: seq<Point>)
    requires r.Valid() && r.archive != 0 && Aggregated(g, raw, fed) && g.span == r.archInterval
    requires Holds(sums, Series(Sum, g.done), sumStart, sumSteps) && Holds(cnts, Series(Cnt, g.done), cntStart, cntSteps)
    ensures IsAverage(out, Series(Sum, g.done), Series(Cnt, g.done), r) && IsRawStatistic(out, g, raw, r, Avg)
  {
    RunSteady(g.span, fed);
    var sum := GetRollup(sums, Sum, Sum, r, g, raw, sumStart, sumSteps);
    var cnt := GetRollup(cnts, Cnt, Sum, r, g, raw, cntStart, cntSteps);
    out := DivideSeries(sum, cnt, r, Series(Sum, g.done), Series(Cnt, g.done));
    AveragesAggregate(out, g, raw, r);
  }

  lemma AveragesAggregate(out: seq<Point>, g: Progress, raw: seq<Point>, r: Req)
    requires r.Valid() && r.archive != 0 && IsAverage(out, Series(Sum, g.done), Series(Cnt, g.done), r)
    ensures IsRawStatistic(out, g, raw, r, Avg)
  {
    forall k | 0 <= k < |out| && Settled(g, raw, r, out[k].ts)
      ensures IsStatistic(Avg, out[k].val, In(raw, out[k].ts - r.outInterval + 1, out[k].ts + 1))
    {
      EvenTime(out, r, k);
      AverageAt(out[k], g, raw, r);
    }
  }

  lemma AverageAt(p: Point, g: Progress, raw: seq<Point>, r: Req)
    requires r.Valid() && r.archive != 0 && p.ts % r.outInterval == 0 && Settled(g, raw, r, p.ts)
    requires IsAverageAt(p, Series(Sum, g.done), Series(Cnt, g.done), r)
    ensures IsStatistic(Avg, p.val, In(raw, p.ts - r.outInterval + 1, p.ts + 1))
  {
    var sums, cnts := Series(Sum, g.done), Series(Cnt, g.done);
    RatioExactly(p.val, OutputPoint(sums, r, Sum, p.ts).val, OutputPoint(cnts, r, Sum, p.ts).val);
    AverageAnswer(g, raw, r, p.ts);
  }

  /** The same for a metric whose raw points went through the reorder window: they are all it passed on. */
  method AnswerRollupRun(t: Tank, r: Req, c: Consolidator, ghost metric: Metric, ghost arrivals: seq<Arrival>,
                         ghost g: Progress, ghost fed: seq<Buckets.Step>, ghost start: Metric,
                         ghost steps: seq<Lifetimes.Step>)
    returns (out: seq<Point>)
    requires r.Valid() && r.archive != 0 && !c.Cnt? && !c.Avg? && g.span == r.archInterval
    requires New(metric) && Arriving(arrivals, metric.rob.value.interval) && metric.ingestFromT0 <= 0
    requires 0 < g.span < U32 && AllProper(fed) && g == Buckets.Run(Buckets.Fresh(g.span), fed)
    requires PointsOf(fed) == MetricRuns.Run(metric, arrivals).fed && NeverReopens(Buckets.Fresh(g.span), fed)
    requires forall p :: p in PointsOf(fed) ==> p.ts + g.span <= U32
    requires Holds(t, Series(c, g.done), start, steps)
    ensures IsCanonical(out, Series(c, g.done), r, c)
    ensures IsRawStatistic(out, g, Flat(MetricRuns.Run(metric, arrivals).tank.hist), r, c)
  {
    FedStream(metric, arrivals, g.span);
    out := AnswerRollup(t, r, c, g, PointsOf(fed), fed, start, steps);
  }
}
