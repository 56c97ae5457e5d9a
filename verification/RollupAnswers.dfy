/** From the raw points that a metric received, through its rollup series, to the points in an answer. */
module RollupAnswers {
  import opened Arith
  import opened Batch
  import opened Buckets
  import opened Canonical
  import opened Fixed
  import opened Points
  import opened Quantize
  import opened Requests
  import opened Rollups
  import opened Targets

  lemma {:induction false} SeriesTimes(c: Consolidator, done: seq<Bucket>, span: int)
    requires 0 < span && Grouped(done, span) && !c.Avg?
    ensures Ascending(Series(c, done)) && Quantal(Series(c, done), span)
    ensures forall p :: p in Series(c, done) ==> 0 < p.ts <= LastDone(done)
  {
    if done != [] {
      var init, b := done[..|done| - 1], done[|done| - 1];
      SeriesTimes(c, init, span);
      AscendingConcat(Series(c, init), [Point(b.ts, Summary(b.points, Null).Get(c))], LastDone(init));
    }
  }

  /** A rollup series can be asked for. */
  lemma RollupReadable(g: Progress, s: seq<Point>, r: Req, c: Consolidator)
    requires r.Valid() && r.archive != 0 && 0 < g.span < U32 && g.span == r.archInterval && !c.Avg?
    requires Steady(g, s)
    ensures Readable(Series(c, g.done), r)
  {
    SeriesTimes(c, g.done, g.span);
    AscendingSorted(Series(c, g.done));
  }

  /** A series in strict time order has at most one point at a time. */
  lemma {:induction false} OneAt(s: seq<Point>, t: int)
    requires Ascending(s)
    ensures |In(s, t, t + 1)| <= 1
  {
    if s != [] {
      var init, p := s[..|s| - 1], s[|s| - 1];
      if p.ts == t {
        InNone(init, t, t + 1);
      } else {
        OneAt(init, t);
      }
    }
  }

  lemma FoldOne(c: Consolidator, p: Point)
    ensures Fold(c, [p]) == Single(c, p.val)
  {
    assert [p][..0] == [];
  }

  /** A slot of a rollup series is its point at that time, if it has one. */
  lemma SlotFold(s: seq<Point>, t: int, interval: int, c: Consolidator)
    requires 0 < interval && Ascending(s) && Quantal(s, interval) && t % interval == 0 && !c.Cnt?
    ensures Slot(s, t, interval).val == Fold(c, In(s, t - interval + 1, t + 1))
  {
    QuantalIn(s, interval, t);
    OneAt(s, t);
    var hits := In(s, t, t + 1);
    if hits != [] {
      FoldOne(c, hits[0]);
      assert hits == [hits[0]];
    }
  }

  lemma FoldFirst(c: Consolidator, p: Point, rest: seq<Point>)
    ensures Fold(c, [p] + rest) == Combine(c, Single(c, p.val), Fold(c, rest))
  {
    FoldConcat(c, [p], rest);
    FoldOne(c, p);
  }

  lemma NextSlotFold(s: seq<Point>, t: int, hi: int, interval: int, c: Consolidator)
    requires 0 < interval && t <= hi && Sorted(s)
    requires Slot(s, t, interval).val == Fold(c, In(s, t - interval + 1, t + 1)) && !c.Cnt?
    requires Fold(c, Slots(s, t + interval, hi, interval)) == Fold(c, In(s, t + 1, hi + 1))
    ensures Fold(c, Slots(s, t, hi, interval)) == Fold(c, In(s, t - interval + 1, hi + 1))
  {
    FoldFirst(c, Slot(s, t, interval), Slots(s, t + interval, hi, interval));
    InSplit(s, t - interval + 1, t + 1, hi + 1);
    FoldConcat(c, In(s, t - interval + 1, t + 1), In(s, t + 1, hi + 1));
  }

  /** Slots that were padded with nulls aggregate to the same as the points themselves. */
  lemma {:induction false} SlotsFold(s: seq<Point>, t: int, hi: int, interval: int, c: Consolidator, lo: int)
    requires 0 < interval && Ascending(s) && Quantal(s, interval) && !c.Cnt?
    requires t % interval == 0 && hi % interval == 0 && lo == t - interval + 1
    ensures Fold(c, Slots(s, t, hi, interval)) == Fold(c, In(s, lo, hi + 1))
    decreases hi - t
  {
    if hi < t {
      MultiplesApart(hi, t, interval);
      InNone(s, lo, hi + 1);
    } else {
      ModShift(t, interval, 1);
      assert t + 1 * interval == t + interval;
      SlotsFold(s, t + interval, hi, interval, c, t + 1);
      SlotFold(s, t, interval, c);
      AscendingSorted(s);
      NextSlotFold(s, t, hi, interval, c);
    }
  }

  /** An output point made from a rollup series is the aggregate of that series' points in its range. */
  lemma RollupOutput(s: seq<Point>, r: Req, c: Consolidator, t: int)
    requires r.Valid() && Ascending(s) && Quantal(s, r.archInterval) && !c.Cnt? && !c.Avg? && t % r.outInterval == 0
    ensures OutputPoint(s, r, c, t).val == Fold(c, In(s, t - r.outInterval + 1, t + 1))
  {
    OutOnArch(r);
    MultipleTransitive(t, r.outInterval, r.archInterval);
    if r.aggNum == 1 {
      assert r.outInterval == r.archInterval;
      SlotFold(s, t, r.archInterval, c);
    } else {
      var lo := t - r.outInterval + r.archInterval;
      SumOfMultiples(t, r.outInterval, r.archInterval);
      SumOfMultiples(t - r.outInterval, r.archInterval, r.archInterval);
      SlotsFold(s, lo, t, r.archInterval, c, t - r.outInterval + 1);
    }
  }

  /** The raw points that an output point at t stands for all have a value, and their buckets are complete. */
  ghost predicate Settled(g: Progress, s: seq<Point>, r: Req, t: int)
    requires r.Valid()
  {
    && g.span == r.archInterval && Covered(g, s, t - r.outInterval, t)
    && AllFinite(In(s, t - r.outInterval + 1, t + 1)) && AllPresent(In(s, t - r.outInterval + 1, t + 1))
  }

  lemma DoneSeries(done: seq<Bucket>, span: int, c: Consolidator, lo: int, hi: int, raw: seq<Point>)
    requires 0 < span && Grouped(done, span) && raw == Contents(Select(done, lo, hi)) && AllFinite(raw) && AllPresent(raw)
    requires !c.Cnt? && !c.Avg?
    ensures Fold(c, In(Series(c, done), lo + 1, hi + 1)) == Aggregate(c, raw)
    ensures Ascending(Series(c, done)) && Quantal(Series(c, done), span)
  {
    SeriesTimes(c, done, span);
    DoneCompose(done, span, c, lo, hi, raw);
  }

  lemma SeriesCompose(g: Progress, s: seq<Point>, c: Consolidator, lo: int, hi: int)
    requires Covered(g, s, lo, hi) && AllFinite(In(s, lo + 1, hi + 1)) && AllPresent(In(s, lo + 1, hi + 1))
    requires !c.Cnt? && !c.Avg?
    ensures Fold(c, In(Series(c, g.done), lo + 1, hi + 1)) == Aggregate(c, In(s, lo + 1, hi + 1))
    ensures Ascending(Series(c, g.done)) && Quantal(Series(c, g.done), g.span)
  {
    CoveredIn(g, s, lo, hi);
    DoneSeries(g.done, g.span, c, lo, hi, In(s, lo + 1, hi + 1));
  }

  /**
   * A request for rollups is answered as if the raw points of each output interval had been aggregated. The archive
   * of a request is never the series of counts, which is only read, and then summed up, to make averages.
   */
  lemma RollupAnswer(g: Progress, s: seq<Point>, r: Req, c: Consolidator, t: int)
    requires r.Valid() && r.archive != 0 && t % r.outInterval == 0 && Settled(g, s, r, t) && !c.Cnt? && !c.Avg?
    ensures OutputPoint(Series(c, g.done), r, c, t).val == Aggregate(c, In(s, t - r.outInterval + 1, t + 1))
    ensures IsStatistic(c, OutputPoint(Series(c, g.done), r, c, t).val, In(s, t - r.outInterval + 1, t + 1))
  {
    AggregateMeans(c, In(s, t - r.outInterval + 1, t + 1));
    SeriesCompose(g, s, c, t - r.outInterval, t);
    RollupOutput(Series(c, g.done), r, c, t);
  }

  lemma DoneAverage(done: seq<Bucket>, span: int, lo: int, hi: int, raw: seq<Point>)
    requires 0 < span && Grouped(done, span) && raw == Contents(Select(done, lo, hi)) && AllFinite(raw) && AllPresent(raw)
    ensures Ratio(Fold(Sum, In(Series(Sum, done), lo + 1, hi + 1)), Fold(Sum, In(Series(Cnt, done), lo + 1, hi + 1)))
            == Aggregate(Avg, raw)
    ensures Ascending(Series(Sum, done)) && Quantal(Series(Sum, done), span)
    ensures Ascending(Series(Cnt, done)) && Quantal(Series(Cnt, done), span)
  {
    SeriesTimes(Sum, done, span);
    SeriesTimes(Cnt, done, span);
    DoneCompose(done, span, Avg, lo, hi, raw);
  }

  lemma AverageCompose(g: Progress, s: seq<Point>, lo: int, hi: int)
    requires Covered(g, s, lo, hi) && AllFinite(In(s, lo + 1, hi + 1)) && AllPresent(In(s, lo + 1, hi + 1))
    ensures Ratio(Fold(Sum, In(Series(Sum, g.done), lo + 1, hi + 1)), Fold(Sum, In(Series(Cnt, g.done), lo + 1, hi + 1)))
            == Aggregate(Avg, In(s, lo + 1, hi + 1))
    ensures Ascending(Series(Sum, g.done)) && Quantal(Series(Sum, g.done), g.span)
    ensures Ascending(Series(Cnt, g.done)) && Quantal(Series(Cnt, g.done), g.span)
  {
    CoveredIn(g, s, lo, hi);
    DoneAverage(g.done, g.span, lo, hi, In(s, lo + 1, hi + 1));
  }

  /** Dividing consolidated sums by consolidated counts gives the true average of the raw points. */
  lemma AverageAnswer(g: Progress, s: seq<Point>, r: Req, t: int)
    requires r.Valid() && r.archive != 0 && t % r.outInterval == 0 && Settled(g, s, r, t)
    ensures AveragePoint(Series(Sum, g.done), Series(Cnt, g.done), r, t).val
            == Aggregate(Avg, In(s, t - r.outInterval + 1, t + 1))
    ensures IsStatistic(Avg, AveragePoint(Series(Sum, g.done), Series(Cnt, g.done), r, t).val,
                        In(s, t - r.outInterval + 1, t + 1))
  {
    AggregateMeans(Avg, In(s, t - r.outInterval + 1, t + 1));
    AverageCompose(g, s, t - r.outInterval, t);
    RollupOutput(Series(Sum, g.done), r, Sum, t);
    RollupOutput(Series(Cnt, g.done), r, Sum, t);
  }
}
