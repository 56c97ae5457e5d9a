/** The objects that build rollup series while points come in. */
module Aggregators {
  import opened Batch
  import opened Buckets
  import opened Points
  import opened Quantize
  import opened Rollups

  /** The running statistics of one bucket. */
  class Aggregation {
    var min: Value
    var max: Value
    var sum: Value
    var cnt: real
    var lst: Value

    constructor ()
      ensures Read() == Summary([], Num(0.0))
    {
      min, max, sum, cnt, lst := Num(MAX_FLOAT64), Num(-MAX_FLOAT64), Num(0.0), 0.0, Num(0.0);
    }

    function Read(): Stats
      reads this
    {
      Stats(min, max, sum, cnt, lst)
    }

    method Add(val: Value)
      modifies this
      ensures Read() == old(Read()).Add(val)
    {
      min := FloatMin(val, min);
      max := FloatMax(val, max);
      sum := FloatSum(sum, val);
      cnt := cnt + 1.0;
      lst := val;
    }

    method Reset()
      modifies this
      ensures Read() == old(Read()).Reset()
    {
      min := Num(MAX_FLOAT64);
      max := Num(-MAX_FLOAT64);
      sum := Num(0.0);
      cnt := 0.0;
    }
  }

  /** The previous last value plays no part in the statistics of a bucket that has points. */
  lemma {:induction false} SummaryForgets(points: seq<Point>, lst: Value)
    requires points != []
    ensures Summary(points, lst) == Summary(points, Null)
  {
    if |points| > 1 {
      SummaryForgets(points[..|points| - 1], lst);
    }
  }

  lemma SummaryNext(points: seq<Point>, p: Point, lst: Value, before: Stats, after: Stats)
    requires before == Summary(points, lst) && after == before.Add(p.val)
    ensures Summary(points + [p], lst) == after
  {
    assert (points + [p])[..|points|] == points;
  }

  /** The rollup series that configured aggregation methods call for: an average needs a sum and a count. */
  predicate Keeps(methods: set<Consolidator>, c: Consolidator) {
    match c
    case Sum => Sum in methods || Avg in methods
    case Cnt => Avg in methods
    case Avg => false
    case _ => c in methods
  }

  /** An average is made from a sum and a count; nothing is asked for its count alone. */
  predicate Needs(m: Consolidator, c: Consolidator) {
    if m.Avg? then c.Sum? || c.Cnt? else c == m && !c.Cnt?
  }

  /** A series is kept exactly if some configured method needs it. */
  lemma KeepsExactly(methods: set<Consolidator>, c: Consolidator)
    ensures Keeps(methods, c) <==> exists m :: m in methods && Needs(m, c)
  {
    if Keeps(methods, c) {
      assert Needs(if c in methods && !c.Cnt? then c else Avg, c);
    }
  }

  /** The points handed to the rollup series of a statistic. */
  function Recorded(methods: set<Consolidator>, c: Consolidator, done: seq<Bucket>): seq<Point> {
    if Keeps(methods, c) then Series(c, done) else []
  }

  lemma RecordedNext(methods: set<Consolidator>, c: Consolidator, done: seq<Bucket>, b: Bucket, lst: Value)
    requires b.points != [] && !c.Avg?
    ensures Keeps(methods, c) ==>
              Recorded(methods, c, done + [b])
              == Recorded(methods, c, done) + [Point(b.ts, Summary(b.points, lst).Get(c))]
    ensures !Keeps(methods, c) ==> Recorded(methods, c, done + [b]) == Recorded(methods, c, done)
  {
    SeriesNext(c, done, b);
    SummaryForgets(b.points, lst);
  }

  class Aggregator {
    const span: int
    const methods: set<Consolidator>
    const agg: Aggregation
    var currentBoundary: int
    var minMetric: seq<Point>
    var maxMetric: seq<Point>
    var sumMetric: seq<Point>
    var cntMetric: seq<Point>
    var lstMetric: seq<Point>

    ghost var progress: Progress
    ghost var lstBefore: Value

    ghost predicate Valid()
      reads this, agg
    {
      && 0 < span < U32 && progress.span == span && progress.boundary == currentBoundary
      && agg.Read() == Summary(progress.pending, lstBefore)
      && Recording()
    }

    ghost predicate Recording()
      reads this
    {
      && minMetric == Recorded(methods, Min, progress.done)
      && maxMetric == Recorded(methods, Max, progress.done)
      && sumMetric == Recorded(methods, Sum, progress.done)
      && cntMetric == Recorded(methods, Cnt, progress.done)
      && lstMetric == Recorded(methods, Lst, progress.done)
    }

    constructor (span: int, methods: set<Consolidator>)
      requires 0 < span < U32
      ensures Valid() && fresh(agg) && progress == Fresh(span) && this.methods == methods
    {
      this.span, this.methods := span, methods;
      agg := new Aggregation();
      currentBoundary := 0;
      minMetric, maxMetric, sumMetric, cntMetric, lstMetric := [], [], [], [], [];
      progress, lstBefore := Fresh(span), Num(0.0);
    }

    method Flush()
      requires Valid() && progress.pending != []
      modifies this, agg
      ensures Valid() && progress == old(progress).Flush()
    {
      ghost var b := Bucket(currentBoundary, progress.pending);
      ghost var done := progress.done;
      RecordedNext(methods, Min, done, b, lstBefore);
      RecordedNext(methods, Max, done, b, lstBefore);
      RecordedNext(methods, Sum, done, b, lstBefore);
      RecordedNext(methods, Cnt, done, b, lstBefore);
      RecordedNext(methods, Lst, done, b, lstBefore);
      if Keeps(methods, Min) {
        minMetric := minMetric + [Point(currentBoundary, agg.min)];
      }
      if Keeps(methods, Max) {
        maxMetric := maxMetric + [Point(currentBoundary, agg.max)];
      }
      if Keeps(methods, Sum) {
        sumMetric := sumMetric + [Point(currentBoundary, agg.sum)];
      }
      if Keeps(methods, Cnt) {
        cntMetric := cntMetric + [Point(currentBoundary, Num(agg.cnt))];
      }
      if Keeps(methods, Lst) {
        lstMetric := lstMetric + [Point(currentBoundary, agg.lst)];
      }
      agg.Reset();
      lstBefore := agg.lst;
      progress := progress.Flush();
    }

    /** Starts the bucket of a more recent point; an open bucket without points is reused. */
    method Enter(boundary: int)
      requires Valid() && currentBoundary < boundary
      modifies this, agg
      ensures Valid() && progress == old(progress).Enter(boundary)
    {
      SummaryCnt(progress.pending, lstBefore);
      if agg.cnt != 0.0 {
        Flush();
      }
      currentBoundary := boundary;
      progress := progress.(boundary := boundary);
    }

    /** Counts a point in the statistics of the open bucket. */
    method Count(ts: int, val: Value)
      requires Valid()
      modifies `progress, agg
      ensures Valid() && progress == old(progress).(pending := old(progress).pending + [Point(ts, val)])
    {
      ghost var before := agg.Read();
      agg.Add(val);
      SummaryNext(progress.pending, Point(ts, val), lstBefore, before, agg.Read());
      progress := progress.(pending := progress.pending + [Point(ts, val)]);
    }

    /** Adds a point to the open bucket, which is flushed if no later point can belong to it. */
    method Place(ts: int, val: Value)
      requires Valid()
      modifies this, agg
      ensures Valid() && progress == old(progress).Place(Point(ts, val))
    {
      Count(ts, val);
      if ts == currentBoundary {
        Flush();
      }
    }

    method Add(ts: int, val: Value)
      requires Valid() && 0 <= ts < U32
      modifies this, agg
      ensures Valid() && progress == old(progress).Add(Point(ts, val))
    {
      var boundary := AggBoundary(ts, span);
      if boundary < currentBoundary {
        return;
      } else if boundary > currentBoundary {
        Enter(boundary);
      }
      Place(ts, val);
    }

    /** Flushes when no point has come for a whole span before the cutoff; says whether it went that far. */
    method GC(chunkMinTs: int, lastWriteTime: int) returns (held: bool)
      requires Valid() && 0 <= lastWriteTime < U32
      modifies this, agg
      ensures Valid() && progress == old(progress).GC(lastWriteTime, chunkMinTs)
      ensures held <==> Wrap32(lastWriteTime + span) > chunkMinTs
    {
      held := Wrap32(lastWriteTime + span) > chunkMinTs;
      if !held {
        SummaryCnt(progress.pending, lstBefore);
        if agg.cnt != 0.0 {
          Flush();
        }
      }
    }
  }
}
