/** Grouping a stream of points into rollup buckets. */
module Buckets {
  import opened Arith
  import opened Points
  import opened Quantize

  /** The points that went into the rollup point at `ts`. */
  datatype Bucket = Bucket(ts: int, points: seq<Point>)

  /** All points of a list of buckets, in order. */
  function Contents(done: seq<Bucket>): seq<Point> {
    if done == [] then [] else Contents(done[..|done| - 1]) + done[|done| - 1].points
  }

  /**
   * What an aggregator has done with the points it received: the buckets it flushed, and the points of the
   * bucket that is open.  `boundary` is the end of the bucket it last worked on.
   */
  datatype Progress = Progress(span: int, boundary: int, pending: seq<Point>, done: seq<Bucket>) {

    /** Every point that is in a flushed bucket or pending. */
    function Held(): seq<Point> {
      Contents(done) + pending
    }

    function Flush(): Progress {
      this.(pending := [], done := done + [Bucket(boundary, pending)])
    }

    predicate Ignores(p: Point)
      requires 0 <= p.ts < U32 && 0 < span < U32
    {
      AggBoundary(p.ts, span) < boundary
    }

    /** Moves on to a later bucket, flushing the open one if it has points. */
    function Enter(b: int): Progress {
      if b > boundary then (if pending != [] then Flush() else this).(boundary := b) else this
    }

    /** Puts a point in the open bucket, and flushes that bucket if no later point can belong to it. */
    function Place(p: Point): Progress {
      var s := this.(pending := pending + [p]);
      if p.ts == boundary then s.Flush() else s
    }

    function Add(p: Point): Progress
      requires 0 <= p.ts < U32 && 0 < span < U32
    {
      if Ignores(p) then this else Enter(AggBoundary(p.ts, span)).Place(p)
    }

    /** Flushes the open bucket when no point has come for a whole span before the cutoff. */
    function GC(lastWrite: int, chunkMinTs: int): Progress
      requires 0 <= lastWrite < U32 && 0 < span < U32
    {
      if Wrap32(lastWrite + span) > chunkMinTs || pending == [] then this else Flush()
    }
  }

  function Fresh(span: int): Progress {
    Progress(span, 0, [], [])
  }

  // ---------------------------------------------------------------------------------------------
  // Conservation, for points in any order and with garbage collection at any time.

  datatype Step = Add(p: Point) | GC(lastWrite: int, chunkMinTs: int)

  predicate Proper(e: Step) {
    (e.Add? ==> 0 <= e.p.ts < U32) && (e.GC? ==> 0 <= e.lastWrite < U32)
  }

  ghost predicate AllProper(steps: seq<Step>) {
    forall e :: e in steps ==> Proper(e)
  }

  function Apply(g: Progress, e: Step): Progress
    requires 0 < g.span < U32 && Proper(e)
  {
    match e
    case Add(p) => g.Add(p)
    case GC(lastWrite, chunkMinTs) => g.GC(lastWrite, chunkMinTs)
  }

  ghost function Run(g: Progress, steps: seq<Step>): (r: Progress)
    requires 0 < g.span < U32 && AllProper(steps)
    ensures r.span == g.span
  {
    if steps == [] then g else Apply(Run(g, steps[..|steps| - 1]), steps[|steps| - 1])
  }

  /** The point that a step adds, unless it belongs to an earlier bucket. */
  function Takes(g: Progress, e: Step): seq<Point>
    requires 0 < g.span < U32 && Proper(e)
  {
    if e.Add? && !g.Ignores(e.p) then [e.p] else []
  }

  ghost function Taken(g: Progress, steps: seq<Step>): seq<Point>
    requires 0 < g.span < U32 && AllProper(steps)
  {
    if steps == [] then []
    else
      var init, e := steps[..|steps| - 1], steps[|steps| - 1];
      assert e in steps;
      Taken(g, init) + Takes(Run(g, init), e)
  }

  lemma ContentsNext(done: seq<Bucket>, b: Bucket)
    ensures Contents(done + [b]) == Contents(done) + b.points
  {
    assert (done + [b])[..|done|] == done;
  }

  lemma FlushConserves(g: Progress)
    ensures g.Flush().Held() == g.Held()
  {
    ContentsNext(g.done, Bucket(g.boundary, g.pending));
  }

  lemma EnterConserves(g: Progress, b: int)
    ensures g.Enter(b).Held() == g.Held()
  {
    FlushConserves(g);
  }

  lemma PlaceConserves(g: Progress, p: Point)
    ensures g.Place(p).Held() == g.Held() + [p]
  {
    var s := g.(pending := g.pending + [p]);
    assert s.Held() == g.Held() + [p];
    FlushConserves(s);
  }

  lemma ApplyConserves(g: Progress, e: Step)
    requires 0 < g.span < U32 && Proper(e)
    ensures Apply(g, e).Held() == g.Held() + Takes(g, e)
  {
    if e.GC? {
      FlushConserves(g);
    } else if !g.Ignores(e.p) {
      var b := AggBoundary(e.p.ts, g.span);
      EnterConserves(g, b);
      PlaceConserves(g.Enter(b), e.p);
    }
  }

  /** Every point that was not ignored is in exactly one flushed bucket or still pending, in the order received. */
  lemma {:induction false} RunConserves(span: int, steps: seq<Step>)
    requires 0 < span < U32 && AllProper(steps)
    ensures Run(Fresh(span), steps).Held() == Taken(Fresh(span), steps)
  {
    if steps != [] {
      var init, e := steps[..|steps| - 1], steps[|steps| - 1];
      RunConserves(span, init);
      ApplyConserves(Run(Fresh(span), init), e);
    }
  }

  /** The number of points received, and of those ignored. */
  function Received(steps: seq<Step>): nat {
    if steps == [] then 0 else Received(steps[..|steps| - 1]) + if steps[|steps| - 1].Add? then 1 else 0
  }

  ghost function Ignored(g: Progress, steps: seq<Step>): nat
    requires 0 < g.span < U32 && AllProper(steps)
  {
    if steps == [] then 0
    else
      var init, e := steps[..|steps| - 1], steps[|steps| - 1];
      assert e in steps;
      Ignored(g, init) + if e.Add? && Takes(Run(g, init), e) == [] then 1 else 0
  }

  function Count(done: seq<Bucket>): nat {
    if done == [] then 0 else Count(done[..|done| - 1]) + |done[|done| - 1].points|
  }

  lemma {:induction false} CountContents(done: seq<Bucket>)
    ensures |Contents(done)| == Count(done)
  {
    if done != [] {
      CountContents(done[..|done| - 1]);
    }
  }

  lemma {:induction false} TakenCount(g: Progress, steps: seq<Step>)
    requires 0 < g.span < U32 && AllProper(steps)
    ensures |Taken(g, steps)| + Ignored(g, steps) == Received(steps)
  {
    if steps != [] {
      TakenCount(g, steps[..|steps| - 1]);
    }
  }

  /** Flushed, pending and ignored points add up to the points received. */
  lemma PointsAddUp(span: int, steps: seq<Step>)
    requires 0 < span < U32 && AllProper(steps)
    ensures var r := Run(Fresh(span), steps);
            Count(r.done) + |r.pending| + Ignored(Fresh(span), steps) == Received(steps)
  {
    var r := Run(Fresh(span), steps);
    RunConserves(span, steps);
    CountContents(r.done);
    TakenCount(Fresh(span), steps);
  }

  // ---------------------------------------------------------------------------------------------
  // Which points are ignored, and what garbage collection flushes.

  /** One of the steps adds a point whose bucket ends at b. */
  ghost predicate Reached(steps: seq<Step>, span: int, b: int)
    requires 0 < span < U32 && AllProper(steps)
  {
    exists i :: 0 <= i < |steps| && steps[i].Add? && Proper(steps[i]) && AggBoundary(steps[i].p.ts, span) == b
  }

  /** The open bucket is the latest one that a point was added to. */
  ghost predicate IsLatest(boundary: int, steps: seq<Step>, span: int)
    requires 0 < span < U32 && AllProper(steps)
  {
    && (boundary == 0 || Reached(steps, span, boundary))
    && forall b :: Reached(steps, span, b) ==> b <= boundary
  }

  lemma ReachedNext(steps: seq<Step>, e: Step, span: int, b: int)
    requires 0 < span < U32 && AllProper(steps) && Proper(e) && AllProper(steps + [e])
    ensures Reached(steps + [e], span, b) <==> Reached(steps, span, b) || (e.Add? && AggBoundary(e.p.ts, span) == b)
  {
    var all := steps + [e];
    assert all[|steps|] == e;
    assert forall i :: 0 <= i < |steps| ==> all[i] == steps[i];
  }

  lemma {:induction false} BoundaryIsLatest(span: int, steps: seq<Step>)
    requires 0 < span < U32 && AllProper(steps)
    ensures IsLatest(Run(Fresh(span), steps).boundary, steps, span)
  {
    if steps != [] {
      var init, e := steps[..|steps| - 1], steps[|steps| - 1];
      assert steps == init + [e] && e in steps;
      BoundaryIsLatest(span, init);
      forall b
        ensures Reached(steps, span, b) <==> Reached(init, span, b) || (e.Add? && AggBoundary(e.p.ts, span) == b)
      {
        ReachedNext(init, e, span, b);
      }
    }
  }

  /** A point is ignored exactly if some point before it belongs to a later bucket. */
  lemma IgnoredExactly(span: int, steps: seq<Step>, p: Point)
    requires 0 < span < U32 && AllProper(steps) && 0 <= p.ts < U32
    ensures Run(Fresh(span), steps).Ignores(p) <==>
            exists b :: Reached(steps, span, b) && AggBoundary(p.ts, span) < b
  {
    BoundaryIsLatest(span, steps);
  }

  /** The point belongs to the bucket that ends at b. */
  predicate Belongs(p: Point, span: int, b: int) {
    0 < span < U32 && 0 <= p.ts < U32 && AggBoundary(p.ts, span) == b
  }

  /** Every point is in the bucket that it belongs to. */
  ghost predicate Placed(g: Progress) {
    && (forall p :: p in g.pending ==> Belongs(p, g.span, g.boundary))
    && forall i :: 0 <= i < |g.done| ==> forall p :: p in g.done[i].points ==> Belongs(p, g.span, g.done[i].ts)
  }

  lemma FlushPlaces(g: Progress)
    requires Placed(g)
    ensures Placed(g.Flush())
  {
  }

  lemma ApplyPlaces(g: Progress, e: Step)
    requires 0 < g.span < U32 && Proper(e) && Placed(g)
    ensures Placed(Apply(g, e))
  {
    FlushPlaces(g);
    if e.Add? && !g.Ignores(e.p) {
      var h := g.Enter(AggBoundary(e.p.ts, g.span));
      FlushPlaces(h.(pending := h.pending + [e.p]));
    }
  }

  /** For points in any order and garbage collection at any time, buckets hold only points that belong to them. */
  lemma {:induction false} RunPlaces(span: int, steps: seq<Step>)
    requires 0 < span < U32 && AllProper(steps)
    ensures Placed(Run(Fresh(span), steps))
  {
    if steps != [] {
      var init, e := steps[..|steps| - 1], steps[|steps| - 1];
      RunPlaces(span, init);
      ApplyPlaces(Run(Fresh(span), init), e);
    }
  }

  /** The open bucket is flushed exactly if the last write was at least one span before the cutoff. */
  lemma CollectedExactly(g: Progress, lastWrite: int, chunkMinTs: int)
    requires 0 < g.span && 0 <= lastWrite && lastWrite + g.span < U32 && g.pending != []
    ensures var g' := g.GC(lastWrite, chunkMinTs);
            && (lastWrite + g.span <= chunkMinTs ==>
                  g'.pending == [] && |g'.done| == |g.done| + 1 && g'.done[..|g.done|] == g.done
                  && g'.done[|g.done|].ts == g.boundary && g'.done[|g.done|].points == g.pending)
            && (chunkMinTs < lastWrite + g.span ==> g' == g)
            && g'.boundary == g.boundary && g'.span == g.span
  {
  }

  // ---------------------------------------------------------------------------------------------
  // Flushing a bucket twice, for points in any order and with garbage collection at any time.

  /** The step puts a point in the bucket that was flushed last. */
  predicate Reopens(g: Progress, e: Step)
    requires 0 < g.span < U32 && Proper(e)
  {
    e.Add? && g.pending == [] && g.done != [] && AggBoundary(e.p.ts, g.span) == g.boundary
  }

  ghost predicate NeverReopens(g: Progress, steps: seq<Step>)
    requires 0 < g.span < U32 && AllProper(steps)
  {
    steps == [] ||
    var init, e := steps[..|steps| - 1], steps[|steps| - 1];
    NeverReopens(g, init) && !Reopens(Run(g, init), e)
  }

  function LastDone(done: seq<Bucket>): int {
    if done == [] then 0 else done[|done| - 1].ts
  }

  ghost predicate Rising(done: seq<Bucket>) {
    forall i, j :: 0 <= i < j < |done| ==> done[i].ts < done[j].ts
  }

  /** Flushed buckets, and the open one if it has points, end at strictly rising times. */
  ghost predicate FlushedOnce(g: Progress) {
    Rising(g.done) && (g.done != [] && g.pending != [] ==> LastDone(g.done) < g.boundary)
  }

  /** The boundary is never behind the last flush, and is that of the last flush while nothing is open. */
  predicate Abreast(g: Progress) {
    g.done != [] ==> LastDone(g.done) <= g.boundary && (g.pending == [] ==> LastDone(g.done) == g.boundary)
  }

  lemma RisingNext(done: seq<Bucket>, b: Bucket)
    requires done != [] ==> LastDone(done) <= b.ts
    ensures Rising(done + [b]) <==> Rising(done) && (done != [] ==> LastDone(done) < b.ts)
  {
    var more := done + [b];
    if Rising(more) {
      assert forall i :: 0 <= i < |done| ==> more[i] == done[i];
      assert done != [] ==> more[|done| - 1].ts < more[|done|].ts;
    }
  }

  lemma FlushRises(g: Progress)
    requires g.pending != [] && Abreast(g)
    ensures Abreast(g.Flush()) && (FlushedOnce(g.Flush()) <==> FlushedOnce(g))
  {
    RisingNext(g.done, Bucket(g.boundary, g.pending));
  }

  lemma PlaceRises(g: Progress, p: Point)
    requires g.done != [] ==> LastDone(g.done) <= g.boundary
    ensures Abreast(g.Place(p))
    ensures FlushedOnce(g.Place(p)) <==> Rising(g.done) && (g.done != [] ==> LastDone(g.done) < g.boundary)
  {
    var s := g.(pending := g.pending + [p]);
    if p.ts == g.boundary {
      FlushRises(s);
    }
  }

  lemma ApplyRises(g: Progress, e: Step)
    requires 0 < g.span < U32 && Proper(e) && Abreast(g)
    ensures Abreast(Apply(g, e)) && (FlushedOnce(Apply(g, e)) <==> FlushedOnce(g) && !Reopens(g, e))
  {
    if g.pending != [] {
      FlushRises(g);
    }
    if e.Add? && !g.Ignores(e.p) {
      PlaceRises(g.Enter(AggBoundary(e.p.ts, g.span)), e.p);
    }
  }

  lemma {:induction false} RunAbreast(span: int, steps: seq<Step>)
    requires 0 < span < U32 && AllProper(steps)
    ensures Abreast(Run(Fresh(span), steps))
  {
    if steps != [] {
      var init, e := steps[..|steps| - 1], steps[|steps| - 1];
      RunAbreast(span, init);
      ApplyRises(Run(Fresh(span), init), e);
    }
  }

  /** No boundary is flushed twice, or out of order, exactly if no step reopens the bucket that was flushed last. */
  lemma {:induction false} FlushedOnceExactly(span: int, steps: seq<Step>)
    requires 0 < span < U32 && AllProper(steps)
    ensures FlushedOnce(Run(Fresh(span), steps)) <==> NeverReopens(Fresh(span), steps)
  {
    if steps != [] {
      var init, e := steps[..|steps| - 1], steps[|steps| - 1];
      FlushedOnceExactly(span, init);
      RunAbreast(span, init);
      ApplyRises(Run(Fresh(span), init), e);
    }
  }

  // Buckets of 20 seconds: garbage collection flushes the bucket of a point at 5, and a point at 15 reopens it.
  const FIVE := Point(5, Num(1.0))
  const FIFTEEN := Point(15, Num(2.0))
  const TWENTY_FIVE := Point(25, Num(3.0))

  const ONE_FLUSH := [Bucket(20, [FIVE])]

  lemma ExampleStart()
    ensures Fresh(20).Add(FIVE) == Progress(20, 20, [FIVE], [])
    ensures Progress(20, 20, [FIVE], []).GC(0, 100) == Progress(20, 20, [], ONE_FLUSH)
  {
    assert [] + [FIVE] == [FIVE] && [] + ONE_FLUSH == ONE_FLUSH;
  }

  lemma ExampleReopens()
    ensures Progress(20, 20, [], ONE_FLUSH).Add(FIFTEEN) == Progress(20, 20, [FIFTEEN], ONE_FLUSH)
  {
    assert [] + [FIFTEEN] == [FIFTEEN];
  }

  lemma ExampleFlushes()
    ensures Progress(20, 20, [FIFTEEN], ONE_FLUSH).Add(TWENTY_FIVE).done == ONE_FLUSH + [Bucket(20, [FIFTEEN])]
  {
  }

  /** The boundary at 20 is then flushed twice. */
  lemma FlushedTwice()
    ensures var steps := [Add(FIVE), GC(0, 100), Add(FIFTEEN), Add(TWENTY_FIVE)];
            && AllProper(steps)
            && Run(Fresh(20), steps).done == [Bucket(20, [FIVE]), Bucket(20, [FIFTEEN])]
  {
    var a, b, c, d := Add(FIVE), GC(0, 100), Add(FIFTEEN), Add(TWENTY_FIVE);
    ExampleStart();
    ExampleReopens();
    ExampleFlushes();
    assert [a, b, c, d][..3] == [a, b, c] && [a, b, c][..2] == [a, b] && [a, b][..1] == [a] && [a][..0] == [];
    assert Run(Fresh(20), [a]) == Progress(20, 20, [FIVE], []);
    assert Run(Fresh(20), [a, b]) == Progress(20, 20, [], ONE_FLUSH);
    assert Run(Fresh(20), [a, b, c]) == Progress(20, 20, [FIFTEEN], ONE_FLUSH);
  }

  // ---------------------------------------------------------------------------------------------
  // Streams in strict time order.

  /** A point a rollup can be asked to take: a positive timestamp whose bucket end fits in 32 bits. */
  predicate Timely(p: Point, span: int) {
    1 <= p.ts && p.ts + span <= U32
  }

  ghost predicate Stream(s: seq<Point>, span: int) {
    Ascending(s) && forall p :: p in s ==> Timely(p, span)
  }

  ghost function RunStream(g: Progress, s: seq<Point>): (r: Progress)
    requires 0 < g.span < U32 && forall p :: p in s ==> Timely(p, g.span)
    ensures r.span == g.span
  {
    if s == [] then g
    else
      var p := s[|s| - 1];
      assert Timely(p, g.span);
      RunStream(g, s[..|s| - 1]).Add(p)
  }

  /** The points all belong to the bucket that ends at b. */
  ghost predicate Inside(points: seq<Point>, b: int, span: int) {
    points != [] && forall p :: p in points ==> b - span < p.ts <= b
  }

  /** Non-empty buckets at multiples of the span, in strict time order. */
  ghost predicate Grouped(done: seq<Bucket>, span: int)
    requires 0 < span
  {
    done == [] ||
    var n := |done| - 1;
    && Grouped(done[..n], span)
    && done[n].ts % span == 0 && 0 < done[n].ts && Inside(done[n].points, done[n].ts, span)
    && (0 < n ==> done[n - 1].ts < done[n].ts)
  }

  /** What holds of an aggregator that received the stream s, was perhaps garbage collected, and reopened no bucket. */
  ghost predicate Steady(g: Progress, s: seq<Point>)
    requires 0 < g.span
  {
    && Grouped(g.done, g.span) && g.Held() == s
    && g.boundary % g.span == 0
    && (s == [] ==> g.boundary == 0)
    && (s != [] ==> g.boundary - g.span < s[|s| - 1].ts <= g.boundary)
    && (g.pending == [] ==> LastDone(g.done) == g.boundary)
    && (g.pending != [] ==> LastDone(g.done) < g.boundary && Inside(g.pending, g.boundary, g.span)
                            && s[|s| - 1].ts < g.boundary)
  }

  /** What holds if it was never garbage collected: a bucket without open points is complete. */
  ghost predicate InStep(g: Progress, s: seq<Point>)
    requires 0 < g.span
  {
    Steady(g, s) && (g.pending == [] && s != [] ==> s[|s| - 1].ts == g.boundary)
  }

  /** Likewise with the bucket that ends at the boundary open for the next point. */
  ghost predicate Opened(g: Progress, s: seq<Point>)
    requires 0 < g.span
  {
    && Grouped(g.done, g.span) && g.Held() == s
    && g.boundary % g.span == 0 && LastDone(g.done) < g.boundary
    && (g.pending == [] || Inside(g.pending, g.boundary, g.span))
  }

  lemma InsideNext(points: seq<Point>, p: Point, b: int, span: int)
    requires points == [] || Inside(points, b, span)
    requires b - span < p.ts <= b
    ensures Inside(points + [p], b, span)
  {
  }

  lemma GroupedNext(done: seq<Bucket>, b: Bucket, span: int)
    requires 0 < span && Grouped(done, span)
    requires b.ts % span == 0 && Inside(b.points, b.ts, span) && LastDone(done) < b.ts
    ensures Grouped(done + [b], span)
  {
    assert (done + [b])[..|done|] == done;
  }

  lemma EnterOpens(g: Progress, s: seq<Point>, b: int)
    requires 0 < g.span && Steady(g, s) && b % g.span == 0 && g.boundary <= b
    requires g.pending == [] ==> g.boundary < b
    ensures Opened(g.Enter(b), s) && g.Enter(b).boundary == b && g.Enter(b).span == g.span
  {
    EnterConserves(g, b);
    if g.pending != [] {
      GroupedNext(g.done, Bucket(g.boundary, g.pending), g.span);
    }
  }

  lemma PlaceInStep(g: Progress, s: seq<Point>, p: Point)
    requires 0 < g.span && Opened(g, s) && g.boundary - g.span < p.ts <= g.boundary
    ensures InStep(g.Place(p), s + [p])
  {
    PlaceConserves(g, p);
    InsideNext(g.pending, p, g.boundary, g.span);
    if p.ts == g.boundary {
      GroupedNext(g.done, Bucket(g.boundary, g.pending + [p]), g.span);
    }
  }

  /** The next point of a stream never belongs to an earlier bucket. */
  lemma NextBoundary(g: Progress, s: seq<Point>, p: Point)
    requires 0 < g.span < U32 && Steady(g, s) && Timely(p, g.span) && (s != [] ==> s[|s| - 1].ts < p.ts)
    ensures g.boundary <= AggBoundary(p.ts, g.span)
    ensures g.pending == [] && !Reopens(g, Add(p)) ==> g.boundary < AggBoundary(p.ts, g.span)
    ensures InStep(g, s) ==> !Reopens(g, Add(p))
  {
    var b := AggBoundary(p.ts, g.span);
    if s != [] && b < g.boundary {
      MultiplesApart(b, g.boundary, g.span);
    }
  }

  lemma AddSteady(g: Progress, s: seq<Point>, p: Point)
    requires 0 < g.span < U32 && Steady(g, s) && Timely(p, g.span) && (s != [] ==> s[|s| - 1].ts < p.ts)
    requires !Reopens(g, Add(p))
    ensures !g.Ignores(p) && InStep(g.Add(p), s + [p])
  {
    var b := AggBoundary(p.ts, g.span);
    NextBoundary(g, s, p);
    EnterOpens(g, s, b);
    PlaceInStep(g.Enter(b), s, p);
  }

  lemma AddInStep(g: Progress, s: seq<Point>, p: Point)
    requires 0 < g.span < U32 && InStep(g, s) && Timely(p, g.span) && (s != [] ==> s[|s| - 1].ts < p.ts)
    ensures !g.Ignores(p) && InStep(g.Add(p), s + [p])
  {
    NextBoundary(g, s, p);
    AddSteady(g, s, p);
  }

  lemma StreamPrefix(s: seq<Point>, p: Point, span: int)
    requires Stream(s + [p], span)
    ensures Stream(s, span)
  {
    forall i, j | 0 <= i < j < |s|
      ensures s[i].ts < s[j].ts
    {
      assert (s + [p])[i].ts < (s + [p])[j].ts;
    }
    forall q | q in s
      ensures Timely(q, span)
    {
      assert q in s + [p];
    }
  }

  lemma {:induction false} RunInStep(span: int, s: seq<Point>)
    requires 0 < span < U32 && Stream(s, span)
    ensures InStep(RunStream(Fresh(span), s), s)
  {
    if s != [] {
      var init, p := s[..|s| - 1], s[|s| - 1];
      assert s == init + [p];
      StreamPrefix(init, p, span);
      assert Timely(p, span) && (init != [] ==> s[|init| - 1].ts < s[|init|].ts);
      RunInStep(span, init);
      AddInStep(RunStream(Fresh(span), init), init, p);
    }
  }

  lemma GCSteady(g: Progress, s: seq<Point>, lastWrite: int, chunkMinTs: int)
    requires 0 < g.span < U32 && Steady(g, s) && 0 <= lastWrite < U32
    ensures Steady(g.GC(lastWrite, chunkMinTs), s)
  {
    FlushConserves(g);
    if g.pending != [] {
      GroupedNext(g.done, Bucket(g.boundary, g.pending), g.span);
    }
  }

  /** The points of the steps. */
  function PointsOf(steps: seq<Step>): seq<Point> {
    if steps == [] then []
    else PointsOf(steps[..|steps| - 1]) + if steps[|steps| - 1].Add? then [steps[|steps| - 1].p] else []
  }

  lemma ApplySteady(g: Progress, s: seq<Point>, e: Step, more: seq<Point>)
    requires 0 < g.span < U32 && Proper(e) && Steady(g, s) && !Reopens(g, e) && Stream(more, g.span)
    requires more == s + if e.Add? then [e.p] else []
    ensures Steady(Apply(g, e), more)
  {
    if e.Add? {
      StreamNext(s, e.p, g.span);
      assert e == Add(e.p);
      AddSteady(g, s, e.p);
    } else {
      assert more == s;
      GCSteady(g, s, e.lastWrite, e.chunkMinTs);
    }
  }

  /** Garbage collection at any time does no harm to a stream in time order, as long as no bucket is reopened. */
  lemma {:induction false} RunSteady(span: int, steps: seq<Step>)
    requires 0 < span < U32 && AllProper(steps) && Stream(PointsOf(steps), span) && NeverReopens(Fresh(span), steps)
    ensures Steady(Run(Fresh(span), steps), PointsOf(steps))
  {
    if steps != [] {
      var init, e := steps[..|steps| - 1], steps[|steps| - 1];
      assert e in steps;
      StreamInit(PointsOf(init), PointsOf(steps), e, span);
      RunSteady(span, init);
      ApplySteady(Run(Fresh(span), init), PointsOf(init), e, PointsOf(steps));
    }
  }

  lemma StreamInit(s: seq<Point>, more: seq<Point>, e: Step, span: int)
    requires Stream(more, span) && more == s + if e.Add? then [e.p] else []
    ensures Stream(s, span)
  {
    if e.Add? {
      StreamPrefix(s, e.p, span);
    } else {
      assert more == s;
    }
  }

  lemma StreamNext(s: seq<Point>, p: Point, span: int)
    requires Stream(s + [p], span)
    ensures Timely(p, span) && (s != [] ==> s[|s| - 1].ts < p.ts)
  {
    assert p in s + [p];
    assert s != [] ==> (s + [p])[|s| - 1] == s[|s| - 1] && (s + [p])[|s|] == p;
  }
}
