/** The reorder window and the chunks of a metric together, over whole runs of Add. */
module MetricRuns {
  import opened Arith
  import opened Metrics
  import opened Options
  import opened Points
  import opened Quantize
  import Rob = ReorderBuffer
  import opened Seqs
  import opened Tanks
  import opened TankQuery

  /** A point on its way in, with the wall clock time, whether far-future points are refused, and the node's role. */
  datatype Arrival = Arrival(p: Point, clock: int, enforceFuture: bool, primary: bool)

  /** The chunks hold exactly what the window pushed out, and the current chunk is still open. */
  ghost predicate InStep(m: Metric, h: Rob.History) {
    && Open(m.tank) && h.Valid()
    && m.rob == Some(h.window)
    && Flat(m.tank.hist) == h.purged
  }

  /** A point later than all accepted ones is accepted by an open chunk, or starts a new one. */
  lemma LaterAccepted(t: Tank, p: Point, primary: bool)
    requires Open(t) && 0 < p.ts
    requires forall q :: q in Flat(t.hist) ==> q.ts < p.ts
    ensures t.Accepts(p)
    ensures t.Add(p, primary).hist != [] && !t.Add(p, primary).Last().finished
  {
    if t.hist != [] {
      var points := t.Last().points;
      ChainAt(t.hist, t.span, |t.hist| - 1);
      StartExact(t, p.ts);
      assert Flat(t.hist) == Flat(t.hist[..|t.hist| - 1]) + points;
      assert points[|points| - 1] in Flat(t.hist);
      if t.StartOf(p.ts) < t.Last().t0 {
        MultiplesApart(t.StartOf(p.ts), t.Last().t0, t.span);
      }
    }
  }

  ghost predicate Open(t: Tank) {
    t.Valid() && (t.hist != [] ==> !t.Last().finished)
  }

  /** From m to m', exactly these points were taken up by the chunks and passed on. */
  ghost predicate Took(m: Metric, pts: seq<Point>, m': Metric) {
    && Open(m'.tank)
    && Flat(m'.tank.hist) == Flat(m.tank.hist) + pts
    && m'.fed == m.fed + pts
    && m'.rob == m.rob
  }

  lemma TakeLater(m: Metric, p: Point, clock: int, primary: bool)
    requires Open(m.tank) && 0 < p.ts && forall q :: q in Flat(m.tank.hist) ==> q.ts < p.ts
    ensures Took(m, [p], m.Take(p, clock, primary))
  {
    LaterAccepted(m.tank, p, primary);
    AddKeeps(m.tank, p, primary);
  }

  lemma TookMore(m: Metric, a: seq<Point>, m1: Metric, b: seq<Point>, m2: Metric)
    requires Took(m, a, m1) && Took(m1, b, m2)
    ensures Took(m, a + b, m2)
  {
    Assoc(Flat(m.tank.hist), a, b);
    Assoc(m.fed, a, b);
  }

  /** Points in time order after all accepted ones are all accepted. */
  lemma {:induction false} AllAccepted(m: Metric, pts: seq<Point>, clock: int, primary: bool)
    requires Open(m.tank)
    requires Ascending(Flat(m.tank.hist) + pts) && forall p :: p in pts ==> 0 < p.ts
    ensures Took(m, pts, m.TakeAll(pts, clock, primary))
    decreases |pts|
  {
    if pts != [] {
      var init, p := pts[..|pts| - 1], pts[|pts| - 1];
      assert p in pts;
      SplitLast(Flat(m.tank.hist), pts);
      AllAccepted(m, init, clock, primary);
      var m' := m.TakeAll(init, clock, primary);
      TakeLater(m', p, clock, primary);
      TookMore(m, init, m', [p], m'.Take(p, clock, primary));
    }
  }

  lemma SplitLast(s: seq<Point>, pts: seq<Point>)
    requires Ascending(s + pts) && pts != []
    ensures pts == pts[..|pts| - 1] + [pts[|pts| - 1]]
    ensures Ascending(s + pts[..|pts| - 1])
    ensures forall q :: q in s + pts[..|pts| - 1] ==> q.ts < pts[|pts| - 1].ts
  {
    var all := s + pts;
    assert all[..|all| - 1] == s + pts[..|pts| - 1];
    LastIsLatest(all);
  }

  lemma LastIsLatest(s: seq<Point>)
    requires Ascending(s) && s != []
    ensures forall q :: q in s[..|s| - 1] ==> q.ts < s[|s| - 1].ts
  {
    forall q | q in s[..|s| - 1]
      ensures q.ts < s[|s| - 1].ts
    {
      var i :| 0 <= i < |s| - 1 && s[i] == q;
    }
  }

  lemma AbsorbStep(m: Metric, h: Rob.History, h': Rob.History, purged: seq<Point>, clock: int, primary: bool)
    requires InStep(m, h) && FedInOrder(m)
    requires h'.Valid() && h'.purged == h.purged + purged && forall p :: p in purged ==> 0 < p.ts
    ensures var m' := m.Absorb(h'.window, purged, clock, primary);
            InStep(m', h') && FedInOrder(m') && SameLimits(m, m')
  {
    var m1 := m.(rob := Some(h'.window));
    if purged == [] {
      assert h.purged + purged == h.purged;
    } else {
      Rob.ListingAscending(h'.accepted, h'.window.interval, 1, h'.window.newest - h'.window.size + 1);
      AllAccepted(m1, purged, clock, primary);
      LimitsKept(m1, purged, clock, primary);
    }
  }

  lemma {:induction false} LimitsKept(m: Metric, pts: seq<Point>, clock: int, primary: bool)
    requires m.tank.Valid() && forall p :: p in pts ==> 0 < p.ts
    ensures SameLimits(m, m.TakeAll(pts, clock, primary))
    decreases |pts|
  {
    if pts != [] {
      LimitsKept(m, pts[..|pts| - 1], clock, primary);
    }
  }

  /** One point through the window: all that the window pushes out is taken up by the chunks. */
  lemma ReorderStep(m: Metric, h: Rob.History, p: Point, clock: int, primary: bool)
    requires InStep(m, h) && FedInOrder(m) && m.Ingestible(p)
    ensures var m' := m.Reorder(p, clock, primary);
            InStep(m', h.Step(p)) && FedInOrder(m') && SameLimits(m, m')
  {
    var k := Rob.SlotOf(p.ts, h.window.interval);
    var r := h.window.Add(k, p.val);
    Rob.StepKeepsValid(h, p);
    PurgedPositive(h.window, k, p.val);
    if r.1.Accepted? {
      AbsorbStep(m, h, h.Step(p), r.1.purged, clock, primary);
    } else {
      Refused(h.window, k, p.val);
    }
  }

  lemma Refused(w: Rob.Window, k: int, val: Value)
    ensures !w.Add(k, val).1.Accepted? ==> w.Add(k, val).0 == w
  {
  }

  ghost predicate SameLimits(m: Metric, m': Metric) {
    m'.ingestFromT0 == m.ingestFromT0 && m'.futureTolerance == m.futureTolerance
  }

  /** The reorder window of a new metric. */
  ghost predicate New(m: Metric) {
    && m.tank.Valid() && m.tank.hist == [] && m.fed == []
    && m.rob.Some? && m.rob.value.Valid() && m.rob.value.newest == 0
  }

  ghost predicate Arriving(arrivals: seq<Arrival>, interval: int) {
    0 < interval && forall a :: a in arrivals ==> 0 < a.p.ts < MAX_INT32 && a.p.ts + interval <= U32
  }

  predicate Passes(m: Metric, a: Arrival) {
    m.ingestFromT0 <= a.p.ts && !(m.TooFarAhead(a.p.ts, a.clock) && a.enforceFuture)
  }

  /** The points that reach the reorder window. */
  function Passed(m: Metric, arrivals: seq<Arrival>): seq<Point> {
    if arrivals == [] then []
    else
      var a := arrivals[|arrivals| - 1];
      Passed(m, arrivals[..|arrivals| - 1]) + if Passes(m, a) then [a.p] else []
  }

  /** With nothing refused for its age, what is passed on to the aggregators is what the chunks took up. */
  ghost predicate FedInOrder(m: Metric) {
    m.ingestFromT0 <= 0 ==> m.fed == Flat(m.tank.hist)
  }

  lemma {:induction false} PassedAddable(m: Metric, arrivals: seq<Arrival>, interval: int)
    requires Arriving(arrivals, interval)
    ensures Rob.Addable(Passed(m, arrivals), interval)
    decreases |arrivals|
  {
    if arrivals != [] {
      PassedAddable(m, arrivals[..|arrivals| - 1], interval);
      assert arrivals[|arrivals| - 1] in arrivals;
    }
  }

  /** The window's history for a run of arrivals. */
  ghost function Windowed(start: Metric, arrivals: seq<Arrival>): (h: Rob.History)
    requires start.rob.Some? && Arriving(arrivals, start.rob.value.interval)
    ensures h.window.interval == start.rob.value.interval
  {
    PassedAddable(start, arrivals, start.rob.value.interval);
    Rob.Run(start.rob.value, Passed(start, arrivals))
  }

  ghost function Run(start: Metric, arrivals: seq<Arrival>): (m: Metric)
    requires New(start) && Arriving(arrivals, start.rob.value.interval)
    ensures InStep(m, Windowed(start, arrivals)) && FedInOrder(m) && SameLimits(start, m)
    decreases |arrivals|
  {
    if arrivals == [] then
      NewInStep(start);
      start
    else
      var a := arrivals[|arrivals| - 1];
      assert a in arrivals;
      var m := Run(start, arrivals[..|arrivals| - 1]);
      ArrivalStep(start, arrivals, m);
      m.Add(a.p, a.clock, a.enforceFuture, a.primary)
  }

  lemma NewInStep(start: Metric)
    requires New(start)
    ensures InStep(start, Windowed(start, [])) && FedInOrder(start)
  {
    var w := start.rob.value;
    Rob.ListingEmpty(map[], w.interval, 1, w.newest - w.size + 1);
  }

  lemma ArrivalStep(start: Metric, arrivals: seq<Arrival>, m: Metric)
    requires New(start) && arrivals != [] && Arriving(arrivals, start.rob.value.interval)
    requires InStep(m, Windowed(start, arrivals[..|arrivals| - 1])) && FedInOrder(m) && SameLimits(start, m)
    ensures var a := arrivals[|arrivals| - 1];
            && m.Valid() && m.Ingestible(a.p)
            && var m' := m.Add(a.p, a.clock, a.enforceFuture, a.primary);
               InStep(m', Windowed(start, arrivals)) && FedInOrder(m') && SameLimits(start, m')
  {
    var a := arrivals[|arrivals| - 1];
    assert a in arrivals;
    if Passes(start, a) {
      AddPassed(m, a);
      WindowedNext(start, arrivals);
      ReorderStep(m, Windowed(start, arrivals[..|arrivals| - 1]), a.p, a.clock, a.primary);
    } else {
      AddStopped(m, a);
      assert Passed(start, arrivals) == Passed(start, arrivals[..|arrivals| - 1]);
    }
  }

  lemma AddPassed(m: Metric, a: Arrival)
    requires m.Valid() && m.Ingestible(a.p) && m.rob.Some? && Passes(m, a)
    ensures m.Add(a.p, a.clock, a.enforceFuture, a.primary) == m.Reorder(a.p, a.clock, a.primary)
  {
  }

  lemma AddStopped(m: Metric, a: Arrival)
    requires m.Valid() && m.Ingestible(a.p) && !Passes(m, a)
    ensures var m' := m.Add(a.p, a.clock, a.enforceFuture, a.primary);
            m' == m.(fed := m'.fed) && (m.ingestFromT0 <= 0 ==> m' == m)
  {
  }

  lemma WindowedNext(start: Metric, arrivals: seq<Arrival>)
    requires start.rob.Some? && arrivals != [] && Arriving(arrivals, start.rob.value.interval)
    requires Passes(start, arrivals[|arrivals| - 1])
    ensures arrivals[|arrivals| - 1] in arrivals
    ensures Windowed(start, arrivals) == Windowed(start, arrivals[..|arrivals| - 1]).Step(arrivals[|arrivals| - 1].p)
  {
    var pts := Passed(start, arrivals);
    assert arrivals[|arrivals| - 1] in arrivals;
    assert pts[..|pts| - 1] == Passed(start, arrivals[..|arrivals| - 1]);
  }

  /** Accepted are the slots of all points that pass the checks on input and were in reach when they came. */
  lemma AcceptsPassed(start: Metric, arrivals: seq<Arrival>)
    requires New(start) && Arriving(arrivals, start.rob.value.interval)
    ensures Rob.Addable(Passed(start, arrivals), start.rob.value.interval)
    ensures Rob.AcceptsReached(start.rob.value, Passed(start, arrivals), Windowed(start, arrivals).accepted)
  {
    PassedAddable(start, arrivals, start.rob.value.interval);
    Rob.RunAccepts(start.rob.value, Passed(start, arrivals));
  }

  /**
   * Main result. On every run of Add calls, no point that the reorder window pushes out is discarded by the
   * chunks: chunk points followed by buffered points are all accepted points in strict time order.
   */
  lemma NothingDiscarded(start: Metric, arrivals: seq<Arrival>)
    requires New(start) && Arriving(arrivals, start.rob.value.interval)
    ensures var m, h := Run(start, arrivals), Windowed(start, arrivals);
            && Flat(m.tank.hist) + m.Buffered() ==
               Rob.Listing(h.accepted, h.window.interval, 1, h.window.newest + 1)
            && Ascending(Flat(m.tank.hist) + m.Buffered())
  {
    var m, h := Run(start, arrivals), Windowed(start, arrivals);
    assert InStep(m, h);
    Rob.ValidSorts(h);
    Rob.ListingAscending(h.accepted, h.window.interval, 1, h.window.newest + 1);
  }

  // ---------------------------------------------------------------------------------------------
  // Queries

  /** All chunk points are older than all buffered points. */
  ghost predicate Ordered(t: Tank, buffered: seq<Point>) {
    Ascending(Flat(t.hist) + buffered)
  }

  lemma OrderedApart(a: seq<Point>, b: seq<Point>)
    requires Ascending(a + b)
    ensures forall p, q :: p in a && q in b ==> p.ts < q.ts
    ensures forall q :: q in b && b != [] ==> b[0].ts <= q.ts
  {
    forall p, q | p in a && q in b
      ensures p.ts < q.ts
    {
      var i :| 0 <= i < |a| && a[i] == p;
      var j :| 0 <= j < |b| && b[j] == q;
      assert (a + b)[i] == p && (a + b)[|a| + j] == q;
    }
    forall q | q in b
      ensures b[0].ts <= q.ts
    {
      var j :| 0 <= j < |b| && b[j] == q;
      assert (a + b)[|a|] == b[0] && (a + b)[|a| + j] == q;
    }
  }

  /** What an answer holds of the range: chunk points, then buffered points. */
  function Held(r: GetResult, from: int, to: int): seq<Point>
    requires r.Result?
  {
    In(Flat(r.iters), from, to) + In(r.points, from, to)
  }

  /** The buffer covers the range from its first point on, so the chunks need not be read. */
  lemma BufferCovers(t: Tank, buffered: seq<Point>, from: int, to: int)
    requires t.Valid() && Ordered(t, buffered) && 0 <= from < to
    requires buffered != [] && (buffered[0].ts <= from || t.hist == [])
    ensures In(buffered, from, to) == In(Flat(t.hist) + buffered, Max(from, buffered[0].ts), to)
  {
    var lo := Max(from, buffered[0].ts);
    OrderedApart(Flat(t.hist), buffered);
    InConcat(Flat(t.hist), buffered, lo, to);
    InNone(Flat(t.hist), lo, to);
    InRaise(buffered, from, lo, to);
  }

  /** No buffered point in the range is older than what the chunks report as oldest. */
  lemma BufferedLater(t: Tank, buffered: seq<Point>, from: int, to: int)
    requires t.Valid() && Ordered(t, buffered) && 0 <= from < to && t.hist != []
    ensures var lo := Max(from, Query(t, from, to).oldest); In(buffered, from, to) == In(buffered, lo, to)
  {
    var e := t.evicted;
    OrderedApart(Flat(t.hist), buffered);
    if from >= t.Last().t0 + t.span {
    } else if to <= t.hist[e].t0 {
      OldestFirst(t, e);
      LaterThanChunk(t, buffered, e);
      InNone(buffered, from, to);
      InNone(buffered, OldestIn(t, t.hist[e]), to);
    } else {
      var i := FirstEndingAfter(t.hist, t.span, from, e);
      LaterThanChunk(t, buffered, i);
      InRaise(buffered, from, Max(from, OldestIn(t, t.hist[i])), to);
    }
  }

  lemma LaterThanChunk(t: Tank, buffered: seq<Point>, i: int)
    requires t.Valid() && 0 <= i < |t.hist|
    requires forall p, q :: p in Flat(t.hist) && q in buffered ==> p.ts < q.ts
    ensures forall q :: q in buffered ==> OldestIn(t, t.hist[i]) < q.ts && t.hist[i].t0 < q.ts
  {
    OldestFirst(t, i);
    FlatRange(t, i, |t.hist|);
    ChainAt(t.hist, t.span, |t.hist| - 1);
    var points := t.Last().points;
    assert t.hist == t.hist[..i] + t.hist[i..|t.hist|];
    FlatConcat(t.hist[..i], t.hist[i..|t.hist|]);
    LastInSuffix(t.hist, i);
    assert points[0] in Flat(t.hist[i..|t.hist|]);
    assert points[0] in Flat(t.hist);
  }

  lemma LastInSuffix(chunks: seq<Chunk>, i: int)
    requires 0 <= i < |chunks|
    ensures forall p :: p in chunks[|chunks| - 1].points ==> p in Flat(chunks[i..|chunks|])
  {
    var s := chunks[i..|chunks|];
    assert Flat(s) == Flat(s[..|s| - 1]) + s[|s| - 1].points;
  }

  /**
   * Main result. While chunk points are older than buffered points, an answer holds exactly the points, in
   * chunks or buffered, from its oldest time on, in time order; returning early from the buffer loses nothing.
   */
  lemma AnswerComplete(t: Tank, buffered: seq<Point>, from: int, to: int)
    requires t.Valid() && Ordered(t, buffered) && 0 <= from < to
    ensures var r := Answered(t, buffered, from, to);
            && r.Result?
            && Held(r, from, to) == In(Flat(t.hist) + buffered, Max(from, r.oldest), to)
            && Ascending(Held(r, from, to))
  {
    var r := Answered(t, buffered, from, to);
    var lo := Max(from, r.oldest);
    if buffered != [] && (buffered[0].ts <= from || t.hist == []) {
      BufferCovers(t, buffered, from, to);
    } else {
      QueryExact(t, from, to);
      InConcat(Flat(t.hist), buffered, lo, to);
      if t.hist != [] {
        BufferedLater(t, buffered, from, to);
      }
    }
    InAscending(Flat(t.hist) + buffered, lo, to);
  }

  /** Every chunk point of the range is buffered too. */
  ghost predicate Repeated(t: Tank, buffered: seq<Point>, from: int, to: int) {
    forall p :: p in Flat(t.hist) && from <= p.ts < to ==> p in buffered
  }

  /** No point from the oldest time of the answer on is missing from it. */
  ghost predicate Complete(r: GetResult, all: seq<Point>, from: int, to: int)
    requires r.Result?
  {
    forall p :: p in In(all, Max(from, r.oldest), to) ==> p in Held(r, from, to)
  }

  /**
   * In general an answer holds only points of the range, and it misses some exactly if the buffer starts at or
   * before the range while the chunks have a point there that is not buffered.
   */
  lemma AnswerExactly(t: Tank, buffered: seq<Point>, from: int, to: int)
    requires t.Valid() && 0 <= from < to
    ensures var r := Answered(t, buffered, from, to);
            && r.Result?
            && (forall p :: p in Held(r, from, to) ==> p in In(Flat(t.hist) + buffered, from, to))
            && (Complete(r, Flat(t.hist) + buffered, from, to) <==>
                buffered == [] || from < buffered[0].ts || Repeated(t, buffered, from, to))
  {
    var r, all := Answered(t, buffered, from, to), Flat(t.hist);
    var lo := Max(from, r.oldest);
    InMembers(all + buffered, from, to);
    InMembers(all + buffered, lo, to);
    InMembers(buffered, from, to);
    InMembers(all, lo, to);
    if buffered != [] && (buffered[0].ts <= from || t.hist == []) {
      OnlyBuffered(t, buffered, from, to);
    } else {
      QueryExact(t, from, to);
    }
  }

  lemma OnlyBuffered(t: Tank, buffered: seq<Point>, from: int, to: int)
    requires buffered != [] && (buffered[0].ts <= from || t.hist == [])
    ensures var r := Result(buffered, [], buffered[0].ts);
            Complete(r, Flat(t.hist) + buffered, from, to) <==>
            from < buffered[0].ts || Repeated(t, buffered, from, to)
  {
    var all, lo := Flat(t.hist), Max(from, buffered[0].ts);
    InMembers(all + buffered, lo, to);
    InMembers(buffered, from, to);
    assert In([], from, to) == [];
    if buffered[0].ts <= from && !Repeated(t, buffered, from, to) {
      var p :| p in all && from <= p.ts < to && p !in buffered;
      assert p in all + buffered;
      assert p in In(all + buffered, lo, to);
    }
  }

  /** Every query after every run of Add calls is answered completely. */
  lemma RunAnswersComplete(start: Metric, arrivals: seq<Arrival>, from: int, to: int)
    requires New(start) && Arriving(arrivals, start.rob.value.interval) && 0 <= from < to
    ensures var m := Run(start, arrivals);
            var r := Answered(m.tank, m.Buffered(), from, to);
            && r.Result?
            && Held(r, from, to) == In(Flat(m.tank.hist) + m.Buffered(), Max(from, r.oldest), to)
  {
    var m := Run(start, arrivals);
    NothingDiscarded(start, arrivals);
    AnswerComplete(m.tank, m.Buffered(), from, to);
  }
}
