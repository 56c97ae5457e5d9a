/** Answering a raw request from what a metric holds: its reorder window, its chunks in memory and in the store. */
module MetricAnswers {
  import opened Arith
  import opened Batch
  import opened Canonical
  import opened Fetch
  import opened Fixed
  import opened Lifetimes
  import opened MetricRuns
  import opened Metrics
  import opened Points
  import opened Quantize
  import opened RawAnswers
  import opened Requests
  import Rob = ReorderBuffer
  import Runs = TankRuns
  import opened Saves
  import opened Tanks
  import opened TankQuery
  import opened Targets

  /**
   * The points of chunks in [from, to), from memory if that reaches back far enough and else from the store and
   * memory, followed by whatever is buffered.
   */
  function GetSeries(t: Tank, buffered: seq<Point>, from: int, to: int): seq<Point>
    requires 0 <= t.evicted <= |t.hist| && from < to
  {
    var a := Answered(t, buffered, from, to);
    var iters := if a.oldest <= from then a.iters
                 else StoreSearch(t.sent, t.span, from, Fetch.Min(a.oldest, to)) + a.iters;
    In(Flat(iters), from, to) + a.points
  }

  /** A metric on a node that is the primary all along. */
  ghost predicate Kept(t: Tank, k: int, buffered: seq<Point>) {
    && t.Valid() && Runs.SavedUpTo(t, k)
    && Ordered(t, buffered) && forall p :: p in buffered ==> 0 < p.ts
  }

  lemma NothingSent(t: Tank, k: int)
    requires Runs.SavedUpTo(t, k) && t.hist == []
    ensures t.sent == []
  {
  }

  /** If the window reaches back to the start of the range, or there are no chunks, only the window is read. */
  lemma ReadsWindow(t: Tank, buffered: seq<Point>, from: int, to: int)
    requires 0 <= t.evicted <= |t.hist| && from < to && (t.hist == [] ==> t.sent == [])
    requires buffered != [] && (buffered[0].ts <= from || t.hist == [])
    ensures GetSeries(t, buffered, from, to) == buffered
  {
    assert Flat([]) == [] && In([], from, to) == [];
    assert [] + buffered == buffered;
  }

  lemma ReadsChunks(t: Tank, buffered: seq<Point>, from: int, to: int)
    requires 0 <= t.evicted <= |t.hist| && from < to
    requires buffered == [] || (from < buffered[0].ts && t.hist != [])
    ensures GetSeries(t, buffered, from, to) == Fetched(t, from, to) + buffered
  {
  }

  lemma WindowCovers(t: Tank, buffered: seq<Point>, from: int, to: int)
    requires Ordered(t, buffered) && buffered != [] && (buffered[0].ts <= from || t.hist == [])
    ensures In(Flat(t.hist) + buffered, from, to) == In(buffered, from, to)
  {
    OrderedApart(Flat(t.hist), buffered);
    InConcat(Flat(t.hist), buffered, from, to);
    InNone(Flat(t.hist), from, to);
    assert [] + In(buffered, from, to) == In(buffered, from, to);
  }

  /** Otherwise some of the first points of the range may come twice. */
  lemma SeriesShape(t: Tank, k: int, buffered: seq<Point>, from: int, to: int) returns (m: int)
    requires Kept(t, k, buffered) && !MissesEpoch(t, from, to) && 0 <= from < to
    requires buffered == [] || (from < buffered[0].ts && t.hist != [])
    ensures var all := In(Flat(t.hist), from, to);
            0 <= m <= |all| && GetSeries(t, buffered, from, to) == (all + buffered)[..m] + (all + buffered)
  {
    m := FetchShape(t, k, from, to);
    ReadsChunks(t, buffered, from, to);
    TwiceThen(In(Flat(t.hist), from, to), m, buffered);
  }

  lemma TwiceThen(all: seq<Point>, m: int, rest: seq<Point>)
    requires 0 <= m <= |all|
    ensures (all[..m] + all) + rest == (all + rest)[..m] + (all + rest)
  {
    assert (all + rest)[..m] == all[..m];
  }

  lemma OrderedSorted(t: Tank, buffered: seq<Point>, from: int, to: int)
    requires t.Valid() && Ordered(t, buffered)
    ensures Sorted(In(Flat(t.hist), from, to) + buffered) && Sorted(buffered)
  {
    var all := Flat(t.hist);
    HistAscending(t);
    InAscending(all, from, to);
    InMembers(all, from, to);
    OrderedApart(all, buffered);
    AscendingEnd(all, buffered);
    if buffered != [] {
      AscendingConcat(In(all, from, to), buffered, buffered[0].ts - 1);
    } else {
      assert In(all, from, to) + buffered == In(all, from, to);
    }
    AscendingSorted(In(all, from, to) + buffered);
    AscendingSorted(buffered);
  }

  /** The part of the range, with all that is buffered, has the same slots as everything. */
  lemma SlotsOfPart(all: seq<Point>, buffered: seq<Point>, from: int, to: int, first: int, last: int, interval: int)
    requires 0 < interval && first == from + interval - 1 && last < to
    ensures Slots(In(all, from, to) + buffered, first, last, interval) == Slots(all + buffered, first, last, interval)
  {
    var part := In(all, from, to);
    SlotsWithin(part + buffered, from, to, first, last, interval);
    SlotsWithin(all + buffered, from, to, first, last, interval);
    InConcat(part, buffered, from, to);
    InConcat(all, buffered, from, to);
    InIn(all, from, to, from, to);
  }

  /** Snapping what is read to the grid gives the slots of everything the metric took up, buffered points included. */
  lemma SeriesSlots(t: Tank, k: int, buffered: seq<Point>, from: int, to: int, first: int, last: int, interval: int)
    requires Kept(t, k, buffered) && !MissesEpoch(t, from, to) && 0 <= from < to
    requires 0 < interval && first == from + interval - 1 && last < to
    ensures Scan(GetSeries(t, buffered, from, to), first, last, interval)
            == Slots(Flat(t.hist) + buffered, first, last, interval)
  {
    var all := Flat(t.hist);
    OrderedSorted(t, buffered, from, to);
    if buffered != [] && (buffered[0].ts <= from || t.hist == []) {
      if t.hist == [] {
        NothingSent(t, k);
      }
      ReadsWindow(t, buffered, from, to);
      WindowCovers(t, buffered, from, to);
      ScanSorted(buffered, first, last, interval);
      SlotsWithin(buffered, from, to, first, last, interval);
      SlotsWithin(all + buffered, from, to, first, last, interval);
    } else {
      var part := In(all, from, to);
      var m := SeriesShape(t, k, buffered, from, to);
      ScanTwice(part + buffered, m, first, last, interval);
      ScanSorted(part + buffered, first, last, interval);
      SlotsOfPart(all, buffered, from, to, first, last, interval);
    }
  }

  lemma SeriesPositive(t: Tank, k: int, buffered: seq<Point>, from: int, to: int)
    requires Kept(t, k, buffered) && 0 <= from < to
    ensures forall p :: p in GetSeries(t, buffered, from, to) ==> 0 <= p.ts
  {
    var a := Answered(t, buffered, from, to);
    InMembers(Flat(if a.oldest <= from then a.iters
                   else StoreSearch(t.sent, t.span, from, Fetch.Min(a.oldest, to)) + a.iters), from, to);
  }

  /** Reads the points of a range and snaps them to the grid. */
  method ReadFixed(t: Tank, buffered: seq<Point>, from: int, to: int, interval: int, ghost k: int)
    returns (points: seq<Point>)
    requires Kept(t, k, buffered) && !MissesEpoch(t, from, to)
    requires 0 <= from < to && 0 < interval && to + interval <= U32
    requires AlignForward(from, interval) == from + interval - 1 && AlignBackward(to, interval) == to - 1
    ensures points == Slots(Flat(t.hist) + buffered, from + interval - 1, to - 1, interval)
  {
    SeriesPositive(t, k, buffered, from, to);
    SeriesSlots(t, k, buffered, from, to, from + interval - 1, to - 1, interval);
    var read := GetSeries(t, buffered, from, to);
    points := FixAt(read, from, to, interval, from + interval - 1, to - 1);
  }

  /** Fix, where the first and the last slot are known. */
  method FixAt(read: seq<Point>, from: int, to: int, interval: int, ghost first: int, ghost last: int)
    returns (points: seq<Point>)
    requires 0 <= from && 1 <= to && 0 < interval && from + interval <= U32 && to + interval <= U32
    requires forall p :: p in read ==> 0 <= p.ts
    requires AlignForward(from, interval) == first && AlignBackward(to, interval) == last
    ensures points == Scan(read, first, last, interval)
  {
    points := Fix(read, from, to, interval);
  }

  /** The range to read for a raw request. */
  method RawFetchRange(r: Req) returns (from: int, to: int)
    requires r.Valid() && r.archive == 0
    ensures from == to <==> !SomeOutput(r)
    ensures from != to ==> 0 <= from < to && to + r.archInterval <= U32 && from == r.Base() + 1 && to == r.Last() + 1
    ensures from != to ==> AlignForward(from, r.archInterval) == from + r.archInterval - 1
                           && AlignBackward(to, r.archInterval) == to - 1
  {
    EmptyFetch(r);
    var rc := NewRequestContext(r);
    from, to := rc.from, rc.to;
    if from != to {
      OutOnArch(r);
      RawRange(r, from, to);
    }
  }

  /** Reads, fixes and groups the points for a raw request. */
  method GetRawTarget(t: Tank, buffered: seq<Point>, r: Req, c: Consolidator, ghost k: int) returns (out: seq<Point>)
    requires Kept(t, k, buffered) && r.Valid() && r.archive == 0 && !MissesEpoch(t, r.Base() + 1, r.Last() + 1)
    ensures IsCanonical(out, Flat(t.hist) + buffered, r, c)
  {
    var from, to := RawFetchRange(r);
    out := [];
    if from == to {
      NoOutput(r, Flat(t.hist) + buffered);
    } else {
      out := ReadFixed(t, buffered, from, to, r.archInterval, k);
      NeededRange(Flat(t.hist) + buffered, r, from, to);
    }
    out := GroupSeries(out, r, c, Flat(t.hist) + buffered);
  }

  lemma NeededRange(stored: seq<Point>, r: Req, from: int, to: int)
    requires r.Valid() && from == r.Base() + 1 && to == r.Last() + 1
    ensures NeededSlots(stored, r) == Slots(stored, from + r.archInterval - 1, to - 1, r.archInterval)
  {
  }

  lemma NoOutput(r: Req, stored: seq<Point>)
    requires r.Valid() && !SomeOutput(r)
    ensures NeededSlots(stored, r) == []
  {
    SomeOutputIs(r);
    MultiplesApart(r.Last(), r.First(), r.outInterval);
    NoSlots(stored, r);
  }

  // ---------------------------------------------------------------------------------------------
  // Over whole runs

  /** A primary from the start, that does not drop its first chunk. */
  ghost predicate Primary(start: Metric, steps: seq<Step>) {
    Begins(start, steps) && !start.tank.dropFirst && AllByPrimary(start, steps)
  }

  lemma LifeKept(start: Metric, steps: seq<Step>) returns (k: int)
    requires Primary(start, steps)
    requires Ordered(Life(start, steps).tank, Life(start, steps).Buffered())
    ensures Kept(Life(start, steps).tank, k, Life(start, steps).Buffered())
  {
    var t, m := start.tank, Life(start, steps);
    var events := LifeDrives(start, steps, true);
    k := Runs.RunSaved(t.cap, t.span, events);
    if m.rob.Some? {
      ContentsPositive(m.rob.value);
    }
  }

  lemma BeginsOrdered(start: Metric)
    requires start.Valid() && start.tank.hist == []
    ensures Ordered(start.tank, start.Buffered())
  {
    if start.rob.Some? {
      ContentsAscending(start.rob.value);
    }
    assert Flat(start.tank.hist) + start.Buffered() == start.Buffered();
  }

  /**
   * Main result. A raw request, at any time in the life of a metric in which no write was out of time, is answered
   * in canonical form from all that the chunks took up and all that is buffered.
   */
  method AnswerLife(m: Metric, r: Req, c: Consolidator, ghost start: Metric, ghost steps: seq<Step>)
    returns (out: seq<Point>)
    requires Primary(start, steps) && AllTimely(start, steps) && m == Life(start, steps)
    requires r.Valid() && r.archive == 0 && !MissesEpoch(m.tank, r.Base() + 1, r.Last() + 1)
    ensures IsCanonical(out, Flat(m.tank.hist) + m.Buffered(), r, c)
  {
    BeginsOrdered(start);
    LifeOrder(start, steps);
    ghost var k := LifeKept(start, steps);
    out := GetRawTarget(m.tank, m.Buffered(), r, c, k);
  }

  /** Without garbage collection, these are all points that were accepted. */
  method AnswerRun(m: Metric, r: Req, c: Consolidator, ghost start: Metric, ghost steps: seq<Step>)
    returns (out: seq<Point>)
    requires WritesOnly(start, steps) && start.tank == Fresh(start.tank.cap, start.tank.span, false)
    requires m == Life(start, steps)
    requires r.Valid() && r.archive == 0 && !MissesEpoch(m.tank, r.Base() + 1, r.Last() + 1)
    ensures Arriving(Arrivals(steps), start.rob.value.interval)
    ensures var h := Windowed(start, Arrivals(steps));
            IsCanonical(out, Rob.Listing(h.accepted, h.window.interval, 1, h.window.newest + 1), r, c)
  {
    RunStored(start, steps, m);
    NewBegins(start, steps);
    ghost var k := LifeKept(start, steps);
    out := GetRawTarget(m.tank, m.Buffered(), r, c, k);
  }

  lemma RunStored(start: Metric, steps: seq<Step>, m: Metric)
    requires WritesOnly(start, steps) && m == Life(start, steps)
    ensures Arriving(Arrivals(steps), start.rob.value.interval) && Ordered(m.tank, m.Buffered())
    ensures var h := Windowed(start, Arrivals(steps));
            Flat(m.tank.hist) + m.Buffered() == Rob.Listing(h.accepted, h.window.interval, 1, h.window.newest + 1)
  {
    LifeIsRun(start, steps);
    StoredOfRun(start, Arrivals(steps), m);
  }

  lemma StoredOfRun(start: Metric, arrivals: seq<Arrival>, m: Metric)
    requires New(start) && Arriving(arrivals, start.rob.value.interval) && m == Run(start, arrivals)
    ensures Ordered(m.tank, m.Buffered())
    ensures var h := Windowed(start, arrivals);
            Flat(m.tank.hist) + m.Buffered() == Rob.Listing(h.accepted, h.window.interval, 1, h.window.newest + 1)
  {
    NothingDiscarded(start, arrivals);
  }
}
