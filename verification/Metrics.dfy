/** One metric of the memory store as a value: a reorder window in front of a queue of chunks. */
module Metrics {
  import opened Arith
  import opened Options
  import opened Points
  import opened Quantize
  import Rob = ReorderBuffer
  import opened TankQuery
  import opened Tanks

  datatype GetResult =
    | Result(points: seq<Point>, iters: seq<Chunk>, oldest: int)
    | ErrInvalidRange

  /** What a metric with these chunks and these buffered points answers. */
  function Answered(t: Tank, buffered: seq<Point>, from: int, to: int): GetResult
    requires 0 <= t.evicted <= |t.hist|
  {
    if from >= to then ErrInvalidRange
    else if buffered != [] && (buffered[0].ts <= from || t.hist == []) then Result(buffered, [], buffered[0].ts)
    else
      var a := Query(t, from, to);
      Result(buffered, a.iters, a.oldest)
  }

  datatype Metric = Metric(
    tank: Tank,
    rob: Option<Rob.Window>,
    fed: seq<Point>,          // points handed to the aggregators
    lastWrite: int,           // wall clock time of the last accepted point
    ingestFromT0: int,
    futureTolerance: int)
  {
    ghost predicate Valid() {
      tank.Valid() && (rob.Some? ==> rob.value.Valid())
    }

    function Buffered(): seq<Point> {
      if rob.None? then [] else rob.value.Contents()
    }

    /** A point that passes the checks on input and, if there is a reorder window, can be rounded to its grid. */
    ghost predicate Ingestible(p: Point) {
      0 < p.ts < MAX_INT32 && (rob.Some? ==> 0 < rob.value.interval && p.ts + rob.value.interval <= U32)
    }

    predicate TooFarAhead(ts: int, clock: int) {
      ts > futureTolerance && ts - futureTolerance > clock
    }

    /** Add a point to the chunks, and pass it on to the aggregators unless it is discarded. */
    function Take(p: Point, clock: int, primary: bool): Metric
      requires 0 < tank.span && 0 <= tank.evicted <= |tank.hist|
    {
      if tank.Accepts(p) then this.(tank := tank.Add(p, primary), fed := fed + [p], lastWrite := clock)
      else this
    }

    /** Add points one by one. */
    ghost function TakeAll(pts: seq<Point>, clock: int, primary: bool): (m: Metric)
      requires tank.Valid() && forall p :: p in pts ==> 0 < p.ts
      ensures m.tank.Valid() && m.rob == rob
      decreases |pts|
    {
      if pts == [] then this
      else
        var p := pts[|pts| - 1];
        assert p in pts;
        var m := TakeAll(pts[..|pts| - 1], clock, primary);
        AddKeeps(m.tank, p, primary);
        m.Take(p, clock, primary)
    }

    ghost function Add(p: Point, clock: int, enforceFuture: bool, primary: bool): Metric
      requires Valid() && Ingestible(p)
    {
      if p.ts < ingestFromT0 then this.(fed := fed + [p])
      else if TooFarAhead(p.ts, clock) && enforceFuture then this
      else if rob.None? then TakeAll([p], clock, primary)
      else Reorder(p, clock, primary)
    }

    ghost function Reorder(p: Point, clock: int, primary: bool): Metric
      requires Valid() && Ingestible(p) && rob.Some?
    {
      var r := rob.value.Add(Rob.SlotOf(p.ts, rob.value.interval), p.val);
      PurgedPositive(rob.value, Rob.SlotOf(p.ts, rob.value.interval), p.val);
      if r.1.Accepted? then Absorb(r.0, r.1.purged, clock, primary) else this
    }

    /** Continue with a changed window, taking in the points that fell out of it. */
    ghost function Absorb(w: Rob.Window, purged: seq<Point>, clock: int, primary: bool): Metric
      requires tank.Valid() && forall p :: p in purged ==> 0 < p.ts
    {
      if purged == [] then this.(rob := Some(w), lastWrite := clock)
      else this.(rob := Some(w)).TakeAll(purged, clock, primary)
    }

    predicate Collectable(now: int, chunkMinTs: int) {
      lastWrite < chunkMinTs && (tank.hist == [] || tank.Last().t0 + tank.span + 15 * 60 < now)
    }

    /** Move what is buffered into the chunks, without counting that as a write to the metric. */
    ghost function Drain(clock: int, primary: bool): Metric
      requires Valid()
    {
      if rob.None? then this
      else
        ContentsPositive(rob.value);
        Refill(rob.value.Reset(), rob.value.Contents(), clock, primary)
    }

    ghost function Refill(w: Rob.Window, pts: seq<Point>, clock: int, primary: bool): Metric
      requires tank.Valid() && forall p :: p in pts ==> 0 < p.ts
    {
      this.(rob := Some(w)).TakeAll(pts, clock, primary).(lastWrite := lastWrite)
    }

    /** The metric is collectable, and still so after its buffered points were moved into chunks. */
    ghost predicate Stale(now: int, chunkMinTs: int, clock: int, primary: bool)
      requires Valid()
    {
      && Collectable(now, chunkMinTs)
      && var m := Drain(clock, primary); m.tank.hist == [] || m.Collectable(now, chunkMinTs)
    }

    ghost function GC(now: int, chunkMinTs: int, clock: int, primary: bool): Metric
      requires Valid()
    {
      if !Collectable(now, chunkMinTs) then this
      else
        var m := Drain(clock, primary);
        if m.tank.hist == [] || !m.Collectable(now, chunkMinTs) then m
        else m.(tank := m.tank.Close(primary))
    }
  }

  lemma TakeAllNext(m: Metric, pts: seq<Point>, i: int, clock: int, primary: bool)
    requires m.tank.Valid() && 0 <= i < |pts| && forall p :: p in pts ==> 0 < p.ts
    ensures m.TakeAll(pts[..i + 1], clock, primary) == m.TakeAll(pts[..i], clock, primary).Take(pts[i], clock, primary)
  {
    assert pts[..i + 1][..i] == pts[..i];
  }

  lemma ContentsPositive(w: Rob.Window)
    requires w.Valid()
    ensures forall p :: p in w.Contents() ==> 0 < p.ts
  {
    ListingPositive(w, w.newest - w.size + 1, w.newest + 1);
  }

  lemma PurgedPositive(w: Rob.Window, k: int, val: Value)
    requires w.Valid()
    ensures w.Add(k, val).1.Accepted? ==> forall p :: p in w.Add(k, val).1.purged ==> 0 < p.ts
  {
    ListingPositive(w, w.newest - w.size + 1, k - w.size + 1);
  }

  lemma {:induction false} ListingPositive(w: Rob.Window, a: int, b: int)
    requires w.Valid()
    ensures forall p :: p in Rob.Listing(w.slots, w.interval, a, b) ==> 0 < p.ts
    decreases b - a
  {
    if a < b {
      ListingPositive(w, a, b - 1);
      if b - 1 in w.slots {
        ProductMonotone(1, b - 1, w.interval);
      }
    }
  }
}
