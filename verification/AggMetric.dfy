/** The metric object: its chunks are kept in a circular array that is read and written by position. */
module AggMetric {
  import opened Metrics
  import opened Options
  import opened Points
  import opened Quantize
  import Rob = ReorderBuffer
  import opened Ring
  import opened Tanks
  import opened TankQuery

  /** The ring array and its current position hold the chunks of the tank. */
  ghost predicate Represents(ring: seq<Chunk>, pos: int, t: Tank) {
    && t.Valid()
    && RingOf(ring, pos, t.Live())
    && (|ring| < t.cap && ring != [] ==> pos == |ring| - 1)
  }

  lemma CurrentChunk(ring: seq<Chunk>, pos: int, t: Tank)
    requires Represents(ring, pos, t)
    ensures ring == [] <==> t.hist == []
    ensures ring != [] ==> 0 <= pos < |ring| && ring[pos] == t.Last()
  {
    if ring != [] {
      RingAt(ring, pos, t.Live(), |ring| - 1);
    }
  }

  lemma BeginRepresents(ring: seq<Chunk>, pos: int, t: Tank, p: Point)
    requires Represents(ring, pos, t) && ring == [] && 0 < p.ts
    ensures Represents(t.Begin(p).hist, pos, t.Begin(p))
    ensures t.Begin(p).hist == [Chunk(t.StartOf(p.ts), [] + [p], false, true)]
  {
    CurrentChunk(ring, pos, t);
    BeginKeeps(t, p);
    assert t.Begin(p).Live() == t.Begin(p).hist;
  }

  lemma ReplaceCurrent(ring: seq<Chunk>, pos: int, t: Tank, c: Chunk)
    requires Represents(ring, pos, t) && ring != []
    requires t.(hist := t.hist[|t.hist| - 1 := c]).Valid()
    ensures Represents(ring[pos := c], pos, t.(hist := t.hist[|t.hist| - 1 := c]))
  {
    RingUpdateLast(ring, pos, t.Live(), c);
    assert t.hist[|t.hist| - 1 := c][t.evicted..] == t.Live()[|t.Live()| - 1 := c];
  }

  /** Moving on to the next position when the ring is not full yet. */
  lemma AppendChunk(ring: seq<Chunk>, pos: int, t: Tank, c: Chunk)
    requires Represents(ring, pos, t) && ring != [] && t.Grow(c).Valid()
    requires |ring| < t.cap
    ensures pos + 1 < t.cap && Represents(ring + [c], pos + 1, t.Grow(c))
  {
    RingAppend(ring, pos, t.Live(), c);
    assert (t.hist + [c])[t.evicted..] == t.Live() + [c];
  }

  /** Moving on to the next position when the ring is full, over the oldest chunk. */
  lemma OverwriteChunk(ring: seq<Chunk>, pos: int, t: Tank, c: Chunk)
    requires Represents(ring, pos, t) && ring != [] && t.Grow(c).Valid()
    requires |ring| >= t.cap
    ensures var next := if pos + 1 >= t.cap then 0 else pos + 1;
            0 <= next < |ring| && Represents(ring[next := c], next, t.Grow(c))
  {
    RingReplaceOldest(ring, pos, t.Live(), c);
    assert (t.hist + [c])[t.evicted + 1..] == t.Live()[1..] + [c];
  }

  lemma PlaceRepresents(ring: seq<Chunk>, pos: int, t: Tank, c: Chunk, numChunks: int)
    requires Represents(ring, pos, t) && ring != [] && t.Grow(c).Valid()
    requires t.cap == if numChunks == 0 then 1 else numChunks
    ensures 0 <= NextPos(pos, numChunks)
    ensures |ring| < numChunks ==> Represents(ring + [c], NextPos(pos, numChunks), t.Grow(c))
    ensures |ring| >= numChunks ==> NextPos(pos, numChunks) < |ring|
    ensures |ring| >= numChunks ==>
              Represents(ring[NextPos(pos, numChunks) := c], NextPos(pos, numChunks), t.Grow(c))
  {
    if |ring| < numChunks {
      AppendChunk(ring, pos, t, c);
    } else {
      OverwriteChunk(ring, pos, t, c);
    }
  }

  function NextPos(pos: int, numChunks: int): int {
    if pos + 1 >= numChunks then 0 else pos + 1
  }

  /** Changes to the save marker and the queue do not concern the ring. */
  lemma SameChunks(ring: seq<Chunk>, pos: int, t: Tank, t': Tank)
    requires Represents(ring, pos, t)
    requires t' == t.(lastSave := t'.lastSave, sent := t'.sent)
    ensures Represents(ring, pos, t')
  {
  }

  lemma AdvanceGrows(t: Tank, p: Point, primary: bool, saved: Tank, c: Chunk)
    requires t.Valid() && t.hist != [] && 0 < p.ts && t.Last().t0 < t.StartOf(p.ts)
    requires saved == if primary then t.FinishLast().Persist() else t.FinishLast()
    requires c == Chunk(p.ts - p.ts % t.span, [], false, false).Push(p).chunk
    ensures saved.Grow(c) == t.Advance(p, primary) && saved.Grow(c).Valid()
  {
    AdvanceKeeps(t, p, primary);
    assert c.points == [p];
  }

  class AggMetric {
    const numChunks: int
    const chunkSpan: int
    const dropFirstChunk: bool
    const ingestFromT0: int
    const futureTolerance: int
    var rob: Option<Rob.Window>
    var currentChunkPos: int
    var chunks: seq<Chunk>
    var lastSaveStart: int
    var lastWrite: int
    var firstTs: int
    var queue: seq<Chunk>     // chunk write requests handed to the store
    var fed: seq<Point>       // points handed to the aggregators
    ghost var tank: Tank      // the chunks as a queue, with its history

    ghost predicate Valid()
      reads this`chunks, this`currentChunkPos, this`lastSaveStart, this`firstTs, this`queue, this`tank
    {
      && Represents(chunks, currentChunkPos, tank)
      && tank.cap == (if numChunks == 0 then 1 else numChunks)  // a ring of size 0 works like one of size 1
      && tank.span == chunkSpan && tank.dropFirst == dropFirstChunk
      && tank.lastSave == lastSaveStart && tank.firstTs == firstTs && tank.sent == queue
    }

    ghost function View(): Metric
      reads this
    {
      Metric(tank, rob, fed, lastWrite, ingestFromT0, futureTolerance)
    }

    constructor (rob: Option<Rob.Window>, numChunks: int, chunkSpan: int, dropFirstChunk: bool,
                 ingestFromT0: int, futureTolerance: int, clock: int)
      requires 0 <= numChunks && 0 < chunkSpan <= MAX_INT32
      ensures Valid()
      ensures View() == Metric(Fresh(if numChunks == 0 then 1 else numChunks, chunkSpan, dropFirstChunk),
                               rob, [], clock, ingestFromT0, futureTolerance)
    {
      this.rob := rob;
      this.numChunks := numChunks;
      this.chunkSpan := chunkSpan;
      this.dropFirstChunk := dropFirstChunk;
      this.ingestFromT0 := ingestFromT0;
      this.futureTolerance := futureTolerance;
      this.currentChunkPos := 0;
      this.chunks := [];
      this.lastSaveStart := 0;
      this.lastWrite := clock;
      this.firstTs := 0;
      this.queue := [];
      this.fed := [];
      this.tank := Fresh(if numChunks == 0 then 1 else numChunks, chunkSpan, dropFirstChunk);
    }

    // -------------------------------------------------------------------------------------------
    // Saving

    /** Raise the save marker; other nodes and the store itself report saved chunks this way. */
    method SyncChunkSaveState(t0: int)
      requires Valid()
      modifies this`lastSaveStart, this`tank
      ensures Valid() && tank == old(tank).Notice(t0)
    {
      SameChunks(chunks, currentChunkPos, tank, tank.Notice(t0));
      if t0 > lastSaveStart {
        lastSaveStart := t0;
      }
      tank := tank.Notice(t0);
    }

    /** Queue the current chunk for saving, after all older chunks in memory that were not saved. */
    method Persist(pos: int)
      requires Valid() && chunks != [] && pos == currentChunkPos && chunks[pos].finished
      modifies this`lastSaveStart, this`queue, this`tank
      ensures Valid() && tank == old(tank).Persist()
    {
      CurrentChunk(chunks, currentChunkPos, tank);
      if lastSaveStart >= chunks[pos].t0 {
        return;
      }
      SameChunks(chunks, currentChunkPos, tank, tank.Persist());
      ChainInOrder(tank.hist, tank.span);
      var pending := CollectPending(chunks, pos, lastSaveStart, tank.Live());
      lastSaveStart := chunks[pos].t0;
      queue := QueueUp(queue, pending);
      tank := tank.Persist();
    }

    // -------------------------------------------------------------------------------------------
    // Adding

    method SetCurrent(c: Chunk)
      requires Valid() && chunks != [] && tank.(hist := tank.hist[|tank.hist| - 1 := c]).Valid()
      modifies this`chunks, this`tank
      ensures Valid() && tank == old(tank).(hist := old(tank).hist[|old(tank).hist| - 1 := c])
      ensures chunks != [] && chunks[currentChunkPos] == c
    {
      ReplaceCurrent(chunks, currentChunkPos, tank, c);
      chunks := chunks[currentChunkPos := c];
      tank := tank.(hist := tank.hist[|tank.hist| - 1 := c]);
    }

    /** No more points can be added to the current chunk after this. */
    method FinishCurrent()
      requires Valid() && chunks != []
      modifies this`chunks, this`tank
      ensures Valid() && tank == old(tank).FinishLast() && chunks != [] && chunks[currentChunkPos].finished
    {
      CurrentChunk(chunks, currentChunkPos, tank);
      FinishLastKeeps(tank);
      SetCurrent(chunks[currentChunkPos].Finish());
    }

    method BeginChunks(p: Point)
      requires Valid() && chunks == [] && 0 < p.ts
      modifies this`chunks, this`tank, this`firstTs, this`lastSaveStart
      ensures Valid() && tank == old(tank).Begin(p)
    {
      BeginRepresents(chunks, currentChunkPos, tank, p);
      var t0 := p.ts - p.ts % chunkSpan;
      var pushed := Chunk(t0, [], false, true).Push(p);
      assert pushed.Pushed?;  // no panic
      chunks := [pushed.chunk];
      firstTs := p.ts;
      if dropFirstChunk && t0 > lastSaveStart {
        lastSaveStart := t0;
      }
      tank := tank.Begin(p);
    }

    /** Move to the next ring position and put the chunk there, over the oldest one if the ring is full. */
    method PlaceChunk(c: Chunk)
      requires Valid() && chunks != [] && tank.Grow(c).Valid()
      modifies this`chunks, this`tank, this`currentChunkPos
      ensures Valid() && tank == old(tank).Grow(c)
    {
      PlaceRepresents(chunks, currentChunkPos, tank, c, numChunks);
      var next := NextPos(currentChunkPos, numChunks);
      if |chunks| < numChunks {
        chunks := chunks + [c];
      } else {
        chunks := chunks[next := c];
      }
      currentChunkPos := next;
      tank := tank.Grow(c);
    }

    method SaveCurrent(primary: bool)
      requires Valid() && chunks != []
      modifies this`chunks, this`tank, this`lastSaveStart, this`queue
      ensures Valid() && chunks != []
      ensures tank == if primary then old(tank).FinishLast().Persist() else old(tank).FinishLast()
    {
      FinishCurrent();
      if primary {
        Persist(currentChunkPos);
      }
    }

    /** Close the current chunk, save it if this node is the primary, and start a new chunk with a first point. */
    method StartChunk(p: Point, primary: bool)
      requires Valid() && chunks != [] && 0 < p.ts && tank.Last().t0 < tank.StartOf(p.ts)
      modifies this`chunks, this`tank, this`currentChunkPos, this`lastSaveStart, this`queue
      ensures Valid() && tank == old(tank).Advance(p, primary)
    {
      SaveCurrent(primary);
      var pushed := Chunk(p.ts - p.ts % chunkSpan, [], false, false).Push(p);
      assert pushed.Pushed?;  // no panic
      AdvanceGrows(old(tank), p, primary, tank, pushed.chunk);
      PlaceChunk(pushed.chunk);
    }

    /** Push a point to the current chunk, unless it is closed or has a point at that time or later. */
    method ExtendChunk(p: Point) returns (accepted: bool)
      requires Valid() && chunks != [] && 0 < p.ts && tank.StartOf(p.ts) == tank.Last().t0
      modifies this`chunks, this`tank
      ensures Valid() && accepted == old(tank).Accepts(p)
      ensures tank == if accepted then old(tank).Extend(p) else old(tank)
    {
      CurrentChunk(chunks, currentChunkPos, tank);
      var currentChunk := chunks[currentChunkPos];
      if currentChunk.finished {
        return false;
      }
      var pushed := currentChunk.Push(p);
      if !pushed.Pushed? {
        return false;
      }
      StartExact(tank, p.ts);
      AppendKeeps(tank, p);
      SetCurrent(pushed.chunk);
      return true;
    }

    /** Push a point to the current chunk, or start a new one with it. */
    method PushPoint(p: Point, primary: bool) returns (accepted: bool)
      requires Valid() && 0 < p.ts
      modifies this`chunks, this`tank, this`firstTs, this`currentChunkPos, this`lastSaveStart, this`queue
      ensures Valid() && tank == old(tank).Add(p, primary)
      ensures accepted <==> old(tank).Accepts(p)
    {
      CurrentChunk(chunks, currentChunkPos, tank);
      if chunks == [] {
        BeginChunks(p);
        return true;
      }
      var t0 := p.ts - p.ts % chunkSpan;
      var currentChunk := chunks[currentChunkPos];
      if t0 == currentChunk.t0 {
        accepted := ExtendChunk(p);
      } else if t0 < currentChunk.t0 {
        accepted := false;
      } else {
        StartChunk(p, primary);
        accepted := true;
      }
    }

    /** Add a point, and pass it on to the aggregators unless it is discarded. */
    method AddPoint(p: Point, clock: int, primary: bool)
      requires Valid() && 0 < p.ts
      modifies this
      ensures Valid() && View() == old(View()).Take(p, clock, primary)
    {
      var accepted := PushPoint(p, primary);
      if accepted {
        Feed(p, clock);
      }
    }

    method Feed(p: Point, clock: int)
      requires Valid()
      modifies this`lastWrite, this`fed
      ensures Valid() && lastWrite == clock && fed == old(fed) + [p]
    {
      lastWrite := clock;
      fed := fed + [p];
    }

    /** Add points one by one, in order. */
    method AddPoints(pts: seq<Point>, clock: int, primary: bool)
      requires Valid() && forall p :: p in pts ==> 0 < p.ts
      modifies this
      ensures Valid() && View() == old(View()).TakeAll(pts, clock, primary)
    {
      ghost var m := View();
      for i := 0 to |pts|
        invariant Valid() && View() == m.TakeAll(pts[..i], clock, primary)
      {
        assert pts[i] in pts;
        TakeAllNext(m, pts, i, clock, primary);
        AddPoint(pts[i], clock, primary);
      }
      assert pts[..|pts|] == pts;
    }

    /** Ingest a point, through the reorder buffer if there is one. */
    method Add(p: Point, clock: int, enforceFuture: bool, primary: bool)
      requires Valid() && View().Valid() && View().Ingestible(p)
      modifies this
      ensures Valid() && View() == old(View()).Add(p, clock, enforceFuture, primary)
    {
      if p.ts < ingestFromT0 {
        // too old for the raw data, but maybe not for the aggregates
        fed := fed + [p];
        return;
      }
      if p.ts > futureTolerance && p.ts - futureTolerance > clock {
        if enforceFuture {
          return;
        }
      }
      if rob.None? {
        AddPoints([p], clock, primary);
      } else {
        AddReordered(p, clock, primary);
      }
    }

    method AddReordered(p: Point, clock: int, primary: bool)
      requires Valid() && View().Valid() && View().Ingestible(p) && rob.Some?
      modifies this
      ensures Valid() && View() == old(View()).Reorder(p, clock, primary)
    {
      PurgedPositive(rob.value, Rob.SlotOf(p.ts, rob.value.interval), p.val);
      var r := rob.value.Add(Rob.SlotOf(p.ts, rob.value.interval), p.val);
      if r.1.Accepted? {
        AbsorbPoints(r.0, r.1.purged, clock, primary);
      }
    }

    method AbsorbPoints(w: Rob.Window, purged: seq<Point>, clock: int, primary: bool)
      requires Valid() && forall p :: p in purged ==> 0 < p.ts
      modifies this
      ensures Valid() && View() == old(View()).Absorb(w, purged, clock, primary)
    {
      rob := Some(w);
      if purged == [] {
        lastWrite := clock;
      } else {
        AddPoints(purged, clock, primary);
      }
    }

    // -------------------------------------------------------------------------------------------
    // Reading

    /** All data between from (inclusive) and to (exclusive); more than that may be included. */
    method Get(from: int, to: int) returns (r: GetResult)
      requires Valid()
      ensures r == Answered(tank, View().Buffered(), from, to)
      ensures r == ErrInvalidRange <==> to <= from
    {
      CurrentChunk(chunks, currentChunkPos, tank);
      if from >= to {
        return ErrInvalidRange;
      }
      var points := [];
      var oldest := MAX_INT32;
      if rob.Some? {
        points := rob.value.Contents();
        if points != [] {
          oldest := points[0].ts;
          if oldest <= from {
            return Result(points, [], oldest);
          }
        }
      }
      if chunks == [] {
        return Result(points, [], oldest);
      }
      var iters;
      iters, oldest := GetChunks(from, to);
      return Result(points, iters, oldest);
    }

    method GetChunks(from: int, to: int) returns (iters: seq<Chunk>, oldest: int)
      requires Valid() && chunks != [] && from < to
      ensures Answer(iters, oldest) == Query(tank, from, to)
    {
      CurrentChunk(chunks, currentChunkPos, tank);
      if from >= chunks[currentChunkPos].t0 + chunkSpan {
        // Everything this metric has is older than the range.
        return [], from;
      }
      var oldestPos := currentChunkPos + 1;
      if oldestPos >= |chunks| {
        oldestPos := 0;
      }
      RingAt(chunks, currentChunkPos, tank.Live(), 0);
      if to <= chunks[oldestPos].t0 {
        // Everything in memory is newer than the range.
        return [], if chunks[oldestPos].first then firstTs else chunks[oldestPos].t0;
      }
      var oldestChunk;
      iters, oldestChunk := ReadRange(chunks, currentChunkPos, from, to, chunkSpan, tank);
      oldest := if oldestChunk.first then firstTs else oldestChunk.t0;
    }

    // -------------------------------------------------------------------------------------------
    // Garbage collection

    method Collectable(now: int, chunkMinTs: int) returns (r: bool)
      requires Valid()
      ensures r == View().Collectable(now, chunkMinTs)
    {
      CurrentChunk(chunks, currentChunkPos, tank);
      if chunks == [] {
        return lastWrite < chunkMinTs;
      }
      return lastWrite < chunkMinTs && chunks[currentChunkPos].t0 + chunkSpan + 15 * 60 < now;
    }

    /** What is still in the window goes to the chunks, so that it can be saved. */
    method DrainBuffer(clock: int, primary: bool)
      requires Valid() && View().Valid()
      modifies this
      ensures Valid() && View() == old(View()).Drain(clock, primary)
      ensures View().Buffered() == []
    {
      if rob.Some? {
        ContentsPositive(rob.value);
        Rob.ResetContents(rob.value);
        RefillChunks(rob.value.Reset(), rob.value.Contents(), clock, primary);
      }
    }

    method RefillChunks(w: Rob.Window, pts: seq<Point>, clock: int, primary: bool)
      requires Valid() && forall p :: p in pts ==> 0 < p.ts
      modifies this
      ensures Valid() && View() == old(View()).Refill(w, pts, clock, primary)
    {
      // Draining is no write to the metric, so the time of the last write is put back afterwards.
      var tmpLastWrite := lastWrite;
      rob := Some(w);
      assert View() == old(View()).(rob := Some(w));
      AddPoints(pts, clock, primary);
      lastWrite := tmpLastWrite;
    }

    method CloseStale(primary: bool)
      requires Valid() && chunks != []
      modifies this`chunks, this`tank, this`lastSaveStart, this`queue
      ensures Valid() && tank == old(tank).Close(primary) && tank.hist != [] && tank.Last().finished
    {
      CurrentChunk(chunks, currentChunkPos, tank);
      if !chunks[currentChunkPos].finished {
        FinishCurrent();
        CurrentChunk(chunks, currentChunkPos, tank);
        if primary {
          Persist(currentChunkPos);
        }
      }
    }

    /** Drain the window and close the chunk of a metric that is no longer written to; says whether it is one. */
    method Retire(now: int, chunkMinTs: int, clock: int, primary: bool) returns (stale: bool)
      requires Valid() && View().Valid()
      modifies this
      ensures Valid() && View() == old(View()).GC(now, chunkMinTs, clock, primary)
      ensures stale == old(View()).Stale(now, chunkMinTs, clock, primary)
      ensures stale ==> View().Buffered() == [] && (tank.hist != [] ==> tank.Last().finished)
    {
      stale := Collectable(now, chunkMinTs);
      if !stale {
        return;
      }
      DrainBuffer(clock, primary);
      CurrentChunk(chunks, currentChunkPos, tank);
      if chunks == [] {
        return;
      }
      stale := Collectable(now, chunkMinTs);
      if stale {
        CloseStale(primary);
      }
    }

    /**
     * Save and close the chunk of a metric that is no longer written to. Reports the number of points held and
     * whether the metric can be removed, given the same from its aggregators.
     */
    method GC(now: int, chunkMinTs: int, metricMinTs: int, clock: int, primary: bool, aggPoints: int, aggStale: bool)
      returns (points: int, stale: bool)
      requires Valid() && View().Valid()
      modifies this
      ensures Valid() && View() == old(View()).GC(now, chunkMinTs, clock, primary)
      ensures stale ==> aggStale && View().Buffered() == []
      ensures stale && tank.hist != [] ==> tank.Last().finished && lastWrite < metricMinTs
      ensures !old(View()).Stale(now, chunkMinTs, clock, primary) ==> points == 0 && !stale
      ensures old(View()).Stale(now, chunkMinTs, clock, primary) ==>
                if tank.hist == [] then points == aggPoints && stale == aggStale
                else points == |Flat(tank.Live())| + aggPoints && stale == (aggStale && lastWrite < metricMinTs)
    {
      stale := Retire(now, chunkMinTs, clock, primary);
      if !stale {
        return 0, false;
      }
      CurrentChunk(chunks, currentChunkPos, tank);
      if chunks == [] {
        return aggPoints, aggStale;
      }
      points := PointsHeld();
      return points + aggPoints, aggStale && lastWrite < metricMinTs;
    }

    method PointsHeld() returns (points: int)
      requires Valid()
      ensures points == |Flat(tank.Live())|
    {
      RingCount(chunks, currentChunkPos, tank.Live());
      points := CountPoints(chunks);
    }
  }

  method CountPoints(chunks: seq<Chunk>) returns (points: int)
    ensures points == |Flat(chunks)|
  {
    points := 0;
    for i := 0 to |chunks|
      invariant points == |Flat(chunks[..i])|
    {
      assert chunks[..i + 1][..i] == chunks[..i];
      points := points + |chunks[i].points|;
    }
    assert chunks[..|chunks|] == chunks;
  }
}
