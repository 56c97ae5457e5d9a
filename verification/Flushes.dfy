/** What becomes of the points that leave the reorder window: the chunks take them, if they were not closed before. */
module Flushes {
  import opened Lifetimes
  import opened MetricRuns
  import opened MetricSteps
  import opened Metrics
  import opened Options
  import opened Points
  import opened Quantize
  import Rob = ReorderBuffer
  import opened Seqs
  import opened Tanks

  /** The current chunk can still grow, or ended before the first of the points. */
  predicate Room(t: Tank, pts: seq<Point>) {
    pts == [] || t.hist == [] || !t.Last().finished || t.Last().t0 + t.span <= pts[0].ts
  }

  lemma FirstAccepted(t: Tank, p: Point)
    requires t.Valid() && 0 < p.ts && (t.hist == [] || t.Last().LastTs() < p.ts)
    ensures t.Accepts(p) <==> Room(t, [p])
  {
    AcceptsExactly(t, p);
  }

  lemma OneTaken(m: Metric, p: Point, clock: int, primary: bool)
    requires m.tank.Valid() && 0 < p.ts && m.tank.Accepts(p)
    ensures var m' := m.Take(p, clock, primary); Flat(m'.tank.hist) == Flat(m.tank.hist) + [p] && Open(m'.tank)
  {
    AddKeeps(m.tank, p, primary);
  }

  lemma LastBefore(t: Tank, pts: seq<Point>)
    requires t.Valid() && pts != [] && Ascending(Flat(t.hist) + pts)
    ensures t.hist == [] || t.Last().LastTs() < pts[0].ts
  {
    if t.hist != [] {
      HistEnds(t);
      var all := Flat(t.hist) + pts;
      assert all[|Flat(t.hist)| - 1] == Flat(t.hist)[|Flat(t.hist)| - 1] && all[|Flat(t.hist)|] == pts[0];
    }
  }

  /** From t to t' the chunks took all the points. */
  ghost predicate TookAll(t: Tank, pts: seq<Point>, t': Tank) {
    t'.Valid() && Flat(t'.hist) == Flat(t.hist) + pts && if pts == [] then t' == t else Open(t')
  }

  /** After the points before it were taken, the next point is accepted, if there was room for the first of them. */
  lemma NextAccepted(t: Tank, t': Tank, init: seq<Point>, p: Point)
    requires t.Valid() && TookAll(t, init, t')
    requires 0 < p.ts && Ascending(Flat(t.hist) + (init + [p])) && Room(t, init + [p])
    ensures t'.Accepts(p)
  {
    if init == [] {
      assert init + [p] == [p];
      LastBefore(t, [p]);
      FirstAccepted(t, p);
    } else {
      assert Flat(t.hist) + (init + [p]) == Flat(t'.hist) + [p];
      LastIsLatest(Flat(t'.hist) + [p]);
      assert (Flat(t'.hist) + [p])[..|Flat(t'.hist)|] == Flat(t'.hist);
      LaterAccepted(t', p, false);
    }
  }

  lemma NextTaken(t: Tank, m: Metric, init: seq<Point>, p: Point, clock: int, primary: bool)
    requires t.Valid() && TookAll(t, init, m.tank)
    requires 0 < p.ts && Ascending(Flat(t.hist) + (init + [p])) && Room(t, init + [p])
    ensures TookAll(t, init + [p], m.Take(p, clock, primary).tank)
  {
    NextAccepted(t, m.tank, init, p);
    OneTaken(m, p, clock, primary);
    Assoc(Flat(t.hist), init, [p]);
  }

  lemma RoomInFront(t: Tank, init: seq<Point>, p: Point)
    requires Ascending(Flat(t.hist) + (init + [p])) && Room(t, init + [p])
    ensures Ascending(Flat(t.hist) + init) && Room(t, init)
  {
    var all := Flat(t.hist) + (init + [p]);
    assert Flat(t.hist) + init == all[..|all| - 1];
  }

  lemma {:induction false} AllTaken(m: Metric, pts: seq<Point>, clock: int, primary: bool)
    requires m.tank.Valid() && Ascending(Flat(m.tank.hist) + pts) && (forall p :: p in pts ==> 0 < p.ts)
    requires Room(m.tank, pts)
    ensures TookAll(m.tank, pts, m.TakeAll(pts, clock, primary).tank)
    decreases |pts|
  {
    if pts == [] {
      assert Flat(m.tank.hist) + pts == Flat(m.tank.hist);
    } else {
      var init, p := pts[..|pts| - 1], pts[|pts| - 1];
      assert p in pts && pts == init + [p];
      RoomInFront(m.tank, init, p);
      AllTaken(m, init, clock, primary);
      NextTaken(m.tank, m.TakeAll(init, clock, primary), init, p, clock, primary);
    }
  }

  /** If the first point is refused, fewer are taken than there are. */
  lemma {:induction false} FewerTaken(m: Metric, pts: seq<Point>, clock: int, primary: bool)
    requires m.tank.Valid() && forall p :: p in pts ==> 0 < p.ts
    ensures |Flat(m.TakeAll(pts, clock, primary).tank.hist)| <= |Flat(m.tank.hist)| + |pts|
    ensures pts != [] && !m.tank.Accepts(pts[0]) ==>
              |Flat(m.TakeAll(pts, clock, primary).tank.hist)| < |Flat(m.tank.hist)| + |pts|
    decreases |pts|
  {
    if pts != [] {
      var init, p := pts[..|pts| - 1], pts[|pts| - 1];
      assert p in pts;
      FewerTaken(m, init, clock, primary);
      AddKeeps(m.TakeAll(init, clock, primary).tank, p, primary);
    }
  }

  /** Points that come after all others are taken by the chunks, all of them exactly if there is room. */
  lemma TakenExactly(m: Metric, pts: seq<Point>, clock: int, primary: bool)
    requires m.tank.Valid() && Ascending(Flat(m.tank.hist) + pts) && forall p :: p in pts ==> 0 < p.ts
    ensures var m' := m.TakeAll(pts, clock, primary);
            && |Flat(m'.tank.hist)| <= |Flat(m.tank.hist)| + |pts|
            && (Flat(m'.tank.hist) == Flat(m.tank.hist) + pts <==> Room(m.tank, pts))
            && (|Flat(m'.tank.hist)| == |Flat(m.tank.hist)| + |pts| <==> Room(m.tank, pts))
  {
    FewerTaken(m, pts, clock, primary);
    if Room(m.tank, pts) {
      AllTaken(m, pts, clock, primary);
    } else {
      assert pts[0] in pts;
      LastBefore(m.tank, pts);
      FirstAccepted(m.tank, pts[0]);
    }
  }

  // ---------------------------------------------------------------------------------------------
  // One step

  /** The points that leave the window in a step. */
  ghost function Leaving(m: Metric, s: Step): seq<Point>
    requires m.Valid() && Takes(m, s) && m.rob.Some?
  {
    match s
    case Write(a) =>
      var k := Rob.SlotOf(a.p.ts, m.rob.value.interval);
      if Passes(m, a) && Buffers(m, a.p) && m.rob.value.newest < k then m.rob.value.Overtaken(k) else []
    case Collect(now, chunkMinTs, _, _) => if m.Collectable(now, chunkMinTs) then m.Buffered() else []
    case Saved(_) => []
  }

  /** From m to m' the chunks took some of the points, and all of them exactly if they had room. */
  ghost predicate TookIfRoom(m: Metric, pts: seq<Point>, m': Metric) {
    && |Flat(m'.tank.hist)| <= |Flat(m.tank.hist)| + |pts|
    && (Flat(m'.tank.hist) == Flat(m.tank.hist) + pts <==> Room(m.tank, pts))
    && (|Flat(m'.tank.hist)| == |Flat(m.tank.hist)| + |pts| <==> Room(m.tank, pts))
  }

  lemma NoneLeaving(m: Metric, m': Metric)
    requires Flat(m'.tank.hist) == Flat(m.tank.hist)
    ensures TookIfRoom(m, [], m')
  {
  }

  lemma SlideLeaves(m: Metric, k: int, val: Value, clock: int, primary: bool)
    requires m.Valid() && m.rob.Some? && Ordered(m.tank, m.Buffered())
    requires var w := m.rob.value; w.newest < k && k * w.interval < U32 && !w.RejectsAsTooOld(k)
    ensures forall p :: p in m.rob.value.Overtaken(k) ==> 0 < p.ts
    ensures var out := m.rob.value.Overtaken(k);
            TookIfRoom(m, out, m.Absorb(m.rob.value.Slid(k, val), out, clock, primary))
  {
    var w := m.rob.value;
    var w', out := w.Slid(k, val), w.Overtaken(k);
    PurgedPositive(w, k, val);
    Rob.SlideEffect(w, k, val);
    if out != [] {
      FrontOfBuffer(m.tank, w.Contents(), out, w'.Contents(), Point(k * w.interval, val));
      TakenExactly(m.(rob := Some(w')), out, clock, primary);
    }
  }

  /** What is overtaken is the front of the buffer, and so still in order with the chunks. */
  lemma FrontOfBuffer(t: Tank, buffered: seq<Point>, out: seq<Point>, rest: seq<Point>, q: Point)
    requires Ordered(t, buffered) && out + rest == buffered + [q] && |out| <= |buffered|
    ensures Ascending(Flat(t.hist) + out)
  {
    var all := Flat(t.hist) + buffered;
    assert out == (out + rest)[..|out|] == buffered[..|out|];
    assert Flat(t.hist) + out == all[..|Flat(t.hist)| + |out|];
  }

  lemma WriteLeaves(m: Metric, a: Arrival)
    requires m.Valid() && m.Ingestible(a.p) && m.rob.Some? && Ordered(m.tank, m.Buffered())
    ensures TookIfRoom(m, Leaving(m, Write(a)), m.Add(a.p, a.clock, a.enforceFuture, a.primary))
  {
    var w, k, m' := m.rob.value, Rob.SlotOf(a.p.ts, m.rob.value.interval),
                    m.Add(a.p, a.clock, a.enforceFuture, a.primary);
    Rob.AddExactly(w, k, a.p.val);
    Rob.InReachExact(w, k);
    if Passes(m, a) {
      AddPassed(m, a);
      if Buffers(m, a.p) && w.newest < k {
        SlideLeaves(m, k, a.p.val, a.clock, a.primary);
      } else {
        assert m'.tank == m.tank;
        NoneLeaving(m, m');
      }
    } else {
      AddStopped(m, a);
      NoneLeaving(m, m');
    }
  }

  lemma CollectLeaves(m: Metric, now: int, chunkMinTs: int, clock: int, primary: bool)
    requires m.Valid() && m.rob.Some? && Ordered(m.tank, m.Buffered())
    ensures TookIfRoom(m, Leaving(m, Collect(now, chunkMinTs, clock, primary)), m.GC(now, chunkMinTs, clock, primary))
  {
    if m.Collectable(now, chunkMinTs) {
      var w := m.rob.value;
      ContentsPositive(w);
      TakenExactly(m.(rob := Some(w.Reset())), w.Contents(), clock, primary);
      CloseKeeps(m.Drain(clock, primary).tank, primary);
    } else {
      NoneLeaving(m, m);
    }
  }

  /**
   * Main result for one step: all that leaves the window is taken by the chunks, exactly unless the current chunk
   * was closed and covers the first of these points.
   */
  lemma StepLeaves(m: Metric, s: Step)
    requires m.Valid() && Takes(m, s) && m.rob.Some? && Ordered(m.tank, m.Buffered())
    ensures TookIfRoom(m, Leaving(m, s), Do(m, s))
  {
    match s
    case Write(a) => WriteLeaves(m, a);
    case Collect(now, chunkMinTs, clock, primary) => CollectLeaves(m, now, chunkMinTs, clock, primary);
    case Saved(_) => NoneLeaving(m, Do(m, s));
  }

  // ---------------------------------------------------------------------------------------------
  // Whole lives

  /** All points that left the window, in that order. */
  ghost function AllLeaving(start: Metric, steps: seq<Step>): seq<Point>
    requires start.Valid() && (forall s :: s in steps ==> Takes(start, s)) && start.rob.Some?
    decreases |steps|
  {
    if steps == [] then []
    else
      var init, s := steps[..|steps| - 1], steps[|steps| - 1];
      assert s in steps;
      StillTakes(start, Life(start, init), s);
      AllLeaving(start, init) + Leaving(Life(start, init), s)
  }

  /** The chunks had room whenever points left the window. */
  ghost predicate AlwaysRoom(start: Metric, steps: seq<Step>)
    requires start.Valid() && (forall s :: s in steps ==> Takes(start, s)) && start.rob.Some?
    decreases |steps|
  {
    if steps == [] then true
    else
      var init, s := steps[..|steps| - 1], steps[|steps| - 1];
      assert s in steps;
      StillTakes(start, Life(start, init), s);
      AlwaysRoom(start, init) && Room(Life(start, init).tank, Leaving(Life(start, init), s))
  }

  ghost predicate KeptAll(start: Metric, out: seq<Point>, m: Metric, room: bool) {
    && |Flat(m.tank.hist)| <= |Flat(start.tank.hist)| + |out|
    && (Flat(m.tank.hist) == Flat(start.tank.hist) + out <==> room)
    && (|Flat(m.tank.hist)| == |Flat(start.tank.hist)| + |out| <==> room)
  }

  lemma KeptNext(start: Metric, out: seq<Point>, m: Metric, room: bool, next: seq<Point>, m': Metric)
    requires KeptAll(start, out, m, room) && TookIfRoom(m, next, m')
    ensures KeptAll(start, out + next, m', room && Room(m.tank, next))
  {
    Assoc(Flat(start.tank.hist), out, next);
  }

  /**
   * Main result. Over the life of a metric with no write out of time, the chunks hold all that left the reorder
   * window, in that order, exactly if they always had room for it.
   */
  lemma {:induction false} LifeLeaves(start: Metric, steps: seq<Step>)
    requires start.Valid() && (forall s :: s in steps ==> Takes(start, s)) && start.rob.Some?
    requires Ordered(start.tank, start.Buffered()) && AllTimely(start, steps)
    ensures KeptAll(start, AllLeaving(start, steps), Life(start, steps), AlwaysRoom(start, steps))
    decreases |steps|
  {
    if steps == [] {
      assert Flat(start.tank.hist) + [] == Flat(start.tank.hist);
    } else {
      var init, s := steps[..|steps| - 1], steps[|steps| - 1];
      assert s in steps;
      var m := Life(start, init);
      StillTakes(start, m, s);
      LifeLeaves(start, init);
      LifeOrder(start, init);
      StepLeaves(m, s);
      KeptNext(start, AllLeaving(start, init), m, AlwaysRoom(start, init), Leaving(m, s), Do(m, s));
    }
  }

  // ---------------------------------------------------------------------------------------------
  // The example of Lifetimes, with a point at 1010 instead of 500 after the flush: it is buffered, and lost when
  // garbage collection comes again, because the chunk from 600 to 1200 was closed.

  const NEXT := Point(1010, Num(3.0))
  const REBUFFERED := FLUSHED.(rob := Some(FLUSHED.rob.value.Slid(101, NEXT.val)), lastWrite := 10001)

  lemma ExampleNext()
    ensures FLUSHED.Valid() && FLUSHED.Ingestible(NEXT) && FLUSHED.Add(NEXT, 10001, false, false) == REBUFFERED
  {
    ExampleFlushedValid();
    FirstAdd(FLUSHED, NEXT, 10001);
  }

  lemma ExampleRefill(w: Rob.Window)
    requires w == Rob.Empty(2, 10, false)
    ensures w.Slid(101, NEXT.val).Valid() && w.Slid(101, NEXT.val).Contents() == [NEXT]
  {
    FirstInWindow(w, NEXT);
  }

  lemma ExampleRebuffered()
    ensures REBUFFERED.Valid() && REBUFFERED.Buffered() == [NEXT] && Ordered(REBUFFERED.tank, [NEXT])
  {
    ExampleFlushedValid();
    ExampleRefill(FLUSHED.rob.value);
    assert [LATE] + [NEXT] == [LATE, NEXT];
  }

  /** The point at 1010 is accepted, buffered, and then nowhere. */
  lemma LostAfterFlush()
    ensures FLUSHED.Valid() && FLUSHED.Ingestible(NEXT) && FLUSHED.Add(NEXT, 10001, false, false) == REBUFFERED
    ensures REBUFFERED.Valid() && REBUFFERED.Buffered() == [NEXT]
    ensures var m := REBUFFERED.GC(20000, 15000, 20000, false);
            Flat(m.tank.hist) == [LATE] && m.Buffered() == []
  {
    ExampleNext();
    ExampleRebuffered();
    var m := REBUFFERED.GC(20000, 15000, 20000, false);
    ExampleFlushedValid();
    CollectLeaves(REBUFFERED, 20000, 15000, 20000, false);
    CollectExactly(REBUFFERED, 20000, 15000, 20000, false);
    assert !Room(REBUFFERED.tank, [NEXT]);
    assert |Flat(m.tank.hist)| == 1;
  }
}
