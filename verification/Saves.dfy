/** What reaches the store over the life of a metric. */
module Saves {
  import Closings
  import opened Lifetimes
  import opened MetricRuns
  import opened MetricSteps
  import opened Metrics
  import opened Options
  import opened Points
  import Rob = ReorderBuffer
  import Runs = TankRuns
  import opened Tanks

  lemma ProperAppend(a: seq<Runs.Event>, b: seq<Runs.Event>)
    requires Runs.Proper(a) && Runs.Proper(b)
    ensures Runs.Proper(a + b)
  {
  }

  lemma {:induction false} RunAppend(t: Tank, a: seq<Runs.Event>, b: seq<Runs.Event>)
    requires t.Valid() && Runs.Proper(a) && Runs.Proper(b) && Runs.Proper(a + b)
    ensures Runs.Run(t, a + b) == Runs.Run(Runs.Run(t, a), b)
    decreases |b|
  {
    if b == [] {
      assert a + b == a;
    } else {
      var init := b[..|b| - 1];
      ProperAppend(a, init);
      RunAppend(t, a, init);
      assert (a + b)[..|a + b| - 1] == a + init;
    }
  }

  lemma OneEvent(t: Tank, e: Runs.Event)
    requires t.Valid() && (e.Add? ==> 0 < e.p.ts)
    ensures Runs.Proper([e]) && Runs.Run(t, [e]) == Runs.Apply(t, e)
  {
    Runs.RunNext(t, [], e);
    assert [] + [e] == [e];
  }

  /** The events that the points mean for the chunks. */
  function Adds(pts: seq<Point>, primary: bool): seq<Runs.Event> {
    if pts == [] then [] else Adds(pts[..|pts| - 1], primary) + [Runs.Add(pts[|pts| - 1], primary)]
  }

  lemma {:induction false} AddsDrive(m: Metric, pts: seq<Point>, clock: int, primary: bool)
    requires m.tank.Valid() && forall p :: p in pts ==> 0 < p.ts
    ensures Runs.Proper(Adds(pts, primary)) && (primary ==> Runs.PrimaryOnly(m.tank, Adds(pts, primary)))
    ensures m.TakeAll(pts, clock, primary).tank == Runs.Run(m.tank, Adds(pts, primary))
    decreases |pts|
  {
    if pts != [] {
      var init, p := pts[..|pts| - 1], pts[|pts| - 1];
      assert p in pts;
      AddsDrive(m, init, clock, primary);
      Runs.RunNext(m.tank, Adds(init, primary), Runs.Add(p, primary));
      assert Adds(pts, primary)[..|Adds(init, primary)|] == Adds(init, primary);
    }
  }

  /** The step is taken by the primary node, or tells it of a save of its own. */
  predicate ByPrimary(m: Metric, s: Step) {
    match s
    case Write(a) => a.primary
    case Collect(_, _, _, primary) => primary
    case Saved(t0) => t0 <= m.tank.lastSave
  }

  /** A life on a node that is the primary all along and hears of no saves but its own. */
  ghost predicate AllByPrimary(start: Metric, steps: seq<Step>)
    requires start.Valid() && forall s :: s in steps ==> Takes(start, s)
    decreases |steps|
  {
    steps == [] ||
    var init, s := steps[..|steps| - 1], steps[|steps| - 1];
    AllByPrimary(start, init) && ByPrimary(Life(start, init), s)
  }

  /** The chunks go through the events. */
  ghost predicate Driven(t: Tank, events: seq<Runs.Event>, t': Tank, primary: bool)
    requires t.Valid()
  {
    Runs.Proper(events) && Runs.Run(t, events) == t' && (primary ==> Runs.PrimaryOnly(t, events))
  }

  lemma DrivenOn(t: Tank, a: seq<Runs.Event>, t1: Tank, b: seq<Runs.Event>, t2: Tank, primary: bool)
    requires t.Valid() && t1.Valid() && Driven(t, a, t1, primary) && Driven(t1, b, t2, primary)
    ensures Driven(t, a + b, t2, primary)
  {
    ProperAppend(a, b);
    RunAppend(t, a, b);
    if primary {
      PrimaryAppend(t, a, b);
    }
  }

  lemma {:induction false} PrimaryAppend(t: Tank, a: seq<Runs.Event>, b: seq<Runs.Event>)
    requires t.Valid() && Runs.Proper(a) && Runs.Proper(b) && Runs.Proper(a + b)
    requires Runs.PrimaryOnly(t, a) && Runs.PrimaryOnly(Runs.Run(t, a), b)
    ensures Runs.PrimaryOnly(t, a + b)
    decreases |b|
  {
    if b == [] {
      assert a + b == a;
    } else {
      var init := b[..|b| - 1];
      ProperAppend(a, init);
      PrimaryAppend(t, a, init);
      RunAppend(t, a, init);
      assert (a + b)[..|a + b| - 1] == a + init;
    }
  }

  lemma WriteDrives(m: Metric, a: Arrival) returns (events: seq<Runs.Event>)
    requires m.Valid() && m.Ingestible(a.p)
    ensures Driven(m.tank, events, m.Add(a.p, a.clock, a.enforceFuture, a.primary).tank, a.primary)
  {
    events := [];
    if Passes(m, a) {
      if m.rob.None? {
        events := Adds([a.p], a.primary);
        AddsDrive(m, [a.p], a.clock, a.primary);
      } else {
        events := ReorderDrives(m, a.p, a.clock, a.primary);
      }
    }
  }

  lemma ReorderDrives(m: Metric, p: Point, clock: int, primary: bool) returns (events: seq<Runs.Event>)
    requires m.Valid() && m.Ingestible(p) && m.rob.Some?
    ensures Driven(m.tank, events, m.Reorder(p, clock, primary).tank, primary)
  {
    var w, k := m.rob.value, Rob.SlotOf(p.ts, m.rob.value.interval);
    var r := w.Add(k, p.val);
    events := [];
    PurgedPositive(w, k, p.val);
    if r.1.Accepted? && r.1.purged != [] {
      events := Adds(r.1.purged, primary);
      AddsDrive(m.(rob := Some(r.0)), r.1.purged, clock, primary);
    }
  }

  lemma DrainDrives(m: Metric, clock: int, primary: bool) returns (events: seq<Runs.Event>)
    requires m.Valid()
    ensures Driven(m.tank, events, m.Drain(clock, primary).tank, primary)
  {
    events := [];
    if m.rob.Some? {
      var w := m.rob.value;
      ContentsPositive(w);
      events := Adds(w.Contents(), primary);
      AddsDrive(m.(rob := Some(w.Reset())), w.Contents(), clock, primary);
    }
  }

  lemma CollectDrives(m: Metric, now: int, chunkMinTs: int, clock: int, primary: bool)
    returns (events: seq<Runs.Event>)
    requires m.Valid()
    ensures Driven(m.tank, events, m.GC(now, chunkMinTs, clock, primary).tank, primary)
  {
    events := [];
    if m.Collectable(now, chunkMinTs) {
      events := DrainDrives(m, clock, primary);
      var d, e := m.Drain(clock, primary), Runs.Close(primary);
      if d.tank.hist != [] && d.Collectable(now, chunkMinTs) {
        OneEvent(d.tank, e);
        DrivenOn(m.tank, events, d.tank, [e], d.tank.Close(primary), primary);
        events := events + [e];
      }
    }
  }

  /** Each step is a run of adds, closings and notices of the chunks. */
  lemma StepDrives(m: Metric, s: Step) returns (events: seq<Runs.Event>)
    requires m.Valid() && Takes(m, s)
    ensures Driven(m.tank, events, Do(m, s).tank, ByPrimary(m, s))
  {
    match s
    case Write(a) => events := WriteDrives(m, a);
    case Collect(now, chunkMinTs, clock, primary) => events := CollectDrives(m, now, chunkMinTs, clock, primary);
    case Saved(t0) =>
      events := [Runs.Notice(t0)];
      OneEvent(m.tank, Runs.Notice(t0));
  }

  /** The life of a metric is a run of its chunks. */
  lemma {:induction false} LifeDrives(start: Metric, steps: seq<Step>, primary: bool) returns (events: seq<Runs.Event>)
    requires start.Valid() && (forall s :: s in steps ==> Takes(start, s)) && (primary ==> AllByPrimary(start, steps))
    ensures Driven(start.tank, events, Life(start, steps).tank, primary)
    decreases |steps|
  {
    events := [];
    if steps != [] {
      var init, s := steps[..|steps| - 1], steps[|steps| - 1];
      assert s in steps;
      events := LifeDrives(start, init, primary);
      var m := Life(start, init);
      StillTakes(start, m, s);
      var more := StepDrives(m, s);
      DrivenOn(start.tank, events, m.tank, more, Do(m, s).tank, primary);
      events := events + more;
    }
  }

  ghost predicate Begins(start: Metric, steps: seq<Step>) {
    && start.Valid() && (forall s :: s in steps ==> Takes(start, s))
    && start.tank == Fresh(start.tank.cap, start.tank.span, start.tank.dropFirst)
  }

  /** Whatever happens to a metric, its chunks are sent once each, finished and in order of time. */
  lemma LifeSends(start: Metric, steps: seq<Step>)
    requires Begins(start, steps)
    ensures var t := Life(start, steps).tank;
            InOrder(t.sent) && (forall c :: c in t.sent ==> c.finished && c in t.hist) && t.SentFaithfully()
  {
    var t := start.tank;
    var events := LifeDrives(start, steps, false);
    Runs.SentInOrderOverRuns(t.cap, t.span, t.dropFirst, events);
  }

  /**
   * On a node that is the primary all along, with dropFirstChunk off, what was sent followed by the unsent current
   * chunk is all that the chunks ever took up, exactly unless that began less than one span after time 0 and went
   * past its first chunk.
   */
  lemma LifeNoLoss(start: Metric, steps: seq<Step>)
    requires Begins(start, steps) && !start.tank.dropFirst && AllByPrimary(start, steps)
    ensures var t := Life(start, steps).tank;
            var all := Flat(t.hist);
            && (Flat(t.sent) + Runs.Unsent(t) == all <==> !Runs.LeavesEpoch(all, start.tank.span))
            && (forall i :: Runs.Skipped(t) <= i < t.evicted ==> t.hist[i] in t.sent)
  {
    var t := start.tank;
    var events := LifeDrives(start, steps, true);
    Runs.SentInOrderOverRuns(t.cap, t.span, false, events);
    Runs.NoLoss(t.cap, t.span, events);
  }

  /**
   * When garbage collection finds a metric stale, on a node that is the primary all along and with dropFirstChunk off,
   * the window is empty and all that the chunks ever took up has been sent, exactly unless that began less than one
   * span after time 0.
   */
  lemma CollectedAllSent(start: Metric, steps: seq<Step>, now: int, chunkMinTs: int, clock: int)
    requires Begins(start, steps) && !start.tank.dropFirst && AllByPrimary(start, steps)
    requires Life(start, steps).Stale(now, chunkMinTs, clock, true)
    ensures var m := Life(start, steps).GC(now, chunkMinTs, clock, true);
            var all := Flat(m.tank.hist);
            && m.Buffered() == []
            && (Flat(m.tank.sent) == all <==> all == [] || start.tank.span <= all[0].ts)
  {
    var t, m := start.tank, Life(start, steps);
    var events := LifeDrives(start, steps, true);
    var more := DrainDrives(m, clock, true);
    var d := m.Drain(clock, true);
    DrainExactly(m, clock, true);
    CollectExactly(m, now, chunkMinTs, clock, true);
    DrivenOn(t, events, m.tank, more, d.tank, true);
    CloseKeeps(d.tank, true);
    Runs.SentInOrderOverRuns(t.cap, t.span, false, events + more);
    Closings.ClosedAllSent(t.cap, t.span, events + more);
  }

  // ---------------------------------------------------------------------------------------------
  // Without garbage collection

  function Arrivals(steps: seq<Step>): seq<Arrival> {
    if steps == [] then []
    else
      var s := steps[|steps| - 1];
      Arrivals(steps[..|steps| - 1]) + if s.Write? then [s.a] else []
  }

  /** A new metric on a node that is the primary all along, which takes writes and hears of its own saves. */
  ghost predicate WritesOnly(start: Metric, steps: seq<Step>) {
    && New(start) && (forall s :: s in steps ==> Takes(start, s) && !s.Collect?)
    && AllByPrimary(start, steps)
  }

  lemma {:induction false} ArrivalsArrive(start: Metric, steps: seq<Step>)
    requires New(start) && forall s :: s in steps ==> Takes(start, s)
    ensures Arriving(Arrivals(steps), start.rob.value.interval)
  {
    if steps != [] {
      ArrivalsArrive(start, steps[..|steps| - 1]);
      assert steps[|steps| - 1] in steps;
    }
  }

  lemma WritesPrefix(start: Metric, steps: seq<Step>)
    requires WritesOnly(start, steps) && steps != []
    ensures var init, s := steps[..|steps| - 1], steps[|steps| - 1];
            && WritesOnly(start, init) && !s.Collect? && Takes(Life(start, init), s) && ByPrimary(Life(start, init), s)
            && Life(start, steps) == Do(Life(start, init), s)
  {
    var init, s := steps[..|steps| - 1], steps[|steps| - 1];
    assert s in steps;
    StillTakes(start, Life(start, init), s);
  }

  lemma RunOfMore(start: Metric, arrivals: seq<Arrival>, a: Arrival)
    requires New(start) && Arriving(arrivals, start.rob.value.interval)
    requires Arriving(arrivals + [a], start.rob.value.interval)
    ensures var m := Run(start, arrivals);
            && m.Valid() && m.Ingestible(a.p)
            && Run(start, arrivals + [a]) == m.Add(a.p, a.clock, a.enforceFuture, a.primary)
  {
    var more := arrivals + [a];
    assert more[..|more| - 1] == arrivals;
    ArrivalStep(start, more, Run(start, arrivals));
  }

  /** Word of the node's own saves changes nothing, so that such a life is a run of the writes alone. */
  lemma {:induction false} LifeIsRun(start: Metric, steps: seq<Step>)
    requires WritesOnly(start, steps)
    ensures Arriving(Arrivals(steps), start.rob.value.interval)
    ensures Life(start, steps) == Run(start, Arrivals(steps))
    decreases |steps|
  {
    ArrivalsArrive(start, steps);
    if steps != [] {
      var init, s := steps[..|steps| - 1], steps[|steps| - 1];
      WritesPrefix(start, steps);
      LifeIsRun(start, init);
      if s.Write? {
        RunOfMore(start, Arrivals(init), s.a);
      } else {
        assert Arrivals(steps) == Arrivals(init);
      }
    }
  }

  /**
   * Main result. On a node that is the primary all along, what was sent, the unsent current chunk and the reorder
   * window together are every accepted point in time order, with the same exception.
   */
  lemma RunKeepsAll(start: Metric, steps: seq<Step>)
    requires WritesOnly(start, steps) && start.tank == Fresh(start.tank.cap, start.tank.span, false)
    ensures Arriving(Arrivals(steps), start.rob.value.interval)
    ensures KeepsAll(start, Arrivals(steps), Life(start, steps))
  {
    LifeIsRun(start, steps);
    NewBegins(start, steps);
    LifeNoLoss(start, steps);
    WithBuffer(start, Arrivals(steps), Life(start, steps));
  }

  ghost predicate KeepsAll(start: Metric, arrivals: seq<Arrival>, m: Metric)
    requires start.rob.Some? && Arriving(arrivals, start.rob.value.interval)
  {
    var h := Windowed(start, arrivals);
    Flat(m.tank.sent) + Runs.Unsent(m.tank) + m.Buffered()
    == Rob.Listing(h.accepted, h.window.interval, 1, h.window.newest + 1)
    <==> !Runs.LeavesEpoch(Flat(m.tank.hist), start.tank.span)
  }

  lemma NewBegins(start: Metric, steps: seq<Step>)
    requires WritesOnly(start, steps) && start.tank == Fresh(start.tank.cap, start.tank.span, false)
    ensures Begins(start, steps) && !start.tank.dropFirst && AllByPrimary(start, steps)
  {
  }

  lemma WithBuffer(start: Metric, arrivals: seq<Arrival>, m: Metric)
    requires New(start) && Arriving(arrivals, start.rob.value.interval) && m == Run(start, arrivals)
    requires Flat(m.tank.sent) + Runs.Unsent(m.tank) == Flat(m.tank.hist) <==>
             !Runs.LeavesEpoch(Flat(m.tank.hist), start.tank.span)
    ensures KeepsAll(start, arrivals, m)
  {
    NothingDiscarded(start, arrivals);
    SameFront(Flat(m.tank.sent) + Runs.Unsent(m.tank), Flat(m.tank.hist), m.Buffered());
  }

  lemma SameFront(a: seq<Point>, b: seq<Point>, rest: seq<Point>)
    ensures a + rest == b + rest <==> a == b
  {
    if a + rest == b + rest {
      assert |a| == |b|;
      assert a == (a + rest)[..|a|] && b == (b + rest)[..|b|];
    }
  }
}
