/** What one write, or one round of garbage collection, does to a metric. */
module MetricSteps {
  import opened Arith
  import opened MetricRuns
  import opened Metrics
  import opened Options
  import opened Points
  import Rob = ReorderBuffer
  import opened Seqs
  import opened Tanks

  /** Chunks take a point that is later than all others, unless the current chunk was closed and covers its time. */
  lemma AcceptsExactly(t: Tank, p: Point)
    requires t.Valid() && 0 < p.ts
    ensures t.Accepts(p) <==>
            t.hist == [] || (t.Last().LastTs() < p.ts && (!t.Last().finished || t.Last().t0 + t.span <= p.ts))
  {
    if t.hist != [] {
      var points := t.Last().points;
      ChainAt(t.hist, t.span, |t.hist| - 1);
      assert points[|points| - 1] in points;
      StartExact(t, p.ts);
      if t.Last().t0 < t.StartOf(p.ts) {
        MultiplesApart(t.Last().t0, t.StartOf(p.ts), t.span);
      } else if t.StartOf(p.ts) < t.Last().t0 {
        MultiplesApart(t.StartOf(p.ts), t.Last().t0, t.span);
      }
    }
  }

  /** The points that the chunks took from m to m'. */
  ghost function Gained(m: Metric, m': Metric): seq<Point>
    requires Flat(m.tank.hist) <= Flat(m'.tank.hist)
  {
    Flat(m'.tank.hist)[|Flat(m.tank.hist)|..]
  }

  /** What the chunks take is passed on to the aggregators and counts as a write; nothing else is and does. */
  ghost predicate Feeds(m: Metric, m': Metric, clock: int) {
    && Flat(m.tank.hist) <= Flat(m'.tank.hist)
    && m'.fed == m.fed + Gained(m, m')
    && m'.lastWrite == (if Gained(m, m') == [] then m.lastWrite else clock)
    && SameLimits(m, m')
  }

  lemma TakeFeeds(m: Metric, p: Point, clock: int, primary: bool)
    requires m.tank.Valid() && 0 < p.ts
    ensures var m' := m.Take(p, clock, primary);
            Feeds(m, m', clock) && Gained(m, m') == (if m.tank.Accepts(p) then [p] else [])
  {
    AddKeeps(m.tank, p, primary);
  }

  lemma FeedsOn(m: Metric, m1: Metric, m2: Metric, clock: int)
    requires Feeds(m, m1, clock) && Feeds(m1, m2, clock)
    ensures Feeds(m, m2, clock) && Gained(m, m2) == Gained(m, m1) + Gained(m1, m2)
  {
    assert Gained(m, m2) == Gained(m, m1) + Gained(m1, m2);
    Assoc(m.fed, Gained(m, m1), Gained(m1, m2));
  }

  lemma {:induction false} TakeAllFeeds(m: Metric, pts: seq<Point>, clock: int, primary: bool)
    requires m.tank.Valid() && forall p :: p in pts ==> 0 < p.ts
    ensures var m' := m.TakeAll(pts, clock, primary);
            Feeds(m, m', clock) && forall p :: p in Gained(m, m') ==> p in pts
    decreases |pts|
  {
    if pts != [] {
      var init, p := pts[..|pts| - 1], pts[|pts| - 1];
      assert p in pts;
      var m1 := m.TakeAll(init, clock, primary);
      TakeAllFeeds(m, init, clock, primary);
      TakeFeeds(m1, p, clock, primary);
      FeedsOn(m, m1, m1.Take(p, clock, primary), clock);
    }
  }

  // ---------------------------------------------------------------------------------------------
  // Writes

  /** A point that is older than what the chunks may hold, or too far in the future where that is refused. */
  predicate Stopped(m: Metric, a: Arrival) {
    a.p.ts < m.ingestFromT0 || (a.enforceFuture && a.clock + m.futureTolerance < a.p.ts)
  }

  lemma PassesExactly(m: Metric, a: Arrival)
    requires 0 <= a.clock
    ensures Passes(m, a) <==> !Stopped(m, a)
  {
  }

  /** A point that is stopped changes nothing, except that a too old one still goes to the aggregators. */
  lemma StoppedExactly(m: Metric, a: Arrival)
    requires m.Valid() && m.Ingestible(a.p) && 0 <= a.clock && Stopped(m, a)
    ensures m.Add(a.p, a.clock, a.enforceFuture, a.primary)
            == if a.p.ts < m.ingestFromT0 then m.(fed := m.fed + [a.p]) else m
  {
  }

  /** Without a reorder window, a point that is not stopped goes to the chunks, if these accept it. */
  lemma DirectExactly(m: Metric, a: Arrival)
    requires m.Valid() && m.Ingestible(a.p) && 0 <= a.clock && !Stopped(m, a) && m.rob.None?
    ensures var m' := m.Add(a.p, a.clock, a.enforceFuture, a.primary);
            && Feeds(m, m', a.clock) && m'.rob == m.rob
            && Gained(m, m') == (if m.tank.Accepts(a.p) then [a.p] else [])
  {
    assert [a.p][..0] == [];
    assert m.TakeAll([a.p][..0], a.clock, a.primary) == m;
    TakeFeeds(m, a.p, a.clock, a.primary);
  }

  /** The window takes the point. */
  ghost predicate Buffers(m: Metric, p: Point)
    requires m.Ingestible(p) && m.rob.Some?
  {
    var w, k := m.rob.value, Rob.SlotOf(p.ts, m.rob.value.interval);
    Rob.InReach(w, k) && (k !in w.slots || w.allowUpdate)
  }

  /** The points of the window that fall out of it when slot k is taken. */
  ghost predicate FellOut(p: Point, w: Rob.Window, k: int) {
    exists j :: j in w.slots && j <= k - w.size && p == Point(j * w.interval, w.slots[j])
  }

  lemma {:induction false} ListingSource(w: Rob.Window, a: int, b: int, p: Point)
    requires p in Rob.Listing(w.slots, w.interval, a, b)
    ensures exists j :: j in w.slots && a <= j < b && p == Point(j * w.interval, w.slots[j])
    decreases b - a
  {
    if p in Rob.Listing(w.slots, w.interval, a, b - 1) {
      ListingSource(w, a, b - 1, p);
    } else {
      assert p in Rob.Cell(w.slots, w.interval, b - 1);
    }
  }

  lemma OvertakenFellOut(w: Rob.Window, k: int, p: Point)
    requires w.Valid() && w.newest < k
    ensures p in w.Overtaken(k) <==> FellOut(p, w, k)
  {
    if p in w.Overtaken(k) {
      ListingSource(w, w.newest - w.size + 1, k - w.size + 1, p);
    }
    if FellOut(p, w, k) {
      var j :| j in w.slots && j <= k - w.size && p == Point(j * w.interval, w.slots[j]);
      Rob.ListingFinds(w.slots, w.interval, w.newest - w.size + 1, k - w.size + 1, j);
    }
  }

  lemma PurgedFellOut(w: Rob.Window, k: int, val: Value)
    requires w.Valid() && 0 < k && w.Add(k, val).1.Accepted?
    ensures forall p :: p in w.Add(k, val).1.purged <==> FellOut(p, w, k)
  {
    forall p
      ensures p in w.Add(k, val).1.purged <==> FellOut(p, w, k)
    {
      if w.newest < k {
        OvertakenFellOut(w, k, p);
      }
    }
  }

  /** What taking a point in the window means for the rest of the metric. */
  ghost predicate Absorbed(m: Metric, m': Metric, k: int, clock: int)
    requires m.rob.Some?
  {
    && Flat(m.tank.hist) <= Flat(m'.tank.hist) && m'.fed == m.fed + Gained(m, m')
    && (forall p :: p in Gained(m, m') ==> FellOut(p, m.rob.value, k))
    && m'.lastWrite == if Gained(m, m') == [] && (exists p :: FellOut(p, m.rob.value, k)) then m.lastWrite else clock
  }

  lemma AbsorbExactly(m: Metric, w: Rob.Window, k: int, purged: seq<Point>, clock: int, primary: bool)
    requires m.tank.Valid() && m.rob.Some? && forall p :: p in purged ==> 0 < p.ts
    requires forall p :: p in purged <==> FellOut(p, m.rob.value, k)
    ensures var m' := m.Absorb(w, purged, clock, primary); m'.rob == Some(w) && Absorbed(m, m', k, clock)
  {
    if purged == [] {
      assert Flat(m.tank.hist)[|Flat(m.tank.hist)|..] == [];
    } else {
      assert purged[0] in purged && FellOut(purged[0], m.rob.value, k);
      TakeAllFeeds(m.(rob := Some(w)), purged, clock, primary);
    }
  }

  /**
   * With a reorder window, a point that is not stopped is put in its slot exactly if the window takes it, and only
   * points that fell out of the window go to the chunks. It counts as a write if none fell out, or one was taken.
   */
  lemma ReorderExactly(m: Metric, a: Arrival)
    requires m.Valid() && m.Ingestible(a.p) && 0 <= a.clock && !Stopped(m, a) && m.rob.Some?
    ensures var m' := m.Add(a.p, a.clock, a.enforceFuture, a.primary);
            var w, k := m.rob.value, Rob.SlotOf(a.p.ts, m.rob.value.interval);
            && (!Buffers(m, a.p) ==> m' == m)
            && (Buffers(m, a.p) ==>
                  m'.rob.Some? && Rob.Wrote(w, k, a.p.val, m'.rob.value) && Absorbed(m, m', k, a.clock))
  {
    var w, k := m.rob.value, Rob.SlotOf(a.p.ts, m.rob.value.interval);
    AddPassed(m, a);
    Rob.AddExactly(w, k, a.p.val);
    PurgedPositive(w, k, a.p.val);
    if Buffers(m, a.p) {
      PurgedFellOut(w, k, a.p.val);
      AbsorbExactly(m, w.Add(k, a.p.val).0, k, w.Add(k, a.p.val).1.purged, a.clock, a.primary);
    }
  }

  // ---------------------------------------------------------------------------------------------
  // Garbage collection

  /** No point that comes at most 15 minutes late can belong to the current chunk. */
  ghost predicate Inactive(t: Tank, now: int)
    requires 0 < t.span
  {
    t.hist == [] || forall ts :: 0 <= ts && now - 15 * 60 - 1 <= ts ==> t.Last().t0 < t.StartOf(ts)
  }

  lemma InactiveIs(t: Tank, now: int)
    requires t.Valid()
    ensures Inactive(t, now) <==> t.hist == [] || t.Last().t0 + t.span + 15 * 60 < now
  {
    if t.hist != [] {
      var late := now - 15 * 60 - 1;
      ChainAt(t.hist, t.span, |t.hist| - 1);
      forall ts | 0 <= ts
        ensures t.Last().t0 < t.StartOf(ts) <==> t.Last().t0 + t.span <= ts
      {
        StartsLater(t, ts);
      }
      assert 0 <= late ==> (t.Last().t0 < t.StartOf(late) <==> t.Last().t0 + t.span <= late);
      assert t.StartOf(0) == 0;
    }
  }

  /** A metric can be collected exactly if it was not written to lately and its current chunk is not active. */
  lemma CollectableExactly(m: Metric, now: int, chunkMinTs: int)
    requires m.tank.Valid()
    ensures m.Collectable(now, chunkMinTs) <==> m.lastWrite < chunkMinTs && Inactive(m.tank, now)
  {
    InactiveIs(m.tank, now);
  }

  lemma StartsLater(t: Tank, ts: int)
    requires t.Valid() && t.hist != [] && 0 <= ts
    ensures t.Last().t0 < t.StartOf(ts) <==> t.Last().t0 + t.span <= ts
  {
    ChainAt(t.hist, t.span, |t.hist| - 1);
    StartExact(t, ts);
    if t.Last().t0 < t.StartOf(ts) {
      MultiplesApart(t.Last().t0, t.StartOf(ts), t.span);
    }
  }

  /** The window is emptied, and the chunks take points of it only; this does not count as a write. */
  ghost predicate Drained(m: Metric, m': Metric) {
    && m'.Buffered() == [] && m'.lastWrite == m.lastWrite
    && Flat(m.tank.hist) <= Flat(m'.tank.hist) && m'.fed == m.fed + Gained(m, m')
    && forall p :: p in Gained(m, m') ==> p in m.Buffered()
  }

  lemma DrainExactly(m: Metric, clock: int, primary: bool)
    requires m.Valid()
    ensures m.Drain(clock, primary).tank.Valid() && Drained(m, m.Drain(clock, primary))
  {
    if m.rob.Some? {
      var w := m.rob.value;
      ContentsPositive(w);
      Rob.ResetContents(w);
      TakeAllFeeds(m.(rob := Some(w.Reset())), w.Contents(), clock, primary);
    }
  }

  /** Garbage collection drains a metric that can be collected, and changes nothing of another. */
  lemma CollectExactly(m: Metric, now: int, chunkMinTs: int, clock: int, primary: bool)
    requires m.Valid()
    ensures var m' := m.GC(now, chunkMinTs, clock, primary);
            if m.Collectable(now, chunkMinTs) then Drained(m, m') else m' == m
  {
    if m.Collectable(now, chunkMinTs) {
      DrainExactly(m, clock, primary);
      CloseKeeps(m.Drain(clock, primary).tank, primary);
    }
  }

  /** The chunks are as they were if they took nothing, and the current one is open if they took something. */
  ghost predicate OpenIfGained(m: Metric, m': Metric)
    requires Flat(m.tank.hist) <= Flat(m'.tank.hist)
  {
    if Gained(m, m') == [] then m'.tank == m.tank else m'.tank.hist != [] && !m'.tank.Last().finished
  }

  lemma TakeOpens(m: Metric, m1: Metric, p: Point, clock: int, primary: bool)
    requires m1.tank.Valid() && 0 < p.ts && Feeds(m, m1, clock) && OpenIfGained(m, m1)
    ensures var m2 := m1.Take(p, clock, primary); Feeds(m, m2, clock) && OpenIfGained(m, m2)
  {
    TakeFeeds(m1, p, clock, primary);
    FeedsOn(m, m1, m1.Take(p, clock, primary), clock);
  }

  lemma {:induction false} TakeAllOpens(m: Metric, pts: seq<Point>, clock: int, primary: bool)
    requires m.tank.Valid() && forall p :: p in pts ==> 0 < p.ts
    ensures var m' := m.TakeAll(pts, clock, primary); Feeds(m, m', clock) && OpenIfGained(m, m')
    decreases |pts|
  {
    if pts != [] {
      var init, p := pts[..|pts| - 1], pts[|pts| - 1];
      assert p in pts;
      TakeAllOpens(m, init, clock, primary);
      TakeOpens(m, m.TakeAll(init, clock, primary), p, clock, primary);
    }
  }

  lemma DrainOpens(m: Metric, clock: int, primary: bool)
    requires m.Valid()
    ensures Flat(m.tank.hist) <= Flat(m.Drain(clock, primary).tank.hist) && OpenIfGained(m, m.Drain(clock, primary))
  {
    if m.rob.Some? {
      var w := m.rob.value;
      ContentsPositive(w);
      TakeAllOpens(m.(rob := Some(w.Reset())), w.Contents(), clock, primary);
    }
  }

  lemma CloseInactive(t: Tank, primary: bool, now: int)
    requires t.Valid() && t.hist != []
    ensures var t' := t.Close(primary);
            t'.hist != [] && t'.span == t.span && t'.Last().finished && (Inactive(t', now) <==> Inactive(t, now))
  {
    CloseKeeps(t, primary);
    InactiveIs(t, now);
    InactiveIs(t.Close(primary), now);
  }

  /** After garbage collection of a collectable metric, its current chunk is closed exactly if it is not active. */
  lemma ClosesExactly(m: Metric, now: int, chunkMinTs: int, clock: int, primary: bool)
    requires m.Valid() && m.Collectable(now, chunkMinTs)
    ensures var t := m.GC(now, chunkMinTs, clock, primary).tank;
            t.Valid() && (t.hist != [] ==> (t.Last().finished <==> Inactive(t, now)))
  {
    var d := m.Drain(clock, primary);
    DrainExactly(m, clock, primary);
    DrainOpens(m, clock, primary);
    CollectableExactly(m, now, chunkMinTs);
    CollectableExactly(d, now, chunkMinTs);
    CloseKeeps(d.tank, primary);
    if d.tank.hist != [] {
      CloseInactive(d.tank, primary, now);
    }
  }
}
