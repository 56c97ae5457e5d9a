/** A metric over its whole life: points come in, garbage collection empties the window, other nodes report saves. */
module Lifetimes {
  import opened Arith
  import opened MetricRuns
  import opened Metrics
  import opened Options
  import opened Points
  import opened Quantize
  import Rob = ReorderBuffer
  import opened TankQuery
  import opened Tanks

  datatype Step =
    | Write(a: Arrival)
    | Collect(now: int, chunkMinTs: int, clock: int, primary: bool)
    | Saved(t0: int)

  ghost predicate Takes(m: Metric, s: Step) {
    s.Write? ==> m.Ingestible(s.a.p)
  }

  ghost predicate SameGrid(m: Metric, m': Metric) {
    m'.rob.Some? == m.rob.Some? && (m.rob.Some? ==> m'.rob.value.interval == m.rob.value.interval)
  }

  lemma WindowKeeps(w: Rob.Window, k: int, val: Value)
    requires w.Valid() && 0 < k && k * w.interval < U32
    ensures w.Add(k, val).0.Valid() && w.Add(k, val).0.interval == w.interval
  {
    if !w.RejectsAsTooOld(k) {
      Rob.NotTooOld(w, k);
      if w.newest < k {
        Rob.SlideEffect(w, k, val);
      } else {
        Rob.PlaceEffect(w, k, val);
      }
    }
  }

  lemma ReorderKeeps(m: Metric, p: Point, clock: int, primary: bool)
    requires m.Valid() && m.Ingestible(p) && m.rob.Some?
    ensures m.Reorder(p, clock, primary).Valid() && SameGrid(m, m.Reorder(p, clock, primary))
  {
    WindowKeeps(m.rob.value, Rob.SlotOf(p.ts, m.rob.value.interval), p.val);
  }

  lemma CollectKeeps(m: Metric, now: int, chunkMinTs: int, clock: int, primary: bool)
    requires m.Valid()
    ensures var m' := m.GC(now, chunkMinTs, clock, primary);
            m'.Valid() && SameGrid(m, m') && (m'.Buffered() == [] || (m'.Buffered() == m.Buffered() && m'.tank == m.tank))
  {
    if m.Collectable(now, chunkMinTs) {
      CloseKeeps(m.Drain(clock, primary).tank, primary);
      if m.rob.Some? {
        Rob.ResetContents(m.rob.value);
      }
    }
  }

  ghost function Do(m: Metric, s: Step): (m': Metric)
    requires m.Valid() && Takes(m, s)
    ensures m'.Valid() && SameGrid(m, m')
  {
    match s
    case Write(a) =>
      if m.rob.Some? then ReorderKeeps(m, a.p, a.clock, a.primary); m.Add(a.p, a.clock, a.enforceFuture, a.primary)
      else m.Add(a.p, a.clock, a.enforceFuture, a.primary)
    case Collect(now, chunkMinTs, clock, primary) =>
      CollectKeeps(m, now, chunkMinTs, clock, primary);
      m.GC(now, chunkMinTs, clock, primary)
    case Saved(t0) => m.(tank := m.tank.Notice(t0))
  }

  ghost function Life(start: Metric, steps: seq<Step>): (m: Metric)
    requires start.Valid() && forall s :: s in steps ==> Takes(start, s)
    ensures m.Valid() && SameGrid(start, m)
    decreases |steps|
  {
    if steps == [] then start
    else
      var s := steps[|steps| - 1];
      assert s in steps;
      var m := Life(start, steps[..|steps| - 1]);
      StillTakes(start, m, s);
      Do(m, s)
  }

  lemma StillTakes(m: Metric, m': Metric, s: Step)
    requires Takes(m, s) && SameGrid(m, m')
    ensures Takes(m', s)
  {
  }

  // ---------------------------------------------------------------------------------------------
  // The order of chunks and buffer

  lemma FirstIsLeast(s: seq<Point>)
    requires Ascending(s) && s != []
    ensures forall p :: p in s ==> s[0].ts <= p.ts
  {
    forall p | p in s
      ensures s[0].ts <= p.ts
    {
      var i :| 0 <= i < |s| && s[i] == p;
    }
  }

  /** Chunks are in order with later points exactly if the last chunk point is before the first of these. */
  lemma OrderedIff(t: Tank, s: seq<Point>)
    requires t.Valid() && Ascending(s) && s != []
    ensures Ordered(t, s) <==> t.hist == [] || t.Last().LastTs() < s[0].ts
  {
    var all := Flat(t.hist);
    if t.hist == [] {
      assert all + s == s;
    } else {
      HistEnds(t);
      FirstIsLeast(s);
      if t.Last().LastTs() < s[0].ts {
        LastIsMax(all);
        AscendingConcat(all, s, all[|all| - 1].ts);
      } else {
        assert (all + s)[|all| - 1] == all[|all| - 1] && (all + s)[|all|] == s[0];
      }
    }
  }

  lemma HistEnds(t: Tank)
    requires t.Valid() && t.hist != []
    ensures var all := Flat(t.hist); Ascending(all) && all != [] && all[|all| - 1].ts == t.Last().LastTs()
  {
    ChainAt(t.hist, t.span, |t.hist| - 1);
    HistAscending(t);
  }

  lemma OrderedEmpty(t: Tank)
    requires t.Valid()
    ensures Ordered(t, [])
  {
    HistAscending(t);
    assert Flat(t.hist) + [] == Flat(t.hist);
  }

  lemma ContentsAscending(w: Rob.Window)
    requires w.Valid()
    ensures Ascending(w.Contents())
    ensures forall p :: p in w.Contents() ==> p.ts < (w.newest + 1) * w.interval
  {
    Rob.ListingAscending(w.slots, w.interval, w.newest - w.size + 1, w.newest + 1);
  }

  /** A point written inside the window keeps the order, unless it opens a slot at or before the last chunk point. */
  lemma PlaceOrder(t: Tank, w: Rob.Window, k: int, val: Value)
    requires t.Valid() && w.Valid() && w.newest - w.size < k <= w.newest && 0 < k && Ordered(t, w.Contents())
    ensures Ordered(t, w.(slots := w.slots[k := val]).Contents()) <==>
            k in w.slots || t.hist == [] || t.Last().LastTs() < k * w.interval
  {
    var w' := w.(slots := w.slots[k := val]);
    var front := Rob.Listing(w.slots, w.interval, w.newest - w.size + 1, k);
    Rob.PlaceEffect(w, k, val);
    ContentsAscending(w);
    ContentsAscending(w');
    OrderedIff(t, w'.Contents());
    if w.Contents() != [] {
      OrderedIff(t, w.Contents());
    }
    if front != [] {
      Rob.ListingAscending(w.slots, w.interval, w.newest - w.size + 1, k);
      assert front[0] in front;
      assert w.Contents()[0] == front[0] == w'.Contents()[0];
    } else {
      assert w'.Contents()[0].ts == k * w.interval;
    }
  }

  lemma AppendOrder(t: Tank, s: seq<Point>, q: Point)
    requires t.Valid() && Ascending(s) && Ordered(t, s) && forall p :: p in s ==> p.ts < q.ts
    ensures Ordered(t, s + [q]) <==> t.hist == [] || t.Last().LastTs() < q.ts
    ensures s != [] ==> Ordered(t, s + [q])
  {
    AscendingConcat(s, [q], q.ts - 1);
    OrderedIff(t, s + [q]);
    if s != [] {
      OrderedIff(t, s);
      assert s[0] in s && (s + [q])[0] == s[0];
    } else {
      assert s + [q] == [q];
    }
  }

  lemma TakenOne(m: Metric, p: Point, clock: int, primary: bool)
    requires m.tank.Valid() && 0 < p.ts
    ensures forall q :: q in Flat(m.Take(p, clock, primary).tank.hist) ==> q in Flat(m.tank.hist) || q == p
  {
    AddKeeps(m.tank, p, primary);
  }

  lemma {:induction false} TakenFrom(m: Metric, pts: seq<Point>, clock: int, primary: bool)
    requires m.tank.Valid() && forall p :: p in pts ==> 0 < p.ts
    ensures forall q :: q in Flat(m.TakeAll(pts, clock, primary).tank.hist) ==> q in Flat(m.tank.hist) || q in pts
    decreases |pts|
  {
    if pts != [] {
      var init, p := pts[..|pts| - 1], pts[|pts| - 1];
      assert p in pts;
      TakenFrom(m, init, clock, primary);
      TakenOne(m.TakeAll(init, clock, primary), p, clock, primary);
    }
  }

  /** What falls out of the window may be discarded, but nothing comes after what stays in it. */
  lemma TakeOrder(m: Metric, pts: seq<Point>, rest: seq<Point>, clock: int, primary: bool)
    requires m.tank.Valid() && forall p :: p in pts ==> 0 < p.ts
    requires rest != [] && Ascending(Flat(m.tank.hist) + (pts + rest))
    ensures Ordered(m.TakeAll(pts, clock, primary).tank, rest)
  {
    var t := m.TakeAll(pts, clock, primary).tank;
    var all := Flat(m.tank.hist) + pts;
    assert all + rest == Flat(m.tank.hist) + (pts + rest);
    TakenFrom(m, pts, clock, primary);
    OrderedApart(all, rest);
    HistAscending(t);
    AscendingEnd(all, rest);
    AscendingConcat(Flat(t.hist), rest, rest[0].ts - 1);
  }

  lemma AscendingEnd(a: seq<Point>, b: seq<Point>)
    requires Ascending(a + b)
    ensures Ascending(b)
  {
    forall i, j | 0 <= i < j < |b|
      ensures b[i].ts < b[j].ts
    {
      assert (a + b)[|a| + i] == b[i] && (a + b)[|a| + j] == b[j];
    }
  }

  lemma SlideOrder(m: Metric, k: int, val: Value, clock: int, primary: bool)
    requires m.Valid() && m.rob.Some? && Ordered(m.tank, m.Buffered())
    requires var w := m.rob.value; w.newest < k && k * w.interval < U32 && !w.RejectsAsTooOld(k)
    ensures forall p :: p in m.rob.value.Overtaken(k) ==> 0 < p.ts
    ensures var m' := m.Absorb(m.rob.value.Slid(k, val), m.rob.value.Overtaken(k), clock, primary);
            Ordered(m'.tank, m'.Buffered()) <==>
            m.tank.hist == [] || m.tank.Last().LastTs() < k * m.rob.value.interval
  {
    var w, q := m.rob.value, Point(k * m.rob.value.interval, val);
    var w', purged := w.Slid(k, val), w.Overtaken(k);
    PurgedPositive(w, k, val);
    Rob.SlideEffect(w, k, val);
    ContentsAscending(w);
    Rob.ScaleOrder(w.newest, k, w.interval);
    EarlierSlots(w, k);
    AppendOrder(m.tank, w.Contents(), q);
    Rob.ListingFinds(w'.slots, w'.interval, k - w.size + 1, k + 1, k);
    if purged == [] {
      assert w'.Contents() == w.Contents() + [q];
    } else {
      assert w.Contents() != [];
      TakeOrder(m.(rob := Some(w')), purged, w'.Contents(), clock, primary);
    }
  }

  lemma EarlierSlots(w: Rob.Window, k: int)
    requires w.Valid() && w.newest < k
    ensures forall p :: p in w.Contents() ==> p.ts < k * w.interval
  {
    ContentsAscending(w);
    ProductMonotone(w.newest + 1, k, w.interval);
  }

  /** The point is refused, replaces one, or rounds to a time after the last chunk point. */
  ghost predicate InTime(m: Metric, p: Point)
    requires m.Valid() && m.rob.Some? && m.Ingestible(p)
  {
    var w, k := m.rob.value, Rob.SlotOf(p.ts, m.rob.value.interval);
    || !w.Add(k, p.val).1.Accepted? || k in w.slots
    || m.tank.hist == [] || m.tank.Last().LastTs() < AggBoundary(p.ts, w.interval)
  }

  /** A write keeps the order exactly if its point is in time. */
  lemma ReorderOrder(m: Metric, p: Point, clock: int, primary: bool)
    requires m.Valid() && m.Ingestible(p) && m.rob.Some? && Ordered(m.tank, m.Buffered())
    ensures var m' := m.Reorder(p, clock, primary); Ordered(m'.tank, m'.Buffered()) <==> InTime(m, p)
  {
    var w, k := m.rob.value, Rob.SlotOf(p.ts, m.rob.value.interval);
    if w.RejectsAsTooOld(k) || (k in w.slots && !w.allowUpdate) {
    } else if k <= w.newest {
      Rob.NotTooOld(w, k);
      PlaceOrder(m.tank, w, k, p.val);
    } else {
      SlideOrder(m, k, p.val, clock, primary);
    }
  }

  /** The step does not bring a point into the window that is out of time. */
  ghost predicate Timely(m: Metric, s: Step)
    requires m.Valid() && Takes(m, s)
  {
    s.Write? && m.rob.Some? && Passes(m, s.a) ==> InTime(m, s.a.p)
  }

  /** Garbage collection and notices always keep the order, and a write does exactly if its point is in time. */
  lemma StepOrder(m: Metric, s: Step)
    requires m.Valid() && Takes(m, s) && Ordered(m.tank, m.Buffered())
    ensures Ordered(Do(m, s).tank, Do(m, s).Buffered()) <==> Timely(m, s)
  {
    match s
    case Write(a) =>
      if m.rob.None? {
        OrderedEmpty(Do(m, s).tank);
      } else if Passes(m, a) {
        AddPassed(m, a);
        ReorderOrder(m, a.p, a.clock, a.primary);
      } else {
        AddStopped(m, a);
      }
    case Collect(now, chunkMinTs, clock, primary) =>
      CollectKeeps(m, now, chunkMinTs, clock, primary);
      OrderedEmpty(Do(m, s).tank);
    case Saved(t0) =>
  }

  ghost predicate AllTimely(start: Metric, steps: seq<Step>)
    requires start.Valid() && forall s :: s in steps ==> Takes(start, s)
    decreases |steps|
  {
    if steps == [] then true
    else
      var init, s := steps[..|steps| - 1], steps[|steps| - 1];
      assert s in steps;
      StillTakes(start, Life(start, init), s);
      AllTimely(start, init) && Timely(Life(start, init), s)
  }

  lemma {:induction false} LifeOrder(start: Metric, steps: seq<Step>)
    requires start.Valid() && forall s :: s in steps ==> Takes(start, s)
    requires Ordered(start.tank, start.Buffered()) && AllTimely(start, steps)
    ensures Ordered(Life(start, steps).tank, Life(start, steps).Buffered())
    decreases |steps|
  {
    if steps != [] {
      var init, s := steps[..|steps| - 1], steps[|steps| - 1];
      assert s in steps;
      LifeOrder(start, init);
      StepOrder(Life(start, init), s);
    }
  }

  /**
   * Main result. At any time in the life of a metric, an answer holds only points of the range, and misses some
   * exactly if the buffer starts at or before the range and the chunks have points there that are not buffered.
   * If no write was out of time, the answer is complete and in time order.
   */
  lemma LifeAnswers(start: Metric, steps: seq<Step>, from: int, to: int)
    requires start.Valid() && (forall s :: s in steps ==> Takes(start, s)) && 0 <= from < to
    ensures var m := Life(start, steps);
            var r, all := Answered(m.tank, m.Buffered(), from, to), Flat(m.tank.hist) + m.Buffered();
            && r.Result?
            && (forall p :: p in Held(r, from, to) ==> p in In(all, from, to))
            && (Complete(r, all, from, to) <==>
                m.Buffered() == [] || from < m.Buffered()[0].ts || Repeated(m.tank, m.Buffered(), from, to))
            && (Ordered(start.tank, start.Buffered()) && AllTimely(start, steps) ==>
                Ascending(all) && Held(r, from, to) == In(all, Max(from, r.oldest), to))
  {
    var m := Life(start, steps);
    AnswerExactly(m.tank, m.Buffered(), from, to);
    if Ordered(start.tank, start.Buffered()) && AllTimely(start, steps) {
      LifeOrder(start, steps);
      AnswerComplete(m.tank, m.Buffered(), from, to);
    }
  }

  // ---------------------------------------------------------------------------------------------
  // After a flush

  /**
   * Garbage collection empties the window, which then takes a point of any age. The order of chunks and buffer
   * survives exactly if that point rounds to a time after the last chunk point.
   */
  lemma OrderAfterFlush(m: Metric, p: Point, clock: int, primary: bool)
    requires m.Valid() && m.rob.Some? && m.rob.value.newest == 0 && m.Ingestible(p)
    ensures m.Reorder(p, clock, primary).tank == m.tank
    ensures Ordered(m.tank, m.Reorder(p, clock, primary).Buffered()) <==>
            m.tank.hist == [] || m.tank.Last().LastTs() < AggBoundary(p.ts, m.rob.value.interval)
  {
    var k := Rob.SlotOf(p.ts, m.rob.value.interval);
    EmptyWindow(m.rob.value, k, p.val);
    OrderedEmpty(m.tank);
    ReorderOrder(m, p, clock, primary);
  }

  lemma EmptyWindow(w: Rob.Window, k: int, val: Value)
    requires w.Valid() && w.newest == 0 && 0 < k
    ensures w.Contents() == [] && k !in w.slots
    ensures w.Add(k, val) == (w.Slid(k, val), Rob.Accepted([]))
  {
    Rob.ListingEmpty(w.slots, w.interval, w.newest - w.size + 1, w.newest + 1);
    Rob.ListingEmpty(w.slots, w.interval, w.newest - w.size + 1, k - w.size + 1);
  }

  // An example with a window of two 10-second slots and chunks of 600 seconds: a point at 1000 is buffered,
  // garbage collection moves it to a chunk, and then a point at 500 is buffered.
  const LATE := Point(1000, Num(1.0))
  const EARLY := Point(500, Num(2.0))
  const FRESH := Metric(Fresh(2, 600, false), Some(Rob.Empty(2, 10, false)), [], 0, 0, 0)
  const BUFFERED := FRESH.(rob := Some(Rob.Window(2, 10, false, 100, map[100 := LATE.val])), lastWrite := 1000)
  const FLUSHED := Metric(Tank(2, 600, false, [Chunk(600, [LATE], true, true)], 0, 0, 1000, []),
                          Some(Rob.Empty(2, 10, false)), [LATE], 1000, 0, 0)

  /** The first point after a window was emptied is buffered. */
  lemma FirstAdd(m: Metric, p: Point, clock: int)
    requires m.Valid() && m.Ingestible(p) && m.rob.Some? && m.rob.value.newest == 0 && m.ingestFromT0 <= p.ts
    requires p.ts % m.rob.value.interval == 0
    ensures m.Add(p, clock, false, false)
            == m.(rob := Some(m.rob.value.Slid(p.ts / m.rob.value.interval, p.val)), lastWrite := clock)
  {
    FirstInWindow(m.rob.value, p);
  }

  lemma ExampleSlide(w: Rob.Window, val: Value)
    requires w == Rob.Empty(2, 10, false)
    ensures w.Slid(100, val) == Rob.Window(2, 10, false, 100, map[100 := val])
  {
    assert Rob.Later(map[], 98) == map[];
  }

  lemma ExampleWindow()
    ensures FRESH.rob.value.Valid() && FRESH.rob.value.Slid(100, LATE.val) == BUFFERED.rob.value
    ensures BUFFERED.rob.value.Valid() && BUFFERED.rob.value.Contents() == [LATE]
  {
    ExampleSlide(FRESH.rob.value, LATE.val);
    FirstInWindow(FRESH.rob.value, LATE);
  }

  lemma ExampleAdd()
    ensures New(FRESH) && FRESH.Ingestible(LATE) && FRESH.Add(LATE, 1000, false, false) == BUFFERED
    ensures BUFFERED.Valid() && BUFFERED.Buffered() == [LATE]
  {
    ExampleWindow();
    FirstAdd(FRESH, LATE, 1000);
  }

  lemma ExampleGC()
    ensures BUFFERED.Valid() && BUFFERED.GC(10000, 5000, 10000, false) == FLUSHED
  {
    ExampleAdd();
    ContentsPositive(BUFFERED.rob.value);
    var m := BUFFERED.(rob := Some(BUFFERED.rob.value.Reset()));
    TakeOne(m, LATE, 10000, false);
    var chunk := Chunk(600, [LATE], false, true);
    assert m.Take(LATE, 10000, false).tank == Tank(2, 600, false, [chunk], 0, 0, 1000, []);
    var drained := BUFFERED.Drain(10000, false);
    assert drained.tank == Tank(2, 600, false, [chunk], 0, 0, 1000, []) && drained.lastWrite == 1000;
    assert drained.tank.Close(false) == FLUSHED.tank;
  }

  lemma ExampleFlushedValid()
    ensures FLUSHED.Valid() && Flat(FLUSHED.tank.hist) == [LATE]
  {
    var t := FLUSHED.tank;
    assert t.hist[..0] == [];
    assert t.hist[0].WellFormed(600);
    assert Chain(t.hist, 600);
  }

  lemma ExampleEarly()
    ensures FLUSHED.Valid() && FLUSHED.Ingestible(EARLY)
    ensures FLUSHED.Add(EARLY, 10001, false, false)
            == FLUSHED.(rob := Some(FLUSHED.rob.value.Slid(50, EARLY.val)), lastWrite := 10001)
    ensures FLUSHED.rob.value.Slid(50, EARLY.val).Contents() == [EARLY]
  {
    ExampleFlushedValid();
    FirstAdd(FLUSHED, EARLY, 10001);
    FirstInWindow(FLUSHED.rob.value, EARLY);
  }

  // The steps of the example.
  const ADD_LATE := Write(Arrival(LATE, 1000, false, false))
  const COLLECT := Collect(10000, 5000, 10000, false)
  const ADD_EARLY := Write(Arrival(EARLY, 10001, false, false))

  lemma ThreeSteps(start: Metric, a: Step, b: Step, c: Step)
    requires start.Valid() && Takes(start, a) && Takes(start, b) && Takes(start, c)
    ensures var m := Do(start, a);
            && Takes(m, b)
            && var m' := Do(m, b); Takes(m', c) && Life(start, [a, b, c]) == Do(m', c)
  {
    assert [a, b, c][..2] == [a, b] && [a, b][..1] == [a] && [a][..0] == [];
    assert Life(start, [a]) == Do(start, a);
    assert Life(start, [a, b]) == Do(Do(start, a), b);
  }

  lemma ExampleDoes()
    ensures FRESH.Valid() && Takes(FRESH, ADD_LATE) && Do(FRESH, ADD_LATE) == BUFFERED
    ensures Do(BUFFERED, COLLECT) == FLUSHED
  {
    ExampleAdd();
    ExampleGC();
  }

  lemma ExampleLife()
    ensures FRESH.Valid() && forall s :: s in [ADD_LATE, COLLECT, ADD_EARLY] ==> Takes(FRESH, s)
    ensures var m := Life(FRESH, [ADD_LATE, COLLECT, ADD_EARLY]);
            m.tank == FLUSHED.tank && m.Buffered() == [EARLY]
  {
    ExampleDoes();
    ThreeSteps(FRESH, ADD_LATE, COLLECT, ADD_EARLY);
    ExampleEarly();
  }

  lemma ExampleAnswer()
    ensures FLUSHED.tank.Valid() && Flat(FLUSHED.tank.hist) == [LATE]
    ensures var r := Answered(FLUSHED.tank, [EARLY], 600, 2000);
            r == Result([EARLY], [], 500) && !Complete(r, [LATE] + [EARLY], 600, 2000)
  {
    ExampleFlushedValid();
    AnswerExactly(FLUSHED.tank, [EARLY], 600, 2000);
    assert LATE in Flat(FLUSHED.tank.hist) && LATE !in [EARLY];
  }

  /** A query for [600, 2000) after these steps is answered from the buffer alone, and misses the point at 1000. */
  lemma HiddenAfterFlush()
    ensures New(FRESH) && FRESH.Valid() && forall s :: s in [ADD_LATE, COLLECT, ADD_EARLY] ==> Takes(FRESH, s)
    ensures var m := Life(FRESH, [ADD_LATE, COLLECT, ADD_EARLY]);
            && Flat(m.tank.hist) == [LATE] && m.Buffered() == [EARLY]
            && Answered(m.tank, m.Buffered(), 600, 2000) == Result([EARLY], [], 500)
            && !Complete(Answered(m.tank, m.Buffered(), 600, 2000), [LATE] + [EARLY], 600, 2000)
  {
    ExampleAdd();
    ExampleLife();
    ExampleAnswer();
  }

  lemma FirstInWindow(w: Rob.Window, p: Point)
    requires w.Valid() && w.newest == 0 && 0 < p.ts && p.ts + w.interval <= U32 && p.ts % w.interval == 0
    ensures var k := p.ts / w.interval;
            && Rob.SlotOf(p.ts, w.interval) == k
            && w.Add(k, p.val) == (w.Slid(k, p.val), Rob.Accepted([]))
            && w.Slid(k, p.val).Valid() && w.Slid(k, p.val).Contents() == [p]
  {
    var k := Rob.SlotOf(p.ts, w.interval);
    BoundaryBucket(p.ts, w.interval, p.ts);
    Multiple(p.ts, w.interval);
    MultipleOf(k, w.interval);
    Rob.SlideEffect(w, k, p.val);
    Rob.ListingEmpty(w.slots, w.interval, w.newest - w.size + 1, k - w.size + 1);
    Rob.ListingEmpty(w.slots, w.interval, w.newest - w.size + 1, w.newest + 1);
  }

  lemma TakeOne(m: Metric, p: Point, clock: int, primary: bool)
    requires m.tank.Valid() && 0 < p.ts
    ensures m.TakeAll([p], clock, primary) == m.Take(p, clock, primary)
  {
    assert [p][..0] == [];
    assert m.TakeAll([p][..0], clock, primary) == m;
  }
}
