/** What holds of the chunks of a metric, and of what reaches the store, over whole runs. */
module TankRuns {
  import opened Arith
  import opened Points
  import opened Quantize
  import opened Seqs
  import opened Tanks

  datatype Event =
    | Add(p: Point, primary: bool)   // a point arrives; the node is or is not the primary at that time
    | Close(primary: bool)           // garbage collection closes the chunk of a stale metric
    | Notice(t0: int)                // a node reports that it saved the chunk starting at t0

  function Apply(t: Tank, e: Event): Tank
    requires 0 < t.span && 0 <= t.evicted <= |t.hist|
  {
    match e
    case Add(p, primary) => t.Add(p, primary)
    case Close(primary) => t.Close(primary)
    case Notice(t0) => t.Notice(t0)
  }

  ghost predicate Proper(events: seq<Event>) {
    forall e :: e in events && e.Add? ==> 0 < e.p.ts
  }

  lemma ApplyKeeps(t: Tank, e: Event)
    requires t.Valid() && (e.Add? ==> 0 < e.p.ts)
    ensures Apply(t, e).Valid()
    ensures Flat(Apply(t, e).hist) == Flat(t.hist) + Accepted(t, e)
  {
    match e
    case Add(p, primary) => AddKeeps(t, p, primary);
    case Close(primary) => CloseKeeps(t, primary);
    case Notice(t0) =>
  }

  lemma ApplyKeepsSent(t: Tank, e: Event)
    requires t.Valid() && t.SentFaithfully() && (e.Add? ==> 0 < e.p.ts)
    ensures Apply(t, e).SentFaithfully()
  {
    match e
    case Add(p, primary) => AddKeepsSent(t, p, primary);
    case Close(primary) => CloseKeeps(t, primary);
    case Notice(t0) =>
  }

  /** The point accepted by an event, if any. */
  function Accepted(t: Tank, e: Event): seq<Point>
    requires 0 < t.span
  {
    if e.Add? && t.Accepts(e.p) then [e.p] else []
  }

  ghost function Run(start: Tank, events: seq<Event>): (t: Tank)
    requires start.Valid() && Proper(events)
    ensures t.Valid()
    decreases |events|
  {
    if events == [] then start
    else
      var t := Run(start, events[..|events| - 1]);
      ApplyKeeps(t, events[|events| - 1]);
      Apply(t, events[|events| - 1])
  }

  /** All points accepted during a run, in order of acceptance. */
  ghost function AllAccepted(start: Tank, events: seq<Event>): seq<Point>
    requires start.Valid() && Proper(events)
    decreases |events|
  {
    if events == [] then []
    else
      AllAccepted(start, events[..|events| - 1])
      + Accepted(Run(start, events[..|events| - 1]), events[|events| - 1])
  }

  /**
   * Main result. For any mix of adds, closings, changes of role and notices, the chunks sent to the store start
   * at strictly increasing times, each is finished when sent and stays as it was sent, and the history of
   * chunks holds exactly the accepted points in order.
   */
  lemma {:induction false} SentInOrderOverRuns(cap: int, span: int, dropFirst: bool, events: seq<Event>)
    requires 0 < cap && 0 < span <= MAX_INT32 && Proper(events)
    ensures var t := Run(Fresh(cap, span, dropFirst), events);
            && InOrder(t.sent)
            && (forall c :: c in t.sent ==> c.finished && c in t.hist)
            && Flat(t.hist) == AllAccepted(Fresh(cap, span, dropFirst), events)
            && t.SentFaithfully()
    decreases |events|
  {
    if events != [] {
      SentInOrderOverRuns(cap, span, dropFirst, events[..|events| - 1]);
      ApplyKeeps(Run(Fresh(cap, span, dropFirst), events[..|events| - 1]), events[|events| - 1]);
      ApplyKeepsSent(Run(Fresh(cap, span, dropFirst), events[..|events| - 1]), events[|events| - 1]);
    }
  }

  lemma ApplySends(t: Tank, e: Event)
    requires t.Valid()
    ensures t.sent <= Apply(t, e).sent && t.lastSave <= Apply(t, e).lastSave
  {
  }

  /** What was sent at one time is the beginning of what is sent at any later time. */
  lemma {:induction false} SentOnlyGrows(start: Tank, events: seq<Event>)
    requires start.Valid() && Proper(events)
    ensures start.sent <= Run(start, events).sent
    decreases |events|
  {
    if events != [] {
      SentOnlyGrows(start, events[..|events| - 1]);
      ApplySends(Run(start, events[..|events| - 1]), events[|events| - 1]);
    }
  }

  /** A newly promoted primary sends every chunk in memory that was not reported saved, down to the oldest. */
  lemma PromotionCovers(t: Tank)
    requires t.Valid() && t.hist != []
    ensures forall c :: c in t.Live() ==> c.t0 <= t.lastSave || c in t.Persist().sent[|t.sent|..]
    ensures t.Persist().lastSave >= t.Last().t0
    ensures forall c :: c in t.Persist().sent[|t.sent|..] ==> c in t.Live() && t.lastSave < c.t0
  {
    if t.lastSave < t.Last().t0 {
      AfterMembers(t.Live(), t.lastSave);
      assert t.Persist().sent[|t.sent|..] == After(t.Live(), t.lastSave);
    } else {
      ChainInOrder(t.hist, t.span);
      assert t.Persist().sent[|t.sent|..] == [];
      forall c | c in t.Live()
        ensures c.t0 <= t.lastSave
      {
        var i :| 0 <= i < |t.Live()| && t.Live()[i] == c;
        assert c == t.hist[t.evicted + i];
      }
    }
  }

  // ---------------------------------------------------------------------------------------------
  // A node that is the primary all along

  /** The event comes from the primary itself: a step of its own, or word from the store of a chunk it had sent. */
  predicate Own(t: Tank, e: Event) {
    match e
    case Add(_, primary) => primary
    case Close(primary) => primary
    case Notice(t0) => t0 <= t.lastSave
  }

  /** A run of a node that is the primary all along and hears of no saves but its own. */
  ghost predicate PrimaryOnly(start: Tank, events: seq<Event>)
    requires start.Valid() && Proper(events)
    decreases |events|
  {
    events == [] ||
    var init, e := events[..|events| - 1], events[|events| - 1];
    PrimaryOnly(start, init) && Own(Run(start, init), e)
  }

  /** 1 if the first chunk starts at time 0, which the save marker cannot tell from "nothing saved yet". */
  function Skipped(t: Tank): int {
    if t.hist != [] && t.hist[0].t0 == 0 then 1 else 0
  }

  /** Exactly the chunks up to position k were sent, except a first chunk that starts at time 0. */
  ghost predicate SavedUpTo(t: Tank, k: int) {
    && Skipped(t) <= k <= |t.hist|
    && |t.hist| - 1 <= k && t.evicted <= k
    && t.sent == t.hist[Skipped(t)..k]
    && t.lastSave == (if Skipped(t) < k then t.hist[k - 1].t0 else 0)
    && (Skipped(t) < k == |t.hist| ==> t.Last().finished)
  }

  lemma {:induction false} AfterNone(chunks: seq<Chunk>, mark: int)
    requires forall i :: 0 <= i < |chunks| ==> chunks[i].t0 <= mark
    ensures After(chunks, mark) == []
  {
    if chunks != [] {
      AfterNone(chunks[..|chunks| - 1], mark);
    }
  }

  /** If chunks before position k start at or before the mark and the others after it, these others are left. */
  lemma {:induction false} AfterSuffix(chunks: seq<Chunk>, k: int, mark: int)
    requires 0 <= k <= |chunks|
    requires forall i :: 0 <= i < k ==> chunks[i].t0 <= mark
    requires forall i :: k <= i < |chunks| ==> mark < chunks[i].t0
    ensures After(chunks, mark) == chunks[k..]
    decreases |chunks|
  {
    if k == |chunks| {
      AfterNone(chunks, mark);
    } else {
      var init := chunks[..|chunks| - 1];
      AfterSuffix(init, k, mark);
      assert chunks[k..] == init[k..] + [chunks[|chunks| - 1]];
    }
  }

  /** The save marker is behind the current chunk exactly if that was not sent. */
  lemma MarkerBehind(t: Tank, k: int)
    requires t.Valid() && t.hist != [] && SavedUpTo(t, k)
    ensures t.lastSave < t.Last().t0 <==> k == |t.hist| - 1
  {
    ChainAt(t.hist, t.span, 0);
    if 1 < |t.hist| {
      ChainApart(t.hist, t.span, |t.hist| - 2, |t.hist| - 1);
      ChainApart(t.hist, t.span, 0, |t.hist| - 1);
    }
  }

  /** Persisting a finished current chunk completes what was sent. */
  lemma PersistCompletes(t: Tank, k: int)
    requires t.Valid() && t.hist != [] && SavedUpTo(t, k) && t.Last().finished
    ensures SavedUpTo(t.Persist(), |t.hist|)
  {
    MarkerBehind(t, k);
    if k == |t.hist| - 1 {
      DueSuffix(t, k);
      SliceGrow(t.hist, Skipped(t), k);
    }
  }

  lemma SliceGrow(s: seq<Chunk>, z: int, k: int)
    requires 0 <= z <= k < |s|
    ensures s[z..k] + s[k..] == s[z..|s|]
  {
  }

  /** If of the chunks from position e on those before position k start at or before the mark, the others are left. */
  lemma AfterFrom(chunks: seq<Chunk>, e: int, k: int, mark: int)
    requires 0 <= e <= k <= |chunks|
    requires forall i :: e <= i < k ==> chunks[i].t0 <= mark
    requires forall i :: k <= i < |chunks| ==> mark < chunks[i].t0
    ensures After(chunks[e..], mark) == chunks[k..]
  {
    AfterSuffix(chunks[e..], k - e, mark);
    DropDrop(chunks, e, k - e);
  }

  /** The chunks that were sent start at or before the save marker, the others after it. */
  lemma MarkerSplits(t: Tank, k: int)
    requires t.Valid() && t.hist != [] && SavedUpTo(t, k) && t.lastSave < t.Last().t0
    ensures forall i :: 0 <= i < k ==> t.hist[i].t0 <= t.lastSave
    ensures forall i :: k <= i < |t.hist| ==> t.lastSave < t.hist[i].t0
  {
    ChainAt(t.hist, t.span, 0);
    ChainInOrder(t.hist, t.span);
    MarkerBehind(t, k);
  }

  lemma DueSuffix(t: Tank, k: int)
    requires t.Valid() && t.hist != [] && SavedUpTo(t, k) && t.lastSave < t.Last().t0
    ensures After(t.Live(), t.lastSave) == t.hist[k..]
  {
    MarkerSplits(t, k);
    AfterFrom(t.hist, t.evicted, k, t.lastSave);
  }

  lemma FinishLastSaved(t: Tank, k: int)
    requires t.Valid() && t.hist != [] && SavedUpTo(t, k)
    ensures SavedUpTo(t.FinishLast(), k)
  {
    if t.Last().finished {
      assert t.FinishLast() == t;
    } else {
      SliceKept(t.hist, t.Last().Finish(), Skipped(t), k);
    }
  }

  lemma SliceKept(s: seq<Chunk>, c: Chunk, z: int, k: int)
    requires s != [] && 0 <= z <= k <= |s| && (k == |s| ==> z == k)
    ensures s[|s| - 1 := c][z..k] == s[z..k]
  {
  }

  lemma ApplySaved(t: Tank, e: Event, k: int) returns (k': int)
    requires t.Valid() && SavedUpTo(t, k) && !t.dropFirst
    requires Own(t, e) && (e.Add? ==> 0 < e.p.ts)
    ensures SavedUpTo(Apply(t, e), k') && !Apply(t, e).dropFirst
  {
    k' := k;
    match e
    case Add(p, _) => k' := AddSaved(t, p, k);
    case Close(_) =>
      if t.hist != [] && !t.Last().finished {
        FinishLastKeeps(t);
        FinishLastSaved(t, k);
        PersistCompletes(t.FinishLast(), k);
        k' := |t.hist|;
      }
    case Notice(t0) => assert Apply(t, e) == t;
  }

  lemma AddSaved(t: Tank, p: Point, k: int) returns (k': int)
    requires t.Valid() && SavedUpTo(t, k) && !t.dropFirst && 0 < p.ts
    ensures SavedUpTo(t.Add(p, true), k') && !t.Add(p, true).dropFirst
  {
    k' := k;
    StartExact(t, p.ts);
    if t.hist == [] {
      k' := Skipped(t.Add(p, true));
    } else if t.Accepts(p) {
      var n := |t.hist|;
      if t.StartOf(p.ts) == t.Last().t0 {
        assert t.Extend(p).hist[Skipped(t)..k] == t.hist[Skipped(t)..k];
      } else {
        FinishLastKeeps(t);
        FinishLastSaved(t, k);
        PersistCompletes(t.FinishLast(), k);
        GrowSaved(t.FinishLast().Persist(), Chunk(t.StartOf(p.ts), [p], false, false));
        k' := n;
      }
    }
  }

  lemma GrowSaved(t: Tank, c: Chunk)
    requires t.hist != [] && 0 <= t.evicted < |t.hist| && SavedUpTo(t, |t.hist|)
    ensures SavedUpTo(t.Grow(c), |t.hist|)
  {
    var t' := t.Grow(c);
    assert t'.hist[Skipped(t)..|t.hist|] == t.hist[Skipped(t)..|t.hist|];
  }

  lemma {:induction false} RunSaved(cap: int, span: int, events: seq<Event>) returns (k: int)
    requires 0 < cap && 0 < span <= MAX_INT32 && Proper(events) && PrimaryOnly(Fresh(cap, span, false), events)
    ensures var t := Run(Fresh(cap, span, false), events); SavedUpTo(t, k) && !t.dropFirst && t.span == span
    decreases |events|
  {
    k := 0;
    if events != [] {
      var e := events[|events| - 1];
      assert e in events;
      var k' := RunSaved(cap, span, events[..|events| - 1]);
      k := ApplySaved(Run(Fresh(cap, span, false), events[..|events| - 1]), e, k');
    }
  }

  /** The points of the current chunk, as long as that was not sent. */
  function Unsent(t: Tank): seq<Point> {
    if t.hist == [] || t.Last() in t.sent then [] else t.Last().points
  }

  lemma {:induction false} FirstOfFlat(chunks: seq<Chunk>)
    requires chunks != [] && chunks[0].points != []
    ensures Flat(chunks) != [] && Flat(chunks)[0] == chunks[0].points[0]
  {
    if |chunks| > 1 {
      FirstOfFlat(chunks[..|chunks| - 1]);
    } else {
      assert chunks[..0] == [];
    }
  }

  lemma FlatSlices(chunks: seq<Chunk>, z: int, k: int)
    requires 0 <= z <= k <= |chunks|
    ensures Flat(chunks) == Flat(chunks[..z]) + Flat(chunks[z..k]) + Flat(chunks[k..])
  {
    Split3(chunks, z, k);
    FlatConcat(chunks[..z] + chunks[z..k], chunks[k..]);
    FlatConcat(chunks[..z], chunks[z..k]);
  }

  lemma FlatOne(chunks: seq<Chunk>)
    requires chunks != []
    ensures Flat(chunks[|chunks| - 1..]) == chunks[|chunks| - 1].points
    ensures Flat(chunks[..1]) == chunks[0].points
  {
    assert chunks[|chunks| - 1..][..0] == [] && chunks[..1][..0] == [];
  }

  /** The points of a chunk at time 0 that was left behind. */
  function Lost(t: Tank): seq<Point> {
    if 1 < |t.hist| then Flat(t.hist[..Skipped(t)]) else []
  }

  lemma SavedButLast(t: Tank, k: int)
    requires t.Valid() && t.hist != [] && SavedUpTo(t, k) && k == |t.hist| - 1
    ensures Lost(t) + (Flat(t.sent) + Unsent(t)) == Flat(t.hist)
  {
    var z := Skipped(t);
    FlatSlices(t.hist, z, k);
    LastUnsent(t, k);
    UnsentPoints(t);
    Assoc(Flat(t.hist[..z]), Flat(t.hist[z..k]), Flat(t.hist[k..]));
  }

  lemma SavedWithLast(t: Tank)
    requires t.Valid() && t.hist != [] && SavedUpTo(t, |t.hist|) && Skipped(t) < |t.hist|
    ensures Lost(t) + (Flat(t.sent) + Unsent(t)) == Flat(t.hist)
  {
    var z, k := Skipped(t), |t.hist|;
    FlatSlices(t.hist, z, k);
    LastSent(t);
    SentPoints(t);
    Assoc(Flat(t.hist[..z]), Flat(t.hist[z..k]), Flat(t.hist[k..]));
  }

  /** What was sent and the unsent current chunk make up everything but a chunk at time 0 that was left behind. */
  lemma SavedPoints(t: Tank, k: int)
    requires t.Valid() && SavedUpTo(t, k)
    ensures Lost(t) + (Flat(t.sent) + Unsent(t)) == Flat(t.hist)
  {
    if t.hist == [] {
    } else if k == |t.hist| - 1 {
      SavedButLast(t, k);
    } else if Skipped(t) < |t.hist| {
      SavedWithLast(t);
    } else {
      SavedNothing(t);
    }
  }

  lemma SavedNothing(t: Tank)
    requires |t.hist| == 1 && t.sent == []
    ensures Lost(t) + (Flat(t.sent) + Unsent(t)) == Flat(t.hist)
  {
    assert t.hist[..0] == [];
    assert Flat(t.hist) == Unsent(t);
  }

  lemma UnsentPoints(t: Tank)
    requires t.hist != [] && t.Last() !in t.sent
    ensures Unsent(t) == Flat(t.hist[|t.hist| - 1..])
    ensures |t.hist| == 1 ==> Flat(t.hist[..0]) == []
  {
    FlatOne(t.hist);
  }

  lemma SentPoints(t: Tank)
    requires t.hist != [] && t.Last() in t.sent
    ensures Unsent(t) == [] && Flat(t.hist[|t.hist|..]) == []
    ensures |t.hist| == 1 ==> Flat(t.hist[..0]) == []
  {
  }

  lemma LastSent(t: Tank)
    requires t.Valid() && t.hist != [] && SavedUpTo(t, |t.hist|) && Skipped(t) < |t.hist|
    ensures t.Last() in t.sent
  {
    assert t.sent[|t.hist| - 1 - Skipped(t)] == t.Last();
  }

  lemma LastUnsent(t: Tank, k: int)
    requires t.Valid() && t.hist != [] && SavedUpTo(t, k) && k == |t.hist| - 1
    ensures t.Last() !in t.sent
  {
    if t.Last() in t.sent {
      var i :| 0 <= i < |t.sent| && t.sent[i] == t.Last();
      ChainApart(t.hist, t.span, Skipped(t) + i, k);
    }
  }

  /** A chunk starts at time 0 exactly if its points are older than one span. */
  lemma StartsAtZero(t: Tank)
    requires t.Valid() && t.hist != []
    ensures t.hist[0].t0 == 0 <==> t.firstTs < t.span
  {
    var c := t.hist[0];
    ChainAt(t.hist, t.span, 0);
    assert c.points[0] in c.points;
    if 0 < c.t0 {
      MultiplesApart(0, c.t0, t.span);
    }
  }

  /** The stream began less than one chunk span after time 0, and has moved past its first chunk. */
  predicate LeavesEpoch(all: seq<Point>, span: int) {
    all != [] && all[0].ts < span <= all[|all| - 1].ts
  }

  /**
   * Main result for a node that is the primary all along, with dropFirstChunk off: what was sent followed by the
   * unsent current chunk is the whole accepted stream, exactly unless the stream began less than one chunk span
   * after time 0 and has moved past its first chunk. No other chunk is evicted before it was sent.
   */
  lemma NoLoss(cap: int, span: int, events: seq<Event>)
    requires 0 < cap && 0 < span <= MAX_INT32 && Proper(events) && PrimaryOnly(Fresh(cap, span, false), events)
    ensures var t, all := Run(Fresh(cap, span, false), events), AllAccepted(Fresh(cap, span, false), events);
            && (Flat(t.sent) + Unsent(t) == all <==> !LeavesEpoch(all, span))
            && (forall i :: Skipped(t) <= i < t.evicted ==> t.hist[i] in t.sent)
  {
    var t := Run(Fresh(cap, span, false), events);
    var k := RunSaved(cap, span, events);
    SentInOrderOverRuns(cap, span, false, events);
    SavedIsAll(t, k);
    EvictedSent(t, k);
  }

  lemma SavedIsAll(t: Tank, k: int)
    requires t.Valid() && SavedUpTo(t, k)
    ensures Flat(t.sent) + Unsent(t) == Flat(t.hist) <==> !LeavesEpoch(Flat(t.hist), t.span)
  {
    SavedPoints(t, k);
    NothingMissing(Lost(t), Flat(t.sent) + Unsent(t));
    LostIs(t);
  }

  lemma LostIs(t: Tank)
    requires t.Valid()
    ensures Lost(t) == [] <==> !LeavesEpoch(Flat(t.hist), t.span)
  {
    if t.hist != [] {
      StreamStart(t);
      LostPoints(t);
    }
  }

  lemma EvictedSent(t: Tank, k: int)
    requires SavedUpTo(t, k)
    ensures forall i :: Skipped(t) <= i < t.evicted ==> t.hist[i] in t.sent
  {
    forall i | Skipped(t) <= i < t.evicted
      ensures t.hist[i] in t.sent
    {
      assert t.sent[i - Skipped(t)] == t.hist[i];
    }
  }

  lemma NothingMissing(lost: seq<Point>, kept: seq<Point>)
    ensures kept == lost + kept <==> lost == []
  {
    assert |lost + kept| == |lost| + |kept|;
  }

  /** The stream left behind a chunk at time 0 exactly if it began before one span and went past it. */
  lemma StreamStart(t: Tank)
    requires t.Valid() && t.hist != []
    ensures var all := Flat(t.hist);
            && all != []
            && ((Skipped(t) == 1 && 1 < |t.hist|) <==> (all[0].ts < t.span && t.span <= all[|all| - 1].ts))
  {
    FirstOfFlat(t.hist);
    StartsAtZero(t);
    StreamEnd(t);
  }

  lemma StreamEnd(t: Tank)
    requires t.Valid() && t.hist != [] && Flat(t.hist) != []
    ensures var last := Flat(t.hist)[|Flat(t.hist)| - 1];
            t.hist[0].t0 == 0 ==> (1 < |t.hist| <==> t.span <= last.ts)
  {
    var n, points := |t.hist|, t.Last().points;
    ChainAt(t.hist, t.span, n - 1);
    assert points[|points| - 1] in points;
    assert Flat(t.hist)[|Flat(t.hist)| - 1] == points[|points| - 1];
    if 1 < n {
      ChainApart(t.hist, t.span, 0, n - 1);
    }
  }

  /** What is left behind is nothing, or the points of the first chunk. */
  lemma LostPoints(t: Tank)
    requires t.Valid() && t.hist != []
    ensures Flat(t.hist[..Skipped(t)]) == [] <==> Skipped(t) == 0
  {
    ChainAt(t.hist, t.span, 0);
    FlatOne(t.hist);
  }

  const TEN := Point(10, Num(1.0))
  const SEVENTY := Point(70, Num(2.0))
  const EPOCH_ONLY := Tank(2, 60, false, [Chunk(0, [TEN], false, true)], 0, 0, 10, [])
  const EPOCH_LEFT :=
    Tank(2, 60, false, [Chunk(0, [TEN], true, true), Chunk(60, [SEVENTY], false, false)], 0, 0, 10, [])

  lemma EpochAdds()
    ensures Fresh(2, 60, false).Add(TEN, true) == EPOCH_ONLY
    ensures EPOCH_ONLY.Accepts(SEVENTY) && EPOCH_ONLY.Add(SEVENTY, true) == EPOCH_LEFT
  {
    assert EPOCH_ONLY.FinishLast().hist == [Chunk(0, [TEN], true, true)];
    assert EPOCH_ONLY.FinishLast().Persist() == EPOCH_ONLY.FinishLast();
  }

  lemma OneRun(start: Tank, e: Event)
    requires start.Valid() && Proper([e])
    ensures Run(start, [e]) == Apply(start, e) && AllAccepted(start, [e]) == Accepted(start, e)
  {
    assert [e][..0] == [];
    assert [] + Accepted(start, e) == Accepted(start, e);
  }

  lemma TwoRun(start: Tank, e: Event, e': Event)
    requires start.Valid() && Proper([e]) && Proper([e'])
    ensures Proper([e, e']) && Run(start, [e, e']) == Apply(Run(start, [e]), e')
    ensures AllAccepted(start, [e, e']) == AllAccepted(start, [e]) + Accepted(Run(start, [e]), e')
  {
    assert [e, e'][..1] == [e];
    assert e in [e] && e' in [e'];
  }

  lemma TwoEvents(start: Tank, e: Event, e': Event, t1: Tank, t2: Tank)
    requires start.Valid() && Proper([e]) && Proper([e']) && t1 == Apply(start, e)
    requires 0 < t1.span && 0 <= t1.evicted <= |t1.hist| && t2 == Apply(t1, e')
    ensures Proper([e, e']) && Run(start, [e, e']) == t2
    ensures AllAccepted(start, [e, e']) == Accepted(start, e) + Accepted(t1, e')
  {
    OneRun(start, e);
    TwoRun(start, e, e');
  }

  /** A point at 10 and then one at 70, with chunks of 60 seconds: nothing is ever sent of the first chunk. */
  lemma EpochChunkLost()
    ensures Proper([Add(TEN, true), Add(SEVENTY, true)])
    ensures var events := [Add(TEN, true), Add(SEVENTY, true)];
            var t := Run(Fresh(2, 60, false), events);
            && AllAccepted(Fresh(2, 60, false), events) == [TEN, SEVENTY]
            && t.sent == [] && Unsent(t) == [SEVENTY]
  {
    EpochAdds();
    TwoEvents(Fresh(2, 60, false), Add(TEN, true), Add(SEVENTY, true), EPOCH_ONLY, EPOCH_LEFT);
    assert [TEN] + [SEVENTY] == [TEN, SEVENTY];
  }

  lemma RunNext(start: Tank, events: seq<Event>, e: Event)
    requires start.Valid() && Proper(events) && Proper([e])
    ensures Proper(events + [e])
    ensures Run(start, events + [e]) == Apply(Run(start, events), e)
    ensures AllAccepted(start, events + [e]) == AllAccepted(start, events) + Accepted(Run(start, events), e)
  {
    assert (events + [e])[..|events|] == events;
    assert forall d :: d in events + [e] ==> d in events || d in [e];
  }

  // ---------------------------------------------------------------------------------------------
  // What stays in memory, and what is dropped

  /** Memory holds the last chunks, as many as fit. */
  ghost predicate MemoryFull(t: Tank) {
    t.evicted == if |t.hist| <= t.cap then 0 else |t.hist| - t.cap
  }

  /** With dropFirstChunk on the first chunk counts as saved, and was not sent. */
  ghost predicate FirstDropped(t: Tank) {
    t.dropFirst && t.hist != [] ==> t.hist[0].t0 <= t.lastSave && forall c :: c in t.sent ==> !c.first
  }

  lemma ApplyRemembers(t: Tank, e: Event)
    requires t.Valid() && MemoryFull(t) && (e.Add? ==> 0 < e.p.ts)
    ensures MemoryFull(Apply(t, e)) && Apply(t, e).cap == t.cap && Apply(t, e).dropFirst == t.dropFirst
  {
  }

  lemma PersistDrops(t: Tank)
    requires t.Valid() && t.hist != [] && FirstDropped(t)
    ensures FirstDropped(t.Persist())
  {
    AfterMembers(t.Live(), t.lastSave);
    ChainInOrder(t.hist, t.span);
    forall c | t.dropFirst && c in After(t.Live(), t.lastSave)
      ensures !c.first
    {
      var i :| 0 <= i < |t.hist| && t.hist[i] == c;
      ChainAt(t.hist, t.span, i);
    }
  }

  lemma ApplyDrops(t: Tank, e: Event)
    requires t.Valid() && FirstDropped(t) && (t.hist == [] ==> t.sent == []) && (e.Add? ==> 0 < e.p.ts)
    ensures FirstDropped(Apply(t, e)) && (Apply(t, e).hist == [] ==> Apply(t, e).sent == [])
  {
    if t.hist != [] {
      FinishLastKeeps(t);
      PersistDrops(t.FinishLast());
    }
  }

  /** After any run, memory holds the last chunks that fit, and with dropFirstChunk on the first was not sent. */
  lemma {:induction false} Remembers(cap: int, span: int, dropFirst: bool, events: seq<Event>)
    requires 0 < cap && 0 < span <= MAX_INT32 && Proper(events)
    ensures var t := Run(Fresh(cap, span, dropFirst), events);
            && t.cap == cap && t.dropFirst == dropFirst && MemoryFull(t)
            && FirstDropped(t) && (t.hist == [] ==> t.sent == [])
    decreases |events|
  {
    if events != [] {
      var init, e := events[..|events| - 1], events[|events| - 1];
      assert e in events;
      Remembers(cap, span, dropFirst, init);
      ApplyRemembers(Run(Fresh(cap, span, dropFirst), init), e);
      ApplyDrops(Run(Fresh(cap, span, dropFirst), init), e);
    }
  }

  /** Only chunks that start after the mark were sent from t to t'. */
  ghost predicate SentAfter(t: Tank, t': Tank, mark: int) {
    t.sent <= t'.sent && mark <= t'.lastSave && forall c :: c in t'.sent[|t.sent|..] ==> mark < c.t0
  }

  lemma ApplySentAfter(t: Tank, e: Event)
    requires t.Valid() && (e.Add? ==> 0 < e.p.ts)
    ensures SentAfter(t, Apply(t, e), t.lastSave)
    ensures (e.Add? || e.Close?) && !e.primary ==> Apply(t, e).sent == t.sent
  {
    if t.hist != [] {
      FinishLastKeeps(t);
      PersistSentAfter(t.FinishLast());
    }
  }

  lemma PersistSentAfter(t: Tank)
    requires t.Valid() && t.hist != []
    ensures SentAfter(t, t.Persist(), t.lastSave)
  {
    PromotionCovers(t);
  }

  lemma SentAfterOn(t: Tank, t1: Tank, t2: Tank, mark: int)
    requires SentAfter(t, t1, mark) && SentAfter(t1, t2, t1.lastSave)
    ensures SentAfter(t, t2, mark)
  {
    assert t2.sent[|t.sent|..] == t1.sent[|t.sent|..] + t2.sent[|t1.sent|..];
  }

  /** No chunk is sent that was reported saved before, or that starts before one that was. */
  lemma {:induction false} ReportedNotSent(start: Tank, t0: int, events: seq<Event>)
    requires start.Valid() && Proper(events)
    ensures SentAfter(start, Run(start.Notice(t0), events), t0)
    decreases |events|
  {
    if events != [] {
      var init, e := events[..|events| - 1], events[|events| - 1];
      var t := Run(start.Notice(t0), init);
      assert e in events;
      ReportedNotSent(start, t0, init);
      ApplySentAfter(t, e);
      SentAfterOn(start, t, Apply(t, e), t0);
    }
  }

  /** A node that is not the primary sends nothing. */
  lemma {:induction false} SecondarySendsNothing(start: Tank, events: seq<Event>)
    requires start.Valid() && Proper(events)
    requires forall e :: e in events && (e.Add? || e.Close?) ==> !e.primary
    ensures Run(start, events).sent == start.sent
    decreases |events|
  {
    if events != [] {
      var init, e := events[..|events| - 1], events[|events| - 1];
      assert e in events;
      SecondarySendsNothing(start, init);
      ApplySentAfter(Run(start, init), e);
    }
  }
}
