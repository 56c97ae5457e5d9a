/** A node that was not the primary all along: the store is shared, and other nodes report what they saved. */
module Promotion {
  import opened Fetch
  import opened Points
  import opened Quantize
  import opened TankRuns
  import opened Tanks

  /** The latest chunk start that was reported as saved, with all chunks before it; -1 if there was no report. */
  function Told(events: seq<Event>): int {
    if events == [] then -1 else Hears(Told(events[..|events| - 1]), events[|events| - 1])
  }

  function Hears(told: int, e: Event): int {
    if e.Notice? && told < e.t0 then e.t0 else told
  }

  /** The shared store has the chunk: this node sent it, or a report covers it. */
  ghost predicate InStore(t: Tank, told: int, c: Chunk) {
    c.finished && (c in t.sent || c.t0 <= told)
  }

  /** No chunk was evicted that starts after the save marker. */
  ghost predicate Covered(t: Tank) {
    t.evicted <= |t.hist| && forall i :: 0 <= i < t.evicted ==> t.hist[i].t0 <= t.lastSave
  }

  /** At no time in the run was a chunk evicted that was not saved. */
  ghost predicate AllCovered(start: Tank, events: seq<Event>)
    requires start.Valid() && Proper(events)
    decreases |events|
  {
    Covered(Run(start, events)) && (events == [] || AllCovered(start, events[..|events| - 1]))
  }

  /** Every chunk up to the save marker is accounted for, except one at time 0. */
  ghost predicate Accounted(t: Tank, told: int) {
    forall c :: c in t.hist && c.t0 <= t.lastSave ==> c in t.sent || c.t0 <= told || c.t0 == 0
  }

  ghost predicate Shared(t: Tank, told: int) {
    && t.Valid() && 0 <= t.lastSave && told <= t.lastSave
    && (forall c :: c in t.sent ==> 0 < c.t0)
    && (t.lastSave == 0 || t.lastSave <= told || (t.hist != [] && t.lastSave <= t.Last().t0))
    && Accounted(t, told)
  }

  lemma BeginShared(t: Tank, told: int, p: Point)
    requires Shared(t, told) && t.hist == [] && !t.dropFirst && 0 < p.ts
    ensures Shared(t.Begin(p), told)
  {
    BeginKeeps(t, p);
  }

  /** Changing the points or the state of an unfinished current chunk. */
  lemma ReplaceShared(t: Tank, told: int, c: Chunk)
    requires Shared(t, told) && t.SentFaithfully() && t.hist != [] && !t.Last().finished && c.t0 == t.Last().t0
    requires t.(hist := t.hist[|t.hist| - 1 := c]).Valid()
    ensures Shared(t.(hist := t.hist[|t.hist| - 1 := c]), told)
  {
    var t' := t.(hist := t.hist[|t.hist| - 1 := c]);
    assert t.Last() in t.hist && t.Last() !in t.sent;
    forall d | d in t'.hist && d.t0 <= t'.lastSave
      ensures d in t'.sent || d.t0 <= told || d.t0 == 0
    {
      var i :| 0 <= i < |t'.hist| && t'.hist[i] == d;
      if i < |t.hist| - 1 {
        assert t.hist[i] in t.hist;
      }
    }
  }

  lemma FinishShared(t: Tank, told: int)
    requires Shared(t, told) && t.SentFaithfully() && t.hist != []
    ensures Shared(t.FinishLast(), told) && t.FinishLast().Last().finished
  {
    FinishLastKeeps(t);
    if t.Last().finished {
      assert t.FinishLast() == t;
    } else {
      ReplaceShared(t, told, t.Last().Finish());
    }
  }

  lemma PersistFinds(t: Tank, told: int, c: Chunk)
    requires t.Valid() && Accounted(t, told) && t.hist != [] && Covered(t) && t.lastSave < t.Last().t0 && c in t.hist
    ensures c in t.Persist().sent || c.t0 <= told || c.t0 == 0
  {
    if t.lastSave < c.t0 {
      var i :| 0 <= i < |t.hist| && t.hist[i] == c;
      assert t.Live()[i - t.evicted] == c;
      AfterMembers(t.Live(), t.lastSave);
    }
  }

  lemma PersistAccounts(t: Tank, told: int)
    requires t.Valid() && Accounted(t, told) && t.hist != [] && Covered(t) && t.lastSave < t.Last().t0
    ensures Accounted(t.Persist(), told)
  {
    forall c | c in t.hist
      ensures c in t.Persist().sent || c.t0 <= told || c.t0 == 0
    {
      PersistFinds(t, told, c);
    }
  }

  lemma PersistPositive(t: Tank)
    requires t.Valid() && t.hist != [] && 0 <= t.lastSave < t.Last().t0 && forall c :: c in t.sent ==> 0 < c.t0
    ensures forall c :: c in t.Persist().sent ==> 0 < c.t0
  {
    AfterMembers(t.Live(), t.lastSave);
  }

  lemma PersistShared(t: Tank, told: int)
    requires Shared(t, told) && t.hist != [] && t.Last().finished && Covered(t)
    ensures Shared(t.Persist(), told)
  {
    if t.lastSave < t.Last().t0 {
      PersistPositive(t);
      PersistAccounts(t, told);
      PersistMarks(t);
      SharedUpTo(t.Persist(), told);
    }
  }

  lemma SharedUpTo(t: Tank, told: int)
    requires t.Valid() && t.hist != [] && t.lastSave == t.Last().t0
    requires 0 <= t.lastSave && told <= t.lastSave && Accounted(t, told) && forall c :: c in t.sent ==> 0 < c.t0
    ensures Shared(t, told)
  {
  }

  lemma PersistMarks(t: Tank)
    requires t.Valid() && t.hist != [] && t.lastSave < t.Last().t0
    ensures var t' := t.Persist(); t'.Valid() && t'.hist == t.hist && t'.lastSave == t.Last().t0
  {
  }

  lemma GrowShared(t: Tank, told: int, c: Chunk)
    requires Shared(t, told) && t.hist != [] && t.Last().finished && t.Last().t0 < c.t0
    requires c.WellFormed(t.span) && !c.first
    ensures Shared(t.Grow(c), told)
  {
    GrowKeeps(t, c);
  }

  lemma AdvanceShared(t: Tank, told: int, p: Point, primary: bool)
    requires Shared(t, told) && t.SentFaithfully() && Covered(t)
    requires t.hist != [] && 0 < p.ts && t.Last().t0 < t.StartOf(p.ts)
    ensures Shared(t.Advance(p, primary), told)
  {
    var f := t.FinishLast();
    FinishShared(t, told);
    FinishCovered(t);
    StartExact(t, p.ts);
    if primary {
      PersistShared(f, told);
    }
    GrowShared(if primary then f.Persist() else f, told, Chunk(t.StartOf(p.ts), [p], false, false));
  }

  lemma FinishCovered(t: Tank)
    requires t.Valid() && t.hist != [] && Covered(t)
    ensures Covered(t.FinishLast())
  {
  }

  lemma AddShared(t: Tank, told: int, p: Point, primary: bool)
    requires Shared(t, told) && t.SentFaithfully() && Covered(t) && !t.dropFirst && 0 < p.ts
    ensures Shared(t.Add(p, primary), told)
  {
    if t.hist == [] {
      BeginShared(t, told, p);
    } else if t.Accepts(p) {
      if t.StartOf(p.ts) == t.Last().t0 {
        AddKeeps(t, p, primary);
        ReplaceShared(t, told, t.Last().Append(p));
      } else {
        AdvanceShared(t, told, p, primary);
      }
    }
  }

  lemma CloseShared(t: Tank, told: int, primary: bool)
    requires Shared(t, told) && t.SentFaithfully() && Covered(t)
    ensures Shared(t.Close(primary), told)
  {
    if t.hist != [] && !t.Last().finished {
      FinishShared(t, told);
      FinishCovered(t);
      if primary {
        PersistShared(t.FinishLast(), told);
      }
    }
  }

  lemma NoticeShared(t: Tank, told: int, t0: int)
    requires Shared(t, told)
    ensures Shared(t.Notice(t0), Hears(told, Notice(t0)))
  {
  }

  lemma ApplyShared(t: Tank, told: int, e: Event)
    requires Shared(t, told) && t.SentFaithfully() && Covered(t) && !t.dropFirst && (e.Add? ==> 0 < e.p.ts)
    ensures Shared(Apply(t, e), Hears(told, e))
  {
    match e
    case Add(p, primary) => AddShared(t, told, p, primary);
    case Close(primary) => CloseShared(t, told, primary);
    case Notice(t0) => NoticeShared(t, told, t0);
  }

  lemma {:induction false} NeverDrops(start: Tank, events: seq<Event>)
    requires start.Valid() && Proper(events)
    ensures Run(start, events).dropFirst == start.dropFirst
    decreases |events|
  {
    if events != [] {
      NeverDrops(start, events[..|events| - 1]);
    }
  }

  lemma {:induction false} RunShared(cap: int, span: int, events: seq<Event>)
    requires 0 < cap && 0 < span <= MAX_INT32 && Proper(events) && AllCovered(Fresh(cap, span, false), events)
    ensures Shared(Run(Fresh(cap, span, false), events), Told(events))
    decreases |events|
  {
    if events != [] {
      var start, init, e := Fresh(cap, span, false), events[..|events| - 1], events[|events| - 1];
      assert e in events;
      RunShared(cap, span, init);
      SentInOrderOverRuns(cap, span, false, init);
      NeverDrops(start, init);
      ApplyShared(Run(start, init), Told(init), e);
    }
  }

  // ---------------------------------------------------------------------------------------------
  // Reading

  /** How many of the first n chunks are finished and start at or before the mark. */
  function Marked(t: Tank, n: int): (k: int)
    requires 0 <= n <= |t.hist|
    ensures 0 <= k <= n && (0 < k ==> t.hist[k - 1].finished && t.hist[k - 1].t0 <= t.lastSave)
    ensures forall i :: k <= i < n ==> !(t.hist[i].finished && t.hist[i].t0 <= t.lastSave)
  {
    if n == 0 then 0
    else if t.hist[n - 1].finished && t.hist[n - 1].t0 <= t.lastSave then n
    else Marked(t, n - 1)
  }

  /** 1 if the first chunk is at time 0 and finished, and there was no report at all. */
  function Lacks(t: Tank, told: int): int {
    if Skipped(t) == 1 && told < 0 && t.hist[0].finished then 1 else 0
  }

  lemma MarkedFirst(t: Tank, i: int)
    requires t.Valid() && 0 <= i < |t.hist|
    ensures i < Marked(t, |t.hist|) <==> t.hist[i].finished && t.hist[i].t0 <= t.lastSave
  {
    var k := Marked(t, |t.hist|);
    if i < k - 1 {
      ChainAt(t.hist, t.span, i);
      ChainApart(t.hist, t.span, i, k - 1);
    }
  }

  lemma MarkedStored(t: Tank, told: int, i: int)
    requires Shared(t, told) && t.SentFaithfully() && 0 <= i < |t.hist|
    ensures Lacks(t, told) <= i < Marked(t, |t.hist|) <==> InStore(t, told, t.hist[i])
  {
    var c := t.hist[i];
    assert c in t.hist;
    MarkedFirst(t, i);
    ChainAt(t.hist, t.span, 0);
    if 0 < i {
      ChainApart(t.hist, t.span, 0, i);
    }
  }

  lemma EvictedMarked(t: Tank)
    requires t.Valid() && Covered(t)
    ensures t.evicted <= Marked(t, |t.hist|)
  {
    if 0 < t.evicted {
      ChainAt(t.hist, t.span, t.evicted - 1);
      MarkedFirst(t, t.evicted - 1);
    }
  }

  lemma LacksMarked(t: Tank, told: int)
    requires Shared(t, told)
    ensures Lacks(t, told) <= Marked(t, |t.hist|)
  {
    if Lacks(t, told) == 1 {
      MarkedFirst(t, 0);
    }
  }

  /** What the shared store has of the chunks of this node. */
  function Store(t: Tank, told: int): seq<Chunk>
    requires Lacks(t, told) <= Marked(t, |t.hist|)
  {
    t.hist[Lacks(t, told)..Marked(t, |t.hist|)]
  }

  lemma StoreHas(t: Tank, told: int, c: Chunk)
    requires Shared(t, told) && t.SentFaithfully() && Lacks(t, told) <= Marked(t, |t.hist|) && c in t.hist
    ensures InStore(t, told, c) ==> c in Store(t, told)
  {
    var i :| 0 <= i < |t.hist| && t.hist[i] == c;
    MarkedStored(t, told, i);
    InSlice(t.hist, Lacks(t, told), Marked(t, |t.hist|), i);
  }

  lemma InSlice(s: seq<Chunk>, z: int, k: int, i: int)
    requires 0 <= z <= k <= |s| && 0 <= i < |s|
    ensures z <= i < k ==> s[i] in s[z..k]
  {
    assert z <= i < k ==> s[z..k][i - z] == s[i];
  }

  lemma StoreOnly(t: Tank, told: int, c: Chunk)
    requires Shared(t, told) && t.SentFaithfully() && Lacks(t, told) <= Marked(t, |t.hist|) && c in Store(t, told)
    ensures c in t.hist && InStore(t, told, c)
  {
    var z, k := Lacks(t, told), Marked(t, |t.hist|);
    var i :| 0 <= i < k - z && Store(t, told)[i] == c;
    MarkedStored(t, told, z + i);
  }

  lemma StoreMembers(t: Tank, told: int)
    requires Shared(t, told) && t.SentFaithfully() && Lacks(t, told) <= Marked(t, |t.hist|)
    ensures forall c :: c in Store(t, told) <==> c in t.hist && InStore(t, told, c)
  {
    forall c | c in Store(t, told)
      ensures c in t.hist && InStore(t, told, c)
    {
      StoreOnly(t, told, c);
    }
    forall c | c in t.hist
      ensures InStore(t, told, c) ==> c in Store(t, told)
    {
      StoreHas(t, told, c);
    }
  }

  /** The first chunk is read from memory and from the shared store, or is at time 0, evicted and in no store. */
  predicate Spoils(t: Tank, told: int, from: int, to: int) {
    if Lacks(t, told) == 0 then ReadsTwice(t, Marked(t, |t.hist|), from, to) else MissesEpoch(t, from, to)
  }

  /**
   * Main result. Whatever roles a node had, if all reports it got are true and no chunk was evicted before it was
   * saved, the shared store has exactly the chunks that this node sent or that a report covers, and memory and that
   * store together give exactly the accepted points of the range, with the same exceptions as for a lasting primary.
   */
  lemma PromotedFetch(cap: int, span: int, events: seq<Event>, from: int, to: int)
    requires 0 < cap && 0 < span <= MAX_INT32 && Proper(events) && AllCovered(Fresh(cap, span, false), events)
    requires 0 <= from < to
    ensures var t, told := Run(Fresh(cap, span, false), events), Told(events);
            && Lacks(t, told) <= Marked(t, |t.hist|)
            && (forall c :: c in Store(t, told) <==> c in t.hist && InStore(t, told, c))
            && (FetchedFrom(t, Store(t, told), from, to) == In(Flat(t.hist), from, to) <==> !Spoils(t, told, from, to))
  {
    var t, told := Run(Fresh(cap, span, false), events), Told(events);
    RunShared(cap, span, events);
    SentInOrderOverRuns(cap, span, false, events);
    LacksMarked(t, told);
    StoreMembers(t, told);
    SharedFetch(t, told, from, to);
  }

  lemma SharedFetch(t: Tank, told: int, from: int, to: int)
    requires Shared(t, told) && Covered(t) && Lacks(t, told) <= Marked(t, |t.hist|) && 0 <= from < to
    ensures FetchedFrom(t, Store(t, told), from, to) == In(Flat(t.hist), from, to) <==> !Spoils(t, told, from, to)
  {
    var k := Marked(t, |t.hist|);
    EvictedMarked(t);
    if Lacks(t, told) == 0 {
      assert t.hist[0..k] == t.hist[..k];
      StoreExact(t, k, from, to);
    } else {
      EpochExact(t, k, from, to);
    }
  }
}
