/** What closing the current chunk of a stale metric saves. */
module Closings {
  import opened Points
  import opened Quantize
  import Runs = TankRuns
  import opened Tanks

  /** The current chunk was handed to the store, or starts no later than what counted as saved. */
  predicate LastSaved(t: Tank, mark: int)
    requires t.hist != []
  {
    t.Last() in t.sent || t.Last().t0 <= mark
  }

  lemma LastIsLive(t: Tank)
    requires t.Valid() && t.hist != []
    ensures t.Live() != [] && t.Live()[|t.Live()| - 1] == t.Last()
  {
  }

  /** A primary that closes a chunk saves it, with everything in memory that was not saved before. */
  lemma ClosingSaves(t: Tank)
    requires t.Valid() && t.hist != [] && !t.Last().finished
    ensures var t' := t.Close(true);
            && t'.hist != [] && t'.Last().finished && t'.Last().points == t.Last().points
            && forall c :: c in t'.Live() ==> c in t'.sent || c.t0 <= t.lastSave
  {
    FinishLastKeeps(t);
    Runs.PromotionCovers(t.FinishLast());
  }

  /**
   * After garbage collection on the primary the current chunk is saved, exactly unless it had been closed before
   * without being saved: a chunk that is closed already is not looked at again.
   */
  lemma CloseSaves(t: Tank)
    requires t.Valid() && t.hist != []
    ensures t.Close(true).hist != []
    ensures LastSaved(t.Close(true), t.lastSave) <==> !t.Last().finished || LastSaved(t, t.lastSave)
  {
    if !t.Last().finished {
      var t' := t.Close(true);
      ClosingSaves(t);
      CloseKeeps(t, true);
      LastIsLive(t');
      assert t'.Last() in t'.Live();
    }
  }

  const LONE := Tank(2, 60, false, [Chunk(60, [Runs.SEVENTY], true, true)], 0, 0, 70, [])

  /**
   * Garbage collection on a secondary closes the chunk of a metric with one point; once this node is the primary,
   * garbage collection does not save that chunk.
   */
  lemma ClosedBySecondary()
    ensures var open := Fresh(2, 60, false).Add(Runs.SEVENTY, false);
            var closed := open.Close(false);
            && open.Valid() && closed.hist != [] && !LastSaved(closed.Close(true), closed.lastSave)
            && closed.Close(true).sent == []
  {
    var open := Fresh(2, 60, false).Add(Runs.SEVENTY, false);
    AddKeeps(Fresh(2, 60, false), Runs.SEVENTY, false);
    assert open.hist == [Chunk(60, [Runs.SEVENTY], false, true)];
    assert open.Close(false).hist == LONE.hist;
  }

  // ---------------------------------------------------------------------------------------------
  // A node that is the primary all along

  /** The only chunk starts at time 0, which the save marker cannot tell from "nothing saved yet". */
  predicate LoneEpoch(t: Tank) {
    |t.hist| == 1 && t.hist[0].t0 == 0
  }

  lemma AllSavedSends(t: Tank)
    requires t.Valid() && t.hist != [] && Runs.SavedUpTo(t, |t.hist|)
    ensures t.Last() in t.sent <==> !LoneEpoch(t)
  {
    if !LoneEpoch(t) {
      Runs.LastSent(t);
    }
  }

  lemma ClosedSent(t: Tank, k: int)
    requires t.Valid() && t.hist != [] && !t.Last().finished && Runs.SavedUpTo(t, k)
    ensures var t' := t.Close(true); t'.hist != [] && (t'.Last() in t'.sent <==> !LoneEpoch(t'))
  {
    CloseKeeps(t, true);
    FinishLastKeeps(t);
    Runs.FinishLastSaved(t, k);
    Runs.PersistCompletes(t.FinishLast(), k);
    AllSavedSends(t.Close(true));
  }

  /** The current chunk, if it is closed, was sent. */
  ghost predicate ClosedIsSent(t: Tank) {
    t.hist != [] && t.Last().finished ==> (t.Last() in t.sent <==> !LoneEpoch(t))
  }

  lemma AddLeavesOpen(t: Tank, p: Point, primary: bool)
    requires t.Valid() && 0 < p.ts && t.Accepts(p)
    ensures var t' := t.Add(p, primary); t'.hist != [] && !t'.Last().finished
  {
  }

  lemma {:induction false} PrimaryClosesAndSends(cap: int, span: int, events: seq<Runs.Event>)
    requires 0 < cap && 0 < span <= MAX_INT32 && Runs.Proper(events)
    requires Runs.PrimaryOnly(Fresh(cap, span, false), events)
    ensures ClosedIsSent(Runs.Run(Fresh(cap, span, false), events))
    decreases |events|
  {
    if events != [] {
      var init, e := events[..|events| - 1], events[|events| - 1];
      var t := Runs.Run(Fresh(cap, span, false), init);
      assert e in events;
      PrimaryClosesAndSends(cap, span, init);
      match e
      case Add(p, primary) =>
        if t.Accepts(p) {
          AddLeavesOpen(t, p, primary);
        }
      case Close(_) =>
        var k := Runs.RunSaved(cap, span, init);
        if t.hist != [] && !t.Last().finished {
          ClosedSent(t, k);
        }
      case Notice(_) =>
    }
  }

  lemma EpochOnly(t: Tank)
    requires t.Valid() && t.hist != []
    ensures LoneEpoch(t) || Runs.LeavesEpoch(Flat(t.hist), t.span) <==>
            Flat(t.hist) != [] && Flat(t.hist)[0].ts < t.span
  {
    Runs.StreamStart(t);
    Runs.FirstOfFlat(t.hist);
    Runs.StartsAtZero(t);
  }

  /**
   * Main result. When a node that is the primary all along, with dropFirstChunk off, closes the chunk of a stale
   * metric, all that was ever accepted has been sent, exactly unless the stream began less than one chunk span after
   * time 0.
   */
  lemma ClosedAllSent(cap: int, span: int, events: seq<Runs.Event>)
    requires 0 < cap && 0 < span <= MAX_INT32 && Runs.Proper(events)
    requires Runs.PrimaryOnly(Fresh(cap, span, false), events)
    ensures var t := Runs.Run(Fresh(cap, span, false), events).Close(true);
            var all := Runs.AllAccepted(Fresh(cap, span, false), events);
            Flat(t.sent) == all <==> all == [] || span <= all[0].ts
  {
    var closing := events + [Runs.Close(true)];
    ClosingRun(cap, span, events);
    PrimaryClosesAndSends(cap, span, closing);
    Runs.SentInOrderOverRuns(cap, span, false, closing);
    Runs.NoLoss(cap, span, closing);
    ClosedSends(Runs.Run(Fresh(cap, span, false), closing));
  }

  lemma ClosingRun(cap: int, span: int, events: seq<Runs.Event>)
    requires 0 < cap && 0 < span <= MAX_INT32 && Runs.Proper(events)
    requires Runs.PrimaryOnly(Fresh(cap, span, false), events)
    ensures var start, closing := Fresh(cap, span, false), events + [Runs.Close(true)];
            var t := Runs.Run(start, events).Close(true);
            && Runs.Proper(closing) && Runs.PrimaryOnly(start, closing) && Runs.Run(start, closing) == t
            && Runs.AllAccepted(start, closing) == Runs.AllAccepted(start, events)
            && t.Valid() && t.span == span && (t.hist != [] ==> t.Last().finished)
  {
    var start, close := Fresh(cap, span, false), Runs.Close(true);
    Runs.RunNext(start, events, close);
    assert (events + [close])[..|events|] == events;
    assert Runs.AllAccepted(start, events) + [] == Runs.AllAccepted(start, events);
    var k := Runs.RunSaved(cap, span, events);
  }

  lemma ClosedSends(t: Tank)
    requires t.Valid() && (t.hist != [] ==> t.Last().finished) && ClosedIsSent(t)
    requires Flat(t.sent) + Runs.Unsent(t) == Flat(t.hist) <==> !Runs.LeavesEpoch(Flat(t.hist), t.span)
    ensures Flat(t.sent) == Flat(t.hist) <==> Flat(t.hist) == [] || t.span <= Flat(t.hist)[0].ts
  {
    assert Flat(t.sent) + [] == Flat(t.sent);
    if t.hist != [] {
      EpochOnly(t);
      ChainAt(t.hist, t.span, |t.hist| - 1);
      assert |Flat(t.sent) + Runs.Unsent(t)| == |Flat(t.sent)| + |Runs.Unsent(t)|;
    }
  }
}
