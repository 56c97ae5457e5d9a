/** From the raw points that a metric received to the slots from which a request is answered. */
module RawAnswers {
  import opened Canonical
  import opened Fetch
  import opened Fixed
  import opened Points
  import opened Quantize
  import opened Requests
  import opened Tanks
  import opened TankQuery
  import opened TankRuns

  /** Snapping to the grid hides that a chunk was read from memory and from the store. */
  lemma FixHidesRepeats(t: Tank, k: int, from: int, to: int, first: int, last: int, interval: int)
    requires t.Valid() && SavedUpTo(t, k) && 0 <= from < to && 0 < interval && !MissesEpoch(t, from, to)
    ensures Scan(Fetched(t, from, to), first, last, interval) == Slots(In(Flat(t.hist), from, to), first, last, interval)
  {
    var all := In(Flat(t.hist), from, to);
    var m := FetchShape(t, k, from, to);
    ScanTwice(all, m, first, last, interval);
    HistAscending(t);
    AscendingSorted(Flat(t.hist));
    InSorted(Flat(t.hist), from, to);
    ScanSorted(all, first, last, interval);
  }

  lemma FetchedSlots(t: Tank, k: int, from: int, to: int, interval: int, first: int, last: int, fetched: seq<Point>)
    requires t.Valid() && SavedUpTo(t, k) && 0 <= from < to && 0 < interval && !MissesEpoch(t, from, to)
    requires first == from + interval - 1 && last < to && fetched == Fetched(t, from, to)
    ensures Scan(fetched, first, last, interval) == Slots(Flat(t.hist), first, last, interval)
  {
    FixHidesRepeats(t, k, from, to, first, last, interval);
    SlotsWithin(Flat(t.hist), from, to, first, last, interval);
  }

  /** The range that is fetched for a raw request, and the slots it is snapped to. */
  lemma RawRange(r: Req, from: int, to: int)
    requires r.Valid() && r.archive == 0 && SomeOutput(r) && r.archInterval < U32 && r.outInterval < U32
    requires NewRequestContext(r) == Range(from, to)
    ensures 0 <= from < to < U32 && from == r.Base() + 1 && to == r.Last() + 1
    ensures AlignForward(from, r.archInterval) == from + r.archInterval - 1
    ensures AlignBackward(to, r.archInterval) == to - 1
  {
    ContextExact(r);
    SomeOutputIs(r);
    OnGrid(r, from, to);
  }

  lemma OnGrid(r: Req, from: int, to: int)
    requires r.Valid() && r.archInterval < U32 && r.outInterval < U32 && from == r.Base() + 1 && to == r.Last() + 1
    ensures 0 <= from && 0 <= to < U32
    ensures AlignForward(from, r.archInterval) == from + r.archInterval - 1
    ensures AlignBackward(to, r.archInterval) == to - 1
  {
    FixedRange(r);
  }

  /**
   * A raw request is answered from exactly the slots of all points the metric ever accepted: snapping what memory
   * and the store return for the range of the request gives these slots.
   */
  lemma RawAnswer(t: Tank, k: int, r: Req, fetched: seq<Point>)
    requires t.Valid() && SavedUpTo(t, k)
    requires r.Valid() && 0 <= r.Base() < r.Last() && !MissesEpoch(t, r.Base() + 1, r.Last() + 1)
    requires fetched == Fetched(t, r.Base() + 1, r.Last() + 1)
    ensures Scan(fetched, r.Base() + r.archInterval, r.Last(), r.archInterval) == NeededSlots(Flat(t.hist), r)
  {
    FetchedSlots(t, k, r.Base() + 1, r.Last() + 1, r.archInterval, r.Base() + r.archInterval, r.Last(), fetched);
  }

  /** The same over whole runs of a node that is the primary all along. */
  lemma RunAnswer(t: Tank, all: seq<Point>, events: seq<Event>, r: Req, fetched: seq<Point>)
    requires 0 < t.cap && 0 < t.span <= MAX_INT32 && TankRuns.Proper(events)
    requires PrimaryOnly(Tanks.Fresh(t.cap, t.span, false), events)
    requires t == TankRuns.Run(Tanks.Fresh(t.cap, t.span, false), events)
    requires all == AllAccepted(Tanks.Fresh(t.cap, t.span, false), events)
    requires r.Valid() && 0 <= r.Base() < r.Last() && !MissesEpoch(t, r.Base() + 1, r.Last() + 1)
    requires fetched == Fetched(t, r.Base() + 1, r.Last() + 1)
    ensures Scan(fetched, r.Base() + r.archInterval, r.Last(), r.archInterval) == NeededSlots(all, r)
  {
    var k := RunSaved(t.cap, t.span, events);
    SentInOrderOverRuns(t.cap, t.span, false, events);
    RawAnswer(t, k, r, fetched);
  }
}
