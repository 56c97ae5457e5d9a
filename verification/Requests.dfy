/** The range of time that is fetched to answer a request. */
module Requests {
  import opened Arith
  import opened Quantize

  /** A planned request: archive 0 holds raw points, and groups of aggNum of its points make an output point. */
  datatype Req = Req(from: int, to: int, archive: nat, archInterval: int, aggNum: int, outInterval: int) {

    predicate Valid() {
      && 1 <= from < to && 0 < archInterval && 1 <= aggNum && outInterval == aggNum * archInterval
      && 0 < outInterval && to + outInterval <= U32
    }

    /** The first and the last multiple of the output interval in [from, to), if first <= last. */
    function First(): int
      requires 0 <= from && 0 < outInterval
    {
      AlignForward(from, outInterval)
    }

    /** The multiple of the output interval before the first. */
    function Base(): int
      requires 0 <= from && 0 < outInterval
    {
      First() - outInterval
    }

    function Last(): int
      requires 0 <= to < U32 && 0 < outInterval < U32
    {
      AlignBackward(to, outInterval)
    }
  }

  datatype FetchRange = Range(from: int, to: int) | CannotRewind

  /** Raw points are not quantized yet: the points of a slot lie before it. */
  function SlotRange(r: Req): FetchRange
    requires 0 <= r.from < U32 && 0 <= r.to < U32 && 0 < r.archInterval < U32
  {
    if r.archive == 0 then
      Range(Wrap32(AlignBackward(r.from, r.archInterval) + 1), Wrap32(AlignBackward(r.to, r.archInterval) + 1))
    else Range(r.from, r.to)
  }

  /** The range widened and narrowed so that whole groups of points come back, with the right timestamps. */
  function GroupRange(from: int, to: int, r: Req): FetchRange
    requires 0 <= from < U32 && 0 <= to < U32 && 0 < r.outInterval < U32
  {
    var boundary := AlignForward(from, r.outInterval);
    var rewind := Wrap32(r.aggNum * r.archInterval);
    if boundary < rewind then CannotRewind
    else Range(boundary - rewind + 1, Wrap32(AlignBackward(to, r.outInterval) + 1))
  }

  /** The range to fetch for a request. */
  function NewRequestContext(r: Req): FetchRange
    requires 0 <= r.from < U32 && 0 <= r.to < U32 && 0 < r.archInterval < U32 && 0 < r.outInterval < U32
  {
    var base := SlotRange(r);
    if r.aggNum > 1 then GroupRange(base.from, base.to, r) else base
  }

  /** A coarser grid is part of a finer one. */
  lemma OutOnArch(r: Req)
    requires r.Valid()
    ensures r.outInterval % r.archInterval == 0 && r.archInterval <= r.outInterval
  {
    MultipleOf(r.aggNum, r.archInterval);
    ProductApart(r.archInterval, r.aggNum);
    assert r.archInterval * r.aggNum == r.outInterval;
  }

  lemma ForwardOfBack(ts: int, fine: int, coarse: int)
    requires 1 <= ts && 0 < fine < U32 && 0 < coarse && coarse % fine == 0 && ts + coarse <= U32
    ensures AlignForward(AlignBackward(ts, fine) + 1, coarse) == AlignForward(ts, coarse)
  {
    var x := AlignBackward(ts, fine) + 1;
    var f, g := AlignForward(ts, coarse), AlignForward(x, coarse);
    AlignForwardLeast(x, coarse, f);
    MultipleTransitive(g, coarse, fine);
    AlignBackwardGreatest(ts, fine, g);
    AlignForwardLeast(ts, coarse, g);
  }

  lemma BackOfBack(ts: int, fine: int, coarse: int)
    requires 1 <= ts < U32 && 0 < fine < U32 && 0 < coarse < U32 && coarse % fine == 0
    ensures AlignBackward(AlignBackward(ts, fine) + 1, coarse) == AlignBackward(ts, coarse)
  {
    var y := AlignBackward(ts, fine) + 1;
    var l, m := AlignBackward(ts, coarse), AlignBackward(y, coarse);
    MultipleTransitive(l, coarse, fine);
    AlignBackwardGreatest(ts, fine, l);
    AlignBackwardGreatest(y, coarse, l);
    AlignBackwardGreatest(ts, coarse, m);
  }

  lemma ForwardPositive(ts: int, interval: int)
    requires 1 <= ts && 0 < interval && ts + interval <= U32
    ensures interval <= AlignForward(ts, interval)
  {
    MultiplesApart(0, AlignForward(ts, interval), interval);
  }

  lemma GroupContext(from: int, to: int, r: Req)
    requires r.Valid() && r.outInterval < U32 && 0 <= from < U32 && 1 <= to < U32
    requires AlignForward(from, r.outInterval) == r.First() && AlignBackward(to, r.outInterval) == r.Last()
    ensures GroupRange(from, to, r) == Range(r.First() - r.outInterval + 1, r.Last() + 1)
  {
    ForwardPositive(r.from, r.outInterval);
  }

  lemma RawSlots(r: Req)
    requires r.Valid() && r.archive == 0 && r.archInterval < U32
    ensures SlotRange(r) == Range(AlignBackward(r.from, r.archInterval) + 1, AlignBackward(r.to, r.archInterval) + 1)
    ensures 0 <= AlignBackward(r.from, r.archInterval) && 0 <= AlignBackward(r.to, r.archInterval) < r.to
  {
  }

  lemma RawSingle(r: Req)
    requires r.Valid() && r.archive == 0 && r.aggNum == 1 && r.archInterval < U32
    ensures r.outInterval == r.archInterval
    ensures NewRequestContext(r) == Range(r.First() - r.outInterval + 1, r.Last() + 1)
  {
    assert r.outInterval == r.archInterval;
    RawSlots(r);
    BackIsForward(r.from, r.outInterval);
  }

  lemma RawGroups(r: Req)
    requires r.Valid() && r.archive == 0 && r.aggNum > 1 && r.archInterval < U32 && r.outInterval < U32
    ensures NewRequestContext(r) == Range(r.First() - r.outInterval + 1, r.Last() + 1)
  {
    var from, to := AlignBackward(r.from, r.archInterval) + 1, AlignBackward(r.to, r.archInterval) + 1;
    OutOnArch(r);
    RawSlots(r);
    ForwardOfBack(r.from, r.archInterval, r.outInterval);
    BackOfBack(r.to, r.archInterval, r.outInterval);
    GroupContext(from, to, r);
  }

  lemma RawContext(r: Req)
    requires r.Valid() && r.archive == 0
    ensures r.outInterval < U32 && r.archInterval < U32
    ensures NewRequestContext(r) == Range(r.First() - r.outInterval + 1, r.Last() + 1)
  {
    OutOnArch(r);
    if r.aggNum == 1 {
      RawSingle(r);
    } else {
      RawGroups(r);
    }
  }

  lemma RollupContext(r: Req)
    requires r.Valid() && r.archive != 0 && r.aggNum > 1
    ensures r.outInterval < U32 && r.archInterval < U32
    ensures NewRequestContext(r) == Range(r.First() - r.outInterval + 1, r.Last() + 1)
  {
    OutOnArch(r);
    GroupContext(r.from, r.to, r);
  }

  /** When groups are made or raw data is read, the fetch covers exactly the slots of the output points. */
  lemma ContextExact(r: Req)
    requires r.Valid() && (r.archive == 0 || r.aggNum > 1)
    ensures r.outInterval < U32 && r.archInterval < U32
    ensures NewRequestContext(r) == Range(r.First() - r.outInterval + 1, r.Last() + 1)
    ensures r.outInterval <= r.First()
  {
    ForwardPositive(r.from, r.outInterval);
    if r.archive == 0 {
      RawContext(r);
    } else {
      RollupContext(r);
    }
  }

  lemma BackIsForward(ts: int, interval: int)
    requires 1 <= ts && 0 < interval < U32 && ts + interval <= U32
    ensures AlignBackward(ts, interval) == AlignForward(ts, interval) - interval
  {
    var f, b := AlignForward(ts, interval), AlignBackward(ts, interval);
    ModShift(b, interval, 1);
    assert b + 1 * interval == b + interval;
    CongruentClose(f, b + interval, interval);
  }

  /** The rewind never goes too far back. */
  lemma AlwaysRewinds(r: Req)
    requires r.Valid()
    ensures r.outInterval < U32 && r.archInterval < U32 && NewRequestContext(r).Range?
  {
    OutOnArch(r);
    if r.aggNum > 1 {
      ContextExact(r);
    }
  }

  /** Some multiple of the output interval is in [from, to). */
  ghost predicate SomeOutput(r: Req)
    requires r.Valid()
  {
    exists t :: t % r.outInterval == 0 && r.from <= t < r.to
  }

  lemma SomeOutputIs(r: Req)
    requires r.Valid()
    ensures SomeOutput(r) <==> r.First() <= r.Last()
    ensures r.First() - r.outInterval <= r.Last()
  {
    if t :| t % r.outInterval == 0 && r.from <= t < r.to {
      AlignForwardLeast(r.from, r.outInterval, t);
      AlignBackwardGreatest(r.to, r.outInterval, t);
    }
    if r.First() <= r.Last() {
      assert r.First() % r.outInterval == 0 && r.from <= r.First() < r.to;
    }
    BackIsForward(r.from, r.outInterval);
    AlignBackwardGreatest(r.to, r.outInterval, AlignBackward(r.from, r.outInterval));
  }

  /**
   * The fetch range is empty exactly if there is no output point and the range is adjusted at all: the range of
   * a rollup that is read without grouping stays as it is.
   */
  lemma EmptyFetch(r: Req)
    requires r.Valid()
    ensures r.outInterval < U32 && r.archInterval < U32
    ensures var rc := NewRequestContext(r);
            rc.Range? && (rc.from == rc.to <==> (r.archive == 0 || r.aggNum > 1) && !SomeOutput(r))
  {
    AlwaysRewinds(r);
    if r.archive == 0 || r.aggNum > 1 {
      ContextExact(r);
      SomeOutputIs(r);
      if r.Last() < r.First() {
        MultiplesApart(r.Last(), r.First(), r.outInterval);
      }
    }
  }

  /** A request for a 10-second rollup from 1 to 5 has no output point, and yet something is fetched for it. */
  lemma FetchesForNothing()
    ensures var r := Req(1, 5, 1, 10, 1, 10);
            r.Valid() && !SomeOutput(r) && NewRequestContext(r) == Range(1, 5)
  {
    var r := Req(1, 5, 1, 10, 1, 10);
    SomeOutputIs(r);
    assert r.First() == 10 && r.Last() == 0;
  }
}
