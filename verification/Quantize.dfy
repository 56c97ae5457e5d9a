/** The rounding of 32-bit timestamps to a grid of multiples of an interval. */
module Quantize {
  import opened Arith

  const U32: int := 0x1_0000_0000

  /** Timestamps are checked to be below this value when they are ingested. */
  const MAX_INT32: int := 0x7fff_ffff

  /** The value an unsigned 32-bit register holds after computing x. */
  function Wrap32(x: int): (r: int)
    ensures 0 <= r < U32
    ensures 0 <= x < U32 ==> r == x
    ensures -U32 <= x < 0 ==> r == x + U32
    ensures U32 <= x < 2 * U32 ==> r == x - U32
  {
    x % U32
  }

  function AlignForward(ts: int, interval: int): (r: int)
    requires 0 <= ts && 0 < interval
    ensures ts + interval <= U32 ==> r % interval == 0 && ts <= r < ts + interval
  {
    var remain := ts % interval;
    if remain == 0 then ts
    else
      assert (ts + interval - remain) % interval == 0 by {
        RoundedDown(ts, interval);
        ModShift(ts - remain, interval, 1);
      }
      Wrap32(ts + interval - remain)
  }

  function AlignBackward(ts: int, interval: int): (r: int)
    requires 0 <= ts < U32 && 0 < interval < U32
    ensures 1 <= ts ==> r % interval == 0 && ts - interval <= r < ts && 0 <= r
  {
    var back := Wrap32(ts - 1) % interval + 1;
    assert 1 <= ts ==> ts - back >= 0 && (ts - back) % interval == 0 by {
      if 1 <= ts {
        RoundedDown(ts - 1, interval);
      }
    }
    Wrap32(ts - back)
  }

  lemma BoundaryOnGrid(ts: int, span: int)
    requires 0 <= ts < U32 && 0 < span
    ensures 1 <= ts ==> (ts + span - (Wrap32(ts - 1) % span + 1)) % span == 0
  {
    if 1 <= ts {
      RoundedDown(ts - 1, span);
      var b := ts - 1 - (ts - 1) % span;
      ModShift(b, span, 1);
      assert ts + span - (Wrap32(ts - 1) % span + 1) == b + 1 * span;
    }
  }

  function AggBoundary(ts: int, span: int): (r: int)
    requires 0 <= ts < U32 && 0 < span < U32
    ensures 1 <= ts && ts + span <= U32 ==> r % span == 0 && ts <= r < ts + span
  {
    var back := Wrap32(ts - 1) % span + 1;
    BoundaryOnGrid(ts, span);
    Wrap32(ts + span - back)
  }

  /** AlignForward is the least grid point at or after ts. */
  lemma AlignForwardLeast(ts: int, interval: int, t: int)
    requires 0 <= ts && 0 < interval && ts + interval <= U32
    requires t % interval == 0
    ensures ts <= t <==> AlignForward(ts, interval) <= t
  {
    var r := AlignForward(ts, interval);
    if ts <= t && t < r {
      MultiplesApart(t, r, interval);
    }
  }

  /** AlignBackward is the greatest grid point strictly before ts. */
  lemma AlignBackwardGreatest(ts: int, interval: int, t: int)
    requires 1 <= ts < U32 && 0 < interval < U32
    requires t % interval == 0
    ensures t < ts <==> t <= AlignBackward(ts, interval)
  {
    var r := AlignBackward(ts, interval);
    if r < t && t < ts {
      MultiplesApart(r, t, interval);
    }
  }

  /** A bucket boundary is the grid point whose half-open interval (b - span, b] holds the timestamp. */
  lemma BoundaryBucket(ts: int, span: int, b: int)
    requires 1 <= ts && 0 < span && ts + span <= U32
    requires b % span == 0
    ensures AggBoundary(ts, span) == b <==> b - span < ts <= b
    ensures AggBoundary(ts, span) == AlignForward(ts, span)
  {
    var r := AggBoundary(ts, span);
    if b - span < ts <= b {
      CongruentClose(r, b, span);
    }
    CongruentClose(r, AlignForward(ts, span), span);
  }
}
