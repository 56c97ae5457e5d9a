/** Answering one request: fetch, fix, group, and divide sums by counts where an average of rollups is asked for. */
module Targets {
  import opened Batch
  import opened Canonical
  import opened Consolidation
  import opened Fixed
  import opened Grids
  import opened Points
  import opened Quantize
  import opened Requests

  lemma SlotsInRange(stored: seq<Point>, r: Req)
    requires r.Valid()
    ensures forall i :: 0 <= i < |NeededSlots(stored, r)| ==> 0 <= NeededSlots(stored, r)[i].ts < U32
  {
    OutOnArch(r);
    FixedRange(r);
    var t := r.Base() + r.archInterval;
    SlotsLater(stored, t, r.Last(), r.archInterval);
    SlotsUpTo(stored, t, r.Last(), r.archInterval);
  }

  lemma {:induction false} SlotsUpTo(s: seq<Point>, t: int, last: int, interval: int)
    requires 0 < interval
    ensures forall i :: 0 <= i < |Slots(s, t, last, interval)| ==> Slots(s, t, last, interval)[i].ts <= last
    decreases last - t
  {
    if t <= last {
      SlotsUpTo(s, t + interval, last, interval);
    }
  }

  /** Groups the slots of a request, if it asks for that. */
  method GroupSeries(slots: seq<Point>, r: Req, c: Consolidator, ghost stored: seq<Point>) returns (out: seq<Point>)
    requires r.Valid() && slots == NeededSlots(stored, r)
    ensures IsCanonical(out, stored, r, c)
  {
    out := slots;
    if r.aggNum <= 1 {
      SingleCanonical(stored, r, c);
      return;
    }
    SlotsInRange(stored, r);
    var a := new Point[|out|](i requires 0 <= i < |out| => out[i]);
    assert a[..] == out && a[0..] == a[..];
    var n := Consolidate(a, 0, r.aggNum, c);
    GroupedCanonical(stored, r, c);
    assert a[0..0 + n] == a[..n];
    out := a[..n];
  }

  /** The series for a request, from raw points or from the rollup series that the consolidator names. */
  method GetTarget(stored: seq<Point>, r: Req, c: Consolidator) returns (out: seq<Point>)
    requires r.Valid() && Readable(stored, r)
    ensures IsCanonical(out, stored, r, c)
  {
    out := GetSeriesFixed(stored, r);
    out := GroupSeries(out, r, c, stored);
  }

  /** Pointwise quotients: multiplied by the second series they give the first, whose times they have. */
  ghost predicate AreQuotients(q: seq<Point>, a: seq<Point>, b: seq<Point>) {
    && |q| == |a| == |b|
    && forall i :: 0 <= i < |q| ==> q[i].ts == a[i].ts && IsQuotient(q[i].val, a[i].val, b[i].val)
  }

  /** Divides in place; series of different lengths cannot be divided. */
  method Divide(a: array<Point>, b: array<Point>) returns (ok: bool)
    requires a != b
    modifies a
    ensures ok <==> a.Length == b.Length
    ensures ok ==> AreQuotients(a[..], old(a[..]), b[..])
    ensures !ok ==> a[..] == old(a[..])
  {
    ok := a.Length == b.Length;
    if ok {
      for i := 0 to a.Length
        invariant forall j :: 0 <= j < i ==> a[j].ts == old(a[j]).ts && IsQuotient(a[j].val, old(a[j]).val, b[j].val)
        invariant forall j :: i <= j < a.Length ==> a[j] == old(a[j])
      {
        RatioExactly(Ratio(a[i].val, b[i].val), a[i].val, b[i].val);
        a[i] := Point(a[i].ts, Ratio(a[i].val, b[i].val));
      }
    }
  }

  /** The average at time t, from the rollup sums and counts. */
  function AveragePoint(sums: seq<Point>, cnts: seq<Point>, r: Req, t: int): Point
    requires 0 < r.archInterval
  {
    Point(t, Ratio(OutputPoint(sums, r, Sum, t).val, OutputPoint(cnts, r, Sum, t).val))
  }

  /** Multiplied by the count of its time, the point gives the sum. */
  ghost predicate IsAverageAt(p: Point, sums: seq<Point>, cnts: seq<Point>, r: Req)
    requires 0 < r.archInterval
  {
    IsQuotient(p.val, OutputPoint(sums, r, Sum, p.ts).val, OutputPoint(cnts, r, Sum, p.ts).val)
  }

  /** One average for each multiple of the output interval in [from, to). */
  ghost predicate IsAverage(out: seq<Point>, sums: seq<Point>, cnts: seq<Point>, r: Req)
    requires r.Valid()
  {
    && Tick(r.Base(), r.outInterval, |out|) == r.Last()
    && Even(out, r.Base() + r.outInterval, r.outInterval)
    && forall k :: 0 <= k < |out| ==> IsAverageAt(out[k], sums, cnts, r)
  }

  lemma SameCount(m: nat, n: nat, b: int, span: int)
    requires 0 < span && Tick(b, span, m) == Tick(b, span, n)
    ensures m == n
  {
    if m < n {
      TickGrows(b, span, m, n);
    } else if n < m {
      TickGrows(b, span, n, m);
    }
  }

  lemma QuotientsAverage(out: seq<Point>, sum: seq<Point>, cnt: seq<Point>, sums: seq<Point>, cnts: seq<Point>, r: Req)
    requires r.Valid() && IsCanonical(sum, sums, r, Sum) && IsCanonical(cnt, cnts, r, Sum)
    requires AreQuotients(out, sum, cnt)
    ensures IsAverage(out, sums, cnts, r)
  {
    forall k | 0 <= k < |out|
      ensures IsAverageAt(out[k], sums, cnts, r)
    {
      assert sum[k].ts == cnt[k].ts == Tick(r.Base() + r.outInterval, r.outInterval, k);
      QuotientAt(out[k], sum[k], cnt[k], sums, cnts, r);
    }
  }

  lemma QuotientAt(q: Point, a: Point, b: Point, sums: seq<Point>, cnts: seq<Point>, r: Req)
    requires 0 < r.archInterval && q.ts == a.ts == b.ts && IsQuotient(q.val, a.val, b.val)
    requires a == OutputPoint(sums, r, Sum, a.ts) && b == OutputPoint(cnts, r, Sum, b.ts)
    ensures IsAverageAt(q, sums, cnts, r)
  {
  }

  /** Divides a series of sums by one of counts; the division never meets series of different lengths. */
  method DivideSeries(sum: seq<Point>, cnt: seq<Point>, r: Req, ghost sums: seq<Point>, ghost cnts: seq<Point>)
    returns (out: seq<Point>)
    requires r.Valid() && IsCanonical(sum, sums, r, Sum) && IsCanonical(cnt, cnts, r, Sum)
    ensures IsAverage(out, sums, cnts, r)
  {
    SameCount(|sum|, |cnt|, r.Base(), r.outInterval);
    var a := new Point[|sum|](i requires 0 <= i < |sum| => sum[i]);
    var b := new Point[|cnt|](i requires 0 <= i < |cnt| => cnt[i]);
    assert a[..] == sum && b[..] == cnt;
    var ok := Divide(a, b);
    assert ok;
    out := a[..];
    QuotientsAverage(out, sum, cnt, sums, cnts, r);
  }

  /** The average of rollups. */
  method GetAverage(sums: seq<Point>, cnts: seq<Point>, r: Req) returns (out: seq<Point>)
    requires r.Valid() && r.archive != 0 && Readable(sums, r) && Readable(cnts, r)
    ensures IsAverage(out, sums, cnts, r)
  {
    var sum := GetTarget(sums, r, Sum);
    var cnt := GetTarget(cnts, r, Sum);
    out := DivideSeries(sum, cnt, r, sums, cnts);
  }
}
