/** What the rollup series of a metric say about its raw points. */
module Rollups {
  import opened Arith
  import opened Batch
  import opened Buckets
  import opened Points
  import opened Quantize

  // ---------------------------------------------------------------------------------------------
  // Which points each flushed bucket holds.

  /** The buckets that end in (lo, hi]. */
  function Select(done: seq<Bucket>, lo: int, hi: int): seq<Bucket> {
    if done == [] then []
    else
      var b := done[|done| - 1];
      var rest := Select(done[..|done| - 1], lo, hi);
      if lo < b.ts <= hi then rest + [b] else rest
  }

  /** The points of a bucket are all inside an aligned range or all outside, as its end is. */
  lemma BucketIn(b: Bucket, span: int, lo: int, hi: int)
    requires 0 < span && b.ts % span == 0 && Inside(b.points, b.ts, span) && lo % span == 0 && hi % span == 0
    ensures lo < b.ts <= hi ==> In(b.points, lo + 1, hi + 1) == b.points
    ensures !(lo < b.ts <= hi) ==> In(b.points, lo + 1, hi + 1) == []
  {
    if lo < b.ts <= hi {
      MultiplesApart(lo, b.ts, span);
      InAll(b.points, lo + 1, hi + 1);
    } else if hi < b.ts {
      MultiplesApart(hi, b.ts, span);
      InNone(b.points, lo + 1, hi + 1);
    } else {
      InNone(b.points, lo + 1, hi + 1);
    }
  }

  lemma {:induction false} ContentsIn(done: seq<Bucket>, span: int, lo: int, hi: int)
    requires 0 < span && Grouped(done, span) && lo % span == 0 && hi % span == 0
    ensures In(Contents(done), lo + 1, hi + 1) == Contents(Select(done, lo, hi))
  {
    if done != [] {
      var init, b := done[..|done| - 1], done[|done| - 1];
      ContentsIn(init, span, lo, hi);
      InConcat(Contents(init), b.points, lo + 1, hi + 1);
      BucketIn(b, span, lo, hi);
      ContentsNext(Select(init, lo, hi), b);
    }
  }

  /** Once a point at or after hi was received, the points of (lo, hi] are all in flushed buckets. */
  lemma CompletedIn(g: Progress, s: seq<Point>, lo: int, hi: int)
    requires 0 < g.span && Steady(g, s) && lo % g.span == 0 && hi % g.span == 0
    requires s != [] && hi <= s[|s| - 1].ts
    ensures In(s, lo + 1, hi + 1) == Contents(Select(g.done, lo, hi))
  {
    ContentsIn(g.done, g.span, lo, hi);
    InConcat(Contents(g.done), g.pending, lo + 1, hi + 1);
    if g.pending != [] {
      MultiplesApart(hi, g.boundary, g.span);
      InNone(g.pending, lo + 1, hi + 1);
    }
  }

  lemma {:induction false} GroupedAt(done: seq<Bucket>, span: int, i: int)
    requires 0 < span && Grouped(done, span) && 0 <= i < |done|
    ensures done[i].ts % span == 0 && 0 < done[i].ts <= LastDone(done) && Inside(done[i].points, done[i].ts, span)
    ensures i < |done| - 1 ==> done[i].ts < LastDone(done)
  {
    if i < |done| - 1 {
      GroupedAt(done[..|done| - 1], span, i);
    }
  }

  /** Buckets are flushed in strict time order. */
  lemma {:induction false} FlushOrder(done: seq<Bucket>, span: int, i: int, j: int)
    requires 0 < span && Grouped(done, span) && 0 <= i < j < |done|
    ensures done[i].ts < done[j].ts
  {
    if j == |done| - 1 {
      GroupedAt(done, span, i);
    } else {
      FlushOrder(done[..|done| - 1], span, i, j);
    }
  }

  lemma {:induction false} SelectOne(done: seq<Bucket>, span: int, i: int)
    requires 0 < span && Grouped(done, span) && 0 <= i < |done|
    ensures Select(done, done[i].ts - span, done[i].ts) == [done[i]]
  {
    var init, b := done[..|done| - 1], done[|done| - 1];
    if i < |done| - 1 {
      GroupedAt(done, span, i);
      SelectOne(init, span, i);
    } else {
      if init != [] {
        MultiplesApart(LastDone(init), b.ts, span);
      }
      SelectBelow(init, span, b.ts - span, b.ts);
    }
  }

  lemma {:induction false} SelectBelow(done: seq<Bucket>, span: int, lo: int, hi: int)
    requires 0 < span && Grouped(done, span) && (done != [] ==> LastDone(done) <= lo)
    ensures Select(done, lo, hi) == []
  {
    if done != [] {
      SelectBelow(done[..|done| - 1], span, lo, hi);
    }
  }

  lemma {:induction false} SelectNone(done: seq<Bucket>, span: int, lo: int, hi: int)
    requires 0 < span && Grouped(done, span)
    requires lo % span == 0 && hi % span == 0 && hi == lo + span
    requires forall i :: 0 <= i < |done| ==> done[i].ts != hi
    ensures Select(done, lo, hi) == []
  {
    if done != [] {
      SelectNone(done[..|done| - 1], span, lo, hi);
      if lo < done[|done| - 1].ts < hi {
        MultiplesApart(lo, done[|done| - 1].ts, span);
      }
    }
  }

  /** Some point at or after b was received, so that the bucket that ends at b is complete. */
  predicate Completed(s: seq<Point>, b: int) {
    s != [] && b <= s[|s| - 1].ts
  }

  lemma DoneCompleted(g: Progress, s: seq<Point>, i: int)
    requires 0 < g.span && InStep(g, s) && 0 <= i < |g.done|
    ensures Completed(s, g.done[i].ts)
  {
    GroupedAt(g.done, g.span, i);
    assert Contents(g.done) != [] by {
      assert Contents(g.done) == Contents(g.done[..|g.done| - 1]) + g.done[|g.done| - 1].points;
    }
    if g.pending != [] {
      MultiplesApart(LastDone(g.done), g.boundary, g.span);
    }
  }

  lemma SpanBack(b: int, span: int)
    requires 0 < span && b % span == 0
    ensures (b - span) % span == 0
  {
    ModShift(b, span, -1);
    assert b + -1 * span == b - span;
  }

  lemma DonePoints(g: Progress, s: seq<Point>, i: int, lo: int, hi: int)
    requires 0 < g.span && InStep(g, s) && 0 <= i < |g.done|
    requires hi == g.done[i].ts && lo == hi - g.span && Completed(s, hi)
    ensures In(s, lo + 1, hi + 1) == g.done[i].points
  {
    GroupedAt(g.done, g.span, i);
    SpanBack(hi, g.span);
    OneBucket(g.done, g.span, i);
    CompletedIn(g, s, lo, hi);
  }

  lemma OneBucket(done: seq<Bucket>, span: int, i: int)
    requires 0 < span && Grouped(done, span) && 0 <= i < |done|
    ensures Contents(Select(done, done[i].ts - span, done[i].ts)) == done[i].points
  {
    SelectOne(done, span, i);
    ContentsOne(done[i]);
  }

  lemma ContentsOne(b: Bucket)
    ensures Contents([b]) == b.points
  {
    assert [b][..0] == [];
  }

  lemma NotDone(g: Progress, s: seq<Point>, b: int)
    requires 0 < g.span && InStep(g, s) && b % g.span == 0 && Completed(s, b)
    requires forall i :: 0 <= i < |g.done| ==> g.done[i].ts != b
    ensures In(s, b - g.span + 1, b + 1) == []
  {
    SpanBack(b, g.span);
    NoneSelected(g, s, b - g.span, b);
  }

  lemma NoneSelected(g: Progress, s: seq<Point>, lo: int, hi: int)
    requires 0 < g.span && InStep(g, s) && lo % g.span == 0 && hi % g.span == 0 && lo == hi - g.span && Completed(s, hi)
    requires forall i :: 0 <= i < |g.done| ==> g.done[i].ts != hi
    ensures In(s, lo + 1, hi + 1) == []
  {
    CompletedIn(g, s, lo, hi);
    SelectNone(g.done, g.span, lo, hi);
  }

  lemma DoneBucket(g: Progress, s: seq<Point>, i: int)
    requires 0 < g.span && InStep(g, s) && 0 <= i < |g.done|
    ensures g.done[i].ts % g.span == 0 && g.done[i].points != []
    ensures g.done[i].points == In(s, g.done[i].ts - g.span + 1, g.done[i].ts + 1)
    ensures 0 < i ==> g.done[i - 1].ts < g.done[i].ts
  {
    GroupedAt(g.done, g.span, i);
    DoneCompleted(g, s, i);
    DonePoints(g, s, i, g.done[i].ts - g.span, g.done[i].ts);
    if 0 < i {
      FlushOrder(g.done, g.span, i - 1, i);
    }
  }

  /** Each flushed bucket holds exactly the points of the stream in its time range, and flushes are in time order. */
  lemma FlushedPoints(g: Progress, s: seq<Point>, i: int)
    requires 0 < g.span < U32 && Stream(s, g.span) && g == RunStream(Fresh(g.span), s) && 0 <= i < |g.done|
    ensures g.done[i].ts % g.span == 0 && g.done[i].points != []
    ensures g.done[i].points == In(s, g.done[i].ts - g.span + 1, g.done[i].ts + 1)
    ensures 0 < i ==> g.done[i - 1].ts < g.done[i].ts
  {
    RunInStep(g.span, s);
    DoneBucket(g, s, i);
  }

  predicate IsFlushed(done: seq<Bucket>, b: int) {
    exists i :: 0 <= i < |done| && done[i].ts == b
  }

  /** A bucket is flushed exactly if it has points and is complete. */
  lemma FlushedBuckets(g: Progress, s: seq<Point>, b: int)
    requires 0 < g.span < U32 && Stream(s, g.span) && g == RunStream(Fresh(g.span), s) && b % g.span == 0
    ensures IsFlushed(g.done, b) <==> Completed(s, b) && In(s, b - g.span + 1, b + 1) != []
  {
    RunInStep(g.span, s);
    if i :| 0 <= i < |g.done| && g.done[i].ts == b {
      FlushedIs(g, s, i, b);
    } else if Completed(s, b) {
      NotDone(g, s, b);
    }
  }

  lemma FlushedIs(g: Progress, s: seq<Point>, i: int, b: int)
    requires 0 < g.span && InStep(g, s) && 0 <= i < |g.done| && g.done[i].ts == b
    ensures Completed(s, b) && In(s, b - g.span + 1, b + 1) != []
  {
    DoneCompleted(g, s, i);
    DoneBucket(g, s, i);
  }

  // ---------------------------------------------------------------------------------------------
  // The statistics a bucket is summarised by.

  /** The largest finite float64. */
  const MAX_FLOAT64: real :=
    179769313486231570814527423731704356798070567525844996598917476803157260780028538760589558632766878171540458953514382464234321326889464182768467546703537516986049910576551282076245490090389328944075868508455133942304583236903222948165808559332123347764797926204144723168738177180919299881250404026184124858368.0

  predicate Finite(v: Value) {
    v.Num? ==> -MAX_FLOAT64 <= v.v <= MAX_FLOAT64
  }

  /** Floating-point minimum, maximum and sum: any operand without a value spoils the result. */
  function FloatMin(a: Value, b: Value): Value {
    if a.Null? || b.Null? then Null else if a.v < b.v then a else b
  }

  function FloatMax(a: Value, b: Value): Value {
    if a.Null? || b.Null? then Null else if a.v > b.v then a else b
  }

  function FloatSum(a: Value, b: Value): Value {
    if a.Null? || b.Null? then Null else Num(a.v + b.v)
  }

  datatype Stats = Stats(min: Value, max: Value, sum: Value, cnt: real, lst: Value) {

    function Add(v: Value): Stats {
      Stats(FloatMin(v, min), FloatMax(v, max), FloatSum(sum, v), cnt + 1.0, v)
    }

    /** Clears all but the last value. */
    function Reset(): Stats {
      Stats(Num(MAX_FLOAT64), Num(-MAX_FLOAT64), Num(0.0), 0.0, lst)
    }

    function Get(c: Consolidator): Value
      requires !c.Avg?
    {
      match c
      case Min => min
      case Max => max
      case Sum => sum
      case Cnt => Num(cnt)
      case Lst => lst
    }
  }

  /** The running statistics after the given points; `lst` is the last value before them. */
  function Summary(points: seq<Point>, lst: Value): Stats {
    if points == [] then Stats(Null, Null, Null, 0.0, lst).Reset()
    else Summary(points[..|points| - 1], lst).Add(points[|points| - 1].val)
  }

  ghost predicate AllFinite(points: seq<Point>) {
    forall p :: p in points ==> Finite(p.val)
  }

  ghost predicate AllPresent(points: seq<Point>) {
    forall p :: p in points ==> p.val.Num?
  }

  ghost predicate NonePresent(points: seq<Point>) {
    forall p :: p in points ==> p.val.Null?
  }

  /** The batch statistic, with the start value of the running statistic for an empty batch. */
  function Started(c: Consolidator, s: seq<Point>): Value
    requires c.Min? || c.Max? || c.Sum?
  {
    if s == [] then Stats(Null, Null, Null, 0.0, Null).Reset().Get(c) else Fold(c, s)
  }

  lemma {:induction false} SummaryPresent(c: Consolidator, points: seq<Point>, lst: Value)
    requires (c.Min? || c.Max? || c.Sum?) && AllFinite(points) && AllPresent(points)
    ensures Summary(points, lst).Get(c) == Started(c, points)
    ensures points != [] ==> Fold(c, points).Num?
  {
    FoldNull(c, points);
    if points != [] {
      var init, p := points[..|points| - 1], points[|points| - 1];
      assert p in points;
      SummaryPresent(c, init, lst);
    }
  }

  lemma {:induction false} SummarySpoilt(c: Consolidator, points: seq<Point>, lst: Value)
    requires c.Min? || c.Max? || c.Sum?
    ensures Summary(points, lst).Get(c).Num? <==> AllPresent(points)
  {
    if points != [] {
      var init, p := points[..|points| - 1], points[|points| - 1];
      assert points == init + [p];
      SummarySpoilt(c, init, lst);
    }
  }

  lemma {:induction false} SummaryCnt(points: seq<Point>, lst: Value)
    ensures Summary(points, lst).cnt == |points| as real
    ensures Present(points) <= |points|
    ensures Present(points) == |points| <==> AllPresent(points)
  {
    if points != [] {
      var init, p := points[..|points| - 1], points[|points| - 1];
      assert points == init + [p];
      SummaryCnt(init, lst);
    }
  }

  /**
   * When the running statistics of a non-empty bucket are those of the batch functions: always if every point has a
   * value, and otherwise only where the missing values change nothing.
   */
  lemma SummaryIsBatch(c: Consolidator, points: seq<Point>, lst: Value)
    requires !c.Avg? && points != [] && AllFinite(points)
    ensures Summary(points, lst).Get(c) == Fold(c, points) <==>
              match c
              case Cnt => AllPresent(points)
              case Lst => points[|points| - 1].val.Num? || NonePresent(points)
              case _ => AllPresent(points) || NonePresent(points)
  {
    FoldNull(c, points);
    assert points[|points| - 1] in points;
    match c
    case Cnt =>
      SummaryCnt(points, lst);
      FoldCnt(points);
    case Lst =>
    case _ =>
      SummarySpoilt(c, points, lst);
      if AllPresent(points) {
        SummaryPresent(c, points, lst);
      }
  }

  // ---------------------------------------------------------------------------------------------
  // Consolidating rollups.

  /** The rollup series of one statistic. */
  function Series(c: Consolidator, done: seq<Bucket>): seq<Point>
    requires !c.Avg?
  {
    if done == [] then []
    else
      var b := done[|done| - 1];
      Series(c, done[..|done| - 1]) + [Point(b.ts, Summary(b.points, Null).Get(c))]
  }

  /** How rollup points of a statistic are consolidated further: counts are added up. */
  function Merge(c: Consolidator): Consolidator {
    if c.Cnt? then Sum else c
  }

  lemma SeriesNext(c: Consolidator, done: seq<Bucket>, b: Bucket)
    requires !c.Avg?
    ensures Series(c, done + [b]) == Series(c, done) + [Point(b.ts, Summary(b.points, Null).Get(c))]
  {
    assert (done + [b])[..|done|] == done;
  }

  lemma {:induction false} SeriesIn(c: Consolidator, done: seq<Bucket>, lo: int, hi: int)
    requires !c.Avg?
    ensures In(Series(c, done), lo + 1, hi + 1) == Series(c, Select(done, lo, hi))
  {
    if done != [] {
      var init, b := done[..|done| - 1], done[|done| - 1];
      SeriesIn(c, init, lo, hi);
      SeriesNext(c, Select(init, lo, hi), b);
      assert Series(c, done)[..|Series(c, done)| - 1] == Series(c, init);
    }
  }

  lemma FoldNext(c: Consolidator, s: seq<Point>, p: Point)
    ensures Fold(c, s + [p]) == Combine(c, Fold(c, s), Single(c, p.val))
  {
    assert (s + [p])[..|s|] == s;
  }

  lemma NextFold(c: Consolidator, chosen: seq<Bucket>, b: Bucket)
    requires !c.Avg? && b.points != [] && AllFinite(b.points) && AllPresent(b.points)
    requires Fold(Merge(c), Series(c, chosen)) == Fold(c, Contents(chosen))
    ensures Fold(Merge(c), Series(c, chosen + [b])) == Fold(c, Contents(chosen + [b]))
  {
    SeriesNext(c, chosen, b);
    FoldNext(Merge(c), Series(c, chosen), Point(b.ts, Summary(b.points, Null).Get(c)));
    SummaryIsBatch(c, b.points, Null);
    assert b.points[|b.points| - 1] in b.points;
    ContentsNext(chosen, b);
    FoldConcat(c, Contents(chosen), b.points);
  }

  lemma {:induction false} SelectedFold(c: Consolidator, done: seq<Bucket>, span: int, lo: int, hi: int)
    requires 0 < span && !c.Avg? && Grouped(done, span)
    requires AllFinite(Contents(Select(done, lo, hi))) && AllPresent(Contents(Select(done, lo, hi)))
    ensures Fold(Merge(c), Series(c, Select(done, lo, hi))) == Fold(c, Contents(Select(done, lo, hi)))
  {
    if done != [] {
      var init, b := done[..|done| - 1], done[|done| - 1];
      if lo < b.ts <= hi {
        var chosen := Select(init, lo, hi);
        ContentsNext(chosen, b);
        assert forall p :: p in Contents(chosen) ==> p in Contents(Select(done, lo, hi));
        assert forall p :: p in b.points ==> p in Contents(Select(done, lo, hi));
        SelectedFold(c, init, span, lo, hi);
        NextFold(c, chosen, b);
      } else {
        SelectedFold(c, init, span, lo, hi);
      }
    }
  }

  /** A count as the statistic of that many values. */
  function Counted(n: nat): Value {
    if n == 0 then Null else Num(n as real)
  }

  lemma NextCnt(chosen: seq<Bucket>, b: Bucket)
    requires b.points != [] && Fold(Sum, Series(Cnt, chosen)) == Counted(|Contents(chosen)|)
    ensures Fold(Sum, Series(Cnt, chosen + [b])) == Counted(|Contents(chosen + [b])|)
  {
    SeriesNext(Cnt, chosen, b);
    SummaryCnt(b.points, Null);
    FoldNext(Sum, Series(Cnt, chosen), Point(b.ts, Summary(b.points, Null).Get(Cnt)));
    ContentsNext(chosen, b);
  }

  lemma {:induction false} SelectedCnt(done: seq<Bucket>, span: int, lo: int, hi: int)
    requires 0 < span && Grouped(done, span)
    ensures Fold(Sum, Series(Cnt, Select(done, lo, hi))) == Counted(|Contents(Select(done, lo, hi))|)
  {
    if done != [] {
      var init, b := done[..|done| - 1], done[|done| - 1];
      SelectedCnt(init, span, lo, hi);
      NextCnt(Select(init, lo, hi), b);
    }
  }

  /** What consolidating the rollup points of (lo, hi] gives. */
  function Consolidated(c: Consolidator, done: seq<Bucket>, lo: int, hi: int): Value {
    if c.Avg? then
      Ratio(Fold(Sum, In(Series(Sum, done), lo + 1, hi + 1)), Fold(Sum, In(Series(Cnt, done), lo + 1, hi + 1)))
    else Fold(Merge(c), In(Series(c, done), lo + 1, hi + 1))
  }

  /** The range (lo, hi] of a stream is made up of whole, complete buckets, none of which was reopened. */
  ghost predicate Covered(g: Progress, s: seq<Point>, lo: int, hi: int) {
    && 0 < g.span < U32 && Stream(s, g.span) && Steady(g, s)
    && lo % g.span == 0 && hi % g.span == 0 && Completed(s, hi)
  }

  lemma CoveredIn(g: Progress, s: seq<Point>, lo: int, hi: int)
    requires Covered(g, s, lo, hi)
    ensures In(s, lo + 1, hi + 1) == Contents(Select(g.done, lo, hi)) && Grouped(g.done, g.span)
  {
    CompletedIn(g, s, lo, hi);
  }

  lemma DoneCompose(done: seq<Bucket>, span: int, c: Consolidator, lo: int, hi: int, raw: seq<Point>)
    requires 0 < span && Grouped(done, span) && raw == Contents(Select(done, lo, hi))
    requires AllFinite(raw) && AllPresent(raw)
    ensures Consolidated(c, done, lo, hi) == Aggregate(c, raw)
  {
    if c.Avg? {
      SeriesIn(Sum, done, lo, hi);
      SeriesIn(Cnt, done, lo, hi);
      SelectedFold(Sum, done, span, lo, hi);
      SelectedFold(Cnt, done, span, lo, hi);
    } else {
      SeriesIn(c, done, lo, hi);
      SelectedFold(c, done, span, lo, hi);
    }
  }

  /** Consolidating rollups, whatever the number of buckets, is aggregating the raw points directly. */
  lemma RollupsCompose(g: Progress, s: seq<Point>, c: Consolidator, lo: int, hi: int)
    requires Covered(g, s, lo, hi) && AllFinite(In(s, lo + 1, hi + 1)) && AllPresent(In(s, lo + 1, hi + 1))
    ensures Consolidated(c, g.done, lo, hi) == Aggregate(c, In(s, lo + 1, hi + 1))
    ensures IsStatistic(c, Consolidated(c, g.done, lo, hi), In(s, lo + 1, hi + 1))
  {
    AggregateMeans(c, In(s, lo + 1, hi + 1));
    CoveredIn(g, s, lo, hi);
    DoneCompose(g.done, g.span, c, lo, hi, In(s, lo + 1, hi + 1));
  }

  lemma DoneCounts(done: seq<Bucket>, span: int, lo: int, hi: int, raw: seq<Point>)
    requires 0 < span && Grouped(done, span) && raw == Contents(Select(done, lo, hi))
    ensures Consolidated(Cnt, done, lo, hi) == Aggregate(Cnt, raw) <==> AllPresent(raw)
  {
    SeriesIn(Cnt, done, lo, hi);
    SelectedCnt(done, span, lo, hi);
    SummaryCnt(raw, Null);
    FoldCnt(raw);
  }

  /** The rollup counts give the raw count exactly if every raw point of the range has a value. */
  lemma RollupCountsExact(g: Progress, s: seq<Point>, lo: int, hi: int)
    requires Covered(g, s, lo, hi)
    ensures Consolidated(Cnt, g.done, lo, hi) == Aggregate(Cnt, In(s, lo + 1, hi + 1))
            <==> AllPresent(In(s, lo + 1, hi + 1))
  {
    CoveredIn(g, s, lo, hi);
    DoneCounts(g.done, g.span, lo, hi, In(s, lo + 1, hi + 1));
  }

  /** Consolidated rollups give all statistics of the raw points exactly if every raw point has a value. */
  lemma RollupsExact(g: Progress, s: seq<Point>, lo: int, hi: int)
    requires Covered(g, s, lo, hi) && AllFinite(In(s, lo + 1, hi + 1))
    ensures (forall c :: Consolidated(c, g.done, lo, hi) == Aggregate(c, In(s, lo + 1, hi + 1)))
            <==> AllPresent(In(s, lo + 1, hi + 1))
  {
    RollupCountsExact(g, s, lo, hi);
    if AllPresent(In(s, lo + 1, hi + 1)) {
      forall c
        ensures Consolidated(c, g.done, lo, hi) == Aggregate(c, In(s, lo + 1, hi + 1))
      {
        RollupsCompose(g, s, c, lo, hi);
      }
    }
  }

  // A value at 10 and a point without one at 20 make up the bucket that ends at 20.
  const SPOILT := [Point(10, Num(1.0)), Point(20, Null)]

  lemma SpoiltAdds()
    ensures Fresh(20).Add(SPOILT[0]) == Progress(20, 20, [SPOILT[0]], [])
    ensures Progress(20, 20, [SPOILT[0]], []).Add(SPOILT[1]) == Progress(20, 20, [], [Bucket(20, SPOILT)])
  {
    assert [] + [SPOILT[0]] == [SPOILT[0]] && [SPOILT[0]] + [SPOILT[1]] == SPOILT;
    assert [] + [Bucket(20, SPOILT)] == [Bucket(20, SPOILT)];
  }

  lemma SpoiltStream()
    ensures Stream(SPOILT, 20)
  {
  }

  lemma SpoiltBucket()
    ensures Stream(SPOILT, 20) && RunStream(Fresh(20), SPOILT) == Progress(20, 20, [], [Bucket(20, SPOILT)])
  {
    SpoiltStream();
    SpoiltAdds();
    var a := SPOILT[0];
    assert SPOILT[..1] == [a] && [a][..0] == [];
    assert RunStream(Fresh(20), [a]) == Fresh(20).Add(a);
  }

  lemma SpoiltSummary()
    ensures Summary(SPOILT, Null).sum == Null && Fold(Sum, SPOILT) == Num(1.0) && In(SPOILT, 1, 21) == SPOILT
  {
    assert SPOILT[..1] == [SPOILT[0]] && [SPOILT[0]][..0] == [];
    InAll(SPOILT, 1, 21);
  }

  lemma SpoiltSeries()
    ensures Consolidated(Sum, [Bucket(20, SPOILT)], 0, 20) == Null
  {
    var done := [Bucket(20, SPOILT)];
    SpoiltSummary();
    assert done[..0] == [];
    assert Series(Sum, done) == [Point(20, Null)];
    InAll([Point(20, Null)], 1, 21);
    FoldNull(Sum, [Point(20, Null)]);
  }

  lemma SpoiltCovered()
    ensures Covered(Progress(20, 20, [], [Bucket(20, SPOILT)]), SPOILT, 0, 20)
  {
    SpoiltBucket();
    RunInStep(20, SPOILT);
  }

  /** The rollup then has no sum although the raw points have one. */
  lemma NullSpoilsRollup()
    ensures var g := Progress(20, 20, [], [Bucket(20, SPOILT)]);
            && Covered(g, SPOILT, 0, 20)
            && Consolidated(Sum, g.done, 0, 20) == Null && Aggregate(Sum, In(SPOILT, 1, 21)) == Num(1.0)
  {
    SpoiltCovered();
    SpoiltSummary();
    SpoiltSeries();
  }
}
