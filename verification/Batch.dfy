/** Aggregating a batch of points into one value; points without a value are skipped. */
module Batch {
  import opened Points

  datatype Consolidator = Avg | Cnt | Lst | Min | Max | Sum

  /** The statistic of two batches together, given the statistic of each; Null is the statistic of an empty batch. */
  function Combine(c: Consolidator, a: Value, b: Value): Value {
    if a.Null? then b
    else if b.Null? then a
    else
      match c
      case Min => if b.v < a.v then b else a
      case Max => if b.v > a.v then b else a
      case Lst => b
      case _ => Num(a.v + b.v)
  }

  /** The statistic of one point. */
  function Single(c: Consolidator, v: Value): Value {
    if c.Cnt? && v.Num? then Num(1.0) else v
  }

  /** Min, max, sum, count or last of the values that are present, Null if there are none. */
  function Fold(c: Consolidator, s: seq<Point>): Value {
    if s == [] then Null
    else Combine(c, Fold(c, s[..|s| - 1]), Single(c, s[|s| - 1].val))
  }

  /** Division of a sum by a count. */
  function Ratio(a: Value, b: Value): Value {
    if a.Num? && b.Num? && b.v != 0.0 then Num(a.v / b.v) else Null
  }

  function Aggregate(c: Consolidator, s: seq<Point>): Value {
    if c.Avg? then Ratio(Fold(Sum, s), Fold(Cnt, s)) else Fold(c, s)
  }

  /** How many points have a value. */
  function Present(s: seq<Point>): nat {
    if s == [] then 0
    else Present(s[..|s| - 1]) + if s[|s| - 1].val.Num? then 1 else 0
  }

  // ---------------------------------------------------------------------------------------------
  // What the statistics mean.

  lemma {:induction false} FoldNull(c: Consolidator, s: seq<Point>)
    ensures Fold(c, s) == Null <==> forall p :: p in s ==> p.val == Null
  {
    if s != [] {
      FoldNull(c, s[..|s| - 1]);
      assert s == s[..|s| - 1] + [s[|s| - 1]];
    }
  }

  lemma {:induction false} FoldMin(s: seq<Point>, p: Point)
    requires p in s && p.val.Num?
    ensures Fold(Min, s).Num? && Fold(Min, s).v <= p.val.v
    ensures exists q :: q in s && q.val == Fold(Min, s)
  {
    FoldNull(Min, s);
    var init, last := s[..|s| - 1], s[|s| - 1];
    if p in init {
      FoldMin(init, p);
      var q :| q in init && q.val == Fold(Min, init);
      assert q in s && last in s;
    } else {
      assert p == last;
      FoldFound(Min, init);
      assert last in s && forall q :: q in init ==> q in s;
    }
  }

  lemma {:induction false} FoldMax(s: seq<Point>, p: Point)
    requires p in s && p.val.Num?
    ensures Fold(Max, s).Num? && p.val.v <= Fold(Max, s).v
    ensures exists q :: q in s && q.val == Fold(Max, s)
  {
    FoldNull(Max, s);
    var init, last := s[..|s| - 1], s[|s| - 1];
    if p in init {
      FoldMax(init, p);
      var q :| q in init && q.val == Fold(Max, init);
      assert q in s && last in s;
    } else {
      assert p == last;
      FoldFound(Max, init);
      assert last in s && forall q :: q in init ==> q in s;
    }
  }

  /** Min, max and last are values that occur. */
  lemma {:induction false} FoldFound(c: Consolidator, s: seq<Point>)
    requires c.Min? || c.Max? || c.Lst?
    ensures Fold(c, s).Num? ==> exists q :: q in s && q.val == Fold(c, s)
  {
    if s != [] && Fold(c, s).Num? {
      var init, last := s[..|s| - 1], s[|s| - 1];
      FoldFound(c, init);
      if Fold(c, s) == last.val {
        assert last in s;
      } else {
        var q :| q in init && q.val == Fold(c, init);
        assert q in s;
      }
    }
  }

  /** The last value is the value of the latest point that has one. */
  lemma {:induction false} FoldLst(s: seq<Point>, i: int)
    requires 0 <= i < |s| && s[i].val.Num?
    requires forall j :: i < j < |s| ==> s[j].val == Null
    ensures Fold(Lst, s) == s[i].val
  {
    if i < |s| - 1 {
      FoldLst(s[..|s| - 1], i);
    }
  }

  /** The values that are present, added up. */
  function Total(s: seq<Point>): real {
    if s == [] then 0.0
    else Total(s[1..]) + if s[0].val.Num? then s[0].val.v else 0.0
  }

  lemma {:induction false} TotalNext(s: seq<Point>, p: Point)
    ensures Total(s + [p]) == Total(s) + if p.val.Num? then p.val.v else 0.0
  {
    if s == [] {
      assert s + [p] == [p] && [p][1..] == [];
    } else {
      assert (s + [p])[1..] == s[1..] + [p];
      TotalNext(s[1..], p);
    }
  }

  lemma {:induction false} FoldSum(s: seq<Point>)
    ensures Fold(Sum, s) == if Present(s) == 0 then Null else Num(Total(s))
    ensures Present(s) == 0 ==> Total(s) == 0.0
  {
    if s != [] {
      var init, p := s[..|s| - 1], s[|s| - 1];
      assert s == init + [p];
      FoldSum(init);
      TotalNext(init, p);
    }
  }

  lemma {:induction false} FoldCnt(s: seq<Point>)
    ensures Fold(Cnt, s) == if Present(s) == 0 then Null else Num(Present(s) as real)
  {
    if s != [] {
      FoldCnt(s[..|s| - 1]);
    }
  }

  /** The value is the quotient: multiplied by the divisor it gives the dividend. */
  ghost predicate IsQuotient(q: Value, a: Value, b: Value) {
    if a.Num? && b.Num? && b.v != 0.0 then q.Num? && q.v * b.v == a.v else q == Null
  }

  /** Ratio is the quotient, and there is only one. */
  lemma RatioExactly(q: Value, a: Value, b: Value)
    ensures IsQuotient(q, a, b) <==> q == Ratio(a, b)
  {
    if a.Num? && b.Num? && b.v != 0.0 {
      assert a.v / b.v * b.v == a.v;
      if q.Num? && q.v * b.v == a.v {
        assert (q.v - a.v / b.v) * b.v == 0.0;
      }
    }
  }

  /** What each statistic says of a batch: nothing if no point has a value, and else the number that it stands for. */
  ghost predicate IsStatistic(c: Consolidator, r: Value, s: seq<Point>) {
    if Present(s) == 0 then r == Null
    else r.Num? && match c
                   case Avg => IsMean(r.v, Present(s) as real, Total(s))
                   case Cnt => r.v == Present(s) as real
                   case Sum => r.v == Total(s)
                   case Min => Occurs(r, s) && forall p :: p in s && p.val.Num? ==> r.v <= p.val.v
                   case Max => Occurs(r, s) && forall p :: p in s && p.val.Num? ==> p.val.v <= r.v
                   case Lst => IsLatest(r, s)
  }

  /** The mean of n values: taken n times it is their total. */
  predicate IsMean(mean: real, n: real, total: real) {
    mean * n == total
  }

  ghost predicate Occurs(r: Value, s: seq<Point>) {
    exists p :: p in s && p.val == r
  }

  ghost predicate IsLatest(r: Value, s: seq<Point>) {
    exists i :: 0 <= i < |s| && s[i].val == r && forall j :: i < j < |s| ==> s[j].val == Null
  }

  lemma {:induction false} PresentFinds(s: seq<Point>) returns (i: int)
    requires Present(s) != 0
    ensures 0 <= i < |s| && s[i].val.Num? && forall j :: i < j < |s| ==> s[j].val == Null
  {
    i := |s| - 1;
    if s[i].val.Null? {
      i := PresentFinds(s[..|s| - 1]);
    }
  }

  lemma {:induction false} PresentCounts(s: seq<Point>)
    ensures Present(s) == 0 <==> forall p :: p in s ==> p.val == Null
  {
    if s != [] {
      PresentCounts(s[..|s| - 1]);
      assert s == s[..|s| - 1] + [s[|s| - 1]];
    }
  }

  lemma ExtremeMeans(c: Consolidator, s: seq<Point>)
    requires (c.Min? || c.Max?) && Present(s) != 0
    ensures IsStatistic(c, Fold(c, s), s)
  {
    var i := PresentFinds(s);
    FoldNull(c, s);
    FoldFound(c, s);
    forall p | p in s && p.val.Num?
      ensures Fold(c, s).Num? && if c.Min? then Fold(c, s).v <= p.val.v else p.val.v <= Fold(c, s).v
    {
      if c.Min? {
        FoldMin(s, p);
      } else {
        FoldMax(s, p);
      }
    }
    assert s[i] in s;
  }

  lemma NoneMeans(c: Consolidator, s: seq<Point>)
    requires Present(s) == 0
    ensures Aggregate(c, s) == Null
  {
    PresentCounts(s);
    FoldNull(if c.Avg? then Sum else c, s);
  }

  lemma AverageMeans(s: seq<Point>)
    requires Present(s) != 0
    ensures Aggregate(Avg, s).Num? && IsMean(Aggregate(Avg, s).v, Present(s) as real, Total(s))
  {
    FoldSum(s);
    FoldCnt(s);
    AverageOf(s, Total(s), Present(s) as real);
  }

  lemma AverageOf(s: seq<Point>, total: real, n: real)
    requires Fold(Sum, s) == Num(total) && Fold(Cnt, s) == Num(n) && n != 0.0
    ensures Aggregate(Avg, s).Num? && IsMean(Aggregate(Avg, s).v, n, total)
  {
    DivideBack(total, n);
    assert Aggregate(Avg, s) == Ratio(Num(total), Num(n));
  }

  lemma DivideBack(a: real, b: real)
    requires b != 0.0
    ensures Ratio(Num(a), Num(b)).Num? && IsMean(Ratio(Num(a), Num(b)).v, b, a)
  {
    RatioExactly(Ratio(Num(a), Num(b)), Num(a), Num(b));
  }

  lemma LatestMeans(s: seq<Point>)
    requires Present(s) != 0
    ensures Fold(Lst, s).Num? && IsLatest(Fold(Lst, s), s)
  {
    var i := PresentFinds(s);
    FoldLst(s, i);
  }

  /** Each statistic is what it should be. */
  lemma AggregateMeans(c: Consolidator, s: seq<Point>)
    ensures IsStatistic(c, Aggregate(c, s), s)
  {
    if Present(s) == 0 {
      NoneMeans(c, s);
    } else {
      match c
      case Avg => AverageMeans(s);
      case Cnt => FoldCnt(s);
      case Sum => FoldSum(s);
      case Lst => LatestMeans(s);
      case Min => ExtremeMeans(c, s);
      case Max => ExtremeMeans(c, s);
    }
  }

  // ---------------------------------------------------------------------------------------------
  // Statistics of parts make up the statistic of the whole.

  lemma CombineAssoc(c: Consolidator, x: Value, y: Value, z: Value)
    ensures Combine(c, Combine(c, x, y), z) == Combine(c, x, Combine(c, y, z))
  {
  }

  lemma {:induction false} FoldConcat(c: Consolidator, a: seq<Point>, b: seq<Point>)
    ensures Fold(c, a + b) == Combine(c, Fold(c, a), Fold(c, b))
    decreases |b|
  {
    if b == [] {
      assert a + b == a;
    } else {
      var init, v := b[..|b| - 1], Single(c, b[|b| - 1].val);
      assert (a + b)[..|a + b| - 1] == a + init;
      FoldConcat(c, a, init);
      CombineAssoc(c, Fold(c, a), Fold(c, init), v);
    }
  }

  // ---------------------------------------------------------------------------------------------
  // The loops.

  method SumOf(points: seq<Point>) returns (r: Value)
    ensures r == Aggregate(Sum, points)
    ensures IsStatistic(Sum, r, points)
  {
    AggregateMeans(Sum, points);
    var valid, sum := false, 0.0;
    for i := 0 to |points|
      invariant Fold(Sum, points[..i]) == if valid then Num(sum) else Null
      invariant !valid ==> sum == 0.0
    {
      assert points[..i + 1][..i] == points[..i];
      if points[i].val.Num? {
        valid := true;
        sum := sum + points[i].val.v;
      }
    }
    assert points[..|points|] == points;
    r := if valid then Num(sum) else Null;
  }

  method CntOf(points: seq<Point>) returns (r: Value)
    ensures r == Aggregate(Cnt, points)
    ensures IsStatistic(Cnt, r, points)
  {
    AggregateMeans(Cnt, points);
    var valid := 0.0;
    for i := 0 to |points|
      invariant 0.0 <= valid
      invariant Fold(Cnt, points[..i]) == if valid != 0.0 then Num(valid) else Null
    {
      assert points[..i + 1][..i] == points[..i];
      if points[i].val.Num? {
        valid := valid + 1.0;
      }
    }
    assert points[..|points|] == points;
    r := if valid == 0.0 then Null else Num(valid);
  }

  method LstOf(points: seq<Point>) returns (r: Value)
    ensures r == Aggregate(Lst, points)
    ensures IsStatistic(Lst, r, points)
  {
    AggregateMeans(Lst, points);
    r := Null;
    for i := 0 to |points|
      invariant r == Fold(Lst, points[..i])
    {
      assert points[..i + 1][..i] == points[..i];
      if points[i].val.Num? {
        r := points[i].val;
      }
    }
    assert points[..|points|] == points;
  }

  method MinOf(points: seq<Point>) returns (r: Value)
    ensures r == Aggregate(Min, points)
    ensures IsStatistic(Min, r, points)
  {
    AggregateMeans(Min, points);
    // The accumulator starts out above every value; `valid` tells that state apart here.
    var valid, min := false, 0.0;
    for i := 0 to |points|
      invariant Fold(Min, points[..i]) == if valid then Num(min) else Null
    {
      assert points[..i + 1][..i] == points[..i];
      if points[i].val.Num? {
        if !valid || points[i].val.v < min {
          min := points[i].val.v;
        }
        valid := true;
      }
    }
    assert points[..|points|] == points;
    r := if valid then Num(min) else Null;
  }

  method MaxOf(points: seq<Point>) returns (r: Value)
    ensures r == Aggregate(Max, points)
    ensures IsStatistic(Max, r, points)
  {
    AggregateMeans(Max, points);
    var valid, max := false, 0.0;
    for i := 0 to |points|
      invariant Fold(Max, points[..i]) == if valid then Num(max) else Null
    {
      assert points[..i + 1][..i] == points[..i];
      if points[i].val.Num? {
        if !valid || points[i].val.v > max {
          max := points[i].val.v;
        }
        valid := true;
      }
    }
    assert points[..|points|] == points;
    r := if valid then Num(max) else Null;
  }

  method AvgOf(points: seq<Point>) returns (r: Value)
    ensures r == Aggregate(Avg, points)
    ensures IsStatistic(Avg, r, points)
  {
    AggregateMeans(Avg, points);
    var valid, sum := 0.0, 0.0;
    for i := 0 to |points|
      invariant 0.0 <= valid && (valid == 0.0 ==> sum == 0.0)
      invariant Fold(Cnt, points[..i]) == if valid != 0.0 then Num(valid) else Null
      invariant Fold(Sum, points[..i]) == if valid != 0.0 then Num(sum) else Null
    {
      assert points[..i + 1][..i] == points[..i];
      if points[i].val.Num? {
        valid := valid + 1.0;
        sum := sum + points[i].val.v;
      }
    }
    assert points[..|points|] == points;
    r := if valid == 0.0 then Null else Num(sum / valid);
  }

  /** The function that a consolidator stands for. */
  method Apply(c: Consolidator, points: seq<Point>) returns (r: Value)
    ensures r == Aggregate(c, points)
    ensures IsStatistic(c, r, points)
  {
    match c
    case Avg => r := AvgOf(points);
    case Cnt => r := CntOf(points);
    case Lst => r := LstOf(points);
    case Min => r := MinOf(points);
    case Max => r := MaxOf(points);
    case Sum => r := SumOf(points);
  }
}
