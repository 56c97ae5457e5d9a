/** Consolidating a series by groups of points, in the array that holds it. */
module Consolidation {
  import opened Arith
  import opened Batch
  import opened Points
  import opened Quantize
  import opened Seqs

  /** The distance between the last two points, 0 if there are fewer. */
  function LastStep(s: seq<Point>): int {
    if |s| < 2 then 0 else Wrap32(s[|s| - 1].ts - s[|s| - 2].ts)
  }

  /** The timestamp an incomplete group would have if points kept coming at the given step. */
  function ExtendedTs(ts: int, num: int, step: int): int {
    Wrap32(ts + Wrap32((num - 1) * step))
  }

  /** One point per num points, at the time of the last of them; what is left over makes an incomplete group. */
  function Groups(s: seq<Point>, num: int, step: int, c: Consolidator): seq<Point>
    requires 1 <= num
  {
    if s == [] then []
    else if |s| < num then [Point(ExtendedTs(s[0].ts, num, step), Aggregate(c, s))]
    else [Point(s[num - 1].ts, Aggregate(c, s[..num]))] + Groups(s[num..], num, step, c)
  }

  function Consolidated(s: seq<Point>, num: int, c: Consolidator): seq<Point>
    requires 1 <= num
  {
    Groups(s, num, LastStep(s), c)
  }

  function CeilDiv(n: int, d: int): int
    requires 1 <= d
  {
    (n + d - 1) / d
  }

  lemma CeilDivSteps(n: int, num: int)
    requires 1 <= num
    ensures n == 0 ==> CeilDiv(n, num) == 0
    ensures 0 < n <= num ==> CeilDiv(n, num) == 1
    ensures num <= n ==> CeilDiv(n, num) == CeilDiv(n - num, num) + 1
  {
    if n == 0 {
      DivModUnique(num - 1, num, 0, num - 1);
    } else if 0 < n <= num {
      DivModUnique(n + num - 1, num, 1, n - 1);
    }
    ModShift(n - 1, num, 1);
  }

  lemma {:induction false} GroupsCount(s: seq<Point>, num: int, step: int, c: Consolidator)
    requires 1 <= num
    ensures |Groups(s, num, step, c)| == CeilDiv(|s|, num)
  {
    CeilDivSteps(|s|, num);
    if num <= |s| {
      GroupsCount(s[num..], num, step, c);
    }
  }

  // ---------------------------------------------------------------------------------------------
  // In place.

  /** The number of points in k groups. */
  function Span(k: nat, num: int): (r: int)
    ensures 1 <= num ==> k <= r
  {
    if k == 0 then 0 else Span(k - 1, num) + num
  }

  lemma {:induction false} SpanIs(k: nat, num: int)
    ensures Span(k, num) == k * num
  {
    if 0 < k {
      SpanIs(k - 1, num);
    }
  }

  /** There are more points than groups, unless groups are single points. */
  lemma {:induction false} SpanGrows(k: nat, num: int)
    requires 2 <= num && 0 < k
    ensures k < Span(k, num)
  {
    if 1 < k {
      SpanGrows(k - 1, num);
    }
  }

  lemma {:induction false} SpanOrder(k: nat, m: nat, num: int)
    requires 1 <= num && k < m
    ensures Span(k, num) + num <= Span(m, num)
    decreases m
  {
    if k < m - 1 {
      SpanOrder(k, m - 1, num);
    }
  }

  /** The point that the num points from position i on make. */
  function GroupAt(s: seq<Point>, i: int, num: int, c: Consolidator): Point
    requires 1 <= num && 0 <= i && i + num <= |s|
  {
    Point(s[i + num - 1].ts, Aggregate(c, s[i..i + num]))
  }

  /** The array after the first o groups from `start` on were written over its points. */
  function After(was: seq<Point>, start: int, o: nat, num: int, c: Consolidator): (now: seq<Point>)
    requires 1 <= num && 0 <= start && start + Span(o, num) <= |was|
    ensures |now| == |was|
    decreases o
  {
    if o == 0 then was
    else
      After(was, start, o - 1, num, c)[start + o - 1 := GroupAt(was, start + Span(o - 1, num), num, c)]
  }

  /** Points before `start`, and points that were not read yet, are as they were; so is the last one read, unless
      groups are single points. */
  lemma {:induction false} AfterKeeps(was: seq<Point>, start: int, o: nat, num: int, c: Consolidator, k: int)
    requires 1 <= num && 0 <= start && start + Span(o, num) <= |was| && 0 <= k < |was|
    requires k < start || start + Span(o, num) <= k || (2 <= num && start + Span(o, num) - 1 <= k)
    ensures After(was, start, o, num, c)[k] == was[k]
    decreases o
  {
    if 0 < o {
      if 2 <= num {
        SpanGrows(o, num);
      }
      AfterKeeps(was, start, o - 1, num, c, k);
    }
  }

  /** The groups of the points from position i on. */
  function GroupsFrom(s: seq<Point>, i: int, num: int, step: int, c: Consolidator): seq<Point>
    requires 1 <= num && 0 <= i <= |s|
    decreases |s| - i
  {
    if i == |s| then []
    else if |s| < i + num then [Point(ExtendedTs(s[i].ts, num, step), Aggregate(c, s[i..]))]
    else [GroupAt(s, i, num, c)] + GroupsFrom(s, i + num, num, step, c)
  }

  lemma {:induction false} GroupsFromIs(s: seq<Point>, i: int, num: int, step: int, c: Consolidator)
    requires 1 <= num && 0 <= i <= |s|
    ensures GroupsFrom(s, i, num, step, c) == Groups(s[i..], num, step, c)
    decreases |s| - i
  {
    if i + num <= |s| {
      GroupsFromIs(s, i + num, num, step, c);
      DropTake(s, i, num);
      DropDrop(s, i, num);
    }
  }

  lemma SpanNext(i: int, j: int, k: nat, num: int)
    requires 0 < k && j == i + num
    ensures i + Span(k, num) == j + Span(k - 1, num)
  {
  }

  lemma FromNext(s: seq<Point>, i: int, num: int, step: int, c: Consolidator, j: int)
    requires 1 <= num && 0 <= i && j == i + num <= |s|
    ensures GroupsFrom(s, i, num, step, c) == [GroupAt(s, i, num, c)] + GroupsFrom(s, j, num, step, c)
  {
  }

  /** The k-th of the groups from position i on starts k groups later. */
  lemma {:induction false} FromAt(s: seq<Point>, i: int, num: int, step: int, c: Consolidator, k: nat)
    requires 1 <= num && 0 <= i && i + Span(k + 1, num) <= |s|
    ensures k < |GroupsFrom(s, i, num, step, c)|
    ensures GroupsFrom(s, i, num, step, c)[k] == GroupAt(s, i + Span(k, num), num, c)
    decreases k
  {
    var j := i + num;
    FromNext(s, i, num, step, c, j);
    if 0 < k {
      FromAt(s, j, num, step, c, k - 1);
      SpanNext(i, j, k, num);
    }
  }

  /** After o whole groups come the groups of what is left. */
  lemma {:induction false} FromRest(s: seq<Point>, i: int, num: int, step: int, c: Consolidator, o: nat)
    requires 1 <= num && 0 <= i && i + Span(o, num) <= |s|
    ensures var rest := GroupsFrom(s, i + Span(o, num), num, step, c);
            && |GroupsFrom(s, i, num, step, c)| == o + |rest|
            && (rest != [] ==> GroupsFrom(s, i, num, step, c)[o] == rest[0])
    decreases o
  {
    if 0 < o {
      var j := i + num;
      FromNext(s, i, num, step, c, j);
      FromRest(s, j, num, step, c, o - 1);
      SpanNext(i, j, o, num);
    }
  }

  lemma {:induction false} AfterAt(was: seq<Point>, start: int, o: nat, num: int, c: Consolidator, k: nat)
    requires 1 <= num && 0 <= start && start + Span(o, num) <= |was| && k < o
    ensures start + Span(k + 1, num) <= |was|
    ensures After(was, start, o, num, c)[start + k] == GroupAt(was, start + Span(k, num), num, c)
    decreases o
  {
    if k < o - 1 {
      AfterAt(was, start, o - 1, num, c, k);
    }
  }

  /** The point of the next group; none of its points has been overwritten. */
  method ReadGroup(a: array<Point>, start: int, inI: int, ghost outI: nat, num: int, c: Consolidator,
                   ghost was: seq<Point>)
    returns (p: Point)
    requires 1 <= num && 0 <= start && inI == Span(outI, num) && start + inI + num <= |was|
    requires a[..] == After(was, start, outI, num, c)
    ensures p == GroupAt(was, start + inI, num, c)
  {
    var nextI := inI + num;
    ghost var now := a[..];
    forall k | start + inI <= k < start + nextI
      ensures a[k] == was[k]
    {
      assert a[k] == now[k];
      AfterKeeps(was, start, outI, num, c, k);
    }
    assert a[start + inI..start + nextI] == was[start + inI..start + nextI];
    var val := Apply(c, a[start + inI..start + nextI]);
    p := Point(a[start + nextI - 1].ts, val);
  }

  /** Reads the next group and writes its point over points that were read before. */
  method WriteGroup(a: array<Point>, start: int, inI: int, outI: nat, num: int, c: Consolidator, ghost was: seq<Point>)
    requires 1 <= num && 0 <= start && inI == Span(outI, num) && start + inI + num <= |was|
    requires a[..] == After(was, start, outI, num, c)
    modifies a
    ensures a[..] == After(was, start, outI + 1, num, c)
  {
    var p := ReadGroup(a, start, inI, outI, num, c, was);
    ghost var now := a[..];
    a[start + outI] := p;
    assert a[..] == now[start + outI := p];
  }

  /** Consolidates the whole groups of a[start..] into the front of it. */
  method WholeGroups(a: array<Point>, start: int, cleanLen: int, num: int, c: Consolidator, ghost outLen: nat,
                     ghost was: seq<Point>)
    requires 1 <= num && 0 <= start && cleanLen == Span(outLen, num) && start + cleanLen <= |was| && a[..] == was
    modifies a
    ensures a[..] == After(was, start, outLen, num, c)
  {
    var inI, outI := 0, 0;
    while inI < cleanLen
      invariant 0 <= outI <= outLen && inI == Span(outI, num)
      invariant start + Span(outI, num) <= |was| && a[..] == After(was, start, outI, num, c)
      decreases outLen - outI
    {
      SpanOrder(outI, outLen, num);
      WriteGroup(a, start, inI, outI, num, c, was);
      outI := outI + 1;
      inI := inI + num;
    }
    if outI < outLen {
      SpanOrder(outI, outLen, num);
    }
  }

  /** The last two points are still in place after the whole groups were written. */
  lemma LastTwo(now: seq<Point>, was: seq<Point>, start: int, o: nat, num: int, c: Consolidator, i: int)
    requires 2 <= num && 0 <= start && i == start + Span(o, num) < |was| && now == After(was, start, o, num, c)
    ensures now[i..] == was[i..] && now[..start] == was[..start]
    ensures now[|was| - 1] == was[|was| - 1] && (start + 2 <= |was| ==> now[|was| - 2] == was[|was| - 2])
  {
    forall k | 0 <= k < |was| && (k < start || i <= k)
      ensures now[k] == was[k]
    {
      AfterKeeps(was, start, o, num, c, k);
    }
    if start + 2 <= |was| {
      AfterKeeps(was, start, o, num, c, |was| - 2);
    }
  }

  /** The groups that were written are the first of the result. */
  lemma WrittenFirst(now: seq<Point>, was: seq<Point>, start: int, o: nat, num: int, step: int, c: Consolidator)
    requires 1 <= num && 0 <= start && start + Span(o, num) <= |was| && now == After(was, start, o, num, c)
    ensures o <= |GroupsFrom(was, start, num, step, c)|
    ensures forall k :: 0 <= k < o ==> now[start + k] == GroupsFrom(was, start, num, step, c)[k]
  {
    FromRest(was, start, num, step, c, o);
    forall k | 0 <= k < o
      ensures now[start + k] == GroupsFrom(was, start, num, step, c)[k]
    {
      AfterAt(was, start, o, num, c, k);
      FromAt(was, start, num, step, c, k);
    }
  }

  lemma NoneLeft(now: seq<Point>, was: seq<Point>, start: int, o: nat, num: int, step: int, c: Consolidator)
    requires 1 <= num && 0 <= start && start + Span(o, num) == |was| && now == After(was, start, o, num, c)
    ensures now[start..start + o] == GroupsFrom(was, start, num, step, c) && now[..start] == was[..start]
  {
    WrittenFirst(now, was, start, o, num, step, c);
    FromRest(was, start, num, step, c, o);
    forall k | 0 <= k < start
      ensures now[k] == was[k]
    {
      AfterKeeps(was, start, o, num, c, k);
    }
  }

  lemma SomeLeft(now: seq<Point>, was: seq<Point>, start: int, o: nat, num: int, step: int, c: Consolidator, i: int,
                 p: Point)
    requires 1 <= num && 0 <= start && i == start + Span(o, num) && 0 < |was| - i < num
    requires now == After(was, start, o, num, c)
    requires p == Point(ExtendedTs(was[i].ts, num, step), Aggregate(c, was[i..]))
    ensures now[start..start + o] + [p] == GroupsFrom(was, start, num, step, c)
  {
    WrittenFirst(now, was, start, o, num, step, c);
    FromRest(was, start, num, step, c, o);
    assert GroupsFrom(was, i, num, step, c) == [p];
  }

  /** The timestamp of an incomplete group that starts at position i of the points from `start` on. */
  function LastTime(s: seq<Point>, start: int, i: int, num: int): int
    requires 0 <= start <= i < |s|
  {
    if |s| - start == 1 then s[start].ts
    else ExtendedTs(s[i].ts, num, Wrap32(s[|s| - 1].ts - s[|s| - 2].ts))
  }

  lemma LastTimeKept(now: seq<Point>, was: seq<Point>, start: int, o: nat, num: int, c: Consolidator, i: int)
    requires 2 <= num && 0 <= start && i == start + Span(o, num) < |was| && now == After(was, start, o, num, c)
    ensures LastTime(now, start, i, num) == LastTime(was, start, i, num)
  {
    LastTwo(now, was, start, o, num, c, i);
    AfterKeeps(was, start, o, num, c, i);
  }

  lemma LastTimeIs(s: seq<Point>, start: int, i: int, num: int)
    requires 0 <= start <= i < |s| && 0 <= s[i].ts < U32
    ensures LastTime(s, start, i, num) == ExtendedTs(s[i].ts, num, LastStep(s[start..]))
  {
    if |s| - start == 1 {
      assert (num - 1) * 0 == 0;
    }
  }

  method ReadTime(a: array<Point>, start: int, cleanLen: int, aggNum: int) returns (lastTs: int)
    requires 0 <= start && 0 <= cleanLen && start + cleanLen < a.Length
    ensures lastTs == LastTime(a[..], start, start + cleanLen, aggNum)
  {
    if a.Length - start == 1 {
      lastTs := a[start].ts;
    } else {
      var interval := Wrap32(a[a.Length - 1].ts - a[a.Length - 2].ts);
      lastTs := Wrap32(a[start + cleanLen].ts + Wrap32((aggNum - 1) * interval));
    }
  }

  /** The point of the leftover points. */
  method LastPoint(a: array<Point>, start: int, cleanLen: int, ghost outLen: nat, aggNum: int, c: Consolidator,
                   ghost was: seq<Point>)
    returns (p: Point)
    requires 2 <= aggNum && 0 <= start && cleanLen == Span(outLen, aggNum) && 0 < |was| - start - cleanLen < aggNum
    requires a[..] == After(was, start, outLen, aggNum, c) && 0 <= was[start + cleanLen].ts < U32
    ensures p == Point(ExtendedTs(was[start + cleanLen].ts, aggNum, LastStep(was[start..])),
                       Aggregate(c, was[start + cleanLen..]))
  {
    ghost var now, i := a[..], start + cleanLen;
    LastTwo(now, was, start, outLen, aggNum, c, i);
    LastTimeKept(now, was, start, outLen, aggNum, c, i);
    LastTimeIs(was, start, i, aggNum);
    var lastTs := ReadTime(a, start, cleanLen, aggNum);
    assert a[start + cleanLen..] == now[i..];
    var val := Apply(c, a[start + cleanLen..]);
    p := Point(lastTs, val);
  }

  /** The leftover points make one more group. */
  method LastGroup(a: array<Point>, start: int, cleanLen: int, outLen: nat, aggNum: int, c: Consolidator,
                   ghost was: seq<Point>)
    requires 2 <= aggNum && 0 <= start && cleanLen == Span(outLen, aggNum) && 0 < |was| - start - cleanLen < aggNum
    requires a[..] == After(was, start, outLen, aggNum, c) && 0 <= was[start + cleanLen].ts < U32
    modifies a
    ensures a[start..start + outLen + 1] == GroupsFrom(was, start, aggNum, LastStep(was[start..]), c)
    ensures a[..start] == was[..start]
  {
    ghost var now, i := a[..], start + cleanLen;
    LastTwo(now, was, start, outLen, aggNum, c, i);
    var p := LastPoint(a, start, cleanLen, outLen, aggNum, c, was);
    SomeLeft(now, was, start, outLen, aggNum, LastStep(was[start..]), c, i, p);
    a[start + outLen] := p;
    assert a[..] == now[start + outLen := p];
    assert a[start..start + outLen + 1] == now[start..start + outLen] + [p];
  }

  /** The number of whole groups, and of points in them. */
  method Share(n: int, num: int) returns (outLen: nat, cleanLen: int)
    requires 0 <= n && 1 <= num
    ensures cleanLen == Span(outLen, num) && 0 <= cleanLen <= n < cleanLen + num
  {
    DivMonotone(0, n, num);
    outLen := n / num;
    cleanLen := num * outLen;
    assert n == num * (n / num) + n % num;
    SpanIs(outLen, num);
  }

  /** The points are a perfect fit for the group size. */
  method PerfectFit(a: array<Point>, start: int, outLen: nat, cleanLen: int, aggNum: int, c: Consolidator,
                    ghost was: seq<Point>)
    requires 1 <= aggNum && 0 <= start && cleanLen == Span(outLen, aggNum) && |was| == start + cleanLen && a[..] == was
    modifies a
    ensures a[start..start + outLen] == GroupsFrom(was, start, aggNum, LastStep(was[start..]), c)
    ensures a[..start] == was[..start]
  {
    WholeGroups(a, start, cleanLen, aggNum, c, outLen, was);
    ghost var now := a[..];
    NoneLeft(now, was, start, outLen, aggNum, LastStep(was[start..]), c);
    assert a[start..start + outLen] == now[start..start + outLen];
  }

  /** Some points are left over. */
  method ImperfectFit(a: array<Point>, start: int, outLen: nat, cleanLen: int, aggNum: int, c: Consolidator,
                      ghost was: seq<Point>)
    requires 2 <= aggNum && 0 <= start && cleanLen == Span(outLen, aggNum) && 0 < |was| - start - cleanLen < aggNum
    requires a[..] == was && 0 <= was[start + cleanLen].ts < U32
    modifies a
    ensures a[start..start + outLen + 1] == GroupsFrom(was, start, aggNum, LastStep(was[start..]), c)
    ensures a[..start] == was[..start]
  {
    WholeGroups(a, start, cleanLen, aggNum, c, outLen, was);
    LastGroup(a, start, cleanLen, outLen, aggNum, c, was);
  }

  lemma FromIsConsolidated(was: seq<Point>, start: int, num: int, c: Consolidator)
    requires 1 <= num && 0 <= start <= |was|
    ensures GroupsFrom(was, start, num, LastStep(was[start..]), c) == Consolidated(was[start..], num, c)
  {
    GroupsFromIs(was, start, num, LastStep(was[start..]), c);
  }

  /** Consolidates a[start..] and leaves the result at its front. */
  method Consolidate(a: array<Point>, start: int, aggNum: int, c: Consolidator) returns (outLen: nat)
    requires 0 <= start <= a.Length && 1 <= aggNum && forall k :: start <= k < a.Length ==> 0 <= a[k].ts < U32
    modifies a
    ensures start + outLen <= a.Length && a[start..start + outLen] == Consolidated(old(a[start..]), aggNum, c)
    ensures a[..start] == old(a[..start])
  {
    ghost var was := a[..];
    assert was[start..] == a[start..] && was[..start] == a[..start];
    FromIsConsolidated(was, start, aggNum, c);
    var cleanLen;
    outLen, cleanLen := Share(a.Length - start, aggNum);
    if a.Length - start == cleanLen {
      PerfectFit(a, start, outLen, cleanLen, aggNum, c, was);
    } else {
      ImperfectFit(a, start, outLen, cleanLen, aggNum, c, was);
      outLen := outLen + 1;
    }
  }

  // ---------------------------------------------------------------------------------------------
  // The k-th point of the result.

  /** The points i, ..., j - 1 as one point, at the time of the last of them. */
  ghost predicate IsGroup(p: Point, s: seq<Point>, i: int, j: int, c: Consolidator) {
    0 <= i < j <= |s| && p.ts == s[j - 1].ts && IsStatistic(c, p.val, s[i..j])
  }

  /** The points from i on as one point, at the time that the last of num points would have at the last step. */
  ghost predicate IsRest(p: Point, s: seq<Point>, i: int, num: int, c: Consolidator) {
    && 0 <= i < |s| && IsStatistic(c, p.val, s[i..])
    && (|s| == 1 ==> p.ts == s[0].ts)
    && (2 <= |s| && s[|s| - 2].ts <= s[|s| - 1].ts
        && s[i].ts + (num - 1) * (s[|s| - 1].ts - s[|s| - 2].ts) < U32 ==>
          p.ts == s[i].ts + (num - 1) * (s[|s| - 1].ts - s[|s| - 2].ts))
  }

  lemma RestTime(s: seq<Point>, i: int, num: int, c: Consolidator)
    requires 1 <= num && 0 <= i < |s| && forall k :: 0 <= k < |s| ==> 0 <= s[k].ts < U32
    ensures IsRest(Point(ExtendedTs(s[i].ts, num, LastStep(s)), Aggregate(c, s[i..])), s, i, num, c)
  {
    AggregateMeans(c, s[i..]);
    if |s| == 1 {
      assert (num - 1) * 0 == 0;
    } else {
      var step := s[|s| - 1].ts - s[|s| - 2].ts;
      if 0 <= step {
        Product(num - 1, step);
      }
    }
  }

  lemma Product(a: int, b: int)
    requires 0 <= a && 0 <= b
    ensures 0 <= a * b
  {
  }

  lemma WholeGroup(s: seq<Point>, num: int, c: Consolidator, k: nat)
    requires 1 <= num && k * num + num <= |s|
    ensures k < |Consolidated(s, num, c)| && IsGroup(Consolidated(s, num, c)[k], s, k * num, k * num + num, c)
  {
    var step := LastStep(s);
    SpanIs(k, num);
    GroupsFromIs(s, 0, num, step, c);
    assert s[0..] == s;
    FromAt(s, 0, num, step, c, k);
    AggregateMeans(c, s[Span(k, num)..Span(k, num) + num]);
  }

  lemma RestGroup(s: seq<Point>, num: int, c: Consolidator, k: nat)
    requires 1 <= num && 0 <= k * num < |s| < k * num + num && forall i :: 0 <= i < |s| ==> 0 <= s[i].ts < U32
    ensures |Consolidated(s, num, c)| == k + 1 && IsRest(Consolidated(s, num, c)[k], s, k * num, num, c)
  {
    var step, i := LastStep(s), k * num;
    SpanIs(k, num);
    GroupsFromIs(s, 0, num, step, c);
    assert s[0..] == s;
    FromRest(s, 0, num, step, c, k);
    RestTime(s, i, num, c);
  }
}
