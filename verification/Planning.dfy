/** Choosing the archive that each request reads, and one output interval for a group of requests. */
module Planning {
  import opened Arith
  import opened Lcms
  import opened Options
  import opened Quantize
  import Requests

  datatype Retention = Retention(secondsPerPoint: int, numberOfPoints: int, ready: int) {

    function MaxRetention(): int {
      secondsPerPoint * numberOfPoints
    }

    /** The time to live as a 32-bit number of seconds. */
    function TTL(): int {
      Wrap32(MaxRetention())
    }
  }

  /** One archive may follow another: coarser, evenly divisible, kept longer, and with enough points to be made from. */
  predicate Follows(prev: Retention, ret: Retention)
    requires 0 < prev.secondsPerPoint
  {
    && prev.secondsPerPoint < ret.secondsPerPoint
    && ret.secondsPerPoint % prev.secondsPerPoint == 0
    && prev.MaxRetention() < ret.MaxRetention()
    && ret.secondsPerPoint / prev.secondsPerPoint <= prev.numberOfPoints
  }

  ghost predicate Resolved(rets: seq<Retention>) {
    forall i :: 0 <= i < |rets| ==> 0 < rets[i].secondsPerPoint < U32
  }

  ghost predicate Sane(rets: seq<Retention>)
    requires Resolved(rets)
  {
    rets != [] && forall i :: 1 <= i < |rets| ==> Follows(rets[i - 1], rets[i])
  }

  /** Accepts exactly the lists of which each archive may follow the one before it. */
  method Validate(rets: seq<Retention>) returns (ok: bool)
    requires Resolved(rets)
    ensures ok <==> Sane(rets)
  {
    if |rets| == 0 {
      return false;
    }
    for i := 1 to |rets|
      invariant forall j :: 1 <= j < i ==> Follows(rets[j - 1], rets[j])
    {
      var prev, ret := rets[i - 1], rets[i];
      if prev.secondsPerPoint >= ret.secondsPerPoint {
        return false;
      }
      if ret.secondsPerPoint % prev.secondsPerPoint != 0 {
        return false;
      }
      if prev.MaxRetention() >= ret.MaxRetention() {
        return false;
      }
      if prev.numberOfPoints < ret.secondsPerPoint / prev.secondsPerPoint {
        return false;
      }
    }
    return true;
  }

  /** Coarser archives are kept longer, and their interval is a multiple of every finer one. */
  lemma {:induction false} SaneOrder(rets: seq<Retention>, i: int, j: int)
    requires Resolved(rets) && Sane(rets) && 0 <= i < j < |rets|
    ensures rets[i].secondsPerPoint < rets[j].secondsPerPoint
    ensures rets[j].secondsPerPoint % rets[i].secondsPerPoint == 0
    ensures rets[i].MaxRetention() < rets[j].MaxRetention()
    decreases j
  {
    assert Follows(rets[j - 1], rets[j]);
    if i < j - 1 {
      SaneOrder(rets, i, j - 1);
      MultipleTransitive(rets[j].secondsPerPoint, rets[j - 1].secondsPerPoint, rets[i].secondsPerPoint);
    }
  }

  /** The j-th archive is coarser than the i-th, made of whole points of it, and kept longer. */
  ghost predicate Nested(rets: seq<Retention>, i: int, j: int)
    requires Resolved(rets) && 0 <= i < j < |rets|
  {
    && rets[i].secondsPerPoint < rets[j].secondsPerPoint
    && rets[j].secondsPerPoint % rets[i].secondsPerPoint == 0
    && rets[i].secondsPerPoint * rets[i].numberOfPoints < rets[j].secondsPerPoint * rets[j].numberOfPoints
  }

  /** The archive before the j-th is kept for at least one point of it. */
  ghost predicate Feeds(rets: seq<Retention>, j: int)
    requires 1 <= j < |rets|
  {
    rets[j].secondsPerPoint <= rets[j - 1].secondsPerPoint * rets[j - 1].numberOfPoints
  }

  lemma EnoughPoints(prev: Retention, ret: Retention)
    requires 0 < prev.secondsPerPoint && ret.secondsPerPoint % prev.secondsPerPoint == 0
    ensures ret.secondsPerPoint / prev.secondsPerPoint <= prev.numberOfPoints <==>
            ret.secondsPerPoint <= prev.secondsPerPoint * prev.numberOfPoints
  {
    var n, q := prev.secondsPerPoint, ret.secondsPerPoint / prev.secondsPerPoint;
    Multiple(ret.secondsPerPoint, n);
    if q <= prev.numberOfPoints {
      ProductMonotone(q, prev.numberOfPoints, n);
    } else {
      ProductMonotone(prev.numberOfPoints + 1, q, n);
      assert (prev.numberOfPoints + 1) * n == prev.numberOfPoints * n + n;
    }
  }

  /** Of the accepted lists any two archives are nested, and each archive can make a point of the next. */
  lemma SaneExactly(rets: seq<Retention>)
    requires Resolved(rets)
    ensures Sane(rets) <==>
            && rets != [] && (forall i, j :: 0 <= i < j < |rets| ==> Nested(rets, i, j))
            && forall j :: 1 <= j < |rets| ==> Feeds(rets, j)
  {
    if Sane(rets) {
      forall i, j | 0 <= i < j < |rets|
        ensures Nested(rets, i, j)
      {
        SaneOrder(rets, i, j);
      }
      forall j | 1 <= j < |rets|
        ensures Feeds(rets, j)
      {
        assert Follows(rets[j - 1], rets[j]);
        EnoughPoints(rets[j - 1], rets[j]);
      }
    }
    if rets != [] && (forall i, j :: 0 <= i < j < |rets| ==> Nested(rets, i, j))
       && (forall j :: 1 <= j < |rets| ==> Feeds(rets, j)) {
      forall j | 1 <= j < |rets|
        ensures Follows(rets[j - 1], rets[j])
      {
        assert Nested(rets, j - 1, j) && Feeds(rets, j);
        EnoughPoints(rets[j - 1], rets[j]);
      }
    }
  }

  /** Retentions as they are used: validated, and short enough for 32-bit times to live. */
  ghost predicate Usable(rets: seq<Retention>) {
    && Resolved(rets) && Sane(rets) && |rets| <= 255
    && forall i :: 0 <= i < |rets| ==> 0 <= rets[i].MaxRetention() < U32
  }

  // ---------------------------------------------------------------------------------------------
  // One request.

  datatype Req = Req(rawInterval: int, archive: int, archInterval: int, ttl: int, outInterval: int, aggNum: int) {

    /** Reads the i-th archive as it is; raw data has its own interval. */
    function Plan(i: int, ret: Retention): Req {
      var interval := if i == 0 then rawInterval else Wrap32(ret.secondsPerPoint);
      Req(rawInterval, i % 256, interval, ret.TTL(), interval, 1)
    }

    function PlanNormalization(interval: int): Req
      requires 0 < archInterval
    {
      this.(outInterval := interval, aggNum := interval / archInterval)
    }
  }

  predicate Ready(rets: seq<Retention>, i: int, from: int)
    requires 0 <= i < |rets|
  {
    rets[i].ready <= from
  }

  /** The archive to read among the first n: the finest ready one that is kept long enough, else the last ready one. */
  function Pick(rets: seq<Retention>, from: int, minTTL: int, n: int): (r: Option<int>)
    requires 0 <= n <= |rets|
    ensures r.Some? ==> 0 <= r.value < n && Ready(rets, r.value, from)
  {
    if n == 0 then None
    else
      var c := Pick(rets, from, minTTL, n - 1);
      if c.Some? && rets[c.value].TTL() >= minTTL then c
      else if Ready(rets, n - 1, from) then Some(n - 1)
      else c
  }

  /** If any ready archive is kept long enough the choice is, and it is the finest such archive. */
  lemma {:induction false} PickBest(rets: seq<Retention>, from: int, minTTL: int, n: int, i: int)
    requires 0 <= i < n <= |rets| && Ready(rets, i, from)
    ensures var r := Pick(rets, from, minTTL, n);
            && r.Some?
            && (rets[i].TTL() >= minTTL ==> rets[r.value].TTL() >= minTTL && r.value <= i)
            && (rets[r.value].TTL() < minTTL ==> i <= r.value)
    decreases n
  {
    if i < n - 1 {
      PickBest(rets, from, minTTL, n - 1, i);
    }
  }

  /** There is a choice exactly if some archive is ready. */
  lemma {:induction false} PickExactly(rets: seq<Retention>, from: int, minTTL: int, n: int)
    requires 0 <= n <= |rets|
    ensures Pick(rets, from, minTTL, n).Some? <==> exists i :: 0 <= i < n && rets[i].ready <= from
    decreases n
  {
    if 0 < n {
      PickExactly(rets, from, minTTL, n - 1);
    }
  }

  /** Once the choice is kept long enough, further archives do not change it. */
  lemma {:induction false} PickSettled(rets: seq<Retention>, from: int, minTTL: int, n: int, m: int)
    requires 0 <= n <= m <= |rets|
    requires Pick(rets, from, minTTL, n).Some? && rets[Pick(rets, from, minTTL, n).value].TTL() >= minTTL
    ensures Pick(rets, from, minTTL, m) == Pick(rets, from, minTTL, n)
    decreases m
  {
    if n < m {
      PickSettled(rets, from, minTTL, n, m - 1);
    }
  }

  /** The finest archive that will do, if one is ready; otherwise the request as it was. */
  ghost predicate IsPlan(r: Req, ok: bool, req: Req, rets: seq<Retention>, from: int, minTTL: int) {
    && (ok <==> exists i :: 0 <= i < |rets| && rets[i].ready <= from)
    && (!ok ==> r == req)
    && (ok && Usable(rets) ==> IsFirst(r, req.rawInterval, rets, from, minTTL))
  }

  lemma PlanIs(req: Req, rets: seq<Retention>, from: int, minTTL: int)
    ensures var c := Pick(rets, from, minTTL, |rets|);
            IsPlan(if c.Some? then req.Plan(c.value, rets[c.value]) else req, c.Some?, req, rets, from, minTTL)
  {
    var c := Pick(rets, from, minTTL, |rets|);
    PickExactly(rets, from, minTTL, |rets|);
    if c.Some? && Usable(rets) {
      FirstIs(req.Plan(c.value, rets[c.value]), req, rets, from, minTTL);
    }
  }

  method PlanHighestResSingle(now: int, from: int, req: Req, rets: seq<Retention>) returns (r: Req, ok: bool)
    ensures var c := Pick(rets, from, Wrap32(now - from), |rets|);
            && (ok <==> c.Some?)
            && r == if ok then req.Plan(c.value, rets[c.value]) else req
    ensures IsPlan(r, ok, req, rets, from, Wrap32(now - from))
  {
    var minTTL := Wrap32(now - from);
    PlanIs(req, rets, from, minTTL);
    r, ok := req, false;
    var i := 0;
    while i < |rets|
      invariant 0 <= i <= |rets|
      invariant ok <==> Pick(rets, from, minTTL, i).Some?
      invariant ok ==> r.rawInterval == req.rawInterval && rets[Pick(rets, from, minTTL, i).value].TTL() < minTTL
      invariant r == if ok then req.Plan(Pick(rets, from, minTTL, i).value, rets[Pick(rets, from, minTTL, i).value])
                     else req
    {
      if rets[i].ready > from {
        i := i + 1;
        continue;
      }
      ok := true;
      r := r.Plan(i, rets[i]);
      if r.ttl >= minTTL {
        PickSettled(rets, from, minTTL, i + 1, |rets|);
        break;
      }
      i := i + 1;
    }
  }

  /** The first archive from position `start` on that has the interval and is ready. */
  function Rollup(rets: seq<Retention>, start: int, interval: int, from: int): (r: Option<int>)
    requires 0 <= start
    ensures r.Some? ==> start <= r.value < |rets| && Wrap32(rets[r.value].secondsPerPoint) == interval
                        && Ready(rets, r.value, from)
    decreases |rets| - start
  {
    if |rets| <= start then None
    else if interval == Wrap32(rets[start].secondsPerPoint) && Ready(rets, start, from) then Some(start)
    else Rollup(rets, start + 1, interval, from)
  }

  /** A request that was planned, changed to give the interval: from a coarser archive if there is one, or by grouping. */
  function Adjusted(r: Req, interval: int, from: int, rets: seq<Retention>): Req
    requires 0 <= r.archive && 0 < r.archInterval
  {
    if r.archInterval == interval then r
    else
      var c := Rollup(rets, r.archive + 1, interval, from);
      if c.Some? then r.Plan(c.value, rets[c.value]) else r.PlanNormalization(interval)
  }

  method AdjustTo(r: Req, interval: int, from: int, rets: seq<Retention>) returns (a: Req)
    requires 0 <= r.archive < |rets| && 0 < r.archInterval
    ensures a == Adjusted(r, interval, from, rets)
    ensures Usable(rets) && (r.archInterval == interval ==> r.outInterval == interval) ==>
              Adjusts(r, a, interval, from, rets)
  {
    if Usable(rets) && (r.archInterval == interval ==> r.outInterval == interval) {
      AdjustedIs(r, rets, from, interval);
    }
    if r.archInterval == interval {
      return r;
    }
    for i := r.archive + 1 to |rets|
      invariant Rollup(rets, r.archive + 1, interval, from) == Rollup(rets, i, interval, from)
    {
      if interval == Wrap32(rets[i].secondsPerPoint) && rets[i].ready <= from {
        return r.Plan(i, rets[i]);
      }
    }
    return r.PlanNormalization(interval);
  }

  /** The request reads a ready archive as that is: raw data at its own interval, rollups at that of their retention. */
  ghost predicate Reads(r: Req, raw: int, rets: seq<Retention>, from: int) {
    && 0 <= r.archive < |rets| && rets[r.archive].ready <= from
    && r.rawInterval == raw && r.archInterval == (if r.archive == 0 then raw else rets[r.archive].secondsPerPoint)
    && r.ttl == rets[r.archive].secondsPerPoint * rets[r.archive].numberOfPoints
  }

  /** The archive is kept for so many seconds. */
  predicate KeptFor(ret: Retention, secs: int) {
    secs <= ret.secondsPerPoint * ret.numberOfPoints
  }

  /** What a plan promises: the interval, from a ready archive that is kept long enough if any ready one is. */
  ghost predicate Serves(r: Req, raw: int, rets: seq<Retention>, from: int, minTTL: int, interval: int) {
    && Reads(r, raw, rets, from)
    && r.outInterval == interval && 0 < r.archInterval && 1 <= r.aggNum && r.archInterval * r.aggNum == interval
    && forall i :: 0 <= i < |rets| && rets[i].ready <= from && KeptFor(rets[i], minTTL) ==>
                     KeptFor(rets[r.archive], minTTL)
  }

  /** The archive is the finest ready one that is kept long enough, or the coarsest ready one if none is. */
  ghost predicate IsFinest(archive: int, rets: seq<Retention>, from: int, minTTL: int)
    requires 0 <= archive < |rets|
  {
    forall i :: 0 <= i < |rets| && rets[i].ready <= from ==>
                  if KeptFor(rets[archive], minTTL) then KeptFor(rets[i], minTTL) ==> archive <= i
                  else !KeptFor(rets[i], minTTL) && i <= archive
  }

  /** What is chosen first for a request: the finest archive, read as it is. */
  ghost predicate IsFirst(r: Req, raw: int, rets: seq<Retention>, from: int, minTTL: int) {
    Reads(r, raw, rets, from) && r.aggNum == 1 && r.outInterval == r.archInterval
    && IsFinest(r.archive, rets, from, minTTL)
  }

  /** The archive that is chosen first. */
  ghost predicate First(r: Req, req: Req, rets: seq<Retention>, from: int, minTTL: int) {
    var c := Pick(rets, from, minTTL, |rets|);
    c.Some? && r == req.Plan(c.value, rets[c.value])
  }

  lemma UsableTTL(rets: seq<Retention>, i: int, minTTL: int)
    requires Usable(rets) && 0 <= i < |rets|
    ensures rets[i].TTL() == rets[i].secondsPerPoint * rets[i].numberOfPoints
    ensures rets[i].TTL() >= minTTL <==> KeptFor(rets[i], minTTL)
  {
  }

  lemma PickFinest(rets: seq<Retention>, from: int, minTTL: int)
    requires Usable(rets) && Pick(rets, from, minTTL, |rets|).Some?
    ensures IsFinest(Pick(rets, from, minTTL, |rets|).value, rets, from, minTTL)
  {
    var c := Pick(rets, from, minTTL, |rets|).value;
    UsableTTL(rets, c, minTTL);
    forall i | 0 <= i < |rets| && rets[i].ready <= from
      ensures if KeptFor(rets[c], minTTL) then KeptFor(rets[i], minTTL) ==> c <= i
              else !KeptFor(rets[i], minTTL) && i <= c
    {
      UsableTTL(rets, i, minTTL);
      PickBest(rets, from, minTTL, |rets|, i);
    }
  }

  lemma PlanReads(req: Req, i: int, rets: seq<Retention>, from: int)
    requires Usable(rets) && 0 <= i < |rets| && rets[i].ready <= from
    ensures Reads(req.Plan(i, rets[i]), req.rawInterval, rets, from)
  {
    UsableTTL(rets, i, 0);
  }

  lemma FirstIs(r: Req, req: Req, rets: seq<Retention>, from: int, minTTL: int)
    requires Usable(rets) && First(r, req, rets, from, minTTL)
    ensures IsFirst(r, req.rawInterval, rets, from, minTTL)
  {
    PickFinest(rets, from, minTTL);
    PlanReads(req, Pick(rets, from, minTTL, |rets|).value, rets, from);
  }

  lemma FirstServes(r: Req, raw: int, rets: seq<Retention>, from: int, minTTL: int)
    requires Usable(rets) && 0 < raw < U32 && IsFirst(r, raw, rets, from, minTTL)
    ensures 0 < r.archInterval < U32 && Serves(r, raw, rets, from, minTTL, r.archInterval)
  {
  }

  /** A coarser ready archive has the interval. */
  predicate Coarser(rets: seq<Retention>, archive: int, i: int, interval: int, from: int)
    requires 0 <= i < |rets|
  {
    archive < i && rets[i].ready <= from && rets[i].secondsPerPoint == interval
  }

  /** The first coarser archive that has the interval, or else as many points of the same archive as make it up. */
  ghost predicate Adjusts(r: Req, a: Req, interval: int, from: int, rets: seq<Retention>) {
    && a.outInterval == interval && 0 <= a.archive < |rets|
    && if r.archInterval == interval then a == r
       else if exists i :: 0 <= i < |rets| && Coarser(rets, r.archive, i, interval, from) then
         && Coarser(rets, r.archive, a.archive, interval, from) && a.aggNum == 1
         && forall i :: 0 <= i < a.archive ==> !Coarser(rets, r.archive, i, interval, from)
       else a.archive == r.archive && 0 <= interval - r.archInterval * a.aggNum < r.archInterval
  }

  lemma AdjustedReads(r: Req, raw: int, rets: seq<Retention>, from: int, interval: int)
    requires Usable(rets) && Reads(r, raw, rets, from) && 0 < r.archInterval
    ensures Reads(Adjusted(r, interval, from, rets), raw, rets, from)
  {
    var c := Rollup(rets, r.archive + 1, interval, from);
    if r.archInterval != interval && c.Some? {
      PlanReads(r, c.value, rets, from);
    }
  }

  lemma {:induction false} RollupFirst(rets: seq<Retention>, start: int, interval: int, from: int)
    requires Resolved(rets) && 0 <= start
    ensures var c := Rollup(rets, start, interval, from);
            forall i :: start <= i < |rets| && (c.None? || i < c.value) ==>
                          !(rets[i].ready <= from && rets[i].secondsPerPoint == interval)
    decreases |rets| - start
  {
    if start < |rets| {
      RollupFirst(rets, start + 1, interval, from);
    }
  }

  lemma Whole(n: int, d: int)
    requires 0 < d
    ensures 0 <= n - d * (n / d) < d
  {
  }

  lemma CoarserFirst(r: Req, a: Req, rets: seq<Retention>, from: int, interval: int, c: int)
    requires Usable(rets) && 0 <= r.archive < |rets| && r.archInterval != interval
    requires Rollup(rets, r.archive + 1, interval, from) == Some(c) && a == r.Plan(c, rets[c])
    ensures Adjusts(r, a, interval, from, rets)
  {
    RollupFirst(rets, r.archive + 1, interval, from);
    assert Coarser(rets, r.archive, c, interval, from);
  }

  lemma NoneCoarser(r: Req, a: Req, rets: seq<Retention>, from: int, interval: int)
    requires Usable(rets) && 0 <= r.archive < |rets| && 0 < r.archInterval != interval
    requires Rollup(rets, r.archive + 1, interval, from) == None && a == r.PlanNormalization(interval)
    ensures Adjusts(r, a, interval, from, rets)
  {
    RollupFirst(rets, r.archive + 1, interval, from);
    Whole(interval, r.archInterval);
  }

  lemma AdjustedIs(r: Req, rets: seq<Retention>, from: int, interval: int)
    requires Usable(rets) && 0 <= r.archive < |rets| && 0 < r.archInterval
    requires r.archInterval == interval ==> r.outInterval == interval
    ensures Adjusts(r, Adjusted(r, interval, from, rets), interval, from, rets)
  {
    var a, c := Adjusted(r, interval, from, rets), Rollup(rets, r.archive + 1, interval, from);
    if r.archInterval != interval {
      if c.Some? {
        CoarserFirst(r, a, rets, from, interval, c.value);
      } else {
        NoneCoarser(r, a, rets, from, interval);
      }
    }
  }

  lemma KeptLonger(rets: seq<Retention>, i: int, j: int, minTTL: int)
    requires Usable(rets) && 0 <= i < j < |rets|
    ensures KeptFor(rets[i], minTTL) ==> KeptFor(rets[j], minTTL)
    ensures 0 < rets[j].secondsPerPoint
  {
    SaneOrder(rets, i, j);
  }

  lemma CoarserServes(r: Req, a: Req, raw: int, rets: seq<Retention>, from: int, minTTL: int, interval: int)
    requires Usable(rets) && Serves(r, raw, rets, from, minTTL, r.archInterval) && Reads(a, raw, rets, from)
    requires Coarser(rets, r.archive, a.archive, interval, from) && a.aggNum == 1 && a.outInterval == interval
    ensures Serves(a, raw, rets, from, minTTL, interval)
  {
    KeptLonger(rets, r.archive, a.archive, minTTL);
  }

  lemma GroupedServes(r: Req, a: Req, raw: int, rets: seq<Retention>, from: int, minTTL: int, interval: int)
    requires Serves(r, raw, rets, from, minTTL, r.archInterval) && Reads(a, raw, rets, from)
    requires a.archive == r.archive && a.aggNum == interval / r.archInterval && a.outInterval == interval
    requires 0 < interval && interval % r.archInterval == 0
    ensures Serves(a, raw, rets, from, minTTL, interval)
  {
    WholeFactor(interval, r.archInterval);
  }

  /** Moving to a coarser archive or grouping points keeps the promise, at the new interval. */
  lemma AdjustedServes(r: Req, raw: int, rets: seq<Retention>, from: int, minTTL: int, interval: int)
    requires Usable(rets) && Serves(r, raw, rets, from, minTTL, r.archInterval)
    requires 0 < interval && interval % r.archInterval == 0
    requires r.archInterval == interval ==> r.outInterval == interval
    ensures Serves(Adjusted(r, interval, from, rets), raw, rets, from, minTTL, interval)
  {
    var a, c := Adjusted(r, interval, from, rets), Rollup(rets, r.archive + 1, interval, from);
    AdjustedReads(r, raw, rets, from, interval);
    if r.archInterval != interval {
      if c.Some? {
        CoarserServes(r, a, raw, rets, from, minTTL, interval);
      } else {
        GroupedServes(r, a, raw, rets, from, minTTL, interval);
      }
    }
  }

  lemma WholeFactor(x: int, n: int)
    requires 0 < n && 0 < x && x % n == 0
    ensures 1 <= x / n && x == (x / n) * n
  {
    Multiple(x, n);
    ProductApart(n, x / n);
  }

  // ---------------------------------------------------------------------------------------------
  // A group of requests.

  /** The intervals of the archives that were chosen. */
  function Intervals(reqs: seq<Req>): (r: seq<int>)
    ensures |r| == |reqs| && forall i :: 0 <= i < |reqs| ==> r[i] == reqs[i].archInterval
  {
    if reqs == [] then [] else Intervals(reqs[..|reqs| - 1]) + [reqs[|reqs| - 1].archInterval]
  }

  /** Each value once, in the order of its first occurrence. */
  function Distinct(vals: seq<int>): seq<int> {
    if vals == [] then []
    else
      var rest, v := Distinct(vals[..|vals| - 1]), vals[|vals| - 1];
      if v in rest then rest else rest + [v]
  }

  lemma {:induction false} DistinctCommon(vals: seq<int>, n: int)
    requires Positive(vals)
    ensures Positive(Distinct(vals)) && (vals != [] ==> Distinct(vals) != [])
    ensures CommonMultiple(n, Distinct(vals)) <==> CommonMultiple(n, vals)
  {
    if vals != [] {
      var init, v := vals[..|vals| - 1], vals[|vals| - 1];
      var rest := Distinct(init);
      assert vals == init + [v];
      DistinctCommon(init, n);
      if CommonMultiple(n, vals) {
        CommonParts(n, init, v);
      }
      if v in rest {
        var k :| 0 <= k < |rest| && rest[k] == v;
        assert CommonMultiple(n, rest) ==> n % rest[k] == 0;
      } else if CommonMultiple(n, rest + [v]) {
        CommonParts(n, rest, v);
      }
    }
  }

  /** Repeated values do not change the least common multiple. */
  lemma DistinctLcm(vals: seq<int>, m: int)
    requires Positive(vals)
    ensures Positive(Distinct(vals))
    ensures IsLcm(m, Distinct(vals)) <==> IsLcm(m, vals)
    ensures Fits(Distinct(vals)) <==> Fits(vals)
  {
    DistinctCommon(vals, m);
    forall n
      ensures CommonMultiple(n, Distinct(vals)) <==> CommonMultiple(n, vals)
    {
      DistinctCommon(vals, n);
    }
  }

  lemma DistinctNext(vals: seq<int>, v: int)
    ensures Distinct(vals + [v]) == if v in Distinct(vals) then Distinct(vals) else Distinct(vals) + [v]
  {
    assert (vals + [v])[..|vals|] == vals;
  }

  lemma IntervalsNext(reqs: seq<Req>, r: Req)
    ensures Intervals(reqs + [r]) == Intervals(reqs) + [r.archInterval]
  {
    assert (reqs + [r])[..|reqs|] == reqs;
  }

  datatype Outcome = Planned | Unsatisfiable | Panics

  ghost predicate AllUsable(reqs: seq<Req>, rets: seq<seq<Retention>>) {
    |reqs| == |rets| && forall i :: 0 <= i < |reqs| ==> Usable(rets[i]) && 0 < reqs[i].rawInterval < U32
  }

  ghost predicate AllFirst(rs: seq<Req>, reqs: seq<Req>, rets: seq<seq<Retention>>, from: int, minTTL: int) {
    |rs| <= |reqs| == |rets| && forall i :: 0 <= i < |rs| ==> First(rs[i], reqs[i], rets[i], from, minTTL)
  }

  /** What is chosen first is a plan that grouping can start from. */
  ghost predicate Adjustable(rs: seq<Req>, rets: seq<seq<Retention>>) {
    |rs| == |rets| && forall i :: 0 <= i < |rs| ==> 0 <= rs[i].archive < |rets[i]| && 0 < rs[i].archInterval < U32
  }

  lemma FirstsAdjustable(rs: seq<Req>, reqs: seq<Req>, rets: seq<seq<Retention>>, from: int, minTTL: int)
    requires AllUsable(reqs, rets) && AllFirst(rs, reqs, rets, from, minTTL) && |rs| == |rets|
    ensures Adjustable(rs, rets) && Positive(Intervals(rs))
  {
    forall i | 0 <= i < |rs|
      ensures 0 <= rs[i].archive < |rets[i]| && 0 < rs[i].archInterval < U32
    {
      FirstIs(rs[i], reqs[i], rets[i], from, minTTL);
      FirstServes(rs[i], reqs[i].rawInterval, rets[i], from, minTTL);
    }
  }

  lemma FirstNext(rs: seq<Req>, r: Req, reqs: seq<Req>, rets: seq<seq<Retention>>, from: int, minTTL: int)
    requires AllFirst(rs, reqs, rets, from, minTTL) && |rs| < |reqs|
    requires First(r, reqs[|rs|], rets[|rs|], from, minTTL)
    ensures AllFirst(rs + [r], reqs, rets, from, minTTL)
  {
  }

  /** Adds an interval to the list unless it was seen before. */
  method Note(intervals: seq<int>, seen: set<int>, v: int, ghost vals: seq<int>)
    returns (intervals': seq<int>, seen': set<int>)
    requires intervals == Distinct(vals) && forall x :: x in seen <==> x in intervals
    ensures intervals' == Distinct(vals + [v]) && forall x :: x in seen' <==> x in intervals'
  {
    intervals', seen' := intervals, seen;
    DistinctNext(vals, v);
    if v !in seen {
      intervals' := intervals + [v];
      seen' := seen + {v};
    }
  }

  /** No archive is ready. */
  ghost predicate Unready(rets: seq<Retention>, from: int) {
    forall i :: 0 <= i < |rets| ==> from < rets[i].ready
  }

  /** Some request has no ready archive. */
  ghost predicate NoArchive(rets: seq<seq<Retention>>, from: int) {
    exists i :: 0 <= i < |rets| && Unready(rets[i], from)
  }

  lemma NoArchiveAt(rets: seq<seq<Retention>>, from: int, minTTL: int, i: int)
    requires 0 <= i < |rets| && Pick(rets[i], from, minTTL, |rets[i]|).None?
    ensures NoArchive(rets, from)
  {
    PickExactly(rets[i], from, minTTL, |rets[i]|);
    assert Unready(rets[i], from);
  }

  /** Plans one more request for itself and notes the interval of its archive. */
  method PlanNext(now: int, from: int, req: Req, ret: seq<Retention>, intervals: seq<int>, seen: set<int>,
                  ghost firsts: seq<Req>)
    returns (ok: bool, r: Req, intervals': seq<int>, seen': set<int>)
    requires intervals == Distinct(Intervals(firsts)) && forall x :: x in seen <==> x in intervals
    ensures ok ==> First(r, req, ret, from, Wrap32(now - from)) && intervals' == Distinct(Intervals(firsts + [r]))
    ensures ok ==> forall x :: x in seen' <==> x in intervals'
    ensures !ok ==> Pick(ret, from, Wrap32(now - from), |ret|).None?
  {
    intervals', seen' := intervals, seen;
    r, ok := PlanHighestResSingle(now, from, req, ret);
    if ok {
      IntervalsNext(firsts, r);
      intervals', seen' := Note(intervals, seen, r.archInterval, Intervals(firsts));
    }
  }

  lemma WroteNext(reqs: seq<Req>, firsts: seq<Req>, was: seq<Req>, i: int, r: Req)
    requires 0 <= i < |was| && |firsts| == i && reqs == firsts + was[i..]
    ensures reqs[i := r] == (firsts + [r]) + was[i + 1..]
  {
  }

  /** Plans each request for itself and lists the distinct intervals of the archives; false if some has no archive. */
  method PlanEach(now: int, from: int, reqs: array<Req>, rets: seq<seq<Retention>>)
    returns (ok: bool, intervals: seq<int>, ghost firsts: seq<Req>)
    requires reqs.Length == |rets|
    modifies reqs
    ensures ok ==> AllFirst(firsts, old(reqs[..]), rets, from, Wrap32(now - from)) && reqs[..] == firsts
                   && intervals == Distinct(Intervals(firsts))
    ensures !ok ==> NoArchive(rets, from)
  {
    ok, intervals, firsts := true, [], [];
    var seen: set<int> := {};
    ghost var was := reqs[..];
    for i := 0 to reqs.Length
      invariant |firsts| == i && reqs[..] == firsts + was[i..]
      invariant AllFirst(firsts, was, rets, from, Wrap32(now - from))
      invariant intervals == Distinct(Intervals(firsts)) && forall x :: x in seen <==> x in intervals
    {
      var r;
      ghost var before := reqs[..];
      assert before[i] == was[i];
      ok, r, intervals, seen := PlanNext(now, from, reqs[i], rets[i], intervals, seen, firsts);
      if !ok {
        NoArchiveAt(rets, from, Wrap32(now - from), i);
        return;
      }
      reqs[i] := r;
      assert reqs[..] == before[i := r];
      WroteNext(before, firsts, was, i, r);
      FirstNext(firsts, r, was, rets, from, Wrap32(now - from));
      firsts := firsts + [r];
    }
  }

  /** What was chosen first for each request. */
  ghost predicate AreFirst(firsts: seq<Req>, was: seq<Req>, rets: seq<seq<Retention>>, from: int, minTTL: int) {
    && |firsts| == |was| == |rets|
    && forall i :: 0 <= i < |firsts| ==> IsFirst(firsts[i], was[i].rawInterval, rets[i], from, minTTL)
  }

  /** Every request gives the interval, which is the least common multiple of the intervals chosen first. */
  ghost predicate InUnison(reqs: seq<Req>, firsts: seq<Req>, was: seq<Req>, rets: seq<seq<Retention>>, from: int,
                           minTTL: int, m: int) {
    && |reqs| == |firsts| == |was| == |rets| && Positive(Intervals(firsts)) && IsLcm(m, Intervals(firsts))
    && forall i :: 0 <= i < |reqs| ==> Serves(reqs[i], was[i].rawInterval, rets[i], from, minTTL, m)
                                       && Adjusts(firsts[i], reqs[i], m, from, rets[i])
  }

  method AdjustEach(interval: int, from: int, reqs: array<Req>, rets: seq<seq<Retention>>, ghost firsts: seq<Req>)
    requires reqs[..] == firsts && Adjustable(firsts, rets)
    modifies reqs
    ensures |reqs[..]| == |firsts| && AllAdjusted(reqs[..], firsts, rets, from, interval)
  {
    for i := 0 to reqs.Length
      invariant forall j :: 0 <= j < i ==> reqs[j] == Adjusted(firsts[j], interval, from, rets[j])
      invariant forall j :: i <= j < reqs.Length ==> reqs[j] == firsts[j]
    {
      reqs[i] := AdjustTo(reqs[i], interval, from, rets[i]);
    }
  }

  ghost predicate AllAdjusted(reqs: seq<Req>, firsts: seq<Req>, rets: seq<seq<Retention>>, from: int, interval: int)
    requires Adjustable(firsts, rets) && |reqs| == |firsts|
  {
    forall i :: 0 <= i < |reqs| ==> reqs[i] == Adjusted(firsts[i], interval, from, rets[i])
  }

  lemma AdjustedInUnison(reqs: seq<Req>, firsts: seq<Req>, was: seq<Req>, rets: seq<seq<Retention>>, from: int,
                         minTTL: int, m: int)
    requires AllUsable(was, rets) && AllFirst(firsts, was, rets, from, minTTL) && |firsts| == |reqs| == |rets|
    requires Positive(Intervals(firsts)) && IsLcm(m, Intervals(firsts)) && Adjustable(firsts, rets)
    requires AllAdjusted(reqs, firsts, rets, from, m)
    ensures InUnison(reqs, firsts, was, rets, from, minTTL, m)
  {
    forall i | 0 <= i < |reqs|
      ensures Serves(reqs[i], was[i].rawInterval, rets[i], from, minTTL, m)
      ensures Adjusts(firsts[i], reqs[i], m, from, rets[i])
    {
      assert m % Intervals(firsts)[i] == 0;
      AdjustedAt(reqs[i], firsts[i], was[i], rets[i], from, minTTL, m);
    }
  }

  lemma AdjustedAt(a: Req, r: Req, req: Req, rets: seq<Retention>, from: int, minTTL: int, m: int)
    requires Usable(rets) && 0 < req.rawInterval < U32 && First(r, req, rets, from, minTTL)
    requires 0 <= r.archive < |rets| && 0 < r.archInterval && a == Adjusted(r, m, from, rets)
    requires 0 < m && m % r.archInterval == 0
    ensures Serves(a, req.rawInterval, rets, from, minTTL, m) && Adjusts(r, a, m, from, rets)
  {
    FirstIs(r, req, rets, from, minTTL);
    FirstServes(r, req.rawInterval, rets, from, minTTL);
    AdjustedServes(r, req.rawInterval, rets, from, minTTL, m);
    AdjustedIs(r, rets, from, m);
  }

  /** The interval of a group, from the distinct intervals of its archives. */
  method GroupInterval(intervals: seq<int>, ghost vals: seq<int>) returns (panics: bool, interval: int)
    requires vals != [] && Positive(vals) && intervals == Distinct(vals)
    ensures Fits(vals) <==> !panics && IsLcm(interval, vals)
  {
    DistinctCommon(vals, 0);
    panics, interval := Lcm(intervals);
    DistinctLcm(vals, interval);
  }

  lemma FirstsHaveArchives(firsts: seq<Req>, reqs: seq<Req>, rets: seq<seq<Retention>>, from: int, minTTL: int)
    requires AllFirst(firsts, reqs, rets, from, minTTL) && |firsts| == |rets|
    ensures !NoArchive(rets, from)
  {
    forall i | 0 <= i < |rets|
      ensures !Unready(rets[i], from)
    {
      assert First(firsts[i], reqs[i], rets[i], from, minTTL);
      PickExactly(rets[i], from, minTTL, |rets[i]|);
    }
  }

  lemma FirstsAre(firsts: seq<Req>, was: seq<Req>, rets: seq<seq<Retention>>, from: int, minTTL: int)
    requires AllUsable(was, rets) && AllFirst(firsts, was, rets, from, minTTL) && |firsts| == |rets|
    ensures AreFirst(firsts, was, rets, from, minTTL)
  {
    forall i | 0 <= i < |firsts|
      ensures IsFirst(firsts[i], was[i].rawInterval, rets[i], from, minTTL)
    {
      FirstIs(firsts[i], was[i], rets[i], from, minTTL);
    }
  }

  /** Plans a group of requests so that all give one interval. */
  method PlanHighestResMulti(now: int, from: int, reqs: array<Req>, rets: seq<seq<Retention>>)
    returns (o: Outcome, ghost firsts: seq<Req>, ghost m: int)
    requires AllUsable(reqs[..], rets) && 0 < reqs.Length
    modifies reqs
    ensures o.Unsatisfiable? <==> NoArchive(rets, from)
    ensures !o.Unsatisfiable? ==> AreFirst(firsts, old(reqs[..]), rets, from, Wrap32(now - from))
                                  && Positive(Intervals(firsts))
    ensures !o.Unsatisfiable? ==>
              (Fits(Intervals(firsts)) <==>
               o.Planned? && InUnison(reqs[..], firsts, old(reqs[..]), rets, from, Wrap32(now - from), m))
  {
    ghost var was, minTTL := reqs[..], Wrap32(now - from);
    var ok, intervals;
    ok, intervals, firsts := PlanEach(now, from, reqs, rets);
    m := 0;
    if !ok {
      o := Unsatisfiable;
      return;
    }
    FirstsHaveArchives(firsts, was, rets, from, minTTL);
    FirstsAdjustable(firsts, was, rets, from, minTTL);
    FirstsAre(firsts, was, rets, from, minTTL);
    var panics, interval := GroupInterval(intervals, Intervals(firsts));
    if panics {
      o := Panics;
      return;
    }
    m := interval;
    AdjustEach(interval, from, reqs, rets, firsts);
    o := Planned;
    if Fits(Intervals(firsts)) {
      AdjustedInUnison(reqs[..], firsts, was, rets, from, minTTL, m);
    }
  }

  /** A plan meets what the fetching and grouping of the request relies on. */
  lemma PlannedIsValid(r: Req, raw: int, rets: seq<Retention>, from: int, minTTL: int, interval: int, to: int)
    requires Serves(r, raw, rets, from, minTTL, interval) && 1 <= from < to && to + interval <= U32
    ensures Requests.Req(from, to, r.archive, r.archInterval, r.aggNum, r.outInterval).Valid()
  {
    ProductApart(r.archInterval, r.aggNum);
    assert r.aggNum * r.archInterval == r.archInterval * r.aggNum;
  }
}
