/** Reading a time range from the chunks in memory. */
module TankQuery {
  import opened Points
  import opened Quantize
  import opened Seqs
  import opened Tanks

  function Max(a: int, b: int): int {
    if a < b then b else a
  }

  /** The chunks to iterate over, and the time from which on these cover everything. */
  datatype Answer = Answer(iters: seq<Chunk>, oldest: int)

  /** The first chunk at or after position i that ends after `from`. */
  function FirstEndingAfter(chunks: seq<Chunk>, span: int, from: int, i: int): (r: int)
    requires 0 <= i < |chunks| && from < chunks[|chunks| - 1].t0 + span
    ensures i <= r < |chunks| && from < chunks[r].t0 + span
    ensures forall k :: i <= k < r ==> chunks[k].t0 + span <= from
    decreases |chunks| - i
  {
    if from < chunks[i].t0 + span then i else FirstEndingAfter(chunks, span, from, i + 1)
  }

  /** The last chunk at or before position j, and not before position e, that starts before `to`. */
  function LastStartingBefore(chunks: seq<Chunk>, to: int, e: int, j: int): (r: int)
    requires 0 <= e <= j < |chunks| && chunks[e].t0 < to
    ensures e <= r <= j && chunks[r].t0 < to
    ensures forall k :: r < k <= j ==> to <= chunks[k].t0
    decreases j
  {
    if chunks[j].t0 < to then j else LastStartingBefore(chunks, to, e, j - 1)
  }

  function OldestIn(t: Tank, c: Chunk): int {
    if c.first then t.firstTs else c.t0
  }

  /** The chunks in memory from i up to j, starting over at the oldest if j comes before i. */
  function Around(t: Tank, i: int, j: int): seq<Chunk>
    requires 0 <= t.evicted <= i < |t.hist| && t.evicted <= j < |t.hist|
  {
    if i <= j then t.hist[i..j + 1] else t.hist[i..] + t.hist[t.evicted..j + 1]
  }

  function Query(t: Tank, from: int, to: int): Answer
    requires 0 <= t.evicted <= |t.hist|
  {
    if t.evicted == |t.hist| then Answer([], MAX_INT32)
    else if from >= t.Last().t0 + t.span then Answer([], from)
    else if to <= t.hist[t.evicted].t0 then Answer([], OldestIn(t, t.hist[t.evicted]))
    else
      var i := FirstEndingAfter(t.hist, t.span, from, t.evicted);
      var j := LastStartingBefore(t.hist, to, t.evicted, |t.hist| - 1);
      Answer(Around(t, i, j), OldestIn(t, t.hist[i]))
  }

  // ---------------------------------------------------------------------------------------------

  /** All points of chunks i, ..., j - 1 lie between the oldest time of chunk i and the end of chunk j - 1. */
  lemma {:induction false} FlatRange(t: Tank, i: int, j: int)
    requires t.Valid() && 0 <= i < j <= |t.hist|
    ensures t.hist[i].t0 <= OldestIn(t, t.hist[i])
    ensures forall p :: p in Flat(t.hist[i..j]) ==> OldestIn(t, t.hist[i]) <= p.ts < t.hist[j - 1].t0 + t.span
    decreases j
  {
    var chunks, last := t.hist[i..j], t.hist[j - 1];
    OldestFirst(t, j - 1);
    if i == j - 1 {
      assert chunks[..0] == [];
    } else {
      FlatRange(t, i, j - 1);
      ChainApart(t.hist, t.span, i, j - 1);
      ChainApart(t.hist, t.span, j - 2, j - 1);
      OldestFirst(t, i);
      assert chunks[..|chunks| - 1] == t.hist[i..j - 1];
    }
  }

  lemma OldestFirst(t: Tank, i: int)
    requires t.Valid() && 0 <= i < |t.hist|
    ensures t.hist[i].t0 <= OldestIn(t, t.hist[i]) < t.hist[i].t0 + t.span
    ensures forall p :: p in t.hist[i].points ==> OldestIn(t, t.hist[i]) <= p.ts < t.hist[i].t0 + t.span
  {
    var c := t.hist[i];
    ChainAt(t.hist, t.span, i);
    assert c.points[0] in c.points;
    forall p | p in c.points
      ensures c.points[0].ts <= p.ts
    {
      var k :| 0 <= k < |c.points| && c.points[k] == p;
    }
  }

  lemma {:induction false} FlatAscending(t: Tank, j: int)
    requires t.Valid() && 0 <= j <= |t.hist|
    ensures Ascending(Flat(t.hist[..j]))
  {
    if 0 < j {
      var chunks, last := t.hist[..j], t.hist[j - 1];
      assert chunks[..j - 1] == t.hist[..j - 1];
      FlatAscending(t, j - 1);
      BeforeChunk(t, j - 1);
      ChainAt(t.hist, t.span, j - 1);
      AscendingConcat(Flat(t.hist[..j - 1]), last.points, last.t0 - 1);
    }
  }

  lemma InParts(a: seq<Chunk>, b: seq<Chunk>, from: int, to: int)
    ensures In(Flat(a + b), from, to) == In(Flat(a), from, to) + In(Flat(b), from, to)
  {
    FlatConcat(a, b);
    InConcat(Flat(a), Flat(b), from, to);
  }

  /** No point of the chunks before position i is at or after the start of chunk i. */
  lemma BeforeChunk(t: Tank, i: int)
    requires t.Valid() && 0 <= i < |t.hist|
    ensures forall p :: p in Flat(t.hist[..i]) ==> p.ts < t.hist[i].t0
  {
    if 0 < i {
      FlatRange(t, 0, i);
      ChainApart(t.hist, t.span, i - 1, i);
      assert t.hist[0..i] == t.hist[..i];
    }
  }

  /**
   * Main result. Restricted to [from, to), the chunks returned hold exactly the points that the metric ever
   * accepted in that range from the reported oldest time on, in time order.
   */
  lemma QueryComplete(t: Tank, from: int, to: int)
    requires t.Valid() && 0 <= from < to
    ensures var a := Query(t, from, to);
            && In(Flat(a.iters), from, to) == In(Flat(t.hist), Max(from, a.oldest), to)
            && Ascending(In(Flat(a.iters), from, to))
  {
    QueryExact(t, from, to);
    HistAscending(t);
    var oldest := Query(t, from, to).oldest;
    InAscending(Flat(t.hist), Max(from, oldest), to);
  }

  lemma HistAscending(t: Tank)
    requires t.Valid()
    ensures Ascending(Flat(t.hist))
  {
    assert t.hist[..|t.hist|] == t.hist;
    FlatAscending(t, |t.hist|);
  }

  lemma QueryExact(t: Tank, from: int, to: int)
    requires t.Valid() && 0 <= from < to
    ensures var a := Query(t, from, to);
            In(Flat(a.iters), from, to) == In(Flat(t.hist), Max(from, a.oldest), to)
  {
    if t.hist == [] {
    } else if from >= t.Last().t0 + t.span {
      AheadOfData(t, from, to);
    } else if to <= t.hist[t.evicted].t0 {
      OldestFirst(t, t.evicted);
      InNone(Flat(t.hist), OldestIn(t, t.hist[t.evicted]), to);
    } else {
      var i := FirstEndingAfter(t.hist, t.span, from, t.evicted);
      var j := LastStartingBefore(t.hist, to, t.evicted, |t.hist| - 1);
      AroundComplete(t, from, to, i, j);
    }
  }

  lemma AroundComplete(t: Tank, from: int, to: int, i: int, j: int)
    requires t.Valid() && t.evicted <= i < |t.hist| && t.evicted <= j < |t.hist| && from < to
    requires t.evicted < i ==> t.hist[i - 1].t0 + t.span <= from
    requires j + 1 < |t.hist| ==> to <= t.hist[j + 1].t0
    ensures In(Flat(Around(t, i, j)), from, to) == In(Flat(t.hist), Max(from, OldestIn(t, t.hist[i])), to)
  {
    if i <= j {
      MiddleComplete(t, i, j + 1, from, to);
    } else {
      GapComplete(t, from, to, i, j);
    }
  }

  /** If the range begins in a later chunk than it ends, it falls in a gap. */
  lemma GapComplete(t: Tank, from: int, to: int, i: int, j: int)
    requires t.Valid() && t.evicted <= j < i < |t.hist| && from < to
    requires t.hist[i - 1].t0 + t.span <= from && to <= t.hist[j + 1].t0
    ensures In(Flat(t.hist[i..] + t.hist[t.evicted..j + 1]), from, to) ==
            In(Flat(t.hist), Max(from, OldestIn(t, t.hist[i])), to)
  {
    if j < i - 1 {
      ChainApart(t.hist, t.span, j, i - 1);
    }
    GapEmpty(t, i, j + 1, from, to);
    InNone(Flat(t.hist), OldestIn(t, t.hist[i]), to);
  }

  lemma AheadOfData(t: Tank, from: int, to: int)
    requires t.Valid() && t.hist != [] && t.Last().t0 + t.span <= from
    ensures In(Flat(t.hist), from, to) == []
  {
    FlatRange(t, 0, |t.hist|);
    assert t.hist[0..|t.hist|] == t.hist;
    InNone(Flat(t.hist), from, to);
  }

  /** Chunks from position n on start too late to matter. */
  lemma TailBeyond(t: Tank, n: int, from: int, to: int)
    requires t.Valid() && 0 <= n <= |t.hist| && (n < |t.hist| ==> to <= t.hist[n].t0)
    ensures In(Flat(t.hist[n..]), from, to) == []
  {
    if n < |t.hist| {
      FlatRange(t, n, |t.hist|);
      assert t.hist[n..|t.hist|] == t.hist[n..];
      InNone(Flat(t.hist[n..]), from, to);
    }
  }

  lemma OnlyMiddle(a: seq<Chunk>, b: seq<Chunk>, c: seq<Chunk>, from: int, to: int)
    requires In(Flat(a), from, to) == [] && In(Flat(c), from, to) == []
    ensures In(Flat(a + b + c), from, to) == In(Flat(b), from, to)
  {
    InParts(a + b, c, from, to);
    InParts(a, b, from, to);
  }

  lemma MiddleComplete(t: Tank, m: int, n: int, from: int, to: int)
    requires t.Valid() && 0 <= m < n <= |t.hist|
    requires n < |t.hist| ==> to <= t.hist[n].t0
    ensures In(Flat(t.hist[m..n]), from, to) == In(Flat(t.hist), Max(from, OldestIn(t, t.hist[m])), to)
  {
    var oldest := OldestIn(t, t.hist[m]);
    var lo := Max(from, oldest);
    var mid := Flat(t.hist[m..n]);
    BeforeChunk(t, m);
    FlatRange(t, m, n);
    TailBeyond(t, n, lo, to);
    InNone(Flat(t.hist[..m]), lo, to);
    OnlyMiddle(t.hist[..m], t.hist[m..n], t.hist[n..], lo, to);
    Split3(t.hist, m, n);
    InRaise(mid, from, lo, to);
  }

  /** Raising the lower end of the range changes nothing if no point is below the new end. */
  lemma {:induction false} InRaise(s: seq<Point>, from: int, lo: int, to: int)
    requires from <= lo && forall p :: p in s ==> from <= p.ts ==> lo <= p.ts
    ensures In(s, from, to) == In(s, lo, to)
  {
    if s != [] {
      InRaise(s[..|s| - 1], from, lo, to);
    }
  }

  /**
   * A range that falls between two chunks is answered with chunks in wrapped order, newer ones first, but
   * none of these holds a point of the range.
   */
  lemma GapEmpty(t: Tank, m: int, n: int, from: int, to: int)
    requires t.Valid() && t.evicted < n <= m < |t.hist|
    requires to <= t.hist[n].t0 && t.hist[n - 1].t0 + t.span <= from
    ensures In(Flat(t.hist[m..] + t.hist[t.evicted..n]), from, to) == []
    ensures to <= OldestIn(t, t.hist[m])
  {
    if n < m {
      ChainApart(t.hist, t.span, n, m);
    }
    TailBeyond(t, m, from, to);
    OldestFirst(t, m);
    EndedBefore(t, n, from, to);
    InParts(t.hist[m..], t.hist[t.evicted..n], from, to);
  }

  /** Chunks in memory before position n ended too early to matter. */
  lemma EndedBefore(t: Tank, n: int, from: int, to: int)
    requires t.Valid() && t.evicted <= n <= |t.hist|
    requires t.evicted < n ==> t.hist[n - 1].t0 + t.span <= from
    ensures In(Flat(t.hist[t.evicted..n]), from, to) == []
  {
    if t.evicted < n {
      FlatRange(t, t.evicted, n);
    }
    InNone(Flat(t.hist[t.evicted..n]), from, to);
  }

  /** Below the reported oldest time, the only points in range are those of evicted chunks. */
  lemma BelowOldestEvicted(t: Tank, from: int, to: int)
    requires t.Valid() && 0 <= from < to
    ensures var a := Query(t, from, to);
            var until := if a.oldest < to then a.oldest else to;
            In(Flat(t.hist), from, until) == In(Flat(t.hist[..t.evicted]), from, until)
  {
    var a := Query(t, from, to);
    var until := if a.oldest < to then a.oldest else to;
    Split(t.hist, t.evicted);
    InParts(t.hist[..t.evicted], t.Live(), from, until);
    if t.hist == [] {
    } else if from >= t.Last().t0 + t.span {
      InNone(Flat(t.Live()), from, until);
    } else if to <= t.hist[t.evicted].t0 {
      TailBeyond(t, t.evicted, from, until);
    } else {
      NothingBelow(t, FirstEndingAfter(t.hist, t.span, from, t.evicted), from, until);
    }
  }

  lemma LiveParts(chunks: seq<Chunk>, e: int, m: int, from: int, to: int)
    requires 0 <= e <= m <= |chunks|
    ensures In(Flat(chunks[e..]), from, to) == In(Flat(chunks[e..m]), from, to) + In(Flat(chunks[m..]), from, to)
  {
    assert chunks[e..] == chunks[e..m] + chunks[m..];
    InParts(chunks[e..m], chunks[m..], from, to);
  }

  lemma NothingBelow(t: Tank, m: int, from: int, until: int)
    requires t.Valid() && t.evicted <= m < |t.hist| && until <= OldestIn(t, t.hist[m])
    requires t.evicted < m ==> t.hist[m - 1].t0 + t.span <= from
    ensures In(Flat(t.Live()), from, until) == []
  {
    EndedBefore(t, m, from, until);
    FlatRange(t, m, |t.hist|);
    assert t.hist[m..|t.hist|] == t.hist[m..];
    InNone(Flat(t.hist[m..]), from, until);
    LiveParts(t.hist, t.evicted, m, from, until);
  }

  /** The time lies in a chunk in memory, not before its first point if that is the first of the metric. */
  ghost predicate InMemory(t: Tank, ts: int)
    requires t.Valid()
  {
    exists i :: t.evicted <= i < |t.hist| && OldestIn(t, t.hist[i]) <= ts < t.hist[i].t0 + t.span
  }

  /**
   * Memory is said to reach back to the start of the range exactly if that lies in a chunk in memory, or after all
   * chunks; in particular it does not for a metric without chunks.
   */
  lemma ReachesBack(t: Tank, from: int, to: int)
    requires t.Valid() && 0 <= from < to && from < MAX_INT32
    ensures Query(t, from, to).oldest <= from <==>
            t.hist != [] && (t.Last().t0 + t.span <= from || InMemory(t, from))
  {
    if t.hist != [] && from < t.Last().t0 + t.span {
      if to <= t.hist[t.evicted].t0 {
        BeforeMemory(t, from);
      } else {
        var i := FirstEndingAfter(t.hist, t.span, from, t.evicted);
        OnlyIn(t, from, i);
      }
    }
  }

  lemma BeforeMemory(t: Tank, from: int)
    requires t.Valid() && t.hist != [] && from < t.hist[t.evicted].t0
    ensures !InMemory(t, from) && from < OldestIn(t, t.hist[t.evicted])
  {
    OldestFirst(t, t.evicted);
    forall i | t.evicted <= i < |t.hist|
      ensures from < OldestIn(t, t.hist[i])
    {
      OldestFirst(t, i);
      if t.evicted < i {
        ChainApart(t.hist, t.span, t.evicted, i);
      }
    }
  }

  /** Chunks before position i end too early to hold the time, and later ones start too late. */
  lemma OnlyIn(t: Tank, from: int, i: int)
    requires t.Valid() && t.evicted <= i < |t.hist| && from < t.hist[i].t0 + t.span
    requires forall k :: t.evicted <= k < i ==> t.hist[k].t0 + t.span <= from
    ensures InMemory(t, from) <==> OldestIn(t, t.hist[i]) <= from
  {
    forall k | i < k < |t.hist|
      ensures from < OldestIn(t, t.hist[k])
    {
      OldestFirst(t, k);
      ChainApart(t.hist, t.span, i, k);
    }
  }
}
