/** Reading a range from memory and, for what is older than memory holds, from the store. */
module Fetch {
  import opened Points
  import opened Seqs
  import opened Tanks
  import opened TankQuery
  import opened TankRuns

  /** The saved chunks that overlap [from, until); the store reads whole chunks. */
  function StoreSearch(saved: seq<Chunk>, span: int, from: int, until: int): seq<Chunk> {
    if saved == [] then []
    else
      var c := saved[|saved| - 1];
      StoreSearch(saved[..|saved| - 1], span, from, until) + if c.t0 < until && from < c.t0 + span then [c] else []
  }

  function Min(a: int, b: int): int {
    if a < b then a else b
  }

  /** The points of [from, to): from memory if that reaches back far enough, else from the store and memory. */
  function FetchedFrom(t: Tank, store: seq<Chunk>, from: int, to: int): seq<Point>
    requires 0 <= t.evicted <= |t.hist|
  {
    var a := Query(t, from, to);
    if a.oldest <= from then In(Flat(a.iters), from, to)
    else In(Flat(StoreSearch(store, t.span, from, Min(a.oldest, to)) + a.iters), from, to)
  }

  /** What is fetched if the store holds just what this node sent. */
  function Fetched(t: Tank, from: int, to: int): seq<Point>
    requires 0 <= t.evicted <= |t.hist|
  {
    FetchedFrom(t, t.sent, from, to)
  }

  lemma FetchParts(t: Tank, store: seq<Chunk>, from: int, to: int)
    requires t.Valid() && 0 <= from < to
    ensures var oldest := Query(t, from, to).oldest;
            && (oldest <= from ==> FetchedFrom(t, store, from, to) == In(Flat(t.hist), from, to))
            && (from < oldest ==>
                  FetchedFrom(t, store, from, to)
                  == In(Flat(StoreSearch(store, t.span, from, Min(oldest, to))), from, to)
                     + In(Flat(t.hist), oldest, to))
  {
    var a := Query(t, from, to);
    QueryExact(t, from, to);
    InParts(StoreSearch(store, t.span, from, Min(a.oldest, to)), a.iters, from, to);
  }

  lemma FlatNext(chunks: seq<Chunk>, c: Chunk, from: int, to: int)
    ensures In(Flat(chunks + [c]), from, to) == In(Flat(chunks), from, to) + In(c.points, from, to)
  {
    assert (chunks + [c])[..|chunks|] == chunks;
    InConcat(Flat(chunks), c.points, from, to);
  }

  lemma SearchNext(saved: seq<Chunk>, c: Chunk, span: int, from: int, until: int)
    ensures c.t0 < until && from < c.t0 + span ==>
              StoreSearch(saved + [c], span, from, until) == StoreSearch(saved, span, from, until) + [c]
    ensures !(c.t0 < until && from < c.t0 + span) ==>
              StoreSearch(saved + [c], span, from, until) == StoreSearch(saved, span, from, until)
  {
    assert (saved + [c])[..|saved|] == saved;
  }

  /** Of the first k chunks, m start before `until`; only their points can be found in the store. */
  lemma StorePart(t: Tank, k: int, m: int, from: int, until: int, to: int)
    requires t.Valid() && 0 <= m <= k <= |t.hist|
    requires 0 < m ==> t.hist[m - 1].t0 < until
    requires m < k ==> until <= t.hist[m].t0
    ensures In(Flat(StoreSearch(t.hist[..k], t.span, from, until)), from, to) == In(Flat(t.hist[..m]), from, to)
  {
    StoreSkips(t, k, m, from, until);
    ChainPrefix(t.hist, t.span, m);
    StoreFinds(t.hist[..m], t.span, from, until, to);
  }

  lemma {:induction false} StoreSkips(t: Tank, k: int, m: int, from: int, until: int)
    requires t.Valid() && 0 <= m <= k <= |t.hist| && (m < k ==> until <= t.hist[m].t0)
    ensures StoreSearch(t.hist[..k], t.span, from, until) == StoreSearch(t.hist[..m], t.span, from, until)
    decreases k
  {
    if m < k {
      var c := t.hist[k - 1];
      assert t.hist[..k] == t.hist[..k - 1] + [c];
      SearchNext(t.hist[..k - 1], c, t.span, from, until);
      if m < k - 1 {
        ChainApart(t.hist, t.span, m, k - 1);
      }
      StoreSkips(t, k - 1, m, from, until);
    }
  }

  lemma {:induction false} StoreFinds(chunks: seq<Chunk>, span: int, from: int, until: int, to: int)
    requires 0 < span && Chain(chunks, span) && (chunks != [] ==> chunks[|chunks| - 1].t0 < until)
    ensures In(Flat(StoreSearch(chunks, span, from, until)), from, to) == In(Flat(chunks), from, to)
  {
    if chunks != [] {
      var init, c := chunks[..|chunks| - 1], chunks[|chunks| - 1];
      assert chunks == init + [c];
      StoreFinds(init, span, from, until, to);
      EndedChunk(c, span, from, to);
      FindNext(init, c, span, from, until, to);
    }
  }

  lemma {:induction false} ChainPrefix(chunks: seq<Chunk>, span: int, m: int)
    requires 0 < span && Chain(chunks, span) && 0 <= m <= |chunks|
    ensures Chain(chunks[..m], span)
  {
    if m == |chunks| {
      assert chunks[..m] == chunks;
    } else {
      var init := chunks[..|chunks| - 1];
      ChainPrefix(init, span, m);
      assert init[..m] == chunks[..m];
    }
  }

  lemma FindNext(chunks: seq<Chunk>, c: Chunk, span: int, from: int, until: int, to: int)
    requires In(Flat(StoreSearch(chunks, span, from, until)), from, to) == In(Flat(chunks), from, to)
    requires c.t0 < until && (c.t0 + span <= from ==> In(c.points, from, to) == [])
    ensures In(Flat(StoreSearch(chunks + [c], span, from, until)), from, to) == In(Flat(chunks + [c]), from, to)
  {
    SearchNext(chunks, c, span, from, until);
    FlatNext(StoreSearch(chunks, span, from, until), c, from, to);
    FlatNext(chunks, c, from, to);
  }

  lemma EndedChunk(c: Chunk, span: int, from: int, to: int)
    requires 0 < span && c.WellFormed(span)
    ensures c.t0 + span <= from ==> In(c.points, from, to) == []
  {
    if c.t0 + span <= from {
      InNone(c.points, from, to);
    }
  }

  /** How many of the first n chunks start before `until`. */
  function StartedBefore(t: Tank, until: int, n: int): (m: int)
    requires 0 <= n <= |t.hist|
    ensures 0 <= m <= n && (0 < m ==> t.hist[m - 1].t0 < until) && (m < n ==> until <= t.hist[m].t0)
  {
    if n == 0 then 0
    else if t.hist[n - 1].t0 < until then n
    else StartedBefore(t, until, n - 1)
  }

  /** Nothing of the range is in the chunks from position m on, if these start at or after its end. */
  lemma FrontHolds(t: Tank, m: int, from: int, to: int)
    requires t.Valid() && 0 <= m <= |t.hist| && (m < |t.hist| ==> to <= t.hist[m].t0)
    ensures In(Flat(t.hist[..m]), from, to) == In(Flat(t.hist), from, to)
  {
    TailBeyond(t, m, from, to);
    Split(t.hist, m);
    InParts(t.hist[..m], t.hist[m..], from, to);
  }

  /** If all that starts before `to` was sent, and memory holds nothing of the range, the store has it all. */
  lemma StoreAlone(t: Tank, k: int, n: int, from: int, to: int)
    requires t.Valid() && 0 <= n <= k <= |t.hist| && (n < |t.hist| ==> to <= t.hist[n].t0)
    ensures In(Flat(StoreSearch(t.hist[..k], t.span, from, to)), from, to) == In(Flat(t.hist), from, to)
  {
    var m := StartedBefore(t, to, n);
    StorePart(t, k, m, from, to, to);
    FrontHolds(t, m, from, to);
  }

  /** If all chunks before chunk i were sent, the store has what lies before chunk i. */
  lemma StoreBefore(t: Tank, k: int, i: int, from: int, to: int)
    requires t.Valid() && 0 <= i <= k <= |t.hist| && i < |t.hist|
    requires from <= t.hist[i].t0 <= to
    ensures In(Flat(StoreSearch(t.hist[..k], t.span, from, t.hist[i].t0)), from, to) + In(Flat(t.hist), t.hist[i].t0, to)
            == In(Flat(t.hist), from, to)
  {
    var u := t.hist[i].t0;
    if 0 < i {
      ChainApart(t.hist, t.span, i - 1, i);
    }
    StorePart(t, k, i, from, u, to);
    BeforeChunk(t, i);
    InLower(Flat(t.hist[..i]), from, u, to);
    FrontHolds(t, i, from, u);
    HistAscending(t);
    InSplit(Flat(t.hist), from, u, to);
  }

  /** Lowering the upper end of the range changes nothing if no point is at or above the new end. */
  lemma {:induction false} InLower(s: seq<Point>, from: int, u: int, to: int)
    requires u <= to && forall p :: p in s ==> p.ts < u
    ensures In(s, from, to) == In(s, from, u)
  {
    if s != [] {
      InLower(s[..|s| - 1], from, u, to);
    }
  }

  // ---------------------------------------------------------------------------------------------

  /**
   * The first chunk is still in memory and among the first k chunks, and the range begins before its first point and
   * ends after it, where that point is not at the very start of the chunk.
   */
  predicate ReadsTwice(t: Tank, k: int, from: int, to: int) {
    && t.hist != [] && t.evicted == 0 && 0 < k
    && t.hist[0].t0 < t.firstTs && from < t.firstTs < to
  }

  /** What memory reports as oldest is the first point exactly if the range reaches before it. */
  lemma FirstFound(t: Tank, from: int)
    requires t.Valid() && t.hist != [] && t.evicted == 0 && from < t.firstTs
    ensures from < t.Last().t0 + t.span
    ensures FirstEndingAfter(t.hist, t.span, from, 0) == 0 && OldestIn(t, t.hist[0]) == t.firstTs
  {
    OldestFirst(t, 0);
    ChainAt(t.hist, t.span, 0);
    if 1 < |t.hist| {
      ChainApart(t.hist, t.span, 0, |t.hist| - 1);
    }
  }

  /** A range that reaches before the first point, with the first chunk in memory: the store adds m chunks again. */
  lemma FetchFirstParts(t: Tank, k: int, from: int, to: int) returns (m: int)
    requires t.Valid() && t.hist != [] && t.evicted == 0 && 0 <= k <= |t.hist|
    requires 0 <= from < t.firstTs && t.hist[0].t0 < to && from < to
    ensures 0 <= m <= 1 && (m == 1 <==> 0 < k && t.hist[0].t0 < t.firstTs)
    ensures FetchedFrom(t, t.hist[..k], from, to) == In(Flat(t.hist[..m]), from, to) + In(Flat(t.hist), from, to)
  {
    var u := Min(t.firstTs, to);
    FirstFound(t, from);
    FetchParts(t, t.hist[..k], from, to);
    FromFirst(t, from, to);
    OldestFirst(t, 0);
    m := if k == 0 || u <= t.hist[0].t0 then 0 else 1;
    if 1 < k {
      ChainApart(t.hist, t.span, 0, 1);
    }
    StorePart(t, k, m, from, u, to);
  }

  lemma FetchFirst(t: Tank, k: int, from: int, to: int)
    requires t.Valid() && t.hist != [] && t.evicted == 0 && 0 <= k <= |t.hist|
    requires 0 <= from < t.firstTs && t.hist[0].t0 < to && from < to
    ensures FetchedFrom(t, t.hist[..k], from, to) == In(Flat(t.hist), from, to) <==> !ReadsTwice(t, k, from, to)
  {
    var m := FetchFirstParts(t, k, from, to);
    FirstChunkRead(t, m, from, to);
    Longer(In(Flat(t.hist[..m]), from, to), In(Flat(t.hist), from, to));
  }

  lemma FromFirst(t: Tank, from: int, to: int)
    requires t.Valid() && t.hist != [] && from <= t.firstTs
    ensures In(Flat(t.hist), t.firstTs, to) == In(Flat(t.hist), from, to)
  {
    ChainAt(t.hist, t.span, 0);
    FlatRange(t, 0, |t.hist|);
    assert t.hist[0..|t.hist|] == t.hist;
    InRaise(Flat(t.hist), from, t.firstTs, to);
  }

  lemma FirstChunkRead(t: Tank, m: int, from: int, to: int)
    requires t.Valid() && t.hist != [] && 0 <= m <= 1 && from < t.firstTs
    ensures In(Flat(t.hist[..m]), from, to) == [] <==> m == 0 || to <= t.firstTs
  {
    if m == 1 {
      FirstChunkPoints(t);
      InIsEmpty(t.hist[0].points, from, to);
    }
  }

  lemma FirstChunkPoints(t: Tank)
    requires t.Valid() && t.hist != []
    ensures Flat(t.hist[..1]) == t.hist[0].points && Ascending(t.hist[0].points)
    ensures t.hist[0].points != [] && t.hist[0].points[0].ts == t.firstTs
  {
    FlatOne(t.hist);
    ChainAt(t.hist, t.span, 0);
    OldestFirst(t, 0);
  }

  /** A series that begins after the start of the range has nothing in it exactly if it begins at or after its end. */
  lemma InIsEmpty(s: seq<Point>, from: int, to: int)
    requires Ascending(s) && s != [] && from < s[0].ts
    ensures In(s, from, to) == [] <==> to <= s[0].ts
  {
    InMembers(s, from, to);
    if to <= s[0].ts {
      InNone(s, from, to);
    } else {
      assert s[0] in In(s, from, to);
    }
  }

  lemma Longer(a: seq<Point>, b: seq<Point>)
    ensures a + b == b <==> a == []
  {
    assert |a + b| == |a| + |b|;
  }

  /** What lies before chunk i comes from the store, unless that is the first chunk. */
  lemma FetchFrom(t: Tank, k: int, i: int, from: int, to: int)
    requires t.Valid() && 0 <= i <= k <= |t.hist| && i < |t.hist|
    requires from < OldestIn(t, t.hist[i]) && (0 < i || t.firstTs <= from)
    ensures var x := OldestIn(t, t.hist[i]);
            In(Flat(StoreSearch(t.hist[..k], t.span, from, Min(x, to))), from, to) + In(Flat(t.hist), x, to)
            == In(Flat(t.hist), from, to)
  {
    OldestFirst(t, i);
    ChainAt(t.hist, t.span, i);
    assert OldestIn(t, t.hist[i]) == t.hist[i].t0;
    if t.hist[i].t0 < to {
      StoreBefore(t, k, i, from, to);
    } else {
      StoreAlone(t, k, i, from, to);
      InNone(Flat(t.hist), t.hist[i].t0, to);
    }
  }

  /** A range that begins in a gap before chunk i: the store has nothing before that chunk. */
  lemma FetchGap(t: Tank, k: int, i: int, from: int, to: int)
    requires t.Valid() && 0 <= k <= |t.hist| && 0 < i < |t.hist|
    requires t.hist[i - 1].t0 + t.span <= from < t.hist[i].t0 && from < to
    ensures var x := OldestIn(t, t.hist[i]);
            In(Flat(StoreSearch(t.hist[..k], t.span, from, Min(x, to))), from, to) + In(Flat(t.hist), x, to)
            == In(Flat(t.hist), from, to)
  {
    var u := Min(t.hist[i].t0, to);
    OldestFirst(t, i);
    ChainAt(t.hist, t.span, i);
    SearchGap(t, k, i, from, u);
    AfterGap(t, i, from, to);
  }

  lemma {:induction false} SearchGap(t: Tank, k: int, i: int, from: int, until: int)
    requires t.Valid() && 0 <= k <= |t.hist| && 0 < i < |t.hist|
    requires t.hist[i - 1].t0 + t.span <= from && until <= t.hist[i].t0
    ensures StoreSearch(t.hist[..k], t.span, from, until) == []
    decreases k
  {
    if 0 < k {
      var c := t.hist[k - 1];
      assert t.hist[..k] == t.hist[..k - 1] + [c];
      SearchNext(t.hist[..k - 1], c, t.span, from, until);
      BesideGap(t, k - 1, i, from, until);
      SearchGap(t, k - 1, i, from, until);
    }
  }

  lemma BesideGap(t: Tank, j: int, i: int, from: int, until: int)
    requires t.Valid() && 0 <= j < |t.hist| && 0 < i < |t.hist|
    requires t.hist[i - 1].t0 + t.span <= from && until <= t.hist[i].t0
    ensures until <= t.hist[j].t0 || t.hist[j].t0 + t.span <= from
  {
    if j < i - 1 {
      ChainApart(t.hist, t.span, j, i - 1);
    } else if i < j {
      ChainApart(t.hist, t.span, i, j);
    }
  }

  lemma AfterGap(t: Tank, i: int, from: int, to: int)
    requires t.Valid() && 0 < i < |t.hist| && t.hist[i - 1].t0 + t.span <= from <= t.hist[i].t0
    ensures In(Flat(t.hist), t.hist[i].t0, to) == In(Flat(t.hist), from, to)
  {
    var u := t.hist[i].t0;
    Split(t.hist, i);
    InParts(t.hist[..i], t.hist[i..], from, to);
    InParts(t.hist[..i], t.hist[i..], u, to);
    assert t.hist[0..i] == t.hist[..i] && t.hist[i..|t.hist|] == t.hist[i..];
    FlatRange(t, 0, i);
    FlatRange(t, i, |t.hist|);
    InNone(Flat(t.hist[..i]), from, to);
    InNone(Flat(t.hist[..i]), u, to);
    InRaise(Flat(t.hist[i..]), from, u, to);
  }

  /** Ranges that do not reach before the first point while the first chunk is in memory. */
  lemma FetchLater(t: Tank, k: int, from: int, to: int)
    requires t.Valid() && t.hist != [] && 0 <= t.evicted <= k <= |t.hist|
    requires 0 <= from < to && (t.evicted != 0 || t.firstTs <= from || to <= t.hist[0].t0)
    ensures FetchedFrom(t, t.hist[..k], from, to) == In(Flat(t.hist), from, to)
  {
    var e := t.evicted;
    FetchParts(t, t.hist[..k], from, to);
    if from >= t.Last().t0 + t.span {
    } else if to <= t.hist[e].t0 {
      OldestFirst(t, e);
      StoreAlone(t, k, e, from, to);
      InNone(Flat(t.hist), OldestIn(t, t.hist[e]), to);
    } else {
      FetchMiddle(t, k, from, to);
    }
  }

  lemma FetchMiddle(t: Tank, k: int, from: int, to: int)
    requires t.Valid() && t.hist != [] && 0 <= t.evicted <= k <= |t.hist| && 0 <= from < to
    requires from < t.Last().t0 + t.span && (t.evicted != 0 || t.firstTs <= from)
    ensures var x := OldestIn(t, t.hist[FirstEndingAfter(t.hist, t.span, from, t.evicted)]);
            from < x ==>
              In(Flat(StoreSearch(t.hist[..k], t.span, from, Min(x, to))), from, to) + In(Flat(t.hist), x, to)
              == In(Flat(t.hist), from, to)
  {
    var e := t.evicted;
    var i := FirstEndingAfter(t.hist, t.span, from, e);
    if from < OldestIn(t, t.hist[i]) {
      if i == e {
        FetchFrom(t, k, i, from, to);
      } else {
        OldestFirst(t, i);
        ChainAt(t.hist, t.span, i);
        FetchGap(t, k, i, from, to);
      }
    }
  }

  /**
   * With the first k chunks in the store, and everything else in memory, the accepted points of the range come back
   * exactly, unless the first chunk is read from both.
   */
  lemma StoreExact(t: Tank, k: int, from: int, to: int)
    requires t.Valid() && t.evicted <= k <= |t.hist| && 0 <= from < to
    ensures FetchedFrom(t, t.hist[..k], from, to) == In(Flat(t.hist), from, to) <==> !ReadsTwice(t, k, from, to)
  {
    if t.hist == [] {
    } else if t.evicted == 0 && from < t.firstTs && t.hist[0].t0 < to {
      FetchFirst(t, k, from, to);
    } else {
      if t.evicted == 0 && to <= t.hist[0].t0 {
        OldestFirst(t, 0);
      }
      FetchLater(t, k, from, to);
    }
  }

  // ---------------------------------------------------------------------------------------------
  // A store that lacks a first chunk at time 0.

  lemma {:induction false} SearchFirst(c: Chunk, rest: seq<Chunk>, span: int, from: int, until: int)
    ensures StoreSearch([c] + rest, span, from, until)
            == StoreSearch([c], span, from, until) + StoreSearch(rest, span, from, until)
    decreases |rest|
  {
    if rest == [] {
      assert [c] + rest == [c];
    } else {
      var init, d := rest[..|rest| - 1], rest[|rest| - 1];
      SearchFirst(c, init, span, from, until);
      assert [c] + rest == ([c] + init) + [d] && rest == init + [d];
      SearchNext([c] + init, d, span, from, until);
      SearchNext(init, d, span, from, until);
    }
  }

  /** What the first chunk contributes to what is fetched, if it is in the store. */
  function FirstPart(t: Tank, from: int, to: int): seq<Point>
    requires 0 <= t.evicted <= |t.hist| && t.hist != []
  {
    var oldest := Query(t, from, to).oldest;
    if from < oldest && t.hist[0].t0 < Min(oldest, to) && from < t.hist[0].t0 + t.span then
      In(t.hist[0].points, from, to)
    else []
  }

  lemma WithoutFirst(t: Tank, k: int, from: int, to: int)
    requires 0 <= t.evicted <= |t.hist| && 1 <= k <= |t.hist|
    ensures FetchedFrom(t, t.hist[..k], from, to) == FirstPart(t, from, to) + FetchedFrom(t, t.hist[1..k], from, to)
  {
    var a, c := Query(t, from, to), t.hist[0];
    if from < a.oldest {
      var until := Min(a.oldest, to);
      var found, rest := StoreSearch([c], t.span, from, until), StoreSearch(t.hist[1..k], t.span, from, until);
      assert t.hist[..k] == [c] + t.hist[1..k];
      SearchFirst(c, t.hist[1..k], t.span, from, until);
      SearchOne(c, t.span, from, until, to);
      Assoc(found, rest, a.iters);
      InParts(found, rest + a.iters, from, to);
    }
  }

  lemma SearchOne(c: Chunk, span: int, from: int, until: int, to: int)
    ensures In(Flat(StoreSearch([c], span, from, until)), from, to)
            == if c.t0 < until && from < c.t0 + span then In(c.points, from, to) else []
  {
    assert [c][..0] == [];
    assert StoreSearch([], span, from, until) == [] && [] + [c] == [c];
    assert Flat([c]) == c.points;
  }

  /** A chunk at time 0 was evicted, and has points in the range. */
  predicate MissesEpoch(t: Tank, from: int, to: int) {
    Skipped(t) == 1 && 0 < t.evicted && In(t.hist[0].points, from, to) != []
  }

  lemma FirstPartEvicted(t: Tank, from: int, to: int)
    requires t.Valid() && Skipped(t) == 1 && 0 < t.evicted && 0 <= from < to
    ensures FirstPart(t, from, to) == In(t.hist[0].points, from, to)
  {
    var e := t.evicted;
    ChainAt(t.hist, t.span, 0);
    ChainAt(t.hist, t.span, e);
    ChainApart(t.hist, t.span, 0, e);
    OldestFirst(t, e);
    EndedChunk(t.hist[0], t.span, from, to);
    if e < |t.hist| - 1 {
      ChainApart(t.hist, t.span, e, |t.hist| - 1);
    }
  }

  lemma FirstPartHeld(t: Tank, k: int, from: int, to: int)
    requires t.Valid() && Skipped(t) == 1 && t.evicted == 0 && 1 <= k && 0 <= from < to
    ensures !ReadsTwice(t, k, from, to) ==> FirstPart(t, from, to) == []
    ensures ReadsTwice(t, k, from, to) ==> FirstPart(t, from, to) == In(Flat(t.hist[..1]), from, to)
  {
    if from < t.firstTs {
      FirstSearched(t, from, to);
    } else {
      FirstFetched(t, from, to);
    }
  }

  lemma FirstSearched(t: Tank, from: int, to: int)
    requires t.Valid() && Skipped(t) == 1 && t.evicted == 0 && 0 <= from < t.firstTs && from < to
    ensures FirstPart(t, from, to) == In(Flat(t.hist[..1]), from, to)
    ensures FirstPart(t, from, to) == [] <==> to <= t.firstTs
  {
    FirstChunkPoints(t);
    FirstOldest(t, from, to);
    InIsEmpty(t.hist[0].points, from, to);
  }

  lemma FirstOldest(t: Tank, from: int, to: int)
    requires t.Valid() && Skipped(t) == 1 && t.evicted == 0 && 0 <= from < t.firstTs && from < to
    ensures Query(t, from, to).oldest == t.firstTs && t.firstTs < t.hist[0].t0 + t.span
  {
    FirstFound(t, from);
    OldestFirst(t, 0);
  }

  lemma FirstFetched(t: Tank, from: int, to: int)
    requires t.Valid() && Skipped(t) == 1 && t.evicted == 0 && t.firstTs <= from < to
    ensures FirstPart(t, from, to) == []
  {
    OldestFirst(t, 0);
    if from < t.span && 1 < |t.hist| {
      ChainApart(t.hist, t.span, 0, |t.hist| - 1);
    }
  }

  /** Without the first chunk in the store nothing is read twice, and it is missed exactly if it was evicted. */
  lemma EpochExact(t: Tank, k: int, from: int, to: int)
    requires t.Valid() && Skipped(t) == 1 && t.evicted <= k <= |t.hist| && 1 <= k && 0 <= from < to
    ensures FetchedFrom(t, t.hist[1..k], from, to) == In(Flat(t.hist), from, to) <==> !MissesEpoch(t, from, to)
  {
    var all, rest, first := In(Flat(t.hist), from, to), FetchedFrom(t, t.hist[1..k], from, to), FirstPart(t, from, to);
    WithoutFirst(t, k, from, to);
    StoreExact(t, k, from, to);
    Longer(first, rest);
    if 0 < t.evicted {
      FirstPartEvicted(t, from, to);
    } else {
      FirstPartHeld(t, k, from, to);
      if ReadsTwice(t, k, from, to) {
        var m := FetchFirstParts(t, k, from, to);
        SameRest(first, rest, all);
      }
    }
  }

  lemma SameRest(a: seq<Point>, b: seq<Point>, c: seq<Point>)
    requires a + b == a + c
    ensures b == c
  {
    assert b == (a + b)[|a|..] && c == (a + c)[|a|..];
  }

  // ---------------------------------------------------------------------------------------------
  // A node that is the primary all along.

  /** The first chunk is read from memory and from the store. */
  predicate ReadsFirstChunkTwice(t: Tank, from: int, to: int) {
    Skipped(t) == 0 && ReadsTwice(t, |t.sent|, from, to)
  }

  /**
   * Main result for a node that is the primary all along: memory and store together give exactly the accepted points
   * of the range, unless the first chunk is read from both, or is at time 0, was evicted and has points in the range.
   */
  lemma FetchExact(t: Tank, k: int, from: int, to: int)
    requires t.Valid() && SavedUpTo(t, k) && 0 <= from < to
    ensures Fetched(t, from, to) == In(Flat(t.hist), from, to)
            <==> !ReadsFirstChunkTwice(t, from, to) && !MissesEpoch(t, from, to)
  {
    if Skipped(t) == 0 {
      assert t.hist[0..k] == t.hist[..k];
      StoreExact(t, k, from, to);
    } else {
      EpochExact(t, k, from, to);
    }
  }

  /** Otherwise the fetched points are those of the range, after some of its first points a second time. */
  lemma FetchShape(t: Tank, k: int, from: int, to: int) returns (m: int)
    requires t.Valid() && SavedUpTo(t, k) && 0 <= from < to && !MissesEpoch(t, from, to)
    ensures 0 <= m <= |In(Flat(t.hist), from, to)|
    ensures Fetched(t, from, to) == In(Flat(t.hist), from, to)[..m] + In(Flat(t.hist), from, to)
  {
    var all := In(Flat(t.hist), from, to);
    FetchExact(t, k, from, to);
    if ReadsFirstChunkTwice(t, from, to) {
      assert t.hist[0..k] == t.hist[..k];
      var n := FetchFirstParts(t, k, from, to);
      m := FrontPart(t.hist, n, from, to);
    } else {
      m := 0;
      assert all[..0] + all == all;
    }
  }

  lemma FrontPart(chunks: seq<Chunk>, n: int, from: int, to: int) returns (m: int)
    requires 0 <= n <= |chunks|
    ensures 0 <= m <= |In(Flat(chunks), from, to)|
    ensures In(Flat(chunks[..n]), from, to) == In(Flat(chunks), from, to)[..m]
  {
    Split(chunks, n);
    InParts(chunks[..n], chunks[n..], from, to);
    m := |In(Flat(chunks[..n]), from, to)|;
  }

  // A primary with chunks of 60 seconds takes a point at 70 and one at 130.
  const EARLIER := Point(70, Num(1.0))
  const LATER := Point(130, Num(2.0))

  const ONE_CHUNK := Tank(2, 60, false, [Chunk(60, [EARLIER], false, true)], 0, 0, 70, [])
  const SAVED_CHUNK := Chunk(60, [EARLIER], true, true)
  const TWO_CHUNKS := Tank(2, 60, false, [SAVED_CHUNK, Chunk(120, [LATER], false, false)], 0, 60, 70, [SAVED_CHUNK])

  lemma ExampleSave()
    ensures ONE_CHUNK.FinishLast().Persist() == Tank(2, 60, false, [SAVED_CHUNK], 0, 60, 70, [SAVED_CHUNK])
  {
    var done := ONE_CHUNK.FinishLast();
    assert done.hist == [SAVED_CHUNK];
    assert done.Live() == [SAVED_CHUNK] && [SAVED_CHUNK][..0] == [];
    assert After([SAVED_CHUNK], 0) == [SAVED_CHUNK];
  }

  lemma ExampleFirst()
    ensures Fresh(2, 60, false).Add(EARLIER, true) == ONE_CHUNK
  {
  }

  lemma ExampleSecond()
    ensures ONE_CHUNK.Add(LATER, true) == TWO_CHUNKS
  {
    ExampleSave();
    assert ONE_CHUNK.Accepts(LATER);
  }

  lemma ExampleRun()
    ensures Proper([Add(EARLIER, true), Add(LATER, true)])
    ensures Run(Fresh(2, 60, false), [Add(EARLIER, true), Add(LATER, true)]) == TWO_CHUNKS
  {
    ExampleFirst();
    ExampleSecond();
    TwoEvents(Fresh(2, 60, false), Add(EARLIER, true), Add(LATER, true), ONE_CHUNK, TWO_CHUNKS);
  }

  lemma ExampleFlat()
    ensures Flat(TWO_CHUNKS.hist[..1]) == [EARLIER] && Flat(TWO_CHUNKS.hist) == [EARLIER, LATER]
    ensures TWO_CHUNKS.hist[..1] == [SAVED_CHUNK]
  {
    var first := TWO_CHUNKS.hist[..1];
    assert first == [SAVED_CHUNK] && first[..0] == [];
    assert Flat(first) == [EARLIER];
  }

  lemma ExampleFetch()
    requires TWO_CHUNKS.Valid()
    ensures ReadsFirstChunkTwice(TWO_CHUNKS, 60, 140) && Fetched(TWO_CHUNKS, 60, 140) == [EARLIER, EARLIER, LATER]
  {
    ExampleFlat();
    var m := FetchFirstParts(TWO_CHUNKS, 1, 60, 140);
    InAll([EARLIER], 60, 140);
    InAll([EARLIER, LATER], 60, 140);
  }

  /** The range [60, 140) then has the first point twice. */
  lemma FirstPointTwice()
    ensures Proper([Add(EARLIER, true), Add(LATER, true)])
    ensures var t := Run(Fresh(2, 60, false), [Add(EARLIER, true), Add(LATER, true)]);
            && ReadsFirstChunkTwice(t, 60, 140)
            && Fetched(t, 60, 140) == [EARLIER, EARLIER, LATER]
  {
    ExampleRun();
    ExampleFetch();
  }
}
