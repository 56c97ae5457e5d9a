/**
 * The in-memory chunks of one metric as a queue: chunks are appended at the new end and evicted at the old end.
 * Everything the metric ever held is kept in `hist`, so that claims can be made over whole runs.
 */
module Tanks {
  import opened Arith
  import opened Points
  import opened Quantize
  import opened Seqs

  datatype PushResult = Pushed(chunk: Chunk) | TooOld | NewValueForTimestamp

  datatype Chunk = Chunk(t0: int, points: seq<Point>, finished: bool, first: bool) {

    /** The timestamp of the last point, 0 if there is none. */
    function LastTs(): int {
      if points == [] then 0 else points[|points| - 1].ts
    }

    function Finish(): Chunk {
      this.(finished := true)
    }

    function Append(p: Point): Chunk {
      this.(points := points + [p])
    }

    /** Points must arrive in strict time order. */
    function Push(p: Point): PushResult {
      if p.ts == LastTs() then NewValueForTimestamp
      else if p.ts < LastTs() then TooOld
      else Pushed(Append(p))
    }

    ghost predicate WellFormed(span: int)
      requires 0 < span
    {
      && 0 <= t0 && t0 % span == 0
      && points != [] && Ascending(points)
      && forall p :: p in points ==> t0 <= p.ts < t0 + span && 0 < p.ts
    }
  }

  function Flat(chunks: seq<Chunk>): (r: seq<Point>) {
    if chunks == [] then []
    else Flat(chunks[..|chunks| - 1]) + chunks[|chunks| - 1].points
  }

  lemma {:induction false} FlatConcat(a: seq<Chunk>, b: seq<Chunk>)
    ensures Flat(a + b) == Flat(a) + Flat(b)
    decreases |b|
  {
    if b == [] {
      assert a + b == a;
    } else {
      assert (a + b)[..|a + b| - 1] == a + b[..|b| - 1];
      FlatConcat(a, b[..|b| - 1]);
    }
  }

  /** The chunks that start after the mark. */
  function After(chunks: seq<Chunk>, mark: int): (r: seq<Chunk>) {
    if chunks == [] then []
    else
      var c := chunks[|chunks| - 1];
      After(chunks[..|chunks| - 1], mark) + if mark < c.t0 then [c] else []
  }

  lemma {:induction false} AfterMembers(chunks: seq<Chunk>, mark: int)
    ensures forall c :: c in After(chunks, mark) <==> c in chunks && mark < c.t0
  {
    if chunks != [] {
      AfterMembers(chunks[..|chunks| - 1], mark);
      assert chunks == chunks[..|chunks| - 1] + [chunks[|chunks| - 1]];
    }
  }

  ghost predicate InOrder(chunks: seq<Chunk>) {
    forall i, j :: 0 <= i < j < |chunks| ==> chunks[i].t0 < chunks[j].t0
  }

  /**
   * Well-formed chunks that start at multiples of the span, in order; only the first is flagged as such, and
   * only the last may still grow.
   */
  ghost predicate Chain(chunks: seq<Chunk>, span: int)
    requires 0 < span
  {
    chunks == [] ||
    var n := |chunks| - 1;
    && Chain(chunks[..n], span)
    && chunks[n].WellFormed(span)
    && (chunks[n].first <==> n == 0)
    && (0 < n ==> chunks[n - 1].finished && chunks[n - 1].t0 < chunks[n].t0)
  }

  lemma {:induction false} ChainAt(chunks: seq<Chunk>, span: int, i: int)
    requires 0 < span && Chain(chunks, span) && 0 <= i < |chunks|
    ensures chunks[i].WellFormed(span)
    ensures chunks[i].first <==> i == 0
    ensures i < |chunks| - 1 ==> chunks[i].finished
  {
    if i < |chunks| - 1 {
      ChainAt(chunks[..|chunks| - 1], span, i);
    }
  }

  /** Chunks do not overlap. */
  lemma {:induction false} ChainApart(chunks: seq<Chunk>, span: int, i: int, j: int)
    requires 0 < span && Chain(chunks, span) && 0 <= i < j < |chunks|
    ensures chunks[i].t0 + span <= chunks[j].t0
  {
    var n := |chunks| - 1;
    if j < n {
      ChainApart(chunks[..n], span, i, j);
    } else {
      if i < n - 1 {
        ChainApart(chunks[..n], span, i, n - 1);
      }
      ChainAt(chunks, span, n - 1);
      MultiplesApart(chunks[n - 1].t0, chunks[n].t0, span);
    }
  }

  lemma ChainInOrder(chunks: seq<Chunk>, span: int)
    requires 0 < span && Chain(chunks, span)
    ensures InOrder(chunks)
  {
    forall i, j | 0 <= i < j < |chunks|
      ensures chunks[i].t0 < chunks[j].t0
    {
      ChainApart(chunks, span, i, j);
    }
  }

  ghost predicate AllFinishedIn(part: seq<Chunk>, chunks: seq<Chunk>) {
    forall c :: c in part ==> c.finished && c in chunks
  }

  datatype Tank = Tank(
    cap: int,              // how many chunks the ring holds
    span: int,             // chunk span in seconds
    dropFirst: bool,       // treat the first chunk as saved
    hist: seq<Chunk>,      // every chunk ever started, oldest first
    evicted: int,          // how many of these are no longer in memory
    lastSave: int,         // start of the last chunk known to be saved or queued for saving
    firstTs: int,          // timestamp of the first point
    sent: seq<Chunk>)      // chunks handed to the store, in order
  {
    ghost predicate Valid() {
      && 0 < cap && 0 < span <= MAX_INT32
      && 0 <= evicted <= |hist| && |hist| - evicted <= cap && (hist != [] ==> evicted < |hist|)
      && Chain(hist, span)
      && (hist != [] ==> hist[0].points != [] && firstTs == hist[0].points[0].ts)
    }

    /** Chunks were sent in order, at most once, finished, and as they will remain. */
    ghost predicate SentFaithfully() {
      && InOrder(sent)
      && (forall c :: c in sent ==> c.t0 <= lastSave)
      && AllFinishedIn(sent, hist)
    }

    function Live(): seq<Chunk>
      requires 0 <= evicted <= |hist|
    {
      hist[evicted..]
    }

    function Last(): Chunk
      requires hist != []
    {
      hist[|hist| - 1]
    }

    function FinishLast(): Tank
      requires hist != []
    {
      this.(hist := hist[|hist| - 1 := Last().Finish()])
    }

    /** Hand every unsaved chunk in memory to the store, oldest first. */
    function Persist(): Tank
      requires hist != [] && 0 <= evicted <= |hist|
    {
      if lastSave >= Last().t0 then this
      else this.(sent := sent + After(Live(), lastSave), lastSave := Last().t0)
    }

    function Notice(t0: int): Tank {
      this.(lastSave := if t0 > lastSave then t0 else lastSave)
    }

    function StartOf(ts: int): int
      requires 0 < span
    {
      ts - ts % span
    }

    predicate Accepts(p: Point)
      requires 0 < span
    {
      || hist == []
      || Last().t0 < StartOf(p.ts)
      || (StartOf(p.ts) == Last().t0 && !Last().finished && Last().LastTs() < p.ts)
    }

    function Add(p: Point, primary: bool): Tank
      requires 0 < span && 0 <= evicted <= |hist|
    {
      if hist == [] then Begin(p)
      else if !Accepts(p) then this
      else if StartOf(p.ts) == Last().t0 then Extend(p)
      else Advance(p, primary)
    }

    /** The first chunk. If it is to be dropped, it counts as saved. */
    function Begin(p: Point): Tank
      requires 0 < span
    {
      var t := this.(hist := [Chunk(StartOf(p.ts), [p], false, true)], firstTs := p.ts);
      if dropFirst then t.Notice(StartOf(p.ts)) else t
    }

    function Extend(p: Point): Tank
      requires hist != []
    {
      this.(hist := hist[|hist| - 1 := Last().Append(p)])
    }

    /** Close the current chunk, save it if this node is the primary, and start a new one. */
    function Advance(p: Point, primary: bool): Tank
      requires 0 < span && hist != [] && 0 <= evicted <= |hist|
    {
      var t := FinishLast();
      (if primary then t.Persist() else t).Grow(Chunk(StartOf(p.ts), [p], false, false))
    }

    /** Start a new chunk, evicting the oldest one if the ring is full. */
    function Grow(c: Chunk): Tank {
      this.(hist := hist + [c], evicted := if |hist| - evicted < cap then evicted else evicted + 1)
    }

    /** Close the current chunk of a stale metric. */
    function Close(primary: bool): Tank
      requires 0 <= evicted <= |hist|
    {
      if hist == [] || Last().finished then this
      else if primary then FinishLast().Persist() else FinishLast()
    }
  }

  function Fresh(cap: int, span: int, dropFirst: bool): Tank {
    Tank(cap, span, dropFirst, [], 0, 0, 0, [])
  }

  // ---------------------------------------------------------------------------------------------
  // What every step keeps

  lemma {:induction false} AfterInOrder(chunks: seq<Chunk>, mark: int)
    requires InOrder(chunks)
    ensures InOrder(After(chunks, mark))
  {
    if chunks != [] {
      AfterInOrder(chunks[..|chunks| - 1], mark);
      AfterMembers(chunks[..|chunks| - 1], mark);
    }
  }

  /** Replacing the last chunk by one that extends it keeps the chain. */
  lemma ReplaceLast(t: Tank, c: Chunk)
    requires t.Valid() && t.hist != []
    requires c.t0 == t.Last().t0 && c.first == t.Last().first && c.WellFormed(t.span)
    requires t.Last().points <= c.points
    ensures t.(hist := t.hist[|t.hist| - 1 := c]).Valid()
    ensures Flat(t.hist[|t.hist| - 1 := c]) == Flat(t.hist[..|t.hist| - 1]) + c.points
  {
    UpdateLast(t.hist, c);
    assert t.Last().WellFormed(t.span);
  }

  lemma StillFinishedIn(part: seq<Chunk>, chunks: seq<Chunk>, c: Chunk)
    requires chunks != [] && AllFinishedIn(part, chunks)
    requires var last := chunks[|chunks| - 1]; last.finished ==> c == last
    ensures AllFinishedIn(part, chunks[|chunks| - 1 := c])
  {
    forall d | d in part
      ensures d in chunks[|chunks| - 1 := c]
    {
      var i :| 0 <= i < |chunks| && chunks[i] == d;
      assert chunks[|chunks| - 1 := c][i] == d;
    }
  }

  lemma FinishLastKeeps(t: Tank)
    requires t.Valid() && t.hist != []
    ensures t.FinishLast().Valid()
    ensures t.FinishLast().Last().t0 == t.Last().t0
    ensures Flat(t.FinishLast().hist) == Flat(t.hist)
    ensures t.SentFaithfully() ==> t.FinishLast().SentFaithfully()
  {
    ReplaceLast(t, t.Last().Finish());
    if t.SentFaithfully() {
      StillFinishedIn(t.sent, t.hist, t.Last().Finish());
    }
  }

  lemma PersistKeeps(t: Tank)
    requires t.Valid() && t.SentFaithfully() && t.hist != [] && t.Last().finished
    ensures t.Persist().SentFaithfully()
  {
    var due := After(t.Live(), t.lastSave);
    DueChunks(t);
    AfterMembers(t.Live(), t.lastSave);
    SentInOrder(t.sent, due, t.lastSave);
    assert forall c :: c in t.sent + due <==> c in t.sent || c in due;
  }

  lemma DueChunks(t: Tank)
    requires t.Valid() && t.hist != [] && t.Last().finished
    ensures InOrder(After(t.Live(), t.lastSave))
    ensures forall c :: c in After(t.Live(), t.lastSave) ==> c.t0 <= t.Last().t0 && c.finished && c in t.hist
  {
    ChainInOrder(t.hist, t.span);
    AfterInOrder(t.Live(), t.lastSave);
    AfterMembers(t.Live(), t.lastSave);
    forall c | c in After(t.Live(), t.lastSave)
      ensures c.t0 <= t.Last().t0 && c.finished && c in t.hist
    {
      var i :| 0 <= i < |t.hist| && t.hist[i] == c;
      ChainAt(t.hist, t.span, i);
    }
  }

  lemma SentInOrder(a: seq<Chunk>, b: seq<Chunk>, mark: int)
    requires InOrder(a) && InOrder(b)
    requires forall c :: c in a ==> c.t0 <= mark
    requires forall c :: c in b ==> mark < c.t0
    ensures InOrder(a + b)
  {
    forall i, j | 0 <= i < j < |a + b|
      ensures (a + b)[i].t0 < (a + b)[j].t0
    {
      if i < |a| {
        assert (a + b)[i] in a;
      }
      if j >= |a| {
        assert (a + b)[j] in b;
      }
    }
  }

  /** The start of a chunk is the last multiple of the span at or before the point. */
  lemma StartExact(t: Tank, ts: int)
    requires 0 < t.span && 0 <= ts
    ensures var t0 := t.StartOf(ts); 0 <= t0 && t0 % t.span == 0 && t0 <= ts < t0 + t.span
  {
    RoundedDown(ts, t.span);
  }

  lemma GrowKeeps(t: Tank, c: Chunk)
    requires t.Valid() && t.hist != [] && t.Last().finished && t.Last().t0 < c.t0
    requires c.WellFormed(t.span) && !c.first
    ensures t.Grow(c).Valid()
    ensures Flat(t.Grow(c).hist) == Flat(t.hist) + c.points
  {
    assert t.Grow(c).hist[..|t.hist|] == t.hist;
  }

  lemma AppendKeeps(t: Tank, p: Point)
    requires t.Valid() && t.hist != [] && t.Last().LastTs() < p.ts
    requires t.Last().t0 <= p.ts < t.Last().t0 + t.span
    ensures t.Extend(p).Valid() && Flat(t.Extend(p).hist) == Flat(t.hist) + [p]
  {
    AppendWellFormed(t.Last(), p, t.span);
    ReplaceLast(t, t.Last().Append(p));
    Assoc(Flat(t.hist[..|t.hist| - 1]), t.Last().points, [p]);
  }

  lemma AppendWellFormed(c: Chunk, p: Point, span: int)
    requires 0 < span && c.WellFormed(span) && c.LastTs() < p.ts && c.t0 <= p.ts < c.t0 + span
    ensures c.Append(p).WellFormed(span)
  {
    LastIsMax(c.points);
    AscendingConcat(c.points, [p], c.LastTs());
  }

  lemma LastIsMax(s: seq<Point>)
    requires Ascending(s) && s != []
    ensures forall p :: p in s ==> p.ts <= s[|s| - 1].ts
  {
    forall p | p in s
      ensures p.ts <= s[|s| - 1].ts
    {
      var i :| 0 <= i < |s| && s[i] == p;
    }
  }

  lemma BeginKeeps(t: Tank, p: Point)
    requires t.Valid() && t.hist == [] && 0 < p.ts
    ensures t.Begin(p).Valid() && Flat(t.Begin(p).hist) == [p]
  {
    StartExact(t, p.ts);
    assert t.Begin(p).hist[..0] == [];
  }

  lemma AdvanceKeeps(t: Tank, p: Point, primary: bool)
    requires t.Valid() && t.hist != [] && 0 < p.ts && t.Last().t0 < t.StartOf(p.ts)
    ensures t.Advance(p, primary).Valid() && Flat(t.Advance(p, primary).hist) == Flat(t.hist) + [p]
  {
    StartExact(t, p.ts);
    FinishLastKeeps(t);
    var f := t.FinishLast();
    GrowKeeps(if primary then f.Persist() else f, Chunk(t.StartOf(p.ts), [p], false, false));
  }

  /** A point either is appended to the series of accepted points, or leaves it as it was. */
  lemma AddKeeps(t: Tank, p: Point, primary: bool)
    requires t.Valid() && 0 < p.ts
    ensures t.Add(p, primary).Valid()
    ensures Flat(t.Add(p, primary).hist) == if t.Accepts(p) then Flat(t.hist) + [p] else Flat(t.hist)
  {
    if t.hist == [] {
      BeginKeeps(t, p);
    } else if t.Accepts(p) {
      if t.StartOf(p.ts) == t.Last().t0 {
        StartExact(t, p.ts);
        AppendKeeps(t, p);
      } else {
        AdvanceKeeps(t, p, primary);
      }
    }
  }

  /** Adding a point sends chunks on, if at all, in the order and state promised. */
  lemma AddKeepsSent(t: Tank, p: Point, primary: bool)
    requires t.Valid() && t.SentFaithfully() && 0 < p.ts
    ensures t.Add(p, primary).SentFaithfully()
  {
    if t.hist != [] && t.Accepts(p) {
      if t.StartOf(p.ts) == t.Last().t0 {
        StillFinishedIn(t.sent, t.hist, t.Last().Append(p));
      } else {
        FinishLastKeeps(t);
        PersistKeeps(t.FinishLast());
      }
    }
  }

  lemma CloseKeeps(t: Tank, primary: bool)
    requires t.Valid()
    ensures t.Close(primary).Valid()
    ensures Flat(t.Close(primary).hist) == Flat(t.hist)
    ensures t.SentFaithfully() ==> t.Close(primary).SentFaithfully()
  {
    if t.hist != [] && !t.Last().finished {
      FinishLastKeeps(t);
      if t.SentFaithfully() {
        PersistKeeps(t.FinishLast());
      }
    }
  }
}
