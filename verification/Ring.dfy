/** The circular array of chunks, read as a queue: which array positions hold which chunks, and how to walk them. */
module Ring {
  import opened Seqs
  import opened Tanks
  import opened TankQuery
  import opened TankRuns

  /** The array position of the l-th oldest chunk in a ring of n chunks whose newest is at pos. */
  function Pos(pos: int, n: int, l: int): int {
    if pos + 1 + l < n then pos + 1 + l else pos + 1 + l - n
  }

  /** The ring holds these chunks, oldest first. */
  ghost predicate RingOf(ring: seq<Chunk>, pos: int, live: seq<Chunk>) {
    && |live| == |ring|
    && (if ring == [] then pos == 0 else 0 <= pos < |ring|)
    && forall l :: 0 <= l < |live| ==> live[l] == ring[Pos(pos, |ring|, l)]
  }

  lemma RingAt(ring: seq<Chunk>, pos: int, live: seq<Chunk>, l: int)
    requires RingOf(ring, pos, live) && 0 <= l < |live|
    ensures |live| == |ring| && 0 <= pos < |ring| && 0 <= Pos(pos, |ring|, l) < |ring|
    ensures ring[Pos(pos, |ring|, l)] == live[l]
  {
  }

  lemma RotatedAt(ring: seq<Chunk>, pos: int, live: seq<Chunk>, a: seq<Chunk>, b: seq<Chunk>, l: int)
    requires RingOf(ring, pos, live) && 0 <= l < |live| && b == ring[..pos + 1] && a == ring[pos + 1..]
    ensures (a + b)[l] == live[l]
  {
    RingAt(ring, pos, live, l);
  }

  /** The ring is the newer chunks followed by the older ones. */
  lemma Rotated(ring: seq<Chunk>, pos: int, live: seq<Chunk>, a: seq<Chunk>, b: seq<Chunk>)
    requires RingOf(ring, pos, live) && ring != [] && b == ring[..pos + 1] && a == ring[pos + 1..]
    ensures live == a + b && ring == b + a
  {
    forall l | 0 <= l < |live|
      ensures (a + b)[l] == live[l]
    {
      RotatedAt(ring, pos, live, a, b, l);
    }
  }

  lemma RingCount(ring: seq<Chunk>, pos: int, live: seq<Chunk>)
    requires RingOf(ring, pos, live)
    ensures |Flat(ring)| == |Flat(live)|
  {
    if ring != [] {
      var a, b := ring[pos + 1..], ring[..pos + 1];
      Rotated(ring, pos, live, a, b);
      FlatConcat(a, b);
      FlatConcat(b, a);
    }
  }

  lemma RingUpdateLast(ring: seq<Chunk>, pos: int, live: seq<Chunk>, c: Chunk)
    requires RingOf(ring, pos, live) && live != []
    ensures RingOf(ring[pos := c], pos, live[|live| - 1 := c])
  {
  }

  /** Appending to a ring that is not full, whose newest chunk is at the end of the array. */
  lemma RingAppend(ring: seq<Chunk>, pos: int, live: seq<Chunk>, c: Chunk)
    requires RingOf(ring, pos, live) && ring != [] && pos == |ring| - 1
    ensures RingOf(ring + [c], pos + 1, live + [c])
  {
  }

  /** Overwriting the oldest chunk with a new one. */
  lemma RingReplaceOldest(ring: seq<Chunk>, pos: int, live: seq<Chunk>, c: Chunk)
    requires RingOf(ring, pos, live) && ring != []
    ensures var pos' := if pos + 1 >= |ring| then 0 else pos + 1;
            RingOf(ring[pos' := c], pos', live[1..] + [c])
  {
  }

  // ---------------------------------------------------------------------------------------------
  // Walking back, to save chunks

  /**
   * Walk back from the current chunk, around the ring, over the chunks that start after the save marker.
   * The walk ends at a saved chunk, or when it has gone all the way around.
   */
  method CollectPending(ring: seq<Chunk>, pos: int, lastSaveStart: int, ghost live: seq<Chunk>)
    returns (pending: seq<Chunk>)
    requires RingOf(ring, pos, live) && ring != [] && InOrder(live) && lastSaveStart < ring[pos].t0
    ensures Reversed(pending) == After(live, lastSaveStart)
  {
    var n := |ring|;
    var chunk := ring[pos];
    RingAt(ring, pos, live, n - 1);
    pending := [chunk];
    var previousPos := pos - 1;
    if previousPos < 0 {
      previousPos := previousPos + n;
    }
    ghost var l := n - 2;
    var previous := ring[previousPos];
    if 0 <= l {
      RingAt(ring, pos, live, l);
    }
    while previous.t0 < chunk.t0 && lastSaveStart < previous.t0
      invariant -1 <= l < n - 1
      invariant 0 <= previousPos < n && previous == ring[previousPos]
      invariant l == -1 ==> previousPos == pos
      invariant l >= 0 ==> previousPos == Pos(pos, n, l) && previous == live[l]
      invariant |pending| == n - 1 - l && forall q :: 0 <= q < |pending| ==> pending[q] == live[n - 1 - q]
      invariant forall q :: l < q < n ==> lastSaveStart < live[q].t0
      decreases l
    {
      pending := pending + [previous];
      previousPos := previousPos - 1;
      if previousPos < 0 {
        previousPos := previousPos + n;
      }
      l := l - 1;
      if 0 <= l {
        RingAt(ring, pos, live, l);
      }
      previous := ring[previousPos];
    }
    PendingIsDue(live, l, lastSaveStart, pending);
  }

  lemma PendingIsDue(live: seq<Chunk>, l: int, mark: int, pending: seq<Chunk>)
    requires InOrder(live) && -1 <= l < |live| && (l >= 0 ==> live[l].t0 <= mark)
    requires forall q :: l < q < |live| ==> mark < live[q].t0
    requires |pending| == |live| - 1 - l && forall q :: 0 <= q < |pending| ==> pending[q] == live[|live| - 1 - q]
    ensures Reversed(pending) == After(live, mark)
  {
    ReversedSuffix(live, l + 1, pending);
    AfterSuffix(live, l + 1, mark);
  }

  /** Pending chunks are handed over last to first, so that older data is queued before newer data. */
  method QueueUp(queue: seq<Chunk>, pending: seq<Chunk>) returns (queue': seq<Chunk>)
    ensures queue' == queue + Reversed(pending)
  {
    queue' := queue;
    var pendingChunk := |pending| - 1;
    while pendingChunk >= 0
      invariant -1 <= pendingChunk < |pending|
      invariant queue' == queue + Reversed(pending)[..|pending| - 1 - pendingChunk]
    {
      queue' := queue' + [pending[pendingChunk]];
      pendingChunk := pendingChunk - 1;
    }
  }

  // ---------------------------------------------------------------------------------------------
  // Searching and walking forward, to read chunks

  /** Search forward from the oldest chunk for one that ends after `from`. */
  method SeekForward(ring: seq<Chunk>, pos: int, from: int, span: int, ghost t: Tank)
    returns (oldestPos: int, ghost i: int)
    requires 0 <= t.evicted < |t.hist| && RingOf(ring, pos, t.Live()) && from < t.Last().t0 + span
    ensures i == FirstEndingAfter(t.hist, span, from, t.evicted)
    ensures oldestPos == Pos(pos, |ring|, i - t.evicted) && 0 <= oldestPos < |ring| && ring[oldestPos] == t.hist[i]
  {
    oldestPos := pos + 1;
    if oldestPos >= |ring| {
      oldestPos := 0;
    }
    i := t.evicted;
    RingAt(ring, pos, t.Live(), 0);
    while from >= ring[oldestPos].t0 + span
      invariant t.evicted <= i < |t.hist| && oldestPos == Pos(pos, |ring|, i - t.evicted)
      invariant 0 <= oldestPos < |ring| && ring[oldestPos] == t.hist[i]
      invariant FirstEndingAfter(t.hist, span, from, t.evicted) == FirstEndingAfter(t.hist, span, from, i)
      decreases |t.hist| - i
    {
      oldestPos := oldestPos + 1;
      if oldestPos >= |ring| {
        oldestPos := 0;
      }
      i := i + 1;
      RingAt(ring, pos, t.Live(), i - t.evicted);
    }
  }

  /** Search backward from the current chunk for one that starts before `to`. */
  method SeekBackward(ring: seq<Chunk>, pos: int, to: int, ghost t: Tank) returns (newestPos: int, ghost j: int)
    requires 0 <= t.evicted < |t.hist| && RingOf(ring, pos, t.Live()) && t.hist[t.evicted].t0 < to
    ensures j == LastStartingBefore(t.hist, to, t.evicted, |t.hist| - 1)
    ensures newestPos == Pos(pos, |ring|, j - t.evicted)
  {
    newestPos := pos;
    j := |t.hist| - 1;
    RingAt(ring, pos, t.Live(), j - t.evicted);
    while to <= ring[newestPos].t0
      invariant t.evicted <= j < |t.hist| && newestPos == Pos(pos, |ring|, j - t.evicted)
      invariant 0 <= newestPos < |ring| && ring[newestPos] == t.hist[j]
      invariant LastStartingBefore(t.hist, to, t.evicted, |t.hist| - 1) == LastStartingBefore(t.hist, to, t.evicted, j)
      decreases j
    {
      newestPos := newestPos - 1;
      if newestPos < 0 {
        newestPos := newestPos + |ring|;
      }
      j := j - 1;
      RingAt(ring, pos, t.Live(), j - t.evicted);
    }
  }

  /** The position after l in order of age, starting over at the oldest. */
  function NextOf(t: Tank, l: int): int {
    if l + 1 < |t.hist| then l + 1 else t.evicted
  }

  /** How many steps forward it takes from l to j. */
  function Distance(t: Tank, l: int, j: int): int {
    if l <= j then j - l else |t.hist| - l + j - t.evicted
  }

  lemma AroundStep(t: Tank, l: int, j: int)
    requires 0 <= t.evicted <= l < |t.hist| && t.evicted <= j < |t.hist|
    ensures l == j ==> Around(t, l, j) == [t.hist[l]]
    ensures l != j ==> Around(t, l, j) == [t.hist[l]] + Around(t, NextOf(t, l), j)
    ensures l != j ==> Distance(t, NextOf(t, l), j) < Distance(t, l, j)
  {
  }

  /** One step forward in the array is one step forward in age; different ages are at different positions. */
  lemma StepPos(pos: int, n: int, l: int, j: int)
    requires 0 <= pos < n && 0 <= l < n && 0 <= j < n
    ensures Pos(pos, n, l) == Pos(pos, n, j) <==> l == j
    ensures Pos(pos, n, if l + 1 < n then l + 1 else 0) ==
            if Pos(pos, n, l) + 1 >= n then 0 else Pos(pos, n, l) + 1
  {
  }

  /** Step around the ring from one position to another. */
  method CollectIters(ring: seq<Chunk>, pos: int, start: int, stop: int, ghost t: Tank, ghost i: int, ghost j: int)
    returns (iters: seq<Chunk>)
    requires 0 <= t.evicted <= i < |t.hist| && t.evicted <= j < |t.hist| && RingOf(ring, pos, t.Live())
    requires start == Pos(pos, |ring|, i - t.evicted) && stop == Pos(pos, |ring|, j - t.evicted)
    ensures iters == Around(t, i, j)
  {
    iters := [];
    var at := start;
    ghost var l := i;
    while true
      invariant t.evicted <= l < |t.hist| && at == Pos(pos, |ring|, l - t.evicted)
      invariant iters + Around(t, l, j) == Around(t, i, j)
      decreases Distance(t, l, j)
    {
      RingAt(ring, pos, t.Live(), l - t.evicted);
      StepPos(pos, |ring|, l - t.evicted, j - t.evicted);
      AroundStep(t, l, j);
      if l != j {
        Assoc(iters, [t.hist[l]], Around(t, NextOf(t, l), j));
      }
      iters := iters + [ring[at]];
      if at == stop {
        break;
      }
      at := at + 1;
      if at >= |ring| {
        at := 0;
      }
      l := NextOf(t, l);
    }
  }

  lemma QueryRead(t: Tank, from: int, to: int, i: int, j: int)
    requires 0 <= t.evicted < |t.hist| && from < t.Last().t0 + t.span && t.hist[t.evicted].t0 < to
    requires i == FirstEndingAfter(t.hist, t.span, from, t.evicted)
    requires j == LastStartingBefore(t.hist, to, t.evicted, |t.hist| - 1)
    ensures Query(t, from, to) == Answer(Around(t, i, j), OldestIn(t, t.hist[i]))
  {
  }

  /** Find where the range begins and where it ends, and collect the chunks from one to the other. */
  method ReadRange(ring: seq<Chunk>, pos: int, from: int, to: int, span: int, ghost t: Tank)
    returns (iters: seq<Chunk>, oldestChunk: Chunk)
    requires 0 <= t.evicted < |t.hist| && RingOf(ring, pos, t.Live()) && t.span == span
    requires from < t.Last().t0 + span && t.hist[t.evicted].t0 < to
    ensures Answer(iters, OldestIn(t, oldestChunk)) == Query(t, from, to)
  {
    var oldestPos, newestPos;
    ghost var i, j;
    oldestPos, i := SeekForward(ring, pos, from, span, t);
    newestPos, j := SeekBackward(ring, pos, to, t);
    QueryRead(t, from, to, i, j);
    iters := CollectIters(ring, pos, oldestPos, newestPos, t, i, j);
    oldestChunk := ring[oldestPos];
  }
}
