/** The reorder buffer of a metric: a sliding window of grid slots, kept in a circular array. */
module ReorderBuffer {
  import opened Arith
  import opened Points
  import opened Quantize
  import opened Seqs

  datatype Outcome =
    | Accepted(purged: seq<Point>)
    | TooOld
    | NewValueForTimestamp

  /** The occupied slots among a, ..., b - 1 as points in time order; slot k stands for timestamp k * interval. */
  function Listing(slots: map<int, Value>, interval: int, a: int, b: int): (r: seq<Point>)
    decreases b - a
  {
    if a >= b then []
    else Listing(slots, interval, a, b - 1) + Cell(slots, interval, b - 1)
  }

  function Cell(slots: map<int, Value>, interval: int, k: int): seq<Point> {
    if k in slots then [Point(k * interval, slots[k])] else []
  }

  /** The occupied slots after slot k. */
  function Later(slots: map<int, Value>, k: int): map<int, Value> {
    map j | j in slots && j > k :: slots[j]
  }

  /** The window as a set of slots. `newest` is the slot of the newest buffered point, and 0 if there is none. */
  datatype Window = Window(size: int, interval: int, allowUpdate: bool, newest: int, slots: map<int, Value>) {

    ghost predicate Valid() {
      && 0 < size && 0 < interval && size * interval <= MAX_INT32
      && 0 <= newest && newest * interval < U32
      && (newest == 0 ==> slots == map[])
      && (newest != 0 ==> newest in slots)
      && forall k :: k in slots ==> 0 < k && newest - size < k <= newest
    }

    /** The comparison is in 32-bit arithmetic, so the bound wraps around when the window reaches before 0. */
    predicate RejectsAsTooOld(k: int) {
      newest != 0 && k * interval <= Wrap32(newest * interval - size * interval)
    }

    function Contents(): seq<Point> {
      Listing(slots, interval, newest - size + 1, newest + 1)
    }

    function Reset(): Window {
      this.(newest := 0, slots := map[])
    }

    /** The points that fall out of the window when slot k becomes the newest. */
    function Overtaken(k: int): seq<Point> {
      Listing(slots, interval, newest - size + 1, k - size + 1)
    }

    function Slid(k: int, val: Value): Window {
      this.(newest := k, slots := Later(slots, k - size)[k := val])
    }

    /** Accept, replace or refuse a point that belongs in slot k, and push out what the window slides past. */
    function Add(k: int, val: Value): (Window, Outcome) {
      if RejectsAsTooOld(k) then (this, TooOld)
      else if k in slots then
        if allowUpdate then (this.(slots := slots[k := val]), Accepted([])) else (this, NewValueForTimestamp)
      else if k > newest then (Slid(k, val), Accepted(Overtaken(k)))
      else (this.(slots := slots[k := val]), Accepted([]))
    }
  }

  /** The slot a timestamp rounds up to. */
  function SlotOf(ts: int, interval: int): (k: int)
    requires 1 <= ts && 0 < interval && ts + interval <= U32
    ensures 0 < k && k * interval == AggBoundary(ts, interval)
    ensures (k - 1) * interval < ts <= k * interval
  {
    var b := AggBoundary(ts, interval);
    Multiple(b, interval);
    assert (b / interval - 1) * interval == b - interval;
    b / interval
  }

  // ---------------------------------------------------------------------------------------------
  // Listings

  lemma ScaleSub(a: int, b: int, n: int)
    ensures (a - b) * n == a * n - b * n
  {
  }

  lemma ScaleOrder(a: int, b: int, n: int)
    requires 0 < n
    ensures a < b <==> a * n < b * n
  {
    if a < b {
      ProductMonotone(a, b, n);
    } else {
      ProductMonotone(b, a, n);
    }
  }

  lemma {:induction false} ListingAscending(slots: map<int, Value>, interval: int, a: int, b: int)
    requires 0 < interval
    ensures Ascending(Listing(slots, interval, a, b))
    ensures forall p :: p in Listing(slots, interval, a, b) ==> a * interval <= p.ts < b * interval
    decreases b - a
  {
    if a < b {
      ListingAscending(slots, interval, a, b - 1);
      ProductMonotone(b - 1, b, interval);
      ProductMonotone(a, b - 1, interval);
    }
  }

  lemma {:induction false} ListingSplit(slots: map<int, Value>, interval: int, a: int, m: int, b: int)
    requires a <= m <= b
    ensures Listing(slots, interval, a, b) == Listing(slots, interval, a, m) + Listing(slots, interval, m, b)
    decreases b - m
  {
    if m < b {
      ListingSplit(slots, interval, a, m, b - 1);
    }
  }

  lemma ListingInsert(slots: map<int, Value>, interval: int, a: int, b: int, k: int)
    requires a <= k < b
    ensures Listing(slots, interval, a, b) ==
            Listing(slots, interval, a, k) + Cell(slots, interval, k) + Listing(slots, interval, k + 1, b)
  {
    ListingSplit(slots, interval, a, k + 1, b);
  }

  lemma {:induction false} ListingAgrees(slots: map<int, Value>, slots': map<int, Value>, interval: int, a: int, b: int)
    requires forall k :: a <= k < b ==> (k in slots <==> k in slots') && (k in slots ==> slots[k] == slots'[k])
    ensures Listing(slots, interval, a, b) == Listing(slots', interval, a, b)
    decreases b - a
  {
    if a < b {
      ListingAgrees(slots, slots', interval, a, b - 1);
    }
  }

  lemma ListingWrite(slots: map<int, Value>, interval: int, a: int, b: int, k: int, val: Value)
    requires a <= k < b
    ensures Listing(slots, interval, a, b) ==
            Listing(slots, interval, a, k) + Cell(slots, interval, k) + Listing(slots, interval, k + 1, b)
    ensures Listing(slots[k := val], interval, a, b) ==
            Listing(slots, interval, a, k) + [Point(k * interval, val)] + Listing(slots, interval, k + 1, b)
  {
    ListingInsert(slots, interval, a, b, k);
    ListingInsert(slots[k := val], interval, a, b, k);
    ListingAgrees(slots, slots[k := val], interval, a, k);
    ListingAgrees(slots, slots[k := val], interval, k + 1, b);
  }

  lemma {:induction false} ListingEmpty(slots: map<int, Value>, interval: int, a: int, b: int)
    requires forall k :: a <= k < b ==> k !in slots
    ensures Listing(slots, interval, a, b) == []
    decreases b - a
  {
    if a < b {
      ListingEmpty(slots, interval, a, b - 1);
    }
  }

  lemma {:induction false} ListingFinds(slots: map<int, Value>, interval: int, a: int, b: int, k: int)
    requires a <= k < b && k in slots
    ensures Point(k * interval, slots[k]) in Listing(slots, interval, a, b)
    decreases b - a
  {
    if k < b - 1 {
      ListingFinds(slots, interval, a, b - 1, k);
    }
  }

  // ---------------------------------------------------------------------------------------------
  // One Add

  /** A slot that is not refused as too old lies inside the window or ahead of it. */
  lemma NotTooOld(w: Window, k: int)
    requires w.Valid() && 0 < k
    requires !w.RejectsAsTooOld(k)
    ensures w.newest - w.size < k
  {
    ScaleSub(w.newest, w.size, w.interval);
    ScaleOrder(w.newest - w.size, k, w.interval);
    ScaleOrder(0, k, w.interval);
    ScaleOrder(0, w.size, w.interval);
  }

  lemma SlidValid(w: Window, k: int, val: Value)
    requires w.Valid() && w.newest < k && k * w.interval < U32
    ensures w.Slid(k, val).Valid()
  {
  }

  lemma NothingLater(w: Window, k: int)
    requires w.Valid() && w.newest < k
    ensures Listing(w.slots, w.interval, w.newest - w.size + 1, k) == w.Contents()
  {
    ListingSplit(w.slots, w.interval, w.newest - w.size + 1, w.newest + 1, k);
    ListingEmpty(w.slots, w.interval, w.newest + 1, k);
  }

  lemma SlidContents(w: Window, k: int, val: Value, m: int)
    requires w.Valid() && w.newest < k && m == k - w.size + 1
    ensures w.Slid(k, val).Contents() == Listing(w.slots, w.interval, m, k) + [Point(k * w.interval, val)]
  {
    ListingAgrees(w.slots, w.Slid(k, val).slots, w.interval, m, k);
  }

  /** What is overtaken and what is in the window then are the old contents and the new point. */
  lemma SlidListing(w: Window, k: int, val: Value)
    requires w.Valid() && w.newest < k
    ensures w.Overtaken(k) + w.Slid(k, val).Contents() == w.Contents() + [Point(k * w.interval, val)]
  {
    var m := k - w.size + 1;
    NothingLater(w, k);
    SlidContents(w, k, val, m);
    ListingSplit(w.slots, w.interval, w.newest - w.size + 1, m, k);
    Assoc(w.Overtaken(k), Listing(w.slots, w.interval, m, k), [Point(k * w.interval, val)]);
  }

  /** Sliding forward appends the point; what is pushed out is the front of the old contents. */
  lemma SlideEffect(w: Window, k: int, val: Value)
    requires w.Valid() && w.newest < k && k * w.interval < U32
    requires !w.RejectsAsTooOld(k)
    ensures var (w', o) := w.Add(k, val);
            && w'.Valid() && o.Accepted?
            && o.purged + w'.Contents() == w.Contents() + [Point(k * w.interval, val)]
  {
    SlidValid(w, k, val);
    SlidListing(w, k, val);
  }

  lemma PlaceValid(w: Window, k: int, val: Value)
    requires w.Valid() && w.newest - w.size < k <= w.newest && 0 < k
    ensures w.(slots := w.slots[k := val]).Valid()
  {
  }

  /** Writing inside the window replaces or inserts one point at its place in time order. */
  lemma PlaceEffect(w: Window, k: int, val: Value)
    requires w.Valid() && w.newest - w.size < k <= w.newest && 0 < k
    ensures var w' := w.(slots := w.slots[k := val]);
            var front := Listing(w.slots, w.interval, w.newest - w.size + 1, k);
            var back := Listing(w.slots, w.interval, k + 1, w.newest + 1);
            && w'.Valid()
            && w.Contents() == front + Cell(w.slots, w.interval, k) + back
            && w'.Contents() == front + [Point(k * w.interval, val)] + back
  {
    PlaceValid(w, k, val);
    var w' := w.(slots := w.slots[k := val]);
    var a, b := w.newest - w.size + 1, w.newest + 1;
    ListingWrite(w.slots, w.interval, a, b, k, val);
    assert w.Contents() == Listing(w.slots, w.interval, a, b);
    assert w'.Contents() == Listing(w.slots[k := val], w.interval, a, b);
  }

  /**
   * In 32-bit arithmetic the age test is the intended one exactly when the window does not reach before
   * timestamp 0. Otherwise the bound wraps around and every point is refused.
   */
  lemma AgeTestExact(w: Window, k: int)
    requires w.Valid() && w.newest != 0 && 0 < k && k * w.interval <= MAX_INT32
    ensures (w.RejectsAsTooOld(k) <==> k <= w.newest - w.size) <==> w.size <= w.newest
    ensures w.newest < w.size ==> w.RejectsAsTooOld(k)
  {
    ScaleSub(w.newest, w.size, w.interval);
    ScaleOrder(w.newest - w.size, k, w.interval);
    ScaleOrder(w.newest, w.size, w.interval);
    ScaleOrder(0, w.newest, w.interval);
    WrappedBound(w.newest * w.interval, w.size * w.interval, k * w.interval);
  }

  lemma WrappedBound(newest: int, size: int, ts: int)
    requires 0 < newest < U32 && 0 <= size <= MAX_INT32 && 0 <= ts <= MAX_INT32
    ensures size <= newest ==> Wrap32(newest - size) == newest - size
    ensures newest < size ==> ts <= Wrap32(newest - size)
  {
  }

  /**
   * The slot is not too old: nothing is buffered, or the window reaches no further back than the slot. Where the
   * window reaches before timestamp 0 its bound is 2^32 seconds later, beyond every timestamp that is taken in.
   */
  ghost predicate InReach(w: Window, k: int) {
    || w.newest == 0
    || (w.size <= w.newest && w.newest - w.size < k)
    || (w.newest < w.size && U32 + w.newest * w.interval - w.size * w.interval < k * w.interval)
  }

  lemma InReachExact(w: Window, k: int)
    requires w.Valid() && 0 < k
    ensures InReach(w, k) <==> !w.RejectsAsTooOld(k)
    ensures k * w.interval <= MAX_INT32 ==>
              (InReach(w, k) <==> w.newest == 0 || (w.size <= w.newest && w.newest - w.size < k))
  {
    ScaleSub(w.newest, w.size, w.interval);
    ScaleOrder(w.newest - w.size, k, w.interval);
    ScaleOrder(w.newest, w.size, w.interval);
    ScaleOrder(0, w.newest, w.interval);
    BoundExact(w.newest * w.interval, w.size * w.interval);
  }

  lemma BoundExact(newest: int, size: int)
    requires 0 <= newest < U32 && 0 <= size <= MAX_INT32
    ensures size <= newest ==> Wrap32(newest - size) == newest - size
    ensures newest < size ==> Wrap32(newest - size) == U32 + newest - size
  {
  }

  /** From w to w', slot k was written and the window moved on to it if it is newer; nothing else changed. */
  ghost predicate Wrote(w: Window, k: int, val: Value, w': Window) {
    && w'.size == w.size && w'.interval == w.interval && w'.allowUpdate == w.allowUpdate
    && w'.newest == (if w.newest < k then k else w.newest)
    && (forall j :: j in w'.slots <==> j == k || (j in w.slots && w'.newest - w.size < j))
    && (forall j :: j in w'.slots ==> w'.slots[j] == if j == k then val else w.slots[j])
  }

  /**
   * Main result for one Add: a point is taken in exactly if its slot is in reach and is free or may be overwritten,
   * and the reason for a refusal is its age exactly if the slot is out of reach. What is taken in is in its slot, all
   * other slots that are still in the window are as they were, and a refusal changes nothing.
   */
  lemma AddExactly(w: Window, k: int, val: Value)
    requires w.Valid() && 0 < k
    ensures var (w', o) := w.Add(k, val);
            && (o.Accepted? <==> InReach(w, k) && (k !in w.slots || w.allowUpdate))
            && (o.TooOld? <==> !InReach(w, k))
            && (o.Accepted? ==> Wrote(w, k, val, w'))
            && (!o.Accepted? ==> w' == w)
  {
    InReachExact(w, k);
    if !w.RejectsAsTooOld(k) {
      NotTooOld(w, k);
    }
  }

  /** A window of five 10-second slots takes a point at 1000, and then one at 990, which it puts before it. */
  lemma LateTaken(val: Value)
    ensures var w := Empty(5, 10, false).Add(100, val).0;
            && w.Add(99, val).1 == Accepted([])
            && w.Add(99, val).0.Contents() == [Point(990, val), Point(1000, val)]
  {
    var w := Window(5, 10, false, 100, map[100 := val]);
    assert Empty(5, 10, false).Slid(100, val) == w;
    AddExactly(w, 99, val);
    ListingSplit(w.slots[99 := val], 10, 96, 99, 101);
    ListingEmpty(w.slots[99 := val], 10, 96, 99);
  }

  /** A window of five 10-second slots takes a point at 20, and then refuses one at 30 as too old. */
  lemma NewerTooOld(val: Value)
    ensures var w := Empty(5, 10, false).Add(2, val).0;
            w.Valid() && w.newest == 2 && w.Add(3, val) == (w, TooOld)
  {
    var w := Empty(5, 10, false).Add(2, val).0;
    SlideEffect(Empty(5, 10, false), 2, val);
    AgeTestExact(w, 3);
  }

  // ---------------------------------------------------------------------------------------------
  // Whole runs

  /** What the window has been through: every point it pushed out, and the last value accepted for each slot. */
  datatype History = History(window: Window, purged: seq<Point>, accepted: map<int, Value>) {

    ghost predicate Valid() {
      && window.Valid()
      && (forall k :: k in accepted ==> 0 < k <= window.newest)
      && (forall k :: window.newest - window.size < k ==>
            (k in accepted <==> k in window.slots) && (k in window.slots ==> window.slots[k] == accepted[k]))
      && purged == Listing(accepted, window.interval, 1, window.newest - window.size + 1)
    }

    function Step(p: Point): History
      requires 0 < window.interval && 1 <= p.ts && p.ts + window.interval <= U32
    {
      var k := SlotOf(p.ts, window.interval);
      var (w, o) := window.Add(k, p.val);
      if o.Accepted? then History(w, purged + o.purged, accepted[k := p.val]) else this.(window := w)
    }
  }

  ghost predicate Addable(adds: seq<Point>, interval: int) {
    0 < interval && forall p :: p in adds ==> 1 <= p.ts && p.ts + interval <= U32
  }

  ghost function Run(start: Window, adds: seq<Point>): (h: History)
    requires Addable(adds, start.interval)
    ensures h.window.interval == start.interval
    decreases |adds|
  {
    if adds == [] then History(start, [], map[])
    else
      assert adds[|adds| - 1] in adds;
      Run(start, adds[..|adds| - 1]).Step(adds[|adds| - 1])
  }

  function Empty(size: int, interval: int, allowUpdate: bool): Window {
    Window(size, interval, allowUpdate, 0, map[])
  }

  lemma ResetContents(w: Window)
    ensures w.Reset().Contents() == [] && w.Reset() == Empty(w.size, w.interval, w.allowUpdate)
  {
    ListingEmpty(map[], w.interval, 1 - w.size, 1);
  }

  lemma SlideHistory(h: History, k: int, val: Value)
    requires h.Valid() && h.window.newest < k && h.window.Slid(k, val).Valid()
    ensures History(h.window.Slid(k, val), h.purged + h.window.Overtaken(k), h.accepted[k := val]).Valid()
  {
    OvertakenNext(h, k, val);
  }

  lemma TakeKeepsValid(h: History, k: int, val: Value)
    requires h.Valid() && 0 < k && k * h.window.interval < U32 && h.window.Add(k, val).1.Accepted?
    ensures var (w, o) := h.window.Add(k, val); History(w, h.purged + o.purged, h.accepted[k := val]).Valid()
  {
    NotTooOld(h.window, k);
    if h.window.newest < k {
      SlideEffect(h.window, k, val);
      SlideHistory(h, k, val);
    } else {
      PlaceEffect(h.window, k, val);
      PlaceHistory(h, k, val);
      assert h.purged + [] == h.purged;
    }
  }

  lemma StepKeepsValid(h: History, p: Point)
    requires h.Valid() && 1 <= p.ts && p.ts + h.window.interval <= U32
    ensures h.Step(p).Valid()
  {
    var k := SlotOf(p.ts, h.window.interval);
    if h.window.Add(k, p.val).1.Accepted? {
      TakeKeepsValid(h, k, p.val);
    }
  }

  lemma PlaceHistory(h: History, k: int, val: Value)
    requires h.Valid() && h.window.newest - h.window.size < k <= h.window.newest && 0 < k
    requires h.window.(slots := h.window.slots[k := val]).Valid()
    ensures h.(window := h.window.(slots := h.window.slots[k := val]), accepted := h.accepted[k := val]).Valid()
  {
    ListingAgrees(h.accepted, h.accepted[k := val], h.window.interval, 1, h.window.newest - h.window.size + 1);
  }

  /** Slots that were pushed out earlier, followed by those from a up to m, are the accepted slots up to m. */
  lemma PurgedNext(slots: map<int, Value>, accepted: map<int, Value>, interval: int, a: int, m: int)
    requires a <= m && (forall k :: k in slots ==> 0 < k) && (forall k :: k in accepted ==> 0 < k)
    requires forall k :: a <= k ==> (k in accepted <==> k in slots) && (k in slots ==> slots[k] == accepted[k])
    ensures Listing(accepted, interval, 1, a) + Listing(slots, interval, a, m) == Listing(accepted, interval, 1, m)
  {
    ListingAgrees(slots, accepted, interval, a, m);
    if 1 <= a {
      ListingSplit(accepted, interval, 1, a, m);
    } else {
      ListingEmpty(accepted, interval, a, if m < 1 then m else 1);
      if 1 <= m {
        ListingSplit(accepted, interval, a, 1, m);
      }
    }
  }

  lemma OvertakenNext(h: History, k: int, val: Value)
    requires h.Valid() && h.window.newest < k
    ensures h.purged + h.window.Overtaken(k) ==
            Listing(h.accepted[k := val], h.window.interval, 1, k - h.window.size + 1)
  {
    var w := h.window;
    PurgedNext(w.slots, h.accepted, w.interval, w.newest - w.size + 1, k - w.size + 1);
    ListingAgrees(h.accepted, h.accepted[k := val], w.interval, 1, k - w.size + 1);
  }

  lemma {:induction false} RunValid(start: Window, adds: seq<Point>)
    requires start.Valid() && start.newest == 0 && Addable(adds, start.interval)
    ensures Run(start, adds).Valid()
    decreases |adds|
  {
    if adds == [] {
      ListingEmpty(map[], start.interval, 1, start.newest - start.size + 1);
    } else {
      assert adds[|adds| - 1] in adds;
      RunValid(start, adds[..|adds| - 1]);
      StepKeepsValid(Run(start, adds[..|adds| - 1]), adds[|adds| - 1]);
    }
  }

  lemma ValidSorts(h: History)
    requires h.Valid()
    ensures h.purged + h.window.Contents() == Listing(h.accepted, h.window.interval, 1, h.window.newest + 1)
  {
    var w := h.window;
    var a, b := w.newest - w.size + 1, w.newest + 1;
    if 1 <= a {
      ListingSplit(h.accepted, w.interval, 1, a, b);
      ListingAgrees(w.slots, h.accepted, w.interval, a, b);
    } else {
      ListingSplit(w.slots, w.interval, a, 1, b);
      ListingEmpty(w.slots, w.interval, a, 1);
      ListingAgrees(w.slots, h.accepted, w.interval, 1, b);
    }
  }

  /** The window that the i-th point meets. */
  ghost function Met(start: Window, adds: seq<Point>, i: int): (w: Window)
    requires Addable(adds, start.interval) && 0 <= i <= |adds|
    ensures w.interval == start.interval
  {
    Run(start, adds[..i]).window
  }

  ghost function SlotAt(start: Window, adds: seq<Point>, i: int): int
    requires Addable(adds, start.interval) && 0 <= i < |adds|
  {
    assert adds[i] in adds;
    SlotOf(adds[i].ts, start.interval)
  }

  /** The i-th point was in reach, and its slot was free or could be overwritten. */
  ghost predicate TakenAt(start: Window, adds: seq<Point>, i: int)
    requires Addable(adds, start.interval) && 0 <= i < |adds|
  {
    var w, k := Met(start, adds, i), SlotAt(start, adds, i);
    InReach(w, k) && (k !in w.slots || w.allowUpdate)
  }

  lemma RunPrefix(start: Window, adds: seq<Point>, i: int)
    requires Addable(adds, start.interval) && 0 <= i < |adds|
    ensures adds[i] in adds && Run(start, adds[..i + 1]) == Run(start, adds[..i]).Step(adds[i])
  {
    assert adds[..i + 1][..i] == adds[..i];
  }

  lemma StepTakes(h: History, p: Point)
    requires h.Valid() && 1 <= p.ts && p.ts + h.window.interval <= U32
    ensures var k, w := SlotOf(p.ts, h.window.interval), h.window;
            && (InReach(w, k) && (k !in w.slots || w.allowUpdate) ==> h.Step(p).accepted == h.accepted[k := p.val])
            && (!(InReach(w, k) && (k !in w.slots || w.allowUpdate)) ==> h.Step(p).accepted == h.accepted)
            && (InReach(w, k) ==> k in h.Step(p).accepted)
  {
    var k := SlotOf(p.ts, h.window.interval);
    AddExactly(h.window, k, p.val);
    InReachExact(h.window, k);
    if InReach(h.window, k) {
      NotTooOld(h.window, k);
    }
  }

  /** The history after the first n points. */
  ghost function After(start: Window, adds: seq<Point>, n: int): (h: History)
    requires Addable(adds, start.interval) && 0 <= n <= |adds|
    ensures h.window.interval == start.interval
  {
    Run(start, adds[..n])
  }

  lemma AfterStep(start: Window, adds: seq<Point>, n: int)
    requires Addable(adds, start.interval) && 0 <= n < |adds| && After(start, adds, n).Valid()
    ensures var k, h, h' := SlotAt(start, adds, n), After(start, adds, n), After(start, adds, n + 1);
            && (TakenAt(start, adds, n) ==> h'.accepted == h.accepted[k := adds[n].val])
            && (!TakenAt(start, adds, n) ==> h'.accepted == h.accepted)
            && (InReach(Met(start, adds, n), k) ==> k in h'.accepted)
  {
    RunPrefix(start, adds, n);
    StepTakes(After(start, adds, n), adds[n]);
  }

  lemma AfterValid(start: Window, adds: seq<Point>, n: int)
    requires start.Valid() && start.newest == 0
    requires Addable(adds, start.interval) && 0 <= n <= |adds|
    ensures After(start, adds, n).Valid()
  {
    RunValid(start, adds[..n]);
  }

  /** A point that was in reach when it came has its slot among the accepted ones from then on. */
  lemma {:induction false} ReachedStays(start: Window, adds: seq<Point>, i: int, n: int)
    requires start.Valid() && start.newest == 0
    requires Addable(adds, start.interval) && 0 <= i < n <= |adds|
    requires InReach(Met(start, adds, i), SlotAt(start, adds, i))
    ensures SlotAt(start, adds, i) in After(start, adds, n).accepted
    decreases n
  {
    AfterValid(start, adds, n - 1);
    AfterStep(start, adds, n - 1);
    if i < n - 1 {
      ReachedStays(start, adds, i, n - 1);
      AcceptedGrows(start, adds, n - 1, SlotAt(start, adds, i));
    }
  }

  lemma AcceptedGrows(start: Window, adds: seq<Point>, n: int, k: int)
    requires Addable(adds, start.interval) && 0 <= n < |adds| && After(start, adds, n).Valid()
    requires k in After(start, adds, n).accepted
    ensures k in After(start, adds, n + 1).accepted
  {
    AfterStep(start, adds, n);
  }

  lemma NoneAfter(start: Window, adds: seq<Point>)
    requires Addable(adds, start.interval)
    ensures After(start, adds, 0).accepted == map[]
  {
    assert adds[..0] == [];
  }

  /** No point after the i-th and before the n-th was taken for slot k. */
  ghost predicate NoneSince(start: Window, adds: seq<Point>, i: int, n: int, k: int)
    requires Addable(adds, start.interval) && 0 <= i && n <= |adds|
  {
    forall j :: i < j < n && SlotAt(start, adds, j) == k ==> !TakenAt(start, adds, j)
  }

  /** No other slots are accepted, and the last point taken for a slot decides its value. */
  lemma {:induction false} AcceptedTaken(start: Window, adds: seq<Point>, n: int, k: int) returns (i: int)
    requires start.Valid() && start.newest == 0
    requires Addable(adds, start.interval) && 0 <= n <= |adds| && k in After(start, adds, n).accepted
    ensures 0 <= i < n && SlotAt(start, adds, i) == k && TakenAt(start, adds, i)
    ensures After(start, adds, n).accepted[k] == adds[i].val && NoneSince(start, adds, i, n, k)
    decreases n
  {
    NoneAfter(start, adds);
    AfterValid(start, adds, n - 1);
    AfterStep(start, adds, n - 1);
    if TakenAt(start, adds, n - 1) && SlotAt(start, adds, n - 1) == k {
      i := n - 1;
    } else {
      i := AcceptedTaken(start, adds, n - 1, k);
      MoreSince(start, adds, i, n, k);
    }
  }

  lemma MoreSince(start: Window, adds: seq<Point>, i: int, n: int, k: int)
    requires Addable(adds, start.interval) && 0 <= i < n - 1 && n <= |adds| && NoneSince(start, adds, i, n - 1, k)
    requires !(TakenAt(start, adds, n - 1) && SlotAt(start, adds, n - 1) == k)
    ensures NoneSince(start, adds, i, n, k)
  {
  }

  /** The slots with a point that was in reach when it came, each with the value of the last point taken for it. */
  ghost predicate AcceptsReached(start: Window, adds: seq<Point>, accepted: map<int, Value>)
    requires Addable(adds, start.interval)
  {
    && (forall i :: 0 <= i < |adds| && InReach(Met(start, adds, i), SlotAt(start, adds, i)) ==>
          SlotAt(start, adds, i) in accepted)
    && (forall k :: k in accepted ==> LastTaken(start, adds, k, accepted[k]))
  }

  /** The last point that was taken for slot k has this value. */
  ghost predicate LastTaken(start: Window, adds: seq<Point>, k: int, val: Value)
    requires Addable(adds, start.interval)
  {
    exists i :: 0 <= i < |adds| && SlotAt(start, adds, i) == k && TakenAt(start, adds, i) && val == adds[i].val
                && NoneSince(start, adds, i, |adds|, k)
  }

  lemma RunAccepts(start: Window, adds: seq<Point>)
    requires start.Valid() && start.newest == 0
    requires Addable(adds, start.interval)
    ensures AcceptsReached(start, adds, Run(start, adds).accepted)
  {
    assert adds[..|adds|] == adds;
    forall i | 0 <= i < |adds| && InReach(Met(start, adds, i), SlotAt(start, adds, i))
      ensures SlotAt(start, adds, i) in Run(start, adds).accepted
    {
      ReachedStays(start, adds, i, |adds|);
    }
    forall k | k in Run(start, adds).accepted
      ensures LastTaken(start, adds, k, Run(start, adds).accepted[k])
    {
      var i := AcceptedTaken(start, adds, |adds|, k);
    }
  }

  /**
   * Main result. After any run of Adds, everything pushed out so far followed by what is still buffered is the
   * list of all accepted points in strict time order. Accepted are the slots with a point that was in reach when it
   * came, each once with the value of the last point taken for it.
   */
  lemma RunSorts(start: Window, adds: seq<Point>)
    requires start.Valid() && start.newest == 0 && Addable(adds, start.interval)
    ensures var h := Run(start, adds);
            && h.window.Valid()
            && h.purged + h.window.Contents() == Listing(h.accepted, h.window.interval, 1, h.window.newest + 1)
            && Ascending(h.purged + h.window.Contents())
            && (forall k :: k in h.accepted ==>
                  Point(k * h.window.interval, h.accepted[k]) in h.purged + h.window.Contents())
    ensures AcceptsReached(start, adds, Run(start, adds).accepted)
  {
    RunValid(start, adds);
    ListsAll(Run(start, adds));
    RunAccepts(start, adds);
  }

  lemma ListsAll(h: History)
    requires h.Valid()
    ensures var all := h.purged + h.window.Contents();
            && all == Listing(h.accepted, h.window.interval, 1, h.window.newest + 1)
            && Ascending(all)
            && (forall k :: k in h.accepted ==> Point(k * h.window.interval, h.accepted[k]) in all)
  {
    ValidSorts(h);
    ListingAscending(h.accepted, h.window.interval, 1, h.window.newest + 1);
    forall k | k in h.accepted
      ensures Point(k * h.window.interval, h.accepted[k]) in h.purged + h.window.Contents()
    {
      ListingFinds(h.accepted, h.window.interval, 1, h.window.newest + 1, k);
    }
  }

  // ---------------------------------------------------------------------------------------------
  // The circular array

  /**
   * Array cell i holds the point of the one window slot k with k % size == i, or a point with ts 0 for "none".
   */
  ghost predicate Mirrors(cells: seq<Point>, interval: int, slots: map<int, Value>)
    requires 0 < interval && 0 < |cells|
  {
    && (forall i :: 0 <= i < |cells| && cells[i].ts != 0 ==> HeldAt(cells[i], i, |cells|, interval, slots))
    && (forall k :: k in slots ==> cells[k % |cells|].ts == k * interval)
  }

  ghost predicate HeldAt(p: Point, i: int, size: int, interval: int, slots: map<int, Value>)
    requires 0 < interval && 0 < size
  {
    var k := p.ts / interval;
    k in slots && k % size == i && p == Point(k * interval, slots[k])
  }

  /** The cell where slot k belongs is occupied exactly if slot k is. */
  lemma CellOfSlot(cells: seq<Point>, interval: int, slots: map<int, Value>, k: int, lo: int)
    requires 0 < interval && 0 < |cells| && Mirrors(cells, interval, slots)
    requires lo < k <= lo + |cells| && forall j :: j in slots ==> 0 < j && lo < j <= lo + |cells|
    ensures cells[k % |cells|].ts != 0 <==> k in slots
    ensures k in slots ==> cells[k % |cells|] == Point(k * interval, slots[k])
  {
    var c := cells[k % |cells|];
    if c.ts != 0 {
      assert HeldAt(c, k % |cells|, |cells|, interval, slots);
      CongruentClose(c.ts / interval, k, |cells|);
    }
    if k in slots {
      ProductMonotone(1, k, interval);
    }
  }

  /** Emptying the cell of slot k takes slot k out of the window. */
  lemma ClearCell(cells: seq<Point>, interval: int, slots: map<int, Value>, k: int, lo: int, none: Point)
    requires 0 < interval && 0 < |cells| && Mirrors(cells, interval, slots)
    requires lo < k <= lo + |cells| && forall j :: j in slots ==> 0 < j && lo < j <= lo + |cells|
    requires none.ts == 0
    ensures Mirrors(cells[k % |cells| := none], interval, slots - {k})
  {
    var cells' := cells[k % |cells| := none];
    forall i | 0 <= i < |cells'| && cells'[i].ts != 0
      ensures HeldAt(cells'[i], i, |cells'|, interval, slots - {k})
    {
      assert HeldAt(cells[i], i, |cells|, interval, slots);
    }
    forall j | j in slots - {k}
      ensures cells'[j % |cells'|].ts == j * interval
    {
      if j % |cells| == k % |cells| {
        CongruentClose(j, k, |cells|);
      }
    }
  }

  /** Writing slot k's cell puts slot k in the window. */
  lemma WriteCell(cells: seq<Point>, interval: int, slots: map<int, Value>, k: int, lo: int, val: Value)
    requires 0 < interval && 0 < |cells| && Mirrors(cells, interval, slots)
    requires lo < k <= lo + |cells| && forall j :: j in slots ==> 0 < j && lo < j <= lo + |cells|
    ensures Mirrors(cells[k % |cells| := Point(k * interval, val)], interval, slots[k := val])
  {
    var cells', slots' := cells[k % |cells| := Point(k * interval, val)], slots[k := val];
    forall i | 0 <= i < |cells'| && cells'[i].ts != 0
      ensures HeldAt(cells'[i], i, |cells'|, interval, slots')
    {
      if i == k % |cells| {
        MultipleOf(k, interval);
      } else {
        assert HeldAt(cells[i], i, |cells|, interval, slots);
      }
    }
    forall j | j in slots'
      ensures cells'[j % |cells'|].ts == j * interval
    {
      if j != k && j % |cells| == k % |cells| {
        CongruentClose(j, k, |cells|);
      }
    }
  }

  /** The cell after that of the newest slot is that of the oldest. */
  lemma OldestCell(w: Window, pos: int)
    requires w.Valid() && pos == w.newest % w.size
    ensures (pos + 1) % w.size == (w.newest - w.size + 1) % w.size
  {
    NextCell(w.newest, w.size);
    NextCell(w.newest - w.size + 1, w.size);
  }

  lemma NoneBefore(w: Window)
    requires w.Valid()
    ensures Later(w.slots, w.newest - w.size) == w.slots
  {
  }

  lemma NextCell(k: int, size: int)
    requires 0 < size
    ensures (k % size + 1) % size == (k + 1) % size
    ensures (k + size) % size == k % size
  {
    ModShift(k % size + 1, size, k / size);
    ModShift(k, size, 1);
  }

  lemma SlotsApart(ts: int, newest: int, interval: int)
    requires 0 < interval && ts % interval == 0 && newest * interval < ts
    ensures (ts - newest * interval) / interval == ts / interval - newest
    ensures newest < ts / interval
  {
    Multiple(ts, interval);
    ScaleOrder(newest, ts / interval, interval);
    ModShift(ts, interval, -newest);
    assert ts + -newest * interval == ts - newest * interval;
  }

  ghost predicate Stores(cells: seq<Point>, newest: int, w: Window) {
    && w.Valid() && |cells| == w.size
    && newest == w.newest % w.size
    && cells[newest].ts == w.newest * w.interval
    && Mirrors(cells, w.interval, w.slots)
  }

  /** The tests the buffer makes on its cells are the tests on the window. */
  lemma AddTests(cells: seq<Point>, newest: int, w: Window, k: int)
    requires Stores(cells, newest, w) && 0 < k
    ensures cells[newest].ts != 0 <==> w.newest != 0
    ensures k * w.interval > cells[newest].ts <==> k > w.newest
    ensures !w.RejectsAsTooOld(k) ==>
              w.newest - w.size < k && (k * w.interval == cells[k % w.size].ts <==> k in w.slots)
  {
    ScaleOrder(0, w.newest, w.interval);
    ScaleOrder(w.newest, k, w.interval);
    ScaleOrder(0, k, w.interval);
    if !w.RejectsAsTooOld(k) {
      NotTooOld(w, k);
      if k <= w.newest {
        CellOfSlot(cells, w.interval, w.slots, k, w.newest - w.size);
      } else {
        AheadOfCells(cells, w, k);
      }
    }
  }

  lemma AheadOfCells(cells: seq<Point>, w: Window, k: int)
    requires w.Valid() && |cells| == w.size && Mirrors(cells, w.interval, w.slots) && w.newest < k
    ensures k * w.interval != cells[k % w.size].ts
  {
    var c := cells[k % w.size];
    ScaleOrder(0, k, w.interval);
    if c.ts != 0 {
      assert HeldAt(c, k % w.size, w.size, w.interval, w.slots);
      ScaleOrder(c.ts / w.interval, k, w.interval);
    }
  }

  /** Emptying the cell of the oldest slot still in the array, if it is occupied. */
  lemma PurgeStep(cells: seq<Point>, w: Window, s: int)
    requires w.Valid() && |cells| == w.size && w.newest - w.size < s <= w.newest
    requires Mirrors(cells, w.interval, Later(w.slots, s - 1))
    ensures var c := cells[s % w.size];
            var a := w.newest - w.size + 1;
            && Mirrors(if c.ts != 0 then cells[s % w.size := Point(0, c.val)] else cells, w.interval, Later(w.slots, s))
            && Listing(w.slots, w.interval, a, s + 1) ==
               Listing(w.slots, w.interval, a, s) + if c.ts != 0 then [c] else []
  {
    var lo, before := w.newest - w.size, Later(w.slots, s - 1);
    CellOfSlot(cells, w.interval, before, s, lo);
    ClearCell(cells, w.interval, before, s, lo, Point(0, cells[s % w.size].val));
    assert Later(w.slots, s) == before - {s};
  }

  /** Once as many cells as slots were skipped, or all of them, everything before the new window is gone. */
  lemma PurgeEnd(w: Window, k: int, flushCount: int)
    requires w.Valid() && w.newest < k
    requires flushCount == if k - w.newest > w.size then w.size else k - w.newest
    ensures Later(w.slots, w.newest - w.size + flushCount) == Later(w.slots, k - w.size)
    ensures var a := w.newest - w.size + 1;
            Listing(w.slots, w.interval, a, a + flushCount) == w.Overtaken(k)
  {
    if flushCount < k - w.newest {
      NothingLater(w, k - w.size + 1);
      NoneLater(w, w.newest);
      NoneLater(w, k - w.size);
    }
  }

  lemma NoneLater(w: Window, k: int)
    requires w.Valid() && w.newest <= k
    ensures Later(w.slots, k) == map[]
  {
  }

  lemma ResetStores(cells: seq<Point>, w: Window)
    requires w.Valid() && |cells| == w.size && forall i :: 0 <= i < |cells| ==> cells[i].ts == 0
    ensures Stores(cells, 0, w.Reset())
  {
    assert 0 * w.interval == 0;
    DivModUnique(0, w.size, 0, 0);
  }

  class Buffer {
    var newest: int
    const interval: int
    const allowUpdate: bool
    const buf: array<Point>
    ghost var view: Window

    ghost predicate Valid()
      reads this, buf
    {
      && view.interval == interval && view.allowUpdate == allowUpdate
      && Stores(buf[..], newest, view)
    }

    constructor (reorderWindow: int, interval: int, allowUpdate: bool)
      requires 0 < reorderWindow && 0 < interval && reorderWindow * interval <= MAX_INT32
      ensures Valid() && fresh(buf)
      ensures view == Empty(reorderWindow, interval, allowUpdate)
    {
      this.newest := 0;
      this.interval := interval;
      this.allowUpdate := allowUpdate;
      this.buf := new Point[reorderWindow](_ => Point(0, Null));
      this.view := Empty(reorderWindow, interval, allowUpdate);
    }

    /** Puts a point in its slot, sliding the window forward for a newer one; reports what is pushed out, oldest first. */
    method Add(ts: int, val: Value) returns (o: Outcome)
      requires Valid() && 1 <= ts && ts + interval <= U32
      modifies this, buf
      ensures Valid()
      ensures (view, o) == old(view).Add(SlotOf(ts, interval), val)
    {
      ghost var w := view;
      ghost var k := SlotOf(ts, interval);
      var ts := AggBoundary(ts, interval);
      MultipleOf(k, interval);
      AddTests(buf[..], newest, w, k);

      // Nothing before the window can be taken in any more.
      if buf[newest].ts != 0 && ts <= Wrap32(buf[newest].ts - buf.Length * interval) {
        return TooOld;
      }

      var index := (ts / interval) % buf.Length;
      if ts == buf[index].ts {
        if !allowUpdate {
          return NewValueForTimestamp;
        }
        Put(ts, val);
        return Accepted([]);
      } else if ts > buf[newest].ts {
        var res := Slide(ts, val);
        return Accepted(res);
      } else {
        Put(ts, val);
        return Accepted([]);
      }
    }

    /** Write the cell of a timestamp inside the window. */
    method Put(ts: int, val: Value)
      requires Valid() && ts % interval == 0
      requires var k := ts / interval; 0 < k && view.newest - view.size < k <= view.newest
      modifies buf, this`view
      ensures Valid() && view == old(view).(slots := old(view).slots[ts / interval := val])
    {
      ghost var k := ts / interval;
      WriteCell(buf[..], interval, view.slots, k, view.newest - view.size, val);
      var index := (ts / interval) % buf.Length;
      buf[index] := Point(ts, val);
      view := view.(slots := view.slots[k := val]);
      Multiple(ts, interval);
      if index == newest {
        CongruentClose(k, old(view).newest, buf.Length);
      }
    }

    /** Make ts the newest timestamp, pushing out what falls behind the window. */
    method Slide(ts: int, val: Value) returns (res: seq<Point>)
      requires Valid() && ts % interval == 0 && buf[newest].ts < ts < U32
      modifies this, buf
      ensures Valid()
      ensures view == old(view).Slid(ts / interval, val)
      ensures res == old(view).Overtaken(ts / interval)
    {
      ghost var w, k := view, ts / interval;
      SlotsApart(ts, w.newest, interval);
      var flushCount := (ts - buf[newest].ts) / interval;
      if flushCount > buf.Length {
        flushCount := buf.Length;
      }
      res := PurgeBefore(flushCount, k);
      Advance(ts, val);
    }

    /** Empty the cells before the window that ends with slot k. */
    method PurgeBefore(flushCount: int, ghost k: int) returns (res: seq<Point>)
      requires Valid() && view.newest < k
      requires flushCount == if k - view.newest > view.size then view.size else k - view.newest
      modifies buf
      ensures Mirrors(buf[..], interval, Later(view.slots, k - view.size))
      ensures res == view.Overtaken(k)
    {
      PurgeEnd(view, k, flushCount);
      res := Purge(flushCount);
    }

    /** Empty the cells of the oldest slots of the window. */
    method Purge(flushCount: int) returns (res: seq<Point>)
      requires Valid() && 0 <= flushCount <= buf.Length
      modifies buf
      ensures Mirrors(buf[..], interval, Later(view.slots, view.newest - view.size + flushCount))
      ensures var a := view.newest - view.size + 1; res == Listing(view.slots, interval, a, a + flushCount)
    {
      ghost var w := view;
      var oldest := (newest + 1) % buf.Length;
      OldestCell(w, newest);
      NoneBefore(w);
      res := [];
      ghost var s := w.newest - w.size + 1;
      for i := 0 to flushCount
        invariant s == w.newest - w.size + 1 + i && oldest == s % w.size
        invariant Mirrors(buf[..], interval, Later(w.slots, s - 1))
        invariant res == Listing(w.slots, interval, w.newest - w.size + 1, s)
      {
        var out := PurgeCell(oldest, s);
        res := res + out;
        NextCell(s, w.size);
        oldest := (oldest + 1) % buf.Length;
        s := s + 1;
      }
    }

    /** Empty the cell of the oldest slot s that is still in the array. */
    method PurgeCell(oldest: int, ghost s: int) returns (out: seq<Point>)
      requires view.Valid() && view.size == buf.Length && view.interval == interval
      requires view.newest - view.size < s <= view.newest && oldest == s % view.size
      requires Mirrors(buf[..], interval, Later(view.slots, s - 1))
      modifies buf
      ensures Mirrors(buf[..], interval, Later(view.slots, s))
      ensures var a := view.newest - view.size + 1;
              Listing(view.slots, interval, a, s + 1) == Listing(view.slots, interval, a, s) + out
    {
      PurgeStep(buf[..], view, s);
      out := [];
      if buf[oldest].ts != 0 {
        out := [buf[oldest]];
        buf[oldest] := Point(0, buf[oldest].val);
      }
    }

    /** Write the newest point, once the cells before its window are empty. */
    method Advance(ts: int, val: Value)
      requires 0 < interval && ts % interval == 0 && ts < U32
      requires view.Valid() && view.interval == interval && view.allowUpdate == allowUpdate && view.size == buf.Length
      requires view.newest < ts / interval
      requires Mirrors(buf[..], interval, Later(view.slots, ts / interval - view.size))
      modifies this, buf
      ensures Valid()
      ensures view == old(view).Slid(ts / interval, val)
    {
      ghost var w, k := view, ts / interval;
      Multiple(ts, interval);
      WriteCell(buf[..], interval, Later(w.slots, k - w.size), k, k - w.size, val);
      var index := (ts / interval) % buf.Length;
      buf[index] := Point(ts, val);
      newest := index;
      view := w.Slid(k, val);
    }

    /** The buffered points, oldest first. */
    method Get() returns (res: seq<Point>)
      requires Valid()
      ensures res == view.Contents()
    {
      ghost var w := view;
      var oldest := (newest + 1) % buf.Length;
      NextCell(w.newest, w.size);
      NextCell(w.newest - w.size + 1, w.size);
      res := [];
      ghost var s := w.newest - w.size + 1;
      while true
        invariant w.newest - w.size + 1 <= s <= w.newest
        invariant oldest == s % buf.Length
        invariant res == Listing(w.slots, interval, w.newest - w.size + 1, s)
        decreases w.newest - s
      {
        CellOfSlot(buf[..], interval, w.slots, s, w.newest - w.size);
        if buf[oldest].ts != 0 {
          res := res + [buf[oldest]];
        }
        if oldest == newest {
          CongruentClose(s, w.newest, w.size);
          break;
        }
        NextCell(s, w.size);
        s := s + 1;
        oldest := (oldest + 1) % buf.Length;
      }
    }

    method Reset()
      requires Valid()
      modifies this, buf
      ensures Valid() && view == old(view).Reset()
    {
      for i := 0 to buf.Length
        invariant forall j :: 0 <= j < i ==> buf[j].ts == 0
        invariant view == old(view)
      {
        buf[i] := Point(0, buf[i].val);
      }
      ResetStores(buf[..], view);
      newest := 0;
      view := view.Reset();
    }

    /** Hand out everything buffered and start over with an empty window. */
    method Flush() returns (res: seq<Point>)
      requires Valid()
      modifies this, buf
      ensures Valid() && view == old(view).Reset()
      ensures res == old(view.Contents())
    {
      res := Get();
      Reset();
    }

    method IsEmpty() returns (r: bool)
      requires Valid()
      ensures r <==> view.Contents() == []
    {
      r := buf[newest].ts == 0;
      if r {
        ListingEmpty(view.slots, interval, view.newest - buf.Length + 1, view.newest + 1);
      } else {
        ProductMonotone(0, view.newest, interval);
        ListingFinds(view.slots, interval, view.newest - buf.Length + 1, view.newest + 1, view.newest);
      }
    }
  }
}
