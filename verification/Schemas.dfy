/** Storage schemas: a flat index of every suffix of every schema's retentions, searched block by block. */
module Schemas {
  import opened Options

  const U16: int := 0x1_0000

  /** The patterns of the schemas are regular expressions; a query says which of them match the metric. */
  type Pattern = int

  /** A schema with the intervals of its retentions, finest first. */
  datatype Schema = Schema(name: string, pattern: Pattern, intervals: seq<int>, priority: int, reorderWindow: int,
                           reorderAllowUpdate: bool) {

    /** The schema without its first retentions. */
    function Sub(pos: int): Schema
      requires 0 <= pos <= |intervals|
    {
      this.(intervals := intervals[pos..])
    }

    /** Validated retentions: at least one, each coarser than the one before. */
    ghost predicate Valid() {
      intervals != [] && 0 < intervals[0] && forall i, j :: 0 <= i < j < |intervals| ==> intervals[i] < intervals[j]
    }
  }

  /** The schema from its j-th retention on; in all else the same. */
  ghost predicate IsSuffix(t: Schema, s: Schema, j: int) {
    && 0 <= j <= |s.intervals| && t.intervals == s.intervals[j..]
    && t.name == s.name && t.pattern == s.pattern && t.priority == s.priority
    && t.reorderWindow == s.reorderWindow && t.reorderAllowUpdate == s.reorderAllowUpdate
  }

  ghost predicate AllValid(schemas: seq<Schema>) {
    forall i :: 0 <= i < |schemas| ==> schemas[i].Valid()
  }

  // ---------------------------------------------------------------------------------------------
  // The index.

  /** The first n entries of a schema's block. */
  function Block(s: Schema, n: int): seq<Schema>
    requires 0 <= n <= |s.intervals|
  {
    if n == 0 then [] else Block(s, n - 1) + [s.Sub(n - 1)]
  }

  function Index(schemas: seq<Schema>): seq<Schema> {
    if schemas == [] then []
    else Index(schemas[..|schemas| - 1]) + Block(schemas[|schemas| - 1], |schemas[|schemas| - 1].intervals|)
  }

  /** Where the block of the b-th schema starts. */
  function Offset(schemas: seq<Schema>, b: int): nat
    requires 0 <= b <= |schemas|
  {
    if b == 0 then 0 else Offset(schemas, b - 1) + |schemas[b - 1].intervals|
  }

  lemma {:induction false} BlockAt(s: Schema, n: int, j: int)
    requires 0 <= n <= |s.intervals|
    ensures |Block(s, n)| == n && (0 <= j < n ==> Block(s, n)[j] == s.Sub(j))
  {
    if 0 < n {
      BlockAt(s, n - 1, j);
    }
  }

  lemma {:induction false} OffsetPrefix(schemas: seq<Schema>, b: int, n: int)
    requires 0 <= b <= n <= |schemas|
    ensures Offset(schemas[..n], b) == Offset(schemas, b)
    decreases b
  {
    if 0 < b {
      OffsetPrefix(schemas, b - 1, n);
    }
  }

  lemma {:induction false} IndexLength(schemas: seq<Schema>)
    ensures |Index(schemas)| == Offset(schemas, |schemas|)
  {
    if schemas != [] {
      var n := |schemas| - 1;
      IndexLength(schemas[..n]);
      OffsetPrefix(schemas, n, n);
      BlockAt(schemas[n], |schemas[n].intervals|, 0);
    }
  }

  lemma {:induction false} OffsetGrows(schemas: seq<Schema>, b: int, c: int)
    requires 0 <= b <= c <= |schemas|
    ensures Offset(schemas, b) <= Offset(schemas, c)
    decreases c
  {
    if b < c {
      OffsetGrows(schemas, b, c - 1);
    }
  }

  /** Position j of the b-th block holds the b-th schema from its j-th retention on. */
  lemma {:induction false} IndexAt(schemas: seq<Schema>, b: int, j: int)
    requires 0 <= b < |schemas| && 0 <= j < |schemas[b].intervals|
    ensures Offset(schemas, b) + j < |Index(schemas)|
    ensures Index(schemas)[Offset(schemas, b) + j] == schemas[b].Sub(j)
    ensures IsSuffix(Index(schemas)[Offset(schemas, b) + j], schemas[b], j)
  {
    var n := |schemas| - 1;
    var init := schemas[..n];
    IndexLength(init);
    OffsetPrefix(schemas, n, n);
    BlockAt(schemas[n], |schemas[n].intervals|, j);
    if b < n {
      IndexAt(init, b, j);
      OffsetPrefix(schemas, b, n);
    }
  }

  /** Every block is in its place, and there is nothing else. */
  ghost predicate IsIndex(index: seq<Schema>, schemas: seq<Schema>) {
    && |index| == Offset(schemas, |schemas|)
    && forall b, j :: 0 <= b < |schemas| && 0 <= j < |schemas[b].intervals| ==> EntryAt(index, schemas, b, j)
  }

  ghost predicate EntryAt(index: seq<Schema>, schemas: seq<Schema>, b: int, j: int)
    requires 0 <= b < |schemas|
  {
    0 <= Offset(schemas, b) + j < |index| && IsSuffix(index[Offset(schemas, b) + j], schemas[b], j)
  }

  lemma IndexIs(schemas: seq<Schema>)
    ensures IsIndex(Index(schemas), schemas)
  {
    IndexLength(schemas);
    forall b, j | 0 <= b < |schemas| && 0 <= j < |schemas[b].intervals|
      ensures EntryAt(Index(schemas), schemas, b, j)
    {
      IndexAt(schemas, b, j);
    }
  }

  // ---------------------------------------------------------------------------------------------
  // Searching.

  /** The first schema from position b on whose pattern matches. */
  function FirstHit(schemas: seq<Schema>, hits: Pattern -> bool, b: int): (r: int)
    requires 0 <= b <= |schemas|
    ensures b <= r <= |schemas|
    ensures r < |schemas| ==> hits(schemas[r].pattern)
    ensures forall k :: b <= k < r ==> !hits(schemas[k].pattern)
    decreases |schemas| - b
  {
    if b == |schemas| || hits(schemas[b].pattern) then b else FirstHit(schemas, hits, b + 1)
  }

  /** The retention for a metric's interval: the coarsest that is no coarser than the metric, else the first. */
  ghost predicate IsFit(intervals: seq<int>, interval: int, j: int) {
    && 0 <= j < |intervals|
    && (intervals[0] <= interval ==> intervals[j] <= interval)
    && (interval < intervals[0] ==> j == 0)
    && forall k :: j < k < |intervals| ==> interval < intervals[k]
  }

  /** There is only one such retention. */
  lemma FitUnique(s: Schema, interval: int, j: int, k: int)
    requires s.Valid() && IsFit(s.intervals, interval, j) && IsFit(s.intervals, interval, k)
    ensures j == k
  {
  }

  method FindFit(s: Schema, interval: int) returns (j: int)
    requires s.Valid()
    ensures IsFit(s.intervals, interval, j)
  {
    for i := 0 to |s.intervals|
      invariant forall k :: 0 <= k < i ==> s.intervals[k] <= interval
    {
      if interval < s.intervals[i] {
        return if i > 0 then i - 1 else i;
      }
    }
    return |s.intervals| - 1;
  }

  /** What a search of the schemas one by one finds. */
  ghost predicate Finds(schemas: seq<Schema>, hits: Pattern -> bool, interval: int, s: Schema, id: int) {
    var b := FirstHit(schemas, hits, 0);
    b < |schemas| && exists j :: IsFit(schemas[b].intervals, interval, j) && IsSuffix(s, schemas[b], j)
                                 && id == Offset(schemas, b) + j
  }

  /** The first interval is the coarsest of the given ones that is no coarser than the metric, else their first. */
  ghost predicate Starts(intervals: seq<int>, given: seq<int>, interval: int) {
    && intervals != [] && given != [] && intervals[0] in given
    && (interval < given[0] ==> intervals[0] == given[0])
    && (given[0] <= interval ==>
          intervals[0] <= interval && forall x :: x in given && x <= interval ==> x <= intervals[0])
  }

  lemma FitStarts(s: Schema, t: Schema, interval: int, j: int)
    requires t.Valid() && IsFit(t.intervals, interval, j) && IsSuffix(s, t, j)
    ensures Starts(s.intervals, t.intervals, interval)
  {
    assert s.intervals[0] == t.intervals[j];
    forall x | x in t.intervals && x <= interval
      ensures x <= s.intervals[0]
    {
      var k :| 0 <= k < |t.intervals| && t.intervals[k] == x;
    }
  }

  lemma FindsStarts(schemas: seq<Schema>, hits: Pattern -> bool, interval: int, s: Schema, id: int)
    requires AllValid(schemas) && Finds(schemas, hits, interval, s, id)
    ensures Starts(s.intervals, schemas[FirstHit(schemas, hits, 0)].intervals, interval)
  {
    var b := FirstHit(schemas, hits, 0);
    var j :| IsFit(schemas[b].intervals, interval, j) && IsSuffix(s, schemas[b], j) && id == Offset(schemas, b) + j;
    FitStarts(s, schemas[b], interval, j);
  }

  /** Every block has an entry, so that only the end of the index comes after all blocks. */
  lemma OffsetStrict(schemas: seq<Schema>, b: int)
    requires AllValid(schemas) && 0 <= b < |schemas|
    ensures Offset(schemas, b) < Offset(schemas, b + 1) <= Offset(schemas, |schemas|)
  {
    OffsetGrows(schemas, b + 1, |schemas|);
  }

  lemma SubZero(s: Schema)
    ensures s.Sub(0) == s
  {
    assert s.intervals[0..] == s.intervals;
  }

  /** The position of the block of the first schema that matches; only block heads are looked at. */
  method FindBlock(index: seq<Schema>, hits: Pattern -> bool, ghost schemas: seq<Schema>) returns (i: int)
    requires AllValid(schemas) && index == Index(schemas)
    ensures i == Offset(schemas, FirstHit(schemas, hits, 0)) <= |index|
    ensures FirstHit(schemas, hits, 0) < |schemas| <==> i < |index|
  {
    i := 0;
    ghost var b := 0;
    IndexLength(schemas);
    while i < |index|
      invariant 0 <= b <= |schemas| && i == Offset(schemas, b) <= |index|
      invariant FirstHit(schemas, hits, 0) == FirstHit(schemas, hits, b)
      decreases |index| - i
    {
      OffsetStrict(schemas, b);
      IndexAt(schemas, b, 0);
      SubZero(schemas[b]);
      if hits(index[i].pattern) {
        return;
      }
      i := i + |index[i].intervals|;
      b := b + 1;
    }
    if b < |schemas| {
      OffsetStrict(schemas, b);
    }
  }

  /** The entry of a block for a metric's interval; an interval of 0 stands for an unknown one. */
  method FitInBlock(index: seq<Schema>, i: int, interval: int, ghost schemas: seq<Schema>, ghost b: int) returns (j: int)
    requires AllValid(schemas) && index == Index(schemas) && 0 <= b < |schemas| && i == Offset(schemas, b)
    ensures 0 <= i && IsFit(schemas[b].intervals, interval, j) && i + j < |index| && index[i + j] == schemas[b].Sub(j)
  {
    IndexAt(schemas, b, 0);
    SubZero(schemas[b]);
    j := 0;
    if interval != 0 {
      j := FindFit(index[i], interval);
    }
    IndexAt(schemas, b, j);
  }

  /** Searches the index. */
  method Search(index: seq<Schema>, hits: Pattern -> bool, interval: int, ghost schemas: seq<Schema>) returns (id: int)
    requires AllValid(schemas) && index == Index(schemas)
    ensures 0 <= id <= |index| && (id < |index| <==> FirstHit(schemas, hits, 0) < |schemas|)
    ensures id < |index| ==> Finds(schemas, hits, interval, index[id], id)
  {
    id := FindBlock(index, hits, schemas);
    if id < |index| {
      ghost var b, i := FirstHit(schemas, hits, 0), id;
      var j := FitInBlock(index, id, interval, schemas, b);
      id := id + j;
      assert id == Offset(schemas, b) + j;
    }
  }

  class SchemaSet {
    var raw: seq<Schema>
    var defaultSchema: Schema
    var index: seq<Schema>

    /** All schemas, the default last. */
    function All(): seq<Schema>
      reads this
    {
      raw + [defaultSchema]
    }

    ghost predicate Valid()
      reads this
    {
      AllValid(All()) && index == Index(All())
    }

    constructor (schemas: seq<Schema>, defaultSchema: Schema)
      requires AllValid(schemas) && defaultSchema.Valid()
      ensures Valid() && raw == schemas && this.defaultSchema == defaultSchema
    {
      raw, this.defaultSchema, index := schemas, defaultSchema, [];
      new;
      BuildIndex();
    }

    method BuildIndex()
      modifies this`index
      ensures index == Index(All()) && IsIndex(index, All())
    {
      IndexIs(All());
      index := [];
      for i := 0 to |raw|
        invariant index == Index(raw[..i])
      {
        ghost var before := index;
        for pos := 0 to |raw[i].intervals|
          invariant index == before + Block(raw[i], pos)
        {
          index := index + [raw[i].Sub(pos)];
        }
        assert raw[..i + 1][..i] == raw[..i];
      }
      assert raw[..|raw|] == raw;
      for pos := 0 to |defaultSchema.intervals|
        invariant index == Index(raw) + Block(defaultSchema, pos)
      {
        index := index + [defaultSchema.Sub(pos)];
      }
      assert All()[..|raw|] == raw;
    }

    /** Finds what a search of the schemas one by one finds, and where it is in the index. */
    method Match(hits: Pattern -> bool, interval: int) returns (id: int, s: Schema)
      requires Valid() && |index| < U16
      ensures 0 <= id <= |index|
      ensures FirstHit(All(), hits, 0) < |All()| ==>
                && Finds(All(), hits, interval, s, id) && id < |index| && index[id] == s
                && Starts(s.intervals, All()[FirstHit(All(), hits, 0)].intervals, interval)
      ensures FirstHit(All(), hits, 0) == |All()| ==> s == defaultSchema && id == |index|
    {
      id := Search(index, hits, interval, All());
      s := if id < |index| then index[id] else defaultSchema;
      if id < |index| {
        FindsStarts(All(), hits, interval, s, id);
      }
    }

    /** The schema for an id; 16-bit arithmetic makes the largest id look like a position in the index. */
    method Get(id: int) returns (s: Option<Schema>)
      requires 0 <= id < U16 && |index| < U16
      ensures s == if id == U16 - 1 then None else Some(if id < |index| then index[id] else defaultSchema)
    {
      if (id + 1) % U16 > |index| % U16 {
        s := Some(defaultSchema);
      } else {
        s := if id < |index| then Some(index[id]) else None;
      }
    }

    /**
     * The id that a search returns gives back the schema that it returned, unless nothing matched and the index has
     * as many entries as there are ids but one.
     */
    method Roundtrip(hits: Pattern -> bool, interval: int) returns (id: int, s: Schema, t: Option<Schema>)
      requires Valid() && |index| < U16
      ensures t == Some(s) <==> FirstHit(All(), hits, 0) < |All()| || |index| < U16 - 1
      ensures FirstHit(All(), hits, 0) < |All()| ==> Finds(All(), hits, interval, s, id)
    {
      id, s := Match(hits, interval);
      t := Get(id);
      if id < |index| {
        FoundInIndex(All(), hits, interval, s, id);
      }
    }
  }

  lemma FoundInIndex(schemas: seq<Schema>, hits: Pattern -> bool, interval: int, s: Schema, id: int)
    requires Finds(schemas, hits, interval, s, id) && id < |Index(schemas)|
    ensures 0 <= id && Index(schemas)[id] == s
  {
    var b := FirstHit(schemas, hits, 0);
    var j :| IsFit(schemas[b].intervals, interval, j) && IsSuffix(s, schemas[b], j) && id == Offset(schemas, b) + j;
    IndexAt(schemas, b, j);
  }
}
