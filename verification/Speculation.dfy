/** When a query to peers can fail before all peers of a group have: a question of the groups and the threshold. */
module Speculation {
  import opened FanOut

  /** The states that some order of events leads to, with ticks that heed the threshold. */
  ghost predicate TimelyReaches(f: Fan, events: seq<Event>, r: Fan, threshold: real)
    requires f.Valid()
    decreases |events|
  {
    if events == [] then r == f
    else
      && Enabled(f, events[0]) && Timed(f, events[0], threshold)
      && TimelyReaches(Apply(f, events[0]), events[1..], r, threshold)
  }

  /** The threshold can be reached while a group has no result yet. */
  ghost predicate Reachable(groups: int, threshold: real) {
    0 < groups && AtLeast(groups - 1, groups, threshold)
  }

  // ---------------------------------------------------------------------------------------------
  // Where speculation cannot happen

  /** Speculation never has an effect: there is no second peer to ask, or the threshold is only reached at the end. */
  ghost predicate Calm(f: Fan, threshold: real) {
    (forall g :: g in f.shards ==> |f.shards[g].peers| == 1) || !Reachable(|f.shards.Keys|, threshold)
  }

  lemma RunningCount(f: Fan)
    requires f.Running()
    ensures |Answered(f)| < |f.shards.Keys|
  {
    CountReceived(Answered(f), f.shards.Keys);
    var g :| g in f.shards && f.shards[g].winner.None?;
    assert g in f.shards.Keys && g !in Answered(f);
  }

  lemma CalmTick(f: Fan, speculate: bool, threshold: real)
    requires f.Valid() && f.Running() && Calm(f, threshold) && Timed(f, Tick(speculate), threshold)
    ensures Apply(f, Tick(speculate)) == f
  {
    RunningCount(f);
    if speculate {
      NothingToAsk(f);
    }
  }

  lemma NothingToAsk(f: Fan)
    requires f.Valid() && forall g :: g in f.shards ==> |f.shards[g].peers| == 1
    ensures f.Speculate() == f
  {
    forall g | g in f.shards
      ensures f.shards[g].Speculate() == f.shards[g]
    {
      assert f.shards[g].Valid();
    }
    assert f.Speculate().shards == f.shards;
  }

  lemma ApplyCalm(f: Fan, e: Event, threshold: real)
    requires f.Valid() && Enabled(f, e) && Calm(f, threshold) && Timed(f, e, threshold) && Solo(f)
    ensures Calm(Apply(f, e), threshold) && Solo(Apply(f, e)) && (Honest(f) ==> Honest(Apply(f, e)))
  {
    if e.Tick? {
      CalmTick(f, e.speculate, threshold);
    } else {
      ApplySolo(f, e);
      assert Apply(f, e).shards.Keys == f.shards.Keys;
    }
  }

  lemma {:induction false} CalmHonest(f: Fan, events: seq<Event>, r: Fan, threshold: real)
    requires f.Valid() && TimelyReaches(f, events, r, threshold) && Calm(f, threshold) && Solo(f) && Honest(f)
    ensures Honest(r)
    decreases |events|
  {
    if events != [] {
      ApplyCalm(f, events[0], threshold);
      CalmHonest(Apply(f, events[0]), events[1..], r, threshold);
    }
  }

  // ---------------------------------------------------------------------------------------------
  // Where it leads to an early error

  /** One more event before others. */
  lemma TimelyFirst(f: Fan, e: Event, events: seq<Event>, r: Fan, threshold: real)
    requires f.Valid() && Enabled(f, e) && Timed(f, e, threshold) && TimelyReaches(Apply(f, e), events, r, threshold)
    ensures TimelyReaches(f, [e] + events, r, threshold)
  {
    assert ([e] + events)[1..] == events;
  }

  /** Two requests of an unanswered group are in flight. */
  ghost predicate Doubled(f: Fan, g: int, p: Peer, q: Peer) {
    f.Valid() && f.failure.None? && f.Unanswered(g) && p != q && p in f.shards[g].inflight && q in f.shards[g].inflight
  }

  lemma FailLast(f: Fan, g: int, p: Peer, q: Peer)
    requires Doubled(f, g, p, q) && f.shards[g].next == |f.shards[g].peers|
    ensures Enabled(f, Response(Request(g, q), false))
    ensures var r := Apply(f, Response(Request(g, q), false)); r.failure.Some? && !Honest(r)
  {
    var s := f.shards[g];
    assert p in s.asked && s.peers[..s.next] == s.peers;
    assert p in s.peers && p !in s.Respond(q, false).failed;
  }

  lemma FailNext(f: Fan, g: int, p: Peer, q: Peer)
    requires Doubled(f, g, p, q) && f.shards[g].next < |f.shards[g].peers|
    ensures Enabled(f, Response(Request(g, q), false))
    ensures var s, f' := f.shards[g], Apply(f, Response(Request(g, q), false));
            Doubled(f', g, p, s.peers[s.next]) && f'.shards[g].peers == s.peers && f'.shards[g].next == s.next + 1
  {
    AskFresh(f.shards[g]);
  }

  /** The other peers fail one after the other, until there is none left to ask while p has yet to answer. */
  lemma {:induction false} FailOthers(f: Fan, g: int, p: Peer, q: Peer, threshold: real)
    returns (events: seq<Event>, r: Fan)
    requires Doubled(f, g, p, q)
    ensures TimelyReaches(f, events, r, threshold) && r.failure.Some? && !Honest(r)
    decreases |f.shards[g].peers| - f.shards[g].next
  {
    var s, e := f.shards[g], Response(Request(g, q), false);
    assert s.Valid();
    if s.next == |s.peers| {
      FailLast(f, g, p, q);
      events, r := [], Apply(f, e);
    } else {
      FailNext(f, g, p, q);
      events, r := FailOthers(Apply(f, e), g, p, s.peers[s.next], threshold);
    }
    TimelyFirst(f, e, events, r, threshold);
    events := [e] + events;
  }

  /** Only group g has no result, and its first peer was asked. */
  ghost predicate Lonely(f: Fan, g: int, peers: seq<Peer>, todo: set<int>) {
    && f.Valid() && f.failure.None? && 2 <= |peers| && Distinct(peers)
    && g in f.shards && f.shards[g] == Begin(peers) && g !in todo && todo <= f.shards.Keys
    && (forall h :: h in todo ==> f.shards[h].winner.None? && f.shards[h].inflight != {})
    && (forall h :: h in f.shards && h != g && h !in todo ==> f.shards[h].winner.Some?)
  }

  lemma LonelyTick(f: Fan, g: int, peers: seq<Peer>, threshold: real)
    requires Lonely(f, g, peers, {}) && Reachable(|f.shards.Keys|, threshold)
    ensures Enabled(f, Tick(true)) && Timed(f, Tick(true), threshold)
    ensures Doubled(Apply(f, Tick(true)), g, peers[1], peers[0])
  {
    assert f.Unanswered(g) && f.Running();
    assert forall h :: h in Answered(f) <==> h in f.shards.Keys - {g};
    assert Answered(f) == f.shards.Keys - {g};
    assert peers[0] != peers[1];
  }

  lemma LonelyAnswer(f: Fan, g: int, peers: seq<Peer>, todo: set<int>, h: int, p: Peer)
    requires Lonely(f, g, peers, todo) && h in todo && p in f.shards[h].inflight
    ensures Enabled(f, Response(Request(h, p), true))
    ensures var f' := Apply(f, Response(Request(h, p), true));
            Lonely(f', g, peers, todo - {h}) && f'.shards.Keys == f.shards.Keys
  {
    assert f.Unanswered(g) && f.Running();
  }

  /** The other groups answer, then the tick speculates, and then all but one peer of the group fail. */
  lemma {:induction false} FailEarly(f: Fan, g: int, peers: seq<Peer>, todo: set<int>, threshold: real)
    returns (events: seq<Event>, r: Fan)
    requires Lonely(f, g, peers, todo) && Reachable(|f.shards.Keys|, threshold)
    ensures TimelyReaches(f, events, r, threshold) && r.failure.Some? && !Honest(r)
    decreases |todo|
  {
    var e;
    if todo == {} {
      e := Tick(true);
      LonelyTick(f, g, peers, threshold);
      events, r := FailOthers(Apply(f, e), g, peers[1], peers[0], threshold);
    } else {
      var h := Member(todo);
      var p := Member(f.shards[h].inflight);
      e := Response(Request(h, p), true);
      LonelyAnswer(f, g, peers, todo, h, p);
      events, r := FailEarly(Apply(f, e), g, peers, todo - {h}, threshold);
    }
    TimelyFirst(f, e, events, r, threshold);
    events := [e] + events;
  }

  lemma Member(s: set<int>) returns (x: int)
    requires s != {}
    ensures x in s
  {
    assert (forall y :: y !in s) ==> s == {};
    x :| x in s;
  }

  lemma StartLonely(groups: map<int, seq<Peer>>, g: int)
    requires Proper(groups) && g in groups && 2 <= |groups[g]|
    ensures Lonely(Start(groups), g, groups[g], groups.Keys - {g}) && Start(groups).shards.Keys == groups.Keys
  {
    StartValid(groups);
    assert Start(groups).shards.Keys == groups.Keys;
  }

  // ---------------------------------------------------------------------------------------------

  /** Some order of events makes the query fail before all peers of the group that failed it have. */
  ghost predicate FailsEarly(groups: map<int, seq<Peer>>, threshold: real)
    requires Proper(groups) && Start(groups).Valid()
  {
    exists events, r :: TimelyReaches(Start(groups), events, r, threshold) && r.failure.Some? && !Honest(r)
  }

  /**
   * Main result. A query can fail early exactly if some group has two peers and the threshold can be reached while
   * a group has no result yet.
   */
  lemma FailsEarlyExactly(groups: map<int, seq<Peer>>, threshold: real)
    requires Proper(groups)
    ensures Start(groups).Valid()
    ensures FailsEarly(groups, threshold) <==>
            (exists g :: g in groups && 2 <= |groups[g]|) && Reachable(|groups.Keys|, threshold)
  {
    var f := Start(groups);
    StartValid(groups);
    if g :| g in groups && 2 <= |groups[g]| {
      StartLonely(groups, g);
      if Reachable(|groups.Keys|, threshold) {
        var events, r := FailEarly(f, g, groups[g], groups.Keys - {g}, threshold);
      } else {
        NeverEarly(groups, threshold);
      }
    } else {
      NeverEarly(groups, threshold);
    }
  }

  lemma NeverEarly(groups: map<int, seq<Peer>>, threshold: real)
    requires Proper(groups) && Start(groups).Valid()
    requires (forall g :: g in groups ==> |groups[g]| == 1) || !Reachable(|groups.Keys|, threshold)
    ensures !FailsEarly(groups, threshold)
  {
    var f := Start(groups);
    assert f.shards.Keys == groups.Keys;
    forall events, r | TimelyReaches(f, events, r, threshold)
      ensures Honest(r)
    {
      CalmHonest(f, events, r, threshold);
    }
  }
}
