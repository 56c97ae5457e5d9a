/** Asking one peer of every shard group, and others of a group when its peers fail or are slow. */
module FanOut {
  import opened Options

  type Peer = int

  /** The requests of one shard group: `asked` are the peers that were asked, in order, `next` the next to ask. */
  datatype Shard = Shard(peers: seq<Peer>, next: int, asked: seq<Peer>, inflight: set<Peer>, failed: set<Peer>,
                         winner: Option<Peer>) {

    function Rest(): seq<Peer>
      requires 0 <= next <= |peers|
    {
      peers[next..]
    }

    function Ask(): Shard
      requires 0 <= next < |peers|
    {
      this.(next := next + 1, asked := asked + [peers[next]], inflight := inflight + {peers[next]})
    }

    /** An answer comes in from a peer that was asked: a result, or a failure. */
    function Respond(p: Peer, ok: bool): Shard
      requires 0 <= next <= |peers|
    {
      var s := this.(inflight := inflight - {p});
      if winner.Some? then s
      else if ok then s.(winner := Some(p))
      else
        var f := s.(failed := failed + {p});
        if next < |peers| then f.Ask() else f
    }

    /** A failure that leaves no peer to ask ends the whole query. */
    predicate GivesUp(ok: bool) {
      winner.None? && !ok && next == |peers|
    }

    /** Asks one more peer of a group that has no result yet. */
    function Speculate(): Shard
      requires 0 <= next <= |peers|
    {
      if winner.None? && next < |peers| then Ask() else this
    }

    /** Every peer that was asked has failed or is still in flight, until one of them gives the result. */
    ghost predicate Valid() {
      && 1 <= next <= |peers| && Distinct(peers) && asked == peers[..next]
      && (forall p :: p in inflight ==> p in asked)
      && (forall p :: p in failed ==> p in asked)
      && inflight !! failed
      && (winner.Some? ==> winner.value in asked && winner.value !in inflight + failed)
      && (winner.None? ==> forall p :: p in asked ==> p in inflight + failed)
    }
  }

  ghost predicate Distinct<T>(s: seq<T>) {
    forall i, j :: 0 <= i < j < |s| ==> s[i] != s[j]
  }

  /** The first peer of a group is asked straight away. */
  function Begin(peers: seq<Peer>): Shard
    requires peers != []
  {
    Shard(peers, 1, [peers[0]], {peers[0]}, {}, None)
  }

  lemma BeginValid(peers: seq<Peer>)
    requires peers != [] && Distinct(peers)
    ensures Begin(peers).Valid() && Begin(peers).inflight != {}
  {
  }

  /** The next peer to be asked was never asked before. */
  lemma AskFresh(s: Shard)
    requires s.Valid() && s.next < |s.peers|
    ensures s.peers[s.next] !in s.asked && s.Ask().asked == s.peers[..s.next + 1]
  {
    forall i | 0 <= i < s.next
      ensures s.asked[i] != s.peers[s.next]
    {
      assert s.asked[i] == s.peers[i];
    }
    assert s.peers[..s.next + 1] == s.peers[..s.next] + [s.peers[s.next]];
  }

  lemma AskValid(s: Shard)
    requires s.Valid() && s.next < |s.peers|
    ensures s.Ask().Valid()
  {
    AskFresh(s);
    var x := s.peers[s.next];
    assert forall p :: p in s.asked + [x] <==> p in s.asked || p == x;
  }

  lemma SpeculateValid(s: Shard)
    requires s.Valid()
    ensures s.Speculate().Valid() && s.inflight <= s.Speculate().inflight
  {
    if s.winner.None? && s.next < |s.peers| {
      AskValid(s);
    }
  }

  lemma RespondValid(s: Shard, p: Peer, ok: bool)
    requires s.Valid() && p in s.inflight
    ensures s.Respond(p, ok).Valid()
    ensures s.Respond(p, ok).winner.None? && !s.GivesUp(ok) ==> s.Respond(p, ok).inflight != {}
  {
    if s.winner.None? && !ok {
      var f := s.(inflight := s.inflight - {p}, failed := s.failed + {p});
      assert f.Valid();
      if s.next < |s.peers| {
        AskValid(f);
        assert s.peers[s.next] in f.Ask().inflight;
      }
    }
  }

  lemma Another(peers: set<Peer>, p: Peer) returns (q: Peer)
    requires p in peers && peers != {p}
    ensures q in peers && q != p
  {
    assert (forall x :: x in peers ==> x == p) ==> peers == {p};
    q :| q in peers && q != p;
  }

  /**
   * When a group gives up, all its peers have failed exactly if no other request of the group is in flight;
   * speculation can leave one.
   */
  lemma GivesUpAfterAll(s: Shard, p: Peer)
    requires s.Valid() && p in s.inflight && s.GivesUp(false)
    ensures (forall q :: q in s.peers ==> q in s.Respond(p, false).failed) <==> s.inflight == {p}
  {
    assert s.peers[..s.next] == s.peers;
    if s.inflight != {p} {
      var q := Another(s.inflight, p);
      assert q in s.asked && q !in s.Respond(p, false).failed;
    }
  }

  // ---------------------------------------------------------------------------------------------
  // The whole query.

  datatype Request = Request(group: int, peer: Peer)

  datatype Fan = Fan(shards: map<int, Shard>, delivered: seq<Request>, failure: Option<Request>) {

    predicate Unanswered(g: int) {
      g in shards && shards[g].winner.None?
    }

    /** The loop goes on until every group has a result or one has failed for good. */
    predicate Running() {
      failure.None? && exists g :: g in shards && shards[g].winner.None?
    }

    ghost predicate Valid() {
      && (forall g :: g in shards ==> shards[g].Valid())
      && (failure.None? ==> forall g :: Unanswered(g) ==> shards[g].inflight != {})
      && Delivers()
    }

    /** The results delivered are those of the groups that have one, one each. */
    ghost predicate Delivers() {
      && (forall i, j :: 0 <= i < j < |delivered| ==> delivered[i].group != delivered[j].group)
      && (forall i :: 0 <= i < |delivered| ==>
            delivered[i].group in shards && shards[delivered[i].group].winner == Some(delivered[i].peer))
      && (forall g :: g in shards && shards[g].winner.Some? ==> Request(g, shards[g].winner.value) in delivered)
    }

    function Respond(q: Request, ok: bool): Fan
      requires q.group in shards && 0 <= shards[q.group].next <= |shards[q.group].peers|
    {
      var s := shards[q.group];
      Fan(shards[q.group := s.Respond(q.peer, ok)],
          if s.winner.None? && ok then delivered + [q] else delivered,
          if s.GivesUp(ok) then Some(q) else failure)
    }

    ghost function Speculate(): Fan
      requires forall g :: g in shards ==> 0 <= shards[g].next <= |shards[g].peers|
    {
      this.(shards := map g | g in shards :: shards[g].Speculate())
    }
  }

  lemma SpeculateDelivers(f: Fan)
    requires f.Delivers() && forall g :: g in f.shards ==> 0 <= f.shards[g].next <= |f.shards[g].peers|
    ensures f.Speculate().Delivers()
  {
  }

  lemma SpeculateKeeps(f: Fan)
    requires f.Valid()
    ensures f.Speculate().Valid()
  {
    SpeculateDelivers(f);
    forall g | g in f.shards
      ensures f.shards[g].Speculate().Valid()
      ensures f.Unanswered(g) && f.failure.None? ==> f.shards[g].Speculate().inflight != {}
    {
      SpeculateValid(f.shards[g]);
    }
  }

  lemma RespondKeepsDelivers(f: Fan, q: Request, ok: bool)
    requires f.Valid() && q.group in f.shards && q.peer in f.shards[q.group].inflight
    ensures f.Respond(q, ok).Delivers()
  {
    var r := f.Respond(q, ok);
    forall g | g in r.shards && r.shards[g].winner.Some?
      ensures Request(g, r.shards[g].winner.value) in r.delivered
    {
      if g == q.group && f.shards[g].winner.None? {
        assert r.delivered[|f.delivered|] == q;
      }
    }
  }

  lemma RespondKeeps(f: Fan, q: Request, ok: bool)
    requires f.Valid() && f.failure.None? && q.group in f.shards && q.peer in f.shards[q.group].inflight
    ensures f.Respond(q, ok).Valid()
  {
    RespondValid(f.shards[q.group], q.peer, ok);
    RespondKeepsDelivers(f, q, ok);
  }

  /** Asks the first peer of every group. */
  ghost function Start(groups: map<int, seq<Peer>>): Fan
    requires forall g :: g in groups ==> groups[g] != []
  {
    Fan(map g | g in groups :: Begin(groups[g]), [], None)
  }

  /** Every group has peers, all different. */
  ghost predicate Proper(groups: map<int, seq<Peer>>) {
    forall g :: g in groups ==> groups[g] != [] && Distinct(groups[g])
  }

  lemma StartValid(groups: map<int, seq<Peer>>)
    requires Proper(groups)
    ensures Start(groups).Valid()
  {
    forall g | g in groups
      ensures Begin(groups[g]).Valid() && Begin(groups[g]).inflight != {}
    {
      BeginValid(groups[g]);
    }
  }

  // ---------------------------------------------------------------------------------------------
  // Every order of events.

  datatype Event = Response(q: Request, ok: bool) | Tick(speculate: bool)

  /** A response can only come from a request in flight, and nothing happens once the loop has ended. */
  ghost predicate Enabled(f: Fan, e: Event) {
    f.Running() && (e.Response? ==> e.q.group in f.shards && e.q.peer in f.shards[e.q.group].inflight)
  }

  ghost function Apply(f: Fan, e: Event): (r: Fan)
    requires f.Valid() && Enabled(f, e)
    ensures r.Valid()
  {
    match e
    case Response(q, ok) => RespondKeeps(f, q, ok); f.Respond(q, ok)
    case Tick(speculate) => SpeculateKeeps(f); if speculate then f.Speculate() else f
  }

  /** The states that some order of events leads to. */
  ghost predicate Reaches(f: Fan, events: seq<Event>, r: Fan)
    requires f.Valid()
    decreases |events|
  {
    if events == [] then r == f
    else Enabled(f, events[0]) && Reaches(Apply(f, events[0]), events[1..], r)
  }

  lemma {:induction false} ReachesValid(f: Fan, events: seq<Event>, r: Fan)
    requires f.Valid() && Reaches(f, events, r)
    ensures r.Valid()
    decreases |events|
  {
    if events != [] {
      ReachesValid(Apply(f, events[0]), events[1..], r);
    }
  }

  /** One peer of the group at a time, as long as there is no result. */
  ghost predicate OneAtATime(s: Shard) {
    s.winner.None? ==> 1 <= s.next <= |s.peers| && s.inflight == {s.peers[s.next - 1]}
  }

  ghost predicate Solo(f: Fan) {
    f.failure.None? ==> forall g :: g in f.shards ==> OneAtATime(f.shards[g])
  }

  /** An error says that every peer of the group has failed. */
  ghost predicate Honest(f: Fan) {
    f.failure.Some? ==>
      f.failure.value.group in f.shards
      && forall p :: p in f.shards[f.failure.value.group].peers ==> p in f.shards[f.failure.value.group].failed
  }

  lemma RespondSolo(s: Shard, p: Peer, ok: bool)
    requires s.Valid() && OneAtATime(s) && p in s.inflight && !s.GivesUp(ok)
    ensures OneAtATime(s.Respond(p, ok))
  {
    if s.winner.None? && !ok {
      assert s.inflight - {p} == {};
    }
  }

  lemma ApplySolo(f: Fan, e: Event)
    requires f.Valid() && Enabled(f, e) && Solo(f) && !e.Tick?
    ensures Solo(Apply(f, e)) && Honest(Apply(f, e))
  {
    var s := f.shards[e.q.group];
    if s.GivesUp(e.ok) {
      GivesUpAfterAll(s, e.q.peer);
    } else {
      RespondSolo(s, e.q.peer, e.ok);
    }
  }

  /** Without speculation an error is only reported after every peer of the group has failed. */
  lemma {:induction false} ErrorAfterAll(f: Fan, events: seq<Event>, r: Fan)
    requires f.Valid() && Solo(f) && Honest(f) && Reaches(f, events, r)
    requires forall e :: e in events ==> !e.Tick?
    ensures Honest(r)
    decreases |events|
  {
    if events != [] {
      assert events[0] in events;
      ApplySolo(f, events[0]);
      ErrorAfterAll(Apply(f, events[0]), events[1..], r);
    }
  }

  lemma AskedOnce(s: Shard)
    requires s.Valid()
    ensures Distinct(s.asked)
  {
  }

  ghost predicate Delivered(f: Fan, g: int) {
    exists i :: 0 <= i < |f.delivered| && f.delivered[i].group == g
  }

  lemma EndDelivers(f: Fan, g: int)
    requires f.Delivers() && g in f.shards
    ensures f.failure.None? && !f.Running() ==> Delivered(f, g)
  {
    if f.failure.None? && !f.Running() {
      assert !f.Unanswered(g);
      assert Request(g, f.shards[g].winner.value) in f.delivered;
    }
  }

  /** What holds of every group in every reachable state. */
  ghost predicate GroupServed(f: Fan, g: int) {
    && g in f.shards && Distinct(f.shards[g].asked)
    && (f.Running() && f.Unanswered(g) ==> f.shards[g].inflight != {})
    && (f.failure.None? && !f.Running() ==> Delivered(f, g))
  }

  lemma ValidServes(f: Fan, g: int)
    requires f.Valid() && g in f.shards
    ensures GroupServed(f, g)
  {
    AskedOnce(f.shards[g]);
    EndDelivers(f, g);
  }

  lemma ReachedServes(f: Fan, events: seq<Event>, r: Fan)
    requires f.Valid() && Reaches(f, events, r)
    ensures forall i, j :: 0 <= i < j < |r.delivered| ==> r.delivered[i].group != r.delivered[j].group
    ensures forall g :: g in r.shards ==> GroupServed(r, g)
  {
    ReachesValid(f, events, r);
    forall g | g in r.shards
      ensures GroupServed(r, g)
    {
      ValidServes(r, g);
    }
  }

  /** The results that come in, of each group only the first; `done` are groups that have theirs. */
  function Firsts(events: seq<Event>, done: set<int>): seq<Request> {
    if events == [] then []
    else
      var e := events[0];
      if e.Response? && e.ok && e.q.group !in done then [e.q] + Firsts(events[1..], done + {e.q.group})
      else Firsts(events[1..], done)
  }

  lemma ApplyAnswered(f: Fan, e: Event)
    requires f.Valid() && Enabled(f, e)
    ensures Answered(Apply(f, e)) == if e.Response? && e.ok then Answered(f) + {e.q.group} else Answered(f)
    ensures Apply(f, e).delivered
            == if e.Response? && e.ok && e.q.group !in Answered(f) then f.delivered + [e.q] else f.delivered
  {
    var now := Answered(Apply(f, e));
    if e.Response? {
      if e.ok {
        assert forall g :: g in now <==> g in Answered(f) + {e.q.group};
      } else {
        assert forall g :: g in now <==> g in Answered(f);
      }
    } else {
      assert forall g :: g in now <==> g in Answered(f);
    }
  }

  lemma FirstsStep(delivered: seq<Request>, done: set<int>, e: Event, delivered': seq<Request>, done': set<int>,
                   rest: seq<Event>)
    requires done' == if e.Response? && e.ok then done + {e.q.group} else done
    requires delivered' == if e.Response? && e.ok && e.q.group !in done then delivered + [e.q] else delivered
    ensures delivered' + Firsts(rest, done') == delivered + Firsts([e] + rest, done)
  {
    FirstsNext(e, rest, done);
    if e.Response? && e.ok {
      if e.q.group in done {
        assert done' == done;
      } else {
        assert (delivered + [e.q]) + Firsts(rest, done') == delivered + ([e.q] + Firsts(rest, done'));
      }
    }
  }

  lemma FirstsNext(e: Event, rest: seq<Event>, done: set<int>)
    ensures Firsts([e] + rest, done) == if e.Response? && e.ok && e.q.group !in done
                                        then [e.q] + Firsts(rest, done + {e.q.group}) else Firsts(rest, done)
  {
    assert ([e] + rest)[1..] == rest;
  }

  /** What is delivered is the first result of each group that comes in. */
  lemma {:induction false} DeliversFirsts(f: Fan, events: seq<Event>, r: Fan)
    requires f.Valid() && Reaches(f, events, r)
    ensures r.delivered == f.delivered + Firsts(events, Answered(f))
    decreases |events|
  {
    if events != [] {
      var e, rest := events[0], events[1..];
      assert events == [e] + rest;
      DeliversFirsts(Apply(f, e), rest, r);
      ApplyAnswered(f, e);
      FirstsStep(f.delivered, Answered(f), e, Apply(f, e).delivered, Answered(Apply(f, e)), rest);
    }
  }

  /** The query failed with the last event: a failure in a group without a result that has no peer left to ask. */
  ghost predicate FailedLast(events: seq<Event>, r: Fan) {
    r.failure.Some? ==>
      && events != [] && events[|events| - 1] == Response(r.failure.value, false)
      && r.failure.value.group in r.shards
      && var s := r.shards[r.failure.value.group];
         s.winner.None? && s.asked == s.peers && r.failure.value.peer in s.failed
  }

  lemma {:induction false} FailsLast(f: Fan, events: seq<Event>, r: Fan)
    requires f.Valid() && f.failure.None? && Reaches(f, events, r)
    ensures FailedLast(events, r)
    decreases |events|
  {
    if events != [] {
      var f' := Apply(f, events[0]);
      if f'.failure.None? {
        FailsLast(f', events[1..], r);
      } else {
        var s := f.shards[events[0].q.group];
        assert events[1..] == [] && s.peers[..s.next] == s.peers;
      }
    }
  }

  lemma EndsRight(groups: map<int, seq<Peer>>, events: seq<Event>, r: Fan)
    requires Proper(groups) && Start(groups).Valid() && Reaches(Start(groups), events, r)
    ensures r.delivered == Firsts(events, {}) && FailedLast(events, r)
  {
    var f := Start(groups);
    assert forall g :: g !in Answered(f);
    assert (forall g :: g !in Answered(f)) ==> Answered(f) == {};
    DeliversFirsts(f, events, r);
    assert [] + Firsts(events, {}) == Firsts(events, {});
    FailsLast(f, events, r);
  }

  /**
   * Whatever the order of events: what is delivered is the first result of each group, and each group has delivered
   * when the loop ends without an error; no peer is asked twice; a group without a result has a request in flight
   * while the loop runs; an error comes from a group without a result all of whose peers were asked.
   */
  lemma EveryOrder(groups: map<int, seq<Peer>>, events: seq<Event>, r: Fan)
    requires Proper(groups)
    requires Start(groups).Valid() && Reaches(Start(groups), events, r)
    ensures forall i, j :: 0 <= i < j < |r.delivered| ==> r.delivered[i].group != r.delivered[j].group
    ensures r.delivered == Firsts(events, {})
    ensures r.shards.Keys == groups.Keys
    ensures forall g :: g in groups ==> r.shards[g].peers == groups[g] && GroupServed(r, g)
    ensures FailedLast(events, r)
  {
    EndsRight(groups, events, r);
    ReachedServes(Start(groups), events, r);
    SameGroups(Start(groups), events, r);
  }

  lemma {:induction false} SameGroups(f: Fan, events: seq<Event>, r: Fan)
    requires f.Valid() && Reaches(f, events, r)
    ensures r.shards.Keys == f.shards.Keys && forall g :: g in f.shards ==> r.shards[g].peers == f.shards[g].peers
    decreases |events|
  {
    if events != [] {
      SameGroups(Apply(f, events[0]), events[1..], r);
    }
  }

  /** Without speculation an error is only reported after every peer of the group has failed. */
  lemma ErrorWithoutSpeculation(groups: map<int, seq<Peer>>, events: seq<Event>, r: Fan)
    requires Proper(groups) && forall e :: e in events ==> !e.Tick?
    requires Start(groups).Valid() && Reaches(Start(groups), events, r)
    ensures Honest(r)
  {
    ErrorAfterAll(Start(groups), events, r);
  }

  /** A request of the failed group is still in flight when the error is reported. */
  ghost predicate Hasty(f: Fan) {
    f.failure.Some? && f.failure.value.group in f.shards && f.shards[f.failure.value.group].inflight != {}
  }

  /** An error is premature exactly if another request of the group is in flight. */
  lemma {:induction false} ErrorExactly(f: Fan, events: seq<Event>, r: Fan)
    requires f.Valid() && f.failure.None? && Reaches(f, events, r) && r.failure.Some?
    ensures Honest(r) <==> !Hasty(r)
    decreases |events|
  {
    if events != [] {
      var f' := Apply(f, events[0]);
      if f'.failure.None? {
        ErrorExactly(f', events[1..], r);
      } else {
        var s, p := f.shards[events[0].q.group], events[0].q.peer;
        GivesUpAfterAll(s, p);
        if s.inflight != {p} {
          var q := Another(s.inflight, p);
          assert q in s.inflight - {p};
        } else {
          assert s.inflight - {p} == {};
        }
        assert events[1..] == [];
      }
    }
  }

  const TWO_PEERS: map<int, seq<Peer>> := map[0 := [1, 2]]

  /** After one speculative round both peers are in flight; the failure of either then ends the query. */
  lemma PrematureShard()
    ensures var s := Begin([1, 2]).Speculate();
            && s.inflight == {1, 2} && s.winner.None? && s.GivesUp(false)
            && 2 in s.Respond(1, false).inflight && 2 !in s.Respond(1, false).failed
  {
  }

  lemma PrematureRound()
    ensures Proper(TWO_PEERS) && Start(TWO_PEERS).Valid() && Enabled(Start(TWO_PEERS), Tick(true))
    ensures var f := Apply(Start(TWO_PEERS), Tick(true));
            f.shards == map[0 := Begin([1, 2]).Speculate()] && f.failure.None?
  {
    StartValid(TWO_PEERS);
    assert Start(TWO_PEERS).shards[0] == Begin([1, 2]);
  }

  lemma PrematureAnswer(f: Fan)
    requires f.Valid() && f.shards == map[0 := Begin([1, 2]).Speculate()] && f.failure.None?
    ensures var e := Response(Request(0, 1), false);
            && Enabled(f, e)
            && var r := Apply(f, e); r.failure.Some? && Hasty(r) && !Honest(r)
  {
    PrematureShard();
    assert 2 in f.shards[0].peers;
  }

  /** With speculation an error can be reported while a peer that was asked has yet to answer. */
  lemma PrematureError() returns (events: seq<Event>, r: Fan)
    ensures Proper(TWO_PEERS) && Start(TWO_PEERS).Valid() && Reaches(Start(TWO_PEERS), events, r)
    ensures r.failure.Some? && Hasty(r) && !Honest(r)
  {
    PrematureRound();
    var e1, e2 := Tick(true), Response(Request(0, 1), false);
    var f := Apply(Start(TWO_PEERS), e1);
    PrematureAnswer(f);
    r := Apply(f, e2);
    events := [e1, e2];
    assert events[1..] == [e2] && [e2][1..] == [];
    assert Reaches(f, [e2], r);
  }

  // ---------------------------------------------------------------------------------------------
  // The loop.

  /** Takes the first peer off each group that is not in `received` and has one, in any order of the groups. */
  method Shift(groups: map<int, seq<Peer>>, received: set<int>)
    returns (rest: map<int, seq<Peer>>, asks: set<Request>)
    ensures rest.Keys == groups.Keys
    ensures forall g :: g in groups ==>
              rest[g] == if g in received || groups[g] == [] then groups[g] else groups[g][1..]
    ensures forall q :: q in asks <==> q.group in groups && q.group !in received && groups[q.group] != []
                                       && q.peer == groups[q.group][0]
  {
    rest, asks := groups, {};
    var todo := groups.Keys;
    while todo != {}
      invariant todo <= groups.Keys == rest.Keys
      invariant forall g :: g in groups ==>
                  rest[g] == if g in todo || g in received || groups[g] == [] then groups[g] else groups[g][1..]
      invariant forall q :: q in asks <==> q.group in groups && q.group !in todo && q.group !in received
                                           && groups[q.group] != [] && q.peer == groups[q.group][0]
    {
      assert (forall x :: x !in todo) ==> todo == {};
      var g :| g in todo;
      if g !in received && |rest[g]| > 0 {
        asks := asks + {Request(g, rest[g][0])};
        rest := rest[g := rest[g][1..]];
      }
      todo := todo - {g};
    }
  }

  lemma CountReceived(received: set<int>, keys: set<int>)
    requires received <= keys
    ensures |received| <= |keys|
    ensures |received| < |keys| <==> exists g :: g in keys && g !in received
  {
    var others := keys - received;
    assert keys == received + others;
    assert (forall g :: g in keys ==> g in received) ==> others == {};
    if g :| g in keys && g !in received {
      assert g in others;
    }
  }

  /** The share of groups with a result has reached the threshold. */
  predicate Enough(received: int, groups: int, threshold: real)
    requires 0 < groups
  {
    received as real / groups as real >= threshold
  }

  /** The groups that have a result. */
  ghost function Answered(f: Fan): set<int> {
    set g | g in f.shards && f.shards[g].winner.Some?
  }

  /** So many results of so many are at least the share. */
  ghost predicate AtLeast(received: int, groups: int, threshold: real) {
    received as real >= threshold * groups as real
  }

  lemma EnoughIs(received: int, groups: int, threshold: real)
    requires 0 < groups
    ensures Enough(received, groups, threshold) <==> AtLeast(received, groups, threshold)
  {
    var share, n := received as real / groups as real, groups as real;
    assert share * n == received as real;
    if share >= threshold {
      Scale(threshold, share, n);
    } else {
      ScaleBelow(share, threshold, n);
    }
  }

  lemma Scale(a: real, b: real, n: real)
    requires a <= b && 0.0 < n
    ensures a * n <= b * n
  {
  }

  lemma ScaleBelow(a: real, b: real, n: real)
    requires a < b && 0.0 < n
    ensures a * n < b * n
  {
    assert (b - a) * n > 0.0;
  }

  /** A tick speculates exactly if the share of groups with a result has reached the threshold. */
  ghost predicate Timed(f: Fan, e: Event, threshold: real) {
    e.Tick? ==> (e.speculate <==> AtLeast(|Answered(f)|, |f.shards.Keys|, threshold))
  }

  class Query {
    var peerGroups: map<int, seq<Peer>>
    var receivedResponses: set<int>
    var results: seq<Request>
    var failure: Option<Request>
    ghost var fan: Fan

    ghost predicate Valid()
      reads this
    {
      fan.Valid() && fan.delivered == results && fan.failure == failure
      && Mirrors(fan.shards, peerGroups, receivedResponses)
    }

    /** Asks the first peer of every group. */
    constructor (groups: map<int, seq<Peer>>)
      requires Proper(groups)
      ensures Valid() && fan == Start(groups)
    {
      var rest, asks := Shift(groups, {});
      peerGroups, receivedResponses, results, failure := rest, {}, [], None;
      fan := Start(groups);
      StartValid(groups);
      StartMirrors(groups, rest);
    }

    /** The loop goes on while fewer results than groups have come in, and no group has failed. */
    method IsRunning() returns (running: bool)
      requires Valid()
      ensures running <==> fan.Running()
    {
      ReceivedPart(fan, peerGroups, receivedResponses);
      CountReceived(receivedResponses, peerGroups.Keys);
      running := failure.None? && |receivedResponses| < |peerGroups.Keys|;
    }

    /** Handles one answer; says which peer is asked next, if any. */
    method OnResponse(q: Request, ok: bool) returns (ask: Option<Request>)
      requires Valid() && failure.None? && q.group in fan.shards && q.peer in fan.shards[q.group].inflight
      modifies this
      ensures Valid() && fan == old(fan).Respond(q, ok)
      ensures ask == AskAfter(old(peerGroups), old(receivedResponses), q, ok)
    {
      RespondKeeps(fan, q, ok);
      RespondMirrors(fan.shards, peerGroups, receivedResponses, q, ok);
      RestIs(fan.shards, peerGroups, receivedResponses, q.group);
      var reply;
      peerGroups, receivedResponses, ask, reply := Handle(peerGroups, receivedResponses, q, ok);
      match reply {
        case Deliver => results := results + [q];
        case Fail => failure := Some(q);
        case Wait =>
      }
      fan := fan.Respond(q, ok);
    }

    /** Asks another peer of every group without a result; says which. */
    method Speculate() returns (asks: set<Request>)
      requires Valid()
      modifies this`peerGroups, this`fan
      ensures Valid() && fan == old(fan).Speculate()
      ensures forall q :: q in asks <==> q.group in old(peerGroups) && q.group !in receivedResponses
                                         && old(peerGroups)[q.group] != [] && q.peer == old(peerGroups)[q.group][0]
    {
      SpeculateKeeps(fan);
      var rest;
      rest, asks := Shift(peerGroups, receivedResponses);
      SpeculateMirrors(fan.shards, fan.Speculate().shards, peerGroups, receivedResponses, rest);
      peerGroups := rest;
      fan := fan.Speculate();
    }

    /** On each tick, speculates once enough results have come in. */
    method OnTick(threshold: real) returns (speculated: bool, asks: set<Request>)
      requires Valid() && fan.Running()
      modifies this`peerGroups, this`fan
      ensures speculated <==> |receivedResponses| as real >= threshold * |old(peerGroups).Keys| as real
      ensures Valid() && fan == if speculated then old(fan).Speculate() else old(fan)
      ensures Timed(old(fan), Tick(speculated), threshold)
      ensures forall q :: q in asks <==> speculated && q.group in old(peerGroups) && q.group !in receivedResponses
                                         && old(peerGroups)[q.group] != [] && q.peer == old(peerGroups)[q.group][0]
    {
      ReceivedPart(fan, peerGroups, receivedResponses);
      ReceivedAnswered(fan, peerGroups, receivedResponses);
      CountReceived(receivedResponses, peerGroups.Keys);
      EnoughIs(|receivedResponses|, |peerGroups.Keys|, threshold);
      speculated, asks := Enough(|receivedResponses|, |peerGroups.Keys|, threshold), {};
      if speculated {
        asks := Speculate();
      }
    }
  }

  /** The fields hold the peers still to be asked and the groups that have a result. */
  ghost predicate Mirrors(shards: map<int, Shard>, groups: map<int, seq<Peer>>, received: set<int>) {
    && groups.Keys == shards.Keys
    && (forall g :: g in groups ==> RestOf(shards[g], groups[g]))
    && (forall g :: g in received ==> g in shards && shards[g].winner.Some?)
    && (forall g :: g in shards && shards[g].winner.Some? ==> g in received)
  }

  ghost predicate RestOf(s: Shard, rest: seq<Peer>) {
    0 <= s.next <= |s.peers| && rest == s.Rest()
  }

  lemma ReceivedPart(f: Fan, groups: map<int, seq<Peer>>, received: set<int>)
    requires Mirrors(f.shards, groups, received)
    ensures received <= groups.Keys
    ensures f.Running() <==> f.failure.None? && exists g :: g in groups.Keys && g !in received
  {
    assert (forall g :: g in received ==> g in groups.Keys) ==> received <= groups.Keys;
    if f.Running() {
      var g :| g in f.shards && f.shards[g].winner.None?;
      assert g in groups.Keys && g !in received;
    }
    if g :| g in groups.Keys && g !in received {
      assert g in f.shards && f.shards[g].winner.None?;
    }
  }

  lemma ReceivedAnswered(f: Fan, groups: map<int, seq<Peer>>, received: set<int>)
    requires Mirrors(f.shards, groups, received)
    ensures received == Answered(f)
  {
    assert forall g :: g in received <==> g in Answered(f);
  }

  lemma StartMirrors(groups: map<int, seq<Peer>>, rest: map<int, seq<Peer>>)
    requires Proper(groups)
    requires rest.Keys == groups.Keys && forall g :: g in groups ==> rest[g] == groups[g][1..]
    ensures Mirrors(Start(groups).shards, rest, {})
  {
  }

  lemma SpeculateMirrors(shards: map<int, Shard>, shards': map<int, Shard>, groups: map<int, seq<Peer>>,
                         received: set<int>, rest: map<int, seq<Peer>>)
    requires Mirrors(shards, groups, received) && rest.Keys == groups.Keys && shards'.Keys == shards.Keys
    requires forall g :: g in shards ==> 0 <= shards[g].next <= |shards[g].peers| && shards'[g] == shards[g].Speculate()
    requires forall g :: g in groups ==>
               rest[g] == if g in received || groups[g] == [] then groups[g] else groups[g][1..]
    ensures Mirrors(shards', rest, received)
  {
    forall g | g in rest
      ensures RestOf(shards'[g], rest[g])
    {
      NextRest(shards[g]);
      assert RestOf(shards[g], groups[g]);
    }
  }

  lemma NextRest(s: Shard)
    requires 0 <= s.next <= |s.peers|
    ensures s.Rest() == [] <==> s.next == |s.peers|
    ensures s.next < |s.peers| ==> s.Rest()[0] == s.peers[s.next] && s.Rest()[1..] == s.Ask().Rest()
  {
  }

  /** What the fields should hold after an answer, and the peer that is asked. */
  function RestAfter(groups: map<int, seq<Peer>>, received: set<int>, q: Request, ok: bool): map<int, seq<Peer>>
    requires q.group in groups
  {
    if q.group !in received && !ok && groups[q.group] != [] then groups[q.group := groups[q.group][1..]] else groups
  }

  function ReceivedAfter(received: set<int>, q: Request, ok: bool): set<int> {
    if ok then received + {q.group} else received
  }

  function AskAfter(groups: map<int, seq<Peer>>, received: set<int>, q: Request, ok: bool): Option<Request>
    requires q.group in groups
  {
    if q.group !in received && !ok && groups[q.group] != [] then Some(Request(q.group, groups[q.group][0])) else None
  }

  datatype Reply = Wait | Deliver | Fail

  method Handle(groups: map<int, seq<Peer>>, received: set<int>, q: Request, ok: bool)
    returns (groups': map<int, seq<Peer>>, received': set<int>, ask: Option<Request>, reply: Reply)
    requires q.group in groups
    ensures groups' == RestAfter(groups, received, q, ok) && received' == ReceivedAfter(received, q, ok)
    ensures ask == AskAfter(groups, received, q, ok)
    ensures reply.Deliver? <==> q.group !in received && ok
    ensures reply.Fail? <==> q.group !in received && !ok && groups[q.group] == []
  {
    groups', received', ask, reply := groups, received, None, Wait;
    if q.group in received {
      // A result has come in already, possibly from a speculative request.
      assert received + {q.group} == received;
    } else if !ok {
      if |groups[q.group]| > 0 {
        ask := Some(Request(q.group, groups[q.group][0]));
        groups' := groups[q.group := groups[q.group][1..]];
      } else {
        reply := Fail;
      }
    } else {
      reply := Deliver;
      received' := received + {q.group};
    }
  }

  lemma RespondRest(s: Shard, p: Peer, ok: bool, rest: seq<Peer>)
    requires RestOf(s, rest)
    ensures RestOf(s.Respond(p, ok), if s.winner.None? && !ok && rest != [] then rest[1..] else rest)
    ensures s.Respond(p, ok).winner.Some? <==> s.winner.Some? || ok
  {
    NextRest(s);
  }

  lemma RespondMirrors(shards: map<int, Shard>, groups: map<int, seq<Peer>>, received: set<int>, q: Request, ok: bool)
    requires Mirrors(shards, groups, received) && q.group in shards
    requires 0 <= shards[q.group].next <= |shards[q.group].peers|
    ensures Mirrors(shards[q.group := shards[q.group].Respond(q.peer, ok)],
                    RestAfter(groups, received, q, ok), ReceivedAfter(received, q, ok))
  {
    RespondRest(shards[q.group], q.peer, ok, groups[q.group]);
  }

  lemma RestIs(shards: map<int, Shard>, groups: map<int, seq<Peer>>, received: set<int>, g: int)
    requires Mirrors(shards, groups, received) && g in shards
    ensures g in received <==> shards[g].winner.Some?
    ensures RestOf(shards[g], groups[g])
    ensures groups[g] == [] <==> shards[g].next == |shards[g].peers|
    ensures groups[g] != [] ==> groups[g][0] == shards[g].peers[shards[g].next]
  {
    assert RestOf(shards[g], groups[g]);
    NextRest(shards[g]);
  }
}
