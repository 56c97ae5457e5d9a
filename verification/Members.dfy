/** Selecting the nodes of a cluster that together hold all partitions. */
module Members {
  import opened Options

  datatype Node = Node(name: int, priority: int, partitions: set<int>)

  /** The best nodes for one partition: those with the lowest priority number. */
  datatype Candidates = Candidates(priority: int, nodes: seq<Node>)

  // ---------------------------------------------------------------------------------------------
  // Candidates.

  /** One more node for a partition. */
  function Offer(c: Option<Candidates>, n: Node): Candidates {
    if c.None? then Candidates(n.priority, [n])
    else if c.value.priority == n.priority then Candidates(n.priority, c.value.nodes + [n])
    else if c.value.priority > n.priority then Candidates(n.priority, [n])
    else c.value
  }

  function Best(part: int, nodes: seq<Node>): Option<Candidates> {
    if nodes == [] then None
    else
      var c, n := Best(part, nodes[..|nodes| - 1]), nodes[|nodes| - 1];
      if part in n.partitions then Some(Offer(c, n)) else c
  }

  ghost predicate Held(part: int, nodes: seq<Node>) {
    exists i :: 0 <= i < |nodes| && part in nodes[i].partitions
  }

  /** The candidates are exactly the holders of the partition with the least priority number among its holders. */
  ghost predicate IsBest(c: Candidates, part: int, nodes: seq<Node>) {
    && c.nodes != []
    && (forall j :: 0 <= j < |c.nodes| ==>
          c.nodes[j] in nodes && part in c.nodes[j].partitions && c.nodes[j].priority == c.priority)
    && (forall i :: 0 <= i < |nodes| && part in nodes[i].partitions ==> c.priority <= nodes[i].priority)
    && (forall i :: 0 <= i < |nodes| && part in nodes[i].partitions && nodes[i].priority == c.priority ==>
          nodes[i] in c.nodes)
  }

  lemma OfferIsBest(c: Candidates, part: int, nodes: seq<Node>, n: Node)
    requires IsBest(c, part, nodes) && part in n.partitions
    ensures IsBest(Offer(Some(c), n), part, nodes + [n])
  {
    var r := Offer(Some(c), n);
    forall i | 0 <= i < |nodes + [n]| && part in (nodes + [n])[i].partitions
      ensures r.priority <= (nodes + [n])[i].priority
      ensures (nodes + [n])[i].priority == r.priority ==> (nodes + [n])[i] in r.nodes
    {
      if i < |nodes| {
        assert (nodes + [n])[i] == nodes[i];
      } else if n.priority == r.priority {
        assert r.nodes[|r.nodes| - 1] == n;
      }
    }
    assert (nodes + [n])[|nodes|] == n;
    forall j | 0 <= j < |r.nodes|
      ensures r.nodes[j] in nodes + [n] && part in r.nodes[j].partitions && r.nodes[j].priority == r.priority
    {
    }
  }

  lemma KeepIsBest(c: Candidates, part: int, nodes: seq<Node>, n: Node)
    requires IsBest(c, part, nodes) && part !in n.partitions
    ensures IsBest(c, part, nodes + [n])
  {
    forall j | 0 <= j < |c.nodes|
      ensures c.nodes[j] in nodes + [n]
    {
    }
  }

  lemma {:induction false} BestIsBest(part: int, nodes: seq<Node>)
    ensures Best(part, nodes).Some? <==> Held(part, nodes)
    ensures Best(part, nodes).Some? ==> IsBest(Best(part, nodes).value, part, nodes)
  {
    if nodes != [] {
      var init, n := nodes[..|nodes| - 1], nodes[|nodes| - 1];
      var c := Best(part, init);
      assert nodes == init + [n];
      BestIsBest(part, init);
      if c.Some? {
        var i :| 0 <= i < |init| && part in init[i].partitions;
        assert part in nodes[i].partitions;
        if part in n.partitions {
          OfferIsBest(c.value, part, init, n);
        } else {
          KeepIsBest(c.value, part, init, n);
        }
      } else if part in n.partitions {
        FirstIsBest(part, init, n);
      } else {
        assert forall i :: 0 <= i < |nodes| ==> nodes[i] == if i < |init| then init[i] else n;
      }
    }
  }

  lemma FirstIsBest(part: int, nodes: seq<Node>, n: Node)
    requires !Held(part, nodes) && part in n.partitions
    ensures IsBest(Candidates(n.priority, [n]), part, nodes + [n]) && Held(part, nodes + [n])
  {
    assert (nodes + [n])[|nodes|] == n && [n][0] == n;
    assert forall i :: 0 <= i < |nodes| ==> (nodes + [n])[i] == nodes[i] && part !in nodes[i].partitions;
  }

  /** Partitions with the same holders have the same candidates. */
  lemma {:induction false} SameBest(p: int, q: int, nodes: seq<Node>)
    requires forall i :: 0 <= i < |nodes| ==> (p in nodes[i].partitions <==> q in nodes[i].partitions)
    ensures Best(p, nodes) == Best(q, nodes)
  {
    if nodes != [] {
      SameBest(p, q, nodes[..|nodes| - 1]);
    }
  }

  ghost predicate Named(nodes: seq<Node>) {
    forall i, j :: 0 <= i < j < |nodes| ==> nodes[i].name != nodes[j].name
  }

  /** If the first node is a candidate it is the first one. */
  lemma {:induction false} LocalFirst(part: int, nodes: seq<Node>)
    requires nodes != [] && Named(nodes) && Best(part, nodes).Some? && nodes[0] in Best(part, nodes).value.nodes
    ensures Best(part, nodes).value.nodes[0] == nodes[0]
  {
    if |nodes| > 1 {
      var init, n := nodes[..|nodes| - 1], nodes[|nodes| - 1];
      var c := Best(part, init);
      assert nodes[0] == init[0] && n != nodes[0];
      if part !in n.partitions || (c.Some? && c.value.priority <= n.priority) {
        LocalFirst(part, init);
      }
    }
  }

  function Lookup(m: map<int, Candidates>, part: int): Option<Candidates> {
    if part in m then Some(m[part]) else None
  }

  /** Offers a node for each of its partitions, in any order. */
  method OfferAll(m: map<int, Candidates>, n: Node) returns (r: map<int, Candidates>)
    ensures forall part :: Lookup(r, part) ==
                           if part in n.partitions then Some(Offer(Lookup(m, part), n)) else Lookup(m, part)
  {
    r := m;
    var todo := n.partitions;
    while todo != {}
      invariant todo <= n.partitions
      invariant forall part :: Lookup(r, part) ==
                  if part in n.partitions && part !in todo then Some(Offer(Lookup(m, part), n)) else Lookup(m, part)
    {
      assert (forall x :: x !in todo) ==> todo == {};
      var part :| part in todo;
      if part !in r {
        r := r[part := Candidates(n.priority, [n])];
      } else if r[part].priority == n.priority {
        r := r[part := Candidates(n.priority, r[part].nodes + [n])];
      } else if r[part].priority > n.priority {
        r := r[part := Candidates(n.priority, [n])];
      }
      todo := todo - {part};
    }
  }

  /** The nodes that can be asked: this node if it is ready, and all other members. */
  function Eligible(local: Node, ready: bool, members: seq<Node>): seq<Node> {
    if members == [] then (if ready then [local] else [])
    else
      var rest, n := Eligible(local, ready, members[..|members| - 1]), members[|members| - 1];
      if n.name == local.name then rest else rest + [n]
  }

  /** This node if it is ready, or another member. */
  ghost predicate Askable(n: Node, local: Node, ready: bool, members: seq<Node>) {
    (ready && n == local) || (n in members && n.name != local.name)
  }

  lemma {:induction false} EligibleIs(n: Node, local: Node, ready: bool, members: seq<Node>)
    ensures n in Eligible(local, ready, members) <==> Askable(n, local, ready, members)
  {
    if members != [] {
      EligibleIs(n, local, ready, members[..|members| - 1]);
      assert members == members[..|members| - 1] + [members[|members| - 1]];
    }
  }

  /** A node that can be asked for the partition. */
  ghost predicate Holder(n: Node, part: int, local: Node, ready: bool, members: seq<Node>) {
    Askable(n, local, ready, members) && part in n.partitions
  }

  /** A node that can be asked for the partition, with the least priority number of these. */
  ghost predicate Preferred(n: Node, part: int, local: Node, ready: bool, members: seq<Node>) {
    && Holder(n, part, local, ready, members)
    && forall h :: Holder(h, part, local, ready, members) ==> n.priority <= h.priority
  }

  /** All partitions that can be asked for. */
  ghost function Parts(local: Node, ready: bool, members: seq<Node>): set<int> {
    (if ready then local.partitions else {})
    + (set n, part | n in members && n.name != local.name && part in n.partitions :: part)
  }

  ghost predicate Among(n: Node, nodes: seq<Node>) {
    exists j :: 0 <= j < |nodes| && nodes[j] == n
  }

  lemma HeldIs(part: int, local: Node, ready: bool, members: seq<Node>)
    ensures Held(part, Eligible(local, ready, members)) <==> part in Parts(local, ready, members)
  {
    var all := Eligible(local, ready, members);
    if Held(part, all) {
      var i :| 0 <= i < |all| && part in all[i].partitions;
      EligibleIs(all[i], local, ready, members);
    }
    if part in Parts(local, ready, members) {
      var n := if ready && part in local.partitions then local
               else var n :| n in members && n.name != local.name && part in n.partitions; n;
      EligibleIs(n, local, ready, members);
      var i :| 0 <= i < |all| && all[i] == n;
      assert part in all[i].partitions;
    }
  }

  /** The node holds the partition, and no other holder has a lower priority number. */
  ghost predicate BestHolder(n: Node, part: int, nodes: seq<Node>) {
    && Among(n, nodes) && part in n.partitions
    && forall i :: 0 <= i < |nodes| && part in nodes[i].partitions ==> n.priority <= nodes[i].priority
  }

  lemma HolderIs(n: Node, part: int, local: Node, ready: bool, members: seq<Node>)
    ensures BestHolder(n, part, Eligible(local, ready, members)) <==> Preferred(n, part, local, ready, members)
  {
    var all := Eligible(local, ready, members);
    EligibleIs(n, local, ready, members);
    if BestHolder(n, part, all) {
      forall h | Holder(h, part, local, ready, members)
        ensures n.priority <= h.priority
      {
        EligibleIs(h, local, ready, members);
      }
    }
    if Preferred(n, part, local, ready, members) {
      forall i | 0 <= i < |all| && part in all[i].partitions
        ensures n.priority <= all[i].priority
      {
        EligibleIs(all[i], local, ready, members);
        assert Holder(all[i], part, local, ready, members);
      }
    }
  }

  /** The map holds the best candidates of every partition that a node of the list holds. */
  ghost predicate Gathered(m: map<int, Candidates>, all: seq<Node>) {
    forall part :: Lookup(m, part) == Best(part, all)
  }

  lemma GatheredIs(m: map<int, Candidates>, all: seq<Node>, part: int)
    requires Gathered(m, all)
    ensures part in m <==> Held(part, all)
    ensures part in m ==> IsBest(m[part], part, all) && Best(part, all) == Some(m[part])
  {
    assert Lookup(m, part) == Best(part, all);
    BestIsBest(part, all);
  }

  lemma CandidateHolds(m: map<int, Candidates>, all: seq<Node>, part: int, n: Node)
    requires Gathered(m, all) && part in m && Among(n, m[part].nodes)
    ensures BestHolder(n, part, all)
  {
    GatheredIs(m, all, part);
    var j :| 0 <= j < |m[part].nodes| && m[part].nodes[j] == n;
    assert m[part].nodes[j] in all;
  }

  /** The candidates of a partition are all its preferred holders. */
  ghost predicate AreCandidates(c: Candidates, part: int, local: Node, ready: bool, members: seq<Node>) {
    && (forall n :: n in c.nodes <==> Preferred(n, part, local, ready, members))
    && (forall n :: n in c.nodes ==> n.priority == c.priority)
  }

  lemma HolderIsAmong(m: map<int, Candidates>, all: seq<Node>, part: int, n: Node)
    requires Gathered(m, all) && part in m && BestHolder(n, part, all)
    ensures n in m[part].nodes
  {
    GatheredIs(m, all, part);
    var k :| 0 <= k < |all| && all[k] == n;
    assert m[part].nodes[0] in all && part in m[part].nodes[0].partitions;
    assert m[part].priority == n.priority;
  }

  lemma GatheredAre(m: map<int, Candidates>, part: int, local: Node, ready: bool, members: seq<Node>)
    requires Gathered(m, Eligible(local, ready, members)) && part in m
    ensures AreCandidates(m[part], part, local, ready, members)
  {
    var all := Eligible(local, ready, members);
    GatheredIs(m, all, part);
    forall n
      ensures n in m[part].nodes <==> Preferred(n, part, local, ready, members)
    {
      HolderIs(n, part, local, ready, members);
      if n in m[part].nodes {
        CandidateHolds(m, all, part, n);
      }
      if BestHolder(n, part, all) {
        HolderIsAmong(m, all, part, n);
      }
    }
  }

  lemma GatheredParts(m: map<int, Candidates>, local: Node, ready: bool, members: seq<Node>)
    requires Gathered(m, Eligible(local, ready, members))
    ensures m.Keys == Parts(local, ready, members)
  {
    forall part
      ensures part in m.Keys <==> part in Parts(local, ready, members)
    {
      GatheredIs(m, Eligible(local, ready, members), part);
      HeldIs(part, local, ready, members);
    }
  }

  /** The best candidates of each partition. */
  method Gather(local: Node, ready: bool, members: seq<Node>) returns (m: map<int, Candidates>)
    ensures Gathered(m, Eligible(local, ready, members))
    ensures m.Keys == Parts(local, ready, members)
    ensures forall part :: part in m ==> AreCandidates(m[part], part, local, ready, members)
  {
    m := map[];
    ghost var seen: seq<Node> := [];
    if ready {
      m := OfferAll(m, local);
      assert [local][..0] == [];
      seen := [local];
    }
    for i := 0 to |members|
      invariant seen == Eligible(local, ready, members[..i])
      invariant forall part :: Lookup(m, part) == Best(part, seen)
    {
      assert members[..i + 1][..i] == members[..i];
      if members[i].name != local.name {
        m := OfferAll(m, members[i]);
        assert (seen + [members[i]])[..|seen|] == seen;
        seen := seen + [members[i]];
      }
    }
    assert members[..|members|] == members;
    GatheredParts(m, local, ready, members);
    forall part | part in m
      ensures AreCandidates(m[part], part, local, ready, members)
    {
      GatheredAre(m, part, local, ready, members);
    }
  }

  // ---------------------------------------------------------------------------------------------
  // Selection.

  /** Some candidate of the partition was selected, and this node if it goes first. */
  ghost predicate Covered(c: Candidates, answer: seq<Node>, name: int) {
    c.nodes != [] && exists i :: 0 <= i < |answer| && Among(answer[i], c.nodes)
                                 && (c.nodes[0].name == name ==> answer[i] == c.nodes[0])
  }

  /** The node was selected for a partition; this node goes first where it is a candidate. */
  ghost predicate Justified(n: Node, m: map<int, Candidates>, name: int) {
    exists part :: part in m && m[part].nodes != [] && Among(n, m[part].nodes)
                   && (m[part].nodes[0].name == name ==> n == m[part].nodes[0])
  }

  /** Looks for a candidate that was selected before. */
  method AnySelected(nodes: seq<Node>, selected: set<int>) returns (found: bool)
    ensures found <==> exists j :: 0 <= j < |nodes| && nodes[j].name in selected
  {
    for j := 0 to |nodes|
      invariant forall k :: 0 <= k < j ==> nodes[k].name !in selected
    {
      if nodes[j].name in selected {
        return true;
      }
    }
    return false;
  }

  /** The node that a partition adds to the selection, if any. */
  method Choose(c: Candidates, selected: set<int>, name: int, count: nat) returns (n: Option<Node>)
    requires c.nodes != []
    ensures n.Some? ==> Among(n.value, c.nodes) && n.value.name !in selected
                        && (c.nodes[0].name == name ==> n.value == c.nodes[0])
                        && (c.nodes[0].name != name ==> forall j :: 0 <= j < |c.nodes| ==> c.nodes[j].name !in selected)
    ensures n.None? ==> exists j :: 0 <= j < |c.nodes| && c.nodes[j].name in selected
                                    && (c.nodes[0].name == name ==> j == 0)
  {
    if c.nodes[0].name == name {
      n := if name in selected then None else Some(c.nodes[0]);
      return;
    }
    var found := AnySelected(c.nodes, selected);
    n := if found then None else Some(c.nodes[count % |c.nodes|]);
  }

  /** Partitions that share a candidate share all their candidates. */
  ghost predicate Grouped(m: map<int, Candidates>) {
    forall p, q, n :: p in m && q in m && Among(n, m[p].nodes) && Among(n, m[q].nodes) ==> m[p] == m[q]
  }

  /** No partition has two of its candidates selected. */
  ghost predicate Exclusive(answer: seq<Node>, m: map<int, Candidates>) {
    forall i, j, part :: 0 <= i < j < |answer| && part in m ==>
                           !(Among(answer[i], m[part].nodes) && Among(answer[j], m[part].nodes))
  }

  ghost predicate Sound(answer: seq<Node>, m: map<int, Candidates>, name: int) {
    && Named(answer)
    && (forall i :: 0 <= i < |answer| ==> Justified(answer[i], m, name))
    && (Grouped(m) ==> Exclusive(answer, m))
  }

  /** The candidates are nodes of the list. */
  ghost predicate From(m: map<int, Candidates>, all: seq<Node>) {
    forall part, j :: part in m && 0 <= j < |m[part].nodes| ==> Among(m[part].nodes[j], all)
  }

  /** Nodes are told apart by their names. */
  lemma SameName(all: seq<Node>, a: Node, b: Node)
    requires Named(all) && Among(a, all) && Among(b, all) && a.name == b.name
    ensures a == b
  {
    var i :| 0 <= i < |all| && all[i] == a;
    var j :| 0 <= j < |all| && all[j] == b;
  }

  ghost predicate NamesOf(selected: set<int>, answer: seq<Node>) {
    && (forall i :: 0 <= i < |answer| ==> answer[i].name in selected)
    && (forall x :: x in selected ==> exists i :: 0 <= i < |answer| && answer[i].name == x)
  }

  /** What Choose promises of the node that it adds. */
  ghost predicate Fresh(n: Node, c: Candidates, selected: set<int>, name: int) {
    && c.nodes != [] && Among(n, c.nodes) && n.name !in selected
    && (c.nodes[0].name == name ==> n == c.nodes[0])
    && (c.nodes[0].name != name ==> forall j :: 0 <= j < |c.nodes| ==> c.nodes[j].name !in selected)
  }

  /** A node that was selected for a partition with candidates c' is no candidate of one that adds another node. */
  lemma Elsewhere(y: Node, c': Candidates, n: Node, c: Candidates, selected: set<int>, name: int)
    requires y.name in selected && c'.nodes != [] && (c'.nodes[0].name == name ==> y == c'.nodes[0])
    requires Fresh(n, c, selected, name) && (Among(y, c.nodes) ==> c' == c)
    ensures !Among(y, c.nodes)
  {
  }

  lemma EarlierElsewhere(answer: seq<Node>, selected: set<int>, m: map<int, Candidates>, name: int, part: int, n: Node,
                         i: int)
    requires Sound(answer, m, name) && NamesOf(selected, answer) && Grouped(m)
    requires part in m && Fresh(n, m[part], selected, name) && 0 <= i < |answer|
    ensures !Among(answer[i], m[part].nodes)
  {
    var y := answer[i];
    assert Justified(y, m, name);
    var q :| q in m && m[q].nodes != [] && Among(y, m[q].nodes) && (m[q].nodes[0].name == name ==> y == m[q].nodes[0]);
    Elsewhere(y, m[q], n, m[part], selected, name);
  }

  lemma FreshApart(answer: seq<Node>, selected: set<int>, m: map<int, Candidates>, name: int, part: int, n: Node, i: int,
                   r: int)
    requires Sound(answer, m, name) && NamesOf(selected, answer) && Grouped(m)
    requires part in m && Fresh(n, m[part], selected, name) && 0 <= i < |answer| && r in m
    ensures !(Among(answer[i], m[r].nodes) && Among(n, m[r].nodes))
  {
    EarlierElsewhere(answer, selected, m, name, part, n, i);
    if Among(n, m[r].nodes) {
      assert m[r] == m[part];
    }
  }

  lemma AddSound(answer: seq<Node>, selected: set<int>, m: map<int, Candidates>, name: int, part: int, n: Node)
    requires Sound(answer, m, name) && NamesOf(selected, answer) && part in m && Fresh(n, m[part], selected, name)
    ensures Sound(answer + [n], m, name) && NamesOf(selected + {n.name}, answer + [n])
  {
    var all := answer + [n];
    assert all[|answer|] == n && Justified(n, m, name);
    assert forall i :: 0 <= i < |answer| ==> all[i] == answer[i];
    if Grouped(m) {
      forall i, j, r | 0 <= i < j < |all| && r in m
        ensures !(Among(all[i], m[r].nodes) && Among(all[j], m[r].nodes))
      {
        if j == |answer| {
          FreshApart(answer, selected, m, name, part, n, i, r);
        }
      }
    }
  }

  lemma NewlyCovered(c: Candidates, answer: seq<Node>, n: Node, name: int)
    requires c.nodes != [] && Among(n, c.nodes) && (c.nodes[0].name == name ==> n == c.nodes[0])
    ensures Covered(c, answer + [n], name)
  {
    assert (answer + [n])[|answer|] == n;
  }

  lemma StillCovered(c: Candidates, answer: seq<Node>, answer': seq<Node>, name: int)
    requires Covered(c, answer, name) && answer <= answer'
    ensures Covered(c, answer', name)
  {
    var i :| 0 <= i < |answer| && Among(answer[i], c.nodes) && (c.nodes[0].name == name ==> answer[i] == c.nodes[0]);
    assert answer'[i] == answer[i];
  }

  lemma JustifiedFrom(n: Node, m: map<int, Candidates>, name: int, all: seq<Node>)
    requires Justified(n, m, name) && From(m, all)
    ensures Among(n, all)
  {
    var q :| q in m && m[q].nodes != [] && Among(n, m[q].nodes) && (m[q].nodes[0].name == name ==> n == m[q].nodes[0]);
    var j :| 0 <= j < |m[q].nodes| && m[q].nodes[j] == n;
    assert Among(m[q].nodes[j], all);
  }

  /** A selected name that a candidate has is that candidate's. */
  lemma SelectedCovers(answer: seq<Node>, selected: set<int>, m: map<int, Candidates>, name: int, all: seq<Node>,
                       part: int, j: int)
    requires Sound(answer, m, name) && NamesOf(selected, answer) && Named(all) && From(m, all)
    requires part in m && 0 <= j < |m[part].nodes| && m[part].nodes[j].name in selected
    requires m[part].nodes[0].name == name ==> j == 0
    ensures Covered(m[part], answer, name)
  {
    var n := m[part].nodes[j];
    assert Among(n, all) && Among(n, m[part].nodes);
    var i :| 0 <= i < |answer| && answer[i].name == n.name;
    JustifiedFrom(answer[i], m, name, all);
    SameName(all, answer[i], n);
  }

  /** Makes sure that one partition has a selected candidate. */
  method Cover(m: map<int, Candidates>, name: int, count: nat, part: int, answer: seq<Node>, selected: set<int>,
               ghost all: seq<Node>)
    returns (answer': seq<Node>, selected': set<int>)
    requires Sound(answer, m, name) && NamesOf(selected, answer) && Named(all) && From(m, all)
    requires part in m && m[part].nodes != []
    ensures Sound(answer', m, name) && NamesOf(selected', answer') && answer <= answer'
    ensures Covered(m[part], answer', name)
  {
    answer', selected' := answer, selected;
    var n := Choose(m[part], selected, name, count);
    if n.Some? {
      AddSound(answer, selected, m, name, part, n.value);
      NewlyCovered(m[part], answer, n.value, name);
      answer', selected' := answer + [n.value], selected + {n.value.name};
    } else {
      ghost var j :| 0 <= j < |m[part].nodes| && m[part].nodes[j].name in selected
                     && (m[part].nodes[0].name == name ==> j == 0);
      SelectedCovers(answer, selected, m, name, all, part, j);
    }
  }

  /** Goes over the partitions in any order. */
  method Select(m: map<int, Candidates>, name: int, count: nat, ghost all: seq<Node>) returns (answer: seq<Node>)
    requires Named(all) && From(m, all) && forall part :: part in m ==> m[part].nodes != []
    ensures Sound(answer, m, name)
    ensures forall part :: part in m ==> Covered(m[part], answer, name)
  {
    answer := [];
    var selected: set<int> := {};
    var todo := m.Keys;
    while todo != {}
      invariant todo <= m.Keys && Sound(answer, m, name) && NamesOf(selected, answer)
      invariant forall part :: part in m && part !in todo ==> Covered(m[part], answer, name)
    {
      assert (forall x :: x !in todo) ==> todo == {};
      var part :| part in todo;
      ghost var before := answer;
      answer, selected := Cover(m, name, count, part, answer, selected, all);
      forall p | p in m && p !in todo
        ensures Covered(m[p], answer, name)
      {
        StillCovered(m[p], before, answer, name);
      }
      todo := todo - {part};
    }
  }

  // ---------------------------------------------------------------------------------------------
  // The whole query.

  /** The other members have different names. */
  ghost predicate Distinct(local: Node, members: seq<Node>) {
    forall i, j :: 0 <= i < j < |members| && members[i].name == members[j].name ==> members[i].name == local.name
  }

  lemma {:induction false} EligibleNamed(local: Node, ready: bool, members: seq<Node>)
    requires Distinct(local, members)
    ensures Named(Eligible(local, ready, members))
  {
    if members != [] {
      var init, n := members[..|members| - 1], members[|members| - 1];
      var rest := Eligible(local, ready, init);
      EligibleNamed(local, ready, init);
      if n.name != local.name {
        forall i | 0 <= i < |rest|
          ensures rest[i].name != n.name
        {
          EligibleIs(rest[i], local, ready, init);
        }
      }
    }
  }

  /** Partitions are assigned in groups to the nodes that can be asked. */
  ghost predicate InGroups(local: Node, ready: bool, members: seq<Node>) {
    forall a, b, part :: Holder(a, part, local, ready, members) && Holder(b, part, local, ready, members) ==>
                           a.partitions == b.partitions
  }

  lemma GroupsAreEqual(local: Node, ready: bool, members: seq<Node>)
    requires InGroups(local, ready, members)
    ensures EqualOrDisjoint(Eligible(local, ready, members))
  {
    var all := Eligible(local, ready, members);
    forall i, j, part | 0 <= i < |all| && 0 <= j < |all| && part in all[i].partitions && part in all[j].partitions
      ensures all[i].partitions == all[j].partitions
    {
      EligibleIs(all[i], local, ready, members);
      EligibleIs(all[j], local, ready, members);
      assert Holder(all[i], part, local, ready, members) && Holder(all[j], part, local, ready, members);
    }
  }

  /** Partitions are assigned to nodes in groups. */
  ghost predicate EqualOrDisjoint(nodes: seq<Node>) {
    forall i, j, part :: 0 <= i < |nodes| && 0 <= j < |nodes|
                         && part in nodes[i].partitions && part in nodes[j].partitions
                         ==> nodes[i].partitions == nodes[j].partitions
  }

  lemma GatheredFrom(m: map<int, Candidates>, all: seq<Node>)
    requires Gathered(m, all)
    ensures From(m, all) && forall part :: part in m ==> m[part].nodes != []
  {
    forall part | part in m
      ensures m[part].nodes != [] && forall j :: 0 <= j < |m[part].nodes| ==> Among(m[part].nodes[j], all)
    {
      GatheredIs(m, all, part);
    }
  }

  /** In groups, two partitions of one node have the same candidates. */
  lemma GroupShares(m: map<int, Candidates>, all: seq<Node>, p: int, q: int, n: Node)
    requires Gathered(m, all) && EqualOrDisjoint(all) && p in m && q in m
    requires Among(n, all) && p in n.partitions && q in n.partitions
    ensures m[p] == m[q]
  {
    var k :| 0 <= k < |all| && all[k] == n;
    forall i | 0 <= i < |all|
      ensures p in all[i].partitions <==> q in all[i].partitions
    {
      if p in all[i].partitions || q in all[i].partitions {
        assert all[i].partitions == all[k].partitions;
      }
    }
    SameBest(p, q, all);
    GatheredIs(m, all, p);
    GatheredIs(m, all, q);
  }

  lemma GroupsAreGrouped(m: map<int, Candidates>, all: seq<Node>)
    requires Gathered(m, all) && EqualOrDisjoint(all)
    ensures Grouped(m)
  {
    forall p, q, n | p in m && q in m && Among(n, m[p].nodes) && Among(n, m[q].nodes)
      ensures m[p] == m[q]
    {
      CandidateHolds(m, all, p, n);
      CandidateHolds(m, all, q, n);
      GroupShares(m, all, p, q, n);
    }
  }

  /** Every partition that can be asked for has a preferred holder in the answer. */
  ghost predicate Covers(answer: seq<Node>, local: Node, ready: bool, members: seq<Node>) {
    forall part :: part in Parts(local, ready, members) ==>
                     exists i :: 0 <= i < |answer| && Preferred(answer[i], part, local, ready, members)
  }

  /** The node is a preferred holder of some partition. */
  ghost predicate Useful(n: Node, local: Node, ready: bool, members: seq<Node>) {
    exists part :: Preferred(n, part, local, ready, members)
  }

  /** No node is in the answer for nothing. */
  ghost predicate Needed(answer: seq<Node>, local: Node, ready: bool, members: seq<Node>) {
    forall i :: 0 <= i < |answer| ==> Useful(answer[i], local, ready, members)
  }

  /** No partition is held by two nodes of the answer. */
  ghost predicate Apart(answer: seq<Node>) {
    forall i, j :: 0 <= i < j < |answer| ==> answer[i].partitions !! answer[j].partitions
  }

  lemma SelectionCovers(answer: seq<Node>, m: map<int, Candidates>, local: Node, ready: bool, members: seq<Node>)
    requires Gathered(m, Eligible(local, ready, members))
    requires forall part :: part in m ==> Covered(m[part], answer, local.name)
    ensures Covers(answer, local, ready, members)
  {
    GatheredParts(m, local, ready, members);
    forall part | part in m
      ensures exists i :: 0 <= i < |answer| && Preferred(answer[i], part, local, ready, members)
    {
      var i :| 0 <= i < |answer| && Among(answer[i], m[part].nodes)
               && (m[part].nodes[0].name == local.name ==> answer[i] == m[part].nodes[0]);
      GatheredAre(m, part, local, ready, members);
    }
  }

  lemma JustifiedUseful(n: Node, m: map<int, Candidates>, local: Node, ready: bool, members: seq<Node>)
    requires Gathered(m, Eligible(local, ready, members)) && Justified(n, m, local.name)
    ensures Useful(n, local, ready, members)
  {
    var q :| q in m && m[q].nodes != [] && Among(n, m[q].nodes)
             && (m[q].nodes[0].name == local.name ==> n == m[q].nodes[0]);
    GatheredAre(m, q, local, ready, members);
    assert Preferred(n, q, local, ready, members);
  }

  lemma SelectionNeeded(answer: seq<Node>, m: map<int, Candidates>, local: Node, ready: bool, members: seq<Node>)
    requires Gathered(m, Eligible(local, ready, members)) && Sound(answer, m, local.name)
    ensures Needed(answer, local, ready, members)
  {
    forall i | 0 <= i < |answer|
      ensures Useful(answer[i], local, ready, members)
    {
      JustifiedUseful(answer[i], m, local, ready, members);
    }
  }

  /** A selected node that holds a partition is a candidate for it, if partitions are assigned in groups. */
  lemma HolderIsCandidate(m: map<int, Candidates>, all: seq<Node>, name: int, n: Node, part: int)
    requires Gathered(m, all) && EqualOrDisjoint(all) && Justified(n, m, name) && part in n.partitions
    ensures part in m && Among(n, m[part].nodes)
  {
    var q :| q in m && m[q].nodes != [] && Among(n, m[q].nodes) && (m[q].nodes[0].name == name ==> n == m[q].nodes[0]);
    CandidateHolds(m, all, q, n);
    var k :| 0 <= k < |all| && all[k] == n;
    assert Held(part, all);
    GatheredIs(m, all, part);
    GroupShares(m, all, part, q, n);
  }

  lemma SelectionApart(answer: seq<Node>, m: map<int, Candidates>, all: seq<Node>, name: int)
    requires Gathered(m, all) && EqualOrDisjoint(all) && Sound(answer, m, name)
    ensures Apart(answer)
  {
    GroupsAreGrouped(m, all);
    forall i, j, part | 0 <= i < j < |answer| && part in answer[i].partitions
      ensures part !in answer[j].partitions
    {
      HolderIsCandidate(m, all, name, answer[i], part);
      if part in answer[j].partitions {
        HolderIsCandidate(m, all, name, answer[j], part);
      }
    }
  }

  lemma LocalIsFirst(local: Node, ready: bool, members: seq<Node>)
    ensures ready ==> Eligible(local, ready, members) != [] && Eligible(local, ready, members)[0] == local
  {
  }

  /** This node is selected if it is a best holder of some partition. */
  lemma LocalSelected(answer: seq<Node>, m: map<int, Candidates>, all: seq<Node>, local: Node, part: int)
    requires Gathered(m, all) && Named(all) && all != [] && all[0] == local && BestHolder(local, part, all)
    requires forall p :: p in m ==> Covered(m[p], answer, local.name)
    ensures Among(local, answer)
  {
    assert part in all[0].partitions && Held(part, all);
    GatheredIs(m, all, part);
    assert m[part].nodes[0] in all && part in m[part].nodes[0].partitions;
    assert m[part].priority == local.priority;
    LocalFirst(part, all);
  }

  /** The nodes to ask so that every partition is covered; none if too few partitions can be asked for. */
  method MembersForQuery(local: Node, ready: bool, members: seq<Node>, minAvailableShards: int, count: nat)
    returns (ok: bool, answer: seq<Node>)
    requires Distinct(local, members)
    ensures ok <==> minAvailableShards <= |Parts(local, ready, members)|
    ensures !ok ==> answer == []
    ensures ok ==> Named(answer) && Covers(answer, local, ready, members) && Needed(answer, local, ready, members)
    ensures ok && InGroups(local, ready, members) ==> Apart(answer)
    ensures ok && ready ==> forall part :: Preferred(local, part, local, ready, members) ==> Among(local, answer)
  {
    ghost var all := Eligible(local, ready, members);
    var m := Gather(local, ready, members);
    if |m.Keys| < minAvailableShards {
      return false, [];
    }
    GatheredFrom(m, all);
    EligibleNamed(local, ready, members);
    answer := Select(m, local.name, count, all);
    SelectionCovers(answer, m, local, ready, members);
    SelectionNeeded(answer, m, local, ready, members);
    if InGroups(local, ready, members) {
      GroupsAreEqual(local, ready, members);
      SelectionApart(answer, m, all, local.name);
    }
    LocalIsFirst(local, ready, members);
    if ready {
      forall part | Preferred(local, part, local, ready, members)
        ensures Among(local, answer)
      {
        HolderIs(local, part, local, ready, members);
        LocalSelected(answer, m, all, local, part);
      }
    }
    ok := true;
  }
}
