/** What an assembled graph promises its reader. */
module GraphPromises {
  import opened Prelude
  import opened ActorGraph
  import opened GraphAssembly

  // ---- edges are exactly the induced ones ----------------------------------

  lemma DistinctAppend<T>(s: seq<T>, x: T)
    requires Distinct(s) && x !in s
    ensures Distinct(s + [x])
  {
  }

  lemma OwnEdgesDiffer(kept: seq<Actor>, dids: set<string>)
    requires DistinctDids(kept) && kept != [] && OwnedWithin(kept[|kept| - 1], dids)
    ensures forall a :: a in kept[..|kept| - 1] && OwnedWithin(a, dids) ==>
              OwnershipEdge(a) != OwnershipEdge(kept[|kept| - 1])
  {
    var n := |kept| - 1;
    forall a | a in kept[..n] && OwnedWithin(a, dids) ensures OwnershipEdge(a) != OwnershipEdge(kept[n]) {
      var i :| 0 <= i < n && kept[..n][i] == a;
      assert OwnershipEdge(kept[i]).target != OwnershipEdge(kept[n]).target;
    }
  }

  lemma {:induction false} OwnershipMeans(kept: seq<Actor>, dids: set<string>)
    ensures forall e ::
              e in OwnershipEdges(kept, dids)
              <==> exists a :: a in kept && OwnedWithin(a, dids) && e == OwnershipEdge(a)
    ensures DistinctDids(kept) ==> Distinct(OwnershipEdges(kept, dids))
  {
    if kept != [] {
      var n := |kept| - 1;
      OwnershipMeans(kept[..n], dids);
      assert kept == kept[..n] + [kept[n]];
      if DistinctDids(kept) && OwnedWithin(kept[n], dids) {
        OwnEdgesDiffer(kept, dids);
        DistinctAppend(OwnershipEdges(kept[..n], dids), OwnershipEdge(kept[n]));
      }
    }
  }

  lemma {:induction false} LinksMean(links: seq<Link>, dids: set<string>)
    ensures forall e ::
              e in LinkEdges(links, dids) <==> exists l :: l in links && LinkedWithin(l, dids) && e == LinkEdge(l)
    ensures DistinctLinkIds(links) ==> Distinct(LinkEdges(links, dids))
  {
    if links != [] {
      var n := |links| - 1;
      LinksMean(links[..n], dids);
      assert links == links[..n] + [links[n]];
      if DistinctLinkIds(links) && LinkedWithin(links[n], dids) {
        forall l | l in links[..n] ensures LinkEdge(l) != LinkEdge(links[n]) {
          var i :| 0 <= i < n && links[..n][i] == l;
          assert links[i].id != links[n].id;
          assert LinkEdge(l).id == l.id;
        }
        DistinctAppend(LinkEdges(links[..n], dids), LinkEdge(links[n]));
      }
    }
  }

  predicate IsMember(members: map<string, seq<string>>, w: string, did: string) {
    w in members && did in members[w]
  }

  ghost predicate FiledUnder(kept: seq<Actor>, byId: map<string, Workspace>, w: string, did: string) {
    exists i :: 0 <= i < |kept| && HubOf(kept[i], byId) == Some(w) && kept[i].did == did
  }

  /** Memberships join a hub to exactly the actors kept in its workspace. */
  lemma {:induction false} MembersMean(kept: seq<Actor>, byId: map<string, Workspace>, w: string, did: string)
    ensures IsMember(Members(kept, byId), w, did) <==> FiledUnder(kept, byId, w, did)
  {
    if kept != [] {
      var n := |kept| - 1;
      var rest := kept[..n];
      MembersMean(rest, byId, w, did);
      assert IsMember(Members(kept, byId), w, did)
             <==> IsMember(Members(rest, byId), w, did) || (HubOf(kept[n], byId) == Some(w) && kept[n].did == did);
      if FiledUnder(rest, byId, w, did) {
        var i :| 0 <= i < |rest| && HubOf(rest[i], byId) == Some(w) && rest[i].did == did;
        assert kept[i] == rest[i];
      }
      if FiledUnder(kept, byId, w, did) {
        var i :| 0 <= i < |kept| && HubOf(kept[i], byId) == Some(w) && kept[i].did == did;
        assert i < n ==> rest[i] == kept[i];
      }
    }
  }

  predicate DrawnUnder(e: Edge, w: string, members: map<string, seq<string>>) {
    w in members && e.target in members[w] && e == MemberEdge(w, e.target)
  }

  lemma {:induction false} HubEdgesMean(order: seq<string>, members: map<string, seq<string>>)
    ensures forall e :: e in HubEdges(order, members) <==> exists w :: w in order && DrawnUnder(e, w, members)
  {
    if order != [] {
      var n := |order| - 1;
      HubEdgesMean(order[..n], members);
      assert order == order[..n] + [order[n]];
      var w := order[n];
      var dids := if w in members then members[w] else [];
      forall e ensures e in MemberEdges(w, dids) <==> DrawnUnder(e, w, members) {
        if DrawnUnder(e, w, members) {
          var i :| 0 <= i < |dids| && dids[i] == e.target;
          assert MemberEdges(w, dids)[i] == e;
        }
      }
    }
  }

  lemma {:induction false} HubNodesMean(order: seq<string>, byId: map<string, Workspace>)
    ensures forall w :: w in order ==>
              exists i :: 0 <= i < |HubNodes(order, byId)| && HubNodes(order, byId)[i].id == HubId(w)
    ensures forall i :: 0 <= i < |HubNodes(order, byId)| ==> HubNodes(order, byId)[i].kind == WorkspaceNode
  {
    if order != [] {
      var n := |order| - 1;
      HubNodesMean(order[..n], byId);
      assert order == order[..n] + [order[n]];
      var before, all := HubNodes(order[..n], byId), HubNodes(order, byId);
      assert all[|before|].id == HubId(order[n]);
      forall w | w in order[..n] ensures exists i :: 0 <= i < |all| && all[i].id == HubId(w) {
        var i :| 0 <= i < |before| && before[i].id == HubId(w);
        assert all[i].id == HubId(w);
      }
    }
  }

  ghost predicate HasId(nodes: seq<Node>, id: string) {
    exists i :: 0 <= i < |nodes| && nodes[i].id == id
  }

  ghost predicate HasNode(g: Graph, id: string) {
    HasId(g.nodes, id)
  }

  lemma KindsSeparate(own: seq<Edge>, rel: seq<Edge>)
    requires Distinct(own) && Distinct(rel)
    requires (forall e :: e in own ==> e.kind == Ownership) && (forall e :: e in rel ==> e.kind == Relationship)
    ensures Distinct(own + rel)
  {
    forall i, j | 0 <= i < j < |own + rel| ensures (own + rel)[i] != (own + rel)[j] {
      if i < |own| && j >= |own| {
        assert own[i] in own && rel[j - |own|] in rel;
      }
    }
  }

  /**
   * The induced subgraph on the kept actors: an ownership edge exactly for each kept actor
   * whose owner is kept, a relationship edge exactly for each link row between two kept
   * actors, and each of them once.
   */
  lemma InducedSubgraph(actors: seq<Actor>, links: seq<Link>, workspaces: seq<Workspace>, hubs: bool,
                        cap: Option<int>, pinned: set<string>)
    requires DistinctDids(actors) && DistinctLinkIds(links)
    ensures var g, kept := Assembled(actors, links, workspaces, hubs, cap, pinned), Kept(actors, links, cap, pinned);
            && (forall e ::
                  e in g.links && e.kind == Ownership
                  <==> exists a :: a in kept && OwnedWithin(a, Dids(kept)) && e == OwnershipEdge(a))
            && (forall e ::
                  e in g.links && e.kind == Relationship
                  <==> exists l :: l in links && LinkedWithin(l, Dids(kept)) && e == LinkEdge(l))
            && Distinct(OwnershipEdges(kept, Dids(kept)) + LinkEdges(links, Dids(kept)))
  {
    var kept, byId := Kept(actors, links, cap, pinned), WorkspaceById(workspaces);
    CapKeepsTheBest(actors, cap, ConnectedSet(actors, links), pinned);
    OwnershipMeans(kept, Dids(kept));
    LinksMean(links, Dids(kept));
    HubEdgesMean(if hubs then HubOrder(kept, byId) else [], Members(kept, byId));
    KindsSeparate(OwnershipEdges(kept, Dids(kept)), LinkEdges(links, Dids(kept)));
  }

  lemma NodeOfKept(actors: seq<Actor>, links: seq<Link>, workspaces: seq<Workspace>, hubs: bool, cap: Option<int>,
                   pinned: set<string>, id: string)
    requires id in Dids(Kept(actors, links, cap, pinned))
    ensures HasNode(Assembled(actors, links, workspaces, hubs, cap, pinned), id)
  {
    var g, kept := Assembled(actors, links, workspaces, hubs, cap, pinned), Kept(actors, links, cap, pinned);
    var a :| a in kept && a.did == id;
    var i :| 0 <= i < |kept| && kept[i] == a;
    assert g.nodes[i].id == id;
  }

  lemma SecondPart(a: seq<Node>, b: seq<Node>, links: seq<Edge>, id: string)
    requires HasId(b, id)
    ensures HasId(WithDegreesOf(a + b, links), id)
  {
    var i :| 0 <= i < |b| && b[i].id == id;
    assert WithDegreesOf(a + b, links)[|a| + i].id == id;
  }

  lemma NodeOfHub(actors: seq<Actor>, links: seq<Link>, workspaces: seq<Workspace>, cap: Option<int>,
                  pinned: set<string>, w: string)
    requires w in HubOrder(Kept(actors, links, cap, pinned), WorkspaceById(workspaces))
    ensures HasNode(Assembled(actors, links, workspaces, true, cap, pinned), HubId(w))
  {
    var g, kept := Assembled(actors, links, workspaces, true, cap, pinned), Kept(actors, links, cap, pinned);
    var order, byId := HubOrder(kept, WorkspaceById(workspaces)), WorkspaceById(workspaces);
    HubNodesMean(order, byId);
    SecondPart(ActorNodes(kept), HubNodes(order, byId), g.links, HubId(w));
  }

  /** No edge of any kind has a missing endpoint. */
  lemma NoDanglingEdge(actors: seq<Actor>, links: seq<Link>, workspaces: seq<Workspace>, hubs: bool,
                       cap: Option<int>, pinned: set<string>, e: Edge)
    requires e in Assembled(actors, links, workspaces, hubs, cap, pinned).links
    ensures HasNode(Assembled(actors, links, workspaces, hubs, cap, pinned), e.source)
    ensures HasNode(Assembled(actors, links, workspaces, hubs, cap, pinned), e.target)
  {
    var kept, byId := Kept(actors, links, cap, pinned), WorkspaceById(workspaces);
    var order, dids := (if hubs then HubOrder(kept, byId) else []), Dids(kept);
    OwnershipMeans(kept, dids);
    LinksMean(links, dids);
    HubEdgesMean(order, Members(kept, byId));
    if e in HubEdges(order, Members(kept, byId)) {
      var w :| w in order && DrawnUnder(e, w, Members(kept, byId));
      MembersMean(kept, byId, w, e.target);
      var i :| 0 <= i < |kept| && HubOf(kept[i], byId) == Some(w) && kept[i].did == e.target;
      assert kept[i] in kept;
      NodeOfHub(actors, links, workspaces, cap, pinned, w);
      NodeOfKept(actors, links, workspaces, hubs, cap, pinned, e.target);
    } else {
      assert e.source in dids && e.target in dids;
      NodeOfKept(actors, links, workspaces, hubs, cap, pinned, e.source);
      NodeOfKept(actors, links, workspaces, hubs, cap, pinned, e.target);
    }
  }

  /** A membership edge joins a hub to an actor exactly when the actor is kept and filed under that known workspace. */
  lemma MembershipExactly(actors: seq<Actor>, links: seq<Link>, workspaces: seq<Workspace>, cap: Option<int>,
                          pinned: set<string>, e: Edge)
    ensures var kept, byId := Kept(actors, links, cap, pinned), WorkspaceById(workspaces);
            e in Assembled(actors, links, workspaces, true, cap, pinned).links && e.kind == Membership
            <==> exists w :: FiledUnder(kept, byId, w, e.target) && e == MemberEdge(w, e.target)
  {
    var kept, byId := Kept(actors, links, cap, pinned), WorkspaceById(workspaces);
    var order, members := HubOrder(kept, byId), Members(kept, byId);
    OwnershipMeans(kept, Dids(kept));
    LinksMean(links, Dids(kept));
    HubEdgesMean(order, members);
    OrderCoversMembers(kept, byId);
    forall w
      ensures w in order && DrawnUnder(e, w, members)
              <==> FiledUnder(kept, byId, w, e.target) && e == MemberEdge(w, e.target)
    {
      MembersMean(kept, byId, w, e.target);
    }
  }

  // ---- the cap, end to end ------------------------------------------------

  /** How many actors are shown, and when the graph admits to hiding some. */
  lemma TruncationIsHonest(actors: seq<Actor>, links: seq<Link>, workspaces: seq<Workspace>, hubs: bool,
                           cap: Option<int>, pinned: set<string>)
    requires DistinctDids(actors)
    ensures var g := Assembled(actors, links, workspaces, hubs, cap, pinned);
            && (g.truncated <==> cap.Some? && |actors| > cap.value && actors != [])
            && g.totalActors == |actors|
            && (cap.Some? && cap.value >= 0 ==> |Kept(actors, links, cap, pinned)| <= cap.value)
  {
    CapKeepsTheBest(actors, cap, ConnectedSet(actors, links), pinned);
  }

  lemma ConnectedSetMeans(actors: seq<Actor>, links: seq<Link>, did: string)
    ensures did in ConnectedSet(actors, links) <==> Connected(did, actors, links)
  {
  }

  /** The cap never prefers an isolated actor to one with a relationship, nor any actor to a pinned one that fits. */
  lemma CapPrefersRelationships(actors: seq<Actor>, links: seq<Link>, cap: Option<int>, pinned: set<string>,
                                k: Actor, d: Actor)
    requires DistinctDids(actors)
    requires k in Kept(actors, links, cap, pinned) && d in actors && d !in Kept(actors, links, cap, pinned)
    ensures k.did !in pinned ==> d.did !in pinned
    ensures k.did !in pinned && !Connected(k.did, actors, links) ==> !Connected(d.did, actors, links)
    ensures d.did in pinned ==> CountPinned(actors, pinned) > cap.value
  {
    ConnectedSetMeans(actors, links, k.did);
    ConnectedSetMeans(actors, links, d.did);
    NoIsolatedBeforeConnected(actors, cap, ConnectedSet(actors, links), pinned, k, d);
    if d.did in pinned && (cap.Some? ==> CountPinned(actors, pinned) <= cap.value) {
      PinnedSurvive(actors, cap, ConnectedSet(actors, links), pinned, d);
    }
  }

  // ---- degrees ----------------------------------------------------------------

  function SumDegrees(nodes: seq<Node>): nat {
    if nodes == [] then 0 else SumDegrees(nodes[..|nodes| - 1]) + nodes[|nodes| - 1].degree
  }

  predicate DistinctNodeIds(nodes: seq<Node>) {
    forall i, j :: 0 <= i < j < |nodes| ==> nodes[i].id != nodes[j].id
  }

  /** How many nodes carry an id: at most one. */
  function Carriers(nodes: seq<Node>, id: string): nat {
    if nodes == [] then 0 else Carriers(nodes[..|nodes| - 1], id) + if nodes[|nodes| - 1].id == id then 1 else 0
  }

  lemma {:induction false} NoCarrier(nodes: seq<Node>, id: string)
    requires forall i :: 0 <= i < |nodes| ==> nodes[i].id != id
    ensures Carriers(nodes, id) == 0
  {
    if nodes != [] {
      NoCarrier(nodes[..|nodes| - 1], id);
    }
  }

  lemma {:induction false} CarrierIsOne(nodes: seq<Node>, i: nat)
    requires DistinctNodeIds(nodes) && i < |nodes|
    ensures Carriers(nodes, nodes[i].id) == 1
  {
    var n := |nodes| - 1;
    if i < n {
      CarrierIsOne(nodes[..n], i);
      assert nodes[..n][i] == nodes[i];
    } else {
      NoCarrier(nodes[..n], nodes[n].id);
    }
  }

  /** Adding an edge adds its two ends to the sum. */
  lemma {:induction false} SumGrows(nodes: seq<Node>, links: seq<Edge>, e: Edge)
    ensures SumDegrees(WithDegreesOf(nodes, links + [e]))
            == SumDegrees(WithDegreesOf(nodes, links)) + Carriers(nodes, e.source) + Carriers(nodes, e.target)
  {
    if nodes != [] {
      var n := |nodes| - 1;
      SumGrows(nodes[..n], links, e);
      assert WithDegreesOf(nodes, links + [e])[..n] == WithDegreesOf(nodes[..n], links + [e]);
      assert WithDegreesOf(nodes, links)[..n] == WithDegreesOf(nodes[..n], links);
      assert (links + [e])[..|links|] == links;
    }
  }

  lemma {:induction false} SumOfNone(nodes: seq<Node>)
    ensures SumDegrees(WithDegreesOf(nodes, [])) == 0
  {
    if nodes != [] {
      SumOfNone(nodes[..|nodes| - 1]);
      assert WithDegreesOf(nodes, [])[..|nodes| - 1] == WithDegreesOf(nodes[..|nodes| - 1], []);
    }
  }

  /** The handshake: with no dangling edge and distinct nodes, the degrees shown add up to twice the edges drawn. */
  lemma {:induction false} Handshake(nodes: seq<Node>, links: seq<Edge>)
    requires DistinctNodeIds(nodes)
    requires forall e :: e in links ==> HasId(nodes, e.source) && HasId(nodes, e.target)
    ensures SumDegrees(WithDegreesOf(nodes, links)) == 2 * |links|
  {
    if links == [] {
      SumOfNone(nodes);
    } else {
      var n := |links| - 1;
      var e := links[n];
      assert links == links[..n] + [e];
      Handshake(nodes, links[..n]);
      SumGrows(nodes, links[..n], e);
      var i :| 0 <= i < |nodes| && nodes[i].id == e.source;
      var j :| 0 <= j < |nodes| && nodes[j].id == e.target;
      CarrierIsOne(nodes, i);
      CarrierIsOne(nodes, j);
    }
  }

  lemma SameIds(bare: seq<Node>, links: seq<Edge>)
    ensures forall id :: HasId(WithDegreesOf(bare, links), id) ==> HasId(bare, id)
    ensures DistinctNodeIds(WithDegreesOf(bare, links)) ==> DistinctNodeIds(bare)
  {
    var counted := WithDegreesOf(bare, links);
    assert forall i :: 0 <= i < |bare| ==> counted[i].id == bare[i].id;
  }

  /** Every assembled graph whose node ids are distinct passes the handshake. */
  lemma DegreesAddUp(actors: seq<Actor>, links: seq<Link>, workspaces: seq<Workspace>, hubs: bool, cap: Option<int>,
                     pinned: set<string>)
    requires DistinctNodeIds(Assembled(actors, links, workspaces, hubs, cap, pinned).nodes)
    ensures var g := Assembled(actors, links, workspaces, hubs, cap, pinned);
            SumDegrees(g.nodes) == 2 * |g.links|
  {
    var g := Assembled(actors, links, workspaces, hubs, cap, pinned);
    var kept, byId := Kept(actors, links, cap, pinned), WorkspaceById(workspaces);
    var bare := ActorNodes(kept) + HubNodes(if hubs then HubOrder(kept, byId) else [], byId);
    SameIds(bare, g.links);
    forall e | e in g.links ensures HasId(bare, e.source) && HasId(bare, e.target) {
      NoDanglingEdge(actors, links, workspaces, hubs, cap, pinned, e);
    }
    Handshake(bare, g.links);
  }
}
