/** An assembled graph in its rows' own fields: nodes, edges, hubs, degrees, and which actors the cap keeps. */
module GraphFields {
  import opened Prelude
  import opened ActorGraph
  import opened GraphAssembly
  import opened GraphPromises

  // ---- who is kept ---------------------------------------------------------------

  /** Among actors of equal standing the cap keeps the most recently registered. */
  lemma NewestAreKept(actors: seq<Actor>, links: seq<Link>, cap: Option<int>, pinned: set<string>, k: Actor, d: Actor)
    requires DistinctDids(actors)
    requires k in Kept(actors, links, cap, pinned) && d in actors && d !in Kept(actors, links, cap, pinned)
    requires k.did in pinned <==> d.did in pinned
    requires Connected(k.did, actors, links) <==> Connected(d.did, actors, links)
    ensures d.registeredAt <= k.registeredAt
  {
    ConnectedSetMeans(actors, links, k.did);
    ConnectedSetMeans(actors, links, d.did);
    var connected := ConnectedSet(actors, links);
    assert RanksAtLeast(k, d, connected, pinned) by {
      KeptIsTheFront(actors, cap.value, connected, pinned);
    }
  }

  /** A capped graph shows its actors pinned first, then connected, then the rest, the newest first in each. */
  lemma ShownInRankOrder(actors: seq<Actor>, links: seq<Link>, cap: int, pinned: set<string>, i: int, j: int)
    requires DistinctDids(actors) && |actors| > cap && 0 <= i < j < |Kept(actors, links, Some(cap), pinned)|
    ensures var kept := Kept(actors, links, Some(cap), pinned);
            var a, b := kept[i], kept[j];
            && (b.did in pinned ==> a.did in pinned)
            && (a.did !in pinned && Connected(b.did, actors, links) ==> Connected(a.did, actors, links))
            && ((a.did in pinned <==> b.did in pinned)
                && (Connected(a.did, actors, links) <==> Connected(b.did, actors, links)) ==>
                  b.registeredAt <= a.registeredAt)
  {
    var kept := Kept(actors, links, Some(cap), pinned);
    ConnectedSetMeans(actors, links, kept[i].did);
    ConnectedSetMeans(actors, links, kept[j].did);
    KeptIsTheFront(actors, cap, ConnectedSet(actors, links), pinned);
    assert RanksAtLeast(kept[i], kept[j], ConnectedSet(actors, links), pinned);
  }

  // ---- edges ----------------------------------------------------------------------

  predicate Among(did: string, kept: seq<Actor>) {
    exists i :: 0 <= i < |kept| && kept[i].did == did
  }

  lemma AmongExactly(did: string, kept: seq<Actor>)
    ensures did in Dids(kept) <==> Among(did, kept)
  {
    if did in Dids(kept) {
      var a :| a in kept && a.did == did;
      var i :| 0 <= i < |kept| && kept[i] == a;
    }
    if i :| 0 <= i < |kept| && kept[i].did == did {
      assert kept[i] in kept;
    }
  }

  predicate OwnedBy(e: Edge, a: Actor, o: string) {
    a.ownerDid == Some(o) && o != "" && e == Edge("own:" + a.did, o, a.did, Ownership, "")
  }

  /** From a kept owner to the kept actor it owns. */
  ghost predicate IsOwnership(e: Edge, kept: seq<Actor>) {
    exists a, o :: a in kept && Among(o, kept) && OwnedBy(e, a, o)
  }

  /** A link row between two kept actors, in its own direction and with its own text. */
  ghost predicate IsLink(e: Edge, links: seq<Link>, kept: seq<Actor>) {
    exists l :: l in links && Among(l.fromDid, kept) && Among(l.toDid, kept)
                && e == Edge(l.id, l.fromDid, l.toDid, Relationship, l.text)
  }

  predicate KnownWorkspace(w: string, workspaces: seq<Workspace>) {
    exists i :: 0 <= i < |workspaces| && workspaces[i].id == w
  }

  predicate Files(a: Actor, w: string, workspaces: seq<Workspace>) {
    a.workspaceId == Some(w) && w != "" && KnownWorkspace(w, workspaces)
  }

  predicate FiledBy(e: Edge, a: Actor, w: string) {
    e == Edge("ws:" + w + ":" + a.did, "ws:" + w, a.did, Membership, "")
  }

  /** From the hub of a known workspace to a kept actor filed there. */
  ghost predicate IsMembership(e: Edge, kept: seq<Actor>, workspaces: seq<Workspace>) {
    exists a, w :: a in kept && Files(a, w, workspaces) && FiledBy(e, a, w)
  }

  predicate LastOfId(workspaces: seq<Workspace>, w: string, i: int) {
    0 <= i < |workspaces| && workspaces[i].id == w && forall j :: i < j < |workspaces| ==> workspaces[j].id != w
  }

  lemma LastStaysLast(workspaces: seq<Workspace>, w: string, i: int)
    requires workspaces != [] && workspaces[|workspaces| - 1].id != w
    requires LastOfId(workspaces[..|workspaces| - 1], w, i)
    ensures LastOfId(workspaces, w, i) && workspaces[i] == workspaces[..|workspaces| - 1][i]
  {
    var rest := workspaces[..|workspaces| - 1];
    assert forall j :: 0 <= j < |rest| ==> workspaces[j] == rest[j];
  }

  /** A workspace is known if some row has its id, and stands for the last such row. */
  lemma {:induction false} WorkspacesById(workspaces: seq<Workspace>, w: string)
    ensures w in WorkspaceById(workspaces) <==> KnownWorkspace(w, workspaces)
    ensures w in WorkspaceById(workspaces) ==>
              exists i :: 0 <= i < |workspaces| && workspaces[i].id == w
                && WorkspaceById(workspaces)[w] == workspaces[i]
                          && forall j :: i < j < |workspaces| ==> workspaces[j].id != w
  {
    if workspaces != [] {
      var n := |workspaces| - 1;
      WorkspacesById(workspaces[..n], w);
      if workspaces[n].id != w && w in WorkspaceById(workspaces[..n]) {
        var i :| LastOfId(workspaces[..n], w, i) && WorkspaceById(workspaces[..n])[w] == workspaces[..n][i];
        LastStaysLast(workspaces, w, i);
      } else if workspaces[n].id == w {
        assert LastOfId(workspaces, w, n);
      }
      if i :| 0 <= i < n && workspaces[i].id == w {
        assert workspaces[..n][i].id == w;
      }
    }
  }

  lemma HubOfExactly(a: Actor, workspaces: seq<Workspace>, w: string)
    ensures HubOf(a, WorkspaceById(workspaces)) == Some(w) <==> Files(a, w, workspaces)
  {
    WorkspacesById(workspaces, w);
  }

  lemma OwnershipExactly(kept: seq<Actor>, e: Edge)
    ensures e in OwnershipEdges(kept, Dids(kept)) <==> IsOwnership(e, kept)
  {
    OwnershipMeans(kept, Dids(kept));
    forall a | a in kept && a.ownerDid.Some? ensures OwnedWithin(a, Dids(kept))
      <==> a.ownerDid.value != "" && Among(a.ownerDid.value, kept) {
      AmongExactly(a.ownerDid.value, kept);
    }
    if a, o :| a in kept && Among(o, kept) && OwnedBy(e, a, o) {
      assert OwnedWithin(a, Dids(kept)) && e == OwnershipEdge(a);
    }
  }

  lemma LinkExactly(links: seq<Link>, kept: seq<Actor>, e: Edge)
    ensures e in LinkEdges(links, Dids(kept)) <==> IsLink(e, links, kept)
  {
    LinksMean(links, Dids(kept));
    forall did ensures did in Dids(kept) <==> Among(did, kept) {
      AmongExactly(did, kept);
    }
  }

  lemma MembershipInFields(kept: seq<Actor>, workspaces: seq<Workspace>, e: Edge)
    ensures var byId := WorkspaceById(workspaces);
            e in HubEdges(HubOrder(kept, byId), Members(kept, byId)) <==> IsMembership(e, kept, workspaces)
  {
    var byId := WorkspaceById(workspaces);
    HubEdgesMean(HubOrder(kept, byId), Members(kept, byId));
    OrderCoversMembers(kept, byId);
    if w :| w in HubOrder(kept, byId) && DrawnUnder(e, w, Members(kept, byId)) {
      MembersMean(kept, byId, w, e.target);
      var i :| 0 <= i < |kept| && HubOf(kept[i], byId) == Some(w) && kept[i].did == e.target;
      HubOfExactly(kept[i], workspaces, w);
      assert kept[i] in kept;
    }
    if a, w :| a in kept && Files(a, w, workspaces) && FiledBy(e, a, w) {
      HubOfExactly(a, workspaces, w);
      var i :| 0 <= i < |kept| && kept[i] == a;
      assert FiledUnder(kept, byId, w, a.did);
      MembersMean(kept, byId, w, a.did);
      assert DrawnUnder(e, w, Members(kept, byId));
    }
  }

  /** Every edge of every graph: an ownership, a link or, with hubs, a membership, and nothing else. */
  lemma EdgesExactly(actors: seq<Actor>, links: seq<Link>, workspaces: seq<Workspace>, hubs: bool, cap: Option<int>,
                     pinned: set<string>, e: Edge)
    ensures var kept := Kept(actors, links, cap, pinned);
            e in Assembled(actors, links, workspaces, hubs, cap, pinned).links
            <==> IsOwnership(e, kept) || IsLink(e, links, kept) || (hubs && IsMembership(e, kept, workspaces))
  {
    var kept := Kept(actors, links, cap, pinned);
    OwnershipExactly(kept, e);
    LinkExactly(links, kept, e);
    MembershipInFields(kept, workspaces, e);
    assert HubEdges([], Members(kept, WorkspaceById(workspaces))) == [];
  }

  // ---- nodes ----------------------------------------------------------------------

  function Leaving(links: seq<Edge>, id: string): set<int> {
    set i | 0 <= i < |links| && links[i].source == id
  }

  function Arriving(links: seq<Edge>, id: string): set<int> {
    set i | 0 <= i < |links| && links[i].target == id
  }

  lemma LeavingGrows(links: seq<Edge>, id: string)
    requires links != []
    ensures var n := |links| - 1;
            |Leaving(links, id)| == |Leaving(links[..n], id)| + if links[n].source == id then 1 else 0
  {
    var n := |links| - 1;
    assert Leaving(links, id) == Leaving(links[..n], id) + if links[n].source == id then {n} else {};
  }

  lemma ArrivingGrows(links: seq<Edge>, id: string)
    requires links != []
    ensures var n := |links| - 1;
            |Arriving(links, id)| == |Arriving(links[..n], id)| + if links[n].target == id then 1 else 0
  {
    var n := |links| - 1;
    assert Arriving(links, id) == Arriving(links[..n], id) + if links[n].target == id then {n} else {};
  }

  /** A degree is the number of edges leaving a node plus the number arriving. */
  lemma {:induction false} DegreeExactly(links: seq<Edge>, id: string)
    ensures DegreeOf(links, id) == |Leaving(links, id)| + |Arriving(links, id)|
  {
    if links != [] {
      DegreeExactly(links[..|links| - 1], id);
      LeavingGrows(links, id);
      ArrivingGrows(links, id);
    }
  }

  lemma {:induction false} HubNodesAre(order: seq<string>, byId: map<string, Workspace>)
    requires forall w :: w in order ==> w in byId
    ensures |HubNodes(order, byId)| == |order|
    ensures forall i :: 0 <= i < |order| ==>
              HubNodes(order, byId)[i] == Node("ws:" + order[i], WorkspaceNode, byId[order[i]].name, Some(order[i]), 0)
  {
    if order != [] {
      var n := |order| - 1;
      assert order == order[..n] + [order[n]];
      HubNodesAre(order[..n], byId);
    }
  }

  lemma DrawnNodes(a: seq<Node>, b: seq<Node>, links: seq<Edge>)
    ensures var nodes := WithDegreesOf(a + b, links);
            && |nodes| == |a| + |b|
            && (forall i :: 0 <= i < |a| ==> nodes[i] == a[i].(degree := DegreeOf(links, a[i].id)))
            && (forall i :: 0 <= i < |b| ==> nodes[|a| + i] == b[i].(degree := DegreeOf(links, b[i].id)))
  {
  }

  /** The nodes: first one per kept actor, in order, with its row's fields and its degree. */
  lemma ActorNodesExactly(actors: seq<Actor>, links: seq<Link>, workspaces: seq<Workspace>, hubs: bool,
                          cap: Option<int>, pinned: set<string>, i: int)
    requires 0 <= i < |Kept(actors, links, cap, pinned)|
    ensures var g, a := Assembled(actors, links, workspaces, hubs, cap, pinned), Kept(actors, links, cap, pinned)[i];
            i < |g.nodes| && g.nodes[i] == Node(a.did, ActorNode, a.name, a.workspaceId, DegreeOf(g.links, a.did))
  {
    var kept, byId := Kept(actors, links, cap, pinned), WorkspaceById(workspaces);
    var g := Assembled(actors, links, workspaces, hubs, cap, pinned);
    DrawnNodes(ActorNodes(kept), HubNodes(if hubs then HubOrder(kept, byId) else [], byId), g.links);
  }

  predicate HubDrawn(n: Node, w: string, byId: map<string, Workspace>, links: seq<Edge>) {
    w in byId && n == Node("ws:" + w, WorkspaceNode, byId[w].name, Some(w), DegreeOf(links, "ws:" + w))
  }

  lemma HubNodeDrawn(bare: Node, n: Node, w: string, byId: map<string, Workspace>, links: seq<Edge>)
    requires w in byId && bare == Node("ws:" + w, WorkspaceNode, byId[w].name, Some(w), 0)
    requires n == bare.(degree := DegreeOf(links, bare.id))
    ensures HubDrawn(n, w, byId, links)
  {
  }

  lemma HubNodesDrawn(kept: seq<Actor>, order: seq<string>, byId: map<string, Workspace>, links: seq<Edge>)
    requires forall w :: w in order ==> w in byId
    ensures var nodes := WithDegreesOf(ActorNodes(kept) + HubNodes(order, byId), links);
            && |nodes| == |kept| + |order|
            && forall i :: 0 <= i < |order| ==> HubDrawn(nodes[|kept| + i], order[i], byId, links)
  {
    var a, b := ActorNodes(kept), HubNodes(order, byId);
    HubNodesAre(order, byId);
    DrawnNodes(a, b, links);
    var nodes := WithDegreesOf(a + b, links);
    forall i | 0 <= i < |order| ensures HubDrawn(nodes[|kept| + i], order[i], byId, links) {
      HubNodeDrawn(b[i], nodes[|a| + i], order[i], byId, links);
    }
  }

  /** Then one per hub, named after its workspace, with its degree. */
  lemma HubNodesExactly(actors: seq<Actor>, links: seq<Link>, workspaces: seq<Workspace>, cap: Option<int>,
                        pinned: set<string>)
    ensures var kept, byId := Kept(actors, links, cap, pinned), WorkspaceById(workspaces);
            var g, order := Assembled(actors, links, workspaces, true, cap, pinned), HubOrder(kept, byId);
            && |g.nodes| == |kept| + |order|
            && forall i :: 0 <= i < |order| ==> HubDrawn(g.nodes[|kept| + i], order[i], byId, g.links)
  {
    var kept, byId := Kept(actors, links, cap, pinned), WorkspaceById(workspaces);
    OrderCoversMembers(kept, byId);
    HubNodesDrawn(kept, HubOrder(kept, byId), byId, Assembled(actors, links, workspaces, true, cap, pinned).links);
  }

  /** Without hubs there is no other node. */
  lemma NoHubNodes(actors: seq<Actor>, links: seq<Link>, workspaces: seq<Workspace>, cap: Option<int>,
                   pinned: set<string>)
    ensures |Assembled(actors, links, workspaces, false, cap, pinned).nodes| == |Kept(actors, links, cap, pinned)|
  {
  }

  /** Some actor is filed under `v` before any is filed under `w`. */
  ghost predicate NamedFirst(kept: seq<Actor>, workspaces: seq<Workspace>, v: string, w: string) {
    exists m :: 0 <= m < |kept| && Files(kept[m], v, workspaces) && forall k :: 0 <= k <= m ==>
      !Files(kept[k], w, workspaces)
  }

  lemma NamedFirstStays(rest: seq<Actor>, last: Actor, workspaces: seq<Workspace>, v: string, w: string)
    requires NamedFirst(rest, workspaces, v, w)
    ensures NamedFirst(rest + [last], workspaces, v, w)
  {
    var m :| 0 <= m < |rest| && Files(rest[m], v, workspaces) && forall k :: 0 <= k <= m ==>
      !Files(rest[k], w, workspaces);
    assert forall k :: 0 <= k <= m ==> (rest + [last])[k] == rest[k];
  }

  /** The hubs: each known workspace that a kept actor is filed under, once, in the order the actors first name them. */
  lemma {:induction false} HubsExactly(kept: seq<Actor>, workspaces: seq<Workspace>)
    ensures var order := HubOrder(kept, WorkspaceById(workspaces));
            && Distinct(order)
            && (forall w :: w in order <==> exists a :: a in kept && Files(a, w, workspaces))
            && (forall i, j :: 0 <= i < j < |order| ==> NamedFirst(kept, workspaces, order[i], order[j]))
  {
    var byId := WorkspaceById(workspaces);
    OrderCoversMembers(kept, byId);
    if kept != [] {
      var n := |kept| - 1;
      var rest, last := kept[..n], kept[n];
      assert kept == rest + [last];
      HubsExactly(rest, workspaces);
      forall w ensures HubOf(last, byId) == Some(w) <==> Files(last, w, workspaces) {
        HubOfExactly(last, workspaces, w);
      }
      OrderCoversMembers(rest, byId);
      var before, order := HubOrder(rest, byId), HubOrder(kept, byId);
      forall i, j | 0 <= i < j < |order| ensures NamedFirst(kept, workspaces, order[i], order[j]) {
        if j < |before| {
          NamedFirstStays(rest, last, workspaces, before[i], before[j]);
        } else {
          assert order[i] in before;
          var a :| a in rest && Files(a, order[i], workspaces);
          var m :| 0 <= m < n && rest[m] == a;
          assert Files(kept[m], order[i], workspaces);
          forall k | 0 <= k <= m ensures !Files(kept[k], order[j], workspaces) {
            assert kept[k] in rest;
          }
        }
      }
    }
  }

  // ---- members, in order ------------------------------------------------------------

  /** The dids filed under a workspace, in the order of the kept actors. */
  function FiledDids(kept: seq<Actor>, workspaces: seq<Workspace>, w: string): seq<string> {
    if kept == [] then []
    else
      var n := |kept| - 1;
      FiledDids(kept[..n], workspaces, w) + if Files(kept[n], w, workspaces) then [kept[n].did] else []
  }

  lemma {:induction false} MembersInOrder(kept: seq<Actor>, workspaces: seq<Workspace>, w: string)
    ensures var members := Members(kept, WorkspaceById(workspaces));
            (if w in members then members[w] else []) == FiledDids(kept, workspaces, w)
  {
    if kept != [] {
      MembersInOrder(kept[..|kept| - 1], workspaces, w);
      HubOfExactly(kept[|kept| - 1], workspaces, w);
    }
  }
}
