/** The assembly loops and what they promise: an induced subgraph, no dangling edge, honest degrees. */
module GraphAssembly {
  import opened Prelude
  import opened ActorGraph

  // ---- pieces of the result ------------------------------------------------

  predicate OwnedWithin(a: Actor, dids: set<string>) {
    Owner(a).Some? && Owner(a).value in dids
  }

  predicate LinkedWithin(l: Link, dids: set<string>) {
    l.fromDid in dids && l.toDid in dids
  }

  function ConnectedSet(actors: seq<Actor>, links: seq<Link>): set<string> {
    var present := Dids(actors);
    (set a | a in actors && OwnedWithin(a, present) :: a.did)
    + (set a | a in actors && OwnedWithin(a, present) :: Owner(a).value)
    + (set l | l in links && LinkedWithin(l, present) :: l.fromDid)
    + (set l | l in links && LinkedWithin(l, present) :: l.toDid)
  }

  function OwnershipEdge(a: Actor): Edge
    requires Owner(a).Some?
  {
    Edge("own:" + a.did, Owner(a).value, a.did, Ownership, "")
  }

  function LinkEdge(l: Link): Edge {
    Edge(l.id, l.fromDid, l.toDid, Relationship, l.text)
  }

  function OwnershipEdges(kept: seq<Actor>, dids: set<string>): seq<Edge> {
    if kept == [] then []
    else
      var n := |kept| - 1;
      OwnershipEdges(kept[..n], dids) + if OwnedWithin(kept[n], dids) then [OwnershipEdge(kept[n])] else []
  }

  function LinkEdges(links: seq<Link>, dids: set<string>): seq<Edge> {
    if links == [] then []
    else
      var n := |links| - 1;
      LinkEdges(links[..n], dids) + if LinkedWithin(links[n], dids) then [LinkEdge(links[n])] else []
  }

  function ActorNodes(kept: seq<Actor>): seq<Node> {
    seq(|kept|, i requires 0 <= i < |kept| => Node(kept[i].did, ActorNode, kept[i].name, kept[i].workspaceId, 0))
  }

  /** `new Map(workspaces.map(...))`: the last row of an id wins. */
  function WorkspaceById(workspaces: seq<Workspace>): map<string, Workspace> {
    if workspaces == [] then map[]
    else WorkspaceById(workspaces[..|workspaces| - 1])[workspaces[|workspaces| - 1].id := workspaces[|workspaces| - 1]]
  }

  function HubId(workspaceId: string): string {
    "ws:" + workspaceId
  }

  /** The workspace a kept actor is drawn under, if its row is known. */
  function HubOf(a: Actor, byId: map<string, Workspace>): Option<string> {
    if Truthy(a.workspaceId).Some? && a.workspaceId.value in byId then a.workspaceId else None
  }

  /** Members per workspace, and workspaces by first appearance: a JavaScript Map's two halves. */
  function Members(kept: seq<Actor>, byId: map<string, Workspace>): map<string, seq<string>> {
    if kept == [] then map[]
    else
      var n := |kept| - 1;
      var before, hub := Members(kept[..n], byId), HubOf(kept[n], byId);
      if hub.None? then before
      else before[hub.value := (if hub.value in before then before[hub.value] else []) + [kept[n].did]]
  }

  function HubOrder(kept: seq<Actor>, byId: map<string, Workspace>): seq<string> {
    if kept == [] then []
    else
      var n := |kept| - 1;
      var before, hub := HubOrder(kept[..n], byId), HubOf(kept[n], byId);
      if hub.None? || hub.value in Members(kept[..n], byId) then before else before + [hub.value]
  }

  function HubNodes(order: seq<string>, byId: map<string, Workspace>): seq<Node> {
    if order == [] then []
    else
      var w := order[|order| - 1];
      HubNodes(order[..|order| - 1], byId)
      + [Node(HubId(w), WorkspaceNode, if w in byId then byId[w].name else "", Some(w), 0)]
  }

  function MemberEdge(w: string, did: string): Edge {
    Edge("ws:" + w + ":" + did, HubId(w), did, Membership, "")
  }

  function MemberEdges(w: string, members: seq<string>): seq<Edge> {
    seq(|members|, i requires 0 <= i < |members| => MemberEdge(w, members[i]))
  }

  function HubEdges(order: seq<string>, members: map<string, seq<string>>): seq<Edge> {
    if order == [] then []
    else
      var w := order[|order| - 1];
      HubEdges(order[..|order| - 1], members) + MemberEdges(w, if w in members then members[w] else [])
  }

  /** How many edge ends meet a node; a self-loop counts twice. */
  function DegreeOf(links: seq<Edge>, id: string): nat {
    if links == [] then 0
    else
      var e := links[|links| - 1];
      DegreeOf(links[..|links| - 1], id) + (if e.source == id then 1 else 0) + (if e.target == id then 1 else 0)
  }

  function WithDegreesOf(nodes: seq<Node>, links: seq<Edge>): seq<Node> {
    seq(|nodes|, i requires 0 <= i < |nodes| => nodes[i].(degree := DegreeOf(links, nodes[i].id)))
  }

  function Kept(actors: seq<Actor>, links: seq<Link>, cap: Option<int>, pinned: set<string>): seq<Actor> {
    SelectWithinCap(actors, cap, ConnectedSet(actors, links), pinned)
  }

  function Assembled(actors: seq<Actor>, links: seq<Link>, workspaces: seq<Workspace>, hubs: bool, cap: Option<int>,
                     pinned: set<string>): Graph {
    var kept := Kept(actors, links, cap, pinned);
    var byId := WorkspaceById(workspaces);
    var order := if hubs then HubOrder(kept, byId) else [];
    var edges := OwnershipEdges(kept, Dids(kept)) + LinkEdges(links, Dids(kept)) + HubEdges(order, Members(kept, byId));
    Graph(WithDegreesOf(ActorNodes(kept) + HubNodes(order, byId), edges), edges, |actors|, |kept| < |actors|)
  }

  // ---- the loops --------------------------------------------------------------

  method CollectConnected(actors: seq<Actor>, links: seq<Link>) returns (connected: set<string>)
    ensures connected == ConnectedSet(actors, links)
  {
    var present := Dids(actors);
    connected := {};
    for i := 0 to |actors|
      invariant forall x :: x in connected <==>
          exists k :: 0 <= k < i && OwnedWithin(actors[k], present)
            && (x == actors[k].did || x == Owner(actors[k]).value)
    {
      if OwnedWithin(actors[i], present) {
        connected := connected + {actors[i].did} + {Owner(actors[i]).value};
      }
    }
    ghost var owned := connected;
    for i := 0 to |links|
      invariant forall x :: x in connected <==>
          x in owned
          || exists k :: 0 <= k < i && LinkedWithin(links[k], present) && (x == links[k].fromDid || x == links[k].toDid)
    {
      if LinkedWithin(links[i], present) {
        connected := connected + {links[i].fromDid} + {links[i].toDid};
      }
    }
    forall x ensures x in connected <==> x in ConnectedSet(actors, links) {
      if x in owned {
        var k :| 0 <= k < |actors| && OwnedWithin(actors[k], present)
          && (x == actors[k].did || x == Owner(actors[k]).value);
        assert actors[k] in actors;
      } else if x in connected {
        var k :| 0 <= k < |links| && LinkedWithin(links[k], present) && (x == links[k].fromDid || x == links[k].toDid);
        assert links[k] in links;
      }
    }
  }

  method WithDegrees(nodes: seq<Node>, links: seq<Edge>) returns (out: seq<Node>)
    ensures out == WithDegreesOf(nodes, links)
  {
    var counts: map<string, nat> := map[];
    for i := 0 to |links|
      invariant forall id :: Tally(counts, id) == DegreeOf(links[..i], id)
    {
      assert links[..i + 1][..i] == links[..i];
      counts := counts[links[i].source := Tally(counts, links[i].source) + 1];
      counts := counts[links[i].target := Tally(counts, links[i].target) + 1];
    }
    assert links[..|links|] == links;
    out := [];
    for i := 0 to |nodes|
      invariant |out| == i && forall k :: 0 <= k < i ==> out[k] == nodes[k].(degree := DegreeOf(links, nodes[k].id))
    {
      out := out + [nodes[i].(degree := Tally(counts, nodes[i].id))];
    }
  }

  /** The order lists each workspace with a member once, and only those. */
  lemma {:induction false} OrderCoversMembers(kept: seq<Actor>, byId: map<string, Workspace>)
    ensures forall w :: w in HubOrder(kept, byId) <==> w in Members(kept, byId)
    ensures forall w :: w in Members(kept, byId) ==> w in byId
    ensures Distinct(HubOrder(kept, byId))
  {
    if kept != [] {
      OrderCoversMembers(kept[..|kept| - 1], byId);
    }
  }

  method DrawHubs(order: seq<string>, members: map<string, seq<string>>, byId: map<string, Workspace>,
                  nodes: seq<Node>, links: seq<Edge>)
    returns (nodes': seq<Node>, links': seq<Edge>)
    requires forall i :: 0 <= i < |order| ==> order[i] in members && order[i] in byId
    ensures nodes' == nodes + HubNodes(order, byId)
    ensures links' == links + HubEdges(order, members)
  {
    nodes', links' := nodes, links;
    for i := 0 to |order|
      invariant nodes' == nodes + HubNodes(order[..i], byId)
      invariant links' == links + HubEdges(order[..i], members)
    {
      assert order[..i + 1][..i] == order[..i];
      var w := order[i];
      nodes' := nodes' + [Node(HubId(w), WorkspaceNode, byId[w].name, Some(w), 0)];
      links' := links' + MemberEdges(w, members[w]);
    }
    assert order[..|order|] == order;
  }

  method GroupMembers(kept: seq<Actor>, byId: map<string, Workspace>)
    returns (members: map<string, seq<string>>, order: seq<string>)
    ensures members == Members(kept, byId) && order == HubOrder(kept, byId)
  {
    members, order := map[], [];
    for i := 0 to |kept|
      invariant members == Members(kept[..i], byId) && order == HubOrder(kept[..i], byId)
    {
      assert kept[..i + 1][..i] == kept[..i];
      var hub := HubOf(kept[i], byId);
      if hub.None? {
        continue;
      }
      var w := hub.value;
      if w in members {
        members := members[w := members[w] + [kept[i].did]];
      } else {
        assert [] + [kept[i].did] == [kept[i].did];
        members := members[w := [kept[i].did]];
        order := order + [w];
      }
    }
    assert kept[..|kept|] == kept;
  }

  method AddHubs(kept: seq<Actor>, byId: map<string, Workspace>, nodes: seq<Node>, links: seq<Edge>)
    returns (nodes': seq<Node>, links': seq<Edge>)
    ensures nodes' == nodes + HubNodes(HubOrder(kept, byId), byId)
    ensures links' == links + HubEdges(HubOrder(kept, byId), Members(kept, byId))
  {
    var members, order := GroupMembers(kept, byId);
    OrderCoversMembers(kept, byId);
    nodes', links' := DrawHubs(order, members, byId, nodes, links);
  }

  method AssembleActorGraph(actors: seq<Actor>, links: seq<Link>, workspaces: seq<Workspace>,
                            workspaceNodes: bool, cap: Option<int>, pinned: set<string>) returns (g: Graph)
    ensures g == Assembled(actors, links, workspaces, workspaceNodes, cap, pinned)
  {
    var connected := CollectConnected(actors, links);
    var kept := SelectWithinCap(actors, cap, connected, pinned);
    var keptDids := Dids(kept);
    var truncated := |kept| < |actors|;
    var byId := WorkspaceById(workspaces);
    var nodes := ActorNodes(kept);
    var graphLinks: seq<Edge> := [];
    for i := 0 to |kept|
      invariant graphLinks == OwnershipEdges(kept[..i], keptDids)
    {
      assert kept[..i + 1][..i] == kept[..i];
      if OwnedWithin(kept[i], keptDids) {
        graphLinks := graphLinks + [OwnershipEdge(kept[i])];
      }
    }
    assert kept[..|kept|] == kept;
    ghost var owned := graphLinks;
    for i := 0 to |links|
      invariant graphLinks == owned + LinkEdges(links[..i], keptDids)
    {
      assert links[..i + 1][..i] == links[..i];
      if !LinkedWithin(links[i], keptDids) {
        continue;
      }
      graphLinks := graphLinks + [LinkEdge(links[i])];
    }
    assert links[..|links|] == links;
    ghost var drawn := graphLinks;
    if workspaceNodes {
      nodes, graphLinks := AddHubs(kept, byId, nodes, graphLinks);
    } else {
      assert nodes + [] == nodes && graphLinks + [] == graphLinks;
    }
    var out := WithDegrees(nodes, graphLinks);
    return Graph(out, graphLinks, |actors|, truncated);
  }
}
