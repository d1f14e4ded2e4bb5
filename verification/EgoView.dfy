/** The whole ego view: crawl, assemble, trim (buildEgoGraph in lib/actor-graph.ts). */
module EgoView {
  import opened Prelude
  import opened ActorGraph
  import opened GraphAssembly
  import opened BreadthFirst
  import opened EgoCrawl
  import GraphPromises
  import EgoTrim

  const EGO_NODE_CAP := 300

  /** The assembled graph the trim starts from: no cap of its own, no hubs. */
  function Whole(found: seq<Actor>, links: seq<Link>, workspaces: seq<Workspace>, root: string): Graph {
    Assembled(found, links, workspaces, false, None, {root})
  }

  /** The parts of that graph. */
  ghost predicate Draws(g: Graph, found: seq<Actor>, links: seq<Link>) {
    && g.links == OwnershipEdges(found, Dids(found)) + LinkEdges(links, Dids(found))
    && g.nodes == WithDegreesOf(ActorNodes(found), g.links)
    && g.totalActors == |found| && !g.truncated
  }

  lemma WholeDraws(found: seq<Actor>, links: seq<Link>, workspaces: seq<Workspace>, root: string)
    ensures Draws(Whole(found, links, workspaces, root), found, links)
  {
    assert Kept(found, links, None, {root}) == found;
    assert HubNodes([], WorkspaceById(workspaces)) == []
           && HubEdges([], Members(found, WorkspaceById(workspaces))) == [];
    assert ActorNodes(found) + [] == ActorNodes(found);
  }

  lemma {:induction false} NodesById(nodes: seq<Node>)
    ensures forall i :: 0 <= i < |nodes| ==> nodes[i].id in EgoTrim.NodeById(nodes)
    ensures forall id :: id in EgoTrim.NodeById(nodes) ==>
              exists i :: 0 <= i < |nodes| && nodes[i].id == id && nodes[i] == EgoTrim.NodeById(nodes)[id]
  {
    if nodes != [] {
      var n := |nodes| - 1;
      var rest := nodes[..n];
      NodesById(rest);
      forall i | 0 <= i < n ensures nodes[i].id in EgoTrim.NodeById(nodes) { assert rest[i] == nodes[i]; }
      forall id | id in EgoTrim.NodeById(nodes)
        ensures exists i :: 0 <= i < |nodes| && nodes[i].id == id && nodes[i] == EgoTrim.NodeById(nodes)[id]
      {
        if id != nodes[n].id {
          var i :| 0 <= i < |rest| && rest[i].id == id && rest[i] == EgoTrim.NodeById(rest)[id];
          assert nodes[i] == rest[i];
        }
      }
    }
  }

  function Shown(g: Graph): set<string> {
    set i | 0 <= i < |g.nodes| :: g.nodes[i].id
  }

  lemma NodeIdsAreDids(g: Graph, found: seq<Actor>, links: seq<Link>)
    requires Draws(g, found, links)
    ensures Shown(g) == Dids(found) && EgoTrim.NodeById(g.nodes).Keys == Dids(found)
    ensures forall id :: !EgoTrim.IsHub(EgoTrim.NodeById(g.nodes), id)
    ensures |g.nodes| == |found| && forall i :: 0 <= i < |found| ==> g.nodes[i].id == found[i].did
  {
    NodesById(g.nodes);
    forall d | d in Dids(found) ensures d in Shown(g) && d in EgoTrim.NodeById(g.nodes) {
      var a :| a in found && a.did == d;
      var i :| 0 <= i < |found| && found[i] == a;
      assert g.nodes[i].id == d;
    }
    forall i | 0 <= i < |g.nodes| ensures g.nodes[i].id in Dids(found) && g.nodes[i].kind == ActorNode {
      assert found[i] in found;
    }
  }

  lemma {:induction false} AdjacencyMeans(links: seq<Edge>, byId: map<string, Node>, x: string, y: string)
    ensures y in EgoTrim.Adjacency(links, byId, x)
            <==> exists e ::
                   && e in links && e.source in byId && e.target in byId
                   && ((e.source == x && e.target == y) || (e.target == x && e.source == y))
  {
    if links != [] {
      var n := |links| - 1;
      AdjacencyMeans(links[..n], byId, x, y);
      assert links == links[..n] + [links[n]];
    }
  }

  /** Where the trim may go: to the other end of an edge between two nodes, and from anywhere but a workspace. */
  lemma StepsExactly(g: Graph, x: string, y: string)
    requires GraphPromises.DistinctNodeIds(g.nodes)
    ensures y in EgoTrim.Steps(g)(x)
            <==> && (forall n :: n in g.nodes && n.id == x ==> n.kind != WorkspaceNode)
                 && exists e ::
                      && e in g.links && ((e.source == x && e.target == y) || (e.target == x && e.source == y))
                      && GraphPromises.HasNode(g, e.source) && GraphPromises.HasNode(g, e.target)
  {
    var byId := EgoTrim.NodeById(g.nodes);
    NodesById(g.nodes);
    AdjacencyMeans(g.links, byId, x, y);
    forall id ensures id in byId <==> GraphPromises.HasNode(g, id) { }
    if x in byId {
      var i :| 0 <= i < |g.nodes| && g.nodes[i].id == x && g.nodes[i] == byId[x];
      assert g.nodes[i] in g.nodes;
      forall n | n in g.nodes && n.id == x ensures n == byId[x] {
        var j :| 0 <= j < |g.nodes| && g.nodes[j] == n;
        assert j == i;
      }
    }
  }

  /** In the drawn graph every step stays inside it. */
  lemma StepsStayInside(g: Graph, found: seq<Actor>, links: seq<Link>)
    requires Draws(g, found, links)
    ensures forall x, y :: y in EgoTrim.Steps(g)(x) ==> y in Dids(found)
  {
    NodeIdsAreDids(g, found, links);
    forall x, y | y in EgoTrim.Steps(g)(x) ensures y in Dids(found) {
      AdjacencyMeans(g.links, EgoTrim.NodeById(g.nodes), x, y);
    }
  }

  /** Both ends of an edge are a step apart. */
  lemma EdgeIsStep(g: Graph, found: seq<Actor>, links: seq<Link>, e: Edge)
    requires Draws(g, found, links) && e in g.links && e.source in Dids(found) && e.target in Dids(found)
    ensures e.target in EgoTrim.Steps(g)(e.source) && e.source in EgoTrim.Steps(g)(e.target)
  {
    NodeIdsAreDids(g, found, links);
    AdjacencyMeans(g.links, EgoTrim.NodeById(g.nodes), e.source, e.target);
    AdjacencyMeans(g.links, EgoTrim.NodeById(g.nodes), e.target, e.source);
  }

  lemma FoundRow(db: Db, found: seq<Actor>, a: Actor)
    requires ValidDb(db) && (forall b :: b in found ==> b in db.actors) && a in db.actors && a.did in Dids(found)
    ensures a in found
  {
    var b :| b in found && b.did == a.did;
    SameDidSameRow(db, a, b);
  }

  /** Every hop out of an expanded actor can be retraced in the drawn graph. */
  lemma HopsAreDrawn(db: Db, g: Graph, found: seq<Actor>, links: seq<Link>, expanded: set<string>, p: string, y: string)
    requires ValidDb(db) && (forall a :: a in found ==> a in db.actors) && TouchingLinks(db, links, expanded)
             && Draws(g, found, links)
    requires p in expanded && p in Dids(found) && y in Dids(found) && Adjacent(db, p, y)
    ensures y in EgoTrim.Steps(g)(p)
  {
    var dids := Dids(found);
    if a :| a in db.actors && a.did == p && Owner(a) == Some(y) {
      FoundRow(db, found, a);
      GraphPromises.OwnershipMeans(found, dids);
      assert OwnershipEdge(a) in g.links;
      EdgeIsStep(g, found, links, OwnershipEdge(a));
    } else if a :| a in db.actors && a.did == y && Owner(a) == Some(p) {
      FoundRow(db, found, a);
      GraphPromises.OwnershipMeans(found, dids);
      assert OwnershipEdge(a) in g.links;
      EdgeIsStep(g, found, links, OwnershipEdge(a));
    } else {
      var l :| l in db.links && ((l.fromDid == p && l.toDid == y) || (l.fromDid == y && l.toDid == p));
      assert l in links;
      GraphPromises.LinksMean(links, dids);
      assert LinkEdge(l) in g.links;
      EdgeIsStep(g, found, links, LinkEdge(l));
    }
  }

  ghost predicate OneStepNearer(near: Neighbours, level: map<string, nat>, p: string, y: string) {
    p in level && y in level && level[p] + 1 == level[y] && y in near(p)
  }

  ghost predicate Nearer(near: Neighbours, k: set<string>, level: map<string, nat>, y: string) {
    exists p :: p in k && OneStepNearer(near, level, p, y)
  }

  lemma BallStep(near: Neighbours, root: string, n: nat, p: string, y: string)
    requires p in Ball(near, root, n) && y in near(p)
    ensures y in Ball(near, root, n + 1)
  {
    assert y in Around(near, Ball(near, root, n));
  }

  lemma {:induction false} WithinLevel(k: set<string>, root: string, level: map<string, nat>, near: Neighbours,
                                       y: string)
    requires level.Keys == k && root in k && level[root] == 0
    requires forall z {:trigger Nearer(near, k, level, z)} :: z in k && z != root ==> Nearer(near, k, level, z)
    requires y in k
    ensures y in Ball(near, root, level[y])
    decreases level[y]
  {
    if y != root {
      assert Nearer(near, k, level, y);
      var p :| p in k && OneStepNearer(near, level, p, y);
      WithinLevel(k, root, level, near, p);
      BallStep(near, root, level[p], p, y);
    }
  }

  lemma {:induction false} BallStaysInside(near: Neighbours, k: set<string>, root: string, n: nat)
    requires root in k && forall x, y :: y in near(x) ==> y in k
    ensures Ball(near, root, n) <= k
  {
    if n > 0 {
      BallStaysInside(near, k, root, n - 1);
    }
  }

  /** Everything the crawl collected is still within reach in the drawn graph. */
  lemma TrimSeesEverything(db: Db, g: Graph, found: seq<Actor>, links: seq<Link>, root: string,
                           expanded: set<string>, level: map<string, nat>, depth: nat)
    requires ValidDb(db) && (forall a :: a in found ==> a in db.actors) && TouchingLinks(db, links, expanded)
             && Draws(g, found, links)
    requires expanded <= Dids(found) && Levels(db, root, Dids(found), expanded, level, depth)
    ensures Ball(EgoTrim.Steps(g), root, depth) == Dids(found)
  {
    var near, k := EgoTrim.Steps(g), Dids(found);
    StepsStayInside(g, found, links);
    BallStaysInside(near, k, root, depth);
    forall p, z | p in expanded && z in k && z in Near(db)(p) ensures z in near(p) {
      HopsAreDrawn(db, g, found, links, expanded, p, z);
    }
    forall z | z in k && z != root ensures Nearer(near, k, level, z) {
      assert HasParent(db, expanded, level, z);
      var p :| p in expanded && p in level && level[p] + 1 == level[z] && z in Near(db)(p);
      assert OneStepNearer(near, level, p, z);
    }
    forall y | y in k ensures y in Ball(near, root, depth) {
      WithinLevel(k, root, level, near, y);
      BallGrows(near, root, level[y], depth);
    }
  }

  lemma DrawnEndsShown(g: Graph, found: seq<Actor>, links: seq<Link>)
    requires Draws(g, found, links)
    ensures forall e :: e in g.links ==> e.source in Dids(found) && e.target in Dids(found)
  {
    GraphPromises.OwnershipMeans(found, Dids(found));
    GraphPromises.LinksMean(links, Dids(found));
    forall e | e in g.links ensures e.source in Dids(found) && e.target in Dids(found) {
      if e in OwnershipEdges(found, Dids(found)) {
        var a :| a in found && OwnedWithin(a, Dids(found)) && e == OwnershipEdge(a);
      } else {
        var l :| l in links && LinkedWithin(l, Dids(found)) && e == LinkEdge(l);
      }
    }
  }

  lemma DegreesTwice(nodes: seq<Node>, links: seq<Edge>)
    ensures WithDegreesOf(WithDegreesOf(nodes, links), links) == WithDegreesOf(nodes, links)
  {
  }

  lemma NodesKept(g: Graph, found: seq<Actor>, links: seq<Link>)
    requires Draws(g, found, links)
    ensures EgoTrim.KeepNodes(g.nodes, Dids(found)) == g.nodes
  {
    NodeIdsAreDids(g, found, links);
    forall n | n in g.nodes ensures n.id in Dids(found) {
      var i :| 0 <= i < |g.nodes| && g.nodes[i] == n;
      assert found[i] in found;
    }
    EgoTrim.KeepsNodes(g.nodes, Dids(found));
  }

  lemma EdgesKept(g: Graph, found: seq<Actor>, links: seq<Link>)
    requires Draws(g, found, links)
    ensures EgoTrim.KeepEdges(g.links, Dids(found)) == g.links
  {
    DrawnEndsShown(g, found, links);
    EgoTrim.KeepsEdges(g.links, Dids(found));
  }

  /** Trimming to everything changes nothing. */
  lemma TrimToAll(g: Graph, found: seq<Actor>, links: seq<Link>)
    requires Draws(g, found, links)
    ensures EgoTrim.Trimmed(g, Dids(found), false) == g
  {
    NodesKept(g, found, links);
    EdgesKept(g, found, links);
    DegreesTwice(ActorNodes(found), g.links);
  }

  function ClampDepth(depth: Option<int>): (hops: nat)
    ensures hops == 1 || hops == 2
    ensures hops == 2 <==> depth.Some? && depth.value >= 2
  {
    Max(1, Min(2, if depth.Some? then depth.value else 1))
  }

  /** An actor's node: its row, and the edge ends that meet it. */
  function DrawnActor(a: Actor, links: seq<Edge>): Node {
    Node(a.did, ActorNode, a.name, a.workspaceId, DegreeOf(links, a.did))
  }

  /** What an ego view shows of the database. */
  ghost predicate IsEgoView(db: Db, did: string, depth: nat, cap: int, g: Graph)
    requires depth > 0
  {
    var ball, inner := Ball(Near(db), did, depth), Ball(Near(db), did, depth - 1);
    && Shown(g) <= ball && did in Shown(g) && |g.nodes| <= Max(cap, 1)
    && GraphPromises.DistinctNodeIds(g.nodes) && g.totalActors == |g.nodes|
    && (forall n :: n in g.nodes ==> exists a :: a in db.actors && n == DrawnActor(a, g.links))
    && Distinct(g.links) && (forall e :: e in g.links ==> e.kind != Membership)
    && (g.truncated <==> Shown(g) != ball)
    && (g.truncated <==> |ball| > Max(cap, 1))
    && (forall e ::
          e in g.links && e.kind == Ownership
          <==> exists a :: a in db.actors && a.did in Shown(g) && OwnedWithin(a, Shown(g)) && e == OwnershipEdge(a))
    && (forall e :: e in g.links && e.kind == Relationship ==>
          exists l :: l in db.links && LinkedWithin(l, Shown(g)) && e == LinkEdge(l))
    && (forall l :: l in db.links ==>
          (LinkEdge(l) in g.links <==> LinkedWithin(l, Shown(g)) && (l.fromDid in inner || l.toDid in inner)))
  }

  lemma OwnershipShown(db: Db, g: Graph, found: seq<Actor>, links: seq<Link>)
    requires ValidDb(db) && (forall a :: a in found ==> a in db.actors) && Draws(g, found, links)
    ensures forall e :: e in g.links && e.kind == Ownership <==>
              exists a :: a in db.actors && a.did in Dids(found) && OwnedWithin(a, Dids(found)) && e == OwnershipEdge(a)
  {
    GraphPromises.OwnershipMeans(found, Dids(found));
    GraphPromises.LinksMean(links, Dids(found));
    forall a | a in db.actors && a.did in Dids(found) ensures a in found {
      FoundRow(db, found, a);
    }
  }

  lemma LinksShown(g: Graph, found: seq<Actor>, links: seq<Link>)
    requires Draws(g, found, links)
    ensures forall e :: e in g.links && e.kind == Relationship ==>
              exists l :: l in links && LinkedWithin(l, Dids(found)) && e == LinkEdge(l)
    ensures forall l :: LinkEdge(l) in g.links <==> l in links && LinkedWithin(l, Dids(found))
  {
    GraphPromises.OwnershipMeans(found, Dids(found));
    GraphPromises.LinksMean(links, Dids(found));
    forall l ensures LinkEdge(l) in g.links <==> l in links && LinkedWithin(l, Dids(found)) {
      assert LinkEdge(l).kind == Relationship;
      if LinkEdge(l) in g.links {
        var m :| m in links && LinkedWithin(m, Dids(found)) && LinkEdge(l) == LinkEdge(m);
        assert l == m;
      }
    }
  }

  lemma LinksDrawn(db: Db, g: Graph, found: seq<Actor>, links: seq<Link>, inner: set<string>, expanded: set<string>)
    requires Draws(g, found, links) && TouchingLinks(db, links, expanded) && expanded == Dids(found) * inner
    ensures forall l :: l in db.links ==>
              (LinkEdge(l) in g.links <==> LinkedWithin(l, Dids(found)) && (l.fromDid in inner || l.toDid in inner))
  {
    LinksShown(g, found, links);
  }

  /** Each actor and each relationship appears once, and there are no hubs. */
  lemma DrawnOnce(g: Graph, found: seq<Actor>, links: seq<Link>)
    requires Draws(g, found, links) && DistinctDids(found) && DistinctLinkIds(links)
    ensures GraphPromises.DistinctNodeIds(g.nodes) && Distinct(g.links)
    ensures forall e :: e in g.links ==> e.kind != Membership
  {
    NodeIdsAreDids(g, found, links);
    GraphPromises.OwnershipMeans(found, Dids(found));
    GraphPromises.LinksMean(links, Dids(found));
    GraphPromises.KindsSeparate(OwnershipEdges(found, Dids(found)), LinkEdges(links, Dids(found)));
  }

  lemma NodesAreRows(db: Db, g: Graph, found: seq<Actor>, links: seq<Link>)
    requires Draws(g, found, links) && forall a :: a in found ==> a in db.actors
    ensures forall n :: n in g.nodes ==> exists a :: a in db.actors && n == DrawnActor(a, g.links)
  {
    forall n | n in g.nodes ensures exists a :: a in db.actors && n == DrawnActor(a, g.links) {
      var i :| 0 <= i < |g.nodes| && g.nodes[i] == n;
      assert found[i] in found && n == DrawnActor(found[i], g.links);
    }
  }

  /** The crawl's result, once drawn, is an ego view. */
  lemma DrawnIsEgoView(db: Db, g: Graph, found: seq<Actor>, links: seq<Link>, root: string, expanded: set<string>,
                       depth: nat, cap: int, truncated: bool)
    requires ValidDb(db) && depth > 0 && (forall a :: a in found ==> a in db.actors) && root in Dids(found)
             && |found| <= Max(cap, 1)
    requires DistinctDids(found)
    requires TouchingLinks(db, links, expanded) && Dids(found) <= Ball(Near(db), root, depth) && Draws(g, found, links)
    requires truncated <==> Dids(found) != Ball(Near(db), root, depth)
    requires truncated <==> |Ball(Near(db), root, depth)| > Max(cap, 1)
    requires expanded == Dids(found) * Ball(Near(db), root, depth - 1)
    ensures IsEgoView(db, root, depth, cap, g.(truncated := truncated))
  {
    NodeIdsAreDids(g, found, links);
    OwnershipShown(db, g, found, links);
    LinksShown(g, found, links);
    LinksDrawn(db, g, found, links, Ball(Near(db), root, depth - 1), expanded);
    DrawnOnce(g, found, links);
    NodesAreRows(db, g, found, links);
    assert Shown(g.(truncated := truncated)) == Dids(found);
  }

  /**
   * `buildEgoGraph`: an unknown actor gives an empty graph; otherwise an ego view, in which the
   * final trim has removed nothing.
   */
  method BuildEgoGraph(db: Db, workspaces: seq<Workspace>, did: string, depth: Option<int>, nodeCap: Option<int>)
    returns (g: Graph)
    requires ValidDb(db)
    ensures did !in Dids(db.actors) ==> g == Graph([], [], 0, false)
    ensures did in Dids(db.actors) ==>
              IsEgoView(db, did, ClampDepth(depth), if nodeCap.Some? then nodeCap.value else EGO_NODE_CAP, g)
  {
    var hops := ClampDepth(depth);
    var cap := if nodeCap.Some? then nodeCap.value else EGO_NODE_CAP;
    var root := FindByDid(db, did);
    if root.None? {
      return Graph([], [], 0, false);
    }
    var found, links, truncated, expanded, level := CrawlFrom(db, root.value, hops, cap);
    var assembled := AssembleActorGraph(found, links, workspaces, false, None, {did});
    WholeDraws(found, links, workspaces, did);
    var trimmed, kept, refused := EgoTrim.EgoSubgraph(assembled, did, hops, Some(cap));
    NodeIdsAreDids(assembled, found, links);
    TrimSeesEverything(db, assembled, found, links, did, expanded, level, hops);
    TrimToAll(assembled, found, links);
    assert trimmed == assembled;
    DrawnIsEgoView(db, assembled, found, links, did, expanded, hops, cap, truncated);
    g := trimmed.(truncated := trimmed.truncated || truncated);
  }
}
