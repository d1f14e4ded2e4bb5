/** The final trim of an ego view (egoSubgraph in components/graph/actor-graph/ego.ts). */
module EgoTrim {
  import opened Prelude
  import opened ActorGraph
  import opened GraphAssembly
  import opened BreadthFirst

  /** `new Map(nodes.map(...))`: the last node of an id wins. */
  function NodeById(nodes: seq<Node>): map<string, Node> {
    if nodes == [] then map[] else NodeById(nodes[..|nodes| - 1])[nodes[|nodes| - 1].id := nodes[|nodes| - 1]]
  }

  predicate IsHub(byId: map<string, Node>, id: string) {
    id in byId && byId[id].kind == WorkspaceNode
  }

  /** Neighbour ids in the order the adjacency lists hold them. */
  function Adjacency(links: seq<Edge>, byId: map<string, Node>, x: string): seq<string> {
    if links == [] then []
    else
      var e := links[|links| - 1];
      var before := Adjacency(links[..|links| - 1], byId, x);
      if e.source in byId && e.target in byId then
        before + (if e.source == x then [e.target] else []) + (if e.target == x then [e.source] else [])
      else before
  }

  /** Where one may go from a node: workspace hubs are reached, never departed from. */
  function Steps(data: Graph): Neighbours {
    x => if IsHub(NodeById(data.nodes), x) then {} else Elements(Adjacency(data.links, NodeById(data.nodes), x))
  }

  function KeepNodes(nodes: seq<Node>, kept: set<string>): seq<Node> {
    Keep(nodes, (n: Node) => n.id in kept)
  }

  function KeepEdges(links: seq<Edge>, kept: set<string>): seq<Edge> {
    Keep(links, (e: Edge) => e.source in kept && e.target in kept)
  }

  lemma KeepsNodes(nodes: seq<Node>, kept: set<string>)
    requires forall n :: n in nodes ==> n.id in kept
    ensures KeepNodes(nodes, kept) == nodes
  {
    KeepAll(nodes, (n: Node) => n.id in kept);
  }

  lemma KeepsEdges(links: seq<Edge>, kept: set<string>)
    requires forall e :: e in links ==> e.source in kept && e.target in kept
    ensures KeepEdges(links, kept) == links
  {
    KeepAll(links, (e: Edge) => e.source in kept && e.target in kept);
  }

  function Trimmed(data: Graph, kept: set<string>, truncated: bool): Graph {
    var links := KeepEdges(data.links, kept);
    Graph(WithDegreesOf(KeepNodes(data.nodes, kept), links), links, data.totalActors, truncated || data.truncated)
  }

  lemma FreshGrows(k: set<string>, k': set<string>, fresh': seq<string>, x: string)
    requires k <= k' && x !in k' && Elements(fresh') == k' - k
    ensures Elements(fresh' + [x]) == k' + {x} - k && |k' + {x}| == |k'| + 1
  {
    assert Elements(fresh' + [x]) == Elements(fresh') + {x};
  }

  /** Neighbours were added while there was room; one was refused exactly when `t'` turned true. */
  ghost predicate Taken(all: set<string>, cap: Option<int>, kept: set<string>, t: bool, kept': set<string>, t': bool) {
    && kept <= kept' <= kept + all
    && (cap.Some? ==> |kept'| <= Max(cap.value, |kept|))
    && (Limit(cap, kept) ==> kept' == kept)
    && (!t' ==> !t && all <= kept')
    && (t ==> t')
    && (t' && !t ==> Limit(cap, kept') && exists y :: y in all && y !in kept')
  }

  /** Take the candidates there is room for. */
  method Take(candidates: seq<string>, kept: set<string>, truncated: bool, cap: Option<int>)
    returns (kept': set<string>, fresh': seq<string>, truncated': bool)
    ensures Taken(Elements(candidates), cap, kept, truncated, kept', truncated')
    ensures Elements(fresh') == kept' - kept
  {
    kept', fresh', truncated' := kept, [], truncated;
    ghost var refused := "";
    ghost var all := Elements(candidates);
    for i := 0 to |candidates|
      invariant kept <= kept' <= kept + all
      invariant Elements(fresh') == kept' - kept
      invariant cap.Some? ==> |kept'| <= Max(cap.value, |kept|)
      invariant Limit(cap, kept) ==> kept' == kept
      invariant !truncated' ==> !truncated && forall k :: 0 <= k < i ==> candidates[k] in kept'
      invariant truncated ==> truncated'
      invariant truncated' && !truncated ==> Limit(cap, kept') && refused in all && refused !in kept'
    {
      var neighbour := candidates[i];
      assert neighbour in all;
      if neighbour in kept' {
        continue;
      }
      if Limit(cap, kept') {
        if !truncated' { refused := neighbour; }
        truncated' := true;
        continue;
      }
      FreshGrows(kept, kept', fresh', neighbour);
      kept' := kept' + {neighbour};
      fresh' := fresh' + [neighbour];
    }
  }

  /** Departing from one more frontier node extends the hop. */
  lemma HopExtends(near: Neighbours, cap: Option<int>, k: set<string>, f: set<string>, x: string, truncated: bool,
                   kept: set<string>, t: bool, kept': set<string>, t': bool)
    requires WithinCap(cap, k) && (truncated ==> Limit(cap, k)) && k != {}
    requires Hop(near, cap, k, f, truncated, kept, kept - k, t)
    requires Taken(near(x), cap, kept, t, kept', t')
    ensures Hop(near, cap, k, f + {x}, truncated, kept', kept' - k, t')
  {
    assert Around(near, f + {x}) == Around(near, f) + near(x);
    if t' && !truncated {
      if t {
        assert kept' == kept;
      }
    }
  }

  lemma HopFromNowhere(near: Neighbours, cap: Option<int>, k: set<string>, truncated: bool)
    requires WithinCap(cap, k)
    ensures Hop(near, cap, k, {}, truncated, k, k - k, truncated)
  {
  }

  lemma NextJoins(k: set<string>, k': set<string>, k'': set<string>, next: seq<string>, fresh': seq<string>)
    requires k <= k' <= k'' && Elements(next) == k' - k && Elements(fresh') == k'' - k'
    ensures Elements(next + fresh') == k'' - k
  {
    assert Elements(next + fresh') == Elements(next) + Elements(fresh');
  }

  /** A hop in progress: departed from `f`, with `next` what it has newly shown. */
  ghost predicate Departed(near: Neighbours, cap: Option<int>, before: set<string>, f: set<string>, wasTruncated: bool,
                           shown: set<string>, next: seq<string>, truncated: bool) {
    && Hop(near, cap, before, f, wasTruncated, shown, shown - before, truncated)
    && Elements(next) == shown - before
  }

  lemma DepartOne(near: Neighbours, cap: Option<int>, before: set<string>, frontier: seq<string>, i: nat,
                  wasTruncated: bool, shown: set<string>, next: seq<string>, truncated: bool,
                  shown': set<string>, fresh': seq<string>, truncated': bool)
    requires before != {} && WithinCap(cap, before) && (wasTruncated ==> Limit(cap, before)) && i < |frontier|
    requires Departed(near, cap, before, Elements(frontier[..i]), wasTruncated, shown, next, truncated)
    requires Taken(near(frontier[i]), cap, shown, truncated, shown', truncated') && Elements(fresh') == shown' - shown
    ensures Departed(near, cap, before, Elements(frontier[..i + 1]), wasTruncated, shown', next + fresh', truncated')
  {
    assert frontier[..i + 1] == frontier[..i] + [frontier[i]];
    ElementsGrow(frontier[..i], frontier[i]);
    HopExtends(near, cap, before, Elements(frontier[..i]), frontier[i], wasTruncated, shown, truncated,
               shown', truncated');
    NextJoins(before, shown, shown', next, fresh');
  }

  /** One hop: depart from every frontier node in turn. */
  method DepartFrom(data: Graph, frontier: seq<string>, before: set<string>, wasTruncated: bool, cap: Option<int>)
    returns (shown: set<string>, next: seq<string>, truncated: bool)
    requires before != {} && WithinCap(cap, before) && (wasTruncated ==> Limit(cap, before))
    ensures Departed(Steps(data), cap, before, Elements(frontier), wasTruncated, shown, next, truncated)
  {
    var byId := NodeById(data.nodes);
    shown, next, truncated := before, [], wasTruncated;
    HopFromNowhere(Steps(data), cap, before, wasTruncated);
    for i := 0 to |frontier|
      invariant Departed(Steps(data), cap, before, Elements(frontier[..i]), wasTruncated, shown, next, truncated)
    {
      var id := frontier[i];
      var candidates := if IsHub(byId, id) then [] else Adjacency(data.links, byId, id);
      var shown', fresh', truncated' := Take(candidates, shown, truncated, cap);
      assert Elements(candidates) == Steps(data)(id);
      DepartOne(Steps(data), cap, before, frontier, i, wasTruncated, shown, next, truncated,
                shown', fresh', truncated');
      shown, next, truncated := shown', next + fresh', truncated';
    }
    assert frontier[..|frontier|] == frontier;
  }

  lemma CrawlOfRoot(near: Neighbours, root: string, cap: Option<int>)
    ensures Crawled(near, root, cap, 0, {root}, Elements([root]), false)
  {
    assert Elements([root]) == {root};
    assert Around(near, {root} - {root}) == {};
  }

  lemma NothingLeft(frontier: seq<string>)
    ensures |frontier| == 0 <==> Elements(frontier) == {}
  {
    if |frontier| > 0 {
      assert frontier[0] in Elements(frontier);
    }
  }

  method NextHop(data: Graph, ghost root: string, ghost hop: nat, frontier: seq<string>, before: set<string>,
                 wasTruncated: bool, cap: Option<int>)
    returns (shown: set<string>, next: seq<string>, truncated: bool)
    requires Crawled(Steps(data), root, cap, hop, before, Elements(frontier), wasTruncated)
    ensures Crawled(Steps(data), root, cap, hop + 1, shown, Elements(next), truncated)
  {
    shown, next, truncated := DepartFrom(data, frontier, before, wasTruncated, cap);
    HopCrawls(Steps(data), root, cap, hop, before, Elements(frontier), wasTruncated, shown, shown - before, truncated);
  }

  /** The breadth-first loop: everything within reach, as far as the cap allows. */
  method Reach(data: Graph, focusId: string, depth: nat, cap: Option<int>) returns (shown: set<string>, truncated: bool)
    ensures shown <= Ball(Steps(data), focusId, depth)
    ensures truncated <==> shown != Ball(Steps(data), focusId, depth)
    ensures truncated <==> cap.Some? && |Ball(Steps(data), focusId, depth)| > Max(cap.value, 1)
  {
    shown, truncated := {focusId}, false;
    var frontier := [focusId];
    var hop := 0;
    CrawlOfRoot(Steps(data), focusId, cap);
    while hop < depth && |frontier| > 0
      invariant hop <= depth
      invariant Crawled(Steps(data), focusId, cap, hop, shown, Elements(frontier), truncated)
      decreases depth - hop
    {
      shown, frontier, truncated := NextHop(data, focusId, hop, frontier, shown, truncated, cap);
      hop := hop + 1;
    }
    NothingLeft(frontier);
    CrawlDone(Steps(data), focusId, cap, hop, depth, shown, Elements(frontier), truncated);
  }

  method EgoSubgraph(data: Graph, focusId: string, depth: nat, cap: Option<int>)
    returns (g: Graph, ghost kept: set<string>, ghost refused: bool)
    ensures focusId !in NodeById(data.nodes) ==> g == Graph([], [], data.totalActors, false)
    ensures focusId in NodeById(data.nodes) ==>
              && g == Trimmed(data, kept, refused)
              && kept <= Ball(Steps(data), focusId, depth)
              && (refused <==> kept != Ball(Steps(data), focusId, depth))
              && (refused <==> cap.Some? && |Ball(Steps(data), focusId, depth)| > Max(cap.value, 1))
  {
    kept, refused := {}, false;
    if focusId !in NodeById(data.nodes) {
      return Graph([], [], data.totalActors, false), {}, false;
    }
    var shown, truncated := Reach(data, focusId, depth, cap);
    kept, refused := shown, truncated;
    var keptLinks := KeepEdges(data.links, shown);
    var nodes := WithDegrees(KeepNodes(data.nodes, shown), keptLinks);
    g := Graph(nodes, keptLinks, data.totalActors, truncated || data.truncated);
  }

  /**
   * What a trim leaves: the edges with both ends kept and the nodes kept, in their order and as
   * often as they occurred, each node with the number of ends it still meets.
   */
  lemma TrimKeepsExactly(data: Graph, kept: set<string>, truncated: bool)
    ensures var g := Trimmed(data, kept, truncated);
            && (forall e :: e in g.links <==> e in data.links && e.source in kept && e.target in kept)
            && (forall n :: n in g.nodes <==>
                  exists m :: m in data.nodes && m.id in kept && n == m.(degree := DegreeOf(g.links, m.id)))
            && |g.nodes| == |KeepNodes(data.nodes, kept)|
            && g.totalActors == data.totalActors && (g.truncated <==> truncated || data.truncated)
  {
    var g := Trimmed(data, kept, truncated);
    var nodes := KeepNodes(data.nodes, kept);
    KeepMeans(data.links, (e: Edge) => e.source in kept && e.target in kept);
    KeepMeans(data.nodes, (n: Node) => n.id in kept);
    forall n ensures n in g.nodes <==>
                       exists m :: m in data.nodes && m.id in kept && n == m.(degree := DegreeOf(g.links, m.id))
    {
      if n in g.nodes {
        var i :| 0 <= i < |g.nodes| && g.nodes[i] == n;
        assert nodes[i] in nodes;
      }
      if m :| m in data.nodes && m.id in kept && n == m.(degree := DegreeOf(g.links, m.id)) {
        assert m in nodes;
        var i :| 0 <= i < |nodes| && nodes[i] == m;
        assert g.nodes[i] == n;
      }
    }
  }

  /** Trimming in two parts is trimming the whole: nothing is reordered or repeated. */
  lemma TrimSplits(nodes: seq<Node>, more: seq<Node>, links: seq<Edge>, rest: seq<Edge>, kept: set<string>)
    ensures KeepNodes(nodes + more, kept) == KeepNodes(nodes, kept) + KeepNodes(more, kept)
    ensures KeepEdges(links + rest, kept) == KeepEdges(links, kept) + KeepEdges(rest, kept)
  {
    KeepSplits(nodes, more, (n: Node) => n.id in kept);
    KeepSplits(links, rest, (e: Edge) => e.source in kept && e.target in kept);
  }
}
