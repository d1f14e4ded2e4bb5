/** The capped crawl around one actor, hop by hop over batched queries (buildEgoGraph in lib/actor-graph.ts). */
module EgoCrawl {
  import opened Prelude
  import opened ActorGraph
  import opened BreadthFirst

  datatype Db = Db(actors: seq<Actor>, links: seq<Link>)

  /** What the schema enforces: primary keys, non-empty dids, and foreign keys that resolve. */
  ghost predicate ValidDb(db: Db) {
    && DistinctDids(db.actors) && DistinctLinkIds(db.links)
    && (forall a :: a in db.actors ==> a.did != "" && (a.ownerDid.Some? ==> a.ownerDid.value in Dids(db.actors)))
    && (forall l :: l in db.links ==> l.fromDid in Dids(db.actors) && l.toDid in Dids(db.actors))
  }

  /** One undirected hop: ownership or link, either way round. */
  ghost predicate Adjacent(db: Db, x: string, y: string) {
    || (exists a :: a in db.actors && a.did == x && Owner(a) == Some(y))
    || (exists a :: a in db.actors && a.did == y && Owner(a) == Some(x))
    || (exists l :: l in db.links && ((l.fromDid == x && l.toDid == y) || (l.fromDid == y && l.toDid == x)))
  }

  ghost function Near(db: Db): Neighbours {
    x => set y | y in Dids(db.actors) && Adjacent(db, x, y)
  }

  lemma SameDidSameRow(db: Db, a: Actor, b: Actor)
    requires DistinctDids(db.actors) && a in db.actors && b in db.actors && a.did == b.did
    ensures a == b
  {
    var i :| 0 <= i < |db.actors| && db.actors[i] == a;
    var j :| 0 <= j < |db.actors| && db.actors[j] == b;
  }

  // ---- the queries; row order is not promised --------------------------------

  method FindByDid(db: Db, did: string) returns (row: Option<Actor>)
    ensures row.Some? ==> row.value in db.actors && row.value.did == did
    ensures row.None? ==> did !in Dids(db.actors)
  {
    for i := 0 to |db.actors|
      invariant forall k :: 0 <= k < i ==> db.actors[k].did != did
    {
      if db.actors[i].did == did {
        return Some(db.actors[i]);
      }
    }
    return None;
  }

  method FindManyByDid(db: Db, dids: seq<string>) returns (rows: seq<Actor>)
    ensures forall a :: a in rows <==> a in db.actors && a.did in dids
  {
    rows := [];
    for i := 0 to |db.actors|
      invariant forall a :: a in rows <==> a in db.actors[..i] && a.did in dids
    {
      if db.actors[i].did in dids {
        rows := rows + [db.actors[i]];
      }
    }
  }

  method ListByOwnerDids(db: Db, dids: seq<string>) returns (rows: seq<Actor>)
    ensures forall a :: a in rows <==> a in db.actors && a.ownerDid.Some? && a.ownerDid.value in dids
  {
    rows := [];
    for i := 0 to |db.actors|
      invariant forall a :: a in rows <==> a in db.actors[..i] && a.ownerDid.Some? && a.ownerDid.value in dids
    {
      if db.actors[i].ownerDid.Some? && db.actors[i].ownerDid.value in dids {
        rows := rows + [db.actors[i]];
      }
    }
  }

  method ListForActors(db: Db, dids: seq<string>) returns (rows: seq<Link>)
    ensures forall l :: l in rows <==> l in db.links && (l.fromDid in dids || l.toDid in dids)
  {
    rows := [];
    for i := 0 to |db.links|
      invariant forall l :: l in rows <==> l in db.links[..i] && (l.fromDid in dids || l.toDid in dids)
    {
      if db.links[i].fromDid in dids || db.links[i].toDid in dids {
        rows := rows + [db.links[i]];
      }
    }
  }

  // ---- one hop ---------------------------------------------------------------

  ghost predicate Known(db: Db, have: map<string, Actor>) {
    forall d :: d in have ==> have[d] in db.actors && have[d].did == d
  }

  predicate OwnsOneOf(o: string, have: map<string, Actor>, frontier: seq<string>) {
    exists k :: 0 <= k < |frontier| && frontier[k] in have && Owner(have[frontier[k]]) == Some(o)
  }

  predicate HasEnd(l: Link, did: string) {
    did == l.fromDid || did == l.toDid
  }

  /** Owners of the frontier that are not collected yet. */
  method MissingOwners(have: map<string, Actor>, frontier: seq<string>) returns (ownerDids: seq<string>)
    requires Elements(frontier) <= have.Keys
    ensures forall o :: o in ownerDids <==> o !in have && OwnsOneOf(o, have, frontier)
  {
    ownerDids := [];
    for i := 0 to |frontier|
      invariant forall o :: o in ownerDids <==> o !in have && OwnsOneOf(o, have, frontier[..i])
    {
      assert frontier[i] in Elements(frontier);
      var o := Owner(have[frontier[i]]);
      if o.Some? && o.value !in have {
        ownerDids := ownerDids + [o.value];
      }
    }
  }

  /** The relation a link row carries (`include: { from, to }`). */
  method RowOf(db: Db, did: string) returns (a: Actor)
    requires ValidDb(db) && did in Dids(db.actors)
    ensures a in db.actors && a.did == did
    ensures forall b :: b in db.actors && b.did == did ==> b == a
  {
    var row := FindByDid(db, did);
    a := row.value;
    forall b | b in db.actors && b.did == did ensures b == a {
      SameDidSameRow(db, a, b);
    }
  }

  /** An end of one of the first `n` link rows. */
  predicate EndBefore(rows: seq<Link>, n: nat, did: string)
    requires n <= |rows|
  {
    exists k :: 0 <= k < n && HasEnd(rows[k], did)
  }

  lemma EndStep(rows: seq<Link>, i: nat, did: string)
    requires i < |rows|
    ensures EndBefore(rows, i + 1, did) <==> EndBefore(rows, i, did) || HasEnd(rows[i], did)
  {
  }

  /** Both ends of each link row. */
  method EndsOf(db: Db, linkRows: seq<Link>) returns (ends: seq<Actor>)
    requires ValidDb(db) && forall l :: l in linkRows ==> l in db.links
    ensures forall a :: a in ends <==> a in db.actors && EndBefore(linkRows, |linkRows|, a.did)
  {
    ends := [];
    for i := 0 to |linkRows|
      invariant forall a :: a in ends <==> a in db.actors && EndBefore(linkRows, i, a.did)
    {
      var link := linkRows[i];
      assert link in db.links;
      var from := RowOf(db, link.fromDid);
      var to' := RowOf(db, link.toDid);
      ghost var before := ends;
      ends := ends + [from, to'];
      assert forall a :: a in ends <==> a in before || a == from || a == to';
      forall a ensures a in ends <==> a in db.actors && EndBefore(linkRows, i + 1, a.did) {
        EndStep(linkRows, i, a.did);
      }
    }
  }

  /** A row one of the hop's three queries returns. */
  ghost predicate Found(db: Db, have: map<string, Actor>, frontier: seq<string>, a: Actor) {
    && a in db.actors
    && (|| (a.ownerDid.Some? && a.ownerDid.value in frontier)
        || (a.did !in have && OwnsOneOf(a.did, have, frontier))
        || exists l :: l in db.links && (l.fromDid in frontier || l.toDid in frontier) && HasEnd(l, a.did))
  }

  lemma FoundIsNear(db: Db, have: map<string, Actor>, frontier: seq<string>, a: Actor)
    requires ValidDb(db) && Known(db, have) && Elements(frontier) <= have.Keys && Found(db, have, frontier, a)
    ensures a.did in have || a.did in Around(Near(db), Elements(frontier))
  {
    var near, f := Near(db), Elements(frontier);
    if a.ownerDid.Some? && a.ownerDid.value in frontier {
      var x := a.ownerDid.value;
      assert x in f && Owner(a) == Some(x) by { var o :| o in db.actors && o.did == x; }
      assert Adjacent(db, x, a.did) && a.did in near(x);
    } else if k :| 0 <= k < |frontier| && frontier[k] in have && Owner(have[frontier[k]]) == Some(a.did) {
      assert Adjacent(db, frontier[k], a.did) && a.did in near(frontier[k]);
      assert frontier[k] in f;
    } else {
      var l :| l in db.links && (l.fromDid in frontier || l.toDid in frontier)
        && (a.did == l.fromDid || a.did == l.toDid);
      var x := if a.did == l.fromDid then l.toDid else l.fromDid;
      if a.did !in f {
        assert x in f && Adjacent(db, x, a.did) && a.did in near(x);
      }
    }
  }

  lemma NearIsFound(db: Db, have: map<string, Actor>, frontier: seq<string>, x: string, y: string)
    requires ValidDb(db) && Known(db, have) && Elements(frontier) <= have.Keys
    requires x in Elements(frontier) && y in Dids(db.actors) && Adjacent(db, x, y)
    ensures y in have || exists row: Actor :: row.did == y && Found(db, have, frontier, row)
  {
    var row :| row in db.actors && row.did == y;
    var k :| 0 <= k < |frontier| && frontier[k] == x;
    if a :| a in db.actors && a.did == x && Owner(a) == Some(y) {
      SameDidSameRow(db, a, have[x]);
      assert y in have || Found(db, have, frontier, row);
    } else if a :| a in db.actors && a.did == y && Owner(a) == Some(x) {
      assert Found(db, have, frontier, a);
    } else {
      var l :| l in db.links && ((l.fromDid == x && l.toDid == y) || (l.fromDid == y && l.toDid == x));
      assert Found(db, have, frontier, row);
    }
  }

  /**
   * What the three queries of a hop bring in: link rows touching the frontier, and every
   * neighbour not yet collected.
   */
  method Discover(db: Db, have: map<string, Actor>, frontier: seq<string>)
    returns (linkRows: seq<Link>, discovered: seq<Actor>)
    requires ValidDb(db) && Known(db, have)
    requires Elements(frontier) <= have.Keys
    ensures forall l :: l in linkRows <==> l in db.links && (l.fromDid in frontier || l.toDid in frontier)
    ensures forall a :: a in discovered ==>
              a in db.actors && (a.did in have || a.did in Around(Near(db), Elements(frontier)))
    ensures forall y :: y in Around(Near(db), Elements(frontier)) ==> y in have || y in Dids(discovered)
  {
    var ownerDids := MissingOwners(have, frontier);
    linkRows := ListForActors(db, frontier);
    var ownedRows := ListByOwnerDids(db, frontier);
    var ownerRows := FindManyByDid(db, ownerDids);
    var ends := EndsOf(db, linkRows);
    discovered := ownedRows + ownerRows + ends;
    assert forall k :: 0 <= k < |linkRows| ==> linkRows[k] in linkRows;
    assert forall a :: a in discovered <==> Found(db, have, frontier, a);
    forall a | a in discovered
      ensures a in db.actors && (a.did in have || a.did in Around(Near(db), Elements(frontier)))
    {
      FoundIsNear(db, have, frontier, a);
    }
    forall y | y in Around(Near(db), Elements(frontier)) ensures y in have || y in Dids(discovered) {
      var x :| x in Elements(frontier) && y in Near(db)(x);
      NearIsFound(db, have, frontier, x, y);
    }
  }

  /** The map only gains rows, all of them discovered. */
  ghost predicate Grown(have: map<string, Actor>, have': map<string, Actor>, discovered: seq<Actor>) {
    && have.Keys <= have'.Keys
    && forall d :: d in have' ==> if d in have then have'[d] == have[d] else have'[d] in discovered && have'[d].did == d
  }

  lemma GrowByOne(have: map<string, Actor>, have': map<string, Actor>, discovered: seq<Actor>, actor: Actor)
    requires Grown(have, have', discovered) && actor in discovered && actor.did !in have'
    ensures Grown(have, have'[actor.did := actor], discovered)
    ensures have'[actor.did := actor].Keys == have'.Keys + {actor.did}
  {
  }

  lemma NextGrows(k: set<string>, k': set<string>, next: seq<string>, x: string)
    requires k <= k' && x !in k' && Elements(next) == k' - k && Distinct(next)
    ensures Elements(next + [x]) == k' + {x} - k && Distinct(next + [x]) && |k' + {x}| == |k'| + 1
  {
    ElementsGrow(next, x);
    assert x !in Elements(next);
    assert k' - k + {x} == k' + {x} - k;
  }

  /** Collect what was discovered while there is room; the rest only sets `truncated`. */
  method Collect(discovered: seq<Actor>, have: map<string, Actor>, truncated: bool, cap: int)
    returns (have': map<string, Actor>, next: seq<string>, truncated': bool)
    ensures Grown(have, have', discovered)
    ensures Elements(next) == have'.Keys - have.Keys && Distinct(next)
    ensures |have'.Keys| <= Max(cap, |have.Keys|) && (|have.Keys| >= cap ==> have' == have)
    ensures !truncated' ==> !truncated && Dids(discovered) <= have'.Keys
    ensures truncated ==> truncated'
    ensures truncated' && !truncated ==> |have'.Keys| >= cap && exists y :: y in Dids(discovered) && y !in have'
  {
    have', next, truncated' := have, [], truncated;
    ghost var refused := "";
    for i := 0 to |discovered|
      invariant Grown(have, have', discovered)
      invariant Elements(next) == have'.Keys - have.Keys && Distinct(next)
      invariant |have'.Keys| <= Max(cap, |have.Keys|) && (|have.Keys| >= cap ==> have' == have)
      invariant !truncated' ==> !truncated && forall k :: 0 <= k < i ==> discovered[k].did in have'.Keys
      invariant truncated ==> truncated'
      invariant truncated' && !truncated ==>
                  |have'.Keys| >= cap && refused in Dids(discovered) && refused !in have'.Keys
    {
      var actor := discovered[i];
      assert actor in discovered;
      if actor.did in have' {
        continue;
      }
      if |have'.Keys| >= cap {
        if !truncated' { refused := actor.did; }
        truncated' := true;
        continue;
      }
      GrowByOne(have, have', discovered, actor);
      NextGrows(have.Keys, have'.Keys, next, actor.did);
      have' := have'[actor.did := actor];
      next := next + [actor.did];
    }
  }

  /** `linksById.set`: the newest row of an id, where the first one stood. */
  function Put(links: seq<Link>, l: Link): seq<Link> {
    if links == [] then [l]
    else if links[0].id == l.id then [l] + links[1..]
    else [links[0]] + Put(links[1..], l)
  }

  ghost predicate NoneFrom(rows: seq<Link>, from': nat, id: string) {
    forall j :: from' <= j < |rows| ==> rows[j].id != id
  }

  /** What is left after all rows are set: the last row of each id, or the old one if no row has it. */
  ghost predicate Newest(m: Link, links: seq<Link>, rows: seq<Link>) {
    (m in links && NoneFrom(rows, 0, m.id))
    || exists k :: 0 <= k < |rows| && rows[k] == m && NoneFrom(rows, k + 1, m.id)
  }

  lemma PushFront(l: Link, links: seq<Link>)
    requires DistinctLinkIds(links) && forall m :: m in links ==> m.id != l.id
    ensures DistinctLinkIds([l] + links)
  {
    forall i, j | 0 <= i < j < |links| + 1 ensures ([l] + links)[i].id != ([l] + links)[j].id {
      assert links[j - 1] in links;
    }
  }

  lemma HeadDiffers(links: seq<Link>)
    requires DistinctLinkIds(links) && links != []
    ensures DistinctLinkIds(links[1..]) && forall m :: m in links[1..] ==> m.id != links[0].id
    ensures forall m :: m in links <==> m == links[0] || m in links[1..]
  {
    var rest := links[1..];
    assert links == [links[0]] + rest;
    forall m | m in rest ensures m.id != links[0].id {
      var k :| 0 <= k < |rest| && rest[k] == m;
      assert links[0].id != links[k + 1].id;
    }
  }

  lemma {:induction false} PutMeans(links: seq<Link>, l: Link)
    requires DistinctLinkIds(links)
    ensures DistinctLinkIds(Put(links, l))
    ensures forall m :: m in Put(links, l) <==> m == l || (m in links && m.id != l.id)
  {
    if links != [] {
      HeadDiffers(links);
      if links[0].id == l.id {
        PushFront(l, links[1..]);
      } else {
        PutMeans(links[1..], l);
        PushFront(links[0], Put(links[1..], l));
      }
    }
  }

  lemma {:induction false} PutKeepsPlaces(links: seq<Link>, l: Link)
    ensures |links| <= |Put(links, l)| && forall k :: 0 <= k < |links| ==> Put(links, l)[k].id == links[k].id
  {
    if links != [] && links[0].id != l.id {
      PutKeepsPlaces(links[1..], l);
      assert forall k :: 0 < k < |links| ==> links[k] == links[1..][k - 1];
    }
  }

  lemma OneMoreRow(m: Link, links: seq<Link>, rows: seq<Link>, l: Link)
    ensures Newest(m, links, rows + [l]) <==> m == l || (Newest(m, links, rows) && m.id != l.id)
  {
    var more, n := rows + [l], |rows|;
    assert more[n] == l && NoneFrom(more, n + 1, l.id);
    forall k: nat | k <= n ensures NoneFrom(more, k, m.id) <==> NoneFrom(rows, k, m.id) && m.id != l.id {
      assert forall j :: k <= j < n ==> more[j] == rows[j];
    }
    if k :| 0 <= k < n && rows[k] == m && NoneFrom(rows, k + 1, m.id) && m.id != l.id {
      assert more[k] == m;
    }
    if k :| 0 <= k < |more| && more[k] == m && NoneFrom(more, k + 1, m.id) && m != l {
      assert rows[k] == m;
    }
  }

  /** The map after some rows are set: one entry per id, the newest row, every old entry's place kept. */
  ghost predicate LinksAfter(links': seq<Link>, links: seq<Link>, rows: seq<Link>) {
    && DistinctLinkIds(links') && (forall m :: m in links' <==> Newest(m, links, rows))
    && |links| <= |links'| && forall k :: 0 <= k < |links| ==> links'[k].id == links[k].id
  }

  lemma SetOneMore(links': seq<Link>, links: seq<Link>, rows: seq<Link>, l: Link)
    requires LinksAfter(links', links, rows)
    ensures LinksAfter(Put(links', l), links, rows + [l])
  {
    PutMeans(links', l);
    PutKeepsPlaces(links', l);
    forall m ensures m in Put(links', l) <==> Newest(m, links, rows + [l]) {
      OneMoreRow(m, links, rows, l);
    }
  }

  method AddLinks(rows: seq<Link>, links: seq<Link>) returns (links': seq<Link>)
    requires DistinctLinkIds(links)
    ensures LinksAfter(links', links, rows)
  {
    links' := links;
    for i := 0 to |rows|
      invariant LinksAfter(links', links, rows[..i])
    {
      SetOneMore(links', links, rows[..i], rows[i]);
      assert rows[..i + 1] == rows[..i] + [rows[i]];
      links' := Put(links', rows[i]);
    }
    assert rows[..|rows|] == rows;
  }

  lemma LastRow(rows: seq<Link>, id: string) returns (k: nat)
    requires !NoneFrom(rows, 0, id)
    ensures k < |rows| && rows[k].id == id && NoneFrom(rows, k + 1, id)
  {
    k := |rows| - 1;
    while rows[k].id != id
      invariant k < |rows| && NoneFrom(rows, k + 1, id)
      decreases k
    {
      assert k > 0;
      k := k - 1;
    }
  }

  lemma SameIdSameLink(db: Db, l: Link, m: Link)
    requires DistinctLinkIds(db.links) && l in db.links && m in db.links && l.id == m.id
    ensures l == m
  {
    var i :| 0 <= i < |db.links| && db.links[i] == l;
    var j :| 0 <= j < |db.links| && db.links[j] == m;
  }

  /** Rows of one table: an id is one row, so nothing is lost and nothing is new but the rows. */
  lemma NewestInTable(db: Db, links: seq<Link>, rows: seq<Link>, m: Link)
    requires DistinctLinkIds(db.links)
    requires (forall l :: l in links ==> l in db.links) && (forall l :: l in rows ==> l in db.links)
    ensures Newest(m, links, rows) <==> m in links || m in rows
  {
    if m in db.links && !NoneFrom(rows, 0, m.id) {
      var k := LastRow(rows, m.id);
      assert rows[k] in rows;
      SameIdSameLink(db, m, rows[k]);
    }
  }

  // ---- the crawl ---------------------------------------------------------------

  /** The collected link rows are those touching an actor whose hop was expanded. */
  ghost predicate TouchingLinks(db: Db, links: seq<Link>, expanded: set<string>) {
    && DistinctLinkIds(links)
    && forall l :: l in links <==> l in db.links && (l.fromDid in expanded || l.toDid in expanded)
  }

  ghost predicate HasParent(db: Db, expanded: set<string>, level: map<string, nat>, y: string) {
    y in level && exists p :: p in expanded && p in level && level[p] + 1 == level[y] && y in Near(db)(p)
  }

  /** Each actor's hop number, and an expanded neighbour one hop nearer. */
  ghost predicate Levels(db: Db, root: string, k: set<string>, expanded: set<string>, level: map<string, nat>,
                         depth: nat) {
    && level.Keys == k && root in k && level[root] == 0
    && (forall y :: y in k ==> level[y] <= depth)
    && (forall y :: y in k && y != root ==> HasParent(db, expanded, level, y))
  }

  lemma HopHappened(near: Neighbours, have: map<string, Actor>, f: set<string>, discovered: seq<Actor>, cap: int,
                    truncated: bool, have': map<string, Actor>, truncated': bool)
    requires have != map[] && WithinCap(Some(cap), have.Keys) && (truncated ==> Limit(Some(cap), have.Keys))
    requires Dids(discovered) <= have.Keys + Around(near, f) && Around(near, f) <= have.Keys + Dids(discovered)
    requires Grown(have, have', discovered)
    requires |have'.Keys| <= Max(cap, |have.Keys|) && (|have.Keys| >= cap ==> have' == have)
    requires !truncated' ==> !truncated && Dids(discovered) <= have'.Keys
    requires truncated ==> truncated'
    requires truncated' && !truncated ==> |have'.Keys| >= cap && exists y :: y in Dids(discovered) && y !in have'
    ensures Hop(near, Some(cap), have.Keys, f, truncated, have'.Keys, have'.Keys - have.Keys, truncated')
  {
    if truncated' && !truncated {
      var y :| y in Dids(discovered) && y !in have';
      assert y in Around(near, f);
    }
  }

  function NextLevels(level: map<string, nat>, k': set<string>, h: nat): map<string, nat> {
    map y | y in k' :: if y in level then level[y] else h + 1
  }

  lemma LevelsGrow(db: Db, root: string, k: set<string>, f: set<string>, expanded: set<string>, level: map<string, nat>,
                   h: nat, k': set<string>)
    requires Levels(db, root, k, expanded, level, h) && expanded == k - f && f <= k
    requires forall y :: y in f ==> level[y] == h
    requires k <= k' && k' <= k + Around(Near(db), f)
    ensures Levels(db, root, k', k, NextLevels(level, k', h), h + 1)
    ensures forall y :: y in k' - k ==> NextLevels(level, k', h)[y] == h + 1
  {
    var level' := NextLevels(level, k', h);
    forall y | y in k' && y != root ensures HasParent(db, k, level', y) {
      if y in k {
        assert HasParent(db, expanded, level, y);
        var p :| p in expanded && p in level && level[p] + 1 == level[y] && y in Near(db)(p);
        assert p in k && level'[p] + 1 == level'[y];
      } else {
        var x :| x in f && y in Near(db)(x);
        assert level'[x] == h;
      }
    }
  }

  lemma LinksGrow(db: Db, links: seq<Link>, expanded: set<string>, f: set<string>, rows: seq<Link>, links': seq<Link>)
    requires ValidDb(db) && TouchingLinks(db, links, expanded)
    requires forall l :: l in rows <==> l in db.links && (l.fromDid in f || l.toDid in f)
    requires LinksAfter(links', links, rows)
    ensures TouchingLinks(db, links', expanded + f)
  {
    forall l ensures l in links' <==> l in db.links && (l.fromDid in expanded + f || l.toDid in expanded + f) {
      NewestInTable(db, links, rows, l);
    }
  }

  ghost predicate CrawlState(db: Db, root: string, cap: int, hop: nat, have: map<string, Actor>, order: seq<string>,
                             f: set<string>,
                             links: seq<Link>, truncated: bool, expanded: set<string>, level: map<string, nat>) {
    && Known(db, have) && Elements(order) == have.Keys && Distinct(order)
    && Crawled(Near(db), root, Some(cap), hop, have.Keys, f, truncated)
    && expanded == have.Keys - f && TouchingLinks(db, links, expanded)
    && Levels(db, root, have.Keys, expanded, level, hop) && (forall y :: y in f ==> level[y] == hop)
    && (hop > 0 ==> expanded == have.Keys * Ball(Near(db), root, hop - 1))
  }

  lemma CrawlStarts(db: Db, root: Actor, cap: int)
    requires root in db.actors
    ensures CrawlState(db, root.did, cap, 0, map[root.did := root], [root.did], Elements([root.did]), [], false, {},
                       map[root.did := 0])
  {
    assert Elements([root.did]) == {root.did};
  }

  lemma KnownGrows(db: Db, have: map<string, Actor>, have': map<string, Actor>, discovered: seq<Actor>)
    requires Known(db, have) && Grown(have, have', discovered) && forall a :: a in discovered ==> a in db.actors
    ensures Known(db, have')
  {
  }

  lemma Frontiers(k: set<string>, k': set<string>, f: set<string>, expanded: set<string>)
    requires expanded == k - f && f <= k <= k'
    ensures expanded + f == k && k' - (k' - k) == k
  {
  }

  lemma OrderGrows(order: seq<string>, next: seq<string>, k: set<string>, k': set<string>)
    requires Elements(order) == k && Distinct(order) && Elements(next) == k' - k && Distinct(next) && k <= k'
    ensures Elements(order + next) == k' && Distinct(order + next)
  {
    assert Elements(order + next) == Elements(order) + Elements(next);
    forall i, j | 0 <= i < j < |order + next| ensures (order + next)[i] != (order + next)[j] {
      if i < |order| <= j {
        assert order[i] in Elements(order) && next[j - |order|] in Elements(next);
      }
    }
  }

  /** Before the hop's catch, everything collected is what a shorter crawl would reach. */
  lemma Expanded(near: Neighbours, root: string, cap: Option<int>, hop: nat, k: set<string>, f: set<string>,
                 truncated: bool, k': set<string>)
    requires Crawled(near, root, cap, hop, k, f, truncated) && k <= k' && (truncated ==> k' == k)
    ensures k == k' * Ball(near, root, hop)
  {
  }

  /** One iteration keeps the whole state. */
  lemma StateSteps(db: Db, root: string, cap: int, hop: nat, have: map<string, Actor>, order: seq<string>,
                   f: set<string>, links: seq<Link>, truncated: bool, expanded: set<string>, level: map<string, nat>,
                   discovered: seq<Actor>, links': seq<Link>, have': map<string, Actor>, next: seq<string>,
                     truncated': bool)
    requires CrawlState(db, root, cap, hop, have, order, f, links, truncated, expanded, level)
    requires forall a :: a in discovered ==> a in db.actors
    requires Grown(have, have', discovered) && Elements(next) == have'.Keys - have.Keys && Distinct(next)
    requires Hop(Near(db), Some(cap), have.Keys, f, truncated, have'.Keys, have'.Keys - have.Keys, truncated')
    requires TouchingLinks(db, links', expanded + f)
    ensures CrawlState(db, root, cap, hop + 1, have', order + next, Elements(next), links', truncated', have.Keys,
                       NextLevels(level, have'.Keys, hop))
  {
    HopCrawls(Near(db), root, Some(cap), hop, have.Keys, f, truncated, have'.Keys, have'.Keys - have.Keys, truncated');
    LevelsGrow(db, root, have.Keys, f, expanded, level, hop, have'.Keys);
    OrderGrows(order, next, have.Keys, have'.Keys);
    KnownGrows(db, have, have', discovered);
    Frontiers(have.Keys, have'.Keys, f, expanded);
    Expanded(Near(db), root, Some(cap), hop, have.Keys, f, truncated, have'.Keys);
  }

  lemma ExpandedAtEnd(next: Neighbours, root: string, cap: Option<int>, h: nat, depth: nat, k: set<string>,
                      f: set<string>, truncated: bool, expanded: set<string>)
    requires Crawled(next, root, cap, h, k, f, truncated) && (h == depth || (h < depth && f == {}))
    requires expanded == k - f && (h > 0 ==> expanded == k * Ball(next, root, h - 1))
    ensures depth > 0 ==> expanded == k * Ball(next, root, depth - 1)
  {
    if h < depth {
      assert k - f == k;
      BallGrows(next, root, h, depth - 1);
    }
  }

  lemma DidsAre(found: seq<Actor>, order: seq<string>)
    requires |found| == |order| && forall i :: 0 <= i < |found| ==> found[i].did == order[i]
    ensures Dids(found) == Elements(order)
  {
    forall x | x in Elements(order) ensures x in Dids(found) {
      var i :| 0 <= i < |order| && order[i] == x;
      assert found[i] in found;
    }
  }

  lemma {:induction false} DistinctCount(s: seq<string>)
    requires Distinct(s)
    ensures |Elements(s)| == |s|
  {
    if s != [] {
      var n := |s| - 1;
      DistinctCount(s[..n]);
      assert s == s[..n] + [s[n]];
      ElementsGrow(s[..n], s[n]);
      assert s[n] !in s[..n];
    }
  }

  /** `[...actorsByDid.values()]`. */
  method RowsOf(db: Db, have: map<string, Actor>, order: seq<string>) returns (found: seq<Actor>)
    requires Known(db, have) && Elements(order) == have.Keys && Distinct(order)
    ensures DistinctDids(found) && Dids(found) == have.Keys && |found| == |have.Keys|
    ensures forall a :: a in found ==> a in db.actors
  {
    found := [];
    for i := 0 to |order|
      invariant |found| == i && forall j :: 0 <= j < i ==> found[j].did == order[j] && found[j] in db.actors
    {
      assert order[i] in Elements(order);
      found := found + [have[order[i]]];
    }
    DidsAre(found, order);
    DistinctCount(order);
  }

  /**
   * For any graph, depth and cap: only actors within `depth` hops, never more than
   * max(cap, 1), and the whole ball exactly when nothing was truncated — which is exactly when
   * the ball fits. The link rows kept are those touching an actor within `depth - 1` hops.
   */
  method CrawlFrom(db: Db, root: Actor, depth: nat, cap: int)
    returns (found: seq<Actor>, links: seq<Link>, truncated: bool, ghost expanded: set<string>,
             ghost level: map<string, nat>)
    requires ValidDb(db) && root in db.actors
    ensures DistinctDids(found) && (forall a :: a in found ==> a in db.actors) && root.did in Dids(found)
    ensures |found| == |Dids(found)| <= Max(cap, 1)
    ensures Dids(found) <= Ball(Near(db), root.did, depth)
    ensures truncated <==> Dids(found) != Ball(Near(db), root.did, depth)
    ensures truncated <==> |Ball(Near(db), root.did, depth)| > Max(cap, 1)
    ensures expanded <= Dids(found) && TouchingLinks(db, links, expanded)
    ensures Levels(db, root.did, Dids(found), expanded, level, depth)
    ensures depth > 0 ==> expanded == Dids(found) * Ball(Near(db), root.did, depth - 1)
  {
    var have := map[root.did := root];
    var order, frontier := [root.did], [root.did];
    links, truncated, expanded, level := [], false, {}, map[root.did := 0];
    var hop := 0;
    CrawlStarts(db, root, cap);
    while hop < depth && |frontier| > 0
      invariant hop <= depth
      invariant CrawlState(db, root.did, cap, hop, have, order, Elements(frontier), links, truncated, expanded, level)
      decreases depth - hop
    {
      var linkRows, discovered := Discover(db, have, frontier);
      var links' := AddLinks(linkRows, links);
      var have', next, truncated' := Collect(discovered, have, truncated, cap);
      LinksGrow(db, links, expanded, Elements(frontier), linkRows, links');
      HopHappened(Near(db), have, Elements(frontier), discovered, cap, truncated, have', truncated');
      StateSteps(db, root.did, cap, hop, have, order, Elements(frontier), links, truncated, expanded, level,
                 discovered, links', have', next, truncated');
      level := NextLevels(level, have'.Keys, hop);
      expanded := have.Keys;
      links, have, truncated, order, frontier := links', have', truncated', order + next, next;
      hop := hop + 1;
    }
    assert |frontier| > 0 ==> frontier[0] in Elements(frontier);
    CrawlDone(Near(db), root.did, Some(cap), hop, depth, have.Keys, Elements(frontier), truncated);
    ExpandedAtEnd(Near(db), root.did, Some(cap), hop, depth, have.Keys, Elements(frontier), truncated, expanded);
    found := RowsOf(db, have, order);
  }
}
