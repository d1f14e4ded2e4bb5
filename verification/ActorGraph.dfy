/**
 * The relationship graph assembled from rows: which actors survive the cap, and the
 * ownership, link and workspace edges between them (assembleActorGraph in lib/actor-graph.ts).
 */
module ActorGraph {
  import opened Prelude

  datatype Actor = Actor(did: string, name: string, workspaceId: Option<string>, ownerDid: Option<string>,
                         registeredAt: int)
  datatype Link = Link(id: string, fromDid: string, toDid: string, text: string)
  datatype Workspace = Workspace(id: string, name: string)

  datatype NodeKind = ActorNode | WorkspaceNode
  datatype EdgeKind = Ownership | Relationship | Membership

  datatype Node = Node(id: string, kind: NodeKind, text: string, workspaceId: Option<string>, degree: nat)
  datatype Edge = Edge(id: string, source: string, target: string, kind: EdgeKind, text: string)
  datatype Graph = Graph(nodes: seq<Node>, links: seq<Edge>, totalActors: nat, truncated: bool)

  /** A JavaScript truthy string. */
  function Truthy(s: Option<string>): Option<string> {
    if s == Some("") then None else s
  }

  function Owner(a: Actor): Option<string> {
    Truthy(a.ownerDid)
  }

  function Dids(actors: seq<Actor>): set<string> {
    set a | a in actors :: a.did
  }

  predicate DistinctDids(actors: seq<Actor>) {
    forall i, j :: 0 <= i < j < |actors| ==> actors[i].did != actors[j].did
  }

  predicate DistinctLinkIds(links: seq<Link>) {
    forall i, j :: 0 <= i < j < |links| ==> links[i].id != links[j].id
  }

  // ---- the cap --------------------------------------------------------------

  /** Takes part in a relationship whose other end is also present. */
  ghost predicate Connected(did: string, actors: seq<Actor>, links: seq<Link>) {
    || (exists a ::
          && a in actors && Owner(a).Some? && Owner(a).value in Dids(actors)
          && (did == a.did || did == Owner(a).value))
    || (exists l ::
          && l in links && l.fromDid in Dids(actors) && l.toDid in Dids(actors)
          && (did == l.fromDid || did == l.toDid))
  }

  function Rank(a: Actor, connected: set<string>, pinned: set<string>): int {
    if a.did in pinned then 0 else if a.did in connected then 1 else 2
  }

  /** The comparator's verdict that `a` need not move behind `b`. */
  predicate Before(a: Actor, b: Actor, connected: set<string>, pinned: set<string>) {
    var ra, rb := Rank(a, connected, pinned), Rank(b, connected, pinned);
    ra < rb || (ra == rb && b.registeredAt <= a.registeredAt)
  }

  function Insert(sorted: seq<Actor>, a: Actor, connected: set<string>, pinned: set<string>): seq<Actor> {
    if sorted == [] then [a]
    else if Before(sorted[0], a, connected, pinned) then [sorted[0]] + Insert(sorted[1..], a, connected, pinned)
    else [a] + sorted
  }

  /** JavaScript's stable sort. */
  function Sort(actors: seq<Actor>, connected: set<string>, pinned: set<string>): seq<Actor> {
    if actors == [] then []
    else Insert(Sort(actors[..|actors| - 1], connected, pinned), actors[|actors| - 1], connected, pinned)
  }

  /** `slice(0, n)`: a negative n counts from the end. */
  function Slice<T>(s: seq<T>, n: int): seq<T> {
    if n >= 0 then s[..Min(n, |s|)] else s[..Max(0, |s| + n)]
  }

  /** No cap at all is None. */
  function SelectWithinCap(actors: seq<Actor>, cap: Option<int>, connected: set<string>,
                           pinned: set<string>): seq<Actor> {
    if cap.None? || |actors| <= cap.value then actors else Slice(Sort(actors, connected, pinned), cap.value)
  }

  predicate Sorted(s: seq<Actor>, connected: set<string>, pinned: set<string>) {
    forall i, j :: 0 <= i < j < |s| ==> Before(s[i], s[j], connected, pinned)
  }

  lemma {:induction false} InsertKeepsAll(sorted: seq<Actor>, a: Actor, connected: set<string>, pinned: set<string>)
    ensures multiset(Insert(sorted, a, connected, pinned)) == multiset(sorted) + multiset{a}
    ensures |Insert(sorted, a, connected, pinned)| == |sorted| + 1
  {
    if sorted != [] && Before(sorted[0], a, connected, pinned) {
      InsertKeepsAll(sorted[1..], a, connected, pinned);
      assert sorted == [sorted[0]] + sorted[1..];
    }
  }

  lemma {:induction false} InsertSorts(sorted: seq<Actor>, a: Actor, connected: set<string>, pinned: set<string>)
    requires Sorted(sorted, connected, pinned)
    ensures Sorted(Insert(sorted, a, connected, pinned), connected, pinned)
  {
    if sorted != [] && Before(sorted[0], a, connected, pinned) {
      InsertSorts(sorted[1..], a, connected, pinned);
      InsertKeepsAll(sorted[1..], a, connected, pinned);
      var rest := Insert(sorted[1..], a, connected, pinned);
      forall k | 0 <= k < |rest| ensures Before(sorted[0], rest[k], connected, pinned) {
        assert rest[k] in multiset(rest);
        assert rest[k] in sorted[1..] || rest[k] == a;
      }
    }
  }

  lemma {:induction false} SortMeans(actors: seq<Actor>, connected: set<string>, pinned: set<string>)
    ensures multiset(Sort(actors, connected, pinned)) == multiset(actors)
            && |Sort(actors, connected, pinned)| == |actors|
    ensures Sorted(Sort(actors, connected, pinned), connected, pinned)
  {
    if actors != [] {
      var n := |actors| - 1;
      var before := Sort(actors[..n], connected, pinned);
      SortMeans(actors[..n], connected, pinned);
      InsertSorts(before, actors[n], connected, pinned);
      InsertKeepsAll(before, actors[n], connected, pinned);
      assert actors == actors[..n] + [actors[n]];
    }
  }

  lemma PermutationKeepsDids(a: seq<Actor>, b: seq<Actor>)
    requires multiset(a) == multiset(b) && DistinctDids(a)
    ensures DistinctDids(b)
    ensures forall x :: x in a <==> x in b
  {
    Rearranged(a, b);
    forall i, j | 0 <= i < j < |b| ensures b[i].did != b[j].did {
      assert b[i] in a && b[j] in a && b[i] != b[j];
    }
  }

  function CountPinned(actors: seq<Actor>, pinned: set<string>): nat {
    if actors == [] then 0
    else CountPinned(actors[..|actors| - 1], pinned) + if actors[|actors| - 1].did in pinned then 1 else 0
  }

  lemma {:induction false} CountPinnedConcat(a: seq<Actor>, b: seq<Actor>, pinned: set<string>)
    ensures CountPinned(a + b, pinned) == CountPinned(a, pinned) + CountPinned(b, pinned)
  {
    if b == [] {
      assert a + b == a;
    } else {
      assert (a + b)[..|a + b| - 1] == a + b[..|b| - 1];
      CountPinnedConcat(a, b[..|b| - 1], pinned);
    }
  }

  lemma RemoveOne(b: seq<Actor>, k: nat, pinned: set<string>)
    requires k < |b|
    ensures multiset(b[..k] + b[k + 1..]) == multiset(b) - multiset{b[k]}
    ensures CountPinned(b, pinned) == CountPinned(b[..k] + b[k + 1..], pinned) + CountPinned([b[k]], pinned)
  {
    var x := b[k];
    assert b == b[..k] + [x] + b[k + 1..];
    CountPinnedConcat(b[..k], b[k + 1..], pinned);
    CountPinnedConcat(b[..k], [x], pinned);
    CountPinnedConcat(b[..k] + [x], b[k + 1..], pinned);
  }

  lemma {:induction false} CountPinnedPermutes(a: seq<Actor>, b: seq<Actor>, pinned: set<string>)
    requires multiset(a) == multiset(b)
    ensures CountPinned(a, pinned) == CountPinned(b, pinned)
  {
    if a != [] {
      var n := |a| - 1;
      assert a[n] in multiset(b);
      var k :| 0 <= k < |b| && b[k] == a[n];
      RemoveOne(a, n, pinned);
      RemoveOne(b, k, pinned);
      assert a[..n] + a[n + 1..] == a[..n];
      CountPinnedPermutes(a[..n], b[..k] + b[k + 1..], pinned);
    } else {
      assert |multiset(b)| == 0;
    }
  }

  lemma {:induction false} AllPinned(actors: seq<Actor>, pinned: set<string>)
    requires forall i :: 0 <= i < |actors| ==> actors[i].did in pinned
    ensures CountPinned(actors, pinned) == |actors|
  {
    if actors != [] {
      AllPinned(actors[..|actors| - 1], pinned);
    }
  }

  /** The promises of the cap. */
  lemma CapKeepsTheBest(actors: seq<Actor>, cap: Option<int>, connected: set<string>, pinned: set<string>)
    requires DistinctDids(actors)
    ensures var kept := SelectWithinCap(actors, cap, connected, pinned);
            && DistinctDids(kept)
            && (forall a :: a in kept ==> a in actors)
            && |kept| == (if cap.None? || |actors| <= cap.value then |actors|
                          else if cap.value >= 0 then cap.value else Max(0, |actors| + cap.value))
            && (forall k, d :: k in kept && d in actors && d !in kept ==> Before(k, d, connected, pinned))
  {
    if cap.Some? && |actors| > cap.value {
      var sorted := Sort(actors, connected, pinned);
      SortMeans(actors, connected, pinned);
      PermutationKeepsDids(actors, sorted);
      var kept := SelectWithinCap(actors, cap, connected, pinned);
      assert forall i :: 0 <= i < |kept| ==> kept[i] == sorted[i];
      forall k, d | k in kept && d in actors && d !in kept ensures Before(k, d, connected, pinned) {
        var i :| 0 <= i < |kept| && kept[i] == k;
        var j :| 0 <= j < |sorted| && sorted[j] == d;
      }
    }
  }

  /** No unpinned, unconnected actor is kept while a connected or pinned one is dropped. */
  lemma NoIsolatedBeforeConnected(actors: seq<Actor>, cap: Option<int>, connected: set<string>, pinned: set<string>,
                                  k: Actor, d: Actor)
    requires DistinctDids(actors)
    requires k in SelectWithinCap(actors, cap, connected, pinned) && d in actors
             && d !in SelectWithinCap(actors, cap, connected, pinned)
    ensures k.did !in pinned && k.did !in connected ==> d.did !in pinned && d.did !in connected
    ensures k.did !in pinned ==> d.did !in pinned
  {
    assert Before(k, d, connected, pinned) by {
      CapKeepsTheBest(actors, cap, connected, pinned);
    }
  }

  lemma {:induction false} SomePinned(actors: seq<Actor>, pinned: set<string>, d: Actor)
    requires d in actors && d.did in pinned
    ensures CountPinned(actors, pinned) > 0
  {
    var n := |actors| - 1;
    if actors[n] != d {
      assert actors == actors[..n] + [actors[n]];
      SomePinned(actors[..n], pinned, d);
    }
  }

  lemma PrefixPinned(sorted: seq<Actor>, n: nat, pinned: set<string>, d: Actor)
    requires n <= |sorted| && d in sorted[n..] && d.did in pinned
    requires forall i :: 0 <= i < n ==> sorted[i].did in pinned
    ensures CountPinned(sorted, pinned) > n
  {
    assert sorted == sorted[..n] + sorted[n..];
    CountPinnedConcat(sorted[..n], sorted[n..], pinned);
    AllPinned(sorted[..n], pinned);
    SomePinned(sorted[n..], pinned, d);
  }

  /** In sorted order nothing unpinned stands before a pinned actor. */
  lemma PinnedFirst(sorted: seq<Actor>, n: nat, connected: set<string>, pinned: set<string>, d: Actor)
    requires Sorted(sorted, connected, pinned) && n <= |sorted| && d in sorted[n..] && d.did in pinned
    ensures CountPinned(sorted, pinned) > n
  {
    var j :| n <= j < |sorted| && sorted[j] == d;
    forall i | 0 <= i < n ensures sorted[i].did in pinned {
      assert Before(sorted[i], sorted[j], connected, pinned);
    }
    PrefixPinned(sorted, n, pinned, d);
  }

  lemma PinnedInFront(sorted: seq<Actor>, n: nat, connected: set<string>, pinned: set<string>, d: Actor)
    requires Sorted(sorted, connected, pinned) && n <= |sorted| && d in sorted && d.did in pinned
    requires CountPinned(sorted, pinned) <= n
    ensures d in sorted[..n]
  {
    assert sorted == sorted[..n] + sorted[n..];
    if d in sorted[n..] {
      PinnedFirst(sorted, n, connected, pinned, d);
    }
  }

  /** Pinned actors all survive when they fit. */
  lemma PinnedSurvive(actors: seq<Actor>, cap: Option<int>, connected: set<string>, pinned: set<string>, d: Actor)
    requires d in actors && d.did in pinned
    requires cap.Some? ==> CountPinned(actors, pinned) <= cap.value
    ensures d in SelectWithinCap(actors, cap, connected, pinned)
  {
    if cap.Some? && |actors| > cap.value {
      var sorted, n := Sort(actors, connected, pinned), cap.value;
      SortMeans(actors, connected, pinned);
      CountPinnedPermutes(actors, sorted, pinned);
      PinnedInFront(sorted, n, connected, pinned, d) by {
        assert d in multiset(sorted);
      }
    }
  }

  // ---- ties ---------------------------------------------------------------------

  predicate Tied(a: Actor, b: Actor, connected: set<string>, pinned: set<string>) {
    Rank(a, connected, pinned) == Rank(b, connected, pinned) && a.registeredAt == b.registeredAt
  }

  /** The actors that the comparator cannot tell from `x`, in their order. */
  function Ties(actors: seq<Actor>, x: Actor, connected: set<string>, pinned: set<string>): seq<Actor> {
    if actors == [] then []
    else (if Tied(actors[0], x, connected, pinned) then [actors[0]] else []) + Ties(actors[1..], x, connected, pinned)
  }

  lemma {:induction false} TiesConcat(a: seq<Actor>, b: seq<Actor>, x: Actor, connected: set<string>,
                                      pinned: set<string>)
    ensures Ties(a + b, x, connected, pinned) == Ties(a, x, connected, pinned) + Ties(b, x, connected, pinned)
  {
    if a == [] {
      assert a + b == b;
    } else {
      assert (a + b)[1..] == a[1..] + b;
      TiesConcat(a[1..], b, x, connected, pinned);
    }
  }

  lemma TiesOfLast(actors: seq<Actor>, x: Actor, connected: set<string>, pinned: set<string>)
    requires actors != []
    ensures var n := |actors| - 1;
            Ties(actors, x, connected, pinned)
            == Ties(actors[..n], x, connected, pinned) + if Tied(actors[n], x, connected, pinned) then [actors[n]]
              else []
  {
    var n := |actors| - 1;
    var last := [actors[n]];
    assert actors == actors[..n] + last && last[1..] == [];
    TiesConcat(actors[..n], last, x, connected, pinned);
  }

  lemma {:induction false} NoTiesAfter(sorted: seq<Actor>, x: Actor, connected: set<string>, pinned: set<string>)
    requires forall i :: 0 <= i < |sorted| ==> !Tied(sorted[i], x, connected, pinned)
    ensures Ties(sorted, x, connected, pinned) == []
  {
    if sorted != [] {
      NoTiesAfter(sorted[1..], x, connected, pinned);
    }
  }

  lemma {:induction false} InsertAfterTies(sorted: seq<Actor>, a: Actor, x: Actor, connected: set<string>,
                                           pinned: set<string>)
    requires Sorted(sorted, connected, pinned)
    ensures Ties(Insert(sorted, a, connected, pinned), x, connected, pinned)
            == Ties(sorted, x, connected, pinned) + if Tied(a, x, connected, pinned) then [a] else []
  {
    if sorted == [] {
    } else if Before(sorted[0], a, connected, pinned) {
      InsertAfterTies(sorted[1..], a, x, connected, pinned);
      var rest := Insert(sorted[1..], a, connected, pinned);
      assert ([sorted[0]] + rest)[1..] == rest;
    } else {
      assert ([a] + sorted)[1..] == sorted;
      if Tied(a, x, connected, pinned) {
        forall i | 0 <= i < |sorted| ensures !Tied(sorted[i], x, connected, pinned) {
          assert i > 0 ==> Before(sorted[0], sorted[i], connected, pinned);
        }
        NoTiesAfter(sorted, x, connected, pinned);
      }
    }
  }

  /** Sorting is stable: actors of one rank and date stay in the order they came in. */
  lemma {:induction false} SortKeepsTies(actors: seq<Actor>, x: Actor, connected: set<string>, pinned: set<string>)
    ensures Ties(Sort(actors, connected, pinned), x, connected, pinned) == Ties(actors, x, connected, pinned)
  {
    if actors != [] {
      var n := |actors| - 1;
      SortKeepsTies(actors[..n], x, connected, pinned);
      SortMeans(actors[..n], connected, pinned);
      InsertAfterTies(Sort(actors[..n], connected, pinned), actors[n], x, connected, pinned);
      TiesOfLast(actors, x, connected, pinned);
    }
  }

  /** The ranking, in fields: pinned, then connected, then the rest; the most recently registered first in each. */
  predicate RanksAtLeast(k: Actor, d: Actor, connected: set<string>, pinned: set<string>) {
    && (d.did in pinned ==> k.did in pinned)
    && (k.did !in pinned && d.did in connected ==> k.did in connected)
    && ((k.did in pinned <==> d.did in pinned) && (k.did in pinned || (k.did in connected <==> d.did in connected)) ==>
          d.registeredAt <= k.registeredAt)
  }

  /**
   * When the cap bites, what is kept is the front of the ranking: kept actors stand in rank order,
   * each ranks at least as high as any dropped one, and among equals those listed first are kept.
   */
  lemma KeptIsTheFront(actors: seq<Actor>, cap: int, connected: set<string>, pinned: set<string>)
    requires DistinctDids(actors) && |actors| > cap
    ensures var kept := SelectWithinCap(actors, Some(cap), connected, pinned);
            && (forall i, j :: 0 <= i < j < |kept| ==> RanksAtLeast(kept[i], kept[j], connected, pinned))
            && (forall k, d :: k in kept && d in actors && d !in kept ==> RanksAtLeast(k, d, connected, pinned))
            && (forall x :: Ties(kept, x, connected, pinned) <= Ties(actors, x, connected, pinned))
  {
    var sorted := Sort(actors, connected, pinned);
    var kept := SelectWithinCap(actors, Some(cap), connected, pinned);
    SortMeans(actors, connected, pinned);
    assert kept == sorted[..|kept|];
    forall i, j | 0 <= i < j < |kept| ensures RanksAtLeast(kept[i], kept[j], connected, pinned) {
      assert Before(sorted[i], sorted[j], connected, pinned);
    }
    CapKeepsTheBest(actors, Some(cap), connected, pinned);
    forall k, d | k in kept && d in actors && d !in kept ensures RanksAtLeast(k, d, connected, pinned) {
      assert Before(k, d, connected, pinned);
    }
    forall x ensures Ties(kept, x, connected, pinned) <= Ties(actors, x, connected, pinned) {
      SortKeepsTies(actors, x, connected, pinned);
      assert sorted == sorted[..|kept|] + sorted[|kept|..];
      TiesConcat(sorted[..|kept|], sorted[|kept|..], x, connected, pinned);
    }
  }
}
