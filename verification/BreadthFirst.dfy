/** Balls of a graph, and what a capped breadth-first crawl keeps true of them. */
module BreadthFirst {
  import opened Prelude

  type Neighbours = string -> set<string>

  function Around(next: Neighbours, xs: set<string>): set<string> {
    set x, y | x in xs && y in next(x) :: y
  }

  /** Everything within n hops of the root. */
  function Ball(next: Neighbours, root: string, n: nat): set<string> {
    if n == 0 then {root} else Ball(next, root, n - 1) + Around(next, Ball(next, root, n - 1))
  }

  // ---- balls are what paths reach ------------------------------------------

  ghost predicate Path(next: Neighbours, p: seq<string>) {
    forall i :: 0 < i < |p| ==> p[i] in next(p[i - 1])
  }

  ghost predicate Reaches(next: Neighbours, root: string, y: string, n: nat) {
    exists p: seq<string> :: 0 < |p| <= n + 1 && p[0] == root && p[|p| - 1] == y && Path(next, p)
  }

  lemma {:induction false} PathTo(next: Neighbours, root: string, n: nat, y: string) returns (p: seq<string>)
    requires y in Ball(next, root, n)
    ensures 0 < |p| <= n + 1 && p[0] == root && p[|p| - 1] == y && Path(next, p)
  {
    if n == 0 {
      p := [root];
    } else if y in Ball(next, root, n - 1) {
      p := PathTo(next, root, n - 1, y);
    } else {
      var x :| x in Ball(next, root, n - 1) && y in next(x);
      var q := PathTo(next, root, n - 1, x);
      p := q + [y];
    }
  }

  lemma {:induction false} PathStays(next: Neighbours, root: string, p: seq<string>)
    requires 0 < |p| && p[0] == root && Path(next, p)
    ensures p[|p| - 1] in Ball(next, root, |p| - 1)
  {
    if |p| > 1 {
      var q := p[..|p| - 1];
      forall i | 0 < i < |q| ensures q[i] in next(q[i - 1]) {
        assert q[i] == p[i];
      }
      PathStays(next, root, q);
      assert q[|q| - 1] == p[|p| - 2];
    }
  }

  lemma {:induction false} BallGrows(next: Neighbours, root: string, m: nat, n: nat)
    requires m <= n
    ensures Ball(next, root, m) <= Ball(next, root, n)
  {
    if m < n {
      BallGrows(next, root, m, n - 1);
    }
  }

  lemma {:induction false} BallIsReach(next: Neighbours, root: string, n: nat, y: string)
    ensures y in Ball(next, root, n) <==> Reaches(next, root, y, n)
  {
    if y in Ball(next, root, n) {
      var p := PathTo(next, root, n, y);
    }
    if p: seq<string> :| 0 < |p| <= n + 1 && p[0] == root && p[|p| - 1] == y && Path(next, p) {
      PathStays(next, root, p);
      BallGrows(next, root, |p| - 1, n);
    }
  }

  lemma NextBall(next: Neighbours, root: string, n: nat)
    requires n > 0
    ensures Ball(next, root, n) == Ball(next, root, n - 1) + Around(next, Ball(next, root, n - 1))
  {
  }

  lemma Absorbed(b: set<string>, c: set<string>)
    requires c <= b
    ensures b + c == b
  {
  }

  /** Once a ball is closed it stops growing. */
  lemma {:induction false} ClosedStays(next: Neighbours, root: string, m: nat, n: nat)
    requires m <= n && Ball(next, root, m + 1) == Ball(next, root, m)
    ensures Ball(next, root, n) == Ball(next, root, m)
    decreases n - m
  {
    if m == n {
    } else {
      NextBall(next, root, m + 1);
      NextBall(next, root, m + 2);
      ClosedStays(next, root, m + 1, n);
    }
  }

  // ---- a capped crawl -------------------------------------------------------

  function Limit(cap: Option<int>, k: set<string>): bool {
    cap.Some? && |k| >= cap.value
  }

  ghost predicate WithinCap(cap: Option<int>, k: set<string>) {
    cap.Some? ==> |k| <= Max(cap.value, 1)
  }

  /** After h hops: collected k, frontier f, and whether anything was refused for lack of room. */
  ghost predicate Crawled(next: Neighbours, root: string, cap: Option<int>, h: nat, k: set<string>, f: set<string>,
                          truncated: bool) {
    && root in k && f <= k && k <= Ball(next, root, h) && WithinCap(cap, k)
    && (!truncated ==> k == Ball(next, root, h) && Around(next, k - f) <= k)
    && (truncated ==> Limit(cap, k) && exists y :: y in Ball(next, root, h) && y !in k)
  }

  /** One hop: the frontier's neighbours are collected while there is room. */
  ghost predicate Hop(next: Neighbours, cap: Option<int>, k: set<string>, f: set<string>, truncated: bool,
                      k': set<string>, f': set<string>, truncated': bool) {
    && k <= k' && f' == k' - k && k' <= k + Around(next, f) && WithinCap(cap, k')
    && (truncated ==> truncated' && k' == k)
    && (!truncated' ==> Around(next, f) <= k')
    && (truncated' && !truncated ==> Limit(cap, k') && exists y :: y in Around(next, f) && y !in k')
  }

  lemma AroundSplit(next: Neighbours, k: set<string>, f: set<string>)
    requires f <= k
    ensures Around(next, k) == Around(next, k - f) + Around(next, f)
  {
  }

  lemma AroundGrows(next: Neighbours, a: set<string>, b: set<string>)
    requires a <= b
    ensures Around(next, a) <= Around(next, b)
  {
  }

  lemma HopCrawls(next: Neighbours, root: string, cap: Option<int>, h: nat, k: set<string>, f: set<string>,
                  truncated: bool, k': set<string>, f': set<string>, truncated': bool)
    requires Crawled(next, root, cap, h, k, f, truncated)
    requires Hop(next, cap, k, f, truncated, k', f', truncated')
    ensures Crawled(next, root, cap, h + 1, k', f', truncated')
  {
    AroundGrows(next, f, Ball(next, root, h));
    BallGrows(next, root, h, h + 1);
    if !truncated' {
      AroundSplit(next, k, f);
      assert Around(next, k) <= k';
      assert k' - f' == k;
    }
    if truncated {
      var y :| y in Ball(next, root, h) && y !in k;
      assert y in Ball(next, root, h + 1) && y !in k';
    } else if truncated' {
      var y :| y in Around(next, f) && y !in k';
      assert y in Ball(next, root, h + 1);
    }
  }

  lemma {:induction false} CardinalityGrows(a: set<string>, b: set<string>)
    requires a <= b
    ensures |a| <= |b| && (|a| == |b| ==> a == b)
  {
    if a != {} {
      var x :| x in a;
      CardinalityGrows(a - {x}, b - {x});
    }
  }

  /**
   * When the crawl has done its hops or run out of frontier: it holds the whole ball exactly
   * when it was not truncated, and it was truncated exactly when the ball does not fit.
   */
  lemma CrawlDone(next: Neighbours, root: string, cap: Option<int>, h: nat, depth: nat, k: set<string>,
                  f: set<string>, truncated: bool)
    requires Crawled(next, root, cap, h, k, f, truncated)
    requires h == depth || (h < depth && f == {})
    ensures k <= Ball(next, root, depth)
    ensures truncated <==> k != Ball(next, root, depth)
    ensures truncated <==> cap.Some? && |Ball(next, root, depth)| > Max(cap.value, 1)
  {
    BallGrows(next, root, h, depth);
    if !truncated && h < depth {
      assert k - f == k;
      NextBall(next, root, h + 1);
      Absorbed(k, Around(next, k));
      ClosedStays(next, root, h, depth);
    }
    CardinalityGrows(k, Ball(next, root, depth));
    if truncated {
      var y :| y in Ball(next, root, h) && y !in k;
      assert y in Ball(next, root, depth);
      var limit := {root};
      CardinalityGrows(limit, k);
    }
  }
}
