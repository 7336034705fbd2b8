/**
 * Depth-first reachability: the intersections reachable from a source, in the order a
 * recursive depth-first search first visits them.
 */
module Reachability {
  import opened Collections
  import opened Network

  /** The visited flags agree with membership in the visit order, which lists distinct vertices. */
  ghost predicate Tracks(g: Graph, visited: seq<bool>, order: seq<int>) {
    && |visited| == |g.vertices|
    && Distinct(order)
    && (forall i :: 0 <= i < |order| ==> 0 <= order[i] < |g.vertices|)
    && (forall v :: 0 <= v < |visited| ==> (visited[v] <==> v in order))
  }

  /** Every vertex a record leads to from a vertex listed at position `from` or later is listed. */
  ghost predicate ClosedFrom(g: Graph, order: seq<int>, from: int) {
    forall i, k :: 0 <= from <= i < |order| && 0 <= order[i] < |g.adj| && 0 <= k < |g.adj[order[i]]| ==>
      Target(g, g.adj[order[i]][k]) in order
  }

  /** A visit order: distinct vertices of `g`. */
  ghost predicate Listing(g: Graph, order: seq<int>) {
    Distinct(order) && forall i :: 0 <= i < |order| ==> 0 <= order[i] < |g.vertices|
  }

  /**
   * The depth-first preorder: `order` extended by the visit of `u`. An already listed `u`
   * adds nothing; otherwise `u` is listed, then its records are followed from the head of
   * its list, each target visited in turn.
   */
  function Visit(g: Graph, u: int, order: seq<int>): (r: seq<int>)
    requires Valid(g) && 0 <= u < |g.vertices| && Listing(g, order)
    ensures Listing(g, r) && |order| <= |r| && r[..|order|] == order
    ensures u in r && (u !in order ==> |order| < |r| && r[|order|] == u)
    decreases |g.vertices| - |order|, 0
  {
    if u in order then order
    else
      DistinctBounded(order, |g.vertices|);
      assert |order| < |g.vertices| by {
        if |order| == |g.vertices| {
          DistinctBounded(order + [u], |g.vertices|);
        }
      }
      var r := VisitFrom(g, u, order + [u], 0);
      assert r[|order|] == r[..|order| + 1][|order|];
      r
  }

  /** `order` extended by following the records of `u` from position `k` on, in list order. */
  function VisitFrom(g: Graph, u: int, order: seq<int>, k: int): (r: seq<int>)
    requires Valid(g) && 0 <= u < |g.vertices| && 0 <= k <= |g.adj[u]| && Listing(g, order)
    ensures Listing(g, r) && |order| <= |r| && r[..|order|] == order
    decreases |g.vertices| - |order|, 1, |g.adj[u]| - k
  {
    if k == |g.adj[u]| then order
    else
      OtherIsLast(g, u, k);
      DistinctBounded(order, |g.vertices|);
      var next := Visit(g, Target(g, g.adj[u][k]), order);
      var r := VisitFrom(g, u, next, k + 1);
      assert r[..|order|] == next[..|next|][..|order|];
      r
  }

  /**
   * Visits `u` unless it is already visited, then recurses into every unvisited vertex its
   * records lead to, in list order: the result is the preorder `Visit`. The vertices it
   * appends are reachable from `u`, and the records of each of them lead only to listed
   * vertices.
   */
  method DfsHelper(g: Graph, u: int, visited: array<bool>, order: seq<int>) returns (orderVisited: seq<int>)
    requires Valid(g) && 0 <= u < |g.vertices|
    requires Tracks(g, visited[..], order)
    modifies visited
    ensures Tracks(g, visited[..], orderVisited)
    ensures |order| <= |orderVisited| && orderVisited[..|order|] == order
    ensures u in orderVisited
    ensures u !in order ==> |order| < |orderVisited| && orderVisited[|order|] == u
    ensures ClosedFrom(g, orderVisited, |order|)
    ensures forall i :: |order| <= i < |orderVisited| ==> Reachable(g, u, orderVisited[i])
    ensures orderVisited == Visit(g, u, order)
    decreases |g.vertices| - |order|
  {
    if visited[u] {
      return order;
    }
    visited[u] := true;
    orderVisited := order + [u];
    VisitStart(g, u, order);
    var k := 0;
    while k < |g.adj[u]|
      invariant Tracks(g, visited[..], orderVisited)
      invariant Visiting(g, u, order, orderVisited, k)
      invariant VisitFrom(g, u, orderVisited, k) == Visit(g, u, order)
    {
      OtherIsLast(g, u, k);
      var w := Target(g, g.adj[u][k]);
      if !visited[w] {
        ghost var before := orderVisited;
        DistinctBounded(orderVisited, |g.vertices|);
        orderVisited := DfsHelper(g, w, visited, orderVisited);
        VisitExtends(g, u, k, order, before, orderVisited);
      } else {
        assert visited[..][w];
        VisitSkip(g, u, k, order, orderVisited);
      }
      k := k + 1;
    }
    VisitDone(g, u, order, orderVisited);
  }

  /**
   * The visit of `u`, which was appended after `order`, has handled `u`'s first `k` records:
   * each leads to a listed vertex, the vertices listed after `u` have all their records
   * handled, and every vertex listed from `u` on is reachable from `u`.
   */
  ghost predicate Visiting(g: Graph, u: int, order: seq<int>, orderVisited: seq<int>, k: int)
    requires 0 <= u < |g.adj|
  {
    && 0 <= k <= |g.adj[u]|
    && |order| < |orderVisited| && orderVisited[..|order|] == order && orderVisited[|order|] == u
    && (forall j :: 0 <= j < k ==> Target(g, g.adj[u][j]) in orderVisited)
    && ClosedFrom(g, orderVisited, |order| + 1)
    && (forall i :: |order| <= i < |orderVisited| ==> Reachable(g, u, orderVisited[i]))
  }

  lemma VisitStart(g: Graph, u: int, order: seq<int>)
    requires Valid(g) && 0 <= u < |g.vertices|
    ensures Visiting(g, u, order, order + [u], 0)
  {
    ReachableSelf(g, u);
  }

  /** A record to an already listed vertex needs no visit. */
  lemma VisitSkip(g: Graph, u: int, k: int, order: seq<int>, orderVisited: seq<int>)
    requires Valid(g) && 0 <= u < |g.vertices| && 0 <= k < |g.adj[u]|
    requires Visiting(g, u, order, orderVisited, k) && Target(g, g.adj[u][k]) in orderVisited
    ensures Visiting(g, u, order, orderVisited, k + 1)
  {
  }

  /** What a recursive visit of the vertex record `k` of `u` leads to leaves true of `u`'s own visit. */
  lemma VisitExtends(g: Graph, u: int, k: int, order: seq<int>, before: seq<int>, after: seq<int>)
    requires Valid(g) && 0 <= u < |g.vertices| && 0 <= k < |g.adj[u]|
    requires Visiting(g, u, order, before, k)
    requires |before| <= |after| && after[..|before|] == before
    requires Target(g, g.adj[u][k]) in after
    requires ClosedFrom(g, after, |before|)
    requires forall i :: |before| <= i < |after| ==> Reachable(g, Target(g, g.adj[u][k]), after[i])
    ensures Visiting(g, u, order, after, k + 1)
  {
    var w := Target(g, g.adj[u][k]);
    assert Joined(g, u, w);
    assert forall i :: 0 <= i < |before| ==> after[i] == before[i];
    assert after[..|order|] == order;
    forall x | x in before ensures x in after {
      var i :| 0 <= i < |before| && before[i] == x;
      assert after[i] == x;
    }
    forall i | |order| <= i < |after| ensures Reachable(g, u, after[i]) {
      if i >= |before| {
        ReachableStep(g, u, w, after[i]);
      }
    }
  }

  /** Once every record of `u` is handled, everything listed from `u` on has all records handled. */
  lemma VisitDone(g: Graph, u: int, order: seq<int>, orderVisited: seq<int>)
    requires Valid(g) && 0 <= u < |g.vertices|
    requires Visiting(g, u, order, orderVisited, |g.adj[u]|)
    ensures ClosedFrom(g, orderVisited, |order|)
  {
  }

  /**
   * The intersections reachable from `source`, each listed once, `source` first, in the
   * depth-first preorder `Visit`.
   */
  method ReachableIntersections(g: Graph, source: Coordinate) returns (orderVisited: seq<int>)
    requires Valid(g) && source in g.vertices
    ensures |orderVisited| > 0 && orderVisited[0] == IndexOf(g.vertices, source)
    ensures Distinct(orderVisited)
    ensures forall v :: v in orderVisited <==> Reachable(g, IndexOf(g.vertices, source), v)
    ensures orderVisited == Visit(g, IndexOf(g.vertices, source), [])
  {
    var visited := new bool[|g.vertices|](_ => false);
    var currentIndex := IndexOf(g.vertices, source);
    orderVisited := DfsHelper(g, currentIndex, visited, []);
    var c := set x | x in orderVisited;
    forall v | Reachable(g, currentIndex, v) ensures v in orderVisited {
      ClosedHoldsReachable(g, c, currentIndex, v);
    }
    forall v | v in orderVisited ensures Reachable(g, currentIndex, v) {
      var i :| 0 <= i < |orderVisited| && orderVisited[i] == v;
    }
  }
}
