/**
 * The figures reported for a path of intersections: its total length, its total traffic and
 * the average traffic factor (total traffic over total length). Each step of the path is
 * charged to the first record in the current intersection's list that leads to the next one.
 */
module PathMetrics {
  import opened Collections
  import opened Network
  import opened Attributes
  import LeastTraffic

  /** Total length, average traffic factor and total traffic, in the order they are returned. */
  datatype PathInfo = PathInfo(length: real, average: Option<real>, traffic: real)

  /** Position of the first record of `recs` that, entered from `curr`, leads to `next`, or -1. */
  function FirstLink(recs: seq<Block>, curr: Coordinate, next: Coordinate): (k: int)
    ensures -1 <= k < |recs|
    ensures k == -1 <==> forall j :: 0 <= j < |recs| ==> Other(recs[j], curr) != next
    ensures k >= 0 ==> Other(recs[k], curr) == next && forall j :: 0 <= j < k ==> Other(recs[j], curr) != next
  {
    if |recs| == 0 then -1
    else if Other(recs[0], curr) == next then 0
    else
      var k := FirstLink(recs[1..], curr, next);
      assert forall j :: 1 <= j < |recs| ==> recs[j] == recs[1..][j - 1];
      if k == -1 then -1 else k + 1
  }

  /** `curr` is registered and one of its records leads to `next`. */
  predicate Linked(g: Graph, curr: Coordinate, next: Coordinate) {
    && curr in g.vertices && IndexOf(g.vertices, curr) < |g.adj|
    && FirstLink(g.adj[IndexOf(g.vertices, curr)], curr, next) >= 0
  }

  /** The record a step from `curr` to `next` is charged to: the first one that leads there. */
  function LinkBlock(g: Graph, curr: Coordinate, next: Coordinate): Block
    requires Linked(g, curr, next)
  {
    g.adj[IndexOf(g.vertices, curr)][FirstLink(g.adj[IndexOf(g.vertices, curr)], curr, next)]
  }

  /** Step `i` of the path, from its `i`-th intersection to the next one, is linked. */
  predicate StepLinked(g: Graph, path: seq<Coordinate>, i: int)
    requires 0 <= i < |path| - 1
  {
    Linked(g, path[i], path[i + 1])
  }

  /** Every step of the path is linked. */
  predicate Connected(g: Graph, path: seq<Coordinate>) {
    forall i :: 0 <= i < |path| - 1 ==> StepLinked(g, path, i)
  }

  /** The number of steps of a path: one fewer than its intersections, none for an empty path. */
  function Steps(path: seq<Coordinate>): nat {
    if |path| == 0 then 0 else |path| - 1
  }

  /** Sum of the lengths of the records the first `n` steps are charged to. */
  function LengthTo(g: Graph, path: seq<Coordinate>, n: nat): real
    requires Connected(g, path) && n <= Steps(path)
  {
    if n == 0 then 0.0
    else
      assert StepLinked(g, path, n - 1);
      LengthTo(g, path, n - 1) + LinkBlock(g, path[n - 1], path[n]).length
  }

  /** Sum of the traffic (factor times length) of the records the first `n` steps are charged to. */
  function TrafficTo(g: Graph, path: seq<Coordinate>, n: nat): real
    requires Connected(g, path) && n <= Steps(path)
  {
    if n == 0 then 0.0
    else
      assert StepLinked(g, path, n - 1);
      TrafficTo(g, path, n - 1) + BlockTraffic(LinkBlock(g, path[n - 1], path[n]))
  }

  function PathLength(g: Graph, path: seq<Coordinate>): real
    requires Connected(g, path)
  {
    LengthTo(g, path, Steps(path))
  }

  function PathTraffic(g: Graph, path: seq<Coordinate>): real
    requires Connected(g, path)
  {
    TrafficTo(g, path, Steps(path))
  }

  /**
   * For each step, scans the current intersection's list from its head for the first record
   * leading to the next intersection, and adds its traffic and its length; then divides.
   * A total length of zero gives no average (the program's division yields NaN there).
   */
  method PathInformation(g: Graph, path: seq<Coordinate>) returns (info: PathInfo)
    requires Connected(g, path)
    ensures info.length == PathLength(g, path) && info.traffic == PathTraffic(g, path)
    ensures info.length != 0.0 ==> info.average == Some(info.traffic / info.length)
    ensures info.length == 0.0 ==> info.average == None
    ensures |path| <= 1 ==> info == PathInfo(0.0, None, 0.0)
  {
    var traffic := 0.0;
    var length := 0.0;
    var i := 0;
    while i < |path| - 1
      invariant 0 <= i <= Steps(path)
      invariant length == LengthTo(g, path, i) && traffic == TrafficTo(g, path, i)
    {
      var curr := path[i];
      var next := path[i + 1];
      SumsStep(g, path, i);
      var currentIndex := IndexOf(g.vertices, curr);
      var list := g.adj[currentIndex];
      var cBlock := FindLink(list, curr, next);
      assert cBlock == Some(LinkBlock(g, curr, next));
      traffic := traffic + BlockTraffic(cBlock.value);
      length := length + cBlock.value.length;
      i := i + 1;
    }
    var average := if length == 0.0 then None else Some(traffic / length);
    info := PathInfo(length, average, traffic);
  }

  /** One more step adds the record it is charged to to both sums. */
  lemma SumsStep(g: Graph, path: seq<Coordinate>, i: nat)
    requires Connected(g, path) && i < Steps(path)
    ensures Linked(g, path[i], path[i + 1])
    ensures LengthTo(g, path, i + 1) == LengthTo(g, path, i) + LinkBlock(g, path[i], path[i + 1]).length
    ensures TrafficTo(g, path, i + 1) == TrafficTo(g, path, i) + BlockTraffic(LinkBlock(g, path[i], path[i + 1]))
  {
    assert StepLinked(g, path, i);
  }

  /**
   * Walks the list from its head to the first record that, entered from `curr`, leads to
   * `next`; `None` (the program's null) when there is none.
   */
  method FindLink(list: seq<Block>, curr: Coordinate, next: Coordinate) returns (cBlock: Option<Block>)
    ensures cBlock.None? <==> FirstLink(list, curr, next) == -1
    ensures cBlock.Some? ==> cBlock.value == list[FirstLink(list, curr, next)]
  {
    cBlock := None;
    var k := 0;
    while k < |list|
      invariant 0 <= k <= |list|
      invariant forall j :: 0 <= j < k ==> Other(list[j], curr) != next
    {
      if Other(list[k], curr) == next {
        cBlock := Some(list[k]);
        return;
      }
      k := k + 1;
    }
  }

  /**
   * On a weighted network with a non-negative distance, a path's length is non-negative and
   * its traffic lies between half and one and a half times its length.
   */
  lemma {:induction false} TrafficBounds(g: Graph, dist: (Coordinate, Coordinate) -> real,
                                        path: seq<Coordinate>, n: nat)
    requires Weighted(g, dist) && (forall a, b :: dist(a, b) >= 0.0) && Connected(g, path)
    requires n <= Steps(path)
    ensures LengthTo(g, path, n) >= 0.0
    ensures 0.5 * LengthTo(g, path, n) <= TrafficTo(g, path, n) <= 1.5 * LengthTo(g, path, n)
  {
    if n > 0 {
      TrafficBounds(g, dist, path, n - 1);
      assert StepLinked(g, path, n - 1);
      ChargeBounds(g, dist, path[n - 1], path[n]);
    }
  }

  /** On a weighted network, the record a step is charged to carries between 0.5 and 1.5 times its length. */
  lemma ChargeBounds(g: Graph, dist: (Coordinate, Coordinate) -> real, curr: Coordinate, next: Coordinate)
    requires Weighted(g, dist) && (forall a, b :: dist(a, b) >= 0.0) && Linked(g, curr, next)
    ensures LinkBlock(g, curr, next).length >= 0.0
    ensures 0.5 * LinkBlock(g, curr, next).length <= BlockTraffic(LinkBlock(g, curr, next))
                                                   <= 1.5 * LinkBlock(g, curr, next).length
  {
    var b := LinkBlock(g, curr, next);
    var u := IndexOf(g.vertices, curr);
    var k := FirstLink(g.adj[u], curr, next);
    assert b == g.adj[u][k];
    assert b.length == PolylineLength(b.points, dist) && 0.5 <= b.factor <= 1.5;
  }

  /**
   * On a weighted network with a non-negative distance, the average traffic factor of a path
   * of positive length lies in [0.5, 1.5], the range every record's factor is clamped to.
   */
  lemma AverageInRange(g: Graph, dist: (Coordinate, Coordinate) -> real, path: seq<Coordinate>)
    requires Weighted(g, dist) && (forall a, b :: dist(a, b) >= 0.0) && Connected(g, path)
    requires PathLength(g, path) != 0.0
    ensures PathLength(g, path) > 0.0
    ensures 0.5 <= PathTraffic(g, path) / PathLength(g, path) <= 1.5
  {
    TrafficBounds(g, dist, path, Steps(path));
    var l, t := PathLength(g, path), PathTraffic(g, path);
    QuotientBounds(t, l);
  }

  lemma QuotientBounds(t: real, l: real)
    requires l > 0.0 && 0.5 * l <= t <= 1.5 * l
    ensures 0.5 <= t / l <= 1.5
  {
  }

  /** The intersections along a walk of vertex indices. */
  function Coords(g: Graph, p: seq<int>): (path: seq<Coordinate>)
    requires forall i :: 0 <= i < |p| ==> 0 <= p[i] < |g.vertices|
    ensures |path| == |p| && forall i :: 0 <= i < |p| ==> path[i] == g.vertices[p[i]]
  {
    seq(|p|, i requires 0 <= i < |p| => g.vertices[p[i]])
  }

  /** The vertex index of every intersection of a path. */
  function Indices(g: Graph, path: seq<Coordinate>): (p: seq<int>)
    ensures |p| == |path| && forall i :: 0 <= i < |path| ==> p[i] == IndexOf(g.vertices, path[i])
  {
    seq(|path|, i requires 0 <= i < |path| => IndexOf(g.vertices, path[i]))
  }

  /**
   * In a well-formed network a step along a record joins the vertices of its endpoints:
   * the record charged for a linked step leads from `curr`'s vertex to `next`'s.
   */
  lemma LinkedStep(g: Graph, curr: Coordinate, next: Coordinate)
    requires Valid(g) && Linked(g, curr, next)
    ensures next in g.vertices
    ensures LinkBlock(g, curr, next).first == curr && LinkBlock(g, curr, next).last == next
    ensures Target(g, LinkBlock(g, curr, next)) == IndexOf(g.vertices, next)
    ensures Joined(g, IndexOf(g.vertices, curr), IndexOf(g.vertices, next))
  {
    var u := IndexOf(g.vertices, curr);
    var k := FirstLink(g.adj[u], curr, next);
    assert IndexOf(g.vertices, g.adj[u][k].first) == u;
  }

  /**
   * In a well-formed network every walk the traversals return, read as intersections, is a
   * path whose every step is linked, so its figures are defined.
   */
  lemma WalkIsConnected(g: Graph, p: seq<int>)
    requires Valid(g) && IsWalk(g, p)
    ensures Connected(g, Coords(g, p))
    ensures IndexOf(g.vertices, g.vertices[p[0]]) == p[0] ==> Indices(g, Coords(g, p)) == p
  {
    var path := Coords(g, p);
    forall i | 0 <= i < |p| - 1 ensures StepLinked(g, path, i) {
      var u, v := p[i], p[i + 1];
      assert Joined(g, u, v);
      var k :| 0 <= k < |g.adj[u]| && Target(g, g.adj[u][k]) == v;
      assert IndexOf(g.vertices, g.adj[u][k].first) == u;
      assert Other(g.adj[u][k], path[i]) == path[i + 1];
    }
    forall i | 0 <= i < |p| && IndexOf(g.vertices, g.vertices[p[0]]) == p[0]
      ensures IndexOf(g.vertices, path[i]) == p[i]
    {
      if i < |p| - 1 {
        var k :| 0 <= k < |g.adj[p[i]]| && Target(g, g.adj[p[i]][k]) == p[i + 1];
        assert IndexOf(g.vertices, g.adj[p[i]][k].first) == p[i];
      } else if i > 0 {
        var k :| 0 <= k < |g.adj[p[i - 1]]| && Target(g, g.adj[p[i - 1]][k]) == p[i];
      }
    }
  }

  /**
   * Conversely, a non-empty linked path of registered intersections in a well-formed network
   * is, vertex by vertex, a walk.
   */
  lemma ConnectedIsWalk(g: Graph, path: seq<Coordinate>)
    requires Valid(g) && Connected(g, path) && |path| > 0 && Last(path) in g.vertices
    ensures IsWalk(g, Indices(g, path)) && Coords(g, Indices(g, path)) == path
  {
    var p := Indices(g, path);
    forall i | 0 <= i < |path| ensures 0 <= p[i] < |g.vertices| {
      if i < |path| - 1 {
        assert StepLinked(g, path, i);
      }
    }
    forall i | 0 <= i < |path| - 1 ensures Joined(g, p[i], p[i + 1]) {
      assert StepLinked(g, path, i);
      LinkedStep(g, path[i], path[i + 1]);
    }
  }

  /**
   * On a weighted well-formed network the traffic reported for a walk is at least its cost as
   * the least-traffic search counts it: each step is charged to one of the records the search
   * takes the cheapest of.
   */
  lemma TrafficCoversCost(g: Graph, dist: (Coordinate, Coordinate) -> real, p: seq<int>)
    requires Valid(g) && Weighted(g, dist) && IsWalk(g, p)
    ensures Connected(g, Coords(g, p))
    ensures LeastTraffic.PathCost(g, p) <= PathTraffic(g, Coords(g, p))
  {
    WalkIsConnected(g, p);
    CostTo(g, dist, p, |p| - 1);
    assert p[..|p|] == p;
    assert PathTraffic(g, Coords(g, p)) == TrafficTo(g, Coords(g, p), |p| - 1);
  }

  /** The first `n` steps of a walk cost no more than the traffic charged for them. */
  lemma {:induction false} CostTo(g: Graph, dist: (Coordinate, Coordinate) -> real, p: seq<int>, n: nat)
    requires Valid(g) && Weighted(g, dist) && IsWalk(g, p) && n < |p|
    requires Connected(g, Coords(g, p))
    ensures IsWalk(g, p[..n + 1])
    ensures LeastTraffic.PathCost(g, p[..n + 1]) <= TrafficTo(g, Coords(g, p), n)
  {
    WalkTake(g, p, n);
    if n > 0 {
      CostTo(g, dist, p, n - 1);
      var q := p[..n + 1];
      WalkPrefix(g, q);
      assert q[..n] == p[..n];
      StepCovers(g, dist, p[n - 1], p[n]);
      CostStep(g, q, Coords(g, p));
    }
  }

  /** The bound for one more step follows from the bound before it and the bound for the step. */
  lemma CostStep(g: Graph, q: seq<int>, path: seq<Coordinate>)
    requires IsWalk(g, q) && |q| > 1 && IsWalk(g, q[..|q| - 1])
    requires Connected(g, path) && |q| <= |path|
    requires path[|q| - 2] == g.vertices[q[|q| - 2]] && path[|q| - 1] == g.vertices[q[|q| - 1]]
    requires LeastTraffic.PathCost(g, q[..|q| - 1]) <= TrafficTo(g, path, |q| - 2)
    requires Linked(g, path[|q| - 2], path[|q| - 1])
    requires Joined(g, q[|q| - 2], q[|q| - 1])
    requires LeastTraffic.StepTraffic(g, q[|q| - 2], q[|q| - 1]) <= BlockTraffic(LinkBlock(g, path[|q| - 2], path[|q| - 1]))
    ensures LeastTraffic.PathCost(g, q) <= TrafficTo(g, path, |q| - 1)
  {
    assert StepLinked(g, path, |q| - 2);
  }

  /** The record a step along a join is charged to is one the least-traffic search weighs. */
  lemma StepCovers(g: Graph, dist: (Coordinate, Coordinate) -> real, u: int, v: int)
    requires Valid(g) && Weighted(g, dist) && Joined(g, u, v) && 0 <= v < |g.vertices|
    ensures Linked(g, g.vertices[u], g.vertices[v])
    ensures LeastTraffic.StepTraffic(g, u, v) <= BlockTraffic(LinkBlock(g, g.vertices[u], g.vertices[v]))
  {
    var k :| 0 <= k < |g.adj[u]| && Target(g, g.adj[u][k]) == v;
    assert IndexOf(g.vertices, g.adj[u][k].first) == u;
    assert Other(g.adj[u][k], g.vertices[u]) == g.vertices[v];
    var curr, next := g.vertices[u], g.vertices[v];
    LinkedStep(g, curr, next);
    var b := LinkBlock(g, curr, next);
    var m := FirstLink(g.adj[u], curr, next);
    assert b == g.adj[u][m] && b.traffic == BlockTraffic(b);
  }
}
