/**
 * The road network as the traversals see it: intersections (vertices) identified by their
 * coordinates, and per-vertex adjacency lists of directed block records.
 *
 * `Network`, `Block`, `Intersection` and `Coordinate` are classes of the original program whose
 * source is not part of this model; only the behaviour RUMaps relies on is modelled here.
 */
module Network {
  import opened Collections

  /** A point of the campus map; two coordinates are equal when both components are. */
  datatype Coordinate = Coordinate(x: int, y: int)

  /**
   * One adjacency record of a street block. Every physical block is stored twice, once in the
   * list of each endpoint, with `first` and `last` swapped between the two copies. `length`,
   * `factor` and `traffic` are 0.0 until the attribute pass assigns them.
   */
  datatype Block = Block(
    street: string,
    number: int,
    width: real,
    points: seq<Coordinate>,
    first: Coordinate,
    last: Coordinate,
    length: real,
    factor: real,
    traffic: real)

  /** The endpoint of `b` opposite to `c` (a record is entered from `first` or from `last`). */
  function Other(b: Block, c: Coordinate): Coordinate {
    if c == b.first then b.last else b.first
  }

  /** The network's state: the vertex coordinates, and for vertex i the list `adj[i]`, head first. */
  datatype Graph = Graph(vertices: seq<Coordinate>, adj: seq<seq<Block>>)

  /** The vertex a lookup of the record's far endpoint answers. */
  function Target(g: Graph, b: Block): int {
    IndexOf(g.vertices, b.last)
  }

  /**
   * Well-formed network: one list per vertex, every record is filed at the vertex its `first`
   * endpoint looks up to, and its `last` endpoint is registered.
   */
  ghost predicate Valid(g: Graph) {
    && |g.adj| == |g.vertices|
    && forall u, k :: 0 <= u < |g.adj| && 0 <= k < |g.adj[u]| ==>
         IndexOf(g.vertices, g.adj[u][k].first) == u && g.adj[u][k].last in g.vertices
  }

  /** Leaving vertex `u` through one of its records reaches vertex `v`. */
  ghost predicate Joined(g: Graph, u: int, v: int) {
    0 <= u < |g.adj| && exists k :: 0 <= k < |g.adj[u]| && Target(g, g.adj[u][k]) == v
  }

  /** A non-empty sequence of vertices, each joined to the next. */
  ghost predicate IsWalk(g: Graph, p: seq<int>) {
    && |p| > 0
    && (forall i :: 0 <= i < |p| ==> 0 <= p[i] < |g.vertices|)
    && (forall i :: 0 <= i < |p| - 1 ==> Joined(g, p[i], p[i + 1]))
  }

  ghost predicate Reachable(g: Graph, s: int, v: int) {
    exists p :: IsWalk(g, p) && p[0] == s && Last(p) == v
  }

  /** A set closed under following records. */
  ghost predicate Closed(g: Graph, c: set<int>) {
    forall u, k :: u in c && 0 <= u < |g.adj| && 0 <= k < |g.adj[u]| ==> Target(g, g.adj[u][k]) in c
  }

  /** Under `Valid`, a record at `u` entered from `u`'s own coordinate leads to its `last` endpoint. */
  lemma OtherIsLast(g: Graph, u: int, k: int)
    requires Valid(g) && 0 <= u < |g.adj| && 0 <= k < |g.adj[u]|
    ensures Other(g.adj[u][k], g.vertices[u]) == g.adj[u][k].last
    ensures IndexOf(g.vertices, Other(g.adj[u][k], g.vertices[u])) == Target(g, g.adj[u][k])
    ensures 0 <= Target(g, g.adj[u][k]) < |g.vertices|
  {
  }

  /** A closed set that holds the start of a walk holds every vertex of it. */
  lemma {:induction false} ClosedHoldsWalk(g: Graph, c: set<int>, p: seq<int>, i: int)
    requires Closed(g, c) && IsWalk(g, p) && p[0] in c
    requires 0 <= i < |p|
    ensures p[i] in c
  {
    if i > 0 {
      ClosedHoldsWalk(g, c, p, i - 1);
      assert Joined(g, p[i - 1], p[i]);
      var k :| 0 <= k < |g.adj[p[i - 1]]| && Target(g, g.adj[p[i - 1]][k]) == p[i];
    }
  }

  /** Everything reachable from a member of a closed set is in the set. */
  lemma ClosedHoldsReachable(g: Graph, c: set<int>, s: int, v: int)
    requires Closed(g, c) && s in c && Reachable(g, s, v)
    ensures v in c
  {
    var p :| IsWalk(g, p) && p[0] == s && Last(p) == v;
    ClosedHoldsWalk(g, c, p, |p| - 1);
  }

  /** Stepping along a record before a walk gives a walk. */
  lemma ReachableStep(g: Graph, u: int, w: int, v: int)
    requires 0 <= u < |g.vertices| && Joined(g, u, w) && Reachable(g, w, v)
    ensures Reachable(g, u, v)
  {
    var p :| IsWalk(g, p) && p[0] == w && Last(p) == v;
    var q := [u] + p;
    assert forall i :: 0 < i < |q| ==> q[i] == p[i - 1];
    assert IsWalk(g, q) && q[0] == u && Last(q) == v;
  }

  /** Every vertex reaches itself along the one-vertex walk. */
  lemma ReachableSelf(g: Graph, s: int)
    requires 0 <= s < |g.vertices|
    ensures Reachable(g, s, s)
  {
    assert IsWalk(g, [s]);
  }

  /** Dropping the last vertex of a walk of two or more vertices leaves a walk. */
  lemma WalkPrefix(g: Graph, p: seq<int>)
    requires IsWalk(g, p) && |p| > 1
    ensures IsWalk(g, p[..|p| - 1]) && Joined(g, p[|p| - 2], Last(p))
  {
    var q := p[..|p| - 1];
    assert forall i :: 0 <= i < |q| ==> q[i] == p[i];
  }

  /** The first `j + 1` vertices of a walk form a walk. */
  lemma WalkTake(g: Graph, p: seq<int>, j: int)
    requires IsWalk(g, p) && 0 <= j < |p|
    ensures IsWalk(g, p[..j + 1])
  {
    var q := p[..j + 1];
    assert forall i :: 0 <= i < |q| ==> q[i] == p[i];
  }

  /** A walk to `u` followed by a record from `u` to `v` is a walk to `v`. */
  lemma ReachableExtend(g: Graph, s: int, u: int, v: int)
    requires Reachable(g, s, u) && Joined(g, u, v) && 0 <= v < |g.vertices|
    ensures Reachable(g, s, v)
  {
    var p :| IsWalk(g, p) && p[0] == s && Last(p) == u;
    var q := p + [v];
    assert forall i :: 0 <= i < |p| ==> q[i] == p[i];
    assert IsWalk(g, q) && q[0] == s && Last(q) == v;
  }

  /** A list of vertices in range, each one reached by a record from the one after it. */
  ghost predicate BackChain(g: Graph, r: seq<int>) {
    && (forall i :: 0 <= i < |r| ==> 0 <= r[i] < |g.vertices|)
    && (forall i :: 0 <= i < |r| - 1 ==> Joined(g, r[i + 1], r[i]))
  }

  lemma BackChainSnoc(g: Graph, r: seq<int>, c: int)
    requires BackChain(g, r) && 0 <= c < |g.vertices| && (|r| > 0 ==> Joined(g, c, Last(r)))
    ensures BackChain(g, r + [c])
  {
    var r' := r + [c];
    assert forall i :: 0 <= i < |r| ==> r'[i] == r[i];
  }

  /** Read backwards, a back chain from `e` to `s` is a walk from `s` to `e`. */
  lemma BackChainReversed(g: Graph, r: seq<int>)
    requires BackChain(g, r) && |r| > 0
    ensures IsWalk(g, Reversed(r)) && Reversed(r)[0] == Last(r) && Last(Reversed(r)) == r[0]
  {
    var p := Reversed(r);
    forall i | 0 <= i < |p| - 1 ensures Joined(g, p[i], p[i + 1]) {
      assert p[i] == r[|r| - 1 - i] && p[i + 1] == r[|r| - 2 - i];
    }
  }

  /** The record `t` is the copy of `b` filed at the other endpoint. */
  predicate Mirrors(b: Block, t: Block) {
    && t.first == b.last && t.last == b.first && t.points == b.points
    && t.street == b.street && t.number == b.number && t.width == b.width
  }

  /** Every record has its mirror copy in the list of its far endpoint: the roads are two-way. */
  ghost predicate Undirected(g: Graph) {
    forall u, k :: 0 <= u < |g.adj| && 0 <= k < |g.adj[u]| ==>
      var j := Target(g, g.adj[u][k]);
      0 <= j < |g.adj| && exists m :: 0 <= m < |g.adj[j]| && Mirrors(g.adj[u][k], g.adj[j][m])
  }

  /** No record carries negative traffic. */
  ghost predicate NonNegTraffic(g: Graph) {
    forall u, k :: 0 <= u < |g.adj| && 0 <= k < |g.adj[u]| ==> g.adj[u][k].traffic >= 0.0
  }

  /** In a two-way network, joins go both ways. */
  lemma JoinedSymmetric(g: Graph, u: int, v: int)
    requires Valid(g) && Undirected(g) && Joined(g, u, v)
    ensures Joined(g, v, u)
  {
    var k :| 0 <= k < |g.adj[u]| && Target(g, g.adj[u][k]) == v;
    var m :| 0 <= m < |g.adj[v]| && Mirrors(g.adj[u][k], g.adj[v][m]);
    assert Target(g, g.adj[v][m]) == IndexOf(g.vertices, g.adj[u][k].first) == u;
  }

  /** In a two-way network reachability is symmetric, so a reachable set is a connected component. */
  lemma {:induction false} ReachableSymmetric(g: Graph, s: int, v: int)
    requires Valid(g) && Undirected(g) && Reachable(g, s, v)
    ensures Reachable(g, v, s)
  {
    var p :| IsWalk(g, p) && p[0] == s && Last(p) == v;
    var q := Reversed(p);
    forall i | 0 <= i < |q| - 1 ensures Joined(g, q[i], q[i + 1]) {
      assert q[i] == p[|p| - 1 - i] && q[i + 1] == p[|p| - 2 - i];
      JoinedSymmetric(g, p[|p| - 2 - i], p[|p| - 1 - i]);
    }
    assert IsWalk(g, q) && q[0] == v && Last(q) == s;
  }

  /** The mutable network object: vertices are appended, adjacency lists grow at the head. */
  class Network {
    var vertices: seq<Coordinate>
    var adj: seq<seq<Block>>

    constructor ()
      ensures vertices == [] && adj == []
    {
      vertices := [];
      adj := [];
    }

    function View(): Graph
      reads this
    {
      Graph(vertices, adj)
    }

    /** Index of the intersection at `c`, or -1. */
    function FindIntersection(c: Coordinate): int
      reads this
    {
      IndexOf(vertices, c)
    }

    /** Registers a new intersection at the next free index, with an empty adjacency list. */
    method AddIntersection(c: Coordinate)
      modifies this
      ensures vertices == old(vertices) + [c]
      ensures adj == old(adj) + [[]]
    {
      vertices := vertices + [c];
      adj := adj + [[]];
    }

    /** Puts `b` at the head of vertex `i`'s list; it adds one direction only. */
    method AddEdge(i: int, b: Block)
      requires 0 <= i < |adj|
      modifies this
      ensures vertices == old(vertices)
      ensures adj == old(adj)[i := [b] + old(adj)[i]]
    {
      adj := adj[i := [b] + adj[i]];
    }

    /** Overwrites record `k` of vertex `u`'s list, as the record's setters do in place. */
    method SetRecord(u: int, k: int, b: Block)
      requires 0 <= u < |adj| && 0 <= k < |adj[u]|
      modifies this
      ensures vertices == old(vertices)
      ensures adj == old(adj)[u := old(adj)[u][k := b]]
    {
      adj := adj[u := adj[u][k := b]];
    }
  }
}
