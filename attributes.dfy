/**
 * Per-record attributes: the polyline length of a block, the clamped traffic factor and the
 * traffic (factor times length), and the pass that assigns all three to every adjacency record.
 *
 * The distance between two points is a parameter `dist`; the program's Euclidean distance is
 * non-negative and symmetric, which is all the properties below rely on. The Gaussian sample of
 * the traffic factor is a parameter too: `draw(u, k)` is the sample drawn for record `k` of
 * vertex `u`.
 */
module Attributes {
  import opened Collections
  import opened Network

  /** Sum of the distances between consecutive points, accumulated from the first segment on. */
  function PolylineLength(pts: seq<Coordinate>, dist: (Coordinate, Coordinate) -> real): (r: real)
    ensures (forall a, b :: dist(a, b) >= 0.0) ==> r >= 0.0
  {
    if |pts| <= 1 then 0.0
    else PolylineLength(pts[..|pts| - 1], dist) + dist(pts[|pts| - 2], pts[|pts| - 1])
  }

  /** The first segment can be split off the front as well as the last one off the back. */
  lemma {:induction false} PolylineFront(pts: seq<Coordinate>, dist: (Coordinate, Coordinate) -> real)
    requires |pts| >= 2
    ensures PolylineLength(pts, dist) == dist(pts[0], pts[1]) + PolylineLength(pts[1..], dist)
    decreases |pts|
  {
    var n := |pts|;
    if n > 2 {
      PolylineFront(pts[..n - 1], dist);
      assert pts[..n - 1][1..] == pts[1..][..n - 2];
    } else {
      assert pts[..1][..0] == [];
    }
  }

  /**
   * With a symmetric distance, a polyline read backwards has the same length: the length
   * does not depend on which endpoint a block's points start from.
   */
  lemma {:induction false} PolylineReversed(pts: seq<Coordinate>, dist: (Coordinate, Coordinate) -> real)
    requires forall a, b :: dist(a, b) == dist(b, a)
    ensures PolylineLength(Reversed(pts), dist) == PolylineLength(pts, dist)
    decreases |pts|
  {
    if |pts| >= 2 {
      var back := Reversed(pts[1..]);
      PolylineReversed(pts[1..], dist);
      PolylineFront(pts, dist);
      assert Reversed(pts) == back + [pts[0]];
      assert (back + [pts[0]])[..|pts| - 1] == back;
    } else if |pts| == 1 {
      assert Reversed(pts) == pts;
    }
  }

  /** Sums the segment distances of the block's polyline. */
  method BlockLength(block: Block, dist: (Coordinate, Coordinate) -> real) returns (totalDistance: real)
    ensures totalDistance == PolylineLength(block.points, dist)
  {
    var coords := block.points;
    totalDistance := 0.0;
    var i := 0;
    while i < |coords| - 1
      invariant 0 <= i
      invariant |coords| > 0 ==> i < |coords| && totalDistance == PolylineLength(coords[..i + 1], dist)
      invariant |coords| == 0 ==> totalDistance == 0.0
    {
      assert coords[..i + 2][..i + 1] == coords[..i + 1];
      totalDistance := totalDistance + dist(coords[i], coords[i + 1]);
      i := i + 1;
    }
    if |coords| > 0 {
      assert coords[..i + 1] == coords;
    }
  }

  /** The sampled factor clamped into [0.5, 1.5]: first raised to 0.5, then lowered to 1.5. */
  function ClampFactor(sample: real): (f: real)
    ensures 0.5 <= f <= 1.5
    ensures 0.5 <= sample <= 1.5 ==> f == sample
    ensures sample < 0.5 ==> f == 0.5
    ensures sample > 1.5 ==> f == 1.5
  {
    var raised := if sample > 0.5 then sample else 0.5;
    if raised < 1.5 then raised else 1.5
  }

  /** The traffic a record carries: its factor times its length. */
  function BlockTraffic(b: Block): (t: real)
    ensures b.factor >= 0.0 && b.length >= 0.0 ==> t >= 0.0
    ensures 0.5 <= b.factor <= 1.5 && b.length >= 0.0 ==> 0.5 * b.length <= t <= 1.5 * b.length
  {
    ProductBounds(b.factor, b.length);
    b.factor * b.length
  }

  lemma ProductBounds(f: real, l: real)
    ensures f >= 0.0 && l >= 0.0 ==> f * l >= 0.0
    ensures 0.5 <= f <= 1.5 && l >= 0.0 ==> 0.5 * l <= f * l <= 1.5 * l
  {
    if 0.5 <= f <= 1.5 && l >= 0.0 {
      MulNonNeg(f - 0.5, l);
      MulNonNeg(1.5 - f, l);
    }
  }

  lemma MulNonNeg(a: real, b: real)
    requires a >= 0.0 && b >= 0.0
    ensures a * b >= 0.0
  {
  }

  /** A record after the attribute pass: length, then factor, then traffic from both. */
  function Measured(b: Block, dist: (Coordinate, Coordinate) -> real, sample: real): Block {
    var withLength := b.(length := PolylineLength(b.points, dist));
    var withFactor := withLength.(factor := ClampFactor(sample));
    withFactor.(traffic := BlockTraffic(withFactor))
  }

  /** `h` is `g` with every record's attributes assigned; nothing else differs. */
  ghost predicate Assigned(g: Graph, h: Graph, dist: (Coordinate, Coordinate) -> real, draw: (int, int) -> real) {
    && h.vertices == g.vertices
    && |h.adj| == |g.adj|
    && (forall u :: 0 <= u < |g.adj| ==> |h.adj[u]| == |g.adj[u]|)
    && (forall u, k :: 0 <= u < |g.adj| && 0 <= k < |g.adj[u]| ==>
          h.adj[u][k] == Measured(g.adj[u][k], dist, draw(u, k)))
  }

  /**
   * Walks every adjacency list from its head and sets each record's length, traffic factor
   * and traffic, in that order.
   */
  method AssignAttributes(net: Network, dist: (Coordinate, Coordinate) -> real, draw: (int, int) -> real)
    modifies net
    ensures Assigned(old(net.View()), net.View(), dist, draw)
  {
    ghost var g := net.View();
    for u := 0 to |net.adj|
      invariant net.vertices == g.vertices && |net.adj| == |g.adj|
      invariant forall w :: 0 <= w < |g.adj| ==> |net.adj[w]| == |g.adj[w]|
      invariant forall w, k :: 0 <= w < u && 0 <= k < |g.adj[w]| ==>
                  net.adj[w][k] == Measured(g.adj[w][k], dist, draw(w, k))
      invariant forall w :: u <= w < |g.adj| ==> net.adj[w] == g.adj[w]
    {
      var k := 0;
      while k < |net.adj[u]|
        invariant net.vertices == g.vertices && |net.adj| == |g.adj|
        invariant forall w :: 0 <= w < |g.adj| ==> |net.adj[w]| == |g.adj[w]|
        invariant 0 <= k <= |net.adj[u]|
        invariant forall w, j :: 0 <= w < u && 0 <= j < |g.adj[w]| ==>
                    net.adj[w][j] == Measured(g.adj[w][j], dist, draw(w, j))
        invariant forall j :: 0 <= j < k ==> net.adj[u][j] == Measured(g.adj[u][j], dist, draw(u, j))
        invariant forall j :: k <= j < |g.adj[u]| ==> net.adj[u][j] == g.adj[u][j]
        invariant forall w :: u < w < |g.adj| ==> net.adj[w] == g.adj[w]
      {
        var ptr := net.adj[u][k];
        var len := BlockLength(ptr, dist);
        ptr := ptr.(length := len);
        ptr := ptr.(factor := ClampFactor(draw(u, k)));
        ptr := ptr.(traffic := BlockTraffic(ptr));
        net.SetRecord(u, k, ptr);
        k := k + 1;
      }
    }
  }

  /**
   * Every record's attributes are consistent: its length is its polyline's length, its factor
   * lies in [0.5, 1.5] and its traffic is factor times length.
   */
  ghost predicate Weighted(g: Graph, dist: (Coordinate, Coordinate) -> real) {
    forall u, k :: 0 <= u < |g.adj| && 0 <= k < |g.adj[u]| ==>
      && g.adj[u][k].length == PolylineLength(g.adj[u][k].points, dist)
      && 0.5 <= g.adj[u][k].factor <= 1.5
      && g.adj[u][k].traffic == BlockTraffic(g.adj[u][k])
  }

  /**
   * After the pass every record is weighted, and with a non-negative distance no record's
   * traffic is negative.
   */
  lemma AssignedWeighted(g: Graph, h: Graph, dist: (Coordinate, Coordinate) -> real, draw: (int, int) -> real)
    requires Assigned(g, h, dist, draw)
    ensures Weighted(h, dist)
    ensures (forall a, b :: dist(a, b) >= 0.0) ==> NonNegTraffic(h)
  {
    forall u, k | 0 <= u < |h.adj| && 0 <= k < |h.adj[u]|
      ensures h.adj[u][k].length == PolylineLength(h.adj[u][k].points, dist)
      ensures 0.5 <= h.adj[u][k].factor <= 1.5
      ensures h.adj[u][k].traffic == BlockTraffic(h.adj[u][k])
      ensures (forall a, b :: dist(a, b) >= 0.0) ==> h.adj[u][k].traffic >= 0.0
    {
      assert h.adj[u][k] == Measured(g.adj[u][k], dist, draw(u, k));
    }
  }

  /** The pass changes no endpoint and no polyline, so it keeps a network well formed and two-way. */
  lemma AssignedKeepsShape(g: Graph, h: Graph, dist: (Coordinate, Coordinate) -> real, draw: (int, int) -> real)
    requires Assigned(g, h, dist, draw)
    ensures Valid(g) ==> Valid(h)
    ensures Undirected(g) ==> Undirected(h)
  {
    forall u, k | 0 <= u < |h.adj| && 0 <= k < |h.adj[u]|
      ensures h.adj[u][k].first == g.adj[u][k].first && h.adj[u][k].last == g.adj[u][k].last
      ensures Target(h, h.adj[u][k]) == Target(g, g.adj[u][k])
      ensures forall t :: Mirrors(g.adj[u][k], t) <==> Mirrors(h.adj[u][k], t)
    {
      assert h.adj[u][k] == Measured(g.adj[u][k], dist, draw(u, k));
    }
    if Undirected(g) {
      forall u, k | 0 <= u < |h.adj| && 0 <= k < |h.adj[u]|
        ensures var j := Target(h, h.adj[u][k]);
                0 <= j < |h.adj| && exists m :: 0 <= m < |h.adj[j]| && Mirrors(h.adj[u][k], h.adj[j][m])
      {
        var j := Target(g, g.adj[u][k]);
        var m :| 0 <= m < |g.adj[j]| && Mirrors(g.adj[u][k], g.adj[j][m]);
        assert h.adj[j][m] == Measured(g.adj[j][m], dist, draw(j, m));
        assert Mirrors(h.adj[u][k], h.adj[j][m]);
      }
    }
  }

  /**
   * The two copies of a block carry the same length: in a weighted two-way network every
   * record's mirror at its far endpoint has the record's length (their traffic may differ,
   * since each copy has its own factor).
   */
  lemma TwinsShareLength(g: Graph, dist: (Coordinate, Coordinate) -> real, u: int, k: int)
    requires Weighted(g, dist) && Undirected(g)
    requires 0 <= u < |g.adj| && 0 <= k < |g.adj[u]|
    ensures var j := Target(g, g.adj[u][k]);
            0 <= j < |g.adj|
            && exists m :: 0 <= m < |g.adj[j]| && Mirrors(g.adj[u][k], g.adj[j][m])
                           && g.adj[j][m].length == g.adj[u][k].length
  {
    var j := Target(g, g.adj[u][k]);
    var m :| 0 <= m < |g.adj[j]| && Mirrors(g.adj[u][k], g.adj[j][m]);
    assert g.adj[j][m].length == PolylineLength(g.adj[j][m].points, dist);
  }
}
