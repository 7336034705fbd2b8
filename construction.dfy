/**
 * Graph construction: every parsed block registers its two endpoint intersections (reusing
 * coordinates already present) and files two directed records, one under each endpoint.
 */
module Construction {
  import opened Collections
  import opened Network

  /** A block as the parser delivers it: street name, block number, road width and polyline. */
  datatype RawBlock = RawBlock(street: string, number: int, width: real, points: seq<Coordinate>)

  function StartPoint(b: RawBlock): Coordinate
    requires |b.points| > 0
  {
    b.points[0]
  }

  function EndPoint(b: RawBlock): Coordinate
    requires |b.points| > 0
  {
    Last(b.points)
  }

  /** The copy filed under the start vertex; its derived attributes are still 0.0. */
  function Forward(b: RawBlock): Block
    requires |b.points| > 0
  {
    Block(b.street, b.number, b.width, b.points, StartPoint(b), EndPoint(b), 0.0, 0.0, 0.0)
  }

  /** The copy filed under the end vertex: same geometry, endpoints swapped. */
  function Backward(b: RawBlock): Block
    requires |b.points| > 0
  {
    Forward(b).(first := EndPoint(b), last := StartPoint(b))
  }

  /**
   * The coordinates a block appends, in order: each endpoint whose lookup failed. Both lookups
   * are made before either insertion, so a block whose two endpoints are the same new
   * coordinate appends that coordinate twice.
   */
  function Fresh(v: seq<Coordinate>, s: Coordinate, e: Coordinate): seq<Coordinate> {
    (if s in v then [] else [s]) + (if e in v then [] else [e])
  }

  /** One empty adjacency list per coordinate `Fresh` appends. */
  function FreshLists(v: seq<Coordinate>, s: Coordinate, e: Coordinate): (r: seq<seq<Block>>)
    ensures |r| == |Fresh(v, s, e)| && forall i :: 0 <= i < |r| ==> r[i] == []
  {
    (if s in v then [] else [[]]) + (if e in v then [] else [[]])
  }

  /** The list vertex `u` had before the block was filed (a new vertex starts empty). */
  function ListBefore(g: Graph, u: int): seq<Block> {
    if 0 <= u < |g.adj| then g.adj[u] else []
  }

  /** The records a block puts at the head of vertex `u`'s list, given its start and end vertex. */
  function Filed(b: RawBlock, si: int, ei: int, u: int): seq<Block>
    requires |b.points| > 0
  {
    (if u == ei then [Backward(b)] else []) + (if u == si then [Forward(b)] else [])
  }

  /** The network after one block has been processed. */
  function Insert(g: Graph, b: RawBlock): (h: Graph)
    requires |g.adj| == |g.vertices| && |b.points| > 0
    ensures |h.adj| == |h.vertices|
    ensures h.vertices == g.vertices + Fresh(g.vertices, StartPoint(b), EndPoint(b))
    ensures StartPoint(b) in h.vertices && EndPoint(b) in h.vertices
  {
    var s, e := StartPoint(b), EndPoint(b);
    var v := g.vertices + Fresh(g.vertices, s, e);
    var si, ei := IndexOf(v, s), IndexOf(v, e);
    var lists := g.adj + FreshLists(g.vertices, s, e);
    Graph(v, Prepend(Prepend(lists, si, Forward(b)), ei, Backward(b)))
  }

  /** The lists with `r` put at the head of list `i`. */
  function Prepend(lists: seq<seq<Block>>, i: int, r: Block): (res: seq<seq<Block>>)
    requires 0 <= i < |lists|
    ensures |res| == |lists|
    ensures forall u :: 0 <= u < |lists| ==> res[u] == (if u == i then [r] else []) + lists[u]
  {
    lists[i := [r] + lists[i]]
  }

  /**
   * One block adds exactly two records: the forward copy at the head of the start vertex's
   * list and the swapped copy at the head of the end vertex's list; every other list is as
   * before.
   */
  lemma InsertFiles(g: Graph, b: RawBlock, u: int)
    requires |g.adj| == |g.vertices| && |b.points| > 0
    requires 0 <= u < |Insert(g, b).adj|
    ensures Insert(g, b).adj[u]
            == Filed(b, IndexOf(Insert(g, b).vertices, StartPoint(b)), IndexOf(Insert(g, b).vertices, EndPoint(b)), u)
               + ListBefore(g, u)
  {
    var h := Insert(g, b);
    var s, e := StartPoint(b), EndPoint(b);
    var si, ei := IndexOf(h.vertices, s), IndexOf(h.vertices, e);
    var lists := g.adj + FreshLists(g.vertices, s, e);
    assert lists[u] == ListBefore(g, u);
    FiledOnTop(b, lists, si, ei, u);
  }

  /** Putting the two copies at the heads of lists `si` and `ei` puts `Filed` on top of list `u`. */
  lemma FiledOnTop(b: RawBlock, lists: seq<seq<Block>>, si: int, ei: int, u: int)
    requires |b.points| > 0 && 0 <= si < |lists| && 0 <= ei < |lists| && 0 <= u < |lists|
    ensures Prepend(Prepend(lists, si, Forward(b)), ei, Backward(b))[u] == Filed(b, si, ei, u) + lists[u]
  {
    var l := lists[u];
    var withStart := Prepend(lists, si, Forward(b));
    var f := Filed(b, si, ei, u);
    if u == ei && u == si {
      assert f == [Backward(b), Forward(b)];
      assert [Backward(b)] + ([Forward(b)] + l) == f + l;
    } else if u == ei {
      assert f == [Backward(b)] && withStart[u] == l;
    } else if u == si {
      assert f == [Forward(b)];
    } else {
      assert f == [];
    }
  }

  /**
   * `h` is `g` after one block: the block's fresh endpoints appended, and every list with the
   * records `Filed` for it on top of the list it had before.
   */
  ghost predicate Files(g: Graph, b: RawBlock, h: Graph)
    requires |b.points| > 0
  {
    && |h.adj| == |h.vertices|
    && h.vertices == g.vertices + Fresh(g.vertices, StartPoint(b), EndPoint(b))
    && forall u :: 0 <= u < |h.adj| ==>
         h.adj[u] == Filed(b, IndexOf(h.vertices, StartPoint(b)), IndexOf(h.vertices, EndPoint(b)), u)
                     + ListBefore(g, u)
  }

  /** Every list of the network after `Insert`, as `InsertFiles` describes it. */
  lemma InsertFilesAll(g: Graph, b: RawBlock)
    requires |g.adj| == |g.vertices| && |b.points| > 0
    ensures Files(g, b, Insert(g, b))
  {
    forall u | 0 <= u < |Insert(g, b).adj| {
      InsertFiles(g, b, u);
    }
  }

  /** The network after the blocks have been processed in order. */
  function Build(g: Graph, blocks: seq<RawBlock>): (h: Graph)
    requires |g.adj| == |g.vertices|
    requires forall i :: 0 <= i < |blocks| ==> |blocks[i].points| > 0
    ensures |h.adj| == |h.vertices|
  {
    if blocks == [] then g else Insert(Build(g, blocks[..|blocks| - 1]), Last(blocks))
  }

  /**
   * Processes the blocks one by one: looks both endpoints up, registers the ones not found,
   * then files one record at the start vertex and the swapped copy at the end vertex.
   */
  method InitializeIntersections(net: Network, blocks: seq<RawBlock>)
    requires |net.adj| == |net.vertices|
    requires forall i :: 0 <= i < |blocks| ==> |blocks[i].points| > 0
    modifies net
    ensures net.View() == Build(old(net.View()), blocks)
  {
    ghost var g0 := net.View();
    for i := 0 to |blocks|
      invariant |net.adj| == |net.vertices|
      invariant net.View() == Build(g0, blocks[..i])
    {
      AddBlock(net, blocks[i]);
      assert blocks[..i + 1][..i] == blocks[..i];
    }
    assert blocks[..|blocks|] == blocks;
  }

  /** The body of the construction loop for one block. */
  method AddBlock(net: Network, block: RawBlock)
    requires |net.adj| == |net.vertices| && |block.points| > 0
    modifies net
    ensures net.View() == Insert(old(net.View()), block)
  {
    var startingPoint := block.points[0];
    var endingPoint := block.points[|block.points| - 1];
    var startIndex, endIndex := RegisterEndpoints(net, startingPoint, endingPoint);
    net.AddEdge(startIndex, Forward(block));
    net.AddEdge(endIndex, Backward(block));
  }

  /**
   * Looks both endpoints up first, then registers each one that was not found and looks it up
   * again; answers the vertices of the two endpoints in the updated network.
   */
  method RegisterEndpoints(net: Network, startingPoint: Coordinate, endingPoint: Coordinate)
    returns (startIndex: int, endIndex: int)
    requires |net.adj| == |net.vertices|
    modifies net
    ensures net.vertices == old(net.vertices) + Fresh(old(net.vertices), startingPoint, endingPoint)
    ensures net.adj == old(net.adj) + FreshLists(old(net.vertices), startingPoint, endingPoint)
    ensures startIndex == IndexOf(net.vertices, startingPoint)
    ensures endIndex == IndexOf(net.vertices, endingPoint)
  {
    ghost var v := net.vertices;
    startIndex := net.FindIntersection(startingPoint);
    endIndex := net.FindIntersection(endingPoint);
    if startIndex == -1 {
      net.AddIntersection(startingPoint);
      startIndex := net.FindIntersection(startingPoint);
      IndexOfAppend(v, [startingPoint], endingPoint);
    }
    ghost var w := net.vertices;
    if endIndex == -1 {
      net.AddIntersection(endingPoint);
      endIndex := net.FindIntersection(endingPoint);
      IndexOfAppend(w, [endingPoint], startingPoint);
    }
    assert net.vertices == v + Fresh(v, startingPoint, endingPoint);
  }

  /** Processing a block keeps the network well formed. */
  lemma InsertValid(g: Graph, b: RawBlock)
    requires Valid(g) && |b.points| > 0
    ensures Valid(Insert(g, b))
  {
    var h := Insert(g, b);
    InsertFilesAll(g, b);
    forall u, k | 0 <= u < |h.adj| && 0 <= k < |h.adj[u]|
      ensures IndexOf(h.vertices, h.adj[u][k].first) == u && h.adj[u][k].last in h.vertices
    {
      FiledValidAt(g, b, h, u, k);
    }
  }

  /** The record at position `k` of vertex `u`'s list after filing a block is filed where it belongs. */
  lemma FiledValidAt(g: Graph, b: RawBlock, h: Graph, u: int, k: int)
    requires Valid(g) && |b.points| > 0 && Files(g, b, h)
    requires 0 <= u < |h.adj| && 0 <= k < |h.adj[u]|
    ensures IndexOf(h.vertices, h.adj[u][k].first) == u && h.adj[u][k].last in h.vertices
  {
    var s, e := StartPoint(b), EndPoint(b);
    var si, ei := IndexOf(h.vertices, s), IndexOf(h.vertices, e);
    var d := |Filed(b, si, ei, u)|;
    if k >= d {
      var r := g.adj[u][k - d];
      assert h.adj[u][k] == r;
      IndexOfAppend(g.vertices, Fresh(g.vertices, s, e), r.first);
    } else if u == ei && k == 0 {
      assert h.adj[u][k] == Backward(b);
    } else {
      assert h.adj[u][k] == Forward(b);
    }
  }

  /** Processing a block keeps every record's mirror copy at its far endpoint. */
  lemma InsertUndirected(g: Graph, b: RawBlock)
    requires Valid(g) && Undirected(g) && |b.points| > 0
    ensures Undirected(Insert(g, b))
  {
    var h := Insert(g, b);
    InsertFilesAll(g, b);
    forall u, k | 0 <= u < |h.adj| && 0 <= k < |h.adj[u]|
      ensures var j := Target(h, h.adj[u][k]);
              0 <= j < |h.adj| && exists m :: 0 <= m < |h.adj[j]| && Mirrors(h.adj[u][k], h.adj[j][m])
    {
      FiledMirrorAt(g, b, h, u, k);
    }
  }

  /** The record at position `k` of vertex `u`'s list after filing a block has its mirror in place. */
  lemma FiledMirrorAt(g: Graph, b: RawBlock, h: Graph, u: int, k: int)
    requires Valid(g) && Undirected(g) && |b.points| > 0 && Files(g, b, h)
    requires 0 <= u < |h.adj| && 0 <= k < |h.adj[u]|
    ensures var j := Target(h, h.adj[u][k]);
            0 <= j < |h.adj| && exists m :: 0 <= m < |h.adj[j]| && Mirrors(h.adj[u][k], h.adj[j][m])
  {
    var si, ei := IndexOf(h.vertices, StartPoint(b)), IndexOf(h.vertices, EndPoint(b));
    var d := |Filed(b, si, ei, u)|;
    if k >= d {
      assert h.adj[u][k] == g.adj[u][k - d];
      OldRecordMirrored(g, b, h, u, k - d);
    } else if u == ei && k == 0 {
      assert h.adj[u][k] == Backward(b);
      NewRecordsMirrored(g, b, h);
      assert Mirrors(h.adj[u][k], h.adj[si][if si == ei then 1 else 0]);
    } else {
      assert h.adj[u][k] == Forward(b);
      NewRecordsMirrored(g, b, h);
      assert Mirrors(h.adj[u][k], h.adj[ei][0]);
    }
  }

  /** A record that was in the network before keeps its mirror, shifted behind the new records. */
  lemma OldRecordMirrored(g: Graph, b: RawBlock, h: Graph, u: int, k: int)
    requires Valid(g) && Undirected(g) && |b.points| > 0 && Files(g, b, h)
    requires 0 <= u < |g.adj| && 0 <= k < |g.adj[u]|
    ensures var j := Target(h, g.adj[u][k]);
            0 <= j < |h.adj| && exists m :: 0 <= m < |h.adj[j]| && Mirrors(g.adj[u][k], h.adj[j][m])
  {
    var r := g.adj[u][k];
    var j := Target(g, r);
    var m :| 0 <= m < |g.adj[j]| && Mirrors(r, g.adj[j][m]);
    IndexOfAppend(g.vertices, Fresh(g.vertices, StartPoint(b), EndPoint(b)), r.last);
    assert Target(h, r) == j;
    var dj := |Filed(b, IndexOf(h.vertices, StartPoint(b)), IndexOf(h.vertices, EndPoint(b)), j)|;
    assert h.adj[j][m + dj] == g.adj[j][m];
  }

  /** The two new copies of the block are each other's mirrors, each filed where the other leads. */
  lemma NewRecordsMirrored(g: Graph, b: RawBlock, h: Graph)
    requires |g.adj| == |g.vertices| && |b.points| > 0 && Files(g, b, h)
    ensures var si, ei := IndexOf(h.vertices, StartPoint(b)), IndexOf(h.vertices, EndPoint(b));
            && Target(h, Forward(b)) == ei && Target(h, Backward(b)) == si
            && 0 <= si < |h.adj| && 0 <= ei < |h.adj|
            && Mirrors(Forward(b), Backward(b)) && Mirrors(Backward(b), Forward(b))
            && h.adj[ei][0] == Backward(b)
            && h.adj[si][if si == ei then 1 else 0] == Forward(b)
  {
    var si, ei := IndexOf(h.vertices, StartPoint(b)), IndexOf(h.vertices, EndPoint(b));
    assert StartPoint(b) in h.vertices && EndPoint(b) in h.vertices;
    assert h.adj[si] == Filed(b, si, ei, si) + ListBefore(g, si);
    assert h.adj[ei] == Filed(b, si, ei, ei) + ListBefore(g, ei);
  }

  /**
   * Coordinates stay distinct unless the block is a self-loop at a coordinate not yet
   * registered; that case appends the coordinate twice.
   */
  lemma InsertDistinct(g: Graph, b: RawBlock)
    requires |g.adj| == |g.vertices| && |b.points| > 0
    ensures Distinct(g.vertices) && !(StartPoint(b) == EndPoint(b) && StartPoint(b) !in g.vertices)
            ==> Distinct(Insert(g, b).vertices)
    ensures StartPoint(b) == EndPoint(b) && StartPoint(b) !in g.vertices
            ==> Insert(g, b).vertices == g.vertices + [StartPoint(b), StartPoint(b)]
  {
    var v := Insert(g, b).vertices;
    var n := |g.vertices|;
    if Distinct(g.vertices) && !(StartPoint(b) == EndPoint(b) && StartPoint(b) !in g.vertices) {
      forall i, j | 0 <= i < j < |v| ensures v[i] != v[j] {
        if j >= n && i < n {
          assert v[i] in g.vertices;
        }
      }
    }
  }

  /** Looking up a coordinate that was registered before gives the same vertex afterwards. */
  lemma InsertKeepsLookups(g: Graph, b: RawBlock, c: Coordinate)
    requires |g.adj| == |g.vertices| && |b.points| > 0 && c in g.vertices
    ensures IndexOf(Insert(g, b).vertices, c) == IndexOf(g.vertices, c)
  {
    IndexOfAppend(g.vertices, Fresh(g.vertices, StartPoint(b), EndPoint(b)), c);
  }

  /** Building from a well-formed two-way network gives a well-formed two-way network. */
  lemma {:induction false} BuildValid(g: Graph, blocks: seq<RawBlock>)
    requires Valid(g) && Undirected(g)
    requires forall i :: 0 <= i < |blocks| ==> |blocks[i].points| > 0
    ensures Valid(Build(g, blocks)) && Undirected(Build(g, blocks))
    decreases |blocks|
  {
    if blocks != [] {
      var prefix := blocks[..|blocks| - 1];
      BuildValid(g, prefix);
      InsertValid(Build(g, prefix), Last(blocks));
      InsertUndirected(Build(g, prefix), Last(blocks));
    }
  }

  /**
   * After building, every endpoint of every block is registered, and every coordinate that was
   * registered before still looks up to the same vertex.
   */
  lemma {:induction false} BuildRegisters(g: Graph, blocks: seq<RawBlock>)
    requires |g.adj| == |g.vertices|
    requires forall i :: 0 <= i < |blocks| ==> |blocks[i].points| > 0
    ensures forall i :: 0 <= i < |blocks| ==>
      StartPoint(blocks[i]) in Build(g, blocks).vertices && EndPoint(blocks[i]) in Build(g, blocks).vertices
    ensures forall c :: c in g.vertices ==> IndexOf(Build(g, blocks).vertices, c) == IndexOf(g.vertices, c)
    decreases |blocks|
  {
    if blocks != [] {
      var prefix := blocks[..|blocks| - 1];
      BuildRegisters(g, prefix);
      var h := Build(g, prefix);
      forall c | c in h.vertices
        ensures IndexOf(Insert(h, Last(blocks)).vertices, c) == IndexOf(h.vertices, c)
      {
        InsertKeepsLookups(h, Last(blocks), c);
      }
      forall i | 0 <= i < |blocks|
        ensures StartPoint(blocks[i]) in Build(g, blocks).vertices && EndPoint(blocks[i]) in Build(g, blocks).vertices
      {
        if i < |blocks| - 1 {
          assert blocks[i] == prefix[i];
        }
      }
    }
  }

  /**
   * Building keeps vertex coordinates pairwise distinct, as long as every self-loop block comes
   * after its coordinate is registered (a self-loop at a new coordinate registers it twice).
   */
  lemma {:induction false} BuildDistinct(g: Graph, blocks: seq<RawBlock>)
    requires |g.adj| == |g.vertices| && Distinct(g.vertices)
    requires forall i :: 0 <= i < |blocks| ==> |blocks[i].points| > 0
    requires forall i :: 0 <= i < |blocks| && StartPoint(blocks[i]) == EndPoint(blocks[i]) ==>
      StartPoint(blocks[i]) in Build(g, blocks[..i]).vertices
    ensures Distinct(Build(g, blocks).vertices)
    decreases |blocks|
  {
    if blocks != [] {
      var prefix := blocks[..|blocks| - 1];
      forall i | 0 <= i < |prefix| ensures prefix[..i] == blocks[..i] {
      }
      BuildDistinct(g, prefix);
      assert blocks[..|blocks| - 1] == prefix;
      InsertDistinct(Build(g, prefix), Last(blocks));
    }
  }

  /** The network built from scratch is well formed, two-way, and holds every block's endpoints. */
  lemma BuildFromEmpty(blocks: seq<RawBlock>)
    requires forall i :: 0 <= i < |blocks| ==> |blocks[i].points| > 0
    ensures Valid(Build(Graph([], []), blocks)) && Undirected(Build(Graph([], []), blocks))
    ensures forall i :: 0 <= i < |blocks| ==>
      StartPoint(blocks[i]) in Build(Graph([], []), blocks).vertices
      && EndPoint(blocks[i]) in Build(Graph([], []), blocks).vertices
  {
    BuildValid(Graph([], []), blocks);
    BuildRegisters(Graph([], []), blocks);
  }
}
