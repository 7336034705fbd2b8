/**
 * Loading the campus map: an empty network, the parsed blocks filed into it, then every
 * record's length, traffic factor and traffic assigned.
 */
module RUMaps {
  import opened Network
  import opened Construction
  import opened Attributes

  /**
   * Builds the network from the parsed blocks and weighs every record. The result is well
   * formed, two-way and weighted, holds every block's endpoints, and with a non-negative
   * distance carries no negative traffic: the preconditions the searches rely on.
   */
  method Load(blocks: seq<RawBlock>, dist: (Coordinate, Coordinate) -> real, draw: (int, int) -> real)
    returns (rutgers: Network)
    requires forall i :: 0 <= i < |blocks| ==> |blocks[i].points| > 0
    ensures Assigned(Build(Graph([], []), blocks), rutgers.View(), dist, draw)
    ensures Valid(rutgers.View()) && Undirected(rutgers.View()) && Weighted(rutgers.View(), dist)
    ensures forall i :: 0 <= i < |blocks| ==>
      StartPoint(blocks[i]) in rutgers.vertices && EndPoint(blocks[i]) in rutgers.vertices
    ensures (forall a, b :: dist(a, b) >= 0.0) ==> NonNegTraffic(rutgers.View())
  {
    rutgers := new Network();
    InitializeIntersections(rutgers, blocks);
    ghost var built := rutgers.View();
    AssignAttributes(rutgers, dist, draw);
    BuildFromEmpty(blocks);
    AssignedKeepsShape(built, rutgers.View(), dist, draw);
    AssignedWeighted(built, rutgers.View(), dist, draw);
  }
}
