/**
 * The least-traffic path between two intersections: Dijkstra's algorithm over a `done` list,
 * a `fringe` list scanned linearly for its first minimum, and per-vertex `distances` and
 * `predecessors`, followed by a walk back along `predecessors` from the end.
 *
 * A distance of `None` stands for the "not reached yet" sentinel the program stores as the
 * largest double value.
 */
module LeastTraffic {
  import opened Collections
  import opened Network

  /** The least traffic among the records of `recs` that lead to vertex `v`, if any does. */
  function Cheapest(g: Graph, recs: seq<Block>, v: int): (c: Option<real>)
    ensures c.None? <==> forall k :: 0 <= k < |recs| ==> Target(g, recs[k]) != v
    ensures c.Some? ==> exists k :: 0 <= k < |recs| && Target(g, recs[k]) == v && recs[k].traffic == c.value
    ensures c.Some? ==> forall k :: 0 <= k < |recs| && Target(g, recs[k]) == v ==> c.value <= recs[k].traffic
  {
    if recs == [] then None
    else
      var rest := Cheapest(g, recs[1..], v);
      assert forall k :: 1 <= k < |recs| ==> recs[k] == recs[1..][k - 1];
      if Target(g, recs[0]) != v then rest
      else if rest.Some? && rest.value < recs[0].traffic then rest
      else Some(recs[0].traffic)
  }

  /** The cost of stepping from `u` to `v`: the least traffic of a record joining them. */
  function StepTraffic(g: Graph, u: int, v: int): (t: real)
    requires Joined(g, u, v)
    ensures exists k :: 0 <= k < |g.adj[u]| && Target(g, g.adj[u][k]) == v && g.adj[u][k].traffic == t
    ensures forall k :: 0 <= k < |g.adj[u]| && Target(g, g.adj[u][k]) == v ==> t <= g.adj[u][k].traffic
  {
    Cheapest(g, g.adj[u], v).value
  }

  /** The traffic of a walk: the sum of the costs of its steps. */
  function PathCost(g: Graph, p: seq<int>): (c: real)
    requires IsWalk(g, p)
    ensures NonNegTraffic(g) ==> c >= 0.0
    decreases |p|
  {
    if |p| == 1 then 0.0
    else
      WalkPrefix(g, p);
      PathCost(g, p[..|p| - 1]) + StepTraffic(g, p[|p| - 2], Last(p))
  }

  /** With no negative traffic, a prefix of a walk costs no more than the walk. */
  lemma {:induction false} PathCostPrefix(g: Graph, p: seq<int>, j: int)
    requires IsWalk(g, p) && NonNegTraffic(g) && 0 <= j < |p|
    ensures IsWalk(g, p[..j + 1]) && PathCost(g, p[..j + 1]) <= PathCost(g, p)
    decreases |p|
  {
    WalkTake(g, p, j);
    if j < |p| - 1 {
      var q := p[..|p| - 1];
      WalkPrefix(g, p);
      PathCostPrefix(g, q, j);
      assert q[..j + 1] == p[..j + 1];
    } else {
      assert p[..j + 1] == p;
    }
  }

  /** Stepping from `c` to the start of a walk adds the step's cost in front. */
  lemma {:induction false} PathCostCons(g: Graph, c: int, q: seq<int>)
    requires IsWalk(g, q) && 0 <= c < |g.vertices| && Joined(g, c, q[0])
    ensures IsWalk(g, [c] + q) && PathCost(g, [c] + q) == StepTraffic(g, c, q[0]) + PathCost(g, q)
    decreases |q|
  {
    var p := [c] + q;
    assert forall i :: 0 < i < |p| ==> p[i] == q[i - 1];
    assert IsWalk(g, p);
    WalkPrefix(g, p);
    if |q| == 1 {
      assert p[..|p| - 1] == [c];
    } else {
      var q' := q[..|q| - 1];
      WalkPrefix(g, q);
      PathCostCons(g, c, q');
      ConsDropLast(c, q);
      assert p[|p| - 2] == q[|q| - 2];
    }
  }

  /** `x` is below the distance `d`; a missing distance is above every number. */
  predicate Below(x: real, d: Option<real>) {
    d.None? || x < d.value
  }

  /** The shape of the search state. */
  ghost predicate Layout(g: Graph, s: int, done: seq<int>, fringe: seq<int>,
                         distances: seq<Option<real>>, predecessors: seq<Option<int>>)
  {
    && |g.adj| == |g.vertices| && |distances| == |g.vertices| && |predecessors| == |g.vertices|
    && 0 <= s < |g.vertices| && distances[s] == Some(0.0) && predecessors[s] == None
    && Distinct(done) && Distinct(fringe)
    && (forall i :: 0 <= i < |done| ==> 0 <= done[i] < |g.vertices| && distances[done[i]].Some?)
    && (forall i :: 0 <= i < |fringe| ==>
          0 <= fringe[i] < |g.vertices| && distances[fringe[i]].Some? && fringe[i] !in done)
    && (forall v :: 0 <= v < |g.vertices| && distances[v].Some? && v !in done ==> v in fringe)
    && (if done == [] then fringe == [s] else done[0] == s)
  }

  /**
   * Every vertex with a distance, other than the start, has a predecessor: a vertex settled
   * before it, joined to it, whose distance plus the step's cost is at most its own.
   */
  ghost predicate Links(g: Graph, s: int, done: seq<int>, distances: seq<Option<real>>, predecessors: seq<Option<int>>)
    requires |distances| == |g.vertices| && |predecessors| == |g.vertices|
  {
    forall v :: 0 <= v < |g.vertices| ==>
      && (distances[v].Some? && v != s ==> predecessors[v].Some?)
      && (predecessors[v].Some? ==>
            && 0 <= predecessors[v].value < |g.vertices|
            && distances[v].Some? && distances[predecessors[v].value].Some?
            && predecessors[v].value in done
            && Joined(g, predecessors[v].value, v)
            && distances[v].value >= distances[predecessors[v].value].value + StepTraffic(g, predecessors[v].value, v)
            && (v in done ==> IndexOf(done, predecessors[v].value) < IndexOf(done, v)))
  }

  /** Every record out of the first `count` settled vertices has been relaxed. */
  ghost predicate Relaxed(g: Graph, done: seq<int>, count: int, distances: seq<Option<real>>)
    requires |g.adj| == |g.vertices| && |distances| == |g.vertices|
    requires 0 <= count <= |done| && forall i :: 0 <= i < |done| ==> 0 <= done[i] < |g.vertices|
  {
    forall i, k :: 0 <= i < count && 0 <= k < |g.adj[done[i]]| ==>
      Target(g, g.adj[done[i]][k]) in done
      || (&& 0 <= Target(g, g.adj[done[i]][k]) < |g.vertices|
          && distances[Target(g, g.adj[done[i]][k])].Some? && distances[done[i]].Some?
          && distances[Target(g, g.adj[done[i]][k])].value
             <= distances[done[i]].value + g.adj[done[i]][k].traffic)
  }

  /** No walk from `s` to `x` costs less than `d`. */
  ghost predicate Settled(g: Graph, s: int, d: real, x: int) {
    forall p :: IsWalk(g, p) && p[0] == s && Last(p) == x ==> d <= PathCost(g, p)
  }

  /** With no negative traffic, every settled vertex's distance is the least cost of a walk to it. */
  ghost predicate Optimal(g: Graph, s: int, done: seq<int>, distances: seq<Option<real>>)
    requires forall i :: 0 <= i < |done| ==> 0 <= done[i] < |distances| && distances[done[i]].Some?
  {
    NonNegTraffic(g) ==> forall i :: 0 <= i < |done| ==> Settled(g, s, distances[done[i]].value, done[i])
  }

  /** The whole search state between iterations. */
  ghost predicate Searching(g: Graph, s: int, done: seq<int>, fringe: seq<int>,
                            distances: seq<Option<real>>, predecessors: seq<Option<int>>)
  {
    && Layout(g, s, done, fringe, distances, predecessors)
    && Links(g, s, done, distances, predecessors)
    && Relaxed(g, done, |done|, distances)
    && Optimal(g, s, done, distances)
  }

  /** Index of the first fringe vertex of least distance, by a linear scan. */
  method ExtractMin(fringe: seq<int>, distances: seq<Option<real>>) returns (minIndex: int)
    requires |fringe| > 0
    requires forall i :: 0 <= i < |fringe| ==> 0 <= fringe[i] < |distances| && distances[fringe[i]].Some?
    ensures 0 <= minIndex < |fringe|
    ensures forall i :: 0 <= i < |fringe| ==> distances[fringe[minIndex]].value <= distances[fringe[i]].value
    ensures forall i :: 0 <= i < minIndex ==> distances[fringe[minIndex]].value < distances[fringe[i]].value
  {
    minIndex := 0;
    var minDist := distances[fringe[0]].value;
    for i := 1 to |fringe|
      invariant 0 <= minIndex < i && minDist == distances[fringe[minIndex]].value
      invariant forall j :: 0 <= j < i ==> minDist <= distances[fringe[j]].value
      invariant forall j :: 0 <= j < minIndex ==> minDist < distances[fringe[j]].value
    {
      var currentIndex := fringe[i];
      if distances[currentIndex].value < minDist {
        minDist := distances[currentIndex].value;
        minIndex := i;
      }
    }
  }

  /** Removing the element at `i` from a list without repetitions removes exactly that element. */
  lemma RemoveAt(s: seq<int>, i: int)
    requires Distinct(s) && 0 <= i < |s|
    ensures Distinct(s[..i] + s[i + 1..])
    ensures forall x :: x in s[..i] + s[i + 1..] <==> x in s && x != s[i]
  {
    var r := s[..i] + s[i + 1..];
    assert forall j :: 0 <= j < |r| ==> r[j] == if j < i then s[j] else s[j + 1];
    forall x | x in s && x != s[i] ensures x in r {
      var j :| 0 <= j < |s| && s[j] == x;
      assert r[if j < i then j else j - 1] == x;
    }
  }

  /** Moving the fringe vertex at `minIndex` to the settled list keeps the layout. */
  lemma ExtractKeepsLayout(g: Graph, s: int, done: seq<int>, fringe: seq<int>,
                           distances: seq<Option<real>>, predecessors: seq<Option<int>>, minIndex: int)
    requires Layout(g, s, done, fringe, distances, predecessors) && 0 <= minIndex < |fringe|
    ensures Layout(g, s, done + [fringe[minIndex]], fringe[..minIndex] + fringe[minIndex + 1..], distances, predecessors)
  {
    var m := fringe[minIndex];
    var done', fringe' := done + [m], fringe[..minIndex] + fringe[minIndex + 1..];
    RemoveAt(fringe, minIndex);
    assert forall i :: 0 <= i < |done'| ==> done'[i] == if i < |done| then done[i] else m;
    forall i | 0 <= i < |fringe'| ensures fringe'[i] !in done' {
      assert fringe'[i] in fringe;
    }
  }

  /** Settling a fringe vertex keeps every predecessor link, its order included. */
  lemma ExtractKeepsLinks(g: Graph, s: int, done: seq<int>, fringe: seq<int>,
                          distances: seq<Option<real>>, predecessors: seq<Option<int>>, m: int)
    requires Layout(g, s, done, fringe, distances, predecessors) && Links(g, s, done, distances, predecessors)
    requires m in fringe
    ensures Links(g, s, done + [m], distances, predecessors)
  {
    var done' := done + [m];
    forall v | 0 <= v < |g.vertices| && predecessors[v].Some?
      ensures predecessors[v].value in done'
      ensures v in done' ==> IndexOf(done', predecessors[v].value) < IndexOf(done', v)
    {
      var u := predecessors[v].value;
      IndexOfAppend(done, [m], u);
      IndexOfAppend(done, [m], v);
    }
  }

  /** Settling a fringe vertex keeps the relaxation of the records of the vertices settled before. */
  lemma ExtractKeepsRelaxed(g: Graph, done: seq<int>, distances: seq<Option<real>>, m: int)
    requires |g.adj| == |g.vertices| && |distances| == |g.vertices| && 0 <= m < |g.vertices|
    requires forall i :: 0 <= i < |done| ==> 0 <= done[i] < |g.vertices|
    requires Relaxed(g, done, |done|, distances)
    ensures forall i :: 0 <= i < |done + [m]| ==> 0 <= (done + [m])[i] < |g.vertices|
    ensures Relaxed(g, done + [m], |done|, distances)
  {
    var done' := done + [m];
    assert forall i :: 0 <= i < |done| ==> done'[i] == done[i];
  }

  /** The first vertex of a sequence outside `c`, given that it starts inside and ends outside. */
  lemma FirstOutside(p: seq<int>, c: seq<int>) returns (j: int)
    requires |p| > 0 && p[0] in c && Last(p) !in c
    ensures 0 < j < |p| && p[j - 1] in c && p[j] !in c
  {
    j := 1;
    while p[j] in c
      invariant 0 < j < |p| && p[j - 1] in c
      decreases |p| - j
    {
      j := j + 1;
    }
  }

  /**
   * A walk whose vertex `j` has a distance no more than the cost of reaching vertex `j - 1`
   * plus the step between them costs at least that distance, when no traffic is negative.
   */
  lemma CrossingBound(g: Graph, p: seq<int>, j: int, d: real)
    requires IsWalk(g, p) && NonNegTraffic(g) && 0 < j < |p|
    requires IsWalk(g, p[..j]) && Joined(g, p[j - 1], p[j])
    requires d <= PathCost(g, p[..j]) + StepTraffic(g, p[j - 1], p[j])
    ensures d <= PathCost(g, p)
  {
    PathCostPrefix(g, p, j);
    var q := p[..j + 1];
    assert q[..|q| - 1] == p[..j] && q[|q| - 2] == p[j - 1] && Last(q) == p[j];
  }

  /**
   * With no negative traffic, a fringe vertex of least distance is at its least cost: any walk
   * to it leaves the settled vertices through some relaxed record to a fringe vertex, and
   * already costs no less than that vertex's distance there.
   */
  lemma ExtractIsOptimal(g: Graph, s: int, done: seq<int>, fringe: seq<int>,
                         distances: seq<Option<real>>, predecessors: seq<Option<int>>, minIndex: int)
    requires Valid(g) && NonNegTraffic(g)
    requires Layout(g, s, done, fringe, distances, predecessors)
    requires Relaxed(g, done, |done|, distances) && Optimal(g, s, done, distances)
    requires 0 <= minIndex < |fringe|
    requires forall i :: 0 <= i < |fringe| ==> distances[fringe[minIndex]].value <= distances[fringe[i]].value
    ensures Settled(g, s, distances[fringe[minIndex]].value, fringe[minIndex])
  {
    forall p | IsWalk(g, p) && p[0] == s && Last(p) == fringe[minIndex]
      ensures distances[fringe[minIndex]].value <= PathCost(g, p)
    {
      WalkLeavesSettled(g, s, done, fringe, distances, predecessors, minIndex, p);
    }
  }

  /** One walk to the fringe vertex of least distance costs at least that distance. */
  lemma WalkLeavesSettled(g: Graph, s: int, done: seq<int>, fringe: seq<int>,
                          distances: seq<Option<real>>, predecessors: seq<Option<int>>, minIndex: int, p: seq<int>)
    requires Valid(g) && NonNegTraffic(g)
    requires Layout(g, s, done, fringe, distances, predecessors)
    requires Relaxed(g, done, |done|, distances) && Optimal(g, s, done, distances)
    requires 0 <= minIndex < |fringe|
    requires forall i :: 0 <= i < |fringe| ==> distances[fringe[minIndex]].value <= distances[fringe[i]].value
    requires IsWalk(g, p) && p[0] == s && Last(p) == fringe[minIndex]
    ensures distances[fringe[minIndex]].value <= PathCost(g, p)
  {
    var m := fringe[minIndex];
    if done == [] {
      assert m == s;
    } else {
      var j := FirstOutside(p, done);
      var x, y := p[j - 1], p[j];
      CrossingRecord(g, s, done, fringe, distances, predecessors, x, y);
      WalkTake(g, p, j - 1);
      var i :| 0 <= i < |done| && done[i] == x;
      assert Settled(g, s, distances[x].value, x);
      var f :| 0 <= f < |fringe| && fringe[f] == y;
      CrossingBound(g, p, j, distances[y].value);
    }
  }

  /** A record from a settled vertex to an unsettled one leads to the fringe, at a relaxed distance. */
  lemma CrossingRecord(g: Graph, s: int, done: seq<int>, fringe: seq<int>,
                       distances: seq<Option<real>>, predecessors: seq<Option<int>>, x: int, y: int)
    requires Valid(g) && Layout(g, s, done, fringe, distances, predecessors)
    requires Relaxed(g, done, |done|, distances)
    requires x in done && y !in done && 0 <= y < |g.vertices| && Joined(g, x, y)
    ensures distances[x].Some? && distances[y].Some? && y in fringe
    ensures distances[y].value <= distances[x].value + StepTraffic(g, x, y)
  {
    var i :| 0 <= i < |done| && done[i] == x;
    var k :| 0 <= k < |g.adj[x]| && Target(g, g.adj[x][k]) == y && g.adj[x][k].traffic == StepTraffic(g, x, y);
  }

  /**
   * The relaxation of `m`'s first `count` records took the state from (`fringe`, `distances`,
   * `predecessors`) to the primed one.
   */
  ghost predicate Relaxing(g: Graph, m: int, done: seq<int>,
                           fringe: seq<int>, distances: seq<Option<real>>, predecessors: seq<Option<int>>,
                           fringe': seq<int>, distances': seq<Option<real>>, predecessors': seq<Option<int>>,
                           count: int)
    requires |distances| == |g.vertices| && |predecessors| == |g.vertices|
    requires Valid(g) && 0 <= m < |g.vertices| && distances[m].Some?
    requires 0 <= count <= |g.adj[m]|
  {
    && |distances'| == |g.vertices| && |predecessors'| == |g.vertices|
    && Lowered(g, m, done, distances, predecessors, distances', predecessors')
    && Grown(g, done, fringe, distances, fringe', distances')
    && Covers(g, m, done, distances[m].value, distances', count)
  }

  /**
   * A distance only changes downwards, to a value reached from `m` along a record to an
   * unsettled vertex, and then `m` becomes that vertex's predecessor.
   */
  ghost predicate Lowered(g: Graph, m: int, done: seq<int>,
                          distances: seq<Option<real>>, predecessors: seq<Option<int>>,
                          distances': seq<Option<real>>, predecessors': seq<Option<int>>)
    requires |distances| == |g.vertices| && |predecessors| == |g.vertices|
    requires |distances'| == |g.vertices| && |predecessors'| == |g.vertices|
    requires 0 <= m < |g.vertices| && distances[m].Some?
  {
    forall v :: 0 <= v < |g.vertices| ==> LoweredAt(g, m, done, distances, predecessors, distances', predecessors', v)
  }

  /** Vertex `v` kept its distance and predecessor, or was lowered through `m`. */
  ghost predicate LoweredAt(g: Graph, m: int, done: seq<int>,
                            distances: seq<Option<real>>, predecessors: seq<Option<int>>,
                            distances': seq<Option<real>>, predecessors': seq<Option<int>>, v: int)
    requires |distances| == |g.vertices| && |predecessors| == |g.vertices|
    requires |distances'| == |g.vertices| && |predecessors'| == |g.vertices|
    requires 0 <= m < |g.vertices| && distances[m].Some? && 0 <= v < |g.vertices|
  {
    (distances'[v] == distances[v] && predecessors'[v] == predecessors[v])
    || (&& v !in done && distances'[v].Some? && Below(distances'[v].value, distances[v])
        && predecessors'[v] == Some(m) && Joined(g, m, v)
        && distances'[v].value >= distances[m].value + StepTraffic(g, m, v))
  }

  /** Lowering keeps the settled vertices as they were and never loses a distance. */
  lemma LoweredKeeps(g: Graph, m: int, done: seq<int>,
                     distances: seq<Option<real>>, predecessors: seq<Option<int>>,
                     distances': seq<Option<real>>, predecessors': seq<Option<int>>)
    requires |distances| == |g.vertices| && |predecessors| == |g.vertices|
    requires |distances'| == |g.vertices| && |predecessors'| == |g.vertices|
    requires 0 <= m < |g.vertices| && distances[m].Some?
    requires Lowered(g, m, done, distances, predecessors, distances', predecessors')
    ensures forall v :: 0 <= v < |g.vertices| && v in done ==>
              distances'[v] == distances[v] && predecessors'[v] == predecessors[v]
    ensures forall v :: 0 <= v < |g.vertices| && distances[v].Some? ==>
              distances'[v].Some? && distances'[v].value <= distances[v].value
  {
    forall v | 0 <= v < |g.vertices|
      ensures v in done ==> distances'[v] == distances[v] && predecessors'[v] == predecessors[v]
      ensures distances[v].Some? ==> distances'[v].Some? && distances'[v].value <= distances[v].value
    {
      assert LoweredAt(g, m, done, distances, predecessors, distances', predecessors', v);
    }
  }

  /** The fringe grew by exactly the unsettled vertices reached for the first time. */
  ghost predicate Grown(g: Graph, done: seq<int>, fringe: seq<int>, distances: seq<Option<real>>,
                       fringe': seq<int>, distances': seq<Option<real>>)
    requires |distances| == |g.vertices| && |distances'| == |g.vertices|
  {
    && |fringe| <= |fringe'| && fringe'[..|fringe|] == fringe
    && Distinct(fringe'[|fringe|..])
    && (forall i :: |fringe| <= i < |fringe'| ==>
          0 <= fringe'[i] < |g.vertices| && fringe'[i] !in done
          && distances[fringe'[i]].None? && distances'[fringe'[i]].Some?)
    && (forall v :: 0 <= v < |g.vertices| && distances[v].None? && distances'[v].Some? ==> v in fringe')
  }

  /**
   * Each of `m`'s first `count` records leads to a settled vertex or to a distance no more
   * than `dm` plus the record's traffic.
   */
  ghost predicate Covers(g: Graph, m: int, done: seq<int>, dm: real, distances': seq<Option<real>>, count: int)
    requires Valid(g) && |distances'| == |g.vertices| && 0 <= m < |g.vertices| && 0 <= count <= |g.adj[m]|
  {
    forall k :: 0 <= k < count ==>
      Target(g, g.adj[m][k]) in done
      || (distances'[Target(g, g.adj[m][k])].Some?
          && distances'[Target(g, g.adj[m][k])].value <= dm + g.adj[m][k].traffic)
  }

  /** A record that leads to a settled vertex, or improves nothing, is relaxed as it stands. */
  lemma RelaxKeep(g: Graph, m: int, done: seq<int>,
                  fringe: seq<int>, distances: seq<Option<real>>, predecessors: seq<Option<int>>,
                  fringe': seq<int>, distances': seq<Option<real>>, predecessors': seq<Option<int>>,
                  k: int)
    requires |distances| == |g.vertices| && |predecessors| == |g.vertices|
    requires Valid(g) && 0 <= m < |g.vertices| && distances[m].Some?
    requires 0 <= k < |g.adj[m]|
    requires Relaxing(g, m, done, fringe, distances, predecessors, fringe', distances', predecessors', k)
    requires Target(g, g.adj[m][k]) in done
             || !Below(distances[m].value + g.adj[m][k].traffic, distances'[Target(g, g.adj[m][k])])
    ensures Relaxing(g, m, done, fringe, distances, predecessors, fringe', distances', predecessors', k + 1)
  {
    OtherIsLast(g, m, k);
  }

  /** A record that improves the distance of an unsettled vertex is relaxed by the update. */
  lemma RelaxImprove(g: Graph, m: int, done: seq<int>,
                     fringe: seq<int>, distances: seq<Option<real>>, predecessors: seq<Option<int>>,
                     fringe': seq<int>, distances': seq<Option<real>>, predecessors': seq<Option<int>>,
                     k: int)
    requires |distances| == |g.vertices| && |predecessors| == |g.vertices|
    requires Valid(g) && 0 <= m < |g.vertices| && distances[m].Some?
    requires 0 <= k < |g.adj[m]|
    requires Relaxing(g, m, done, fringe, distances, predecessors, fringe', distances', predecessors', k)
    requires 0 <= Target(g, g.adj[m][k]) < |g.vertices| && Target(g, g.adj[m][k]) !in done
    requires Target(g, g.adj[m][k]) in fringe || distances[Target(g, g.adj[m][k])].None?
    requires Below(distances[m].value + g.adj[m][k].traffic, distances'[Target(g, g.adj[m][k])])
    ensures var w := Target(g, g.adj[m][k]);
            Relaxing(g, m, done, fringe, distances, predecessors,
                     if w in fringe' then fringe' else fringe' + [w],
                     distances'[w := Some(distances[m].value + g.adj[m][k].traffic)],
                     predecessors'[w := Some(m)], k + 1)
  {
    var w := Target(g, g.adj[m][k]);
    var newDist := distances[m].value + g.adj[m][k].traffic;
    var d2, p2 := distances'[w := Some(newDist)], predecessors'[w := Some(m)];
    var f2 := if w in fringe' then fringe' else fringe' + [w];
    ImproveLowers(g, m, done, distances, predecessors, distances', predecessors', k);
    ImproveGrows(g, done, fringe, distances, fringe', distances', w, newDist);
    ImproveCovers(g, m, done, distances[m].value, distances', k);
    assert |d2| == |g.vertices| && |p2| == |g.vertices|;
    assert Lowered(g, m, done, distances, predecessors, d2, p2);
    assert Grown(g, done, fringe, distances, f2, d2);
    assert Covers(g, m, done, distances[m].value, d2, k + 1);
  }

  lemma ImproveLowers(g: Graph, m: int, done: seq<int>,
                      distances: seq<Option<real>>, predecessors: seq<Option<int>>,
                      distances': seq<Option<real>>, predecessors': seq<Option<int>>, k: int)
    requires |distances| == |g.vertices| && |predecessors| == |g.vertices|
    requires |distances'| == |g.vertices| && |predecessors'| == |g.vertices|
    requires Valid(g) && 0 <= m < |g.vertices| && distances[m].Some? && 0 <= k < |g.adj[m]|
    requires Lowered(g, m, done, distances, predecessors, distances', predecessors')
    requires 0 <= Target(g, g.adj[m][k]) < |g.vertices| && Target(g, g.adj[m][k]) !in done
    requires Below(distances[m].value + g.adj[m][k].traffic, distances'[Target(g, g.adj[m][k])])
    ensures var w := Target(g, g.adj[m][k]);
            Lowered(g, m, done, distances, predecessors,
                    distances'[w := Some(distances[m].value + g.adj[m][k].traffic)], predecessors'[w := Some(m)])
  {
    var w := Target(g, g.adj[m][k]);
    var newDist := distances[m].value + g.adj[m][k].traffic;
    assert Joined(g, m, w);
    assert StepTraffic(g, m, w) <= g.adj[m][k].traffic;
    var d2, p2 := distances'[w := Some(newDist)], predecessors'[w := Some(m)];
    forall v | 0 <= v < |g.vertices| ensures LoweredAt(g, m, done, distances, predecessors, d2, p2, v) {
      assert LoweredAt(g, m, done, distances, predecessors, distances', predecessors', v);
    }
  }

  lemma ImproveGrows(g: Graph, done: seq<int>, fringe: seq<int>, distances: seq<Option<real>>,
                     fringe': seq<int>, distances': seq<Option<real>>, w: int, newDist: real)
    requires |distances| == |g.vertices| && |distances'| == |g.vertices| && 0 <= w < |g.vertices| && w !in done
    requires w in fringe || distances[w].None?
    requires Grown(g, done, fringe, distances, fringe', distances')
    ensures Grown(g, done, fringe, distances,
                  if w in fringe' then fringe' else fringe' + [w], distances'[w := Some(newDist)])
  {
    var f2 := if w in fringe' then fringe' else fringe' + [w];
    var d2 := distances'[w := Some(newDist)];
    assert f2[..|fringe|] == fringe;
    if w !in fringe' {
      assert f2[|fringe|..] == fringe'[|fringe|..] + [w];
      assert w !in fringe;
      assert distances[w].None?;
    }
    forall v | 0 <= v < |g.vertices| && distances[v].None? && d2[v].Some? ensures v in f2 {
      if v != w {
        assert distances'[v].Some?;
      }
    }
  }

  lemma ImproveCovers(g: Graph, m: int, done: seq<int>, dm: real, distances': seq<Option<real>>, k: int)
    requires Valid(g) && |distances'| == |g.vertices| && 0 <= m < |g.vertices| && 0 <= k < |g.adj[m]|
    requires Covers(g, m, done, dm, distances', k)
    requires 0 <= Target(g, g.adj[m][k]) < |g.vertices|
    requires Below(dm + g.adj[m][k].traffic, distances'[Target(g, g.adj[m][k])])
    ensures Covers(g, m, done, dm, distances'[Target(g, g.adj[m][k]) := Some(dm + g.adj[m][k].traffic)], k + 1)
  {
  }

  /**
   * Relaxes every record of the newly settled `m`, in list order: a record leading to an
   * unsettled vertex whose distance it improves lowers that distance, makes `m` its
   * predecessor and puts the vertex on the fringe if it is not there yet.
   */
  method Relax(g: Graph, ghost s: int, m: int, done: seq<int>,
               fringe: seq<int>, distances: seq<Option<real>>, predecessors: seq<Option<int>>)
    returns (fringe': seq<int>, distances': seq<Option<real>>, predecessors': seq<Option<int>>)
    requires Layout(g, s, done, fringe, distances, predecessors)
    requires Valid(g) && 0 <= m < |g.vertices| && distances[m].Some? && m in done
    ensures Relaxing(g, m, done, fringe, distances, predecessors, fringe', distances', predecessors', |g.adj[m]|)
  {
    fringe', distances', predecessors' := fringe, distances, predecessors;
    for k := 0 to |g.adj[m]|
      invariant |distances'| == |g.vertices| && |predecessors'| == |g.vertices|
      invariant Relaxing(g, m, done, fringe, distances, predecessors, fringe', distances', predecessors', k)
    {
      fringe', distances', predecessors' :=
        RelaxRecord(g, s, m, done, fringe, distances, predecessors, fringe', distances', predecessors', k);
    }
  }

  /** Relaxes record `k` of `m`'s list, the body of the loop over `m`'s records. */
  method RelaxRecord(g: Graph, ghost s: int, m: int, done: seq<int>,
                     ghost fringe: seq<int>, ghost distances: seq<Option<real>>, ghost predecessors: seq<Option<int>>,
                     fringe': seq<int>, distances': seq<Option<real>>, predecessors': seq<Option<int>>, k: int)
    returns (fringe'': seq<int>, distances'': seq<Option<real>>, predecessors'': seq<Option<int>>)
    requires |distances| == |g.vertices| && |predecessors| == |g.vertices|
    requires forall v :: 0 <= v < |g.vertices| && distances[v].Some? && v !in done ==> v in fringe
    requires Valid(g) && 0 <= m < |g.vertices| && distances[m].Some? && m in done
    requires 0 <= k < |g.adj[m]| && |distances'| == |g.vertices| && |predecessors'| == |g.vertices|
    requires Relaxing(g, m, done, fringe, distances, predecessors, fringe', distances', predecessors', k)
    ensures |distances''| == |g.vertices| && |predecessors''| == |g.vertices|
    ensures Relaxing(g, m, done, fringe, distances, predecessors, fringe'', distances'', predecessors'', k + 1)
  {
    fringe'', distances'', predecessors'' := fringe', distances', predecessors';
    var current := g.vertices[m];
    var w := Other(g.adj[m][k], current);
    var wIndex := IndexOf(g.vertices, w);
    OtherIsLast(g, m, k);
    if wIndex in done {
      RelaxKeep(g, m, done, fringe, distances, predecessors, fringe', distances', predecessors', k);
      return;
    }
    LoweredKeeps(g, m, done, distances, predecessors, distances', predecessors');
    var weight := g.adj[m][k].traffic;
    var newDist := distances'[m].value + weight;
    if Below(newDist, distances'[wIndex]) {
      assert wIndex in fringe || distances[wIndex].None?;
      RelaxImprove(g, m, done, fringe, distances, predecessors, fringe', distances', predecessors', k);
      distances'' := distances'[wIndex := Some(newDist)];
      predecessors'' := predecessors'[wIndex := Some(m)];
      if wIndex !in fringe' {
        fringe'' := fringe' + [wIndex];
      }
    } else {
      RelaxKeep(g, m, done, fringe, distances, predecessors, fringe', distances', predecessors', k);
    }
  }

  /** Two lists without repetitions and without common elements concatenate to one without repetitions. */
  lemma DistinctConcat(a: seq<int>, b: seq<int>)
    requires Distinct(a) && Distinct(b) && forall x :: x in b ==> x !in a
    ensures Distinct(a + b)
  {
    var c := a + b;
    forall i, j | 0 <= i < j < |c| ensures c[i] != c[j] {
      if j >= |a| && i < |a| {
        assert c[j] == b[j - |a|] && c[j] in b;
      } else if i >= |a| {
        assert c[i] == b[i - |a|] && c[j] == b[j - |a|];
      }
    }
  }

  /** A round of relaxation after settling `m` keeps the layout of the search state. */
  lemma RoundKeepsLayout(g: Graph, s: int, m: int, done: seq<int>,
                         fringe: seq<int>, distances: seq<Option<real>>, predecessors: seq<Option<int>>,
                         fringe': seq<int>, distances': seq<Option<real>>, predecessors': seq<Option<int>>)
    requires Layout(g, s, done, fringe, distances, predecessors)
    requires Valid(g) && m in done
    requires 0 <= m < |g.vertices| && distances[m].Some?
    requires Relaxing(g, m, done, fringe, distances, predecessors, fringe', distances', predecessors', |g.adj[m]|)
    ensures Layout(g, s, done, fringe', distances', predecessors')
  {
    LoweredKeeps(g, m, done, distances, predecessors, distances', predecessors');
    assert s in done;
    var added := fringe'[|fringe|..];
    assert fringe' == fringe + added;
    forall x | x in added ensures x !in fringe {
      var i :| 0 <= i < |added| && added[i] == x;
      assert fringe'[|fringe| + i] == x;
    }
    DistinctConcat(fringe, added);
    forall i | 0 <= i < |fringe'|
      ensures 0 <= fringe'[i] < |g.vertices| && distances'[fringe'[i]].Some? && fringe'[i] !in done
    {
      if i < |fringe| {
        assert fringe'[i] == fringe[i];
      }
    }
    forall v | 0 <= v < |g.vertices| && distances'[v].Some? && v !in done ensures v in fringe' {
      if distances[v].Some? {
        assert v in fringe;
        var i :| 0 <= i < |fringe| && fringe[i] == v;
        assert fringe'[i] == v;
      }
    }
  }

  /** A round of relaxation after settling `m` keeps every predecessor link. */
  lemma RoundKeepsLinks(g: Graph, s: int, m: int, done: seq<int>,
                        fringe: seq<int>, distances: seq<Option<real>>, predecessors: seq<Option<int>>,
                        fringe': seq<int>, distances': seq<Option<real>>, predecessors': seq<Option<int>>)
    requires Layout(g, s, done, fringe, distances, predecessors) && Links(g, s, done, distances, predecessors)
    requires Valid(g) && m in done
    requires 0 <= m < |g.vertices| && distances[m].Some?
    requires Relaxing(g, m, done, fringe, distances, predecessors, fringe', distances', predecessors', |g.adj[m]|)
    ensures Links(g, s, done, distances', predecessors')
  {
    LoweredKeeps(g, m, done, distances, predecessors, distances', predecessors');
    forall v | 0 <= v < |g.vertices|
      ensures && (distances'[v].Some? && v != s ==> predecessors'[v].Some?)
              && (predecessors'[v].Some? ==>
                    && 0 <= predecessors'[v].value < |g.vertices|
                    && distances'[v].Some? && distances'[predecessors'[v].value].Some?
                    && predecessors'[v].value in done
                    && Joined(g, predecessors'[v].value, v)
                    && distances'[v].value >= distances'[predecessors'[v].value].value
                                              + StepTraffic(g, predecessors'[v].value, v)
                    && (v in done ==> IndexOf(done, predecessors'[v].value) < IndexOf(done, v)))
    {
      assert LoweredAt(g, m, done, distances, predecessors, distances', predecessors', v);
    }
  }

  /** A round of relaxation after settling `m`, the last settled vertex, relaxes `m`'s records too. */
  lemma RoundKeepsRelaxed(g: Graph, s: int, m: int, done: seq<int>,
                          fringe: seq<int>, distances: seq<Option<real>>, predecessors: seq<Option<int>>,
                          fringe': seq<int>, distances': seq<Option<real>>, predecessors': seq<Option<int>>)
    requires Layout(g, s, done, fringe, distances, predecessors)
    requires Valid(g) && |done| > 0 && Last(done) == m
    requires Relaxed(g, done, |done| - 1, distances)
    requires 0 <= m < |g.vertices| && distances[m].Some?
    requires Relaxing(g, m, done, fringe, distances, predecessors, fringe', distances', predecessors', |g.adj[m]|)
    ensures Relaxed(g, done, |done|, distances')
  {
    LoweredKeeps(g, m, done, distances, predecessors, distances', predecessors');
    forall i, k | 0 <= i < |done| && 0 <= k < |g.adj[done[i]]|
      ensures var t := Target(g, g.adj[done[i]][k]);
              t in done
              || (&& 0 <= t < |g.vertices| && distances'[t].Some? && distances'[done[i]].Some?
                  && distances'[t].value <= distances'[done[i]].value + g.adj[done[i]][k].traffic)
    {
      var u := done[i];
      OtherIsLast(g, u, k);
      assert distances'[u] == distances[u];
      if i == |done| - 1 {
        assert u == m;
      }
    }
  }

  /** A round of relaxation leaves the distances of the settled vertices as they were. */
  lemma RoundKeepsOptimal(g: Graph, s: int, m: int, done: seq<int>,
                          fringe: seq<int>, distances: seq<Option<real>>, predecessors: seq<Option<int>>,
                          fringe': seq<int>, distances': seq<Option<real>>, predecessors': seq<Option<int>>)
    requires Layout(g, s, done, fringe, distances, predecessors) && Optimal(g, s, done, distances)
    requires Valid(g) && m in done
    requires 0 <= m < |g.vertices| && distances[m].Some?
    requires Relaxing(g, m, done, fringe, distances, predecessors, fringe', distances', predecessors', |g.adj[m]|)
    ensures forall i :: 0 <= i < |done| ==> distances'[done[i]].Some?
    ensures Optimal(g, s, done, distances')
  {
    LoweredKeeps(g, m, done, distances, predecessors, distances', predecessors');
    assert forall i :: 0 <= i < |done| ==> distances'[done[i]] == distances[done[i]];
  }

  /** Settling the first fringe vertex of least distance keeps the search state, its own records aside. */
  lemma ExtractKeepsSearching(g: Graph, s: int, done: seq<int>, fringe: seq<int>,
                              distances: seq<Option<real>>, predecessors: seq<Option<int>>, minIndex: int)
    requires Valid(g) && Searching(g, s, done, fringe, distances, predecessors)
    requires 0 <= minIndex < |fringe|
    requires forall i :: 0 <= i < |fringe| ==> distances[fringe[minIndex]].value <= distances[fringe[i]].value
    ensures var done', fringe' := done + [fringe[minIndex]], fringe[..minIndex] + fringe[minIndex + 1..];
            && Layout(g, s, done', fringe', distances, predecessors)
            && Links(g, s, done', distances, predecessors)
            && Relaxed(g, done', |done'| - 1, distances)
            && Optimal(g, s, done', distances)
            && |done'| <= |g.vertices|
  {
    var m := fringe[minIndex];
    var done' := done + [m];
    ExtractKeepsLayout(g, s, done, fringe, distances, predecessors, minIndex);
    ExtractKeepsLinks(g, s, done, fringe, distances, predecessors, m);
    ExtractKeepsRelaxed(g, done, distances, m);
    if NonNegTraffic(g) {
      ExtractIsOptimal(g, s, done, fringe, distances, predecessors, minIndex);
    }
    assert forall i :: 0 <= i < |done| ==> done'[i] == done[i];
    DistinctBounded(done', |g.vertices|);
  }

  /** Relaxing the records of the last settled vertex completes the search state again. */
  lemma RoundKeepsSearching(g: Graph, s: int, m: int, done: seq<int>,
                            fringe: seq<int>, distances: seq<Option<real>>, predecessors: seq<Option<int>>,
                            fringe': seq<int>, distances': seq<Option<real>>, predecessors': seq<Option<int>>)
    requires Valid(g) && Layout(g, s, done, fringe, distances, predecessors)
    requires Links(g, s, done, distances, predecessors)
    requires |done| > 0 && Last(done) == m
    requires Relaxed(g, done, |done| - 1, distances) && Optimal(g, s, done, distances)
    requires 0 <= m < |g.vertices| && distances[m].Some?
    requires Relaxing(g, m, done, fringe, distances, predecessors, fringe', distances', predecessors', |g.adj[m]|)
    ensures Searching(g, s, done, fringe', distances', predecessors')
  {
    RoundKeepsLayout(g, s, m, done, fringe, distances, predecessors, fringe', distances', predecessors');
    RoundKeepsLinks(g, s, m, done, fringe, distances, predecessors, fringe', distances', predecessors');
    RoundKeepsRelaxed(g, s, m, done, fringe, distances, predecessors, fringe', distances', predecessors');
    RoundKeepsOptimal(g, s, m, done, fringe, distances, predecessors, fringe', distances', predecessors');
  }

  /** Every settled vertex is reachable from the start, along the predecessor links. */
  lemma {:induction false} SettledReachable(g: Graph, s: int, done: seq<int>, fringe: seq<int>,
                                            distances: seq<Option<real>>, predecessors: seq<Option<int>>, v: int)
    requires Layout(g, s, done, fringe, distances, predecessors) && Links(g, s, done, distances, predecessors)
    requires v in done
    ensures Reachable(g, s, v)
    decreases IndexOf(done, v)
  {
    if v == s {
      ReachableSelf(g, s);
    } else {
      var i := IndexOf(done, v);
      assert distances[done[i]].Some?;
      var u := predecessors[v].value;
      SettledReachable(g, s, done, fringe, distances, predecessors, u);
      ReachableExtend(g, s, u, v);
    }
  }

  /** With the fringe empty, no record leads out of the settled vertices. */
  lemma SettledClosed(g: Graph, s: int, done: seq<int>, distances: seq<Option<real>>, predecessors: seq<Option<int>>)
    requires Valid(g) && Layout(g, s, done, [], distances, predecessors) && Relaxed(g, done, |done|, distances)
    ensures Closed(g, set i | 0 <= i < |done| :: done[i])
  {
    var c := set i | 0 <= i < |done| :: done[i];
    forall u, k | u in c && 0 <= u < |g.adj| && 0 <= k < |g.adj[u]| ensures Target(g, g.adj[u][k]) in c {
      var i :| 0 <= i < |done| && done[i] == u;
      var j :| 0 <= j < |done| && done[j] == Target(g, g.adj[u][k]);
    }
  }

  /** When the fringe is empty, the settled vertices are exactly those reachable from the start. */
  lemma SettledIsComponent(g: Graph, s: int, done: seq<int>, distances: seq<Option<real>>, predecessors: seq<Option<int>>)
    requires Valid(g) && Searching(g, s, done, [], distances, predecessors)
    ensures forall v :: v in done <==> Reachable(g, s, v)
  {
    var c := set i | 0 <= i < |done| :: done[i];
    SettledClosed(g, s, done, distances, predecessors);
    assert done[0] in c;
    forall v | Reachable(g, s, v) ensures v in done {
      ClosedHoldsReachable(g, c, s, v);
    }
    forall v | v in done ensures Reachable(g, s, v) {
      SettledReachable(g, s, done, [], distances, predecessors, v);
    }
  }

  /**
   * The search loop: settle the first fringe vertex of least distance, relax its records, and
   * repeat until the fringe is empty.
   */
  method Search(g: Graph, s: int) returns (done: seq<int>, distances: seq<Option<real>>, predecessors: seq<Option<int>>)
    requires Valid(g) && 0 <= s < |g.vertices|
    ensures Searching(g, s, done, [], distances, predecessors)
    ensures forall v :: v in done <==> Reachable(g, s, v)
    ensures forall v :: 0 <= v < |g.vertices| ==> (distances[v].Some? <==> v in done)
  {
    distances, predecessors := [], [];
    for i := 0 to |g.vertices|
      invariant |distances| == i && |predecessors| == i
      invariant forall v :: 0 <= v < i ==> distances[v].None? && predecessors[v].None?
    {
      distances := distances + [None];
      predecessors := predecessors + [None];
    }
    distances := distances[s := Some(0.0)];
    var fringe := [s];
    done := [];
    while |fringe| > 0
      invariant Searching(g, s, done, fringe, distances, predecessors)
      decreases |g.vertices| - |done|
    {
      var minIndex := ExtractMin(fringe, distances);
      var m := fringe[minIndex];
      ExtractKeepsSearching(g, s, done, fringe, distances, predecessors, minIndex);
      fringe := fringe[..minIndex] + fringe[minIndex + 1..];
      done := done + [m];
      var fringe', distances', predecessors' := Relax(g, s, m, done, fringe, distances, predecessors);
      RoundKeepsSearching(g, s, m, done, fringe, distances, predecessors, fringe', distances', predecessors');
      fringe, distances, predecessors := fringe', distances', predecessors';
    }
    SettledIsComponent(g, s, done, distances, predecessors);
  }

  /** How far `cur` is from the start of the predecessor chain: its position among the settled vertices. */
  function Rank(done: seq<int>, cur: Option<int>): int {
    if cur.None? then 0 else if cur.value in done then IndexOf(done, cur.value) + 1 else |done| + 1
  }

  /**
   * The state of the walk back from `e`: `reversed` holds the vertices collected so far, each
   * the predecessor of the one before it, and `cur` the next one to collect; the walk they
   * describe, read forwards, costs no more than `e`'s distance less the distance still ahead.
   */
  ghost predicate Unwinding(g: Graph, distances: seq<Option<real>>, predecessors: seq<Option<int>>,
                            e: int, reversed: seq<int>, cur: Option<int>)
    requires |distances| == |g.vertices| && |predecessors| == |g.vertices| && 0 <= e < |g.vertices|
  {
    && BackChain(g, reversed)
    && (|reversed| == 0 ==> cur == Some(e))
    && (|reversed| > 0 ==> reversed[0] == e && cur == predecessors[Last(reversed)])
    && (cur.Some? ==> 0 <= cur.value < |g.vertices|)
    && (cur.Some? && |reversed| > 0 ==> Joined(g, cur.value, Last(reversed)))
    && (predecessors[e].None? ==> reversed == [] || reversed == [e])
    && (distances[e].Some? && |reversed| > 0 ==>
          && distances[Last(reversed)].Some?
          && IsWalk(g, Reversed(reversed))
          && PathCost(g, Reversed(reversed)) + distances[Last(reversed)].value <= distances[e].value)
  }

  /** Collecting `cur` and moving to its predecessor keeps the walk back going, closer to the start. */
  lemma UnwindStep(g: Graph, s: int, done: seq<int>, distances: seq<Option<real>>, predecessors: seq<Option<int>>,
                   e: int, reversed: seq<int>, cur: Option<int>)
    requires Layout(g, s, done, [], distances, predecessors) && Links(g, s, done, distances, predecessors)
    requires 0 <= e < |g.vertices| && Unwinding(g, distances, predecessors, e, reversed, cur) && cur.Some?
    ensures Unwinding(g, distances, predecessors, e, reversed + [cur.value], predecessors[cur.value])
    ensures Rank(done, predecessors[cur.value]) < Rank(done, cur)
  {
    var c := cur.value;
    var after := reversed + [c];
    BackChainSnoc(g, reversed, c);
    if distances[e].Some? {
      BackChainReversed(g, after);
      if |reversed| > 0 {
        ReversedSnoc(reversed, c);
        PathCostCons(g, c, Reversed(reversed));
      } else {
        assert Reversed(after) == [e];
      }
    }
    if predecessors[c].Some? {
      assert distances[c].Some?;
    }
  }

  /**
   * Walks back from `e` along the predecessor links, collecting the vertices, and reverses the
   * list: the cheapest path found by the search, or just `[e]` when `e` was never reached.
   */
  method Unwind(g: Graph, ghost s: int, ghost done: seq<int>,
                distances: seq<Option<real>>, predecessors: seq<Option<int>>, e: int) returns (path: seq<int>)
    requires Layout(g, s, done, [], distances, predecessors) && Links(g, s, done, distances, predecessors)
    requires 0 <= e < |g.vertices|
    ensures distances[e].Some? ==> IsWalk(g, path) && path[0] == s && Last(path) == e
    ensures distances[e].Some? ==> PathCost(g, path) <= distances[e].value
    ensures predecessors[e].None? ==> path == [e]
  {
    var reversed: seq<int> := [];
    var cur := Some(e);
    while cur.Some?
      invariant Unwinding(g, distances, predecessors, e, reversed, cur)
      decreases Rank(done, cur)
    {
      UnwindStep(g, s, done, distances, predecessors, e, reversed, cur);
      var c := cur.value;
      reversed := reversed + [c];
      cur := predecessors[c];
    }
    path := Reversed(reversed);
    UnwindEnd(g, s, done, distances, predecessors, e, reversed);
  }

  /** Once the links run out, the collected vertices read forwards are the promised path. */
  lemma UnwindEnd(g: Graph, s: int, done: seq<int>, distances: seq<Option<real>>, predecessors: seq<Option<int>>,
                  e: int, reversed: seq<int>)
    requires Layout(g, s, done, [], distances, predecessors) && Links(g, s, done, distances, predecessors)
    requires 0 <= e < |g.vertices| && Unwinding(g, distances, predecessors, e, reversed, None)
    ensures distances[e].Some? ==> IsWalk(g, Reversed(reversed)) && Reversed(reversed)[0] == s && Last(Reversed(reversed)) == e
    ensures distances[e].Some? ==> PathCost(g, Reversed(reversed)) <= distances[e].value
    ensures predecessors[e].None? ==> Reversed(reversed) == [e]
  {
    BackChainReversed(g, reversed);
    if predecessors[e].None? {
      assert Reversed([e]) == [e];
    }
  }

  /**
   * The least-traffic path from `start` to `end`, as vertex indices: a walk between them when
   * `end` is reachable, and the one-element list `[end]` when it is not.
   */
  method FastestPath(g: Graph, start: Coordinate, end: Coordinate) returns (path: seq<int>)
    requires Valid(g) && start in g.vertices && end in g.vertices
    ensures var s, e := IndexOf(g.vertices, start), IndexOf(g.vertices, end);
            Reachable(g, s, e) ==> IsWalk(g, path) && path[0] == s && Last(path) == e
    ensures var s, e := IndexOf(g.vertices, start), IndexOf(g.vertices, end);
            Reachable(g, s, e) && NonNegTraffic(g) ==>
              forall q :: IsWalk(g, q) && q[0] == s && Last(q) == e ==> PathCost(g, path) <= PathCost(g, q)
    ensures var s, e := IndexOf(g.vertices, start), IndexOf(g.vertices, end);
            !Reachable(g, s, e) ==> path == [e]
    ensures start == end ==> path == [IndexOf(g.vertices, start)]
  {
    var startIndex := IndexOf(g.vertices, start);
    var endIndex := IndexOf(g.vertices, end);
    var done, distances, predecessors := Search(g, startIndex);
    path := Unwind(g, startIndex, done, distances, predecessors, endIndex);
    if Reachable(g, startIndex, endIndex) && NonNegTraffic(g) {
      var i :| 0 <= i < |done| && done[i] == endIndex;
    }
  }
}
