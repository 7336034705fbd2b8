/**
 * Breadth-first search for the path with the fewest intersections between two intersections:
 * `marked` flags, `edgeTo` back-pointers and a first-in first-out queue, stopping as soon as
 * the end intersection is dequeued, then following `edgeTo` back from the end.
 */
module FewestHops {
  import opened Collections
  import opened Network

  /**
   * The search tree: every marked vertex other than the start was reached along a record from
   * its marked `edgeTo` parent and sits one level below it.
   */
  ghost predicate Tree(g: Graph, s: int, marked: seq<bool>, edgeTo: seq<Option<int>>, level: seq<int>) {
    && |marked| == |g.vertices| && |edgeTo| == |g.vertices| && |level| == |g.vertices|
    && 0 <= s < |g.vertices| && marked[s] && level[s] == 0 && edgeTo[s] == None
    && (forall v :: 0 <= v < |g.vertices| && marked[v] ==> level[v] >= 0)
    && (forall v :: 0 <= v < |g.vertices| && marked[v] && v != s ==>
          && edgeTo[v].Some? && 0 <= edgeTo[v].value < |g.vertices| && marked[edgeTo[v].value]
          && Joined(g, edgeTo[v].value, v) && level[v] == level[edgeTo[v].value] + 1)
  }

  /**
   * The search frontier: `done` lists the expanded vertices, `queue` the marked vertices still
   * to expand, in level order and spanning at most two adjacent levels; every record of an
   * expanded vertex leads to a marked vertex at most one level deeper.
   */
  ghost predicate Frontier(g: Graph, marked: seq<bool>, level: seq<int>, queue: seq<int>, done: seq<int>) {
    && Layout(g, marked, level, queue, done)
    && Covered(g, marked, queue, done)
    && Layered(level, queue, done)
    && Expands(g, marked, level, done)
  }

  /** Both lists hold distinct marked vertices, and no vertex is in both. */
  ghost predicate Layout(g: Graph, marked: seq<bool>, level: seq<int>, queue: seq<int>, done: seq<int>) {
    && |g.adj| == |g.vertices| && |marked| == |g.vertices| && |level| == |g.vertices|
    && Distinct(done) && Distinct(queue)
    && (forall i :: 0 <= i < |done| ==> 0 <= done[i] < |g.vertices| && marked[done[i]])
    && (forall i :: 0 <= i < |queue| ==> 0 <= queue[i] < |g.vertices| && marked[queue[i]] && queue[i] !in done)
  }

  /** Every marked vertex is expanded or waiting in the queue. */
  ghost predicate Covered(g: Graph, marked: seq<bool>, queue: seq<int>, done: seq<int>)
    requires |marked| == |g.vertices|
  {
    forall v :: 0 <= v < |g.vertices| && marked[v] ==> v in done || v in queue
  }

  /** The queue is in level order over at most two levels, none above an expanded vertex's. */
  ghost predicate Layered(level: seq<int>, queue: seq<int>, done: seq<int>)
    requires forall i :: 0 <= i < |done| ==> 0 <= done[i] < |level|
    requires forall i :: 0 <= i < |queue| ==> 0 <= queue[i] < |level|
  {
    && (forall i, j :: 0 <= i <= j < |queue| ==> level[queue[i]] <= level[queue[j]] <= level[queue[i]] + 1)
    && (forall i :: 0 <= i < |done| && |queue| > 0 ==> level[done[i]] <= level[queue[0]])
  }

  /** Every record of an expanded vertex leads to a marked vertex at most one level deeper. */
  ghost predicate Expands(g: Graph, marked: seq<bool>, level: seq<int>, done: seq<int>)
    requires |g.adj| == |g.vertices| && |marked| == |g.vertices| && |level| == |g.vertices|
    requires forall i :: 0 <= i < |done| ==> 0 <= done[i] < |g.vertices|
  {
    forall i, k :: 0 <= i < |done| && 0 <= k < |g.adj[done[i]]| ==>
      && 0 <= Target(g, g.adj[done[i]][k]) < |g.vertices|
      && marked[Target(g, g.adj[done[i]][k])]
      && level[Target(g, g.adj[done[i]][k])] <= level[done[i]] + 1
  }

  /** The level of `e` is no more than the number of steps of any walk from `s` to `e`. */
  ghost predicate Shortest(g: Graph, s: int, e: int, level: seq<int>)
    requires 0 <= e < |level|
  {
    forall p :: IsWalk(g, p) && p[0] == s && Last(p) == e ==> level[e] <= |p| - 1
  }

  /**
   * Expanding `cur` marked exactly the previously unmarked vertices listed in `added`, hung
   * them under `cur` one level below it, and left every other vertex as it was.
   */
  ghost predicate Expanded(g: Graph, cur: int, marked: seq<bool>, edgeTo: seq<Option<int>>, level: seq<int>,
                           marked': seq<bool>, edgeTo': seq<Option<int>>, level': seq<int>, added: seq<int>)
  {
    && 0 <= cur < |g.vertices|
    && |marked| == |g.vertices| && |edgeTo| == |g.vertices| && |level| == |g.vertices|
    && |marked'| == |g.vertices| && |edgeTo'| == |g.vertices| && |level'| == |g.vertices|
    && Distinct(added)
    && (forall i :: 0 <= i < |added| ==> 0 <= added[i] < |g.vertices| && !marked[added[i]])
    && (forall v :: 0 <= v < |g.vertices| && marked[v] ==>
          marked'[v] && edgeTo'[v] == edgeTo[v] && level'[v] == level[v])
    && (forall v :: 0 <= v < |g.vertices| && !marked[v] ==> (marked'[v] <==> v in added))
    && (forall v :: 0 <= v < |g.vertices| && !marked[v] && marked'[v] ==>
          edgeTo'[v] == Some(cur) && level'[v] == level[cur] + 1 && Joined(g, cur, v))
  }

  /**
   * The vertices the first `k` records of `cur` lead to that are unmarked in `marked`, in list
   * order, each at its first occurrence: the order in which an expansion of `cur` enqueues them.
   */
  function Unmarked(g: Graph, cur: int, marked: seq<bool>, k: int): (r: seq<int>)
    requires 0 <= cur < |g.adj| && 0 <= k <= |g.adj[cur]|
    ensures Distinct(r)
    ensures forall i :: 0 <= i < |r| ==> 0 <= r[i] < |marked| && !marked[r[i]]
    decreases k
  {
    if k == 0 then []
    else
      var r := Unmarked(g, cur, marked, k - 1);
      var t := Target(g, g.adj[cur][k - 1]);
      if 0 <= t < |marked| && !marked[t] && t !in r then r + [t] else r
  }

  /**
   * Enqueues, marks and hangs under `currIndex` every unmarked vertex a record of
   * `currIndex` leads to, in list order.
   */
  method ExpandNeighbours(g: Graph, current: Coordinate, currIndex: int, marked: array<bool>,
                          edgeTo: array<Option<int>>, queue: seq<int>, ghost level: seq<int>)
    returns (queueOut: seq<int>, ghost levelOut: seq<int>)
    requires Valid(g) && 0 <= currIndex < |g.vertices| && g.vertices[currIndex] == current
    requires marked.Length == |g.vertices| && edgeTo.Length == |g.vertices| && |level| == |g.vertices|
    requires marked[currIndex]
    modifies marked, edgeTo
    ensures |queue| <= |queueOut| && queueOut[..|queue|] == queue
    ensures Expanded(g, currIndex, old(marked[..]), old(edgeTo[..]), level,
                     marked[..], edgeTo[..], levelOut, queueOut[|queue|..])
    ensures Reached(g, currIndex, marked[..], |g.adj[currIndex]|)
    ensures queueOut[|queue|..] == Unmarked(g, currIndex, old(marked[..]), |g.adj[currIndex]|)
  {
    ghost var marked0, edgeTo0 := marked[..], edgeTo[..];
    queueOut, levelOut := queue, level;
    var k := 0;
    while k < |g.adj[currIndex]|
      invariant 0 <= k <= |g.adj[currIndex]|
      invariant queueOut == queue + Unmarked(g, currIndex, marked0, k)
      invariant Expanded(g, currIndex, marked0, edgeTo0, level, marked[..], edgeTo[..], levelOut,
                         Unmarked(g, currIndex, marked0, k))
      invariant Reached(g, currIndex, marked[..], k)
    {
      ghost var added;
      queueOut, levelOut, added := ExpandRecord(g, current, currIndex, marked, edgeTo, queue, queueOut, level,
                                                marked0, edgeTo0, levelOut, Unmarked(g, currIndex, marked0, k), k);
      k := k + 1;
    }
    ghost var added := Unmarked(g, currIndex, marked0, k);
    assert queueOut[..|queue|] == queue && queueOut[|queue|..] == added;
  }

  /** The body of the expansion loop for record `k` of `currIndex`: enqueues its target if unmarked. */
  method ExpandRecord(g: Graph, current: Coordinate, currIndex: int, marked: array<bool>,
                      edgeTo: array<Option<int>>, ghost queue: seq<int>, queueNow: seq<int>,
                      ghost level: seq<int>, ghost marked0: seq<bool>, ghost edgeTo0: seq<Option<int>>,
                      ghost levelNow: seq<int>, ghost added: seq<int>, k: int)
    returns (queueOut: seq<int>, ghost levelOut: seq<int>, ghost added': seq<int>)
    requires Valid(g) && 0 <= currIndex < |g.vertices| && g.vertices[currIndex] == current
    requires marked.Length == |g.vertices| && edgeTo.Length == |g.vertices|
    requires 0 <= k < |g.adj[currIndex]| && queueNow == queue + added
    requires Expanded(g, currIndex, marked0, edgeTo0, level, marked[..], edgeTo[..], levelNow, added)
    requires Reached(g, currIndex, marked[..], k)
    requires added == Unmarked(g, currIndex, marked0, k)
    modifies marked, edgeTo
    ensures queueOut == queue + added'
    ensures Expanded(g, currIndex, marked0, edgeTo0, level, marked[..], edgeTo[..], levelOut, added')
    ensures Reached(g, currIndex, marked[..], k + 1)
    ensures added' == Unmarked(g, currIndex, marked0, k + 1)
  {
    var otherIntersection := Other(g.adj[currIndex][k], current);
    var neighborIndex := IndexOf(g.vertices, otherIntersection);
    OtherIsLast(g, currIndex, k);
    UnmarkedNext(g, currIndex, marked0, edgeTo0, level, marked[..], edgeTo[..], levelNow, added, k);
    queueOut, levelOut, added' := queueNow, levelNow, added;
    if !marked[neighborIndex] {
      assert Joined(g, currIndex, neighborIndex);
      queueOut, levelOut := Enqueue(g, currIndex, neighborIndex, marked, edgeTo, queueNow, level,
                                    marked0, edgeTo0, levelNow, added, k);
      added' := added + [neighborIndex];
    }
    ReachedNext(g, currIndex, marked[..], k);
  }

  /**
   * The next record of `cur` adds its target to the in-order list exactly when the target is
   * not marked yet: the test the expansion makes.
   */
  lemma UnmarkedNext(g: Graph, cur: int, marked: seq<bool>, edgeTo: seq<Option<int>>, level: seq<int>,
                     m: seq<bool>, e: seq<Option<int>>, l: seq<int>, added: seq<int>, k: int)
    requires Expanded(g, cur, marked, edgeTo, level, m, e, l, added)
    requires |g.adj| == |g.vertices| && 0 <= k < |g.adj[cur]|
    requires added == Unmarked(g, cur, marked, k)
    requires 0 <= Target(g, g.adj[cur][k]) < |g.vertices|
    ensures Unmarked(g, cur, marked, k + 1)
            == if m[Target(g, g.adj[cur][k])] then added else added + [Target(g, g.adj[cur][k])]
  {
  }

  /** Marks `v`, hangs it under `cur` and puts it at the back of the queue. */
  method Enqueue(g: Graph, cur: int, v: int, marked: array<bool>, edgeTo: array<Option<int>>,
                 queue: seq<int>, ghost level: seq<int>, ghost marked0: seq<bool>, ghost edgeTo0: seq<Option<int>>,
                 ghost levelNow: seq<int>, ghost added: seq<int>, ghost k: int)
    returns (queueOut: seq<int>, ghost levelOut: seq<int>)
    requires 0 <= cur < |g.adj| == |g.vertices| && 0 <= k < |g.adj[cur]|
    requires marked.Length == |g.vertices| && edgeTo.Length == |g.vertices|
    requires 0 <= v < |g.vertices| && !marked[v] && Joined(g, cur, v)
    requires Expanded(g, cur, marked0, edgeTo0, level, marked[..], edgeTo[..], levelNow, added)
    requires Reached(g, cur, marked[..], k)
    modifies marked, edgeTo
    ensures queueOut == queue + [v]
    ensures marked[..] == old(marked[..])[v := true] && edgeTo[..] == old(edgeTo[..])[v := Some(cur)]
    ensures Expanded(g, cur, marked0, edgeTo0, level, marked[..], edgeTo[..], levelOut, added + [v])
    ensures Reached(g, cur, marked[..], k)
  {
    ghost var m, e := marked[..], edgeTo[..];
    queueOut := queue + [v];
    marked[v] := true;
    edgeTo[v] := Some(cur);
    levelOut := levelNow[v := level[cur] + 1];
    assert marked[..] == m[v := true];
    assert edgeTo[..] == e[v := Some(cur)];
    ExpandStep(g, cur, marked0, edgeTo0, level, m, e, levelNow, added, v);
    ReachedMark(g, cur, m, k, v);
  }

  /** Each of the first `k` records of `cur` leads to a marked vertex. */
  ghost predicate Reached(g: Graph, cur: int, marked: seq<bool>, k: int)
    requires 0 <= cur < |g.adj| && 0 <= k <= |g.adj[cur]|
  {
    forall j :: 0 <= j < k ==> 0 <= Target(g, g.adj[cur][j]) < |marked| && marked[Target(g, g.adj[cur][j])]
  }

  /** A record to a marked vertex extends `Reached` by one record. */
  lemma ReachedNext(g: Graph, cur: int, marked: seq<bool>, k: int)
    requires 0 <= cur < |g.adj| && 0 <= k < |g.adj[cur]|
    requires Reached(g, cur, marked, k)
    requires 0 <= Target(g, g.adj[cur][k]) < |marked| && marked[Target(g, g.adj[cur][k])]
    ensures Reached(g, cur, marked, k + 1)
  {
  }

  /** Marking one more vertex keeps every marked vertex marked. */
  lemma ReachedMark(g: Graph, cur: int, marked: seq<bool>, k: int, v: int)
    requires 0 <= cur < |g.adj| && 0 <= k <= |g.adj[cur]| && 0 <= v < |marked|
    requires Reached(g, cur, marked, k)
    ensures Reached(g, cur, marked[v := true], k)
  {
  }

  /** Marking one more unmarked vertex `v` a record of `cur` leads to keeps `Expanded`. */
  lemma ExpandStep(g: Graph, cur: int, marked: seq<bool>, edgeTo: seq<Option<int>>, level: seq<int>,
                   m: seq<bool>, e: seq<Option<int>>, l: seq<int>, added: seq<int>, v: int)
    requires Expanded(g, cur, marked, edgeTo, level, m, e, l, added)
    requires 0 <= v < |g.vertices| && !m[v] && Joined(g, cur, v)
    ensures Expanded(g, cur, marked, edgeTo, level, m[v := true], e[v := Some(cur)],
                     l[v := level[cur] + 1], added + [v])
  {
    var added' := added + [v];
    assert forall i :: 0 <= i < |added| ==> added'[i] == added[i];
    forall w | 0 <= w < |g.vertices| && !marked[w]
      ensures m[v := true][w] <==> w in added'
    {
      if w != v {
        assert w in added' <==> w in added;
      }
    }
  }

  /**
   * While the queue is not empty, a walk from the start of `n` steps ends at a marked vertex
   * of level at most `n`, or at an unmarked vertex more than one level below the queue's head.
   */
  lemma {:induction false} FrontierBound(g: Graph, s: int, marked: seq<bool>, edgeTo: seq<Option<int>>,
                                         level: seq<int>, queue: seq<int>, done: seq<int>, p: seq<int>)
    requires Tree(g, s, marked, edgeTo, level) && Frontier(g, marked, level, queue, done) && |queue| > 0
    requires IsWalk(g, p) && p[0] == s
    ensures marked[Last(p)] ==> level[Last(p)] <= |p| - 1
    ensures !marked[Last(p)] ==> |p| - 1 >= level[queue[0]] + 1
    decreases |p|
  {
    if |p| > 1 {
      var q := p[..|p| - 1];
      WalkPrefix(g, p);
      FrontierBound(g, s, marked, edgeTo, level, queue, done, q);
      var y, x := Last(q), Last(p);
      var k :| 0 <= k < |g.adj[y]| && Target(g, g.adj[y][k]) == x;
      if marked[y] && y in done {
        var i :| 0 <= i < |done| && done[i] == y;
        assert marked[x] && level[x] <= level[y] + 1;
      } else if marked[y] {
        var i :| 0 <= i < |queue| && queue[i] == y;
        assert level[queue[0]] <= level[y];
        if marked[x] {
          if x in done {
            var j :| 0 <= j < |done| && done[j] == x;
          } else {
            var j :| 0 <= j < |queue| && queue[j] == x;
          }
        }
      } else if marked[x] {
        if x in done {
          var j :| 0 <= j < |done| && done[j] == x;
        } else {
          var j :| 0 <= j < |queue| && queue[j] == x;
        }
      }
    }
  }

  /**
   * Once the queue is empty, every walk from the start of `n` steps ends at a marked vertex of
   * level at most `n`.
   */
  lemma {:induction false} SettledBound(g: Graph, s: int, marked: seq<bool>, edgeTo: seq<Option<int>>,
                                        level: seq<int>, done: seq<int>, p: seq<int>)
    requires Tree(g, s, marked, edgeTo, level) && Frontier(g, marked, level, [], done)
    requires IsWalk(g, p) && p[0] == s
    ensures marked[Last(p)] && level[Last(p)] <= |p| - 1
    decreases |p|
  {
    if |p| > 1 {
      var q := p[..|p| - 1];
      WalkPrefix(g, p);
      SettledBound(g, s, marked, edgeTo, level, done, q);
      var y, x := Last(q), Last(p);
      var k :| 0 <= k < |g.adj[y]| && Target(g, g.adj[y][k]) == x;
      var i :| 0 <= i < |done| && done[i] == y;
    }
  }

  /** Expanding the head of the queue keeps the search tree. */
  lemma ExpandKeepsTree(g: Graph, s: int, cur: int, marked: seq<bool>, edgeTo: seq<Option<int>>, level: seq<int>,
                        marked': seq<bool>, edgeTo': seq<Option<int>>, level': seq<int>, added: seq<int>)
    requires Expanded(g, cur, marked, edgeTo, level, marked', edgeTo', level', added)
    requires Tree(g, s, marked, edgeTo, level) && marked[cur]
    ensures Tree(g, s, marked', edgeTo', level')
  {
    forall v | 0 <= v < |g.vertices| && marked'[v] && v != s
      ensures edgeTo'[v].Some? && 0 <= edgeTo'[v].value < |g.vertices| && marked'[edgeTo'[v].value]
      ensures Joined(g, edgeTo'[v].value, v) && level'[v] == level'[edgeTo'[v].value] + 1
    {
      if marked[v] {
        var u := edgeTo[v].value;
        assert marked'[u] && level'[u] == level[u];
      }
    }
  }

  /**
   * Expanding the head `cur` of the queue, appending the vertices it marked and moving `cur`
   * to the expanded list keeps the frontier.
   */
  lemma ExpandKeepsFrontier(g: Graph, cur: int, marked: seq<bool>, edgeTo: seq<Option<int>>, level: seq<int>,
                            marked': seq<bool>, edgeTo': seq<Option<int>>, level': seq<int>,
                            queue: seq<int>, done: seq<int>, added: seq<int>)
    requires Valid(g) && Frontier(g, marked, level, queue, done) && |queue| > 0 && queue[0] == cur
    requires Expanded(g, cur, marked, edgeTo, level, marked', edgeTo', level', added)
    requires forall k :: 0 <= k < |g.adj[cur]| ==> marked'[Target(g, g.adj[cur][k])]
    ensures Frontier(g, marked', level', queue[1..] + added, done + [cur])
  {
    ExpandKeepsLayout(g, cur, marked, edgeTo, level, marked', edgeTo', level', queue, done, added);
    ExpandKeepsCovered(g, cur, marked, edgeTo, level, marked', edgeTo', level', queue, done, added);
    ExpandKeepsLayered(g, cur, marked, edgeTo, level, marked', edgeTo', level', queue, done, added);
    ExpandKeepsExpands(g, cur, marked, edgeTo, level, marked', edgeTo', level', queue, done, added);
  }

  lemma ExpandKeepsLayout(g: Graph, cur: int, marked: seq<bool>, edgeTo: seq<Option<int>>, level: seq<int>,
                          marked': seq<bool>, edgeTo': seq<Option<int>>, level': seq<int>,
                          queue: seq<int>, done: seq<int>, added: seq<int>)
    requires Layout(g, marked, level, queue, done) && |queue| > 0 && queue[0] == cur
    requires Expanded(g, cur, marked, edgeTo, level, marked', edgeTo', level', added)
    ensures Layout(g, marked', level', queue[1..] + added, done + [cur])
  {
    var rest, queue', done' := queue[1..], queue[1..] + added, done + [cur];
    assert forall i :: 0 <= i < |queue'| ==> queue'[i] == if i < |rest| then queue[i + 1] else added[i - |rest|];
    assert forall i :: 0 <= i < |done'| ==> done'[i] == if i < |done| then done[i] else cur;
    forall i, j | 0 <= i < j < |queue'| ensures queue'[i] != queue'[j] {
      if j < |rest| {
        assert queue[i + 1] != queue[j + 1];
      }
    }
    forall i | 0 <= i < |queue'| ensures queue'[i] !in done' {
      if i < |rest| {
        assert queue[0] != queue[i + 1];
      }
    }
  }

  lemma ExpandKeepsCovered(g: Graph, cur: int, marked: seq<bool>, edgeTo: seq<Option<int>>, level: seq<int>,
                           marked': seq<bool>, edgeTo': seq<Option<int>>, level': seq<int>,
                           queue: seq<int>, done: seq<int>, added: seq<int>)
    requires Layout(g, marked, level, queue, done) && Covered(g, marked, queue, done)
    requires |queue| > 0 && queue[0] == cur
    requires Expanded(g, cur, marked, edgeTo, level, marked', edgeTo', level', added)
    ensures Covered(g, marked', queue[1..] + added, done + [cur])
  {
    var queue', done' := queue[1..] + added, done + [cur];
    forall v | 0 <= v < |g.vertices| && marked'[v] ensures v in done' || v in queue' {
      if marked[v] && v in queue && v != cur {
        var i :| 0 <= i < |queue| && queue[i] == v;
        assert queue'[i - 1] == v;
      } else if !marked[v] {
        var i :| 0 <= i < |added| && added[i] == v;
        assert queue'[|queue| - 1 + i] == v;
      }
    }
  }

  lemma ExpandKeepsLayered(g: Graph, cur: int, marked: seq<bool>, edgeTo: seq<Option<int>>, level: seq<int>,
                           marked': seq<bool>, edgeTo': seq<Option<int>>, level': seq<int>,
                           queue: seq<int>, done: seq<int>, added: seq<int>)
    requires Layout(g, marked, level, queue, done) && Layered(level, queue, done)
    requires |queue| > 0 && queue[0] == cur
    requires Expanded(g, cur, marked, edgeTo, level, marked', edgeTo', level', added)
    ensures Layout(g, marked', level', queue[1..] + added, done + [cur])
    ensures Layered(level', queue[1..] + added, done + [cur])
  {
    ExpandKeepsLayout(g, cur, marked, edgeTo, level, marked', edgeTo', level', queue, done, added);
    var rest, queue', done' := queue[1..], queue[1..] + added, done + [cur];
    assert forall i :: 0 <= i < |queue'| ==> queue'[i] == if i < |rest| then queue[i + 1] else added[i - |rest|];
    forall i | 0 <= i < |queue'| ensures level[cur] <= level'[queue'[i]] <= level[cur] + 1 {
      if i < |rest| {
        assert level[queue[0]] <= level[queue[i + 1]] <= level[queue[0]] + 1;
      }
    }
    forall i, j | 0 <= i <= j < |queue'|
      ensures level'[queue'[i]] <= level'[queue'[j]] <= level'[queue'[i]] + 1
    {
      if j < |rest| {
        assert level[queue[i + 1]] <= level[queue[j + 1]] <= level[queue[i + 1]] + 1;
      }
    }
    forall i | 0 <= i < |done'| && |queue'| > 0 ensures level'[done'[i]] <= level'[queue'[0]] {
      if i < |done| {
        assert level[done[i]] <= level[cur];
      }
    }
  }

  lemma ExpandKeepsExpands(g: Graph, cur: int, marked: seq<bool>, edgeTo: seq<Option<int>>, level: seq<int>,
                           marked': seq<bool>, edgeTo': seq<Option<int>>, level': seq<int>,
                           queue: seq<int>, done: seq<int>, added: seq<int>)
    requires Valid(g) && Frontier(g, marked, level, queue, done) && |queue| > 0 && queue[0] == cur
    requires Expanded(g, cur, marked, edgeTo, level, marked', edgeTo', level', added)
    requires forall k :: 0 <= k < |g.adj[cur]| ==> marked'[Target(g, g.adj[cur][k])]
    ensures forall i :: 0 <= i < |done + [cur]| ==> 0 <= (done + [cur])[i] < |g.vertices|
    ensures Expands(g, marked', level', done + [cur])
  {
    var done' := done + [cur];
    assert forall i :: 0 <= i < |done'| ==> done'[i] == if i < |done| then done[i] else cur;
    forall i, k | 0 <= i < |done'| && 0 <= k < |g.adj[done'[i]]|
      ensures 0 <= Target(g, g.adj[done'[i]][k]) < |g.vertices|
      ensures marked'[Target(g, g.adj[done'[i]][k])]
      ensures level'[Target(g, g.adj[done'[i]][k])] <= level'[done'[i]] + 1
    {
      OtherIsLast(g, done'[i], k);
      var x := Target(g, g.adj[done'[i]][k]);
      if i == |done| && marked[x] {
        if x in done {
          var j :| 0 <= j < |done| && done[j] == x;
        } else {
          var j :| 0 <= j < |queue| && queue[j] == x;
        }
      }
    }
  }

  /**
   * Breadth-first search from `start` that stops when `end` is dequeued. Afterwards the marked
   * vertices form a search tree, the level of a marked `end` is the fewest steps any walk to it
   * takes, and an unmarked `end` is unreachable.
   */
  method BfsHelper(g: Graph, start: Coordinate, end: Coordinate, marked: array<bool>, edgeTo: array<Option<int>>)
    returns (ghost level: seq<int>)
    requires Valid(g) && start in g.vertices && end in g.vertices
    requires marked.Length == |g.vertices| && edgeTo.Length == |g.vertices|
    requires forall v :: 0 <= v < marked.Length ==> !marked[v] && edgeTo[v] == None
    modifies marked, edgeTo
    ensures Tree(g, IndexOf(g.vertices, start), marked[..], edgeTo[..], level)
    ensures marked[IndexOf(g.vertices, end)] ==> Shortest(g, IndexOf(g.vertices, start), IndexOf(g.vertices, end), level)
    ensures !marked[IndexOf(g.vertices, end)] ==> !Reachable(g, IndexOf(g.vertices, start), IndexOf(g.vertices, end))
  {
    var startIndex := IndexOf(g.vertices, start);
    var endIndex := IndexOf(g.vertices, end);
    var queue := [startIndex];
    marked[startIndex] := true;
    level := seq(|g.vertices|, _ => 0);
    ghost var done: seq<int> := [];
    ghost var found := false;
    while |queue| > 0
      invariant !found
      invariant Tree(g, startIndex, marked[..], edgeTo[..], level)
      invariant Frontier(g, marked[..], level, queue, done)
      decreases |g.vertices| - |done|
    {
      var currIndex := queue[0];
      ghost var waiting := queue;
      queue := queue[1..];
      if currIndex == endIndex {
        HeadIsShortest(g, startIndex, marked[..], edgeTo[..], level, waiting, done);
        found := true;
        break;
      }
      ghost var marked0, edgeTo0, level0 := marked[..], edgeTo[..], level;
      var current := g.vertices[currIndex];
      queue, level := ExpandNeighbours(g, current, currIndex, marked, edgeTo, queue, level);
      ExpandKeepsSearch(g, startIndex, currIndex, marked0, edgeTo0, level0, marked[..], edgeTo[..], level,
                        waiting, queue, done);
      done := done + [currIndex];
    }
    if !found {
      SettledIsShortest(g, startIndex, marked[..], edgeTo[..], level, done, endIndex);
    }
  }

  /** Expanding the head of the queue keeps the search tree and the frontier, one vertex further on. */
  lemma ExpandKeepsSearch(g: Graph, s: int, cur: int, marked: seq<bool>, edgeTo: seq<Option<int>>, level: seq<int>,
                          marked': seq<bool>, edgeTo': seq<Option<int>>, level': seq<int>,
                          waiting: seq<int>, queue': seq<int>, done: seq<int>)
    requires Valid(g) && Tree(g, s, marked, edgeTo, level) && Frontier(g, marked, level, waiting, done)
    requires |waiting| > 0 && waiting[0] == cur
    requires |waiting| - 1 <= |queue'| && queue'[..|waiting| - 1] == waiting[1..]
    requires Expanded(g, cur, marked, edgeTo, level, marked', edgeTo', level', queue'[|waiting| - 1..])
    requires Reached(g, cur, marked', |g.adj[cur]|)
    ensures Tree(g, s, marked', edgeTo', level') && Frontier(g, marked', level', queue', done + [cur])
    ensures |done + [cur]| <= |g.vertices|
  {
    var added := queue'[|waiting| - 1..];
    assert queue' == waiting[1..] + added;
    ExpandKeepsTree(g, s, cur, marked, edgeTo, level, marked', edgeTo', level', added);
    ExpandKeepsFrontier(g, cur, marked, edgeTo, level, marked', edgeTo', level', waiting, done, added);
    DistinctBounded(done + [cur], |g.vertices|);
  }

  /** The vertex at the head of the queue is at its shortest distance. */
  lemma HeadIsShortest(g: Graph, s: int, marked: seq<bool>, edgeTo: seq<Option<int>>,
                       level: seq<int>, queue: seq<int>, done: seq<int>)
    requires Tree(g, s, marked, edgeTo, level) && Frontier(g, marked, level, queue, done) && |queue| > 0
    ensures 0 <= queue[0] < |level| && Shortest(g, s, queue[0], level)
  {
    forall p | IsWalk(g, p) && p[0] == s && Last(p) == queue[0]
      ensures level[queue[0]] <= |p| - 1
    {
      FrontierBound(g, s, marked, edgeTo, level, queue, done, p);
    }
  }

  /**
   * Once the queue is empty, a marked vertex is at its shortest distance and an unmarked one is
   * unreachable.
   */
  lemma SettledIsShortest(g: Graph, s: int, marked: seq<bool>, edgeTo: seq<Option<int>>,
                          level: seq<int>, done: seq<int>, e: int)
    requires Tree(g, s, marked, edgeTo, level) && Frontier(g, marked, level, [], done)
    requires 0 <= e < |g.vertices|
    ensures marked[e] ==> Shortest(g, s, e, level)
    ensures !marked[e] ==> !Reachable(g, s, e)
  {
    forall p | IsWalk(g, p) && p[0] == s && Last(p) == e
      ensures marked[e] && level[e] <= |p| - 1
    {
      SettledBound(g, s, marked, edgeTo, level, done, p);
    }
  }

  /**
   * The path with the fewest intersections from `start` to `end`, as the vertex indices along
   * it, or `None` (the program's null) when `end` cannot be reached.
   */
  method MinimizeIntersections(g: Graph, start: Coordinate, end: Coordinate) returns (path: Option<seq<int>>)
    requires Valid(g) && start in g.vertices && end in g.vertices
    ensures path.None? <==> !Reachable(g, IndexOf(g.vertices, start), IndexOf(g.vertices, end))
    ensures path.Some? ==>
      IsWalk(g, path.value) && path.value[0] == IndexOf(g.vertices, start) && Last(path.value) == IndexOf(g.vertices, end)
    ensures path.Some? ==>
      forall q :: IsWalk(g, q) && q[0] == IndexOf(g.vertices, start) && Last(q) == IndexOf(g.vertices, end) ==>
        |path.value| <= |q|
    ensures start == end ==> path == Some([IndexOf(g.vertices, start)])
  {
    var marked := new bool[|g.vertices|](_ => false);
    var edgeTo := new Option<int>[|g.vertices|](_ => None);
    ghost var level := BfsHelper(g, start, end, marked, edgeTo);
    ghost var s := IndexOf(g.vertices, start);
    var endIndex := IndexOf(g.vertices, end);
    if !marked[endIndex] {
      return None;
    }
    var p := PathTo(g, s, marked, edgeTo, level, endIndex);
    if start == end {
      assert p == [s];
    }
    path := Some(p);
  }

  /** The parent of a marked vertex in the search tree, if any, is one level up. */
  lemma TreeParent(g: Graph, s: int, marked: seq<bool>, edgeTo: seq<Option<int>>, level: seq<int>, c: int)
    requires Tree(g, s, marked, edgeTo, level) && 0 <= c < |g.vertices| && marked[c]
    ensures edgeTo[c].None? <==> c == s
    ensures edgeTo[c].None? ==> level[c] == 0
    ensures edgeTo[c].Some? ==>
      && 0 <= edgeTo[c].value < |g.vertices| && marked[edgeTo[c].value]
      && Joined(g, edgeTo[c].value, c) && level[c] == level[edgeTo[c].value] + 1
      && level[edgeTo[c].value] >= 0
  {
  }

  /**
   * Follows `edgeTo` back from the marked `endIndex` to the start, then reverses: a walk from
   * the start with one vertex more than the level of `endIndex`.
   */
  method PathTo(g: Graph, ghost s: int, marked: array<bool>, edgeTo: array<Option<int>>, ghost level: seq<int>, endIndex: int)
    returns (path: seq<int>)
    requires Tree(g, s, marked[..], edgeTo[..], level) && 0 <= endIndex < |g.vertices| && marked[endIndex]
    ensures IsWalk(g, path) && path[0] == s && Last(path) == endIndex && |path| == level[endIndex] + 1
  {
    var reversed: seq<int> := [];
    var currentIndex: Option<int> := Some(endIndex);
    while currentIndex.Some?
      invariant currentIndex.Some? ==>
        && 0 <= currentIndex.value < |g.vertices| && marked[currentIndex.value]
        && |reversed| + level[currentIndex.value] == level[endIndex]
        && (|reversed| > 0 ==> Joined(g, currentIndex.value, Last(reversed)))
      invariant currentIndex.None? ==> |reversed| == level[endIndex] + 1 && Last(reversed) == s
      invariant |reversed| == 0 ==> currentIndex == Some(endIndex)
      invariant |reversed| > 0 ==> reversed[0] == endIndex
      invariant BackChain(g, reversed)
      decreases if currentIndex.Some? then level[currentIndex.value] + 1 else 0
    {
      var c := currentIndex.value;
      BackChainSnoc(g, reversed, c);
      TreeParent(g, s, marked[..], edgeTo[..], level, c);
      ghost var before := reversed;
      reversed := reversed + [c];
      assert reversed[0] == if |before| == 0 then c else before[0];
      currentIndex := edgeTo[c];
    }
    BackChainReversed(g, reversed);
    path := Reversed(reversed);
  }
}
