// dijkstra_algo.py: `WeightedGraph`, a weight matrix with Dijkstra's
// shortest path. Tentative distances start at `float('inf')`, the nearest
// unvisited node is found by a linear scan, relaxation follows only entries
// greater than zero, and the path is read back along `previous` from the
// target. When the target cannot be reached, `previous[target]` is still -1
// and the result is `[target]`.
module DijkstraAlgo {
  import opened Common
  import opened Matrices
  import opened WeightMatrix

  /** A tentative distance: `float('inf')` or a whole number. */
  datatype Distance = Infinity | Finite(value: int)

  /** Python's `<` on tentative distances; `inf < inf` is false. */
  predicate Below(a: Distance, b: Distance)
  {
    a.Finite? && (b.Infinity? || a.value < b.value)
  }

  /** Python's `<=` on tentative distances. */
  predicate AtMost(a: Distance, b: Distance)
  {
    !Below(b, a)
  }

  /** Reverses a list: `path[::-1]`. */
  function Reversed(s: seq<int>): (r: seq<int>)
    ensures |r| == |s| && forall i :: 0 <= i < |s| ==> r[i] == s[|s| - 1 - i]
  {
    if s == [] then [] else Reversed(s[1..]) + [s[0]]
  }

  lemma ReversedSnoc(s: seq<int>, x: int)
    ensures Reversed(s + [x]) == [x] + Reversed(s)
  {
  }

  // ---------------------------------------------------------------------
  // The search tree kept in `distances` and `previous`.
  // ---------------------------------------------------------------------

  /** `previous[v]` is a node whose positive entry into `v` gave `v` its distance. */
  ghost predicate Hangs(m: seq<seq<int>>, dist: seq<Distance>, previous: seq<int>, v: int)
    requires |dist| == |m| && |previous| == |m| && 0 <= v < |m|
  {
    var p := previous[v];
    && 0 <= p < |m| && Step(m, p, v) && dist[v].Finite? && dist[p].Finite?
    && dist[v].value == dist[p].value + m[p][v]
  }

  /** What `distances` and `previous` say about node `v`. */
  ghost predicate Rooted(m: seq<seq<int>>, source: int, dist: seq<Distance>, previous: seq<int>, v: int)
    requires |dist| == |m| && |previous| == |m| && 0 <= v < |m|
  {
    && (dist[v].Finite? ==> dist[v].value >= 0)
    && (previous[v] == -1 ==> (dist[v].Finite? <==> v == source))
    && (previous[v] != -1 ==> Hangs(m, dist, previous, v))
  }

  /** The source is at 0 without predecessor; every other node with a distance hangs below its predecessor. */
  ghost predicate Tree(m: seq<seq<int>>, source: int, dist: seq<Distance>, previous: seq<int>)
  {
    && |dist| == |m| && |previous| == |m| && 0 <= source < |m|
    && dist[source] == Finite(0) && previous[source] == -1
    && forall v :: 0 <= v < |m| ==> Rooted(m, source, dist, previous, v)
  }

  /** Decreases along `previous`: weights are positive. */
  function Rank(dist: seq<Distance>, v: int): nat
  {
    if 0 <= v < |dist| then (if dist[v].Finite? && dist[v].value >= 0 then dist[v].value + 2 else 1) else 0
  }

  /** The nodes met following `previous` back from `v`, in walk order. */
  ghost function Trace(m: seq<seq<int>>, source: int, dist: seq<Distance>, previous: seq<int>, v: int): (path: seq<int>)
    requires Tree(m, source, dist, previous) && 0 <= v < |m|
    ensures |path| > 0 && path[|path| - 1] == v
    decreases Rank(dist, v)
  {
    assert Rooted(m, source, dist, previous, v);
    if previous[v] == -1 then [v]
    else
      assert Rooted(m, source, dist, previous, previous[v]);
      Trace(m, source, dist, previous, previous[v]) + [v]
  }

  /** One step of the reconstruction loop. */
  lemma TraceStep(m: seq<seq<int>>, source: int, dist: seq<Distance>, previous: seq<int>, v: int)
    requires Tree(m, source, dist, previous) && 0 <= v < |m|
    ensures previous[v] == -1 ==> Trace(m, source, dist, previous, v) == [v]
    ensures previous[v] != -1 ==>
      && 0 <= previous[v] < |m| && Rank(dist, previous[v]) < Rank(dist, v)
      && Trace(m, source, dist, previous, v) == Trace(m, source, dist, previous, previous[v]) + [v]
  {
    assert Rooted(m, source, dist, previous, v);
    if previous[v] != -1 {
      assert Rooted(m, source, dist, previous, previous[v]);
    }
  }

  /**
   * Following `previous` back from a node with a distance gives a walk from
   * the source of exactly that weight; from a node without one it gives the
   * node alone.
   */
  lemma {:induction false} TraceWalk(m: seq<seq<int>>, source: int, dist: seq<Distance>, previous: seq<int>, v: int)
    requires Square(m, |m|) && Tree(m, source, dist, previous) && 0 <= v < |m|
    ensures dist[v].Finite? ==>
      Walk(m, source, Trace(m, source, dist, previous, v), v) && Weight(m, Trace(m, source, dist, previous, v)) == dist[v].value
    ensures dist[v].Infinity? ==> Trace(m, source, dist, previous, v) == [v]
    decreases Rank(dist, v)
  {
    assert Rooted(m, source, dist, previous, v);
    TraceStep(m, source, dist, previous, v);
    if previous[v] != -1 {
      var p := previous[v];
      TraceWalk(m, source, dist, previous, p);
      ExtendPath(m, Trace(m, source, dist, previous, p), v);
    }
  }

  // ---------------------------------------------------------------------
  // The invariant of the main loop.
  // ---------------------------------------------------------------------

  /** Only visited nodes are recorded as predecessors. */
  ghost predicate ParentsVisited(visited: set<int>, previous: seq<int>)
  {
    forall v :: 0 <= v < |previous| && previous[v] != -1 ==> previous[v] in visited
  }

  /** `u` has a distance, and no walk from the source to `u` is lighter. */
  ghost predicate Shortest(m: seq<seq<int>>, source: int, dist: seq<Distance>, u: int)
    requires 0 <= u < |dist|
  {
    dist[u].Finite? && forall p :: Walk(m, source, p, u) ==> dist[u].value <= Weight(m, p)
  }

  /**
   * For visited `w` and unvisited `v`: `w` is no farther than `v`, and the
   * entry from `w` to `v`, if positive, has been relaxed.
   */
  ghost predicate Frontier(m: seq<seq<int>>, dist: seq<Distance>, w: int, v: int)
    requires |dist| == |m| && 0 <= w < |m| && 0 <= v < |m|
  {
    && AtMost(dist[w], dist[v])
    && (Step(m, w, v) ==> dist[w].Finite? && dist[v].Finite? && dist[v].value <= dist[w].value + m[w][v])
  }

  /** What holds at the head of the `while` loop of `shortest_path`. */
  ghost predicate Settling(m: seq<seq<int>>, source: int, visited: set<int>, dist: seq<Distance>, previous: seq<int>)
  {
    && Square(m, |m|) && Tree(m, source, dist, previous) && ParentsVisited(visited, previous)
    && (forall u :: u in visited ==> 0 <= u < |m| && Shortest(m, source, dist, u))
    && (forall w, v :: w in visited && 0 <= v < |m| && v !in visited ==> Frontier(m, dist, w, v))
  }

  /** `__find_min_index`'s choice: the lowest-numbered unvisited node of least finite distance. */
  ghost predicate Nearest(dist: seq<Distance>, visited: set<int>, k: int)
  {
    && 0 <= k < |dist| && k !in visited && dist[k].Finite?
    && (forall i :: 0 <= i < |dist| && i !in visited ==> AtMost(dist[k], dist[i]))
    && (forall i :: 0 <= i < k && i !in visited ==> Below(dist[k], dist[i]))
  }

  /** The choice of `__find_min_index` is determined by the distances and the visited set. */
  lemma NearestUnique(dist: seq<Distance>, visited: set<int>, k1: int, k2: int)
    requires Nearest(dist, visited, k1) && Nearest(dist, visited, k2)
    ensures k1 == k2
  {
  }

  /** How one pass of the inner `for` loop from `u` treats node `v`. */
  ghost predicate Lowered(m: seq<seq<int>>, u: int, visited: set<int>, dist: seq<Distance>, previous: seq<int>,
                          dist': seq<Distance>, previous': seq<int>, v: int)
    requires |dist| == |m| && |dist'| == |m| && |previous| == |m| && |previous'| == |m|
    requires 0 <= u < |m| && dist[u].Finite? && 0 <= v < |m|
  {
    // distances only go down
    && AtMost(dist'[v], dist[v])
    // only across a positive entry into an unvisited node
    && (v in visited || !Step(m, u, v) ==> dist'[v] == dist[v])
    // and afterwards that entry is relaxed
    && (v !in visited && Step(m, u, v) ==> dist'[v].Finite? && dist'[v].value <= dist[u].value + m[u][v])
    // an improvement goes through `u` and is recorded in `previous`
    && (dist'[v] != dist[v] ==> previous'[v] == u && dist'[v] == Finite(dist[u].value + m[u][v]))
    && (dist'[v] == dist[v] ==> previous'[v] == previous[v])
  }

  /** Before the first iteration: only the source has a distance, nothing is visited. */
  lemma Begin(m: seq<seq<int>>, source: int, dist: seq<Distance>, previous: seq<int>)
    requires Square(m, |m|) && 0 <= source < |m|
    requires dist == seq(|m|, _ => Infinity)[source := Finite(0)] && previous == seq(|m|, _ => -1)
    ensures Settling(m, source, {}, dist, previous)
  {
    forall v | 0 <= v < |m|
      ensures Rooted(m, source, dist, previous, v)
    {
    }
  }

  /** The first node of a walk that lies outside `visited`, when its last node does. */
  lemma {:induction false} FirstUnvisited(p: seq<int>, visited: set<int>) returns (k: int)
    requires |p| > 0 && p[|p| - 1] !in visited
    ensures 0 <= k < |p| && p[k] !in visited && forall i :: 0 <= i < k ==> p[i] in visited
    decreases |p|
  {
    if p[0] !in visited {
      k := 0;
    } else {
      var j := FirstUnvisited(p[1..], visited);
      k := j + 1;
    }
  }

  /**
   * A walk from the source that leaves the visited set first leaves it at a
   * node whose distance is at most the walk's weight.
   */
  lemma CrossingBound(m: seq<seq<int>>, source: int, visited: set<int>, dist: seq<Distance>, previous: seq<int>, p: seq<int>)
    returns (k: int)
    requires Settling(m, source, visited, dist, previous)
    requires IsPath(m, p) && p[0] == source && p[|p| - 1] !in visited
    ensures 0 <= k < |p| && p[k] !in visited && dist[p[k]].Finite? && dist[p[k]].value <= Weight(m, p)
  {
    k := FirstUnvisited(p, visited);
    if k > 0 {
      var w := p[k - 1];
      assert w in visited;
      PrefixPath(m, p, k);
      assert Walk(m, source, p[..k], w);
      assert Shortest(m, source, dist, w);
      assert Step(m, w, p[k]);
      assert Frontier(m, dist, w, p[k]);
      ExtendPath(m, p[..k], p[k]);
      assert p[..k] + [p[k]] == p[..k + 1];
      PrefixPath(m, p, k + 1);
    }
  }

  /** The node `__find_min_index` picks already has its shortest distance. */
  lemma Settle(m: seq<seq<int>>, source: int, visited: set<int>, dist: seq<Distance>, previous: seq<int>, u: int)
    requires Settling(m, source, visited, dist, previous) && Nearest(dist, visited, u)
    ensures Shortest(m, source, dist, u)
  {
    forall p | Walk(m, source, p, u)
      ensures dist[u].value <= Weight(m, p)
    {
      var k := CrossingBound(m, source, visited, dist, previous, p);
      assert AtMost(dist[u], dist[p[k]]);
    }
  }

  /** Relaxing from a visited node keeps the search tree, with predecessors still visited. */
  lemma AdvanceTree(m: seq<seq<int>>, source: int, visited: set<int>, dist: seq<Distance>, previous: seq<int>,
                    u: int, dist': seq<Distance>, previous': seq<int>)
    requires Square(m, |m|) && Tree(m, source, dist, previous) && ParentsVisited(visited, previous)
    requires 0 <= u < |m| && dist[u].Finite? && |dist'| == |m| && |previous'| == |m|
    requires forall v :: 0 <= v < |m| ==> Lowered(m, u, visited + {u}, dist, previous, dist', previous', v)
    ensures Tree(m, source, dist', previous') && ParentsVisited(visited + {u}, previous')
  {
    assert Lowered(m, u, visited + {u}, dist, previous, dist', previous', u);
    assert Rooted(m, source, dist, previous, u);
    assert Lowered(m, u, visited + {u}, dist, previous, dist', previous', source);
    forall v | 0 <= v < |m|
      ensures Rooted(m, source, dist', previous', v)
    {
      assert Lowered(m, u, visited + {u}, dist, previous, dist', previous', v);
      assert Rooted(m, source, dist, previous, v);
      if dist'[v] == dist[v] && previous[v] != -1 {
        assert Lowered(m, u, visited + {u}, dist, previous, dist', previous', previous[v]);
      }
    }
    forall v | 0 <= v < |m| && previous'[v] != -1
      ensures previous'[v] in visited + {u}
    {
      assert Lowered(m, u, visited + {u}, dist, previous, dist', previous', v);
    }
  }

  /** Relaxing keeps every visited node's distance, so it stays shortest. */
  lemma AdvanceShortest(m: seq<seq<int>>, source: int, visited: set<int>, dist: seq<Distance>, previous: seq<int>,
                        u: int, dist': seq<Distance>, previous': seq<int>)
    requires Settling(m, source, visited, dist, previous) && Nearest(dist, visited, u) && Shortest(m, source, dist, u)
    requires |dist'| == |m| && |previous'| == |m|
    requires forall v :: 0 <= v < |m| ==> Lowered(m, u, visited + {u}, dist, previous, dist', previous', v)
    ensures forall x :: x in visited + {u} ==> 0 <= x < |m| && Shortest(m, source, dist', x)
  {
    forall x | x in visited + {u}
      ensures 0 <= x < |m| && Shortest(m, source, dist', x)
    {
      assert Lowered(m, u, visited + {u}, dist, previous, dist', previous', x);
      assert Shortest(m, source, dist, x);
    }
  }

  /** After relaxing from `u`, the frontier facts hold with `u` moved into the visited set. */
  lemma AdvanceFrontier(m: seq<seq<int>>, source: int, visited: set<int>, dist: seq<Distance>, previous: seq<int>,
                        u: int, dist': seq<Distance>, previous': seq<int>)
    requires Settling(m, source, visited, dist, previous) && Nearest(dist, visited, u)
    requires |dist'| == |m| && |previous'| == |m|
    requires forall v :: 0 <= v < |m| ==> Lowered(m, u, visited + {u}, dist, previous, dist', previous', v)
    ensures forall w, v :: w in visited + {u} && 0 <= v < |m| && v !in visited + {u} ==> Frontier(m, dist', w, v)
  {
    assert Lowered(m, u, visited + {u}, dist, previous, dist', previous', u);
    forall w, v | w in visited + {u} && 0 <= v < |m| && v !in visited + {u}
      ensures Frontier(m, dist', w, v)
    {
      assert Lowered(m, u, visited + {u}, dist, previous, dist', previous', v);
      assert Lowered(m, u, visited + {u}, dist, previous, dist', previous', w);
      if w != u {
        assert Frontier(m, dist, w, v);
        assert Frontier(m, dist, w, u);
      }
    }
  }

  /** One iteration of the main loop keeps its invariant. */
  lemma Advance(m: seq<seq<int>>, source: int, visited: set<int>, dist: seq<Distance>, previous: seq<int>,
                u: int, dist': seq<Distance>, previous': seq<int>)
    requires Settling(m, source, visited, dist, previous) && Nearest(dist, visited, u)
    requires |dist'| == |m| && |previous'| == |m|
    requires forall v :: 0 <= v < |m| ==> Lowered(m, u, visited + {u}, dist, previous, dist', previous', v)
    ensures Settling(m, source, visited + {u}, dist', previous')
  {
    Settle(m, source, visited, dist, previous, u);
    AdvanceTree(m, source, visited, dist, previous, u, dist', previous');
    AdvanceShortest(m, source, visited, dist, previous, u, dist', previous');
    AdvanceFrontier(m, source, visited, dist, previous, u, dist', previous');
  }

  /** When every unvisited node is at infinity, no walk from the source leaves the visited set. */
  lemma {:induction false} Enclosed(m: seq<seq<int>>, source: int, visited: set<int>, dist: seq<Distance>, previous: seq<int>, p: seq<int>)
    requires Settling(m, source, visited, dist, previous)
    requires forall v :: 0 <= v < |m| && v !in visited ==> dist[v].Infinity?
    requires IsPath(m, p) && p[0] == source
    ensures p[|p| - 1] in visited
    decreases |p|
  {
    if |p| > 1 {
      var w := p[|p| - 2];
      PrefixPath(m, p, |p| - 1);
      Enclosed(m, source, visited, dist, previous, p[..|p| - 1]);
      assert Step(m, w, p[|p| - 1]);
    }
  }

  /**
   * When the main loop stops, following `previous` back from the target
   * gives a lightest walk from the source if the target is reachable, and
   * the target alone if it is not.
   */
  lemma Outcome(m: seq<seq<int>>, source: int, visited: set<int>, dist: seq<Distance>, previous: seq<int>, target: int)
    requires Settling(m, source, visited, dist, previous)
    requires forall v :: 0 <= v < |m| && v !in visited ==> dist[v].Infinity?
    requires 0 <= target < |m|
    ensures Reachable(m, source, target) ==>
      && Walk(m, source, Trace(m, source, dist, previous, target), target)
      && forall p :: Walk(m, source, p, target) ==> Weight(m, Trace(m, source, dist, previous, target)) <= Weight(m, p)
    ensures !Reachable(m, source, target) ==> Trace(m, source, dist, previous, target) == [target]
    ensures target == source ==> Trace(m, source, dist, previous, target) == [target]
  {
    TraceWalk(m, source, dist, previous, target);
    TraceStep(m, source, dist, previous, target);
    if target in visited {
      assert Shortest(m, source, dist, target);
    } else {
      forall p | IsPath(m, p) && p[0] == source
        ensures p[|p| - 1] in visited
      {
        Enclosed(m, source, visited, dist, previous, p);
      }
    }
  }

  // ---------------------------------------------------------------------
  // The demonstration graph of the module's `__main__` block.
  // ---------------------------------------------------------------------

  /** The directed demo graph's edges. */
  function DemoEdges(): seq<Edge>
  {
    [Edge(0, 1, 4), Edge(0, 2, 2), Edge(1, 2, 5), Edge(1, 3, 10), Edge(2, 4, 3), Edge(4, 3, 4), Edge(3, 5, 11)]
  }

  function DemoMatrix(): seq<seq<int>>
  {
    [[0, 4, 2, 0, 0, 0],
     [0, 0, 5, 10, 0, 0],
     [0, 0, 0, 0, 3, 0],
     [0, 0, 0, 0, 0, 11],
     [0, 0, 0, 4, 0, 0],
     [0, 0, 0, 0, 0, 0]]
  }

  /** The directed demo graph is built into this matrix. */
  lemma DemoBuilt()
    ensures EdgesInRange(DemoEdges(), 6) && Built(6, DemoEdges(), true) == DemoMatrix()
  {
    var e := DemoEdges();
    assert EdgesInRange(e, 6);
    forall a, b | 0 <= a < 6 && 0 <= b < 6
      ensures Built(6, e, true)[a][b] == DemoMatrix()[a][b]
    {
      BuiltAt(6, e, true, a, b);
      DemoLastWrite(a, b);
    }
    CellsEqual(Built(6, e, true), DemoMatrix());
  }

  lemma DemoLastWrite(a: int, b: int)
    requires 0 <= a < 6 && 0 <= b < 6
    ensures LastWrite(DemoEdges(), a, b, true) == DemoMatrix()[a][b]
  {
    var s0: seq<Edge> := [];
    var s1 := s0 + [Edge(0, 1, 4)];
    var s2 := s1 + [Edge(0, 2, 2)];
    var s3 := s2 + [Edge(1, 2, 5)];
    var s4 := s3 + [Edge(1, 3, 10)];
    var s5 := s4 + [Edge(2, 4, 3)];
    var s6 := s5 + [Edge(4, 3, 4)];
    var s7 := s6 + [Edge(3, 5, 11)];
    assert s7 == DemoEdges();
    LastWriteAppend(s0, Edge(0, 1, 4), a, b, true);
    LastWriteAppend(s1, Edge(0, 2, 2), a, b, true);
    LastWriteAppend(s2, Edge(1, 2, 5), a, b, true);
    LastWriteAppend(s3, Edge(1, 3, 10), a, b, true);
    LastWriteAppend(s4, Edge(2, 4, 3), a, b, true);
    LastWriteAppend(s5, Edge(4, 3, 4), a, b, true);
    LastWriteAppend(s6, Edge(3, 5, 11), a, b, true);
  }

  /** In the directed demo graph the walk `[0, 2, 4, 3, 5]` weighs 20. */
  lemma DemoPath()
    ensures Walk(DemoMatrix(), 0, [0, 2, 4, 3, 5], 5) && Weight(DemoMatrix(), [0, 2, 4, 3, 5]) == 20
  {
    var m := DemoMatrix();
    assert IsPath(m, [0]);
    ExtendPath(m, [0], 2);
    assert [0] + [2] == [0, 2];
    ExtendPath(m, [0, 2], 4);
    assert [0, 2] + [4] == [0, 2, 4];
    ExtendPath(m, [0, 2, 4], 3);
    assert [0, 2, 4] + [3] == [0, 2, 4, 3];
    ExtendPath(m, [0, 2, 4, 3], 5);
    assert [0, 2, 4, 3] + [5] == [0, 2, 4, 3, 5];
  }

  /**
   * No walk from 0 to 5 in the directed demo graph is lighter than 20, so
   * `shortest_path(0, 5)` returns a walk of weight 20, which
   * `[0, 2, 4, 3, 5]` is.
   */
  lemma DemoShortest()
    ensures Walk(DemoMatrix(), 0, [0, 2, 4, 3, 5], 5) && Weight(DemoMatrix(), [0, 2, 4, 3, 5]) == 20
    ensures forall p :: Walk(DemoMatrix(), 0, p, 5) ==> Weight(DemoMatrix(), p) >= 20
  {
    DemoPath();
    var phi := [0, 4, 2, 9, 5, 20];
    DemoFeasible(phi);
    forall q | Walk(DemoMatrix(), 0, q, 5)
      ensures Weight(DemoMatrix(), q) >= 20
    {
      PotentialBound(DemoMatrix(), phi, q);
    }
  }

  /** A potential for the directed demo graph: the distances from node 0. */
  lemma DemoFeasible(phi: seq<int>)
    requires phi == [0, 4, 2, 9, 5, 20]
    ensures Feasible(DemoMatrix(), phi)
  {
    var m := DemoMatrix();
    forall a, b | Step(m, a, b)
      ensures phi[b] - phi[a] <= m[a][b]
    {
      assert 0 <= a < 6 && 0 <= b < 6;
    }
  }

  /**
   * Node 5 of the directed demo graph has no positive entry in its row, so
   * node 0 cannot be reached from it and `shortest_path(5, 0)` returns `[0]`,
   * not the empty list.
   */
  lemma DemoUnreachable()
    ensures !Reachable(DemoMatrix(), 5, 0)
  {
    var m := DemoMatrix();
    forall p | Walk(m, 5, p, 0)
      ensures false
    {
      StaysInside(m, {5}, p);
    }
  }

  /** The undirected demo graph's edges. */
  function UndirectedDemoEdges(): seq<Edge>
  {
    [Edge(1, 2, 7), Edge(2, 4, 15), Edge(1, 3, 9), Edge(3, 2, 10), Edge(3, 4, 11),
     Edge(5, 4, 6), Edge(0, 5, 9), Edge(0, 3, 2), Edge(1, 0, 14)]
  }

  function UndirectedDemoMatrix(): seq<seq<int>>
  {
    [[0, 14, 0, 2, 0, 9],
     [14, 0, 7, 9, 0, 0],
     [0, 7, 0, 10, 15, 0],
     [2, 9, 10, 0, 11, 0],
     [0, 0, 15, 11, 0, 6],
     [9, 0, 0, 0, 6, 0]]
  }

  lemma UndirectedDemoLastWrite(a: int, b: int)
    requires 0 <= a < 6 && 0 <= b < 6
    ensures LastWrite(UndirectedDemoEdges(), a, b, false) == UndirectedDemoMatrix()[a][b]
  {
    var s0: seq<Edge> := [];
    var s1 := s0 + [Edge(1, 2, 7)];
    var s2 := s1 + [Edge(2, 4, 15)];
    var s3 := s2 + [Edge(1, 3, 9)];
    var s4 := s3 + [Edge(3, 2, 10)];
    var s5 := s4 + [Edge(3, 4, 11)];
    var s6 := s5 + [Edge(5, 4, 6)];
    var s7 := s6 + [Edge(0, 5, 9)];
    var s8 := s7 + [Edge(0, 3, 2)];
    var s9 := s8 + [Edge(1, 0, 14)];
    assert s9 == UndirectedDemoEdges();
    LastWriteAppend(s0, Edge(1, 2, 7), a, b, false);
    LastWriteAppend(s1, Edge(2, 4, 15), a, b, false);
    LastWriteAppend(s2, Edge(1, 3, 9), a, b, false);
    LastWriteAppend(s3, Edge(3, 2, 10), a, b, false);
    LastWriteAppend(s4, Edge(3, 4, 11), a, b, false);
    LastWriteAppend(s5, Edge(5, 4, 6), a, b, false);
    LastWriteAppend(s6, Edge(0, 5, 9), a, b, false);
    LastWriteAppend(s7, Edge(0, 3, 2), a, b, false);
    LastWriteAppend(s8, Edge(1, 0, 14), a, b, false);
  }

  /** The undirected demo graph is built into this matrix, each edge written both ways. */
  lemma UndirectedDemoBuilt()
    ensures EdgesInRange(UndirectedDemoEdges(), 6) && Built(6, UndirectedDemoEdges(), false) == UndirectedDemoMatrix()
  {
    var e := UndirectedDemoEdges();
    assert EdgesInRange(e, 6);
    forall a, b | 0 <= a < 6 && 0 <= b < 6
      ensures Built(6, e, false)[a][b] == UndirectedDemoMatrix()[a][b]
    {
      BuiltAt(6, e, false, a, b);
      UndirectedDemoLastWrite(a, b);
    }
    CellsEqual(Built(6, e, false), UndirectedDemoMatrix());
  }

  /** In the undirected demo graph the walk `[1, 3, 0, 5]` weighs 20. */
  lemma UndirectedDemoPath()
    ensures Walk(UndirectedDemoMatrix(), 1, [1, 3, 0, 5], 5) && Weight(UndirectedDemoMatrix(), [1, 3, 0, 5]) == 20
  {
    var m := UndirectedDemoMatrix();
    assert IsPath(m, [1]);
    ExtendPath(m, [1], 3);
    assert [1] + [3] == [1, 3];
    ExtendPath(m, [1, 3], 0);
    assert [1, 3] + [0] == [1, 3, 0];
    ExtendPath(m, [1, 3, 0], 5);
    assert [1, 3, 0] + [5] == [1, 3, 0, 5];
  }

  /** A potential for the undirected demo graph: the distances from node 1. */
  lemma UndirectedDemoFeasible(phi: seq<int>)
    requires phi == [11, 0, 7, 9, 20, 20]
    ensures Feasible(UndirectedDemoMatrix(), phi)
  {
    var m := UndirectedDemoMatrix();
    forall a, b | Step(m, a, b)
      ensures phi[b] - phi[a] <= m[a][b]
    {
      assert 0 <= a < 6 && 0 <= b < 6;
    }
  }

  /**
   * No walk from 1 to 5 in the undirected demo graph is lighter than 20, so
   * `shortest_path(1, 5)` returns a walk of weight 20, which `[1, 3, 0, 5]` is.
   */
  lemma UndirectedDemoShortest()
    ensures Walk(UndirectedDemoMatrix(), 1, [1, 3, 0, 5], 5) && Weight(UndirectedDemoMatrix(), [1, 3, 0, 5]) == 20
    ensures forall p :: Walk(UndirectedDemoMatrix(), 1, p, 5) ==> Weight(UndirectedDemoMatrix(), p) >= 20
  {
    UndirectedDemoPath();
    var phi := [11, 0, 7, 9, 20, 20];
    UndirectedDemoFeasible(phi);
    forall q | Walk(UndirectedDemoMatrix(), 1, q, 5)
      ensures Weight(UndirectedDemoMatrix(), q) >= 20
    {
      PotentialBound(UndirectedDemoMatrix(), phi, q);
    }
  }

  /**
   * The entries of the directed demo graph on which the distances from 0
   * rise by exactly the entry: none enters 0, and the only ones entering
   * 5, 3, 4 and 2 come from 3, 4, 2 and 0.
   */
  lemma DemoTight(phi: seq<int>, a: int, b: int)
    requires phi == [0, 4, 2, 9, 5, 20]
    requires Step(DemoMatrix(), a, b) && phi[b] - phi[a] == DemoMatrix()[a][b]
    ensures b != 0
    ensures (b == 5 ==> a == 3) && (b == 3 ==> a == 4) && (b == 4 ==> a == 2) && (b == 2 ==> a == 0)
  {
    assert 0 <= a < 6 && 0 <= b < 6;
  }

  /**
   * `[0, 2, 4, 3, 5]` is the only walk of weight 20 from 0 to 5 in the
   * directed demo graph, so every lightest walk is that one.
   */
  lemma DemoLightestUnique(p: seq<int>)
    requires Walk(DemoMatrix(), 0, p, 5) && Weight(DemoMatrix(), p) == 20
    ensures p == [0, 2, 4, 3, 5]
  {
    var m, phi := DemoMatrix(), [0, 4, 2, 9, 5, 20];
    DemoFeasible(phi);
    TightPath(m, phi, p);
    forall i | 0 < i < |p|
      ensures p[i] != 0
      ensures (p[i] == 5 ==> p[i - 1] == 3) && (p[i] == 3 ==> p[i - 1] == 4)
      ensures (p[i] == 4 ==> p[i - 1] == 2) && (p[i] == 2 ==> p[i - 1] == 0)
    {
      assert Step(m, p[i - 1], p[i]);
      DemoTight(phi, p[i - 1], p[i]);
    }
    var n := |p|;
    assert n >= 2 && p[n - 2] == 3;
    assert n >= 3 && p[n - 3] == 4;
    assert n >= 4 && p[n - 4] == 2;
    assert n >= 5 && p[n - 5] == 0;
    assert n == 5;
    Five(p, 0, 2, 4, 3, 5);
  }

  /**
   * The entries of the undirected demo graph on which the distances from 1
   * rise by exactly the entry: none enters 1, and the only ones entering
   * 5, 0 and 3 come from 0, 3 and 1.
   */
  lemma UndirectedDemoTight(phi: seq<int>, a: int, b: int)
    requires phi == [11, 0, 7, 9, 20, 20]
    requires Step(UndirectedDemoMatrix(), a, b) && phi[b] - phi[a] == UndirectedDemoMatrix()[a][b]
    ensures b != 1
    ensures (b == 5 ==> a == 0) && (b == 0 ==> a == 3) && (b == 3 ==> a == 1)
  {
    assert 0 <= a < 6 && 0 <= b < 6;
  }

  /**
   * `[1, 3, 0, 5]` is the only walk of weight 20 from 1 to 5 in the
   * undirected demo graph, so every lightest walk is that one.
   */
  lemma UndirectedDemoLightestUnique(p: seq<int>)
    requires Walk(UndirectedDemoMatrix(), 1, p, 5) && Weight(UndirectedDemoMatrix(), p) == 20
    ensures p == [1, 3, 0, 5]
  {
    var m, phi := UndirectedDemoMatrix(), [11, 0, 7, 9, 20, 20];
    UndirectedDemoFeasible(phi);
    TightPath(m, phi, p);
    forall i | 0 < i < |p|
      ensures p[i] != 1
      ensures (p[i] == 5 ==> p[i - 1] == 0) && (p[i] == 0 ==> p[i - 1] == 3) && (p[i] == 3 ==> p[i - 1] == 1)
    {
      assert Step(m, p[i - 1], p[i]);
      UndirectedDemoTight(phi, p[i - 1], p[i]);
    }
    var n := |p|;
    assert n >= 2 && p[n - 2] == 0;
    assert n >= 3 && p[n - 3] == 3;
    assert n >= 4 && p[n - 4] == 1;
    assert n == 4;
    assert p == [p[0], p[1], p[2], p[3]];
  }

  class WeightedGraph {
    const numberOfNodes: nat
    const directed: bool
    var adjacencyMatrix: seq<seq<int>>

    ghost predicate Valid()
      reads this
    {
      Square(adjacencyMatrix, numberOfNodes)
    }

    /** `WeightedGraph(number_of_nodes, edges, directed=...)`: a zero matrix, then `add_edge` per edge in order. */
    constructor (numberOfNodes: nat, edges: seq<Edge>, directed: bool)
      requires EdgesInRange(edges, numberOfNodes)
      ensures Valid() && this.numberOfNodes == numberOfNodes && this.directed == directed
      ensures adjacencyMatrix == Built(numberOfNodes, edges, directed)
      ensures forall a, b :: 0 <= a < numberOfNodes && 0 <= b < numberOfNodes ==>
        adjacencyMatrix[a][b] == LastWrite(edges, a, b, directed)
      ensures !directed ==> Symmetric(adjacencyMatrix)
    {
      this.numberOfNodes := numberOfNodes;
      this.directed := directed;
      adjacencyMatrix := Zeros(numberOfNodes);
      new;
      var k := 0;
      while k < |edges|
        invariant 0 <= k <= |edges|
        invariant Valid() && adjacencyMatrix == Built(numberOfNodes, edges[..k], directed)
      {
        assert edges[..k + 1][..k] == edges[..k];
        var raised := AddEdge(edges[k]);
        k := k + 1;
      }
      assert edges[..k] == edges;
      forall a, b | 0 <= a < numberOfNodes && 0 <= b < numberOfNodes
        ensures adjacencyMatrix[a][b] == LastWrite(edges, a, b, directed)
      {
        BuiltAt(numberOfNodes, edges, directed, a, b);
      }
      if !directed {
        BuiltSymmetric(numberOfNodes, edges);
      }
    }

    /**
     * `add_edge((n1, n2, weight))`: ValueError, with nothing changed, when
     * an endpoint is out of range; otherwise `m[n1][n2] = weight`, and
     * `m[n2][n1] = weight` too when undirected.
     */
    method AddEdge(edge: Edge) returns (raised: bool)
      requires Valid()
      modifies this
      ensures Valid()
      ensures raised <==> !EdgeInRange(edge, numberOfNodes)
      ensures raised ==> adjacencyMatrix == old(adjacencyMatrix)
      ensures !raised ==> adjacencyMatrix == Assign(old(adjacencyMatrix), edge, directed)
      ensures !raised ==> forall a, b :: 0 <= a < numberOfNodes && 0 <= b < numberOfNodes ==>
        adjacencyMatrix[a][b] == if Hits(edge, a, b, directed) then edge.weight else old(adjacencyMatrix)[a][b]
      ensures !directed && Symmetric(old(adjacencyMatrix)) ==> Symmetric(adjacencyMatrix)
    {
      var n1, n2, weight := edge.n1, edge.n2, edge.weight;
      if n1 < 0 || n1 >= numberOfNodes || n2 < 0 || n2 >= numberOfNodes {
        return true;
      }
      ghost var m := adjacencyMatrix;
      adjacencyMatrix := adjacencyMatrix[n1 := adjacencyMatrix[n1][n2 := weight]];
      if !directed {
        adjacencyMatrix := adjacencyMatrix[n2 := adjacencyMatrix[n2][n1 := weight]];
      }
      raised := false;
      forall a, b | 0 <= a < numberOfNodes && 0 <= b < numberOfNodes
        ensures adjacencyMatrix[a][b] == if Hits(edge, a, b, directed) then weight else m[a][b]
      {
        AssignAt(m, edge, directed, a, b);
      }
      if !directed && Symmetric(m) {
        AssignSymmetric(m, edge);
      }
    }

    /**
     * `__find_min_index`: the lowest-numbered unvisited node whose distance
     * is strictly below every earlier candidate's, or -1 when every
     * unvisited node is at infinity.
     */
    method FindMinIndex(distances: seq<Distance>, visited: set<int>) returns (minIndex: int)
      requires |distances| == numberOfNodes
      ensures minIndex == -1 <==> forall i :: 0 <= i < numberOfNodes && i !in visited ==> distances[i].Infinity?
      ensures minIndex != -1 ==> Nearest(distances, visited, minIndex)
    {
      var minDist := Infinity;
      minIndex := -1;
      for i := 0 to numberOfNodes
        invariant minIndex == -1 ==> minDist == Infinity && forall j :: 0 <= j < i && j !in visited ==> distances[j].Infinity?
        invariant minIndex != -1 ==> 0 <= minIndex < i && minIndex !in visited && minDist == distances[minIndex] && minDist.Finite?
        invariant minIndex != -1 ==> forall j :: 0 <= j < i && j !in visited ==> AtMost(minDist, distances[j])
        invariant minIndex != -1 ==> forall j :: 0 <= j < minIndex && j !in visited ==> Below(minDist, distances[j])
      {
        if i !in visited && Below(distances[i], minDist) {
          minDist := distances[i];
          minIndex := i;
        }
      }
    }

    /**
     * The inner `for` loop of `shortest_path`: every positive entry of row
     * `u` into an unvisited node lowers that node's distance to
     * `distances[u] + weight` when strictly better, recording `u` in
     * `previous`.
     */
    method Relax(u: int, visited: set<int>, distances: seq<Distance>, previous: seq<int>)
      returns (distances': seq<Distance>, previous': seq<int>)
      requires Valid() && 0 <= u < numberOfNodes && u in visited
      requires |distances| == numberOfNodes && |previous| == numberOfNodes && distances[u].Finite?
      ensures |distances'| == numberOfNodes && |previous'| == numberOfNodes
      ensures forall v :: 0 <= v < numberOfNodes ==> Lowered(adjacencyMatrix, u, visited, distances, previous, distances', previous', v)
    {
      distances', previous' := distances, previous;
      for neighbor := 0 to numberOfNodes
        invariant |distances'| == numberOfNodes && |previous'| == numberOfNodes
        invariant forall v :: 0 <= v < neighbor ==> Lowered(adjacencyMatrix, u, visited, distances, previous, distances', previous', v)
        invariant forall v :: neighbor <= v < numberOfNodes ==> distances'[v] == distances[v] && previous'[v] == previous[v]
      {
        assert distances'[u] == distances[u] by {
          if u < neighbor {
            assert Lowered(adjacencyMatrix, u, visited, distances, previous, distances', previous', u);
          }
        }
        ghost var d, p := distances', previous';
        if adjacencyMatrix[u][neighbor] > 0 && neighbor !in visited {
          var newDist := distances'[u].value + adjacencyMatrix[u][neighbor];
          if Below(Finite(newDist), distances'[neighbor]) {
            distances' := distances'[neighbor := Finite(newDist)];
            previous' := previous'[neighbor := u];
          }
        }
        assert Lowered(adjacencyMatrix, u, visited, distances, previous, distances', previous', neighbor);
        forall v | 0 <= v < neighbor
          ensures Lowered(adjacencyMatrix, u, visited, distances, previous, distances', previous', v)
        {
          assert Lowered(adjacencyMatrix, u, visited, distances, previous, d, p, v);
        }
      }
    }

    /**
     * `shortest_path(source, target)`: ValueError when either node is out of
     * range. Otherwise a lightest walk from `source` to `target` along
     * positive entries when one exists, and `[target]` when none does.
     */
    method ShortestPath(source: int, target: int) returns (raised: bool, path: seq<int>)
      requires Valid()
      ensures raised <==> !(0 <= source < numberOfNodes && 0 <= target < numberOfNodes)
      ensures raised ==> path == []
      ensures !raised ==> |path| > 0 && path[|path| - 1] == target
      ensures !raised && source == target ==> path == [source]
      ensures !raised && Reachable(adjacencyMatrix, source, target) ==>
        && Walk(adjacencyMatrix, source, path, target)
        && forall p :: Walk(adjacencyMatrix, source, p, target) ==> Weight(adjacencyMatrix, path) <= Weight(adjacencyMatrix, p)
      ensures !raised && !Reachable(adjacencyMatrix, source, target) ==> path == [target]
    {
      if source < 0 || source >= numberOfNodes || target < 0 || target >= numberOfNodes {
        return true, [];
      }
      var n := numberOfNodes;
      var distances := seq(n, _ => Infinity);
      var previous := seq(n, _ => -1);
      distances := distances[source := Finite(0)];
      var visited: set<int> := {};
      Begin(adjacencyMatrix, source, distances, previous);
      while visited != NodeSet(n)
        invariant Settling(adjacencyMatrix, source, visited, distances, previous) && |visited| <= n
        decreases n - |visited|
      {
        var minIndex := FindMinIndex(distances, visited);
        if minIndex == -1 {
          break;
        }
        ghost var visited0 := visited;
        visited := visited + {minIndex};
        var distances', previous' := Relax(minIndex, visited, distances, previous);
        Advance(adjacencyMatrix, source, visited0, distances, previous, minIndex, distances', previous');
        distances, previous := distances', previous';
        SubsetBounded(visited, n);
      }
      assert forall v :: 0 <= v < n && v !in visited ==> distances[v].Infinity?;
      Outcome(adjacencyMatrix, source, visited, distances, previous, target);
      path := PathBack(source, distances, previous, target);
      raised := false;
    }

    /**
     * The end of `shortest_path`: follow `previous` back from the target
     * until -1, then reverse.
     */
    method PathBack(ghost source: int, distances: seq<Distance>, previous: seq<int>, target: int) returns (path: seq<int>)
      requires Tree(adjacencyMatrix, source, distances, previous) && 0 <= target < |adjacencyMatrix|
      ensures path == Trace(adjacencyMatrix, source, distances, previous, target)
    {
      var reversed := [];
      var t := target;
      while t != -1
        invariant -1 <= t < |adjacencyMatrix|
        invariant t != -1 ==>
          Trace(adjacencyMatrix, source, distances, previous, t) + Reversed(reversed)
            == Trace(adjacencyMatrix, source, distances, previous, target)
        invariant t == -1 ==> Reversed(reversed) == Trace(adjacencyMatrix, source, distances, previous, target)
        decreases Rank(distances, t)
      {
        TraceStep(adjacencyMatrix, source, distances, previous, t);
        ReversedSnoc(reversed, t);
        if previous[t] != -1 {
          assert Trace(adjacencyMatrix, source, distances, previous, previous[t]) + ([t] + Reversed(reversed))
            == Trace(adjacencyMatrix, source, distances, previous, t) + Reversed(reversed);
        }
        reversed := reversed + [t];
        t := previous[t];
      }
      path := Reversed(reversed);
    }
  }

  /**
   * The `__main__` block run on the classes: `g1.shortest_path(0, 5)` is
   * `[0, 2, 4, 3, 5]` and `g2.shortest_path(1, 5)` is `[1, 3, 0, 5]`, each
   * the only walk of the least weight, 20. The added call
   * `g1.shortest_path(5, 0)`, which the block does not make, shows an
   * unreachable target: it returns `[0]`.
   */
  method DemoMain() returns (path1: seq<int>, back: seq<int>, path2: seq<int>)
    ensures path1 == [0, 2, 4, 3, 5] && Weight(DemoMatrix(), path1) == 20
    ensures back == [0]
    ensures path2 == [1, 3, 0, 5] && Weight(UndirectedDemoMatrix(), path2) == 20
  {
    DemoBuilt();
    var g1 := new WeightedGraph(6, DemoEdges(), true);
    var raised;
    raised, path1 := g1.ShortestPath(0, 5);
    DemoShortest();
    assert Reachable(DemoMatrix(), 0, 5);
    DemoLightestUnique(path1);
    raised, back := g1.ShortestPath(5, 0);
    DemoUnreachable();
    UndirectedDemoBuilt();
    var g2 := new WeightedGraph(6, UndirectedDemoEdges(), false);
    raised, path2 := g2.ShortestPath(1, 5);
    UndirectedDemoShortest();
    assert Reachable(UndirectedDemoMatrix(), 1, 5);
    UndirectedDemoLightestUnique(path2);
  }
}
