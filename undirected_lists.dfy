// The undirected adjacency list shared by adjacency_list.py,
// breadth_first_search.py and depth_first_search.py: `n` Python lists, and
// an edge `(n1, n2)` appends `n2` to list `n1` and then `n1` to list `n2`.
module UndirectedLists {
  import opened Common

  /** An unweighted edge, Python's `tuple[int, int]`. */
  datatype Edge = Edge(n1: int, n2: int)

  predicate EdgeInRange(e: Edge, n: int)
  {
    0 <= e.n1 < n && 0 <= e.n2 < n
  }

  predicate EdgesInRange(edges: seq<Edge>, n: int)
  {
    forall k :: 0 <= k < |edges| ==> EdgeInRange(edges[k], n)
  }

  /** `n` lists whose entries all name nodes. */
  ghost predicate WellFormed(d: seq<seq<int>>, n: nat)
  {
    |d| == n && forall a :: 0 <= a < n ==> AllNodes(d[a], n)
  }

  /** Number of occurrences of `x` in `s`. */
  function Count(s: seq<int>, x: int): nat
  {
    multiset(s)[x]
  }

  /**
   * The lists describe an undirected multigraph: `b` occurs in `a`'s list as
   * often as `a` occurs in `b`'s, and a self-loop contributes two entries.
   */
  ghost predicate Symmetric(d: seq<seq<int>>)
  {
    && (forall a, b :: 0 <= a < |d| && 0 <= b < |d| ==> Count(d[a], b) == Count(d[b], a))
    && (forall a :: 0 <= a < |d| ==> Count(d[a], a) % 2 == 0)
  }

  /** The two appends of one undirected edge, in the source's order. */
  function Link(d: seq<seq<int>>, n1: int, n2: int): (r: seq<seq<int>>)
    requires 0 <= n1 < |d| && 0 <= n2 < |d|
    ensures |r| == |d|
  {
    var d1 := d[n1 := d[n1] + [n2]];
    d1[n2 := d1[n2] + [n1]]
  }

  /** `n` empty lists with every edge linked in list order. */
  function Linked(n: nat, edges: seq<Edge>): (r: seq<seq<int>>)
    requires EdgesInRange(edges, n)
    ensures |r| == n
  {
    if edges == [] then seq(n, _ => [])
    else
      var e := edges[|edges| - 1];
      Link(Linked(n, edges[..|edges| - 1]), e.n1, e.n2)
  }

  /** Linking appends exactly the two endpoints and touches no other list. */
  lemma LinkAt(d: seq<seq<int>>, n1: int, n2: int, a: int)
    requires 0 <= n1 < |d| && 0 <= n2 < |d| && 0 <= a < |d|
    ensures Link(d, n1, n2)[a]
         == d[a] + (if a == n1 then [n2] else []) + (if a == n2 then [n1] else [])
  {
  }

  /** Every list only grows at its end: existing entries keep their places. */
  lemma LinkExtends(d: seq<seq<int>>, n1: int, n2: int, a: int)
    requires 0 <= n1 < |d| && 0 <= n2 < |d| && 0 <= a < |d|
    ensures d[a] <= Link(d, n1, n2)[a]
  {
    LinkAt(d, n1, n2, a);
  }

  lemma LinkWellFormed(d: seq<seq<int>>, n: nat, n1: int, n2: int)
    requires WellFormed(d, n) && 0 <= n1 < n && 0 <= n2 < n
    ensures WellFormed(Link(d, n1, n2), n)
  {
    forall a | 0 <= a < n
      ensures AllNodes(Link(d, n1, n2)[a], n)
    {
      LinkAt(d, n1, n2, a);
    }
  }

  lemma LinkCount(d: seq<seq<int>>, n1: int, n2: int, a: int, b: int)
    requires 0 <= n1 < |d| && 0 <= n2 < |d| && 0 <= a < |d|
    ensures Count(Link(d, n1, n2)[a], b)
         == Count(d[a], b) + (if a == n1 && b == n2 then 1 else 0) + (if a == n2 && b == n1 then 1 else 0)
  {
    LinkAt(d, n1, n2, a);
  }

  /** Appending both directions of an edge keeps the lists symmetric. */
  lemma LinkSymmetric(d: seq<seq<int>>, n1: int, n2: int)
    requires Symmetric(d) && 0 <= n1 < |d| && 0 <= n2 < |d|
    ensures Symmetric(Link(d, n1, n2))
  {
    var r := Link(d, n1, n2);
    forall a, b | 0 <= a < |d| && 0 <= b < |d|
      ensures Count(r[a], b) == Count(r[b], a)
    {
      LinkCount(d, n1, n2, a, b);
      LinkCount(d, n1, n2, b, a);
    }
    forall a | 0 <= a < |d|
      ensures Count(r[a], a) % 2 == 0
    {
      LinkCount(d, n1, n2, a, a);
    }
  }

  /** A freshly built list set is well formed and symmetric. */
  lemma {:induction false} LinkedValid(n: nat, edges: seq<Edge>)
    requires EdgesInRange(edges, n)
    ensures WellFormed(Linked(n, edges), n) && Symmetric(Linked(n, edges))
  {
    if edges != [] {
      var e := edges[|edges| - 1];
      LinkedValid(n, edges[..|edges| - 1]);
      LinkWellFormed(Linked(n, edges[..|edges| - 1]), n, e.n1, e.n2);
      LinkSymmetric(Linked(n, edges[..|edges| - 1]), e.n1, e.n2);
    }
  }

  /** `v` can be reached from `root` in exactly `k` steps along the lists. */
  ghost predicate ReachableIn(d: seq<seq<int>>, root: int, v: int, k: nat)
    decreases k
  {
    if k == 0 then v == root
    else exists u :: 0 <= u < |d| && v in d[u] && ReachableIn(d, root, u, k - 1)
  }

  ghost predicate Reachable(d: seq<seq<int>>, root: int, v: int)
  {
    exists k: nat :: ReachableIn(d, root, v, k)
  }

  /** One more step along a list entry. */
  lemma ReachableStep(d: seq<seq<int>>, root: int, u: int, v: int, k: nat)
    requires 0 <= u < |d| && v in d[u] && ReachableIn(d, root, u, k)
    ensures ReachableIn(d, root, v, k + 1)
  {
  }

  /** What linking `e` appends to `a`'s list: the other endpoint, twice over for a self-loop at `a`. */
  function Contribution(e: Edge, a: int): seq<int>
  {
    (if a == e.n1 then [e.n2] else []) + (if a == e.n2 then [e.n1] else [])
  }

  /** Node `a`'s neighbours, edge by edge in list order: what its list should hold. */
  function Neighbours(edges: seq<Edge>, a: int): seq<int>
  {
    if edges == [] then [] else Contribution(edges[0], a) + Neighbours(edges[1..], a)
  }

  lemma {:induction false} NeighboursAppend(edges: seq<Edge>, e: Edge, a: int)
    ensures Neighbours(edges + [e], a) == Neighbours(edges, a) + Contribution(e, a)
  {
    var t := edges + [e];
    if edges == [] {
      assert t[1..] == [];
    } else {
      var c, rest := Contribution(edges[0], a), edges[1..];
      assert t[0] == edges[0] && t[1..] == rest + [e];
      NeighboursAppend(rest, e, a);
      assert Neighbours(t, a) == c + (Neighbours(rest, a) + Contribution(e, a));
      assert c + (Neighbours(rest, a) + Contribution(e, a)) == (c + Neighbours(rest, a)) + Contribution(e, a);
    }
  }

  /** Each node's list holds exactly its neighbours, in the order the edges list them. */
  lemma {:induction false} LinkedAt(n: nat, edges: seq<Edge>, a: int)
    requires EdgesInRange(edges, n) && 0 <= a < n
    ensures Linked(n, edges)[a] == Neighbours(edges, a)
  {
    if edges != [] {
      var init, e := edges[..|edges| - 1], edges[|edges| - 1];
      LinkedAt(n, init, a);
      LinkAt(Linked(n, init), e.n1, e.n2, a);
      NeighboursAppend(init, e, a);
      assert init + [e] == edges;
    }
  }

  /** Linking one more edge on top of the lists built so far. */
  lemma LinkedAppend(n: nat, edges: seq<Edge>, e: Edge)
    requires EdgesInRange(edges, n) && EdgeInRange(e, n)
    ensures EdgesInRange(edges + [e], n)
    ensures Linked(n, edges + [e]) == Link(Linked(n, edges), e.n1, e.n2)
  {
    assert (edges + [e])[..|edges|] == edges;
  }

  /** The seven edges every `__main__` block of the list and matrix graphs starts from. */
  function DemoEdges(): seq<Edge>
  {
    [Edge(0, 1), Edge(0, 4), Edge(1, 4), Edge(1, 3), Edge(1, 2), Edge(3, 2), Edge(4, 3)]
  }

  // The neighbours of each node in the demo edges, one node per lemma.

  lemma DemoNeighbours0()
    ensures Neighbours(DemoEdges(), 0) == [1, 4]
  {
  }

  lemma DemoNeighbours1()
    ensures Neighbours(DemoEdges(), 1) == [0, 4, 3, 2]
  {
  }

  lemma DemoNeighbours2()
    ensures Neighbours(DemoEdges(), 2) == [1, 3]
  {
  }

  lemma DemoNeighbours3()
    ensures Neighbours(DemoEdges(), 3) == [1, 2, 4]
  {
  }

  lemma DemoNeighbours4()
    ensures Neighbours(DemoEdges(), 4) == [0, 1, 3]
  {
  }

  /** The neighbours of every node in the demo edges. */
  lemma DemoNeighbours()
    ensures Neighbours(DemoEdges(), 0) == [1, 4]
    ensures Neighbours(DemoEdges(), 1) == [0, 4, 3, 2]
    ensures Neighbours(DemoEdges(), 2) == [1, 3]
    ensures Neighbours(DemoEdges(), 3) == [1, 2, 4]
    ensures Neighbours(DemoEdges(), 4) == [0, 1, 3]
  {
    DemoNeighbours0();
    DemoNeighbours1();
    DemoNeighbours2();
    DemoNeighbours3();
    DemoNeighbours4();
  }

  /** The lists `Graph(5, DemoEdges())` builds: each node's neighbours in edge order. */
  lemma DemoLinked()
    ensures EdgesInRange(DemoEdges(), 5)
    ensures Linked(5, DemoEdges()) == [[1, 4], [0, 4, 3, 2], [1, 3], [1, 2, 4], [0, 1, 3]]
  {
    var edges := DemoEdges();
    assert EdgesInRange(edges, 5);
    LinkedAt(5, edges, 0);
    LinkedAt(5, edges, 1);
    LinkedAt(5, edges, 2);
    LinkedAt(5, edges, 3);
    LinkedAt(5, edges, 4);
    DemoNeighbours();
    Five(Linked(5, edges), [1, 4], [0, 4, 3, 2], [1, 3], [1, 2, 4], [0, 1, 3]);
  }
}
