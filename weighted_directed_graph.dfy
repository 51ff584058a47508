// weighted_directed_graph.py: adjacency lists in one of four modes. Weighted
// modes store `(node, weight)` pairs, unweighted modes bare node numbers;
// directed modes append only at the source node, undirected modes at both
// ends. An edge whose arity does not fit the mode fails to unpack.
module WeightedDirectedGraph {
  import opened Common

  /** Python's `tuple[int, int] | tuple[int, int, int]`. */
  datatype Edge = Pair(n1: int, n2: int) | Triple(n1: int, n2: int, weight: int)

  /** A list entry: a bare node number or a `(node, weight)` tuple. */
  datatype Entry = Plain(node: int) | Weighted(node: int, weight: int)

  predicate EdgeInRange(e: Edge, n: int)
  {
    0 <= e.n1 < n && 0 <= e.n2 < n
  }

  /** Unpacking succeeds: three values in a weighted mode, two otherwise. */
  predicate Unpacks(e: Edge, weighted: bool)
  {
    e.Triple? == weighted
  }

  /** Every edge names existing nodes and unpacks in the given mode. */
  predicate EdgesFit(edges: seq<Edge>, n: int, weighted: bool)
  {
    forall k :: 0 <= k < |edges| ==> EdgeInRange(edges[k], n) && Unpacks(edges[k], weighted)
  }

  /** `n` lists of entries that name nodes and have the mode's shape. */
  ghost predicate WellFormed(d: seq<seq<Entry>>, n: nat, weighted: bool)
  {
    && |d| == n
    && forall a, i :: 0 <= a < n && 0 <= i < |d[a]| ==>
         0 <= d[a][i].node < n && d[a][i].Weighted? == weighted
  }

  /** The entry stored for edge `e` on the way to node `b`. */
  function Toward(e: Edge, b: int): (x: Entry)
    ensures x.node == b && x.Weighted? == e.Triple?
  {
    match e
    case Pair(_, _) => Plain(b)
    case Triple(_, _, w) => Weighted(b, w)
  }

  /** The same entry pointing at node `b` instead. */
  function Retarget(x: Entry, b: int): (y: Entry)
    ensures y.node == b && y.Weighted? == x.Weighted?
  {
    x.(node := b)
  }

  function Count(s: seq<Entry>, x: Entry): nat
  {
    multiset(s)[x]
  }

  /**
   * Undirected storage: an entry toward `b` with a given weight occurs in
   * `a`'s list as often as the matching entry toward `a` occurs in `b`'s,
   * and self-loops contribute two entries.
   */
  ghost predicate Symmetric(d: seq<seq<Entry>>)
  {
    && (forall a, b, x :: 0 <= a < |d| && 0 <= b < |d| ==> Count(d[a], Retarget(x, b)) == Count(d[b], Retarget(x, a)))
    && (forall a, x :: 0 <= a < |d| ==> Count(d[a], Retarget(x, a)) % 2 == 0)
  }

  /** The appends of `add_edge` once the edge has unpacked. */
  function Add(d: seq<seq<Entry>>, e: Edge, directed: bool): (r: seq<seq<Entry>>)
    requires EdgeInRange(e, |d|)
    ensures |r| == |d|
  {
    var d1 := d[e.n1 := d[e.n1] + [Toward(e, e.n2)]];
    if directed then d1 else d1[e.n2 := d1[e.n2] + [Toward(e, e.n1)]]
  }

  /** `add_edge`: `None` stands for the ValueError of a failed unpack. */
  function AddEdgeResult(d: seq<seq<Entry>>, e: Edge, weighted: bool, directed: bool): (r: Option<seq<seq<Entry>>>)
    requires Unpacks(e, weighted) ==> EdgeInRange(e, |d|)
    ensures r.None? <==> !Unpacks(e, weighted)
    ensures r.Some? ==> |r.value| == |d|
  {
    if Unpacks(e, weighted) then Some(Add(d, e, directed)) else None
  }

  /** The lists `__init__` builds: empty lists, then `add_edge` per edge in order. */
  function Built(n: nat, edges: seq<Edge>, weighted: bool, directed: bool): (r: seq<seq<Entry>>)
    requires EdgesFit(edges, n, weighted)
    ensures |r| == n
  {
    if edges == [] then Empty(n)
    else
      var e := edges[|edges| - 1];
      Add(Built(n, edges[..|edges| - 1], weighted, directed), e, directed)
  }

  /** The entries one edge contributes to node `a`'s list: at the source end and, undirected, at the far end. */
  function EntriesAt(e: Edge, a: int, directed: bool): seq<Entry>
  {
    (if e.n1 == a then [Toward(e, e.n2)] else []) + (if !directed && e.n2 == a then [Toward(e, e.n1)] else [])
  }

  /**
   * Reference definition, node by node: the entries of node `a`'s list, one
   * per edge in list order.
   */
  function Incident(edges: seq<Edge>, a: int, directed: bool): seq<Entry>
  {
    if edges == [] then [] else EntriesAt(edges[0], a, directed) + Incident(edges[1..], a, directed)
  }

  /** A later edge's entries come after those of every earlier edge. */
  lemma {:induction false} IncidentAppend(edges: seq<Edge>, e: Edge, a: int, directed: bool)
    ensures Incident(edges + [e], a, directed) == Incident(edges, a, directed) + EntriesAt(e, a, directed)
  {
    var t := edges + [e];
    if edges == [] {
      assert t[1..] == [];
    } else {
      var c, rest := EntriesAt(edges[0], a, directed), edges[1..];
      assert t[0] == edges[0] && t[1..] == rest + [e];
      IncidentAppend(rest, e, a, directed);
      assert Incident(t, a, directed) == c + (Incident(rest, a, directed) + EntriesAt(e, a, directed));
      assert c + (Incident(rest, a, directed) + EntriesAt(e, a, directed))
          == (c + Incident(rest, a, directed)) + EntriesAt(e, a, directed);
    }
  }

  /** The `n` empty lists `__init__` starts from. */
  function Empty(n: nat): (d: seq<seq<Entry>>)
    ensures |d| == n && forall a :: 0 <= a < n ==> d[a] == []
  {
    seq(n, _ => [])
  }

  /** Number of entries over all lists. */
  function Total(d: seq<seq<Entry>>): nat
  {
    if d == [] then 0 else Total(d[..|d| - 1]) + |d[|d| - 1]|
  }

  /** Each list gets the edge's entries at its end; nothing else changes. */
  lemma AddAt(d: seq<seq<Entry>>, e: Edge, directed: bool, a: int)
    requires EdgeInRange(e, |d|) && 0 <= a < |d|
    ensures Add(d, e, directed)[a]
         == d[a] + (if a == e.n1 then [Toward(e, e.n2)] else [])
                 + (if !directed && a == e.n2 then [Toward(e, e.n1)] else [])
  {
  }

  /** An edge that fails to unpack leaves no trace; one that unpacks is added. */
  lemma AddEdgeRaises(d: seq<seq<Entry>>, e: Edge, weighted: bool, directed: bool)
    requires Unpacks(e, weighted) ==> EdgeInRange(e, |d|)
    ensures AddEdgeResult(d, e, weighted, directed).None? <==> e.Triple? != weighted
    ensures AddEdgeResult(d, e, weighted, directed).Some? ==> forall a :: 0 <= a < |d| ==> d[a] <= AddEdgeResult(d, e, weighted, directed).value[a]
  {
    if Unpacks(e, weighted) {
      forall a | 0 <= a < |d|
        ensures d[a] <= Add(d, e, directed)[a]
      {
        AddAt(d, e, directed, a);
      }
    }
  }

  lemma AddWellFormed(d: seq<seq<Entry>>, n: nat, weighted: bool, e: Edge, directed: bool)
    requires WellFormed(d, n, weighted) && EdgeInRange(e, n) && Unpacks(e, weighted)
    ensures WellFormed(Add(d, e, directed), n, weighted)
  {
    var r: seq<seq<Entry>> := Add(d, e, directed);
    forall a, i | 0 <= a < n && 0 <= i < |r[a]|
      ensures 0 <= r[a][i].node < n && r[a][i].Weighted? == weighted
    {
      AddAt(d, e, directed, a);
      if i >= |d[a]| {
        assert r[a][i] in [Toward(e, e.n2), Toward(e, e.n1)];
      } else {
        assert r[a][i] == d[a][i];
      }
    }
  }

  lemma AddCount(d: seq<seq<Entry>>, e: Edge, a: int, y: Entry)
    requires EdgeInRange(e, |d|) && 0 <= a < |d|
    ensures Count(Add(d, e, false)[a], y)
         == Count(d[a], y) + (if a == e.n1 && y == Toward(e, e.n2) then 1 else 0)
                           + (if a == e.n2 && y == Toward(e, e.n1) then 1 else 0)
  {
    AddAt(d, e, false, a);
  }

  /** An entry matches the edge's entry toward `c` only if it points at `c`. */
  lemma RetargetToward(x: Entry, e: Edge, b: int, c: int, a: int)
    ensures Retarget(x, b) == Toward(e, c) <==> b == c && Retarget(x, a) == Toward(e, a)
  {
  }

  /** Adding an undirected edge keeps the lists symmetric. */
  lemma AddSymmetric(d: seq<seq<Entry>>, e: Edge)
    requires Symmetric(d) && EdgeInRange(e, |d|)
    ensures Symmetric(Add(d, e, false))
  {
    var r := Add(d, e, false);
    forall a, b, x | 0 <= a < |d| && 0 <= b < |d|
      ensures Count(r[a], Retarget(x, b)) == Count(r[b], Retarget(x, a))
    {
      AddCount(d, e, a, Retarget(x, b));
      AddCount(d, e, b, Retarget(x, a));
      RetargetToward(x, e, b, e.n2, e.n1);
      RetargetToward(x, e, a, e.n1, e.n2);
      RetargetToward(x, e, b, e.n1, e.n2);
      RetargetToward(x, e, a, e.n2, e.n1);
    }
    forall a, x | 0 <= a < |d|
      ensures Count(r[a], Retarget(x, a)) % 2 == 0
    {
      AddCount(d, e, a, Retarget(x, a));
      RetargetToward(x, e, a, e.n2, e.n1);
      RetargetToward(x, e, a, e.n1, e.n2);
    }
  }

  /** A freshly built graph is well formed, and symmetric when undirected. */
  lemma {:induction false} BuiltValid(n: nat, edges: seq<Edge>, weighted: bool, directed: bool)
    requires EdgesFit(edges, n, weighted)
    ensures WellFormed(Built(n, edges, weighted, directed), n, weighted)
    ensures !directed ==> Symmetric(Built(n, edges, weighted, directed))
  {
    if edges != [] {
      var init, e := edges[..|edges| - 1], edges[|edges| - 1];
      BuiltValid(n, init, weighted, directed);
      AddWellFormed(Built(n, init, weighted, directed), n, weighted, e, directed);
      if !directed {
        AddSymmetric(Built(n, init, weighted, directed), e);
      }
    }
  }

  /** Building from one more edge of the list adds that edge to what was built before it. */
  lemma BuiltPrefix(n: nat, edges: seq<Edge>, weighted: bool, directed: bool, k: int)
    requires EdgesFit(edges, n, weighted) && 0 <= k < |edges|
    ensures EdgesFit(edges[..k], n, weighted) && EdgesFit(edges[..k + 1], n, weighted)
    ensures EdgeInRange(edges[k], n) && Unpacks(edges[k], weighted)
    ensures Built(n, edges[..k + 1], weighted, directed) == Add(Built(n, edges[..k], weighted, directed), edges[k], directed)
  {
    assert edges[..k + 1][..k] == edges[..k];
  }

  /** Each built list is exactly the node's incident entries in edge order. */
  lemma {:induction false} BuiltIsIncident(n: nat, edges: seq<Edge>, weighted: bool, directed: bool, a: int)
    requires EdgesFit(edges, n, weighted) && 0 <= a < n
    ensures Built(n, edges, weighted, directed)[a] == Incident(edges, a, directed)
  {
    if edges != [] {
      var init, e := edges[..|edges| - 1], edges[|edges| - 1];
      var prior := Built(n, init, weighted, directed);
      BuiltIsIncident(n, init, weighted, directed, a);
      AddAt(prior, e, directed, a);
      IncidentAppend(init, e, a, directed);
      assert init + [e] == edges;
      var x, y := (if a == e.n1 then [Toward(e, e.n2)] else []), (if !directed && a == e.n2 then [Toward(e, e.n1)] else []);
      assert prior[a] + x + y == prior[a] + (x + y);
    }
  }

  /** Replacing one list changes the total by the difference in length. */
  lemma {:induction false} TotalUpdate(d: seq<seq<Entry>>, i: int, s: seq<Entry>)
    requires 0 <= i < |d|
    ensures Total(d[i := s]) == Total(d) - |d[i]| + |s|
  {
    var last := |d| - 1;
    if i < last {
      assert d[i := s][..last] == d[..last][i := s];
      TotalUpdate(d[..last], i, s);
    } else {
      assert d[i := s][..last] == d[..last];
    }
  }

  /** `n` empty lists hold no entries. */
  lemma {:induction false} TotalEmpty(n: nat)
    ensures Total(Empty(n)) == 0
  {
    if n > 0 {
      assert Empty(n)[..n - 1] == Empty(n - 1);
      TotalEmpty(n - 1);
    }
  }

  /** One edge adds one entry when directed and two when undirected. */
  lemma AddTotal(d: seq<seq<Entry>>, e: Edge, directed: bool)
    requires EdgeInRange(e, |d|)
    ensures Total(Add(d, e, directed)) == Total(d) + (if directed then 1 else 2)
  {
    var d1 := d[e.n1 := d[e.n1] + [Toward(e, e.n2)]];
    TotalUpdate(d, e.n1, d[e.n1] + [Toward(e, e.n2)]);
    if !directed {
      TotalUpdate(d1, e.n2, d1[e.n2] + [Toward(e, e.n1)]);
    }
  }

  /** A built graph stores each edge once when directed and twice when undirected. */
  lemma {:induction false} BuiltTotal(n: nat, edges: seq<Edge>, weighted: bool, directed: bool)
    requires EdgesFit(edges, n, weighted)
    ensures Total(Built(n, edges, weighted, directed)) == |edges| * (if directed then 1 else 2)
  {
    if edges == [] {
      TotalEmpty(n);
    } else {
      var init, e := edges[..|edges| - 1], edges[|edges| - 1];
      BuiltTotal(n, init, weighted, directed);
      AddTotal(Built(n, init, weighted, directed), e, directed);
    }
  }

  // The graphs of the `__main__` block. Each node's list is computed from
  // `Incident` in a lemma of its own, then `BuiltIsIncident` ties the lists
  // to those `__init__` builds.

  function DemoPairs(): seq<Edge>
  {
    [Pair(0, 1), Pair(0, 4), Pair(1, 4), Pair(1, 3), Pair(1, 2), Pair(3, 2), Pair(4, 3)]
  }

  lemma DemoUndirectedNode0()
    ensures Incident(DemoPairs(), 0, false) == [Plain(1), Plain(4)]
  {
  }

  lemma DemoUndirectedNode1()
    ensures Incident(DemoPairs(), 1, false) == [Plain(0), Plain(4), Plain(3), Plain(2)]
  {
  }

  lemma DemoUndirectedNode2()
    ensures Incident(DemoPairs(), 2, false) == [Plain(1), Plain(3)]
  {
  }

  lemma DemoUndirectedNode3()
    ensures Incident(DemoPairs(), 3, false) == [Plain(1), Plain(2), Plain(4)]
  {
  }

  lemma DemoUndirectedNode4()
    ensures Incident(DemoPairs(), 4, false) == [Plain(0), Plain(1), Plain(3)]
  {
  }

  /** The lists of the `__main__` graph g1, unweighted and undirected. */
  lemma DemoUndirected()
    ensures EdgesFit(DemoPairs(), 5, false)
    ensures Built(5, DemoPairs(), false, false) == [[Plain(1), Plain(4)], [Plain(0), Plain(4), Plain(3), Plain(2)], [Plain(1), Plain(3)], [Plain(1), Plain(2), Plain(4)], [Plain(0), Plain(1), Plain(3)]]
  {
    assert EdgesFit(DemoPairs(), 5, false);
    BuiltIsIncident(5, DemoPairs(), false, false, 0);
    DemoUndirectedNode0();
    BuiltIsIncident(5, DemoPairs(), false, false, 1);
    DemoUndirectedNode1();
    BuiltIsIncident(5, DemoPairs(), false, false, 2);
    DemoUndirectedNode2();
    BuiltIsIncident(5, DemoPairs(), false, false, 3);
    DemoUndirectedNode3();
    BuiltIsIncident(5, DemoPairs(), false, false, 4);
    DemoUndirectedNode4();
    Five(Built(5, DemoPairs(), false, false), [Plain(1), Plain(4)], [Plain(0), Plain(4), Plain(3), Plain(2)], [Plain(1), Plain(3)], [Plain(1), Plain(2), Plain(4)], [Plain(0), Plain(1), Plain(3)]);
  }

  function DemoArcs(): seq<Edge>
  {
    [Pair(0, 1), Pair(1, 2), Pair(2, 4), Pair(4, 2), Pair(3, 0), Pair(2, 3)]
  }

  lemma DemoDirectedNode0()
    ensures Incident(DemoArcs(), 0, true) == [Plain(1)]
  {
  }

  lemma DemoDirectedNode1()
    ensures Incident(DemoArcs(), 1, true) == [Plain(2)]
  {
  }

  lemma DemoDirectedNode2()
    ensures Incident(DemoArcs(), 2, true) == [Plain(4), Plain(3)]
  {
  }

  lemma DemoDirectedNode3()
    ensures Incident(DemoArcs(), 3, true) == [Plain(0)]
  {
  }

  lemma DemoDirectedNode4()
    ensures Incident(DemoArcs(), 4, true) == [Plain(2)]
  {
  }

  /** The lists of the `__main__` graph g2, unweighted and directed. */
  lemma DemoDirected()
    ensures EdgesFit(DemoArcs(), 5, false)
    ensures Built(5, DemoArcs(), false, true) == [[Plain(1)], [Plain(2)], [Plain(4), Plain(3)], [Plain(0)], [Plain(2)]]
  {
    assert EdgesFit(DemoArcs(), 5, false);
    BuiltIsIncident(5, DemoArcs(), false, true, 0);
    DemoDirectedNode0();
    BuiltIsIncident(5, DemoArcs(), false, true, 1);
    DemoDirectedNode1();
    BuiltIsIncident(5, DemoArcs(), false, true, 2);
    DemoDirectedNode2();
    BuiltIsIncident(5, DemoArcs(), false, true, 3);
    DemoDirectedNode3();
    BuiltIsIncident(5, DemoArcs(), false, true, 4);
    DemoDirectedNode4();
    Five(Built(5, DemoArcs(), false, true), [Plain(1)], [Plain(2)], [Plain(4), Plain(3)], [Plain(0)], [Plain(2)]);
  }

  function DemoTriples(): seq<Edge>
  {
    [Triple(0, 1, 4), Triple(0, 2, 2), Triple(1, 2, 5), Triple(1, 3, 10), Triple(2, 4, 3), Triple(4, 3, 4), Triple(3, 5, 11)]
  }

  lemma DemoWeightedNode0()
    ensures Incident(DemoTriples(), 0, false) == [Weighted(1, 4), Weighted(2, 2)]
  {
  }

  lemma DemoWeightedNode1()
    ensures Incident(DemoTriples(), 1, false) == [Weighted(0, 4), Weighted(2, 5), Weighted(3, 10)]
  {
  }

  lemma DemoWeightedNode2()
    ensures Incident(DemoTriples(), 2, false) == [Weighted(0, 2), Weighted(1, 5), Weighted(4, 3)]
  {
  }

  lemma DemoWeightedNode3()
    ensures Incident(DemoTriples(), 3, false) == [Weighted(1, 10), Weighted(4, 4), Weighted(5, 11)]
  {
  }

  lemma DemoWeightedNode4()
    ensures Incident(DemoTriples(), 4, false) == [Weighted(2, 3), Weighted(3, 4)]
  {
  }

  lemma DemoWeightedNode5()
    ensures Incident(DemoTriples(), 5, false) == [Weighted(3, 11)]
  {
  }

  /** The lists of the `__main__` graph g3, weighted and undirected. */
  lemma DemoWeighted()
    ensures EdgesFit(DemoTriples(), 6, true)
    ensures Built(6, DemoTriples(), true, false) == [[Weighted(1, 4), Weighted(2, 2)], [Weighted(0, 4), Weighted(2, 5), Weighted(3, 10)], [Weighted(0, 2), Weighted(1, 5), Weighted(4, 3)], [Weighted(1, 10), Weighted(4, 4), Weighted(5, 11)], [Weighted(2, 3), Weighted(3, 4)], [Weighted(3, 11)]]
  {
    assert EdgesFit(DemoTriples(), 6, true);
    BuiltIsIncident(6, DemoTriples(), true, false, 0);
    DemoWeightedNode0();
    BuiltIsIncident(6, DemoTriples(), true, false, 1);
    DemoWeightedNode1();
    BuiltIsIncident(6, DemoTriples(), true, false, 2);
    DemoWeightedNode2();
    BuiltIsIncident(6, DemoTriples(), true, false, 3);
    DemoWeightedNode3();
    BuiltIsIncident(6, DemoTriples(), true, false, 4);
    DemoWeightedNode4();
    BuiltIsIncident(6, DemoTriples(), true, false, 5);
    DemoWeightedNode5();
    Six(Built(6, DemoTriples(), true, false), [Weighted(1, 4), Weighted(2, 2)], [Weighted(0, 4), Weighted(2, 5), Weighted(3, 10)], [Weighted(0, 2), Weighted(1, 5), Weighted(4, 3)], [Weighted(1, 10), Weighted(4, 4), Weighted(5, 11)], [Weighted(2, 3), Weighted(3, 4)], [Weighted(3, 11)]);
  }

  lemma DemoWeightedDirectedNode0()
    ensures Incident(DemoTriples(), 0, true) == [Weighted(1, 4), Weighted(2, 2)]
  {
  }

  lemma DemoWeightedDirectedNode1()
    ensures Incident(DemoTriples(), 1, true) == [Weighted(2, 5), Weighted(3, 10)]
  {
  }

  lemma DemoWeightedDirectedNode2()
    ensures Incident(DemoTriples(), 2, true) == [Weighted(4, 3)]
  {
  }

  lemma DemoWeightedDirectedNode3()
    ensures Incident(DemoTriples(), 3, true) == [Weighted(5, 11)]
  {
  }

  lemma DemoWeightedDirectedNode4()
    ensures Incident(DemoTriples(), 4, true) == [Weighted(3, 4)]
  {
  }

  lemma DemoWeightedDirectedNode5()
    ensures Incident(DemoTriples(), 5, true) == []
  {
  }

  /** The lists of the `__main__` graph g4, weighted and directed. */
  lemma DemoWeightedDirected()
    ensures EdgesFit(DemoTriples(), 6, true)
    ensures Built(6, DemoTriples(), true, true) == [[Weighted(1, 4), Weighted(2, 2)], [Weighted(2, 5), Weighted(3, 10)], [Weighted(4, 3)], [Weighted(5, 11)], [Weighted(3, 4)], []]
  {
    assert EdgesFit(DemoTriples(), 6, true);
    BuiltIsIncident(6, DemoTriples(), true, true, 0);
    DemoWeightedDirectedNode0();
    BuiltIsIncident(6, DemoTriples(), true, true, 1);
    DemoWeightedDirectedNode1();
    BuiltIsIncident(6, DemoTriples(), true, true, 2);
    DemoWeightedDirectedNode2();
    BuiltIsIncident(6, DemoTriples(), true, true, 3);
    DemoWeightedDirectedNode3();
    BuiltIsIncident(6, DemoTriples(), true, true, 4);
    DemoWeightedDirectedNode4();
    BuiltIsIncident(6, DemoTriples(), true, true, 5);
    DemoWeightedDirectedNode5();
    Six(Built(6, DemoTriples(), true, true), [Weighted(1, 4), Weighted(2, 2)], [Weighted(2, 5), Weighted(3, 10)], [Weighted(4, 3)], [Weighted(5, 11)], [Weighted(3, 4)], []);
  }

  class Graph {
    const numberOfNodes: nat
    const weighted: bool
    const directed: bool
    var data: seq<seq<Entry>>

    ghost predicate Valid()
      reads this
    {
      WellFormed(data, numberOfNodes, weighted)
    }

    /** `Graph(number_of_nodes, edges, weighted=..., directed=...)`. */
    constructor (numberOfNodes: nat, edges: seq<Edge>, weighted: bool, directed: bool)
      requires EdgesFit(edges, numberOfNodes, weighted)
      ensures Valid()
      ensures this.numberOfNodes == numberOfNodes && this.weighted == weighted && this.directed == directed
      ensures data == Built(numberOfNodes, edges, weighted, directed)
      ensures !directed ==> Symmetric(data)
    {
      this.numberOfNodes := numberOfNodes;
      this.weighted := weighted;
      this.directed := directed;
      data := Empty(numberOfNodes);
      new;
      BuiltValid(numberOfNodes, [], weighted, directed);
      var k := 0;
      while k < |edges|
        invariant 0 <= k <= |edges|
        invariant data == Built(numberOfNodes, edges[..k], weighted, directed)
        invariant Valid()
      {
        BuiltPrefix(numberOfNodes, edges, weighted, directed, k);
        var raised := AddEdge(edges[k]);
        k := k + 1;
      }
      assert edges[..k] == edges;
      BuiltValid(numberOfNodes, edges, weighted, directed);
    }

    /**
     * `add_edge(edge)`: `raised` is the ValueError of unpacking an edge of
     * the wrong arity, which happens before any list is touched.
     */
    method AddEdge(edge: Edge) returns (raised: bool)
      requires Valid() && (Unpacks(edge, weighted) ==> EdgeInRange(edge, numberOfNodes))
      modifies this
      ensures Valid()
      ensures (if raised then None else Some(data)) == AddEdgeResult(old(data), edge, weighted, directed)
      ensures raised <==> !Unpacks(edge, weighted)
      ensures raised ==> data == old(data)
      ensures !raised ==> data == Add(old(data), edge, directed)
      ensures !directed && Symmetric(old(data)) ==> Symmetric(data)
    {
      if !Unpacks(edge, weighted) {
        return true;
      }
      AddWellFormed(data, numberOfNodes, weighted, edge, directed);
      if !directed && Symmetric(data) {
        AddSymmetric(data, edge);
      }
      var n1, n2 := edge.n1, edge.n2;
      if weighted && directed {
        data := data[n1 := data[n1] + [Weighted(n2, edge.weight)]];
      } else if weighted {
        data := data[n1 := data[n1] + [Weighted(n2, edge.weight)]];
        data := data[n2 := data[n2] + [Weighted(n1, edge.weight)]];
      } else if directed {
        data := data[n1 := data[n1] + [Plain(n2)]];
      } else {
        data := data[n1 := data[n1] + [Plain(n2)]];
        data := data[n2 := data[n2] + [Plain(n1)]];
      }
      raised := false;
    }
  }
}
