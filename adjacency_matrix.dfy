// adjacency_matrix.py: an undirected graph stored as an N x N matrix of
// 0/1 entries. `add_edge` writes 1 into both mirrored cells and
// `remove_edge` writes 0 into both.
module AdjacencyMatrix {
  import opened Matrices
  import opened Common
  import opened UndirectedLists

  /** The class invariant of the source: a symmetric matrix of zeros and ones. */
  ghost predicate SymmetricBinary(m: seq<seq<int>>)
  {
    && Square(m, |m|)
    && forall i, j :: 0 <= i < |m| && 0 <= j < |m| ==> m[i][j] == m[j][i] && (m[i][j] == 0 || m[i][j] == 1)
  }

  /** The two assignments of `add_edge`. */
  function Connect(m: seq<seq<int>>, n1: int, n2: int): (r: seq<seq<int>>)
    requires Square(m, |m|) && 0 <= n1 < |m| && 0 <= n2 < |m|
    ensures Square(r, |m|)
  {
    Put(Put(m, n1, n2, 1), n2, n1, 1)
  }

  /** The two assignments of `remove_edge`. */
  function Disconnect(m: seq<seq<int>>, n1: int, n2: int): (r: seq<seq<int>>)
    requires Square(m, |m|) && 0 <= n1 < |m| && 0 <= n2 < |m|
    ensures Square(r, |m|)
  {
    Put(Put(m, n1, n2, 0), n2, n1, 0)
  }

  /** The matrix `__init__` builds: zeros, then `add_edge` per edge in order. */
  function Built(n: nat, edges: seq<Edge>): (m: seq<seq<int>>)
    requires EdgesInRange(edges, n)
    ensures Square(m, n)
  {
    if edges == [] then Zeros(n)
    else
      var e := edges[|edges| - 1];
      Connect(Built(n, edges[..|edges| - 1]), e.n1, e.n2)
  }

  /** `(i, j)` is the cell `(n1, n2)` or its mirror. */
  predicate Mirrors(i: int, j: int, n1: int, n2: int)
  {
    (i == n1 && j == n2) || (i == n2 && j == n1)
  }

  /** `add_edge` sets the edge's two cells to 1 and leaves every other cell alone. */
  lemma ConnectAt(m: seq<seq<int>>, n1: int, n2: int, i: int, j: int)
    requires Square(m, |m|) && 0 <= n1 < |m| && 0 <= n2 < |m| && 0 <= i < |m| && 0 <= j < |m|
    ensures Connect(m, n1, n2)[i][j] == if Mirrors(i, j, n1, n2) then 1 else m[i][j]
  {
  }

  /** `remove_edge` sets the edge's two cells to 0 and leaves every other cell alone. */
  lemma DisconnectAt(m: seq<seq<int>>, n1: int, n2: int, i: int, j: int)
    requires Square(m, |m|) && 0 <= n1 < |m| && 0 <= n2 < |m| && 0 <= i < |m| && 0 <= j < |m|
    ensures Disconnect(m, n1, n2)[i][j] == if Mirrors(i, j, n1, n2) then 0 else m[i][j]
  {
  }

  lemma ConnectKeepsInvariant(m: seq<seq<int>>, n1: int, n2: int)
    requires SymmetricBinary(m) && 0 <= n1 < |m| && 0 <= n2 < |m|
    ensures SymmetricBinary(Connect(m, n1, n2))
  {
    forall i, j | 0 <= i < |m| && 0 <= j < |m|
      ensures Connect(m, n1, n2)[i][j] == Connect(m, n1, n2)[j][i]
      ensures Connect(m, n1, n2)[i][j] in {0, 1}
    {
      ConnectAt(m, n1, n2, i, j);
      ConnectAt(m, n1, n2, j, i);
    }
  }

  lemma DisconnectKeepsInvariant(m: seq<seq<int>>, n1: int, n2: int)
    requires SymmetricBinary(m) && 0 <= n1 < |m| && 0 <= n2 < |m|
    ensures SymmetricBinary(Disconnect(m, n1, n2))
  {
    forall i, j | 0 <= i < |m| && 0 <= j < |m|
      ensures Disconnect(m, n1, n2)[i][j] == Disconnect(m, n1, n2)[j][i]
      ensures Disconnect(m, n1, n2)[i][j] in {0, 1}
    {
      DisconnectAt(m, n1, n2, i, j);
      DisconnectAt(m, n1, n2, j, i);
    }
  }

  /** Adding an edge twice is the same as adding it once. */
  lemma ConnectIdempotent(m: seq<seq<int>>, n1: int, n2: int)
    requires Square(m, |m|) && 0 <= n1 < |m| && 0 <= n2 < |m|
    ensures Connect(Connect(m, n1, n2), n1, n2) == Connect(m, n1, n2)
  {
    var once := Connect(m, n1, n2);
    forall i, j | 0 <= i < |m| && 0 <= j < |m|
      ensures Connect(once, n1, n2)[i][j] == once[i][j]
    {
      ConnectAt(m, n1, n2, i, j);
      ConnectAt(once, n1, n2, i, j);
    }
    CellsEqual(Connect(once, n1, n2), once);
  }

  /** Removing an edge twice is the same as removing it once. */
  lemma DisconnectIdempotent(m: seq<seq<int>>, n1: int, n2: int)
    requires Square(m, |m|) && 0 <= n1 < |m| && 0 <= n2 < |m|
    ensures Disconnect(Disconnect(m, n1, n2), n1, n2) == Disconnect(m, n1, n2)
  {
    var once := Disconnect(m, n1, n2);
    forall i, j | 0 <= i < |m| && 0 <= j < |m|
      ensures Disconnect(once, n1, n2)[i][j] == once[i][j]
    {
      DisconnectAt(m, n1, n2, i, j);
      DisconnectAt(once, n1, n2, i, j);
    }
    CellsEqual(Disconnect(once, n1, n2), once);
  }

  /** Remove after add leaves both cells 0 whatever they held before. */
  lemma DisconnectAfterConnect(m: seq<seq<int>>, n1: int, n2: int)
    requires Square(m, |m|) && 0 <= n1 < |m| && 0 <= n2 < |m|
    ensures Disconnect(Connect(m, n1, n2), n1, n2) == Disconnect(m, n1, n2)
  {
    var c := Connect(m, n1, n2);
    forall i, j | 0 <= i < |m| && 0 <= j < |m|
      ensures Disconnect(c, n1, n2)[i][j] == Disconnect(m, n1, n2)[i][j]
    {
      ConnectAt(m, n1, n2, i, j);
      DisconnectAt(c, n1, n2, i, j);
      DisconnectAt(m, n1, n2, i, j);
    }
    CellsEqual(Disconnect(c, n1, n2), Disconnect(m, n1, n2));
  }

  /** Removing an absent edge changes nothing. */
  lemma DisconnectAbsent(m: seq<seq<int>>, n1: int, n2: int)
    requires Square(m, |m|) && 0 <= n1 < |m| && 0 <= n2 < |m| && m[n1][n2] == 0 && m[n2][n1] == 0
    ensures Disconnect(m, n1, n2) == m
  {
    forall i, j | 0 <= i < |m| && 0 <= j < |m|
      ensures Disconnect(m, n1, n2)[i][j] == m[i][j]
    {
      DisconnectAt(m, n1, n2, i, j);
    }
    CellsEqual(Disconnect(m, n1, n2), m);
  }

  /** Adding an absent edge and removing it again restores the matrix. */
  lemma ConnectThenDisconnect(m: seq<seq<int>>, n1: int, n2: int)
    requires Square(m, |m|) && 0 <= n1 < |m| && 0 <= n2 < |m| && m[n1][n2] == 0 && m[n2][n1] == 0
    ensures Disconnect(Connect(m, n1, n2), n1, n2) == m
  {
    DisconnectAfterConnect(m, n1, n2);
    DisconnectAbsent(m, n1, n2);
  }

  /** Some edge of the list joins `i` and `j`, in either orientation. */
  ghost predicate Listed(edges: seq<Edge>, i: int, j: int)
  {
    exists k :: 0 <= k < |edges| && Mirrors(i, j, edges[k].n1, edges[k].n2)
  }

  /**
   * The constructed matrix is symmetric and binary, and a cell is 1 exactly
   * when some listed edge joins its row and column.
   */
  lemma {:induction false} BuiltMeansListed(n: nat, edges: seq<Edge>)
    requires EdgesInRange(edges, n)
    ensures SymmetricBinary(Built(n, edges))
    ensures forall i, j :: 0 <= i < n && 0 <= j < n ==> (Built(n, edges)[i][j] == 1 <==> Listed(edges, i, j))
  {
    if edges != [] {
      var init, e := edges[..|edges| - 1], edges[|edges| - 1];
      var prior := Built(n, init);
      BuiltMeansListed(n, init);
      ConnectKeepsInvariant(prior, e.n1, e.n2);
      forall i, j | 0 <= i < n && 0 <= j < n
        ensures Built(n, edges)[i][j] == 1 <==> Listed(edges, i, j)
      {
        ConnectAt(prior, e.n1, e.n2, i, j);
        if Listed(init, i, j) {
          var k :| 0 <= k < |init| && Mirrors(i, j, init[k].n1, init[k].n2);
          assert edges[k] == init[k];
        }
        if Listed(edges, i, j) && !Mirrors(i, j, e.n1, e.n2) {
          var k :| 0 <= k < |edges| && Mirrors(i, j, edges[k].n1, edges[k].n2);
          assert k < |init| && init[k] == edges[k];
        }
        if Mirrors(i, j, e.n1, e.n2) {
          assert Mirrors(i, j, edges[|edges| - 1].n1, edges[|edges| - 1].n2);
        }
      }
    } else {
      assert forall i, j :: !Listed(edges, i, j);
    }
  }

  /** Some edge of the list joins `i` and `j`, found by scanning the list from its front. */
  predicate Adjacent(edges: seq<Edge>, i: int, j: int)
  {
    edges != [] && (Mirrors(i, j, edges[0].n1, edges[0].n2) || Adjacent(edges[1..], i, j))
  }

  lemma {:induction false} AdjacentAppend(edges: seq<Edge>, e: Edge, i: int, j: int)
    ensures Adjacent(edges + [e], i, j) == (Adjacent(edges, i, j) || Mirrors(i, j, e.n1, e.n2))
  {
    var t := edges + [e];
    if edges == [] {
      assert t[1..] == [];
    } else {
      assert t[0] == edges[0] && t[1..] == edges[1..] + [e];
      AdjacentAppend(edges[1..], e, i, j);
    }
  }

  /** Each cell of the constructed matrix is 1 exactly when some listed edge joins its row and column. */
  lemma {:induction false} BuiltAdjacent(n: nat, edges: seq<Edge>, i: int, j: int)
    requires EdgesInRange(edges, n) && 0 <= i < n && 0 <= j < n
    ensures Built(n, edges)[i][j] == if Adjacent(edges, i, j) then 1 else 0
  {
    if edges != [] {
      var init, e := edges[..|edges| - 1], edges[|edges| - 1];
      BuiltAdjacent(n, init, i, j);
      ConnectAt(Built(n, init), e.n1, e.n2, i, j);
      AdjacentAppend(init, e, i, j);
      assert init + [e] == edges;
    }
  }

  /**
   * One cell after the `__main__` session: the graph of five nodes and seven
   * edges, then `add_edge((0, 3))`, then `remove_edge((1, 0))`.
   */
  lemma DemoSessionAt(i: int, j: int)
    requires 0 <= i < 5 && 0 <= j < 5
    ensures EdgesInRange(DemoEdges(), 5)
    ensures Disconnect(Connect(Built(5, DemoEdges()), 0, 3), 1, 0)[i][j]
         == if Mirrors(i, j, 1, 0) then 0 else if Mirrors(i, j, 0, 3) || Adjacent(DemoEdges(), i, j) then 1 else 0
  {
    assert EdgesInRange(DemoEdges(), 5);
    var m := Built(5, DemoEdges());
    BuiltAdjacent(5, DemoEdges(), i, j);
    ConnectAt(m, 0, 3, i, j);
    DisconnectAt(Connect(m, 0, 3), 1, 0, i, j);
  }

  lemma DemoSessionRow0()
    ensures EdgesInRange(DemoEdges(), 5)
    ensures Disconnect(Connect(Built(5, DemoEdges()), 0, 3), 1, 0)[0] == [0, 0, 0, 1, 1]
  {
    DemoSessionAt(0, 0);
    DemoSessionAt(0, 1);
    DemoSessionAt(0, 2);
    DemoSessionAt(0, 3);
    DemoSessionAt(0, 4);
    Five(Disconnect(Connect(Built(5, DemoEdges()), 0, 3), 1, 0)[0], 0, 0, 0, 1, 1);
  }

  lemma DemoSessionRow1()
    ensures EdgesInRange(DemoEdges(), 5)
    ensures Disconnect(Connect(Built(5, DemoEdges()), 0, 3), 1, 0)[1] == [0, 0, 1, 1, 1]
  {
    DemoSessionAt(1, 0);
    DemoSessionAt(1, 1);
    DemoSessionAt(1, 2);
    DemoSessionAt(1, 3);
    DemoSessionAt(1, 4);
    Five(Disconnect(Connect(Built(5, DemoEdges()), 0, 3), 1, 0)[1], 0, 0, 1, 1, 1);
  }

  lemma DemoSessionRow2()
    ensures EdgesInRange(DemoEdges(), 5)
    ensures Disconnect(Connect(Built(5, DemoEdges()), 0, 3), 1, 0)[2] == [0, 1, 0, 1, 0]
  {
    DemoSessionAt(2, 0);
    DemoSessionAt(2, 1);
    DemoSessionAt(2, 2);
    DemoSessionAt(2, 3);
    DemoSessionAt(2, 4);
    Five(Disconnect(Connect(Built(5, DemoEdges()), 0, 3), 1, 0)[2], 0, 1, 0, 1, 0);
  }

  lemma DemoSessionRow3()
    ensures EdgesInRange(DemoEdges(), 5)
    ensures Disconnect(Connect(Built(5, DemoEdges()), 0, 3), 1, 0)[3] == [1, 1, 1, 0, 1]
  {
    DemoSessionAt(3, 0);
    DemoSessionAt(3, 1);
    DemoSessionAt(3, 2);
    DemoSessionAt(3, 3);
    DemoSessionAt(3, 4);
    Five(Disconnect(Connect(Built(5, DemoEdges()), 0, 3), 1, 0)[3], 1, 1, 1, 0, 1);
  }

  lemma DemoSessionRow4()
    ensures EdgesInRange(DemoEdges(), 5)
    ensures Disconnect(Connect(Built(5, DemoEdges()), 0, 3), 1, 0)[4] == [1, 1, 0, 1, 0]
  {
    DemoSessionAt(4, 0);
    DemoSessionAt(4, 1);
    DemoSessionAt(4, 2);
    DemoSessionAt(4, 3);
    DemoSessionAt(4, 4);
    Five(Disconnect(Connect(Built(5, DemoEdges()), 0, 3), 1, 0)[4], 1, 1, 0, 1, 0);
  }

  /** The matrix the `__main__` session prints. */
  lemma DemoSession()
    ensures EdgesInRange(DemoEdges(), 5)
    ensures Disconnect(Connect(Built(5, DemoEdges()), 0, 3), 1, 0)
         == [[0, 0, 0, 1, 1], [0, 0, 1, 1, 1], [0, 1, 0, 1, 0], [1, 1, 1, 0, 1], [1, 1, 0, 1, 0]]
  {
    DemoSessionRow0();
    DemoSessionRow1();
    DemoSessionRow2();
    DemoSessionRow3();
    DemoSessionRow4();
    Five(Disconnect(Connect(Built(5, DemoEdges()), 0, 3), 1, 0),
      [0, 0, 0, 1, 1], [0, 0, 1, 1, 1], [0, 1, 0, 1, 0], [1, 1, 1, 0, 1], [1, 1, 0, 1, 0]);
  }

  class Graph {
    const numberOfNodes: nat
    var adjacencyMatrix: seq<seq<int>>

    ghost predicate Valid()
      reads this
    {
      Square(adjacencyMatrix, numberOfNodes)
    }

    /** `Graph(number_of_nodes, edges)`: a zero matrix, then `add_edge` per edge in order. */
    constructor (numberOfNodes: nat, edges: seq<Edge>)
      requires EdgesInRange(edges, numberOfNodes)
      ensures Valid() && this.numberOfNodes == numberOfNodes
      ensures adjacencyMatrix == Built(numberOfNodes, edges)
      ensures SymmetricBinary(adjacencyMatrix)
    {
      this.numberOfNodes := numberOfNodes;
      adjacencyMatrix := Zeros(numberOfNodes);
      new;
      var k := 0;
      while k < |edges|
        invariant 0 <= k <= |edges|
        invariant Valid() && adjacencyMatrix == Built(numberOfNodes, edges[..k])
      {
        assert edges[..k + 1][..k] == edges[..k];
        AddEdge(edges[k]);
        k := k + 1;
      }
      assert edges[..k] == edges;
      BuiltMeansListed(numberOfNodes, edges);
    }

    /** `add_edge((n1, n2))`: `m[n1][n2] = 1`, then `m[n2][n1] = 1`. */
    method AddEdge(edge: Edge)
      requires Valid() && EdgeInRange(edge, numberOfNodes)
      modifies this
      ensures Valid()
      ensures adjacencyMatrix == Connect(old(adjacencyMatrix), edge.n1, edge.n2)
      ensures forall i, j :: 0 <= i < numberOfNodes && 0 <= j < numberOfNodes ==>
        adjacencyMatrix[i][j] == if Mirrors(i, j, edge.n1, edge.n2) then 1 else old(adjacencyMatrix)[i][j]
      ensures SymmetricBinary(old(adjacencyMatrix)) ==> SymmetricBinary(adjacencyMatrix)
    {
      ghost var m := adjacencyMatrix;
      var n1, n2 := edge.n1, edge.n2;
      adjacencyMatrix := adjacencyMatrix[n1 := adjacencyMatrix[n1][n2 := 1]];
      adjacencyMatrix := adjacencyMatrix[n2 := adjacencyMatrix[n2][n1 := 1]];
      forall i, j | 0 <= i < numberOfNodes && 0 <= j < numberOfNodes
        ensures adjacencyMatrix[i][j] == if Mirrors(i, j, n1, n2) then 1 else m[i][j]
      {
        ConnectAt(m, n1, n2, i, j);
      }
      if SymmetricBinary(m) {
        ConnectKeepsInvariant(m, n1, n2);
      }
    }

    /** `remove_edge((n1, n2))`: `m[n1][n2] = 0`, then `m[n2][n1] = 0`. */
    method RemoveEdge(edge: Edge)
      requires Valid() && EdgeInRange(edge, numberOfNodes)
      modifies this
      ensures Valid()
      ensures adjacencyMatrix == Disconnect(old(adjacencyMatrix), edge.n1, edge.n2)
      ensures forall i, j :: 0 <= i < numberOfNodes && 0 <= j < numberOfNodes ==>
        adjacencyMatrix[i][j] == if Mirrors(i, j, edge.n1, edge.n2) then 0 else old(adjacencyMatrix)[i][j]
      ensures SymmetricBinary(old(adjacencyMatrix)) ==> SymmetricBinary(adjacencyMatrix)
    {
      ghost var m := adjacencyMatrix;
      var n1, n2 := edge.n1, edge.n2;
      adjacencyMatrix := adjacencyMatrix[n1 := adjacencyMatrix[n1][n2 := 0]];
      adjacencyMatrix := adjacencyMatrix[n2 := adjacencyMatrix[n2][n1 := 0]];
      forall i, j | 0 <= i < numberOfNodes && 0 <= j < numberOfNodes
        ensures adjacencyMatrix[i][j] == if Mirrors(i, j, n1, n2) then 0 else m[i][j]
      {
        DisconnectAt(m, n1, n2, i, j);
      }
      if SymmetricBinary(m) {
        DisconnectKeepsInvariant(m, n1, n2);
      }
    }
  }
}
