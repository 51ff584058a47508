// dijkstra_algo.py, the weight matrix: an N x N list of integer weights,
// zero meaning "no edge". `add_edge` writes the weight into the edge's cell
// and, for an undirected graph, into its mirror. `shortest_path` treats only
// entries greater than zero as edges; this module also holds the walks along
// such entries and their total weights.
module WeightMatrix {
  import opened Common
  import opened Matrices

  /** `(n1, n2, weight)`. */
  datatype Edge = Edge(n1: int, n2: int, weight: int)

  /** The range test of `add_edge`: both endpoints name one of the `n` nodes. */
  predicate EdgeInRange(e: Edge, n: int)
  {
    0 <= e.n1 < n && 0 <= e.n2 < n
  }

  predicate EdgesInRange(edges: seq<Edge>, n: int)
  {
    forall k :: 0 <= k < |edges| ==> EdgeInRange(edges[k], n)
  }

  /** `add_edge` writes cell `(a, b)`: the edge's own cell, or its mirror when undirected. */
  predicate Hits(e: Edge, a: int, b: int, directed: bool)
  {
    (a == e.n1 && b == e.n2) || (!directed && a == e.n2 && b == e.n1)
  }

  /** The assignments of `add_edge` for an edge in range. */
  function Assign(m: seq<seq<int>>, e: Edge, directed: bool): (r: seq<seq<int>>)
    requires Square(m, |m|) && EdgeInRange(e, |m|)
    ensures Square(r, |m|)
  {
    var r := Put(m, e.n1, e.n2, e.weight);
    if directed then r else Put(r, e.n2, e.n1, e.weight)
  }

  /** The matrix `__init__` builds: zeros, then `add_edge` per edge in list order. */
  function Built(n: nat, edges: seq<Edge>, directed: bool): (m: seq<seq<int>>)
    requires EdgesInRange(edges, n)
    ensures Square(m, n)
  {
    if edges == [] then Zeros(n)
    else Assign(Built(n, edges[..|edges| - 1], directed), edges[|edges| - 1], directed)
  }

  /** The weight of the last listed edge that writes cell `(a, b)`, or 0 if none does. */
  function LastWrite(edges: seq<Edge>, a: int, b: int, directed: bool): int
  {
    if edges == [] then 0
    else if Hits(edges[|edges| - 1], a, b, directed) then edges[|edges| - 1].weight
    else LastWrite(edges[..|edges| - 1], a, b, directed)
  }

  /** Appending an edge: it wins the cells it writes. */
  lemma LastWriteAppend(edges: seq<Edge>, e: Edge, a: int, b: int, directed: bool)
    ensures LastWrite(edges + [e], a, b, directed) == if Hits(e, a, b, directed) then e.weight else LastWrite(edges, a, b, directed)
  {
    assert (edges + [e])[..|edges|] == edges;
  }

  ghost predicate Symmetric(m: seq<seq<int>>)
  {
    Square(m, |m|) && forall a, b :: 0 <= a < |m| && 0 <= b < |m| ==> m[a][b] == m[b][a]
  }

  /** `add_edge` changes the cells it writes, to the edge's weight, and no other cell. */
  lemma AssignAt(m: seq<seq<int>>, e: Edge, directed: bool, a: int, b: int)
    requires Square(m, |m|) && EdgeInRange(e, |m|) && 0 <= a < |m| && 0 <= b < |m|
    ensures Assign(m, e, directed)[a][b] == if Hits(e, a, b, directed) then e.weight else m[a][b]
  {
  }

  /** On an undirected graph `add_edge` keeps the matrix symmetric. */
  lemma AssignSymmetric(m: seq<seq<int>>, e: Edge)
    requires Symmetric(m) && EdgeInRange(e, |m|)
    ensures Symmetric(Assign(m, e, false))
  {
    forall a, b | 0 <= a < |m| && 0 <= b < |m|
      ensures Assign(m, e, false)[a][b] == Assign(m, e, false)[b][a]
    {
      AssignAt(m, e, false, a, b);
      AssignAt(m, e, false, b, a);
    }
  }

  /** Construction is "last write wins": each cell holds the weight of the last edge that writes it. */
  lemma {:induction false} BuiltAt(n: nat, edges: seq<Edge>, directed: bool, a: int, b: int)
    requires EdgesInRange(edges, n) && 0 <= a < n && 0 <= b < n
    ensures Built(n, edges, directed)[a][b] == LastWrite(edges, a, b, directed)
  {
    if edges != [] {
      var init := edges[..|edges| - 1];
      BuiltAt(n, init, directed, a, b);
      AssignAt(Built(n, init, directed), edges[|edges| - 1], directed, a, b);
    }
  }

  /** Without direction, the last write to a cell is also the last write to its mirror. */
  lemma {:induction false} LastWriteMirror(edges: seq<Edge>, a: int, b: int)
    ensures LastWrite(edges, a, b, false) == LastWrite(edges, b, a, false)
  {
    if edges != [] {
      LastWriteMirror(edges[..|edges| - 1], a, b);
    }
  }

  /** An undirected graph is built symmetric. */
  lemma BuiltSymmetric(n: nat, edges: seq<Edge>)
    requires EdgesInRange(edges, n)
    ensures Symmetric(Built(n, edges, false))
  {
    forall a, b | 0 <= a < n && 0 <= b < n
      ensures Built(n, edges, false)[a][b] == Built(n, edges, false)[b][a]
    {
      BuiltAt(n, edges, false, a, b);
      BuiltAt(n, edges, false, b, a);
      LastWriteMirror(edges, a, b);
    }
  }

  /** `m[a][b] > 0`: the only entries `shortest_path` follows as edges. */
  predicate Step(m: seq<seq<int>>, a: int, b: int)
  {
    0 <= a < |m| && 0 <= b < |m[a]| && m[a][b] > 0
  }

  /** A walk of nodes joined by positive entries; nodes may repeat. */
  ghost predicate IsPath(m: seq<seq<int>>, p: seq<int>)
  {
    |p| > 0 && AllNodes(p, |m|) && forall i :: 0 <= i < |p| - 1 ==> Step(m, p[i], p[i + 1])
  }

  /** A walk from `s` to `t`. */
  ghost predicate Walk(m: seq<seq<int>>, s: int, p: seq<int>, t: int)
  {
    IsPath(m, p) && p[0] == s && p[|p| - 1] == t
  }

  ghost predicate Reachable(m: seq<seq<int>>, s: int, t: int)
  {
    exists p :: Walk(m, s, p, t)
  }

  /** The total weight of the entries a walk follows; each is at least 1. */
  function Weight(m: seq<seq<int>>, p: seq<int>): (w: int)
    requires IsPath(m, p)
    ensures w >= |p| - 1
    decreases |p|
  {
    if |p| == 1 then 0
    else
      var q := p[..|p| - 1];
      assert forall i :: 0 <= i < |q| ==> q[i] == p[i];
      Weight(m, q) + m[p[|p| - 2]][p[|p| - 1]]
  }

  /** Continuing a walk along one more positive entry adds that entry's weight. */
  lemma ExtendPath(m: seq<seq<int>>, p: seq<int>, v: int)
    requires IsPath(m, p) && Step(m, p[|p| - 1], v) && 0 <= v < |m|
    ensures IsPath(m, p + [v]) && Weight(m, p + [v]) == Weight(m, p) + m[p[|p| - 1]][v]
  {
    var q := p + [v];
    assert q[..|q| - 1] == p;
    assert forall i :: 0 <= i < |q| - 1 ==> Step(m, q[i], q[i + 1]) by {
      forall i | 0 <= i < |q| - 1
        ensures Step(m, q[i], q[i + 1])
      {
        if i < |p| - 1 {
          assert q[i] == p[i] && q[i + 1] == p[i + 1];
        }
      }
    }
    assert IsPath(m, q);
    assert q[|q| - 2] == p[|p| - 1] && q[|q| - 1] == v;
    assert Weight(m, q) == Weight(m, q[..|q| - 1]) + m[q[|q| - 2]][q[|q| - 1]];
  }

  /** Every prefix of a walk is a walk, and no heavier. */
  lemma {:induction false} PrefixPath(m: seq<seq<int>>, p: seq<int>, k: int)
    requires IsPath(m, p) && 1 <= k <= |p|
    ensures IsPath(m, p[..k]) && Weight(m, p[..k]) <= Weight(m, p)
    decreases |p|
  {
    if k == |p| {
      assert p[..k] == p;
    } else {
      var q := p[..|p| - 1];
      assert IsPath(m, q) by {
        assert forall i :: 0 <= i < |q| ==> q[i] == p[i];
      }
      PrefixPath(m, q, k);
      assert q[..k] == p[..k];
    }
  }

  /** A walk that starts in a set no positive entry leaves ends in that set. */
  lemma {:induction false} StaysInside(m: seq<seq<int>>, inside: set<int>, p: seq<int>)
    requires IsPath(m, p) && p[0] in inside
    requires forall a, b :: a in inside && Step(m, a, b) ==> b in inside
    ensures p[|p| - 1] in inside
    decreases |p|
  {
    if |p| > 1 {
      PrefixPath(m, p, |p| - 1);
      StaysInside(m, inside, p[..|p| - 1]);
      assert Step(m, p[|p| - 2], p[|p| - 1]);
    }
  }

  /**
   * A potential that no positive entry can outrun: along every such entry
   * it rises by at most the entry's weight.
   */
  ghost predicate Feasible(m: seq<seq<int>>, phi: seq<int>)
  {
    Square(m, |m|) && |phi| == |m| && forall a, b :: Step(m, a, b) ==> phi[b] - phi[a] <= m[a][b]
  }

  /** A feasible potential bounds every walk's weight from below. */
  lemma {:induction false} PotentialBound(m: seq<seq<int>>, phi: seq<int>, p: seq<int>)
    requires Feasible(m, phi) && IsPath(m, p)
    ensures Weight(m, p) >= phi[p[|p| - 1]] - phi[p[0]]
    decreases |p|
  {
    if |p| > 1 {
      var q := p[..|p| - 1];
      PrefixPath(m, p, |p| - 1);
      PotentialBound(m, phi, q);
      assert Step(m, p[|p| - 2], p[|p| - 1]);
    }
  }

  /**
   * A walk that weighs exactly the rise of a feasible potential along it
   * follows only entries on which the potential rises by the entry itself.
   */
  lemma {:induction false} TightPath(m: seq<seq<int>>, phi: seq<int>, p: seq<int>)
    requires Feasible(m, phi) && IsPath(m, p) && Weight(m, p) == phi[p[|p| - 1]] - phi[p[0]]
    ensures forall i :: 0 <= i < |p| - 1 ==> phi[p[i + 1]] - phi[p[i]] == m[p[i]][p[i + 1]]
    decreases |p|
  {
    if |p| > 1 {
      var q := p[..|p| - 1];
      PrefixPath(m, p, |p| - 1);
      PotentialBound(m, phi, q);
      assert Step(m, p[|p| - 2], p[|p| - 1]);
      assert q[0] == p[0] && q[|q| - 1] == p[|p| - 2];
      TightPath(m, phi, q);
      forall i | 0 <= i < |p| - 2
        ensures phi[p[i + 1]] - phi[p[i]] == m[p[i]][p[i + 1]]
      {
        assert q[i] == p[i] && q[i + 1] == p[i + 1];
      }
    }
  }
}
