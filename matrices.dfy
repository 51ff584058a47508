// Square integer matrices stored as Python lists of rows, shared by the
// 0/1 adjacency matrix and the weight matrix of the Dijkstra graph.
module Matrices {

  /** `m` has `n` rows of `n` cells each. */
  predicate Square(m: seq<seq<int>>, n: nat)
  {
    |m| == n && forall i :: 0 <= i < n ==> |m[i]| == n
  }

  /** `[[0] * n for _ in range(n)]`: the N x N matrix of zeros. */
  function Zeros(n: nat): (m: seq<seq<int>>)
    ensures Square(m, n)
    ensures forall i, j :: 0 <= i < n && 0 <= j < n ==> m[i][j] == 0
  {
    seq(n, _ => seq(n, _ => 0))
  }

  /** The list assignment `m[i][j] = v`. */
  function Put(m: seq<seq<int>>, i: int, j: int, v: int): (r: seq<seq<int>>)
    requires Square(m, |m|) && 0 <= i < |m| && 0 <= j < |m|
    ensures Square(r, |m|)
    ensures forall a, b :: 0 <= a < |m| && 0 <= b < |m| ==> r[a][b] == if a == i && b == j then v else m[a][b]
  {
    m[i := m[i][j := v]]
  }

  /** Two square matrices that agree cell by cell are equal. */
  lemma CellsEqual(a: seq<seq<int>>, b: seq<seq<int>>)
    requires Square(a, |a|) && Square(b, |a|)
    requires forall i, j :: 0 <= i < |a| && 0 <= j < |a| ==> a[i][j] == b[i][j]
    ensures a == b
  {
    forall i | 0 <= i < |a|
      ensures a[i] == b[i]
    {
      assert forall j :: 0 <= j < |a| ==> a[i][j] == b[i][j];
    }
  }
}
