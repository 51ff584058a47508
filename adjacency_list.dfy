// adjacency_list.py: an undirected graph stored as one Python list of
// neighbours per node, duplicates allowed. `add_edge` appends both
// directions; `remove_edge` deletes the first occurrence of each direction
// with `list.remove`, which raises ValueError when the neighbour is absent.
module AdjacencyList {
  import opened Common
  import opened UndirectedLists

  /** Position of the first occurrence of `x` in `s`. */
  function FirstIndex(s: seq<int>, x: int): (i: nat)
    requires x in s
    ensures i < |s| && s[i] == x && x !in s[..i]
  {
    if s[0] == x then 0 else 1 + FirstIndex(s[1..], x)
  }

  /**
   * Python's `list.remove(x)`: `None` stands for the ValueError raised when
   * `x` is absent; otherwise the first occurrence of `x` is deleted.
   */
  function RemoveFirst(s: seq<int>, x: int): (r: Option<seq<int>>)
    ensures r.None? <==> x !in s
  {
    if x !in s then None
    else
      var i := FirstIndex(s, x);
      Some(s[..i] + s[i + 1..])
  }

  /** `list.remove(x)` takes away exactly one `x` and keeps every other entry. */
  lemma RemoveFirstCounts(s: seq<int>, x: int)
    requires x in s
    ensures multiset(RemoveFirst(s, x).value) == multiset(s) - multiset{x}
  {
    var i := FirstIndex(s, x);
    assert s == s[..i] + [x] + s[i + 1..];
  }

  /** The outcome of `remove_edge`: whether ValueError was raised, and the lists afterwards. */
  datatype Removal = Removal(raised: bool, data: seq<seq<int>>)

  /**
   * `remove_edge((n1, n2))`: first `data[n1].remove(n2)`, then
   * `data[n2].remove(n1)`. A ValueError from the second call leaves the
   * first removal in place, as in the source.
   */
  function Unlink(d: seq<seq<int>>, n1: int, n2: int): (r: Removal)
    requires 0 <= n1 < |d| && 0 <= n2 < |d|
    ensures |r.data| == |d|
  {
    match RemoveFirst(d[n1], n2)
    case None => Removal(true, d)
    case Some(l1) =>
      var d1 := d[n1 := l1];
      match RemoveFirst(d1[n2], n1)
      case None => Removal(true, d1)
      case Some(l2) => Removal(false, d1[n2 := l2])
  }

  /** When `x` first occurs right after `s`, that occurrence is the one removed. */
  lemma RemoveAfter(s: seq<int>, x: int, t: seq<int>)
    requires x !in s
    ensures RemoveFirst(s + [x] + t, x) == Some(s + t)
  {
    var u := s + [x] + t;
    assert u[|s|] == x;
    var i := FirstIndex(u, x);
    assert forall j :: 0 <= j < |s| ==> u[j] == s[j] != x;
    assert i == |s|;
    assert u[..i] == s && u[i + 1..] == t;
  }

  lemma RemoveLast(s: seq<int>, x: int)
    requires x !in s
    ensures RemoveFirst(s + [x], x) == Some(s)
  {
    RemoveAfter(s, x, []);
    assert s + [x] + [] == s + [x];
    assert s + [] == s;
  }

  /**
   * On symmetric lists `remove_edge` raises exactly when the edge is absent,
   * and then it has changed nothing.
   */
  lemma UnlinkRaises(d: seq<seq<int>>, n1: int, n2: int)
    requires Symmetric(d) && 0 <= n1 < |d| && 0 <= n2 < |d|
    ensures Unlink(d, n1, n2).raised <==> n2 !in d[n1]
    ensures Unlink(d, n1, n2).raised ==> Unlink(d, n1, n2).data == d
  {
    if n2 in d[n1] {
      var l1 := RemoveFirst(d[n1], n2).value;
      var d1 := d[n1 := l1];
      RemoveFirstCounts(d[n1], n2);
      assert Count(d[n1], n2) >= 1;
      if n1 == n2 {
        assert Count(d[n1], n1) >= 2;
        assert Count(l1, n1) >= 1;
      } else {
        assert d1[n2] == d[n2];
        assert Count(d[n2], n1) >= 1;
      }
      assert n1 in d1[n2];
    }
  }

  /** `e` is `d` with one entry `n2` taken from list `n1` and one entry `n1` from list `n2`. */
  ghost predicate OneEntryEachWayLess(d: seq<seq<int>>, e: seq<seq<int>>, n1: int, n2: int)
  {
    |e| == |d| &&
    forall a, b :: 0 <= a < |d| ==>
      Count(e[a], b) + (if a == n1 && b == n2 then 1 else 0) + (if a == n2 && b == n1 then 1 else 0) == Count(d[a], b)
  }

  /** Where `remove_edge` succeeds it takes away exactly one entry per direction. */
  lemma UnlinkCounts(d: seq<seq<int>>, n1: int, n2: int)
    requires 0 <= n1 < |d| && 0 <= n2 < |d|
    requires !Unlink(d, n1, n2).raised
    ensures OneEntryEachWayLess(d, Unlink(d, n1, n2).data, n1, n2)
  {
    var l1 := RemoveFirst(d[n1], n2).value;
    var d1 := d[n1 := l1];
    var l2 := RemoveFirst(d1[n2], n1).value;
    var e := d1[n2 := l2];
    assert e == Unlink(d, n1, n2).data;
    RemoveFirstCounts(d[n1], n2);
    RemoveFirstCounts(d1[n2], n1);
    forall a, b | 0 <= a < |d|
      ensures Count(e[a], b) + (if a == n1 && b == n2 then 1 else 0) + (if a == n2 && b == n1 then 1 else 0) == Count(d[a], b)
    {
      RemovedCount(d, n1, n2, l1, l2, a, b);
    }
  }

  /** One list entry's count after both removals of `remove_edge`. */
  lemma RemovedCount(d: seq<seq<int>>, n1: int, n2: int, l1: seq<int>, l2: seq<int>, a: int, b: int)
    requires 0 <= n1 < |d| && 0 <= n2 < |d| && 0 <= a < |d|
    requires n2 in d[n1] && multiset(l1) == multiset(d[n1]) - multiset{n2}
    requires n1 in d[n1 := l1][n2] && multiset(l2) == multiset(d[n1 := l1][n2]) - multiset{n1}
    ensures Count(d[n1 := l1][n2 := l2][a], b) + (if a == n1 && b == n2 then 1 else 0) + (if a == n2 && b == n1 then 1 else 0)
         == Count(d[a], b)
  {
    assert Count(l1, b) + (if b == n2 then 1 else 0) == Count(d[n1], b);
    assert Count(l2, b) + (if b == n1 then 1 else 0) == Count(d[n1 := l1][n2], b);
  }

  lemma LessOneEachWaySymmetric(d: seq<seq<int>>, e: seq<seq<int>>, n1: int, n2: int)
    requires Symmetric(d) && OneEntryEachWayLess(d, e, n1, n2)
    ensures Symmetric(e)
  {
    forall a, b | 0 <= a < |d| && 0 <= b < |d|
      ensures Count(e[a], b) == Count(e[b], a)
    {
      assert Count(d[a], b) == Count(d[b], a);
    }
    forall a | 0 <= a < |d|
      ensures Count(e[a], a) % 2 == 0
    {
      assert Count(d[a], a) % 2 == 0;
    }
  }

  /** `remove_edge` keeps the lists symmetric. */
  lemma UnlinkSymmetric(d: seq<seq<int>>, n1: int, n2: int)
    requires Symmetric(d) && 0 <= n1 < |d| && 0 <= n2 < |d|
    ensures Symmetric(Unlink(d, n1, n2).data)
  {
    UnlinkRaises(d, n1, n2);
    if !Unlink(d, n1, n2).raised {
      UnlinkCounts(d, n1, n2);
      LessOneEachWaySymmetric(d, Unlink(d, n1, n2).data, n1, n2);
    }
  }

  lemma RemoveFirstNodes(s: seq<int>, x: int, n: int)
    requires AllNodes(s, n) && x in s
    ensures AllNodes(RemoveFirst(s, x).value, n)
  {
    var r := RemoveFirst(s, x).value;
    forall i | 0 <= i < |r|
      ensures 0 <= r[i] < n
    {
      assert r[i] in multiset(r);
      assert r[i] in s;
    }
  }

  /** Whatever `remove_edge` does, every list still names only nodes. */
  lemma UnlinkWellFormed(d: seq<seq<int>>, n: nat, n1: int, n2: int)
    requires WellFormed(d, n) && 0 <= n1 < n && 0 <= n2 < n
    ensures WellFormed(Unlink(d, n1, n2).data, n)
  {
    if n2 in d[n1] {
      RemoveFirstNodes(d[n1], n2, n);
      var d1 := d[n1 := RemoveFirst(d[n1], n2).value];
      assert WellFormed(d1, n);
      if n1 in d1[n2] {
        RemoveFirstNodes(d1[n2], n1, n);
      }
    }
  }

  /** `remove_edge` touches no list but `n1`'s and `n2`'s. */
  lemma UnlinkFrame(d: seq<seq<int>>, n1: int, n2: int, a: int)
    requires 0 <= n1 < |d| && 0 <= n2 < |d| && 0 <= a < |d| && a != n1 && a != n2
    ensures Unlink(d, n1, n2).data[a] == d[a]
  {
  }

  lemma LinkThenUnlinkSucceeds(d: seq<seq<int>>, n1: int, n2: int)
    requires 0 <= n1 < |d| && 0 <= n2 < |d|
    ensures !Unlink(Link(d, n1, n2), n1, n2).raised
  {
    var l := Link(d, n1, n2);
    LinkAt(d, n1, n2, n1);
    assert l[n1][|l[n1]| - 1] == n1 || l[n1][|d[n1]|] == n2;
    assert n2 in l[n1];
    var l1 := RemoveFirst(l[n1], n2).value;
    var d1 := l[n1 := l1];
    if n1 == n2 {
      assert Count(l[n1], n1) >= 2;
      assert Count(l1, n1) >= 1;
    } else {
      LinkAt(d, n1, n2, n2);
      assert d1[n2] == d[n2] + [n1];
    }
    assert n1 in d1[n2];
  }

  /**
   * Adding and then removing an edge always succeeds and restores every list
   * as a multiset.
   */
  lemma LinkThenUnlink(d: seq<seq<int>>, n1: int, n2: int)
    requires 0 <= n1 < |d| && 0 <= n2 < |d|
    ensures !Unlink(Link(d, n1, n2), n1, n2).raised
    ensures forall a :: 0 <= a < |d| ==> multiset(Unlink(Link(d, n1, n2), n1, n2).data[a]) == multiset(d[a])
  {
    var l := Link(d, n1, n2);
    LinkThenUnlinkSucceeds(d, n1, n2);
    UnlinkCounts(l, n1, n2);
    var e := Unlink(l, n1, n2).data;
    forall a | 0 <= a < |d|
      ensures multiset(e[a]) == multiset(d[a])
    {
      forall b
        ensures multiset(e[a])[b] == multiset(d[a])[b]
      {
        LinkCount(d, n1, n2, a, b);
        assert Count(e[a], b) + (if a == n1 && b == n2 then 1 else 0) + (if a == n2 && b == n1 then 1 else 0) == Count(l[a], b);
      }
    }
  }

  /**
   * Without the edge, adding and then removing it restores the exact lists
   * (on symmetric lists the second condition follows from the first, see
   * `LinkThenUnlinkSymmetric`).
   */
  lemma LinkThenUnlinkExact(d: seq<seq<int>>, n1: int, n2: int)
    requires 0 <= n1 < |d| && 0 <= n2 < |d| && n2 !in d[n1] && n1 !in d[n2]
    ensures Unlink(Link(d, n1, n2), n1, n2) == Removal(false, d)
  {
    if n1 == n2 {
      LinkThenUnlinkLoop(d, n1);
    } else {
      LinkThenUnlinkPair(d, n1, n2);
    }
  }

  lemma LinkThenUnlinkLoop(d: seq<seq<int>>, a: int)
    requires 0 <= a < |d| && a !in d[a]
    ensures Unlink(Link(d, a, a), a, a) == Removal(false, d)
  {
    var l := Link(d, a, a);
    LinkAt(d, a, a, a);
    assert l[a] == d[a] + [a] + [a];
    RemoveAfter(d[a], a, [a]);
    RemoveLast(d[a], a);
    UnlinkSteps(l, a, a, d[a] + [a], d[a]);
    assert l[a := d[a] + [a]][a := d[a]] == d;
  }

  lemma LinkThenUnlinkPair(d: seq<seq<int>>, n1: int, n2: int)
    requires 0 <= n1 < |d| && 0 <= n2 < |d| && n1 != n2 && n2 !in d[n1] && n1 !in d[n2]
    ensures Unlink(Link(d, n1, n2), n1, n2) == Removal(false, d)
  {
    var l := Link(d, n1, n2);
    LinkAt(d, n1, n2, n1);
    LinkAt(d, n1, n2, n2);
    RemoveLast(d[n1], n2);
    RemoveLast(d[n2], n1);
    UnlinkSteps(l, n1, n2, d[n1], d[n2]);
    LinkRestored(d, n1, n2);
  }

  /** Putting back the two lists `add_edge` extended gives the lists before it. */
  lemma LinkRestored(d: seq<seq<int>>, n1: int, n2: int)
    requires 0 <= n1 < |d| && 0 <= n2 < |d|
    ensures Link(d, n1, n2)[n1 := d[n1]][n2 := d[n2]] == d
  {
    var r := Link(d, n1, n2)[n1 := d[n1]][n2 := d[n2]];
    forall a | 0 <= a < |d|
      ensures r[a] == d[a]
    {
      LinkAt(d, n1, n2, a);
    }
  }

  /** `Unlink` when both removals are known. */
  lemma UnlinkSteps(d: seq<seq<int>>, n1: int, n2: int, l1: seq<int>, l2: seq<int>)
    requires 0 <= n1 < |d| && 0 <= n2 < |d|
    requires RemoveFirst(d[n1], n2) == Some(l1)
    requires RemoveFirst(d[n1 := l1][n2], n1) == Some(l2)
    ensures Unlink(d, n1, n2) == Removal(false, d[n1 := l1][n2 := l2])
  {
  }

  lemma LinkThenUnlinkSymmetric(d: seq<seq<int>>, n1: int, n2: int)
    requires Symmetric(d) && 0 <= n1 < |d| && 0 <= n2 < |d| && n2 !in d[n1]
    ensures Unlink(Link(d, n1, n2), n1, n2) == Removal(false, d)
  {
    assert Count(d[n2], n1) == Count(d[n1], n2) == 0;
    LinkThenUnlinkExact(d, n1, n2);
  }

  /**
   * When the neighbour is already present, add-then-remove deletes the older
   * occurrence, so the list order changes: node 0's list `[2, 1]` becomes `[1, 2]`.
   */
  lemma LinkThenUnlinkReorders(d: seq<seq<int>>)
    requires d == [[2, 1], [0], [0]]
    ensures !Unlink(Link(d, 0, 2), 0, 2).raised
    ensures Unlink(Link(d, 0, 2), 0, 2).data == [[1, 2], [0], [0]]
  {
    var l := Link(d, 0, 2);
    LinkSample(d);
    UnlinkSample(l);
  }

  lemma LinkSample(d: seq<seq<int>>)
    requires d == [[2, 1], [0], [0]]
    ensures Link(d, 0, 2) == [[2, 1, 2], [0], [0, 0]]
  {
    var l := Link(d, 0, 2);
    assert l[0] == [2, 1, 2];
    assert l[2] == [0, 0];
  }

  lemma UnlinkSample(l: seq<seq<int>>)
    requires l == [[2, 1, 2], [0], [0, 0]]
    ensures Unlink(l, 0, 2) == Removal(false, [[1, 2], [0], [0]])
  {
    RemoveSampleFirst();
    RemoveSampleSecond();
    SampleUpdates(l);
    UnlinkSteps(l, 0, 2, [1, 2], [0]);
  }

  lemma SampleUpdates(l: seq<seq<int>>)
    requires l == [[2, 1, 2], [0], [0, 0]]
    ensures l[0] == [2, 1, 2] && l[0 := [1, 2]][2] == [0, 0]
    ensures l[0 := [1, 2]][2 := [0]] == [[1, 2], [0], [0]]
  {
    var l1 := l[0 := [1, 2]];
    assert l1 == [[1, 2], [0], [0, 0]];
  }

  lemma RemoveSampleFirst()
    ensures RemoveFirst([2, 1, 2], 2) == Some([1, 2])
  {
    RemoveAfter([], 2, [1, 2]);
    assert [] + [2] + [1, 2] == [2, 1, 2] && [] + [1, 2] == [1, 2];
  }

  lemma RemoveSampleSecond()
    ensures RemoveFirst([0, 0], 0) == Some([0])
  {
    RemoveAfter([], 0, [0]);
    assert [] + [0] + [0] == [0, 0] && [] + [0] == [0];
  }

  /** The demo edges followed by the three edges the `__main__` session adds. */
  function DemoAdded(): seq<Edge>
  {
    DemoEdges() + [Edge(0, 3), Edge(2, 0), Edge(4, 2)]
  }

  /** Node `a`'s list after the session's three additions: its demo list and what each addition appends. */
  lemma DemoAddedAt(a: int)
    requires 0 <= a < 5
    ensures EdgesInRange(DemoAdded(), 5)
    ensures Linked(5, DemoAdded())[a]
         == Neighbours(DemoEdges(), a) + Contribution(Edge(0, 3), a) + Contribution(Edge(2, 0), a) + Contribution(Edge(4, 2), a)
  {
    var e0 := DemoEdges();
    var e1 := e0 + [Edge(0, 3)];
    var e2 := e1 + [Edge(2, 0)];
    assert e2 + [Edge(4, 2)] == DemoAdded();
    assert EdgesInRange(DemoAdded(), 5);
    NeighboursAppend(e0, Edge(0, 3), a);
    NeighboursAppend(e1, Edge(2, 0), a);
    NeighboursAppend(e2, Edge(4, 2), a);
    LinkedAt(5, DemoAdded(), a);
  }

  /** What the three additions append to each demo list. */
  lemma DemoAddedRows()
    ensures [1, 4] + Contribution(Edge(0, 3), 0) + Contribution(Edge(2, 0), 0) + Contribution(Edge(4, 2), 0) == [1, 4, 3, 2]
    ensures [0, 4, 3, 2] + Contribution(Edge(0, 3), 1) + Contribution(Edge(2, 0), 1) + Contribution(Edge(4, 2), 1) == [0, 4, 3, 2]
    ensures [1, 3] + Contribution(Edge(0, 3), 2) + Contribution(Edge(2, 0), 2) + Contribution(Edge(4, 2), 2) == [1, 3, 0, 4]
    ensures [1, 2, 4] + Contribution(Edge(0, 3), 3) + Contribution(Edge(2, 0), 3) + Contribution(Edge(4, 2), 3) == [1, 2, 4, 0]
    ensures [0, 1, 3] + Contribution(Edge(0, 3), 4) + Contribution(Edge(2, 0), 4) + Contribution(Edge(4, 2), 4) == [0, 1, 3, 2]
  {
    assert Contribution(Edge(0, 3), 0) == [3];
    assert Contribution(Edge(2, 0), 0) == [2];
    assert Contribution(Edge(4, 2), 0) == [];
    assert Contribution(Edge(0, 3), 1) == [];
    assert Contribution(Edge(2, 0), 1) == [];
    assert Contribution(Edge(4, 2), 1) == [];
    assert Contribution(Edge(0, 3), 2) == [];
    assert Contribution(Edge(2, 0), 2) == [0];
    assert Contribution(Edge(4, 2), 2) == [4];
    assert Contribution(Edge(0, 3), 3) == [0];
    assert Contribution(Edge(2, 0), 3) == [];
    assert Contribution(Edge(4, 2), 3) == [];
    assert Contribution(Edge(0, 3), 4) == [];
    assert Contribution(Edge(2, 0), 4) == [];
    assert Contribution(Edge(4, 2), 4) == [2];
  }

  /** The lists after `add_edge((0, 3))`, `add_edge((2, 0))` and `add_edge((4, 2))`. */
  lemma DemoAddedLists()
    ensures EdgesInRange(DemoAdded(), 5)
    ensures Linked(5, DemoAdded()) == [[1, 4, 3, 2], [0, 4, 3, 2], [1, 3, 0, 4], [1, 2, 4, 0], [0, 1, 3, 2]]
  {
    DemoNeighbours();
    DemoAddedRows();
    DemoAddedAt(0);
    DemoAddedAt(1);
    DemoAddedAt(2);
    DemoAddedAt(3);
    DemoAddedAt(4);
    Five(Linked(5, DemoAdded()), [1, 4, 3, 2], [0, 4, 3, 2], [1, 3, 0, 4], [1, 2, 4, 0], [0, 1, 3, 2]);
  }

  /** Removing the third entry of a four-entry list whose first two differ from it. */
  lemma RemoveThird(a: int, b: int, x: int, c: int)
    requires x != a && x != b
    ensures RemoveFirst([a, b, x, c], x) == Some([a, b, c])
  {
    var s, t := [a, b], [c];
    RemoveAfter(s, x, t);
    assert s + [x] + t == [a, b, x, c];
    assert s + t == [a, b, c];
  }

  lemma DemoRemoveSecond(u: seq<int>)
    requires u == [1, 2, 4, 0]
    ensures RemoveFirst(u, 0) == Some([1, 2, 4])
  {
    var s := [1, 2, 4];
    assert u == s + [0];
    RemoveLast(s, 0);
  }

  lemma DemoUpdates(d: seq<seq<int>>)
    requires d == [[1, 4, 3, 2], [0, 4, 3, 2], [1, 3, 0, 4], [1, 2, 4, 0], [0, 1, 3, 2]]
    ensures d[0] == [1, 4, 3, 2] && d[0 := [1, 4, 2]][3] == [1, 2, 4, 0]
    ensures d[0 := [1, 4, 2]][3 := [1, 2, 4]] == [[1, 4, 2], [0, 4, 3, 2], [1, 3, 0, 4], [1, 2, 4], [0, 1, 3, 2]]
  {
    var r := d[0 := [1, 4, 2]][3 := [1, 2, 4]];
    Five(r, [1, 4, 2], [0, 4, 3, 2], [1, 3, 0, 4], [1, 2, 4], [0, 1, 3, 2]);
  }

  /**
   * The `__main__` session ends with `remove_edge((0, 3))`: it deletes the
   * first 3 from node 0's list and the first 0 from node 3's list, the
   * entries the session added, and raises nothing.
   */
  lemma DemoSession()
    ensures EdgesInRange(DemoAdded(), 5)
    ensures Unlink(Linked(5, DemoAdded()), 0, 3)
         == Removal(false, [[1, 4, 2], [0, 4, 3, 2], [1, 3, 0, 4], [1, 2, 4], [0, 1, 3, 2]])
  {
    DemoAddedLists();
    var d := Linked(5, DemoAdded());
    DemoUpdates(d);
    RemoveThird(1, 4, 3, 2);
    DemoRemoveSecond(d[0 := [1, 4, 2]][3]);
    UnlinkSteps(d, 0, 3, [1, 4, 2], [1, 2, 4]);
  }

  class Graph {
    const numberOfNodes: nat
    var data: seq<seq<int>>

    ghost predicate Valid()
      reads this
    {
      WellFormed(data, numberOfNodes)
    }

    /** `Graph(number_of_nodes, edges)`: empty lists, then `add_edge` per edge in order. */
    constructor (numberOfNodes: nat, edges: seq<Edge>)
      requires EdgesInRange(edges, numberOfNodes)
      ensures Valid() && this.numberOfNodes == numberOfNodes
      ensures data == Linked(numberOfNodes, edges) && Symmetric(data)
    {
      this.numberOfNodes := numberOfNodes;
      data := seq(numberOfNodes, _ => []);
      new;
      var k := 0;
      while k < |edges|
        invariant 0 <= k <= |edges|
        invariant Valid() && data == Linked(numberOfNodes, edges[..k])
      {
        assert edges[..k + 1][..k] == edges[..k];
        AddEdge(edges[k]);
        k := k + 1;
      }
      assert edges[..k] == edges;
      LinkedValid(numberOfNodes, edges);
    }

    /** `add_edge((n1, n2))`: append `n2` to `data[n1]`, then `n1` to `data[n2]`. */
    method AddEdge(edge: Edge)
      requires Valid() && EdgeInRange(edge, numberOfNodes)
      modifies this
      ensures Valid()
      ensures data == Link(old(data), edge.n1, edge.n2)
      ensures forall a :: 0 <= a < numberOfNodes ==>
        data[a] == old(data)[a] + (if a == edge.n1 then [edge.n2] else []) + (if a == edge.n2 then [edge.n1] else [])
      ensures Symmetric(old(data)) ==> Symmetric(data)
    {
      ghost var d := data;
      var n1, n2 := edge.n1, edge.n2;
      data := data[n1 := data[n1] + [n2]];
      data := data[n2 := data[n2] + [n1]];
      LinkWellFormed(d, numberOfNodes, n1, n2);
      forall a | 0 <= a < numberOfNodes
        ensures data[a] == d[a] + (if a == n1 then [n2] else []) + (if a == n2 then [n1] else [])
      {
        LinkAt(d, n1, n2, a);
      }
      if Symmetric(d) {
        LinkSymmetric(d, n1, n2);
      }
    }

    /**
     * `remove_edge((n1, n2))`. `raised` stands for the ValueError of
     * `list.remove`; on symmetric lists it is raised exactly when the edge is
     * absent, and then nothing has changed.
     */
    method RemoveEdge(edge: Edge) returns (raised: bool)
      requires Valid() && EdgeInRange(edge, numberOfNodes)
      modifies this
      ensures Valid()
      ensures Removal(raised, data) == Unlink(old(data), edge.n1, edge.n2)
      ensures Symmetric(old(data)) ==> Symmetric(data)
      ensures Symmetric(old(data)) ==> (raised <==> edge.n2 !in old(data)[edge.n1])
      ensures Symmetric(old(data)) && raised ==> data == old(data)
    {
      var n1, n2 := edge.n1, edge.n2;
      UnlinkWellFormed(data, numberOfNodes, n1, n2);
      if Symmetric(data) {
        UnlinkSymmetric(data, n1, n2);
        UnlinkRaises(data, n1, n2);
      }
      var r1 := RemoveFirst(data[n1], n2);
      if r1.None? {
        return true;
      }
      data := data[n1 := r1.value];
      var r2 := RemoveFirst(data[n2], n1);
      if r2.None? {
        return true;
      }
      data := data[n2 := r2.value];
      raised := false;
    }
  }
}
