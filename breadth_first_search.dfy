// breadth_first_search.py: an undirected adjacency list and a breadth-first
// search that walks a FIFO queue by index, recording for every discovered
// node its hop distance from the root and its parent in the search tree.
module BreadthFirstSearch {
  import opened Common
  import opened UndirectedLists

  /** The recorded distance of `v`, or 0 where none is recorded. */
  function Dist(distance: seq<Option<nat>>, v: int): nat
  {
    if 0 <= v < |distance| && distance[v].Some? then distance[v].value else 0
  }

  /**
   * The queue holds distinct nodes, and exactly the queued nodes have a
   * distance; a node never queued keeps `None` as its parent too.
   */
  ghost predicate Marked(n: nat, queue: seq<int>, distance: seq<Option<nat>>, parent: seq<Option<int>>)
  {
    && |distance| == n && |parent| == n
    && NoDuplicates(queue) && AllNodes(queue, n)
    && (forall v :: 0 <= v < n ==> (distance[v].Some? <==> v in queue))
    && (forall v :: 0 <= v < n && v !in queue ==> parent[v] == None)
  }

  /**
   * The queued node at position `k` has a parent queued before it, is one
   * of that parent's neighbours and is one hop farther from the root.
   */
  ghost predicate ParentBefore(d: seq<seq<int>>, queue: seq<int>, distance: seq<Option<nat>>, parent: seq<Option<int>>, k: int)
    requires 0 <= k < |queue| && 0 <= queue[k] < |parent|
  {
    match parent[queue[k]]
    case None => false
    case Some(p) => p in queue[..k] && 0 <= p < |d| && queue[k] in d[p] && Dist(distance, queue[k]) == Dist(distance, p) + 1
  }

  /** The search tree: the root first, at distance 0 and without parent; every later node hangs below an earlier one. */
  ghost predicate Tree(d: seq<seq<int>>, root: int, queue: seq<int>, distance: seq<Option<nat>>, parent: seq<Option<int>>)
    requires AllNodes(queue, |parent|)
  {
    && |queue| > 0 && queue[0] == root
    && 0 <= root < |distance| && distance[root] == Some(0) && parent[root] == None
    && forall k :: 0 < k < |queue| ==> ParentBefore(d, queue, distance, parent, k)
  }

  /** Distances never decrease along the queue. */
  ghost predicate Monotone(queue: seq<int>, distance: seq<Option<nat>>)
  {
    forall a, b :: 0 <= a <= b < |queue| ==> Dist(distance, queue[a]) <= Dist(distance, queue[b])
  }

  /** Every queued node's distance is the length of some walk from the root. */
  ghost predicate Witnessed(d: seq<seq<int>>, root: int, queue: seq<int>, distance: seq<Option<nat>>)
  {
    forall k :: 0 <= k < |queue| ==> ReachableIn(d, root, queue[k], Dist(distance, queue[k]))
  }

  /** No queued node is farther than `h`. */
  ghost predicate Within(queue: seq<int>, distance: seq<Option<nat>>, h: int)
  {
    forall a :: 0 <= a < |queue| ==> Dist(distance, queue[a]) <= h
  }

  /** The first `m` queued nodes have their neighbours queued, at most one hop farther. */
  ghost predicate ClosedUpTo(d: seq<seq<int>>, queue: seq<int>, distance: seq<Option<nat>>, m: int)
    requires 0 <= m <= |queue| && AllNodes(queue, |d|)
  {
    forall a, w :: 0 <= a < m && w in d[queue[a]] ==> w in queue && Dist(distance, w) <= Dist(distance, queue[a]) + 1
  }

  /** Every neighbour among the first `j` entries of `current`'s list is queued, at most one hop farther. */
  ghost predicate NeighboursDone(d: seq<seq<int>>, queue: seq<int>, distance: seq<Option<nat>>, current: int, j: int)
    requires 0 <= current < |d| && 0 <= j <= |d[current]|
  {
    forall i :: 0 <= i < j ==> d[current][i] in queue && Dist(distance, d[current][i]) <= Dist(distance, current) + 1
  }

  /** What holds between any two steps of the search. */
  ghost predicate Searching(d: seq<seq<int>>, root: int, n: nat, queue: seq<int>, discovered: seq<bool>, distance: seq<Option<nat>>, parent: seq<Option<int>>)
  {
    && |discovered| == n && (forall v :: 0 <= v < n ==> (discovered[v] <==> v in queue))
    && Marked(n, queue, distance, parent) && |queue| <= n
    && Tree(d, root, queue, distance, parent)
    && Monotone(queue, distance)
    && Witnessed(d, root, queue, distance)
  }

  /** The search starts with the root alone in the queue. */
  lemma Start(d: seq<seq<int>>, root: int, n: nat, queue: seq<int>, discovered: seq<bool>, distance: seq<Option<nat>>, parent: seq<Option<int>>)
    requires |d| == n && 0 <= root < n
    requires queue == [root] && discovered == seq(n, _ => false)[root := true]
    requires distance == seq(n, _ => None)[root := Some(0)] && parent == seq(n, _ => None)
    ensures Searching(d, root, n, queue, discovered, distance, parent)
    ensures Within(queue, distance, Dist(distance, queue[0]) + 1)
    ensures ClosedUpTo(d, queue, distance, 0)
  {
  }

  lemma EnqueueMarked(n: nat, queue: seq<int>, discovered: seq<bool>, distance: seq<Option<nat>>, parent: seq<Option<int>>,
                      node: int, h: nat, current: int,
                      queue': seq<int>, discovered': seq<bool>, distance': seq<Option<nat>>, parent': seq<Option<int>>)
    requires |discovered| == n && (forall v :: 0 <= v < n ==> (discovered[v] <==> v in queue))
    requires Marked(n, queue, distance, parent)
    requires 0 <= node < n && !discovered[node]
    requires queue' == queue + [node] && discovered' == discovered[node := true]
    requires distance' == distance[node := Some(h)] && parent' == parent[node := Some(current)]
    ensures |discovered'| == n && (forall v :: 0 <= v < n ==> (discovered'[v] <==> v in queue'))
    ensures Marked(n, queue', distance', parent') && |queue'| <= n
    ensures forall v :: v in queue ==> v in queue' && Dist(distance', v) == Dist(distance, v)
    ensures Dist(distance', node) == h
  {
    assert node !in queue;
    DistinctBounded(queue', n);
  }

  lemma EnqueueTree(d: seq<seq<int>>, root: int, n: nat, queue: seq<int>, distance: seq<Option<nat>>, parent: seq<Option<int>>,
                    node: int, m: int, queue': seq<int>, distance': seq<Option<nat>>, parent': seq<Option<int>>)
    requires WellFormed(d, n) && Marked(n, queue, distance, parent) && Tree(d, root, queue, distance, parent)
    requires 0 <= m < |queue| && 0 <= node < n && node !in queue && node in d[queue[m]]
    requires queue' == queue + [node]
    requires distance' == distance[node := Some(Dist(distance, queue[m]) + 1)] && parent' == parent[node := Some(queue[m])]
    requires AllNodes(queue', n)
    ensures Tree(d, root, queue', distance', parent')
  {
    forall k | 0 < k < |queue'|
      ensures ParentBefore(d, queue', distance', parent', k)
    {
      if k < |queue| {
        assert ParentBefore(d, queue, distance, parent, k);
        assert queue'[..k] == queue[..k];
      } else {
        assert queue'[..k] == queue;
      }
    }
  }

  lemma EnqueueOrder(d: seq<seq<int>>, root: int, n: nat, queue: seq<int>, distance: seq<Option<nat>>,
                     node: int, current: int, queue': seq<int>, distance': seq<Option<nat>>)
    requires |distance| == n && AllNodes(queue, n) && 0 <= node < n && node !in queue
    requires Monotone(queue, distance) && Witnessed(d, root, queue, distance)
    requires current in queue && 0 <= current < |d| && node in d[current]
    requires Within(queue, distance, Dist(distance, current) + 1)
    requires queue' == queue + [node] && distance' == distance[node := Some(Dist(distance, current) + 1)]
    ensures Monotone(queue', distance') && Witnessed(d, root, queue', distance')
    ensures Within(queue', distance', Dist(distance', current) + 1)
  {
    EnqueueMonotone(n, queue, distance, node, current, queue', distance');
    EnqueueWitnessed(d, root, n, queue, distance, node, current, queue', distance');
  }

  lemma EnqueueMonotone(n: nat, queue: seq<int>, distance: seq<Option<nat>>,
                        node: int, current: int, queue': seq<int>, distance': seq<Option<nat>>)
    requires |distance| == n && 0 <= node < n && node !in queue && current in queue
    requires Monotone(queue, distance) && Within(queue, distance, Dist(distance, current) + 1)
    requires queue' == queue + [node] && distance' == distance[node := Some(Dist(distance, current) + 1)]
    ensures Monotone(queue', distance') && Within(queue', distance', Dist(distance', current) + 1)
  {
    assert forall v :: v in queue ==> Dist(distance', v) == Dist(distance, v);
  }

  lemma EnqueueWitnessed(d: seq<seq<int>>, root: int, n: nat, queue: seq<int>, distance: seq<Option<nat>>,
                         node: int, current: int, queue': seq<int>, distance': seq<Option<nat>>)
    requires |distance| == n && 0 <= node < n && node !in queue
    requires Witnessed(d, root, queue, distance)
    requires current in queue && 0 <= current < |d| && node in d[current]
    requires queue' == queue + [node] && distance' == distance[node := Some(Dist(distance, current) + 1)]
    ensures Witnessed(d, root, queue', distance')
  {
    var k :| 0 <= k < |queue| && queue[k] == current;
    ReachableStep(d, root, current, node, Dist(distance, current));
    forall i | 0 <= i < |queue'|
      ensures ReachableIn(d, root, queue'[i], Dist(distance', queue'[i]))
    {
      if i < |queue| {
        assert queue[i] != node;
      }
    }
  }

  /** Queueing an undiscovered neighbour of `current` keeps every search fact. */
  lemma Enqueue(d: seq<seq<int>>, root: int, n: nat, queue: seq<int>, discovered: seq<bool>, distance: seq<Option<nat>>, parent: seq<Option<int>>,
                m: int, j: int,
                queue': seq<int>, discovered': seq<bool>, distance': seq<Option<nat>>, parent': seq<Option<int>>)
    requires WellFormed(d, n) && Searching(d, root, n, queue, discovered, distance, parent)
    requires 0 <= m < |queue| && 0 <= j < |d[queue[m]]|
    requires Within(queue, distance, Dist(distance, queue[m]) + 1) && ClosedUpTo(d, queue, distance, m)
    requires NeighboursDone(d, queue, distance, queue[m], j)
    requires !discovered[d[queue[m]][j]]
    requires queue' == queue + [d[queue[m]][j]] && discovered' == discovered[d[queue[m]][j] := true]
    requires distance' == distance[d[queue[m]][j] := Some(1 + Dist(distance, queue[m]))]
    requires parent' == parent[d[queue[m]][j] := Some(queue[m])]
    ensures Searching(d, root, n, queue', discovered', distance', parent')
    ensures m < |queue'| && queue'[m] == queue[m]
    ensures Within(queue', distance', Dist(distance', queue[m]) + 1) && ClosedUpTo(d, queue', distance', m)
    ensures NeighboursDone(d, queue', distance', queue[m], j + 1)
  {
    var current, node := queue[m], d[queue[m]][j];
    assert 0 <= node < n && node !in queue;
    EnqueueMarked(n, queue, discovered, distance, parent, node, 1 + Dist(distance, current), current, queue', discovered', distance', parent');
    EnqueueTree(d, root, n, queue, distance, parent, node, m, queue', distance', parent');
    EnqueueOrder(d, root, n, queue, distance, node, current, queue', distance');
  }

  /** A neighbour already discovered is already queued, at most one hop farther. */
  lemma Skip(d: seq<seq<int>>, n: nat, queue: seq<int>, discovered: seq<bool>, distance: seq<Option<nat>>, current: int, j: int)
    requires WellFormed(d, n) && 0 <= current < n && 0 <= j < |d[current]|
    requires |discovered| == n && (forall v :: 0 <= v < n ==> (discovered[v] <==> v in queue))
    requires discovered[d[current][j]]
    requires Within(queue, distance, Dist(distance, current) + 1)
    requires NeighboursDone(d, queue, distance, current, j)
    ensures NeighboursDone(d, queue, distance, current, j + 1)
  {
    var node := d[current][j];
    assert node in queue;
    var a :| 0 <= a < |queue| && queue[a] == node;
  }

  /** With all of `current`'s neighbours queued, the next queued node is the one to explore. */
  lemma FinishNode(d: seq<seq<int>>, queue: seq<int>, distance: seq<Option<nat>>, index: int)
    requires AllNodes(queue, |d|) && 1 <= index <= |queue| && 0 <= queue[index - 1] < |d|
    requires Monotone(queue, distance)
    requires Within(queue, distance, Dist(distance, queue[index - 1]) + 1)
    requires ClosedUpTo(d, queue, distance, index - 1)
    requires NeighboursDone(d, queue, distance, queue[index - 1], |d[queue[index - 1]]|)
    ensures index < |queue| ==> Within(queue, distance, Dist(distance, queue[index]) + 1)
    ensures ClosedUpTo(d, queue, distance, index)
  {
    var current := queue[index - 1];
    forall a, w | 0 <= a < index && w in d[queue[a]]
      ensures w in queue && Dist(distance, w) <= Dist(distance, queue[a]) + 1
    {
      if a == index - 1 {
        var i :| 0 <= i < |d[current]| && d[current][i] == w;
      }
    }
  }

  /**
   * Once every queued node has its neighbours queued, every walk of `h`
   * steps from the root ends at a queued node recorded no farther than `h`.
   */
  lemma {:induction false} ShortestHops(d: seq<seq<int>>, root: int, queue: seq<int>, distance: seq<Option<nat>>, v: int, h: nat)
    requires AllNodes(queue, |d|) && |queue| > 0 && queue[0] == root && Dist(distance, root) == 0
    requires ClosedUpTo(d, queue, distance, |queue|)
    requires ReachableIn(d, root, v, h)
    ensures v in queue && Dist(distance, v) <= h
    decreases h
  {
    if h > 0 {
      var u :| 0 <= u < |d| && v in d[u] && ReachableIn(d, root, u, h - 1);
      ShortestHops(d, root, queue, distance, u, h - 1);
      var a :| 0 <= a < |queue| && queue[a] == u;
    }
  }

  /** A node the search must reach within `h` hops gets a distance, witnessed by a walk, of at most `h`. */
  lemma Settle(d: seq<seq<int>>, root: int, queue: seq<int>, distance: seq<Option<nat>>, v: int, h: nat)
    requires |distance| == |d| && 0 <= v < |d| && (distance[v].Some? <==> v in queue)
    requires Witnessed(d, root, queue, distance)
    requires ReachableIn(d, root, v, h) && (ReachableIn(d, root, v, h) ==> v in queue && Dist(distance, v) <= h)
    ensures distance[v].Some? && distance[v].value <= h && ReachableIn(d, root, v, distance[v].value)
  {
    var k :| 0 <= k < |queue| && queue[k] == v;
  }

  /** In the demo lists only node 3 is 0 hops from 3, and only its neighbours 1, 2 and 4 are 1 hop away. */
  lemma DemoLayers(v: int, g: nat)
    requires EdgesInRange(DemoEdges(), 5) && ReachableIn(Linked(5, DemoEdges()), 3, v, g)
    ensures g == 0 ==> v == 3
    ensures g == 1 ==> v == 1 || v == 2 || v == 4
  {
    DemoLinked();
  }

  /** A neighbour of node 3 in the demo lists is found at distance 1. */
  lemma DemoNeighbour(queue: seq<int>, distance: seq<Option<nat>>, v: int)
    requires EdgesInRange(DemoEdges(), 5) && v in [1, 2, 4]
    requires |distance| == 5 && forall u :: 0 <= u < 5 ==> (distance[u].Some? <==> u in queue)
    requires Witnessed(Linked(5, DemoEdges()), 3, queue, distance)
    requires forall u, h: nat :: ReachableIn(Linked(5, DemoEdges()), 3, u, h) ==> u in queue && Dist(distance, u) <= h
    ensures distance[v] == Some(1)
  {
    var d := Linked(5, DemoEdges());
    DemoLinked();
    assert ReachableIn(d, 3, 3, 0);
    ReachableStep(d, 3, 3, v, 0);
    Settle(d, 3, queue, distance, v, 1);
    DemoLayers(v, distance[v].value);
  }

  /** Node 0, two hops from node 3 in the demo lists, is found at distance 2. */
  lemma DemoFar(queue: seq<int>, distance: seq<Option<nat>>)
    requires EdgesInRange(DemoEdges(), 5)
    requires |distance| == 5 && forall u :: 0 <= u < 5 ==> (distance[u].Some? <==> u in queue)
    requires Witnessed(Linked(5, DemoEdges()), 3, queue, distance)
    requires forall u, h: nat :: ReachableIn(Linked(5, DemoEdges()), 3, u, h) ==> u in queue && Dist(distance, u) <= h
    ensures distance[0] == Some(2)
  {
    var d := Linked(5, DemoEdges());
    DemoLinked();
    assert ReachableIn(d, 3, 3, 0);
    ReachableStep(d, 3, 3, 1, 0);
    ReachableStep(d, 3, 1, 0, 1);
    Settle(d, 3, queue, distance, 0, 2);
    var g := distance[0].value;
    DemoLayers(0, g);
    assert g == 2;
  }

  /** The distances the search's contract forces on the demo lists from node 3. */
  lemma DemoDistances(queue: seq<int>, distance: seq<Option<nat>>)
    requires EdgesInRange(DemoEdges(), 5)
    requires |distance| == 5 && forall v :: 0 <= v < 5 ==> (distance[v].Some? <==> v in queue)
    requires Witnessed(Linked(5, DemoEdges()), 3, queue, distance)
    requires forall v, h: nat :: ReachableIn(Linked(5, DemoEdges()), 3, v, h) ==> v in queue && Dist(distance, v) <= h
    ensures distance == [Some(2), Some(1), Some(1), Some(0), Some(1)]
  {
    var d := Linked(5, DemoEdges());
    assert ReachableIn(d, 3, 3, 0);
    Settle(d, 3, queue, distance, 3, 0);
    DemoNeighbour(queue, distance, 1);
    DemoNeighbour(queue, distance, 2);
    DemoNeighbour(queue, distance, 4);
    DemoFar(queue, distance);
    Five(distance, Some(2), Some(1), Some(1), Some(0), Some(1));
  }


  /**
   * In the demo search a node's parent is a neighbour of it one layer
   * nearer to node 3: node 3 itself for the first layer, node 1 or node 4
   * (the two neighbours of node 0 in layer 1) for node 0.
   */
  lemma DemoParent(queue: seq<int>, distance: seq<Option<nat>>, parent: seq<Option<int>>, v: int)
    requires EdgesInRange(DemoEdges(), 5) && 0 <= v < 5 && v != 3
    requires Marked(5, queue, distance, parent) && Tree(Linked(5, DemoEdges()), 3, queue, distance, parent)
    requires distance == [Some(2), Some(1), Some(1), Some(0), Some(1)]
    ensures v != 0 ==> parent[v] == Some(3)
    ensures v == 0 ==> parent[v] == Some(1) || parent[v] == Some(4)
  {
    DemoLinked();
    assert distance[v].Some?;
    var k :| 0 <= k < |queue| && queue[k] == v;
    assert ParentBefore(Linked(5, DemoEdges()), queue, distance, parent, k);
  }

  /**
   * The `__main__` search from node 3 of `Graph(5, DemoEdges())`: whatever
   * order the neighbours are explored in, the contract of the search fixes
   * every distance and the parents of the first layer.
   */
  lemma DemoSearch(queue: seq<int>, distance: seq<Option<nat>>, parent: seq<Option<int>>)
    requires EdgesInRange(DemoEdges(), 5)
    requires Marked(5, queue, distance, parent) && Tree(Linked(5, DemoEdges()), 3, queue, distance, parent)
    requires Witnessed(Linked(5, DemoEdges()), 3, queue, distance)
    requires forall v, h: nat :: ReachableIn(Linked(5, DemoEdges()), 3, v, h) ==> v in queue && Dist(distance, v) <= h
    ensures distance == [Some(2), Some(1), Some(1), Some(0), Some(1)]
    ensures parent[3] == None && parent[1] == Some(3) && parent[2] == Some(3) && parent[4] == Some(3)
    ensures parent[0] == Some(1) || parent[0] == Some(4)
  {
    DemoDistances(queue, distance);
    DemoParent(queue, distance, parent, 0);
    DemoParent(queue, distance, parent, 1);
    DemoParent(queue, distance, parent, 2);
    DemoParent(queue, distance, parent, 4);
  }

  class Graph {
    const numberOfNodes: nat
    var data: seq<seq<int>>

    ghost predicate Valid()
      reads this
    {
      WellFormed(data, numberOfNodes)
    }

    /** `Graph(number_of_nodes, edges)`: each edge appended at both ends, in list order. */
    constructor (numberOfNodes: nat, edges: seq<Edge>)
      requires EdgesInRange(edges, numberOfNodes)
      ensures Valid() && this.numberOfNodes == numberOfNodes
      ensures data == Linked(numberOfNodes, edges) && Symmetric(data)
    {
      this.numberOfNodes := numberOfNodes;
      data := seq(numberOfNodes, _ => []);
      new;
      var k := 0;
      while k < |edges|
        invariant 0 <= k <= |edges|
        invariant data == Linked(numberOfNodes, edges[..k])
      {
        var n1, n2 := edges[k].n1, edges[k].n2;
        data := data[n1 := data[n1] + [n2]];
        data := data[n2 := data[n2] + [n1]];
        assert edges[..k + 1][..k] == edges[..k];
        k := k + 1;
      }
      assert edges[..k] == edges;
      LinkedValid(numberOfNodes, edges);
    }

    /**
     * `breadth_first_search(root)`: `queue` lists exactly the nodes reachable
     * from `root`, in nondecreasing distance; `distance[v]` is the fewest
     * steps from `root` to `v`; `parent` links each node to the node it was
     * discovered from.
     */
    method BreadthFirstSearch(root: int) returns (queue: seq<int>, distance: seq<Option<nat>>, parent: seq<Option<int>>)
      requires Valid() && 0 <= root < numberOfNodes
      ensures Marked(numberOfNodes, queue, distance, parent) && |queue| <= numberOfNodes
      ensures Tree(data, root, queue, distance, parent)
      ensures Monotone(queue, distance)
      ensures Witnessed(data, root, queue, distance)
      ensures forall v, h: nat :: ReachableIn(data, root, v, h) ==> v in queue && Dist(distance, v) <= h
      ensures forall v :: v in queue <==> Reachable(data, root, v)
    {
      var n := |data|;
      var discovered := seq(n, _ => false);
      distance := seq(n, _ => None);
      parent := seq(n, _ => None);
      discovered := discovered[root := true];
      queue := [root];
      distance := distance[root := Some(0)];
      Start(data, root, n, queue, discovered, distance, parent);
      var index := 0;
      while index < |queue|
        invariant 0 <= index <= |queue|
        invariant Searching(data, root, n, queue, discovered, distance, parent)
        invariant index < |queue| ==> Within(queue, distance, Dist(distance, queue[index]) + 1)
        invariant ClosedUpTo(data, queue, distance, index)
        decreases n - index
      {
        queue, discovered, distance, parent := Explore(root, index, queue, discovered, distance, parent);
        index := index + 1;
        FinishNode(data, queue, distance, index);
      }
      forall v, h: nat | ReachableIn(data, root, v, h)
        ensures v in queue && Dist(distance, v) <= h
      {
        ShortestHops(data, root, queue, distance, v, h);
      }
    }

    /**
     * The inner `for` loop for `current = queue[index]`: every neighbour not
     * yet discovered is queued one hop farther, with `current` as its parent.
     */
    method Explore(root: int, index: int, queue: seq<int>, discovered: seq<bool>, distance: seq<Option<nat>>, parent: seq<Option<int>>)
      returns (queue': seq<int>, discovered': seq<bool>, distance': seq<Option<nat>>, parent': seq<Option<int>>)
      requires Valid() && Searching(data, root, numberOfNodes, queue, discovered, distance, parent)
      requires 0 <= index < |queue| && Within(queue, distance, Dist(distance, queue[index]) + 1)
      requires ClosedUpTo(data, queue, distance, index)
      ensures Searching(data, root, numberOfNodes, queue', discovered', distance', parent')
      ensures index < |queue'| && queue'[index] == queue[index]
      ensures Within(queue', distance', Dist(distance', queue[index]) + 1) && ClosedUpTo(data, queue', distance', index)
      ensures NeighboursDone(data, queue', distance', queue[index], |data[queue[index]]|)
    {
      var current := queue[index];
      queue', discovered', distance', parent' := queue, discovered, distance, parent;
      var j := 0;
      while j < |data[current]|
        invariant 0 <= j <= |data[current]|
        invariant index < |queue'| && queue'[index] == current
        invariant Searching(data, root, numberOfNodes, queue', discovered', distance', parent')
        invariant Within(queue', distance', Dist(distance', current) + 1)
        invariant ClosedUpTo(data, queue', distance', index)
        invariant NeighboursDone(data, queue', distance', current, j)
      {
        var node := data[current][j];
        if !discovered'[node] {
          ghost var q, dd, dist, par := queue', discovered', distance', parent';
          distance' := distance'[node := Some(1 + distance'[current].value)];
          parent' := parent'[node := Some(current)];
          discovered' := discovered'[node := true];
          queue' := queue' + [node];
          Enqueue(data, root, numberOfNodes, q, dd, dist, par, index, j, queue', discovered', distance', parent');
        } else {
          Skip(data, numberOfNodes, queue', discovered', distance', current, j);
        }
        j := j + 1;
      }
    }
  }

  /** The `__main__` block run on the class: the distances from node 3 are `[2, 1, 1, 0, 1]`. */
  method DemoMain() returns (distance: seq<Option<nat>>, parent: seq<Option<int>>)
    ensures distance == [Some(2), Some(1), Some(1), Some(0), Some(1)] && |parent| == 5
    ensures parent[3] == None && parent[1] == Some(3) && parent[2] == Some(3) && parent[4] == Some(3)
    ensures parent[0] == Some(1) || parent[0] == Some(4)
  {
    DemoLinked();
    var g1 := new Graph(5, DemoEdges());
    var queue;
    queue, distance, parent := g1.BreadthFirstSearch(3);
    DemoSearch(queue, distance, parent);
  }
}
