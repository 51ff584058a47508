// depth_first_search.py: an undirected adjacency list and a depth-first
// search over an explicit stack. A node may be pushed several times but is
// recorded once, when it is first popped undiscovered.
module DepthFirstSearch {
  import opened Common
  import opened UndirectedLists

  function Last(s: seq<int>): int
    requires |s| > 0
  {
    s[|s| - 1]
  }

  /** The entries of `ns`, in list order, that are not in `seen`: what one visit pushes. */
  function Unseen(ns: seq<int>, seen: seq<int>): (r: seq<int>)
    ensures |r| <= |ns|
  {
    if ns == [] then []
    else
      Unseen(ns[..|ns| - 1], seen) + (if ns[|ns| - 1] in seen then [] else [ns[|ns| - 1]])
  }

  /** Extending the scanned list by one entry extends the pushed entries by that entry, unless seen. */
  lemma UnseenSnoc(ns: seq<int>, x: int, seen: seq<int>)
    ensures Unseen(ns + [x], seen) == Unseen(ns, seen) + (if x in seen then [] else [x])
  {
    assert (ns + [x])[..|ns|] == ns;
  }

  /** Total length of the lists of the nodes in `visited`. */
  function Degrees(d: seq<seq<int>>, visited: seq<int>): nat
    requires AllNodes(visited, |d|)
  {
    if visited == [] then 0
    else Degrees(d, visited[..|visited| - 1]) + |d[visited[|visited| - 1]]|
  }

  /**
   * Each node after the first that had an unseen neighbour when it was
   * visited is followed by the last such neighbour in its list.
   */
  ghost predicate DeepestFirst(d: seq<seq<int>>, result: seq<int>)
    requires AllNodes(result, |d|)
  {
    forall i :: 0 <= i < |result| - 1 ==> NextIsLastUnseen(d, result, i)
  }

  /** If `result[i]` had unseen neighbours when visited, the next node is the last of them. */
  ghost predicate NextIsLastUnseen(d: seq<seq<int>>, result: seq<int>, i: int)
    requires AllNodes(result, |d|) && 0 <= i < |result| - 1
  {
    Unseen(d[result[i]], result[..i + 1]) != [] ==> result[i + 1] == Last(Unseen(d[result[i]], result[..i + 1]))
  }

  /** `result[k]` is a neighbour of the earlier visited node `result[via[k]]`. */
  ghost predicate HangsBelow(d: seq<seq<int>>, result: seq<int>, via: seq<int>, k: int)
    requires AllNodes(result, |d|) && |via| == |result| && 0 <= k < |result|
  {
    0 <= via[k] < k && result[k] in d[result[via[k]]]
  }

  /** Stack entry `k` is the root or a neighbour of the visited node `result[from[k]]`. */
  ghost predicate PushedFrom(d: seq<seq<int>>, root: int, result: seq<int>, stack: seq<int>, from: seq<int>, k: int)
    requires AllNodes(result, |d|) && |from| == |stack| && 0 <= k < |stack|
  {
    stack[k] == root || (0 <= from[k] < |result| && stack[k] in d[result[from[k]]])
  }

  /**
   * Facts about the visited nodes: `discovered` marks exactly them, they are
   * distinct, the root comes first and each later one is a neighbour of the
   * earlier node `via` names.
   */
  ghost predicate Recorded(d: seq<seq<int>>, root: int, n: nat, result: seq<int>, discovered: seq<bool>, via: seq<int>)
  {
    && |d| == n && |discovered| == n
    && NoDuplicates(result) && AllNodes(result, n) && |result| <= n
    && (forall v :: 0 <= v < n ==> (discovered[v] <==> v in result))
    && (|result| > 0 ==> result[0] == root)
    && |via| == |result|
    && (forall k :: 0 < k < |result| ==> HangsBelow(d, result, via, k))
    && DeepestFirst(d, result)
  }

  /**
   * Facts about the stack: each entry is the root or a neighbour of the
   * visited node `from` names; every neighbour of a visited node is visited
   * or still on the stack, and so is the root; and if the last visited node
   * had unseen neighbours, the last of them is on top.
   */
  ghost predicate Pending(d: seq<seq<int>>, root: int, result: seq<int>, stack: seq<int>, from: seq<int>)
    requires AllNodes(result, |d|)
  {
    && AllNodes(stack, |d|) && |from| == |stack|
    && (forall k :: 0 <= k < |stack| ==> PushedFrom(d, root, result, stack, from, k))
    && (forall a, w :: 0 <= a < |result| && w in d[result[a]] ==> w in result || w in stack)
    && (root in result || root in stack)
    && (|result| > 0 && Unseen(d[Last(result)], result) != [] ==>
          |stack| > 0 && Last(stack) == Last(Unseen(d[Last(result)], result)))
  }

  /** Exactly the list's entries that are not seen survive. */
  lemma {:induction false} UnseenMembers(ns: seq<int>, seen: seq<int>)
    ensures forall x :: x in Unseen(ns, seen) <==> x in ns && x !in seen
  {
    if ns != [] {
      var init := ns[..|ns| - 1];
      assert ns == init + [ns[|ns| - 1]];
      UnseenMembers(init, seen);
    }
  }

  /** The last unseen entry of a list is in the list and not seen. */
  lemma LastUnseen(ns: seq<int>, seen: seq<int>)
    ensures Unseen(ns, seen) != [] ==> Last(Unseen(ns, seen)) in ns && Last(Unseen(ns, seen)) !in seen
  {
    UnseenMembers(ns, seen);
    var r := Unseen(ns, seen);
    if r != [] {
      assert r[|r| - 1] in r;
    }
  }

  /** Popping a node that was already visited keeps the stack facts. */
  lemma PopVisited(d: seq<seq<int>>, root: int, result: seq<int>, stack: seq<int>, from: seq<int>)
    requires AllNodes(result, |d|) && Pending(d, root, result, stack, from)
    requires |stack| > 0 && Last(stack) in result
    ensures Pending(d, root, result, stack[..|stack| - 1], from[..|from| - 1])
  {
    var stack', from' := stack[..|stack| - 1], from[..|from| - 1];
    assert stack == stack' + [Last(stack)];
    forall k | 0 <= k < |stack'|
      ensures PushedFrom(d, root, result, stack', from', k)
    {
      assert PushedFrom(d, root, result, stack, from, k);
    }
    if |result| > 0 {
      LastUnseen(d[Last(result)], result);
    }
  }

  /** The newly visited node extends the tree below the root. */
  lemma VisitTree(d: seq<seq<int>>, root: int, result: seq<int>, via: seq<int>, x: int, f: int)
    requires AllNodes(result, |d|) && |via| == |result| && (|result| > 0 ==> result[0] == root)
    requires forall k :: 0 < k < |result| ==> HangsBelow(d, result, via, k)
    requires 0 <= x < |d| && x !in result && (x == root || (0 <= f < |result| && x in d[result[f]]))
    ensures result + [x] != [] && (result + [x])[0] == root
    ensures forall k :: 0 < k < |result + [x]| ==> HangsBelow(d, result + [x], via + [f], k)
  {
    if |result| > 0 {
      assert result[0] in result;
    }
    forall k | 0 < k < |result + [x]|
      ensures HangsBelow(d, result + [x], via + [f], k)
    {
      if k < |result| {
        assert HangsBelow(d, result, via, k);
      }
    }
  }

  /** Appending a node leaves the order condition of an earlier position as it was. */
  lemma NextIsLastUnseenKept(d: seq<seq<int>>, result: seq<int>, x: int, i: int)
    requires AllNodes(result, |d|) && AllNodes(result + [x], |d|) && 0 <= i < |result| - 1
    requires NextIsLastUnseen(d, result, i)
    ensures NextIsLastUnseen(d, result + [x], i)
  {
    assert (result + [x])[..i + 1] == result[..i + 1];
  }

  /** The appended node meets the order condition of the node before it. */
  lemma NextIsLastUnseenAppended(d: seq<seq<int>>, result: seq<int>, x: int, i: int)
    requires AllNodes(result, |d|) && AllNodes(result + [x], |d|) && i == |result| - 1 >= 0
    requires Unseen(d[Last(result)], result) != [] ==> x == Last(Unseen(d[Last(result)], result))
    ensures NextIsLastUnseen(d, result + [x], i)
  {
    assert (result + [x])[..i + 1] == result;
  }

  /** Visiting the top of the stack keeps the deepest-first order. */
  lemma VisitDeepest(d: seq<seq<int>>, result: seq<int>, x: int)
    requires AllNodes(result, |d|) && AllNodes(result + [x], |d|) && DeepestFirst(d, result)
    requires |result| > 0 && Unseen(d[Last(result)], result) != [] ==> x == Last(Unseen(d[Last(result)], result))
    ensures DeepestFirst(d, result + [x])
  {
    forall i | 0 <= i < |result|
      ensures NextIsLastUnseen(d, result + [x], i)
    {
      if i < |result| - 1 {
        NextIsLastUnseenKept(d, result, x, i);
      } else {
        NextIsLastUnseenAppended(d, result, x, i);
      }
    }
  }

  lemma VisitRecorded(d: seq<seq<int>>, root: int, n: nat, result: seq<int>, discovered: seq<bool>, via: seq<int>,
                      x: int, f: int, result': seq<int>, discovered': seq<bool>, via': seq<int>)
    requires Recorded(d, root, n, result, discovered, via)
    requires 0 <= x < n && x !in result && (x == root || (0 <= f < |result| && x in d[result[f]]))
    requires |result| > 0 && Unseen(d[Last(result)], result) != [] ==> x == Last(Unseen(d[Last(result)], result))
    requires result' == result + [x] && discovered' == discovered[x := true] && via' == via + [f]
    ensures Recorded(d, root, n, result', discovered', via')
  {
    DistinctBounded(result', n);
    VisitTree(d, root, result, via, x, f);
    assert AllNodes(result', |d|);
    VisitDeepest(d, result, x);
  }

  /** After a visit each stack entry is a node, and the root or a visited node's neighbour. */
  lemma VisitOrigins(d: seq<seq<int>>, root: int, result: seq<int>, base: seq<int>, from: seq<int>,
                     x: int, pushed: seq<int>, from': seq<int>)
    requires |from| >= |base| && AllNodes(result, |d|) && 0 <= x < |d| && AllNodes(base, |d|) && AllNodes(d[x], |d|)
    requires |from| == |base| + 1
    requires forall k :: 0 <= k < |base| ==> PushedFrom(d, root, result, base + [x], from, k)
    requires forall y :: y in pushed ==> y in d[x]
    requires |from'| == |base| + |pushed| && from'[..|base|] == from[..|base|]
    requires forall k :: |base| <= k < |from'| ==> from'[k] == |result|
    ensures AllNodes(base + pushed, |d|)
    ensures AllNodes(result + [x], |d|)
    ensures forall k :: 0 <= k < |base + pushed| ==> PushedFrom(d, root, result + [x], base + pushed, from', k)
  {
    var r, s := result + [x], base + pushed;
    forall k | 0 <= k < |s|
      ensures 0 <= s[k] < |d|
      ensures PushedFrom(d, root, r, s, from', k)
    {
      if k < |base| {
        assert PushedFrom(d, root, result, base + [x], from, k);
        assert (base + [x])[k] == s[k];
        assert from'[k] == from'[..|base|][k] == from[k];
      } else {
        assert s[k] == pushed[k - |base|];
        assert s[k] in pushed;
      }
    }
  }

  /** After a visit with unseen neighbours, the last of them is on top of the stack. */
  lemma VisitTop(base: seq<int>, pushed: seq<int>)
    ensures pushed != [] ==> Last(base + pushed) == Last(pushed)
  {
  }

  /** After a visit every neighbour of a visited node is visited or on the stack. */
  lemma VisitClosed(d: seq<seq<int>>, root: int, result: seq<int>, base: seq<int>, x: int)
    requires AllNodes(result, |d|) && 0 <= x < |d|
    requires forall a, w :: 0 <= a < |result| && w in d[result[a]] ==> w in result || w in base + [x]
    requires root in result || root in base + [x]
    ensures forall a, w :: 0 <= a < |result + [x]| && w in d[(result + [x])[a]] ==>
      w in result + [x] || w in base + Unseen(d[x], result + [x])
    ensures root in result + [x] || root in base + Unseen(d[x], result + [x])
  {
    var r := result + [x];
    UnseenMembers(d[x], r);
    forall a, w | 0 <= a < |r| && w in d[r[a]]
      ensures w in r || w in base + Unseen(d[x], r)
    {
      if a < |result| {
        assert r[a] == result[a];
      }
    }
  }

  lemma VisitPending(d: seq<seq<int>>, root: int, result: seq<int>, stack: seq<int>, from: seq<int>,
                     result': seq<int>, stack': seq<int>, from': seq<int>)
    requires WellFormed(d, |d|) && AllNodes(result, |d|) && Pending(d, root, result, stack, from)
    requires |stack| > 0 && Last(stack) !in result && 0 <= Last(stack) < |d|
    requires result' == result + [Last(stack)]
    requires stack' == stack[..|stack| - 1] + Unseen(d[Last(stack)], result')
    requires |from'| == |stack'| && from'[..|stack| - 1] == from[..|stack| - 1]
    requires forall k :: |stack| - 1 <= k < |from'| ==> from'[k] == |result|
    ensures Pending(d, root, result', stack', from')
  {
    var x := Last(stack);
    var base := stack[..|stack| - 1];
    assert stack == base + [x];
    UnseenMembers(d[x], result');
    forall k | 0 <= k < |base|
      ensures PushedFrom(d, root, result, base + [x], from, k)
    {
      assert PushedFrom(d, root, result, stack, from, k);
    }
    VisitOrigins(d, root, result, base, from, x, Unseen(d[x], result'), from');
    VisitClosed(d, root, result, base, x);
    assert Last(result') == x;
    VisitTop(base, Unseen(d[x], result'));
  }

  /** The stack bound that pays for the loop: every pop was pushed, and only a visit pushes. */
  lemma VisitCount(d: seq<seq<int>>, result: seq<int>, stack: seq<int>, pops: nat, stack': seq<int>, result': seq<int>)
    requires AllNodes(result, |d|) && |stack| > 0 && 0 <= Last(stack) < |d|
    requires pops + |stack| <= 1 + Degrees(d, result)
    requires result' == result + [Last(stack)]
    requires stack' == stack[..|stack| - 1] + Unseen(d[Last(stack)], result')
    ensures AllNodes(result', |d|) && pops + 1 + |stack'| <= 1 + Degrees(d, result')
  {
    assert result'[..|result'| - 1] == result;
  }

  /** One visit: the popped node is recorded and its unseen neighbours pushed. */
  lemma Visit(d: seq<seq<int>>, root: int, n: nat, result: seq<int>, discovered: seq<bool>, via: seq<int>,
              stack: seq<int>, from: seq<int>, pops: nat,
              result': seq<int>, discovered': seq<bool>, via': seq<int>, stack': seq<int>, from': seq<int>)
    requires WellFormed(d, n) && Recorded(d, root, n, result, discovered, via) && Pending(d, root, result, stack, from)
    requires pops + |stack| <= 1 + Degrees(d, result)
    requires |stack| > 0 && !discovered[Last(stack)]
    requires result' == result + [Last(stack)] && discovered' == discovered[Last(stack) := true]
    requires via' == via + [from[|from| - 1]]
    requires stack' == stack[..|stack| - 1] + Unseen(d[Last(stack)], result')
    requires from' == from[..|from| - 1] + seq(|stack'| - (|stack| - 1), _ => |result|)
    ensures Recorded(d, root, n, result', discovered', via') && Pending(d, root, result', stack', from')
    ensures pops + 1 + |stack'| <= 1 + Degrees(d, result')
  {
    var x, f := Last(stack), from[|from| - 1];
    assert x == stack[|stack| - 1] && 0 <= x < n && x !in result;
    assert PushedFrom(d, root, result, stack, from, |stack| - 1);
    assert |result| > 0 && Unseen(d[Last(result)], result) != [] ==> x == Last(Unseen(d[Last(result)], result));
    assert x == root || (0 <= f < |result| && x in d[result[f]]);
    VisitRecorded(d, root, n, result, discovered, via, x, f, result', discovered', via');
    assert from'[..|stack| - 1] == from[..|stack| - 1];
    assert |from'| == |stack'|;
    assert forall k :: |stack| - 1 <= k < |from'| ==> from'[k] == |result|;
    VisitPending(d, root, result, stack, from, result', stack', from');
    VisitCount(d, result, stack, pops, stack', result');
  }

  /** Popping an already visited node changes nothing else. */
  lemma Pop(d: seq<seq<int>>, root: int, result: seq<int>, stack: seq<int>, from: seq<int>, pops: nat)
    requires AllNodes(result, |d|) && Pending(d, root, result, stack, from)
    requires pops + |stack| <= 1 + Degrees(d, result)
    requires |stack| > 0 && Last(stack) in result
    ensures Pending(d, root, result, stack[..|stack| - 1], from[..|from| - 1])
    ensures pops + 1 + |stack[..|stack| - 1]| <= 1 + Degrees(d, result)
  {
    PopVisited(d, root, result, stack, from);
  }

  /** Every visited node is reachable: each hangs below an earlier one. */
  lemma {:induction false} TreeReachable(d: seq<seq<int>>, root: int, result: seq<int>, via: seq<int>, k: int) returns (h: nat)
    requires AllNodes(result, |d|) && |result| > 0 && result[0] == root && |via| == |result|
    requires forall k :: 0 < k < |result| ==> HangsBelow(d, result, via, k)
    requires 0 <= k < |result|
    ensures ReachableIn(d, root, result[k], h)
    decreases k
  {
    if k == 0 {
      h := 0;
    } else {
      assert HangsBelow(d, result, via, k);
      var g := TreeReachable(d, root, result, via, via[k]);
      ReachableStep(d, root, result[via[k]], result[k], g);
      h := g + 1;
    }
  }

  /** Once the stack is empty, every node reachable from the root was visited. */
  lemma {:induction false} ClosedReachable(d: seq<seq<int>>, root: int, result: seq<int>, v: int, h: nat)
    requires AllNodes(result, |d|) && root in result
    requires forall a, w :: 0 <= a < |result| && w in d[result[a]] ==> w in result
    requires ReachableIn(d, root, v, h)
    ensures v in result
    decreases h
  {
    if h > 0 {
      var u :| 0 <= u < |d| && v in d[u] && ReachableIn(d, root, u, h - 1);
      ClosedReachable(d, root, result, u, h - 1);
      var a :| 0 <= a < |result| && result[a] == u;
    }
  }

  /** Every visited node is reachable from the root. */
  lemma VisitedReachable(d: seq<seq<int>>, root: int, result: seq<int>, via: seq<int>)
    requires AllNodes(result, |d|) && |result| > 0 && result[0] == root && |via| == |result|
    requires forall k :: 0 < k < |result| ==> HangsBelow(d, result, via, k)
    ensures forall v :: v in result ==> Reachable(d, root, v)
  {
    forall v | v in result
      ensures Reachable(d, root, v)
    {
      var k :| 0 <= k < |result| && result[k] == v;
      var h := TreeReachable(d, root, result, via, k);
    }
  }

  /** Every node reachable from the root was visited, once nothing is left to explore. */
  lemma ReachableVisited(d: seq<seq<int>>, root: int, result: seq<int>)
    requires AllNodes(result, |d|) && root in result
    requires forall a, w :: 0 <= a < |result| && w in d[result[a]] ==> w in result
    ensures forall v :: Reachable(d, root, v) ==> v in result
  {
    forall v | Reachable(d, root, v)
      ensures v in result
    {
      var h: nat :| ReachableIn(d, root, v, h);
      ClosedReachable(d, root, result, v, h);
    }
  }

  /** When the stack runs empty, the visited nodes form a tree holding exactly the reachable nodes. */
  lemma Complete(d: seq<seq<int>>, root: int, n: nat, result: seq<int>, discovered: seq<bool>, via: seq<int>, stack: seq<int>, from: seq<int>)
    requires Recorded(d, root, n, result, discovered, via) && Pending(d, root, result, stack, from) && stack == []
    ensures |result| > 0 && result[0] == root
    ensures forall k :: 0 < k < |result| ==> exists j :: 0 <= j < k && result[k] in d[result[j]]
    ensures forall v :: v in result <==> Reachable(d, root, v)
  {
    forall k | 0 < k < |result|
      ensures exists j :: 0 <= j < k && result[k] in d[result[j]]
    {
      assert HangsBelow(d, result, via, k);
    }
    VisitedReachable(d, root, result, via);
    ReachableVisited(d, root, result);
  }

  /**
   * Every node pushed while the nodes of `result` were visited, in push
   * order: the root, then each visited node's neighbours that were still
   * undiscovered when it was visited.
   */
  function Pushes(d: seq<seq<int>>, root: int, result: seq<int>): (r: seq<int>)
    requires AllNodes(result, |d|)
    ensures |r| > 0 && r[0] == root
  {
    if result == [] then [root]
    else Pushes(d, root, result[..|result| - 1]) + Unseen(d[Last(result)], result)
  }

  /**
   * The node visited after `result[i]` is the most recently pushed node not
   * yet visited: the stack is last in, first out, and visited nodes popped
   * on the way are discarded.
   */
  ghost predicate NextIsLatestPending(d: seq<seq<int>>, root: int, result: seq<int>, i: int)
    requires AllNodes(result, |d|) && 0 <= i < |result| - 1
  {
    var seen := result[..i + 1];
    Unseen(Pushes(d, root, seen), seen) != [] && result[i + 1] == Last(Unseen(Pushes(d, root, seen), seen))
  }

  /** Each node after the root is the most recently pushed node not visited before it. */
  ghost predicate LatestFirst(d: seq<seq<int>>, root: int, result: seq<int>)
    requires AllNodes(result, |d|)
  {
    forall i :: 0 <= i < |result| - 1 ==> NextIsLatestPending(d, root, result, i)
  }

  /** Every node ever pushed has been visited, so the search is over. */
  ghost predicate Exhausted(d: seq<seq<int>>, root: int, result: seq<int>)
    requires AllNodes(result, |d|)
  {
    Unseen(Pushes(d, root, result), result) == []
  }

  /**
   * The stack holds, in push order, every pushed node not yet visited (and
   * possibly copies of visited ones, which are discarded when popped).
   */
  ghost predicate StackMirrors(d: seq<seq<int>>, root: int, result: seq<int>, stack: seq<int>)
    requires AllNodes(result, |d|)
  {
    Unseen(stack, result) == Unseen(Pushes(d, root, result), result)
  }

  /** Dropping the seen entries distributes over concatenation. */
  lemma {:induction false} UnseenAppend(a: seq<int>, b: seq<int>, seen: seq<int>)
    ensures Unseen(a + b, seen) == Unseen(a, seen) + Unseen(b, seen)
    decreases |b|
  {
    if b == [] {
      assert a + b == a;
    } else {
      var b0, y := b[..|b| - 1], b[|b| - 1];
      assert a + b == (a + b0) + [y];
      assert b == b0 + [y];
      UnseenSnoc(a + b0, y, seen);
      UnseenSnoc(b0, y, seen);
      UnseenAppend(a, b0, seen);
    }
  }

  /** Dropping the entries of `seen` and then those of a larger `seen'` drops exactly those of `seen'`. */
  lemma {:induction false} UnseenTwice(s: seq<int>, seen: seq<int>, seen': seq<int>)
    requires forall y :: y in seen ==> y in seen'
    ensures Unseen(Unseen(s, seen), seen') == Unseen(s, seen')
    decreases |s|
  {
    if s != [] {
      var s0, y := s[..|s| - 1], s[|s| - 1];
      UnseenTwice(s0, seen, seen');
      if y in seen {
        assert y in seen';
        assert Unseen(s, seen) == Unseen(s0, seen);
        assert Unseen(s, seen') == Unseen(s0, seen');
      } else {
        assert Unseen(s, seen) == Unseen(s0, seen) + [y];
        UnseenSnoc(Unseen(s0, seen), y, seen');
      }
    }
  }

  /** Popping a visited node leaves the pending nodes on the stack as they were. */
  lemma PopMirrors(d: seq<seq<int>>, root: int, result: seq<int>, stack: seq<int>)
    requires AllNodes(result, |d|) && StackMirrors(d, root, result, stack)
    requires |stack| > 0 && Last(stack) in result
    ensures StackMirrors(d, root, result, stack[..|stack| - 1])
  {
  }

  /** Appending the most recently pushed pending node keeps the order conditions. */
  lemma LatestKept(d: seq<seq<int>>, root: int, result: seq<int>, x: int)
    requires AllNodes(result, |d|) && 0 <= x < |d| && LatestFirst(d, root, result)
    requires |result| > 0 ==> Unseen(Pushes(d, root, result), result) != [] && x == Last(Unseen(Pushes(d, root, result), result))
    ensures AllNodes(result + [x], |d|) && LatestFirst(d, root, result + [x])
  {
    var r := result + [x];
    assert AllNodes(r, |d|);
    forall i | 0 <= i < |r| - 1
      ensures NextIsLatestPending(d, root, r, i)
    {
      if i < |result| - 1 {
        assert NextIsLatestPending(d, root, result, i);
        assert r[..i + 1] == result[..i + 1];
      } else {
        assert r[..i + 1] == result;
      }
    }
  }

  /** Visiting `x` adds its undiscovered neighbours to the pushes. */
  lemma PushesSnoc(d: seq<seq<int>>, root: int, result: seq<int>, x: int)
    requires AllNodes(result, |d|) && 0 <= x < |d|
    ensures AllNodes(result + [x], |d|)
    ensures Pushes(d, root, result + [x]) == Pushes(d, root, result) + Unseen(d[x], result + [x])
  {
    assert (result + [x])[..|result|] == result;
  }

  /**
   * If `stack` and `p` agree on their entries not in `seen`, they still agree
   * once the top `x` is visited and entries `u`, none of them visited, are
   * pushed on both.
   */
  lemma MirrorStep(p: seq<int>, stack: seq<int>, u: seq<int>, seen: seq<int>, x: int)
    requires |stack| > 0 && Last(stack) == x
    requires Unseen(stack, seen) == Unseen(p, seen)
    requires Unseen(u, seen + [x]) == u
    ensures Unseen(stack[..|stack| - 1] + u, seen + [x]) == Unseen(p + u, seen + [x])
  {
    var base, r := stack[..|stack| - 1], seen + [x];
    assert forall y :: y in seen ==> y in r;
    calc {
      Unseen(base + u, r);
    == { UnseenAppend(base, u, r); }
      Unseen(base, r) + u;
    == { assert stack[|stack| - 1] == x && x in r;
         assert Unseen(stack, r) == Unseen(base, r) + [];
         assert Unseen(base, r) + [] == Unseen(base, r); }
      Unseen(stack, r) + u;
    == { UnseenTwice(stack, seen, r); }
      Unseen(Unseen(p, seen), r) + u;
    == { UnseenTwice(p, seen, r); }
      Unseen(p, r) + u;
    == { UnseenAppend(p, u, r); }
      Unseen(p + u, r);
    }
  }

  /**
   * After visiting the top of the stack and pushing its undiscovered
   * neighbours, the stack is still in step with the pushes.
   */
  lemma VisitMirrors(d: seq<seq<int>>, root: int, result: seq<int>, stack: seq<int>, stack': seq<int>)
    requires AllNodes(result, |d|) && |stack| > 0 && 0 <= Last(stack) < |d|
    requires StackMirrors(d, root, result, stack)
    requires stack' == stack[..|stack| - 1] + Unseen(d[Last(stack)], result + [Last(stack)])
    ensures AllNodes(result + [Last(stack)], |d|) && StackMirrors(d, root, result + [Last(stack)], stack')
  {
    var x := Last(stack);
    PushesSnoc(d, root, result, x);
    UnseenTwice(d[x], result + [x], result + [x]);
    MirrorStep(Pushes(d, root, result), stack, Unseen(d[x], result + [x]), result, x);
  }

  /**
   * Visiting the top of the stack, an unvisited node, takes the most
   * recently pushed pending node and keeps the stack in step with the pushes.
   */
  lemma VisitLatest(d: seq<seq<int>>, root: int, result: seq<int>, stack: seq<int>, stack': seq<int>)
    requires AllNodes(result, |d|) && |stack| > 0 && 0 <= Last(stack) < |d| && Last(stack) !in result
    requires LatestFirst(d, root, result) && StackMirrors(d, root, result, stack)
    requires stack' == stack[..|stack| - 1] + Unseen(d[Last(stack)], result + [Last(stack)])
    ensures AllNodes(result + [Last(stack)], |d|)
    ensures LatestFirst(d, root, result + [Last(stack)]) && StackMirrors(d, root, result + [Last(stack)], stack')
  {
    var x, base := Last(stack), stack[..|stack| - 1];
    assert stack == base + [x];
    UnseenSnoc(base, x, result);
    LatestKept(d, root, result, x);
    VisitMirrors(d, root, result, stack, stack');
  }

  /** A result that goes on past its first `k` nodes had a pushed node pending after them. */
  lemma PendingBeforeEnd(d: seq<seq<int>>, root: int, r: seq<int>, k: int)
    requires AllNodes(r, |d|) && LatestFirst(d, root, r) && 1 <= k < |r|
    ensures AllNodes(r[..k], |d|) && !Exhausted(d, root, r[..k])
  {
    assert NextIsLatestPending(d, root, r, k - 1);
  }

  /**
   * The order conditions fix the result: two results that both start at the
   * root, take the most recently pushed pending node each time and stop when
   * nothing is pending are the same list.
   */
  lemma {:induction false} LatestFirstUnique(d: seq<seq<int>>, root: int, r1: seq<int>, r2: seq<int>, k: nat)
    requires AllNodes(r1, |d|) && AllNodes(r2, |d|)
    requires |r1| > 0 && |r2| > 0 && r1[0] == root && r2[0] == root
    requires LatestFirst(d, root, r1) && LatestFirst(d, root, r2) && Exhausted(d, root, r1) && Exhausted(d, root, r2)
    requires 1 <= k <= |r1| && k <= |r2| && r1[..k] == r2[..k]
    ensures r1 == r2
    decreases |r1| - k
  {
    if k == |r1| && k == |r2| {
      assert r1 == r1[..k] && r2 == r2[..k];
    } else if k == |r1| {
      assert r1 == r2[..k];
      PendingBeforeEnd(d, root, r2, k);
      assert false;
    } else if k == |r2| {
      assert r2 == r1[..k];
      PendingBeforeEnd(d, root, r1, k);
      assert false;
    } else {
      assert NextIsLatestPending(d, root, r1, k - 1) && NextIsLatestPending(d, root, r2, k - 1);
      assert r1[..k + 1] == r1[..k] + [r1[k]] && r2[..k + 1] == r2[..k] + [r2[k]];
      LatestFirstUnique(d, root, r1, r2, k + 1);
    }
  }

  /** What each of the first three visits of the demo search pushes. */
  lemma DemoUnseen()
    ensures Unseen([1, 2, 4], [3]) == [1, 2, 4]
    ensures Unseen([0, 1, 3], [3, 4]) == [0, 1]
    ensures Unseen([0, 4, 3, 2], [3, 4, 1]) == [0, 2]
  {
    UnseenSnoc([0, 4, 3], 2, [3, 4, 1]);
    assert [0, 4, 3] + [2] == [0, 4, 3, 2];
  }

  /** A node the result must hold but whose first `k` entries do not hold it lies beyond them. */
  lemma Beyond(result: seq<int>, v: int, k: nat)
    requires v in result && k <= |result| && v !in result[..k]
    ensures |result| > k
  {
  }

  /** Every node of the demo lists is reachable from node 3. */
  lemma DemoReachable(v: int)
    requires EdgesInRange(DemoEdges(), 5) && 0 <= v < 5
    ensures Reachable(Linked(5, DemoEdges()), 3, v)
  {
    var d := Linked(5, DemoEdges());
    DemoLinked();
    assert ReachableIn(d, 3, 3, 0);
    ReachableStep(d, 3, 3, 1, 0);
    if v == 0 {
      ReachableStep(d, 3, 1, 0, 1);
    } else if v != 3 {
      ReachableStep(d, 3, 3, v, 0);
    }
  }

  /** A search that is `seen` so far, with an unseen neighbour of its last node, continues with the last such neighbour. */
  lemma NextVisited(d: seq<seq<int>>, result: seq<int>, seen: seq<int>, next: int)
    requires AllNodes(result, |d|) && DeepestFirst(d, result)
    requires 0 < |seen| < |result| && result[..|seen|] == seen
    requires Unseen(d[Last(seen)], seen) != [] && Last(Unseen(d[Last(seen)], seen)) == next
    ensures result[..|seen| + 1] == seen + [next]
  {
    assert NextIsLastUnseen(d, result, |seen| - 1);
    NextAfter(d, result, seen, next);
  }

  /** One step of `NextVisited`, from the ordering fact at the last node of `seen`. */
  lemma NextAfter(d: seq<seq<int>>, result: seq<int>, seen: seq<int>, next: int)
    requires AllNodes(result, |d|) && 0 < |seen| < |result| && result[..|seen|] == seen
    requires NextIsLastUnseen(d, result, |seen| - 1)
    requires Unseen(d[Last(seen)], seen) != [] && Last(Unseen(d[Last(seen)], seen)) == next
    ensures result[..|seen| + 1] == seen + [next]
  {
    var k := |seen|;
    assert result[k - 1] == seen[k - 1];
    assert result[k] == next;
    PrefixExtend(result, k);
  }

  /** The lists of the nodes the demo search visits first. */
  lemma DemoRows()
    ensures EdgesInRange(DemoEdges(), 5)
    ensures Linked(5, DemoEdges())[3] == [1, 2, 4]
    ensures Linked(5, DemoEdges())[4] == [0, 1, 3]
    ensures Linked(5, DemoEdges())[1] == [0, 4, 3, 2]
  {
    DemoLinked();
  }

  /** The search from node 3 must record every node of the demo lists. */
  lemma DemoAllFound(result: seq<int>)
    requires EdgesInRange(DemoEdges(), 5)
    requires forall v :: v in result <==> Reachable(Linked(5, DemoEdges()), 3, v)
    ensures 0 in result && 1 in result && 2 in result && 4 in result
  {
    DemoReachable(0);
    DemoReachable(1);
    DemoReachable(2);
    DemoReachable(4);
  }

  /** The first three steps of the demo search, each to the last unseen neighbour. */
  lemma DemoStep(result: seq<int>, seen: seq<int>, next: int)
    requires EdgesInRange(DemoEdges(), 5) && AllNodes(result, 5) && DeepestFirst(Linked(5, DemoEdges()), result)
    requires |seen| < |result| && result[..|seen|] == seen
    requires || (seen == [3] && next == 4)
             || (seen == [3, 4] && next == 1)
             || (seen == [3, 4, 1] && next == 2)
    ensures result[..|seen| + 1] == seen + [next]
  {
    DemoRows();
    DemoUnseen();
    NextVisited(Linked(5, DemoEdges()), result, seen, next);
  }

  /** A deepest-first order of the demo lists from node 3 that holds nodes 1, 2 and 4 starts 3, 4, 1, 2. */
  lemma DemoPrefix(result: seq<int>)
    requires EdgesInRange(DemoEdges(), 5)
    requires AllNodes(result, 5) && |result| > 0 && result[0] == 3
    requires 1 in result && 2 in result && 4 in result
    requires DeepestFirst(Linked(5, DemoEdges()), result)
    ensures |result| >= 4 && result[..4] == [3, 4, 1, 2]
  {
    assert result[..1] == [3];
    Beyond(result, 4, 1);
    DemoStep(result, [3], 4);
    assert result[..2] == [3, 4];
    Beyond(result, 1, 2);
    DemoStep(result, [3, 4], 1);
    assert result[..3] == [3, 4, 1];
    Beyond(result, 2, 3);
    DemoStep(result, [3, 4, 1], 2);
  }

  /** A deepest-first order of the demo lists from node 3 that holds every node once is 3, 4, 1, 2, 0. */
  lemma DemoOrder(result: seq<int>)
    requires EdgesInRange(DemoEdges(), 5)
    requires NoDuplicates(result) && AllNodes(result, 5) && |result| > 0 && result[0] == 3
    requires 0 in result && 1 in result && 2 in result && 4 in result
    requires DeepestFirst(Linked(5, DemoEdges()), result)
    ensures result == [3, 4, 1, 2, 0]
  {
    DistinctBounded(result, 5);
    DemoPrefix(result);
    Beyond(result, 0, 4);
    assert result == result[..4] + [result[4]];
  }

  /**
   * The `__main__` search from node 3 of `Graph(5, DemoEdges())`: the
   * contract of the search leaves only the order 3, 4, 1, 2, 0.
   */
  lemma DemoSearch(result: seq<int>)
    requires EdgesInRange(DemoEdges(), 5)
    requires NoDuplicates(result) && AllNodes(result, 5) && |result| > 0 && result[0] == 3
    requires forall v :: v in result <==> Reachable(Linked(5, DemoEdges()), 3, v)
    requires DeepestFirst(Linked(5, DemoEdges()), result)
    ensures result == [3, 4, 1, 2, 0]
  {
    DemoAllFound(result);
    DemoOrder(result);
  }

  /** A star with centre 0, whose three leaves are all pushed by the first visit. */
  function StarEdges(): seq<Edge>
  {
    [Edge(0, 1), Edge(0, 2), Edge(0, 3)]
  }

  /** The lists `Graph(4, StarEdges())` builds. */
  lemma StarLinked()
    ensures EdgesInRange(StarEdges(), 4) && Linked(4, StarEdges()) == [[1, 2, 3], [0], [0], [0]]
  {
    var edges := StarEdges();
    assert EdgesInRange(edges, 4);
    LinkedAt(4, edges, 0);
    LinkedAt(4, edges, 1);
    LinkedAt(4, edges, 2);
    LinkedAt(4, edges, 3);
    assert Neighbours(edges, 0) == [1, 2, 3];
    assert Neighbours(edges, 1) == [0] && Neighbours(edges, 2) == [0] && Neighbours(edges, 3) == [0];
    var lists := Linked(4, edges);
    assert lists == [lists[0], lists[1], lists[2], lists[3]];
  }

  /** A list none of whose entries is seen is pushed whole. */
  lemma {:induction false} UnseenKeepsAll(ns: seq<int>, seen: seq<int>)
    requires forall x :: x in ns ==> x !in seen
    ensures Unseen(ns, seen) == ns
  {
    if ns != [] {
      var init, y := ns[..|ns| - 1], ns[|ns| - 1];
      assert init + [y] == ns;
      assert forall x :: x in init ==> x in ns;
      assert y in ns;
      UnseenKeepsAll(init, seen);
      assert Unseen(ns, seen) == Unseen(init, seen) + [y];
    }
  }

  /** A list all of whose entries are seen pushes nothing. */
  lemma {:induction false} UnseenDropsAll(ns: seq<int>, seen: seq<int>)
    requires forall x :: x in ns ==> x in seen
    ensures Unseen(ns, seen) == []
  {
    if ns != [] {
      var init, y := ns[..|ns| - 1], ns[|ns| - 1];
      assert forall x :: x in init ==> x in ns;
      assert y in ns;
      UnseenDropsAll(init, seen);
      assert Unseen(ns, seen) == Unseen(init, seen);
    }
  }

  /** Every node the star search from 0 pushes, whichever of its visits have happened. */
  lemma StarPushes(d: seq<seq<int>>, r: seq<int>, x: int)
    requires d == [[1, 2, 3], [0], [0], [0]] && AllNodes(r, 4) && 0 <= x < 4
    requires 0 in r && Pushes(d, 0, r) == [0, 1, 2, 3] && x != 0
    ensures AllNodes(r + [x], 4) && Pushes(d, 0, r + [x]) == [0, 1, 2, 3]
  {
    PushesSnoc(d, 0, r, x);
    assert d[x] == [0];
    UnseenDropsAll(d[x], r + [x]);
  }

  /** After the first visit of the star search from 0, all of 1, 2, 3 are pushed. */
  lemma StarFirst(d: seq<seq<int>>)
    requires d == [[1, 2, 3], [0], [0], [0]]
    ensures AllNodes([0], 4) && Pushes(d, 0, [0]) == [0, 1, 2, 3]
  {
    PushesSnoc(d, 0, [], 0);
    assert [] + [0] == [0];
    UnseenKeepsAll(d[0], [0]);
  }

  /** Scanning the pushes `[0, 1, 2, 3]` with 0 visited keeps 1, 2 and 3 exactly when unvisited. */
  lemma StarUnseen(seen: seq<int>)
    requires 0 in seen
    ensures Unseen([0, 1, 2, 3], seen)
         == (if 1 in seen then [] else [1]) + (if 2 in seen then [] else [2]) + (if 3 in seen then [] else [3])
  {
    UnseenSnoc([], 0, seen);
    assert [] + [0] == [0];
    UnseenSnoc([0], 1, seen);
    assert [0] + [1] == [0, 1];
    UnseenSnoc([0, 1], 2, seen);
    assert [0, 1] + [2] == [0, 1, 2];
    UnseenSnoc([0, 1, 2], 3, seen);
    assert [0, 1, 2] + [3] == [0, 1, 2, 3];
  }

  /** The pending pushed nodes, in order, once `seen` is visited. */
  lemma StarPending(s: seq<int>, seen: seq<int>, pending: seq<int>)
    requires s == [0, 1, 2, 3] && 0 in seen
    requires forall x :: x in pending <==> x in s && x !in seen
    requires pending == [] || pending == [1] || pending == [1, 2] || pending == [1, 2, 3]
    ensures Unseen(s, seen) == pending
  {
    StarUnseen(seen);
    assert 1 in s && 2 in s && 3 in s;
    assert (1 in pending <==> 1 !in seen) && (2 in pending <==> 2 !in seen) && (3 in pending <==> 3 !in seen);
  }

  /** Every visit of the star search from 0 after the first pushes nothing new. */
  lemma StarAllPushes(d: seq<seq<int>>)
    requires d == [[1, 2, 3], [0], [0], [0]]
    ensures AllNodes([0, 3, 2, 1], 4)
    ensures Pushes(d, 0, [0]) == [0, 1, 2, 3] && Pushes(d, 0, [0, 3]) == [0, 1, 2, 3]
    ensures Pushes(d, 0, [0, 3, 2]) == [0, 1, 2, 3] && Pushes(d, 0, [0, 3, 2, 1]) == [0, 1, 2, 3]
  {
    StarFirst(d);
    StarPushes(d, [0], 3);
    assert [0] + [3] == [0, 3];
    StarPushes(d, [0, 3], 2);
    assert [0, 3] + [2] == [0, 3, 2];
    StarPushes(d, [0, 3, 2], 1);
    assert [0, 3, 2] + [1] == [0, 3, 2, 1];
  }

  // Each position of `[0, 3, 2, 1]` is followed by the most recently pushed pending node.

  lemma StarNext0(d: seq<seq<int>>)
    requires d == [[1, 2, 3], [0], [0], [0]]
    ensures AllNodes([0, 3, 2, 1], |d|) && NextIsLatestPending(d, 0, [0, 3, 2, 1], 0)
  {
    StarAllPushes(d);
    assert [0, 3, 2, 1][..1] == [0];
    StarPending([0, 1, 2, 3], [0], [1, 2, 3]);
  }

  lemma StarNext1(d: seq<seq<int>>)
    requires d == [[1, 2, 3], [0], [0], [0]]
    ensures AllNodes([0, 3, 2, 1], |d|) && NextIsLatestPending(d, 0, [0, 3, 2, 1], 1)
  {
    StarAllPushes(d);
    assert [0, 3, 2, 1][..2] == [0, 3];
    StarPending([0, 1, 2, 3], [0, 3], [1, 2]);
  }

  lemma StarNext2(d: seq<seq<int>>)
    requires d == [[1, 2, 3], [0], [0], [0]]
    ensures AllNodes([0, 3, 2, 1], |d|) && NextIsLatestPending(d, 0, [0, 3, 2, 1], 2)
  {
    StarAllPushes(d);
    assert [0, 3, 2, 1][..3] == [0, 3, 2];
    StarPending([0, 1, 2, 3], [0, 3, 2], [1]);
  }

  /** Once `[0, 3, 2, 1]` is visited nothing pushed is pending. */
  lemma StarExhausted(d: seq<seq<int>>)
    requires d == [[1, 2, 3], [0], [0], [0]]
    ensures AllNodes([0, 3, 2, 1], |d|) && Exhausted(d, 0, [0, 3, 2, 1])
  {
    StarAllPushes(d);
    StarPending([0, 1, 2, 3], [0, 3, 2, 1], []);
  }

  /** The order `[0, 3, 2, 1]` meets the conditions of the search on the star from 0. */
  lemma StarOrder(d: seq<seq<int>>)
    requires d == [[1, 2, 3], [0], [0], [0]]
    ensures AllNodes([0, 3, 2, 1], |d|) && LatestFirst(d, 0, [0, 3, 2, 1]) && Exhausted(d, 0, [0, 3, 2, 1])
  {
    StarExhausted(d);
    StarNext0(d);
    StarNext1(d);
    StarNext2(d);
  }

  /**
   * On the star, after visiting 0 and then 3, which has nothing new to push,
   * the search takes 2, pushed after 1, and then 1: the contract leaves only
   * `[0, 3, 2, 1]`, not `[0, 3, 1, 2]`.
   */
  lemma StarSearch(result: seq<int>)
    requires EdgesInRange(StarEdges(), 4)
    requires AllNodes(result, 4) && |result| > 0 && result[0] == 0
    requires LatestFirst(Linked(4, StarEdges()), 0, result) && Exhausted(Linked(4, StarEdges()), 0, result)
    ensures result == [0, 3, 2, 1]
  {
    StarLinked();
    var d := Linked(4, StarEdges());
    StarOrder(d);
    assert result[..1] == [0, 3, 2, 1][..1];
    LatestFirstUnique(d, 0, result, [0, 3, 2, 1], 1);
  }

  class Graph {
    const numberOfNodes: nat
    var data: seq<seq<int>>

    ghost predicate Valid()
      reads this
    {
      WellFormed(data, numberOfNodes)
    }

    /** `Graph(number_of_nodes, edges)`: each edge appended at both ends, in list order. */
    constructor (numberOfNodes: nat, edges: seq<Edge>)
      requires EdgesInRange(edges, numberOfNodes)
      ensures Valid() && this.numberOfNodes == numberOfNodes
      ensures data == Linked(numberOfNodes, edges) && Symmetric(data)
    {
      this.numberOfNodes := numberOfNodes;
      data := seq(numberOfNodes, _ => []);
      new;
      var k := 0;
      while k < |edges|
        invariant 0 <= k <= |edges|
        invariant data == Linked(numberOfNodes, edges[..k])
      {
        var n1, n2 := edges[k].n1, edges[k].n2;
        data := data[n1 := data[n1] + [n2]];
        data := data[n2 := data[n2] + [n1]];
        assert edges[..k + 1][..k] == edges[..k];
        k := k + 1;
      }
      assert edges[..k] == edges;
      LinkedValid(numberOfNodes, edges);
    }

    /**
     * The `for` loop of one visit: every neighbour of `current` that is not
     * yet discovered is pushed, in list order.
     */
    method PushUnseen(current: int, stack: seq<int>, discovered: seq<bool>, ghost result: seq<int>) returns (stack': seq<int>)
      requires Valid() && 0 <= current < numberOfNodes && |discovered| == numberOfNodes
      requires forall v :: 0 <= v < numberOfNodes ==> (discovered[v] <==> v in result)
      ensures stack' == stack + Unseen(data[current], result)
    {
      stack' := stack;
      var j := 0;
      while j < |data[current]|
        invariant 0 <= j <= |data[current]|
        invariant stack' == stack + Unseen(data[current][..j], result)
      {
        var node := data[current][j];
        assert data[current][..j + 1] == data[current][..j] + [node];
        UnseenSnoc(data[current][..j], node, result);
        if !discovered[node] {
          stack' := stack' + [node];
        }
        j := j + 1;
      }
      assert data[current][..j] == data[current];
    }

    /**
     * `depth_first_search(root)`: the nodes reachable from `root`, each once,
     * root first, each later one a neighbour of an earlier one. Each node
     * after the root is the most recently pushed node not yet visited, which
     * is the last unseen neighbour of the node before it when there is one,
     * and the search ends when nothing pushed is pending; `LatestFirstUnique`
     * shows this fixes the result. `pops` counts the loop's iterations,
     * bounded by one plus the visited nodes' degrees.
     */
    method DepthFirstSearch(root: int) returns (result: seq<int>, ghost pops: nat)
      requires Valid() && 0 <= root < numberOfNodes
      ensures NoDuplicates(result) && AllNodes(result, numberOfNodes)
      ensures |result| > 0 && result[0] == root
      ensures forall k :: 0 < k < |result| ==> exists j :: 0 <= j < k && result[k] in data[result[j]]
      ensures forall v :: v in result <==> Reachable(data, root, v)
      ensures DeepestFirst(data, result)
      ensures LatestFirst(data, root, result) && Exhausted(data, root, result)
      ensures pops <= 1 + Degrees(data, result)
    {
      var n := |data|;
      var stack := [root];
      var discovered := seq(n, _ => false);
      result := [];
      ghost var from: seq<int> := [-1];
      ghost var via: seq<int> := [];
      pops := 0;
      while |stack| > 0
        invariant Recorded(data, root, n, result, discovered, via)
        invariant Pending(data, root, result, stack, from)
        invariant pops + |stack| <= 1 + Degrees(data, result)
        invariant LatestFirst(data, root, result) && StackMirrors(data, root, result, stack)
        decreases n - |result|, |stack|
      {
        ghost var result0, discovered0, via0, stack0, from0 := result, discovered, via, stack, from;
        var current := stack[|stack| - 1];
        stack := stack[..|stack| - 1];
        from := from[..|from| - 1];
        if !discovered[current] {
          discovered := discovered[current := true];
          result := result + [current];
          via := via + [from0[|from0| - 1]];
          ghost var base := stack;
          stack := PushUnseen(current, stack, discovered, result);
          from := from + seq(|stack| - |base|, _ => |result0|);
          Visit(data, root, n, result0, discovered0, via0, stack0, from0, pops, result, discovered, via, stack, from);
          VisitLatest(data, root, result0, stack0, stack);
        } else {
          Pop(data, root, result, stack0, from0, pops);
          PopMirrors(data, root, result, stack0);
        }
        pops := pops + 1;
      }
      Complete(data, root, n, result, discovered, via, stack, from);
    }
  }

  /** The `__main__` block run on the class: the search from node 3 visits `[3, 4, 1, 2, 0]`. */
  method DemoMain() returns (result: seq<int>)
    ensures result == [3, 4, 1, 2, 0]
  {
    DemoLinked();
    var g1 := new Graph(5, DemoEdges());
    ghost var pops;
    result, pops := g1.DepthFirstSearch(3);
    DemoSearch(result);
  }

  /**
   * A search on a star with centre 0: after 3, which pushes nothing new, the
   * search pops 2 before 1.
   */
  method StarMain() returns (result: seq<int>)
    ensures result == [0, 3, 2, 1]
  {
    StarLinked();
    var g := new Graph(4, StarEdges());
    ghost var pops;
    result, pops := g.DepthFirstSearch(0);
    StarSearch(result);
  }
}
