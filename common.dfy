// Small helpers shared by the graph modules: Python's `None`, duplicate-free
// lists and the pigeonhole bound on lists of node numbers.
module Common {

  /** Python's `None` or a value. */
  datatype Option<T> = None | Some(value: T)

  /** No element of `s` occurs twice. */
  predicate NoDuplicates(s: seq<int>)
  {
    forall i, j :: 0 <= i < j < |s| ==> s[i] != s[j]
  }

  /** Every element of `s` names one of the nodes `0 .. n-1`. */
  predicate AllNodes(s: seq<int>, n: int)
  {
    forall i :: 0 <= i < |s| ==> 0 <= s[i] < n
  }

  function Elements(s: seq<int>): set<int>
  {
    set x | x in s
  }

  /** Python's `set(range(n))`. */
  function NodeSet(n: nat): (r: set<int>)
    ensures forall i :: i in r <==> 0 <= i < n
  {
    if n == 0 then {} else NodeSet(n - 1) + {n - 1}
  }

  lemma {:induction false} DistinctElements(s: seq<int>)
    requires NoDuplicates(s)
    ensures |Elements(s)| == |s|
  {
    if s != [] {
      var t := s[..|s| - 1];
      assert s == t + [s[|s| - 1]];
      assert Elements(s) == Elements(t) + {s[|s| - 1]};
      DistinctElements(t);
    }
  }

  lemma {:induction false} NodeSetSize(n: nat)
    ensures |NodeSet(n)| == n
  {
    if n > 0 {
      NodeSetSize(n - 1);
    }
  }

  /** A list of distinct node numbers below `n` holds at most `n` nodes. */
  lemma DistinctBounded(s: seq<int>, n: nat)
    requires NoDuplicates(s) && AllNodes(s, n)
    ensures |s| <= n
  {
    var e, r := Elements(s), NodeSet(n);
    DistinctElements(s);
    NodeSetSize(n);
    assert e <= r;
    assert r == e + (r - e);
    assert |r| == |e| + |r - e|;
  }

  /** A set of node numbers below `n` has at most `n` members. */
  lemma SubsetBounded(s: set<int>, n: nat)
    requires forall x :: x in s ==> 0 <= x < n
    ensures |s| <= n
  {
    var r := NodeSet(n);
    NodeSetSize(n);
    assert r == s + (r - s);
    assert |r| == |s| + |r - s|;
  }

  /** A five-element sequence given element by element. */
  lemma Five<T>(s: seq<T>, a: T, b: T, c: T, d: T, e: T)
    requires |s| == 5 && s[0] == a && s[1] == b && s[2] == c && s[3] == d && s[4] == e
    ensures s == [a, b, c, d, e]
  {
  }

  /** A six-element sequence given element by element. */
  lemma Six<T>(s: seq<T>, a: T, b: T, c: T, d: T, e: T, f: T)
    requires |s| == 6 && s[0] == a && s[1] == b && s[2] == c && s[3] == d && s[4] == e && s[5] == f
    ensures s == [a, b, c, d, e, f]
  {
  }

  /** A prefix one longer is the shorter prefix and the next element. */
  lemma PrefixExtend<T>(s: seq<T>, k: int)
    requires 0 <= k < |s|
    ensures s[..k + 1] == s[..k] + [s[k]]
  {
  }
}
