/** Directed graphs given as adjacency lists, as the traversal programs keep
    them: a dictionary from a vertex to the list of its successors, in the
    order the edges were added.  A vertex without an entry has no
    successors (the programs read the lists through a `defaultdict(list)`). */
module Graphs {

  type Adjacency = map<int, seq<int>>

  /** The successor list of `u`, empty when `u` has no entry. */
  function Succ(adj: Adjacency, u: int): seq<int>
  {
    if u in adj then adj[u] else []
  }

  /** The graph after adding edge `u -> v` at the end of `u`'s list. */
  function WithEdge(adj: Adjacency, u: int, v: int): (adj': Adjacency)
    ensures adj'.Keys == adj.Keys + {u}
    ensures Succ(adj', u) == Succ(adj, u) + [v]
    ensures forall w :: w != u ==> Succ(adj', w) == Succ(adj, w)
  {
    adj[u := Succ(adj, u) + [v]]
  }

  /** Every vertex that has a list or occurs in one. */
  function Vertices(adj: Adjacency): (vs: set<int>)
    ensures forall u, v :: u in adj && v in Succ(adj, u) ==> v in vs
  {
    adj.Keys + set u, k | u in adj && 0 <= k < |adj[u]| :: adj[u][k]
  }

  /** `p` follows edges of the graph from its first to its last vertex. */
  ghost predicate IsWalk(adj: Adjacency, p: seq<int>)
  {
    |p| >= 1 && forall i :: 0 <= i < |p| - 1 ==> p[i + 1] in Succ(adj, p[i])
  }

  /** A walk from `s` to `v` with `n` edges exists. */
  ghost predicate ReachableIn(adj: Adjacency, s: int, v: int, n: nat)
  {
    exists p :: IsWalk(adj, p) && |p| == n + 1 && p[0] == s && p[|p| - 1] == v
  }

  ghost predicate Reachable(adj: Adjacency, s: int, v: int)
  {
    exists n: nat :: ReachableIn(adj, s, v, n)
  }

  lemma ReachableSelf(adj: Adjacency, s: int)
    ensures ReachableIn(adj, s, s, 0) && Reachable(adj, s, s)
  {
    assert IsWalk(adj, [s]);
    assert ReachableIn(adj, s, s, 0);
  }

  /** Extending a walk by one edge. */
  lemma ReachableStep(adj: Adjacency, s: int, u: int, v: int, n: nat)
    requires ReachableIn(adj, s, u, n) && v in Succ(adj, u)
    ensures ReachableIn(adj, s, v, n + 1) && Reachable(adj, s, v)
  {
    var p :| IsWalk(adj, p) && |p| == n + 1 && p[0] == s && p[|p| - 1] == u;
    var q := p + [v];
    assert forall i :: 0 <= i < |q| - 1 ==> q[i] == p[i];
    assert IsWalk(adj, q);
    assert ReachableIn(adj, s, v, n + 1);
  }

  /** Prepending an edge to a walk. */
  lemma ReachablePrepend(adj: Adjacency, s: int, u: int, t: int, n: nat)
    requires u in Succ(adj, s) && ReachableIn(adj, u, t, n)
    ensures ReachableIn(adj, s, t, n + 1)
  {
    var p :| IsWalk(adj, p) && |p| == n + 1 && p[0] == u && p[|p| - 1] == t;
    var q := [s] + p;
    assert forall i :: 0 < i < |q| ==> q[i] == p[i - 1];
    assert IsWalk(adj, q);
  }

  /** A walk with at least one edge leaves through a successor of its start. */
  lemma ReachableFirstStep(adj: Adjacency, s: int, t: int, n: nat) returns (u: int)
    requires ReachableIn(adj, s, t, n) && n > 0
    ensures u in Succ(adj, s) && ReachableIn(adj, u, t, n - 1)
  {
    var p :| IsWalk(adj, p) && |p| == n + 1 && p[0] == s && p[|p| - 1] == t;
    u := p[1];
    var q := p[1..];
    assert forall i :: 0 <= i < |q| ==> q[i] == p[i + 1];
    assert IsWalk(adj, q);
  }

  /** A set is closed when it holds every successor of each of its vertices. */
  ghost predicate Closed(adj: Adjacency, vs: set<int>)
  {
    forall u, v :: u in vs && v in Succ(adj, u) ==> v in vs
  }

  /** The vertices of the graph, with any extra vertices, form a closed set. */
  lemma VerticesClosed(adj: Adjacency, extra: set<int>)
    ensures Closed(adj, Vertices(adj) + extra)
  {
    forall u, v | u in Vertices(adj) + extra && v in Succ(adj, u)
      ensures v in Vertices(adj) + extra
    {
      assert u in adj;
    }
  }

  /** Growing a set shrinks what is left of a finite universe, strictly
      when it grows strictly. */
  lemma ShrinkingRest(universe: set<int>, a: set<int>, b: set<int>)
    requires a <= b <= universe
    ensures |universe - b| <= |universe - a|
    ensures a != b ==> |universe - b| < |universe - a|
  {
    assert universe - a == (universe - b) + (b - a);
    assert (universe - b) * (b - a) == {};
    if a != b {
      assert b - a != {};
    }
  }

  /** A walk that starts in a closed set stays in it. */
  lemma {:induction false} ClosedHoldsWalk(adj: Adjacency, vs: set<int>, p: seq<int>, i: nat)
    requires Closed(adj, vs) && IsWalk(adj, p) && p[0] in vs && i < |p|
    ensures p[i] in vs
  {
    if i > 0 {
      ClosedHoldsWalk(adj, vs, p, i - 1);
      ClosedStep(adj, vs, p[i - 1], p[i]);
    }
  }

  lemma ClosedStep(adj: Adjacency, vs: set<int>, u: int, v: int)
    requires Closed(adj, vs) && u in vs && v in Succ(adj, u)
    ensures v in vs
  {
  }

  /** A closed set that holds the start holds everything reachable from it. */
  lemma ClosedHoldsReachable(adj: Adjacency, vs: set<int>, s: int, v: int)
    requires Closed(adj, vs) && s in vs && Reachable(adj, s, v)
    ensures v in vs
  {
    var n: nat :| ReachableIn(adj, s, v, n);
    var p :| IsWalk(adj, p) && |p| == n + 1 && p[0] == s && p[|p| - 1] == v;
    ClosedHoldsWalk(adj, vs, p, n);
  }

  /** Every vertex reached in at least one step is a vertex of the graph. */
  lemma ReachableIsVertex(adj: Adjacency, s: int, v: int, n: nat)
    requires ReachableIn(adj, s, v, n) && n > 0
    ensures v in Vertices(adj)
  {
    var p :| IsWalk(adj, p) && |p| == n + 1 && p[0] == s && p[|p| - 1] == v;
    assert p[n] in Succ(adj, p[n - 1]);
  }

  /** Reachability through a walk of known length. */
  lemma ReachableInIsReachable(adj: Adjacency, s: int, v: int, n: nat)
    requires ReachableIn(adj, s, v, n)
    ensures Reachable(adj, s, v)
  {
  }

  /** `n` is the length of a shortest walk from `s` to `v`. */
  ghost predicate Shortest(adj: Adjacency, s: int, v: int, n: nat)
  {
    ReachableIn(adj, s, v, n) && forall k: nat :: k < n ==> !ReachableIn(adj, s, v, k)
  }

  /** `d` labels a closed set of vertices so that following an edge raises
      the label by at most one. */
  ghost predicate Layered(adj: Adjacency, vs: set<int>, d: map<int, nat>)
  {
    vs <= d.Keys && Closed(adj, vs) &&
    forall u, w :: u in vs && w in Succ(adj, u) ==> w in d && d[w] <= d[u] + 1
  }

  lemma LayeredStep(adj: Adjacency, vs: set<int>, d: map<int, nat>, u: int, w: int)
    requires Layered(adj, vs, d) && u in vs && w in Succ(adj, u)
    ensures w in vs && d[w] <= d[u] + 1
  {
  }

  /** Along a walk from a vertex labelled 0, the label of the `i`-th vertex is at most `i`. */
  lemma {:induction false} LayeredBoundsWalk(adj: Adjacency, vs: set<int>, d: map<int, nat>, p: seq<int>, i: nat)
    requires Layered(adj, vs, d) && IsWalk(adj, p) && p[0] in vs && d[p[0]] == 0 && i < |p|
    ensures p[i] in vs && d[p[i]] <= i
  {
    if i > 0 {
      LayeredBoundsWalk(adj, vs, d, p, i - 1);
      LayeredStep(adj, vs, d, p[i - 1], p[i]);
    }
  }

  /** A layered labelling that starts at 0 and is realised by walks gives
      the shortest walk lengths. */
  lemma LayeredIsShortest(adj: Adjacency, vs: set<int>, d: map<int, nat>, s: int, v: int)
    requires Layered(adj, vs, d) && s in vs && d[s] == 0 && v in vs && ReachableIn(adj, s, v, d[v])
    ensures Shortest(adj, s, v, d[v])
  {
    forall k: nat | ReachableIn(adj, s, v, k)
      ensures d[v] <= k
    {
      var p :| IsWalk(adj, p) && |p| == k + 1 && p[0] == s && p[|p| - 1] == v;
      LayeredBoundsWalk(adj, vs, d, p, k);
    }
  }

  /** Every element after the first is a successor of an element before it. */
  ghost predicate Discovered(adj: Adjacency, order: seq<int>)
  {
    forall i :: 0 < i < |order| ==> HasEarlier(adj, order, i)
  }

  /** `order[i]` is a successor of some element before it. */
  ghost predicate HasEarlier(adj: Adjacency, order: seq<int>, i: int)
    requires 0 <= i < |order|
  {
    exists j :: 0 <= j < i && order[i] in Succ(adj, order[j])
  }

  /** Appending a discovered sequence whose head is a successor of an element
      of the first keeps the whole discovered. */
  lemma DiscoveredAppend(adj: Adjacency, a: seq<int>, b: seq<int>, k: nat)
    requires Discovered(adj, a) && Discovered(adj, b)
    requires k < |a| && |b| > 0 && b[0] in Succ(adj, a[k])
    ensures Discovered(adj, a + b)
  {
    var ab := a + b;
    forall i | 0 < i < |ab|
      ensures HasEarlier(adj, ab, i)
    {
      if i < |a| {
        assert HasEarlier(adj, a, i);
        var j :| 0 <= j < i && a[i] in Succ(adj, a[j]);
        assert ab[i] in Succ(adj, ab[j]);
      } else if i == |a| {
        assert ab[i] in Succ(adj, ab[k]);
      } else {
        assert HasEarlier(adj, b, i - |a|);
        var j :| 0 <= j < i - |a| && b[i - |a|] in Succ(adj, b[j]);
        assert ab[i] in Succ(adj, ab[|a| + j]);
      }
    }
  }

  /** A discovered sequence lists only vertices reachable from its head. */
  lemma {:induction false} DiscoveredReachable(adj: Adjacency, order: seq<int>, i: nat)
    requires Discovered(adj, order) && i < |order|
    ensures Reachable(adj, order[0], order[i])
    decreases i
  {
    if i == 0 {
      ReachableSelf(adj, order[0]);
    } else {
      assert HasEarlier(adj, order, i);
      var j :| 0 <= j < i && order[i] in Succ(adj, order[j]);
      DiscoveredReachable(adj, order, j);
      ReachableExtend(adj, order[0], order[j], order[i]);
    }
  }

  /** Extending a reachable vertex by one edge. */
  lemma ReachableExtend(adj: Adjacency, s: int, u: int, v: int)
    requires Reachable(adj, s, u) && v in Succ(adj, u)
    ensures Reachable(adj, s, v)
  {
    var n: nat :| ReachableIn(adj, s, u, n);
    ReachableStep(adj, s, u, v, n);
  }

  /** No element occurs twice. */
  predicate Distinct(s: seq<int>)
  {
    forall i, j :: 0 <= i < j < |s| ==> s[i] != s[j]
  }

  lemma DistinctConcat(a: seq<int>, b: seq<int>)
    requires Distinct(a) && Distinct(b) && forall v :: v in b ==> v !in a
    ensures Distinct(a + b)
  {
    forall i, j | 0 <= i < j < |a + b|
      ensures (a + b)[i] != (a + b)[j]
    {
      if j < |a| {
        assert (a + b)[i] == a[i] && (a + b)[j] == a[j];
      } else if i < |a| {
        assert (a + b)[j] == b[j - |a|] && (a + b)[i] == a[i];
        assert b[j - |a|] in b;
      } else {
        assert (a + b)[j] == b[j - |a|] && (a + b)[i] == b[i - |a|];
      }
    }
  }
}
