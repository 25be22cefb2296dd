/** Recursive depth-first traversal of a directed graph kept as adjacency
    lists.  The traversal's printed output is modelled as the returned visit
    order, and the shared `visited` set as a value threaded in and out of
    each call. */
module DepthFirst {
  import opened Graphs

  /** A graph whose adjacency lists grow as edges are added. */
  class Graph {
    var adj: Adjacency

    constructor()
      ensures adj == map[]
    {
      adj := map[];
    }

    /** Appends `v` to the end of `u`'s list; every other list is unchanged. */
    method AddEdge(u: int, v: int)
      modifies this
      ensures adj == WithEdge(old(adj), u, v)
    {
      adj := adj[u := Succ(adj, u) + [v]];
    }

    /** Marks `vertex`, then recurs on each successor that is not yet marked,
        in list order.  The vertices marked by this call are exactly those
        in `order`; `order` starts with `vertex`, lists no vertex twice and
        none that was marked before the call (after `vertex` itself), every
        later vertex is a successor of an earlier one, and every successor
        of a listed vertex ends up marked.  `universe` is a closed set of
        vertices that bounds the recursion. */
    method DfsUtil(vertex: int, visited0: set<int>, ghost universe: set<int>)
      returns (visited: set<int>, order: seq<int>)
      requires Closed(adj, universe) && vertex in universe && visited0 <= universe
      ensures Explored(adj, vertex, visited0, universe, visited, order)
      ensures forall w :: w in Succ(adj, vertex) ==> w in visited
      decreases |universe - visited0|, if vertex in visited0 then 1 else 0
    {
      visited := visited0 + {vertex};
      order := [vertex];
      var ns := Succ(adj, vertex);
      for k := 0 to |ns|
        invariant Explored(adj, vertex, visited0, universe, visited, order)
        invariant forall j :: 0 <= j < k ==> ns[j] in visited
      {
        var w := ns[k];
        if w !in visited {
          ShrinkingRest(universe, visited0, visited);
          var visited', sub := DfsUtil(w, visited, universe);
          VisitKeepsExplored(adj, vertex, visited0, universe, visited, order, w, visited', sub);
          visited, order := visited', order + sub;
        }
      }
    }

    /** Visits exactly the vertices reachable from `start`, each once,
        `start` first, every later one a successor of an earlier one. */
    method Dfs(start: int) returns (order: seq<int>)
      ensures |order| >= 1 && order[0] == start
      ensures Distinct(order)
      ensures Discovered(adj, order)
      ensures forall v :: v in order <==> Reachable(adj, start, v)
    {
      ghost var universe := Vertices(adj) + {start};
      VerticesClosed(adj, {start});
      var visited;
      visited, order := DfsUtil(start, {}, universe);
      assert Closed(adj, visited) by {
        forall u, w | u in visited && w in Succ(adj, u)
          ensures w in visited
        {
          var i :| 0 <= i < |order| && order[i] == u;
        }
      }
      forall v | Reachable(adj, start, v)
        ensures v in order
      {
        ClosedHoldsReachable(adj, visited, start, v);
      }
      forall v | v in order
        ensures Reachable(adj, start, v)
      {
        var i :| 0 <= i < |order| && order[i] == v;
        DiscoveredReachable(adj, order, i);
      }
    }
  }

  /** What a call on `vertex` has done so far, starting from the marked set
      `visited0`: the marked set is `visited0` plus the listed vertices,
      `order` starts with `vertex` and lists no vertex twice, the vertices
      after `vertex` were unmarked before, each listed vertex is a
      successor of an earlier one, and each listed vertex after `vertex`
      has all its successors marked. */
  ghost predicate Explored(adj: Adjacency, vertex: int, visited0: set<int>, universe: set<int>,
                           visited: set<int>, order: seq<int>)
  {
    |order| >= 1 && order[0] == vertex && visited0 <= visited <= universe &&
    (forall v :: v in visited <==> v in visited0 || v in order) &&
    Distinct(order) && (forall i :: 1 <= i < |order| ==> order[i] !in visited0) &&
    Discovered(adj, order) &&
    (forall i, w :: 1 <= i < |order| && w in Succ(adj, order[i]) ==> w in visited)
  }

  /** Appending the vertices listed by a call on an unmarked successor
      `w` keeps the state of the caller. */
  lemma VisitKeepsExplored(adj: Adjacency, vertex: int, visited0: set<int>, universe: set<int>,
                           visited: set<int>, order: seq<int>, w: int, visited': set<int>, sub: seq<int>)
    requires Explored(adj, vertex, visited0, universe, visited, order)
    requires w in Succ(adj, vertex) && w !in visited
    requires Explored(adj, w, visited, universe, visited', sub)
    requires forall x :: x in Succ(adj, w) ==> x in visited'
    ensures Explored(adj, vertex, visited0, universe, visited', order + sub)
  {
    var order' := order + sub;
    DiscoveredAppend(adj, order, sub, 0);
    forall i, j | 0 <= i < j < |order'|
      ensures order'[i] != order'[j]
    {
      if j >= |order| && i < |order| {
        assert order'[i] in visited;
        if j == |order| {
          assert order'[j] == w;
        } else {
          assert order'[j] == sub[j - |order|];
        }
      } else if j >= |order| {
        assert order'[i] == sub[i - |order|] && order'[j] == sub[j - |order|];
      } else {
        assert order'[i] == order[i] && order'[j] == order[j];
      }
    }
    forall i | 1 <= i < |order'|
      ensures order'[i] !in visited0
    {
      if i >= |order| {
        assert order'[i] == sub[i - |order|];
        if i > |order| {
          assert sub[i - |order|] !in visited;
        }
      } else {
        assert order'[i] == order[i];
      }
    }
    forall i, x | 1 <= i < |order'| && x in Succ(adj, order'[i])
      ensures x in visited'
    {
      if i < |order| {
        assert order'[i] == order[i];
      } else if i > |order| {
        assert order'[i] == sub[i - |order|];
      }
    }
    forall v | v in visited'
      ensures v in visited0 || v in order'
    {
      if v !in visited && v !in visited0 {
        var j :| 0 <= j < |sub| && sub[j] == v;
        assert order'[|order| + j] == v;
      }
    }
  }
}
