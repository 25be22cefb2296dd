/** Breadth-first traversal of a directed graph kept as adjacency lists.
    The traversal's printed output is modelled as the returned visit order. */
module BreadthFirst {
  import opened Graphs

  /** A graph whose adjacency lists grow as edges are added. */
  class Graph {
    var adj: Adjacency

    constructor()
      ensures adj == map[]
    {
      adj := map[];
    }

    /** Appends `v` to the end of `u`'s list; every other list is unchanged. */
    method AddEdge(u: int, v: int)
      modifies this
      ensures adj == WithEdge(old(adj), u, v)
    {
      adj := adj[u := Succ(adj, u) + [v]];
    }

    /** Visits every vertex reachable from `start` exactly once, in
        non-decreasing order of distance from `start`.  The ghost `dist`
        gives that distance for each visited vertex. */
    method Bfs(start: int) returns (order: seq<int>, ghost dist: map<int, nat>)
      ensures |order| >= 1 && order[0] == start
      ensures Distinct(order)
      ensures forall v :: v in order <==> Reachable(adj, start, v)
      ensures forall v :: v in order ==> v in dist && Shortest(adj, start, v, dist[v])
      ensures forall i, j :: 0 <= i < j < |order| ==> dist[order[i]] <= dist[order[j]]
    {
      var visited: set<int> := {start};
      var queue: seq<int> := [start];
      order := [];
      dist := map[start := 0];
      ghost var universe := Vertices(adj) + {start};
      SearchStart(adj, start, universe);
      while |queue| > 0
        invariant Searching(adj, start, universe, order, queue, visited, dist)
        decreases |universe - visited|, |queue|
      {
        var vertex := queue[0];
        DequeueReady(adj, start, universe, order, queue, visited, dist);
        var visited', queue', dist' := VisitNeighbours(adj, start, vertex, order + [vertex], visited, queue[1..], dist);
        ExpandKeeps(adj, start, universe, order, queue, visited, dist, queue', visited', dist');
        if visited' != visited {
          ShrinkingRest(universe, visited, visited');
        }
        order, queue, visited, dist := order + [vertex], queue', visited', dist';
      }
      SearchDone(adj, start, universe, order, visited, dist);
    }
  }

  /** The state of the main loop: the marked vertices are those dequeued
      (`order`) or waiting (`queue`), none twice; each is labelled with the
      length of a walk from `start`; labels never decrease along `order`
      and along `queue`, the queue spans at most two consecutive labels, and
      every successor of a dequeued vertex is marked with a label at most
      one more. */
  ghost predicate Searching(adj: Adjacency, start: int, universe: set<int>, order: seq<int>,
                            queue: seq<int>, visited: set<int>, dist: map<int, nat>)
  {
    visited == dist.Keys && visited <= universe && start in visited && dist[start] == 0 &&
    (forall v :: v in visited <==> v in order || v in queue) &&
    Distinct(order) && Distinct(queue) && (forall v :: v in order ==> v !in queue) &&
    (if |order| == 0 then queue == [start] else order[0] == start) &&
    (forall v :: v in visited ==> ReachableIn(adj, start, v, dist[v])) &&
    SortedBy(dist, order) && SortedBy(dist, queue) &&
    (|queue| > 0 ==> queue[0] in dist &&
                     (forall v :: v in order ==> dist[v] <= dist[queue[0]]) &&
                     (forall v :: v in queue ==> dist[v] <= dist[queue[0]] + 1)) &&
    (forall i, w :: 0 <= i < |order| && w in Succ(adj, order[i]) ==>
                      w in visited && dist[w] <= dist[order[i]] + 1)
  }

  lemma SearchStart(adj: Adjacency, start: int, universe: set<int>)
    requires universe == Vertices(adj) + {start}
    ensures Searching(adj, start, universe, [], [start], {start}, map[start := 0])
  {
    ReachableSelf(adj, start);
  }

  /** Dequeuing the head meets the demands of the neighbour loop. */
  lemma DequeueReady(adj: Adjacency, start: int, universe: set<int>, order: seq<int>,
                     queue: seq<int>, visited: set<int>, dist: map<int, nat>)
    requires Searching(adj, start, universe, order, queue, visited, dist) && |queue| > 0
    ensures visited == dist.Keys && queue[0] in order + [queue[0]]
    ensures forall v :: v in visited <==> v in order + [queue[0]] || v in queue[1..]
    ensures Distinct(queue[1..]) && forall v :: v in order + [queue[0]] ==> v !in queue[1..]
    ensures forall v :: v in visited ==> ReachableIn(adj, start, v, dist[v])
    ensures SortedBy(dist, queue[1..])
    ensures forall v :: v in order + [queue[0]] ==> dist[v] <= dist[queue[0]]
    ensures forall v :: v in queue[1..] ==> dist[queue[0]] <= dist[v] <= dist[queue[0]] + 1
  {
    var q := queue[1..];
    forall v | v in q
      ensures dist[queue[0]] <= dist[v] <= dist[queue[0]] + 1
    {
      var i :| 0 <= i < |q| && q[i] == v;
      assert queue[i + 1] == v;
    }
    forall i, j | 0 <= i < j < |q|
      ensures q[i] in dist && q[j] in dist && dist[q[i]] <= dist[q[j]]
    {
      assert q[i] == queue[i + 1] && q[j] == queue[j + 1];
    }
    forall i, j | 0 <= i < j < |q|
      ensures q[i] != q[j]
    {
      assert q[i] == queue[i + 1] && q[j] == queue[j + 1];
    }
  }

  /** One round of the main loop keeps its state. */
  lemma ExpandKeeps(adj: Adjacency, start: int, universe: set<int>, order: seq<int>,
                    queue: seq<int>, visited: set<int>, dist: map<int, nat>,
                    queue': seq<int>, visited': set<int>, dist': map<int, nat>)
    requires Searching(adj, start, universe, order, queue, visited, dist) && |queue| > 0
    requires universe == Vertices(adj) + {start}
    requires visited' == dist'.Keys && visited <= visited'
    requires forall v :: v in dist ==> dist'[v] == dist[v]
    requires forall v :: v in visited' <==> v in order + [queue[0]] || v in queue'
    requires Distinct(queue') && forall v :: v in order + [queue[0]] ==> v !in queue'
    requires forall v :: v in visited' ==> ReachableIn(adj, start, v, dist'[v])
    requires SortedBy(dist', queue')
    requires forall v :: v in queue' ==> dist'[queue[0]] <= dist'[v] <= dist'[queue[0]] + 1
    requires forall w :: w in Succ(adj, queue[0]) ==> w in visited' && dist'[w] <= dist'[queue[0]] + 1
    requires forall v :: v in visited' && v !in visited ==> v in Succ(adj, queue[0])
    requires visited' == visited ==> queue' == queue[1..]
    ensures Searching(adj, start, universe, order + [queue[0]], queue', visited', dist')
    ensures visited' <= universe && (visited' == visited ==> |queue'| < |queue|)
  {
    forall v | v in visited' && v !in visited
      ensures v in universe
    {
      assert queue[0] in adj;
    }
    OrderKeeps(adj, start, order, queue, visited, dist, queue', visited', dist');
    ExpandedKeeps(adj, order, queue, visited, dist, visited', dist');
  }

  /** After dequeuing, `order` keeps its start, its distinctness and its
      order of labels. */
  lemma OrderKeeps(adj: Adjacency, start: int, order: seq<int>,
                   queue: seq<int>, visited: set<int>, dist: map<int, nat>,
                   queue': seq<int>, visited': set<int>, dist': map<int, nat>)
    requires visited == dist.Keys && |queue| > 0
    requires forall v :: v in visited <==> v in order || v in queue
    requires Distinct(order) && Distinct(queue) && (forall v :: v in order ==> v !in queue)
    requires if |order| == 0 then queue == [start] else order[0] == start
    requires SortedBy(dist, order)
    requires queue[0] in dist && forall v :: v in order ==> dist[v] <= dist[queue[0]]
    requires visited <= visited' && forall v :: v in dist ==> v in dist' && dist'[v] == dist[v]
    requires |queue'| > 0 ==> queue'[0] in dist' && queue[0] in dist' && dist'[queue[0]] <= dist'[queue'[0]]
    ensures (order + [queue[0]])[0] == start && Distinct(order + [queue[0]])
    ensures SortedBy(dist', order + [queue[0]])
    ensures |queue'| > 0 ==> forall v :: v in order + [queue[0]] ==> dist'[v] <= dist'[queue'[0]]
  {
    var order' := order + [queue[0]];
    SortedAppend(dist, order, queue[0]);
    forall i, j | 0 <= i < j < |order'|
      ensures order'[i] in dist' && order'[j] in dist' && dist'[order'[i]] <= dist'[order'[j]]
    {
      assert order'[i] in visited && order'[j] in visited;
    }
    forall i, j | 0 <= i < j < |order'|
      ensures order'[i] != order'[j]
    {
      if j < |order| {
        assert order'[i] == order[i] && order'[j] == order[j];
      } else {
        assert order'[i] == order[i] && order'[j] == queue[0];
      }
    }
  }

  /** After the neighbour loop, every dequeued vertex has its successors
      marked with labels at most one more than its own. */
  lemma ExpandedKeeps(adj: Adjacency, order: seq<int>, queue: seq<int>, visited: set<int>,
                      dist: map<int, nat>, visited': set<int>, dist': map<int, nat>)
    requires |queue| > 0 && visited == dist.Keys && visited <= visited'
    requires forall v :: v in order ==> v in visited
    requires forall v :: v in dist ==> v in dist' && dist'[v] == dist[v]
    requires forall i, w :: 0 <= i < |order| && w in Succ(adj, order[i]) ==>
                              w in visited && dist[w] <= dist[order[i]] + 1
    requires queue[0] in dist'
    requires forall w :: w in Succ(adj, queue[0]) ==> w in visited' && w in dist' && dist'[w] <= dist'[queue[0]] + 1
    ensures forall i, w :: 0 <= i < |order + [queue[0]]| && w in Succ(adj, (order + [queue[0]])[i]) ==>
                             w in visited' && w in dist' && (order + [queue[0]])[i] in dist' &&
                             dist'[w] <= dist'[(order + [queue[0]])[i]] + 1
  {
    var order' := order + [queue[0]];
    forall i, w | 0 <= i < |order'| && w in Succ(adj, order'[i])
      ensures w in visited' && w in dist' && order'[i] in dist' && dist'[w] <= dist'[order'[i]] + 1
    {
      if i < |order| {
        assert order'[i] == order[i];
      }
    }
  }

  /** When the queue is empty the dequeued vertices are exactly those
      reachable from `start`, each labelled with its distance. */
  lemma SearchDone(adj: Adjacency, start: int, universe: set<int>, order: seq<int>,
                   visited: set<int>, dist: map<int, nat>)
    requires Searching(adj, start, universe, order, [], visited, dist)
    ensures |order| >= 1 && order[0] == start
    ensures Distinct(order)
    ensures forall v :: v in order <==> Reachable(adj, start, v)
    ensures forall v :: v in order ==> v in dist && Shortest(adj, start, v, dist[v])
    ensures forall i, j :: 0 <= i < j < |order| ==> dist[order[i]] <= dist[order[j]]
  {
    assert Closed(adj, visited) by {
      forall u, w | u in visited && w in Succ(adj, u)
        ensures w in visited
      {
        var i :| 0 <= i < |order| && order[i] == u;
      }
    }
    assert Layered(adj, visited, dist) by {
      forall u, w | u in visited && w in Succ(adj, u)
        ensures w in dist && dist[w] <= dist[u] + 1
      {
        var i :| 0 <= i < |order| && order[i] == u;
      }
    }
    forall v | v in order
      ensures v in dist && Shortest(adj, start, v, dist[v])
    {
      LayeredIsShortest(adj, visited, dist, start, v);
    }
    forall v | Reachable(adj, start, v)
      ensures v in order
    {
      ClosedHoldsReachable(adj, visited, start, v);
    }
    forall v | v in order
      ensures Reachable(adj, start, v)
    {
      ReachableInIsReachable(adj, start, v, dist[v]);
    }
  }

  /** `s` lists labelled vertices in non-decreasing order of label. */
  ghost predicate SortedBy(dist: map<int, nat>, s: seq<int>)
  {
    forall i, j :: 0 <= i < j < |s| ==> s[i] in dist && s[j] in dist && dist[s[i]] <= dist[s[j]]
  }

  /** One pass of the neighbour loop: every successor of `vertex` that is not
      yet visited is marked, labelled one more than `vertex` and queued. */
  method VisitNeighbours(adj: Adjacency, ghost start: int, vertex: int, ghost order: seq<int>,
                         visited0: set<int>, queue0: seq<int>, ghost dist0: map<int, nat>)
    returns (visited: set<int>, queue: seq<int>, ghost dist: map<int, nat>)
    requires visited0 == dist0.Keys && vertex in order
    requires forall v :: v in visited0 <==> v in order || v in queue0
    requires Distinct(queue0) && forall v :: v in order ==> v !in queue0
    requires forall v :: v in visited0 ==> ReachableIn(adj, start, v, dist0[v])
    requires SortedBy(dist0, queue0)
    requires forall v :: v in order ==> dist0[v] <= dist0[vertex]
    requires forall v :: v in queue0 ==> dist0[vertex] <= dist0[v] <= dist0[vertex] + 1
    ensures visited == dist.Keys && visited0 <= visited
    ensures forall v :: v in dist0 ==> dist[v] == dist0[v]
    ensures forall v :: v in visited <==> v in order || v in queue
    ensures Distinct(queue) && forall v :: v in order ==> v !in queue
    ensures forall v :: v in visited ==> ReachableIn(adj, start, v, dist[v])
    ensures SortedBy(dist, queue)
    ensures |queue| >= |queue0| && queue[..|queue0|] == queue0
    ensures forall v :: v in queue ==> dist[vertex] <= dist[v] <= dist[vertex] + 1
    ensures forall w :: w in Succ(adj, vertex) ==> w in visited && dist[w] <= dist[vertex] + 1
    ensures forall v :: v in visited && v !in visited0 ==> v in Succ(adj, vertex)
    ensures visited == visited0 ==> queue == queue0
    ensures queue == queue0 + Unmarked(Succ(adj, vertex), visited0)
    ensures forall v :: v in visited <==> v in visited0 || v in Succ(adj, vertex)
    ensures forall v :: v in visited && v !in visited0 ==> dist[v] == dist[vertex] + 1
  {
    visited, queue, dist := visited0, queue0, dist0;
    var ns := Succ(adj, vertex);
    for k := 0 to |ns|
      invariant Frontier(adj, start, vertex, order, visited0, queue0, dist0, visited, queue, dist)
      invariant Scanned(ns, k, visited0, queue0, visited, queue)
    {
      var w := ns[k];
      ScanStep(ns, k, visited0, queue0, visited, queue);
      if w !in visited {
        MarkKeepsFrontier(adj, start, vertex, order, visited0, queue0, dist0, visited, queue, dist, w);
        visited, queue, dist := visited + {w}, queue + [w], dist[w := dist0[vertex] + 1];
      }
    }
    assert ns[..|ns|] == ns;
    SortedExtend(dist0, dist, queue0, queue, dist[vertex] + 1);
    forall v | v in queue
      ensures dist[vertex] <= dist[v] <= dist[vertex] + 1
    {
      var j :| 0 <= j < |queue| && queue[j] == v;
      if j < |queue0| {
        assert queue0[j] == v;
      }
    }
    forall w | w in ns
      ensures w in visited && dist[w] <= dist[vertex] + 1
    {
      if w in order {
        assert w in dist0;
      }
    }
    forall v | v in visited && v !in visited0
      ensures dist[v] == dist[vertex] + 1
    {
      var j :| 0 <= j < |queue| && queue[j] == v;
      if j < |queue0| {
        assert queue0[j] == v;
      }
    }
  }

  /** The successors the neighbour loop queues, in list order: those not
      marked before the loop, each at its first occurrence. */
  function Unmarked(ns: seq<int>, visited: set<int>): seq<int>
    decreases |ns|
  {
    if ns == [] then []
    else
      var earlier, w := ns[..|ns| - 1], ns[|ns| - 1];
      if w in visited || w in earlier then Unmarked(earlier, visited)
      else Unmarked(earlier, visited) + [w]
  }

  /** After the first `k` successors: the marked vertices are those marked
      before and those successors, and the queue has grown by the ones among
      them that were not marked, in list order. */
  ghost predicate Scanned(ns: seq<int>, k: nat, visited0: set<int>, queue0: seq<int>, visited: set<int>, queue: seq<int>)
  {
    k <= |ns| &&
    (forall v :: v in visited <==> v in visited0 || v in ns[..k]) &&
    queue == queue0 + Unmarked(ns[..k], visited0)
  }

  /** The neighbour loop looks at successor `k`: it queues and marks it
      exactly when it is not marked yet. */
  lemma ScanStep(ns: seq<int>, k: nat, visited0: set<int>, queue0: seq<int>, visited: set<int>, queue: seq<int>)
    requires Scanned(ns, k, visited0, queue0, visited, queue) && k < |ns|
    ensures ns[k] in visited ==> Scanned(ns, k + 1, visited0, queue0, visited, queue)
    ensures ns[k] !in visited ==> Scanned(ns, k + 1, visited0, queue0, visited + {ns[k]}, queue + [ns[k]])
  {
    UnmarkedSnoc(ns, visited0, k);
  }

  /** Looking at one more successor queues it exactly when it is neither
      marked nor seen before. */
  lemma UnmarkedSnoc(ns: seq<int>, visited: set<int>, k: nat)
    requires k < |ns|
    ensures ns[..k + 1] == ns[..k] + [ns[k]]
    ensures Unmarked(ns[..k + 1], visited) ==
            if ns[k] in visited || ns[k] in ns[..k] then Unmarked(ns[..k], visited)
            else Unmarked(ns[..k], visited) + [ns[k]]
  {
    assert ns[..k + 1][..k] == ns[..k];
  }

  /** The queued successors are the successors not marked before, each
      once. */
  lemma {:induction false} UnmarkedMembers(ns: seq<int>, visited: set<int>)
    ensures forall v :: v in Unmarked(ns, visited) <==> v in ns && v !in visited
    ensures Distinct(Unmarked(ns, visited))
    decreases |ns|
  {
    if ns != [] {
      var earlier, w := ns[..|ns| - 1], ns[|ns| - 1];
      UnmarkedMembers(earlier, visited);
      assert ns == earlier + [w];
    }
  }

  /** The state of the neighbour loop of `vertex`, started from `visited0`,
      `queue0` and `dist0`: the vertices marked so far are those dequeued or
      queued, each labelled by the length of a walk that reaches it, and
      the vertices it queued are successors of `vertex` labelled one more. */
  ghost predicate Frontier(adj: Adjacency, start: int, vertex: int, order: seq<int>,
                           visited0: set<int>, queue0: seq<int>, dist0: map<int, nat>,
                           visited: set<int>, queue: seq<int>, dist: map<int, nat>)
  {
    visited == dist.Keys && visited0 <= visited && vertex in dist0 &&
    (forall v :: v in dist0 ==> v in dist && dist[v] == dist0[v]) &&
    (forall v :: v in visited <==> v in order || v in queue) &&
    Distinct(queue) && (forall v :: v in order ==> v !in queue) &&
    (forall v :: v in visited ==> ReachableIn(adj, start, v, dist[v])) &&
    |queue| >= |queue0| && queue[..|queue0|] == queue0 &&
    (forall j :: |queue0| <= j < |queue| ==> queue[j] in dist && dist[queue[j]] == dist0[vertex] + 1) &&
    (forall v :: v in visited && v !in visited0 ==> v in Succ(adj, vertex)) &&
    (visited == visited0 ==> queue == queue0)
  }

  /** Marking and queueing an unvisited successor keeps the loop state. */
  lemma MarkKeepsFrontier(adj: Adjacency, start: int, vertex: int, order: seq<int>,
                          visited0: set<int>, queue0: seq<int>, dist0: map<int, nat>,
                          visited: set<int>, queue: seq<int>, dist: map<int, nat>, w: int)
    requires Frontier(adj, start, vertex, order, visited0, queue0, dist0, visited, queue, dist)
    requires w !in visited && w in Succ(adj, vertex) && ReachableIn(adj, start, vertex, dist0[vertex])
    ensures Frontier(adj, start, vertex, order, visited0, queue0, dist0,
                     visited + {w}, queue + [w], dist[w := dist0[vertex] + 1])
  {
    ReachableStep(adj, start, vertex, w, dist0[vertex]);
    var queue' := queue + [w];
    assert queue'[..|queue0|] == queue[..|queue0|];
  }

  /** Appending an element whose label is no smaller than any in `s` keeps
      `s` sorted. */
  lemma SortedAppend(dist: map<int, nat>, s: seq<int>, w: int)
    requires SortedBy(dist, s) && w in dist
    requires forall v :: v in s ==> v in dist && dist[v] <= dist[w]
    ensures SortedBy(dist, s + [w])
  {
    var t := s + [w];
    forall i, j | 0 <= i < j < |t|
      ensures t[i] in dist && t[j] in dist && dist[t[i]] <= dist[t[j]]
    {
      assert t[i] == s[i] && s[i] in s;
      if j < |s| {
        assert t[j] == s[j];
      } else {
        assert t[j] == w;
      }
    }
  }

  /** Extending a sorted queue with vertices of the largest label keeps it
      sorted, provided the labels of the old vertices stay the same. */
  lemma SortedExtend(dist0: map<int, nat>, dist: map<int, nat>, s0: seq<int>, s: seq<int>, top: nat)
    requires SortedBy(dist0, s0) && |s0| <= |s| && s[..|s0|] == s0
    requires forall v :: v in s0 ==> v in dist0 && v in dist && dist[v] == dist0[v] <= top
    requires forall j :: |s0| <= j < |s| ==> s[j] in dist && dist[s[j]] == top
    ensures SortedBy(dist, s)
  {
    forall i, j | 0 <= i < j < |s|
      ensures s[i] in dist && s[j] in dist && dist[s[i]] <= dist[s[j]]
    {
      if j < |s0| {
        assert s[i] == s0[i] && s[j] == s0[j];
      } else if i < |s0| {
        assert s[i] == s0[i];
      }
    }
  }
}
