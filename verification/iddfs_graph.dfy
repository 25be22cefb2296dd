/** Depth-limited and iterative-deepening search for a target vertex in a
    directed graph kept as adjacency lists.  There are two depth-limited
    searches: a plain one that explores every walk, and a printing one that
    marks vertices in a `visited` set shared by every branch of one search
    and skips marked successors. */
module DepthLimited {
  import opened Common
  import opened Graphs

  function Max0(m: int): nat
  {
    if m > 0 then m else 0
  }

  /** The plain search: `true` when `source` is `target`, otherwise, when
      depth is left, when the search from some successor succeeds with one
      less. */
  function Dls(adj: Adjacency, source: int, target: int, maxDepth: int): bool
    decreases Max0(maxDepth), 0
  {
    if source == target then true
    else if maxDepth <= 0 then false
    else AnyDls(adj, Succ(adj, source), target, maxDepth - 1)
  }

  /** The loop over the successors, stopping at the first success. */
  function AnyDls(adj: Adjacency, ns: seq<int>, target: int, depth: nat): bool
    decreases depth, |ns| + 1
  {
    if |ns| == 0 then false
    else if Dls(adj, ns[0], target, depth) then true
    else AnyDls(adj, ns[1..], target, depth)
  }

  lemma {:induction false} AnyDlsIsSome(adj: Adjacency, ns: seq<int>, target: int, depth: nat)
    ensures AnyDls(adj, ns, target, depth) <==> exists i :: 0 <= i < |ns| && Dls(adj, ns[i], target, depth)
    decreases |ns|
  {
    if |ns| > 0 {
      AnyDlsIsSome(adj, ns[1..], target, depth);
      if !Dls(adj, ns[0], target, depth) {
        forall i | 0 < i < |ns|
          ensures ns[i] == ns[1..][i - 1]
        {
        }
      }
    }
  }

  /** The plain search succeeds exactly when some walk of at most
      `maxDepth` edges leads from `source` to `target`. */
  lemma {:induction false} DlsIffWalk(adj: Adjacency, source: int, target: int, maxDepth: int)
    ensures Dls(adj, source, target, maxDepth) <==>
            exists n: nat :: n <= Max0(maxDepth) && ReachableIn(adj, source, target, n)
    decreases Max0(maxDepth)
  {
    if source == target {
      ReachableSelf(adj, source);
    } else if maxDepth <= 0 {
      NoEmptyWalkBetween(adj, source, target);
    } else {
      var ns := Succ(adj, source);
      AnyDlsIsSome(adj, ns, target, maxDepth - 1);
      if Dls(adj, source, target, maxDepth) {
        var i :| 0 <= i < |ns| && Dls(adj, ns[i], target, maxDepth - 1);
        DlsIffWalk(adj, ns[i], target, maxDepth - 1);
        var n: nat :| n <= Max0(maxDepth - 1) && ReachableIn(adj, ns[i], target, n);
        ReachablePrepend(adj, source, ns[i], target, n);
      }
      forall n: nat | n <= Max0(maxDepth) && ReachableIn(adj, source, target, n)
        ensures Dls(adj, source, target, maxDepth)
      {
        assert n != 0;
        var u := ReachableFirstStep(adj, source, target, n);
        var i :| 0 <= i < |ns| && ns[i] == u;
        DlsIffWalk(adj, u, target, maxDepth - 1);
      }
    }
  }

  /** A walk without edges ends where it starts. */
  lemma NoEmptyWalkBetween(adj: Adjacency, source: int, target: int)
    requires source != target
    ensures !ReachableIn(adj, source, target, 0)
  {
  }

  /** What one printing search returns: whether it found the target, the
      marked set afterwards and the vertices it printed, in order. */
  datatype Trace = Trace(found: bool, visited: set<int>, printed: seq<int>)

  /** The printing search from `source` with the marked set `visited`. */
  function PrintDls(adj: Adjacency, visited: set<int>, source: int, target: int, maxDepth: int): Trace
    decreases Max0(maxDepth), 0
  {
    var marked := visited + {source};
    if source == target then Trace(true, marked, [source])
    else if maxDepth <= 0 then Trace(false, marked, [source])
    else
      var r := PrintDlsList(adj, marked, Succ(adj, source), target, maxDepth - 1);
      Trace(r.found, r.visited, [source] + r.printed)
  }

  /** The printing search's loop over the successors in `ns`: marked ones
      are skipped, the first success ends the loop. */
  function PrintDlsList(adj: Adjacency, visited: set<int>, ns: seq<int>, target: int, depth: nat): Trace
    decreases depth, |ns| + 1
  {
    if |ns| == 0 then Trace(false, visited, [])
    else if ns[0] in visited then PrintDlsList(adj, visited, ns[1..], target, depth)
    else
      var r := PrintDls(adj, visited, ns[0], target, depth);
      if r.found then r
      else
        var rest := PrintDlsList(adj, r.visited, ns[1..], target, depth);
        Trace(rest.found, rest.visited, r.printed + rest.printed)
  }

  /** The printing search visits each vertex at most once: it prints no
      vertex twice and none that was already marked, and it marks exactly
      what it prints. */
  lemma {:induction false} PrintDlsVisitsOnce(adj: Adjacency, visited: set<int>, source: int, target: int, maxDepth: int)
    requires source !in visited
    ensures var r := PrintDls(adj, visited, source, target, maxDepth);
            Distinct(r.printed) && |r.printed| >= 1 && r.printed[0] == source &&
            (forall v :: v in r.printed ==> v !in visited) &&
            (forall v :: v in r.visited <==> v in visited || v in r.printed)
    decreases Max0(maxDepth), 0
  {
    if source != target && maxDepth > 0 {
      PrintDlsListVisitsOnce(adj, visited + {source}, Succ(adj, source), target, maxDepth - 1);
    }
  }

  lemma {:induction false} PrintDlsListVisitsOnce(adj: Adjacency, visited: set<int>, ns: seq<int>, target: int, depth: nat)
    ensures var r := PrintDlsList(adj, visited, ns, target, depth);
            Distinct(r.printed) &&
            (forall v :: v in r.printed ==> v !in visited) &&
            (forall v :: v in r.visited <==> v in visited || v in r.printed)
    decreases depth, |ns| + 1
  {
    if |ns| > 0 {
      if ns[0] in visited {
        PrintDlsListVisitsOnce(adj, visited, ns[1..], target, depth);
      } else {
        var r := PrintDls(adj, visited, ns[0], target, depth);
        PrintDlsVisitsOnce(adj, visited, ns[0], target, depth);
        if !r.found {
          PrintDlsListVisitsOnce(adj, r.visited, ns[1..], target, depth);
          var rest := PrintDlsList(adj, r.visited, ns[1..], target, depth);
          DistinctConcat(r.printed, rest.printed);
        }
      }
    }
  }

  /** A success of the printing search is a success of the plain search. */
  lemma {:induction false} PrintDlsSound(adj: Adjacency, visited: set<int>, source: int, target: int, maxDepth: int)
    ensures PrintDls(adj, visited, source, target, maxDepth).found ==> Dls(adj, source, target, maxDepth)
    decreases Max0(maxDepth), 0
  {
    if source != target && maxDepth > 0 {
      PrintDlsListSound(adj, visited + {source}, Succ(adj, source), target, maxDepth - 1);
    }
  }

  lemma {:induction false} PrintDlsListSound(adj: Adjacency, visited: set<int>, ns: seq<int>, target: int, depth: nat)
    ensures PrintDlsList(adj, visited, ns, target, depth).found ==> AnyDls(adj, ns, target, depth)
    decreases depth, |ns| + 1
  {
    if |ns| > 0 {
      if ns[0] in visited {
        PrintDlsListSound(adj, visited, ns[1..], target, depth);
      } else {
        var r := PrintDls(adj, visited, ns[0], target, depth);
        PrintDlsSound(adj, visited, ns[0], target, depth);
        if !r.found {
          PrintDlsListSound(adj, r.visited, ns[1..], target, depth);
        }
      }
    }
  }

  /** Because the marked set is shared by all branches, the printing search
      can miss a target that the plain search finds: from 0 with depth 2,
      the branch through 1 marks 2 at depth 0, so the walk 0, 2, 3 is never
      tried. */
  lemma SharedVisitedMissesTarget()
    ensures var adj := map[0 := [1, 2], 1 := [2], 2 := [3]];
            Dls(adj, 0, 3, 2) && !PrintDls(adj, {}, 0, 3, 2).found
  {
    var adj := map[0 := [1, 2], 1 := [2], 2 := [3]];
    assert Succ(adj, 0) == [1, 2] && Succ(adj, 1) == [2] && Succ(adj, 2) == [3];
    assert Dls(adj, 3, 3, 0);
    assert AnyDls(adj, [3], 3, 0);
    assert Dls(adj, 2, 3, 1);
    assert AnyDls(adj, [2], 3, 1);
    assert PrintDls(adj, {0, 1}, 2, 3, 0) == Trace(false, {0, 1, 2}, [2]);
    assert PrintDlsList(adj, {0, 1}, [2], 3, 0) == Trace(false, {0, 1, 2}, [2]);
    assert PrintDls(adj, {0}, 1, 3, 1) == Trace(false, {0, 1, 2}, [1, 2]);
    assert PrintDlsList(adj, {0, 1, 2}, [2], 3, 1) == Trace(false, {0, 1, 2}, []);
    assert PrintDlsList(adj, {0}, [1, 2], 3, 1) == Trace(false, {0, 1, 2}, [1, 2]);
  }

  /** The first depth in `from .. maxDepth` at which the printing search,
      started with nothing marked, finds the target. */
  function FirstDepth(adj: Adjacency, source: int, target: int, from: nat, maxDepth: int): (d: Option<nat>)
    ensures d.Some? ==> from <= d.value <= maxDepth && PrintDls(adj, {}, source, target, d.value).found
    ensures d.Some? ==> forall k :: from <= k < d.value ==> !PrintDls(adj, {}, source, target, k).found
    ensures d.None? ==> forall k :: from <= k <= maxDepth ==> !PrintDls(adj, {}, source, target, k).found
    decreases maxDepth - from
  {
    if from > maxDepth then None
    else if PrintDls(adj, {}, source, target, from).found then Some(from)
    else FirstDepth(adj, source, target, from + 1, maxDepth)
  }

  /** A graph with the printing search's marked set as a field. */
  class Graph {
    var adj: Adjacency
    var visited: set<int>

    constructor()
      ensures adj == map[] && visited == {}
    {
      adj := map[];
      visited := {};
    }

    /** Appends `v` to the end of `u`'s list; every other list is unchanged. */
    method AddEdge(u: int, v: int)
      modifies this
      ensures adj == WithEdge(old(adj), u, v) && visited == old(visited)
    {
      adj := adj[u := Succ(adj, u) + [v]];
    }

    /** The plain search over the graph. */
    method DepthLimitedSearch(source: int, target: int, maxDepth: int) returns (found: bool)
      ensures found <==> exists n: nat :: n <= Max0(maxDepth) && ReachableIn(adj, source, target, n)
    {
      found := Dls(adj, source, target, maxDepth);
      DlsIffWalk(adj, source, target, maxDepth);
    }

    /** The printing search: marks and prints `source`, stops on the target
        or when no depth is left, and otherwise recurs on each unmarked
        successor in list order until one succeeds. */
    method DepthLimitedSearchWithPrint(source: int, target: int, maxDepth: int) returns (found: bool, printed: seq<int>)
      modifies this
      ensures adj == old(adj)
      ensures PrintDls(adj, old(visited), source, target, maxDepth) == Trace(found, visited, printed)
      decreases Max0(maxDepth)
    {
      visited := visited + {source};
      printed := [source];
      if source == target {
        return true, printed;
      }
      if maxDepth <= 0 {
        return false, printed;
      }
      ghost var marked := visited;
      var ns := Succ(adj, source);
      for i := 0 to |ns|
        invariant adj == old(adj)
        invariant PrintDls(adj, old(visited), source, target, maxDepth) ==
                  Then(printed, PrintDlsList(adj, visited, ns[i..], target, maxDepth - 1))
      {
        assert ns[i..][1..] == ns[i + 1..];
        if ns[i] !in visited {
          var sub, subPrinted := DepthLimitedSearchWithPrint(ns[i], target, maxDepth - 1);
          printed := printed + subPrinted;
          if sub {
            return true, printed;
          }
        }
      }
      found := false;
    }

    /** Runs the printing search at depths 0, 1, ..., `maxDepth`, each time
        with nothing marked, and stops at the first success. */
    method IterativeDeepeningDfs(source: int, target: int, maxDepth: int) returns (found: bool)
      modifies this
      ensures adj == old(adj)
      ensures found <==> FirstDepth(adj, source, target, 0, maxDepth).Some?
      ensures found ==> visited == PrintDls(adj, {}, source, target, FirstDepth(adj, source, target, 0, maxDepth).value).visited
      ensures !found && maxDepth >= 0 ==> visited == PrintDls(adj, {}, source, target, maxDepth).visited
      ensures !found && maxDepth < 0 ==> visited == old(visited)
    {
      var depth := 0;
      while depth <= maxDepth
        invariant 0 <= depth && adj == old(adj)
        invariant if maxDepth >= 0 then depth <= maxDepth + 1 else depth == 0
        invariant FirstDepth(adj, source, target, 0, maxDepth) == FirstDepth(adj, source, target, depth, maxDepth)
        invariant depth > 0 ==> visited == PrintDls(adj, {}, source, target, depth - 1).visited
        invariant depth == 0 ==> visited == old(visited)
      {
        visited := {};
        var printed;
        found, printed := DepthLimitedSearchWithPrint(source, target, depth);
        if found {
          return;
        }
        depth := depth + 1;
      }
      found := false;
    }
  }

  /** A trace printed after `printed`. */
  function Then(printed: seq<int>, r: Trace): Trace
  {
    Trace(r.found, r.visited, printed + r.printed)
  }

  /** A success of iterative deepening means the target is reachable by a
      walk of at most `maxDepth` edges. */
  lemma IterativeDeepeningSound(adj: Adjacency, source: int, target: int, maxDepth: int)
    requires FirstDepth(adj, source, target, 0, maxDepth).Some?
    ensures exists n: nat :: n <= maxDepth && ReachableIn(adj, source, target, n)
  {
    var d := FirstDepth(adj, source, target, 0, maxDepth).value;
    PrintDlsSound(adj, {}, source, target, d);
    DlsIffWalk(adj, source, target, d);
  }
}
