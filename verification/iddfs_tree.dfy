/** Iterative deepening over a directed graph of named nodes entered as
    edge pairs.  The depth-limited search threads a `visited` set and a
    `path` list that the caller owns; both are modelled as values passed in
    and returned. */
module TreeDeepening {

  /** Node name to its list of children, in the order the edges were entered. */
  type Tree = map<string, seq<string>>

  /** Entering edge `n1 n2`: both names become nodes (with no children if
      new), and `n2` is appended to `n1`'s children only. */
  function AddTreeEdge(tree: Tree, n1: string, n2: string): (t: Tree)
    ensures t.Keys == tree.Keys + {n1, n2}
    ensures t[n1] == (if n1 in tree then tree[n1] else []) + [n2]
    ensures n2 != n1 ==> t[n2] == (if n2 in tree then tree[n2] else [])
    ensures forall n :: n in tree && n != n1 ==> t[n] == tree[n]
  {
    var t1 := if n1 !in tree then tree[n1 := []] else tree;
    var t2 := if n2 !in t1 then t1[n2 := []] else t1;
    t2[n1 := t2[n1] + [n2]]
  }

  /** Every child named in a list is itself a node. */
  ghost predicate ChildrenAreNodes(tree: Tree)
  {
    forall n, c :: n in tree && c in tree[n] ==> c in tree
  }

  /** Entering edges keeps every child a node. */
  lemma AddTreeEdgeKeepsChildrenNodes(tree: Tree, n1: string, n2: string)
    requires ChildrenAreNodes(tree)
    ensures ChildrenAreNodes(AddTreeEdge(tree, n1, n2))
  {
    var t := AddTreeEdge(tree, n1, n2);
    forall n, c | n in t && c in t[n]
      ensures c in t
    {
      if n == n1 {
        if c != n2 {
          assert c in tree[n1];
        }
      } else if n != n2 || n2 in tree {
        assert c in tree[n];
      }
    }
  }

  /** `b` is a child of the node `a`. */
  predicate Edge(tree: Tree, a: string, b: string)
  {
    a in tree && b in tree[a]
  }

  /** Each node of `s` after the first is a child of the one before. */
  ghost predicate Chain(tree: Tree, s: seq<string>)
  {
    forall i :: 0 <= i < |s| - 1 ==> Edge(tree, s[i], s[i + 1])
  }

  ghost predicate Distinct(s: seq<string>)
  {
    forall i, j :: 0 <= i < j < |s| ==> s[i] != s[j]
  }

  function Max0(m: int): nat
  {
    if m > 0 then m else 0
  }

  /** What a call that succeeds leaves on the path after `path0`: a chain
      that starts at `current`, lists no node twice and, after `current`,
      no node visited before the call, and has at most `limit - depth + 1`
      nodes, all now visited. */
  ghost predicate Extends(tree: Tree, current: string, limit: int, depth: int,
                          visited0: set<string>, path0: seq<string>, visited: set<string>, path: seq<string>)
  {
    |path| > |path0| && path[..|path0|] == path0 && path[|path0|] == current &&
    var added := path[|path0|..];
    Chain(tree, added) && Distinct(added) && |added| <= limit - depth + 1 &&
    (forall i :: 0 < i < |added| ==> added[i] !in visited0) &&
    (forall i :: 0 <= i < |added| ==> added[i] in visited)
  }

  /** The depth-limited search.  Beyond the limit it does nothing and fails.
      Otherwise it marks `current` and pushes it on the path; a name that is
      not a node is popped again and the call fails; for a node, the call
      recurs on each unmarked child in order until one succeeds, and then
      succeeds whatever the children returned. */
  method DepthLimitedSearch(tree: Tree, current: string, limit: int, depth: int,
                            visited0: set<string>, path0: seq<string>)
    returns (found: bool, visited: set<string>, path: seq<string>)
    ensures depth > limit ==> !found && visited == visited0 && path == path0
    ensures depth <= limit ==> found == (current in tree) && visited0 + {current} <= visited
    ensures !found ==> path == path0
    ensures found ==> Extends(tree, current, limit, depth, visited0, path0, visited, path)
    decreases Max0(limit - depth + 1)
  {
    if depth > limit {
      return false, visited0, path0;
    }
    visited := visited0 + {current};
    path := path0 + [current];
    if current !in tree {
      path := path[..|path| - 1];
      assert path == path0;
      return false, visited, path;
    }
    var children := tree[current];
    for i := 0 to |children|
      invariant visited0 + {current} <= visited
      invariant path == path0 + [current]
    {
      var child := children[i];
      if child !in visited {
        var visitedBefore := visited;
        var f;
        f, visited, path := DepthLimitedSearch(tree, child, limit, depth + 1, visited, path);
        if f {
          ChildExtends(tree, current, child, limit, depth, visited0, path0, visitedBefore, visited, path);
          return true, visited, path;
        }
      }
    }
    found := true;
    Single(tree, current, limit, depth, visited0, path0, visited, path);
  }

  /** A path extended by `current` alone. */
  lemma Single(tree: Tree, current: string, limit: int, depth: int,
               visited0: set<string>, path0: seq<string>, visited: set<string>, path: seq<string>)
    requires depth <= limit && path == path0 + [current] && current in visited
    ensures Extends(tree, current, limit, depth, visited0, path0, visited, path)
  {
    assert path[|path0|..] == [current];
  }

  /** A path extended by `current` followed by what a successful call on its
      unmarked child `child` added. */
  lemma ChildExtends(tree: Tree, current: string, child: string, limit: int, depth: int,
                     visited0: set<string>, path0: seq<string>,
                     visitedBefore: set<string>, visited: set<string>, path: seq<string>)
    requires current in tree && child in tree[current] && child !in visitedBefore
    requires visited0 + {current} <= visitedBefore <= visited
    requires Extends(tree, child, limit, depth + 1, visitedBefore, path0 + [current], visited, path)
    ensures Extends(tree, current, limit, depth, visited0, path0, visited, path)
  {
    var mid := path0 + [current];
    var sub := path[|mid|..];
    var added := path[|path0|..];
    assert path[..|path0|] == path0 by {
      assert path[..|path0|] == path[..|mid|][..|path0|];
    }
    assert added == [current] + sub by {
      assert path == mid + sub;
    }
    forall i | 0 <= i < |added| - 1
      ensures Edge(tree, added[i], added[i + 1])
    {
      if i > 0 {
        assert added[i] == sub[i - 1] && added[i + 1] == sub[i];
      }
    }
    forall i, j | 0 <= i < j < |added|
      ensures added[i] != added[j]
    {
      if i == 0 {
        assert added[j] == sub[j - 1];
        if j > 1 {
          assert sub[j - 1] !in visitedBefore;
        }
      } else {
        assert added[i] == sub[i - 1] && added[j] == sub[j - 1];
      }
    }
    forall i | 0 < i < |added|
      ensures added[i] !in visited0
    {
      assert added[i] == sub[i - 1];
      if i > 1 {
        assert sub[i - 1] !in visitedBefore;
      }
    }
    forall i | 0 <= i < |added|
      ensures added[i] in visited
    {
      if i > 0 {
        assert added[i] == sub[i - 1];
      }
    }
  }

  /** Runs the search from `root` with limits 0 .. |tree| - 1, each time with
      nothing visited and an empty path, and records each non-empty path
      under its limit. */
  method IterativeDeepeningSearch(tree: Tree, root: string) returns (levels: map<int, seq<string>>)
    ensures forall d :: d in levels <==> root in tree && 0 <= d < |tree|
    ensures forall d :: d in levels ==>
              |levels[d]| >= 1 && levels[d][0] == root && |levels[d]| <= d + 1 &&
              Chain(tree, levels[d]) && Distinct(levels[d])
  {
    levels := map[];
    var maxDepth := |tree|;
    for depth := 0 to maxDepth
      invariant forall d :: d in levels <==> root in tree && 0 <= d < depth
      invariant forall d :: d in levels ==>
                  |levels[d]| >= 1 && levels[d][0] == root && |levels[d]| <= d + 1 &&
                  Chain(tree, levels[d]) && Distinct(levels[d])
    {
      var found, visited, path := DepthLimitedSearch(tree, root, depth, 0, {}, []);
      if |path| > 0 {
        assert path[0..] == path;
        levels := levels[depth := path];
      }
    }
  }
}
