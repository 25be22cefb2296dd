/** A* search on a grid of cells, where a cell holding 1 is an obstacle,
    with four moves and the Manhattan distance as heuristic.  Nodes are
    values: a node is created, its costs are filled in once, and it is
    never changed after it is put on the open list, so its parent link can
    be followed as a chain of values. */
module GridAStar {
  import opened Common

  type Pos = (int, int)
  type Grid = seq<seq<int>>

  /** A search node; two nodes are the same position when their
      `position`s are equal, and the open list is ordered by `f`. */
  datatype Node = Node(position: Pos, parent: Option<Node>, g: int, h: int, f: int)

  /** A fresh node: all costs 0. */
  function NewNode(position: Pos, parent: Option<Node>): Node
  {
    Node(position, parent, 0, 0, 0)
  }

  /** Manhattan distance. */
  function Heuristic(position: Pos, goal: Pos): (d: nat)
    ensures d == 0 <==> position == goal
  {
    Abs(position.0 - goal.0) + Abs(position.1 - goal.1)
  }

  /** One move: the two cells are at Manhattan distance 1. */
  predicate Adjacent(a: Pos, b: Pos)
  {
    Heuristic(a, b) == 1
  }

  /** A single move changes the heuristic by at most one. */
  lemma HeuristicConsistent(a: Pos, b: Pos, goal: Pos)
    requires Adjacent(a, b)
    ensures Heuristic(a, goal) <= Heuristic(b, goal) + 1
  {
  }

  /** Every row has the length of the first.  The grid may have no rows:
      the bounds test then fails before the first row is read. */
  predicate Rectangular(grid: Grid)
  {
    forall r :: 0 <= r < |grid| ==> |grid[r]| == |grid[0]|
  }

  /** Inside the grid and not an obstacle. */
  predicate Passable(grid: Grid, p: Pos)
    requires Rectangular(grid)
  {
    0 <= p.0 < |grid| && 0 <= p.1 < |grid[0]| && grid[p.0][p.1] != 1
  }

  /** Up, right, down, left, in the order they are tried. */
  const Movements: seq<(int, int)> := [(0, -1), (1, 0), (0, 1), (-1, 0)]

  function Shift(p: Pos, m: (int, int)): Pos
  {
    (p.0 + m.0, p.1 + m.1)
  }

  /** The passable cells reached from `p` by the moves `ms`, in order. */
  function Candidates(grid: Grid, p: Pos, ms: seq<(int, int)>): seq<Pos>
    requires Rectangular(grid)
  {
    if |ms| == 0 then []
    else
      var q := Shift(p, ms[|ms| - 1]);
      Candidates(grid, p, ms[..|ms| - 1]) + (if Passable(grid, q) then [q] else [])
  }

  lemma {:induction false} CandidatesAreMoves(grid: Grid, p: Pos, ms: seq<(int, int)>)
    requires Rectangular(grid)
    ensures |Candidates(grid, p, ms)| <= |ms|
    ensures forall q :: q in Candidates(grid, p, ms) <==> Passable(grid, q) && exists m :: m in ms && q == Shift(p, m)
  {
    if |ms| > 0 {
      CandidatesAreMoves(grid, p, ms[..|ms| - 1]);
      var last := ms[|ms| - 1];
      assert ms == ms[..|ms| - 1] + [last];
      forall q | Passable(grid, q) && (exists m :: m in ms && q == Shift(p, m))
        ensures q in Candidates(grid, p, ms)
      {
        var m :| m in ms && q == Shift(p, m);
        if m != last {
          assert m in ms[..|ms| - 1];
        }
      }
    }
  }

  /** The candidates are at most four, and they are exactly the passable
      cells one move away. */
  lemma CandidatesAreNeighbourCells(grid: Grid, p: Pos)
    requires Rectangular(grid)
    ensures |Candidates(grid, p, Movements)| <= 4
    ensures forall q :: q in Candidates(grid, p, Movements) <==> Passable(grid, q) && Adjacent(p, q)
  {
    CandidatesAreMoves(grid, p, Movements);
    forall q | Adjacent(p, q)
      ensures exists m :: m in Movements && q == Shift(p, m)
    {
      var m := (q.0 - p.0, q.1 - p.1);
      assert m in Movements && q == Shift(p, m);
    }
  }

  /** The neighbours of `node`: a fresh node, with `node` as parent, for each
      passable cell one move away, in the order of `Movements`. */
  method GetNeighbors(node: Node, grid: Grid) returns (neighbors: seq<Node>)
    requires Rectangular(grid)
    ensures |neighbors| == |Candidates(grid, node.position, Movements)| <= 4
    ensures forall i :: 0 <= i < |neighbors| ==>
              neighbors[i] == NewNode(Candidates(grid, node.position, Movements)[i], Some(node))
    ensures forall n :: n in neighbors ==>
              n.parent == Some(node) && Passable(grid, n.position) && Adjacent(node.position, n.position)
    ensures forall q :: Passable(grid, q) && Adjacent(node.position, q) ==>
              exists n :: n in neighbors && n.position == q
  {
    neighbors := [];
    for k := 0 to |Movements|
      invariant |neighbors| == |Candidates(grid, node.position, Movements[..k])|
      invariant forall i :: 0 <= i < |neighbors| ==>
                  neighbors[i] == NewNode(Candidates(grid, node.position, Movements[..k])[i], Some(node))
    {
      var newPosition := Shift(node.position, Movements[k]);
      assert Movements[..k + 1][..k] == Movements[..k];
      if 0 <= newPosition.0 < |grid| && 0 <= newPosition.1 < |grid[0]| &&
         grid[newPosition.0][newPosition.1] != 1 {
        neighbors := neighbors + [NewNode(newPosition, Some(node))];
      }
    }
    assert Movements[..|Movements|] == Movements;
    var cs := Candidates(grid, node.position, Movements);
    CandidatesAreNeighbourCells(grid, node.position);
    forall q | Passable(grid, q) && Adjacent(node.position, q)
      ensures exists n :: n in neighbors && n.position == q
    {
      var i :| 0 <= i < |cs| && cs[i] == q;
      assert neighbors[i].position == q;
    }
  }

  /** The neighbour with its costs filled in from `current`. */
  function Scored(neighbor: Node, current: Node, goal: Pos): Node
  {
    var h := Heuristic(neighbor.position, goal);
    Node(neighbor.position, neighbor.parent, current.g + 1, h, current.g + 1 + h)
  }

  /** Some open node at the same position has a strictly smaller `g`. */
  predicate Dominated(open: seq<Node>, neighbor: Node)
  {
    exists i :: 0 <= i < |open| && open[i].position == neighbor.position && neighbor.g > open[i].g
  }

  /** The positions of the nodes of a list. */
  function Positions(s: seq<Node>): set<Pos>
  {
    set n | n in s :: n.position
  }

  /** The open list after the neighbour loop: each neighbour, in order, is
      scored and pushed unless its position is closed or an open node at
      its position has a smaller `g`. */
  function Relax(open: seq<Node>, closed: seq<Node>, neighbors: seq<Node>, current: Node, goal: Pos): seq<Node>
    decreases |neighbors|
  {
    if |neighbors| == 0 then open
    else
      var neighbor := Scored(neighbors[0], current, goal);
      if neighbors[0].position in Positions(closed) || Dominated(open, neighbor) then
        Relax(open, closed, neighbors[1..], current, goal)
      else
        Relax(open + [neighbor], closed, neighbors[1..], current, goal)
  }

  /** Scans the open list for a node at the neighbour's position with a
      smaller `g`. */
  method IsDominated(open: seq<Node>, neighbor: Node) returns (skip: bool)
    ensures skip == Dominated(open, neighbor)
  {
    skip := false;
    for i := 0 to |open|
      invariant !exists j :: 0 <= j < i && open[j].position == neighbor.position && neighbor.g > open[j].g
    {
      if open[i].position == neighbor.position && neighbor.g > open[i].g {
        skip := true;
        break;
      }
    }
  }

  /** The neighbour loop of one expansion. */
  method ExpandNeighbors(open0: seq<Node>, closed: seq<Node>, neighbors: seq<Node>, current: Node, goal: Pos)
    returns (open: seq<Node>)
    ensures open == Relax(open0, closed, neighbors, current, goal)
  {
    open := open0;
    for k := 0 to |neighbors|
      invariant Relax(open0, closed, neighbors, current, goal) == Relax(open, closed, neighbors[k..], current, goal)
    {
      assert neighbors[k..][1..] == neighbors[k + 1..];
      if neighbors[k].position in Positions(closed) {
        continue;
      }
      var neighbor := Scored(neighbors[k], current, goal);
      var skip := IsDominated(open, neighbor);
      if skip {
        continue;
      }
      open := open + [neighbor];
    }
  }

  /** A node pushed while expanding `current`: its parent is `current`, it
      costs one more, its `f` is `g + h`, it is a passable cell one move
      away, and its position is not closed. */
  ghost predicate Pushed(grid: Grid, goal: Pos, closed: seq<Node>, current: Node, n: Node)
    requires Rectangular(grid)
  {
    n.parent == Some(current) && n.g == current.g + 1 && n.h == Heuristic(n.position, goal) &&
    n.f == n.g + n.h && Passable(grid, n.position) && Adjacent(current.position, n.position) &&
    n.position !in Positions(closed)
  }

  /** The neighbour loop keeps the open list as a prefix and pushes only
      scored neighbours whose position is not closed; every neighbour
      position ends up closed or open. */
  lemma {:induction false} RelaxPushes(grid: Grid, goal: Pos, open: seq<Node>, closed: seq<Node>, neighbors: seq<Node>, current: Node)
    requires Rectangular(grid)
    requires forall n :: n in neighbors ==>
               n.parent == Some(current) && Passable(grid, n.position) && Adjacent(current.position, n.position)
    ensures var r := Relax(open, closed, neighbors, current, goal);
            |r| >= |open| && r[..|open|] == open &&
            (forall j :: |open| <= j < |r| ==> Pushed(grid, goal, closed, current, r[j])) &&
            (forall n :: n in neighbors ==> n.position in Positions(closed) || n.position in Positions(r))
    decreases |neighbors|
  {
    if |neighbors| > 0 {
      var neighbor := Scored(neighbors[0], current, goal);
      var next := if neighbors[0].position in Positions(closed) || Dominated(open, neighbor) then open else open + [neighbor];
      RelaxPushes(grid, goal, next, closed, neighbors[1..], current);
      var r := Relax(next, closed, neighbors[1..], current, goal);
      assert r[..|open|] == r[..|next|][..|open|];
      if Dominated(open, neighbor) {
        var i :| 0 <= i < |open| && open[i].position == neighbor.position && neighbor.g > open[i].g;
        assert r[i] == open[i];
      }
      forall j | |open| <= j < |r|
        ensures Pushed(grid, goal, closed, current, r[j])
      {
        if j < |next| {
          assert r[j] == next[j] == neighbor;
        }
      }
      if next != open {
        assert r[|open|] == neighbor;
      }
      forall n | n in neighbors
        ensures n.position in Positions(closed) || n.position in Positions(r)
      {
        if n != neighbors[0] {
          assert n in neighbors[1..];
        }
      }
    }
  }

  /** A node whose parent chain leads back to the start node, each link a
      move onto a passable cell that costs one, with `f = g + h`.  The start
      node keeps the costs it was created with. */
  ghost predicate WellLinked(grid: Grid, start: Pos, goal: Pos, n: Node)
    requires Rectangular(grid)
    decreases n
  {
    match n.parent
    case None => n.position == start && n.g == 0 && n.h == 0 && n.f == 0
    case Some(p) =>
      WellLinked(grid, start, goal, p) && n.g == p.g + 1 && n.h == Heuristic(n.position, goal) &&
      n.f == n.g + n.h && Adjacent(p.position, n.position) && Passable(grid, n.position)
  }

  /** The positions from the root of the parent chain down to `n`. */
  function Ancestry(n: Node): seq<Pos>
    decreases n
  {
    match n.parent
    case None => [n.position]
    case Some(p) => Ancestry(p) + [n.position]
  }

  /** Each cell after the first is a passable cell one move from the one
      before. */
  ghost predicate GridWalk(grid: Grid, path: seq<Pos>)
    requires Rectangular(grid)
  {
    |path| >= 1 && forall i :: 0 <= i < |path| - 1 ==> Step(grid, path[i], path[i + 1])
  }

  predicate Step(grid: Grid, a: Pos, b: Pos)
    requires Rectangular(grid)
  {
    Passable(grid, b) && Adjacent(a, b)
  }

  /** The chain of a well-linked node is a walk from the start to the
      node's cell, with one more cell than the node's cost. */
  lemma {:induction false} AncestryIsWalk(grid: Grid, start: Pos, goal: Pos, n: Node)
    requires Rectangular(grid) && WellLinked(grid, start, goal, n)
    ensures |Ancestry(n)| == n.g + 1 && Ancestry(n)[0] == start && Ancestry(n)[|Ancestry(n)| - 1] == n.position
    ensures GridWalk(grid, Ancestry(n))
    decreases n
  {
    match n.parent
    case None =>
    case Some(p) =>
      AncestryIsWalk(grid, start, goal, p);
      var a := Ancestry(p);
      assert Ancestry(n) == a + [n.position];
      forall i | 0 <= i < |a + [n.position]| - 1
        ensures Step(grid, (a + [n.position])[i], (a + [n.position])[i + 1])
      {
        if i < |a| - 1 {
          assert (a + [n.position])[i] == a[i] && (a + [n.position])[i + 1] == a[i + 1];
        }
      }
  }

  /** A walk needs at least as many moves as the Manhattan distance between
      its ends. */
  lemma {:induction false} WalkAtLeastHeuristic(grid: Grid, path: seq<Pos>, i: nat)
    requires Rectangular(grid) && GridWalk(grid, path) && i < |path|
    ensures Heuristic(path[0], path[i]) <= i
  {
    if i > 0 {
      WalkAtLeastHeuristic(grid, path, i - 1);
      assert Step(grid, path[i - 1], path[i]);
    }
  }

  /** Follows the parent links from `node`, collecting positions, and
      returns them reversed: the chain from its root down to `node`. */
  method ReconstructPath(node: Node) returns (path: seq<Pos>)
    ensures path == Ancestry(node)
  {
    var collected: seq<Pos> := [];
    var current := Some(node);
    while current.Some?
      invariant Ancestry(node) == (if current.Some? then Ancestry(current.value) else []) + Reverse(collected)
      decreases current
    {
      ReverseSnoc(collected, current.value.position);
      collected := collected + [current.value.position];
      current := current.value.parent;
    }
    path := Reverse(collected);
  }

  datatype SearchResult = Found(path: seq<Pos>) | NotFound | OutOfFuel

  /** A walk from `start` to `goal` exists. */
  /** On a grid without rows no cell is passable, so a walk never leaves
      its first cell. */
  lemma EmptyGridWalk(grid: Grid, path: seq<Pos>)
    requires grid == [] && |path| >= 1
    ensures GridWalk(grid, path) <==> |path| == 1
  {
    if |path| > 1 {
      assert !Step(grid, path[0], path[1]);
    }
  }

  ghost predicate GridReachable(grid: Grid, start: Pos, goal: Pos)
    requires Rectangular(grid)
  {
    exists path :: GridWalk(grid, path) && path[0] == start && path[|path| - 1] == goal
  }

  /** Every passable cell one move from a closed node is closed or open. */
  ghost predicate Covered(grid: Grid, closed: seq<Node>, open: seq<Node>)
    requires Rectangular(grid)
  {
    forall c, q :: c in closed && Step(grid, c.position, q) ==> q in Positions(closed) || q in Positions(open)
  }

  /** The state of the main loop. */
  ghost predicate Searching(grid: Grid, start: Pos, goal: Pos, open: seq<Node>, closed: seq<Node>)
    requires Rectangular(grid)
  {
    (forall n :: n in open ==> WellLinked(grid, start, goal, n)) &&
    (forall n :: n in closed ==> WellLinked(grid, start, goal, n)) &&
    goal !in Positions(closed) &&
    start in Positions(closed) + Positions(open) &&
    Covered(grid, closed, open)
  }

  /** The A* loop: repeatedly closes an open node of least `f` (any one of
      them: the order among equal `f` is left open), returns its chain if it
      is at the goal, and otherwise relaxes its neighbours.  `fuel` bounds
      the number of rounds. */
  method AStarSearch(grid: Grid, start: Pos, goal: Pos, fuel: nat) returns (result: SearchResult)
    requires Rectangular(grid)
    ensures result.Found? ==> GridWalk(grid, result.path) && result.path[0] == start &&
                              result.path[|result.path| - 1] == goal
    ensures result.Found? ==> Heuristic(start, goal) <= |result.path| - 1
    ensures result.NotFound? ==> !GridReachable(grid, start, goal)
    ensures start == goal && fuel > 0 ==> result == Found([start])
  {
    var open := [NewNode(start, None)];
    var closed: seq<Node> := [];
    var rounds: nat := fuel;
    assert Positions(open) == {start};
    while |open| > 0
      invariant Searching(grid, start, goal, open, closed)
      invariant rounds <= fuel
      invariant rounds == fuel ==> |open| == 1 && open[0].position == start && open[0].parent.None?
      invariant rounds < fuel ==> start != goal
      decreases rounds
    {
      if rounds == 0 {
        return OutOfFuel;
      }
      rounds := rounds - 1;
      ghost var least := LeastExists(open);
      var i :| 0 <= i < |open| && Least(open, i);
      var current := open[i];
      ghost var open0, closed0 := open, closed;
      open := open[..i] + open[i + 1..];
      closed := closed + [current];
      if current.position == goal {
        var path := ReconstructPath(current);
        assert rounds + 1 == fuel ==> path == [start];
        AncestryIsWalk(grid, start, goal, current);
        WalkAtLeastHeuristic(grid, path, |path| - 1);
        return Found(path);
      }
      var neighbors := GetNeighbors(current, grid);
      var open1 := open;
      open := ExpandNeighbors(open, closed, neighbors, current, goal);
      PopKeepsPositions(open0, i);
      RelaxPushes(grid, goal, open1, closed, neighbors, current);
      RoundKeeps(grid, start, goal, open0, closed0, i, open1, neighbors, open);
    }
    NotFoundUnreachable(grid, start, goal, closed);
    return NotFound;
  }

  /** Entry `i` has the least priority. */
  predicate Least(open: seq<Node>, i: int)
  {
    0 <= i < |open| && forall j :: 0 <= j < |open| ==> open[i].f <= open[j].f
  }

  lemma LeastExists(open: seq<Node>) returns (k: nat)
    requires |open| > 0
    ensures Least(open, k)
  {
    k := 0;
    for m := 1 to |open|
      invariant 0 <= k < |open| && forall j :: 0 <= j < m ==> open[k].f <= open[j].f
    {
      if open[m].f < open[k].f {
        k := m;
      }
    }
  }


  /** Removing one node from a list removes at most its position. */
  lemma PopKeepsPositions(open: seq<Node>, i: nat)
    requires i < |open|
    ensures Positions(open) <= Positions(open[..i] + open[i + 1..]) + {open[i].position}
    ensures forall n :: n in open[..i] + open[i + 1..] ==> n in open
  {
    var rest := open[..i] + open[i + 1..];
    forall p | p in Positions(open)
      ensures p in Positions(rest) + {open[i].position}
    {
      var n :| n in open && n.position == p;
      var j :| 0 <= j < |open| && open[j] == n;
      if j < i {
        assert rest[j] == n;
      } else if j > i {
        assert rest[j - 1] == n;
      }
    }
  }

  /** One expansion of `open0[i]` keeps the state of the main loop. */
  lemma RoundKeeps(grid: Grid, start: Pos, goal: Pos, open0: seq<Node>, closed0: seq<Node>, i: nat,
                   open1: seq<Node>, neighbors: seq<Node>, open: seq<Node>)
    requires Rectangular(grid) && Searching(grid, start, goal, open0, closed0)
    requires i < |open0| && open0[i].position != goal && open1 == open0[..i] + open0[i + 1..]
    requires Positions(open0) <= Positions(open1) + {open0[i].position}
    requires forall n :: n in open1 ==> n in open0
    requires forall q :: Step(grid, open0[i].position, q) ==> exists n :: n in neighbors && n.position == q
    requires |open| >= |open1| && open[..|open1|] == open1
    requires forall j :: |open1| <= j < |open| ==> Pushed(grid, goal, closed0 + [open0[i]], open0[i], open[j])
    requires forall n :: n in neighbors ==> n.position in Positions(closed0 + [open0[i]]) || n.position in Positions(open)
    ensures Searching(grid, start, goal, open, closed0 + [open0[i]])
  {
    var current := open0[i];
    var closed := closed0 + [current];
    assert current in open0;
    AppendPositions(closed0, current);
    PrefixPositions(open1, open);
    PushedWellLinked(grid, start, goal, closed, current, open1, open);
    forall q | Step(grid, current.position, q)
      ensures q in Positions(closed) + Positions(open)
    {
      var n :| n in neighbors && n.position == q;
    }
    CoveredKeeps(grid, closed0, open0, current, closed, open);
  }

  /** Closing `current` once all its neighbour cells are closed or open
      keeps every closed node covered, as long as no position is lost. */
  lemma CoveredKeeps(grid: Grid, closed0: seq<Node>, open0: seq<Node>, current: Node, closed: seq<Node>, open: seq<Node>)
    requires Rectangular(grid) && Covered(grid, closed0, open0)
    requires Positions(closed0) + Positions(open0) <= Positions(closed) + Positions(open)
    requires forall m :: m in closed ==> m in closed0 || m == current
    requires forall q :: Step(grid, current.position, q) ==> q in Positions(closed) + Positions(open)
    ensures Covered(grid, closed, open)
  {
    forall c, q | c in closed && Step(grid, c.position, q)
      ensures q in Positions(closed) || q in Positions(open)
    {
      if c != current {
        assert q in Positions(closed0) + Positions(open0);
      }
    }
  }

  lemma AppendPositions(s: seq<Node>, n: Node)
    ensures Positions(s + [n]) == Positions(s) + {n.position}
    ensures forall m :: m in s + [n] ==> m in s || m == n
  {
    forall p | p in Positions(s + [n])
      ensures p in Positions(s) + {n.position}
    {
      var m :| m in s + [n] && m.position == p;
      if m != n {
        assert m in s;
      }
    }
  }

  lemma PrefixPositions(s: seq<Node>, t: seq<Node>)
    requires |t| >= |s| && t[..|s|] == s
    ensures Positions(s) <= Positions(t)
  {
    forall p | p in Positions(s)
      ensures p in Positions(t)
    {
      var n :| n in s && n.position == p;
      var j :| 0 <= j < |s| && s[j] == n;
      assert t[j] == n;
    }
  }

  lemma PushedWellLinked(grid: Grid, start: Pos, goal: Pos, closed: seq<Node>, current: Node, open1: seq<Node>, open: seq<Node>)
    requires Rectangular(grid) && WellLinked(grid, start, goal, current)
    requires forall n :: n in open1 ==> WellLinked(grid, start, goal, n)
    requires |open| >= |open1| && open[..|open1|] == open1
    requires forall j :: |open1| <= j < |open| ==> Pushed(grid, goal, closed, current, open[j])
    ensures forall n :: n in open ==> WellLinked(grid, start, goal, n)
  {
    forall n | n in open
      ensures WellLinked(grid, start, goal, n)
    {
      var j :| 0 <= j < |open| && open[j] == n;
      if j < |open1| {
        assert open1[j] == n;
      } else {
        assert Pushed(grid, goal, closed, current, n);
      }
    }
  }

  /** When the open list is empty the closed cells hold the start, not the
      goal, and every passable cell one move from them: no walk reaches the
      goal. */
  lemma NotFoundUnreachable(grid: Grid, start: Pos, goal: Pos, closed: seq<Node>)
    requires Rectangular(grid) && Searching(grid, start, goal, [], closed)
    ensures !GridReachable(grid, start, goal)
  {
    assert Positions([]) == {};
    forall path | GridWalk(grid, path) && path[0] == start
      ensures path[|path| - 1] != goal
    {
      ClosedCellsHoldWalk(grid, closed, path, |path| - 1);
    }
  }

  lemma {:induction false} ClosedCellsHoldWalk(grid: Grid, closed: seq<Node>, path: seq<Pos>, i: nat)
    requires Rectangular(grid) && Covered(grid, closed, []) && GridWalk(grid, path)
    requires path[0] in Positions(closed) && i < |path|
    ensures path[i] in Positions(closed)
  {
    if i > 0 {
      ClosedCellsHoldWalk(grid, closed, path, i - 1);
      assert Step(grid, path[i - 1], path[i]);
      var c :| c in closed && c.position == path[i - 1];
      assert Positions([]) == {};
    }
  }
}
