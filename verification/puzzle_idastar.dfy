/** IDA* on the sliding-tile puzzle.  A state lists the tiles of a
    `size` x `size` board row by row, 0 being the blank; a move slides the
    blank up, right, down or left.  Nodes are values linked to their
    parents; each contour is a depth-first search cut off where
    `f = g + h` exceeds the threshold. */
module PuzzleIdaStar {
  import opened Common

  datatype Move = Up | Right | Down | Left

  /** A search node: its state, the node it came from, the move that led
      to it, its cost and its depth. */
  datatype PuzzleNode = PuzzleNode(state: seq<int>, parent: Option<PuzzleNode>, action: Option<Move>,
                                   pathCost: int, depth: nat)

  /** A node, one deeper than its parent if it has one. */
  function MakeNode(state: seq<int>, parent: Option<PuzzleNode>, action: Option<Move>, pathCost: int): (n: PuzzleNode)
    ensures n.state == state && n.parent == parent && n.action == action && n.pathCost == pathCost
    ensures n.depth == if parent.Some? then parent.value.depth + 1 else 0
  {
    PuzzleNode(state, parent, action, pathCost, if parent.Some? then parent.value.depth + 1 else 0)
  }

  /** Every depth on the parent chain is one more than the parent's, and
      the root's is 0. */
  ghost predicate Counted(n: PuzzleNode)
    decreases n
  {
    match n.parent
    case None => n.depth == 0
    case Some(p) => n.depth == p.depth + 1 && Counted(p)
  }

  /** The first index of `x` in `s`. */
  function IndexOf(s: seq<int>, x: int): (k: nat)
    requires x in s
    ensures k < |s| && s[k] == x
  {
    if s[0] == x then 0 else 1 + IndexOf(s[1..], x)
  }

  /** `IndexOf` finds the first cell holding `x`. */
  lemma {:induction false} IndexOfFirst(s: seq<int>, x: int)
    requires x in s
    ensures forall j :: 0 <= j < IndexOf(s, x) ==> s[j] != x
  {
    if s[0] != x {
      IndexOfFirst(s[1..], x);
      forall j | 0 < j < IndexOf(s, x)
        ensures s[j] != x
      {
        assert s[j] == s[1..][j - 1];
      }
    }
  }

  /** The board distance between cells `a` and `b`: columns `% size`,
      rows `/ size`. */
  function CellDistance(a: nat, b: nat, size: nat): nat
    requires size >= 1
  {
    Abs(a % size - b % size) + Abs(a / size - b / size)
  }

  lemma CellDistanceZero(a: nat, b: nat, size: nat)
    requires size >= 1
    ensures CellDistance(a, b, size) == 0 <==> a == b
  {
    if CellDistance(a, b, size) == 0 {
      assert a == size * (a / size) + a % size;
      assert b == size * (b / size) + b % size;
    }
  }

  /** The number of cells of a board of side `size`, counted row by row. */
  function Cells(size: nat): nat
  {
    if size == 0 then 0 else Cells(size - 1) + 2 * size - 1
  }

  lemma {:induction false} CellsSquare(size: nat)
    ensures Cells(size) == size * size
  {
    if size > 0 {
      CellsSquare(size - 1);
    }
  }

  /** A state of a board of side `size` with a blank; having a blank, the
      board has at least one cell. */
  ghost predicate Tiles(state: seq<int>, size: nat)
  {
    |state| == Cells(size) && 0 in state
  }

  /** The tiles and lengths the heuristic and the moves rely on: a square
      board, a goal as long, a blank, and every tile present in the goal. */
  ghost predicate Board(state: seq<int>, goal: seq<int>, size: nat)
  {
    Tiles(state, size) && |goal| == |state| &&
    forall t :: t in state ==> t in goal
  }

  /** What cell `i` adds to the heuristic: nothing for the blank or a tile
      in place, else its distance to the first goal cell holding it. */
  function Term(state: seq<int>, goal: seq<int>, size: nat, i: nat): nat
    requires Board(state, goal, size) && i < |state|
  {
    if state[i] != 0 && state[i] != goal[i] then CellDistance(i, IndexOf(goal, state[i]), size) else 0
  }

  /** The heuristic summed over cells `0 .. n - 1`. */
  function ManhattanUpTo(state: seq<int>, goal: seq<int>, size: nat, n: nat): nat
    requires Board(state, goal, size) && n <= |state|
  {
    if n == 0 then 0 else ManhattanUpTo(state, goal, size, n - 1) + Term(state, goal, size, n - 1)
  }

  function Manhattan(state: seq<int>, goal: seq<int>, size: nat): nat
    requires Board(state, goal, size)
  {
    ManhattanUpTo(state, goal, size, |state|)
  }

  /** The sum, cell by cell. */
  method ManhattanDistance(state: seq<int>, goal: seq<int>, size: nat) returns (distance: nat)
    requires Board(state, goal, size)
    ensures distance == Manhattan(state, goal, size)
  {
    distance := 0;
    for i := 0 to |state|
      invariant distance == ManhattanUpTo(state, goal, size, i)
    {
      if state[i] != 0 && state[i] != goal[i] {
        var goalPos := IndexOf(goal, state[i]);
        var x1, y1 := i % size, i / size;
        var x2, y2 := goalPos % size, goalPos / size;
        distance := distance + Abs(x1 - x2) + Abs(y1 - y2);
      }
    }
  }

  /** The heuristic is 0 exactly when every tile but the blank is in its
      goal cell. */
  lemma {:induction false} ManhattanZero(state: seq<int>, goal: seq<int>, size: nat, n: nat)
    requires Board(state, goal, size) && n <= |state|
    ensures ManhattanUpTo(state, goal, size, n) == 0 <==>
            forall i :: 0 <= i < n ==> state[i] == 0 || state[i] == goal[i]
  {
    if n > 0 {
      ManhattanZero(state, goal, size, n - 1);
      var i := n - 1;
      if state[i] != 0 && state[i] != goal[i] {
        CellDistanceZero(i, IndexOf(goal, state[i]), size);
      }
    }
  }

  /** The goal has heuristic 0, and so has any state that differs from it
      only where the blank is. */
  lemma GoalHasZeroHeuristic(goal: seq<int>, size: nat)
    requires Board(goal, goal, size)
    ensures Manhattan(goal, goal, size) == 0
  {
    ManhattanZero(goal, goal, size, |goal|);
  }

  /** The blank's cell. */
  function GetBlankPosition(state: seq<int>): (k: nat)
    requires 0 in state
    ensures k < |state| && state[k] == 0
  {
    IndexOf(state, 0)
  }

  /** The moves in the order they are tried. */
  function Moves(): (ms: seq<Move>)
    ensures |ms| == 4
  {
    [Up, Right, Down, Left]
  }

  /** How far the blank moves in the list. */
  function Offset(m: Move, size: nat): int
  {
    match m
    case Up => -(size as int)
    case Right => 1
    case Down => size
    case Left => -1
  }

  /** The move would take the blank off the board or across a row end. */
  predicate Blocked(m: Move, blank: int, size: int, length: int)
    requires size >= 1
  {
    match m
    case Up => blank < size
    case Right => blank % size == size - 1
    case Down => blank >= length - size
    case Left => blank % size == 0
  }

  /** `s` with cells `i` and `j` exchanged. */
  function Swap(s: seq<int>, i: nat, j: nat): (r: seq<int>)
    requires i < |s| && j < |s|
    ensures |r| == |s|
  {
    s[i := s[j]][j := s[i]]
  }

  /** Exchanging two cells keeps the same tiles. */
  lemma SwapPermutes(s: seq<int>, i: nat, j: nat)
    requires i < |s| && j < |s|
    ensures multiset(Swap(s, i, j)) == multiset(s)
  {
  }

  /** A larger factor gives a product larger by at least `size`. */
  lemma MulGrows(size: nat, a: int, b: int)
    requires a < b
    ensures size * a + size <= size * b
  {
    var k := b - a;
    assert size * b == size * a + size * k;
    assert size * k == size * (k - 1) + size;
    assert size * (k - 1) >= 0;
  }

  /** `p` lies in row `q` and column `r` only if `q` and `r` are its
      quotient and remainder by `size`. */
  lemma DivModUnique(p: int, size: nat, q: int, r: int)
    requires size >= 1 && 0 <= r < size && p == size * q + r
    ensures p / size == q && p % size == r
  {
    var q', r' := p / size, p % size;
    assert p == size * q' + r' && 0 <= r' < size;
    if q' < q {
      MulGrows(size, q', q);
    } else if q < q' {
      MulGrows(size, q, q');
    }
  }

  /** A cell of the board lies in one of its `size` rows. */
  lemma RowBound(p: nat, size: nat)
    requires size >= 1 && p < size * size
    ensures p / size < size
  {
    var q := p / size;
    assert p == size * q + p % size;
    if q >= size {
      MulGrows(size, size - 1, q);
    }
  }

  /** The cell the blank moves to is on the board. */
  lemma TargetOnBoard(m: Move, blank: nat, size: nat)
    requires size >= 1 && blank < Cells(size) && !Blocked(m, blank, size, Cells(size))
    ensures 0 <= blank + Offset(m, size) < Cells(size)
  {
    CellsSquare(size);
    match m
    case Up =>
    case Down =>
    case Left =>
      if blank == 0 {
        DivModUnique(0, size, 0, 0);
      }
    case Right =>
      var q := blank / size;
      assert blank == size * q + blank % size;
      RowBound(blank, size);
      MulGrows(size, q, size);
  }

  /** The successor the move `m` gives, if it is not blocked. */
  function Step(node: PuzzleNode, size: nat, m: Move): seq<PuzzleNode>
    requires Tiles(node.state, size)
  {
    var blank := GetBlankPosition(node.state);
    if Blocked(m, blank, size, |node.state|) then []
    else
      TargetOnBoard(m, blank, size);
      [MakeNode(Swap(node.state, blank, blank + Offset(m, size)), Some(node), Some(m), node.pathCost + 1)]
  }

  /** The successors reached by the moves `ms`, in order. */
  function SuccessorsBy(node: PuzzleNode, size: nat, ms: seq<Move>): seq<PuzzleNode>
    requires Tiles(node.state, size)
  {
    if |ms| == 0 then []
    else SuccessorsBy(node, size, ms[..|ms| - 1]) + Step(node, size, ms[|ms| - 1])
  }

  /** Each move gives at most one successor, one move deeper than `node`
      and costing one more. */
  lemma {:induction false} SuccessorsByFacts(node: PuzzleNode, size: nat, ms: seq<Move>)
    requires Tiles(node.state, size)
    ensures var r := SuccessorsBy(node, size, ms);
            |r| <= |ms| &&
            forall s :: s in r ==> s.parent == Some(node) && s.pathCost == node.pathCost + 1 &&
                                   s.depth == node.depth + 1 && s.action.Some?
  {
    if |ms| > 0 {
      SuccessorsByFacts(node, size, ms[..|ms| - 1]);
      StepFacts(node, size, ms[|ms| - 1]);
    }
  }

  lemma StepFacts(node: PuzzleNode, size: nat, m: Move)
    requires Tiles(node.state, size)
    ensures var r := Step(node, size, m);
            |r| <= 1 &&
            forall s :: s in r ==> s.parent == Some(node) && s.pathCost == node.pathCost + 1 &&
                                   s.depth == node.depth + 1 && s.action == Some(m)
  {
  }

  /** An open move gives the board with the blank moved. */
  lemma StepOpen(node: PuzzleNode, size: nat, m: Move)
    requires Tiles(node.state, size)
    requires !Blocked(m, GetBlankPosition(node.state), size, |node.state|)
    requires 0 <= GetBlankPosition(node.state) + Offset(m, size) < |node.state|
    ensures var blank := GetBlankPosition(node.state);
            Step(node, size, m) ==
              [MakeNode(Swap(node.state, blank, blank + Offset(m, size)), Some(node), Some(m), node.pathCost + 1)]
  {
  }

  /** The successors of `node`, by the moves in order. */
  function Successors(node: PuzzleNode, size: nat): seq<PuzzleNode>
    requires Tiles(node.state, size)
  {
    SuccessorsBy(node, size, Moves())
  }

  /** At most one successor per move, each one move deeper than `node`
      and costing one more. */
  lemma SuccessorsFacts(node: PuzzleNode, size: nat)
    requires Tiles(node.state, size)
    ensures var r := Successors(node, size);
            |r| <= 4 &&
            forall s :: s in r ==> s.parent == Some(node) && s.pathCost == node.pathCost + 1 &&
                                   s.depth == node.depth + 1 && s.action.Some?
  {
    SuccessorsByFacts(node, size, Moves());
  }

  /** A successor keeps `node`'s tiles, rearranged. */
  lemma SuccessorsPermute(node: PuzzleNode, size: nat)
    requires Tiles(node.state, size)
    ensures forall s :: s in Successors(node, size) ==> multiset(s.state) == multiset(node.state)
  {
    SuccessorsAreMoves(node, size, Moves());
    var blank := GetBlankPosition(node.state);
    forall s | s in Successors(node, size)
      ensures multiset(s.state) == multiset(node.state)
    {
      var target: nat :| target < |node.state| && CellDistance(blank, target, size) == 1 &&
                         s.state == Swap(node.state, blank, target);
      SwapPermutes(node.state, blank, target);
    }
  }

  /** The successors of `node`: for each unblocked move, in order, the
      state with the blank swapped with the tile it moves onto. */
  method GetSuccessors(node: PuzzleNode, size: nat) returns (successors: seq<PuzzleNode>)
    requires Tiles(node.state, size)
    ensures successors == Successors(node, size)
  {
    successors := [];
    var blankPos := GetBlankPosition(node.state);
    var state := node.state;
    for k := 0 to |Moves()|
      invariant successors == SuccessorsBy(node, size, Moves()[..k])
    {
      var action := Moves()[k];
      if Blocked(action, blankPos, size, |state|) {
        MoveBlocked(node, size, Moves(), k);
        continue;
      }
      TargetOnBoard(action, blankPos, size);
      MoveOpen(node, size, Moves(), k);
      var newPos := blankPos + Offset(action, size);
      var newState := Swap(state, blankPos, newPos);
      var successor := MakeNode(newState, Some(node), Some(action), node.pathCost + 1);
      successors := successors + [successor];
    }
    assert Moves()[..|Moves()|] == Moves();
  }

  /** A blocked move `ms[k]` adds no successor. */
  lemma MoveBlocked(node: PuzzleNode, size: nat, ms: seq<Move>, k: nat)
    requires Tiles(node.state, size) && k < |ms|
    requires Blocked(ms[k], GetBlankPosition(node.state), size, |node.state|)
    ensures SuccessorsBy(node, size, ms[..k + 1]) == SuccessorsBy(node, size, ms[..k])
  {
    assert ms[..k + 1][..k] == ms[..k];
  }

  /** An open move `ms[k]` adds the board with the blank moved. */
  lemma MoveOpen(node: PuzzleNode, size: nat, ms: seq<Move>, k: nat)
    requires Tiles(node.state, size) && k < |ms|
    requires !Blocked(ms[k], GetBlankPosition(node.state), size, |node.state|)
    requires 0 <= GetBlankPosition(node.state) + Offset(ms[k], size) < |node.state|
    ensures var blank, m := GetBlankPosition(node.state), ms[k];
            SuccessorsBy(node, size, ms[..k + 1]) ==
              SuccessorsBy(node, size, ms[..k]) +
              [MakeNode(Swap(node.state, blank, blank + Offset(m, size)), Some(node), Some(m), node.pathCost + 1)]
  {
    var blank, m := GetBlankPosition(node.state), ms[k];
    StepOpen(node, size, m);
    assert ms[..k + 1][..k] == ms[..k];
    assert SuccessorsBy(node, size, ms[..k + 1]) == SuccessorsBy(node, size, ms[..k]) + Step(node, size, m);
  }

  /** Each successor is a board one move away: the blank has gone to a
      neighbouring cell, in the same row or the same column, and the tile
      there has taken its place; there are at most four. */
  lemma {:induction false} SuccessorsAreMoves(node: PuzzleNode, size: nat, ms: seq<Move>)
    requires Tiles(node.state, size)
    ensures var blank := GetBlankPosition(node.state);
            forall s :: s in SuccessorsBy(node, size, ms) ==>
              exists target: nat :: target < |node.state| && CellDistance(blank, target, size) == 1 &&
                                    s.state == Swap(node.state, blank, target)
  {
    if |ms| > 0 {
      SuccessorsAreMoves(node, size, ms[..|ms| - 1]);
      var m := ms[|ms| - 1];
      var blank := GetBlankPosition(node.state);
      if !Blocked(m, blank, size, |node.state|) {
        TargetOnBoard(m, blank, size);
        var target: nat := blank + Offset(m, size);
        NoWrap(m, blank, size);
        var s := Step(node, size, m)[0];
        assert target < |node.state| && CellDistance(blank, target, size) == 1 && s.state == Swap(node.state, blank, target);
      }
    }
  }

  /** The cell `size` further on is in the next row, same column. */
  lemma NextRow(p: nat, size: nat)
    requires size >= 1
    ensures (p + size) / size == p / size + 1 && (p + size) % size == p % size
  {
    var q, r := p / size, p % size;
    assert p + size == size * (q + 1) + r;
    DivModUnique(p + size, size, q + 1, r);
  }

  /** The next cell, when `p` does not end its row, is in the same row,
      next column. */
  lemma NextColumn(p: nat, size: nat)
    requires size >= 1 && p % size != size - 1
    ensures (p + 1) / size == p / size && (p + 1) % size == p % size + 1
  {
    DivModUnique(p + 1, size, p / size, p % size + 1);
  }

  /** A move that is not blocked changes the row by one and keeps the
      column, or keeps the row and changes the column by one. */
  lemma NoWrap(m: Move, blank: nat, size: nat)
    requires size >= 1 && blank < Cells(size) && !Blocked(m, blank, size, Cells(size))
    ensures blank + Offset(m, size) >= 0 && CellDistance(blank, blank + Offset(m, size), size) == 1
  {
    TargetOnBoard(m, blank, size);
    match m
    case Up => NextRow(blank - size, size);
    case Down => NextRow(blank, size);
    case Right => NextColumn(blank, size);
    case Left =>
      var p := blank - 1;
      DivModUnique(blank, size, blank / size, blank % size);
      assert p % size != size - 1 by {
        if p % size == size - 1 {
          NextRowEnd(p, size);
        }
      }
      NextColumn(p, size);
  }

  /** The cell after the end of a row starts a row. */
  lemma NextRowEnd(p: nat, size: nat)
    requires size >= 1 && p % size == size - 1
    ensures (p + 1) % size == 0
  {
    DivModUnique(p + 1, size, p / size + 1, 0);
  }

  /** More moves give at least as many successors. */
  lemma {:induction false} MoreMoves(node: PuzzleNode, size: nat, ms: seq<Move>, k: nat)
    requires Tiles(node.state, size) && k <= |ms|
    ensures |SuccessorsBy(node, size, ms[..k])| <= |SuccessorsBy(node, size, ms)|
  {
    if k < |ms| {
      assert ms[..|ms| - 1][..k] == ms[..k];
      MoreMoves(node, size, ms[..|ms| - 1], k);
    } else {
      assert ms[..k] == ms;
    }
  }

  /** On a board of side 2 or more the blank can always move. */
  lemma SomeSuccessor(node: PuzzleNode, size: nat)
    requires size >= 2 && Tiles(node.state, size)
    ensures |Successors(node, size)| >= 1
  {
    var blank := GetBlankPosition(node.state);
    CellsSquare(size);
    MulGrows(size, 1, size);
    if blank < size {
      assert !Blocked(Down, blank, size, |node.state|);
      assert |Step(node, size, Down)| == 1;
      assert Moves()[..3][..2] == Moves()[..2] && Moves()[..3][2] == Down;
      assert |SuccessorsBy(node, size, Moves()[..3])| >= 1;
      MoreMoves(node, size, Moves(), 3);
    } else {
      assert !Blocked(Up, blank, size, |node.state|);
      assert |Step(node, size, Up)| == 1;
      assert Moves()[..1][..0] == [] && Moves()[..1][0] == Up;
      assert |SuccessorsBy(node, size, Moves()[..1])| >= 1;
      MoreMoves(node, size, Moves(), 1);
    }
  }

  function Max0(m: int): nat
  {
    if m > 0 then m else 0
  }

  /** Every node of `ns` is a board for `goal`. */
  ghost predicate Boards(ns: seq<PuzzleNode>, goal: seq<int>, size: nat)
  {
    forall n :: n in ns ==> Board(n.state, goal, size)
  }

  lemma SuccessorsAreBoards(node: PuzzleNode, goal: seq<int>, size: nat)
    requires Board(node.state, goal, size)
    ensures Boards(Successors(node, size), goal, size)
  {
    SuccessorsPermute(node, size);
    forall s | s in Successors(node, size)
      ensures Board(s.state, goal, size)
    {
      assert multiset(s.state) == multiset(node.state);
      forall t | t in s.state
        ensures t in goal
      {
        assert t in multiset(s.state);
      }
      assert 0 in multiset(node.state);
    }
  }

  /** One contour below `node`, reached at cost `g`: cut off with
      `min(f, next)` if `f = g + h` exceeds the threshold, the node itself
      if it is the goal, and otherwise the first result among the
      successors, with the least value they reported. */
  function DfsContour(node: PuzzleNode, goal: seq<int>, size: nat, g: int, threshold: int, next: Ext)
    : (Option<PuzzleNode>, Ext)
    requires Board(node.state, goal, size)
    decreases Max0(threshold - g + 1), 0
  {
    var f := g + Manhattan(node.state, goal, size);
    if f > threshold then (None, Min(Fin(f), next))
    else if node.state == goal then (Some(node), Fin(threshold))
    else
      SuccessorsAreBoards(node, goal, size);
      ContourList(Successors(node, size), goal, size, g + 1, threshold, next, PosInf)
  }

  /** The successor loop of `DfsContour`, `least` being the least value
      reported so far. */
  function ContourList(ns: seq<PuzzleNode>, goal: seq<int>, size: nat, g: int, threshold: int, next: Ext, least: Ext)
    : (Option<PuzzleNode>, Ext)
    requires Boards(ns, goal, size)
    decreases Max0(threshold - g + 1), |ns| + 1
  {
    if |ns| == 0 then (None, least)
    else
      var (result, newThreshold) := DfsContour(ns[0], goal, size, g, threshold, next);
      if result.Some? then (result, Fin(threshold))
      else ContourList(ns[1..], goal, size, g, threshold, next, Min(least, newThreshold))
  }

  /** `n` is `root` or lies below it, each node one move from its parent. */
  ghost predicate Below(n: PuzzleNode, root: PuzzleNode, size: nat)
    decreases n
  {
    n == root ||
    (n.parent.Some? && Tiles(n.parent.value.state, size) &&
     n in Successors(n.parent.value, size) && Below(n.parent.value, root, size))
  }

  /** A contour that finds a node finds a goal node below the start, no
      deeper than the threshold allows. */
  lemma {:induction false} ContourFound(node: PuzzleNode, goal: seq<int>, size: nat, g: int, threshold: int, next: Ext)
    requires Board(node.state, goal, size)
    ensures var (r, _) := DfsContour(node, goal, size, g, threshold, next);
            r.Some? ==> r.value.state == goal && Below(r.value, node, size) &&
                        node.depth <= r.value.depth && g + (r.value.depth - node.depth) <= threshold
    decreases Max0(threshold - g + 1), 0
  {
    var f := g + Manhattan(node.state, goal, size);
    if f <= threshold && node.state != goal {
      SuccessorsAreBoards(node, goal, size);
      ContourListFound(node, Successors(node, size), goal, size, g + 1, threshold, next, PosInf);
    }
  }

  lemma {:induction false} ContourListFound(parent: PuzzleNode, ns: seq<PuzzleNode>, goal: seq<int>, size: nat,
                                            g: int, threshold: int, next: Ext, least: Ext)
    requires Boards(ns, goal, size) && Board(parent.state, goal, size) && g <= threshold + 1
    requires forall n :: n in ns ==> n in Successors(parent, size)
    ensures var (r, _) := ContourList(ns, goal, size, g, threshold, next, least);
            r.Some? ==> r.value.state == goal && Below(r.value, parent, size) && r.value != parent &&
                        parent.depth < r.value.depth && g + (r.value.depth - parent.depth - 1) <= threshold
    decreases Max0(threshold - g + 1), |ns| + 1
  {
    if |ns| > 0 {
      var child := ns[0];
      ContourFound(child, goal, size, g, threshold, next);
      var (result, newThreshold) := DfsContour(child, goal, size, g, threshold, next);
      if result.Some? {
        BelowChild(result.value, child, parent, size);
      } else {
        ContourListFound(parent, ns[1..], goal, size, g, threshold, next, Min(least, newThreshold));
      }
    }
  }

  /** Below a successor of `parent` is below `parent`, and deeper. */
  lemma {:induction false} BelowChild(n: PuzzleNode, child: PuzzleNode, parent: PuzzleNode, size: nat)
    requires Tiles(parent.state, size)
    requires child in Successors(parent, size) && Below(n, child, size)
    ensures Below(n, parent, size) && n != parent && n.depth >= child.depth == parent.depth + 1
    decreases n
  {
    SuccessorsFacts(parent, size);
    if n != child {
      SuccessorsFacts(n.parent.value, size);
      BelowChild(n.parent.value, child, parent, size);
    }
  }

  /** A contour that finds nothing reports a value above the threshold,
      when the value it was given is above it. */
  lemma {:induction false} ContourRaises(node: PuzzleNode, goal: seq<int>, size: nat, g: int, threshold: int, next: Ext)
    requires Board(node.state, goal, size) && Fin(threshold).Lt(next)
    ensures var (r, t) := DfsContour(node, goal, size, g, threshold, next);
            r.None? ==> Fin(threshold).Lt(t)
    decreases Max0(threshold - g + 1), 0
  {
    var f := g + Manhattan(node.state, goal, size);
    if f <= threshold && node.state != goal {
      SuccessorsAreBoards(node, goal, size);
      ContourListRaises(Successors(node, size), goal, size, g + 1, threshold, next, PosInf);
    }
  }

  lemma {:induction false} ContourListRaises(ns: seq<PuzzleNode>, goal: seq<int>, size: nat, g: int, threshold: int,
                                             next: Ext, least: Ext)
    requires Boards(ns, goal, size) && Fin(threshold).Lt(next) && Fin(threshold).Lt(least)
    ensures var (r, t) := ContourList(ns, goal, size, g, threshold, next, least);
            r.None? ==> Fin(threshold).Lt(t)
    decreases Max0(threshold - g + 1), |ns| + 1
  {
    if |ns| > 0 {
      ContourRaises(ns[0], goal, size, g, threshold, next);
      var (result, newThreshold) := DfsContour(ns[0], goal, size, g, threshold, next);
      if result.None? {
        ContourListRaises(ns[1..], goal, size, g, threshold, next, Min(least, newThreshold));
      }
    }
  }

  /** On a board of side 2 or more a contour that finds nothing always
      reports a finite value: some node is always cut off, since nodes are
      expanded without checking the states on the path to them. */
  lemma {:induction false} ContourAlwaysCuts(node: PuzzleNode, goal: seq<int>, size: nat, g: int, threshold: int, next: Ext)
    requires Board(node.state, goal, size) && size >= 2 && !next.NegInf?
    ensures var (r, t) := DfsContour(node, goal, size, g, threshold, next);
            r.None? ==> t.Fin?
    decreases Max0(threshold - g + 1), 0
  {
    var f := g + Manhattan(node.state, goal, size);
    if f <= threshold && node.state != goal {
      SuccessorsAreBoards(node, goal, size);
      SomeSuccessor(node, size);
      ContourListCuts(Successors(node, size), goal, size, g + 1, threshold, next, PosInf);
    }
  }

  lemma {:induction false} ContourListCuts(ns: seq<PuzzleNode>, goal: seq<int>, size: nat, g: int, threshold: int,
                                           next: Ext, least: Ext)
    requires Boards(ns, goal, size) && size >= 2 && !next.NegInf? && !least.NegInf?
    requires |ns| >= 1 || least.Fin?
    ensures var (r, t) := ContourList(ns, goal, size, g, threshold, next, least);
            r.None? ==> t.Fin?
    decreases Max0(threshold - g + 1), |ns| + 1
  {
    if |ns| > 0 {
      ContourAlwaysCuts(ns[0], goal, size, g, threshold, next);
      var (result, newThreshold) := DfsContour(ns[0], goal, size, g, threshold, next);
      if result.None? {
        ContourListCuts(ns[1..], goal, size, g, threshold, next, Min(least, newThreshold));
      }
    }
  }

  /** A contour on a goal node within the threshold returns that node. */
  lemma GoalWithinThreshold(node: PuzzleNode, goal: seq<int>, size: nat, g: int, threshold: int, next: Ext)
    requires Board(node.state, goal, size) && node.state == goal && g <= threshold
    ensures DfsContour(node, goal, size, g, threshold, next) == (Some(node), Fin(threshold))
  {
    GoalHasZeroHeuristic(goal, size);
  }

  datatype IdaResult = Solved(node: PuzzleNode) | NoSolution | OutOfFuel

  /** Contours from the initial state with growing thresholds, the first
      being the initial heuristic and each next one the least `f` cut off
      by the last.  `fuel` bounds the number of contours; `thresholds`
      records the thresholds tried. */
  method IdaStarSearch(initial: seq<int>, goal: seq<int>, size: nat, fuel: nat)
    returns (result: IdaResult, ghost thresholds: seq<int>)
    requires Board(initial, goal, size)
    ensures result.Solved? ==> result.node.state == goal && Counted(result.node) &&
                               Below(result.node, MakeNode(initial, None, None, 0), size)
    ensures result.Solved? ==> |thresholds| >= 1 && result.node.depth <= thresholds[|thresholds| - 1]
    ensures !result.NoSolution?
    ensures |thresholds| >= 1 ==> thresholds[0] == Manhattan(initial, goal, size)
    ensures forall i, j :: 0 <= i < j < |thresholds| ==> thresholds[i] < thresholds[j]
    ensures initial == goal && fuel > 0 ==> result == Solved(MakeNode(initial, None, None, 0))
  {
    var initialNode := MakeNode(initial, None, None, 0);
    var threshold := ManhattanDistance(initial, goal, size);
    thresholds := [];
    var rounds: nat := fuel;
    if size < 2 {
      SmallBoardIsGoal(initial, goal, size);
    }
    while true
      invariant initial == goal ==> thresholds == [] && rounds == fuel
      invariant |thresholds| >= 1 ==> thresholds[0] == Manhattan(initial, goal, size)
      invariant |thresholds| == 0 ==> threshold == Manhattan(initial, goal, size)
      invariant forall i, j :: 0 <= i < j < |thresholds| ==> thresholds[i] < thresholds[j]
      invariant |thresholds| >= 1 ==> thresholds[|thresholds| - 1] < threshold
      decreases rounds
    {
      if rounds == 0 {
        return OutOfFuel, thresholds;
      }
      rounds := rounds - 1;
      thresholds := thresholds + [threshold];
      var nextThreshold := PosInf;
      if initial == goal {
        GoalHasZeroHeuristic(goal, size);
        GoalWithinThreshold(initialNode, goal, size, 0, threshold, nextThreshold);
      }
      var (found, nextT) := DfsContour(initialNode, goal, size, 0, threshold, nextThreshold);
      if found.Some? {
        ContourFound(initialNode, goal, size, 0, threshold, nextThreshold);
        CountedBelow(found.value, initialNode, size);
        return Solved(found.value), thresholds;
      }
      if nextT == PosInf {
        if size >= 2 {
          ContourAlwaysCuts(initialNode, goal, size, 0, threshold, nextThreshold);
        }
        return NoSolution, thresholds;
      }
      ContourRaises(initialNode, goal, size, 0, threshold, nextThreshold);
      threshold := nextT.n;
    }
  }

  /** A board of side below 2 has the single cell holding the blank, so it
      is already the goal. */
  lemma SmallBoardIsGoal(initial: seq<int>, goal: seq<int>, size: nat)
    requires Board(initial, goal, size) && size < 2
    ensures size == 1 && initial == goal == [0]
  {
    assert Cells(0) == 0 && Cells(1) == 1;
    assert |initial| == 1 && initial[0] == 0;
    assert goal[0] == 0;
  }

  /** Nodes below a counted node are counted. */
  lemma {:induction false} CountedBelow(n: PuzzleNode, root: PuzzleNode, size: nat)
    requires Counted(root) && Below(n, root, size)
    ensures Counted(n)
    decreases n
  {
    if n != root {
      SuccessorsFacts(n.parent.value, size);
      CountedBelow(n.parent.value, root, size);
    }
  }

  /** The moves from the root of `n`'s chain down to `n`: the root itself
      contributes nothing. */
  function SolutionPath(n: PuzzleNode): seq<(Option<Move>, seq<int>)>
    decreases n
  {
    match n.parent
    case None => []
    case Some(p) => SolutionPath(p) + [(n.action, n.state)]
  }

  lemma {:induction false} SolutionPathLength(n: PuzzleNode)
    requires Counted(n)
    ensures |SolutionPath(n)| == n.depth
    decreases n
  {
    if n.parent.Some? {
      SolutionPathLength(n.parent.value);
    }
  }

  /** Follows the parent links from `node`, collecting (move, state)
      pairs, and reverses them. */
  method GetSolutionPath(node: PuzzleNode) returns (path: seq<(Option<Move>, seq<int>)>)
    ensures path == SolutionPath(node)
    ensures Counted(node) ==> |path| == node.depth
    ensures node.parent.Some? ==> |path| >= 1 && path[|path| - 1] == (node.action, node.state)
  {
    var collected: seq<(Option<Move>, seq<int>)> := [];
    var current := node;
    while current.parent.Some?
      invariant SolutionPath(node) == SolutionPath(current) + Reverse(collected)
      decreases current
    {
      ReverseSnoc(collected, (current.action, current.state));
      collected := collected + [(current.action, current.state)];
      current := current.parent.value;
    }
    path := Reverse(collected);
    if Counted(node) {
      SolutionPathLength(node);
    }
  }
}
