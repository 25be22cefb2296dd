# Search, game-tree and metaheuristic algorithms in Dafny

This project models the core of a collection of small teaching programs on
artificial-intelligence algorithms, and proves properties of the model. The
programs cover four groups:

- Informed search:
  - A* on a grid with obstacles;
  - A* on a weighted tree of labelled nodes;
  - IDA* on the sliding-tile puzzle.
- Uninformed traversal of directed graphs kept as adjacency lists:
  - breadth-first and depth-first search;
  - two iterative-deepening searches;
  - the three depth-first traversals of a binary tree, and the tree builder that links the nodes.
- Game-tree evaluation:
  - minimax over a complete binary tree of leaf scores;
  - tic-tac-toe with a minimax player that places and undoes marks on the board in place.
- The combinatorial core of two metaheuristics:
  - hill climbing for the travelling-salesman problem, by swapping two cities;
  - a genetic algorithm for the OneMax problem.

There is one module per program, plus two shared modules:

- `Common`: `Option`, the extended integers `Ext` (which play the part of the programs' `float('inf')`), `Max`, `Min`, `Abs` and `Reverse`.
- `Graphs`: adjacency maps, walks and reachability.

How the code is modelled:

- Code that mutates state is imperative Dafny:
  - the graphs are classes whose adjacency map is a field;
  - the tic-tac-toe board is an `array<char>` that `Minimax` changes and restores;
  - the tree builder links `TreeNode` objects;
  - the genetic algorithm is a class whose `population` field is replaced each generation;
  - `Mutate` flips genes of an `array<int>` in place.
- Each loop is a method proved against a specification function or predicate.
- Recursive code is written as functions, with lemmas about them.
- Every random draw becomes an input:
  - the TSP's initial tour and swap positions;
  - the genetic algorithm's initial population, tournaments, crossover decisions, crossover points and mutation masks.
- Console input becomes parameters. Console output is a returned sequence where its order matters (visit orders), and is left out otherwise.

Quirks of the programs are kept:

- Grid A* skips a neighbour only when an open node at the same cell has a strictly smaller `g`.
- IDA* does not check ancestors, so a path may revisit a state.
- The tree IDDFS search reports success for every existing node, whatever its children return.
- The binary-tree builder's `i -= 1` has no effect on its `for` loop.
- The printing depth-limited search shares one visited set across all branches. `DepthLimited.SharedVisitedMissesTarget` shows a graph where this makes it miss a target that lies within the depth limit.

## Model

| member | source | states |
|---|---|---|
| Common.Max | Minimax-Tic-Tac-Toe.py:55 | `max` over scores with infinities: the result bounds both arguments from above and is one of them |
| Common.Min | Minimax-Tic-Tac-Toe.py:66 | `min` over scores with infinities: the result bounds both arguments from below and is one of them |
| Common.Reverse | A-Star-Search-Algorithm.py:67 | `path[::-1]`: same length, element `i` is element `n-1-i` of the input |
| Graphs.WithEdge | Breadth-First-Search.py:9-10 | adding edge `u v` appends `v` to the end of `u`'s list, makes `u` a key and leaves every other list unchanged |
| BreadthFirst.Graph.constructor | Breadth-First-Search.py:4-6 | a new graph has no adjacency lists |
| BreadthFirst.Graph.AddEdge | Breadth-First-Search.py:9-10 | the adjacency map becomes `WithEdge` of the old one |
| BreadthFirst.Graph.Bfs | Breadth-First-Search.py:13-35 | output starts with the start vertex and lists each vertex at most once. It lists exactly the vertices reachable from the start, in non-decreasing order of their shortest-walk distance |
| BreadthFirst.VisitNeighbours | Breadth-First-Search.py:32-35 | the queue gains exactly `Unmarked` of the successor list: the successors in list order, each once, leaving out those marked before. The marked set grows by exactly the successors, each newly marked vertex is one level deeper than `vertex`, and the queue stays sorted by distance |
| BreadthFirst.Unmarked | Breadth-First-Search.py:32-35 | the successors the loop enqueues: list order, skipping a vertex already marked or already met earlier in the list. `UnmarkedMembers` states what it holds |
| BreadthFirst.UnmarkedMembers | Breadth-First-Search.py:32-35 | the enqueued vertices are exactly the successors not marked before, and none is enqueued twice |
| BreadthFirst.ScanStep | Breadth-First-Search.py:32-35 | looking at one more successor enqueues and marks it exactly when it is not yet marked |
| BreadthFirst.SearchStart | Breadth-First-Search.py:15-22 | after marking and enqueueing the start, the search invariant holds |
| BreadthFirst.ExpandKeeps | Breadth-First-Search.py:24-35 | one dequeue-and-expand round keeps the search invariant. It also shrinks the queue or grows the visited set |
| BreadthFirst.SearchDone | Breadth-First-Search.py:24 | once the queue is empty, the invariant gives every property stated by `Bfs` |
| DepthFirst.Graph.constructor | Depth-First-Search.py:4-6 | a new graph has no adjacency lists |
| DepthFirst.Graph.AddEdge | Depth-First-Search.py:9-10 | the adjacency map becomes `WithEdge` of the old one |
| DepthFirst.Graph.DfsUtil | Depth-First-Search.py:13-21 | the call lists `vertex` first and marks exactly what it lists. Each listed vertex appears once, was unmarked before (apart from `vertex`), and is a successor of an earlier one. On return every successor of `vertex` is marked |
| DepthFirst.VisitKeepsExplored | Depth-First-Search.py:19-21 | recurring on an unmarked successor and appending what it lists keeps the caller's state |
| DepthFirst.Graph.Dfs | Depth-First-Search.py:24-29 | the visit order starts at the start vertex and repeats no vertex. Every later vertex is a successor of an earlier one, and the order contains exactly the reachable vertices |
| Graphs.DiscoveredReachable | Depth-First-Search.py:19-21 | in an order where each vertex is a successor of an earlier one, every vertex is reachable from the first |
| Graphs.LayeredIsShortest | Breadth-First-Search.py:24-35 | a closed labelling that rises by at most one per edge, starts at 0 and is realised by walks gives shortest-walk lengths |
| DepthLimited.Graph.constructor | Iterative-Deepening-Depth-First-Search.py:4-6 | a new graph has no adjacency lists; its visited set, which the program first creates in `iddfs`, starts empty |
| DepthLimited.Graph.AddEdge | Iterative-Deepening-Depth-First-Search.py:9-10 | the adjacency map becomes `WithEdge` of the old one; the visited set is unchanged |
| DepthLimited.Dls | Iterative-Deepening-Depth-First-Search.py:13-26 | the plain search: true at the target, false when no depth is left, else the loop over the successors with one less. `DlsIffWalk` states what it decides |
| DepthLimited.AnyDls | Iterative-Deepening-Depth-First-Search.py:22-24 | the loop over successors, stopping at the first success. `AnyDlsIsSome` states it |
| DepthLimited.DlsIffWalk | Iterative-Deepening-Depth-First-Search.py:13-26 | the plain depth-limited search succeeds exactly when some walk of at most `max(0, max_depth)` edges leads from source to target |
| DepthLimited.AnyDlsIsSome | Iterative-Deepening-Depth-First-Search.py:22-24 | the loop over successors succeeds exactly when the search from one of them succeeds |
| DepthLimited.Graph.DepthLimitedSearch | Iterative-Deepening-Depth-First-Search.py:13-26 | the result is true exactly when a walk of at most `max(0, max_depth)` edges reaches the target |
| DepthLimited.PrintDls | Iterative-Deepening-Depth-First-Search.py:46-64 | the printing search as a trace: the found flag, the marked set afterwards and the printed vertices. `PrintDlsVisitsOnce` and `PrintDlsSound` state its properties |
| DepthLimited.PrintDlsList | Iterative-Deepening-Depth-First-Search.py:59-62 | the printing search's loop over successors, skipping marked ones and stopping at the first success. `PrintDlsListVisitsOnce` and `PrintDlsListSound` state its properties |
| DepthLimited.PrintDlsVisitsOnce | Iterative-Deepening-Depth-First-Search.py:46-64 | the printing search prints the source first and no vertex twice. It prints no vertex visited before the call, and the visited set grows by exactly the printed vertices |
| DepthLimited.PrintDlsListVisitsOnce | Iterative-Deepening-Depth-First-Search.py:59-62 | the same for the loop over successors, which skips marked ones |
| DepthLimited.PrintDlsSound | Iterative-Deepening-Depth-First-Search.py:46-64 | when the printing search succeeds, the plain search with the same arguments succeeds |
| DepthLimited.PrintDlsListSound | Iterative-Deepening-Depth-First-Search.py:59-62 | the same for the loop over successors |
| DepthLimited.SharedVisitedMissesTarget | Iterative-Deepening-Depth-First-Search.py:59-61 | for edges 0→1, 0→2, 1→2, 2→3, the plain search finds 3 within depth 2 but the printing search does not, because 2 was marked below 1 |
| DepthLimited.Graph.DepthLimitedSearchWithPrint | Iterative-Deepening-Depth-First-Search.py:46-64 | the found flag, the new visited set and the printed vertices are those of the `PrintDls` trace from the old visited set |
| DepthLimited.FirstDepth | Iterative-Deepening-Depth-First-Search.py:31-40 | the first depth in the range at which a search from an empty visited set succeeds, or none when none does |
| DepthLimited.Graph.IterativeDeepeningDfs | Iterative-Deepening-Depth-First-Search.py:29-43 | succeeds exactly when some depth in 0..max_depth succeeds. The visited set is the one left by the last depth tried, each depth starting from an empty set |
| DepthLimited.IterativeDeepeningSound | Iterative-Deepening-Depth-First-Search.py:29-43 | on success the target is reachable by a walk of at most `max_depth` edges |
| TreeDeepening.AddTreeEdge | IDDFS.py:26-32 | entering edge `n1 n2` makes both names nodes and appends `n2` to `n1`'s children only |
| TreeDeepening.AddTreeEdgeKeepsChildrenNodes | IDDFS.py:26-32 | every child named in the tree is also a node |
| TreeDeepening.DepthLimitedSearch | IDDFS.py:39-56 | beyond the limit nothing changes and the call fails. Otherwise `current` is visited, and the call succeeds exactly when `current` is a node. A failing call leaves the path unchanged. A succeeding one extends it with a repetition-free chain of at most `limit - depth + 1` nodes starting at `current` |
| TreeDeepening.ChildExtends | IDDFS.py:51-54 | a successful call on an unvisited child extends the parent's chain |
| TreeDeepening.IterativeDeepeningSearch | IDDFS.py:58-70 | a level `d` is recorded exactly when the root is a node and `0 <= d < len(tree)`. Each recorded path starts at the root, has at most `d + 1` names, follows tree edges and repeats no name |
| BinaryTree.Inorder | DFS-Binary-Tree.py:7-16 | left subtree, root, right subtree. `InorderListsEveryNode` and `RootPositions` state its properties |
| BinaryTree.Preorder | DFS-Binary-Tree.py:18-27 | root, left subtree, right subtree. `PreorderListsEveryNode` and `RootPositions` state its properties |
| BinaryTree.Postorder | DFS-Binary-Tree.py:29-38 | left subtree, right subtree, root. `PostorderListsEveryNode` and `RootPositions` state its properties |
| BinaryTree.InorderListsEveryNode | DFS-Binary-Tree.py:7-16 | inorder lists every node's label exactly once |
| BinaryTree.PreorderListsEveryNode | DFS-Binary-Tree.py:18-27 | preorder lists every node's label exactly once |
| BinaryTree.PostorderListsEveryNode | DFS-Binary-Tree.py:29-38 | postorder lists every node's label exactly once |
| BinaryTree.TraversalsAgree | DFS-Binary-Tree.py:7-38 | the three traversals have the same length and the same multiset of labels |
| BinaryTree.RootPositions | DFS-Binary-Tree.py:7-38 | the root comes first in preorder, last in postorder, and right after the left subtree in inorder |
| BinaryTree.TreeNode.constructor | DFS-Binary-Tree.py:1-5 | a new node carries its label and has no children |
| BinaryTree.FirstParentIsFirst | DFS-Binary-Tree.py:71-73 | the root label is the parent of the first well-formed edge line, or none when there is none |
| BinaryTree.ChildrenOccur | DFS-Binary-Tree.py:65-77 | a parent with children, and every child, has a node |
| BinaryTree.BuildTree | DFS-Binary-Tree.py:40-89 | there is one fresh node per label and no two labels share a node. The root is the first parent's node. Each node's `left` and `right` are the nodes of its first two children in input order, and null where there are fewer |
| BinaryTree.AddEdge | DFS-Binary-Tree.py:65-86 | one edge line keeps the builder's invariant, with a single node per label |
| BinaryTree.NodesFor | DFS-Binary-Tree.py:67-77 | a node exists for both labels afterwards; existing ones are kept and new ones are fresh |
| BinaryTree.NodeFor | DFS-Binary-Tree.py:68-69 | looks up or creates the node for one label |
| BinaryTree.Attach | DFS-Binary-Tree.py:80-86 | the child goes to `left` if it is free, else to `right` if that is free, else it is ignored |
| MinimaxTree.Minimax | MiniMax.py:1-15 | the value of node `index`: its leaf score at full depth, else the larger (maximiser) or smaller (minimiser) of its two children's values. `MinimaxIsLeaf` and `MinimaxBounded` state its properties |
| MinimaxTree.ChildRanges | MiniMax.py:6-15 | the leaves under node `i` split into those under children `2i` and `2i+1` |
| MinimaxTree.MinimaxIsLeaf | MiniMax.py:1-15 | the value is one of the leaf scores in the node's subtree |
| MinimaxTree.MinimaxBounded | MiniMax.py:1-15 | the value lies between the least and the greatest leaf score of the subtree |
| MinimaxTree.MinIndex | MiniMax.py:12-15 | a non-empty range of scores has a least element |
| MinimaxTree.MaxIndex | MiniMax.py:7-10 | a non-empty range of scores has a greatest element |
| MinimaxTree.WorkedExample | MiniMax.py:17-21 | for scores 3 5 2 9 0 -1 7 4 and height 3 the value is 5 |
| TicTacToe.Lines | Minimax-Tic-Tac-Toe.py:10-24 | the eight lines, rows then columns then diagonals, all on the board |
| TicTacToe.BlanksOfMark | Minimax-Tic-Tac-Toe.py:52 | placing a mark on a blank leaves one blank fewer |
| TicTacToe.WinnerFrom | Minimax-Tic-Tac-Toe.py:10-31 | from line `k` on: the mark of the first complete line, otherwise a tie exactly when no cell is blank |
| TicTacToe.CheckWinner | Minimax-Tic-Tac-Toe.py:8-31 | the mark of the first complete line in row, column, diagonal order. A tie exactly when no line is complete and no cell is blank; ongoing exactly when no line is complete and a cell is blank |
| TicTacToe.WinnerIsPlayer | Minimax-Tic-Tac-Toe.py:12-24 | on a board of X, O and blanks, a winner is X or O |
| TicTacToe.Score | Minimax-Tic-Tac-Toe.py:33-67 | the minimax score: `10 - depth` when X has won, `depth - 10` when O has, 0 on a tie, else `BestOver` all nine cells. `ScoreBounds` and `Minimax` state its properties |
| TicTacToe.BestOver | Minimax-Tic-Tac-Toe.py:48-67 | the running best after cells `0..k-1`: from minus infinity for X (plus infinity for O), the max (min) with the score of marking each blank. `BestOverBounds` and `NoBlankBefore` state its properties |
| TicTacToe.ScoreBounds | Minimax-Tic-Tac-Toe.py:33-67 | from a reachable depth, the minimax score is finite and lies between `depth - 10` and `10 - depth` |
| TicTacToe.BestOverBounds | Minimax-Tic-Tac-Toe.py:48-67 | once a blank has been tried, the running best score is finite and within those bounds |
| TicTacToe.NoBlankBefore | Minimax-Tic-Tac-Toe.py:48-67 | while no blank has been tried, the running best is the starting infinity |
| TicTacToe.Minimax | Minimax-Tic-Tac-Toe.py:33-67 | the board is exactly as before, and the result is the minimax score `Score` of the board |
| TicTacToe.PlayAndUndo | Minimax-Tic-Tac-Toe.py:51-54 | marking a blank cell, scoring one move deeper with the other player, and clearing the cell leaves the board as it was and yields the marked board's `Score` (the minimizing branch at lines 62-65 is the same step with 'O') |
| TicTacToe.KeepBest | Minimax-Tic-Tac-Toe.py:80-82 | trying a blank cell replaces the current choice exactly when its score is strictly higher, and doing so keeps the choice the best of the cells tried so far, the first on ties |
| TicTacToe.FindBestMove | Minimax-Tic-Tac-Toe.py:69-84 | the board is unchanged. The move is -1 or a blank cell; on a board of X, O and blanks it is -1 exactly when no cell is blank. The move's score is at least every blank's score and strictly above every earlier blank's |
| TicTacToe.BlankMoveScores | Minimax-Tic-Tac-Toe.py:74-77 | every blank cell gets a finite score |
| TicTacToe.Turn | Minimax-Tic-Tac-Toe.py:95-122 | the game ends exactly when the winner check is not ongoing. A human move is rejected exactly when it is outside 0..8 or the cell is not blank. A played move marks one blank cell (O for the human, X for the AI) and changes nothing else. The AI's cell scores at least as high as every blank, and strictly higher than every earlier blank |
| GridAStar.NewNode | A-Star-Search-Algorithm.py:3-9 | a node at a position with a parent and all costs 0. `GetNeighbors` states what it builds |
| GridAStar.Heuristic | A-Star-Search-Algorithm.py:17-19 | Manhattan distance: a natural number, 0 exactly at the goal |
| GridAStar.HeuristicConsistent | A-Star-Search-Algorithm.py:17-19 | one move changes the heuristic by at most one |
| GridAStar.Candidates | A-Star-Search-Algorithm.py:26-35 | the cells the movements reach that pass the bounds and obstacle test, in movement order. `CandidatesAreMoves` states it |
| GridAStar.CandidatesAreMoves | A-Star-Search-Algorithm.py:26-35 | a candidate is exactly a passable cell reached by one of the movements, with at most one per movement |
| GridAStar.CandidatesAreNeighbourCells | A-Star-Search-Algorithm.py:21-37 | at most four candidates: exactly the passable cells at distance 1 |
| GridAStar.GetNeighbors | A-Star-Search-Algorithm.py:21-37 | at most four fresh nodes, in movement order, each a passable cell one move away with the input node as parent. Every such cell is among them |
| GridAStar.IsDominated | A-Star-Search-Algorithm.py:83-87 | the skip flag is set exactly when an open node at the same cell has a strictly smaller `g` |
| GridAStar.Relax | A-Star-Search-Algorithm.py:72-93 | the open list after the neighbour loop: each neighbour in order is scored and pushed, unless its cell is closed or an open node there has a smaller `g`. `RelaxPushes` states its properties |
| GridAStar.ExpandNeighbors | A-Star-Search-Algorithm.py:72-93 | the open list after the neighbour loop is `Relax` of the old one |
| GridAStar.RelaxPushes | A-Star-Search-Algorithm.py:72-93 | the loop only appends. Each pushed node has `g = g(current) + 1`, `f = g + h`, parent `current`, and a position that is passable, adjacent and not closed. Every neighbour's cell ends up closed or open |
| GridAStar.Ancestry | A-Star-Search-Algorithm.py:62-67 | the cells of the parent chain, root first. `AncestryIsWalk` states its properties |
| GridAStar.AncestryIsWalk | A-Star-Search-Algorithm.py:62-67 | following parents from a pushed node gives `g + 1` cells from start to the node, each step one move onto a passable cell |
| GridAStar.WalkAtLeastHeuristic | A-Star-Search-Algorithm.py:17-19 | a walk of `i` moves covers at least the Manhattan distance between its ends |
| GridAStar.EmptyGridWalk | A-Star-Search-Algorithm.py:30-31 | on a grid without rows no cell passes the bounds test, so the only walks are single cells |
| GridAStar.ReconstructPath | A-Star-Search-Algorithm.py:62-67 | the path is the reversed parent chain of the node |
| GridAStar.AStarSearch | A-Star-Search-Algorithm.py:39-96 | a found path runs from start to goal through passable cells, one move at a time, and is at least as long as the heuristic. No path is reported only when the goal is unreachable. When the start is the goal the path is just the start, on any grid |
| GridAStar.RoundKeeps | A-Star-Search-Algorithm.py:52-93 | one pop-and-expand round keeps the search invariant |
| GridAStar.NotFoundUnreachable | A-Star-Search-Algorithm.py:95-96 | when the open list is empty, the goal cannot be reached from the start |
| TreeAStar.GetAllNodes | A-Star.py:18-24 | the labels are exactly the tree's keys and every child named in a list |
| TreeAStar.Heuristic | A-Star.py:26-28 | defined exactly for one-character labels, and 0 exactly when they are equal |
| TreeAStar.InitialState | A-Star.py:32-44 | the heap holds `(0, start)`. The start has `g = 0` and `f = h(start)`, every other label has infinite scores, and there are no parents |
| TreeAStar.RelaxOne | A-Star.py:57-64 | scores only decrease. A changed score is `g(current) + cost` and sets the parent to `current`. The step fails only on an improving neighbour whose label the heuristic rejects |
| TreeAStar.RelaxAll | A-Star.py:57-64 | the children loop as a function: `RelaxOne` for each child in order, failing at the first failure. `RelaxAllKeeps` and `RelaxAllKeepsStart` state its properties |
| TreeAStar.ExpandChildren | A-Star.py:57-64 | the child loop computes `RelaxAll` |
| TreeAStar.RelaxChild | A-Star.py:58-64 | the loop body for one child computes `RelaxOne` of the state |
| TreeAStar.RelaxAllStep | A-Star.py:57-64 | the loop relaxes the children one at a time, in order |
| TreeAStar.RelaxAllKeepsStart | A-Star.py:39-64 | with non-negative costs, the start keeps `g = 0` and never gets a parent |
| TreeAStar.RelaxAllKeeps | A-Star.py:57-64 | relaxing keeps the bookkeeping: parent links are tree edges from popped labels, and labels with parents have `f = g + h` |
| TreeAStar.ReconstructPath | A-Star.py:49-55 | following parents gives a walk in the tree from start to goal, and `[start]` when the goal has no parent |
| TreeAStar.FollowLinks | A-Star.py:50-54 | the collected labels start at the goal, each is followed by its parent, and they end with the start; just `[start]` when the goal has no parent |
| TreeAStar.LinkedReversedIsWalk | A-Star.py:50-55 | a parent chain, reversed, is a walk in the tree |
| TreeAStar.RelaxAllFails | A-Star.py:57-64 | when the children loop fails, some child's label is one the heuristic rejects |
| TreeAStar.AStar | A-Star.py:30-66 | the program's error is raised exactly when a label is not a single character: always when the start or goal is such a label, and otherwise only if some label named in the tree is. A returned path is a walk from start to goal, and `[start]` when they are equal. No path is reported only when the goal is unreachable |
| TreeAStar.RoundKeeps | A-Star.py:46-64 | one pop-and-expand round keeps the search invariant |
| TreeAStar.NoPathUnreachable | A-Star.py:46-66 | when the heap is empty, the goal cannot be reached from the start |
| PuzzleIdaStar.MakeNode | Iterative-Deepening-Depth-A-Star.py:3-11 | a node's depth is 0 without a parent and the parent's depth plus one otherwise |
| PuzzleIdaStar.IndexOf | Iterative-Deepening-Depth-A-Star.py:21 | a position holding the value |
| PuzzleIdaStar.IndexOfFirst | Iterative-Deepening-Depth-A-Star.py:21 | no earlier position holds it |
| PuzzleIdaStar.CellDistanceZero | Iterative-Deepening-Depth-A-Star.py:24-26 | two cells are at distance 0 exactly when they are the same |
| PuzzleIdaStar.CellsSquare | Iterative-Deepening-Depth-A-Star.py:145 | the board has `size * size` cells |
| PuzzleIdaStar.Manhattan | Iterative-Deepening-Depth-A-Star.py:13-28 | the sum over cells of each misplaced non-blank tile's distance to its first goal cell. `ManhattanZero` states its properties |
| PuzzleIdaStar.ManhattanDistance | Iterative-Deepening-Depth-A-Star.py:13-28 | the loop computes the Manhattan sum over non-blank misplaced tiles |
| PuzzleIdaStar.ManhattanZero | Iterative-Deepening-Depth-A-Star.py:18-26 | the sum is 0 exactly when every non-blank tile is in its goal place |
| PuzzleIdaStar.GoalHasZeroHeuristic | Iterative-Deepening-Depth-A-Star.py:13-28 | the goal has heuristic 0 |
| PuzzleIdaStar.GetBlankPosition | Iterative-Deepening-Depth-A-Star.py:30-32 | a position holding the blank |
| PuzzleIdaStar.Moves | Iterative-Deepening-Depth-A-Star.py:42-47 | four moves |
| PuzzleIdaStar.SwapPermutes | Iterative-Deepening-Depth-A-Star.py:60-61 | swapping two cells keeps the multiset of tiles |
| PuzzleIdaStar.StepFacts | Iterative-Deepening-Depth-A-Star.py:49-71 | one move gives at most one successor, with the node as parent, cost and depth one more, and that move as action |
| PuzzleIdaStar.SuccessorsByFacts | Iterative-Deepening-Depth-A-Star.py:49-71 | the same over a list of moves, at most one successor per move |
| PuzzleIdaStar.SuccessorsFacts | Iterative-Deepening-Depth-A-Star.py:34-73 | at most four successors, each with the node as parent, `path_cost + 1`, depth + 1 and an action |
| PuzzleIdaStar.SuccessorsPermute | Iterative-Deepening-Depth-A-Star.py:60-69 | every successor state is a permutation of the node's state |
| PuzzleIdaStar.SuccessorsAreMoves | Iterative-Deepening-Depth-A-Star.py:49-61 | every successor swaps the blank with a tile at grid distance 1 |
| PuzzleIdaStar.NoWrap | Iterative-Deepening-Depth-A-Star.py:53-57 | a move the guards allow stays on the board and does not wrap across rows |
| PuzzleIdaStar.MoveBlocked | Iterative-Deepening-Depth-A-Star.py:53-57 | a blocked move adds no successor |
| PuzzleIdaStar.MoveOpen | Iterative-Deepening-Depth-A-Star.py:59-71 | an allowed move appends the swapped state as a successor |
| PuzzleIdaStar.SomeSuccessor | Iterative-Deepening-Depth-A-Star.py:34-73 | on a board of side at least 2, there is at least one successor |
| PuzzleIdaStar.Successors | Iterative-Deepening-Depth-A-Star.py:34-73 | one successor per allowed move, in the order up, right, down, left. `SuccessorsFacts`, `SuccessorsPermute` and `SuccessorsAreMoves` state its properties |
| PuzzleIdaStar.GetSuccessors | Iterative-Deepening-Depth-A-Star.py:34-73 | the loop computes `Successors` |
| PuzzleIdaStar.DfsContour | Iterative-Deepening-Depth-A-Star.py:97-121 | one contour search: cut off with `min(f, next)` above the threshold, the node at the goal, else the loop over successors. `ContourFound`, `ContourRaises` and `ContourAlwaysCuts` state its properties |
| PuzzleIdaStar.ContourList | Iterative-Deepening-Depth-A-Star.py:113-121 | the loop over successors: the first found node, else the least threshold the successors report. `ContourListFound`, `ContourListRaises` and `ContourListCuts` state its properties |
| PuzzleIdaStar.ContourFound | Iterative-Deepening-Depth-A-Star.py:97-121 | a returned node holds the goal and descends from the searched node. Its cost `g` plus its extra depth stays within the threshold |
| PuzzleIdaStar.ContourListFound | Iterative-Deepening-Depth-A-Star.py:113-117 | the same for the loop over successors, the node lying strictly below the parent |
| PuzzleIdaStar.BelowChild | Iterative-Deepening-Depth-A-Star.py:113-114 | a descendant of a successor is a strict descendant of the node |
| PuzzleIdaStar.ContourRaises | Iterative-Deepening-Depth-A-Star.py:100-121 | a failed contour reports a next threshold strictly above the current one |
| PuzzleIdaStar.ContourListRaises | Iterative-Deepening-Depth-A-Star.py:110-121 | the same for the loop over successors |
| PuzzleIdaStar.ContourAlwaysCuts | Iterative-Deepening-Depth-A-Star.py:100-121 | on a board of side at least 2, a failed contour reports a finite next threshold |
| PuzzleIdaStar.ContourListCuts | Iterative-Deepening-Depth-A-Star.py:110-121 | the same for the loop over successors |
| PuzzleIdaStar.GoalWithinThreshold | Iterative-Deepening-Depth-A-Star.py:100-108 | the goal within the threshold is returned with the threshold |
| PuzzleIdaStar.IdaStarSearch | Iterative-Deepening-Depth-A-Star.py:75-95 | a solution node holds the goal, descends from the initial node and has depth within the last threshold. Thresholds start at the initial heuristic and strictly increase. The search never reports no solution: on boards of side 2 or more a failed contour always leaves a finite next threshold, and a board of side 1 is already the goal. An initial state equal to the goal is returned as the solution at once |
| PuzzleIdaStar.SmallBoardIsGoal | Iterative-Deepening-Depth-A-Star.py:92-93 | a valid board of side below 2 has side 1, and both it and the goal are the single blank, so the first contour finds it and the no-solution return is never reached |
| PuzzleIdaStar.CountedBelow | Iterative-Deepening-Depth-A-Star.py:9-11 | depths count parent links along the whole chain |
| PuzzleIdaStar.SolutionPath | Iterative-Deepening-Depth-A-Star.py:123-131 | the (action, state) pairs from the root of the chain down to the node. `SolutionPathLength` states its length |
| PuzzleIdaStar.SolutionPathLength | Iterative-Deepening-Depth-A-Star.py:123-131 | the move list has as many entries as the node's depth |
| PuzzleIdaStar.GetSolutionPath | Iterative-Deepening-Depth-A-Star.py:123-131 | the loop returns `SolutionPath`: one (action, state) pair per move, ending with the node's own, and as many as its depth |
| TravellingSalesman.TourCost | Hill-Climbing-TSP.py:4-23 | the sum of the legs between consecutive cities and from the last back to the first. `RotateKeepsCost` and `TourCostBounds` state its properties |
| TravellingSalesman.NextIsMod | Hill-Climbing-TSP.py:20 | `(i + 1) % n` is the next index, wrapping to 0 |
| TravellingSalesman.CalculateTotalDistance | Hill-Climbing-TSP.py:4-23 | the loop computes the closed tour's cost, including the leg back to the first city |
| TravellingSalesman.Rotate | Hill-Climbing-TSP.py:20 | the same cities starting one later |
| TravellingSalesman.RotateKeepsCost | Hill-Climbing-TSP.py:15-23 | the cost of a tour does not depend on its starting city |
| TravellingSalesman.RotatedPrefix | Hill-Climbing-TSP.py:18-21 | the legs of the rotated tour are those of the tour without its first leg |
| TravellingSalesman.TourCostBounds | Hill-Climbing-TSP.py:106-114 | on the program's random matrices (0 on the diagonal, 1..100 elsewhere), a tour of `n >= 2` cities costs between `n` and `100 n` |
| TravellingSalesman.Swapped | Hill-Climbing-TSP.py:42 | positions `i` and `j` exchanged and every other position kept |
| TravellingSalesman.SwappedKeepsTour | Hill-Climbing-TSP.py:42 | the swap is a permutation, and a tour stays a tour |
| TravellingSalesman.SwappedOnMatrix | Hill-Climbing-TSP.py:42 | a swapped tour still indexes the matrix |
| TravellingSalesman.GenerateNeighbor | Hill-Climbing-TSP.py:25-44 | a copy with exactly positions `i` and `j` swapped; the input is unchanged |
| TravellingSalesman.Climb | Hill-Climbing-TSP.py:78-84 | the neighbour is kept only when strictly cheaper, so the result is the tour or its swap and costs no more |
| TravellingSalesman.TourAfter | Hill-Climbing-TSP.py:74-84 | the tour after `k` draws has the initial length and indexes the matrix |
| TravellingSalesman.ClimbStep | Hill-Climbing-TSP.py:78-84 | one loop iteration gives the next `TourAfter` |
| TravellingSalesman.FollowsStep | Hill-Climbing-TSP.py:87 | recording the next tour and cost keeps the progress list faithful |
| TravellingSalesman.NeverWorsens | Hill-Climbing-TSP.py:82-84 | later tours never cost more than earlier ones |
| TravellingSalesman.StaysTour | Hill-Climbing-TSP.py:62-84 | the current tour stays a permutation of the cities |
| TravellingSalesman.ProgressBelowStart | Hill-Climbing-TSP.py:87 | no recorded distance exceeds the starting one |
| TravellingSalesman.ProgressNeverWorsens | Hill-Climbing-TSP.py:87 | recorded distances never increase |
| TravellingSalesman.NoStopAppend | Hill-Climbing-TSP.py:87-92 | appending an entry does not create an earlier stop |
| TravellingSalesman.NoStopExtend | Hill-Climbing-TSP.py:89-92 | not stopping at iteration `k` extends the no-stop range |
| TravellingSalesman.HillClimbingTsp | Hill-Climbing-TSP.py:46-94 | fewer than two cities with at least one iteration is the sampling error. Otherwise iterations equal the progress length and are 0 exactly when `max_iterations <= 0`, at most `max_iterations` otherwise. Progress records each tour and cost, and the result is the last tour and its cost. The loop stops before `max_iterations` exactly at the first iteration above 100 whose cost equals that 100 entries back |
| OneMax.Fitness | Genetic-Algorithm.py:21-26 | `sum(chromosome)`. `FitnessCountsOnes` states it counts the ones |
| OneMax.FitnessCountsOnes | Genetic-Algorithm.py:21-26 | on a binary chromosome the fitness is the number of ones, between 0 and the length |
| OneMax.FitnessOfConcat | Genetic-Algorithm.py:26 | fitness adds up over a concatenation |
| OneMax.FitnessOfSplit | Genetic-Algorithm.py:26 | fitness adds up over the two sides of a cut |
| OneMax.ArgMaxFirst | Genetic-Algorithm.py:85 | `index(max(...))`: a position of a largest value, with every earlier value strictly smaller |
| OneMax.Fitnesses | Genetic-Algorithm.py:68 | one fitness per member, in order |
| OneMax.BestBounds | Genetic-Algorithm.py:71 | `max(fitnesses)` is at least every member's fitness |
| OneMax.BestAttained | Genetic-Algorithm.py:71 | `max(fitnesses)` is the fitness of some member |
| OneMax.BestIsFirstFittest | Genetic-Algorithm.py:71-85 | the best fitness is the fitness at `fitnesses.index(best_fitness)` |
| OneMax.EliteKeepsBest | Genetic-Algorithm.py:84-86 | a population headed by the previous first fittest member is at least as fit at its best |
| OneMax.NonDecreasingAppend | Genetic-Algorithm.py:73 | appending a value no smaller than the last keeps a history non-decreasing |
| OneMax.WinnerPosition | Genetic-Algorithm.py:35-36 | the position in the tournament of `index(max(tournament_fitnesses))`. `WinnerPositionIsFittest` states it |
| OneMax.WinnerPositionIsFittest | Genetic-Algorithm.py:35-36 | no sampled index has a larger fitness than the winner's, and every one sampled before it a strictly smaller one |
| OneMax.WinnerIsFittest | Genetic-Algorithm.py:34-37 | the selected parent is one of the three sampled members, and none of them is fitter |
| OneMax.Crossover | Genetic-Algorithm.py:41-49 | with a crossover, child 1 takes genes before the point from parent 1 and the rest from parent 2, and child 2 the opposite. Without one, the children equal the parents. Lengths are kept |
| OneMax.CrossoverKeepsBinary | Genetic-Algorithm.py:44-49 | binary parents give binary children |
| OneMax.CrossoverKeepsFitness | Genetic-Algorithm.py:44-49 | the children's fitnesses add up to the parents' |
| OneMax.Flip | Genetic-Algorithm.py:51-56 | bit-flip mutation on the drawn mask; the length is kept |
| OneMax.FlipKeepsBinary | Genetic-Algorithm.py:51-56 | mutation keeps every gene 0 or 1 |
| OneMax.FlipChangesMasked | Genetic-Algorithm.py:53-55 | mutation changes exactly the genes whose draw was below the rate |
| OneMax.FlipTwice | Genetic-Algorithm.py:55 | flipping again with the same draws restores the chromosome |
| OneMax.Children | Genetic-Algorithm.py:91-98 | the two children of one pass: the tournament winners crossed over and then mutated, of the configured length |
| OneMax.OffspringAreChildren | Genetic-Algorithm.py:91-98 | the selected, crossed and mutated children are `Children` of the pass's draw |
| OneMax.Broods | Genetic-Algorithm.py:89-103 | one pair of children per pass, as many as passes |
| OneMax.BroodsMember | Genetic-Algorithm.py:89-103 | pair `j` is the children of the draw of pass `j` |
| OneMax.Grow | Genetic-Algorithm.py:100-103 | one pass appends the first child, and the second only while the population is short of `population_size` |
| OneMax.BredIsPrefix | Genetic-Algorithm.py:86-103 | after any number of passes the list is the elite followed by the children pairs in order, cut at `population_size` |
| OneMax.NextPopulation | Genetic-Algorithm.py:82-103 | `population_size` binary members of the configured length, the elite first |
| OneMax.NextPopulationMembers | Genetic-Algorithm.py:89-103 | member `2j+1` is the first child of pass `j`, and member `2j+2` its second while there is room |
| OneMax.Breeding | Genetic-Algorithm.py:82-106 | the next population behind a given elite: absent exactly where breeding raises; otherwise `population_size` binary members, the elite first |
| OneMax.NextGeneration | Genetic-Algorithm.py:66-106 | one generation: absent exactly when there are no members or breeding raises; otherwise the same size, binary, headed by the first fittest member |
| OneMax.PopulationAfter | Genetic-Algorithm.py:66-106 | the population after `g` generations, absent once one has raised; present ones have `population_size` binary members |
| OneMax.PopulationAfterFails | Genetic-Algorithm.py:34-44 | a run raises only with no members, two members (three indices cannot be sampled from two) or chromosomes shorter than two genes; with two members its first generation already raises |
| OneMax.PopulationAfterStep | Genetic-Algorithm.py:66-106 | generation `g + 1` is the breeding of generation `g` behind its first fittest member |
| OneMax.StaysNone | Genetic-Algorithm.py:66-106 | once a generation has raised, no later generation exists |
| OneMax.HistoryAt | Genetic-Algorithm.py:71-73 | entry `k` of the best-fitness history is the best fitness of the population after `k` generations |
| OneMax.HistoryMembers | Genetic-Algorithm.py:71-73 | the same for every entry at once, the history having one entry per generation |
| OneMax.GeneticAlgorithm.constructor | Genetic-Algorithm.py:5-19 | the sizes are stored, and the population is the drawn binary chromosomes of the configured length |
| OneMax.GeneticAlgorithm.SelectParents | Genetic-Algorithm.py:28-39 | two parents, each the member at the winning index of its tournament |
| OneMax.GeneticAlgorithm.Mutate | Genetic-Algorithm.py:51-56 | the chromosome is changed in place to `Flip` of its old genes |
| OneMax.GeneticAlgorithm.Offspring | Genetic-Algorithm.py:93-98 | the children are the crossed-over parents, each mutated, and binary of the configured length |
| OneMax.GeneticAlgorithm.BreedPair | Genetic-Algorithm.py:91-98 | one pass's children are `Children` of its draw; it fails exactly when a crossover is drawn on chromosomes shorter than two genes |
| OneMax.GeneticAlgorithm.BreedPass | Genetic-Algorithm.py:89-103 | one pass extends the list to the `Bred` list of one more pair, or fails where the program raises |
| OneMax.GeneticAlgorithm.Breed | Genetic-Algorithm.py:82-103 | the new population is `Breeding` of the old one behind the elite, and the failure flag is set exactly when breeding raises |
| OneMax.GeneticAlgorithm.Generation | Genetic-Algorithm.py:66-106 | one generation appends the best fitness of the current population to the history and replaces the population by `PopulationAfter` of the next generation, unless breeding raises |
| OneMax.GeneticAlgorithm.Evolve | Genetic-Algorithm.py:66-106 | the loop fails exactly when `PopulationAfter` of all generations is absent; otherwise the population is that one and the history is `History` |
| OneMax.GeneticAlgorithm.Run | Genetic-Algorithm.py:58-125 | the program's error exactly when there are no members or a generation raises. Otherwise the population is `PopulationAfter` of all generations, history entry `g` is the best fitness of the population after `g` generations, the history never decreases, and the result is the final population's first fittest member and its fitness |

## Left out

- Hill-Climbing-Algorithm.py is not part of this model: its objective, neighbour step and step-size decay are floating point throughout.
- Console input and output. Prompts, parsing, input validation loops, menus and board or grid printing are left out. Inputs are parameters, and printed visit orders are returned sequences.
- Randomness: shuffles, samples, `random()` and `randint` draws are parameters constrained to what the random source can produce.
- Floating point:
  - `float('inf')` is the `Ext` type;
  - the average-fitness history is left out;
  - the mutation and crossover rates only enter through the drawn masks and decisions;
  - the puzzle's side `int(len(state) ** 0.5)` is a `size` parameter, with the state holding `size * size` cells, as the program's main checks.
- Timing of the puzzle solver.
- Reading a missing key of a `defaultdict` inserts an empty list. The model reads it as empty without inserting, which nothing observes.
- Termination:
  - the A* loops and IDA* take a `fuel` bound and report `OutOfFuel` when it runs out;
  - the tree A* path reconstruction is bounded by the number of parent links;
  - an unsolvable puzzle, where the program loops forever, therefore ends as `OutOfFuel`.
- Heap order. Both A* searches pop any entry of least `f`. The heap's own tie-break between equal `f` values (heap layout on the grid, label order in the tree version) is not modelled.
- Exceptions the programs do not catch: grid rows of unequal length, out-of-range obstacle input, a puzzle state without a blank or with a tile missing from the goal, and a malformed graph line, and a minimax score list too short for the tree's height (the `IndexError` of MiniMax.py:4; the program's own list of 8 scores for height 3 fits). These become preconditions or are left out. The `ValueError` of a non-numeric tic-tac-toe move is left out.
- The tic-tac-toe game loop is modelled one pass at a time (`Turn`), not as the input-driven repetition.
- The TSP sampling error is raised before the loop, not during its first iteration. No state observable by the caller differs.
- TravellingSalesman.HillClimbingTsp: its ensures does not repeat that the tour stays a permutation and never costs more than the initial one. `StaysTour`, `NeverWorsens` and `ProgressNeverWorsens` prove those about `TourAfter`.
- OneMax.GeneticAlgorithm.Breed: the breeding loop, its passes (`BreedPass`, `BreedPair`, `Offspring`) and the generation loop (`Generation`, `Evolve`) are separate methods here, where the program writes them inline in `run`. The population is a `seq` field replaced as a whole, as `self.population = new_population` does.
- PuzzleIdaStar.IdaStarSearch: does not state that the solution is a shortest one. The initial state must hold a blank. Without one the program still returns a state equal to the goal at once (the empty board of side 0 included), and raises `ValueError` otherwise; the model does not cover those inputs.
- BreadthFirst.Graph.Bfs: states the order by distance, not the exact order among vertices at equal distance.
- DepthFirst.Graph.Dfs: states the visit order as a discovery order of exactly the reachable vertices, not the exact sequence the successor order selects.
- TreeDeepening.IterativeDeepeningSearch: states the shape of each level's path, not which chain the child order selects.
- GridAStar.AStarSearch and TreeAStar.AStar: do not state that a found path is a cheapest one.
- BinaryTree.Inorder, BinaryTree.Preorder and BinaryTree.Postorder: the traversals are modelled on `Tree` values, not on the `TreeNode` objects `BuildTree` links. Edge input that gives a node two parents (its subtree is then listed twice) or a cycle (the traversal then recurses until Python's `RecursionError`) is not covered.
