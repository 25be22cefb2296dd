/** Tic-tac-toe on a 9-cell board read row by row.  The computer plays 'X'
    and maximises, the human plays 'O'; a blank cell holds ' '.  Minimax
    places a mark on the shared board, recurs, and erases the mark again. */
module TicTacToe {
  import opened Common

  const Blank := ' '

  /** Every cell holds a mark or a blank, as on every board the game builds. */
  ghost predicate Marks(b: seq<char>)
  {
    forall i :: 0 <= i < |b| ==> b[i] in {'X', 'O', ' '}
  }

  /** Number of blank cells. */
  function Blanks(b: seq<char>): nat
  {
    multiset(b)[Blank]
  }

  lemma BlanksOfMark(b: seq<char>, i: nat, mark: char)
    requires i < |b| && b[i] == Blank && mark != Blank
    ensures Blanks(b[i := mark]) == Blanks(b) - 1
  {
  }

  /** The outcome that `check_winner` reports: `Win(m)` for the mark of a
      completed line, `Tie`, or `Ongoing` where the program returns None. */
  datatype Outcome = Win(mark: char) | Tie | Ongoing

  /** The eight lines in the order they are checked: the three rows, the
      three columns, then the two diagonals. */
  function Lines(): (ls: seq<(nat, nat, nat)>)
    ensures |ls| == 8
    ensures forall k :: 0 <= k < 8 ==> ls[k].0 < 9 && ls[k].1 < 9 && ls[k].2 < 9
  {
    [(0, 1, 2), (3, 4, 5), (6, 7, 8),
     (0, 3, 6), (1, 4, 7), (2, 5, 8),
     (0, 4, 8), (2, 4, 6)]
  }

  /** Line `k` holds three equal marks that are not blank. */
  predicate Complete(b: seq<char>, k: nat)
    requires |b| == 9 && k < 8
  {
    var l := Lines()[k];
    b[l.0] == b[l.1] == b[l.2] && b[l.0] != Blank
  }

  /** The outcome decided by lines `k` .. 7 when lines before `k` are not complete. */
  function WinnerFrom(b: seq<char>, k: nat): (r: Outcome)
    requires |b| == 9 && k <= 8
    ensures r.Win? ==> exists j :: k <= j < 8 && Complete(b, j) && r.mark == b[Lines()[j].0] &&
                                   forall i :: k <= i < j ==> !Complete(b, i)
    ensures !r.Win? <==> forall j :: k <= j < 8 ==> !Complete(b, j)
    ensures r == Tie <==> !r.Win? && Blank !in b
    decreases 8 - k
  {
    if k == 8 then
      if Blank !in b then Tie else Ongoing
    else if Complete(b, k) then
      Win(b[Lines()[k].0])
    else
      WinnerFrom(b, k + 1)
  }

  /** The winner of the first completed line in checking order; otherwise a
      tie when no cell is blank, and an ongoing game when one is. */
  function CheckWinner(b: seq<char>): (r: Outcome)
    requires |b| == 9
    ensures r.Win? ==> exists j :: 0 <= j < 8 && Complete(b, j) && r.mark == b[Lines()[j].0] &&
                                   forall i :: 0 <= i < j ==> !Complete(b, i)
    ensures !r.Win? <==> forall j :: 0 <= j < 8 ==> !Complete(b, j)
    ensures r == Tie <==> !r.Win? && Blank !in b
    ensures r == Ongoing <==> !r.Win? && Blank in b
  {
    WinnerFrom(b, 0)
  }

  /** A completed line's mark is never blank, so on a board of marks a
      winner is 'X' or 'O'. */
  lemma WinnerIsPlayer(b: seq<char>)
    requires |b| == 9 && Marks(b) && CheckWinner(b).Win?
    ensures CheckWinner(b).mark in {'X', 'O'}
  {
    var j :| 0 <= j < 8 && Complete(b, j) && CheckWinner(b).mark == b[Lines()[j].0];
    assert b[Lines()[j].0] in {'X', 'O', ' '};
  }

  /** The minimax value of board `b` reached after `depth` moves with
      `maximizing` to play: 10 - depth when X has won, depth - 10 when O
      has, 0 for a tie, and otherwise the best over the blank cells. */
  function Score(b: seq<char>, depth: int, maximizing: bool): Ext
    requires |b| == 9
    decreases Blanks(b), 1, 0
  {
    var result := CheckWinner(b);
    if result == Win('X') then Fin(10 - depth)
    else if result == Win('O') then Fin(depth - 10)
    else if result == Tie then Fin(0)
    else BestOver(b, depth, maximizing, 9)
  }

  /** The accumulator after cells 0 .. k-1: it starts at -inf for X (+inf
      for O) and takes the max (min) with the score of marking each blank. */
  function BestOver(b: seq<char>, depth: int, maximizing: bool, k: nat): Ext
    requires |b| == 9 && k <= 9
    decreases Blanks(b), 0, k
  {
    if k == 0 then
      if maximizing then NegInf else PosInf
    else
      var acc := BestOver(b, depth, maximizing, k - 1);
      if b[k - 1] != Blank then acc
      else
        var mark := if maximizing then 'X' else 'O';
        BlanksOfMark(b, k - 1, mark);
        var s := Score(b[k - 1 := mark], depth + 1, !maximizing);
        if maximizing then Max(s, acc) else Min(s, acc)
  }

  /** The score of each blank cell, and the accumulator, keep to the bounds. */
  ghost predicate InRange(e: Ext, depth: int)
  {
    e.Fin? && depth - 10 <= e.n <= 10 - depth
  }

  /** On a board of marks, with no more than 10 - depth blank cells, the value
      is an integer between depth - 10 and 10 - depth, in particular within
      [-10, 10] from depth 0. */
  lemma {:induction false} ScoreBounds(b: seq<char>, depth: int, maximizing: bool)
    requires |b| == 9 && Marks(b) && 0 <= depth && depth + Blanks(b) <= 10
    ensures InRange(Score(b, depth, maximizing), depth)
    decreases Blanks(b), 1, 0
  {
    var result := CheckWinner(b);
    if result.Win? {
      WinnerIsPlayer(b);
    } else if result == Ongoing {
      BestOverBounds(b, depth, maximizing, 9);
    }
  }

  lemma {:induction false} BestOverBounds(b: seq<char>, depth: int, maximizing: bool, k: nat)
    requires |b| == 9 && k <= 9 && Marks(b) && 0 <= depth && depth + Blanks(b) <= 10
    requires Blank in b[..k]
    ensures InRange(BestOver(b, depth, maximizing, k), depth)
    decreases Blanks(b), 0, k
  {
    var mark := if maximizing then 'X' else 'O';
    var acc := BestOver(b, depth, maximizing, k - 1);
    if b[k - 1] == Blank {
      BlanksOfMark(b, k - 1, mark);
      var b' := b[k - 1 := mark];
      ScoreBounds(b', depth + 1, !maximizing);
      if Blank in b[..k - 1] {
        BestOverBounds(b, depth, maximizing, k - 1);
      } else {
        assert acc == if maximizing then NegInf else PosInf by {
          NoBlankBefore(b, depth, maximizing, k - 1);
        }
      }
    } else {
      assert b[..k] == b[..k - 1] + [b[k - 1]];
      BestOverBounds(b, depth, maximizing, k - 1);
    }
  }

  /** With no blank among cells 0 .. k-1 the accumulator is still at its start. */
  lemma {:induction false} NoBlankBefore(b: seq<char>, depth: int, maximizing: bool, k: nat)
    requires |b| == 9 && k <= 9 && Blank !in b[..k]
    ensures BestOver(b, depth, maximizing, k) == if maximizing then NegInf else PosInf
  {
    if k > 0 {
      assert b[k - 1] == b[..k][k - 1];
      assert b[..k - 1] == b[..k][..k - 1];
      NoBlankBefore(b, depth, maximizing, k - 1);
    }
  }

  /** The minimax search on the shared board: it returns the value of the
      board it was given and leaves every cell as it found it. */
  method Minimax(board: array<char>, depth: int, isMaximizing: bool) returns (score: Ext)
    requires board.Length == 9
    modifies board
    ensures board[..] == old(board[..])
    ensures score == Score(board[..], depth, isMaximizing)
    decreases Blanks(board[..]), 1
  {
    var result := CheckWinner(board[..]);
    if result == Win('X') {
      return Fin(10 - depth);
    } else if result == Win('O') {
      return Fin(depth - 10);
    } else if result == Tie {
      return Fin(0);
    }
    ghost var b := board[..];
    var mark := if isMaximizing then 'X' else 'O';
    score := if isMaximizing then NegInf else PosInf;
    for i := 0 to 9
      invariant board[..] == b
      invariant score == BestOver(b, depth, isMaximizing, i)
    {
      if board[i] == Blank {
        var s := PlayAndUndo(board, i, mark, depth + 1, !isMaximizing);
        score := if isMaximizing then Max(s, score) else Min(s, score);
      }
    }
  }

  /** Marks blank cell `i`, scores the resulting board at `depth` with
      `isMaximizing` to play, and clears the cell again. */
  method PlayAndUndo(board: array<char>, i: nat, mark: char, depth: int, isMaximizing: bool) returns (s: Ext)
    requires board.Length == 9 && i < 9 && board[i] == Blank && mark != Blank
    modifies board
    ensures board[..] == old(board[..])
    ensures s == Score(old(board[..])[i := mark], depth, isMaximizing)
    decreases Blanks(board[..]), 0
  {
    ghost var b := board[..];
    board[i] := mark;
    assert board[..] == b[i := mark];
    BlanksOfMark(b, i, mark);
    s := Minimax(board, depth, isMaximizing);
    board[i] := Blank;
    assert board[..] == b;
  }

  /** The value of X marking cell `i`, as the computer judges its moves. */
  function MoveScore(b: seq<char>, i: nat): Ext
    requires |b| == 9 && i < 9
  {
    Score(b[i := 'X'], 0, false)
  }

  /** The computer's move: a blank cell whose score no other blank cell
      beats, the lowest such cell on ties, or -1 when no blank cell scores
      above -inf.  The board is left as it was. */
  method FindBestMove(board: array<char>) returns (move: int)
    requires board.Length == 9
    modifies board
    ensures board[..] == old(board[..])
    ensures move == -1 || (0 <= move < 9 && board[move] == Blank)
    ensures move == -1 ==> forall j :: 0 <= j < 9 && board[j] == Blank ==> MoveScore(board[..], j) == NegInf
    ensures move != -1 ==> forall j :: 0 <= j < 9 && board[j] == Blank ==>
              MoveScore(board[..], j).Le(MoveScore(board[..], move))
    ensures move != -1 ==> forall j :: 0 <= j < move && board[j] == Blank ==>
              MoveScore(board[..], j).Lt(MoveScore(board[..], move))
    ensures Marks(board[..]) ==> (move == -1 <==> Blank !in board[..])
  {
    ghost var b := board[..];
    ghost var scores := seq(9, j requires 0 <= j < 9 => MoveScore(b, j));
    var bestScore := NegInf;
    move := -1;
    for i := 0 to 9
      invariant board[..] == b
      invariant BestSoFar(scores, b, i, move, bestScore)
    {
      if board[i] == Blank {
        var score := PlayAndUndo(board, i, 'X', 0, false);
        assert score == scores[i];
        KeepBest(scores, b, i, move, bestScore);
        if bestScore.Lt(score) {
          bestScore := score;
          move := i;
        }
      }
    }
    if Marks(b) && move == -1 && Blank in b {
      var j :| 0 <= j < 9 && b[j] == Blank;
      BlankMoveScores(b, j);
    }
  }

  /** After the cells below `i` have been tried: `move` is -1 or the
      blank cell with score `best`, no blank cell tried so far scores above
      `best`, none before `move` scores as much, and with no move chosen
      every blank cell tried so far scored -inf. */
  ghost predicate BestSoFar(scores: seq<Ext>, b: seq<char>, i: nat, move: int, best: Ext)
  {
    |scores| == 9 && |b| == 9 && i <= 9 &&
    (move == -1 || (0 <= move < i && b[move] == Blank)) &&
    best == (if move == -1 then NegInf else scores[move]) &&
    (forall j :: 0 <= j < i && b[j] == Blank ==> scores[j].Le(best)) &&
    (forall j :: 0 <= j < move && b[j] == Blank ==> scores[j].Lt(best)) &&
    (move == -1 ==> forall j :: 0 <= j < i && b[j] == Blank ==> scores[j] == NegInf)
  }

  /** Trying blank cell `i` keeps the best move so far: the cell replaces
      the current choice exactly when it scores strictly higher. */
  lemma KeepBest(scores: seq<Ext>, b: seq<char>, i: nat, move: int, best: Ext)
    requires BestSoFar(scores, b, i, move, best) && i < 9 && b[i] == Blank
    ensures best.Lt(scores[i]) ==> BestSoFar(scores, b, i + 1, i, scores[i])
    ensures !best.Lt(scores[i]) ==> BestSoFar(scores, b, i + 1, move, best)
  {
    var score := scores[i];
    if best.Lt(score) {
      forall j | 0 <= j <= i && b[j] == Blank
        ensures scores[j].Le(score) && (j < i ==> scores[j].Lt(score))
      {
        if j < i {
          LeLtTrans(scores[j], best, score);
        }
      }
    }
  }

  /** On a board of marks, marking any blank cell scores an integer. */
  lemma BlankMoveScores(b: seq<char>, j: nat)
    requires |b| == 9 && Marks(b) && j < 9 && b[j] == Blank
    ensures MoveScore(b, j).Fin?
  {
    BlanksOfMark(b, j, 'X');
    assert Marks(b[j := 'X']);
    ScoreBounds(b[j := 'X'], 0, false);
  }

  /** A human move is accepted only for a cell 0 .. 8 that is blank. */
  predicate ValidMove(b: seq<char>, move: int)
    requires |b| == 9
  {
    0 <= move <= 8 && b[move] == Blank
  }

  /** One pass of the game loop. */
  datatype TurnResult = GameOver(outcome: Outcome) | Rejected | Played(cell: int)

  /** One pass of the game loop: a finished game (a winner or a tie) stops
      it; otherwise the human's `humanMove` is placed as 'O' if valid and
      rejected if not, or the computer places 'X' on its best move.  A turn
      that plays fills exactly one blank cell, so a game has at most nine. */
  method Turn(board: array<char>, playerTurn: bool, humanMove: int) returns (r: TurnResult)
    requires board.Length == 9 && Marks(board[..])
    modifies board
    ensures Marks(board[..])
    ensures old(CheckWinner(board[..])) != Ongoing <==> r.GameOver?
    ensures r.GameOver? ==> r.outcome == old(CheckWinner(board[..])) && board[..] == old(board[..])
    ensures r.Rejected? <==> old(CheckWinner(board[..])) == Ongoing && playerTurn && !ValidMove(old(board[..]), humanMove)
    ensures r.Rejected? ==> board[..] == old(board[..])
    ensures r.Played? ==> 0 <= r.cell < 9 && old(board[r.cell]) == Blank &&
                          board[..] == old(board[..])[r.cell := if playerTurn then 'O' else 'X'] &&
                          Blanks(board[..]) == Blanks(old(board[..])) - 1
    ensures r.Played? && playerTurn ==> r.cell == humanMove
    ensures r.Played? && !playerTurn ==>
              forall j :: 0 <= j < 9 && old(board[..])[j] == Blank ==>
                MoveScore(old(board[..]), j).Le(MoveScore(old(board[..]), r.cell))
    ensures r.Played? && !playerTurn ==>
              forall j :: 0 <= j < r.cell && old(board[..])[j] == Blank ==>
                MoveScore(old(board[..]), j).Lt(MoveScore(old(board[..]), r.cell))
  {
    var winner := CheckWinner(board[..]);
    if winner != Ongoing {
      return GameOver(winner);
    }
    ghost var b := board[..];
    var move;
    if playerTurn {
      if !ValidMove(board[..], humanMove) {
        return Rejected;
      }
      move := humanMove;
      board[move] := 'O';
    } else {
      move := FindBestMove(board);
      board[move] := 'X';
    }
    BlanksOfMark(b, move, board[move]);
    r := Played(move);
  }
}
