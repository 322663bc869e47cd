/**
 * The tic-tac-toe state engine of TicTacToeGame.py: a board updated in place
 * plus the player to move, the game-over flag and the winner.
 */
module Game {
  import opened Optional
  import opened Board

  class TicTacToe {
    /** The 3x3 board, row-major: cell (row, col) is board[3 * row + col]. */
    var board: array<int>
    /** 1 for X, -1 for O. */
    var currentPlayer: int
    var gameOver: bool
    /** None while the game runs, then Some(0) for a draw or Some(owner of the winning line). */
    var winner: Option<int>

    /**
     * The class invariant: cells are -1, 0 or 1, the player to move is 1 or
     * -1, the winner is None exactly while the game is not over, and the two
     * flags agree with the line/draw detector run on the board (only
     * `MakeMove`, which runs the detector, and the search's undo, which
     * restores an unfinished position, write them). A winner owns every
     * winning line on the board, so the detector's scan order never decides
     * who won.
     */
    ghost predicate Valid()
      reads this, board
    {
      board.Length == 9 &&
      WellFormed(board[..]) &&
      (currentPlayer == 1 || currentPlayer == -1) &&
      (winner.None? <==> !gameOver) &&
      winner == Outcome(board[..]) &&
      (winner.Some? && winner.value != 0 ==> OwnsEveryLine(board[..], winner.value))
    }

    /** A new game: empty board, X to move, not over, no winner. */
    constructor ()
      ensures Valid() && fresh(board)
      ensures forall k :: 0 <= k < 9 ==> board[k] == 0
      ensures currentPlayer == 1 && !gameOver && winner == None
    {
      board := new int[9](_ => 0);
      currentPlayer := 1;
      gameOver := false;
      winner := None;
      new;
      assert !Wins(board[..], ScanLine(0));
    }

    /**
     * Plays the player to move at (row, col). Refuses, changing nothing, when
     * the game is over, the coordinates are off the board or the cell is
     * taken. Otherwise marks the cell, runs the detector and hands the turn
     * to the other player, even when this move ended the game.
     */
    method MakeMove(row: int, col: int) returns (ok: bool)
      requires Valid()
      modifies this, board
      ensures Valid() && board == old(board)
      ensures ok <==> !old(gameOver) && 0 <= row < 3 && 0 <= col < 3 && old(board[3 * row + col]) == 0
      ensures !ok ==> board[..] == old(board[..]) && currentPlayer == old(currentPlayer)
                      && gameOver == old(gameOver) && winner == old(winner)
      ensures ok ==> board[..] == old(board[..])[3 * row + col := old(currentPlayer)]
                     && currentPlayer == -old(currentPlayer)
      ensures ok && winner.Some? && winner.value != 0 ==> winner.value == old(currentPlayer)
    {
      if gameOver || !(0 <= row < 3 && 0 <= col < 3) || board[3 * row + col] != 0 {
        return false;
      }
      ghost var before := board[..];
      board[3 * row + col] := currentPlayer;
      MoverOwnsNewLines(before, 3 * row + col, currentPlayer);
      CheckGameOver();
      currentPlayer := -currentPlayer;
      ok := true;
    }

    /**
     * `_check_game_over`: tests row i then column i for i = 0, 1, 2, then the
     * two diagonals, by `abs(sum) == 3`, stopping at the first hit and
     * recording its first cell as the winner; failing that, a full board is a
     * draw. When nothing is found the flags are left as they were.
     */
    method CheckGameOver()
      requires board.Length == 9 && WellFormed(board[..])
      modifies this`gameOver, this`winner
      ensures Outcome(board[..]).Some? ==> gameOver && winner == Outcome(board[..])
      ensures Outcome(board[..]).None? ==> gameOver == old(gameOver) && winner == old(winner)
    {
      ghost var b := board[..];
      for i := 0 to 3
        invariant FirstWin(b, 0) == FirstWin(b, 2 * i)
        invariant gameOver == old(gameOver) && winner == old(winner)
      {
        ScanRowCol(b, i);
        if Abs(board[3 * i] + board[3 * i + 1] + board[3 * i + 2]) == 3 {
          gameOver := true;
          winner := Some(board[3 * i]);
          return;
        }
        if Abs(board[i] + board[i + 3] + board[i + 6]) == 3 {
          gameOver := true;
          winner := Some(board[i]);
          return;
        }
      }
      ScanDiagonals(b);
      if Abs(board[0] + board[4] + board[8]) == 3 {
        gameOver := true;
        winner := Some(board[0]);
        return;
      }
      if Abs(board[2] + board[4] + board[6]) == 3 {
        gameOver := true;
        winner := Some(board[2]);
        return;
      }
      if Full(board[..]) {
        gameOver := true;
        winner := Some(0);
      }
    }

    /**
     * `get_valid_moves`: every empty cell of the board, each once, in
     * row-major order.
     */
    function GetValidMoves(): (r: seq<Move>)
      reads this, board
      requires board.Length == 9
      ensures forall m :: m in r <==> IsEmptyCell(board[..], m)
      ensures RowMajor(r)
    {
      ValidMovesExact(board[..]);
      ValidMoves(board[..])
    }

    /** `get_state`: a fresh copy of the board, so later moves do not change it. */
    method GetState() returns (s: array<int>)
      ensures fresh(s) && s[..] == board[..]
    {
      s := new int[board.Length](k requires 0 <= k < board.Length reads this, board => board[k]);
    }

    /** `is_terminal`: the game-over flag, which under the invariant means a winning line or a full board. */
    function IsTerminal(): (r: bool)
      reads this, board
      ensures Valid() ==> (r <==> HasWin(board[..]) || Full(board[..]))
    {
      gameOver
    }

    /**
     * `get_reward`: None while the game runs, 0 for a draw, 1 when winner is 1
     * and -1 otherwise. Under the invariant it is the detector's verdict on
     * the board.
     */
    function GetReward(): (r: Option<int>)
      reads this, board
      ensures r.None? <==> !gameOver
      ensures Valid() ==> r == Outcome(board[..])
    {
      if !gameOver then None
      else if winner == Some(0) then Some(0)
      else if winner == Some(1) then Some(1)
      else Some(-1)
    }

    /** `reset`: a new all-empty board, X to move, not over, no winner. */
    method Reset()
      modifies this
      ensures Valid() && fresh(board)
      ensures forall k :: 0 <= k < 9 ==> board[k] == 0
      ensures currentPlayer == 1 && !gameOver && winner == None
    {
      board := new int[9](_ => 0);
      currentPlayer := 1;
      gameOver := false;
      winner := None;
      assert !Wins(board[..], ScanLine(0));
    }
  }
}
