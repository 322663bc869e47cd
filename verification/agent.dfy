/**
 * The search player of MinimaxAgent.py: minimax with alpha-beta pruning run
 * on the live game object, each move made with `MakeMove` and undone by hand
 * before the next one is tried.
 */
module Agent {
  import opened Optional
  import opened Board
  import opened Game
  import opened GameTree

  class MinimaxAgent {
    /** 1 when the agent plays X (maximising), -1 when it plays O (minimising). */
    const player: int

    constructor (player: int)
      ensures this.player == player
    {
      this.player := player;
    }

    /**
     * `_minimax`: the search value of the position in `game`, with
     * `Player(maximizing)` to move, at `depth`, within the window
     * (alpha, beta). The value is fail-soft with respect to the unpruned
     * value `Minimax`: exact strictly inside the window, an upper bound of it
     * at or below `alpha`, a lower bound of it at or above `beta`. Every move
     * tried is undone, so the game is left exactly as it was found.
     */
    method AlphaBeta(game: TicTacToe, ghost b: seq<int>, depth: nat, alpha: int, beta: int, maximizing: bool) returns (score: int)
      requires game.Valid() && game.board[..] == b && (maximizing <==> game.currentPlayer == 1)
      requires depth + Empties(b) <= 8
      requires NegInf <= alpha < beta <= PosInf
      modifies game, game.board
      ensures game.Valid() && game.board == old(game.board) && game.board[..] == b
      ensures game.currentPlayer == old(game.currentPlayer) && game.gameOver == old(game.gameOver)
      ensures game.winner == old(game.winner)
      ensures -10 <= score <= 10
      ensures score <= alpha ==> Minimax(b, maximizing, depth) <= score
      ensures score >= beta ==> Minimax(b, maximizing, depth) >= score
      ensures alpha < score < beta ==> Minimax(b, maximizing, depth) == score
      decreases Empties(b), 2
    {
      if game.IsTerminal() {
        score := TerminalScore(game.GetReward().value, depth);
      } else if maximizing {
        score := MaxValue(game, b, depth, alpha, beta);
      } else {
        score := MinValue(game, b, depth, alpha, beta);
      }
    }

    /** The maximising branch of `_minimax` (X to move on an unfinished board). */
    method MaxValue(game: TicTacToe, ghost b: seq<int>, depth: nat, alpha: int, beta: int) returns (score: int)
      requires game.Valid() && game.board[..] == b && !game.gameOver && game.currentPlayer == 1
      requires depth + Empties(b) <= 8
      requires NegInf <= alpha < beta <= PosInf
      modifies game, game.board
      ensures game.Valid() && game.board == old(game.board) && game.board[..] == b
      ensures game.currentPlayer == 1 && !game.gameOver && game.winner == None
      ensures -10 <= score <= 10
      ensures score <= alpha ==> Minimax(b, true, depth) <= score
      ensures score >= beta ==> Minimax(b, true, depth) >= score
      ensures alpha < score < beta ==> Minimax(b, true, depth) == score
      decreases Empties(b), 1
    {
      var moves := game.GetValidMoves();
      ghost var vs := MoveValues(b, true, depth + 1);
      var maxEval := NegInf;
      var a := alpha;
      ghost var best := 0;
      var i := 0;
      while i < |moves|
        invariant 0 <= i <= |moves|
        invariant game.Valid() && game.board == old(game.board) && game.board[..] == b
        invariant game.currentPlayer == 1 && !game.gameOver && game.winner == None
        invariant a == Max(alpha, maxEval) && a < beta
        invariant if i == 0 then maxEval == NegInf else -10 <= maxEval <= 10
        invariant forall k :: 0 <= k < i ==> vs[k] <= maxEval
        invariant alpha < maxEval ==> best < i && vs[best] == maxEval
      {
        var m := moves[i];
        var eval := ScoreMove(game, b, m, depth + 1, a, beta, 1);
        if Max(a, eval) < beta {
          MaxStep(vs, i, alpha, beta, maxEval, eval);
        }
        if eval > maxEval {
          best := i;
        }
        maxEval := Max(maxEval, eval);
        a := Max(a, eval);
        i := i + 1;
        if beta <= a {
          assert vs[best] >= maxEval;
          break;
        }
      }
      score := maxEval;
    }

    /** The minimising branch of `_minimax` (O to move on an unfinished board). */
    method MinValue(game: TicTacToe, ghost b: seq<int>, depth: nat, alpha: int, beta: int) returns (score: int)
      requires game.Valid() && game.board[..] == b && !game.gameOver && game.currentPlayer == -1
      requires depth + Empties(b) <= 8
      requires NegInf <= alpha < beta <= PosInf
      modifies game, game.board
      ensures game.Valid() && game.board == old(game.board) && game.board[..] == b
      ensures game.currentPlayer == -1 && !game.gameOver && game.winner == None
      ensures -10 <= score <= 10
      ensures score <= alpha ==> Minimax(b, false, depth) <= score
      ensures score >= beta ==> Minimax(b, false, depth) >= score
      ensures alpha < score < beta ==> Minimax(b, false, depth) == score
      decreases Empties(b), 1
    {
      var moves := game.GetValidMoves();
      ghost var vs := MoveValues(b, false, depth + 1);
      var minEval := PosInf;
      var c := beta;
      ghost var best := 0;
      var i := 0;
      while i < |moves|
        invariant 0 <= i <= |moves|
        invariant game.Valid() && game.board == old(game.board) && game.board[..] == b
        invariant game.currentPlayer == -1 && !game.gameOver && game.winner == None
        invariant c == Min(beta, minEval) && alpha < c
        invariant if i == 0 then minEval == PosInf else -10 <= minEval <= 10
        invariant forall k :: 0 <= k < i ==> vs[k] >= minEval
        invariant minEval < beta ==> best < i && vs[best] == minEval
      {
        var m := moves[i];
        var eval := ScoreMove(game, b, m, depth + 1, alpha, c, -1);
        if alpha < Min(c, eval) {
          MinStep(vs, i, alpha, beta, minEval, eval);
        }
        if eval < minEval {
          best := i;
        }
        minEval := Min(minEval, eval);
        c := Min(c, eval);
        i := i + 1;
        if c <= alpha {
          assert vs[best] <= minEval;
          break;
        }
      }
      score := minEval;
    }

    /**
     * The step shared by `get_move` and both branches of `_minimax`: play
     * `m` for the player to move, search the resulting position at
     * `depth` with the other side to move, then undo the move by clearing the
     * cell, clearing the game-over flag and the winner and handing the turn
     * to `restore` (the constant 1 or -1 in `_minimax`, the agent's own mark
     * in `get_move`), which must be the player who moved. The result is
     * fail-soft with respect to the value of the child position, and the
     * game is left exactly as it was found.
     */
    method ScoreMove(game: TicTacToe, ghost b: seq<int>, m: Move, depth: nat, alpha: int, beta: int, restore: int)
      returns (eval: int)
      requires game.Valid() && game.board[..] == b && !game.gameOver && IsEmptyCell(b, m)
      requires game.currentPlayer == restore
      requires depth + Empties(b) <= 9
      requires NegInf <= alpha < beta <= PosInf
      modifies game, game.board
      ensures game.Valid() && game.board == old(game.board) && game.board[..] == b
      ensures game.currentPlayer == old(game.currentPlayer) && !game.gameOver && game.winner == None
      ensures -10 <= eval <= 10
      ensures var v := ChildValue(b, m, game.currentPlayer == 1, depth);
              (eval <= alpha ==> v <= eval) && (eval >= beta ==> v >= eval) && (alpha < eval < beta ==> v == eval)
      decreases Empties(b), 0
    {
      var ok := game.MakeMove(m.0, m.1);
      assert ok;
      FillShrinks(b, m, restore);
      eval := AlphaBeta(game, Child(b, m, restore), depth, alpha, beta, restore == -1);
      game.board[3 * m.0 + m.1] := 0;
      game.gameOver := false;
      game.winner := None;
      game.currentPlayer := restore;
      assert game.board[..] == b;
    }

    /**
     * `get_move`: scores every legal move of the agent in row-major order by
     * a search of the resulting position from depth 0, narrowing the window
     * on the agent's side to the best score so far, and keeps the first move
     * with the best score. The game is left exactly as it was found.
     */
    method GetMove(game: TicTacToe) returns (move: Option<Move>)
      requires game.Valid() && !game.gameOver && game.currentPlayer == player
      modifies game, game.board
      ensures game.Valid() && game.board == old(game.board) && game.board[..] == old(game.board[..])
      ensures game.currentPlayer == old(game.currentPlayer) && !game.gameOver && game.winner == None
      ensures move.Some? && FirstOptimal(game.board[..], player, move.value)
    {
      var bestScore := if player == 1 then NegInf else PosInf;
      move := None;
      var alpha := NegInf;
      var beta := PosInf;
      ghost var b := game.board[..];
      var moves := game.GetValidMoves();
      ghost var vs := MoveValues(b, player == 1, 0);
      ghost var pos := 0;
      var i := 0;
      while i < |moves|
        invariant 0 <= pos <= i <= |moves|
        invariant game.Valid() && game.board == old(game.board) && game.board[..] == b
        invariant game.currentPlayer == player && !game.gameOver && game.winner == None
        invariant alpha == (if player == 1 then bestScore else NegInf)
        invariant beta == (if player == 1 then PosInf else bestScore)
        invariant i == 0 ==> bestScore == (if player == 1 then NegInf else PosInf)
        invariant i > 0 ==> -10 <= bestScore <= 10 && pos < i && move == Some(moves[pos]) && bestScore == vs[pos]
        invariant forall k :: 0 <= k < i ==> !Improves(player, vs[k], bestScore)
        invariant forall k :: 0 <= k < pos ==> Improves(player, bestScore, vs[k])
      {
        var m := moves[i];
        var score := ScoreMove(game, b, m, 0, alpha, beta, player);
        assert Improves(player, score, bestScore) <==> Improves(player, vs[i], bestScore);
        if player == 1 {
          if score > bestScore {
            bestScore := score;
            move := Some(m);
            pos := i;
          }
          alpha := Max(alpha, bestScore);
        } else {
          if score < bestScore {
            bestScore := score;
            move := Some(m);
            pos := i;
          }
          beta := Min(beta, bestScore);
        }
        i := i + 1;
      }
      FirstOptimalFromScan(b, player, vs, pos);
    }
  }

  /**
   * Bookkeeping of the maximising loop: when child `i`, searched in the
   * window (max(alpha, maxEval), beta), does not cut the loop off, the new
   * running maximum bounds every child value seen so far.
   */
  lemma MaxStep(vs: seq<int>, i: nat, alpha: int, beta: int, maxEval: int, eval: int)
    requires i < |vs| && Max(alpha, Max(maxEval, eval)) < beta
    requires forall k :: 0 <= k < i ==> vs[k] <= maxEval
    requires eval <= Max(alpha, maxEval) ==> vs[i] <= eval
    requires Max(alpha, maxEval) < eval < beta ==> vs[i] == eval
    ensures forall k :: 0 <= k <= i ==> vs[k] <= Max(maxEval, eval)
  {
  }

  /** The minimising loop's counterpart of `MaxStep`. */
  lemma MinStep(vs: seq<int>, i: nat, alpha: int, beta: int, minEval: int, eval: int)
    requires i < |vs| && alpha < Min(beta, Min(minEval, eval))
    requires forall k :: 0 <= k < i ==> vs[k] >= minEval
    requires eval >= Min(beta, minEval) ==> vs[i] >= eval
    requires alpha < eval < Min(beta, minEval) ==> vs[i] == eval
    ensures forall k :: 0 <= k <= i ==> vs[k] >= Min(minEval, eval)
  {
  }
}
