/**
 * The reference game-tree value that the search of MinimaxAgent.py is proved
 * against: plain minimax (no pruning) over the same moves, in the same order,
 * with the same depth-attenuated terminal score.
 *
 * Scores are the source's `reward * (1 - depth * 0.1)` multiplied by 10, i.e.
 * `reward * (10 - depth)`, exact integers that order exactly as the source's
 * reals do. The `float('inf')` sentinels become `PosInf` / `NegInf`, which lie
 * outside every score a search can produce.
 */
module GameTree {
  import opened Optional
  import opened Board

  const NegInf: int := -11
  const PosInf: int := 11

  function Max(x: int, y: int): int {
    if x >= y then x else y
  }

  function Min(x: int, y: int): int {
    if x <= y then x else y
  }

  /** The mark placed by the side to move: X maximises, O minimises. */
  function Player(maximizing: bool): int {
    if maximizing then 1 else -1
  }

  /**
   * The score of a finished position reached at `depth`, scaled by 10. For
   * every depth the search reaches (at most 8) the factor is positive, so a
   * win stays positive, a loss negative, and the score stays strictly
   * between the two sentinels.
   */
  function TerminalScore(reward: int, depth: nat): (s: int)
    requires IsCell(reward)
    ensures depth <= 8 ==> -10 <= s <= 10 && (s > 0 <==> reward == 1) && (s < 0 <==> reward == -1)
  {
    reward * (10 - depth)
  }

  /** A quicker win scores higher and a quicker loss lower than a slower one. */
  lemma QuickerOutcomeWeighsMore(d1: nat, d2: nat)
    requires d1 < d2 <= 8
    ensures TerminalScore(1, d1) > TerminalScore(1, d2) > 0
    ensures TerminalScore(-1, d1) < TerminalScore(-1, d2) < 0
  {
  }

  /**
   * The best of a non-empty list of values for the side to move (largest for
   * X, smallest for O), folded left to right as the search loop does.
   */
  function Best(vs: seq<int>, maximizing: bool): (r: int)
    requires |vs| > 0
    ensures r in vs
    ensures forall k :: 0 <= k < |vs| ==> if maximizing then vs[k] <= r else r <= vs[k]
  {
    if |vs| == 1 then vs[0]
    else if maximizing then Max(Best(vs[..|vs| - 1], maximizing), vs[|vs| - 1])
    else Min(Best(vs[..|vs| - 1], maximizing), vs[|vs| - 1])
  }

  /**
   * The minimax value of board `b` with `Player(maximizing)` to move, at
   * search depth `depth`: the terminal score of a finished board, otherwise
   * the best child value over the legal moves.
   */
  function Minimax(b: seq<int>, maximizing: bool, depth: nat): int
    requires WellFormed(b)
    decreases Empties(b), 2
  {
    match Outcome(b)
    case Some(w) => TerminalScore(w, depth)
    case None =>
      NotFullHasMove(b);
      Best(ChildValues(b, ValidMoves(b), maximizing, depth + 1), maximizing)
  }

  /** The values of the moves `ms`, in order, each child scored at `depth`. */
  function ChildValues(b: seq<int>, ms: seq<Move>, maximizing: bool, depth: nat): (vs: seq<int>)
    requires WellFormed(b) && forall k :: 0 <= k < |ms| ==> IsEmptyCell(b, ms[k])
    ensures |vs| == |ms|
    decreases Empties(b), 1, |ms|
  {
    if ms == [] then []
    else ChildValues(b, ms[..|ms| - 1], maximizing, depth) + [ChildValue(b, ms[|ms| - 1], maximizing, depth)]
  }

  /** The value of playing `m`: the other side moves next, in a position scored at `depth`. */
  function ChildValue(b: seq<int>, m: Move, maximizing: bool, depth: nat): int
    requires WellFormed(b) && IsEmptyCell(b, m)
    decreases Empties(b), 0
  {
    FillShrinks(b, m, Player(maximizing));
    Minimax(Child(b, m, Player(maximizing)), !maximizing, depth)
  }

  /** Entry `k` of the value list is the value of the `k`-th move. */
  lemma {:induction false} ChildValuesAt(b: seq<int>, ms: seq<Move>, maximizing: bool, depth: nat, k: nat)
    requires WellFormed(b) && (forall j :: 0 <= j < |ms| ==> IsEmptyCell(b, ms[j])) && k < |ms|
    ensures ChildValues(b, ms, maximizing, depth)[k] == ChildValue(b, ms[k], maximizing, depth)
    decreases |ms|
  {
    if k < |ms| - 1 {
      ChildValuesAt(b, ms[..|ms| - 1], maximizing, depth, k);
    }
  }

  /**
   * The values of the legal moves of an unfinished board, in row-major order,
   * each child scored at `depth`: entry `k` is the value of the `k`-th legal
   * move, and the minimax value one level up is their best.
   */
  lemma MoveValues(b: seq<int>, maximizing: bool, depth: nat) returns (vs: seq<int>)
    requires WellFormed(b) && Outcome(b).None?
    ensures |vs| == |ValidMoves(b)| > 0
    ensures forall k {:trigger ValidMoves(b)[k]} :: 0 <= k < |vs| ==>
              vs[k] == ChildValue(b, ValidMoves(b)[k], maximizing, depth)
    ensures depth > 0 ==> Minimax(b, maximizing, depth - 1) == Best(vs, maximizing)
  {
    NotFullHasMove(b);
    vs := ChildValues(b, ValidMoves(b), maximizing, depth);
    forall k | 0 <= k < |vs|
      ensures vs[k] == ChildValue(b, ValidMoves(b)[k], maximizing, depth)
    {
      ChildValuesAt(b, ValidMoves(b), maximizing, depth, k);
    }
  }

  /**
   * On an unfinished board the minimax value is the largest (X to move) or
   * smallest (O to move) child value over all legal moves, and some legal
   * move attains it.
   */
  lemma MinimaxChoosesExtreme(b: seq<int>, maximizing: bool, depth: nat)
    requires WellFormed(b) && Outcome(b).None?
    ensures forall m :: IsEmptyCell(b, m) ==>
              if maximizing then ChildValue(b, m, maximizing, depth + 1) <= Minimax(b, maximizing, depth)
              else ChildValue(b, m, maximizing, depth + 1) >= Minimax(b, maximizing, depth)
    ensures exists m :: IsEmptyCell(b, m) && Minimax(b, maximizing, depth) == ChildValue(b, m, maximizing, depth + 1)
  {
    NotFullHasMove(b);
    var ms := ValidMoves(b);
    var vs := ChildValues(b, ms, maximizing, depth + 1);
    ValidMovesExact(b);
    var v := Best(vs, maximizing);
    assert Minimax(b, maximizing, depth) == v;
    forall m | IsEmptyCell(b, m)
      ensures if maximizing then ChildValue(b, m, maximizing, depth + 1) <= v
              else ChildValue(b, m, maximizing, depth + 1) >= v
    {
      var k :| 0 <= k < |ms| && ms[k] == m;
      ChildValuesAt(b, ms, maximizing, depth + 1, k);
    }
    var k :| 0 <= k < |vs| && vs[k] == v;
    ChildValuesAt(b, ms, maximizing, depth + 1, k);
    assert IsEmptyCell(b, ms[k]);
  }

  /**
   * Depth plus the number of empty cells never exceeds 8 in the search, so
   * no terminal is scored below depth 8 and every value lies in [-10, 10],
   * strictly inside the sentinels.
   */
  lemma {:induction false} MinimaxRange(b: seq<int>, maximizing: bool, depth: nat)
    requires WellFormed(b) && depth + Empties(b) <= 8
    ensures -10 <= Minimax(b, maximizing, depth) <= 10
    decreases Empties(b)
  {
    if Outcome(b).None? {
      MinimaxChoosesExtreme(b, maximizing, depth);
      var m :| IsEmptyCell(b, m) && Minimax(b, maximizing, depth) == ChildValue(b, m, maximizing, depth + 1);
      FillShrinks(b, m, Player(maximizing));
      MinimaxRange(Child(b, m, Player(maximizing)), !maximizing, depth + 1);
    }
  }

  // ---------------------------------------------------------------------
  // The root decision of `get_move`
  // ---------------------------------------------------------------------

  /**
   * The unpruned value of root move `m` for `player`: the minimax value of
   * the resulting board with the other side to move, scored from depth 0.
   * `get_move`'s own score for `m` equals it whenever that score beats the
   * best so far; otherwise the narrowed root window may make it only a
   * bound, which never changes the choice.
   */
  function RootScore(b: seq<int>, m: Move, player: int): int
    requires WellFormed(b) && IsEmptyCell(b, m) && (player == 1 || player == -1)
  {
    ChildValue(b, m, player == 1, 0)
  }

  /** Score `x` is strictly better than `y` for `player` (higher for X, lower for O). */
  predicate Improves(player: int, x: int, y: int) {
    if player == 1 then x > y else x < y
  }

  /**
   * `m` is the move `get_move` should return: a legal move that no legal move
   * beats for `player`, and that strictly beats every legal move before it
   * in row-major order.
   */
  ghost predicate FirstOptimal(b: seq<int>, player: int, m: Move)
    requires WellFormed(b) && (player == 1 || player == -1)
  {
    IsEmptyCell(b, m) &&
    (forall m' {:trigger IsEmptyCell(b, m')} :: IsEmptyCell(b, m') ==> !Improves(player, RootScore(b, m', player), RootScore(b, m, player))) &&
    (forall m' {:trigger IsEmptyCell(b, m')} :: IsEmptyCell(b, m') && Index(m') < Index(m) ==>
       Improves(player, RootScore(b, m, player), RootScore(b, m', player)))
  }

  /** The row-major tie-break makes the choice unique. */
  lemma FirstOptimalUnique(b: seq<int>, player: int, m1: Move, m2: Move)
    requires WellFormed(b) && (player == 1 || player == -1)
    requires FirstOptimal(b, player, m1) && FirstOptimal(b, player, m2)
    ensures m1 == m2
  {
  }

  /**
   * The scan of the legal moves in order: if the root score at position
   * `pos` is beaten by none of the root scores and beats every earlier one,
   * the move there is the first optimal move.
   */
  lemma FirstOptimalFromScan(b: seq<int>, player: int, vs: seq<int>, pos: nat)
    requires WellFormed(b) && (player == 1 || player == -1)
    requires |vs| == |ValidMoves(b)| && pos < |vs|
    requires forall k {:trigger ValidMoves(b)[k]} :: 0 <= k < |vs| ==>
               vs[k] == ChildValue(b, ValidMoves(b)[k], player == 1, 0)
    requires forall k :: 0 <= k < |vs| ==> !Improves(player, vs[k], vs[pos])
    requires forall k :: 0 <= k < pos ==> Improves(player, vs[pos], vs[k])
    ensures FirstOptimal(b, player, ValidMoves(b)[pos])
  {
    var ms := ValidMoves(b);
    var m := ms[pos];
    ValidMovesExact(b);
    assert vs[pos] == RootScore(b, m, player);
    forall m' | IsEmptyCell(b, m')
      ensures !Improves(player, RootScore(b, m', player), RootScore(b, m, player))
      ensures Index(m') < Index(m) ==> Improves(player, RootScore(b, m, player), RootScore(b, m', player))
    {
      var k :| 0 <= k < |ms| && ms[k] == m';
      assert vs[k] == RootScore(b, m', player);
      if Index(m') < Index(m) {
        assert k < pos;
      }
    }
  }
}
