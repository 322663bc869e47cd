/**
 * Pure facts about a 3x3 tic-tac-toe board.
 *
 * The board is kept row-major as nine cells: cell (row, col) lives at index
 * 3 * row + col. A cell holds 1 (X, the first mover), -1 (O) or 0 (empty).
 * This module is the board-level half of TicTacToeGame.py: line detection
 * (`_check_game_over`'s verdict), the list of legal moves and counting of
 * empty cells.
 */
module Board {
  import opened Optional

  /** A (row, col) pair, as `get_valid_moves` hands them out. */
  type Move = (int, int)

  /** Three cell indices forming a row, a column or a diagonal. */
  type Line = (nat, nat, nat)

  predicate IsCell(x: int) {
    x == -1 || x == 0 || x == 1
  }

  /** Nine cells, each empty or owned by one of the two players. */
  predicate WellFormed(b: seq<int>) {
    |b| == 9 && forall k :: 0 <= k < 9 ==> IsCell(b[k])
  }

  predicate InBounds(m: Move) {
    0 <= m.0 < 3 && 0 <= m.1 < 3
  }

  /** Row-major position of a move. */
  function Index(m: Move): int {
    3 * m.0 + m.1
  }

  /** The move whose row-major position is `k`. */
  function CellAt(k: int): (m: Move)
    requires 0 <= k < 9
    ensures InBounds(m) && Index(m) == k
  {
    if k < 3 then (0, k) else if k < 6 then (1, k - 3) else (2, k - 6)
  }

  /** A move `make_move` accepts on an unfinished game: on the board and on an empty cell. */
  predicate IsEmptyCell(b: seq<int>, m: Move)
    requires |b| == 9
  {
    InBounds(m) && b[Index(m)] == 0
  }

  /** No cell is empty (`np.all(board != 0)`). */
  predicate Full(b: seq<int>) {
    forall k :: 0 <= k < |b| ==> b[k] != 0
  }

  /** The board after `p` marks the cell of `m`. */
  function Child(b: seq<int>, m: Move, p: int): (c: seq<int>)
    requires |b| == 9 && InBounds(m)
    ensures |c| == 9
  {
    b[Index(m) := p]
  }

  // ---------------------------------------------------------------------
  // Lines, in the order the detector scans them
  // ---------------------------------------------------------------------

  function Row(i: nat): Line
    requires i < 3
  {
    (3 * i, 3 * i + 1, 3 * i + 2)
  }

  function Col(i: nat): Line
    requires i < 3
  {
    (i, i + 3, i + 6)
  }

  const Diagonal: Line := (0, 4, 8)
  const AntiDiagonal: Line := (2, 4, 6)

  /**
   * The j-th line the detector looks at: row i and column i for i = 0, 1, 2
   * interleaved, then the main diagonal, then the anti-diagonal. The first
   * index of every line is the cell whose value the detector reports as the
   * winner (board[i, 0], board[0, i], board[0, 0], board[0, 2]).
   */
  function ScanLine(j: nat): (l: Line)
    requires j < 8
    ensures l.0 < 9 && l.1 < 9 && l.2 < 9
  {
    if j == 0 then Row(0) else if j == 1 then Col(0)
    else if j == 2 then Row(1) else if j == 3 then Col(1)
    else if j == 4 then Row(2) else if j == 5 then Col(2)
    else if j == 6 then Diagonal
    else AntiDiagonal
  }

  /** All three cells of `l` belong to the same player. */
  predicate Wins(b: seq<int>, l: Line)
    requires |b| == 9 && l.0 < 9 && l.1 < 9 && l.2 < 9
  {
    b[l.0] != 0 && b[l.0] == b[l.1] && b[l.1] == b[l.2]
  }

  predicate HasWin(b: seq<int>)
    requires |b| == 9
  {
    exists j :: 0 <= j < 8 && Wins(b, ScanLine(j))
  }

  function Abs(x: int): int {
    if x < 0 then -x else x
  }

  /** The detector's test `abs(sum(line)) == 3` is exactly "one player owns the line". */
  lemma SumDetectsLine(x: int, y: int, z: int)
    requires IsCell(x) && IsCell(y) && IsCell(z)
    ensures Abs(x + y + z) == 3 <==> x != 0 && x == y && y == z
  {
  }

  /** The owner of the first winning line at or after scan position `j`, if any. */
  function FirstWin(b: seq<int>, j: nat): Option<int>
    requires |b| == 9 && j <= 8
    decreases |b| - j
  {
    if j == 8 then None
    else if Wins(b, ScanLine(j)) then Some(b[ScanLine(j).0])
    else FirstWin(b, j + 1)
  }

  /**
   * The scan from position `j` finds a line exactly when some line at or
   * after `j` is won, and what it reports is the owner of a won line.
   */
  lemma {:induction false} FirstWinFinds(b: seq<int>, j: nat)
    requires |b| == 9 && j <= 8
    ensures FirstWin(b, j).Some? <==> exists k :: j <= k < 8 && Wins(b, ScanLine(k))
    ensures FirstWin(b, j).Some? ==>
              exists k :: j <= k < 8 && Wins(b, ScanLine(k)) && FirstWin(b, j).value == b[ScanLine(k).0]
    decreases |b| - j
  {
    if j < 8 && !Wins(b, ScanLine(j)) {
      FirstWinFinds(b, j + 1);
    }
  }

  /** Scan positions 2i and 2i+1 (row i, column i) as the detector tests them, by their sums. */
  lemma ScanRowCol(b: seq<int>, i: nat)
    requires WellFormed(b) && i < 3
    ensures FirstWin(b, 2 * i) ==
              if Abs(b[3 * i] + b[3 * i + 1] + b[3 * i + 2]) == 3 then Some(b[3 * i])
              else if Abs(b[i] + b[i + 3] + b[i + 6]) == 3 then Some(b[i])
              else FirstWin(b, 2 * i + 2)
  {
    assert ScanLine(2 * i) == Row(i);
    assert ScanLine(2 * i + 1) == Col(i);
    SumDetectsLine(b[3 * i], b[3 * i + 1], b[3 * i + 2]);
    SumDetectsLine(b[i], b[i + 3], b[i + 6]);
  }

  /** The last two scan positions, the diagonals, as the detector tests them. */
  lemma ScanDiagonals(b: seq<int>)
    requires WellFormed(b)
    ensures FirstWin(b, 6) ==
              if Abs(b[0] + b[4] + b[8]) == 3 then Some(b[0])
              else if Abs(b[2] + b[4] + b[6]) == 3 then Some(b[2])
              else None
  {
    assert FirstWin(b, 8) == None;
    SumDetectsLine(b[0], b[4], b[8]);
    SumDetectsLine(b[2], b[4], b[6]);
  }

  /**
   * The verdict of `_check_game_over` on a board: Some(owner) of the first
   * winning line in scan order, else Some(0) for a full board (draw), else
   * None (the game goes on).
   */
  function Outcome(b: seq<int>): (r: Option<int>)
    requires WellFormed(b)
    ensures r.None? <==> !HasWin(b) && !Full(b)
    ensures r == Some(0) <==> !HasWin(b) && Full(b)
    ensures r.Some? ==> IsCell(r.value)
    ensures r.Some? && r.value != 0 ==>
              exists j :: 0 <= j < 8 && Wins(b, ScanLine(j)) && b[ScanLine(j).0] == r.value
  {
    FirstWinFinds(b, 0);
    var w := FirstWin(b, 0);
    if w.Some? then w else if Full(b) then Some(0) else None
  }

  /** Every winning line on the board belongs to `p`. */
  predicate OwnsEveryLine(b: seq<int>, p: int)
    requires |b| == 9
  {
    forall j :: 0 <= j < 8 && Wins(b, ScanLine(j)) ==> b[ScanLine(j).0] == p
  }

  /** When every winning line on the board belongs to `p`, the verdict names `p`. */
  lemma OutcomeNamesOwner(b: seq<int>, j: nat)
    requires WellFormed(b) && j < 8 && Wins(b, ScanLine(j))
    requires OwnsEveryLine(b, b[ScanLine(j).0])
    ensures Outcome(b) == Some(b[ScanLine(j).0])
  {
  }

  /**
   * Marking one empty cell of a board without a winning line can only create
   * lines owned by the player who marked it: a board never holds winning
   * lines of both players.
   */
  lemma MoverOwnsNewLines(b: seq<int>, i: int, p: int)
    requires WellFormed(b) && 0 <= i < 9 && b[i] == 0 && !HasWin(b)
    ensures OwnsEveryLine(b[i := p], p)
  {
  }

  // ---------------------------------------------------------------------
  // Legal moves
  // ---------------------------------------------------------------------

  /** The empty cells at row-major positions k..8, in row-major order. */
  function MovesFrom(b: seq<int>, k: nat): (r: seq<Move>)
    requires |b| == 9 && k <= 9
    ensures |r| <= 9 - k
    ensures forall p :: 0 <= p < |r| ==> IsEmptyCell(b, r[p]) && k <= Index(r[p])
    decreases |b| - k
  {
    if k == 9 then []
    else if b[k] == 0 then [CellAt(k)] + MovesFrom(b, k + 1)
    else MovesFrom(b, k + 1)
  }

  /**
   * `get_valid_moves`: the empty cells in row-major order (row 0 left to
   * right, then row 1, then row 2). `ValidMovesExact` shows that every empty
   * cell is listed, each once.
   */
  function ValidMoves(b: seq<int>): (r: seq<Move>)
    requires |b| == 9
    ensures |r| <= 9
    ensures forall p :: 0 <= p < |r| ==> IsEmptyCell(b, r[p])
  {
    MovesFrom(b, 0)
  }

  lemma {:induction false} MovesFromComplete(b: seq<int>, k: nat)
    requires |b| == 9 && k <= 9
    ensures forall q :: k <= q < 9 && b[q] == 0 ==> CellAt(q) in MovesFrom(b, k)
    decreases |b| - k
  {
    if k < 9 {
      MovesFromComplete(b, k + 1);
    }
  }

  /** Moves listed in strictly increasing row-major order. */
  ghost predicate RowMajor(r: seq<Move>) {
    forall p, q :: 0 <= p < q < |r| ==> Index(r[p]) < Index(r[q])
  }

  lemma PrependRowMajor(c: Move, r: seq<Move>)
    requires RowMajor(r) && forall p :: 0 <= p < |r| ==> Index(c) < Index(r[p])
    ensures RowMajor([c] + r)
  {
    var s := [c] + r;
    forall p, q | 0 <= p < q < |s| ensures Index(s[p]) < Index(s[q]) {
      assert s[q] == r[q - 1];
      if p > 0 {
        assert s[p] == r[p - 1];
      }
    }
  }

  lemma {:induction false} MovesFromOrdered(b: seq<int>, k: nat)
    requires |b| == 9 && k <= 9
    ensures RowMajor(MovesFrom(b, k))
    decreases |b| - k
  {
    if k < 9 {
      MovesFromOrdered(b, k + 1);
      if b[k] == 0 {
        PrependRowMajor(CellAt(k), MovesFrom(b, k + 1));
      }
    }
  }

  lemma CellAtIndex(m: Move)
    requires InBounds(m)
    ensures CellAt(Index(m)) == m
  {
    var (r, c) := m;
    if r == 0 {
      assert CellAt(c) == (0, c);
    } else if r == 1 {
      assert CellAt(3 + c) == (1, c);
    } else {
      assert CellAt(6 + c) == (2, c);
    }
  }

  /**
   * The move list holds a move exactly when it is on the board and its cell
   * is empty, in strictly increasing row-major order (so each move once).
   */
  lemma ValidMovesExact(b: seq<int>)
    requires |b| == 9
    ensures forall m :: m in ValidMoves(b) <==> IsEmptyCell(b, m)
    ensures RowMajor(ValidMoves(b))
  {
    MovesFromComplete(b, 0);
    MovesFromOrdered(b, 0);
    forall m | IsEmptyCell(b, m) ensures m in ValidMoves(b) {
      CellAtIndex(m);
    }
  }

  /** The number of empty cells among the first `n` cells. */
  function EmptiesBelow(b: seq<int>, n: nat): (e: nat)
    requires n <= |b|
    ensures e <= n
  {
    if n == 0 then 0 else EmptiesBelow(b, n - 1) + (if b[n - 1] == 0 then 1 else 0)
  }

  /** The number of empty cells on the board. */
  function Empties(b: seq<int>): (e: nat)
    ensures e <= |b|
  {
    EmptiesBelow(b, |b|)
  }

  lemma {:induction false} FillBelow(b: seq<int>, i: int, p: int, n: nat)
    requires 0 <= i < |b| && b[i] == 0 && p != 0 && n <= |b|
    ensures EmptiesBelow(b[i := p], n) == if n <= i then EmptiesBelow(b, n) else EmptiesBelow(b, n) - 1
  {
    if n > 0 {
      FillBelow(b, i, p, n - 1);
    }
  }

  /** Each ply of the search fills one empty cell, so the empty count drops by one. */
  lemma FillShrinks(b: seq<int>, m: Move, p: int)
    requires |b| == 9 && IsEmptyCell(b, m) && p != 0
    ensures Empties(Child(b, m, p)) == Empties(b) - 1
  {
    FillBelow(b, Index(m), p, |b|);
  }

  /** A board that is not full offers at least one move. */
  lemma NotFullHasMove(b: seq<int>)
    requires |b| == 9 && !Full(b)
    ensures |ValidMoves(b)| > 0
  {
    var q :| 0 <= q < 9 && b[q] == 0;
    MovesFromComplete(b, 0);
    assert CellAt(q) in ValidMoves(b);
  }
}
