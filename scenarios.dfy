/**
 * Uses of the `Game` class: going back with jumpTo and playing from there,
 * clicking one cell twice, and a game that 'X' wins on the diagonal after
 * which the board takes no more moves.
 */
module Scenarios {
  import opened Options
  import opened Squares
  import opened Winner
  import opened History
  import opened TicTacToe

  /**
   * jumpTo(step) followed by a move that goes ahead: the entries after step
   * are dropped and the new move is the last of step + 2 entries.
   */
  method JumpThenMove(g: Game, step: nat, x: nat, y: nat)
    requires g.Valid() && step < |g.history| && x < g.bordSize && y < g.bordSize
    requires WinnerOf(g.snaps[step].board) == None && g.snaps[step].board[y][x] == Empty
    modifies g
    ensures g.Valid()
    ensures |g.history| == step + 2 && g.stepNumber == step + 1
    ensures g.history[..step + 1] == old(g.history[..step + 1])
    ensures g.snaps[step + 1].point == At(x, y)
  {
    g.JumpTo(step);
    ClickMoves(g.snaps, step, g.bordSize, x, y);
    g.HandleClick(x, y);
  }

  /** A second click on the cell just played changes nothing. */
  method SameCellTwice(g: Game, x: nat, y: nat)
    requires g.Valid() && x < g.bordSize && y < g.bordSize
    requires WinnerOf(g.Current()) == None && g.Current()[y][x] == Empty
    modifies g
    ensures g.Valid()
    ensures |g.history| == old(g.stepNumber) + 2 && g.stepNumber == old(g.stepNumber) + 1
    ensures g.Current()[y][x] == Marked(if old(g.xIsNext) then X else O)
  {
    ghost var step := g.stepNumber;
    ClickMoves(g.snaps, step, g.bordSize, x, y);
    ClickTwiceIsNoop(g.snaps, step, g.bordSize, x, y);
    g.HandleClick(x, y);
    ghost var h, n := g.history, g.stepNumber;
    g.HandleClick(x, y);
    assert g.history == h && g.stepNumber == n;
  }

  const E := Empty
  const XX := Marked(X)
  const OO := Marked(O)

  /** The boards of the diagonal game, after 0 to 5 moves. */
  const Boards: seq<Grid> := [
    [[E, E, E], [E, E, E], [E, E, E]],
    [[XX, E, E], [E, E, E], [E, E, E]],
    [[XX, OO, E], [E, E, E], [E, E, E]],
    [[XX, OO, E], [E, XX, E], [E, E, E]],
    [[XX, OO, OO], [E, XX, E], [E, E, E]],
    [[XX, OO, OO], [E, XX, E], [E, E, XX]]
  ]

  /** The clicks of the diagonal game. */
  const Clicks: seq<(nat, nat)> := [(0, 0), (1, 0), (1, 1), (2, 0), (2, 2)]

  /** Click k of the diagonal game lands on a null cell of a board with no winner. */
  lemma DiagonalStep(k: nat)
    requires k < 5
    ensures IsGrid(Boards[k], 3) && WinnerOf(Boards[k]) == None
    ensures Boards[k][Clicks[k].1][Clicks[k].0] == Empty
    ensures Boards[k + 1] == Place(Boards[k], Clicks[k].0, Clicks[k].1, MarkFor(k))
  {
    var (x, y) := Clicks[k];
    var b := Boards[k];
    var row := b[y][x := Marked(MarkFor(k))];
    assert Boards[k + 1][y] == row;
    assert Boards[k + 1] == b[y := row];
  }

  /** The diagonal game starts from the empty board, and its last board is won by 'X'. */
  lemma DiagonalEnds()
    ensures Boards[0] == EmptyGrid(3)
    ensures IsGrid(Boards[5], 3) && WinnerOf(Boards[5]) == Some(X)
  {
    var e := EmptyGrid(3);
    forall y | 0 <= y < 3 ensures e[y] == [E, E, E] {
      assert e[y][0] == e[y][1] == e[y][2] == E;
    }
  }

  /** Click k of the diagonal game takes the game from board k to board k + 1. */
  method DiagonalMove(g: Game, k: nat)
    requires k < 5 && g.Valid() && g.bordSize == 3
    requires |g.history| == k + 1 && g.stepNumber == k && g.Current() == Boards[k]
    modifies g
    ensures g.Valid() && g.bordSize == 3
    ensures |g.history| == k + 2 && g.stepNumber == k + 1 && g.Current() == Boards[k + 1]
  {
    DiagonalStep(k);
    var (x, y) := Clicks[k];
    ClickMoves(g.snaps, k, 3, x, y);
    g.HandleClick(x, y);
  }

  /** Once the board is won, a click on a null cell is turned away. */
  method ClickAfterWin(g: Game, x: nat, y: nat)
    requires g.Valid() && x < g.bordSize && y < g.bordSize
    requires WinnerOf(g.Current()).Some?
    modifies g
    ensures g.Valid() && g.history == old(g.history) && g.stepNumber == old(g.stepNumber)
    ensures g.snaps == old(g.snaps)
  {
    g.HandleClick(x, y);
  }

  /**
   * X (0, 0), O (1, 0), X (1, 1), O (2, 0), X (2, 2): 'X' holds the
   * diagonal, and a further click at (0, 1) is turned away.
   */
  method DiagonalWin() returns (g: Game)
    ensures g.Valid() && |g.history| == 6 && g.stepNumber == 5
    ensures g.Current() == Boards[5] && WinnerOf(g.Current()) == Some(X)
  {
    g := new Game(3);
    DiagonalEnds();
    for k := 0 to 5
      invariant g.Valid() && g.bordSize == 3
      invariant |g.history| == k + 1 && g.stepNumber == k && g.Current() == Boards[k]
    {
      DiagonalMove(g, k);
    }
    ClickAfterWin(g, 0, 1);
  }
}
