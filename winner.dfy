/**
 * Winner detection, `calculateWinner` of my-app/src/index.js: eight fixed
 * three-cell lines of the top-left 3 x 3 corner, scanned in order (rows, then
 * columns, then the two diagonals); the first line whose three cells hold the
 * same marker decides.
 */
module Winner {
  import opened Options
  import opened Squares

  /** A line coordinate; the table only reaches into the top-left 3 x 3 corner. */
  type Index = i: nat | i < 3

  datatype Coord = Coord(x: Index, y: Index)

  datatype Line = Line(a: Coord, b: Coord, c: Coord)

  /** The line table, in the source's scan order. */
  const Lines: seq<Line> := [
    Line(Coord(0, 0), Coord(1, 0), Coord(2, 0)),
    Line(Coord(0, 1), Coord(1, 1), Coord(2, 1)),
    Line(Coord(0, 2), Coord(1, 2), Coord(2, 2)),
    Line(Coord(0, 0), Coord(0, 1), Coord(0, 2)),
    Line(Coord(1, 0), Coord(1, 1), Coord(1, 2)),
    Line(Coord(2, 0), Coord(2, 1), Coord(2, 2)),
    Line(Coord(0, 0), Coord(1, 1), Coord(2, 2)),
    Line(Coord(0, 2), Coord(1, 1), Coord(2, 0))
  ]

  /** The table can be read: at least three rows of at least three cells. */
  predicate Covers(b: Grid) {
    |b| >= 3 && forall y :: 0 <= y < 3 ==> |b[y]| >= 3
  }

  function CellAt(b: Grid, c: Coord): Cell
    requires Covers(b)
  {
    b[c.y][c.x]
  }

  /** The line's three cells are non-null and equal (the test of the scan). */
  predicate Complete(b: Grid, l: Line)
    requires Covers(b)
  {
    CellAt(b, l.a).Marked? && CellAt(b, l.a) == CellAt(b, l.b) && CellAt(b, l.a) == CellAt(b, l.c)
  }

  /** All three cells of the line hold p's marker. */
  predicate CompletedBy(b: Grid, l: Line, p: Player)
    requires Covers(b)
  {
    CellAt(b, l.a) == Marked(p) && CellAt(b, l.b) == Marked(p) && CellAt(b, l.c) == Marked(p)
  }

  /** The result of the scan started at table entry k. */
  function FirstWinner(b: Grid, k: nat): Option<Player>
    requires Covers(b) && k <= |Lines|
    decreases |Lines| - k
  {
    if k == |Lines| then None
    else if Complete(b, Lines[k]) then Some(CellAt(b, Lines[k].a).player)
    else FirstWinner(b, k + 1)
  }

  /** The winner of a grid, as `calculateWinner` computes it. */
  function WinnerOf(b: Grid): Option<Player>
    requires Covers(b)
  {
    FirstWinner(b, 0)
  }

  /**
   * calculateWinner: the loop over the line table with its early return.
   * Its result is the scan's answer on the grid the arrays hold.
   */
  method CalculateWinner(squares: seq<array<Cell>>) returns (w: Option<Player>)
    requires |squares| >= 3 && forall y :: 0 <= y < 3 ==> squares[y].Length >= 3
    ensures w == WinnerOf(Snapshot(squares))
  {
    ghost var b := Snapshot(squares);
    for i := 0 to |Lines|
      invariant FirstWinner(b, i) == WinnerOf(b)
    {
      var l := Lines[i];
      var a := squares[l.a.y][l.a.x];
      if a.Marked? && a == squares[l.b.y][l.b.x] && a == squares[l.c.y][l.c.x] {
        return Some(a.player);
      }
    }
    return None;
  }

  lemma {:induction false} FirstWinnerIsFirstCompleteLine(b: Grid, k: nat, p: Player)
    requires Covers(b) && k <= |Lines|
    decreases |Lines| - k
    ensures FirstWinner(b, k) == Some(p) <==>
      exists j :: k <= j < |Lines| && CompletedBy(b, Lines[j], p) &&
        forall i :: k <= i < j ==> !Complete(b, Lines[i])
  {
    if k < |Lines| {
      FirstWinnerIsFirstCompleteLine(b, k + 1, p);
      if FirstWinner(b, k) == Some(p) && Complete(b, Lines[k]) {
        assert CompletedBy(b, Lines[k], p);
      } else if FirstWinner(b, k) == Some(p) {
        var j :| k + 1 <= j < |Lines| && CompletedBy(b, Lines[j], p) &&
          forall i :: k + 1 <= i < j ==> !Complete(b, Lines[i]);
        assert forall i :: k <= i < j ==> !Complete(b, Lines[i]);
      }
    }
  }

  lemma {:induction false} FirstWinnerNone(b: Grid, k: nat)
    requires Covers(b) && k <= |Lines|
    decreases |Lines| - k
    ensures FirstWinner(b, k) == None <==> forall j :: k <= j < |Lines| ==> !Complete(b, Lines[j])
  {
    if k < |Lines| {
      FirstWinnerNone(b, k + 1);
    }
  }

  /**
   * The winner is p exactly when some line of the table is filled with p and
   * every line before it in the scan order is not complete.
   */
  lemma WinnerIsFirstCompleteLine(b: Grid, p: Player)
    requires Covers(b)
    ensures WinnerOf(b) == Some(p) <==>
      exists j :: 0 <= j < |Lines| && CompletedBy(b, Lines[j], p) &&
        forall i :: 0 <= i < j ==> !Complete(b, Lines[i])
  {
    FirstWinnerIsFirstCompleteLine(b, 0, p);
  }

  /** A winner is reported only for a line that marker fills completely. */
  lemma WinnerFillsALine(b: Grid, p: Player)
    requires Covers(b) && WinnerOf(b) == Some(p)
    ensures exists j :: 0 <= j < |Lines| && CompletedBy(b, Lines[j], p)
  {
    WinnerIsFirstCompleteLine(b, p);
  }

  /** There is no winner exactly when no line of the table is complete. */
  lemma NoWinnerIffNoCompleteLine(b: Grid)
    requires Covers(b)
    ensures WinnerOf(b) == None <==> forall j :: 0 <= j < |Lines| ==> !Complete(b, Lines[j])
  {
    FirstWinnerNone(b, 0);
  }

  /** The all-null starting grid has no winner. */
  lemma EmptyGridHasNoWinner(n: nat)
    requires n >= 3
    ensures WinnerOf(EmptyGrid(n)) == None
  {
    NoWinnerIffNoCompleteLine(EmptyGrid(n));
  }

  lemma {:induction false} FirstWinnerReadsTopLeft(b1: Grid, b2: Grid, k: nat)
    requires Covers(b1) && Covers(b2) && k <= |Lines|
    requires forall y, x :: 0 <= y < 3 && 0 <= x < 3 ==> b1[y][x] == b2[y][x]
    ensures FirstWinner(b1, k) == FirstWinner(b2, k)
    decreases |Lines| - k
  {
    if k < |Lines| {
      FirstWinnerReadsTopLeft(b1, b2, k + 1);
    }
  }

  /** On a board larger than 3 x 3 only the top-left 3 x 3 corner is examined. */
  lemma WinnerReadsOnlyTopLeft(b1: Grid, b2: Grid)
    requires Covers(b1) && Covers(b2)
    requires forall y, x :: 0 <= y < 3 && 0 <= x < 3 ==> b1[y][x] == b2[y][x]
    ensures WinnerOf(b1) == WinnerOf(b2)
  {
    FirstWinnerReadsTopLeft(b1, b2, 0);
  }
}
