/**
 * The rules a game history obeys, stated on value snapshots: history[0] is
 * the empty board with no point, and every later entry is a legal move from
 * the entry before it, made by the marker whose turn the step's parity gives.
 */
module History {
  import opened Options
  import opened Squares
  import opened Winner

  /** The `point` of a history entry: `{x: null, y: null}` for the start, else the clicked cell. */
  datatype Point = Start | At(x: nat, y: nat)

  /** A history entry as a value: its point and the board it recorded. */
  datatype Snap = Snap(point: Point, board: Grid)

  /** The marker that moves from step s: 'X' on even steps, 'O' on odd ones. */
  function MarkFor(s: nat): Player {
    if s % 2 == 0 then X else O
  }

  /**
   * `after` is the move of p at after.point from `before`: the cell is on the
   * board and was null, `before` has no winner, and only that cell is marked.
   */
  predicate LegalMove(before: Grid, after: Snap, p: Player, n: nat) {
    n >= 3 && IsGrid(before, n) && after.point.At? &&
    after.point.x < n && after.point.y < n &&
    before[after.point.y][after.point.x] == Empty &&
    WinnerOf(before) == None &&
    after.board == Place(before, after.point.x, after.point.y, p)
  }

  /** Entry i + 1 of h is a legal move from entry i by the marker of step i. */
  ghost predicate StepOk(h: seq<Snap>, i: nat, n: nat)
    requires i + 1 < |h|
  {
    LegalMove(h[i].board, h[i + 1], MarkFor(i), n)
  }

  /** A consistent history of an n x n game. */
  ghost predicate Consistent(h: seq<Snap>, n: nat) {
    n >= 3 && |h| >= 1 && h[0] == Snap(Start, EmptyGrid(n)) &&
    (forall i :: 0 <= i < |h| ==> IsGrid(h[i].board, n)) &&
    (forall i :: 0 <= i < |h| - 1 ==> StepOk(h, i, n))
  }

  /** Truncating a consistent history (`history.slice(0, stepNumber + 1)`) keeps it consistent. */
  lemma ConsistentPrefix(h: seq<Snap>, n: nat, k: nat)
    requires Consistent(h, n) && 1 <= k <= |h|
    ensures Consistent(h[..k], n)
  {
    forall i | 0 <= i < k - 1 ensures StepOk(h[..k], i, n) {
      assert StepOk(h, i, n);
    }
  }

  /** Appending a legal move by the marker of the last step keeps a history consistent. */
  lemma ConsistentExtend(h: seq<Snap>, n: nat, s: Snap)
    requires Consistent(h, n)
    requires LegalMove(h[|h| - 1].board, s, MarkFor(|h| - 1), n)
    ensures Consistent(h + [s], n)
  {
    var h' := h + [s];
    PlaceChangesExactlyOneCell(h[|h| - 1].board, n, s.point.x, s.point.y, MarkFor(|h| - 1));
    assert forall i :: 0 <= i < |h| ==> h'[i] == h[i];
    forall i | 0 <= i < |h'| - 1 ensures StepOk(h', i, n) {
      if i < |h| - 1 {
        assert StepOk(h, i, n);
      }
    }
  }

  /**
   * A legal click at (x, y) from step `step` of a consistent history cuts the
   * history after that step and appends a consistent entry.
   */
  lemma MoveKeepsConsistent(h: seq<Snap>, n: nat, step: nat, x: nat, y: nat)
    requires Consistent(h, n) && step < |h| && x < n && y < n
    requires h[step].board[y][x] == Empty && WinnerOf(h[step].board) == None
    ensures Consistent(h[..step + 1] + [Snap(At(x, y), Place(h[step].board, x, y, MarkFor(step)))], n)
  {
    ConsistentPrefix(h, n, step + 1);
    ConsistentExtend(h[..step + 1], n, Snap(At(x, y), Place(h[step].board, x, y, MarkFor(step))));
  }

  /**
   * Turns alternate: the board of step i holds (i + 1) / 2 'X' markers and
   * i / 2 'O' markers, and so i markers in all.
   */
  lemma {:induction false} MarkCounts(h: seq<Snap>, n: nat, i: nat)
    requires Consistent(h, n) && i < |h|
    ensures Count(h[i].board, Marked(X)) == (i + 1) / 2
    ensures Count(h[i].board, Marked(O)) == i / 2
  {
    if i == 0 {
      assert EmptyGrid(n)[..n] == EmptyGrid(n);
      CountEmptyGrid(n, n, X);
      CountEmptyGrid(n, n, O);
    } else {
      MarkCounts(h, n, i - 1);
      assert StepOk(h, i - 1, n);
      var pt := h[i].point;
      CountPlace(h[i - 1].board, pt.x, pt.y, MarkFor(i - 1), Marked(X));
      CountPlace(h[i - 1].board, pt.x, pt.y, MarkFor(i - 1), Marked(O));
    }
  }

  /** Each step of a consistent history changes exactly the cell its point names. */
  lemma EachMoveChangesOneCell(h: seq<Snap>, n: nat, i: nat)
    requires Consistent(h, n) && i + 1 < |h|
    ensures h[i + 1].point.At?
    ensures Changed(h[i].board, h[i + 1].board, n) == {(h[i + 1].point.x, h[i + 1].point.y)}
    ensures h[i + 1].board[h[i + 1].point.y][h[i + 1].point.x] == Marked(MarkFor(i))
  {
    assert StepOk(h, i, n);
    PlaceChangesExactlyOneCell(h[i].board, n, h[i + 1].point.x, h[i + 1].point.y, MarkFor(i));
  }

  /**
   * Once a board has a winner no step follows it: every board that has a
   * successor in the history has no winner.
   */
  lemma NoMoveAfterWin(h: seq<Snap>, n: nat, i: nat)
    requires Consistent(h, n) && i < |h|
    ensures WinnerOf(h[i].board).Some? ==> i == |h| - 1
  {
    if i < |h| - 1 {
      assert StepOk(h, i, n);
    }
  }

  /**
   * handleClick(x, y) on values, with the pointer at `step`: the new history
   * and the new pointer. A click on a board that has a winner, or on a marked
   * cell, changes nothing; otherwise the history is cut after `step`, the move
   * of the player to move is appended, and the pointer moves to it.
   */
  function Click(h: seq<Snap>, step: nat, n: nat, x: nat, y: nat): (r: (seq<Snap>, nat))
    requires n >= 3 && step < |h| && IsGrid(h[step].board, n) && x < n && y < n
    ensures r.1 == step ==> r.0 == h
    ensures r.1 != step ==> r.1 == step + 1 && |r.0| == step + 2 && r.0[..step + 1] == h[..step + 1]
  {
    var b := h[step].board;
    if WinnerOf(b).Some? || b[y][x].Marked? then (h, step)
    else (h[..step + 1] + [Snap(At(x, y), Place(b, x, y, MarkFor(step)))], step + 1)
  }

  /** A click keeps a history consistent, and the pointer stays on one of its entries. */
  lemma ClickKeepsConsistent(h: seq<Snap>, step: nat, n: nat, x: nat, y: nat)
    requires Consistent(h, n) && step < |h| && x < n && y < n
    ensures Consistent(Click(h, step, n, x, y).0, n)
    ensures Click(h, step, n, x, y).1 < |Click(h, step, n, x, y).0|
  {
    var b := h[step].board;
    if !(WinnerOf(b).Some? || b[y][x].Marked?) {
      MoveKeepsConsistent(h, n, step, x, y);
    }
  }

  /**
   * A click goes ahead exactly when the board at the pointer has no winner
   * and the cell is null; then the new entry is that board with only (x, y)
   * changed, to the marker of the player to move.
   */
  lemma ClickMoves(h: seq<Snap>, step: nat, n: nat, x: nat, y: nat)
    requires Consistent(h, n) && step < |h| && x < n && y < n
    ensures var b := h[step].board;
      Click(h, step, n, x, y).1 == step + 1 <==> WinnerOf(b).None? && b[y][x] == Empty
    ensures var (h', step') := Click(h, step, n, x, y);
      step' == step + 1 ==>
        h'[step'].point == At(x, y) &&
        h'[step'].board[y][x] == Marked(MarkFor(step)) &&
        Changed(h[step].board, h'[step'].board, n) == {(x, y)}
  {
    var b := h[step].board;
    if WinnerOf(b).None? && b[y][x] == Empty {
      PlaceChangesExactlyOneCell(b, n, x, y, MarkFor(step));
    }
  }

  /** Clicking the same cell again right after a move changes nothing. */
  lemma ClickTwiceIsNoop(h: seq<Snap>, step: nat, n: nat, x: nat, y: nat)
    requires Consistent(h, n) && step < |h| && x < n && y < n
    requires Click(h, step, n, x, y).1 == step + 1
    ensures Consistent(Click(h, step, n, x, y).0, n)
    ensures var (h', step') := Click(h, step, n, x, y);
      Click(h', step', n, x, y) == (h', step')
  {
    ClickKeepsConsistent(h, step, n, x, y);
    ClickMoves(h, step, n, x, y);
  }
}
