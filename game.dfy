/**
 * The `Game` component's state machine (my-app/src/index.js): a history of
 * `{point, squares}` entries whose rows are arrays, the step pointer
 * `stepNumber` and the turn flag `xIsNext`, changed by `handleClick` and
 * `jumpTo`. Each `setState` is one atomic assignment of the fields it lists.
 */
module TicTacToe {
  import opened Options
  import opened Squares
  import opened Winner
  import opened History

  /** A history entry as the game stores it: the point and the row arrays. */
  datatype Entry = Entry(point: Point, squares: seq<array<Cell>>)

  /** Entry `e` holds snapshot `s`: the same point, and row j's contents are row j of the board. */
  ghost predicate Holds(e: Entry, s: Snap)
    reads e.squares
  {
    e.point == s.point && |s.board| == |e.squares| &&
    forall j :: 0 <= j < |e.squares| ==> e.squares[j][..] == s.board[j]
  }

  /** Every row of every entry is in `repr`, and entry i holds snapshot i. */
  ghost predicate Mirrors(entries: seq<Entry>, snaps: seq<Snap>, repr: set<array<Cell>>)
    reads repr
  {
    |snaps| == |entries| &&
    (forall i, j :: 0 <= i < |entries| && 0 <= j < |entries[i].squares| ==>
      entries[i].squares[j] in repr) &&
    (forall i :: 0 <= i < |entries| ==> Holds(entries[i], snaps[i]))
  }

  /** Cutting both histories at the same point keeps them in step. */
  lemma MirrorsPrefix(entries: seq<Entry>, snaps: seq<Snap>, repr: set<array<Cell>>, k: nat)
    requires Mirrors(entries, snaps, repr) && k <= |entries|
    ensures Mirrors(entries[..k], snaps[..k], repr)
  {
    assert forall i :: 0 <= i < k ==> entries[..k][i] == entries[i] && snaps[..k][i] == snaps[i];
  }

  /** Appending an entry that holds a snapshot, with its rows added to `repr`, keeps them in step. */
  lemma MirrorsExtend(entries: seq<Entry>, snaps: seq<Snap>, repr: set<array<Cell>>, e: Entry, s: Snap,
                      rows: set<array<Cell>>)
    requires Mirrors(entries, snaps, repr) && Holds(e, s)
    requires forall j :: 0 <= j < |e.squares| ==> e.squares[j] in rows
    ensures Mirrors(entries + [e], snaps + [s], repr + rows)
  {
    var entries', snaps' := entries + [e], snaps + [s];
    forall i | 0 <= i < |entries'| ensures Holds(entries'[i], snaps'[i]) {
      if i < |entries| {
        assert entries'[i] == entries[i] && snaps'[i] == snaps[i];
      }
    }
  }

  class Game {
    /** `bordSize`, fixed when the game is created. */
    const bordSize: nat
    var history: seq<Entry>
    var stepNumber: nat
    var xIsNext: bool

    /** The history as value snapshots: entry i's point and the board its rows hold. */
    ghost var snaps: seq<Snap>
    /** Every row array the history holds. */
    ghost var Repr: set<array<Cell>>

    /**
     * The game's invariant: the history is consistent, the step pointer is
     * one of its entries, and the turn flag is the parity of the step.
     */
    ghost predicate Valid()
      reads this, Repr
    {
      Mirrors(history, snaps, Repr) &&
      Consistent(snaps, bordSize) &&
      stepNumber < |history| &&
      xIsNext == (stepNumber % 2 == 0)
    }

    /** The board at the step pointer (`history[stepNumber].squares`). */
    ghost function Current(): (b: Grid)
      reads this
      requires stepNumber < |snaps|
    {
      snaps[stepNumber].board
    }

    /**
     * The constructor: one entry with point (null, null) and an all-null
     * bordSize x bordSize board, step 0 and 'X' to move.
     */
    constructor (bordSize: nat)
      requires bordSize >= 3
      ensures Valid() && fresh(Repr)
      ensures this.bordSize == bordSize
      ensures |history| == 1 && snaps == [Snap(Start, EmptyGrid(bordSize))]
      ensures stepNumber == 0 && xIsNext
    {
      var rows: seq<array<Cell>> := [];
      for i := 0 to bordSize
        invariant |rows| == i
        invariant forall k :: 0 <= k < i ==> fresh(rows[k]) && rows[k][..] == seq(bordSize, _ => Empty)
      {
        var row := new Cell[bordSize](_ => Empty);
        assert row[..] == seq(bordSize, _ => Empty);
        rows := rows + [row];
      }
      this.bordSize := bordSize;
      history := [Entry(Start, rows)];
      stepNumber := 0;
      xIsNext := true;
      snaps := [Snap(Start, Snapshot(rows))];
      Repr := set r | r in rows;
      new;
      assert Snapshot(rows) == EmptyGrid(bordSize);
    }

    /**
     * handleClick(x, y). If the board at the step pointer has a winner or
     * cell (x, y) is not null, nothing changes. Otherwise the history is cut
     * after the step pointer, an entry with point (x, y) and the board with
     * that cell marked for the player to move is appended, the pointer moves
     * to it and the turn passes.
     */
    method HandleClick(x: nat, y: nat)
      requires Valid() && x < bordSize && y < bordSize
      modifies this
      ensures Valid() && fresh(Repr - old(Repr))
      ensures (snaps, stepNumber) == Click(old(snaps), old(stepNumber), bordSize, x, y)
      ensures stepNumber == old(stepNumber) ==> history == old(history)
      ensures stepNumber != old(stepNumber) ==> history[..stepNumber] == old(history)[..stepNumber]
      ensures stepNumber != old(stepNumber) ==>
        forall j :: 0 <= j < |history[stepNumber].squares| ==> fresh(history[stepNumber].squares[j])
    {
      var hist := history[..stepNumber + 1];
      var current := hist[|hist| - 1];
      assert Snapshot(current.squares) == Current();
      var squares := CopySquares(current.squares);
      var winner := CalculateWinner(squares);
      ghost var b := Current();
      assert Snapshot(squares) == b && winner == WinnerOf(b);
      assert squares[y][x] == squares[y][..][x] == b[y][x];
      if winner.Some? || squares[y][x].Marked? {
        return;
      }
      WriteCell(squares, x, y, if xIsNext then X else O, b);
      PlayAt(hist, squares, x, y);
    }

    /**
     * The `setState` of a handleClick that goes ahead: `squares`, a fresh
     * copy of the current board with cell (x, y) marked for the player to
     * move, becomes the entry {point: (x, y), squares} appended to the
     * truncated history `hist`; the pointer moves to it and the turn passes.
     */
    method PlayAt(hist: seq<Entry>, squares: seq<array<Cell>>, x: nat, y: nat)
      requires Valid() && x < bordSize && y < bordSize
      requires hist == history[..stepNumber + 1]
      requires Current()[y][x] == Empty && WinnerOf(Current()) == None
      requires |squares| == bordSize
      requires forall j :: 0 <= j < |squares| ==>
        squares[j] !in Repr && squares[j][..] == Place(Current(), x, y, MarkFor(stepNumber))[j]
      modifies this
      ensures Valid() && Repr == old(Repr) + set r | r in squares
      ensures history == hist + [Entry(At(x, y), squares)]
      ensures (snaps, stepNumber) == Click(old(snaps), old(stepNumber), bordSize, x, y)
    {
      ghost var before := snaps;
      ghost var step := stepNumber;
      ghost var s := Snap(At(x, y), Place(before[step].board, x, y, MarkFor(step)));
      ghost var rows := set r | r in squares;
      var entry := Entry(At(x, y), squares);
      assert Click(before, step, bordSize, x, y) == (before[..step + 1] + [s], step + 1);
      MoveKeepsConsistent(before, bordSize, step, x, y);
      MirrorsPrefix(history, snaps, Repr, step + 1);
      assert Holds(entry, s);
      MirrorsExtend(hist, before[..step + 1], Repr, entry, s, rows);
      SetState(hist + [entry], before[..step + 1] + [s], Repr + rows, |hist|, !xIsNext);
    }

    /**
     * `squares[y][x] = p's marker` on rows that are distinct arrays holding
     * grid b: afterwards they hold b with that one cell marked.
     */
    static method WriteCell(squares: seq<array<Cell>>, x: nat, y: nat, p: Player, ghost b: Grid)
      requires |b| == |squares| && y < |b| && x < |b[y]|
      requires forall j :: 0 <= j < |squares| ==> squares[j][..] == b[j]
      requires forall i, j :: 0 <= i < j < |squares| ==> squares[i] != squares[j]
      modifies squares[y]
      ensures forall j :: 0 <= j < |squares| ==> squares[j][..] == Place(b, x, y, p)[j]
    {
      squares[y][x] := Marked(p);
      forall j | 0 <= j < |squares| ensures squares[j][..] == Place(b, x, y, p)[j] {
        if j != y {
          assert squares[j] != squares[y];
          assert squares[j][..] == old(squares[j][..]);
        }
      }
    }

    /**
     * `setState`: the fields take the given values in one step, and the
     * invariant holds of the new state.
     */
    method SetState(history': seq<Entry>, ghost snaps': seq<Snap>, ghost Repr': set<array<Cell>>,
                    stepNumber': nat, xIsNext': bool)
      requires Mirrors(history', snaps', Repr') && Consistent(snaps', bordSize)
      requires stepNumber' < |history'| && xIsNext' == (stepNumber' % 2 == 0)
      modifies this
      ensures Valid()
      ensures history == history' && snaps == snaps' && Repr == Repr'
      ensures stepNumber == stepNumber' && xIsNext == xIsNext'
    {
      history, snaps, Repr, stepNumber, xIsNext := history', snaps', Repr', stepNumber', xIsNext';
    }

    /** jumpTo(step): the pointer moves to step and the turn follows its parity; the history stays. */
    method JumpTo(step: nat)
      requires Valid() && step < |history|
      modifies this
      ensures Valid() && Repr == old(Repr)
      ensures history == old(history) && snaps == old(snaps)
      ensures stepNumber == step && xIsNext == (step % 2 == 0)
    {
      SetState(history, snaps, Repr, step, (step % 2) == 0);
    }
  }
}
