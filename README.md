# Tic-tac-toe with time travel: a verified model

This project models the game logic of the React tic-tac-toe app in
`my-app/src/index.js`. The logic lives in:

- the `Game` component's state: a `history` of `{point, squares}` entries,
  the step pointer `stepNumber` and the turn flag `xIsNext`;
- the component's two state changes, `handleClick(x, y)` and `jumpTo(step)`;
- the two helper functions, `calculateWinner` and `copySqueres`;
- the label each move-list button shows.

The files are:

- `option.dfy`: Options. The `Option` type.
- `squares.dfy`: Squares. Cells, grids as values and marker counts. It also
  holds `CopySquares`, the row-by-row copy. In the source each board row is
  a JavaScript array that `handleClick` writes in place, so here each row is
  an `array<Cell>`.
- `winner.dfy`: Winner. The table of eight lines, in the source's order. The
  pure scan `WinnerOf`, and `CalculateWinner`, the loop with its early
  return, proved equal to it. Lemmas say what the scan finds.
- `history.dfy`: History. The rules a history of value boards obeys
  (`Consistent`). `Click`, handleClick on values. Lemmas about both.
- `game.dfy`: TicTacToe. The `Game` class. Its fields are the component's
  state, plus two ghost fields:
  - `snaps`: the boards that the history's row arrays hold;
  - `Repr`: the set of those arrays.

  `Valid()` ties the fields together: `snaps` is consistent, the pointer is
  an entry, and `xIsNext == (stepNumber % 2 == 0)`. Each `setState` is one
  atomic assignment (`SetState`), which both
  `HandleClick` (through `PlayAt`) and `JumpTo` call.
- `moves.dfy`: MoveList. The move-list label. A parser reads a label back,
  which shows that each label names its own entry.
- `scenarios.dfy`: Scenarios. Uses of the class:
  - jump back, then play;
  - click one cell twice;
  - a whole game that X wins on the diagonal, after which a further click
    is turned away.

Facts about the code that the model keeps:

- `calculateWinner` returns only the marker, not the winning line.
- The scan always reads a fixed table of 3-cell lines in the top-left 3 x 3
  corner. It is not generalised to N x N (`WinnerReadsOnlyTopLeft`).
- The code has no move-list order toggle and no winning-line highlight.
- `Scenarios.DiagonalWin` plays X (0, 0), O (1, 0), X (1, 1), O (2, 0),
  X (2, 2), which gives X the diagonal.

## Model

| member | source | states |
|---|---|---|
| Squares.EmptyGrid | my-app/src/index.js:45 | the starting board is bordSize rows of bordSize cells, every cell null |
| Squares.Place | my-app/src/index.js:59 | writing one cell keeps the board's dimensions |
| Squares.PlaceChangesExactlyOneCell | my-app/src/index.js:59 | marking a null cell changes exactly that cell, to the marker, and no other |
| Squares.CountPlace | my-app/src/index.js:59 | marking a null cell adds one to that marker's count and leaves the other counts alone |
| Squares.CountEmptyGrid | my-app/src/index.js:45 | the starting board holds no marker |
| Squares.CopySquares | my-app/src/index.js:134-140 | the copy has the same rows and cells; every row is a new array, and the rows are pairwise distinct |
| Winner.CalculateWinner | my-app/src/index.js:114-132 | the loop with its early return gives the scan's answer (`WinnerOf`) on the grid the arrays hold |
| Winner.FirstWinnerIsFirstCompleteLine | my-app/src/index.js:125-131 | the scan from entry k returns p iff some line from k on is filled with p and no line between k and it is complete |
| Winner.FirstWinnerNone | my-app/src/index.js:125-131 | the scan from entry k returns null iff no line from k on is complete |
| Winner.WinnerIsFirstCompleteLine | my-app/src/index.js:114-132 | the winner is p iff some line is filled with p and every line before it in scan order is incomplete (sound, complete, first match) |
| Winner.WinnerFillsALine | my-app/src/index.js:127-128 | a reported winner fills a whole line of the table |
| Winner.NoWinnerIffNoCompleteLine | my-app/src/index.js:131 | null is returned iff no line of the table is complete |
| Winner.EmptyGridHasNoWinner | my-app/src/index.js:114-132 | the all-null starting board has no winner |
| Winner.FirstWinnerReadsTopLeft | my-app/src/index.js:115-124 | the scan from any entry depends only on the top-left 3 x 3 cells |
| Winner.WinnerReadsOnlyTopLeft | my-app/src/index.js:115-124 | two boards that agree on the top-left 3 x 3 cells have the same winner, whatever their size |
| History.ConsistentPrefix | my-app/src/index.js:53 | cutting a consistent history after any entry leaves it consistent |
| History.ConsistentExtend | my-app/src/index.js:61-67 | appending a legal move by the marker of the last step keeps a history consistent |
| History.MoveKeepsConsistent | my-app/src/index.js:53-67 | a legal click cuts the history after the pointer and appends a consistent entry |
| History.MarkCounts | my-app/src/index.js:59-69 | turns alternate: board i holds (i + 1) / 2 X markers and i / 2 O markers |
| History.EachMoveChangesOneCell | my-app/src/index.js:59-66 | each entry after the first changes exactly the cell its point names, to the marker of the step before it |
| History.NoMoveAfterWin | my-app/src/index.js:56-58 | a board with a winner is the last entry of any consistent history |
| History.Click | my-app/src/index.js:52-71 | a refused click returns the history and pointer unchanged; a click that goes ahead keeps entries 0..step, gives step + 2 entries and moves the pointer to step + 1, the last index |
| History.ClickKeepsConsistent | my-app/src/index.js:52-71 | a click keeps the history consistent and the pointer on one of its entries |
| History.ClickMoves | my-app/src/index.js:56-69 | a click goes ahead iff the board has no winner and the cell is null; then the new entry has point (x, y) and its board differs only at (x, y), which holds the mover's marker |
| History.ClickTwiceIsNoop | my-app/src/index.js:56-58 | right after a move, clicking the same cell again changes nothing |
| TicTacToe.Game.constructor | my-app/src/index.js:37-51 | one entry with a null point and the all-null bordSize x bordSize board, stepNumber 0, X to move, and the invariant holds |
| TicTacToe.Game.HandleClick | my-app/src/index.js:52-71 | the new history and pointer are `Click` of the old ones; the invariant (including xIsNext = stepNumber even) is kept; stored entries are never rewritten; a new entry's rows are new arrays |
| TicTacToe.Game.PlayAt | my-app/src/index.js:59-70 | the marked copy becomes the entry {point (x, y), squares} appended to the cut history; pointer and turn advance as `Click` says; the invariant holds |
| TicTacToe.Game.WriteCell | my-app/src/index.js:59 | after `squares[y][x] = marker` on distinct row arrays, the rows hold the old board with only that cell marked |
| TicTacToe.Game.SetState | my-app/src/index.js:60-70 | the fields take the given values at once, and the invariant holds of them |
| TicTacToe.Game.JumpTo | my-app/src/index.js:72-77 | the pointer moves to step and xIsNext becomes step even; the history is unchanged and the invariant is kept |
| MoveList.Digit | my-app/src/index.js:83 | the character for a decimal digit is a digit with that value |
| MoveList.NatToString | my-app/src/index.js:83 | `${n}` is a non-empty run of digits, with no leading zero unless n is 0 |
| MoveList.NatToStringRoundTrip | my-app/src/index.js:83 | reading the decimal text of n gives n back |
| MoveList.DescriptionRoundTrip | my-app/src/index.js:83 | the label of entry 0 reads back as the game start; the label of entry move > 0 with point (x, y) reads back as (x, y) and move |
| MoveList.DescriptionInjective | my-app/src/index.js:83 | different entries get different labels |
| MoveList.HistoryLabels | my-app/src/index.js:82-83 | in a consistent history only entry 0 has a null point; each entry's label reads back as that entry; no two entries share a label |
| Scenarios.JumpThenMove | my-app/src/index.js:52-77 | jumpTo(step) and then a legal click gives step + 2 entries, keeps entries 0..step, puts the pointer on the new last entry and records point (x, y) |
| Scenarios.SameCellTwice | my-app/src/index.js:56-58 | two clicks on one null cell make one move; the cell holds the marker of the player who was to move |
| Scenarios.DiagonalStep | my-app/src/index.js:56-59 | each click of the diagonal game lands on a null cell of a board without a winner, and gives the next board |
| Scenarios.DiagonalEnds | my-app/src/index.js:114-132 | the diagonal game starts from the empty board, and its final board is won by X |
| Scenarios.DiagonalMove | my-app/src/index.js:52-71 | click k of the diagonal game takes the game from board k to board k + 1 |
| Scenarios.ClickAfterWin | my-app/src/index.js:56-58 | on a won board a click changes nothing |
| Scenarios.DiagonalWin | my-app/src/index.js:36-71 | X (0,0), O (1,0), X (1,1), O (2,0), X (2,2) leave six entries with X the winner, and a click at (0,1) after that changes nothing |

## Left out

- JSX rendering is not modelled: the `Square` and `Board` components, the
  DOM, CSS, mounting with `bordSize={3}`, the `<b>` marking of the current
  move and the status text. They are presentation only.
- React's `setState` is modelled as a synchronous, atomic assignment of the
  fields it names. Batching and re-rendering are not modelled.
- TicTacToe.Game.constructor: it requires bordSize >= 3. With a smaller
  board, `calculateWinner` reads rows that do not exist and would throw.
- `bordSize` is also kept in the component's state. The model keeps it as
  the class's constant field, because nothing changes it.
- TicTacToe.Game.HandleClick: it requires x < bordSize and y < bordSize,
  because the board only offers cells of the grid. Out of range the code
  behaves differently: with y >= bordSize it throws, and with only
  x >= bordSize the cell reads as undefined, so the click goes ahead, writes
  the marker past the end of the row and records the move. Neither case is
  modelled.
- TicTacToe.Game.JumpTo: it requires step < |history|. The source trusts
  its caller, the move list, which offers only existing steps.
- The outer array of a board is a `seq` of row arrays. The source never
  writes into the outer array after building it.
- The board is the value `Grid` in `Click` and `Consistent`. Only the
  `Game` class holds arrays.
- Values other than null, 'X' and 'O' in a cell cannot occur in the
  model, because `Cell` has only those three.
