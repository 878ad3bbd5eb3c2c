/**
 * Board cells, grids as values, and the array-based grid the game stores
 * (`squares[y][x]`, one JavaScript array per row), with the row-by-row copy
 * `copySqueres` of my-app/src/index.js.
 */
module Squares {

  /** The two markers, 'X' and 'O'. */
  datatype Player = X | O

  /** A cell is `null` (Empty) or holds a marker. */
  datatype Cell = Empty | Marked(player: Player)

  /** A grid as a value, indexed `b[y][x]`. */
  type Grid = seq<seq<Cell>>

  /** b has n rows of n cells each. */
  predicate IsGrid(b: Grid, n: nat) {
    |b| == n && forall y :: 0 <= y < |b| ==> |b[y]| == n
  }

  /** The all-null n x n grid the game starts from. */
  function EmptyGrid(n: nat): (b: Grid)
    ensures IsGrid(b, n)
    ensures forall y, x :: 0 <= y < n && 0 <= x < n ==> b[y][x] == Empty
  {
    seq(n, _ => seq(n, _ => Empty))
  }

  /** The grid with cell (x, y) set to p's marker. */
  function Place(b: Grid, x: nat, y: nat, p: Player): (r: Grid)
    requires y < |b| && x < |b[y]|
    ensures |r| == |b| && forall k :: 0 <= k < |b| ==> |r[k]| == |b[k]|
  {
    b[y := b[y][x := Marked(p)]]
  }

  /** The coordinates (x, y) at which two n x n grids differ. */
  function Changed(b1: Grid, b2: Grid, n: nat): set<(nat, nat)>
    requires IsGrid(b1, n) && IsGrid(b2, n)
  {
    set x: nat, y: nat | x < n && y < n && b1[y][x] != b2[y][x] :: (x, y)
  }

  /** A move changes exactly one cell: (x, y), from null to p's marker. */
  lemma PlaceChangesExactlyOneCell(b: Grid, n: nat, x: nat, y: nat, p: Player)
    requires IsGrid(b, n) && x < n && y < n && b[y][x] == Empty
    ensures IsGrid(Place(b, x, y, p), n)
    ensures Place(b, x, y, p)[y][x] == Marked(p)
    ensures Changed(b, Place(b, x, y, p), n) == {(x, y)}
  {
    var r := Place(b, x, y, p);
    assert r[y][x] == Marked(p) != b[y][x];
  }

  /** Number of cells of row r equal to c. */
  function CountRow(r: seq<Cell>, c: Cell): nat {
    if r == [] then 0 else CountRow(r[..|r| - 1], c) + (if r[|r| - 1] == c then 1 else 0)
  }

  /** Number of cells of grid b equal to c. */
  function Count(b: Grid, c: Cell): nat {
    if b == [] then 0 else Count(b[..|b| - 1], c) + CountRow(b[|b| - 1], c)
  }

  lemma {:induction false} CountRowUpdate(r: seq<Cell>, i: nat, v: Cell, c: Cell)
    requires i < |r|
    ensures CountRow(r[i := v], c) as int
         == CountRow(r, c) - (if r[i] == c then 1 else 0) + (if v == c then 1 else 0)
  {
    var n := |r|;
    if i == n - 1 {
      assert r[i := v][..n - 1] == r[..n - 1];
    } else {
      assert r[i := v][..n - 1] == r[..n - 1][i := v];
      CountRowUpdate(r[..n - 1], i, v, c);
    }
  }

  lemma {:induction false} CountUpdate(b: Grid, y: nat, row: seq<Cell>, c: Cell)
    requires y < |b|
    ensures Count(b[y := row], c) as int == Count(b, c) - CountRow(b[y], c) + CountRow(row, c)
  {
    var n := |b|;
    if y == n - 1 {
      assert b[y := row][..n - 1] == b[..n - 1];
    } else {
      assert b[y := row][..n - 1] == b[..n - 1][y := row];
      CountUpdate(b[..n - 1], y, row, c);
    }
  }

  /** Marking an empty cell adds one to the count of that marker and leaves every other count alone. */
  lemma CountPlace(b: Grid, x: nat, y: nat, p: Player, c: Cell)
    requires y < |b| && x < |b[y]| && b[y][x] == Empty && c != Empty
    ensures Count(Place(b, x, y, p), c) == Count(b, c) + (if c == Marked(p) then 1 else 0)
  {
    CountRowUpdate(b[y], x, Marked(p), c);
    CountUpdate(b, y, b[y][x := Marked(p)], c);
  }

  lemma {:induction false} CountRowAllEmpty(r: seq<Cell>, p: Player)
    requires forall i :: 0 <= i < |r| ==> r[i] == Empty
    ensures CountRow(r, Marked(p)) == 0
  {
    if r != [] {
      CountRowAllEmpty(r[..|r| - 1], p);
    }
  }

  /** The starting grid holds no marker. */
  lemma {:induction false} CountEmptyGrid(n: nat, k: nat, p: Player)
    requires k <= n
    ensures Count(EmptyGrid(n)[..k], Marked(p)) == 0
  {
    if k > 0 {
      var b := EmptyGrid(n)[..k];
      assert b[..k - 1] == EmptyGrid(n)[..k - 1];
      CountEmptyGrid(n, k - 1, p);
      CountRowAllEmpty(b[k - 1], p);
    }
  }

  /** The value of an array-based grid: row y is `rows[y][..]`. */
  function Snapshot(rows: seq<array<Cell>>): (b: Grid)
    reads rows
    ensures |b| == |rows| && forall y :: 0 <= y < |rows| ==> b[y] == rows[y][..]
  {
    seq(|rows|, y requires 0 <= y < |rows| reads rows => rows[y][..])
  }

  /**
   * copySqueres: a copy made row by row. Every row of the copy is a new array
   * (so writing into the copy cannot reach `origin`), the rows are pairwise
   * distinct, and the copy has the same dimensions and cells as `origin`.
   */
  method CopySquares(origin: seq<array<Cell>>) returns (copy: seq<array<Cell>>)
    ensures |copy| == |origin|
    ensures forall i :: 0 <= i < |copy| ==> fresh(copy[i]) && copy[i][..] == origin[i][..]
    ensures forall i, j :: 0 <= i < j < |copy| ==> copy[i] != copy[j]
    ensures Snapshot(copy) == Snapshot(origin)
  {
    copy := [];
    for i := 0 to |origin|
      invariant |copy| == i
      invariant forall k :: 0 <= k < i ==> fresh(copy[k]) && copy[k][..] == origin[k][..]
      invariant forall k, j :: 0 <= k < j < i ==> copy[k] != copy[j]
    {
      var line := origin[i];
      var row := new Cell[line.Length](k requires 0 <= k < line.Length reads line => line[k]);
      assert row[..] == line[..];
      copy := copy + [row];
    }
  }
}
