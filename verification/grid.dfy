/** The board of a Game of Life: a fixed `rows` x `columns` matrix of
    cells, each alive (`true`) or dead (`false`), indexed `cells[y][x]`
    with `y` the row and `x` the column. */
module Grid {

  /** One grid coordinate, the `{ x, y }` pair the board hands to its
      renderer. */
  datatype Cell = Cell(x: int, y: int)

  /** The board state: its dimensions, fixed when it is built, and the
      cell matrix. */
  datatype Board = Board(rows: nat, columns: nat, cells: seq<seq<bool>>) {

    /** The matrix really has `rows` rows of `columns` cells each. */
    predicate Valid() {
      && |cells| == rows
      && forall y :: 0 <= y < |cells| ==> |cells[y]| == columns
    }
  }

  predicate InBounds(b: Board, x: int, y: int) {
    0 <= x < b.columns && 0 <= y < b.rows
  }

  /** Whether the cell at (x, y) is alive; a position off the grid reads
      as dead, so the edges are hard boundaries. */
  predicate Alive(b: Board, x: int, y: int)
    requires b.Valid()
  {
    InBounds(b, x, y) && b.cells[y][x]
  }

  predicate SameShape(a: Board, b: Board) {
    a.rows == b.rows && a.columns == b.columns
  }

  ghost predicate AllDead(b: Board)
    requires b.Valid()
  {
    forall x, y :: !Alive(b, x, y)
  }

  /** Two well-formed boards of the same shape that agree on every cell
      are the same board. */
  lemma Extensionality(a: Board, b: Board)
    requires a.Valid() && b.Valid() && SameShape(a, b)
    requires forall x, y :: Alive(a, x, y) == Alive(b, x, y)
    ensures a == b
  {
    forall y | 0 <= y < a.rows
      ensures a.cells[y] == b.cells[y]
    {
      forall x | 0 <= x < a.columns
        ensures a.cells[y][x] == b.cells[y][x]
      {
        assert Alive(a, x, y) == Alive(b, x, y);
      }
    }
  }

  /** The board with every cell dead. */
  function Empty(rows: nat, columns: nat): (b: Board)
    ensures b.Valid() && b.rows == rows && b.columns == columns
    ensures AllDead(b)
  {
    Board(rows, columns, seq(rows, _ => seq(columns, _ => false)))
  }

  /** An all-dead board is the empty board of its shape. */
  lemma AllDeadIsEmpty(b: Board)
    requires b.Valid() && AllDead(b)
    ensures b == Empty(b.rows, b.columns)
  {
    var e := Empty(b.rows, b.columns);
    forall x, y ensures Alive(b, x, y) == Alive(e, x, y) {
      assert !Alive(b, x, y);
    }
    Extensionality(b, e);
  }

  /** Builds the all-dead board row by row, one `false` cell at a time. */
  method CreateBoard(rows: nat, columns: nat) returns (b: Board)
    ensures b.Valid() && b.rows == rows && b.columns == columns
    ensures AllDead(b)
  {
    var cells: seq<seq<bool>> := [];
    var y := 0;
    while y < rows
      invariant 0 <= y <= rows
      invariant |cells| == y
      invariant forall k :: 0 <= k < y ==> |cells[k]| == columns
      invariant forall k, i :: 0 <= k < y && 0 <= i < |cells[k]| ==> !cells[k][i]
    {
      var row: seq<bool> := [];
      var x := 0;
      while x < columns
        invariant 0 <= x <= columns
        invariant |row| == x
        invariant forall i :: 0 <= i < x ==> !row[i]
      {
        row := row + [false];
        x := x + 1;
      }
      cells := cells + [row];
      y := y + 1;
    }
    b := Board(rows, columns, cells);
  }

  /** Resetting the board: same shape, every cell dead. */
  function Clear(b: Board): (r: Board)
    requires b.Valid()
    ensures r.Valid() && SameShape(r, b)
    ensures AllDead(r)
  {
    Empty(b.rows, b.columns)
  }

  /** The board with the in-bounds cell (x, y) set to `v`. */
  function Set(b: Board, x: int, y: int, v: bool): (r: Board)
    requires b.Valid() && InBounds(b, x, y)
    ensures r.Valid() && SameShape(r, b)
    ensures Alive(r, x, y) == v
    ensures forall x', y' :: (x', y') != (x, y) ==> Alive(r, x', y') == Alive(b, x', y')
  {
    b.(cells := b.cells[y := b.cells[y][x := v]])
  }
}
