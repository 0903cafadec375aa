/** Flipping one cell, as a click on the board does once the click has
    been mapped to grid coordinates (x, y). */
module Toggling {
  import opened Grid

  /** Flips the cell at (x, y). Only coordinates with 0 <= x < columns and
      0 <= y < rows are on the board; any other coordinate leaves the board
      unchanged. The board's own guard uses `<=` on both upper bounds; that
      off-by-one is modelled separately by `ToggleAsWritten` below, and this
      corrected definition is the one the rest of the model uses. */
  function Toggle(b: Board, x: int, y: int): (r: Board)
    requires b.Valid()
    ensures r.Valid() && SameShape(r, b)
    ensures InBounds(b, x, y) ==> Alive(r, x, y) == !Alive(b, x, y)
    ensures forall x', y' :: (x', y') != (x, y) ==> Alive(r, x', y') == Alive(b, x', y')
    ensures !InBounds(b, x, y) ==> r == b
  {
    if InBounds(b, x, y) then Set(b, x, y, !b.cells[y][x]) else b
  }

  /** Toggling the same cell twice gives back the original board. */
  lemma ToggleTwice(b: Board, x: int, y: int)
    requires b.Valid()
    ensures Toggle(Toggle(b, x, y), x, y) == b
  {
    var t := Toggle(Toggle(b, x, y), x, y);
    forall x', y' ensures Alive(t, x', y') == Alive(b, x', y') {
    }
    Extensionality(t, b);
  }

  /** What a click does to the matrix with the guard as the board writes
      it: the cell is flipped in place, or JavaScript throws. */
  datatype ClickOutcome = Flipped(cells: seq<seq<bool>>) | TypeError

  /** The toggle with the bounds test `0 <= x <= columns && 0 <= y <= rows`.
      With y == rows the row `cells[y]` does not exist, so reading
      `cells[y][x]` throws; with x == columns the write lands one past the
      end of row y, which grows that row by one live cell. */
  function ToggleAsWritten(b: Board, x: int, y: int): (r: ClickOutcome)
    requires b.Valid()
    ensures InBounds(b, x, y) ==> r == Flipped(Toggle(b, x, y).cells)
    ensures !(0 <= x <= b.columns && 0 <= y <= b.rows) ==> r == Flipped(b.cells)
  {
    if 0 <= x <= b.columns && 0 <= y <= b.rows then
      if y == b.rows then TypeError
      else if x == b.columns then Flipped(b.cells[y := b.cells[y] + [true]])
      else Flipped(b.cells[y := b.cells[y][x := !b.cells[y][x]]])
    else Flipped(b.cells)
  }

  /** The loose guard lets through coordinates just past the last row and
      the last column: the first throws, the second leaves a row one cell
      wider than the board. */
  lemma ToggleAsWrittenOffByOne(b: Board)
    requires b.Valid()
    ensures ToggleAsWritten(b, 0, b.rows) == TypeError
    ensures b.rows > 0 ==>
      var r := ToggleAsWritten(b, b.columns, 0);
      r.Flipped? && |r.cells[0]| == b.columns + 1 && !Board(b.rows, b.columns, r.cells).Valid()
  {
  }
}
