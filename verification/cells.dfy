/** The list of live coordinates the board hands to its renderer, and the
    board rebuilt from such a list. */
module Cells {
  import opened Grid

  /** Row-major order: by row, then by column within a row. */
  predicate Precedes(a: Cell, b: Cell) {
    a.y < b.y || (a.y == b.y && a.x < b.x)
  }

  /** Strictly ascending in row-major order. */
  predicate RowMajor(s: seq<Cell>) {
    forall i, j :: 0 <= i < j < |s| ==> Precedes(s[i], s[j])
  }

  /** Live cells of row y in columns 0 .. x-1, left to right. */
  function RowCells(b: Board, y: nat, x: nat): (s: seq<Cell>)
    requires b.Valid() && y < b.rows && x <= b.columns
    ensures forall c :: c in s <==> c.y == y && c.x < x && Alive(b, c.x, c.y)
    ensures RowMajor(s)
    decreases x
  {
    if x == 0 then []
    else RowCells(b, y, x - 1) + (if b.cells[y][x - 1] then [Cell(x - 1, y)] else [])
  }

  /** Live cells of rows 0 .. y-1 in row-major order. */
  function CellsAbove(b: Board, y: nat): (s: seq<Cell>)
    requires b.Valid() && y <= b.rows
    ensures forall c :: c in s <==> c.y < y && Alive(b, c.x, c.y)
    ensures RowMajor(s)
  {
    if y == 0 then []
    else CellsAbove(b, y - 1) + RowCells(b, y - 1, b.columns)
  }

  /** Every live coordinate of the board, each once, in row-major order. */
  function AliveCells(b: Board): (s: seq<Cell>)
    requires b.Valid()
    ensures forall c :: c in s <==> Alive(b, c.x, c.y)
    ensures RowMajor(s)
    ensures forall i, j :: 0 <= i < j < |s| ==> s[i] != s[j]
  {
    CellsAbove(b, b.rows)
  }

  /** The inner loop of the board's scan: row y left to right, appending
      every live coordinate to what was collected before. */
  method ScanRow(b: Board, y: nat, before: seq<Cell>) returns (cells: seq<Cell>)
    requires b.Valid() && y < b.rows
    ensures cells == before + RowCells(b, y, b.columns)
  {
    cells := before;
    var x := 0;
    while x < b.columns
      invariant 0 <= x <= b.columns
      invariant cells == before + RowCells(b, y, x)
    {
      ghost var live := if b.cells[y][x] then [Cell(x, y)] else [];
      assert RowCells(b, y, x + 1) == RowCells(b, y, x) + live;
      if b.cells[y][x] {
        cells := cells + [Cell(x, y)];
      }
      assert cells == (before + RowCells(b, y, x)) + live;
      x := x + 1;
    }
  }

  /** The board's own scan: rows top to bottom, columns left to right,
      appending every live coordinate. */
  method MakeCells(b: Board) returns (cells: seq<Cell>)
    requires b.Valid()
    ensures forall c :: c in cells <==> Alive(b, c.x, c.y)
    ensures RowMajor(cells)
    ensures cells == AliveCells(b)
  {
    cells := [];
    var y := 0;
    while y < b.rows
      invariant 0 <= y <= b.rows
      invariant cells == CellsAbove(b, y)
    {
      cells := ScanRow(b, y, cells);
      assert CellsAbove(b, y + 1) == CellsAbove(b, y) + RowCells(b, y, b.columns);
      y := y + 1;
    }
  }

  /** The board of the given shape whose live cells are those listed. */
  function FromCells(rows: nat, columns: nat, live: seq<Cell>): (b: Board)
    ensures b.Valid() && b.rows == rows && b.columns == columns
    ensures forall x, y :: Alive(b, x, y) <==> 0 <= x < columns && 0 <= y < rows && Cell(x, y) in live
  {
    Board(rows, columns, seq(rows, y => seq(columns, x => Cell(x, y) in live)))
  }

  /** Two row-major lists holding the same coordinates are the same list. */
  lemma {:induction false} RowMajorUnique(s: seq<Cell>, t: seq<Cell>)
    requires RowMajor(s) && RowMajor(t)
    requires forall c :: c in s <==> c in t
    ensures s == t
  {
    assert s != [] ==> s[0] in s;
    assert t != [] ==> t[0] in t;
    if s != [] && t != [] {
      assert s[0] == t[0] by {
        assert t[0] in s && s[0] in t;
      }
      assert s == [s[0]] + s[1..];
      assert t == [t[0]] + t[1..];
      forall c ensures c in s[1..] <==> c in t[1..] {
        if c in s[1..] {
          var k :| 1 <= k < |s| && s[k] == c;
          assert Precedes(s[0], s[k]);
          assert c in s && c in t;
          var m :| 0 <= m < |t| && t[m] == c;
          assert m != 0;
          assert t[m] == t[1..][m - 1];
        }
        if c in t[1..] {
          var k :| 1 <= k < |t| && t[k] == c;
          assert Precedes(t[0], t[k]);
          assert c in t && c in s;
          var m :| 0 <= m < |s| && s[m] == c;
          assert m != 0;
          assert s[m] == s[1..][m - 1];
        }
      }
      RowMajorUnique(s[1..], t[1..]);
    }
  }

  /** Rebuilding a board from its live-cell list gives the board back. */
  lemma FromAliveCells(b: Board)
    requires b.Valid()
    ensures FromCells(b.rows, b.columns, AliveCells(b)) == b
  {
    var r := FromCells(b.rows, b.columns, AliveCells(b));
    forall x, y ensures Alive(r, x, y) == Alive(b, x, y) {
    }
    Extensionality(r, b);
  }

  /** Listing the live cells of a board built from an on-grid, row-major
      list gives the list back. */
  lemma AliveCellsOfFromCells(rows: nat, columns: nat, live: seq<Cell>)
    requires RowMajor(live)
    requires forall c :: c in live ==> 0 <= c.x < columns && 0 <= c.y < rows
    ensures AliveCells(FromCells(rows, columns, live)) == live
  {
    RowMajorUnique(AliveCells(FromCells(rows, columns, live)), live);
  }

  /** A board has no live coordinates exactly when every cell is dead. */
  lemma NoCellsIffAllDead(b: Board)
    requires b.Valid()
    ensures AliveCells(b) == [] <==> AllDead(b)
  {
    if AliveCells(b) != [] {
      var c := AliveCells(b)[0];
      assert Alive(b, c.x, c.y);
    } else {
      forall x, y ensures !Alive(b, x, y) {
        assert Cell(x, y) !in AliveCells(b);
      }
    }
  }

  /** A cleared board lists no live cells. */
  lemma ClearHasNoCells(b: Board)
    requires b.Valid()
    ensures AliveCells(Clear(b)) == []
  {
    NoCellsIffAllDead(Clear(b));
  }
}
