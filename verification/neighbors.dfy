/** Counting the live neighbours of a cell: the eight cells around it,
    orthogonal and diagonal, with positions off the grid counting as dead. */
module Neighbors {
  import opened Grid

  /** The eight offsets the board scans, each written (dy, dx), in the
      board's own order. */
  const Directions: seq<(int, int)> :=
    [(-1, -1), (-1, 0), (-1, 1), (0, 1), (1, 1), (1, 0), (1, -1), (0, -1)]

  /** The position reached from (x, y) along the i-th offset. */
  function Neighbor(x: int, y: int, i: nat): Cell
    requires i < |Directions|
  {
    Cell(x + Directions[i].1, y + Directions[i].0)
  }

  /** Geometric definition of a neighbour, independent of `Directions`:
      within one step in each axis, and not the cell itself. */
  predicate Adjacent(c: Cell, x: int, y: int) {
    -1 <= c.x - x <= 1 && -1 <= c.y - y <= 1 && c != Cell(x, y)
  }

  function Offset(x: int, y: int, dx: int, dy: int): Cell {
    Cell(x + dx, y + dy)
  }

  /** The eight positions around (x, y), on the grid or not. */
  ghost function Window(x: int, y: int): set<Cell> {
    set dx, dy | -1 <= dx <= 1 && -1 <= dy <= 1 && (dx != 0 || dy != 0) :: Offset(x, y, dx, dy)
  }

  /** The live neighbours of (x, y): the reference meaning of the count. */
  ghost function LiveNeighbors(b: Board, x: int, y: int): set<Cell>
    requires b.Valid()
  {
    set c | c in Window(x, y) && Alive(b, c.x, c.y)
  }

  lemma WindowIsAdjacent(c: Cell, x: int, y: int)
    ensures c in Window(x, y) <==> Adjacent(c, x, y)
  {
    if Adjacent(c, x, y) {
      var dx, dy := c.x - x, c.y - y;
      assert c == Offset(x, y, dx, dy);
    }
  }

  /** The scan visits exactly the window: every offset leads to an
      adjacent position, and every adjacent position is reached by
      exactly one offset. */
  lemma DirectionsCoverWindow(x: int, y: int)
    ensures forall i :: 0 <= i < |Directions| ==> Adjacent(Neighbor(x, y, i), x, y)
    ensures forall c :: Adjacent(c, x, y) ==> exists i :: 0 <= i < |Directions| && Neighbor(x, y, i) == c
    ensures forall i, j :: 0 <= i < j < |Directions| ==> Neighbor(x, y, i) != Neighbor(x, y, j)
  {
    forall c | Adjacent(c, x, y)
      ensures exists i :: 0 <= i < |Directions| && Neighbor(x, y, i) == c
    {
      var dx, dy := c.x - x, c.y - y;
      var i := if dy == -1 then (if dx == -1 then 0 else if dx == 0 then 1 else 2)
               else if dy == 0 then (if dx == 1 then 3 else 7)
               else (if dx == 1 then 4 else if dx == 0 then 5 else 6);
      assert Neighbor(x, y, i) == c;
    }
  }

  /** Live cells among the offsets 0, 1, ..., i-1: the running total after
      the first i steps of the scan. */
  function CountTo(b: Board, x: int, y: int, i: nat): (n: nat)
    requires b.Valid() && i <= |Directions|
    ensures n <= i
  {
    if i == 0 then 0
    else
      var c := Neighbor(x, y, i - 1);
      CountTo(b, x, y, i - 1) + (if Alive(b, c.x, c.y) then 1 else 0)
  }

  /** The live positions among the first i offsets. */
  ghost function LiveTo(b: Board, x: int, y: int, i: nat): set<Cell>
    requires b.Valid() && i <= |Directions|
  {
    set j | 0 <= j < i && Alive(b, Neighbor(x, y, j).x, Neighbor(x, y, j).y) :: Neighbor(x, y, j)
  }

  /** The live positions among the first i + 1 offsets are those among the
      first i, which do not include offset i, and offset i if it is live. */
  lemma LiveToSplit(b: Board, x: int, y: int, i: nat)
    requires b.Valid() && i < |Directions|
    ensures Neighbor(x, y, i) !in LiveTo(b, x, y, i)
    ensures LiveTo(b, x, y, i + 1) == LiveTo(b, x, y, i) +
      (if Alive(b, Neighbor(x, y, i).x, Neighbor(x, y, i).y) then {Neighbor(x, y, i)} else {})
  {
  }

  /** The first i steps of the scan count the distinct live positions they
      visit. */
  lemma {:induction false} CountToIsCard(b: Board, x: int, y: int, i: nat)
    requires b.Valid() && i <= |Directions|
    ensures CountTo(b, x, y, i) == |LiveTo(b, x, y, i)|
  {
    if i == 0 {
      assert LiveTo(b, x, y, i) == {};
    } else {
      CountToIsCard(b, x, y, i - 1);
      LiveToSplit(b, x, y, i - 1);
    }
  }

  lemma LiveToAll(b: Board, x: int, y: int)
    requires b.Valid()
    ensures LiveTo(b, x, y, |Directions|) == LiveNeighbors(b, x, y)
  {
    DirectionsCoverWindow(x, y);
    forall c ensures c in LiveTo(b, x, y, |Directions|) <==> c in LiveNeighbors(b, x, y) {
      WindowIsAdjacent(c, x, y);
    }
  }

  /** The number of live neighbours of (x, y), found by scanning the
      eight offsets. */
  function NeighborCount(b: Board, x: int, y: int): (n: nat)
    requires b.Valid()
    ensures n <= 8
  {
    CountTo(b, x, y, |Directions|)
  }

  /** The count is the number of live, on-grid positions adjacent to
      (x, y), the cell itself excluded. */
  lemma NeighborCountMeaning(b: Board, x: int, y: int)
    requires b.Valid()
    ensures NeighborCount(b, x, y) == |LiveNeighbors(b, x, y)|
  {
    CountToIsCard(b, x, y, |Directions|);
    LiveToAll(b, x, y);
  }

  /** The live neighbours are exactly the adjacent on-grid live cells: the
      cell itself and off-grid positions never count. */
  lemma LiveNeighborsMeaning(b: Board, x: int, y: int, c: Cell)
    requires b.Valid()
    ensures c in LiveNeighbors(b, x, y) <==> Adjacent(c, x, y) && InBounds(b, c.x, c.y) && b.cells[c.y][c.x]
    ensures Cell(x, y) !in LiveNeighbors(b, x, y)
  {
    WindowIsAdjacent(c, x, y);
  }

  /** The count reads nothing but the eight cells around (x, y). */
  lemma {:induction false} NeighborCountLocal(a: Board, b: Board, x: int, y: int)
    requires a.Valid() && b.Valid()
    requires forall c :: Adjacent(c, x, y) ==> Alive(a, c.x, c.y) == Alive(b, c.x, c.y)
    ensures NeighborCount(a, x, y) == NeighborCount(b, x, y)
  {
    DirectionsCoverWindow(x, y);
    var i := 0;
    while i < |Directions|
      invariant 0 <= i <= |Directions|
      invariant CountTo(a, x, y, i) == CountTo(b, x, y, i)
    {
      assert Adjacent(Neighbor(x, y, i), x, y);
      i := i + 1;
    }
  }

  /** The board's scan: a running total over the eight offsets. */
  method CalculateNeighbors(b: Board, x: int, y: int) returns (neighbors: nat)
    requires b.Valid()
    ensures neighbors <= 8
    ensures neighbors == NeighborCount(b, x, y)
  {
    neighbors := 0;
    var i := 0;
    while i < |Directions|
      invariant 0 <= i <= |Directions|
      invariant neighbors == CountTo(b, x, y, i)
    {
      var dir := Directions[i];
      var y1 := y + dir.0;
      var x1 := x + dir.1;
      assert Neighbor(x, y, i) == Cell(x1, y1);
      if x1 >= 0 && x1 < b.columns && y1 >= 0 && y1 < b.rows && b.cells[y1][x1] {
        neighbors := neighbors + 1;
      }
      i := i + 1;
    }
  }

  /** On an all-dead board every cell has no live neighbours. */
  lemma NoNeighborsWhenAllDead(b: Board, x: int, y: int)
    requires b.Valid() && AllDead(b)
    ensures NeighborCount(b, x, y) == 0
  {
    NeighborCountMeaning(b, x, y);
    assert LiveNeighbors(b, x, y) == {};
  }
}
