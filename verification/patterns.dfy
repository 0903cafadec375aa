/** Classic small patterns and what one generation does to them. */
module Patterns {
  import opened Grid
  import opened Neighbors
  import opened Generation
  import opened Cells

  function AliveBit(b: Board, x: int, y: int): nat
    requires b.Valid()
  {
    if Alive(b, x, y) then 1 else 0
  }

  /** The first half of the scan: the row above and the cell to the right. */
  lemma FirstFourOffsets(b: Board, x: int, y: int)
    requires b.Valid()
    ensures CountTo(b, x, y, 4) ==
      AliveBit(b, x - 1, y - 1) + AliveBit(b, x, y - 1) + AliveBit(b, x + 1, y - 1) + AliveBit(b, x + 1, y)
  {
    assert CountTo(b, x, y, 1) == AliveBit(b, x - 1, y - 1);
    assert CountTo(b, x, y, 2) == CountTo(b, x, y, 1) + AliveBit(b, x, y - 1);
    assert CountTo(b, x, y, 3) == CountTo(b, x, y, 2) + AliveBit(b, x + 1, y - 1);
  }

  /** The neighbour count written out over the eight positions around
      (x, y), in scan order. */
  lemma NeighborCountExpanded(b: Board, x: int, y: int)
    requires b.Valid()
    ensures NeighborCount(b, x, y) ==
      AliveBit(b, x - 1, y - 1) + AliveBit(b, x, y - 1) + AliveBit(b, x + 1, y - 1)
      + AliveBit(b, x + 1, y) + AliveBit(b, x + 1, y + 1) + AliveBit(b, x, y + 1)
      + AliveBit(b, x - 1, y + 1) + AliveBit(b, x - 1, y)
  {
    FirstFourOffsets(b, x, y);
    assert CountTo(b, x, y, 5) == CountTo(b, x, y, 4) + AliveBit(b, x + 1, y + 1);
    assert CountTo(b, x, y, 6) == CountTo(b, x, y, 5) + AliveBit(b, x, y + 1);
    assert CountTo(b, x, y, 7) == CountTo(b, x, y, 6) + AliveBit(b, x - 1, y + 1);
  }

  /** The classic shapes used here, each placed near the top-left corner. */
  datatype Pattern =
    | Block         // the 2 x 2 still life on (1, 1), (2, 1), (1, 2), (2, 2)
    | BlinkerH      // the horizontal blinker (1, 2), (2, 2), (3, 2)
    | BlinkerV      // the vertical blinker (2, 1), (2, 2), (2, 3)

  /** Whether (x, y) is one of the pattern's live cells. */
  predicate Covers(p: Pattern, x: int, y: int) {
    match p
    case Block => 1 <= x <= 2 && 1 <= y <= 2
    case BlinkerH => y == 2 && 1 <= x <= 3
    case BlinkerV => x == 2 && 1 <= y <= 3
  }

  /** The pattern's live cells in row-major order. */
  function Listing(p: Pattern): seq<Cell> {
    match p
    case Block => [Cell(1, 1), Cell(2, 1), Cell(1, 2), Cell(2, 2)]
    case BlinkerH => [Cell(1, 2), Cell(2, 2), Cell(3, 2)]
    case BlinkerV => [Cell(2, 1), Cell(2, 2), Cell(2, 3)]
  }

  /** Each listing is row-major and lies inside the 4 x 4 corner. */
  lemma ListingFits(p: Pattern)
    ensures RowMajor(Listing(p))
    ensures forall c :: c in Listing(p) ==> 0 <= c.x < 4 && 0 <= c.y < 4
  {
  }

  /** The board of the given shape holding just the pattern. */
  function Place(rows: nat, columns: nat, p: Pattern): (b: Board)
    ensures b.Valid() && b.rows == rows && b.columns == columns
    ensures forall x, y :: Alive(b, x, y) <==> InBounds(b, x, y) && Covers(p, x, y)
  {
    Board(rows, columns, seq(rows, y => seq(columns, x => Covers(p, x, y))))
  }

  /** The placed pattern is the board built from its listing. */
  lemma PlaceIsFromCells(rows: nat, columns: nat, p: Pattern)
    ensures Place(rows, columns, p) == FromCells(rows, columns, Listing(p))
  {
    var a := Place(rows, columns, p);
    var b := FromCells(rows, columns, Listing(p));
    forall x, y ensures Alive(a, x, y) == Alive(b, x, y) {
    }
    Extensionality(a, b);
  }

  /** A cell with no pattern cell in its 3 x 3 neighbourhood is dead in the
      next generation. */
  lemma QuietCell(rows: nat, columns: nat, p: Pattern, x: int, y: int)
    requires forall x', y' :: x - 1 <= x' <= x + 1 && y - 1 <= y' <= y + 1 ==> !Covers(p, x', y')
    ensures !Alive(Step(Place(rows, columns, p)), x, y)
  {
    var b := Place(rows, columns, p);
    NeighborCountExpanded(b, x, y);
  }

  /** The rule's verdict on a cell near the pattern. */
  lemma NearCell(rows: nat, columns: nat, p: Pattern, q: Pattern, x: int, y: int)
    requires rows >= 4 && columns >= 4
    requires (p, q) in {(Block, Block), (BlinkerH, BlinkerV), (BlinkerV, BlinkerH)}
    requires 0 <= x < 5 && 0 <= y < 5
    ensures Rule(Alive(Place(rows, columns, p), x, y), NeighborCount(Place(rows, columns, p), x, y)) == Covers(q, x, y)
  {
    NeighborCountExpanded(Place(rows, columns, p), x, y);
  }

  /** One generation turns each pattern into its successor: the block into
      itself, each blinker phase into the other. */
  lemma Successor(rows: nat, columns: nat, p: Pattern, q: Pattern)
    requires rows >= 4 && columns >= 4
    requires (p, q) in {(Block, Block), (BlinkerH, BlinkerV), (BlinkerV, BlinkerH)}
    ensures Step(Place(rows, columns, p)) == Place(rows, columns, q)
  {
    var a := Place(rows, columns, p);
    var b := Place(rows, columns, q);
    forall x, y ensures Alive(Step(a), x, y) == Alive(b, x, y) {
      if 0 <= x < 5 && 0 <= y < 5 {
        NearCell(rows, columns, p, q, x, y);
      } else {
        QuietCell(rows, columns, p, x, y);
      }
    }
    Extensionality(Step(a), b);
  }

  /** On any board of at least 4 x 4 the block is a still life, and its
      live-cell list stays the same four cells. */
  lemma BlockIsStillLife(rows: nat, columns: nat)
    requires rows >= 4 && columns >= 4
    ensures Step(Place(rows, columns, Block)) == Place(rows, columns, Block)
    ensures AliveCells(Step(Place(rows, columns, Block))) == Listing(Block)
  {
    Successor(rows, columns, Block, Block);
    PlaceIsFromCells(rows, columns, Block);
    ListingFits(Block);
    AliveCellsOfFromCells(rows, columns, Listing(Block));
  }

  /** On any board of at least 4 x 4 the blinker is an oscillator of
      period 2: the horizontal phase becomes the vertical one, which differs
      from it, and two generations bring it back. */
  lemma BlinkerHasPeriodTwo(rows: nat, columns: nat)
    requires rows >= 4 && columns >= 4
    ensures AliveCells(Generations(Place(rows, columns, BlinkerH), 1)) == Listing(BlinkerV)
    ensures Generations(Place(rows, columns, BlinkerH), 1) != Place(rows, columns, BlinkerH)
    ensures Generations(Place(rows, columns, BlinkerH), 2) == Place(rows, columns, BlinkerH)
  {
    var h := Place(rows, columns, BlinkerH);
    var v := Place(rows, columns, BlinkerV);
    Successor(rows, columns, BlinkerH, BlinkerV);
    Successor(rows, columns, BlinkerV, BlinkerH);
    assert Generations(h, 1) == Step(Generations(h, 0));
    assert Generations(h, 2) == Step(Generations(h, 1));
    assert Alive(h, 1, 2) && !Alive(v, 1, 2);
    PlaceIsFromCells(rows, columns, BlinkerV);
    ListingFits(BlinkerV);
    AliveCellsOfFromCells(rows, columns, Listing(BlinkerV));
  }

  /** The blinker comes back after every even number of generations. */
  lemma BlinkerRecurs(rows: nat, columns: nat, k: nat)
    requires rows >= 4 && columns >= 4
    ensures Generations(Place(rows, columns, BlinkerH), 2 * k) == Place(rows, columns, BlinkerH)
  {
    var h := Place(rows, columns, BlinkerH);
    assert Generations(h, 2) == h by {
      BlinkerHasPeriodTwo(rows, columns);
    }
    PeriodicRepeats(h, 2, k);
  }

  /** The set of live coordinates of a board. */
  ghost function LiveSet(b: Board): set<Cell>
    requires b.Valid()
  {
    set c | c in AliveCells(b)
  }

  lemma {:induction false} SubsetCard<T>(a: set<T>, b: set<T>)
    requires a <= b
    ensures |a| <= |b|
  {
    if a != {} {
      var x :| x in a;
      SubsetCard(a - {x}, b - {x});
    }
  }

  /** Isolation: a board with at most two live cells is empty after one
      generation, since no live cell has two live neighbours and no dead
      cell has three. */
  lemma FewCellsDie(b: Board)
    requires b.Valid() && |LiveSet(b)| <= 2
    ensures Step(b) == Empty(b.rows, b.columns)
  {
    forall x, y ensures !Alive(Step(b), x, y) {
      var me := Cell(x, y);
      forall c | c in LiveNeighbors(b, x, y) ensures c in LiveSet(b) - {me} {
        LiveNeighborsMeaning(b, x, y, c);
      }
      assert LiveNeighbors(b, x, y) <= LiveSet(b) - {me};
      if Alive(b, x, y) {
        assert me in LiveSet(b);
        assert |LiveSet(b) - {me}| == |LiveSet(b)| - 1;
      }
      SubsetCard(LiveNeighbors(b, x, y), LiveSet(b) - {me});
      NeighborCountMeaning(b, x, y);
    }
    AllDeadIsEmpty(Step(b));
  }

  /** A single live cell dies of isolation, leaving no live cells. */
  lemma LoneCellDies(rows: nat, columns: nat, c: Cell)
    ensures AliveCells(Step(FromCells(rows, columns, [c]))) == []
  {
    var b := FromCells(rows, columns, [c]);
    assert LiveSet(b) <= {c};
    assert |LiveSet(b)| <= 1 by {
      if c in LiveSet(b) {
        assert LiveSet(b) == {c};
      } else {
        assert LiveSet(b) == {};
      }
    }
    FewCellsDie(b);
    NoCellsIffAllDead(Step(b));
  }
}
