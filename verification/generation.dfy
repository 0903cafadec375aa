/** One generation of the Game of Life: every cell's next state is decided
    from its current state and its live-neighbour count on the current
    board, and the results are written to a fresh board. */
module Generation {
  import opened Grid
  import opened Neighbors

  /** The classic rule: a live cell survives with 2 or 3 live neighbours,
      a dead cell is born with exactly 3; every other cell is dead next. */
  predicate Rule(alive: bool, n: nat) {
    if alive then n == 2 || n == 3 else n == 3
  }

  /** The next generation, every cell computed from the current board. */
  function Step(b: Board): (r: Board)
    requires b.Valid()
    ensures r.Valid() && SameShape(r, b)
    ensures forall x, y {:trigger Alive(r, x, y)} :: Alive(r, x, y) <==> InBounds(b, x, y) && Rule(Alive(b, x, y), NeighborCount(b, x, y))
  {
    Board(b.rows, b.columns,
      seq(b.rows, y requires 0 <= y < b.rows =>
        seq(b.columns, x requires 0 <= x < b.columns => Rule(b.cells[y][x], NeighborCount(b, x, y)))))
  }

  /** Cell (x, y) of `next` holds the rule's verdict for that cell of `b`. */
  predicate Settled(next: Board, b: Board, x: int, y: int)
    requires next.Valid() && b.Valid()
  {
    Alive(next, x, y) == (InBounds(b, x, y) && Rule(Alive(b, x, y), NeighborCount(b, x, y)))
  }

  /** (x', y') comes before (x, y) in row-major order. */
  predicate Before(x': int, y': int, x: int, y: int) {
    y' < y || (y' == y && x' < x)
  }

  /** One iteration of the board's inner loop: count on the old board,
      then write the verdict into `next`. A live cell is written `true` or
      `false` by the survival test; a dead cell is written only on a birth,
      so otherwise it keeps the `false` of the fresh board. */
  method UpdateCell(b: Board, next: Board, x: int, y: int) returns (next': Board)
    requires b.Valid() && next.Valid() && SameShape(next, b) && InBounds(b, x, y)
    requires !Alive(next, x, y)
    ensures next'.Valid() && SameShape(next', b)
    ensures Settled(next', b, x, y)
    ensures forall x', y' :: (x', y') != (x, y) ==> Alive(next', x', y') == Alive(next, x', y')
  {
    var neighbors := CalculateNeighbors(b, x, y);
    next' := next;
    if b.cells[y][x] {
      if neighbors == 2 || neighbors == 3 {
        next' := Set(next, x, y, true);
      } else {
        next' := Set(next, x, y, false);
      }
    } else {
      if !b.cells[y][x] && neighbors == 3 {
        next' := Set(next, x, y, true);
      }
    }
  }

  /** The board's generation loop: a fresh all-dead board filled in
      row-major order. Counts are always taken on the old board `b`, never
      on the partly written `next`, so the update is simultaneous. */
  method Tick(b: Board) returns (next: Board)
    requires b.Valid()
    ensures next.Valid() && SameShape(next, b)
    ensures forall x, y :: InBounds(b, x, y) && Alive(b, x, y) ==>
      (Alive(next, x, y) <==> 2 <= |LiveNeighbors(b, x, y)| <= 3)
    ensures forall x, y :: InBounds(b, x, y) && !Alive(b, x, y) ==>
      (Alive(next, x, y) <==> |LiveNeighbors(b, x, y)| == 3)
    ensures next == Step(b)
  {
    next := CreateBoard(b.rows, b.columns);
    var y := 0;
    while y < b.rows
      invariant 0 <= y <= b.rows
      invariant next.Valid() && SameShape(next, b)
      invariant forall x', y' :: Before(x', y', 0, y) ==> Settled(next, b, x', y')
      invariant forall x', y' :: !Before(x', y', 0, y) ==> !Alive(next, x', y')
    {
      var x := 0;
      while x < b.columns
        invariant 0 <= x <= b.columns
        invariant next.Valid() && SameShape(next, b)
        invariant forall x', y' :: Before(x', y', x, y) ==> Settled(next, b, x', y')
        invariant forall x', y' :: !Before(x', y', x, y) ==> !Alive(next, x', y')
      {
        var prev := next;
        next := UpdateCell(b, next, x, y);
        forall x', y' | Before(x', y', x + 1, y) ensures Settled(next, b, x', y') {
          if (x', y') != (x, y) {
            assert Settled(prev, b, x', y');
          }
        }
        x := x + 1;
      }
      forall x', y' | Before(x', y', 0, y + 1) ensures Settled(next, b, x', y') {
        if y' == y && x' >= b.columns {
          assert !Before(x', y', x, y);
        }
      }
      y := y + 1;
    }
    var r := Step(b);
    forall x', y' ensures Alive(next, x', y') == Alive(r, x', y') {
      if !Before(x', y', 0, y) {
        assert !Alive(next, x', y');
      } else {
        assert Settled(next, b, x', y');
      }
    }
    Extensionality(next, r);
    forall x', y' ensures NeighborCount(b, x', y') == |LiveNeighbors(b, x', y')| {
      NeighborCountMeaning(b, x', y');
    }
  }

  /** Simultaneity: a cell's next state depends only on its own state and
      the eight cells around it on the current board. */
  lemma StepLocal(a: Board, b: Board, x: int, y: int)
    requires a.Valid() && b.Valid() && SameShape(a, b)
    requires Alive(a, x, y) == Alive(b, x, y)
    requires forall c :: Adjacent(c, x, y) ==> Alive(a, c.x, c.y) == Alive(b, c.x, c.y)
    ensures Alive(Step(a), x, y) == Alive(Step(b), x, y)
  {
    NeighborCountLocal(a, b, x, y);
  }

  /** An all-dead board stays all dead: the empty board is a fixed point. */
  lemma EmptyIsFixedPoint(rows: nat, columns: nat)
    ensures Step(Empty(rows, columns)) == Empty(rows, columns)
  {
    var e := Empty(rows, columns);
    forall x, y ensures !Alive(Step(e), x, y) {
      NoNeighborsWhenAllDead(e, x, y);
    }
    AllDeadIsEmpty(Step(e));
  }

  /** Stepping a cleared board changes nothing. */
  lemma StepOfClear(b: Board)
    requires b.Valid()
    ensures Step(Clear(b)) == Clear(b)
  {
    EmptyIsFixedPoint(b.rows, b.columns);
  }

  /** The board after n generations. */
  function Generations(b: Board, n: nat): (r: Board)
    requires b.Valid()
    ensures r.Valid() && SameShape(r, b)
  {
    if n == 0 then b else Step(Generations(b, n - 1))
  }

  /** Generations compose: n + m steps are m steps after n steps. */
  lemma {:induction false} GenerationsAdd(b: Board, n: nat, m: nat)
    requires b.Valid()
    ensures Generations(b, n + m) == Generations(Generations(b, n), m)
  {
    if m > 0 {
      GenerationsAdd(b, n, m - 1);
    }
  }

  /** A board that has period p repeats itself every p generations. */
  lemma {:induction false} PeriodicRepeats(b: Board, p: nat, k: nat)
    requires b.Valid() && Generations(b, p) == b
    ensures Generations(b, k * p) == b
  {
    if k > 0 {
      var m := (k - 1) * p;
      assert k * p == m + p;
      PeriodicRepeats(b, p, k - 1);
      GenerationsAdd(b, m, p);
    }
  }
}
