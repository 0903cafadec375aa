/** The board component's game state without the browser: the board, the
    running flag, the update interval, whether a timer callback is waiting
    to fire, and the live-cell list last handed to the renderer. Time
    itself is not modelled; a waiting callback firing is an event. */
module Simulation {
  import opened Grid
  import opened Generation
  import opened Toggling
  import opened Cells

  datatype Game = Game(board: Board, isRunning: bool, interval: int, pending: bool, cells: seq<Cell>)

  /** The state every handler keeps: a well-formed board, a callback waiting
      exactly while the game runs, and a cell list that matches the board. */
  predicate Consistent(g: Game) {
    && g.board.Valid()
    && g.pending == g.isRunning
    && g.cells == AliveCells(g.board)
  }

  /** The component as constructed: an all-dead board, stopped, with an
      interval of 1000 ms and no cells shown. */
  function Init(rows: nat, columns: nat): (g: Game)
    ensures Consistent(g) && !g.isRunning && g.interval == 1000
    ensures g.board.rows == rows && g.board.columns == columns && AllDead(g.board)
    ensures g.cells == []
  {
    var b := Empty(rows, columns);
    NoCellsIffAllDead(b);
    Game(b, false, 1000, false, [])
  }

  /** One tick: the next generation replaces the board, the cell list is
      refreshed and the next callback is scheduled. */
  function Advance(g: Game): (g': Game)
    requires g.board.Valid()
    ensures g'.board == Step(g.board) && g'.pending
    ensures g'.cells == AliveCells(g'.board)
    ensures g'.isRunning == g.isRunning && g'.interval == g.interval
  {
    var b := Step(g.board);
    g.(board := b, cells := AliveCells(b), pending := true)
  }

  /** Run: mark the game running and tick at once. The Run button is only
      offered while the game is stopped. */
  function StartGame(g: Game): (g': Game)
    requires Consistent(g) && !g.isRunning
    ensures Consistent(g') && g'.isRunning
    ensures g'.board == Step(g.board)
  {
    Advance(g.(isRunning := true))
  }

  /** Stop: clear the running flag and cancel the waiting callback. */
  function StopGame(g: Game): (g': Game)
    requires Consistent(g)
    ensures Consistent(g') && !g'.isRunning && !g'.pending
    ensures g'.board == g.board && g'.cells == g.cells
  {
    g.(isRunning := false, pending := false)
  }

  /** The waiting callback fires, if there is one: it ticks, which
      schedules the next one. With none waiting nothing happens. */
  function TimerFires(g: Game): (g': Game)
    requires Consistent(g)
    ensures Consistent(g')
    ensures g.pending ==> g'.board == Step(g.board)
    ensures !g.pending ==> g' == g
  {
    if g.pending then Advance(g) else g
  }

  /** Clear: an all-dead board of the same shape and an empty cell list. */
  function HandleClear(g: Game): (g': Game)
    requires Consistent(g)
    ensures Consistent(g') && g'.isRunning == g.isRunning
    ensures SameShape(g'.board, g.board) && AllDead(g'.board)
    ensures g'.cells == []
  {
    var b := Clear(g.board);
    ClearHasNoCells(g.board);
    g.(board := b, cells := [])
  }

  /** A click already mapped to the cell (x, y): flip it (if it is on the
      board) and refresh the cell list. */
  function HandleClick(g: Game, x: int, y: int): (g': Game)
    requires Consistent(g)
    ensures Consistent(g')
    ensures g'.board == Toggle(g.board, x, y)
  {
    var b := Toggle(g.board, x, y);
    g.(board := b, cells := AliveCells(b))
  }

  /** The interval field stores what was typed, unchecked. */
  function HandleIntervalChange(g: Game, value: int): (g': Game)
    requires Consistent(g)
    ensures Consistent(g') && g'.interval == value
    ensures g'.board == g.board && g'.isRunning == g.isRunning
  {
    g.(interval := value)
  }

  /** The state after n timer events. While the game runs, each event
      computes one generation, so n events advance the board n generations. */
  function Fire(g: Game, n: nat): (g': Game)
    requires Consistent(g)
    ensures Consistent(g')
    ensures g'.isRunning == g.isRunning && g'.interval == g.interval
    ensures g.isRunning ==> g'.board == Generations(g.board, n)
  {
    if n == 0 then g else TimerFires(Fire(g, n - 1))
  }

  /** After Stop no generation is computed, however many timer events
      come, until the game is started again. */
  lemma {:induction false} StoppedStaysStill(g: Game, n: nat)
    requires Consistent(g)
    ensures Fire(StopGame(g), n) == StopGame(g)
  {
    if n > 0 {
      var s := StopGame(g);
      StoppedStaysStill(g, n - 1);
      assert Fire(s, n) == TimerFires(Fire(s, n - 1));
      assert !s.pending;
    }
  }

  /** Stopping a stopped game changes nothing. */
  lemma StopIsIdempotent(g: Game)
    requires Consistent(g)
    ensures StopGame(StopGame(g)) == StopGame(g)
  {
  }
}
