/** The board component: a fixed-size grid with its population and
    generation counters and the run state of the interval timer, the
    handlers that change them, and the conditions under which the Start,
    Pause, Stop and Randomise controls are disabled. */
module Boards {
  import opened Grids
  import opened Rules

  /** Board dimensions used by the component. */
  const BoardWidth: nat := 60
  const BoardHeight: nat := 60

  /** Everything the handlers read and write. `running` stands for "an
      interval id is held": the timer is active. */
  datatype BoardState = BoardState(
    rows: nat, columns: nat, grid: Grid,
    population: int, generations: nat, running: bool)

  /** The grid has the board's dimensions and holds only 0s and 1s, and the
      population counter is not negative. */
  predicate WellFormed(s: BoardState)
  {
    Shaped(s.grid, s.rows, s.columns) && Binary(s.grid) && s.population >= 0
  }

  // ---------------------------------------------------------------------
  // The handlers as functions of the state

  /** One tick of the timer: the next generation, the population the step
      counts, one more generation. The run state is not consulted and the
      dimensions do not change. */
  function Ticked(s: BoardState): (t: BoardState)
    ensures t.rows == s.rows && t.columns == s.columns && t.running == s.running
    ensures t.generations == s.generations + 1 && t.population >= 0
    ensures |t.grid| == |s.grid|
  {
    s.(grid := Step(s.grid), population := StepPopulation(s.grid), generations := s.generations + 1)
  }

  /** Start keeps everything but marks the timer as active; it has no guard
      of its own. */
  function Started(s: BoardState): (t: BoardState)
    ensures t.running
    ensures t.(running := s.running) == s
  {
    s.(running := true)
  }

  /** Pause does nothing unless the timer is active, and then only stops it. */
  function Paused(s: BoardState): (t: BoardState)
    ensures !t.running
    ensures t.(running := s.running) == s
  {
    if !s.running then s else s.(running := false)
  }

  /** Stop does nothing unless the timer is active, and then stops it and
      replaces the grid with an all-dead one, both counters 0. */
  function Stopped(s: BoardState): (t: BoardState)
    ensures !t.running && t.rows == s.rows && t.columns == s.columns
    ensures s.running ==> Total(t.grid) == 0 && t.population == 0 && t.generations == 0
  {
    if !s.running then s
    else
      DeadTotal(s.rows, s.columns);
      s.(grid := Dead(s.rows, s.columns), population := 0, generations := 0, running := false)
  }

  /** Randomise does nothing while the timer is active; otherwise the grid
      is seeded from the draws, the population is the number of cells
      seeded alive and the generation counter restarts. */
  function Randomised(s: BoardState, coins: seq<seq<bool>>): (t: BoardState)
    ensures t.rows == s.rows && t.columns == s.columns && t.running == s.running
    ensures !s.running ==> t.population == Total(t.grid) && t.generations == 0
  {
    if s.running then s
    else s.(grid := Seeded(coins), population := Total(Seeded(coins)), generations := 0)
  }

  /** A click on cell (r, c) flips it; the population goes up by one when
      the cell comes alive and is left alone when it dies. */
  function Toggled(s: BoardState, r: nat, c: nat): (t: BoardState)
    requires r < |s.grid| && c < |s.grid[r]|
    ensures t.rows == s.rows && t.columns == s.columns
    ensures t.generations == s.generations && t.running == s.running
    ensures |t.grid| == |s.grid| && |t.grid[r]| == |s.grid[r]| && t.grid[r][c] != s.grid[r][c]
    ensures t.population == s.population + (if s.grid[r][c] == 0 then 1 else 0)
  {
    var g := Toggle(s.grid, r, c);
    s.(grid := g, population := if g[r][c] != 0 then s.population + 1 else s.population)
  }

  // ---------------------------------------------------------------------
  // When the controls are disabled

  /** Start is disabled when the population counter is 0 and while the
      timer is active; while it is enabled, pressing it changes the state.
      The counter, not the grid, is consulted. */
  predicate StartDisabled(s: BoardState)
    ensures !StartDisabled(s) ==> Started(s) != s
    ensures s.population != 0 ==> (StartDisabled(s) <==> Started(s) == s)
  {
    s.population == 0 || s.running
  }

  /** Pause is disabled exactly when pressing it would change nothing. */
  predicate PauseDisabled(s: BoardState)
    ensures PauseDisabled(s) <==> Paused(s) == s
  {
    !s.running
  }

  /** Stop is disabled exactly when pressing it would change nothing. */
  predicate StopDisabled(s: BoardState)
    ensures StopDisabled(s) <==> Stopped(s) == s
  {
    !s.running
  }

  /** Randomise is disabled while the timer is active, when pressing it
      would change nothing whatever the draws. */
  predicate RandomiseDisabled(s: BoardState)
    ensures RandomiseDisabled(s) ==> forall coins :: Randomised(s, coins) == s
  {
    s.running
  }

  // ---------------------------------------------------------------------
  // Properties of the handlers

  /** A tick keeps the board well formed, and the population it reports is
      at most the number of live cells it leaves. */
  lemma TickKeepsWellFormed(s: BoardState)
    requires WellFormed(s)
    ensures WellFormed(Ticked(s))
    ensures Ticked(s).population <= Total(Ticked(s).grid)
  {
    StepKeepsShape(s.grid, s.rows, s.columns);
    StepPopulationUndercounts(s.grid, s.rows, s.columns);
  }

  /** A toggle keeps the board well formed. */
  lemma ToggleKeepsWellFormed(s: BoardState, r: nat, c: nat)
    requires WellFormed(s) && r < s.rows && c < s.columns
    ensures WellFormed(Toggled(s, r, c))
  {
    ToggleKeepsShape(s.grid, s.rows, s.columns, r, c);
  }

  /** Randomising keeps the board well formed and, unless the timer is
      active, leaves a population that is exactly the number of live cells. */
  lemma RandomiseKeepsWellFormed(s: BoardState, coins: seq<seq<bool>>)
    requires WellFormed(s)
    requires |coins| == s.rows && forall i :: 0 <= i < s.rows ==> |coins[i]| == s.columns
    ensures WellFormed(Randomised(s, coins))
    ensures !s.running ==> Randomised(s, coins).population == Total(Randomised(s, coins).grid)
    ensures !s.running ==> Randomised(s, coins).generations == 0
  {
    BinaryTotalBounds(Seeded(coins), s.rows, s.columns);
  }

  /** Start, pause and stop keep the board well formed. */
  lemma RunControlsKeepWellFormed(s: BoardState)
    requires WellFormed(s)
    ensures WellFormed(Started(s)) && WellFormed(Paused(s)) && WellFormed(Stopped(s))
  {
  }

  /** Pause is a no-op while the timer is not active. */
  lemma IdlePauseIsNoOp(s: BoardState)
    requires !s.running
    ensures Paused(s) == s
  {
  }

  /** Stop is a no-op while the timer is not active. */
  lemma IdleStopIsNoOp(s: BoardState)
    requires !s.running
    ensures Stopped(s) == s
  {
  }

  /** While the timer is active, pause changes the run state and nothing else. */
  lemma PauseClearsOnlyRunning(s: BoardState)
    requires s.running
    ensures !Paused(s).running
    ensures Paused(s).grid == s.grid && Paused(s).population == s.population
    ensures Paused(s).generations == s.generations
  {
  }

  /** While the timer is active, stop leaves an all-dead board with both
      counters 0 and the timer off, whatever the state before. */
  lemma StopResets(s: BoardState)
    requires s.running
    ensures Stopped(s).grid == Dead(s.rows, s.columns) && Total(Stopped(s).grid) == 0
    ensures Stopped(s).population == 0 && Stopped(s).generations == 0 && !Stopped(s).running
  {
    DeadTotal(s.rows, s.columns);
  }

  /** A paused board cannot be cleared by stop: stop after pause keeps the
      grid and both counters. */
  lemma StopAfterPauseKeepsBoard(s: BoardState)
    ensures Stopped(Paused(s)) == Paused(s)
    ensures Stopped(Paused(s)).grid == s.grid
    ensures Stopped(Paused(s)).generations == s.generations
  {
  }

  /** Randomise is a no-op while the timer is active. */
  lemma RunningRandomiseIsNoOp(s: BoardState, coins: seq<seq<bool>>)
    requires s.running
    ensures Randomised(s, coins) == s
  {
  }

  /** Clicking the same cell twice restores the grid but leaves the
      population one higher: one of the two clicks made the cell alive and
      the other is never subtracted. */
  lemma ToggleTwiceDrifts(s: BoardState, r: nat, c: nat)
    requires WellFormed(s) && r < s.rows && c < s.columns
    ensures Toggled(Toggled(s, r, c), r, c).grid == s.grid
    ensures Toggled(Toggled(s, r, c), r, c).population == s.population + 1
  {
    ToggleTwice(s.grid, r, c);
  }

  /** Starting from a population that matches the live cells, a click that
      brings a cell alive keeps them matched, and a click that kills one
      leaves the population one above the live cells. */
  lemma ToggleCountsOnlyBirths(s: BoardState, r: nat, c: nat)
    requires WellFormed(s) && r < s.rows && c < s.columns
    requires s.population == Total(s.grid)
    ensures Toggled(s, r, c).population ==
      Total(Toggled(s, r, c).grid) + (if s.grid[r][c] == 1 then 1 else 0)
  {
    ToggleTotal(s.grid, r, c);
  }

  /** Because the counter undercounts, a paused board can hold a live cell
      while Start stays disabled: a diagonal of three cells ticks to a lone
      live centre with population 0. */
  lemma PausedLiveBoardCannotStart(s: BoardState)
    requires s.rows == 3 && s.columns == 3 && s.grid == [[1, 0, 0], [0, 1, 0], [0, 0, 1]]
    requires s.running
    ensures var t := Paused(Ticked(s));
      Total(t.grid) == 1 && t.population == 0 && StartDisabled(t) && !t.running
  {
    DiagonalReportsNone();
  }

  /** Pressing an enabled Start leaves only Pause and Stop enabled. */
  lemma ControlsAfterStart(s: BoardState)
    requires !StartDisabled(s)
    ensures StartDisabled(Started(s)) && RandomiseDisabled(Started(s))
    ensures !PauseDisabled(Started(s)) && !StopDisabled(Started(s))
  {
  }

  /** After an enabled Pause or Stop, Pause and Stop are disabled and
      Randomise is enabled; after Stop, Start is disabled too, since the
      population is 0. */
  lemma ControlsAfterPauseOrStop(s: BoardState)
    requires !PauseDisabled(s)
    ensures PauseDisabled(Paused(s)) && StopDisabled(Paused(s)) && !RandomiseDisabled(Paused(s))
    ensures StartDisabled(Paused(s)) <==> s.population == 0
    ensures StartDisabled(Stopped(s)) && PauseDisabled(Stopped(s)) && !RandomiseDisabled(Stopped(s))
  {
  }

  // ---------------------------------------------------------------------
  // The component

  /** The cells of a 2D array, row by row. */
  function Cells(a: array2<int>): (g: Grid)
    reads a
    ensures Shaped(g, a.Length0, a.Length1)
    ensures forall i, j :: 0 <= i < a.Length0 && 0 <= j < a.Length1 ==> g[i][j] == a[i, j]
  {
    seq(a.Length0, i requires 0 <= i < a.Length0 reads a =>
      seq(a.Length1, j requires 0 <= j < a.Length1 reads a => a[i, j]))
  }

  /** An array whose every cell holds the rule's value for the same cell of
      `g` holds the next generation of `g`. */
  lemma CellsFollowRule(a: array2<int>, g: Grid)
    requires Shaped(g, a.Length0, a.Length1)
    requires forall r, c {:trigger NeighbourCount(g, r, c)} :: 0 <= r < a.Length0 && 0 <= c < a.Length1 ==>
      a[r, c] == NextCell(g[r][c], NeighbourCount(g, r, c))
    ensures Cells(a) == Step(g)
  {
    forall r | 0 <= r < a.Length0
      ensures Cells(a)[r] == Step(g)[r]
    {
      forall c | 0 <= c < a.Length1
        ensures a[r, c] == Step(g)[r][c]
      {
        assert a[r, c] == NextCell(g[r][c], NeighbourCount(g, r, c));
      }
    }
  }

  class Board {
    const rows: nat
    const columns: nat
    var grid: array2<int>
    var population: int
    var generations: nat
    var running: bool

    /** The board's state as the handlers see it. */
    ghost function State(): BoardState
      reads this, grid
    {
      BoardState(rows, columns, Cells(grid), population, generations, running)
    }

    ghost predicate Valid()
      reads this, grid
    {
      grid.Length0 == rows && grid.Length1 == columns && WellFormed(State())
    }

    /** A new board: all dead, both counters 0, timer off. */
    constructor ()
      ensures Valid() && fresh(grid)
      ensures rows == BoardHeight && columns == BoardWidth
      ensures State() == BoardState(rows, columns, Dead(rows, columns), 0, 0, false)
    {
      var height, width := BoardHeight, BoardWidth;
      rows, columns := height, width;
      var g, p := InitialiseGrid(height, width, false, []);
      grid, population, generations, running := g, p, 0, false;
      new;
      assert State() == BoardState(height, width, Dead(height, width), 0, 0, false);
    }

    /** Builds a fresh `rows` x `columns` grid: all dead, or, when
        randomising, cell (i, j) alive exactly when `coins[i][j]` holds;
        the population is the sum of the values placed. */
    static method InitialiseGrid(rows: nat, columns: nat, shouldRandomise: bool, coins: seq<seq<bool>>)
      returns (grid: array2<int>, population: int)
      requires shouldRandomise ==> |coins| == rows && forall i :: 0 <= i < rows ==> |coins[i]| == columns
      ensures fresh(grid) && grid.Length0 == rows && grid.Length1 == columns
      ensures shouldRandomise ==> Cells(grid) == Seeded(coins)
      ensures !shouldRandomise ==> Cells(grid) == Dead(rows, columns)
      ensures population == Total(Cells(grid))
      ensures !shouldRandomise ==> population == 0
    {
      ghost var target := if shouldRandomise then Seeded(coins) else Dead(rows, columns);
      grid := new int[rows, columns];
      population := 0;
      for i := 0 to rows
        invariant forall r, c :: 0 <= r < i && 0 <= c < columns ==> grid[r, c] == target[r][c]
        invariant population == Total(target[..i])
      {
        var placed := InitialiseRow(grid, i, shouldRandomise, coins, target[i]);
        population := population + placed;
        TotalPrefixStep(target, i);
      }
      assert target[..rows] == target;
      assert forall r :: 0 <= r < rows ==> Cells(grid)[r] == target[r];
      if !shouldRandomise {
        DeadTotal(rows, columns);
      }
    }

    /** The inner loop of grid construction: fills row `i` with `row`, the
        values the draws give (all 0 without randomising), and returns
        their sum. */
    static method InitialiseRow(grid: array2<int>, i: nat, shouldRandomise: bool, coins: seq<seq<bool>>,
                                ghost row: seq<int>) returns (placed: int)
      requires i < grid.Length0 && |row| == grid.Length1
      requires shouldRandomise ==> i < |coins| && |coins[i]| == grid.Length1
      requires forall c :: 0 <= c < |row| ==>
        row[c] == if shouldRandomise && coins[i][c] then 1 else 0
      modifies grid
      ensures forall c :: 0 <= c < grid.Length1 ==> grid[i, c] == row[c]
      ensures forall r, c :: 0 <= r < grid.Length0 && r != i && 0 <= c < grid.Length1 ==>
        grid[r, c] == old(grid[r, c])
      ensures placed == RowTotal(row)
    {
      placed := 0;
      for j := 0 to grid.Length1
        invariant forall c :: 0 <= c < j ==> grid[i, c] == row[c]
        invariant forall r, c :: 0 <= r < grid.Length0 && r != i && 0 <= c < grid.Length1 ==>
          grid[r, c] == old(grid[r, c])
        invariant placed == RowTotal(row[..j])
      {
        RowTotalPrefixStep(row, j);
        if shouldRandomise {
          var value := if coins[i][j] then 1 else 0;
          grid[i, j] := value;
          placed := placed + value;
        } else {
          grid[i, j] := 0;
        }
      }
      assert row[..grid.Length1] == row;
    }

    /** A cell-by-cell copy of a grid. */
    static method CopyGrid(a: array2<int>) returns (b: array2<int>)
      ensures fresh(b) && b.Length0 == a.Length0 && b.Length1 == a.Length1
      ensures Cells(b) == Cells(a)
    {
      b := new int[a.Length0, a.Length1];
      for i := 0 to a.Length0
        invariant forall r, c :: 0 <= r < i && 0 <= c < a.Length1 ==> b[r, c] == a[r, c]
      {
        for j := 0 to a.Length1
          invariant forall r, c :: 0 <= r < i && 0 <= c < a.Length1 ==> b[r, c] == a[r, c]
          invariant forall c :: 0 <= c < j ==> b[i, c] == a[i, c]
        {
          b[i, j] := a[i, j];
        }
      }
      assert forall r :: 0 <= r < a.Length0 ==> Cells(b)[r] == Cells(a)[r];
    }

    /** One tick of the timer: every cell of a copy of the grid is updated
        from the unmodified original, the copy becomes the grid, the
        population is the number of cells that had exactly three live
        neighbours, and the generation counter goes up by one. */
    method Tick()
      requires Valid()
      modifies this
      ensures Valid() && fresh(grid)
      ensures State() == Ticked(old(State()))
    {
      var next, count := NextGeneration(grid);
      TickKeepsWellFormed(State());
      grid, population, generations := next, count, generations + 1;
    }

    /** The body of a tick before the state is replaced: a copy of the grid
        updated cell by cell from the unmodified original, and the number of
        cells that had exactly three live neighbours. */
    static method NextGeneration(original: array2<int>) returns (next: array2<int>, count: int)
      ensures fresh(next) && next.Length0 == original.Length0 && next.Length1 == original.Length1
      ensures Cells(next) == Step(Cells(original))
      ensures count == StepPopulation(Cells(original))
    {
      next := CopyGrid(original);
      ghost var g := Cells(original);
      ghost var mask := ThreeNeighbourMask(g);
      count := 0;
      for i := 0 to original.Length0
        modifies next
        invariant Cells(original) == g
        invariant forall r, c {:trigger NeighbourCount(g, r, c)} :: 0 <= r < i && 0 <= c < original.Length1 ==>
          next[r, c] == NextCell(g[r][c], NeighbourCount(g, r, c))
        invariant forall r, c :: i <= r < original.Length0 && 0 <= c < original.Length1 ==> next[r, c] == g[r][c]
        invariant count == Total(mask[..i])
      {
        var born := StepRow(original, next, i);
        count := count + born;
        TotalPrefixStep(mask, i);
      }
      assert mask[..original.Length0] == mask;
      CellsFollowRule(next, g);
    }

    /** One pass of the step's inner loop: row `i` of the copy is updated
        cell by cell from the unmodified original, and the cells with
        exactly three live neighbours are counted. */
    static method StepRow(original: array2<int>, next: array2<int>, i: nat) returns (born: int)
      requires original != next
      requires next.Length0 == original.Length0 && next.Length1 == original.Length1
      requires i < original.Length0
      requires forall c :: 0 <= c < next.Length1 ==> next[i, c] == original[i, c]
      modifies next
      ensures forall c {:trigger NeighbourCount(Cells(original), i, c)} :: 0 <= c < next.Length1 ==>
        next[i, c] == NextCell(original[i, c], NeighbourCount(Cells(original), i, c))
      ensures forall r, c :: 0 <= r < next.Length0 && r != i && 0 <= c < next.Length1 ==>
        next[r, c] == old(next[r, c])
      ensures born == RowTotal(ThreeNeighbourMask(Cells(original))[i])
    {
      ghost var g := Cells(original);
      ghost var mask := ThreeNeighbourMask(g)[i];
      born := 0;
      for j := 0 to next.Length1
        invariant Cells(original) == g
        invariant forall c {:trigger NeighbourCount(g, i, c)} :: 0 <= c < j ==>
          next[i, c] == NextCell(g[i][c], NeighbourCount(g, i, c))
        invariant forall c :: j <= c < next.Length1 ==> next[i, c] == original[i, c]
        invariant forall r, c :: 0 <= r < next.Length0 && r != i && 0 <= c < next.Length1 ==>
          next[r, c] == old(next[r, c])
        invariant born == RowTotal(mask[..j])
      {
        RowTotalPrefixStep(mask, j);
        var b := UpdateCell(original, next, i, j);
        born := born + b;
      }
      assert mask[..next.Length1] == mask;
    }

    /** The step's update of cell (i, j) of the copy from the original: a
        live cell with fewer than two or more than three neighbours is
        cleared, otherwise a cell with exactly three neighbours is set and
        counted, otherwise the copied value stays. */
    static method UpdateCell(original: array2<int>, next: array2<int>, i: nat, j: nat) returns (born: int)
      requires original != next
      requires next.Length0 == original.Length0 && next.Length1 == original.Length1
      requires i < original.Length0 && j < original.Length1
      requires next[i, j] == original[i, j]
      modifies next
      ensures next[i, j] == NextCell(original[i, j], NeighbourCount(Cells(original), i, j))
      ensures forall r, c :: 0 <= r < next.Length0 && 0 <= c < next.Length1 && (r != i || c != j) ==>
        next[r, c] == old(next[r, c])
      ensures born == if NeighbourCount(Cells(original), i, j) == 3 then 1 else 0
    {
      var n := NeighbourCount(Cells(original), i, j);
      born := 0;
      if original[i, j] != 0 && (n < 2 || n > 3) {
        next[i, j] := 0;
      } else if n == 3 {
        next[i, j] := 1;
        born := 1;
      }
    }

    /** Starts the timer. */
    method StartGame()
      requires Valid()
      modifies this`running
      ensures Valid() && State() == Started(old(State()))
    {
      running := true;
    }

    /** Stops the timer if it is active and keeps everything else. */
    method PauseGame()
      requires Valid()
      modifies this`running
      ensures Valid() && State() == Paused(old(State()))
    {
      if !running {
        return;
      }
      running := false;
    }

    /** Stops the timer if it is active and clears the board. */
    method StopGame()
      requires Valid()
      modifies this
      ensures Valid() && State() == Stopped(old(State()))
      ensures old(running) ==> fresh(grid)
      ensures !old(running) ==> grid == old(grid)
    {
      if !running {
        return;
      }
      var g, _ := InitialiseGrid(rows, columns, false, []);
      running, generations, grid, population := false, 0, g, 0;
    }

    /** Reseeds the board from the draws unless the timer is active. */
    method RandomiseGame(coins: seq<seq<bool>>)
      requires Valid()
      requires |coins| == rows && forall i :: 0 <= i < rows ==> |coins[i]| == columns
      modifies this
      ensures Valid() && State() == Randomised(old(State()), coins)
      ensures !old(running) ==> fresh(grid)
      ensures old(running) ==> grid == old(grid)
    {
      if running {
        return;
      }
      RandomiseKeepsWellFormed(State(), coins);
      var g, p := InitialiseGrid(rows, columns, true, coins);
      generations, grid, population := 0, g, p;
    }

    /** Flips cell (r, c) in place; the population goes up by one when the
        cell comes alive. */
    method SetAlive(r: nat, c: nat)
      requires Valid() && r < rows && c < columns
      modifies this`population, grid
      ensures Valid() && State() == Toggled(old(State()), r, c)
    {
      ghost var before := State();
      grid[r, c] := if grid[r, c] != 0 then 0 else 1;
      if grid[r, c] != 0 {
        population := population + 1;
      }
      assert forall i :: 0 <= i < rows ==> Cells(grid)[i] == Toggle(before.grid, r, c)[i];
      ToggleKeepsWellFormed(before, r, c);
      assert State() == Toggled(before, r, c);
    }
  }
}
