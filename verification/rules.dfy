/** The simulation rules of the board: the lenient cell lookup, the Moore
    neighbour count without wrap-around, Conway's B3/S23 rule applied to a
    snapshot of the grid, the population figure the step reports, and the
    single-cell toggle. */
module Rules {
  import opened Grids

  /** Looking up a cell never fails: a row or column outside the grid, or a
      cell holding 0, reads as dead (0); anything else reads as alive (1). */
  function AliveState(g: Grid, r: int, c: int): (v: int)
    ensures v == 0 || v == 1
    ensures v == 1 ==> 0 <= r < |g| && 0 <= c < |g[r]|
  {
    if !(0 <= r < |g|) then 0
    else if !(0 <= c < |g[r]|) || g[r][c] == 0 then 0
    else 1
  }

  /** Number of live cells among the eight cells around (i, j), diagonals
      included; cells off the grid count as dead. */
  function NeighbourCount(g: Grid, i: int, j: int): (n: int)
    ensures 0 <= n <= 8
  {
    AliveState(g, i - 1, j - 1) + AliveState(g, i - 1, j) + AliveState(g, i - 1, j + 1) +
    AliveState(g, i, j - 1) + AliveState(g, i, j + 1) +
    AliveState(g, i + 1, j - 1) + AliveState(g, i + 1, j) + AliveState(g, i + 1, j + 1)
  }

  /** Conway's rule B3/S23 as a reference: a cell is alive in the next
      generation when it has exactly three live neighbours, or when it is
      alive and has exactly two. */
  predicate LivesNext(alive: bool, n: int)
  {
    n == 3 || (alive && n == 2)
  }

  /** The step's update of one cell, branch for branch: a live cell with
      fewer than two or more than three neighbours is cleared, otherwise a
      cell with exactly three neighbours is set, otherwise the copied value
      stays. */
  function NextCell(v: int, n: int): (w: int)
    ensures n == 3 ==> w == 1
    ensures n < 2 || n > 3 ==> w == 0
    ensures n == 2 ==> w == v
  {
    if v != 0 && (n < 2 || n > 3) then 0
    else if n == 3 then 1
    else v
  }

  /** The next generation, every cell computed from the unmodified grid `g`. */
  function Step(g: Grid): (h: Grid)
    ensures |h| == |g| && forall i :: 0 <= i < |g| ==> |h[i]| == |g[i]|
  {
    seq(|g|, i requires 0 <= i < |g| =>
      seq(|g[i]|, j requires 0 <= j < |g[i]| => NextCell(g[i][j], NeighbourCount(g, i, j))))
  }

  /** Marks with 1 the cells of `g` that have exactly three live neighbours:
      the cells on which the step increments its population counter. */
  function ThreeNeighbourMask(g: Grid): (m: Grid)
    ensures |m| == |g| && forall i :: 0 <= i < |g| ==> |m[i]| == |g[i]|
    ensures Binary(m)
  {
    seq(|g|, i requires 0 <= i < |g| =>
      seq(|g[i]|, j requires 0 <= j < |g[i]| => if NeighbourCount(g, i, j) == 3 then 1 else 0))
  }

  /** The population the step reports for the generation after `g`: the
      number of cells of `g` with exactly three live neighbours. */
  function StepPopulation(g: Grid): (p: int)
    ensures p >= 0
  {
    BinaryTotalNonNegative(ThreeNeighbourMask(g));
    Total(ThreeNeighbourMask(g))
  }

  /** The grid after a click on cell (r, c): that cell flips between 0 and 1. */
  function Toggle(g: Grid, r: nat, c: nat): (h: Grid)
    requires r < |g| && c < |g[r]|
    ensures |h| == |g| && forall i :: 0 <= i < |g| ==> |h[i]| == |g[i]|
    ensures h[r][c] == (if g[r][c] != 0 then 0 else 1)
    ensures forall i, j :: 0 <= i < |g| && 0 <= j < |g[i]| && (i, j) != (r, c) ==> h[i][j] == g[i][j]
  {
    g[r := g[r][c := if g[r][c] != 0 then 0 else 1]]
  }

  // ---------------------------------------------------------------------
  // Neighbour counting

  /** Lookups outside `[0, rows) x [0, columns)` read as dead. */
  lemma OffGridIsDead(g: Grid, rows: nat, columns: nat, r: int, c: int)
    requires Shaped(g, rows, columns)
    requires !(0 <= r < rows && 0 <= c < columns)
    ensures AliveState(g, r, c) == 0
  {
  }

  /** A corner cell has only three cells around it on the grid, so at most
      three live neighbours: nothing wraps round to the opposite edges. */
  lemma CornerNeighbourBound(g: Grid, rows: nat, columns: nat)
    requires Shaped(g, rows, columns)
    ensures NeighbourCount(g, 0, 0) <= 3
    ensures rows > 0 && columns > 0 ==> NeighbourCount(g, 0, columns - 1) <= 3
    ensures rows > 0 && columns > 0 ==> NeighbourCount(g, rows - 1, 0) <= 3
    ensures rows > 0 && columns > 0 ==> NeighbourCount(g, rows - 1, columns - 1) <= 3
  {
  }

  /** A cell on the top edge has at most five live neighbours. */
  lemma EdgeNeighbourBound(g: Grid, rows: nat, columns: nat, j: int)
    requires Shaped(g, rows, columns)
    ensures NeighbourCount(g, 0, j) <= 5
  {
  }

  /** No wrap-around between top and bottom: on a grid of at least three
      rows, changing a cell of the last row leaves every count in the first
      row as it was. */
  lemma LastRowInvisibleFromFirst(g: Grid, rows: nat, columns: nat, c: nat, v: int, j: int)
    requires Shaped(g, rows, columns) && rows >= 3 && c < columns
    ensures NeighbourCount(g[rows - 1 := g[rows - 1][c := v]], 0, j) == NeighbourCount(g, 0, j)
  {
    var h := g[rows - 1 := g[rows - 1][c := v]];
    forall r, k | 0 <= r <= 1
      ensures AliveState(h, r, k) == AliveState(g, r, k)
    {
    }
  }

  /** No wrap-around between left and right: on a grid of at least three
      columns, changing the last cell of a row leaves the count of the first
      cell of every row as it was. */
  lemma LastColumnInvisibleFromFirst(g: Grid, rows: nat, columns: nat, r: nat, v: int, i: int)
    requires Shaped(g, rows, columns) && columns >= 3 && r < rows
    ensures NeighbourCount(g[r := g[r][columns - 1 := v]], i, 0) == NeighbourCount(g, i, 0)
  {
    var h := g[r := g[r][columns - 1 := v]];
    forall q, k | 0 <= k <= 1
      ensures AliveState(h, q, k) == AliveState(g, q, k)
    {
    }
  }

  // ---------------------------------------------------------------------
  // The generation step

  /** The branch-by-branch update is Conway's rule on 0/1 cells, in both
      directions, and yields 0 or 1. */
  lemma NextCellIsConway(v: int, n: int)
    requires v == 0 || v == 1
    ensures NextCell(v, n) == 0 || NextCell(v, n) == 1
    ensures NextCell(v, n) == 1 <==> LivesNext(v == 1, n)
  {
  }

  /** The step keeps the dimensions and keeps every cell 0 or 1. */
  lemma StepKeepsShape(g: Grid, rows: nat, columns: nat)
    requires Shaped(g, rows, columns) && Binary(g)
    ensures Shaped(Step(g), rows, columns) && Binary(Step(g))
  {
    forall i, j | 0 <= i < rows && 0 <= j < columns
      ensures Step(g)[i][j] == 0 || Step(g)[i][j] == 1
    {
      NextCellIsConway(g[i][j], NeighbourCount(g, i, j));
    }
  }

  /** Each cell of the next generation is alive exactly when Conway's rule
      says so about the same cell of the current grid. */
  lemma StepIsConway(g: Grid, i: nat, j: nat)
    requires Binary(g) && i < |g| && j < |g[i]|
    ensures Step(g)[i][j] == 1 <==> LivesNext(g[i][j] == 1, NeighbourCount(g, i, j))
    ensures Step(g)[i][j] == 0 <==> !LivesNext(g[i][j] == 1, NeighbourCount(g, i, j))
  {
    NextCellIsConway(g[i][j], NeighbourCount(g, i, j));
  }

  /** The population the step reports never exceeds the live cells of the
      new grid: every cell it counts is alive afterwards, but a live cell
      that survives on two neighbours is not counted. */
  lemma StepPopulationUndercounts(g: Grid, rows: nat, columns: nat)
    requires Shaped(g, rows, columns) && Binary(g)
    ensures 0 <= StepPopulation(g) <= Total(Step(g))
  {
    var m, h := ThreeNeighbourMask(g), Step(g);
    forall i, j | 0 <= i < |m| && 0 <= j < |m[i]|
      ensures m[i][j] <= h[i][j]
    {
      NextCellIsConway(g[i][j], NeighbourCount(g, i, j));
    }
    TotalMonotone(m, h);
    BinaryTotalBounds(m, rows, columns);
  }

  /** The mask of counted cells lies below the next generation, strictly
      exactly at the live cells with two live neighbours. */
  lemma MaskBelowStep(g: Grid, rows: nat, columns: nat)
    requires Shaped(g, rows, columns) && Binary(g)
    ensures forall i, j :: 0 <= i < rows && 0 <= j < columns ==>
      ThreeNeighbourMask(g)[i][j] <= Step(g)[i][j]
    ensures forall i, j :: 0 <= i < rows && 0 <= j < columns ==>
      (ThreeNeighbourMask(g)[i][j] < Step(g)[i][j] <==> g[i][j] == 1 && NeighbourCount(g, i, j) == 2)
  {
    forall i, j | 0 <= i < rows && 0 <= j < columns
      ensures ThreeNeighbourMask(g)[i][j] <= Step(g)[i][j]
      ensures ThreeNeighbourMask(g)[i][j] < Step(g)[i][j] <==> g[i][j] == 1 && NeighbourCount(g, i, j) == 2
    {
      NextCellIsConway(g[i][j], NeighbourCount(g, i, j));
    }
  }

  /** The population the step reports is exactly the number of live cells
      it leaves if and only if no live cell of `g` has exactly two live
      neighbours. */
  lemma StepPopulationExactIff(g: Grid, rows: nat, columns: nat)
    requires Shaped(g, rows, columns) && Binary(g)
    ensures StepPopulation(g) == Total(Step(g)) <==>
      forall i, j :: 0 <= i < rows && 0 <= j < columns ==> !(g[i][j] == 1 && NeighbourCount(g, i, j) == 2)
  {
    var m, h := ThreeNeighbourMask(g), Step(g);
    MaskBelowStep(g, rows, columns);
    TotalEqualIff(m, h, rows, columns);
  }

  /** Every lookup in the all-dead grid reads as dead. */
  lemma DeadReadsDead(rows: nat, columns: nat, r: int, c: int)
    ensures AliveState(Dead(rows, columns), r, c) == 0
  {
  }

  /** An all-dead grid stays all-dead, and the step reports population 0. */
  lemma DeadStaysDead(rows: nat, columns: nat)
    ensures Step(Dead(rows, columns)) == Dead(rows, columns)
    ensures StepPopulation(Dead(rows, columns)) == 0
  {
    var d := Dead(rows, columns);
    forall i, j | 0 <= i < rows && 0 <= j < columns
      ensures NeighbourCount(d, i, j) == 0
    {
      DeadReadsDead(rows, columns, i - 1, j - 1);
      DeadReadsDead(rows, columns, i - 1, j);
      DeadReadsDead(rows, columns, i - 1, j + 1);
      DeadReadsDead(rows, columns, i, j - 1);
      DeadReadsDead(rows, columns, i, j + 1);
      DeadReadsDead(rows, columns, i + 1, j - 1);
      DeadReadsDead(rows, columns, i + 1, j);
      DeadReadsDead(rows, columns, i + 1, j + 1);
    }
    assert forall i :: 0 <= i < rows ==> Step(d)[i] == d[i];
    assert forall i :: 0 <= i < rows ==> ThreeNeighbourMask(d)[i] == d[i];
    assert ThreeNeighbourMask(d) == d;
    DeadTotal(rows, columns);
  }

  /** The live cells of `g` are exactly the cell (r, c). */
  predicate IsLoneCell(g: Grid, rows: nat, columns: nat, r: nat, c: nat)
  {
    Shaped(g, rows, columns) &&
    forall i, j :: 0 <= i < rows && 0 <= j < columns ==>
      g[i][j] == if i == r && j == c then 1 else 0
  }

  /** Every lookup around a lone live cell reads as alive exactly there. */
  lemma LoneCellReads(g: Grid, rows: nat, columns: nat, r: nat, c: nat, x: int, y: int)
    requires IsLoneCell(g, rows, columns, r, c) && r < rows && c < columns
    ensures AliveState(g, x, y) == if x == r && y == c then 1 else 0
  {
  }

  /** Every cell of the grid has at most one live neighbour. */
  lemma LoneCellCount(g: Grid, rows: nat, columns: nat, r: nat, c: nat, i: int, j: int)
    requires IsLoneCell(g, rows, columns, r, c) && r < rows && c < columns
    ensures NeighbourCount(g, i, j) <= 1
  {
    LoneCellReads(g, rows, columns, r, c, i - 1, j - 1);
    LoneCellReads(g, rows, columns, r, c, i - 1, j);
    LoneCellReads(g, rows, columns, r, c, i - 1, j + 1);
    LoneCellReads(g, rows, columns, r, c, i, j - 1);
    LoneCellReads(g, rows, columns, r, c, i, j + 1);
    LoneCellReads(g, rows, columns, r, c, i + 1, j - 1);
    LoneCellReads(g, rows, columns, r, c, i + 1, j);
    LoneCellReads(g, rows, columns, r, c, i + 1, j + 1);
  }

  /** The step clears a lone live cell. */
  lemma LoneCellStep(g: Grid, rows: nat, columns: nat, r: nat, c: nat)
    requires IsLoneCell(g, rows, columns, r, c) && r < rows && c < columns
    ensures Step(g) == Dead(rows, columns)
  {
    var d := Dead(rows, columns);
    forall i, j | 0 <= i < rows && 0 <= j < columns
      ensures Step(g)[i][j] == 0
    {
      LoneCellCount(g, rows, columns, r, c, i, j);
    }
    assert forall i :: 0 <= i < rows ==> Step(g)[i] == d[i];
  }

  /** No cell around a lone live cell has exactly three live neighbours. */
  lemma LoneCellMask(g: Grid, rows: nat, columns: nat, r: nat, c: nat)
    requires IsLoneCell(g, rows, columns, r, c) && r < rows && c < columns
    ensures ThreeNeighbourMask(g) == Dead(rows, columns)
  {
    var d := Dead(rows, columns);
    forall i, j | 0 <= i < rows && 0 <= j < columns
      ensures ThreeNeighbourMask(g)[i][j] == 0
    {
      LoneCellCount(g, rows, columns, r, c, i, j);
    }
    assert forall i :: 0 <= i < rows ==> ThreeNeighbourMask(g)[i] == d[i];
  }

  /** A live cell with no live neighbour dies in one step, leaving an
      all-dead board, and the step reports population 0. */
  lemma LoneCellDies(g: Grid, rows: nat, columns: nat, r: nat, c: nat)
    requires IsLoneCell(g, rows, columns, r, c) && r < rows && c < columns
    ensures Step(g) == Dead(rows, columns)
    ensures StepPopulation(g) == 0
  {
    LoneCellStep(g, rows, columns, r, c);
    LoneCellMask(g, rows, columns, r, c);
    DeadTotal(rows, columns);
  }

  /** A single click on an all-dead board leaves a lone live cell. */
  lemma ClickOnDeadIsLoneCell(rows: nat, columns: nat, r: nat, c: nat)
    requires r < rows && c < columns
    ensures IsLoneCell(Toggle(Dead(rows, columns), r, c), rows, columns, r, c)
  {
  }

  /** The live cells of `g` are exactly the 2x2 square whose top left cell
      is (r, c). */
  predicate IsBlock(g: Grid, rows: nat, columns: nat, r: nat, c: nat)
  {
    Shaped(g, rows, columns) &&
    forall i, j :: 0 <= i < rows && 0 <= j < columns ==>
      g[i][j] == if r <= i <= r + 1 && c <= j <= c + 1 then 1 else 0
  }

  /** Every lookup around a block reads as alive exactly inside it. */
  lemma BlockReads(g: Grid, rows: nat, columns: nat, r: nat, c: nat, x: int, y: int)
    requires IsBlock(g, rows, columns, r, c) && r + 1 < rows && c + 1 < columns
    ensures AliveState(g, x, y) == if r <= x <= r + 1 && c <= y <= c + 1 then 1 else 0
  {
  }

  /** A cell of the block has exactly three live neighbours, and a cell
      outside it has at most two. */
  lemma BlockCount(g: Grid, rows: nat, columns: nat, r: nat, c: nat, i: int, j: int)
    requires IsBlock(g, rows, columns, r, c) && r + 1 < rows && c + 1 < columns
    ensures if r <= i <= r + 1 && c <= j <= c + 1 then NeighbourCount(g, i, j) == 3
      else NeighbourCount(g, i, j) <= 2
  {
    BlockReads(g, rows, columns, r, c, i - 1, j - 1);
    BlockReads(g, rows, columns, r, c, i - 1, j);
    BlockReads(g, rows, columns, r, c, i - 1, j + 1);
    BlockReads(g, rows, columns, r, c, i, j - 1);
    BlockReads(g, rows, columns, r, c, i, j + 1);
    BlockReads(g, rows, columns, r, c, i + 1, j - 1);
    BlockReads(g, rows, columns, r, c, i + 1, j);
    BlockReads(g, rows, columns, r, c, i + 1, j + 1);
  }

  /** The step maps the block to itself. */
  lemma BlockStep(g: Grid, rows: nat, columns: nat, r: nat, c: nat)
    requires IsBlock(g, rows, columns, r, c) && r + 1 < rows && c + 1 < columns
    ensures Step(g) == g
  {
    forall i, j | 0 <= i < rows && 0 <= j < columns
      ensures Step(g)[i][j] == g[i][j]
    {
      BlockCount(g, rows, columns, r, c, i, j);
    }
    assert forall i :: 0 <= i < rows ==> Step(g)[i] == g[i];
  }

  /** The cells with exactly three live neighbours are the block's cells. */
  lemma BlockMask(g: Grid, rows: nat, columns: nat, r: nat, c: nat)
    requires IsBlock(g, rows, columns, r, c) && r + 1 < rows && c + 1 < columns
    ensures ThreeNeighbourMask(g) == g
  {
    forall i, j | 0 <= i < rows && 0 <= j < columns
      ensures ThreeNeighbourMask(g)[i][j] == g[i][j]
    {
      BlockCount(g, rows, columns, r, c, i, j);
    }
    assert forall i :: 0 <= i < rows ==> ThreeNeighbourMask(g)[i] == g[i];
  }

  /** Clicking the four cells of a 2x2 square on an all-dead board. */
  function FourClicks(rows: nat, columns: nat, r: nat, c: nat): (g: Grid)
    requires r + 1 < rows && c + 1 < columns
    ensures IsBlock(g, rows, columns, r, c)
  {
    Toggle(Toggle(Toggle(Toggle(Dead(rows, columns), r, c), r, c + 1), r + 1, c), r + 1, c + 1)
  }

  /** A block holds four live cells: it is the grid four clicks on distinct
      cells of a dead board produce, and each click adds one. */
  lemma BlockTotal(g: Grid, rows: nat, columns: nat, r: nat, c: nat)
    requires IsBlock(g, rows, columns, r, c) && r + 1 < rows && c + 1 < columns
    ensures Total(g) == 4
  {
    var d := Dead(rows, columns);
    var g1 := Toggle(d, r, c);
    var g2 := Toggle(g1, r, c + 1);
    var g3 := Toggle(g2, r + 1, c);
    var g4 := FourClicks(rows, columns, r, c);
    assert forall i :: 0 <= i < rows ==> g[i] == g4[i];
    assert g == g4;
    DeadTotal(rows, columns);
    ToggleTotal(d, r, c);
    ToggleKeepsShape(d, rows, columns, r, c);
    ToggleTotal(g1, r, c + 1);
    ToggleKeepsShape(g1, rows, columns, r, c + 1);
    ToggleTotal(g2, r + 1, c);
    ToggleKeepsShape(g2, rows, columns, r + 1, c);
    ToggleTotal(g3, r + 1, c + 1);
  }

  /** A 2x2 block anywhere on the board is a still life: the step leaves the
      grid unchanged and reports the block's four cells as the population. */
  lemma BlockIsStill(g: Grid, rows: nat, columns: nat, r: nat, c: nat)
    requires IsBlock(g, rows, columns, r, c) && r + 1 < rows && c + 1 < columns
    ensures Step(g) == g
    ensures StepPopulation(g) == 4
  {
    BlockStep(g, rows, columns, r, c);
    BlockMask(g, rows, columns, r, c);
    BlockTotal(g, rows, columns, r, c);
  }

  /** One row of the blinker example, cell counts worked out by hand. */
  lemma BlinkerRow(g: Grid, i: nat)
    requires g == [[0, 0, 0], [1, 1, 1], [0, 0, 0]] && i < 3
    ensures Step(g)[i] == [0, 1, 0]
    ensures ThreeNeighbourMask(g)[i] == [0, if i == 1 then 0 else 1, 0]
  {
    assert NeighbourCount(g, i, 0) == if i == 1 then 1 else 2;
    assert NeighbourCount(g, i, 1) == if i == 1 then 2 else 3;
    assert NeighbourCount(g, i, 2) == if i == 1 then 1 else 2;
  }

  /** A horizontal blinker on a 3x3 grid turns vertical: three live cells. */
  lemma BlinkerOscillates()
    ensures var g := [[0, 0, 0], [1, 1, 1], [0, 0, 0]];
      Step(g) == [[0, 1, 0], [0, 1, 0], [0, 1, 0]] && Total(Step(g)) == 3
  {
    var g := [[0, 0, 0], [1, 1, 1], [0, 0, 0]];
    BlinkerRow(g, 0);
    BlinkerRow(g, 1);
    BlinkerRow(g, 2);
    var h := [[0, 1, 0], [0, 1, 0], [0, 1, 0]];
    assert Step(g) == h;
    assert Total(h) == 3;
  }

  /** For the same blinker the step reports a population of two, one less
      than the live cells it leaves: the centre survives on two neighbours
      and is not counted. */
  lemma BlinkerUndercounts()
    ensures var g := [[0, 0, 0], [1, 1, 1], [0, 0, 0]];
      StepPopulation(g) == 2 && StepPopulation(g) < Total(Step(g))
  {
    var g := [[0, 0, 0], [1, 1, 1], [0, 0, 0]];
    BlinkerRow(g, 0);
    BlinkerRow(g, 1);
    BlinkerRow(g, 2);
    var m := [[0, 1, 0], [0, 0, 0], [0, 1, 0]];
    assert ThreeNeighbourMask(g) == m;
    assert Total(m) == 2;
    BlinkerOscillates();
  }

  /** One row of the diagonal example, cell counts worked out by hand. */
  lemma DiagonalRow(g: Grid, i: nat)
    requires g == [[1, 0, 0], [0, 1, 0], [0, 0, 1]] && i < 3
    ensures Step(g)[i] == [0, if i == 1 then 1 else 0, 0]
    ensures ThreeNeighbourMask(g)[i] == [0, 0, 0]
  {
    assert NeighbourCount(g, i, 0) == if i == 1 then 2 else 1;
    assert NeighbourCount(g, i, 1) == 2;
    assert NeighbourCount(g, i, 2) == if i == 1 then 2 else 1;
  }

  /** A diagonal of three live cells steps to its centre alone, which
      survives on two neighbours. */
  lemma DiagonalKeepsCentre()
    ensures var g := [[1, 0, 0], [0, 1, 0], [0, 0, 1]];
      Step(g) == [[0, 0, 0], [0, 1, 0], [0, 0, 0]]
  {
    var g := [[1, 0, 0], [0, 1, 0], [0, 0, 1]];
    DiagonalRow(g, 0);
    DiagonalRow(g, 1);
    DiagonalRow(g, 2);
    var h := [[0, 0, 0], [0, 1, 0], [0, 0, 0]];
    assert Step(g)[0] == h[0] && Step(g)[1] == h[1] && Step(g)[2] == h[2];
    assert Step(g) == h;
  }

  /** No cell of the diagonal has exactly three live neighbours. */
  lemma DiagonalMaskEmpty()
    ensures ThreeNeighbourMask([[1, 0, 0], [0, 1, 0], [0, 0, 1]]) == [[0, 0, 0], [0, 0, 0], [0, 0, 0]]
  {
    var g := [[1, 0, 0], [0, 1, 0], [0, 0, 1]];
    DiagonalRow(g, 0);
    DiagonalRow(g, 1);
    DiagonalRow(g, 2);
    var m := [[0, 0, 0], [0, 0, 0], [0, 0, 0]];
    assert ThreeNeighbourMask(g)[0] == m[0] && ThreeNeighbourMask(g)[1] == m[1] && ThreeNeighbourMask(g)[2] == m[2];
  }

  /** For the same diagonal the step reports population 0 although it
      leaves a live cell. */
  lemma DiagonalReportsNone()
    ensures var g := [[1, 0, 0], [0, 1, 0], [0, 0, 1]];
      StepPopulation(g) == 0 && Total(Step(g)) == 1
  {
    var g := [[1, 0, 0], [0, 1, 0], [0, 0, 1]];
    DiagonalMaskEmpty();
    DiagonalKeepsCentre();
    DiagonalTotals(ThreeNeighbourMask(g), Step(g));
  }

  /** The live-cell totals of the two grids the diagonal example produces. */
  lemma DiagonalTotals(m: Grid, h: Grid)
    requires m == [[0, 0, 0], [0, 0, 0], [0, 0, 0]] && h == [[0, 0, 0], [0, 1, 0], [0, 0, 0]]
    ensures Total(m) == 0 && Total(h) == 1
  {
    assert Total(m[1..][1..]) == 0;
    assert Total(m[1..]) == 0;
    assert Total(h[1..][1..]) == 0;
    assert RowTotal(h[1]) == 1;
    assert Total(h[1..]) == 1;
  }

  // ---------------------------------------------------------------------
  // The single-cell toggle

  /** Toggling keeps the dimensions and every cell 0 or 1. */
  lemma ToggleKeepsShape(g: Grid, rows: nat, columns: nat, r: nat, c: nat)
    requires Shaped(g, rows, columns) && Binary(g) && r < rows && c < columns
    ensures Shaped(Toggle(g, r, c), rows, columns) && Binary(Toggle(g, r, c))
  {
  }

  /** Toggling the same cell twice restores the grid. */
  lemma ToggleTwice(g: Grid, r: nat, c: nat)
    requires Binary(g) && r < |g| && c < |g[r]|
    ensures Toggle(Toggle(g, r, c), r, c) == g
  {
    assert Toggle(Toggle(g, r, c), r, c)[r] == g[r];
  }

  /** Toggling a cell changes the number of live cells by exactly one: up
      when the cell comes alive, down when it dies. */
  lemma ToggleTotal(g: Grid, r: nat, c: nat)
    requires Binary(g) && r < |g| && c < |g[r]|
    ensures Total(Toggle(g, r, c)) == Total(g) + (if g[r][c] == 0 then 1 else -1)
  {
    var v := if g[r][c] != 0 then 0 else 1;
    RowTotalUpdate(g[r], c, v);
    TotalUpdate(g, r, g[r][c := v]);
  }
}
