/** Grids of cells as the board stores them: rows of integers, 1 for a live
    cell and 0 for a dead one, together with the counting that the board's
    population bookkeeping is made of. */
module Grids {

  /** Row-major grid; `g[i][j]` is the cell in row `i`, column `j`. */
  type Grid = seq<seq<int>>

  /** `g` has exactly `rows` rows of exactly `columns` cells each. */
  predicate Shaped(g: Grid, rows: nat, columns: nat)
  {
    |g| == rows && forall i :: 0 <= i < |g| ==> |g[i]| == columns
  }

  /** Every cell of `g` is 0 or 1. */
  predicate Binary(g: Grid)
  {
    forall i, j :: 0 <= i < |g| && 0 <= j < |g[i]| ==> g[i][j] == 0 || g[i][j] == 1
  }

  /** A `rows` x `columns` grid in which every cell holds `v`. */
  function Uniform(rows: nat, columns: nat, v: int): (g: Grid)
    ensures Shaped(g, rows, columns)
    ensures forall i, j :: 0 <= i < rows && 0 <= j < columns ==> g[i][j] == v
  {
    seq(rows, _ => seq(columns, _ => v))
  }

  /** The all-dead grid that non-random grid construction produces. */
  function Dead(rows: nat, columns: nat): (g: Grid)
    ensures Shaped(g, rows, columns)
    ensures forall i, j :: 0 <= i < rows && 0 <= j < columns ==> g[i][j] == 0
  {
    Uniform(rows, columns, 0)
  }

  /** The grid that random construction produces from its draws: cell (i, j)
      is 1 exactly when the draw for that cell fell under the alive chance. */
  function Seeded(coins: seq<seq<bool>>): (g: Grid)
    ensures |g| == |coins| && Binary(g)
    ensures forall i :: 0 <= i < |g| ==> |g[i]| == |coins[i]|
    ensures forall i, j :: 0 <= i < |g| && 0 <= j < |g[i]| ==> (g[i][j] == 1 <==> coins[i][j])
  {
    seq(|coins|, i requires 0 <= i < |coins| =>
      seq(|coins[i]|, j requires 0 <= j < |coins[i]| => if coins[i][j] then 1 else 0))
  }

  /** Sum of the cells of one row. */
  function RowTotal(row: seq<int>): int
  {
    if |row| == 0 then 0 else row[0] + RowTotal(row[1..])
  }

  /** Sum of all cells; on a grid of 0s and 1s, the number of live cells. */
  function Total(g: Grid): int
  {
    if |g| == 0 then 0 else RowTotal(g[0]) + Total(g[1..])
  }

  /** A row of `n` copies of `v` sums to `n * v`. */
  lemma {:induction false} UniformRowTotal(n: nat, v: int)
    ensures RowTotal(seq(n, _ => v)) == n * v
  {
    if n > 0 {
      assert seq(n, _ => v)[1..] == seq(n - 1, _ => v);
      UniformRowTotal(n - 1, v);
    }
  }

  /** A uniform grid sums to its number of cells times the value. */
  lemma {:induction false} UniformTotal(rows: nat, columns: nat, v: int)
    ensures Total(Uniform(rows, columns, v)) == rows * (columns * v)
  {
    if rows > 0 {
      assert Uniform(rows, columns, v)[1..] == Uniform(rows - 1, columns, v);
      UniformTotal(rows - 1, columns, v);
      UniformRowTotal(columns, v);
    }
  }

  /** The all-dead grid has no live cell. */
  lemma DeadTotal(rows: nat, columns: nat)
    ensures Total(Dead(rows, columns)) == 0
  {
    UniformTotal(rows, columns, 0);
  }

  /** Draws that never fall under the alive chance give the all-dead grid,
      with no live cell. */
  lemma SeededAllMiss(coins: seq<seq<bool>>, rows: nat, columns: nat)
    requires |coins| == rows && forall i :: 0 <= i < rows ==> |coins[i]| == columns
    requires forall i, j :: 0 <= i < rows && 0 <= j < columns ==> !coins[i][j]
    ensures Seeded(coins) == Dead(rows, columns)
    ensures Total(Seeded(coins)) == 0
  {
    assert forall i :: 0 <= i < rows ==> Seeded(coins)[i] == Dead(rows, columns)[i];
    DeadTotal(rows, columns);
  }

  /** Draws that always fall under the alive chance fill every cell. */
  lemma SeededAllHit(coins: seq<seq<bool>>, rows: nat, columns: nat)
    requires |coins| == rows && forall i :: 0 <= i < rows ==> |coins[i]| == columns
    requires forall i, j :: 0 <= i < rows && 0 <= j < columns ==> coins[i][j]
    ensures Total(Seeded(coins)) == rows * columns
  {
    assert forall i :: 0 <= i < rows ==> Seeded(coins)[i] == Uniform(rows, columns, 1)[i];
    assert Seeded(coins) == Uniform(rows, columns, 1);
    UniformTotal(rows, columns, 1);
  }

  /** Summing is monotone in every cell. */
  lemma {:induction false} RowTotalMonotone(a: seq<int>, b: seq<int>)
    requires |a| == |b|
    requires forall j :: 0 <= j < |a| ==> a[j] <= b[j]
    ensures RowTotal(a) <= RowTotal(b)
  {
    if |a| > 0 {
      RowTotalMonotone(a[1..], b[1..]);
    }
  }

  /** A grid that is cell by cell no larger than another sums to no more. */
  lemma {:induction false} TotalMonotone(a: Grid, b: Grid)
    requires |a| == |b|
    requires forall i :: 0 <= i < |a| ==> |a[i]| == |b[i]|
    requires forall i, j :: 0 <= i < |a| && 0 <= j < |a[i]| ==> a[i][j] <= b[i][j]
    ensures Total(a) <= Total(b)
  {
    if |a| > 0 {
      TotalMonotone(a[1..], b[1..]);
      RowTotalMonotone(a[0], b[0]);
    }
  }

  /** A row that is cell by cell no larger than another, and smaller in
      cell `k`, sums to strictly less. */
  lemma {:induction false} RowTotalStrict(a: seq<int>, b: seq<int>, k: nat)
    requires |a| == |b| && k < |a|
    requires forall j :: 0 <= j < |a| ==> a[j] <= b[j]
    requires a[k] < b[k]
    ensures RowTotal(a) < RowTotal(b)
  {
    if k == 0 {
      RowTotalMonotone(a[1..], b[1..]);
    } else {
      RowTotalStrict(a[1..], b[1..], k - 1);
    }
  }

  /** A grid that is cell by cell no larger than another, and smaller in
      cell (k, l), sums to strictly less. */
  lemma {:induction false} TotalStrict(a: Grid, b: Grid, k: nat, l: nat)
    requires |a| == |b|
    requires forall i :: 0 <= i < |a| ==> |a[i]| == |b[i]|
    requires forall i, j :: 0 <= i < |a| && 0 <= j < |a[i]| ==> a[i][j] <= b[i][j]
    requires k < |a| && l < |a[k]| && a[k][l] < b[k][l]
    ensures Total(a) < Total(b)
  {
    if k == 0 {
      RowTotalStrict(a[0], b[0], l);
      TotalMonotone(a[1..], b[1..]);
    } else {
      RowTotalMonotone(a[0], b[0]);
      TotalStrict(a[1..], b[1..], k - 1, l);
    }
  }

  /** Of two grids of the same shape, one cell by cell no larger than the
      other, the sums agree exactly when the grids do. */
  lemma TotalEqualIff(a: Grid, b: Grid, rows: nat, columns: nat)
    requires Shaped(a, rows, columns) && Shaped(b, rows, columns)
    requires forall i, j :: 0 <= i < rows && 0 <= j < columns ==> a[i][j] <= b[i][j]
    ensures Total(a) == Total(b) <==> forall i, j :: 0 <= i < rows && 0 <= j < columns ==> a[i][j] == b[i][j]
  {
    if forall i, j :: 0 <= i < rows && 0 <= j < columns ==> a[i][j] == b[i][j] {
      assert forall i :: 0 <= i < rows ==> a[i] == b[i];
      assert a == b;
    } else {
      var k, l :| 0 <= k < rows && 0 <= l < columns && a[k][l] != b[k][l];
      TotalStrict(a, b, k, l);
    }
  }

  /** A row of 0s and 1s sums to between 0 and its length. */
  lemma {:induction false} BinaryRowTotalBounds(row: seq<int>)
    requires forall j :: 0 <= j < |row| ==> row[j] == 0 || row[j] == 1
    ensures 0 <= RowTotal(row) <= |row|
  {
    if |row| > 0 {
      BinaryRowTotalBounds(row[1..]);
    }
  }

  /** A grid of 0s and 1s, whatever the lengths of its rows, never sums
      below 0. */
  lemma {:induction false} BinaryTotalNonNegative(g: Grid)
    requires Binary(g)
    ensures Total(g) >= 0
  {
    if |g| > 0 {
      BinaryRowTotalBounds(g[0]);
      BinaryTotalNonNegative(g[1..]);
    }
  }

  /** A grid of 0s and 1s has between none and all of its cells alive. */
  lemma {:induction false} BinaryTotalBounds(g: Grid, rows: nat, columns: nat)
    requires Shaped(g, rows, columns) && Binary(g)
    ensures 0 <= Total(g) <= rows * columns
  {
    if rows > 0 {
      BinaryTotalBounds(g[1..], rows - 1, columns);
      BinaryRowTotalBounds(g[0]);
    }
  }

  /** Replacing one cell changes the row's sum by the difference. */
  lemma {:induction false} RowTotalUpdate(row: seq<int>, c: nat, v: int)
    requires c < |row|
    ensures RowTotal(row[c := v]) == RowTotal(row) - row[c] + v
  {
    if c > 0 {
      assert row[c := v][1..] == row[1..][c - 1 := v];
      RowTotalUpdate(row[1..], c - 1, v);
    } else {
      assert row[c := v][1..] == row[1..];
    }
  }

  /** Replacing one row changes the grid's sum by the difference. */
  lemma {:induction false} TotalUpdate(g: Grid, r: nat, row: seq<int>)
    requires r < |g|
    ensures Total(g[r := row]) == Total(g) - RowTotal(g[r]) + RowTotal(row)
  {
    if r > 0 {
      assert g[r := row][1..] == g[1..][r - 1 := row];
      TotalUpdate(g[1..], r - 1, row);
    } else {
      assert g[r := row][1..] == g[1..];
    }
  }

  /** Sums distribute over concatenation of rows. */
  lemma {:induction false} RowTotalAppend(a: seq<int>, b: seq<int>)
    ensures RowTotal(a + b) == RowTotal(a) + RowTotal(b)
  {
    if |a| > 0 {
      assert (a + b)[1..] == a[1..] + b;
      RowTotalAppend(a[1..], b);
    } else {
      assert a + b == b;
    }
  }

  /** Sums distribute over concatenation of grids. */
  lemma {:induction false} TotalAppend(a: Grid, b: Grid)
    ensures Total(a + b) == Total(a) + Total(b)
  {
    if |a| > 0 {
      assert (a + b)[1..] == a[1..] + b;
      TotalAppend(a[1..], b);
    } else {
      assert a + b == b;
    }
  }

  /** Summing a prefix one row further adds that row. */
  lemma TotalPrefixStep(g: Grid, i: nat)
    requires i < |g|
    ensures Total(g[..i + 1]) == Total(g[..i]) + RowTotal(g[i])
  {
    assert g[..i + 1] == g[..i] + [g[i]];
    TotalAppend(g[..i], [g[i]]);
  }

  /** Summing a row prefix one cell further adds that cell. */
  lemma RowTotalPrefixStep(row: seq<int>, j: nat)
    requires j < |row|
    ensures RowTotal(row[..j + 1]) == RowTotal(row[..j]) + row[j]
  {
    assert row[..j + 1] == row[..j] + [row[j]];
    RowTotalAppend(row[..j], [row[j]]);
  }
}
