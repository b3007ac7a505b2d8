/**
 * The simulator's procedures over its arrays (FluTransmission/FluTransmission.cpp):
 * `initializeGrid`, `updateGrid` and the day loop of `main`. The three
 * `int**` arrays become `array2<int>`, the static seed of `customRand` a
 * `Generator` object, and the output file the sequence of lines written to it.
 * Each procedure is proved against the functions of module Epidemic.
 */
module Simulator {
  import opened Rng
  import opened Grids
  import opened Epidemic
  import Report

  /** The values an array holds, row by row. */
  function Snapshot(a: array2<int>): (g: Grid)
    reads a
    ensures IsShape(g, a.Length0, a.Length1)
    ensures forall i, j :: 0 <= i < a.Length0 && 0 <= j < a.Length1 ==> g[i][j] == a[i, j]
  {
    seq(a.Length0, i requires 0 <= i < a.Length0 reads a =>
      seq(a.Length1, j requires 0 <= j < a.Length1 reads a => a[i, j]))
  }

  lemma SnapshotIs(a: array2<int>, g: Grid)
    requires IsShape(g, a.Length0, a.Length1)
    requires forall i, j :: 0 <= i < a.Length0 && 0 <= j < a.Length1 ==> a[i, j] == g[i][j]
    ensures Snapshot(a) == g
  {
    var s := Snapshot(a);
    forall i | 0 <= i < a.Length0
      ensures s[i] == g[i]
    {
    }
  }

  /** `initializeGrid`: one draw per cell in row-major order; the cell becomes sick
      when the draw modulo 1000 is below `alpha * 1000`. */
  method InitializeGrid(grid: array2<int>, alpha: real, rng: Generator)
    modifies grid, rng
    ensures Snapshot(grid) == InitialGrid(grid.Length0, grid.Length1, alpha, old(rng.seed))
    ensures rng.seed == SeedAfter(old(rng.seed), grid.Length0 * grid.Length1)
  {
    var height, width := grid.Length0, grid.Length1;
    ghost var s0 := rng.seed;
    for i := 0 to height
      invariant rng.seed == SeedAfter(s0, i * width)
      invariant forall i', j' :: 0 <= i' < i && 0 <= j' < width ==>
        grid[i', j'] == InitCell(Draw(s0, i' * width + j'), alpha)
    {
      InitializeRow(grid, alpha, rng, i, s0);
      assert i * width + width == (i + 1) * width;
    }
    ghost var g := InitialGrid(height, width, alpha, s0);
    assert forall i, j :: 0 <= i < height && 0 <= j < width ==> g[i][j] == InitCell(Draw(s0, i * width + j), alpha);
    SnapshotIs(grid, g);
  }

  /** The inner loop of `initializeGrid` for row `i`: the cells of that row take
      the next `width` draws in order, and no other row changes. */
  method InitializeRow(grid: array2<int>, alpha: real, rng: Generator, i: nat, ghost s0: Seed)
    requires i < grid.Length0
    requires rng.seed == SeedAfter(s0, i * grid.Length1)
    modifies grid, rng
    ensures rng.seed == SeedAfter(s0, i * grid.Length1 + grid.Length1)
    ensures forall j :: 0 <= j < grid.Length1 ==> grid[i, j] == InitCell(Draw(s0, i * grid.Length1 + j), alpha)
    ensures forall i', j :: 0 <= i' < grid.Length0 && i' != i && 0 <= j < grid.Length1 ==> grid[i', j] == old(grid[i', j])
  {
    var width := grid.Length1;
    ghost var base := i * width;
    for j := 0 to width
      invariant rng.seed == SeedAfter(s0, base + j)
      invariant forall j' :: 0 <= j' < j ==> grid[i, j'] == InitCell(Draw(s0, base + j'), alpha)
      invariant forall i', j' :: 0 <= i' < grid.Length0 && i' != i && 0 <= j' < width ==> grid[i', j'] == old(grid[i', j'])
    {
      var r := rng.Next();
      var randVal := r % 1000;
      grid[i, j] := if (randVal as real) < alpha * 1000.0 then 1 else 0;
    }
  }

  /** The neighbour count of `updateGrid` for a healthy cell (i, j): the four
      orthogonal neighbours that lie inside the grid and are sick. */
  method CountSickNeighbours(grid: array2<int>, i: nat, j: nat) returns (n: nat)
    requires i < grid.Length0 && j < grid.Length1
    ensures n == SickNeighbours(Snapshot(grid), grid.Length0, grid.Length1, i, j)
  {
    var height, width := grid.Length0, grid.Length1;
    n := 0;
    if i > 0 && grid[i - 1, j] == 1 { n := n + 1; }
    if i < height - 1 && grid[i + 1, j] == 1 { n := n + 1; }
    if j > 0 && grid[i, j - 1] == 1 { n := n + 1; }
    if j < width - 1 && grid[i, j + 1] == 1 { n := n + 1; }
  }

  /** The body of the two loops of `updateGrid` for one cell (i, j): a sick cell
      counts one more day and recovers after `omega` days; a healthy cell counts its
      sick neighbours inside the grid and draws once. Only cell (i, j) of `newGrid`
      and `sickDays` changes. */
  method UpdateCell(grid: array2<int>, newGrid: array2<int>, sickDays: array2<int>,
                    beta: real, omega: int, rng: Generator, i: nat, j: nat, ghost st: State)
    requires newGrid.Length0 == sickDays.Length0 == grid.Length0
    requires newGrid.Length1 == sickDays.Length1 == grid.Length1
    requires grid != newGrid && grid != sickDays && newGrid != sickDays
    requires i < grid.Length0 && j < grid.Length1
    requires WellShaped(st, grid.Length0, grid.Length1) && Snapshot(grid) == st.grid
    requires sickDays[i, j] == st.sickDays[i][j]
    requires rng.seed == SeedAfter(st.seed, DrawIndex(st.grid, i, j))
    modifies newGrid, sickDays, rng
    ensures Cell(newGrid[i, j], sickDays[i, j]) == NextCell(st, grid.Length0, grid.Length1, beta, omega, i, j)
    ensures forall i', j' :: 0 <= i' < grid.Length0 && 0 <= j' < grid.Length1 && (i', j') != (i, j) ==>
      newGrid[i', j'] == old(newGrid[i', j'])
    ensures forall i', j' :: 0 <= i' < grid.Length0 && 0 <= j' < grid.Length1 && (i', j') != (i, j) ==>
      sickDays[i', j'] == old(sickDays[i', j'])
    ensures rng.seed == SeedAfter(st.seed, DrawIndex(st.grid, i, j + 1))
  {
    var height, width := grid.Length0, grid.Length1;
    ghost var g := st.grid;
    assert grid[i, j] == g[i][j];
    assert DrawIndex(g, i, j + 1) == DrawIndex(g, i, j) + if g[i][j] == 1 then 0 else 1;
    if grid[i, j] == 1 {
      sickDays[i, j] := sickDays[i, j] + 1;
      if sickDays[i, j] >= omega {
        newGrid[i, j] := 0;
        sickDays[i, j] := 0;
      } else {
        newGrid[i, j] := 1;
      }
      assert Cell(newGrid[i, j], sickDays[i, j]) == SickStep(st.sickDays[i][j], omega);
    } else {
      var sickNeighbours := CountSickNeighbours(grid, i, j);

      var r := rng.Next();
      assert r == Draw(st.seed, DrawIndex(g, i, j));
      var randVal := r % 1000;
      var infected := (randVal as real) < beta * (sickNeighbours as real) * 1000.0;
      newGrid[i, j] := if infected then 1 else 0;
      if newGrid[i, j] == 1 {
        sickDays[i, j] := 1;
      }
      HealthyStepIs(st.sickDays[i][j], sickNeighbours, beta, r, infected);
      assert Cell(newGrid[i, j], sickDays[i, j]) == HealthyStep(st.sickDays[i][j], sickNeighbours, beta, r);
    }
  }

  /** The inner loop of `updateGrid` over row i: every cell of the row gets its next
      value and counter, the other rows are left alone. */
  method UpdateRow(grid: array2<int>, newGrid: array2<int>, sickDays: array2<int>,
                   beta: real, omega: int, rng: Generator, i: nat, ghost st: State)
    requires newGrid.Length0 == sickDays.Length0 == grid.Length0
    requires newGrid.Length1 == sickDays.Length1 == grid.Length1
    requires grid != newGrid && grid != sickDays && newGrid != sickDays
    requires i < grid.Length0
    requires WellShaped(st, grid.Length0, grid.Length1) && Snapshot(grid) == st.grid
    requires forall j :: 0 <= j < grid.Length1 ==> sickDays[i, j] == st.sickDays[i][j]
    requires rng.seed == SeedAfter(st.seed, HealthyInRows(st.grid, i))
    modifies newGrid, sickDays, rng
    ensures forall j :: 0 <= j < grid.Length1 ==>
      Cell(newGrid[i, j], sickDays[i, j]) == NextCell(st, grid.Length0, grid.Length1, beta, omega, i, j)
    ensures forall i', j :: 0 <= i' < grid.Length0 && 0 <= j < grid.Length1 && i' != i ==>
      newGrid[i', j] == old(newGrid[i', j])
    ensures forall i', j :: 0 <= i' < grid.Length0 && 0 <= j < grid.Length1 && i' != i ==>
      sickDays[i', j] == old(sickDays[i', j])
    ensures rng.seed == SeedAfter(st.seed, HealthyInRows(st.grid, i + 1))
  {
    var height, width := grid.Length0, grid.Length1;
    for j := 0 to width
      invariant rng.seed == SeedAfter(st.seed, DrawIndex(st.grid, i, j))
      invariant forall j' :: 0 <= j' < j ==>
        Cell(newGrid[i, j'], sickDays[i, j']) == NextCell(st, height, width, beta, omega, i, j')
      invariant forall j' :: j <= j' < width ==> sickDays[i, j'] == st.sickDays[i][j']
      invariant forall i', j' :: 0 <= i' < height && 0 <= j' < width && i' != i ==>
        newGrid[i', j'] == old(newGrid[i', j'])
      invariant forall i', j' :: 0 <= i' < height && 0 <= j' < width && i' != i ==>
        sickDays[i', j'] == old(sickDays[i', j'])
    {
      UpdateCell(grid, newGrid, sickDays, beta, omega, rng, i, j, st);
    }
  }

  /** `updateGrid`: reads `grid` only, writes the next day into `newGrid`, updates the
      counters in `sickDays` in place and draws once per healthy cell. */
  method UpdateGrid(grid: array2<int>, newGrid: array2<int>, sickDays: array2<int>,
                    beta: real, omega: int, rng: Generator)
    requires newGrid.Length0 == sickDays.Length0 == grid.Length0
    requires newGrid.Length1 == sickDays.Length1 == grid.Length1
    requires grid != newGrid && grid != sickDays && newGrid != sickDays
    modifies newGrid, sickDays, rng
    ensures Snapshot(grid) == old(Snapshot(grid))
    ensures var next := Update(State(old(Snapshot(grid)), old(Snapshot(sickDays)), old(rng.seed)),
                               grid.Length0, grid.Length1, beta, omega);
      Snapshot(newGrid) == next.grid && Snapshot(sickDays) == next.sickDays && rng.seed == next.seed
  {
    var height, width := grid.Length0, grid.Length1;
    ghost var st := State(Snapshot(grid), Snapshot(sickDays), rng.seed);
    for i := 0 to height
      invariant Snapshot(grid) == st.grid
      invariant rng.seed == SeedAfter(st.seed, HealthyInRows(st.grid, i))
      invariant forall i', j :: 0 <= i' < i && 0 <= j < width ==>
        Cell(newGrid[i', j], sickDays[i', j]) == NextCell(st, height, width, beta, omega, i', j)
      invariant forall i', j :: i <= i' < height && 0 <= j < width ==> sickDays[i', j] == st.sickDays[i'][j]
    {
      UpdateRow(grid, newGrid, sickDays, beta, omega, rng, i, st);
    }
    ghost var next := Update(st, height, width, beta, omega);
    SnapshotIs(newGrid, next.grid);
    SnapshotIs(sickDays, next.sickDays);
  }

  /** The outcome of the healthy-cell test, as `updateGrid` writes it. */
  lemma HealthyStepIs(counter: int, n: nat, beta: real, draw: nat, infected: bool)
    requires infected == Below(draw, beta * (n as real) * 1000.0)
    ensures HealthyStep(counter, n, beta, draw) == if infected then Cell(1, 1) else Cell(0, counter)
  {
  }

  /** Printing one more day's grid extends the log by that grid's block. */
  lemma LogStep(p: Params, day: nat)
    requires day < p.numDays
    ensures Report.Log(Printed(p)[..day + 1])
         == Report.Log(Printed(p)[..day]) + Report.GridLines(Iterate(p, Initial(p), day + 1).grid, day)
  {
    var g := Iterate(p, Initial(p), day + 1).grid;
    assert Printed(p)[..day + 1] == Printed(p)[..day] + [g];
    Report.LogSnoc(Printed(p)[..day], g);
  }

  /** The body of `main`: allocate the three arrays (the counters zeroed), initialise
      the grid, then for each day update, print the new grid, and swap the two grid
      references so that the grid just written is the one read next. The result is
      the text of the output file, which `main` first truncates. */
  method Simulate(p: Params) returns (log: seq<string>)
    ensures log == Report.Log(Printed(p))
  {
    var grid := new int[p.height, p.width];
    var newGrid := new int[p.height, p.width];
    var sickDays := new int[p.height, p.width]((i, j) => 0);
    var rng := new Generator();
    InitializeGrid(grid, p.alpha, rng);
    SnapshotIs(sickDays, Zeros(p.height, p.width));
    log := [];
    for day := 0 to p.numDays
      invariant grid.Length0 == newGrid.Length0 == sickDays.Length0 == p.height
      invariant grid.Length1 == newGrid.Length1 == sickDays.Length1 == p.width
      invariant grid != newGrid && grid != sickDays && newGrid != sickDays
      invariant fresh(grid) && fresh(newGrid)
      invariant State(Snapshot(grid), Snapshot(sickDays), rng.seed) == Iterate(p, Initial(p), day)
      invariant log == Report.Log(Printed(p)[..day])
    {
      ghost var cur := Iterate(p, Initial(p), day);
      UpdateGrid(grid, newGrid, sickDays, p.beta, p.omega, rng);
      ghost var next := Update(cur, p.height, p.width, p.beta, p.omega);
      assert next == Iterate(p, Initial(p), day + 1);
      LogStep(p, day);
      log := log + Report.GridLines(Snapshot(newGrid), day);
      grid, newGrid := newGrid, grid;
    }
    assert Printed(p)[..p.numDays] == Printed(p);
  }
}
