/**
 * The rules of the flu-grid simulator (FluTransmission/FluTransmission.cpp),
 * stated on values: a grid is a sequence of rows of cells, the sick-day
 * counters form a second grid of the same shape, and the generator is the
 * seed it holds. A cell equal to 1 is sick; every other value is healthy.
 * The array methods in module Simulator are proved against these functions.
 */
module Epidemic {
  import opened Rng
  import opened Grids

  /** The run's parameters: the globals at FluTransmission.cpp:4-9. */
  datatype Params = Params(height: nat, width: nat, alpha: real, beta: real, omega: int, numDays: nat)

  /** The values the program is compiled with. */
  const Defaults: Params := Params(15, 20, 0.1, 0.3, 3, 10)

  /** Everything one day's update reads and writes: the current grid, the
      sick-day counters and the generator's seed. */
  datatype State = State(grid: Grid, sickDays: Grid, seed: Seed)

  /** The next value of one cell and of its counter. */
  datatype Cell = Cell(state: int, counter: int)

  predicate IsShape(g: Grid, h: nat, w: nat)
  {
    |g| == h && forall i :: 0 <= i < h ==> |g[i]| == w
  }

  predicate ZeroOne(g: Grid)
  {
    forall i, j :: 0 <= i < |g| && 0 <= j < |g[i]| ==> g[i][j] == 0 || g[i][j] == 1
  }

  predicate WellShaped(st: State, h: nat, w: nat)
  {
    IsShape(st.grid, h, w) && IsShape(st.sickDays, h, w)
  }

  /** The random test both rules use: the draw reduced modulo 1000, against a threshold. */
  predicate Below(draw: nat, threshold: real)
  {
    ((draw % 1000) as real) < threshold
  }

  // ---------------------------------------------------------------------
  // Initialisation (FluTransmission.cpp:19-26)

  /** One cell of the initial grid: sick when the draw falls below `alpha * 1000`. */
  function InitCell(draw: nat, alpha: real): (v: int)
    ensures v == 0 || v == 1
  {
    if Below(draw, alpha * 1000.0) then 1 else 0
  }

  /** One row of the initial grid, whose first cell uses draw `first`. */
  function InitialRow(w: nat, alpha: real, s: Seed, first: nat): (row: seq<int>)
    ensures |row| == w && forall j :: 0 <= j < w ==> row[j] == 0 || row[j] == 1
  {
    var row := seq(w, j requires 0 <= j < w => InitCell(Draw(s, first + j), alpha));
    assert forall j :: 0 <= j < w ==> row[j] == InitCell(Draw(s, first + j), alpha);
    row
  }

  /** The initial grid: one draw per cell, taken in row-major order. */
  function InitialGrid(h: nat, w: nat, alpha: real, s: Seed): (g: Grid)
    ensures IsShape(g, h, w) && ZeroOne(g)
  {
    seq(h, i requires 0 <= i < h => InitialRow(w, alpha, s, i * w))
  }

  function Zeros(h: nat, w: nat): (g: Grid)
    ensures IsShape(g, h, w)
    ensures forall i, j :: 0 <= i < h && 0 <= j < w ==> g[i][j] == 0
  {
    seq(h, i requires 0 <= i < h => seq(w, j requires 0 <= j < w => 0))
  }

  /** With `alpha <= 0` a cell never starts sick; with `alpha >= 1` it always does,
      because a draw reduced modulo 1000 lies in [0, 999]. */
  lemma {:induction false} InitCellExtremes(draw: nat, alpha: real)
    ensures alpha <= 0.0 ==> InitCell(draw, alpha) == 0
    ensures alpha >= 1.0 ==> InitCell(draw, alpha) == 1
  {
    assert 0.0 <= ((draw % 1000) as real) <= 999.0;
  }

  /** With `alpha <= 0` nobody starts sick; with `alpha >= 1` everybody does. */
  lemma {:induction false} InitialGridExtremes(h: nat, w: nat, alpha: real, s: Seed)
    ensures alpha <= 0.0 ==> InitialGrid(h, w, alpha, s) == Zeros(h, w)
    ensures alpha >= 1.0 ==> forall i, j :: 0 <= i < h && 0 <= j < w ==> InitialGrid(h, w, alpha, s)[i][j] == 1
  {
    var g := InitialGrid(h, w, alpha, s);
    forall i, j | 0 <= i < h && 0 <= j < w
      ensures alpha <= 0.0 ==> g[i][j] == 0
      ensures alpha >= 1.0 ==> g[i][j] == 1
    {
      InitCellExtremes(Draw(s, i * w + j), alpha);
    }
    if alpha <= 0.0 {
      forall i | 0 <= i < h
        ensures g[i] == Zeros(h, w)[i]
      {
      }
    }
  }

  // ---------------------------------------------------------------------
  // The daily update of one cell (FluTransmission.cpp:45-65)

  /** A sick cell: its counter goes up by one; at `omega` or more it recovers and the
      counter is reset to 0, otherwise it stays sick. */
  function SickStep(counter: int, omega: int): (c: Cell)
    ensures c.state == 0 || c.state == 1
    ensures c.state == 0 <==> counter + 1 >= omega
    ensures c.state == 0 ==> c.counter == 0
    ensures c.state == 1 ==> c.counter == counter + 1
  {
    var days := counter + 1;
    if days >= omega then Cell(0, 0) else Cell(1, days)
  }

  /** A healthy cell with `n` sick neighbours: infected when the draw falls below
      `beta * n * 1000`, and then its counter starts at 1; otherwise it stays
      healthy and its counter is left as it was. */
  function HealthyStep(counter: int, n: nat, beta: real, draw: nat): (c: Cell)
    ensures c.state == 0 || c.state == 1
    ensures n == 0 ==> c == Cell(0, counter)
    ensures beta * (n as real) * 1000.0 > 999.0 ==> c == Cell(1, 1)
    ensures c.state == 1 ==> c.counter == 1
    ensures c.state == 0 ==> c.counter == counter
  {
    assert 0.0 <= ((draw % 1000) as real) <= 999.0;
    if Below(draw, beta * (n as real) * 1000.0) then Cell(1, 1) else Cell(0, counter)
  }

  /** The number of sick cells directly above, below, left and right of (i, j),
      counting only those inside the grid. */
  function SickNeighbours(g: Grid, h: nat, w: nat, i: nat, j: nat): (n: nat)
    requires IsShape(g, h, w) && i < h && j < w
    ensures n <= 4
  {
    (if i > 0 && g[i - 1][j] == 1 then 1 else 0)
    + (if i < h - 1 && g[i + 1][j] == 1 then 1 else 0)
    + (if j > 0 && g[i][j - 1] == 1 then 1 else 0)
    + (if j < w - 1 && g[i][j + 1] == 1 then 1 else 0)
  }

  /** The von Neumann neighbourhood of (i, j), as coordinates (some may lie outside the grid). */
  function Around(i: int, j: int): set<(int, int)>
  {
    {(i - 1, j), (i + 1, j), (i, j - 1), (i, j + 1)}
  }

  predicate Inside(p: (int, int), h: nat, w: nat)
  {
    0 <= p.0 < h && 0 <= p.1 < w
  }

  /** The sick neighbours of (i, j) that lie inside the grid. */
  ghost function SickAround(g: Grid, h: nat, w: nat, i: nat, j: nat): set<(int, int)>
    requires IsShape(g, h, w)
  {
    set p | p in Around(i, j) && Inside(p, h, w) && g[p.0][p.1] == 1
  }

  /** `{p}` when `c` holds, otherwise the empty set. */
  function Pick(c: bool, p: (int, int)): set<(int, int)>
  {
    if c then {p} else {}
  }

  lemma {:induction false} SickAroundParts(g: Grid, h: nat, w: nat, i: nat, j: nat)
    requires IsShape(g, h, w) && i < h && j < w
    ensures SickAround(g, h, w, i, j) ==
      Pick(i > 0 && g[i - 1][j] == 1, (i - 1, j)) + Pick(i < h - 1 && g[i + 1][j] == 1, (i + 1, j))
      + Pick(j > 0 && g[i][j - 1] == 1, (i, j - 1)) + Pick(j < w - 1 && g[i][j + 1] == 1, (i, j + 1))
  {
  }

  lemma {:induction false} PartsCardinality(a: bool, b: bool, c: bool, d: bool, i: int, j: int)
    ensures |Pick(a, (i - 1, j)) + Pick(b, (i + 1, j)) + Pick(c, (i, j - 1)) + Pick(d, (i, j + 1))|
      == (if a then 1 else 0) + (if b then 1 else 0) + (if c then 1 else 0) + (if d then 1 else 0)
  {
    var s1 := Pick(a, (i - 1, j));
    var s2 := s1 + Pick(b, (i + 1, j));
    var s3 := s2 + Pick(c, (i, j - 1));
    assert (i + 1, j) !in s1;
    assert (i, j - 1) !in s2;
    assert (i, j + 1) !in s3;
  }

  /** The count is the number of sick cells in the neighbourhood that lie inside the grid:
      a neighbour off the edge is never counted, and none is counted twice. */
  lemma {:induction false} SickNeighboursCount(g: Grid, h: nat, w: nat, i: nat, j: nat)
    requires IsShape(g, h, w) && i < h && j < w
    ensures SickNeighbours(g, h, w, i, j) == |SickAround(g, h, w, i, j)|
  {
    SickAroundParts(g, h, w, i, j);
    PartsCardinality(i > 0 && g[i - 1][j] == 1, i < h - 1 && g[i + 1][j] == 1,
                     j > 0 && g[i][j - 1] == 1, j < w - 1 && g[i][j + 1] == 1, i, j);
  }

  // ---------------------------------------------------------------------
  // Which draw each healthy cell uses

  /** The healthy cells among row[0..j]. */
  function HealthyInRow(row: seq<int>, j: nat): nat
    requires j <= |row|
  {
    if j == 0 then 0 else HealthyInRow(row, j - 1) + (if row[j - 1] == 1 then 0 else 1)
  }

  /** The healthy cells in rows 0..i-1. */
  function HealthyInRows(g: Grid, i: nat): nat
    requires i <= |g|
  {
    if i == 0 then 0 else HealthyInRows(g, i - 1) + HealthyInRow(g[i - 1], |g[i - 1]|)
  }

  /** How many draws the update has made when it reaches (i, j): one per healthy
      cell before it in row-major order, none for a sick one. */
  function DrawIndex(g: Grid, i: nat, j: nat): nat
    requires i < |g| && j <= |g[i]|
  {
    HealthyInRows(g, i) + HealthyInRow(g[i], j)
  }

  lemma {:induction false} HealthyInRowMonotone(row: seq<int>, j: nat, k: nat)
    requires j <= k <= |row|
    ensures HealthyInRow(row, j) <= HealthyInRow(row, k)
  {
    if j < k {
      HealthyInRowMonotone(row, j, k - 1);
    }
  }

  lemma {:induction false} HealthyInRowsMonotone(g: Grid, i: nat, k: nat)
    requires i <= k <= |g|
    ensures HealthyInRows(g, i) <= HealthyInRows(g, k)
  {
    if i < k {
      HealthyInRowsMonotone(g, i, k - 1);
    }
  }

  /** Each healthy cell uses its own draw, and they are taken in row-major order:
      a healthy cell strictly before another one has a strictly smaller draw index,
      and every healthy cell's index is below the number of draws the update makes. */
  lemma {:induction false} DrawIndexOrdered(g: Grid, h: nat, w: nat, i: nat, j: nat, i': nat, j': nat)
    requires IsShape(g, h, w) && i < h && j < w && i' < h && j' < w
    requires g[i][j] != 1
    requires i < i' || (i == i' && j < j')
    ensures DrawIndex(g, i, j) < DrawIndex(g, i', j')
    ensures DrawIndex(g, i, j) < HealthyInRows(g, h)
  {
    HealthyInRowMonotone(g[i], j + 1, w);
    HealthyInRowsMonotone(g, i + 1, h);
    if i == i' {
      HealthyInRowMonotone(g[i], j + 1, j');
    } else {
      HealthyInRowsMonotone(g, i + 1, i');
    }
  }

  // ---------------------------------------------------------------------
  // The daily update of the whole grid (FluTransmission.cpp:42-68)

  /** The next value and counter of cell (i, j). */
  function NextCell(st: State, h: nat, w: nat, beta: real, omega: int, i: nat, j: nat): (c: Cell)
    requires WellShaped(st, h, w) && i < h && j < w
    ensures c.state == 0 || c.state == 1
    ensures st.grid[i][j] == 1 ==> (c.state == 0 <==> st.sickDays[i][j] + 1 >= omega)
    ensures st.grid[i][j] != 1 && SickNeighbours(st.grid, h, w, i, j) == 0 ==> c == Cell(0, st.sickDays[i][j])
    ensures c.state == 1 && st.grid[i][j] != 1 ==> c.counter == 1
  {
    if st.grid[i][j] == 1 then
      SickStep(st.sickDays[i][j], omega)
    else
      HealthyStep(st.sickDays[i][j], SickNeighbours(st.grid, h, w, i, j), beta, Draw(st.seed, DrawIndex(st.grid, i, j)))
  }

  /** One day: every cell's next value and counter, computed from the current grid
      only, and the seed after one draw per healthy cell. */
  function Update(st: State, h: nat, w: nat, beta: real, omega: int): (r: State)
    requires WellShaped(st, h, w)
    ensures WellShaped(r, h, w) && ZeroOne(r.grid)
  {
    State(
      seq(h, i requires 0 <= i < h =>
        seq(w, j requires 0 <= j < w => NextCell(st, h, w, beta, omega, i, j).state)),
      seq(h, i requires 0 <= i < h =>
        seq(w, j requires 0 <= j < w => NextCell(st, h, w, beta, omega, i, j).counter)),
      SeedAfter(st.seed, HealthyInRows(st.grid, h)))
  }

  /** A sick cell takes no draw: its next value and counter depend only on its own
      counter and on `omega`. It recovers (to 0, counter 0) exactly when the incremented
      counter reaches `omega`, and otherwise stays sick with the incremented counter. */
  lemma {:induction false} SickCellTransition(st: State, h: nat, w: nat, beta: real, omega: int, i: nat, j: nat, s': Seed)
    requires WellShaped(st, h, w) && i < h && j < w
    requires st.grid[i][j] == 1
    ensures var r := Update(st, h, w, beta, omega);
      var c := st.sickDays[i][j];
      && (r.grid[i][j] == 0 <==> c + 1 >= omega)
      && (r.grid[i][j] == 0 ==> r.sickDays[i][j] == 0)
      && (r.grid[i][j] == 1 ==> r.sickDays[i][j] == c + 1)
    ensures NextCell(st, h, w, beta, omega, i, j) == NextCell(st.(seed := s'), h, w, beta, omega, i, j)
  {
  }

  /** A healthy cell takes exactly one draw. With no sick neighbour it stays healthy,
      whatever `beta` and the draw; when `beta * n * 1000` exceeds 999 it is certainly
      infected. A newly sick cell's counter is 1; a cell that stays healthy keeps its counter. */
  lemma {:induction false} HealthyCellTransition(st: State, h: nat, w: nat, beta: real, omega: int, i: nat, j: nat)
    requires WellShaped(st, h, w) && i < h && j < w
    requires st.grid[i][j] != 1
    ensures var r := Update(st, h, w, beta, omega);
      var n := SickNeighbours(st.grid, h, w, i, j);
      && DrawIndex(st.grid, i, j + 1) == DrawIndex(st.grid, i, j) + 1
      && (n == 0 ==> r.grid[i][j] == 0)
      && (beta * (n as real) * 1000.0 > 999.0 ==> r.grid[i][j] == 1)
      && (r.grid[i][j] == 1 ==> r.sickDays[i][j] == 1)
      && (r.grid[i][j] == 0 ==> r.sickDays[i][j] == st.sickDays[i][j])
  {
    var r := Update(st, h, w, beta, omega);
    var d := Draw(st.seed, DrawIndex(st.grid, i, j));
    assert 0.0 <= ((d % 1000) as real) <= 999.0;
    assert r.grid[i][j] == NextCell(st, h, w, beta, omega, i, j).state;
  }

  // ---------------------------------------------------------------------
  // The counter bookkeeping invariant

  /** Counters of sick cells never exceed this bound minus one. */
  function CounterBound(omega: int): int
  {
    if omega < 2 then 2 else omega
  }

  /** Cells are 0 or 1, a healthy cell's counter is 0 and a sick cell's counter lies in
      [0, CounterBound(omega)). The initial state has it (its counters are all 0). */
  ghost predicate Consistent(st: State, h: nat, w: nat, omega: int)
  {
    && WellShaped(st, h, w)
    && ZeroOne(st.grid)
    && forall i, j :: 0 <= i < h && 0 <= j < w ==>
         if st.grid[i][j] == 0 then st.sickDays[i][j] == 0
         else 0 <= st.sickDays[i][j] < CounterBound(omega)
  }

  /** The update keeps the counters consistent with the grid, and after it every sick
      cell has a counter of at least 1. */
  lemma {:induction false} UpdatePreservesConsistency(st: State, h: nat, w: nat, beta: real, omega: int)
    requires Consistent(st, h, w, omega)
    ensures var r := Update(st, h, w, beta, omega);
      && Consistent(r, h, w, omega)
      && forall i, j :: 0 <= i < h && 0 <= j < w && r.grid[i][j] == 1 ==> r.sickDays[i][j] >= 1
  {
    var r := Update(st, h, w, beta, omega);
    forall i, j | 0 <= i < h && 0 <= j < w
      ensures if r.grid[i][j] == 0 then r.sickDays[i][j] == 0
              else 1 <= r.sickDays[i][j] < CounterBound(omega)
    {
      assert r.grid[i][j] == NextCell(st, h, w, beta, omega, i, j).state;
      assert r.sickDays[i][j] == NextCell(st, h, w, beta, omega, i, j).counter;
    }
  }

  /** There is no immunity: a cell that recovers at one update is an ordinary healthy
      cell (0, counter 0) at the next, and with a sick neighbour and `beta >= 1` it is
      certainly sick again after that. */
  lemma {:induction false} NoImmunity(st: State, h: nat, w: nat, beta: real, omega: int, i: nat, j: nat)
    requires WellShaped(st, h, w) && i < h && j < w
    requires st.grid[i][j] == 1 && st.sickDays[i][j] + 1 >= omega
    requires SickNeighbours(Update(st, h, w, beta, omega).grid, h, w, i, j) >= 1
    requires beta >= 1.0
    ensures var r := Update(st, h, w, beta, omega);
      && r.grid[i][j] == 0 && r.sickDays[i][j] == 0
      && Update(r, h, w, beta, omega).grid[i][j] == 1
      && Update(r, h, w, beta, omega).sickDays[i][j] == 1
  {
    var r := Update(st, h, w, beta, omega);
    assert r.grid[i][j] == NextCell(st, h, w, beta, omega, i, j).state;
    var n := SickNeighbours(r.grid, h, w, i, j);
    assert beta * (n as real) * 1000.0 >= 1000.0 by {
      assert (n as real) >= 1.0;
      assert beta * (n as real) >= 1.0;
    }
    HealthyCellTransition(r, h, w, beta, omega, i, j);
  }

  // ---------------------------------------------------------------------
  // The run (FluTransmission.cpp:86-100)

  /** The state after `initializeGrid`: counters all 0, one draw consumed per cell. */
  function Initial(p: Params): (st: State)
    ensures Consistent(st, p.height, p.width, p.omega)
  {
    State(InitialGrid(p.height, p.width, p.alpha, InitialSeed), Zeros(p.height, p.width),
          SeedAfter(InitialSeed, p.height * p.width))
  }

  /** The state after `d` daily updates from `st`. */
  function Iterate(p: Params, st: State, d: nat): (r: State)
    requires WellShaped(st, p.height, p.width)
    ensures WellShaped(r, p.height, p.width)
    ensures d > 0 ==> ZeroOne(r.grid)
  {
    if d == 0 then st else Update(Iterate(p, st, d - 1), p.height, p.width, p.beta, p.omega)
  }

  /** The grids the program prints: the grid after day `d + 1`'s update, for each `d`
      below `numDays`. The initial grid is not printed. */
  function Printed(p: Params): (gs: seq<Grid>)
    ensures |gs| == p.numDays
    ensures forall d :: 0 <= d < |gs| ==> IsShape(gs[d], p.height, p.width) && ZeroOne(gs[d])
  {
    seq(p.numDays, d requires 0 <= d < p.numDays => Iterate(p, Initial(p), d + 1).grid)
  }

  /** A sick cell with counter `c` stays sick, its counter rising by one per update,
      for as long as the counter stays below `omega`: after `m` updates with
      `c + m < omega` it is sick with counter `c + m`. */
  lemma {:induction false} SickSpell(p: Params, st: State, i: nat, j: nat, m: nat)
    requires WellShaped(st, p.height, p.width) && i < p.height && j < p.width
    requires st.grid[i][j] == 1 && st.sickDays[i][j] + m < p.omega
    ensures Iterate(p, st, m).grid[i][j] == 1
    ensures Iterate(p, st, m).sickDays[i][j] == st.sickDays[i][j] + m
  {
    if m > 0 {
      SickSpell(p, st, i, j, m - 1);
      SickCellTransition(Iterate(p, st, m - 1), p.height, p.width, p.beta, p.omega, i, j, st.seed);
    }
  }

  /** ... and it recovers at the update that brings the counter to `omega`: a cell with
      counter `c < omega` is healthy with counter 0 after `omega - c` updates. So when
      `omega >= 2` a newly infected cell (counter 1) is sick for `omega - 1` days; when
      `omega <= 1` its counter already reaches `omega` at the next update, so it is sick
      for one day (SickCellTransition). */
  lemma {:induction false} RecoversAfter(p: Params, st: State, i: nat, j: nat)
    requires WellShaped(st, p.height, p.width) && i < p.height && j < p.width
    requires st.grid[i][j] == 1 && 0 <= st.sickDays[i][j] < p.omega
    ensures var r := Iterate(p, st, p.omega - st.sickDays[i][j]);
      r.grid[i][j] == 0 && r.sickDays[i][j] == 0
  {
    var m := p.omega - st.sickDays[i][j] - 1;
    SickSpell(p, st, i, j, m);
    SickCellTransition(Iterate(p, st, m), p.height, p.width, p.beta, p.omega, i, j, st.seed);
  }

  /** Every state of the run is consistent, and after the first update every sick
      cell's counter is at least 1. */
  lemma {:induction false} RunConsistent(p: Params, d: nat)
    ensures Consistent(Iterate(p, Initial(p), d), p.height, p.width, p.omega)
    ensures d > 0 ==> var st := Iterate(p, Initial(p), d);
      forall i, j :: 0 <= i < p.height && 0 <= j < p.width && st.grid[i][j] == 1 ==> st.sickDays[i][j] >= 1
  {
    if d > 0 {
      RunConsistent(p, d - 1);
      UpdatePreservesConsistency(Iterate(p, Initial(p), d - 1), p.height, p.width, p.beta, p.omega);
    }
  }
}
