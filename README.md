# Flu transmission on a grid, modelled in Dafny

This project models the two programs of the flu-transmission repository.

- The simulator (`FluTransmission/FluTransmission.cpp`) keeps a `15 × 20` grid of people, each either sick (`1`) or healthy (`0`), and a matching grid of sick-day counters.
  - Its own linear-congruential generator `customRand` supplies the random numbers.
  - `initializeGrid` makes each cell sick with probability `alpha`.
  - Each day, `updateGrid` reads the current grid and writes the next one:
    - a sick cell counts one more sick day and recovers once the count reaches `omega`;
    - a healthy cell is infected when a draw modulo 1000 falls below `beta × (sick neighbours) × 1000`.
  - `main` then writes the new grid to the output file under a `Day <d>:` header and swaps the two grid pointers.
- The visualiser's reader `read_flu_data` (`fluVis.py`) reads that file back into one grid per day.

## Modules

- `Wrappers`: `Option` and `Result`.
- `Grids`: the grid type shared by the simulator and the reader.
- `Rng`:
  - the generator's recurrence as functions of the seed (`Advance`, `Output`, `SeedAfter`, `Draw`, `Draws`);
  - the static seed as the field of a `Generator` object.
- `Epidemic`: the pure rules, on `seq<seq<int>>` grids.
  - the initial grid;
  - one cell's transition;
  - the neighbour count;
  - which draw each healthy cell consumes;
  - a whole day's update (`Update`), which is the specification of `updateGrid`;
  - the run and the grids it prints.
- `Report`: the text layout `printGridToFile` produces, as a sequence of lines, and the whole output file (`Log`).
- `Simulator`:
  - `initializeGrid` and `updateGrid` as methods on `array2<int>`, proved against `Epidemic`;
  - the day loop of `main` (`Simulate`), with its pointer swap, proved to write exactly `Report.Log(Printed(p))`.
- `FluVis`:
  - `read_flu_data` as a loop over the file's lines (`ReadFluData`);
  - its specification `ReadFluDataSpec`: classify each line, cut the rows at the headers, and drop empty groups.
- `FluVisProperties`: what the reader promises, and the writer/reader round trip.
- `EndToEnd`: the file the simulator writes is read back as exactly the grids it printed.

## Behaviour of the code worth knowing

These facts about the code are easy to get wrong when thinking of a textbook SIR (susceptible, infected, recovered) model:

- **Initialisation.** There is no fixed number of initially sick cells. `initializeGrid` draws once per cell, in row-major order, and makes the cell sick when `draw % 1000 < alpha·1000` (FluTransmission/FluTransmission.cpp:20-23). The counters are zeroed at allocation (cpp:82), so initially sick cells start with counter 0 (`Epidemic.Initial`).
- **No recovered state.** A cell is only `1` (sick) or anything else (healthy). Recovery writes `0` and resets the counter to 0 (cpp:47-49). A recovered cell then goes through the healthy branch like any other (cpp:55-64), so it can be infected again (`Epidemic.NoImmunity`).
- **Length of a sick spell.**
  - A newly infected cell starts at counter 1 (cpp:64). It recovers at the update whose incremented counter reaches `omega` (cpp:46-47).
  - When `omega >= 2`, such a cell is sick in `omega - 1` printed grids (`Epidemic.SickSpell`, `Epidemic.RecoversAfter`). When `omega <= 1`, it is sick in one printed grid and recovers at the next update (`Epidemic.SickCellTransition`).
  - A cell sick from the start has counter 0, so it recovers at update number `max(omega, 1)` (`Epidemic.RecoversAfter` for `omega >= 1`).
- **Printing.** The initial grid is never printed. Each day's loop prints the grid the update just produced, labelled `Day 0` to `Day numDays-1` (cpp:89-94; `Epidemic.Printed`, `Simulator.Simulate`).
- **Random scaling.** Every random test reduces a draw modulo 1000 and compares it with the probability times 1000 (cpp:22-23, 62-63).
- **One thread, one generator.** The program is single-threaded. Every draw comes from the one static seed of `customRand` (cpp:12-16), in row-major order of the cells that consume one.

## Model

| member | source | states |
|---|---|---|
| Rng.Generator.Next | FluTransmission/FluTransmission.cpp:12-16 | one call advances the 32-bit seed by `seed·1103515245 + 12345 mod 2^32` and returns `(seed / 65536) % 32768` of the new seed, a value below 32768 |
| Rng.Generator.constructor | FluTransmission/FluTransmission.cpp:13 | the static seed starts at 123456789 |
| Rng.AdvanceWraps | FluTransmission/FluTransmission.cpp:14 | the new seed is congruent to `seed·1103515245 + 12345` modulo 2^32 and lies below 2^32: the `unsigned int` arithmetic wraps |
| Rng.Output | FluTransmission/FluTransmission.cpp:15 | every value returned lies in [0, 32767] |
| Rng.SeedAfterAdd | FluTransmission/FluTransmission.cpp:12-15 | `a` calls followed by `b` calls leave the seed where `a + b` calls do: all callers read one shared stream |
| Rng.DrawShift | FluTransmission/FluTransmission.cpp:12-15 | the `k`-th value after `a` calls is the `(a + k)`-th value of the stream |
| Rng.DrawsSplit | FluTransmission/FluTransmission.cpp:12-15 | the values of `a + b` calls are those of the first `a` calls followed by those of the next `b` |
| Rng.FirstDraws | FluTransmission/FluTransmission.cpp:12-16 | from the program's seed, the first three calls return 3536, 17195 and 26824 |
| Epidemic.InitialGrid | FluTransmission/FluTransmission.cpp:19-26 | the initial grid has the requested shape and holds only 0 and 1 |
| Epidemic.InitialGridExtremes | FluTransmission/FluTransmission.cpp:19-25 | with `alpha <= 0` nobody starts sick; with `alpha >= 1` everybody does |
| Epidemic.InitCellExtremes | FluTransmission/FluTransmission.cpp:22-23 | a single cell's draw modulo 1000 never meets a threshold of 0 or less, and always meets one of 1000 or more |
| Simulator.InitializeGrid | FluTransmission/FluTransmission.cpp:19-26 | the array ends up equal to `InitialGrid` of the entry seed, cell `(i, j)` using draw `i·width + j`, and the seed advances by `height·width` calls |
| Simulator.InitializeRow | FluTransmission/FluTransmission.cpp:21-24 | row `i` takes the next `width` draws in order, each cell sick exactly when its draw passes the `alpha` test; no other row changes |
| Epidemic.SickNeighbours | FluTransmission/FluTransmission.cpp:56-60 | the neighbour count is at most 4 |
| Epidemic.SickNeighboursCount | FluTransmission/FluTransmission.cpp:56-60 | the count equals the number of sick cells among the four von Neumann neighbours that lie inside the grid: no cell outside the grid is counted, none twice |
| Epidemic.SickStep | FluTransmission/FluTransmission.cpp:46-53 | a sick cell recovers exactly when its incremented counter reaches `omega`; it then has value 0 and counter 0, and otherwise value 1 and the incremented counter |
| Epidemic.HealthyStep | FluTransmission/FluTransmission.cpp:62-64 | with no sick neighbour the cell stays healthy and keeps its counter; with `beta·n·1000 > 999` it is certainly infected, with counter 1; an infected cell's counter is 1 and a cell that stays healthy keeps its counter |
| Epidemic.NextCell | FluTransmission/FluTransmission.cpp:45-65 | the next value is 0 or 1; a sick cell recovers exactly when its incremented counter reaches `omega`; a healthy cell with no sick neighbour stays healthy with its counter; a newly infected cell has counter 1 |
| Epidemic.DrawIndexOrdered | FluTransmission/FluTransmission.cpp:43-62 | healthy cells take distinct draws in row-major order, each before the update's last draw |
| Epidemic.SickCellTransition | FluTransmission/FluTransmission.cpp:45-53 | a sick cell recovers (value 0, counter 0) exactly when its incremented counter reaches `omega`, otherwise stays sick with the incremented counter; its outcome does not depend on the seed |
| Epidemic.HealthyCellTransition | FluTransmission/FluTransmission.cpp:55-64 | a healthy cell takes exactly one draw; with no sick neighbour it stays healthy; with `beta·n·1000 > 999` it is certainly infected; if infected its counter becomes 1, otherwise the counter is unchanged |
| Epidemic.Update | FluTransmission/FluTransmission.cpp:42-68 | the next day keeps the grid's shape and holds only 0 and 1 |
| Epidemic.UpdatePreservesConsistency | FluTransmission/FluTransmission.cpp:45-64 | if cells are 0/1, healthy counters are 0 and sick counters lie below `max(omega, 2)` before an update, the same holds after it, and every sick cell then has a counter of at least 1 |
| Epidemic.NoImmunity | FluTransmission/FluTransmission.cpp:45-64 | a cell that recovers is healthy with counter 0 at the next day, and with a sick neighbour and `beta >= 1` it is sick again the day after |
| Epidemic.SickSpell | FluTransmission/FluTransmission.cpp:45-53 | a sick cell stays sick, its counter rising by one per day, while the counter stays below `omega` |
| Epidemic.RecoversAfter | FluTransmission/FluTransmission.cpp:46-49 | a sick cell with counter `c < omega` is healthy with counter 0 after `omega - c` days |
| Simulator.CountSickNeighbours | FluTransmission/FluTransmission.cpp:56-60 | the count computed in place equals `SickNeighbours` of the current grid |
| Simulator.UpdateCell | FluTransmission/FluTransmission.cpp:45-65 | one cell of `newGrid` and `sickDays` gets its `NextCell` value, all other cells are unchanged, and the seed advances by one call exactly when the cell was healthy |
| Simulator.UpdateRow | FluTransmission/FluTransmission.cpp:44-66 | row `i` of `newGrid` and `sickDays` gets its `NextCell` values, other rows are unchanged, and the seed advances by the row's number of healthy cells |
| Simulator.UpdateGrid | FluTransmission/FluTransmission.cpp:42-68 | `grid` is left unchanged; `newGrid`, `sickDays` and the seed become the next day computed by `Update` from the old grid, counters and seed |
| Epidemic.Initial | FluTransmission/FluTransmission.cpp:82-86 | the state after allocation and initialisation satisfies the counter invariant |
| Epidemic.Iterate | FluTransmission/FluTransmission.cpp:89-91 | every state of the run keeps the grid's shape and, after at least one update, holds only 0 and 1 |
| Epidemic.Printed | FluTransmission/FluTransmission.cpp:89-100 | one grid per day, `numDays` grids, each of the grid's shape with values 0 and 1 |
| Epidemic.RunConsistent | FluTransmission/FluTransmission.cpp:86-100 | the counter invariant holds on every day of the run, and after the first update every sick cell has a counter of at least 1 |
| Simulator.Simulate | FluTransmission/FluTransmission.cpp:70-100 | the output file's lines are exactly the `Day d:` block of each updated grid in order: the grid read on each day is the one written on the day before (pointer swap) |
| Report.GridLines | FluTransmission/FluTransmission.cpp:29-39 | one call writes one header line plus one line per row |
| Report.IntToString | FluTransmission/FluTransmission.cpp:31-34 | how `<<` writes an `int`: a leading `-` exactly for a negative value, and decimal digits otherwise; never an empty text |
| Report.Header | FluTransmission/FluTransmission.cpp:31 | the header line starts with `Day ` and ends with `:` |
| Report.RowLine | FluTransmission/FluTransmission.cpp:33-36 | a row's line is empty exactly when the row is, ends with a space otherwise, and has at least two characters per value |
| Report.Log | FluTransmission/FluTransmission.cpp:72-100 | the truncated file then one block per day: at least one line per day, and the first line is `Day 0:` |
| Report.LogSnoc | FluTransmission/FluTransmission.cpp:89-94 | printing one more grid appends that grid's block, numbered with the next day, to the file |
| Report.LogLength | FluTransmission/FluTransmission.cpp:89-100 | with every grid `h` rows high, the file has `h + 1` lines per day |
| FluVis.ReadFluData | fluVis.py:5-22 | the reader loop returns exactly `ReadFluDataSpec` of the file's lines: the maximal runs of non-header lines as grids, or the error of the first line that does not parse |
| FluVis.ReadFluDataSpec | fluVis.py:5-22 | no grid returned is empty; an error names a line inside the file that does not start with `Day` |
| FluVis.IsHeader | fluVis.py:11 | a line is a header exactly when `Day` is a prefix of it |
| FluVis.ParseIntAccepts | fluVis.py:16 | `int()` accepts no empty or whitespace-holding token; a negative value needs a leading `-`; a string of digits gives its decimal value |
| FluVis.ParseTokensValues | fluVis.py:16 | `map(int, …)` over a list of words gives one integer per word, each the value `int()` gives that word, or fails on a word `int()` rejects |
| FluVis.ParseRowValues | fluVis.py:16 | a row parses to one integer per word, each the value `int()` gives that word; a failure names a word of the line that `int()` rejects |
| FluVis.Classify | fluVis.py:10-16 | a file that parses gives exactly one item per line; a failure names a line inside the file that is not a header |
| FluVis.HeaderClosesGrid | fluVis.py:11-14 | a header line appends the grid being built to the result when it is non-empty and starts a new, empty one |
| FluVis.RowExtendsGrid | fluVis.py:15-16 | a row line is appended to the grid being built and leaves the grids already returned as they are |
| FluVis.ReadingRuns | fluVis.py:18-22 | at the end of the file, the grids returned are those already closed plus the grid being built when it is non-empty |
| FluVis.ClassifyErrorPersists | fluVis.py:10-16 | once a line fails to parse, reading stops with that error whatever follows |
| FluVis.NonEmpty | fluVis.py:12-14 | no grid the reader returns is empty |
| FluVis.SplitWords | fluVis.py:16 | every word `split()` returns is non-empty and free of whitespace |
| FluVisProperties.ClassifyLines | fluVis.py:10-16 | a file that parses gives one item per line: a header for each line starting with `Day`, the line's integers for every other line; a failure names the first bad line, which is not a header |
| FluVisProperties.HeaderSeparates | fluVis.py:11-14 | a header adds no row and closes the group being built: the grids around it are those before it followed by those after it, and leading or repeated headers yield no empty grid |
| FluVisProperties.FinalGroupEmitted | fluVis.py:18-20 | the last group of rows is returned even though no header follows it |
| FluVisProperties.RunsKeepRows | fluVis.py:10-20 | grouping loses, adds and reorders no row |
| FluVisProperties.ReadKeepsRows | fluVis.py:5-22 | each non-header line becomes exactly one row, its integers, in file order, and no returned grid is empty |
| FluVisProperties.ParseIntRoundTrip | fluVis.py:16 | `int()` reads back any integer as `<<` writes it, and the text holds no whitespace |
| FluVisProperties.RowLineRoundTrip | FluTransmission/FluTransmission.cpp:33-36 | a row written as values each followed by a space is read back as that row, and is never taken for a header |
| FluVisProperties.GridLinesItems | FluTransmission/FluTransmission.cpp:31-36 | the lines of one day's block read as a header followed by one row item per grid row |
| FluVisProperties.LogRoundTrip | fluVis.py:5-22 | reading a file written by one `printGridToFile` call per grid gives back those grids in order, when each has at least one row |
| EndToEnd.SimulationReadBack | FluTransmission/FluTransmission.cpp:89-100 | for a grid of at least one row, the reader returns exactly the grids the simulator printed, one per day, in order |
| EndToEnd.DefaultRun | FluTransmission/FluTransmission.cpp:4-9 | with the compiled-in values, the file has 10 blocks of 16 lines and reads back as the 10 printed grids |

## Left out

- File I/O is not modelled. This covers truncating and appending to `flu_simulation.txt`, opening and closing it, and iterating over the file's lines. A file is a sequence of lines without their terminators, and `Simulate` returns the lines it would write.
- Heap allocation and `delete[]` of the row arrays are not modelled. Each grid is one `array2<int>`. The rows of `newGrid` are uninitialised in the code, but every cell is written before it is read, so they are left at Dafny's default.
- `alpha` and `beta` are real numbers. The IEEE double rounding of `alpha * 1000` and `beta * n * 1000` is not modelled.
- Cells and counters are unbounded integers, so 32-bit overflow is not modelled. `Epidemic.RunConsistent` shows that the counters stay below `max(omega, 2)` throughout a run, so they never approach the 32-bit limit.
- The global constants (15 × 20, `alpha = 0.1`, `beta = 0.3`, `omega = 3`, 10 days) are parameters of `Simulate`. `Epidemic.Defaults` records the program's values, and `EndToEnd.DefaultRun` is stated for them.
- `animate_flu_data`, matplotlib, and the conversion of each group to a numpy array are not modelled. The reader's grids are lists of rows. A ragged group, which numpy would reject or turn into an object array, is returned as it is.
- `FluVis.ParseIntAccepts`: `int()` is modelled as an optional sign followed by ASCII digits. Underscores between digits and non-ASCII digits are not accepted.
- `FluVis.SplitWords`: `str.split()` is modelled with ASCII whitespace only. Unicode whitespace is not recognised.
- `EndToEnd.SimulationReadBack` requires at least one row. A run on a grid with no rows writes only headers, and the reader then returns no grids at all.
