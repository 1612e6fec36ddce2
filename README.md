# Conway's Game of Life on a torus, in Dafny

This project models the core of a console Game of Life written in C#
(`Life/Program.cs`). The model covers the following parts.

- **The rule and the cell** (`Rule.dfy`). Rule B3/S23 is a pure function.
  The C# `Cell` class is a Dafny class with a current state, a pending
  state and a list of neighbour cells. `DetermineNextLiveState` writes
  only the pending state and `Advance` commits it.
- **The board as a value** (`Torus.dfy`). A `Grid` is `columns` lists of
  `rows` flags, indexed `alive[x][y]` like `Cells[x, y]`. The module also
  holds:
  - C#'s truncating integer division, which sizes the board;
  - the neighbour list that `ConnectNeighbors` wires for each cell: eight
    entries, top-left to bottom-right, wrapping at every edge;
  - one synchronous generation `Step`, and `Generation` for n steps;
  - the live count, the randomised grid and the grid after a pattern is
    stamped onto it.
- **The board object** (`Life.dfy`, class `Board`). The cells' current and
  pending states are two `array2<bool>`s.
  - The constructor and `Randomize` fill them.
  - `Advance` runs the two passes cell by cell: first every cell
    determines its next state, then every cell commits it. It is proved
    to leave `Step` of the old grid.
  - `ToState` and `FromState` convert to and from the row-major snapshot
    of `Snapshots.dfy`.
- **The program's operations on a board** (`Life.dfy`): `CountAliveCells`,
  the cell loop of `LoadPattern`, the row loop of `LoadFromTxt`, and the
  queue loop of `ResearchStability`.
  - `ResearchStability` is proved to return the first generation at which
    the last `stablePeriod` live counts are equal, or -1.
  - The window logic it uses is in `Stability.dfy`.
- **The text format** (`TextFormat.dfy`). This is the lines `SaveAsTxt`
  writes and `LoadFromTxt` reads: `Width=`, `Height=` and `CellSize=`
  headers, then one line of `*` and `.` per row. Every exception the
  loader can raise on malformed lines is modelled as an error result. The
  exceptions are an index out of range, a format error, an overflow and a
  division by zero. The overflow covers a header value outside the `int`
  range, a negative board size, and `int.MinValue / -1`, whose quotient
  2^31 is not an `int`.

Some facts the model makes explicit:
- **Degenerate boards.** On a board one cell wide, a cell is its own left
  and right neighbour. On a board one cell tall, it is its own top and
  bottom neighbour. So a lone live cell survives a generation exactly when
  the board is one cell wide or one cell tall, but not both.
  `Torus.LoneCellFate` proves this.
- **Larger boards.** On a board of at least 3 × 3, the eight neighbours
  are eight different cells and a lone cell dies.
- **Division.** C# division truncates toward zero. A negative quotient
  (for example `new Board(-20, 10, 10)`) would make the array allocation
  throw, and so does `int.MinValue / -1`. So the constructor requires both
  quotients to be array lengths: `int`s that are not negative
  (`Torus.IsLength`). A negative cell size with negative dimensions is a
  legal board.
- **Width and height fit.** `Columns` is the truncated `width / cellSize`,
  so `Columns * CellSize` has the sign of `width` and is no larger in
  magnitude. The `int` products `Width` and `Height` therefore never
  overflow on a board built from `int` arguments (`Torus.WidthFits`, used
  by the `Board` constructor). So `TextFormat.TextRoundTrip`'s
  requirement that the header values fit in an `int` holds for every such
  board, and the model does not wrap these products to 32 bits.
- **Zero period.** With a `stablePeriod` of 0, the queue is empty after
  the first dequeue, so generation 0 is already stable. The model agrees.

## Model

| member | source | states |
|---|---|---|
| Rule.NextAlive | Life/Program.cs:33-36 | a dead cell is born iff it has 3 live neighbours; a live cell survives with 2 or 3 and dies with fewer than 2 or more than 3 |
| Rule.LiveCount | Life/Program.cs:32 | the live count of a neighbour list is at most its length (a cell listed twice counts twice) |
| Rule.LiveCountAppend | Life/Program.cs:32 | appending a cell to a list adds 1 to its live count iff that cell is alive |
| Rule.Cell.constructor | Life/Program.cs:25-29 | a new cell has the given state, a false pending state and no neighbours |
| Rule.Cell.AddNeighbor | Life/Program.cs:126-133 | `neighbors.Add` appends the cell at the end of the list and changes nothing else |
| Rule.Cell.DetermineNextLiveState | Life/Program.cs:30-37 | the pending state becomes true iff (alive and 2 or 3 live neighbours) or (dead and exactly 3); only the pending state changes |
| Rule.Cell.Advance | Life/Program.cs:38-41 | the current state becomes the pending state; the pending state and the neighbour list are untouched |
| Rule.CellTests | TestProject1/UnitTest1.cs:37-70 | the cell tests, with the overpopulation test of lines 113-125: a live cell with 3 live neighbours survives, one with 1 or 8 dies, and a dead cell with 3 is born, after `DetermineNextLiveState` and `Advance` |
| Rule.CellWithNeighbors | TestProject1/UnitTest1.cs:39-41 | a fresh cell whose neighbour list holds `live` live and `dead` dead cells, none of them itself, has exactly `live` live neighbours |
| Torus.CSharpDiv | Life/Program.cs:91 | the quotient truncates toward zero: it equals Euclidean division on non-negative operands, its magnitude is the floor of the magnitudes' quotient, and it is negative only when the signs differ |
| Torus.WidthFits | Life/Program.cs:84-91 | when `width` is an `int`, `(width / cellSize) * cellSize` is one too, for every cell size the constructor accepts |
| Torus.CSharpDivMul | Life/Program.cs:84-91 | dividing `columns * cellSize` by `cellSize` gives back `columns` for any non-zero cell size, so a snapshot's width and height rebuild the same board size |
| Torus.Neighbors | Life/Program.cs:120-133 | every cell gets exactly 8 neighbour entries, all on the board |
| Torus.NeighborsWrap | Life/Program.cs:120-133 | entry k, in the order top-left, top, top-right, left, right, bottom-left, bottom, bottom-right, is (x + dx, y + dy) taken modulo the board size |
| Torus.OffsetWrap | Life/Program.cs:120-124 | the conditional edge wrap of one coordinate agrees with the modular step by -1, 0 or +1 |
| Torus.SelfNeighbor | Life/Program.cs:120-133 | a cell is in its own neighbour list iff the board is one cell wide or one cell tall |
| Torus.NeighborsDistinct | Life/Program.cs:120-133 | on a board at least 3 × 3, the eight neighbours are pairwise different and none is the cell itself |
| Torus.CountLive | Life/Program.cs:32 | the live count over a list of board cells is at most the list's length |
| Torus.CountLive8 | Life/Program.cs:32 | the live count of an eight-entry neighbour list is the sum of its eight flags |
| Torus.LiveNeighbors | Life/Program.cs:32 | a cell has at most 8 live neighbour entries |
| Torus.Step | Life/Program.cs:107-113 | every cell of the next grid is the rule applied to that cell and its live neighbours in the previous grid only |
| Torus.Generation | Life/Program.cs:304-319 | generation n of a run, after n calls of `board.Advance()`, has the starting board's size |
| Torus.GenerationNext | Life/Program.cs:304-319 | generation n + 1 of a run is one step on from generation n |
| Torus.LoneCount | TestProject1/UnitTest1.cs:150-159 | with one live cell, a cell's live-neighbour count is the number of times that cell occurs in its neighbour list |
| Torus.LoneCellFate | Life/Program.cs:120-133 | a lone live cell survives one generation iff exactly one of the board's dimensions is 1 |
| Torus.LoneNeighbors | TestProject1/UnitTest1.cs:150-159 | with one live cell on a board at least 3 × 3, every cell sees at most one live neighbour and is dead in the next generation |
| Torus.LoneCellDiesOut | TestProject1/UnitTest1.cs:150-159 | a lone live cell on a board at least 3 × 3 leaves an all-dead board |
| Torus.FullNeighborhood | TestProject1/UnitTest1.cs:72-81 | on a full board every cell has 8 live neighbour entries |
| Torus.FullBoardDies | TestProject1/UnitTest1.cs:72-81 | a full board is all dead one generation later; when the board has at least one cell, its live count drops from a positive number to 0, so it changes |
| Torus.CountTrue | Life/Program.cs:280-282 | the live count of a column is at most its length |
| Torus.CountColumnsBound | Life/Program.cs:277-284 | the count over columns of `rows` flags is at most columns × rows |
| Torus.AliveCount | Life/Program.cs:277-284 | the live count of a grid lies in [0, columns × rows] |
| Torus.CountTrueExtremes | Life/Program.cs:280-282 | an all-false column counts 0 and an all-true column counts its length |
| Torus.CountColumnsDead | TestProject1/UnitTest1.cs:95-101 | a grid with no live flag counts 0 |
| Torus.CountColumnsFull | TestProject1/UnitTest1.cs:160-173 | a grid of all live flags counts columns × rows |
| Torus.AliveCountExtremes | TestProject1/UnitTest1.cs:95-101 | a dead board counts 0 and a full board counts columns × rows |
| Torus.Randomized | Life/Program.cs:101-105 | each cell is alive iff its draw is below the density |
| Torus.RandomizedExtremes | TestProject1/UnitTest1.cs:160-173 | density 0 gives 0 live cells and density 1 gives columns × rows, whatever draws in [0, 1) the random source yields |
| Torus.Stamp | Life/Program.cs:261-273 | a board cell covered by a pattern character becomes alive iff that character is '*'; every other cell, including the whole board when the pattern lies outside it, keeps its state |
| Torus.StampIdempotent | Life/Program.cs:261-273 | loading the same pattern at the same offset twice gives the board that loading it once gives |
| Snapshots.StateOf | Life/Program.cs:57-78 | the snapshot has width columns × cellSize, height rows × cellSize, `Rows` rows of `Columns` entries, and entry [y][x] is the flag of cell (x, y) |
| Snapshots.Loadable | Life/Program.cs:45-56 | `FromState` raises no exception: a non-zero cell size, both quotients array lengths, and, when there is a column to copy, at least `Rows` rows of at least `Columns` entries |
| Snapshots.LoadableMeans | Life/Program.cs:47-55 | a snapshot is loadable iff its board size can be allocated and every entry `state.Cells[y][x]` the copy loop reads exists |
| Snapshots.GridOfState | Life/Program.cs:45-56 | the rebuilt grid has width / cellSize columns and height / cellSize rows (C# division), and cell (x, y) takes entry [y][x] |
| Snapshots.StateRoundTrip | TestProject1/UnitTest1.cs:84-93 | for any board with a non-zero cell size and `int` dimensions (as `Columns` and `Rows` are), its snapshot is loadable, keeps the cell size, and rebuilds exactly the same grid |
| TextFormat.DigitChar | Life/Program.cs:233-235 | digit d prints as the character d places after '0' |
| TextFormat.NatToString | Life/Program.cs:233-235 | a natural number prints as a non-empty string of decimal digits |
| TextFormat.IntToString | Life/Program.cs:233-235 | a non-negative int prints as decimal digits only; a negative one prints as a '-' followed by at least one digit and nothing but digits |
| TextFormat.DigitsValueOfNat | Life/Program.cs:212-214 | reading back the printed digits of n gives n |
| TextFormat.ParseInt | Life/Program.cs:212-214 | a successfully parsed value is a 32-bit int |
| TextFormat.ParseIntToString | Life/Program.cs:212-214 | parsing the printed form of any 32-bit int gives that int back |
| TextFormat.Split | Life/Program.cs:212-214 | splitting always yields at least one piece |
| TextFormat.SplitPieces | Life/Program.cs:212-214 | no piece contains the separator, so `Width=10=5` gives the three pieces `Width`, `10` and `5` |
| TextFormat.JoinSplit | Life/Program.cs:212-214 | joining the pieces with the separator gives the string back, so splitting drops nothing but the separators |
| TextFormat.SplitNone | Life/Program.cs:212-214 | a string without the separator splits into itself |
| TextFormat.SplitPair | Life/Program.cs:212-214 | `key=value` with no other '=' splits into exactly [key, value] |
| TextFormat.HeaderValue | Life/Program.cs:212-214 | a header value read from a line is a 32-bit int, and a line without '=' raises an index out of range (there is no second piece) |
| TextFormat.HeaderOf | Life/Program.cs:212-214 | the value of a header line `Key=<n>` is n, whatever the key |
| TextFormat.RowLine | Life/Program.cs:239-244 | a row line has one character per column, '*' exactly for live cells and '.' otherwise |
| TextFormat.SaveLines | Life/Program.cs:233-245 | the saved lines are the three headers `Width=`, `Height=`, `CellSize=` followed by one row line per board row |
| TextFormat.ParseHeader | Life/Program.cs:212-216 | success means three lines whose header values are the result, a non-zero cell size and quotients that are array lengths (non-negative `int`s); fewer than three lines fail; once all three headers parse, a zero cell size is a division by zero, and otherwise it succeeds iff both quotients are array lengths and fails with an overflow when not (a negative quotient, or `int.MinValue / -1`) |
| TextFormat.GridOfLines | Life/Program.cs:218-225 | cell (x, y) is alive iff character x of line 3 + y is '*' (any other character means dead) |
| TextFormat.ParseLines | Life/Program.cs:210-225 | on success, the board keeps the header's cell size and has width / cellSize columns and height / cellSize rows (C# division), every row line exists and is long enough, and cell (x, y) is alive iff line 3 + y has '*' at x; a header error is passed on unchanged; after good headers it fails, with an index out of range, exactly when a row line is missing or short |
| TextFormat.SavedHeaderValues | Life/Program.cs:233-235 | each of the three saved header lines reads back as the value it was written with |
| TextFormat.SavedHeader | Life/Program.cs:212-216 | the saved headers parse to the board's width, height and cell size, and dividing them gives its columns and rows back |
| TextFormat.TextRoundTrip | Life/Program.cs:210-245 | loading the saved lines of any board with `int` dimensions whose header values fit in an int gives back its cell size and exactly its grid |
| Stability.Slide | Life/Program.cs:308-310 | after an enqueue and at most one dequeue, the queue is the old queue plus the new count, or that without its head, and it never grows past the period |
| Stability.Window | Life/Program.cs:301-310 | the queue after a history of counts holds its last min(length, period) counts, oldest first |
| Stability.WindowSlide | Life/Program.cs:306-310 | sliding one more count into the window of a history gives the window of the longer history |
| Stability.Settled | Life/Program.cs:312 | the queue test `Count == stablePeriod && All(x => x == Peek())` holds iff the queue holds `stablePeriod` counts that are pairwise equal |
| Stability.SettledIffStable | Life/Program.cs:312 | the full-and-constant queue test after generation g holds iff generations g - period + 1 .. g all have the same count |
| Stability.NoneStableBeforeMeans | Life/Program.cs:304-316 | the running "no stable generation yet" condition holds iff every earlier generation is unstable |
| Stability.StableAtPrefix | Life/Program.cs:304-316 | whether a generation is stable depends only on the counts up to it |
| Stability.NoneStablePrefix | Life/Program.cs:304-316 | whether no generation before n is stable depends only on the counts before n |
| Stability.NoneStableExtend | Life/Program.cs:304-316 | a new unstable generation extends "no stable generation yet" by one |
| Stability.FirstStableUnique | Life/Program.cs:302-316 | the result of the search is unique: at most one generation is the first stable one, and -1 excludes all |
| Life.ZeroDraws | Life/Program.cs:47 | the all-zero draws are valid draws for the board size |
| Life.Board.Columns | Life/Program.cs:82 | the column count, which the current and pending arrays of a valid board share |
| Life.Board.Rows | Life/Program.cs:83 | the row count, which the current and pending arrays of a valid board share |
| Life.Board.Width | Life/Program.cs:84 | `Columns * CellSize`, which divided by a non-zero cell size (C# division) gives back `Columns` |
| Life.Board.Height | Life/Program.cs:85 | `Rows * CellSize`, which divided by a non-zero cell size (C# division) gives back `Rows` |
| Life.Board.Cells | Life/Program.cs:79-83 | the grid value has the array's dimensions and cell (x, y)'s flag |
| Life.Board.NextCells | Life/Program.cs:29 | the pending-state grid has the array's dimensions and cell (x, y)'s pending flag |
| Life.Board.constructor | Life/Program.cs:87-98 | for a non-zero cell size whose quotients are array lengths, the board has width / cellSize columns and height / cellSize rows (C# division), keeps the cell size, is randomised with the given draws, all pending states start false, and `Width` and `Height` are `int`s when `width` and `height` are |
| Life.Board.Randomize | Life/Program.cs:101-105 | every cell is alive iff its draw is below the density |
| Life.Board.CountLiveAt | Life/Program.cs:32 | the live count of a list of board cells, read off the array, is at most the list's length |
| Life.Board.CountLiveAtAgrees | Life/Program.cs:32 | counting live cells on the array agrees with the grid count |
| Life.Board.DetermineNextLiveState | Life/Program.cs:30-37 | cell (x, y)'s pending state becomes the rule applied to its current state and its live neighbours; no other pending state changes |
| Life.Board.AdvanceCell | Life/Program.cs:38-41 | cell (x, y)'s current state becomes its pending state; no other current state changes |
| Life.Board.DetermineColumn | Life/Program.cs:109-110 | the pending states of column x become the next generation's states of that column; other columns' pending states are untouched |
| Life.Board.DetermineAll | Life/Program.cs:109-110 | the first pass leaves in the pending states exactly `Step` of the current grid, without changing the current grid |
| Life.Board.AdvanceAll | Life/Program.cs:111-112 | the second pass makes the current grid equal to the pending grid |
| Life.Board.Advance | Life/Program.cs:107-113 | after both passes the grid is `Step` of the old grid, so no cell's new state depends on an already updated neighbour |
| Life.Board.ToState | Life/Program.cs:57-78 | the snapshot has `Rows` rows of `Columns` entries with entry [y][x] = cell (x, y), width `Width`, height `Height` and the cell size |
| Life.Board.FromState | Life/Program.cs:45-56 | the rebuilt board has size width / cellSize × height / cellSize, the snapshot's cell size, and cell (x, y) taken from entry [y][x] |
| Life.CountColumnsPrefix | Life/Program.cs:280-282 | counting one more column adds that column's live count |
| Life.CountTruePrefix | Life/Program.cs:280-282 | counting one more cell adds 1 iff it is alive |
| Life.CountAliveCells | Life/Program.cs:277-284 | the counter ends at the number of live cells, which lies in [0, Columns × Rows] |
| Life.LoadPattern | Life/Program.cs:260-273 | the board becomes the stamped grid: in-bounds cells under the pattern take '*' as alive, and every other cell is unchanged |
| Life.ReadRow | Life/Program.cs:220-224 | the row completes iff the line has at least `Columns` characters, and then cell (x, y) is alive iff character x is '*'; other rows are untouched |
| Life.ReadRows | Life/Program.cs:218-225 | the row loop completes iff every row line is present and long enough, and then the board is the grid those lines describe |
| Life.LoadFromTxt | Life/Program.cs:210-225 | loading fails exactly when parsing the lines fails, with the same exception; otherwise it yields a fresh board with the parsed cell size and grid |
| Life.LiveCounts | Life/Program.cs:306 | the history of a run of n generations has n counts |
| Life.LiveCountsAt | Life/Program.cs:306 | entry i of the history is the live count of generation i |
| Life.LiveCountsPrefix | Life/Program.cs:304-306 | the history of a shorter run is a prefix of that of a longer one |
| Life.FirstStableFound | Life/Program.cs:312-316 | a stable generation with no stable one before it is the first stable generation of every longer run |
| Life.RecordStep | Life/Program.cs:306-312 | one more count slides the window correctly, the queue test on it is the stability of the new generation, and an unstable one extends "no stable generation yet" |
| Life.AdvanceRun | Life/Program.cs:318 | `board.Advance()` on generation n of a run leaves generation n + 1 |
| Life.ObserveGeneration | Life/Program.cs:306-312 | when the queue test passes, generation n is the first stable generation of the run; when it fails, the queue is the window of the counts up to n and none of generations 0 .. n is stable |
| Life.ResearchEnds | Life/Program.cs:304 | a run that reaches its last generation with no stable one found has none |
| Life.ResearchStep | Life/Program.cs:304-319 | one loop turn either stops at the first stable generation with the board on it, or advances the board one generation with the loop state kept |
| Life.SizeTest | TestProject1/UnitTest1.cs:11-17 | `new Board(100, 100, 10)` has cell size 10, 10 columns and 10 rows |
| Life.LonelyCellTest | TestProject1/UnitTest1.cs:150-159 | the lone live cell (1, 1) of a 3 × 3 board is dead after `Advance` |
| Life.FullBoardCountTest | TestProject1/UnitTest1.cs:72-76 | a board randomised at density 1.0 counts all of its 100 cells before the advance |
| Life.FullBoardAdvanceTest | TestProject1/UnitTest1.cs:72-81 | after `Advance` a full 10 × 10 board counts 0, so the count changes |
| Life.SnapshotTest | TestProject1/UnitTest1.cs:84-93 | `ToState` gives `Rows` rows of `Columns` entries, and `FromState` of it has the same cells |
| Life.DensityTest | TestProject1/UnitTest1.cs:160-173 | randomising at density 0 counts 0 and at density 1 counts `Columns × Rows`, for any draws |
| Life.ResearchStability | Life/Program.cs:301-319 | the result is the first generation below `maxGenerations` whose last `stablePeriod` live counts are all equal, or -1 when there is none; the board is left on that generation, or on generation `maxGenerations` |

## Left out

- Console output, `Render`, `Main`, the key handling and `Thread.Sleep`: these are user interface and timing.
- `GetSourceDirectory`, `File.Exists`, `File.ReadAllLines`, `StreamWriter` and the "not found" and "saved" messages: the loaders and the saver take and return lines of text instead.
- `Reset` and `BoardConfig`: JSON deserialisation is a library call. The commented-out JSON `Save` and `Load` are not part of the program.
- `System.Random`: the draws it would yield are a parameter (`draws[x][y]` in [0, 1), drawn column by column) and its state is not modelled.
- `double`: densities and draws are idealised as reals.
- `ResearchStability`'s density list, its fresh 100 × 100 board per density and its CSV output. The model runs the generation loop on a board it is given and returns the generation it would write.
- The `List<Cell>` neighbour references of each cell: `ConnectNeighbors`'s wiring is the pure function `Torus.Neighbors`, which the board's cell operations consult. The C# `Cell` with an explicit list is modelled on its own in `Rule.Cell`, for the cell-level behaviour its unit tests check. Its live count `Rule.LiveCount` is not proved equal to the board's count `Torus.CountLive`: the board model has no `Cell` objects to relate it to.
- Life.Board.constructor: it requires a non-zero cell size and quotients that are non-negative `int`s, because the source throws `DivideByZeroException` or `OverflowException` there (a negative array length, or `int.MinValue / -1`). The model has no board for those inputs. `Snapshots.Loadable` and `TextFormat.ParseHeader` reject the same inputs.
- TextFormat.GridOfLines, TextFormat.ParseLines, Life.ReadRow, Life.ReadRows, Torus.Stamp, Life.LoadPattern: a line is a sequence of Unicode scalar values, while C#'s `line[x]` and `Length` count UTF-16 code units. A character outside the Basic Multilingual Plane is one position here and two in C#, so on lines holding such characters the model's row lengths, and the columns it reads or stamps, differ from the source's.
- Life.Board.FromState: a snapshot with a missing row or a short row while there are columns to copy, where C# throws `ArgumentOutOfRangeException` at `state.Cells[y][x]`, is excluded by the requires (`Snapshots.Loadable`). The model has no board for it.
- `Randomize_ShouldCreateSomeAliveCells` (density 0.5 gives some live cells) depends on what the random source yields, so it is not modelled. `Life.DensityTest` covers densities 0 and 1, which hold for any draws.
- TextFormat.ParseInt: it accepts only an optional sign followed by decimal digits. The leading and trailing white space and the culture-specific signs that `int.Parse` also accepts are not modelled.
- Life.LoadFromTxt: in the source, rows already read stay in the newly assigned global board when a later row throws. The model returns only the error, because the partially loaded board is not observable through its result.
- Overflow of `x + offsetX` in `LoadPattern` is not modelled: coordinates are unbounded integers.
