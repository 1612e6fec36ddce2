/**
 * The board object and the program-level operations on it (Life/Program.cs,
 * classes Board and Program). Cell (x, y) of the board is the pair of array
 * entries `isAlive[x, y]` (its current state) and `isAliveNext[x, y]` (its
 * pending state); its neighbour list is `Torus.Neighbors(x, y, ...)`.
 */
module Life {
  import opened Wrappers
  import opened Rule
  import opened Torus
  import opened Snapshots
  import opened TextFormat
  import opened Stability

  /** Draws of 0.0 for every cell of a columns × rows board. Any draws give
      the same board at density 0, and a loader overwrites every cell. */
  function ZeroDraws(columns: nat, rows: nat): (draws: seq<seq<real>>)
    ensures IsDraws(draws, columns, rows)
  {
    seq(columns, _ => seq(rows, _ => 0.0))
  }

  class Board {
    const cellSize: int
    const isAlive: array2<bool>
    const isAliveNext: array2<bool>

    ghost predicate Valid()
    {
      isAlive != isAliveNext &&
      isAliveNext.Length0 == isAlive.Length0 && isAliveNext.Length1 == isAlive.Length1
    }

    /** The column count, which the pending array of a valid board shares. */
    function Columns(): (columns: nat)
      ensures Valid() ==> columns == isAliveNext.Length0
    {
      isAlive.Length0
    }

    /** The row count, which the pending array of a valid board shares. */
    function Rows(): (rows: nat)
      ensures Valid() ==> rows == isAliveNext.Length1
    {
      isAlive.Length1
    }

    /** The width in pixels; dividing it by the cell size gives the columns back. */
    function Width(): (width: int)
      ensures cellSize != 0 ==> CSharpDiv(width, cellSize) == Columns()
    {
      assert cellSize != 0 ==> CSharpDiv(Columns() * cellSize, cellSize) == Columns() by {
        if cellSize != 0 {
          CSharpDivMul(Columns(), cellSize);
        }
      }
      Columns() * cellSize
    }

    /** The height in pixels; dividing it by the cell size gives the rows back. */
    function Height(): (height: int)
      ensures cellSize != 0 ==> CSharpDiv(height, cellSize) == Rows()
    {
      assert cellSize != 0 ==> CSharpDiv(Rows() * cellSize, cellSize) == Rows() by {
        if cellSize != 0 {
          CSharpDivMul(Rows(), cellSize);
        }
      }
      Rows() * cellSize
    }

    /** The current states of all cells, as a grid value. */
    function Cells(): (g: Grid)
      reads isAlive
      ensures g.Valid() && g.columns == Columns() && g.rows == Rows()
      ensures forall x, y :: 0 <= x < Columns() && 0 <= y < Rows() ==> g.alive[x][y] == isAlive[x, y]
    {
      Grid(Columns(), Rows(),
        seq(Columns(), x requires 0 <= x < Columns() reads isAlive =>
          seq(Rows(), y requires 0 <= y < Rows() reads isAlive => isAlive[x, y])))
    }

    /** The pending states of all cells, as a grid value. */
    function NextCells(): (g: Grid)
      reads isAliveNext
      ensures g.Valid() && g.columns == isAliveNext.Length0 && g.rows == isAliveNext.Length1
      ensures forall x, y :: 0 <= x < isAliveNext.Length0 && 0 <= y < isAliveNext.Length1 ==>
        g.alive[x][y] == isAliveNext[x, y]
    {
      Grid(isAliveNext.Length0, isAliveNext.Length1,
        seq(isAliveNext.Length0, x requires 0 <= x < isAliveNext.Length0 reads isAliveNext =>
          seq(isAliveNext.Length1, y requires 0 <= y < isAliveNext.Length1 reads isAliveNext => isAliveNext[x, y])))
    }

    /** `new Board(width, height, cellSize, liveDensity)`: a grid of
        width / cellSize columns and height / cellSize rows (C# division),
        randomised with the given draws; pending states start false. */
    constructor (width: int, height: int, cellSize: int, liveDensity: real, draws: seq<seq<real>>)
      requires cellSize != 0
      requires IsLength(CSharpDiv(width, cellSize)) && IsLength(CSharpDiv(height, cellSize))
      requires IsDraws(draws, CSharpDiv(width, cellSize), CSharpDiv(height, cellSize))
      ensures Valid() && fresh(isAlive) && fresh(isAliveNext)
      ensures this.cellSize == cellSize
      ensures Columns() == CSharpDiv(width, cellSize) && Rows() == CSharpDiv(height, cellSize)
      ensures Cells() == Randomized(Columns(), Rows(), draws, liveDensity)
      ensures AllDead(NextCells())
      ensures IsInt32(width) && IsInt32(height) ==> IsInt32(Width()) && IsInt32(Height())
    {
      var columns := CSharpDiv(width, cellSize);
      var rows := CSharpDiv(height, cellSize);
      if IsInt32(width) && IsInt32(height) {
        WidthFits(width, cellSize);
        WidthFits(height, cellSize);
      }
      this.cellSize := cellSize;
      isAlive := new bool[columns, rows]((_, _) => false);
      isAliveNext := new bool[columns, rows]((_, _) => false);
      new;
      Randomize(liveDensity, draws);
    }

    /** Sets every cell alive iff its draw is below `liveDensity`. */
    method Randomize(liveDensity: real, draws: seq<seq<real>>)
      requires Valid() && IsDraws(draws, Columns(), Rows())
      modifies isAlive
      ensures Cells() == Randomized(Columns(), Rows(), draws, liveDensity)
    {
      for x := 0 to Columns()
        invariant forall i, j :: 0 <= i < x && 0 <= j < Rows() ==> isAlive[i, j] == (draws[i][j] < liveDensity)
      {
        for y := 0 to Rows()
          invariant forall i, j :: 0 <= i < x && 0 <= j < Rows() ==> isAlive[i, j] == (draws[i][j] < liveDensity)
          invariant forall j :: 0 <= j < y ==> isAlive[x, j] == (draws[x][j] < liveDensity)
        {
          isAlive[x, y] := draws[x][y] < liveDensity;
        }
      }
      GridExtensionality(Cells(), Randomized(Columns(), Rows(), draws, liveDensity));
    }

    predicate Contains(c: (int, int)) {
      0 <= c.0 < Columns() && 0 <= c.1 < Rows()
    }

    /** The number of live cells among `cells`, read off the array. */
    function CountLiveAt(cells: seq<(int, int)>): (count: nat)
      reads isAlive
      requires forall k :: 0 <= k < |cells| ==> Contains(cells[k])
      ensures count <= |cells|
    {
      if cells == [] then 0
      else
        var c := cells[0];
        assert Contains(c);
        Ind(isAlive[c.0, c.1]) + CountLiveAt(cells[1..])
    }

    lemma {:induction false} CountLiveAtAgrees(cells: seq<(int, int)>)
      requires forall k :: 0 <= k < |cells| ==> Contains(cells[k])
      ensures CountLiveAt(cells) == CountLive(Cells(), cells)
    {
      if cells != [] {
        assert Contains(cells[0]);
        CountLiveAtAgrees(cells[1..]);
      }
    }

    /** Cell (x, y)'s `DetermineNextLiveState`: the rule applied to its state
        and to the live entries of its neighbour list. */
    method DetermineNextLiveState(x: int, y: int)
      requires Valid() && 0 <= x < Columns() && 0 <= y < Rows()
      modifies isAliveNext
      ensures isAliveNext[x, y] == NextAlive(isAlive[x, y], LiveNeighbors(Cells(), x, y))
      ensures forall i, j :: 0 <= i < Columns() && 0 <= j < Rows() && (i != x || j != y) ==>
        isAliveNext[i, j] == old(isAliveNext[i, j])
    {
      var neighbors := Neighbors(x, y, Columns(), Rows());
      CountLiveAtAgrees(neighbors);
      var liveNeighbors := CountLiveAt(neighbors);
      isAliveNext[x, y] := NextAlive(isAlive[x, y], liveNeighbors);
    }

    /** Cell (x, y)'s `Advance`: commits its pending state. */
    method AdvanceCell(x: int, y: int)
      requires Valid() && 0 <= x < Columns() && 0 <= y < Rows()
      modifies isAlive
      ensures isAlive[x, y] == isAliveNext[x, y]
      ensures forall i, j :: 0 <= i < Columns() && 0 <= j < Rows() && (i != x || j != y) ==>
        isAlive[i, j] == old(isAlive[i, j])
    {
      isAlive[x, y] := isAliveNext[x, y];
    }

    /** The cells of column x determine their next states, row by row. */
    method DetermineColumn(x: int)
      requires Valid() && 0 <= x < Columns()
      modifies isAliveNext
      ensures forall j :: 0 <= j < Rows() ==> isAliveNext[x, j] == Step(Cells()).alive[x][j]
      ensures forall i, j :: 0 <= i < Columns() && 0 <= j < Rows() && i != x ==>
        isAliveNext[i, j] == old(isAliveNext[i, j])
    {
      ghost var g := Cells();
      for y := 0 to Rows()
        invariant Cells() == g
        invariant forall j :: 0 <= j < y ==> isAliveNext[x, j] == Step(g).alive[x][j]
        invariant forall i, j :: 0 <= i < Columns() && 0 <= j < Rows() && i != x ==>
          isAliveNext[i, j] == old(isAliveNext[i, j])
      {
        DetermineNextLiveState(x, y);
      }
    }

    /** The first pass of `Advance`: every cell determines its next state;
        no current state changes. */
    method DetermineAll()
      requires Valid()
      modifies isAliveNext
      ensures NextCells() == Step(Cells())
    {
      ghost var g := Cells();
      for x := 0 to Columns()
        invariant Cells() == g
        invariant forall i, j :: 0 <= i < x && 0 <= j < Rows() ==> isAliveNext[i, j] == Step(g).alive[i][j]
      {
        DetermineColumn(x);
      }
      GridExtensionality(NextCells(), Step(g));
    }

    /** The second pass of `Advance`: every cell commits its pending state. */
    method AdvanceAll()
      requires Valid()
      modifies isAlive
      ensures Cells() == NextCells()
    {
      for x := 0 to Columns()
        invariant forall i, j :: 0 <= i < x && 0 <= j < Rows() ==> isAlive[i, j] == isAliveNext[i, j]
      {
        for y := 0 to Rows()
          invariant forall i, j :: 0 <= i < x && 0 <= j < Rows() ==> isAlive[i, j] == isAliveNext[i, j]
          invariant forall j :: 0 <= j < y ==> isAlive[x, j] == isAliveNext[x, j]
        {
          AdvanceCell(x, y);
        }
      }
      GridExtensionality(Cells(), NextCells());
    }

    /** One generation: first every cell determines its next state from the
        current grid, then every cell commits, so that no cell's new state
        depends on a neighbour already updated in the same generation. */
    method Advance()
      requires Valid()
      modifies isAlive, isAliveNext
      ensures Cells() == Step(old(Cells()))
      ensures NextCells() == Cells()
    {
      DetermineAll();
      AdvanceAll();
    }

    /** The row-major snapshot of the board. */
    method ToState() returns (state: BoardState)
      ensures state == StateOf(Cells(), cellSize)
      ensures state.width == Width() && state.height == Height() && state.cellSize == cellSize
      ensures |state.cells| == Rows() && forall y :: 0 <= y < Rows() ==> |state.cells[y]| == Columns()
      ensures forall x, y :: 0 <= x < Columns() && 0 <= y < Rows() ==> state.cells[y][x].isAlive == isAlive[x, y]
    {
      var cells: seq<seq<CellState>> := [];
      for y := 0 to Rows()
        invariant |cells| == y
        invariant forall j :: 0 <= j < y ==> cells[j] == StateOf(Cells(), cellSize).cells[j]
      {
        var row: seq<CellState> := [];
        for x := 0 to Columns()
          invariant |row| == x
          invariant forall i :: 0 <= i < x ==> row[i] == CellState(isAlive[i, y])
        {
          row := row + [CellState(isAlive[x, y])];
        }
        assert row == StateOf(Cells(), cellSize).cells[y];
        cells := cells + [row];
      }
      state := BoardState(Width(), Height(), cellSize, cells);
      assert state.cells == StateOf(Cells(), cellSize).cells;
    }

    /** A board rebuilt from a snapshot: `new Board(width, height, cellSize, 0)`,
        then every cell's flag overwritten from `state`. */
    static method FromState(state: BoardState) returns (board: Board)
      requires Loadable(state)
      ensures fresh(board) && fresh(board.isAlive) && fresh(board.isAliveNext) && board.Valid()
      ensures board.cellSize == state.cellSize
      ensures board.Cells() == GridOfState(state)
    {
      var columns := CSharpDiv(state.width, state.cellSize);
      var rows := CSharpDiv(state.height, state.cellSize);
      board := new Board(state.width, state.height, state.cellSize, 0.0, ZeroDraws(columns, rows));
      for y := 0 to board.Rows()
        invariant forall i, j :: 0 <= i < columns && 0 <= j < y ==> board.isAlive[i, j] == state.cells[j][i].isAlive
      {
        for x := 0 to board.Columns()
          invariant forall i, j :: 0 <= i < columns && 0 <= j < y ==> board.isAlive[i, j] == state.cells[j][i].isAlive
          invariant forall i :: 0 <= i < x ==> board.isAlive[i, y] == state.cells[y][i].isAlive
        {
          board.isAlive[x, y] := state.cells[y][x].isAlive;
        }
      }
      GridExtensionality(board.Cells(), GridOfState(state));
    }
  }

  lemma CountColumnsPrefix(columns: seq<seq<bool>>, x: nat)
    requires x < |columns|
    ensures CountColumns(columns[..x + 1]) == CountColumns(columns[..x]) + CountTrue(columns[x])
  {
    assert columns[..x + 1][..x] == columns[..x];
  }

  lemma CountTruePrefix(s: seq<bool>, y: nat)
    requires y < |s|
    ensures CountTrue(s[..y + 1]) == CountTrue(s[..y]) + Ind(s[y])
  {
    assert s[..y + 1][..y] == s[..y];
  }

  /** `Program.CountAliveCells`: the number of live cells, counted column by column. */
  method CountAliveCells(board: Board) returns (count: int)
    ensures count == AliveCount(board.Cells())
    ensures 0 <= count <= board.Columns() * board.Rows()
  {
    ghost var g := board.Cells();
    count := 0;
    for x := 0 to board.Columns()
      invariant count == CountColumns(g.alive[..x])
    {
      for y := 0 to board.Rows()
        invariant count == CountColumns(g.alive[..x]) + CountTrue(g.alive[x][..y])
      {
        CountTruePrefix(g.alive[x], y);
        if board.isAlive[x, y] {
          count := count + 1;
        }
      }
      assert g.alive[x][..board.Rows()] == g.alive[x];
      CountColumnsPrefix(g.alive, x);
    }
    assert g.alive[..board.Columns()] == g.alive;
  }

  /** `Program.LoadPattern` without the file lookup: pattern character
      `lines[y][x]` is written to board cell (x + offsetX, y + offsetY) when
      that cell exists, and is skipped otherwise. */
  method LoadPattern(board: Board, lines: seq<string>, offsetX: int, offsetY: int)
    requires board.Valid()
    modifies board.isAlive
    ensures board.Cells() == Stamp(old(board.Cells()), lines, offsetX, offsetY)
  {
    ghost var g := board.Cells();
    for y := 0 to |lines|
      invariant forall px, py :: 0 <= px < board.Columns() && 0 <= py < board.Rows() ==>
        board.isAlive[px, py] ==
          if InPattern(lines, px - offsetX, py - offsetY) && py - offsetY < y
          then lines[py - offsetY][px - offsetX] == '*' else g.alive[px][py]
    {
      for x := 0 to |lines[y]|
        invariant forall px, py :: 0 <= px < board.Columns() && 0 <= py < board.Rows() ==>
          board.isAlive[px, py] ==
            if InPattern(lines, px - offsetX, py - offsetY) &&
               (py - offsetY < y || (py - offsetY == y && px - offsetX < x))
            then lines[py - offsetY][px - offsetX] == '*' else g.alive[px][py]
      {
        var boardX := x + offsetX;
        var boardY := y + offsetY;
        if 0 <= boardX < board.Columns() && 0 <= boardY < board.Rows() {
          board.isAlive[boardX, boardY] := lines[y][x] == '*';
        }
      }
    }
    GridExtensionality(board.Cells(), Stamp(g, lines, offsetX, offsetY));
  }

  /** One row of `Program.LoadFromTxt`: character x of `line` gives the flag
      of column x, row y; a line shorter than the board is an index out of
      range, reported as `false`. */
  method ReadRow(board: Board, line: string, y: int) returns (ok: bool)
    requires board.Valid() && 0 <= y < board.Rows()
    modifies board.isAlive
    ensures ok <==> |line| >= board.Columns()
    ensures ok ==> forall x :: 0 <= x < board.Columns() ==> board.isAlive[x, y] == (line[x] == '*')
    ensures forall i, j :: 0 <= i < board.Columns() && 0 <= j < board.Rows() && j != y ==>
      board.isAlive[i, j] == old(board.isAlive[i, j])
  {
    for x := 0 to board.Columns()
      invariant x <= |line|
      invariant forall i :: 0 <= i < x ==> board.isAlive[i, y] == (line[i] == '*')
      invariant forall i, j :: 0 <= i < board.Columns() && 0 <= j < board.Rows() && j != y ==>
        board.isAlive[i, j] == old(board.isAlive[i, j])
    {
      if x >= |line| {
        return false;
      }
      board.isAlive[x, y] := line[x] == '*';
    }
    return true;
  }

  /** The row loop of `Program.LoadFromTxt`: it completes exactly when every
      row line is there and long enough, and then the board holds their flags. */
  method ReadRows(board: Board, lines: seq<string>) returns (ok: bool)
    requires board.Valid() && 3 <= |lines|
    modifies board.isAlive
    ensures ok <==> RowsPresent(lines, board.Columns(), board.Rows())
    ensures ok ==> board.Cells() == GridOfLines(lines, board.Columns(), board.Rows())
  {
    var columns, rows := board.Columns(), board.Rows();
    for y := 0 to rows
      invariant 3 + y <= |lines|
      invariant forall i :: 3 <= i < 3 + y ==> |lines[i]| >= columns
      invariant forall i, j :: 0 <= i < columns && 0 <= j < y ==>
        3 + j < |lines| && |lines[3 + j]| >= columns && board.isAlive[i, j] == (lines[3 + j][i] == '*')
    {
      if 3 + y >= |lines| {
        return false;
      }
      ok := ReadRow(board, lines[3 + y], y);
      if !ok {
        assert 3 <= 3 + y < 3 + rows;
        return false;
      }
    }
    GridExtensionality(board.Cells(), GridOfLines(lines, columns, rows));
    return true;
  }

  /** `Program.LoadFromTxt` without the file lookup: the three headers, a new
      board of that size, then each of its rows read from the following
      lines; a malformed line raises the exception `ParseLines` names. */
  method LoadFromTxt(lines: seq<string>) returns (r: Result<Board, LoadError>)
    ensures r.Failure? <==> ParseLines(lines).Failure?
    ensures r.Failure? ==> r.error == ParseLines(lines).error
    ensures r.Success? ==> fresh(r.value) && fresh(r.value.isAlive) && fresh(r.value.isAliveNext)
    ensures r.Success? ==> r.value.Valid() && r.value.cellSize == ParseLines(lines).value.cellSize
    ensures r.Success? ==> r.value.Cells() == ParseLines(lines).value.grid
  {
    var header :- ParseHeader(lines);
    var columns := CSharpDiv(header.width, header.cellSize);
    var rows := CSharpDiv(header.height, header.cellSize);
    var board := new Board(header.width, header.height, header.cellSize, 0.1, ZeroDraws(columns, rows));
    var ok := ReadRows(board, lines);
    if !ok {
      return Failure(IndexOutOfRange);
    }
    r := Success(board);
  }

  /** The live counts of generations 0 .. n-1 of a run from `g`. */
  function LiveCounts(g: Grid, n: nat): (counts: seq<int>)
    requires g.Valid()
    ensures |counts| == n
  {
    if n == 0 then [] else LiveCounts(g, n - 1) + [AliveCount(Generation(g, n - 1))]
  }

  /** Entry i is the live count of generation i. */
  lemma {:induction false} LiveCountsAt(g: Grid, n: nat, i: nat)
    requires g.Valid() && i < n
    ensures LiveCounts(g, n)[i] == AliveCount(Generation(g, i))
  {
    if i < n - 1 {
      LiveCountsAt(g, n - 1, i);
    }
  }

  /** The counts of a shorter run are a prefix of those of a longer one. */
  lemma {:induction false} LiveCountsPrefix(g: Grid, m: nat, n: nat)
    requires g.Valid() && n <= m
    ensures LiveCounts(g, n) == LiveCounts(g, m)[..n]
    decreases m
  {
    if n < m {
      LiveCountsPrefix(g, m - 1, n);
      assert LiveCounts(g, m)[..m - 1] == LiveCounts(g, m - 1);
    }
  }

  /** A generation n that is stable, with none before it, is the answer of
      the search over any longer run. */
  lemma FirstStableFound(g: Grid, m: nat, n: nat, stablePeriod: int)
    requires g.Valid() && n < m
    requires StableAt(LiveCounts(g, n + 1), n, stablePeriod) && NoneStableBefore(LiveCounts(g, n + 1), n, stablePeriod)
    ensures FirstStable(LiveCounts(g, m), stablePeriod, n)
  {
    var counts := LiveCounts(g, m);
    LiveCountsPrefix(g, m, n + 1);
    assert counts == counts[..n + 1] + counts[n + 1..];
    StableAtPrefix(counts[..n + 1], counts[n + 1..], n, stablePeriod);
    NoneStablePrefix(counts[..n + 1], counts[n + 1..], n, stablePeriod);
  }

  /** What one more generation's count does to the queue and to the
      stability test. */
  lemma RecordStep(history: seq<int>, alive: int, stablePeriod: int)
    requires NoneStableBefore(history, |history|, stablePeriod)
    ensures Slide(Window(history, stablePeriod), alive, stablePeriod) == Window(history + [alive], stablePeriod)
    ensures Settled(Window(history + [alive], stablePeriod), stablePeriod) <==>
      StableAt(history + [alive], |history|, stablePeriod)
    ensures NoneStableBefore(history + [alive], |history|, stablePeriod)
    ensures !StableAt(history + [alive], |history|, stablePeriod) ==>
      NoneStableBefore(history + [alive], |history| + 1, stablePeriod)
  {
    var next := history + [alive];
    WindowSlide(history, alive, stablePeriod);
    SettledIffStable(next, stablePeriod);
    NoneStablePrefix(history, [alive], |history|, stablePeriod);
    if !StableAt(next, |history|, stablePeriod) {
      NoneStableExtend(history, alive, stablePeriod);
    }
  }

  /** `board.Advance()` on a board that holds generation n of a run from g
      leaves generation n + 1. */
  method AdvanceRun(board: Board, ghost g: Grid, ghost n: nat)
    requires board.Valid() && g.Valid() && board.Cells() == Generation(g, n)
    modifies board.isAlive, board.isAliveNext
    ensures board.Cells() == Generation(g, n + 1)
  {
    board.Advance();
    GenerationNext(g, n);
  }

  /** One generation of `Program.ResearchStability` up to the stability
      test: count the live cells, enqueue the count, dequeue once if the
      queue has grown past the period, and test whether the queue is full and
      constant. When the test passes, generation n is the first stable one of
      the run of m generations; when it fails, none up to n is stable. */
  method ObserveGeneration(board: Board, ghost g: Grid, ghost n: nat, ghost m: nat, lastCounts: seq<int>, stablePeriod: int)
    returns (nextCounts: seq<int>, settled: bool)
    requires board.Valid() && g.Valid() && board.Cells() == Generation(g, n) && n < m
    requires lastCounts == Window(LiveCounts(g, n), stablePeriod)
    requires NoneStableBefore(LiveCounts(g, n), n, stablePeriod)
    ensures settled ==> FirstStable(LiveCounts(g, m), stablePeriod, n)
    ensures !settled ==> nextCounts == Window(LiveCounts(g, n + 1), stablePeriod)
    ensures !settled ==> NoneStableBefore(LiveCounts(g, n + 1), n + 1, stablePeriod)
  {
    var alive := CountAliveCells(board);
    RecordStep(LiveCounts(g, n), alive, stablePeriod);
    nextCounts := lastCounts + [alive];
    if |nextCounts| > stablePeriod {
      nextCounts := nextCounts[1..];
    }
    settled := Settled(nextCounts, stablePeriod);
    if settled {
      FirstStableFound(g, m, n, stablePeriod);
    }
  }

  /** The state of `Program.ResearchStability` before generation n is
      observed: the board holds generation n of g, the queue holds the window
      of the counts so far, and none of the earlier generations is stable. */
  ghost predicate Researching(cells: Grid, g: Grid, n: nat, lastCounts: seq<int>, stablePeriod: int)
  {
    g.Valid() && cells == Generation(g, n) &&
    lastCounts == Window(LiveCounts(g, n), stablePeriod) &&
    NoneStableBefore(LiveCounts(g, n), n, stablePeriod)
  }

  /** A run that reached generation m with no stable generation has none. */
  lemma ResearchEnds(cells: Grid, g: Grid, m: nat, lastCounts: seq<int>, stablePeriod: int)
    requires Researching(cells, g, m, lastCounts, stablePeriod)
    ensures FirstStable(LiveCounts(g, m), stablePeriod, -1) && cells == Generation(g, m)
  {
  }

  /** One turn of the loop of `Program.ResearchStability`: observe the
      generation, and advance the board unless it was the stable one. */
  method ResearchStep(board: Board, ghost g: Grid, ghost n: nat, ghost m: nat, lastCounts: seq<int>, stablePeriod: int)
    returns (nextCounts: seq<int>, settled: bool)
    requires board.Valid() && n < m && Researching(board.Cells(), g, n, lastCounts, stablePeriod)
    modifies board.isAlive, board.isAliveNext
    ensures settled ==> FirstStable(LiveCounts(g, m), stablePeriod, n) && board.Cells() == Generation(g, n)
    ensures !settled ==> Researching(board.Cells(), g, n + 1, nextCounts, stablePeriod)
  {
    nextCounts, settled := ObserveGeneration(board, g, n, m, lastCounts, stablePeriod);
    if !settled {
      AdvanceRun(board, g, n);
    }
  }

  /** The window logic of `Program.ResearchStability` for one board: up to
      `maxGenerations` generations, stopping at the first one at which the
      last `stablePeriod` live counts are all equal; -1 if there is none. */
  method ResearchStability(board: Board, maxGenerations: int, stablePeriod: int) returns (stableGeneration: int)
    requires board.Valid()
    modifies board.isAlive, board.isAliveNext
    ensures FirstStable(LiveCounts(old(board.Cells()), Max(maxGenerations, 0)), stablePeriod, stableGeneration)
    ensures stableGeneration >= 0 ==> board.Cells() == Generation(old(board.Cells()), stableGeneration)
    ensures stableGeneration < 0 ==> board.Cells() == Generation(old(board.Cells()), Max(maxGenerations, 0))
  {
    ghost var g := board.Cells();
    ghost var m := Max(maxGenerations, 0);
    assert g == old(board.Cells());
    var lastCounts: seq<int> := [];
    stableGeneration := -1;
    var generation := 0;
    while generation < maxGenerations
      invariant stableGeneration == -1 && 0 <= generation <= m
      invariant Researching(board.Cells(), g, generation, lastCounts, stablePeriod)
    {
      var nextCounts, settled := ResearchStep(board, g, generation, m, lastCounts, stablePeriod);
      lastCounts := nextCounts;
      if settled {
        stableGeneration := generation;
        return;
      }
      generation := generation + 1;
    }
    assert generation == m;
    ResearchEnds(board.Cells(), g, m, lastCounts, stablePeriod);
  }

  /** A 100 × 100 board of cell size 10 has 10 columns and 10 rows. */
  method SizeTest()
  {
    var board := new Board(100, 100, 10, 0.1, ZeroDraws(10, 10));
    assert board.cellSize == 10 && board.Columns() == 10 && board.Rows() == 10;
  }

  /** A lone live cell on a 3 × 3 board dies in the next generation. */
  method LonelyCellTest()
  {
    var board := new Board(30, 30, 10, 0.0, ZeroDraws(3, 3));
    board.isAlive[1, 1] := true;
    assert OnlyAlive(board.Cells(), (1, 1));
    LoneCellDiesOut(board.Cells(), (1, 1));
    board.Advance();
    assert !board.isAlive[1, 1];
  }

  /** A full 10 × 10 board counts all its 100 cells. */
  method FullBoardCountTest()
  {
    var board := new Board(100, 100, 10, 1.0, ZeroDraws(10, 10));
    RandomizedExtremes(10, 10, ZeroDraws(10, 10), 1.0);
    var alive := CountAliveCells(board);
    assert alive == 100;
  }

  /** One generation after a full board no cell is alive, so the count changes. */
  method FullBoardAdvanceTest()
  {
    var board := new Board(100, 100, 10, 1.0, ZeroDraws(10, 10));
    assert AllAlive(board.Cells());
    FullBoardDies(board.Cells());
    board.Advance();
    AliveCountExtremes(board.Cells());
    var alive := CountAliveCells(board);
    assert alive == 0;
  }

  /** A board rebuilt from its snapshot has the same cells. */
  method SnapshotTest()
  {
    var board := new Board(100, 100, 10, 1.0, ZeroDraws(10, 10));
    var state := board.ToState();
    assert |state.cells| == board.Rows() && |state.cells[0]| == board.Columns();
    StateRoundTrip(board.Cells(), board.cellSize);
    var copy := Board.FromState(state);
    assert copy.Cells() == board.Cells();
  }

  /** Randomising at density 0 kills every cell, at density 1 revives every cell. */
  method DensityTest(draws: seq<seq<real>>)
    requires IsDraws(draws, 5, 5)
  {
    var board := new Board(50, 50, 10, 0.1, ZeroDraws(5, 5));
    board.Randomize(0.0, draws);
    RandomizedExtremes(5, 5, draws, 0.0);
    var none := CountAliveCells(board);
    assert none == 0;
    board.Randomize(1.0, draws);
    RandomizedExtremes(5, 5, draws, 1.0);
    var all := CountAliveCells(board);
    assert all == board.Columns() * board.Rows();
  }
}
