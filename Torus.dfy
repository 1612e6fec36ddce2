/**
 * The board as a value: a columns × rows grid of live flags on a torus, the
 * wraparound neighbour wiring, and one synchronous generation step
 * (Life/Program.cs, class Board).
 */
module Torus {
  import opened Rule

  /** The live flags of a board, indexed `alive[x][y]` like `Cells[x, y]`:
      `columns` entries of `rows` flags each. */
  datatype Grid = Grid(columns: nat, rows: nat, alive: seq<seq<bool>>) {

    predicate Valid() {
      |alive| == columns && forall x :: 0 <= x < columns ==> |alive[x]| == rows
    }

    predicate InRange(c: (int, int)) {
      0 <= c.0 < columns && 0 <= c.1 < rows
    }

    function At(c: (int, int)): bool
      requires Valid() && InRange(c)
    {
      alive[c.0][c.1]
    }
  }

  /** Two valid grids of the same size with the same flags are equal. */
  lemma GridExtensionality(g: Grid, h: Grid)
    requires g.Valid() && h.Valid() && g.columns == h.columns && g.rows == h.rows
    requires forall x, y :: 0 <= x < g.columns && 0 <= y < g.rows ==> g.alive[x][y] == h.alive[x][y]
    ensures g == h
  {
    forall x | 0 <= x < g.columns
      ensures g.alive[x] == h.alive[x]
    {
    }
  }

  function Abs(a: int): nat {
    if a < 0 then -a else a
  }

  function Ind(b: bool): nat {
    if b then 1 else 0
  }

  const INT_MIN: int := -0x8000_0000
  const INT_MAX: int := 0x7fff_ffff

  /** The values of a C# `int`. */
  predicate IsInt32(n: int) {
    INT_MIN <= n <= INT_MAX
  }

  /** A length C# can give an array dimension: a non-negative `int`. A
      negative one raises `OverflowException`. */
  predicate IsLength(n: int) {
    0 <= n <= INT_MAX
  }

  /** Integer division as C# performs it on `int`: the quotient is truncated
      toward zero, so the remainder takes the sign of the dividend. */
  function CSharpDiv(a: int, b: int): (q: int)
    requires b != 0
    ensures 0 <= a && 0 < b ==> q == a / b
    ensures Abs(q) * Abs(b) <= Abs(a) < (Abs(q) + 1) * Abs(b)
    ensures q == 0 || (q < 0 <==> (a < 0) != (b < 0))
  {
    var m := Abs(a) / Abs(b);
    DivBounds(Abs(a), Abs(b));
    if (a < 0) == (b < 0) then m else -m
  }

  lemma DivBounds(a: nat, k: int)
    requires k > 0
    ensures (a / k) * k <= a < (a / k + 1) * k
  {
    assert a == (a / k) * k + a % k;
    assert (a / k + 1) * k == (a / k) * k + k;
  }

  lemma DivMulCancel(c: nat, k: int)
    requires k > 0
    ensures (c * k) / k == c
  {
    var q, r := (c * k) / k, (c * k) % k;
    assert c * k == q * k + r && 0 <= r < k;
    assert (c - q) * k == r;
    if c - q >= 1 {
      MulAtLeast(c - q, k);
    } else if q - c >= 1 {
      MulAtLeast(q - c, k);
    }
  }

  lemma MulAtLeast(d: nat, k: nat)
    requires d >= 1
    ensures d * k >= k
  {
    if d > 1 {
      MulAtLeast(d - 1, k);
      assert d * k == (d - 1) * k + k;
    }
  }

  /** A board's size in pixels, `(width / cellSize) * cellSize`, fits in an
      `int` whenever `width` does: it has the sign of `width` and is no
      larger in magnitude. */
  lemma WidthFits(width: int, cellSize: int)
    requires IsInt32(width) && cellSize != 0 && IsLength(CSharpDiv(width, cellSize))
    ensures IsInt32(CSharpDiv(width, cellSize) * cellSize)
  {
    var q := CSharpDiv(width, cellSize);
    var m := q * Abs(cellSize);
    assert m <= Abs(width);
    if q > 0 {
      assert (width < 0) == (cellSize < 0);
    }
    if cellSize < 0 {
      assert q * cellSize == -m;
    }
  }

  /** Dividing a product by one of its factors gives back the other factor,
      for either sign of the factor divided by. */
  lemma CSharpDivMul(c: nat, k: int)
    requires k != 0
    ensures CSharpDiv(c * k, k) == c
  {
    DivMulCancel(c, Abs(k));
    if k < 0 {
      assert c * k == -(c * Abs(k));
      assert Abs(c * k) == c * Abs(k);
    } else {
      assert Abs(c * k) == c * Abs(k);
    }
  }

  /** Column and row offsets of the eight neighbours, in the order in which
      they are wired: top-left, top, top-right, left, right, bottom-left,
      bottom, bottom-right. */
  const DX: seq<int> := [-1, 0, 1, -1, 1, -1, 0, 1]
  const DY: seq<int> := [-1, -1, -1, 0, 0, 1, 1, 1]

  lemma WrapDown(x: int, n: nat)
    requires 0 <= x < n
    ensures (x - 1) % n == if x > 0 then x - 1 else n - 1
  {
    if x == 0 {
      assert -1 == (-1) * n + (n - 1);
    }
  }

  lemma WrapUp(x: int, n: nat)
    requires 0 <= x < n
    ensures (x + 1) % n == if x < n - 1 then x + 1 else 0
  {
    if x == n - 1 {
      assert x + 1 == 1 * n + 0;
    }
  }

  /** The neighbour list that `ConnectNeighbors` gives the cell (x, y): each
      edge wraps to the opposite edge. */
  function Neighbors(x: int, y: int, columns: nat, rows: nat): (ns: seq<(int, int)>)
    requires 0 <= x < columns && 0 <= y < rows
    ensures |ns| == 8
    ensures forall k :: 0 <= k < 8 ==> 0 <= ns[k].0 < columns && 0 <= ns[k].1 < rows
  {
    var xL := if x > 0 then x - 1 else columns - 1;
    var xR := if x < columns - 1 then x + 1 else 0;
    var yT := if y > 0 then y - 1 else rows - 1;
    var yB := if y < rows - 1 then y + 1 else 0;
    [(xL, yT), (x, yT), (xR, yT), (xL, y), (xR, y), (xL, yB), (x, yB), (xR, yB)]
  }

  /** Neighbour k of (x, y) is (x + DX[k], y + DY[k]) reduced modulo the board size. */
  lemma NeighborsWrap(x: int, y: int, columns: nat, rows: nat)
    requires 0 <= x < columns && 0 <= y < rows
    ensures forall k :: 0 <= k < 8 ==>
      Neighbors(x, y, columns, rows)[k] == ((x + DX[k]) % columns, (y + DY[k]) % rows)
  {
    forall k | 0 <= k < 8
      ensures Neighbors(x, y, columns, rows)[k] == ((x + DX[k]) % columns, (y + DY[k]) % rows)
    {
      OffsetWrap(x, columns, DX[k]);
      OffsetWrap(y, rows, DY[k]);
    }
  }

  /** Moving one step (or none) along an axis of size n wraps at the edges. */
  lemma OffsetWrap(x: int, n: nat, d: int)
    requires 0 <= x < n && -1 <= d <= 1
    ensures (x + d) % n == if d < 0 then (if x > 0 then x - 1 else n - 1)
                           else if d > 0 then (if x < n - 1 then x + 1 else 0)
                           else x
  {
    if d < 0 {
      WrapDown(x, n);
    } else if d > 0 {
      WrapUp(x, n);
    }
  }

  lemma NeighborsInRange(g: Grid, x: int, y: int)
    requires g.Valid() && 0 <= x < g.columns && 0 <= y < g.rows
    ensures forall k :: 0 <= k < 8 ==> g.InRange(Neighbors(x, y, g.columns, g.rows)[k])
  {
  }

  /** The number of entries of `cells` that are alive in `g`; an entry listed
      twice counts twice, as in a neighbour list with repeated cells. */
  function CountLive(g: Grid, cells: seq<(int, int)>): (n: nat)
    requires g.Valid() && forall k :: 0 <= k < |cells| ==> g.InRange(cells[k])
    ensures n <= |cells|
  {
    if cells == [] then 0 else Ind(g.At(cells[0])) + CountLive(g, cells[1..])
  }

  lemma CountLiveSuffix(g: Grid, cells: seq<(int, int)>, i: nat)
    requires g.Valid() && forall k :: 0 <= k < |cells| ==> g.InRange(cells[k])
    requires i < |cells|
    ensures CountLive(g, cells[i..]) == Ind(g.At(cells[i])) + CountLive(g, cells[i + 1..])
  {
    assert cells[i..][1..] == cells[i + 1..];
  }

  /** A list of eight cells: the count is the sum of the eight flags. */
  lemma CountLive8(g: Grid, cells: seq<(int, int)>)
    requires g.Valid() && |cells| == 8 && forall k :: 0 <= k < 8 ==> g.InRange(cells[k])
    ensures CountLive(g, cells) ==
      Ind(g.At(cells[0])) + Ind(g.At(cells[1])) + Ind(g.At(cells[2])) + Ind(g.At(cells[3])) +
      Ind(g.At(cells[4])) + Ind(g.At(cells[5])) + Ind(g.At(cells[6])) + Ind(g.At(cells[7]))
  {
    assert cells[0..] == cells;
    CountLiveSuffix(g, cells, 0);
    CountLiveSuffix(g, cells, 1);
    CountLiveSuffix(g, cells, 2);
    CountLiveSuffix(g, cells, 3);
    CountLiveSuffix(g, cells, 4);
    CountLiveSuffix(g, cells, 5);
    CountLiveSuffix(g, cells, 6);
    CountLiveSuffix(g, cells, 7);
    assert cells[8..] == [];
  }

  /** The live-neighbour count of cell (x, y), over its wired neighbour list. */
  function LiveNeighbors(g: Grid, x: int, y: int): (n: nat)
    requires g.Valid() && 0 <= x < g.columns && 0 <= y < g.rows
    ensures n <= 8
  {
    NeighborsInRange(g, x, y);
    CountLive(g, Neighbors(x, y, g.columns, g.rows))
  }

  /** One generation: every cell's next state from the previous grid only. */
  function Step(g: Grid): (h: Grid)
    requires g.Valid()
    ensures h.Valid() && h.columns == g.columns && h.rows == g.rows
    ensures forall x, y :: 0 <= x < g.columns && 0 <= y < g.rows ==>
      h.alive[x][y] == NextAlive(g.alive[x][y], LiveNeighbors(g, x, y))
  {
    Grid(g.columns, g.rows,
      seq(g.columns, x requires 0 <= x < g.columns =>
        seq(g.rows, y requires 0 <= y < g.rows => NextAlive(g.alive[x][y], LiveNeighbors(g, x, y)))))
  }

  /** The grid after `n` generations. */
  function Generation(g: Grid, n: nat): (h: Grid)
    requires g.Valid()
    ensures h.Valid() && h.columns == g.columns && h.rows == g.rows
    decreases n
  {
    if n == 0 then g else Generation(Step(g), n - 1)
  }

  /** Generation n + 1 is one step on from generation n. */
  lemma {:induction false} GenerationNext(g: Grid, n: nat)
    requires g.Valid()
    ensures Generation(g, n + 1) == Step(Generation(g, n))
    decreases n
  {
    if n > 0 {
      GenerationNext(Step(g), n - 1);
    }
  }

  predicate AllDead(g: Grid)
    requires g.Valid()
  {
    forall x, y :: 0 <= x < g.columns && 0 <= y < g.rows ==> !g.alive[x][y]
  }

  predicate AllAlive(g: Grid)
    requires g.Valid()
  {
    forall x, y :: 0 <= x < g.columns && 0 <= y < g.rows ==> g.alive[x][y]
  }

  /** `p` is the only live cell of `g`. */
  predicate OnlyAlive(g: Grid, p: (int, int))
    requires g.Valid()
  {
    g.InRange(p) && forall x, y :: 0 <= x < g.columns && 0 <= y < g.rows ==> (g.alive[x][y] <==> x == p.0 && y == p.1)
  }

  /** On a board at least three cells wide and tall the eight neighbours of a
      cell are eight different cells, none of them the cell itself. */
  lemma NeighborsDistinct(x: int, y: int, columns: nat, rows: nat)
    requires 0 <= x < columns && 0 <= y < rows && columns >= 3 && rows >= 3
    ensures var ns := Neighbors(x, y, columns, rows);
      (x, y) !in ns && forall i, j :: 0 <= i < j < 8 ==> ns[i] != ns[j]
  {
  }

  /** A cell is its own neighbour exactly when the board is one cell wide or
      one cell tall. */
  lemma SelfNeighbor(x: int, y: int, columns: nat, rows: nat)
    requires 0 <= x < columns && 0 <= y < rows
    ensures (x, y) in Neighbors(x, y, columns, rows) <==> columns == 1 || rows == 1
  {
    var ns := Neighbors(x, y, columns, rows);
    if columns == 1 {
      assert ns[3] == (x, y);
    } else if rows == 1 {
      assert ns[1] == (x, y);
    }
  }

  /** With a single live cell, a cell's live-neighbour count is the number of
      times the live cell occurs in its neighbour list. */
  lemma LoneCount(g: Grid, p: (int, int), x: int, y: int)
    requires g.Valid() && OnlyAlive(g, p) && 0 <= x < g.columns && 0 <= y < g.rows
    ensures var ns := Neighbors(x, y, g.columns, g.rows);
      LiveNeighbors(g, x, y) ==
        Ind(ns[0] == p) + Ind(ns[1] == p) + Ind(ns[2] == p) + Ind(ns[3] == p) +
        Ind(ns[4] == p) + Ind(ns[5] == p) + Ind(ns[6] == p) + Ind(ns[7] == p)
  {
    var ns := Neighbors(x, y, g.columns, g.rows);
    CountLive8(g, ns);
    forall k | 0 <= k < 8
      ensures g.At(ns[k]) == (ns[k] == p)
    {
      assert g.alive[ns[k].0][ns[k].1] <==> (ns[k].0, ns[k].1) == p;
    }
  }

  /** A lone live cell survives one generation exactly when the board is one
      cell wide or one cell tall but not both: then the cell sees itself twice
      (as left and right, or as top and bottom) and has two live neighbours;
      on a 1 × 1 board it sees itself eight times. */
  lemma LoneCellFate(g: Grid, p: (int, int))
    requires g.Valid() && OnlyAlive(g, p)
    ensures Step(g).alive[p.0][p.1] <==> (g.columns == 1) != (g.rows == 1)
  {
    var (x, y) := p;
    var ns := Neighbors(x, y, g.columns, g.rows);
    LoneCount(g, p, x, y);
    assert g.alive[x][y];
    var n := LiveNeighbors(g, x, y);
    var row := ns[1] == p;     // top and bottom are the cell itself
    var column := ns[3] == p;  // left and right are the cell itself
    assert row <==> g.rows == 1;
    assert column <==> g.columns == 1;
    assert ns[6] == p <==> row;
    assert ns[4] == p <==> column;
    assert ns[0] == p && ns[2] == p && ns[5] == p && ns[7] == p <==> row && column;
    assert !(row && column) ==> !(ns[0] == p) && !(ns[2] == p) && !(ns[5] == p) && !(ns[7] == p);
    assert n == (if row && column then 8 else if row || column then 2 else 0);
  }

  /** On a board at least 3 × 3 a lone live cell leaves a dead board behind:
      no cell has more than one live neighbour. */
  lemma LoneCellDiesOut(g: Grid, p: (int, int))
    requires g.Valid() && OnlyAlive(g, p) && g.columns >= 3 && g.rows >= 3
    ensures AllDead(Step(g))
  {
    forall x, y | 0 <= x < g.columns && 0 <= y < g.rows
      ensures !Step(g).alive[x][y]
    {
      LoneNeighbors(g, p, x, y);
    }
  }

  /** With a single live cell on a board at least 3 × 3, a cell sees at most
      one live neighbour, so no cell is alive in the next generation. */
  lemma LoneNeighbors(g: Grid, p: (int, int), x: int, y: int)
    requires g.Valid() && OnlyAlive(g, p) && g.columns >= 3 && g.rows >= 3
    requires 0 <= x < g.columns && 0 <= y < g.rows
    ensures LiveNeighbors(g, x, y) <= 1
    ensures !Step(g).alive[x][y]
  {
    NeighborsDistinct(x, y, g.columns, g.rows);
    LoneCount(g, p, x, y);
  }

  /** On a full board every cell has eight live neighbour entries and dies,
      so on a board with at least one cell the live count drops to 0. */
  lemma FullBoardDies(g: Grid)
    requires g.Valid() && AllAlive(g)
    ensures AllDead(Step(g))
    ensures g.columns > 0 && g.rows > 0 ==> AliveCount(Step(g)) == 0 < AliveCount(g)
  {
    forall x, y | 0 <= x < g.columns && 0 <= y < g.rows
      ensures !Step(g).alive[x][y]
    {
      FullNeighborhood(g, x, y);
    }
    AliveCountExtremes(g);
    AliveCountExtremes(Step(g));
    if g.columns > 0 && g.rows > 0 {
      assert g.columns * g.rows > 0;
    }
  }

  lemma FullNeighborhood(g: Grid, x: int, y: int)
    requires g.Valid() && AllAlive(g) && 0 <= x < g.columns && 0 <= y < g.rows
    ensures LiveNeighbors(g, x, y) == 8
  {
    var ns := Neighbors(x, y, g.columns, g.rows);
    CountLive8(g, ns);
    forall k | 0 <= k < 8
      ensures g.At(ns[k])
    {
      assert g.alive[ns[k].0][ns[k].1];
    }
  }

  /** The number of live flags in `s`. */
  function CountTrue(s: seq<bool>): (n: nat)
    ensures n <= |s|
  {
    if s == [] then 0 else CountTrue(s[..|s| - 1]) + Ind(s[|s| - 1])
  }

  /** The number of live flags over all columns, column by column. */
  function CountColumns(columns: seq<seq<bool>>): nat
  {
    if columns == [] then 0 else CountColumns(columns[..|columns| - 1]) + CountTrue(columns[|columns| - 1])
  }

  lemma {:induction false} CountColumnsBound(columns: seq<seq<bool>>, rows: nat)
    requires forall x :: 0 <= x < |columns| ==> |columns[x]| == rows
    ensures CountColumns(columns) <= |columns| * rows
  {
    if columns != [] {
      var n := |columns| - 1;
      CountColumnsBound(columns[..n], rows);
      assert |columns| * rows == n * rows + rows;
    }
  }

  /** The number of live cells of the grid. */
  function AliveCount(g: Grid): (n: nat)
    requires g.Valid()
    ensures n <= g.columns * g.rows
  {
    CountColumnsBound(g.alive, g.rows);
    CountColumns(g.alive)
  }

  lemma {:induction false} CountTrueExtremes(s: seq<bool>)
    ensures (forall i :: 0 <= i < |s| ==> !s[i]) ==> CountTrue(s) == 0
    ensures (forall i :: 0 <= i < |s| ==> s[i]) ==> CountTrue(s) == |s|
  {
    if s != [] {
      CountTrueExtremes(s[..|s| - 1]);
    }
  }

  lemma {:induction false} CountColumnsDead(columns: seq<seq<bool>>, rows: nat)
    requires forall x :: 0 <= x < |columns| ==> |columns[x]| == rows
    requires forall x, y :: 0 <= x < |columns| && 0 <= y < rows ==> !columns[x][y]
    ensures CountColumns(columns) == 0
  {
    if columns != [] {
      var n := |columns| - 1;
      CountColumnsDead(columns[..n], rows);
      CountTrueExtremes(columns[n]);
    }
  }

  lemma {:induction false} CountColumnsFull(columns: seq<seq<bool>>, rows: nat)
    requires forall x :: 0 <= x < |columns| ==> |columns[x]| == rows
    requires forall x, y :: 0 <= x < |columns| && 0 <= y < rows ==> columns[x][y]
    ensures CountColumns(columns) == |columns| * rows
  {
    if columns != [] {
      var n := |columns| - 1;
      CountColumnsFull(columns[..n], rows);
      CountTrueExtremes(columns[n]);
      assert |columns| * rows == n * rows + rows;
    }
  }

  /** A dead board counts 0 live cells and a full board counts all
      columns × rows of them. */
  lemma AliveCountExtremes(g: Grid)
    requires g.Valid()
    ensures AllDead(g) ==> AliveCount(g) == 0
    ensures AllAlive(g) ==> AliveCount(g) == g.columns * g.rows
  {
    if AllDead(g) {
      CountColumnsDead(g.alive, g.rows);
    }
    if AllAlive(g) {
      CountColumnsFull(g.alive, g.rows);
    }
  }

  /** `draws[x][y]` is the value in [0, 1) that the random source yields for
      cell (x, y); the cells are drawn column by column. */
  predicate IsDraws(draws: seq<seq<real>>, columns: nat, rows: nat)
  {
    |draws| == columns &&
    forall x :: 0 <= x < columns ==>
      |draws[x]| == rows && forall y :: 0 <= y < rows ==> 0.0 <= draws[x][y] < 1.0
  }

  /** The grid that `Randomize(liveDensity)` leaves for the given draws. */
  function Randomized(columns: nat, rows: nat, draws: seq<seq<real>>, liveDensity: real): (g: Grid)
    requires IsDraws(draws, columns, rows)
    ensures g.Valid() && g.columns == columns && g.rows == rows
    ensures forall x, y :: 0 <= x < columns && 0 <= y < rows ==> g.alive[x][y] == (draws[x][y] < liveDensity)
  {
    Grid(columns, rows,
      seq(columns, x requires 0 <= x < columns =>
        seq(rows, y requires 0 <= y < rows => draws[x][y] < liveDensity)))
  }

  /** Density 0 gives a dead board and density 1 a full one, whatever the draws. */
  lemma RandomizedExtremes(columns: nat, rows: nat, draws: seq<seq<real>>, liveDensity: real)
    requires IsDraws(draws, columns, rows)
    ensures liveDensity <= 0.0 ==> AliveCount(Randomized(columns, rows, draws, liveDensity)) == 0
    ensures liveDensity >= 1.0 ==>
      AliveCount(Randomized(columns, rows, draws, liveDensity)) == columns * rows
  {
    var g := Randomized(columns, rows, draws, liveDensity);
    AliveCountExtremes(g);
    if liveDensity <= 0.0 {
      assert AllDead(g);
    }
    if liveDensity >= 1.0 {
      assert AllAlive(g);
    }
  }

  /** Whether line `y` of a pattern has a character in column `x`. */
  predicate InPattern(lines: seq<string>, x: int, y: int)
  {
    0 <= y < |lines| && 0 <= x < |lines[y]|
  }

  /** The grid after stamping `lines` with its top-left corner at
      (offsetX, offsetY): a board cell that a pattern character falls on is
      alive iff that character is '*'; every other cell keeps its state. */
  function Stamp(g: Grid, lines: seq<string>, offsetX: int, offsetY: int): (h: Grid)
    requires g.Valid()
    ensures h.Valid() && h.columns == g.columns && h.rows == g.rows
    ensures forall x, y :: 0 <= x < g.columns && 0 <= y < g.rows ==>
      h.alive[x][y] == if InPattern(lines, x - offsetX, y - offsetY)
                       then lines[y - offsetY][x - offsetX] == '*' else g.alive[x][y]
  {
    Grid(g.columns, g.rows,
      seq(g.columns, x requires 0 <= x < g.columns =>
        seq(g.rows, y requires 0 <= y < g.rows =>
          if InPattern(lines, x - offsetX, y - offsetY) then lines[y - offsetY][x - offsetX] == '*'
          else g.alive[x][y])))
  }

  /** Stamping the same pattern at the same place twice changes nothing more. */
  lemma StampIdempotent(g: Grid, lines: seq<string>, offsetX: int, offsetY: int)
    requires g.Valid()
    ensures Stamp(Stamp(g, lines, offsetX, offsetY), lines, offsetX, offsetY) == Stamp(g, lines, offsetX, offsetY)
  {
    var h := Stamp(g, lines, offsetX, offsetY);
    var k := Stamp(h, lines, offsetX, offsetY);
    forall x | 0 <= x < g.columns
      ensures k.alive[x] == h.alive[x]
    {
    }
  }
}
