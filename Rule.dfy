/**
 * The birth/survival rule B3/S23 and the stand-alone cell that applies it to
 * an arbitrary list of neighbour cells (Life/Program.cs, class Cell).
 */
module Rule {

  /** The state a cell takes in the next generation, given its current state
      and the number of live entries in its neighbour list. */
  function NextAlive(alive: bool, liveNeighbors: nat): (r: bool)
    // birth: a dead cell with exactly three live neighbours comes to life
    ensures !alive ==> (r <==> liveNeighbors == 3)
    // survival: a live cell with two or three live neighbours stays alive
    ensures alive && 2 <= liveNeighbors <= 3 ==> r
    // under- and overpopulation
    ensures alive && (liveNeighbors < 2 || liveNeighbors > 3) ==> !r
  {
    if alive then liveNeighbors == 2 || liveNeighbors == 3 else liveNeighbors == 3
  }

  /** The number of cells of `cells` that are alive; a cell listed twice counts twice. */
  function LiveCount(cells: seq<Cell>): (n: nat)
    reads cells
    ensures n <= |cells|
  {
    if cells == [] then 0
    else (if cells[0].isAlive then 1 else 0) + LiveCount(cells[1..])
  }

  lemma {:induction false} LiveCountAppend(cells: seq<Cell>, c: Cell)
    ensures LiveCount(cells + [c]) == LiveCount(cells) + (if c.isAlive then 1 else 0)
  {
    if cells != [] {
      assert (cells + [c])[1..] == cells[1..] + [c];
      LiveCountAppend(cells[1..], c);
    }
  }

  /** A live cell, its pending next state and its list of neighbours. */
  class Cell {
    var isAlive: bool
    var isAliveNext: bool
    var neighbors: seq<Cell>

    constructor (alive: bool)
      ensures isAlive == alive && !isAliveNext && neighbors == []
    {
      isAlive := alive;
      isAliveNext := false;
      neighbors := [];
    }

    /** `neighbors.Add(cell)` on the cell's list. */
    method AddNeighbor(cell: Cell)
      modifies this`neighbors
      ensures neighbors == old(neighbors) + [cell]
    {
      neighbors := neighbors + [cell];
    }

    /** Stores in the pending state what the rule gives for the current state
        and the current live neighbours; the current state is not touched. */
    method DetermineNextLiveState()
      modifies this`isAliveNext
      ensures isAliveNext == NextAlive(isAlive, old(LiveCount(neighbors)))
      ensures isAliveNext <==>
        (isAlive && 2 <= old(LiveCount(neighbors)) <= 3) || (!isAlive && old(LiveCount(neighbors)) == 3)
    {
      var liveNeighbors := LiveCount(neighbors);
      isAliveNext := NextAlive(isAlive, liveNeighbors);
    }

    /** Commits the pending state. */
    method Advance()
      modifies this`isAlive
      ensures isAlive == isAliveNext
    {
      isAlive := isAliveNext;
    }
  }

  /** A cell with `live` live neighbours followed by `dead` dead ones, as the
      unit tests build them. */
  method CellWithNeighbors(alive: bool, live: nat, dead: nat) returns (cell: Cell)
    ensures fresh(cell) && cell.isAlive == alive && |cell.neighbors| == live + dead
    ensures cell !in cell.neighbors
    ensures LiveCount(cell.neighbors) == live
  {
    cell := new Cell(alive);
    var i := 0;
    while i < live + dead
      invariant 0 <= i <= live + dead
      invariant cell.isAlive == alive && |cell.neighbors| == i && cell !in cell.neighbors
      invariant LiveCount(cell.neighbors) == if i <= live then i else live
    {
      var other := new Cell(i < live);
      LiveCountAppend(cell.neighbors, other);
      cell.AddNeighbor(other);
      i := i + 1;
    }
  }

  /** The four cell tests: survival with 3, death with 1 and with 8, birth with 3. */
  method CellTests()
  {
    var survivor := CellWithNeighbors(true, 3, 5);
    survivor.DetermineNextLiveState();
    survivor.Advance();
    assert survivor.isAlive;

    var lonely := CellWithNeighbors(true, 1, 7);
    lonely.DetermineNextLiveState();
    lonely.Advance();
    assert !lonely.isAlive;

    var crowded := CellWithNeighbors(true, 8, 0);
    crowded.DetermineNextLiveState();
    crowded.Advance();
    assert !crowded.isAlive;

    var newborn := CellWithNeighbors(false, 3, 5);
    newborn.DetermineNextLiveState();
    newborn.Advance();
    assert newborn.isAlive;
  }
}
