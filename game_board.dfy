/** The GameBoard component: the grid and the game state, the tap and
    long-press handlers, the flood-fill reveal, the win test and the flag
    count. The component's grid and state are fields changed in place. */
module GameBoard {
  import opened Grids
  import opened Counting
  import opened Placement
  import opened Cascade

  datatype GameState = Ongoing | Won | Lost

  /** countFlags: the number of flagged cells, scanning every row. */
  method CountFlags(grid: Grid) returns (count: nat)
    ensures count == Count(grid, Flagged)
  {
    count := 0;
    for y := 0 to |grid|
      invariant count == Count(grid[..y], Flagged)
    {
      var row := grid[y];
      for x := 0 to |row|
        invariant count == Count(grid[..y], Flagged) + RowCount(row[..x], Flagged)
      {
        RowCountStep(row, x, Flagged);
        if row[x].flagged {
          count := count + 1;
        }
      }
      assert row[..|row|] == row;
      CountStep(grid, y, Flagged);
    }
    assert grid[..|grid|] == grid;
  }

  /** The flag count of a grid lies between 0 and the number of its cells. */
  lemma FlagCountBounded(grid: Grid, width: nat, height: nat)
    requires Shaped(grid, width, height)
    ensures 0 <= Count(grid, Flagged) <= width * height
  {
    CountBounded(grid, width, height, Flagged);
  }

  /** A long press changes the flag count by exactly one, up or down. */
  lemma ToggleFlagCount(grid: Grid, width: nat, height: nat, x: int, y: int)
    requires Shaped(grid, width, height) && InBounds(width, height, x, y)
    ensures Count(ToggleFlag(grid, width, height, x, y), Flagged) ==
      Count(grid, Flagged) + (if grid[y][x].flagged then -1 else 1)
  {
    ToggleFlagExact(grid, width, height, x, y);
    CountOneChange(grid, ToggleFlag(grid, width, height, x, y), width, height, Flagged, x, y);
  }

  /** checkWin: counts the revealed cells and the mines row by row, and
      reports whether every cell but the mines is revealed by count. */
  method CheckWin(grid: Grid, width: nat, height: nat) returns (won: bool)
    requires Shaped(grid, width, height)
    ensures won <==> Count(grid, Revealed) == width * height - Count(grid, Mine)
  {
    // GameBoard.js:133-144 reads `this.grid`, runs its outer index over the width
    // into grid[i][j], and compares against `this.gridSize ** 2`; the grid passed
    // in, scanned row by row, and width * height are meant. The non-win path,
    // which falls off the end of the function there, returns false here.
    var revealedCount := 0;
    var bombCount := 0;
    for y := 0 to height
      invariant revealedCount == Count(grid[..y], Revealed)
      invariant bombCount == Count(grid[..y], Mine)
    {
      for x := 0 to width
        invariant revealedCount == Count(grid[..y], Revealed) + RowCount(grid[y][..x], Revealed)
        invariant bombCount == Count(grid[..y], Mine) + RowCount(grid[y][..x], Mine)
      {
        RowCountStep(grid[y], x, Revealed);
        RowCountStep(grid[y], x, Mine);
        if grid[y][x].revealed {
          revealedCount := revealedCount + 1;
        }
        if grid[y][x].value == MINE {
          bombCount := bombCount + 1;
        }
      }
      assert grid[y][..width] == grid[y];
      CountStep(grid, y, Revealed);
      CountStep(grid, y, Mine);
    }
    assert grid[..height] == grid;
    won := revealedCount == width * height - bombCount;
  }

  /** While no mine is revealed, the count test of checkWin holds exactly when
      every mine-free cell is revealed. */
  lemma WinMeansAllSafeRevealed(grid: Grid, width: nat, height: nat)
    requires Shaped(grid, width, height) && NoMineRevealed(grid, width, height)
    ensures Count(grid, Revealed) == width * height - Count(grid, Mine) <==> AllSafeRevealed(grid, width, height)
  {
    MinesAndSafe(grid, width, height);
    CountSub(grid, width, height, Revealed, Safe);
  }

  class Board {
    const width: nat
    const height: nat
    var grid: Grid
    var state: GameState

    /** The board invariant: the grid's shape, the adjacency law and the
        spacing of mines from generation, no mine revealed unless the game is
        lost, and every safe cell revealed once it is won. */
    ghost predicate Valid()
      reads this
    {
      Shaped(grid, width, height) &&
      CountsCorrect(grid, width, height) &&
      MinesApart(grid, width, height) &&
      (state != Lost ==> NoMineRevealed(grid, width, height)) &&
      (state == Won ==> AllSafeRevealed(grid, width, height))
    }

    /** A new game: the grid from createGrid and the state `ongoing`. */
    constructor (width: nat, height: nat, bombCount: int, draws: seq<Pos>)
      requires forall i | 0 <= i < |draws| :: InBounds(width, height, draws[i].x, draws[i].y)
      ensures Valid() && state == Ongoing
      ensures this.width == width && this.height == height
      ensures Covered(grid, width, height)
      ensures bombCount <= 0 ==> Count(grid, Mine) == 0
      ensures bombCount > 0 ==> Count(grid, Mine) <= bombCount
    {
      var g, used := CreateGrid(width, height, bombCount, draws);
      this.width := width;
      this.height := height;
      grid := g;
      state := Ongoing;
    }

    /** revealCell: opens (col, row) unless it is off the board, revealed,
        flagged or a mine, and when its value is 0 goes on with its eight
        neighbours. The ghost result lists the opened cells in order. */
    method RevealCell(col: int, row: int) returns (ghost order: seq<Pos>)
      requires Shaped(grid, width, height)
      modifies this`grid
      ensures Shaped(grid, width, height)
      ensures Floods(old(grid), grid, width, height, Pos(col, row), order)
      decreases Unrevealed(grid, width, height), 1
    {
      var p := Pos(col, row);
      // GameBoard.js:99 tests `row >= this.height - 1` and `col >= this.width - 1`,
      // which turns away the last row and column; the board bounds are meant.
      if !InBounds(width, height, col, row) {
        FloodsNothing(grid, width, height, p);
        return [];
      }
      var cell := grid[row][col];
      if cell.revealed || cell.flagged || cell.value == MINE {
        FloodsNothing(grid, width, height, p);
        return [];
      }
      OpeningStarts(grid, width, height, p);
      OpeningShrinks(grid, width, height, p);
      ghost var start := grid;
      grid := grid[row := grid[row][col := cell.(revealed := true)]];
      order := [p];
      if cell.value == 0 {
        order := RevealAround(p, start, order);
        SpreadingDone(start, grid, width, height, p, order);
      }
    }

    /** The eight recursive calls of revealCell on the neighbours of the zero
        cell p, in order; `start` is the grid before p was opened. */
    method RevealAround(p: Pos, ghost start: Grid, ghost order: seq<Pos>) returns (ghost all: seq<Pos>)
      requires Shaped(start, width, height) && Shaped(grid, width, height)
      requires Spreading(start, grid, width, height, p, order)
      requires Unrevealed(grid, width, height) < Unrevealed(start, width, height)
      modifies this`grid
      ensures Shaped(grid, width, height)
      ensures Spreading(start, grid, width, height, p, all)
      ensures forall k | 0 <= k < 8 :: Settled(grid, width, height, Neighbours(p.x, p.y)[k])
      decreases Unrevealed(start, width, height), 0
    {
      // GameBoard.js:117-124 passes (row ± 1, col ± 1) to a (col, row) parameter
      // list; the neighbours are visited here in the same order with the axes kept.
      var around := Neighbours(p.x, p.y);
      all := order;
      for k := 0 to 8
        invariant Shaped(grid, width, height)
        invariant Spreading(start, grid, width, height, p, all)
        invariant forall j | 0 <= j < k :: Settled(grid, width, height, around[j])
        invariant Unrevealed(grid, width, height) < Unrevealed(start, width, height)
      {
        ghost var before := grid;
        ghost var o := RevealCell(around[k].x, around[k].y);
        AroundStep(start, before, grid, width, height, p, all, k, o);
        all := all + o;
      }
    }

    /** handleCellClick: ignored on a flagged or revealed cell or a finished
        game; a mine is revealed alone and loses; any other cell starts the
        cascade and is followed by the win test. */
    method HandleCellClick(x: int, y: int)
      requires Valid() && InBounds(width, height, x, y)
      modifies this
      ensures Valid()
      ensures old(grid[y][x].flagged || grid[y][x].revealed || state != Ongoing) ==>
        grid == old(grid) && state == old(state)
      ensures old(!grid[y][x].flagged && !grid[y][x].revealed && state == Ongoing && grid[y][x].value == MINE) ==>
        state == Lost && grid == old(grid[y := grid[y][x := grid[y][x].(revealed := true)]])
      ensures old(!grid[y][x].flagged && !grid[y][x].revealed && state == Ongoing && grid[y][x].value != MINE) ==>
        (exists order :: Floods(old(grid), grid, width, height, Pos(x, y), order)) &&
        grid[y][x].revealed &&
        (state == Won <==> Count(grid, Revealed) == width * height - Count(grid, Mine)) &&
        (state == Won <==> AllSafeRevealed(grid, width, height)) &&
        (state != Won ==> state == Ongoing)
    {
      if grid[y][x].flagged || grid[y][x].revealed || state != Ongoing {
        return;
      }
      var cell := grid[y][x];
      if cell.value == MINE {
        state := Lost;
        grid := grid[y := grid[y][x := cell.(revealed := true)]];
        SameValuesKeepLaws(old(grid), grid, width, height);
        return;
      }
      ghost var order := RevealCell(x, y);
      assert Floods(old(grid), grid, width, height, Pos(x, y), order);
      SameValuesKeepLaws(old(grid), grid, width, height);
      FloodsHidesMines(old(grid), grid, width, height, Pos(x, y), order);
      WinMeansAllSafeRevealed(grid, width, height);
      var won := CheckWin(grid, width, height);
      if won {
        state := Won;
      }
    }

    /** handleCellLongPress: outside an ongoing game nothing happens; otherwise
        the flag of the pressed cell flips, revealed or not. */
    method HandleCellLongPress(x: int, y: int)
      requires Valid() && InBounds(width, height, x, y)
      modifies this`grid
      ensures Valid() && state == old(state)
      ensures old(state) != Ongoing ==> grid == old(grid)
      ensures old(state) == Ongoing ==> grid == ToggleFlag(old(grid), width, height, x, y)
    {
      if state != Ongoing {
        return;
      }
      grid := ToggleFlag(grid, width, height, x, y);
      SameValuesKeepLaws(old(grid), grid, width, height);
    }
  }

  /** A 1 x 1 board without mines: the first tap reveals the lone cell and wins. */
  method SingleCellGame() returns (b: Board)
    ensures b.Valid() && b.width == 1 && b.height == 1
    ensures b.state == Won && b.grid[0][0].revealed
  {
    b := new Board(1, 1, 0, []);
    CountZero(b.grid, 1, 1, Mine);
    b.HandleCellClick(0, 0);
  }
}
