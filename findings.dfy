/** Three lines of GameBoard.js as they are written, each beside a concrete
    input on which it misbehaves. The rest of the model uses the corrected
    forms: InBounds in Board.RevealCell, Neighbours for its recursive calls,
    and width * height in CheckWin. */
module SourceDefects {
  import opened Grids
  import opened Counting

  /** The guard of revealCell as written, reading `this.width` and
      `this.height` as the board's width and height: a cell passes when
      row < height - 1 and col < width - 1. That reading is generous: `this`
      inside the arrow function is not the component, so `this.height` either
      throws (`this` undefined) or is `undefined`, in which case
      `this.height - 1` is NaN, both `>=` tests are false, the guard has no
      upper bound, and an off-board neighbour makes `grid[row][col]` throw. */
  function WrittenRevealBounds(width: int, height: int, col: int, row: int): (inside: bool)
    ensures inside ==> InBounds(width, height, col, row)
  {
    !(row < 0 || row >= height - 1 || col < 0 || col >= width - 1)
  }

  /** The written guard turns away every cell of the last row (and of the
      last column), so those cells are never opened, by a click or by the cascade. */
  lemma WrittenBoundsSkipLastRow(width: nat, height: nat, col: int)
    requires height >= 1 && 0 <= col < width
    ensures InBounds(width, height, col, height - 1)
    ensures !WrittenRevealBounds(width, height, col, height - 1)
  {
  }

  /** The cells the eight recursive calls of revealCell(grid, col, row) reach
      as written: each call passes the row offset as the column and the
      column offset as the row. */
  function WrittenRecursionTargets(col: int, row: int): (ts: seq<Pos>)
    ensures |ts| == 8
    ensures forall k | 0 <= k < 8 :: ts[k] == Pos(Neighbours(col, row)[k].y, Neighbours(col, row)[k].x)
  {
    [Pos(row - 1, col - 1), Pos(row - 1, col), Pos(row - 1, col + 1),
     Pos(row, col - 1),                         Pos(row, col + 1),
     Pos(row + 1, col - 1), Pos(row + 1, col), Pos(row + 1, col + 1)]
  }

  /** From (col, row) = (2, 0) the first written call lands on (-1, 1),
      which is not a neighbour, while the corrected list holds only neighbours. */
  lemma WrittenTargetsLeaveNeighbourhood()
    ensures WrittenRecursionTargets(2, 0)[0] == Pos(-1, 1)
    ensures !Adjacent(Pos(2, 0), WrittenRecursionTargets(2, 0)[0])
    ensures forall k | 0 <= k < 8 :: Adjacent(Pos(2, 0), Neighbours(2, 0)[k])
  {
  }

  /** What `this.gridSize` gives inside checkWin: nothing in the component
      defines it, so it is `undefined`; `Side(n)` stands for the case where some
      integer side length were supplied. */
  datatype SideLength = Undefined | Side(n: int)

  /** The win test of checkWin as written. With `gridSize` undefined,
      `undefined ** 2` is NaN, NaN minus the mine count is NaN, and no number is
      `===` to NaN, so the test is false on every board (and were `this` itself
      undefined, the read would throw: no win either). With an integer side it
      compares the revealed count with its square minus the mines. */
  function WrittenWinTest(grid: Grid, gridSize: SideLength): (passes: bool)
    ensures passes ==>
      gridSize.Side? && Count(grid, Revealed) + Count(grid, Mine) == gridSize.n * gridSize.n
  {
    match gridSize
    case Undefined => false
    case Side(n) => Count(grid, Revealed) == n * n - Count(grid, Mine)
  }

  /** No integer squares to 2. */
  lemma NoSquareIsTwo(n: int)
    ensures n * n != 2
  {
    if n >= 2 {
      assert n * n >= 2 * n;
    } else if n <= -2 {
      assert n * n >= -2 * n;
    }
  }

  /** A 2 x 1 board with no mine and both cells revealed is won, yet the
      written test fails on it, for `gridSize` undefined and for every integer
      side length alike. */
  lemma WrittenWinTestMissesWin(gridSize: SideLength)
    ensures var g := [[Cell(0, true, false), Cell(0, true, false)]];
      Shaped(g, 2, 1) && AllSafeRevealed(g, 2, 1) && !WrittenWinTest(g, gridSize)
  {
    var g := [[Cell(0, true, false), Cell(0, true, false)]];
    assert g[..0] == [];
    assert g[0][..1][..0] == [];
    assert g[0][..1] == [Cell(0, true, false)];
    assert Count(g, Revealed) == 2 && Count(g, Mine) == 0;
    if gridSize.Side? {
      NoSquareIsTwo(gridSize.n);
    }
  }
}
