/** Cells, grids and the neighbourhood of a cell: the vocabulary every other
    module of the board engine states its properties with. */
module Grids {

  /** The `value` a cell holds when it contains a mine. */
  const MINE: int := -1

  /** One grid position: the adjacency count (or MINE), and the two player marks. */
  datatype Cell = Cell(value: int, revealed: bool, flagged: bool)

  /** A position on the board: `x` is the column, `y` is the row. */
  datatype Pos = Pos(x: int, y: int)

  /** A grid is a list of rows; the cell in column x of row y is `g[y][x]`. */
  type Grid = seq<seq<Cell>>

  /** The grid has `height` rows of `width` cells each. */
  predicate Shaped(g: Grid, width: int, height: int) {
    |g| == height && forall y | 0 <= y < height :: |g[y]| == width
  }

  predicate InBounds(width: int, height: int, x: int, y: int) {
    0 <= x < width && 0 <= y < height
  }

  /** q is one of the (up to) eight cells around p. */
  predicate Adjacent(p: Pos, q: Pos) {
    -1 <= p.x - q.x <= 1 && -1 <= p.y - q.y <= 1 && p != q
  }

  /** 1 when (x, y) is on the board and holds a mine, else 0. */
  function MineAt(g: Grid, width: int, height: int, x: int, y: int): (m: nat)
    requires Shaped(g, width, height)
  {
    if InBounds(width, height, x, y) && g[y][x].value == MINE then 1 else 0
  }

  /** The number of mines among the in-bounds 8-neighbours of (x, y). */
  function MinesAround(g: Grid, width: int, height: int, x: int, y: int): (n: nat)
    requires Shaped(g, width, height)
  {
    MineAt(g, width, height, x - 1, y - 1) + MineAt(g, width, height, x, y - 1) + MineAt(g, width, height, x + 1, y - 1) +
    MineAt(g, width, height, x - 1, y) + MineAt(g, width, height, x + 1, y) +
    MineAt(g, width, height, x - 1, y + 1) + MineAt(g, width, height, x, y + 1) + MineAt(g, width, height, x + 1, y + 1)
  }

  /** A mine on a neighbour of (x, y) is one of the mines MinesAround counts. */
  lemma MineCountsForNeighbour(g: Grid, width: int, height: int, a: int, b: int, x: int, y: int)
    requires Shaped(g, width, height) && Adjacent(Pos(a, b), Pos(x, y))
    ensures MinesAround(g, width, height, x, y) >= MineAt(g, width, height, a, b)
  {
    if a == x - 1 {
      assert b == y - 1 || b == y || b == y + 1;
    } else if a == x {
      assert b == y - 1 || b == y + 1;
    } else {
      assert b == y - 1 || b == y || b == y + 1;
    }
  }

  /** The adjacency-count law: every cell is a mine or counts the mines around it. */
  ghost predicate CountsCorrect(g: Grid, width: int, height: int)
    requires Shaped(g, width, height)
  {
    forall x, y | InBounds(width, height, x, y) ::
      g[y][x].value == MINE || g[y][x].value == MinesAround(g, width, height, x, y)
  }

  /** No mine has another mine among its neighbours. */
  ghost predicate MinesApart(g: Grid, width: int, height: int)
    requires Shaped(g, width, height)
  {
    forall x, y | InBounds(width, height, x, y) && g[y][x].value == MINE ::
      MinesAround(g, width, height, x, y) == 0
  }

  /** Every cell is still covered: neither revealed nor flagged. */
  ghost predicate Covered(g: Grid, width: int, height: int)
    requires Shaped(g, width, height)
  {
    forall x, y | InBounds(width, height, x, y) :: !g[y][x].revealed && !g[y][x].flagged
  }

  ghost predicate NoMineRevealed(g: Grid, width: int, height: int)
    requires Shaped(g, width, height)
  {
    forall x, y | InBounds(width, height, x, y) && g[y][x].revealed :: g[y][x].value != MINE
  }

  ghost predicate AllSafeRevealed(g: Grid, width: int, height: int)
    requires Shaped(g, width, height)
  {
    forall x, y | InBounds(width, height, x, y) && g[y][x].value != MINE :: g[y][x].revealed
  }

  /** A cell the cascade opens when it reaches it: on the board, covered, unflagged, no mine. */
  predicate Eligible(g: Grid, width: int, height: int, p: Pos)
    requires Shaped(g, width, height)
  {
    InBounds(width, height, p.x, p.y) &&
    !g[p.y][p.x].revealed && !g[p.y][p.x].flagged && g[p.y][p.x].value != MINE
  }

  /** p is on the board and has no mine around it. */
  predicate ZeroAt(g: Grid, width: int, height: int, p: Pos)
    requires Shaped(g, width, height)
  {
    InBounds(width, height, p.x, p.y) && g[p.y][p.x].value == 0
  }

  /** g1 has the shape of g0 and the same value in every cell (the marks may differ). */
  ghost predicate SameValues(g0: Grid, g1: Grid, width: int, height: int)
    requires Shaped(g0, width, height)
  {
    Shaped(g1, width, height) &&
    forall x, y | InBounds(width, height, x, y) :: g1[y][x].value == g0[y][x].value
  }

  /** Marks never change the mines, so the adjacency law and the spacing of mines survive them. */
  lemma SameValuesKeepLaws(g0: Grid, g1: Grid, width: int, height: int)
    requires Shaped(g0, width, height) && SameValues(g0, g1, width, height)
    ensures forall x, y :: MinesAround(g1, width, height, x, y) == MinesAround(g0, width, height, x, y)
    ensures CountsCorrect(g0, width, height) ==> CountsCorrect(g1, width, height)
    ensures MinesApart(g0, width, height) ==> MinesApart(g1, width, height)
  {
    assert forall x, y :: MineAt(g1, width, height, x, y) == MineAt(g0, width, height, x, y);
  }

  /** Two grids of one shape that agree on every cell are the same grid. */
  lemma SameCells(g1: Grid, g2: Grid, width: int, height: int)
    requires Shaped(g1, width, height) && Shaped(g2, width, height)
    requires forall x, y | InBounds(width, height, x, y) :: g1[y][x] == g2[y][x]
    ensures g1 == g2
  {
    forall y | 0 <= y < height
      ensures g1[y] == g2[y]
    {
      assert forall x | 0 <= x < width :: g1[y][x] == g2[y][x];
    }
  }

  /** The eight neighbours of (col, row), in the order the cascade visits them. */
  function Neighbours(col: int, row: int): (ns: seq<Pos>)
    ensures |ns| == 8
  {
    [Pos(col - 1, row - 1), Pos(col, row - 1), Pos(col + 1, row - 1),
     Pos(col - 1, row),                         Pos(col + 1, row),
     Pos(col - 1, row + 1), Pos(col, row + 1), Pos(col + 1, row + 1)]
  }

  /** Neighbours lists exactly the adjacent positions. */
  lemma NeighboursExact(col: int, row: int, q: Pos)
    ensures Adjacent(Pos(col, row), q) <==> q in Neighbours(col, row)
  {
    if Adjacent(Pos(col, row), q) {
      var dx, dy := q.x - col, q.y - row;
      assert q == Neighbours(col, row)[if dy == -1 then dx + 1 else if dy == 0 then (if dx == -1 then 3 else 4) else dx + 6];
    }
  }

  /** Flip the flag of the cell at (x, y). */
  function ToggleFlag(g: Grid, width: int, height: int, x: int, y: int): (r: Grid)
    requires Shaped(g, width, height) && InBounds(width, height, x, y)
    ensures Shaped(r, width, height) && SameValues(g, r, width, height)
    ensures r[y][x].flagged == !g[y][x].flagged && r[y][x].revealed == g[y][x].revealed
  {
    g[y := g[y][x := g[y][x].(flagged := !g[y][x].flagged)]]
  }

  /** Toggling flips the target's flag and leaves every other mark and value alone. */
  lemma ToggleFlagExact(g: Grid, width: int, height: int, x: int, y: int)
    requires Shaped(g, width, height) && InBounds(width, height, x, y)
    ensures ToggleFlag(g, width, height, x, y)[y][x].flagged == !g[y][x].flagged
    ensures forall b, a | InBounds(width, height, a, b) ::
      var c, d := ToggleFlag(g, width, height, x, y)[b][a], g[b][a];
      c.value == d.value && c.revealed == d.revealed && (a != x || b != y ==> c.flagged == d.flagged)
  {
  }

  /** Two long presses on the same cell give back the original grid. */
  lemma ToggleFlagTwice(g: Grid, width: int, height: int, x: int, y: int)
    requires Shaped(g, width, height) && InBounds(width, height, x, y)
    ensures ToggleFlag(ToggleFlag(g, width, height, x, y), width, height, x, y) == g
  {
    var r := ToggleFlag(ToggleFlag(g, width, height, x, y), width, height, x, y);
    assert r[y] == g[y];
  }
}
