/** Grid generation (`createGrid`): a height x width grid of covered cells,
    then mines placed by rejection sampling, with the adjacency counts kept up
    to date as each mine goes down. The random column and row of each attempt
    are an input sequence of candidate positions. */
module Placement {
  import opened Grids
  import opened Counting

  /** What placing a mine at (x, y) does to the cell at (a, b): the target
      becomes a mine, every other in-bounds neighbour that is not a mine gains
      one, and every other cell is left alone. */
  function Bumped(c: Cell, a: int, b: int, x: int, y: int): (d: Cell) {
    if a == x && b == y then c.(value := MINE)
    else if Adjacent(Pos(a, b), Pos(x, y)) && c.value != MINE then c.(value := c.value + 1)
    else c
  }

  /** g1 is g0 after a mine was placed at (x, y). */
  ghost predicate PlacedAt(g0: Grid, g1: Grid, width: nat, height: nat, x: int, y: int)
    requires Shaped(g0, width, height)
  {
    Shaped(g1, width, height) &&
    forall a, b | InBounds(width, height, a, b) :: g1[b][a] == Bumped(g0[b][a], a, b, x, y)
  }

  /** The mine at (x, y) is the only change in where the mines are. */
  lemma PlacedMines(g0: Grid, g1: Grid, width: nat, height: nat, x: int, y: int)
    requires Shaped(g0, width, height) && CountsCorrect(g0, width, height)
    requires InBounds(width, height, x, y) && g0[y][x].value != MINE
    requires PlacedAt(g0, g1, width, height, x, y)
    ensures forall a, b ::
              MineAt(g1, width, height, a, b) == MineAt(g0, width, height, a, b) + (if a == x && b == y then 1 else 0)
  {
    forall a, b
      ensures MineAt(g1, width, height, a, b) == MineAt(g0, width, height, a, b) + (if a == x && b == y then 1 else 0)
    {
      if InBounds(width, height, a, b) {
        assert g1[b][a] == Bumped(g0[b][a], a, b, x, y);
      }
    }
  }

  /** Placing a mine where none was adds one to the mine count of each of its
      neighbours and to nothing else. */
  lemma MinesAroundAfterPlacing(g0: Grid, g1: Grid, width: nat, height: nat, x: int, y: int, a: int, b: int)
    requires Shaped(g0, width, height) && CountsCorrect(g0, width, height)
    requires InBounds(width, height, x, y) && g0[y][x].value != MINE
    requires PlacedAt(g0, g1, width, height, x, y)
    ensures MinesAround(g1, width, height, a, b) ==
      MinesAround(g0, width, height, a, b) + (if Adjacent(Pos(a, b), Pos(x, y)) then 1 else 0)
  {
    PlacedMines(g0, g1, width, height, x, y);
  }

  /** The adjacency law and the spacing of mines at one cell (a, b), after a
      mine went onto the cell (x, y) of value 0. */
  lemma PlacingKeepsLawsAt(g0: Grid, g1: Grid, width: nat, height: nat, x: int, y: int, a: int, b: int)
    requires Shaped(g0, width, height) && CountsCorrect(g0, width, height) && MinesApart(g0, width, height)
    requires InBounds(width, height, x, y) && g0[y][x].value == 0
    requires PlacedAt(g0, g1, width, height, x, y)
    requires InBounds(width, height, a, b)
    ensures g1[b][a].value == MINE || g1[b][a].value == MinesAround(g1, width, height, a, b)
    ensures g1[b][a].value == MINE ==> MinesAround(g1, width, height, a, b) == 0
  {
    MinesAroundAfterPlacing(g0, g1, width, height, x, y, a, b);
    assert g1[b][a] == Bumped(g0[b][a], a, b, x, y);
    if g0[b][a].value == MINE && Adjacent(Pos(a, b), Pos(x, y)) {
      // a mine next to (x, y) would have given (x, y) a positive value
      MineCountsForNeighbour(g0, width, height, a, b, x, y);
      assert false;
    }
  }

  /** A mine placed on a cell of value 0 keeps the adjacency law, keeps mines
      apart, and adds exactly one mine. */
  lemma PlacingKeepsLaws(g0: Grid, g1: Grid, width: nat, height: nat, x: int, y: int)
    requires Shaped(g0, width, height) && CountsCorrect(g0, width, height) && MinesApart(g0, width, height)
    requires InBounds(width, height, x, y) && g0[y][x].value == 0
    requires PlacedAt(g0, g1, width, height, x, y)
    ensures CountsCorrect(g1, width, height)
    ensures MinesApart(g1, width, height)
    ensures Count(g1, Mine) == Count(g0, Mine) + 1
  {
    forall a, b | InBounds(width, height, a, b)
      ensures g1[b][a].value == MINE || g1[b][a].value == MinesAround(g1, width, height, a, b)
      ensures g1[b][a].value == MINE ==> MinesAround(g1, width, height, a, b) == 0
    {
      PlacingKeepsLawsAt(g0, g1, width, height, x, y, a, b);
    }
    PlacedMines(g0, g1, width, height, x, y);
    assert forall a, b | InBounds(width, height, a, b) :: Has(g1[b][a], Mine) == (MineAt(g1, width, height, a, b) == 1);
    assert forall a, b | InBounds(width, height, a, b) :: Has(g0[b][a], Mine) == (MineAt(g0, width, height, a, b) == 1);
    CountOneChange(g0, g1, width, height, Mine, x, y);
  }

  /** Every mine of g lies on one of the first `used` attempts. */
  ghost predicate MinesDrawn(g: Grid, width: nat, height: nat, draws: seq<Pos>, used: nat)
    requires Shaped(g, width, height)
  {
    forall x, y | InBounds(width, height, x, y) && g[y][x].value == MINE ::
      exists i | 0 <= i < used && i < |draws| :: draws[i] == Pos(x, y)
  }

  /** Placing a mine on the attempt draws[used] leaves every cell covered, and
      every mine on an attempt made so far. */
  lemma PlacingKeepsMarks(g0: Grid, g1: Grid, width: nat, height: nat, draws: seq<Pos>, used: nat)
    requires Shaped(g0, width, height) && CountsCorrect(g0, width, height)
    requires used < |draws| && InBounds(width, height, draws[used].x, draws[used].y)
    requires PlacedAt(g0, g1, width, height, draws[used].x, draws[used].y)
    requires Covered(g0, width, height) && MinesDrawn(g0, width, height, draws, used)
    ensures Covered(g1, width, height) && MinesDrawn(g1, width, height, draws, used + 1)
  {
    var x, y := draws[used].x, draws[used].y;
    forall a, b | InBounds(width, height, a, b)
      ensures !g1[b][a].revealed && !g1[b][a].flagged
      ensures g1[b][a].value == MINE ==> exists i | 0 <= i < used + 1 && i < |draws| :: draws[i] == Pos(a, b)
    {
      assert g1[b][a] == Bumped(g0[b][a], a, b, x, y);
      if g1[b][a].value == MINE && (a != x || b != y) {
        assert g0[b][a].value == MINE;
      }
    }
  }

  /** Every one of the first `used` attempts is on the board and hit a cell
      whose value is no longer 0: a mine, or a neighbour of one. */
  ghost predicate Tried(g: Grid, width: nat, height: nat, draws: seq<Pos>, used: nat)
    requires Shaped(g, width, height)
  {
    forall i | 0 <= i < used && i < |draws| :: Hit(g, width, height, draws, i)
  }

  /** Attempt i is on the board and its cell's value is not 0. */
  predicate Hit(g: Grid, width: nat, height: nat, draws: seq<Pos>, i: int)
    requires Shaped(g, width, height) && 0 <= i < |draws|
  {
    InBounds(width, height, draws[i].x, draws[i].y) && g[draws[i].y][draws[i].x].value != 0
  }

  /** A placement never brings a cell back to 0: the target becomes a mine and
      a bumped neighbour was not a mine, so its value does not rise from -1. */
  lemma PlacingKeepsTried(g0: Grid, g1: Grid, width: nat, height: nat, draws: seq<Pos>, used: nat)
    requires Shaped(g0, width, height)
    requires used < |draws| && InBounds(width, height, draws[used].x, draws[used].y)
    requires PlacedAt(g0, g1, width, height, draws[used].x, draws[used].y)
    requires Tried(g0, width, height, draws, used)
    ensures Tried(g1, width, height, draws, used + 1)
  {
    var x, y := draws[used].x, draws[used].y;
    forall i | 0 <= i < used + 1 && i < |draws|
      ensures Hit(g1, width, height, draws, i)
    {
      if i < used {
        assert Hit(g0, width, height, draws, i);
      }
      var a, b := draws[i].x, draws[i].y;
      assert g1[b][a] == Bumped(g0[b][a], a, b, x, y);
    }
  }

  /** An attempt that places nothing keeps every mine on an attempt made so far. */
  lemma SkippingKeepsMarks(g: Grid, width: nat, height: nat, draws: seq<Pos>, used: nat)
    requires Shaped(g, width, height)
    requires MinesDrawn(g, width, height, draws, used)
    ensures MinesDrawn(g, width, height, draws, used + 1)
  {
    forall x, y | InBounds(width, height, x, y) && g[y][x].value == MINE
      ensures exists i | 0 <= i < used + 1 && i < |draws| :: draws[i] == Pos(x, y)
    {
      var i :| 0 <= i < used && i < |draws| && draws[i] == Pos(x, y);
    }
  }

  /** An attempt on a cell whose value is not 0 is used up, and that cell still
      is not 0. */
  lemma SkippingKeepsTried(g: Grid, width: nat, height: nat, draws: seq<Pos>, used: nat)
    requires Shaped(g, width, height)
    requires used < |draws| && InBounds(width, height, draws[used].x, draws[used].y)
    requires g[draws[used].y][draws[used].x].value != 0
    requires Tried(g, width, height, draws, used)
    ensures Tried(g, width, height, draws, used + 1)
  {
    assert Hit(g, width, height, draws, used);
  }

  /** The grid createGrid starts from: `height` rows of `width` covered cells of value 0. */
  function Blank(width: nat, height: nat): (g: Grid)
    ensures Shaped(g, width, height)
    ensures forall x, y | InBounds(width, height, x, y) :: g[y][x] == Cell(0, false, false)
  {
    seq(height, _ => seq(width, _ => Cell(0, false, false)))
  }

  /** The grid with a mine dropped on (x, y), as one expression. */
  function Placed(g: Grid, width: nat, height: nat, x: int, y: int): (r: Grid)
    requires Shaped(g, width, height)
    ensures PlacedAt(g, r, width, height, x, y)
  {
    seq(height, b requires 0 <= b < height =>
      seq(width, a requires 0 <= a < width => Bumped(g[b][a], a, b, x, y)))
  }

  /** A placement has one outcome. */
  lemma PlacedAtUnique(g0: Grid, g1: Grid, g2: Grid, width: nat, height: nat, x: int, y: int)
    requires Shaped(g0, width, height)
    requires PlacedAt(g0, g1, width, height, x, y) && PlacedAt(g0, g2, width, height, x, y)
    ensures g1 == g2
  {
    SameCells(g1, g2, width, height);
  }

  /** The grid after the first n random attempts: an attempt places a mine when
      fewer than bombCount mines are down and its cell has value 0, and is
      wasted otherwise. */
  ghost function Attempted(width: nat, height: nat, bombCount: int, draws: seq<Pos>, n: nat): (g: Grid)
    requires n <= |draws|
    requires forall i | 0 <= i < |draws| :: InBounds(width, height, draws[i].x, draws[i].y)
    ensures Shaped(g, width, height)
  {
    if n == 0 then Blank(width, height)
    else
      var g := Attempted(width, height, bombCount, draws, n - 1);
      var p := draws[n - 1];
      if Count(g, Mine) < bombCount && g[p.y][p.x].value == 0 then Placed(g, width, height, p.x, p.y) else g
  }

  /** An attempt on a cell of value 0, with mines still to place, puts one there. */
  lemma AttemptPlaces(width: nat, height: nat, bombCount: int, draws: seq<Pos>, n: nat, m: nat, g: Grid, next: Grid)
    requires n < |draws| && m == n + 1
    requires forall i | 0 <= i < |draws| :: InBounds(width, height, draws[i].x, draws[i].y)
    requires g == Attempted(width, height, bombCount, draws, n)
    requires Count(g, Mine) < bombCount && g[draws[n].y][draws[n].x].value == 0
    requires PlacedAt(g, next, width, height, draws[n].x, draws[n].y)
    ensures next == Attempted(width, height, bombCount, draws, m)
  {
    PlacedAtUnique(g, next, Placed(g, width, height, draws[n].x, draws[n].y), width, height, draws[n].x, draws[n].y);
  }

  /** An attempt on a cell whose value is not 0 changes nothing. */
  lemma AttemptSkips(width: nat, height: nat, bombCount: int, draws: seq<Pos>, n: nat, m: nat, g: Grid)
    requires n < |draws| && m == n + 1
    requires forall i | 0 <= i < |draws| :: InBounds(width, height, draws[i].x, draws[i].y)
    requires g == Attempted(width, height, bombCount, draws, n)
    requires g[draws[n].y][draws[n].x].value != 0
    ensures g == Attempted(width, height, bombCount, draws, m)
  {
  }

  /** After the first n attempts fewer than bombCount mines are down. */
  ghost predicate Short(width: nat, height: nat, bombCount: int, draws: seq<Pos>, n: nat)
    requires n <= |draws|
    requires forall i | 0 <= i < |draws| :: InBounds(width, height, draws[i].x, draws[i].y)
  {
    Count(Attempted(width, height, bombCount, draws, n), Mine) < bombCount
  }

  /** Each of the first `used` attempts was made while fewer than bombCount
      mines were down: no draw is taken once enough mines are placed. */
  ghost predicate DrewWhileShort(width: nat, height: nat, bombCount: int, draws: seq<Pos>, used: nat)
    requires used <= |draws|
    requires forall i | 0 <= i < |draws| :: InBounds(width, height, draws[i].x, draws[i].y)
  {
    forall n | 0 <= n < used :: Short(width, height, bombCount, draws, n)
  }

  /** An attempt made while mines are missing keeps DrewWhileShort one attempt further. */
  lemma DrawWhileShort(width: nat, height: nat, bombCount: int, draws: seq<Pos>, n: nat, m: nat)
    requires n < |draws| && m == n + 1
    requires forall i | 0 <= i < |draws| :: InBounds(width, height, draws[i].x, draws[i].y)
    requires DrewWhileShort(width, height, bombCount, draws, n)
    requires Short(width, height, bombCount, draws, n)
    ensures DrewWhileShort(width, height, bombCount, draws, m)
  {
    forall k | 0 <= k < m
      ensures Short(width, height, bombCount, draws, k)
    {
      if k < n {
        assert Short(width, height, bombCount, draws, k);
      } else {
        assert k == n;
      }
    }
  }

  /** The number of attempts createGrid makes is fixed by the draws: it is the
      first n after which no mine is missing, or all of them. Two attempt counts
      that both draw only while mines are missing, and both stop short only at
      the end of the draws, are equal. */
  lemma AttemptsDetermined(width: nat, height: nat, bombCount: int, draws: seq<Pos>, u1: nat, u2: nat)
    requires u1 <= |draws| && u2 <= |draws|
    requires forall i | 0 <= i < |draws| :: InBounds(width, height, draws[i].x, draws[i].y)
    requires DrewWhileShort(width, height, bombCount, draws, u1) && DrewWhileShort(width, height, bombCount, draws, u2)
    requires Short(width, height, bombCount, draws, u1) ==> u1 == |draws|
    requires Short(width, height, bombCount, draws, u2) ==> u2 == |draws|
    ensures u1 == u2
  {
  }

  /** A fully covered grid of `height` rows of `width` cells with value 0. */
  method EmptyGrid(width: nat, height: nat) returns (grid: Grid)
    ensures grid == Blank(width, height)
  {
    grid := [];
    for y := 0 to height
      invariant |grid| == y
      invariant forall b | 0 <= b < y :: |grid[b]| == width
      invariant forall a, b | 0 <= b < y && 0 <= a < width :: grid[b][a] == Cell(0, false, false)
    {
      var row: seq<Cell> := [];
      for x := 0 to width
        invariant |row| == x
        invariant forall a | 0 <= a < x :: row[a] == Cell(0, false, false)
      {
        row := row + [Cell(0, false, false)];
      }
      grid := grid + [row];
    }
    SameCells(grid, Blank(width, height), width, height);
  }

  /** Put a mine at (x, y) and increment every in-bounds neighbour that is not a mine. */
  method PlaceMine(grid: Grid, width: nat, height: nat, x: int, y: int) returns (g: Grid)
    requires Shaped(grid, width, height) && InBounds(width, height, x, y)
    ensures g == Placed(grid, width, height, x, y)
  {
    g := grid[y := grid[y][x := grid[y][x].(value := MINE)]];
    for yOffset := -1 to 2
      invariant Shaped(g, width, height)
      invariant forall a, b | InBounds(width, height, a, b) ::
        g[b][a] == if (a == x && b == y) || b - y < yOffset then Bumped(grid[b][a], a, b, x, y) else grid[b][a]
    {
      for xOffset := -1 to 2
        invariant Shaped(g, width, height)
        invariant forall a, b | InBounds(width, height, a, b) ::
          g[b][a] == if (a == x && b == y) || b - y < yOffset || (b - y == yOffset && a - x < xOffset)
                     then Bumped(grid[b][a], a, b, x, y) else grid[b][a]
      {
        if x + xOffset >= 0 && x + xOffset < width && y + yOffset >= 0 && y + yOffset < height {
          var cell := g[y + yOffset][x + xOffset];
          if cell.value != MINE {
            g := g[y + yOffset := g[y + yOffset][x + xOffset := cell.(value := cell.value + 1)]];
          }
        }
      }
    }
    PlacedAtUnique(grid, g, Placed(grid, width, height, x, y), width, height, x, y);
  }

  /** One pass of createGrid's placement loop, on the attempt draws[used]: when
      its cell has value 0 a mine goes there and the neighbours are bumped.
      `attempts` is the number of attempts made once this one is done. */
  method TryPlace(grid: Grid, width: nat, height: nat, bombCount: int, draws: seq<Pos>, used: nat)
      returns (next: Grid, placed: bool, attempts: nat)
    requires forall i | 0 <= i < |draws| :: InBounds(width, height, draws[i].x, draws[i].y)
    requires used < |draws| && Count(grid, Mine) < bombCount
    requires grid == Attempted(width, height, bombCount, draws, used)
    requires Covered(grid, width, height) && CountsCorrect(grid, width, height) && MinesApart(grid, width, height)
    requires MinesDrawn(grid, width, height, draws, used) && Tried(grid, width, height, draws, used)
    ensures attempts == used + 1 && Shaped(next, width, height)
    ensures next == Attempted(width, height, bombCount, draws, attempts)
    ensures Covered(next, width, height) && CountsCorrect(next, width, height) && MinesApart(next, width, height)
    ensures MinesDrawn(next, width, height, draws, attempts) && Tried(next, width, height, draws, attempts)
    ensures placed <==> grid[draws[used].y][draws[used].x].value == 0
    ensures Count(next, Mine) == Count(grid, Mine) + (if placed then 1 else 0)
  {
    var x, y := draws[used].x, draws[used].y;
    if grid[y][x].value == 0 {
      next := PlaceMine(grid, width, height, x, y);
      PlacingKeepsLaws(grid, next, width, height, x, y);
      PlacingKeepsMarks(grid, next, width, height, draws, used);
      PlacingKeepsTried(grid, next, width, height, draws, used);
      AttemptPlaces(width, height, bombCount, draws, used, used + 1, grid, next);
      placed := true;
    } else {
      SkippingKeepsMarks(grid, width, height, draws, used);
      SkippingKeepsTried(grid, width, height, draws, used);
      AttemptSkips(width, height, bombCount, draws, used, used + 1, grid);
      next, placed := grid, false;
    }
    attempts := used + 1;
  }

  /** createGrid with the random attempts given as `draws`. Each attempt that
      hits a cell of value 0 places a mine there; placement stops once
      `bombCount` mines are down or the draws are used up. */
  method CreateGrid(width: nat, height: nat, bombCount: int, draws: seq<Pos>) returns (grid: Grid, used: nat)
    requires forall i | 0 <= i < |draws| :: InBounds(width, height, draws[i].x, draws[i].y)
    ensures Shaped(grid, width, height)
    ensures Covered(grid, width, height)
    ensures CountsCorrect(grid, width, height)
    ensures MinesApart(grid, width, height)
    ensures bombCount <= 0 ==> Count(grid, Mine) == 0 && used == 0
    ensures bombCount > 0 ==> Count(grid, Mine) <= bombCount
    ensures used <= |draws|
    ensures Count(grid, Mine) < bombCount ==> used == |draws|
    ensures bombCount > 0 && used < |draws| ==> Count(grid, Mine) == bombCount
    ensures MinesDrawn(grid, width, height, draws, used)
    ensures Tried(grid, width, height, draws, used)
    ensures grid == Attempted(width, height, bombCount, draws, used)
    ensures DrewWhileShort(width, height, bombCount, draws, used)
  {
    grid := EmptyGrid(width, height);
    CountZeroOnEmpty(grid, width, height);
    var bombs := 0;
    used := 0;
    while bombs < bombCount && used < |draws|
      invariant Shaped(grid, width, height)
      invariant Covered(grid, width, height)
      invariant CountsCorrect(grid, width, height)
      invariant MinesApart(grid, width, height)
      invariant Count(grid, Mine) == bombs
      invariant bombs == 0 || bombs <= bombCount
      invariant used <= |draws|
      invariant bombCount <= 0 ==> used == 0
      invariant MinesDrawn(grid, width, height, draws, used)
      invariant Tried(grid, width, height, draws, used)
      invariant grid == Attempted(width, height, bombCount, draws, used)
      invariant DrewWhileShort(width, height, bombCount, draws, used)
    {
      var placed;
      ghost var tried := used;
      grid, placed, used := TryPlace(grid, width, height, bombCount, draws, used);
      DrawWhileShort(width, height, bombCount, draws, tried, used);
      if placed {
        bombs := bombs + 1;
      }
    }
  }

  /** The starting grid has no mines and satisfies the adjacency law. */
  lemma CountZeroOnEmpty(grid: Grid, width: nat, height: nat)
    requires Shaped(grid, width, height)
    requires forall x, y | InBounds(width, height, x, y) :: grid[y][x] == Cell(0, false, false)
    ensures Covered(grid, width, height) && CountsCorrect(grid, width, height) && MinesApart(grid, width, height)
    ensures Count(grid, Mine) == 0
  {
    assert forall x, y :: MineAt(grid, width, height, x, y) == 0;
    CountNone(grid, width, height, Mine);
  }

  /** On a 1 x 1 board, one mine asked for and one attempt: the mine is placed. */
  method OneCellOneMine() returns (grid: Grid)
    ensures grid == [[Cell(MINE, false, false)]]
  {
    var used;
    grid, used := CreateGrid(1, 1, 1, [Pos(0, 0)]);
    assert Hit(grid, 1, 1, [Pos(0, 0)], 0);
    assert grid[0][0].value == MINE;
    SameCells(grid, [[Cell(MINE, false, false)]], 1, 1);
  }
}
