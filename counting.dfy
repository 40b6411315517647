/** Counting the cells of a grid that have a property: the flags the status
    line shows, the revealed cells and the mines the win test compares. */
module Counting {
  import opened Grids

  /** The properties of a cell that the engine counts. */
  datatype Kind = Flagged | Revealed | Mine | Safe

  predicate Has(c: Cell, k: Kind) {
    match k
    case Flagged => c.flagged
    case Revealed => c.revealed
    case Mine => c.value == MINE
    case Safe => c.value != MINE
  }

  function Bit(c: Cell, k: Kind): (b: nat) {
    if Has(c, k) then 1 else 0
  }

  /** The number of cells of `row` that have k. */
  function RowCount(row: seq<Cell>, k: Kind): (n: nat)
    ensures n <= |row|
  {
    if row == [] then 0 else RowCount(row[..|row| - 1], k) + Bit(row[|row| - 1], k)
  }

  /** The number of cells of `g` that have k. */
  function Count(g: Grid, k: Kind): (n: nat) {
    if g == [] then 0 else Count(g[..|g| - 1], k) + RowCount(g[|g| - 1], k)
  }

  /** Appending one cell to a scanned prefix adds its bit (the step of a counting loop). */
  lemma RowCountStep(row: seq<Cell>, i: nat, k: Kind)
    requires i < |row|
    ensures RowCount(row[..i + 1], k) == RowCount(row[..i], k) + Bit(row[i], k)
  {
    assert row[..i + 1][..i] == row[..i];
  }

  /** Appending one row to a scanned prefix adds its count. */
  lemma CountStep(g: Grid, j: nat, k: Kind)
    requires j < |g|
    ensures Count(g[..j + 1], k) == Count(g[..j], k) + RowCount(g[j], k)
  {
    assert g[..j + 1][..j] == g[..j];
  }

  /** A grid of `height` rows of `width` cells has at most width * height cells with k. */
  lemma {:induction false} CountBounded(g: Grid, width: nat, height: nat, k: Kind)
    requires Shaped(g, width, height)
    ensures Count(g, k) <= width * height
  {
    if height > 0 {
      CountBounded(g[..height - 1], width, height - 1, k);
      assert Count(g, k) <= width * (height - 1) + width;
    }
  }

  /** Mines and safe cells partition a row. */
  lemma {:induction false} RowMinesAndSafe(row: seq<Cell>)
    ensures RowCount(row, Mine) + RowCount(row, Safe) == |row|
  {
    if row != [] {
      RowMinesAndSafe(row[..|row| - 1]);
    }
  }

  /** Mines and safe cells partition the board. */
  lemma {:induction false} MinesAndSafe(g: Grid, width: nat, height: nat)
    requires Shaped(g, width, height)
    ensures Count(g, Mine) + Count(g, Safe) == width * height
  {
    if height > 0 {
      MinesAndSafe(g[..height - 1], width, height - 1);
      RowMinesAndSafe(g[height - 1]);
    }
  }

  /** Rows that agree on k cell by cell have the same count. */
  lemma {:induction false} RowCountAgree(r1: seq<Cell>, r2: seq<Cell>, k: Kind)
    requires |r1| == |r2|
    requires forall i | 0 <= i < |r1| :: Has(r1[i], k) == Has(r2[i], k)
    ensures RowCount(r1, k) == RowCount(r2, k)
  {
    if r1 != [] {
      RowCountAgree(r1[..|r1| - 1], r2[..|r2| - 1], k);
    }
  }

  /** Grids that agree on k cell by cell have the same count. */
  lemma {:induction false} CountAgree(g1: Grid, g2: Grid, width: nat, height: nat, k: Kind)
    requires Shaped(g1, width, height) && Shaped(g2, width, height)
    requires forall x, y | InBounds(width, height, x, y) :: Has(g1[y][x], k) == Has(g2[y][x], k)
    ensures Count(g1, k) == Count(g2, k)
  {
    if height > 0 {
      CountAgree(g1[..height - 1], g2[..height - 1], width, height - 1, k);
      RowCountAgree(g1[height - 1], g2[height - 1], k);
    }
  }

  /** Rows that agree on k except at index j differ in count by j's change. */
  lemma {:induction false} RowCountOneChange(r1: seq<Cell>, r2: seq<Cell>, k: Kind, j: nat)
    requires |r1| == |r2| && j < |r1|
    requires forall i | 0 <= i < |r1| && i != j :: Has(r1[i], k) == Has(r2[i], k)
    ensures RowCount(r2, k) == RowCount(r1, k) - Bit(r1[j], k) + Bit(r2[j], k)
  {
    var n := |r1| - 1;
    if j == n {
      RowCountAgree(r1[..n], r2[..n], k);
    } else {
      RowCountOneChange(r1[..n], r2[..n], k, j);
    }
  }

  /** Grids that agree on k except at (x, y) differ in count by that cell's change. */
  lemma {:induction false} CountOneChange(g1: Grid, g2: Grid, width: nat, height: nat, k: Kind, x: int, y: int)
    requires Shaped(g1, width, height) && Shaped(g2, width, height) && InBounds(width, height, x, y)
    requires forall a, b | InBounds(width, height, a, b) && (a != x || b != y) ::
      Has(g1[b][a], k) == Has(g2[b][a], k)
    ensures Count(g2, k) == Count(g1, k) - Bit(g1[y][x], k) + Bit(g2[y][x], k)
  {
    var n := height - 1;
    if y == n {
      CountAgree(g1[..n], g2[..n], width, n, k);
      RowCountOneChange(g1[n], g2[n], k, x);
    } else {
      CountOneChange(g1[..n], g2[..n], width, n, k, x, y);
      RowCountAgree(g1[n], g2[n], k);
    }
  }

  /** When every cell with p also has q, fewer cells have p, and equally many exactly when
      every cell with q has p as well. */
  lemma {:induction false} RowCountSub(row: seq<Cell>, p: Kind, q: Kind)
    requires forall i | 0 <= i < |row| :: Has(row[i], p) ==> Has(row[i], q)
    ensures RowCount(row, p) <= RowCount(row, q)
    ensures RowCount(row, p) == RowCount(row, q) <==> forall i | 0 <= i < |row| :: Has(row[i], q) ==> Has(row[i], p)
  {
    if row != [] {
      var n := |row| - 1;
      RowCountSub(row[..n], p, q);
      assert forall i | 0 <= i < n :: row[..n][i] == row[i];
    }
  }

  lemma {:induction false} CountSub(g: Grid, width: nat, height: nat, p: Kind, q: Kind)
    requires Shaped(g, width, height)
    requires forall x, y | InBounds(width, height, x, y) :: Has(g[y][x], p) ==> Has(g[y][x], q)
    ensures Count(g, p) <= Count(g, q)
    ensures Count(g, p) == Count(g, q) <==>
      forall x, y | InBounds(width, height, x, y) :: Has(g[y][x], q) ==> Has(g[y][x], p)
  {
    if height > 0 {
      var n := height - 1;
      CountSub(g[..n], width, n, p, q);
      RowCountSub(g[n], p, q);
    }
  }

  /** A count of zero means no cell has k. */
  lemma CountZero(g: Grid, width: nat, height: nat, k: Kind)
    requires Shaped(g, width, height) && Count(g, k) == 0
    ensures forall x, y | InBounds(width, height, x, y) :: !Has(g[y][x], k)
  {
    forall x, y | InBounds(width, height, x, y) && Has(g[y][x], k)
      ensures false
    {
      CountPositive(g, width, height, k, x, y);
    }
  }

  /** When no cell has k the count is zero. */
  lemma {:induction false} CountNone(g: Grid, width: nat, height: nat, k: Kind)
    requires Shaped(g, width, height)
    requires forall x, y | InBounds(width, height, x, y) :: !Has(g[y][x], k)
    ensures Count(g, k) == 0
  {
    if height > 0 {
      var n := height - 1;
      CountNone(g[..n], width, n, k);
      RowNone(g[n], k);
    }
  }

  lemma {:induction false} RowNone(row: seq<Cell>, k: Kind)
    requires forall i | 0 <= i < |row| :: !Has(row[i], k)
    ensures RowCount(row, k) == 0
  {
    if row != [] {
      RowNone(row[..|row| - 1], k);
    }
  }

  /** A cell with k makes the count positive. */
  lemma {:induction false} CountPositive(g: Grid, width: nat, height: nat, k: Kind, x: int, y: int)
    requires Shaped(g, width, height) && InBounds(width, height, x, y) && Has(g[y][x], k)
    ensures Count(g, k) > 0
  {
    var n := height - 1;
    if y == n {
      RowPositive(g[n], k, x);
    } else {
      CountPositive(g[..n], width, n, k, x, y);
    }
  }

  lemma {:induction false} RowPositive(row: seq<Cell>, k: Kind, i: nat)
    requires i < |row| && Has(row[i], k)
    ensures RowCount(row, k) > 0
  {
    var n := |row| - 1;
    if i < n {
      RowPositive(row[..n], k, i);
    }
  }
}
