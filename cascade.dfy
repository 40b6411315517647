/** What the flood-fill reveal (`revealCell`) does to a grid, stated as a
    relation between the grid before (g0) and after (g1) a call, and the
    order in which the call opened cells. */
module Cascade {
  import opened Grids

  /** Only `revealed` marks change, and only from false to true. */
  ghost predicate RevealsOnly(g0: Grid, g1: Grid, width: nat, height: nat)
    requires Shaped(g0, width, height)
  {
    Shaped(g1, width, height) &&
    forall x, y | InBounds(width, height, x, y) ::
      g1[y][x].value == g0[y][x].value && g1[y][x].flagged == g0[y][x].flagged &&
      (g0[y][x].revealed ==> g1[y][x].revealed)
  }

  /** The cells opened between g0 and g1 are exactly those listed in `order`. */
  ghost predicate OpenedAre(g0: Grid, g1: Grid, width: nat, height: nat, order: seq<Pos>)
    requires Shaped(g0, width, height) && Shaped(g1, width, height)
  {
    forall x, y | InBounds(width, height, x, y) ::
      (g1[y][x].revealed && !g0[y][x].revealed) <==> Pos(x, y) in order
  }

  /** Every opened cell was on the board, covered, unflagged and mine-free in g0. */
  ghost predicate AllEligible(g0: Grid, width: nat, height: nat, order: seq<Pos>)
    requires Shaped(g0, width, height)
  {
    forall i | 0 <= i < |order| :: Eligible(g0, width, height, order[i])
  }

  /** Each opened cell after the first touches an earlier opened cell of value 0:
      the opened region grows from the first cell through zero cells. */
  ghost predicate GrowsFromZeros(g0: Grid, width: nat, height: nat, order: seq<Pos>)
    requires Shaped(g0, width, height)
  {
    forall i | 0 < i < |order| :: HasZeroBefore(g0, width, height, order, i)
  }

  /** order[i] touches an order[j], j < i, of value 0. */
  ghost predicate HasZeroBefore(g0: Grid, width: nat, height: nat, order: seq<Pos>, i: nat)
    requires Shaped(g0, width, height) && i < |order|
  {
    exists j | 0 <= j < i :: Adjacent(order[j], order[i]) && ZeroAt(g0, width, height, order[j])
  }

  /** Every neighbour of p that is on the board, unflagged and mine-free is revealed in g. */
  ghost predicate NeighboursRevealed(g: Grid, width: nat, height: nat, p: Pos)
    requires Shaped(g, width, height)
  {
    forall x, y | InBounds(width, height, x, y) && Adjacent(p, Pos(x, y)) ::
      !g[y][x].flagged && g[y][x].value != MINE ==> g[y][x].revealed
  }

  /** Every opened cell of value 0 from index `lo` on has its neighbours revealed. */
  ghost predicate ClosedFrom(g0: Grid, g1: Grid, width: nat, height: nat, order: seq<Pos>, lo: nat)
    requires Shaped(g0, width, height) && Shaped(g1, width, height)
  {
    forall i | lo <= i < |order| && ZeroAt(g0, width, height, order[i]) ::
      NeighboursRevealed(g1, width, height, order[i])
  }

  /** The effect of one revealCell(start) call that opened the cells of `order`, in order:
      nothing happens unless start is eligible; otherwise start is opened first,
      only eligible cells are opened, the opened region grows through zero cells,
      and it is closed: every opened zero cell has all its eligible neighbours revealed. */
  ghost predicate Floods(g0: Grid, g1: Grid, width: nat, height: nat, start: Pos, order: seq<Pos>)
    requires Shaped(g0, width, height)
  {
    RevealsOnly(g0, g1, width, height) &&
    OpenedAre(g0, g1, width, height, order) &&
    AllEligible(g0, width, height, order) &&
    GrowsFromZeros(g0, width, height, order) &&
    ClosedFrom(g0, g1, width, height, order, 0) &&
    (order == [] <==> !Eligible(g0, width, height, start)) &&
    (order != [] ==> order[0] == start) &&
    (order == [] ==> g1 == g0)
  }

  /** The state in the middle of a cascade from the zero cell p: p is opened and
      the regions opened from some of its neighbours have been added. */
  ghost predicate Spreading(g0: Grid, g: Grid, width: nat, height: nat, p: Pos, order: seq<Pos>)
    requires Shaped(g0, width, height)
  {
    RevealsOnly(g0, g, width, height) &&
    OpenedAre(g0, g, width, height, order) &&
    AllEligible(g0, width, height, order) &&
    GrowsFromZeros(g0, width, height, order) &&
    ClosedFrom(g0, g, width, height, order, 1) &&
    order != [] && order[0] == p && ZeroAt(g0, width, height, p)
  }

  /** q no longer needs opening: it is off the board, flagged, a mine, or revealed. */
  ghost predicate Settled(g: Grid, width: nat, height: nat, q: Pos)
    requires Shaped(g, width, height)
  {
    InBounds(width, height, q.x, q.y) && !g[q.y][q.x].flagged && g[q.y][q.x].value != MINE ==>
      g[q.y][q.x].revealed
  }

  /** The positions not yet revealed; a cascade call that opens a cell shrinks it. */
  ghost function Unrevealed(g: Grid, width: nat, height: nat): set<Pos>
    requires Shaped(g, width, height)
  {
    set x, y | 0 <= x < width && 0 <= y < height && !g[y][x].revealed :: Pos(x, y)
  }

  lemma UnrevealedShrinks(g0: Grid, g1: Grid, width: nat, height: nat)
    requires Shaped(g0, width, height) && RevealsOnly(g0, g1, width, height)
    ensures Unrevealed(g1, width, height) <= Unrevealed(g0, width, height)
  {
  }

  /** Opening the covered cell p takes it out of the unrevealed set. */
  lemma OpeningShrinks(g0: Grid, width: nat, height: nat, p: Pos)
    requires Shaped(g0, width, height) && InBounds(width, height, p.x, p.y) && !g0[p.y][p.x].revealed
    ensures var g1 := g0[p.y := g0[p.y][p.x := g0[p.y][p.x].(revealed := true)]];
      Shaped(g1, width, height) && Unrevealed(g1, width, height) < Unrevealed(g0, width, height)
  {
    var g1 := g0[p.y := g0[p.y][p.x := g0[p.y][p.x].(revealed := true)]];
    assert RevealsOnly(g0, g1, width, height);
    UnrevealedShrinks(g0, g1, width, height);
    assert p in Unrevealed(g0, width, height) && p !in Unrevealed(g1, width, height);
  }

  /** A grid is one flooded from nowhere of itself. */
  lemma FloodsNothing(g: Grid, width: nat, height: nat, start: Pos)
    requires Shaped(g, width, height) && !Eligible(g, width, height, start)
    ensures Floods(g, g, width, height, start, [])
  {
  }

  /** Opening the eligible cell p is where a cascade starts. */
  lemma OpeningStarts(g0: Grid, width: nat, height: nat, p: Pos)
    requires Shaped(g0, width, height) && Eligible(g0, width, height, p)
    ensures var g1 := g0[p.y := g0[p.y][p.x := g0[p.y][p.x].(revealed := true)]];
      Shaped(g1, width, height) &&
      (ZeroAt(g0, width, height, p) ==> Spreading(g0, g1, width, height, p, [p])) &&
      (!ZeroAt(g0, width, height, p) ==> Floods(g0, g1, width, height, p, [p]))
  {
    var g1 := g0[p.y := g0[p.y][p.x := g0[p.y][p.x].(revealed := true)]];
    assert RevealsOnly(g0, g1, width, height);
    assert OpenedAre(g0, g1, width, height, [p]);
  }

  lemma RevealsOnlyTrans(g0: Grid, gA: Grid, gB: Grid, width: nat, height: nat)
    requires Shaped(g0, width, height) && RevealsOnly(g0, gA, width, height) && RevealsOnly(gA, gB, width, height)
    ensures RevealsOnly(g0, gB, width, height)
  {
  }

  lemma OpenedAreJoin(g0: Grid, gA: Grid, gB: Grid, width: nat, height: nat, order: seq<Pos>, o: seq<Pos>)
    requires Shaped(g0, width, height) && RevealsOnly(g0, gA, width, height) && RevealsOnly(gA, gB, width, height)
    requires OpenedAre(g0, gA, width, height, order) && OpenedAre(gA, gB, width, height, o)
    ensures OpenedAre(g0, gB, width, height, order + o)
  {
    forall x, y | InBounds(width, height, x, y)
      ensures (gB[y][x].revealed && !g0[y][x].revealed) <==> Pos(x, y) in order + o
    {
      assert Pos(x, y) in order + o <==> Pos(x, y) in order || Pos(x, y) in o;
    }
  }

  lemma AllEligibleJoin(g0: Grid, gA: Grid, width: nat, height: nat, order: seq<Pos>, o: seq<Pos>)
    requires Shaped(g0, width, height) && RevealsOnly(g0, gA, width, height)
    requires AllEligible(g0, width, height, order) && AllEligible(gA, width, height, o)
    ensures AllEligible(g0, width, height, order + o)
  {
    var all := order + o;
    forall i | 0 <= i < |all|
      ensures Eligible(g0, width, height, all[i])
    {
      if i >= |order| {
        assert all[i] == o[i - |order|];
        assert Eligible(gA, width, height, o[i - |order|]);
      }
    }
  }

  lemma GrowsJoin(g0: Grid, gA: Grid, width: nat, height: nat, order: seq<Pos>, c: Pos, o: seq<Pos>)
    requires Shaped(g0, width, height) && RevealsOnly(g0, gA, width, height)
    requires GrowsFromZeros(g0, width, height, order) && order != [] && ZeroAt(g0, width, height, order[0])
    requires GrowsFromZeros(gA, width, height, o) && (o != [] ==> o[0] == c) && Adjacent(order[0], c)
    ensures GrowsFromZeros(g0, width, height, order + o)
  {
    var all := order + o;
    forall i | 0 < i < |all|
      ensures HasZeroBefore(g0, width, height, all, i)
    {
      if i < |order| {
        assert HasZeroBefore(g0, width, height, order, i);
        var j :| 0 <= j < i && Adjacent(order[j], order[i]) && ZeroAt(g0, width, height, order[j]);
        assert all[j] == order[j] && all[i] == order[i];
      } else if i == |order| {
        assert all[0] == order[0] && all[i] == o[0] == c;
        assert Adjacent(all[0], all[i]) && ZeroAt(g0, width, height, all[0]);
      } else {
        var k := i - |order|;
        assert all[i] == o[k];
        assert HasZeroBefore(gA, width, height, o, k);
        var j :| 0 <= j < k && Adjacent(o[j], o[k]) && ZeroAt(gA, width, height, o[j]);
        assert all[|order| + j] == o[j];
        assert Adjacent(all[|order| + j], all[i]) && ZeroAt(g0, width, height, all[|order| + j]);
      }
    }
  }

  lemma ClosedJoin(g0: Grid, gA: Grid, gB: Grid, width: nat, height: nat, order: seq<Pos>, o: seq<Pos>)
    requires Shaped(g0, width, height) && RevealsOnly(g0, gA, width, height) && RevealsOnly(gA, gB, width, height)
    requires AllEligible(g0, width, height, order) && AllEligible(gA, width, height, o)
    requires ClosedFrom(g0, gA, width, height, order, 1) && ClosedFrom(gA, gB, width, height, o, 0)
    ensures ClosedFrom(g0, gB, width, height, order + o, 1)
  {
    var all := order + o;
    forall i | 1 <= i < |all| && ZeroAt(g0, width, height, all[i])
      ensures NeighboursRevealed(gB, width, height, all[i])
    {
      if i < |order| {
        assert all[i] == order[i];
        assert NeighboursRevealed(gA, width, height, order[i]);
      } else {
        assert all[i] == o[i - |order|];
        assert Eligible(gA, width, height, o[i - |order|]);
      }
    }
  }

  /** Adding the region flooded from a neighbour c of p keeps a cascade from p
      well formed, and settles c. */
  lemma SpreadingExtends(g0: Grid, gA: Grid, gB: Grid, width: nat, height: nat,
                         p: Pos, order: seq<Pos>, c: Pos, o: seq<Pos>)
    requires Shaped(g0, width, height) && Shaped(gA, width, height)
    requires Spreading(g0, gA, width, height, p, order)
    requires Adjacent(p, c)
    requires Floods(gA, gB, width, height, c, o)
    ensures Shaped(gB, width, height)
    ensures Spreading(g0, gB, width, height, p, order + o)
    ensures Settled(gB, width, height, c)
    ensures forall q :: Settled(gA, width, height, q) ==> Settled(gB, width, height, q)
  {
    RevealsOnlyTrans(g0, gA, gB, width, height);
    OpenedAreJoin(g0, gA, gB, width, height, order, o);
    AllEligibleJoin(g0, gA, width, height, order, o);
    GrowsJoin(g0, gA, width, height, order, c, o);
    ClosedJoin(g0, gA, gB, width, height, order, o);
  }

  /** One pass of the loop over the neighbours of p: the flood from the k-th
      neighbour keeps the cascade well formed, settles that neighbour while
      keeping the earlier ones settled, and the unrevealed set stays below the
      one the cascade started from. */
  lemma AroundStep(g0: Grid, gA: Grid, gB: Grid, width: nat, height: nat,
                   p: Pos, order: seq<Pos>, k: nat, o: seq<Pos>)
    requires Shaped(g0, width, height) && Shaped(gA, width, height) && k < 8
    requires Spreading(g0, gA, width, height, p, order)
    requires forall j | 0 <= j < k :: Settled(gA, width, height, Neighbours(p.x, p.y)[j])
    requires Unrevealed(gA, width, height) < Unrevealed(g0, width, height)
    requires Floods(gA, gB, width, height, Neighbours(p.x, p.y)[k], o)
    ensures Shaped(gB, width, height)
    ensures Spreading(g0, gB, width, height, p, order + o)
    ensures forall j | 0 <= j <= k :: Settled(gB, width, height, Neighbours(p.x, p.y)[j])
    ensures Unrevealed(gB, width, height) < Unrevealed(g0, width, height)
  {
    NeighboursExact(p.x, p.y, Neighbours(p.x, p.y)[k]);
    SpreadingExtends(g0, gA, gB, width, height, p, order, Neighbours(p.x, p.y)[k], o);
    UnrevealedShrinks(gA, gB, width, height);
  }

  /** A zero cell whose eight neighbours are all settled has its neighbours revealed. */
  lemma SettledAround(g: Grid, width: nat, height: nat, p: Pos)
    requires Shaped(g, width, height)
    requires forall k | 0 <= k < 8 :: Settled(g, width, height, Neighbours(p.x, p.y)[k])
    ensures NeighboursRevealed(g, width, height, p)
  {
    forall x, y | InBounds(width, height, x, y) && Adjacent(p, Pos(x, y))
      ensures !g[y][x].flagged && g[y][x].value != MINE ==> g[y][x].revealed
    {
      NeighboursExact(p.x, p.y, Pos(x, y));
      var k :| 0 <= k < 8 && Neighbours(p.x, p.y)[k] == Pos(x, y);
      assert Settled(g, width, height, Neighbours(p.x, p.y)[k]);
    }
  }

  /** A finished cascade from p: Spreading with all eight neighbours settled. */
  lemma SpreadingDone(g0: Grid, g: Grid, width: nat, height: nat, p: Pos, order: seq<Pos>)
    requires Shaped(g0, width, height) && Shaped(g, width, height)
    requires Spreading(g0, g, width, height, p, order)
    requires forall k | 0 <= k < 8 :: Settled(g, width, height, Neighbours(p.x, p.y)[k])
    requires Eligible(g0, width, height, p)
    ensures Floods(g0, g, width, height, p, order)
  {
    SettledAround(g, width, height, p);
  }

  /** A cascade never opens a mine. */
  lemma FloodsHidesMines(g0: Grid, g1: Grid, width: nat, height: nat, start: Pos, order: seq<Pos>)
    requires Shaped(g0, width, height) && Floods(g0, g1, width, height, start, order)
    requires NoMineRevealed(g0, width, height)
    ensures Shaped(g1, width, height) && NoMineRevealed(g1, width, height)
  {
    forall x, y | InBounds(width, height, x, y) && g1[y][x].revealed
      ensures g1[y][x].value != MINE
    {
      if !g0[y][x].revealed {
        var i :| 0 <= i < |order| && order[i] == Pos(x, y);
        assert Eligible(g0, width, height, order[i]);
      }
    }
  }
}
