/**
  The adjacency count of `FMinesweeperGame::GetMineCountInArea` as a
  specification over the mine layout: the mines in the square of Chebyshev
  radius `d` around a centre, clipped to the board, not counting the centre.

  The sums run over the same rectangle of candidate cells, in the same order,
  as the method's two nested loops; the lemmas below say what the count means.
*/
module Neighbourhood {
  import opened Geometry

  /** A mine is recorded at in-bounds position `n` of the layout. */
  predicate MineAt(mines: seq<bool>, width: int, height: int, n: Point) {
    InBounds(width, height, n) && 0 <= Index(width, n) < |mines| && mines[Index(width, n)]
  }

  /** What candidate cell `(i, j)` adds to the count around `c`. */
  function Counted(mines: seq<bool>, width: int, height: int, c: Point, i: int, j: int): nat {
    if i == c.x && j == c.y then 0
    else if MineAt(mines, width, height, Point(i, j)) then 1
    else 0
  }

  /** The candidates `(i, j)` for `jlo <= j < jhi`. */
  function RowCount(mines: seq<bool>, width: int, height: int, c: Point, i: int, jlo: int, jhi: int): (r: nat)
    ensures jlo <= jhi ==> r <= jhi - jlo
    decreases jhi - jlo
  {
    if jhi <= jlo then 0
    else RowCount(mines, width, height, c, i, jlo, jhi - 1) + Counted(mines, width, height, c, i, jhi - 1)
  }

  /** The rows `ilo <= i < ihi` of candidates `jlo <= j < jhi`. */
  function AreaSum(mines: seq<bool>, width: int, height: int, c: Point, ilo: int, ihi: int, jlo: int, jhi: int): nat
    decreases ihi - ilo
  {
    if ihi <= ilo then 0
    else AreaSum(mines, width, height, c, ilo, ihi - 1, jlo, jhi) + RowCount(mines, width, height, c, ihi - 1, jlo, jhi)
  }

  /** The number of mines within Chebyshev distance `d` of `c`, centre excluded, clipped to the board. */
  function AreaCount(mines: seq<bool>, width: int, height: int, c: Point, d: int): nat {
    AreaSum(mines, width, height, c, c.x - d, c.x + d + 1, c.y - d, c.y + d + 1)
  }

  // ---------------------------------------------------------------------------
  // A count of zero means no mine around
  // ---------------------------------------------------------------------------

  lemma {:induction false} RowCountZero(mines: seq<bool>, width: int, height: int, c: Point, i: int, jlo: int, jhi: int)
    ensures RowCount(mines, width, height, c, i, jlo, jhi) == 0 <==>
      forall j :: jlo <= j < jhi ==> Counted(mines, width, height, c, i, j) == 0
    decreases jhi - jlo
  {
    if jlo < jhi {
      RowCountZero(mines, width, height, c, i, jlo, jhi - 1);
    }
  }

  lemma {:induction false} AreaSumZero(mines: seq<bool>, width: int, height: int, c: Point, ilo: int, ihi: int, jlo: int, jhi: int)
    ensures AreaSum(mines, width, height, c, ilo, ihi, jlo, jhi) == 0 <==>
      forall i, j :: ilo <= i < ihi && jlo <= j < jhi ==> Counted(mines, width, height, c, i, j) == 0
    decreases ihi - ilo
  {
    if ilo < ihi {
      AreaSumZero(mines, width, height, c, ilo, ihi - 1, jlo, jhi);
      RowCountZero(mines, width, height, c, ihi - 1, jlo, jhi);
    }
  }

  /**
    The count around `c` is zero exactly when no in-bounds cell of the square
    around `c`, other than `c`, holds a mine.
  */
  lemma AreaCountZero(mines: seq<bool>, width: int, height: int, c: Point, d: int)
    ensures AreaCount(mines, width, height, c, d) == 0 <==>
      forall n :: Adjacent(c, n, d) ==> !MineAt(mines, width, height, n)
  {
    AreaSumZero(mines, width, height, c, c.x - d, c.x + d + 1, c.y - d, c.y + d + 1);
    forall n | Adjacent(c, n, d) && MineAt(mines, width, height, n)
      ensures AreaCount(mines, width, height, c, d) != 0
    {
      assert Counted(mines, width, height, c, n.x, n.y) != 0;
    }
    if AreaCount(mines, width, height, c, d) != 0 {
      var i, j :| c.x - d <= i < c.x + d + 1 && c.y - d <= j < c.y + d + 1
        && Counted(mines, width, height, c, i, j) != 0;
      assert Adjacent(c, Point(i, j), d) && MineAt(mines, width, height, Point(i, j));
    }
  }

  /** On a 1x1 board the only cell is the centre, so the count is always zero. */
  lemma SingleCellCount(mines: seq<bool>, c: Point, d: int)
    requires InBounds(1, 1, c)
    ensures AreaCount(mines, 1, 1, c, d) == 0
  {
    AreaCountZero(mines, 1, 1, c, d);
  }

  // ---------------------------------------------------------------------------
  // Bounds
  // ---------------------------------------------------------------------------

  /** The centre's own row loses one candidate. */
  lemma {:induction false} RowCountCentre(mines: seq<bool>, width: int, height: int, c: Point, jlo: int, jhi: int)
    requires jlo <= c.y < jhi
    ensures RowCount(mines, width, height, c, c.x, jlo, jhi) <= jhi - jlo - 1
    decreases jhi - jlo
  {
    if jhi - 1 != c.y {
      RowCountCentre(mines, width, height, c, jlo, jhi - 1);
    }
  }

  lemma {:induction false} AreaSumBound(mines: seq<bool>, width: int, height: int, c: Point, ilo: int, ihi: int, jlo: int, jhi: int)
    requires ilo <= ihi && jlo <= jhi
    ensures AreaSum(mines, width, height, c, ilo, ihi, jlo, jhi) <=
      (ihi - ilo) * (jhi - jlo) - (if ilo <= c.x < ihi && jlo <= c.y < jhi then 1 else 0)
    decreases ihi - ilo
  {
    if ilo < ihi {
      AreaSumBound(mines, width, height, c, ilo, ihi - 1, jlo, jhi);
      if ihi - 1 == c.x && jlo <= c.y < jhi {
        RowCountCentre(mines, width, height, c, jlo, jhi);
      }
      assert (ihi - ilo) * (jhi - jlo) == (ihi - 1 - ilo) * (jhi - jlo) + (jhi - jlo);
    }
  }

  /** At most `(2d+1)^2 - 1` mines surround a cell: the square minus its centre. */
  lemma AreaCountBound(mines: seq<bool>, width: int, height: int, c: Point, d: int)
    requires 0 <= d
    ensures AreaCount(mines, width, height, c, d) <= (2 * d + 1) * (2 * d + 1) - 1
  {
    AreaSumBound(mines, width, height, c, c.x - d, c.x + d + 1, c.y - d, c.y + d + 1);
  }
}
