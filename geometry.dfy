/**
  Board geometry of the Minesweeper engine: positions, the bounds check that
  `GetTile` asserts, the row-major flat index `X + Y * Width` into the tile
  array, and the clipped Chebyshev square used for neighbour counting and the
  flood fill.
*/
module Geometry {

  /** A board position (`FIntPoint`). */
  datatype Point = Point(x: int, y: int)

  /** `0 <= X < Width && 0 <= Y < Height`, the condition `GetTile` checks. */
  predicate InBounds(width: int, height: int, p: Point) {
    0 <= p.x < width && 0 <= p.y < height
  }

  /** The flat index of position `p` in a row-major board of the given width. */
  function Index(width: int, p: Point): int {
    p.x + p.y * width
  }

  /** The position stored at flat index `k`: the inverse of `Index`. */
  function PointOf(width: int, k: int): Point
    requires 1 <= width
  {
    Point(k % width, k / width)
  }

  /**
    `n` lies in the square of Chebyshev radius `d` around `c` and is not `c`
    itself: the cells `GetMineCountInArea` and `UnlockSurroundingTilesIfEmpty`
    visit before their bounds checks.
  */
  predicate Adjacent(c: Point, n: Point, d: int) {
    n != c && c.x - d <= n.x <= c.x + d && c.y - d <= n.y <= c.y + d
  }

  /** Row `y` and the rows after it start at least `y * width` into the array. */
  lemma {:induction false} RowStart(width: int, y: int, h: int)
    requires 0 <= width && 0 <= y <= h
    ensures y * width <= h * width
    decreases h - y
  {
    if y < h {
      RowStart(width, y + 1, h);
      assert (y + 1) * width == y * width + width;
    }
  }

  /** Every in-bounds position has a flat index inside the tile array. */
  lemma IndexInRange(width: int, height: int, p: Point)
    requires InBounds(width, height, p)
    ensures 0 <= Index(width, p) < width * height
  {
    RowStart(width, p.y + 1, height);
    assert (p.y + 1) * width == p.y * width + width;
    assert 0 <= p.y * width;
  }

  /** Two positions whose columns lie in `[0, width)` share a flat index only if they are equal. */
  lemma IndexInjective(width: int, p: Point, q: Point)
    requires 0 <= p.x < width && 0 <= q.x < width
    requires Index(width, p) == Index(width, q)
    ensures p == q
  {
    if p.y < q.y {
      RowStart(width, p.y + 1, q.y);
      assert false;
    } else if q.y < p.y {
      RowStart(width, q.y + 1, p.y);
      assert false;
    }
  }

  /** An in-bounds position owns its flat index: it is inside the array and no other in-bounds position has it. */
  lemma IndexUnique(width: int, height: int, p: Point)
    requires InBounds(width, height, p)
    ensures 0 <= Index(width, p) < width * height
    ensures forall q :: InBounds(width, height, q) && Index(width, q) == Index(width, p) ==> q == p
  {
    IndexInRange(width, height, p);
    forall q | InBounds(width, height, q) && Index(width, q) == Index(width, p)
      ensures q == p
    {
      IndexInjective(width, q, p);
    }
  }

  /** Every flat index of a `width * height` board is the index of the in-bounds position `PointOf` gives. */
  lemma PointOfIndex(width: int, height: int, k: int)
    requires 1 <= width && 0 <= k < width * height
    ensures InBounds(width, height, PointOf(width, k))
    ensures Index(width, PointOf(width, k)) == k
  {
    var p := PointOf(width, k);
    assert k == p.y * width + p.x;
    if p.y >= height {
      RowStart(width, height, p.y);
      assert false;
    }
  }
}
