/**
 * The tile grid of `mosaic`: how many tiles along each axis, the order in
 * which the cells are visited, and where each cell's tile is pasted.
 */
module Grid {

  /** A grid position (x, y): column x, row y. */
  type Cell = (int, int)

  /**
   * Tiles along one axis: the extent floor-divided by the tile size, plus one
   * (Python 2 `/` on two ints floors). The tiles reach past the extent, and
   * all but the last start within it, so a remainder strip is always covered.
   */
  function TileCount(extent: nat, tile: nat): (n: nat)
    requires tile > 0
    ensures n >= 1
    ensures (n - 1) * tile <= extent < n * tile
  {
    extent / tile + 1
  }

  /** The first n cells of column x, top to bottom. */
  function Column(x: int, n: nat): seq<Cell>
  {
    seq(n, y => (x, y))
  }

  /** The first x columns of a grid of ty rows in visiting order: x outer, y inner. */
  function ColumnMajor(x: nat, ty: nat): seq<Cell>
  {
    if x == 0 then [] else ColumnMajor(x - 1, ty) + Column(x - 1, ty)
  }

  /** All cells of the grid for a target of width x height pixels, in visiting order. */
  function Cells(width: nat, height: nat, tileW: nat, tileH: nat): seq<Cell>
    requires tileW > 0 && tileH > 0
  {
    ColumnMajor(TileCount(width, tileW), TileCount(height, tileH))
  }

  /** Pixel offset at which the tile of cell c is pasted. */
  function Offset(c: Cell, tileW: nat, tileH: nat): Cell
  {
    (tileW * c.0, tileH * c.1)
  }

  /** Pixel (px, py) lies in the tile rectangle pasted for cell c. */
  predicate InTile(c: Cell, tileW: nat, tileH: nat, px: int, py: int)
  {
    Offset(c, tileW, tileH).0 <= px < Offset(c, tileW, tileH).0 + tileW &&
    Offset(c, tileW, tileH).1 <= py < Offset(c, tileW, tileH).1 + tileH
  }

  lemma MulMono(a: int, b: int, t: int)
    requires t > 0 && a < b
    ensures t * a + t <= t * b
  {
    var k := b - a - 1;
    assert t * k >= 0;
    assert t * b == t * a + t * k + t;
  }

  /** Two tiles of width t that both contain pixel p are the same tile. */
  lemma MulBetween(a: int, b: int, t: int, p: int)
    requires t > 0
    requires t * a <= p < t * a + t && t * b <= p < t * b + t
    ensures a == b
  {
    if a < b {
      MulMono(a, b, t);
    } else if b < a {
      MulMono(b, a, t);
    }
  }

  lemma DivMod(q: int, r: int, d: int)
    requires d > 0 && 0 <= r < d
    ensures (q * d + r) / d == q && (q * d + r) % d == r
  {
    var i := q * d + r;
    assert i == d * (i / d) + i % d;
    MulBetween(q, i / d, d, i);
  }

  lemma {:induction false} ColumnMajorLength(x: nat, ty: nat)
    ensures |ColumnMajor(x, ty)| == x * ty
  {
    if x > 0 {
      ColumnMajorLength(x - 1, ty);
    }
  }

  /** The i-th visited cell is (i div ty, i mod ty): column-major order. */
  lemma {:induction false} ColumnMajorAt(x: nat, ty: nat, i: nat)
    requires i < x * ty
    ensures |ColumnMajor(x, ty)| == x * ty
    ensures ColumnMajor(x, ty)[i] == (i / ty, i % ty)
  {
    ColumnMajorLength(x, ty);
    ColumnMajorLength(x - 1, ty);
    if i < (x - 1) * ty {
      ColumnMajorAt(x - 1, ty, i);
    } else {
      var y := i - (x - 1) * ty;
      DivMod(x - 1, y, ty);
    }
  }

  /** Every visited cell lies in [0, x) x [0, ty). */
  lemma {:induction false} ColumnMajorBounds(x: nat, ty: nat)
    ensures forall c :: c in ColumnMajor(x, ty) ==> 0 <= c.0 < x && 0 <= c.1 < ty
  {
    if x > 0 {
      ColumnMajorBounds(x - 1, ty);
    }
  }

  /** Cell (x, y) is the (x * ty + y)-th cell visited. */
  lemma ColumnMajorIndex(tx: nat, ty: nat, x: int, y: int)
    requires 0 <= x < tx && 0 <= y < ty
    ensures x * ty + y < |ColumnMajor(tx, ty)| && ColumnMajor(tx, ty)[x * ty + y] == (x, y)
  {
    MulMono(x, tx, ty);
    ColumnMajorAt(tx, ty, x * ty + y);
    DivMod(x, y, ty);
  }

  lemma ColumnMajorDistinct(tx: nat, ty: nat, i: nat, j: nat)
    requires i < j < |ColumnMajor(tx, ty)|
    ensures ColumnMajor(tx, ty)[i] != ColumnMajor(tx, ty)[j]
  {
    ColumnMajorLength(tx, ty);
    ColumnMajorAt(tx, ty, i);
    ColumnMajorAt(tx, ty, j);
    DivModInjective(i, j, ty);
  }

  /** A number is determined by its quotient and remainder. */
  lemma DivModInjective(i: int, j: int, d: int)
    requires d > 0
    ensures i / d == j / d && i % d == j % d ==> i == j
  {
    assert i == d * (i / d) + i % d;
    assert j == d * (j / d) + j % d;
  }

  /** The walk visits exactly the cells of [0, tx) x [0, ty). */
  lemma ColumnMajorCovers(tx: nat, ty: nat)
    ensures forall c: Cell :: c in ColumnMajor(tx, ty) <==> 0 <= c.0 < tx && 0 <= c.1 < ty
  {
    ColumnMajorBounds(tx, ty);
    forall c: Cell | 0 <= c.0 < tx && 0 <= c.1 < ty
      ensures c in ColumnMajor(tx, ty)
    {
      ColumnMajorIndex(tx, ty, c.0, c.1);
    }
  }

  /** No cell is visited twice. */
  lemma ColumnMajorNoRepeat(tx: nat, ty: nat)
    ensures forall i, j :: 0 <= i < j < |ColumnMajor(tx, ty)| ==> ColumnMajor(tx, ty)[i] != ColumnMajor(tx, ty)[j]
  {
    forall i, j | 0 <= i < j < |ColumnMajor(tx, ty)|
      ensures ColumnMajor(tx, ty)[i] != ColumnMajor(tx, ty)[j]
    {
      ColumnMajorDistinct(tx, ty, i, j);
    }
  }

  lemma {:induction false} ColumnMajorGrows(x: nat, tx: nat, ty: nat)
    requires x <= tx
    ensures ColumnMajor(x, ty) <= ColumnMajor(tx, ty)
  {
    if x < tx {
      ColumnMajorGrows(x, tx - 1, ty);
    }
  }

  /** The first x columns, then column x down to row y, are a prefix of the whole walk. */
  lemma WalkPrefix(x: nat, y: nat, tx: nat, ty: nat)
    requires x < tx && y <= ty
    ensures ColumnMajor(x, ty) + Column(x, y) <= ColumnMajor(tx, ty)
  {
    assert Column(x, y) <= Column(x, ty);
    assert ColumnMajor(x, ty) + Column(x, y) <= ColumnMajor(x + 1, ty);
    ColumnMajorGrows(x + 1, tx, ty);
  }

  /** Visiting cell (x, y) extends the walk by the next cell of column-major order. */
  lemma WalkStep(x: nat, y: nat, ty: nat)
    ensures ColumnMajor(x, ty) + Column(x, y) + [(x, y)] == ColumnMajor(x, ty) + Column(x, y + 1)
  {
    assert Column(x, y + 1) == Column(x, y) + [(x, y)];
  }

  /** Pixel p of an axis lies in the tile p div t, which is one of the TileCount(extent, t) tiles. */
  lemma AxisOwner(extent: nat, t: nat, p: int)
    requires t > 0 && 0 <= p < extent
    ensures 0 <= p / t < TileCount(extent, t)
    ensures t * (p / t) <= p < t * (p / t) + t
  {
    assert p == (p / t) * t + p % t;
    assert extent == (extent / t) * t + extent % t;
    assert (p / t - extent / t) * t < t;
  }

  /**
   * Every pixel of the target lies in the tile of exactly one grid cell: the
   * pasted tiles cover the canvas, remainder strips included, and no two of
   * them overlap.
   */
  lemma PixelOwner(width: nat, height: nat, tileW: nat, tileH: nat, px: int, py: int)
    requires tileW > 0 && tileH > 0
    requires 0 <= px < width && 0 <= py < height
    ensures (px / tileW, py / tileH) in Cells(width, height, tileW, tileH)
    ensures InTile((px / tileW, py / tileH), tileW, tileH, px, py)
    ensures forall c: Cell :: InTile(c, tileW, tileH, px, py) ==> c == (px / tileW, py / tileH)
  {
    var tx, ty := TileCount(width, tileW), TileCount(height, tileH);
    AxisOwner(width, tileW, px);
    AxisOwner(height, tileH, py);
    ColumnMajorIndex(tx, ty, px / tileW, py / tileH);
    forall c: Cell | InTile(c, tileW, tileH, px, py)
      ensures c == (px / tileW, py / tileH)
    {
      MulBetween(c.0, px / tileW, tileW, px);
      MulBetween(c.1, py / tileH, tileH, py);
    }
  }

  /**
   * The last column of tiles starts inside the target exactly when the width
   * is not a multiple of the tile width; otherwise it is pasted wholly past
   * the right edge. Likewise for rows.
   */
  lemma LastTileStartsInside(extent: nat, tile: nat)
    requires tile > 0
    ensures tile * (TileCount(extent, tile) - 1) < extent <==> extent % tile != 0
  {
    assert extent == (extent / tile) * tile + extent % tile;
  }
}
