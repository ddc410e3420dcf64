/**
 * Elevation rasters and the window maxima the local-maxima detector is
 * specified by. A raster is a two-dimensional array of elevations addressed
 * as dem[row, column]; elevations are only compared with `==` and `max`, so
 * they are integers here.
 */
module Raster {

  /** A pixel coordinate as the detector reports it: x is the column, y the row. */
  datatype Pixel = Pixel(x: int, y: int)

  function Max(a: int, b: int): int
  {
    if a < b then b else a
  }

  function Min(a: int, b: int): int
  {
    if a < b then a else b
  }

  function Max3(a: int, b: int, c: int): int
  {
    Max(Max(a, b), c)
  }

  /** Cell (i, j) is not on the border, so its whole 3×3 window is inside the raster. */
  predicate IsInteriorCell(dem: array2<int>, i: int, j: int)
  {
    1 <= i < dem.Length0 - 1 && 1 <= j < dem.Length1 - 1
  }

  predicate IsCell(dem: array2<int>, i: int, j: int)
  {
    0 <= i < dem.Length0 && 0 <= j < dem.Length1
  }

  /** Maximum of the three cells j-1, j, j+1 of row a, whose columns all exist. */
  function RowWindowMax(dem: array2<int>, a: int, j: int): int
    reads dem
    requires 0 <= a < dem.Length0 && 1 <= j < dem.Length1 - 1
  {
    Max3(dem[a, j - 1], dem[a, j], dem[a, j + 1])
  }

  /** Maximum of the 3×3 window centred on the interior cell (i, j). */
  function WindowMax(dem: array2<int>, i: int, j: int): int
    reads dem
    requires IsInteriorCell(dem, i, j)
  {
    Max3(RowWindowMax(dem, i - 1, j), RowWindowMax(dem, i, j), RowWindowMax(dem, i + 1, j))
  }

  /** Maximum of the cells j-1, j, j+1 of row a that exist: an index past the edge reads the edge. */
  function ClampedRowMax(dem: array2<int>, a: int, j: int): int
    reads dem
    requires IsCell(dem, a, j)
  {
    Max3(dem[a, Max(j - 1, 0)], dem[a, j], dem[a, Min(j + 1, dem.Length1 - 1)])
  }

  /**
   * Maximum over the 3×3 window centred on any cell (i, j), cut down to the
   * rows and columns that exist.
   */
  function ClampedWindowMax(dem: array2<int>, i: int, j: int): int
    reads dem
    requires IsCell(dem, i, j)
  {
    Max3(ClampedRowMax(dem, Max(i - 1, 0), j), ClampedRowMax(dem, i, j), ClampedRowMax(dem, Min(i + 1, dem.Length0 - 1), j))
  }

  /** WindowMax is the largest of the nine window cells, and one of them. */
  lemma WindowMaxIsMaximum(dem: array2<int>, i: int, j: int)
    requires IsInteriorCell(dem, i, j)
    ensures forall a, b :: i - 1 <= a <= i + 1 && j - 1 <= b <= j + 1 ==> dem[a, b] <= WindowMax(dem, i, j)
    ensures exists a, b :: i - 1 <= a <= i + 1 && j - 1 <= b <= j + 1 && dem[a, b] == WindowMax(dem, i, j)
  {
  }

  /**
   * ClampedWindowMax is the largest of the window cells that lie inside the
   * raster, and one of them: reading the edge for an index past it adds no
   * new value.
   */
  lemma ClampedWindowMaxIsMaximum(dem: array2<int>, i: int, j: int)
    requires IsCell(dem, i, j)
    ensures forall a, b :: IsCell(dem, a, b) && i - 1 <= a <= i + 1 && j - 1 <= b <= j + 1 ==> dem[a, b] <= ClampedWindowMax(dem, i, j)
    ensures exists a, b :: IsCell(dem, a, b) && i - 1 <= a <= i + 1 && j - 1 <= b <= j + 1 && dem[a, b] == ClampedWindowMax(dem, i, j)
  {
  }

  /** Smallest elevation in columns [0, hi) of row i. */
  function RowMin(dem: array2<int>, i: int, hi: int): int
    reads dem
    requires 0 <= i < dem.Length0 && 0 < hi <= dem.Length1
  {
    if hi == 1 then dem[i, 0] else Min(RowMin(dem, i, hi - 1), dem[i, hi - 1])
  }

  /** Smallest elevation in rows [0, bottom) of a raster with at least one column. */
  function RowsMin(dem: array2<int>, bottom: int): int
    reads dem
    requires 0 < bottom <= dem.Length0 && 0 < dem.Length1
  {
    if bottom == 1 then RowMin(dem, 0, dem.Length1)
    else Min(RowsMin(dem, bottom - 1), RowMin(dem, bottom - 1, dem.Length1))
  }

  /** The raster's global minimum, numpy's `np.min`; undefined on a zero-size raster. */
  function GlobalMin(dem: array2<int>): int
    reads dem
    requires 0 < dem.Length0 && 0 < dem.Length1
  {
    RowsMin(dem, dem.Length0)
  }

  lemma {:induction false} RowMinIsMinimum(dem: array2<int>, i: int, hi: int)
    requires 0 <= i < dem.Length0 && 0 < hi <= dem.Length1
    ensures forall j :: 0 <= j < hi ==> RowMin(dem, i, hi) <= dem[i, j]
    ensures exists j :: 0 <= j < hi && dem[i, j] == RowMin(dem, i, hi)
    decreases hi
  {
    if hi > 1 {
      RowMinIsMinimum(dem, i, hi - 1);
    } else {
      assert dem[i, 0] == RowMin(dem, i, hi);
    }
  }

  lemma {:induction false} RowsMinIsMinimum(dem: array2<int>, bottom: int)
    requires 0 < bottom <= dem.Length0 && 0 < dem.Length1
    ensures forall i, j :: 0 <= i < bottom && 0 <= j < dem.Length1 ==> RowsMin(dem, bottom) <= dem[i, j]
    ensures exists i, j :: 0 <= i < bottom && 0 <= j < dem.Length1 && dem[i, j] == RowsMin(dem, bottom)
    decreases bottom
  {
    RowMinIsMinimum(dem, bottom - 1, dem.Length1);
    if bottom > 1 {
      RowsMinIsMinimum(dem, bottom - 1);
    }
  }

  /** GlobalMin is no larger than any cell, and some cell holds it. */
  lemma GlobalMinIsMinimum(dem: array2<int>)
    requires 0 < dem.Length0 && 0 < dem.Length1
    ensures forall i, j :: IsCell(dem, i, j) ==> GlobalMin(dem) <= dem[i, j]
    ensures exists i, j :: IsCell(dem, i, j) && dem[i, j] == GlobalMin(dem)
  {
    RowsMinIsMinimum(dem, dem.Length0);
  }

  /**
   * The index scipy's 'reflect' boundary mode (d c b a | a b c d | d c b a)
   * reads for position k of an axis of length n.
   */
  function ReflectIndex(k: int, n: int): (r: int)
    requires 0 < n && -n <= k < 2 * n
    ensures 0 <= r < n
    ensures 0 <= k < n ==> r == k
  {
    if k < 0 then -k - 1 else if n <= k then 2 * n - 1 - k else k
  }

  /** Maximum over three columns j-1, j, j+1 of row a, read with the 'reflect' mode. */
  function ReflectRowMax(dem: array2<int>, a: int, j: int): int
    reads dem
    requires IsCell(dem, a, j)
  {
    var n := dem.Length1;
    Max3(dem[a, ReflectIndex(j - 1, n)], dem[a, j], dem[a, ReflectIndex(j + 1, n)])
  }

  /**
   * What `maximum_filter(dem, size=3)` computes at (i, j) with scipy's default
   * 'reflect' mode: the maximum of the nine reflected window cells.
   */
  function ReflectWindowMax(dem: array2<int>, i: int, j: int): int
    reads dem
    requires IsCell(dem, i, j)
  {
    var n := dem.Length0;
    Max3(ReflectRowMax(dem, ReflectIndex(i - 1, n), j),
         ReflectRowMax(dem, i, j),
         ReflectRowMax(dem, ReflectIndex(i + 1, n), j))
  }

  /** The interior pixel p equals the maximum of its 3×3 window. */
  predicate IsPeak(dem: array2<int>, p: Pixel)
    reads dem
  {
    IsInteriorCell(dem, p.y, p.x) && dem[p.y, p.x] == WindowMax(dem, p.y, p.x)
  }

  /** p comes strictly before q in row-major order (by row, then by column). */
  predicate Before(p: Pixel, q: Pixel)
  {
    p.y < q.y || (p.y == q.y && p.x < q.x)
  }

  /**
   * The peaks met by a row-major scan of the interior before it reaches
   * column j of row i, in the order the scan meets them. Column 1 of row i
   * is reached right after the last interior column of row i - 1.
   */
  function PeaksBefore(dem: array2<int>, i: int, j: int): seq<Pixel>
    reads dem
    decreases i, j
  {
    if j <= 1 then
      (if i <= 1 then [] else PeaksBefore(dem, i - 1, dem.Length1 - 1))
    else
      PeaksBefore(dem, i, j - 1) + (if IsPeak(dem, Pixel(j - 1, i)) then [Pixel(j - 1, i)] else [])
  }

  /** Every peak of the raster, in row-major order. */
  function Peaks(dem: array2<int>): seq<Pixel>
    reads dem
  {
    PeaksBefore(dem, dem.Length0 - 1, 1)
  }

  /**
   * The cell (i, j) is flagged in the mask: it equals its clamped 3×3 window
   * maximum and is not the raster's global minimum.
   */
  predicate Flagged(dem: array2<int>, i: int, j: int)
    reads dem
    requires IsCell(dem, i, j)
  {
    dem[i, j] == ClampedWindowMax(dem, i, j) && dem[i, j] != GlobalMin(dem)
  }
}
