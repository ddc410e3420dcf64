/**
 * The two local-maxima detectors: a nested-loop scan over the interior of
 * the raster that lists its 3×3 window maxima, and the filter-based variant
 * that returns a 0/1 mask over the whole raster with the global minimum
 * suppressed.
 */
module Algo {
  import opened Raster

  /** Why the mask variant fails: numpy's `min` of a zero-size array raises. */
  datatype RasterError = ZeroSizeRaster

  datatype Result<T> = Success(value: T) | Failure(error: RasterError)

  /**
   * First pass of find_local_maxima: a map of the raster's shape, zero
   * everywhere except on interior cells, which hold the maximum of their 3×3
   * window. Border cells are never visited and keep their zero.
   */
  method WindowMaxMap(dem: array2<int>) returns (localMaxMap: array2<int>)
    ensures fresh(localMaxMap)
    ensures localMaxMap.Length0 == dem.Length0 && localMaxMap.Length1 == dem.Length1
    ensures forall r, c {:trigger localMaxMap[r, c]} :: IsInteriorCell(dem, r, c) ==> localMaxMap[r, c] == WindowMax(dem, r, c)
    ensures forall r, c {:trigger localMaxMap[r, c]} :: IsCell(dem, r, c) && !IsInteriorCell(dem, r, c) ==> localMaxMap[r, c] == 0
  {
    var rows, cols := dem.Length0, dem.Length1;
    localMaxMap := new int[rows, cols]((_, _) => 0);
    var i := 1;
    while i < rows - 1
      invariant 1 <= i && (i <= rows - 1 || i == 1)
      invariant forall r, c :: 1 <= r < i && 1 <= c < cols - 1 ==> localMaxMap[r, c] == WindowMax(dem, r, c)
      invariant forall r, c :: IsCell(dem, r, c) && !(1 <= r < i && 1 <= c < cols - 1) ==> localMaxMap[r, c] == 0
    {
      var j := 1;
      while j < cols - 1
        invariant 1 <= j && (j <= cols - 1 || j == 1)
        invariant forall r, c :: 1 <= r < i && 1 <= c < cols - 1 ==> localMaxMap[r, c] == WindowMax(dem, r, c)
        invariant forall c :: 1 <= c < j ==> localMaxMap[i, c] == WindowMax(dem, i, c)
        invariant forall r, c :: IsCell(dem, r, c) && !(1 <= r < i && 1 <= c < cols - 1) && !(r == i && 1 <= c < j) ==> localMaxMap[r, c] == 0
      {
        // the maximum of the 3×3 window centred on (i, j)
        var maxVal := WindowMax(dem, i, j);
        localMaxMap[i, j] := maxVal;
        j := j + 1;
      }
      i := i + 1;
    }
  }

  /**
   * find_local_maxima: after the first pass, lists row by row and column by
   * column every interior cell equal to its map entry, as (x = column,
   * y = row). Border rows and columns are never visited.
   */
  method FindLocalMaxima(dem: array2<int>) returns (peaks: seq<Pixel>)
    ensures peaks == Peaks(dem)
  {
    var rows, cols := dem.Length0, dem.Length1;
    var localMaxMap := WindowMaxMap(dem);
    peaks := [];
    var i := 1;
    while i < rows - 1
      invariant 1 <= i && (i <= rows - 1 || i == 1)
      invariant peaks == PeaksBefore(dem, i, 1)
    {
      var j := 1;
      while j < cols - 1
        invariant 1 <= j && (j <= cols - 1 || j == 1)
        invariant peaks == PeaksBefore(dem, i, j)
      {
        if dem[i, j] == localMaxMap[i, j] {
          peaks := peaks + [Pixel(j, i)];
        }
        j := j + 1;
      }
      i := i + 1;
    }
  }

  /**
   * What the scan has listed before reaching column j of row i: exactly the
   * peaks that come before (j, i) in row-major order, in strictly increasing
   * row-major order.
   */
  lemma {:induction false} PeaksBeforeSpec(dem: array2<int>, i: int, j: int)
    ensures forall p :: p in PeaksBefore(dem, i, j) <==> IsPeak(dem, p) && Before(p, Pixel(j, i))
    ensures forall k :: 0 <= k < |PeaksBefore(dem, i, j)| ==> Before(PeaksBefore(dem, i, j)[k], Pixel(j, i))
    ensures forall k, l :: 0 <= k < l < |PeaksBefore(dem, i, j)| ==> Before(PeaksBefore(dem, i, j)[k], PeaksBefore(dem, i, j)[l])
    decreases i, j
  {
    if j <= 1 {
      if i > 1 {
        PeaksBeforeSpec(dem, i - 1, dem.Length1 - 1);
      }
    } else {
      PeaksBeforeSpec(dem, i, j - 1);
    }
  }

  /**
   * The list contains exactly the interior cells that equal their 3×3
   * window maximum, each reported as (x = column, y = row).
   */
  lemma PeaksAreTheLocalMaxima(dem: array2<int>)
    ensures forall p :: p in Peaks(dem) <==> IsPeak(dem, p)
    ensures forall p :: p in Peaks(dem) ==> 1 <= p.x <= dem.Length1 - 2 && 1 <= p.y <= dem.Length0 - 2
  {
    PeaksBeforeSpec(dem, dem.Length0 - 1, 1);
  }

  /** The list is in row-major order (by row, then column) and has no duplicates. */
  lemma PeaksInRowMajorOrder(dem: array2<int>)
    ensures forall k, l :: 0 <= k < l < |Peaks(dem)| ==> Before(Peaks(dem)[k], Peaks(dem)[l])
    ensures forall k, l :: 0 <= k < l < |Peaks(dem)| ==> Peaks(dem)[k] != Peaks(dem)[l]
  {
    PeaksBeforeSpec(dem, dem.Length0 - 1, 1);
  }

  /** A raster with fewer than 3 rows or fewer than 3 columns has no peaks. */
  lemma SmallRasterHasNoPeaks(dem: array2<int>)
    requires dem.Length0 < 3 || dem.Length1 < 3
    ensures Peaks(dem) == []
  {
    if dem.Length1 < 3 {
      NarrowRasterHasNoPeaks(dem, dem.Length0 - 1);
    }
  }

  /** With fewer than 3 columns no row has an interior column to scan. */
  lemma {:induction false} NarrowRasterHasNoPeaks(dem: array2<int>, i: int)
    requires dem.Length1 < 3
    ensures PeaksBefore(dem, i, 1) == []
    decreases i
  {
    if i > 1 {
      NarrowRasterHasNoPeaks(dem, i - 1);
    }
  }

  /**
   * find_local_maxima_np: the 3×3 maximum filter of the whole raster (scipy's
   * default 'reflect' boundary), then a zero mask set to 1 where the raster
   * equals the filter response and reset to 0 where the raster equals its
   * global minimum. A zero-size raster fails, as numpy's `min` does.
   */
  method FindLocalMaximaMask(dem: array2<int>) returns (r: Result<array2<int>>)
    ensures r.Failure? <==> dem.Length0 == 0 || dem.Length1 == 0
    ensures r.Success? ==> fresh(r.value)
    ensures r.Success? ==> r.value.Length0 == dem.Length0 && r.value.Length1 == dem.Length1
    ensures r.Success? ==> forall i, j {:trigger r.value[i, j]} :: IsCell(dem, i, j) ==> r.value[i, j] == if Flagged(dem, i, j) then 1 else 0
  {
    var rows, cols := dem.Length0, dem.Length1;
    var maxOut := MaximumFilter(dem);
    var localMax := new int[rows, cols]((_, _) => 0);
    forall i, j {:trigger localMax[i, j]} | 0 <= i < rows && 0 <= j < cols && maxOut[i, j] == dem[i, j] {
      localMax[i, j] := 1;
    }
    if rows == 0 || cols == 0 {
      return Failure(ZeroSizeRaster);
    }
    var lowest := GlobalMin(dem);
    forall i, j {:trigger localMax[i, j]} | 0 <= i < rows && 0 <= j < cols && dem[i, j] == lowest {
      localMax[i, j] := 0;
    }
    assert forall i, j {:trigger localMax[i, j]} :: IsCell(dem, i, j) ==>
      localMax[i, j] == if dem[i, j] == GlobalMin(dem) then 0 else if maxOut[i, j] == dem[i, j] then 1 else 0;
    MaskIsFlagged(dem, maxOut, localMax);
    r := Success(localMax);
  }

  /**
   * A mask built as find_local_maxima_np builds it (1 where the raster equals
   * the filter response, then 0 where it equals the global minimum) is 1
   * exactly on the Flagged cells and 0 elsewhere.
   */
  lemma MaskIsFlagged(dem: array2<int>, maxOut: array2<int>, mask: array2<int>)
    requires 0 < dem.Length0 && 0 < dem.Length1
    requires maxOut.Length0 == dem.Length0 && maxOut.Length1 == dem.Length1
    requires mask.Length0 == dem.Length0 && mask.Length1 == dem.Length1
    requires forall i, j {:trigger maxOut[i, j]} :: IsCell(dem, i, j) ==> maxOut[i, j] == ReflectWindowMax(dem, i, j)
    requires forall i, j {:trigger mask[i, j]} :: IsCell(dem, i, j) ==>
      mask[i, j] == if dem[i, j] == GlobalMin(dem) then 0 else if maxOut[i, j] == dem[i, j] then 1 else 0
    ensures forall i, j {:trigger mask[i, j]} :: IsCell(dem, i, j) ==> mask[i, j] == if Flagged(dem, i, j) then 1 else 0
  {
    forall i, j | IsCell(dem, i, j)
      ensures mask[i, j] == if Flagged(dem, i, j) then 1 else 0
    {
      ReflectModeIsClampedWindow(dem, i, j);
    }
  }

  /**
   * scipy's `maximum_filter(dem, size=3)` with its default 'reflect'
   * boundary: a new array of the raster's shape holding, at every cell, the
   * maximum of the nine reflected window cells (which ReflectModeIsClampedWindow
   * shows to be the maximum of the window clamped to the raster).
   */
  method MaximumFilter(dem: array2<int>) returns (maxOut: array2<int>)
    ensures fresh(maxOut)
    ensures maxOut.Length0 == dem.Length0 && maxOut.Length1 == dem.Length1
    ensures forall i, j {:trigger maxOut[i, j]} :: IsCell(dem, i, j) ==> maxOut[i, j] == ReflectWindowMax(dem, i, j)
  {
    maxOut := new int[dem.Length0, dem.Length1];
    forall i, j {:trigger maxOut[i, j]} | 0 <= i < dem.Length0 && 0 <= j < dem.Length1 {
      maxOut[i, j] := ReflectWindowMax(dem, i, j);
    }
  }

  /** On an axis of length n, 'reflect' reads the cells on either side of k, or k itself at an edge. */
  lemma ReflectNeighbours(k: int, n: int)
    requires 0 <= k < n
    ensures ReflectIndex(k - 1, n) == if k == 0 then k else k - 1
    ensures ReflectIndex(k + 1, n) == if k == n - 1 then k else k + 1
  {
  }

  /** One row of the reflected window reads the same three cells as the clamped one. */
  lemma ReflectRowIsClampedRow(dem: array2<int>, a: int, j: int)
    requires IsCell(dem, a, j)
    ensures ReflectRowMax(dem, a, j) == ClampedRowMax(dem, a, j)
  {
    ReflectNeighbours(j, dem.Length1);
  }

  /**
   * scipy's 'reflect' boundary only ever repeats edge cells for a size-3
   * window, so the filter response equals the window maximum clamped to the
   * raster.
   */
  lemma ReflectModeIsClampedWindow(dem: array2<int>, i: int, j: int)
    requires IsCell(dem, i, j)
    ensures ReflectWindowMax(dem, i, j) == ClampedWindowMax(dem, i, j)
  {
    var rows := dem.Length0;
    ReflectNeighbours(i, rows);
    ReflectRowIsClampedRow(dem, ReflectIndex(i - 1, rows), j);
    ReflectRowIsClampedRow(dem, i, j);
    ReflectRowIsClampedRow(dem, ReflectIndex(i + 1, rows), j);
  }

  /** An interior cell is a peak exactly when none of its eight neighbours is higher. */
  lemma PeakIffNoHigherNeighbour(dem: array2<int>, p: Pixel)
    requires IsInteriorCell(dem, p.y, p.x)
    ensures IsPeak(dem, p) <==>
      forall a, b :: p.y - 1 <= a <= p.y + 1 && p.x - 1 <= b <= p.x + 1 ==> dem[a, b] <= dem[p.y, p.x]
  {
    WindowMaxIsMaximum(dem, p.y, p.x);
  }

  /** On interior cells the clamped window is the full 3×3 window. */
  lemma ClampedWindowOnInterior(dem: array2<int>, i: int, j: int)
    requires IsInteriorCell(dem, i, j)
    ensures ClampedWindowMax(dem, i, j) == WindowMax(dem, i, j)
  {
    WindowMaxIsMaximum(dem, i, j);
    ClampedWindowMaxIsMaximum(dem, i, j);
  }

  /**
   * On interior cells the two detectors agree up to the minimum filter: the
   * mask flags (i, j) exactly when Peaks(dem), the loop variant's list,
   * holds (x = j, y = i) and the cell is not the global minimum.
   */
  lemma VariantsAgreeOnInterior(dem: array2<int>, i: int, j: int)
    requires IsInteriorCell(dem, i, j)
    ensures Flagged(dem, i, j) <==> Pixel(j, i) in Peaks(dem) && dem[i, j] != GlobalMin(dem)
  {
    ClampedWindowOnInterior(dem, i, j);
    PeaksAreTheLocalMaxima(dem);
  }

  /** The loop variant keeps the global minimum: on a flat raster every interior cell is a peak. */
  lemma FlatRasterEveryInteriorCellIsPeak(dem: array2<int>, v: int, p: Pixel)
    requires forall a, b :: IsCell(dem, a, b) ==> dem[a, b] == v
    requires IsInteriorCell(dem, p.y, p.x)
    ensures IsPeak(dem, p)
  {
    WindowMaxIsMaximum(dem, p.y, p.x);
  }

  /** The mask variant suppresses the global minimum: on a flat raster nothing is flagged. */
  lemma FlatRasterNothingFlagged(dem: array2<int>, v: int, i: int, j: int)
    requires forall a, b :: IsCell(dem, a, b) ==> dem[a, b] == v
    requires IsCell(dem, i, j)
    ensures !Flagged(dem, i, j)
  {
    GlobalMinIsMinimum(dem);
  }

  /**
   * A highest cell of a raster that is not flat is always flagged, on the
   * border as well as inside; if it is interior, the loop variant lists it.
   */
  lemma HighestCellIsFlagged(dem: array2<int>, i: int, j: int)
    requires IsCell(dem, i, j)
    requires forall a, b :: IsCell(dem, a, b) ==> dem[a, b] <= dem[i, j]
    requires exists a, b :: IsCell(dem, a, b) && dem[a, b] < dem[i, j]
    ensures Flagged(dem, i, j)
    ensures IsInteriorCell(dem, i, j) ==> IsPeak(dem, Pixel(j, i))
  {
    ClampedWindowMaxIsMaximum(dem, i, j);
    GlobalMinIsMinimum(dem);
    if IsInteriorCell(dem, i, j) {
      ClampedWindowOnInterior(dem, i, j);
    }
  }
}
