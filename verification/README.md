# Gipfelfinder local-maxima detector in Dafny

Gipfelfinder looks for summits in a digital elevation raster. Its first step
is a local-maxima detector in `algo.py`, which comes in two variants:

- `find_local_maxima` walks the interior of the raster twice with nested
  loops. The first pass writes the maximum of every interior cell's 3×3
  window into a zeroed map. The second pass lists, row by row, every
  interior cell equal to its map entry, as an `(x, y)` = `(column, row)`
  pair. Border rows and columns are never visited.
- `find_local_maxima_np` runs scipy's `maximum_filter(size=3)` over the
  whole raster. It builds a 0/1 mask that is 1 where the raster equals the
  filter response. It then zeroes every cell equal to the raster's global
  minimum, as a crude background heuristic.

The model has two modules:

- `Raster` (`raster.dfy`) holds the specification functions:
  - the 3×3 window maximum on interior cells (`WindowMax`);
  - the window maximum clamped to the raster (`ClampedWindowMax`);
  - scipy's 'reflect' boundary (`ReflectIndex`, `ReflectWindowMax`);
  - the global minimum (`GlobalMin`);
  - the row-major list of peaks (`PeaksBefore`, `Peaks`);
  - the mask predicate (`Flagged`).
- `Algo` (`algo.dfy`) holds the two detectors and the lemmas about them:
  - Both passes of `find_local_maxima` are methods over `array2<int>`, with
    loop invariants. They are proved against the specification functions.
  - The masked assignments of `find_local_maxima_np` are Dafny `forall`
    statements over a fresh `array2<int>`.

Elevations are compared only with `==`, `max` and `min`, so they are
modelled as integers.

Two behaviours of the code are easy to miss:

- The loop variant never excludes the global minimum. On a flat raster of
  at least 3×3 it therefore lists every interior cell
  (`Algo.FlatRasterEveryInteriorCellIsPeak`). Only the mask variant returns
  nothing there (`Algo.FlatRasterNothingFlagged`).
- The window is always 3×3. There is no window-size parameter and no
  configuration error for a bad one.

## Model

| member | source | states |
|---|---|---|
| Algo.WindowMaxMap | algo.py:21-30 | The first pass returns a new map of the raster's shape. Every interior cell holds the maximum of its 3×3 window; every border cell keeps the zero it was allocated with. |
| Algo.FindLocalMaxima | algo.py:13-39 | The returned list is exactly `Peaks(dem)`: the interior cells equal to their window maximum, scanned row by row and column by column, each as (x = column, y = row). |
| Algo.PeaksBeforeSpec | algo.py:35-38 | After the scan has passed cell (j, i), the list holds exactly the peaks that come before (j, i) in row-major order. They appear in strictly increasing row-major order. |
| Algo.PeaksAreTheLocalMaxima | algo.py:26-38 | A pixel is in the result iff it is an interior cell equal to its 3×3 window maximum. Every returned pixel has 1 ≤ x ≤ cols-2 and 1 ≤ y ≤ rows-2. |
| Algo.PeaksInRowMajorOrder | algo.py:35-38 | The result is ordered by row, then by column, and contains no duplicates. |
| Algo.SmallRasterHasNoPeaks | algo.py:26-36 | A raster with fewer than 3 rows or fewer than 3 columns yields an empty list. |
| Algo.NarrowRasterHasNoPeaks | algo.py:35-36 | With fewer than 3 columns, no row contributes anything, whatever the number of rows. |
| Algo.PeakIffNoHigherNeighbour | algo.py:28-37 | An interior cell is listed iff none of the nine cells of its window is higher than it. |
| Raster.WindowMaxIsMaximum | algo.py:28-29 | The window maximum is at least every cell of the 3×3 window (the centre included) and equals one of them. |
| Algo.FlatRasterEveryInteriorCellIsPeak | algo.py:37-38 | On a flat raster every interior cell is a peak of the loop variant, because it keeps global-minimum cells. |
| Algo.FindLocalMaximaMask | algo.py:41-53 | A zero-size raster fails, because `np.min` raises. Otherwise the result is a new array of the raster's shape. Each entry is 1 iff the cell equals its clamped 3×3 window maximum and is not the global minimum, and 0 otherwise. |
| Algo.MaximumFilter | algo.py:48 | The filter returns a new array of the raster's shape. Each cell holds the maximum of its 3×3 window read through scipy's 'reflect' boundary. |
| Raster.ReflectIndex | algo.py:48 | The index 'reflect' reads always lies inside the axis, and it is the position itself when that is inside. |
| Algo.ReflectNeighbours | algo.py:48 | On an axis of length n, 'reflect' reads the neighbours of k, or k itself at either edge. |
| Algo.ReflectRowIsClampedRow | algo.py:48 | One reflected window row has the same maximum as the row clamped to the raster. |
| Algo.ReflectModeIsClampedWindow | algo.py:48 | For a 3×3 window, the 'reflect' filter response equals the window maximum clamped to the raster. |
| Raster.ClampedWindowMaxIsMaximum | algo.py:48 | The clamped window maximum is at least every window cell inside the raster, and equals one of them. |
| Algo.MaskIsFlagged | algo.py:50-52 | Setting 1 where the raster equals the filter response, then 0 where it equals the global minimum, leaves 1 exactly on the flagged cells and 0 elsewhere. |
| Raster.RowMinIsMinimum | algo.py:52 | The minimum of a row prefix is at most each of its cells and equals one of them. |
| Raster.RowsMinIsMinimum | algo.py:52 | The minimum of the first rows is at most each of their cells and equals one of them. |
| Raster.GlobalMinIsMinimum | algo.py:52 | The global minimum is at most every cell and is held by some cell. |
| Algo.FlatRasterNothingFlagged | algo.py:52 | On a flat raster every cell equals the global minimum, so the mask is all zeros. |
| Algo.HighestCellIsFlagged | algo.py:48-52 | A highest cell of a raster that is not flat is flagged, on the border too. If it is interior, the loop variant lists it as well. |
| Algo.ClampedWindowOnInterior | algo.py:28-29 | On interior cells the clamped window maximum is the full 3×3 window maximum. |
| Algo.VariantsAgreeOnInterior | algo.py:37-52 | On an interior cell (i, j) the mask is 1 iff `Pixel(j, i)` is in the loop variant's list `Peaks(dem)` and the cell is not the global minimum. |

## Left out

- `find_peaks` (algo.py:7-11) returns `random.randint` values and prints. It is nondeterministic and has no contract.
- The `__main__` block of `algo.py` (image loading with PIL, printing) is I/O.
- `ui.py`, `gui.py`, `geo_utils.py` and `read.py` are not part of this model. They are widget code, plotting, raster-file loading and floating-point geodesy.
- Prominence, dominance, path sampling and ranking are not implemented by the detector's code, so they are not modelled.
- Elevations are integers. Float rasters, NaN no-data values and numpy dtype overflow are not modelled.
- Algo.FindLocalMaximaMask: the mask holds the integers 0 and 1, where numpy returns float64 0.0 and 1.0.
- Algo.FindLocalMaximaMask: a zero-size raster is a `Failure(ZeroSizeRaster)` result. The exact exception type, and whether `maximum_filter` already raises before `np.min` does, are not modelled.
- Algo.WindowMaxMap: `np.zeros_like` gives the map the raster's dtype. Here it is always an integer array.
