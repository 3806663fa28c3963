/** The error paths of the pipeline.  Python raises where these are produced;
  the model returns them. */
module Outcomes {

  datatype Failure =
    /** `arr[row, col]` with a coordinate outside the raster (IndexError). */
    | CoordinateOutOfRange(row: int, col: int)
    /** An empty list of rasters: the running value stays `None`, and
        `None * 1000` (harvested area) or `None[...]` (best crop) raises
        TypeError. */
    | NoLayers
    /** A raster whose pixel size is 0 divides by zero when the scale factors
        of the coarsened transform are computed (ZeroDivisionError). */
    | ZeroResolution
    /** A three-dimensional array without a band: `array[0]` raises IndexError. */
    | NoBand

  datatype Result<T> = Ok(value: T) | Err(failure: Failure)
}
