/** Georeferencing arithmetic: affine transforms, the transform of the
  coarsened raster (`resolution_converter_mode`) and the origin correction of a
  clipped raster (`array_to_inmemory_raster_for_clipped`).

  A transform `Affine(a, b, c, d, e, f)` maps the pixel corner (col, row) to
  x = a * col + b * row + c and y = d * col + e * row + f, as in the `affine`
  package.  Opening, resampling and writing rasters are outside the model: the
  resampled band and the in-memory raster are plain values. */
module Georef {
  import opened Grids
  import opened Outcomes

  datatype Affine = Affine(a: real, b: real, c: real, d: real, e: real, f: real)

  /** `transform * (col, row)`. */
  function Apply(t: Affine, col: real, row: real): (p: (real, real)) {
    (t.a * col + t.b * row + t.c, t.d * col + t.e * row + t.f)
  }

  /** `t * u`: the transform that applies `u` first and then `t`. */
  function Compose(t: Affine, u: Affine): (r: Affine) {
    Affine(t.a * u.a + t.b * u.d, t.a * u.b + t.b * u.e, t.a * u.c + t.b * u.f + t.c,
           t.d * u.a + t.e * u.d, t.d * u.b + t.e * u.e, t.d * u.c + t.e * u.f + t.f)
  }

  /** `Affine.scale(sx, sy)`. */
  function Scaling(sx: real, sy: real): Affine {
    Affine(sx, 0.0, 0.0, 0.0, sy, 0.0)
  }

  /** A single-band raster held in memory with its metadata. */
  datatype MemRaster = MemRaster(height: nat, width: nat, band: Grid, transform: Affine, crs: string)

  /** The number of columns of a rectangular array. */
  function Width<T>(g: seq<seq<T>>): nat {
    if |g| == 0 then 0 else |g[0]|
  }

  /** `array_to_inmemory_raster_for_non_clipped`: the shape is taken from the array. */
  function InMemoryRaster(band: Grid, t: Affine, crs: string): (r: MemRaster)
    ensures r.band == band && r.transform == t && r.crs == crs
    ensures r.height == |band| && (|band| > 0 ==> r.width == |band[0]|)
  {
    MemRaster(|band|, Width(band), band, t, crs)
  }

  // ---------------------------------------------------------------------------
  // resolution_converter_mode

  /** The downscale factor of `resolution_converter_mode`. */
  const Downscale: nat := 10

  /** What the model needs of the source dataset: its shape, its own transform
      and its CRS. */
  datatype SourceRaster = SourceRaster(height: nat, width: nat, transform: Affine, crs: string)

  /** `dataset.res[0]`, the pixel width the dataset derives from its transform:
      the coefficient `a`, as for a north-up transform. */
  function PixelWidth(src: SourceRaster): real {
    src.transform.a
  }

  /** The global grid the code assumes at the source resolution: origin
      (-180, 90), north up. */
  function GlobalGrid(res: real): Affine {
    Affine(res, 0.0, -180.0, 0.0, -res, 90.0)
  }

  /** `resolution_converter_mode`: `resampled` is the band that
      `dataset.read(out_shape=..., resampling=Resampling.mode)` returns, of shape
      `int(height / 10)` x `int(width / 10)`. */
  function ResolutionConverterMode(src: SourceRaster, resampled: Grid): (r: Result<MemRaster>)
    requires IsRect(resampled, src.height / Downscale, src.width / Downscale)
    ensures r.Err? <==> src.transform.a == 0.0
    ensures r.Err? ==> r.failure == ZeroResolution
    ensures r.Ok? ==>
      && r.value.band == resampled
      && r.value.crs == src.crs
      && (|resampled| > 0 ==> r.value.height == src.height / Downscale && r.value.width == src.width / Downscale)
  {
    if PixelWidth(src) == 0.0 then Err(ZeroResolution)
    else
      var initial := PixelWidth(src);
      var final := initial * Downscale as real;
      var scaleX := 1.0 / (initial / final);
      var scaleY := 1.0 / (-initial / -final);
      var t := Compose(GlobalGrid(initial), Scaling(scaleX, scaleY));
      Ok(InMemoryRaster(resampled, t, src.crs))
  }

  lemma TenthOfTen(r: real)
    requires r != 0.0
    ensures 1.0 / (r / (r * 10.0)) == 10.0
    ensures 1.0 / (-r / -(r * 10.0)) == 10.0
  {
    assert r / (r * 10.0) == 0.1;
    assert -r / -(r * 10.0) == 0.1;
  }

  /** The coarsened raster has pixel size 10 * a, where a is the source
      transform's pixel width, and origin (-180, 90), north up. */
  lemma CoarseTransform(src: SourceRaster, resampled: Grid)
    requires IsRect(resampled, src.height / Downscale, src.width / Downscale)
    requires src.transform.a != 0.0
    ensures ResolutionConverterMode(src, resampled).Ok?
    ensures ResolutionConverterMode(src, resampled).value.transform
            == Affine(10.0 * src.transform.a, 0.0, -180.0, 0.0, -10.0 * src.transform.a, 90.0)
  {
    TenthOfTen(src.transform.a);
  }

  /** Coarse pixel (col, row) has the corner of fine pixel (10 col, 10 row) of
      the global grid. */
  lemma CoarsePixelAlignment(src: SourceRaster, resampled: Grid, col: real, row: real)
    requires IsRect(resampled, src.height / Downscale, src.width / Downscale)
    requires src.transform.a != 0.0
    ensures ResolutionConverterMode(src, resampled).Ok?
    ensures Apply(ResolutionConverterMode(src, resampled).value.transform, col, row)
            == Apply(GlobalGrid(src.transform.a), 10.0 * col, 10.0 * row)
  {
    CoarseTransform(src, resampled);
    CoarseArithmetic(src.transform.a, col, row);
  }

  lemma CoarseArithmetic(r: real, col: real, row: real)
    ensures Apply(Affine(10.0 * r, 0.0, -180.0, 0.0, -10.0 * r, 90.0), col, row)
            == Apply(GlobalGrid(r), 10.0 * col, 10.0 * row)
  {
    var t := Affine(10.0 * r, 0.0, -180.0, 0.0, -10.0 * r, 90.0);
    assert Apply(t, col, row).0 == Apply(GlobalGrid(r), 10.0 * col, 10.0 * row).0;
    assert Apply(t, col, row).1 == Apply(GlobalGrid(r), 10.0 * col, 10.0 * row).1;
  }

  /** Of the source transform only the pixel width reaches the result: sources
      whose transforms share `a` give the same result whatever their other
      coefficients, and sources whose (non-zero) `a` differ give different
      transforms. */
  lemma PixelWidthDecides(src: SourceRaster, other: Affine, resampled: Grid)
    requires IsRect(resampled, src.height / Downscale, src.width / Downscale)
    ensures other.a == src.transform.a ==>
              ResolutionConverterMode(src, resampled)
              == ResolutionConverterMode(src.(transform := other), resampled)
    ensures other.a != src.transform.a && other.a != 0.0 && src.transform.a != 0.0 ==>
              ResolutionConverterMode(src, resampled).value.transform
              != ResolutionConverterMode(src.(transform := other), resampled).value.transform
  {
    if other.a != src.transform.a && other.a != 0.0 && src.transform.a != 0.0 {
      CoarseTransform(src, resampled);
      CoarseTransform(src.(transform := other), resampled);
    }
  }

  // ---------------------------------------------------------------------------
  // array_to_inmemory_raster_for_clipped

  /** `shapefile.bounds.iloc[0]`: the bounds of the first geometry. */
  datatype Bounds = Bounds(minx: real, miny: real, maxx: real, maxy: real)

  /** The array handed over: two-dimensional, or with a leading band axis. */
  datatype ArrayInput = Plane(rows: Grid) | Banded(bands: seq<Grid>)

  /** The transform after the two assignments of the code.  The first stores
      `maxy` in `xmin` and `minx` in `ymax`, and builds the transform with
      c := ymax and f := xmin; the second rebuilds it from its own a, b, d, e
      with the same c and f. */
  function CorrectedTransform(t: Affine, bounds: Bounds): (r: Affine)
    ensures r.a == t.a && r.b == t.b && r.d == t.d && r.e == t.e
    ensures r.c == bounds.minx && r.f == bounds.maxy
  {
    var xmin := bounds.maxy;
    var ymax := bounds.minx;
    var first := Affine(t.a, t.b, ymax, t.d, t.e, xmin);
    Affine(first.a, first.b, ymax, first.d, first.e, xmin)
  }

  /** `array_to_inmemory_raster_for_clipped`: a plane becomes the single band;
      of a banded array the first band is written. */
  function ArrayToInMemoryRasterForClipped(data: ArrayInput, t: Affine, crs: string, bounds: Bounds): (r: Result<MemRaster>)
    ensures r.Err? <==> data.Banded? && |data.bands| == 0
    ensures r.Ok? ==>
      && r.value.band == (if data.Plane? then data.rows else data.bands[0])
      && r.value.transform == CorrectedTransform(t, bounds)
      && r.value.crs == crs
  {
    match data
    case Plane(rows) => Ok(InMemoryRaster(rows, CorrectedTransform(t, bounds), crs))
    case Banded(bands) =>
      if |bands| == 0 then Err(NoBand)
      else Ok(InMemoryRaster(bands[0], CorrectedTransform(t, bounds), crs))
  }

  /** The top-left corner of the clipped raster is (minx, maxy) of the first
      geometry, and the pixel size and rotation of the source are kept. */
  lemma ClippedOrigin(data: ArrayInput, t: Affine, crs: string, bounds: Bounds)
    requires data.Plane? || |data.bands| > 0
    ensures ArrayToInMemoryRasterForClipped(data, t, crs, bounds).Ok?
    ensures var u := ArrayToInMemoryRasterForClipped(data, t, crs, bounds).value.transform;
      && Apply(u, 0.0, 0.0) == (bounds.minx, bounds.maxy)
      && forall col: real, row: real {:trigger Apply(u, col, row)} ::
           Apply(u, col, row).0 - Apply(t, col, row).0 == bounds.minx - t.c
           && Apply(u, col, row).1 - Apply(t, col, row).1 == bounds.maxy - t.f
  {
  }
}
